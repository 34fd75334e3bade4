# Verified model of mega2

mega2 is a monorepo Git server with operator commands around it. This project models the parts of it
whose behaviour is hardest to see from one function body, and proves laws about them that hold for
every input, every schedule or every history.

| Component | Modules | Main results |
|---|---|---|
| RFC 8785 canonical JSON | `Wrappers`, `Lexicographic`, `JsonError`, `Decimal`, `JsonNumber`, `Es6Number`, `Float64`, `Utf8`, `Utf16`, `Json`, `JsonString`, `JsonGrammar`, `JsonReader`, `JsonComplete`, `JsonSound`, `CanonicalJson`, `CanonicalText`, `JsonParser`, `JsonWriter` | accepted texts are exactly the grammar's; every output has the form RFC 8785 prescribes; equal output if and only if equal meaning; idempotence; the byte parser and the writer refine the specification |
| Git tree rewriting | `GitTree`, `TreeUpdate`, `ProbeStore`, `TreeWalk` | what a path-copying update changes and keeps; when it succeeds; every new tree in Git's order; whole modification lists; reachability |
| Object migration | `Migration`, `MigrationSafety`, `MigrationOutcome`, `MigrationProgress`, `MigrationExistence`, `MigrationTask` | invariants of every interleaving; Ok runs agree and exactly when there is one; dry runs predict; termination and the exact deadlock |
| ImportRepo removal | `ImportRepo`, `ImportRepoSafety`, `ImportRepoDriver` | call bounds, truthful answers under interrupts, the exact answer and every call of a driver against arbitrary answers, and the exact case where "unchanged" is wrong |
| Configuration expansion | `Placeholder`, `ConfigExpand`, `ConfigNoninterference`, `ConfigMeaning`, `ConfigOutcome`, `ConfigLeaves`, `ConfigSubstitute` | placeholder substitution inverts rendering; every override, variable and error from the text of the fields; noninterference of secret files, exactly, for whole configurations |
| Commit messages and `LIKE` | `CommitMessage`, `LikePattern` | split and render are inverse; escaped patterns match exactly one text or prefix |
| Audit byte accounting | `CapacityLedger`, `LedgerHistory`, `LedgerAdmission`, `RunTree`, `AuditRun`, `AuditRunOwner`, `AuditRunCommands`, `ManifestText`, `ProtectedManifest`, `ProtectOutcome`, `ProtectCommands` | settled deltas equal bytes on disk over crashes and retries, with the exact exceptions; who is admitted and who may settle; the capacity over whole histories |

Code that the program writes with loops and updated fields is modelled by methods and classes, each
proved against a specification function; the laws are lemmas about those functions. Concurrency and
interruption are step relations over explicit states, with every run quantified over.

## What is assumed

- `Float64.Faithful` is what the canonicalizer needs of `str::parse::<f64>` and `ryu`: the double
  depends only on the sign and the rational a lexeme denotes, zero is read as zero, and what `ryu`
  prints is a number of the JSON grammar that reads back as the same double, whose written exponent
  and whose first digit's exponent fit 32 bits.
  `Float64.FaithfulExists` gives a conversion that meets it.
- Tree hashes are collision-free, names are unique in a tree, and the store is closed
  (`GitTree.Sound`; `GitTree.CollisionFreeExists` gives such a hash).
- The migration's listing has no path twice, an upload appears only when it completes (which may still
  be reported as an error), and nobody else writes to the target.
- The cleanup entry of ImportRepo may answer anything that its own comments allow: it detaches only
  when called without a continuation and writes the ledger row in the same transaction.
- `envsubst`, `str::trim` and the configuration builder's key check are arbitrary pure functions.
- `serde_json` reads back the compact manifest it wrote (`ManifestText.ReadsBack`;
  `ManifestText.CompactReadsBack` shows that this can be met).
- Directory names are unique and no one else changes a run directory while a command measures it.

## Where the code does not do what one would expect

- `migrate_all`: when a task panics, the counters sum to one less than the reaped tasks
  (`MigrationOutcome.EveryState`, reached in `MigrationExistence.PanicState`).
- `migrate_all`: `--concurrency 0` is accepted on the command line and waits forever exactly when the
  listing starts with an object (`MigrationProgress.StuckExactly`).
- `retry_with_backoff`: a wait is shorter than the one before it exactly where the doubled delay first
  overflows a `Duration` (`MigrationTask.DelayGrows`, `MigrationTask.DelayShrinks`). The program passes
  100 ms and 3 retries, where no product overflows.
- `import-repo remove`: the answer "unchanged" can be wrong exactly when the run was started by path
  and the path may be registered again meanwhile (`ImportRepoSafety.UnchangedExactly`).
- Secret files: a file whose content spells the field's own text leaves the field unchanged, so its key
  is not handed to the builder. File contents decide between success and an error exactly when the
  first file field whose key the builder refuses is reached and can be spelled like that
  (`ConfigNoninterference.Noninterference`).
- `parse_shortest_decimal` and `es6_format`: the value is lost exactly when the exponent of the first
  digit is not computed within 32 bits, as for `12e2147483647`, or when a zero gets an exponent that is
  padded, as for `0e5`, which becomes `000000` (`Es6Number.ReformatKeeps`,
  `Es6Number.ExponentOverflows`, `Es6Number.ZeroPadded`). Sums wrap as in a build without overflow
  checks; with them the overflow is a panic. The program passes only what `ryu` prints for a nonzero
  double, so neither input reaches these functions in it.
- `run-commit` and `run-abort` record the byte count exactly when it fits 63 bits, and a later
  `run-abort` of a settled run can delete lock files whose bytes were charged
  (`AuditRun.AccountingStays`, `AuditRun.ChargedLockLost`).
- A settlement may charge more than its operation reserved; stored plus promised bytes then grow by the
  difference, past the capacity if there is no room (`LedgerAdmission.SettleShifts`). Without such a
  settlement they never pass it (`LedgerAdmission.AlwaysWithinCap`).
- `protect` and `unprotect`: a replacement whose directory fsync fails leaves the new file in place
  but settles nothing (`ProtectedManifest.StepBalances`, `ProtectedManifest.SlipExample`).
- The helper pattern for descendants of the root also matches the root, unlike the helper test
  (`LikePattern.QueryAgrees`). The query and the test that include the path itself agree on every
  absolute path (`LikePattern.AtOrBelowAgrees`).

## Model

| member | source | states |
|---|---|---|
| `CanonicalJson.Acceptance` | src/common/canonical_json.rs:25-39 | a text is accepted if and only if it is a document of the RFC 8259 grammar with paired surrogates, no duplicate key, finite numbers and nesting of at most 128 |
| `CanonicalJson.DocumentOutcome` | src/common/canonical_json.rs:25-39 | a well-formed document nested at most 128 deep yields the print of its canonical tree; a deeper one is an error |
| `CanonicalJson.Reading` | src/common/canonical_json.rs:25-39 | every accepted text has a syntax tree behind it and the output is that tree's |
| `CanonicalJson.SameOutputSameMeaning` | src/common/canonical_json.rs:72-124 | two accepted documents are printed alike if and only if they denote the same value, objects as key maps and numbers as doubles |
| `CanonicalJson.MeaningDetermined` | src/common/canonical_json.rs:159-187 | a text has one meaning, whichever reading is taken |
| `CanonicalJson.PrintParse` | src/common/canonical_json.rs:72-124 | parsing the printed form of any canonical value of nesting at most 128 gives that value back |
| `CanonicalJson.Idempotent` | src/common/canonical_json.rs:25-39 | canonicalizing the output of any accepted input returns it unchanged |
| `CanonicalJson.NestingKept` | src/common/canonical_json.rs:198-208 | canonicalization keeps the nesting depth, so the limit is stable |
| `CanonicalJson.PrintedRepresents` | src/common/canonical_json.rs:72-103 | the printer's output is the text of a valid syntax tree whose canonical form is the printed value |
| `CanonicalText.OutputCanonical` | src/common/canonical_json.rs:25-124 | the output for every accepted document is the text of a syntax tree without white space, with each object's keys rising by their UTF-16 units, the shortest escapes and ECMAScript numbers, and with the document's meaning |
| `CanonicalText.CanonicalizeMeans` | src/common/canonical_json.rs:25-39 | the same on texts: what `canonicalize` returns is such a text for the value its input is written for |
| `CanonicalText.EscapeUnits` | src/common/canonical_json.rs:336-353 | a hex escape, single or paired, is the UTF-16 spelling of the character it is decoded to |
| `Json.CanonicalUnique` | src/common/canonical_json.rs:249-288 | two canonical forms with the same meaning are the same value: sorting duplicate-free keys has one result |
| `Json.DenSort` | src/common/canonical_json.rs:286-287 | sorting members does not change the key map an object denotes |
| `Json.SortSorted` | src/common/canonical_json.rs:286-287 | the key sort is a permutation in strict key order; `Utf16.KeyLessMeans` says which order that is |
| `Utf16.KeyOrder` | src/common/canonical_json.rs:286-287 | the key order is total and tells different keys apart |
| `Utf16.KeyTransitive` | src/common/canonical_json.rs:286-287 | the key order is transitive |
| `Utf16.KeyLessMeans` | src/common/canonical_json.rs:286-287 | one key stands before another if and only if, in the sequences of 16-bit units that decode to them, the first differing unit is smaller or the first key has ended |
| `Utf16.EncodeSpells` | src/common/canonical_json.rs:286-287 | the only spelling of a string: one unit equal to a code point below 0x10000, otherwise a high and a low surrogate that decode to it |
| `Lexicographic.LessMeans` | src/common/canonical_json.rs:286-287 | the comparison is decided at the first difference, a proper prefix first |
| `JsonGrammar.CanonDenotes` | src/common/canonical_json.rs:210-288 | the tree built by the parser is in canonical form and denotes what the text denotes |
| `JsonComplete.ValueComplete` | src/common/canonical_json.rs:159-187 | the parser reads any well-formed value at any depth, consumes exactly its text, and fails if and only if it nests past the limit |
| `JsonSound.ValueSound` | src/common/canonical_json.rs:159-187 | whatever the parser accepts is the text of a valid value within the depth left, with that value's canonical form |
| `JsonString.BodyComplete` | src/common/canonical_json.rs:290-315 | every spelling of a string (raw, short escape, hex escape, surrogate pair) is decoded to its characters |
| `JsonString.BodySound` | src/common/canonical_json.rs:290-372 | an accepted string body is one of those spellings |
| `JsonString.EscapedDenotes` | src/common/canonical_json.rs:106-124 | the escaped form of any string is a spelling of that string |
| `JsonString.ElemForMinimal` | src/common/canonical_json.rs:106-124 | a character is written as itself wherever it may be, by its short escape if it has one, and otherwise in lower-case hex |
| `JsonString.HexTable` | src/common/canonical_json.rs:355-372 | a hex digit of either case has its place in the hex alphabet as value |
| `JsonNumber.LexNumberComplete` | src/common/canonical_json.rs:374-418 | every number of the grammar is taken whole when nothing that continues it follows |
| `JsonNumber.LexNumberSound` | src/common/canonical_json.rs:374-418 | an accepted number lexeme is a number of the grammar followed by the rest |
| `JsonNumber.NumberTextInjective` | src/common/canonical_json.rs:374-418 | a lexeme has one reading |
| `Es6Number.CoeffToDigitsValue` | src/common/canonical_json.rs:467-496 | for every coefficient the digits and exponent denote its rational; the digits start with no zero unless they are a single zero, and end in none exactly when the coefficient is not zero and has a point or does not end in zero |
| `Es6Number.ShortestDecimalValue` | src/common/canonical_json.rs:449-465 | the parsed sign, digits and exponent denote the lexeme's rational if and only if the exponent of the first digit survives the 32-bit arithmetic or the number is zero; how the digits start and end |
| `Es6Number.Es6FormatDenotes` | src/common/canonical_json.rs:498-540 | for every sign, digit string and exponent: the text is a JSON number if and only if the digits do not put a zero in front of other integer digits; then, in all four layouts, it has that sign and denotes the digits and exponent |
| `Es6Number.Es6SyntaxShape` | src/common/canonical_json.rs:498-540 | a first digit of exponent -6 to 20 is laid out without an exponent; any other with one integer digit, `e`, the sign and the exponent; digits without a trailing zero give a fraction without one |
| `Es6Number.ReformatKeeps` | src/common/canonical_json.rs:449-540 | taking any number of the grammar apart and laying it out again yields a JSON number of the same sign and value if and only if the exponent of its first digit survives the 32-bit arithmetic or, for a zero, the computed exponent is not one that is padded |
| `Es6Number.ExponentFits` | src/common/canonical_json.rs:449-465 | for coefficients below 2^31 characters, it survives if and only if the written exponent and the sum fit 32 bits |
| `Es6Number.ExponentOverflows` | src/common/canonical_json.rs:464-464 | `12e2147483647`, whose written exponent fits and whose value is lost |
| `Es6Number.WrapOnce` | src/common/canonical_json.rs:464-496 | wrapping every step of the exponent arithmetic or only its result is the same |
| `Es6Number.ZeroPadded` | src/common/canonical_json.rs:498-540 | `0e5` comes out as `000000`, which is no JSON number |
| `Es6Number.Es6FormatInjective` | src/common/canonical_json.rs:498-540 | equal texts come from equal sign, digits and exponent, for digit strings without outer zeros |
| `Es6Number.WriteEs6` | src/common/canonical_json.rs:498-540 | the formatter, appending to a buffer, produces the specified layout |
| `Float64.DoubleTextReadsBack` | src/common/canonical_json.rs:421-445 | the canonical text of a double is a number lexeme that is read as the same double, the sign of zero aside, and is `0` or laid out as ECMAScript prescribes for its exponent |
| `Float64.FaithfulExists` | src/common/canonical_json.rs:439-445 | the assumption on the conversions can be met by one with nonzero doubles of both signs |
| `JsonParser.Parser.Peek` | src/common/canonical_json.rs:137-139 | the next byte, which tells an ASCII character from others |
| `JsonParser.Parser.Bump` | src/common/canonical_json.rs:141-151 | moves one whole character on, from boundary to boundary |
| `JsonParser.Parser.SkipBlanks` | src/common/canonical_json.rs:153-157 | consumes exactly the white space ahead |
| `JsonParser.Parser.TakeHex` | src/common/canonical_json.rs:355-372 | four hex digits by bytes, as the specification reads them by characters |
| `JsonParser.Parser.HexEscape` | src/common/canonical_json.rs:336-353 | code units and surrogate pairs, lone surrogates refused |
| `JsonParser.Parser.Escape` | src/common/canonical_json.rs:317-334 | short and hex escapes |
| `JsonParser.Parser.ParseString` | src/common/canonical_json.rs:290-315 | the string loop agrees with the specification on result and position |
| `JsonParser.Parser.ParseNumberText` | src/common/canonical_json.rs:374-418 | the number scan over bytes takes the specified lexeme and converts it |
| `JsonParser.Parser.ArrayBody` | src/common/canonical_json.rs:217-240 | the array loop; the index stays a UTF-8 boundary and the depth is as on entry |
| `JsonParser.Parser.MemberKey` | src/common/canonical_json.rs:249-288 | one key and its colon; a repeated key is refused |
| `JsonParser.Parser.ObjectBody` | src/common/canonical_json.rs:249-288 | the object loop, with the duplicate check, at the same boundary and depth |
| `JsonParser.Parser.ParseAny` | src/common/canonical_json.rs:159-215 | the recursive descent returns what the specification returns, at a character boundary, with depth at most 128 and restored on success and on error |
| `JsonWriter.WriteString` | src/common/canonical_json.rs:106-124 | appends exactly the escaped text |
| `JsonWriter.WriteJcs` | src/common/canonical_json.rs:72-103 | appends exactly the printed value |
| `JsonWriter.CanonicalizeBytes` | src/common/canonical_json.rs:25-39 | the whole program on the bytes of a text returns what the specification returns on the text, including every error, and what it returns is a canonical text for the value of its input |
| `GitTree.SortGitSorted` | src/jupiter/utils/converter.rs:618-631 | the entry sort is in Git order, where a directory sorts as its name with a slash |
| `GitTree.KeyNotLess` | src/jupiter/utils/converter.rs:618-631 | the sort key orders two entries by the first byte in which their names differ, a name that ends going on with `/` for a directory and NUL for anything else |
| `GitTree.UpdateInOrder` | examples/view_bench.rs:1376-1426 | every tree an update pushes has its entries in that order, whatever order the old trees had |
| `GitTree.CollisionFreeExists` | examples/view_bench.rs:1376-1426 | the assumption on the tree hash can be met |
| `GitTree.ReplacedEntries` | examples/view_bench.rs:1376-1408 | replacing an entry keeps every other entry, keeps names unique and puts the entries in Git's order |
| `TreeUpdate.Frame` | examples/view_bench.rs:1376-1408 | a store that only grows answers every resolution as before |
| `TreeUpdate.BuildEffect` | examples/view_bench.rs:1410-1426 | building missing trees yields one tree per component, resolving the path to the new blob and nothing else |
| `TreeUpdate.UpdateEffect` | examples/view_bench.rs:1376-1426 | a successful update adds exactly one tree per component to a sound store, each in Git's order; the new root resolves the path to the new blob, nothing below it, trees above it, and every unrelated path as before |
| `TreeUpdate.UpdateSucceeds` | examples/view_bench.rs:1376-1408 | on a closed store an update succeeds if and only if no proper prefix of the path is a file, and that is its only error |
| `TreeUpdate.ApplyAllEffect` | examples/view_bench.rs:1098-1112 | any list of modifications succeeds if and only if none crosses a file that the parent and the earlier ones leave in its way; then the answer at every path is that of the last modification that bears on it, or the parent's, and the store stays sound |
| `TreeUpdate.ApplyAllInOrder` | examples/view_bench.rs:1098-1112 | after any list every tree of the store was there before or is in Git's order |
| `TreeUpdate.PrefixFreeEffect` | examples/view_bench.rs:1098-1112 | if no path is a proper prefix of another: success if and only if none crosses a file of the parent; every listed path has its last content and every unrelated one is as in the parent |
| `ProbeStore.Probe.BuildMissingTree` | examples/view_bench.rs:1410-1426 | pushes the specified trees, children first, and returns the last one's id |
| `ProbeStore.Probe.UpdateTree` | examples/view_bench.rs:1376-1408 | pushes the specified trees, all in Git's order, or nothing on an error |
| `ProbeStore.Probe.Append` | examples/view_bench.rs:1090-1116 | the modifications in front of the first invalid path are applied in turn; the store, always the old one with the new trees, all in Git's order, and the result are fixed for success, for a refused modification (with those before it applied), for an invalid path and for an unchanged root |
| `ProbeStore.Reinsert` | examples/view_bench.rs:1098-1112 | inserting all trees so far after every modification equals inserting each batch once |
| `ProbeStore.SplitPath` | examples/view_bench.rs:1101-1101 | no component holds a slash, and the components joined by slashes are the path |
| `ProbeStore.SplitComponents` | examples/view_bench.rs:1101-1101 | a string is a component if and only if it stands in the path between slashes or the ends and holds none |
| `ProbeStore.InvalidExactly` | examples/view_bench.rs:1101-1107 | a path is refused if and only if it has an empty component, `.` or `..` |
| `TreeWalk.Walk.Collect` | examples/view_bench.rs:1010-1028 | one visit marks only reachable trees, leaves the marked set closed, skips visited ones soundly, and on an error names a missing reachable tree |
| `TreeWalk.CollectAll` | examples/view_bench.rs:956-968 | over all commits from an empty set: succeeds if and only if every reachable tree is present, then returns exactly the reachable trees, on any graph |
| `MigrationSafety.StepInv` | src/bin/migrate_local_to_s3.rs:424-496 | every step of every task and of the loop keeps the invariant on positions, permits, counters and objects |
| `MigrationSafety.RunInv` | src/bin/migrate_local_to_s3.rs:424-496 | the invariant holds in every state of every run |
| `MigrationOutcome.EveryState` | src/bin/migrate_local_to_s3.rs:317-496 | in every state: spawned is reaped plus buffered, the counters sum to reaped (one less after a panic), running tasks and handles are within their limits, old objects are untouched and new ones faithful copies; an Ok return means every listed object is there unless dry-run |
| `MigrationOutcome.SummaryTallies` | src/bin/migrate_local_to_s3.rs:395-412 | in every state the retries are the sum over the joined results, and each other counter is the number of results of its kind |
| `MigrationOutcome.RetriesBounded` | src/bin/migrate_local_to_s3.rs:283-390 | a joined skip or dry copy took no retry, an upload at most the limit, and a failure none or all of them |
| `MigrationOutcome.WorkCounts` | src/bin/migrate_local_to_s3.rs:283-390 | a task reports the retries it made, and an upload is given up only when they are used up |
| `Migration.BufferedExactly` | src/bin/migrate_local_to_s3.rs:424-437 | where the run starts at all, the handle limit is four per worker and at least 64 |
| `MigrationOutcome.OkOutcome` | src/bin/migrate_local_to_s3.rs:424-481 | an Ok return fixes the final target and all three counts |
| `MigrationOutcome.OkRunsAgree` | src/bin/migrate_local_to_s3.rs:424-481 | all Ok schedules end with the same target and the same counts |
| `MigrationOutcome.DryRunPredicts` | src/bin/migrate_local_to_s3.rs:359-390 | a dry run writes nothing and reports the counts of the real run |
| `MigrationOutcome.SecondRunSkips` | src/bin/migrate_local_to_s3.rs:359-390 | a second run skips every object and changes nothing |
| `MigrationExistence.OkExactly` | src/bin/migrate_local_to_s3.rs:424-481 | an Ok run exists if and only if every entry is listed, every object is in the source or the target or the run is dry, and the semaphore can be made and has a permit if one is needed |
| `MigrationExistence.PanicState` | src/bin/migrate_local_to_s3.rs:485-496 | a run that a panic ends with one task reaped and none counted |
| `MigrationExistence.PanicExactly` | src/bin/migrate_local_to_s3.rs:485-496 | a task's panic can end a run if and only if the semaphore can be made and a first task can be spawned |
| `MigrationProgress.RunsAreFinite` | src/bin/migrate_local_to_s3.rs:283-313 | the length of every run is bounded by the listing, the object sizes and the retry limit |
| `MigrationProgress.StepDecreases` | src/bin/migrate_local_to_s3.rs:424-481 | every step uses up some of that bound |
| `MigrationProgress.StuckState` | src/bin/migrate_local_to_s3.rs:438-465 | the loop can wait forever only for a permit, and only when there are none at all |
| `MigrationProgress.StuckExactly` | src/bin/migrate_local_to_s3.rs:188-193 | a run can get stuck if and only if the concurrency is 0 and the listing starts with an object |
| `MigrationTask.RetryWithBackoff` | src/bin/migrate_local_to_s3.rs:283-313 | returns the first success, an error only after all retries, and waits by the capped doubling of the base delay, or 30 seconds where that overflows |
| `MigrationTask.BackoffGrows` | src/bin/migrate_local_to_s3.rs:301-303 | the factors start at 1, double up to 65536 and stay there |
| `MigrationTask.DelayGrows` | src/bin/migrate_local_to_s3.rs:301-307 | a wait is at least the one before it if and only if it is not the first whose product overflows |
| `MigrationTask.DelayShrinks` | src/bin/migrate_local_to_s3.rs:301-307 | with the largest base delay the second wait is shorter than the first |
| `MigrationTask.MigrationSummary.Record` | src/bin/migrate_local_to_s3.rs:395-412 | folds one result into the counters, retries included |
| `MigrationTask.MigrationSummary.Drain` | src/bin/migrate_local_to_s3.rs:485-496 | a panicked task fails the run and is not counted |
| `ImportRepoSafety.RunInv` | src/commands/import_repo.rs:308-457 | the invariant on rounds, handles, detaches and answers holds in every state, whatever the entry, the ledger, other writers and interrupts do |
| `ImportRepoSafety.CallsBounded` | src/commands/import_repo.rs:308-402 | at most `max_rounds` calls; without a continuation only in round 1 and only when started by path; at most one own detach |
| `ImportRepoSafety.ResumeIsReal` | src/commands/import_repo.rs:412-457 | an answer that names a cleanup names a ledger row of the path, and once a round named one the answer carries it |
| `ImportRepoSafety.AnswerJustified` | src/commands/import_repo.rs:412-457 | every answer of an interrupted run was justified by what it knew and by the ledger when it was read: the handle, a row of the repository seen before round 1 or the first pending row of the path, or nothing because there is no such row |
| `ImportRepoSafety.NothingHidesNoneLiveBefore` | src/commands/import_repo.rs:116-143 | "unchanged" never hides the detach of the repository seen before round 1, and hides none at all if nobody registers the path meanwhile |
| `ImportRepoSafety.UnchangedExactly` | src/commands/import_repo.rs:412-457 | "unchanged" can be wrong if and only if the run is by path and the path may be registered again |
| `ImportRepoSafety.ReplacedMidway` | src/commands/import_repo.rs:412-457 | a concrete run in which it is wrong |
| `ImportRepoSafety.FinishedMeansDrained` | src/commands/import_repo.rs:336-383 | Removed and Absent only after a read that showed no pending cleanup of the path |
| `ImportRepoDriver.Driver.Round` | src/commands/import_repo.rs:385-402 | one counted call |
| `ImportRepoDriver.Driver.Drive` | src/commands/import_repo.rs:308-383 | against arbitrary answers: at most `max_rounds` calls; each call and read is the one the answers before it call for (a Pending answer is continued by the cleanup it names, a read by its first row); Removed and Absent if and only if that is the answer of the first call not answered Pending and a read has come back empty; Pending if and only if the last round still asks for that cleanup; an error if and only if the next call or read fails with it; the handle is the cleanup named last |
| `ImportRepoDriver.Driver.Open` | src/commands/import_repo.rs:314-332 | what the reads in front of round 1 leave, and the continuation it has |
| `ImportRepoDriver.Driver.Drain` | src/commands/import_repo.rs:364-382 | the drain answers the primary result exactly after an empty read, and otherwise as the whole run does |
| `Placeholder.MapFilePlaceholders` | src/config/expand.rs:228-262 | the scanning loop computes the specified substitution, or the specified error |
| `Placeholder.MapRendered` | src/config/expand.rs:228-262 | substituting in a rendering of literals and placeholders fills in exactly the placeholders |
| `Placeholder.AcceptedRenders` | src/config/expand.rs:228-262 | every accepted input is such a rendering, so no placeholder is left and none is found elsewhere |
| `Placeholder.FoundWhereWritten` | src/config/expand.rs:228-262 | the first placeholder is found where it was written, literals with `$` included |
| `ConfigMeaning.ShapeExists` | src/config/expand.rs:228-262 | every string is literals and placeholders followed by clean text, by a placeholder without a brace, or by one with another placeholder in its path |
| `ConfigMeaning.StripMeans` | src/config/expand.rs:276-296 | the content is the file without one final `\n` or `\r\n`, and all of it if it ends in neither |
| `ConfigMeaning.ValueExactly` | src/config/expand.rs:166-296 | the value of any field: the literals with each file's content in its place, the substitution of a templated field, or the field itself; and exactly which error for an open or nested placeholder, a mixed field, an unreadable file (the first one), a failed or unfinished substitution |
| `ConfigOutcome.RunExactly` | src/config/expand.rs:18-115 | a run over any fields succeeds with exactly these overrides (the last changed value of each key) and variables (the last value of each key among the fields without a file placeholder), or stops with exactly that error, as the fields' own text says |
| `ConfigLeaves.LeavesExactly` | src/config/expand.rs:311-331 | the traversal reports exactly the strings at the paths of a value, under the path's names joined by dots and its indices in brackets |
| `ConfigLeaves.FieldsOfConfig` | src/config/expand.rs:29-91 | the fields expanded are exactly the top-level strings and, for every key found below a top-level table, one string found there |
| `ConfigNoninterference.ValueNoninterference` | src/config/expand.rs:166-205 | for one value, the outcome never depends on file contents, and only a file field's value does |
| `ConfigNoninterference.NoninterferenceExactly` | src/config/expand.rs:18-115 | for any fields visited in any order: other contents of readable files change neither the field the run stops at, nor the error, nor a variable, nor an override outside the file fields, if and only if no file field with a refused key is reached first, well formed, and spelled by some file contents |
| `ConfigNoninterference.Noninterference` | src/config/expand.rs:18-115 | the same for the two passes over a whole configuration, in every iteration order |
| `ConfigNoninterference.ReproducibleExactly` | src/config/expand.rs:228-296 | whether file contents can spell a field is a matter of its text: some pieces, one for each file and none longer than the field, make it out of its literals |
| `ConfigNoninterference.SettableExactly` | src/config/expand.rs:18-115 | for a field with any number of placeholders that spells no file in two ways, the outcome is independent of file contents if and only if the builder takes its key |
| `ConfigNoninterference.SharedFileStops` | src/config/expand.rs:228-296 | a field that names one file in two spellings and that no contents can spell |
| `ConfigSubstitute.Traverse` | src/config/expand.rs:311-331 | the recursive walk inserts exactly the string leaves under their joined keys, in order |
| `ConfigSubstitute.CollectNested` | src/config/expand.rs:58-81 | the nested pass collects exactly the leaves of the top-level tables |
| `ConfigSubstitute.VariableSubstitute` | src/config/expand.rs:18-115 | the two loops compute the specified overrides and variables, or the specified error, for every iteration order, and that result is the one the text of the fields explains (`ConfigOutcome.RunExactly`) |
| `CommitMessage.SplitCommitMessage` | src/common/utils.rs:110-154 | the loop over lines computes the specified split |
| `CommitMessage.SplitRendered` | src/common/utils.rs:110-154 | splitting the rendering of any headers with valid keys and any multi-line values, and any body, returns exactly them |
| `CommitMessage.SplitFaithful` | src/common/utils.rs:110-154 | a message is the rendering of its split if it is framed at all, and all body otherwise |
| `CommitMessage.UnsignedRoundTrip` | src/common/utils.rs:64-73 | a message formatted without a signature splits to no headers and itself |
| `CommitMessage.SignedRoundTrip` | src/common/utils.rs:64-73 | a message formatted behind a header block splits back to those headers and itself |
| `CommitMessage.SignedExactly` | src/common/utils.rs:64-73 | a signed message splits back to itself if and only if the signature is a header block with valid keys |
| `CommitMessage.KeyCodes` | src/common/utils.rs:142-146 | the characters of a key by their ASCII codes: hyphen, digits and letters |
| `CommitMessage.SignatureFound` | src/common/utils.rs:90-100 | a `gpgsig` or `gpgsig-sha256` header of any number of lines is found wherever it stands in the block |
| `CommitMessage.UnframedUnsigned` | src/common/utils.rs:90-100 | a message without a complete header block carries no signature |
| `LikePattern.EscapeLike` | src/common/utils.rs:219-231 | the escaped text matches exactly that text; followed by `%` exactly the texts with that prefix; followed by `/%` exactly the descendants |
| `LikePattern.EscapedLike` | src/common/utils.rs:219-231 | the escaped text matches that text and nothing else |
| `LikePattern.PrefixLike` | src/common/utils.rs:219-231 | followed by `%` it matches exactly the texts that start with it |
| `LikePattern.QueryAgrees` | src/jupiter/storage/trace_target_storage.rs:63-77 | the helper pattern and the helper test agree on a parent and a child if and only if the parent is not the root, or the child is an absolute path other than the root |
| `LikePattern.AtOrBelowAgrees` | src/jupiter/storage/trace_target_storage.rs:117-132 | with the comparison for equality that both sides add, they agree if and only if the parent is not the root or the child is absolute |
| `CapacityLedger.ReclaimStale` | src/contract/policy/secure_lifecycle.rs:368-396 | the loop drops exactly the stale reservations without a live lease and the aged tombs, and releases their bytes, or reports a malformed stamp |
| `CapacityLedger.ReclaimedWellformed` | src/contract/policy/secure_lifecycle.rs:368-396 | reclaiming keeps the counter storable and the total unchanged |
| `CapacityLedger.SettleMoves` | src/contract/policy/secure_lifecycle.rs:203-307 | an operation is settled at most once, moving the total by exactly its delta and leaving one tomb with that delta |
| `LedgerHistory.AlwaysConserved` | src/contract/policy/secure_lifecycle.rs:90-307 | over any history of reservations and settlements, refused, lost or stored, the reserved bytes are those of the outstanding reservations and the total moves by exactly the settled deltas |
| `LedgerHistory.ReclaimReleases` | src/contract/policy/secure_lifecycle.rs:368-396 | reclaiming releases exactly the bytes of the reservations it drops |
| `LedgerAdmission.ReclaimExactly` | src/contract/policy/secure_lifecycle.rs:368-396 | reclaiming keeps exactly the reservations of the last hour and the runs whose lease is held, and exactly the tombs with a readable stamp of the last hour |
| `LedgerAdmission.ReserveExactly` | src/contract/policy/secure_admission.rs:107-175 | a reservation is taken if and only if the limits on entries, runs, protected digests, slots, tombs, ledger bytes and capacity leave room, the fence and digest fit the producer and the operation id is new; then the ledger is the reclaimed one with exactly that reservation |
| `LedgerAdmission.OldestMakesRoom` | src/contract/policy/secure_counter.rs:290-300 | a deletion tomb is added; once there are 16, one of the oldest by stamp and then operation id makes room for it |
| `LedgerAdmission.SettleFenced` | src/contract/policy/secure_lifecycle.rs:203-356 | a fenced run is settled, or its settlement repeated, only with its own capability hash and run id |
| `LedgerAdmission.SettleExactly` | src/contract/policy/secure_lifecycle.rs:203-307 | the settlement of an outstanding operation in full: refused if and only if the caller is not authorized, the total would leave 64 bits, or 64 tombs are held; too large if and only if the ledger passes its 40 or 48 KiB; otherwise exactly the new ledger |
| `LedgerAdmission.NothingToSettle` | src/contract/policy/secure_lifecycle.rs:203-230 | an operation without reservation and tomb is refused |
| `LedgerAdmission.DigestExactly` | src/contract/policy/secure_counter.rs:311-327 | a digest is `sha256:` and 64 lower-case hex digits |
| `LedgerAdmission.RunIdExactly` | src/contract/policy/secure_artifact.rs:1052-1069 | a run id is eight digits, `T`, six digits, `Z-` and a number |
| `LedgerAdmission.SettleShifts` | src/contract/policy/secure_lifecycle.rs:203-307 | a new settlement moves stored plus promised bytes by exactly what it charges beyond its reservation |
| `LedgerAdmission.AlwaysWithinCap` | src/contract/policy/secure_capacity.rs:43-59 | over any history in which no settlement exceeds its reservation, stored plus promised bytes stay within the capacity of the root |
| `RunTree.MeasureRunBytes` | src/commands/authz_audit_run.rs:250-278 | the recursive walk refuses any link and otherwise returns the bytes of all regular files, saturating at 64 bits |
| `AuditRunCommands.ClassifyRunDir` | src/commands/authz_audit_run.rs:215-248 | empty, only locks, or partial with the measured bytes |
| `AuditRunCommands.RestrictedRoot.RemoveRunDirectory` | src/commands/authz_audit_run.rs:280-319 | unlinking, refusal and removal leave the specified directory at every point where they can stop |
| `AuditRunCommands.RestrictedRoot.SettleLocked` | src/contract/policy/secure_lifecycle.rs:185-307 | the stored counter changes exactly as specified, and only if the write lands |
| `AuditRunCommands.RestrictedRoot.ExecRunCommit` | src/commands/authz_audit_run.rs:138-164 | the commit command has the specified effect on ledger and result; with a capability that opens nothing it fails and changes nothing |
| `AuditRunCommands.RestrictedRoot.ExecRunAbort` | src/commands/authz_audit_run.rs:166-206 | the abort command has the specified effect on directory, ledger and result, wherever it stops; with a capability that opens nothing it fails and changes nothing |
| `AuditRun.FirstSettlement` | src/commands/authz_audit_run.rs:138-206 | from any directory and any ledger, the command that first settles an operation records the bytes of the regular files still there (as a signed 64-bit count), and the total moves by that |
| `AuditRun.RunDeletesOnlyLocks` | src/commands/authz_audit_run.rs:280-319 | over any commands stopped anywhere, every path but the two locks still names what it named |
| `AuditRun.HistoryCharges` | src/commands/authz_audit_run.rs:138-319 | both laws together after any number of earlier commands, crashed or not |
| `AuditRun.AccountingStays` | src/commands/authz_audit_run.rs:166-206 | after settlement no command touches the ledger, and the recorded bytes stay the bytes on disk through every later command if and only if the directory does not consist of locks of which an abort would delete one with bytes |
| `AuditRun.ExposedRetry` | src/commands/authz_audit_run.rs:166-206 | from every such state, a later abort that loses charged bytes |
| `AuditRun.ChargedLockLost` | src/commands/authz_audit_run.rs:138-206 | a concrete history: a reserved run with a one-byte lease lock, a commit that records 1, and an abort that leaves no byte while the ledger still says 1 |
| `AuditRunOwner.ResolveExactly` | src/commands/authz_audit_run.rs:321-368 | a capability hash opens an operation if and only if it is the hash on the run's first fenced reservation (target `runs/<id>` or below it) or, without one, on its first fenced tomb |
| `AuditRunOwner.StrangerRefused` | src/commands/authz_audit_run.rs:138-206 | if it opens none, the command fails and directory and ledger stay as they were |
| `AuditRunOwner.WrongHash` | src/commands/authz_audit_run.rs:334-339 | a hash other than the one on the run's reservation opens nothing, whatever tombs there are |
| `AuditRunOwner.WrongTombHash` | src/commands/authz_audit_run.rs:343-361 | without a reservation, a hash other than the one on the run's tomb opens nothing |
| `AuditRunOwner.OwnOperation` | src/commands/authz_audit_run.rs:138-206 | whatever a command settles or repeats is the operation its capability opens |
| `AuditRunOwner.CommitSettles` | src/commands/authz_audit_run.rs:138-164 | on a reserved run whose tree has no link, with room and all writes through, a commit charges the bytes of the regular files and leaves exactly that ledger |
| `AuditRunOwner.AbortSettles` | src/commands/authz_audit_run.rs:166-206 | likewise an abort, for a missing directory, one of nothing but lock files, which goes, and a partial one, which stays and is charged |
| `AuditRunOwner.ReserveReady` | src/commands/authz_audit_run.rs:70-107 | a run reserved under its own directory is in the state those two laws start from |
| `AuditRunOwner.RepeatReports` | src/commands/authz_audit_run.rs:138-164 | after the settlement the run resolves to its tomb, and a repeated commit reports the recorded delta and changes nothing |
| `ManifestText.LoadProtectedSet` | src/commands/authz_audit_protect.rs:190-216 | the loading loop computes the specified set, or an error |
| `ManifestText.CollectedExactly` | src/commands/authz_audit_protect.rs:190-216 | loading accepts exactly the listings of distinct valid digests and yields them in order |
| `ManifestText.LoadExactly` | src/commands/authz_audit_protect.rs:190-216 | a manifest loads if and only if it reads as schema version 1 with distinct valid digests, and then as those in order |
| `ManifestText.InsertAdds` | src/commands/authz_audit_protect.rs:99-115 | inserting adds exactly the digest and keeps the set ascending |
| `ManifestText.RemoveTakes` | src/commands/authz_audit_protect.rs:99-115 | removing takes out exactly the digest and keeps the set ascending |
| `ManifestText.EncodedLength` | src/commands/authz_audit_protect.rs:218-227 | the byte length of the manifest as a function of the number of digests |
| `ManifestText.SmallTexts` | src/commands/authz_audit_protect.rs:218-227 | the literal text of an empty manifest and of one with a single digest |
| `ManifestText.CompactReadsBack` | src/commands/authz_audit_protect.rs:218-227 | the compact text of any digests can be read back, so it determines them |
| `ProtectedManifest.StepInOrder` | src/commands/authz_audit_protect.rs:80-188 | whatever admission and its writes do, a command leaves the old manifest or the old one with exactly the named digest added or removed, ascending and within 20, and any count it reports is the number of digests before the operation |
| `ProtectOutcome.EditedExactly` | src/commands/authz_audit_protect.rs:99-121 | nothing is edited if and only if the digest already is as wanted; an addition is refused if and only if 20 digests are listed |
| `ProtectOutcome.IdleOrRefused` | src/commands/authz_audit_protect.rs:89-121 | an invalid digest and a full manifest are refused and a satisfied request is left alone, without touching manifest or ledger |
| `ProtectOutcome.ChangeExactly` | src/commands/authz_audit_protect.rs:122-188 | a wanted change in full, for every outcome of its three writes: the text, the whole ledger with the tomb it leaves, and the answer |
| `ProtectedManifest.AlwaysInOrder` | src/commands/authz_audit_protect.rs:80-188 | from an absent manifest, after any commands: the manifest is in order, and every command on the way reported the number of digests it started from |
| `ProtectedManifest.StepBalances` | src/commands/authz_audit_protect.rs:151-187 | a command keeps the ledger total equal to the manifest's length if and only if, once the new file is in place, its directory is synced, the ledger write lands and the ledger to be written is within its size ceiling |
| `ProtectedManifest.AlwaysBalanced` | src/commands/authz_audit_protect.rs:80-188 | over any commands of which none does, the settled deltas sum to the manifest's byte length |
| `ProtectedManifest.SlipExample` | src/commands/authz_audit_protect.rs:172-187 | a concrete command after which they differ |
| `ProtectedManifest.SettlementAccepted` | src/contract/policy/secure_lifecycle.rs:203-307 | the settlement of an admitted protect or unprotect is refused if and only if the ledger it would store is over the size ceiling |
| `ProtectCommands.RestrictedRoot.MutateManifest` | src/commands/authz_audit_protect.rs:80-188 | the command has the specified effect on manifest, ledger and result, for every outcome of its three writes |

## Left out

- `fingerprint` and SHA-256: a hash over the canonical text.
- `Es6Number.Es6FormatDenotes`: digit strings of 2^31 characters and more, whose length the source casts to 32 bits before comparing it.
- `Es6Number.ReformatKeeps`: the same for numbers with 2^31 digits and more; the exponent arithmetic itself is modelled for every length.
- `linearize_first_parent`, `percentile`, SQL, pack decoding and the measurements of `view_bench`: easy members or measurement code.
- Iteration orders of directories and hash maps are parameters: the theorems hold for every order, and no order is singled out.
- `MigrationOutcome.EveryState`: joins may happen at any point where the loop allows them, which covers every schedule of `try_join_next` and some more; the wrap-around of the 64-bit counters is not modelled.
- Multipart part sizes: a part is any nonempty next piece of the object.
- `ImportRepoDriver.Driver.Drive`: error answers end the run as in the source, but the typed errors and exit codes of `remove` and `report` are not modelled.
- Databases, locks and transactions behind the ImportRepo ledger: only their effects as atomic steps.
- `canonicalize_mono_ref_path`, `canonical_project_path` and path relocation: single-branch string normalisation.
- `LikePattern.QueryAgrees`: the database's collation and encoding are not modelled; a pattern that ends in a lone escape matches nothing here and is an error there, and `escape_like` never makes one.
- `run-init`: generating and hashing capabilities, and claiming the directory.
- `AuditRun.FirstSettlement`: the count is compared as a signed 64-bit number, because the code caps larger counts at the maximum.
- Timestamps: ages are a function of the stamp, and lease probes a function of the target; the calendar arithmetic and the lock files behind leases are not modelled.
- The guard that refuses to store a ledger whose bytes contain a capability's plaintext.
- Permissions and unreadable directories: they appear only as commands that stop early.
