/**
 What the contents of mounted secret files can and cannot influence: an exact
 noninterference theorem for `variable_placeholder_substitute`.
 */
module ConfigNoninterference {
  import opened Wrappers
  import opened Placeholder
  import opened ConfigExpand

  // -------------------------------------------------------- two file states

  /** Two states of the mounted files: the same paths readable, the same reasons where not. */
  ghost predicate SameReadable(a: Files, b: Files) {
    forall path :: match (a(path), b(path))
                   case (Ok(_), Ok(_)) => true
                   case (Err(e), Err(f)) => e == f
                   case _ => false
  }

  /** Equal errors, or both succeed. */
  ghost predicate SameDecision<T, E>(a: Result<T, E>, b: Result<T, E>) {
    match (a, b)
    case (Ok(_), Ok(_)) => true
    case (Err(e), Err(f)) => e == f
    case _ => false
  }

  /** One placeholder of the scan. */
  lemma MapStep(input: string, f: Replacement, start: nat)
    requires FindSub(input, FILE_PREFIX) == Some(start)
    ensures start + |FILE_PREFIX| <= |input|
    ensures var after := input[start + |FILE_PREFIX|..];
            var end := IndexOf(after, IsBrace);
            MapFile(input, f) ==
              if end == |after| then Err(Unterminated)
              else if Contains(after[..end], "${") then Err(Mixed)
              else
                match f(after[..end])
                case Err(e) => Err(e)
                case Ok(value) =>
                  match MapFile(after[end + 1..], f)
                  case Err(e) => Err(e)
                  case Ok(rest) => Ok(input[..start] + (value + rest))
  {
    hide FindSub, Contains, OccursAt;
    FoundInside(input, start);
  }

  lemma {:induction false} MapDecision(input: string, f: Replacement, g: Replacement)
    requires forall path :: SameDecision(f(path), g(path))
    ensures SameDecision(MapFile(input, f), MapFile(input, g))
    decreases |input|
  {
    match FindSub(input, FILE_PREFIX)
    case None =>
    case Some(start) =>
      hide FindSub, Contains, MapFile;
      MapStep(input, f, start);
      MapStep(input, g, start);
      var after := input[start + |FILE_PREFIX|..];
      var end := IndexOf(after, IsBrace);
      if end < |after| {
        assert SameDecision(f(after[..end]), g(after[..end]));
        MapDecision(after[end + 1..], f, g);
      }
  }

  lemma FoundInside(s: string, start: nat)
    requires FindSub(s, FILE_PREFIX) == Some(start)
    ensures start + |FILE_PREFIX| <= |s|
  {
  }

  lemma ReadDecision(lib: Library, a: Files, b: Files)
    requires SameReadable(a, b)
    ensures forall path :: SameDecision(ReadSecret(lib, a)(path), ReadSecret(lib, b)(path))
  {
    forall path ensures SameDecision(ReadSecret(lib, a)(path), ReadSecret(lib, b)(path)) {
      var t := lib.trim(path);
      assert match (a(t), b(t)) case (Ok(_), Ok(_)) => true case (Err(e), Err(f)) => e == f case _ => false;
    }
  }

  /** One value: the decision never depends on file contents, and only a file field's value does. */
  lemma ValueNoninterference(lib: Library, a: Files, b: Files, key: string, raw: string, vars: Vars)
    requires SameReadable(a, b)
    ensures var x, y := ExpandValue(lib, a, key, raw, vars), ExpandValue(lib, b, key, raw, vars);
            && SameDecision(x, y)
            && (x.Ok? ==> x.value.fromFile == y.value.fromFile == HasFile(raw))
            && (x.Ok? && !HasFile(raw) ==> x == y)
  {
    hide MapFile, HasFile, SameReadable, ReadSecret;
    ReadDecision(lib, a, b);
    MapDecision(raw, ReadSecret(lib, a), ReadSecret(lib, b));
  }

  /** The same variables, and the same overrides outside `secret` keys. */
  ghost predicate Alike(p: Progress, q: Progress, secret: iset<string>) {
    && p.vars == q.vars
    && forall k | k !in secret :: (k in p.overrides <==> k in q.overrides) &&
                                  (k in p.overrides ==> p.overrides[k] == q.overrides[k])
  }

  /** Keys of fields that hold a file placeholder. */
  ghost function Secrets(fields: seq<(string, string)>): iset<string> {
    iset f | f in fields && HasFile(f.1) :: f.0
  }

  lemma VisitNoninterference(lib: Library, a: Files, b: Files, p: Progress, q: Progress,
                                                key: string, raw: string, secret: iset<string>)
    requires SameReadable(a, b) && Alike(p, q, secret)
    requires HasFile(raw) ==> key in secret && lib.settable(key)
    ensures SameDecision(Visit(lib, a, p, key, raw), Visit(lib, b, q, key, raw))
    ensures Visit(lib, a, p, key, raw).Ok? ==>
              Alike(Visit(lib, a, p, key, raw).value, Visit(lib, b, q, key, raw).value, secret)
  {
    hide HasFile, ExpandValue, SameReadable;
    ValueNoninterference(lib, a, b, key, raw, p.vars);
  }

  lemma {:induction false} PassNoninterference(lib: Library, a: Files, b: Files, p: Progress, q: Progress,
                                               fields: seq<(string, string)>, secret: iset<string>)
    requires SameReadable(a, b) && Alike(p, q, secret)
    requires forall f | f in fields && HasFile(f.1) :: f.0 in secret && lib.settable(f.0)
    ensures Verdict(lib, a, p, fields) == Verdict(lib, b, q, fields)
    ensures VisitAll(lib, a, p, fields).Ok? <==> VisitAll(lib, b, q, fields).Ok?
    ensures VisitAll(lib, a, p, fields).Ok? ==>
              Alike(VisitAll(lib, a, p, fields).value, VisitAll(lib, b, q, fields).value, secret)
    decreases fields
  {
    hide HasFile, Visit, SameReadable, Alike;
    if fields != [] {
      var (key, raw) := fields[0];
      assert fields[0] in fields;
      VisitNoninterference(lib, a, b, p, q, key, raw, secret);
      if Visit(lib, a, p, key, raw).Ok? {
        var p', q' := Visit(lib, a, p, key, raw).value, Visit(lib, b, q, key, raw).value;
        PassNoninterference(lib, a, b, p', q', fields[1..], secret);
      }
    }
  }

  /** All fields either pass visits. */
  function AllFields(config: seq<Entry>, order: seq<string>): seq<(string, string)>
    requires forall k | k in order :: k in Inserted(map[], Nested(config))
  {
    TopLevel(config) + Fields(order, Inserted(map[], Nested(config)))
  }

  function Start(): Progress { Progress(map[], map[]) }

  /** The two passes are one pass over all fields. */
  lemma OnePass(lib: Library, files: Files, config: seq<Entry>, order: seq<string>)
    requires forall k | k in order :: k in Inserted(map[], Nested(config))
    ensures Substitute(lib, files, config, order) == VisitAll(lib, files, Start(), AllFields(config, order))
  {
    hide VisitAll, TopLevel, Fields, Inserted, Nested;
    var top, nested := TopLevel(config), Fields(order, Inserted(map[], Nested(config)));
    var all := AllFields(config, order);
    assert all[..|top|] == top && all[|top|..] == nested;
    PassSplit(lib, files, Start(), all, |top|);
  }

  // ------------------------------------------------------ files that change

  function Holding(contents: string -> string): Files { path => Ok(contents(path)) }

  function NoContent(path: string): string { "" }

  /** Every file readable and empty. */
  function Empty(): Files { Holding(NoContent) }

  /** Some contents of the named files spell the field's own text, so that expansion leaves it as it was. */
  ghost predicate Reproducible(lib: Library, raw: string) {
    exists contents: string -> string :: MapFile(raw, ReadSecret(lib, Holding(contents))) == Ok(raw)
  }

  /**
   The first file field whose key the builder refuses is reached when all files are readable, its placeholders are
   well formed and not mixed with variables, and some file contents spell the field's own text.
   */
  ghost predicate InterferesAt(lib: Library, fields: seq<(string, string)>, i: nat) {
    && i < |fields| && HasFile(fields[i].1) && !lib.settable(fields[i].0)
    && (forall j: nat | j < i && HasFile(fields[j].1) :: lib.settable(fields[j].0))
    && VisitAll(lib, Empty(), Start(), fields[..i]).Ok?
    && ExpandValue(lib, Empty(), fields[i].0, fields[i].1, map[]).Ok?
    && Reproducible(lib, fields[i].1)
  }

  ghost predicate Interferes(lib: Library, fields: seq<(string, string)>) {
    exists i: nat :: InterferesAt(lib, fields, i)
  }

  /**
   Other contents of the readable files change neither the field the run stops at nor the error, and no variable
   and no override except of the fields that hold a file placeholder.
   */
  ghost predicate Noninterfering(lib: Library, fields: seq<(string, string)>) {
    forall a: Files, b: Files | SameReadable(a, b) :: Unaffected(lib, a, b, fields)
  }

  ghost predicate Unaffected(lib: Library, a: Files, b: Files, fields: seq<(string, string)>) {
    && Verdict(lib, a, Start(), fields) == Verdict(lib, b, Start(), fields)
    && var x, y := VisitAll(lib, a, Start(), fields), VisitAll(lib, b, Start(), fields);
       x.Ok? ==> y.Ok? && Alike(x.value, y.value, Secrets(fields))
  }

  /** `g` reads at least what `f` reads, and the same where `same`. */
  ghost predicate ReadsMore(f: Replacement, g: Replacement, same: bool) {
    forall path | f(path).Ok? :: g(path).Ok? && (same ==> g(path) == f(path))
  }

  lemma ReadsAt(
      f: Replacement, g: Replacement, same: bool, path: string)
    requires ReadsMore(f, g, same)
    ensures f(path).Ok? ==> g(path).Ok? && (same ==> g(path) == f(path))
  {
  }

  lemma {:induction false} MapMore(
      input: string, f: Replacement, g: Replacement, same: bool)
    requires ReadsMore(f, g, same) && MapFile(input, f).Ok?
    ensures MapFile(input, g).Ok? && (same ==> MapFile(input, g) == MapFile(input, f))
    decreases |input|
  {
    match FindSub(input, FILE_PREFIX)
    case None =>
    case Some(start) =>
      hide FindSub, Contains, MapFile, ReadsMore;
      MapStep(input, f, start);
      MapStep(input, g, start);
      var after := input[start + |FILE_PREFIX|..];
      var end := IndexOf(after, IsBrace);
      ReadsAt(f, g, same, after[..end]);
      MapMore(after[end + 1..], f, g, same);
  }

  /** What succeeds with some files readable succeeds with all of them readable and empty. */
  lemma EmptyReads(lib: Library, a: Files, key: string, raw: string, vars: Vars)
    requires ExpandValue(lib, a, key, raw, vars).Ok?
    ensures ExpandValue(lib, Empty(), key, raw, vars).Ok?
    ensures !HasFile(raw) ==> ExpandValue(lib, Empty(), key, raw, vars) == ExpandValue(lib, a, key, raw, vars)
  {
    hide MapFile, HasFile;
    if HasFile(raw) { MapMore(raw, ReadSecret(lib, a), ReadSecret(lib, Empty()), false); }
  }

  lemma {:induction false} EmptyPasses(lib: Library, a: Files, p: Progress, q: Progress, fields: seq<(string, string)>)
    requires forall f | f in fields && HasFile(f.1) :: lib.settable(f.0)
    requires p.vars == q.vars && VisitAll(lib, a, p, fields).Ok?
    ensures VisitAll(lib, Empty(), q, fields).Ok?
    decreases fields
  {
    hide HasFile, ExpandValue, Empty;
    if fields != [] {
      var (key, raw) := fields[0];
      assert fields[0] in fields;
      EmptyReads(lib, a, key, raw, p.vars);
      ValueNoninterference(lib, a, a, key, raw, p.vars);
      ValueNoninterference(lib, Empty(), Empty(), key, raw, p.vars);
      var p', q' := Visit(lib, a, p, key, raw).value, Visit(lib, Empty(), q, key, raw).value;
      EmptyPasses(lib, a, p', q', fields[1..]);
    }
  }

  function ContentOf(a: Files): string -> string {
    path => match a(path) case Ok(content) => content case Err(_) => ""
  }

  /** A file field that comes out unchanged is reproducible. */
  lemma UnchangedReproduces(lib: Library, a: Files, raw: string)
    requires MapFile(raw, ReadSecret(lib, a)) == Ok(raw)
    ensures Reproducible(lib, raw)
  {
    hide MapFile;
    var contents := ContentOf(a);
    MapMore(raw, ReadSecret(lib, a), ReadSecret(lib, Holding(contents)), true);
  }

  lemma ReadHolding(lib: Library, contents: string -> string, path: string)
    ensures ReadSecret(lib, Holding(contents))(path) == Ok(StripNewline(contents(lib.trim(path))))
  {
  }

  lemma ReadEmpty(lib: Library)
    ensures forall path :: ReadSecret(lib, Empty())(path) == Ok("")
  {
    hide ReadSecret, Holding;
    forall path ensures ReadSecret(lib, Empty())(path) == Ok("") {
      ReadHolding(lib, NoContent, path);
    }
  }

  /** Filling placeholders with nothing shortens the text. */
  lemma EmptyShortens(lib: Library, raw: string)
    requires HasFile(raw) && MapFile(raw, ReadSecret(lib, Empty())).Ok?
    ensures MapFile(raw, ReadSecret(lib, Empty())) != Ok(raw)
  {
    hide MapFile, FindSub, Contains, ValidToken, ReadSecret, Empty;
    var f := ReadSecret(lib, Empty());
    var ts, tail := AcceptedRenders(raw, f);
    assert Render([], tail) == tail;
    MapRendered(ts, tail, f);
    ReadEmpty(lib);
    FilledEmpty(f, ts, tail);
  }

  lemma {:induction false} FilledEmpty(f: Replacement, ts: seq<Token>, tail: string)
    requires forall path :: f(path) == Ok("")
    ensures var r := Filled(ts, tail, f);
            r.Ok? && |r.value| <= |Render(ts, tail)| && (ts != [] ==> |r.value| < |Render(ts, tail)|)
  {
    if ts != [] {
      FilledEmpty(f, ts[1..], tail);
      assert f(ts[0].path) == Ok("");
    }
  }

  // ------------------------------------------------------------- exactness

  /** At the interfering field, empty files are refused and the reproducing ones pass. */
  lemma InterferenceShows(lib: Library, fields: seq<(string, string)>, i: nat)
    requires InterferesAt(lib, fields, i)
    ensures !Noninterfering(lib, fields)
  {
    hide MapFile, HasFile, VisitAll, ReadSecret, Alike, Verdict, Empty;
    var (key, raw) := fields[i];
    var contents: string -> string :| MapFile(raw, ReadSecret(lib, Holding(contents))) == Ok(raw);
    var a, b := Holding(contents), Empty();
    HoldingSame(contents);
    var secret := iset f | f in fields && HasFile(f.1) :: f.0;
    PrefixSettable(lib, fields, i, secret);
    StartAlike(secret);
    PassNoninterference(lib, a, b, Start(), Start(), fields[..i], secret);
    var p, q := VisitAll(lib, a, Start(), fields[..i]).value, VisitAll(lib, b, Start(), fields[..i]).value;
    PassSplit(lib, a, Start(), fields, i);
    PassSplit(lib, b, Start(), fields, i);
    FileVisit(lib, a, p, key, raw);
    FileVisit(lib, b, q, key, raw);
    EmptyShortens(lib, raw);
    assert fields[i..][0] == fields[i];
    FirstVerdict(lib, a, p, fields[i..]);
    FirstVerdict(lib, b, q, fields[i..]);
    assert !Unaffected(lib, a, b, fields);
  }

  lemma HoldingSame(contents: string -> string)
    ensures SameReadable(Holding(contents), Empty()) && SameReadable(Empty(), Holding(contents))
  {
  }

  lemma StartAlike(secret: iset<string>)
    ensures Alike(Start(), Start(), secret)
  {
  }

  lemma PrefixSettable(lib: Library, fields: seq<(string, string)>, i: nat, secret: iset<string>)
    requires i <= |fields| && forall j: nat | j < i && HasFile(fields[j].1) :: lib.settable(fields[j].0)
    requires forall f | f in fields && HasFile(f.1) :: f.0 in secret
    ensures forall f | f in fields[..i] && HasFile(f.1) :: f.0 in secret && lib.settable(f.0)
  {
    hide HasFile;
    forall f | f in fields[..i] && HasFile(f.1) ensures f.0 in secret && lib.settable(f.0) {
      var j: nat :| j < i && fields[..i][j] == f;
      assert fields[j] == f && f in fields;
    }
  }

  /** A visit of a file field whose key is refused passes only if the text stays the same. */
  lemma FileVisit(lib: Library, files: Files, p: Progress, key: string, raw: string)
    requires HasFile(raw) && !lib.settable(key)
    ensures ExpandValue(lib, files, key, raw, p.vars) == ExpandValue(lib, files, key, raw, map[])
    ensures var x := ExpandValue(lib, files, key, raw, map[]);
            && (x.Ok? ==> MapFile(raw, ReadSecret(lib, files)) == Ok(x.value.value))
            && (x.Err? ==> Visit(lib, files, p, key, raw) == Err(x.error))
            && (x.Ok? && x.value.value != raw ==> Visit(lib, files, p, key, raw) == Err(SetOverrideFailed(key)))
            && (x.Ok? && x.value.value == raw ==> Visit(lib, files, p, key, raw).Ok?)
    ensures ExpandValue(lib, Empty(), key, raw, map[]).Ok? && MapFile(raw, ReadSecret(lib, files)).Ok? ==>
            ExpandValue(lib, files, key, raw, map[]).Ok?
  {
    hide MapFile, HasFile, ReadSecret, Empty;
  }

  lemma FirstVerdict(lib: Library, files: Files, p: Progress, fields: seq<(string, string)>)
    requires fields != []
    ensures match Visit(lib, files, p, fields[0].0, fields[0].1)
            case Err(e) => Verdict(lib, files, p, fields) == Some(Stop(0, e))
            case Ok(_) => Verdict(lib, files, p, fields) == None || Verdict(lib, files, p, fields).value.index > 0
  {
    hide Visit;
  }

  /** Position of the first file field with a refused key, or the length. */
  function FirstRefused(lib: Library, fields: seq<(string, string)>): (i: nat)
    ensures i <= |fields|
    ensures i < |fields| ==> HasFile(fields[i].1) && !lib.settable(fields[i].0)
    ensures forall j: nat | j < i && HasFile(fields[j].1) :: lib.settable(fields[j].0)
  {
    if fields == [] || (HasFile(fields[0].1) && !lib.settable(fields[0].0)) then 0
    else
      var k := FirstRefused(lib, fields[1..]);
      assert forall j: nat | 0 < j <= k :: fields[j] == fields[1..][j - 1];
      k + 1
  }

  /** A refused field that is reached and comes out unchanged interferes. */
  lemma RefusedInterferes(lib: Library, files: Files, p: Progress, fields: seq<(string, string)>, i: nat)
    requires i == FirstRefused(lib, fields) && i < |fields|
    requires VisitAll(lib, files, Start(), fields[..i]) == Ok(p)
    requires ExpandValue(lib, files, fields[i].0, fields[i].1, map[]).Ok?
    requires ExpandValue(lib, files, fields[i].0, fields[i].1, map[]).value.value == fields[i].1
    ensures InterferesAt(lib, fields, i)
  {
    hide MapFile, HasFile, VisitAll, ReadSecret, ExpandValue, Empty, Reproducible, FirstRefused;
    var (key, raw) := fields[i];
    FileVisit(lib, files, p, key, raw);
    UnchangedReproduces(lib, files, raw);
    EmptyReads(lib, files, key, raw, map[]);
    PrefixSettable(lib, fields, i, iset f | f in fields && HasFile(f.1) :: f.0);
    EmptyPasses(lib, files, Start(), Start(), fields[..i]);
  }

  lemma RefusedStops(lib: Library, files: Files, p: Progress, fields: seq<(string, string)>, i: nat)
    requires i == FirstRefused(lib, fields) && i < |fields| && !Interferes(lib, fields)
    requires VisitAll(lib, files, Start(), fields[..i]) == Ok(p)
    ensures var x := ExpandValue(lib, files, fields[i].0, fields[i].1, map[]); x.Ok? ==> x.value.value != fields[i].1
  {
    hide HasFile, VisitAll, ExpandValue, InterferesAt, FirstRefused;
    var x := ExpandValue(lib, files, fields[i].0, fields[i].1, map[]);
    if x.Ok? && x.value.value == fields[i].1 { RefusedInterferes(lib, files, p, fields, i); }
  }

  lemma NoInterference(lib: Library, a: Files, b: Files, fields: seq<(string, string)>)
    requires SameReadable(a, b) && !Interferes(lib, fields)
    ensures Unaffected(lib, a, b, fields)
  {
    hide HasFile, VisitAll, Verdict, SameReadable, Alike, Interferes, ExpandValue, FirstRefused;
    var secret := Secrets(fields);
    var i := FirstRefused(lib, fields);
    PrefixSettable(lib, fields, i, secret);
    StartAlike(secret);
    PassNoninterference(lib, a, b, Start(), Start(), fields[..i], secret);
    var x, y := VisitAll(lib, a, Start(), fields[..i]), VisitAll(lib, b, Start(), fields[..i]);
    PassSplit(lib, a, Start(), fields, i);
    PassSplit(lib, b, Start(), fields, i);
    if i == |fields| {
      assert fields[..i] == fields;
    } else if x.Ok? {
      RefusedVerdict(lib, a, b, x.value, y.value, fields, i);
      VerdictMeans(lib, a, Start(), fields);
    } else {
      VerdictMeans(lib, a, Start(), fields);
    }
  }

  /** Both runs stop at the first refused field, with the same error. */
  lemma RefusedVerdict(
      lib: Library, a: Files, b: Files, p: Progress, q: Progress, fields: seq<(string, string)>, i: nat)
    requires SameReadable(a, b) && i == FirstRefused(lib, fields) && i < |fields| && !Interferes(lib, fields)
    requires VisitAll(lib, a, Start(), fields[..i]) == Ok(p) && VisitAll(lib, b, Start(), fields[..i]) == Ok(q)
    ensures Verdict(lib, a, p, fields[i..]) == Verdict(lib, b, q, fields[i..])
    ensures Verdict(lib, a, p, fields[i..]).Some?
  {
    hide HasFile, VisitAll, Verdict, SameReadable, Interferes, ExpandValue, FirstRefused, MapFile, ReadSecret, Visit,
         Empty;
    var (key, raw) := fields[i];
    assert fields[i..][0] == fields[i];
    RefusedStops(lib, a, p, fields, i);
    RefusedStops(lib, b, q, fields, i);
    FileVisit(lib, a, p, key, raw);
    FileVisit(lib, b, q, key, raw);
    ValueNoninterference(lib, a, b, key, raw, map[]);
    FirstVerdict(lib, a, p, fields[i..]);
    FirstVerdict(lib, b, q, fields[i..]);
  }

  /** Noninterference holds exactly when no field interferes, for any list of fields. */
  lemma NoninterferenceExactly(lib: Library, fields: seq<(string, string)>)
    ensures Noninterfering(lib, fields) <==> !Interferes(lib, fields)
  {
    hide InterferesAt, SameReadable, Unaffected;
    if Interferes(lib, fields) {
      var i: nat :| InterferesAt(lib, fields, i);
      InterferenceShows(lib, fields, i);
    } else {
      forall a: Files, b: Files | SameReadable(a, b) ensures Unaffected(lib, a, b, fields) {
        NoInterference(lib, a, b, fields);
      }
    }
  }

  /**
   The same for the whole substitution, in any iteration order: both passes succeed or fail alike, with the same
   error, variables and overrides outside the file fields, exactly when no field interferes.
   */
  lemma Noninterference(lib: Library, config: seq<Entry>, order: seq<string>)
    requires forall k | k in order :: k in Inserted(map[], Nested(config))
    ensures Noninterfering(lib, AllFields(config, order)) <==> !Interferes(lib, AllFields(config, order))
    ensures !Interferes(lib, AllFields(config, order)) ==>
              forall a: Files, b: Files | SameReadable(a, b) ::
                var x, y := Substitute(lib, a, config, order), Substitute(lib, b, config, order);
                SameSubstitution(x, y, Secrets(AllFields(config, order)))
  {
    hide Noninterfering, Interferes, SameReadable, VisitAll, Verdict, AllFields, Alike;
    var all := AllFields(config, order);
    NoninterferenceExactly(lib, all);
    if !Interferes(lib, all) {
      forall a: Files, b: Files | SameReadable(a, b)
        ensures SameSubstitution(Substitute(lib, a, config, order), Substitute(lib, b, config, order), Secrets(all))
      {
        OnePass(lib, a, config, order);
        OnePass(lib, b, config, order);
        NoInterference(lib, a, b, all);
        VerdictMeans(lib, a, Start(), all);
        VerdictMeans(lib, b, Start(), all);
      }
    }
  }

  ghost predicate SameSubstitution(
      x: Result<Progress, ExpandError>, y: Result<Progress, ExpandError>, secret: iset<string>)
  {
    SameDecision(x, y) && (x.Ok? ==> Alike(x.value, y.value, secret))
  }

  // ----------------------------------------------- which fields are reproducible

  /** The text with a piece in the place of each placeholder. */
  function Spelled(ts: seq<Token>, vs: seq<string>, tail: string): (r: string)
    requires |vs| == |ts|
    ensures forall i :: 0 <= i < |vs| ==> |vs[i]| <= |r|
  {
    if ts == [] then tail else ts[0].literal + (vs[0] + Spelled(ts[1..], vs[1..], tail))
  }

  /** Placeholders of the same file have the same piece. */
  predicate OnePieceEach(lib: Library, ts: seq<Token>, vs: seq<string>)
    requires |vs| == |ts|
  {
    forall i, j :: 0 <= i < |ts| && 0 <= j < |ts| && lib.trim(ts[i].path) == lib.trim(ts[j].path) ==> vs[i] == vs[j]
  }

  /** The pieces, none longer than the field, that make a field out of its own literals. */
  ghost predicate Spells(lib: Library, ts: seq<Token>, vs: seq<string>, tail: string) {
    |vs| == |ts| && OnePieceEach(lib, ts, vs) && Spelled(ts, vs, tail) == Render(ts, tail)
  }

  lemma {:induction false} FilledSpelled(
      f: Replacement, ts: seq<Token>, vs: seq<string>, tail: string)
    requires |vs| == |ts| && forall i :: 0 <= i < |ts| ==> f(ts[i].path) == Ok(vs[i])
    ensures Filled(ts, tail, f) == Ok(Spelled(ts, vs, tail))
    decreases ts
  {
    if ts != [] { FilledSpelled(f, ts[1..], vs[1..], tail); }
  }

  /** A file content that is read as `v`. */
  function Unstripped(v: string): string {
    v + (if v != "" && v[|v| - 1] == '\r' then "\r\n" else "\n")
  }

  lemma StripUnstripped(v: string)
    ensures StripNewline(Unstripped(v)) == v
  {
    var s := Unstripped(v);
    assert s[|s| - 1] == '\n';
    if v != "" && v[|v| - 1] == '\r' {
      assert s[..|s| - 1] == v + "\r";
      assert (v + "\r")[..|v|] == v;
    } else {
      assert s[..|s| - 1] == v;
    }
  }

  function PieceFor(lib: Library, ts: seq<Token>, vs: seq<string>, path: string): string
    requires |vs| == |ts|
  {
    if ts == [] then ""
    else if lib.trim(ts[0].path) == path then Unstripped(vs[0])
    else PieceFor(lib, ts[1..], vs[1..], path)
  }

  lemma {:induction false} PieceAt(lib: Library, ts: seq<Token>, vs: seq<string>, i: nat)
    requires |vs| == |ts| && i < |ts| && OnePieceEach(lib, ts, vs)
    ensures PieceFor(lib, ts, vs, lib.trim(ts[i].path)) == Unstripped(vs[i])
    decreases ts
  {
    if lib.trim(ts[0].path) != lib.trim(ts[i].path) {
      assert ts[1..][i - 1] == ts[i] && vs[1..][i - 1] == vs[i];
      PieceAt(lib, ts[1..], vs[1..], i - 1);
    }
  }

  /** Whether a field is reproducible is a matter of its text: some pieces, no longer than it, spell it. */
  lemma ReproducibleExactly(lib: Library, ts: seq<Token>, tail: string)
    requires (forall t | t in ts :: ValidToken(t)) && !Contains(tail, FILE_PREFIX)
    ensures Reproducible(lib, Render(ts, tail)) <==> exists vs: seq<string> :: Spells(lib, ts, vs, tail)
  {
    hide MapFile, Contains, FindSub, ValidToken, ReadSecret, Holding, StripNewline, Render, Spells;
    var raw := Render(ts, tail);
    if Reproducible(lib, raw) {
      var contents: string -> string :| MapFile(raw, ReadSecret(lib, Holding(contents))) == Ok(raw);
      ContentsSpell(lib, ts, tail, contents);
    }
    forall vs: seq<string> | Spells(lib, ts, vs, tail) ensures Reproducible(lib, raw) {
      SpellsReproduces(lib, ts, vs, tail);
    }
  }

  lemma ContentsSpell(lib: Library, ts: seq<Token>, tail: string, contents: string -> string)
    requires (forall t | t in ts :: ValidToken(t)) && !Contains(tail, FILE_PREFIX)
    requires MapFile(Render(ts, tail), ReadSecret(lib, Holding(contents))) == Ok(Render(ts, tail))
    ensures exists vs: seq<string> :: Spells(lib, ts, vs, tail)
  {
    hide MapFile, Contains, FindSub, ValidToken, ReadSecret, Holding, StripNewline, Render;
    var f := ReadSecret(lib, Holding(contents));
    var vs := seq(|ts|, i requires 0 <= i < |ts| => StripNewline(contents(lib.trim(ts[i].path))));
    forall i | 0 <= i < |ts| ensures f(ts[i].path) == Ok(vs[i]) { ReadHolding(lib, contents, ts[i].path); }
    FilledSpelled(f, ts, vs, tail);
    MapRendered(ts, tail, f);
    assert Spells(lib, ts, vs, tail);
  }

  lemma SpellsReproduces(lib: Library, ts: seq<Token>, vs: seq<string>, tail: string)
    requires (forall t | t in ts :: ValidToken(t)) && !Contains(tail, FILE_PREFIX) && Spells(lib, ts, vs, tail)
    ensures Reproducible(lib, Render(ts, tail))
  {
    hide MapFile, Contains, FindSub, ValidToken, ReadSecret, Holding, StripNewline, Render, PieceFor, OnePieceEach,
         Unstripped;
    var contents: string -> string := path => PieceFor(lib, ts, vs, path);
    var f := ReadSecret(lib, Holding(contents));
    forall i | 0 <= i < |ts| ensures f(ts[i].path) == Ok(vs[i]) {
      ReadHolding(lib, contents, ts[i].path);
      PieceAt(lib, ts, vs, i);
      StripUnstripped(vs[i]);
    }
    FilledSpelled(f, ts, vs, tail);
    MapRendered(ts, tail, f);
  }

  /** No two placeholders name the same file in different spellings. */
  predicate Distinguishes(lib: Library, ts: seq<Token>) {
    forall t, u | t in ts && u in ts && lib.trim(t.path) == lib.trim(u.path) :: t.path == u.path
  }

  function OwnText(t: Token): string { FILE_PREFIX + (t.path + "}") }

  function OwnTexts(ts: seq<Token>): (vs: seq<string>)
    ensures |vs| == |ts| && forall i :: 0 <= i < |ts| ==> vs[i] == OwnText(ts[i])
  {
    if ts == [] then [] else [OwnText(ts[0])] + OwnTexts(ts[1..])
  }

  lemma {:induction false} SpelledOwn(ts: seq<Token>, tail: string)
    ensures Spelled(ts, OwnTexts(ts), tail) == Render(ts, tail)
  {
    if ts != [] {
      SpelledOwn(ts[1..], tail);
      assert OwnTexts(ts)[1..] == OwnTexts(ts[1..]);
      Regroup(ts[0].literal, ts[0].path, Render(ts[1..], tail));
    }
  }

  lemma Regroup(literal: string, path: string, rest: string)
    ensures literal + ((FILE_PREFIX + (path + "}")) + rest) == literal + (FILE_PREFIX + (path + ("}" + rest)))
  {
  }

  /** Files that hold the text of their own placeholder reproduce any field that tells its files apart. */
  lemma DistinguishedReproducible(lib: Library, ts: seq<Token>, tail: string)
    requires (forall t | t in ts :: ValidToken(t)) && !Contains(tail, FILE_PREFIX) && Distinguishes(lib, ts)
    ensures Reproducible(lib, Render(ts, tail))
  {
    hide Contains, FindSub, ValidToken, Reproducible, Render, Spelled;
    SpelledOwn(ts, tail);
    var vs := OwnTexts(ts);
    assert OnePieceEach(lib, ts, vs) by { assert forall i :: 0 <= i < |ts| ==> ts[i] in ts; }
    SpellsReproduces(lib, ts, vs, tail);
  }

  /** What every rendered field with a placeholder does on its own. */
  lemma RenderedField(lib: Library, key: string, ts: seq<Token>, tail: string)
    requires ts != [] && (forall t | t in ts :: ValidToken(t)) && !Contains(tail, FILE_PREFIX)
    ensures HasFile(Render(ts, tail))
    ensures ExpandValue(lib, Empty(), key, Render(ts, tail), map[]).Ok? <==> !lib.isTemplated(Literals(ts, tail))
  {
    hide MapFile, FindSub, Contains, ValidToken, ReadSecret, Empty;
    MapRendered(ts, tail, Blanked());
    MapRendered(ts, tail, ReadSecret(lib, Empty()));
    FilledBlank(ts, tail);
    ReadEmpty(lib);
    FilledEmpty(ReadSecret(lib, Empty()), ts, tail);
    assert ts[0] in ts;
    TokenLiteral(ts[0]);
    FoundWhereWritten(ts[0].literal, ts[0].path + ("}" + Render(ts[1..], tail)));
    ContainsMeans(Render(ts, tail), FILE_PREFIX);
  }

  lemma TokenLiteral(t: Token)
    requires ValidToken(t)
    ensures !Contains(t.literal, FILE_PREFIX)
  {
  }

  /** The text without its placeholders. */
  function Literals(ts: seq<Token>, tail: string): string {
    if ts == [] then tail else ts[0].literal + Literals(ts[1..], tail)
  }

  lemma {:induction false} FilledBlank(ts: seq<Token>, tail: string)
    ensures Filled(ts, tail, Blanked()) == Ok(Literals(ts, tail))
  {
    if ts != [] {
      FilledBlank(ts[1..], tail);
      assert "" + Literals(ts[1..], tail) == Literals(ts[1..], tail);
    }
  }

  /**
   A field with any number of placeholders that tells its files apart and mixes in no variable is independent of
   the files' contents exactly when the builder takes its key.
   */
  lemma SettableExactly(lib: Library, key: string, ts: seq<Token>, tail: string)
    requires ts != [] && (forall t | t in ts :: ValidToken(t)) && !Contains(tail, FILE_PREFIX)
    requires Distinguishes(lib, ts) && !lib.isTemplated(Literals(ts, tail))
    ensures Noninterfering(lib, [(key, Render(ts, tail))]) <==> lib.settable(key)
  {
    hide HasFile, ExpandValue, Contains, FindSub, ValidToken, Noninterfering, Reproducible, Render;
    var fields := [(key, Render(ts, tail))];
    RenderedField(lib, key, ts, tail);
    DistinguishedReproducible(lib, ts, tail);
    NoninterferenceExactly(lib, fields);
    assert fields[..0] == [];
    if !lib.settable(key) { assert InterferesAt(lib, fields, 0); }
  }

  const TWICE: seq<Token> := [Token("", "a"), Token("", " a")]

  /** Two spellings of one file cannot spell the field: such a field is refused whatever the file holds. */
  lemma SharedFileStops(lib: Library)
    requires lib.trim(" a") == lib.trim("a")
    ensures !Reproducible(lib, Render(TWICE, ""))
  {
    hide Contains, FindSub, ValidToken, Reproducible;
    TwiceValid();
    TwiceLength();
    ReproducibleExactly(lib, TWICE, "");
    forall vs: seq<string> | Spells(lib, TWICE, vs, "") ensures |Spelled(TWICE, vs, "")| == 2 * |vs[0]| {
      TwiceSpelled(vs);
      assert vs[0] == vs[1];
    }
  }

  lemma TwiceSpelled(vs: seq<string>)
    requires |vs| == 2
    ensures |Spelled(TWICE, vs, "")| == |vs[0]| + |vs[1]|
  {
    assert TWICE[1..] == [TWICE[1]] && vs[1..] == [vs[1]];
    assert Spelled([TWICE[1]], [vs[1]], "") == "" + (vs[1] + Spelled([TWICE[1]][1..], [vs[1]][1..], ""));
    assert [TWICE[1]][1..] == [] && [vs[1]][1..] == [];
  }

  lemma TwiceValid()
    ensures (forall t | t in TWICE :: ValidToken(t)) && !Contains("", FILE_PREFIX)
  {
    Short("a");
    Short(" a");
    Short("");
    assert ValidToken(TWICE[0]) && ValidToken(TWICE[1]);
  }

  lemma Short(s: string)
    requires |s| <= 2 && (|s| > 0 ==> s[0] != '$')
    ensures !Contains(s, FILE_PREFIX) && !Contains(s, "${")
  {
    forall i: nat ensures !OccursAt(s, "${", i) {
      if i + 2 <= |s| { assert s[i..i + 2][0] == s[0] && "${"[0] == '$'; }
    }
  }

  lemma TwiceLength()
    ensures |Render(TWICE, "")| == 19
  {
    assert TWICE[1..] == [TWICE[1]] && [TWICE[1]][1..] == [];
    assert Render([TWICE[1]], "") == "" + (FILE_PREFIX + (" a" + ("}" + "")));
  }
}
