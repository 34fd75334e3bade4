/** `run-commit` and `run-abort`: how an evidence run is settled into the capacity ledger. */
module AuditRun {
  import opened Wrappers
  import opened CapacityLedger
  import opened Decimal
  import opened RunTree

  const LEASE_LOCK := ".lease.lock"
  const EVIDENCE_LOCK := ".evidence.lock"
  const LOCKS: seq<string> := [LEASE_LOCK, EVIDENCE_LOCK]

  /** What is at `runs/<run-id>`, and the stored ledger. */
  datatype State = State(run: Option<Node>, counter: Counter)

  /** The run a command names and the hash of the capability it presents. */
  datatype Owner = Owner(runId: string, capHash: string)

  /**
   * A command with everything outside the program that decides how far it gets: the clock, the outcome of the
   * ledger write and, for an abort, at which of its directory operations it stops (crash or I/O error).
   */
  datatype Command =
    | Commit(w: World, at: string, write: Write)
    | Abort(w: World, at: string, write: Write, stop: nat)

  datatype Outcome = Settled(delta: int) | Retried(delta: int) | Failed(error: Error)

  datatype Step = Step(state: State, outcome: Outcome)

  // ---------------------------------------------------------------- the operation a run stands for

  predicate IsRunOf(r: Reservation, runId: string) {
    r.kind == Run && r.ownerFenced == Some(true) && TargetMatchesRun(r.target, runId)
  }

  function FindRun(rs: seq<Reservation>, runId: string): (k: nat)
    ensures k <= |rs|
    ensures k < |rs| ==> IsRunOf(rs[k], runId)
  {
    if rs == [] || IsRunOf(rs[0], runId) then 0 else 1 + FindRun(rs[1..], runId)
  }

  predicate IsTombOf(t: Tomb, runId: string) { t.ownerFenced == Some(true) && t.runId == Some(runId) }

  function FindRunTomb(ts: seq<Tomb>, runId: string): (k: nat)
    ensures k <= |ts|
    ensures k < |ts| ==> IsTombOf(ts[k], runId)
  {
    if ts == [] || IsTombOf(ts[0], runId) then 0 else 1 + FindRunTomb(ts[1..], runId)
  }

  /** `resolve_op_id`. */
  function ResolveOpId(c: Counter, o: Owner): Result<string, Error> {
    var k := FindRun(c.reservations, o.runId);
    var t := FindRunTomb(c.settled, o.runId);
    if !Wellformed(c) then Err(CounterInvalid)
    else if k < |c.reservations| then
      if c.reservations[k].payload == o.capHash then Ok(c.reservations[k].opId) else Err(Rejected)
    else if t < |c.settled| then
      if c.settled[t].capHash == Some(o.capHash) then Ok(c.settled[t].opId) else Err(Rejected)
    else Err(Rejected)
  }

  /** What the ledger records for an operation, if it is settled. */
  function SettledDelta(c: Counter, opId: string): Option<int> {
    var d := FindDelete(c.deleteSettled, opId);
    var k := FindTomb(c.settled, opId);
    if d < |c.deleteSettled| then Some(c.deleteSettled[d].delta)
    else if k < |c.settled| then Some(c.settled[k].delta)
    else None
  }

  // ---------------------------------------------------------------- directory removal

  datatype Removal = Removal(node: Node, ok: bool)

  /** Unlinks the named lock files in turn; `stop` is the operation at which it is interrupted. */
  function RemoveLocks(n: Node, names: seq<string>, stop: nat): (r: Removal)
    requires IsDir(n)
    ensures IsDir(r.node) && (r.node.Symlink? <==> n.Symlink?)
    decreases |names|
  {
    var es := EntriesOf(n);
    if names == [] then Removal(n, true)
    else if stop == 0 then Removal(n, false)
    else
      var k := FindEntry(es, names[0]);
      if k == |es| || !Exists(es[k].node) then RemoveLocks(n, names[1..], stop - 1)
      else if es[k].node.Dir? then Removal(n, false)
      else RemoveLocks(WithEntries(n, Without(es, k)), names[1..], stop - 1)
  }

  datatype Cleared = Cleared(run: Option<Node>, ok: bool)

  /** `remove_run_directory`: the locks, then the refusal of leftovers, `rmdir` (2) and the parent's fsync (3). */
  function RemoveRun(n: Node, stop: nat): Cleared
    requires IsDir(n)
  {
    var r := RemoveLocks(n, LOCKS, stop);
    if !r.ok || EntriesOf(r.node) != [] || r.node.Symlink? || stop == 2 then Cleared(Some(r.node), false)
    else Cleared(None, stop != 3)
  }

  predicate OnlyLocks(es: seq<Entry>) { forall e | e in es :: e.name in LOCKS }

  // ---------------------------------------------------------------- commands

  function Delta(bytes: nat): int { if bytes <= I64_MAX then bytes else I64_MAX }

  function RequestFor(opId: string, delta: int, finalState: string, at: string, o: Owner): SettleRequest {
    SettleRequest(opId, delta, finalState, at, Some(o.runId), Some(o.capHash))
  }

  function SettleWith(s: State, rq: SettleRequest, abort: bool, w: World, write: Write): Step {
    match Settle(s.counter, rq, abort, w)
    case Err(e) => Step(s, Failed(e))
    case Ok(Retry(d, _)) => Step(s, Retried(d))
    case Ok(Fresh(c, d, _)) =>
      Step(if write.Lands() then s.(counter := c) else s, if write == Written then Settled(d) else Failed(Fault))
  }

  /** `exec_run_commit`. */
  function ExecCommit(s: State, o: Owner, w: World, at: string, write: Write): Step {
    match ResolveOpId(s.counter, o)
    case Err(e) => Step(s, Failed(e))
    case Ok(opId) =>
      if s.run == None then Step(s, Failed(Fault))
      else
        match Measured(s.run.value)
        case Err(e) => Step(s, Failed(e))
        case Ok(bytes) => SettleWith(s, RequestFor(opId, Delta(bytes), "committed", at, o), false, w, write)
  }

  /** `exec_run_abort` on a directory that exists. */
  function AbortDir(s: State, n: Node, opId: string, o: Owner, w: World, at: string, write: Write, stop: nat): Step {
    if !IsDir(n) then Step(s, Failed(Rejected))
    else if OnlyLocks(EntriesOf(n)) then
      var cleared := RemoveRun(n, stop);
      var s' := s.(run := cleared.run);
      if cleared.ok then SettleWith(s', RequestFor(opId, 0, "aborted", at, o), true, w, write)
      else Step(s', Failed(Fault))
    else
      match Measured(n)
      case Err(e) => Step(s, Failed(e))
      case Ok(bytes) => SettleWith(s, RequestFor(opId, Delta(bytes), "aborted", at, o), true, w, write)
  }

  /** `exec_run_abort`. */
  function ExecAbort(s: State, o: Owner, w: World, at: string, write: Write, stop: nat): Step {
    match ResolveOpId(s.counter, o)
    case Err(e) => Step(s, Failed(e))
    case Ok(opId) =>
      if s.run == None || !Exists(s.run.value) then
        SettleWith(s, RequestFor(opId, 0, "aborted", at, o), true, w, write)
      else AbortDir(s, s.run.value, opId, o, w, at, write, stop)
  }

  function Exec(s: State, o: Owner, c: Command): Step {
    match c
    case Commit(w, at, write) => ExecCommit(s, o, w, at, write)
    case Abort(w, at, write, stop) => ExecAbort(s, o, w, at, write, stop)
  }

  /** The state after a list of commands, each stopped wherever its own parameters say. */
  function After(s: State, o: Owner, cs: seq<Command>): State {
    if cs == [] then s else Exec(After(s, o, cs[..|cs| - 1]), o, cs[|cs| - 1]).state
  }

  /** Bytes of the regular files under the run directory. */
  function RunBytes(run: Option<Node>): nat { if run == None then 0 else Bytes(run.value) }

  // ---------------------------------------------------------------- the first settlement charges what is there

  /** One settlement: the books move by the delta, and exactly that delta is recorded for the operation. */
  lemma SettleRecords(s: State, rq: SettleRequest, abort: bool, w: World, write: Write, opId: string)
    requires SettledDelta(s.counter, opId) == None
    ensures var s' := SettleWith(s, rq, abort, w, write).state;
            && s'.run == s.run
            && (SettledDelta(s'.counter, opId).Some? ==>
                  && opId == rq.opId && SettledDelta(s'.counter, opId) == Some(rq.delta)
                  && s'.counter.totalBytes == s.counter.totalBytes + rq.delta)
  {
    hide Settle, PushDelete;
    var c := SettleWith(s, rq, abort, w, write).state.counter;
    if c != s.counter {
      SettleMoves(s.counter, rq, abort, w);
      if |c.settled| == |s.counter.settled| {
        var t: DeleteTomb :|
          t.opId == rq.opId && t.delta == rq.delta && c.deleteSettled == PushDelete(s.counter.deleteSettled, t);
        DeleteAppended(s.counter.deleteSettled, t, opId);
      } else {
        var t: Tomb :| t.opId == rq.opId && t.delta == rq.delta && c.settled == s.counter.settled + [t];
        TombAppended(s.counter.settled, t, opId);
      }
    }
  }

  lemma TombAppended(ts: seq<Tomb>, t: Tomb, opId: string)
    requires FindTomb(ts, opId) == |ts|
    ensures FindTomb(ts + [t], opId) == if t.opId == opId then |ts| else |ts| + 1
  {
    var all := ts + [t];
    var k := FindTomb(all, opId);
    assert forall i :: 0 <= i < |ts| ==> all[i] == ts[i];
    assert all[|ts|] == t;
  }

  lemma DeleteAppended(ts: seq<DeleteTomb>, t: DeleteTomb, opId: string)
    requires FindDelete(ts, opId) == |ts|
    ensures var r := PushDelete(ts, t);
            && r != [] && r[|r| - 1] == t
            && FindDelete(r, opId) == if t.opId == opId then |r| - 1 else |r|
  {
    var r := PushDelete(ts, t);
    forall i | 0 <= i < |r| - 1 ensures r[i].opId != opId {
      assert r[i] in ts by { if |ts| >= MAX_DELETE_SETTLED { assert r[i] == SortTombs(ts)[i + 1]; } }
    }
    assert r[|r| - 1] == t;
  }

  /** The delta is the byte count exactly when that fits a signed 64-bit integer. */
  predicate Charges(delta: int, bytes: nat) {
    delta == (if bytes <= I64_MAX then bytes else I64_MAX)
  }

  lemma MeasuredCharges(n: Node)
    requires Measured(n).Ok?
    ensures Charges(Delta(Measured(n).value), Bytes(n))
  {
  }

  /**
   * The command that first settles an operation, from any directory contents and any ledger: the recorded delta
   * is the bytes of the regular files still there afterwards (as a signed 64-bit count), and the total moves by it.
   */
  lemma FirstSettlement(s: State, o: Owner, c: Command, opId: string)
    requires SettledDelta(s.counter, opId) == None
    ensures var s' := Exec(s, o, c).state;
            SettledDelta(s'.counter, opId).Some? ==>
              && Charges(SettledDelta(s'.counter, opId).value, RunBytes(s'.run))
              && s'.counter.totalBytes == s.counter.totalBytes + SettledDelta(s'.counter, opId).value
  {
    hide SettledDelta, ResolveOpId, Settle, SettleWith, Measured, RemoveRun, OnlyLocks, Bytes;
    var s' := Exec(s, o, c).state;
    if ResolveOpId(s.counter, o).Ok? && s'.counter != s.counter {
      var op := ResolveOpId(s.counter, o).value;
      match c
      case Commit(w, at, write) =>
        var n := s.run.value;
        MeasuredCharges(n);
        SettleRecords(s, RequestFor(op, Delta(Measured(n).value), "committed", at, o), false, w, write, opId);
      case Abort(w, at, write, stop) =>
        if s.run == None || !Exists(s.run.value) {
          GoneBytes(s.run);
          SettleRecords(s, RequestFor(op, 0, "aborted", at, o), true, w, write, opId);
        } else {
          AbortSettlement(s, s.run.value, op, o, w, at, write, stop, opId);
        }
    }
  }

  lemma GoneBytes(run: Option<Node>)
    requires run == None || !Exists(run.value)
    ensures RunBytes(run) == 0
  {
  }

  lemma AbortSettlement(
      s: State, n: Node, op: string, o: Owner, w: World, at: string, write: Write, stop: nat, opId: string)
    requires SettledDelta(s.counter, opId) == None && s.run == Some(n)
    ensures var s' := AbortDir(s, n, op, o, w, at, write, stop).state;
            SettledDelta(s'.counter, opId).Some? ==>
              && Charges(SettledDelta(s'.counter, opId).value, RunBytes(s'.run))
              && s'.counter.totalBytes == s.counter.totalBytes + SettledDelta(s'.counter, opId).value
  {
    hide SettledDelta, Settle, SettleWith, Measured, OnlyLocks, Bytes, RemoveLocks;
    if IsDir(n) {
      if OnlyLocks(EntriesOf(n)) {
        var s1 := s.(run := RemoveRun(n, stop).run);
        SettleRecords(s1, RequestFor(op, 0, "aborted", at, o), true, w, write, opId);
      } else if Measured(n).Ok? {
        MeasuredCharges(n);
        SettleRecords(s, RequestFor(op, Delta(Measured(n).value), "aborted", at, o), true, w, write, opId);
      }
    }
  }

  // ---------------------------------------------------------------- only the two locks are ever deleted

  /** What a path below the run directory names; the run directory itself may be reached through links. */
  function Lookup(run: Option<Node>, path: seq<string>): Option<Node> {
    if run == None || !Exists(run.value) then None else Within(Follow(run.value).value, path)
  }

  function Within(n: Node, path: seq<string>): Option<Node>
    decreases |path|
  {
    if path == [] then Some(n)
    else if !n.Dir? then None
    else
      var k := FindEntry(n.entries, path[0]);
      if k == |n.entries| then None else Within(n.entries[k].node, path[1..])
  }

  /** Names are unique in the run directory. */
  predicate UniqueNames(run: Option<Node>) {
    run.Some? && IsDir(run.value) ==> Distinct(EntriesOf(run.value))
  }

  predicate Distinct(es: seq<Entry>) {
    forall i, j :: 0 <= i < j < |es| ==> es[i].name != es[j].name
  }

  predicate IsLockPath(path: seq<string>) { |path| == 1 && path[0] in LOCKS }

  /** `after` has everything `before` has below the run directory, except possibly lock files. */
  ghost predicate OnlyLocksGone(before: Option<Node>, after: Option<Node>) {
    forall path: seq<string> | path != [] ::
      Lookup(after, path) == Lookup(before, path) || (IsLockPath(path) && Lookup(after, path) == None)
  }

  lemma WithoutAt(es: seq<Entry>, k: nat, i: nat)
    requires k < |es| && i < |es| - 1
    ensures Without(es, k)[i] == es[if i < k then i else i + 1]
  {
  }

  lemma WithoutDistinct(es: seq<Entry>, k: nat)
    requires k < |es| && Distinct(es)
    ensures Distinct(Without(es, k))
  {
    hide Without;
    var rest := Without(es, k);
    assert |rest| == |es| - 1 by { WithoutSize(es, k); }
    forall i, j | 0 <= i < j < |rest| ensures rest[i].name != rest[j].name {
      WithoutAt(es, k, i);
      WithoutAt(es, k, j);
    }
  }

  lemma WithoutSize(es: seq<Entry>, k: nat)
    requires k < |es|
    ensures |Without(es, k)| == |es| - 1
  {
  }

  /** The other names are found as before. */
  lemma OtherStays(es: seq<Entry>, k: nat, name: string)
    requires k < |es| && es[k].name != name
    ensures |Without(es, k)| == |es| - 1
    ensures var j, m := FindEntry(Without(es, k), name), FindEntry(es, name);
            (j < |es| - 1 <==> m < |es|) && (m < |es| ==> Without(es, k)[j] == es[m])
  {
    hide Without;
    WithoutSize(es, k);
    var rest := Without(es, k);
    var j, m := FindEntry(rest, name), FindEntry(es, name);
    if m < |es| {
      var at := if m < k then m else m - 1;
      WithoutAt(es, k, at);
      assert j <= at;
    }
    if j < |rest| { WithoutAt(es, k, j); }
  }

  /** A removed name is not found any more. */
  lemma RemovedGone(es: seq<Entry>, k: nat)
    requires k < |es| && Distinct(es)
    ensures |Without(es, k)| == |es| - 1 && FindEntry(Without(es, k), es[k].name) == |es| - 1
  {
    hide Without;
    WithoutSize(es, k);
    var j := FindEntry(Without(es, k), es[k].name);
    if j < |es| - 1 { WithoutAt(es, k, j); }
  }

  /** Unlinking one lock: every other path still names what it named. */
  lemma UnlinkKeeps(es: seq<Entry>, k: nat, path: seq<string>)
    requires k < |es| && Distinct(es) && !es[k].node.Dir? && path != []
    ensures Within(Dir(Without(es, k)), path) == Within(Dir(es), path) ||
            (path == [es[k].name] && Within(Dir(Without(es, k)), path) == None)
  {
    if path[0] != es[k].name {
      OtherStays(es, k, path[0]);
    } else {
      RemovedGone(es, k);
      assert FindEntry(es, path[0]) == k;
      if |path| == 1 {
        assert path == [path[0]];
      } else {
        assert Within(Dir(es), path) == None;
      }
    }
  }

  lemma {:induction false} RemoveLocksKeeps(n: Node, names: seq<string>, stop: nat, path: seq<string>)
    requires IsDir(n) && Distinct(EntriesOf(n)) && path != [] && (forall x | x in names :: x in LOCKS)
    ensures var r := RemoveLocks(n, names, stop).node;
            && Distinct(EntriesOf(r))
            && (Within(Dir(EntriesOf(r)), path) == Within(Dir(EntriesOf(n)), path) ||
                (IsLockPath(path) && Within(Dir(EntriesOf(r)), path) == None))
    decreases |names|
  {
    hide Within, Without, Distinct, FindEntry;
    if names != [] && stop > 0 {
      var es := EntriesOf(n);
      var k := FindEntry(es, names[0]);
      if k == |es| || !Exists(es[k].node) {
        RemoveLocksKeeps(n, names[1..], stop - 1, path);
      } else if !es[k].node.Dir? {
        WithoutDistinct(es, k);
        UnlinkKeeps(es, k, path);
        RemoveLocksKeeps(WithEntries(n, Without(es, k)), names[1..], stop - 1, path);
      }
    }
  }

  lemma RemoveRunKeeps(n: Node, stop: nat)
    requires IsDir(n) && Distinct(EntriesOf(n))
    ensures OnlyLocksGone(Some(n), RemoveRun(n, stop).run) && UniqueNames(RemoveRun(n, stop).run)
  {
    hide RemoveLocks;
    var r := RemoveLocks(n, LOCKS, stop).node;
    var after := RemoveRun(n, stop).run;
    RemoveLocksKeeps(n, LOCKS, stop, [""]);
    forall path: seq<string> | path != []
      ensures Lookup(after, path) == Lookup(Some(n), path) || (IsLockPath(path) && Lookup(after, path) == None)
    {
      RemoveLocksKeeps(n, LOCKS, stop, path);
      assert Follow(n).value == Dir(EntriesOf(n)) && Follow(r).value == Dir(EntriesOf(r));
      if after == None { assert EntriesOf(r) == [] && Within(Dir([]), path) == None; }
    }
  }

  lemma SettleKeepsRun(s: State, rq: SettleRequest, abort: bool, w: World, write: Write)
    ensures SettleWith(s, rq, abort, w, write).state.run == s.run
  {
    hide Settle;
  }

  lemma ExecDeletes(s: State, o: Owner, c: Command)
    requires UniqueNames(s.run)
    ensures OnlyLocksGone(s.run, Exec(s, o, c).state.run) && UniqueNames(Exec(s, o, c).state.run)
  {
    hide SettleWith, ResolveOpId, Measured, RemoveRun, Lookup;
    if ResolveOpId(s.counter, o).Ok? {
      var op := ResolveOpId(s.counter, o).value;
      match c
      case Commit(w, at, write) =>
        if s.run.Some? && Measured(s.run.value).Ok? {
          SettleKeepsRun(s, RequestFor(op, Delta(Measured(s.run.value).value), "committed", at, o), false, w, write);
        }
      case Abort(w, at, write, stop) =>
        SettleKeepsRun(s, RequestFor(op, 0, "aborted", at, o), true, w, write);
        if s.run.Some? && Exists(s.run.value) && IsDir(s.run.value) {
          var n := s.run.value;
          RemoveRunKeeps(n, stop);
          SettleKeepsRun(s.(run := RemoveRun(n, stop).run), RequestFor(op, 0, "aborted", at, o), true, w, write);
          if Measured(n).Ok? {
            SettleKeepsRun(s, RequestFor(op, Delta(Measured(n).value), "aborted", at, o), true, w, write);
          }
        }
    }
  }

  /** Over any commands, complete or interrupted anywhere, nothing but the two lock files disappears. */
  lemma {:induction false} RunDeletesOnlyLocks(s: State, o: Owner, cs: seq<Command>)
    requires UniqueNames(s.run)
    ensures OnlyLocksGone(s.run, After(s, o, cs).run) && UniqueNames(After(s, o, cs).run)
    decreases |cs|
  {
    hide Exec, Lookup;
    if cs != [] {
      var before := After(s, o, cs[..|cs| - 1]);
      RunDeletesOnlyLocks(s, o, cs[..|cs| - 1]);
      ExecDeletes(before, o, cs[|cs| - 1]);
      Transitive(s.run, before.run, After(s, o, cs).run);
    }
  }

  lemma Transitive(a: Option<Node>, b: Option<Node>, c: Option<Node>)
    requires OnlyLocksGone(a, b) && OnlyLocksGone(b, c)
    ensures OnlyLocksGone(a, c)
  {
    hide Lookup;
    forall path: seq<string> | path != []
      ensures Lookup(c, path) == Lookup(a, path) || (IsLockPath(path) && Lookup(c, path) == None)
    {
      assert Lookup(b, path) == Lookup(a, path) || (IsLockPath(path) && Lookup(b, path) == None);
      assert Lookup(c, path) == Lookup(b, path) || (IsLockPath(path) && Lookup(c, path) == None);
    }
  }

  // ---------------------------------------------------------------- after the settlement

  /** Aborting would unlink a lock file that has bytes. */
  predicate Exposed(run: Option<Node>) {
    && run.Some? && run.value.Dir?
    && var es := run.value.entries;
       var lease, evidence := FindEntry(es, LEASE_LOCK), FindEntry(es, EVIDENCE_LOCK);
       && OnlyLocks(es)
       && (|| (lease < |es| && HasBytes(es[lease].node))
           || (evidence < |es| && HasBytes(es[evidence].node) && !(lease < |es| && es[lease].node.Dir?)))
  }

  predicate HasBytes(n: Node) { n.File? && n.len > 0 }

  /** One turn of the lock loop. */
  lemma LockTurn(es: seq<Entry>, name: string)
    requires FindEntry(es, name) < |es| && !es[FindEntry(es, name)].node.Dir?
    ensures EntryBytes(Without(es, FindEntry(es, name))) <= EntryBytes(es)
    ensures EntryBytes(Without(es, FindEntry(es, name))) == EntryBytes(es) <==>
            !HasBytes(es[FindEntry(es, name)].node)
  {
    WithoutBytes(es, FindEntry(es, name));
  }

  lemma LinkBytes(n: Node)
    requires IsDir(n)
    ensures Bytes(n) == if n.Dir? then EntryBytes(EntriesOf(n)) else 0
  {
  }

  /** The node after one turn of the lock loop, and its bytes. */
  lemma TurnBytes(n: Node, name: string)
    requires IsDir(n)
    requires var es := EntriesOf(n); var k := FindEntry(es, name); k < |es| && !es[k].node.Dir?
    ensures var es := EntriesOf(n); var k := FindEntry(es, name); var n' := WithEntries(n, Without(es, k));
            && Bytes(n') <= Bytes(n)
            && (!HasBytes(es[k].node) ==> Bytes(n') == Bytes(n))
            && (HasBytes(es[k].node) && n.Dir? ==> Bytes(n') < Bytes(n))
  {
    hide Bytes, EntryBytes, Without;
    var es := EntriesOf(n);
    var k := FindEntry(es, name);
    LockTurn(es, name);
    LinkBytes(n);
    LinkBytes(WithEntries(n, Without(es, k)));
  }

  lemma {:induction false} RemoveLocksShrinks(n: Node, names: seq<string>, stop: nat)
    requires IsDir(n)
    ensures Bytes(RemoveLocks(n, names, stop).node) <= Bytes(n)
    decreases |names|
  {
    hide Bytes, EntryBytes, Without;
    if names != [] && stop > 0 {
      var es := EntriesOf(n);
      var k := FindEntry(es, names[0]);
      if k == |es| || !Exists(es[k].node) {
        RemoveLocksShrinks(n, names[1..], stop - 1);
      } else if !es[k].node.Dir? {
        var n' := WithEntries(n, Without(es, k));
        TurnBytes(n, names[0]);
        RemoveLocksShrinks(n', names[1..], stop - 1);
      }
    }
  }

  /** What one lock name contributes: gone from the listing if it is a plain entry, and then only its own bytes. */
  lemma FirstLock(n: Node, names: seq<string>, stop: nat)
    requires IsDir(n) && names != [] && stop > 0
    ensures var es := EntriesOf(n);
            var k := FindEntry(es, names[0]);
            k < |es| && HasBytes(es[k].node) && n.Dir? ==> Bytes(RemoveLocks(n, names, stop).node) < Bytes(n)
  {
    hide Bytes, EntryBytes, Without;
    var es := EntriesOf(n);
    var k := FindEntry(es, names[0]);
    if k < |es| && HasBytes(es[k].node) && n.Dir? {
      var n' := WithEntries(n, Without(es, k));
      TurnBytes(n, names[0]);
      RemoveLocksShrinks(n', names[1..], stop - 1);
    }
  }

  /** An abort that gets past both locks loses bytes from an exposed directory. */
  lemma ExposedLoses(n: Node)
    requires Exposed(Some(n))
    ensures RunBytes(RemoveRun(n, 2).run) < Bytes(n)
  {
    hide Bytes, EntryBytes, Without;
    var es := n.entries;
    var lease := FindEntry(es, LEASE_LOCK);
    assert LOCKS[0] == LEASE_LOCK && LOCKS[1..] == [EVIDENCE_LOCK];
    FirstLock(n, LOCKS, 2);
    if !(lease < |es| && HasBytes(es[lease].node)) {
      if lease == |es| || !Exists(es[lease].node) {
        FirstLock(n, [EVIDENCE_LOCK], 1);
      } else {
        var n' := WithEntries(n, Without(es, lease));
        TurnBytes(n, LEASE_LOCK);
        OtherStays(es, lease, EVIDENCE_LOCK);
        FirstLock(n', [EVIDENCE_LOCK], 1);
      }
    }
  }

  /** Neither lock file has bytes. */
  predicate Silent(es: seq<Entry>) {
    && (FindEntry(es, LEASE_LOCK) < |es| ==> !HasBytes(es[FindEntry(es, LEASE_LOCK)].node))
    && (FindEntry(es, EVIDENCE_LOCK) < |es| ==> !HasBytes(es[FindEntry(es, EVIDENCE_LOCK)].node))
  }

  lemma SilentWithout(es: seq<Entry>, k: nat)
    requires k < |es| && Distinct(es) && Silent(es)
    ensures Silent(Without(es, k)) && Distinct(Without(es, k))
  {
    WithoutDistinct(es, k);
    if es[k].name == LEASE_LOCK { RemovedGone(es, k); } else { OtherStays(es, k, LEASE_LOCK); }
    if es[k].name == EVIDENCE_LOCK { RemovedGone(es, k); } else { OtherStays(es, k, EVIDENCE_LOCK); }
  }

  lemma {:induction false} RemoveLocksSilent(n: Node, names: seq<string>, stop: nat)
    requires IsDir(n) && Distinct(EntriesOf(n)) && Silent(EntriesOf(n)) && (forall x | x in names :: x in LOCKS)
    ensures var r := RemoveLocks(n, names, stop).node;
            Bytes(r) == Bytes(n) && Silent(EntriesOf(r))
    decreases |names|
  {
    hide Bytes, EntryBytes, Without;
    if names != [] && stop > 0 {
      var es := EntriesOf(n);
      var k := FindEntry(es, names[0]);
      if k == |es| || !Exists(es[k].node) {
        RemoveLocksSilent(n, names[1..], stop - 1);
      } else if !es[k].node.Dir? {
        var n' := WithEntries(n, Without(es, k));
        assert names[0] in LOCKS;
        TurnBytes(n, names[0]);
        SilentWithout(es, k);
        RemoveLocksSilent(n', names[1..], stop - 1);
      }
    }
  }

  /** A locks-only directory that is not exposed keeps its bytes through any abort, and stays so. */
  lemma UnexposedKeeps(n: Node, stop: nat)
    requires IsDir(n) && Distinct(EntriesOf(n)) && OnlyLocks(EntriesOf(n)) && !Exposed(Some(n))
    ensures RunBytes(RemoveRun(n, stop).run) == Bytes(n) && !Exposed(RemoveRun(n, stop).run)
  {
    hide Bytes, EntryBytes, RemoveLocks;
    var es := EntriesOf(n);
    var r := RemoveLocks(n, LOCKS, stop);
    if n.Symlink? {
      RemoveLocksShrinks(n, LOCKS, stop);
      LinkBytes(n);
    } else if Silent(es) {
      RemoveLocksSilent(n, LOCKS, stop);
      LinkBytes(r.node);
      EmptyBytes();
    } else {
      LeaseBlocks(n, stop);
    }
  }

  lemma EmptyBytes()
    ensures EntryBytes([]) == 0
  {
  }

  /** A directory in the place of the lease lock stops the removal before it has done anything. */
  lemma LeaseBlocks(n: Node, stop: nat)
    requires IsDir(n)
    requires var es := EntriesOf(n); var k := FindEntry(es, LEASE_LOCK); k < |es| && es[k].node.Dir?
    ensures RemoveLocks(n, LOCKS, stop) == Removal(n, false)
  {
    assert LOCKS[0] == LEASE_LOCK;
  }

  /** The run is settled under this operation. */
  predicate IsSettled(s: State, o: Owner, opId: string) {
    ResolveOpId(s.counter, o) == Ok(opId) && SettledDelta(s.counter, opId).Some?
  }

  lemma RetrySettles(s: State, rq: SettleRequest, abort: bool, w: World, write: Write)
    requires SettledDelta(s.counter, rq.opId).Some?
    ensures SettleWith(s, rq, abort, w, write).state == s
  {
    hide Store, PushDelete, MaySettle, Wellformed;
  }

  /** A command on a settled run leaves the ledger alone. */
  lemma RetryKeeps(s: State, o: Owner, c: Command, opId: string)
    requires IsSettled(s, o, opId) && UniqueNames(s.run)
    ensures Exec(s, o, c).state.counter == s.counter
    ensures !Exposed(s.run) ==>
            RunBytes(Exec(s, o, c).state.run) == RunBytes(s.run) && !Exposed(Exec(s, o, c).state.run)
  {
    hide SettleWith, SettledDelta, Measured, RemoveRun, Exposed, Bytes;
    match c
    case Commit(w, at, write) =>
      if s.run.Some? && Measured(s.run.value).Ok? {
        RetrySettles(s, RequestFor(opId, Delta(Measured(s.run.value).value), "committed", at, o), false, w, write);
      }
    case Abort(w, at, write, stop) =>
      RetrySettles(s, RequestFor(opId, 0, "aborted", at, o), true, w, write);
      if s.run.Some? && Exists(s.run.value) && IsDir(s.run.value) {
        var n := s.run.value;
        if OnlyLocks(EntriesOf(n)) {
          RetrySettles(s.(run := RemoveRun(n, stop).run), RequestFor(opId, 0, "aborted", at, o), true, w, write);
          if !Exposed(s.run) { UnexposedKeeps(n, stop); }
        } else if Measured(n).Ok? {
          RetrySettles(s, RequestFor(opId, Delta(Measured(n).value), "aborted", at, o), true, w, write);
        }
      }
  }

  lemma {:induction false} RetriesKeep(s: State, o: Owner, cs: seq<Command>, opId: string)
    requires IsSettled(s, o, opId) && UniqueNames(s.run)
    ensures var s' := After(s, o, cs);
            s'.counter == s.counter && (!Exposed(s.run) ==> RunBytes(s'.run) == RunBytes(s.run) && !Exposed(s'.run))
    decreases |cs|
  {
    hide Exec, Exposed, RunBytes;
    if cs != [] {
      RetriesKeep(s, o, cs[..|cs| - 1], opId);
      RunDeletesOnlyLocks(s, o, cs[..|cs| - 1]);
      RetryKeeps(After(s, o, cs[..|cs| - 1]), o, cs[|cs| - 1], opId);
    }
  }

  lemma ExposedRetry(s: State, o: Owner, opId: string) returns (cs: seq<Command>)
    requires IsSettled(s, o, opId) && Exposed(s.run)
    ensures RunBytes(After(s, o, cs).run) < RunBytes(s.run)
  {
    hide SettleWith, SettledDelta, Bytes, RemoveRun;
    var w := QUIET;
    cs := [Abort(w, "", Written, 2)];
    assert cs[..|cs| - 1] == [];
    ExposedLoses(s.run.value);
    SettleKeepsRun(s.(run := RemoveRun(s.run.value, 2).run), RequestFor(opId, 0, "aborted", "", o), true, w, Written);
    assert After(s, o, []) == s;
    assert After(s, o, cs) == Exec(s, o, cs[0]).state;
  }

  /**
   * Once a run is settled, later commands never touch the ledger. What it recorded stays the bytes on disk through
   * every list of later commands exactly when the directory does not hold a lock file with bytes and nothing else.
   */
  lemma AccountingStays(s: State, o: Owner, opId: string)
    requires IsSettled(s, o, opId) && UniqueNames(s.run)
    ensures forall cs: seq<Command> :: After(s, o, cs).counter == s.counter
    ensures (forall cs: seq<Command> :: RunBytes(After(s, o, cs).run) == RunBytes(s.run)) <==> !Exposed(s.run)
  {
    hide After, Exposed, RunBytes;
    forall cs: seq<Command>
      ensures After(s, o, cs).counter == s.counter
      ensures !Exposed(s.run) ==> RunBytes(After(s, o, cs).run) == RunBytes(s.run)
    {
      RetriesKeep(s, o, cs, opId);
    }
    if Exposed(s.run) {
      var cs := ExposedRetry(s, o, opId);
      assert RunBytes(After(s, o, cs).run) != RunBytes(s.run);
    }
  }

  /**
   * The two together over a whole history: whatever commands came before, and wherever each of them stopped, the
   * one that first settles the run charges the bytes that remain, all of which but the locks were there at the start.
   */
  lemma HistoryCharges(s: State, o: Owner, cs: seq<Command>, c: Command, opId: string)
    requires UniqueNames(s.run)
    requires SettledDelta(After(s, o, cs).counter, opId) == None
    ensures var s' := After(s, o, cs + [c]);
            && OnlyLocksGone(s.run, s'.run)
            && (SettledDelta(s'.counter, opId).Some? ==>
                Charges(SettledDelta(s'.counter, opId).value, RunBytes(s'.run)))
  {
    hide Exec, SettledDelta, RunBytes, Charges, OnlyLocksGone;
    assert (cs + [c])[..|cs|] == cs;
    RunDeletesOnlyLocks(s, o, cs + [c]);
    FirstSettlement(After(s, o, cs), o, c, opId);
  }

  // ---------------------------------------------------------------- a charged lock that is lost

  const SAMPLE_RUN: string := Zeros(8) + ("T" + (Zeros(6) + "Z-0"))

  function SampleOwner(): Owner { Owner(SAMPLE_RUN, ZERO_DIGEST) }

  function SampleReservation(): Reservation {
    Reservation("op", Run, Create, "now", 256 * KIB, "runs/" + SAMPLE_RUN, ZERO_DIGEST, Some(true))
  }

  function SampleTomb(): Tomb {
    Tomb("op", Run, Create, 1, "committed", "now", Some(true), Some(SAMPLE_RUN), Some(ZERO_DIGEST))
  }

  /** One reserved run whose directory holds a one-byte lease lock and nothing else. */
  function SampleStart(): State {
    State(Some(Dir([Entry(LEASE_LOCK, File(1))])), Counter(0, 256 * KIB, [SampleReservation()], [], []))
  }

  function SampleCommitted(): State {
    State(SampleStart().run, Counter(1, 0, [], [SampleTomb()], []))
  }

  function SampleCommit(): Command { Commit(QUIET, "now", Written) }

  function SampleAbort(): Command { Abort(QUIET, "now", Written, 4) }

  lemma SampleNames()
    ensures ValidRunId(SAMPLE_RUN) && IsDigest(ZERO_DIGEST) && SAMPLE_RUN != ""
  {
    var s := SAMPLE_RUN;
    assert s[8] == 'T' && s[15] == 'Z' && s[16] == '-' && s[17] == '0' && |s| == 18;
    assert forall i :: 0 <= i < 8 ==> s[i] == '0';
    assert forall i :: 9 <= i < 15 ==> s[i] == Zeros(6)[i - 9];
    assert IndexOf(s, IsDash) == 16;
    ZeroDigest();
  }

  lemma SampleWellformed()
    ensures Wellformed(SampleStart().counter) && Wellformed(SampleCommitted().counter)
  {
    hide ValidRunId, IsDigest;
    SampleNames();
    assert [SampleReservation()][..0] == [];
    assert CreateCount([SampleReservation()]) == 1;
  }

  lemma SampleBytes()
    ensures Measured(SampleStart().run.value) == Ok(1) && Bytes(SampleStart().run.value) == 1
  {
    var es := [Entry(LEASE_LOCK, File(1))];
    assert es[1..] == [];
    assert Bytes(es[0].node) == 1 && EntryBytes([]) == 0;
    assert !HasLink(es[0].node) && !EntriesHaveLink([]);
    assert EntryBytes(es) == 1 && !EntriesHaveLink(es);
  }

  /** The commit charges the byte of the lock. */
  lemma SampleSettles()
    ensures Exec(SampleStart(), SampleOwner(), SampleCommit()) == Step(SampleCommitted(), Settled(1))
  {
    hide ValidRunId, IsDigest, Wellformed, Measured, SAMPLE_RUN, ZERO_DIGEST;
    SampleNames();
    SampleWellformed();
    SampleBytes();
    var c := SampleStart().counter;
    assert c.reservations[0] == SampleReservation();
    assert FindRun(c.reservations, SAMPLE_RUN) == 0;
    assert FindReservation(c.reservations, "op") == 0;
    assert ResolveOpId(c, SampleOwner()) == Ok("op");
    assert c.reservations[..0] + c.reservations[1..] == [];
    assert [] + [SampleTomb()] == [SampleTomb()];
  }

  lemma SampleIsSettled()
    ensures IsSettled(SampleCommitted(), SampleOwner(), "op")
    ensures SettledDelta(SampleCommitted().counter, "op") == Some(1)
  {
    hide ValidRunId, IsDigest, Wellformed, SAMPLE_RUN, ZERO_DIGEST;
    SampleWellformed();
    assert FindRunTomb([SampleTomb()], SAMPLE_RUN) == 0;
    assert FindTomb([SampleTomb()], "op") == 0;
  }

  lemma SampleRemoved()
    ensures RemoveRun(SampleStart().run.value, 4) == Cleared(None, true)
    ensures Exposed(SampleStart().run)
  {
    var es := [Entry(LEASE_LOCK, File(1))];
    assert FindEntry(es, LEASE_LOCK) == 0;
    assert Without(es, 0) == [];
    assert LOCKS[0] == LEASE_LOCK && LOCKS[1..] == [EVIDENCE_LOCK] && [EVIDENCE_LOCK][1..] == [];
    assert RemoveLocks(Dir([]), [EVIDENCE_LOCK], 3) == RemoveLocks(Dir([]), [], 2);
    assert RemoveLocks(Dir(es), LOCKS, 4) == RemoveLocks(Dir([]), [EVIDENCE_LOCK], 3);
  }

  /**
   * The whole history: a run is reserved and holds a one-byte lease lock, `run-commit` records 1, and a later
   * `run-abort` removes the directory while the ledger still says 1.
   */
  lemma ChargedLockLost()
    ensures var s1 := After(SampleStart(), SampleOwner(), [SampleCommit()]);
            SettledDelta(s1.counter, "op") == Some(1) && RunBytes(s1.run) == 1
    ensures var s2 := After(SampleStart(), SampleOwner(), [SampleCommit(), SampleAbort()]);
            SettledDelta(s2.counter, "op") == Some(1) && RunBytes(s2.run) == 0
  {
    hide Exec, SettledDelta, Bytes, SAMPLE_RUN, ZERO_DIGEST;
    var o, s0, s1 := SampleOwner(), SampleStart(), SampleCommitted();
    var c, a := SampleCommit(), SampleAbort();
    SampleSettles();
    SampleIsSettled();
    SampleBytes();
    SampleAborts();
    assert [c][..0] == [] && [c, a][..1] == [c];
    assert After(s0, o, []) == s0;
    assert After(s0, o, [c]) == s1;
    assert After(s0, o, [c, a]) == Exec(s1, o, a).state;
  }

  lemma SampleAborts()
    ensures Exec(SampleCommitted(), SampleOwner(), SampleAbort()).state == State(None, SampleCommitted().counter)
  {
    hide SettledDelta, SettleWith, ResolveOpId, RemoveRun, SAMPLE_RUN, ZERO_DIGEST;
    var s, o := SampleCommitted(), SampleOwner();
    SampleIsSettled();
    SampleRemoved();
    RetrySettles(s.(run := None), RequestFor("op", 0, "aborted", "now", o), true, QUIET, Written);
  }
}
