/** The two settling commands as they change the run directory and the ledger step by step. */
module AuditRunCommands {
  import opened Wrappers
  import opened CapacityLedger
  import opened RunTree
  import opened AuditRun
  import opened AuditRunOwner

  datatype RunAbortState = Empty | LocksOnly | Partial(bytes: U64)

  /** `classify_run_dir`. */
  method ClassifyRunDir(n: Node) returns (r: Result<RunAbortState, Error>)
    ensures r ==
      if !IsDir(n) then Err(Rejected)
      else if EntriesOf(n) == [] then Ok(Empty)
      else if OnlyLocks(EntriesOf(n)) then Ok(LocksOnly)
      else match Measured(n) case Ok(b) => Ok(Partial(b)) case Err(e) => Err(e)
  {
    if !IsDir(n) { return Err(Rejected); }
    var es := EntriesOf(n);
    var names: seq<string> := [];
    for i := 0 to |es|
      invariant |names| == i
      invariant forall j :: 0 <= j < i ==> names[j] == es[j].name
    {
      names := names + [es[i].name];
    }
    if names == [] { return Ok(Empty); }
    var all := true;
    for i := 0 to |names|
      invariant all <==> forall j :: 0 <= j < i ==> names[j] in LOCKS
    {
      if names[i] != LEASE_LOCK && names[i] != EVIDENCE_LOCK { all := false; }
    }
    assert all <==> OnlyLocks(es) by {
      if OnlyLocks(es) { assert forall j :: 0 <= j < |names| ==> es[j] in es; }
    }
    if all { return Ok(LocksOnly); }
    var bytes := MeasureRunBytes(n);
    match bytes
    case Ok(b) => return Ok(Partial(b));
    case Err(e) => return Err(e);
  }

  class RestrictedRoot {
    /** What is at `runs/<run-id>`. */
    var run: Option<Node>
    /** The stored `.counters.json`. */
    var counter: Counter

    constructor (run: Option<Node>, counter: Counter)
      ensures this.run == run && this.counter == counter
    {
      this.run, this.counter := run, counter;
    }

    function Now(): State
      reads this
    {
      State(run, counter)
    }

    /** `remove_run_directory`, interrupted at its `stop`-th directory operation. */
    method RemoveRunDirectory(stop: nat) returns (ok: bool)
      requires run.Some? && IsDir(run.value)
      modifies this`run
      ensures Cleared(run, ok) == RemoveRun(old(run).value, stop)
    {
      hide Follow, Exists, IsDir, EntriesOf, WithEntries, FindEntry, Without;
      var node := run.value;
      for i := 0 to |LOCKS|
        invariant run == Some(node) && IsDir(node) && i <= stop
        invariant RemoveLocks(old(run).value, LOCKS, stop) == RemoveLocks(node, LOCKS[i..], stop - i)
      {
        assert LOCKS[i..][0] == LOCKS[i] && LOCKS[i..][1..] == LOCKS[i + 1..];
        if stop == i { return false; }
        var es := EntriesOf(node);
        var k := FindEntry(es, LOCKS[i]);
        if k < |es| && Exists(es[k].node) {
          if es[k].node.Dir? { return false; }
          node := WithEntries(node, Without(es, k));
          run := Some(node);
        }
      }
      if EntriesOf(node) != [] { return false; }
      if node.Symlink? || stop == 2 { return false; }
      run := None;
      ok := stop != 3;
    }

    /** `commit_locked` and `abort_locked`. */
    method SettleLocked(rq: SettleRequest, abort: bool, w: World, write: Write) returns (r: Outcome)
      modifies this`counter
      ensures Step(Now(), r) == SettleWith(old(Now()), rq, abort, w, write)
    {
      hide Settle;
      match Settle(counter, rq, abort, w) {
        case Err(e) => return Failed(e);
        case Ok(Retry(d, _)) => return Retried(d);
        case Ok(Fresh(c, d, _)) =>
          if write.Lands() { counter := c; }
          return if write == Written then Settled(d) else Failed(Fault);
      }
    }

    /** `exec_run_commit`. */
    method ExecRunCommit(o: Owner, w: World, at: string, write: Write) returns (r: Outcome)
      modifies this`counter
      ensures Step(Now(), r) == ExecCommit(old(Now()), o, w, at, write)
      ensures (forall opId :: !Opens(old(counter), o, opId)) ==> r.Failed? && Now() == old(Now())
    {
      hide SettleWith, ResolveOpId, Opens;
      ResolveExactly(counter, o);
      var resolved := ResolveOpId(counter, o);
      if resolved.Err? { return Failed(resolved.error); }
      if run == None { return Failed(Fault); }
      var bytes := MeasureRunBytes(run.value);
      if bytes.Err? { return Failed(bytes.error); }
      r := SettleLocked(RequestFor(resolved.value, Delta(bytes.value), "committed", at, o), false, w, write);
    }

    /** `exec_run_abort`. */
    method ExecRunAbort(o: Owner, w: World, at: string, write: Write, stop: nat) returns (r: Outcome)
      modifies this
      ensures Step(Now(), r) == ExecAbort(old(Now()), o, w, at, write, stop)
      ensures (forall opId :: !Opens(old(counter), o, opId)) ==> r.Failed? && Now() == old(Now())
    {
      hide SettleWith, ResolveOpId, RemoveRun, Measured, Opens;
      ResolveExactly(counter, o);
      var resolved := ResolveOpId(counter, o);
      if resolved.Err? { return Failed(resolved.error); }
      var delta := 0;
      if run.Some? && Exists(run.value) {
        var state := ClassifyRunDir(run.value);
        match state {
          case Err(e) => return Failed(e);
          case Ok(Partial(bytes)) => delta := Delta(bytes);
          case Ok(_) =>
            var ok := RemoveRunDirectory(stop);
            if !ok { return Failed(Fault); }
        }
      }
      r := SettleLocked(RequestFor(resolved.value, delta, "aborted", at, o), true, w, write);
    }
  }
}
