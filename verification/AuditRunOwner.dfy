/** Whose run `run-commit` and `run-abort` settle, and what they leave when nothing stands in their way. */
module AuditRunOwner {
  import opened Wrappers
  import opened CapacityLedger
  import opened LedgerAdmission
  import opened RunTree
  import opened AuditRun

  // ---------------------------------------------------------------- the run's own ledger entries

  /** The target is the run's directory or lies below it. */
  ghost predicate BelowRun(target: string, runId: string) {
    exists rest: string :: target == "runs/" + runId + rest && (rest == "" || rest[0] == '/')
  }

  lemma TargetMeans(target: string, runId: string)
    ensures TargetMatchesRun(target, runId) <==> BelowRun(target, runId)
  {
    var dir := "runs/" + runId;
    if target == dir { assert target == dir + ""; }
    if StartsWith(target, dir + "/") {
      var rest := target[|dir|..];
      assert target == dir + rest && rest[0] == target[|dir|];
    }
    forall rest: string | target == dir + rest && (rest == "" || rest[0] == '/')
      ensures TargetMatchesRun(target, runId)
    {
      if rest != "" { assert target[..|dir| + 1] == dir + "/"; }
    }
  }

  /** A fenced reservation of the run, and a fenced tomb of it. */
  ghost predicate Own(r: Reservation, runId: string) {
    r.kind == Run && r.ownerFenced == Some(true) && BelowRun(r.target, runId)
  }

  predicate OwnTomb(t: Tomb, runId: string) { t.ownerFenced == Some(true) && t.runId == Some(runId) }

  ghost predicate FirstOwn(c: Counter, runId: string, k: nat) {
    k < |c.reservations| && Own(c.reservations[k], runId) && forall i: nat | i < k :: !Own(c.reservations[i], runId)
  }

  /** The run has no reservation left; this is its first tomb. */
  ghost predicate FirstOwnTomb(c: Counter, runId: string, k: nat) {
    && (forall r | r in c.reservations :: !Own(r, runId))
    && k < |c.settled| && OwnTomb(c.settled[k], runId) && forall i: nat | i < k :: !OwnTomb(c.settled[i], runId)
  }

  /**
   The capability hash opens `opId`: it is the one on the run's reservation, or on its tomb once the reservation is
   gone.
   */
  ghost predicate Opens(c: Counter, o: Owner, opId: string) {
    || (exists k: nat :: FirstOwn(c, o.runId, k) &&
                         c.reservations[k].payload == o.capHash && c.reservations[k].opId == opId)
    || (exists k: nat :: FirstOwnTomb(c, o.runId, k) &&
                         c.settled[k].capHash == Some(o.capHash) && c.settled[k].opId == opId)
  }

  lemma {:induction false} FindRunFirst(rs: seq<Reservation>, runId: string)
    ensures forall i: nat | i < FindRun(rs, runId) :: !IsRunOf(rs[i], runId)
  {
    hide IsRunOf;
    if rs != [] && !IsRunOf(rs[0], runId) {
      FindRunFirst(rs[1..], runId);
      forall i: nat | i < FindRun(rs, runId) ensures !IsRunOf(rs[i], runId) {
        if i > 0 { assert rs[i] == rs[1..][i - 1]; }
      }
    }
  }

  lemma {:induction false} FindRunTombFirst(ts: seq<Tomb>, runId: string)
    ensures forall i: nat | i < FindRunTomb(ts, runId) :: !IsTombOf(ts[i], runId)
  {
    if ts != [] && !IsTombOf(ts[0], runId) {
      FindRunTombFirst(ts[1..], runId);
      forall i: nat | i < FindRunTomb(ts, runId) ensures !IsTombOf(ts[i], runId) {
        if i > 0 { assert ts[i] == ts[1..][i - 1]; }
      }
    }
  }

  /** `resolve_op_id` answers the one operation the capability opens, and refuses when there is none. */
  lemma ResolveExactly(c: Counter, o: Owner)
    ensures !Wellformed(c) ==> ResolveOpId(c, o) == Err(CounterInvalid)
    ensures Wellformed(c) ==> forall opId :: ResolveOpId(c, o) == Ok(opId) <==> Opens(c, o, opId)
    ensures Wellformed(c) && ResolveOpId(c, o).Err? ==> ResolveOpId(c, o).error == Rejected
  {
    hide Wellformed, TargetMatchesRun, BelowRun, FindRun, FindRunTomb;
    var k, t := FindRun(c.reservations, o.runId), FindRunTomb(c.settled, o.runId);
    FindRunFirst(c.reservations, o.runId);
    FindRunTombFirst(c.settled, o.runId);
    forall r: Reservation ensures IsRunOf(r, o.runId) <==> Own(r, o.runId) { TargetMeans(r.target, o.runId); }
    if k < |c.reservations| {
      assert FirstOwn(c, o.runId, k) && c.reservations[k] in c.reservations;
    } else {
      assert forall r | r in c.reservations :: !Own(r, o.runId);
      if t < |c.settled| { assert FirstOwnTomb(c, o.runId, t); }
    }
  }

  // ---------------------------------------------------------------- strangers are refused

  /** A capability that opens nothing: the command fails, and directory and ledger stay as they were. */
  lemma StrangerRefused(s: State, o: Owner, c: Command)
    requires !Wellformed(s.counter) || forall opId :: !Opens(s.counter, o, opId)
    ensures Exec(s, o, c) == Step(s, Failed(if Wellformed(s.counter) then Rejected else CounterInvalid))
  {
    hide Wellformed, ResolveOpId, Opens, Measured, SettleWith, RemoveRun;
    ResolveExactly(s.counter, o);
  }

  /** A different hash than the one on the run's reservation is a stranger's, whatever tombs there are. */
  lemma WrongHash(c: Counter, o: Owner, k: nat)
    requires FirstOwn(c, o.runId, k) && c.reservations[k].payload != o.capHash
    ensures forall opId :: !Opens(c, o, opId)
  {
    hide Own, OwnTomb;
    assert c.reservations[k] in c.reservations;
  }

  lemma WrongTombHash(c: Counter, o: Owner, k: nat)
    requires FirstOwnTomb(c, o.runId, k) && c.settled[k].capHash != Some(o.capHash)
    ensures forall opId :: !Opens(c, o, opId)
  {
    hide Own, OwnTomb;
    assert forall j: nat | j < |c.reservations| :: c.reservations[j] in c.reservations;
  }

  // ---------------------------------------------------------------- the operation settled is the run's own

  /** What a settling call may do: nothing, or record `rq.opId`. */
  lemma SettleOwn(s: State, rq: SettleRequest, abort: bool, w: World, write: Write)
    ensures var x := SettleWith(s, rq, abort, w, write);
            && x.state.run == s.run
            && (x.outcome.Retried? ==>
                  x.state == s && SettledDelta(s.counter, rq.opId) == Some(x.outcome.delta))
            && (x.outcome.Settled? ==>
                  && x.outcome.delta == rq.delta && SettledDelta(s.counter, rq.opId) == None
                  && x.state.counter != s.counter)
            && (x.state.counter != s.counter ==> SettledDelta(s.counter, rq.opId) == None)
  {
    hide PushDelete, MaySettle, Wellformed, Store;
    var r := Settle(s.counter, rq, abort, w);
    if r.Ok? && r.value.Fresh? {
      SettleMoves(s.counter, rq, abort, w);
      FreshDiffers(s.counter, rq, abort, w);
    }
  }

  lemma FreshDiffers(c: Counter, rq: SettleRequest, abort: bool, w: World)
    requires Settle(c, rq, abort, w).Ok? && Settle(c, rq, abort, w).value.Fresh?
    ensures |Settle(c, rq, abort, w).value.counter.reservations| == |c.reservations| - 1
  {
    hide PushDelete, MaySettle, Wellformed;
  }

  /**
   Whatever a command settles or repeats is the operation the capability opens: a ledger it changes had no settlement
   for that operation, and a retry reports what is recorded for it.
   */
  lemma OwnOperation(s: State, o: Owner, c: Command)
    ensures var x := Exec(s, o, c);
            && (x.state.counter != s.counter ==>
                  exists opId :: Opens(s.counter, o, opId) && SettledDelta(s.counter, opId) == None)
            && (x.outcome.Settled? ==> x.state.counter != s.counter)
            && (x.outcome.Retried? ==>
                  && x.state.counter == s.counter
                  && exists opId :: Opens(s.counter, o, opId) &&
                                    SettledDelta(s.counter, opId) == Some(x.outcome.delta))
  {
    hide Wellformed, Opens, SettledDelta, SettleWith, Measured, RemoveRun, ResolveOpId, OnlyLocks;
    ResolveExactly(s.counter, o);
    var r := ResolveOpId(s.counter, o);
    if r.Ok? {
      match c
      case Commit(w, at, write) =>
        if s.run.Some? && Measured(s.run.value).Ok? {
          SettleOwn(s, RequestFor(r.value, Delta(Measured(s.run.value).value), "committed", at, o), false, w, write);
        }
      case Abort(w, at, write, stop) =>
        SettleOwn(s, RequestFor(r.value, 0, "aborted", at, o), true, w, write);
        if s.run.Some? && Exists(s.run.value) && IsDir(s.run.value) {
          var n := s.run.value;
          SettleOwn(s.(run := RemoveRun(n, stop).run), RequestFor(r.value, 0, "aborted", at, o), true, w, write);
          if Measured(n).Ok? {
            SettleOwn(s, RequestFor(r.value, Delta(Measured(n).value), "aborted", at, o), true, w, write);
          }
        }
    }
  }

  // ---------------------------------------------------------------- nothing stands in the way

  /** The owner's run is reserved at `k` under an operation id of its own, as `run-init` leaves it. */
  ghost predicate Ready(c: Counter, o: Owner, k: nat) {
    && Wellformed(c) && FirstOwn(c, o.runId, k)
    && var r := c.reservations[k];
       && r.payload == o.capHash && r.action == Create && IsDigest(o.capHash) && ValidRunId(o.runId) && o.runId != ""
       && (forall i: nat | i < k :: c.reservations[i].opId != r.opId)
       && (forall t | t in c.settled :: t.opId != r.opId) && (forall t | t in c.deleteSettled :: t.opId != r.opId)
  }

  /** The tomb of a settled run. */
  function RunTomb(r: Reservation, o: Owner, delta: int, finalState: string, at: string): Tomb {
    Tomb(r.opId, Run, Create, delta, finalState, at, Some(true), Some(o.runId), Some(o.capHash))
  }

  /** The ledger with reservation `k` paid: its bytes released, `delta` added to the total, and the tomb left. */
  function Paid(c: Counter, k: nat, t: Tomb): Counter
    requires k < |c.reservations| && c.totalBytes + t.delta >= 0
  {
    Counter(c.totalBytes + t.delta, SaturatingSub(c.reservedBytes, c.reservations[k].maxBytes),
            c.reservations[..k] + c.reservations[k + 1..], c.settled + [t], c.deleteSettled)
  }

  /** The tomb list, the 64-bit total and the ledger file have room for the settlement. */
  ghost predicate Room(c: Counter, k: nat, t: Tomb, w: World)
    requires k < |c.reservations|
  {
    && 0 <= c.totalBytes + t.delta <= 0xFFFF_FFFF_FFFF_FFFF && |c.settled| < 64
    && w.size(Paid(c, k, t)) <= 40 * 1024
  }

  /** The run's reservation is outstanding, and paying it is settling it. */
  lemma ReadyOutstands(c: Counter, o: Owner, k: nat, delta: int, finalState: string, at: string)
    requires Ready(c, o, k) && 0 <= c.totalBytes + delta
    ensures var r := c.reservations[k]; var rq := RequestFor(r.opId, delta, finalState, at, o);
            && Outstands(c, r.opId, k) && Authorized(r, rq)
            && SettledLedger(c, k, rq, finalState) == Paid(c, k, RunTomb(r, o, delta, finalState, at))
  {
    hide IsDigest, ValidRunId, Wellformed, BelowRun, TargetMatchesRun, PushDelete;
    TargetMeans(c.reservations[k].target, o.runId);
  }

  lemma PaidWellformed(c: Counter, o: Owner, k: nat, t: Tomb)
    requires Ready(c, o, k) && t == RunTomb(c.reservations[k], o, t.delta, t.finalState, t.settledAt)
    requires 0 <= c.totalBytes + t.delta <= U64_MAX && |c.settled| < MAX_SETTLED
    ensures Wellformed(Paid(c, k, t))
  {
    hide IsDigest, ValidRunId, Wellformed, Own, Authorized, Outstands;
    ReadyOutstands(c, o, k, t.delta, t.finalState, t.settledAt);
    SettledWellformed(c, k, RequestFor(t.opId, t.delta, t.finalState, t.settledAt, o), t.finalState);
  }

  /** With room and a completed write the settlement is recorded. */
  lemma SettleLives(s: State, o: Owner, k: nat, delta: int, finalState: string, at: string, abort: bool, w: World)
    requires Ready(s.counter, o, k) && finalState != ""
    requires var t := RunTomb(s.counter.reservations[k], o, delta, finalState, at); Room(s.counter, k, t, w)
    ensures var r := s.counter.reservations[k];
            SettleWith(s, RequestFor(r.opId, delta, finalState, at, o), abort, w, Written) ==
            Step(s.(counter := Paid(s.counter, k, RunTomb(r, o, delta, finalState, at))), Settled(delta))
  {
    hide IsDigest, ValidRunId, Wellformed, Own, Authorized, Outstands, Settle;
    var rq := RequestFor(s.counter.reservations[k].opId, delta, finalState, at, o);
    ReadyOutstands(s.counter, o, k, delta, finalState, at);
    SettleExactly(s.counter, rq, abort, w, k);
  }

  lemma ReadyOpens(c: Counter, o: Owner, k: nat)
    requires Ready(c, o, k)
    ensures ResolveOpId(c, o) == Ok(c.reservations[k].opId)
  {
    hide ResolveOpId, Wellformed, IsDigest, ValidRunId, Own;
    ResolveExactly(c, o);
    assert Opens(c, o, c.reservations[k].opId);
  }

  /** `run-commit` on a reserved run whose tree holds no link: the bytes of its regular files are charged. */
  lemma CommitSettles(s: State, o: Owner, k: nat, w: World, at: string)
    requires Ready(s.counter, o, k) && s.run.Some? && !HasLink(s.run.value) && Bytes(s.run.value) <= I64_MAX
    requires var t := RunTomb(s.counter.reservations[k], o, Bytes(s.run.value), "committed", at);
             Room(s.counter, k, t, w)
    ensures var bytes := Bytes(s.run.value);
            Exec(s, o, Commit(w, at, Written)) ==
            Step(State(s.run, Paid(s.counter, k, RunTomb(s.counter.reservations[k], o, bytes, "committed", at))),
                 Settled(bytes))
  {
    hide SettleWith, ResolveOpId, Ready, Paid, Room;
    ReadyOpens(s.counter, o, k);
    SettleLives(s, o, k, Bytes(s.run.value), "committed", at, false, w);
  }

  /** What an abort charges and leaves of the directory when it gets through. */
  ghost predicate Aborts(run: Option<Node>, delta: int, left: Option<Node>) {
    if run == None || !Exists(run.value) then
      // nothing there: nothing charged
      delta == 0 && left == run
    else if run.value.Dir? && OnlyLocks(run.value.entries) then
      // the locks and the directory are removed
      && delta == 0 && left == None && Distinct(run.value.entries)
      && forall e | e in run.value.entries :: e.node.File?
    else
      // a partial run stays, and its bytes are charged
      && IsDir(run.value) && !HasLink(run.value) && delta == Bytes(run.value) <= I64_MAX && left == run
  }

  lemma AbortSettles(s: State, o: Owner, k: nat, w: World, at: string, stop: nat, delta: int, left: Option<Node>)
    requires Ready(s.counter, o, k) && Aborts(s.run, delta, left) && stop > 3
    requires var t := RunTomb(s.counter.reservations[k], o, delta, "aborted", at); Room(s.counter, k, t, w)
    ensures Exec(s, o, Abort(w, at, Written, stop)) ==
            Step(State(left, Paid(s.counter, k, RunTomb(s.counter.reservations[k], o, delta, "aborted", at))),
                 Settled(delta))
  {
    hide SettleWith, ResolveOpId, Ready, Paid, Room, RemoveRun, Distinct;
    ReadyOpens(s.counter, o, k);
    SettleLives(s.(run := left), o, k, delta, "aborted", at, true, w);
    if s.run.Some? && s.run.value.Dir? && OnlyLocks(s.run.value.entries) { LocksRemoved(s.run.value, stop); }
  }

  /** A directory of nothing but lock files goes. */
  lemma LocksRemoved(n: Node, stop: nat)
    requires n.Dir? && OnlyLocks(n.entries) && Distinct(n.entries) && stop > 3
    requires forall e | e in n.entries :: e.node.File?
    ensures RemoveRun(n, stop) == Cleared(None, true)
  {
    hide RemoveLocks, FindEntry, Without, Distinct, Unlisted;
    OneLockGone(n, LOCKS, stop);
    assert LOCKS[1..] == [EVIDENCE_LOCK] && [EVIDENCE_LOCK][1..] == [];
    var n1 := Dir(Unlisted(n.entries, LEASE_LOCK));
    UnlistedEntries(n.entries, LEASE_LOCK);
    OneLockGone(n1, [EVIDENCE_LOCK], stop - 1);
    UnlistedEntries(n1.entries, EVIDENCE_LOCK);
    var n2 := Dir(Unlisted(n1.entries, EVIDENCE_LOCK));
    NoneLeft(n2, stop - 2);
    assert forall e | e in n2.entries :: e.name in LOCKS && e.name != LEASE_LOCK && e.name != EVIDENCE_LOCK;
    FirstListed(n2.entries);
  }

  lemma FirstListed(es: seq<Entry>)
    ensures es != [] ==> es[0] in es
  {
  }

  lemma NoneLeft(n: Node, stop: nat)
    requires n.Dir?
    ensures RemoveLocks(n, [], stop) == Removal(n, true)
  {
  }

  /** The listing without a name, if it has it. */
  function Unlisted(es: seq<Entry>, name: string): seq<Entry> {
    var k := FindEntry(es, name);
    if k < |es| then Without(es, k) else es
  }

  lemma UnlistedEntries(es: seq<Entry>, name: string)
    requires Distinct(es)
    ensures Distinct(Unlisted(es, name))
    ensures forall e | e in Unlisted(es, name) :: e in es && e.name != name
  {
    var k := FindEntry(es, name);
    if k < |es| { WithoutDistinct(es, k); }
  }

  lemma OneLockGone(n: Node, names: seq<string>, stop: nat)
    requires n.Dir? && names != [] && stop > 0 && forall e | e in n.entries :: e.node.File?
    ensures RemoveLocks(n, names, stop) == RemoveLocks(Dir(Unlisted(n.entries, names[0])), names[1..], stop - 1)
  {
    var k := FindEntry(n.entries, names[0]);
    if k < |n.entries| { assert n.entries[k] in n.entries; }
  }

  // ---------------------------------------------------------------- from reservation to repetition

  /** A run reserved under its own directory is ready to be settled. */
  lemma ReserveReady(c: Counter, p: Producer, rq: ReserveRequest, w: World, runId: string)
    requires Reserve(c, p, rq, w).Ok? && MappingFor(p).kind == Run && rq.ownerFenced == Some(true)
    requires rq.target == "runs/" + runId && ValidRunId(runId) && runId != ""
    requires forall r | r in c.reservations :: !Own(r, runId)
    ensures var c' := Reserve(c, p, rq, w).value; Ready(c', Owner(runId, rq.payload), |c'.reservations| - 1)
  {
    hide Wellformed, Admits, IsDigest, ValidRunId, BelowRun, Kept, FreshTombs, Released;
    var live, c' := Reclaimed(c, w), Reserve(c, p, rq, w).value;
    KeptSubset(c.reservations, w);
    var k := |c'.reservations| - 1;
    assert c'.reservations == live.reservations + [ReservationOf(MappingFor(p), rq)];
    TargetMeans(rq.target, runId);
    forall i: nat | i < k ensures !Own(c'.reservations[i], runId) && c'.reservations[i].opId != rq.opId {
      assert c'.reservations[i] == live.reservations[i] && live.reservations[i] in live.reservations;
    }
    assert Own(c'.reservations[k], runId);
  }

  /** Once settled, the run resolves to its tomb, and a repeated commit reports the recorded delta. */
  lemma RepeatReports(run: Option<Node>, c: Counter, o: Owner, k: nat, t: Tomb, w: World, at: string, write: Write)
    requires Ready(c, o, k) && t == RunTomb(c.reservations[k], o, t.delta, t.finalState, t.settledAt)
    requires 0 <= c.totalBytes + t.delta <= U64_MAX && |c.settled| < MAX_SETTLED
    requires forall i: nat | i < |c.reservations| && i != k :: !Own(c.reservations[i], o.runId)
    requires forall x | x in c.settled :: !OwnTomb(x, o.runId)
    ensures var s := State(run, Paid(c, k, t));
            && IsSettled(s, o, t.opId) && SettledDelta(s.counter, t.opId) == Some(t.delta)
            && (run.Some? && !HasLink(run.value) ==> Exec(s, o, Commit(w, at, write)) == Step(s, Retried(t.delta)))
  {
    hide Wellformed, IsDigest, ValidRunId, Own, ResolveOpId, HasLink, Bytes;
    var c' := Paid(c, k, t);
    PaidWellformed(c, o, k, t);
    ResolveExactly(c', o);
    PaidTomb(c, o, k, t);
    assert Opens(c', o, t.opId);
  }

  lemma PaidTomb(c: Counter, o: Owner, k: nat, t: Tomb)
    requires Ready(c, o, k) && t == RunTomb(c.reservations[k], o, t.delta, t.finalState, t.settledAt)
    requires c.totalBytes + t.delta >= 0
    requires forall i: nat | i < |c.reservations| && i != k :: !Own(c.reservations[i], o.runId)
    requires forall x | x in c.settled :: !OwnTomb(x, o.runId)
    ensures FirstOwnTomb(Paid(c, k, t), o.runId, |c.settled|)
    ensures FindTomb(Paid(c, k, t).settled, t.opId) == |c.settled|
    ensures FindDelete(c.deleteSettled, t.opId) == |c.deleteSettled|
  {
    hide Wellformed, IsDigest, ValidRunId, Own;
    var c' := Paid(c, k, t);
    assert c'.settled[|c.settled|] == t && forall i: nat | i < |c.settled| :: c'.settled[i] in c.settled;
    forall r | r in c'.reservations ensures !Own(r, o.runId) {
      var i: nat :| i < |c'.reservations| && c'.reservations[i] == r;
      assert r == c.reservations[if i < k then i else i + 1];
    }
  }
}
