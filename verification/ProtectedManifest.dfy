/** `protect` and `unprotect`: the manifest they write and the bytes they settle. */
module ProtectedManifest {
  import opened Wrappers
  import opened CapacityLedger
  import opened Utf8
  import opened ManifestText

  const TARGET := "baselines/protected.json"

  datatype Op = Add | Drop

  datatype State = State(manifest: Option<string>, counter: Counter)

  /** A command, its fresh operation id, the clock, and what its three writes did. */
  datatype Command = Command(
    op: Op, digest: string, opId: string, at: string, w: World, reserve: Write, replace: Write, settle: Write)

  datatype Outcome = Unchanged | Done(delta: int) | Failed(error: Error)

  datatype Step = Step(state: State, outcome: Outcome)

  function Length(m: Option<string>): nat { if m == None then 0 else |m.value| }

  function ProducerOf(op: Op): Producer { if op == Add then ProtectDigest else UnprotectDigest }

  /** The set the command writes, or why it writes none. */
  function Edited(s: seq<string>, op: Op, d: string): Result<Option<seq<string>>, Error> {
    match op
    case Add =>
      if d in s then Ok(None)
      else if |s| >= PROTECTED_LIMIT then Err(Rejected)
      else Ok(Some(Insert(s, d)))
    case Drop => if d in s then Ok(Some(Remove(s, d))) else Ok(None)
  }

  function ReportedCount(edited: seq<string>, op: Op): nat {
    match op
    case Add => SaturatingSub(|edited|, 1)
    case Drop => |edited| + 1
  }

  function ReserveFor(c: Command, edited: seq<string>): ReserveRequest {
    ReserveRequest(c.opId, TARGET, c.digest, None, c.at, 0, ReportedCount(edited, c.op), 0)
  }

  function SettleFor(c: Command, delta: int, finalState: string): SettleRequest {
    SettleRequest(c.opId, delta, finalState, c.at, None, None)
  }

  function FinalState(op: Op): string { if op == Add then "digest present" else "digest absent" }

  /** `signed_length_delta`. */
  function SignedDelta(before: nat, after: nat): Option<int> {
    if before <= I64_MAX && after <= I64_MAX then Some(after - before) else None
  }

  /** A settlement and its write; the ledger file only changes if the write lands. */
  function Settling(counter: Counter, rq: SettleRequest, abort: bool, w: World, write: Write): Result<Counter, Error> {
    match Settle(counter, rq, abort, w)
    case Err(e) => Err(e)
    case Ok(Retry(_, _)) => Ok(counter)
    case Ok(Fresh(c, _, _)) => if write.Lands() then Ok(c) else Err(Fault)
  }

  /** After a successful reservation: replace the file, then settle. */
  function ReplaceAndSettle(s: State, c: Command, edited: seq<string>): Step {
    var after := EncodeText(edited);
    var delta := SignedDelta(Length(s.manifest), |after|);
    var s' := if c.replace.Lands() then s.(manifest := Some(after)) else s;
    if c.replace != Written then
      var settled := Settling(s.counter, SettleFor(c, 0, "aborted"), true, c.w, c.settle);
      Step(if settled.Ok? then s'.(counter := settled.value) else s', Failed(Fault))
    else if delta == None then Step(s', Failed(Rejected))
    else
      match Settling(s.counter, SettleFor(c, delta.value, FinalState(c.op)), false, c.w, c.settle)
      case Err(e) => Step(s', Failed(e))
      case Ok(counter) =>
        Step(s'.(counter := counter), if c.settle == Unsynced then Failed(Fault) else Done(delta.value))
  }

  /** `mutate_manifest`. */
  function Mutate(reader: string -> Option<Manifest>, s: State, c: Command): Step {
    if !IsDigest(c.digest) then Step(s, Failed(Rejected))
    else
      match LoadSet(reader, s.manifest)
      case Err(e) => Step(s, Failed(e))
      case Ok(digests) =>
        match Edited(digests, c.op, c.digest)
        case Err(e) => Step(s, Failed(e))
        case Ok(None) => Step(s, Unchanged)
        case Ok(Some(edited)) =>
          match Reserve(s.counter, ProducerOf(c.op), ReserveFor(c, edited), c.w)
          case Err(e) => Step(s, Failed(e))
          case Ok(counter) =>
            var s' := if c.reserve.Lands() then s.(counter := counter) else s;
            if c.reserve != Written then Step(s', Failed(Fault)) else ReplaceAndSettle(s', c, edited)
  }

  function After(reader: string -> Option<Manifest>, s: State, cs: seq<Command>): State {
    if cs == [] then s else Mutate(reader, After(reader, s, cs[..|cs| - 1]), cs[|cs| - 1]).state
  }

  // ---------------------------------------------------------------- the manifest stays in order

  /** A listing the program may have written. */
  predicate Proper(ds: seq<string>) { AllDigests(ds) && Ascending(ds) && |ds| <= PROTECTED_LIMIT }

  /** The manifest is absent, or is the text of exactly these digests. */
  predicate Holds(m: Option<string>, ds: seq<string>) {
    Proper(ds) && (if m == None then ds == [] else m == Some(EncodeText(ds)))
  }

  ghost predicate InOrder(m: Option<string>) { exists ds: seq<string> :: Holds(m, ds) }

  lemma LoadHolds(reader: string -> Option<Manifest>, m: Option<string>, ds: seq<string>)
    requires ReadsBack(reader) && Holds(m, ds)
    ensures LoadSet(reader, m) == Ok(ds)
  {
    if m.Some? { CollectedSorted(ds); }
  }

  /** Editing keeps the set proper, changes exactly the one digest and moves the count by one. */
  lemma EditedProper(ds: seq<string>, op: Op, d: string)
    requires Proper(ds) && IsDigest(d) && Edited(ds, op, d).Ok? && Edited(ds, op, d).value.Some?
    ensures var edited := Edited(ds, op, d).value.value;
            && Proper(edited)
            && (forall x :: x in edited <==> if x == d then op == Add else x in ds)
            && |edited| == (if op == Add then |ds| + 1 else |ds| - 1)
            && ReportedCount(edited, op) == |ds|
  {
    hide IsDigest, StringLess, Insert, Remove;
    InsertAdds(ds, d);
    RemoveTakes(ds, d);
  }

  /** The two lengths around an edit differ, and both are small. */
  lemma EditedLength(m: Option<string>, ds: seq<string>, op: Op, d: string)
    requires Holds(m, ds) && IsDigest(d) && Edited(ds, op, d).Ok? && Edited(ds, op, d).value.Some?
    ensures var after := |EncodeText(Edited(ds, op, d).value.value)|;
            after != Length(m) && after <= 2000 && Length(m) <= 2000 && (op == Drop ==> after < Length(m))
  {
    hide IsDigest, StringLess, Insert, Remove, EncodeText, Edited;
    EditedProper(ds, op, d);
    EncodedLength(Edited(ds, op, d).value.value);
    EncodedLength(ds);
    if op == Drop { DroppedWasListed(ds, d); }
  }

  lemma DroppedWasListed(ds: seq<string>, d: string)
    requires Edited(ds, Drop, d).Ok? && Edited(ds, Drop, d).value.Some?
    ensures ds != []
  {
  }

  // ---------------------------------------------------------------- the ledger side

  lemma ReserveEffect(c: Counter, p: Producer, rq: ReserveRequest, w: World)
    requires Reserve(c, p, rq, w).Ok?
    ensures var m, live, c' := MappingFor(p), Reclaimed(c, w), Reserve(c, p, rq, w).value;
            && Wellformed(live) && Wellformed(c') && !OpIdUsed(live, rq.opId) && Admits(p, live, rq, w.size(live))
            && c'.totalBytes == c.totalBytes == live.totalBytes
            && c'.reservations == live.reservations + [ReservationOf(m, rq)]
            && c'.settled == live.settled && c'.deleteSettled == live.deleteSettled
  {
    hide Admits, OpIdUsed, Reclaimed, Wellformed;
    ReclaimedWellformed(c, w);
    ReclaimedTotal(c, w);
  }

  lemma ReclaimedTotal(c: Counter, w: World)
    ensures Reclaimed(c, w).totalBytes == c.totalBytes
  {
  }

  lemma FreshLookups(live: Counter, c: Counter, r: Reservation)
    requires !OpIdUsed(live, r.opId)
    requires c.reservations == live.reservations + [r]
    requires c.settled == live.settled && c.deleteSettled == live.deleteSettled
    ensures FindDelete(c.deleteSettled, r.opId) == |c.deleteSettled|
    ensures FindTomb(c.settled, r.opId) == |c.settled|
    ensures FindReservation(c.reservations, r.opId) == |live.reservations|
  {
    assert forall d | d in c.deleteSettled :: d.opId != r.opId;
    assert forall t | t in c.settled :: t.opId != r.opId;
    assert forall x | x in live.reservations :: x.opId != r.opId;
    assert forall i :: 0 <= i < |live.reservations| ==> c.reservations[i] == live.reservations[i];
    assert c.reservations[|live.reservations|] == r;
  }

  /** The counter a settlement of a protect-family reservation would store. */
  function Paid(c: Counter, k: nat, r: Reservation, rq: SettleRequest): Counter
    requires k < |c.reservations| && 0 <= c.totalBytes + rq.delta
  {
    var paid := c.(totalBytes := c.totalBytes + rq.delta,
                   reservedBytes := SaturatingSub(c.reservedBytes, r.maxBytes),
                   reservations := c.reservations[..k] + c.reservations[k + 1..]);
    if r.action == Delete then
      paid.(deleteSettled := PushDelete(c.deleteSettled, DeleteTomb(r.opId, rq.delta, rq.finalState, rq.settledAt)))
    else paid.(settled := c.settled + [TombOf(r, rq, rq.finalState)])
  }

  lemma PaidWellformed(live: Counter, c: Counter, r: Reservation, rq: SettleRequest)
    requires Wellformed(live) && Wellformed(c) && c.reservations == live.reservations + [r]
    requires c.settled == live.settled && c.deleteSettled == live.deleteSettled
    requires r.kind == Protect && r.ownerFenced == None && 0 <= c.totalBytes + rq.delta <= U64_MAX
    requires r.action == Create ==> |c.settled| < MAX_SETTLED
    ensures Wellformed(Paid(c, |live.reservations|, r, rq))
  {
    hide IsDigest, CreateCount, SortTombs;
    var paid := Paid(c, |live.reservations|, r, rq);
    assert paid.reservations == live.reservations;
    if r.action == Create {
      forall t | t in paid.settled ensures TombShape(t) {
        if t in c.settled { assert t in live.settled; } else { assert t == TombOf(r, rq, rq.finalState); }
      }
    }
  }

  lemma SettleIsPaid(c: Counter, k: nat, rq: SettleRequest, abort: bool, w: World)
    requires Wellformed(c) && k < |c.reservations| && FindReservation(c.reservations, rq.opId) == k
    requires FindDelete(c.deleteSettled, rq.opId) == |c.deleteSettled| && FindTomb(c.settled, rq.opId) == |c.settled|
    requires c.reservations[k].kind == Protect && rq.finalState != ""
    requires 0 <= c.totalBytes + rq.delta <= U64_MAX
    requires c.reservations[k].action == Create ==> |c.settled| < MAX_SETTLED
    requires Wellformed(Paid(c, k, c.reservations[k], rq))
    ensures Settle(c, rq, abort, w) ==
            match Store(Paid(c, k, c.reservations[k], rq), c.reservations[k].action == Create, w)
            case Ok(stored) => Ok(Fresh(stored, rq.delta, rq.finalState))
            case Err(e) => Err(e)
  {
    hide Wellformed, PushDelete, TombOf, Store;
  }

  /** The counter that settling the latest reservation would store is over its size ceiling. */
  predicate NoRoom(c: Counter, rq: SettleRequest, w: World) {
    var rs := c.reservations;
    && rs != [] && 0 <= c.totalBytes + rq.delta
    && w.size(Paid(c, |rs| - 1, rs[|rs| - 1], rq)) >
         (if rs[|rs| - 1].action == Create then MAX_COUNTERS_BYTES_FOR_CREATE else MAX_COUNTERS_BYTES)
  }

  /**
   * A reservation of this command can always be settled within the total's range: the ledger refuses exactly
   * when the counter it would store is over the size ceiling.
   */
  lemma SettlementAccepted(
      counter: Counter, p: Producer, rq: ReserveRequest, srq: SettleRequest, abort: bool, w: World)
    requires Reserve(counter, p, rq, w).Ok? && MappingFor(p).kind == Protect && rq.ownerFenced == None
    requires srq.opId == rq.opId && srq.finalState != "" && 0 <= counter.totalBytes + srq.delta <= U64_MAX
    ensures var r := Settle(Reserve(counter, p, rq, w).value, srq, abort, w);
            if NoRoom(Reserve(counter, p, rq, w).value, srq, w) then r == Err(CounterTooLarge)
            else r.Ok? && r.value.Fresh? && r.value.counter.totalBytes == counter.totalBytes + srq.delta
  {
    hide OpIdUsed, Wellformed, Reserve, Reclaimed, Settle, CreateCount, PushDelete;
    var c, live := Reserve(counter, p, rq, w).value, Reclaimed(counter, w);
    var r := ReservationOf(MappingFor(p), rq);
    ReserveEffect(counter, p, rq, w);
    FreshLookups(live, c, r);
    assert c.reservations[|live.reservations|] == r;
    PaidWellformed(live, c, r, srq);
    SettleIsPaid(c, |live.reservations|, srq, abort, w);
  }

  /** Admission bounds the total of every protect reservation. */
  lemma AdmittedTotal(counter: Counter, p: Producer, rq: ReserveRequest, w: World)
    requires Reserve(counter, p, rq, w).Ok? && MappingFor(p).action == Create
    ensures counter.totalBytes <= PEAK_CAPACITY
  {
    hide OpIdUsed, Wellformed, Reserve, Reclaimed, CreateCount;
    ReserveEffect(counter, p, rq, w);
  }

  // ---------------------------------------------------------------- every command

  /** What a command that gets as far as replacing the file has decided and reserved. */
  datatype Plan = Plan(edited: seq<string>, reserved: Counter)

  function Planned(reader: string -> Option<Manifest>, s: State, c: Command): Option<Plan> {
    if !IsDigest(c.digest) || c.reserve != Written then None
    else
      match LoadSet(reader, s.manifest)
      case Err(_) => None
      case Ok(digests) =>
        match Edited(digests, c.op, c.digest)
        case Err(_) => None
        case Ok(None) => None
        case Ok(Some(edited)) =>
          match Reserve(s.counter, ProducerOf(c.op), ReserveFor(c, edited), c.w)
          case Err(_) => None
          case Ok(counter) => Some(Plan(edited, counter))
  }

  function CommitRequest(s: State, c: Command, plan: Plan): SettleRequest {
    SettleFor(c, |EncodeText(plan.edited)| - Length(s.manifest), FinalState(c.op))
  }

  /** The new file is in place and its settlement is not: an fsync error, a lost ledger write, or no ledger room. */
  predicate Slips(reader: string -> Option<Manifest>, s: State, c: Command) {
    var plan := Planned(reader, s, c);
    && plan.Some? && c.replace.Lands()
    && (|| c.replace == Unsynced
        || !c.settle.Lands()
        || NoRoom(plan.value.reserved, CommitRequest(s, c, plan.value), c.w))
  }

  lemma MutatePlanned(reader: string -> Option<Manifest>, s: State, c: Command)
    ensures var plan := Planned(reader, s, c);
            if plan.Some? then
              Mutate(reader, s, c) == ReplaceAndSettle(State(s.manifest, plan.value.reserved), c, plan.value.edited)
            else
              && Mutate(reader, s, c).state.manifest == s.manifest
              && Mutate(reader, s, c).state.counter.totalBytes == s.counter.totalBytes
  {
    hide IsDigest, LoadSet, Edited, Reserve, ReplaceAndSettle;
    var plan := Planned(reader, s, c);
    if plan == None && IsDigest(c.digest) && LoadSet(reader, s.manifest).Ok? {
      var edit := Edited(LoadSet(reader, s.manifest).value, c.op, c.digest);
      if edit.Ok? && edit.value.Some? {
        var rq := ReserveFor(c, edit.value.value);
        if Reserve(s.counter, ProducerOf(c.op), rq, c.w).Ok? { ReserveEffect(s.counter, ProducerOf(c.op), rq, c.w); }
      }
    }
  }

  /** What a plan's parts are, from the listing the manifest holds. */
  lemma PlanParts(reader: string -> Option<Manifest>, s: State, c: Command, ds: seq<string>)
    requires ReadsBack(reader) && Holds(s.manifest, ds) && Planned(reader, s, c).Some?
    ensures var plan := Planned(reader, s, c).value;
            && IsDigest(c.digest) && Edited(ds, c.op, c.digest) == Ok(Some(plan.edited))
            && Reserve(s.counter, ProducerOf(c.op), ReserveFor(c, plan.edited), c.w) == Ok(plan.reserved)
  {
    hide IsDigest, LoadSet, Edited, Reserve, ReadsBack, Holds;
    LoadHolds(reader, s.manifest, ds);
  }

  /** The count the command reports to admission, if it gets that far, whatever admission and the writes then do. */
  function Reported(reader: string -> Option<Manifest>, s: State, c: Command): Option<nat> {
    if !IsDigest(c.digest) then None
    else
      match LoadSet(reader, s.manifest)
      case Err(_) => None
      case Ok(digests) =>
        match Edited(digests, c.op, c.digest)
        case Ok(Some(edited)) => Some(ReserveFor(c, edited).protectedCount)
        case _ => None
  }

  lemma ReportedSize(reader: string -> Option<Manifest>, s: State, c: Command, ds: seq<string>)
    requires ReadsBack(reader) && Holds(s.manifest, ds)
    ensures Reported(reader, s, c) == None || Reported(reader, s, c) == Some(|ds|)
  {
    hide IsDigest, LoadSet, Edited, ReadsBack, AllDigests, Ascending;
    LoadHolds(reader, s.manifest, ds);
    if IsDigest(c.digest) && Edited(ds, c.op, c.digest).Ok? && Edited(ds, c.op, c.digest).value.Some? {
      EditedProper(ds, c.op, c.digest);
    }
  }

  /**
   * One command, whatever its writes do: the manifest afterwards is the old one or the old one with exactly the
   * named digest added or removed, in order and within the limit, and the count reported to admission is the
   * number of digests before the operation.
   */
  lemma StepInOrder(reader: string -> Option<Manifest>, s: State, c: Command, ds: seq<string>)
    requires ReadsBack(reader) && Holds(s.manifest, ds)
    ensures var m := Mutate(reader, s, c).state.manifest; var plan := Planned(reader, s, c);
            if plan.Some? && c.replace.Lands() then
              && Holds(m, plan.value.edited)
              && (forall x :: x in plan.value.edited <==> if x == c.digest then c.op == Add else x in ds)
            else m == s.manifest
    ensures Reported(reader, s, c) == None || Reported(reader, s, c) == Some(|ds|)
  {
    hide IsDigest, Edited, Reserve, Settling, Mutate, Planned, ReadsBack, AllDigests, Ascending, Reported;
    MutatePlanned(reader, s, c);
    ReportedSize(reader, s, c, ds);
    if Planned(reader, s, c).Some? {
      PlanParts(reader, s, c, ds);
      EditedProper(ds, c.op, c.digest);
    }
  }

  /** How a plan's settlement moves the total. */
  lemma PlanSettles(reader: string -> Option<Manifest>, s: State, c: Command, ds: seq<string>)
    requires ReadsBack(reader) && Holds(s.manifest, ds) && Planned(reader, s, c).Some?
    requires s.counter.totalBytes >= Length(s.manifest)
    ensures var plan := Planned(reader, s, c).value;
            && plan.reserved.totalBytes == s.counter.totalBytes
            && var r := Settle(plan.reserved, CommitRequest(s, c, plan), false, c.w);
               if NoRoom(plan.reserved, CommitRequest(s, c, plan), c.w) then r == Err(CounterTooLarge)
               else r.Ok? && r.value.Fresh? &&
                    r.value.counter.totalBytes == s.counter.totalBytes + CommitRequest(s, c, plan).delta
    ensures var plan := Planned(reader, s, c).value;
            var r := Settle(plan.reserved, SettleFor(c, 0, "aborted"), true, c.w);
            r == Err(CounterTooLarge) || (r.Ok? && r.value.Fresh? && r.value.counter.totalBytes == s.counter.totalBytes)
  {
    hide IsDigest, Edited, Reserve, Settle, Planned, ReadsBack, EncodeText, Holds, NoRoom;
    var plan := Planned(reader, s, c).value;
    PlanParts(reader, s, c, ds);
    EditedLength(s.manifest, ds, c.op, c.digest);
    var rq, p := ReserveFor(c, plan.edited), ProducerOf(c.op);
    ReserveEffect(s.counter, p, rq, c.w);
    TotalBounded(s.counter, p, rq, c.w);
    if c.op == Add { AdmittedTotal(s.counter, p, rq, c.w); }
    SettlementAccepted(s.counter, p, rq, CommitRequest(s, c, plan), false, c.w);
    SettlementAccepted(s.counter, p, rq, SettleFor(c, 0, "aborted"), true, c.w);
  }

  lemma TotalBounded(c: Counter, p: Producer, rq: ReserveRequest, w: World)
    requires Reserve(c, p, rq, w).Ok?
    ensures c.totalBytes <= U64_MAX
  {
    hide Store, Admits, Reclaimed, OpIdUsed;
  }

  /**
   * One command keeps the ledger's total in step with the manifest's length exactly when it does not slip
   * between the file and its settlement. `base` is what everything else in the root accounts for.
   */
  lemma StepBalances(
      reader: string -> Option<Manifest>, s: State, c: Command, ds: seq<string>, base: nat)
    requires ReadsBack(reader) && Holds(s.manifest, ds) && s.counter.totalBytes == base + Length(s.manifest)
    ensures var s' := Mutate(reader, s, c).state;
            s'.counter.totalBytes == base + Length(s'.manifest) <==> !Slips(reader, s, c)
  {
    hide IsDigest, Edited, Reserve, Settle, Planned, ReadsBack, EncodeText, Holds, Mutate, NoRoom;
    MutatePlanned(reader, s, c);
    if Planned(reader, s, c).Some? {
      PlanParts(reader, s, c, ds);
      EditedLength(s.manifest, ds, c.op, c.digest);
      PlanSettles(reader, s, c, ds);
    }
  }

  /** No command of the list slips, each judged in the state it starts from. */
  predicate NoneSlips(reader: string -> Option<Manifest>, s: State, cs: seq<Command>) {
    cs == [] ||
    (&& NoneSlips(reader, s, cs[..|cs| - 1])
     && !Slips(reader, After(reader, s, cs[..|cs| - 1]), cs[|cs| - 1]))
  }

  /** What the manifest holds before a command is what the command reports, if it reports. */
  ghost predicate ReportsSize(reader: string -> Option<Manifest>, s: State, c: Command) {
    var n := Reported(reader, s, c);
    exists ds: seq<string> :: Holds(s.manifest, ds) && (n == None || n == Some(|ds|))
  }

  /**
   * From an absent manifest, over any commands and any write outcomes: the manifest is in order, and every
   * command on the way reports the number of digests it starts from.
   */
  lemma {:induction false} AlwaysInOrder(reader: string -> Option<Manifest>, counter: Counter, cs: seq<Command>)
    requires ReadsBack(reader)
    ensures InOrder(After(reader, State(None, counter), cs).manifest)
    ensures forall k: nat | k < |cs| :: ReportsSize(reader, After(reader, State(None, counter), cs[..k]), cs[k])
    decreases |cs|
  {
    hide Mutate, Planned, ReadsBack, Holds, Reported;
    if cs == [] {
      EmptyHolds();
      assert Holds(None, []);
    } else {
      var init := cs[..|cs| - 1];
      var s := After(reader, State(None, counter), init);
      var c := cs[|cs| - 1];
      AlwaysInOrder(reader, counter, init);
      var ds: seq<string> :| Holds(s.manifest, ds);
      StepInOrder(reader, s, c, ds);
      var m := Mutate(reader, s, c).state.manifest;
      if Planned(reader, s, c).Some? && c.replace.Lands() {
        assert Holds(m, Planned(reader, s, c).value.edited);
      } else {
        assert Holds(m, ds);
      }
      forall k: nat | k < |cs| ensures ReportsSize(reader, After(reader, State(None, counter), cs[..k]), cs[k]) {
        if k < |init| { assert init[k] == cs[k] && init[..k] == cs[..k]; }
      }
    }
  }

  lemma EmptyHolds()
    ensures Holds(None, [])
  {
  }

  /** As long as none slips, the settled deltas sum to the manifest's byte length. */
  lemma {:induction false} AlwaysBalanced(reader: string -> Option<Manifest>, counter: Counter, cs: seq<Command>)
    requires ReadsBack(reader) && NoneSlips(reader, State(None, counter), cs)
    ensures var s := After(reader, State(None, counter), cs);
            s.counter.totalBytes == counter.totalBytes + Length(s.manifest)
    decreases |cs|
  {
    hide Mutate, Slips, ReadsBack, Holds;
    if cs != [] {
      var s := After(reader, State(None, counter), cs[..|cs| - 1]);
      AlwaysBalanced(reader, counter, cs[..|cs| - 1]);
      AlwaysInOrder(reader, counter, cs[..|cs| - 1]);
      var ds: seq<string> :| Holds(s.manifest, ds);
      StepBalances(reader, s, cs[|cs| - 1], ds, counter.totalBytes);
    }
  }

  // ---------------------------------------------------------------- a command that slips

  const EMPTY: Counter := Counter(0, 0, [], [], [])

  function FirstProtect(replace: Write): Command {
    Command(Add, ZERO_DIGEST, "op", "now", QUIET, Written, replace, Written)
  }

  lemma EmptyFacts(w: World)
    ensures Wellformed(EMPTY) && Dated(EMPTY.reservations, w) && Reclaimed(EMPTY, w) == EMPTY
    ensures CreateCount(EMPTY.reservations) == 0 && !OpIdUsed(EMPTY, "op")
  {
  }

  lemma OneReservation(r: Reservation, bytes: nat)
    requires r.kind == Protect && r.ownerFenced == None && bytes <= U64_MAX
    ensures Wellformed(Counter(0, bytes, [r], [], []))
  {
    assert [r][..0] == [];
    assert CreateCount([r]) <= 1;
  }

  lemma FirstReserve(edited: seq<string>)
    requires ReportedCount(edited, Add) == 0
    ensures Reserve(EMPTY, ProtectDigest, ReserveFor(FirstProtect(Unsynced), edited), FirstProtect(Unsynced).w).Ok?
  {
    hide Wellformed, Reclaimed, Dated, OpIdUsed, CreateCount;
    var c := FirstProtect(Unsynced);
    var r := ReservationOf(MappingFor(ProtectDigest), ReserveFor(c, edited));
    EmptyFacts(c.w);
    OneReservation(r, 64 * KIB);
    assert EMPTY.reservations + [r] == [r];
  }

  /** The directory fsync after the rename fails: the file has grown and the ledger has not. */
  lemma SlipExample()
    ensures var s := Mutate(DecodeText, State(None, EMPTY), FirstProtect(Unsynced)).state;
            s.manifest.Some? && s.counter.totalBytes != Length(s.manifest)
  {
    hide Reserve, Mutate, IsDigest, ReadsBack, DecodeText, EncodeText, EMPTY;
    var c, s := FirstProtect(Unsynced), State(None, EMPTY);
    ZeroDigest();
    CompactReadsBack();
    EmptyHolds();
    EmptyTotal();
    var edited := Insert([], ZERO_DIGEST);
    assert edited == [ZERO_DIGEST];
    FirstReserve(edited);
    assert Planned(DecodeText, s, c).Some?;
    StepInOrder(DecodeText, s, c, []);
    StepBalances(DecodeText, s, c, [], 0);
  }

  lemma EmptyTotal()
    ensures EMPTY.totalBytes == 0
  {
  }
}
