/** The capacity counter of a restricted root: admission, reservation and settlement. */
module CapacityLedger {
  import opened Wrappers
  import opened Decimal
  import opened Utf8

  const U64_MAX: nat := 0xFFFF_FFFF_FFFF_FFFF
  const I64_MAX: nat := 0x7FFF_FFFF_FFFF_FFFF
  const MAX_CREATE_RESERVATIONS: nat := 64
  const MAX_SETTLED: nat := 64
  const MAX_SETTLED_FOR_CREATE: nat := 56
  const MAX_DELETE_SETTLED: nat := 16
  const MAX_COUNTERS_BYTES: nat := 48 * 1024
  const MAX_COUNTERS_BYTES_FOR_CREATE: nat := 40 * 1024
  const ACTIVE_RUN_LIMIT: nat := 2
  const PROTECTED_LIMIT: nat := 20
  const DIRECTORY_ENTRY_LIMIT: nat := 1000
  const KIB: nat := 1024
  const MIB: nat := 1024 * 1024
  const PEAK_CAPACITY: nat := 5 * MIB * 22 + 2 * MIB * 32 + 256 * KIB * 100 + 64 * KIB
  const RECLAIM_AGE: nat := 3600

  datatype Kind = Run | Promotion | Protect | Report

  datatype Action = Create | Delete

  datatype Producer =
    BootstrapCandidate | Compare | Promote | SweepReport | KillSwitchEvidence | ProtectDigest | UnprotectDigest

  datatype Mapping = Mapping(kind: Kind, action: Action, maxBytes: nat)

  datatype Reservation = Reservation(
    opId: string, kind: Kind, action: Action, createdAt: string, maxBytes: nat,
    target: string, payload: string, ownerFenced: Option<bool>)

  datatype Tomb = Tomb(
    opId: string, kind: Kind, action: Action, delta: int, finalState: string, settledAt: string,
    ownerFenced: Option<bool>, runId: Option<string>, capHash: Option<string>)

  datatype DeleteTomb = DeleteTomb(opId: string, delta: int, finalState: string, settledAt: string)

  datatype Counter = Counter(
    totalBytes: nat, reservedBytes: nat,
    reservations: seq<Reservation>, settled: seq<Tomb>, deleteSettled: seq<DeleteTomb>)

  datatype ReserveRequest = ReserveRequest(
    opId: string, target: string, payload: string, ownerFenced: Option<bool>, createdAt: string,
    activeRuns: nat, protectedCount: nat, directoryEntries: nat)

  datatype SettleRequest = SettleRequest(
    opId: string, delta: int, finalState: string, settledAt: string,
    runId: Option<string>, capHash: Option<string>)

  datatype Error =
    | MalformedTimestamp | AdmissionDenied | Rejected | CounterInvalid | CounterTooLarge | Fault

  /** `Fresh` carries the counter to store; `Retry` repeats what an earlier settlement recorded. */
  datatype Settlement = Fresh(counter: Counter, delta: int, finalState: string) | Retry(delta: int, finalState: string)

  /**
   The clock (seconds since a stamp, `None` for a stamp that does not parse), the serialized ledger size, and the
   targets whose run lease is still held.
   */
  datatype World = World(age: string -> Option<nat>, size: Counter -> nat, leaseAlive: string -> bool)

  /** What a temp-file, rename, directory-fsync write did. */
  datatype Write = Written | NotWritten | Unsynced {
    /** The new contents are in place. */
    predicate Lands() { !NotWritten? }
  }

  // ---------------------------------------------------------------- tables and shapes

  function MappingFor(p: Producer): Mapping {
    match p
    case BootstrapCandidate => Mapping(Run, Create, 3 * MIB)
    case Compare => Mapping(Run, Create, 5 * MIB)
    case Promote => Mapping(Promotion, Create, 2 * MIB)
    case SweepReport => Mapping(Report, Create, 256 * KIB)
    case KillSwitchEvidence => Mapping(Run, Create, 256 * KIB)
    case ProtectDigest => Mapping(Protect, Create, 64 * KIB)
    case UnprotectDigest => Mapping(Protect, Delete, 0)
  }

  predicate IsLowerHex(c: char) { '0' <= c <= '9' || 'a' <= c <= 'f' }

  /** `validate_cap_hash` and `validate_artifact_digest`: the prefix and 64 lower-case hex digits. */
  predicate IsDigest(s: string) {
    |s| == 71 && s[..7] == "sha256:" && forall i :: 7 <= i < 71 ==> IsLowerHex(s[i])
  }

  predicate IsDash(c: char) { c == '-' }

  /** `validate_run_id`: `YYYYMMDDTHHMMSSZ-<digits>`. */
  predicate ValidRunId(s: string) {
    && IndexOf(s, IsDash) == 16 && 17 < |s|
    && s[8] == 'T' && s[15] == 'Z'
    && (forall i :: 0 <= i < 15 && i != 8 ==> IsDigit(s[i]))
    && (forall i :: 17 <= i < |s| ==> IsDigit(s[i]))
  }

  function CreateCount(rs: seq<Reservation>): nat {
    if rs == [] then 0 else CreateCount(rs[..|rs| - 1]) + (if rs[|rs| - 1].action == Create then 1 else 0)
  }

  predicate ReservationShape(r: Reservation) { r.kind == Run <==> r.ownerFenced.Some? }

  predicate TombShape(t: Tomb) {
    if t.kind == Run then
      && t.ownerFenced.Some?
      && if t.ownerFenced.value then
        t.runId.Some? && t.runId.value != "" && t.capHash.Some? && IsDigest(t.capHash.value)
      else t.runId.None? && t.capHash.None?
    else t.ownerFenced.None? && t.runId.None? && t.capHash.None?
  }

  /** `validate_bounds`, the shape checks and the 64-bit fields: what is ever loaded or stored. */
  predicate Wellformed(c: Counter) {
    && c.totalBytes <= U64_MAX && c.reservedBytes <= U64_MAX
    && CreateCount(c.reservations) <= MAX_CREATE_RESERVATIONS
    && |c.settled| <= MAX_SETTLED
    && |c.deleteSettled| <= MAX_DELETE_SETTLED
    && (forall r | r in c.reservations :: ReservationShape(r))
    && (forall t | t in c.settled :: TombShape(t))
  }

  function Store(c: Counter, forCreate: bool, w: World): Result<Counter, Error> {
    if !Wellformed(c) then Err(CounterInvalid)
    else if w.size(c) > (if forCreate then MAX_COUNTERS_BYTES_FOR_CREATE else MAX_COUNTERS_BYTES) then
      Err(CounterTooLarge)
    else Ok(c)
  }

  function SaturatingAdd(a: nat, b: nat): nat { if a + b <= U64_MAX then a + b else U64_MAX }
  function SaturatingSub(a: nat, b: nat): nat { if b <= a then a - b else 0 }

  // ---------------------------------------------------------------- reclaim

  predicate Stale(r: Reservation, w: World) {
    && w.age(r.createdAt).Some? && w.age(r.createdAt).value > RECLAIM_AGE
    && !(r.kind == Run && w.leaseAlive(r.target))
  }

  predicate Dated(rs: seq<Reservation>, w: World) { forall r | r in rs :: w.age(r.createdAt).Some? }

  function Kept(rs: seq<Reservation>, w: World): seq<Reservation> {
    if rs == [] then []
    else Kept(rs[..|rs| - 1], w) + (if Stale(rs[|rs| - 1], w) then [] else [rs[|rs| - 1]])
  }

  function Released(reserved: nat, rs: seq<Reservation>, w: World): nat {
    if rs == [] then reserved
    else
      var r := rs[|rs| - 1];
      var before := Released(reserved, rs[..|rs| - 1], w);
      if Stale(r, w) then SaturatingSub(before, r.maxBytes) else before
  }

  function FreshTombs(ts: seq<Tomb>, w: World): seq<Tomb> {
    if ts == [] then []
    else
      var t := ts[|ts| - 1];
      FreshTombs(ts[..|ts| - 1], w) +
      (if w.age(t.settledAt).Some? && w.age(t.settledAt).value <= RECLAIM_AGE then [t] else [])
  }

  function Reclaimed(c: Counter, w: World): Counter {
    Counter(c.totalBytes, Released(c.reservedBytes, c.reservations, w), Kept(c.reservations, w),
            FreshTombs(c.settled, w), c.deleteSettled)
  }

  /** `reclaim_stale_locked`. */
  method ReclaimStale(c: Counter, w: World) returns (r: Result<Counter, Error>)
    ensures r == if Dated(c.reservations, w) then Ok(Reclaimed(c, w)) else Err(MalformedTimestamp)
  {
    var reserved := c.reservedBytes;
    var kept: seq<Reservation> := [];
    for i := 0 to |c.reservations|
      invariant Dated(c.reservations[..i], w)
      invariant kept == Kept(c.reservations[..i], w)
      invariant reserved == Released(c.reservedBytes, c.reservations[..i], w)
    {
      var res := c.reservations[i];
      assert res in c.reservations;
      var age := w.age(res.createdAt);
      if age == None { return Err(MalformedTimestamp); }
      assert c.reservations[..i + 1] == c.reservations[..i] + [res];
      assert c.reservations[..i + 1][..i] == c.reservations[..i];
      var leaseBlocks := res.kind == Run && w.leaseAlive(res.target);
      if age.value > RECLAIM_AGE && !leaseBlocks {
        reserved := SaturatingSub(reserved, res.maxBytes);
      } else {
        kept := kept + [res];
      }
    }
    assert c.reservations[..|c.reservations|] == c.reservations;
    var recent: seq<Tomb> := [];
    for i := 0 to |c.settled|
      invariant recent == FreshTombs(c.settled[..i], w)
    {
      var age := w.age(c.settled[i].settledAt);
      assert c.settled[..i + 1][..i] == c.settled[..i];
      if age.Some? && age.value <= RECLAIM_AGE { recent := recent + [c.settled[i]]; }
    }
    assert c.settled[..|c.settled|] == c.settled;
    return Ok(Counter(c.totalBytes, reserved, kept, recent, c.deleteSettled));
  }

  // ---------------------------------------------------------------- admission and reservation

  /** `admit`: whether the producer may proceed. */
  predicate Admits(p: Producer, c: Counter, rq: ReserveRequest, ledgerBytes: nat) {
    var m := MappingFor(p);
    || m.action == Delete
    || (
        && rq.directoryEntries <= DIRECTORY_ENTRY_LIMIT
        && (m.kind == Run ==> rq.activeRuns < ACTIVE_RUN_LIMIT)
        && (p == ProtectDigest ==> rq.protectedCount < PROTECTED_LIMIT)
        && CreateCount(c.reservations) < MAX_CREATE_RESERVATIONS
        && |c.settled| < MAX_SETTLED_FOR_CREATE
        && ledgerBytes < MAX_COUNTERS_BYTES_FOR_CREATE
        && SaturatingAdd(SaturatingAdd(c.totalBytes, c.reservedBytes), m.maxBytes) <= PEAK_CAPACITY)
  }

  predicate OpIdUsed(c: Counter, opId: string) {
    || (exists r :: r in c.reservations && r.opId == opId)
    || (exists t :: t in c.settled && t.opId == opId)
    || (exists d :: d in c.deleteSettled && d.opId == opId)
  }

  function ReservationOf(m: Mapping, rq: ReserveRequest): Reservation {
    Reservation(rq.opId, m.kind, m.action, rq.createdAt, m.maxBytes, rq.target, rq.payload, rq.ownerFenced)
  }

  /** `admit_and_reserve_locked`: the counter it stores. */
  function Reserve(c: Counter, p: Producer, rq: ReserveRequest, w: World): Result<Counter, Error> {
    var m := MappingFor(p);
    if !Wellformed(c) then Err(CounterInvalid)
    else if !Dated(c.reservations, w) then Err(MalformedTimestamp)
    else
      var live := Reclaimed(c, w);
      if !Admits(p, live, rq, w.size(live)) then Err(AdmissionDenied)
      else if (m.kind == Run) != rq.ownerFenced.Some? then Err(Rejected)
      else if m.kind == Run && rq.ownerFenced == Some(true) && !IsDigest(rq.payload) then Err(Rejected)
      else if OpIdUsed(live, rq.opId) then Err(Rejected)
      else
        Store(live.(reservedBytes := SaturatingAdd(live.reservedBytes, m.maxBytes),
                    reservations := live.reservations + [ReservationOf(m, rq)]), m.action == Create, w)
  }

  // ---------------------------------------------------------------- settlement

  /** Position of the first reservation with this operation id, or the length. */
  function FindReservation(rs: seq<Reservation>, opId: string): (k: nat)
    ensures k <= |rs|
    ensures k < |rs| ==> rs[k].opId == opId
    ensures forall i :: 0 <= i < k ==> rs[i].opId != opId
  {
    if rs == [] || rs[0].opId == opId then 0 else 1 + FindReservation(rs[1..], opId)
  }

  function FindTomb(ts: seq<Tomb>, opId: string): (k: nat)
    ensures k <= |ts|
    ensures k < |ts| ==> ts[k].opId == opId
    ensures forall i :: 0 <= i < k ==> ts[i].opId != opId
  {
    if ts == [] || ts[0].opId == opId then 0 else 1 + FindTomb(ts[1..], opId)
  }

  function FindDelete(ts: seq<DeleteTomb>, opId: string): (k: nat)
    ensures k <= |ts|
    ensures k < |ts| ==> ts[k].opId == opId
    ensures forall i :: 0 <= i < k ==> ts[i].opId != opId
  {
    if ts == [] || ts[0].opId == opId then 0 else 1 + FindDelete(ts[1..], opId)
  }

  /** `idempotent_settled_lookup`. */
  function SettledBefore(c: Counter, rq: SettleRequest): Result<Option<Settlement>, Error> {
    var d := FindDelete(c.deleteSettled, rq.opId);
    var k := FindTomb(c.settled, rq.opId);
    if d < |c.deleteSettled| then Ok(Some(Retry(c.deleteSettled[d].delta, c.deleteSettled[d].finalState)))
    else if k == |c.settled| then Ok(None)
    else
      var t := c.settled[k];
      if t.ownerFenced == Some(true) && (rq.capHash == None || t.capHash != rq.capHash) then Err(Rejected)
      else if t.ownerFenced == Some(true) && (rq.runId == None || rq.runId == Some("") || t.runId != rq.runId) then
        Err(Rejected)
      else Ok(Some(Retry(t.delta, t.finalState)))
  }

  predicate TargetMatchesRun(target: string, runId: string) {
    target == "runs/" + runId || StartsWith(target, "runs/" + runId + "/")
  }

  predicate MaySettle(r: Reservation, rq: SettleRequest) {
    r.kind == Run && r.ownerFenced == Some(true) ==>
      && rq.capHash.Some? && IsDigest(rq.capHash.value) && r.payload == rq.capHash.value
      && rq.runId.Some? && rq.runId.value != "" && ValidRunId(rq.runId.value)
      && TargetMatchesRun(r.target, rq.runId.value)
  }

  predicate Earlier(a: DeleteTomb, b: DeleteTomb) {
    StringLess(a.settledAt, b.settledAt) || (a.settledAt == b.settledAt && StringLess(a.opId, b.opId))
  }

  function InsertTomb(ts: seq<DeleteTomb>, t: DeleteTomb): (r: seq<DeleteTomb>)
    ensures |r| == |ts| + 1
    ensures forall x :: x in r <==> x == t || x in ts
  {
    if ts == [] || !Earlier(t, ts[|ts| - 1]) then ts + [t]
    else InsertTomb(ts[..|ts| - 1], t) + [ts[|ts| - 1]]
  }

  function SortTombs(ts: seq<DeleteTomb>): (r: seq<DeleteTomb>)
    ensures |r| == |ts|
    ensures forall x :: x in r <==> x in ts
  {
    if ts == [] then [] else InsertTomb(SortTombs(ts[..|ts| - 1]), ts[|ts| - 1])
  }

  /** `push_delete_settled`: at capacity the oldest deletion tomb makes room. */
  function PushDelete(ts: seq<DeleteTomb>, t: DeleteTomb): seq<DeleteTomb> {
    if |ts| < MAX_DELETE_SETTLED then ts + [t] else SortTombs(ts)[1..] + [t]
  }

  function TombOf(r: Reservation, rq: SettleRequest, finalState: string): Tomb {
    var fenced := r.ownerFenced == Some(true);
    Tomb(r.opId, r.kind, r.action, rq.delta, finalState, rq.settledAt, r.ownerFenced,
         if fenced then rq.runId else None, if fenced then rq.capHash else None)
  }

  /** `settle_locked` up to the write of the new counter. */
  function Settle(c: Counter, rq: SettleRequest, abort: bool, w: World): Result<Settlement, Error> {
    if !Wellformed(c) then Err(CounterInvalid)
    else
      var earlier :- SettledBefore(c, rq);
      var k := FindReservation(c.reservations, rq.opId);
      if earlier.Some? then Ok(earlier.value)
      else if k == |c.reservations| then Err(Rejected)
      else SettleAt(c, k, rq, abort, w)
  }

  /** The settlement of the reservation at `k`. */
  function SettleAt(c: Counter, k: nat, rq: SettleRequest, abort: bool, w: World): Result<Settlement, Error>
    requires k < |c.reservations|
  {
    var r := c.reservations[k];
    if !MaySettle(r, rq) then Err(Rejected)
    else if !(0 <= c.totalBytes + rq.delta <= U64_MAX) then Err(Rejected)
    else
      var finalState := if abort && rq.finalState == "" then "aborted" else rq.finalState;
      var paid := c.(totalBytes := c.totalBytes + rq.delta,
                     reservedBytes := SaturatingSub(c.reservedBytes, r.maxBytes),
                     reservations := c.reservations[..k] + c.reservations[k + 1..]);
      if r.action == Create && |c.settled| >= MAX_SETTLED then Err(Rejected)
      else
        var settled :=
          if r.action == Delete then
            paid.(deleteSettled :=
                    PushDelete(c.deleteSettled, DeleteTomb(r.opId, rq.delta, finalState, rq.settledAt)))
          else paid.(settled := c.settled + [TombOf(r, rq, finalState)]);
        var stored :- Store(settled, r.action == Create, w);
        Ok(Fresh(stored, rq.delta, finalState))
  }

  // ---------------------------------------------------------------- what settlement does to the books

  /**
   * A fresh settlement happens only for an operation with no tomb. It moves the total by exactly its delta and
   * leaves one tomb with that delta, on the list its reservation's action calls for.
   */
  lemma SettleMoves(c: Counter, rq: SettleRequest, abort: bool, w: World)
    requires Settle(c, rq, abort, w).Ok? && Settle(c, rq, abort, w).value.Fresh?
    ensures FindDelete(c.deleteSettled, rq.opId) == |c.deleteSettled| && FindTomb(c.settled, rq.opId) == |c.settled|
    ensures var s := Settle(c, rq, abort, w).value;
            s.delta == rq.delta && s.counter.totalBytes == c.totalBytes + rq.delta
    ensures var c' := Settle(c, rq, abort, w).value.counter;
            || (c'.settled == c.settled &&
                exists t: DeleteTomb :: t.opId == rq.opId && t.delta == rq.delta &&
                                        c'.deleteSettled == PushDelete(c.deleteSettled, t))
            || (c'.deleteSettled == c.deleteSettled &&
                exists t: Tomb :: t.opId == rq.opId && t.delta == rq.delta && c'.settled == c.settled + [t])
  {
    hide Wellformed, PushDelete, MaySettle;
    var k := FindReservation(c.reservations, rq.opId);
    var r := c.reservations[k];
    var c' := Settle(c, rq, abort, w).value.counter;
    var finalState := if abort && rq.finalState == "" then "aborted" else rq.finalState;
    if r.action == Delete {
      var t := DeleteTomb(r.opId, rq.delta, finalState, rq.settledAt);
      assert c'.deleteSettled == PushDelete(c.deleteSettled, t);
    } else {
      var t := TombOf(r, rq, finalState);
      assert c'.settled == c.settled + [t];
    }
  }

  lemma {:induction false} KeptSubset(rs: seq<Reservation>, w: World)
    ensures forall r | r in Kept(rs, w) :: r in rs
    ensures CreateCount(Kept(rs, w)) <= CreateCount(rs)
  {
    if rs != [] {
      var init, r := rs[..|rs| - 1], rs[|rs| - 1];
      KeptSubset(init, w);
      var kept := Kept(init, w);
      assert (kept + [r])[..|kept|] == kept;
      if Stale(r, w) {
        assert Kept(rs, w) == kept;
      }
    }
  }

  lemma {:induction false} FreshSubset(ts: seq<Tomb>, w: World)
    ensures forall t | t in FreshTombs(ts, w) :: t in ts
    ensures |FreshTombs(ts, w)| <= |ts|
  {
    if ts != [] { FreshSubset(ts[..|ts| - 1], w); }
  }

  /** Reclaiming keeps a counter well formed and never changes the total. */
  lemma ReclaimedWellformed(c: Counter, w: World)
    requires Wellformed(c)
    ensures Wellformed(Reclaimed(c, w))
    ensures Reclaimed(c, w).totalBytes == c.totalBytes
  {
    KeptSubset(c.reservations, w);
    FreshSubset(c.settled, w);
    ReleasedShrinks(c.reservedBytes, c.reservations, w);
  }

  lemma {:induction false} ReleasedShrinks(reserved: nat, rs: seq<Reservation>, w: World)
    ensures Released(reserved, rs, w) <= reserved
  {
    if rs != [] { ReleasedShrinks(reserved, rs[..|rs| - 1], w); }
  }

  // ---------------------------------------------------------------- for concrete histories

  function JustNow(stamp: string): Option<nat> { Some(0) }

  function NoBytes(c: Counter): nat { 0 }

  function NoLease(target: string): bool { false }

  /** Nothing ages, the ledger file takes no room and no lease is held. */
  const QUIET: World := World(JustNow, NoBytes, NoLease)

  const ZERO_DIGEST: string := "sha256:" + Zeros(64)

  lemma ZeroDigest()
    ensures IsDigest(ZERO_DIGEST)
  {
    assert ZERO_DIGEST[..7] == "sha256:";
    assert forall i :: 7 <= i < 71 ==> ZERO_DIGEST[i] == '0';
  }
}
