/** Who is admitted to the capacity ledger, who may settle, what is reclaimed, and the cap all of it keeps. */
module LedgerAdmission {
  import opened Wrappers
  import opened CapacityLedger
  import opened Decimal
  import opened Utf8
  import opened LedgerHistory

  // ---------------------------------------------------------------- names

  predicate HexText(s: string) { forall i :: 0 <= i < |s| ==> s[i] in "0123456789abcdef" }

  /** A digest is `sha256:` and 64 lower-case hex digits. */
  lemma DigestExactly(s: string)
    ensures IsDigest(s) <==> exists hex: string :: s == "sha256:" + hex && |hex| == 64 && HexText(hex)
  {
    if IsDigest(s) {
      var hex := s[7..];
      assert s == s[..7] + hex && forall i :: 0 <= i < 64 ==> hex[i] == s[i + 7];
      assert HexText(hex);
    }
    forall hex: string | s == "sha256:" + hex && |hex| == 64 && HexText(hex) ensures IsDigest(s) {
      assert s[..7] == "sha256:" && forall i :: 7 <= i < 71 ==> s[i] == hex[i - 7];
    }
  }

  /** A run id is a date and a time of digits, framed by `T` and `Z-`, and a number. */
  lemma RunIdExactly(s: string)
    ensures ValidRunId(s) <==>
            exists date: string, time: string, number: string ::
              && s == date + ("T" + (time + ("Z-" + number))) && |date| == 8 && |time| == 6 && number != ""
              && AllDigits(date) && AllDigits(time) && AllDigits(number)
  {
    if ValidRunId(s) {
      var date, time, number := s[..8], s[9..15], s[17..];
      assert s == date + ("T" + (time + ("Z-" + number))) by { assert s[16] == '-'; }
    }
    forall date: string, time: string, number: string |
      && s == date + ("T" + (time + ("Z-" + number))) && |date| == 8 && |time| == 6 && number != ""
      && AllDigits(date) && AllDigits(time) && AllDigits(number)
      ensures ValidRunId(s)
    {
      RunIdParts(date, time, number);
    }
  }

  lemma RunIdParts(date: string, time: string, number: string)
    requires |date| == 8 && |time| == 6 && number != "" && AllDigits(date) && AllDigits(time) && AllDigits(number)
    ensures ValidRunId(date + ("T" + (time + ("Z-" + number))))
  {
    var s := date + ("T" + (time + ("Z-" + number)));
    assert forall i :: 0 <= i < 8 ==> s[i] == date[i];
    assert s[8] == 'T' && s[15] == 'Z' && s[16] == '-';
    assert forall i :: 9 <= i < 15 ==> s[i] == time[i - 9];
    assert forall i :: 17 <= i < |s| ==> s[i] == number[i - 17];
    assert IndexOf(s, IsDash) == 16;
  }

  // ---------------------------------------------------------------- reclaim

  /** A reservation older than an hour goes, unless it is a run whose lease is held. */
  predicate Expired(r: Reservation, w: World) {
    w.age(r.createdAt).Some? && w.age(r.createdAt).value > 3600 && (r.kind == Run ==> !w.leaseAlive(r.target))
  }

  /** Reclaiming keeps exactly the other reservations, and exactly the tombs with a readable stamp of the last hour. */
  lemma {:induction false} ReclaimExactly(c: Counter, w: World)
    ensures forall r :: r in Reclaimed(c, w).reservations <==> r in c.reservations && !Expired(r, w)
    ensures forall t :: t in Reclaimed(c, w).settled <==>
              t in c.settled && w.age(t.settledAt).Some? && w.age(t.settledAt).value <= 3600
    ensures Reclaimed(c, w).totalBytes == c.totalBytes && Reclaimed(c, w).deleteSettled == c.deleteSettled
    decreases |c.reservations| + |c.settled|
  {
    if c.reservations != [] {
      var init := c.reservations[..|c.reservations| - 1];
      assert c.reservations == init + [c.reservations[|c.reservations| - 1]];
      ReclaimExactly(c.(reservations := init), w);
    }
    if c.settled != [] {
      var init := c.settled[..|c.settled| - 1];
      assert c.settled == init + [c.settled[|c.settled| - 1]];
      ReclaimExactly(c.(settled := init), w);
    }
  }

  // ---------------------------------------------------------------- admission

  predicate IsRunProducer(p: Producer) { p == BootstrapCandidate || p == Compare || p == KillSwitchEvidence }

  function MaxBytes(p: Producer): nat {
    match p
    case BootstrapCandidate => 3145728
    case Compare => 5242880
    case Promote => 2097152
    case SweepReport => 262144
    case KillSwitchEvidence => 262144
    case ProtectDigest => 65536
    case UnprotectDigest => 0
  }

  /** The restricted root's capacity. */
  const CAP: nat := 208732160

  /** The limits a creating producer meets. */
  predicate Headroom(p: Producer, live: Counter, rq: ReserveRequest, w: World) {
    && rq.directoryEntries <= 1000
    && (IsRunProducer(p) ==> rq.activeRuns < 2)
    && (p == ProtectDigest ==> rq.protectedCount < 20)
    && CreateCount(live.reservations) < 64 && |live.settled| < 56 && w.size(live) < 40960
    && live.totalBytes + live.reservedBytes + MaxBytes(p) <= CAP
  }

  predicate UnusedId(c: Counter, opId: string) {
    && (forall r | r in c.reservations :: r.opId != opId)
    && (forall t | t in c.settled :: t.opId != opId)
    && (forall t | t in c.deleteSettled :: t.opId != opId)
  }

  /** The ledger with the reservation appended. */
  function Appended(p: Producer, live: Counter, rq: ReserveRequest): Counter {
    var kind := if IsRunProducer(p) then Run else if p == Promote then Promotion
                else if p == SweepReport then Report else Protect;
    var action := if p == UnprotectDigest then Delete else Create;
    Counter(live.totalBytes, live.reservedBytes + MaxBytes(p),
            live.reservations +
            [Reservation(rq.opId, kind, action, rq.createdAt, MaxBytes(p), rq.target, rq.payload, rq.ownerFenced)],
            live.settled, live.deleteSettled)
  }

  /** Everything `admit_and_reserve_locked` asks for. */
  predicate Admissible(c: Counter, p: Producer, rq: ReserveRequest, w: World) {
    var live := Reclaimed(c, w);
    && Wellformed(c) && (forall r | r in c.reservations :: w.age(r.createdAt).Some?)
    && (p != UnprotectDigest ==> Headroom(p, live, rq, w))
    && (IsRunProducer(p) <==> rq.ownerFenced.Some?)
    && (rq.ownerFenced == Some(true) ==> IsDigest(rq.payload))
    && UnusedId(live, rq.opId)
    && w.size(Appended(p, live, rq)) <= (if p == UnprotectDigest then 49152 else 40960)
  }

  lemma Tables(p: Producer, live: Counter, rq: ReserveRequest, w: World)
    ensures MappingFor(p).maxBytes == MaxBytes(p) && (MappingFor(p).kind == Run <==> IsRunProducer(p))
    ensures MappingFor(p).action == Delete <==> p == UnprotectDigest
    ensures Admits(p, live, rq, w.size(live)) <==> p == UnprotectDigest || Headroom(p, live, rq, w)
    ensures !OpIdUsed(live, rq.opId) <==> UnusedId(live, rq.opId)
  {
    hide CreateCount;
  }

  lemma AppendedIs(p: Producer, live: Counter, rq: ReserveRequest)
    requires Wellformed(live) && (p != UnprotectDigest ==> live.totalBytes + live.reservedBytes + MaxBytes(p) <= CAP)
    ensures live.(reservedBytes := SaturatingAdd(live.reservedBytes, MappingFor(p).maxBytes),
                  reservations := live.reservations + [ReservationOf(MappingFor(p), rq)]) == Appended(p, live, rq)
  {
    hide CreateCount, TombShape;
  }

  lemma AppendedWellformed(p: Producer, live: Counter, rq: ReserveRequest)
    requires Wellformed(live) && (IsRunProducer(p) <==> rq.ownerFenced.Some?)
    requires p != UnprotectDigest ==>
               CreateCount(live.reservations) < 64 && live.totalBytes + live.reservedBytes + MaxBytes(p) <= CAP
    ensures Wellformed(Appended(p, live, rq))
  {
    hide TombShape;
    var rs := Appended(p, live, rq).reservations;
    assert rs[..|rs| - 1] == live.reservations;
  }

  /** A reservation is taken exactly when it is admissible, and then it is the only thing added. */
  lemma ReserveExactly(c: Counter, p: Producer, rq: ReserveRequest, w: World)
    ensures Reserve(c, p, rq, w).Ok? <==> Admissible(c, p, rq, w)
    ensures Reserve(c, p, rq, w).Ok? ==> Reserve(c, p, rq, w).value == Appended(p, Reclaimed(c, w), rq)
  {
    hide Wellformed, CreateCount, Admits, OpIdUsed, UnusedId, Headroom, Appended, Reclaimed, IsDigest, MappingFor;
    var live := Reclaimed(c, w);
    Tables(p, live, rq, w);
    if Wellformed(c) {
      ReclaimedWellformed(c, w);
      if p == UnprotectDigest || Headroom(p, live, rq, w) {
        HeadroomBounds(p, live, rq, w);
        AppendedIs(p, live, rq);
        if IsRunProducer(p) <==> rq.ownerFenced.Some? { AppendedWellformed(p, live, rq); }
      }
    }
  }

  lemma HeadroomBounds(p: Producer, live: Counter, rq: ReserveRequest, w: World)
    requires p == UnprotectDigest || Headroom(p, live, rq, w)
    ensures p != UnprotectDigest ==>
              CreateCount(live.reservations) < 64 && live.totalBytes + live.reservedBytes + MaxBytes(p) <= CAP
  {
  }

  // ---------------------------------------------------------------- deletion tombs

  /** The order of deletion tombs is a strict weak order. */
  lemma EarlierWeak(a: DeleteTomb, b: DeleteTomb, c: DeleteTomb)
    requires Earlier(a, b) && !Earlier(c, b)
    ensures Earlier(a, c)
  {
    hide StringLess;
    StringOrder(a.settledAt, b.settledAt);
    StringOrder(b.settledAt, c.settledAt);
    StringOrder(a.opId, b.opId);
    StringOrder(b.opId, c.opId);
    if StringLess(a.settledAt, b.settledAt) && StringLess(b.settledAt, c.settledAt) {
      StringTransitive(a.settledAt, b.settledAt, c.settledAt);
    }
    if StringLess(a.opId, b.opId) && StringLess(b.opId, c.opId) { StringTransitive(a.opId, b.opId, c.opId); }
  }

  /** `x` is among the oldest. */
  ghost predicate Oldest(x: DeleteTomb, ts: seq<DeleteTomb>) {
    forall y | y in ts :: !Earlier(y, x)
  }

  lemma {:induction false} InsertCounts(ts: seq<DeleteTomb>, t: DeleteTomb)
    ensures multiset(InsertTomb(ts, t)) == multiset(ts) + multiset{t}
  {
    hide Earlier;
    if ts != [] {
      InsertCounts(ts[..|ts| - 1], t);
      assert ts == ts[..|ts| - 1] + [ts[|ts| - 1]];
    }
  }

  /** Insertion puts `t` in front only if it is earlier than all. */
  lemma {:induction false} InsertFront(ts: seq<DeleteTomb>, t: DeleteTomb)
    ensures || ts == [] || InsertTomb(ts, t)[0] == ts[0]
            || (InsertTomb(ts, t)[0] == t && forall y | y in ts :: Earlier(t, y))
    ensures ts == [] ==> InsertTomb(ts, t)[0] == t
    ensures ts != [] && !Earlier(t, ts[|ts| - 1]) ==> InsertTomb(ts, t) == ts + [t]
  {
    hide Earlier;
    if ts != [] && Earlier(t, ts[|ts| - 1]) {
      InsertFront(ts[..|ts| - 1], t);
      assert ts == ts[..|ts| - 1] + [ts[|ts| - 1]];
    }
  }

  lemma {:induction false} InsertOldest(ts: seq<DeleteTomb>, t: DeleteTomb)
    requires ts != [] ==> Oldest(ts[0], ts)
    ensures Oldest(InsertTomb(ts, t)[0], InsertTomb(ts, t))
  {
    hide Earlier, InsertTomb;
    InsertFront(ts, t);
    NotEarlierSelf(t);
    var first := InsertTomb(ts, t)[0];
    if ts != [] && first == ts[0] {
      if Earlier(t, first) { InsertEarlier(ts, t); }
    } else {
      forall y | y in ts ensures !Earlier(y, t) { EarlierAsymmetric(t, y); }
    }
  }

  /** If `t` is earlier than the first of a list that starts with its oldest, it is inserted in front. */
  lemma InsertEarlier(ts: seq<DeleteTomb>, t: DeleteTomb)
    requires ts != [] && Oldest(ts[0], ts) && Earlier(t, ts[0])
    ensures InsertTomb(ts, t)[0] == t
  {
    hide Earlier;
    forall y | y in ts ensures Earlier(t, y) { EarlierWeak(t, ts[0], y); }
    InsertedInFront(ts, t);
  }

  lemma {:induction false} InsertedInFront(ts: seq<DeleteTomb>, t: DeleteTomb)
    requires forall y | y in ts :: Earlier(t, y)
    ensures InsertTomb(ts, t)[0] == t
  {
    hide Earlier;
    if ts != [] { InsertedInFront(ts[..|ts| - 1], t); }
  }

  lemma NotEarlierSelf(t: DeleteTomb)
    ensures !Earlier(t, t)
  {
    StringOrder(t.settledAt, t.settledAt);
    StringOrder(t.opId, t.opId);
  }

  lemma EarlierAsymmetric(a: DeleteTomb, b: DeleteTomb)
    ensures !(Earlier(a, b) && Earlier(b, a))
  {
    StringOrder(a.settledAt, b.settledAt);
    StringOrder(a.opId, b.opId);
  }

  lemma {:induction false} SortOldest(ts: seq<DeleteTomb>)
    ensures multiset(SortTombs(ts)) == multiset(ts) && (ts != [] ==> Oldest(SortTombs(ts)[0], SortTombs(ts)))
  {
    if ts != [] {
      var init := ts[..|ts| - 1];
      assert ts == init + [ts[|ts| - 1]];
      SortOldest(init);
      InsertCounts(SortTombs(init), ts[|ts| - 1]);
      InsertOldest(SortTombs(init), ts[|ts| - 1]);
    }
  }

  /** A deletion tomb is added; from 16 on, one of the oldest by stamp and then operation id makes room for it. */
  lemma OldestMakesRoom(ts: seq<DeleteTomb>, t: DeleteTomb)
    ensures |ts| < 16 ==> PushDelete(ts, t) == ts + [t]
    ensures |ts| >= 16 ==>
              exists x :: x in ts && Oldest(x, ts) &&
                          multiset(PushDelete(ts, t)) == multiset(ts) - multiset{x} + multiset{t}
  {
    hide Earlier;
    if |ts| >= 16 {
      var sorted := SortTombs(ts);
      SortOldest(ts);
      assert sorted == [sorted[0]] + sorted[1..];
      assert sorted[0] in ts && Oldest(sorted[0], ts);
    }
  }

  // ---------------------------------------------------------------- who may settle

  /** A fenced run is settled, or its settlement repeated, only with its own capability hash and run id. */
  lemma SettleFenced(c: Counter, rq: SettleRequest, abort: bool, w: World)
    requires Settle(c, rq, abort, w).Ok?
    ensures Settle(c, rq, abort, w).value.Fresh? ==>
              exists k: nat :: k < |c.reservations| && c.reservations[k].opId == rq.opId &&
                               (c.reservations[k].ownerFenced == Some(true) && c.reservations[k].kind == Run ==>
                                  && rq.capHash == Some(c.reservations[k].payload) && rq.runId.Some?
                                  && TargetMatchesRun(c.reservations[k].target, rq.runId.value))
    ensures Settle(c, rq, abort, w).value.Retry? ==>
              || (exists t :: t in c.deleteSettled && t.opId == rq.opId &&
                              t.delta == Settle(c, rq, abort, w).value.delta)
              || (exists t :: t in c.settled && t.opId == rq.opId && t.delta == Settle(c, rq, abort, w).value.delta &&
                              (t.ownerFenced == Some(true) ==> t.capHash == rq.capHash && t.runId == rq.runId))
  {
    hide Wellformed, PushDelete, Store, TargetMatchesRun, IsDigest, ValidRunId;
    var r := Settle(c, rq, abort, w).value;
    if r.Fresh? {
      var k := FindReservation(c.reservations, rq.opId);
      assert c.reservations[k].opId == rq.opId;
    } else {
      var d, k := FindDelete(c.deleteSettled, rq.opId), FindTomb(c.settled, rq.opId);
      if d < |c.deleteSettled| {
        assert c.deleteSettled[d] in c.deleteSettled;
      } else {
        assert c.settled[k] in c.settled;
      }
    }
  }

  /** The caller may settle this reservation: a fenced run only with its hash and a run id its target lies under. */
  predicate Authorized(r: Reservation, rq: SettleRequest) {
    r.kind == Run && r.ownerFenced == Some(true) ==>
      && rq.capHash == Some(r.payload) && IsDigest(r.payload)
      && rq.runId.Some? && rq.runId.value != "" && ValidRunId(rq.runId.value)
      && TargetMatchesRun(r.target, rq.runId.value)
  }

  /** The ledger with reservation `k` settled. */
  function SettledLedger(c: Counter, k: nat, rq: SettleRequest, finalState: string): Counter
    requires k < |c.reservations| && 0 <= c.totalBytes + rq.delta
  {
    var r := c.reservations[k];
    var fenced := r.ownerFenced == Some(true);
    Counter(c.totalBytes + rq.delta, if r.maxBytes <= c.reservedBytes then c.reservedBytes - r.maxBytes else 0,
            c.reservations[..k] + c.reservations[k + 1..],
            if r.action == Delete then c.settled
            else c.settled + [Tomb(rq.opId, r.kind, r.action, rq.delta, finalState, rq.settledAt, r.ownerFenced,
                                   if fenced then rq.runId else None, if fenced then rq.capHash else None)],
            if r.action == Create then c.deleteSettled
            else PushDelete(c.deleteSettled, DeleteTomb(rq.opId, rq.delta, finalState, rq.settledAt)))
  }

  /** The first reservation of an operation that has no tomb. */
  ghost predicate Outstands(c: Counter, opId: string, k: nat) {
    && k < |c.reservations| && c.reservations[k].opId == opId
    && (forall i: nat | i < k :: c.reservations[i].opId != opId)
    && (forall t | t in c.settled :: t.opId != opId) && (forall t | t in c.deleteSettled :: t.opId != opId)
  }

  lemma SettledWellformed(c: Counter, k: nat, rq: SettleRequest, finalState: string)
    requires Wellformed(c) && k < |c.reservations| && Authorized(c.reservations[k], rq)
    requires 0 <= c.totalBytes + rq.delta <= U64_MAX && (c.reservations[k].action == Create ==> |c.settled| < 64)
    ensures Wellformed(SettledLedger(c, k, rq, finalState))
  {
    hide IsDigest, ValidRunId, TargetMatchesRun, CreateCount, SortTombs;
    var rs, c' := c.reservations, SettledLedger(c, k, rq, finalState);
    assert rs[k] in rs;
    assert forall r | r in c'.reservations :: r in rs;
    WithoutCount(rs, k);
  }

  lemma WithoutCount(rs: seq<Reservation>, k: nat)
    requires k < |rs|
    ensures CreateCount(rs[..k] + rs[k + 1..]) <= CreateCount(rs)
  {
    hide CreateCount;
    assert rs == rs[..k] + ([rs[k]] + rs[k + 1..]);
    CountAppend(rs[..k], [rs[k]] + rs[k + 1..]);
    CountAppend([rs[k]], rs[k + 1..]);
    CountAppend(rs[..k], rs[k + 1..]);
  }

  lemma {:induction false} CountAppend(a: seq<Reservation>, b: seq<Reservation>)
    ensures CreateCount(a + b) == CreateCount(a) + CreateCount(b)
    decreases b
  {
    if b == [] {
      assert a + b == a;
    } else {
      assert (a + b)[..|a + b| - 1] == a + b[..|b| - 1];
      CountAppend(a, b[..|b| - 1]);
    }
  }

  /** The settlement of an outstanding operation: when it is refused, and with which error; otherwise the new ledger. */
  lemma SettleExactly(c: Counter, rq: SettleRequest, abort: bool, w: World, k: nat)
    requires Wellformed(c) && Outstands(c, rq.opId, k)
    ensures var r := c.reservations[k]; var create := r.action == Create;
            var finalState := if abort && rq.finalState == "" then "aborted" else rq.finalState;
            Settle(c, rq, abort, w) ==
              if !Authorized(r, rq) || !(0 <= c.totalBytes + rq.delta <= 0xFFFF_FFFF_FFFF_FFFF) ||
                 (create && |c.settled| >= 64) then Err(Rejected)
              else if w.size(SettledLedger(c, k, rq, finalState)) > (if create then 40960 else 49152)
              then Err(CounterTooLarge)
              else Ok(Fresh(SettledLedger(c, k, rq, finalState), rq.delta, finalState))
  {
    hide Authorized, Wellformed, Settle, SettleAt, Outstands, SettledLedger;
    SettleReaches(c, rq, abort, w, k);
    SettleAtExactly(c, rq, abort, w, k);
  }

  lemma SettleReaches(c: Counter, rq: SettleRequest, abort: bool, w: World, k: nat)
    requires Wellformed(c) && Outstands(c, rq.opId, k)
    ensures k < |c.reservations| && c.reservations[k].opId == rq.opId
    ensures Settle(c, rq, abort, w) == SettleAt(c, k, rq, abort, w)
  {
    hide SettleAt, Wellformed;
    assert FindReservation(c.reservations, rq.opId) == k;
    assert FindTomb(c.settled, rq.opId) == |c.settled| && FindDelete(c.deleteSettled, rq.opId) == |c.deleteSettled|;
  }

  lemma SettleAtExactly(c: Counter, rq: SettleRequest, abort: bool, w: World, k: nat)
    requires Wellformed(c) && k < |c.reservations| && c.reservations[k].opId == rq.opId
    ensures var r := c.reservations[k]; var create := r.action == Create;
            var finalState := if abort && rq.finalState == "" then "aborted" else rq.finalState;
            SettleAt(c, k, rq, abort, w) ==
              if !Authorized(r, rq) || !(0 <= c.totalBytes + rq.delta <= 0xFFFF_FFFF_FFFF_FFFF) ||
                 (create && |c.settled| >= 64) then Err(Rejected)
              else if w.size(SettledLedger(c, k, rq, finalState)) > (if create then 40960 else 49152)
              then Err(CounterTooLarge)
              else Ok(Fresh(SettledLedger(c, k, rq, finalState), rq.delta, finalState))
  {
    hide IsDigest, ValidRunId, TargetMatchesRun, PushDelete, Wellformed;
    var r := c.reservations[k];
    assert MaySettle(r, rq) <==> Authorized(r, rq);
    var finalState := if abort && rq.finalState == "" then "aborted" else rq.finalState;
    if Authorized(r, rq) && 0 <= c.totalBytes + rq.delta <= U64_MAX && (r.action == Create ==> |c.settled| < 64) {
      SettledWellformed(c, k, rq, finalState);
    }
  }

  /** Without a reservation or a tomb there is nothing to settle. */
  lemma NothingToSettle(c: Counter, rq: SettleRequest, abort: bool, w: World)
    requires Wellformed(c) && UnusedId(c, rq.opId)
    ensures Settle(c, rq, abort, w) == Err(Rejected)
  {
    hide Wellformed;
    assert FindReservation(c.reservations, rq.opId) == |c.reservations|;
    assert FindTomb(c.settled, rq.opId) == |c.settled| && FindDelete(c.deleteSettled, rq.opId) == |c.deleteSettled|;
  }

  // ---------------------------------------------------------------- the cap over whole histories

  /** Bytes stored and promised. */
  function Committed(c: Counter): nat { c.totalBytes + c.reservedBytes }

  /** A settlement charges no more than its operation reserved. */
  ghost predicate WithinReservation(c: Counter, e: Event) {
    e.Settling? ==>
      forall k: nat | k < |c.reservations| && c.reservations[k].opId == e.settle.opId ::
        e.settle.delta <= c.reservations[k].maxBytes
  }

  lemma ReserveWithinCap(c: Counter, p: Producer, rq: ReserveRequest, w: World)
    requires Reconciled(c) && Committed(c) <= CAP && Reserve(c, p, rq, w).Ok?
    ensures Committed(Reserve(c, p, rq, w).value) <= CAP
  {
    hide Reserve, Wellformed, CreateCount, IsDigest, Reclaimed, UnusedId;
    ReserveExactly(c, p, rq, w);
    ReclaimShrinks(c, w);
  }

  lemma ReclaimShrinks(c: Counter, w: World)
    ensures Committed(Reclaimed(c, w)) <= Committed(c)
  {
    ReleasedShrinks(c.reservedBytes, c.reservations, w);
  }

  lemma {:induction false} OneOutstanding(rs: seq<Reservation>, k: nat)
    requires k < |rs|
    ensures rs[k].maxBytes <= Outstanding(rs)
  {
    if k < |rs| - 1 { OneOutstanding(rs[..|rs| - 1], k); }
  }

  /** A new settlement moves the sum by what it charges beyond its reservation. */
  lemma SettleShifts(c: Counter, rq: SettleRequest, abort: bool, w: World) returns (k: nat)
    requires Reconciled(c) && Settle(c, rq, abort, w).Ok? && Settle(c, rq, abort, w).value.Fresh?
    ensures k < |c.reservations| && c.reservations[k].opId == rq.opId
    ensures Committed(Settle(c, rq, abort, w).value.counter) == Committed(c) + rq.delta - c.reservations[k].maxBytes
  {
    hide Wellformed, PushDelete, MaySettle, Outstanding, CreateCount;
    k := FindReservation(c.reservations, rq.opId);
    OneOutstanding(c.reservations, k);
  }

  lemma SettleWithinCap(c: Counter, e: Event)
    requires e.Settling? && Reconciled(c) && Committed(c) <= CAP && WithinReservation(c, e)
    requires Settle(c, e.settle, e.abort, e.w).Ok? && Settle(c, e.settle, e.abort, e.w).value.Fresh?
    ensures Committed(Settle(c, e.settle, e.abort, e.w).value.counter) <= CAP
  {
    hide Settle, Reconciled;
    var k := SettleShifts(c, e.settle, e.abort, e.w);
  }

  /**
   Over any history in which no settlement exceeds its reservation, what is stored and promised together never exceeds
   the capacity of the root.
   */
  lemma {:induction false} AlwaysWithinCap(c: Counter, es: seq<Event>)
    requires Reconciled(c) && Committed(c) <= CAP
    requires forall i: nat | i < |es| :: WithinReservation(After(c, es[..i]), es[i])
    ensures Committed(After(c, es)) <= CAP
    decreases |es|
  {
    hide Reconciled, WithinReservation, Reserve, Settle;
    if es != [] {
      var init, e := es[..|es| - 1], es[|es| - 1];
      assert forall i: nat | i < |init| :: init[..i] == es[..i] && init[i] == es[i];
      AlwaysWithinCap(c, init);
      AlwaysConserved(c, init);
      var s := After(c, init);
      match e
      case Reserving(p, rq, w, _) => if Reserve(s, p, rq, w).Ok? { ReserveWithinCap(s, p, rq, w); }
      case Settling(rq, abort, w, _) =>
        if Settle(s, rq, abort, w).Ok? && Settle(s, rq, abort, w).value.Fresh? { SettleWithinCap(s, e); }
    }
  }
}
