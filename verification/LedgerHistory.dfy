/** The books of the capacity counter over whole histories of reservations and settlements. */
module LedgerHistory {
  import opened CapacityLedger

  /** One call on the stored counter, with what its write did. */
  datatype Event =
    | Reserving(producer: Producer, reserve: ReserveRequest, w: World, write: Write)
    | Settling(settle: SettleRequest, abort: bool, w: World, write: Write)

  function Outstanding(rs: seq<Reservation>): nat {
    if rs == [] then 0 else Outstanding(rs[..|rs| - 1]) + rs[|rs| - 1].maxBytes
  }

  /** The reserved bytes are those of the outstanding reservations. */
  predicate Reconciled(c: Counter) { c.reservedBytes == Outstanding(c.reservations) }

  function Next(c: Counter, e: Event): Counter {
    match e
    case Reserving(p, rq, w, write) =>
      var r := Reserve(c, p, rq, w);
      if r.Ok? && write.Lands() then r.value else c
    case Settling(rq, abort, w, write) =>
      var r := Settle(c, rq, abort, w);
      if r.Ok? && r.value.Fresh? && write.Lands() then r.value.counter else c
  }

  /** What one event adds to the total: the delta of a settlement that is new and reaches the file. */
  function Charge(c: Counter, e: Event): int {
    if e.Settling? then
      var r := Settle(c, e.settle, e.abort, e.w);
      if r.Ok? && r.value.Fresh? && e.write.Lands() then r.value.delta else 0
    else 0
  }

  function After(c: Counter, es: seq<Event>): Counter {
    if es == [] then c else Next(After(c, es[..|es| - 1]), es[|es| - 1])
  }

  function Charges(c: Counter, es: seq<Event>): int {
    if es == [] then 0 else Charges(c, es[..|es| - 1]) + Charge(After(c, es[..|es| - 1]), es[|es| - 1])
  }

  lemma {:induction false} OutstandingAppend(a: seq<Reservation>, b: seq<Reservation>)
    ensures Outstanding(a + b) == Outstanding(a) + Outstanding(b)
  {
    if b == [] {
      assert a + b == a;
    } else {
      var init, r := b[..|b| - 1], b[|b| - 1];
      assert (a + b)[..|a + b| - 1] == a + init;
      OutstandingAppend(a, init);
    }
  }

  lemma OutstandingOne(r: Reservation)
    ensures Outstanding([r]) == r.maxBytes
  {
    assert [r][..0] == [];
  }

  /** Reclaiming releases exactly the bytes of the reservations it drops. */
  lemma {:induction false} ReclaimReleases(reserved: nat, rs: seq<Reservation>, w: World)
    requires reserved >= Outstanding(rs)
    ensures Released(reserved, rs, w) - Outstanding(Kept(rs, w)) == reserved - Outstanding(rs)
  {
    if rs != [] {
      var init, r := rs[..|rs| - 1], rs[|rs| - 1];
      ReclaimReleases(reserved, init, w);
      OutstandingAppend(Kept(init, w), if Stale(r, w) then [] else [r]);
      OutstandingOne(r);
    }
  }

  lemma ReserveReconciles(c: Counter, p: Producer, rq: ReserveRequest, w: World)
    requires Reconciled(c) && Reserve(c, p, rq, w).Ok?
    ensures Reconciled(Reserve(c, p, rq, w).value) && Reserve(c, p, rq, w).value.totalBytes == c.totalBytes
  {
    hide Wellformed, OpIdUsed, Dated, CreateCount, IsDigest, Outstanding, Released, Kept, FreshTombs;
    var m, live := MappingFor(p), Reclaimed(c, w);
    ReclaimReleases(c.reservedBytes, c.reservations, w);
    var r := ReservationOf(m, rq);
    OutstandingAppend(live.reservations, [r]);
    OutstandingOne(r);
    LiveBounded(c, w);
  }

  lemma LiveBounded(c: Counter, w: World)
    requires Wellformed(c)
    ensures Reclaimed(c, w).reservedBytes <= U64_MAX
  {
    hide CreateCount;
    ReleasedShrinks(c.reservedBytes, c.reservations, w);
  }

  lemma SettleReconciles(c: Counter, rq: SettleRequest, abort: bool, w: World)
    requires Reconciled(c) && Settle(c, rq, abort, w).Ok? && Settle(c, rq, abort, w).value.Fresh?
    ensures Reconciled(Settle(c, rq, abort, w).value.counter)
  {
    hide Wellformed, MaySettle, PushDelete, Outstanding, CreateCount;
    var rs := c.reservations;
    var k := FindReservation(rs, rq.opId);
    assert rs == rs[..k] + ([rs[k]] + rs[k + 1..]);
    OutstandingAppend(rs[..k], [rs[k]] + rs[k + 1..]);
    OutstandingAppend([rs[k]], rs[k + 1..]);
    OutstandingAppend(rs[..k], rs[k + 1..]);
    OutstandingOne(rs[k]);
  }

  lemma NextConserves(c: Counter, e: Event)
    requires Reconciled(c)
    ensures Reconciled(Next(c, e)) && Next(c, e).totalBytes == c.totalBytes + Charge(c, e)
  {
    hide Reconciled, Reserve, Settle;
    match e
    case Reserving(p, rq, w, _) => if Reserve(c, p, rq, w).Ok? { ReserveReconciles(c, p, rq, w); }
    case Settling(rq, abort, w, _) =>
      var r := Settle(c, rq, abort, w);
      if r.Ok? && r.value.Fresh? {
        SettleReconciles(c, rq, abort, w);
        SettleMoves(c, rq, abort, w);
      }
  }

  /**
   * Over any history of reservations and settlements, refused, lost or stored: the reserved bytes stay those of the
   * outstanding reservations, and the total moves by exactly the settled deltas.
   */
  lemma {:induction false} AlwaysConserved(c: Counter, es: seq<Event>)
    requires Reconciled(c)
    ensures Reconciled(After(c, es)) && After(c, es).totalBytes == c.totalBytes + Charges(c, es)
    decreases |es|
  {
    hide Reconciled, Next, Charge;
    if es != [] {
      AlwaysConserved(c, es[..|es| - 1]);
      NextConserves(After(c, es[..|es| - 1]), es[|es| - 1]);
    }
  }
}
