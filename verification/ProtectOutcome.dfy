/** What one `protect` or `unprotect` leaves and answers, case by case, on the listing the manifest holds. */
module ProtectOutcome {
  import opened Wrappers
  import opened CapacityLedger
  import opened ManifestText
  import opened ProtectedManifest

  /** The digest is not yet as the command wants it. */
  predicate Wanted(ds: seq<string>, c: Command) { c.op == Add <==> c.digest !in ds }

  /** When the edit of a listing is nothing, an error, or a new listing. */
  lemma EditedExactly(ds: seq<string>, c: Command)
    ensures Edited(ds, c.op, c.digest) == Ok(None) <==> !Wanted(ds, c)
    ensures Edited(ds, c.op, c.digest).Err? <==> Wanted(ds, c) && c.op == Add && |ds| >= 20
    ensures Edited(ds, c.op, c.digest).Err? ==> Edited(ds, c.op, c.digest).error == Rejected
  {
  }

  /** Nothing to do, and what is refused: neither touches the manifest or the ledger. */
  lemma IdleOrRefused(reader: string -> Option<Manifest>, s: State, c: Command, ds: seq<string>)
    requires ReadsBack(reader) && Holds(s.manifest, ds)
    ensures !IsDigest(c.digest) ==> Mutate(reader, s, c) == Step(s, Failed(Rejected))
    ensures IsDigest(c.digest) && !Wanted(ds, c) ==> Mutate(reader, s, c) == Step(s, Unchanged)
    ensures IsDigest(c.digest) && Wanted(ds, c) && c.op == Add && |ds| >= 20 ==>
              Mutate(reader, s, c) == Step(s, Failed(Rejected))
  {
    hide IsDigest, LoadSet, Edited, ReadsBack, Holds, Reserve, Wanted;
    LoadHolds(reader, s.manifest, ds);
    EditedExactly(ds, c);
  }

  // ---------------------------------------------------------------- a change

  /** What the ledger is asked to admit: `n` digests are listed so far. */
  function Asked(c: Command, n: nat): ReserveRequest {
    ReserveRequest(c.opId, "baselines/protected.json", c.digest, None, c.at, 0, n, 0)
  }

  function Reservation(s: State, c: Command, n: nat): Result<Counter, Error> {
    Reserve(s.counter, if c.op == Add then ProtectDigest else UnprotectDigest, Asked(c, n), c.w)
  }

  /** The ledger with the command settled: the total moved by `delta`, no reservation left, one tomb more. */
  function SettledAs(live: Counter, c: Command, delta: int, finalState: string): Counter
    requires live.totalBytes + delta >= 0
  {
    var total := live.totalBytes + delta;
    if c.op == Add then
      Counter(total, SaturatingSub(SaturatingAdd(live.reservedBytes, 65536), 65536), live.reservations,
              live.settled + [Tomb(c.opId, Protect, Create, delta, finalState, c.at, None, None, None)],
              live.deleteSettled)
    else
      Counter(total, live.reservedBytes, live.reservations, live.settled,
              PushDelete(live.deleteSettled, DeleteTomb(c.opId, delta, finalState, c.at)))
  }

  /** The settled ledger fits its file: 40 KiB for an addition, 48 KiB for a removal. */
  predicate Fits(live: Counter, c: Command, delta: int, finalState: string)
    requires live.totalBytes + delta >= 0
  {
    c.w.size(SettledAs(live, c, delta, finalState)) <= (if c.op == Add then 40 else 48) * 1024
  }

  /** The settlement behind a reservation of this command, in full. */
  lemma SettlementIs(s: State, c: Command, n: nat, delta: int, finalState: string, abort: bool)
    requires Reservation(s, c, n).Ok? && finalState != "" && 0 <= s.counter.totalBytes + delta <= U64_MAX
    ensures var live := Reclaimed(s.counter, c.w);
            && live.totalBytes == s.counter.totalBytes
            && Settle(Reservation(s, c, n).value, SettleFor(c, delta, finalState), abort, c.w) ==
               if Fits(live, c, delta, finalState)
               then Ok(Fresh(SettledAs(live, c, delta, finalState), delta, finalState)) else Err(CounterTooLarge)
  {
    hide OpIdUsed, Wellformed, Reserve, Reclaimed, Settle, CreateCount, PushDelete, Admits;
    var p, rq, srq := ProducerOf(c.op), Asked(c, n), SettleFor(c, delta, finalState);
    var counter, live := Reserve(s.counter, p, rq, c.w).value, Reclaimed(s.counter, c.w);
    var r := ReservationOf(MappingFor(p), rq);
    ReserveEffect(s.counter, p, rq, c.w);
    FreshLookups(live, counter, r);
    assert counter.reservations[|live.reservations|] == r;
    TombRoom(live, c, n);
    PaidWellformed(live, counter, r, srq);
    SettleIsPaid(counter, |live.reservations|, srq, abort, c.w);
    ReservedBytes(s, c, n);
    assert Paid(counter, |live.reservations|, r, srq) == SettledAs(live, c, delta, finalState) by {
      PaidIs(live, counter, c, n, delta, finalState);
    }
  }

  lemma TombRoom(live: Counter, c: Command, n: nat)
    requires Admits(ProducerOf(c.op), live, Asked(c, n), c.w.size(live))
    ensures c.op == Add ==> |live.settled| < MAX_SETTLED
  {
  }

  lemma ReservedBytes(s: State, c: Command, n: nat)
    requires Reservation(s, c, n).Ok?
    ensures var live, m := Reclaimed(s.counter, c.w), MappingFor(ProducerOf(c.op));
            && live.reservedBytes <= U64_MAX
            && Reservation(s, c, n).value.reservedBytes == SaturatingAdd(live.reservedBytes, m.maxBytes)
  {
    hide OpIdUsed, Reclaimed, CreateCount, Admits;
    ReclaimedWellformed(s.counter, c.w);
  }

  lemma PaidIs(live: Counter, counter: Counter, c: Command, n: nat, delta: int, finalState: string)
    requires var m := MappingFor(ProducerOf(c.op));
             && counter.totalBytes == live.totalBytes && live.reservedBytes <= U64_MAX
             && counter.reservedBytes == SaturatingAdd(live.reservedBytes, m.maxBytes)
             && counter.reservations == live.reservations + [ReservationOf(m, Asked(c, n))]
             && counter.settled == live.settled && counter.deleteSettled == live.deleteSettled
             && 0 <= live.totalBytes + delta
    ensures var r := ReservationOf(MappingFor(ProducerOf(c.op)), Asked(c, n));
            Paid(counter, |live.reservations|, r, SettleFor(c, delta, finalState)) ==
            SettledAs(live, c, delta, finalState)
  {
    hide PushDelete;
    var k := |live.reservations|;
    assert counter.reservations[..k] + counter.reservations[k + 1..] == live.reservations;
  }

  /** The listing an accepted change writes, and how many bytes longer it is. */
  ghost predicate ChangedListing(ds: seq<string>, c: Command, edited: seq<string>) {
    Proper(edited) && forall x :: x in edited <==> if x == c.digest then c.op == Add else x in ds
  }

  /**
   A wanted change, in full. The ledger may refuse the reservation. The new text is written, and the ledger then holds
   no reservation of the command but its tomb with the difference in length; `Done` is answered only with all three
   writes through. A failed replacement settles nothing under "aborted". Whatever cannot be stored leaves the
   reservation.
   */
  lemma ChangeExactly(reader: string -> Option<Manifest>, s: State, c: Command, ds: seq<string>)
    returns (edited: seq<string>)
    requires ReadsBack(reader) && Holds(s.manifest, ds) && Length(s.manifest) <= s.counter.totalBytes
    requires IsDigest(c.digest) && Wanted(ds, c) && (c.op == Add ==> |ds| < 20)
    ensures ChangedListing(ds, c, edited)
    ensures var reserved := Reservation(s, c, |ds|);
            reserved.Err? ==> Mutate(reader, s, c) == Step(s, Failed(reserved.error))
    ensures var reserved := Reservation(s, c, |ds|);
            reserved.Ok? && c.reserve != Written ==>
              Mutate(reader, s, c) ==
              Step(if c.reserve == Unsynced then State(s.manifest, reserved.value) else s, Failed(Fault))
    ensures var reserved := Reservation(s, c, |ds|);
            reserved.Ok? && c.reserve == Written && c.replace == Written ==>
              Committed(s, c, reserved.value, EncodeText(edited), Mutate(reader, s, c))
    ensures var reserved := Reservation(s, c, |ds|);
            reserved.Ok? && c.reserve == Written && c.replace != Written ==>
              Backed(s, c, reserved.value, EncodeText(edited), Mutate(reader, s, c))
  {
    hide IsDigest, LoadSet, ReadsBack, Reserve, Wanted, Reclaimed, Edited, EncodeText, Proper, Settle, PushDelete;
    LoadHolds(reader, s.manifest, ds);
    EditedExactly(ds, c);
    edited := Edited(ds, c.op, c.digest).value.value;
    HoldsProper(s.manifest, ds);
    EditedProper(ds, c.op, c.digest);
    EditedLength(s.manifest, ds, c.op, c.digest);
    var reserved := Reservation(s, c, |ds|);
    assert ReserveFor(c, edited) == Asked(c, |ds|);
    if reserved.Ok? {
      var delta := |EncodeText(edited)| - Length(s.manifest);
      TotalBounded(s.counter, ProducerOf(c.op), Asked(c, |ds|), c.w);
      if c.op == Add { AdmittedTotal(s.counter, ProducerOf(c.op), Asked(c, |ds|), c.w); }
      SettlementIs(s, c, |ds|, delta, FinalState(c.op), false);
      SettlementIs(s, c, |ds|, 0, "aborted", true);
    }
  }

  lemma HoldsProper(m: Option<string>, ds: seq<string>)
    requires Holds(m, ds)
    ensures Proper(ds)
  {
  }

  /** The file is in place; the settlement is recorded, does not fit, or is not stored. */
  ghost predicate Committed(s: State, c: Command, reserved: Counter, text: string, x: Step) {
    var live, delta := Reclaimed(s.counter, c.w), |text| - Length(s.manifest);
    var finalState := if c.op == Add then "digest present" else "digest absent";
    && live.totalBytes + delta >= 0
    && if !Fits(live, c, delta, finalState) then x == Step(State(Some(text), reserved), Failed(CounterTooLarge))
       else if c.settle == NotWritten then x == Step(State(Some(text), reserved), Failed(Fault))
       else
         x == Step(State(Some(text), SettledAs(live, c, delta, finalState)),
                   if c.settle == Written then Done(delta) else Failed(Fault))
  }

  /** The file was not replaced for certain: the reservation is given back where the ledger can be stored. */
  ghost predicate Backed(s: State, c: Command, reserved: Counter, text: string, x: Step) {
    var live := Reclaimed(s.counter, c.w);
    var stored := Fits(live, c, 0, "aborted") && c.settle != NotWritten;
    x == Step(State(if c.replace == Unsynced then Some(text) else s.manifest,
                    if stored then SettledAs(live, c, 0, "aborted") else reserved), Failed(Fault))
  }
}
