/** `protect` and `unprotect` as they change the manifest file and the ledger step by step. */
module ProtectCommands {
  import opened Wrappers
  import opened CapacityLedger
  import opened ManifestText
  import opened ProtectedManifest

  class RestrictedRoot {
    /** The bytes of `baselines/protected.json`. */
    var manifest: Option<string>
    /** The stored `.counters.json`. */
    var counter: Counter

    constructor (manifest: Option<string>, counter: Counter)
      ensures this.manifest == manifest && this.counter == counter
    {
      this.manifest, this.counter := manifest, counter;
    }

    function Now(): State
      reads this
    {
      State(manifest, counter)
    }

    /** A settlement whose stored counter replaces the old one when the write lands. */
    method SettleLocked(rq: SettleRequest, abort: bool, w: World, write: Write) returns (r: Result<bool, Error>)
      modifies this`counter
      ensures match Settling(old(counter), rq, abort, w, write)
              case Ok(c) => counter == c && r == Ok(write == Unsynced)
              case Err(e) => counter == old(counter) && r == Err(e)
    {
      hide Settle;
      match Settle(counter, rq, abort, w) {
        case Err(e) => return Err(e);
        case Ok(Retry(_, _)) =>
        case Ok(Fresh(c, _, _)) =>
          if !write.Lands() { return Err(Fault); }
          counter := c;
      }
      return Ok(write == Unsynced);
    }

    /** `mutate_manifest`. */
    method MutateManifest(reader: string -> Option<Manifest>, c: Command) returns (r: Outcome)
      modifies this
      ensures Step(Now(), r) == Mutate(reader, old(Now()), c)
    {
      hide IsDigest, Reserve, Settling, EncodeText, LoadSet, Insert, Remove;
      if !IsDigest(c.digest) { return Failed(Rejected); }
      var beforeLen := Length(manifest);
      var loaded := LoadProtectedSet(reader, manifest);
      if loaded.Err? { return Failed(loaded.error); }
      var digests := loaded.value;
      match c.op {
        case Add =>
          if c.digest in digests { return Unchanged; }
          if |digests| >= PROTECTED_LIMIT { return Failed(Rejected); }
          digests := Insert(digests, c.digest);
        case Drop =>
          if c.digest !in digests { return Unchanged; }
          digests := Remove(digests, c.digest);
      }
      var after := EncodeText(digests);
      var reserved := Reserve(counter, ProducerOf(c.op), ReserveFor(c, digests), c.w);
      if reserved.Err? { return Failed(reserved.error); }
      if c.reserve.Lands() { counter := reserved.value; }
      if c.reserve != Written { return Failed(Fault); }

      if c.replace.Lands() { manifest := Some(after); }
      if c.replace != Written {
        var _ := SettleLocked(SettleFor(c, 0, "aborted"), true, c.w, c.settle);
        return Failed(Fault);
      }
      var delta := SignedDelta(beforeLen, |after|);
      if delta == None { return Failed(Rejected); }
      var settled := SettleLocked(SettleFor(c, delta.value, FinalState(c.op)), false, c.w, c.settle);
      match settled
      case Err(e) => return Failed(e);
      case Ok(unsynced) => return if unsynced then Failed(Fault) else Done(delta.value);
    }
  }
}
