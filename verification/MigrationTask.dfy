/** The sequential pieces of the migration: the retry loop and the summary it is folded into. */
module MigrationTask {
  import opened Wrappers
  import opened Migration

  const BACKOFF_CAP := 16

  function Doubled(k: nat): nat {
    if k == 0 then 1 else 2 * Doubled(k - 1)
  }

  /** The wait before retry `k` (from 1), in units of the base delay. */
  function BackoffFactor(k: nat): nat
    requires k > 0
  {
    Doubled(if k - 1 < BACKOFF_CAP then k - 1 else BACKOFF_CAP)
  }

  /** The largest `Duration`, and the wait used when a product exceeds it, in nanoseconds. */
  const MAX_DURATION: nat := 0x1_0000_0000_0000_0000 * 1_000_000_000 - 1
  const CLAMPED: nat := 30 * 1_000_000_000

  /** The wait before retry `k`. */
  function Delay(base: nat, k: nat): nat
    requires k > 0
  {
    if base * BackoffFactor(k) <= MAX_DURATION then base * BackoffFactor(k) else CLAMPED
  }

  /**
   `retry_with_backoff`: `op(i)` is the result of attempt `i`. The first success is
   returned, an error only after all retries are used up, and each wait is the
   base delay doubled up to the cap, or half a minute where that overflows.
   */
  method RetryWithBackoff<T, E>(maxRetries: nat, base: nat, op: nat -> Result<T, E>)
    returns (r: Result<T, E>, retries: nat, waits: seq<nat>)
    ensures retries <= maxRetries && r == op(retries)
    ensures forall i: nat | i < retries :: op(i).Err?
    ensures r.Err? ==> retries == maxRetries
    ensures |waits| == retries && forall i: nat | i < retries :: waits[i] == Delay(base, i + 1)
  {
    retries, waits := 0, [];
    while true
      invariant retries <= maxRetries && |waits| == retries
      invariant forall i: nat | i < retries :: op(i).Err? && waits[i] == Delay(base, i + 1)
      decreases maxRetries - retries
    {
      r := op(retries);
      if r.Ok? || retries >= maxRetries { return; }
      retries := retries + 1;
      waits := waits + [Delay(base, retries)];
    }
  }

  /** The factors never shrink, double up to the cap and stop growing at `2^16`. */
  lemma BackoffGrows(k: nat)
    requires k > 0
    ensures BackoffFactor(k) <= BackoffFactor(k + 1) <= Doubled(BACKOFF_CAP)
    ensures k <= BACKOFF_CAP ==> BackoffFactor(k + 1) == 2 * BackoffFactor(k)
    ensures BackoffFactor(1) == 1 && (k > 16 ==> BackoffFactor(k) == 65536)
  {
    SixteenDoublings();
    if k < BACKOFF_CAP { DoubledGrows(k, BACKOFF_CAP); }
  }

  lemma SixteenDoublings()
    ensures Doubled(16) == 65536
  {
    assert Doubled(4) == 16;
    assert Doubled(8) == 256;
    assert Doubled(12) == 4096;
  }

  /** A wait is shorter than the one before it exactly when it is the first whose product overflows a `Duration`. */
  lemma DelayGrows(base: nat, k: nat)
    requires k > 0
    ensures Delay(base, k) <= Delay(base, k + 1) <==>
            !(base * BackoffFactor(k) <= MAX_DURATION < base * BackoffFactor(k + 1))
  {
    hide BackoffFactor;
    var f, g := BackoffFactor(k), BackoffFactor(k + 1);
    BackoffGrows(k);
    BackoffSteps(k);
    Scaled(base, f, g);
  }

  /** With the largest base delay the second wait is the clamp. */
  lemma DelayShrinks()
    ensures Delay(MAX_DURATION, 2) < Delay(MAX_DURATION, 1)
  {
    assert BackoffFactor(1) == 1 && BackoffFactor(2) == 2;
  }

  lemma BackoffSteps(k: nat)
    requires k > 0
    ensures BackoffFactor(k + 1) <= 2 * BackoffFactor(k)
  {
  }

  lemma Scaled(base: nat, f: nat, g: nat)
    requires f <= g <= 2 * f
    ensures base * f <= base * g <= 2 * (base * f)
  {
    assert base * (g - f) >= 0 && base * (2 * f - g) >= 0;
  }

  lemma {:induction false} DoubledGrows(a: nat, b: nat)
    requires a <= b
    ensures Doubled(a) <= Doubled(b)
  {
    if a < b { DoubledGrows(a, b - 1); }
  }

  class MigrationSummary {
    var migrated: nat
    var skipped: nat
    var failed: nat
    var retried: nat

    constructor ()
      ensures Value() == Summary(0, 0, 0, 0)
    {
      migrated, skipped, failed, retried := 0, 0, 0, 0;
    }

    function Value(): Summary
      reads this
    {
      Summary(migrated, skipped, failed, retried)
    }

    /** `record`: every task's retries count, whatever its result. */
    method Record(joined: TaskResult) returns (ok: bool)
      requires !joined.Panicked?
      modifies this
      ensures Value() == Recorded(old(Value()), joined)
      ensures ok <==> joined.Succeeded?
    {
      retried := retried + joined.retries;
      match joined
      case Succeeded(Skipped, _) =>
        skipped := skipped + 1;
        ok := true;
      case Succeeded(Migrated, _) =>
        migrated := migrated + 1;
        ok := true;
      case Failed(_) =>
        failed := failed + 1;
        ok := false;
    }

    /** `drain`: a panicked task fails the run without being counted. */
    method Drain(joined: TaskResult) returns (ok: bool)
      modifies this
      ensures Value() == Recorded(old(Value()), joined)
      ensures ok <==> joined.Succeeded?
    {
      if joined.Panicked? { return false; }
      ok := Record(joined);
    }
  }
}
