/** Which runs of `migrate_all` exist: exactly when one can return Ok, and exactly when a panic can end one. */
module MigrationExistence {
  import opened Migration
  import opened MigrationSafety
  import opened MigrationOutcome

  /** Some run ends in `s`. */
  ghost predicate Reached(c: Config, s: State) {
    exists run :: Run(c, run) && Last(run) == s
  }

  lemma InitReached(c: Config)
    requires Starts(c)
    ensures Reached(c, Init(c))
  {
    var run := [Init(c)];
    assert Run(c, run) && Last(run) == Init(c);
  }

  lemma Extend(c: Config, s: State, s': State)
    requires Reached(c, s) && Step(c, s, s')
    ensures Reached(c, s')
  {
    hide Step;
    var run :| Run(c, run) && Last(run) == s;
    var longer := run + [s'];
    forall k | 0 <= k < |longer| - 1 ensures Step(c, longer[k], longer[k + 1]) {
      if k < |run| - 1 { assert longer[k] == run[k] && longer[k + 1] == run[k + 1]; }
    }
    assert longer[0] == run[0];
    assert Run(c, longer) && Last(longer) == s';
  }

  lemma ExtendLoop(c: Config, s: State, s': State)
    requires Reached(c, s) && Loop(c, s, s')
    ensures Reached(c, s')
  {
    hide Reached, Loop;
    Extend(c, s, s');
  }

  lemma ExtendReap(c: Config, s: State, s': State, i: nat)
    requires Reached(c, s) && Joins(c, s) && Reap(s, s', i)
    ensures Reached(c, s')
  {
    hide Reached, Loop, Joins, Reap;
    Extend(c, s, s');
  }

  lemma ExtendTask(c: Config, s: State, s': State, i: nat)
    requires Reached(c, s) && TaskStep(c, s, s', i)
    ensures Reached(c, s')
  {
    hide Reached, Loop, TaskStep;
    Extend(c, s, s');
  }

  lemma ReachedInv(c: Config, s: State)
    requires ValidConfig(c) && Reached(c, s)
    ensures Inv(c, s)
  {
    hide Inv, Step;
    var run :| Run(c, run) && Last(run) == s;
    RunInv(c, run, |run| - 1);
  }

  // ------------------------------------------------------------ one entry

  /** Entry `k` is next and all earlier tasks are done; the last one may still wait to be joined. */
  ghost predicate AtNext(c: Config, s: State, k: nat) {
    && k <= |c.listing| && s.pc == Next && s.spawned == k && s.remaining == c.listing[k..] && s.permits == c.concurrency
    && Settled(s.tasks)
  }

  /** No task, or one that succeeded. */
  ghost predicate Settled(tasks: map<nat, Task>) {
    tasks == map[] || exists i: nat, p, r :: tasks == map[i := Finished(p, r)] && r.Succeeded?
  }

  /** Where the loop joins, a task that succeeded is joined. */
  lemma JoinSettled(c: Config, s: State) returns (s': State)
    requires Reached(c, s) && Settled(s.tasks) && Joins(c, s)
    ensures Reached(c, s') && s'.tasks == map[]
    ensures s'.pc == s.pc && s'.spawned == s.spawned && s'.remaining == s.remaining && s'.permits == s.permits
  {
    if s.tasks == map[] { return s; }
    hide Reached, Joins;
    var i: nat, p, r :| s.tasks == map[i := Finished(p, r)] && r.Succeeded?;
    s' := s.(tasks := s.tasks - {i}, reaped := s.reaped + 1, summary := Recorded(s.summary, r),
               joined := s.joined + [r]);
    assert Reap(s, s', i);
    ExtendReap(c, s, s', i);
    assert s'.tasks == map[];
  }

  /** From the loop head to the spawned task of entry `k`. */
  lemma Spawn(c: Config, s: State, k: nat) returns (s': State)
    requires Reached(c, s) && AtNext(c, s, k) && k < |c.listing| && c.listing[k].Listed? && c.concurrency >= 1
    ensures Reached(c, s') && s'.pc == Bound && s'.tasks == map[k := Head(c.listing[k].path)]
    ensures s'.spawned == k + 1 && s'.remaining == c.listing[k + 1..] && s'.permits == c.concurrency - 1
  {
    hide Reached, MaxBuffered;
    var p := c.listing[k].path;
    var s1 := s.(pc := ReapFirst(Listed(p)), remaining := c.listing[k + 1..]);
    assert s.remaining[0] == Listed(p) && s.remaining[1..] == c.listing[k + 1..];
    ExtendLoop(c, s, s1);
    var s2 := JoinSettled(c, s1);
    var s3 := s2.(pc := Acquire(p));
    ExtendLoop(c, s2, s3);
    var s4 := s3.(pc := ReapSecond(p), permits := s3.permits - 1);
    ExtendLoop(c, s3, s4);
    s' := s4.(pc := Bound, tasks := s4.tasks[k := Head(p)], spawned := k + 1);
    ExtendLoop(c, s4, s');
  }

  /** The object of a path can be migrated or skipped. */
  predicate Available(c: Config, p: Path) { c.dryRun || p in c.src || p in c.target }

  lemma Finish(c: Config, s: State, i: nat, p: Path) returns (s': State)
    requires ValidConfig(c) && Reached(c, s) && s.pc == Bound && s.tasks == map[i := Head(p)] && Available(c, p)
    ensures Reached(c, s') && s'.pc == Bound && Settled(s'.tasks) && |s'.tasks| <= 1
    ensures s'.spawned == s.spawned && s'.remaining == s.remaining && s'.permits == s.permits + 1
  {
    hide Reached, Settled;
    Obtainable(c, s, p);
    hide Available, Works;
    if p in s.target {
      s' := Move(c, s, i, Finished(p, Succeeded(Skipped, 0)), s.target);
    } else if c.dryRun {
      s' := Move(c, s, i, Finished(p, Succeeded(Migrated, 0)), s.target);
    } else {
      var s1 := Move(c, s, i, Uploading(p, 0, []), s.target);
      if c.src[p] != [] { s1 := Move(c, s1, i, Uploading(p, 0, c.src[p]), s.target); }
      s' := Move(c, s1, i, Finished(p, Succeeded(Migrated, 0)), s.target[p := c.src[p]]);
    }
    OneSettled(i, s'.tasks[i]);
  }

  lemma OneSettled(i: nat, t: Task)
    requires t.Finished? && t.result.Succeeded?
    ensures Settled(map[i := t]) && |map[i := t]| <= 1
  {
    var tasks := map[i := t];
    KeysCount(tasks);
    assert tasks.Keys == {i};
    assert tasks == map[i := Finished(t.path, t.result)];
  }

  /** A task that has just started can be taken to the end: skipped, counted in a dry run, or uploaded in one piece. */
  lemma Obtainable(c: Config, s: State, p: Path)
    requires ValidConfig(c) && Reached(c, s) && Available(c, p)
    ensures p in s.target ==> Works(c, Head(p), s.target, Finished(p, Succeeded(Skipped, 0)), s.target)
    ensures p !in s.target && c.dryRun ==> Works(c, Head(p), s.target, Finished(p, Succeeded(Migrated, 0)), s.target)
    ensures p !in s.target && !c.dryRun ==>
              && p in c.src
              && Works(c, Head(p), s.target, Uploading(p, 0, []), s.target)
              && (c.src[p] != [] ==> Works(c, Uploading(p, 0, []), s.target, Uploading(p, 0, c.src[p]), s.target))
              && Works(c, Uploading(p, 0, c.src[p]), s.target,
                       Finished(p, Succeeded(Migrated, 0)), s.target[p := c.src[p]])
  {
    hide Reached;
    ReachedInv(c, s);
    assert Faithful(c, s);
  }

  /** The only task takes one step. */
  lemma Move(c: Config, s: State, i: nat, t: Task, target: Objects) returns (s': State)
    requires Reached(c, s) && s.pc == Bound && s.tasks.Keys == {i} && Works(c, s.tasks[i], s.target, t, target)
    ensures s' == s.(tasks := map[i := t], target := target,
                     permits := if t.Finished? then s.permits + 1 else s.permits)
    ensures Reached(c, s')
  {
    hide Reached, Works;
    s' := s.(tasks := map[i := t], target := target, permits := if t.Finished? then s.permits + 1 else s.permits);
    assert s.tasks[i := t] == map[i := t];
    assert TaskStep(c, s, s', i);
    ExtendTask(c, s, s', i);
  }

  lemma Pass(c: Config, s: State, k: nat) returns (s': State)
    requires ValidConfig(c) && Reached(c, s) && AtNext(c, s, k) && k < |c.listing| && c.concurrency >= 1
    requires c.listing[k].Listed? && Available(c, c.listing[k].path)
    ensures Reached(c, s') && AtNext(c, s', k + 1)
  {
    hide Reached, Available, Settled;
    var s1 := Spawn(c, s, k);
    var s2 := Finish(c, s1, k, c.listing[k].path);
    s' := s2.(pc := Next);
    ExtendLoop(c, s2, s');
  }

  // ----------------------------------------------------------- an Ok return

  /** Every entry is an object that can be had, and the permits are allowed and enough. */
  ghost predicate CanSucceed(c: Config) {
    && Starts(c)
    && (forall e | e in c.listing :: e.Listed? && Available(c, e.path))
    && (c.concurrency >= 1 || c.listing == [])
  }

  lemma {:induction false} PassAll(c: Config, k: nat) returns (s: State)
    requires ValidConfig(c) && CanSucceed(c) && k <= |c.listing|
    ensures Reached(c, s) && AtNext(c, s, k)
    decreases k
  {
    hide Reached, Available;
    if k == 0 {
      InitReached(c);
      s := Init(c);
      assert c.listing[0..] == c.listing;
    } else {
      var s0 := PassAll(c, k - 1);
      assert c.listing[k - 1] in c.listing;
      s := Pass(c, s0, k - 1);
    }
  }

  lemma OkState(c: Config) returns (s: State)
    requires ValidConfig(c) && CanSucceed(c)
    ensures Reached(c, s) && s.pc.ReturnedOk?
  {
    hide Reached, CanSucceed, MaxBuffered;
    var s1 := PassAll(c, |c.listing|);
    var s2 := s1.(pc := FinalDrain);
    ExtendLoop(c, s1, s2);
    var s3 := JoinSettled(c, s2);
    s := s3.(pc := ReturnedOk);
    ExtendLoop(c, s3, s);
  }

  /** Without permits nothing is ever spawned. */
  lemma {:induction false} NothingSpawned(c: Config, run: seq<State>, k: nat)
    requires ValidConfig(c) && Run(c, run) && k < |run| && c.concurrency == 0
    ensures run[k].spawned == 0
  {
    hide Inv, Step;
    if k > 0 {
      NothingSpawned(c, run, k - 1);
      RunInv(c, run, k - 1);
      assert Step(c, run[k - 1], run[k - 1 + 1]);
      NoSpawn(c, run[k - 1], run[k]);
    }
  }

  lemma NoSpawn(c: Config, s: State, s': State)
    requires Inv(c, s) && Step(c, s, s') && c.concurrency == 0
    ensures s'.spawned == s.spawned
  {
    hide Placed, Counted, AllTracked, MaxBuffered, Works, Running;
  }

  /** An Ok run exists exactly when every listed object can be had and there is a permit if one is needed. */
  lemma OkExactly(c: Config)
    requires ValidConfig(c)
    ensures (exists run :: OkRun(c, run)) <==> CanSucceed(c)
  {
    hide Step, Inv;
    forall run | OkRun(c, run) ensures CanSucceed(c) {
      OkNeeds(c, run);
    }
    if CanSucceed(c) {
      var s := OkState(c);
      var run :| Run(c, run) && Last(run) == s;
      assert OkRun(c, run);
    }
  }

  lemma OkNeeds(c: Config, run: seq<State>)
    requires ValidConfig(c) && OkRun(c, run)
    ensures CanSucceed(c)
  {
    hide Run, Inv, Faithful, Running, Available, FinalTarget;
    OkStarts(c, run);
    EveryState(c, run, |run| - 1);
    OkFacts(c, run);
    RunInv(c, run, |run| - 1);
    AllSpawned(c, Last(run));
    if c.concurrency == 0 { NothingSpawned(c, run, |run| - 1); }
    forall e | e in c.listing ensures e.Listed? && Available(c, e.path) {
      FinalAvailable(c, Last(run).target, e.path);
    }
  }

  lemma OkStarts(c: Config, run: seq<State>)
    requires OkRun(c, run)
    ensures Starts(c)
  {
  }

  lemma AllSpawned(c: Config, s: State)
    requires Inv(c, s) && s.pc.ReturnedOk?
    ensures s.spawned == |c.listing|
  {
    hide Slots, Counted, AllTracked;
  }

  lemma FinalAvailable(c: Config, target: Objects, p: Path)
    requires FinalTarget(c, target) && Listed(p) in c.listing
    ensures Available(c, p)
  {
  }

  // ---------------------------------------------------------------- a panic

  /** The first task panics at once and is joined: one reaped, none counted. */
  lemma PanicState(c: Config) returns (s: State)
    requires Starts(c) && c.concurrency >= 1 && c.listing != [] && c.listing[0].Listed?
    ensures Reached(c, s) && s.pc == ReturnedErr(TaskPanicked)
    ensures s.reaped == 1 && s.summary == Summary(0, 0, 0, 0)
  {
    hide Reached;
    var p := c.listing[0].path;
    InitReached(c);
    var s0 := Init(c);
    var s1 := s0.(pc := ReapFirst(Listed(p)), remaining := c.listing[1..]);
    ExtendLoop(c, s0, s1);
    var s2 := s1.(pc := Acquire(p));
    ExtendLoop(c, s1, s2);
    var s3 := s2.(pc := ReapSecond(p), permits := s2.permits - 1);
    ExtendLoop(c, s2, s3);
    var s4 := s3.(pc := Bound, tasks := map[0 := Head(p)], spawned := 1);
    assert s3.tasks[0 := Head(p)] == map[0 := Head(p)];
    ExtendLoop(c, s3, s4);
    var s5 := Move(c, s4, 0, Finished(p, Panicked), s4.target);
    var s6 := s5.(pc := Next);
    KeysCount(s5.tasks);
    assert s5.tasks.Keys == {0};
    ExtendLoop(c, s5, s6);
    var s7 := if s6.remaining == [] then s6.(pc := FinalDrain)
              else s6.(pc := ReapFirst(s6.remaining[0]), remaining := s6.remaining[1..]);
    ExtendLoop(c, s6, s7);
    s := s7.(tasks := s7.tasks - {0}, reaped := 1, joined := s7.joined + [Panicked], pc := ReturnedErr(TaskPanicked));
    assert Reap(s7, s, 0);
    ExtendReap(c, s7, s, 0);
  }

  /** A panic can end a run exactly when a task can be spawned at all. */
  lemma PanicExactly(c: Config)
    requires ValidConfig(c)
    ensures (exists s :: Reached(c, s) && s.pc == ReturnedErr(TaskPanicked)) <==>
            Starts(c) && c.concurrency >= 1 && c.listing != [] && c.listing[0].Listed?
  {
    forall s | Reached(c, s) && s.pc == ReturnedErr(TaskPanicked)
      ensures Starts(c) && c.concurrency >= 1 && c.listing != [] && c.listing[0].Listed?
    {
      var run :| Run(c, run) && Last(run) == s;
      RunInv(c, run, |run| - 1);
      EveryState(c, run, |run| - 1);
      if c.concurrency == 0 { NothingSpawned(c, run, |run| - 1); }
    }
    if Starts(c) && c.concurrency >= 1 && c.listing != [] && c.listing[0].Listed? {
      var s := PanicState(c);
    }
  }
}
