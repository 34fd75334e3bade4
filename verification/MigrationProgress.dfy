/** `migrate_all` always returns: every run is finite, and it can stop short only when no permit exists. */
module MigrationProgress {
  import opened Migration
  import opened MigrationSafety

  // ---------------------------------------------------------------- measure

  function Size(c: Config, p: Path): nat { if p in c.src then |c.src[p]| else 0 }

  /** Parts and attempts an upload has left. */
  function UploadLeft(max: nat, n: nat, size: nat, sent: nat): nat
    requires n <= max && sent <= size
  {
    (max - n) * (size + 1) + (size - sent)
  }

  lemma NextAttempt(max: nat, n: nat, size: nat, sent: nat)
    requires n < max && sent <= size
    ensures UploadLeft(max, n + 1, size, 0) < UploadLeft(max, n, size, sent)
  {
    assert (max - n) * (size + 1) == (max - n - 1) * (size + 1) + (size + 1);
  }

  /** An upper bound on the steps a task has left, its reaping included. */
  function Weight(c: Config, t: Task): nat {
    match t
    case Finished(_, _) => 1
    case Uploading(p, n, sent) =>
      if n <= c.maxRetries && |sent| <= Size(c, p) then 2 + UploadLeft(c.maxRetries, n, Size(c, p), |sent|) else 2
    case Head(p) => 3 + UploadLeft(c.maxRetries, 0, Size(c, p), 0)
  }

  function EntryWeight(c: Config, e: Entry): nat {
    match e
    case Listed(p) => Weight(c, Head(p)) + 5
    case ListError => 2
  }

  function Listing(c: Config, es: seq<Entry>): nat {
    if es == [] then 0 else EntryWeight(c, es[0]) + Listing(c, es[1..])
  }

  function PcWeight(c: Config, pc: Pc): nat {
    match pc
    case Next => 2
    case ReapFirst(e) => 1 + EntryWeight(c, e)
    case Acquire(p) => EntryWeight(c, Listed(p))
    case ReapSecond(p) => EntryWeight(c, Listed(p)) - 1
    case Bound => 3
    case FinalDrain => 1
    case ReturnedOk => 0
    case ReturnedErr(_) => 0
  }

  function TasksWeight(c: Config, tasks: map<nat, Task>, n: nat): nat {
    if n == 0 then 0
    else TasksWeight(c, tasks, n - 1) + (if n - 1 in tasks then Weight(c, tasks[n - 1]) else 0)
  }

  function Measure(c: Config, s: State): nat {
    PcWeight(c, s.pc) + Listing(c, s.remaining) + TasksWeight(c, s.tasks, s.spawned)
  }

  lemma {:induction false} SameBelow(c: Config, a: map<nat, Task>, b: map<nat, Task>, n: nat)
    requires forall i: nat | i < n :: (i in a <==> i in b) && (i in a ==> a[i] == b[i])
    ensures TasksWeight(c, a, n) == TasksWeight(c, b, n)
  {
    if n > 0 { SameBelow(c, a, b, n - 1); }
  }

  /** Changing one task changes the sum by its own weight. */
  lemma {:induction false} OneTask(c: Config, a: map<nat, Task>, b: map<nat, Task>, i: nat, n: nat)
    requires i < n && i in a && forall j: nat | j < n && j != i :: (j in a <==> j in b) && (j in a ==> a[j] == b[j])
    ensures TasksWeight(c, b, n) ==
            TasksWeight(c, a, n) - Weight(c, a[i]) + (if i in b then Weight(c, b[i]) else 0)
    ensures TasksWeight(c, a, n) >= Weight(c, a[i])
  {
    hide Weight;
    if i == n - 1 { SameBelow(c, a, b, n - 1); } else { OneTask(c, a, b, i, n - 1); }
  }

  // ------------------------------------------------------------ it decreases

  lemma LoopDecreases(c: Config, s: State, s': State)
    requires Placed(c, s) && Loop(c, s, s')
    ensures Measure(c, s') < Measure(c, s)
  {
    hide MaxBuffered, Weight;
    if s.pc.ReapSecond? {
      SpawnDecreases(c, s, s');
    }
  }

  lemma SpawnDecreases(c: Config, s: State, s': State)
    requires s.pc.ReapSecond? && Placed(c, s) && Loop(c, s, s')
    ensures Measure(c, s') < Measure(c, s)
  {
    LoopFrame(c, s, s');
    hide Weight, Placed;
    SameBelow(c, s.tasks, s'.tasks, s.spawned);
  }

  lemma ReapDecreases(c: Config, s: State, s': State, i: nat)
    requires Placed(c, s) && Joins(c, s) && Reap(s, s', i)
    ensures Measure(c, s') < Measure(c, s)
  {
    hide MaxBuffered, UploadLeft;
    assert i < s.spawned;
    OneTask(c, s.tasks, s'.tasks, i, s.spawned);
  }

  lemma WorkDecreases(c: Config, s: State, t: Task, t': Task, target': Objects)
    requires Staged(c, s, t) && Works(c, t, s.target, t', target')
    ensures Weight(c, t') < Weight(c, t)
  {
    match t
    case Head(p) =>
    case Uploading(p, n, sent) =>
      assert |sent| <= Size(c, p);
      if t'.Uploading? && t'.retries == n + 1 { NextAttempt(c.maxRetries, n, Size(c, p), |sent|); }
  }

  lemma TaskDecreases(c: Config, s: State, s': State, i: nat)
    requires Placed(c, s) && AllTracked(c, s) && TaskStep(c, s, s', i)
    ensures Measure(c, s') < Measure(c, s)
  {
    hide Weight, Works, Faithful;
    assert i < s.spawned && Tracked(c, s, i);
    WorkDecreases(c, s, s.tasks[i], s'.tasks[i], s'.target);
    OneTask(c, s.tasks, s'.tasks, i, s.spawned);
  }

  lemma StepDecreases(c: Config, s: State, s': State)
    requires Inv(c, s) && Step(c, s, s')
    ensures Measure(c, s') < Measure(c, s)
  {
    hide Placed, Slots, Counted, AllTracked, Loop, Joins, Reap, TaskStep, Measure;
    if Loop(c, s, s') {
      LoopDecreases(c, s, s');
    } else if Joins(c, s) && exists i :: Reap(s, s', i) {
      var i :| Reap(s, s', i);
      ReapDecreases(c, s, s', i);
    } else {
      var i :| TaskStep(c, s, s', i);
      TaskDecreases(c, s, s', i);
    }
  }

  /** No run is longer than the listing, the sizes and the retry limit allow. */
  lemma {:induction false} RunsAreFinite(c: Config, run: seq<State>, k: nat)
    requires ValidConfig(c) && Run(c, run) && k < |run|
    ensures Measure(c, run[k]) + k <= 2 + Listing(c, c.listing)
  {
    hide Inv, Step;
    if k > 0 {
      RunsAreFinite(c, run, k - 1);
      RunInv(c, run, k - 1);
      assert Step(c, run[k - 1], run[k - 1 + 1]);
      StepDecreases(c, run[k - 1], run[k]);
    }
  }

  // --------------------------------------------------------------- progress

  ghost predicate Stuck(c: Config, s: State) {
    !s.pc.Returned() && forall s' :: !Step(c, s, s')
  }

  /** A running task can always take a step, if only to fail. */
  lemma RunningSteps(c: Config, s: State, i: nat)
    requires !s.pc.Returned() && i in s.tasks && !s.tasks[i].Finished?
    ensures exists s' :: Step(c, s, s')
  {
    var t' := Finished(s.tasks[i].path, Panicked);
    var s' := s.(tasks := s.tasks[i := t'], permits := s.permits + 1);
    assert Works(c, s.tasks[i], s.target, t', s.target);
    assert TaskStep(c, s, s', i);
    assert Step(c, s, s');
  }

  lemma LoopStep(c: Config, s: State, s': State)
    requires Loop(c, s, s')
    ensures exists s' :: Step(c, s, s')
  {
    assert Step(c, s, s');
  }

  /** Where tasks are joined, any handle gives a step: reap it, or let it work. */
  lemma HandleSteps(c: Config, s: State, i: nat)
    requires Joins(c, s) && i in s.tasks
    ensures exists s' :: Step(c, s, s')
  {
    if s.tasks[i].Finished? {
      var r := s.tasks[i].result;
      var s' := s.(tasks := s.tasks - {i}, reaped := s.reaped + 1, summary := Recorded(s.summary, r),
                   joined := s.joined + [r],
                   pc := match r
                         case Succeeded(_, _) => s.pc
                         case Failed(_) => ReturnedErr(ObjectFailed)
                         case Panicked => ReturnedErr(TaskPanicked));
      assert Reap(s, s', i);
      assert Step(c, s, s');
    } else {
      RunningSteps(c, s, i);
    }
  }

  /** The loop can wait forever in one place only: for a permit that does not exist. */
  lemma StuckState(c: Config, s: State)
    requires Inv(c, s)
    ensures Stuck(c, s) ==> s.pc.Acquire? && c.concurrency == 0
  {
    hide MaxBuffered, Counted, AllTracked, Step;
    if Stuck(c, s) {
      match s.pc
      case Next =>
        LoopStep(c, s, if s.remaining == [] then s.(pc := FinalDrain)
                       else s.(pc := ReapFirst(s.remaining[0]), remaining := s.remaining[1..]));
      case ReapFirst(Listed(p)) => LoopStep(c, s, s.(pc := Acquire(p)));
      case ReapFirst(ListError) => LoopStep(c, s, s.(pc := ReturnedErr(ListFailed)));
      case Acquire(p) =>
        if s.permits > 0 {
          LoopStep(c, s, s.(pc := ReapSecond(p), permits := s.permits - 1));
        } else if |Running(s)| > 0 {
          var i :| i in Running(s);
          RunningSteps(c, s, i);
        }
      case ReapSecond(p) =>
        LoopStep(c, s, s.(pc := Bound, tasks := s.tasks[s.spawned := Head(p)], spawned := s.spawned + 1));
      case Bound =>
        if |s.tasks| < MaxBuffered(c) { LoopStep(c, s, s.(pc := Next)); } else { SomeHandle(c, s); }
      case FinalDrain =>
        if |s.tasks| == 0 { LoopStep(c, s, s.(pc := ReturnedOk)); } else { SomeHandle(c, s); }
    }
  }

  lemma SomeHandle(c: Config, s: State)
    requires Joins(c, s) && |s.tasks| > 0
    ensures exists s' :: Step(c, s, s')
  {
    hide MaxBuffered, Step, Joins;
    KeysCount(s.tasks);
    var i :| i in s.tasks.Keys;
    HandleSteps(c, s, i);
  }

  /**
   A run can get stuck exactly when the concurrency is zero and the listing
   starts with an object: the command line accepts that zero, and the permit the
   first object waits for never comes.
   */
  lemma StuckExactly(c: Config)
    requires ValidConfig(c)
    ensures (exists run, k: nat :: Run(c, run) && k < |run| && Stuck(c, run[k])) <==>
            c.concurrency == 0 && c.listing != [] && c.listing[0].Listed?
  {
    hide Step, Stuck;
    forall run: seq<State>, k: nat | Run(c, run) && k < |run| && Stuck(c, run[k])
      ensures c.concurrency == 0 && c.listing != [] && c.listing[0].Listed?
    {
      RunInv(c, run, k);
      StuckState(c, run[k]);
    }
    if c.concurrency == 0 && c.listing != [] && c.listing[0].Listed? {
      var run := StuckRun(c);
      assert Run(c, run) && 2 < |run| && Stuck(c, run[2]);
    }
  }

  lemma StuckRun(c: Config) returns (run: seq<State>)
    requires c.concurrency == 0 && c.listing != [] && c.listing[0].Listed?
    ensures Run(c, run) && |run| == 3 && Stuck(c, run[2])
  {
    var s0 := Init(c);
    var s1 := s0.(pc := ReapFirst(c.listing[0]), remaining := c.listing[1..]);
    var s2 := s1.(pc := Acquire(c.listing[0].path));
    run := [s0, s1, s2];
    assert Loop(c, s0, s1) && Loop(c, s1, s2);
    assert Step(c, s0, s1) && Step(c, s1, s2);
    forall s' ensures !Step(c, s2, s') {
      assert !Loop(c, s2, s') && !Joins(c, s2);
    }
  }
}
