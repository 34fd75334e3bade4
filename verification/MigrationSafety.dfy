/** What holds in every reachable state of `migrate_all`, in every interleaving. */
module MigrationSafety {
  import opened Migration

  // -------------------------------------------------------------- invariant

  /** The loop has taken entry `e` from the listing and not yet spawned its task. */
  predicate Holding(c: Config, s: State, e: Entry) {
    s.spawned < |c.listing| && c.listing[s.spawned] == e && s.remaining == c.listing[s.spawned + 1..]
  }

  /** The loop's place in the listing, and the listing position of every task. */
  ghost predicate Placed(c: Config, s: State) {
    && s.spawned <= |c.listing|
    && (forall i :: 0 <= i < s.spawned ==> c.listing[i].Listed?)
    && (forall i | i in s.tasks :: i < s.spawned && c.listing[i].Listed? && s.tasks[i].path == c.listing[i].path)
    && match s.pc
       case Next => s.remaining == c.listing[s.spawned..]
       case Bound => s.remaining == c.listing[s.spawned..]
       case ReapFirst(e) => Holding(c, s, e)
       case Acquire(p) => Holding(c, s, Listed(p))
       case ReapSecond(p) => Holding(c, s, Listed(p))
       case FinalDrain => s.spawned == |c.listing|
       case ReturnedOk => s.spawned == |c.listing| && |s.tasks| == 0
       case ReturnedErr(_) => true
  }

  function Running(s: State): set<nat> { set i | i in s.tasks && !s.tasks[i].Finished? }

  predicate HoldsPermit(pc: Pc) { pc.ReapSecond? }

  /** Permits: those free, those held by running tasks, and the one the loop may hold. */
  ghost predicate Slots(c: Config, s: State) {
    && (s.pc.ReturnedErr? ==> |Running(s)| + s.permits <= c.concurrency)
    && (!s.pc.ReturnedErr? ==> |Running(s)| + s.permits + (if HoldsPermit(s.pc) then 1 else 0) == c.concurrency)
    && |s.tasks| <= MaxBuffered(c)
    && (s.pc.Next? || s.pc.ReapFirst? || s.pc.Acquire? || s.pc.ReapSecond? ==> |s.tasks| < MaxBuffered(c))
  }

  /** Spawned and already reaped. */
  function Reaped(s: State): set<nat> { set i: nat | i < s.spawned && i !in s.tasks }

  ghost predicate Known(c: Config, i: nat) {
    i < |c.listing| && c.listing[i].Listed? && c.listing[i].path in c.target
  }

  ghost function ReapedKnown(c: Config, s: State): set<nat> { set i | i in Reaped(s) && Known(c, i) }

  ghost function ReapedNew(c: Config, s: State): set<nat> { set i | i in Reaped(s) && !Known(c, i) }

  /** Handles and counters. */
  ghost predicate Counted(c: Config, s: State) {
    && s.spawned == s.reaped + |s.tasks|
    && match s.pc
       case ReturnedErr(ObjectFailed) => s.summary.failed == 1 && s.summary.migrated + s.summary.skipped + 1 == s.reaped
       case ReturnedErr(TaskPanicked) => s.summary.failed == 0 && s.summary.migrated + s.summary.skipped + 1 == s.reaped
       case _ =>
         && s.summary.failed == 0 && s.summary.migrated + s.summary.skipped == s.reaped
         && s.summary.skipped == |ReapedKnown(c, s)| && s.summary.migrated == |ReapedNew(c, s)|
  }

  predicate Untouched(c: Config, s: State, p: Path) { p in s.target <==> p in c.target }

  predicate Arrived(c: Config, s: State, p: Path) {
    p !in c.target && (if c.dryRun then p !in s.target else p in s.target)
  }

  /** What a task's stage says about its object. */
  ghost predicate Staged(c: Config, s: State, t: Task) {
    match t
    case Head(p) => Untouched(c, s, p)
    case Uploading(p, n, sent) =>
      && p !in c.target && !c.dryRun && n <= c.maxRetries
      && (sent == [] || (p in c.src && sent <= c.src[p]))
    case Finished(p, Succeeded(Skipped, _)) => p in c.target
    case Finished(p, Succeeded(Migrated, _)) => Arrived(c, s, p)
    case Finished(p, _) => c.dryRun ==> Untouched(c, s, p)
  }

  /** The object of every listing position, according to how far it got. */
  ghost predicate Tracked(c: Config, s: State, i: nat)
    requires i < |c.listing| && c.listing[i].Listed?
  {
    var p := c.listing[i].path;
    if i >= s.spawned then Untouched(c, s, p)
    else if i in s.tasks then s.tasks[i].path == p && Staged(c, s, s.tasks[i])
    else s.pc.ReturnedErr? || p in c.target || Arrived(c, s, p)
  }

  /** Old objects untouched, new ones faithful copies of listed objects, none in a dry run. */
  ghost predicate Faithful(c: Config, s: State) {
    && (forall p | p in c.target :: p in s.target && s.target[p] == c.target[p])
    && (forall p | p in s.target && p !in c.target ::
          !c.dryRun && p in c.src && s.target[p] == c.src[p] && Listed(p) in c.listing)
  }

  ghost predicate AllTracked(c: Config, s: State) {
    Faithful(c, s) && forall i: nat | i < |c.listing| && c.listing[i].Listed? :: Tracked(c, s, i)
  }

  ghost predicate Inv(c: Config, s: State) {
    Placed(c, s) && Slots(c, s) && Counted(c, s) && AllTracked(c, s)
  }

  // ------------------------------------------------------------- set facts

  lemma KeysCount<V>(m: map<nat, V>)
    ensures |m| == |m.Keys|
  {
  }

  lemma AddKey<V>(m: map<nat, V>, i: nat, v: V)
    ensures i in m ==> |m[i := v]| == |m|
    ensures i !in m ==> |m[i := v]| == |m| + 1
  {
    assert m[i := v].Keys == m.Keys + {i};
  }

  lemma DropKey<V>(m: map<nat, V>, i: nat)
    requires i in m
    ensures |m - {i}| == |m| - 1
  {
    assert (m - {i}).Keys == m.Keys - {i};
  }

  lemma InitInv(c: Config)
    ensures Inv(c, Init(c))
  {
    var s := Init(c);
    assert Running(s) == {} && Reaped(s) == {};
    assert ReapedKnown(c, s) == {} && ReapedNew(c, s) == {};
  }

  // ------------------------------------------------- steps of the listing loop

  lemma LoopPlaced(c: Config, s: State, s': State)
    requires Placed(c, s) && Loop(c, s, s')
    ensures Placed(c, s')
  {
    if s.pc.ReapSecond? {
      SpawnPlaced(c, s, s');
    } else if s.pc.Next? {
      NextPlaced(c, s, s');
    } else {
      hide MaxBuffered;
      assert s'.tasks == s.tasks && s'.spawned == s.spawned && s'.remaining == s.remaining;
    }
  }

  lemma NextPlaced(c: Config, s: State, s': State)
    requires s.pc.Next? && Placed(c, s) && Loop(c, s, s')
    ensures Placed(c, s')
  {
    hide MaxBuffered;
    if s.remaining != [] {
      assert s.remaining[0] == c.listing[s.spawned] && s.remaining[1..] == c.listing[s.spawned + 1..];
    }
  }

  lemma SpawnPlaced(c: Config, s: State, s': State)
    requires s.pc.ReapSecond? && Placed(c, s) && Loop(c, s, s')
    ensures Placed(c, s')
  {
    LoopFrame(c, s, s');
    assert s'.remaining == s.remaining;
    hide MaxBuffered, Loop;
    forall i | i in s'.tasks
      ensures i < s'.spawned && c.listing[i].Listed? && s'.tasks[i].path == c.listing[i].path
    {
      if i != s.spawned { assert i in s.tasks && s'.tasks[i] == s.tasks[i]; }
    }
  }

  lemma LoopSlots(c: Config, s: State, s': State)
    requires Placed(c, s) && Slots(c, s) && Loop(c, s, s')
    ensures Slots(c, s')
  {
    if s.pc.ReapSecond? {
      SpawnSlots(c, s, s');
    } else {
      hide MaxBuffered, Placed;
      assert s'.tasks == s.tasks;
      assert Running(s') == Running(s);
    }
  }

  lemma SpawnSlots(c: Config, s: State, s': State)
    requires s.pc.ReapSecond? && Placed(c, s) && Slots(c, s) && Loop(c, s, s')
    ensures Slots(c, s')
  {
    LoopFrame(c, s, s');
    hide MaxBuffered, Placed, Loop, Running;
    SpawnRunning(s, s');
  }

  lemma SpawnRunning(s: State, s': State)
    requires s.pc.ReapSecond? && s.spawned !in s.tasks && s'.tasks == s.tasks[s.spawned := Head(s.pc.path)]
    ensures |Running(s')| == |Running(s)| + 1 && |s'.tasks| == |s.tasks| + 1
  {
    var t := Head(s.pc.path);
    AddKey(s.tasks, s.spawned, t);
    forall i ensures i in Running(s') <==> i in Running(s) + {s.spawned} {
      if i in s.tasks { assert s'.tasks[i] == s.tasks[i]; }
    }
    assert Running(s') == Running(s) + {s.spawned};
    assert s.spawned !in Running(s);
  }

  lemma LoopCounted(c: Config, s: State, s': State)
    requires Placed(c, s) && Counted(c, s) && Loop(c, s, s')
    ensures Counted(c, s')
  {
    LoopFrame(c, s, s');
    LoopSummary(c, s, s');
    hide Placed, Loop;
    if s.pc.ReapSecond? { SpawnRunning(s, s'); }
    assert Reaped(s') == Reaped(s);
    hide Reaped, Known;
    assert ReapedKnown(c, s') == ReapedKnown(c, s) && ReapedNew(c, s') == ReapedNew(c, s);
  }

  lemma LoopSummary(c: Config, s: State, s': State)
    requires Loop(c, s, s')
    ensures s'.summary == s.summary && s'.reaped == s.reaped
    ensures s'.pc.ReturnedErr? ==> s'.pc == ReturnedErr(ListFailed)
    ensures !s.pc.ReturnedErr?
  {
    hide MaxBuffered;
  }

  /** What the listing loop does to tasks and objects: nothing, or one spawn. */
  lemma LoopFrame(c: Config, s: State, s': State)
    requires Placed(c, s) && Loop(c, s, s')
    ensures s'.target == s.target && (s.pc.ReturnedErr? ==> s'.pc.ReturnedErr?)
    ensures !s.pc.ReapSecond? ==> s'.tasks == s.tasks && s'.spawned == s.spawned
    ensures s.pc.ReapSecond? ==>
            s.spawned !in s.tasks && s.spawned < |c.listing| && c.listing[s.spawned] == Listed(s.pc.path)
    ensures s.pc.ReapSecond? ==> s'.spawned == s.spawned + 1 && s'.tasks == s.tasks[s.spawned := Head(s.pc.path)]
    ensures s.pc.ReapSecond? ==> s'.pc == Bound && s'.permits == s.permits
  {
    hide MaxBuffered;
  }

  lemma LoopObjects(c: Config, s: State, s': State)
    requires Placed(c, s) && AllTracked(c, s) && Loop(c, s, s')
    ensures AllTracked(c, s')
  {
    LoopFrame(c, s, s');
    hide Placed, Loop;
    forall i: nat | i < |c.listing| && c.listing[i].Listed? ensures Tracked(c, s', i) {
      assert Tracked(c, s, i);
      SameTarget(c, s, s');
    }
  }

  lemma SameTarget(c: Config, s: State, s': State)
    requires s'.target == s.target
    ensures forall t :: Staged(c, s, t) ==> Staged(c, s', t)
    ensures Faithful(c, s) ==> Faithful(c, s')
  {
  }

  // ------------------------------------------------------------------ reaping

  lemma ReapPlaced(c: Config, s: State, s': State, i: nat)
    requires Placed(c, s) && Joins(c, s) && Reap(s, s', i)
    ensures Placed(c, s')
  {
    hide MaxBuffered;
  }

  lemma ReapSlots(c: Config, s: State, s': State, i: nat)
    requires Slots(c, s) && Joins(c, s) && Reap(s, s', i)
    ensures Slots(c, s')
  {
    hide MaxBuffered;
    DropKey(s.tasks, i);
    assert Running(s') == Running(s);
  }

  /** Reaping moves exactly one position. */
  lemma ReapedSets(c: Config, s: State, s': State, i: nat)
    requires i < s.spawned && Reap(s, s', i)
    ensures i !in Reaped(s) && Reaped(s') == Reaped(s) + {i}
    ensures Known(c, i) ==> |ReapedKnown(c, s')| == |ReapedKnown(c, s)| + 1 && ReapedNew(c, s') == ReapedNew(c, s)
    ensures !Known(c, i) ==> ReapedKnown(c, s') == ReapedKnown(c, s) && |ReapedNew(c, s')| == |ReapedNew(c, s)| + 1
  {
    hide Known, Recorded;
    assert Reaped(s') == Reaped(s) + {i};
    if Known(c, i) {
      assert ReapedKnown(c, s') == ReapedKnown(c, s) + {i} && ReapedNew(c, s') == ReapedNew(c, s);
    } else {
      assert ReapedKnown(c, s') == ReapedKnown(c, s) && ReapedNew(c, s') == ReapedNew(c, s) + {i};
    }
  }

  lemma ReapCounted(c: Config, s: State, s': State, i: nat)
    requires Placed(c, s) && Counted(c, s) && AllTracked(c, s) && Joins(c, s) && Reap(s, s', i)
    ensures Counted(c, s')
  {
    hide MaxBuffered, AllTracked, Placed, Known, ReapedKnown, ReapedNew;
    DropKey(s.tasks, i);
    ReapedAt(c, s, i);
    ReapedSets(c, s, s', i);
    match s.tasks[i].result
    case Succeeded(_, _) =>
    case Failed(_) =>
    case Panicked =>
  }

  /** A successful result says whether the object was there to begin with. */
  lemma ReapedAt(c: Config, s: State, i: nat)
    requires Placed(c, s) && AllTracked(c, s) && i in s.tasks && s.tasks[i].Finished?
    ensures i < s.spawned && i < |c.listing|
    ensures s.tasks[i].result.Succeeded? ==> (Known(c, i) <==> s.tasks[i].result.outcome.Skipped?)
  {
    hide Faithful;
    assert Tracked(c, s, i);
  }

  lemma ReapObjects(c: Config, s: State, s': State, i: nat)
    requires Placed(c, s) && AllTracked(c, s) && Joins(c, s) && Reap(s, s', i)
    ensures AllTracked(c, s')
  {
    hide MaxBuffered;
    assert s'.target == s.target;
    forall j: nat | j < |c.listing| && c.listing[j].Listed? ensures Tracked(c, s', j) {
      assert Tracked(c, s, j);
    }
  }

  // -------------------------------------------------------------------- tasks

  lemma TaskPlaced(c: Config, s: State, s': State, i: nat)
    requires Placed(c, s) && TaskStep(c, s, s', i)
    ensures Placed(c, s')
  {
    AddKey(s.tasks, i, s'.tasks[i]);
  }

  lemma TaskSlots(c: Config, s: State, s': State, i: nat)
    requires Slots(c, s) && TaskStep(c, s, s', i)
    ensures Slots(c, s')
  {
    hide MaxBuffered;
    AddKey(s.tasks, i, s'.tasks[i]);
    if s'.tasks[i].Finished? {
      assert Running(s') == Running(s) - {i} && i in Running(s);
    } else {
      assert Running(s') == Running(s);
    }
  }

  lemma TaskCounted(c: Config, s: State, s': State, i: nat)
    requires Counted(c, s) && TaskStep(c, s, s', i)
    ensures Counted(c, s')
  {
    AddKey(s.tasks, i, s'.tasks[i]);
    assert Reaped(s') == Reaped(s);
    assert ReapedKnown(c, s') == ReapedKnown(c, s) && ReapedNew(c, s') == ReapedNew(c, s);
  }

  /** A step of one task leaves every other object alone. */
  lemma TaskTarget(c: Config, s: State, s': State, i: nat)
    requires TaskStep(c, s, s', i)
    ensures forall p | p != s.tasks[i].path :: (p in s'.target <==> p in s.target)
    ensures forall p | p != s.tasks[i].path && p in s.target :: s'.target[p] == s.target[p]
  {
  }

  lemma TaskFaithful(c: Config, s: State, s': State, i: nat)
    requires Placed(c, s) && AllTracked(c, s) && TaskStep(c, s, s', i)
    ensures Faithful(c, s')
  {
    var t := s.tasks[i];
    assert Tracked(c, s, i);
    assert Listed(t.path) in c.listing by { assert c.listing[i] == Listed(t.path); }
  }

  lemma TaskStaged(c: Config, s: State, s': State, i: nat)
    requires TaskStep(c, s, s', i) && Staged(c, s, s.tasks[i]) && Faithful(c, s)
    ensures Staged(c, s', s'.tasks[i]) && s'.tasks[i].path == s.tasks[i].path
  {
  }

  lemma StagedElsewhere(c: Config, s: State, s': State, t: Task)
    requires Staged(c, s, t) && (t.path in s'.target <==> t.path in s.target)
    ensures Staged(c, s', t)
  {
  }

  lemma TaskObjects(c: Config, s: State, s': State, i: nat)
    requires ValidConfig(c) && Placed(c, s) && AllTracked(c, s) && TaskStep(c, s, s', i)
    ensures AllTracked(c, s')
  {
    TaskFaithful(c, s, s', i);
    TaskTarget(c, s, s', i);
    hide Faithful, Works, Staged;
    forall j: nat | j < |c.listing| && c.listing[j].Listed? ensures Tracked(c, s', j) {
      assert Tracked(c, s, j);
      if j == i {
        TaskStaged(c, s, s', i);
      } else {
        assert c.listing[j] != c.listing[i];
        if j in s.tasks { StagedElsewhere(c, s, s', s.tasks[j]); }
      }
    }
  }

  // ---------------------------------------------------------------- every run

  lemma StepInv(c: Config, s: State, s': State)
    requires ValidConfig(c) && Inv(c, s) && Step(c, s, s')
    ensures Inv(c, s')
  {
    hide Placed, Slots, Counted, AllTracked, Loop, Joins, Reap, TaskStep;
    if Loop(c, s, s') {
      LoopPlaced(c, s, s');
      LoopSlots(c, s, s');
      LoopCounted(c, s, s');
      LoopObjects(c, s, s');
    } else if Joins(c, s) && exists i :: Reap(s, s', i) {
      var i :| Reap(s, s', i);
      ReapPlaced(c, s, s', i);
      ReapSlots(c, s, s', i);
      ReapCounted(c, s, s', i);
      ReapObjects(c, s, s', i);
    } else {
      var i :| TaskStep(c, s, s', i);
      TaskPlaced(c, s, s', i);
      TaskSlots(c, s, s', i);
      TaskCounted(c, s, s', i);
      TaskObjects(c, s, s', i);
    }
  }

  lemma {:induction false} RunInv(c: Config, run: seq<State>, k: nat)
    requires ValidConfig(c) && Run(c, run) && k < |run|
    ensures Inv(c, run[k])
  {
    hide Inv, Step;
    InitInv(c);
    if k > 0 {
      RunInv(c, run, k - 1);
      assert Step(c, run[k - 1], run[k - 1 + 1]);
      StepInv(c, run[k - 1], run[k]);
    }
  }
}
