/** Results of whole `migrate_all` runs: what is guaranteed in every state, and what an Ok return fixes. */
module MigrationOutcome {
  import opened Migration
  import opened MigrationSafety

  /** Every state of every interleaving: handles, counters, limits, and the target's contents. */
  lemma EveryState(c: Config, run: seq<State>, k: nat)
    requires ValidConfig(c) && Run(c, run) && k < |run|
    ensures var s := run[k];
            && s.spawned == s.reaped + |s.tasks|
            && s.summary.migrated + s.summary.skipped + s.summary.failed ==
                 s.reaped - (if s.pc == ReturnedErr(TaskPanicked) then 1 else 0)
            && (s.summary.failed > 0 <==> s.pc == ReturnedErr(ObjectFailed))
            && |Running(s)| <= c.concurrency && |s.tasks| <= MaxBuffered(c)
            && Faithful(c, s)
            && (s.pc.ReturnedOk? ==> forall e | e in c.listing :: e.Listed? && (c.dryRun || e.path in s.target))
  {
    RunInv(c, run, k);
    var s := run[k];
    if s.pc.ReturnedOk? {
      forall e | e in c.listing ensures e.Listed? && (c.dryRun || e.path in s.target) {
        var i :| 0 <= i < |c.listing| && c.listing[i] == e;
        assert Tracked(c, s, i);
        assert i !in s.tasks by { KeysCount(s.tasks); }
      }
    }
  }

  // ------------------------------------------------------------ the summary

  function RetriesOf(r: TaskResult): nat { if r.Panicked? then 0 else r.retries }

  function TotalRetries(rs: seq<TaskResult>): nat {
    if rs == [] then 0 else TotalRetries(rs[..|rs| - 1]) + RetriesOf(rs[|rs| - 1])
  }

  /** How many of the results are of a kind: a success of one outcome, or a failure. */
  function CountKind(rs: seq<TaskResult>, success: bool, outcome: Outcome): nat {
    if rs == [] then 0
    else
      var r := rs[|rs| - 1];
      CountKind(rs[..|rs| - 1], success, outcome) +
      (if (success && r.Succeeded? && r.outcome == outcome) || (!success && r.Failed?) then 1 else 0)
  }

  /** The counters against the results joined so far. */
  predicate Tallied(s: State) {
    && |s.joined| == s.reaped && s.summary.retried == TotalRetries(s.joined)
    && s.summary.migrated == CountKind(s.joined, true, Migrated)
    && s.summary.skipped == CountKind(s.joined, true, Skipped)
    && s.summary.failed == CountKind(s.joined, false, Skipped)
  }

  lemma LoopTallied(c: Config, s: State, s': State)
    requires Loop(c, s, s')
    ensures s'.joined == s.joined && s'.summary == s.summary && s'.reaped == s.reaped
  {
  }

  lemma ReapTallied(s: State, s': State, i: nat)
    requires Tallied(s) && Reap(s, s', i)
    ensures Tallied(s')
  {
    assert s'.joined[..|s'.joined| - 1] == s.joined;
  }

  lemma StepTallied(c: Config, s: State, s': State)
    requires Tallied(s) && Step(c, s, s')
    ensures Tallied(s')
  {
    hide Tallied, Loop, Reap, Works;
    if Loop(c, s, s') {
      LoopTallied(c, s, s');
      SameTally(s, s');
    } else if Joins(c, s) && exists i :: Reap(s, s', i) {
      var i :| Reap(s, s', i);
      ReapTallied(s, s', i);
    } else {
      SameTally(s, s');
    }
  }

  lemma SameTally(s: State, s': State)
    requires Tallied(s) && s'.joined == s.joined && s'.summary == s.summary && s'.reaped == s.reaped
    ensures Tallied(s')
  {
  }

  /** In every state of every interleaving the summary is the tally of the joined results, retries included. */
  lemma {:induction false} SummaryTallies(c: Config, run: seq<State>, k: nat)
    requires Run(c, run) && k < |run|
    ensures Tallied(run[k])
  {
    hide Step;
    if k > 0 {
      SummaryTallies(c, run, k - 1);
      StepTallied(c, run[k - 1], run[k]);
    }
  }

  /** A skip or a dry copy takes no retry; an upload at most the limit, and fails only having used it up. */
  predicate RetriesFit(c: Config, r: TaskResult) {
    match r
    case Succeeded(Skipped, n) => n == 0
    case Succeeded(Migrated, n) => n <= c.maxRetries && (c.dryRun ==> n == 0)
    case Failed(n) => n == 0 || (n == c.maxRetries && !c.dryRun)
    case Panicked => true
  }

  predicate StageFits(c: Config, t: Task) {
    match t
    case Head(_) => true
    case Uploading(_, n, _) => n <= c.maxRetries && !c.dryRun
    case Finished(_, r) => RetriesFit(c, r)
  }

  ghost predicate AllFit(c: Config, s: State) {
    (forall i | i in s.tasks :: StageFits(c, s.tasks[i])) && (forall r | r in s.joined :: RetriesFit(c, r))
  }

  lemma WorkFits(c: Config, t: Task, target: Objects, t': Task, target': Objects)
    requires StageFits(c, t) && Works(c, t, target, t', target')
    ensures StageFits(c, t')
  {
  }

  function RetriesSoFar(t: Task): nat {
    match t
    case Head(_) => 0
    case Uploading(_, n, _) => n
    case Finished(_, r) => RetriesOf(r)
  }

  /** A task reports the retries it made, and an upload is given up only when they are used up. */
  lemma WorkCounts(c: Config, t: Task, target: Objects, t': Task, target': Objects)
    requires StageFits(c, t) && Works(c, t, target, t', target')
    ensures t'.Uploading? ==> RetriesSoFar(t) <= t'.retries <= RetriesSoFar(t) + 1
    ensures t'.Uploading? && t.Uploading? && t'.retries == t.retries ==> |t'.sent| > |t.sent|
    ensures t'.Finished? && !t'.result.Panicked? ==> t'.result.retries == RetriesSoFar(t)
    ensures t.Uploading? && t'.Finished? && t'.result.Failed? ==> t.retries == c.maxRetries
  {
  }

  lemma LoopFits(c: Config, s: State, s': State)
    requires AllFit(c, s) && Loop(c, s, s')
    ensures AllFit(c, s')
  {
    hide RetriesFit;
  }

  lemma ReapFits(c: Config, s: State, s': State, i: nat)
    requires AllFit(c, s) && Reap(s, s', i)
    ensures AllFit(c, s')
  {
    hide RetriesFit, Recorded;
    assert StageFits(c, s.tasks[i]);
  }

  lemma TaskFits(c: Config, s: State, s': State, i: nat)
    requires AllFit(c, s) && TaskStep(c, s, s', i)
    ensures AllFit(c, s')
  {
    hide Works, StageFits;
    WorkFits(c, s.tasks[i], s.target, s'.tasks[i], s'.target);
    forall j | j in s'.tasks ensures StageFits(c, s'.tasks[j]) {
      if j != i { assert s'.tasks[j] == s.tasks[j]; }
    }
  }

  lemma StepFits(c: Config, s: State, s': State)
    requires AllFit(c, s) && Step(c, s, s')
    ensures AllFit(c, s')
  {
    hide AllFit, Loop, Reap, TaskStep;
    if Loop(c, s, s') {
      LoopFits(c, s, s');
    } else if Joins(c, s) && exists i :: Reap(s, s', i) {
      var i :| Reap(s, s', i);
      ReapFits(c, s, s', i);
    } else {
      var i :| TaskStep(c, s, s', i);
      TaskFits(c, s, s', i);
    }
  }

  /** The retries of every joined result are those its kind allows. */
  lemma {:induction false} RetriesBounded(c: Config, run: seq<State>, k: nat)
    requires Run(c, run) && k < |run|
    ensures AllFit(c, run[k])
  {
    hide Step;
    if k > 0 {
      RetriesBounded(c, run, k - 1);
      StepFits(c, run[k - 1], run[k]);
    }
  }

  // --------------------------------------------------------- an Ok return

  ghost function Present(c: Config): set<nat> { set i: nat | i < |c.listing| && Known(c, i) }

  ghost function Absent(c: Config): set<nat> { set i: nat | i < |c.listing| && !Known(c, i) }

  /** The target an Ok run leaves: the old objects and, unless it is a dry run, a copy of every listed one. */
  ghost predicate FinalTarget(c: Config, target: Objects) {
    && (forall p :: p in target <==> p in c.target || (!c.dryRun && Listed(p) in c.listing))
    && (forall p | p in c.target :: p in target ==> target[p] == c.target[p])
    && (forall p | p in target && p !in c.target :: p in c.src && target[p] == c.src[p])
  }

  lemma OkOutcome(c: Config, s: State)
    requires Inv(c, s) && s.pc.ReturnedOk?
    ensures FinalTarget(c, s.target)
    ensures s.summary.skipped == |Present(c)| && s.summary.migrated == |Absent(c)| && s.summary.failed == 0
  {
    KeysCount(s.tasks);
    assert s.tasks.Keys == {};
    assert ReapedKnown(c, s) == Present(c) && ReapedNew(c, s) == Absent(c);
    forall p | Listed(p) in c.listing && p !in c.target && !c.dryRun ensures p in s.target {
      var i :| 0 <= i < |c.listing| && c.listing[i] == Listed(p);
      assert Tracked(c, s, i);
    }
  }

  lemma FinalTargetUnique(c: Config, a: Objects, b: Objects)
    requires FinalTarget(c, a) && FinalTarget(c, b)
    ensures a == b
  {
    assert forall p :: p in a <==> p in b;
  }

  ghost predicate OkRun(c: Config, run: seq<State>)
    ensures OkRun(c, run) ==> run != []
  {
    Run(c, run) && run[|run| - 1].pc.ReturnedOk?
  }

  function Last(run: seq<State>): State
    requires run != []
  {
    run[|run| - 1]
  }

  /** Whatever the schedule, an Ok run ends with the same target and the same counts. */
  lemma OkRunsAgree(c: Config, a: seq<State>, b: seq<State>)
    requires ValidConfig(c) && OkRun(c, a) && OkRun(c, b)
    ensures Last(a).target == Last(b).target
    ensures Last(a).summary.migrated == Last(b).summary.migrated && Last(a).summary.skipped == Last(b).summary.skipped
  {
    hide Inv, Run, FinalTarget, Present, Absent;
    OkFacts(c, a);
    OkFacts(c, b);
    FinalTargetUnique(c, Last(a).target, Last(b).target);
  }

  /** A dry run reports the counts of the real run and writes nothing. */
  lemma DryRunPredicts(c: Config, dry: seq<State>, full: seq<State>)
    requires ValidConfig(c) && OkRun(c.(dryRun := true), dry) && OkRun(c.(dryRun := false), full)
    ensures Last(dry).target == c.target
    ensures Last(dry).summary.migrated == Last(full).summary.migrated
    ensures Last(dry).summary.skipped == Last(full).summary.skipped
  {
    hide Inv, Run, FinalTarget, Present, Absent;
    var d, r := c.(dryRun := true), c.(dryRun := false);
    OkFacts(d, dry);
    OkFacts(r, full);
    DryFacts(c);
    FinalTargetUnique(d, Last(dry).target, c.target);
  }

  lemma OkFacts(c: Config, run: seq<State>)
    requires ValidConfig(c) && OkRun(c, run)
    ensures FinalTarget(c, Last(run).target)
    ensures Last(run).summary.skipped == |Present(c)| && Last(run).summary.migrated == |Absent(c)|
  {
    hide Inv, FinalTarget, Present, Absent;
    RunInv(c, run, |run| - 1);
    OkOutcome(c, Last(run));
  }

  lemma DryFacts(c: Config)
    ensures Present(c.(dryRun := true)) == Present(c.(dryRun := false))
    ensures Absent(c.(dryRun := true)) == Absent(c.(dryRun := false))
    ensures FinalTarget(c.(dryRun := true), c.target)
  {
    var d, r := c.(dryRun := true), c.(dryRun := false);
    forall i: nat ensures Known(d, i) <==> Known(r, i) {}
  }

  /** Running again over the result skips every object and changes nothing. */
  lemma SecondRunSkips(c: Config, first: seq<State>, second: seq<State>)
    requires ValidConfig(c) && !c.dryRun && OkRun(c, first)
    requires OkRun(c.(target := Last(first).target), second)
    ensures Last(second).target == Last(first).target
    ensures Last(second).summary.migrated == 0 && Last(second).summary.skipped == |c.listing|
  {
    var c' := c.(target := Last(first).target);
    assert ValidConfig(c');
    EveryState(c, first, |first| - 1);
    OkFacts(c, first);
    OkFacts(c', second);
    forall i: nat | i < |c'.listing| ensures Known(c', i) {
      assert c.listing[i] in c.listing;
    }
    AllIndices(c');
    assert FinalTarget(c', c'.target);
    FinalTargetUnique(c', Last(second).target, c'.target);
  }

  lemma AllIndices(c: Config)
    requires forall i: nat | i < |c.listing| :: Known(c, i)
    ensures |Present(c)| == |c.listing| && |Absent(c)| == 0
  {
    hide Known;
    assert Present(c) == UpTo(|c.listing|);
    assert Absent(c) == {};
  }

  ghost function UpTo(n: nat): (r: set<nat>)
    ensures |r| == n && forall i: nat :: i in r <==> i < n
  {
    if n == 0 then {} else UpTo(n - 1) + {n - 1}
  }
}
