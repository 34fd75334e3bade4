/** What every run of `import-repo remove` guarantees, wherever an interrupt or error lands. */
module ImportRepoSafety {
  import opened Wrappers
  import opened ImportRepo

  /** Ledger rows are never deleted and never change path or repository. */
  ghost predicate Grows(a: Ledger, b: Ledger) {
    forall id | id in a :: id in b && b[id].path == a[id].path && b[id].repo == a[id].repo
  }

  lemma DetachesGrows(c: Config, s: State, ledger': Ledger, id: int)
    requires Detaches(c, s, ledger', id)
    ensures Grows(s.ledger, ledger') && IsCleanup(c, ledger', s.live.value, id)
  {
  }

  lemma OthersFrame(c: Config, s: State, s': State)
    requires Others(c, s, s')
    ensures s' == s.(ledger := s'.ledger, live := s'.live) && Grows(s.ledger, s'.ledger)
    ensures !c.mayRegister && s'.live.Some? ==> s'.live == s.live
  {
  }

  lemma GrowsNamed(c: Config, s: State, s': State)
    requires s' == s.(ledger := s'.ledger, live := s'.live) && Grows(s.ledger, s'.ledger)
    requires Named(c, s) && AnswerOk(c, s)
    ensures Named(c, s') && AnswerOk(c, s')
  {
  }

  lemma OthersInv(c: Config, s: State, s': State)
    requires Inv(c, s) && Others(c, s, s')
    ensures Inv(c, s')
  {
    OthersFrame(c, s, s');
    hide Others;
    GrowsNamed(c, s, s');
    assert FirstOnly(c, s');
  }

  lemma OwnDetachInv(c: Config, s: State, s': State)
    requires Inv(c, s) && OwnDetach(c, s, s')
    ensures Inv(c, s')
  {
    var id :| Detaches(c, s, s'.ledger, id)
      && s' == s.(ledger := s'.ledger, live := None, mine := s.mine + {id},
                  pc := if s.pc.InCall? then s.pc.(detached := true) else Stopped(false));
    DetachesGrows(c, s, s'.ledger, id);
    hide OwnDetach, Detaches;
    assert s.mine == {};
    assert s'.mine == {id};
  }

  lemma StartsInv(c: Config, s: State, s': State)
    requires Inv(c, s) && Starts(c, s, s')
    ensures Inv(c, s')
  {
  }

  lemma ReturnsInv(c: Config, s: State, s': State)
    requires Inv(c, s) && Returns(c, s, s')
    ensures Inv(c, s')
  {
  }

  lemma DrainsInv(c: Config, s: State, s': State)
    requires Inv(c, s) && Drains(c, s, s')
    ensures Inv(c, s')
  {
  }

  lemma StopsInv(c: Config, s: State, s': State)
    requires Inv(c, s) && Stops(s, s')
    ensures Inv(c, s')
  {
  }

  lemma AnswersInv(c: Config, s: State, s': State)
    requires Inv(c, s) && Answers(c, s, s')
    ensures Inv(c, s')
  {
  }

  lemma StepInv(c: Config, s: State, s': State)
    requires Inv(c, s) && Step(c, s, s')
    ensures Inv(c, s')
  {
    hide Inv, Others, OwnDetach, Starts, Returns, Drains, Stops, Answers;
    if Others(c, s, s') { OthersInv(c, s, s'); }
    else if OwnDetach(c, s, s') { OwnDetachInv(c, s, s'); }
    else if Starts(c, s, s') { StartsInv(c, s, s'); }
    else if Returns(c, s, s') { ReturnsInv(c, s, s'); }
    else if Drains(c, s, s') { DrainsInv(c, s, s'); }
    else if Stops(s, s') { StopsInv(c, s, s'); }
    else { AnswersInv(c, s, s'); }
  }

  lemma {:induction false} RunInv(c: Config, run: seq<State>, k: nat)
    requires Run(c, run) && k < |run|
    ensures Inv(c, run[k])
  {
    if k > 0 {
      RunInv(c, run, k - 1);
      hide Inv, Step;
      assert Step(c, run[k - 1], run[k - 1 + 1]);
      StepInv(c, run[k - 1], run[k]);
    }
  }

  // ------------------------------------------------------------------ results

  /** Every state: at most `max_rounds` calls, one of which may detach, and only as round 1 of a run by path. */
  lemma CallsBounded(c: Config, run: seq<State>, k: nat)
    requires Run(c, run) && k < |run| && c.maxRounds >= 1
    ensures var s := run[k];
            && s.progress.rounds <= c.maxRounds && |s.mine| <= 1
            && (s.pc.InCall? && s.pc.continuation == None ==> c.start.ByPath? && s.progress.rounds == 1)
            && (s.mine != {} ==> c.start.ByPath?)
  {
    RunInv(c, run, k);
  }

  /** An answer that names a cleanup names a ledger row of the path, and once a round named one, the answer does. */
  lemma ResumeIsReal(c: Config, run: seq<State>, k: nat)
    requires Run(c, run) && k < |run| && run[k].pc.Answered?
    ensures var s := run[k];
            && (s.pc.resume.Known? ==> IsCleanup(c, s.ledger, s.pc.resume.repo, s.pc.resume.id))
            && (s.progress.handle.Some? ==> s.pc.resume == Known(s.progress.handle.value.0, s.progress.handle.value.1))
  {
    RunInv(c, run, k);
  }

  /** "Nothing" never hides the detach of the repository that was live before round 1. */
  lemma NothingHidesNoneLiveBefore(c: Config, run: seq<State>, k: nat)
    requires Run(c, run) && k < |run| && run[k].pc == Answered(Nothing)
    ensures var s := run[k];
            forall id | id in s.mine :: id in s.ledger && Some(s.ledger[id].repo) != s.progress.liveBefore
    ensures !c.mayRegister ==> run[k].mine == {}
  {
    RunInv(c, run, k);
    if !c.mayRegister {
      assert forall id :: id !in run[k].mine;
      assert run[k].mine == {};
    }
  }

  ghost predicate Misreports(c: Config, run: seq<State>) {
    Run(c, run) && run[|run| - 1].pc == Answered(Nothing) && run[|run| - 1].mine != {}
  }

  /**
   "The ImportRepo is unchanged" can be wrong exactly when the run was started by
   path and the path may be registered again while it runs.
   */
  lemma UnchangedExactly(c: Config)
    ensures (exists run :: Misreports(c, run)) <==> c.start.ByPath? && c.mayRegister
  {
    forall run | Misreports(c, run) ensures c.start.ByPath? && c.mayRegister {
      NothingHidesNoneLiveBefore(c, run, |run| - 1);
      RunInv(c, run, |run| - 1);
    }
    if c.start.ByPath? && c.mayRegister {
      var run := ReplacedMidway(c);
      assert Misreports(c, run);
    }
  }

  /** Registered after the read, detached by round 1, swept by another request, then interrupted. */
  lemma ReplacedMidway(c: Config) returns (run: seq<State>)
    requires c.start.ByPath? && c.mayRegister
    ensures Misreports(c, run)
  {
    var s0 := State(Begin, Progress(c.start, 0, None, None), map[], None, {});
    var s1 := Call(s0, None, Primary);
    var s2 := s1.(live := Some(7));
    var detached: Ledger := map[1 := Row(c.path, 7, Detached)];
    var s3 := s2.(ledger := detached, live := None, mine := {1}, pc := s2.pc.(detached := true));
    var s4 := s3.(ledger := detached[1 := Row(c.path, 7, Swept)]);
    var s5 := s4.(pc := Stopped(false));
    var s6 := s5.(pc := Answered(Nothing));
    run := [s0, s1, s2, s3, s4, s5, s6];
    MidwaySteps(c, s0, s1, s2, s3, s4, s5, s6, detached);
    assert Step(c, run[0], run[1]) && Step(c, run[1], run[2]) && Step(c, run[2], run[3]);
    assert Step(c, run[3], run[4]) && Step(c, run[4], run[5]) && Step(c, run[5], run[6]);
  }

  lemma MidwaySteps(
      c: Config, s0: State, s1: State, s2: State, s3: State, s4: State, s5: State, s6: State, detached: Ledger)
    requires c.start.ByPath? && c.mayRegister
    requires s0 == State(Begin, Progress(c.start, 0, None, None), map[], None, {})
    requires s1 == Call(s0, None, Primary) && s2 == s1.(live := Some(7))
    requires detached == map[1 := Row(c.path, 7, Detached)]
    requires s3 == s2.(ledger := detached, live := None, mine := {1}, pc := s2.pc.(detached := true))
    requires s4 == s3.(ledger := detached[1 := Row(c.path, 7, Swept)])
    requires s5 == s4.(pc := Stopped(false)) && s6 == s5.(pc := Answered(Nothing))
    ensures Step(c, s0, s1) && Step(c, s1, s2) && Step(c, s2, s3)
    ensures Step(c, s3, s4) && Step(c, s4, s5) && Step(c, s5, s6)
  {
    assert Starts(c, s0, s1);
    assert Others(c, s1, s2);
    assert OwnDetach(c, s2, s3) by {
      assert Detaches(c, s2, s3.ledger, 1);
      assert s2.mine + {1} == {1};
    }
    assert Others(c, s3, s4) by {
      assert 1 in s3.ledger && s4 == s3.(ledger := s3.ledger[1 := s3.ledger[1].(state := Swept)]);
    }
    assert Stops(s4, s5);
    assert Answers(c, s5, s6);
  }

  /** The read behind a Removed or Absent finish. */
  ghost predicate Drained(c: Config, run: seq<State>, j: nat, f: Finish) {
    j < |run| && run[j].pc == Reading(f) && NonePending(c, run[j].ledger)
  }

  /** Removed and Absent are reported only after a read that showed no pending cleanup of the path. */
  lemma {:induction false} FinishedMeansDrained(c: Config, run: seq<State>, k: nat)
    requires Run(c, run) && k < |run| && run[k].pc.Done? && !run[k].pc.finish.Pending?
    ensures exists j: nat :: j < k && Drained(c, run, j, run[k].pc.finish)
  {
    assert Step(c, run[k - 1], run[k - 1 + 1]);
    if run[k - 1].pc == run[k].pc {
      FinishedMeansDrained(c, run, k - 1);
    } else {
      LastStep(c, run[k - 1], run[k]);
      assert Drained(c, run, k - 1, run[k].pc.finish);
    }
  }

  lemma LastStep(c: Config, s: State, s': State)
    requires Step(c, s, s') && s'.pc.Done? && !s'.pc.finish.Pending? && s.pc != s'.pc
    ensures s.pc == Reading(s'.pc.finish) && NonePending(c, s.ledger)
  {
    hide IsCleanup, FirstPending;
  }

  /** What an interrupted run may answer, from what it knew and what the ledger held when it was read. */
  ghost predicate Justified(c: Config, s: State, r: Resume) {
    var p := s.progress;
    var asked := p.handle == None && p.rounds > 0 && c.start.ByPath?;
    match r
    case Unknown => asked
    case Known(repo, id) =>
      || p.handle == Some((repo, id))
      || (&& asked && id in s.ledger && s.ledger[id].path == c.path && s.ledger[id].repo == repo
          && (p.liveBefore.Some? ==> p.liveBefore == Some(repo))
          && (p.liveBefore.None? ==>
                && s.ledger[id].state == Detached
                && forall j | j in s.ledger && s.ledger[j].path == c.path && s.ledger[j].state == Detached :: id <= j))
    case Nothing =>
      && p.handle == None
      && (asked ==>
            forall j | j in s.ledger && s.ledger[j].path == c.path ::
              if p.liveBefore.Some? then p.liveBefore != Some(s.ledger[j].repo) else s.ledger[j].state == Swept)
  }

  /** Every answer of an interrupted run was justified when it was given. */
  lemma {:induction false} AnswerJustified(c: Config, run: seq<State>, k: nat)
    requires Run(c, run) && k < |run| && run[k].pc.Answered?
    ensures exists j: nat :: j < k && run[j].pc.Stopped? && Justified(c, run[j], run[k].pc.resume)
  {
    hide Justified;
    assert Step(c, run[k - 1], run[k - 1 + 1]);
    if run[k - 1].pc == run[k].pc {
      AnswerJustified(c, run, k - 1);
    } else {
      RunInv(c, run, k - 1);
      AnswerStep(c, run[k - 1], run[k]);
    }
  }

  lemma AnswerStep(c: Config, s: State, s': State)
    requires Inv(c, s) && Step(c, s, s') && s'.pc.Answered? && s.pc != s'.pc
    ensures s.pc.Stopped? && Justified(c, s, s'.pc.resume)
  {
    assert s.progress.start == c.start;
  }
}
