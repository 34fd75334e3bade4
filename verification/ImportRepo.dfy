/**
 `mega2 import-repo remove` as a step relation over the cleanup ledger. `drive`
 may be interrupted at every await; other requests sweep and detach on their own;
 a call of the cleanup entry commits its detach, if any, together with its ledger
 row, and only a call without a continuation detaches.
 */
module ImportRepo {
  import opened Wrappers

  datatype CleanupState = Detached | Swept

  datatype Row = Row(path: string, repo: int, state: CleanupState)

  type Ledger = map<int, Row>

  datatype Start = ByPath | ByCleanup(id: int)

  /** `Progress`; a handle is a repository and its cleanup. */
  datatype Progress = Progress(start: Start, rounds: nat, liveBefore: Option<int>, handle: Option<(int, int)>)

  datatype Finish = Removed(repo: int, id: int) | Absent | Pending(repo: int, id: int)

  datatype Resume = Known(repo: int, id: int) | Nothing | Unknown

  /** What is answered once the primary chain is through with `primary`. */
  datatype Phase = Primary | Draining(primary: Finish)

  datatype Pc =
    | Begin
    | InCall(continuation: Option<int>, phase: Phase, detached: bool)
    | Reading(primary: Finish)
    | Done(finish: Finish)
    | Stopped(inFlight: bool)
    | Answered(resume: Resume)

  datatype Config = Config(path: string, start: Start, maxRounds: nat, mayRegister: bool)

  /** `mine` holds the ledger rows committed by this run's own calls. */
  datatype State = State(pc: Pc, progress: Progress, ledger: Ledger, live: Option<int>, mine: set<int>)

  predicate IsCleanup(c: Config, ledger: Ledger, repo: int, id: int) {
    id in ledger && ledger[id].path == c.path && ledger[id].repo == repo
  }

  predicate IsPending(c: Config, ledger: Ledger, id: int) {
    id in ledger && ledger[id].path == c.path && ledger[id].state == Detached
  }

  /** The first row `pending_cleanups_by_path` returns. */
  ghost predicate FirstPending(c: Config, ledger: Ledger, id: int) {
    IsPending(c, ledger, id) && forall j | j in ledger :: IsPending(c, ledger, j) ==> id <= j
  }

  ghost predicate NonePending(c: Config, ledger: Ledger) {
    forall id | id in ledger :: !IsPending(c, ledger, id)
  }

  ghost predicate Init(c: Config, s: State) {
    s.pc == Begin && s.progress == Progress(c.start, 0, None, None) && s.mine == {}
  }

  // ----------------------------------------------------------- the database

  /** `live` is detached: its row is deleted and the ledger row written in one transaction. */
  ghost predicate Detaches(c: Config, s: State, ledger': Ledger, id: int) {
    s.live.Some? && id !in s.ledger && ledger' == s.ledger[id := Row(c.path, s.live.value, Detached)]
  }

  /** Other requests: finish a cleanup, detach the repository, detach elsewhere, or (where allowed) register anew. */
  ghost predicate Others(c: Config, s: State, s': State) {
    || (exists id | id in s.ledger :: s' == s.(ledger := s.ledger[id := s.ledger[id].(state := Swept)]))
    || (exists id :: Detaches(c, s, s'.ledger, id) && s' == s.(ledger := s'.ledger, live := None))
    || (exists id, row: Row | id !in s.ledger && row.path != c.path :: s' == s.(ledger := s.ledger[id := row]))
    || (c.mayRegister && s.live == None && exists repo :: s' == s.(live := Some(repo)))
  }

  /** The current call commits its detach; a call does so at most once and only without a continuation. */
  ghost predicate OwnDetach(c: Config, s: State, s': State) {
    && ((s.pc.InCall? && s.pc.continuation == None && !s.pc.detached) || (s.pc.Stopped? && s.pc.inFlight))
    && exists id ::
         && Detaches(c, s, s'.ledger, id)
         && s' == s.(ledger := s'.ledger, live := None, mine := s.mine + {id},
                     pc := if s.pc.InCall? then s.pc.(detached := true) else Stopped(false))
  }

  // --------------------------------------------------------------- the run

  /** `round`: count it and call the entry. */
  function Call(s: State, continuation: Option<int>, phase: Phase): State {
    s.(progress := s.progress.(rounds := s.progress.rounds + 1), pc := InCall(continuation, phase, false))
  }

  function WithHandle(s: State, repo: int, id: int): State {
    s.(progress := s.progress.(handle := Some((repo, id))))
  }

  /** The reads in front of round 1. */
  ghost predicate Starts(c: Config, s: State, s': State) {
    && s.pc.Begin?
    && match c.start
       case ByPath => s' == Call(s.(progress := s.progress.(liveBefore := s.live)), None, Primary)
       case ByCleanup(id) =>
         var named := if id in s.ledger && s.ledger[id].path == c.path then WithHandle(s, s.ledger[id].repo, id) else s;
         s' == Call(named, Some(id), Primary)
  }

  /** A call answers. It names ledger rows of the path, and answers absent only if it detached nothing. */
  ghost predicate Returns(c: Config, s: State, s': State) {
    && s.pc.InCall?
    && match s.pc.phase
       case Draining(primary) => s' == s.(pc := Reading(primary))
       case Primary =>
         || (!s.pc.detached && s.pc.continuation == None && s' == s.(pc := Reading(Absent)))
         || (exists repo, id | IsCleanup(c, s.ledger, repo, id) && s.ledger[id].state == Swept ::
               s' == WithHandle(s, repo, id).(pc := Reading(Removed(repo, id))))
         || (exists repo, id | IsCleanup(c, s.ledger, repo, id) ::
               s' == (if s.progress.rounds >= c.maxRounds then WithHandle(s, repo, id).(pc := Done(Pending(repo, id)))
                      else Call(WithHandle(s, repo, id), Some(id), Primary)))
  }

  /** The drain loop reads the path's pending cleanups. */
  ghost predicate Drains(c: Config, s: State, s': State) {
    && s.pc.Reading?
    && (|| (NonePending(c, s.ledger) && s' == s.(pc := Done(s.pc.primary)))
        || (exists id | FirstPending(c, s.ledger, id) ::
              var h := WithHandle(s, s.ledger[id].repo, id);
              s' == (if s.progress.rounds >= c.maxRounds then h.(pc := Done(Pending(s.ledger[id].repo, id)))
                     else Call(h, Some(id), Draining(s.pc.primary)))))
  }

  /** An interrupt, or an error of any await: `drive` stops where it is. */
  ghost predicate Stops(s: State, s': State) {
    && (s.pc.Begin? || s.pc.InCall? || s.pc.Reading?)
    && s' == s.(pc := Stopped(s.pc.InCall? && s.pc.continuation == None && !s.pc.detached))
  }

  /** `resume_handle`: the handle, or what the ledger says behind the write-lock barrier, or no answer. */
  ghost predicate Answers(c: Config, s: State, s': State) {
    && s.pc.Stopped? && s'.pc.Answered? && s' == s.(pc := s'.pc)
    && var p := s.progress; var r := s'.pc.resume;
       if p.handle.Some? then r == Known(p.handle.value.0, p.handle.value.1)
       else if p.rounds == 0 || p.start.ByCleanup? then r == Nothing
       else
         || r == Unknown
         || match p.liveBefore
            case Some(repo) =>
              || (r.Known? && r.repo == repo && IsCleanup(c, s.ledger, repo, r.id))
              || (r == Nothing && forall id | id in s.ledger :: !IsCleanup(c, s.ledger, repo, id))
            case None =>
              || (r.Known? && FirstPending(c, s.ledger, r.id) && s.ledger[r.id].repo == r.repo)
              || (r == Nothing && NonePending(c, s.ledger))
  }

  ghost predicate Step(c: Config, s: State, s': State) {
    || Others(c, s, s') || OwnDetach(c, s, s') || Starts(c, s, s') || Returns(c, s, s')
    || Drains(c, s, s') || Stops(s, s') || Answers(c, s, s')
  }

  ghost predicate Run(c: Config, run: seq<State>) {
    && run != [] && Init(c, run[0])
    && forall k :: 0 <= k < |run| - 1 ==> Step(c, run[k], run[k + 1])
  }

  // -------------------------------------------------------------- invariant

  /** Ledger rows named or written by this run exist, for this path. */
  ghost predicate Named(c: Config, s: State) {
    && (s.progress.handle.Some? ==> IsCleanup(c, s.ledger, s.progress.handle.value.0, s.progress.handle.value.1))
    && (forall id | id in s.mine :: id in s.ledger && s.ledger[id].path == c.path)
  }

  /** The one call that may detach is round 1 of a run started by path. */
  ghost predicate FirstOnly(c: Config, s: State) {
    && s.progress.start == c.start
    && (s.pc.Begin? ==> s.progress.rounds == 0 && s.mine == {} && s.progress.handle == None)
    && (s.pc.InCall? || s.pc.Reading? || s.pc.Done? ==> s.progress.rounds >= 1)
    && (s.pc.InCall? && s.pc.continuation == None ==>
          c.start.ByPath? && s.progress.rounds == 1 && s.pc.phase.Primary? && s.progress.handle == None &&
          (s.mine == {} || s.pc.detached))
    && (s.pc.Stopped? && s.pc.inFlight ==>
          c.start.ByPath? && s.progress.rounds == 1 && s.progress.handle == None && s.mine == {})
    && (s.mine != {} ==> c.start.ByPath? && s.progress.rounds >= 1)
    && |s.mine| <= 1
    && s.progress.rounds <= (if c.maxRounds > 1 then c.maxRounds else 1)
  }

  /** While nobody registers, the live repository is the one read before round 1, or none. */
  ghost predicate SameRepository(c: Config, s: State) {
    !c.mayRegister && c.start.ByPath? && !s.pc.Begin? && s.progress.rounds >= 1 ==>
      && (s.live.Some? ==> s.live == s.progress.liveBefore)
      && forall id | id in s.mine :: id in s.ledger && Some(s.ledger[id].repo) == s.progress.liveBefore
  }

  /** A finish that names a cleanup names a ledger row of the path. */
  predicate FinishOk(c: Config, ledger: Ledger, f: Finish) {
    f.Absent? || IsCleanup(c, ledger, f.repo, f.id)
  }

  /** The answer given, judged against the ledger and what the run did. */
  ghost predicate AnswerOk(c: Config, s: State) {
    && (s.pc.Answered? && s.progress.handle.Some? ==>
          s.pc.resume == Known(s.progress.handle.value.0, s.progress.handle.value.1))
    && match s.pc
    case Answered(Known(repo, id)) => IsCleanup(c, s.ledger, repo, id)
    case Answered(Nothing) =>
      forall id | id in s.mine :: id in s.ledger && Some(s.ledger[id].repo) != s.progress.liveBefore
    case Done(f) => FinishOk(c, s.ledger, f)
    case Reading(f) => FinishOk(c, s.ledger, f)
    case InCall(_, Draining(f), _) => FinishOk(c, s.ledger, f)
    case _ => true
  }

  ghost predicate Inv(c: Config, s: State) {
    Named(c, s) && FirstOnly(c, s) && SameRepository(c, s) && AnswerOk(c, s)
  }
}
