/**
 `drive` and `round` as written, against arbitrary answers: every read and every
 call of the cleanup entry may return anything. What the run did is kept as a
 list of events.
 */
module ImportRepoDriver {
  import opened Wrappers
  import opened ImportRepo

  datatype Outcome = OutRemoved(repo: int, id: int) | OutPending(repo: int, id: int) | OutAbsent

  /** The `n`-th answer of each kind; an error answer carries its message. */
  datatype Answers = Answers(
    find: Result<Option<int>, string>,
    byId: Result<Option<(int, bool)>, string>,
    call: nat -> Result<Outcome, string>,
    pending: nat -> Result<seq<(int, int)>, string>)

  /** What the run did, in order: entry calls with their continuation, and reads of the pending cleanups. */
  datatype Event = Called(continuation: Option<int>) | ReadPending(rows: seq<(int, int)>)

  function Calls(log: seq<Event>): (n: nat)
    ensures n <= |log|
  {
    if log == [] then 0 else Calls(log[..|log| - 1]) + (if log[|log| - 1].Called? then 1 else 0)
  }

  lemma CallsSnoc(log: seq<Event>, e: Event)
    ensures Calls(log + [e]) == Calls(log) + (if e.Called? then 1 else 0)
  {
    assert (log + [e])[..|log|] == log;
  }

  /** The first event is the only call without a continuation, and only for a run by path. */
  predicate StartsOnce(start: Start, log: seq<Event>) {
    && (forall i :: 1 <= i < |log| ==> log[i] != Called(None))
    && (log != [] ==> log[0] == Called(match start case ByPath => None case ByCleanup(id) => Some(id)))
  }

  /** The first `n` calls were all answered Pending. */
  ghost predicate AllPending(answers: Answers, n: nat) {
    forall i: nat | i < n :: answers.call(i).Ok? && answers.call(i).value.OutPending?
  }

  /** The answer that ends the primary chain: that of the first call not answered Pending. */
  ghost predicate PrimaryAnswer(answers: Answers, o: Outcome) {
    !o.OutPending? && exists p: nat :: AllPending(answers, p) && answers.call(p) == Ok(o)
  }

  lemma PrimaryUnique(answers: Answers, o: Outcome, o': Outcome)
    requires PrimaryAnswer(answers, o) && PrimaryAnswer(answers, o')
    ensures o == o'
  {
    var p: nat :| AllPending(answers, p) && answers.call(p) == Ok(o);
    var q: nat :| AllPending(answers, q) && answers.call(q) == Ok(o');
  }

  /** The call at the end of the log was a primary one, answered Pending. */
  ghost predicate Continues(answers: Answers, log: seq<Event>)
    requires log != []
  {
    Calls(log) == |log| && answers.call(|log| - 1).Ok? && answers.call(|log| - 1).value.OutPending?
  }

  /**
   Event `e` may come behind a log. A Pending answer in the primary chain is continued by its own cleanup; any other
   answered call is followed by a read; a read of some rows by the continuation of the first of them.
   */
  ghost predicate Next(answers: Answers, log: seq<Event>, e: Event)
    requires log != [] && Calls(log) > 0
  {
    match log[|log| - 1]
    case Called(_) =>
      && answers.call(Calls(log) - 1).Ok?
      && if Continues(answers, log) then e == Called(Some(answers.call(|log| - 1).value.id))
         else e.ReadPending? && answers.pending(|log| - Calls(log)) == Ok(e.rows)
    case ReadPending(rows) =>
      rows != [] && e == Called(Some(rows[0].1))
  }

  /** Every event of the log is the one its predecessors and the answers call for. */
  ghost predicate Conducted(answers: Answers, log: seq<Event>) {
    log != [] ==>
      && log[0].Called?
      && forall i :: 0 < i < |log| ==> Calls(log[..i]) > 0 && Next(answers, log[..i], log[i])
  }

  lemma ConductedSnoc(answers: Answers, log: seq<Event>, e: Event)
    requires Conducted(answers, log) && (if log == [] then e.Called? else Calls(log) > 0 && Next(answers, log, e))
    ensures Conducted(answers, log + [e])
  {
    hide Next;
    var log' := log + [e];
    forall i | 0 < i < |log'| ensures Calls(log'[..i]) > 0 && Next(answers, log'[..i], log'[i]) {
      assert log'[..i] == if i < |log| then log[..i] else log;
    }
  }

  /** The cleanup the last event asks to continue. */
  ghost predicate Unfinished(answers: Answers, log: seq<Event>, repo: int, id: int) {
    && log != []
    && match log[|log| - 1]
       case Called(_) => Calls(log) == |log| && answers.call(|log| - 1) == Ok(OutPending(repo, id))
       case ReadPending(rows) => rows != [] && rows[0] == (repo, id)
  }

  /** The read or call behind the last event fails with `e`. */
  ghost predicate Fails(answers: Answers, start: Start, log: seq<Event>, e: string) {
    if log == [] then (match start case ByPath => answers.find == Err(e) case ByCleanup(_) => answers.byId == Err(e))
    else
      && log[|log| - 1].Called? && Calls(log) > 0
      && (|| answers.call(Calls(log) - 1) == Err(e)
          || (&& answers.call(Calls(log) - 1).Ok? && !Continues(answers, log)
              && answers.pending(|log| - Calls(log)) == Err(e)))
  }

  /** The cleanup last named: by the start, an answer of the primary chain, or a read. */
  ghost function LastNamed(answers: Answers, start: Start, log: seq<Event>): Option<(int, int)> {
    if log == [] then
      match (start, answers.byId)
      case (ByCleanup(id), Ok(Some((repo, true)))) => Some((repo, id))
      case _ => None
    else
      var before := log[..|log| - 1];
      match log[|log| - 1]
      case Called(_) =>
        if Calls(log) != |log| then LastNamed(answers, start, before)
        else (match answers.call(|log| - 1)
              case Ok(OutPending(repo, id)) => Some((repo, id))
              case Ok(OutRemoved(repo, id)) => Some((repo, id))
              case _ => LastNamed(answers, start, before))
      case ReadPending(rows) => if rows == [] then LastNamed(answers, start, before) else Some(rows[0])
  }

  lemma LastNamedSnoc(answers: Answers, start: Start, log: seq<Event>, e: Event)
    ensures LastNamed(answers, start, log + [e]) ==
            match e
            case Called(_) =>
              if Calls(log) != |log| then LastNamed(answers, start, log)
              else (match answers.call(|log|)
                    case Ok(OutPending(repo, id)) => Some((repo, id))
                    case Ok(OutRemoved(repo, id)) => Some((repo, id))
                    case _ => LastNamed(answers, start, log))
            case ReadPending(rows) => if rows == [] then LastNamed(answers, start, log) else Some(rows[0])
  {
    hide Calls;
    CallsSnoc(log, e);
    assert (log + [e])[..|log|] == log;
  }

  predicate EndsEmpty(log: seq<Event>) { log != [] && log[|log| - 1] == ReadPending([]) }

  /** What `drive` answers, from the log it left. */
  ghost predicate Exact(
      answers: Answers, start: Start, log: seq<Event>, rounds: nat, maxRounds: nat, r: Result<Finish, string>)
  {
    && (forall repo, id ::
          r == Ok(Removed(repo, id)) <==> EndsEmpty(log) && PrimaryAnswer(answers, OutRemoved(repo, id)))
    && (r == Ok(Absent) <==> EndsEmpty(log) && PrimaryAnswer(answers, OutAbsent))
    && (forall repo, id ::
          r == Ok(Finish.Pending(repo, id)) <==> rounds == maxRounds && Unfinished(answers, log, repo, id))
    && (forall e :: r == Err(e) <==> Fails(answers, start, log, e))
  }

  lemma ExactFailure(answers: Answers, start: Start, log: seq<Event>, rounds: nat, maxRounds: nat, e: string)
    requires Fails(answers, start, log, e)
    ensures Exact(answers, start, log, rounds, maxRounds, Err(e))
  {
    hide Calls, PrimaryAnswer;
  }

  lemma ExactPending(answers: Answers, start: Start, log: seq<Event>, maxRounds: nat, repo: int, id: int)
    requires Unfinished(answers, log, repo, id)
    ensures Exact(answers, start, log, maxRounds, maxRounds, Ok(Finish.Pending(repo, id)))
  {
    hide Calls, PrimaryAnswer;
  }

  function FinishOf(o: Outcome): Finish
    requires !o.OutPending?
  {
    if o.OutAbsent? then Absent else Removed(o.repo, o.id)
  }

  lemma ExactDone(answers: Answers, start: Start, log: seq<Event>, rounds: nat, maxRounds: nat, o: Outcome)
    requires EndsEmpty(log) && PrimaryAnswer(answers, o)
    ensures Exact(answers, start, log, rounds, maxRounds, Ok(FinishOf(o)))
  {
    hide Calls, PrimaryAnswer;
    forall o' | PrimaryAnswer(answers, o') ensures o' == o { PrimaryUnique(answers, o, o'); }
    assert !o.OutPending? by { NotPending(answers, o); }
  }

  lemma NotPending(answers: Answers, o: Outcome)
    requires PrimaryAnswer(answers, o)
    ensures !o.OutPending?
  {
  }

  /** A call behind a log that asks for it. */
  lemma CallStep(answers: Answers, start: Start, log: seq<Event>, c: Option<int>)
    requires Conducted(answers, log) && (log != [] ==> Calls(log) > 0 && Next(answers, log, Called(c)))
    ensures Conducted(answers, log + [Called(c)]) && Calls(log + [Called(c)]) == Calls(log) + 1
    ensures Calls(log) != |log| ==> !Continues(answers, log + [Called(c)])
    ensures answers.call(Calls(log)).Err? ==> Fails(answers, start, log + [Called(c)], answers.call(Calls(log)).error)
    ensures LastNamed(answers, start, log + [Called(c)]) ==
            match answers.call(Calls(log))
            case Ok(o) => if Calls(log) ==
                 |log| && !o.OutAbsent? then Some((o.repo, o.id)) else LastNamed(answers, start, log)
            case Err(_) => LastNamed(answers, start, log)
  {
    hide Conducted, Next, Calls, LastNamed;
    ConductedSnoc(answers, log, Called(c));
    LastNamedSnoc(answers, start, log, Called(c));
    CallsSnoc(log, Called(c));
  }

  ghost predicate ReadResult(answers: Answers, start: Start, log: seq<Event>, rows: seq<(int, int)>) {
    var log' := log + [ReadPending(rows)];
    && Conducted(answers, log') && Calls(log') == Calls(log)
    && LastNamed(answers, start, log') == (if rows == [] then LastNamed(answers, start, log) else Some(rows[0]))
    && (rows != [] && Calls(log') > 0 ==>
          Next(answers, log', Called(Some(rows[0].1))) && Unfinished(answers, log', rows[0].0, rows[0].1))
  }

  /** A read behind a log whose last call was answered and is not continued. */
  lemma ReadStep(answers: Answers, start: Start, log: seq<Event>)
    requires Conducted(answers, log) && log != [] && log[|log| - 1].Called? && Calls(log) > 0
    requires answers.call(Calls(log) - 1).Ok? && !Continues(answers, log)
    ensures var a := answers.pending(|log| - Calls(log)); a.Err? ==> Fails(answers, start, log, a.error)
    ensures var a := answers.pending(|log| - Calls(log)); a.Ok? ==> ReadResult(answers, start, log, a.value)
  {
    hide Conducted, Calls, LastNamed;
    match answers.pending(|log| - Calls(log))
    case Err(e) =>
    case Ok(rows) =>
      ConductedSnoc(answers, log, ReadPending(rows));
      LastNamedSnoc(answers, start, log, ReadPending(rows));
      CallsSnoc(log, ReadPending(rows));
  }

  lemma NothingYet(answers: Answers, start: Start)
    ensures Conducted(answers, []) && Calls([]) == 0
  {
  }

  /** A primary call answered Pending: the run may stop there, and goes on with the cleanup it names. */
  lemma PendingEnd(answers: Answers, log: seq<Event>, o: Outcome)
    requires log != [] && Calls(log) == |log| && log[|log| - 1].Called?
    requires answers.call(|log| - 1) == Ok(o) && o.OutPending?
    ensures Unfinished(answers, log, o.repo, o.id) && Next(answers, log, Called(Some(o.id)))
  {
    hide Calls;
  }

  lemma ChainEnd(answers: Answers, log: seq<Event>, o: Outcome)
    requires log != [] && AllPending(answers, |log| - 1) && answers.call(|log| - 1) == Ok(o) && !o.OutPending?
    ensures PrimaryAnswer(answers, o) && !Continues(answers, log)
  {
  }

  class Driver {
    const start: Start
    var rounds: nat
    var liveBefore: Option<int>
    var handle: Option<(int, int)>
    var reading: nat
    var log: seq<Event>

    constructor (start: Start)
      ensures this.start == start && rounds == 0 && liveBefore == None && handle == None
      ensures reading == 0 && log == [] && Valid()
    {
      this.start := start;
      rounds, liveBefore, handle, reading, log := 0, None, None, 0, [];
    }

    /** The bookkeeping every step keeps: one count per call, and only round 1 may go without a continuation. */
    ghost predicate Valid()
      reads this`rounds, this`log
    {
      rounds == Calls(log) && StartsOnce(start, log)
    }

    /** Between two reads of the drain: the last call was answered and is not continued. */
    ghost predicate Settled(answers: Answers, maxRounds: nat)
      reads this`rounds, this`log, this`reading, this`handle
    {
      && Valid() && Conducted(answers, log) && 1 <= rounds <= maxRounds && rounds <= |log|
      && reading == |log| - rounds && log[|log| - 1].Called?
      && answers.call(rounds - 1).Ok? && !Continues(answers, log)
      && handle == LastNamed(answers, start, log)
    }

    /** `round`. */
    method Round(answers: Answers, continuation: Option<int>) returns (r: Result<Outcome, string>)
      requires Valid()
      requires if log == [] then continuation == (match start case ByPath => None case ByCleanup(id) => Some(id))
               else continuation.Some?
      modifies this`rounds, this`log
      ensures Valid() && rounds == old(rounds) + 1 && log == old(log) + [Called(continuation)]
      ensures r == answers.call(old(rounds))
    {
      CallsSnoc(log, Called(continuation));
      log := log + [Called(continuation)];
      r := answers.call(rounds);
      rounds := rounds + 1;
    }

    /** `git_db.pending_cleanups_by_path`. */
    method Pending(answers: Answers) returns (r: Result<seq<(int, int)>, string>)
      requires Valid() && log != []
      modifies this`reading, this`log
      ensures Valid() && r == answers.pending(old(reading)) && reading == old(reading) + 1
      ensures log == if r.Ok? then old(log) + [ReadPending(r.value)] else old(log)
    {
      r := answers.pending(reading);
      reading := reading + 1;
      if r.Ok? {
        CallsSnoc(log, ReadPending(r.value));
        log := log + [ReadPending(r.value)];
      }
    }

    /** The reads in front of round 1, and its continuation. */
    method Open(answers: Answers) returns (r: Result<Option<int>, string>)
      requires log == [] && handle == None && liveBefore == None
      modifies this`liveBefore, this`handle
      ensures r.Ok? ==> r.value == match start case ByPath => None case ByCleanup(id) => Some(id)
      ensures r.Err? ==> Fails(answers, start, log, r.error)
      ensures handle == LastNamed(answers, start, [])
      ensures liveBefore == if start.ByPath? && answers.find.Ok? then answers.find.value else None
    {
      match start {
        case ByPath =>
          var live :- answers.find;
          liveBefore := live;
          r := Ok(None);
        case ByCleanup(id) =>
          var row :- answers.byId;
          if row.Some? && row.value.1 { handle := Some((row.value.0, id)); }
          r := Ok(Some(id));
      }
    }

    /**
     `drive`. At most `maxRounds` calls, each the one the answers before it call for; without a continuation at most
     once, as the first call, and only when started by path. Removed and Absent are exactly the answer of the first
     call not answered Pending, once a read returns no pending cleanup; Pending is exactly a cleanup still asked for
     after the last round; an error is the error of the call or read that follows the log.
     */
    method Drive(answers: Answers, maxRounds: nat) returns (r: Result<Finish, string>)
      requires Valid() && maxRounds >= 1 && log == [] && handle == None && liveBefore == None && reading == 0
      modifies this
      ensures Valid() && rounds <= maxRounds && Conducted(answers, log)
      ensures Exact(answers, start, log, rounds, maxRounds, r)
      ensures handle == LastNamed(answers, start, log)
      ensures liveBefore == if start.ByPath? && answers.find.Ok? then answers.find.value else None
    {
      hide StartsOnce, Calls, Next, Conducted, LastNamed, Fails, PrimaryAnswer, Unfinished, Exact, Continues;
      NothingYet(answers, start);
      var begun := Open(answers);
      if begun.Err? { ExactFailure(answers, start, log, rounds, maxRounds, begun.error); }
      var first :- begun;
      CallStep(answers, start, log, first);
      var res := Round(answers, first);
      if res.Err? { ExactFailure(answers, start, log, rounds, maxRounds, res.error); }
      var outcome :- res;
      while outcome.OutPending?
        invariant Valid() && Conducted(answers, log) && 1 <= rounds == |log| <= maxRounds && reading == 0
        invariant AllPending(answers, rounds - 1) && answers.call(rounds - 1) == Ok(outcome) && log[|log| - 1].Called?
        invariant LastNamed(answers, start, log) ==
                  if outcome.OutAbsent? then handle else Some((outcome.repo, outcome.id))
        invariant liveBefore == if start.ByPath? && answers.find.Ok? then answers.find.value else None
        decreases maxRounds - rounds
      {
        handle := Some((outcome.repo, outcome.id));
        PendingEnd(answers, log, outcome);
        if rounds >= maxRounds {
          ExactPending(answers, start, log, maxRounds, outcome.repo, outcome.id);
          return Ok(Finish.Pending(outcome.repo, outcome.id));
        }
        CallStep(answers, start, log, Some(outcome.id));
        res := Round(answers, Some(outcome.id));
        if res.Err? { ExactFailure(answers, start, log, rounds, maxRounds, res.error); }
        outcome :- res;
      }
      var primary := Absent;
      if outcome.OutRemoved? {
        handle := Some((outcome.repo, outcome.id));
        primary := Removed(outcome.repo, outcome.id);
      }
      ChainEnd(answers, log, outcome);
      r := Drain(answers, maxRounds, primary, outcome);
    }

    /** The second loop of `drive`: the path's other pending cleanups are drained before `primary` is answered. */
    method Drain(answers: Answers, maxRounds: nat, primary: Finish, ghost o: Outcome)
      returns (r: Result<Finish, string>)
      requires Settled(answers, maxRounds)
      requires PrimaryAnswer(answers, o) && !o.OutPending? && primary == FinishOf(o)
      modifies this`rounds, this`handle, this`reading, this`log
      ensures Valid() && rounds <= maxRounds && Conducted(answers, log)
      ensures Exact(answers, start, log, rounds, maxRounds, r)
      ensures handle == LastNamed(answers, start, log)
    {
      hide StartsOnce, Calls, Next, Conducted, LastNamed, Fails, PrimaryAnswer, Unfinished, Exact, Continues;
      while true
        invariant Settled(answers, maxRounds)
        decreases maxRounds - rounds
      {
        ReadStep(answers, start, log);
        var read := Pending(answers);
        if read.Err? { ExactFailure(answers, start, log, rounds, maxRounds, read.error); }
        var rows :- read;
        if rows == [] {
          ExactDone(answers, start, log, rounds, maxRounds, o);
          return Ok(primary);
        }
        handle := Some(rows[0]);
        if rounds >= maxRounds {
          ExactPending(answers, start, log, maxRounds, rows[0].0, rows[0].1);
          return Ok(Finish.Pending(rows[0].0, rows[0].1));
        }
        CallStep(answers, start, log, Some(rows[0].1));
        var res := Round(answers, Some(rows[0].1));
        if res.Err? { ExactFailure(answers, start, log, rounds, maxRounds, res.error); }
        var _ :- res;
      }
    }
  }
}
