/**
 `migrate_all` as a step relation: the listing loop, the spawned tasks and their
 uploads interleave freely. A task may finish at any time, any request to either
 store may fail, and a task may panic. An upload becomes visible only when it
 completes, though the completion may still be reported as an error; nobody else
 writes the target, and the listing names each object once.
 */
module Migration {

  type Path = string
  type Bytes = seq<int>
  type Objects = map<Path, Bytes>

  datatype Outcome = Skipped | Migrated

  datatype TaskResult = Succeeded(outcome: Outcome, retries: nat) | Failed(retries: nat) | Panicked

  /** Where a spawned `migrate_one` stands; `sent` is what the current attempt has uploaded. */
  datatype Task =
    | Head(path: Path)
    | Uploading(path: Path, retries: nat, sent: Bytes)
    | Finished(path: Path, result: TaskResult)

  datatype Entry = Listed(path: Path) | ListError

  datatype Reason = ObjectFailed | TaskPanicked | ListFailed

  /** Where `migrate_all` stands. */
  datatype Pc =
    | Next
    | ReapFirst(entry: Entry)
    | Acquire(path: Path)
    | ReapSecond(path: Path)
    | Bound
    | FinalDrain
    | ReturnedOk
    | ReturnedErr(reason: Reason)
  {
    predicate Returned() { ReturnedOk? || ReturnedErr? }
  }

  datatype Summary = Summary(migrated: nat, skipped: nat, failed: nat, retried: nat)

  datatype Config = Config(src: Objects, listing: seq<Entry>, target: Objects,
                           concurrency: nat, dryRun: bool, maxRetries: nat, usizeMax: nat)

  /** Tasks are keyed by spawn order; a key is present until the task is reaped. `joined` lists the reaped results. */
  datatype State = State(pc: Pc, remaining: seq<Entry>, tasks: map<nat, Task>, permits: nat,
                         spawned: nat, reaped: nat, summary: Summary, target: Objects, joined: seq<TaskResult>)

  ghost predicate ValidConfig(c: Config) {
    forall i, j :: 0 <= i < j < |c.listing| && c.listing[i].Listed? ==> c.listing[i] != c.listing[j]
  }

  /** `opts.concurrency.saturating_mul(4).max(64)`. */
  function MaxBuffered(c: Config): (n: nat)
    ensures n >= 64
  {
    var quad := if 4 * c.concurrency > c.usizeMax then c.usizeMax else 4 * c.concurrency;
    if quad > 64 then quad else 64
  }

  /** `Semaphore::new` takes the concurrency: more permits than tokio allows is a panic before the loop. */
  predicate Starts(c: Config) { c.concurrency <= c.usizeMax / 8 }

  /** Where the run starts at all, the product does not saturate: four handles a worker, and never fewer than 64. */
  lemma BufferedExactly(c: Config)
    requires Starts(c)
    ensures MaxBuffered(c) == if c.concurrency > 16 then 4 * c.concurrency else 64
    ensures 8 * c.concurrency <= c.usizeMax
  {
  }

  function Init(c: Config): State {
    State(Next, c.listing, map[], c.concurrency, 0, 0, Summary(0, 0, 0, 0), c.target, [])
  }

  // ------------------------------------------------------------------ steps

  /** `record`. */
  function Recorded(s: Summary, r: TaskResult): Summary {
    match r
    case Succeeded(Skipped, n) => s.(skipped := s.skipped + 1, retried := s.retried + n)
    case Succeeded(Migrated, n) => s.(migrated := s.migrated + 1, retried := s.retried + n)
    case Failed(n) => s.(failed := s.failed + 1, retried := s.retried + n)
    case Panicked => s
  }

  /** `drain` of a joined task: recorded, and fail-fast when it did not succeed. */
  ghost predicate Reap(s: State, s': State, i: nat) {
    && i in s.tasks && s.tasks[i].Finished?
    && var r := s.tasks[i].result;
       s' == s.(tasks := s.tasks - {i}, reaped := s.reaped + 1, summary := Recorded(s.summary, r),
                joined := s.joined + [r],
                pc := match r
                      case Succeeded(_, _) => s.pc
                      case Failed(_) => ReturnedErr(ObjectFailed)
                      case Panicked => ReturnedErr(TaskPanicked))
  }

  /** A step of the listing loop that reaps nothing. */
  ghost predicate Loop(c: Config, s: State, s': State) {
    match s.pc
    case Next =>
      if s.remaining == [] then s' == s.(pc := FinalDrain)
      else s' == s.(pc := ReapFirst(s.remaining[0]), remaining := s.remaining[1..])
    case ReapFirst(Listed(p)) => s' == s.(pc := Acquire(p))
    case ReapFirst(ListError) => s' == s.(pc := ReturnedErr(ListFailed))
    case Acquire(p) => s.permits > 0 && s' == s.(pc := ReapSecond(p), permits := s.permits - 1)
    case ReapSecond(p) => s' == s.(pc := Bound, tasks := s.tasks[s.spawned := Head(p)], spawned := s.spawned + 1)
    case Bound => |s.tasks| < MaxBuffered(c) && s' == s.(pc := Next)
    case FinalDrain => |s.tasks| == 0 && s' == s.(pc := ReturnedOk)
    case _ => false
  }

  /** The places where the loop joins finished tasks. */
  predicate Joins(c: Config, s: State) {
    match s.pc
    case ReapFirst(_) => true
    case ReapSecond(_) => true
    case Bound => |s.tasks| >= MaxBuffered(c)
    case FinalDrain => true
    case _ => false
  }

  /** One step of a running task: its next state and the target it leaves. */
  ghost predicate Works(c: Config, t: Task, target: Objects, t': Task, target': Objects) {
    match t
    case Finished(_, _) => false
    case Head(p) =>
      && target' == target
      && (|| t' == Finished(p, Failed(0))
          || t' == Finished(p, Panicked)
          || (p in target && t' == Finished(p, Succeeded(Skipped, 0)))
          || (p !in target && c.dryRun && t' == Finished(p, Succeeded(Migrated, 0)))
          || (p !in target && !c.dryRun && t' == Uploading(p, 0, [])))
    case Uploading(p, n, sent) =>
      || (&& (target' == target || (p in c.src && sent == c.src[p] && target' == target[p := sent]))
          && (|| t' == Finished(p, Panicked)
              || (n >= c.maxRetries && t' == Finished(p, Failed(n)))
              || (n < c.maxRetries && t' == Uploading(p, n + 1, []))))
      || (p in c.src && target' == target && t'.Uploading? && t'.path == p && t'.retries == n &&
          sent < t'.sent && t'.sent <= c.src[p])
      || (p in c.src && sent == c.src[p] && target' == target[p := sent] && t' == Finished(p, Succeeded(Migrated, n)))
  }

  /** A task steps; finishing releases its permit. */
  ghost predicate TaskStep(c: Config, s: State, s': State, i: nat) {
    && !s.pc.Returned() && i in s.tasks && i in s'.tasks
    && Works(c, s.tasks[i], s.target, s'.tasks[i], s'.target)
    && s' == s.(tasks := s.tasks[i := s'.tasks[i]], target := s'.target,
                permits := if s'.tasks[i].Finished? then s.permits + 1 else s.permits)
  }

  ghost predicate Step(c: Config, s: State, s': State) {
    || Loop(c, s, s')
    || (Joins(c, s) && exists i :: Reap(s, s', i))
    || exists i :: TaskStep(c, s, s', i)
  }

  ghost predicate Run(c: Config, run: seq<State>) {
    && Starts(c) && run != [] && run[0] == Init(c)
    && forall k :: 0 <= k < |run| - 1 ==> Step(c, run[k], run[k + 1])
  }
}
