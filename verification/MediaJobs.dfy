/** Background multimedia loads: requests that start, look up and close, and one worker, in any
    interleaving of their atomic steps. */
module MediaJobs {
  import opened Arithmetic
  import opened MediaReport
  import opened Wrappers

  const MAX_RETAINED_JOBS: nat := 32
  const INT32_MAX: nat := 0x7FFF_FFFF

  datatype Status = Pending | Running | Completed | Cancelled | Broken

  /** `history` is what the job's report summarizes. */
  datatype Job = Job(table: string, startId: nat, batchSize: nat, nextId: nat, discovered: nat,
                     history: seq<Outcome>, status: Status)

  predicate Terminal(j: Job) {
    j.status != Pending && j.status != Running
  }

  /** What the worker does next; a batch lists the identifiers of its rows. */
  datatype Phase =
    | Submitted
    | Starting
    | Loading
    | Walking(batch: seq<nat>)
    | Numbering(batch: seq<nat>)
    | Extracting(batch: seq<nat>, id: nat)
    | Writing(batch: seq<nat>, last: bool)
    | Sending(batch: seq<nat>, last: bool)
    | Merging(outcomes: seq<Outcome>, last: bool)
    | Ending(status: Status)

  datatype Worker = Idle | Busy(job: nat, phase: Phase)

  /** Jobs are numbered in the order of starting; `retained` lists those that can be looked up, in
      that order, and `all` has every job there ever was. */
  datatype State = State(all: map<nat, Job>, retained: seq<nat>, started: nat, active: Option<nat>,
                         stop: bool, shutdown: bool, worker: Worker)

  const INITIAL := State(map[], [], 0, None, false, false, Idle)

  /** A step of the worker. */
  datatype Move =
    | CheckStop
    | SetRunning
    | Loaded
    | NextFile
    | NoMoreFiles
    | Number
    | Extracted
    | ExtractionFails(path: string, error: string)
    | WriteBatch
    | Sent(outcomes: seq<Outcome>)
    | Merge
    | Fatal

  datatype Action =
    | Start(table: string, startId: nat, batchSize: nat)
    | Stop
    | Shutdown
    | Work(move: Move)
    | Finish

  /* ---------------------------------------------------------------- steps */

  /** Drops the oldest jobs until there is room for one more. */
  function Evicted(retained: seq<nat>): (left: seq<nat>)
    ensures |left| < MAX_RETAINED_JOBS && |left| <= |retained| && left == retained[|retained| - |left|..]
    ensures |left| == |retained| || |left| == MAX_RETAINED_JOBS - 1
  {
    if |retained| < MAX_RETAINED_JOBS then retained else Evicted(retained[1..])
  }

  /** The files have been gone through up to here: a full batch is written, or the next file follows. */
  function AfterFile(batch: seq<nat>, batchSize: nat): Phase {
    if batchSize <= |batch| then Writing(batch, false) else Walking(batch)
  }

  /** The worker can take this step now; only some of its steps can fail fatally. */
  predicate Suits(move: Move, phase: Phase) {
    match move
    case CheckStop => phase.Submitted?
    case SetRunning => phase.Starting?
    case Loaded => phase.Loading?
    case NextFile => phase.Walking?
    case NoMoreFiles => phase.Walking?
    case Number => phase.Numbering?
    case Extracted => phase.Extracting?
    case ExtractionFails(_, _) => phase.Extracting?
    case WriteBatch => phase.Writing?
    case Sent(outcomes) => phase.Sending? && |outcomes| == |phase.batch|
    case Merge => phase.Merging?
    case Fatal => phase.Submitted? || phase.Loading? || phase.Walking? || phase.Sending?
  }

  predicate Enabled(s: State, a: Action) {
    match a
    case Start(_, startId, batchSize) => startId <= INT32_MAX && 1 <= batchSize && !s.stop && s.active.None?
    case Stop => true
    case Shutdown => s.stop
    case Work(move) => s.worker.Busy? && s.worker.job in s.all && Suits(move, s.worker.phase)
    case Finish => s.worker.Busy? && s.worker.job in s.all && s.worker.phase.Ending?
  }

  /** The worker's job and its next phase after a step of the worker. */
  function Worked(job: Job, phase: Phase, stop: bool, move: Move): (Job, Phase) {
    match (move, phase)
    case (CheckStop, _) => (job, if stop then Ending(Cancelled) else Starting)
    case (SetRunning, _) => (job.(status := Running), Loading)
    case (Loaded, _) => (job, Walking([]))
    case (NextFile, Walking(batch)) => (job, if stop then Ending(Cancelled) else Numbering(batch))
    case (NoMoreFiles, Walking(batch)) => (job, if batch == [] then Ending(Completed) else Writing(batch, true))
    case (Number, Numbering(batch)) =>
      if INT32_MAX < job.nextId then (job, Ending(Broken))
      else (job.(nextId := job.nextId + 1, discovered := job.discovered + 1), Extracting(batch, job.nextId))
    case (Extracted, Extracting(batch, id)) => (job, AfterFile(batch + [id], job.batchSize))
    case (ExtractionFails(path, error), Extracting(batch, _)) =>
      (job.(history := job.history + [Failure(path, error)]), AfterFile(batch, job.batchSize))
    case (WriteBatch, Writing(batch, last)) => (job, if stop then Ending(Cancelled) else Sending(batch, last))
    case (Sent(outcomes), Sending(_, last)) => (job, Phase.Merging(outcomes, last))
    case (Merge, Merging(outcomes, last)) =>
      (job.(history := job.history + outcomes), if last then Ending(Completed) else Walking([]))
    case (Fatal, _) => (job, Ending(Broken))
    case _ => (job, phase)
  }

  function Take(s: State, a: Action): State
    requires Enabled(s, a)
  {
    match a
    case Start(table, startId, batchSize) =>
      var job := Job(table, startId, batchSize, startId, 0, [], Pending);
      s.(all := s.all[s.started := job], retained := Evicted(s.retained) + [s.started], started := s.started + 1,
         active := Some(s.started), worker := Busy(s.started, Submitted))
    case Stop => s.(stop := true)
    case Shutdown => s.(shutdown := true)
    case Finish =>
      var job := s.all[s.worker.job].(status := s.worker.phase.status);
      s.(all := s.all[s.worker.job := job], active := None, worker := Idle)
    case Work(move) =>
      var (job, phase) := Worked(s.all[s.worker.job], s.worker.phase, s.stop, move);
      s.(all := s.all[s.worker.job := job], worker := Busy(s.worker.job, phase))
  }

  /* ---------------------------------------------------------------- the invariant */

  /** Identifiers of discovered files, without repetition. */
  predicate BatchOk(j: Job, batch: seq<nat>) {
    && (forall i | 0 <= i < |batch| :: j.startId <= batch[i] < j.nextId)
    && (forall i, k | 0 <= i < k < |batch| :: batch[i] < batch[k])
  }

  /** Every discovered file is in the report, in the batch at hand, or being extracted. */
  predicate PhaseOk(j: Job, phase: Phase) {
    match phase
    case Submitted => j.status == Pending && j.discovered == 0 && j.history == []
    case Starting => j.status == Pending && j.discovered == 0 && j.history == []
    case Loading => j.status == Running && j.discovered == 0 && j.history == []
    case Walking(batch) =>
      j.status == Running && BatchOk(j, batch) && |j.history| + |batch| == j.discovered && |batch| < j.batchSize
    case Numbering(batch) =>
      j.status == Running && BatchOk(j, batch) && |j.history| + |batch| == j.discovered && |batch| < j.batchSize
    case Extracting(batch, id) =>
      && j.status == Running && BatchOk(j, batch + [id]) && |j.history| + |batch| + 1 == j.discovered
      && |batch| < j.batchSize
    case Writing(batch, _) =>
      j.status == Running && BatchOk(j, batch) && |j.history| + |batch| == j.discovered && |batch| <= j.batchSize
    case Sending(batch, _) =>
      j.status == Running && BatchOk(j, batch) && |j.history| + |batch| == j.discovered && |batch| <= j.batchSize
    case Merging(outcomes, _) => j.status == Running && |j.history| + |outcomes| == j.discovered
    case Ending(status) =>
      && !Terminal(j) && status != Pending && status != Running && |j.history| <= j.discovered
      && (status == Completed ==> |j.history| == j.discovered)
  }

  predicate JobOk(j: Job) {
    && 1 <= j.batchSize
    && j.nextId == j.startId + j.discovered && j.nextId <= INT32_MAX + 1
    && |j.history| <= j.discovered
    && (j.status == Completed ==> |j.history| == j.discovered)
  }

  /** The last jobs started, oldest first. */
  ghost predicate RetainedOk(retained: seq<nat>, started: nat) {
    && |retained| == Least(started, MAX_RETAINED_JOBS)
    && (forall k: nat | k < |retained| :: retained[k] == started - |retained| + k)
  }

  /** Every job is in order, and the active one is the only one that is not finished. */
  ghost predicate JobsOk(all: map<nat, Job>, started: nat, active: Option<nat>) {
    && (forall i: nat :: i in all <==> i < started)
    && (forall i: nat | i in all :: JobOk(all[i]))
    && (forall i: nat | i in all :: !Terminal(all[i]) <==> active == Some(i))
  }

  ghost predicate Inv(s: State) {
    && RetainedOk(s.retained, s.started)
    && JobsOk(s.all, s.started, s.active)
    && (s.shutdown ==> s.stop)
    && (match s.worker
        case Idle => s.active.None?
        case Busy(job, phase) => s.active == Some(job) && job + 1 == s.started && PhaseOk(s.all[job], phase))
  }

  lemma NumberingKeepsJob(j: Job, phase: Phase, stop: bool)
    requires JobOk(j) && PhaseOk(j, phase) && phase.Numbering?
    ensures var (after, next) := Worked(j, phase, stop, Number);
      JobOk(after) && PhaseOk(after, next) && !Terminal(after)
  {
    if j.nextId <= INT32_MAX {
      var after := j.(nextId := j.nextId + 1, discovered := j.discovered + 1);
      assert BatchOk(after, phase.batch + [j.nextId]);
    }
  }

  lemma ExtractingKeepsJob(j: Job, phase: Phase, stop: bool, move: Move)
    requires JobOk(j) && PhaseOk(j, phase) && phase.Extracting? && (move.Extracted? || move.ExtractionFails?)
    ensures var (after, next) := Worked(j, phase, stop, move);
      JobOk(after) && PhaseOk(after, next) && !Terminal(after)
  {
    var batch := phase.batch;
    assert forall i | 0 <= i < |batch| :: batch[i] == (batch + [phase.id])[i];
  }

  lemma WritingKeepsJob(j: Job, phase: Phase, stop: bool, move: Move)
    requires JobOk(j) && PhaseOk(j, phase) && Suits(move, phase) && (phase.Writing? || phase.Sending? || phase.Merging?)
    ensures var (after, next) := Worked(j, phase, stop, move);
      JobOk(after) && PhaseOk(after, next) && !Terminal(after)
  {
  }

  lemma WorkKeepsJob(j: Job, phase: Phase, stop: bool, move: Move)
    requires JobOk(j) && PhaseOk(j, phase) && Suits(move, phase)
    ensures var (after, next) := Worked(j, phase, stop, move);
      JobOk(after) && PhaseOk(after, next) && !Terminal(after)
  {
    match phase
    case Numbering(_) => if move == Number { NumberingKeepsJob(j, phase, stop); }
    case Extracting(_, _) => if move != Fatal { ExtractingKeepsJob(j, phase, stop, move); }
    case Writing(_, _) => WritingKeepsJob(j, phase, stop, move);
    case Sending(_, _) => WritingKeepsJob(j, phase, stop, move);
    case Merging(_, _) => WritingKeepsJob(j, phase, stop, move);
    case _ =>
  }

  lemma EvictingMakesRoom(retained: seq<nat>, started: nat)
    requires RetainedOk(retained, started)
    ensures RetainedOk(Evicted(retained) + [started], started + 1)
  {
  }

  lemma StartKeepsJobs(all: map<nat, Job>, started: nat, job: Job)
    requires JobsOk(all, started, None) && JobOk(job) && !Terminal(job)
    ensures JobsOk(all[started := job], started + 1, Some(started))
  {
  }

  lemma StartKeepsInv(s: State, table: string, startId: nat, batchSize: nat)
    requires Inv(s) && Enabled(s, Start(table, startId, batchSize))
    ensures Inv(Take(s, Start(table, startId, batchSize)))
  {
    EvictingMakesRoom(s.retained, s.started);
    StartKeepsJobs(s.all, s.started, Job(table, startId, batchSize, startId, 0, [], Pending));
  }

  lemma WorkKeepsInv(s: State, move: Move)
    requires Inv(s) && Enabled(s, Work(move))
    ensures Inv(Take(s, Work(move)))
  {
    WorkKeepsJob(s.all[s.worker.job], s.worker.phase, s.stop, move);
  }

  lemma FinishKeepsInv(s: State)
    requires Inv(s) && Enabled(s, Finish)
    ensures Inv(Take(s, Finish))
  {
  }

  lemma StepKeepsInv(s: State, a: Action)
    requires Inv(s) && Enabled(s, a)
    ensures Inv(Take(s, a))
  {
    match a
    case Start(table, startId, batchSize) => StartKeepsInv(s, table, startId, batchSize);
    case Stop =>
    case Shutdown =>
    case Work(move) => WorkKeepsInv(s, move);
    case Finish => FinishKeepsInv(s);
  }

  /* ---------------------------------------------------------------- progress */

  /** `later` is the same job, as it was or further on; once finished it stays as it is. */
  predicate Further(job: Job, later: Job) {
    && job.history <= later.history && job.discovered <= later.discovered && job.nextId <= later.nextId
    && job.startId == later.startId && job.table == later.table
    && (Terminal(job) ==> later == job)
  }

  lemma StepGoesFurther(s: State, a: Action)
    requires Inv(s) && Enabled(s, a)
    ensures forall i: nat | i in s.all :: i in Take(s, a).all && Further(s.all[i], Take(s, a).all[i])
  {
  }

  /** Steps of the worker left before it is idle, once it has been told to stop. */
  function Left(worker: Worker): nat {
    match worker
    case Idle => 0
    case Busy(_, phase) =>
      match phase
      case Ending(_) => 1
      case Writing(_, _) => 2
      case Walking(_) => 3
      case Merging(_, _) => 4
      case Sending(_, _) => 5
      case Extracting(_, _) => 6
      case Numbering(_) => 7
      case Loading => 8
      case Starting => 9
      case Submitted => 10
  }

  lemma StoppedWorkerRunsOut(s: State, a: Action)
    requires Inv(s) && s.stop && Enabled(s, a)
    ensures Take(s, a).stop
    ensures if a.Work? || a.Finish? then Left(Take(s, a).worker) < Left(s.worker) else Take(s, a).worker == s.worker
  {
  }

  /** A busy worker is never stuck. */
  lemma BusyWorkerCanWork(s: State)
    requires Inv(s) && s.worker.Busy?
    ensures Enabled(s, Finish) || exists move :: Enabled(s, Work(move))
  {
    var phase := s.worker.phase;
    var move :=
      match phase
      case Submitted => CheckStop
      case Starting => SetRunning
      case Loading => Loaded
      case Walking(_) => NextFile
      case Numbering(_) => Number
      case Extracting(_, _) => Extracted
      case Writing(_, _) => WriteBatch
      case Sending(batch, _) => Sent(seq(|batch|, _ => Inserted))
      case Merging(_, _) => Merge
      case Ending(_) => Fatal;
    if !phase.Ending? {
      assert Enabled(s, Work(move));
    }
  }

  /* ---------------------------------------------------------------- runs */

  /** The states of a run and the actions between them, in any order the requests and the worker choose. */
  datatype Run = Run(states: seq<State>, actions: seq<Action>)

  ghost predicate StepAt(r: Run, i: nat) {
    && i < |r.actions| && i + 1 < |r.states|
    && Enabled(r.states[i], r.actions[i]) && r.states[i + 1] == Take(r.states[i], r.actions[i])
  }

  ghost predicate Steps(r: Run) {
    |r.states| == |r.actions| + 1 && forall i | 0 <= i < |r.actions| :: StepAt(r, i)
  }

  /** The run begins with the server. */
  ghost predicate FromStart(r: Run) {
    Steps(r) && r.states[0] == INITIAL
  }

  /** How many of the actions from `i` up to `j` are the worker's. */
  function WorkIn(actions: seq<Action>, i: nat, j: nat): nat
    requires i <= j <= |actions|
  {
    if i == j then 0
    else WorkIn(actions, i, j - 1) + if actions[j - 1].Work? || actions[j - 1].Finish? then 1 else 0
  }

  lemma {:induction false} RunsKeepInv(r: Run, i: nat, j: nat)
    requires Steps(r) && i <= j < |r.states| && Inv(r.states[i])
    ensures Inv(r.states[j])
  {
    if i < j {
      var last: nat := j - 1;
      RunsKeepInv(r, i, last);
      assert StepAt(r, last);
      StepKeepsInv(r.states[last], r.actions[last]);
    }
  }

  lemma {:induction false} RunsGoFurther(r: Run, i: nat, j: nat, id: nat)
    requires Steps(r) && i <= j < |r.states| && Inv(r.states[i]) && id in r.states[i].all
    ensures id in r.states[j].all && Further(r.states[i].all[id], r.states[j].all[id])
  {
    if i < j {
      var last: nat := j - 1;
      RunsGoFurther(r, i, last, id);
      RunsKeepInv(r, i, last);
      assert StepAt(r, last);
      StepGoesFurther(r.states[last], r.actions[last]);
    }
  }

  /** Whatever happens in whatever order, the invariant holds from the start of the server. */
  lemma ReachableStatesAreSound(r: Run, i: nat)
    requires FromStart(r) && i < |r.states|
    ensures Inv(r.states[i])
  {
    RunsKeepInv(r, 0, i);
  }

  /** Once closing has begun the worker takes at most ten more steps, so closing ends. */
  lemma {:induction false} ClosingEnds(r: Run, i: nat, j: nat)
    requires FromStart(r) && i <= j < |r.states| && r.states[i].stop
    ensures r.states[j].stop && WorkIn(r.actions, i, j) + Left(r.states[j].worker) <= Left(r.states[i].worker)
    ensures WorkIn(r.actions, i, j) <= 10
  {
    if i < j {
      var last: nat := j - 1;
      ClosingEnds(r, i, last);
      ReachableStatesAreSound(r, last);
      assert StepAt(r, last);
      StoppedWorkerRunsOut(r.states[last], r.actions[last]);
    }
  }

  /* ---------------------------------------------------------------- what a request sees */

  datatype Response = Response(status: Status, discovered: nat, processed: nat, nextId: nat, report: Report, truncated: bool)

  function Get(s: State, table: string, id: nat): Option<Response> {
    if id in s.retained && id in s.all && s.all[id].table == table then
      var job := s.all[id];
      var report := Summary(job.history);
      Some(Response(job.status, job.discovered, report.inserted + report.failed, job.nextId, report, Truncated(report)))
    else None
  }

  predicate AddsUp(r: Response, startId: nat) {
    && r.nextId == startId + r.discovered && r.nextId <= INT32_MAX + 1
    && r.processed <= r.discovered
    && (r.status == Completed ==> r.processed == r.discovered)
    && |r.report.errors| == Least(r.report.failed, MAX_REPORTED_ERRORS)
    && (r.truncated <==> MAX_REPORTED_ERRORS < r.report.failed)
  }

  /** Every answer adds up: identifiers were used for the discovered files and no others, nothing is
      processed that was not discovered, a completed load has processed everything, and as many
      errors are named as there were, up to a hundred. */
  lemma AnswersAddUp(r: Run, i: nat, table: string, id: nat)
    requires FromStart(r) && i < |r.states|
    ensures var s := r.states[i];
      Get(s, table, id).Some? ==> AddsUp(Get(s, table, id).value, s.all[id].startId)
  {
    ReachableStatesAreSound(r, i);
  }

  /** A job can be looked up until thirty-two more have been started, and the active one always. */
  lemma RecentJobsAreRetained(r: Run, i: nat, id: nat)
    requires FromStart(r) && i < |r.states|
    ensures var s := r.states[i];
      && (id in s.retained <==> s.started - MAX_RETAINED_JOBS <= id < s.started)
      && (s.active == Some(id) ==> id in s.retained)
  {
    ReachableStatesAreSound(r, i);
    var s := r.states[i];
    var k := id - (s.started - |s.retained|);
    if 0 <= k < |s.retained| {
      assert s.retained[k] == id;
    }
  }

  /** At most one job is unfinished. A new one is submitted only when the executor has nothing else
      to do and has not been shut down. */
  lemma OneAtATime(r: Run, i: nat)
    requires FromStart(r) && i < |r.states|
    ensures var s := r.states[i];
      && (forall a: nat, b: nat | a in s.all && b in s.all && !Terminal(s.all[a]) && !Terminal(s.all[b]) :: a == b)
      && (forall table, startId, batchSize | Enabled(s, Start(table, startId, batchSize)) :: s.worker.Idle? && !s.shutdown)
  {
    ReachableStatesAreSound(r, i);
  }

  /* ---------------------------------------------------------------- the object */

  class Jobs {
    var all: map<nat, Job>
    var retained: seq<nat>
    var started: nat
    var active: Option<nat>
    var stop: bool
    var shutdown: bool
    var worker: Worker

    function Now(): State
      reads this
    {
      State(all, retained, started, active, stop, shutdown, worker)
    }

    constructor ()
      ensures Now() == INITIAL
    {
      all, retained, started, active, stop, shutdown, worker := map[], [], 0, None, false, false, Idle;
    }

    method Evict()
      modifies `retained
      ensures retained == Evicted(old(retained))
    {
      while MAX_RETAINED_JOBS <= |retained|
        invariant Evicted(retained) == Evicted(old(retained))
        decreases |retained|
      {
        retained := retained[1..];
      }
    }

    /** What starting does while it holds the lock. */
    method StartJob(table: string, startId: nat, batchSize: nat) returns (id: Option<nat>)
      requires Inv(Now()) && startId <= INT32_MAX && 1 <= batchSize
      modifies this
      ensures Inv(Now())
      ensures id.Some? <==> Enabled(old(Now()), Start(table, startId, batchSize))
      ensures id.None? ==> Now() == old(Now())
      ensures id.Some? ==> Now() == Take(old(Now()), Start(table, startId, batchSize)) && id.value == old(started)
    {
      if stop || active.Some? {
        return None;
      }
      StartKeepsInv(Now(), table, startId, batchSize);
      Evict();
      all := all[started := Job(table, startId, batchSize, startId, 0, [], Pending)];
      retained := retained + [started];
      active := Some(started);
      worker := Busy(started, Submitted);
      id := Some(started);
      started := started + 1;
    }

    /** The number of the next file, taken while holding the lock; none is left past 32 bits. */
    method TakeNumber() returns (number: Option<nat>)
      requires Enabled(Now(), Work(Number))
      modifies `all, `worker
      ensures Now() == Take(old(Now()), Work(Number))
      ensures number.Some? <==> old(all[worker.job].nextId) <= INT32_MAX
      ensures number.Some? ==> number.value == old(all[worker.job].nextId)
    {
      var current, batch := worker.job, worker.phase.batch;
      var job := all[current];
      if INT32_MAX < job.nextId {
        worker := Busy(current, Ending(Broken));
        all := all[current := job];
        return None;
      }
      all := all[current := job.(nextId := job.nextId + 1, discovered := job.discovered + 1)];
      worker := Busy(current, Extracting(batch, job.nextId));
      return Some(job.nextId);
    }

    /** The end of a job, whatever ended it. */
    method FinishJob()
      requires Inv(Now()) && worker.Busy? && worker.phase.Ending?
      modifies this
      ensures Inv(Now()) && Now() == Take(old(Now()), Finish) && active.None?
    {
      FinishKeepsInv(Now());
      all := all[worker.job := all[worker.job].(status := worker.phase.status)];
      active := None;
      worker := Idle;
    }
  }
}
