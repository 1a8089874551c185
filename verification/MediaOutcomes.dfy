/** What a load reports and how it ends, told from the actions of a run alone. */
module MediaOutcomes {
  import opened Arithmetic
  import opened MediaJobs
  import opened MediaReport
  import opened Wrappers

  /* ---------------------------------------------------------------- what the actions tell */

  function Front(actions: seq<Action>): seq<Action>
    requires actions != []
  {
    actions[..|actions| - 1]
  }

  function Last(actions: seq<Action>): Action
    requires actions != []
  {
    actions[|actions| - 1]
  }

  /** How many jobs have been started. The last of them is the one the worker is busy with. */
  function Started(actions: seq<Action>): nat {
    if actions == [] then 0 else Started(Front(actions)) + if Last(actions).Start? then 1 else 0
  }

  predicate Stopped(actions: seq<Action>) {
    Stop in actions
  }

  /** What the table answered about the last batch sent to it. */
  function LastAnswer(actions: seq<Action>): seq<Outcome> {
    if actions == [] then []
    else match Last(actions)
      case Work(Sent(outcomes)) => outcomes
      case _ => LastAnswer(Front(actions))
  }

  /** The outcomes that an action names, after the actions `before`: a failed extraction is one
      failure, and merging takes over what the table answered. */
  function Names(before: seq<Action>, a: Action): seq<Outcome> {
    match a
    case Work(ExtractionFails(path, error)) => [Failure(path, error)]
    case Work(Merge) => LastAnswer(before)
    case _ => []
  }

  /** The outcomes named by the moves of job `id`, in their order. */
  function Named(actions: seq<Action>, id: nat): seq<Outcome> {
    if actions == [] then []
    else Named(Front(actions), id) + (if Started(actions) == id + 1 then Names(Front(actions), Last(actions)) else [])
  }

  /** How many files the job the worker is busy with has gone through. */
  function GoneThrough(actions: seq<Action>): nat {
    if actions == [] || Last(actions).Start? then 0
    else GoneThrough(Front(actions)) + if PastFile(Last(actions)) then 1 else 0
  }

  predicate PastFile(a: Action) {
    a.Work? && (a.move.Extracted? || a.move.ExtractionFails?)
  }

  /** How many rows have been extracted and not sent yet. */
  function Waiting(actions: seq<Action>): nat {
    if actions == [] || Last(actions).Start? || (Last(actions).Work? && Last(actions).move.Sent?) then 0
    else Waiting(Front(actions)) + if Last(actions) == Work(Extracted) then 1 else 0
  }

  /** The job the worker is busy with has come to the end of its files. */
  predicate AtTheEnd(actions: seq<Action>) {
    actions != [] && !Last(actions).Start? && (Last(actions) == Work(NoMoreFiles) || AtTheEnd(Front(actions)))
  }

  /** The status that a move decides on, after the actions `before`: the checks cancel a load once
      the server stops, running out of numbers and fatal errors break it, and it is complete when
      nothing is left to be written, or the last batch has been merged. */
  function Decides(before: seq<Action>, move: Move, startId: nat): Option<Status> {
    match move
    case CheckStop => if Stopped(before) then Some(Cancelled) else None
    case NextFile => if Stopped(before) then Some(Cancelled) else None
    case WriteBatch => if Stopped(before) then Some(Cancelled) else None
    case Number => if INT32_MAX < startId + GoneThrough(before) then Some(Broken) else None
    case Fatal => Some(Broken)
    case NoMoreFiles => if Waiting(before) == 0 then Some(Completed) else None
    case Merge => if AtTheEnd(before) then Some(Completed) else None
    case _ => None
  }

  /** What the last move of the worker has decided about its job. */
  function Fate(actions: seq<Action>, startId: nat): Option<Status> {
    if actions == [] || Last(actions).Start? then None
    else if Last(actions).Work? then Decides(Front(actions), Last(actions).move, startId)
    else Fate(Front(actions), startId)
  }

  /** How many jobs have ended. */
  function Finished(actions: seq<Action>): nat {
    if actions == [] then 0 else Finished(Front(actions)) + if Last(actions) == Finish then 1 else 0
  }

  /** The request that started job `id`. */
  function RequestFor(actions: seq<Action>, id: nat): (a: Action)
    requires id < Started(actions)
    ensures a.Start?
  {
    if Last(actions).Start? && Started(Front(actions)) == id then Last(actions) else RequestFor(Front(actions), id)
  }

  /** How many files of job `id` were given a number: none is left past 32 bits. */
  function Discovered(actions: seq<Action>, id: nat, startId: nat): nat {
    if actions == [] then 0
    else
      var before := Discovered(Front(actions), id, startId);
      if Started(actions) == id + 1 && Last(actions) == Work(Number) && startId + before <= INT32_MAX then before + 1 else before
  }

  /** A job is pending until the worker sets it running, and ends with what its moves decided. */
  function StatusOf(actions: seq<Action>, id: nat, startId: nat): Status {
    if actions == [] then Pending
    else if Started(actions) == id + 1 && Last(actions).Start? then Pending
    else if Started(actions) == id + 1 && Last(actions) == Work(SetRunning) then Running
    else if Started(actions) == id + 1 && Last(actions) == Finish && Fate(Front(actions), startId).Some? then
      Fate(Front(actions), startId).value
    else StatusOf(Front(actions), id, startId)
  }

  /** The last move of the worker for the job it is busy with. */
  function LastMove(actions: seq<Action>): Option<Move> {
    if actions == [] || Last(actions).Start? then None
    else if Last(actions).Work? then Some(Last(actions).move)
    else LastMove(Front(actions))
  }

  /** The files are being gone through, and the batch at hand is not full. */
  predicate BetweenFiles(last: Option<Move>, waiting: nat, batchSize: nat) {
    && last.Some?
    && (last.value.Loaded? || last.value.Merge?
        || ((last.value.Extracted? || last.value.ExtractionFails?) && waiting < batchSize))
  }

  /** The order of the moves: files are numbered and extracted one at a time, a batch is written when it
      is full or the files end, and fatal errors come from the start of the worker, from loading the
      vocabulary, from going through the folder, or from writing to the table. */
  predicate MayFollow(last: Option<Move>, waiting: nat, batchSize: nat, move: Move) {
    match move
    case CheckStop => last.None?
    case SetRunning => last == Some(CheckStop)
    case Loaded => last == Some(SetRunning)
    case NextFile => BetweenFiles(last, waiting, batchSize)
    case NoMoreFiles => BetweenFiles(last, waiting, batchSize)
    case Number => last == Some(NextFile)
    case Extracted => last == Some(Number)
    case ExtractionFails(_, _) => last == Some(Number)
    case WriteBatch =>
      && last.Some?
      && (last.value.NoMoreFiles? || ((last.value.Extracted? || last.value.ExtractionFails?) && batchSize <= waiting))
    case Sent(outcomes) => last == Some(WriteBatch) && |outcomes| == waiting
    case Merge => last.Some? && last.value.Sent?
    case Fatal => last.None? || last == Some(SetRunning) || BetweenFiles(last, waiting, batchSize) || last == Some(WriteBatch)
  }

  /* ---------------------------------------------------------------- what a state knows of it */

  ghost predicate FateTells(actions: seq<Action>, job: Job, phase: Phase) {
    && Fate(actions, job.startId) == (if phase.Ending? then Some(phase.status) else None)
    && LedTo(LastMove(actions), Waiting(actions), job.batchSize, phase)
  }

  ghost predicate PhaseTells(actions: seq<Action>, job: Job, phase: Phase) {
    && (phase.Extracting? ==> job.discovered == GoneThrough(actions) + 1)
    && (!phase.Extracting? ==> job.discovered == GoneThrough(actions))
    && (match phase
        case Submitted => Waiting(actions) == 0 && !AtTheEnd(actions)
        case Starting => Waiting(actions) == 0 && !AtTheEnd(actions)
        case Loading => Waiting(actions) == 0 && !AtTheEnd(actions)
        case Walking(batch) => Waiting(actions) == |batch| && !AtTheEnd(actions)
        case Numbering(batch) => Waiting(actions) == |batch| && !AtTheEnd(actions)
        case Extracting(batch, _) => Waiting(actions) == |batch| && !AtTheEnd(actions)
        case Writing(batch, last) => Waiting(actions) == |batch| && last == AtTheEnd(actions)
        case Sending(batch, last) => Waiting(actions) == |batch| && last == AtTheEnd(actions)
        case Merging(outcomes, last) =>
          outcomes == LastAnswer(actions) && Waiting(actions) == 0 && last == AtTheEnd(actions)
        case Ending(_) => true)
  }

  /** The phase that the last move led to. */
  predicate LedTo(last: Option<Move>, waiting: nat, batchSize: nat, phase: Phase) {
    match phase
    case Submitted => last.None?
    case Starting => last == Some(CheckStop)
    case Loading => last == Some(SetRunning)
    case Walking(_) => BetweenFiles(last, waiting, batchSize)
    case Numbering(_) => last == Some(NextFile)
    case Extracting(_, _) => last == Some(Number)
    case Writing(_, _) =>
      && last.Some?
      && (last.value.NoMoreFiles? || ((last.value.Extracted? || last.value.ExtractionFails?) && batchSize <= waiting))
    case Sending(_, _) => last == Some(WriteBatch)
    case Merging(_, _) => last.Some? && last.value.Sent?
    case Ending(_) => last.Some?
  }

  /** The job is what the actions say of it. */
  ghost predicate JobTells(actions: seq<Action>, job: Job, id: nat) {
    && id < Started(actions)
    && Start(job.table, job.startId, job.batchSize) == RequestFor(actions, id)
    && job.history == Named(actions, id)
    && job.discovered == Discovered(actions, id, job.startId)
    && job.status == StatusOf(actions, id, job.startId)
  }

  ghost predicate Tells(actions: seq<Action>, s: State) {
    && (s.stop <==> Stopped(actions))
    && s.started == Started(actions) == Finished(actions) + (if s.active.Some? then 1 else 0)
    && (s.worker.Busy? && s.worker.job in s.all ==>
          && FateTells(actions, s.all[s.worker.job], s.worker.phase)
          && PhaseTells(actions, s.all[s.worker.job], s.worker.phase))
  }

  lemma {:induction false} NothingBefore(actions: seq<Action>, id: nat, startId: nat)
    requires Started(actions) <= id
    ensures Named(actions, id) == [] && Discovered(actions, id, startId) == 0
  {
    if actions != [] {
      NothingBefore(Front(actions), id, startId);
    }
  }

  lemma FrontOfMore(actions: seq<Action>, a: Action)
    ensures Front(actions + [a]) == actions && Last(actions + [a]) == a
  {
  }

  /** What happens to other jobs says nothing of this one. */
  lemma OtherJobTells(actions: seq<Action>, a: Action, job: Job, id: nat)
    requires JobTells(actions, job, id) && Started(actions + [a]) != id + 1
    ensures JobTells(actions + [a], job, id)
  {
    FrontOfMore(actions, a);
  }

  lemma QuietJobTells(actions: seq<Action>, a: Action, job: Job, id: nat)
    requires JobTells(actions, job, id) && (a.Stop? || a.Shutdown?)
    ensures JobTells(actions + [a], job, id)
  {
    FrontOfMore(actions, a);
  }

  lemma NewJobTells(actions: seq<Action>, a: Action, job: Job, id: nat)
    requires a.Start? && id == Started(actions) && job == Job(a.table, a.startId, a.batchSize, a.startId, 0, [], Pending)
    ensures JobTells(actions + [a], job, id)
  {
    FrontOfMore(actions, a);
    NothingBefore(actions, id, a.startId);
  }

  lemma WorkedJobTells(actions: seq<Action>, job: Job, phase: Phase, stop: bool, move: Move, id: nat)
    requires JobTells(actions, job, id) && id + 1 == Started(actions)
    requires JobOk(job) && Suits(move, phase)
    requires Worked(job, phase, stop, move).0.history == job.history + Names(actions, Work(move))
    ensures JobTells(actions + [Work(move)], Worked(job, phase, stop, move).0, id)
  {
    FrontOfMore(actions, Work(move));
  }

  lemma FinishedJobTells(actions: seq<Action>, job: Job, status: Status, id: nat)
    requires JobTells(actions, job, id) && id + 1 == Started(actions) && Fate(actions, job.startId) == Some(status)
    ensures JobTells(actions + [Finish], job.(status := status), id)
  {
    FrontOfMore(actions, Finish);
  }

  ghost predicate JobsTell(actions: seq<Action>, all: map<nat, Job>) {
    forall id: nat | id in all :: JobTells(actions, all[id], id)
  }

  lemma StartTellsJobs(actions: seq<Action>, all: map<nat, Job>, a: Action, started: nat, job: Job)
    requires JobsTell(actions, all) && (forall id: nat | id in all :: id < started)
    requires started == Started(actions) && JobTells(actions + [a], job, started) && a.Start?
    ensures JobsTell(actions + [a], all[started := job])
  {
    FrontOfMore(actions, a);
    forall id: nat | id in all
      ensures JobTells(actions + [a], all[id], id)
    {
      OtherJobTells(actions, a, all[id], id);
    }
  }

  lemma WorkTellsJobs(actions: seq<Action>, s: State, a: Action)
    requires Inv(s) && JobsTell(actions, s.all) && s.started == Started(actions) && Enabled(s, a) && a.Work?
    requires var job := s.all[s.worker.job];
      Worked(job, s.worker.phase, s.stop, a.move).0.history == job.history + Names(actions, a)
    ensures JobsTell(actions + [a], Take(s, a).all)
  {
    FrontOfMore(actions, a);
    var job := s.worker.job;
    WorkedJobTells(actions, s.all[job], s.worker.phase, s.stop, a.move, job);
    forall id: nat | id in s.all && id != job
      ensures JobTells(actions + [a], s.all[id], id)
    {
      OtherJobTells(actions, a, s.all[id], id);
    }
  }

  lemma FinishTellsJobs(actions: seq<Action>, s: State)
    requires Inv(s) && JobsTell(actions, s.all) && s.started == Started(actions) && Enabled(s, Finish)
    requires Fate(actions, s.all[s.worker.job].startId) == Some(s.worker.phase.status)
    ensures JobsTell(actions + [Finish], Take(s, Finish).all)
  {
    FrontOfMore(actions, Finish);
    var job := s.worker.job;
    FinishedJobTells(actions, s.all[job], s.worker.phase.status, job);
    forall id: nat | id in s.all && id != job
      ensures JobTells(actions + [Finish], s.all[id], id)
    {
      OtherJobTells(actions, Finish, s.all[id], id);
    }
  }

  lemma QuietTellsJobs(actions: seq<Action>, all: map<nat, Job>, a: Action)
    requires JobsTell(actions, all) && (a.Stop? || a.Shutdown?)
    ensures JobsTell(actions + [a], all)
  {
    forall id: nat | id in all
      ensures JobTells(actions + [a], all[id], id)
    {
      QuietJobTells(actions, a, all[id], id);
    }
  }

  lemma WorkerPhaseTells(actions: seq<Action>, job: Job, phase: Phase, stop: bool, move: Move)
    requires PhaseOk(job, phase) && PhaseTells(actions, job, phase) && Suits(move, phase)
    ensures PhaseTells(actions + [Work(move)], Worked(job, phase, stop, move).0, Worked(job, phase, stop, move).1)
    ensures Worked(job, phase, stop, move).0.history == job.history + Names(actions, Work(move))
  {
    FrontOfMore(actions, Work(move));
  }

  lemma WorkerFateTells(actions: seq<Action>, job: Job, phase: Phase, stop: bool, move: Move)
    requires JobOk(job) && PhaseOk(job, phase) && PhaseTells(actions, job, phase) && FateTells(actions, job, phase)
    requires Suits(move, phase) && (stop <==> Stopped(actions))
    ensures FateTells(actions + [Work(move)], Worked(job, phase, stop, move).0, Worked(job, phase, stop, move).1)
  {
    FrontOfMore(actions, Work(move));
  }

  lemma StepTells(actions: seq<Action>, s: State, a: Action)
    requires Inv(s) && Tells(actions, s) && Enabled(s, a)
    ensures Tells(actions + [a], Take(s, a))
  {
    FrontOfMore(actions, a);
    if a.Work? {
      WorkerPhaseTells(actions, s.all[s.worker.job], s.worker.phase, s.stop, a.move);
      WorkerFateTells(actions, s.all[s.worker.job], s.worker.phase, s.stop, a.move);
    }
  }

  lemma StepTellsJobs(actions: seq<Action>, s: State, a: Action)
    requires Inv(s) && Tells(actions, s) && JobsTell(actions, s.all) && Enabled(s, a)
    ensures JobsTell(actions + [a], Take(s, a).all)
  {
    match a
    case Start(table, startId, batchSize) =>
      var job := Job(table, startId, batchSize, startId, 0, [], Pending);
      NewJobTells(actions, a, job, s.started);
      StartTellsJobs(actions, s.all, a, s.started, job);
    case Work(move) =>
      WorkerPhaseTells(actions, s.all[s.worker.job], s.worker.phase, s.stop, move);
      WorkTellsJobs(actions, s, a);
    case Finish => FinishTellsJobs(actions, s);
    case _ => QuietTellsJobs(actions, s.all, a);
  }

  lemma {:induction false} RunTells(r: Run, i: nat)
    requires FromStart(r) && i < |r.states|
    ensures Tells(r.actions[..i], r.states[i]) && JobsTell(r.actions[..i], r.states[i].all)
  {
    if i != 0 {
      var last: nat := i - 1;
      RunTells(r, last);
      ReachableStatesAreSound(r, last);
      assert StepAt(r, last);
      assert r.actions[..i] == r.actions[..last] + [r.actions[last]];
      StepTells(r.actions[..last], r.states[last], r.actions[last]);
      StepTellsJobs(r.actions[..last], r.states[last], r.actions[last]);
    }
  }

  /* ---------------------------------------------------------------- what can happen */

  /** A load can be started exactly while the server is not closing and every earlier load has ended. */
  lemma StartsAreAllowed(r: Run, i: nat, table: string, startId: nat, batchSize: nat)
    requires FromStart(r) && i < |r.states|
    ensures Enabled(r.states[i], Start(table, startId, batchSize)) <==>
            && startId <= 0x7FFF_FFFF && 1 <= batchSize && Stop !in r.actions[..i]
            && Finished(r.actions[..i]) == Started(r.actions[..i])
  {
    RunTells(r, i);
  }

  /** The worker's next moves are those that may follow its last one, until its fate is decided. */
  lemma MovesAreAllowed(r: Run, i: nat, move: Move)
    requires FromStart(r) && i < |r.states| && r.states[i].worker.Busy?
    ensures var s, actions := r.states[i], r.actions[..i];
      && s.worker.job in s.all
      && var job := s.all[s.worker.job];
      && (Enabled(s, Work(move)) <==>
          Fate(actions, job.startId).None? && MayFollow(LastMove(actions), Waiting(actions), job.batchSize, move))
  {
    RunTells(r, i);
    ReachableStatesAreSound(r, i);
  }

  /* ---------------------------------------------------------------- reports */

  /** What a request sees follows from the actions so far: the status, the files that were given a number,
      and the summary of the outcomes that the job's moves have named. It sees the jobs of its table
      among the last thirty-two. */
  lemma AnswersAreOfMoves(r: Run, i: nat, table: string, id: nat)
    requires FromStart(r) && i < |r.states|
    ensures var actions := r.actions[..i];
      Get(r.states[i], table, id).Some? <==>
      Started(actions) - 32 <= id < Started(actions) && RequestFor(actions, id).table == table
    ensures var actions := r.actions[..i];
      Get(r.states[i], table, id).Some? ==>
        var startId, report := RequestFor(actions, id).startId, Summary(Named(actions, id));
        var discovered := Discovered(actions, id, startId);
        Get(r.states[i], table, id).value
        == Response(StatusOf(actions, id, startId), discovered, |Named(actions, id)|, startId + discovered, report,
                    100 < report.failed)
  {
    RunTells(r, i);
    ReachableStatesAreSound(r, i);
    RecentJobsAreRetained(r, i, id);
    SummaryBounds(Named(r.actions[..i], id));
  }

  lemma ReportIsOfMoves(r: Run, i: nat, table: string, id: nat)
    requires FromStart(r) && i < |r.states| && Get(r.states[i], table, id).Some?
    ensures Get(r.states[i], table, id).value.report == Summary(Named(r.actions[..i], id))
  {
    RunTells(r, i);
  }

  /** How many extractions of the job failed. */
  function FailedExtractions(actions: seq<Action>, id: nat): nat {
    if actions == [] then 0
    else
      FailedExtractions(Front(actions), id)
      + if Started(actions) == id + 1 && Last(actions).Work? && Last(actions).move.ExtractionFails? then 1 else 0
  }

  /** All that the table answered about batches of the job that were merged. */
  function Merged(actions: seq<Action>, id: nat): seq<Outcome> {
    if actions == [] then []
    else
      Merged(Front(actions), id)
      + if Started(actions) == id + 1 && Last(actions) == Work(Merge) then LastAnswer(Front(actions)) else []
  }

  lemma NamesCount(before: seq<Action>, a: Action)
    ensures |Names(before, a)|
         == (if a.Work? && a.move.ExtractionFails? then 1 else 0) + |if a == Work(Merge) then LastAnswer(before) else []|
    ensures multiset(Names(before, a))[Inserted] == multiset(if a == Work(Merge) then LastAnswer(before) else [])[Inserted]
  {
  }

  lemma BothCount(a: seq<Outcome>, b: seq<Outcome>)
    ensures |a + b| == |a| + |b| && multiset(a + b)[Inserted] == multiset(a)[Inserted] + multiset(b)[Inserted]
  {
  }

  lemma {:induction false} NamedCounts(actions: seq<Action>, id: nat)
    ensures |Named(actions, id)| == FailedExtractions(actions, id) + |Merged(actions, id)|
    ensures multiset(Named(actions, id))[Inserted] == multiset(Merged(actions, id))[Inserted]
  {
    if actions != [] {
      var front, last := Front(actions), Last(actions);
      NamedCounts(front, id);
      if Started(actions) == id + 1 {
        NamesCount(front, last);
        BothCount(Named(front, id), Names(front, last));
        BothCount(Merged(front, id), if last == Work(Merge) then LastAnswer(front) else []);
      }
    }
  }

  /** The files reported as inserted are those the table answered so about; every failed extraction is
      reported as failed, besides the failures the table answered. */
  lemma ReportCounts(r: Run, i: nat, table: string, id: nat)
    requires FromStart(r) && i < |r.states| && Get(r.states[i], table, id).Some?
    ensures var report, merged := Get(r.states[i], table, id).value.report, Merged(r.actions[..i], id);
      && report.inserted == multiset(merged)[Inserted]
      && report.failed == FailedExtractions(r.actions[..i], id) + |merged| - multiset(merged)[Inserted]
  {
    ReportIsOfMoves(r, i, table, id);
    NamedCounts(r.actions[..i], id);
    SummaryMeans(Named(r.actions[..i], id));
  }

  /** What the moves of a job have named stays named. */
  lemma {:induction false} NamedGrows(actions: seq<Action>, n: nat, id: nat)
    requires n <= |actions|
    ensures Named(actions[..n], id) <= Named(actions, id)
  {
    if n == |actions| {
      assert actions[..n] == actions;
    } else {
      assert Front(actions)[..n] == actions[..n];
      NamedGrows(Front(actions), n, id);
    }
  }

  /** A file whose extraction fails is, from then on, the next failure of its job's report: it is named
      there if fewer than a hundred failed before it. */
  lemma FailureIsReported(r: Run, k: nat, i: nat, table: string)
    requires FromStart(r) && k < i < |r.states| && r.actions[k].Work? && r.actions[k].move.ExtractionFails?
    requires r.states[k].worker.Busy? && Get(r.states[i], table, r.states[k].worker.job).Some?
    ensures var id, move := r.states[k].worker.job, r.actions[k].move;
      var named, report := Named(r.actions[..k], id), Get(r.states[i], table, id).value.report;
      var before := FailedAmong(named, |named|);
      && 0 <= before < report.failed
      && (before < 100 ==> NamesFailure(report.errors, before, Failure(move.path, move.error)))
  {
    var id, move := r.states[k].worker.job, r.actions[k].move;
    var before, now := r.actions[..k], r.actions[..i];
    var outcomes, at := Named(now, id), |Named(before, id)|;
    FailureIsNamed(r, k, i, id);
    assert outcomes[..at] == Named(before, id) == Named(before, id)[..at];
    ReportIsOfMoves(r, i, table, id);
    SummaryMeans(outcomes);
    FailureAt(outcomes, at);
  }

  lemma FailureIsNamed(r: Run, k: nat, i: nat, id: nat)
    requires FromStart(r) && k < i < |r.states| && r.actions[k].Work? && r.actions[k].move.ExtractionFails?
    requires r.states[k].worker.Busy? && id == r.states[k].worker.job
    ensures var named, now := Named(r.actions[..k], id), Named(r.actions[..i], id);
      && |named| < |now| && named <= now
      && now[|named|] == Failure(r.actions[k].move.path, r.actions[k].move.error)
  {
    var next: nat := k + 1;
    var before, after, now := r.actions[..k], r.actions[..next], r.actions[..i];
    assert StepAt(r, k);
    RunTells(r, k);
    ReachableStatesAreSound(r, k);
    assert after == before + [r.actions[k]];
    FrontOfMore(before, r.actions[k]);
    assert Named(after, id) == Named(before, id) + [Failure(r.actions[k].move.path, r.actions[k].move.error)];
    assert now[..next] == after;
    NamedGrows(now, next, id);
  }

  /* ---------------------------------------------------------------- how a job ends */

  /** The worker can finish as soon as its last move has decided how, and then does nothing else; the job
      ends with the status that was decided. */
  lemma DecidedJobsEnd(r: Run, i: nat)
    requires FromStart(r) && i < |r.states| && r.states[i].worker.Busy?
    ensures var s := r.states[i];
      && s.worker.job in s.all
      && var fate := Fate(r.actions[..i], s.all[s.worker.job].startId);
      && (Enabled(s, Finish) <==> fate.Some?)
      && (fate.Some? ==> forall move :: !Enabled(s, Work(move)))
      && (fate.Some? ==> Take(s, Finish).all[s.worker.job] == s.all[s.worker.job].(status := fate.value))
  {
    RunTells(r, i);
    ReachableStatesAreSound(r, i);
  }

  /** A job that is shown to have ended did so as its moves had decided. */
  lemma {:induction false} EndedAsDecided(actions: seq<Action>, id: nat, startId: nat) returns (f: nat)
    requires StatusOf(actions, id, startId) != Pending && StatusOf(actions, id, startId) != Running
    ensures f < |actions| && actions[f] == Finish && Started(actions[..f]) == id + 1
    ensures Fate(actions[..f], startId) == Some(StatusOf(actions, id, startId))
  {
    if Started(actions) == id + 1 && Last(actions) == Finish && Fate(Front(actions), startId).Some? {
      f := |actions| - 1;
    } else {
      f := EndedAsDecided(Front(actions), id, startId);
      assert Front(actions)[..f] == actions[..f];
    }
  }
}
