/** The job scheduler as a state machine: one mutating operation per Gradle root, the others waiting in order. */
module JobScheduling {
  import opened Wrappers
  import opened Bytes
  import opened OutputBuffers

  const JOB_HISTORY_LIMIT: nat := 50
  const MAX_CANCELLATION_REQUESTS: nat := 255

  type JobId = string

  datatype JobState = Queued | Starting | Running | Cancelling | Succeeded | Failed | Cancelled

  predicate IsTerminal(state: JobState) {
    state.Succeeded? || state.Failed? || state.Cancelled?
  }

  /** `details` stands for the fields of a record the scheduler never looks at. */
  datatype JobRecord = JobRecord(
    id: JobId, state: JobState, finishedAt: Option<string>, durationMs: Option<nat>, exitCode: Option<int>,
    diagnostics: seq<string>, details: string)

  datatype JobRequest = JobRequest(record: JobRecord, root: Option<string>)

  datatype JobSchedule = StartNow | Wait

  datatype CancellationDirective = NoSignal | Graceful | Force

  datatype JobFinish = JobFinish(state: JobState, finishedAt: string, durationMs: nat, exitCode: Option<int>)

  datatype Job = Job(record: JobRecord, root: Option<string>, output: Output, cancellationRequests: nat)

  datatype SchedulerError =
    | DuplicateJob(id: JobId)
    | UnknownJob(id: JobId)
    | JobAlreadyFinished(id: JobId)
    | InvalidTransition(id: JobId, from: JobState, to: JobState)
    | InvalidTerminalState(state: JobState)

  datatype Scheduler = Scheduler(
    jobs: map<JobId, Job>, queued: seq<JobId>, activeRoots: set<string>, history: seq<JobRecord>, outputCapacity: nat)

  function Empty(outputCapacity: nat): Scheduler {
    Scheduler(map[], [], {}, [], outputCapacity)
  }

  // ---------------------------------------------------------------------------------------------
  // Operations
  // ---------------------------------------------------------------------------------------------

  predicate Blocked(s: Scheduler, root: Option<string>) {
    root.Some? && root.value in s.activeRoots
  }

  function Submit(s: Scheduler, request: JobRequest): (Scheduler, Result<JobSchedule, SchedulerError>) {
    var id := request.record.id;
    if id in s.jobs then (s, Err(DuplicateJob(id)))
    else if IsTerminal(request.record.state) then (s, Err(InvalidTransition(id, request.record.state, Queued)))
    else
      var blocked := Blocked(s, request.root);
      var record := request.record.(state := if blocked then Queued else Starting);
      var job := Job(record, request.root, Output([], s.outputCapacity, 0), 0);
      var s' := s.(jobs := s.jobs[id := job]);
      if blocked then (s'.(queued := s.queued + [id]), Ok(Wait))
      else (s'.(activeRoots := s.activeRoots + RootSet(request.root)), Ok(StartNow))
  }

  function RootSet(root: Option<string>): set<string> {
    if root.Some? then {root.value} else {}
  }

  function WithState(job: Job, state: JobState): Job {
    job.(record := job.record.(state := state))
  }

  function MarkRunning(s: Scheduler, id: JobId): (Scheduler, Result<(), SchedulerError>) {
    if id !in s.jobs then (s, Err(UnknownJob(id)))
    else if s.jobs[id].record.state != Starting then
      (s, Err(InvalidTransition(id, s.jobs[id].record.state, Running)))
    else (s.(jobs := s.jobs[id := WithState(s.jobs[id], Running)]), Ok(()))
  }

  function AppendOutput(s: Scheduler, id: JobId, bytes: seq<Byte>): (Scheduler, Result<(), SchedulerError>) {
    if id !in s.jobs then (s, Err(UnknownJob(id)))
    else if IsTerminal(s.jobs[id].record.state) then (s, Err(JobAlreadyFinished(id)))
    else (s.(jobs := s.jobs[id := s.jobs[id].(output := Append(s.jobs[id].output, bytes))]), Ok(()))
  }

  function AddDiagnostic(s: Scheduler, id: JobId, diagnostic: string): (Scheduler, Result<(), SchedulerError>) {
    if id !in s.jobs then (s, Err(UnknownJob(id)))
    else if IsTerminal(s.jobs[id].record.state) then (s, Err(JobAlreadyFinished(id)))
    else
      var record := s.jobs[id].record;
      var record' := record.(diagnostics := record.diagnostics + [diagnostic]);
      (s.(jobs := s.jobs[id := s.jobs[id].(record := record')]), Ok(()))
  }

  // The queue without the entries of `id`.
  function Without(queue: seq<JobId>, id: JobId): (r: seq<JobId>)
    ensures forall q :: q in r <==> q in queue && q != id
  {
    if queue == [] then []
    else if queue[0] == id then Without(queue[1..], id)
    else [queue[0]] + Without(queue[1..], id)
  }

  function Record(history: seq<JobRecord>, record: JobRecord): seq<JobRecord> {
    (if |history| == JOB_HISTORY_LIMIT then history[1..] else history) + [record]
  }

  function Cancel(s: Scheduler, id: JobId): (Scheduler, Result<CancellationDirective, SchedulerError>) {
    if id !in s.jobs then (s, Err(UnknownJob(id)))
    else
      var job := s.jobs[id];
      match job.record.state
      case Queued =>
        (s.(jobs := s.jobs - {id}, queued := Without(s.queued, id),
            history := Record(s.history, WithState(job, Cancelled).record)), Ok(NoSignal))
      case Starting | Running =>
        (s.(jobs := s.jobs[id := WithState(job, Cancelling).(cancellationRequests := 1)]), Ok(Graceful))
      case Cancelling =>
        var n := job.cancellationRequests;
        var n' := if n < MAX_CANCELLATION_REQUESTS then n + 1 else n;
        (s.(jobs := s.jobs[id := job.(cancellationRequests := n')]), Ok(Force))
      case Succeeded | Failed | Cancelled => (s, Ok(NoSignal))
  }

  function Finished(record: JobRecord, finish: JobFinish): JobRecord {
    record.(state := finish.state, finishedAt := Some(finish.finishedAt), durationMs := Some(finish.durationMs),
            exitCode := finish.exitCode)
  }

  // The first job in the queue that waits for `root`.
  function NextQueued(jobs: map<JobId, Job>, queue: seq<JobId>, root: string): (r: Option<JobId>)
    ensures r.Some? ==> r.value in queue && r.value in jobs && jobs[r.value].root == Some(root)
    ensures r.None? ==> forall q :: q in queue && q in jobs ==> jobs[q].root != Some(root)
  {
    if queue == [] then None
    else if queue[0] in jobs && jobs[queue[0]].root == Some(root) then Some(queue[0])
    else NextQueued(jobs, queue[1..], root)
  }

  // Hands `root` to the job that has waited longest for it, or gives it up.
  function Release(s: Scheduler, root: string): (Scheduler, seq<JobId>) {
    match NextQueued(s.jobs, s.queued, root)
    case None => (s.(activeRoots := s.activeRoots - {root}), [])
    case Some(next) =>
      (s.(queued := Without(s.queued, next), jobs := s.jobs[next := WithState(s.jobs[next], Starting)],
          activeRoots := s.activeRoots - {root} + {root}), [next])
  }

  function Finish(s: Scheduler, id: JobId, finish: JobFinish): (Scheduler, Result<seq<JobId>, SchedulerError>) {
    if !IsTerminal(finish.state) then (s, Err(InvalidTerminalState(finish.state)))
    else if id !in s.jobs then (s, Err(UnknownJob(id)))
    else if IsTerminal(s.jobs[id].record.state) then (s, Err(JobAlreadyFinished(id)))
    else
      var job := s.jobs[id];
      var s' := s.(jobs := s.jobs - {id}, history := Record(s.history, Finished(job.record, finish)));
      match job.root
      case None => (s', Ok([]))
      case Some(root) => var (s'', promoted) := Release(s', root); (s'', Ok(promoted))
  }

  function TerminalOnly(records: seq<JobRecord>): (r: seq<JobRecord>)
    ensures forall i :: 0 <= i < |r| ==> IsTerminal(r[i].state)
  {
    if records == [] then []
    else
      var front := TerminalOnly(records[..|records| - 1]);
      var last := records[|records| - 1];
      if IsTerminal(last.state) then front + [last] else front
  }

  function RestoreHistory(s: Scheduler, records: seq<JobRecord>): Scheduler {
    s.(history := KeepLast(TerminalOnly(records), JOB_HISTORY_LIMIT))
  }

  // ---------------------------------------------------------------------------------------------
  // What holds in every reachable state
  // ---------------------------------------------------------------------------------------------

  // A job that has been started and not yet finished.
  predicate Live(job: Job) {
    job.record.state.Starting? || job.record.state.Running? || job.record.state.Cancelling?
  }

  predicate Holds(s: Scheduler, id: JobId, root: string) {
    id in s.jobs && Live(s.jobs[id]) && s.jobs[id].root == Some(root)
  }

  predicate Waits(s: Scheduler, id: JobId) {
    id in s.jobs && s.jobs[id].record.state.Queued?
  }

  predicate Distinct<T(==)>(s: seq<T>) {
    forall i, j :: 0 <= i < j < |s| ==> s[i] != s[j]
  }

  ghost predicate JobsAreWellFormed(s: Scheduler) {
    && s.outputCapacity > 0
    && forall id :: id in s.jobs ==>
         && s.jobs[id].record.id == id
         && !IsTerminal(s.jobs[id].record.state)
         && s.jobs[id].output.Valid()
         && (s.jobs[id].record.state.Queued? ==> s.jobs[id].root.Some?)
  }

  // The queue lists exactly the jobs that wait, each once.
  ghost predicate QueueIsExact(s: Scheduler) {
    Distinct(s.queued) && forall id :: id in s.queued <==> Waits(s, id)
  }

  // A root is active exactly when some job has it; no job waits for a root that is free.
  ghost predicate RootsAreExact(s: Scheduler) {
    && (forall id :: id in s.jobs && s.jobs[id].root.Some? ==> s.jobs[id].root.value in s.activeRoots)
    && (forall root :: root in s.activeRoots ==> exists id :: Holds(s, id, root))
  }

  // At most one started job has a given root.
  ghost predicate MutualExclusion(s: Scheduler) {
    forall root, a, b :: Holds(s, a, root) && Holds(s, b, root) ==> a == b
  }

  ghost predicate HistoryIsBounded(s: Scheduler) {
    |s.history| <= JOB_HISTORY_LIMIT && forall i :: 0 <= i < |s.history| ==> IsTerminal(s.history[i].state)
  }

  ghost predicate Consistent(s: Scheduler) {
    JobsAreWellFormed(s) && QueueIsExact(s) && RootsAreExact(s) && MutualExclusion(s) && HistoryIsBounded(s)
  }

  // ---------------------------------------------------------------------------------------------
  // Every operation keeps it
  // ---------------------------------------------------------------------------------------------

  lemma {:induction false} WithoutKeepsDistinct(queue: seq<JobId>, id: JobId)
    requires Distinct(queue)
    ensures Distinct(Without(queue, id))
  {
    if queue != [] {
      WithoutKeepsDistinct(queue[1..], id);
      assert queue[0] !in queue[1..];
    }
  }

  lemma NewJobKeepsRoots(s: Scheduler, s': Scheduler, id: JobId)
    requires RootsAreExact(s) && MutualExclusion(s) && id !in s.jobs && id in s'.jobs
    requires s'.jobs == s.jobs[id := s'.jobs[id]] && s'.activeRoots == s.activeRoots + RootSet(s'.jobs[id].root)
    requires Live(s'.jobs[id]) <==> !Blocked(s, s'.jobs[id].root)
    ensures RootsAreExact(s') && MutualExclusion(s')
  {
    forall root | root in s'.activeRoots ensures exists j :: Holds(s', j, root) {
      if root in s.activeRoots {
        var j :| Holds(s, j, root);
        assert Holds(s', j, root);
      } else {
        assert Holds(s', id, root);
      }
    }
    forall root, a, b | Holds(s', a, root) && Holds(s', b, root) ensures a == b {
      if a != id { assert Holds(s, a, root); }
      if b != id { assert Holds(s, b, root); }
    }
  }

  lemma SubmitKeepsQueue(s: Scheduler, request: JobRequest)
    requires JobsAreWellFormed(s) && QueueIsExact(s) && request.record.id !in s.jobs
    requires !IsTerminal(request.record.state)
    ensures var s' := Submit(s, request).0; JobsAreWellFormed(s') && QueueIsExact(s')
  {
    var s', id := Submit(s, request).0, request.record.id;
    assert !Waits(s, id);
    assert forall j :: Waits(s', j) <==> Waits(s, j) || (j == id && s'.queued != s.queued);
  }

  lemma SubmitKeepsConsistent(s: Scheduler, request: JobRequest)
    requires Consistent(s)
    ensures Consistent(Submit(s, request).0)
  {
    var id := request.record.id;
    if id !in s.jobs && !IsTerminal(request.record.state) {
      SubmitKeepsQueue(s, request);
      NewJobKeepsRoots(s, Submit(s, request).0, id);
    }
  }

  // A replaced job that is live, waits and has its root just as before.
  lemma UpdateKeepsRoots(s: Scheduler, id: JobId, job: Job)
    requires RootsAreExact(s) && MutualExclusion(s) && id in s.jobs
    requires job.root == s.jobs[id].root && (Live(s.jobs[id]) <==> Live(job))
    ensures var s' := s.(jobs := s.jobs[id := job]); RootsAreExact(s') && MutualExclusion(s')
  {
    var s' := s.(jobs := s.jobs[id := job]);
    assert forall j, root :: Holds(s', j, root) <==> Holds(s, j, root);
    forall root | root in s'.activeRoots ensures exists j :: Holds(s', j, root) {
      var j :| Holds(s, j, root);
      assert Holds(s', j, root);
    }
  }

  lemma UpdateKeepsQueue(s: Scheduler, id: JobId, job: Job)
    requires QueueIsExact(s) && id in s.jobs && (s.jobs[id].record.state.Queued? <==> job.record.state.Queued?)
    ensures QueueIsExact(s.(jobs := s.jobs[id := job]))
  {
    var s' := s.(jobs := s.jobs[id := job]);
    assert forall j :: Waits(s', j) <==> Waits(s, j);
  }

  // Replacing a job by one with the same id, root and place in the queue keeps everything.
  lemma UpdateKeepsConsistent(s: Scheduler, id: JobId, job: Job)
    requires Consistent(s) && id in s.jobs
    requires job.record.id == id && job.root == s.jobs[id].root && job.output.Valid()
    requires Live(s.jobs[id]) <==> Live(job)
    requires s.jobs[id].record.state.Queued? <==> job.record.state.Queued?
    ensures Consistent(s.(jobs := s.jobs[id := job]))
  {
    UpdateKeepsQueue(s, id, job);
    UpdateKeepsRoots(s, id, job);
  }

  lemma RecordKeepsBound(history: seq<JobRecord>, record: JobRecord)
    requires |history| <= JOB_HISTORY_LIMIT && IsTerminal(record.state)
    requires forall i :: 0 <= i < |history| ==> IsTerminal(history[i].state)
    ensures var r := Record(history, record);
            |r| <= JOB_HISTORY_LIMIT && forall i :: 0 <= i < |r| ==> IsTerminal(r[i].state)
    ensures Record(history, record) == KeepLast(history + [record], JOB_HISTORY_LIMIT)
  {
  }

  // Taking a waiting job out touches no job that has a root.
  lemma WithdrawalKeepsRoots(s: Scheduler, s': Scheduler, id: JobId)
    requires RootsAreExact(s) && MutualExclusion(s) && Waits(s, id)
    requires s'.jobs == s.jobs - {id} && s'.activeRoots == s.activeRoots
    ensures RootsAreExact(s') && MutualExclusion(s')
  {
    assert forall j, root :: Holds(s', j, root) <==> Holds(s, j, root);
    forall root | root in s'.activeRoots ensures exists j :: Holds(s', j, root) {
      var j :| Holds(s, j, root);
      assert Holds(s', j, root);
    }
  }

  lemma WithdrawalKeepsQueue(s: Scheduler, s': Scheduler, id: JobId)
    requires QueueIsExact(s) && Waits(s, id) && s'.jobs == s.jobs - {id} && s'.queued == Without(s.queued, id)
    ensures QueueIsExact(s')
  {
    WithoutKeepsDistinct(s.queued, id);
    assert forall j :: Waits(s', j) <==> Waits(s, j) && j != id;
  }

  lemma CancelKeepsConsistent(s: Scheduler, id: JobId)
    requires Consistent(s)
    ensures Consistent(Cancel(s, id).0)
  {
    var s' := Cancel(s, id).0;
    if Waits(s, id) {
      RecordKeepsBound(s.history, WithState(s.jobs[id], Cancelled).record);
      WithdrawalKeepsRoots(s, s', id);
      WithdrawalKeepsQueue(s, s', id);
    } else if id in s.jobs {
      UpdateKeepsConsistent(s, id, s'.jobs[id]);
      assert s' == s.(jobs := s.jobs[id := s'.jobs[id]]);
    }
  }

  // Taking out a started job leaves its root active with nobody holding it, and nothing else wrong.
  ghost predicate HeldByNobody(s: Scheduler, root: string) {
    && JobsAreWellFormed(s) && QueueIsExact(s) && MutualExclusion(s) && HistoryIsBounded(s)
    && root in s.activeRoots
    && (forall id :: id in s.jobs && s.jobs[id].root.Some? ==> s.jobs[id].root.value in s.activeRoots)
    && (forall r :: r in s.activeRoots && r != root ==> exists id :: Holds(s, id, r))
    && (forall id :: !Holds(s, id, root))
  }

  lemma ReleaseMakesConsistent(s: Scheduler, root: string)
    requires HeldByNobody(s, root)
    ensures Consistent(Release(s, root).0)
  {
    var s' := Release(s, root).0;
    match NextQueued(s.jobs, s.queued, root)
    case None =>
      forall id | id in s.jobs && s.jobs[id].root.Some? ensures s.jobs[id].root.value != root {
        assert !Holds(s, id, root);
        assert Waits(s, id) ==> id in s.queued;
      }
      assert forall j :: Waits(s', j) <==> Waits(s, j);
      assert forall j, r :: Holds(s', j, r) <==> Holds(s, j, r);
    case Some(next) =>
      WithoutKeepsDistinct(s.queued, next);
      assert Waits(s, next);
      assert forall j :: Waits(s', j) <==> Waits(s, j) && j != next;
      assert forall j, r :: Holds(s', j, r) <==> Holds(s, j, r) || (j == next && r == root);
      forall r | r in s'.activeRoots ensures exists j :: Holds(s', j, r) {
        if r == root { assert Holds(s', next, r); }
        else { var j :| Holds(s, j, r); assert Holds(s', j, r); }
      }
  }

  lemma FinishKeepsConsistent(s: Scheduler, id: JobId, finish: JobFinish)
    requires Consistent(s) && !Waits(s, id)
    ensures Consistent(Finish(s, id, finish).0)
  {
    if IsTerminal(finish.state) && id in s.jobs {
      var job := s.jobs[id];
      var s' := s.(jobs := s.jobs - {id}, history := Record(s.history, Finished(job.record, finish)));
      RecordKeepsBound(s.history, Finished(job.record, finish));
      assert forall j :: Waits(s', j) <==> Waits(s, j);
      assert forall j, r :: Holds(s', j, r) <==> Holds(s, j, r) && j != id;
      match job.root
      case None =>
        forall r | r in s'.activeRoots ensures exists j :: Holds(s', j, r) {
          var j :| Holds(s, j, r);
          assert Holds(s', j, r);
        }
      case Some(root) =>
        assert Holds(s, id, root);
        forall r | r in s'.activeRoots && r != root ensures exists j :: Holds(s', j, r) {
          var j :| Holds(s, j, r);
          assert Holds(s', j, r);
        }
        ReleaseMakesConsistent(s', root);
    }
  }

  // Ending a job that waits takes its root away from the job that has it.
  lemma FinishOfWaitingBreaksRoots(s: Scheduler, id: JobId, finish: JobFinish) returns (holder: JobId)
    requires Consistent(s) && IsTerminal(finish.state) && Waits(s, id)
    ensures var s', root := Finish(s, id, finish).0, s.jobs[id].root.value;
            && Holds(s, holder, root) && Holds(s', holder, root)
            && (root in s'.activeRoots ==> exists other :: other != holder && Holds(s', other, root))
            && (root !in s'.activeRoots <==> NextQueued(s.jobs - {id}, s.queued, root).None?)
  {
    var root := s.jobs[id].root.value;
    var s' := Finish(s, id, finish).0;
    holder :| Holds(s, holder, root);
    match NextQueued(s.jobs - {id}, s.queued, root)
    case None => assert root !in s'.activeRoots;
    case Some(next) =>
      assert Waits(s, next) && next != holder;
      assert Holds(s', next, root);
  }

  /**
   * Reporting the end of a job keeps the scheduler consistent exactly when it is not waiting; else its root is free or
   * held twice.
   */
  lemma FinishIsSafeExactlyWhenNotWaiting(s: Scheduler, id: JobId, finish: JobFinish)
    requires Consistent(s) && IsTerminal(finish.state)
    ensures Consistent(Finish(s, id, finish).0) <==> !Waits(s, id)
    ensures var s' := Finish(s, id, finish).0; Waits(s, id) ==> !MutualExclusion(s') || !RootsAreExact(s')
  {
    if Waits(s, id) {
      var s', root := Finish(s, id, finish).0, s.jobs[id].root.value;
      var holder := FinishOfWaitingBreaksRoots(s, id, finish);
      assert Holds(s', holder, root);
    } else {
      FinishKeepsConsistent(s, id, finish);
    }
  }
}
