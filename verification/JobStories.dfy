/** What a job's record and the history say, told from the calls of a run and nothing else. */
module JobStories {
  import opened Wrappers
  import opened Bytes
  import opened OutputBuffers
  import opened JobScheduling
  import opened JobRuns

  /** What happened to a job in progress: how often its cancellation was asked for, what it printed and reported. */
  datatype Story = Story(
    request: JobRequest, running: bool, cancels: nat, diagnosed: seq<string>, printed: seq<Byte>)

  /** How a record came into the history. */
  datatype Ending = Ended(story: Story, finish: JobFinish) | Withdrawn(story: Story) | Restored(record: JobRecord)

  /** The jobs in progress, and all endings since the start or the last restoration. */
  datatype Chronicle = Chronicle(stories: map<JobId, Story>, endings: seq<Ending>)

  const NOTHING_YET: Chronicle := Chronicle(map[], [])

  predicate IsOver(state: JobState) {
    state == Succeeded || state == Failed || state == Cancelled
  }

  // Whether a job waits for its root is told apart: `JobOrder` and `JobScheduling` say which jobs do.
  function Tell(c: Chronicle, s: Scheduler, e: Event): Chronicle {
    match e
    case SubmitJob(request) =>
      if request.record.id in c.stories || IsOver(request.record.state) then c
      else c.(stories := c.stories[request.record.id := Story(request, false, 0, [], [])])
    case StartJob(id) =>
      if id in c.stories && id !in s.queued && c.stories[id].cancels == 0
      then c.(stories := c.stories[id := c.stories[id].(running := true)]) else c
    case OutputOf(id, bytes) =>
      if id in c.stories
      then c.(stories := c.stories[id := c.stories[id].(printed := c.stories[id].printed + bytes)]) else c
    case Diagnose(id, diagnostic) =>
      if id in c.stories
      then c.(stories := c.stories[id := c.stories[id].(diagnosed := c.stories[id].diagnosed + [diagnostic])]) else c
    case CancelJob(id) =>
      if id !in c.stories then c
      else if id in s.queued then Chronicle(c.stories - {id}, c.endings + [Withdrawn(c.stories[id])])
      else c.(stories := c.stories[id := c.stories[id].(cancels := c.stories[id].cancels + 1)])
    case FinishJob(id, finish) =>
      if id in c.stories && IsOver(finish.state)
      then Chronicle(c.stories - {id}, c.endings + [Ended(c.stories[id], finish)]) else c
    case RestoreRecords(records) => c.(endings := RestoredFrom(records))
  }

  function RestoredFrom(records: seq<JobRecord>): seq<Ending> {
    if records == [] then []
    else
      var last := records[|records| - 1];
      RestoredFrom(records[..|records| - 1]) + if IsOver(last.state) then [Restored(last)] else []
  }

  // What a record keeps of the request and of the diagnostics of its job.
  predicate TellsRequest(record: JobRecord, story: Story) {
    && record.id == story.request.record.id && record.details == story.request.record.details
    && record.diagnostics == story.request.record.diagnostics + story.diagnosed
  }

  predicate IsUnfinished(record: JobRecord, story: Story) {
    && record.finishedAt == story.request.record.finishedAt && record.durationMs == story.request.record.durationMs
    && record.exitCode == story.request.record.exitCode
  }

  predicate TellsState(state: JobState, story: Story, waits: bool) {
    if waits then state == Queued && story.cancels == 0 && !story.running
    else if story.cancels > 0 then state == Cancelling
    else if story.running then state == Running
    else state == Starting
  }

  // A job in progress is what was submitted and what happened since.
  predicate TellsJob(job: Job, story: Story, capacity: nat, waits: bool) {
    && job.root == story.request.root && TellsRequest(job.record, story) && IsUnfinished(job.record, story)
    && TellsState(job.record.state, story, waits)
    && job.cancellationRequests == (if story.cancels < 255 then story.cancels else 255)
    && job.output.capacity == capacity && job.output.bytes == KeepLast(story.printed, capacity)
    && job.output.discarded == |story.printed| - |job.output.bytes|
  }

  // A record of the history says how its job ended.
  predicate TellsEnding(record: JobRecord, ending: Ending) {
    match ending
    case Ended(story, finish) =>
      && TellsRequest(record, story) && record.state == finish.state
      && record.finishedAt == Some(finish.finishedAt) && record.durationMs == Some(finish.durationMs)
      && record.exitCode == finish.exitCode
    case Withdrawn(story) => TellsRequest(record, story) && IsUnfinished(record, story) && record.state == Cancelled
    case Restored(restored) => record == restored
  }

  predicate TellsEndings(history: seq<JobRecord>, endings: seq<Ending>) {
    |history| == |endings| && forall i :: 0 <= i < |history| ==> TellsEnding(history[i], endings[i])
  }

  ghost predicate TellsJobs(jobs: map<JobId, Job>, queued: seq<JobId>, capacity: nat, stories: map<JobId, Story>) {
    && jobs.Keys == stories.Keys
    && forall id :: id in jobs ==> IsTold(jobs, queued, capacity, stories, id)
  }

  predicate IsTold(jobs: map<JobId, Job>, queued: seq<JobId>, capacity: nat, stories: map<JobId, Story>, id: JobId)
    requires id in jobs && id in stories
  {
    TellsJob(jobs[id], stories[id], capacity, id in queued) && stories[id].request.record.id == id
  }

  ghost predicate Tells(s: Scheduler, c: Chronicle) {
    TellsJobs(s.jobs, s.queued, s.outputCapacity, c.stories) && TellsEndings(s.history, KeepLast(c.endings, 50))
  }

  // ---------------------------------------------------------------------------------------------
  // One step
  // ---------------------------------------------------------------------------------------------

  lemma RecordTellsEnding(history: seq<JobRecord>, endings: seq<Ending>, record: JobRecord, ending: Ending)
    requires TellsEndings(history, KeepLast(endings, 50)) && TellsEnding(record, ending)
    ensures TellsEndings(Record(history, record), KeepLast(endings + [ending], 50))
  {
    var kept := KeepLast(endings, 50);
    KeepLastTwice(endings, [ending], 50);
    if |kept| == 50 {
      assert KeepLast(kept + [ending], 50) == kept[1..] + [ending];
    } else {
      assert KeepLast(kept + [ending], 50) == kept + [ending];
    }
  }

  lemma {:induction false} RestoredAreTold(records: seq<JobRecord>)
    ensures TellsEndings(TerminalOnly(records), RestoredFrom(records))
  {
    if records != [] { RestoredAreTold(records[..|records| - 1]); }
  }

  lemma RestoringIsTold(records: seq<JobRecord>)
    ensures TellsEndings(KeepLast(TerminalOnly(records), 50), KeepLast(RestoredFrom(records), 50))
  {
    RestoredAreTold(records);
  }

  lemma OutputIsTold(output: Output, printed: seq<Byte>, bytes: seq<Byte>)
    requires output.bytes == KeepLast(printed, output.capacity) && output.discarded == |printed| - |output.bytes|
    ensures var after := Append(output, bytes);
            && after.capacity == output.capacity && after.bytes == KeepLast(printed + bytes, output.capacity)
            && after.discarded == |printed + bytes| - |after.bytes|
  {
    KeepLastTwice(printed, bytes, output.capacity);
  }

  // One job changes, comes or goes, and the others stay as they are.
  lemma OneChanges(jobs: map<JobId, Job>, jobs': map<JobId, Job>, queued: seq<JobId>, queued': seq<JobId>,
                   capacity: nat, stories: map<JobId, Story>, stories': map<JobId, Story>, id: JobId)
    requires TellsJobs(jobs, queued, capacity, stories)
    requires jobs' - {id} == jobs - {id} && stories' - {id} == stories - {id} && (id in jobs' <==> id in stories')
    requires forall q :: q != id ==> (q in queued' <==> q in queued)
    requires id in jobs' ==> IsTold(jobs', queued', capacity, stories', id)
    ensures TellsJobs(jobs', queued', capacity, stories')
  {
    forall q ensures q in jobs' <==> q in stories' {
      if q != id { assert q in jobs' <==> q in jobs' - {id}; assert q in stories' <==> q in stories' - {id}; }
    }
    forall q | q in jobs' ensures IsTold(jobs', queued', capacity, stories', q) {
      if q != id {
        assert q in jobs' - {id} && (jobs' - {id})[q] == (jobs - {id})[q];
        assert q in stories' - {id} && (stories' - {id})[q] == (stories - {id})[q];
        assert IsTold(jobs, queued, capacity, stories, q);
      }
    }
  }

  lemma ChangeTells(s: Scheduler, stories: map<JobId, Story>, id: JobId, job: Job, story: Story)
    requires TellsJobs(s.jobs, s.queued, s.outputCapacity, stories) && id in s.jobs
    requires TellsJob(job, story, s.outputCapacity, id in s.queued) && story.request == stories[id].request
    ensures TellsJobs(s.jobs[id := job], s.queued, s.outputCapacity, stories[id := story])
  {
    assert IsTold(s.jobs, s.queued, s.outputCapacity, stories, id);
    OneChanges(s.jobs, s.jobs[id := job], s.queued, s.queued, s.outputCapacity, stories, stories[id := story], id);
  }

  lemma OutputStepTells(s: Scheduler, c: Chronicle, id: JobId, bytes: seq<Byte>)
    requires Tells(s, c)
    ensures Tells(Step(s, OutputOf(id, bytes)), Tell(c, s, OutputOf(id, bytes)))
  {
    if id in s.jobs {
      var job, story := s.jobs[id], c.stories[id];
      assert IsTold(s.jobs, s.queued, s.outputCapacity, c.stories, id);
      OutputIsTold(job.output, story.printed, bytes);
      ChangeTells(s, c.stories, id, job.(output := Append(job.output, bytes)),
                  story.(printed := story.printed + bytes));
    }
  }

  lemma DiagnoseStepTells(s: Scheduler, c: Chronicle, id: JobId, diagnostic: string)
    requires Tells(s, c)
    ensures Tells(Step(s, Diagnose(id, diagnostic)), Tell(c, s, Diagnose(id, diagnostic)))
  {
    if id in s.jobs {
      var job, story := s.jobs[id], c.stories[id];
      assert IsTold(s.jobs, s.queued, s.outputCapacity, c.stories, id);
      assert story.request.record.diagnostics + (story.diagnosed + [diagnostic])
          == story.request.record.diagnostics + story.diagnosed + [diagnostic];
      ChangeTells(s, c.stories, id,
                  job.(record := job.record.(diagnostics := job.record.diagnostics + [diagnostic])),
                  story.(diagnosed := story.diagnosed + [diagnostic]));
    }
  }

  lemma StartStepTells(s: Scheduler, c: Chronicle, id: JobId)
    requires Tells(s, c)
    ensures Tells(Step(s, StartJob(id)), Tell(c, s, StartJob(id)))
  {
    if id in s.jobs {
      assert IsTold(s.jobs, s.queued, s.outputCapacity, c.stories, id);
      if s.jobs[id].record.state == Starting {
        ChangeTells(s, c.stories, id, WithState(s.jobs[id], Running), c.stories[id].(running := true));
      } else {
        assert Tell(c, s, StartJob(id)).stories == c.stories;
      }
    }
  }

  lemma SubmittedIsTold(request: JobRequest, capacity: nat, waits: bool)
    ensures var record := request.record.(state := if waits then Queued else Starting);
            TellsJob(Job(record, request.root, Output([], capacity, 0), 0), Story(request, false, 0, [], []),
                     capacity, waits)
  {
    assert request.record.diagnostics + [] == request.record.diagnostics;
  }

  lemma SubmitStepTells(s: Scheduler, c: Chronicle, request: JobRequest)
    requires QueueIsExact(s) && Tells(s, c)
    ensures Tells(Step(s, SubmitJob(request)), Tell(c, s, SubmitJob(request)))
  {
    var id, s', c' := request.record.id, Step(s, SubmitJob(request)), Tell(c, s, SubmitJob(request));
    if id !in s.jobs && !IsOver(request.record.state) {
      assert id !in s.queued;
      SubmittedIsTold(request, s.outputCapacity, Blocked(s, request.root));
      assert IsTold(s'.jobs, s'.queued, s.outputCapacity, c'.stories, id);
      OneChanges(s.jobs, s'.jobs, s.queued, s'.queued, s.outputCapacity, c.stories, c'.stories, id);
    }
  }

  lemma CancelStepTells(s: Scheduler, c: Chronicle, id: JobId)
    requires Tells(s, c)
    ensures Tells(Step(s, CancelJob(id)), Tell(c, s, CancelJob(id)))
  {
    if id in s.jobs {
      var s', c' := Step(s, CancelJob(id)), Tell(c, s, CancelJob(id));
      assert IsTold(s.jobs, s.queued, s.outputCapacity, c.stories, id);
      if id in s.queued {
        RecordTellsEnding(s.history, c.endings, WithState(s.jobs[id], Cancelled).record, Withdrawn(c.stories[id]));
        OneChanges(s.jobs, s'.jobs, s.queued, s'.queued, s.outputCapacity, c.stories, c'.stories, id);
      } else {
        ChangeTells(s, c.stories, id, s'.jobs[id], c'.stories[id]);
      }
    }
  }

  lemma ReleaseTells(s: Scheduler, stories: map<JobId, Story>, root: string)
    requires TellsJobs(s.jobs, s.queued, s.outputCapacity, stories)
    ensures var s' := Release(s, root).0;
            TellsJobs(s'.jobs, s'.queued, s.outputCapacity, stories) && s'.history == s.history
            && s'.outputCapacity == s.outputCapacity
  {
    var next := NextQueued(s.jobs, s.queued, root);
    if next.Some? {
      var s', id := Release(s, root).0, next.value;
      assert IsTold(s.jobs, s.queued, s.outputCapacity, stories, id);
      assert IsTold(s'.jobs, s'.queued, s.outputCapacity, stories, id);
      OneChanges(s.jobs, s'.jobs, s.queued, s'.queued, s.outputCapacity, stories, stories, id);
    }
  }

  lemma FinishStepTells(s: Scheduler, c: Chronicle, id: JobId, finish: JobFinish)
    requires QueueIsExact(s) && Legal(s, FinishJob(id, finish)) && Tells(s, c)
    ensures Tells(Step(s, FinishJob(id, finish)), Tell(c, s, FinishJob(id, finish)))
  {
    if id in s.jobs && IsOver(finish.state) {
      var record, stories := Finished(s.jobs[id].record, finish), c.stories - {id};
      assert IsTold(s.jobs, s.queued, s.outputCapacity, c.stories, id);
      RecordTellsEnding(s.history, c.endings, record, Ended(c.stories[id], finish));
      OneChanges(s.jobs, s.jobs - {id}, s.queued, s.queued, s.outputCapacity, c.stories, stories, id);
      var s' := s.(jobs := s.jobs - {id}, history := Record(s.history, record));
      if s.jobs[id].root.Some? { ReleaseTells(s', stories, s.jobs[id].root.value); }
    }
  }

  lemma StepTells(s: Scheduler, c: Chronicle, e: Event)
    requires QueueIsExact(s) && Legal(s, e) && Tells(s, c)
    ensures Tells(Step(s, e), Tell(c, s, e))
  {
    match e
    case SubmitJob(request) => SubmitStepTells(s, c, request);
    case StartJob(id) => StartStepTells(s, c, id);
    case OutputOf(id, bytes) => OutputStepTells(s, c, id, bytes);
    case Diagnose(id, diagnostic) => DiagnoseStepTells(s, c, id, diagnostic);
    case CancelJob(id) => CancelStepTells(s, c, id);
    case FinishJob(id, finish) => FinishStepTells(s, c, id, finish);
    case RestoreRecords(records) => RestoringIsTold(records);
  }

  // ---------------------------------------------------------------------------------------------
  // Runs
  // ---------------------------------------------------------------------------------------------

  function TellRun(c: Chronicle, s: Scheduler, es: seq<Event>): Chronicle
    decreases |es|
  {
    if es == [] then c else TellRun(Tell(c, s, es[0]), Step(s, es[0]), es[1..])
  }

  /**
   * Over every legal run: each job in progress is what was submitted, with its diagnostics, its newest output and its
   * cancellations; and the history is, newest last, how the last fifty jobs ended, field by field.
   */
  lemma {:induction false} RunsAreTold(s: Scheduler, c: Chronicle, es: seq<Event>)
    requires Consistent(s) && LegalRun(s, es) && Tells(s, c)
    ensures Tells(Run(s, es), TellRun(c, s, es))
    decreases |es|
  {
    if es != [] {
      StepKeepsConsistent(s, es[0]);
      StepTells(s, c, es[0]);
      RunsAreTold(Step(s, es[0]), Tell(c, s, es[0]), es[1..]);
    }
  }

  lemma StartIsTold(capacity: nat)
    ensures Tells(Empty(capacity), NOTHING_YET)
  {
  }

  // ---------------------------------------------------------------------------------------------
  // Answers
  // ---------------------------------------------------------------------------------------------

  // Some job in progress was submitted for this root.
  ghost predicate IsTaken(stories: map<JobId, Story>, root: Option<string>) {
    root.Some? && exists id :: id in stories && stories[id].request.root == root
  }

  lemma TakenMeansActive(s: Scheduler, c: Chronicle, root: Option<string>)
    requires Consistent(s) && Tells(s, c)
    ensures Blocked(s, root) <==> IsTaken(c.stories, root)
  {
    if Blocked(s, root) {
      var id :| Holds(s, id, root.value);
      assert IsTold(s.jobs, s.queued, s.outputCapacity, c.stories, id);
    }
    if IsTaken(c.stories, root) {
      var id :| id in c.stories && c.stories[id].request.root == root;
      assert IsTold(s.jobs, s.queued, s.outputCapacity, c.stories, id);
    }
  }

  /** A submission is refused for an id in progress or a terminal record, waits for a root that is taken, or starts. */
  lemma SubmissionsAreAnswered(s: Scheduler, c: Chronicle, request: JobRequest)
    requires Consistent(s) && Tells(s, c)
    ensures var id, state := request.record.id, request.record.state;
            Submit(s, request).1 ==
            if id in c.stories then Err(DuplicateJob(id))
            else if IsOver(state) then Err(InvalidTransition(id, state, Queued))
            else Ok(if IsTaken(c.stories, request.root) then Wait else StartNow)
  {
    TakenMeansActive(s, c, request.root);
  }

  /** A waiting job is withdrawn without a signal; a started one is asked to stop the first time, and then forced. */
  lemma CancellationsAreAnswered(s: Scheduler, c: Chronicle, id: JobId)
    requires Tells(s, c)
    ensures Cancel(s, id).1 ==
            if id !in c.stories then Err(UnknownJob(id))
            else Ok(if id in s.queued then NoSignal else if c.stories[id].cancels == 0 then Graceful else Force)
  {
    if id in s.jobs { assert IsTold(s.jobs, s.queued, s.outputCapacity, c.stories, id); }
  }

  /** Output and diagnostics are taken for every job in progress, and so is an end in a terminal state. */
  lemma ReportsAreAnswered(s: Scheduler, c: Chronicle, id: JobId, bytes: seq<Byte>, diagnostic: string,
                           finish: JobFinish)
    requires Tells(s, c)
    ensures AppendOutput(s, id, bytes).1 == if id in c.stories then Ok(()) else Err(UnknownJob(id))
    ensures AddDiagnostic(s, id, diagnostic).1 == if id in c.stories then Ok(()) else Err(UnknownJob(id))
    ensures Finish(s, id, finish).1.Ok? <==> IsOver(finish.state) && id in c.stories
    ensures !IsOver(finish.state) ==> Finish(s, id, finish).1 == Err(InvalidTerminalState(finish.state))
    ensures IsOver(finish.state) && id !in c.stories ==> Finish(s, id, finish).1 == Err(UnknownJob(id))
  {
    if id in s.jobs { assert IsTold(s.jobs, s.queued, s.outputCapacity, c.stories, id); }
  }

  /** A start is taken once, for a job that has its root and was not cancelled. */
  lemma StartsAreAnswered(s: Scheduler, c: Chronicle, id: JobId)
    requires Tells(s, c)
    ensures MarkRunning(s, id).1.Ok? <==>
              id in c.stories && id !in s.queued && c.stories[id].cancels == 0 && !c.stories[id].running
    ensures id !in c.stories ==> MarkRunning(s, id).1 == Err(UnknownJob(id))
    ensures id in c.stories && MarkRunning(s, id).1.Err? ==>
              MarkRunning(s, id).1.error == InvalidTransition(id, s.jobs[id].record.state, Running)
  {
    if id in s.jobs { assert IsTold(s.jobs, s.queued, s.outputCapacity, c.stories, id); }
  }

  /** After any legal run from the start, the answer to a cancellation counts the requests since the submission. */
  lemma CancellationsEscalate(capacity: nat, es: seq<Event>, id: JobId)
    requires capacity > 0 && LegalRun(Empty(capacity), es)
    ensures var s, c := Run(Empty(capacity), es), TellRun(NOTHING_YET, Empty(capacity), es);
            id in c.stories && id !in s.queued ==>
              Cancel(s, id).1 == Ok(if c.stories[id].cancels == 0 then Graceful else Force)
  {
    assert Consistent(Empty(capacity));
    StartIsTold(capacity);
    RunsAreTold(Empty(capacity), NOTHING_YET, es);
    CancellationsAreAnswered(Run(Empty(capacity), es), TellRun(NOTHING_YET, Empty(capacity), es), id);
  }

  /** A job that is over, if there were one, would be left as it is, and every call would say so. */
  lemma EndedJobsAreLeftAlone(s: Scheduler, id: JobId, bytes: seq<Byte>, diagnostic: string, finish: JobFinish)
    requires id in s.jobs && IsOver(s.jobs[id].record.state) && IsOver(finish.state)
    ensures Cancel(s, id) == (s, Ok(NoSignal))
    ensures AppendOutput(s, id, bytes) == (s, Err(JobAlreadyFinished(id)))
    ensures AddDiagnostic(s, id, diagnostic) == (s, Err(JobAlreadyFinished(id)))
    ensures Finish(s, id, finish) == (s, Err(JobAlreadyFinished(id)))
  {
  }

  // ---------------------------------------------------------------------------------------------
  // One call
  // ---------------------------------------------------------------------------------------------

  /** An accepted finish records how the job ended, and otherwise the record it had. */
  lemma FinishIsRecorded(s: Scheduler, id: JobId, finish: JobFinish)
    requires Finish(s, id, finish).1.Ok?
    ensures var history, was := Finish(s, id, finish).0.history, s.jobs[id].record;
            && history != []
            && var last := history[|history| - 1];
               && last.state == finish.state && last.finishedAt == Some(finish.finishedAt)
               && last.durationMs == Some(finish.durationMs) && last.exitCode == finish.exitCode
               && last.id == was.id && last.diagnostics == was.diagnostics && last.details == was.details
  {
  }

  /** A withdrawn job is recorded as cancelled, and otherwise with the record it had. */
  lemma WithdrawalIsRecorded(s: Scheduler, id: JobId)
    requires Waits(s, id)
    ensures var history, was := Cancel(s, id).0.history, s.jobs[id].record;
            && history != []
            && var last := history[|history| - 1];
               && last.state == Cancelled && last.finishedAt == was.finishedAt && last.durationMs == was.durationMs
               && last.exitCode == was.exitCode
               && last.id == was.id && last.diagnostics == was.diagnostics && last.details == was.details
  {
  }
}
