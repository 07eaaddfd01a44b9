/** The scheduler as an object whose methods update its fields. */
module JobSchedulers {
  import opened Wrappers
  import opened Bytes
  import opened OutputBuffers
  import J = JobScheduling
  import Runs = JobRuns

  class JobScheduler {
    var jobs: map<J.JobId, J.Job>
    var queued: seq<J.JobId>
    var activeGradleRoots: set<string>
    var history: seq<J.JobRecord>
    const outputCapacity: nat

    function State(): J.Scheduler
      reads this
    {
      J.Scheduler(jobs, queued, activeGradleRoots, history, outputCapacity)
    }

    ghost predicate Valid()
      reads this
    {
      J.Consistent(State())
    }

    constructor (outputCapacity: nat)
      requires outputCapacity > 0
      ensures Valid() && State() == J.Empty(outputCapacity)
    {
      this.outputCapacity := outputCapacity;
      jobs, queued, activeGradleRoots, history := map[], [], {}, [];
    }

    // The source reports a zero output capacity instead of building a scheduler.
    static method New(outputCapacity: nat) returns (scheduler: JobScheduler?)
      ensures scheduler == null <==> outputCapacity == 0
      ensures scheduler != null ==> fresh(scheduler) && scheduler.State() == J.Empty(outputCapacity)
    {
      if outputCapacity == 0 { return null; }
      scheduler := new JobScheduler(outputCapacity);
    }

    method Submit(request: J.JobRequest) returns (result: Result<J.JobSchedule, J.SchedulerError>)
      modifies this
      ensures (State(), result) == J.Submit(old(State()), request)
      ensures old(Valid()) ==> Valid()
    {
      ghost var before := State();
      if J.Consistent(before) { J.SubmitKeepsConsistent(before, request); }
      var record := request.record;
      var id := record.id;
      if id in jobs {
        return Err(J.DuplicateJob(id));
      }
      if J.IsTerminal(record.state) {
        return Err(J.InvalidTransition(id, record.state, J.Queued));
      }
      var blocked := request.root.Some? && request.root.value in activeGradleRoots;
      if blocked {
        record := record.(state := J.Queued);
        queued := queued + [id];
        result := Ok(J.Wait);
      } else {
        record := record.(state := J.Starting);
        if request.root.Some? {
          activeGradleRoots := activeGradleRoots + {request.root.value};
        }
        result := Ok(J.StartNow);
      }
      assert !blocked ==> activeGradleRoots == before.activeRoots + J.RootSet(request.root);
      jobs := jobs[id := J.Job(record, request.root, Output([], outputCapacity, 0), 0)];
    }

    method MarkRunning(id: J.JobId) returns (result: Result<(), J.SchedulerError>)
      modifies this
      ensures (State(), result) == J.MarkRunning(old(State()), id)
      ensures old(Valid()) ==> Valid()
    {
      if J.Consistent(State()) { Runs.StepKeepsConsistent(State(), Runs.StartJob(id)); }
      result := Transition(id, J.Starting, J.Running);
    }

    method Transition(id: J.JobId, expected: J.JobState, target: J.JobState)
      returns (result: Result<(), J.SchedulerError>)
      modifies this
      ensures if id !in old(jobs) then State() == old(State()) && result == Err(J.UnknownJob(id))
              else if old(jobs)[id].record.state != expected
              then State() == old(State()) && result == Err(J.InvalidTransition(id, old(jobs)[id].record.state, target))
              else State() == old(State()).(jobs := old(jobs)[id := J.WithState(old(jobs)[id], target)])
                   && result == Ok(())
    {
      if id !in jobs {
        return Err(J.UnknownJob(id));
      }
      var job := jobs[id];
      if job.record.state != expected {
        return Err(J.InvalidTransition(id, job.record.state, target));
      }
      jobs := jobs[id := J.WithState(job, target)];
      result := Ok(());
    }

    method AppendOutput(id: J.JobId, bytes: seq<Byte>) returns (result: Result<(), J.SchedulerError>)
      modifies this
      ensures (State(), result) == J.AppendOutput(old(State()), id, bytes)
      ensures old(Valid()) ==> Valid()
    {
      if J.Consistent(State()) { Runs.StepKeepsConsistent(State(), Runs.OutputOf(id, bytes)); }
      if id !in jobs {
        return Err(J.UnknownJob(id));
      }
      var job := jobs[id];
      if J.IsTerminal(job.record.state) {
        return Err(J.JobAlreadyFinished(id));
      }
      jobs := jobs[id := job.(output := Append(job.output, bytes))];
      result := Ok(());
    }

    method AddDiagnostic(id: J.JobId, diagnostic: string) returns (result: Result<(), J.SchedulerError>)
      modifies this
      ensures (State(), result) == J.AddDiagnostic(old(State()), id, diagnostic)
      ensures old(Valid()) ==> Valid()
    {
      if J.Consistent(State()) { Runs.StepKeepsConsistent(State(), Runs.Diagnose(id, diagnostic)); }
      if id !in jobs {
        return Err(J.UnknownJob(id));
      }
      var record := jobs[id].record;
      if J.IsTerminal(record.state) {
        return Err(J.JobAlreadyFinished(id));
      }
      jobs := jobs[id := jobs[id].(record := record.(diagnostics := record.diagnostics + [diagnostic]))];
      result := Ok(());
    }

    method Cancel(id: J.JobId) returns (result: Result<J.CancellationDirective, J.SchedulerError>)
      modifies this
      ensures (State(), result) == J.Cancel(old(State()), id)
      ensures old(Valid()) ==> Valid()
    {
      ghost var before := State();
      if J.Consistent(before) { J.CancelKeepsConsistent(before, id); }
      if id !in jobs {
        return Err(J.UnknownJob(id));
      }
      var job := jobs[id];
      match job.record.state {
        case Queued =>
          queued := J.Without(queued, id);
          job := J.WithState(job, J.Cancelled);
          RecordHistory(job.record);
          jobs := jobs - {id};
          result := Ok(J.NoSignal);
        case Starting | Running =>
          job := J.WithState(job, J.Cancelling).(cancellationRequests := 1);
          jobs := jobs[id := job];
          result := Ok(J.Graceful);
        case Cancelling =>
          if job.cancellationRequests < J.MAX_CANCELLATION_REQUESTS {
            job := job.(cancellationRequests := job.cancellationRequests + 1);
          }
          jobs := jobs[id := job];
          result := Ok(J.Force);
        case Succeeded | Failed | Cancelled =>
          result := Ok(J.NoSignal);
      }
    }

    method Finish(id: J.JobId, finish: J.JobFinish) returns (result: Result<seq<J.JobId>, J.SchedulerError>)
      modifies this
      ensures (State(), result) == J.Finish(old(State()), id, finish)
      ensures old(Valid()) && !old(J.Waits(State(), id)) ==> Valid()
    {
      ghost var before := State();
      if J.Consistent(before) && !J.Waits(before, id) { J.FinishKeepsConsistent(before, id, finish); }
      if !J.IsTerminal(finish.state) {
        return Err(J.InvalidTerminalState(finish.state));
      }
      if id !in jobs {
        return Err(J.UnknownJob(id));
      }
      var job := jobs[id];
      if J.IsTerminal(job.record.state) {
        return Err(J.JobAlreadyFinished(id));
      }
      RecordHistory(job.record.(state := finish.state, finishedAt := Some(finish.finishedAt),
                                durationMs := Some(finish.durationMs), exitCode := finish.exitCode));
      jobs := jobs - {id};
      var promoted := [];
      if job.root.Some? {
        var root := job.root.value;
        activeGradleRoots := activeGradleRoots - {root};
        var next := J.NextQueued(jobs, queued, root);
        if next.Some? {
          queued := J.Without(queued, next.value);
          jobs := jobs[next.value := J.WithState(jobs[next.value], J.Starting)];
          activeGradleRoots := activeGradleRoots + {root};
          promoted := promoted + [next.value];
          assert promoted == [next.value];
        }
      }
      result := Ok(promoted);
    }

    method RecordHistory(record: J.JobRecord)
      modifies this`history
      ensures history == J.Record(old(history), record)
    {
      if |history| == J.JOB_HISTORY_LIMIT {
        history := history[1..];
      }
      history := history + [record];
    }

    method RestoreHistory(records: seq<J.JobRecord>)
      modifies this`history
      ensures State() == J.RestoreHistory(old(State()), records)
      ensures old(Valid()) ==> Valid()
    {
      ghost var before := State();
      if J.Consistent(before) { Runs.StepKeepsConsistent(before, Runs.RestoreRecords(records)); }
      ReplaceHistory(records);
    }

    method ReplaceHistory(records: seq<J.JobRecord>)
      modifies this`history
      ensures history == KeepLast(J.TerminalOnly(records), J.JOB_HISTORY_LIMIT)
    {
      history := [];
      for i := 0 to |records|
        invariant history == KeepLast(J.TerminalOnly(records[..i]), J.JOB_HISTORY_LIMIT)
      {
        assert records[..i + 1][..|records[..i + 1]| - 1] == records[..i];
        if J.IsTerminal(records[i].state) {
          if |history| == J.JOB_HISTORY_LIMIT {
            history := history[1..];
          }
          history := history + [records[i]];
        }
      }
      assert records[..|records|] == records;
    }
  }
}
