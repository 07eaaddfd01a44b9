/** What the scheduler promises over whole runs: exclusion, order, bounded waiting, and the history it keeps. */
module JobRuns {
  import opened Wrappers
  import opened Bytes
  import opened OutputBuffers
  import opened JobScheduling

  datatype Event =
    | SubmitJob(request: JobRequest)
    | StartJob(id: JobId)
    | OutputOf(id: JobId, bytes: seq<Byte>)
    | Diagnose(id: JobId, diagnostic: string)
    | CancelJob(id: JobId)
    | FinishJob(id: JobId, finish: JobFinish)
    | RestoreRecords(records: seq<JobRecord>)

  function Step(s: Scheduler, e: Event): Scheduler {
    match e
    case SubmitJob(request) => Submit(s, request).0
    case StartJob(id) => MarkRunning(s, id).0
    case OutputOf(id, bytes) => AppendOutput(s, id, bytes).0
    case Diagnose(id, diagnostic) => AddDiagnostic(s, id, diagnostic).0
    case CancelJob(id) => Cancel(s, id).0
    case FinishJob(id, finish) => Finish(s, id, finish).0
    case RestoreRecords(records) => RestoreHistory(s, records)
  }

  function Run(s: Scheduler, es: seq<Event>): Scheduler
    decreases |es|
  {
    if es == [] then s else Run(Step(s, es[0]), es[1..])
  }

  // The end of a job is reported only for a job that was started.
  predicate Legal(s: Scheduler, e: Event) {
    e.FinishJob? && IsTerminal(e.finish.state) ==> !Waits(s, e.id)
  }

  predicate LegalRun(s: Scheduler, es: seq<Event>)
    decreases |es|
  {
    es != [] ==> Legal(s, es[0]) && LegalRun(Step(s, es[0]), es[1..])
  }

  lemma StepKeepsConsistent(s: Scheduler, e: Event)
    requires Consistent(s) && Legal(s, e)
    ensures Consistent(Step(s, e))
  {
    match e
    case SubmitJob(request) => SubmitKeepsConsistent(s, request);
    case CancelJob(id) => CancelKeepsConsistent(s, id);
    case FinishJob(id, finish) => if IsTerminal(finish.state) { FinishKeepsConsistent(s, id, finish); }
    case RestoreRecords(records) =>
      assert forall j :: Waits(Step(s, e), j) <==> Waits(s, j);
      assert forall j, root :: Holds(Step(s, e), j, root) <==> Holds(s, j, root);
    case StartJob(id) => StepUpdates(s, e, id);
    case OutputOf(id, _) => StepUpdates(s, e, id);
    case Diagnose(id, _) => StepUpdates(s, e, id);
  }

  lemma StepUpdates(s: Scheduler, e: Event, id: JobId)
    requires Consistent(s) && (e == StartJob(id) || (e.OutputOf? && e.id == id) || (e.Diagnose? && e.id == id))
    ensures Consistent(Step(s, e))
  {
    var s' := Step(s, e);
    if id in s.jobs {
      assert s' == s.(jobs := s.jobs[id := s'.jobs[id]]);
      UpdateKeepsConsistent(s, id, s'.jobs[id]);
    }
  }

  /** Every state a legal run reaches is consistent. */
  lemma {:induction false} RunsStayConsistent(s: Scheduler, es: seq<Event>)
    requires Consistent(s) && LegalRun(s, es)
    ensures Consistent(Run(s, es))
    decreases |es|
  {
    if es != [] {
      StepKeepsConsistent(s, es[0]);
      RunsStayConsistent(Step(s, es[0]), es[1..]);
    }
  }

  lemma ReachableIsConsistent(outputCapacity: nat, es: seq<Event>)
    requires outputCapacity > 0 && LegalRun(Empty(outputCapacity), es)
    ensures Consistent(Run(Empty(outputCapacity), es))
  {
    assert Consistent(Empty(outputCapacity));
    RunsStayConsistent(Empty(outputCapacity), es);
  }

  // ---------------------------------------------------------------------------------------------
  // History
  // ---------------------------------------------------------------------------------------------

  // Every terminal record since the start or the last restoration.
  function LogAfter(s: Scheduler, e: Event, log: seq<JobRecord>): seq<JobRecord> {
    match e
    case CancelJob(id) => if Waits(s, id) then log + [WithState(s.jobs[id], Cancelled).record] else log
    case FinishJob(id, finish) =>
      if IsTerminal(finish.state) && id in s.jobs && !IsTerminal(s.jobs[id].record.state)
      then log + [Finished(s.jobs[id].record, finish)] else log
    case RestoreRecords(records) => TerminalOnly(records)
    case _ => log
  }

  function FullLog(s: Scheduler, es: seq<Event>, log: seq<JobRecord>): seq<JobRecord>
    decreases |es|
  {
    if es == [] then log else FullLog(Step(s, es[0]), es[1..], LogAfter(s, es[0], log))
  }

  lemma RecordExtendsLog(log: seq<JobRecord>, record: JobRecord)
    ensures Record(KeepLast(log, JOB_HISTORY_LIMIT), record) == KeepLast(log + [record], JOB_HISTORY_LIMIT)
  {
    var kept := KeepLast(log, JOB_HISTORY_LIMIT);
    KeepLastTwice(log, [record], JOB_HISTORY_LIMIT);
    if |kept| == JOB_HISTORY_LIMIT {
      assert KeepLast(kept + [record], JOB_HISTORY_LIMIT) == kept[1..] + [record];
    } else {
      assert KeepLast(kept + [record], JOB_HISTORY_LIMIT) == kept + [record];
    }
  }

  lemma StepExtendsLog(s: Scheduler, e: Event, log: seq<JobRecord>)
    requires s.history == KeepLast(log, JOB_HISTORY_LIMIT)
    ensures Step(s, e).history == KeepLast(LogAfter(s, e, log), JOB_HISTORY_LIMIT)
  {
    match e
    case CancelJob(id) => if Waits(s, id) { RecordExtendsLog(log, WithState(s.jobs[id], Cancelled).record); }
    case FinishJob(id, finish) => if id in s.jobs { RecordExtendsLog(log, Finished(s.jobs[id].record, finish)); }
    case _ =>
  }

  /** The history is the newest of all the terminal records, whatever the run. */
  lemma {:induction false} HistoryIsNewestRecords(s: Scheduler, es: seq<Event>, log: seq<JobRecord>)
    requires s.history == KeepLast(log, JOB_HISTORY_LIMIT)
    ensures Run(s, es).history == KeepLast(FullLog(s, es, log), JOB_HISTORY_LIMIT)
    decreases |es|
  {
    if es != [] {
      StepExtendsLog(s, es[0], log);
      HistoryIsNewestRecords(Step(s, es[0]), es[1..], LogAfter(s, es[0], log));
    }
  }

  // ---------------------------------------------------------------------------------------------
  // Bounded waiting
  // ---------------------------------------------------------------------------------------------

  predicate Wants(jobs: map<JobId, Job>, id: JobId, root: string) {
    id in jobs && jobs[id].root == Some(root)
  }

  // How many jobs of `root` the queue lists before `q`.
  function AheadIn(jobs: map<JobId, Job>, queue: seq<JobId>, q: JobId, root: string): nat {
    if queue == [] || queue[0] == q then 0
    else (if Wants(jobs, queue[0], root) then 1 else 0) + AheadIn(jobs, queue[1..], q, root)
  }

  function Ahead(s: Scheduler, q: JobId, root: string): nat {
    AheadIn(s.jobs, s.queued, q, root)
  }

  predicate WaitsFor(s: Scheduler, q: JobId, root: string) {
    Waits(s, q) && s.jobs[q].root == Some(root)
  }

  function FinishesOn(s: Scheduler, e: Event, root: string): nat {
    if e.FinishJob? && IsTerminal(e.finish.state) && Holds(s, e.id, root) then 1 else 0
  }

  lemma {:induction false} AheadDependsOnRoots(jobs: map<JobId, Job>, jobs': map<JobId, Job>, queue: seq<JobId>,
                                               q: JobId, root: string)
    requires forall id :: id in queue ==> (Wants(jobs, id, root) <==> Wants(jobs', id, root))
    ensures AheadIn(jobs, queue, q, root) == AheadIn(jobs', queue, q, root)
  {
    if queue != [] && queue[0] != q { AheadDependsOnRoots(jobs, jobs', queue[1..], q, root); }
  }

  lemma {:induction false} AheadIgnoresLatecomers(jobs: map<JobId, Job>, queue: seq<JobId>, late: JobId, q: JobId,
                                                  root: string)
    requires q in queue
    ensures AheadIn(jobs, queue + [late], q, root) == AheadIn(jobs, queue, q, root)
  {
    if queue[0] != q {
      assert (queue + [late])[1..] == queue[1..] + [late];
      AheadIgnoresLatecomers(jobs, queue[1..], late, q, root);
    }
  }

  lemma {:induction false} AheadAfterRemoval(jobs: map<JobId, Job>, queue: seq<JobId>, x: JobId, q: JobId, root: string)
    requires q in queue && q != x
    ensures AheadIn(jobs, Without(queue, x), q, root) <= AheadIn(jobs, queue, q, root)
    ensures NextQueued(jobs, queue, root) == Some(x) && Wants(jobs, q, root) ==>
              AheadIn(jobs, Without(queue, x), q, root) + 1 <= AheadIn(jobs, queue, q, root)
  {
    if queue[0] != q { AheadAfterRemoval(jobs, queue[1..], x, q, root); }
  }

  lemma SubmitSetsNobodyBack(s: Scheduler, request: JobRequest, q: JobId, root: string)
    requires Consistent(s) && WaitsFor(s, q, root)
    ensures WaitsFor(Submit(s, request).0, q, root)
    ensures Ahead(Submit(s, request).0, q, root) <= Ahead(s, q, root)
  {
    var s' := Submit(s, request).0;
    AheadDependsOnRoots(s.jobs, s'.jobs, s.queued, q, root);
    AheadIgnoresLatecomers(s'.jobs, s.queued, request.record.id, q, root);
  }

  lemma CancelSetsNobodyBack(s: Scheduler, id: JobId, q: JobId, root: string)
    requires Consistent(s) && WaitsFor(s, q, root) && Waits(Cancel(s, id).0, q)
    ensures WaitsFor(Cancel(s, id).0, q, root)
    ensures Ahead(Cancel(s, id).0, q, root) <= Ahead(s, q, root)
  {
    var s' := Cancel(s, id).0;
    AheadDependsOnRoots(s.jobs, s'.jobs, s'.queued, q, root);
    if Waits(s, id) { AheadAfterRemoval(s.jobs, s.queued, id, q, root); }
  }

  /** While a job waits, each end of a job on its root brings it one place forward, and nothing sets it back. */
  lemma StepBringsForward(s: Scheduler, e: Event, q: JobId, root: string)
    requires Consistent(s) && Legal(s, e) && WaitsFor(s, q, root) && Waits(Step(s, e), q)
    ensures WaitsFor(Step(s, e), q, root)
    ensures Ahead(Step(s, e), q, root) + FinishesOn(s, e, root) <= Ahead(s, q, root)
  {
    var s' := Step(s, e);
    match e
    case SubmitJob(request) => SubmitSetsNobodyBack(s, request, q, root);
    case CancelJob(id) => CancelSetsNobodyBack(s, id, q, root);
    case FinishJob(id, finish) => FinishBringsForward(s, id, finish, q, root);
    case _ => AheadDependsOnRoots(s.jobs, s'.jobs, s.queued, q, root);
  }

  lemma FinishBringsForward(s: Scheduler, id: JobId, finish: JobFinish, q: JobId, root: string)
    requires Consistent(s) && Legal(s, FinishJob(id, finish)) && WaitsFor(s, q, root)
    requires Waits(Finish(s, id, finish).0, q)
    ensures WaitsFor(Finish(s, id, finish).0, q, root)
    ensures Ahead(Finish(s, id, finish).0, q, root) + FinishesOn(s, FinishJob(id, finish), root) <= Ahead(s, q, root)
  {
    var s' := Finish(s, id, finish).0;
    if IsTerminal(finish.state) && id in s.jobs && s.jobs[id].root.Some? {
      var own := s.jobs[id].root.value;
      var jobs := s.jobs - {id};
      assert id !in s.queued;
      AheadDependsOnRoots(s.jobs, jobs, s.queued, q, root);
      var next := NextQueued(jobs, s.queued, own);
      if next.Some? {
        assert next.value != q;
        AheadAfterRemoval(jobs, s.queued, next.value, q, root);
        AheadDependsOnRoots(jobs, s'.jobs, s'.queued, q, root);
      }
    } else {
      AheadDependsOnRoots(s.jobs, s'.jobs, s.queued, q, root);
    }
  }

  predicate WaitsThroughout(s: Scheduler, es: seq<Event>, q: JobId)
    decreases |es|
  {
    Waits(s, q) && (es != [] ==> WaitsThroughout(Step(s, es[0]), es[1..], q))
  }

  function FinishCount(s: Scheduler, es: seq<Event>, root: string): nat
    decreases |es|
  {
    if es == [] then 0 else FinishesOn(s, es[0], root) + FinishCount(Step(s, es[0]), es[1..], root)
  }

  /** A job with k jobs of its root ahead of it waits through at most k ends of jobs on that root. */
  lemma {:induction false} WaitingIsBounded(s: Scheduler, es: seq<Event>, q: JobId, root: string)
    requires Consistent(s) && LegalRun(s, es) && WaitsFor(s, q, root) && WaitsThroughout(s, es, q)
    ensures Ahead(Run(s, es), q, root) + FinishCount(s, es, root) <= Ahead(s, q, root)
    decreases |es|
  {
    if es != [] {
      StepBringsForward(s, es[0], q, root);
      StepKeepsConsistent(s, es[0]);
      WaitingIsBounded(Step(s, es[0]), es[1..], q, root);
    }
  }

  lemma {:induction false} NextHasNobodyAhead(jobs: map<JobId, Job>, queue: seq<JobId>, root: string)
    requires NextQueued(jobs, queue, root).Some?
    ensures AheadIn(jobs, queue, NextQueued(jobs, queue, root).value, root) == 0
  {
    if !Wants(jobs, queue[0], root) { NextHasNobodyAhead(jobs, queue[1..], root); }
  }

  /** The end of a job starts exactly the waiting job of its root that has nobody ahead of it. */
  lemma FinishStartsTheNext(s: Scheduler, id: JobId, finish: JobFinish, root: string, q: JobId)
    requires Consistent(s) && IsTerminal(finish.state) && Holds(s, id, root) && WaitsFor(s, q, root)
    ensures var (s', result) := Finish(s, id, finish);
            exists next :: result == Ok([next]) && WaitsFor(s, next, root) && Ahead(s, next, root) == 0
              && Holds(s', next, root) && s'.jobs[next].record.state == Starting && next !in s'.queued
  {
    var jobs := s.jobs - {id};
    assert q in jobs && q in s.queued;
    var next := NextQueued(jobs, s.queued, root).value;
    NextHasNobodyAhead(jobs, s.queued, root);
    AheadDependsOnRoots(s.jobs, jobs, s.queued, next, root);
    assert Finish(s, id, finish).1 == Ok([next]);
  }

  /** Two submissions on one root, then the end of the second: the first still runs, and its root is free. */
  lemma WaitingJobCanBeFinished(outputCapacity: nat, first: JobRequest, second: JobRequest, finish: JobFinish,
                                root: string)
    requires outputCapacity > 0 && first.root == second.root == Some(root) && first.record.id != second.record.id
    requires !IsTerminal(first.record.state) && !IsTerminal(second.record.state) && IsTerminal(finish.state)
    ensures var es := [SubmitJob(first), SubmitJob(second)];
            var s := Run(Empty(outputCapacity), es);
            var (s', result) := Finish(s, second.record.id, finish);
            && LegalRun(Empty(outputCapacity), es) && Waits(s, second.record.id) && result == Ok([])
            && Holds(s', first.record.id, root) && root !in s'.activeRoots
  {
    var es := [SubmitJob(first), SubmitJob(second)];
    var s1 := Step(Empty(outputCapacity), es[0]);
    var s2 := Step(s1, es[1]);
    assert es[1..] == [es[1]] && es[1..][1..] == [];
    assert Run(s1, es[1..]) == Run(s2, []) == s2;
    assert LegalRun(s1, es[1..]) by { assert LegalRun(s2, []); }
    assert s2.queued == [second.record.id];
    assert s2.queued[1..] == [];
    assert NextQueued(s2.jobs - {second.record.id}, s2.queued, root).None? by {
      assert NextQueued(s2.jobs - {second.record.id}, [], root).None?;
    }
  }
}
