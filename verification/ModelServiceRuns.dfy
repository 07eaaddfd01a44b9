/** Any number of refreshes racing with opens and invalidations, one atomic step per lock section. */
module ModelServiceRuns {
  import opened Wrappers
  import opened Ordering
  import opened ModelCaches
  import opened ModelRefreshes
  import opened ModelServices

  /** How far a refresh has come since it took its generation. */
  datatype Stage<M> =
    | Running
    | Bridged(model: M)
    | Hashed(model: M, inputs: seq<Path>, hash: Digest)
    | Loaded(model: M, inputs: seq<Path>, hash: Digest, previous: Option<ModelFingerprint>)
    | Ready(model: M, inputs: seq<Path>, fingerprint: ModelFingerprint)
    | Failing(reason: Reason, error: ServiceError)

  datatype Thread<M> =
    | Idle(open: OpenProject)
    | Active(root: Root, generation: nat, stage: Stage<M>)
    | Ended(result: Result<ModelState<M>, ServiceError>)

  datatype System<M> = System(service: Service<M>, threads: map<nat, Thread<M>>)

  /** What the outside answers between the lock sections of a refresh. */
  datatype Answer<M> =
    | BridgeReturns(output: Result<M, Reason>)
    | InputsFound(inputs: Option<seq<Path>>)
    | CacheRead(error: Option<string>)
    | FilesRead(disk: Disk)

  datatype Event<M> =
    | Opens(open: OpenCall)
    | Invalidates
    | Captures(thread: nat)
    | Begins(thread: nat)
    | Works(thread: nat, answer: Answer<M>)
    | Commits(thread: nat, commit: CommitCall)
    | Degrades(thread: nat)

  function Capture<M>(s: Service<M>): Thread<M> {
    if s.open.Some? then Idle(s.open.value) else Ended(Err(NotOpen))
  }

  // The parts of a refresh that hold no lock. A failed search for inputs or a failed hash leaves at once.
  function Work<M>(env: Environment<M>, s: Service<M>, thread: Thread<M>, answer: Answer<M>): Thread<M>
    requires thread.Active?
  {
    match (thread.stage, answer)
    case (Running, BridgeReturns(output)) =>
      if output.Ok? then thread.(stage := Bridged(output.value))
      else thread.(stage := Failing(output.error, Bridge(output.error)))
    case (Bridged(model), InputsFound(inputs)) =>
      if inputs.None? then Ended(Err(Inputs))
      else
        var hash := env.modelHash(model);
        if hash.None? then Ended(Err(Cache("hash"))) else thread.(stage := Hashed(model, inputs.value, hash.value))
    case (Hashed(model, inputs, hash), CacheRead(error)) =>
      if error.Some? then thread.(stage := Failing(CacheInvalid(error.value), Cache(error.value)))
      else thread.(stage := Loaded(model, inputs, hash, CachedFingerprint(Lookup(s.cache, thread.root))))
    case (Loaded(model, inputs, hash, previous), FilesRead(disk)) =>
      var fingerprint := FingerprintForModel(env.host, disk, inputs, previous, env.bridgeVersion, hash);
      if fingerprint.Ok? then thread.(stage := Ready(model, inputs, fingerprint.value))
      else thread.(stage := Failing(CacheInvalid("fingerprint"), FingerprintFailed(fingerprint.error)))
    case _ => thread
  }

  function JobOf<M>(thread: Thread<M>): Job<M>
    requires thread.Active? && thread.stage.Ready?
  {
    Job(thread.root, thread.generation, thread.stage.model, thread.stage.inputs, thread.stage.fingerprint)
  }

  function AfterCommit<M>(thread: Thread<M>, result: CommitResult<M>): Thread<M>
    requires thread.Active?
  {
    match result
    case Committed(state) => Ended(Ok(state))
    case Superseded(state) => Ended(Ok(state))
    case Rejected(reason, error) => thread.(stage := Failing(reason, error))
  }

  predicate IsActive<M>(sys: System<M>, t: nat) {
    t in sys.threads && sys.threads[t].Active?
  }

  predicate CanCommit<M>(sys: System<M>, t: nat) {
    IsActive(sys, t) && sys.threads[t].stage.Ready?
  }

  predicate CanDegrade<M>(sys: System<M>, t: nat) {
    IsActive(sys, t) && sys.threads[t].stage.Failing?
  }

  // An event that is not enabled leaves the system as it is.
  function Step<M>(env: Environment<M>, sys: System<M>, e: Event<M>): System<M> {
    match e
    case Opens(call) => sys.(service := OpenSection(env, sys.service, call).0)
    case Invalidates => sys.(service := InvalidateSection(sys.service))
    case Captures(t) =>
      if t in sys.threads then sys else sys.(threads := sys.threads[t := Capture(sys.service)])
    case Begins(t) =>
      if t in sys.threads && sys.threads[t].Idle? then
        var (service, generation) := BeginSection(sys.service);
        System(service, sys.threads[t := Active(sys.threads[t].open.discovery.root, generation, Running)])
      else sys
    case Works(t, answer) =>
      if IsActive(sys, t) then sys.(threads := sys.threads[t := Work(env, sys.service, sys.threads[t], answer)])
      else sys
    case Commits(t, call) =>
      if CanCommit(sys, t) then
        var (service, result) := CommitSection(sys.service, JobOf(sys.threads[t]), call);
        System(service, sys.threads[t := AfterCommit(sys.threads[t], result)])
      else sys
    case Degrades(t) =>
      if CanDegrade(sys, t) then
        var thread := sys.threads[t];
        System(DegradeSection(sys.service, thread.generation, thread.stage.reason),
               sys.threads[t := Ended(Err(thread.stage.error))])
      else sys
  }

  function Run<M>(env: Environment<M>, sys: System<M>, es: seq<Event<M>>): System<M>
    decreases |es|
  {
    if es == [] then sys else Run(env, Step(env, sys, es[0]), es[1..])
  }

  function Start<M>(cache: map<Root, Cached<M>>): System<M> {
    System(Fresh(cache), map[])
  }

  // ---------------------------------------------------------------------------------------------
  // Generations
  // ---------------------------------------------------------------------------------------------

  // The generation of the state is the counter, and every refresh in flight has a generation of its own.
  ghost predicate GenerationsAgree<M>(sys: System<M>) {
    && sys.service.state.generation == sys.service.generation
    && (forall t :: IsActive(sys, t) ==> 1 <= sys.threads[t].generation <= sys.service.generation)
    && (forall t, u :: IsActive(sys, t) && IsActive(sys, u) ==>
          (sys.threads[t].generation == sys.threads[u].generation ==> t == u))
  }

  lemma StepKeepsGenerations<M>(env: Environment<M>, sys: System<M>, e: Event<M>)
    requires GenerationsAgree(sys)
    ensures GenerationsAgree(Step(env, sys, e))
    ensures sys.service.generation <= Step(env, sys, e).service.generation <= sys.service.generation + 1
  {
    var after := Step(env, sys, e);
    forall t | IsActive(after, t)
      ensures || (IsActive(sys, t) && after.threads[t].generation == sys.threads[t].generation)
              || (e == Begins(t) && after.threads[t].generation == sys.service.generation + 1)
    {
      GenerationIsKept(env, sys, e, t);
    }
    CounterGoesUpByOne(env, sys, e);
  }

  // A refresh keeps its generation; a new one has the next.
  lemma GenerationIsKept<M>(env: Environment<M>, sys: System<M>, e: Event<M>, t: nat)
    requires IsActive(Step(env, sys, e), t)
    ensures var after := Step(env, sys, e);
            || (IsActive(sys, t) && after.threads[t].generation == sys.threads[t].generation)
            || (e == Begins(t) && after.threads[t].generation == sys.service.generation + 1)
  {
  }

  lemma CounterGoesUpByOne<M>(env: Environment<M>, sys: System<M>, e: Event<M>)
    requires sys.service.state.generation == sys.service.generation
    ensures var after := Step(env, sys, e).service;
            && after.state.generation == after.generation
            && sys.service.generation <= after.generation <= sys.service.generation + 1
            && (e.Begins? && e.thread in sys.threads && sys.threads[e.thread].Idle? ==>
                  after.generation == sys.service.generation + 1)
  {
  }

  lemma {:induction false} RunsKeepGenerations<M>(env: Environment<M>, sys: System<M>, es: seq<Event<M>>)
    requires GenerationsAgree(sys)
    ensures GenerationsAgree(Run(env, sys, es))
    ensures sys.service.generation <= Run(env, sys, es).service.generation
    decreases |es|
  {
    if es != [] {
      StepKeepsGenerations(env, sys, es[0]);
      RunsKeepGenerations(env, Step(env, sys, es[0]), es[1..]);
    }
  }

  /** Once another refresh, open or invalidation has taken a generation, a refresh changes no shared state any more. */
  lemma SupersededChangesNothing<M>(env: Environment<M>, sys: System<M>, e: Event<M>)
    requires (e.Works? || e.Commits? || e.Degrades?) && IsActive(sys, e.thread)
    requires sys.threads[e.thread].generation != sys.service.generation
    ensures Step(env, sys, e).service == sys.service
    ensures e.Commits? && sys.threads[e.thread].stage.Ready? ==>
              Step(env, sys, e).threads[e.thread] == Ended(Ok(sys.service.state))
  {
  }

  lemma {:induction false} SupersededStaysSuperseded<M>(env: Environment<M>, sys: System<M>, es: seq<Event<M>>, t: nat)
    requires GenerationsAgree(sys) && IsActive(sys, t) && sys.threads[t].generation != sys.service.generation
    ensures var after := Run(env, sys, es);
            IsActive(after, t) ==> after.threads[t].generation != after.service.generation
    decreases |es|
  {
    if es != [] {
      var after := Step(env, sys, es[0]);
      StepKeepsGenerations(env, sys, es[0]);
      if IsActive(after, t) {
        SupersededStaysSuperseded(env, after, es[1..], t);
      } else {
        EndedStaysEnded(env, after, es[1..], t);
      }
    }
  }

  lemma {:induction false} EndedStaysEnded<M>(env: Environment<M>, sys: System<M>, es: seq<Event<M>>, t: nat)
    requires t in sys.threads && sys.threads[t].Ended?
    ensures var after := Run(env, sys, es); t in after.threads && after.threads[t] == sys.threads[t]
    decreases |es|
  {
    if es != [] { EndedStaysEnded(env, Step(env, sys, es[0]), es[1..], t); }
  }

  // ---------------------------------------------------------------------------------------------
  // A superseded refresh leaves no trace
  // ---------------------------------------------------------------------------------------------

  // A refresh that has ended or is superseded.
  predicate IsInert<M>(sys: System<M>, t: nat) {
    t in sys.threads && !sys.threads[t].Idle?
    && (sys.threads[t].Active? ==> sys.threads[t].generation != sys.service.generation)
  }

  predicate Concerns<M>(e: Event<M>, t: nat) {
    !e.Opens? && !e.Invalidates? && e.thread == t
  }

  function WithoutThread<M>(es: seq<Event<M>>, t: nat): seq<Event<M>>
    decreases |es|
  {
    if es == [] then [] else (if Concerns(es[0], t) then [] else [es[0]]) + WithoutThread(es[1..], t)
  }

  // The same service and the same refreshes, but for one.
  ghost predicate SameBut<M>(a: System<M>, b: System<M>, t: nat) {
    && a.service == b.service && t in a.threads && t in b.threads
    && forall u :: u != t ==> (u in a.threads <==> u in b.threads) && (u in a.threads ==> a.threads[u] == b.threads[u])
  }

  lemma InertStaysInert<M>(env: Environment<M>, sys: System<M>, e: Event<M>, t: nat)
    requires GenerationsAgree(sys) && IsInert(sys, t)
    ensures IsInert(Step(env, sys, e), t)
  {
    CounterGoesUpByOne(env, sys, e);
    if IsActive(Step(env, sys, e), t) {
      GenerationIsKept(env, sys, e, t);
      assert sys.threads[t].generation <= sys.service.generation;
    }
  }

  lemma OthersStepTogether<M>(env: Environment<M>, a: System<M>, b: System<M>, e: Event<M>, t: nat)
    requires SameBut(a, b, t) && !Concerns(e, t)
    ensures SameBut(Step(env, a, e), Step(env, b, e), t)
  {
  }

  lemma InertStepsAlone<M>(env: Environment<M>, a: System<M>, b: System<M>, e: Event<M>, t: nat)
    requires SameBut(a, b, t) && Concerns(e, t) && IsInert(a, t)
    ensures SameBut(Step(env, a, e), b, t)
  {
    if (e.Works? || e.Commits? || e.Degrades?) && IsActive(a, t) { SupersededChangesNothing(env, a, e); }
  }

  lemma {:induction false} RunsDifferInOneThread<M>(env: Environment<M>, a: System<M>, b: System<M>, es: seq<Event<M>>,
                                                    t: nat)
    requires SameBut(a, b, t) && GenerationsAgree(a) && IsInert(a, t)
    ensures SameBut(Run(env, a, es), Run(env, b, WithoutThread(es, t)), t)
    decreases |es|
  {
    if es != [] {
      var e, rest := es[0], WithoutThread(es[1..], t);
      StepKeepsGenerations(env, a, e);
      InertStaysInert(env, a, e, t);
      if Concerns(e, t) {
        assert WithoutThread(es, t) == rest;
        InertStepsAlone(env, a, b, e, t);
        RunsDifferInOneThread(env, Step(env, a, e), b, es[1..], t);
      } else {
        assert WithoutThread(es, t)[1..] == rest && WithoutThread(es, t)[0] == e;
        OthersStepTogether(env, a, b, e, t);
        RunsDifferInOneThread(env, Step(env, a, e), Step(env, b, e), es[1..], t);
      }
    }
  }

  /** Taking every event of a superseded refresh out of a run changes nothing for the service or any other refresh. */
  lemma SupersededLeavesNoTrace<M>(env: Environment<M>, sys: System<M>, es: seq<Event<M>>, t: nat)
    requires GenerationsAgree(sys) && IsActive(sys, t) && sys.threads[t].generation != sys.service.generation
    ensures var (with, without) := (Run(env, sys, es), Run(env, sys, WithoutThread(es, t)));
            && with.service == without.service
            && forall u :: u != t ==> (u in with.threads <==> u in without.threads)
                                      && (u in with.threads ==> with.threads[u] == without.threads[u])
  {
    RunsDifferInOneThread(env, sys, sys, es, t);
  }

  // ---------------------------------------------------------------------------------------------
  // The service refines the sequential refresh
  // ---------------------------------------------------------------------------------------------

  datatype Op<M> = Beginning | Completing(generation: nat, model: M) | Failed(generation: nat) | Cancelling
                 | Reopening(cached: Option<M>, current: bool)

  function Apply<M>(r: Refresh<M>, op: Op<M>): Refresh<M> {
    match op
    case Beginning => Begin(r).0
    case Completing(generation, model) => Complete(r, generation, model).0
    case Failed(generation) => Fail(r, generation, true)
    case Cancelling => Cancel(r)
    case Reopening(cached, current) => Refresh(cached, if current then Current else Settled(cached), r.generation + 1)
  }

  function ApplyAll<M>(r: Refresh<M>, ops: seq<Op<M>>): Refresh<M>
    decreases |ops|
  {
    if ops == [] then r else ApplyAll(Apply(r, ops[0]), ops[1..])
  }

  function Abstract<M>(s: Service<M>): Refresh<M> {
    Refresh(s.state.model, s.state.freshness, s.state.generation)
  }

  // A commit completes, also when it is superseded; a commit that the outside rejects does nothing yet.
  function OpsOf<M>(env: Environment<M>, sys: System<M>, e: Event<M>): seq<Op<M>> {
    match e
    case Opens(call) =>
      var r := OpenSection(env, sys.service, call).1;
      if r.Ok? then [Reopening(r.value.model, r.value.freshness.Current?)] else []
    case Invalidates => [Cancelling]
    case Begins(t) => if t in sys.threads && sys.threads[t].Idle? then [Beginning] else []
    case Commits(t, call) =>
      if CanCommit(sys, t) && !CommitSection(sys.service, JobOf(sys.threads[t]), call).1.Rejected?
      then [Completing(sys.threads[t].generation, sys.threads[t].stage.model)] else []
    case Degrades(t) => if CanDegrade(sys, t) then [Failed(sys.threads[t].generation)] else []
    case _ => []
  }

  function RunOps<M>(env: Environment<M>, sys: System<M>, es: seq<Event<M>>): seq<Op<M>>
    decreases |es|
  {
    if es == [] then [] else OpsOf(env, sys, es[0]) + RunOps(env, Step(env, sys, es[0]), es[1..])
  }

  lemma StepSimulates<M>(env: Environment<M>, sys: System<M>, e: Event<M>)
    requires sys.service.state.generation == sys.service.generation
    ensures Abstract(Step(env, sys, e).service) == ApplyAll(Abstract(sys.service), OpsOf(env, sys, e))
  {
    var ops := OpsOf(env, sys, e);
    if ops != [] {
      assert ops == [ops[0]] && ops[1..] == [];
      assert ApplyAll(Abstract(sys.service), ops) == Apply(Abstract(sys.service), ops[0]);
    }
  }

  lemma {:induction false} ApplyConcat<M>(r: Refresh<M>, a: seq<Op<M>>, b: seq<Op<M>>)
    ensures ApplyAll(r, a + b) == ApplyAll(ApplyAll(r, a), b)
    decreases |a|
  {
    if a == [] {
      assert a + b == b;
    } else {
      assert (a + b)[1..] == a[1..] + b;
      ApplyConcat(Apply(r, a[0]), a[1..], b);
    }
  }

  /** Every interleaving behaves like the sequential refresh driven by the operations that took effect. */
  lemma {:induction false} RunsSimulate<M>(env: Environment<M>, sys: System<M>, es: seq<Event<M>>)
    requires GenerationsAgree(sys)
    ensures Abstract(Run(env, sys, es).service) == ApplyAll(Abstract(sys.service), RunOps(env, sys, es))
    decreases |es|
  {
    if es != [] {
      StepSimulates(env, sys, es[0]);
      StepKeepsGenerations(env, sys, es[0]);
      ApplyConcat(Abstract(sys.service), OpsOf(env, sys, es[0]), RunOps(env, Step(env, sys, es[0]), es[1..]));
      RunsSimulate(env, Step(env, sys, es[0]), es[1..]);
    }
  }

  /** A commit the outside does not reject is accepted exactly when the sequential refresh accepts it. */
  lemma CommitIsComplete<M>(s: Service<M>, job: Job<M>, call: CommitCall)
    requires s.state.generation == s.generation && !CommitSection(s, job, call).1.Rejected?
    ensures CommitSection(s, job, call).1.Committed? == Complete(Abstract(s), job.generation, job.model).1
    ensures Abstract(CommitSection(s, job, call).0) == Complete(Abstract(s), job.generation, job.model).0
  {
  }
}
