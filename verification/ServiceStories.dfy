/** What the service shows, told from the events of a run: which of them set what, and to what. */
module ServiceStories {
  import opened Wrappers
  import opened Ordering
  import opened ModelCaches
  import opened ModelRefreshes
  import opened ModelServices
  import opened ModelServiceRuns

  /** What the outside has told a refresh so far; it has a generation once it began. */
  datatype Plan<M> = Plan(
    root: Root, generation: Option<nat>, model: Option<M>, inputs: Option<seq<Path>>,
    earlier: Option<Option<ModelFingerprint>>, fingerprint: Option<ModelFingerprint>,
    failure: Option<(Reason, ServiceError)>)

  /** What the events set last, the refreshes on their way, and what the others returned. */
  datatype Tale<M> = Tale(
    model: Option<M>, freshness: Freshness, support: Support, reason: Option<Reason>, generation: nat,
    open: Option<OpenProject>, watched: Option<Watched>, cache: map<Root, Cached<M>>,
    plans: map<nat, Plan<M>>, results: map<nat, Result<ModelState<M>, ServiceError>>)

  function Shown<M>(tale: Tale<M>): ModelState<M> {
    ModelState(tale.model, tale.freshness, tale.support, tale.reason, tale.generation)
  }

  function Beginning<M>(cache: map<Root, Cached<M>>): Tale<M> {
    Tale(None, Provisional, FullSupport, None, 0, None, None, cache, map[], map[])
  }

  function Returns<M>(tale: Tale<M>, t: nat, result: Result<ModelState<M>, ServiceError>): Tale<M> {
    tale.(plans := tale.plans - {t}, results := tale.results[t := result])
  }

  // Written by this bridge in this format, of this very model, and of the same files.
  predicate IsUpToDate<M>(env: Environment<M>, known: Cached<M>, inputs: seq<ModelInput>) {
    && known.fingerprint.schemaVersion == 1 && known.fingerprint.bridgeVersion == env.bridgeVersion
    && env.modelHash(known.model) == Some(known.fingerprint.modelHash) && known.fingerprint.inputs == inputs
  }

  // An open that gets as far as the watcher watches; one that gets to the end shows what is cached for the root.
  function TellOpen<M>(env: Environment<M>, tale: Tale<M>, call: OpenCall): Tale<M> {
    if call.discovery.None? || call.inputs.None? || call.replaceError.Some? then tale
    else
      var root, inputs := call.discovery.value.root, call.inputs.value;
      var watching := tale.(watched := Some(Watched(root, inputs)));
      if call.loadError.Some? then watching
      else if root in tale.cache then
        var known := tale.cache[root];
        var now := Fingerprint(env.host, call.disk, inputs, Some(known.fingerprint));
        var detected := env.unsupportedAgp(known.model);
        if now.Err? then watching
        else watching.(
          model := Some(known.model),
          freshness := if IsUpToDate(env, known, now.value.inputs) then Current else Stale,
          support := if detected.None? && call.discovery.value.hasWrapper then FullSupport else DegradedSupport,
          reason := if detected.Some? then Some(UnsupportedAgp(detected.value, "8.x-9.x"))
                    else if call.discovery.value.hasWrapper then None else Some(MissingWrapper),
          generation := tale.generation + 1,
          open := Some(OpenProject(call.discovery.value, inputs)))
      else if Fingerprint(env.host, call.disk, inputs, None).Err? then watching
      else watching.(
        model := None, freshness := Provisional,
        support := if call.discovery.value.hasWrapper then FullSupport else DegradedSupport,
        reason := if call.discovery.value.hasWrapper then None else Some(MissingWrapper),
        generation := tale.generation + 1,
        open := Some(OpenProject(call.discovery.value, inputs)))
  }

  // What one answer of the outside adds to a plan: in this order the model, the inputs, the cache, the files.
  function TellAnswer<M>(env: Environment<M>, tale: Tale<M>, t: nat, answer: Answer<M>): Tale<M>
    requires t in tale.plans
  {
    var plan := tale.plans[t];
    if plan.generation.None? || plan.failure.Some? || plan.fingerprint.Some? then tale
    else if plan.model.None? then
      if !answer.BridgeReturns? then tale
      else if answer.output.Ok? then tale.(plans := tale.plans[t := plan.(model := Some(answer.output.value))])
      else Fails(tale, t, answer.output.error, Bridge(answer.output.error))
    else if plan.inputs.None? then
      if !answer.InputsFound? then tale
      else if answer.inputs.None? then Returns(tale, t, Err(Inputs))
      else if env.modelHash(plan.model.value).None? then Returns(tale, t, Err(Cache("hash")))
      else tale.(plans := tale.plans[t := plan.(inputs := answer.inputs)])
    else if plan.earlier.None? then
      if !answer.CacheRead? then tale
      else if answer.error.Some? then Fails(tale, t, CacheInvalid(answer.error.value), Cache(answer.error.value))
      else
        var known := if plan.root in tale.cache then Some(tale.cache[plan.root].fingerprint) else None;
        tale.(plans := tale.plans[t := plan.(earlier := Some(known))])
    else if !answer.FilesRead? || env.modelHash(plan.model.value).None? then tale
    else
      var hash := env.modelHash(plan.model.value).value;
      var files := FingerprintForModel(env.host, answer.disk, plan.inputs.value, plan.earlier.value,
                                       env.bridgeVersion, hash);
      if files.Err? then Fails(tale, t, CacheInvalid("fingerprint"), FingerprintFailed(files.error))
      else tale.(plans := tale.plans[t := plan.(fingerprint := Some(files.value))])
  }

  function Fails<M>(tale: Tale<M>, t: nat, reason: Reason, error: ServiceError): Tale<M>
    requires t in tale.plans
  {
    tale.(plans := tale.plans[t := tale.plans[t].(failure := Some((reason, error)))])
  }

  predicate IsReady<M>(plan: Plan<M>) {
    plan.failure.None? && plan.fingerprint.Some? && plan.inputs.Some? && plan.model.Some? && plan.generation.Some?
  }

  // A refresh with everything in hand saves and shows its model, unless another generation was taken.
  function TellCommit<M>(tale: Tale<M>, t: nat, call: CommitCall): Tale<M>
    requires t in tale.plans && IsReady(tale.plans[t])
  {
    var plan := tale.plans[t];
    var root, model, inputs := plan.root, plan.model.value, plan.inputs.value;
    if plan.generation.value != tale.generation then Returns(tale, t, Ok(Shown(tale)))
    else if call.replaceError.Some? then
      Fails(tale, t, ConfigurationFailed(call.replaceError.value), Watcher(call.replaceError.value))
    else if call.saveError.Some? then
      Fails(tale.(watched := Some(Watched(root, inputs))), t,
            CacheInvalid(call.saveError.value), Cache(call.saveError.value))
    else
      var saved := tale.(
        watched := Some(Watched(root, inputs)), cache := tale.cache[root := Cached(model, plan.fingerprint.value)],
        model := Some(model), freshness := Current, support := FullSupport, reason := None,
        open := if tale.open.Some? then Some(OpenProject(tale.open.value.discovery, inputs)) else None);
      Returns(saved, t, Ok(Shown(saved)))
  }

  function TellDegrade<M>(tale: Tale<M>, t: nat): Tale<M>
    requires t in tale.plans && tale.plans[t].failure.Some?
  {
    var (reason, error) := tale.plans[t].failure.value;
    var told := if tale.plans[t].generation == Some(tale.generation)
                then tale.(freshness := Degraded, support := DegradedSupport, reason := Some(reason)) else tale;
    Returns(told, t, Err(error))
  }

  function Tell<M>(env: Environment<M>, tale: Tale<M>, e: Event<M>): Tale<M> {
    match e
    case Opens(call) => TellOpen(env, tale, call)
    case Invalidates =>
      tale.(generation := tale.generation + 1, freshness := if tale.model.Some? then Stale else Provisional)
    case Captures(t) =>
      if t in tale.plans || t in tale.results then tale
      else if tale.open.None? then Returns(tale, t, Err(NotOpen))
      else tale.(plans := tale.plans[t := Plan(tale.open.value.discovery.root, None, None, None, None, None, None)])
    case Begins(t) =>
      if t !in tale.plans || tale.plans[t].generation.Some? then tale
      else tale.(generation := tale.generation + 1, freshness := Refreshing,
                 plans := tale.plans[t := tale.plans[t].(generation := Some(tale.generation + 1))])
    case Works(t, answer) => if t in tale.plans then TellAnswer(env, tale, t, answer) else tale
    case Commits(t, call) => if t in tale.plans && IsReady(tale.plans[t]) then TellCommit(tale, t, call) else tale
    case Degrades(t) => if t in tale.plans && tale.plans[t].failure.Some? then TellDegrade(tale, t) else tale
  }

  // ---------------------------------------------------------------------------------------------
  // The system tells the same
  // ---------------------------------------------------------------------------------------------

  predicate TellsStage<M(==)>(env: Environment<M>, stage: Stage<M>, plan: Plan<M>) {
    match stage
    case Failing(reason, error) => plan.failure == Some((reason, error))
    case Running =>
      plan.failure.None? && plan.model.None? && plan.inputs.None? && plan.earlier.None? && plan.fingerprint.None?
    case Bridged(model) =>
      plan.failure.None? && plan.model == Some(model) && plan.inputs.None? && plan.earlier.None?
      && plan.fingerprint.None?
    case Hashed(model, inputs, hash) =>
      plan.failure.None? && plan.model == Some(model) && plan.inputs == Some(inputs)
      && env.modelHash(model) == Some(hash) && plan.earlier.None? && plan.fingerprint.None?
    case Loaded(model, inputs, hash, previous) =>
      plan.failure.None? && plan.model == Some(model) && plan.inputs == Some(inputs)
      && env.modelHash(model) == Some(hash) && plan.earlier == Some(previous) && plan.fingerprint.None?
    case Ready(model, inputs, fingerprint) =>
      plan.failure.None? && plan.model == Some(model) && plan.inputs == Some(inputs)
      && plan.fingerprint == Some(fingerprint)
  }

  predicate TellsThread<M(==)>(env: Environment<M>, threads: map<nat, Thread<M>>, tale: Tale<M>, t: nat)
    requires t in threads
  {
    match threads[t]
    case Idle(open) =>
      && t in tale.plans && t !in tale.results
      && tale.plans[t] == Plan(open.discovery.root, None, None, None, None, None, None)
    case Active(root, generation, stage) =>
      && t in tale.plans && t !in tale.results
      && tale.plans[t].root == root && tale.plans[t].generation == Some(generation)
      && TellsStage(env, stage, tale.plans[t])
    case Ended(result) => t !in tale.plans && t in tale.results && tale.results[t] == result
  }

  ghost predicate TellsThreads<M>(env: Environment<M>, threads: map<nat, Thread<M>>, tale: Tale<M>) {
    && threads.Keys == tale.plans.Keys + tale.results.Keys
    && forall t :: t in threads ==> TellsThread(env, threads, tale, t)
  }

  function ServiceOf<M>(tale: Tale<M>): Service<M> {
    Service(tale.generation, tale.open, Shown(tale), tale.cache, tale.watched)
  }

  ghost predicate Tells<M>(env: Environment<M>, sys: System<M>, tale: Tale<M>) {
    sys.service == ServiceOf(tale) && TellsThreads(env, sys.threads, tale)
  }

  // One refresh moves on, and the others stay as they are.
  lemma OneMoves<M>(env: Environment<M>, threads: map<nat, Thread<M>>, threads': map<nat, Thread<M>>,
                    tale: Tale<M>, tale': Tale<M>, t: nat)
    requires TellsThreads(env, threads, tale) && t in threads' && threads' == threads[t := threads'[t]]
    requires tale'.plans - {t} == tale.plans - {t} && tale'.results - {t} == tale.results - {t}
    requires TellsThread(env, threads', tale', t)
    ensures TellsThreads(env, threads', tale')
  {
    forall u ensures u in threads' <==> u in tale'.plans || u in tale'.results {
      if u != t {
        assert u in tale'.plans <==> u in tale'.plans - {t};
        assert u in tale.plans <==> u in tale.plans - {t};
        assert u in tale'.results <==> u in tale'.results - {t};
        assert u in tale.results <==> u in tale.results - {t};
      }
    }
    forall u | u in threads' ensures TellsThread(env, threads', tale', u) {
      if u != t { OtherStays(env, threads, threads', tale, tale', t, u); }
    }
  }

  lemma OtherStays<M>(env: Environment<M>, threads: map<nat, Thread<M>>, threads': map<nat, Thread<M>>,
                      tale: Tale<M>, tale': Tale<M>, t: nat, u: nat)
    requires u != t && u in threads && u in threads' && threads'[u] == threads[u] && TellsThread(env, threads, tale, u)
    requires tale'.plans - {t} == tale.plans - {t} && tale'.results - {t} == tale.results - {t}
    ensures TellsThread(env, threads', tale', u)
  {
    assert u in tale'.plans <==> u in tale'.plans - {t};
    assert u in tale.plans <==> u in tale.plans - {t};
    assert u in tale'.results <==> u in tale'.results - {t};
    assert u in tale.results <==> u in tale.results - {t};
    if u in tale.plans { assert (tale'.plans - {t})[u] == (tale.plans - {t})[u]; }
    if u in tale.results { assert (tale'.results - {t})[u] == (tale.results - {t})[u]; }
  }

  lemma OpenKeepsRefreshes<M>(env: Environment<M>, tale: Tale<M>, call: OpenCall)
    ensures TellOpen(env, tale, call).plans == tale.plans && TellOpen(env, tale, call).results == tale.results
  {
  }

  lemma OpenOfKnownTells<M>(env: Environment<M>, s: Service<M>, tale: Tale<M>, call: OpenCall, root: Root)
    requires s == ServiceOf(tale) && call.discovery.Some? && root == call.discovery.value.root && root in tale.cache
    ensures OpenSection(env, s, call).0 == ServiceOf(TellOpen(env, tale, call))
  {
    assert Lookup(s.cache, root) == Some(tale.cache[root]);
  }

  lemma OpenOfUnknownTells<M>(env: Environment<M>, s: Service<M>, tale: Tale<M>, call: OpenCall, root: Root)
    requires s == ServiceOf(tale) && call.discovery.Some? && root == call.discovery.value.root && root !in tale.cache
    ensures OpenSection(env, s, call).0 == ServiceOf(TellOpen(env, tale, call))
  {
    assert Lookup(s.cache, root).None?;
  }

  lemma OpenTells<M>(env: Environment<M>, s: Service<M>, tale: Tale<M>, call: OpenCall)
    requires s == ServiceOf(tale)
    ensures OpenSection(env, s, call).0 == ServiceOf(TellOpen(env, tale, call))
  {
    if call.discovery.Some? {
      var root := call.discovery.value.root;
      if root in tale.cache {
        OpenOfKnownTells(env, s, tale, call, root);
      } else {
        OpenOfUnknownTells(env, s, tale, call, root);
      }
    }
  }

  lemma RefreshesStayTold<M>(env: Environment<M>, threads: map<nat, Thread<M>>, tale: Tale<M>, tale': Tale<M>)
    requires TellsThreads(env, threads, tale) && tale'.plans == tale.plans && tale'.results == tale.results
    ensures TellsThreads(env, threads, tale')
  {
    forall t | t in threads ensures TellsThread(env, threads, tale', t) {
      assert TellsThread(env, threads, tale, t);
    }
  }

  lemma CaptureMovesOn<M>(env: Environment<M>, s: Service<M>, threads: map<nat, Thread<M>>, tale: Tale<M>, t: nat)
    requires s == ServiceOf(tale) && t !in threads && t !in tale.plans && t !in tale.results
    ensures MovesOn(env, threads[t := Capture(s)], tale, Tell(env, tale, Captures(t)), t)
  {
  }

  lemma CaptureTells<M>(env: Environment<M>, sys: System<M>, tale: Tale<M>, t: nat)
    requires Tells(env, sys, tale)
    ensures Tells(env, Step(env, sys, Captures(t)), Tell(env, tale, Captures(t)))
  {
    if t !in sys.threads {
      CaptureMovesOn(env, sys.service, sys.threads, tale, t);
      OneMoves(env, sys.threads, Step(env, sys, Captures(t)).threads, tale, Tell(env, tale, Captures(t)), t);
    }
  }

  lemma BeginTells<M>(env: Environment<M>, sys: System<M>, tale: Tale<M>, t: nat)
    requires Tells(env, sys, tale)
    ensures Tells(env, Step(env, sys, Begins(t)), Tell(env, tale, Begins(t)))
  {
    if t in sys.threads {
      assert TellsThread(env, sys.threads, tale, t);
      if sys.threads[t].Idle? {
        OneMoves(env, sys.threads, Step(env, sys, Begins(t)).threads, tale, Tell(env, tale, Begins(t)), t);
      }
    }
  }

  // Refresh `t` is told, and nothing else in the tale has changed but what the service shows.
  predicate MovesOn<M(==)>(env: Environment<M>, threads: map<nat, Thread<M>>, tale: Tale<M>, tale': Tale<M>, t: nat)
    requires t in threads
  {
    && TellsThread(env, threads, tale', t)
    && tale'.plans - {t} == tale.plans - {t} && tale'.results - {t} == tale.results - {t}
  }

  lemma AnswerShowsNothing<M>(env: Environment<M>, tale: Tale<M>, t: nat, answer: Answer<M>)
    requires t in tale.plans
    ensures var told := TellAnswer(env, tale, t, answer); told == tale.(plans := told.plans, results := told.results)
  {
  }

  lemma BridgeTells<M>(env: Environment<M>, s: Service<M>, threads: map<nat, Thread<M>>, tale: Tale<M>, t: nat,
                     answer: Answer<M>)
    requires s == ServiceOf(tale) && t in threads && threads[t].Active? && TellsThread(env, threads, tale, t)
    requires threads[t].stage.Running?
    ensures MovesOn(env, threads[t := Work(env, s, threads[t], answer)], tale, TellAnswer(env, tale, t, answer), t)
  {
  }

  lemma InputsTell<M>(env: Environment<M>, s: Service<M>, threads: map<nat, Thread<M>>, tale: Tale<M>, t: nat,
                    answer: Answer<M>)
    requires s == ServiceOf(tale) && t in threads && threads[t].Active? && TellsThread(env, threads, tale, t)
    requires threads[t].stage.Bridged?
    ensures MovesOn(env, threads[t := Work(env, s, threads[t], answer)], tale, TellAnswer(env, tale, t, answer), t)
  {
  }

  lemma CacheTells<M>(env: Environment<M>, s: Service<M>, threads: map<nat, Thread<M>>, tale: Tale<M>, t: nat,
                    answer: Answer<M>)
    requires s == ServiceOf(tale) && t in threads && threads[t].Active? && TellsThread(env, threads, tale, t)
    requires threads[t].stage.Hashed?
    ensures MovesOn(env, threads[t := Work(env, s, threads[t], answer)], tale, TellAnswer(env, tale, t, answer), t)
  {
  }

  lemma FilesTell<M>(env: Environment<M>, s: Service<M>, threads: map<nat, Thread<M>>, tale: Tale<M>, t: nat,
                   answer: Answer<M>)
    requires s == ServiceOf(tale) && t in threads && threads[t].Active? && TellsThread(env, threads, tale, t)
    requires threads[t].stage.Loaded?
    ensures MovesOn(env, threads[t := Work(env, s, threads[t], answer)], tale, TellAnswer(env, tale, t, answer), t)
  {
  }

  lemma AnswerTells<M>(env: Environment<M>, s: Service<M>, threads: map<nat, Thread<M>>, tale: Tale<M>, t: nat,
                     answer: Answer<M>)
    requires s == ServiceOf(tale) && t in threads && threads[t].Active? && TellsThread(env, threads, tale, t)
    ensures MovesOn(env, threads[t := Work(env, s, threads[t], answer)], tale, TellAnswer(env, tale, t, answer), t)
  {
    match threads[t].stage
    case Running => BridgeTells(env, s, threads, tale, t, answer);
    case Bridged(_) => InputsTell(env, s, threads, tale, t, answer);
    case Hashed(_, _, _) => CacheTells(env, s, threads, tale, t, answer);
    case Loaded(_, _, _, _) => FilesTell(env, s, threads, tale, t, answer);
    case _ =>
  }

  lemma WorkTells<M>(env: Environment<M>, sys: System<M>, tale: Tale<M>, t: nat, answer: Answer<M>)
    requires Tells(env, sys, tale)
    ensures Tells(env, Step(env, sys, Works(t, answer)), Tell(env, tale, Works(t, answer)))
  {
    if t in sys.threads {
      assert TellsThread(env, sys.threads, tale, t);
      if sys.threads[t].Active? {
        AnswerShowsNothing(env, tale, t, answer);
        AnswerTells(env, sys.service, sys.threads, tale, t, answer);
        OneMoves(env, sys.threads, Step(env, sys, Works(t, answer)).threads, tale,
                 Tell(env, tale, Works(t, answer)), t);
      }
    }
  }

  lemma CommitShows<M>(s: Service<M>, tale: Tale<M>, t: nat, job: Job<M>, call: CommitCall)
    requires s == ServiceOf(tale) && t in tale.plans && IsReady(tale.plans[t]) && TellsPlan(job, tale.plans[t])
    ensures CommitSection(s, job, call).0 == ServiceOf(TellCommit(tale, t, call))
  {
  }

  predicate TellsPlan<M(==)>(job: Job<M>, plan: Plan<M>) {
    && plan.root == job.root && plan.generation == Some(job.generation) && plan.model == Some(job.model)
    && plan.inputs == Some(job.inputs) && plan.fingerprint == Some(job.fingerprint)
  }

  // What a commit returns, or why it goes on to fail.
  lemma CommitAnswers<M>(s: Service<M>, tale: Tale<M>, t: nat, job: Job<M>, call: CommitCall)
    requires s == ServiceOf(tale) && t in tale.plans && IsReady(tale.plans[t]) && TellsPlan(job, tale.plans[t])
    ensures var told, result := TellCommit(tale, t, call), CommitSection(s, job, call).1;
            match result
            case Rejected(reason, error) =>
              told.results == tale.results
              && told.plans == tale.plans[t := tale.plans[t].(failure := Some((reason, error)))]
            case Committed(state) => told.results == tale.results[t := Ok(state)] && told.plans == tale.plans - {t}
            case Superseded(state) => told.results == tale.results[t := Ok(state)] && told.plans == tale.plans - {t}
  {
  }

  lemma CommitMovesOn<M>(env: Environment<M>, s: Service<M>, threads: map<nat, Thread<M>>, tale: Tale<M>, t: nat,
                         call: CommitCall, told: Tale<M>, result: CommitResult<M>)
    requires t in threads && threads[t].Active? && threads[t].stage.Ready? && TellsThread(env, threads, tale, t)
    requires match result
             case Rejected(reason, error) =>
               told.results == tale.results
               && told.plans == tale.plans[t := tale.plans[t].(failure := Some((reason, error)))]
             case Committed(state) => told.results == tale.results[t := Ok(state)] && told.plans == tale.plans - {t}
             case Superseded(state) => told.results == tale.results[t := Ok(state)] && told.plans == tale.plans - {t}
    ensures MovesOn(env, threads[t := AfterCommit(threads[t], result)], tale, told, t)
  {
  }

  lemma CommitTells<M>(env: Environment<M>, sys: System<M>, tale: Tale<M>, t: nat, call: CommitCall)
    requires Tells(env, sys, tale)
    ensures Tells(env, Step(env, sys, Commits(t, call)), Tell(env, tale, Commits(t, call)))
  {
    if t in sys.threads {
      assert TellsThread(env, sys.threads, tale, t);
      if CanCommit(sys, t) {
        var job := JobOf(sys.threads[t]);
        CommitShows(sys.service, tale, t, job, call);
        CommitAnswers(sys.service, tale, t, job, call);
        CommitMovesOn(env, sys.service, sys.threads, tale, t, call, TellCommit(tale, t, call),
                      CommitSection(sys.service, job, call).1);
        OneMoves(env, sys.threads, Step(env, sys, Commits(t, call)).threads, tale,
                 Tell(env, tale, Commits(t, call)), t);
      }
    }
  }

  lemma DegradeShows<M>(s: Service<M>, tale: Tale<M>, t: nat, generation: nat, reason: Reason)
    requires s == ServiceOf(tale) && t in tale.plans && tale.plans[t].generation == Some(generation)
    requires tale.plans[t].failure.Some? && tale.plans[t].failure.value.0 == reason
    ensures DegradeSection(s, generation, reason) == ServiceOf(TellDegrade(tale, t))
  {
  }

  lemma DegradeMovesOn<M>(env: Environment<M>, threads: map<nat, Thread<M>>, tale: Tale<M>, t: nat)
    requires t in threads && threads[t].Active? && threads[t].stage.Failing? && TellsThread(env, threads, tale, t)
    ensures MovesOn(env, threads[t := Ended(Err(threads[t].stage.error))], tale, TellDegrade(tale, t), t)
  {
  }

  lemma DegradeTells<M>(env: Environment<M>, sys: System<M>, tale: Tale<M>, t: nat)
    requires Tells(env, sys, tale)
    ensures Tells(env, Step(env, sys, Degrades(t)), Tell(env, tale, Degrades(t)))
  {
    if t in sys.threads {
      assert TellsThread(env, sys.threads, tale, t);
      if CanDegrade(sys, t) {
        DegradeShows(sys.service, tale, t, sys.threads[t].generation, sys.threads[t].stage.reason);
        DegradeMovesOn(env, sys.threads, tale, t);
        OneMoves(env, sys.threads, Step(env, sys, Degrades(t)).threads, tale, Tell(env, tale, Degrades(t)), t);
      }
    }
  }

  lemma StepTells<M>(env: Environment<M>, sys: System<M>, tale: Tale<M>, e: Event<M>)
    requires Tells(env, sys, tale)
    ensures Tells(env, Step(env, sys, e), Tell(env, tale, e))
  {
    match e
    case Opens(call) =>
      OpenTells(env, sys.service, tale, call);
      OpenKeepsRefreshes(env, tale, call);
      RefreshesStayTold(env, sys.threads, tale, Tell(env, tale, e));
    case Invalidates => RefreshesStayTold(env, sys.threads, tale, Tell(env, tale, e));
    case Captures(t) => CaptureTells(env, sys, tale, t);
    case Begins(t) => BeginTells(env, sys, tale, t);
    case Works(t, answer) => WorkTells(env, sys, tale, t, answer);
    case Commits(t, call) => CommitTells(env, sys, tale, t, call);
    case Degrades(t) => DegradeTells(env, sys, tale, t);
  }

  function TellRun<M>(env: Environment<M>, tale: Tale<M>, es: seq<Event<M>>): Tale<M>
    decreases |es|
  {
    if es == [] then tale else TellRun(env, Tell(env, tale, es[0]), es[1..])
  }

  /**
   * Over every interleaving: model, freshness, support, reason, open project, watch and cache are what the latest event
   * that sets them set them to, and every refresh returns what its events say.
   */
  lemma {:induction false} RunsAreTold<M>(env: Environment<M>, sys: System<M>, tale: Tale<M>, es: seq<Event<M>>)
    requires Tells(env, sys, tale)
    ensures Tells(env, Run(env, sys, es), TellRun(env, tale, es))
    decreases |es|
  {
    if es != [] {
      StepTells(env, sys, tale, es[0]);
      RunsAreTold(env, Step(env, sys, es[0]), Tell(env, tale, es[0]), es[1..]);
    }
  }

  lemma StartIsTold<M>(env: Environment<M>, cache: map<Root, Cached<M>>)
    ensures Tells(env, Start(cache), Beginning(cache))
  {
  }

  /** An open answers with what it shows; or with the first thing that failed, and then it takes no generation. */
  lemma OpensAreAnswered<M>(env: Environment<M>, tale: Tale<M>, call: OpenCall)
    ensures var told, r := TellOpen(env, tale, call), OpenSection(env, ServiceOf(tale), call).1;
            && (r.Ok? <==> told.generation == tale.generation + 1)
            && (r.Ok? ==> r == Ok(Shown(told)))
            && (r.Err? ==> told == tale.(watched := told.watched))
            && (call.discovery.None? ==> r == Err(ServiceError.Discovery))
            && (call.discovery.Some? && call.inputs.None? ==> r == Err(Inputs))
            && (call.discovery.Some? && call.inputs.Some? && call.replaceError.Some? ==>
                  r == Err(Watcher(call.replaceError.value)))
            && (call.discovery.Some? && call.inputs.Some? && call.replaceError.None? && call.loadError.Some? ==>
                  r == Err(Cache(call.loadError.value)))
            && (call.discovery.Some? && call.inputs.Some? && call.replaceError.None? && call.loadError.None? ==>
                  r.Ok? || r.error.FingerprintFailed?)
  {
    OpenTells(env, ServiceOf(tale), tale, call);
  }
}
