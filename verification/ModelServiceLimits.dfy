/** Two things a caller of the service might expect and does not get. */
module ModelServiceLimits {
  import opened Wrappers
  import opened Ordering
  import opened ModelServices
  import opened ModelServiceRuns
  import opened ModelServiceGuarantees

  lemma RunStep<M>(env: Environment<M>, sys: System<M>, es: seq<Event<M>>, k: nat)
    requires k < |es|
    ensures Run(env, sys, es[k..]) == Run(env, Step(env, sys, es[k]), es[k + 1..])
  {
    assert es[k..][1..] == es[k + 1..];
  }

  lemma RunThreeSteps<M>(env: Environment<M>, sys: System<M>, es: seq<Event<M>>, later: seq<Event<M>>)
    requires |es| == 3
    ensures Run(env, sys, es + later) == Run(env, Step(env, Step(env, Step(env, sys, es[0]), es[1]), es[2]), later)
  {
    var all := es + later;
    assert all[0..] == all && all[3..] == later;
    RunStep(env, sys, all, 0);
    RunStep(env, Step(env, sys, es[0]), all, 1);
    RunStep(env, Step(env, Step(env, sys, es[0]), es[1]), all, 2);
  }

  lemma BridgedLeavesEarly<M>(env: Environment<M>, sys: System<M>, t: nat, model: M, inputs: Option<seq<Path>>)
    requires GenerationsAgree(sys) && IsActive(sys, t) && sys.threads[t].stage == Bridged(model)
    requires sys.threads[t].generation == sys.service.generation && (inputs.None? || env.modelHash(model).None?)
    ensures var after := Step(env, sys, Works(t, InputsFound(inputs)));
            after.service == sys.service && !InFlight(after, sys.service.generation)
  {
    WorkEndsByLeavingEarly(env, sys, Works(t, InputsFound(inputs)));
    InFlightAfter(env, sys, Works(t, InputsFound(inputs)), sys.service.generation);
  }

  /**
   * When the bridge's model cannot be hashed or its inputs cannot be listed, the state stays Refreshing with no refresh
   * in flight.
   */
  lemma EarlyExitStaysRefreshing<M>(env: Environment<M>, sys: System<M>, t: nat, model: M, inputs: Option<seq<Path>>)
    requires GenerationsAgree(sys) && t in sys.threads && sys.threads[t].Idle?
    requires inputs.None? || env.modelHash(model).None?
    ensures var after := Run(env, sys, [Begins(t), Works(t, BridgeReturns(Ok(model))), Works(t, InputsFound(inputs))]);
            after.service.state.freshness.Refreshing? && !InFlight(after, after.service.generation)
  {
    var es := [Begins(t), Works(t, BridgeReturns(Ok(model))), Works(t, InputsFound(inputs))];
    var s1 := Step(env, sys, es[0]);
    var s2 := Step(env, s1, es[1]);
    assert es + [] == es;
    RunThreeSteps(env, sys, es, []);
    StepKeepsGenerations(env, sys, es[0]);
    StepKeepsGenerations(env, s1, es[1]);
    BridgedLeavesEarly(env, s2, t, model, inputs);
  }

  // A refresh from its begin to its save, when the outside answers everything and there is nothing to read.
  function QuietRefresh<M>(t: nat, model: M): seq<Event<M>> {
    [Begins(t), Works(t, BridgeReturns(Ok(model))), Works(t, InputsFound(Some([]))), Works(t, CacheRead(None)),
     Works(t, FilesRead(map[])), Commits(t, CommitCall(None, None))]
  }

// The first five events of a quiet refresh.
  function QuietlyReady<M>(env: Environment<M>, sys: System<M>, es: seq<Event<M>>): System<M>
    requires |es| >= 5
  {
    Step(env, Step(env, Step(env, Step(env, Step(env, sys, es[0]), es[1]), es[2]), es[3]), es[4])
  }

  lemma RunSixSteps<M>(env: Environment<M>, sys: System<M>, es: seq<Event<M>>)
    requires |es| == 6
    ensures Run(env, sys, es) == Step(env, QuietlyReady(env, sys, es), es[5])
  {
    assert es[0..] == es && es[6..] == [];
    RunStep(env, sys, es, 0);
    var s1 := Step(env, sys, es[0]);
    RunStep(env, s1, es, 1);
    var s2 := Step(env, s1, es[1]);
    RunStep(env, s2, es, 2);
    var s3 := Step(env, s2, es[2]);
    RunStep(env, s3, es, 3);
    var s4 := Step(env, s3, es[3]);
    RunStep(env, s4, es, 4);
    RunStep(env, Step(env, s4, es[4]), es, 5);
  }

  lemma QuietRefreshGetsReady<M>(env: Environment<M>, sys: System<M>, t: nat, model: M)
    requires t in sys.threads && sys.threads[t].Idle? && env.modelHash(model).Some?
    ensures var ready := QuietlyReady(env, sys, QuietRefresh(t, model));
            && ready.service == BeginSection(sys.service).0 && CanCommit(ready, t)
            && var thread := ready.threads[t];
               && thread.root == sys.threads[t].open.discovery.root && thread.generation == ready.service.generation
               && thread.stage.model == model
  {
    var es := QuietRefresh(t, model);
    var s1 := Step(env, sys, es[0]);
    var s2 := Step(env, s1, es[1]);
    assert s2.threads[t].stage == Bridged(model);
    var s3 := Step(env, s2, es[2]);
    assert s3.threads[t].stage == Hashed(model, [], env.modelHash(model).value);
    var s4 := Step(env, s3, es[3]);
    assert s4.threads[t].stage.Loaded? && s4.threads[t].stage.inputs == [];
  }

  /**
   * A refresh that captured one root and began after another was opened shows the first root's model under the second.
   */
  lemma ModelOfAnotherRoot<M>(env: Environment<M>, sys: System<M>, t: nat, model: M, other: Root)
    requires GenerationsAgree(sys) && t in sys.threads && sys.threads[t].Idle? && env.modelHash(model).Some?
    requires sys.threads[t].open.discovery.root != other && OpenRoot(sys.service) == Some(other)
    ensures var after := Run(env, sys, QuietRefresh(t, model)).service;
            && after.state.freshness.Current? && after.state.model == Some(model) && OpenRoot(after) == Some(other)
            && after.watched.Some? && after.watched.value.root == sys.threads[t].open.discovery.root
  {
    RunSixSteps(env, sys, QuietRefresh(t, model));
    QuietRefreshGetsReady(env, sys, t, model);
    assert QuietRefresh(t, model)[5] == Commits(t, CommitCall(None, None));
  }

  // An open of a project with no inputs, in which nothing fails.
  function QuietOpen(root: Root): OpenCall {
    OpenCall(Some(Discovery.Discovery(root, true)), Some([]), None, None, map[])
  }

  lemma QuietOpenOpens<M>(env: Environment<M>, s: Service<M>, root: Root)
    ensures OpenSection(env, s, QuietOpen(root)).0.open == Some(OpenProject(Discovery.Discovery(root, true), []))
  {
  }

  // A refresh is asked for while `first` is open, and before it takes its generation `other` is opened.
  function OpenedBetween<M>(t: nat, first: Root, other: Root): seq<Event<M>> {
    [Opens(QuietOpen(first)), Captures(t), Opens(QuietOpen(other))]
  }

lemma OpenedBetweenLeaves<M>(env: Environment<M>, cache: map<Root, Cached<M>>, t: nat, first: Root, other: Root)
    returns (sys: System<M>)
    ensures GenerationsAgree(sys) && OpenRoot(sys.service) == Some(other)
    ensures t in sys.threads && sys.threads[t] == Idle(OpenProject(Discovery.Discovery(first, true), []))
    ensures forall later :: Run(env, Start(cache), OpenedBetween(t, first, other) + later) == Run(env, sys, later)
  {
    var es := OpenedBetween<M>(t, first, other);
    var s0 := Start(cache);
    var s1 := Step(env, s0, es[0]);
    var s2 := Step(env, s1, es[1]);
    sys := Step(env, s2, es[2]);
    QuietOpenOpens(env, s0.service, first);
    QuietOpenOpens(env, s2.service, other);
    StepKeepsGenerations(env, s0, es[0]);
    StepKeepsGenerations(env, s1, es[1]);
    StepKeepsGenerations(env, s2, es[2]);
    forall later ensures Run(env, s0, es + later) == Run(env, sys, later) { RunThreeSteps(env, s0, es, later); }
  }

  /**
   * From the start: open, ask for a refresh, open another root, refresh; the first root's model is Current under the
   * second.
   */
  lemma AnotherRootIsReached<M>(env: Environment<M>, cache: map<Root, Cached<M>>, t: nat, model: M, first: Root,
                                other: Root)
    requires first != other && env.modelHash(model).Some?
    ensures var after := Run(env, Start(cache), OpenedBetween(t, first, other) + QuietRefresh(t, model)).service;
            && after.state.freshness.Current? && after.state.model == Some(model) && OpenRoot(after) == Some(other)
            && after.watched.Some? && after.watched.value.root == first
  {
    var sys := OpenedBetweenLeaves(env, cache, t, first, other);
    ModelOfAnotherRoot(env, sys, t, model, other);
  }
}
