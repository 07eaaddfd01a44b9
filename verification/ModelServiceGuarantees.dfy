/** What holds in every reachable state of the project model service. */
module ModelServiceGuarantees {
  import opened Wrappers
  import opened ModelServices
  import opened ModelServiceRuns

  /**
   * What happened: the saved generations, where the state's model came from, who left early, what was open at each
   * begin.
   */
  datatype Ledger = Ledger(
    saves: seq<nat>, modelRoot: Option<Root>, abandoned: set<nat>, openAtBegin: map<nat, Option<Root>>)

  const NOTHING_YET: Ledger := Ledger([], None, {}, map[])

  function OpenRoot<M>(s: Service<M>): Option<Root> {
    if s.open.Some? then Some(s.open.value.discovery.root) else None
  }

  // After the bridge has answered, the inputs cannot be listed or the model cannot be hashed.
  predicate LeavesEarly<M>(env: Environment<M>, sys: System<M>, e: Event<M>) {
    && e.Works? && IsActive(sys, e.thread) && sys.threads[e.thread].stage.Bridged? && e.answer.InputsFound?
    && (e.answer.inputs.None? || env.modelHash(sys.threads[e.thread].stage.model).None?)
  }

  lemma WorkEndsByLeavingEarly<M>(env: Environment<M>, sys: System<M>, e: Event<M>)
    requires e.Works? && IsActive(sys, e.thread)
    ensures Work(env, sys.service, sys.threads[e.thread], e.answer).Ended? <==> LeavesEarly(env, sys, e)
  {
  }

  predicate Saves<M>(sys: System<M>, e: Event<M>) {
    && e.Commits? && CanCommit(sys, e.thread)
    && CommitSection(sys.service, JobOf(sys.threads[e.thread]), e.commit).1.Committed?
  }

  predicate Reopens<M>(env: Environment<M>, sys: System<M>, e: Event<M>) {
    e.Opens? && OpenSection(env, sys.service, e.open).1.Ok?
  }

  function Note<M>(env: Environment<M>, sys: System<M>, ledger: Ledger, e: Event<M>): Ledger {
    if Reopens(env, sys, e) then ledger.(modelRoot := Some(e.open.discovery.value.root))
    else if e.Begins? && e.thread in sys.threads && sys.threads[e.thread].Idle? then
      ledger.(openAtBegin := ledger.openAtBegin[sys.service.generation + 1 := OpenRoot(sys.service)])
    else if LeavesEarly(env, sys, e) then ledger.(abandoned := ledger.abandoned + {sys.threads[e.thread].generation})
    else if Saves(sys, e) then
      ledger.(saves := ledger.saves + [sys.threads[e.thread].generation], modelRoot := Some(sys.threads[e.thread].root))
    else ledger
  }

  // Some refresh in flight has the generation `g`.
  ghost predicate InFlight<M>(sys: System<M>, g: nat) {
    exists t :: IsActive(sys, t) && sys.threads[t].generation == g
  }

  // ---------------------------------------------------------------------------------------------
  // Refreshing
  // ---------------------------------------------------------------------------------------------

  ghost predicate AbandonedAreGone<M>(sys: System<M>, ledger: Ledger) {
    forall g :: g in ledger.abandoned ==> g <= sys.service.generation && !InFlight(sys, g)
  }

  // The state is Refreshing exactly while the newest refresh runs, or after it left early.
  ghost predicate RefreshingIsExact<M>(sys: System<M>, ledger: Ledger) {
    sys.service.state.freshness.Refreshing? <==>
      InFlight(sys, sys.service.generation) || sys.service.generation in ledger.abandoned
  }

  // Where a refresh takes its generation.
  predicate Starts<M>(sys: System<M>, e: Event<M>) {
    e.Begins? && e.thread in sys.threads && sys.threads[e.thread].Idle?
  }

  // A refresh in flight takes its last step.
  predicate Ends<M>(env: Environment<M>, sys: System<M>, e: Event<M>) {
    (e.Works? || e.Commits? || e.Degrades?) && IsActive(sys, e.thread) && !IsActive(Step(env, sys, e), e.thread)
  }

  lemma ThreadAfter<M>(env: Environment<M>, sys: System<M>, e: Event<M>, t: nat)
    ensures IsActive(Step(env, sys, e), t) <==>
              (Starts(sys, e) && e.thread == t) || (IsActive(sys, t) && !(Ends(env, sys, e) && e.thread == t))
    ensures IsActive(Step(env, sys, e), t) && !(Starts(sys, e) && e.thread == t) ==>
              Step(env, sys, e).threads[t].generation == sys.threads[t].generation
    ensures Starts(sys, e) && e.thread == t ==> Step(env, sys, e).threads[t].generation == sys.service.generation + 1
  {
  }

  lemma InFlightAfter<M>(env: Environment<M>, sys: System<M>, e: Event<M>, g: nat)
    requires GenerationsAgree(sys)
    ensures InFlight(Step(env, sys, e), g) <==>
              || (Starts(sys, e) && g == sys.service.generation + 1)
              || (InFlight(sys, g) && !(Ends(env, sys, e) && sys.threads[e.thread].generation == g))
  {
    var after := Step(env, sys, e);
    if InFlight(sys, g) {
      var t :| IsActive(sys, t) && sys.threads[t].generation == g;
      ThreadAfter(env, sys, e, t);
    }
    if Starts(sys, e) { ThreadAfter(env, sys, e, e.thread); }
    if InFlight(after, g) {
      var t :| IsActive(after, t) && after.threads[t].generation == g;
      ThreadAfter(env, sys, e, t);
    }
  }

  lemma StepKeepsAbandonedGone<M>(env: Environment<M>, sys: System<M>, ledger: Ledger, e: Event<M>)
    requires GenerationsAgree(sys) && AbandonedAreGone(sys, ledger)
    ensures AbandonedAreGone(Step(env, sys, e), Note(env, sys, ledger, e))
  {
    var after, noted := Step(env, sys, e), Note(env, sys, ledger, e);
    StepKeepsGenerations(env, sys, e);
    forall g | g in noted.abandoned ensures g <= after.service.generation && !InFlight(after, g) {
      InFlightAfter(env, sys, e, g);
    }
  }

  // The refresh in flight with the newest generation is the one that takes the step.
  predicate IsNewest<M>(sys: System<M>, t: nat) {
    IsActive(sys, t) && sys.threads[t].generation == sys.service.generation
  }

  lemma NewestStepsKeepRefreshingExact<M>(env: Environment<M>, sys: System<M>, ledger: Ledger, e: Event<M>)
    requires GenerationsAgree(sys) && AbandonedAreGone(sys, ledger) && RefreshingIsExact(sys, ledger)
    requires (e.Works? || e.Commits? || e.Degrades?) && IsNewest(sys, e.thread)
    ensures RefreshingIsExact(Step(env, sys, e), Note(env, sys, ledger, e))
  {
    var g := sys.service.generation;
    assert InFlight(sys, g);
    if e.Works? { WorkEndsByLeavingEarly(env, sys, e); }
    InFlightAfter(env, sys, e, g);
  }

  lemma OtherStepsKeepRefreshingExact<M>(env: Environment<M>, sys: System<M>, ledger: Ledger, e: Event<M>)
    requires GenerationsAgree(sys) && AbandonedAreGone(sys, ledger) && RefreshingIsExact(sys, ledger)
    requires (e.Works? || e.Commits? || e.Degrades?) ==> !IsNewest(sys, e.thread)
    ensures RefreshingIsExact(Step(env, sys, e), Note(env, sys, ledger, e))
  {
    var after := Step(env, sys, e);
    InFlightAfter(env, sys, e, after.service.generation);
    assert !InFlight(sys, sys.service.generation + 1);
  }

  lemma StepKeepsRefreshingExact<M>(env: Environment<M>, sys: System<M>, ledger: Ledger, e: Event<M>)
    requires GenerationsAgree(sys) && AbandonedAreGone(sys, ledger) && RefreshingIsExact(sys, ledger)
    ensures RefreshingIsExact(Step(env, sys, e), Note(env, sys, ledger, e))
  {
    if (e.Works? || e.Commits? || e.Degrades?) && IsNewest(sys, e.thread) {
      NewestStepsKeepRefreshingExact(env, sys, ledger, e);
    } else {
      OtherStepsKeepRefreshingExact(env, sys, ledger, e);
    }
  }

  // ---------------------------------------------------------------------------------------------
  // Current means cached
  // ---------------------------------------------------------------------------------------------

  predicate StageIsStamped<M>(env: Environment<M>, stage: Stage<M>) {
    match stage
    case Hashed(model, _, hash) => env.modelHash(model) == Some(hash)
    case Loaded(model, _, hash, _) => env.modelHash(model) == Some(hash)
    case Ready(model, _, fingerprint) => IsStamped(env, Cached(model, fingerprint))
    case _ => true
  }

  ghost predicate StagesAreStamped<M>(env: Environment<M>, sys: System<M>) {
    forall t :: IsActive(sys, t) ==> StageIsStamped(env, sys.threads[t].stage)
  }

  // A Current state shows the model that is cached for the root it came from, with its hash and this bridge's version.
  predicate CurrentIsCached<M(==)>(env: Environment<M>, s: Service<M>, root: Option<Root>) {
    s.state.freshness.Current? ==>
      && root.Some? && root.value in s.cache
      && s.state.model == Some(s.cache[root.value].model)
      && IsStamped(env, s.cache[root.value])
  }

  lemma StepKeepsStamps<M>(env: Environment<M>, sys: System<M>, e: Event<M>)
    requires StagesAreStamped(env, sys)
    ensures StagesAreStamped(env, Step(env, sys, e))
  {
    var after := Step(env, sys, e);
    forall t | IsActive(after, t) ensures StageIsStamped(env, after.threads[t].stage) {
      if IsActive(sys, t) { assert StageIsStamped(env, sys.threads[t].stage); }
    }
  }

  lemma StepKeepsCurrentCached<M>(env: Environment<M>, sys: System<M>, ledger: Ledger, e: Event<M>)
    requires GenerationsAgree(sys) && StagesAreStamped(env, sys) && CurrentIsCached(env, sys.service, ledger.modelRoot)
    ensures CurrentIsCached(env, Step(env, sys, e).service, Note(env, sys, ledger, e).modelRoot)
  {
    if e.Commits? && CanCommit(sys, e.thread) {
      assert StageIsStamped(env, sys.threads[e.thread].stage);
    }
  }

  // ---------------------------------------------------------------------------------------------
  // Saves, and the root that is open
  // ---------------------------------------------------------------------------------------------

  // A generation that was taken, by a refresh that is no longer in flight or by none.
  ghost predicate IsPast<M>(sys: System<M>, g: nat) {
    g <= sys.service.generation && !InFlight(sys, g)
  }

  // The saved generations strictly increase, and no refresh in flight has saved.
  ghost predicate SavesIncrease<M>(sys: System<M>, saves: seq<nat>) {
    && (forall i, j :: 0 <= i < j < |saves| ==> saves[i] < saves[j])
    && (forall i :: 0 <= i < |saves| ==> IsPast(sys, saves[i]))
  }

  lemma PastStaysPast<M>(env: Environment<M>, sys: System<M>, e: Event<M>, g: nat)
    requires GenerationsAgree(sys) && IsPast(sys, g)
    ensures IsPast(Step(env, sys, e), g)
  {
    StepKeepsGenerations(env, sys, e);
    InFlightAfter(env, sys, e, g);
  }

  lemma SaveIsPast<M>(env: Environment<M>, sys: System<M>, e: Event<M>)
    requires GenerationsAgree(sys) && Saves(sys, e)
    ensures sys.threads[e.thread].generation == sys.service.generation
    ensures IsPast(Step(env, sys, e), sys.service.generation)
  {
    StepKeepsGenerations(env, sys, e);
    InFlightAfter(env, sys, e, sys.service.generation);
  }

  lemma StepKeepsSavesIncreasing<M>(env: Environment<M>, sys: System<M>, ledger: Ledger, e: Event<M>)
    requires GenerationsAgree(sys) && SavesIncrease(sys, ledger.saves)
    ensures SavesIncrease(Step(env, sys, e), Note(env, sys, ledger, e).saves)
  {
    var saves, noted := ledger.saves, Note(env, sys, ledger, e).saves;
    forall i | 0 <= i < |saves| ensures IsPast(Step(env, sys, e), saves[i]) { PastStaysPast(env, sys, e, saves[i]); }
    if Saves(sys, e) {
      SaveIsPast(env, sys, e);
      assert noted == saves + [sys.service.generation];
      assert InFlight(sys, sys.service.generation);
    } else {
      assert noted == saves;
    }
  }

  // While the newest refresh runs, the root that was open when it began is still the one that is open.
  ghost predicate BeginsUnderOpenRoot<M>(sys: System<M>, ledger: Ledger) {
    forall t :: IsActive(sys, t) && sys.threads[t].generation == sys.service.generation ==>
      sys.service.generation in ledger.openAtBegin &&
      ledger.openAtBegin[sys.service.generation] == OpenRoot(sys.service)
  }

  lemma StepKeepsOpenRoot<M>(env: Environment<M>, sys: System<M>, ledger: Ledger, e: Event<M>)
    requires GenerationsAgree(sys) && BeginsUnderOpenRoot(sys, ledger)
    ensures BeginsUnderOpenRoot(Step(env, sys, e), Note(env, sys, ledger, e))
  {
    var after := Step(env, sys, e);
    StepKeepsGenerations(env, sys, e);
    forall t | IsActive(after, t)
      ensures || (IsActive(sys, t) && after.threads[t].generation == sys.threads[t].generation)
              || (e == Begins(t) && after.threads[t].generation == sys.service.generation + 1)
    {
      GenerationIsKept(env, sys, e, t);
    }
    OpenRootFollowsTheCounter(env, sys, ledger, e);
  }

  // Without a new generation the open root stays, and so does what was open at the begins.
  lemma OpenRootFollowsTheCounter<M>(env: Environment<M>, sys: System<M>, ledger: Ledger, e: Event<M>)
    ensures var after, noted := Step(env, sys, e), Note(env, sys, ledger, e);
            && (after.service.generation == sys.service.generation ==>
                  OpenRoot(after.service) == OpenRoot(sys.service) && noted.openAtBegin == ledger.openAtBegin)
            && (e.Begins? ==> OpenRoot(after.service) == OpenRoot(sys.service))
  {
  }

  // ---------------------------------------------------------------------------------------------
  // Every reachable state
  // ---------------------------------------------------------------------------------------------

  ghost predicate Sound<M>(env: Environment<M>, sys: System<M>, ledger: Ledger) {
    && GenerationsAgree(sys) && AbandonedAreGone(sys, ledger) && RefreshingIsExact(sys, ledger)
    && StagesAreStamped(env, sys) && CurrentIsCached(env, sys.service, ledger.modelRoot)
    && SavesIncrease(sys, ledger.saves) && BeginsUnderOpenRoot(sys, ledger)
  }

  lemma StepKeepsSound<M>(env: Environment<M>, sys: System<M>, ledger: Ledger, e: Event<M>)
    requires Sound(env, sys, ledger)
    ensures Sound(env, Step(env, sys, e), Note(env, sys, ledger, e))
  {
    StepKeepsGenerations(env, sys, e);
    StepKeepsAbandonedGone(env, sys, ledger, e);
    StepKeepsRefreshingExact(env, sys, ledger, e);
    StepKeepsStamps(env, sys, e);
    StepKeepsCurrentCached(env, sys, ledger, e);
    StepKeepsSavesIncreasing(env, sys, ledger, e);
    StepKeepsOpenRoot(env, sys, ledger, e);
  }

  function RunLedger<M>(env: Environment<M>, sys: System<M>, ledger: Ledger, es: seq<Event<M>>): Ledger
    decreases |es|
  {
    if es == [] then ledger else RunLedger(env, Step(env, sys, es[0]), Note(env, sys, ledger, es[0]), es[1..])
  }

  /** Over every interleaving of opens, refreshes, failures and invalidations. */
  lemma {:induction false} RunsAreSound<M>(env: Environment<M>, sys: System<M>, ledger: Ledger, es: seq<Event<M>>)
    requires Sound(env, sys, ledger)
    ensures Sound(env, Run(env, sys, es), RunLedger(env, sys, ledger, es))
    decreases |es|
  {
    if es != [] {
      StepKeepsSound(env, sys, ledger, es[0]);
      RunsAreSound(env, Step(env, sys, es[0]), Note(env, sys, ledger, es[0]), es[1..]);
    }
  }

  lemma StartIsSound<M>(env: Environment<M>, cache: map<Root, Cached<M>>)
    ensures Sound(env, Start(cache), NOTHING_YET)
  {
    assert forall g :: !InFlight(Start(cache), g);
  }

  /** A commit shows a model of the open root exactly when that root was the open one as the refresh began. */
  lemma CommitShowsOpenRootExactly<M>(env: Environment<M>, sys: System<M>, ledger: Ledger, e: Event<M>)
    requires Sound(env, sys, ledger) && Saves(sys, e)
    ensures var after, noted := Step(env, sys, e), Note(env, sys, ledger, e);
            var captured, g := sys.threads[e.thread].root, sys.threads[e.thread].generation;
            && after.service.state.freshness.Current? && noted.modelRoot == Some(captured)
            && g in ledger.openAtBegin
            && (noted.modelRoot == OpenRoot(after.service) <==> ledger.openAtBegin[g] == Some(captured))
  {
  }
}
