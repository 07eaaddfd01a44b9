/** Opening a project again after a refresh was saved. */
module ModelReopening {
  import opened Wrappers
  import opened Ordering
  import opened ModelCaches
  import opened ModelServices
  import opened ModelServiceRuns
  import opened ModelServiceGuarantees

  // ---------------------------------------------------------------------------------------------
  // Honest fingerprints
  // ---------------------------------------------------------------------------------------------

  predicate FingerprintIsTrue(host: Host, contents: Contents, fingerprint: Option<ModelFingerprint>) {
    Honest(host, contents, PreviousInputs(fingerprint))
  }

  predicate StageIsTrue<M>(host: Host, contents: Contents, stage: Stage<M>) {
    match stage
    case Loaded(_, _, _, previous) => FingerprintIsTrue(host, contents, previous)
    case Ready(_, _, fingerprint) => FingerprintIsTrue(host, contents, Some(fingerprint))
    case _ => true
  }

  // Every fingerprint in the cache or on its way there records the hashes of what the files contained.
  ghost predicate FingerprintsAreTrue<M>(host: Host, contents: Contents, sys: System<M>) {
    && (forall root :: root in sys.service.cache ==>
          FingerprintIsTrue(host, contents, Some(sys.service.cache[root].fingerprint)))
    && (forall t :: IsActive(sys, t) ==> StageIsTrue(host, contents, sys.threads[t].stage))
  }

  ghost predicate ReadsDetermined<M>(contents: Contents, e: Event<M>) {
    e.Works? && e.answer.FilesRead? ==> Determined(contents, e.answer.disk)
  }

  lemma WorkKeepsTrue<M>(env: Environment<M>, contents: Contents, sys: System<M>, t: nat, answer: Answer<M>)
    requires FingerprintsAreTrue(env.host, contents, sys) && IsActive(sys, t)
    requires answer.FilesRead? ==> Determined(contents, answer.disk)
    ensures var thread := Work(env, sys.service, sys.threads[t], answer);
            thread.Active? ==> StageIsTrue(env.host, contents, thread.stage)
  {
    var thread := sys.threads[t];
    assert StageIsTrue(env.host, contents, thread.stage);
    if thread.stage.Loaded? && answer.FilesRead? {
      var previous := thread.stage.previous;
      if Fingerprint(env.host, answer.disk, thread.stage.inputs, previous).Ok? {
        FingerprintIsHonest(env.host, contents, answer.disk, thread.stage.inputs, previous);
      }
    }
  }

  lemma StepKeepsTrue<M>(env: Environment<M>, contents: Contents, sys: System<M>, e: Event<M>)
    requires FingerprintsAreTrue(env.host, contents, sys) && ReadsDetermined(contents, e)
    ensures FingerprintsAreTrue(env.host, contents, Step(env, sys, e))
  {
    var after := Step(env, sys, e);
    if e.Works? && IsActive(sys, e.thread) {
      WorkKeepsTrue(env, contents, sys, e.thread, e.answer);
    }
    if e.Commits? && CanCommit(sys, e.thread) {
      assert StageIsTrue(env.host, contents, sys.threads[e.thread].stage);
    }
  }

  ghost predicate AllReadsDetermined<M>(contents: Contents, es: seq<Event<M>>) {
    forall i :: 0 <= i < |es| ==> ReadsDetermined(contents, es[i])
  }

  /** Over every run, every recorded hash stays the hash of the content it stands for. */
  lemma {:induction false} RunsKeepTrue<M>(env: Environment<M>, contents: Contents, sys: System<M>, es: seq<Event<M>>)
    requires FingerprintsAreTrue(env.host, contents, sys) && AllReadsDetermined(contents, es)
    ensures FingerprintsAreTrue(env.host, contents, Run(env, sys, es))
    decreases |es|
  {
    if es != [] {
      StepKeepsTrue(env, contents, sys, es[0]);
      RunsKeepTrue(env, contents, Step(env, sys, es[0]), es[1..]);
    }
  }

  // ---------------------------------------------------------------------------------------------
  // Reopening what was committed
  // ---------------------------------------------------------------------------------------------

  /** An open that gets through reports Current exactly when the cache is stamped and its inputs are today's. */
  lemma OpenIsCurrentExactly<M>(env: Environment<M>, contents: Contents, s: Service<M>, call: OpenCall)
    requires OpenSection(env, s, call).1.Ok? && Determined(contents, call.disk)
    requires Honest(env.host, contents, PreviousInputs(CachedFingerprint(Lookup(s.cache, call.discovery.value.root))))
    requires Fingerprint(env.host, call.disk, call.inputs.value, None).Ok?
    ensures var root, scratch := call.discovery.value.root,
                                 Fingerprint(env.host, call.disk, call.inputs.value, None).value;
            OpenSection(env, s, call).1.value.freshness.Current? <==>
              root in s.cache && IsStamped(env, s.cache[root]) && s.cache[root].fingerprint.inputs == scratch.inputs
  {
    var previous := CachedFingerprint(Lookup(s.cache, call.discovery.value.root));
    InputsAreFromScratch(env.host, contents, call.disk, PreviousInputs(previous), call.inputs.value);
  }

  // The same paths, each with the size, time and content it had.
  ghost predicate Unchanged(paths: seq<Path>, before: Disk, now: Disk) {
    forall i :: 0 <= i < |paths| ==> paths[i] in before && paths[i] in now && before[paths[i]] == now[paths[i]]
  }

  lemma {:induction false} UnchangedInputs(host: Host, paths: seq<Path>, before: Disk, now: Disk)
    requires Unchanged(paths, before, now)
    ensures InputsOf(host, before, [], paths) == InputsOf(host, now, [], paths)
  {
    if paths != [] {
      var front := paths[..|paths| - 1];
      assert forall i :: 0 <= i < |front| ==> front[i] == paths[i];
      UnchangedInputs(host, front, before, now);
    }
  }

  // ---------------------------------------------------------------------------------------------
  // A refresh that is read, saved and opened again, with anything in between
  // ---------------------------------------------------------------------------------------------

  lemma {:induction false} ReadyStays<M>(env: Environment<M>, sys: System<M>, es: seq<Event<M>>, t: nat)
    requires CanCommit(sys, t) && CanCommit(Run(env, sys, es), t)
    ensures Run(env, sys, es).threads[t] == sys.threads[t]
    decreases |es|
  {
    if es != [] {
      var after := Step(env, sys, es[0]);
      if CanCommit(after, t) {
        ReadyStays(env, after, es[1..], t);
      } else {
        NeverReadyAgain(env, after, es[1..], t);
      }
    }
  }

  // A refresh that has ended or failed.
  predicate IsOver<M>(sys: System<M>, t: nat) {
    t in sys.threads && (sys.threads[t].Ended? || (sys.threads[t].Active? && sys.threads[t].stage.Failing?))
  }

  lemma {:induction false} NeverReadyAgain<M>(env: Environment<M>, sys: System<M>, es: seq<Event<M>>, t: nat)
    requires IsOver(sys, t)
    ensures IsOver(Run(env, sys, es), t)
    decreases |es|
  {
    if es != [] { NeverReadyAgain(env, Step(env, sys, es[0]), es[1..], t); }
  }

  lemma CachedIsReopened<M>(env: Environment<M>, contents: Contents, s: Service<M>, cached: Cached<M>,
                            inputs: seq<Path>,
                            earlier: Option<ModelFingerprint>, before: Disk, open: OpenCall)
    requires Determined(contents, before) && Determined(contents, open.disk)
    requires FingerprintIsTrue(env.host, contents, earlier)
    requires IsStamped(env, cached)
    requires FingerprintForModel(env.host, before, inputs, earlier, env.bridgeVersion, cached.fingerprint.modelHash)
             == Ok(cached.fingerprint)
    requires Fingerprint(env.host, before, inputs, None).Ok?
    requires open.discovery.Some? && Lookup(s.cache, open.discovery.value.root) == Some(cached)
    requires open.inputs == Some(inputs) && Unchanged(inputs, before, open.disk)
    requires open.replaceError.None? && open.loadError.None?
    ensures var r := OpenSection(env, s, open).1;
            r.Ok? && r.value.freshness.Current? && r.value.model == Some(cached.model)
  {
    var f := cached.fingerprint;
    FingerprintIsHonest(env.host, contents, before, inputs, earlier);
    InputsAreFromScratch(env.host, contents, before, PreviousInputs(earlier), inputs);
    UnchangedInputs(env.host, inputs, before, open.disk);
    InputsAreFromScratch(env.host, contents, open.disk, f.inputs, inputs);
    assert PreviousInputs(Some(f)) == f.inputs;
  }

  lemma FilesAreRead<M>(env: Environment<M>, contents: Contents, sys: System<M>, t: nat, disk: Disk)
    returns (cached: Cached<M>)
    requires GenerationsAgree(sys) && StagesAreStamped(env, sys) && FingerprintsAreTrue(env.host, contents, sys)
    requires IsActive(sys, t) && sys.threads[t].stage.Loaded? && Determined(contents, disk)
    requires Fingerprint(env.host, disk, sys.threads[t].stage.inputs, None).Ok?
    ensures var read, stage := Step(env, sys, Works(t, FilesRead(disk))), sys.threads[t].stage;
            && GenerationsAgree(read) && CanCommit(read, t) && cached.model == stage.model && IsStamped(env, cached)
            && read.threads[t] == sys.threads[t].(stage := Ready(cached.model, stage.inputs, cached.fingerprint))
            && FingerprintForModel(env.host, disk, stage.inputs, stage.previous, env.bridgeVersion, stage.hash)
               == Ok(cached.fingerprint)
            && cached.fingerprint.modelHash == stage.hash
  {
    var stage := sys.threads[t].stage;
    assert StageIsStamped(env, stage) && StageIsTrue(env.host, contents, stage);
    InputsAreFromScratch(env.host, contents, disk, PreviousInputs(stage.previous), stage.inputs);
    StepKeepsGenerations(env, sys, Works(t, FilesRead(disk)));
    cached := Cached(stage.model, Step(env, sys, Works(t, FilesRead(disk))).threads[t].stage.fingerprint);
  }

  lemma SaveIsCached<M>(env: Environment<M>, ready: System<M>, t: nat, commit: CommitCall, root: Root,
                        cached: Cached<M>, inputs: seq<Path>)
    requires Saves(ready, Commits(t, commit))
    requires ready.threads[t].root == root && ready.threads[t].stage == Ready(cached.model, inputs, cached.fingerprint)
    ensures Lookup(Step(env, ready, Commits(t, commit)).service.cache, root) == Some(cached)
  {
  }

  /**
   * A refresh reads the files and is saved; its root is opened with those files: the open is Current, with that model.
   */
  lemma RefreshThenOpenIsCurrent<M>(
    env: Environment<M>, contents: Contents, sys: System<M>, t: nat, disk: Disk,
    between: seq<Event<M>>, commit: CommitCall, later: seq<Event<M>>, open: OpenCall)
    requires GenerationsAgree(sys) && StagesAreStamped(env, sys) && FingerprintsAreTrue(env.host, contents, sys)
    requires IsActive(sys, t) && sys.threads[t].stage.Loaded?
    requires Determined(contents, disk) && Determined(contents, open.disk)
    requires var inputs := sys.threads[t].stage.inputs;
             && Fingerprint(env.host, disk, inputs, None).Ok?
             && open.inputs == Some(inputs) && Unchanged(inputs, disk, open.disk)
    requires open.discovery.Some? && open.discovery.value.root == sys.threads[t].root
    requires open.replaceError.None? && open.loadError.None?
    requires Saves(Run(env, Step(env, sys, Works(t, FilesRead(disk))), between), Commits(t, commit))
    requires var ready := Run(env, Step(env, sys, Works(t, FilesRead(disk))), between);
             var saved := Step(env, ready, Commits(t, commit));
             Lookup(Run(env, saved, later).service.cache, sys.threads[t].root)
               == Lookup(saved.service.cache, sys.threads[t].root)
    ensures var ready := Run(env, Step(env, sys, Works(t, FilesRead(disk))), between);
            var saved := Step(env, ready, Commits(t, commit));
            var r := OpenSection(env, Run(env, saved, later).service, open).1;
            r.Ok? && r.value.freshness.Current? && r.value.model == Some(sys.threads[t].stage.model)
  {
    var thread := sys.threads[t];
    var stage := thread.stage;
    var read := Step(env, sys, Works(t, FilesRead(disk)));
    var ready := Run(env, read, between);
    assert StageIsTrue(env.host, contents, stage);
    var cached := FilesAreRead(env, contents, sys, t, disk);
    ReadyStays(env, read, between, t);
    RunsKeepGenerations(env, read, between);
    SaveIsCached(env, ready, t, commit, thread.root, cached, stage.inputs);
    CachedIsReopened(env, contents, Run(env, Step(env, ready, Commits(t, commit)), later).service, cached, stage.inputs,
                     stage.previous, disk, open);
  }
}
