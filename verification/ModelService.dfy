/** The project model service: what each of its lock sections does to the shared state. */
module ModelServices {
  import opened Wrappers
  import opened Ordering
  import opened ModelCaches
  import opened ModelRefreshes

  type Root = Path

  datatype Support = FullSupport | DegradedSupport | NoSupport

  datatype Reason =
    | UnsupportedAgp(detected: string, supported: string)
    | MissingWrapper
    | ConfigurationFailed(message: string)
    | BridgeFailed(code: string, message: string)
    | CacheInvalid(message: string)

  datatype ServiceError =
    | Discovery
    | Cache(message: string)
    | FingerprintFailed(io: IoError)
    | Inputs
    | Watcher(message: string)
    | Bridge(reason: Reason)
    | NotOpen

  datatype ModelState<M> = ModelState(
    model: Option<M>, freshness: Freshness, support: Support, degradedReason: Option<Reason>, generation: nat)

  datatype Discovery = Discovery(root: Root, hasWrapper: bool)
  datatype OpenProject = OpenProject(discovery: Discovery, inputs: seq<Path>)
  datatype Cached<M> = Cached(model: M, fingerprint: ModelFingerprint)
  datatype Watched = Watched(root: Root, inputs: seq<Path>)

  /** The version of the bridge, the hash of a model, and the unsupported plugin version a model reports. */
  datatype Environment<!M> = Environment(
    host: Host, bridgeVersion: string, modelHash: M -> Option<Digest>, unsupportedAgp: M -> Option<string>)

  datatype Service<M> = Service(
    generation: nat, open: Option<OpenProject>, state: ModelState<M>, cache: map<Root, Cached<M>>,
    watched: Option<Watched>)

  function Fresh<M>(cache: map<Root, Cached<M>>): Service<M> {
    Service(0, None, ModelState(None, Provisional, FullSupport, None, 0), cache, None)
  }

  function Lookup<M>(cache: map<Root, Cached<M>>, root: Root): Option<Cached<M>> {
    if root in cache then Some(cache[root]) else None
  }

  function CachedFingerprint<M>(cached: Option<Cached<M>>): Option<ModelFingerprint> {
    if cached.Some? then Some(cached.value.fingerprint) else None
  }

  function CachedModel<M>(cached: Option<Cached<M>>): Option<M> {
    if cached.Some? then Some(cached.value.model) else None
  }

  // ---------------------------------------------------------------------------------------------
  // Open
  // ---------------------------------------------------------------------------------------------

  /** What the outside answers during one call of open. */
  datatype OpenCall = OpenCall(
    discovery: Option<Discovery>, inputs: Option<seq<Path>>, replaceError: Option<string>,
    loadError: Option<string>, disk: Disk)

  // Stamped by this program, for this model.
  predicate IsStamped<M>(env: Environment<M>, cached: Cached<M>) {
    && cached.fingerprint.schemaVersion == CACHE_SCHEMA_VERSION
    && cached.fingerprint.bridgeVersion == env.bridgeVersion
    && env.modelHash(cached.model) == Some(cached.fingerprint.modelHash)
  }

  function OpenedSupport<M>(env: Environment<M>, cached: Option<Cached<M>>,
                            hasWrapper: bool): (Support, Option<Reason>)
  {
    var detected := if cached.Some? then env.unsupportedAgp(cached.value.model) else None;
    if detected.Some? then (DegradedSupport, Some(UnsupportedAgp(detected.value, "8.x-9.x")))
    else if !hasWrapper then (DegradedSupport, Some(MissingWrapper))
    else (FullSupport, None)
  }

  function OpenedFreshness<M>(env: Environment<M>, cached: Option<Cached<M>>, now: ModelFingerprint): Freshness {
    if cached.None? then Provisional
    else if IsStamped(env, cached.value) && cached.value.fingerprint.inputs == now.inputs then Current
    else Stale
  }

  function OpenSection<M>(env: Environment<M>, s: Service<M>,
                          call: OpenCall): (Service<M>, Result<ModelState<M>, ServiceError>)
  {
    if call.discovery.None? then (s, Err(ServiceError.Discovery))
    else if call.inputs.None? then (s, Err(Inputs))
    else if call.replaceError.Some? then (s, Err(Watcher(call.replaceError.value)))
    else
      var discovery, inputs := call.discovery.value, call.inputs.value;
      var s1 := s.(watched := Some(Watched(discovery.root, inputs)));
      if call.loadError.Some? then (s1, Err(Cache(call.loadError.value)))
      else
        var cached := Lookup(s.cache, discovery.root);
        var now := Fingerprint(env.host, call.disk, inputs, CachedFingerprint(cached));
        if now.Err? then (s1, Err(FingerprintFailed(now.error)))
        else
          var (support, reason) := OpenedSupport(env, cached, discovery.hasWrapper);
          var state := ModelState(CachedModel(cached), OpenedFreshness(env, cached, now.value),
                                  support, reason, s.generation + 1);
          (s1.(generation := s.generation + 1, open := Some(OpenProject(discovery, inputs)), state := state), Ok(state))
  }

  // ---------------------------------------------------------------------------------------------
  // Refresh, section by section
  // ---------------------------------------------------------------------------------------------

  function BeginSection<M>(s: Service<M>): (Service<M>, nat) {
    var generation := s.generation + 1;
    (s.(generation := generation, state := s.state.(freshness := Refreshing, generation := generation)), generation)
  }

  /** A refresh that has everything it wants to publish. */
  datatype Job<M> = Job(root: Root, generation: nat, model: M, inputs: seq<Path>, fingerprint: ModelFingerprint)

  /** What the outside answers during one commit. */
  datatype CommitCall = CommitCall(replaceError: Option<string>, saveError: Option<string>)

  datatype CommitResult<M> =
    | Committed(state: ModelState<M>)
    | Superseded(state: ModelState<M>)
    | Rejected(reason: Reason, error: ServiceError)

  function CommitSection<M>(s: Service<M>, job: Job<M>, call: CommitCall): (Service<M>, CommitResult<M>) {
    if s.generation != job.generation then (s, Superseded(s.state))
    else if call.replaceError.Some? then
      (s, Rejected(ConfigurationFailed(call.replaceError.value), Watcher(call.replaceError.value)))
    else
      var s1 := s.(watched := Some(Watched(job.root, job.inputs)));
      if call.saveError.Some? then (s1, Rejected(CacheInvalid(call.saveError.value), Cache(call.saveError.value)))
      else
        var s2 := s1.(cache := s.cache[job.root := Cached(job.model, job.fingerprint)]);
        if s.state.generation != job.generation then (s2, Committed(s.state))
        else
          var state := ModelState(Some(job.model), Current, FullSupport, None, s.state.generation);
          var open := if s.open.Some? then Some(s.open.value.(inputs := job.inputs)) else None;
          (s2.(state := state, open := open), Committed(state))
  }

  function DegradeSection<M>(s: Service<M>, generation: nat, reason: Reason): Service<M> {
    if s.generation != generation then s
    else s.(state := s.state.(freshness := Degraded, support := DegradedSupport, degradedReason := Some(reason)))
  }

  function InvalidateSection<M>(s: Service<M>): Service<M> {
    s.(generation := s.generation + 1,
       state := s.state.(freshness := Settled(s.state.model), generation := s.generation + 1))
  }

  /** The service as an object; each method is one lock section, and the outside answers through its arguments. */
  class ProjectModelService<M(==)> {
    const env: Environment<M>
    var generation: nat
    var open: Option<OpenProject>
    var state: ModelState<M>
    var cache: map<Root, Cached<M>>
    var watched: Option<Watched>

    function State(): Service<M>
      reads this
    {
      Service(generation, open, state, cache, watched)
    }

    constructor (env: Environment<M>, cache: map<Root, Cached<M>>)
      ensures this.env == env && State() == Fresh(cache)
    {
      this.env, this.cache := env, cache;
      generation, open, watched := 0, None, None;
      state := ModelState(None, Provisional, FullSupport, None, 0);
    }

    method Open(call: OpenCall) returns (r: Result<ModelState<M>, ServiceError>)
      modifies this
      ensures (State(), r) == OpenSection(env, old(State()), call)
    {
      if call.discovery.None? {
        return Err(ServiceError.Discovery);
      }
      var discovery := call.discovery.value;
      if call.inputs.None? {
        return Err(Inputs);
      }
      if call.replaceError.Some? {
        return Err(Watcher(call.replaceError.value));
      }
      watched := Some(Watched(discovery.root, call.inputs.value));
      if call.loadError.Some? {
        return Err(Cache(call.loadError.value));
      }
      var cached := Lookup(cache, discovery.root);
      var current := ComputeFingerprint(env.host, call.disk, call.inputs.value, CachedFingerprint(cached));
      if current.Err? {
        return Err(FingerprintFailed(current.error));
      }
      var cacheIsCurrent := cached.Some? && IsStamped(env, cached.value)
                            && cached.value.fingerprint.inputs == current.value.inputs;
      generation := generation + 1;
      var (support, reason) := OpenedSupport(env, cached, discovery.hasWrapper);
      var freshness := if cacheIsCurrent then Current else if cached.Some? then Stale else Provisional;
      open := Some(OpenProject(discovery, call.inputs.value));
      state := ModelState(CachedModel(cached), freshness, support, reason, generation);
      r := Ok(state);
    }

    method Begin() returns (started: nat)
      modifies this
      ensures (State(), started) == BeginSection(old(State()))
    {
      generation := generation + 1;
      state := state.(freshness := Refreshing, generation := generation);
      started := generation;
    }

    method Commit(job: Job<M>, call: CommitCall) returns (r: CommitResult<M>)
      modifies this
      ensures (State(), r) == CommitSection(old(State()), job, call)
    {
      if generation != job.generation {
        return Superseded(state);
      }
      if call.replaceError.Some? {
        return Rejected(ConfigurationFailed(call.replaceError.value), Watcher(call.replaceError.value));
      }
      watched := Some(Watched(job.root, job.inputs));
      if call.saveError.Some? {
        return Rejected(CacheInvalid(call.saveError.value), Cache(call.saveError.value));
      }
      cache := cache[job.root := Cached(job.model, job.fingerprint)];
      if state.generation == job.generation {
        state := state.(model := Some(job.model), freshness := Current, support := FullSupport, degradedReason := None);
        if open.Some? {
          open := Some(open.value.(inputs := job.inputs));
        }
      }
      r := Committed(state);
    }

    method Degrade(failed: nat, reason: Reason)
      modifies this`state
      ensures State() == DegradeSection(old(State()), failed, reason)
    {
      if generation == failed {
        state := state.(freshness := Degraded, support := DegradedSupport, degradedReason := Some(reason));
      }
    }

    method Invalidate()
      modifies this`generation, this`state
      ensures State() == InvalidateSection(old(State()))
    {
      generation := generation + 1;
      state := state.(freshness := if state.model.Some? then Stale else Provisional, generation := generation);
    }
  }
}
