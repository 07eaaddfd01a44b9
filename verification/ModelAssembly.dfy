/** Assembly of a project model from the records of a bridge stream. */
module ModelAssembly {
  import opened Wrappers
  import opened Ordering
  import opened Sorting
  import opened BridgeProtocol

  datatype Kind = DimensionKind | FlavorKind | BuildTypeKind | VariantKind

  datatype ComponentKey = ComponentKey(owner: string, kind: Kind, name: string)

  datatype AssemblyError =
    | Protocol(protocol: ProtocolError)
    | Bridge(code: string, message: string)
    | BuildNotFirst
    | DuplicateBuild
    | DuplicateIncludedBuild(id: string)
    | DuplicateModule(path: string)
    | UnknownModule(owner: string)
    | DuplicateComponent(key: ComponentKey)
    | DuplicateTask(task: string)
    | MissingBuild
    | ModelHashMismatch(wanted: string, actual: string)

  /** `hashed` is the text whose hash the stream has so far. */
  datatype Assembly = Assembly(
    validation: Validation, hashed: string, build: Option<BuildInfo>, includedBuilds: map<string, IncludedBuild>,
    modules: map<string, AndroidModule>, tasks: map<string, GradleTask>, diagnostics: seq<Diagnostic>,
    componentKeys: set<ComponentKey>)

  const EMPTY: Assembly := Assembly(UNSTARTED, "", None, map[], map[], map[], [], {})

  // ---------------------------------------------------------------------------------------------
  // One record
  // ---------------------------------------------------------------------------------------------

  function KeysOf<T>(owner: string, kind: Kind, items: seq<T>, name: T -> string): seq<ComponentKey> {
    seq(|items|, i requires 0 <= i < |items| => ComponentKey(owner, kind, name(items[i])))
  }

  function DimensionName(d: FlavorDimension): string { d.name }
  function FlavorName(f: ProductFlavor): string { f.name }
  function BuildTypeName(b: BuildType): string { b.name }
  function VariantName(v: Variant): string { v.name }

  // The components a module record brings with it, in the order they are claimed.
  function EmbeddedKeys(m: AndroidModule): seq<ComponentKey> {
    KeysOf(m.path, DimensionKind, m.flavorDimensions, DimensionName)
    + KeysOf(m.path, FlavorKind, m.productFlavors, FlavorName)
    + KeysOf(m.path, BuildTypeKind, m.buildTypes, BuildTypeName)
    + KeysOf(m.path, VariantKind, m.variants, VariantName)
  }

  // Claims keys up to the first that is taken.
  function Claim(keys: set<ComponentKey>, wanted: seq<ComponentKey>): (set<ComponentKey>, Option<ComponentKey>)
    decreases |wanted|
  {
    if wanted == [] then (keys, None)
    else if wanted[0] in keys then (keys, Some(wanted[0]))
    else Claim(keys + {wanted[0]}, wanted[1..])
  }

  function AcceptModule(s: Assembly, m: AndroidModule): (Assembly, Option<AssemblyError>) {
    if s.build.None? then (s, Some(BuildNotFirst))
    else if m.path in s.modules then (s, Some(DuplicateModule(m.path)))
    else
      var (keys, taken) := Claim(s.componentKeys, EmbeddedKeys(m));
      var claimed := s.(componentKeys := keys);
      if taken.Some? then (claimed, Some(DuplicateComponent(taken.value)))
      else (claimed.(modules := s.modules[m.path := m]), None)
  }

  // Claims one component of a module that must be known, and adds it with `add`.
  function AcceptComponent(s: Assembly, key: ComponentKey,
                           add: AndroidModule -> AndroidModule): (Assembly, Option<AssemblyError>)
  {
    if key.owner !in s.modules then (s, Some(UnknownModule(key.owner)))
    else if key in s.componentKeys then (s, Some(DuplicateComponent(key)))
    else (s.(componentKeys := s.componentKeys + {key},
             modules := s.modules[key.owner := add(s.modules[key.owner])]), None)
  }

  function AddDimension(d: FlavorDimension): AndroidModule -> AndroidModule {
    (m: AndroidModule) => m.(flavorDimensions := m.flavorDimensions + [d])
  }

  function AddFlavor(f: ProductFlavor): AndroidModule -> AndroidModule {
    (m: AndroidModule) => m.(productFlavors := m.productFlavors + [f])
  }

  function AddVariant(v: Variant): AndroidModule -> AndroidModule {
    (m: AndroidModule) => m.(variants := m.variants + [v])
  }

  function AcceptPayload(s: Assembly, payload: BridgePayload): (Assembly, Option<AssemblyError>) {
    match payload
    case BuildRecord(build) =>
      if s.build.Some? then (s, Some(DuplicateBuild))
      else if s.modules != map[] || s.tasks != map[] || s.includedBuilds != map[] then (s, Some(BuildNotFirst))
      else (s.(build := Some(build)), None)
    case IncludedBuildRecord(included) =>
      if s.build.None? then (s, Some(BuildNotFirst))
      else
        var replaced := s.(includedBuilds := s.includedBuilds[included.id := included]);
        (replaced, if included.id in s.includedBuilds then Some(DuplicateIncludedBuild(included.id)) else None)
    case ModuleRecord(m) => AcceptModule(s, m)
    case DimensionRecord(owner, d) => AcceptComponent(s, ComponentKey(owner, DimensionKind, d.name), AddDimension(d))
    case FlavorRecord(owner, f) => AcceptComponent(s, ComponentKey(owner, FlavorKind, f.name), AddFlavor(f))
    case VariantRecord(owner, v) => AcceptComponent(s, ComponentKey(owner, VariantKind, v.name), AddVariant(v))
    case TaskRecord(task) =>
      if s.build.None? then (s, Some(BuildNotFirst))
      else
        var replaced := s.(tasks := s.tasks[task.path := task]);
        (replaced, if task.path in s.tasks then Some(DuplicateTask(task.path)) else None)
    case DiagnosticRecord(diagnostic) => (s.(diagnostics := s.diagnostics + [diagnostic]), None)
    case ErrorRecord(code, message) => (s, Some(Bridge(code, message)))
    case CompleteRecord(_) => (s, None)
  }

  // `encoded` is the text of the record as it was received.
  function AcceptRecord(s: Assembly, record: BridgeEnvelope, encoded: string): (Assembly, Option<AssemblyError>) {
    var (validation, error) := Check(s.validation, record);
    var checked := s.(validation := validation);
    if error.Some? then (checked, Some(Protocol(error.value)))
    else
      var hashed := if record.payload.CompleteRecord? then checked else checked.(hashed := s.hashed + encoded + "\n");
      AcceptPayload(hashed, record.payload)
  }

  function AcceptLine(parse: string -> Option<BridgeEnvelope>, s: Assembly,
                      line: string): (Assembly, Option<AssemblyError>)
  {
    var record := parse(line);
    if record.None? then (s, Some(Protocol(InvalidJson))) else AcceptRecord(s, record.value, line)
  }

  // Feeds lines until one is refused, as the runner does.
  function AcceptLines(parse: string -> Option<BridgeEnvelope>, s: Assembly, lines: seq<string>)
    : (Assembly, Option<AssemblyError>)
    decreases |lines|
  {
    if lines == [] then (s, None)
    else
      var (next, error) := AcceptLine(parse, s, lines[0]);
      if error.Some? then (next, error) else AcceptLines(parse, next, lines[1..])
  }

  // ---------------------------------------------------------------------------------------------
  // The finished model
  // ---------------------------------------------------------------------------------------------

  function DimensionKey(d: FlavorDimension): Key { Key(d.order, d.name, "") }
  function FlavorKey(f: ProductFlavor): Key { Key(0, f.dimension, f.name) }
  function BuildTypeKey(b: BuildType): Key { Key(0, b.name, "") }
  function VariantKey(v: Variant): Key { Key(0, v.name, "") }
  function VariantFlavorKey(f: VariantFlavor): Key { Key(0, f.dimension, f.flavor) }
  function TestComponentKey(t: TestComponent): Key { Key(0, t.name, "") }
  function DiagnosticKey(d: Diagnostic): Key { Key(0, d.message, "") }

  function ArtifactOrder(): (Artifact, Artifact) -> bool {
    (a: Artifact, b: Artifact) => PathAtMost(a.path, b.path)
  }

  function SortedVariant(v: Variant): Variant {
    v.(flavors := Sort(v.flavors, ByKey(VariantFlavorKey)),
       artifacts := Sort(v.artifacts, ArtifactOrder()),
       testComponents := Sort(v.testComponents, ByKey(TestComponentKey)))
  }

  function SortedVariants(vs: seq<Variant>): seq<Variant> {
    var sorted := Sort(vs, ByKey(VariantKey));
    seq(|sorted|, i requires 0 <= i < |sorted| => SortedVariant(sorted[i]))
  }

  function SortedModule(m: AndroidModule): AndroidModule {
    m.(flavorDimensions := Sort(m.flavorDimensions, ByKey(DimensionKey)),
       productFlavors := Sort(m.productFlavors, ByKey(FlavorKey)),
       buildTypes := Sort(m.buildTypes, ByKey(BuildTypeKey)),
       variants := SortedVariants(m.variants))
  }

  function SortedModules(modules: map<string, AndroidModule>): map<string, AndroidModule> {
    map path | path in modules :: SortedModule(modules[path])
  }

  function ModelOf(s: Assembly, build: BuildInfo): ProjectModel {
    ProjectModel(build.root, build, Values(s.includedBuilds), Values(SortedModules(s.modules)), Values(s.tasks),
                 Sort(s.diagnostics, ByKey(DiagnosticKey)))
  }

  function Finish(sha256: string -> string, s: Assembly): Result<ProjectModel, AssemblyError> {
    if s.validation.completion.None? then Err(Protocol(MissingCompletion))
    else if s.build.None? then Err(MissingBuild)
    else
      var wanted, actual := s.validation.completion.value.modelHash, sha256(s.hashed);
      if wanted != actual then Err(ModelHashMismatch(wanted, actual)) else Ok(ModelOf(s, s.build.value))
  }

  // Reads a whole stream: the first refused line ends it.
  function Assemble(parse: string -> Option<BridgeEnvelope>, sha256: string -> string, lines: seq<string>)
    : Result<ProjectModel, AssemblyError>
  {
    var (s, error) := AcceptLines(parse, EMPTY, lines);
    if error.Some? then Err(error.value) else Finish(sha256, s)
  }

  // The modules of `all`, sorted except for those still to do.
  predicate IsSortedBut(all: map<string, AndroidModule>, modules: map<string, AndroidModule>, todo: set<string>) {
    && todo <= modules.Keys == all.Keys
    && forall path :: path in modules ==> modules[path] == if path in todo then all[path] else SortedModule(all[path])
  }

  lemma SortsOneMore(all: map<string, AndroidModule>, modules: map<string, AndroidModule>, todo: set<string>,
                     path: string)
    requires IsSortedBut(all, modules, todo) && path in todo
    ensures IsSortedBut(all, modules[path := SortedModule(modules[path])], todo - {path})
  {
  }

  /** The assembler as an object; its running hash is kept as the text hashed so far. */
  class ModelAssembler {
    const validator: BridgeStreamValidator
    var hashed: string
    var build: Option<BuildInfo>
    var includedBuilds: map<string, IncludedBuild>
    var modules: map<string, AndroidModule>
    var tasks: map<string, GradleTask>
    var diagnostics: seq<Diagnostic>
    var componentKeys: set<ComponentKey>

    function State(): Assembly
      reads this, validator
    {
      Assembly(validator.State(), hashed, build, includedBuilds, modules, tasks, diagnostics, componentKeys)
    }

    constructor ()
      ensures fresh(validator) && State() == EMPTY
    {
      validator := new BridgeStreamValidator();
      hashed, build, includedBuilds, modules, tasks, diagnostics, componentKeys
        := "", None, map[], map[], map[], [], {};
    }

    method AcceptJsonLine(parse: string -> Option<BridgeEnvelope>, line: string) returns (error: Option<AssemblyError>)
      modifies this, validator
      ensures (State(), error) == AcceptLine(parse, old(State()), line)
    {
      var record := parse(line);
      if record.None? {
        return Some(Protocol(InvalidJson));
      }
      error := Accept(record.value, line);
    }

    method Accept(record: BridgeEnvelope, encoded: string) returns (error: Option<AssemblyError>)
      modifies this, validator
      ensures (State(), error) == AcceptRecord(old(State()), record, encoded)
    {
      var refused := validator.Accept(record);
      if refused.Some? {
        return Some(Protocol(refused.value));
      }
      if !record.payload.CompleteRecord? {
        hashed := hashed + encoded + "\n";
      }
      error := Add(record.payload);
    }

    method Add(payload: BridgePayload) returns (error: Option<AssemblyError>)
      modifies this
      ensures (State(), error) == AcceptPayload(old(State()), payload)
    {
      error := None;
      match payload
      case BuildRecord(first) =>
        if build.Some? {
          return Some(DuplicateBuild);
        }
        if modules != map[] || tasks != map[] || includedBuilds != map[] {
          return Some(BuildNotFirst);
        }
        build := Some(first);
      case IncludedBuildRecord(included) =>
        if build.None? {
          return Some(BuildNotFirst);
        }
        var known := included.id in includedBuilds;
        includedBuilds := includedBuilds[included.id := included];
        if known {
          return Some(DuplicateIncludedBuild(included.id));
        }
      case ModuleRecord(m) =>
        error := AddModule(m);
      case DimensionRecord(owner, d) =>
        error := AddComponent(ComponentKey(owner, DimensionKind, d.name), AddDimension(d));
      case FlavorRecord(owner, f) =>
        error := AddComponent(ComponentKey(owner, FlavorKind, f.name), AddFlavor(f));
      case VariantRecord(owner, v) =>
        error := AddComponent(ComponentKey(owner, VariantKind, v.name), AddVariant(v));
      case TaskRecord(task) =>
        if build.None? {
          return Some(BuildNotFirst);
        }
        var known := task.path in tasks;
        tasks := tasks[task.path := task];
        if known {
          return Some(DuplicateTask(task.path));
        }
      case DiagnosticRecord(diagnostic) =>
        diagnostics := diagnostics + [diagnostic];
      case ErrorRecord(code, message) =>
        return Some(Bridge(code, message));
      case CompleteRecord(_) =>
    }

    method AddModule(m: AndroidModule) returns (error: Option<AssemblyError>)
      modifies this`componentKeys, this`modules
      ensures (State(), error) == AcceptModule(old(State()), m)
    {
      if build.None? {
        return Some(BuildNotFirst);
      }
      if m.path in modules {
        return Some(DuplicateModule(m.path));
      }
      var wanted := EmbeddedKeys(m);
      for i := 0 to |wanted|
        invariant modules == old(modules)
        invariant Claim(componentKeys, wanted[i..]) == Claim(old(componentKeys), wanted)
      {
        assert wanted[i..][1..] == wanted[i + 1..];
        if wanted[i] in componentKeys {
          return Some(DuplicateComponent(wanted[i]));
        }
        componentKeys := componentKeys + {wanted[i]};
      }
      modules := modules[m.path := m];
      error := None;
    }

    method AddComponent(key: ComponentKey, add: AndroidModule -> AndroidModule) returns (error: Option<AssemblyError>)
      modifies this`componentKeys, this`modules
      ensures (State(), error) == AcceptComponent(old(State()), key, add)
    {
      if key.owner !in modules {
        return Some(UnknownModule(key.owner));
      }
      if key in componentKeys {
        return Some(DuplicateComponent(key));
      }
      componentKeys := componentKeys + {key};
      modules := modules[key.owner := add(modules[key.owner])];
      error := None;
    }

    method SortModules()
      modifies this`modules
      ensures modules == SortedModules(old(modules))
    {
      var todo := modules.Keys;
      while todo != {}
        invariant IsSortedBut(old(modules), modules, todo)
        decreases |todo|
      {
        var path := Least(todo);
        SortsOneMore(old(modules), modules, todo, path);
        modules := modules[path := SortedModule(modules[path])];
        todo := todo - {path};
      }
    }

    // Consumes the assembler: the modules are sorted in place, one after the other.
    method FinishModel(sha256: string -> string) returns (r: Result<ProjectModel, AssemblyError>)
      modifies this`modules
      ensures r == Finish(sha256, old(State()))
    {
      var completion := validator.Finish();
      if completion.Err? {
        return Err(Protocol(completion.error));
      }
      if build.None? {
        return Err(MissingBuild);
      }
      SortModules();
      var model := ProjectModel(build.value.root, build.value, Values(includedBuilds), Values(modules), Values(tasks),
                                Sort(diagnostics, ByKey(DiagnosticKey)));
      var wanted, actual := completion.value.modelHash, sha256(hashed);
      if wanted != actual {
        return Err(ModelHashMismatch(wanted, actual));
      }
      r := Ok(model);
    }
  }
}
