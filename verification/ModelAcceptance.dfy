/** Exactly which bridge streams assemble to a model. */
module ModelAcceptance {
  import opened Wrappers
  import opened Ordering
  import opened Collecting
  import opened BridgeProtocol
  import opened ModelAssembly
  import opened ModelBridge
  import opened ModelCanonical
  import opened ModelOrder
  import opened BridgeRoundTrip

  // ---------------------------------------------------------------------------------------------
  // What a record asks of those before it
  // ---------------------------------------------------------------------------------------------

  predicate HasName<T(!new)>(items: seq<T>, name: T -> string, wanted: string) {
    exists i :: 0 <= i < |items| && name(items[i]) == wanted
  }

  // The names that a record takes for itself.
  predicate Takes(p: BridgePayload, key: ComponentKey) {
    match p
    case DimensionRecord(owner, d) => key == ComponentKey(owner, DimensionKind, d.name)
    case FlavorRecord(owner, f) => key == ComponentKey(owner, FlavorKind, f.name)
    case VariantRecord(owner, v) => key == ComponentKey(owner, VariantKind, v.name)
    case ModuleRecord(m) =>
      key.owner == m.path &&
      match key.kind {
        case DimensionKind => HasName(m.flavorDimensions, (d: FlavorDimension) => d.name, key.name)
        case FlavorKind => HasName(m.productFlavors, (f: ProductFlavor) => f.name, key.name)
        case BuildTypeKind => HasName(m.buildTypes, (b: BuildType) => b.name, key.name)
        case VariantKind => HasName(m.variants, (v: Variant) => v.name, key.name)
      }
    case _ => false
  }

  predicate IsTaken(ps: seq<BridgePayload>, key: ComponentKey) {
    exists i :: 0 <= i < |ps| && Takes(ps[i], key)
  }

  predicate HasBuild(ps: seq<BridgePayload>) {
    exists i :: 0 <= i < |ps| && ps[i].BuildRecord?
  }

  predicate HasModule(ps: seq<BridgePayload>, path: string) {
    exists i :: 0 <= i < |ps| && ps[i].ModuleRecord? && ps[i].androidModule.path == path
  }

  // Nothing in the module carries a name twice.
  ghost predicate HasDistinctNames(m: AndroidModule) {
    && NamesAreDistinct(m.flavorDimensions, DimensionName) && NamesAreDistinct(m.productFlavors, FlavorName)
    && NamesAreDistinct(m.buildTypes, BuildTypeName) && NamesAreDistinct(m.variants, VariantName)
  }

  // The build comes first, a module before its components, and no name is taken twice; an error fits nowhere.
  ghost predicate Fits(before: seq<BridgePayload>, p: BridgePayload) {
    match p
    case BuildRecord(_) =>
      forall i :: 0 <= i < |before| ==>
        !(before[i].BuildRecord? || before[i].IncludedBuildRecord? || before[i].ModuleRecord? || before[i].TaskRecord?)
    case IncludedBuildRecord(v) =>
      HasBuild(before) &&
      forall i :: 0 <= i < |before| && before[i].IncludedBuildRecord? ==> before[i].includedBuild.id != v.id
    case TaskRecord(t) =>
      HasBuild(before) && forall i :: 0 <= i < |before| && before[i].TaskRecord? ==> before[i].task.path != t.path
    case ModuleRecord(m) =>
      && HasBuild(before) && !HasModule(before, m.path) && HasDistinctNames(m)
      && forall key :: Takes(p, key) ==> !IsTaken(before, key)
    case DimensionRecord(owner, d) =>
      HasModule(before, owner) && !IsTaken(before, ComponentKey(owner, DimensionKind, d.name))
    case FlavorRecord(owner, f) =>
      HasModule(before, owner) && !IsTaken(before, ComponentKey(owner, FlavorKind, f.name))
    case VariantRecord(owner, v) =>
      HasModule(before, owner) && !IsTaken(before, ComponentKey(owner, VariantKind, v.name))
    case DiagnosticRecord(_) => true
    case ErrorRecord(_, _) => false
    case CompleteRecord(_) => true
  }

  ghost predicate AllFit(ps: seq<BridgePayload>) {
    forall i :: 0 <= i < |ps| ==> Fits(ps[..i], ps[i])
  }

  // ---------------------------------------------------------------------------------------------
  // The names a module brings
  // ---------------------------------------------------------------------------------------------

  predicate AllDistinct(keys: seq<ComponentKey>) {
    forall i, j :: 0 <= i < j < |keys| ==> keys[i] != keys[j]
  }

  lemma DistinctOfCons(first: ComponentKey, rest: seq<ComponentKey>)
    ensures AllDistinct([first] + rest) <==> first !in rest && AllDistinct(rest)
  {
    var all := [first] + rest;
    assert forall i :: 0 <= i < |rest| ==> all[i + 1] == rest[i];
    if AllDistinct(all) {
      forall i, j | 0 <= i < j < |rest| ensures rest[i] != rest[j] { assert all[i + 1] != all[j + 1]; }
      forall i | 0 <= i < |rest| ensures rest[i] != first { assert all[0] != all[i + 1]; }
    }
  }

  lemma {:induction false} ClaimsExactly(keys: set<ComponentKey>, wanted: seq<ComponentKey>)
    ensures Claim(keys, wanted).1.None? <==> AllDistinct(wanted) && forall key :: key in wanted ==> key !in keys
    ensures Claim(keys, wanted).1.None? ==>
              forall key :: key in Claim(keys, wanted).0 <==> key in keys || key in wanted
    decreases |wanted|
  {
    if wanted != [] {
      var first, rest := wanted[0], wanted[1..];
      assert wanted == [first] + rest;
      DistinctOfCons(first, rest);
      ClaimsExactly(keys + {first}, rest);
      assert forall key :: key in wanted <==> key == first || key in rest;
    }
  }

  lemma KeysOfKind<T(!new)>(owner: string, kind: Kind, items: seq<T>, name: T -> string)
    ensures var keys := KeysOf(owner, kind, items, name);
            && (AllDistinct(keys) <==> NamesAreDistinct(items, name))
            && forall key :: key in keys <==> key.owner == owner && key.kind == kind && HasName(items, name, key.name)
  {
    var keys := KeysOf(owner, kind, items, name);
    forall key ensures key in keys <==> key.owner == owner && key.kind == kind && HasName(items, name, key.name) {
      if key.owner == owner && key.kind == kind && HasName(items, name, key.name) {
        var i :| 0 <= i < |items| && name(items[i]) == key.name;
        assert keys[i] == key;
      }
    }
    if AllDistinct(keys) {
      forall i, j | 0 <= i < j < |items| ensures name(items[i]) != name(items[j]) { assert keys[i] != keys[j]; }
    }
  }

  lemma DistinctOfConcat(a: seq<ComponentKey>, b: seq<ComponentKey>, kind: Kind)
    requires forall key :: key in a ==> key.kind != kind
    requires forall key :: key in b ==> key.kind == kind
    ensures AllDistinct(a + b) <==> AllDistinct(a) && AllDistinct(b)
  {
    var all := a + b;
    if AllDistinct(all) {
      forall i, j | 0 <= i < j < |a| ensures a[i] != a[j] { assert all[i] != all[j]; }
      forall i, j | 0 <= i < j < |b| ensures b[i] != b[j] { assert all[|a| + i] != all[|a| + j]; }
    }
    if AllDistinct(a) && AllDistinct(b) {
      forall i, j | 0 <= i < j < |all| ensures all[i] != all[j] {
        if j < |a| {
          assert all[i] == a[i] && all[j] == a[j];
        } else if i < |a| {
          assert all[i] == a[i] && all[j] == b[j - |a|] && a[i] in a && b[j - |a|] in b;
        } else {
          assert all[i] == b[i - |a|] && all[j] == b[j - |a|];
        }
      }
    }
  }

  lemma SameNames<T(!new)>(items: seq<T>, name: T -> string, other: T -> string, wanted: string)
    requires forall x :: name(x) == other(x)
    ensures HasName(items, name, wanted) <==> HasName(items, other, wanted)
  {
  }

  lemma EmbeddedAreTaken(m: AndroidModule, key: ComponentKey)
    ensures key in EmbeddedKeys(m) <==> Takes(ModuleRecord(m), key)
  {
    KeysOfKind(m.path, DimensionKind, m.flavorDimensions, DimensionName);
    KeysOfKind(m.path, FlavorKind, m.productFlavors, FlavorName);
    KeysOfKind(m.path, BuildTypeKind, m.buildTypes, BuildTypeName);
    KeysOfKind(m.path, VariantKind, m.variants, VariantName);
    SameNames(m.flavorDimensions, DimensionName, (d: FlavorDimension) => d.name, key.name);
    SameNames(m.productFlavors, FlavorName, (f: ProductFlavor) => f.name, key.name);
    SameNames(m.buildTypes, BuildTypeName, (b: BuildType) => b.name, key.name);
    SameNames(m.variants, VariantName, (v: Variant) => v.name, key.name);
  }

  lemma EmbeddedAreDistinct(m: AndroidModule)
    ensures AllDistinct(EmbeddedKeys(m)) <==> HasDistinctNames(m)
  {
    KeysOfKind(m.path, DimensionKind, m.flavorDimensions, DimensionName);
    KeysOfKind(m.path, FlavorKind, m.productFlavors, FlavorName);
    KeysOfKind(m.path, BuildTypeKind, m.buildTypes, BuildTypeName);
    KeysOfKind(m.path, VariantKind, m.variants, VariantName);
    var a := KeysOf(m.path, DimensionKind, m.flavorDimensions, DimensionName);
    var b := KeysOf(m.path, FlavorKind, m.productFlavors, FlavorName);
    var c := KeysOf(m.path, BuildTypeKind, m.buildTypes, BuildTypeName);
    var d := KeysOf(m.path, VariantKind, m.variants, VariantName);
    DistinctOfConcat(a, b, FlavorKind);
    DistinctOfConcat(a + b, c, BuildTypeKind);
    DistinctOfConcat(a + b + c, d, VariantKind);
  }

  // ---------------------------------------------------------------------------------------------
  // One record
  // ---------------------------------------------------------------------------------------------

  // Exactly the names that some record took are claimed.
  ghost predicate KeysAreTold(s: Assembly, ps: seq<BridgePayload>) {
    forall key :: key in s.componentKeys <==> IsTaken(ps, key)
  }

  lemma TakenAppend(ps: seq<BridgePayload>, p: BridgePayload, key: ComponentKey)
    ensures IsTaken(ps + [p], key) <==> IsTaken(ps, key) || Takes(p, key)
  {
    var all := ps + [p];
    assert forall i :: 0 <= i < |ps| ==> all[i] == ps[i];
    assert all[|ps|] == p;
  }

  lemma BuildsAreTold(s: Assembly, ps: seq<BridgePayload>)
    requires Told(s, ps)
    ensures s.build.Some? <==> HasBuild(ps)
    ensures s.includedBuilds != map[] <==> exists i :: 0 <= i < |ps| && ps[i].IncludedBuildRecord?
    ensures s.tasks != map[] <==> exists i :: 0 <= i < |ps| && ps[i].TaskRecord?
  {
    if s.build.Some? { assert BuildRecord(s.build.value) in ps; }
    if HasBuild(ps) {
      var i :| 0 <= i < |ps| && ps[i].BuildRecord?;
      assert BuildRecord(ps[i].build) in ps;
    }
    if s.includedBuilds != map[] {
      var id :| id in s.includedBuilds;
      assert IncludedBuildRecord(s.includedBuilds[id]) in ps;
    }
    forall i | 0 <= i < |ps| && ps[i].IncludedBuildRecord? ensures s.includedBuilds != map[] {
      assert IncludedBuildRecord(ps[i].includedBuild) in ps;
    }
    if s.tasks != map[] {
      var path :| path in s.tasks;
      assert TaskRecord(s.tasks[path]) in ps;
    }
    forall i | 0 <= i < |ps| && ps[i].TaskRecord? ensures s.tasks != map[] {
      assert TaskRecord(ps[i].task) in ps;
    }
  }

  lemma ModuleIsTold(s: Assembly, ps: seq<BridgePayload>, path: string)
    requires Told(s, ps)
    ensures path in s.modules <==> HasModule(ps, path)
  {
    if path in s.modules {
      var m :| ModuleRecord(m) in ps && m.path == path;
      var i :| 0 <= i < |ps| && ps[i] == ModuleRecord(m);
    }
    if HasModule(ps, path) {
      var i :| 0 <= i < |ps| && ps[i].ModuleRecord? && ps[i].androidModule.path == path;
      assert ModuleRecord(ps[i].androidModule) in ps;
    }
  }

  lemma SomeModuleIsTold(s: Assembly, ps: seq<BridgePayload>)
    requires Told(s, ps)
    ensures s.modules != map[] <==> exists i :: 0 <= i < |ps| && ps[i].ModuleRecord?
  {
    if s.modules != map[] {
      var path :| path in s.modules;
      ModuleIsTold(s, ps, path);
    }
    forall i | 0 <= i < |ps| && ps[i].ModuleRecord? ensures s.modules != map[] {
      ModuleIsTold(s, ps, ps[i].androidModule.path);
    }
  }

  lemma BuildFitsExactly(s: Assembly, ps: seq<BridgePayload>, p: BridgePayload)
    requires Told(s, ps) && p.BuildRecord?
    ensures AcceptPayload(s, p).1.None? <==> Fits(ps, p)
  {
    BuildsAreTold(s, ps);
    SomeModuleIsTold(s, ps);
  }

  lemma IncludedFitsExactly(s: Assembly, ps: seq<BridgePayload>, p: BridgePayload)
    requires Told(s, ps) && p.IncludedBuildRecord?
    ensures AcceptPayload(s, p).1.None? <==> Fits(ps, p)
  {
    BuildsAreTold(s, ps);
    var id := p.includedBuild.id;
    if id in s.includedBuilds {
      assert IncludedBuildRecord(s.includedBuilds[id]) in ps;
    }
    forall i | 0 <= i < |ps| && ps[i].IncludedBuildRecord? ensures ps[i].includedBuild.id in s.includedBuilds {
      assert IncludedBuildRecord(ps[i].includedBuild) in ps;
    }
  }

  lemma TaskFitsExactly(s: Assembly, ps: seq<BridgePayload>, p: BridgePayload)
    requires Told(s, ps) && p.TaskRecord?
    ensures AcceptPayload(s, p).1.None? <==> Fits(ps, p)
  {
    BuildsAreTold(s, ps);
    if p.task.path in s.tasks {
      assert TaskRecord(s.tasks[p.task.path]) in ps;
    }
    forall i | 0 <= i < |ps| && ps[i].TaskRecord? ensures ps[i].task.path in s.tasks {
      assert TaskRecord(ps[i].task) in ps;
    }
  }

  lemma ModuleFitsExactly(s: Assembly, ps: seq<BridgePayload>, m: AndroidModule)
    requires Told(s, ps) && KeysAreTold(s, ps)
    ensures AcceptPayload(s, ModuleRecord(m)).1.None? <==> Fits(ps, ModuleRecord(m))
  {
    var wanted := EmbeddedKeys(m);
    BuildsAreTold(s, ps);
    ModuleIsTold(s, ps, m.path);
    ClaimsExactly(s.componentKeys, wanted);
    EmbeddedAreDistinct(m);
    forall key ensures key in wanted <==> Takes(ModuleRecord(m), key) { EmbeddedAreTaken(m, key); }
  }

  lemma ComponentFitsExactly(s: Assembly, ps: seq<BridgePayload>, p: BridgePayload)
    requires Told(s, ps) && KeysAreTold(s, ps) && (p.DimensionRecord? || p.FlavorRecord? || p.VariantRecord?)
    ensures AcceptPayload(s, p).1.None? <==> Fits(ps, p)
  {
    ModuleIsTold(s, ps, p.owner);
  }

  /** A record is accepted exactly when it fits those before it. */
  lemma PayloadFitsExactly(s: Assembly, ps: seq<BridgePayload>, p: BridgePayload)
    requires Told(s, ps) && KeysAreTold(s, ps)
    ensures AcceptPayload(s, p).1.None? <==> Fits(ps, p)
  {
    match p
    case BuildRecord(_) => BuildFitsExactly(s, ps, p);
    case IncludedBuildRecord(_) => IncludedFitsExactly(s, ps, p);
    case TaskRecord(_) => TaskFitsExactly(s, ps, p);
    case ModuleRecord(m) => ModuleFitsExactly(s, ps, m);
    case DimensionRecord(_, _) => ComponentFitsExactly(s, ps, p);
    case FlavorRecord(_, _) => ComponentFitsExactly(s, ps, p);
    case VariantRecord(_, _) => ComponentFitsExactly(s, ps, p);
    case _ =>
  }

  // Why a record does not fit those before it.
  ghost predicate Explains(before: seq<BridgePayload>, p: BridgePayload, error: AssemblyError) {
    match error
    case Bridge(code, message) => p == ErrorRecord(code, message)
    case DuplicateBuild => p.BuildRecord? && HasBuild(before)
    case BuildNotFirst =>
      !HasBuild(before) && (p.BuildRecord? || p.IncludedBuildRecord? || p.TaskRecord? || p.ModuleRecord?)
    case DuplicateIncludedBuild(id) =>
      p.IncludedBuildRecord? && p.includedBuild.id == id && exists v :: IncludedBuildRecord(v) in before && v.id == id
    case DuplicateTask(path) =>
      p.TaskRecord? && p.task.path == path && exists t :: TaskRecord(t) in before && t.path == path
    case DuplicateModule(path) => p.ModuleRecord? && p.androidModule.path == path && HasModule(before, path)
    case UnknownModule(owner) =>
      (p.DimensionRecord? || p.FlavorRecord? || p.VariantRecord?) && p.owner == owner && !HasModule(before, owner)
    case DuplicateComponent(key) =>
      Takes(p, key) && (IsTaken(before, key) || (p.ModuleRecord? && !HasDistinctNames(p.androidModule)))
    case _ => false
  }

  lemma {:induction false} RefusedClaim(keys: set<ComponentKey>, wanted: seq<ComponentKey>)
    requires Claim(keys, wanted).1.Some?
    ensures var key := Claim(keys, wanted).1.value; key in wanted && (key in keys || !AllDistinct(wanted))
    decreases |wanted|
  {
    var first, rest := wanted[0], wanted[1..];
    if first !in keys {
      RefusedClaim(keys + {first}, rest);
      assert wanted == [first] + rest;
      DistinctOfCons(first, rest);
    }
  }

  lemma ModuleRefusalIsExplained(s: Assembly, ps: seq<BridgePayload>, m: AndroidModule)
    requires Told(s, ps) && KeysAreTold(s, ps) && AcceptPayload(s, ModuleRecord(m)).1.Some?
    ensures Explains(ps, ModuleRecord(m), AcceptPayload(s, ModuleRecord(m)).1.value)
  {
    BuildsAreTold(s, ps);
    ModuleIsTold(s, ps, m.path);
    if s.build.Some? && m.path !in s.modules {
      RefusedClaim(s.componentKeys, EmbeddedKeys(m));
      EmbeddedAreDistinct(m);
      EmbeddedAreTaken(m, Claim(s.componentKeys, EmbeddedKeys(m)).1.value);
    }
  }

  lemma BuildRefusalIsExplained(s: Assembly, ps: seq<BridgePayload>, p: BridgePayload)
    requires Told(s, ps) && p.BuildRecord? && AcceptPayload(s, p).1.Some?
    ensures Explains(ps, p, AcceptPayload(s, p).1.value)
  {
    BuildsAreTold(s, ps);
  }

  lemma ComponentRefusalIsExplained(s: Assembly, ps: seq<BridgePayload>, p: BridgePayload)
    requires Told(s, ps) && KeysAreTold(s, ps) && (p.DimensionRecord? || p.FlavorRecord? || p.VariantRecord?)
    requires AcceptPayload(s, p).1.Some?
    ensures Explains(ps, p, AcceptPayload(s, p).1.value)
  {
    ModuleIsTold(s, ps, p.owner);
  }

  lemma IncludedRefusalIsExplained(s: Assembly, ps: seq<BridgePayload>, p: BridgePayload)
    requires Told(s, ps) && p.IncludedBuildRecord? && AcceptPayload(s, p).1.Some?
    ensures Explains(ps, p, AcceptPayload(s, p).1.value)
  {
    BuildsAreTold(s, ps);
    if p.includedBuild.id in s.includedBuilds {
      assert IncludedBuildRecord(s.includedBuilds[p.includedBuild.id]) in ps;
    }
  }

  lemma TaskRefusalIsExplained(s: Assembly, ps: seq<BridgePayload>, p: BridgePayload)
    requires Told(s, ps) && p.TaskRecord? && AcceptPayload(s, p).1.Some?
    ensures Explains(ps, p, AcceptPayload(s, p).1.value)
  {
    BuildsAreTold(s, ps);
    if p.task.path in s.tasks {
      assert TaskRecord(s.tasks[p.task.path]) in ps;
    }
  }

  /** A refusal says which of these it was. */
  lemma RefusalsAreExplained(s: Assembly, ps: seq<BridgePayload>, p: BridgePayload)
    requires Told(s, ps) && KeysAreTold(s, ps) && AcceptPayload(s, p).1.Some?
    ensures Explains(ps, p, AcceptPayload(s, p).1.value)
  {
    match p
    case ModuleRecord(m) => ModuleRefusalIsExplained(s, ps, m);
    case DimensionRecord(_, _) => ComponentRefusalIsExplained(s, ps, p);
    case FlavorRecord(_, _) => ComponentRefusalIsExplained(s, ps, p);
    case VariantRecord(_, _) => ComponentRefusalIsExplained(s, ps, p);
    case IncludedBuildRecord(_) => IncludedRefusalIsExplained(s, ps, p);
    case TaskRecord(_) => TaskRefusalIsExplained(s, ps, p);
    case BuildRecord(_) => BuildRefusalIsExplained(s, ps, p);
    case _ =>
  }

  lemma KeysStayTold(s: Assembly, ps: seq<BridgePayload>, p: BridgePayload)
    requires KeysAreTold(s, ps) && AcceptPayload(s, p).1.None?
    ensures KeysAreTold(AcceptPayload(s, p).0, ps + [p])
  {
    forall key ensures key in AcceptPayload(s, p).0.componentKeys <==> IsTaken(ps + [p], key) {
      TakenAppend(ps, p, key);
      if p.ModuleRecord? {
        ClaimsExactly(s.componentKeys, EmbeddedKeys(p.androidModule));
        EmbeddedAreTaken(p.androidModule, key);
      }
    }
  }

  // ---------------------------------------------------------------------------------------------
  // Streams
  // ---------------------------------------------------------------------------------------------

  predicate ParsesAll(parse: Parser, lines: seq<string>) {
    forall i :: 0 <= i < |lines| ==> parse(lines[i]).Some?
  }

  function Envelopes(parse: Parser, lines: seq<string>): seq<BridgeEnvelope> {
    Collect(lines, parse)
  }

  // What holds of a stream up to some line exactly when all these lines are accepted.
  ghost predicate IsAcceptable(parse: Parser, lines: seq<string>) {
    && ParsesAll(parse, lines)
    && CheckAll(UNSTARTED, Envelopes(parse, lines)).1.None?
    && AllFit(Bodies(parse, lines))
  }

  ghost predicate IsReadTo(parse: Parser, lines: seq<string>, s: Assembly) {
    && Told(s, Bodies(parse, lines)) && KeysAreTold(s, Bodies(parse, lines))
    && s.validation == CheckAll(UNSTARTED, Envelopes(parse, lines)).0
  }

  lemma AllFitAppend(ps: seq<BridgePayload>, p: BridgePayload)
    ensures AllFit(ps + [p]) <==> AllFit(ps) && Fits(ps, p)
  {
    var all := ps + [p];
    assert all[..|ps|] == ps && all[|ps|] == p;
    assert forall i :: 0 <= i < |ps| ==> all[..i] == ps[..i] && all[i] == ps[i];
    if AllFit(all) {
      forall i | 0 <= i < |ps| ensures Fits(ps[..i], ps[i]) { assert Fits(all[..i], all[i]); }
      assert Fits(all[..|ps|], all[|ps|]);
    }
  }

  lemma EnvelopesAppend(parse: Parser, front: seq<string>, last: string)
    ensures Envelopes(parse, front + [last]) ==
            Envelopes(parse, front) + if parse(last).Some? then [parse(last).value] else []
    ensures Bodies(parse, front + [last]) ==
            Bodies(parse, front)
            + (if parse(last).Some? && !parse(last).value.payload.CompleteRecord?
               then [parse(last).value.payload] else [])
  {
    CollectAppend(front, last, parse);
    CollectAppend(front, last, BodyOf(parse));
  }

  lemma ParsesAppend(parse: Parser, front: seq<string>, last: string)
    ensures ParsesAll(parse, front + [last]) <==> ParsesAll(parse, front) && parse(last).Some?
  {
    var all := front + [last];
    assert all[|front|] == last && forall i :: 0 <= i < |front| ==> all[i] == front[i];
  }

  lemma CheckAppend(front: seq<BridgeEnvelope>, last: BridgeEnvelope)
    ensures var (v, error) := CheckAll(UNSTARTED, front);
            CheckAll(UNSTARTED, front + [last]) == if error.Some? then (v, error) else Check(v, last)
  {
    CheckConcat(UNSTARTED, front, [last]);
    CheckOne(CheckAll(UNSTARTED, front).0, last);
  }

  lemma NextBodyExactly(s: Assembly, ps: seq<BridgePayload>, p: BridgePayload)
    requires Told(s, ps) && KeysAreTold(s, ps) && !p.CompleteRecord?
    ensures var (after, error) := AcceptPayload(s, p);
            && (error.None? <==> Fits(ps, p))
            && (error.None? ==> Told(after, ps + [p]) && KeysAreTold(after, ps + [p]))
  {
    PayloadFitsExactly(s, ps, p);
    if AcceptPayload(s, p).1.None? {
      PayloadKeepsTold(s, ps, p);
      KeysStayTold(s, ps, p);
    }
  }

  lemma ValidationIsKept(s: Assembly, p: BridgePayload)
    ensures AcceptPayload(s, p).0.validation == s.validation
  {
  }

  lemma NextCompletionExactly(parse: Parser, front: seq<string>, last: string, s: Assembly, record: BridgeEnvelope)
    requires IsAcceptable(parse, front) && IsReadTo(parse, front, s)
    requires parse(last) == Some(record) && record.payload.CompleteRecord?
    ensures AcceptLine(parse, s, last).1.None? <==> IsAcceptable(parse, front + [last])
    ensures AcceptLine(parse, s, last).1.None? ==> IsReadTo(parse, front + [last], AcceptLine(parse, s, last).0)
  {
    var ps := Bodies(parse, front);
    EnvelopesAppend(parse, front, last);
    ParsesAppend(parse, front, last);
    CheckAppend(Envelopes(parse, front), record);
    assert ps + [] == ps;
    ToldIgnoresTheStream(s, ps, Check(s.validation, record).0, s.hashed);
  }

  lemma NextRecordExactly(parse: Parser, front: seq<string>, last: string, s: Assembly, record: BridgeEnvelope)
    requires IsAcceptable(parse, front) && IsReadTo(parse, front, s)
    requires parse(last) == Some(record) && !record.payload.CompleteRecord?
    ensures AcceptLine(parse, s, last).1.None? <==> IsAcceptable(parse, front + [last])
    ensures AcceptLine(parse, s, last).1.None? ==> IsReadTo(parse, front + [last], AcceptLine(parse, s, last).0)
  {
    var ps := Bodies(parse, front);
    EnvelopesAppend(parse, front, last);
    ParsesAppend(parse, front, last);
    CheckAppend(Envelopes(parse, front), record);
    AllFitAppend(ps, record.payload);
    var read := s.(validation := Check(s.validation, record).0, hashed := s.hashed + last + "\n");
    ToldIgnoresTheStream(s, ps, read.validation, read.hashed);
    NextBodyExactly(read, ps, record.payload);
    ValidationIsKept(read, record.payload);
  }

  lemma NextLineExactly(parse: Parser, front: seq<string>, last: string, s: Assembly)
    requires IsAcceptable(parse, front) && IsReadTo(parse, front, s)
    ensures AcceptLine(parse, s, last).1.None? <==> IsAcceptable(parse, front + [last])
    ensures AcceptLine(parse, s, last).1.None? ==> IsReadTo(parse, front + [last], AcceptLine(parse, s, last).0)
  {
    if parse(last).None? {
      ParsesAppend(parse, front, last);
    } else if parse(last).value.payload.CompleteRecord? {
      NextCompletionExactly(parse, front, last, s, parse(last).value);
    } else {
      NextRecordExactly(parse, front, last, s, parse(last).value);
    }
  }

  lemma {:induction false} LinesAreAcceptedExactly(parse: Parser, lines: seq<string>)
    ensures AcceptLines(parse, EMPTY, lines).1.None? <==> IsAcceptable(parse, lines)
    ensures AcceptLines(parse, EMPTY, lines).1.None? ==> IsReadTo(parse, lines, AcceptLines(parse, EMPTY, lines).0)
    decreases |lines|
  {
    if lines == [] {
      NothingIsTold();
    } else {
      var front, last := lines[..|lines| - 1], lines[|lines| - 1];
      assert lines == front + [last];
      LinesAreAcceptedExactly(parse, front);
      AcceptConcat(parse, EMPTY, front, [last]);
      var s := AcceptLines(parse, EMPTY, front).0;
      AcceptOne(parse, s, last);
      if AcceptLines(parse, EMPTY, front).1.None? {
        NextLineExactly(parse, front, last, s);
      } else {
        UnacceptableStays(parse, front, last);
      }
    }
  }

  lemma UnacceptableStays(parse: Parser, front: seq<string>, last: string)
    requires !IsAcceptable(parse, front)
    ensures !IsAcceptable(parse, front + [last])
  {
    ParsesAppend(parse, front, last);
    EnvelopesAppend(parse, front, last);
    if parse(last).Some? {
      CheckAppend(Envelopes(parse, front), parse(last).value);
      if !parse(last).value.payload.CompleteRecord? { AllFitAppend(Bodies(parse, front), parse(last).value.payload); }
      assert Bodies(parse, front) + [] == Bodies(parse, front);
    }
  }

  lemma {:induction false} EnvelopesOfLines(parse: Parser, lines: seq<string>)
    requires ParsesAll(parse, lines)
    ensures |Envelopes(parse, lines)| == |lines|
    ensures lines != [] ==> Envelopes(parse, lines)[|lines| - 1] == parse(lines[|lines| - 1]).value
  {
    if lines != [] { EnvelopesOfLines(parse, lines[..|lines| - 1]); }
  }

  // The hash in the last record is that of the lines before it.
  predicate IsHashed(parse: Parser, sha256: string -> string, lines: seq<string>) {
    && lines != [] && parse(lines[|lines| - 1]).Some? && parse(lines[|lines| - 1]).value.payload.CompleteRecord?
    && parse(lines[|lines| - 1]).value.payload.complete.modelHash == sha256(JoinLines(lines[..|lines| - 1]))
  }

  /**
   * A stream assembles to a model exactly when each line is a record, all but the last are counted by the last, each
   * fits those before it, one of them is the build, and the last gives the hash of the lines before it.
   */
  lemma AssemblesExactly(parse: Parser, sha256: string -> string, lines: seq<string>)
    ensures Assemble(parse, sha256, lines).Ok? <==>
              && ParsesAll(parse, lines) && IsCompleteStream(Envelopes(parse, lines))
              && AllFit(Bodies(parse, lines)) && HasBuild(Bodies(parse, lines)) && IsHashed(parse, sha256, lines)
  {
    LinesAreAcceptedExactly(parse, lines);
    AcceptedExactlyWhenComplete(Envelopes(parse, lines));
    if AcceptLines(parse, EMPTY, lines).1.None? {
      var s := AcceptLines(parse, EMPTY, lines).0;
      AcceptedShape(parse, lines);
      EnvelopesOfLines(parse, lines);
      BuildsAreTold(s, Bodies(parse, lines));
      FinishesExactly(parse, sha256, lines, s);
    }
  }

  lemma FinishesExactly(parse: Parser, sha256: string -> string, lines: seq<string>, s: Assembly)
    requires HasShape(parse, lines, s)
    ensures Finish(sha256, s).Ok? <==> s.validation.completion.Some? && s.build.Some? && IsHashed(parse, sha256, lines)
  {
    if s.validation.completion.Some? {
      assert parse(lines[|lines| - 1]).value.payload.complete == s.validation.completion.value;
    }
  }

  /** Lines that were all accepted and do not assemble lack the completion or the build, or have another hash. */
  lemma FinishRefusalsAreExplained(parse: Parser, sha256: string -> string, lines: seq<string>)
    requires IsAcceptable(parse, lines) && Assemble(parse, sha256, lines).Err?
    ensures Assemble(parse, sha256, lines).error ==
            if !IsCompleteStream(Envelopes(parse, lines)) then Protocol(MissingCompletion)
            else if !HasBuild(Bodies(parse, lines)) then MissingBuild
            else ModelHashMismatch(parse(lines[|lines| - 1]).value.payload.complete.modelHash,
                                   sha256(JoinLines(lines[..|lines| - 1])))
  {
    LinesAreAcceptedExactly(parse, lines);
    AcceptedExactlyWhenComplete(Envelopes(parse, lines));
    AcceptedShape(parse, lines);
    EnvelopesOfLines(parse, lines);
    BuildsAreTold(AcceptLines(parse, EMPTY, lines).0, Bodies(parse, lines));
  }
}
