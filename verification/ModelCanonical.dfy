/** The order of the records does not matter: assembly makes one model of them. */
module ModelCanonical {
  import opened Wrappers
  import opened Ordering
  import opened Collecting
  import opened BridgeProtocol
  import opened ModelAssembly

  function DimensionsOf(owner: string): BridgePayload -> Option<FlavorDimension> {
    (p: BridgePayload) => if p.DimensionRecord? && p.owner == owner then Some(p.dimension) else None
  }

  function FlavorsOf(owner: string): BridgePayload -> Option<ProductFlavor> {
    (p: BridgePayload) => if p.FlavorRecord? && p.owner == owner then Some(p.flavor) else None
  }

  function VariantsOf(owner: string): BridgePayload -> Option<Variant> {
    (p: BridgePayload) => if p.VariantRecord? && p.owner == owner then Some(p.variant) else None
  }

  function DiagnosticOf(p: BridgePayload): Option<Diagnostic> {
    if p.DiagnosticRecord? then Some(p.diagnostic) else None
  }

  function DiagnosticMessage(d: Diagnostic): string { d.message }

  // A module record together with all components that other records give the module.
  function Extended(m: AndroidModule, ps: seq<BridgePayload>): AndroidModule {
    m.(flavorDimensions := m.flavorDimensions + Collect(ps, DimensionsOf(m.path)),
       productFlavors := m.productFlavors + Collect(ps, FlavorsOf(m.path)),
       variants := m.variants + Collect(ps, VariantsOf(m.path)))
  }

  // ---------------------------------------------------------------------------------------------
  // What the state says about the records, whatever their order
  // ---------------------------------------------------------------------------------------------

  ghost predicate BuildIsTold(s: Assembly, ps: seq<BridgePayload>) {
    forall b :: BuildRecord(b) in ps <==> s.build == Some(b)
  }

  predicate DiagnosticsAreTold(s: Assembly, ps: seq<BridgePayload>) {
    s.diagnostics == Collect(ps, DiagnosticOf)
  }

  ghost predicate IncludedAreTold(s: Assembly, ps: seq<BridgePayload>) {
    && (forall v :: IncludedBuildRecord(v) in ps <==> v.id in s.includedBuilds && s.includedBuilds[v.id] == v)
    && (forall id :: id in s.includedBuilds ==> s.includedBuilds[id].id == id)
  }

  ghost predicate TasksAreTold(s: Assembly, ps: seq<BridgePayload>) {
    && (forall t :: TaskRecord(t) in ps <==> t.path in s.tasks && s.tasks[t.path] == t)
    && (forall path :: path in s.tasks ==> s.tasks[path].path == path)
  }

  ghost predicate ModulesAreTold(s: Assembly, ps: seq<BridgePayload>) {
    && (forall m :: ModuleRecord(m) in ps ==> m.path in s.modules && s.modules[m.path] == Extended(m, ps))
    && (forall path :: path in s.modules ==> exists m :: ModuleRecord(m) in ps && m.path == path)
  }

  predicate HasNoComponents(ps: seq<BridgePayload>, path: string) {
    Collect(ps, DimensionsOf(path)) == [] && Collect(ps, FlavorsOf(path)) == [] && Collect(ps, VariantsOf(path)) == []
  }

  ghost predicate ComponentsHaveModules(s: Assembly, ps: seq<BridgePayload>) {
    forall path :: path !in s.modules ==> HasNoComponents(ps, path)
  }

  // The names of the components are distinct, and each is claimed.
  ghost predicate KindIsClaimed<T>(keys: set<ComponentKey>, owner: string, kind: Kind, items: seq<T>,
                                   name: T -> string)
  {
    NamesAreDistinct(items, name) && forall i :: 0 <= i < |items| ==> ComponentKey(owner, kind, name(items[i])) in keys
  }

  ghost predicate ModuleIsClaimed(keys: set<ComponentKey>, path: string, m: AndroidModule) {
    && KindIsClaimed(keys, path, DimensionKind, m.flavorDimensions, DimensionName)
    && KindIsClaimed(keys, path, FlavorKind, m.productFlavors, FlavorName)
    && KindIsClaimed(keys, path, VariantKind, m.variants, VariantName)
  }

  ghost predicate ComponentsAreClaimed(s: Assembly) {
    forall path :: path in s.modules ==> ModuleIsClaimed(s.componentKeys, path, s.modules[path])
  }

  ghost predicate Told(s: Assembly, ps: seq<BridgePayload>) {
    && BuildIsTold(s, ps) && DiagnosticsAreTold(s, ps) && IncludedAreTold(s, ps) && TasksAreTold(s, ps)
    && ModulesAreTold(s, ps) && ComponentsHaveModules(s, ps) && ComponentsAreClaimed(s)
  }

  // ---------------------------------------------------------------------------------------------
  // Every accepted record keeps it
  // ---------------------------------------------------------------------------------------------

  lemma CollectsAppend(ps: seq<BridgePayload>, p: BridgePayload, path: string)
    ensures Collect(ps + [p], DimensionsOf(path)) ==
            Collect(ps, DimensionsOf(path)) + if p.DimensionRecord? && p.owner == path then [p.dimension] else []
    ensures Collect(ps + [p], FlavorsOf(path)) ==
            Collect(ps, FlavorsOf(path)) + if p.FlavorRecord? && p.owner == path then [p.flavor] else []
    ensures Collect(ps + [p], VariantsOf(path)) ==
            Collect(ps, VariantsOf(path)) + if p.VariantRecord? && p.owner == path then [p.variant] else []
  {
    CollectAppend(ps, p, DimensionsOf(path));
    CollectAppend(ps, p, FlavorsOf(path));
    CollectAppend(ps, p, VariantsOf(path));
  }

  // What one more record adds to a module.
  function Extend(m: AndroidModule, p: BridgePayload): AndroidModule {
    match p
    case DimensionRecord(owner, d) => if owner == m.path then AddDimension(d)(m) else m
    case FlavorRecord(owner, f) => if owner == m.path then AddFlavor(f)(m) else m
    case VariantRecord(owner, v) => if owner == m.path then AddVariant(v)(m) else m
    case _ => m
  }

  lemma ExtendedAppend(m: AndroidModule, ps: seq<BridgePayload>, p: BridgePayload)
    ensures Extended(m, ps + [p]) == Extend(Extended(m, ps), p)
  {
    CollectsAppend(ps, p, m.path);
  }

  lemma BuildStaysTold(s: Assembly, ps: seq<BridgePayload>, p: BridgePayload)
    requires BuildIsTold(s, ps) && AcceptPayload(s, p).1.None?
    ensures BuildIsTold(AcceptPayload(s, p).0, ps + [p])
  {
  }

  lemma DiagnosticsStayTold(s: Assembly, ps: seq<BridgePayload>, p: BridgePayload)
    requires DiagnosticsAreTold(s, ps) && AcceptPayload(s, p).1.None?
    ensures DiagnosticsAreTold(AcceptPayload(s, p).0, ps + [p])
  {
    CollectAppend(ps, p, DiagnosticOf);
    assert AcceptPayload(s, p).0.diagnostics == s.diagnostics + (if p.DiagnosticRecord? then [p.diagnostic] else []);
  }

  lemma IncludedStayTold(s: Assembly, ps: seq<BridgePayload>, p: BridgePayload)
    requires IncludedAreTold(s, ps) && AcceptPayload(s, p).1.None?
    ensures IncludedAreTold(AcceptPayload(s, p).0, ps + [p])
  {
  }

  lemma TasksStayTold(s: Assembly, ps: seq<BridgePayload>, p: BridgePayload)
    requires TasksAreTold(s, ps) && AcceptPayload(s, p).1.None?
    ensures TasksAreTold(AcceptPayload(s, p).0, ps + [p])
  {
  }

  lemma AcceptedExtends(s: Assembly, p: BridgePayload, path: string)
    requires AcceptPayload(s, p).1.None? && path in s.modules && s.modules[path].path == path
    ensures path in AcceptPayload(s, p).0.modules
    ensures AcceptPayload(s, p).0.modules[path] == Extend(s.modules[path], p)
  {
  }

  // A module is added by its own record only.
  lemma OnlyModulesAreAdded(s: Assembly, p: BridgePayload, path: string)
    requires AcceptPayload(s, p).1.None? && path !in s.modules
    ensures path in AcceptPayload(s, p).0.modules <==> p.ModuleRecord? && p.androidModule.path == path
    ensures path in AcceptPayload(s, p).0.modules ==> AcceptPayload(s, p).0.modules[path] == p.androidModule
  {
  }

  lemma ModuleIsNew(s: Assembly, m: AndroidModule)
    requires AcceptPayload(s, ModuleRecord(m)).1.None?
    ensures m.path !in s.modules
  {
  }

  lemma ModuleStaysTold(s: Assembly, ps: seq<BridgePayload>, p: BridgePayload, m: AndroidModule)
    requires ModulesAreTold(s, ps) && ComponentsHaveModules(s, ps) && AcceptPayload(s, p).1.None?
    requires ModuleRecord(m) in ps + [p]
    ensures m.path in AcceptPayload(s, p).0.modules && AcceptPayload(s, p).0.modules[m.path] == Extended(m, ps + [p])
  {
    ExtendedAppend(m, ps, p);
    if p == ModuleRecord(m) {
      ModuleIsNew(s, m);
      OnlyModulesAreAdded(s, p, m.path);
      assert HasNoComponents(ps, m.path);
      assert Extended(m, ps) == m;
    } else {
      assert ModuleRecord(m) in ps;
      AcceptedExtends(s, p, m.path);
    }
  }

  lemma ModulesStayTold(s: Assembly, ps: seq<BridgePayload>, p: BridgePayload)
    requires ModulesAreTold(s, ps) && ComponentsHaveModules(s, ps) && AcceptPayload(s, p).1.None?
    ensures ModulesAreTold(AcceptPayload(s, p).0, ps + [p])
  {
    var after := AcceptPayload(s, p).0;
    forall m | ModuleRecord(m) in ps + [p]
      ensures m.path in after.modules && after.modules[m.path] == Extended(m, ps + [p])
    {
      ModuleStaysTold(s, ps, p, m);
    }
    forall path | path in after.modules ensures exists m :: ModuleRecord(m) in ps + [p] && m.path == path {
      if path in s.modules {
        var m :| ModuleRecord(m) in ps && m.path == path;
        assert ModuleRecord(m) in ps + [p];
      } else {
        OnlyModulesAreAdded(s, p, path);
        assert ModuleRecord(p.androidModule) in ps + [p];
      }
    }
  }

  lemma ComponentsStayOwned(s: Assembly, ps: seq<BridgePayload>, p: BridgePayload)
    requires ComponentsHaveModules(s, ps) && AcceptPayload(s, p).1.None?
    ensures ComponentsHaveModules(AcceptPayload(s, p).0, ps + [p])
  {
    var after := AcceptPayload(s, p).0;
    forall path | path !in after.modules ensures HasNoComponents(ps + [p], path) {
      assert HasNoComponents(ps, path);
      CollectsAppend(ps, p, path);
    }
  }

  lemma {:induction false} ClaimedAreNew(keys: set<ComponentKey>, wanted: seq<ComponentKey>)
    requires Claim(keys, wanted).1.None?
    ensures keys <= Claim(keys, wanted).0
    ensures forall i :: 0 <= i < |wanted| ==> wanted[i] !in keys && wanted[i] in Claim(keys, wanted).0
    ensures forall i, j :: 0 <= i < j < |wanted| ==> wanted[i] != wanted[j]
    decreases |wanted|
  {
    if wanted != [] {
      ClaimedAreNew(keys + {wanted[0]}, wanted[1..]);
      assert forall i :: 0 < i < |wanted| ==> wanted[i] == wanted[1..][i - 1];
    }
  }

  // The keys of one kind, somewhere among keys that are all claimed and distinct.
  lemma ClaimedKind<T>(keys: set<ComponentKey>, wanted: seq<ComponentKey>, at: nat, owner: string, kind: Kind,
                       items: seq<T>, name: T -> string)
    requires at + |items| <= |wanted| && wanted[at..at + |items|] == KeysOf(owner, kind, items, name)
    requires forall i :: 0 <= i < |wanted| ==> wanted[i] in keys
    requires forall i, j :: 0 <= i < j < |wanted| ==> wanted[i] != wanted[j]
    ensures KindIsClaimed(keys, owner, kind, items, name)
  {
    forall i | 0 <= i < |items| ensures wanted[at + i] == ComponentKey(owner, kind, name(items[i])) {
      assert wanted[at..at + |items|][i] == wanted[at + i];
    }
  }

  lemma EmbeddedAreClaimed(keys: set<ComponentKey>, m: AndroidModule)
    requires Claim(keys, EmbeddedKeys(m)).1.None?
    ensures ModuleIsClaimed(Claim(keys, EmbeddedKeys(m)).0, m.path, m)
  {
    var wanted, claimed := EmbeddedKeys(m), Claim(keys, EmbeddedKeys(m)).0;
    ClaimedAreNew(keys, wanted);
    var a, b, c := |m.flavorDimensions|, |m.productFlavors|, |m.buildTypes|;
    assert wanted[0..a] == KeysOf(m.path, DimensionKind, m.flavorDimensions, DimensionName);
    ClaimedKind(claimed, wanted, 0, m.path, DimensionKind, m.flavorDimensions, DimensionName);
    assert wanted[a..a + b] == KeysOf(m.path, FlavorKind, m.productFlavors, FlavorName);
    ClaimedKind(claimed, wanted, a, m.path, FlavorKind, m.productFlavors, FlavorName);
    assert wanted[a + b + c..] == KeysOf(m.path, VariantKind, m.variants, VariantName);
    ClaimedKind(claimed, wanted, a + b + c, m.path, VariantKind, m.variants, VariantName);
  }

  lemma ClaimsGrow(keys: set<ComponentKey>, more: set<ComponentKey>, path: string, m: AndroidModule)
    requires ModuleIsClaimed(keys, path, m) && keys <= more
    ensures ModuleIsClaimed(more, path, m)
  {
  }

  lemma ClaimOne<T>(keys: set<ComponentKey>, owner: string, kind: Kind, items: seq<T>, name: T -> string, x: T)
    requires KindIsClaimed(keys, owner, kind, items, name) && ComponentKey(owner, kind, name(x)) !in keys
    ensures KindIsClaimed(keys + {ComponentKey(owner, kind, name(x))}, owner, kind, items + [x], name)
  {
  }

  lemma ComponentIsClaimed(keys: set<ComponentKey>, path: string, m: AndroidModule, p: BridgePayload, key: ComponentKey)
    requires ModuleIsClaimed(keys, path, m) && key !in keys && key.owner == path == m.path
    requires || (p.DimensionRecord? && p.owner == path && key == ComponentKey(path, DimensionKind, p.dimension.name))
             || (p.FlavorRecord? && p.owner == path && key == ComponentKey(path, FlavorKind, p.flavor.name))
             || (p.VariantRecord? && p.owner == path && key == ComponentKey(path, VariantKind, p.variant.name))
    ensures ModuleIsClaimed(keys + {key}, path, Extend(m, p))
  {
    match p
    case DimensionRecord(_, d) => ClaimOne(keys, path, DimensionKind, m.flavorDimensions, DimensionName, d);
    case FlavorRecord(_, f) => ClaimOne(keys, path, FlavorKind, m.productFlavors, FlavorName, f);
    case VariantRecord(_, v) => ClaimOne(keys, path, VariantKind, m.variants, VariantName, v);
  }

  // The component that a record claims, if it is a component record.
  function KeyOf(p: BridgePayload): Option<ComponentKey> {
    match p
    case DimensionRecord(owner, d) => Some(ComponentKey(owner, DimensionKind, d.name))
    case FlavorRecord(owner, f) => Some(ComponentKey(owner, FlavorKind, f.name))
    case VariantRecord(owner, v) => Some(ComponentKey(owner, VariantKind, v.name))
    case _ => None
  }

  lemma ClaimedAfter(s: Assembly, p: BridgePayload)
    requires AcceptPayload(s, p).1.None?
    ensures s.componentKeys <= AcceptPayload(s, p).0.componentKeys
    ensures KeyOf(p).Some? ==> KeyOf(p).value !in s.componentKeys
                               && AcceptPayload(s, p).0.componentKeys == s.componentKeys + {KeyOf(p).value}
  {
    if p.ModuleRecord? { ClaimedAreNew(s.componentKeys, EmbeddedKeys(p.androidModule)); }
  }

  lemma KnownModuleStaysClaimed(s: Assembly, p: BridgePayload, path: string)
    requires AcceptPayload(s, p).1.None? && path in s.modules && s.modules[path].path == path
    requires ModuleIsClaimed(s.componentKeys, path, s.modules[path])
    ensures ModuleIsClaimed(AcceptPayload(s, p).0.componentKeys, path, Extend(s.modules[path], p))
  {
    ClaimedAfter(s, p);
    if KeyOf(p).Some? && KeyOf(p).value.owner == path {
      ComponentIsClaimed(s.componentKeys, path, s.modules[path], p, KeyOf(p).value);
    } else {
      ClaimsGrow(s.componentKeys, AcceptPayload(s, p).0.componentKeys, path, s.modules[path]);
    }
  }

  lemma ComponentsStayClaimed(s: Assembly, ps: seq<BridgePayload>, p: BridgePayload)
    requires ModulesAreTold(s, ps) && ComponentsAreClaimed(s) && AcceptPayload(s, p).1.None?
    ensures ComponentsAreClaimed(AcceptPayload(s, p).0)
  {
    var after := AcceptPayload(s, p).0;
    forall path | path in after.modules ensures ModuleIsClaimed(after.componentKeys, path, after.modules[path]) {
      if path in s.modules {
        var m :| ModuleRecord(m) in ps && m.path == path;
        assert s.modules[m.path] == Extended(m, ps);
        AcceptedExtends(s, p, path);
        KnownModuleStaysClaimed(s, p, path);
      } else {
        OnlyModulesAreAdded(s, p, path);
        EmbeddedAreClaimed(s.componentKeys, p.androidModule);
      }
    }
  }

  lemma PayloadKeepsTold(s: Assembly, ps: seq<BridgePayload>, p: BridgePayload)
    requires Told(s, ps) && AcceptPayload(s, p).1.None? && !p.CompleteRecord?
    ensures Told(AcceptPayload(s, p).0, ps + [p])
  {
    BuildStaysTold(s, ps, p);
    DiagnosticsStayTold(s, ps, p);
    IncludedStayTold(s, ps, p);
    TasksStayTold(s, ps, p);
    ModulesStayTold(s, ps, p);
    ComponentsStayOwned(s, ps, p);
    ComponentsStayClaimed(s, ps, p);
  }
}
