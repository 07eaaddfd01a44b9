/** What an assembled model holds and in which order, stated on the fields of its records. */
module ModelContents {
  import opened Wrappers
  import opened Sorting
  import opened Ordering
  import opened Collecting
  import opened BridgeProtocol
  import opened ModelAssembly
  import opened ModelCanonical
  import opened ModelOrder

  // ---------------------------------------------------------------------------------------------
  // Orders
  // ---------------------------------------------------------------------------------------------

  // By the declared number, then by name.
  predicate DimensionsInOrder(ds: seq<FlavorDimension>) {
    forall i, j :: 0 <= i < j < |ds| ==>
      ds[i].order < ds[j].order || (ds[i].order == ds[j].order && AtMost(ds[i].name, ds[j].name))
  }

  // By dimension, then by name.
  predicate FlavorsInOrder(fs: seq<ProductFlavor>) {
    forall i, j :: 0 <= i < j < |fs| ==>
      if fs[i].dimension == fs[j].dimension then AtMost(fs[i].name, fs[j].name)
      else AtMost(fs[i].dimension, fs[j].dimension)
  }

  predicate BuildTypesInOrder(bs: seq<BuildType>) {
    forall i, j :: 0 <= i < j < |bs| ==> AtMost(bs[i].name, bs[j].name)
  }

  predicate VariantsInOrder(vs: seq<Variant>) {
    forall i, j :: 0 <= i < j < |vs| ==> AtMost(vs[i].name, vs[j].name)
  }

  predicate VariantFlavorsInOrder(fs: seq<VariantFlavor>) {
    forall i, j :: 0 <= i < j < |fs| ==>
      if fs[i].dimension == fs[j].dimension then AtMost(fs[i].flavor, fs[j].flavor)
      else AtMost(fs[i].dimension, fs[j].dimension)
  }

  predicate ArtifactsInOrder(artifacts: seq<Artifact>) {
    forall i, j :: 0 <= i < j < |artifacts| ==> PathAtMost(artifacts[i].path, artifacts[j].path)
  }

  predicate TestComponentsInOrder(ts: seq<TestComponent>) {
    forall i, j :: 0 <= i < j < |ts| ==> AtMost(ts[i].name, ts[j].name)
  }

  predicate DiagnosticsInOrder(ds: seq<Diagnostic>) {
    forall i, j :: 0 <= i < j < |ds| ==> AtMost(ds[i].message, ds[j].message)
  }

  // ---------------------------------------------------------------------------------------------
  // Contents
  // ---------------------------------------------------------------------------------------------

  // The variant that was given, with its lists arranged.
  predicate IsArrangedVariant(v: Variant, given: Variant) {
    && v.name == given.name && v.details == given.details
    && multiset(v.flavors) == multiset(given.flavors) && VariantFlavorsInOrder(v.flavors)
    && multiset(v.artifacts) == multiset(given.artifacts) && ArtifactsInOrder(v.artifacts)
    && multiset(v.testComponents) == multiset(given.testComponents) && TestComponentsInOrder(v.testComponents)
  }

  // The variants that were given, each arranged.
  ghost predicate AreArrangedVariants(vs: seq<Variant>, given: seq<Variant>) {
    exists permuted :: multiset(permuted) == multiset(given) && ArrangesEach(vs, permuted)
  }

  predicate ArrangesEach(vs: seq<Variant>, given: seq<Variant>) {
    |vs| == |given| && forall i :: 0 <= i < |vs| ==> IsArrangedVariant(vs[i], given[i])
  }

  // The module of a record, with all components that other records of the stream give it.
  ghost predicate IsArrangedModule(m: AndroidModule, given: AndroidModule, ps: seq<BridgePayload>) {
    && m.path == given.path && m.details == given.details
    && multiset(m.flavorDimensions) == multiset(given.flavorDimensions + Collect(ps, DimensionsOf(given.path)))
    && DimensionsInOrder(m.flavorDimensions)
    && multiset(m.productFlavors) == multiset(given.productFlavors + Collect(ps, FlavorsOf(given.path)))
    && FlavorsInOrder(m.productFlavors)
    && multiset(m.buildTypes) == multiset(given.buildTypes) && BuildTypesInOrder(m.buildTypes)
    && AreArrangedVariants(m.variants, given.variants + Collect(ps, VariantsOf(given.path)))
    && VariantsInOrder(m.variants)
  }

  ghost predicate ModulesAreTheRecords(modules: seq<AndroidModule>, ps: seq<BridgePayload>) {
    && (forall i, j :: 0 <= i < j < |modules| ==>
          AtMost(modules[i].path, modules[j].path) && modules[i].path != modules[j].path)
    && (forall given :: ModuleRecord(given) in ps ==> exists m :: m in modules && IsArrangedModule(m, given, ps))
    && (forall m :: m in modules ==> exists given :: ModuleRecord(given) in ps && IsArrangedModule(m, given, ps))
  }

  ghost predicate IncludedAreTheRecords(included: seq<IncludedBuild>, ps: seq<BridgePayload>) {
    && (forall i, j :: 0 <= i < j < |included| ==>
          AtMost(included[i].id, included[j].id) && included[i].id != included[j].id)
    && (forall v :: v in included <==> IncludedBuildRecord(v) in ps)
  }

  ghost predicate TasksAreTheRecords(tasks: seq<GradleTask>, ps: seq<BridgePayload>) {
    && (forall i, j :: 0 <= i < j < |tasks| ==>
          AtMost(tasks[i].path, tasks[j].path) && tasks[i].path != tasks[j].path)
    && (forall t :: t in tasks <==> TaskRecord(t) in ps)
  }

  // ---------------------------------------------------------------------------------------------
  // Sorting puts in order
  // ---------------------------------------------------------------------------------------------

  lemma SortedByKey<T(!new)>(s: seq<T>, key: T -> Key)
    ensures var sorted := Sort(s, ByKey(key));
            && multiset(sorted) == multiset(s)
            && forall i, j :: 0 <= i < j < |sorted| ==> KeyAtMost(key(sorted[i]), key(sorted[j]))
  {
    ByKeyIsOrder(key);
    SortPermutes(s, ByKey(key));
    SortSorts(s, ByKey(key));
    var sorted := Sort(s, ByKey(key));
    forall i, j | 0 <= i < j < |sorted| ensures KeyAtMost(key(sorted[i]), key(sorted[j])) {
      assert ByKey(key)(sorted[i], sorted[j]);
    }
  }

  lemma SortedArtifacts(s: seq<Artifact>)
    ensures multiset(Sort(s, ArtifactOrder())) == multiset(s) && ArtifactsInOrder(Sort(s, ArtifactOrder()))
  {
    forall a: Artifact, b: Artifact ensures ArtifactOrder()(a, b) || ArtifactOrder()(b, a) {
      PathAtMostIsTotal(a.path, b.path);
    }
    forall a: Artifact, b: Artifact, c: Artifact | ArtifactOrder()(a, b) && ArtifactOrder()(b, c)
      ensures ArtifactOrder()(a, c)
    {
      PathAtMostIsTransitive(a.path, b.path, c.path);
    }
    SortPermutes(s, ArtifactOrder());
    SortSorts(s, ArtifactOrder());
    var sorted := Sort(s, ArtifactOrder());
    forall i, j | 0 <= i < j < |sorted| ensures PathAtMost(sorted[i].path, sorted[j].path) {
      assert ArtifactOrder()(sorted[i], sorted[j]);
    }
  }

  lemma SortedDimensions(given: seq<FlavorDimension>, ds: seq<FlavorDimension>)
    requires ds == Sort(given, ByKey(DimensionKey))
    ensures multiset(ds) == multiset(given) && DimensionsInOrder(ds)
  {
    SortedByKey(given, DimensionKey);
    forall i, j | 0 <= i < j < |ds|
      ensures ds[i].order < ds[j].order || (ds[i].order == ds[j].order && AtMost(ds[i].name, ds[j].name))
    {
      var a, b := ds[i], ds[j];
      assert KeyAtMost(DimensionKey(a), DimensionKey(b));
      AtMostIsTotal(a.name, a.name);
    }
  }

  lemma SortedFlavors(given: seq<ProductFlavor>, fs: seq<ProductFlavor>)
    requires fs == Sort(given, ByKey(FlavorKey))
    ensures multiset(fs) == multiset(given) && FlavorsInOrder(fs)
  {
    SortedByKey(given, FlavorKey);
    forall i, j | 0 <= i < j < |fs|
      ensures if fs[i].dimension == fs[j].dimension then AtMost(fs[i].name, fs[j].name)
              else AtMost(fs[i].dimension, fs[j].dimension)
    {
      var a, b := fs[i], fs[j];
      assert KeyAtMost(FlavorKey(a), FlavorKey(b));
    }
  }

  lemma SortedBuildTypes(given: seq<BuildType>, bs: seq<BuildType>)
    requires bs == Sort(given, ByKey(BuildTypeKey))
    ensures multiset(bs) == multiset(given) && BuildTypesInOrder(bs)
  {
    SortedByKey(given, BuildTypeKey);
    forall i, j | 0 <= i < j < |bs|
      ensures AtMost(bs[i].name, bs[j].name)
    {
      var a, b := bs[i], bs[j];
      assert KeyAtMost(BuildTypeKey(a), BuildTypeKey(b));
      AtMostIsTotal(a.name, a.name);
    }
  }

  lemma SortedVariantNames(given: seq<Variant>, vs: seq<Variant>)
    requires vs == Sort(given, ByKey(VariantKey))
    ensures multiset(vs) == multiset(given) && VariantsInOrder(vs)
  {
    SortedByKey(given, VariantKey);
    forall i, j | 0 <= i < j < |vs|
      ensures AtMost(vs[i].name, vs[j].name)
    {
      var a, b := vs[i], vs[j];
      assert KeyAtMost(VariantKey(a), VariantKey(b));
      AtMostIsTotal(a.name, a.name);
    }
  }

  lemma SortedVariantFlavors(given: seq<VariantFlavor>, fs: seq<VariantFlavor>)
    requires fs == Sort(given, ByKey(VariantFlavorKey))
    ensures multiset(fs) == multiset(given) && VariantFlavorsInOrder(fs)
  {
    SortedByKey(given, VariantFlavorKey);
    forall i, j | 0 <= i < j < |fs|
      ensures if fs[i].dimension == fs[j].dimension then AtMost(fs[i].flavor, fs[j].flavor)
              else AtMost(fs[i].dimension, fs[j].dimension)
    {
      var a, b := fs[i], fs[j];
      assert KeyAtMost(VariantFlavorKey(a), VariantFlavorKey(b));
    }
  }

  lemma SortedTestComponents(given: seq<TestComponent>, ts: seq<TestComponent>)
    requires ts == Sort(given, ByKey(TestComponentKey))
    ensures multiset(ts) == multiset(given) && TestComponentsInOrder(ts)
  {
    SortedByKey(given, TestComponentKey);
    forall i, j | 0 <= i < j < |ts|
      ensures AtMost(ts[i].name, ts[j].name)
    {
      var a, b := ts[i], ts[j];
      assert KeyAtMost(TestComponentKey(a), TestComponentKey(b));
      AtMostIsTotal(a.name, a.name);
    }
  }

  lemma SortedDiagnostics(given: seq<Diagnostic>, ds: seq<Diagnostic>)
    requires ds == Sort(given, ByKey(DiagnosticKey))
    ensures multiset(ds) == multiset(given) && DiagnosticsInOrder(ds)
  {
    SortedByKey(given, DiagnosticKey);
    forall i, j | 0 <= i < j < |ds|
      ensures AtMost(ds[i].message, ds[j].message)
    {
      var a, b := ds[i], ds[j];
      assert KeyAtMost(DiagnosticKey(a), DiagnosticKey(b));
      AtMostIsTotal(a.message, a.message);
    }
  }

  lemma VariantIsArranged(v: Variant)
    ensures IsArrangedVariant(SortedVariant(v), v)
  {
    var sorted := SortedVariant(v);
    SortedVariantFlavors(v.flavors, sorted.flavors);
    SortedArtifacts(v.artifacts);
    SortedTestComponents(v.testComponents, sorted.testComponents);
  }

  lemma VariantsAreArranged(given: seq<Variant>, permuted: seq<Variant>, vs: seq<Variant>)
    requires permuted == Sort(given, ByKey(VariantKey)) && vs == SortedVariants(given)
    ensures AreArrangedVariants(vs, given) && VariantsInOrder(vs)
  {
    SortedVariantNames(given, permuted);
    forall i | 0 <= i < |permuted|
      ensures vs[i] == SortedVariant(permuted[i]) && IsArrangedVariant(vs[i], permuted[i])
    {
      VariantIsArranged(permuted[i]);
    }
    assert ArrangesEach(vs, permuted);
  }

  lemma ModuleIsArranged(given: AndroidModule, ps: seq<BridgePayload>)
    ensures IsArrangedModule(SortedModule(Extended(given, ps)), given, ps)
  {
    var m := Extended(given, ps);
    var sorted := SortedModule(m);
    SortedDimensions(m.flavorDimensions, sorted.flavorDimensions);
    SortedFlavors(m.productFlavors, sorted.productFlavors);
    SortedBuildTypes(m.buildTypes, sorted.buildTypes);
    VariantsAreArranged(m.variants, Sort(m.variants, ByKey(VariantKey)), sorted.variants);
  }

  // ---------------------------------------------------------------------------------------------
  // The values of a map
  // ---------------------------------------------------------------------------------------------

  lemma ValuesOfMap<V(!new)>(m: map<string, V>)
    ensures var keys := KeysInOrder(m.Keys);
            && |Values(m)| == |keys|
            && forall i :: 0 <= i < |keys| ==> keys[i] in m && Values(m)[i] == m[keys[i]]
    ensures forall v :: v in Values(m) <==> exists k :: k in m && m[k] == v
  {
    var keys := KeysInOrder(m.Keys);
    KeysInOrderAreComplete(m.Keys);
    assert forall i :: 0 <= i < |keys| ==> keys[i] in keys;
    forall k | k in m ensures m[k] in Values(m) {
      assert k in keys;
      var i :| 0 <= i < |keys| && keys[i] == k;
      assert Values(m)[i] == m[k];
    }
  }

  lemma ModuleIsListed(s: Assembly, ps: seq<BridgePayload>, given: AndroidModule)
    requires ModulesAreTold(s, ps) && ModuleRecord(given) in ps
    ensures given.path in s.modules && IsArrangedModule(SortedModule(s.modules[given.path]), given, ps)
  {
    ModuleIsArranged(given, ps);
  }

  lemma ModuleIsGiven(s: Assembly, ps: seq<BridgePayload>, path: string) returns (given: AndroidModule)
    requires ModulesAreTold(s, ps) && path in s.modules
    ensures ModuleRecord(given) in ps && given.path == path
    ensures IsArrangedModule(SortedModule(s.modules[path]), given, ps)
  {
    given :| ModuleRecord(given) in ps && given.path == path;
    ModuleIsArranged(given, ps);
  }

  lemma PathsAreInOrder(keys: seq<string>, modules: seq<AndroidModule>)
    requires StrictlyOrdered(keys) && |modules| == |keys|
    requires forall i :: 0 <= i < |keys| ==> modules[i].path == keys[i]
    ensures forall i, j :: 0 <= i < j < |modules| ==>
              AtMost(modules[i].path, modules[j].path) && modules[i].path != modules[j].path
  {
  }

  lemma GivenIsListed(s: Assembly, ps: seq<BridgePayload>, sorted: map<string, AndroidModule>, given: AndroidModule)
    requires ModulesAreTold(s, ps) && sorted == SortedModules(s.modules) && ModuleRecord(given) in ps
    ensures exists m :: m in Values(sorted) && IsArrangedModule(m, given, ps)
  {
    ValuesOfMap(sorted);
    ModuleIsListed(s, ps, given);
    assert sorted[given.path] in Values(sorted);
  }

  lemma ListedIsGiven(s: Assembly, ps: seq<BridgePayload>, sorted: map<string, AndroidModule>, m: AndroidModule)
    requires ModulesAreTold(s, ps) && sorted == SortedModules(s.modules) && m in Values(sorted)
    ensures exists given :: ModuleRecord(given) in ps && IsArrangedModule(m, given, ps)
  {
    ValuesOfMap(sorted);
    var path :| path in sorted && sorted[path] == m;
    var given := ModuleIsGiven(s, ps, path);
  }

  lemma ModulesAreListed(s: Assembly, ps: seq<BridgePayload>, sorted: map<string, AndroidModule>)
    requires ModulesAreTold(s, ps) && sorted == SortedModules(s.modules)
    ensures ModulesAreTheRecords(Values(sorted), ps)
  {
    var keys, modules := KeysInOrder(sorted.Keys), Values(sorted);
    ValuesOfMap(sorted);
    KeysInOrderAreComplete(sorted.Keys);
    forall i | 0 <= i < |keys| ensures modules[i].path == keys[i] {
      var _ := ModuleIsGiven(s, ps, keys[i]);
    }
    PathsAreInOrder(keys, modules);
    forall given | ModuleRecord(given) in ps ensures exists m :: m in modules && IsArrangedModule(m, given, ps) {
      GivenIsListed(s, ps, sorted, given);
    }
    forall m | m in modules ensures exists given :: ModuleRecord(given) in ps && IsArrangedModule(m, given, ps) {
      ListedIsGiven(s, ps, sorted, m);
    }
  }

  lemma IncludedAreListed(s: Assembly, ps: seq<BridgePayload>)
    requires IncludedAreTold(s, ps)
    ensures IncludedAreTheRecords(Values(s.includedBuilds), ps)
  {
    ValuesOfMap(s.includedBuilds);
    KeysInOrderAreComplete(s.includedBuilds.Keys);
  }

  lemma TasksAreListed(s: Assembly, ps: seq<BridgePayload>)
    requires TasksAreTold(s, ps)
    ensures TasksAreTheRecords(Values(s.tasks), ps)
  {
    ValuesOfMap(s.tasks);
    KeysInOrderAreComplete(s.tasks.Keys);
  }

  lemma AssembledIsTold(parse: Parser, sha256: string -> string, lines: seq<string>) returns (s: Assembly)
    requires Assemble(parse, sha256, lines).Ok?
    ensures Told(s, Bodies(parse, lines)) && s.build.Some?
    ensures Assemble(parse, sha256, lines) == Ok(ModelOf(s, s.build.value))
  {
    s := AcceptLines(parse, EMPTY, lines).0;
    AcceptedIsTold(parse, lines);
  }

  ghost predicate HoldsTheRecords(model: ProjectModel, ps: seq<BridgePayload>) {
    && BuildRecord(model.build) in ps && model.root == model.build.root
    && IncludedAreTheRecords(model.includedBuilds, ps)
    && ModulesAreTheRecords(model.modules, ps)
    && TasksAreTheRecords(model.tasks, ps)
    && multiset(model.diagnostics) == multiset(Collect(ps, DiagnosticOf))
    && DiagnosticsInOrder(model.diagnostics)
  }

  lemma ToldIsHeld(s: Assembly, ps: seq<BridgePayload>)
    requires Told(s, ps) && s.build.Some?
    ensures HoldsTheRecords(ModelOf(s, s.build.value), ps)
  {
    IncludedAreListed(s, ps);
    ModulesAreListed(s, ps, SortedModules(s.modules));
    TasksAreListed(s, ps);
    SortedDiagnostics(s.diagnostics, Sort(s.diagnostics, ByKey(DiagnosticKey)));
  }

  /** Every model holds exactly what the records of its stream give, each list in the order of its fields. */
  lemma ModelsAreArranged(parse: Parser, sha256: string -> string, lines: seq<string>)
    requires Assemble(parse, sha256, lines).Ok?
    ensures HoldsTheRecords(Assemble(parse, sha256, lines).value, Bodies(parse, lines))
  {
    var s := AssembledIsTold(parse, sha256, lines);
    ToldIsHeld(s, Bodies(parse, lines));
  }
}
