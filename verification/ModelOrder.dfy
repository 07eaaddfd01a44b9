/** Streams that carry the same records in different orders assemble to one model. */
module ModelOrder {
  import opened Wrappers
  import opened Ordering
  import opened Collecting
  import opened BridgeProtocol
  import opened ModelAssembly
  import opened ModelCanonical

  type Parser = string -> Option<BridgeEnvelope>

  // The payload of a line that is a record of the model and not a completion.
  function BodyOf(parse: Parser): string -> Option<BridgePayload> {
    (line: string) =>
      var record := parse(line);
      if record.Some? && !record.value.payload.CompleteRecord? then Some(record.value.payload) else None
  }

  function Bodies(parse: Parser, lines: seq<string>): seq<BridgePayload> {
    Collect(lines, BodyOf(parse))
  }

  lemma ToldIgnoresTheStream(s: Assembly, ps: seq<BridgePayload>, validation: Validation, hashed: string)
    requires Told(s, ps)
    ensures Told(s.(validation := validation, hashed := hashed), ps)
  {
  }

  lemma BodyOfLine(parse: Parser, line: string)
    ensures Bodies(parse, [line]) == if BodyOf(parse)(line).Some? then [BodyOf(parse)(line).value] else []
  {
    assert [line] == [] + [line];
    CollectAppend([], line, BodyOf(parse));
  }

  lemma LineKeepsTold(parse: Parser, s: Assembly, ps: seq<BridgePayload>, line: string)
    requires Told(s, ps) && AcceptLine(parse, s, line).1.None?
    ensures Told(AcceptLine(parse, s, line).0, ps + Bodies(parse, [line]))
  {
    var record := parse(line).value;
    var validation := Check(s.validation, record).0;
    BodyOfLine(parse, line);
    if record.payload.CompleteRecord? {
      assert ps + [] == ps;
      ToldIgnoresTheStream(s, ps, validation, s.hashed);
    } else {
      var hashed := s.(validation := validation, hashed := s.hashed + line + "\n");
      ToldIgnoresTheStream(s, ps, validation, s.hashed + line + "\n");
      assert AcceptLine(parse, s, line) == AcceptPayload(hashed, record.payload);
      PayloadKeepsTold(hashed, ps, record.payload);
    }
  }

  lemma Associative<A>(a: seq<A>, b: seq<A>, c: seq<A>)
    ensures a + b + c == a + (b + c)
  {
  }

  lemma {:induction false} LinesKeepTold(parse: Parser, s: Assembly, ps: seq<BridgePayload>, lines: seq<string>)
    requires Told(s, ps) && AcceptLines(parse, s, lines).1.None?
    ensures Told(AcceptLines(parse, s, lines).0, ps + Bodies(parse, lines))
    decreases |lines|
  {
    if lines == [] {
      assert ps + [] == ps;
    } else {
      var first := Bodies(parse, [lines[0]]);
      LineKeepsTold(parse, s, ps, lines[0]);
      LinesKeepTold(parse, AcceptLine(parse, s, lines[0]).0, ps + first, lines[1..]);
      assert lines == [lines[0]] + lines[1..];
      CollectConcat([lines[0]], lines[1..], BodyOf(parse));
      Associative(ps, first, Bodies(parse, lines[1..]));
    }
  }

  lemma NothingIsTold()
    ensures Told(EMPTY, [])
  {
  }

  lemma AcceptedIsTold(parse: Parser, lines: seq<string>)
    requires AcceptLines(parse, EMPTY, lines).1.None?
    ensures Told(AcceptLines(parse, EMPTY, lines).0, Bodies(parse, lines))
  {
    NothingIsTold();
    LinesKeepTold(parse, EMPTY, [], lines);
    assert [] + Bodies(parse, lines) == Bodies(parse, lines);
  }

  // ---------------------------------------------------------------------------------------------
  // Two states told by permutations of one body
  // ---------------------------------------------------------------------------------------------

  lemma SameMembers<A>(a: seq<A>, b: seq<A>)
    requires multiset(a) == multiset(b)
    ensures forall x :: x in a <==> x in b
  {
    forall x ensures x in a <==> x in b { assert x in a <==> x in multiset(a); }
  }

  lemma BuildsAgree(s: Assembly, t: Assembly, ps: seq<BridgePayload>, qs: seq<BridgePayload>)
    requires BuildIsTold(s, ps) && BuildIsTold(t, qs) && multiset(ps) == multiset(qs)
    ensures s.build == t.build
  {
    SameMembers(ps, qs);
    if s.build.Some? { assert BuildRecord(s.build.value) in qs; }
    if t.build.Some? { assert BuildRecord(t.build.value) in ps; }
  }

  lemma IncludedAgree(s: Assembly, t: Assembly, ps: seq<BridgePayload>, qs: seq<BridgePayload>)
    requires IncludedAreTold(s, ps) && IncludedAreTold(t, qs) && multiset(ps) == multiset(qs)
    ensures s.includedBuilds == t.includedBuilds
  {
    SameMembers(ps, qs);
    forall id | id in s.includedBuilds ensures id in t.includedBuilds && t.includedBuilds[id] == s.includedBuilds[id] {
      assert IncludedBuildRecord(s.includedBuilds[id]) in qs;
    }
    forall id | id in t.includedBuilds ensures id in s.includedBuilds {
      assert IncludedBuildRecord(t.includedBuilds[id]) in ps;
    }
  }

  lemma TasksAgree(s: Assembly, t: Assembly, ps: seq<BridgePayload>, qs: seq<BridgePayload>)
    requires TasksAreTold(s, ps) && TasksAreTold(t, qs) && multiset(ps) == multiset(qs)
    ensures s.tasks == t.tasks
  {
    SameMembers(ps, qs);
    forall path | path in s.tasks ensures path in t.tasks && t.tasks[path] == s.tasks[path] {
      assert TaskRecord(s.tasks[path]) in qs;
    }
    forall path | path in t.tasks ensures path in s.tasks {
      assert TaskRecord(t.tasks[path]) in ps;
    }
  }

  lemma PrefixedPermutes<A>(prefix: seq<A>, a: seq<A>, b: seq<A>)
    requires multiset(a) == multiset(b)
    ensures multiset(prefix + a) == multiset(prefix + b)
  {
  }

  lemma SortedModuleAgrees(m: AndroidModule, ps: seq<BridgePayload>, qs: seq<BridgePayload>, keys: set<ComponentKey>)
    requires multiset(ps) == multiset(qs) && ModuleIsClaimed(keys, m.path, Extended(m, ps))
    ensures SortedModule(Extended(m, ps)) == SortedModule(Extended(m, qs))
  {
    var a, b := Extended(m, ps), Extended(m, qs);
    CollectPermutes(ps, qs, DimensionsOf(m.path));
    PrefixedPermutes(m.flavorDimensions, Collect(ps, DimensionsOf(m.path)), Collect(qs, DimensionsOf(m.path)));
    SortByKeyCanonicalises(a.flavorDimensions, b.flavorDimensions, DimensionKey, DimensionName);
    CollectPermutes(ps, qs, FlavorsOf(m.path));
    PrefixedPermutes(m.productFlavors, Collect(ps, FlavorsOf(m.path)), Collect(qs, FlavorsOf(m.path)));
    SortByKeyCanonicalises(a.productFlavors, b.productFlavors, FlavorKey, FlavorName);
    CollectPermutes(ps, qs, VariantsOf(m.path));
    PrefixedPermutes(m.variants, Collect(ps, VariantsOf(m.path)), Collect(qs, VariantsOf(m.path)));
    SortByKeyCanonicalises(a.variants, b.variants, VariantKey, VariantName);
  }

  // A module of one state stems from a record that both streams carry.
  lemma ModuleAgrees(s: Assembly, t: Assembly, ps: seq<BridgePayload>, qs: seq<BridgePayload>, path: string)
    returns (m: AndroidModule)
    requires ModulesAreTold(s, ps) && ModulesAreTold(t, qs) && multiset(ps) == multiset(qs) && path in s.modules
    ensures m.path == path && s.modules[path] == Extended(m, ps)
    ensures path in t.modules && t.modules[path] == Extended(m, qs)
  {
    SameMembers(ps, qs);
    m :| ModuleRecord(m) in ps && m.path == path;
    assert ModuleRecord(m) in qs;
  }

  lemma ModuleIsToldElsewhere(s: Assembly, t: Assembly, ps: seq<BridgePayload>, qs: seq<BridgePayload>, path: string)
    requires ModulesAreTold(s, ps) && ModulesAreTold(t, qs) && multiset(ps) == multiset(qs)
    ensures path in s.modules ==> path in t.modules
  {
    if path in s.modules {
      var _ := ModuleAgrees(s, t, ps, qs, path);
    }
  }

  lemma ModuleSortsAlike(s: Assembly, t: Assembly, ps: seq<BridgePayload>, qs: seq<BridgePayload>, path: string)
    requires ModulesAreTold(s, ps) && ModulesAreTold(t, qs) && ComponentsAreClaimed(s) && multiset(ps) == multiset(qs)
    ensures path in SortedModules(s.modules) <==> path in SortedModules(t.modules)
    ensures path in SortedModules(s.modules) ==> SortedModules(s.modules)[path] == SortedModules(t.modules)[path]
  {
    ModuleIsToldElsewhere(t, s, qs, ps, path);
    if path in s.modules {
      var m := ModuleAgrees(s, t, ps, qs, path);
      assert ModuleIsClaimed(s.componentKeys, path, s.modules[path]);
      SortedModuleAgrees(m, ps, qs, s.componentKeys);
    }
  }

  lemma SameMap<K, V>(a: map<K, V>, b: map<K, V>)
    requires forall k :: k in a <==> k in b
    requires forall k :: k in a && k in b ==> a[k] == b[k]
    ensures a == b
  {
  }

  lemma ModulesAgree(s: Assembly, t: Assembly, ps: seq<BridgePayload>, qs: seq<BridgePayload>)
    requires ModulesAreTold(s, ps) && ModulesAreTold(t, qs) && ComponentsAreClaimed(s) && multiset(ps) == multiset(qs)
    ensures SortedModules(s.modules) == SortedModules(t.modules)
  {
    var a, b := SortedModules(s.modules), SortedModules(t.modules);
    forall path
      ensures path in a <==> path in b
      ensures path in a ==> a[path] == b[path]
    {
      ModuleSortsAlike(s, t, ps, qs, path);
    }
    SameMap(a, b);
  }

  // ---------------------------------------------------------------------------------------------
  // Two streams
  // ---------------------------------------------------------------------------------------------

  function DiagnosticSaying(message: string): BridgePayload -> Option<Diagnostic> {
    (p: BridgePayload) => if p.DiagnosticRecord? && p.diagnostic.message == message then Some(p.diagnostic) else None
  }

  // The diagnostics of each message arrive in the same order in both streams.
  ghost predicate SameArrivalOrder(ps: seq<BridgePayload>, qs: seq<BridgePayload>) {
    forall message :: Collect(ps, DiagnosticSaying(message)) == Collect(qs, DiagnosticSaying(message))
  }

  lemma PicksAgree(p: BridgePayload, k: Key)
    ensures Through(DiagnosticOf, WithKey(DiagnosticKey, k))(p) ==
            if k.order == 0 && k.second == "" then DiagnosticSaying(k.first)(p) else None
  {
    if p.DiagnosticRecord? {
      var d := p.diagnostic;
      assert DiagnosticOf(p) == Some(d) && DiagnosticKey(d) == Key(0, d.message, "");
      assert k == Key(k.order, k.first, k.second);
      assert WithKey(DiagnosticKey, k)(d) == if DiagnosticKey(d) == k then Some(d) else None;
    } else {
      assert DiagnosticOf(p).None?;
    }
  }

  lemma DiagnosticsOfKey(ps: seq<BridgePayload>, k: Key)
    ensures Collect(Collect(ps, DiagnosticOf), WithKey(DiagnosticKey, k)) ==
            if k.order == 0 && k.second == "" then Collect(ps, DiagnosticSaying(k.first)) else []
  {
    var pick := Through(DiagnosticOf, WithKey(DiagnosticKey, k));
    CollectThrough(ps, DiagnosticOf, WithKey(DiagnosticKey, k));
    forall p ensures pick(p) == if k.order == 0 && k.second == "" then DiagnosticSaying(k.first)(p) else None {
      PicksAgree(p, k);
    }
    if k.order == 0 && k.second == "" {
      CollectAgrees(ps, pick, DiagnosticSaying(k.first));
    } else {
      CollectNothing(ps, pick);
    }
  }

  lemma ArrivalOrderIsOrderPerKey(ps: seq<BridgePayload>, qs: seq<BridgePayload>)
    ensures SameArrivalOrder(ps, qs)
         <==> SameOrderPerKey(Collect(ps, DiagnosticOf), Collect(qs, DiagnosticOf), DiagnosticKey)
  {
    var ds, es := Collect(ps, DiagnosticOf), Collect(qs, DiagnosticOf);
    forall k ensures Collect(ds, WithKey(DiagnosticKey, k)) == Collect(es, WithKey(DiagnosticKey, k)) <==>
                     (k.order == 0 && k.second == "" ==>
                        Collect(ps, DiagnosticSaying(k.first)) == Collect(qs, DiagnosticSaying(k.first))) {
      DiagnosticsOfKey(ps, k);
      DiagnosticsOfKey(qs, k);
    }
    if SameOrderPerKey(ds, es, DiagnosticKey) {
      forall message ensures Collect(ps, DiagnosticSaying(message)) == Collect(qs, DiagnosticSaying(message)) {
        var k := Key(0, message, "");
        assert Collect(ds, WithKey(DiagnosticKey, k)) == Collect(es, WithKey(DiagnosticKey, k));
      }
    }
  }

  /**
   * Accepted streams that permute the same records assemble to one model exactly when equal messages arrive in the same
   * order.
   */
  lemma SameModelExactly(parse: Parser, sha256: string -> string, a: seq<string>, b: seq<string>)
    requires Assemble(parse, sha256, a).Ok? && Assemble(parse, sha256, b).Ok?
    requires multiset(Bodies(parse, a)) == multiset(Bodies(parse, b))
    ensures Assemble(parse, sha256, a) == Assemble(parse, sha256, b)
         <==> SameArrivalOrder(Bodies(parse, a), Bodies(parse, b))
  {
    var s, t := AcceptLines(parse, EMPTY, a).0, AcceptLines(parse, EMPTY, b).0;
    var ps, qs := Bodies(parse, a), Bodies(parse, b);
    AcceptedIsTold(parse, a);
    AcceptedIsTold(parse, b);
    StatesAgree(s, t, ps, qs);
    ArrivalOrderIsOrderPerKey(ps, qs);
    SortsAlikeExactly(s.diagnostics, t.diagnostics, DiagnosticKey);
    assert Assemble(parse, sha256, a).value == ModelOf(s, s.build.value);
    assert Assemble(parse, sha256, b).value == ModelOf(t, t.build.value);
  }

  // Everything but the diagnostics.
  lemma StatesAgree(s: Assembly, t: Assembly, ps: seq<BridgePayload>, qs: seq<BridgePayload>)
    requires Told(s, ps) && Told(t, qs) && multiset(ps) == multiset(qs)
    ensures s.build == t.build && s.includedBuilds == t.includedBuilds && s.tasks == t.tasks
    ensures SortedModules(s.modules) == SortedModules(t.modules)
    ensures s.diagnostics == Collect(ps, DiagnosticOf) && t.diagnostics == Collect(qs, DiagnosticOf)
  {
    BuildsAgree(s, t, ps, qs);
    IncludedAgree(s, t, ps, qs);
    TasksAgree(s, t, ps, qs);
    ModulesAgree(s, t, ps, qs);
  }

  /** In particular, when no two diagnostics have the same message. */
  lemma OrderDoesNotMatter(parse: Parser, sha256: string -> string, a: seq<string>, b: seq<string>)
    requires Assemble(parse, sha256, a).Ok? && Assemble(parse, sha256, b).Ok?
    requires multiset(Bodies(parse, a)) == multiset(Bodies(parse, b))
    requires NamesAreDistinct(Collect(Bodies(parse, a), DiagnosticOf), DiagnosticMessage)
    ensures Assemble(parse, sha256, a) == Assemble(parse, sha256, b)
  {
    var ds, es := Collect(Bodies(parse, a), DiagnosticOf), Collect(Bodies(parse, b), DiagnosticOf);
    CollectPermutes(Bodies(parse, a), Bodies(parse, b), DiagnosticOf);
    SortByKeyCanonicalises(ds, es, DiagnosticKey, DiagnosticMessage);
    SortsAlikeExactly(ds, es, DiagnosticKey);
    ArrivalOrderIsOrderPerKey(Bodies(parse, a), Bodies(parse, b));
    SameModelExactly(parse, sha256, a, b);
  }
}
