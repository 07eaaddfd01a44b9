/** The records of the bridge protocol, and the validator that counts them. */
module BridgeProtocol {
  import opened Wrappers
  import opened Ordering

  const BRIDGE_PROTOCOL_VERSION: nat := 1

  /** What a record carries that assembly does not look at. */
  type Details = string

  datatype BuildInfo = BuildInfo(root: Path, agpVersion: Option<string>, details: Details)
  datatype IncludedBuild = IncludedBuild(id: string, root: Path, primary: bool)
  datatype FlavorDimension = FlavorDimension(name: string, order: nat)
  datatype ProductFlavor = ProductFlavor(name: string, dimension: string)
  datatype BuildType = BuildType(name: string, debuggable: Option<bool>)
  datatype VariantFlavor = VariantFlavor(dimension: string, flavor: string)
  datatype Artifact = Artifact(path: Path, details: Details)
  datatype TestComponent = TestComponent(name: string, details: Details)
  datatype Variant = Variant(
    name: string, flavors: seq<VariantFlavor>, artifacts: seq<Artifact>,
    testComponents: seq<TestComponent>, details: Details)
  datatype AndroidModule = AndroidModule(
    path: string, flavorDimensions: seq<FlavorDimension>, productFlavors: seq<ProductFlavor>,
    buildTypes: seq<BuildType>, variants: seq<Variant>, details: Details)
  datatype GradleTask = GradleTask(path: string, details: Details)
  datatype Diagnostic = Diagnostic(message: string, details: Details)

  datatype ProjectModel = ProjectModel(
    root: Path, build: BuildInfo, includedBuilds: seq<IncludedBuild>, modules: seq<AndroidModule>,
    tasks: seq<GradleTask>, diagnostics: seq<Diagnostic>)

  datatype BridgeComplete = BridgeComplete(durationMs: nat, recordCount: nat, modelHash: string)

  datatype BridgePayload =
    | BuildRecord(build: BuildInfo)
    | IncludedBuildRecord(includedBuild: IncludedBuild)
    | ModuleRecord(androidModule: AndroidModule)
    | DimensionRecord(owner: string, dimension: FlavorDimension)
    | FlavorRecord(owner: string, flavor: ProductFlavor)
    | VariantRecord(owner: string, variant: Variant)
    | TaskRecord(task: GradleTask)
    | DiagnosticRecord(diagnostic: Diagnostic)
    | ErrorRecord(code: string, message: string)
    | CompleteRecord(complete: BridgeComplete)

  datatype BridgeEnvelope = BridgeEnvelope(protocolVersion: nat, payload: BridgePayload)

  datatype ProtocolError =
    | InvalidJson
    | UnsupportedVersion(supported: nat, found: nat)
    | DuplicateCompletion
    | RecordAfterCompletion
    | RecordCountMismatch(expected: nat, actual: nat)
    | MissingCompletion

  // ---------------------------------------------------------------------------------------------
  // The validator
  // ---------------------------------------------------------------------------------------------

  datatype Validation = Validation(recordCount: nat, completion: Option<BridgeComplete>)

  const UNSTARTED: Validation := Validation(0, None)

  function Check(v: Validation, record: BridgeEnvelope): (Validation, Option<ProtocolError>) {
    if record.protocolVersion != BRIDGE_PROTOCOL_VERSION then
      (v, Some(UnsupportedVersion(BRIDGE_PROTOCOL_VERSION, record.protocolVersion)))
    else if v.completion.Some? then
      (v, Some(if record.payload.CompleteRecord? then DuplicateCompletion else RecordAfterCompletion))
    else if record.payload.CompleteRecord? then
      var complete := record.payload.complete;
      if complete.recordCount != v.recordCount then (v, Some(RecordCountMismatch(complete.recordCount, v.recordCount)))
      else (v.(completion := Some(complete)), None)
    else (v.(recordCount := v.recordCount + 1), None)
  }

  // Checks records until one is refused.
  function CheckAll(v: Validation, records: seq<BridgeEnvelope>): (Validation, Option<ProtocolError>)
    decreases |records|
  {
    if records == [] then (v, None)
    else
      var (next, error) := Check(v, records[0]);
      if error.Some? then (next, error) else CheckAll(next, records[1..])
  }

  // Records of this version, of which none completes the stream.
  predicate IsBody(records: seq<BridgeEnvelope>) {
    forall i :: 0 <= i < |records| ==>
      records[i].protocolVersion == BRIDGE_PROTOCOL_VERSION && !records[i].payload.CompleteRecord?
  }

  // A body followed by one completion that counts it.
  predicate IsCompleteStream(records: seq<BridgeEnvelope>) {
    && records != [] && IsBody(records[..|records| - 1])
    && var last := records[|records| - 1];
       && last.protocolVersion == BRIDGE_PROTOCOL_VERSION
       && last.payload.CompleteRecord?
       && last.payload.complete.recordCount == |records| - 1
  }

  lemma {:induction false} CheckConcat(v: Validation, a: seq<BridgeEnvelope>, b: seq<BridgeEnvelope>)
    ensures CheckAll(v, a + b) == (if CheckAll(v, a).1.Some? then CheckAll(v, a) else CheckAll(CheckAll(v, a).0, b))
    decreases |a|
  {
    if a == [] {
      assert a + b == b;
    } else {
      assert (a + b)[1..] == a[1..] + b;
      CheckConcat(Check(v, a[0]).0, a[1..], b);
    }
  }

  /** A stream ends accepted with a completion exactly when it is a body and one completion that counts it. */
  lemma {:induction false} AcceptedExactlyWhenComplete(records: seq<BridgeEnvelope>)
    ensures var (v, error) := CheckAll(UNSTARTED, records);
            && (error.None? && v.completion.Some? <==> IsCompleteStream(records))
            && (error.None? && v.completion.None? <==> IsBody(records))
            && (error.None? && v.completion.None? ==> v.recordCount == |records|)
            && (error.None? && v.completion.Some? ==>
                v == Validation(|records| - 1, Some(records[|records| - 1].payload.complete)))
  {
    if records != [] {
      var front, last := records[..|records| - 1], records[|records| - 1];
      assert records == front + [last];
      AcceptedExactlyWhenComplete(front);
      CheckConcat(UNSTARTED, front, [last]);
      CheckOne(CheckAll(UNSTARTED, front).0, last);
      assert IsBody(records) <==> IsBody(front) && IsBody([last]);
    }
  }

  lemma CheckOne(v: Validation, record: BridgeEnvelope)
    ensures CheckAll(v, [record]) == Check(v, record)
  {
    assert [record][1..] == [];
    assert CheckAll(Check(v, record).0, []) == (Check(v, record).0, None);
  }

  // Why the record behind `before` is refused.
  predicate Explains(before: seq<BridgeEnvelope>, record: BridgeEnvelope, error: ProtocolError) {
    if record.protocolVersion != 1 then error == UnsupportedVersion(1, record.protocolVersion)
    else if IsCompleteStream(before) then
      error == if record.payload.CompleteRecord? then DuplicateCompletion else RecordAfterCompletion
    else
      && IsBody(before) && record.payload.CompleteRecord? && record.payload.complete.recordCount != |before|
      && error == RecordCountMismatch(record.payload.complete.recordCount, |before|)
  }

  /** The first record that does not fit is refused, with the reason. */
  lemma {:induction false} RefusedByTheFirst(records: seq<BridgeEnvelope>) returns (k: nat)
    requires CheckAll(UNSTARTED, records).1.Some?
    ensures k < |records| && (IsBody(records[..k]) || IsCompleteStream(records[..k]))
    ensures Explains(records[..k], records[k], CheckAll(UNSTARTED, records).1.value)
  {
    var front, last := records[..|records| - 1], records[|records| - 1];
    assert records == front + [last];
    CheckConcat(UNSTARTED, front, [last]);
    if CheckAll(UNSTARTED, front).1.Some? {
      k := RefusedByTheFirst(front);
      assert records[..k] == front[..k];
    } else {
      k := |front|;
      CheckOne(CheckAll(UNSTARTED, front).0, last);
      AcceptedExactlyWhenComplete(front);
    }
  }

  class BridgeStreamValidator {
    var recordCount: nat
    var completion: Option<BridgeComplete>

    function State(): Validation
      reads this
    {
      Validation(recordCount, completion)
    }

    constructor ()
      ensures State() == UNSTARTED
    {
      recordCount, completion := 0, None;
    }

    method Accept(record: BridgeEnvelope) returns (error: Option<ProtocolError>)
      modifies this
      ensures (State(), error) == Check(old(State()), record)
    {
      if record.protocolVersion != BRIDGE_PROTOCOL_VERSION {
        return Some(UnsupportedVersion(BRIDGE_PROTOCOL_VERSION, record.protocolVersion));
      }
      if completion.Some? {
        return Some(if record.payload.CompleteRecord? then DuplicateCompletion else RecordAfterCompletion);
      }
      match record.payload
      case CompleteRecord(complete) =>
        if complete.recordCount != recordCount {
          return Some(RecordCountMismatch(complete.recordCount, recordCount));
        }
        completion := Some(complete);
        return None;
      case _ =>
        recordCount := recordCount + 1;
        return None;
    }

    method Finish() returns (r: Result<BridgeComplete, ProtocolError>)
      ensures r == if completion.Some? then Ok(completion.value) else Err(MissingCompletion)
    {
      match completion
      case Some(complete) => return Ok(complete);
      case None => return Err(MissingCompletion);
    }
  }
}
