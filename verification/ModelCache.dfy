/** Fingerprints of the files a project model depends on, computed incrementally. */
module ModelCaches {
  import opened Wrappers
  import opened Bytes
  import opened Sorting
  import opened Ordering
  import opened Collecting

  const CACHE_SCHEMA_VERSION: nat := 1

  type Digest = string

  /** A file as the program sees it; a file that cannot be read has no content. */
  datatype File = File(size: nat, modifiedMs: nat, content: Option<seq<Byte>>)
  type Disk = map<Path, File>

  datatype ModelInput = ModelInput(path: Path, size: nat, modifiedMs: nat, sha256: Digest)

  datatype ModelFingerprint = ModelFingerprint(
    schemaVersion: nat, bridgeVersion: string, modelHash: Digest, inputs: seq<ModelInput>)

  datatype IoError = Missing(path: Path) | Unreadable(path: Path)

  /** The hash of a file's bytes. */
  datatype Host = Host(sha256: seq<Byte> -> Digest)

  function InputOrder(): (ModelInput, ModelInput) -> bool {
    (a: ModelInput, b: ModelInput) => PathAtMost(a.path, b.path)
  }

  predicate SameFile(input: ModelInput, path: Path, file: File) {
    input.path == path && input.size == file.size && input.modifiedMs == file.modifiedMs
  }

  function FindInput(inputs: seq<ModelInput>, path: Path, file: File): (r: Option<ModelInput>)
    ensures r.Some? ==> r.value in inputs && SameFile(r.value, path, file)
  {
    if inputs == [] then None
    else if SameFile(inputs[0], path, file) then Some(inputs[0])
    else FindInput(inputs[1..], path, file)
  }

  function PreviousInputs(previous: Option<ModelFingerprint>): seq<ModelInput> {
    if previous.Some? then previous.value.inputs else []
  }

  // One file: an earlier hash is reused when path, size and time agree; otherwise the bytes are read.
  function InputOf(host: Host, disk: Disk, known: seq<ModelInput>, path: Path): Result<ModelInput, IoError> {
    if path !in disk then Err(Missing(path))
    else
      var file := disk[path];
      var earlier := FindInput(known, path, file);
      if earlier.Some? then Ok(ModelInput(path, file.size, file.modifiedMs, earlier.value.sha256))
      else if file.content.None? then Err(Unreadable(path))
      else Ok(ModelInput(path, file.size, file.modifiedMs, host.sha256(file.content.value)))
  }

  function InputsOf(host: Host, disk: Disk, known: seq<ModelInput>,
                    paths: seq<Path>): Result<seq<ModelInput>, IoError>
  {
    if paths == [] then Ok([])
    else
      var front := InputsOf(host, disk, known, paths[..|paths| - 1]);
      if front.Err? then front
      else
        var last := InputOf(host, disk, known, paths[|paths| - 1]);
        if last.Err? then Err(last.error) else Ok(front.value + [last.value])
  }

  function Fingerprint(host: Host, disk: Disk, paths: seq<Path>, previous: Option<ModelFingerprint>)
    : Result<ModelFingerprint, IoError>
  {
    var inputs := InputsOf(host, disk, PreviousInputs(previous), paths);
    if inputs.Err? then Err(inputs.error)
    else
      var (version, hash) :=
        if previous.Some? then (previous.value.bridgeVersion, previous.value.modelHash) else ("", "");
      Ok(ModelFingerprint(CACHE_SCHEMA_VERSION, version, hash, Sort(inputs.value, InputOrder())))
  }

  function FingerprintForModel(host: Host, disk: Disk, paths: seq<Path>, previous: Option<ModelFingerprint>,
                               bridgeVersion: string, modelHash: Digest): Result<ModelFingerprint, IoError>
  {
    var value := Fingerprint(host, disk, paths, previous);
    if value.Err? then value else Ok(value.value.(bridgeVersion := bridgeVersion, modelHash := modelHash))
  }

  /** The computation as the program does it, one path after the other. */
  method ComputeFingerprint(host: Host, disk: Disk, paths: seq<Path>, previous: Option<ModelFingerprint>)
    returns (r: Result<ModelFingerprint, IoError>)
    ensures r == Fingerprint(host, disk, paths, previous)
  {
    var inputs: seq<ModelInput> := [];
    for i := 0 to |paths|
      invariant InputsOf(host, disk, PreviousInputs(previous), paths[..i]) == Ok(inputs)
    {
      var path := paths[i];
      assert paths[..i + 1][..i] == paths[..i];
      var input := InputOf(host, disk, PreviousInputs(previous), path);
      if input.Err? {
        FirstErrorIsFinal(host, disk, PreviousInputs(previous), paths, i + 1);
        return Err(input.error);
      }
      inputs := inputs + [input.value];
    }
    assert paths[..|paths|] == paths;
    var (version, hash) :=
      if previous.Some? then (previous.value.bridgeVersion, previous.value.modelHash) else ("", "");
    r := Ok(ModelFingerprint(CACHE_SCHEMA_VERSION, version, hash, Sort(inputs, InputOrder())));
  }

  lemma {:induction false} FirstErrorIsFinal(host: Host, disk: Disk, known: seq<ModelInput>, paths: seq<Path>, k: nat)
    requires k <= |paths| && InputsOf(host, disk, known, paths[..k]).Err?
    ensures InputsOf(host, disk, known, paths) == InputsOf(host, disk, known, paths[..k])
  {
    if k == |paths| {
      assert paths[..k] == paths;
    } else {
      var front := paths[..|paths| - 1];
      assert front[..k] == paths[..k];
      FirstErrorIsFinal(host, disk, known, front, k);
    }
  }

  // ---------------------------------------------------------------------------------------------
  // Incremental equals from scratch
  // ---------------------------------------------------------------------------------------------

  /** What a file of this size and time at this path contains, whenever it is looked at. */
  type Contents = (Path, nat, nat) -> seq<Byte>

  // The assumption the incremental form rests on: path, size and time determine the content.
  ghost predicate Determined(contents: Contents, disk: Disk) {
    forall path :: path in disk && disk[path].content.Some? ==>
      disk[path].content.value == contents(path, disk[path].size, disk[path].modifiedMs)
  }

  predicate HonestInput(host: Host, contents: Contents, input: ModelInput) {
    input.sha256 == host.sha256(contents(input.path, input.size, input.modifiedMs))
  }

  // Every recorded hash is the hash of the content that was there.
  predicate Honest(host: Host, contents: Contents, inputs: seq<ModelInput>) {
    forall i :: 0 <= i < |inputs| ==> HonestInput(host, contents, inputs[i])
  }

  // The first input that was recorded for this path with this size and this time.
  predicate IsFirstKnown(known: seq<ModelInput>, path: Path, file: File, j: nat) {
    && j < |known| && known[j].path == path && known[j].size == file.size && known[j].modifiedMs == file.modifiedMs
    && forall i :: 0 <= i < j && known[i].path == path ==>
         known[i].size != file.size || known[i].modifiedMs != file.modifiedMs
  }

  ghost predicate IsKnown(known: seq<ModelInput>, path: Path, file: File) {
    exists j: nat :: IsFirstKnown(known, path, file, j)
  }

  lemma {:induction false} FindsTheFirst(known: seq<ModelInput>, path: Path, file: File)
    ensures FindInput(known, path, file).Some? <==> IsKnown(known, path, file)
    ensures forall j: nat :: IsFirstKnown(known, path, file, j) ==> FindInput(known, path, file) == Some(known[j])
  {
    if known != [] {
      var rest := known[1..];
      FindsTheFirst(rest, path, file);
      if SameFile(known[0], path, file) {
        assert IsFirstKnown(known, path, file, 0);
      } else {
        forall j: nat | IsFirstKnown(known, path, file, j) ensures j > 0 && IsFirstKnown(rest, path, file, j - 1) {
          assert forall i :: 0 <= i < j - 1 ==> rest[i] == known[i + 1];
        }
        forall j: nat | IsFirstKnown(rest, path, file, j) ensures IsFirstKnown(known, path, file, j + 1) {
          assert forall i :: 1 <= i < j + 1 ==> known[i] == rest[i - 1];
        }
      }
    }
  }

  // A file that is there, and is either known unchanged or can be read.
  ghost predicate IsAvailable(disk: Disk, known: seq<ModelInput>, path: Path) {
    path in disk && (disk[path].content.Some? || IsKnown(known, path, disk[path]))
  }

  lemma OneFailsExactly(host: Host, disk: Disk, known: seq<ModelInput>, path: Path)
    ensures InputOf(host, disk, known, path).Err? <==> !IsAvailable(disk, known, path)
    ensures !IsAvailable(disk, known, path) ==>
              InputOf(host, disk, known, path) == Err(if path in disk then Unreadable(path) else Missing(path))
  {
    if path in disk { FindsTheFirst(known, path, disk[path]); }
  }

  /** It fails exactly when a file is missing, or is new or changed and cannot be read. */
  lemma {:induction false} FailsExactlyWhenUnavailable(host: Host, disk: Disk, known: seq<ModelInput>, paths: seq<Path>)
    ensures InputsOf(host, disk, known, paths).Err? <==>
              exists i :: 0 <= i < |paths| && !IsAvailable(disk, known, paths[i])
  {
    if paths != [] {
      var front, last := paths[..|paths| - 1], paths[|paths| - 1];
      FailsExactlyWhenUnavailable(host, disk, known, front);
      OneFailsExactly(host, disk, known, last);
      assert forall i :: 0 <= i < |front| ==> front[i] == paths[i];
    }
  }

  /** The error is about the first such file. */
  lemma {:induction false} FirstFailureIsReported(host: Host, disk: Disk, known: seq<ModelInput>, paths: seq<Path>)
    returns (k: nat)
    requires InputsOf(host, disk, known, paths).Err?
    ensures k < |paths| && forall i :: 0 <= i < k ==> IsAvailable(disk, known, paths[i])
    ensures !IsAvailable(disk, known, paths[k])
    ensures InputsOf(host, disk, known, paths).error ==
            if paths[k] in disk then Unreadable(paths[k]) else Missing(paths[k])
  {
    var front, last := paths[..|paths| - 1], paths[|paths| - 1];
    assert forall i :: 0 <= i < |front| ==> front[i] == paths[i];
    if InputsOf(host, disk, known, front).Err? {
      k := FirstFailureIsReported(host, disk, known, front);
    } else {
      k := |front|;
      FailsExactlyWhenUnavailable(host, disk, known, front);
      OneFailsExactly(host, disk, known, last);
    }
  }

  lemma {:induction false} InputsAreHonest(
    host: Host, contents: Contents, disk: Disk, known: seq<ModelInput>, paths: seq<Path>)
    requires Determined(contents, disk) && Honest(host, contents, known)
    requires InputsOf(host, disk, known, paths).Ok?
    ensures Honest(host, contents, InputsOf(host, disk, known, paths).value)
  {
    if paths != [] {
      InputsAreHonest(host, contents, disk, known, paths[..|paths| - 1]);
    }
  }

  lemma {:induction false} InputsAreFromScratch(
    host: Host, contents: Contents, disk: Disk, known: seq<ModelInput>, paths: seq<Path>)
    requires Determined(contents, disk) && Honest(host, contents, known)
    requires InputsOf(host, disk, [], paths).Ok?
    ensures InputsOf(host, disk, known, paths) == InputsOf(host, disk, [], paths)
  {
    if paths != [] {
      InputsAreFromScratch(host, contents, disk, known, paths[..|paths| - 1]);
    }
  }

  lemma HonestyIgnoresOrder(host: Host, contents: Contents, inputs: seq<ModelInput>)
    requires Honest(host, contents, inputs)
    ensures Honest(host, contents, Sort(inputs, InputOrder()))
  {
    var sorted := Sort(inputs, InputOrder());
    SortPermutes(inputs, InputOrder());
    forall i | 0 <= i < |sorted| ensures HonestInput(host, contents, sorted[i]) {
      assert sorted[i] in multiset(sorted);
      assert sorted[i] in inputs;
    }
  }

  lemma FingerprintIsHonest(host: Host, contents: Contents, disk: Disk, paths: seq<Path>,
                            previous: Option<ModelFingerprint>)
    requires Determined(contents, disk) && Honest(host, contents, PreviousInputs(previous))
    requires Fingerprint(host, disk, paths, previous).Ok?
    ensures Honest(host, contents, Fingerprint(host, disk, paths, previous).value.inputs)
  {
    InputsAreHonest(host, contents, disk, PreviousInputs(previous), paths);
    HonestyIgnoresOrder(host, contents, InputsOf(host, disk, PreviousInputs(previous), paths).value);
  }

  // ---------------------------------------------------------------------------------------------
  // The order of the inputs
  // ---------------------------------------------------------------------------------------------

  lemma PathOrderIsOrder()
    ensures IsOrder(InputOrder())
  {
    forall a: ModelInput, b: ModelInput ensures InputOrder()(a, b) || InputOrder()(b, a) {
      PathAtMostIsTotal(a.path, b.path);
    }
    forall a: ModelInput, b: ModelInput, c: ModelInput | InputOrder()(a, b) && InputOrder()(b, c)
      ensures InputOrder()(a, c)
    {
      PathAtMostIsTransitive(a.path, b.path, c.path);
    }
  }

  // What is recorded of one file, field by field; the hash is the one known, or else that of the bytes.
  ghost predicate Describes(host: Host, disk: Disk, known: seq<ModelInput>, input: ModelInput) {
    && input.path in disk
    && var file := disk[input.path];
       && input.size == file.size && input.modifiedMs == file.modifiedMs
       && (forall j: nat :: IsFirstKnown(known, input.path, file, j) ==> input.sha256 == known[j].sha256)
       && (!IsKnown(known, input.path, file) ==>
             file.content.Some? && input.sha256 == host.sha256(file.content.value))
  }

  lemma {:induction false} InputsFollowPaths(host: Host, disk: Disk, known: seq<ModelInput>, paths: seq<Path>)
    requires InputsOf(host, disk, known, paths).Ok?
    ensures var inputs := InputsOf(host, disk, known, paths).value;
            && |inputs| == |paths|
            && forall i :: 0 <= i < |paths| ==>
                 && InputOf(host, disk, known, paths[i]) == Ok(inputs[i])
                 && inputs[i].path == paths[i] && Describes(host, disk, known, inputs[i])
  {
    if paths != [] {
      var last := paths[|paths| - 1];
      InputsFollowPaths(host, disk, known, paths[..|paths| - 1]);
      FindsTheFirst(known, last, disk[last]);
    }
  }

  /** A fingerprint lists each of its files as the disk has it, in the order of their paths. */
  lemma InputsAreInOrder(host: Host, disk: Disk, paths: seq<Path>, previous: Option<ModelFingerprint>)
    returns (listed: seq<ModelInput>)
    requires Fingerprint(host, disk, paths, previous).Ok?
    ensures var inputs := Fingerprint(host, disk, paths, previous).value.inputs;
            && multiset(inputs) == multiset(listed)
            && forall i, j :: 0 <= i < j < |inputs| ==> PathAtMost(inputs[i].path, inputs[j].path)
    ensures |listed| == |paths|
    ensures forall i :: 0 <= i < |paths| ==>
              listed[i].path == paths[i] && Describes(host, disk, PreviousInputs(previous), listed[i])
  {
    listed := InputsOf(host, disk, PreviousInputs(previous), paths).value;
    InputsFollowPaths(host, disk, PreviousInputs(previous), paths);
    PathOrderIsOrder();
    SortPermutes(listed, InputOrder());
    SortSorts(listed, InputOrder());
    var inputs := Sort(listed, InputOrder());
    forall i, j | 0 <= i < j < |inputs| ensures PathAtMost(inputs[i].path, inputs[j].path) {
      assert InputOrder()(inputs[i], inputs[j]);
    }
  }

  /** A fingerprint is stamped with this format, and with the bridge and the model of the one before it, or given. */
  lemma FingerprintsAreStamped(host: Host, disk: Disk, paths: seq<Path>, previous: Option<ModelFingerprint>,
                               bridgeVersion: string, modelHash: Digest)
    ensures var plain := Fingerprint(host, disk, paths, previous);
            var given := FingerprintForModel(host, disk, paths, previous, bridgeVersion, modelHash);
            && (plain.Ok? <==> InputsOf(host, disk, PreviousInputs(previous), paths).Ok?)
            && (plain.Err? ==>
                  plain.error == InputsOf(host, disk, PreviousInputs(previous), paths).error && given == plain)
            && (plain.Ok? ==>
                  && plain.value.schemaVersion == 1
                  && (previous.None? ==> plain.value.bridgeVersion == "" && plain.value.modelHash == "")
                  && (previous.Some? ==> plain.value.bridgeVersion == previous.value.bridgeVersion)
                  && (previous.Some? ==> plain.value.modelHash == previous.value.modelHash)
                  && given == Ok(ModelFingerprint(1, bridgeVersion, modelHash, plain.value.inputs)))
  {
  }

  function Recorded(host: Host, disk: Disk, known: seq<ModelInput>): Path -> Option<ModelInput> {
    (path: Path) => var r := InputOf(host, disk, known, path); if r.Ok? then Some(r.value) else None
  }

  lemma {:induction false} InputsAreCollected(host: Host, disk: Disk, known: seq<ModelInput>, paths: seq<Path>)
    requires InputsOf(host, disk, known, paths).Ok?
    ensures InputsOf(host, disk, known, paths).value == Collect(paths, Recorded(host, disk, known))
  {
    if paths != [] { InputsAreCollected(host, disk, known, paths[..|paths| - 1]); }
  }

  lemma OneInputPerPath(host: Host, disk: Disk, known: seq<ModelInput>, paths: seq<Path>)
    requires InputsOf(host, disk, known, paths).Ok?
    ensures KeysAreDistinct(InputsOf(host, disk, known, paths).value, InputOrder())
  {
    var inputs := InputsOf(host, disk, known, paths).value;
    InputsFollowPaths(host, disk, known, paths);
    forall a, b | a in inputs && b in inputs && InputOrder()(a, b) && InputOrder()(b, a) ensures a == b {
      PathAtMostIsTotal(a.path, b.path);
    }
  }

  /** The order in which the files were listed does not matter. */
  lemma ListingOrderDoesNotMatter(host: Host, disk: Disk, a: seq<Path>, b: seq<Path>,
                                  previous: Option<ModelFingerprint>)
    requires multiset(a) == multiset(b)
    requires Fingerprint(host, disk, a, previous).Ok? && Fingerprint(host, disk, b, previous).Ok?
    ensures Fingerprint(host, disk, a, previous) == Fingerprint(host, disk, b, previous)
  {
    var known := PreviousInputs(previous);
    InputsAreCollected(host, disk, known, a);
    InputsAreCollected(host, disk, known, b);
    CollectPermutes(a, b, Recorded(host, disk, known));
    OneInputPerPath(host, disk, known, a);
    PathOrderIsOrder();
    SortCanonicalises(InputsOf(host, disk, known, a).value, InputsOf(host, disk, known, b).value, InputOrder());
  }

  // ---------------------------------------------------------------------------------------------
  // Chains of calls
  // ---------------------------------------------------------------------------------------------

  datatype Call = Call(disk: Disk, paths: seq<Path>)

  // Every call is given the last fingerprint that succeeded.
  function Chain(host: Host, start: Option<ModelFingerprint>, calls: seq<Call>): Option<ModelFingerprint> {
    if calls == [] then start
    else
      var last, before := calls[|calls| - 1], Chain(host, start, calls[..|calls| - 1]);
      var value := Fingerprint(host, last.disk, last.paths, before);
      if value.Ok? then Some(value.value) else before
  }

  ghost predicate AllDetermined(contents: Contents, calls: seq<Call>) {
    forall i :: 0 <= i < |calls| ==> Determined(contents, calls[i].disk)
  }

  lemma {:induction false} ChainStaysHonest(
    host: Host, contents: Contents, start: Option<ModelFingerprint>, calls: seq<Call>)
    requires AllDetermined(contents, calls) && Honest(host, contents, PreviousInputs(start))
    ensures Honest(host, contents, PreviousInputs(Chain(host, start, calls)))
  {
    if calls != [] {
      var last, front := calls[|calls| - 1], calls[..|calls| - 1];
      ChainStaysHonest(host, contents, start, front);
      var before := Chain(host, start, front);
      if Fingerprint(host, last.disk, last.paths, before).Ok? {
        FingerprintIsHonest(host, contents, last.disk, last.paths, before);
      }
    }
  }

  /** After any chain of calls, a call that could succeed from scratch gives the inputs it would give from scratch. */
  lemma ChainEqualsScratch(
    host: Host, contents: Contents, start: Option<ModelFingerprint>, calls: seq<Call>, disk: Disk, paths: seq<Path>)
    requires AllDetermined(contents, calls) && Determined(contents, disk)
    requires Honest(host, contents, PreviousInputs(start))
    requires Fingerprint(host, disk, paths, None).Ok?
    ensures var incremental := Fingerprint(host, disk, paths, Chain(host, start, calls));
            incremental.Ok? && incremental.value.inputs == Fingerprint(host, disk, paths, None).value.inputs
  {
    ChainStaysHonest(host, contents, start, calls);
    InputsAreFromScratch(host, contents, disk, PreviousInputs(Chain(host, start, calls)), paths);
  }
}
