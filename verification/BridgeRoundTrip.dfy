/** The writer and the reader of the bridge stream undo each other. */
module BridgeRoundTrip {
  import opened Wrappers
  import opened Ordering
  import opened Sorting
  import opened BridgeProtocol
  import opened ModelAssembly
  import opened ModelBridge
  import opened ModelOrder

  // ---------------------------------------------------------------------------------------------
  // Lines
  // ---------------------------------------------------------------------------------------------

  function FirstNewline(text: string): (n: nat)
    ensures n <= |text| && '\n' !in text[..n] && (n < |text| ==> text[n] == '\n')
  {
    if text == "" || text[0] == '\n' then 0
    else
      var n := FirstNewline(text[1..]);
      assert text[..n + 1] == [text[0]] + text[1..][..n];
      n + 1
  }

  function StripReturn(line: string): string {
    if line != "" && line[|line| - 1] == '\r' then line[..|line| - 1] else line
  }

  // Lines end at a newline, together with a carriage return before it; the last line may lack its ending.
  function Lines(text: string): seq<string>
    decreases |text|
  {
    if text == "" then []
    else
      var n := FirstNewline(text);
      if n == |text| then [text] else [StripReturn(text[..n])] + Lines(text[n + 1..])
  }

  function Stripped(records: seq<string>): seq<string> {
    seq(|records|, i requires 0 <= i < |records| => StripReturn(records[i]))
  }

  predicate NewlineFree(records: seq<string>) {
    forall i :: 0 <= i < |records| ==> '\n' !in records[i]
  }

  lemma {:induction false} FirstNewlineEndsLine(line: string, rest: string)
    requires '\n' !in line
    ensures FirstNewline(line + "\n" + rest) == |line|
  {
    if line != "" {
      assert (line + "\n" + rest)[1..] == line[1..] + "\n" + rest;
      FirstNewlineEndsLine(line[1..], rest);
    }
  }

  lemma LinesOfLine(line: string, rest: string)
    requires '\n' !in line
    ensures Lines(line + "\n" + rest) == [StripReturn(line)] + Lines(rest)
  {
    var text := line + "\n" + rest;
    FirstNewlineEndsLine(line, rest);
    assert text[..|line|] == line && text[|line| + 1..] == rest;
  }

  /** A line loses its line ending, with or without a carriage return, and nothing else; so does the last one. */
  lemma LineEndingsAreDropped(line: string, rest: string)
    requires '\n' !in line
    ensures Lines(line + "\r\n" + rest) == [line] + Lines(rest)
    ensures (line == "" || line[|line| - 1] != '\r') ==> Lines(line + "\n" + rest) == [line] + Lines(rest)
    ensures Lines(line) == if line == "" then [] else [line]
  {
    assert line + "\r\n" + rest == line + "\r" + "\n" + rest;
    LinesOfLine(line + "\r", rest);
    LinesOfLine(line, rest);
  }

  lemma StrippedAppend(front: seq<string>, last: string)
    ensures Stripped(front + [last]) == Stripped(front) + [StripReturn(last)]
  {
  }

  lemma JoinAppend(front: seq<string>, last: string)
    ensures JoinLines(front + [last]) == JoinLines(front) + last + "\n"
  {
    assert (front + [last])[..|front|] == front;
  }

  lemma RegroupTail(front: string, last: string, rest: string)
    ensures front + last + "\n" + rest == front + (last + "\n" + rest)
  {
  }

  lemma {:induction false} LinesOfJoined(records: seq<string>, rest: string)
    requires NewlineFree(records)
    ensures Lines(JoinLines(records) + rest) == Stripped(records) + Lines(rest)
    decreases |records|
  {
    if records == [] {
      assert "" + rest == rest;
      assert Stripped(records) + Lines(rest) == Lines(rest);
    } else {
      var front, last := records[..|records| - 1], records[|records| - 1];
      assert records == front + [last];
      JoinAppend(front, last);
      StrippedAppend(front, last);
      RegroupTail(JoinLines(front), last, rest);
      LinesOfJoined(front, last + "\n" + rest);
      LinesOfLine(last, rest);
      Associative(Stripped(front), [StripReturn(last)], Lines(rest));
    }
  }

  // ---------------------------------------------------------------------------------------------
  // What an accepted stream looks like
  // ---------------------------------------------------------------------------------------------

  lemma RejectedAfterCompletion(parse: Parser, s: Assembly, line: string)
    ensures s.validation.completion.Some? ==> AcceptLine(parse, s, line).1.Some?
  {
  }

  lemma {:induction false} AcceptConcat(parse: Parser, s: Assembly, a: seq<string>, b: seq<string>)
    ensures AcceptLines(parse, s, a + b) ==
            if AcceptLines(parse, s, a).1.Some? then AcceptLines(parse, s, a)
            else AcceptLines(parse, AcceptLines(parse, s, a).0, b)
    decreases |a|
  {
    if a == [] {
      assert a + b == b;
    } else {
      assert (a + b)[1..] == a[1..] + b;
      AcceptConcat(parse, AcceptLine(parse, s, a[0]).0, a[1..], b);
    }
  }

  lemma AcceptOne(parse: Parser, s: Assembly, line: string)
    ensures AcceptLines(parse, s, [line]) == AcceptLine(parse, s, line)
  {
    assert [line][1..] == [];
    assert AcceptLines(parse, AcceptLine(parse, s, line).0, []) == (AcceptLine(parse, s, line).0, None);
  }

  // All lines are hashed and counted; or all but the last, which completes the stream.
  predicate HasShape(parse: Parser, lines: seq<string>, s: Assembly) {
    match s.validation.completion
    case None => s.hashed == JoinLines(lines) && s.validation.recordCount == |lines|
    case Some(complete) =>
      && lines != []
      && s.hashed == JoinLines(lines[..|lines| - 1])
      && complete.recordCount == |lines| - 1
      && parse(lines[|lines| - 1]) == Some(BridgeEnvelope(BRIDGE_PROTOCOL_VERSION, CompleteRecord(complete)))
  }

  lemma LastLineKeepsShape(parse: Parser, front: seq<string>, last: string, s: Assembly)
    requires HasShape(parse, front, s) && AcceptLine(parse, s, last).1.None?
    ensures HasShape(parse, front + [last], AcceptLine(parse, s, last).0)
  {
    var lines := front + [last];
    assert lines[..|lines| - 1] == front;
    JoinAppend(front, last);
    RejectedAfterCompletion(parse, s, last);
  }

  lemma {:induction false} AcceptedShape(parse: Parser, lines: seq<string>)
    requires AcceptLines(parse, EMPTY, lines).1.None?
    ensures HasShape(parse, lines, AcceptLines(parse, EMPTY, lines).0)
    decreases |lines|
  {
    if lines != [] {
      var front, last := lines[..|lines| - 1], lines[|lines| - 1];
      assert lines == front + [last];
      AcceptConcat(parse, EMPTY, front, [last]);
      AcceptOne(parse, AcceptLines(parse, EMPTY, front).0, last);
      AcceptedShape(parse, front);
      LastLineKeepsShape(parse, front, last, AcceptLines(parse, EMPTY, front).0);
    }
  }

  /** A stream that finishes ends in one completion, whose count and hash cover every record before it. */
  lemma FinishedIsCountedAndHashed(parse: Parser, sha256: string -> string, lines: seq<string>)
    requires Assemble(parse, sha256, lines).Ok?
    ensures lines != []
    ensures var body, last := lines[..|lines| - 1], parse(lines[|lines| - 1]);
            && last.Some? && last.value.payload.CompleteRecord?
            && last.value.payload.complete.recordCount == |body|
            && last.value.payload.complete.modelHash == sha256(JoinLines(body))
  {
    AcceptedShape(parse, lines);
  }

  // ---------------------------------------------------------------------------------------------
  // Writing and reading
  // ---------------------------------------------------------------------------------------------

  // The hash of these records has no line ending, and the reader understands the completion written for them.
  predicate Understands(parse: Parser, sha256: string -> string, records: seq<string>) {
    var hash := sha256(JoinLines(records));
    && '\n' !in hash
    && parse(CompletionText(|records|, hash)) ==
       Some(BridgeEnvelope(BRIDGE_PROTOCOL_VERSION, CompleteRecord(BridgeComplete(0, |records|, hash))))
  }

  lemma {:induction false} DecimalHasNoNewline(n: nat)
    ensures '\n' !in Decimal(n)
  {
    if n >= 10 { DecimalHasNoNewline(n / 10); }
  }

  lemma NoNewlineInConcat(a: string, b: string)
    requires '\n' !in a && '\n' !in b
    ensures '\n' !in a + b
  {
  }

  lemma TextsHaveNoNewline()
    ensures '\n' !in RECORD_START && '\n' !in COMPLETION_HEAD && '\n' !in COMPLETION_HASH && '\n' !in RECORD_END
  {
  }

  lemma FailureTextsHaveNoNewline()
    ensures '\n' !in RECORD_START && '\n' !in FAILURE_HEAD && '\n' !in FAILURE_MESSAGE && '\n' !in RECORD_END
  {
  }

  // Five parts of a record make one line, which does not end in a carriage return.
  lemma PartsAreOneLine(a: string, b: string, c: string, d: string, e: string)
    requires '\n' !in a && '\n' !in b && '\n' !in c && '\n' !in d && '\n' !in e && e != "" && e[|e| - 1] != '\r'
    ensures var text := a + b + c + d + e; '\n' !in text && StripReturn(text) == text
  {
    NoNewlineInConcat(a, b);
    NoNewlineInConcat(a + b, c);
    NoNewlineInConcat(a + b + c, d);
    NoNewlineInConcat(a + b + c + d, e);
    var text := a + b + c + d + e;
    assert text[|text| - 1] == e[|e| - 1];
  }

  lemma CompletionIsOneLine(n: nat, hash: string)
    requires '\n' !in hash
    ensures '\n' !in CompletionText(n, hash) && StripReturn(CompletionText(n, hash)) == CompletionText(n, hash)
  {
    DecimalHasNoNewline(n);
    TextsHaveNoNewline();
    NoNewlineInConcat(RECORD_START, COMPLETION_HEAD);
    PartsAreOneLine(RECORD_START + COMPLETION_HEAD, Decimal(n), COMPLETION_HASH, hash, RECORD_END);
  }

  lemma JoinedWithCompletion(records: seq<string>, completion: string)
    requires NewlineFree(records) && '\n' !in completion && StripReturn(completion) == completion
    ensures Lines(JoinLines(records) + completion + "\n") == Stripped(records) + [completion]
  {
    assert JoinLines(records) + completion + "\n" == JoinLines(records) + (completion + "\n" + "");
    LinesOfJoined(records, completion + "\n" + "");
    LinesOfLine(completion, "");
  }

  // What reading the written file comes to, given what the records assemble to.
  function Outcome(sha256: string -> string, read: (Assembly, Option<AssemblyError>),
                   written: string): Result<ProjectModel, AssemblyError>
  {
    var (s, error) := read;
    if error.Some? then Err(error.value)
    else if s.validation.completion.Some? then Err(Protocol(DuplicateCompletion))
    else if s.build.None? then Err(MissingBuild)
    else if sha256(written) != sha256(s.hashed) then Err(ModelHashMismatch(sha256(written), sha256(s.hashed)))
    else Ok(ModelOf(s, s.build.value))
  }

  lemma CompletingTheRead(parse: Parser, sha256: string -> string, lines: seq<string>, completion: string,
                          written: string)
    requires parse(completion) ==
             Some(BridgeEnvelope(BRIDGE_PROTOCOL_VERSION, CompleteRecord(BridgeComplete(0, |lines|, sha256(written)))))
    ensures Assemble(parse, sha256, lines + [completion]) == Outcome(sha256, AcceptLines(parse, EMPTY, lines), written)
  {
    AcceptConcat(parse, EMPTY, lines, [completion]);
    if AcceptLines(parse, EMPTY, lines).1.None? {
      var s := AcceptLines(parse, EMPTY, lines).0;
      AcceptOne(parse, s, completion);
      AcceptedShape(parse, lines);
      FinishAfterCompletion(parse, sha256, s, lines, completion, written);
    }
  }

  lemma FinishAfterCompletion(parse: Parser, sha256: string -> string, s: Assembly, lines: seq<string>,
                              completion: string,
                              written: string)
    requires HasShape(parse, lines, s)
    requires parse(completion) ==
             Some(BridgeEnvelope(BRIDGE_PROTOCOL_VERSION, CompleteRecord(BridgeComplete(0, |lines|, sha256(written)))))
    ensures Outcome(sha256, (s, None), written) ==
            (var (t, error) := AcceptLine(parse, s, completion);
             if error.Some? then Err(error.value) else Finish(sha256, t))
  {
  }

  /** Whatever the records are, reading what was written for them ends as assembling the records does. */
  lemma ReadingTheWritten(parse: Parser, sha256: string -> string, records: seq<string>)
    requires NewlineFree(records) && Understands(parse, sha256, records)
    ensures Assemble(parse, sha256, Lines(WrittenModel(sha256, records))) ==
            Outcome(sha256, AcceptLines(parse, EMPTY, Stripped(records)), JoinLines(records))
  {
    var hash := sha256(JoinLines(records));
    CompletionIsOneLine(|records|, hash);
    JoinedWithCompletion(records, CompletionText(|records|, hash));
    CompletingTheRead(parse, sha256, Stripped(records), CompletionText(|records|, hash), JoinLines(records));
  }

  /** Records without line endings that assemble to a model are read back as that model, and no others are. */
  lemma WriterAndReaderUndoEachOther(parse: Parser, sha256: string -> string, records: seq<string>)
    requires NewlineFree(records) && Understands(parse, sha256, records) && Stripped(records) == records
    ensures var (s, error) := AcceptLines(parse, EMPTY, records);
            var read := Assemble(parse, sha256, Lines(WrittenModel(sha256, records)));
            && (read.Ok? <==> error.None? && s.validation.completion.None? && s.build.Some?)
            && (read.Ok? ==> read == Ok(ModelOf(s, s.build.value)))
  {
    ReadingTheWritten(parse, sha256, records);
    if AcceptLines(parse, EMPTY, records).1.None? {
      AcceptedShape(parse, records);
    }
  }

  // ---------------------------------------------------------------------------------------------
  // Two files with the same records
  // ---------------------------------------------------------------------------------------------

  // A build record and two diagnostic records, each on one line.
  predicate BuildAndTwoDiagnostics(parse: Parser, build: string, first: string, second: string, d: Diagnostic,
                                   e: Diagnostic)
  {
    && '\n' !in build && '\n' !in first && '\n' !in second
    && StripReturn(build) == build && StripReturn(first) == first && StripReturn(second) == second
    && parse(build).Some? && parse(build).value.protocolVersion == BRIDGE_PROTOCOL_VERSION
    && parse(build).value.payload.BuildRecord?
    && parse(first) == Some(BridgeEnvelope(BRIDGE_PROTOCOL_VERSION, DiagnosticRecord(d)))
    && parse(second) == Some(BridgeEnvelope(BRIDGE_PROTOCOL_VERSION, DiagnosticRecord(e)))
  }

  lemma ThreeAreAccepted(parse: Parser, build: string, first: string, second: string, d: Diagnostic, e: Diagnostic)
    requires BuildAndTwoDiagnostics(parse, build, first, second, d, e)
    ensures var (s, error) := AcceptLines(parse, EMPTY, [build, first, second]);
            && error.None? && s.validation.completion.None? && s.build == Some(parse(build).value.payload.build)
            && s.diagnostics == [d, e]
  {
    var lines := [build, first, second];
    assert lines[1..] == [first, second] && lines[1..][1..] == [second] && lines[1..][1..][1..] == [];
    var s1 := AcceptLine(parse, EMPTY, build).0;
    var s2 := AcceptLine(parse, s1, first).0;
    var s3 := AcceptLine(parse, s2, second).0;
    assert AcceptLines(parse, s3, []) == (s3, None);
    assert AcceptLines(parse, s2, [second]) == (s3, None);
    assert AcceptLines(parse, s1, [first, second]) == (s3, None);
  }

  /** Written in both orders, two different diagnostics with one message are read back as two different models. */
  lemma OppositeOrdersDiffer(parse: Parser, sha256: string -> string, build: string, first: string, second: string,
                             d: Diagnostic, e: Diagnostic)
    requires BuildAndTwoDiagnostics(parse, build, first, second, d, e) && d.message == e.message && d != e
    requires Understands(parse, sha256, [build, first, second]) && Understands(parse, sha256, [build, second, first])
    ensures var a := Lines(WrittenModel(sha256, [build, first, second]));
            var b := Lines(WrittenModel(sha256, [build, second, first]));
            && Assemble(parse, sha256, a).Ok? && Assemble(parse, sha256, b).Ok?
            && Assemble(parse, sha256, a).value.diagnostics == [d, e]
            && Assemble(parse, sha256, b).value.diagnostics == [e, d]
  {
    assert Stripped([build, first, second]) == [build, first, second];
    assert Stripped([build, second, first]) == [build, second, first];
    ThreeAreAccepted(parse, build, first, second, d, e);
    ThreeAreAccepted(parse, build, second, first, e, d);
    WriterAndReaderUndoEachOther(parse, sha256, [build, first, second]);
    WriterAndReaderUndoEachOther(parse, sha256, [build, second, first]);
    EqualMessagesKeepArrivalOrder(d, e);
    EqualMessagesKeepArrivalOrder(e, d);
  }

  lemma EqualMessagesKeepArrivalOrder(d: Diagnostic, e: Diagnostic)
    requires d.message == e.message
    ensures Sort([d, e], ByKey(DiagnosticKey)) == [d, e]
  {
    AtMostIsTotal(d.message, e.message);
    assert [d, e][..1] == [d] && [d][..0] == [];
    assert Sort([d], ByKey(DiagnosticKey)) == Insert(Sort([], ByKey(DiagnosticKey)), d, ByKey(DiagnosticKey)) == [d];
    KeysAreTotal(DiagnosticKey(d), DiagnosticKey(e));
  }

  // ---------------------------------------------------------------------------------------------
  // Failures
  // ---------------------------------------------------------------------------------------------

  // The failure a file reports: its first line that is an error record.
  function ReportedFailure(parse: Parser, lines: seq<string>): Option<(string, string)>
    decreases |lines|
  {
    if lines == [] then None
    else
      var record := parse(lines[0]);
      if record.Some? && record.value.payload.ErrorRecord?
      then Some((record.value.payload.code, record.value.payload.message))
      else ReportedFailure(parse, lines[1..])
  }

  // The reader takes the two texts of the error record written here as JSON strings, and a text that is none as no
  // record.
  predicate UnderstandsFailure(parse: Parser, code: string, message: string) {
    var (c, m) := (ReadJsonText(Escape(code)), ReadJsonText(Escape(message)));
    parse(FailureText(Escape(code), Escape(message))) ==
      if c.Some? && m.Some? then Some(BridgeEnvelope(BRIDGE_PROTOCOL_VERSION, ErrorRecord(c.value, m.value))) else None
  }

  lemma FailureIsOneLine(code: string, message: string)
    ensures var text := FailureText(Escape(code), Escape(message)); '\n' !in text && StripReturn(text) == text
  {
    EscapeIsCharByChar(code);
    EscapeIsCharByChar(message);
    EscapedHasNoNewline(code);
    EscapedHasNoNewline(message);
    FailureTextsHaveNoNewline();
    NoNewlineInConcat(RECORD_START, FAILURE_HEAD);
    PartsAreOneLine(RECORD_START + FAILURE_HEAD, Escape(code), FAILURE_MESSAGE, Escape(message), RECORD_END);
  }

  lemma FirstFailure(parse: Parser, text: string, completion: string)
    requires parse(completion).Some? && parse(completion).value.payload.CompleteRecord?
    ensures ReportedFailure(parse, [text, completion]) ==
            if parse(text).Some? && parse(text).value.payload.ErrorRecord?
            then Some((parse(text).value.payload.code, parse(text).value.payload.message)) else None
  {
    assert [text, completion][1..] == [completion] && [completion][1..] == [];
    assert ReportedFailure(parse, [completion]) == ReportedFailure(parse, []);
  }

  // A line that is an error record, or not a record at all.
  predicate IsFailureLine(parse: Parser, text: string) {
    && '\n' !in text && StripReturn(text) == text
    && (parse(text).Some? ==>
        parse(text).value.payload.ErrorRecord? && parse(text).value.protocolVersion == BRIDGE_PROTOCOL_VERSION)
  }

  lemma OneLineIsReported(parse: Parser, sha256: string -> string, text: string)
    requires Understands(parse, sha256, [text]) && IsFailureLine(parse, text)
    ensures ReportedFailure(parse, Lines(WrittenModel(sha256, [text]))) ==
            match parse(text)
            case Some(record) => Some((record.payload.code, record.payload.message))
            case None => None
  {
    var hash := sha256(JoinLines([text]));
    var completion := CompletionText(1, hash);
    CompletionIsOneLine(1, hash);
    JoinedWithCompletion([text], completion);
    assert Stripped([text]) + [completion] == [text, completion];
    FirstFailure(parse, text, completion);
  }

  lemma FailureLineIsRefused(parse: Parser, text: string)
    requires IsFailureLine(parse, text)
    ensures AcceptLines(parse, EMPTY, [text]).1 ==
            match parse(text)
            case Some(record) => Some(Bridge(record.payload.code, record.payload.message))
            case None => Some(Protocol(InvalidJson))
  {
    AcceptOne(parse, EMPTY, text);
  }

  lemma OneLineAssembles(parse: Parser, sha256: string -> string, text: string)
    requires Understands(parse, sha256, [text]) && IsFailureLine(parse, text)
    ensures Assemble(parse, sha256, Lines(WrittenModel(sha256, [text]))) ==
            match parse(text)
            case Some(record) => Err(Bridge(record.payload.code, record.payload.message))
            case None => Err(Protocol(InvalidJson))
  {
    assert Stripped([text]) == [text];
    ReadingTheWritten(parse, sha256, [text]);
    FailureLineIsRefused(parse, text);
  }

  /** A failure is reported as it was, exactly when neither text has a control character that is not escaped. */
  lemma FailureIsReportedExactly(parse: Parser, sha256: string -> string, code: string, message: string)
    requires Understands(parse, sha256, [FailureText(Escape(code), Escape(message))])
    requires UnderstandsFailure(parse, code, message)
    ensures var lines := Lines(WrittenModel(sha256, [FailureText(Escape(code), Escape(message))]));
            if IsWritable(code) && IsWritable(message) then
              ReportedFailure(parse, lines) == Some((code, message)) &&
              Assemble(parse, sha256, lines) == Err(Bridge(code, message))
            else
              ReportedFailure(parse, lines) == None && Assemble(parse, sha256, lines) == Err(Protocol(InvalidJson))
  {
    FailureIsOneLine(code, message);
    EscapeIsReadBackExactly(code);
    EscapeIsReadBackExactly(message);
    OneLineIsReported(parse, sha256, FailureText(Escape(code), Escape(message)));
    OneLineAssembles(parse, sha256, FailureText(Escape(code), Escape(message)));
  }
}
