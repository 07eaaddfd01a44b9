/** The parser over whole sessions: chunks of bytes from one connection after the other, with a restart behind each. */
module LogcatSessions {
  import opened Wrappers
  import opened Bytes
  import opened LineAssembly
  import opened LogcatParsing

  type Chunks = seq<seq<Byte>>

  function AsOutputs(records: seq<LogRecord>): seq<Output> {
    seq(|records|, i requires 0 <= i < |records| => Emitted(records[i]))
  }

  // What the parser yields for the chunks of one connection and the restart behind it. The capture loop takes the
  // records of the chunks and throws away what the restart returns, so the record of an unfinished line is yielded but
  // not kept.
  function Connection(g: Grammar, s: ParserState, chunks: Chunks): (ParserState, seq<Output>) {
    var (st, records) := PushAll(MAX_LOGCAT_LINE_BYTES, LineParser(g), Fresh(s), chunks);
    var (st', last) := Finish(LineParser(g), st);
    (Respond(g, st'.inner, Restart).0, AsOutputs(records + last) + [Restarted])
  }

  function ParseConnections(g: Grammar, s: ParserState, connections: seq<Chunks>): (ParserState, seq<Output>)
    decreases |connections|
  {
    if connections == [] then (s, [])
    else
      var (s', outputs) := Connection(g, s, connections[0]);
      var (s'', more) := ParseConnections(g, s', connections[1..]);
      (s'', outputs + more)
  }

  // The lines of the byte stream, each cut at the limit.
  function LineInputs(lines: seq<seq<Byte>>): seq<Input> {
    seq(|lines|, i requires 0 <= i < |lines| =>
      Line(Truncate(lines[i], MAX_LOGCAT_LINE_BYTES), |lines[i]| > MAX_LOGCAT_LINE_BYTES))
  }

  function InputsOf(connections: seq<Chunks>): seq<Input> {
    if connections == [] then []
    else LineInputs(LinesOf(Joined(connections[0]))) + [Restart] + InputsOf(connections[1..])
  }

  lemma {:induction false} OutputsOfConcat(g: Grammar, s: ParserState, a: seq<Input>, b: seq<Input>)
    ensures After(g, s, a + b) == After(g, After(g, s, a), b)
    ensures Outputs(g, s, a + b) == Outputs(g, s, a) + Outputs(g, After(g, s, a), b)
    decreases |a|
  {
    if a == [] {
      assert a + b == b;
    } else {
      assert (a + b)[0] == a[0] && (a + b)[1..] == a[1..] + b;
      var (s', first) := Respond(g, s, a[0]);
      OutputsOfConcat(g, s', a[1..], b);
      assert first + (Outputs(g, s', a[1..]) + Outputs(g, After(g, s, a), b))
          == first + Outputs(g, s', a[1..]) + Outputs(g, After(g, s, a), b);
    }
  }

  lemma OutputsOfOne(g: Grammar, s: ParserState, input: Input)
    ensures After(g, s, [input]) == Respond(g, s, input).0 && Outputs(g, s, [input]) == Respond(g, s, input).1
  {
    var (s', outputs) := Respond(g, s, input);
    assert [input][1..] == [];
    assert After(g, s', []) == s' && Outputs(g, s', []) == [];
    assert outputs + [] == outputs;
  }

  lemma LastInput(front: seq<seq<Byte>>, line: seq<Byte>)
    ensures LineInputs(front + [line]) ==
            LineInputs(front) + [Line(Truncate(line, MAX_LOGCAT_LINE_BYTES), |line| > MAX_LOGCAT_LINE_BYTES)]
  {
  }

  lemma AsOutputsOfConcat(a: seq<LogRecord>, b: seq<LogRecord>)
    ensures AsOutputs(a + b) == AsOutputs(a) + AsOutputs(b)
  {
  }

  lemma LineIsInput(g: Grammar, s: ParserState, bytes: seq<Byte>, oversized: bool)
    ensures var (s', records) := ParseLine(g, s, bytes, oversized);
            s' == After(g, s, [Line(bytes, oversized)]) && AsOutputs(records) == Outputs(g, s, [Line(bytes, oversized)])
  {
    OutputsOfOne(g, s, Line(bytes, oversized));
    var records := ParseLine(g, s, bytes, oversized).1;
    assert records == [] || records == [records[0]];
  }

  lemma {:induction false} LinesAreInputs(g: Grammar, s: ParserState, lines: seq<seq<Byte>>)
    ensures var (s', records) := ParseLines(MAX_LOGCAT_LINE_BYTES, LineParser(g), s, lines);
            s' == After(g, s, LineInputs(lines)) && AsOutputs(records) == Outputs(g, s, LineInputs(lines))
  {
    if lines != [] {
      var front, line := lines[..|lines| - 1], lines[|lines| - 1];
      var bytes, oversized := Truncate(line, MAX_LOGCAT_LINE_BYTES), |line| > MAX_LOGCAT_LINE_BYTES;
      LinesAreInputs(g, s, front);
      assert lines == front + [line];
      LastInput(front, line);
      var (s', records) := ParseLines(MAX_LOGCAT_LINE_BYTES, LineParser(g), s, front);
      OutputsOfConcat(g, s, LineInputs(front), [Line(bytes, oversized)]);
      LineIsInput(g, s', bytes, oversized);
      AsOutputsOfConcat(records, ParseLine(g, s', bytes, oversized).1);
    }
  }

  lemma ConnectionIsLines(g: Grammar, s: ParserState, chunks: Chunks)
    ensures var inputs := LineInputs(LinesOf(Joined(chunks))) + [Restart];
            Connection(g, s, chunks) == (After(g, s, inputs), Outputs(g, s, inputs))
  {
    var lines := LinesOf(Joined(chunks));
    StreamIsFoldOfLines(MAX_LOGCAT_LINE_BYTES, LineParser(g), s, chunks);
    LinesAreInputs(g, s, lines);
    OutputsOfConcat(g, s, LineInputs(lines), [Restart]);
    OutputsOfOne(g, After(g, s, LineInputs(lines)), Restart);
  }

  /** However the bytes of each connection are cut into chunks, the parser yields what the lines and restarts yield. */
  lemma {:induction false} SessionsAreLines(g: Grammar, s: ParserState, connections: seq<Chunks>)
    ensures ParseConnections(g, s, connections) ==
                  (After(g, s, InputsOf(connections)), Outputs(g, s, InputsOf(connections)))
    decreases |connections|
  {
    if connections != [] {
      var inputs := LineInputs(LinesOf(Joined(connections[0]))) + [Restart];
      ConnectionIsLines(g, s, connections[0]);
      SessionsAreLines(g, After(g, s, inputs), connections[1..]);
      OutputsOfConcat(g, s, inputs, InputsOf(connections[1..]));
    }
  }

  /**
   * What is parsed is well grouped, tells the lines of all connections in order, and is accounted for by the
   * statistics.
   */
  lemma SessionsAreGrouped(g: Grammar, connections: seq<Chunks>)
    ensures var (s, outputs) := ParseConnections(g, INITIAL, connections);
            && WellGrouped(outputs, None, 1)
            && TellsLines(g, InputsOf(connections), outputs, None, 1)
            && Adds(INITIAL.stats, s.stats, InputsOf(connections), g)
            && s.stats.records == RecordCount(outputs)
  {
    SessionsAreLines(g, INITIAL, connections);
    GroupsAreWellFormed(g, INITIAL, InputsOf(connections), None);
    RecordsTellTheLines(g, INITIAL, InputsOf(connections), None);
    EveryLineIsAccounted(g, INITIAL, InputsOf(connections));
  }
}
