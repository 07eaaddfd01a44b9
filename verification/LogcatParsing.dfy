/**
 * The incremental logcat parser: lines, groups of continuation lines, and the statistics that account for every line.
 */
module LogcatParsing {
  import opened Wrappers
  import opened Bytes
  import opened LineAssembly

  const MAX_LOGCAT_LINE_BYTES: nat := 256 * 1024
  const CARRIAGE_RETURN: Byte := 13

  datatype LogPriority = Verbose | Debug | Info | Warning | Error | Fatal

  datatype LogMarker = JavaCrash | NativeCrash | Anr

  datatype LogRecord = LogRecord(
    timestamp: string, processId: nat, threadId: nat, userId: Option<nat>, priority: LogPriority, tag: string,
    message: string, package: Option<string>, process: Option<string>, continuation: bool, crashBoundary: bool,
    groupId: Option<nat>, marker: Option<LogMarker>, truncated: bool)

  /** What the header expression captures; `rawTag` is the tag before it is trimmed. */
  datatype Header = Header(
    timestamp: string, processId: nat, threadId: nat, userId: Option<nat>, priority: LogPriority,
    rawTag: string, tag: string, message: string)

  /** The foreign parts of the parser: UTF-8 decoding, the header expression and the crash markers. */
  datatype Grammar = Grammar(
    decode: seq<Byte> -> string, invalid: seq<Byte> -> bool,
    header: string -> Option<Header>, marker: (string, string) -> Option<LogMarker>)

  datatype ParserStats = ParserStats(
    physicalLines: nat, records: nat, malformedLines: nat, invalidUtf8Lines: nat, oversizedLines: nat,
    truncatedLines: nat, restartBoundaries: nat)

  datatype ParserState = ParserState(previous: Option<LogRecord>, nextGroupId: nat, stats: ParserStats)

  const INITIAL: ParserState := ParserState(None, 1, ParserStats(0, 0, 0, 0, 0, 0, 0))

  // A line without the one carriage return at its end.
  function StripReturn(bytes: seq<Byte>): (content: seq<Byte>)
    ensures bytes == content + [13] || (bytes == content && (bytes == [] || bytes[|bytes| - 1] != 13))
  {
    if bytes != [] && bytes[|bytes| - 1] == CARRIAGE_RETURN then bytes[..|bytes| - 1] else bytes
  }

  function HeaderRecord(g: Grammar, h: Header, groupId: nat, oversized: bool): LogRecord {
    var marker := g.marker(h.rawTag, h.message);
    LogRecord(h.timestamp, h.processId, h.threadId, h.userId, h.priority, h.tag, h.message, None, None,
              false, marker.Some?, Some(groupId), marker, oversized)
  }

  function ContinuationRecord(g: Grammar, previous: LogRecord, line: string, oversized: bool): LogRecord {
    var marker := g.marker(previous.tag, line);
    previous.(message := line, continuation := true, crashBoundary := marker.Some?,
              marker := marker, truncated := oversized)
  }

  function CountLine(g: Grammar, stats: ParserStats, bytes: seq<Byte>, oversized: bool): ParserStats {
    var counted := stats.(physicalLines := stats.physicalLines + 1);
    var sized := if oversized
                 then counted.(oversizedLines := stats.oversizedLines + 1, truncatedLines := stats.truncatedLines + 1)
                 else counted;
    if g.invalid(StripReturn(bytes)) then sized.(invalidUtf8Lines := stats.invalidUtf8Lines + 1) else sized
  }

  function Emit(st: ParserState, record: LogRecord): (ParserState, seq<LogRecord>) {
    (st.(previous := Some(record), stats := st.stats.(records := st.stats.records + 1)), [record])
  }

  function ParseLine(g: Grammar, st: ParserState, bytes: seq<Byte>, oversized: bool): (ParserState, seq<LogRecord>) {
    var counted := st.(stats := CountLine(g, st.stats, bytes, oversized));
    var line := g.decode(StripReturn(bytes));
    if line == "" then (counted, [])
    else match g.header(line)
      case Some(h) =>
        Emit(counted.(nextGroupId := st.nextGroupId + 1), HeaderRecord(g, h, st.nextGroupId, oversized))
      case None =>
        match st.previous
        case Some(previous) => Emit(counted, ContinuationRecord(g, previous, line, oversized))
        case None => (counted.(stats := counted.stats.(malformedLines := st.stats.malformedLines + 1)), [])
  }

  function LineParser(g: Grammar): Parser<ParserState, LogRecord> {
    (st, bytes, oversized) => ParseLine(g, st, bytes, oversized)
  }

  // ---------------------------------------------------------------------------------------------
  // Groups, over runs with restarts
  // ---------------------------------------------------------------------------------------------

  datatype Input = Line(bytes: seq<Byte>, oversized: bool) | Restart

  datatype Output = Emitted(record: LogRecord) | Restarted

  function Respond(g: Grammar, st: ParserState, input: Input): (ParserState, seq<Output>) {
    match input
    case Line(bytes, oversized) =>
      var (st', records) := ParseLine(g, st, bytes, oversized);
      (st', if records == [] then [] else [Emitted(records[0])])
    case Restart =>
      (st.(previous := None, stats := st.stats.(restartBoundaries := st.stats.restartBoundaries + 1)), [Restarted])
  }

  function Outputs(g: Grammar, st: ParserState, inputs: seq<Input>): seq<Output>
    decreases |inputs|
  {
    if inputs == [] then []
    else var (st', outputs) := Respond(g, st, inputs[0]); outputs + Outputs(g, st', inputs[1..])
  }

  function After(g: Grammar, st: ParserState, inputs: seq<Input>): ParserState
    decreases |inputs|
  {
    if inputs == [] then st else After(g, Respond(g, st, inputs[0]).0, inputs[1..])
  }

  // A continuation carries everything of its header but the message and what the message implies.
  predicate SameGroup(header: LogRecord, r: LogRecord) {
    && r.groupId == header.groupId && r.timestamp == header.timestamp && r.processId == header.processId
    && r.threadId == header.threadId && r.userId == header.userId && r.priority == header.priority
    && r.tag == header.tag && r.package == header.package && r.process == header.process
  }

  // `header` is the latest header since the last restart, `next` the next group id.
  predicate WellGrouped(outputs: seq<Output>, header: Option<LogRecord>, next: nat)
    decreases |outputs|
  {
    outputs == [] ||
    match outputs[0]
    case Restarted => WellGrouped(outputs[1..], None, next)
    case Emitted(r) =>
      if r.continuation then
        header.Some? && SameGroup(header.value, r) && WellGrouped(outputs[1..], header, next)
      else
        r.groupId == Some(next) && WellGrouped(outputs[1..], Some(r), next + 1)
  }

  predicate Follows(st: ParserState, header: Option<LogRecord>) {
    match st.previous
    case None => header.None?
    case Some(previous) => header.Some? && SameGroup(header.value, previous)
  }

  /** Headers open consecutive groups, and every continuation belongs to the latest header since the last restart. */
  lemma {:induction false} GroupsAreWellFormed(g: Grammar, st: ParserState, inputs: seq<Input>,
                                               header: Option<LogRecord>)
    requires Follows(st, header)
    ensures WellGrouped(Outputs(g, st, inputs), header, st.nextGroupId)
    decreases |inputs|
  {
    if inputs != [] {
      var (st', outputs) := Respond(g, st, inputs[0]);
      var rest := Outputs(g, st', inputs[1..]);
      if outputs == [] {
        GroupsAreWellFormed(g, st', inputs[1..], header);
        assert outputs + rest == rest;
      } else {
        var header' := match outputs[0]
          case Restarted => None
          case Emitted(r) => if r.continuation then header else Some(r);
        GroupsAreWellFormed(g, st', inputs[1..], header');
        assert (outputs + rest)[0] == outputs[0] && (outputs + rest)[1..] == rest;
      }
    }
  }

  // Two headers of one run never share a group.
  lemma {:induction false} GroupIdsIncrease(outputs: seq<Output>, header: Option<LogRecord>, next: nat, i: nat, j: nat)
    requires WellGrouped(outputs, header, next) && j < |outputs|
    requires outputs[j].Emitted? && !outputs[j].record.continuation
    ensures outputs[j].record.groupId.Some? && next <= outputs[j].record.groupId.value
    ensures i < j && outputs[i].Emitted? && !outputs[i].record.continuation ==>
              outputs[i].record.groupId.Some? && outputs[i].record.groupId.value < outputs[j].record.groupId.value
    decreases |outputs|
  {
    if j > 0 {
      var first := outputs[0];
      var header' := match first
        case Restarted => None
        case Emitted(r) => if r.continuation then header else Some(r);
      var next' := if first.Emitted? && !first.record.continuation then next + 1 else next;
      GroupIdsIncrease(outputs[1..], header', next', if i > 0 then i - 1 else j - 1, j - 1);
    }
  }

  function CountOf(inputs: seq<Input>, counts: Input -> bool): nat {
    if inputs == [] then 0 else (if counts(inputs[0]) then 1 else 0) + CountOf(inputs[1..], counts)
  }

  function IsLine(): Input -> bool {
    (input: Input) => input.Line?
  }

  function IsEmptyLine(g: Grammar): Input -> bool {
    (input: Input) => input.Line? && TextOf(g, input.bytes) == ""
  }

  function IsInvalidLine(g: Grammar): Input -> bool {
    (input: Input) => input.Line? && g.invalid(StripReturn(input.bytes))
  }

  function IsOversizedLine(): Input -> bool {
    (input: Input) => input.Line? && input.oversized
  }

  function RecordCount(outputs: seq<Output>): nat {
    if outputs == [] then 0 else (if outputs[0].Emitted? then 1 else 0) + RecordCount(outputs[1..])
  }

  lemma {:induction false} RecordCountOfConcat(a: seq<Output>, b: seq<Output>)
    ensures RecordCount(a + b) == RecordCount(a) + RecordCount(b)
  {
    if a == [] {
      assert a + b == b;
    } else {
      assert (a + b)[1..] == a[1..] + b;
      RecordCountOfConcat(a[1..], b);
    }
  }

  predicate Adds(before: ParserStats, after: ParserStats, inputs: seq<Input>, g: Grammar) {
    && after.physicalLines == before.physicalLines + CountOf(inputs, IsLine())
    && after.oversizedLines == before.oversizedLines + CountOf(inputs, IsOversizedLine())
    && after.truncatedLines == before.truncatedLines + CountOf(inputs, IsOversizedLine())
    && after.invalidUtf8Lines == before.invalidUtf8Lines + CountOf(inputs, IsInvalidLine(g))
    && after.restartBoundaries == before.restartBoundaries + |inputs| - CountOf(inputs, IsLine())
    && after.physicalLines - before.physicalLines ==
       (after.records - before.records) + (after.malformedLines - before.malformedLines)
       + CountOf(inputs, IsEmptyLine(g))
  }

  lemma LineIsCounted(g: Grammar, st: ParserState, bytes: seq<Byte>, oversized: bool)
    ensures var (st', records) := ParseLine(g, st, bytes, oversized);
            var before, after, one := st.stats, st'.stats, if oversized then 1 else 0;
            && after.physicalLines == before.physicalLines + 1 && after.restartBoundaries == before.restartBoundaries
            && after.oversizedLines == before.oversizedLines + one
            && after.truncatedLines == before.truncatedLines + one
            && after.invalidUtf8Lines == before.invalidUtf8Lines + (if g.invalid(StripReturn(bytes)) then 1 else 0)
            && after.records == before.records + |records| && |records| <= 1
            && 1 == |records| + (after.malformedLines - before.malformedLines)
                    + (if TextOf(g, bytes) == "" then 1 else 0)
  {
  }

  lemma CountOfOne(input: Input, counts: Input -> bool)
    ensures CountOf([input], counts) == if counts(input) then 1 else 0
  {
    assert [input][1..] == [];
  }

  lemma InputIsAccounted(g: Grammar, st: ParserState, input: Input)
    ensures var (st', outputs) := Respond(g, st, input);
            && Adds(st.stats, st'.stats, [input], g)
            && st'.stats.records == st.stats.records + RecordCount(outputs)
  {
    CountOfOne(input, IsLine());
    CountOfOne(input, IsOversizedLine());
    CountOfOne(input, IsInvalidLine(g));
    CountOfOne(input, IsEmptyLine(g));
    var outputs := Respond(g, st, input).1;
    if outputs != [] { assert outputs[1..] == []; }
    if input.Line? { LineIsCounted(g, st, input.bytes, input.oversized); }
  }

  lemma CountOfCons(first: Input, rest: seq<Input>, counts: Input -> bool)
    ensures CountOf([first] + rest, counts) == CountOf([first], counts) + CountOf(rest, counts)
  {
    assert ([first] + rest)[1..] == rest && [first][1..] == [];
  }

  lemma AddsInTwo(a: ParserStats, b: ParserStats, c: ParserStats, first: Input, rest: seq<Input>, g: Grammar)
    requires Adds(a, b, [first], g) && Adds(b, c, rest, g)
    ensures Adds(a, c, [first] + rest, g)
  {
    CountOfCons(first, rest, IsLine());
    CountOfCons(first, rest, IsOversizedLine());
    CountOfCons(first, rest, IsInvalidLine(g));
    CountOfCons(first, rest, IsEmptyLine(g));
  }

  /** Every line becomes a record, is malformed, or is empty; the statistics say how many of each, and of what kind. */
  lemma {:induction false} EveryLineIsAccounted(g: Grammar, st: ParserState, inputs: seq<Input>)
    ensures Adds(st.stats, After(g, st, inputs).stats, inputs, g)
    ensures After(g, st, inputs).stats.records == st.stats.records + RecordCount(Outputs(g, st, inputs))
    decreases |inputs|
  {
    if inputs != [] {
      var first, rest := inputs[0], inputs[1..];
      var (st', outputs) := Respond(g, st, first);
      InputIsAccounted(g, st, first);
      EveryLineIsAccounted(g, st', rest);
      AddsInTwo(st.stats, st'.stats, After(g, st', rest).stats, first, rest, g);
      assert inputs == [first] + rest;
      RecordCountOfConcat(outputs, Outputs(g, st', rest));
    }
  }

  // ---------------------------------------------------------------------------------------------
  // What the records say
  // ---------------------------------------------------------------------------------------------

  function TextOf(g: Grammar, bytes: seq<Byte>): string {
    g.decode(StripReturn(bytes))
  }

  // A record that says what the header captured.
  predicate TellsHeader(g: Grammar, h: Header, oversized: bool, r: LogRecord) {
    && r.timestamp == h.timestamp && r.processId == h.processId && r.threadId == h.threadId && r.userId == h.userId
    && r.priority == h.priority && r.tag == h.tag && r.message == h.message
    && r.package == None && r.process == None && !r.continuation
    && r.marker == g.marker(h.rawTag, h.message) && (r.crashBoundary <==> r.marker.Some?) && r.truncated == oversized
  }

  // A record that says what one more line of a group says; all else it has from the group.
  predicate TellsMore(g: Grammar, group: LogRecord, line: string, oversized: bool, r: LogRecord) {
    && r.message == line && r.continuation && SameGroup(group, r)
    && r.marker == g.marker(group.tag, line) && (r.crashBoundary <==> r.marker.Some?) && r.truncated == oversized
  }

  // The outputs are, in order, what the inputs say; `group` is the latest header since the last restart.
  predicate TellsLines(g: Grammar, inputs: seq<Input>, outputs: seq<Output>, group: Option<LogRecord>, next: nat)
    decreases |inputs|
  {
    if inputs == [] then outputs == []
    else match inputs[0]
      case Restart =>
        outputs != [] && outputs[0] == Restarted && TellsLines(g, inputs[1..], outputs[1..], None, next)
      case Line(bytes, oversized) =>
        var line := TextOf(g, bytes);
        if line == "" || (g.header(line).None? && group.None?) then TellsLines(g, inputs[1..], outputs, group, next)
        else
          && outputs != [] && outputs[0].Emitted?
          && var r := outputs[0].record;
             match g.header(line)
             case Some(h) =>
               && TellsHeader(g, h, oversized, r) && r.groupId == Some(next)
               && TellsLines(g, inputs[1..], outputs[1..], Some(r), next + 1)
             case None =>
               TellsMore(g, group.value, line, oversized, r) && TellsLines(g, inputs[1..], outputs[1..], group, next)
  }

  // One line tells its record.
  lemma LineIsTold(g: Grammar, st: ParserState, bytes: seq<Byte>, oversized: bool, group: Option<LogRecord>)
    requires Follows(st, group)
    ensures var (st', records) := ParseLine(g, st, bytes, oversized);
            var line := TextOf(g, bytes);
            if line == "" || (g.header(line).None? && group.None?)
            then records == [] && Follows(st', group) && st'.nextGroupId == st.nextGroupId
            else
              && |records| == 1
              && match g.header(line)
                 case Some(h) =>
                   && TellsHeader(g, h, oversized, records[0]) && records[0].groupId == Some(st.nextGroupId)
                   && Follows(st', Some(records[0])) && st'.nextGroupId == st.nextGroupId + 1
                 case None =>
                   && TellsMore(g, group.value, line, oversized, records[0])
                   && Follows(st', group) && st'.nextGroupId == st.nextGroupId
  {
  }

  /**
   * Over every run the records are, in order, those of the lines: each field is the header's, the group's or the
   * line's.
   */
  lemma {:induction false} RecordsTellTheLines(g: Grammar, st: ParserState, inputs: seq<Input>,
                                               group: Option<LogRecord>)
    requires Follows(st, group)
    ensures TellsLines(g, inputs, Outputs(g, st, inputs), group, st.nextGroupId)
    decreases |inputs|
  {
    if inputs != [] {
      var (st', outputs) := Respond(g, st, inputs[0]);
      var rest := Outputs(g, st', inputs[1..]);
      match inputs[0]
      case Restart =>
        RecordsTellTheLines(g, st', inputs[1..], None);
        assert ([Restarted] + rest)[1..] == rest;
      case Line(bytes, oversized) =>
        LineIsTold(g, st, bytes, oversized, group);
        if outputs == [] {
          RecordsTellTheLines(g, st', inputs[1..], group);
          assert outputs + rest == rest;
        } else {
          var r := outputs[0].record;
          RecordsTellTheLines(g, st', inputs[1..], if r.continuation then group else Some(r));
          assert (outputs + rest)[0] == Emitted(r) && (outputs + rest)[1..] == rest;
        }
    }
  }
}
