/** The logcat parser as an object fed one chunk at a time. */
module LogcatParsers {
  import opened Wrappers
  import opened Bytes
  import A = LineAssembly
  import opened L = LogcatParsing

  class LogcatParser {
    const grammar: Grammar
    var partial: seq<Byte>
    var discardingOversized: bool
    var previous: Option<LogRecord>
    var nextGroupId: nat
    var stats: ParserStats

    function Inner(): ParserState
      reads this
    {
      ParserState(previous, nextGroupId, stats)
    }

    function State(): A.Assembly<ParserState>
      reads this
    {
      A.Assembly(partial, discardingOversized, Inner())
    }

    predicate Valid()
      reads this
    {
      A.Bounded(MAX_LOGCAT_LINE_BYTES, State())
    }

    constructor (grammar: Grammar)
      ensures Valid() && this.grammar == grammar && State() == A.Fresh(INITIAL)
    {
      this.grammar := grammar;
      partial, discardingOversized := [], false;
      previous, nextGroupId, stats := None, 1, ParserStats(0, 0, 0, 0, 0, 0, 0);
    }

    method Push(chunk: seq<Byte>) returns (records: seq<LogRecord>)
      requires Valid()
      modifies this
      ensures Valid()
      ensures (State(), records) == A.Push(MAX_LOGCAT_LINE_BYTES, LineParser(grammar), old(State()), chunk)
    {
      records := [];
      A.PushKeepsBound(MAX_LOGCAT_LINE_BYTES, LineParser(grammar), State(), chunk);
      for i := 0 to |chunk|
        invariant (State(), records) == A.Push(MAX_LOGCAT_LINE_BYTES, LineParser(grammar), old(State()), chunk[..i])
      {
        A.PushNext(MAX_LOGCAT_LINE_BYTES, LineParser(grammar), old(State()), chunk, i);
        assert records + [] == records;
        var byte := chunk[i];
        if byte == A.NEWLINE {
          var line := partial;
          partial := [];
          var more := ParsePhysicalLine(line, discardingOversized);
          records := records + more;
          discardingOversized := false;
        } else if |partial| < MAX_LOGCAT_LINE_BYTES {
          partial := partial + [byte];
        } else {
          discardingOversized := true;
        }
      }
      assert chunk[..|chunk|] == chunk;
    }

    method Finish() returns (records: seq<LogRecord>)
      modifies this
      ensures (State(), records) == A.Finish(LineParser(grammar), old(State()))
    {
      if partial == [] && !discardingOversized {
        return [];
      }
      var line, oversized := partial, discardingOversized;
      partial, discardingOversized := [], false;
      records := ParsePhysicalLine(line, oversized);
    }

    method RestartStream() returns (records: seq<LogRecord>)
      modifies this
      ensures var (st, last) := A.Finish(LineParser(grammar), old(State()));
              records == last && State() == st.(inner := Respond(grammar, st.inner, Restart).0)
    {
      records := Finish();
      previous := None;
      stats := stats.(restartBoundaries := stats.restartBoundaries + 1);
    }

    method ParsePhysicalLine(bytes: seq<Byte>, oversized: bool) returns (records: seq<LogRecord>)
      modifies this`previous, this`nextGroupId, this`stats
      ensures (Inner(), records) == ParseLine(grammar, old(Inner()), bytes, oversized)
    {
      stats := stats.(physicalLines := stats.physicalLines + 1);
      if oversized {
        stats := stats.(oversizedLines := stats.oversizedLines + 1, truncatedLines := stats.truncatedLines + 1);
      }
      var stripped := StripReturn(bytes);
      if grammar.invalid(stripped) {
        stats := stats.(invalidUtf8Lines := stats.invalidUtf8Lines + 1);
      }
      var line := grammar.decode(stripped);
      if line == "" {
        return [];
      }
      var record;
      match grammar.header(line) {
        case Some(h) =>
          record := HeaderRecord(grammar, h, nextGroupId, oversized);
          nextGroupId := nextGroupId + 1;
        case None =>
          if previous.None? {
            stats := stats.(malformedLines := stats.malformedLines + 1);
            return [];
          }
          record := ContinuationRecord(grammar, previous.value, line, oversized);
      }
      stats := stats.(records := stats.records + 1);
      previous := Some(record);
      records := [record];
    }
  }
}
