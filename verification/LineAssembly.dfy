/** Assembling lines of bounded length from chunks of bytes, whatever is then done with a line. */
module LineAssembly {
  import opened Bytes

  const NEWLINE: Byte := 10

  /** `inner` is the state of the line parser the assembler feeds. */
  datatype Assembly<S> = Assembly(partial: seq<Byte>, discarding: bool, inner: S)

  /** A parser takes its state, a line, and whether the line was cut short; it yields records. */
  type Parser<!S, !R> = (S, seq<Byte>, bool) -> (S, seq<R>)

  function PushByte<S, R>(limit: nat, parse: Parser<S, R>, st: Assembly<S>, b: Byte): (Assembly<S>, seq<R>) {
    if b == NEWLINE then
      var (inner, records) := parse(st.inner, st.partial, st.discarding);
      (Assembly([], false, inner), records)
    else if |st.partial| < limit then (st.(partial := st.partial + [b]), [])
    else (st.(discarding := true), [])
  }

  function Push<S, R>(limit: nat, parse: Parser<S, R>, st: Assembly<S>, chunk: seq<Byte>): (Assembly<S>, seq<R>) {
    if chunk == [] then (st, [])
    else
      var (st', records) := Push(limit, parse, st, chunk[..|chunk| - 1]);
      var (st'', more) := PushByte(limit, parse, st', chunk[|chunk| - 1]);
      (st'', records + more)
  }

  function Finish<S, R>(parse: Parser<S, R>, st: Assembly<S>): (Assembly<S>, seq<R>) {
    if st.partial == [] && !st.discarding then (st, [])
    else
      var (inner, records) := parse(st.inner, st.partial, st.discarding);
      (Assembly([], false, inner), records)
  }

  // ---------------------------------------------------------------------------------------------
  // The whole stream at once: split on newlines, truncate each line, fold the parser
  // ---------------------------------------------------------------------------------------------

  function Truncate(line: seq<Byte>, limit: nat): seq<Byte> {
    if |line| <= limit then line else line[..limit]
  }

  // The complete lines of `bytes`, and what follows the last newline.
  function SplitLines(bytes: seq<Byte>): (r: (seq<seq<Byte>>, seq<Byte>)) {
    if bytes == [] then ([], [])
    else
      var (lines, rest) := SplitLines(bytes[..|bytes| - 1]);
      var b := bytes[|bytes| - 1];
      if b == NEWLINE then (lines + [rest], []) else (lines, rest + [b])
  }

  function ParseLines<S, R>(limit: nat, parse: Parser<S, R>, s: S, lines: seq<seq<Byte>>): (S, seq<R>) {
    if lines == [] then (s, [])
    else
      var (s', records) := ParseLines(limit, parse, s, lines[..|lines| - 1]);
      var line := lines[|lines| - 1];
      var (s'', more) := parse(s', Truncate(line, limit), |line| > limit);
      (s'', records + more)
  }

  function LinesOf(bytes: seq<Byte>): seq<seq<Byte>> {
    var (lines, rest) := SplitLines(bytes);
    if rest == [] then lines else lines + [rest]
  }

  function Fresh<S>(s: S): Assembly<S> {
    Assembly([], false, s)
  }

  // The assembler holds the unfinished line, cut to the limit, and knows whether it was cut.
  lemma {:induction false} PushFollowsLines<S, R>(limit: nat, parse: Parser<S, R>, s: S, bytes: seq<Byte>)
    ensures var (lines, rest) := SplitLines(bytes);
            var (inner, records) := ParseLines(limit, parse, s, lines);
            Push(limit, parse, Fresh(s), bytes) == (Assembly(Truncate(rest, limit), |rest| > limit, inner), records)
  {
    if bytes != [] {
      var front, b := bytes[..|bytes| - 1], bytes[|bytes| - 1];
      PushFollowsLines(limit, parse, s, front);
      var (lines, rest) := SplitLines(front);
      if b == NEWLINE {
        assert (lines + [rest])[..|lines|] == lines;
      } else {
        var records := ParseLines(limit, parse, s, lines).1;
        assert records + [] == records;
        assert Truncate(rest + [b], limit) == if |rest| < limit then rest + [b] else Truncate(rest, limit);
      }
    }
  }

  lemma PushNext<S, R>(limit: nat, parse: Parser<S, R>, st: Assembly<S>, chunk: seq<Byte>, i: nat)
    requires i < |chunk|
    ensures var (st', records) := Push(limit, parse, st, chunk[..i]);
            var (st'', more) := PushByte(limit, parse, st', chunk[i]);
            Push(limit, parse, st, chunk[..i + 1]) == (st'', records + more)
  {
    assert chunk[..i + 1][..i] == chunk[..i];
  }

  lemma {:induction false} PushConcat<S, R>(limit: nat, parse: Parser<S, R>, st: Assembly<S>, a: seq<Byte>,
                                            b: seq<Byte>)
    ensures var (st', first) := Push(limit, parse, st, a);
            var (st'', second) := Push(limit, parse, st', b);
            Push(limit, parse, st, a + b) == (st'', first + second)
  {
    var (st', first) := Push(limit, parse, st, a);
    if b == [] {
      assert a + b == a && first + [] == first;
    } else {
      var front := b[..|b| - 1];
      assert (a + b)[..|a + b| - 1] == a + front;
      PushConcat(limit, parse, st, a, front);
      var (st1, second) := Push(limit, parse, st', front);
      var more := PushByte(limit, parse, st1, b[|b| - 1]).1;
      assert first + second + more == first + (second + more);
    }
  }

  function Joined(chunks: seq<seq<Byte>>): seq<Byte> {
    if chunks == [] then [] else Joined(chunks[..|chunks| - 1]) + chunks[|chunks| - 1]
  }

  function PushAll<S, R>(limit: nat, parse: Parser<S, R>, st: Assembly<S>,
                         chunks: seq<seq<Byte>>): (Assembly<S>, seq<R>)
  {
    if chunks == [] then (st, [])
    else
      var (st', records) := PushAll(limit, parse, st, chunks[..|chunks| - 1]);
      var (st'', more) := Push(limit, parse, st', chunks[|chunks| - 1]);
      (st'', records + more)
  }

  lemma {:induction false} ChunksDoNotMatter<S, R>(limit: nat, parse: Parser<S, R>, st: Assembly<S>,
                                                   chunks: seq<seq<Byte>>)
    ensures PushAll(limit, parse, st, chunks) == Push(limit, parse, st, Joined(chunks))
  {
    if chunks != [] {
      var front := chunks[..|chunks| - 1];
      ChunksDoNotMatter(limit, parse, st, front);
      PushConcat(limit, parse, st, Joined(front), chunks[|chunks| - 1]);
    }
  }

  /** Any chunking, pushed and finished, yields what folding the parser over the truncated lines yields. */
  lemma StreamIsFoldOfLines<S, R>(limit: nat, parse: Parser<S, R>, s: S, chunks: seq<seq<Byte>>)
    ensures var (st, records) := PushAll(limit, parse, Fresh(s), chunks);
            var (st', last) := Finish(parse, st);
            var (inner, all) := ParseLines(limit, parse, s, LinesOf(Joined(chunks)));
            records + last == all && st' == Fresh(inner)
  {
    ChunksDoNotMatter(limit, parse, Fresh(s), chunks);
    var bytes := Joined(chunks);
    PushFollowsLines(limit, parse, s, bytes);
    var (lines, rest) := SplitLines(bytes);
    if rest != [] {
      assert (lines + [rest])[..|lines|] == lines;
    } else {
      var records := ParseLines(limit, parse, s, lines).1;
      assert records + [] == records;
    }
  }

  /** The assembler discards only once the partial line is exactly full. */
  predicate Bounded<S>(limit: nat, st: Assembly<S>) {
    |st.partial| <= limit && (st.discarding ==> |st.partial| == limit)
  }

  lemma {:induction false} PushKeepsBound<S, R>(limit: nat, parse: Parser<S, R>, st: Assembly<S>, chunk: seq<Byte>)
    requires Bounded(limit, st)
    ensures Bounded(limit, Push(limit, parse, st, chunk).0)
  {
    if chunk != [] { PushKeepsBound(limit, parse, st, chunk[..|chunk| - 1]); }
  }

  // A line never contains a newline, and the lines with their newlines are the stream.
  function Unsplit(lines: seq<seq<Byte>>): seq<Byte> {
    if lines == [] then [] else Unsplit(lines[..|lines| - 1]) + lines[|lines| - 1] + [NEWLINE]
  }

  lemma {:induction false} SplitLinesExactly(bytes: seq<Byte>)
    ensures var (lines, rest) := SplitLines(bytes);
            && bytes == Unsplit(lines) + rest && NEWLINE !in rest
            && forall i :: 0 <= i < |lines| ==> NEWLINE !in lines[i]
  {
    if bytes != [] {
      var front, b := bytes[..|bytes| - 1], bytes[|bytes| - 1];
      SplitLinesExactly(front);
      var (lines, rest) := SplitLines(front);
      assert bytes == front + [b];
      if b == NEWLINE {
        assert (lines + [rest])[..|lines|] == lines;
        assert Unsplit(lines + [rest]) == Unsplit(lines) + rest + [NEWLINE];
      } else {
        assert Unsplit(lines) + (rest + [b]) == Unsplit(lines) + rest + [b];
      }
    }
  }
}
