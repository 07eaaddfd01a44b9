/** Values that overlap one with whitespace: a stream that drops nothing can publish any of them. */
module OverlappingValues {
  import opened Wrappers
  import opened Text
  import opened Redaction
  import opened RedactionSafety
  import opened StreamingRedaction
  import opened StreamEquivalence
  import opened StreamGuarantees
  import opened StreamCounterexamples
  import opened ApartValues
  import opened StreamApartValues

  const LONG: string := "wwx"
  const SHORT: string := "x x"
  const FRONT: string := "wwx x "
  const REST: string := "xzz"

  // A text that lacks the first character of a value from `i` on has no match there.
  lemma {:induction false} NoMatchesWithoutFirst(text: string, p: string, i: nat)
    requires p != "" && i <= |text| && forall j :: i <= j < |text| ==> text[j] != p[0]
    ensures MatchesFrom(text, p, i) == []
    decreases |text| - i
  {
    if i + |p| <= |text| {
      assert text[i..][0] == text[i];
      NoMatchesWithoutFirst(text, p, i + 1);
    }
  }

  lemma NoMatchHere(text: string, p: string, i: nat)
    requires p != "" && i + |p| <= |text| && text[i..i + |p|] != p
    ensures MatchesFrom(text, p, i) == MatchesFrom(text, p, i + 1)
  {
    assert text[i..][..|p|] == text[i..i + |p|];
  }

  lemma MatchHere(text: string, p: string, i: nat)
    requires p != "" && i + |p| <= |text| && text[i..i + |p|] == p
    ensures MatchesFrom(text, p, i) == [i] + MatchesFrom(text, p, i + |p|)
  {
    assert text[i..][..|p|] == text[i..i + |p|];
  }

  lemma LongMatches(line: string)
    requires line == "wwx x xzz"
    ensures MatchesFrom(line, LONG, 0) == [0]
  {
    assert line[0..3] == LONG;
    MatchHere(line, LONG, 0);
    NoMatchesWithoutFirst(line, LONG, 3);
  }

  // The scan finds the first of two overlapping matches, and so misses the second, across which the cut falls.
  lemma ShortMatches(line: string)
    requires line == "wwx x xzz"
    ensures MatchesFrom(line, SHORT, 0) == [2]
  {
    assert line[0..3] == "wwx" && line[1..4] == "wx " && line[2..5] == SHORT
        && line[5..8] == " xz" && line[6..9] == "xzz";
    NoMatchHere(line, SHORT, 0);
    NoMatchHere(line, SHORT, 1);
    MatchHere(line, SHORT, 2);
    NoMatchHere(line, SHORT, 5);
    NoMatchHere(line, SHORT, 6);
    assert MatchesFrom(line, SHORT, 7) == [];
  }

  lemma LineLengths(patterns: Patterns, line: string)
    requires patterns == [LONG, SHORT] && line == "wwx x xzz"
    ensures ByteLength(line) == 9 && Retained(patterns) == 2
  {
    AsciiByteLength(line);
    AsciiByteLength(LONG);
    AsciiByteLength(SHORT);
    assert patterns[1..] == [SHORT] && patterns[1..][1..] == [];
    assert LongestBytes([]) == 0 && LongestBytes([SHORT]) == 3;
  }

  lemma LastBlankOfLine(line: string)
    requires line == "wwx x xzz"
    ensures LastCut(line, 7, 9) == Some(6)
  {
    assert line[..6] == FRONT;
    AsciiByteLength(FRONT);
    LastCutIsLast(line, 7, 9, 6);
    var k := LastCut(line, 7, 9).value;
    assert k != 7 && k != 8 && k != 9;
  }

  lemma LineIsCutAtTheLastBlank(patterns: Patterns, line: string)
    requires patterns == [LONG, SHORT] && line == "wwx x xzz"
    ensures NextCleanCut(patterns, line, 6) == 6
  {
    LongMatches(line);
    ShortMatches(line);
    assert CleanFrom(line, LONG, 0, 6) && CleanFrom(line, SHORT, 0, 6);
    assert CleanCut(patterns, line, 6);
  }

  lemma NotIn(p: string, s: string)
    requires p != "" && p[0] !in s
    ensures !Occurs(p, s)
  {
    forall i: nat | i <= |s| ensures !OccursAt(p, s, i) {
      assert i < |s| ==> s[i..][0] == s[i] && s[i] in s;
    }
  }

  lemma TwoValuesRedact(patterns: Patterns, p: string, q: string, s: string)
    requires patterns == [p, q] && '=' !in Replace(Replace(s, p), q)
    ensures RedactText(patterns, s) == Replace(Replace(s, p), q)
  {
    assert patterns[1..] == [q] && patterns[1..][1..] == [];
    var r := Replace(s, p);
    assert ReplaceAll(r, [q]) == ReplaceAll(Replace(r, q), []);
    NoAssignmentIsUntouched(Replace(r, q));
  }

  lemma ShortNotIn(s: string)
    requires |s| <= 13 && s == "[REDACTED] x "
    ensures !Occurs(SHORT, s)
  {
    forall i: nat | i <= |s| ensures !OccursAt(SHORT, s, i) {
      assert i + 3 <= |s| ==> s[i] != 'x';
      if i + 3 <= |s| { assert s[i..][0] == s[i]; }
    }
  }

  lemma FrontIsRedacted(patterns: Patterns)
    requires patterns == [LONG, SHORT]
    ensures RedactText(patterns, FRONT) == "[REDACTED] x "
  {
    assert LONG <= FRONT && FRONT[3..] == " x ";
    ReplaceMatch(FRONT, LONG);
    NotIn(LONG, " x ");
    ReplaceFindsNothing(" x ", LONG);
    var r := Replace(FRONT, LONG);
    assert r == "[REDACTED] x ";
    ShortNotIn(r);
    ReplaceFindsNothing(r, SHORT);
    TwoValuesRedact(patterns, LONG, SHORT, FRONT);
  }

  lemma RestIsUntouched(patterns: Patterns)
    requires patterns == [LONG, SHORT]
    ensures RedactText(patterns, REST) == REST
  {
    NotIn(LONG, REST);
    ReplaceFindsNothing(REST, LONG);
    assert REST[1] != SHORT[1] && |REST| == 3;
    assert !(SHORT <= REST);
    assert Replace(REST, SHORT) == [REST[0]] + Replace(REST[1..], SHORT) == REST;
    TwoValuesRedact(patterns, LONG, SHORT, REST);
  }

  lemma PlainValues()
    ensures Plain(LONG) && Plain(SHORT) && LongestFirst([LONG, SHORT]) && !EndsApart(LONG, SHORT)
  {
    assert LONG[|LONG| - 1..] == SHORT[..1];
    NotIn(LONG, "REDACTED");
    NotIn(SHORT, "REDACTED");
    AsciiByteLength(LONG);
    AsciiByteLength(SHORT);
  }

  lemma LineStreams(patterns: Patterns, front: string, rest: string, line: string)
    requires patterns == [LONG, SHORT] && front == FRONT && rest == REST && line == "wwx x xzz"
    ensures RunPieces(patterns, [line]) == [Kept(front), Kept(rest)]
    ensures Stream(patterns, [line]) == "[REDACTED] x " + rest
  {
    LineLengths(patterns, line);
    LastBlankOfLine(line);
    LineIsCutAtTheLastBlank(patterns, line);
    assert line == front + rest;
    StreamOfTwoParts(patterns, front, rest, line, 6);
    FrontIsRedacted(patterns);
    RestIsUntouched(patterns);
  }

  lemma PublishedHasTheValue(published: string)
    requires published == "[REDACTED] x " + REST
    ensures published == "[REDACTED] x xzz" && Occurs(SHORT, published)
  {
    assert published[11..][..3] == SHORT;
    assert OccursAt(SHORT, published, 11);
  }

  /** The values `wwx` and `x x` and one chunk: nothing is dropped, and `x x` is published as it is. */
  lemma OverlappingValuesLeak(patterns: Patterns, line: string)
    requires patterns == ["wwx", "x x"] && line == "wwx x xzz"
    ensures LongestFirst(patterns) && Plain("wwx") && Plain("x x") && !Apart("wwx", "x x")
    ensures NothingDropped(RunPieces(patterns, [line]))
    ensures Stream(patterns, [line]) == "[REDACTED] x xzz" && Occurs("x x", Stream(patterns, [line]))
  {
    PlainValues();
    assert LONG in patterns && SHORT in patterns;
    LineStreams(patterns, FRONT, REST, line);
    PublishedHasTheValue(Stream(patterns, [line]));
  }

  // ---------------------------------------------------------------------------------------------
  // A whitespace-free value behind one that overlaps a value with whitespace
  // ---------------------------------------------------------------------------------------------

  const SPACED: string := "aa b"
  const LINK: string := "bcd"
  const LAST: string := "def"

  lemma ChainLengths(patterns: Patterns, text: string)
    requires patterns == [SPACED, LINK, LAST] && text == "aa bcd"
    ensures ByteLength(text) == 6 && ByteLength("ef") == 2 && Retained(patterns) == 3
  {
    AsciiByteLength(text);
    AsciiByteLength("ef");
    AsciiByteLength(SPACED);
    AsciiByteLength(LINK);
    AsciiByteLength(LAST);
    assert patterns[1..] == [LINK, LAST] && patterns[1..][1..] == [LAST] && patterns[1..][1..][1..] == [];
    assert LongestBytes([]) == 0 && LongestBytes([LAST]) == 3 && LongestBytes(patterns[1..]) == 3;
  }

  lemma LastBlankOfChain(text: string)
    requires text == "aa bcd"
    ensures LastCut(text, 3, 6) == Some(3)
  {
    assert text[..3] == "aa ";
    AsciiByteLength("aa ");
    LastCutIsLast(text, 3, 6, 3);
    var k := LastCut(text, 3, 6).value;
    assert k != 4 && k != 5 && k != 6;
  }

  lemma ChainMatches(text: string)
    requires text == "aa bcd"
    ensures 0 in MatchesFrom(text, SPACED, 0) && 3 in MatchesFrom(text, LINK, 0)
  {
    assert text[0..4] == SPACED && text[3..6] == LINK;
    assert text[0..3] == "aa " && text[1..4] == "a b" && text[2..5] == " bc";
    MatchHere(text, SPACED, 0);
    NoMatchHere(text, LINK, 0);
    NoMatchHere(text, LINK, 1);
    NoMatchHere(text, LINK, 2);
    MatchHere(text, LINK, 3);
  }

  // The cut moves off the first value, and so into the second, whose end begins the third.
  lemma CutMovesAlongTheChain(patterns: Patterns, text: string)
    requires patterns == [SPACED, LINK, LAST] && text == "aa bcd"
    ensures NextCleanCut(patterns, text, 3) == 6
  {
    ChainMatches(text);
    assert SPACED in patterns && LINK in patterns;
    SkipStraddlingMatch(patterns, text, SPACED, 0, 3);
    SkipStraddlingMatch(patterns, text, LINK, 3, 4);
  }

  lemma ThreeValuesRedact(patterns: Patterns, s: string, r: string)
    requires patterns == [SPACED, LINK, LAST] && r == Replace(s, SPACED)
    requires !Occurs(LINK, r) && !Occurs(LAST, r) && '=' !in r
    ensures RedactText(patterns, s) == r
  {
    assert patterns[1..] == [LINK, LAST];
    forall p | p in patterns[1..] ensures !Occurs(p, r) {}
    ReplaceAllFindsNothing(r, patterns[1..]);
    NoAssignmentIsUntouched(r);
  }

  lemma ChainIsRedacted(patterns: Patterns, text: string)
    requires patterns == [SPACED, LINK, LAST] && text == "aa bcd"
    ensures RedactText(patterns, text) == "[REDACTED]cd"
  {
    assert SPACED <= text && text[4..] == "cd";
    ReplaceMatch(text, SPACED);
    NotIn(SPACED, "cd");
    ReplaceFindsNothing("cd", SPACED);
    var r := Replace(text, SPACED);
    assert r == "[REDACTED]cd";
    NotIn(LINK, r);
    LastNotIn(r);
    ThreeValuesRedact(patterns, text, r);
  }

  lemma LastNotIn(s: string)
    requires |s| <= 12 && s == "[REDACTED]cd"
    ensures !Occurs(LAST, s)
  {
    forall i: nat | i <= |s| ensures !OccursAt(LAST, s, i) {
      assert i + 3 <= |s| ==> s[i] != 'd';
      if i + 3 <= |s| { assert s[i..][0] == s[i]; }
    }
  }

  lemma EndIsUntouched(patterns: Patterns)
    requires patterns == [SPACED, LINK, LAST]
    ensures RedactText(patterns, "ef") == "ef"
  {
    NotIn(SPACED, "ef");
    NotIn(LINK, "ef");
    NotIn(LAST, "ef");
    ReplaceFindsNothing("ef", SPACED);
    ThreeValuesRedact(patterns, "ef", "ef");
  }

  lemma PiecesOfTwoPushes(patterns: Patterns, text: string, end: string, chunks: seq<string>)
    requires chunks == [text, end]
    requires Publish(patterns, text).0 == INITIAL && Publish(patterns, end).0 == StreamState(end, false)
    ensures RunPieces(patterns, chunks) == [Kept(text), Kept(""), Kept(end)]
  {
    assert "" + text == text && text + "" == text && chunks[1..] == [end];
    assert RunPieces(patterns, chunks) == TraceText(patterns, "", text, [end]);
    TraceOfKeptText(patterns, "", text, [end], text, "");
    PiecesOfHeldText(patterns, end);
  }

  lemma PiecesOfHeldText(patterns: Patterns, end: string)
    requires Publish(patterns, end).0 == StreamState(end, false)
    ensures Trace(patterns, INITIAL, "", [end]) == [Kept(""), Kept(end)]
  {
    assert "" + end == end && [end][1..] == [];
    TraceOfKeptText(patterns, "", end, [], "", end);
    TraceOfNothing(patterns, end);
  }

  lemma StreamOfTwoPushes(patterns: Patterns, text: string, end: string, chunks: seq<string>)
    requires chunks == [text, end]
    requires Publish(patterns, text).0 == INITIAL && Publish(patterns, end) == (StreamState(end, false), "")
    ensures Stream(patterns, chunks) == Publish(patterns, text).1 + RedactText(patterns, end)
  {
    assert "" + text == text && chunks[1..] == [end];
    StreamOfOneChunk(patterns, end);
    assert "" + RedactText(patterns, end) == RedactText(patterns, end);
  }

  lemma ChainStreams(patterns: Patterns, text: string, end: string, chunks: seq<string>)
    requires patterns == [SPACED, LINK, LAST] && text == "aa bcd" && end == "ef" && chunks == [text, end]
    ensures RunPieces(patterns, chunks) == [Kept(text), Kept(""), Kept(end)]
    ensures Stream(patterns, chunks) == RedactText(patterns, text) + RedactText(patterns, end)
  {
    ChainLengths(patterns, text);
    LastBlankOfChain(text);
    CutMovesAlongTheChain(patterns, text);
    assert text + "" == text;
    PublishAt(patterns, text, "", text, 3);
    PiecesOfTwoPushes(patterns, text, end, chunks);
    StreamOfTwoPushes(patterns, text, end, chunks);
  }

  lemma PlainChain()
    ensures Plain(SPACED) && Plain(LINK) && Plain(LAST) && WhitespaceFree(LAST) && LongestFirst([SPACED, LINK, LAST])
    ensures !Apart(SPACED, LINK) && !Apart(LINK, LAST)
  {
    NotIn(SPACED, "REDACTED");
    NotIn(LINK, "REDACTED");
    NotIn(LAST, "REDACTED");
    assert SPACED[|SPACED| - 1..] == LINK[..1] && LINK[|LINK| - 1..] == LAST[..1];
    AsciiByteLength(SPACED);
    AsciiByteLength(LINK);
    AsciiByteLength(LAST);
  }

  lemma PublishedHasTheLast(published: string)
    requires published == "[REDACTED]cd" + "ef"
    ensures published == "[REDACTED]cdef" && Occurs(LAST, published)
  {
    assert published[11..][..3] == LAST;
    assert OccursAt(LAST, published, 11);
  }

  lemma ChainIsPublished(patterns: Patterns, chunks: seq<string>)
    requires patterns == [SPACED, LINK, LAST] && chunks == ["aa bcd", "ef"]
    ensures NothingDropped(RunPieces(patterns, chunks)) && Stream(patterns, chunks) == "[REDACTED]cd" + "ef"
  {
    ChainStreams(patterns, "aa bcd", "ef", chunks);
    ChainIsRedacted(patterns, "aa bcd");
    EndIsUntouched(patterns);
  }

  /**
   * The values `aa b`, `bcd` and `def` and two chunks: nothing is dropped, and `def`, which has no whitespace,
   * is published as it is.
   */
  lemma ChainedValuesLeak(patterns: Patterns, chunks: seq<string>)
    requires patterns == [SPACED, LINK, LAST] && chunks == ["aa bcd", "ef"]
    ensures LongestFirst(patterns) && Plain(SPACED) && Plain(LINK) && Plain(LAST) && WhitespaceFree(LAST)
    ensures !Apart(SPACED, LINK) && !Apart(LINK, LAST)
    ensures NothingDropped(RunPieces(patterns, chunks))
    ensures Stream(patterns, chunks) == "[REDACTED]cdef" && Occurs(LAST, Stream(patterns, chunks))
  {
    PlainChain();
    ChainIsPublished(patterns, chunks);
    PublishedHasTheLast(Stream(patterns, chunks));
  }
}
