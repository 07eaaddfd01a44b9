/** What a stream publishes, over every run and every way of cutting the text into chunks. */
module StreamEquivalence {
  import opened Wrappers
  import opened Text
  import opened Redaction
  import opened StreamingRedaction

  /** A stretch of the input: redacted and published, or lost to an oversized word and published as one mark. */
  datatype Piece = Kept(text: string) | Dropped(text: string)

  function Source(pieces: seq<Piece>): string {
    if pieces == [] then "" else pieces[0].text + Source(pieces[1..])
  }

  function RenderPiece(patterns: Patterns, piece: Piece): string {
    if piece.Kept? then RedactText(patterns, piece.text) else REDACTED
  }

  function Rendered(patterns: Patterns, pieces: seq<Piece>): string
    decreases |pieces|
  {
    if pieces == [] then "" else RenderPiece(patterns, pieces[0]) + Rendered(patterns, pieces[1..])
  }

  // The stretches a run cuts its input into; `lost` is what the current oversized word has swallowed so far.
  function Trace(patterns: Patterns, st: StreamState, lost: string, chunks: seq<string>): seq<Piece>
    decreases |chunks|, 0
  {
    if chunks == [] then [if st.discarding then Dropped(lost) else Kept(st.pending)]
    else if !st.discarding then TraceText(patterns, st.pending, chunks[0], chunks[1..])
    else
      var chunk := chunks[0];
      match FirstWhitespace(chunk)
      case None => Trace(patterns, st, lost + chunk, chunks[1..])
      case Some(i) =>
        [Dropped(lost + chunk[..i]), Kept([chunk[i]])] + TraceText(patterns, st.pending, chunk[i + 1..], chunks[1..])
  }

  function TraceText(patterns: Patterns, pending: string, chunk: string, chunks: seq<string>): seq<Piece>
    decreases |chunks|, 1
  {
    var text, st := pending + chunk, PushText(patterns, pending, chunk).0;
    if st.discarding then Trace(patterns, st, text, chunks)
    else [Kept(text[..|text| - |st.pending|])] + Trace(patterns, st, "", chunks)
  }

  predicate NothingDropped(pieces: seq<Piece>) {
    forall piece :: piece in pieces ==> piece.Kept?
  }

  predicate IsBlankPiece(piece: Piece) {
    piece.Kept? && |piece.text| == 1 && IsWhitespace(piece.text[0])
  }

  // A kept stretch ends behind whitespace; behind a dropped one comes the whitespace that ended it.
  predicate WellCut(pieces: seq<Piece>) {
    pieces != [] ==>
      && (|pieces| > 1 ==> match pieces[0]
            case Kept(text) => AtWordStart(text)
            case Dropped(_) => IsBlankPiece(pieces[1]))
      && WellCut(pieces[1..])
  }

  // ---------------------------------------------------------------------------------------------
  // One push
  // ---------------------------------------------------------------------------------------------

  lemma {:induction false} NothingToReplace(patterns: Patterns)
    ensures ReplaceAll("", patterns) == ""
    decreases |patterns|
  {
    if patterns != [] { NothingToReplace(patterns[1..]); }
  }

  // `output` redacts the text up to `cut`, and the text behind it is held back.
  predicate SplitsAt(patterns: Patterns, text: string, cut: int, st: StreamState, output: string) {
    && 0 <= cut <= |text|
    && AtWordStart(text[..cut])
    && st == StreamState(text[cut..], false)
    && output == RedactText(patterns, text[..cut])
  }

  lemma PublishAtCut(patterns: Patterns, text: string, k: nat)
    requires ByteLength(text) > Retained(patterns)
    requires LastCut(text, ByteLength(text) - Retained(patterns), |text|) == Some(k)
    requires NextCleanCut(patterns, text, k) == k
    ensures SplitsAt(patterns, text, k, Publish(patterns, text).0, Publish(patterns, text).1)
    ensures |text| - |Publish(patterns, text).0.pending| == k
  {
    assert IsWhitespace(text[..k][k - 1]);
  }

  lemma HoldingBackSplitsAtStart(patterns: Patterns, text: string)
    ensures SplitsAt(patterns, text, 0, StreamState(text, false), "")
  {
    NothingToReplace(patterns);
    assert text[..0] == "" && text[0..] == text;
  }

  lemma PushTextSplits(patterns: Patterns, pending: string, chunk: string)
    requires AllWhitespaceFree(patterns)
    ensures var (st, output) := PushText(patterns, pending, chunk);
            var text := pending + chunk;
            if st.discarding then st.pending == "" && output == REDACTED
            else SplitsAt(patterns, text, |text| - |st.pending|, st, output)
  {
    var text := pending + chunk;
    if ByteLength(text) > Retained(patterns) && LastCut(text, ByteLength(text) - Retained(patterns), |text|).Some? {
      var k := LastCut(text, ByteLength(text) - Retained(patterns), |text|).value;
      CutsBehindWhitespaceAreClean(patterns, text, k);
      PublishAtCut(patterns, text, k);
    } else {
      HoldingBackSplitsAtStart(patterns, text);
    }
  }

  lemma RedactedWhitespace(patterns: Patterns, w: char)
    requires AllWhitespaceFree(patterns) && IsWhitespace(w)
    ensures RedactText(patterns, [w]) == [w]
  {
    WhitespaceIsNotReplaced(patterns, w);
    assert [w] == "" + [w] + "";
    MapFirstWord(RedactToken, "", w, "");
    assert RedactToken("") == "" && "" + [w] + "" == [w];
  }

  lemma {:induction false} WhitespaceIsNotReplaced(patterns: Patterns, w: char)
    requires AllWhitespaceFree(patterns) && IsWhitespace(w)
    ensures ReplaceAll([w], patterns) == [w]
    decreases |patterns|
  {
    if patterns != [] {
      var p := patterns[0];
      assert WhitespaceFree(p);
      assert p[0] != w;
      ReplaceNoMatch([w], p);
      assert Replace([w], p) == [w];
      WhitespaceIsNotReplaced(patterns[1..], w);
    }
  }

  // ---------------------------------------------------------------------------------------------
  // Whole runs
  // ---------------------------------------------------------------------------------------------

  function LostSoFar(st: StreamState, lost: string): string {
    if st.discarding then lost else st.pending
  }

  predicate Sound(st: StreamState) {
    st.discarding ==> st.pending == ""
  }

  lemma SourceOfCons(piece: Piece, pieces: seq<Piece>)
    ensures Source([piece] + pieces) == piece.text + Source(pieces)
  {
    assert ([piece] + pieces)[1..] == pieces;
  }

  lemma RenderedCons(patterns: Patterns, piece: Piece, pieces: seq<Piece>)
    ensures Rendered(patterns, [piece] + pieces) == RenderPiece(patterns, piece) + Rendered(patterns, pieces)
  {
    assert ([piece] + pieces)[1..] == pieces;
  }

  lemma {:induction false} TraceCoversInput(patterns: Patterns, st: StreamState, lost: string, chunks: seq<string>)
    requires AllWhitespaceFree(patterns) && Sound(st)
    ensures Source(Trace(patterns, st, lost, chunks)) == LostSoFar(st, lost) + Concat(chunks)
    decreases |chunks|, 0
  {
    if chunks == [] {
      SourceOfCons(if st.discarding then Dropped(lost) else Kept(st.pending), []);
      assert LostSoFar(st, lost) + "" == LostSoFar(st, lost);
    } else if !st.discarding {
      TraceTextCoversInput(patterns, st.pending, chunks[0], chunks[1..]);
      ConcatIsAssociative(st.pending, chunks[0], Concat(chunks[1..]));
    } else {
      var chunk := chunks[0];
      match FirstWhitespace(chunk)
      case None =>
        TraceCoversInput(patterns, st, lost + chunk, chunks[1..]);
        ConcatIsAssociative(lost, chunk, Concat(chunks[1..]));
      case Some(i) =>
        var after := TraceText(patterns, st.pending, chunk[i + 1..], chunks[1..]);
        TraceTextCoversInput(patterns, st.pending, chunk[i + 1..], chunks[1..]);
        SourceOfResumption(lost, chunk, i, after, Concat(chunks[1..]));
    }
  }

  lemma SourceOfKept(text: string, n: nat, pieces: seq<Piece>, rest: string)
    requires n <= |text| && Source(pieces) == text[n..] + rest
    ensures Source([Kept(text[..n])] + pieces) == text + rest
  {
    SourceOfCons(Kept(text[..n]), pieces);
    assert text == text[..n] + text[n..];
    ConcatIsAssociative(text[..n], text[n..], rest);
  }

  lemma SourceOfResumption(lost: string, chunk: string, i: nat, after: seq<Piece>, rest: string)
    requires i < |chunk| && Source(after) == "" + chunk[i + 1..] + rest
    ensures Source([Dropped(lost + chunk[..i]), Kept([chunk[i]])] + after) == lost + (chunk + rest)
  {
    var d, k := Dropped(lost + chunk[..i]), Kept([chunk[i]]);
    assert [d, k] + after == [d] + ([k] + after);
    SourceOfCons(d, [k] + after);
    SourceOfCons(k, after);
    assert chunk == chunk[..i] + [chunk[i]] + chunk[i + 1..];
  }

  lemma {:induction false} TraceTextCoversInput(patterns: Patterns, pending: string, chunk: string, chunks: seq<string>)
    requires AllWhitespaceFree(patterns)
    ensures Source(TraceText(patterns, pending, chunk, chunks)) == pending + chunk + Concat(chunks)
    decreases |chunks|, 1
  {
    var text, st := pending + chunk, PushText(patterns, pending, chunk).0;
    PushTextSplits(patterns, pending, chunk);
    if st.discarding {
      TraceCoversInput(patterns, st, text, chunks);
    } else {
      TraceCoversInput(patterns, st, "", chunks);
      SourceOfKept(text, |text| - |st.pending|, Trace(patterns, st, "", chunks), Concat(chunks));
    }
  }

  // The mark of an oversized word is published when the word is given up, before its end is seen.
  function AlreadyPublished(st: StreamState): string {
    if st.discarding then REDACTED else ""
  }

  lemma {:induction false} TraceIsPublished(patterns: Patterns, st: StreamState, lost: string, chunks: seq<string>)
    requires AllWhitespaceFree(patterns) && Sound(st)
    ensures Rendered(patterns, Trace(patterns, st, lost, chunks))
         == AlreadyPublished(st) + Published(patterns, st, chunks)
    decreases |chunks|, 0
  {
    if chunks == [] {
      RenderedCons(patterns, if st.discarding then Dropped(lost) else Kept(st.pending), []);
    } else if !st.discarding {
      TraceTextIsPublished(patterns, st.pending, chunks[0], chunks[1..]);
    } else {
      var chunk := chunks[0];
      match FirstWhitespace(chunk)
      case None =>
        TraceIsPublished(patterns, st, lost + chunk, chunks[1..]);
        assert "" + Published(patterns, st, chunks[1..]) == Published(patterns, st, chunks[1..]);
      case Some(i) =>
        var after := TraceText(patterns, st.pending, chunk[i + 1..], chunks[1..]);
        TraceTextIsPublished(patterns, st.pending, chunk[i + 1..], chunks[1..]);
        var (st', output) := PushText(patterns, st.pending, chunk[i + 1..]);
        ResumptionIsPublished(patterns, lost, chunk, i, after, output, Published(patterns, st', chunks[1..]));
    }
  }

  lemma ResumptionIsPublished(patterns: Patterns, lost: string, chunk: string, i: nat, after: seq<Piece>,
                              output: string, later: string)
    requires AllWhitespaceFree(patterns) && i < |chunk| && IsWhitespace(chunk[i])
    requires Rendered(patterns, after) == output + later
    ensures Rendered(patterns, [Dropped(lost + chunk[..i]), Kept([chunk[i]])] + after)
         == REDACTED + ([chunk[i]] + output + later)
  {
    RenderedResumption(patterns, lost, chunk, i, after);
    ConcatIsAssociative([chunk[i]], output, later);
  }

  lemma RenderedResumption(patterns: Patterns, lost: string, chunk: string, i: nat, after: seq<Piece>)
    requires AllWhitespaceFree(patterns) && i < |chunk| && IsWhitespace(chunk[i])
    ensures Rendered(patterns, [Dropped(lost + chunk[..i]), Kept([chunk[i]])] + after)
         == REDACTED + ([chunk[i]] + Rendered(patterns, after))
  {
    var d, k := Dropped(lost + chunk[..i]), Kept([chunk[i]]);
    assert [d, k] + after == [d] + ([k] + after);
    RenderedCons(patterns, d, [k] + after);
    RenderedCons(patterns, k, after);
    RedactedWhitespace(patterns, chunk[i]);
  }

  lemma {:induction false} TraceTextIsPublished(patterns: Patterns, pending: string, chunk: string, chunks: seq<string>)
    requires AllWhitespaceFree(patterns)
    ensures var (st, output) := PushText(patterns, pending, chunk);
            Rendered(patterns, TraceText(patterns, pending, chunk, chunks)) == output + Published(patterns, st, chunks)
    decreases |chunks|, 1
  {
    var text, st := pending + chunk, PushText(patterns, pending, chunk).0;
    PushTextSplits(patterns, pending, chunk);
    if st.discarding {
      TraceIsPublished(patterns, st, text, chunks);
    } else {
      TraceIsPublished(patterns, st, "", chunks);
      RenderedCons(patterns, Kept(text[..|text| - |st.pending|]), Trace(patterns, st, "", chunks));
      assert "" + Published(patterns, st, chunks) == Published(patterns, st, chunks);
    }
  }

  lemma {:induction false} TraceIsWellCut(patterns: Patterns, st: StreamState, lost: string, chunks: seq<string>)
    requires AllWhitespaceFree(patterns) && Sound(st)
    ensures WellCut(Trace(patterns, st, lost, chunks))
    decreases |chunks|, 0
  {
    if chunks == [] {
    } else if !st.discarding {
      TraceTextIsWellCut(patterns, st.pending, chunks[0], chunks[1..]);
    } else {
      var chunk := chunks[0];
      match FirstWhitespace(chunk)
      case None => TraceIsWellCut(patterns, st, lost + chunk, chunks[1..]);
      case Some(i) =>
        var after := TraceText(patterns, st.pending, chunk[i + 1..], chunks[1..]);
        TraceTextIsWellCut(patterns, st.pending, chunk[i + 1..], chunks[1..]);
        WellCutCons(Kept([chunk[i]]), after);
        var d, k := Dropped(lost + chunk[..i]), [Kept([chunk[i]])] + after;
        WellCutCons(d, k);
        assert [d, Kept([chunk[i]])] + after == [d] + k;
    }
  }

  lemma WellCutCons(piece: Piece, pieces: seq<Piece>)
    requires WellCut(pieces)
    requires match piece
             case Kept(text) => AtWordStart(text)
             case Dropped(_) => |pieces| >= 1 && IsBlankPiece(pieces[0])
    ensures WellCut([piece] + pieces)
  {
    assert ([piece] + pieces)[1..] == pieces;
  }

  lemma {:induction false} TraceTextIsWellCut(patterns: Patterns, pending: string, chunk: string, chunks: seq<string>)
    requires AllWhitespaceFree(patterns)
    ensures WellCut(TraceText(patterns, pending, chunk, chunks))
    decreases |chunks|, 1
  {
    var text, st := pending + chunk, PushText(patterns, pending, chunk).0;
    PushTextSplits(patterns, pending, chunk);
    if st.discarding {
      TraceIsWellCut(patterns, st, text, chunks);
    } else {
      TraceIsWellCut(patterns, st, "", chunks);
      WellCutCons(Kept(text[..|text| - |st.pending|]), Trace(patterns, st, "", chunks));
    }
  }

  // ---------------------------------------------------------------------------------------------
  // The whole text, cut into the same stretches
  // ---------------------------------------------------------------------------------------------

  function RedactedPieces(patterns: Patterns, pieces: seq<Piece>): string
    decreases |pieces|
  {
    if pieces == [] then "" else RedactText(patterns, pieces[0].text) + RedactedPieces(patterns, pieces[1..])
  }

  lemma WellCutBoundary(pieces: seq<Piece>)
    requires pieces != [] && WellCut(pieces)
    ensures WordBoundary(pieces[0].text, Source(pieces[1..]))
  {
  }

  lemma {:induction false} WholeIsRedactedPieces(patterns: Patterns, pieces: seq<Piece>)
    requires AllWhitespaceFree(patterns) && WellCut(pieces)
    ensures RedactText(patterns, Source(pieces)) == RedactedPieces(patterns, pieces)
    decreases |pieces|
  {
    if pieces == [] {
      NothingToReplace(patterns);
    } else {
      WellCutBoundary(pieces);
      RedactionDistributes(patterns, pieces[0].text, Source(pieces[1..]));
      WholeIsRedactedPieces(patterns, pieces[1..]);
    }
  }

  // Redaction keeps every whitespace character and adds none.
  function Blanks(s: string): nat {
    if s == "" then 0 else (if IsWhitespace(s[0]) then 1 else 0) + Blanks(s[1..])
  }

  lemma {:induction false} BlanksOfConcat(a: string, b: string)
    ensures Blanks(a + b) == Blanks(a) + Blanks(b)
  {
    if a == "" {
      assert a + b == b;
    } else {
      assert (a + b)[1..] == a[1..] + b;
      BlanksOfConcat(a[1..], b);
    }
  }

  lemma {:induction false} NoBlanks(s: string)
    ensures Blanks(s) == 0 <==> WhitespaceFree(s)
  {
    if s != "" {
      NoBlanks(s[1..]);
      assert s == [s[0]] + s[1..];
      if WhitespaceFree(s[1..]) && !IsWhitespace(s[0]) {
        forall i | 0 <= i < |s| ensures !IsWhitespace(s[i]) { if i > 0 { assert s[i] == s[1..][i - 1]; } }
      }
      if WhitespaceFree(s) {
        forall i | 0 <= i < |s[1..]| ensures !IsWhitespace(s[1..][i]) { assert s[1..][i] == s[i + 1]; }
      }
    }
  }

  lemma MarkHasNoBlanks()
    ensures Blanks(REDACTED) == 0
  {
    NoBlanks(REDACTED);
  }

  lemma {:induction false} ReplaceKeepsBlanks(s: string, pattern: string)
    requires pattern != "" && WhitespaceFree(pattern)
    ensures Blanks(Replace(s, pattern)) == Blanks(s)
    decreases |s|
  {
    if pattern <= s {
      var rest := s[|pattern|..];
      ReplaceKeepsBlanks(rest, pattern);
      assert s == pattern + rest;
      BlanksOfConcat(pattern, rest);
      NoBlanks(pattern);
      MarkHasNoBlanks();
      BlanksOfConcat(REDACTED, Replace(rest, pattern));
      ReplaceMatch(s, pattern);
    } else if s != "" {
      ReplaceKeepsBlanks(s[1..], pattern);
      ReplaceNoMatch(s, pattern);
      assert Replace(s, pattern)[1..] == Replace(s[1..], pattern);
    }
  }

  lemma {:induction false} ReplaceAllKeepsBlanks(s: string, patterns: Patterns)
    requires AllWhitespaceFree(patterns)
    ensures Blanks(ReplaceAll(s, patterns)) == Blanks(s)
    decreases |patterns|
  {
    if patterns != [] {
      assert WhitespaceFree(patterns[0]);
      ReplaceKeepsBlanks(s, patterns[0]);
      ReplaceAllKeepsBlanks(Replace(s, patterns[0]), patterns[1..]);
    }
  }

  lemma RedactedTokenIsOneWord(token: string)
    requires WhitespaceFree(token)
    ensures WhitespaceFree(RedactToken(token))
  {
    MarkHasNoBlanks();
    NoBlanks(REDACTED);
  }

  lemma WordOfPartIsFree(part: string)
    requires part != "" && PartLength(part) == |part|
    ensures WhitespaceFree(TrimEnd(part))
  {
    var word := TrimEnd(part);
    forall i | 0 <= i < |word| ensures !IsWhitespace(word[i]) {
      assert word[i] == part[i];
    }
  }

  lemma BlanksBehindWords(word: string, word': string, white: string)
    requires WhitespaceFree(word) && WhitespaceFree(word')
    ensures Blanks(word + white) == Blanks(word' + white)
  {
    NoBlanks(word);
    NoBlanks(word');
    BlanksOfConcat(word, white);
    BlanksOfConcat(word', white);
  }

  lemma PartKeepsBlanks(f: string -> string, part: string, word: string, white: string)
    requires part != "" && PartLength(part) == |part| && WhitespaceFree(f(word))
    requires word == TrimEnd(part) && part == word + white
    ensures Blanks(MapPart(f, part)) == Blanks(part)
  {
    WordOfPartIsFree(part);
    BlanksBehindWords(word, f(word), white);
    assert part[|word|..] == white;
  }

  lemma {:induction false} PartLengthOfPart(s: string)
    requires s != ""
    ensures PartLength(s[..PartLength(s)]) == PartLength(s)
  {
    var n := PartLength(s);
    var part := s[..n];
    if !(|s| == 1 || IsWhitespace(s[0])) {
      PartLengthOfPart(s[1..]);
      assert part[1..] == s[1..][..PartLength(s[1..])];
    }
  }

  lemma RewrittenPartKeepsBlanks(part: string, word: string, white: string)
    requires part != "" && PartLength(part) == |part| && word == TrimEnd(part) && part == word + white
    ensures Blanks(MapPart(RedactToken, part)) == Blanks(part)
  {
    WordOfPartIsFree(part);
    RedactedTokenIsOneWord(word);
    PartKeepsBlanks(RedactToken, part, word, white);
  }

  lemma RewrittenPartsKeepBlanks(s: string, part: string, rest: string)
    requires s != "" && part == s[..PartLength(s)] && rest == s[PartLength(s)..]
    requires Blanks(MapPart(RedactToken, part)) == Blanks(part) && Blanks(RedactAssignments(rest)) == Blanks(rest)
    ensures Blanks(RedactAssignments(s)) == Blanks(s)
  {
    assert s == part + rest;
    BlanksOfConcat(part, rest);
    BlanksOfConcat(MapPart(RedactToken, part), RedactAssignments(rest));
  }

  lemma {:induction false} AssignmentsKeepBlanks(s: string)
    ensures Blanks(RedactAssignments(s)) == Blanks(s)
    decreases |s|
  {
    if s != "" {
      var part, rest := s[..PartLength(s)], s[PartLength(s)..];
      PartLengthOfPart(s);
      var word := TrimEnd(part);
      RewrittenPartKeepsBlanks(part, word, part[|word|..]);
      AssignmentsKeepBlanks(rest);
      RewrittenPartsKeepBlanks(s, part, rest);
    }
  }

  lemma RedactionKeepsBlanks(patterns: Patterns, s: string)
    requires AllWhitespaceFree(patterns)
    ensures Blanks(RedactText(patterns, s)) == Blanks(s)
  {
    ReplaceAllKeepsBlanks(s, patterns);
    AssignmentsKeepBlanks(ReplaceAll(s, patterns));
  }
}
