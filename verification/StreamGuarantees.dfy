/** The guarantees of the streaming redactor, for every text, every chunking and every set of whitespace-free values. */
module StreamGuarantees {
  import opened Wrappers
  import opened Text
  import opened Redaction
  import opened StreamingRedaction
  import opened StreamEquivalence
  import opened RedactionSafety

  // ---------------------------------------------------------------------------------------------
  // When the stream publishes what redacting the whole text would
  // ---------------------------------------------------------------------------------------------

  function FirstWord(s: string): string {
    match FirstWhitespace(s)
    case None => s
    case Some(i) => s[..i]
  }

  predicate EmptyOrBlankStart(s: string) {
    s == "" || IsWhitespace(s[0])
  }

  lemma {:induction false} FirstWordOfConcat(word: string, rest: string)
    requires WhitespaceFree(word) && EmptyOrBlankStart(rest)
    ensures FirstWord(word + rest) == word
  {
    if word == "" {
      assert word + rest == rest;
    } else {
      var s := word + rest;
      assert s[0] == word[0] && s[1..] == word[1..] + rest;
      FirstWordOfConcat(word[1..], rest);
      assert word == [word[0]] + word[1..];
      assert FirstWord(s) == [s[0]] + FirstWord(s[1..]) by {
        match FirstWhitespace(s[1..])
        case None => assert s == [s[0]] + s[1..];
        case Some(k) => assert s[..k + 1] == [s[0]] + s[1..][..k];
      }
    }
  }

  predicate DropsAreMarks(patterns: Patterns, pieces: seq<Piece>) {
    forall piece :: piece in pieces && piece.Dropped? ==> RedactText(patterns, piece.text) == REDACTED
  }

  predicate DropsAreWords(pieces: seq<Piece>) {
    forall piece :: piece in pieces && piece.Dropped? ==> WhitespaceFree(piece.text)
  }

  lemma PieceMissesItsBlanks(patterns: Patterns, piece: Piece)
    requires AllWhitespaceFree(patterns)
    ensures Blanks(RenderPiece(patterns, piece)) <= Blanks(RedactText(patterns, piece.text))
    ensures Blanks(RenderPiece(patterns, piece)) == Blanks(RedactText(patterns, piece.text)) ==>
              piece.Kept? || WhitespaceFree(piece.text)
  {
    RedactionKeepsBlanks(patterns, piece.text);
    NoBlanks(piece.text);
    MarkHasNoBlanks();
  }

  lemma DropsOfCons(first: Piece, rest: seq<Piece>)
    requires (first.Kept? || WhitespaceFree(first.text)) && DropsAreWords(rest)
    ensures DropsAreWords([first] + rest)
  {
  }

  lemma BlanksOfCons(patterns: Patterns, first: Piece, rest: seq<Piece>)
    ensures Blanks(Rendered(patterns, [first] + rest))
         == Blanks(RenderPiece(patterns, first)) + Blanks(Rendered(patterns, rest))
    ensures Blanks(RedactedPieces(patterns, [first] + rest))
         == Blanks(RedactText(patterns, first.text)) + Blanks(RedactedPieces(patterns, rest))
  {
    assert ([first] + rest)[1..] == rest;
    BlanksOfConcat(RenderPiece(patterns, first), Rendered(patterns, rest));
    BlanksOfConcat(RedactText(patterns, first.text), RedactedPieces(patterns, rest));
  }

  // A dropped stretch with whitespace in it leaves the published text short of that whitespace.
  lemma {:induction false} DroppedBlanksAreMissed(patterns: Patterns, pieces: seq<Piece>)
    requires AllWhitespaceFree(patterns)
    ensures Blanks(Rendered(patterns, pieces)) <= Blanks(RedactedPieces(patterns, pieces))
    ensures Blanks(Rendered(patterns, pieces)) == Blanks(RedactedPieces(patterns, pieces)) ==> DropsAreWords(pieces)
    decreases |pieces|
  {
    if pieces != [] {
      var first, rest := pieces[0], pieces[1..];
      assert pieces == [first] + rest;
      DroppedBlanksAreMissed(patterns, rest);
      BlanksOfCons(patterns, first, rest);
      PieceMissesItsBlanks(patterns, first);
      if Blanks(Rendered(patterns, pieces)) == Blanks(RedactedPieces(patterns, pieces)) {
        DropsOfCons(first, rest);
      }
    }
  }

  lemma BehindADrop(patterns: Patterns, pieces: seq<Piece>)
    requires AllWhitespaceFree(patterns) && WellCut(pieces) && pieces != [] && pieces[0].Dropped?
    ensures EmptyOrBlankStart(RedactedPieces(patterns, pieces[1..]))
    ensures EmptyOrBlankStart(Rendered(patterns, pieces[1..]))
  {
    var rest := pieces[1..];
    if rest != [] {
      assert rest[0] == pieces[1];
      var w := rest[0].text[0];
      assert rest[0].text == [w];
      RedactedWhitespace(patterns, w);
    }
  }

  lemma CancelPrefix(a: string, x: string, y: string)
    requires a + x == a + y
    ensures x == y
  {
    assert (a + x)[|a|..] == x && (a + y)[|a|..] == y;
  }

  lemma EqualFirstWords(patterns: Patterns, y: string, a: string, b: string)
    requires AllWhitespaceFree(patterns) && WhitespaceFree(y)
    requires EmptyOrBlankStart(a) && EmptyOrBlankStart(b)
    requires RedactText(patterns, y) + a == REDACTED + b
    ensures RedactText(patterns, y) == REDACTED && a == b
  {
    RedactionKeepsBlanks(patterns, y);
    NoBlanks(y);
    NoBlanks(RedactText(patterns, y));
    MarkHasNoBlanks();
    NoBlanks(REDACTED);
    FirstWordOfConcat(RedactText(patterns, y), a);
    FirstWordOfConcat(REDACTED, b);
    CancelPrefix(REDACTED, a, b);
  }

  lemma FirstRendersEqually(patterns: Patterns, pieces: seq<Piece>)
    requires AllWhitespaceFree(patterns) && WellCut(pieces) && DropsAreWords(pieces) && pieces != []
    requires RedactedPieces(patterns, pieces) == Rendered(patterns, pieces)
    ensures pieces[0].Dropped? ==> RedactText(patterns, pieces[0].text) == REDACTED
    ensures RedactedPieces(patterns, pieces[1..]) == Rendered(patterns, pieces[1..])
  {
    var first, a, b := pieces[0], RedactedPieces(patterns, pieces[1..]), Rendered(patterns, pieces[1..]);
    assert first in pieces;
    if first.Dropped? {
      BehindADrop(patterns, pieces);
      EqualFirstWords(patterns, first.text, a, b);
    } else {
      CancelPrefix(RedactText(patterns, first.text), a, b);
    }
  }

  lemma WordsBehindTheFirst(first: Piece, rest: seq<Piece>)
    requires DropsAreWords([first] + rest)
    ensures DropsAreWords(rest)
  {
    assert forall piece :: piece in rest ==> piece in [first] + rest;
  }

  lemma MarksOfCons(patterns: Patterns, first: Piece, rest: seq<Piece>)
    requires first.Dropped? ==> RedactText(patterns, first.text) == REDACTED
    requires DropsAreMarks(patterns, rest)
    ensures DropsAreMarks(patterns, [first] + rest)
  {
  }

  lemma {:induction false} EqualRenderings(patterns: Patterns, pieces: seq<Piece>)
    requires AllWhitespaceFree(patterns) && WellCut(pieces) && DropsAreWords(pieces)
    requires RedactedPieces(patterns, pieces) == Rendered(patterns, pieces)
    ensures DropsAreMarks(patterns, pieces)
    decreases |pieces|
  {
    if pieces != [] {
      var first, rest := pieces[0], pieces[1..];
      assert pieces == [first] + rest;
      FirstRendersEqually(patterns, pieces);
      WordsBehindTheFirst(first, rest);
      EqualRenderings(patterns, rest);
      MarksOfCons(patterns, first, rest);
    }
  }

  lemma {:induction false} MarksRenderEqually(patterns: Patterns, pieces: seq<Piece>)
    requires DropsAreMarks(patterns, pieces)
    ensures RedactedPieces(patterns, pieces) == Rendered(patterns, pieces)
    decreases |pieces|
  {
    if pieces != [] {
      assert pieces[0] in pieces;
      MarksRenderEqually(patterns, pieces[1..]);
    }
  }

  function RunPieces(patterns: Patterns, chunks: seq<string>): seq<Piece> {
    Trace(patterns, INITIAL, "", chunks)
  }

  function Stream(patterns: Patterns, chunks: seq<string>): string {
    Published(patterns, INITIAL, chunks)
  }

  lemma RunCoversInput(patterns: Patterns, chunks: seq<string>)
    requires AllWhitespaceFree(patterns)
    ensures Source(RunPieces(patterns, chunks)) == Concat(chunks)
  {
    TraceCoversInput(patterns, INITIAL, "", chunks);
    assert "" + Concat(chunks) == Concat(chunks);
  }

  lemma RunIsPublished(patterns: Patterns, chunks: seq<string>)
    requires AllWhitespaceFree(patterns)
    ensures Stream(patterns, chunks) == Rendered(patterns, RunPieces(patterns, chunks))
  {
    TraceIsPublished(patterns, INITIAL, "", chunks);
    assert "" + Stream(patterns, chunks) == Stream(patterns, chunks);
  }

  lemma RunFacts(patterns: Patterns, chunks: seq<string>)
    requires AllWhitespaceFree(patterns)
    ensures var pieces := RunPieces(patterns, chunks);
            && Source(pieces) == Concat(chunks)
            && WellCut(pieces)
            && Stream(patterns, chunks) == Rendered(patterns, pieces)
            && RedactText(patterns, Concat(chunks)) == RedactedPieces(patterns, pieces)
  {
    RunCoversInput(patterns, chunks);
    RunIsPublished(patterns, chunks);
    TraceIsWellCut(patterns, INITIAL, "", chunks);
    WholeIsRedactedPieces(patterns, RunPieces(patterns, chunks));
  }

  /** The stream equals the redacted whole exactly when redacting each dropped stretch would leave just the mark. */
  lemma StreamEqualsWholeExactly(patterns: Patterns, chunks: seq<string>)
    requires AllWhitespaceFree(patterns)
    ensures Stream(patterns, chunks) == RedactText(patterns, Concat(chunks))
       <==> DropsAreMarks(patterns, RunPieces(patterns, chunks))
  {
    var pieces := RunPieces(patterns, chunks);
    RunFacts(patterns, chunks);
    if Stream(patterns, chunks) == RedactText(patterns, Concat(chunks)) {
      DroppedBlanksAreMissed(patterns, pieces);
      EqualRenderings(patterns, pieces);
    }
    if DropsAreMarks(patterns, pieces) {
      MarksRenderEqually(patterns, pieces);
    }
  }

  // ---------------------------------------------------------------------------------------------
  // When nothing is dropped
  // ---------------------------------------------------------------------------------------------

  // Every word leaves room, within the limit on pending text, for itself, a blank and the retained tail.
  predicate WordFits(patterns: Patterns, word: string) {
    ByteLength(word) + 3 + Retained(patterns) <= MAX_PENDING_TOKEN_BYTES
  }

  predicate WordsFit(patterns: Patterns, text: string) {
    forall i, j :: 0 <= i <= j <= |text| && WhitespaceFree(text[i..j]) ==> WordFits(patterns, text[i..j])
  }

  lemma WordsFitInParts(patterns: Patterns, a: string, b: string)
    requires WordsFit(patterns, a + b)
    ensures WordsFit(patterns, a) && WordsFit(patterns, b)
  {
    forall i, j | 0 <= i <= j <= |a| && WhitespaceFree(a[i..j]) ensures WordFits(patterns, a[i..j]) {
      assert (a + b)[i..j] == a[i..j];
    }
    forall i, j | 0 <= i <= j <= |b| && WhitespaceFree(b[i..j]) ensures WordFits(patterns, b[i..j]) {
      assert (a + b)[|a| + i..|a| + j] == b[i..j];
    }
  }

  // What is pending once a cut was looked for in the text, and where it was cut.
  predicate IsPendingFrom(text: string, found: Option<nat>, cut: nat, st: StreamState) {
    match found
    case Some(k) => k <= cut <= |text| && st == StreamState(text[cut..], false)
    case None =>
      cut == 0 && st == (if ByteLength(text) > MAX_PENDING_TOKEN_BYTES then StreamState("", true)
                         else StreamState(text, false))
  }

  lemma PublishedAtCut(patterns: Patterns, text: string, limit: nat, found: Option<nat>) returns (cut: nat)
    requires limit > 0 && limit + Retained(patterns) == ByteLength(text) && found == LastCut(text, limit, |text|)
    ensures IsPendingFrom(text, found, cut, Publish(patterns, text).0)
  {
    PublishFollowsCut(patterns, text, limit, found);
    cut := if found.Some? then NextCleanCut(patterns, text, found.value) else 0;
  }

  lemma GivenUpWordIsOversized(patterns: Patterns, pending: string, chunk: string)
    requires PushText(patterns, pending, chunk).0.discarding
    ensures !WordFits(patterns, FirstWord(pending + chunk))
  {
    var text := pending + chunk;
    var limit := ByteLength(text) - Retained(patterns);
    var _ := PublishedAtCut(patterns, text, limit, LastCut(text, limit, |text|));
    UncutWordIsOversized(Retained(patterns), text);
  }

  // With no cut at all, the first word and the tail alone are over the limit.
  lemma UncutWordIsOversized(retained: nat, text: string)
    requires ByteLength(text) > MAX_PENDING_TOKEN_BYTES && ByteLength(text) > retained
    requires LastCut(text, ByteLength(text) - retained, |text|).None?
    ensures ByteLength(FirstWord(text)) + 3 + retained > MAX_PENDING_TOKEN_BYTES
  {
    match FirstWhitespace(text)
    case None =>
    case Some(i) =>
      BlankAddsAtMostThree(text, i);
      BlankEndsLate(text, ByteLength(text) - retained, i + 1);
  }

  lemma BlankAddsAtMostThree(text: string, i: nat)
    requires i < |text| && IsWhitespace(text[i])
    ensures ByteOffset(text, i + 1) <= ByteLength(text[..i]) + 3
  {
    assert text[..i + 1][..i] == text[..i] && text[..i + 1][i] == text[i];
    assert Utf8Width(text[i]) <= 3;
  }

  lemma FirstWordGrows(patterns: Patterns, s: string, more: string)
    requires !WordFits(patterns, FirstWord(s))
    ensures !WordFits(patterns, FirstWord(s + more))
  {
    var t := s + more;
    var w := FirstWord(s);
    match FirstWhitespace(s)
    case Some(i) =>
      assert t == w + s[i..] + more && t == w + (s[i..] + more);
      FirstWordOfConcat(w, s[i..] + more);
    case None =>
      FirstWordIsPrefix(t);
      WordInPrefix(s, more);
      ByteLengthOfPrefix(FirstWord(t), |s|, |FirstWord(t)|);
      assert FirstWord(t)[..|s|] == s && FirstWord(t)[..|FirstWord(t)|] == FirstWord(t);
  }

  lemma FirstWordIsPrefix(s: string)
    ensures FirstWord(s) <= s && WhitespaceFree(FirstWord(s))
  {
  }

  lemma WordInPrefix(word: string, more: string)
    requires WhitespaceFree(word)
    ensures word <= FirstWord(word + more)
  {
    var t := word + more;
    match FirstWhitespace(t)
    case None =>
    case Some(k) =>
      var j := if k < |word| then k else 0;
      assert j < |word| ==> t[j] == word[j];
      assert |word| <= k;
  }

  predicate DropsAreOversized(patterns: Patterns, pieces: seq<Piece>) {
    forall piece :: piece in pieces && piece.Dropped? ==> !WordFits(patterns, FirstWord(piece.text))
  }

  lemma {:induction false} TraceDropsOversizedWords(patterns: Patterns, st: StreamState, lost: string,
                                                    chunks: seq<string>)
    requires st.discarding ==> !WordFits(patterns, FirstWord(lost))
    ensures DropsAreOversized(patterns, Trace(patterns, st, lost, chunks))
    decreases |chunks|, 0
  {
    if chunks == [] {
    } else if !st.discarding {
      TraceTextDropsOversizedWords(patterns, st.pending, chunks[0], chunks[1..]);
    } else {
      var chunk := chunks[0];
      match FirstWhitespace(chunk)
      case None =>
        FirstWordGrows(patterns, lost, chunk);
        TraceDropsOversizedWords(patterns, st, lost + chunk, chunks[1..]);
      case Some(i) =>
        FirstWordGrows(patterns, lost, chunk[..i]);
        TraceTextDropsOversizedWords(patterns, st.pending, chunk[i + 1..], chunks[1..]);
    }
  }

  lemma {:induction false} TraceTextDropsOversizedWords(patterns: Patterns, pending: string, chunk: string,
                                                        chunks: seq<string>)
    ensures DropsAreOversized(patterns, TraceText(patterns, pending, chunk, chunks))
    decreases |chunks|, 1
  {
    var text, st := pending + chunk, PushText(patterns, pending, chunk).0;
    if st.discarding {
      GivenUpWordIsOversized(patterns, pending, chunk);
      TraceDropsOversizedWords(patterns, st, text, chunks);
    } else {
      TraceDropsOversizedWords(patterns, st, "", chunks);
    }
  }

  lemma {:induction false} NoOversizedWordNoDrop(patterns: Patterns, pieces: seq<Piece>)
    requires DropsAreOversized(patterns, pieces) && WordsFit(patterns, Source(pieces))
    ensures NothingDropped(pieces)
    decreases |pieces|
  {
    if pieces != [] {
      var first, rest := pieces[0], pieces[1..];
      WordsFitInParts(patterns, first.text, Source(rest));
      FirstWordIsPrefix(first.text);
      assert first.text[0..|FirstWord(first.text)|] == FirstWord(first.text);
      assert first in pieces;
      NoOversizedWordNoDrop(patterns, rest);
      assert pieces == [first] + rest;
    }
  }

  /** A text whose words all fit is redacted the same however it is cut into chunks. */
  lemma StreamEqualsWhole(patterns: Patterns, chunks: seq<string>)
    requires AllWhitespaceFree(patterns) && WordsFit(patterns, Concat(chunks))
    ensures Stream(patterns, chunks) == RedactText(patterns, Concat(chunks))
  {
    RunFacts(patterns, chunks);
    TraceDropsOversizedWords(patterns, INITIAL, "", chunks);
    NoOversizedWordNoDrop(patterns, RunPieces(patterns, chunks));
    StreamEqualsWholeExactly(patterns, chunks);
  }

  // ---------------------------------------------------------------------------------------------
  // What a stream holds back
  // ---------------------------------------------------------------------------------------------

  // No whitespace ends before the retained tail, so there was nothing more to publish.
  predicate Settled(retained: nat, pending: string) {
    forall k :: 1 <= k <= |pending| && IsWhitespace(pending[k - 1]) ==>
      ByteOffset(pending, k) + retained > ByteLength(pending)
  }

  predicate Bounded(retained: nat, st: StreamState, chunk: string) {
    var size := ByteLength(st.pending);
    size <= MAX_PENDING_TOKEN_BYTES || size <= ByteLength(chunk) + retained
  }

  predicate Reachable(retained: nat, st: StreamState) {
    Sound(st) && Settled(retained, st.pending)
  }

  lemma OffsetInSuffix(text: string, cut: nat, k: nat)
    requires cut + k <= |text|
    ensures ByteOffset(text, cut + k) == ByteOffset(text, cut) + ByteOffset(text[cut..], k)
  {
    assert text[..cut + k] == text[..cut] + text[cut..][..k];
    ByteLengthOfConcat(text[..cut], text[cut..][..k]);
  }

  lemma BlankEndsLate(text: string, limit: nat, k: nat)
    requires 1 <= k <= |text| && IsWhitespace(text[k - 1])
    requires LastCut(text, limit, |text|).None? || LastCut(text, limit, |text|).value < k
    ensures ByteOffset(text, k) > limit
  {
    if ByteOffset(text, k) <= limit {
      LastCutIsLast(text, limit, |text|, k);
      assert false;
    }
  }

  lemma NoCutIsSettled(retained: nat, text: string, limit: nat, cut: nat)
    requires cut <= |text| && limit + retained == ByteLength(text)
    requires LastCut(text, limit, |text|).Some? ==> LastCut(text, limit, |text|).value <= cut
    ensures Settled(retained, text[cut..])
  {
    var rest := text[cut..];
    ByteLengthSplit(text, cut);
    forall k | 1 <= k <= |rest| && IsWhitespace(rest[k - 1])
      ensures ByteOffset(rest, k) + retained > ByteLength(rest)
    {
      BlankInSuffixEndsLate(text, limit, cut, k);
    }
  }

  lemma BlankInSuffixEndsLate(text: string, limit: nat, cut: nat, k: nat)
    requires 1 <= k && cut + k <= |text| && IsWhitespace(text[cut..][k - 1])
    requires LastCut(text, limit, |text|).None? || LastCut(text, limit, |text|).value <= cut
    ensures ByteOffset(text, cut) + ByteOffset(text[cut..], k) > limit
  {
    BlankEndsLate(text, limit, cut + k);
    OffsetInSuffix(text, cut, k);
  }

  lemma CutLeavesLittle(retained: nat, pending: string, chunk: string, k: nat, cut: nat)
    requires Settled(retained, pending) && 1 <= k <= cut <= |pending + chunk| && IsWhitespace((pending + chunk)[k - 1])
    ensures ByteLength((pending + chunk)[cut..]) <= ByteLength(chunk) + retained
  {
    var text := pending + chunk;
    ByteLengthOfConcat(pending, chunk);
    ByteLengthSplit(text, cut);
    ByteLengthOfPrefix(text, k, cut);
    if k <= |pending| {
      assert text[..k] == pending[..k];
      assert ByteOffset(pending, k) + retained > ByteLength(pending);
    } else {
      ByteLengthOfPrefix(text, |pending|, k);
      assert text[..|pending|] == pending;
    }
  }

  lemma CutSettles(retained: nat, pending: string, chunk: string, text: string, limit: nat, found: Option<nat>,
                   cut: nat)
    requires Settled(retained, pending) && text == pending + chunk
    requires limit + retained == ByteLength(text) && found == LastCut(text, limit, |text|)
    requires cut <= |text| && if found.Some? then found.value <= cut else cut == 0
    ensures Settled(retained, text[cut..]) && (cut > 0 ==> ByteLength(text[cut..]) <= ByteLength(chunk) + retained)
  {
    NoCutIsSettled(retained, text, limit, cut);
    if found.Some? {
      CutIsBehindBlank(text, limit, found.value);
      CutLeavesLittle(retained, pending, chunk, found.value, cut);
    }
  }

  lemma ShortTextSettles(retained: nat, text: string)
    requires ByteLength(text) <= retained
    ensures Settled(retained, text)
  {
  }

  lemma CutIsReachable(retained: nat, text: string, chunk: string, found: Option<nat>, cut: nat, st: StreamState)
    requires IsPendingFrom(text, found, cut, st) && cut <= |text| && Settled(retained, text[cut..])
    requires found.Some? ==> cut > 0
    requires cut > 0 ==> ByteLength(text[cut..]) <= ByteLength(chunk) + retained
    ensures Reachable(retained, st) && Bounded(retained, st, chunk)
  {
    assert text[0..] == text;
  }

  lemma PushTextSettles(patterns: Patterns, pending: string, chunk: string)
    requires Settled(Retained(patterns), pending)
    ensures Reachable(Retained(patterns), PushText(patterns, pending, chunk).0)
    ensures Bounded(Retained(patterns), PushText(patterns, pending, chunk).0, chunk)
  {
    var text := pending + chunk;
    if ByteLength(text) > Retained(patterns) {
      LongTextSettles(patterns, pending, chunk, text, ByteLength(text) - Retained(patterns));
    } else {
      ShortTextSettles(Retained(patterns), text);
    }
  }

  lemma LongTextSettles(patterns: Patterns, pending: string, chunk: string, text: string, limit: nat)
    requires Settled(Retained(patterns), pending) && text == pending + chunk
    requires limit > 0 && limit + Retained(patterns) == ByteLength(text)
    ensures Reachable(Retained(patterns), Publish(patterns, text).0)
    ensures Bounded(Retained(patterns), Publish(patterns, text).0, chunk)
  {
    var found := LastCut(text, limit, |text|);
    var cut := PublishedAtCut(patterns, text, limit, found);
    CutSettles(Retained(patterns), pending, chunk, text, limit, found, cut);
    CutIsReachable(Retained(patterns), text, chunk, found, cut, Publish(patterns, text).0);
  }

  lemma PushSettles(patterns: Patterns, st: StreamState, chunk: string)
    requires Reachable(Retained(patterns), st)
    ensures Reachable(Retained(patterns), Push(patterns, st, chunk).0)
    ensures Bounded(Retained(patterns), Push(patterns, st, chunk).0, chunk)
  {
    if !st.discarding {
      PushTextSettles(patterns, st.pending, chunk);
    } else {
      match FirstWhitespace(chunk)
      case None =>
      case Some(i) =>
        PushTextSettles(patterns, st.pending, chunk[i + 1..]);
        ByteLengthSplit(chunk, i + 1);
    }
  }

  function After(patterns: Patterns, st: StreamState, chunks: seq<string>): StreamState
    decreases |chunks|
  {
    if chunks == [] then st else After(patterns, Push(patterns, st, chunks[0]).0, chunks[1..])
  }

  lemma {:induction false} PendingIsBoundedBy(patterns: Patterns, st: StreamState, chunks: seq<string>, last: string)
    requires Reachable(Retained(patterns), st) && (chunks != [] ==> chunks[|chunks| - 1] == last)
    ensures Reachable(Retained(patterns), After(patterns, st, chunks))
    ensures chunks != [] ==> Bounded(Retained(patterns), After(patterns, st, chunks), last)
    decreases |chunks|
  {
    if chunks != [] {
      PushSettles(patterns, st, chunks[0]);
      PendingIsBoundedBy(patterns, Push(patterns, st, chunks[0]).0, chunks[1..], last);
    }
  }

  /**
   * After any run the pending text is settled, and no longer than the limit or the last chunk with the tail before it.
   */
  lemma PendingIsBounded(patterns: Patterns, st: StreamState, chunks: seq<string>)
    requires Reachable(Retained(patterns), st)
    ensures Reachable(Retained(patterns), After(patterns, st, chunks))
    ensures chunks != [] ==> Bounded(Retained(patterns), After(patterns, st, chunks), chunks[|chunks| - 1])
  {
    PendingIsBoundedBy(patterns, st, chunks, if chunks == [] then "" else chunks[|chunks| - 1]);
  }
}
