/** Values that never overlap, with or without whitespace: when a stream keeps them hidden, and when it does not. */
module StreamApartValues {
  import opened Wrappers
  import opened Text
  import opened Redaction
  import opened RedactionSafety
  import opened StreamingRedaction
  import opened StreamEquivalence
  import opened StreamGuarantees
  import opened StreamCounterexamples
  import opened ApartValues
  import opened StreamPrefixes

  // ---------------------------------------------------------------------------------------------
  // A cut that is clean now stays clean, whatever text follows
  // ---------------------------------------------------------------------------------------------

  lemma {:induction false} MatchesOfLonger(text: string, more: string, q: string, i: nat, m: nat)
    requires q != "" && i <= |text|
    ensures m in MatchesFrom(text, q, i) ==> m in MatchesFrom(text + more, q, i)
    ensures m in MatchesFrom(text + more, q, i) && m + |q| <= |text| ==> m in MatchesFrom(text, q, i)
    decreases |text| - i
  {
    var all := text + more;
    if i + |q| <= |text| {
      assert all[i..][..|q|] == text[i..][..|q|];
      assert q <= all[i..] <==> q <= text[i..];
      MatchesOfLonger(text, more, q, if q <= text[i..] then i + |q| else i + 1, m);
    } else if m in MatchesFrom(all, q, i) {
      MatchesAreOccurrences(all, q, i, m);
    }
  }

  lemma {:induction false} MatchesAreApart(text: string, q: string, i: nat, m: nat, n: nat)
    requires q != "" && i <= |text| && m in MatchesFrom(text, q, i) && n in MatchesFrom(text, q, i) && m < n
    ensures m + |q| <= n
    decreases |text| - i
  {
    MatchesAreOccurrences(text, q, i, m);
    MatchesAreOccurrences(text, q, i, n);
    if q <= text[i..] {
      var rest := MatchesFrom(text, q, i + |q|);
      if m == i {
        assert n in rest;
        MatchesAreOccurrences(text, q, i + |q|, n);
      } else {
        assert m in rest && n in rest;
        MatchesAreApart(text, q, i + |q|, m, n);
      }
    } else {
      MatchesAreApart(text, q, i + 1, m, n);
    }
  }

  // A match that needs text still to come begins within the retained tail.
  lemma UnfinishedMatchIsLate(text: string, more: string, q: string, m: nat, k: nat)
    requires OccursAt(q, text + more, m) && m <= |text| < m + |q| && k <= |text|
    requires ByteOffset(text, k) + ByteLength(q) <= ByteLength(text) + 1
    ensures k <= m
  {
    var n := |text| - m;
    assert text[m..] == (text + more)[m..][..n] == q[..n];
    ByteLengthOfPrefix(q, n, |q|);
    assert q[..|q|] == q;
    ByteLengthSplit(text, m);
    if m < k { ByteLengthOfPrefix(text, m, k); }
  }

  // The text as far as it has come holds the tail of every value behind `k`.
  predicate LeavesRoom(text: string, k: nat, q: string) {
    k <= |text| && ByteOffset(text, k) + ByteLength(q) <= ByteLength(text) + 1
  }

  lemma UnfinishedMatchIsBehind(patterns: Patterns, text: string, more: string, q: string, k: nat, m: nat)
    requires IsApart(patterns, q) && q in patterns && LeavesRoom(text, k, q)
    requires m in MatchesFrom(text + more, q, 0) && m <= |text| < m + |q|
    ensures NextCleanCut(patterns, text, k) <= m
  {
    var cut := NextCleanCut(patterns, text, k);
    MatchesAreOccurrences(text + more, q, 0, m);
    UnfinishedMatchIsLate(text, more, q, m, k);
    if k < cut {
      var p, n := MovedCutEndsAMatch(patterns, text, k);
      MatchesOfLonger(text, more, p, 0, n);
      MatchesAreOccurrences(text + more, p, 0, n);
      if p == q {
        MatchesAreApart(text + more, q, 0, n, m);
      } else {
        OccurrencesDoNotOverlap(p, q, text + more, n, m);
      }
    }
  }

  lemma NoMatchStraddlesLater(patterns: Patterns, text: string, more: string, q: string, k: nat, m: nat)
    requires IsApart(patterns, q) && q in patterns && LeavesRoom(text, k, q)
    requires m in MatchesFrom(text + more, q, 0)
    ensures !Straddles(q, m, NextCleanCut(patterns, text, k))
  {
    var cut := NextCleanCut(patterns, text, k);
    MatchesOfLonger(text, more, q, 0, m);
    if m + |q| <= |text| {
      NextCleanCutIsLeast(patterns, text, k, |text|);
      assert CleanFrom(text, q, 0, cut);
    } else if m <= |text| {
      UnfinishedMatchIsBehind(patterns, text, more, q, k, m);
    }
  }

  lemma CleanInEveryPrefix(patterns: Patterns, text: string, later: string, q: string, k: nat, head: string,
                           more: string)
    requires IsApart(patterns, q) && q in patterns && LeavesRoom(text, k, q)
    requires text + later == head + more
    ensures CleanFrom(head, q, 0, NextCleanCut(patterns, text, k))
  {
    var cut := NextCleanCut(patterns, text, k);
    forall m | m in MatchesFrom(head, q, 0) ensures !Straddles(q, m, cut) {
      MatchesOfLonger(head, more, q, 0, m);
      NoMatchStraddlesLater(patterns, text, later, q, k, m);
    }
  }

  lemma ReplaceSplitsAtClean(head: string, front: string, back: string, q: string)
    requires q != "" && head == front + back && CleanFrom(head, q, 0, |front|)
    ensures Replace(head, q) == Replace(front, q) + Replace(back, q)
  {
    ReplaceAcrossCleanCut(head, q, 0, |front|);
    assert head[0..] == head && head[0..|front|] == front && head[|front|..] == back;
  }

  // Replacing up to the boundary and behind it is replacing in the whole, however the text goes on.
  lemma ReplaceSplitsAtCut(patterns: Patterns, text: string, front: string, rest: string, later: string, q: string,
                           k: nat, back: string)
    requires IsApart(patterns, q) && q in patterns && LeavesRoom(text, k, q)
    requires text == front + rest && |front| == NextCleanCut(patterns, text, k) && back <= rest + later
    ensures Replace(front + back, q) == Replace(front, q) + Replace(back, q)
  {
    var more := (rest + later)[|back|..];
    assert rest + later == back + more;
    assert text + later == front + (rest + later) == front + (back + more) == front + back + more;
    CleanInEveryPrefix(patterns, text, later, q, k, front + back, more);
    ReplaceSplitsAtClean(front + back, front, back, q);
  }

  // ---------------------------------------------------------------------------------------------
  // A mark between two texts makes no value
  // ---------------------------------------------------------------------------------------------

  lemma OccursAtWithin(q: string, s: string, i: nat, from: nat, part: string)
    requires from <= i && i + |q| <= from + |part| && from + |part| <= |s| && s[from..from + |part|] == part
    requires OccursAt(q, s, i)
    ensures OccursAt(q, part, i - from)
  {
    forall j | 0 <= j < |q| ensures part[i - from..][j] == q[j] {
      assert s[i..][j] == s[i + j] == s[from..from + |part|][i - from + j];
    }
  }

  lemma MarkSeparates(q: string, before: string, behind: string)
    requires Plain(q) && !Occurs(q, before) && !Occurs(q, behind)
    ensures !Occurs(q, before + REDACTED + behind)
  {
    var s, n := before + REDACTED + behind, |before|;
    forall i: nat | i <= |s| ensures !OccursAt(q, s, i) {
      if OccursAt(q, s, i) { MarkIsNotTouched(q, before, behind, i); }
    }
  }

  lemma MarkIsNotTouched(q: string, before: string, behind: string, i: nat)
    requires Plain(q) && OccursAt(q, before + REDACTED + behind, i)
    ensures Occurs(q, before) || Occurs(q, behind)
  {
    var s, n := before + REDACTED + behind, |before|;
    assert s[n] == '[' && s[n + 9] == ']';
    OccurrenceMissesBrackets(q, s, i, n);
    OccurrenceMissesBrackets(q, s, i, n + 9);
    if i + |q| <= n {
      assert s[0..0 + |before|] == before;
      OccursAtWithin(q, s, i, 0, before);
    } else if i > n + 9 {
      assert s[n + 10..n + 10 + |behind|] == behind;
      OccursAtWithin(q, s, i, n + 10, behind);
    } else {
      assert s[n + 1..n + 1 + |"REDACTED"|] == "REDACTED";
      OccursAtWithin(q, s, i, n + 1, "REDACTED");
      assert Occurs(q, "REDACTED");
    }
  }

  // ---------------------------------------------------------------------------------------------
  // What a run publishes
  // ---------------------------------------------------------------------------------------------

  // A text that hides `q`, and that masks to `published`: the replaced `head`, and a mark before whatever follows it.
  ghost predicate Hides(rounds: nat, q: string, head: string, tail: string, published: string)
    requires q != ""
  {
    && (tail == "" || REDACTED <= tail)
    && !Occurs(q, Replace(head, q) + tail)
    && IsMaskedIn(rounds, Replace(head, q) + tail, published)
  }

  // A plain value that never overlaps another one, whatever the others do among themselves.
  predicate ApartWith(patterns: Patterns, q: string) {
    q in patterns && Plain(q) && IsApart(patterns, q)
  }

  lemma NoneLeft(q: string, s: string)
    requires Plain(q)
    ensures !Occurs(q, Replace(s, q))
  {
    forall i: nat ensures !OccursAt(q, Replace(s, q), i) { ReplaceLeavesNone(s, q, i); }
  }

  lemma NoneInSuffix(q: string, a: string, b: string)
    requires !Occurs(q, a + b)
    ensures !Occurs(q, b)
  {
    forall i: nat | i <= |b| ensures !OccursAt(q, b, i) {
      assert (a + b)[|a| + i..] == b[i..];
      assert !OccursAt(q, a + b, |a| + i);
    }
  }

  // A mark keeps what stands before it apart from what comes behind it.
  lemma NoneWithTail(q: string, a: string, b: string, tail: string)
    requires Plain(q) && !Occurs(q, a + b) && (tail == "" || REDACTED <= tail) && !Occurs(q, b + tail)
    ensures !Occurs(q, a + b + tail)
  {
    if tail == "" {
      assert a + b + tail == a + b;
    } else {
      var behind := tail[|REDACTED|..];
      assert tail == REDACTED + behind;
      assert b + tail == (b + REDACTED) + behind && a + b + tail == (a + b) + REDACTED + behind;
      NoneInSuffix(q, b + REDACTED, behind);
      MarkSeparates(q, a + b, behind);
    }
  }

  // A redacted stretch before what is hidden already, when replacing splits at the boundary between them.
  lemma HidesBefore(patterns: Patterns, q: string, front: string, head: string, tail: string, published: string)
    requires ApartWith(patterns, q) && Hides(|patterns|, q, head, tail, published)
    requires Replace(front + head, q) == Replace(front, q) + Replace(head, q)
    ensures Hides(|patterns|, q, front + head, tail, RedactText(patterns, front) + published)
  {
    var a, b := Replace(front, q), Replace(head, q);
    RedactionMasksReplaced(front, patterns, q);
    RoundsConcatenate(|patterns|, a, RedactText(patterns, front), b + tail, published);
    ConcatIsAssociative(a, b, tail);
    NoneLeft(q, front + head);
    NoneWithTail(q, a, b, tail);
  }

  lemma HidesPending(patterns: Patterns, q: string, pending: string)
    requires ApartWith(patterns, q)
    ensures Hides(|patterns|, q, pending, "", RedactText(patterns, pending))
  {
    assert Replace(pending, q) + "" == Replace(pending, q);
    RedactionMasksReplaced(pending, patterns, q);
    NoneLeft(q, pending);
  }

  lemma MarkBefore(q: string, base: string)
    requires Plain(q) && !Occurs(q, base)
    ensures !Occurs(q, REDACTED + base)
  {
    forall i: nat | i <= |""| ensures !OccursAt(q, "", i) {}
    MarkSeparates(q, "", base);
    assert "" + REDACTED == REDACTED;
  }

  lemma HidesMark(rounds: nat, q: string, published: string)
    requires Plain(q) && !Occurs(q, published)
    ensures Hides(rounds, q, "", REDACTED + published, REDACTED + published)
  {
    MarkBefore(q, published);
    RoundsMaskNothing(rounds, REDACTED + published);
    assert Replace("", q) == "" && "" + (REDACTED + published) == REDACTED + published;
  }

  // What masks to a text that hides the value.
  lemma HiddenIsNotPublished(rounds: nat, q: string, head: string, tail: string, published: string)
    requires Plain(q) && Hides(rounds, q, head, tail, published)
    ensures !Occurs(q, published)
  {
    if Occurs(q, published) { RoundsCreateNoValue(rounds, q, Replace(head, q) + tail, published); }
  }

  // While a word is discarded, a drop is still to come.
  lemma {:induction false} DiscardingDrops(patterns: Patterns, st: StreamState, lost: string, chunks: seq<string>)
    requires st.discarding
    ensures !NothingDropped(Trace(patterns, st, lost, chunks))
    decreases |chunks|
  {
    var pieces := Trace(patterns, st, lost, chunks);
    if chunks == [] {
      assert pieces[0] in pieces && pieces[0].Dropped?;
    } else {
      match FirstWhitespace(chunks[0])
      case None => DiscardingDrops(patterns, st, lost + chunks[0], chunks[1..]);
      case Some(i) => assert pieces[0] in pieces && pieces[0].Dropped?;
    }
  }

  // What follows a dropped word begins with the blank that ended the word, and no mark stands before the next one.
  predicate ShowsBehindDrop(q: string)
    requires q != ""
  {
    IsWhitespace(q[0]) && q[1..] <= RedactAssignments(q[1..])
  }

  lemma BlankBefore(q: string, w: char, base: string)
    requires Plain(q) && !Occurs(q, base) && IsWhitespace(w) && BeginsKept(base) && !ShowsBehindDrop(q)
    ensures !Occurs(q, [w] + base)
  {
    var s := [w] + base;
    assert s[1..] == base && s[0..] == s;
    assert BracketFree(q[1..]) by { assert forall c :: c in q[1..] ==> c in q; }
    forall i: nat | i <= |s| ensures !OccursAt(q, s, i) {
      if i == 0 {
        if q <= s { PrefixBehindBlank(q, w, base); }
      } else {
        assert s[i..] == base[i - 1..];
        assert !OccursAt(q, base, i - 1);
      }
    }
  }

  lemma PrefixBehindBlank(q: string, w: char, base: string)
    requires q != "" && q <= [w] + base
    ensures q[0] == w && q[1..] <= base
  {
    assert ([w] + base)[1..] == base && ([w] + base)[..|q|] == q;
  }

  lemma TailCovers(patterns: Patterns, q: string)
    requires q in patterns
    ensures ByteLength(q) <= Retained(patterns) + 1
  {
    LongestBytesIsMaximum(patterns);
    var i :| 0 <= i < |patterns| && patterns[i] == q;
  }

  /**
   * Whatever a stream publishes from some pending text on hides the value, given that it drops nothing or the value
   * does not show behind a drop.
   */
  lemma {:induction false} RunHides(patterns: Patterns, q: string, pending: string, chunks: seq<string>)
    returns (head: string, tail: string)
    requires ApartWith(patterns, q)
    requires NothingDropped(Trace(patterns, StreamState(pending, false), "", chunks)) || !ShowsBehindDrop(q)
    ensures head <= pending + Concat(chunks)
    ensures Hides(|patterns|, q, head, tail, Published(patterns, StreamState(pending, false), chunks))
    decreases |chunks|, 0
  {
    if chunks == [] {
      head, tail := pending, "";
      HidesPending(patterns, q, pending);
    } else {
      head, tail := TextHides(patterns, q, pending + chunks[0], pending, chunks[0], chunks[1..]);
      ConcatIsAssociative(pending, chunks[0], Concat(chunks[1..]));
    }
  }

  lemma {:induction false} TextHides(patterns: Patterns, q: string, text: string, pending: string, chunk: string,
                                     chunks: seq<string>)
    returns (head: string, tail: string)
    requires ApartWith(patterns, q) && text == pending + chunk
    requires NothingDropped(TraceText(patterns, pending, chunk, chunks)) || !ShowsBehindDrop(q)
    ensures head <= text + Concat(chunks)
    ensures Hides(|patterns|, q, head, tail,
                  Publish(patterns, text).1 + Published(patterns, Publish(patterns, text).0, chunks))
    decreases |chunks|, 1
  {
    var (st, output) := Publish(patterns, text);
    if st.discarding {
      TextIsNotDropped(patterns, text, pending, chunk, chunks);
      DiscardHides(patterns, q, st, chunks);
      head, tail := "", REDACTED + Published(patterns, st, chunks);
      HidesMark(|patterns|, q, Published(patterns, st, chunks));
    } else {
      RestDropsNothing(patterns, text, pending, chunk, chunks);
      head, tail := RunHides(patterns, q, st.pending, chunks);
      head := CutHides(patterns, q, text, st.pending, output, Concat(chunks),
                       head, tail, Published(patterns, st, chunks));
    }
  }

  lemma TextIsNotDropped(patterns: Patterns, text: string, pending: string, chunk: string, chunks: seq<string>)
    requires text == pending + chunk
    ensures Publish(patterns, text).0.discarding ==> !NothingDropped(TraceText(patterns, pending, chunk, chunks))
  {
    var st := Publish(patterns, text).0;
    if st.discarding { DiscardingDrops(patterns, st, text, chunks); }
  }

  lemma PushLeavesRoom(patterns: Patterns, text: string, q: string, rest: string, output: string)
    returns (k: nat, front: string)
    requires q in patterns && CutsText(patterns, text) && Publish(patterns, text) == (StreamState(rest, false), output)
    ensures LeavesRoom(text, k, q) && text == front + rest
    ensures |front| == NextCleanCut(patterns, text, k) && output == RedactText(patterns, front)
  {
    k, front := PushCutsAt(patterns, text);
    TailCovers(patterns, q);
  }

  // What a push publishes, before what the rest of the run hides.
  lemma HidesAtCut(patterns: Patterns, q: string, text: string, front: string, rest: string, later: string, k: nat,
                   head: string, tail: string, published: string)
    requires ApartWith(patterns, q) && LeavesRoom(text, k, q) && text == front + rest
    requires |front| == NextCleanCut(patterns, text, k) && head <= rest + later
    requires Hides(|patterns|, q, head, tail, published)
    ensures front + head <= text + later
    ensures Hides(|patterns|, q, front + head, tail, RedactText(patterns, front) + published)
  {
    ReplaceSplitsAtCut(patterns, text, front, rest, later, q, k, head);
    HidesBefore(patterns, q, front, head, tail, published);
    PrefixBehind(front, head, rest + later);
    ConcatIsAssociative(front, rest, later);
  }

  lemma CutHides(patterns: Patterns, q: string, text: string, rest: string, output: string, later: string,
                 head: string, tail: string, published: string)
    returns (longer: string)
    requires ApartWith(patterns, q) && Publish(patterns, text) == (StreamState(rest, false), output)
    requires head <= rest + later && Hides(|patterns|, q, head, tail, published)
    ensures longer <= text + later && Hides(|patterns|, q, longer, tail, output + published)
  {
    if CutsText(patterns, text) {
      var k, front := PushLeavesRoom(patterns, text, q, rest, output);
      HidesAtCut(patterns, q, text, front, rest, later, k, head, tail, published);
      longer := front + head;
    } else {
      PushHoldsBack(patterns, text);
      assert "" + published == published;
      longer := head;
    }
  }

  lemma PrefixBehind(front: string, a: string, b: string)
    requires a <= b
    ensures front + a <= front + b
  {
  }

  lemma RestDropsNothing(patterns: Patterns, text: string, pending: string, chunk: string, chunks: seq<string>)
    requires text == pending + chunk && !Publish(patterns, text).0.discarding
    ensures NothingDropped(TraceText(patterns, pending, chunk, chunks)) ==>
              NothingDropped(Trace(patterns, Publish(patterns, text).0, "", chunks))
  {
    var pieces, rest := TraceText(patterns, pending, chunk, chunks),
                        Trace(patterns, Publish(patterns, text).0, "", chunks);
    assert pieces[1..] == rest;
  }

  lemma {:induction false} DiscardHides(patterns: Patterns, q: string, st: StreamState, chunks: seq<string>)
    requires ApartWith(patterns, q) && !ShowsBehindDrop(q) && st == StreamState("", true)
    ensures !Occurs(q, Published(patterns, st, chunks))
    decreases |chunks|, 0
  {
    if chunks == [] {
      forall i: nat | i <= |""| ensures !OccursAt(q, "", i) {}
    } else {
      match FirstWhitespace(chunks[0])
      case None =>
        PublishedInDroppedWord(patterns, chunks);
        DiscardHides(patterns, q, st, chunks[1..]);
      case Some(i) =>
        var text := chunks[0][i + 1..];
        PublishedBehindDroppedWord(patterns, chunks, i, text);
        assert "" + text == text;
        var head, tail := TextHides(patterns, q, text, "", text, chunks[1..]);
        var published := Publish(patterns, text).1 + Published(patterns, Publish(patterns, text).0, chunks[1..]);
        HiddenIsNotPublished(|patterns|, q, head, tail, published);
        TextBeginsKept(patterns, text, chunks[1..]);
        BlankBefore(q, chunks[0][i], published);
    }
  }

  /**
   * A plain value that never overlaps another one is in no stream that drops nothing, and in none at all unless it
   * shows behind a drop.
   */
  lemma ApartValuesAreNotStreamed(patterns: Patterns, chunks: seq<string>, q: string)
    requires ApartWith(patterns, q)
    requires NothingDropped(RunPieces(patterns, chunks)) || !ShowsBehindDrop(q)
    ensures !Occurs(q, Stream(patterns, chunks))
  {
    var head, tail := RunHides(patterns, q, "", chunks);
    HiddenIsNotPublished(|patterns|, q, head, tail, Stream(patterns, chunks));
  }

  // ---------------------------------------------------------------------------------------------
  // A value that begins with a blank
  // ---------------------------------------------------------------------------------------------

  lemma {:induction false} NoAssignmentIsUntouched(s: string)
    requires '=' !in s
    ensures RedactAssignments(s) == s
    decreases |s|
  {
    if s != "" {
      var part, rest := s[..PartLength(s)], s[PartLength(s)..];
      assert s == part + rest;
      assert '=' !in TrimEnd(part);
      assert RedactToken(TrimEnd(part)) == TrimEnd(part);
      assert MapPart(RedactToken, part) == part;
      NoAssignmentIsUntouched(rest);
    }
  }

  lemma OneValueRedacts(patterns: Patterns, q: string, s: string)
    requires patterns == [q]
    ensures RedactText(patterns, s) == RedactAssignments(Replace(s, q))
  {
    assert patterns[1..] == [];
    assert ReplaceAll(Replace(s, q), []) == Replace(s, q);
  }

  lemma OneValueTail(patterns: Patterns, q: string)
    requires patterns == [q]
    ensures Retained(patterns) + 1 == ByteLength(q)
  {
    assert patterns[1..] == [] && LongestBytes([]) == 0;
  }

  lemma ShorterTextIsKept(q: string, s: string)
    requires q != "" && |s| < |q|
    ensures Replace(s, q) == s
  {
  }

  // Behind a discarded word the blank is published, and then the rest of the value, which is no value any more.
  lemma ValueBehindADiscardedWord(patterns: Patterns, q: string, w: char, rest: string)
    requires patterns == [q] && q == [w] + rest && IsWhitespace(w)
    ensures Published(patterns, StreamState("", true), [q]) == [w] + RedactAssignments(rest)
  {
    OneValueTail(patterns, q);
    ByteLengthOfConcat([w], rest);
    assert ByteLength([w]) >= 1;
    assert FirstWhitespace(q) == Some(0) && [q][1..] == [];
    PublishedBehindDroppedWord(patterns, [q], 0, rest);
    assert Publish(patterns, rest) == (StreamState(rest, false), "");
    OneValueRedacts(patterns, q, rest);
    ShorterTextIsKept(q, rest);
    assert "" + RedactAssignments(rest) == RedactAssignments(rest);
  }

  lemma LongWordIsDiscarded(patterns: Patterns, word: string)
    requires WhitespaceFree(word) && ByteLength(word) > MAX_PENDING_TOKEN_BYTES && ByteLength(word) > Retained(patterns)
    ensures Push(patterns, INITIAL, word) == (StreamState("", true), REDACTED)
  {
    assert "" + word == word;
    assert LastCut(word, ByteLength(word) - Retained(patterns), |word|).None?;
  }

  lemma OccursBetween(before: string, q: string, s: string)
    requires q <= s
    ensures Occurs(q, before + s)
  {
    assert (before + s)[|before|..] == s;
    assert OccursAt(q, before + s, |before|);
  }

  lemma SendBehindLongWord(patterns: Patterns, word: string, q: string, published: string)
    requires Push(patterns, INITIAL, word) == (StreamState("", true), REDACTED)
    requires Published(patterns, StreamState("", true), [q]) == published
    ensures Stream(patterns, [word, q]) == REDACTED + published
  {
    assert [word, q][1..] == [q];
  }

  /**
   * A value with a blank in front whose rest is no assignment is published as it is, when it comes behind a word that
   * is dropped.
   */
  lemma LeadingBlankIsPublished(q: string) returns (chunks: seq<string>)
    requires q != "" && ShowsBehindDrop(q)
    ensures Stream([q], chunks) == REDACTED + ([q[0]] + RedactAssignments(q[1..])) && Occurs(q, Stream([q], chunks))
  {
    var word, patterns := Filler(MAX_PENDING_TOKEN_BYTES + Retained([q])), [q];
    AsciiByteLength(word);
    chunks := [word, q];
    LongWordIsDiscarded(patterns, word);
    assert q == [q[0]] + q[1..];
    ValueBehindADiscardedWord(patterns, q, q[0], q[1..]);
    SendBehindLongWord(patterns, word, q, [q[0]] + RedactAssignments(q[1..]));
    OccursBetween(REDACTED, q, [q[0]] + RedactAssignments(q[1..]));
  }

  /**
   * For one plain value: no stream ever publishes it, exactly when it has no blank in front of what the rewriting of
   * assignments keeps.
   */
  lemma OneValueIsHiddenExactly(q: string)
    requires Plain(q)
    ensures (forall chunks :: !Occurs(q, Stream([q], chunks))) <==> !ShowsBehindDrop(q)
  {
    if ShowsBehindDrop(q) {
      var chunks := LeadingBlankIsPublished(q);
    } else {
      forall chunks ensures !Occurs(q, Stream([q], chunks)) { ApartValuesAreNotStreamed([q], chunks, q); }
    }
  }

  /** A value without `=` shows behind a drop exactly when it begins with a blank. */
  lemma NoAssignmentShows(q: string)
    requires q != "" && '=' !in q
    ensures ShowsBehindDrop(q) <==> IsWhitespace(q[0])
  {
    assert '=' !in q[1..] by { assert forall c :: c in q[1..] ==> c in q; }
    NoAssignmentIsUntouched(q[1..]);
  }
}
