/** Which values no stream publishes, for sets in which some values have whitespace and some overlap. */
module StreamHiddenValues {
  import opened Wrappers
  import opened Text
  import opened Redaction
  import opened RedactionSafety
  import opened StreamingRedaction
  import opened StreamEquivalence
  import opened StreamGuarantees
  import opened ApartValues
  import opened StreamPrefixes
  import opened StreamApartValues

  // Values outside the group never overlap one inside it.
  predicate IsClosed(patterns: Patterns, group: set<string>) {
    forall p, g :: p in patterns && g in patterns && p !in group && g in group ==> Apart(p, g)
  }

  // The values that can move a cut to a place within `q` are kept in a group that `q` stands outside of.
  predicate Separates(patterns: Patterns, group: set<string>, q: string) {
    && q !in group && IsClosed(patterns, group)
    && forall p :: p in patterns && p != q && !(WhitespaceFree(p) && WhitespaceFree(q)) ==> p in group
  }

  // ---------------------------------------------------------------------------------------------
  // Where a cut can stand
  // ---------------------------------------------------------------------------------------------

  lemma MatchAcrossBlank(p: string, text: string, n: nat, k: nat)
    requires OccursAt(p, text, n) && n < k < n + |p| && k <= |text| && IsWhitespace(text[k - 1])
    ensures !WhitespaceFree(p)
  {
    assert p[k - 1 - n] == text[n..][k - 1 - n] == text[k - 1];
  }

  // A match in the stretch over which the cut moves: each such match overlaps one that begins before it, up to the
  // blank.
  lemma {:induction false} PassedMatchIsInGroup(patterns: Patterns, group: set<string>, q: string, text: string,
                                                k: nat, p: string, n: nat)
    requires Separates(patterns, group, q) && WhitespaceFree(q) && 1 <= k <= |text| && IsWhitespace(text[k - 1])
    requires p in patterns && n in MatchesFrom(text, p, 0) && n < NextCleanCut(patterns, text, k) && k < n + |p|
    ensures p in group
    decreases n
  {
    MatchesAreOccurrences(text, p, 0, n);
    if n < k {
      MatchAcrossBlank(p, text, n, k);
    } else {
      NextCleanCutIsLeast(patterns, text, k, n);
      var p' :| p' in patterns && !CleanFrom(text, p', 0, n);
      var n' :| n' in MatchesFrom(text, p', 0) && Straddles(p', n', n);
      PassedMatchIsInGroup(patterns, group, q, text, k, p', n');
      MatchesAreOccurrences(text, p', 0, n');
      if p !in group { OccurrencesDoNotOverlap(p, p', text, n, n'); }
    }
  }

  lemma MovedCutEndsGroup(patterns: Patterns, group: set<string>, q: string, text: string, k: nat)
    returns (p: string, m: nat)
    requires Separates(patterns, group, q) && WhitespaceFree(q) && 1 <= k <= |text| && IsWhitespace(text[k - 1])
    requires k < NextCleanCut(patterns, text, k)
    ensures p in patterns && p in group && OccursAt(p, text, m) && m + |p| == NextCleanCut(patterns, text, k)
  {
    p, m := MovedCutEndsAMatch(patterns, text, k);
    PassedMatchIsInGroup(patterns, group, q, text, k, p, m);
    MatchesAreOccurrences(text, p, 0, m);
  }

  lemma OccursInLonger(p: string, text: string, more: string, m: nat)
    requires OccursAt(p, text, m)
    ensures OccursAt(p, text + more, m)
  {
    assert (text + more)[m..] == text[m..] + more;
  }

  // However the text goes on, no occurrence of the value lies across the cut.
  lemma NoOccurrenceAcrossCut(patterns: Patterns, group: set<string>, q: string, text: string, more: string, k: nat,
                              i: nat)
    requires q in patterns && Separates(patterns, group, q) && WhitespaceFree(q)
    requires 1 <= k <= |text| && IsWhitespace(text[k - 1]) && OccursAt(q, text + more, i)
    ensures !Straddles(q, i, NextCleanCut(patterns, text, k))
  {
    if NextCleanCut(patterns, text, k) == k {
      if Straddles(q, i, k) { MatchAcrossBlank(q, text + more, i, k); }
    } else {
      var p, m := MovedCutEndsGroup(patterns, group, q, text, k);
      OccursInLonger(p, text, more, m);
      OccurrencesDoNotOverlap(q, p, text + more, i, m);
    }
  }

  // ---------------------------------------------------------------------------------------------
  // What is published holds no value, and begins as the input does
  // ---------------------------------------------------------------------------------------------

  // A beginning of the published text is one of the input, unless a mark stands in it.
  ghost predicate BeginsAlike(published: string, input: string) {
    forall v :: BracketFree(v) && v <= published ==> v <= input
  }

  lemma RedactionBeginsAlike(patterns: Patterns, s: string)
    ensures BeginsAlike(RedactText(patterns, s), s)
  {
    RestIsMasked(s, patterns);
    forall v | BracketFree(v) && v <= RedactText(patterns, s) ensures v <= s {
      RoundsKeepPrefix(|patterns| + 1, s, RedactText(patterns, s), v);
    }
  }

  lemma BeginsAlikeBefore(patterns: Patterns, front: string, published: string, input: string)
    requires BeginsAlike(published, input)
    ensures BeginsAlike(RedactText(patterns, front) + published, front + input)
  {
    var redacted := RedactText(patterns, front);
    RedactionBeginsAlike(patterns, front);
    RestIsMasked(front, patterns);
    forall v | BracketFree(v) && v <= redacted + published ensures v <= front + input {
      PrefixInParts(v, redacted, published);
      if |v| > |redacted| { RoundsMaskNone(|patterns| + 1, front, redacted); }
    }
  }

  lemma OccurrenceInParts(q: string, a: string, b: string, i: nat)
    requires OccursAt(q, a + b, i)
    ensures i + |q| <= |a| ==> OccursAt(q, a, i)
    ensures |a| <= i ==> OccursAt(q, b, i - |a|)
    ensures i < |a| < i + |q| ==> a[i..] == q[..|a| - i] && q[|a| - i..] <= b
  {
    if |a| <= i {
      assert (a + b)[i..] == b[i - |a|..];
    } else {
      assert (a + b)[i..] == a[i..] + b;
      if |a| < i + |q| {
        assert q[..|a| - i] == (a[i..] + b)[..|a| - i] == a[i..];
        assert q[|a| - i..] == (a[i..] + b)[|a| - i..|q|] == b[..|q| - (|a| - i)];
      } else {
        assert q == (a[i..] + b)[..|q|] == a[i..][..|q|];
      }
    }
  }

  lemma PartsOccur(q: string, a: string, b: string, n: nat)
    requires n <= |q| && n <= |a| && a[|a| - n..] == q[..n] && q[n..] <= b
    ensures OccursAt(q, a + b, |a| - n)
  {
    assert (a + b)[|a| - n..] == a[|a| - n..] + b == q[..n] + b;
    assert q == q[..n] + q[n..];
  }

  // An occurrence across the end of the redacted front would have been one across the cut.
  lemma AcrossInOutputIsAcrossInInput(patterns: Patterns, q: string, front: string, published: string, input: string,
                                      i: nat)
    requires BracketFree(q) && BeginsAlike(published, input) && OccursAt(q, RedactText(patterns, front) + published, i)
    requires Straddles(q, i, |RedactText(patterns, front)|)
    ensures var n := |RedactText(patterns, front)| - i; n <= |front| && OccursAt(q, front + input, |front| - n)
  {
    var redacted := RedactText(patterns, front);
    OccurrenceInParts(q, redacted, published, i);
    RestIsMasked(front, patterns);
    RoundsKeepSuffix(|patterns| + 1, front, redacted, i);
    assert BracketFree(q[|redacted| - i..]);
    PartsOccur(q, front, input, |redacted| - i);
  }

  lemma HiddenBefore(patterns: Patterns, q: string, front: string, published: string, input: string)
    requires q in patterns && Plain(q) && !Occurs(q, published) && BeginsAlike(published, input)
    requires forall i :: 0 <= i && OccursAt(q, front + input, i) ==> !Straddles(q, i, |front|)
    ensures !Occurs(q, RedactText(patterns, front) + published)
  {
    var redacted := RedactText(patterns, front);
    NoValueSurvives(patterns, front, q);
    forall i: nat | i <= |redacted + published| ensures !OccursAt(q, redacted + published, i) {
      if OccursAt(q, redacted + published, i) {
        OccurrenceInParts(q, redacted, published, i);
        if Straddles(q, i, |redacted|) { AcrossInOutputIsAcrossInInput(patterns, q, front, published, input, i); }
      }
    }
  }

  // ---------------------------------------------------------------------------------------------
  // Runs
  // ---------------------------------------------------------------------------------------------

  ghost predicate Keeps(q: string, published: string, input: string) {
    !Occurs(q, published) && BeginsAlike(published, input)
  }

  lemma KeepsAtCut(patterns: Patterns, group: set<string>, q: string, text: string, front: string, rest: string,
                   later: string, published: string, k: nat)
    requires q in patterns && Plain(q) && WhitespaceFree(q) && Separates(patterns, group, q)
    requires 1 <= k <= |text| && IsWhitespace(text[k - 1])
    requires text == front + rest && |front| == NextCleanCut(patterns, text, k) && Keeps(q, published, rest + later)
    ensures Keeps(q, RedactText(patterns, front) + published, text + later)
  {
    ConcatIsAssociative(front, rest, later);
    forall i | 0 <= i && OccursAt(q, text + later, i) ensures !Straddles(q, i, |front|) {
      NoOccurrenceAcrossCut(patterns, group, q, text, later, k, i);
    }
    HiddenBefore(patterns, q, front, published, rest + later);
    BeginsAlikeBefore(patterns, front, published, rest + later);
  }

  lemma KeepsBefore(patterns: Patterns, group: set<string>, q: string, text: string, later: string, published: string)
    requires q in patterns && Plain(q) && WhitespaceFree(q) && Separates(patterns, group, q)
    requires !Publish(patterns, text).0.discarding && Keeps(q, published, Publish(patterns, text).0.pending + later)
    ensures Keeps(q, Publish(patterns, text).1 + published, text + later)
  {
    if CutsText(patterns, text) {
      var k, front := PushCutsAt(patterns, text);
      KeepsAtCut(patterns, group, q, text, front, Publish(patterns, text).0.pending, later, published, k);
    } else {
      PushHoldsBack(patterns, text);
      assert "" + published == published;
    }
  }

  lemma KeepsMark(q: string, base: string, input: string)
    requires Plain(q) && !Occurs(q, base)
    ensures Keeps(q, REDACTED + base, input)
  {
    MarkBefore(q, base);
    assert "" + REDACTED + base == REDACTED + base;
    forall v | BracketFree(v) && v <= REDACTED + base ensures v <= input { NoMarkWithin(v, "", base); }
  }

  lemma {:induction false} RunKeeps(patterns: Patterns, group: set<string>, q: string, pending: string,
                                    chunks: seq<string>)
    requires q in patterns && Plain(q) && WhitespaceFree(q) && Separates(patterns, group, q)
    ensures Keeps(q, Published(patterns, StreamState(pending, false), chunks), pending + Concat(chunks))
    decreases |chunks|, 0
  {
    if chunks == [] {
      NoValueSurvives(patterns, pending, q);
      RedactionBeginsAlike(patterns, pending);
      assert pending + "" == pending;
    } else {
      TextKeeps(patterns, group, q, pending + chunks[0], chunks[1..]);
      ConcatIsAssociative(pending, chunks[0], Concat(chunks[1..]));
    }
  }

  lemma {:induction false} TextKeeps(patterns: Patterns, group: set<string>, q: string, text: string,
                                     chunks: seq<string>)
    requires q in patterns && Plain(q) && WhitespaceFree(q) && Separates(patterns, group, q)
    ensures var (st, output) := Publish(patterns, text);
            Keeps(q, output + Published(patterns, st, chunks), text + Concat(chunks))
    decreases |chunks|, 1
  {
    var (st, output) := Publish(patterns, text);
    if st.discarding {
      DiscardKeeps(patterns, group, q, st, chunks);
      KeepsMark(q, Published(patterns, st, chunks), text + Concat(chunks));
    } else {
      RunKeeps(patterns, group, q, st.pending, chunks);
      KeepsBefore(patterns, group, q, text, Concat(chunks), Published(patterns, st, chunks));
    }
  }

  lemma {:induction false} DiscardKeeps(patterns: Patterns, group: set<string>, q: string, st: StreamState,
                                        chunks: seq<string>)
    requires q in patterns && Plain(q) && WhitespaceFree(q) && Separates(patterns, group, q)
    requires st == StreamState("", true)
    ensures !Occurs(q, Published(patterns, st, chunks))
    decreases |chunks|, 0
  {
    if chunks == [] {
      forall i: nat | i <= |""| ensures !OccursAt(q, "", i) {}
    } else {
      match FirstWhitespace(chunks[0])
      case None =>
        PublishedInDroppedWord(patterns, chunks);
        DiscardKeeps(patterns, group, q, st, chunks[1..]);
      case Some(i) =>
        var text := chunks[0][i + 1..];
        PublishedBehindDroppedWord(patterns, chunks, i, text);
        TextKeeps(patterns, group, q, text, chunks[1..]);
        TextBeginsKept(patterns, text, chunks[1..]);
        BlankBefore(q, chunks[0][i],
                    Publish(patterns, text).1 + Published(patterns, Publish(patterns, text).0, chunks[1..]));
    }
  }

  /**
   * A plain value is published by no stream when the values that overlap one with whitespace do not overlap it:
   * neither by a stream that drops nothing, nor by any at all unless it shows behind a drop.
   */
  lemma SeparateValuesAreNotStreamed(patterns: Patterns, group: set<string>, chunks: seq<string>, q: string)
    requires q in patterns && Plain(q) && Separates(patterns, group, q)
    requires NothingDropped(RunPieces(patterns, chunks)) || !ShowsBehindDrop(q)
    ensures !Occurs(q, Stream(patterns, chunks))
  {
    if WhitespaceFree(q) {
      RunKeeps(patterns, group, q, "", chunks);
    } else {
      ApartValuesAreNotStreamed(patterns, chunks, q);
    }
  }

  /** With whitespace-free values no registered value occurs anywhere in what a stream publishes. */
  lemma NoValueIsStreamed(patterns: Patterns, chunks: seq<string>, q: string)
    requires AllWhitespaceFree(patterns) && q in patterns && Plain(q)
    ensures !Occurs(q, Stream(patterns, chunks))
  {
    assert WhitespaceFree(q);
    SeparateValuesAreNotStreamed(patterns, {}, chunks, q);
  }
}
