/** Values that can overlap in no text: replacing one of them does not interfere with replacing the other. */
module ApartValues {
  import opened Text
  import opened Redaction
  import opened RedactionSafety

  // No end of `p` is a beginning of `q`, and `q` does not occur in `p`.
  predicate EndsApart(p: string, q: string) {
    !Occurs(q, p) && forall n :: 1 <= n <= |p| && n <= |q| ==> p[|p| - n..] != q[..n]
  }

  // There is no text in which they overlap.
  predicate Apart(p: string, q: string) {
    EndsApart(p, q) && EndsApart(q, p)
  }

  // Every other value is apart from `q`.
  predicate IsApart(patterns: seq<string>, q: string) {
    forall p :: p in patterns && p != q ==> Apart(p, q)
  }

  lemma OccurrenceIsSlice(q: string, s: string, i: nat)
    requires OccursAt(q, s, i)
    ensures i + |q| <= |s| && s[i..i + |q|] == q
  {
    assert s[i..][..|q|] == s[i..i + |q|];
  }

  // Where two occurrences overlap, one contains the other or an end of the first begins the second.
  lemma SharedPart(p: string, q: string, s: string, i: nat, j: nat)
    requires OccursAt(p, s, i) && OccursAt(q, s, j) && i <= j < i + |p|
    ensures if j + |q| <= i + |p| then OccursAt(q, p, j - i) else p[j - i..] == q[..i + |p| - j]
  {
    OccurrenceIsSlice(p, s, i);
    OccurrenceIsSlice(q, s, j);
    assert forall k :: 0 <= k < |p| ==> p[k] == s[i..i + |p|][k] == s[i + k];
    assert forall k :: 0 <= k < |q| ==> q[k] == s[j..j + |q|][k] == s[j + k];
    if j + |q| <= i + |p| {
      assert p[j - i..][..|q|] == q;
    } else {
      assert p[j - i..] == q[..i + |p| - j];
    }
  }

  lemma LaterBeginsBehind(p: string, q: string, s: string, i: nat, j: nat)
    requires EndsApart(p, q) && OccursAt(p, s, i) && OccursAt(q, s, j) && i <= j && q != ""
    ensures i + |p| <= j
  {
    if j < i + |p| {
      SharedPart(p, q, s, i, j);
      OccurrenceIsSlice(q, s, j);
    }
  }

  lemma OccurrencesDoNotOverlap(p: string, q: string, s: string, i: nat, j: nat)
    requires Apart(p, q) && OccursAt(p, s, i) && OccursAt(q, s, j) && p != "" && q != ""
    ensures i + |p| <= j || j + |q| <= i
  {
    if i <= j { LaterBeginsBehind(p, q, s, i, j); } else { LaterBeginsBehind(q, p, s, j, i); }
  }

  // ---------------------------------------------------------------------------------------------
  // Replacing commutes
  // ---------------------------------------------------------------------------------------------

  // No match begins in the first `n` characters.
  lemma {:induction false} ReplaceSkips(s: string, q: string, n: nat)
    requires q != "" && n <= |s| && forall i :: 0 <= i < n ==> !OccursAt(q, s, i)
    ensures Replace(s, q) == s[..n] + Replace(s[n..], q)
    decreases n
  {
    if n == 0 {
      assert s[0..] == s && s[..0] == "";
    } else {
      assert !OccursAt(q, s, 0) && s[0..] == s;
      ReplaceNoMatch(s, q);
      var rest := s[1..];
      forall i | 0 <= i < n - 1 ensures !OccursAt(q, rest, i) {
        assert rest[i..] == s[i + 1..];
        assert !OccursAt(q, s, i + 1);
      }
      ReplaceSkips(rest, q, n - 1);
      SkipOneMore(s, n, Replace(s[n..], q));
    }
  }

  lemma SkipOneMore(s: string, n: nat, replaced: string)
    requires 1 <= n <= |s|
    ensures s[1..][n - 1..] == s[n..] && [s[0]] + (s[1..][..n - 1] + replaced) == s[..n] + replaced
  {
    assert s[..n] == [s[0]] + s[1..][..n - 1];
  }

  lemma OccurrenceMissesBrackets(q: string, s: string, i: nat, j: nat)
    requires BracketFree(q) && OccursAt(q, s, i) && j < |s| && (s[j] == '[' || s[j] == ']')
    ensures j < i || i + |q| <= j
  {
    assert forall k :: 0 <= k < |q| ==> s[i..][k] == q[k] && q[k] in q;
    assert forall k :: i <= k < i + |q| ==> s[k] == s[i..][k - i];
  }

  lemma MatchInTheMark(q: string, behind: string, i: nat)
    requires q != "" && BracketFree(q) && i < |REDACTED| && OccursAt(q, REDACTED + behind, i)
    ensures Occurs(q, "REDACTED")
  {
    var s := REDACTED + behind;
    assert s[0] == '[' && s[9] == ']';
    OccurrenceIsSlice(q, s, i);
    OccurrenceMissesBrackets(q, s, i, 0);
    OccurrenceMissesBrackets(q, s, i, 9);
    assert s[1..9] == "REDACTED";
    assert "REDACTED"[i - 1..][..|q|] == s[1..9][i - 1..][..|q|] == s[i..i + |q|];
    assert OccursAt(q, "REDACTED", i - 1);
  }

  lemma NoMatchInTheMark(q: string, behind: string, i: nat)
    requires Plain(q) && i < |REDACTED|
    ensures !OccursAt(q, REDACTED + behind, i)
  {
    if OccursAt(q, REDACTED + behind, i) { MatchInTheMark(q, behind, i); }
  }

  lemma ReplaceBehindMark(q: string, behind: string)
    requires Plain(q)
    ensures Replace(REDACTED + behind, q) == REDACTED + Replace(behind, q)
  {
    var s := REDACTED + behind;
    forall i: nat | i < |REDACTED| ensures !OccursAt(q, s, i) { NoMatchInTheMark(q, behind, i); }
    ReplaceSkips(s, q, |REDACTED|);
    assert s[..|REDACTED|] == REDACTED && s[|REDACTED|..] == behind;
  }

  // A match of one value at the front of the text, which the other value leaves alone.
  lemma ReplaceLeavesMatch(s: string, p: string, q: string)
    requires p != "" && q != "" && Apart(p, q) && p <= s
    ensures Replace(s, q) == p + Replace(s[|p|..], q)
  {
    assert s[0..] == s && OccursAt(p, s, 0);
    forall i: nat | i < |p| ensures !OccursAt(q, s, i) {
      if OccursAt(q, s, i) { OccurrencesDoNotOverlap(p, q, s, 0, i); }
    }
    ReplaceSkips(s, q, |p|);
    assert s[..|p|] == p;
  }

  lemma ReplaceFirstThenOther(s: string, p: string, q: string)
    requires p != "" && Plain(q) && p <= s
    ensures Replace(Replace(s, p), q) == REDACTED + Replace(Replace(s[|p|..], p), q)
  {
    ReplaceMatch(s, p);
    ReplaceBehindMark(q, Replace(s[|p|..], p));
  }

  lemma ReplaceOtherThenFirst(s: string, p: string, q: string)
    requires p != "" && q != "" && Apart(p, q) && p <= s
    ensures Replace(Replace(s, q), p) == REDACTED + Replace(Replace(s[|p|..], q), p)
  {
    var replaced := p + Replace(s[|p|..], q);
    ReplaceLeavesMatch(s, p, q);
    assert p <= replaced && replaced[|p|..] == Replace(s[|p|..], q);
    ReplaceMatch(replaced, p);
  }

  lemma ReplaceBothAtNoMatch(s: string, p: string, q: string)
    requires p != "" && Plain(q) && s != "" && !(p <= s) && !(q <= s)
    ensures Replace(Replace(s, p), q) == [s[0]] + Replace(Replace(s[1..], p), q)
  {
    var r := Replace(s, p);
    ReplaceNoMatch(s, p);
    ReplaceMasks(s, p);
    if q <= r { BracketFreePrefix(q, s, r); }
    ReplaceNoMatch(r, q);
    assert r[1..] == Replace(s[1..], p);
  }

  /** Two plain values that never overlap can be replaced in either order. */
  lemma {:induction false} ReplaceCommutes(s: string, p: string, q: string)
    requires Plain(p) && Plain(q) && (p == q || Apart(p, q))
    ensures Replace(Replace(s, p), q) == Replace(Replace(s, q), p)
    decreases |s|
  {
    if p != q && s != "" {
      if p <= s {
        ReplaceFirstThenOther(s, p, q);
        ReplaceOtherThenFirst(s, p, q);
        ReplaceCommutes(s[|p|..], p, q);
      } else if q <= s {
        ReplaceFirstThenOther(s, q, p);
        ReplaceOtherThenFirst(s, q, p);
        ReplaceCommutes(s[|q|..], p, q);
      } else {
        ReplaceBothAtNoMatch(s, p, q);
        ReplaceBothAtNoMatch(s, q, p);
        ReplaceCommutes(s[1..], p, q);
      }
    }
  }

  /** Whatever `p` is, replacing it before a plain `q` that never overlaps it only masks more. */
  lemma {:induction false} ReplacingBeforeMasksMore(s: string, p: string, q: string)
    requires p != "" && Plain(q) && (p == q || Apart(p, q))
    ensures IsMasking(Replace(s, q), Replace(Replace(s, p), q))
    decreases |s|
  {
    if p == q {
      forall i: nat ensures !OccursAt(q, Replace(s, q), i) { ReplaceLeavesNone(s, q, i); }
      ReplaceFindsNothing(Replace(s, q), q);
      NothingMasked(Replace(s, q));
    } else if s == "" {
      NothingMasked("");
    } else if p <= s {
      ReplacingBeforeMasksMore(s[|p|..], p, q);
      ReplaceFirstThenOther(s, p, q);
      ReplaceLeavesMatch(s, p, q);
      var replaced := p + Replace(s[|p|..], q);
      assert replaced[|p|..] == Replace(s[|p|..], q);
      MaskStretch(replaced, |p|, Replace(Replace(s[|p|..], p), q));
    } else if q <= s {
      ReplacingBeforeMasksMore(s[|q|..], p, q);
      ReplaceMatch(s, q);
      ReplaceOtherThenFirst(s, q, p);
      NothingMasked(REDACTED);
      MaskingsConcatenate(REDACTED, REDACTED, Replace(s[|q|..], q), Replace(Replace(s[|q|..], p), q));
    } else {
      ReplacingBeforeMasksMore(s[1..], p, q);
      ReplaceBothAtNoMatch(s, p, q);
      ReplaceNoMatch(s, q);
      NothingMasked([s[0]]);
      MaskingsConcatenate([s[0]], [s[0]], Replace(s[1..], q), Replace(Replace(s[1..], p), q));
    }
  }

  function Without(patterns: Patterns, i: nat): Patterns
    requires i < |patterns|
  {
    patterns[..i] + patterns[i + 1..]
  }

  /** A value that overlaps none of the others can be replaced first. */
  lemma {:induction false} ReplaceAllInAnyOrder(s: string, patterns: Patterns, i: nat)
    requires i < |patterns| && IsApart(patterns, patterns[i]) && forall p :: p in patterns ==> Plain(p)
    ensures ReplaceAll(s, patterns) == ReplaceAll(Replace(s, patterns[i]), Without(patterns, i))
    decreases i
  {
    if i == 0 {
      assert Without(patterns, 0) == patterns[1..];
    } else {
      var p, q, rest := patterns[0], patterns[i], patterns[1..];
      assert p in patterns && q in patterns && rest[i - 1] == q;
      ReplaceAllInAnyOrder(Replace(s, p), rest, i - 1);
      ReplaceCommutes(s, p, q);
      var others := Without(patterns, i);
      assert others[0] == p && others[1..] == Without(rest, i - 1);
    }
  }

  // ---------------------------------------------------------------------------------------------
  // Masking again and again
  // ---------------------------------------------------------------------------------------------

  // `masked` comes of masking `s` in `n` rounds.
  ghost predicate IsMaskedIn(n: nat, s: string, masked: string) {
    if n == 0 then s == masked else exists t :: IsMasking(s, t) && IsMaskedIn(n - 1, t, masked)
  }

  lemma {:induction false} RoundsConcatenate(n: nat, s: string, m: string, s': string, m': string)
    requires IsMaskedIn(n, s, m) && IsMaskedIn(n, s', m')
    ensures IsMaskedIn(n, s + s', m + m')
  {
    if n > 0 {
      var t :| IsMasking(s, t) && IsMaskedIn(n - 1, t, m);
      var t' :| IsMasking(s', t') && IsMaskedIn(n - 1, t', m');
      MaskingsConcatenate(s, t, s', t');
      RoundsConcatenate(n - 1, t, m, t', m');
    }
  }

  lemma {:induction false} RoundsMaskNothing(n: nat, s: string)
    ensures IsMaskedIn(n, s, s)
  {
    if n > 0 {
      NothingMasked(s);
      RoundsMaskNothing(n - 1, s);
    }
  }

  lemma {:induction false} RoundsCreateNoValue(n: nat, q: string, s: string, masked: string)
    requires Plain(q) && IsMaskedIn(n, s, masked) && Occurs(q, masked)
    ensures Occurs(q, s)
  {
    if n > 0 {
      var t :| IsMasking(s, t) && IsMaskedIn(n - 1, t, masked);
      RoundsCreateNoValue(n - 1, q, t, masked);
      var i: nat :| i <= |t| && OccursAt(q, t, i);
      MaskingCreatesNoValue(q, s, t, i);
    }
  }

  lemma {:induction false} RestIsMasked(s: string, patterns: Patterns)
    ensures IsMaskedIn(|patterns| + 1, s, RedactText(patterns, s))
    decreases |patterns|
  {
    if patterns == [] {
      AssignmentsMask(s);
      assert IsMaskedIn(0, RedactAssignments(s), RedactAssignments(s));
    } else {
      var r := Replace(s, patterns[0]);
      ReplaceMasks(s, patterns[0]);
      RestIsMasked(r, patterns[1..]);
      assert RedactText(patterns, s) == RedactText(patterns[1..], r);
    }
  }

  /**
   * With a plain value that overlaps none of the others, redaction is replacing it and then masking, once for every
   * value.
   */
  lemma {:induction false} RedactionMasksReplaced(s: string, patterns: Patterns, q: string)
    requires q in patterns && Plain(q) && IsApart(patterns, q)
    ensures IsMaskedIn(|patterns|, Replace(s, q), RedactText(patterns, s))
    decreases |patterns|
  {
    var p, rest, r := patterns[0], patterns[1..], Replace(s, patterns[0]);
    assert RedactText(patterns, s) == RedactText(rest, r);
    if q in rest {
      RedactionMasksReplaced(r, rest, q);
      ReplacingBeforeMasksMore(s, p, q);
    } else {
      RestIsMasked(r, rest);
    }
  }

  // ---------------------------------------------------------------------------------------------
  // What a masking leaves as it was
  // ---------------------------------------------------------------------------------------------

  // A text without brackets that masks some text is that text.
  lemma {:induction false} BracketFreeIsUnmasked(s: string, masked: string)
    requires IsMasking(s, masked) && BracketFree(masked)
    ensures s == masked
    decreases |masked|
  {
    if masked != "" {
      assert !(REDACTED <= masked) by { assert REDACTED[0] == '[' && masked[0] in masked; }
      BracketFreeIsUnmasked(s[1..], masked[1..]);
    } else {
      assert !(REDACTED <= masked);
    }
  }

  lemma BracketIsBefore(s: string, k: nat, j: nat)
    requires k <= |s| && j < |s| && s[j] == ']' && BracketFree(s[k..])
    ensures j < k
  {
    assert forall i :: k <= i < |s| ==> s[i] == s[k..][i - k] && s[k..][i - k] in s[k..];
  }

  lemma {:induction false} BracketFreeSuffix(s: string, masked: string, k: nat)
    requires IsMasking(s, masked) && k <= |masked| && BracketFree(masked[k..])
    ensures |masked| - k <= |s| && s[|s| - (|masked| - k)..] == masked[k..]
    decreases |masked|
  {
    if k == 0 {
      assert masked[0..] == masked;
      BracketFreeIsUnmasked(s, masked);
      assert s[0..] == s;
    } else if s != "" && s[0] == masked[0] && IsMasking(s[1..], masked[1..]) {
      assert masked[1..][k - 1..] == masked[k..];
      BracketFreeSuffix(s[1..], masked[1..], k - 1);
    } else {
      var n: nat :| n <= |s| && IsMasking(s[n..], masked[|REDACTED|..]);
      assert masked[9] == REDACTED[9];
      BracketIsBefore(masked, k, 9);
      assert masked[|REDACTED|..][k - 10..] == masked[k..];
      BracketFreeSuffix(s[n..], masked[|REDACTED|..], k - 10);
    }
  }

  lemma {:induction false} RoundsKeepPrefix(n: nat, s: string, masked: string, u: string)
    requires IsMaskedIn(n, s, masked) && BracketFree(u) && u <= masked
    ensures u <= s
  {
    if n > 0 {
      var t :| IsMasking(s, t) && IsMaskedIn(n - 1, t, masked);
      RoundsKeepPrefix(n - 1, t, masked, u);
      BracketFreePrefix(u, s, t);
    }
  }

  lemma {:induction false} RoundsKeepSuffix(n: nat, s: string, masked: string, k: nat)
    requires IsMaskedIn(n, s, masked) && k <= |masked| && BracketFree(masked[k..])
    ensures |masked| - k <= |s| && s[|s| - (|masked| - k)..] == masked[k..]
  {
    if n > 0 {
      var t :| IsMasking(s, t) && IsMaskedIn(n - 1, t, masked);
      RoundsKeepSuffix(n - 1, t, masked, k);
      BracketFreeSuffix(s, t, |t| - (|masked| - k));
    }
  }
}
