/** No registered value survives the redaction of a whole text, whatever whitespace the values contain. */
module RedactionSafety {
  import opened Text
  import opened Redaction

  // `masked` is `s` with some of its stretches overwritten by the redaction mark.
  ghost predicate IsMasking(s: string, masked: string)
    decreases |masked|
  {
    || (s == "" && masked == "")
    || (s != "" && masked != "" && s[0] == masked[0] && IsMasking(s[1..], masked[1..]))
    || (REDACTED <= masked && exists k: nat :: k <= |s| && IsMasking(s[k..], masked[|REDACTED|..]))
  }

  predicate BracketFree(s: string) {
    '[' !in s && ']' !in s
  }

  // A value the redaction mark cannot itself reproduce.
  predicate Plain(value: string) {
    value != "" && BracketFree(value) && !Occurs(value, "REDACTED")
  }

  lemma MaskStretch(s: string, k: nat, masked: string)
    requires k <= |s| && IsMasking(s[k..], masked)
    ensures IsMasking(s, REDACTED + masked)
  {
    assert (REDACTED + masked)[|REDACTED|..] == masked;
  }

  lemma MaskStretchThen(s: string, k: nat, m: string, s': string, m': string)
    requires k <= |s| && IsMasking(s[k..] + s', m + m')
    ensures IsMasking(s + s', REDACTED + m + m')
  {
    assert (s + s')[k..] == s[k..] + s';
    MaskStretch(s + s', k, m + m');
    assert REDACTED + (m + m') == REDACTED + m + m';
  }

  lemma {:induction false} NothingMasked(s: string)
    ensures IsMasking(s, s)
    decreases |s|
  {
    if s != "" { NothingMasked(s[1..]); }
  }

  lemma {:induction false} MaskingsConcatenate(s: string, m: string, s': string, m': string)
    requires IsMasking(s, m) && IsMasking(s', m')
    ensures IsMasking(s + s', m + m')
    decreases |m|
  {
    if s == "" && m == "" {
      assert s + s' == s' && m + m' == m';
    } else if s != "" && m != "" && s[0] == m[0] && IsMasking(s[1..], m[1..]) {
      MaskingsConcatenate(s[1..], m[1..], s', m');
      assert (s + s')[1..] == s[1..] + s' && (m + m')[1..] == m[1..] + m';
    } else {
      var k: nat :| k <= |s| && IsMasking(s[k..], m[|REDACTED|..]);
      MaskingsConcatenate(s[k..], m[|REDACTED|..], s', m');
      MaskStretchThen(s, k, m[|REDACTED|..], s', m');
      assert m == REDACTED + m[|REDACTED|..];
    }
  }

  lemma {:induction false} BracketFreePrefix(q: string, s: string, masked: string)
    requires BracketFree(q) && IsMasking(s, masked) && q <= masked
    ensures q <= s
    decreases |masked|
  {
    if q != "" {
      assert q[0] == masked[0];
      assert !(REDACTED <= masked) by { assert REDACTED[0] == '['; }
      BracketFreePrefix(q[1..], s[1..], masked[1..]);
    }
  }

  // A bracket-free value lying over a bracketed word lies within that word.
  lemma WithinTheBrackets(q: string, word: string, rest: string, i: nat)
    requires q != "" && BracketFree(q) && i < |word| + 2
    requires OccursAt(q, "[" + word + "]" + rest, i)
    ensures 1 <= i && OccursAt(q, word, i - 1)
  {
    var t := "[" + word + "]" + rest;
    assert forall j {:trigger q[j]} {:trigger t[i..][j]} :: 0 <= j < |q| ==> q[j] == t[i..][j] == t[i + j];
    assert q[0] == t[i];
    var close := |word| + 1 - i;
    assert t[i..][close] == ']';
    assert t[i..][..|q|] == q;
    assert |q| <= close;
    assert forall j :: 0 <= j < |q| ==> q[j] == word[i - 1 + j] == word[i - 1..][j];
    assert q <= word[i - 1..];
  }

  lemma NotInsideTheMark(q: string, rest: string, i: nat)
    requires Plain(q) && i < |REDACTED|
    ensures !OccursAt(q, REDACTED + rest, i)
  {
    assert REDACTED == "[" + "REDACTED" + "]";
    if OccursAt(q, REDACTED + rest, i) {
      WithinTheBrackets(q, "REDACTED", rest, i);
      assert false;
    }
  }

  lemma OccursInSuffix(q: string, s: string, k: nat)
    requires k <= |s| && Occurs(q, s[k..])
    ensures Occurs(q, s)
  {
    var i: nat :| i <= |s[k..]| && OccursAt(q, s[k..], i);
    assert s[k..][i..] == s[k + i..];
    assert OccursAt(q, s, k + i);
  }

  // The mark hides values and never creates one.
  lemma {:induction false} MaskingCreatesNoValue(q: string, s: string, masked: string, i: nat)
    requires Plain(q) && IsMasking(s, masked) && OccursAt(q, masked, i)
    ensures Occurs(q, s)
    decreases |masked|
  {
    if i == 0 {
      assert masked[0..] == masked;
      BracketFreePrefix(q, s, masked);
      assert s[0..] == s;
      assert OccursAt(q, s, 0);
    } else if s != "" && s[0] == masked[0] && IsMasking(s[1..], masked[1..]) {
      assert masked[1..][i - 1..] == masked[i..];
      MaskingCreatesNoValue(q, s[1..], masked[1..], i - 1);
      OccursInSuffix(q, s, 1);
    } else {
      var tail := masked[|REDACTED|..];
      var k: nat :| k <= |s| && IsMasking(s[k..], tail);
      assert masked == REDACTED + tail;
      if i < |REDACTED| {
        NotInsideTheMark(q, tail, i);
        assert false;
      }
      assert tail[i - |REDACTED|..] == masked[i..];
      MaskingCreatesNoValue(q, s[k..], tail, i - |REDACTED|);
      OccursInSuffix(q, s, k);
    }
  }

  lemma {:induction false} ReplaceMasks(s: string, pattern: string)
    requires pattern != ""
    ensures IsMasking(s, Replace(s, pattern))
    decreases |s|
  {
    if pattern <= s {
      ReplaceMasks(s[|pattern|..], pattern);
      MaskStretch(s, |pattern|, Replace(s[|pattern|..], pattern));
    } else if s != "" {
      ReplaceMasks(s[1..], pattern);
      ReplaceNoMatch(s, pattern);
    }
  }

  lemma {:induction false} ReplaceLeavesNone(s: string, pattern: string, i: nat)
    requires Plain(pattern)
    ensures !OccursAt(pattern, Replace(s, pattern), i)
    decreases |s|
  {
    var r := Replace(s, pattern);
    if pattern <= s {
      var tail := Replace(s[|pattern|..], pattern);
      if i < |REDACTED| {
        NotInsideTheMark(pattern, tail, i);
      } else {
        ReplaceLeavesNone(s[|pattern|..], pattern, i - |REDACTED|);
        if i <= |r| { assert r[i..] == tail[i - |REDACTED|..]; }
      }
    } else if s != "" {
      ReplaceNoMatch(s, pattern);
      if i == 0 {
        ReplaceMasks(s, pattern);
        if pattern <= r { BracketFreePrefix(pattern, s, r); }
        assert r[0..] == r;
      } else {
        ReplaceLeavesNone(s[1..], pattern, i - 1);
        if i <= |r| { assert r[i..] == Replace(s[1..], pattern)[i - 1..]; }
      }
    }
  }

  lemma {:induction false} ReplaceAllReflects(q: string, s: string, patterns: Patterns)
    requires Plain(q) && Occurs(q, ReplaceAll(s, patterns))
    ensures Occurs(q, s)
    decreases |patterns|
  {
    if patterns != [] {
      var r := Replace(s, patterns[0]);
      ReplaceAllReflects(q, r, patterns[1..]);
      var i: nat :| i <= |r| && OccursAt(q, r, i);
      ReplaceMasks(s, patterns[0]);
      MaskingCreatesNoValue(q, s, r, i);
    }
  }

  lemma {:induction false} ReplaceAllLeavesNone(q: string, s: string, patterns: Patterns)
    requires q in patterns && Plain(q)
    ensures !Occurs(q, ReplaceAll(s, patterns))
    decreases |patterns|
  {
    var r := Replace(s, patterns[0]);
    if q == patterns[0] {
      forall i: nat ensures !OccursAt(q, r, i) { ReplaceLeavesNone(s, q, i); }
      if Occurs(q, ReplaceAll(r, patterns[1..])) {
        ReplaceAllReflects(q, r, patterns[1..]);
        assert false;
      }
    } else {
      ReplaceAllLeavesNone(q, r, patterns[1..]);
    }
  }

  lemma RedactTokenMasks(token: string)
    ensures IsMasking(token, RedactToken(token))
  {
    var r := RedactToken(token);
    if r == token {
      NothingMasked(token);
    } else {
      var k := IndexOf(token, '=').value;
      var kept := token[..k + 1];
      assert r == kept + REDACTED && token == kept + token[k + 1..];
      NothingMasked(kept);
      MaskStretch(token[k + 1..], |token[k + 1..]|, "");
      assert REDACTED + "" == REDACTED;
      MaskingsConcatenate(kept, kept, token[k + 1..], REDACTED);
    }
  }

  lemma RedactPartMasks(part: string)
    ensures IsMasking(part, MapPart(RedactToken, part))
  {
    var word := TrimEnd(part);
    var white := part[|word|..];
    RedactTokenMasks(word);
    NothingMasked(white);
    MaskingsConcatenate(word, RedactToken(word), white, white);
    assert part == word + white;
  }

  lemma {:induction false} AssignmentsMask(s: string)
    ensures IsMasking(s, RedactAssignments(s))
    decreases |s|
  {
    if s != "" {
      var part, rest := s[..PartLength(s)], s[PartLength(s)..];
      RedactPartMasks(part);
      AssignmentsMask(rest);
      MaskingsConcatenate(part, MapPart(RedactToken, part), rest, RedactAssignments(rest));
      assert s == part + rest;
    }
  }

  /** After redaction no registered value occurs in the text. */
  lemma NoValueSurvives(patterns: Patterns, s: string, q: string)
    requires q in patterns && Plain(q)
    ensures !Occurs(q, RedactText(patterns, s))
  {
    var r := ReplaceAll(s, patterns);
    ReplaceAllLeavesNone(q, s, patterns);
    AssignmentsMask(r);
    var o := RedactText(patterns, s);
    if Occurs(q, o) {
      var i: nat :| i <= |o| && OccursAt(q, o, i);
      MaskingCreatesNoValue(q, r, o, i);
      assert false;
    }
  }

  // ---------------------------------------------------------------------------------------------
  // Exactly which sets of bracket-free values are hidden
  // ---------------------------------------------------------------------------------------------

  // The order `register` keeps: no value is longer than one before it, and none is listed twice.
  predicate LongestFirst(patterns: seq<string>) {
    forall i, j :: 0 <= i < j < |patterns| ==>
      ByteLength(patterns[i]) >= ByteLength(patterns[j]) && patterns[i] != patterns[j]
  }

  lemma {:induction false} ReplaceFindsNothing(s: string, pattern: string)
    requires pattern != "" && !Occurs(pattern, s)
    ensures Replace(s, pattern) == s
    decreases |s|
  {
    assert s[0..] == s;
    assert !OccursAt(pattern, s, 0);
    if s != "" {
      if Occurs(pattern, s[1..]) { OccursInSuffix(pattern, s, 1); assert false; }
      ReplaceFindsNothing(s[1..], pattern);
      ReplaceNoMatch(s, pattern);
    }
  }

  lemma {:induction false} ReplaceAllFindsNothing(s: string, patterns: Patterns)
    requires forall p :: p in patterns ==> !Occurs(p, s)
    ensures ReplaceAll(s, patterns) == s
    decreases |patterns|
  {
    if patterns != [] {
      ReplaceFindsNothing(s, patterns[0]);
      ReplaceAllFindsNothing(s, patterns[1..]);
    }
  }

  lemma OccurrenceIsShorter(p: string, q: string)
    requires Occurs(p, q) && p != q
    ensures ByteLength(p) < ByteLength(q)
  {
    var i: nat :| i <= |q| && OccursAt(p, q, i);
    var tail := q[i..];
    assert tail[..|p|] == p;
    ByteLengthSplit(q, i);
    ByteLengthSplit(tail, |p|);
    if i == 0 { assert tail == q; }
  }

  lemma NotInTheMark(p: string)
    requires Plain(p)
    ensures !Occurs(p, REDACTED)
  {
    assert REDACTED + "" == REDACTED;
    forall i: nat | i <= |REDACTED| ensures !OccursAt(p, REDACTED, i) {
      if i < |REDACTED| { NotInsideTheMark(p, "", i); }
    }
  }

  lemma {:induction false} LastMarkPartSurvives(patterns: Patterns, k: nat)
    requires LongestFirst(patterns) && k < |patterns|
    requires forall p :: p in patterns ==> BracketFree(p)
    requires forall j :: k < j < |patterns| ==> Plain(patterns[j])
    ensures ReplaceAll(patterns[k], patterns) == REDACTED
    decreases k
  {
    var q, first := patterns[k], patterns[0];
    if k == 0 {
      assert q[|q|..] == "";
      ReplaceMatch(q, q);
      assert REDACTED + Replace("", q) == REDACTED;
      forall p | p in patterns[1..] ensures !Occurs(p, REDACTED) { NotInTheMark(p); }
      ReplaceAllFindsNothing(REDACTED, patterns[1..]);
    } else {
      if Occurs(first, q) { OccurrenceIsShorter(first, q); assert false; }
      ReplaceFindsNothing(q, first);
      LastMarkPartSurvives(patterns[1..], k - 1);
    }
  }

  lemma WordIsNoAssignment(word: string)
    requires WhitespaceFree(word) && '=' !in word
    ensures RedactAssignments(word) == word
  {
    MapLastWord(RedactToken, word);
  }

  lemma MarkIsNoAssignment()
    ensures RedactAssignments(REDACTED) == REDACTED
  {
    WordIsNoAssignment(REDACTED);
  }

  /** Values kept longest first stay hidden in every text exactly when the mark spells none of them. */
  lemma HiddenExactlyWhenNotInTheMark(patterns: Patterns)
    requires LongestFirst(patterns) && forall p :: p in patterns ==> BracketFree(p)
    ensures (forall s, q :: q in patterns ==> !Occurs(q, RedactText(patterns, s)))
       <==> (forall q :: q in patterns ==> !Occurs(q, "REDACTED"))
  {
    if forall q :: q in patterns ==> !Occurs(q, "REDACTED") {
      forall s, q | q in patterns ensures !Occurs(q, RedactText(patterns, s)) {
        NoValueSurvives(patterns, s, q);
      }
    } else {
      var k := LastSpelled(patterns, |patterns|);
      var q := patterns[k];
      LastMarkPartSurvives(patterns, k);
      MarkIsNoAssignment();
      assert RedactText(patterns, q) == REDACTED;
      var i: nat :| i <= |"REDACTED"| && OccursAt(q, "REDACTED", i);
      SpelledInTheMark(q, i);
      assert q in patterns && Occurs(q, RedactText(patterns, q));
    }
  }

  lemma SpelledInTheMark(q: string, i: nat)
    requires OccursAt(q, "REDACTED", i)
    ensures Occurs(q, REDACTED)
  {
    assert REDACTED == "[" + "REDACTED" + "]";
    assert REDACTED[i + 1..] == "REDACTED"[i..] + "]";
    assert OccursAt(q, REDACTED, i + 1);
  }

  lemma {:induction false} LastSpelled(patterns: Patterns, n: nat) returns (k: nat)
    requires n <= |patterns| && exists i :: 0 <= i < n && Occurs(patterns[i], "REDACTED")
    ensures k < n && Occurs(patterns[k], "REDACTED")
    ensures forall j :: k < j < n ==> !Occurs(patterns[j], "REDACTED")
  {
    if Occurs(patterns[n - 1], "REDACTED") {
      k := n - 1;
    } else {
      k := LastSpelled(patterns, n - 1);
    }
  }
}
