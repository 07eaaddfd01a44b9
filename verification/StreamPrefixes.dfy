/** How published text can begin: a beginning without a mark is one that the rewriting of assignments would keep. */
module StreamPrefixes {
  import opened Wrappers
  import opened Text
  import opened Redaction
  import opened RedactionSafety
  import opened StreamingRedaction
  import opened StreamEquivalence
  import opened StreamCounterexamples
  import opened ApartValues

  // ---------------------------------------------------------------------------------------------
  // One push
  // ---------------------------------------------------------------------------------------------

  // A boundary that has moved stands at the end of a match.
  lemma MovedCutEndsAMatch(patterns: Patterns, text: string, k: nat) returns (p: string, m: nat)
    requires k <= |text| && k < NextCleanCut(patterns, text, k)
    ensures p in patterns && m in MatchesFrom(text, p, 0) && m + |p| == NextCleanCut(patterns, text, k)
  {
    var cut := NextCleanCut(patterns, text, k);
    NextCleanCutIsLeast(patterns, text, k, cut - 1);
    assert !CleanCut(patterns, text, cut - 1) && CleanCut(patterns, text, cut);
    p :| p in patterns && !CleanFrom(text, p, 0, cut - 1);
    m :| m in MatchesFrom(text, p, 0) && Straddles(p, m, cut - 1);
    assert CleanFrom(text, p, 0, cut);
    assert !Straddles(p, m, cut);
  }

  // The text a push cuts in two: `front` is published and the rest stays pending.
  predicate PublishesFront(patterns: Patterns, text: string, k: nat, front: string)
    requires k <= |text|
  {
    var (st, output) := Publish(patterns, text);
    && !st.discarding && text == front + st.pending
    && |front| == NextCleanCut(patterns, text, k) && output == RedactText(patterns, front)
  }

  lemma PushCutsWithin(patterns: Patterns, text: string, limit: nat, k: nat) returns (front: string)
    requires limit > 0 && limit + Retained(patterns) == ByteLength(text) && LastCut(text, limit, |text|) == Some(k)
    ensures k <= |text| && PublishesFront(patterns, text, k, front)
  {
    PublishCuts(patterns, text, limit, k);
    var cut := NextCleanCut(patterns, text, k);
    front := text[..cut];
    assert text == front + text[cut..];
  }

  lemma PushCutsAt(patterns: Patterns, text: string) returns (k: nat, front: string)
    requires CutsText(patterns, text)
    ensures 1 <= k <= |text| && IsWhitespace(text[k - 1])
    ensures ByteOffset(text, k) + Retained(patterns) <= ByteLength(text)
    ensures PublishesFront(patterns, text, k, front)
  {
    var limit: nat;
    limit, k := CutIsFound(patterns, text);
    CutIsBehindBlank(text, limit, k);
    front := PushCutsWithin(patterns, text, limit, k);
  }

  lemma PushHoldsBack(patterns: Patterns, text: string)
    requires !CutsText(patterns, text) && !Publish(patterns, text).0.discarding
    ensures Publish(patterns, text) == (StreamState(text, false), "")
  {
  }

  lemma PublishedInDroppedWord(patterns: Patterns, chunks: seq<string>)
    requires chunks != [] && FirstWhitespace(chunks[0]).None?
    ensures Published(patterns, StreamState("", true), chunks)
         == Published(patterns, StreamState("", true), chunks[1..])
  {
    var later := Published(patterns, StreamState("", true), chunks[1..]);
    assert "" + later == later;
  }

  lemma PublishedBehindDroppedWord(patterns: Patterns, chunks: seq<string>, i: nat, text: string)
    requires chunks != [] && FirstWhitespace(chunks[0]) == Some(i) && text == chunks[0][i + 1..]
    ensures var (st, output) := Publish(patterns, text);
            Published(patterns, StreamState("", true), chunks)
               == [chunks[0][i]] + (output + Published(patterns, st, chunks[1..]))
  {
    var (st, output) := Publish(patterns, text);
    assert "" + text == text;
    ConcatIsAssociative([chunks[0][i]], output, Published(patterns, st, chunks[1..]));
  }

  // ---------------------------------------------------------------------------------------------
  // What the rewriting of assignments keeps
  // ---------------------------------------------------------------------------------------------

  // The beginning of a rewritten word, as far as no mark stands in it, survives rewriting on its own.
  lemma TokenPrefix(token: string, u: string)
    requires BracketFree(u) && u <= RedactToken(token)
    ensures u <= RedactToken(u)
  {
    if IndexOf(u, '=').Some? {
      var k := IndexOf(u, '=').value;
      if RedactToken(token) == token {
        SameFirstIndex(u, token, k);
      } else {
        AssignedNameIsKept(token, u, k);
      }
    }
  }

  lemma FirstIndexInLonger(u: string, s: string, c: char, k: nat)
    requires u <= s && IndexOf(u, c) == Some(k)
    ensures IndexOf(s, c) == Some(k)
  {
    assert s == u[..k] + [c] + s[k + 1..];
    IndexBehind(u[..k], c, s[k + 1..]);
  }

  lemma SameFirstIndex(u: string, token: string, k: nat)
    requires u <= token && BracketFree(u) && IndexOf(u, '=') == Some(k) && RedactToken(token) == token
    ensures u <= RedactToken(u)
  {
    FirstIndexInLonger(u, token, '=', k);
    assert token[..k] == u[..k];
    if SensitiveName(u[..k]) {
      var kept := token[..k] + "=";
      assert token == kept + REDACTED + "";
      NoMarkWithin(u, kept, "");
    }
  }

  lemma BracketWithin(u: string, before: string, behind: string)
    requires u <= before + REDACTED + behind && |before| < |u|
    ensures !BracketFree(u)
  {
    assert u[|before|] == (before + REDACTED + behind)[|before|] == '[';
  }

  // What has no bracket ends before the mark.
  lemma NoMarkWithin(u: string, before: string, behind: string)
    requires BracketFree(u) && u <= before + REDACTED + behind
    ensures u <= before
  {
    if |before| < |u| { BracketWithin(u, before, behind); }
  }

  lemma AssignedNameIsKept(token: string, u: string, k: nat)
    requires BracketFree(u) && u <= RedactToken(token) != token && IndexOf(u, '=') == Some(k)
    ensures u <= RedactToken(u)
  {
    var n := IndexOf(token, '=').value;
    var kept := token[..n] + "=";
    assert RedactToken(token) == kept + REDACTED + "";
    NoMarkWithin(u, kept, "");
    FirstIndexInLonger(u, kept, '=', k);
    assert kept == token[..n] + ['='] + "";
    IndexBehind(token[..n], '=', "");
    assert u == u[..k] + "=";
  }

  lemma PrefixInParts(v: string, a: string, b: string)
    requires v <= a + b && BracketFree(v)
    ensures if |v| <= |a| then v <= a else v == a + v[|a|..] && v[|a|..] <= b && BracketFree(a) && BracketFree(v[|a|..])
  {
    if |a| < |v| {
      assert v[..|a|] == a && v == v[..|a|] + v[|a|..];
      assert forall c :: c in a ==> c in v;
    }
  }

  lemma RewrittenTokenHasBracket(token: string)
    requires RedactToken(token) != token
    ensures !BracketFree(RedactToken(token))
  {
    assert RedactToken(token)[IndexOf(token, '=').value + 1] == '[';
  }

  lemma WordIsKept(token: string, u: string)
    requires WhitespaceFree(token) && BracketFree(u) && u <= RedactToken(token)
    ensures u <= RedactAssignments(u)
  {
    RedactedTokenIsOneWord(token);
    assert WhitespaceFree(u) by { assert forall i :: 0 <= i < |u| ==> u[i] == RedactToken(token)[i]; }
    MapLastWord(RedactToken, u);
    TokenPrefix(token, u);
  }

  lemma WordAndRestAreKept(token: string, w: char, u: string, u': string)
    requires WhitespaceFree(token) && IsWhitespace(w) && RedactToken(token) == token
    requires u == token + [w] + u' && u' <= RedactAssignments(u')
    ensures u <= RedactAssignments(u)
  {
    MapFirstWord(RedactToken, token, w, u');
  }

  // How the rewriting of a text begins.
  lemma FirstRewritten(s: string) returns (token: string, behind: string)
    requires s != ""
    ensures WhitespaceFree(token) && RedactAssignments(s) == RedactToken(token) + behind
    ensures behind != "" ==>
              && |token| < |s| && IsWhitespace(s[|token|])
              && behind == [s[|token|]] + RedactAssignments(s[|token| + 1..])
  {
    var n := PartLength(s);
    if IsWhitespace(s[n - 1]) {
      token := s[..n - 1];
      assert s == token + [s[n - 1]] + s[n..];
      MapFirstWord(RedactToken, token, s[n - 1], s[n..]);
      behind := [s[n - 1]] + RedactAssignments(s[n..]);
      ConcatIsAssociative(RedactToken(token), [s[n - 1]], RedactAssignments(s[n..]));
    } else {
      token, behind := s, "";
      MapLastWord(RedactToken, s);
      assert RedactToken(s) + "" == RedactToken(s);
    }
  }

  /** A beginning of a rewritten text, as far as no mark stands in it, survives rewriting on its own. */
  lemma {:induction false} BeginningIsKept(s: string, u: string)
    requires BracketFree(u) && u <= RedactAssignments(s)
    ensures u <= RedactAssignments(u)
    decreases |s|
  {
    if s != "" {
      var token, behind := FirstRewritten(s);
      PrefixInParts(u, RedactToken(token), behind);
      if |u| <= |RedactToken(token)| {
        WordIsKept(token, u);
      } else {
        if RedactToken(token) != token { RewrittenTokenHasBracket(token); }
        var w, rest, u' := s[|token|], s[|token| + 1..], u[|token| + 1..];
        RestOfPrefix(u, token, w, RedactAssignments(rest), u');
        BeginningIsKept(rest, u');
        WordAndRestAreKept(token, w, u, u');
      }
    }
  }

  lemma RestOfPrefix(u: string, token: string, w: char, rest: string, u': string)
    requires BracketFree(u) && |token| < |u| && u == token + u[|token|..] && u[|token|..] <= [w] + rest
    requires u' == u[|token| + 1..]
    ensures BracketFree(u') && u' <= rest && u == token + [w] + u'
  {
    var behind := u[|token|..];
    assert behind[1..] == u' && behind[0] == ([w] + rest)[0] == w && behind == [w] + u';
    assert ([w] + rest)[1..] == rest;
    assert forall c :: c in u' ==> c in u;
  }

  // ---------------------------------------------------------------------------------------------
  // What redaction leaves as it was
  // ---------------------------------------------------------------------------------------------

  lemma {:induction false} RoundsMaskNone(n: nat, s: string, masked: string)
    requires IsMaskedIn(n, s, masked) && BracketFree(masked)
    ensures s == masked
  {
    if n > 0 {
      var t :| IsMasking(s, t) && IsMaskedIn(n - 1, t, masked);
      RoundsMaskNone(n - 1, t, masked);
      BracketFreeIsUnmasked(s, t);
    }
  }

  lemma {:induction false} ReplaceMarksOccurrence(s: string, p: string, i: nat)
    requires p != "" && OccursAt(p, s, i)
    ensures '[' in Replace(s, p)
    decreases |s|
  {
    if p <= s {
      assert Replace(s, p)[0] == '[';
    } else {
      assert s[0..] == s && s[1..][i - 1..] == s[i..];
      ReplaceMarksOccurrence(s[1..], p, i - 1);
      ReplaceNoMatch(s, p);
    }
  }

  lemma {:induction false} UntouchedHasNoValue(patterns: Patterns, s: string, p: string)
    requires p in patterns && RedactText(patterns, s) == s && BracketFree(s)
    ensures !Occurs(p, s)
    decreases |patterns|
  {
    var r, rest := Replace(s, patterns[0]), patterns[1..];
    RestIsMasked(r, rest);
    RoundsMaskNone(|rest| + 1, r, s);
    if p == patterns[0] {
      forall i: nat | i <= |s| ensures !OccursAt(p, s, i) {
        if OccursAt(p, s, i) { ReplaceMarksOccurrence(s, p, i); }
      }
    } else {
      UntouchedHasNoValue(rest, s, p);
    }
  }

  lemma MovedCutIsBehindValue(patterns: Patterns, text: string, front: string, rest: string, k: nat) returns (p: string)
    requires text == front + rest && k < |front| == NextCleanCut(patterns, text, k)
    ensures p in patterns && Occurs(p, front)
  {
    var m: nat;
    p, m := MovedCutEndsAMatch(patterns, text, k);
    MatchesAreOccurrences(text, p, 0, m);
    assert text[m..][..|p|] == front[m..];
    assert OccursAt(p, front, m);
  }

  // A text that is published untouched was cut behind a blank.
  lemma UntouchedEndsInBlank(patterns: Patterns, text: string, front: string, rest: string, k: nat)
    requires 1 <= k <= |text| && IsWhitespace(text[k - 1])
    requires text == front + rest && |front| == NextCleanCut(patterns, text, k)
    requires RedactText(patterns, front) == front && BracketFree(front)
    ensures AtWordStart(front)
  {
    if k < |front| {
      var p := MovedCutIsBehindValue(patterns, text, front, rest, k);
      UntouchedHasNoValue(patterns, front, p);
    } else {
      assert front[k - 1] == text[k - 1];
    }
  }

  // ---------------------------------------------------------------------------------------------
  // Runs
  // ---------------------------------------------------------------------------------------------

  ghost predicate BeginsKept(published: string) {
    forall u :: BracketFree(u) && u <= published ==> u <= RedactAssignments(u)
  }

  lemma UntouchedFrontIsKept(patterns: Patterns, front: string, u: string, u': string)
    requires RedactText(patterns, front) == front && BracketFree(front) && AtWordStart(front)
    requires u == front + u' && u' <= RedactAssignments(u')
    ensures u <= RedactAssignments(u)
  {
    AssignmentsMask(ReplaceAll(front, patterns));
    BracketFreeIsUnmasked(ReplaceAll(front, patterns), front);
    MapPartsDistributes(RedactToken, front, u');
  }

  lemma KeptAtCut(patterns: Patterns, text: string, front: string, rest: string, k: nat, published: string)
    requires 1 <= k <= |text| && IsWhitespace(text[k - 1])
    requires text == front + rest && |front| == NextCleanCut(patterns, text, k) && BeginsKept(published)
    ensures BeginsKept(RedactText(patterns, front) + published)
  {
    var redacted := RedactText(patterns, front);
    RestIsMasked(front, patterns);
    forall u | BracketFree(u) && u <= redacted + published ensures u <= RedactAssignments(u) {
      PrefixInParts(u, redacted, published);
      if |u| <= |redacted| {
        BeginningIsKept(ReplaceAll(front, patterns), u);
      } else {
        RoundsMaskNone(|patterns| + 1, front, redacted);
        UntouchedEndsInBlank(patterns, text, front, rest, k);
        UntouchedFrontIsKept(patterns, front, u, u[|front|..]);
      }
    }
  }

  lemma MarkIsKept(published: string)
    ensures BeginsKept(REDACTED + published)
  {
    assert "" + REDACTED + published == REDACTED + published;
    forall u | BracketFree(u) && u <= REDACTED + published ensures u <= RedactAssignments(u) {
      NoMarkWithin(u, "", published);
    }
  }

  lemma KeptByPush(patterns: Patterns, text: string, rest: string, output: string, published: string)
    requires Publish(patterns, text) == (StreamState(rest, false), output) && BeginsKept(published)
    ensures BeginsKept(output + published)
  {
    if CutsText(patterns, text) {
      var k, front := PushCutsAt(patterns, text);
      KeptAtCut(patterns, text, front, rest, k, published);
    } else {
      PushHoldsBack(patterns, text);
      assert "" + published == published;
    }
  }

  lemma {:induction false} RunBeginsKept(patterns: Patterns, pending: string, chunks: seq<string>)
    ensures BeginsKept(Published(patterns, StreamState(pending, false), chunks))
    decreases |chunks|, 0
  {
    if chunks == [] {
      forall u | BracketFree(u) && u <= RedactText(patterns, pending) ensures u <= RedactAssignments(u) {
        BeginningIsKept(ReplaceAll(pending, patterns), u);
      }
    } else {
      TextBeginsKept(patterns, pending + chunks[0], chunks[1..]);
    }
  }

  /** Whatever a stream publishes from some text on begins, up to the first mark, with what rewriting keeps. */
  lemma {:induction false} TextBeginsKept(patterns: Patterns, text: string, chunks: seq<string>)
    ensures BeginsKept(Publish(patterns, text).1 + Published(patterns, Publish(patterns, text).0, chunks))
    decreases |chunks|, 1
  {
    var (st, output) := Publish(patterns, text);
    var published := Published(patterns, st, chunks);
    if st.discarding {
      MarkIsKept(published);
    } else {
      RunBeginsKept(patterns, st.pending, chunks);
      KeptByPush(patterns, text, st.pending, output, published);
    }
  }
}
