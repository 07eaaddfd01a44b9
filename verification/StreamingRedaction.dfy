/** Redaction of a stream that arrives in chunks: what one push publishes and what it holds back. */
module StreamingRedaction {
  import opened Wrappers
  import opened Text
  import opened Redaction

  const MAX_PENDING_TOKEN_BYTES: nat := 64 * 1024

  datatype StreamState = StreamState(pending: string, discarding: bool)

  const INITIAL: StreamState := StreamState("", false)

  function LongestBytes(patterns: seq<string>): nat {
    if patterns == [] then 0
    else
      var rest, first := LongestBytes(patterns[1..]), ByteLength(patterns[0]);
      if rest <= first then first else rest
  }

  lemma {:induction false} LongestBytesIsMaximum(patterns: seq<string>)
    ensures forall i :: 0 <= i < |patterns| ==> ByteLength(patterns[i]) <= LongestBytes(patterns)
    ensures patterns != [] ==> exists i :: 0 <= i < |patterns| && ByteLength(patterns[i]) == LongestBytes(patterns)
  {
    if patterns != [] {
      var rest := patterns[1..];
      LongestBytesIsMaximum(rest);
      assert forall i :: 1 <= i < |patterns| ==> patterns[i] == rest[i - 1];
      if LongestBytes(patterns) == ByteLength(patterns[0]) {
        assert ByteLength(patterns[0]) == LongestBytes(patterns);
      } else {
        assert rest == [] ==> LongestBytes(rest) == 0;
        var i :| 0 <= i < |rest| && ByteLength(rest[i]) == LongestBytes(rest);
        assert patterns[i + 1] == rest[i];
      }
    }
  }

  // One byte less than the longest value: a value that began in the published text would have ended by now.
  function Retained(patterns: seq<string>): nat {
    if LongestBytes(patterns) == 0 then 0 else LongestBytes(patterns) - 1
  }

  // The last place among the first `n` characters that lies behind whitespace and within `limit` bytes.
  function LastCut(text: string, limit: nat, n: nat): (r: Option<nat>)
    requires n <= |text|
    ensures r.Some? ==> 1 <= r.value <= n && IsWhitespace(text[r.value - 1]) && ByteOffset(text, r.value) <= limit
  {
    if n == 0 then None
    else if IsWhitespace(text[n - 1]) && ByteOffset(text, n) <= limit then Some(n)
    else LastCut(text, limit, n - 1)
  }

  lemma {:induction false} LastCutIsLast(text: string, limit: nat, n: nat, k: nat)
    requires k <= n <= |text| && k >= 1 && IsWhitespace(text[k - 1]) && ByteOffset(text, k) <= limit
    ensures LastCut(text, limit, n).Some? && k <= LastCut(text, limit, n).value
  {
    if k < n { LastCutIsLast(text, limit, n - 1, k); }
  }

  // The places where scanning from `i` finds `pattern`, each search going on behind the last match.
  function MatchesFrom(text: string, pattern: string, i: nat): (r: seq<nat>)
    requires pattern != "" && i <= |text|
    decreases |text| - i
  {
    if |text| < i + |pattern| then []
    else if pattern <= text[i..] then [i] + MatchesFrom(text, pattern, i + |pattern|)
    else MatchesFrom(text, pattern, i + 1)
  }

  lemma {:induction false} MatchesAreOccurrences(text: string, pattern: string, i: nat, m: nat)
    requires pattern != "" && i <= |text| && m in MatchesFrom(text, pattern, i)
    ensures i <= m && m + |pattern| <= |text| && OccursAt(pattern, text, m)
    decreases |text| - i
  {
    if i + |pattern| <= |text| && !(m == i && pattern <= text[i..]) {
      MatchesAreOccurrences(text, pattern, if pattern <= text[i..] then i + |pattern| else i + 1, m);
    }
  }

  predicate Straddles(pattern: string, start: nat, cut: nat) {
    start < cut < start + |pattern|
  }

  predicate CleanFrom(text: string, pattern: string, i: nat, cut: nat)
    requires pattern != "" && i <= |text|
  {
    forall m :: m in MatchesFrom(text, pattern, i) ==> !Straddles(pattern, m, cut)
  }

  predicate CleanCut(patterns: Patterns, text: string, cut: nat) {
    forall p :: p in patterns ==> CleanFrom(text, p, 0, cut)
  }

  // The first cut at or behind `cut` that no match straddles.
  function NextCleanCut(patterns: Patterns, text: string, cut: nat): (r: nat)
    requires cut <= |text|
    ensures cut <= r <= |text|
    decreases |text| - cut
  {
    if CleanCut(patterns, text, cut) || cut == |text| then cut else NextCleanCut(patterns, text, cut + 1)
  }

  // What is published once a cut was looked for in the pending text.
  function PublishFound(patterns: Patterns, text: string, found: Option<nat>): (StreamState, string)
    requires found.Some? ==> found.value <= |text|
  {
    match found
    case None =>
      if ByteLength(text) > MAX_PENDING_TOKEN_BYTES then (StreamState("", true), REDACTED)
      else (StreamState(text, false), "")
    case Some(k) =>
      var cut := NextCleanCut(patterns, text, k);
      (StreamState(text[cut..], false), RedactText(patterns, text[..cut]))
  }

  // What is published of the pending text once it has grown to `text`.
  function Publish(patterns: Patterns, text: string): (StreamState, string) {
    var size, retained := ByteLength(text), Retained(patterns);
    if size <= retained then (StreamState(text, false), "")
    else PublishFound(patterns, text, LastCut(text, size - retained, |text|))
  }

  predicate CutsText(patterns: Patterns, text: string) {
    ByteLength(text) > Retained(patterns) && LastCut(text, ByteLength(text) - Retained(patterns), |text|).Some?
  }

  // Where a push looks for its cut.
  lemma CutIsFound(patterns: Patterns, text: string) returns (limit: nat, k: nat)
    requires CutsText(patterns, text)
    ensures limit > 0 && limit + Retained(patterns) == ByteLength(text) && LastCut(text, limit, |text|) == Some(k)
  {
    limit := ByteLength(text) - Retained(patterns);
    k := LastCut(text, limit, |text|).value;
  }

  lemma CutIsBehindBlank(text: string, limit: nat, k: nat)
    requires LastCut(text, limit, |text|) == Some(k)
    ensures 1 <= k <= |text| && IsWhitespace(text[k - 1]) && ByteOffset(text, k) <= limit
  {
  }

  lemma PublishFollowsCut(patterns: Patterns, text: string, limit: nat, found: Option<nat>)
    requires limit > 0 && limit + Retained(patterns) == ByteLength(text) && found == LastCut(text, limit, |text|)
    ensures Publish(patterns, text) == PublishFound(patterns, text, found)
  {
  }

  lemma PublishCuts(patterns: Patterns, text: string, limit: nat, k: nat)
    requires limit > 0 && limit + Retained(patterns) == ByteLength(text) && LastCut(text, limit, |text|) == Some(k)
    ensures var cut := NextCleanCut(patterns, text, k);
            Publish(patterns, text) == (StreamState(text[cut..], false), RedactText(patterns, text[..cut]))
  {
    PublishFollowsCut(patterns, text, limit, Some(k));
  }

  function PushText(patterns: Patterns, pending: string, chunk: string): (StreamState, string) {
    Publish(patterns, pending + chunk)
  }

  function FirstWhitespace(s: string): (r: Option<nat>)
    ensures r.None? ==> WhitespaceFree(s)
    ensures r.Some? ==> r.value < |s| && IsWhitespace(s[r.value]) && WhitespaceFree(s[..r.value])
  {
    if s == "" then None
    else if IsWhitespace(s[0]) then Some(0)
    else match FirstWhitespace(s[1..])
      case None => None
      case Some(k) => Some(k + 1)
  }

  function Push(patterns: Patterns, st: StreamState, chunk: string): (StreamState, string) {
    if !st.discarding then PushText(patterns, st.pending, chunk)
    else match FirstWhitespace(chunk)
      case None => (st, "")
      case Some(i) =>
        var (st', output) := PushText(patterns, st.pending, chunk[i + 1..]);
        (st', [chunk[i]] + output)
  }

  function Finish(patterns: Patterns, st: StreamState): string {
    if st.discarding then "" else RedactText(patterns, st.pending)
  }

  // Everything a stream publishes from `st` on.
  function Published(patterns: Patterns, st: StreamState, chunks: seq<string>): string
    decreases |chunks|
  {
    if chunks == [] then Finish(patterns, st)
    else
      var (st', output) := Push(patterns, st, chunks[0]);
      output + Published(patterns, st', chunks[1..])
  }

  // ---------------------------------------------------------------------------------------------
  // The cut
  // ---------------------------------------------------------------------------------------------

  lemma EndIsClean(patterns: Patterns, text: string)
    ensures CleanCut(patterns, text, |text|)
  {
    forall p, m | p in patterns && m in MatchesFrom(text, p, 0) ensures !Straddles(p, m, |text|) {
      MatchesAreOccurrences(text, p, 0, m);
    }
  }

  lemma {:induction false} NextCleanCutIsLeast(patterns: Patterns, text: string, cut: nat, k: nat)
    requires cut <= k <= |text|
    ensures CleanCut(patterns, text, NextCleanCut(patterns, text, cut))
    ensures CleanCut(patterns, text, k) ==> NextCleanCut(patterns, text, cut) <= k
    decreases |text| - cut
  {
    EndIsClean(patterns, text);
    if !CleanCut(patterns, text, cut) && cut < |text| {
      NextCleanCutIsLeast(patterns, text, cut + 1, if k == cut then cut + 1 else k);
    }
  }

  // Moving behind a straddling match skips no clean cut.
  lemma {:induction false} SkipStraddlingMatch(patterns: Patterns, text: string, p: string, m: nat, cut: nat)
    requires p in patterns && m in MatchesFrom(text, p, 0) && Straddles(p, m, cut) && cut <= |text|
    ensures m + |p| <= |text| && NextCleanCut(patterns, text, cut) == NextCleanCut(patterns, text, m + |p|)
    decreases m + |p| - cut
  {
    MatchesAreOccurrences(text, p, 0, m);
    StraddledIsNotClean(patterns, text, p, m, cut);
    if cut + 1 < m + |p| {
      SkipStraddlingMatch(patterns, text, p, m, cut + 1);
    }
  }

  lemma StraddledIsNotClean(patterns: Patterns, text: string, p: string, m: nat, cut: nat)
    requires p in patterns && m in MatchesFrom(text, p, 0) && Straddles(p, m, cut)
    ensures !CleanCut(patterns, text, cut)
  {
    assert !CleanFrom(text, p, 0, cut);
  }

  lemma MatchIsWhitespaceFree(text: string, p: string, m: nat)
    requires WhitespaceFree(p) && m <= |text| && p <= text[m..]
    ensures forall j :: m <= j < m + |p| ==> !IsWhitespace(text[j])
  {
    forall j | m <= j < m + |p| ensures !IsWhitespace(text[j]) {
      assert p[j - m] == text[m..][j - m];
    }
  }

  // A value without whitespace straddles no cut behind whitespace.
  lemma CutsBehindWhitespaceAreClean(patterns: Patterns, text: string, cut: nat)
    requires AllWhitespaceFree(patterns) && 1 <= cut <= |text| && IsWhitespace(text[cut - 1])
    ensures NextCleanCut(patterns, text, cut) == cut
  {
    forall p, m | p in patterns && m in MatchesFrom(text, p, 0) ensures !Straddles(p, m, cut) {
      assert WhitespaceFree(p);
      MatchesAreOccurrences(text, p, 0, m);
      MatchIsWhitespaceFree(text, p, m);
    }
  }

  lemma ReplaceHeadAcross(s: string, front: string, back: string, pattern: string)
    requires pattern != "" && front != "" && s == front + back && (pattern <= s ==> |pattern| <= |front|)
    requires var n := if pattern <= s then |pattern| else 1;
             Replace(s[n..], pattern) == Replace(front[n..], pattern) + Replace(back, pattern)
    ensures Replace(s, pattern) == Replace(front, pattern) + Replace(back, pattern)
  {
    if pattern <= s {
      assert front[..|pattern|] == s[..|pattern|] == pattern;
      ReplaceMatch(s, pattern);
      ReplaceMatch(front, pattern);
    } else {
      assert !(pattern <= front);
      ReplaceNoMatch(s, pattern);
      ReplaceNoMatch(front, pattern);
    }
  }

  lemma CleanBehindFirstMatch(text: string, pattern: string, i: nat, cut: nat)
    requires pattern != "" && i < cut <= |text| && CleanFrom(text, pattern, i, cut)
    ensures var n := if pattern <= text[i..] then |pattern| else 1;
            i + n <= cut && CleanFrom(text, pattern, i + n, cut)
  {
    var rest := MatchesFrom(text, pattern, i);
    if pattern <= text[i..] {
      var behind := MatchesFrom(text, pattern, i + |pattern|);
      assert rest == [i] + behind && i in rest && forall m :: m in behind ==> m in rest;
    }
  }

  lemma Slices(text: string, i: nat, n: nat, cut: nat)
    requires i + n <= cut <= |text|
    ensures text[i..] == text[i..cut] + text[cut..]
    ensures text[i..][n..] == text[i + n..] && text[i..cut][n..] == text[i + n..cut]
  {
  }

  // For one value, whitespace or not, replacing on both sides of a clean cut is replacing in the whole.
  lemma {:induction false} ReplaceAcrossCleanCut(text: string, pattern: string, i: nat, cut: nat)
    requires pattern != "" && i <= cut <= |text| && CleanFrom(text, pattern, i, cut)
    ensures Replace(text[i..], pattern) == Replace(text[i..cut], pattern) + Replace(text[cut..], pattern)
    decreases cut - i
  {
    var s, front, back := text[i..], text[i..cut], text[cut..];
    if i == cut {
      assert front == "";
    } else {
      var n := if pattern <= s then |pattern| else 1;
      CleanBehindFirstMatch(text, pattern, i, cut);
      ReplaceAcrossCleanCut(text, pattern, i + n, cut);
      Slices(text, i, n, cut);
      ReplaceHeadAcross(s, front, back, pattern);
    }
  }
}
