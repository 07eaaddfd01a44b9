/** Why the values must be free of whitespace, and the words must fit, for the stream to equal the whole. */
module StreamCounterexamples {
  import opened Wrappers
  import opened Text
  import opened Redaction
  import opened RedactionSafety
  import opened StreamingRedaction
  import opened StreamEquivalence
  import opened StreamGuarantees

  lemma {:induction false} AsciiByteLength(s: string)
    requires forall i :: 0 <= i < |s| ==> s[i] as int < 0x80
    ensures ByteLength(s) == |s|
  {
    if s != "" { AsciiByteLength(s[..|s| - 1]); }
  }

  lemma StreamOfOneChunk(patterns: Patterns, chunk: string)
    ensures var (st, output) := Publish(patterns, chunk); Stream(patterns, [chunk]) == output + Finish(patterns, st)
  {
    assert "" + chunk == chunk && [chunk][1..] == [];
    assert Published(patterns, Push(patterns, INITIAL, chunk).0, [])
          == Finish(patterns, Push(patterns, INITIAL, chunk).0);
  }

  /** A word over the limit in which no value occurs is published as the mark, although the whole text keeps it. */
  lemma OversizedWordIsNotEqual(patterns: Patterns, word: string)
    requires WhitespaceFree(word) && '=' !in word && forall p :: p in patterns ==> !Occurs(p, word)
    requires ByteLength(word) > MAX_PENDING_TOKEN_BYTES && ByteLength(word) > Retained(patterns)
    ensures Stream(patterns, [word]) == REDACTED
    ensures RedactText(patterns, word) == word != REDACTED
  {
    StreamOfOneChunk(patterns, word);
    assert LastCut(word, ByteLength(word) - Retained(patterns), |word|).None?;
    ReplaceAllFindsNothing(word, patterns);
    WordIsNoAssignment(word);
    if word == REDACTED { AsciiByteLength(word); }
  }

  // ---------------------------------------------------------------------------------------------
  // A value with whitespace in it
  // ---------------------------------------------------------------------------------------------

  // A match that began within a word would repeat the end of that word, and so have no whitespace.
  lemma {:induction false} MatchRepeatsTheWord(word: string, q: string, rest: string, i: nat, k: nat)
    requires WhitespaceFree(word) && i < |word| && k < |q| && q <= (word + q + rest)[i..]
    ensures !IsWhitespace(q[k])
    decreases k
  {
    var line := word + q + rest;
    assert q[k] == line[i..][k] == line[i + k];
    if i + k < |word| {
      assert line[i + k] == word[i + k];
    } else {
      assert line[i + k] == q[i + k - |word|];
      MatchRepeatsTheWord(word, q, rest, i, i + k - |word|);
    }
  }

  lemma NoMatchInTheWord(word: string, q: string, rest: string, i: nat)
    requires WhitespaceFree(word) && !WhitespaceFree(q) && i < |word|
    ensures !(q <= (word + q + rest)[i..])
  {
    var k :| 0 <= k < |q| && IsWhitespace(q[k]);
    if q <= (word + q + rest)[i..] { MatchRepeatsTheWord(word, q, rest, i, k); }
  }

  lemma NoMatchWithoutBlanks(s: string, q: string, i: nat)
    requires WhitespaceFree(s) && !WhitespaceFree(q) && i <= |s|
    ensures !OccursAt(q, s, i)
  {
    var k :| 0 <= k < |q| && IsWhitespace(q[k]);
    if i + k < |s| { assert s[i..][k] == s[i + k]; }
  }

  lemma {:induction false} NoMatchesBehind(word: string, q: string, rest: string, i: nat)
    requires WhitespaceFree(rest) && !WhitespaceFree(q) && |word| + |q| <= i <= |word + q + rest|
    ensures MatchesFrom(word + q + rest, q, i) == []
    decreases |word + q + rest| - i
  {
    var line := word + q + rest;
    if i + |q| <= |line| {
      assert line[i..] == rest[i - |word| - |q|..];
      NoMatchWithoutBlanks(rest, q, i - |word| - |q|);
      NoMatchesBehind(word, q, rest, i + 1);
    }
  }

  lemma {:induction false} MatchesOnce(word: string, q: string, rest: string, i: nat)
    requires WhitespaceFree(word) && WhitespaceFree(rest) && !WhitespaceFree(q) && i <= |word|
    ensures MatchesFrom(word + q + rest, q, i) == [|word|]
    decreases |word| - i
  {
    var line := word + q + rest;
    if i < |word| {
      NoMatchInTheWord(word, q, rest, i);
      MatchesOnce(word, q, rest, i + 1);
    } else {
      assert line[i..] == q + rest;
      NoMatchesBehind(word, q, rest, i + |q|);
    }
  }

  lemma {:induction false} ReplacedOnce(word: string, q: string, rest: string, i: nat)
    requires WhitespaceFree(word) && WhitespaceFree(rest) && !WhitespaceFree(q) && i <= |word|
    ensures Replace((word + q + rest)[i..], q) == word[i..] + (REDACTED + rest)
    decreases |word| - i
  {
    var s := (word + q + rest)[i..];
    if i < |word| {
      NoMatchInTheWord(word, q, rest, i);
      ReplacedOnce(word, q, rest, i + 1);
      assert s[1..] == (word + q + rest)[i + 1..] && s[0] == word[i];
      ReplaceNoMatch(s, q);
      ConcatIsAssociative([word[i]], word[i + 1..], REDACTED + rest);
      assert word[i..] == [word[i]] + word[i + 1..];
    } else {
      assert s == q + rest && s[|q|..] == rest;
      ReplaceMatch(s, q);
      forall j: nat | j <= |rest| ensures !OccursAt(q, rest, j) { NoMatchWithoutBlanks(rest, q, j); }
      ReplaceFindsNothing(rest, q);
    }
  }

  // The last cut stands in the value, behind its last whitespace.
  lemma CutIsInTheValue(word: string, q: string, rest: string, limit: nat) returns (cut: nat)
    requires WhitespaceFree(word) && WhitespaceFree(rest) && !WhitespaceFree(q) && limit >= ByteLength(word + q)
    ensures LastCut(word + q + rest, limit, |word + q + rest|) == Some(cut) && |word| < cut <= |word| + |q|
  {
    var line := word + q + rest;
    var k :| 0 <= k < |q| && IsWhitespace(q[k]);
    assert line[|word| + k] == q[k];
    assert line[..|word + q|] == word + q;
    ByteLengthOfPrefix(line, |word| + k + 1, |word + q|);
    LastCutIsLast(line, limit, |line|, |word| + k + 1);
    cut := LastCut(line, limit, |line|).value;
    assert forall j :: 0 <= j < |rest| ==> line[|word| + |q| + j] == rest[j];
  }

  lemma CutMovesBehindTheValue(patterns: Patterns, word: string, q: string, rest: string, cut: nat)
    requires patterns == [q] && WhitespaceFree(word) && WhitespaceFree(rest) && !WhitespaceFree(q)
    requires |word| < cut <= |word| + |q|
    ensures NextCleanCut(patterns, word + q + rest, cut) == |word| + |q|
  {
    var line, end := word + q + rest, |word| + |q|;
    MatchesOnce(word, q, rest, 0);
    assert CleanFrom(line, q, 0, end);
    assert CleanCut(patterns, line, end);
    if cut < end { SkipStraddlingMatch(patterns, line, q, |word|, cut); }
  }

  lemma LastCutOfTheLine(patterns: Patterns, word: string, q: string, rest: string) returns (cut: nat)
    requires q != "" && WhitespaceFree(word) && WhitespaceFree(rest) && !WhitespaceFree(q)
    requires ByteLength(rest) >= Retained(patterns)
    ensures ByteLength(word + q + rest) > Retained(patterns) && |word| < cut <= |word| + |q|
    ensures LastCut(word + q + rest, ByteLength(word + q + rest) - Retained(patterns), |word + q + rest|) == Some(cut)
  {
    RestHoldsTheTail(word, q, rest, Retained(patterns));
    cut := CutIsInTheValue(word, q, rest, ByteLength(word + q + rest) - Retained(patterns));
  }

  lemma RestHoldsTheTail(word: string, q: string, rest: string, retained: nat)
    requires q != "" && ByteLength(rest) >= retained
    ensures ByteLength(word + q) + retained <= ByteLength(word + q + rest) && ByteLength(word + q) > 0
  {
    ByteLengthOfConcat(word + q, rest);
    ByteLengthOfConcat(word, q);
  }

  lemma PublishAt(patterns: Patterns, front: string, rest: string, line: string, k: nat)
    requires line == front + rest && ByteLength(line) > Retained(patterns) && k <= |line|
    requires LastCut(line, ByteLength(line) - Retained(patterns), |line|) == Some(k)
    requires NextCleanCut(patterns, line, k) == |front|
    ensures Publish(patterns, line) == (StreamState(rest, false), RedactText(patterns, front))
  {
    SplitLine(front, rest);
  }

  lemma SplitLine(front: string, rest: string)
    ensures (front + rest)[..|front|] == front && (front + rest)[|front|..] == rest
  {
  }

  lemma ReplaceAllOfOne(s: string, pattern: string)
    requires pattern != ""
    ensures ReplaceAll(s, [pattern]) == Replace(s, pattern)
  {
    assert [pattern][1..] == [];
    assert ReplaceAll(Replace(s, pattern), []) == Replace(s, pattern);
  }

  lemma TokenIsSensitive()
    ensures SensitiveName("token")
  {
    assert NormalizedName("token") == "token";
    assert "token"[0..] == "token" && OccursAt("token", "token", 0);
    assert SENSITIVE_MARKERS[0] == "token";
    assert Occurs(SENSITIVE_MARKERS[0], NormalizedName("token"));
  }

  // A word that assigns to a sensitive name loses what it assigns.
  lemma SensitiveWord(name: string, value: string)
    requires WhitespaceFree(name + ['='] + value) && '=' !in name && SensitiveName(name)
    ensures RedactAssignments(name + ['='] + value) == name + "=" + REDACTED
  {
    var t := name + ['='] + value;
    IndexBehind(name, '=', value);
    assert t[..|name|] == name;
    MapLastWord(RedactToken, t);
  }

  lemma TokenAssignment(value: string, line: string)
    requires WhitespaceFree(value) && line == TOKEN + value
    ensures RedactAssignments(line) == "token=[REDACTED]"
  {
    var name := "token";
    TokenIsSensitive();
    assert TOKEN == name + ['='];
    NameTakesValue(name, TOKEN, value);
    assert name + "=" + REDACTED == "token=[REDACTED]";
  }

  lemma NameTakesValue(name: string, start: string, value: string)
    requires WhitespaceFree(name) && WhitespaceFree(value) && '=' !in name && SensitiveName(name)
    requires start == name + ['=']
    ensures RedactAssignments(start + value) == name + "=" + REDACTED
  {
    assert start + value == name + ['='] + value;
    SensitiveWord(name, value);
  }

  lemma {:induction false} IndexBehind(prefix: string, c: char, rest: string)
    requires c !in prefix
    ensures IndexOf(prefix + [c] + rest, c) == Some(|prefix|)
  {
    var s := prefix + [c] + rest;
    if prefix != "" {
      assert s[0] == prefix[0] && s[1..] == prefix[1..] + [c] + rest;
      IndexBehind(prefix[1..], c, rest);
    }
  }

  lemma OneWord(a: string, b: string)
    requires WhitespaceFree(a) && WhitespaceFree(b)
    ensures WhitespaceFree(a + b)
  {
  }

  lemma MarkIsOneWord()
    ensures WhitespaceFree(REDACTED)
  {
  }

  lemma TokenTextIsHidden(q: string, rest: string)
    requires q != "" && !WhitespaceFree(q) && WhitespaceFree(rest)
    ensures RedactText([q], TOKEN + q + rest) == "token=[REDACTED]"
  {
    var line := TOKEN + q + rest;
    assert line[0..] == line && TOKEN[0..] == TOKEN;
    ReplacedOnce(TOKEN, q, rest, 0);
    ReplaceAllOfOne(line, q);
    MarkIsOneWord();
    OneWord(REDACTED, rest);
    TokenAssignment(REDACTED + rest, TOKEN + (REDACTED + rest));
  }

  lemma WordIsUntouched(q: string, word: string)
    requires q != "" && !WhitespaceFree(q) && WhitespaceFree(word) && '=' !in word
    ensures RedactText([q], word) == word
  {
    forall j: nat | j <= |word| ensures !OccursAt(q, word, j) { NoMatchWithoutBlanks(word, q, j); }
    ReplaceFindsNothing(word, q);
    ReplaceAllOfOne(word, q);
    WordIsNoAssignment(word);
  }

  const TOKEN: string := "token="

  // A word of plain letters, long enough to be held back behind the value.
  function Filler(n: nat): (s: string)
    ensures |s| == n + 1
  {
    seq(n + 1, _ => 'x')
  }

  lemma PiecesOfOneChunk(patterns: Patterns, front: string, rest: string, line: string)
    requires Publish(patterns, line).0 == StreamState(rest, false) && line == front + rest
    ensures RunPieces(patterns, [line]) == [Kept(front), Kept(rest)]
  {
    assert "" + line == line && [line][1..] == [];
    TraceOfKeptText(patterns, "", line, [], front, rest);
    TraceOfNothing(patterns, rest);
    assert RunPieces(patterns, [line]) == TraceText(patterns, "", line, []);
  }

  lemma TraceOfNothing(patterns: Patterns, pending: string)
    ensures Trace(patterns, StreamState(pending, false), "", []) == [Kept(pending)]
  {
  }

  lemma TraceOfKeptText(patterns: Patterns, pending: string, chunk: string, chunks: seq<string>, front: string,
                        rest: string)
    requires pending + chunk == front + rest && Publish(patterns, pending + chunk).0 == StreamState(rest, false)
    ensures TraceText(patterns, pending, chunk, chunks)
         == [Kept(front)] + Trace(patterns, StreamState(rest, false), "", chunks)
  {
    SplitLine(front, rest);
  }

  lemma LineIsCutBehindTheValue(patterns: Patterns, word: string, q: string, rest: string, line: string)
    returns (front: string, cut: nat)
    requires patterns == [q] && WhitespaceFree(word) && !WhitespaceFree(q) && line == word + q + rest
    requires WhitespaceFree(rest) && ByteLength(rest) >= Retained(patterns)
    ensures front == word + q && line == front + rest
    ensures ByteLength(line) > Retained(patterns) && cut <= |line|
    ensures LastCut(line, ByteLength(line) - Retained(patterns), |line|) == Some(cut)
    ensures NextCleanCut(patterns, line, cut) == |front|
  {
    front := word + q;
    cut := LastCutOfTheLine(patterns, word, q, rest);
    CutMovesBehindTheValue(patterns, word, q, rest, cut);
  }

  // One push publishes the chunk up to the end of the value, and keeps the word behind it.
  lemma StreamBehindTheValue(patterns: Patterns, word: string, q: string, rest: string, line: string)
    requires patterns == [q] && WhitespaceFree(word) && !WhitespaceFree(q) && line == word + q + rest
    requires WhitespaceFree(rest) && ByteLength(rest) >= Retained(patterns)
    ensures RunPieces(patterns, [line]) == [Kept(word + q), Kept(rest)]
    ensures Stream(patterns, [line]) == RedactText(patterns, word + q) + RedactText(patterns, rest)
  {
    var front, cut := LineIsCutBehindTheValue(patterns, word, q, rest, line);
    StreamOfTwoParts(patterns, front, rest, line, cut);
  }

  lemma StreamOfTwoParts(patterns: Patterns, front: string, rest: string, line: string, cut: nat)
    requires line == front + rest && ByteLength(line) > Retained(patterns) && cut <= |line|
    requires LastCut(line, ByteLength(line) - Retained(patterns), |line|) == Some(cut)
    requires NextCleanCut(patterns, line, cut) == |front|
    ensures RunPieces(patterns, [line]) == [Kept(front), Kept(rest)]
    ensures Stream(patterns, [line]) == RedactText(patterns, front) + RedactText(patterns, rest)
  {
    PublishAt(patterns, front, rest, line, cut);
    StreamOfOneChunk(patterns, line);
    PiecesOfOneChunk(patterns, front, rest, line);
  }

  lemma TokenIsOneWord()
    ensures WhitespaceFree(TOKEN)
  {
  }

  /**
   * For every value with whitespace: an assignment of it with a word behind is hidden in the whole, and not in the
   * stream.
   */
  lemma WhitespaceValueIsNotEqual(q: string, rest: string)
    requires q != "" && !WhitespaceFree(q)
    requires WhitespaceFree(rest) && '=' !in rest && ByteLength(rest) >= Retained([q])
    ensures RunPieces([q], [TOKEN + q + rest]) == [Kept(TOKEN + q), Kept(rest)]
    ensures Stream([q], [TOKEN + q + rest]) == "token=[REDACTED]" + rest
    ensures RedactText([q], TOKEN + q + rest) == "token=[REDACTED]"
  {
    TokenIsOneWord();
    StreamBehindTheValue([q], TOKEN, q, rest, TOKEN + q + rest);
    WordIsUntouched(q, rest);
    TokenTextIsHidden(q, rest);
    TokenTextIsHidden(q, "");
    assert TOKEN + q + "" == TOKEN + q;
  }

  lemma WhitespaceValueFails(q: string) returns (chunks: seq<string>)
    requires q != "" && !WhitespaceFree(q)
    ensures NothingDropped(RunPieces([q], chunks)) && Stream([q], chunks) != RedactText([q], Concat(chunks))
  {
    var rest := Filler(Retained([q]));
    AsciiByteLength(rest);
    WhitespaceValueIsNotEqual(q, rest);
    var line := TOKEN + q + rest;
    chunks := [line];
    assert Concat([line]) == line + Concat([]) == line;
  }

  /**
   * For one value: as long as nothing is dropped every stream equals the whole, exactly when the value has no
   * whitespace.
   */
  lemma OneValueStreamsExactly(q: string)
    requires q != ""
    ensures (forall chunks :: NothingDropped(RunPieces([q], chunks)) ==>
                      Stream([q], chunks) == RedactText([q], Concat(chunks)))
       <==> WhitespaceFree(q)
  {
    if WhitespaceFree(q) {
      forall chunks | NothingDropped(RunPieces([q], chunks))
        ensures Stream([q], chunks) == RedactText([q], Concat(chunks))
      {
        StreamEqualsWholeExactly([q], chunks);
      }
    } else {
      var chunks := WhitespaceValueFails(q);
    }
  }
}
