/** Redaction of a whole text: registered values first, longest first, then the values of secret-looking assignments. */
module Redaction {
  import opened Wrappers
  import opened Text

  const REDACTED: string := "[REDACTED]"

  const SENSITIVE_MARKERS: seq<string> :=
    ["token", "password", "passwd", "secret", "credential", "private_key", "api_key", "storepass", "keypass"]

  // A registered value is never empty.
  type Patterns = patterns: seq<string> | forall p :: p in patterns ==> p != "" witness []

  // Replaces the leftmost match of `pattern`, then goes on behind it.
  function Replace(s: string, pattern: string): string
    requires pattern != ""
    decreases |s|
  {
    if |s| < |pattern| then s
    else if pattern <= s then REDACTED + Replace(s[|pattern|..], pattern)
    else [s[0]] + Replace(s[1..], pattern)
  }

  function ReplaceAll(s: string, patterns: Patterns): string
    decreases |patterns|
  {
    if patterns == [] then s else ReplaceAll(Replace(s, patterns[0]), patterns[1..])
  }

  // The length of the first part of `s`: up to and including its first whitespace character.
  function PartLength(s: string): (n: nat)
    requires s != ""
    ensures 1 <= n <= |s|
    ensures forall i :: 0 <= i < n - 1 ==> !IsWhitespace(s[i])
    ensures IsWhitespace(s[n - 1]) || n == |s|
  {
    if |s| == 1 || IsWhitespace(s[0]) then 1 else 1 + PartLength(s[1..])
  }

  function TrimEnd(s: string): (r: string)
    ensures r <= s
    ensures r == "" || !IsWhitespace(r[|r| - 1])
    ensures forall i :: |r| <= i < |s| ==> IsWhitespace(s[i])
  {
    if s != "" && IsWhitespace(s[|s| - 1]) then TrimEnd(s[..|s| - 1]) else s
  }

  function IndexOf(s: string, c: char): (r: Option<nat>)
    ensures r.Some? ==> r.value < |s| && s[r.value] == c && c !in s[..r.value]
    ensures r.None? ==> c !in s
  {
    if s == "" then None
    else if s[0] == c then Some(0)
    else match IndexOf(s[1..], c)
      case None => None
      case Some(k) => Some(k + 1)
  }

  function AsciiLower(c: char): char {
    if 'A' <= c <= 'Z' then (c as int + 32) as char else c
  }

  function NormalizedName(name: string): string {
    seq(|name|, i requires 0 <= i < |name| => if name[i] == '-' then '_' else AsciiLower(name[i]))
  }

  predicate SensitiveName(name: string) {
    exists marker :: marker in SENSITIVE_MARKERS && Occurs(marker, NormalizedName(name))
  }

  function RedactToken(token: string): string {
    match IndexOf(token, '=')
    case None => token
    case Some(k) => if SensitiveName(token[..k]) then token[..k] + "=" + REDACTED else token
  }

  // Rewrites the word at the front of each part and keeps the whitespace behind it.
  function MapPart(f: string -> string, part: string): string {
    var trimmed := TrimEnd(part);
    f(trimmed) + part[|trimmed|..]
  }

  function MapParts(f: string -> string, s: string): string
    decreases |s|
  {
    if s == "" then "" else MapPart(f, s[..PartLength(s)]) + MapParts(f, s[PartLength(s)..])
  }

  function RedactAssignments(s: string): string {
    MapParts(RedactToken, s)
  }

  function RedactText(patterns: Patterns, s: string): string {
    RedactAssignments(ReplaceAll(s, patterns))
  }

  // ---------------------------------------------------------------------------------------------
  // Redaction distributes over a cut between words
  // ---------------------------------------------------------------------------------------------

  predicate WordBoundary(a: string, b: string) {
    a == "" || b == "" || IsWhitespace(a[|a| - 1]) || IsWhitespace(b[0])
  }

  predicate AllWhitespaceFree(patterns: seq<string>) {
    forall p :: p in patterns ==> WhitespaceFree(p)
  }

  // A match without whitespace cannot straddle a word boundary.
  lemma MatchStaysOnOneSide(a: string, b: string, pattern: string)
    requires pattern != "" && WhitespaceFree(pattern) && WordBoundary(a, b) && a != ""
    ensures pattern <= a + b <==> pattern <= a
  {
    if |a| < |pattern| && b != "" {
      var k := if IsWhitespace(a[|a| - 1]) then |a| - 1 else |a|;
      assert IsWhitespace((a + b)[k]) && !IsWhitespace(pattern[k]);
    }
  }

  lemma ReplaceMatch(s: string, pattern: string)
    requires pattern != "" && pattern <= s
    ensures Replace(s, pattern) == REDACTED + Replace(s[|pattern|..], pattern)
  {
  }

  lemma ReplaceNoMatch(s: string, pattern: string)
    requires pattern != "" && s != "" && !(pattern <= s)
    ensures Replace(s, pattern) == [s[0]] + Replace(s[1..], pattern)
  {
  }

  lemma ReplaceStep(s: string, pattern: string, step: nat, head: string)
    requires pattern != "" && s != ""
    requires if pattern <= s then step == |pattern| && head == REDACTED else step == 1 && head == [s[0]]
    ensures step <= |s| && Replace(s, pattern) == head + Replace(s[step..], pattern)
  {
    if pattern <= s { ReplaceMatch(s, pattern); } else { ReplaceNoMatch(s, pattern); }
  }

  lemma StepDistributes(a: string, b: string, pattern: string, step: nat, head: string)
    requires pattern != "" && step <= |a| && Replace(a, pattern) == head + Replace(a[step..], pattern)
    requires Replace(a + b, pattern) == head + Replace((a + b)[step..], pattern)
    requires Replace(a[step..] + b, pattern) == Replace(a[step..], pattern) + Replace(b, pattern)
    ensures Replace(a + b, pattern) == Replace(a, pattern) + Replace(b, pattern)
  {
    assert (a + b)[step..] == a[step..] + b;
    ConcatIsAssociative(head, Replace(a[step..], pattern), Replace(b, pattern));
  }

  lemma {:induction false} ReplaceDistributes(a: string, b: string, pattern: string)
    requires pattern != "" && WhitespaceFree(pattern) && WordBoundary(a, b)
    ensures Replace(a + b, pattern) == Replace(a, pattern) + Replace(b, pattern)
    decreases |a|
  {
    if a == "" {
      assert a + b == b;
    } else {
      MatchStaysOnOneSide(a, b, pattern);
      var step, head := if pattern <= a then |pattern| else 1, if pattern <= a then REDACTED else [a[0]];
      ReplaceStep(a, pattern, step, head);
      ReplaceStep(a + b, pattern, step, head);
      ReplaceDistributes(a[step..], b, pattern);
      StepDistributes(a, b, pattern, step, head);
    }
  }

  lemma {:induction false} ReplaceKeepsWordStart(a: string, pattern: string)
    requires pattern != "" && WhitespaceFree(pattern) && a != "" && IsWhitespace(a[|a| - 1])
    ensures var r := Replace(a, pattern); r != "" && IsWhitespace(r[|r| - 1])
    decreases |a|
  {
    if pattern <= a {
      assert a[|pattern| - 1] == pattern[|pattern| - 1];
      ReplaceKeepsWordStart(a[|pattern|..], pattern);
    } else {
      ReplaceNoMatch(a, pattern);
      if |a| > 1 {
        ReplaceKeepsWordStart(a[1..], pattern);
      }
    }
  }

  lemma ReplaceKeepsBoundary(a: string, b: string, pattern: string)
    requires pattern != "" && WhitespaceFree(pattern) && WordBoundary(a, b)
    ensures WordBoundary(Replace(a, pattern), Replace(b, pattern))
  {
    if a != "" && b != "" {
      if IsWhitespace(a[|a| - 1]) {
        ReplaceKeepsWordStart(a, pattern);
      } else {
        assert pattern[0] != b[0];
        ReplaceNoMatch(b, pattern);
      }
    }
  }

  lemma {:induction false} ReplaceAllDistributes(a: string, b: string, patterns: Patterns)
    requires AllWhitespaceFree(patterns) && WordBoundary(a, b)
    ensures ReplaceAll(a + b, patterns) == ReplaceAll(a, patterns) + ReplaceAll(b, patterns)
    ensures WordBoundary(ReplaceAll(a, patterns), ReplaceAll(b, patterns))
    decreases |patterns|
  {
    if patterns != [] {
      assert WhitespaceFree(patterns[0]);
      ReplaceDistributes(a, b, patterns[0]);
      ReplaceKeepsBoundary(a, b, patterns[0]);
      ReplaceAllDistributes(Replace(a, patterns[0]), Replace(b, patterns[0]), patterns[1..]);
    }
  }

  lemma {:induction false} TrimOfPart(token: string, white: string)
    requires WhitespaceFree(token) && forall i :: 0 <= i < |white| ==> IsWhitespace(white[i])
    ensures TrimEnd(token + white) == token
  {
    if white == "" {
      assert token + white == token;
    } else {
      var front := white[..|white| - 1];
      assert (token + white)[..|token + white| - 1] == token + front;
      TrimOfPart(token, front);
    }
  }

  lemma MapPartOfWord(f: string -> string, token: string, white: string)
    requires WhitespaceFree(token) && forall i :: 0 <= i < |white| ==> IsWhitespace(white[i])
    ensures MapPart(f, token + white) == f(token) + white
  {
    TrimOfPart(token, white);
    assert (token + white)[|token|..] == white;
  }

  lemma {:induction false} PartLengthOfToken(token: string, w: char, rest: string)
    requires WhitespaceFree(token) && IsWhitespace(w)
    ensures PartLength(token + [w] + rest) == |token| + 1
  {
    var s := token + [w] + rest;
    if token == "" {
      assert s[0] == w;
    } else {
      assert s[0] == token[0];
      assert s[1..] == token[1..] + [w] + rest;
      PartLengthOfToken(token[1..], w, rest);
    }
  }

  // What a whitespace-free token followed by the whitespace `w` becomes.
  lemma MapFirstWord(f: string -> string, token: string, w: char, rest: string)
    requires WhitespaceFree(token) && IsWhitespace(w)
    ensures MapParts(f, token + [w] + rest) == f(token) + [w] + MapParts(f, rest)
  {
    var s := token + [w] + rest;
    PartLengthOfToken(token, w, rest);
    assert s[..|token| + 1] == token + [w] && s[|token| + 1..] == rest;
    MapPartOfWord(f, token, [w]);
  }

  lemma MapLastWord(f: string -> string, token: string)
    requires f("") == "" && WhitespaceFree(token)
    ensures MapParts(f, token) == f(token)
  {
    if token != "" {
      var n := PartLength(token);
      assert token[..n] == token && token[n..] == "";
      MapPartOfWord(f, token, "");
      assert token + "" == token;
    }
  }

  lemma MapFirstPart(f: string -> string, a: string, b: string)
    requires a != "" && IsWhitespace(a[PartLength(a) - 1])
    ensures var n := PartLength(a);
            MapParts(f, a + b) == MapPart(f, a[..n]) + MapParts(f, a[n..] + b)
  {
    var n := PartLength(a);
    var token, rest := a[..n - 1], a[n..];
    assert a[..n] == token + [a[n - 1]];
    assert a + b == token + [a[n - 1]] + (rest + b);
    MapFirstWord(f, token, a[n - 1], rest + b);
    MapPartOfWord(f, token, [a[n - 1]]);
  }

  lemma MapBeforeWhitespace(f: string -> string, token: string, b: string)
    requires f("") == "" && WhitespaceFree(token) && b != "" && IsWhitespace(b[0])
    ensures MapParts(f, token + b) == MapParts(f, token) + MapParts(f, b)
  {
    calc {
      MapParts(f, token + b);
      { assert token + b == token + [b[0]] + b[1..]; MapFirstWord(f, token, b[0], b[1..]); }
      f(token) + [b[0]] + MapParts(f, b[1..]);
      f(token) + ("" + [b[0]] + MapParts(f, b[1..]));
      { assert b == "" + [b[0]] + b[1..]; MapFirstWord(f, "", b[0], b[1..]); }
      f(token) + MapParts(f, b);
      { MapLastWord(f, token); }
      MapParts(f, token) + MapParts(f, b);
    }
  }

  lemma MapPartsStep(f: string -> string, a: string, b: string)
    requires a != "" && IsWhitespace(a[PartLength(a) - 1])
    requires var rest := a[PartLength(a)..]; MapParts(f, rest + b) == MapParts(f, rest) + MapParts(f, b)
    ensures MapParts(f, a + b) == MapParts(f, a) + MapParts(f, b)
  {
    MapFirstPart(f, a, b);
  }

  lemma {:induction false} MapPartsDistributes(f: string -> string, a: string, b: string)
    requires f("") == "" && WordBoundary(a, b)
    ensures MapParts(f, a + b) == MapParts(f, a) + MapParts(f, b)
    decreases |a|
  {
    if a == "" {
      assert a + b == b;
    } else if b == "" {
      assert a + b == a;
    } else if IsWhitespace(a[PartLength(a) - 1]) {
      MapPartsDistributes(f, a[PartLength(a)..], b);
      MapPartsStep(f, a, b);
    } else {
      MapBeforeWhitespace(f, a, b);
    }
  }

  lemma RedactionDistributes(patterns: Patterns, a: string, b: string)
    requires AllWhitespaceFree(patterns) && WordBoundary(a, b)
    ensures RedactText(patterns, a + b) == RedactText(patterns, a) + RedactText(patterns, b)
  {
    ReplaceAllDistributes(a, b, patterns);
    MapPartsDistributes(RedactToken, ReplaceAll(a, patterns), ReplaceAll(b, patterns));
  }
}
