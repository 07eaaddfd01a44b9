/** Text as the redactor sees it: a sequence of characters, each of which takes one to four bytes in UTF-8. */
module Text {

  // The characters with the Unicode White_Space property.
  predicate IsWhitespace(c: char) {
    var n := c as int;
    || 0x09 <= n <= 0x0D || n == 0x20 || n == 0x85 || n == 0xA0 || n == 0x1680
    || 0x2000 <= n <= 0x200A || n == 0x2028 || n == 0x2029 || n == 0x202F || n == 0x205F || n == 0x3000
  }

  // Every character with the Unicode property White_Space.
  const WHITE_SPACE: seq<int> :=
    [0x09, 0x0A, 0x0B, 0x0C, 0x0D, 0x20, 0x85, 0xA0, 0x1680, 0x2000, 0x2001, 0x2002, 0x2003, 0x2004, 0x2005, 0x2006,
     0x2007, 0x2008, 0x2009, 0x200A, 0x2028, 0x2029, 0x202F, 0x205F, 0x3000]

  lemma WhitespaceIsTheProperty(c: char)
    ensures IsWhitespace(c) <==> c as int in WHITE_SPACE
  {
  }

  function Utf8Width(c: char): (n: nat)
    ensures 1 <= n <= 4
  {
    var n := c as int;
    if n < 0x80 then 1 else if n < 0x800 then 2 else if n < 0x10000 then 3 else 4
  }

  function ByteLength(s: string): (n: nat)
    ensures |s| <= n <= 4 * |s|
  {
    if s == [] then 0 else ByteLength(s[..|s| - 1]) + Utf8Width(s[|s| - 1])
  }

  lemma {:induction false} ByteLengthOfConcat(a: string, b: string)
    ensures ByteLength(a + b) == ByteLength(a) + ByteLength(b)
  {
    if b == [] {
      assert a + b == a;
    } else {
      var front := b[..|b| - 1];
      assert (a + b)[..|a + b| - 1] == a + front;
      ByteLengthOfConcat(a, front);
    }
  }

  // The byte offset of the `k`-th character.
  function ByteOffset(s: string, k: nat): (n: nat)
    requires k <= |s|
    ensures n >= k
  {
    ByteLength(s[..k])
  }

  lemma ByteLengthSplit(s: string, i: nat)
    requires i <= |s|
    ensures ByteLength(s) == ByteLength(s[..i]) + ByteLength(s[i..])
  {
    assert s == s[..i] + s[i..];
    ByteLengthOfConcat(s[..i], s[i..]);
  }

  lemma ByteLengthOfPrefix(s: string, i: nat, j: nat)
    requires i <= j <= |s|
    ensures ByteLength(s[..i]) + (j - i) <= ByteLength(s[..j])
  {
    assert s[..j][..i] == s[..i];
    ByteLengthSplit(s[..j], i);
  }

  predicate WhitespaceFree(s: string) {
    forall i :: 0 <= i < |s| ==> !IsWhitespace(s[i])
  }

  // Where a stream may be cut: at the very start, or just after a whitespace character.
  predicate AtWordStart(before: string) {
    before != [] ==> IsWhitespace(before[|before| - 1])
  }

  predicate OccursAt(needle: string, s: string, i: nat) {
    i <= |s| && needle <= s[i..]
  }

  predicate Occurs(needle: string, s: string) {
    exists i: nat :: i <= |s| && OccursAt(needle, s, i)
  }

  function Concat(pieces: seq<string>): string {
    if pieces == [] then "" else pieces[0] + Concat(pieces[1..])
  }

  lemma ConcatIsAssociative(a: string, b: string, c: string)
    ensures a + b + c == a + (b + c)
  {
  }
}
