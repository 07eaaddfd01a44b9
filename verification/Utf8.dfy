/** Characters as bytes (section 3 of RFC 3629): what the byte counts of the redactor count. */
module Utf8 {
  import opened Wrappers
  import opened Bytes
  import opened Text

  // Every byte of a character but its first.
  predicate IsContinuation(b: Byte) {
    0x80 <= b < 0xC0
  }

  function EncodeChar(c: char): seq<Byte> {
    var n := c as int;
    if n < 0x80 then [n]
    else if n < 0x800 then [0xC0 + n / 64, 0x80 + n % 64]
    else if n < 0x1_0000 then [0xE0 + n / 4096, 0x80 + n / 64 % 64, 0x80 + n % 64]
    else [0xF0 + n / 262144, 0x80 + n / 4096 % 64, 0x80 + n / 64 % 64, 0x80 + n % 64]
  }

  function Encode(s: string): seq<Byte> {
    if s == "" then [] else Encode(s[..|s| - 1]) + EncodeChar(s[|s| - 1])
  }

  predicate AreContinuations(bytes: seq<Byte>) {
    forall i :: 0 <= i < |bytes| ==> IsContinuation(bytes[i])
  }

  function Above(b: Byte, mark: int): int {
    b - mark
  }

  // The character whose bytes come first, and how many they are. Longer forms, surrogates and what lies beyond the last
  // character are refused.
  function ReadChar(bytes: seq<Byte>): Option<(char, nat)> {
    if bytes == [] then None
    else if bytes[0] < 0x80 then Some((bytes[0] as char, 1))
    else if bytes[0] < 0xC0 then None
    else if bytes[0] < 0xE0 then
      if |bytes| < 2 || !AreContinuations(bytes[1..2]) then None
      else
        var n := Above(bytes[0], 0xC0) * 64 + Above(bytes[1], 0x80);
        if 0x80 <= n then Some((n as char, 2)) else None
    else if bytes[0] < 0xF0 then
      if |bytes| < 3 || !AreContinuations(bytes[1..3]) then None
      else
        var n := Above(bytes[0], 0xE0) * 4096 + Above(bytes[1], 0x80) * 64 + Above(bytes[2], 0x80);
        if 0x800 <= n && !(0xD800 <= n < 0xE000) then Some((n as char, 3)) else None
    else
      if |bytes| < 4 || !AreContinuations(bytes[1..4]) then None
      else
        var n := Above(bytes[0], 0xF0) * 262144 + Above(bytes[1], 0x80) * 4096 + Above(bytes[2], 0x80) * 64
                 + Above(bytes[3], 0x80);
        if 0x1_0000 <= n < 0x11_0000 then Some((n as char, 4)) else None
  }

  lemma SixBitsAtATime(n: int)
    requires 0 <= n < 0x11_0000
    ensures n == n / 64 * 64 + n % 64 && n / 64 == n / 4096 * 64 + n / 64 % 64
    ensures n / 4096 == n / 262144 * 64 + n / 4096 % 64
  {
  }

  /** A character takes as many bytes as the redactor counts, only the first of which begins a character. */
  lemma WidthIsByteCount(c: char)
    ensures |EncodeChar(c)| == Utf8Width(c)
    ensures !IsContinuation(EncodeChar(c)[0]) && AreContinuations(EncodeChar(c)[1..])
  {
    SixBitsAtATime(c as int);
  }

  /** The bytes of a character are read back, whatever follows. */
  lemma CharIsReadBack(c: char, rest: seq<Byte>)
    ensures ReadChar(EncodeChar(c) + rest) == Some((c, |EncodeChar(c)|))
  {
    var n, bytes := c as int, EncodeChar(c) + rest;
    SixBitsAtATime(n);
    WidthIsByteCount(c);
    assert forall i :: 0 <= i < |EncodeChar(c)| ==> bytes[i] == EncodeChar(c)[i];
  }

  /** The byte length of a text is that of its UTF-8 form. */
  lemma {:induction false} LengthIsByteCount(s: string)
    ensures |Encode(s)| == ByteLength(s)
  {
    if s != "" {
      LengthIsByteCount(s[..|s| - 1]);
      WidthIsByteCount(s[|s| - 1]);
    }
  }
}
