/** Base64 as it is written for the terminal clipboard, and the decoder of section 4 of RFC 4648. */
module Base64 {
  import opened Wrappers
  import opened Bytes

  const PAD: char := '='

  // Table 1 of RFC 4648.
  function Symbol(v: nat): char
    requires v < 64
  {
    if v < 26 then 'A' + v as char
    else if v < 52 then 'a' + (v - 26) as char
    else if v < 62 then '0' + (v - 52) as char
    else if v == 62 then '+'
    else '/'
  }

  function SymbolValue(c: char): (v: Option<nat>)
    ensures v.Some? ==> v.value < 64
  {
    if 'A' <= c <= 'Z' then Some((c - 'A') as nat)
    else if 'a' <= c <= 'z' then Some((c - 'a') as nat + 26)
    else if '0' <= c <= '9' then Some((c - '0') as nat + 52)
    else if c == '+' then Some(62)
    else if c == '/' then Some(63)
    else None
  }

  lemma SymbolsAreOneToOne(v: nat)
    requires v < 64
    ensures SymbolValue(Symbol(v)) == Some(v) && Symbol(v) != PAD
  {
  }

  // One to three bytes as four symbols; missing bytes count as zero.
  function EncodeGroup(chunk: seq<Byte>): (group: string)
    requires 1 <= |chunk| <= 3
    ensures |group| == 4
  {
    var first := chunk[0] as int;
    var second := if |chunk| > 1 then chunk[1] as int else 0;
    var third := if |chunk| > 2 then chunk[2] as int else 0;
    [ Symbol(first / 4),
      Symbol(first % 4 * 16 + second / 16),
      if |chunk| > 1 then Symbol(second % 16 * 4 + third / 64) else PAD,
      if |chunk| > 2 then Symbol(third % 64) else PAD ]
  }

  function Encode(bytes: seq<Byte>): string
    decreases |bytes|
  {
    if bytes == [] then ""
    else if |bytes| <= 3 then EncodeGroup(bytes)
    else EncodeGroup(bytes[..3]) + Encode(bytes[3..])
  }

  method WriteBase64(bytes: seq<Byte>) returns (output: string)
    ensures output == Encode(bytes)
  {
    output := "";
    var i := 0;
    while i < |bytes|
      invariant 0 <= i <= |bytes|
      invariant output + Encode(bytes[i..]) == Encode(bytes)
    {
      var end := if i + 3 < |bytes| then i + 3 else |bytes|;
      var rest := bytes[i..];
      assert bytes[i..end] == rest[..end - i] && bytes[end..] == rest[end - i..];
      assert end == |bytes| ==> rest == bytes[i..end];
      var group := EncodeGroup(bytes[i..end]);
      assert Encode(rest) == group + Encode(bytes[end..]);
      assert output + (group + Encode(bytes[end..])) == output + group + Encode(bytes[end..]);
      output := output + group;
      i := end;
    }
    assert bytes[i..] == [];
  }

  // Four symbols as one to three bytes. Padding is accepted where `last` says so, and the bits it leaves over must be
  // zero.
  function DecodeGroup(group: string, last: bool): Option<seq<Byte>>
    requires |group| == 4
  {
    var a, b, c, d := SymbolValue(group[0]), SymbolValue(group[1]), SymbolValue(group[2]), SymbolValue(group[3]);
    if a.None? || b.None? then None
    else if c.Some? && d.Some? then
      Some([a.value * 4 + b.value / 16, b.value % 16 * 16 + c.value / 4, c.value % 4 * 64 + d.value])
    else if !last || group[3] != PAD then None
    else if c.Some? then
      if c.value % 4 == 0 then Some([a.value * 4 + b.value / 16, b.value % 16 * 16 + c.value / 4]) else None
    else if group[2] == PAD && b.value % 16 == 0 then Some([a.value * 4 + b.value / 16])
    else None
  }

  function Decode(text: string): Option<seq<Byte>>
    decreases |text|
  {
    if text == "" then Some([])
    else if |text| < 4 then None
    else
      var group, rest := DecodeGroup(text[..4], |text| == 4), Decode(text[4..]);
      if group.None? || rest.None? then None else Some(group.value + rest.value)
  }

  // Three bytes cut into four values of six bits, and put together again.
  lemma SplitAndJoin(f: int, s: int, t: int)
    requires 0 <= f < 256 && 0 <= s < 256 && 0 <= t < 256
    ensures var b, c := f % 4 * 16 + s / 16, s % 16 * 4 + t / 64;
            && b / 16 == f % 4 && b % 16 == s / 16 && c / 4 == s % 16 && c % 4 == t / 64
            && f / 4 * 4 + b / 16 == f && b % 16 * 16 + c / 4 == s && c % 4 * 64 + t % 64 == t
  {
  }

  lemma JoinAndSplit(a: int, b: int, c: int, d: int)
    requires 0 <= a < 64 && 0 <= b < 64 && 0 <= c < 64 && 0 <= d < 64
    ensures var f, s, t := a * 4 + b / 16, b % 16 * 16 + c / 4, c % 4 * 64 + d;
            && f / 4 == a && f % 4 == b / 16 && s / 16 == b % 16 && s % 16 == c / 4 && t / 64 == c % 4 && t % 64 == d
            && f % 4 * 16 + s / 16 == b && s % 16 * 4 + t / 64 == c
  {
  }

  function ByteAt(chunk: seq<Byte>, i: nat): int {
    if i < |chunk| then chunk[i] as int else 0
  }

  lemma SymbolsOfGroup(chunk: seq<Byte>)
    requires 1 <= |chunk| <= 3
    ensures var group, f, s, t := EncodeGroup(chunk), ByteAt(chunk, 0), ByteAt(chunk, 1), ByteAt(chunk, 2);
            && SymbolValue(group[0]) == Some(f / 4)
            && SymbolValue(group[1]) == Some(f % 4 * 16 + s / 16)
            && (if |chunk| > 1 then SymbolValue(group[2]) == Some(s % 16 * 4 + t / 64) else group[2] == PAD)
            && (if |chunk| > 2 then SymbolValue(group[3]) == Some(t % 64) else group[3] == PAD)
  {
    var f, s, t := ByteAt(chunk, 0), ByteAt(chunk, 1), ByteAt(chunk, 2);
    SymbolsAreOneToOne(f / 4);
    SymbolsAreOneToOne(f % 4 * 16 + s / 16);
    SymbolsAreOneToOne(s % 16 * 4 + t / 64);
    SymbolsAreOneToOne(t % 64);
  }

  lemma GroupIsDecoded(chunk: seq<Byte>, last: bool)
    requires 1 <= |chunk| <= 3 && (|chunk| == 3 || last)
    ensures DecodeGroup(EncodeGroup(chunk), last) == Some(chunk)
  {
    SymbolsOfGroup(chunk);
    SplitAndJoin(ByteAt(chunk, 0), ByteAt(chunk, 1), ByteAt(chunk, 2));
    assert SymbolValue(PAD).None?;
    var decoded := DecodeGroup(EncodeGroup(chunk), last);
    assert decoded.Some? && |decoded.value| == |chunk|;
    assert decoded.value == chunk;
  }

  lemma GroupsBegun(n: nat)
    requires n > 3
    ensures (n + 2) / 3 == 1 + (n - 3 + 2) / 3
  {
  }

  lemma {:induction false} EncodedLength(bytes: seq<Byte>)
    ensures |Encode(bytes)| == 4 * ((|bytes| + 2) / 3)
    decreases |bytes|
  {
    if |bytes| > 3 {
      EncodedLength(bytes[3..]);
      GroupsBegun(|bytes|);
    }
  }

  /** Decoding undoes encoding, for all bytes. */
  lemma {:induction false} DecodeUndoesEncode(bytes: seq<Byte>)
    ensures Decode(Encode(bytes)) == Some(bytes)
    decreases |bytes|
  {
    if bytes != [] {
      var end := if |bytes| <= 3 then |bytes| else 3;
      var chunk, rest := bytes[..end], bytes[end..];
      var text := Encode(bytes);
      EncodedLength(rest);
      EncodeSplits(bytes);
      assert bytes == chunk + rest;
      assert text[..4] == EncodeGroup(chunk) && text[4..] == Encode(rest);
      GroupIsDecoded(chunk, |text| == 4);
      DecodeUndoesEncode(rest);
    }
  }

  // The bytes that four values join to are encoded as the symbols of those values.
  lemma JoinedIsEncoded(chunk: seq<Byte>, a: nat, b: nat, c: nat, d: nat)
    requires 1 <= |chunk| <= 3 && a < 64 && b < 64 && c < 64 && d < 64
    requires ByteAt(chunk, 0) == a * 4 + b / 16 && ByteAt(chunk, 1) == b % 16 * 16 + c / 4
    requires ByteAt(chunk, 2) == c % 4 * 64 + d
    ensures EncodeGroup(chunk) ==
            [Symbol(a), Symbol(b), if |chunk| > 1 then Symbol(c) else PAD, if |chunk| > 2 then Symbol(d) else PAD]
  {
    JoinAndSplit(a, b, c, d);
  }

  lemma SymbolOfValue(c: char)
    ensures SymbolValue(c).Some? ==> Symbol(SymbolValue(c).value) == c
  {
  }

  lemma GroupIsEncoded(group: string, last: bool)
    requires |group| == 4 && DecodeGroup(group, last).Some?
    ensures var chunk := DecodeGroup(group, last).value;
            1 <= |chunk| <= 3 && (|chunk| < 3 ==> last) && EncodeGroup(chunk) == group
  {
    var a, b, c, d := SymbolValue(group[0]), SymbolValue(group[1]), SymbolValue(group[2]), SymbolValue(group[3]);
    SymbolOfValue(group[0]);
    SymbolOfValue(group[1]);
    SymbolOfValue(group[2]);
    SymbolOfValue(group[3]);
    var c0, d0 := if c.Some? then c.value else 0, if c.Some? && d.Some? then d.value else 0;
    JoinedIsEncoded(DecodeGroup(group, last).value, a.value, b.value, c0, d0);
    assert group == [group[0], group[1], group[2], group[3]];
  }

  /** Encoding undoes decoding: a text is decoded exactly when it is the encoding of the result. */
  lemma {:induction false} EncodeUndoesDecode(text: string)
    requires Decode(text).Some?
    ensures Encode(Decode(text).value) == text
    decreases |text|
  {
    if text != "" {
      var group, rest := text[..4], text[4..];
      GroupIsEncoded(group, |text| == 4);
      EncodeUndoesDecode(rest);
      var chunk, more := DecodeGroup(group, |text| == 4).value, Decode(rest).value;
      assert text == group + rest;
      if |text| == 4 {
        assert chunk + more == chunk;
      } else {
        assert more != [];
        assert (chunk + more)[..3] == chunk && (chunk + more)[3..] == more;
      }
    }
  }

  lemma PadsOfGroup(chunk: seq<Byte>, k: nat)
    requires 1 <= |chunk| <= 3 && k < 4
    ensures EncodeGroup(chunk)[k] == PAD <==> k > |chunk|
  {
    SymbolsOfGroup(chunk);
    assert SymbolValue(PAD).None?;
  }

  lemma EncodeSplits(bytes: seq<Byte>)
    requires bytes != []
    ensures var end := if |bytes| <= 3 then |bytes| else 3;
            Encode(bytes) == EncodeGroup(bytes[..end]) + Encode(bytes[end..])
  {
    if |bytes| <= 3 { assert bytes[..|bytes|] == bytes && bytes[|bytes|..] == []; }
  }

  /** Padding fills up the last group, and stands nowhere else. */
  lemma {:induction false} PadsOnlyTheLastGroup(bytes: seq<Byte>, k: nat)
    requires k < |Encode(bytes)|
    ensures Encode(bytes)[k] == PAD <==> k >= |bytes| + (|bytes| + 2) / 3
    decreases |bytes|
  {
    EncodedLength(bytes);
    EncodeSplits(bytes);
    var end := if |bytes| <= 3 then |bytes| else 3;
    var chunk, rest := bytes[..end], bytes[end..];
    if k < 4 {
      PadsOfGroup(chunk, k);
    } else {
      PadsOnlyTheLastGroup(rest, k - 4);
    }
  }
}
