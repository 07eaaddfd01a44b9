/** A captured output, cut into pieces of a fixed number of bytes that are decoded one by one. */
module OutputPieces {
  import opened Bytes
  import opened Text
  import opened Utf8
  import opened Redaction
  import opened RedactionSafety
  import opened StreamingRedaction
  import opened StreamGuarantees
  import opened StreamCounterexamples
  import opened ApartValues
  import opened StreamApartValues

  const EMIT_BYTES: nat := 8192

  // What a lossy decoder puts in place of bytes that are no character.
  const REPLACEMENT: char := '\U{FFFD}'

  function DecodedPieces(decode: seq<Byte> -> string, bytes: seq<Byte>): seq<string>
    decreases |bytes|
  {
    if bytes == [] then []
    else if |bytes| <= EMIT_BYTES then [decode(bytes)]
    else [decode(bytes[..EMIT_BYTES])] + DecodedPieces(decode, bytes[EMIT_BYTES..])
  }

  // ---------------------------------------------------------------------------------------------
  // The texts that are sent
  // ---------------------------------------------------------------------------------------------

  function UnlessEmpty(text: string): seq<string> {
    if text == "" then [] else [text]
  }

  // The texts that the pushes and the finish publish, without the empty ones.
  function Texts(patterns: Patterns, st: StreamState, chunks: seq<string>): seq<string>
    decreases |chunks|
  {
    if chunks == [] then UnlessEmpty(Finish(patterns, st))
    else
      var (st', output) := Push(patterns, st, chunks[0]);
      UnlessEmpty(output) + Texts(patterns, st', chunks[1..])
  }

  function FirstOf(texts: seq<string>, n: nat): seq<string> {
    if |texts| <= n then texts else texts[..n]
  }

  lemma {:induction false} ConcatOfConcat(a: seq<string>, b: seq<string>)
    ensures Concat(a + b) == Concat(a) + Concat(b)
  {
    if a == [] {
      assert a + b == b;
    } else {
      assert (a + b)[1..] == a[1..] + b;
      ConcatOfConcat(a[1..], b);
    }
  }

  lemma {:induction false} TextsMakeTheStream(patterns: Patterns, st: StreamState, chunks: seq<string>)
    ensures Concat(Texts(patterns, st, chunks)) == Published(patterns, st, chunks)
    ensures "" !in Texts(patterns, st, chunks)
    decreases |chunks|
  {
    if chunks == [] {
      OneText(Finish(patterns, st));
    } else {
      var (st', output) := Push(patterns, st, chunks[0]);
      TextsMakeTheStream(patterns, st', chunks[1..]);
      ConcatOfConcat(UnlessEmpty(output), Texts(patterns, st', chunks[1..]));
      OneText(output);
    }
  }

  lemma OneText(text: string)
    ensures Concat(UnlessEmpty(text)) == text
  {
    assert Concat([text]) == text + Concat([]);
  }

  lemma MoveOneText(sent: seq<string>, text: string, later: seq<string>)
    ensures sent + (UnlessEmpty(text) + later) == (sent + UnlessEmpty(text)) + later
  {
  }

  lemma AddOneText(sent: seq<string>, text: string)
    ensures Concat(sent + UnlessEmpty(text)) == Concat(sent) + text
  {
    ConcatOfConcat(sent, UnlessEmpty(text));
    OneText(text);
  }

  // With `room` texts sent and one more to come, the first ones are those sent.
  lemma FirstTextsAreSent(all: seq<string>, sent: seq<string>, text: string, later: seq<string>, room: nat)
    requires all == sent + (UnlessEmpty(text) + later) && text != "" && |sent| == room
    ensures |all| > room && FirstOf(all, room) == sent
  {
    assert all[..|sent|] == sent;
  }

  lemma FirstTextsBegin(all: seq<string>, room: nat)
    ensures Concat(FirstOf(all, room)) <= Concat(all)
    ensures |all| <= room ==> FirstOf(all, room) == all
  {
    if |all| > room {
      assert all == all[..room] + all[room..];
      ConcatOfConcat(all[..room], all[room..]);
    }
  }

  // Decoding the pieces one by one is decoding the whole.
  predicate PiecesAgree(decode: seq<Byte> -> string, bytes: seq<Byte>) {
    Concat(DecodedPieces(decode, bytes)) == decode(bytes)
  }

  // No piece begins within a character.
  predicate NoCharacterIsCut(bytes: seq<Byte>) {
    forall n :: 0 < n < |bytes| && n % EMIT_BYTES == 0 ==> !IsContinuation(bytes[n])
  }

  // A decoder begins anew at every byte that begins a character.
  ghost predicate BeginsAnew(decode: seq<Byte> -> string) {
    decode([]) == "" && forall a, b :: b != [] && !IsContinuation(b[0]) ==> decode(a + b) == decode(a) + decode(b)
  }

  lemma LaterPiecesBeginCharacters(bytes: seq<Byte>)
    requires |bytes| > EMIT_BYTES && NoCharacterIsCut(bytes)
    ensures NoCharacterIsCut(bytes[EMIT_BYTES..]) && !IsContinuation(bytes[EMIT_BYTES])
  {
    var rest := bytes[EMIT_BYTES..];
    forall n | 0 < n < |rest| && n % EMIT_BYTES == 0 ensures !IsContinuation(rest[n]) {
      assert (n + EMIT_BYTES) % EMIT_BYTES == 0 && rest[n] == bytes[n + EMIT_BYTES];
    }
  }

  /** The pieces decode as the whole does when no byte at a multiple of the piece size continues a character. */
  lemma {:induction false} PiecesAgreeBetweenCharacters(decode: seq<Byte> -> string, bytes: seq<Byte>)
    requires BeginsAnew(decode) && NoCharacterIsCut(bytes)
    ensures PiecesAgree(decode, bytes)
    decreases |bytes|
  {
    if |bytes| > EMIT_BYTES {
      var front, rest := bytes[..EMIT_BYTES], bytes[EMIT_BYTES..];
      LaterPiecesBeginCharacters(bytes);
      PiecesAgreeBetweenCharacters(decode, rest);
      assert bytes == front + rest;
      assert DecodedPieces(decode, bytes)[1..] == DecodedPieces(decode, rest);
    } else if bytes != [] {
      assert Concat([decode(bytes)]) == decode(bytes) + Concat([]);
    }
  }

  // ---------------------------------------------------------------------------------------------
  // A value that is cut
  // ---------------------------------------------------------------------------------------------

  lemma ShortTextFits(patterns: Patterns, text: string)
    requires ByteLength(text) + 3 + Retained(patterns) <= MAX_PENDING_TOKEN_BYTES
    ensures WordsFit(patterns, text)
  {
    forall i, j | 0 <= i <= j <= |text| && WhitespaceFree(text[i..j]) ensures WordFits(patterns, text[i..j]) {
      ByteLengthSplit(text, j);
      ByteLengthSplit(text[..j], i);
      assert text[..j][i..] == text[i..j];
    }
  }

  lemma TwoPieces(decode: seq<Byte> -> string, bytes: seq<Byte>)
    requires EMIT_BYTES < |bytes| <= 2 * EMIT_BYTES
    ensures DecodedPieces(decode, bytes) == [decode(bytes[..EMIT_BYTES]), decode(bytes[EMIT_BYTES..])]
    ensures Concat(DecodedPieces(decode, bytes)) == decode(bytes[..EMIT_BYTES]) + decode(bytes[EMIT_BYTES..])
  {
    var a, b := decode(bytes[..EMIT_BYTES]), decode(bytes[EMIT_BYTES..]);
    assert DecodedPieces(decode, bytes[EMIT_BYTES..]) == [b];
    assert [a, b][1..] == [b] && Concat([b]) == b + Concat([]);
  }

  lemma CharacterInOccurrence(q: string, s: string, i: nat, j: nat)
    requires OccursAt(q, s, i) && i <= j < i + |q|
    ensures j < |s| && s[j] in q
  {
    assert q[j - i] == s[i..][j - i] == s[j];
  }

  // A value occurs on no side of characters it does not hold, and so not in the whole.
  lemma NoneAround(q: string, before: string, lost: string, behind: string)
    requires q != "" && lost != "" && !Occurs(q, before) && |behind| < |q| && forall c :: c in lost ==> c !in q
    ensures !Occurs(q, before + lost + behind)
  {
    var s, n := before + lost + behind, |before|;
    assert s[0..0 + n] == before;
    assert forall j :: n <= j < n + |lost| ==> s[j] == lost[j - n];
    forall i: nat | i <= |s| ensures !OccursAt(q, s, i) {
      if OccursAt(q, s, i) {
        if i + |q| <= n {
          OccursAtWithin(q, s, i, 0, before);
        } else if i < n + |lost| {
          CharacterInOccurrence(q, s, i, if i < n then n else i);
        }
      }
    }
  }

  lemma PiecesAroundCharacter(decode: seq<Byte> -> string, bytes: seq<Byte>, a: string, v: string)
    requires EMIT_BYTES < |bytes| <= 2 * EMIT_BYTES
    requires decode(bytes[..EMIT_BYTES]) == a + [REPLACEMENT] && decode(bytes[EMIT_BYTES..]) == [REPLACEMENT] + v
    ensures Concat(DecodedPieces(decode, bytes)) == a + [REPLACEMENT, REPLACEMENT] + v
  {
    TwoPieces(decode, bytes);
    assert [REPLACEMENT, REPLACEMENT] == [REPLACEMENT] + [REPLACEMENT];
  }

  lemma LostCharacterStreams(patterns: Patterns, q: string, a: string, v: string, text: string, pieces: seq<string>)
    requires patterns == [q] && q != "" && WhitespaceFree(q) && REPLACEMENT !in q && !Occurs(q, a) && |v| < |q|
    requires text == a + [REPLACEMENT, REPLACEMENT] + v && '=' !in text && Concat(pieces) == text
    requires ByteLength(text) + 3 + Retained(patterns) <= MAX_PENDING_TOKEN_BYTES
    ensures Stream(patterns, pieces) == text
  {
    ShortTextFits(patterns, text);
    StreamEqualsWhole(patterns, pieces);
    NoneAround(q, a, [REPLACEMENT, REPLACEMENT], v);
    ReplaceFindsNothing(text, q);
    OneValueRedacts(patterns, q, text);
    NoAssignmentIsUntouched(text);
  }

  /**
   * A value with a character cut in two: all of it but that character is published, although the whole would hide it.
   */
  lemma CutValueIsPublished(decode: seq<Byte> -> string, bytes: seq<Byte>, before: string, u: string, c: char,
                            v: string)
    requires EMIT_BYTES < |bytes| <= 2 * EMIT_BYTES && decode(bytes) == before + (u + [c] + v)
    requires decode(bytes[..EMIT_BYTES]) == before + u + [REPLACEMENT]
    requires decode(bytes[EMIT_BYTES..]) == [REPLACEMENT] + v
    requires var q := u + [c] + v;
             && Plain(q) && WhitespaceFree(q) && '=' !in q && REPLACEMENT !in q
             && '=' !in before && !Occurs(q, before + u)
             && ByteLength(before + u + [REPLACEMENT, REPLACEMENT] + v) + 3 + Retained([q]) <= MAX_PENDING_TOKEN_BYTES
    ensures var q := u + [c] + v;
            && Stream([q], DecodedPieces(decode, bytes)) == before + u + [REPLACEMENT, REPLACEMENT] + v
            && !Occurs(q, RedactText([q], decode(bytes)))
  {
    var q, text := u + [c] + v, before + u + [REPLACEMENT, REPLACEMENT] + v;
    PiecesAroundCharacter(decode, bytes, before + u, v);
    NoAssignmentInParts(before, u, c, v);
    LostCharacterStreams([q], q, before + u, v, text, DecodedPieces(decode, bytes));
    NoValueSurvives([q], decode(bytes), q);
  }

  lemma NoAssignmentInParts(before: string, u: string, c: char, v: string)
    requires '=' !in u + [c] + v && '=' !in before
    ensures '=' !in before + u + [REPLACEMENT, REPLACEMENT] + v
  {
    var q := u + [c] + v;
    assert forall d :: d in u || d in v ==> d in q;
  }
}
