/** The writer of the bridge stream, and the escaping of the failures it reports. */
module ModelBridge {
  import opened Wrappers

  function Digit(d: nat): char
    requires d < 10
  {
    "0123456789"[d]
  }

  function Decimal(n: nat): string {
    if n < 10 then [Digit(n)] else Decimal(n / 10) + [Digit(n % 10)]
  }

  // The number that decimal digits stand for, if they are digits.
  function ReadDecimal(text: string): (r: Option<nat>) {
    if text == "" then Some(0)
    else
      var front, last := ReadDecimal(text[..|text| - 1]), text[|text| - 1];
      if front.None? || !('0' <= last <= '9') then None else Some(front.value * 10 + (last as int - '0' as int))
  }

  lemma DigitIsRead(d: nat)
    requires d < 10
    ensures '0' <= Digit(d) <= '9' && Digit(d) as int - '0' as int == d
  {
  }

  /** A number is written in decimal digits that stand for it, without a zero in front unless it is zero. */
  lemma {:induction false} DecimalIsReadBack(n: nat)
    ensures ReadDecimal(Decimal(n)) == Some(n)
    ensures Decimal(n) != "" && (n > 0 ==> Decimal(n)[0] != '0')
  {
    DigitIsRead(n % 10);
    if n < 10 {
      assert Decimal(n)[..0] == "";
      DigitIsRead(n);
    } else {
      DecimalIsReadBack(n / 10);
      assert Decimal(n)[..|Decimal(n)| - 1] == Decimal(n / 10);
    }
  }

  function JoinLines(records: seq<string>): string {
    if records == [] then "" else JoinLines(records[..|records| - 1]) + records[|records| - 1] + "\n"
  }

  const RECORD_START: string := "{\"protocolVersion\":1,\"type\":\""
  const COMPLETION_HEAD: string := "complete\",\"durationMs\":0,\"recordCount\":"
  const COMPLETION_HASH: string := ",\"modelHash\":\""
  const FAILURE_HEAD: string := "error\",\"code\":\""
  const FAILURE_MESSAGE: string := "\",\"message\":\""
  const RECORD_END: string := "\"}"

  function CompletionText(recordCount: nat, modelHash: string): string {
    RECORD_START + COMPLETION_HEAD + Decimal(recordCount) + COMPLETION_HASH + modelHash + RECORD_END
  }

  /** The completion as a JSON object, spelled out but for the digits of the count and the hash. */
  lemma CompletionIsWritten(recordCount: nat, modelHash: string) returns (digits: string)
    ensures CompletionText(recordCount, modelHash) ==
            "{\"protocolVersion\":1,\"type\":\"" + "complete\",\"durationMs\":0,\"recordCount\":" + digits
            + ",\"modelHash\":\"" + modelHash + "\"}"
    ensures ReadDecimal(digits) == Some(recordCount)
  {
    digits := Decimal(recordCount);
    DecimalIsReadBack(recordCount);
  }

  function WrittenModel(sha256: string -> string, records: seq<string>): string {
    JoinLines(records) + CompletionText(|records|, sha256(JoinLines(records))) + "\n"
  }

  /** The text of the model file; the hash is taken of everything before the completion. */
  method WriteModel(sha256: string -> string, records: seq<string>) returns (stream: string)
    ensures stream == WrittenModel(sha256, records)
  {
    stream := "";
    for i := 0 to |records|
      invariant stream == JoinLines(records[..i])
    {
      assert records[..i + 1][..i] == records[..i];
      stream := stream + records[i] + "\n";
    }
    assert records[..|records|] == records;
    var modelHash := sha256(stream);
    stream := stream + CompletionText(|records|, modelHash) + "\n";
  }

  // ---------------------------------------------------------------------------------------------
  // Escaping
  // ---------------------------------------------------------------------------------------------

  function ReplaceChar(s: string, c: char, replacement: string): string {
    if s == "" then "" else (if s[0] == c then replacement else [s[0]]) + ReplaceChar(s[1..], c, replacement)
  }

  // Four replacements over the whole text, one after the other.
  function Escape(s: string): string {
    ReplaceChar(ReplaceChar(ReplaceChar(ReplaceChar(s, '\\', "\\\\"), '\"', "\\\""), '\r', "\\r"), '\n', "\\n")
  }

  function FailureText(code: string, message: string): string {
    RECORD_START + FAILURE_HEAD + code + FAILURE_MESSAGE + message + RECORD_END
  }

  /** The error record as a JSON object, spelled out but for the code and the message. */
  lemma FailureIsWritten(code: string, message: string)
    ensures FailureText(code, message) ==
            "{\"protocolVersion\":1,\"type\":\"error\",\"code\":\"" + code
            + "\",\"message\":\"" + message + "\"}"
  {
    assert RECORD_START + FAILURE_HEAD == "{\"protocolVersion\":1,\"type\":\"error\",\"code\":\"";
  }

  method WriteFailure(sha256: string -> string, code: string, message: string) returns (stream: string)
    ensures stream == WrittenModel(sha256, [FailureText(Escape(code), Escape(message))])
  {
    stream := WriteModel(sha256, [FailureText(Escape(code), Escape(message))]);
  }

  function EscapeChar(c: char): string {
    if c == '\\' then "\\\\" else if c == '\"' then "\\\""
    else if c == '\r' then "\\r" else if c == '\n' then "\\n" else [c]
  }

  function EscapeEach(s: string): string {
    if s == "" then "" else EscapeChar(s[0]) + EscapeEach(s[1..])
  }

  lemma {:induction false} ReplaceConcat(a: string, b: string, c: char, replacement: string)
    ensures ReplaceChar(a + b, c, replacement) == ReplaceChar(a, c, replacement) + ReplaceChar(b, c, replacement)
  {
    if a == "" {
      assert a + b == b;
    } else {
      assert (a + b)[1..] == a[1..] + b;
      ReplaceConcat(a[1..], b, c, replacement);
    }
  }

  lemma EscapeConcat(a: string, b: string)
    ensures Escape(a + b) == Escape(a) + Escape(b)
  {
    ReplaceConcat(a, b, '\\', "\\\\");
    var a1, b1 := ReplaceChar(a, '\\', "\\\\"), ReplaceChar(b, '\\', "\\\\");
    ReplaceConcat(a1, b1, '\"', "\\\"");
    var a2, b2 := ReplaceChar(a1, '\"', "\\\""), ReplaceChar(b1, '\"', "\\\"");
    ReplaceConcat(a2, b2, '\r', "\\r");
    ReplaceConcat(ReplaceChar(a2, '\r', "\\r"), ReplaceChar(b2, '\r', "\\r"), '\n', "\\n");
  }

  lemma ReplaceOne(x: char, c: char, replacement: string)
    ensures ReplaceChar([x], c, replacement) == if x == c then replacement else [x]
  {
    assert [x][1..] == "";
    assert ReplaceChar("", c, replacement) == "";
  }

  lemma ReplaceTwo(x: char, y: char, c: char, replacement: string)
    requires x != c && y != c
    ensures ReplaceChar([x, y], c, replacement) == [x, y]
  {
    assert [x, y][1..] == [y];
    ReplaceOne(y, c, replacement);
  }

  lemma EscapeOne(c: char)
    ensures Escape([c]) == EscapeChar(c)
  {
    ReplaceOne(c, '\\', "\\\\");
    if c == '\\' {
      ReplaceTwo('\\', '\\', '\"', "\\\"");
      ReplaceTwo('\\', '\\', '\r', "\\r");
      ReplaceTwo('\\', '\\', '\n', "\\n");
    } else {
      ReplaceOne(c, '\"', "\\\"");
      if c == '\"' {
        ReplaceTwo('\\', '\"', '\r', "\\r");
        ReplaceTwo('\\', '\"', '\n', "\\n");
      } else {
        ReplaceOne(c, '\r', "\\r");
        if c == '\r' {
          ReplaceTwo('\\', 'r', '\n', "\\n");
        } else {
          ReplaceOne(c, '\n', "\\n");
        }
      }
    }
  }

  /** The four replacements together treat each character on its own. */
  lemma {:induction false} EscapeIsCharByChar(s: string)
    ensures Escape(s) == EscapeEach(s)
  {
    if s != "" {
      assert s == [s[0]] + s[1..];
      EscapeConcat([s[0]], s[1..]);
      EscapeOne(s[0]);
      EscapeIsCharByChar(s[1..]);
    }
  }

  lemma {:induction false} EscapedHasNoNewline(s: string)
    ensures '\n' !in EscapeEach(s) && '\r' !in EscapeEach(s)
  {
    if s != "" { EscapedHasNoNewline(s[1..]); }
  }

  // ---------------------------------------------------------------------------------------------
  // Reading it back
  // ---------------------------------------------------------------------------------------------

  // What a two-character escape stands for in a JSON string (section 7 of RFC 8259).
  function Unescaped(c: char): Option<char> {
    if c == '\"' || c == '\\' || c == '/' then Some(c)
    else if c == 'n' then Some('\n')
    else if c == 'r' then Some('\r')
    else if c == 't' then Some('\t')
    else if c == 'b' then Some(8 as char)
    else if c == 'f' then Some(12 as char)
    else None
  }

  predicate IsControl(c: char) {
    c as int < 0x20
  }

  // The text between the quotes of a JSON string, without four-digit escapes; a bare control character is an error.
  function ReadJsonText(t: string): Option<string> {
    if t == "" then Some("")
    else if t[0] == '\"' || IsControl(t[0]) then None
    else if t[0] == '\\' then
      if |t| == 1 || Unescaped(t[1]).None? then None
      else
        var rest := ReadJsonText(t[2..]);
        if rest.None? then None else Some([Unescaped(t[1]).value] + rest.value)
    else
      var rest := ReadJsonText(t[1..]);
      if rest.None? then None else Some([t[0]] + rest.value)
  }

  // No control characters but the two that are escaped.
  predicate IsWritable(s: string) {
    forall i :: 0 <= i < |s| && IsControl(s[i]) ==> s[i] == '\r' || s[i] == '\n'
  }

  lemma ReadEscapedChar(c: char, rest: string)
    ensures ReadJsonText(EscapeChar(c) + rest) ==
            if (IsControl(c) && c != '\r' && c != '\n') || ReadJsonText(rest).None? then None
            else Some([c] + ReadJsonText(rest).value)
  {
    var t := EscapeChar(c) + rest;
    if |EscapeChar(c)| == 2 {
      assert t[2..] == rest;
    } else {
      assert t[1..] == rest;
    }
  }

  /** A JSON reader gets the text back exactly when it has no control characters other than CR and LF. */
  lemma {:induction false} EscapeIsReadBackExactly(s: string)
    ensures ReadJsonText(Escape(s)) == if IsWritable(s) then Some(s) else None
  {
    EscapeIsCharByChar(s);
    if s != "" {
      EscapeIsCharByChar(s[1..]);
      EscapeIsReadBackExactly(s[1..]);
      ReadEscapedChar(s[0], EscapeEach(s[1..]));
      assert s == [s[0]] + s[1..];
      WritableSplits(s[0], s[1..]);
    }
  }

  lemma WritableSplits(c: char, rest: string)
    ensures IsWritable([c] + rest) <==> (IsControl(c) ==> c == '\r' || c == '\n') && IsWritable(rest)
  {
    var s := [c] + rest;
    if IsWritable(s) {
      assert IsControl(s[0]) ==> s[0] == '\r' || s[0] == '\n';
      forall i | 0 <= i < |rest| && IsControl(rest[i]) ensures rest[i] == '\r' || rest[i] == '\n' {
        assert rest[i] == s[i + 1];
      }
    }
  }
}
