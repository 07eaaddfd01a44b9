/** The redactor and its streaming form, as the objects whose fields they update. */
module SecretRedactors {
  import opened Wrappers
  import opened Bytes
  import opened Text
  import R = Redaction
  import S = StreamingRedaction
  import Guarantees = StreamGuarantees
  import Safety = RedactionSafety
  import Apart = StreamApartValues
  import Hidden = StreamHiddenValues
  import opened OutputPieces

  class SecretRedactor {
    var patterns: seq<string>

    ghost predicate Valid()
      reads this
    {
      "" !in patterns && Safety.LongestFirst(patterns)
    }

    constructor ()
      ensures Valid() && patterns == []
    {
      patterns := [];
    }

    // `value` is None when the sensitive value is not valid Unicode.
    method Register(value: Option<string>)
      requires Valid()
      modifies this
      ensures Valid()
      ensures if value.None? || value.value == "" || value.value in old(patterns)
              then patterns == old(patterns)
              else multiset(patterns) == multiset(old(patterns)) + multiset{value.value}
    {
      if value.None? || value.value == "" || value.value in patterns {
        return;
      }
      var v, i := value.value, 0;
      while i < |patterns| && ByteLength(patterns[i]) >= ByteLength(v)
        invariant 0 <= i <= |patterns|
        invariant forall j :: 0 <= j < i ==> ByteLength(patterns[j]) >= ByteLength(v)
      {
        i := i + 1;
      }
      InsertionKeepsOrder(patterns, i, v);
      patterns := patterns[..i] + [v] + patterns[i..];
    }

    static lemma InsertionKeepsOrder(patterns: seq<string>, i: nat, v: string)
      requires i <= |patterns| && Safety.LongestFirst(patterns) && v !in patterns && v != "" && "" !in patterns
      requires forall j :: 0 <= j < i ==> ByteLength(patterns[j]) >= ByteLength(v)
      requires i < |patterns| ==> ByteLength(patterns[i]) < ByteLength(v)
      ensures var inserted := patterns[..i] + [v] + patterns[i..];
              && Safety.LongestFirst(inserted) && "" !in inserted
              && multiset(inserted) == multiset(patterns) + multiset{v}
    {
      InsertionAddsOne(patterns, i, v);
      var inserted := patterns[..i] + [v] + patterns[i..];
      forall a, b | 0 <= a < b < |inserted|
        ensures ByteLength(inserted[a]) >= ByteLength(inserted[b]) && inserted[a] != inserted[b]
      {
        InsertedPairIsOrdered(patterns, i, v, a, b);
      }
    }

    static lemma InsertionAddsOne<T>(s: seq<T>, i: nat, v: T)
      requires i <= |s|
      ensures var inserted := s[..i] + [v] + s[i..];
              multiset(inserted) == multiset(s) + multiset{v} && (forall x :: x in inserted ==> x in s || x == v)
    {
      assert s == s[..i] + s[i..];
    }

    static lemma InsertedPairIsOrdered(patterns: seq<string>, i: nat, v: string, a: nat, b: nat)
      requires i <= |patterns| && Safety.LongestFirst(patterns) && v !in patterns && a < b <= |patterns|
      requires forall j :: 0 <= j < i ==> ByteLength(patterns[j]) >= ByteLength(v)
      requires i < |patterns| ==> ByteLength(patterns[i]) < ByteLength(v)
      ensures var inserted := patterns[..i] + [v] + patterns[i..];
              ByteLength(inserted[a]) >= ByteLength(inserted[b]) && inserted[a] != inserted[b]
    {
      var x := if a < i then patterns[a] else if a == i then v else patterns[a - 1];
      var y := if b < i then patterns[b] else if b == i then v else patterns[b - 1];
      if a <= i < b { assert i < b - 1 ==> ByteLength(patterns[i]) >= ByteLength(patterns[b - 1]); }
      assert ByteLength(x) >= ByteLength(y) && x != y;
    }

    method RedactText(input: string) returns (redacted: string)
      requires Valid()
      ensures redacted == R.RedactText(patterns, input)
    {
      redacted := input;
      for i := 0 to |patterns|
        invariant R.ReplaceAll(redacted, patterns[i..]) == R.ReplaceAll(input, patterns)
      {
        redacted := R.Replace(redacted, patterns[i]);
        assert patterns[i..][1..] == patterns[i + 1..];
      }
      redacted := R.RedactAssignments(redacted);
    }

    method MaximumPatternBytes() returns (n: nat)
      requires Valid()
      ensures n == if patterns == [] then 1 else S.LongestBytes(patterns)
      ensures n >= 1 && n - 1 == S.Retained(patterns)
    {
      n := 1;
      for i := 0 to |patterns|
        invariant forall j :: 0 <= j < i ==> ByteLength(patterns[j]) <= n
        invariant if i == 0 then n == 1 else exists j :: 0 <= j < i && ByteLength(patterns[j]) == n
      {
        assert patterns[i] != "";
        if ByteLength(patterns[i]) > n || i == 0 { n := ByteLength(patterns[i]); }
      }
      S.LongestBytesIsMaximum(patterns);
    }
  }

  class StreamingSecretRedactor {
    const redactor: SecretRedactor
    var pending: string
    var discardingOversizedToken: bool

    ghost predicate Valid()
      reads this, redactor
    {
      redactor.Valid() && Guarantees.Reachable(S.Retained(redactor.patterns), State())
    }

    function State(): S.StreamState
      reads this
    {
      S.StreamState(pending, discardingOversizedToken)
    }

    constructor (redactor: SecretRedactor)
      requires redactor.Valid()
      ensures Valid() && this.redactor == redactor && State() == S.INITIAL
    {
      this.redactor := redactor;
      pending := "";
      discardingOversizedToken := false;
    }

    // Publishes up to a cut that no match straddles, and holds the rest back.
    method Push(chunk: string) returns (output: string)
      requires Valid()
      modifies this
      ensures Valid()
      ensures (State(), output) == S.Push(redactor.patterns, old(State()), chunk)
      ensures Guarantees.Bounded(S.Retained(redactor.patterns), State(), chunk)
      decreases |chunk|
    {
      Guarantees.PushSettles(redactor.patterns, State(), chunk);
      if discardingOversizedToken {
        var at := S.FirstWhitespace(chunk);
        if at.None? {
          return "";
        }
        discardingOversizedToken := false;
        var rest := Push(chunk[at.value + 1..]);
        return [chunk[at.value]] + rest;
      }
      pending := pending + chunk;
      output := Publish();
    }

    method Publish() returns (output: string)
      requires redactor.Valid() && !discardingOversizedToken
      modifies this
      ensures (State(), output) == S.Publish(redactor.patterns, old(pending))
    {
      var longest := redactor.MaximumPatternBytes();
      var retained := longest - 1;
      if ByteLength(pending) <= retained {
        return "";
      }
      var found := S.LastCut(pending, ByteLength(pending) - retained, |pending|);
      if found.None? {
        if ByteLength(pending) > S.MAX_PENDING_TOKEN_BYTES {
          pending := "";
          discardingOversizedToken := true;
          return R.REDACTED;
        }
        return "";
      }
      var boundary := MoveOffMatches(redactor.patterns, pending, found.value);
      var prefix := pending[..boundary];
      pending := pending[boundary..];
      output := redactor.RedactText(prefix);
    }

    // Moves the boundary behind every match that straddles it, until none does.
    static method MoveOffMatches(patterns: R.Patterns, text: string, start: nat) returns (boundary: nat)
      requires start <= |text|
      ensures boundary == S.NextCleanCut(patterns, text, start)
    {
      boundary := start;
      while true
        invariant start <= boundary <= |text|
        invariant S.NextCleanCut(patterns, text, boundary) == S.NextCleanCut(patterns, text, start)
        decreases |text| - boundary, 1
      {
        var previous := boundary;
        for i := 0 to |patterns|
          invariant previous <= boundary <= |text|
          invariant S.NextCleanCut(patterns, text, boundary) == S.NextCleanCut(patterns, text, start)
          invariant boundary == previous ==> forall j :: 0 <= j < i ==> S.CleanFrom(text, patterns[j], 0, boundary)
        {
          boundary := MoveOffPattern(patterns, text, patterns[i], boundary);
        }
        if boundary == previous {
          assert S.CleanCut(patterns, text, boundary);
          break;
        }
      }
    }

    static method MoveOffPattern(ghost patterns: R.Patterns, text: string, pattern: string, start: nat)
      returns (boundary: nat)
      requires pattern in patterns && start <= |text|
      ensures start <= boundary <= |text|
      ensures S.NextCleanCut(patterns, text, boundary) == S.NextCleanCut(patterns, text, start)
      ensures boundary == start ==> S.CleanFrom(text, pattern, 0, boundary)
    {
      boundary := start;
      var matches := S.MatchesFrom(text, pattern, 0);
      for j := 0 to |matches|
        invariant start <= boundary <= |text|
        invariant S.NextCleanCut(patterns, text, boundary) == S.NextCleanCut(patterns, text, start)
        invariant boundary == start ==> forall k :: 0 <= k < j ==> !S.Straddles(pattern, matches[k], boundary)
      {
        var end := matches[j] + |pattern|;
        S.MatchesAreOccurrences(text, pattern, 0, matches[j]);
        if matches[j] < boundary && end > boundary {
          S.SkipStraddlingMatch(patterns, text, pattern, matches[j], boundary);
          boundary := end;
        }
      }
    }

    method Finish() returns (output: string)
      requires Valid()
      modifies this
      ensures output == S.Finish(redactor.patterns, old(State()))
      ensures pending == (if old(discardingOversizedToken) then old(pending) else "")
      ensures discardingOversizedToken == old(discardingOversizedToken)
    {
      if discardingOversizedToken {
        return "";
      }
      output := redactor.RedactText(pending);
      pending := "";
    }
  }

  // A value that no stream publishes, whatever it drops.
  predicate MustBeHidden(patterns: R.Patterns, group: set<string>, q: string) {
    q in patterns && Safety.Plain(q) && !Apart.ShowsBehindDrop(q) && Hidden.Separates(patterns, group, q)
  }

  /**
   * Sends one captured output through a streaming redactor, piece by piece; the channel takes `room` texts before it
   * closes.
   */
  method EmitOutput(redactor: SecretRedactor, decode: seq<Byte> -> string, value: seq<Byte>, room: nat)
    returns (sent: string, closed: bool)
    requires redactor.Valid()
    ensures var texts := Texts(redactor.patterns, S.INITIAL, DecodedPieces(decode, value));
            sent == Concat(FirstOf(texts, room)) && (closed <==> |texts| > room)
    ensures closed ==> sent <= Guarantees.Stream(redactor.patterns, DecodedPieces(decode, value))
    ensures !closed ==> sent == Guarantees.Stream(redactor.patterns, DecodedPieces(decode, value))
    ensures (&& !closed && R.AllWhitespaceFree(redactor.patterns)
             && Guarantees.WordsFit(redactor.patterns, decode(value))
             && (PiecesAgree(decode, value) || (BeginsAnew(decode) && NoCharacterIsCut(value)))) ==>
              sent == R.RedactText(redactor.patterns, decode(value))
    ensures forall q, group :: MustBeHidden(redactor.patterns, group, q) ==> !Occurs(q, sent)
  {
    sent, closed := SendPieces(redactor, decode, value, room);
    var patterns, pieces := redactor.patterns, DecodedPieces(decode, value);
    TextsMakeTheStream(patterns, S.INITIAL, pieces);
    FirstTextsBegin(Texts(patterns, S.INITIAL, pieces), room);
    SentHidesValues(patterns, pieces);
    if BeginsAnew(decode) && NoCharacterIsCut(value) { PiecesAgreeBetweenCharacters(decode, value); }
    if R.AllWhitespaceFree(patterns) && Guarantees.WordsFit(patterns, Concat(pieces)) {
      Guarantees.StreamEqualsWhole(patterns, pieces);
    }
  }

  // The loop over the pieces; a full channel closes at the next text that is not empty.
  method SendPieces(redactor: SecretRedactor, decode: seq<Byte> -> string, value: seq<Byte>, room: nat)
    returns (sent: string, closed: bool)
    requires redactor.Valid()
    ensures var texts := Texts(redactor.patterns, S.INITIAL, DecodedPieces(decode, value));
            sent == Concat(FirstOf(texts, room)) && (closed <==> |texts| > room)
  {
    var stream := new StreamingSecretRedactor(redactor);
    ghost var all: seq<string> := Texts(redactor.patterns, S.INITIAL, DecodedPieces(decode, value));
    ghost var done: seq<string> := [];
    assert value[0..] == value && [] + all == all;
    var i, free := 0, room;
    sent, closed := "", false;
    while i < |value|
      invariant 0 <= i <= |value| && stream.Valid() && stream.redactor == redactor && fresh(stream)
      invariant all == done + Texts(redactor.patterns, stream.State(), DecodedPieces(decode, value[i..]))
      invariant sent == Concat(done) && |done| + free == room
    {
      var end := if i + EMIT_BYTES < |value| then i + EMIT_BYTES else |value|;
      NextPiece(decode, value, i, end);
      var text := stream.Push(decode(value[i..end]));
      ghost var later := Texts(redactor.patterns, stream.State(), DecodedPieces(decode, value[end..]));
      assert all == done + (UnlessEmpty(text) + later);
      if text != "" && free == 0 {
        FirstTextsAreSent(all, done, text, later, room);
        return sent, true;
      }
      MoveOneText(done, text, later);
      AddOneText(done, text);
      free := if text == "" then free else free - 1;
      sent := sent + text;
      done := done + UnlessEmpty(text);
      i := end;
    }
    assert value[i..] == [];
    ghost var last := stream.State();
    var rest := stream.Finish();
    assert all == done + UnlessEmpty(rest) && UnlessEmpty(rest) + [] == UnlessEmpty(rest);
    if rest != "" && free == 0 {
      FirstTextsAreSent(all, done, rest, [], room);
      return sent, true;
    }
    AddOneText(done, rest);
    sent := sent + rest;
  }

  lemma NextPiece(decode: seq<Byte> -> string, value: seq<Byte>, i: nat, end: nat)
    requires i < |value| && end == if i + EMIT_BYTES < |value| then i + EMIT_BYTES else |value|
    ensures DecodedPieces(decode, value[i..]) == [decode(value[i..end])] + DecodedPieces(decode, value[end..])
  {
    var rest := value[i..];
    assert value[i..end] == rest[..end - i] && value[end..] == rest[end - i..];
    assert end == |value| ==> rest == value[i..end];
  }

  // No such value occurs in what a stream sends, nor in any first part of it.
  lemma SentHidesValues(patterns: R.Patterns, pieces: seq<string>)
    ensures forall q, group, sent :: MustBeHidden(patterns, group, q) && sent <= Guarantees.Stream(patterns, pieces) ==>
                  !Occurs(q, sent)
  {
    forall q, group, sent | MustBeHidden(patterns, group, q) && sent <= Guarantees.Stream(patterns, pieces)
      ensures !Occurs(q, sent)
    {
      var whole := Guarantees.Stream(patterns, pieces);
      Hidden.SeparateValuesAreNotStreamed(patterns, group, pieces, q);
      forall j: nat | j <= |sent| ensures !OccursAt(q, sent, j) {
        assert !OccursAt(q, whole, j) && sent[j..] <= whole[j..];
      }
    }
  }
}
