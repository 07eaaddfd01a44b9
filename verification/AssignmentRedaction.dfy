/** Which assignments a redactor hides, spelled out character by character, and what becomes of every other word. */
module AssignmentRedaction {
  import opened Wrappers
  import opened Text
  import opened Redaction
  import opened RedactionSafety
  import opened StreamEquivalence
  import opened StreamCounterexamples

  const LETTERS: string := "abcdefghijklmnopqrstuvwxyz"
  const CAPITALS: string := "ABCDEFGHIJKLMNOPQRSTUVWXYZ"

  // The same character, the capital of the same letter, or a hyphen for an underscore.
  predicate Spells(c: char, m: char) {
    c == m || (exists i :: 0 <= i < 26 && LETTERS[i] == m && CAPITALS[i] == c) || (c == '-' && m == '_')
  }

  predicate SpelledAt(key: string, marker: string, at: nat) {
    at + |marker| <= |key| && forall j :: 0 <= j < |marker| ==> Spells(key[at + j], marker[j])
  }

  predicate Spelled(key: string, marker: string) {
    exists at :: 0 <= at <= |key| && SpelledAt(key, marker, at)
  }

  predicate NamesASecret(key: string) {
    || Spelled(key, "token") || Spelled(key, "password") || Spelled(key, "passwd")
    || Spelled(key, "secret") || Spelled(key, "credential") || Spelled(key, "private_key")
    || Spelled(key, "api_key") || Spelled(key, "storepass") || Spelled(key, "keypass")
  }

  // ---------------------------------------------------------------------------------------------
  // The normalised name
  // ---------------------------------------------------------------------------------------------

  predicate IsMarkerText(marker: string) {
    forall j :: 0 <= j < |marker| ==> 'a' <= marker[j] <= 'z' || marker[j] == '_'
  }

  lemma Alphabets(i: nat)
    requires i < 26
    ensures LETTERS[i] == ('a' as int + i) as char && CAPITALS[i] == ('A' as int + i) as char
  {
  }

  lemma SpellsExactly(c: char, m: char)
    requires 'a' <= m <= 'z' || m == '_'
    ensures Spells(c, m) <==> (if c == '-' then '_' else AsciiLower(c)) == m
  {
    forall i | 0 <= i < 26
      ensures LETTERS[i] == ('a' as int + i) as char && CAPITALS[i] == ('A' as int + i) as char
    {
      Alphabets(i);
    }
    if 'A' <= c <= 'Z' && 'a' <= m <= 'z' {
      var i := c as int - 'A' as int;
      assert CAPITALS[i] == c;
      if AsciiLower(c) == m { assert LETTERS[i] == m; }
    }
  }

  lemma SpelledAtExactly(key: string, marker: string, at: nat)
    requires IsMarkerText(marker) && at <= |key|
    ensures SpelledAt(key, marker, at) <==> OccursAt(marker, NormalizedName(key), at)
  {
    var name := NormalizedName(key);
    if at + |marker| <= |key| {
      forall j | 0 <= j < |marker| ensures Spells(key[at + j], marker[j]) <==> name[at..][j] == marker[j] {
        SpellsExactly(key[at + j], marker[j]);
      }
      assert name[at..][..|marker|] == marker <==> OccursAt(marker, name, at);
    }
  }

  lemma SpelledExactly(key: string, marker: string)
    requires IsMarkerText(marker)
    ensures Spelled(key, marker) <==> Occurs(marker, NormalizedName(key))
  {
    forall at: nat | at <= |key| ensures SpelledAt(key, marker, at) <==> OccursAt(marker, NormalizedName(key), at) {
      SpelledAtExactly(key, marker, at);
    }
  }

  lemma MarkersAreTheNine(marker: string)
    ensures marker in SENSITIVE_MARKERS <==>
              marker in ["token", "password", "passwd", "secret", "credential", "private_key", "api_key", "storepass",
                         "keypass"]
    ensures marker in SENSITIVE_MARKERS ==> IsMarkerText(marker)
  {
  }

  lemma SensitiveExactly(key: string)
    ensures SensitiveName(key) <==> NamesASecret(key)
  {
    forall marker | marker in SENSITIVE_MARKERS
      ensures Spelled(key, marker) <==> Occurs(marker, NormalizedName(key))
    {
      MarkersAreTheNine(marker);
      SpelledExactly(key, marker);
    }
    assert SENSITIVE_MARKERS[0] == "token" && SENSITIVE_MARKERS[1] == "password" && SENSITIVE_MARKERS[2] == "passwd";
    assert SENSITIVE_MARKERS[3] == "secret" && SENSITIVE_MARKERS[4] == "credential";
    assert SENSITIVE_MARKERS[5] == "private_key" && SENSITIVE_MARKERS[6] == "api_key";
    assert SENSITIVE_MARKERS[7] == "storepass" && SENSITIVE_MARKERS[8] == "keypass";
  }

  // ---------------------------------------------------------------------------------------------
  // Words
  // ---------------------------------------------------------------------------------------------

  lemma AssignmentToken(key: string, value: string)
    requires '=' !in key
    ensures RedactToken(key + ['='] + value) ==
            if NamesASecret(key) then key + "=[REDACTED]" else key + ['='] + value
  {
    var word := key + ['='] + value;
    IndexBehind(key, '=', value);
    SensitiveExactly(key);
    assert word[..|key|] == key;
    assert key + "=" + REDACTED == key + "=[REDACTED]";
  }

  lemma OnlyTheMarkIsKept(key: string, value: string)
    ensures key + ['='] + value == key + "=[REDACTED]" <==> value == "[REDACTED]"
  {
    var word, hidden := key + ['='] + value, key + "=[REDACTED]";
    assert word[|key| + 1..] == value && hidden[|key| + 1..] == "[REDACTED]";
    assert "=[REDACTED]" == "=" + "[REDACTED]";
  }

  // What redaction makes of a word in which no value is registered.
  lemma WordBetweenBlanks(patterns: Patterns, before: string, word: string, behind: string)
    requires AllWhitespaceFree(patterns) && forall p :: p in patterns ==> !Occurs(p, word)
    requires WhitespaceFree(word) && AtWordStart(before) && (behind == "" || IsWhitespace(behind[0]))
    ensures RedactText(patterns, before + word + behind) ==
            RedactText(patterns, before) + RedactToken(word) + RedactText(patterns, behind)
  {
    RedactionDistributes(patterns, before + word, behind);
    RedactionDistributes(patterns, before, word);
    ReplaceAllFindsNothing(word, patterns);
    MapLastWord(RedactToken, word);
  }

  /**
   * An assignment between blanks, in which no value is registered, keeps its key; its value is hidden exactly when the
   * key contains one of nine words, in small or capital letters and with hyphens for underscores, or when it is the
   * mark already. Nothing else in the text depends on it.
   */
  lemma AssignmentsAreHiddenExactly(patterns: Patterns, before: string, key: string, value: string, behind: string)
    returns (redacted: string)
    requires AllWhitespaceFree(patterns) && '=' !in key && WhitespaceFree(key + ['='] + value)
    requires forall p :: p in patterns ==> !Occurs(p, key + ['='] + value)
    requires AtWordStart(before) && (behind == "" || IsWhitespace(behind[0]))
    ensures RedactText(patterns, before + (key + ['='] + value) + behind) ==
            RedactText(patterns, before) + redacted + RedactText(patterns, behind)
    ensures redacted == key + "=[REDACTED]" <==> NamesASecret(key) || value == "[REDACTED]"
    ensures redacted == key + "=[REDACTED]" || redacted == key + ['='] + value
  {
    var word := key + ['='] + value;
    WordBetweenBlanks(patterns, before, word, behind);
    AssignmentToken(key, value);
    OnlyTheMarkIsKept(key, value);
    redacted := RedactToken(word);
  }

  /** A word without an equals sign, in which no value is registered, is kept, and so is every blank. */
  lemma OtherWordsAreKept(patterns: Patterns, before: string, word: string, blank: char, behind: string)
    requires AllWhitespaceFree(patterns) && '=' !in word && WhitespaceFree(word) && IsWhitespace(blank)
    requires AtWordStart(before) && forall p :: p in patterns ==> !Occurs(p, word)
    ensures RedactText(patterns, before + word + ([blank] + behind)) ==
            RedactText(patterns, before) + word + ([blank] + RedactText(patterns, behind))
  {
    WordBetweenBlanks(patterns, before, word, [blank] + behind);
    RedactionDistributes(patterns, [blank], behind);
    RedactedWhitespace(patterns, blank);
  }
}
