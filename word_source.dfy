/** A prim's word source, such as "3/5R mesto": how many of the source
    word's letters the Loglan word keeps, how long the word is, the
    language letter and the source word itself. `WordSource` raises
    ValueError when no "c/lL" part is found; the older `BaseWordSource`
    leaves the three fields None instead. */
module WordSources {
  import opened Common
  import Text
  import SourcePattern

  /** The language letters and the languages they stand for. */
  const Languages: map<string, string> := map[
    "E" := "English", "C" := "Chinese", "H" := "Hindi", "R" := "Russian",
    "S" := "Spanish", "F" := "French", "J" := "Japanese", "G" := "German"]

  /** The letters that stand for a language. */
  predicate LanguageLetter(c: char) {
    c == 'E' || c == 'C' || c == 'H' || c == 'R' || c == 'S' || c == 'F' || c == 'J' || c == 'G'
  }

  /** The table holds exactly the eight one-letter codes E, C, H, R, S, F,
      J and G, each an upper-case letter. */
  lemma LanguageCodes()
    ensures forall code :: code in Languages <==> |code| == 1 && LanguageLetter(code[0])
    ensures forall code :: code in Languages ==> Text.IsUpper(code[0])
  {
    forall code | code in Languages ensures |code| == 1 && LanguageLetter(code[0]) && Text.IsUpper(code[0]) {
      LanguageCodeShape(code);
    }
    forall code | |code| == 1 && LanguageLetter(code[0]) ensures code in Languages {
      LanguageCodeOfLetter(code);
    }
  }

  lemma LanguageCodeShape(code: string)
    requires code in Languages
    ensures |code| == 1 && LanguageLetter(code[0]) && Text.IsUpper(code[0])
  {
    assert code in Languages.Keys;
  }

  lemma LanguageCodeOfLetter(code: string)
    requires |code| == 1 && LanguageLetter(code[0])
    ensures code in Languages
  {
    assert code == [code[0]];
  }

  datatype WordSource = WordSource(
    coincidence: Option<nat>,
    length: Option<nat>,
    language: Option<string>,
    transcription: Option<string>)

  /** `BaseWordSource(source)`: the numbers and language of the leftmost
      "c/lL" part, all None when there is none, and the transcription. */
  function ParseLenient(source: string): (r: WordSource)
    ensures r.coincidence.None? <==> forall i, j :: !SourcePattern.Matches(source, i, j)
    ensures r.coincidence.None? <==> r.length.None? && r.language.None?
    ensures r.language.Some? ==> |r.language.value| == 1 && Text.IsWordChar(r.language.value[0])
    ensures r.transcription.None? <==> forall p :: !SourcePattern.TranscriptionAt(source, p)
    ensures r.transcription.Some? ==> Text.Trimmed(r.transcription.value) && '\n' !in r.transcription.value
  {
    var transcription := SourcePattern.Transcription(source);
    match SourcePattern.Search(source)
    case None => WordSource(None, None, None, transcription)
    case Some(m) => WordSource(Some(m.coincidence), Some(m.length), Some(m.language), transcription)
  }

  /** `WordSource(source)`: ValueError exactly when there is no "c/lL"
      part; otherwise the same fields as `BaseWordSource`. */
  function ParseStrict(source: string): (r: Result<WordSource>)
    ensures r.Failure? <==> forall i, j :: !SourcePattern.Matches(source, i, j)
    ensures r.Failure? ==> r.error.ValueError?
    ensures r.Success? ==> r.value == ParseLenient(source) && r.value.coincidence.Some?
  {
    match SourcePattern.Search(source)
    case None => Failure(ValueError("No compatible source found"))
    case Some(m) =>
      Success(WordSource(Some(m.coincidence), Some(m.length), Some(m.language), SourcePattern.Transcription(source)))
  }

  /** Python's `all([...])` over the four fields: every one is set and
      truthy (a number other than 0, a non-empty text). */
  predicate Complete(ws: WordSource) {
    ws.coincidence.Some? && ws.coincidence.value != 0 &&
    ws.length.Some? && ws.length.value != 0 &&
    ws.language.Some? && ws.language.value != "" &&
    ws.transcription.Some? && ws.transcription.value != ""
  }

  /** The text "c/lL t". */
  function Format(coincidence: nat, length: nat, language: string, transcription: string): string {
    Text.NatToString(coincidence) + "/" + Text.NatToString(length) + language + " " + transcription
  }

  /** `as_string`: "" when a field is falsy, the text "c/lL t" otherwise. */
  function AsString(ws: WordSource): (r: string)
    ensures r == "" <==> !Complete(ws)
    ensures Complete(ws) ==> Text.NatToString(ws.coincidence.value) + "/" <= r
  {
    if Complete(ws) then
      var c := Text.NatToString(ws.coincidence.value);
      var rest := Text.NatToString(ws.length.value) + ws.language.value + " " + ws.transcription.value;
      assert Format(ws.coincidence.value, ws.length.value, ws.language.value, ws.transcription.value) == c + "/" + rest;
      Format(ws.coincidence.value, ws.length.value, ws.language.value, ws.transcription.value)
    else ""
  }

  /** The "c/lL" part of "c/lL t" reads as c, l and L. */
  lemma FormatSearch(c: nat, l: nat, language: string, t: string)
    requires |language| == 1 && Text.IsWordChar(language[0])
    ensures SourcePattern.Search(Format(c, l, language, t)) == Some(SourcePattern.SourceMatch(c, l, language))
  {
    var A := Text.NatToString(c);
    var B := Text.NatToString(l);
    var s := Format(c, l, language, t);
    var a := |A|;
    var b := |B|;
    assert s == A + "/" + B + language + " " + t;
    assert s[..a] == A;
    assert s[a + 1..a + 1 + b] == B;
    forall x | 0 <= x < a ensures Text.IsDigit(s[x]) {
      assert s[x] == A[x];
    }
    forall x | a + 1 <= x < a + 1 + b ensures Text.IsDigit(s[x]) {
      assert s[x] == B[x - a - 1];
    }
    assert s[a] == '/' && s[a + 1 + b] == language[0] && s[a + b + 2] == ' ';
    SourcePattern.SearchShape(s, a, b);
    assert [s[a + 1 + b]] == language;
    Text.NatToStringRoundTrip(c);
    Text.NatToStringRoundTrip(l);
  }

  /** The transcription of "c/lL t" is t when t is trimmed and on one
      line. */
  lemma FormatTranscription(c: nat, l: nat, language: string, t: string)
    requires |language| == 1 && Text.IsWordChar(language[0])
    requires t != [] && Text.Trimmed(t) && '\n' !in t
    ensures SourcePattern.Transcription(Format(c, l, language, t)) == Some(t)
  {
    var A := Text.NatToString(c);
    var B := Text.NatToString(l);
    var head := A + "/" + B + language;
    assert Format(c, l, language, t) == head + " " + t;
    forall i | 0 <= i < |head| ensures head[i] != ' ' {
      if i < |A| {
        assert head[i] == A[i];
      } else if |A| < i < |A| + 1 + |B| {
        assert head[i] == B[i - |A| - 1];
      }
    }
    SourcePattern.TranscriptionAfter(head, t);
  }

  /** Parsing "c/lL t" gives back c, l, L and t, for any word character L
      (a digit included) and any trimmed one-line t. */
  lemma ParseFormat(c: nat, l: nat, language: string, t: string)
    requires |language| == 1 && Text.IsWordChar(language[0])
    requires t != [] && Text.Trimmed(t) && '\n' !in t
    ensures ParseLenient(Format(c, l, language, t)) == WordSource(Some(c), Some(l), Some(language), Some(t))
  {
    FormatSearch(c, l, language, t);
    FormatTranscription(c, l, language, t);
  }

  /** A complete word source survives `as_string` and a second parse. */
  lemma AsStringRoundTrip(source: string)
    requires AsString(ParseLenient(source)) != ""
    ensures ParseLenient(AsString(ParseLenient(source))) == ParseLenient(source)
  {
    var ws := ParseLenient(source);
    ParseFormat(ws.coincidence.value, ws.length.value, ws.language.value, ws.transcription.value);
  }

  /** The test source "2/3E act" reads as 2, 3, "E", "act" and formats back
      to itself. */
  lemma ParseActExample(s: string)
    requires s == "2/3E act"
    ensures ParseLenient(s) == WordSource(Some(2), Some(3), Some("E"), Some("act"))
    ensures ParseStrict(s) == Success(ParseLenient(s))
    ensures AsString(ParseLenient(s)) == s
  {
    FormatAct(s);
    ParseFormat(2, 3, "E", "act");
  }

  lemma FormatAct(s: string)
    requires s == "2/3E act"
    ensures Format(2, 3, "E", "act") == s
  {
  }

  /** "2/4C" has its numbers and language but no transcription, so it
      formats to "". */
  lemma NoTranscriptionExample()
    ensures ParseLenient("2/4C") == WordSource(Some(2), Some(4), Some("C"), None)
    ensures AsString(ParseLenient("2/4C")) == ""
  {
    SearchTwoFourC("2/4C");
    NoSpaceNoTranscription("2/4C");
  }

  /** A text without a space has no transcription. */
  lemma NoSpaceNoTranscription(s: string)
    requires ' ' !in s
    ensures SourcePattern.Transcription(s) == None
  {
    forall p ensures !SourcePattern.TranscriptionAt(s, p) {
      if 0 <= p < |s| {
        assert s[p] in s;
      }
    }
  }

  lemma SearchTwoFourC(s: string)
    requires s == "2/4C"
    ensures SourcePattern.Search(s) == Some(SourcePattern.SourceMatch(2, 4, "C"))
  {
    SourcePattern.DigitRunEndAt(s, 0, 1);
    assert SourcePattern.MatchesWith(s, 0, 1, 4);
    SourcePattern.SearchAt(s, 0, 1, 4);
    assert s[0..1] == "2" && s[2..3] == "4";
    assert Text.DigitsValue("2") == 2 && Text.DigitsValue("4") == 4;
  }

  /** "4/S" has no number after the slash: `WordSource` raises ValueError
      and `BaseWordSource` leaves every field None. */
  lemma NoNumberExample()
    ensures ParseStrict("4/S").Failure? && ParseStrict("4/S").error.ValueError?
    ensures ParseLenient("4/S") == WordSource(None, None, None, None)
    ensures AsString(ParseLenient("4/S")) == ""
  {
    SourcePattern.ShortTextNoMatch("4/S");
    assert !SourcePattern.TranscriptionAt("4/S", 0) && !SourcePattern.TranscriptionAt("4/S", 1);
  }

  /** With no letter after the second number, the final `\w` takes that
      number's last digit: "12/345 x" reads as 12, 34 and language "5". */
  lemma DigitLanguageExample()
    ensures ParseLenient("12/345 x") == WordSource(Some(12), Some(34), Some("5"), Some("x"))
  {
    assert Format(12, 34, "5", "x") == "12/345 x";
    ParseFormat(12, 34, "5", "x");
  }
}
