/** The two regular-expression searches a word source is parsed with:
    `re.search(r"\d+\/\d+\w", s)` for the compatibility part and
    `re.search(r"(?!\d+\/\d+\w) .+", s)` for the transcription. Both are
    written out as the leftmost, greedy, backtracking match Python's `re`
    returns, on ASCII character classes. */
module SourcePattern {
  import opened Common
  import Text

  // ---------------------------------------------------------------- \d+/\d+\w

  /** `s[i..j]` consists of digits. */
  predicate Digits(s: string, i: int, j: int) {
    0 <= i <= j <= |s| && forall x :: i <= x < j ==> Text.IsDigit(s[x])
  }

  /** `s[i..j]` matches `\d+/\d+\w` with its slash at `k`. */
  predicate MatchesWith(s: string, i: int, k: int, j: int) {
    0 <= i < k && k + 2 < j <= |s| && Digits(s, i, k) && s[k] == '/' &&
    Digits(s, k + 1, j - 1) && Text.IsWordChar(s[j - 1])
  }

  /** `s[i..j]` matches `\d+/\d+\w`. */
  ghost predicate Matches(s: string, i: int, j: int) {
    exists k :: MatchesWith(s, i, k, j)
  }

  /** A match takes at least four characters, so a shorter text has none. */
  lemma ShortTextNoMatch(s: string)
    requires |s| < 4
    ensures forall i, j :: !Matches(s, i, j)
  {
    forall i, j, k | MatchesWith(s, i, k, j) ensures false {
    }
  }

  /** The end of the run of digits that starts at `i`. */
  function DigitRunEnd(s: string, i: nat): (k: nat)
    requires i <= |s|
    ensures i <= k <= |s| && Digits(s, i, k)
    ensures k < |s| ==> !Text.IsDigit(s[k])
    decreases |s| - i
  {
    if i < |s| && Text.IsDigit(s[i]) then DigitRunEnd(s, i + 1) else i
  }

  /** A run of digits that stops before a non-digit ends there. */
  lemma {:induction false} DigitRunEndAt(s: string, i: nat, k: nat)
    requires Digits(s, i, k) && (k == |s| || !Text.IsDigit(s[k]))
    ensures DigitRunEnd(s, i) == k
    decreases k - i
  {
    if i < k {
      DigitRunEndAt(s, i + 1, k);
    }
  }

  /** The slash of a match starting at `i` is where the digits from `i`
      stop. */
  lemma SlashAtRunEnd(s: string, i: nat, k: int, j: int)
    requires MatchesWith(s, i, k, j)
    ensures k == DigitRunEnd(s, i)
  {
    var e := DigitRunEnd(s, i);
  }

  /** A match starting at `i` has its slash where the digits from `i`
      stop. */
  lemma MatchAtRunEnd(s: string, i: nat, j: int)
    requires Matches(s, i, j)
    ensures i <= |s| && MatchesWith(s, i, DigitRunEnd(s, i), j)
  {
    var k :| MatchesWith(s, i, k, j);
    SlashAtRunEnd(s, i, k, j);
  }

  /** The match starting at `i`, if any, as the greedy search finds it: the
      second number takes every digit it can while a word character still
      follows. Returns the end of the match. */
  function MatchFrom(s: string, i: nat): (r: Option<nat>)
    requires i <= |s|
    ensures r.Some? ==> Matches(s, i, r.value)
    ensures r.Some? ==> forall j :: Matches(s, i, j) ==> j <= r.value
    ensures r.None? ==> forall j :: !Matches(s, i, j)
  {
    var k := DigitRunEnd(s, i);
    if k == i || k == |s| || s[k] != '/' then
      assert forall j :: !Matches(s, i, j) by {
        forall j, k' | MatchesWith(s, i, k', j) ensures false {
          SlashAtRunEnd(s, i, k', j);
        }
      }
      None
    else
      var m := DigitRunEnd(s, k + 1);
      assert forall j, k' :: MatchesWith(s, i, k', j) ==> k' == k && j <= m + 1 by {
        forall j, k' | MatchesWith(s, i, k', j) ensures k' == k && j <= m + 1 {
          SlashAtRunEnd(s, i, k', j);
        }
      }
      if m < |s| && Text.IsWordChar(s[m]) && m > k + 1 then
        assert MatchesWith(s, i, k, m + 1);
        Some(m + 1)
      else if m >= k + 3 then
        assert MatchesWith(s, i, k, m);
        assert forall j :: Matches(s, i, j) ==> j <= m by {
          forall j | Matches(s, i, j) ensures j <= m {
            var k' :| MatchesWith(s, i, k', j);
          }
        }
        Some(m)
      else
        assert forall j :: !Matches(s, i, j) by {
          forall j | Matches(s, i, j) ensures false {
          }
        }
        None
  }

  /** The leftmost match starting at `i` or later, with its greedy end. */
  function SearchFrom(s: string, i: nat): (r: Option<(nat, nat)>)
    requires i <= |s|
    ensures r.Some? ==> i <= r.value.0 && Matches(s, r.value.0, r.value.1)
    ensures r.Some? ==> forall j :: Matches(s, r.value.0, j) ==> j <= r.value.1
    ensures r.Some? ==> forall i', j :: i <= i' < r.value.0 ==> !Matches(s, i', j)
    ensures r.None? ==> forall i', j :: i <= i' ==> !Matches(s, i', j)
    decreases |s| - i
  {
    match MatchFrom(s, i)
    case Some(j) => Some((i, j))
    case None =>
      if i == |s| then None else SearchFrom(s, i + 1)
  }

  /** The numbers and language letter of a match. */
  datatype SourceMatch = SourceMatch(coincidence: nat, length: nat, language: string)

  /** `re.search(r"\d+\/\d+\w", s)`, read as `parse_source` reads it: the
      match without its last character split at the slash gives the two
      numbers, the last character is the language. */
  function Search(s: string): (r: Option<SourceMatch>)
    ensures r.None? <==> forall i, j :: !Matches(s, i, j)
    ensures r.Some? ==> |r.value.language| == 1 && Text.IsWordChar(r.value.language[0])
  {
    match SearchFrom(s, 0)
    case None => None
    case Some((i, j)) =>
      MatchAtRunEnd(s, i, j);
      var k := DigitRunEnd(s, i);
      Some(SourceMatch(Text.DigitsValue(s[i..k]), Text.DigitsValue(s[k + 1..j - 1]), [s[j - 1]]))
  }

  /** `Search` returns the leftmost match, taken as long as it goes, read
      at its slash. */
  lemma SearchAt(s: string, i: nat, k: nat, j: nat)
    requires MatchesWith(s, i, k, j)
    requires forall i', j' :: 0 <= i' < i ==> !Matches(s, i', j')
    requires forall j' :: Matches(s, i, j') ==> j' <= j
    ensures Search(s) == Some(SourceMatch(Text.DigitsValue(s[i..k]), Text.DigitsValue(s[k + 1..j - 1]), [s[j - 1]]))
  {
    assert Matches(s, i, j);
    var r := SearchFrom(s, 0);
    assert r.Some?;
    var (i0, j0) := r.value;
    assert i0 == i;
    assert j0 == j;
    SlashAtRunEnd(s, i, k, j);
  }

  /** A text that starts "c/lL " matches there, up to the letter L. */
  lemma SearchShape(s: string, a: nat, b: nat)
    requires a >= 1 && b >= 1 && a + b + 2 < |s|
    requires Digits(s, 0, a) && s[a] == '/' && Digits(s, a + 1, a + 1 + b)
    requires Text.IsWordChar(s[a + 1 + b]) && s[a + b + 2] == ' '
    ensures Search(s) == Some(SourceMatch(Text.DigitsValue(s[..a]), Text.DigitsValue(s[a + 1..a + 1 + b]), [s[a + 1 + b]]))
  {
    DigitRunEndAt(s, 0, a);
    assert MatchesWith(s, 0, a, a + b + 2);
    forall j | Matches(s, 0, j) ensures j <= a + b + 2 {
      MatchAtRunEnd(s, 0, j);
    }
    SearchAt(s, 0, a, a + b + 2);
  }

  // ---------------------------------------------------------------- transcription

  /** A match of ` .+` can start at `p`: a space followed by at least one
      character other than a line feed. The negative lookahead before it
      never fails there, because `\d+` cannot start at a space. */
  predicate TranscriptionAt(s: string, p: int) {
    0 <= p && p + 1 < |s| && s[p] == ' ' && s[p + 1] != '\n'
  }

  function FirstTranscription(s: string, i: nat): (r: Option<nat>)
    requires i <= |s|
    ensures r.Some? ==> i <= r.value && TranscriptionAt(s, r.value)
    ensures r.Some? ==> forall q :: i <= q < r.value ==> !TranscriptionAt(s, q)
    ensures r.None? ==> forall q :: i <= q ==> !TranscriptionAt(s, q)
    decreases |s| - i
  {
    if i == |s| then None
    else if TranscriptionAt(s, i) then Some(i)
    else FirstTranscription(s, i + 1)
  }

  lemma {:induction false} FirstTranscriptionAt(s: string, i: nat, p: nat)
    requires i <= p && TranscriptionAt(s, p)
    requires forall q :: i <= q < p ==> !TranscriptionAt(s, q)
    ensures FirstTranscription(s, i) == Some(p)
    decreases p - i
  {
    if i < p {
      FirstTranscriptionAt(s, i + 1, p);
    }
  }

  /** The end of the line that `i` is on: `.` does not match a line feed. */
  function LineEnd(s: string, i: nat): (e: nat)
    requires i <= |s|
    ensures i <= e <= |s| && '\n' !in s[i..e]
    ensures e < |s| ==> s[e] == '\n'
    decreases |s| - i
  {
    if i == |s| || s[i] == '\n' then i
    else
      var e := LineEnd(s, i + 1);
      assert s[i..e] == [s[i]] + s[i + 1..e];
      e
  }

  lemma {:induction false} LineEndWithout(s: string, i: nat)
    requires i <= |s| && '\n' !in s[i..]
    ensures LineEnd(s, i) == |s|
    decreases |s| - i
  {
    if i < |s| {
      assert s[i] == s[i..][0];
      assert s[i + 1..] == s[i..][1..];
      LineEndWithout(s, i + 1);
    }
  }

  /** The transcription starts at the first place ` .+` can match. */
  lemma TranscriptionFrom(s: string, p: nat)
    requires TranscriptionAt(s, p)
    requires forall q :: 0 <= q < p ==> !TranscriptionAt(s, q)
    ensures Transcription(s) == Some(Text.Strip(s[p..LineEnd(s, p + 1)]))
  {
    FirstTranscriptionAt(s, 0, p);
  }

  /** A one-line text whose first space is at `p` has everything after
      that space, stripped, as its transcription. */
  lemma TranscriptionShape(s: string, p: nat)
    requires TranscriptionAt(s, p) && ' ' !in s[..p] && '\n' !in s[p + 1..]
    ensures Transcription(s) == Some(Text.Strip(s[p..]))
  {
    assert forall q :: 0 <= q < p ==> !TranscriptionAt(s, q) by {
      forall q | 0 <= q < p ensures s[q] != ' ' {
        assert s[q] == s[..p][q];
      }
    }
    TranscriptionFrom(s, p);
    var e := LineEnd(s, p + 1);
    LineEndWithout(s, p + 1);
    assert e == |s|;
    assert s[p..e] == s[p..];
  }

  /** After a head without spaces, a space and a trimmed one-line text,
      the transcription is that text. */
  lemma TranscriptionAfter(head: string, t: string)
    requires ' ' !in head && t != [] && Text.Trimmed(t) && '\n' !in t
    ensures Transcription(head + " " + t) == Some(t)
  {
    var s := head + " " + t;
    var p := |head|;
    assert s[..p] == head;
    assert s[p + 1..] == t;
    assert s[p] == ' ' && s[p + 1] == t[0];
    assert Text.IsSpace('\n');
    assert TranscriptionAt(s, p);
    assert s[p..] == " " + t + [];
    Text.StripSurrounded(" ", t, []);
    assert Text.Strip(s[p..]) == t;
    TranscriptionShape(s, p);
  }

  /** The transcription: the leftmost match of ` .+`, stripped, or None. */
  function Transcription(s: string): (r: Option<string>)
    ensures r.None? <==> forall p :: !TranscriptionAt(s, p)
    ensures r.Some? ==> Text.Trimmed(r.value) && '\n' !in r.value
  {
    match FirstTranscription(s, 0)
    case None => None
    case Some(p) =>
      var text := s[p..LineEnd(s, p + 1)];
      assert text == [s[p]] + s[p + 1..LineEnd(s, p + 1)];
      Text.StripSubset(text, '\n');
      Some(Text.Strip(text))
  }
}
