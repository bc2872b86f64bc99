/** `ExportWordConverter`: the text columns of a word's export line that
    are computed from the word, its authors and its derivatives, and the
    `stringer` conversion shared with the exporter. */
module WordConverter {
  import opened Common
  import opened Schema
  import Seqs
  import Text
  import Sorting
  import WordModel

  /** A value placed in an export field, by its Python type. */
  datatype Field = NoneField | IntField(n: int) | TextField(s: string) | BoolField(b: bool)

  /** Python truthiness of a field value. */
  predicate Truthy(f: Field) {
    match f
    case NoneField => false
    case IntField(n) => n != 0
    case TextField(s) => s != ""
    case BoolField(b) => b
  }

  /** `str(value)`. */
  function Str(f: Field): string {
    match f
    case NoneField => "None"
    case IntField(n) => Text.IntToString(n)
    case TextField(s) => s
    case BoolField(b) => if b then "True" else "False"
  }

  function OptionalText(s: Option<string>): Field {
    if s.Some? then TextField(s.value) else NoneField
  }

  function OptionalInt(n: Option<int>): Field {
    if n.Some? then IntField(n.value) else NoneField
  }

  /** `stringer(value)`: "" for a falsy value, `str(value)` otherwise. The
      exporter's `str(i or "")` is the same conversion. */
  function Stringer(f: Field): (r: string)
    ensures r == "" <==> !Truthy(f)
    ensures Truthy(f) ==> r == Str(f)
  {
    if Truthy(f) then Str(f) else ""
  }

  /** A derivative as the converter sees it: its name and its type row. */
  datatype Derivative = Derivative(name: string, kind: WordType)

  /** A word with the relationships the converter reads loaded: its type,
      its authors and its derivatives, in relationship order. */
  datatype LoadedWord = LoadedWord(word: Word, kind: WordType, authors: seq<Author>, derivatives: seq<Derivative>)

  /** The derivatives with their type rows, or None when one of them has a
      type id that no type row carries. */
  function LoadDerivatives(types: seq<WordType>, words: seq<Word>): (r: Option<seq<Derivative>>)
    ensures r.Some? ==> |r.value| == |words| && forall i :: 0 <= i < |words| ==>
      r.value[i].name == words[i].name && TypeById(types, words[i].typeId) == Some(r.value[i].kind)
    ensures r.None? ==> exists i :: 0 <= i < |words| && TypeById(types, words[i].typeId).None?
  {
    if words == [] then Some([])
    else
      match (TypeById(types, words[0].typeId), LoadDerivatives(types, words[1..]))
      case (Some(t), Some(rest)) => Some([Derivative(words[0].name, t)] + rest)
      case (None, _) => None
      case (_, None) =>
        assert forall i :: 0 <= i < |words[1..]| ==> words[1..][i] == words[i + 1];
        None
  }

  /** Loads `w` from the store: its type row, the authors linked through
      `connect_authors` and its derivatives. None when a type row is
      missing (the foreign key rules that out in the database). */
  function Load(store: Store, w: Word): (r: Option<LoadedWord>)
    ensures r.Some? ==> r.value.word == w && TypeById(store.types, w.typeId) == Some(r.value.kind)
    ensures r.Some? ==> forall a :: a in r.value.authors <==> a in store.authors && (a.id, w.id) in store.connectAuthors
    ensures r.Some? ==> |r.value.derivatives| == |WordModel.Derivatives(store, w)|
    ensures r.Some? ==> LoadDerivatives(store.types, WordModel.Derivatives(store, w)) == Some(r.value.derivatives)
    ensures r.None? <==>
      (TypeById(store.types, w.typeId).None? ||
       exists c :: c in WordModel.Derivatives(store, w) && TypeById(store.types, c.typeId).None?)
  {
    var derivatives := WordModel.Derivatives(store, w);
    LoadDerivativesNone(store.types, derivatives);
    match (TypeById(store.types, w.typeId), LoadDerivatives(store.types, derivatives))
    case (Some(t), Some(ds)) =>
      Some(LoadedWord(w, t, Seqs.Filter(store.authors, (a: Author) => (a.id, w.id) in store.connectAuthors), ds))
    case _ => None
  }

  /** Loading the derivatives fails exactly when one of them has no type
      row. */
  lemma LoadDerivativesNone(types: seq<WordType>, words: seq<Word>)
    ensures LoadDerivatives(types, words).None? <==> exists c :: c in words && TypeById(types, c.typeId).None?
  {
    if LoadDerivatives(types, words).Some? {
      forall c | c in words ensures TypeById(types, c.typeId).Some? {
        var i :| 0 <= i < |words| && words[i] == c;
      }
    } else {
      var i :| 0 <= i < |words| && TypeById(types, words[i].typeId).None?;
      assert words[i] in words;
    }
  }

  // ---------------------------------------------------------------- e_source

  function Identity(s: string): string { s }

  /** The authors' abbreviations, sorted ascending. */
  function SortedAbbreviations(authors: seq<Author>): (r: seq<string>)
    ensures Sorting.SortedBy(r, Identity, Text.LexLe)
    ensures multiset(r) == multiset(Abbreviations(authors))
  {
    Sorting.SortByText(Abbreviations(authors), Identity)
  }

  function Abbreviations(authors: seq<Author>): seq<string> {
    seq(|authors|, i requires 0 <= i < |authors| => authors[i].abbreviation)
  }

  /** `(notes or {}).get(key, "")`. */
  function Note(notes: Option<map<string, string>>, key: string): string {
    if notes.Some? && key in notes.value then notes.value[key] else ""
  }

  /** `e_source`: the sorted abbreviations joined by "/", a space and the
      "author" note, stripped. */
  function Source(lw: LoadedWord): (r: string)
    ensures Text.Trimmed(r)
  {
    Text.Strip(Text.Join(SortedAbbreviations(lw.authors), "/") + " " + Note(lw.word.notes, "author"))
  }

  /** Without an "author" note, `e_source` is the joined sorted
      abbreviations, provided that text has no surrounding whitespace. */
  lemma SourceWithoutNote(lw: LoadedWord)
    requires Note(lw.word.notes, "author") == ""
    requires Text.Trimmed(Text.Join(SortedAbbreviations(lw.authors), "/"))
    ensures Source(lw) == Text.Join(SortedAbbreviations(lw.authors), "/")
  {
    var t := Text.Join(SortedAbbreviations(lw.authors), "/");
    if t == [] {
      assert t + " " + "" == " ";
    } else {
      assert t + " " + "" == [] + t + " ";
      Text.StripSurrounded([], t, " ");
    }
  }

  // ---------------------------------------------------------------- e_year

  /** `e_year`: "" without a year; otherwise the year number, a space and
      the "year" note, stripped. */
  function Year(lw: LoadedWord): (r: string)
    ensures lw.word.year.None? ==> r == ""
    ensures lw.word.year.Some? ==> Text.NatToString(lw.word.year.value.year) <= r
    ensures Text.Trimmed(r)
  {
    if lw.word.year.Some? then
      var digits := Text.NatToString(lw.word.year.value.year);
      Text.StripKeepsHead(digits, " " + Note(lw.word.notes, "year"));
      assert digits + " " + Note(lw.word.notes, "year") == digits + (" " + Note(lw.word.notes, "year"));
      Text.Strip(digits + " " + Note(lw.word.notes, "year"))
    else ""
  }

  /** Without a "year" note, `e_year` is exactly the year number. */
  lemma YearWithoutNote(lw: LoadedWord)
    requires lw.word.year.Some? && Note(lw.word.notes, "year") == ""
    ensures Year(lw) == Text.NatToString(lw.word.year.value.year)
  {
    var digits := Text.NatToString(lw.word.year.value.year);
    assert digits + " " + "" == [] + digits + " ";
    Text.StripSurrounded([], digits, " ");
  }

  // ---------------------------------------------------------------- e_usedin

  /** The names of the derivatives of group "Cpx", in derivative order. */
  function UsedInNames(ds: seq<Derivative>): (r: seq<string>)
    ensures |r| <= |ds|
    ensures forall n :: n in r <==> exists d :: d in ds && d.kind.group == "Cpx" && d.name == n
  {
    if ds == [] then []
    else
      var rest := UsedInNames(ds[1..]);
      assert forall d :: d in ds <==> d == ds[0] || d in ds[1..];
      if ds[0].kind.group == "Cpx" then [ds[0].name] + rest else rest
  }

  /** `e_usedin`: those names joined by " | ". */
  function UsedIn(lw: LoadedWord): (r: string)
    ensures UsedInNames(lw.derivatives) == [] ==> r == ""
    ensures |UsedInNames(lw.derivatives)| == 1 ==> r == UsedInNames(lw.derivatives)[0]
  {
    Text.Join(UsedInNames(lw.derivatives), " | ")
  }

  // ---------------------------------------------------------------- e_affixes

  /** The names of the derivatives whose `type_x` is "Affix", hyphens
      removed, in derivative order. */
  function AffixNames(ds: seq<Derivative>): (r: seq<string>)
    ensures |r| <= |ds|
    ensures forall i :: 0 <= i < |r| ==> '-' !in r[i]
    ensures forall n :: n in r <==> exists d :: d in ds && d.kind.typeX == "Affix" && n == Text.RemoveChars(d.name, {'-'})
  {
    if ds == [] then []
    else
      var rest := AffixNames(ds[1..]);
      assert forall d :: d in ds <==> d == ds[0] || d in ds[1..];
      if ds[0].kind.typeX == "Affix" then [Text.RemoveChars(ds[0].name, {'-'})] + rest else rest
  }

  /** `e_affixes`: those names joined by spaces and stripped; no hyphen is
      left, and a word without affixes gives "". */
  function Affixes(lw: LoadedWord): (r: string)
    ensures '-' !in r
    ensures Text.Trimmed(r)
    ensures AffixNames(lw.derivatives) == [] ==> r == ""
  {
    var joined := Text.Join(AffixNames(lw.derivatives), " ");
    Text.JoinExcludes(AffixNames(lw.derivatives), " ", '-');
    Text.StripSubset(joined, '-');
    Text.Strip(joined)
  }

  /** When every affix name is non-empty, holds no space and has no
      surrounding whitespace, `strip` changes nothing: `e_affixes` is the
      names joined by single spaces, and splitting it on " " gives back
      the names, in derivative order. */
  lemma AffixesJoin(lw: LoadedWord)
    requires AffixNames(lw.derivatives) != []
    requires forall i :: 0 <= i < |AffixNames(lw.derivatives)| ==>
      AffixNames(lw.derivatives)[i] != [] && ' ' !in AffixNames(lw.derivatives)[i] && Text.Trimmed(AffixNames(lw.derivatives)[i])
    ensures Affixes(lw) == Text.Join(AffixNames(lw.derivatives), " ")
    ensures Text.Split(Affixes(lw), " ") == AffixNames(lw.derivatives)
  {
    var names := AffixNames(lw.derivatives);
    Text.JoinTrimmed(names, " ");
    Text.StripTrimmed(Text.Join(names, " "));
    Text.SplitJoin(names, " ");
  }

  /** `e_djifoa`: another name for `e_affixes`. */
  function Djifoa(lw: LoadedWord): (r: string)
    ensures '-' !in r
    ensures Text.Trimmed(r)
  {
    Affixes(lw)
  }

  // ---------------------------------------------------------------- e_rank

  /** `e_rank`: `str(rank)` (so "None" when there is none), a space and the
      "rank" note, stripped. */
  function Rank(lw: LoadedWord): (r: string)
    ensures Text.Trimmed(r)
  {
    Text.Strip(Str(OptionalText(lw.word.rank)) + " " + Note(lw.word.notes, "rank"))
  }

  /** Without a "rank" note, `e_rank` is the rank as it is stored (when it
      has no surrounding whitespace), and "None" when there is no rank. */
  lemma RankWithoutNote(lw: LoadedWord)
    requires Note(lw.word.notes, "rank") == ""
    ensures lw.word.rank.None? ==> Rank(lw) == "None"
    ensures lw.word.rank.Some? && Text.Trimmed(lw.word.rank.value) ==> Rank(lw) == lw.word.rank.value
  {
    var t := Str(OptionalText(lw.word.rank));
    if t == [] {
      assert t + " " + "" == " ";
    } else if Text.Trimmed(t) {
      assert t + " " + "" == [] + t + " ";
      Text.StripSurrounded([], t, " ");
    }
  }
}
