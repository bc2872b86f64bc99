/** `WordSourcer`: the source words a word was built from, read off its
    `origin`. A composite prim ("C-Prim") lists its sources in the target
    languages separated by " | "; a complex ("Cpx") or a compound ("Cpd")
    names the words it was made of, joined by "+". */
module WordSourcer {
  import opened Common
  import opened Schema
  import Seqs
  import Text
  import WordSources
  import TypeQuery

  /** `str(value)` of an optional text: "None" when there is none. */
  function StrOf(s: Option<string>): string {
    if s.Some? then s.value else "None"
  }

  // ---------------------------------------------------------------- prims

  /** Each source parsed with `WordSource`; the first one without a "c/lL"
      part raises ValueError. */
  function ParseAll(parts: seq<string>): (r: Result<seq<WordSources.WordSource>>)
    ensures r.Failure? <==> exists i :: 0 <= i < |parts| && WordSources.ParseStrict(parts[i]).Failure?
    ensures r.Failure? ==> r.error.ValueError?
    ensures r.Success? ==> (|r.value| == |parts| &&
      forall i :: 0 <= i < |parts| ==> WordSources.ParseStrict(parts[i]) == Success(r.value[i]))
  {
    MapAll(parts, ParseStrictOf())
  }

  function ParseStrictOf(): string -> Result<WordSources.WordSource> {
    (s: string) => WordSources.ParseStrict(s)
  }

  /** `_get_sources_c_prim(word)`: None unless the type is "C-Prim";
      otherwise one `WordSource` per " | " segment of `str(origin)` (so an
      origin of None is the text "None", which raises ValueError). */
  function CPrimSources(w: Word, kind: WordType): (r: Result<Option<seq<WordSources.WordSource>>>)
    ensures kind.typeName != "C-Prim" ==> r == Success(None)
    ensures kind.typeName == "C-Prim" ==>
      (r.Failure? <==> exists part :: part in Text.Split(StrOf(w.origin), " | ") && WordSources.ParseStrict(part).Failure?)
    ensures r.Success? && r.value.Some? ==> |r.value.value| == |Text.Split(StrOf(w.origin), " | ")|
  {
    if kind.typeName != "C-Prim" then Success(None)
    else
      var parts := Text.Split(StrOf(w.origin), " | ");
      assert forall part :: part in parts <==> exists i :: 0 <= i < |parts| && parts[i] == part;
      match ParseAll(parts)
      case Success(sources) => Success(Some(sources))
      case Failure(e) => Failure(e)
  }

  /** A prim's sources: not a prim, the composite prim's word sources, or
      the text "name: origin < origin_x". */
  datatype PrimSources = NotPrim | CPrim(sources: seq<WordSources.WordSource>) | Described(text: string)

  /** `get_sources_prim(word)`: None unless the group is "Prim"; the word
      sources of a "C-Prim"; otherwise "name: origin", followed by
      " < origin_x" when `origin_x` is not empty. */
  function GetSourcesPrim(w: Word, kind: WordType): (r: Result<PrimSources>)
    ensures kind.group != "Prim" ==> r == Success(NotPrim)
    ensures kind.group == "Prim" && kind.typeName == "C-Prim" ==>
      (r.Failure? <==> CPrimSources(w, kind).Failure?) &&
      (r.Success? ==> r == Success(CPrim(CPrimSources(w, kind).value.value)))
    ensures kind.group == "Prim" && kind.typeName != "C-Prim" ==>
      r.Success? && r.value.Described? && w.name + ": " + StrOf(w.origin) <= r.value.text
    ensures kind.group == "Prim" && kind.typeName != "C-Prim" && (w.originX.None? || w.originX.value == "") ==>
      r == Success(Described(w.name + ": " + StrOf(w.origin)))
    ensures kind.group == "Prim" && kind.typeName != "C-Prim" && w.originX.Some? && w.originX.value != "" ==>
      r == Success(Described(w.name + ": " + StrOf(w.origin) + (" < " + w.originX.value)))
  {
    if kind.group != "Prim" then Success(NotPrim)
    else if kind.typeName == "C-Prim" then
      match CPrimSources(w, kind)
      case Success(sources) => Success(CPrim(sources.value))
      case Failure(e) => Failure(e)
    else
      var head := w.name + ": " + StrOf(w.origin);
      var tail := if w.originX.Some? && w.originX.value != "" then " < " + w.originX.value else "";
      assert head <= head + tail;
      assert tail == "" ==> head + tail == head;
      Success(Described(head + tail))
  }

  /** A composite prim whose origin is " | "-joined sources, none holding
      "|", has one word source per source, each the parse of that source;
      so an origin written from `as_string` texts reads back as the same
      sources. */
  lemma {:induction false} CPrimJoinedSources(w: Word, kind: WordType, texts: seq<string>)
    requires kind.group == "Prim" && kind.typeName == "C-Prim"
    requires |texts| >= 1 && w.origin == Some(Text.Join(texts, " | "))
    requires forall i :: 0 <= i < |texts| ==> '|' !in texts[i] && WordSources.ParseStrict(texts[i]).Success?
    ensures GetSourcesPrim(w, kind).Success?
    ensures |GetSourcesPrim(w, kind).value.sources| == |texts|
    ensures forall i :: 0 <= i < |texts| ==>
      GetSourcesPrim(w, kind).value.sources[i] == WordSources.ParseStrict(texts[i]).value
  {
    Text.SplitJoinWide(texts, " | ");
  }

  /** The test word "humnu" with origin "humni" and no `origin_x`. */
  lemma DescribedExample(w: Word, kind: WordType)
    requires w.name == "humnu" && w.origin == Some("humni") && w.originX == Some("")
    requires kind.group == "Prim" && kind.typeName != "C-Prim"
    ensures GetSourcesPrim(w, kind) == Success(Described("humnu: humni"))
  {
    assert w.name + ": " + StrOf(w.origin) == "humnu: humni";
  }

  // ---------------------------------------------------------------- complexes

  /** A complex's source part without its final linking "r" or "h". */
  function TrimLinkLetter(part: string): (r: string)
    ensures r <= part && |part| - 1 <= |r|
    ensures r == part <==> part == [] || part[|part| - 1] !in {'r', 'h'}
  {
    if part != [] && part[|part| - 1] in {'r', 'h'} then part[..|part| - 1] else part
  }

  /** The "+"-separated parts of a complex's origin once brackets and
      slashes are gone. */
  function CpxParts(origin: string): seq<string> {
    Text.Split(Text.RemoveChars(origin, {'(', ')', '/'}), "+")
  }

  /** The parts that are real words, not the joining vowels and consonants
      "y", "r" and "n". */
  function KeepSourceParts(parts: seq<string>): (r: seq<string>)
    ensures |r| <= |parts|
    ensures forall x :: x in r <==> exists p :: p in parts && p !in ["y", "r", "n"] && x == TrimLinkLetter(p)
  {
    if parts == [] then []
    else
      var rest := KeepSourceParts(parts[1..]);
      assert forall p :: p in parts <==> p == parts[0] || p in parts[1..];
      if parts[0] in ["y", "r", "n"] then rest else [TrimLinkLetter(parts[0])] + rest
  }

  /** A part kept by `KeepSourceParts`: not one of "y", "r" and "n". */
  predicate KeptPart(p: string) {
    p !in ["y", "r", "n"]
  }

  /** Keeping works part by part and in order: the kept parts of `a + b`
      are those of `a` followed by those of `b`, and there is one kept part
      for each part that is not "y", "r" or "n". */
  lemma {:induction false} KeepSourcePartsAppend(a: seq<string>, b: seq<string>)
    ensures KeepSourceParts(a + b) == KeepSourceParts(a) + KeepSourceParts(b)
    ensures |KeepSourceParts(a)| == Seqs.Count(a, KeptPart)
    decreases |a|
  {
    if a == [] {
      assert a + b == b;
    } else {
      assert (a + b)[0] == a[0] && (a + b)[1..] == a[1..] + b;
      KeepSourcePartsAppend(a[1..], b);
    }
  }

  /** Neither a bracket, nor a slash, nor a "+". */
  predicate UnmarkedCpx(p: string) {
    '(' !in p && ')' !in p && '/' !in p && '+' !in p
  }

  /** Every part `CpxParts` reads is free of brackets, slashes and "+". */
  lemma CpxPartsClean(origin: string)
    ensures forall i :: 0 <= i < |CpxParts(origin)| ==> UnmarkedCpx(CpxParts(origin)[i])
  {
    var cleaned := Text.RemoveChars(origin, {'(', ')', '/'});
    Text.SplitPartsWithoutSeparator(cleaned, "+");
    Text.SplitExcludes(cleaned, "+", '(');
    Text.SplitExcludes(cleaned, "+", ')');
    Text.SplitExcludes(cleaned, "+", '/');
  }

  /** `_prepare_sources_cpx(word)`: [] for an empty origin; otherwise the
      "+"-parts without brackets and slashes, minus "y", "r" and "n", each
      without a final "r" or "h". No source holds a bracket, a slash or a
      "+". */
  function PrepareSourcesCpx(origin: Option<string>): (r: seq<string>)
    ensures origin.None? || origin.value == "" ==> r == []
    ensures origin.Some? && origin.value != "" ==> forall x :: x in r <==>
      exists p :: p in CpxParts(origin.value) && p !in ["y", "r", "n"] && x == TrimLinkLetter(p)
    ensures forall i :: 0 <= i < |r| ==> UnmarkedCpx(r[i])
  {
    if origin.None? || origin.value == "" then []
    else
      var parts := CpxParts(origin.value);
      var r := KeepSourceParts(parts);
      CpxPartsClean(origin.value);
      assert forall i :: 0 <= i < |r| ==> UnmarkedCpx(r[i]) by {
        forall i | 0 <= i < |r| ensures UnmarkedCpx(r[i]) {
          assert r[i] in r;
          var p :| p in parts && p !in ["y", "r", "n"] && r[i] == TrimLinkLetter(p);
          var j :| 0 <= j < |parts| && parts[j] == p;
        }
      }
      r
  }

  /** What `get_sources_cpx` and `get_sources_cpd` return: the source names
      (`as_str`), or the source words the query selects. */
  datatype SourceResult = SourceNames(names: seq<string>) | SourceWords(words: seq<Word>)

  /** `get_type_ids(types)`: the ids of the types whose `type`, `type_x` or
      `group` is one of the values. */
  function GetTypeIds(types: seq<WordType>, values: seq<string>): (r: seq<int>)
    ensures forall id :: id in r <==> exists t :: t in types && t.id == id && TypeQuery.HasProperty(t, values)
  {
    TypeQuery.SelectTypeByProperty(types, TypeQuery.Values(values), true).ids
  }

  /** The types a complex's sources are not, and a compound's are. */
  const LoanOrCompound: seq<string> := ["LW", "Cpd"]

  function NamedOutside(sources: seq<string>, ids: seq<int>): Word -> bool {
    (w: Word) => w.name in sources && w.typeId !in ids
  }

  function NamedInside(sources: seq<string>, ids: seq<int>): Word -> bool {
    (w: Word) => w.name in sources && w.typeId in ids
  }

  /** `words_from_source_cpx(sources)`: the words named in `sources` whose
      type is neither a loanword nor a compound. */
  function WordsFromSourceCpx(store: Store, sources: seq<string>): (r: seq<Word>)
    ensures forall w :: w in r <==> (w in store.words && w.name in sources &&
      !exists t :: t in store.types && t.id == w.typeId && TypeQuery.HasProperty(t, LoanOrCompound))
  {
    Seqs.Filter(store.words, NamedOutside(sources, GetTypeIds(store.types, LoanOrCompound)))
  }

  /** `words_from_source_cpd(sources)`: the words named in `sources` whose
      type is a loanword or a compound. */
  function WordsFromSourceCpd(store: Store, sources: seq<string>): (r: seq<Word>)
    ensures forall w :: w in r <==> (w in store.words && w.name in sources &&
      exists t :: t in store.types && t.id == w.typeId && TypeQuery.HasProperty(t, LoanOrCompound))
  {
    Seqs.Filter(store.words, NamedInside(sources, GetTypeIds(store.types, LoanOrCompound)))
  }

  /** The two queries split the words named in the sources between them:
      each such word is selected by exactly one, and together they select
      each as often as the words table holds it. */
  lemma SourcesPartition(store: Store, sources: seq<string>)
    ensures forall w :: w in store.words && w.name in sources ==>
      (w in WordsFromSourceCpx(store, sources) <==> w !in WordsFromSourceCpd(store, sources))
    ensures forall w: Word :: w.name in sources ==>
      multiset(WordsFromSourceCpx(store, sources))[w] + multiset(WordsFromSourceCpd(store, sources))[w] == multiset(store.words)[w]
  {
    var ids := GetTypeIds(store.types, LoanOrCompound);
    assert forall w :: NamedOutside(sources, ids)(w) == (w.name in sources && w.typeId !in ids);
    assert forall w :: NamedInside(sources, ids)(w) == (w.name in sources && w.typeId in ids);
  }

  /** `get_sources_cpx(word, as_str)`: [] unless the group is "Cpx";
      otherwise the prepared names, or the words they select. */
  function GetSourcesCpx(store: Store, w: Word, kind: WordType, asStr: bool): (r: SourceResult)
    ensures kind.group != "Cpx" ==> r == SourceNames([])
    ensures kind.group == "Cpx" && asStr ==> r == SourceNames(PrepareSourcesCpx(w.origin))
    ensures kind.group == "Cpx" && !asStr ==> r.SourceWords? && forall v :: v in r.words <==>
      v in store.words && v.name in PrepareSourcesCpx(w.origin) &&
      !exists t :: t in store.types && t.id == v.typeId && TypeQuery.HasProperty(t, LoanOrCompound)
  {
    if kind.group != "Cpx" then SourceNames([])
    else
      var sources := PrepareSourcesCpx(w.origin);
      if asStr then SourceNames(sources) else SourceWords(WordsFromSourceCpx(store, sources))
  }

  /** Once its brackets are removed, a complex's origin is read as its
      "+"-joined parts. */
  lemma PrepareJoined(origin: string, parts: seq<string>)
    requires origin != "" && |parts| >= 1
    requires forall i :: 0 <= i < |parts| ==> '+' !in parts[i]
    requires Text.RemoveChars(origin, {'(', ')', '/'}) == Text.Join(parts, "+")
    ensures PrepareSourcesCpx(Some(origin)) == KeepSourceParts(parts)
  {
    Text.SplitJoin(parts, "+");
  }

  /** A text without brackets, slashes and "+" is left as it is. */
  lemma UnmarkedKept(s: string)
    requires UnmarkedCpx(s)
    ensures Text.RemoveChars(s, {'(', ')', '/'}) == s
  {
    forall i | 0 <= i < |s| ensures s[i] !in {'(', ')', '/'} {
      assert s[i] in s;
    }
    Text.RemoveCharsNone(s, {'(', ')', '/'});
  }

  /** Removing the brackets of "a(b)c" leaves "abc". */
  lemma Unbracket(a: string, b: string, c: string)
    requires UnmarkedCpx(a) && UnmarkedCpx(b) && UnmarkedCpx(c)
    ensures Text.RemoveChars(a + "(" + b + ")" + c, {'(', ')', '/'}) == a + b + c
  {
    var cs := {'(', ')', '/'};
    assert Text.RemoveChars("(", cs) == [] && Text.RemoveChars(")", cs) == [];
    UnmarkedKept(a);
    UnmarkedKept(b);
    UnmarkedKept(c);
    Text.RemoveCharsConcat(a + "(" + b + ")", c, cs);
    Text.RemoveCharsConcat(a + "(" + b, ")", cs);
    Text.RemoveCharsConcat(a + "(", b, cs);
    Text.RemoveCharsConcat(a, "(", cs);
  }

  /** Removing characters around a separator they do not touch. */
  lemma RemoveCharsAround(x: string, sep: string, y: string, cs: set<char>)
    requires Text.RemoveChars(sep, cs) == sep
    ensures Text.RemoveChars(x + sep + y, cs) == Text.RemoveChars(x, cs) + sep + Text.RemoveChars(y, cs)
  {
    Text.RemoveCharsConcat(x + sep, y, cs);
    Text.RemoveCharsConcat(x, sep, cs);
  }

  /** Removing brackets and slashes keeps each "+". */
  lemma PlusKept()
    ensures Text.RemoveChars("+", {'(', ')', '/'}) == "+"
  {
  }

  /** A complex written "a(b)+c(d)e", like "pru(ci)+ka(kt)o", comes from
      "ab" and "cde": the bracketed letters are the ones the complex left
      out of its source words. */
  lemma TwoBracketedParts(a: string, b: string, c: string, d: string, e: string)
    requires UnmarkedCpx(a) && UnmarkedCpx(b) && UnmarkedCpx(c) && UnmarkedCpx(d) && UnmarkedCpx(e)
    ensures PrepareSourcesCpx(Some(a + "(" + b + ")+" + c + "(" + d + ")" + e)) == KeepSourceParts([a + b, c + d + e])
  {
    var x := a + "(" + b + ")" + "";
    var y := c + "(" + d + ")" + e;
    var origin := a + "(" + b + ")+" + c + "(" + d + ")" + e;
    assert origin == x + "+" + y;
    Unbracket(a, b, "");
    Unbracket(c, d, e);
    PlusKept();
    RemoveCharsAround(x, "+", y, {'(', ')', '/'});
    var parts := [a + b, c + d + e];
    assert a + b + "" == a + b;
    assert Text.Join(parts, "+") == (a + b) + "+" + (c + d + e);
    PrepareJoined(origin, parts);
  }

  /** The test complex "prukao", made from "pru(ci)+ka(kt)o", comes from
      "pruci" and "kakto". */
  lemma PrukaoSources(origin: string)
    requires origin == "pru(ci)+ka(kt)o"
    ensures PrepareSourcesCpx(Some(origin)) == ["pruci", "kakto"]
  {
    PrukaoPieces(origin);
    TwoBracketedParts("pru", "ci", "ka", "kt", "o");
    PrukaoKept();
  }

  lemma PrukaoPieces(origin: string)
    requires origin == "pru(ci)+ka(kt)o"
    ensures origin == "pru" + "(" + "ci" + ")+" + "ka" + "(" + "kt" + ")" + "o"
    ensures "pru" + "ci" == "pruci" && "ka" + "kt" + "o" == "kakto"
  {
  }

  lemma PrukaoKept()
    ensures KeepSourceParts(["pruci", "kakto"]) == ["pruci", "kakto"]
  {
    assert KeepSourceParts(["kakto"]) == ["kakto"];
  }

  /** The parts of "rih+y+has(fa)+gru(pa)" lose the joining "y" and the
      "h" ending "rih". */
  lemma RiyhasgruKept()
    ensures KeepSourceParts(["rih", "y", "hasfa", "grupa"]) == ["ri", "hasfa", "grupa"]
  {
    assert TrimLinkLetter("rih") == "ri";
    assert KeepSourceParts(["grupa"]) == ["grupa"];
    assert KeepSourceParts(["hasfa", "grupa"]) == ["hasfa", "grupa"];
    assert KeepSourceParts(["y", "hasfa", "grupa"]) == ["hasfa", "grupa"];
  }

  // ---------------------------------------------------------------- compounds

  /** The parts that are not empty, in order. */
  function DropEmpty(parts: seq<string>): (r: seq<string>)
    ensures forall x :: x in r <==> x in parts && x != ""
  {
    if parts == [] then []
    else
      assert forall x :: x in parts <==> x == parts[0] || x in parts[1..];
      (if parts[0] == "" then [] else [parts[0]]) + DropEmpty(parts[1..])
  }

  function StripAll(parts: seq<string>): (r: seq<string>)
    ensures |r| == |parts| && forall i :: 0 <= i < |parts| ==> r[i] == Text.Strip(parts[i])
  {
    seq(|parts|, i requires 0 <= i < |parts| => Text.Strip(parts[i]))
  }

  /** The "+"-parts of a compound's origin once brackets, slashes and
      hyphens are gone, empty parts dropped. */
  function CpdParts(origin: string): seq<string> {
    DropEmpty(Text.Split(Text.RemoveChars(origin, {'(', ')', '/', '-'}), "+"))
  }

  /** The characters a compound's origin uses around its sources. */
  predicate Unmarked(p: string) {
    '(' !in p && ')' !in p && '/' !in p && '-' !in p && '+' !in p
  }

  /** Every part `CpdParts` keeps is non-empty and unmarked. */
  lemma CpdPartsClean(origin: string)
    ensures forall i :: 0 <= i < |CpdParts(origin)| ==> CpdParts(origin)[i] != "" && Unmarked(CpdParts(origin)[i])
  {
    var cleaned := Text.RemoveChars(origin, {'(', ')', '/', '-'});
    var split := Text.Split(cleaned, "+");
    var parts := CpdParts(origin);
    Text.SplitPartsWithoutSeparator(cleaned, "+");
    Text.SplitExcludes(cleaned, "+", '(');
    Text.SplitExcludes(cleaned, "+", ')');
    Text.SplitExcludes(cleaned, "+", '/');
    Text.SplitExcludes(cleaned, "+", '-');
    forall i | 0 <= i < |parts| ensures parts[i] != "" && Unmarked(parts[i]) {
      assert parts[i] in parts;
      var j :| 0 <= j < |split| && split[j] == parts[i];
    }
  }

  /** `_prepare_sources_cpd(word)`: [] for an empty origin; otherwise the
      non-empty "+"-parts without brackets, slashes and hyphens, each
      stripped. No source holds one of those characters or surrounding
      whitespace. */
  function PrepareSourcesCpd(origin: Option<string>): (r: seq<string>)
    ensures origin.None? || origin.value == "" ==> r == []
    ensures origin.Some? && origin.value != "" ==>
      |r| == |CpdParts(origin.value)| &&
      forall i :: 0 <= i < |r| ==> CpdParts(origin.value)[i] != "" && r[i] == Text.Strip(CpdParts(origin.value)[i])
    ensures forall i :: 0 <= i < |r| ==> Text.Trimmed(r[i]) && Unmarked(r[i])
  {
    if origin.None? || origin.value == "" then []
    else
      var parts := CpdParts(origin.value);
      CpdPartsClean(origin.value);
      var r := StripAll(parts);
      assert forall i :: 0 <= i < |r| ==> Text.Trimmed(r[i]) && Unmarked(r[i]) by {
        forall i | 0 <= i < |r| ensures Unmarked(r[i]) {
          Text.StripSubset(parts[i], '(');
          Text.StripSubset(parts[i], ')');
          Text.StripSubset(parts[i], '/');
          Text.StripSubset(parts[i], '-');
          Text.StripSubset(parts[i], '+');
        }
      }
      r
  }

  /** `get_sources_cpd(word, as_str)`: [] unless the type is "Cpd";
      otherwise the prepared names, or the words they select. */
  function GetSourcesCpd(store: Store, w: Word, kind: WordType, asStr: bool): (r: SourceResult)
    ensures kind.typeName != "Cpd" ==> r == SourceNames([])
    ensures kind.typeName == "Cpd" && asStr ==> r == SourceNames(PrepareSourcesCpd(w.origin))
    ensures kind.typeName == "Cpd" && !asStr ==> r.SourceWords? && forall v :: v in r.words <==>
      v in store.words && v.name in PrepareSourcesCpd(w.origin) &&
      exists t :: t in store.types && t.id == v.typeId && TypeQuery.HasProperty(t, LoanOrCompound)
  {
    if kind.typeName != "Cpd" then SourceNames([])
    else
      var sources := PrepareSourcesCpd(w.origin);
      if asStr then SourceNames(sources) else SourceWords(WordsFromSourceCpd(store, sources))
  }
}
