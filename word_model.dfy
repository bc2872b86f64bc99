/** The query properties of `BaseWord`: derivatives and parents through
    `connect_words`, derivatives narrowed by type, affixes and complexes,
    definitions in position order, and the keys of a word. */
module WordModel {
  import opened Common
  import opened Schema
  import Seqs
  import Sorting
  import Text

  function WordName(w: Word): string { w.name }

  /** `derivatives`: the words `c` with a `connect_words` row (w, c). */
  function Derivatives(store: Store, w: Word): (r: seq<Word>)
    ensures forall c :: c in r <==> c in store.words && (w.id, c.id) in store.connectWords
    ensures forall c :: multiset(r)[c] == if (w.id, c.id) in store.connectWords then multiset(store.words)[c] else 0
  {
    Seqs.Filter(store.words, (c: Word) => (w.id, c.id) in store.connectWords)
  }

  /** `parents`: the words `p` with a `connect_words` row (p, w). */
  function Parents(store: Store, w: Word): (r: seq<Word>)
    ensures forall p :: p in r <==> p in store.words && (p.id, w.id) in store.connectWords
  {
    Seqs.Filter(store.words, (p: Word) => (p.id, w.id) in store.connectWords)
  }

  /** Derivation is one relation seen from both ends. */
  lemma DerivativesAndParents(store: Store, p: Word, c: Word)
    requires p in store.words && c in store.words
    ensures c in Derivatives(store, p) <==> p in Parents(store, c)
  {
  }

  /** The equality filters of `derivatives_query_by` on the joined type row,
      one per truthy argument; all of them must hold. */
  predicate TypeFieldsEqual(t: WordType, wordType: Option<string>, wordTypeX: Option<string>, wordGroup: Option<string>) {
    (TruthyText(wordType) ==> t.typeName == wordType.value) &&
    (TruthyText(wordTypeX) ==> t.typeX == wordTypeX.value) &&
    (TruthyText(wordGroup) ==> t.group == wordGroup.value)
  }

  /** Whether the type row joined to `c` satisfies the filters. */
  predicate HasTypeWith(store: Store, c: Word, wordType: Option<string>, wordTypeX: Option<string>, wordGroup: Option<string>) {
    match TypeById(store.types, c.typeId)
    case None => false
    case Some(t) => TypeFieldsEqual(t, wordType, wordTypeX, wordGroup)
  }

  /** `derivatives_query_by(word_type, word_type_x, word_group)`: the
      derivatives whose type satisfies every filter given, by name. */
  function DerivativesQueryBy(store: Store, w: Word, wordType: Option<string>, wordTypeX: Option<string>, wordGroup: Option<string>): (r: seq<Word>)
    ensures forall c :: c in r <==> c in Derivatives(store, w) && HasTypeWith(store, c, wordType, wordTypeX, wordGroup)
    ensures forall c ::
      multiset(r)[c] == if HasTypeWith(store, c, wordType, wordTypeX, wordGroup) then multiset(Derivatives(store, w))[c] else 0
    ensures Sorting.SortedBy(r, WordName, Text.LexLe)
  {
    var matching := Seqs.Filter(Derivatives(store, w), (c: Word) => HasTypeWith(store, c, wordType, wordTypeX, wordGroup));
    Sorting.SortByText(matching, WordName)
  }

  /** `derivatives_query_by` as written: building `type_values` reads
      `type_class.type` first, and `BaseType` has no such attribute (its
      `type` column is the attribute `type_`), so every call raises
      AttributeError before any query is built. */
  function DerivativesQueryByAsWritten(store: Store, w: Word, wordType: Option<string>, wordTypeX: Option<string>, wordGroup: Option<string>): (r: Result<seq<Word>>)
    ensures r.Failure? && r.error.AttributeError?
  {
    TypeAttributeMissing();
    match TypeClassAttribute("type")
    case Failure(err) => Failure(err)
    case Success(_) => Success(DerivativesQueryBy(store, w, wordType, wordTypeX, wordGroup))
  }

  /** `affixes` and `complexes` go through `derivatives_query_by`, so as
      written they raise AttributeError even for a word that has an affix
      or a complex among its derivatives; the corrected queries return it. */
  lemma AffixesAsWrittenFail(store: Store, w: Word, c: Word)
    requires c in Derivatives(store, w) && TypeById(store.types, c.typeId).Some?
    requires TypeById(store.types, c.typeId).value.typeName == "Afx"
    ensures DerivativesQueryByAsWritten(store, w, Some("Afx"), None, None).Failure?
    ensures c in Affixes(store, w)
  {
  }

  lemma ComplexesAsWrittenFail(store: Store, w: Word, c: Word)
    requires c in Derivatives(store, w) && TypeById(store.types, c.typeId).Some?
    requires TypeById(store.types, c.typeId).value.group == "Cpx"
    ensures DerivativesQueryByAsWritten(store, w, None, None, Some("Cpx")).Failure?
    ensures c in Complexes(store, w)
  {
  }

  /** When no filter is truthy (each None or ""), only the join remains:
      every derivative that has a type row, as often as it is linked, by
      name. */
  lemma DerivativesQueryByNoFilters(store: Store, w: Word, wordType: Option<string>, wordTypeX: Option<string>, wordGroup: Option<string>, c: Word)
    requires !TruthyText(wordType) && !TruthyText(wordTypeX) && !TruthyText(wordGroup)
    ensures c in DerivativesQueryBy(store, w, wordType, wordTypeX, wordGroup) <==>
            c in Derivatives(store, w) && TypeById(store.types, c.typeId).Some?
    ensures multiset(DerivativesQueryBy(store, w, wordType, wordTypeX, wordGroup))[c] ==
            if TypeById(store.types, c.typeId).Some? then multiset(Derivatives(store, w))[c] else 0
  {
  }

  /** `affixes`: the derivatives of type "Afx", by name. */
  function Affixes(store: Store, w: Word): (r: seq<Word>)
    ensures forall c :: c in r <==> (c in Derivatives(store, w) &&
      TypeById(store.types, c.typeId).Some? && TypeById(store.types, c.typeId).value.typeName == "Afx")
    ensures forall c :: multiset(r)[c] == if TypeById(store.types, c.typeId).Some? &&
      TypeById(store.types, c.typeId).value.typeName == "Afx" then multiset(Derivatives(store, w))[c] else 0
    ensures Sorting.SortedBy(r, WordName, Text.LexLe)
  {
    var r := DerivativesQueryBy(store, w, Some("Afx"), None, None);
    assert forall c :: HasTypeWith(store, c, Some("Afx"), None, None) <==>
      (TypeById(store.types, c.typeId).Some? && TypeById(store.types, c.typeId).value.typeName == "Afx");
    r
  }

  /** `complexes`: the derivatives of group "Cpx", by name. */
  function Complexes(store: Store, w: Word): (r: seq<Word>)
    ensures forall c :: c in r <==> (c in Derivatives(store, w) &&
      TypeById(store.types, c.typeId).Some? && TypeById(store.types, c.typeId).value.group == "Cpx")
    ensures forall c :: multiset(r)[c] == if TypeById(store.types, c.typeId).Some? &&
      TypeById(store.types, c.typeId).value.group == "Cpx" then multiset(Derivatives(store, w))[c] else 0
    ensures Sorting.SortedBy(r, WordName, Text.LexLe)
  {
    var r := DerivativesQueryBy(store, w, None, None, Some("Cpx"));
    assert forall c :: HasTypeWith(store, c, None, None, Some("Cpx")) <==>
      (TypeById(store.types, c.typeId).Some? && TypeById(store.types, c.typeId).value.group == "Cpx");
    r
  }

  function DefinitionPosition(d: Definition): int { d.position }

  /** `definitions`: the word's definitions in ascending position. */
  function Definitions(store: Store, w: Word): (r: seq<Definition>)
    ensures forall d :: d in r <==> d in store.definitions && d.wordId == w.id
    ensures Sorting.SortedBy(r, DefinitionPosition, Sorting.IntLe)
    ensures forall d :: multiset(r)[d] == if d.wordId == w.id then multiset(store.definitions)[d] else 0
  {
    Sorting.SortByInt(Seqs.Filter(store.definitions, (d: Definition) => d.wordId == w.id), DefinitionPosition)
  }

  /** A key is linked to a definition through `connect_keys` (KID, DID). */
  predicate Linked(store: Store, k: Key, d: Definition) {
    (k.id, d.id) in store.connectKeys
  }

  /** `d.keys_query.all()`: the keys linked to a definition. */
  function DefinitionKeys(store: Store, d: Definition): (r: seq<Key>)
    ensures forall k :: k in r <==> k in store.keys && Linked(store, k, d)
  {
    Seqs.Filter(store.keys, (k: Key) => Linked(store, k, d))
  }

  /** The keys of every definition in `defs`, definition by definition,
      with repetitions. */
  function KeysOfDefinitions(store: Store, defs: seq<Definition>): (r: seq<Key>)
    ensures forall k :: k in r <==> k in store.keys && exists d :: d in defs && Linked(store, k, d)
  {
    if defs == [] then []
    else
      var rest := KeysOfDefinitions(store, defs[1..]);
      assert forall d :: d in defs <==> d == defs[0] || d in defs[1..];
      DefinitionKeys(store, defs[0]) + rest
  }

  /** Whether `k` belongs to one of the word's definitions. */
  predicate KeyOfWord(store: Store, w: Word, k: Key) {
    k in store.keys && exists d :: d in store.definitions && d.wordId == w.id && Linked(store, k, d)
  }

  /** `keys` as written: `sorted(set(...))` over key objects that define no
      ordering, so Python raises TypeError as soon as there are two
      distinct keys to compare; with fewer it returns them. */
  function KeysAsWritten(store: Store, w: Word): (r: Result<seq<Key>>)
    ensures r.Failure? <==> |Seqs.Dedup(KeysOfDefinitions(store, Definitions(store, w)))| >= 2
    ensures r.Success? ==> |r.value| <= 1 && forall k :: k in r.value ==> KeyOfWord(store, w, k)
    ensures r.Success? ==> r.value == Keys(store, w)
  {
    var distinct := Seqs.Dedup(KeysOfDefinitions(store, Definitions(store, w)));
    if |distinct| >= 2 then Failure(TypeError("'<' not supported between instances of 'BaseKey' and 'BaseKey'"))
    else
      ShortPermutation(Sorting.SortByText(distinct, KeyWord), distinct);
      Success(distinct)
  }

  /** A permutation of a sequence of at most one element is that sequence. */
  lemma ShortPermutation<T>(a: seq<T>, b: seq<T>)
    requires multiset(a) == multiset(b) && |b| <= 1
    ensures a == b
  {
    assert |a| == |multiset(a)| == |b|;
    if |b| == 1 {
      assert a[0] in multiset(b);
    }
  }

  /** The failure as written: a word with two different keys — the test
      word "prukao", whose first definition is linked to "test" and
      "examine" — makes `keys` raise TypeError, while the intended `keys`
      lists both. */
  lemma KeysAsWrittenFails(store: Store, w: Word, d1: Definition, d2: Definition, k1: Key, k2: Key)
    requires d1 in store.definitions && d1.wordId == w.id && d2 in store.definitions && d2.wordId == w.id
    requires k1 in store.keys && Linked(store, k1, d1) && k2 in store.keys && Linked(store, k2, d2)
    requires k1 != k2
    ensures KeysAsWritten(store, w).Failure? && KeysAsWritten(store, w).error.TypeError?
    ensures k1 in Keys(store, w) && k2 in Keys(store, w)
  {
    var distinct := Seqs.Dedup(KeysOfDefinitions(store, Definitions(store, w)));
    assert k1 in distinct && k2 in distinct;
    TwoMembers(distinct, k1, k2);
  }

  /** A sequence holding two different values has at least two elements. */
  lemma TwoMembers<T>(s: seq<T>, x: T, y: T)
    requires x in s && y in s && x != y
    ensures |s| >= 2
  {
    var i :| 0 <= i < |s| && s[i] == x;
    var j :| 0 <= j < |s| && s[j] == y;
    assert i != j;
  }

  function KeyWord(k: Key): string { k.word }

  /** `keys` as evidently intended: the distinct keys of the word's
      definitions, ordered by key word (the order of `keys_query`). */
  function Keys(store: Store, w: Word): (r: seq<Key>)
    ensures Seqs.NoDup(r)
    ensures Sorting.SortedBy(r, KeyWord, Text.LexLe)
    ensures forall k :: k in r <==> KeyOfWord(store, w, k)
  {
    var distinct := Seqs.Dedup(KeysOfDefinitions(store, Definitions(store, w)));
    var r := Sorting.SortByText(distinct, KeyWord);
    Seqs.NoDupSubmultiset(distinct, r);
    r
  }

  /** The number of rows `keys_query` yields for key `k`: one per
      definition of the word linked to `k`. */
  function KeysQueryRowCount(store: Store, w: Word, k: Key): nat {
    if Seqs.Any(store.words, (x: Word) => x.id == w.id)
    then Seqs.Count(store.definitions, (d: Definition) => d.wordId == w.id && Linked(store, k, d))
    else 0
  }

  /** `keys_query` (and `select_keys_query` in `addons/utils.py`): one row
      per (key, definition of the word) link, ordered by key word. */
  function KeysQuery(store: Store, w: Word): (r: seq<Key>)
    ensures Sorting.SortedBy(r, KeyWord, Text.LexLe)
    ensures forall k :: k in r <==> k in store.keys && KeysQueryRowCount(store, w, k) > 0
    ensures |r| == Seqs.Sum(store.keys, (k: Key) => KeysQueryRowCount(store, w, k))
    ensures forall k :: multiset(r)[k] == multiset(store.keys)[k] * KeysQueryRowCount(store, w, k)
  {
    var rows := Seqs.Expand(store.keys, (k: Key) => KeysQueryRowCount(store, w, k));
    forall k ensures multiset(rows)[k] == multiset(store.keys)[k] * KeysQueryRowCount(store, w, k) {
      Seqs.ExpandMultiset(store.keys, (k: Key) => KeysQueryRowCount(store, w, k), k);
    }
    Sorting.SortByText(rows, KeyWord)
  }

  /** With no key row stored twice, a key comes back once per definition
      of the word linked to it, and not at all when it is not stored. */
  lemma KeysQueryMultiplicity(store: Store, w: Word, k: Key)
    requires Seqs.NoDup(store.keys)
    ensures multiset(KeysQuery(store, w))[k] == if k in store.keys then KeysQueryRowCount(store, w, k) else 0
  {
    Seqs.NoDupProduct(store.keys, k, KeysQueryRowCount(store, w, k));
  }

  /** For a stored word, the distinct keys of `keys` are exactly the keys
      the query returns; the query may repeat a key that several of the
      word's definitions share, `keys` never does. */
  lemma KeysMatchQuery(store: Store, w: Word, k: Key)
    requires w in store.words
    ensures k in Keys(store, w) <==> k in KeysQuery(store, w)
  {
    assert Seqs.Any(store.words, (x: Word) => x.id == w.id) by {
      var i :| 0 <= i < |store.words| && store.words[i] == w;
    }
    var p := (d: Definition) => d.wordId == w.id && Linked(store, k, d);
    if KeyOfWord(store, w, k) {
      var d :| d in store.definitions && d.wordId == w.id && Linked(store, k, d);
      var i :| 0 <= i < |store.definitions| && store.definitions[i] == d;
      assert p(store.definitions[i]);
    }
    if k in store.keys && Seqs.Count(store.definitions, p) > 0 {
      var i :| 0 <= i < |store.definitions| && p(store.definitions[i]);
      assert KeyOfWord(store, w, k);
    }
  }
}
