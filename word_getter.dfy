/** `AddonWordGetter`: the legacy, session-based word queries. Each takes an
    optional base query (`add_to`, all words when absent), resolves the
    event itself and returns the rows of the query it builds. */
module WordGetter {
  import opened Common
  import opened Schema
  import Seqs
  import Text
  import Sorting
  import Filters
  import WordModel
  import WordSelectors
  import DefinitionSelectors

  /** `add_to if add_to else session.query(cls)`. */
  function Base(store: Store, addTo: Option<seq<Word>>): seq<Word> {
    if addTo.Some? then addTo.value else store.words
  }

  /** `_filter_event(event_id, add_to)`: the rows valid at the event. */
  function FilterEvent(e: int, rows: seq<Word>): (r: seq<Word>)
    ensures forall w :: w in r <==> w in rows && w.eventStart <= e && (w.eventEnd.None? || w.eventEnd.value > e)
  {
    Seqs.Filter(rows, (w: Word) => Filters.ValidAt(w, e))
  }

  /** `by_event(session, event_id, add_to)`: the base rows valid at the
      event (the latest one when `event_id` is falsy), ordered by name;
      AttributeError when the latest event is needed and there is none. */
  function ByEvent(store: Store, eventId: Option<int>, addTo: Option<seq<Word>>): (r: Result<seq<Word>>)
    ensures r.Failure? <==> !TruthyInt(eventId) && store.events == []
    ensures r.Failure? ==> r.error.AttributeError?
    ensures r.Success? ==> forall w :: w in r.value <==> w in Base(store, addTo) && Filters.LegacyFilter(eventId, store.events, w)
    ensures r.Success? ==> Sorting.SortedBy(r.value, WordModel.WordName, Text.LexLe)
    ensures r.Success? ==> forall w ::
      multiset(r.value)[w] == (if Filters.LegacyFilter(eventId, store.events, w) then multiset(Base(store, addTo))[w] else 0)
  {
    match Filters.LegacyEvent(eventId, store.events)
    case Failure(err) => Failure(err)
    case Success(e) =>
      var rows := FilterEvent(e, Base(store, addTo));
      assert forall w :: Filters.ValidAt(w, e) == Filters.LegacyFilter(eventId, store.events, w);
      Success(Sorting.SortByText(rows, WordModel.WordName))
  }

  /** The name condition of `by_name`: `*` rewritten to `%`, then LIKE when
      case-sensitive and ILIKE otherwise, whatever the database. */
  function NameFilter(name: string, caseSensitive: bool): (f: Filters.PatternFilter)
    ensures f.op == (if caseSensitive then Filters.Like else Filters.ILike)
    ensures f.pattern == Filters.LikePattern(name)
  {
    Filters.PatternFilter(if caseSensitive then Filters.Like else Filters.ILike, Filters.LikePattern(name))
  }

  /** `by_name(session, name, event_id, case_sensitive, add_to)`: `by_event`
      narrowed by the name condition, still ordered by name. */
  function ByName(store: Store, name: string, eventId: Option<int>, caseSensitive: bool, addTo: Option<seq<Word>>): (r: Result<seq<Word>>)
    ensures r.Failure? <==> !TruthyInt(eventId) && store.events == []
    ensures r.Success? ==> forall w :: w in r.value <==>
      w in Base(store, addTo) && Filters.LegacyFilter(eventId, store.events, w) && Filters.Matches(NameFilter(name, caseSensitive), w.name)
    ensures r.Success? ==> Sorting.SortedBy(r.value, WordModel.WordName, Text.LexLe)
  {
    match ByEvent(store, eventId, addTo)
    case Failure(err) => Failure(err)
    case Success(rows) =>
      var r := Seqs.Filter(rows, (w: Word) => Filters.Matches(NameFilter(name, caseSensitive), w.name));
      Sorting.FilterSorted(rows, (w: Word) => Filters.Matches(NameFilter(name, caseSensitive), w.name), WordModel.WordName, Text.LexLe);
      Success(r)
  }

  /** The number of keys linked to `d` that match the key condition and the
      language (the language only when truthy). */
  function MatchingKeys(store: Store, f: Filters.PatternFilter, language: Option<string>, d: Definition): nat {
    Seqs.Count(store.keys, (k: Key) =>
      (k.id, d.id) in store.connectKeys && Filters.Matches(f, k.word) && Filters.LanguageFilter(language, Some(k.language)))
  }

  /** How many rows the join word → definition → connect_keys → key yields
      for `w`: one per matching (definition, key) pair. */
  function JoinCount(store: Store, f: Filters.PatternFilter, language: Option<string>, w: Word): nat {
    Seqs.Sum(store.definitions, PerDefinition(store, f, language, w))
  }

  /** The rows the join yields for `w` through one definition. */
  function PerDefinition(store: Store, f: Filters.PatternFilter, language: Option<string>, w: Word): Definition -> nat {
    (d: Definition) => if d.wordId == w.id then MatchingKeys(store, f, language, d) else 0
  }

  /** Some key linked to `d` matches. */
  lemma MatchingKeysPositive(store: Store, f: Filters.PatternFilter, language: Option<string>, d: Definition)
    ensures MatchingKeys(store, f, language, d) > 0 <==>
      exists k :: k in store.keys && (k.id, d.id) in store.connectKeys &&
        Filters.Matches(f, k.word) && Filters.LanguageFilter(language, Some(k.language))
  {
    if exists k :: k in store.keys && (k.id, d.id) in store.connectKeys &&
        Filters.Matches(f, k.word) && Filters.LanguageFilter(language, Some(k.language)) {
      var k :| k in store.keys && (k.id, d.id) in store.connectKeys &&
        Filters.Matches(f, k.word) && Filters.LanguageFilter(language, Some(k.language));
      var j :| 0 <= j < |store.keys| && store.keys[j] == k;
    }
  }

  lemma JoinCountWitness(store: Store, f: Filters.PatternFilter, language: Option<string>, w: Word)
    requires JoinCount(store, f, language, w) > 0
    ensures WordSelectors.HasMatchingDefinition(store, f, language, w)
  {
    var perDefinition := PerDefinition(store, f, language, w);
    var i :| 0 <= i < |store.definitions| && perDefinition(store.definitions[i]) > 0;
    MatchingKeysPositive(store, f, language, store.definitions[i]);
  }

  lemma JoinCountFromWitness(store: Store, f: Filters.PatternFilter, language: Option<string>, w: Word, d: Definition, k: Key)
    requires d in store.definitions && d.wordId == w.id && k in store.keys && (k.id, d.id) in store.connectKeys
    requires Filters.Matches(f, k.word) && Filters.LanguageFilter(language, Some(k.language))
    ensures JoinCount(store, f, language, w) > 0
  {
    MatchingKeysPositive(store, f, language, d);
    var i :| 0 <= i < |store.definitions| && store.definitions[i] == d;
    assert PerDefinition(store, f, language, w)(store.definitions[i]) > 0;
  }

  /** The join yields a row for `w` exactly when `w` owns a definition
      linked to a matching key. */
  lemma JoinCountPositive(store: Store, f: Filters.PatternFilter, language: Option<string>, w: Word)
    ensures JoinCount(store, f, language, w) > 0 <==> WordSelectors.HasMatchingDefinition(store, f, language, w)
  {
    if JoinCount(store, f, language, w) > 0 {
      JoinCountWitness(store, f, language, w);
    }
    if WordSelectors.HasMatchingDefinition(store, f, language, w) {
      var d, k :| d in store.definitions && d.wordId == w.id && k in store.keys && (k.id, d.id) in store.connectKeys &&
        Filters.Matches(f, k.word) && Filters.LanguageFilter(language, Some(k.language));
      JoinCountFromWitness(store, f, language, w, d, k);
    }
  }

  /** `by_key(session, key, language, event_id, case_sensitive, add_to)`:
      `by_event` joined to definitions and their keys, filtered by the key
      condition (LIKE when case-sensitive, ILIKE otherwise) and by the
      language when it is truthy. The join is not made distinct: a word
      comes back once per matching (definition, key) pair. */
  function ByKey(store: Store, key: string, language: Option<string>, eventId: Option<int>, caseSensitive: bool, addTo: Option<seq<Word>>): (r: Result<seq<Word>>)
    ensures r.Failure? <==> !TruthyInt(eventId) && store.events == []
    ensures r.Success? ==> forall w :: w in r.value <==>
      w in Base(store, addTo) && Filters.LegacyFilter(eventId, store.events, w) &&
      WordSelectors.HasMatchingDefinition(store, NameFilter(key, caseSensitive), language, w)
    ensures r.Success? ==> Sorting.SortedBy(r.value, WordModel.WordName, Text.LexLe)
    ensures r.Success? ==> forall w ::
      multiset(r.value)[w] ==
        multiset(ByEvent(store, eventId, addTo).value)[w] * JoinCount(store, NameFilter(key, caseSensitive), language, w)
  {
    match ByEvent(store, eventId, addTo)
    case Failure(err) => Failure(err)
    case Success(rows) =>
      var f := NameFilter(key, caseSensitive);
      var joined := Seqs.Expand(rows, (w: Word) => JoinCount(store, f, language, w));
      assert forall w :: JoinCount(store, f, language, w) > 0 <==> WordSelectors.HasMatchingDefinition(store, f, language, w) by {
        forall w ensures JoinCount(store, f, language, w) > 0 <==> WordSelectors.HasMatchingDefinition(store, f, language, w) {
          JoinCountPositive(store, f, language, w);
        }
      }
      forall w ensures multiset(joined)[w] == multiset(rows)[w] * JoinCount(store, f, language, w) {
        Seqs.ExpandMultiset(rows, (w: Word) => JoinCount(store, f, language, w), w);
      }
      Success(Sorting.SortByText(joined, WordModel.WordName))
  }

  /** `by_key(...).all()`: the ORM returns each word of the join once, at
      its first row, so the rows come back distinct and still ordered by
      name. (`.count()` counts the join rows, as `ByKey` gives them.) */
  function ByKeyAll(store: Store, key: string, language: Option<string>, eventId: Option<int>, caseSensitive: bool, addTo: Option<seq<Word>>): (r: Result<seq<Word>>)
    ensures r.Failure? <==> !TruthyInt(eventId) && store.events == []
    ensures r.Success? ==> Seqs.NoDup(r.value)
    ensures r.Success? ==> forall w ::
      multiset(r.value)[w] == if KeyMatched(store, key, language, eventId, caseSensitive, addTo, w) then 1 else 0
    ensures r.Success? ==> Sorting.SortedBy(r.value, WordModel.WordName, Text.LexLe)
  {
    match ByKey(store, key, language, eventId, caseSensitive, addTo)
    case Failure(err) => Failure(err)
    case Success(rows) =>
      Sorting.DedupSorted(rows, WordModel.WordName, Text.LexLe);
      var distinct := Seqs.Dedup(rows);
      forall w ensures multiset(distinct)[w] == if KeyMatched(store, key, language, eventId, caseSensitive, addTo, w) then 1 else 0 {
        Seqs.DedupMultiset(rows, w);
        assert w in rows <==> KeyMatched(store, key, language, eventId, caseSensitive, addTo, w);
      }
      Success(distinct)
  }

  /** A word `by_key` returns: a base row valid at the legacy event that
      owns a definition linked to a matching key. */
  predicate KeyMatched(store: Store, key: string, language: Option<string>, eventId: Option<int>, caseSensitive: bool, addTo: Option<seq<Word>>, w: Word) {
    w in Base(store, addTo) && Filters.LegacyFilter(eventId, store.events, w) &&
    WordSelectors.HasMatchingDefinition(store, NameFilter(key, caseSensitive), language, w)
  }

  /** The number of rows `by_key` returns: the sum of the join counts over
      the rows of `by_event`. */
  lemma ByKeyRowCount(store: Store, key: string, language: Option<string>, eventId: Option<int>, caseSensitive: bool, addTo: Option<seq<Word>>)
    requires ByEvent(store, eventId, addTo).Success?
    ensures |ByKey(store, key, language, eventId, caseSensitive, addTo).value| ==
      Seqs.Sum(ByEvent(store, eventId, addTo).value, (w: Word) => JoinCount(store, NameFilter(key, caseSensitive), language, w))
  {
  }

  /** On a database other than SQLite the legacy `by_event` selects the same
      words as `WordSelector().by_event`, once the event resolves, when an
      explicit event is given or the latest row's key is its event id
      (`Filters.LegacyEventDiverges` shows what happens otherwise). */
  lemma ByEventMatchesSelector(store: Store, eventId: Option<int>, w: Word)
    requires ByEvent(store, eventId, None).Success?
    requires TruthyInt(eventId) || Filters.LatestAligned(store.events)
    ensures w in ByEvent(store, eventId, None).value <==>
      w in WordSelectors.Rows(store, WordSelectors.WordSelector(false, [], false).ByEvent(eventId))
  {
    Filters.LegacyEventAgrees(eventId, store.events, w);
    WordSelectors.NewSelectsAll(store, SubclassOf(BaseWord, "BaseWord"), false);
    WordSelectors.ByEventRows(store, WordSelectors.WordSelector(false, [], false), eventId, w);
  }

  /** On a database other than SQLite the legacy `by_key` with a string key
      selects the same words as `WordSelector().by_event(E).by_key(key)`,
      under the same condition on the event; it only repeats them. */
  lemma ByKeyMatchesSelector(store: Store, key: string, language: Option<string>, eventId: Option<int>, caseSensitive: bool, w: Word)
    requires ByEvent(store, eventId, None).Success?
    requires TruthyInt(eventId) || Filters.LatestAligned(store.events)
    ensures w in ByKey(store, key, language, eventId, caseSensitive, None).value <==>
      w in WordSelectors.Rows(store, WordSelectors.WordSelector(false, [], false).ByEvent(eventId)
        .ByKey(DefinitionSelectors.KeyString(key), language, caseSensitive))
  {
    Filters.LegacyEventAgrees(eventId, store.events, w);
    SelectorByKeyRows(store, key, language, eventId, caseSensitive, w);
  }

  /** The rows of `WordSelector().by_event(E).by_key(key)` on a database
      other than SQLite, in the legacy getter's terms. */
  lemma SelectorByKeyRows(store: Store, key: string, language: Option<string>, eventId: Option<int>, caseSensitive: bool, w: Word)
    ensures w in WordSelectors.Rows(store, WordSelectors.WordSelector(false, [], false).ByEvent(eventId)
        .ByKey(DefinitionSelectors.KeyString(key), language, caseSensitive)) <==>
      w in store.words && Filters.EventFilter(eventId, store.events, w) &&
      WordSelectors.HasMatchingDefinition(store, NameFilter(key, caseSensitive), language, w)
  {
    var sel := WordSelectors.WordSelector(false, [], false);
    var keyArg := DefinitionSelectors.KeyString(key);
    WordSelectors.NewSelectsAll(store, SubclassOf(BaseWord, "BaseWord"), false);
    WordSelectors.ByEventRows(store, sel, eventId, w);
    WordSelectors.ByKeyRows(store, sel.ByEvent(eventId), keyArg, language, caseSensitive, w);
    assert Filters.PatternFilterFor(DefinitionSelectors.SearchText(keyArg), caseSensitive, false) == NameFilter(key, caseSensitive);
  }
}
