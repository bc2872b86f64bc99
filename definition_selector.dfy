/** `DefinitionSelector`: a select statement over definitions that each
    method narrows by one more condition. The model keeps the statement as
    the list of its conditions; `Rows` gives the definitions it returns. */
module DefinitionSelectors {
  import opened Common
  import opened Schema
  import Seqs
  import Filters
  import DefinitionModel
  import Selection

  /** The `key` argument of `by_key`: a key row or a plain string. */
  datatype KeyArg = KeyRow(key: Key) | KeyString(text: string)

  /** The text `by_key` searches for: `key.word` for a key row, `str(key)`
      otherwise. */
  function SearchText(key: KeyArg): string {
    match key
    case KeyRow(k) => k.word
    case KeyString(s) => s
  }

  /** The language `by_key` filters on: a key row's own language, otherwise
      the `language` argument. */
  function SearchLanguage(key: KeyArg, language: Option<string>): Option<string> {
    match key
    case KeyRow(k) => Some(k.language)
    case KeyString(_) => language
  }

  /** One condition of the statement. */
  datatype DefinitionCond =
    | ValidWordCond(eventId: Option<int>)                              // by_event
    | KeyCond(filter: Filters.PatternFilter, language: Option<string>)  // by_key
    | LanguageCond(language: Option<string>)                           // by_language

  datatype DefinitionSelector = DefinitionSelector(isSqlite: bool, conds: seq<DefinitionCond>)
  {
    /** `by_event(event_id)`. */
    function ByEvent(eventId: Option<int>): DefinitionSelector {
      this.(conds := conds + [ValidWordCond(eventId)])
    }

    /** `by_key(key, language, case_sensitive)`; the join with keys is
        followed by `distinct()`, which the row semantics below already
        gives. */
    function ByKey(key: KeyArg, language: Option<string>, caseSensitive: bool): DefinitionSelector {
      var filter := Filters.PatternFilterFor(SearchText(key), caseSensitive, isSqlite);
      this.(conds := conds + [KeyCond(filter, SearchLanguage(key, language))])
    }

    /** `by_language(language)`. */
    function ByLanguage(language: Option<string>): DefinitionSelector {
      this.(conds := conds + [LanguageCond(language)])
    }
  }

  /** `DefinitionSelector(class_, is_sqlite)`: ValueError unless the class is
      `BaseDefinition` or a subclass; otherwise a statement without
      conditions. */
  function New(cls: EntityClass, isSqlite: bool): (r: Result<DefinitionSelector>)
    ensures r.Failure? <==> !IsSubclass(cls, BaseDefinition)
    ensures r.Failure? ==> r.error.ValueError?
    ensures r.Success? ==> r.value.isSqlite == isSqlite && r.value.conds == []
  {
    if IsSubclass(cls, BaseDefinition) then Success(DefinitionSelector(isSqlite, []))
    else Failure(ValueError("Provided attribute class_ is not a BaseDefinition or its child"))
  }

  /** Some key link names the definition (the join with `connect_keys`). */
  predicate HasKeyLink(store: Store, d: Definition) {
    exists link :: link in store.connectKeys && link.1 == d.id
  }

  /** The source word of `d` is valid at the (resolved) event. */
  predicate SourceWordValid(store: Store, eventId: Option<int>, d: Definition) {
    Seqs.Any(store.words, (w: Word) => w.id == d.wordId && Filters.EventFilter(eventId, store.events, w))
  }

  /** `SourceWordValid` as the join it stands for: some word with the
      definition's word id is valid at the event. */
  lemma SourceWordValidMeaning(store: Store, eventId: Option<int>, d: Definition)
    ensures SourceWordValid(store, eventId, d) <==>
      exists w :: w in store.words && w.id == d.wordId && Filters.EventFilter(eventId, store.events, w)
  {
    if exists w :: w in store.words && w.id == d.wordId && Filters.EventFilter(eventId, store.events, w) {
      var w :| w in store.words && w.id == d.wordId && Filters.EventFilter(eventId, store.events, w);
      var i :| 0 <= i < |store.words| && store.words[i] == w;
    }
  }

  /** Some key linked to `d` matches the pattern and the language filter. */
  predicate HasMatchingKey(store: Store, f: Filters.PatternFilter, language: Option<string>, d: Definition) {
    Seqs.Any(store.keys, (k: Key) =>
      (k.id, d.id) in store.connectKeys && Filters.Matches(f, k.word) && Filters.LanguageFilter(language, Some(k.language)))
  }

  predicate Holds(store: Store, c: DefinitionCond, d: Definition) {
    match c
    case ValidWordCond(e) => HasKeyLink(store, d) && SourceWordValid(store, e, d)
    case KeyCond(f, language) => HasMatchingKey(store, f, language, d)
    case LanguageCond(language) => DefinitionModel.FilterLanguage(language, d)
  }

  /** The conditions as one function of the store, for `Selection`. */
  function Cond(store: Store): (DefinitionCond, Definition) -> bool {
    (c: DefinitionCond, d: Definition) => Holds(store, c, d)
  }

  /** The definitions the statement returns, in table order. */
  function Rows(store: Store, sel: DefinitionSelector): (r: seq<Definition>)
    ensures forall d :: d in r <==> d in store.definitions && Selection.AllHold(Cond(store), sel.conds, d)
  {
    Selection.Select(store.definitions, Cond(store), sel.conds)
  }

  /** A new selector returns every definition. */
  lemma NewSelectsAll(store: Store, cls: EntityClass, isSqlite: bool)
    requires IsSubclass(cls, BaseDefinition)
    ensures Rows(store, New(cls, isSqlite).value) == store.definitions
  {
    Selection.SelectNone(store.definitions, Cond(store));
  }

  /** Each method narrows the rows already selected, keeping their order. */
  lemma RowsNarrow(store: Store, sel: DefinitionSelector, c: DefinitionCond)
    ensures Rows(store, sel.(conds := sel.conds + [c])) == Seqs.Filter(Rows(store, sel), (d: Definition) => Holds(store, c, d))
  {
    Selection.SelectNarrow(store.definitions, Cond(store), sel.conds, c, (d: Definition) => Holds(store, c, d));
  }

  /** `by_event(E)` keeps the definitions that have a key link and whose
      source word is valid at E (the latest event when E is None or 0). */
  lemma ByEventRows(store: Store, sel: DefinitionSelector, eventId: Option<int>, d: Definition)
    ensures d in Rows(store, sel.ByEvent(eventId)) <==>
      d in Rows(store, sel) &&
      (exists link :: link in store.connectKeys && link.1 == d.id) &&
      (exists w :: w in store.words && w.id == d.wordId && Filters.EventFilter(eventId, store.events, w))
  {
    Selection.AllHoldAppend(Cond(store), sel.conds, ValidWordCond(eventId), d);
    SourceWordValidMeaning(store, eventId, d);
  }

  /** `by_key(key, language)` keeps the definitions linked to a key whose
      word matches the search and whose language passes the filter. */
  lemma ByKeyRows(store: Store, sel: DefinitionSelector, key: KeyArg, language: Option<string>, caseSensitive: bool, d: Definition)
    ensures d in Rows(store, sel.ByKey(key, language, caseSensitive)) <==>
      d in Rows(store, sel) &&
      exists k :: k in store.keys && (k.id, d.id) in store.connectKeys &&
        Filters.Matches(Filters.PatternFilterFor(SearchText(key), caseSensitive, sel.isSqlite), k.word) &&
        Filters.LanguageFilter(SearchLanguage(key, language), Some(k.language))
  {
    var f := Filters.PatternFilterFor(SearchText(key), caseSensitive, sel.isSqlite);
    var lang := SearchLanguage(key, language);
    Selection.AllHoldAppend(Cond(store), sel.conds, KeyCond(f, lang), d);
    if exists k :: k in store.keys && (k.id, d.id) in store.connectKeys && Filters.Matches(f, k.word) && Filters.LanguageFilter(lang, Some(k.language)) {
      var k :| k in store.keys && (k.id, d.id) in store.connectKeys && Filters.Matches(f, k.word) && Filters.LanguageFilter(lang, Some(k.language));
      var i :| 0 <= i < |store.keys| && store.keys[i] == k;
    }
  }

  /** For a key row, `by_key` searches for the key's own word in the key's
      own language, whatever `language` argument is passed. */
  lemma KeyRowOverridesArguments(sel: DefinitionSelector, k: Key, language: Option<string>, caseSensitive: bool)
    ensures sel.ByKey(KeyRow(k), language, caseSensitive) == sel.ByKey(KeyString(k.word), Some(k.language), caseSensitive)
  {
  }

  /** `by_language(language)` keeps the definitions in that language; with
      no language it keeps them all. */
  lemma ByLanguageRows(store: Store, sel: DefinitionSelector, language: Option<string>, d: Definition)
    ensures d in Rows(store, sel.ByLanguage(language)) <==>
      d in Rows(store, sel) && (TruthyText(language) ==> d.language == Some(language.value))
  {
    Selection.AllHoldAppend(Cond(store), sel.conds, LanguageCond(language), d);
  }

  /** With no language, `by_language` selects what was selected before. */
  lemma ByLanguageNoneKeepsAll(store: Store, sel: DefinitionSelector, language: Option<string>)
    requires !TruthyText(language)
    ensures Rows(store, sel.ByLanguage(language)) == Rows(store, sel)
  {
    Selection.SelectTrivial(store.definitions, Cond(store), sel.conds, LanguageCond(language));
  }

  /** Every definition appears at most once (`distinct()` after the key
      join; `id IN (...)` for the event filter). */
  lemma RowsDistinct(store: Store, sel: DefinitionSelector)
    requires WellFormed(store)
    ensures Seqs.NoDup(Rows(store, sel))
  {
    WellFormedRowsDistinct(store);
    Selection.SelectDistinct(store.definitions, Cond(store), sel.conds);
  }
}
