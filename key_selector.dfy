/** `KeySelector`: a select statement over keys narrowed by event, key
    pattern and language. */
module KeySelectors {
  import opened Common
  import opened Schema
  import Seqs
  import Filters
  import Selection
  import DefinitionSelectors

  /** One condition of the statement. */
  datatype KeyCond =
    | EventCond(eventId: Option<int>)             // by_event
    | PatternCond(filter: Filters.PatternFilter)  // by_key
    | LanguageCond(language: Option<string>)      // by_language

  datatype KeySelector = KeySelector(isSqlite: bool, conds: seq<KeyCond>)
  {
    /** `by_event(event_id)`. */
    function ByEvent(eventId: Option<int>): KeySelector {
      this.(conds := conds + [EventCond(eventId)])
    }

    /** `by_key(key, case_sensitive)`. */
    function ByKey(key: string, caseSensitive: bool): KeySelector {
      this.(conds := conds + [PatternCond(Filters.PatternFilterFor(key, caseSensitive, isSqlite))])
    }

    /** `by_language(language)`. */
    function ByLanguage(language: Option<string>): KeySelector {
      this.(conds := conds + [LanguageCond(language)])
    }
  }

  /** `KeySelector(class_, is_sqlite)`: ValueError unless the class is
      `BaseKey` or a subclass; otherwise a statement without conditions. */
  function New(cls: EntityClass, isSqlite: bool): (r: Result<KeySelector>)
    ensures r.Failure? <==> !IsSubclass(cls, BaseKey)
    ensures r.Failure? ==> r.error.ValueError?
    ensures r.Success? ==> r.value.isSqlite == isSqlite && r.value.conds == []
  {
    if IsSubclass(cls, BaseKey) then Success(KeySelector(isSqlite, []))
    else Failure(ValueError("Provided attribute class_ is not a BaseKey or its child"))
  }

  /** The key is linked to a definition whose source word is valid at the
      (resolved) event: the subquery key → connect_keys → definition → word. */
  predicate UsedAt(store: Store, eventId: Option<int>, k: Key) {
    Seqs.Any(store.definitions, (d: Definition) =>
      (k.id, d.id) in store.connectKeys &&
      DefinitionSelectors.SourceWordValid(store, eventId, d))
  }

  /** `UsedAt` as the join it stands for. */
  lemma UsedAtMeaning(store: Store, eventId: Option<int>, k: Key)
    ensures UsedAt(store, eventId, k) <==>
      exists d, w :: d in store.definitions && (k.id, d.id) in store.connectKeys &&
        w in store.words && w.id == d.wordId && Filters.EventFilter(eventId, store.events, w)
  {
    if exists d, w :: d in store.definitions && (k.id, d.id) in store.connectKeys &&
        w in store.words && w.id == d.wordId && Filters.EventFilter(eventId, store.events, w) {
      var d, w :| d in store.definitions && (k.id, d.id) in store.connectKeys &&
        w in store.words && w.id == d.wordId && Filters.EventFilter(eventId, store.events, w);
      var i :| 0 <= i < |store.definitions| && store.definitions[i] == d;
      DefinitionSelectors.SourceWordValidMeaning(store, eventId, d);
    }
    if UsedAt(store, eventId, k) {
      var i :| 0 <= i < |store.definitions| && (k.id, store.definitions[i].id) in store.connectKeys &&
        DefinitionSelectors.SourceWordValid(store, eventId, store.definitions[i]);
      DefinitionSelectors.SourceWordValidMeaning(store, eventId, store.definitions[i]);
      assert store.definitions[i] in store.definitions;
    }
  }

  predicate Holds(store: Store, c: KeyCond, k: Key) {
    match c
    case EventCond(e) => UsedAt(store, e, k)
    case PatternCond(f) => Filters.Matches(f, k.word)
    case LanguageCond(language) => Filters.LanguageFilter(language, Some(k.language))
  }

  function Cond(store: Store): (KeyCond, Key) -> bool {
    (c: KeyCond, k: Key) => Holds(store, c, k)
  }

  /** The keys the statement returns, in table order. */
  function Rows(store: Store, sel: KeySelector): (r: seq<Key>)
    ensures forall k :: k in r <==> k in store.keys && Selection.AllHold(Cond(store), sel.conds, k)
  {
    Selection.Select(store.keys, Cond(store), sel.conds)
  }

  /** A new selector returns every key. */
  lemma NewSelectsAll(store: Store, cls: EntityClass, isSqlite: bool)
    requires IsSubclass(cls, BaseKey)
    ensures Rows(store, New(cls, isSqlite).value) == store.keys
  {
    Selection.SelectNone(store.keys, Cond(store));
  }

  /** Each method narrows the rows already selected, keeping their order. */
  lemma RowsNarrow(store: Store, sel: KeySelector, c: KeyCond)
    ensures Rows(store, sel.(conds := sel.conds + [c])) == Seqs.Filter(Rows(store, sel), (k: Key) => Holds(store, c, k))
  {
    Selection.SelectNarrow(store.keys, Cond(store), sel.conds, c, (k: Key) => Holds(store, c, k));
  }

  /** `by_event(E)` keeps the keys linked to some definition whose source
      word is valid at E. */
  lemma ByEventRows(store: Store, sel: KeySelector, eventId: Option<int>, k: Key)
    ensures k in Rows(store, sel.ByEvent(eventId)) <==>
      k in Rows(store, sel) &&
      exists d, w :: d in store.definitions && (k.id, d.id) in store.connectKeys &&
        w in store.words && w.id == d.wordId && Filters.EventFilter(eventId, store.events, w)
  {
    Selection.AllHoldAppend(Cond(store), sel.conds, EventCond(eventId), k);
    UsedAtMeaning(store, eventId, k);
  }

  /** `by_event(E)` on keys agrees with `by_event(E)` on definitions: a key
      is selected exactly when it is linked to a definition that the
      definition selector's `by_event(E)` returns. */
  lemma ByEventMatchesDefinitions(store: Store, eventId: Option<int>, k: Key)
    requires k in store.keys
    ensures k in Rows(store, KeySelector(false, []).ByEvent(eventId)) <==>
      exists d :: d in DefinitionSelectors.Rows(store, DefinitionSelectors.DefinitionSelector(false, []).ByEvent(eventId)) &&
        (k.id, d.id) in store.connectKeys
  {
    var ksel := KeySelector(false, []);
    var dsel := DefinitionSelectors.DefinitionSelector(false, []);
    NewSelectsAll(store, SubclassOf(BaseKey, "BaseKey"), false);
    DefinitionSelectors.NewSelectsAll(store, SubclassOf(BaseDefinition, "BaseDefinition"), false);
    ByEventRows(store, ksel, eventId, k);
    if exists d :: d in DefinitionSelectors.Rows(store, dsel.ByEvent(eventId)) && (k.id, d.id) in store.connectKeys {
      var d :| d in DefinitionSelectors.Rows(store, dsel.ByEvent(eventId)) && (k.id, d.id) in store.connectKeys;
      DefinitionSelectors.ByEventRows(store, dsel, eventId, d);
    }
    if k in Rows(store, ksel.ByEvent(eventId)) {
      var d, w :| d in store.definitions && (k.id, d.id) in store.connectKeys &&
        w in store.words && w.id == d.wordId && Filters.EventFilter(eventId, store.events, w);
      DefinitionSelectors.ByEventRows(store, dsel, eventId, d);
    }
  }

  /** `by_key(key)` keeps the keys whose word matches the pattern built by
      `filter_key_by_word_cs`. */
  lemma ByKeyRows(store: Store, sel: KeySelector, key: string, caseSensitive: bool, k: Key)
    ensures k in Rows(store, sel.ByKey(key, caseSensitive)) <==>
      k in Rows(store, sel) && Filters.Matches(Filters.PatternFilterFor(key, caseSensitive, sel.isSqlite), k.word)
  {
    Selection.AllHoldAppend(Cond(store), sel.conds, PatternCond(Filters.PatternFilterFor(key, caseSensitive, sel.isSqlite)), k);
  }

  /** `by_language(language)` keeps the keys in that language; with no
      language it keeps them all. */
  lemma ByLanguageRows(store: Store, sel: KeySelector, language: Option<string>, k: Key)
    ensures k in Rows(store, sel.ByLanguage(language)) <==>
      k in Rows(store, sel) && (TruthyText(language) ==> k.language == language.value)
  {
    Selection.AllHoldAppend(Cond(store), sel.conds, LanguageCond(language), k);
  }

  /** With no language, `by_language` selects what was selected before. */
  lemma ByLanguageNoneKeepsAll(store: Store, sel: KeySelector, language: Option<string>)
    requires !TruthyText(language)
    ensures Rows(store, sel.ByLanguage(language)) == Rows(store, sel)
  {
    Selection.SelectTrivial(store.keys, Cond(store), sel.conds, LanguageCond(language));
  }

  /** Every key appears at most once (`id IN (subquery)`). */
  lemma RowsDistinct(store: Store, sel: KeySelector)
    requires WellFormed(store)
    ensures Seqs.NoDup(Rows(store, sel))
  {
    WellFormedRowsDistinct(store);
    Selection.SelectDistinct(store.keys, Cond(store), sel.conds);
  }
}
