/** `WordSelector`: a select statement over words narrowed by event, name,
    key and type. Every method carries the `order_by_name` decorator, so its
    result is ordered by name. */
module WordSelectors {
  import opened Common
  import opened Schema
  import Seqs
  import Text
  import Sorting
  import Filters
  import Selection
  import WordModel
  import DefinitionSelectors

  /** A column of the types table that `by_type` can filter on. */
  datatype TypeField = TypeColumn | TypeXColumn | GroupColumn

  function FieldOf(t: WordType, f: TypeField): string {
    match f
    case TypeColumn => t.typeName
    case TypeXColumn => t.typeX
    case GroupColumn => t.group
  }

  /** `type_filters(type_values)`: one case-insensitive pattern condition
      (`*` rewritten to `%`) per column whose value is truthy, in column
      order. */
  function TypeFilters(values: seq<(TypeField, Option<string>)>): (r: seq<(TypeField, Filters.PatternFilter)>)
    ensures |r| <= |values|
    ensures r == [] <==> forall i :: 0 <= i < |values| ==> !TruthyText(values[i].1)
    ensures forall e :: e in r ==> e.1.op == Filters.ILike
    ensures forall f, s :: (f, Some(s)) in values && s != "" ==>
      (f, Filters.PatternFilter(Filters.ILike, Filters.LikePattern(s))) in r
    ensures forall e :: e in r ==> exists s :: (e.0, Some(s)) in values && s != "" && e.1.pattern == Filters.LikePattern(s)
  {
    if values == [] then []
    else
      var rest := TypeFilters(values[1..]);
      assert forall i :: 1 <= i < |values| ==> values[i] == values[1..][i - 1];
      assert forall v :: v in values <==> v == values[0] || v in values[1..];
      if TruthyText(values[0].1)
      then [(values[0].0, Filters.PatternFilter(Filters.ILike, Filters.LikePattern(values[0].1.value)))] + rest
      else rest
  }

  /** The argument `type_` of `by_type`: a type row, or an optional string. */
  datatype TypeArg = TypeRow(row: WordType) | TypeText(text: Option<string>)

  /** One condition of the statement. */
  datatype WordCond =
    | EventCond(eventId: Option<int>)                                      // by_event
    | NameCond(filter: Filters.PatternFilter)                              // by_name
    | KeyCond(definitions: DefinitionSelectors.DefinitionSelector)         // by_key
    | TypeIdCond(typeId: int)                                              // by_type(BaseType)
    | TypeFieldsCond(filters: seq<(TypeField, Filters.PatternFilter)>)     // by_type(str, ...)

  datatype WordSelector = WordSelector(isSqlite: bool, conds: seq<WordCond>, ordered: bool)
  {
    /** `by_event(event_id)`. */
    function ByEvent(eventId: Option<int>): WordSelector {
      WordSelector(isSqlite, conds + [EventCond(eventId)], true)
    }

    /** `by_name(name, case_sensitive)`, on the selector's own dialect. */
    function ByName(name: string, caseSensitive: bool): WordSelector {
      WordSelector(isSqlite, conds + [NameCond(Filters.PatternFilterFor(name, caseSensitive, isSqlite))], true)
    }

    /** `by_key(key, language, case_sensitive)`: the words named by the
        `word_id` of a definition that a fresh definition selector on the
        same dialect returns for the key. */
    function ByKey(key: DefinitionSelectors.KeyArg, language: Option<string>, caseSensitive: bool): WordSelector {
      var definitions := DefinitionSelectors.DefinitionSelector(isSqlite, []).ByKey(key, language, caseSensitive);
      WordSelector(isSqlite, conds + [KeyCond(definitions)], true)
    }

    /** `by_type(type_, type_x, group)`: a type row filters by its id;
        otherwise the truthy strings filter the joined type row, and with
        none of them the statement only gains its ordering. */
    function ByType(typeArg: TypeArg, typeX: Option<string>, group: Option<string>): WordSelector {
      match typeArg
      case TypeRow(t) => WordSelector(isSqlite, conds + [TypeIdCond(t.id)], true)
      case TypeText(typeName) =>
        var filters := TypeFilters([(TypeColumn, typeName), (TypeXColumn, typeX), (GroupColumn, group)]);
        if filters == [] then this.(ordered := true)
        else WordSelector(isSqlite, conds + [TypeFieldsCond(filters)], true)
    }
  }

  /** `WordSelector(class_, is_sqlite)`: ValueError unless the class is
      `BaseWord` or a subclass (such as `BaseWordSpell`); otherwise an
      unordered statement without conditions. */
  function New(cls: EntityClass, isSqlite: bool): (r: Result<WordSelector>)
    ensures r.Failure? <==> !IsSubclass(cls, BaseWord)
    ensures r.Failure? ==> r.error.ValueError?
    ensures r.Success? ==> r.value == WordSelector(isSqlite, [], false)
  {
    if IsSubclass(cls, BaseWord) then Success(WordSelector(isSqlite, [], false))
    else Failure(ValueError("Provided attribute class_ is not a BaseWord or its child"))
  }

  /** Every pattern condition matches its column of the type row. */
  predicate TypeMatches(t: WordType, filters: seq<(TypeField, Filters.PatternFilter)>) {
    forall e :: e in filters ==> Filters.Matches(e.1, FieldOf(t, e.0))
  }

  predicate Holds(store: Store, c: WordCond, w: Word) {
    match c
    case EventCond(e) => Filters.EventFilter(e, store.events, w)
    case NameCond(f) => Filters.Matches(f, w.name)
    case KeyCond(definitions) =>
      Seqs.Any(DefinitionSelectors.Rows(store, definitions), (d: Definition) => d.wordId == w.id)
    case TypeIdCond(tid) =>
      Seqs.Any(store.types, (t: WordType) => t.id == w.typeId && t.id == tid)
    case TypeFieldsCond(filters) =>
      Seqs.Any(store.types, (t: WordType) => t.id == w.typeId && TypeMatches(t, filters))
  }

  function Cond(store: Store): (WordCond, Word) -> bool {
    (c: WordCond, w: Word) => Holds(store, c, w)
  }

  /** The words selected, before ordering (in table order). */
  function Selected(store: Store, sel: WordSelector): (r: seq<Word>)
    ensures forall w :: w in r <==> w in store.words && Selection.AllHold(Cond(store), sel.conds, w)
  {
    Selection.Select(store.words, Cond(store), sel.conds)
  }

  /** The words the statement returns: the selected words, ordered by name
      once a method has been applied. */
  function Rows(store: Store, sel: WordSelector): (r: seq<Word>)
    ensures forall w :: w in r <==> w in store.words && Selection.AllHold(Cond(store), sel.conds, w)
    ensures multiset(r) == multiset(Selected(store, sel))
    ensures sel.ordered ==> Sorting.SortedBy(r, WordModel.WordName, Text.LexLe)
    ensures !sel.ordered ==> r == Selected(store, sel)
  {
    var s := Selected(store, sel);
    if sel.ordered then Sorting.SortByText(s, WordModel.WordName) else s
  }

  /** A new selector returns every word, in table order. */
  lemma NewSelectsAll(store: Store, cls: EntityClass, isSqlite: bool)
    requires IsSubclass(cls, BaseWord)
    ensures Rows(store, New(cls, isSqlite).value) == store.words
  {
    Selection.SelectNone(store.words, Cond(store));
  }

  /** A word passes one more condition exactly when it was selected before
      and meets the condition. */
  lemma Narrowed(store: Store, sel: WordSelector, c: WordCond, w: Word)
    ensures w in Rows(store, WordSelector(sel.isSqlite, sel.conds + [c], true)) <==>
      w in Rows(store, sel) && Holds(store, c, w)
  {
    Selection.AllHoldAppend(Cond(store), sel.conds, c, w);
  }

  /** `by_event(E)` keeps exactly the words valid at E, by name. */
  lemma ByEventRows(store: Store, sel: WordSelector, eventId: Option<int>, w: Word)
    ensures w in Rows(store, sel.ByEvent(eventId)) <==> w in Rows(store, sel) && Filters.EventFilter(eventId, store.events, w)
    ensures Sorting.SortedBy(Rows(store, sel.ByEvent(eventId)), WordModel.WordName, Text.LexLe)
  {
    Narrowed(store, sel, EventCond(eventId), w);
  }

  /** `by_name(name, case_sensitive)` keeps the words whose name matches the
      pattern built on the selector's own dialect, by name. */
  lemma ByNameRows(store: Store, sel: WordSelector, name: string, caseSensitive: bool, w: Word)
    ensures w in Rows(store, sel.ByName(name, caseSensitive)) <==>
      w in Rows(store, sel) && Filters.Matches(Filters.PatternFilterFor(name, caseSensitive, sel.isSqlite), w.name)
  {
    Narrowed(store, sel, NameCond(Filters.PatternFilterFor(name, caseSensitive, sel.isSqlite)), w);
  }

  /** A word owns a definition linked to a key that matches the search. */
  predicate HasMatchingDefinition(store: Store, f: Filters.PatternFilter, language: Option<string>, w: Word) {
    exists d, k :: d in store.definitions && d.wordId == w.id &&
      k in store.keys && (k.id, d.id) in store.connectKeys &&
      Filters.Matches(f, k.word) && Filters.LanguageFilter(language, Some(k.language))
  }

  lemma KeyCondMeaning(store: Store, isSqlite: bool, key: DefinitionSelectors.KeyArg, language: Option<string>, caseSensitive: bool, w: Word)
    ensures Holds(store, KeyCond(DefinitionSelectors.DefinitionSelector(isSqlite, []).ByKey(key, language, caseSensitive)), w) <==>
      HasMatchingDefinition(store, Filters.PatternFilterFor(DefinitionSelectors.SearchText(key), caseSensitive, isSqlite),
        DefinitionSelectors.SearchLanguage(key, language), w)
  {
    var defs := DefinitionSelectors.DefinitionSelector(isSqlite, []).ByKey(key, language, caseSensitive);
    if Holds(store, KeyCond(defs), w) {
      KeyCondSound(store, isSqlite, key, language, caseSensitive, w);
    }
    if HasMatchingDefinition(store, Filters.PatternFilterFor(DefinitionSelectors.SearchText(key), caseSensitive, isSqlite),
        DefinitionSelectors.SearchLanguage(key, language), w) {
      KeyCondComplete(store, isSqlite, key, language, caseSensitive, w);
    }
  }

  lemma KeyCondSound(store: Store, isSqlite: bool, key: DefinitionSelectors.KeyArg, language: Option<string>, caseSensitive: bool, w: Word)
    requires Holds(store, KeyCond(DefinitionSelectors.DefinitionSelector(isSqlite, []).ByKey(key, language, caseSensitive)), w)
    ensures HasMatchingDefinition(store, Filters.PatternFilterFor(DefinitionSelectors.SearchText(key), caseSensitive, isSqlite),
      DefinitionSelectors.SearchLanguage(key, language), w)
  {
    var dsel := DefinitionSelectors.DefinitionSelector(isSqlite, []);
    var rows := DefinitionSelectors.Rows(store, dsel.ByKey(key, language, caseSensitive));
    DefinitionSelectors.NewSelectsAll(store, SubclassOf(BaseDefinition, "BaseDefinition"), isSqlite);
    var i :| 0 <= i < |rows| && rows[i].wordId == w.id;
    DefinitionSelectors.ByKeyRows(store, dsel, key, language, caseSensitive, rows[i]);
  }

  lemma KeyCondComplete(store: Store, isSqlite: bool, key: DefinitionSelectors.KeyArg, language: Option<string>, caseSensitive: bool, w: Word)
    requires HasMatchingDefinition(store, Filters.PatternFilterFor(DefinitionSelectors.SearchText(key), caseSensitive, isSqlite),
      DefinitionSelectors.SearchLanguage(key, language), w)
    ensures Holds(store, KeyCond(DefinitionSelectors.DefinitionSelector(isSqlite, []).ByKey(key, language, caseSensitive)), w)
  {
    var dsel := DefinitionSelectors.DefinitionSelector(isSqlite, []);
    var f := Filters.PatternFilterFor(DefinitionSelectors.SearchText(key), caseSensitive, isSqlite);
    var lang := DefinitionSelectors.SearchLanguage(key, language);
    var rows := DefinitionSelectors.Rows(store, dsel.ByKey(key, language, caseSensitive));
    DefinitionSelectors.NewSelectsAll(store, SubclassOf(BaseDefinition, "BaseDefinition"), isSqlite);
    var d, k :| d in store.definitions && d.wordId == w.id &&
      k in store.keys && (k.id, d.id) in store.connectKeys && Filters.Matches(f, k.word) &&
      Filters.LanguageFilter(lang, Some(k.language));
    DefinitionSelectors.ByKeyRows(store, dsel, key, language, caseSensitive, d);
    var i :| 0 <= i < |rows| && rows[i] == d;
  }

  /** `by_key(key, language)` keeps the words that own a definition linked
      to a matching key (in the key's language, or the given one). */
  lemma ByKeyRows(store: Store, sel: WordSelector, key: DefinitionSelectors.KeyArg, language: Option<string>, caseSensitive: bool, w: Word)
    ensures w in Rows(store, sel.ByKey(key, language, caseSensitive)) <==>
      w in Rows(store, sel) &&
      exists d, k :: d in store.definitions && d.wordId == w.id &&
        k in store.keys && (k.id, d.id) in store.connectKeys &&
        Filters.Matches(Filters.PatternFilterFor(DefinitionSelectors.SearchText(key), caseSensitive, sel.isSqlite), k.word) &&
        Filters.LanguageFilter(DefinitionSelectors.SearchLanguage(key, language), Some(k.language))
  {
    Narrowed(store, sel, KeyCond(DefinitionSelectors.DefinitionSelector(sel.isSqlite, []).ByKey(key, language, caseSensitive)), w);
    KeyCondMeaning(store, sel.isSqlite, key, language, caseSensitive, w);
  }

  /** `by_type(t)` with a type row keeps the words of that type. */
  lemma ByTypeRowRows(store: Store, sel: WordSelector, t: WordType, typeX: Option<string>, group: Option<string>, w: Word)
    requires t in store.types
    ensures w in Rows(store, sel.ByType(TypeRow(t), typeX, group)) <==> w in Rows(store, sel) && w.typeId == t.id
  {
    Narrowed(store, sel, TypeIdCond(t.id), w);
    var i :| 0 <= i < |store.types| && store.types[i] == t;
    if w.typeId == t.id {
      assert (store.types[i].id == w.typeId && store.types[i].id == t.id);
    }
  }

  /** Whether the type row joined to `w` meets the filter on one column:
      no condition when the value is falsy, else a case-insensitive match. */
  predicate FieldFilter(t: WordType, f: TypeField, value: Option<string>) {
    TruthyText(value) ==> Filters.Matches(Filters.PatternFilter(Filters.ILike, Filters.LikePattern(value.value)), FieldOf(t, f))
  }

  /** The filters `type_filters` builds hold together exactly when each
      column with a truthy value matches it. */
  lemma TypeFiltersMeaning(t: WordType, typeName: Option<string>, typeX: Option<string>, group: Option<string>)
    ensures TypeMatches(t, TypeFilters([(TypeColumn, typeName), (TypeXColumn, typeX), (GroupColumn, group)])) <==>
      FieldFilter(t, TypeColumn, typeName) && FieldFilter(t, TypeXColumn, typeX) && FieldFilter(t, GroupColumn, group)
  {
    var values := [(TypeColumn, typeName), (TypeXColumn, typeX), (GroupColumn, group)];
    var r := TypeFilters(values);
    if TypeMatches(t, r) {
      if TruthyText(typeName) { assert (TypeColumn, Some(typeName.value)) in values; }
      if TruthyText(typeX) { assert (TypeXColumn, Some(typeX.value)) in values; }
      if TruthyText(group) { assert (GroupColumn, Some(group.value)) in values; }
    }
  }

  /** The type row of `w` meets every truthy argument. */
  predicate HasTypeMatching(store: Store, w: Word, typeName: Option<string>, typeX: Option<string>, group: Option<string>) {
    exists t :: t in store.types && t.id == w.typeId &&
      FieldFilter(t, TypeColumn, typeName) && FieldFilter(t, TypeXColumn, typeX) && FieldFilter(t, GroupColumn, group)
  }

  lemma TypeFieldsHolds(store: Store, filters: seq<(TypeField, Filters.PatternFilter)>, w: Word)
    ensures Holds(store, TypeFieldsCond(filters), w) <==>
      exists t :: t in store.types && t.id == w.typeId && TypeMatches(t, filters)
  {
    if exists t :: t in store.types && t.id == w.typeId && TypeMatches(t, filters) {
      var t :| t in store.types && t.id == w.typeId && TypeMatches(t, filters);
      var i :| 0 <= i < |store.types| && store.types[i] == t;
    }
  }

  lemma TypeFieldsCondMeaning(store: Store, typeName: Option<string>, typeX: Option<string>, group: Option<string>, w: Word)
    ensures Holds(store, TypeFieldsCond(TypeFilters([(TypeColumn, typeName), (TypeXColumn, typeX), (GroupColumn, group)])), w) <==>
      HasTypeMatching(store, w, typeName, typeX, group)
  {
    var filters := TypeFilters([(TypeColumn, typeName), (TypeXColumn, typeX), (GroupColumn, group)]);
    TypeFieldsHolds(store, filters, w);
    forall t ensures TypeMatches(t, filters) <==>
      FieldFilter(t, TypeColumn, typeName) && FieldFilter(t, TypeXColumn, typeX) && FieldFilter(t, GroupColumn, group) {
      TypeFiltersMeaning(t, typeName, typeX, group);
    }
  }

  /** `by_type(type_, type_x, group)` with strings keeps the words whose
      type row matches, case-insensitively, every truthy argument. */
  lemma ByTypeTextRows(store: Store, sel: WordSelector, typeName: Option<string>, typeX: Option<string>, group: Option<string>, w: Word)
    requires TruthyText(typeName) || TruthyText(typeX) || TruthyText(group)
    ensures w in Rows(store, sel.ByType(TypeText(typeName), typeX, group)) <==>
      w in Rows(store, sel) && HasTypeMatching(store, w, typeName, typeX, group)
  {
    var values := [(TypeColumn, typeName), (TypeXColumn, typeX), (GroupColumn, group)];
    var filters := TypeFilters(values);
    assert filters != [] by {
      assert TruthyText(values[0].1) || TruthyText(values[1].1) || TruthyText(values[2].1);
    }
    Narrowed(store, sel, TypeFieldsCond(filters), w);
    TypeFieldsCondMeaning(store, typeName, typeX, group, w);
  }

  /** `by_type()` without a truthy argument adds no condition and no join:
      the statement keeps its rows and only gains the ordering by name. */
  lemma ByTypeNoArguments(store: Store, sel: WordSelector, typeName: Option<string>, typeX: Option<string>, group: Option<string>)
    requires !TruthyText(typeName) && !TruthyText(typeX) && !TruthyText(group)
    ensures sel.ByType(TypeText(typeName), typeX, group).conds == sel.conds
    ensures multiset(Rows(store, sel.ByType(TypeText(typeName), typeX, group))) == multiset(Rows(store, sel))
    ensures Sorting.SortedBy(Rows(store, sel.ByType(TypeText(typeName), typeX, group)), WordModel.WordName, Text.LexLe)
  {
    var values := [(TypeColumn, typeName), (TypeXColumn, typeX), (GroupColumn, group)];
    assert !TruthyText(values[0].1) && !TruthyText(values[1].1) && !TruthyText(values[2].1);
    assert TypeFilters(values) == [];
  }

  /** `by_type` as written: a type row is handled first; any other argument
      builds `type_values` from `BaseType.type`, an attribute `BaseType`
      does not have (its `type` column is the attribute `type_`), so the
      call raises AttributeError, even with no argument at all. */
  function ByTypeAsWritten(sel: WordSelector, typeArg: TypeArg, typeX: Option<string>, group: Option<string>): (r: Result<WordSelector>)
    ensures r.Success? <==> typeArg.TypeRow?
    ensures r.Success? ==> r.value.conds == sel.conds + [TypeIdCond(typeArg.row.id)] && r.value.ordered
    ensures r.Failure? ==> r.error.AttributeError?
  {
    match typeArg
    case TypeRow(_) => Success(sel.ByType(typeArg, typeX, group))
    case TypeText(_) =>
      TypeAttributeMissing();
      match TypeClassAttribute("type")
      case Failure(err) => Failure(err)
      case Success(_) => Success(sel.ByType(typeArg, typeX, group))
  }

  /** `by_type()` as written fails where the corrected statement keeps
      every row. */
  lemma ByTypeAsWrittenNoArguments(store: Store, sel: WordSelector, w: Word)
    requires w in Rows(store, sel)
    ensures ByTypeAsWritten(sel, TypeText(None), None, None).Failure?
    ensures w in Rows(store, sel.ByType(TypeText(None), None, None))
  {
    ByTypeNoArguments(store, sel, None, None, None);
    assert w in multiset(Rows(store, sel));
  }

  /** `by_type("C-Prim")` and the like fail as written where the corrected
      statement keeps the words of a matching type. */
  lemma ByTypeAsWrittenText(store: Store, sel: WordSelector, typeName: Option<string>, typeX: Option<string>, group: Option<string>, w: Word)
    requires TruthyText(typeName) || TruthyText(typeX) || TruthyText(group)
    requires w in Rows(store, sel) && HasTypeMatching(store, w, typeName, typeX, group)
    ensures ByTypeAsWritten(sel, TypeText(typeName), typeX, group).Failure?
    ensures w in Rows(store, sel.ByType(TypeText(typeName), typeX, group))
  {
    ByTypeTextRows(store, sel, typeName, typeX, group, w);
  }

  /** Chained filters conjoin, in either order: `by_type(..).by_name(..)`
      selects the same words as `by_name(..).by_type(..)`. */
  lemma ChainCommutes(store: Store, sel: WordSelector, c1: WordCond, c2: WordCond, w: Word)
    ensures w in Rows(store, WordSelector(sel.isSqlite, sel.conds + [c1] + [c2], true)) <==>
      w in Rows(store, sel) && Holds(store, c1, w) && Holds(store, c2, w)
    ensures w in Rows(store, WordSelector(sel.isSqlite, sel.conds + [c1] + [c2], true)) <==>
      w in Rows(store, WordSelector(sel.isSqlite, sel.conds + [c2] + [c1], true))
  {
    Narrowed(store, sel, c1, w);
    Narrowed(store, sel, c2, w);
    Narrowed(store, WordSelector(sel.isSqlite, sel.conds + [c1], true), c2, w);
    Narrowed(store, WordSelector(sel.isSqlite, sel.conds + [c2], true), c1, w);
  }

  /** Every word appears at most once, whatever the conditions (`id IN
      (subquery)` for keys, one type row per word for the type join). */
  lemma RowsDistinct(store: Store, sel: WordSelector)
    requires WellFormed(store)
    ensures Seqs.NoDup(Rows(store, sel))
  {
    WellFormedRowsDistinct(store);
    Selection.SelectDistinct(store.words, Cond(store), sel.conds);
    Seqs.NoDupSubmultiset(Selected(store, sel), Rows(store, sel));
  }
}
