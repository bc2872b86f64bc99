# loglan_core in Dafny

This project models the logic of `loglan_core`, the SQLAlchemy data model of a Loglan dictionary. The database stores the rows and runs the queries. This model covers the part the Python code decides for itself:

- which rows each query keeps:
  - event versioning of words;
  - name and key pattern filters;
  - the three selectors `WordSelector`, `DefinitionSelector` and `KeySelector`;
  - the two legacy getters;
  - the relationship queries on a word (`derivatives`, `parents`, `affixes`, `complexes`, `definitions`, `keys`);
- how a word's derivatives and authors are linked;
- the legacy text export;
- parsing of word sources such as `2/3E act` and of complex origins such as `pru(ci)+ka(kt)o`.

The database is an in-memory `Store` (module `Schema`):

- one sequence per table: words, types, definitions, keys, events and authors;
- one set of id pairs per association table: `connect_words`, `connect_authors` and `connect_keys`.

A query becomes a filter of a table's rows. A selector becomes an immutable value holding its conditions; `Rows` gives the rows the statement selects. Every ordered query is sorted by name (`SortBy` with `LexLe`, an insertion sort proved to return a sorted permutation).

SQL pattern matching belongs to the database. The model keeps the parts the Python code controls exactly:

- the choice of `GLOB`, `LIKE` or `ILIKE`;
- the rewrite of `*` to `%` in the search text.

The matcher itself (`Filters.Matches`) is a small wildcard matcher:

- `%` for `LIKE` and `ILIKE`, with `ILIKE` comparing lower-cased text;
- `*` for `GLOB`.

As written, the rewrite turns every `*` into `%` before `GLOB` sees it. A case-sensitive search on SQLite therefore looks for a literal `%`. `Filters.GlobSearchLosesWildcard` shows this: `pru*` does not find `pruci` under `GLOB`, but does under `LIKE`.

The legacy getters (`WordGetter`, `KeyGetter`) replace a falsy event id with `BaseEvent.latest(session).id`. That is the surrogate key of the latest event row, while words are compared with `event_id` values. `Filters.LegacyEvent` keeps that reading. The getters agree with the selectors whenever that row's `id` equals its `event_id`; `Filters.LegacyEventDiverges` shows what happens otherwise.

A getter returns a query. `WordGetter.ByKey` and `KeyGetter.ByEvent` give the join rows, as `.count()` counts them, so an entry repeats once per join row. `WordGetter.ByKeyAll` and `KeyGetter.ByEventAll` give what `.all()` returns: each entity once, at its first row.

Three statements read `BaseType.type`, an attribute the class does not define: `derivatives_query_by`, `WordSelector.by_type` and `select_type_by_property`. The class maps its `type` column under the attribute `type_` (`Schema.TypeClassAttribute`). The `...AsWritten` members model the failure. The other members model the corrected statements, which read `type_`, as `word_sourcer.py` does.

Word linking (`loglan_core/addons/word_linker.py`) is meant to change a word in place. As written it does not: it appends to the list that the `derivatives` or `authors` property returns, which is a fresh result of `.all()` (`word.py:160-165`, `word.py:206-211`), so the stored relationship stays as it was (see Findings). The word is modelled as the class `WordLinker.LinkedWord`, whose `seq` fields are the stored relationships `relationship_derivatives` and `relationship_authors`. The corrected methods append to those fields, under `modifies` clauses. The `...AsWritten` methods have no `modifies` clause and leave them unchanged.

## Model

| member | source | states |
|---|---|---|
| Filters.LatestEventId | loglan_core/addons/filters.py:24 | the latest event id is the maximum `event_id` of the events table, and is absent exactly when the table is empty |
| Filters.ResolveEvent | loglan_core/addons/filters.py:24-25 | `event_id or max(event_id)`; its meaning is stated by `Filters.DefaultEventIsLatest` and `Filters.ExplicitEventUsed` |
| Filters.ValidAt | loglan_core/word.py:319-322 | the validity interval `[event_start_id, event_end_id)`, unbounded without an end; stated by `Filters.ValidityInterval` |
| Filters.EventFilter | loglan_core/addons/filters.py:24-30 | validity at the resolved event, false when no event resolves; stated by `Filters.EmptyEventsSelectNothing` and `Filters.ExplicitEventUsed` |
| Filters.LatestEvent | loglan_core/addons/word_getter.py:32 | the latest event row is a row of the table holding the maximum `event_id`, and is absent exactly when the table is empty |
| Filters.ValidityInterval | loglan_core/word.py:319-322 | a word is valid at E iff its start event is at most E and its end event is absent or after E; a word is valid at its start and never at its end event |
| Filters.OpenEndedValidFrom | loglan_core/addons/filters.py:27-29 | a word without an end event is valid at exactly the events at or after its start |
| Filters.DefaultEventIsLatest | loglan_core/addons/filters.py:24-25 | an omitted or zero event id resolves to the maximum event id; `None` and `0` select the same words |
| Filters.EmptyEventsSelectNothing | loglan_core/addons/filters.py:24-30 | with no events and no explicit event id, the filter keeps no word |
| Filters.ExplicitEventUsed | loglan_core/addons/utils.py:30-35 | a non-zero event id is used as given: the filter is exactly validity at that event |
| Filters.LegacyEvent | loglan_core/addons/word_getter.py:31-32 | a truthy event id is used as given; a falsy one is replaced by the surrogate key `id` of the latest event row, the row whose `event_id` is the resolved latest event; the lookup fails with `AttributeError` exactly when there is no event |
| Filters.LegacyEventAgrees | loglan_core/addons/key_getter.py:31-32 | when the event id is explicit, or the latest row's `id` equals its `event_id`, the legacy event condition keeps exactly the words the selectors' event filter keeps, and where the lookup fails the selectors keep nothing |
| Filters.LegacyEventDiverges | loglan_core/addons/word_getter.py:31-35 | when the latest row's `id` is below its `event_id`, a word that starts at the latest event and never ends is kept by the selectors' event filter and dropped by the legacy getters |
| Filters.ChooseOp | loglan_core/word.py:336-340 | `ILIKE` iff not case-sensitive; `GLOB` iff case-sensitive on SQLite; `LIKE` iff case-sensitive elsewhere |
| Filters.LikePattern | loglan_core/word.py:335 | the pattern has the input's length, each `*` becomes `%`, every other character is unchanged, and no `*` is left |
| Filters.PatternFilterFor | loglan_core/addons/filters.py:49-54 | the key filter uses the operator chosen by `(case_sensitive, is_sqlite)` and the rewritten pattern |
| Filters.Matches | loglan_core/word.py:336-340 | the match of a text under the chosen operator; stated by `Filters.WildMatchLiteral`, `Filters.WildMatchAll` and `Filters.WildMatchPrefix` |
| Filters.WildMatchLiteral | loglan_core/addons/utils.py:44-49 | a pattern without wildcards matches exactly the equal text |
| Filters.WildMatchAll | loglan_core/addons/utils.py:44-49 | a lone wildcard matches every text |
| Filters.WildMatchPrefix | loglan_core/addons/utils.py:44-49 | a literal followed by a wildcard matches exactly the texts that start with the literal |
| Filters.CaseInsensitiveIgnoresDialect | loglan_core/word.py:338-340 | a case-insensitive filter behaves the same whether or not the database is SQLite |
| Filters.StarSearchIsPrefix | loglan_core/word.py:335-340 | a case-insensitive search for `p*` finds exactly the names that start with `p`, ignoring case |
| Filters.CaseSensitiveLiteralIsEquality | loglan_core/word.py:335-340 | a case-sensitive search without wildcards is name equality on either database |
| Filters.GlobSearchLosesWildcard | loglan_core/word.py:335-337 | as written, `pru*` does not find `pruci` with `GLOB` but does with `LIKE` |
| Filters.LanguageFilter | loglan_core/addons/filters.py:68 | the language condition; stated by `Filters.LanguageFilterMeaning` |
| Filters.LanguageFilterMeaning | loglan_core/addons/filters.py:68 | a `None` or empty language keeps every row; otherwise the row's language must equal it |
| Schema.TypeById | loglan_core/word.py:246 | the type join finds a type with the word's type id, or reports that none exists |
| Schema.TypeByIdUnique | loglan_core/word.py:246 | when type ids are unique, the join finds exactly the type with that id |
| Schema.WellFormedRowsDistinct | loglan_core/base.py:20 | with unique `id` primary keys, the words, definitions and keys tables hold no row twice |
| Schema.TypeClassAttribute | loglan_core/type.py:52 | `type_`, `type_x` and `group` are the type columns' attribute names, `type_` naming the `type` column; any other name raises `AttributeError` |
| Schema.TypeAttributeMissing | loglan_core/type.py:52 | `BaseType.type` raises `AttributeError`, while `BaseType.type_` reaches the `type` column |
| WordModel.Derivatives | loglan_core/word.py:199-211 | the derivatives are exactly the words linked as children through `connect_words` |
| WordModel.Parents | loglan_core/word.py:273-287 | the parents are exactly the words linked as parents through `connect_words` |
| WordModel.DerivativesAndParents | loglan_core/word.py:188-197 | c is a derivative of p iff p is a parent of c |
| WordModel.TypeFieldsEqual | loglan_core/word.py:237-243 | one equality per truthy argument on the joined type row; stated through `WordModel.DerivativesQueryBy` |
| WordModel.DerivativesQueryBy | loglan_core/word.py:213-249 | the corrected query (`type_` for the `type` column): exactly the derivatives whose type meets every truthy filter (type, type_x, group), each as often as it is linked, sorted by name |
| WordModel.DerivativesQueryByAsWritten | loglan_core/word.py:237-241 | as written, reading `type_class.type` raises `AttributeError` on every call |
| WordModel.DerivativesQueryByNoFilters | loglan_core/word.py:237-243 | for every combination of `None` or empty filters, the corrected query keeps every derivative that has a type row, as often as it is linked |
| WordModel.Affixes | loglan_core/word.py:251-260 | the corrected `affixes`: exactly the derivatives whose type is `Afx`, as often as linked, sorted by name |
| WordModel.Complexes | loglan_core/word.py:262-271 | the corrected `complexes`: exactly the derivatives whose group is `Cpx`, as often as linked, sorted by name |
| WordModel.AffixesAsWrittenFail | loglan_core/word.py:251-260 | as written `affixes` raises `AttributeError` even for a word with an `Afx` derivative, which the corrected query returns |
| WordModel.ComplexesAsWrittenFail | loglan_core/word.py:262-271 | as written `complexes` raises `AttributeError` even for a word with a `Cpx` derivative, which the corrected query returns |
| WordModel.Definitions | loglan_core/word.py:180-185 | the definitions of a word are exactly its definition rows, each as often as stored, in ascending position |
| WordModel.DefinitionKeys | loglan_core/definition.py:115-130 | a definition's keys are the keys linked to it through `connect_keys` |
| WordModel.KeysOfDefinitions | loglan_core/word.py:312 | the keys of several definitions are those linked to any of them |
| WordModel.KeysAsWritten | loglan_core/word.py:312 | as written, `sorted(set(...))` over key objects fails with `TypeError` exactly when there are two or more distinct keys; with fewer it returns the same keys as the corrected `Keys` |
| WordModel.KeysAsWrittenFails | loglan_core/word.py:312 | two distinct keys on a word's definitions make the as-written property raise, while the corrected `Keys` lists both |
| WordModel.Keys | loglan_core/word.py:307-312 | the keys of a word hold no duplicate, are sorted by key word, and are exactly the keys linked to one of its definitions |
| WordModel.KeysQuery | loglan_core/word.py:289-305 | one row per key/definition link of the word: each stored key comes back once per definition of the word linked to it, sorted by key word |
| WordModel.KeysQueryMultiplicity | loglan_core/word.py:289-305 | with no key stored twice, a key comes back once per definition of the word linked to it, and never when it is not stored |
| WordModel.KeysMatchQuery | loglan_core/addons/utils.py:66-81 | a key is in `keys` iff it is in the keys query |
| DefinitionModel.NewDefinition | loglan_core/definition.py:53-74 | the constructor stores word id, position, body and each of the optional `usage`, `grammar_code`, `slots`, `case_tags`, `language` and `notes` in its column |
| DefinitionModel.NewDefinitionDefaults | loglan_core/definition.py:57-62 | without the optional arguments, `usage` and `language` are `None` and the grammar is `()` |
| DefinitionModel.Grammar | loglan_core/definition.py:142-153 | grammar is `(`, the slots and grammar code (each only when truthy), `)` |
| DefinitionModel.GrammarCore | loglan_core/definition.py:150-153 | the truthy slots followed by the truthy grammar code; stated by `DefinitionModel.GrammarEmpty` |
| DefinitionModel.FilterLanguage | loglan_core/definition.py:155-166 | the language condition of a definition; stated by `DefinitionSelectors.ByLanguageNoneKeepsAll` |
| DefinitionModel.GrammarEmpty | loglan_core/definition.py:150-153 | grammar is `()` iff both parts are falsy; otherwise each truthy part appears in place |
| DefinitionModel.GrammarExample | loglan_core/definition.py:150-153 | slots 4 and code `v` give `(4v)` |
| TypeQuery.FilterValues | loglan_core/addons/utils.py:91-97 | a single value is treated as a one-element list |
| TypeQuery.HasProperty | loglan_core/addons/utils.py:99-105 | the type, type_x or group is one of the values; stated by `TypeQuery.SelectTypes` |
| TypeQuery.SelectTypes | loglan_core/addons/utils.py:99-105 | the corrected statement (`type_` for the `type` column): exactly the types whose type, type_x or group is in the list, each as often as stored, in table order |
| TypeQuery.Ids | loglan_core/addons/utils.py:99 | the id projection keeps one id per type, in order |
| TypeQuery.SelectTypeByProperty | loglan_core/addons/utils.py:83-105 | the corrected query: with `id_only` the ids of the matching types, in table order; otherwise exactly the matching type rows, each as often as stored |
| TypeQuery.SelectTypeByPropertyAsWritten | loglan_core/addons/utils.py:99-105 | as written, reading `BaseType.type` raises `AttributeError` on every call |
| TypeQuery.SelectTypeByPropertyAsWrittenFails | loglan_core/addons/utils.py:99-105 | as written the query fails even for a type row matched by its `type` column, which the corrected query returns, as a row or as an id |
| TypeQuery.OneValueAsList | loglan_core/addons/utils.py:91-97 | in the corrected query, a single string selects what the list holding it selects: the types that carry it as type, type_x or group, each as often as stored |
| WordSelectors.TypeFilters | loglan_core/addons/word_selector.py:183-199 | one case-insensitive filter per truthy argument, each with the rewritten pattern; none when every argument is falsy |
| WordSelectors.New | loglan_core/addons/word_selector.py:61-75 | a class that is not a `BaseWord` subclass raises `ValueError`; otherwise the selector starts with no condition |
| WordSelectors.Selected | loglan_core/addons/word_selector.py:48-49 | the statement keeps exactly the words meeting all its conditions |
| WordSelectors.WordSelector.ByEvent | loglan_core/addons/word_selector.py:81-92 | adds the event condition; stated by `WordSelectors.ByEventRows` |
| WordSelectors.WordSelector.ByName | loglan_core/addons/word_selector.py:94-117 | adds the name condition under the selector's SQLite flag; stated by `WordSelectors.ByNameRows` |
| WordSelectors.WordSelector.ByKey | loglan_core/addons/word_selector.py:119-147 | adds the key condition; stated by `WordSelectors.ByKeyRows` |
| WordSelectors.WordSelector.ByType | loglan_core/addons/word_selector.py:148-181 | the corrected `by_type`; stated by `WordSelectors.ByTypeRowRows`, `WordSelectors.ByTypeTextRows` and `WordSelectors.ByTypeNoArguments` |
| WordSelectors.Rows | loglan_core/addons/word_selector.py:23-51 | the rows are the selected words, sorted by name once a filter has ordered them |
| WordSelectors.NewSelectsAll | loglan_core/addons/word_selector.py:69-75 | a fresh selector selects every word |
| WordSelectors.Narrowed | loglan_core/addons/word_selector.py:48-49 | each filter keeps exactly the earlier rows that meet its condition |
| WordSelectors.ByEventRows | loglan_core/addons/word_selector.py:81-92 | `by_event(E)` keeps exactly the earlier rows valid at E, sorted by name |
| WordSelectors.ByNameRows | loglan_core/addons/word_selector.py:94-117 | `by_name` keeps the earlier rows whose name matches the pattern under the selector's own SQLite flag |
| WordSelectors.KeyCondMeaning | loglan_core/addons/word_selector.py:140-146 | the key condition holds iff the word is the source word of a definition the definition selector's `by_key` keeps |
| WordSelectors.KeyCondSound | loglan_core/addons/word_selector.py:140-146 | a word passing the key condition has a definition linked to a matching key |
| WordSelectors.KeyCondComplete | loglan_core/addons/word_selector.py:140-146 | a word with a definition linked to a matching key passes the key condition |
| WordSelectors.ByKeyRows | loglan_core/addons/word_selector.py:119-147 | `by_key` keeps exactly the earlier rows with a definition linked to a matching key in the language |
| WordSelectors.ByTypeRowRows | loglan_core/addons/word_selector.py:168-169 | `by_type` with a type row keeps the words with that type id |
| WordSelectors.TypeFiltersMeaning | loglan_core/addons/word_selector.py:196-198 | a type passes the type filters iff each truthy argument matches its column |
| WordSelectors.TypeFieldsHolds | loglan_core/addons/word_selector.py:171-181 | in the corrected `by_type` (`type_` for the `type` column), the joined type condition holds iff the word's type passes every filter |
| WordSelectors.TypeFieldsCondMeaning | loglan_core/addons/word_selector.py:171-181 | in the corrected `by_type` with texts, the condition holds iff the word's type matches each truthy argument |
| WordSelectors.ByTypeTextRows | loglan_core/addons/word_selector.py:171-181 | the corrected `by_type` with at least one truthy text keeps the earlier rows whose type matches |
| WordSelectors.ByTypeNoArguments | loglan_core/addons/word_selector.py:180 | the corrected `by_type` without arguments adds no condition and returns the same rows, sorted |
| WordSelectors.ByTypeAsWritten | loglan_core/addons/word_selector.py:168-181 | as written, `by_type` succeeds iff its argument is a type row, adding exactly the type id condition; any other argument, even none, raises `AttributeError` |
| WordSelectors.ByTypeAsWrittenNoArguments | loglan_core/addons/word_selector.py:171-181 | `by_type()` fails as written where the corrected statement keeps every row |
| WordSelectors.ByTypeAsWrittenText | loglan_core/addons/word_selector.py:171-181 | `by_type` with a text fails as written where the corrected statement keeps the words of a matching type |
| WordSelectors.ChainCommutes | loglan_core/addons/word_selector.py:48-49 | chained filters conjoin, in either order |
| WordSelectors.RowsDistinct | loglan_core/addons/word_selector.py:48-49 | a selector never returns a word twice |
| DefinitionSelectors.New | loglan_core/addons/definition_selector.py:44-65 | a class that is not a `BaseDefinition` subclass raises `ValueError`; otherwise the selector starts with no condition |
| DefinitionSelectors.SourceWordValidMeaning | loglan_core/addons/definition_selector.py:85-92 | the event condition holds iff the definition's source word is valid at the event |
| DefinitionSelectors.DefinitionSelector.ByEvent | loglan_core/addons/definition_selector.py:74-92 | adds the event condition; stated by `DefinitionSelectors.ByEventRows` |
| DefinitionSelectors.DefinitionSelector.ByKey | loglan_core/addons/definition_selector.py:94-124 | adds the key condition; stated by `DefinitionSelectors.ByKeyRows` |
| DefinitionSelectors.DefinitionSelector.ByLanguage | loglan_core/addons/definition_selector.py:126-137 | adds the language condition; stated by `DefinitionSelectors.ByLanguageRows` |
| DefinitionSelectors.Rows | loglan_core/addons/definition_selector.py:85-124 | the rows are exactly the definitions meeting all conditions |
| DefinitionSelectors.NewSelectsAll | loglan_core/addons/definition_selector.py:59-65 | a fresh selector selects every definition, in table order |
| DefinitionSelectors.RowsNarrow | loglan_core/addons/definition_selector.py:85-92 | each method keeps exactly the earlier rows meeting its condition |
| DefinitionSelectors.ByEventRows | loglan_core/addons/definition_selector.py:74-92 | `by_event` keeps the earlier rows that have a key link and whose source word is valid at the event |
| DefinitionSelectors.ByKeyRows | loglan_core/addons/definition_selector.py:94-124 | `by_key` keeps the earlier rows linked to a key matching the search text, in the effective language |
| DefinitionSelectors.KeyRowOverridesArguments | loglan_core/addons/definition_selector.py:113-119 | a key row searches for its word, and its own language overrides the `language` argument |
| DefinitionSelectors.ByLanguageRows | loglan_core/addons/definition_selector.py:126-137 | `by_language` keeps the earlier rows in the language, or all of them when it is absent |
| DefinitionSelectors.ByLanguageNoneKeepsAll | loglan_core/definition.py:155-166 | a falsy language leaves the rows unchanged |
| DefinitionSelectors.RowsDistinct | loglan_core/addons/definition_selector.py:124 | the result never holds a definition twice |
| KeySelectors.New | loglan_core/addons/key_selector.py:45-63 | a class that is not a `BaseKey` subclass raises `ValueError`; otherwise the selector starts with no condition |
| KeySelectors.UsedAtMeaning | loglan_core/addons/key_selector.py:85-93 | the event condition holds iff the key is linked to a definition whose source word is valid at the event |
| KeySelectors.KeySelector.ByEvent | loglan_core/addons/key_selector.py:73-93 | adds the event condition; stated by `KeySelectors.ByEventRows` |
| KeySelectors.KeySelector.ByKey | loglan_core/addons/key_selector.py:95-109 | adds the key word condition; stated by `KeySelectors.ByKeyRows` |
| KeySelectors.KeySelector.ByLanguage | loglan_core/addons/key_selector.py:111-122 | adds the language condition; stated by `KeySelectors.ByLanguageRows` |
| KeySelectors.Rows | loglan_core/addons/key_selector.py:73-122 | the rows are exactly the keys meeting all conditions |
| KeySelectors.NewSelectsAll | loglan_core/addons/key_selector.py:57-63 | a fresh selector selects every key |
| KeySelectors.RowsNarrow | loglan_core/addons/key_selector.py:85-93 | each method keeps exactly the earlier rows meeting its condition |
| KeySelectors.ByEventRows | loglan_core/addons/key_selector.py:73-93 | `by_event` keeps the earlier keys used by a definition of a word valid at the event |
| KeySelectors.ByEventMatchesDefinitions | loglan_core/addons/key_selector.py:85-93 | a key is kept by `by_event` iff it is linked to a definition the definition selector's `by_event` keeps |
| KeySelectors.ByKeyRows | loglan_core/addons/key_selector.py:95-109 | `by_key` keeps the earlier keys whose word matches the rewritten pattern under the chosen operator |
| KeySelectors.ByLanguageRows | loglan_core/addons/key_selector.py:111-122 | `by_language` keeps the earlier keys in the language, or all when it is absent |
| KeySelectors.ByLanguageNoneKeepsAll | loglan_core/addons/key_selector.py:122 | a falsy language leaves the rows unchanged |
| KeySelectors.RowsDistinct | loglan_core/addons/key_selector.py:93 | `id IN subquery`: the result never holds a key twice |
| WordGetter.FilterEvent | loglan_core/addons/word_getter.py:37-40 | keeps exactly the words with start at most E and end absent or after E |
| WordGetter.ByEvent | loglan_core/addons/word_getter.py:19-35 | fails with `AttributeError` iff no event exists for a falsy id; otherwise exactly the base rows valid at the legacy event (the latest row's `id` for a falsy id), each as often as in the base, sorted by name |
| WordGetter.NameFilter | loglan_core/addons/word_getter.py:59-61 | `LIKE` when case-sensitive, `ILIKE` otherwise, on the rewritten pattern |
| WordGetter.ByName | loglan_core/addons/word_getter.py:42-62 | the words valid at the legacy event whose name matches under `LIKE`/`ILIKE`, sorted by name |
| WordGetter.MatchingKeysPositive | loglan_core/addons/word_getter.py:86-90 | a definition contributes join rows iff it is linked to a matching key in the language |
| WordGetter.JoinCountWitness | loglan_core/addons/word_getter.py:86-87 | a word with join rows has a definition linked to a matching key |
| WordGetter.JoinCountFromWitness | loglan_core/addons/word_getter.py:86-87 | a word with such a definition has join rows |
| WordGetter.JoinCountPositive | loglan_core/addons/word_getter.py:86-90 | a word has join rows iff it has a definition linked to a matching key |
| WordGetter.ByKey | loglan_core/addons/word_getter.py:64-92 | the join rows that `.count()` counts: each word valid at the legacy event comes back once per (definition, matching key) pair, sorted by name |
| WordGetter.ByKeyAll | loglan_core/addons/word_getter.py:64-92 | the rows `.all()` returns: fails iff `by_event` fails; otherwise each word valid at the legacy event with a definition linked to a matching key, exactly once, sorted by name |
| WordGetter.ByKeyRowCount | loglan_core/addons/word_getter.py:86-87 | the result is not deduplicated: its length is the number of key/definition join rows |
| WordGetter.ByEventMatchesSelector | loglan_core/addons/word_getter.py:19-35 | with an explicit event, or a latest row whose `id` is its `event_id`, the legacy `by_event` keeps the same words as `WordSelector.by_event` |
| WordGetter.ByKeyMatchesSelector | loglan_core/addons/word_getter.py:64-92 | under the same condition on the event, the legacy `by_key` keeps the same words as `WordSelector.by_event().by_key()` |
| WordGetter.SelectorByKeyRows | loglan_core/addons/word_selector.py:119-147 | `WordSelector().by_event(E).by_key(key)` keeps exactly the words valid at the resolved event with a definition linked to a matching key |
| KeyGetter.JoinCountWitness | loglan_core/addons/key_getter.py:39-43 | a key with join rows is linked to a definition of a word valid at the event |
| KeyGetter.JoinCountFromWitness | loglan_core/addons/key_getter.py:39-43 | a key linked to such a definition has join rows |
| KeyGetter.UsedAt | loglan_core/addons/key_getter.py:39-43 | a definition linked to the key has a source word valid at the event; stated by `KeyGetter.JoinCountPositive` |
| KeyGetter.JoinCountPositive | loglan_core/addons/key_getter.py:39-43 | a key has join rows iff it is used at the event |
| KeyGetter.ByEvent | loglan_core/addons/key_getter.py:16-37 | the join rows that `.count()` counts: fails with `AttributeError` iff no event exists for a falsy id; otherwise each base key used at the legacy event comes back once per join row |
| KeyGetter.ByEventAll | loglan_core/addons/key_getter.py:16-37 | the rows `.all()` returns: fails iff `by_event` fails; otherwise each base key used at the legacy event exactly once |
| KeyGetter.ByEventMatchesSelector | loglan_core/addons/key_getter.py:16-37 | with an explicit event, or a latest row whose `id` is its `event_id`, the legacy `by_event` keeps the same keys as `KeySelector.by_event` |
| KeyGetter.UsedAtAgrees | loglan_core/addons/key_getter.py:31-43 | under the same condition, the legacy key condition at the resolved event is the selector's event condition |
| WordLinker.Fresh | loglan_core/addons/word_linker.py:56 | the new items have no duplicate, are items not yet present, and include every item not yet present |
| WordLinker.FreshIsSetDifference | loglan_core/addons/word_linker.py:91 | the new items are exactly `set(items) - set(existing)` |
| WordLinker.FreshIdempotent | loglan_core/addons/word_linker.py:56-62 | after adding the new items, nothing is new |
| WordLinker.ExtendByFresh | loglan_core/addons/word_linker.py:91-93 | extending keeps duplicate-freedom, covers every item and adds nothing else |
| WordLinker.AddChild | loglan_core/addons/word_linker.py:18-40 | corrected to append through `relationship_derivatives`: a non-parentable child raises `TypeError` with nothing changed; otherwise the child is appended only when absent, and its name is returned |
| WordLinker.AddChildren | loglan_core/addons/word_linker.py:43-62 | corrected to extend `relationship_derivatives`: raises `TypeError`, changing nothing, iff a new child is not parentable; otherwise appends the new children |
| WordLinker.AddAuthor | loglan_core/addons/word_linker.py:64-79 | corrected to append through `relationship_authors`: appends the author only when absent, and returns its abbreviation |
| WordLinker.AddAuthors | loglan_core/addons/word_linker.py:81-93 | corrected to extend `relationship_authors`: appends the authors not yet present and keeps the others |
| WordLinker.LinkTwice | loglan_core/addons/word_linker.py:81-93 | with the corrected methods, linking twice keeps both collections free of duplicates, and every given author is present |
| WordLinker.AddChildAsWritten | loglan_core/addons/word_linker.py:35-40 | as written: the same `TypeError` check and the same returned name, and the stored derivatives unchanged |
| WordLinker.AddChildrenAsWritten | loglan_core/addons/word_linker.py:56-62 | as written: `TypeError` iff a new child is not parentable, and the stored derivatives unchanged either way |
| WordLinker.AddAuthorAsWritten | loglan_core/addons/word_linker.py:77-79 | as written: the abbreviation is returned and the stored authors are unchanged |
| WordLinker.AddAuthorsAsWritten | loglan_core/addons/word_linker.py:91-93 | as written: the stored authors are unchanged |
| WordLinker.ChildLinkLost | loglan_core/addons/word_linker.py:38-40 | for a parentable child not yet attached, as written `add_child` returns its name and leaves it unattached; the corrected one then attaches it |
| WordLinker.ChildrenLinkLost | loglan_core/addons/word_linker.py:56-62 | for parentable children with a new one among them, as written `add_children` attaches nothing; the corrected one attaches the new ones |
| WordLinker.AuthorLinkLost | loglan_core/addons/word_linker.py:77-79 | for an author not yet attached, as written `add_author` returns the abbreviation and leaves it unattached; the corrected one then attaches it |
| WordLinker.AuthorsLinkLost | loglan_core/addons/word_linker.py:91-93 | for authors with a new one among them, as written `add_authors` attaches nothing; the corrected one attaches the new ones |
| WordConverter.Stringer | loglan_core/addons/export_word_converter.py:102-112 | the result is `""` iff the value is falsy, otherwise its `str` |
| WordConverter.LoadDerivatives | loglan_core/addons/export_word_converter.py:63 | each derivative is loaded with its type, and loading fails iff a type is missing |
| WordConverter.Load | loglan_core/addons/export_word_converter.py:31-100 | a loaded word carries its type, exactly its linked authors, and its derivatives in order, each with its name and type; it fails exactly when the word or a derivative has no type row |
| WordConverter.SortedAbbreviations | loglan_core/addons/export_word_converter.py:36 | the author abbreviations, sorted ascending, as a permutation |
| WordConverter.Source | loglan_core/addons/export_word_converter.py:31-39 | the source text is trimmed |
| WordConverter.SourceWithoutNote | loglan_core/addons/export_word_converter.py:36-39 | without an author note, the source is the sorted abbreviations joined by `/` |
| WordConverter.Year | loglan_core/addons/export_word_converter.py:41-53 | `""` without a year; otherwise the year number begins it; always trimmed |
| WordConverter.YearWithoutNote | loglan_core/addons/export_word_converter.py:51-53 | without a year note, the field is the year number |
| WordConverter.UsedInNames | loglan_core/addons/export_word_converter.py:63-64 | the names of the derivatives whose group is `Cpx` |
| WordConverter.UsedIn | loglan_core/addons/export_word_converter.py:55-65 | `""` without such derivatives, and the single name when there is one |
| WordConverter.AffixNames | loglan_core/addons/export_word_converter.py:75-78 | the names of the `Affix` derivatives with hyphens removed |
| WordConverter.Affixes | loglan_core/addons/export_word_converter.py:67-79 | the affix field holds no hyphen and is trimmed, and is `""` for a word without affixes |
| WordConverter.AffixesJoin | loglan_core/addons/export_word_converter.py:67-79 | when every affix name is non-empty, space-free and trimmed, the field is the names joined by single spaces, and splitting it on a space gives the names back, in order |
| WordConverter.Djifoa | loglan_core/addons/export_word_converter.py:81-89 | the djifoa field holds no hyphen and is trimmed, as the affix field it copies |
| WordConverter.Rank | loglan_core/addons/export_word_converter.py:91-100 | the rank field is trimmed |
| WordConverter.RankWithoutNote | loglan_core/addons/export_word_converter.py:99-100 | without a rank note the field is the rank, or `None` when there is no rank |
| Exporter.FieldTexts | loglan_core/addons/exporter.py:96 | each field is written as `str(i or "")` |
| Exporter.MergeBy | loglan_core/addons/exporter.py:84-96 | the field texts joined by the separator; stated by `Exporter.MergeBySplit` |
| Exporter.MergeBySplit | loglan_core/addons/exporter.py:84-96 | splitting the merged line on the separator gives back the field texts, and a field is empty iff its value is falsy |
| Exporter.PaddedField | loglan_core/addons/exporter.py:45-46 | a zero-padded number has the given width and denotes the number |
| Exporter.EventDate | loglan_core/addons/exporter.py:45 | `MM/DD/YYYY`; stated by `Exporter.EventDateFields` |
| Exporter.SettingDate | loglan_core/addons/exporter.py:46 | `DD.MM.YYYY HH:MM:SS`; stated by `Exporter.SettingDateFields` |
| Exporter.EventDateFields | loglan_core/addons/exporter.py:45 | event dates are `MM/DD/YYYY`, zero-padded |
| Exporter.SettingDateFields | loglan_core/addons/exporter.py:46 | setting dates are `DD.MM.YYYY HH:MM:SS`, zero-padded |
| Exporter.ExportAuthor | loglan_core/addons/exporter.py:98-106 | three fields, the first the abbreviation |
| Exporter.ExportEvent | loglan_core/addons/exporter.py:108-123 | six fields, the third the formatted date |
| Exporter.ExportSyllable | loglan_core/addons/exporter.py:125-133 | three fields, the third `True` or `False` |
| Exporter.ExportSetting | loglan_core/addons/exporter.py:135-148 | four fields, the first the formatted timestamp |
| Exporter.ExportType | loglan_core/addons/exporter.py:150-164 | five fields, the fourth `True` or `False` for parentable |
| Exporter.ExportWord | loglan_core/addons/exporter.py:166-192 | twelve fields, with affixes, source, year, rank and used-in from the converter |
| Exporter.ExportDefinition | loglan_core/addons/exporter.py:194-211 | seven fields: the grammar without parentheses as the fourth, and an empty sixth |
| Exporter.CodeName | loglan_core/addons/exporter.py:221-223 | same length as the name, `0` for each upper-case letter and `5` otherwise |
| Exporter.ExportWordSpell | loglan_core/addons/exporter.py:213-232 | seven fields: old id, name, lower-cased name, the digit code name of the name, start event, end event or 9999, empty last field |
| Exporter.FirstMatch | loglan_core/addons/exporter.py:72-76 | the first base in the listed order that the class derives from, or none |
| Exporter.ExportDispatch | loglan_core/addons/exporter.py:61-79 | no exporter iff the class is unrelated or a key; otherwise its own base's exporter, so spells use the spell format |
| Exporter.Export | loglan_core/addons/exporter.py:48-82 | `ValueError` iff no exporter matches; otherwise the fields of the first match, merged |
| SourcePattern.MatchFrom | loglan_core/word_source.py:13 | the longest match of `\d+\/\d+\w` at a position, or none |
| SourcePattern.SearchFrom | loglan_core/addons/word_sourcer.py:21 | the leftmost position with a match, and its match |
| SourcePattern.Search | loglan_core/word_source.py:55-59 | no result iff nothing matches; the language is one word character |
| SourcePattern.SearchAt | loglan_core/word_source.py:27-30 | the leftmost longest match gives coincidence, length and language |
| SourcePattern.SearchShape | loglan_core/addons/word_sourcer.py:35-38 | `c/lL ...` parses as c, l and L |
| SourcePattern.FirstTranscription | loglan_core/word_source.py:32-35 | the first position where a transcription can start |
| SourcePattern.Transcription | loglan_core/word_source.py:32-35 | none iff no transcription can start; otherwise trimmed and on one line |
| SourcePattern.TranscriptionFrom | loglan_core/word_source.py:32-35 | the transcription is the stripped rest of the line after the first space |
| SourcePattern.TranscriptionAfter | loglan_core/addons/word_sourcer.py:40-43 | `head t` with a space-free head gives `t` |
| WordSources.LanguageCodes | loglan_core/word_source.py:15-24 | exactly the eight one-letter codes E, C, H, R, S, F, J, G |
| WordSources.ParseLenient | loglan_core/word_source.py:26-60 | no number fields iff nothing matches, and then no error; the transcription is present iff one can start |
| WordSources.ParseStrict | loglan_core/addons/word_sourcer.py:34-68 | `ValueError` iff nothing matches; otherwise the lenient parse |
| WordSources.Complete | loglan_core/word_source.py:69-70 | `all(...)` over the four fields; stated by `WordSources.AsString` |
| WordSources.Format | loglan_core/word_source.py:71 | the text `c/lL t`; stated by `WordSources.ParseFormat` |
| WordSources.AsString | loglan_core/word_source.py:62-71 | `""` iff a component is falsy; otherwise it begins with `c/` |
| WordSources.FormatSearch | loglan_core/addons/word_sourcer.py:77-79 | a formatted source searches back to its numbers and language |
| WordSources.FormatTranscription | loglan_core/addons/word_sourcer.py:77-79 | a formatted source gives back its transcription |
| WordSources.ParseFormat | loglan_core/word_source.py:69-71 | parsing a formatted source gives back every component |
| WordSources.AsStringRoundTrip | loglan_core/addons/word_sourcer.py:70-79 | parsing the string of a complete source gives the same source |
| WordSources.ParseActExample | loglan_core/addons/word_sourcer.py:63-67 | `2/3E act` parses to 2, 3, `E`, `act` and round-trips |
| WordSources.NoTranscriptionExample | loglan_core/word_source.py:69-71 | `2/4C` has no transcription, so its string is `""` |
| WordSources.NoNumberExample | loglan_core/addons/word_sourcer.py:68 | `4/S` raises `ValueError` in the strict parse, and gives no fields in the lenient one |
| WordSources.DigitLanguageExample | loglan_core/addons/word_sourcer.py:21 | in `12/345 x` the final `\w` takes the last digit: 12, 34, `5` |
| WordSourcer.ParseAll | loglan_core/addons/word_sourcer.py:127 | `ValueError` iff some part fails to parse; otherwise one source per part |
| WordSourcer.CPrimSources | loglan_core/addons/word_sourcer.py:117-127 | only `C-Prim` words yield sources, one per ` \| ` segment of the origin |
| WordSourcer.GetSourcesPrim | loglan_core/addons/word_sourcer.py:100-115 | nothing unless the group is `Prim`; sources for `C-Prim`; otherwise exactly `name: origin`, followed by ` < origin_x` when `origin_x` is non-empty |
| WordSourcer.CPrimJoinedSources | loglan_core/addons/word_sourcer.py:125-127 | an origin joined from parseable segments gives one source per segment |
| WordSourcer.DescribedExample | loglan_core/addons/word_sourcer.py:109-115 | humnu with origin humni gives `humnu: humni` |
| WordSourcer.TrimLinkLetter | loglan_core/addons/word_sourcer.py:203 | one trailing `r` or `h` is removed, and nothing else |
| WordSourcer.KeepSourceParts | loglan_core/addons/word_sourcer.py:202-206 | drops the parts `y`, `r` and `n` and trims a link letter from the others |
| WordSourcer.KeepSourcePartsAppend | loglan_core/addons/word_sourcer.py:202-206 | the parts are kept in order, one for each part that is not `y`, `r` or `n`: keeping `a + b` gives the kept parts of `a` followed by those of `b` |
| WordSourcer.CpxPartsClean | loglan_core/addons/word_sourcer.py:197-201 | no split part holds a bracket, slash or plus |
| WordSourcer.PrepareSourcesCpx | loglan_core/addons/word_sourcer.py:192-207 | `[]` for an empty origin; otherwise the kept parts of the origin without brackets and slashes, split on `+` |
| WordSourcer.PrepareJoined | loglan_core/addons/word_sourcer.py:197-206 | an origin that is a `+`-join of clean parts yields their kept parts |
| WordSourcer.TwoBracketedParts | loglan_core/addons/word_sourcer.py:197-206 | `a(b)+c(d)e` yields the kept parts of `ab` and `cde` |
| WordSourcer.PrukaoSources | loglan_core/addons/word_sourcer.py:192-207 | `pru(ci)+ka(kt)o` yields `pruci` and `kakto` |
| WordSourcer.RiyhasgruKept | loglan_core/addons/word_sourcer.py:202-206 | the parts `rih`, `y`, `hasfa`, `grupa` keep `ri`, `hasfa`, `grupa` |
| WordSourcer.GetTypeIds | loglan_core/addons/word_sourcer.py:169-190 | exactly the ids of the types whose type, type_x or group is `LW` or `Cpd` |
| WordSourcer.WordsFromSourceCpx | loglan_core/addons/word_sourcer.py:151-167 | the words named in the sources whose type is not an `LW`/`Cpd` type |
| WordSourcer.WordsFromSourceCpd | loglan_core/addons/word_sourcer.py:247-264 | the words named in the sources whose type is an `LW`/`Cpd` type |
| WordSourcer.SourcesPartition | loglan_core/addons/word_sourcer.py:161-167 | each named word is found by exactly one of the two queries |
| WordSourcer.GetSourcesCpx | loglan_core/addons/word_sourcer.py:129-149 | `[]` unless the group is `Cpx`; otherwise the prepared names, or the words they name |
| WordSourcer.CpdPartsClean | loglan_core/addons/word_sourcer.py:235-244 | every split part is non-empty and free of brackets, slashes, hyphens and plus |
| WordSourcer.PrepareSourcesCpd | loglan_core/addons/word_sourcer.py:230-245 | `[]` for an empty origin; otherwise the non-empty parts, stripped |
| WordSourcer.GetSourcesCpd | loglan_core/addons/word_sourcer.py:209-228 | `[]` unless the type is `Cpd`; otherwise the prepared names, or the words they name |

## Left out

- Real SQL matching is not modelled. `LIKE`'s `_` wildcard, escapes, `GLOB` classes, collations and NULL three-valued logic belong to the database. The matcher has one multi-character wildcard per operator.
- Character classes are ASCII only: `\d`, `\w`, whitespace, `isupper` and lower-casing. Unicode rules are not modelled.
- Query results come back in table order where the SQL has no `ORDER BY`. The database may return any order.
- `BaseEvent.latest` and `BaseEvent.latest_id` are not part of this model. `latest` is read as the event row holding the maximum `event_id` (`Filters.LatestEvent`), and `latest_id` as that maximum, as in `filters.py:24`.
- `BaseKey.filter_by_key_cs` and `BaseKey.filter_by_language` are not part of this model. They are taken to behave as `filter_key_by_word_cs` and `filter_key_by_language` in `addons/filters.py`.
- The `int(event_id)` coercion and the `isinstance(..., BaseEvent)` branch in `key_getter.py:34` are left out, as is the `BaseKey.word` branch in `word_getter.py:85`. Event ids are integers here.
- `base_selector.py` is left out: session execution and the async variants are calls into SQLAlchemy.
- `base.py` reflection, the ORM mapping, lazy and dynamic loading, `__str__`, `setup.py` and the connect-table schema are left out. Only the composite primary keys are kept, as sets of pairs.
- `WordSourcer.prepare_origin` and `switch_prims` are not modelled: the first is not defined in `word_sourcer.py`, and the second is a constant list that no function there reads.
- The test fixture store is not transcribed as data. Its examples (`by_event(3)`, `by_type("Afx")`) are covered by the general lemmas over any store, and the complex-origin examples by piecewise lemmas (`PrukaoSources`, `RiyhasgruKept`).
- `WordLinker.AddChildren` and `WordLinker.AddAuthors` add new items in first-occurrence order. Python iterates a `set` in an unspecified order.
- `WordLinker.LinkTwice` is about the corrected methods, and states only duplicate-freedom and that every author is present. The exact contents are stated by the `AddAuthors` contract it calls.
- `Exporter.MergeBySplit` is proved only for one-character separators (the default is `@`).
- `Exporter.EventDateFields` and `Exporter.SettingDateFields` assume years below 10000 and two-digit days, months and times. `strftime` locale details are left out.
- `Exporter.ExportAuthor`, `Exporter.ExportEvent`, `Exporter.ExportSyllable`, `Exporter.ExportSetting` and `Exporter.ExportType` state the field count and one characteristic field each. The other fields are copied record fields.
- `WordConverter.UsedIn` states the empty and one-name cases. The general case is the `" | "` join of `UsedInNames`.
- `WordConverter.Rank` and `WordConverter.RankWithoutNote` keep the f-string behaviour: a missing rank prints as `None`.
- `WordConverter.Source`, `WordConverter.Year` and `WordConverter.Rank` state trimming and the no-note case. They do not state the text with a note.
- Record fields that no modelled query reads are left out of the records. `WordType.typeName` is the `type` column, which `BaseType` maps under the attribute `type_`.
- Filters.LegacyEventAgrees: holds only for an explicit event id, or when the latest event row's `id` equals its `event_id`. `Filters.LegacyEventDiverges` shows a word the two conditions treat differently otherwise.
- WordGetter.ByEventMatchesSelector: requires the same condition on the event as `Filters.LegacyEventAgrees`.
- WordGetter.ByKeyMatchesSelector: requires the same condition on the event as `Filters.LegacyEventAgrees`.
- KeyGetter.ByEventMatchesSelector: requires the same condition on the event as `Filters.LegacyEventAgrees`.
- KeyGetter.UsedAtAgrees: requires the same condition on the event as `Filters.LegacyEventAgrees`.
- WordModel.DerivativesQueryBy, `WordModel.DerivativesQueryByNoFilters`, `WordModel.Affixes` and `WordModel.Complexes` state the corrected query. As written every call raises `AttributeError`, as `WordModel.DerivativesQueryByAsWritten` states (see Findings).
- TypeQuery.SelectTypeByProperty, `TypeQuery.SelectTypes` and `TypeQuery.OneValueAsList` state the corrected query. As written every call raises `AttributeError`, as `TypeQuery.SelectTypeByPropertyAsWritten` states (see Findings).
- WordSelectors.ByTypeTextRows, `WordSelectors.TypeFieldsHolds`, `WordSelectors.TypeFieldsCondMeaning` and `WordSelectors.ByTypeNoArguments` state the corrected `by_type`. As written any argument other than a type row raises `AttributeError`, as `WordSelectors.ByTypeAsWritten` states (see Findings).
- WordConverter.Affixes: its own contract states the shape only. The contents are stated by `WordConverter.AffixesJoin`, for affix names that are non-empty, space-free and trimmed. Names with inner or surrounding whitespace are covered by the shape clauses alone.

## Findings

| source | as written | input that shows it | evidently intended | confidence | as-written member | corrected member |
|---|---|---|---|---|---|---|
| loglan_core/word.py:312 | `keys` calls `sorted(set(...))` on `BaseKey` objects, which define no ordering, so sorting two distinct keys raises `TypeError` | a word with a definition linked to two distinct keys, such as `prukao` with keys `examine` and `test` | the distinct keys of the word's definitions, ordered by key word as in `keys_query` | not executed | WordModel.KeysAsWrittenFails | WordModel.Keys |
| loglan_core/word.py:238 | `derivatives_query_by` reads `type_class.type`, but `BaseType` maps its `type` column as `type_` and has no attribute `type`, so every call raises `AttributeError`, and so do `affixes` and `complexes` | any word, for example `affixes` of a word with an `Afx` derivative | compare the `type` column, `type_class.type_`, with `word_type` | not executed | WordModel.DerivativesQueryByAsWritten | WordModel.DerivativesQueryBy |
| loglan_core/addons/word_selector.py:172 | `by_type` builds `(BaseType.type, type_)` for every argument that is not a type row, so the call raises `AttributeError`, even without arguments | `by_type("C-Prim")`, or `by_type()` | compare `BaseType.type_`, and add no condition when no argument is truthy | not executed | WordSelectors.ByTypeAsWrittenText | WordSelectors.ByTypeTextRows |
| loglan_core/addons/utils.py:101 | `select_type_by_property` reads `BaseType.type`, so every call raises `AttributeError` | `select_type_by_property("Afx")` | `BaseType.type_.in_(type_filter)` | not executed | TypeQuery.SelectTypeByPropertyAsWritten | TypeQuery.SelectTypeByProperty |
| loglan_core/addons/word_linker.py:39 | `add_child` appends to `parent.derivatives`, a property returning a fresh list from `derivatives_query.all()` (`word.py:206-211`), so the link is not stored | `add_child(kakto, prukao)` with a parentable type and no link yet: it returns `prukao`, and `kakto.derivatives` stays `[]` | append through `relationship_derivatives` | not executed | WordLinker.ChildLinkLost | WordLinker.AddChild |
| loglan_core/addons/word_linker.py:62 | `add_children` extends the same fresh list, so no child is stored | `add_children(kakto, [prukao])` with no link yet | extend `relationship_derivatives` | not executed | WordLinker.ChildrenLinkLost | WordLinker.AddChildren |
| loglan_core/addons/word_linker.py:78 | `add_author` appends to `word.authors`, a fresh list from `authors_query.all()` (`word.py:160-165`), so the author is not stored | `add_author(prukao, author)` for an author not yet linked | append through `relationship_authors` | not executed | WordLinker.AuthorLinkLost | WordLinker.AddAuthor |
| loglan_core/addons/word_linker.py:93 | `add_authors` extends the same fresh list, so no author is stored | `add_authors(prukao, [author])` for an author not yet linked | extend `relationship_authors` | not executed | WordLinker.AuthorsLinkLost | WordLinker.AddAuthors |
