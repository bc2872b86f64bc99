/** The row conditions shared by the word model, the selectors and the
    legacy getters: the event-versioning rule, the name/key pattern filters
    and the optional language filter (`BaseWord.filter_by_event_id`,
    `BaseWord.filter_by_name_cs`, and the functions of `addons/filters.py`
    and `addons/utils.py`, which build the same conditions). */
module Filters {
  import opened Common
  import opened Schema
  import Text

  // ---------------------------------------------------------------- events

  /** `max(event_id)` over the events table; NULL (None) when it is empty. */
  function LatestEventId(events: seq<Event>): (r: Option<int>)
    ensures r.None? <==> events == []
    ensures r.Some? ==> exists i :: 0 <= i < |events| && events[i].eventId == r.value
    ensures r.Some? ==> forall i :: 0 <= i < |events| ==> events[i].eventId <= r.value
  {
    if events == [] then None
    else
      match LatestEventId(events[1..])
      case None => Some(events[0].eventId)
      case Some(m) =>
        assert forall i :: 1 <= i < |events| ==> events[i] == events[1..][i - 1];
        if events[0].eventId >= m then Some(events[0].eventId)
        else (assert exists i :: 0 <= i < |events[1..]| && events[1..][i].eventId == m; Some(m))
  }

  /** `event_id or latest`: a missing or zero event id means the latest one. */
  function ResolveEvent(eventId: Option<int>, events: seq<Event>): Option<int>
  {
    if TruthyInt(eventId) then eventId else LatestEventId(events)
  }

  /** The half-open validity interval `[event_start_id, event_end_id)`; an
      absent end event leaves it unbounded. */
  predicate ValidAt(w: Word, e: int) {
    w.eventStart <= e && (w.eventEnd.None? || w.eventEnd.value > e)
  }

  /** The condition `filter_by_event_id(event_id)` puts on a word row. When
      the event id resolves to NULL, both comparisons are NULL and the row is
      not selected. */
  predicate EventFilter(eventId: Option<int>, events: seq<Event>, w: Word) {
    match ResolveEvent(eventId, events)
    case None => false
    case Some(e) => ValidAt(w, e)
  }

  /** A word is valid exactly on `[start, end)`: at its start event (unless
      it ends there) and no longer at its end event. */
  lemma ValidityInterval(w: Word, e: int)
    ensures ValidAt(w, e) <==> w.eventStart <= e && (w.eventEnd.Some? ==> e < w.eventEnd.value)
    ensures (w.eventEnd.None? || w.eventEnd.value > w.eventStart) ==> ValidAt(w, w.eventStart)
    ensures w.eventEnd.Some? ==> !ValidAt(w, w.eventEnd.value)
  {
  }

  /** A word without an end event stays valid from its start on. */
  lemma OpenEndedValidFrom(w: Word, e: int)
    requires w.eventEnd.None?
    ensures ValidAt(w, e) <==> e >= w.eventStart
  {
  }

  /** A missing event id and event id 0 both select the latest event, which
      is the largest event id in the table. */
  lemma DefaultEventIsLatest(eventId: Option<int>, events: seq<Event>, w: Word)
    requires !TruthyInt(eventId) && events != []
    ensures ResolveEvent(eventId, events).Some?
    ensures forall i :: 0 <= i < |events| ==> events[i].eventId <= ResolveEvent(eventId, events).value
    ensures EventFilter(eventId, events, w) == EventFilter(None, events, w) == EventFilter(Some(0), events, w)
  {
  }

  /** With an empty events table and no explicit event, no word is selected. */
  lemma EmptyEventsSelectNothing(eventId: Option<int>, w: Word)
    requires !TruthyInt(eventId)
    ensures !EventFilter(eventId, [], w)
  {
  }

  /** An explicit non-zero event id is used as given, whatever the table holds. */
  lemma ExplicitEventUsed(e: int, events: seq<Event>, w: Word)
    requires e != 0
    ensures EventFilter(Some(e), events, w) <==> ValidAt(w, e)
  {
  }

  /** The latest event row, `BaseEvent.latest(session)`: the row with the
      largest event id (the first of them should the ids repeat), None when
      the table is empty. `BaseEvent.latest` is not part of this model; it is
      read here as the row holding `max(event_id)`. */
  function LatestEvent(events: seq<Event>): (r: Option<Event>)
    ensures r.None? <==> events == []
    ensures r.Some? ==> r.value in events
    ensures r.Some? ==> forall i :: 0 <= i < |events| ==> events[i].eventId <= r.value.eventId
    ensures r.Some? ==> LatestEventId(events) == Some(r.value.eventId)
  {
    if events == [] then None
    else
      match LatestEvent(events[1..])
      case None => Some(events[0])
      case Some(m) =>
        assert forall i :: 1 <= i < |events| ==> events[i] == events[1..][i - 1];
        if events[0].eventId >= m.eventId then Some(events[0]) else Some(m)
  }

  /** Whether the latest event row's surrogate key equals its event id, as
      in a table whose rows were numbered in event order. */
  predicate LatestAligned(events: seq<Event>) {
    match LatestEvent(events)
    case None => true
    case Some(e) => e.id == e.eventId
  }

  /** The event of the legacy getters: a truthy event id as given, otherwise
      `BaseEvent.latest(session).id`, the surrogate key of the latest event
      row; with no event at all that is `None.id`, an AttributeError. */
  function LegacyEvent(eventId: Option<int>, events: seq<Event>): (r: Result<int>)
    ensures r.Failure? <==> !TruthyInt(eventId) && events == []
    ensures r.Failure? ==> r.error.AttributeError?
    ensures r.Success? && TruthyInt(eventId) ==> r.value == eventId.value
    ensures r.Success? && !TruthyInt(eventId) ==>
      exists i :: 0 <= i < |events| && events[i].id == r.value &&
        events[i].eventId == ResolveEvent(eventId, events).value
  {
    if TruthyInt(eventId) then Success(eventId.value)
    else match LatestEvent(events)
      case None => Failure(AttributeError("'NoneType' object has no attribute 'id'"))
      case Some(e) => Success(e.id)
  }

  /** The condition the legacy getters put on a word: the event resolves
      and the word is valid at it. */
  predicate LegacyFilter(eventId: Option<int>, events: seq<Event>, w: Word) {
    match LegacyEvent(eventId, events)
    case Failure(_) => false
    case Success(e) => ValidAt(w, e)
  }

  /** Where the legacy event resolves and the latest row's key equals its
      event id (or an explicit event id is given), it selects the words the
      selectors' event filter selects; where it fails, the selectors select
      nothing. */
  lemma LegacyEventAgrees(eventId: Option<int>, events: seq<Event>, w: Word)
    requires TruthyInt(eventId) || LatestAligned(events)
    ensures LegacyEvent(eventId, events).Success? ==>
      (ValidAt(w, LegacyEvent(eventId, events).value) <==> EventFilter(eventId, events, w))
    ensures LegacyEvent(eventId, events).Failure? ==> !EventFilter(eventId, events, w)
    ensures LegacyFilter(eventId, events, w) <==> EventFilter(eventId, events, w)
  {
    if !TruthyInt(eventId) && events != [] {
      assert LegacyEvent(eventId, events).value == LatestEvent(events).value.id;
    }
  }

  /** When the latest row's key is below its event id, the legacy getters
      compare against the key and drop a word that starts at the latest
      event, which the selectors' event filter keeps. */
  lemma LegacyEventDiverges(events: seq<Event>, w: Word)
    requires events != [] && LatestEvent(events).value.id < LatestEvent(events).value.eventId
    requires w.eventStart == LatestEvent(events).value.eventId && w.eventEnd.None?
    ensures EventFilter(None, events, w)
    ensures LegacyEvent(None, events).Success? && !ValidAt(w, LegacyEvent(None, events).value)
  {
  }

  // ---------------------------------------------------------------- patterns

  /** The three SQL matching operators the code chooses between. */
  datatype MatchOp = Glob | Like | ILike

  /** `GLOB` when case-sensitive on SQLite, `LIKE` when case-sensitive
      elsewhere, `ILIKE` whenever the search is case-insensitive. */
  function ChooseOp(caseSensitive: bool, isSqlite: bool): (op: MatchOp)
    ensures op == ILike <==> !caseSensitive
    ensures op == Glob <==> caseSensitive && isSqlite
    ensures op == Like <==> caseSensitive && !isSqlite
  {
    if caseSensitive then (if isSqlite then Glob else Like) else ILike
  }

  /** `str(s).replace("*", "%")`. */
  function LikePattern(s: string): (r: string)
    ensures |r| == |s|
    ensures forall i :: 0 <= i < |s| ==> r[i] == (if s[i] == '*' then '%' else s[i])
    ensures '*' !in r
  {
    Text.ReplaceCharRemoves(s, '*', '%');
    Text.ReplaceChar(s, '*', '%')
  }

  /** A pattern condition on one text column: operator and pattern. */
  datatype PatternFilter = PatternFilter(op: MatchOp, pattern: string)

  /** The condition built by `filter_by_name_cs` (on a word's name) and by
      `filter_key_by_word_cs` (on a key's word): rewrite `*` to `%`, then
      choose the operator. */
  function PatternFilterFor(text: string, caseSensitive: bool, isSqlite: bool): (f: PatternFilter)
    ensures f.op == ChooseOp(caseSensitive, isSqlite)
    ensures |f.pattern| == |text| && '*' !in f.pattern
    ensures forall i :: 0 <= i < |text| && text[i] != '*' ==> f.pattern[i] == text[i]
  {
    PatternFilter(ChooseOp(caseSensitive, isSqlite), LikePattern(text))
  }

  /** SQL wildcard matching with a single many-character wildcard `w`
      (`%` for LIKE, `*` for GLOB); every other character matches itself. */
  predicate WildMatch(w: char, p: string, t: string)
    decreases |p| + |t|
  {
    if p == [] then t == []
    else if p[0] == w then WildMatch(w, p[1..], t) || (t != [] && WildMatch(w, p, t[1..]))
    else t != [] && t[0] == p[0] && WildMatch(w, p[1..], t[1..])
  }

  /** Whether a column value satisfies a pattern condition. ILIKE compares
      lower-cased pattern and value. */
  predicate Matches(f: PatternFilter, t: string) {
    match f.op
    case Glob => WildMatch('*', f.pattern, t)
    case Like => WildMatch('%', f.pattern, t)
    case ILike => WildMatch('%', Text.Lower(f.pattern), Text.Lower(t))
  }

  /** A pattern without the wildcard matches exactly itself. */
  lemma {:induction false} WildMatchLiteral(w: char, p: string, t: string)
    requires w !in p
    ensures WildMatch(w, p, t) <==> p == t
  {
    if p != [] && t != [] {
      WildMatchLiteral(w, p[1..], t[1..]);
      assert p == [p[0]] + p[1..] && t == [t[0]] + t[1..];
    }
  }

  /** A lone wildcard matches everything. */
  lemma {:induction false} WildMatchAll(w: char, t: string)
    ensures WildMatch(w, [w], t)
  {
    if t != [] {
      WildMatchAll(w, t[1..]);
    }
  }

  /** `p` followed by the wildcard matches exactly the texts that start with `p`. */
  lemma {:induction false} WildMatchPrefix(w: char, p: string, t: string)
    requires w !in p
    ensures WildMatch(w, p + [w], t) <==> p <= t
  {
    if p == [] {
      assert p + [w] == [w];
      WildMatchAll(w, t);
    } else {
      assert (p + [w])[1..] == p[1..] + [w];
      if t != [] {
        WildMatchPrefix(w, p[1..], t[1..]);
      }
    }
  }

  /** A case-insensitive search means the same on every database. */
  lemma CaseInsensitiveIgnoresDialect(text: string, t: string)
    ensures Matches(PatternFilterFor(text, false, true), t) == Matches(PatternFilterFor(text, false, false), t)
  {
  }

  /** A search for `p*` (with no other wildcard) matches, case-insensitively,
      exactly the values that start with `p`: `by_name("ka*")` finds the
      names beginning with "ka". */
  lemma StarSearchIsPrefix(p: string, isSqlite: bool, t: string)
    requires '*' !in p && '%' !in p
    ensures Matches(PatternFilterFor(p + "*", false, isSqlite), t) <==> Text.Lower(p) <= Text.Lower(t)
  {
    var f := PatternFilterFor(p + "*", false, isSqlite);
    assert f.pattern == p + "%";
    assert Text.Lower(p + "%") == Text.Lower(p) + "%";
    assert '%' !in Text.Lower(p) by {
      forall i | 0 <= i < |p| ensures Text.Lower(p)[i] != '%' {
        assert p[i] != '%';
      }
    }
    WildMatchPrefix('%', Text.Lower(p), Text.Lower(t));
  }

  /** A case-sensitive search without wildcards is exact equality, on
      SQLite (GLOB) and elsewhere (LIKE). */
  lemma CaseSensitiveLiteralIsEquality(p: string, isSqlite: bool, t: string)
    requires '*' !in p && '%' !in p
    ensures Matches(PatternFilterFor(p, true, isSqlite), t) <==> p == t
  {
    var f := PatternFilterFor(p, true, isSqlite);
    assert f.pattern == p;
    if isSqlite { WildMatchLiteral('*', p, t); } else { WildMatchLiteral('%', p, t); }
  }

  /** As written, a case-sensitive search on SQLite rewrites `*` to `%`
      although GLOB's wildcard is `*`: "pru*" then matches no name that lacks
      a literal `%`, while the same search elsewhere finds "pruci". */
  lemma GlobSearchLosesWildcard()
    ensures !Matches(PatternFilterFor("pru*", true, true), "pruci")
    ensures Matches(PatternFilterFor("pru*", true, false), "pruci")
  {
    var f := PatternFilterFor("pru*", true, true);
    assert f.pattern == "pru%";
    WildMatchLiteral('*', "pru%", "pruci");
    WildMatchPrefix('%', "pru", "pruci");
    assert "pru" + ['%'] == "pru%";
  }

  // ---------------------------------------------------------------- language

  /** `column == language if language else true()`: no condition for a
      missing or empty language, equality otherwise (a NULL column never
      equals a language). */
  predicate LanguageFilter(language: Option<string>, value: Option<string>) {
    !TruthyText(language) || value == Some(language.value)
  }

  lemma LanguageFilterMeaning(language: Option<string>, value: Option<string>)
    ensures !TruthyText(language) ==> LanguageFilter(language, value)
    ensures TruthyText(language) ==> (LanguageFilter(language, value) <==> value.Some? && value.value == language.value)
  {
  }
}
