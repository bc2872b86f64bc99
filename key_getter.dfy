/** `AddonKeyGetter`: the legacy, session-based key query by event. */
module KeyGetter {
  import opened Common
  import opened Schema
  import Seqs
  import Filters
  import KeySelectors
  import DefinitionSelectors

  /** `add_to if add_to else session.query(cls)`. */
  function Base(store: Store, addTo: Option<seq<Key>>): seq<Key> {
    if addTo.Some? then addTo.value else store.keys
  }

  /** The rows the join definition → word yields for `d` at event `e`. */
  function ValidWords(store: Store, e: int, d: Definition): nat {
    Seqs.Count(store.words, (w: Word) => w.id == d.wordId && Filters.ValidAt(w, e))
  }

  /** The rows the join key → connect_keys → definition yields for `k`
      through one definition. */
  function PerDefinition(store: Store, e: int, k: Key): Definition -> nat {
    (d: Definition) => if (k.id, d.id) in store.connectKeys then ValidWords(store, e, d) else 0
  }

  /** How many rows `_filter_event` yields for `k`: one per (definition,
      word) pair joined to it with the word valid at `e`. */
  function JoinCount(store: Store, e: int, k: Key): nat {
    Seqs.Sum(store.definitions, PerDefinition(store, e, k))
  }

  lemma JoinCountWitness(store: Store, e: int, k: Key)
    requires JoinCount(store, e, k) > 0
    ensures UsedAt(store, e, k)
  {
    var i :| 0 <= i < |store.definitions| && PerDefinition(store, e, k)(store.definitions[i]) > 0;
    var d := store.definitions[i];
    var j :| 0 <= j < |store.words| && store.words[j].id == d.wordId && Filters.ValidAt(store.words[j], e);
    assert store.words[j] in store.words;
  }

  lemma JoinCountFromWitness(store: Store, e: int, k: Key, d: Definition, w: Word)
    requires d in store.definitions && (k.id, d.id) in store.connectKeys
    requires w in store.words && w.id == d.wordId && Filters.ValidAt(w, e)
    ensures JoinCount(store, e, k) > 0
  {
    var j :| 0 <= j < |store.words| && store.words[j] == w;
    assert ValidWords(store, e, d) > 0;
    var i :| 0 <= i < |store.definitions| && store.definitions[i] == d;
    assert PerDefinition(store, e, k)(store.definitions[i]) > 0;
  }

  /** Some definition linked to `k` has a source word valid at `e`. */
  predicate UsedAt(store: Store, e: int, k: Key) {
    exists d, w :: d in store.definitions && (k.id, d.id) in store.connectKeys &&
      w in store.words && w.id == d.wordId && Filters.ValidAt(w, e)
  }

  lemma JoinCountPositive(store: Store, e: int, k: Key)
    ensures JoinCount(store, e, k) > 0 <==> UsedAt(store, e, k)
  {
    if JoinCount(store, e, k) > 0 {
      JoinCountWitness(store, e, k);
    }
    if UsedAt(store, e, k) {
      var d, w :| d in store.definitions && (k.id, d.id) in store.connectKeys &&
        w in store.words && w.id == d.wordId && Filters.ValidAt(w, e);
      JoinCountFromWitness(store, e, k, d, w);
    }
  }

  /** `by_event(session, event_id, add_to)`: the base keys joined through
      `connect_keys` to definitions and their words, kept where the word is
      valid at the event (the latest one when `event_id` is falsy); one row
      per joined pair, in base order. AttributeError when the latest event
      is needed and there is none. */
  function ByEvent(store: Store, eventId: Option<int>, addTo: Option<seq<Key>>): (r: Result<seq<Key>>)
    ensures r.Failure? <==> !TruthyInt(eventId) && store.events == []
    ensures r.Failure? ==> r.error.AttributeError?
    ensures r.Success? ==> forall k :: k in r.value <==>
      k in Base(store, addTo) && UsedAt(store, Filters.LegacyEvent(eventId, store.events).value, k)
    ensures r.Success? ==>
      |r.value| == Seqs.Sum(Base(store, addTo), (k: Key) => JoinCount(store, Filters.LegacyEvent(eventId, store.events).value, k))
    ensures r.Success? ==> forall k ::
      multiset(r.value)[k] ==
        multiset(Base(store, addTo))[k] * JoinCount(store, Filters.LegacyEvent(eventId, store.events).value, k)
  {
    match Filters.LegacyEvent(eventId, store.events)
    case Failure(err) => Failure(err)
    case Success(e) =>
      forall k ensures JoinCount(store, e, k) > 0 <==> UsedAt(store, e, k) {
        JoinCountPositive(store, e, k);
      }
      forall k ensures multiset(Seqs.Expand(Base(store, addTo), (k: Key) => JoinCount(store, e, k)))[k] ==
          multiset(Base(store, addTo))[k] * JoinCount(store, e, k) {
        Seqs.ExpandMultiset(Base(store, addTo), (k: Key) => JoinCount(store, e, k), k);
      }
      Success(Seqs.Expand(Base(store, addTo), (k: Key) => JoinCount(store, e, k)))
  }

  /** `by_event(...).all()`: the ORM returns each key of the join once, at
      its first row. (`.count()` counts the join rows, as `ByEvent` gives
      them.) */
  function ByEventAll(store: Store, eventId: Option<int>, addTo: Option<seq<Key>>): (r: Result<seq<Key>>)
    ensures r.Failure? <==> !TruthyInt(eventId) && store.events == []
    ensures r.Success? ==> Seqs.NoDup(r.value)
    ensures r.Success? ==> forall k ::
      multiset(r.value)[k] ==
        if k in Base(store, addTo) && UsedAt(store, Filters.LegacyEvent(eventId, store.events).value, k) then 1 else 0
  {
    match ByEvent(store, eventId, addTo)
    case Failure(err) => Failure(err)
    case Success(rows) =>
      var distinct := Seqs.Dedup(rows);
      forall k ensures multiset(distinct)[k] == if k in rows then 1 else 0 {
        Seqs.DedupMultiset(rows, k);
      }
      Success(distinct)
  }

  /** Where the event resolves (explicitly, or to a latest row whose key is
      its event id), the legacy `by_event` over all keys selects the same
      keys as `KeySelector().by_event`, possibly repeated. */
  lemma ByEventMatchesSelector(store: Store, eventId: Option<int>, k: Key)
    requires ByEvent(store, eventId, None).Success?
    requires TruthyInt(eventId) || Filters.LatestAligned(store.events)
    ensures k in ByEvent(store, eventId, None).value <==>
      k in KeySelectors.Rows(store, KeySelectors.KeySelector(false, []).ByEvent(eventId))
  {
    var sel := KeySelectors.KeySelector(false, []);
    KeySelectors.NewSelectsAll(store, SubclassOf(BaseKey, "BaseKey"), false);
    KeySelectors.ByEventRows(store, sel, eventId, k);
    UsedAtAgrees(store, eventId, k);
  }

  /** Validity at the resolved event is the selector's event filter, when
      an explicit event is given or the latest row's key is its event id. */
  lemma UsedAtAgrees(store: Store, eventId: Option<int>, k: Key)
    requires Filters.LegacyEvent(eventId, store.events).Success?
    requires TruthyInt(eventId) || Filters.LatestAligned(store.events)
    ensures UsedAt(store, Filters.LegacyEvent(eventId, store.events).value, k) <==>
      exists d, w :: d in store.definitions && (k.id, d.id) in store.connectKeys &&
        w in store.words && w.id == d.wordId && Filters.EventFilter(eventId, store.events, w)
  {
    var e := Filters.LegacyEvent(eventId, store.events).value;
    if UsedAt(store, e, k) {
      var d, w :| d in store.definitions && (k.id, d.id) in store.connectKeys &&
        w in store.words && w.id == d.wordId && Filters.ValidAt(w, e);
      Filters.LegacyEventAgrees(eventId, store.events, w);
    }
    if exists d, w :: d in store.definitions && (k.id, d.id) in store.connectKeys &&
        w in store.words && w.id == d.wordId && Filters.EventFilter(eventId, store.events, w) {
      var d, w :| d in store.definitions && (k.id, d.id) in store.connectKeys &&
        w in store.words && w.id == d.wordId && Filters.EventFilter(eventId, store.events, w);
      Filters.LegacyEventAgrees(eventId, store.events, w);
    }
  }
}
