/** The dictionary's tables as values: one record type per mapped class and
    an in-memory store holding every table. The association tables
    `connect_authors` (AID, WID), `connect_words` (parent_id, child_id) and
    `connect_keys` (KID, DID) have composite primary keys, so each is a set
    of id pairs. */
module Schema {
  import opened Common
  import Seqs

  datatype Date = Date(year: nat, month: nat, day: nat)

  datatype DateTime = DateTime(date: Date, hour: nat, minute: nat, second: nat)

  /** A row of the words table (`BaseWord`). */
  datatype Word = Word(
    id: int,
    idOld: int,
    name: string,
    typeId: int,
    eventStart: int,
    eventEnd: Option<int>,
    tidOld: Option<int>,
    origin: Option<string>,
    originX: Option<string>,
    matchScore: Option<string>,
    rank: Option<string>,
    year: Option<Date>,
    notes: Option<map<string, string>>)

  /** A row of the types table (`BaseType`): `type`, `type_x`, `group`. */
  datatype WordType = WordType(
    id: int,
    typeName: string,
    typeX: string,
    group: string,
    parentable: bool,
    description: Option<string>)

  /** Looking a column up by attribute name on the `BaseType` class. Its
      `type` column is mapped under the attribute `type_` (the class has
      no attribute `type`); `type_x` and `group` keep their column names.
      Any other name raises AttributeError. */
  function TypeClassAttribute(name: string): (r: Result<string>)
    ensures r.Success? <==> name == "type_" || name == "type_x" || name == "group"
    ensures r.Success? ==> r.value == (if name == "type_" then "type" else name)
    ensures r.Failure? ==> r.error.AttributeError?
  {
    if name == "type_" then Success("type")
    else if name == "type_x" || name == "group" then Success(name)
    else Failure(AttributeError("type object 'BaseType' has no attribute '" + name + "'"))
  }

  /** The attribute `type` is not defined on `BaseType`, while `type_`
      reaches the `type` column. */
  lemma TypeAttributeMissing()
    ensures TypeClassAttribute("type").Failure?
    ensures TypeClassAttribute("type_") == Success("type")
  {
    assert "type" != "type_" by { assert |"type"| != |"type_"|; }
  }

  /** A row of the definitions table (`BaseDefinition`). */
  datatype Definition = Definition(
    id: int,
    wordId: int,
    position: int,
    body: string,
    usage: Option<string>,
    grammarCode: Option<string>,
    slots: Option<int>,
    caseTags: Option<string>,
    language: Option<string>,
    notes: Option<string>)

  /** A row of the keys table (`BaseKey`). */
  datatype Key = Key(id: int, word: string, language: string)

  /** A row of the events table (`BaseEvent`); `eventId` is the public,
      unique event number that words refer to. */
  datatype Event = Event(
    id: int,
    eventId: int,
    name: string,
    date: Date,
    definition: string,
    annotation: string,
    suffix: string)

  /** A row of the authors table (`BaseAuthor`). */
  datatype Author = Author(id: int, abbreviation: string, fullName: Option<string>, notes: Option<string>)

  /** A row of the settings table (`BaseSetting`). */
  datatype Setting = Setting(id: int, date: DateTime, dbVersion: int, lastWordId: int, dbRelease: string)

  /** A row of the syllables table (`BaseSyllable`). */
  datatype Syllable = Syllable(id: int, name: string, syllableType: string, allowed: bool)

  /** The mapped base classes of the package. */
  datatype BaseClass =
    | BaseAuthor | BaseEvent | BaseType | BaseWordSpell | BaseWord
    | BaseDefinition | BaseSetting | BaseSyllable | BaseKey

  /** A Python class as far as `issubclass` / `isinstance` can tell: a
      subclass (possibly the class itself) of one mapped base, or a class
      unrelated to the model. */
  datatype EntityClass = SubclassOf(base: BaseClass, name: string) | Unrelated(name: string)

  /** `issubclass(c, base)`. `BaseWordSpell` is itself a subclass of
      `BaseWord`; the other bases are unrelated to each other. */
  predicate IsSubclass(c: EntityClass, base: BaseClass) {
    c.SubclassOf? && (c.base == base || (c.base == BaseWordSpell && base == BaseWord))
  }

  /** The database: every table the selectors read. */
  datatype Store = Store(
    words: seq<Word>,
    types: seq<WordType>,
    definitions: seq<Definition>,
    keys: seq<Key>,
    events: seq<Event>,
    authors: seq<Author>,
    connectAuthors: set<(int, int)>,
    connectWords: set<(int, int)>,
    connectKeys: set<(int, int)>)

  /** Primary keys are unique in every table. */
  predicate WellFormed(store: Store) {
    (forall i, j :: 0 <= i < j < |store.words| ==> store.words[i].id != store.words[j].id) &&
    (forall i, j :: 0 <= i < j < |store.types| ==> store.types[i].id != store.types[j].id) &&
    (forall i, j :: 0 <= i < j < |store.definitions| ==> store.definitions[i].id != store.definitions[j].id) &&
    (forall i, j :: 0 <= i < j < |store.keys| ==> store.keys[i].id != store.keys[j].id) &&
    (forall i, j :: 0 <= i < j < |store.authors| ==> store.authors[i].id != store.authors[j].id)
  }

  /** Rows with distinct primary keys are distinct rows. */
  lemma WellFormedRowsDistinct(store: Store)
    requires WellFormed(store)
    ensures Seqs.NoDup(store.words) && Seqs.NoDup(store.definitions) && Seqs.NoDup(store.keys)
  {
  }

  /** The type row a word's `type` foreign key points to (the join
      `word.type == type.id`). */
  function TypeById(types: seq<WordType>, id: int): (r: Option<WordType>)
    ensures r.Some? ==> r.value in types && r.value.id == id
    ensures r.None? ==> forall t :: t in types ==> t.id != id
  {
    if types == [] then None
    else if types[0].id == id then Some(types[0])
    else TypeById(types[1..], id)
  }

  /** With unique type ids, the join finds the one type row with that id. */
  lemma {:induction false} TypeByIdUnique(types: seq<WordType>, t: WordType)
    requires forall i, j :: 0 <= i < j < |types| ==> types[i].id != types[j].id
    requires t in types
    ensures TypeById(types, t.id) == Some(t)
  {
    if types[0] != t {
      assert types[0].id != t.id by {
        var k :| 0 <= k < |types| && types[k] == t;
        assert k > 0;
      }
      assert forall i, j :: 0 <= i < j < |types[1..]| ==> types[1..][i].id != types[1..][j].id by {
        forall i, j | 0 <= i < j < |types[1..]| ensures types[1..][i].id != types[1..][j].id {
          assert types[1..][i] == types[i + 1] && types[1..][j] == types[j + 1];
        }
      }
      TypeByIdUnique(types[1..], t);
    }
  }
}
