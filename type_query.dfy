/** `select_type_by_property`: the type rows (or their ids) whose `type`,
    `type_x` or `group` is one of the given values. `WordSourcer.get_type_ids`
    runs the same query for its ids. */
module TypeQuery {
  import opened Common
  import opened Schema
  import Seqs

  /** The `type_filter` argument: one string, or a list of strings. */
  datatype TypeFilter = OneValue(value: string) | Values(values: seq<string>)

  /** A single string stands for the list holding just that string. */
  function FilterValues(f: TypeFilter): (r: seq<string>)
    ensures forall v :: v in r <==> (if f.OneValue? then v == f.value else v in f.values)
  {
    match f
    case OneValue(v) => [v]
    case Values(vs) => vs
  }

  /** The type's `type`, `type_x` or `group` is one of the values. */
  predicate HasProperty(t: WordType, values: seq<string>) {
    t.typeName in values || t.typeX in values || t.group in values
  }

  function HasPropertyOf(values: seq<string>): WordType -> bool {
    (t: WordType) => HasProperty(t, values)
  }

  /** The matching type rows, in table order. */
  function SelectTypes(types: seq<WordType>, f: TypeFilter): (r: seq<WordType>)
    ensures forall t :: t in r <==> t in types && HasProperty(t, FilterValues(f))
    ensures forall t :: multiset(r)[t] == if HasProperty(t, FilterValues(f)) then multiset(types)[t] else 0
  {
    Seqs.Filter(types, HasPropertyOf(FilterValues(f)))
  }

  function Ids(types: seq<WordType>): (r: seq<int>)
    ensures |r| == |types| && forall i :: 0 <= i < |types| ==> r[i] == types[i].id
  {
    seq(|types|, i requires 0 <= i < |types| => types[i].id)
  }

  /** `select_type_by_property(type_filter, id_only)`: the matching rows, or
      with `id_only` their ids. */
  function SelectTypeByProperty(types: seq<WordType>, f: TypeFilter, idOnly: bool): (r: TypeSelection)
    ensures idOnly ==> r.TypeIds? && forall id :: id in r.ids <==>
      exists t :: t in types && t.id == id && HasProperty(t, FilterValues(f))
    ensures idOnly ==> r.ids == Ids(SelectTypes(types, f))
    ensures !idOnly ==> r.TypeRows? && forall t :: t in r.rows <==> t in types && HasProperty(t, FilterValues(f))
    ensures !idOnly ==> forall t :: multiset(r.rows)[t] == if HasProperty(t, FilterValues(f)) then multiset(types)[t] else 0
  {
    var rows := SelectTypes(types, f);
    if idOnly then
      assert forall id :: id in Ids(rows) <==> exists t :: t in rows && t.id == id by {
        forall id | id in Ids(rows) ensures exists t :: t in rows && t.id == id {
          var i :| 0 <= i < |rows| && Ids(rows)[i] == id;
          assert rows[i] in rows;
        }
        forall id | exists t :: t in rows && t.id == id ensures id in Ids(rows) {
          var t :| t in rows && t.id == id;
          var i :| 0 <= i < |rows| && rows[i] == t;
          assert Ids(rows)[i] == id;
        }
      }
      TypeIds(Ids(rows))
    else TypeRows(rows)
  }

  /** What the query projects: type rows or type ids. */
  datatype TypeSelection = TypeRows(rows: seq<WordType>) | TypeIds(ids: seq<int>)

  /** `select_type_by_property` as written: its condition reads
      `BaseType.type`, an attribute `BaseType` does not have (its `type`
      column is the attribute `type_`), so every call raises
      AttributeError before a statement is built. */
  function SelectTypeByPropertyAsWritten(types: seq<WordType>, f: TypeFilter, idOnly: bool): (r: Result<TypeSelection>)
    ensures r.Failure? && r.error.AttributeError?
  {
    TypeAttributeMissing();
    match TypeClassAttribute("type")
    case Failure(err) => Failure(err)
    case Success(_) => Success(SelectTypeByProperty(types, f, idOnly))
  }

  /** As written the query fails even where a type row matches by its
      `type` column, which the corrected query returns. */
  lemma SelectTypeByPropertyAsWrittenFails(types: seq<WordType>, t: WordType, idOnly: bool)
    requires t in types
    ensures SelectTypeByPropertyAsWritten(types, OneValue(t.typeName), idOnly).Failure?
    ensures !idOnly ==> t in SelectTypeByProperty(types, OneValue(t.typeName), idOnly).rows
    ensures idOnly ==> t.id in SelectTypeByProperty(types, OneValue(t.typeName), idOnly).ids
  {
    assert HasProperty(t, FilterValues(OneValue(t.typeName)));
  }

  /** A single string selects what the one-element list selects: the
      types that carry it as their type, type_x or group, each as often as
      stored. */
  lemma OneValueAsList(types: seq<WordType>, v: string, idOnly: bool)
    ensures SelectTypeByProperty(types, OneValue(v), idOnly) == SelectTypeByProperty(types, Values([v]), idOnly)
    ensures !idOnly ==> forall t ::
      multiset(SelectTypeByProperty(types, OneValue(v), idOnly).rows)[t] ==
        if t.typeName == v || t.typeX == v || t.group == v then multiset(types)[t] else 0
  {
    forall t ensures HasProperty(t, FilterValues(OneValue(v))) <==> t.typeName == v || t.typeX == v || t.group == v {
      assert FilterValues(OneValue(v)) == [v];
    }
  }
}
