/** A generative select statement: a table narrowed by a list of conditions,
    each added by one selector method (`where`, `filter`, `join` followed by
    `distinct`). A row is selected when every condition holds for it. */
module Selection {
  import Seqs

  /** Every condition in `conds` holds for `row`. */
  predicate AllHold<C, R>(holds: (C, R) -> bool, conds: seq<C>, row: R) {
    forall i :: 0 <= i < |conds| ==> holds(conds[i], row)
  }

  /** The rows of `table` the statement returns, in table order. */
  function Select<C, R(!new)>(table: seq<R>, holds: (C, R) -> bool, conds: seq<C>): (r: seq<R>)
    ensures forall x :: x in r <==> x in table && AllHold(holds, conds, x)
    ensures |r| <= |table|
  {
    Seqs.Filter(table, (x: R) => AllHold(holds, conds, x))
  }

  lemma AllHoldAppend<C, R>(holds: (C, R) -> bool, conds: seq<C>, c: C, row: R)
    ensures AllHold(holds, conds + [c], row) <==> AllHold(holds, conds, row) && holds(c, row)
  {
    if AllHold(holds, conds, row) && holds(c, row) {
      forall i | 0 <= i < |conds + [c]| ensures holds((conds + [c])[i], row) {
        if i < |conds| { assert (conds + [c])[i] == conds[i]; }
      }
    }
    if AllHold(holds, conds + [c], row) {
      forall i | 0 <= i < |conds| ensures holds(conds[i], row) {
        assert (conds + [c])[i] == conds[i];
      }
      assert (conds + [c])[|conds|] == c;
    }
  }

  /** A statement without conditions returns the whole table. */
  lemma SelectNone<C, R(!new)>(table: seq<R>, holds: (C, R) -> bool)
    ensures Select(table, holds, []) == table
  {
    Seqs.FilterAll(table, (x: R) => AllHold(holds, [], x));
  }

  /** Adding a condition narrows the rows already selected, keeping their
      order: the new statement is the old one filtered by the condition. */
  lemma SelectNarrow<C, R(!new)>(table: seq<R>, holds: (C, R) -> bool, conds: seq<C>, c: C, p: R -> bool)
    requires forall x :: p(x) == holds(c, x)
    ensures Select(table, holds, conds + [c]) == Seqs.Filter(Select(table, holds, conds), p)
  {
    forall x ensures AllHold(holds, conds + [c], x) == (AllHold(holds, conds, x) && holds(c, x)) {
      AllHoldAppend(holds, conds, c, x);
    }
    Seqs.FilterFilter(table,
      (x: R) => AllHold(holds, conds, x),
      p,
      (x: R) => AllHold(holds, conds + [c], x));
  }

  /** A condition every row meets leaves the statement's rows unchanged. */
  lemma SelectTrivial<C, R(!new)>(table: seq<R>, holds: (C, R) -> bool, conds: seq<C>, c: C)
    requires forall x :: holds(c, x)
    ensures Select(table, holds, conds + [c]) == Select(table, holds, conds)
  {
    var p := (x: R) => holds(c, x);
    SelectNarrow(table, holds, conds, c, p);
    Seqs.FilterAll(Select(table, holds, conds), p);
  }

  /** A table without repeated rows gives a statement without repeated rows. */
  lemma SelectDistinct<C, R(!new)>(table: seq<R>, holds: (C, R) -> bool, conds: seq<C>)
    requires Seqs.NoDup(table)
    ensures Seqs.NoDup(Select(table, holds, conds))
  {
    Seqs.NoDupFilter(table, (x: R) => AllHold(holds, conds, x));
  }
}
