/**
 * The SET clause of the partial UPDATE statements: every assigned column is
 * written as `column = $n` with n counting up from 1 in assignment order, the
 * values array holds the assigned values in the same order, and the row id
 * is bound to the placeholder after the last one, `$(n + 1)`.
 */
module Placeholders {

  /** A positional parameter: an assigned value, or the id of the row to update. */
  datatype Param<V> = Value(v: V) | Key(id: int)

  /** One `column = $placeholder` item of the SET list. */
  datatype SetItem<C> = SetItem(column: C, placeholder: nat)

  /**
   * The SET list and values array number the assignments `columns[i] = vals[i]`
   * as $1..$n and bind the id at $(n + 1).
   */
  predicate NumberedAs<C(==), V(==)>(columns: seq<C>, vals: seq<V>, id: int,
                             items: seq<SetItem<C>>, params: seq<Param<V>>, idParam: nat) {
    && |columns| == |vals|
    && |items| == |columns|
    && |params| == |columns| + 1
    && idParam == |columns| + 1
    && (forall i :: 0 <= i < |items| ==> items[i] == SetItem(columns[i], i + 1))
    && (forall i :: 0 <= i < |vals| ==> params[i] == Value(vals[i]))
    && params[|columns|] == Key(id)
  }

  /**
   * The SET list built by iterating over the update's keys with a running
   * parameter counter (User.update, Event.update).
   */
  method NumberSet<C(==), V(==)>(columns: seq<C>, vals: seq<V>, id: int)
    returns (items: seq<SetItem<C>>, params: seq<Param<V>>, idParam: nat)
    requires |columns| == |vals|
    ensures NumberedAs(columns, vals, id, items, params, idParam)
  {
    items, params := [], [];
    var paramCount := 1;
    while paramCount <= |columns|
      invariant 1 <= paramCount <= |columns| + 1
      invariant |items| == paramCount - 1 && |params| == paramCount - 1
      invariant forall i :: 0 <= i < |items| ==> items[i] == SetItem(columns[i], i + 1)
      invariant forall i :: 0 <= i < |params| ==> params[i] == Value(vals[i])
    {
      items := items + [SetItem(columns[paramCount - 1], paramCount)];
      params := params + [Value(vals[paramCount - 1])];
      paramCount := paramCount + 1;
    }
    params := params + [Key(id)];
    idParam := paramCount;
  }

  predicate InRange<C, V>(items: seq<SetItem<C>>, params: seq<Param<V>>) {
    forall i :: 0 <= i < |items| ==> 1 <= items[i].placeholder <= |params|
  }

  /** What the database executes: every SET item with its placeholder resolved. */
  function Bind<C, V>(items: seq<SetItem<C>>, params: seq<Param<V>>): (r: seq<(C, Param<V>)>)
    requires InRange(items, params)
    ensures |r| == |items|
  {
    seq(|items|, i requires 0 <= i < |items| => (items[i].column, params[items[i].placeholder - 1]))
  }

  /**
   * A correctly numbered statement assigns every column its own value, in
   * order, and its WHERE clause matches the intended id.
   */
  lemma BindNumbered<C, V>(columns: seq<C>, vals: seq<V>, id: int,
                           items: seq<SetItem<C>>, params: seq<Param<V>>, idParam: nat)
    requires NumberedAs(columns, vals, id, items, params, idParam)
    ensures InRange(items, params)
    ensures forall i :: 0 <= i < |columns| ==> Bind(items, params)[i] == (columns[i], Value(vals[i]))
    ensures 1 <= idParam <= |params| && params[idParam - 1] == Key(id)
  {
    assert InRange(items, params) by {
      forall i | 0 <= i < |items| ensures 1 <= items[i].placeholder <= |params| {
        assert items[i] == SetItem(columns[i], i + 1);
      }
    }
    forall i | 0 <= i < |columns| ensures Bind(items, params)[i] == (columns[i], Value(vals[i])) {
      assert items[i] == SetItem(columns[i], i + 1);
    }
  }
}
