/** Reading a table of rows keyed by integer ids, as the handlers do it: every
    handler first lists the whole table and then scans that list. */
module Tables {

  /** `rows` lists `table`: each row is an entry of the table, no id occurs
      twice, and every entry occurs. The order is left open, as the store
      promises none. */
  ghost predicate Lists<V>(rows: seq<(int, V)>, table: map<int, V>)
  {
    && (forall i :: 0 <= i < |rows| ==> rows[i].0 in table && table[rows[i].0] == rows[i].1)
    && (forall i, j :: 0 <= i < j < |rows| ==> rows[i].0 != rows[j].0)
    && (forall k :: k in table ==> exists i :: 0 <= i < |rows| && rows[i].0 == k)
  }

  /** The result of selecting every row of a table: one row per entry, in
      some order. */
  method ListRows<V>(table: map<int, V>) returns (rows: seq<(int, V)>)
    ensures Lists(rows, table)
  {
    var rest := table.Keys;
    rows := [];
    while rest != {}
      invariant rest <= table.Keys
      invariant forall i :: 0 <= i < |rows| ==>
        rows[i].0 in table && table[rows[i].0] == rows[i].1 && rows[i].0 !in rest
      invariant forall i, j :: 0 <= i < j < |rows| ==> rows[i].0 != rows[j].0
      invariant forall k :: k in table && k !in rest ==> exists i :: 0 <= i < |rows| && rows[i].0 == k
      decreases rest
    {
      var k := Pick(rest);
      ghost var before := rows;
      rows := rows + [(k, table[k])];
      rest := rest - {k};
      assert forall i :: 0 <= i < |before| ==> rows[i] == before[i];
      assert rows[|before|].0 == k;
    }
  }

  /** Some element of a set that is not empty. */
  method Pick<T>(s: set<T>) returns (k: T)
    requires s != {}
    ensures k in s
  {
    if forall x :: x !in s { assert false; }
    k :| k in s;
  }

  /** The ids of the listed rows, in the order of the rows (the handlers'
      `id_list`). */
  method IdList<V>(rows: seq<(int, V)>) returns (ids: seq<int>)
    ensures |ids| == |rows|
    ensures forall i :: 0 <= i < |rows| ==> ids[i] == rows[i].0
  {
    ids := [];
    for i := 0 to |rows|
      invariant |ids| == i
      invariant forall j :: 0 <= j < i ==> ids[j] == rows[j].0
    {
      ids := ids + [rows[i].0];
    }
  }

  /** An id occurs in the id list of a listing exactly when it is a key of
      the table listed. */
  lemma ListedIds<V>(rows: seq<(int, V)>, table: map<int, V>, ids: seq<int>)
    requires Lists(rows, table)
    requires |ids| == |rows| && forall i :: 0 <= i < |rows| ==> ids[i] == rows[i].0
    ensures forall x :: x in ids <==> x in table
  {
    forall x | x in table ensures x in ids {
      var i :| 0 <= i < |rows| && rows[i].0 == x;
      assert ids[i] == x;
    }
  }

  /** A listing is empty exactly when the table is. */
  lemma ListedEmpty<V>(rows: seq<(int, V)>, table: map<int, V>)
    requires Lists(rows, table)
    ensures |rows| == 0 <==> table == map[]
  {
    if table != map[] {
      if forall x :: x !in table { assert false; }
      var k :| k in table;
      var i :| 0 <= i < |rows| && rows[i].0 == k;
    }
    if |rows| != 0 {
      assert rows[0].0 in table;
    }
  }

  /** Every finite set of ids has a strict upper bound. */
  lemma {:induction false} UpperBound(keys: set<int>) returns (b: int)
    ensures forall k :: k in keys ==> k < b
    decreases keys
  {
    if keys == {} {
      b := 0;
    } else {
      if forall x :: x !in keys { assert false; }
      var m :| m in keys;
      var b' := UpperBound(keys - {m});
      b := if m < b' then b' else m + 1;
      forall k | k in keys ensures k < b {
        if k != m { assert k in keys - {m}; }
      }
    }
  }

  /** Some id the table does not use yet. The engine's own numbering scheme
      is not modelled: any unused id will do. */
  method FreshKey(keys: set<int>) returns (k: int)
    ensures k !in keys
  {
    ghost var b := UpperBound(keys);
    assert b !in keys;
    k :| k !in keys;
  }
}
