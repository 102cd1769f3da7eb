/**
  * `SELECT ... WHERE <filter> ORDER BY <column>` over one table, and
  * `SELECT DISTINCT <column> ... ORDER BY <column>`, as the endpoints' result
  * loops receive them. A table is a map from the id column to the record.
  */
module Listing {
  import opened Php

  /** A result row: the id column together with the record. */
  datatype Row<T> = Row(id: int, rec: T)

  /** rows are in ascending order of key. */
  predicate SortedBy<T>(rows: seq<Row<T>>, key: T -> string) {
    forall i, j :: 0 <= i < j < |rows| ==> LessEq(key(rows[i].rec), key(rows[j].rec))
  }

  /** rows holds every row of table that keep accepts, each exactly once, and
      nothing else. */
  predicate Selects<T(==)>(rows: seq<Row<T>>, table: map<int, T>, keep: T -> bool) {
    && (forall i :: 0 <= i < |rows| ==> rows[i].id in table && table[rows[i].id] == rows[i].rec && keep(rows[i].rec))
    && (forall i, j :: 0 <= i < j < |rows| ==> rows[i].id != rows[j].id)
    && (forall id :: id in table && keep(table[id]) ==> exists i :: 0 <= i < |rows| && rows[i].id == id)
  }

  /** vals is strictly ascending, so free of duplicates. */
  predicate StrictlySorted(vals: seq<string>) {
    forall i, j :: 0 <= i < j < |vals| ==> LessEq(vals[i], vals[j]) && vals[i] != vals[j]
  }

  /** The place where a row with key x goes in rows: after every row whose key
      is at most x, before every other. */
  method InsertionPoint<T>(rows: seq<Row<T>>, x: string, key: T -> string) returns (k: nat)
    requires SortedBy(rows, key)
    ensures k <= |rows|
    ensures forall i :: 0 <= i < k ==> LessEq(key(rows[i].rec), x)
    ensures forall i :: k <= i < |rows| ==> !LessEq(key(rows[i].rec), x)
  {
    k := 0;
    while k < |rows| && LessEq(key(rows[k].rec), x)
      invariant k <= |rows|
      invariant forall i :: 0 <= i < k ==> LessEq(key(rows[i].rec), x)
    {
      k := k + 1;
    }
    forall i | k <= i < |rows| ensures !LessEq(key(rows[i].rec), x) {
      LessEqTransitive(key(rows[k].rec), key(rows[i].rec), x);
    }
  }

  lemma HasElement(s: set<int>)
    ensures s != {} ==> exists x :: x in s
  {
    assert (forall x :: x !in s) ==> s == {};
  }

  /** rows with r placed at index k. */
  function InsertAt<T>(rows: seq<Row<T>>, k: nat, r: Row<T>): (out: seq<Row<T>>)
    requires k <= |rows|
    ensures |out| == |rows| + 1 && out[k] == r
    ensures forall i :: 0 <= i < k ==> out[i] == rows[i]
    ensures forall i :: k < i < |out| ==> out[i] == rows[i - 1]
  {
    rows[..k] + [r] + rows[k..]
  }

  /** Placing a row at its insertion point keeps the rows sorted. */
  lemma InsertKeepsSorted<T>(rows: seq<Row<T>>, k: nat, r: Row<T>, key: T -> string)
    requires SortedBy(rows, key) && k <= |rows|
    requires forall i :: 0 <= i < k ==> LessEq(key(rows[i].rec), key(r.rec))
    requires forall i :: k <= i < |rows| ==> !LessEq(key(rows[i].rec), key(r.rec))
    ensures SortedBy(InsertAt(rows, k, r), key)
  {
    var out := InsertAt(rows, k, r);
    forall i | k <= i < |rows| ensures LessEq(key(r.rec), key(rows[i].rec)) {
      LessEqTotal(key(r.rec), key(rows[i].rec));
    }
    forall i, j | 0 <= i < j < |out| ensures LessEq(key(out[i].rec), key(out[j].rec)) {
      if i < k && j > k {
        LessEqTransitive(key(out[i].rec), key(r.rec), key(out[j].rec));
      }
    }
  }

  /** Adding an accepted row to the table and placing it anywhere in the
      result keeps the result an exact selection. */
  lemma InsertKeepsSelects<T>(rows: seq<Row<T>>, m: map<int, T>, keep: T -> bool, k: nat, id: int, v: T)
    requires Selects(rows, m, keep) && id !in m && keep(v) && k <= |rows|
    ensures Selects(InsertAt(rows, k, Row(id, v)), m[id := v], keep)
  {
    var out := InsertAt(rows, k, Row(id, v));
    var m' := m[id := v];
    forall other | other in m' && keep(m'[other]) ensures exists i :: 0 <= i < |out| && out[i].id == other {
      if other == id {
        assert out[k].id == other;
      } else {
        var i :| 0 <= i < |rows| && rows[i].id == other;
        if i < k { assert out[i].id == other; } else { assert out[i + 1].id == other; }
      }
    }
  }

  /** The rows of table that keep accepts, in ascending order of key. */
  method SelectOrdered<T(==)>(table: map<int, T>, keep: T -> bool, key: T -> string) returns (rows: seq<Row<T>>)
    ensures Selects(rows, table, keep)
    ensures SortedBy(rows, key)
  {
    rows := [];
    var pending := table.Keys;
    while pending != {}
      invariant pending <= table.Keys
      invariant Selects(rows, table - pending, keep)
      invariant SortedBy(rows, key)
      decreases pending
    {
      HasElement(pending);
      var id :| id in pending;
      var done := table - pending;
      pending := pending - {id};
      assert table - pending == done[id := table[id]];
      if keep(table[id]) {
        var r := Row(id, table[id]);
        var k := InsertionPoint(rows, key(r.rec), key);
        InsertKeepsSorted(rows, k, r, key);
        InsertKeepsSelects(rows, done, keep, k, id, table[id]);
        rows := InsertAt(rows, k, r);
      }
    }
    assert table - pending == table;
  }

  /** The distinct keys of the rows of table that keep accepts, ascending. */
  method SelectDistinct<T(==)>(table: map<int, T>, keep: T -> bool, key: T -> string) returns (vals: seq<string>)
    ensures StrictlySorted(vals)
    ensures forall v :: v in vals <==> exists id :: id in table && keep(table[id]) && key(table[id]) == v
  {
    var rows := SelectOrdered(table, keep, key);
    vals := [];
    for n := 0 to |rows|
      invariant StrictlySorted(vals)
      invariant vals != [] <==> n > 0
      invariant n > 0 ==> vals != [] && vals[|vals| - 1] == key(rows[n - 1].rec)
      invariant forall v :: v in vals <==> exists i :: 0 <= i < n && key(rows[i].rec) == v
    {
      var v := key(rows[n].rec);
      if vals == [] || vals[|vals| - 1] != v {
        if vals != [] {
          var last := vals[|vals| - 1];
          assert LessEq(key(rows[n - 1].rec), key(rows[n].rec));
          LessEqAntisymmetric(last, v);
          forall i | 0 <= i < |vals| ensures LessEq(vals[i], v) && vals[i] != v {
            LessEqTransitive(vals[i], last, v);
            LessEqAntisymmetric(vals[i], last);
            LessEqTransitive(last, v, vals[i]);
          }
        }
        vals := vals + [v];
      }
    }
    forall v ensures v in vals <==> exists id :: id in table && keep(table[id]) && key(table[id]) == v {
      if v in vals {
        var i :| 0 <= i < |rows| && key(rows[i].rec) == v;
        assert rows[i].id in table && keep(table[rows[i].id]) && key(table[rows[i].id]) == v;
      }
      if exists id :: id in table && keep(table[id]) && key(table[id]) == v {
        var id :| id in table && keep(table[id]) && key(table[id]) == v;
        var i :| 0 <= i < |rows| && rows[i].id == id;
        assert key(rows[i].rec) == v;
      }
    }
  }
}
