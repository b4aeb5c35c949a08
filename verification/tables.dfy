/** The relational store's tables, independent of what they hold.

    A table keeps its rows in rowid order together with the largest id it has
    ever handed out, which is what SQLite's AUTOINCREMENT keeps in its
    sequence table: ids start at 1, grow by one per INSERT and are never
    reused after a DELETE. Queries are written against a key function
    `key: Row<T> -> K` so that one definition serves every column. */
module Tables {
  import opened Base

  datatype Row<T> = Row(id: int, val: T)

  datatype Table<T> = Table(rows: seq<Row<T>>, lastId: nat)

  function EmptyTable<T>(): Table<T> {
    Table([], 0)
  }

  function RowId<T>(r: Row<T>): int {
    r.id
  }

  ghost predicate Increasing<T>(rows: seq<Row<T>>) {
    forall i, j :: 0 <= i < j < |rows| ==> rows[i].id < rows[j].id
  }

  /** The primary-key discipline of an AUTOINCREMENT table. */
  ghost predicate WellKeyed<T>(t: Table<T>) {
    && (forall r :: r in t.rows ==> 1 <= r.id <= t.lastId)
    && Increasing(t.rows)
  }

  /** A UNIQUE constraint on the column `key`. */
  ghost predicate Unique<T, K>(t: Table<T>, key: Row<T> -> K) {
    forall i, j :: 0 <= i < j < |t.rows| ==> key(t.rows[i]) != key(t.rows[j])
  }

  /** The values a column currently holds. */
  function ColumnValues<T(==), K>(t: Table<T>, key: Row<T> -> K): (ks: set<K>)
    ensures forall r :: r in t.rows ==> key(r) in ks
    ensures forall k :: k in ks ==> exists r :: r in t.rows && key(r) == k
  {
    set r | r in t.rows :: key(r)
  }

  function Ids<T(==)>(t: Table<T>): set<int> {
    ColumnValues(t, RowId)
  }

  /** INSERT: the new row gets the next id of the sequence. */
  function Insert<T>(t: Table<T>, v: T): (res: (Table<T>, Row<T>)) {
    var row := Row(t.lastId + 1, v);
    (Table(t.rows + [row], row.id), row)
  }

  /** The rows whose column `key` holds a value outside `ks`, in their order. */
  function Keep<T, K>(rows: seq<Row<T>>, key: Row<T> -> K, ks: set<K>): (r: seq<Row<T>>)
    ensures forall x :: x in r ==> x in rows && key(x) !in ks
    ensures forall x :: x in rows && key(x) !in ks ==> x in r
  {
    if rows == [] then []
    else if key(rows[0]) in ks then Keep(rows[1..], key, ks)
    else [rows[0]] + Keep(rows[1..], key, ks)
  }

  /** DELETE FROM t WHERE key IN ks. */
  function DeleteWhere<T, K>(t: Table<T>, key: Row<T> -> K, ks: set<K>): (r: Table<T>)
    ensures r.lastId == t.lastId
    ensures forall x :: x in r.rows ==> x in t.rows && key(x) !in ks
    ensures forall x :: x in t.rows && key(x) !in ks ==> x in r.rows
  {
    Table(Keep(t.rows, key, ks), t.lastId)
  }

  /** SELECT * FROM t WHERE key = k, in rowid order. */
  function Select<T, K(==)>(rows: seq<Row<T>>, key: Row<T> -> K, k: K): (r: seq<Row<T>>)
    ensures forall x :: x in r ==> x in rows && key(x) == k
    ensures forall x :: x in rows && key(x) == k ==> x in r
    ensures (forall x :: x in rows ==> key(x) != k) ==> r == []
    ensures |r| <= |rows|
  {
    if rows == [] then []
    else if key(rows[0]) == k then [rows[0]] + Select(rows[1..], key, k)
    else Select(rows[1..], key, k)
  }

  /** A row appended at the end is selected after the rows before it, if it matches. */
  lemma {:induction false} SelectSnoc<T, K>(rows: seq<Row<T>>, x: Row<T>, key: Row<T> -> K, k: K)
    ensures Select(rows + [x], key, k) == Select(rows, key, k) + (if key(x) == k then [x] else [])
  {
    if rows != [] {
      assert (rows + [x])[0] == rows[0];
      assert (rows + [x])[1..] == rows[1..] + [x];
      SelectSnoc(rows[1..], x, key, k);
    }
  }

  /** An increasing sequence is an increasing tail below its head. */
  lemma IncreasingTail<T>(rows: seq<Row<T>>)
    requires Increasing(rows) && rows != []
    ensures Increasing(rows[1..])
    ensures forall x :: x in rows[1..] ==> rows[0].id < x.id
  {
    var tail := rows[1..];
    forall i, j | 0 <= i < j < |tail| ensures tail[i].id < tail[j].id {
      assert tail[i] == rows[i + 1] && tail[j] == rows[j + 1];
    }
    forall x | x in tail ensures rows[0].id < x.id {
      var m :| 0 <= m < |tail| && tail[m] == x;
      assert rows[m + 1] == x;
    }
  }

  /** A head below every row of an increasing sequence extends it. */
  lemma IncreasingCons<T>(head: Row<T>, rest: seq<Row<T>>)
    requires Increasing(rest)
    requires forall x :: x in rest ==> head.id < x.id
    ensures Increasing([head] + rest)
  {
    var r := [head] + rest;
    forall i, j | 0 <= i < j < |r| ensures r[i].id < r[j].id {
      assert r[j] == rest[j - 1];
      if i == 0 {
        assert rest[j - 1] in rest;
      } else {
        assert r[i] == rest[i - 1];
      }
    }
  }

  lemma {:induction false} SelectIncreasing<T, K>(rows: seq<Row<T>>, key: Row<T> -> K, k: K)
    requires Increasing(rows)
    ensures Increasing(Select(rows, key, k))
  {
    if rows != [] {
      IncreasingTail(rows);
      SelectIncreasing(rows[1..], key, k);
      if key(rows[0]) == k {
        IncreasingCons(rows[0], Select(rows[1..], key, k));
      }
    }
  }

  /** Under a UNIQUE constraint at most one row holds a given value. */
  lemma {:induction false} SelectOfUnique<T, K>(t: Table<T>, key: Row<T> -> K, k: K)
    requires Unique(t, key)
    ensures |Select(t.rows, key, k)| <= 1
    decreases |t.rows|
  {
    if t.rows != [] {
      var tail := Table(t.rows[1..], t.lastId);
      forall i, j | 0 <= i < j < |tail.rows| ensures key(tail.rows[i]) != key(tail.rows[j]) {
        assert tail.rows[i] == t.rows[i + 1] && tail.rows[j] == t.rows[j + 1];
      }
      SelectOfUnique(tail, key, k);
      if key(t.rows[0]) == k {
        forall x | x in tail.rows ensures key(x) != k {
          var i :| 0 <= i < |tail.rows| && tail.rows[i] == x;
          assert t.rows[i + 1] == x;
        }
      }
    }
  }

  /** `.get()` of SELECT * FROM t WHERE key = k: the first matching row, if any. */
  function First<T, K(==)>(rows: seq<Row<T>>, key: Row<T> -> K, k: K): (r: Option<Row<T>>)
    ensures r.None? <==> forall x :: x in rows ==> key(x) != k
    ensures r.Some? ==> r.value in rows && key(r.value) == k
  {
    if rows == [] then None
    else if key(rows[0]) == k then Some(rows[0])
    else First(rows[1..], key, k)
  }

  /** `.get()` of SELECT ... ORDER BY id DESC LIMIT 1: the row with the largest id. */
  function Newest<T>(rows: seq<Row<T>>): (r: Option<Row<T>>)
    ensures r.None? <==> rows == []
    ensures r.Some? ==> r.value in rows && forall x :: x in rows ==> x.id <= r.value.id
  {
    if rows == [] then None
    else
      match Newest(rows[1..])
      case None => Some(rows[0])
      case Some(m) => if rows[0].id > m.id then Some(rows[0]) else Some(m)
  }

  /** Under a UNIQUE constraint, the first match is the only match. */
  lemma FirstOfUnique<T, K>(t: Table<T>, key: Row<T> -> K, x: Row<T>)
    requires Unique(t, key)
    requires x in t.rows
    ensures First(t.rows, key, key(x)) == Some(x)
  {
    var f := First(t.rows, key, key(x));
    var i :| 0 <= i < |t.rows| && t.rows[i] == f.value;
    var j :| 0 <= j < |t.rows| && t.rows[j] == x;
    assert key(t.rows[i]) == key(t.rows[j]);
    assert i == j;
  }

  /** Rows that are strictly increasing in id have distinct ids. */
  lemma IncreasingIsUnique<T>(t: Table<T>)
    requires Increasing(t.rows)
    ensures Unique(t, RowId)
  {
  }

  /** In a well-keyed table the id identifies the row. */
  lemma SameIdSameRow<T>(t: Table<T>, x: Row<T>, y: Row<T>)
    requires WellKeyed(t)
    requires x in t.rows && y in t.rows && x.id == y.id
    ensures x == y
  {
    var i :| 0 <= i < |t.rows| && t.rows[i] == x;
    var j :| 0 <= j < |t.rows| && t.rows[j] == y;
    IncreasingIsUnique(t);
    assert RowId(t.rows[i]) == RowId(t.rows[j]);
    assert i == j;
  }

  lemma {:induction false} KeepIncreasing<T, K>(rows: seq<Row<T>>, key: Row<T> -> K, ks: set<K>)
    requires Increasing(rows)
    ensures Increasing(Keep(rows, key, ks))
  {
    if rows != [] {
      IncreasingTail(rows);
      KeepIncreasing(rows[1..], key, ks);
      if key(rows[0]) !in ks {
        IncreasingCons(rows[0], Keep(rows[1..], key, ks));
      }
    }
  }

  lemma {:induction false} KeepUnique<T, K, L>(t: Table<T>, key: Row<T> -> K, ks: set<K>, col: Row<T> -> L)
    requires Unique(t, col)
    ensures Unique(Table(Keep(t.rows, key, ks), t.lastId), col)
    decreases |t.rows|
  {
    if t.rows != [] {
      var tail := Table(t.rows[1..], t.lastId);
      assert Unique(tail, col) by {
        forall i, j | 0 <= i < j < |tail.rows| ensures col(tail.rows[i]) != col(tail.rows[j]) {
          assert tail.rows[i] == t.rows[i + 1] && tail.rows[j] == t.rows[j + 1];
        }
      }
      KeepUnique(tail, key, ks, col);
      var rest := Keep(t.rows[1..], key, ks);
      forall x | x in rest ensures col(t.rows[0]) != col(x) {
        var i :| 0 <= i < |t.rows[1..]| && t.rows[1..][i] == x;
        assert t.rows[i + 1] == x;
      }
    }
  }

  /** A DELETE that matches no row leaves the table as it was. */
  lemma {:induction false} DeleteNothing<T, K>(t: Table<T>, key: Row<T> -> K, ks: set<K>)
    requires forall x :: x in t.rows ==> key(x) !in ks
    ensures DeleteWhere(t, key, ks) == t
    decreases |t.rows|
  {
    if t.rows != [] {
      assert t.rows[0] in t.rows;
      var tail := Table(t.rows[1..], t.lastId);
      forall x | x in tail.rows ensures key(x) !in ks {
        assert x in t.rows;
      }
      DeleteNothing(tail, key, ks);
      assert t.rows == [t.rows[0]] + t.rows[1..];
    }
  }

  /** Deleting rows keeps the primary-key discipline and every UNIQUE constraint. */
  lemma DeleteKeepsKeys<T, K>(t: Table<T>, key: Row<T> -> K, ks: set<K>)
    requires WellKeyed(t)
    ensures WellKeyed(DeleteWhere(t, key, ks))
  {
    KeepIncreasing(t.rows, key, ks);
  }

  lemma DeleteKeepsUnique<T, K, L>(t: Table<T>, key: Row<T> -> K, ks: set<K>, col: Row<T> -> L)
    requires Unique(t, col)
    ensures Unique(DeleteWhere(t, key, ks), col)
  {
    KeepUnique(t, key, ks, col);
  }

  /** Inserting keeps the primary-key discipline: the new id exceeds every id in use. */
  lemma InsertKeepsKeys<T>(t: Table<T>, v: T)
    requires WellKeyed(t)
    ensures WellKeyed(Insert(t, v).0)
    ensures Insert(t, v).1.id !in Ids(t)
  {
  }

  /** Inserting a value absent from a UNIQUE column keeps that constraint. */
  lemma InsertKeepsUnique<T, K>(t: Table<T>, v: T, col: Row<T> -> K)
    requires Unique(t, col)
    requires col(Insert(t, v).1) !in ColumnValues(t, col)
    ensures Unique(Insert(t, v).0, col)
  {
    var t' := Insert(t, v).0;
    forall i, j | 0 <= i < j < |t'.rows| ensures col(t'.rows[i]) != col(t'.rows[j]) {
      if j == |t.rows| {
        assert t'.rows[i] in t.rows;
      } else {
        assert t'.rows[i] == t.rows[i] && t'.rows[j] == t.rows[j];
      }
    }
  }

  /** Under the primary-key discipline the newest row is the last one inserted. */
  lemma NewestIsLast<T>(t: Table<T>)
    requires WellKeyed(t)
    requires t.rows != []
    ensures Newest(t.rows) == Some(t.rows[|t.rows| - 1])
  {
    var m := Newest(t.rows).value;
    var i :| 0 <= i < |t.rows| && t.rows[i] == m;
    assert t.rows[|t.rows| - 1].id <= m.id;
    assert i == |t.rows| - 1;
  }

  /** The rows a run of INSERTs of `vs` appends after the id `base`. */
  function NumberRows<T>(base: int, vs: seq<T>): (r: seq<Row<T>>)
    ensures |r| == |vs|
    ensures forall i :: 0 <= i < |vs| ==> r[i] == Row(base + 1 + i, vs[i])
  {
    seq(|vs|, i requires 0 <= i < |vs| => Row(base + 1 + i, vs[i]))
  }

  /** The table after INSERTing `vs` one by one. */
  function AppendAll<T>(t: Table<T>, vs: seq<T>): Table<T> {
    Table(t.rows + NumberRows(t.lastId, vs), t.lastId + |vs|)
  }

  /** The rows of a table after appending `vs`: the old rows, then one row per value. */
  lemma AppendRows<T>(t: Table<T>, vs: seq<T>)
    ensures forall x :: x in AppendAll(t, vs).rows ==> x in t.rows || x.val in vs
    ensures forall x :: x in t.rows ==> x in AppendAll(t, vs).rows
    ensures forall k :: 0 <= k < |vs| ==> Row(t.lastId + 1 + k, vs[k]) in AppendAll(t, vs).rows
  {
    var u := AppendAll(t, vs).rows;
    var added := NumberRows(t.lastId, vs);
    forall x | x in u ensures x in t.rows || x.val in vs {
      var i :| 0 <= i < |u| && u[i] == x;
      if i >= |t.rows| {
        assert x == added[i - |t.rows|];
      }
    }
    forall x | x in t.rows ensures x in u {
      var i :| 0 <= i < |t.rows| && t.rows[i] == x;
      assert u[i] == x;
    }
    forall k | 0 <= k < |vs| ensures Row(t.lastId + 1 + k, vs[k]) in u {
      assert u[|t.rows| + k] == added[k];
    }
  }

  /** A row of a table has its id among the table's ids. */
  lemma IdOfRow<T>(t: Table<T>, x: Row<T>)
    requires x in t.rows
    ensures x.id in Ids(t)
  {
    assert RowId(x) in ColumnValues(t, RowId);
  }

  /** A single INSERT appends one row, under the next id. */
  lemma AppendOne<T>(t: Table<T>, v: T)
    ensures AppendAll(t, [v]).rows == t.rows + [Row(t.lastId + 1, v)]
    ensures AppendAll(t, [v]).lastId == t.lastId + 1
  {
    assert NumberRows(t.lastId, [v]) == [Row(t.lastId + 1, v)];
  }

  lemma AppendNone<T>(t: Table<T>)
    ensures AppendAll(t, []) == t
  {
    assert t.rows + [] == t.rows;
  }

  /** Two runs of INSERTs are one longer run. */
  lemma AppendAppend<T>(t: Table<T>, us: seq<T>, vs: seq<T>)
    ensures AppendAll(AppendAll(t, us), vs) == AppendAll(t, us + vs)
  {
    var t1 := AppendAll(t, us);
    assert NumberRows(t.lastId, us + vs) == NumberRows(t.lastId, us) + NumberRows(t1.lastId, vs);
    assert t1.rows + NumberRows(t1.lastId, vs) == t.rows + NumberRows(t.lastId, us + vs);
  }

  lemma AppendKeepsKeys<T>(t: Table<T>, vs: seq<T>)
    requires WellKeyed(t)
    ensures WellKeyed(AppendAll(t, vs))
    ensures forall x :: x in NumberRows(t.lastId, vs) ==> x.id !in Ids(t)
  {
    var t' := AppendAll(t, vs);
    var n := |t.rows|;
    forall i, j | 0 <= i < j < |t'.rows| ensures t'.rows[i].id < t'.rows[j].id {
      if j < n {
        assert t'.rows[i] == t.rows[i] && t'.rows[j] == t.rows[j];
      } else if i < n {
        assert t'.rows[i] in t.rows;
      }
    }
  }

  /** Appending rows whose values in `col` are new and distinct keeps the UNIQUE constraint on `col`. */
  lemma AppendKeepsUnique<T, K>(t: Table<T>, vs: seq<T>, col: Row<T> -> K)
    requires Unique(t, col)
    requires Unique(Table(NumberRows(t.lastId, vs), 0), col)
    requires forall x :: x in NumberRows(t.lastId, vs) ==> col(x) !in ColumnValues(t, col)
    ensures Unique(AppendAll(t, vs), col)
  {
    var t' := AppendAll(t, vs);
    var added := NumberRows(t.lastId, vs);
    var n := |t.rows|;
    forall i, j | 0 <= i < j < |t'.rows| ensures col(t'.rows[i]) != col(t'.rows[j]) {
      if j < n {
        assert t'.rows[i] == t.rows[i] && t'.rows[j] == t.rows[j];
      } else if i < n {
        assert t'.rows[j] == added[j - n];
        assert t'.rows[i] in t.rows;
      } else {
        assert t'.rows[i] == added[i - n] && t'.rows[j] == added[j - n];
      }
    }
  }

  /** A single INSERT of a value new to a UNIQUE column keeps the constraint. */
  lemma AppendOneKeepsUnique<T, K>(t: Table<T>, v: T, col: Row<T> -> K)
    requires Unique(t, col)
    requires col(Row(t.lastId + 1, v)) !in ColumnValues(t, col)
    ensures Unique(AppendAll(t, [v]), col)
  {
    assert Insert(t, v).0 == AppendAll(t, [v]);
    InsertKeepsUnique(t, v, col);
  }

  /** Appending never removes a value from a column. */
  lemma AppendKeepsColumn<T, K>(t: Table<T>, vs: seq<T>, col: Row<T> -> K)
    ensures ColumnValues(t, col) <= ColumnValues(AppendAll(t, vs), col)
  {
    forall k | k in ColumnValues(t, col) ensures k in ColumnValues(AppendAll(t, vs), col) {
      var r :| r in t.rows && col(r) == k;
      assert r in AppendAll(t, vs).rows;
    }
  }

  /** Two tables with a UNIQUE column and the same rows holding `k` answer the lookup of `k` alike. */
  lemma FirstSameMatches<T, K>(t: Table<T>, u: Table<T>, key: Row<T> -> K, k: K)
    requires Unique(t, key) && Unique(u, key)
    requires forall x :: x in t.rows && key(x) == k ==> x in u.rows
    requires forall x :: x in u.rows && key(x) == k ==> x in t.rows
    ensures First(t.rows, key, k) == First(u.rows, key, k)
  {
    var f := First(t.rows, key, k);
    if f.Some? {
      FirstOfUnique(u, key, f.value);
    }
  }
}
