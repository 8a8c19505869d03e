/** Relational tables as sequences of rows, and the meaning of the SQL
    statements (SELECT, UPDATE, DELETE with a WHERE condition) that the
    route handlers issue against them. A row's place in the sequence is its
    storage order; a query without ORDER BY is taken to return rows in that
    order. */
module Rows {

  datatype Option<T> = None | Some(value: T) {
    function GetOr(default: T): T {
      match this
      case Some(v) => v
      case None => default
    }
  }

  /** A table row: its AUTO_INCREMENT primary key and its other columns. */
  datatype Row<T> = Row(id: nat, val: T)

  /** The primary-key invariant the database keeps: ids strictly increase in
      storage order and all lie below the next AUTO_INCREMENT value. */
  ghost predicate WellFormed<T>(rows: seq<Row<T>>, next: nat) {
    && (forall i, j :: 0 <= i < j < |rows| ==> rows[i].id < rows[j].id)
    && (forall i :: 0 <= i < |rows| ==> rows[i].id < next)
  }

  /** No two rows agree on `key`: the uniqueness a table would get from a
      UNIQUE index over the key's columns. */
  ghost predicate UniqueKey<T, K>(rows: seq<Row<T>>, key: T -> K) {
    forall i, j :: 0 <= i < j < |rows| ==> key(rows[i].val) != key(rows[j].val)
  }

  /** The condition `WHERE id = k`. */
  function HasId<T>(k: nat): Row<T> -> bool {
    (r: Row<T>) => r.id == k
  }

  /** The condition `WHERE <key columns> = k`. */
  function KeyIs<T, K(==)>(key: T -> K, k: K): Row<T> -> bool {
    (r: Row<T>) => key(r.val) == k
  }

  /** `SELECT * ... WHERE p`: the matching rows, in storage order. */
  function Select<T>(rows: seq<Row<T>>, p: Row<T> -> bool): (r: seq<Row<T>>)
    ensures |r| <= |rows|
    ensures forall i :: 0 <= i < |r| ==> r[i] in rows && p(r[i])
    ensures forall i :: 0 <= i < |rows| && p(rows[i]) ==> rows[i] in r
  {
    if rows == [] then []
    else if p(rows[0]) then [rows[0]] + Select(rows[1..], p)
    else Select(rows[1..], p)
  }

  /** The number of rows `WHERE p` matches; this is the `affectedRows` of an
      UPDATE or DELETE with that condition. */
  function Count<T>(rows: seq<Row<T>>, p: Row<T> -> bool): (n: nat)
    ensures n <= |rows|
    ensures n == 0 <==> forall i :: 0 <= i < |rows| ==> !p(rows[i])
  {
    var s := Select(rows, p);
    assert |s| > 0 ==> s[0] in s;
    |s|
  }

  /** The position of the first row `WHERE p` matches: the row a handler
      reads as element 0 of its SELECT result. */
  function First<T>(rows: seq<Row<T>>, p: Row<T> -> bool): (r: Option<nat>)
    ensures r.Some? ==> r.value < |rows| && p(rows[r.value])
    ensures r.Some? ==> forall i :: 0 <= i < r.value ==> !p(rows[i])
    ensures r.None? <==> forall i :: 0 <= i < |rows| ==> !p(rows[i])
  {
    if rows == [] then None
    else if p(rows[0]) then Some(0)
    else match First(rows[1..], p)
      case None => None
      case Some(k) => Some(k + 1)
  }

  /** The first row a SELECT returns is the row `First` finds. */
  lemma {:induction false} SelectHeadIsFirst<T>(rows: seq<Row<T>>, p: Row<T> -> bool)
    requires Select(rows, p) != []
    ensures First(rows, p).Some? && Select(rows, p)[0] == rows[First(rows, p).value]
  {
    if !p(rows[0]) {
      SelectHeadIsFirst(rows[1..], p);
    }
  }

  /** `UPDATE ... SET f WHERE p`: every matching row gets its columns
      rewritten by `f`; ids, order and the other rows stay as they were. */
  function Update<T>(rows: seq<Row<T>>, p: Row<T> -> bool, f: T -> T): (r: seq<Row<T>>)
    ensures |r| == |rows|
    ensures forall i :: 0 <= i < |rows| ==> r[i].id == rows[i].id
    ensures forall i :: 0 <= i < |rows| && !p(rows[i]) ==> r[i] == rows[i]
    ensures forall i :: 0 <= i < |rows| && p(rows[i]) ==> r[i].val == f(rows[i].val)
  {
    if rows == [] then []
    else
      var head := if p(rows[0]) then Row(rows[0].id, f(rows[0].val)) else rows[0];
      [head] + Update(rows[1..], p, f)
  }

  /** `DELETE FROM ... WHERE p`: the rows that do not match, in order; as
      many rows go as the condition matches. */
  function Delete<T>(rows: seq<Row<T>>, p: Row<T> -> bool): (r: seq<Row<T>>)
    ensures forall i :: 0 <= i < |r| ==> r[i] in rows && !p(r[i])
    ensures forall i :: 0 <= i < |rows| && !p(rows[i]) ==> rows[i] in r
    ensures |r| + Count(rows, p) == |rows|
  {
    if rows == [] then []
    else if p(rows[0]) then Delete(rows[1..], p)
    else [rows[0]] + Delete(rows[1..], p)
  }

  /** An INSERT adds one to the count of every condition the new row meets. */
  lemma {:induction false} CountAppend<T>(rows: seq<Row<T>>, x: Row<T>, p: Row<T> -> bool)
    ensures Count(rows + [x], p) == Count(rows, p) + (if p(x) then 1 else 0)
  {
    if rows == [] {
      assert [x][1..] == [];
    } else {
      assert (rows + [x])[1..] == rows[1..] + [x];
      CountAppend(rows[1..], x, p);
    }
  }

  /** Two tables of the same length whose rows meet `p` and `q` at the same
      positions have the same count. */
  lemma {:induction false} CountPointwise<T>(rs: seq<Row<T>>, p: Row<T> -> bool, ss: seq<Row<T>>, q: Row<T> -> bool)
    requires |rs| == |ss|
    requires forall i :: 0 <= i < |rs| ==> (p(rs[i]) <==> q(ss[i]))
    ensures Count(rs, p) == Count(ss, q)
  {
    if rs != [] {
      CountPointwise(rs[1..], p, ss[1..], q);
    }
  }

  /** An UPDATE that keeps the key columns keeps the number of rows with a key. */
  lemma CountUpdateSameKey<T, K>(rows: seq<Row<T>>, key: T -> K, k: K, p: Row<T> -> bool, f: T -> T)
    requires forall v :: key(f(v)) == key(v)
    ensures Count(Update(rows, p, f), KeyIs(key, k)) == Count(rows, KeyIs(key, k))
  {
    CountPointwise(Update(rows, p, f), KeyIs(key, k), rows, KeyIs(key, k));
  }

  /** An UPDATE leaves every id where it was, so it matches the same rows by id. */
  lemma CountUpdateSameId<T>(rows: seq<Row<T>>, k: nat, p: Row<T> -> bool, f: T -> T)
    ensures Count(Update(rows, p, f), HasId(k)) == Count(rows, HasId(k))
  {
    CountPointwise(Update(rows, p, f), HasId(k), rows, HasId(k));
  }

  /** Under the primary-key invariant at most one row has a given id. */
  lemma {:induction false} CountIdAtMostOne<T>(rows: seq<Row<T>>, next: nat, k: nat)
    requires WellFormed(rows, next)
    ensures Count(rows, HasId(k)) <= 1
  {
    if rows != [] {
      var p: Row<T> -> bool := HasId(k);
      var tail := rows[1..];
      assert WellFormed(tail, next) by {
        forall i, j | 0 <= i < j < |tail| ensures tail[i].id < tail[j].id {
          assert tail[i] == rows[i + 1] && tail[j] == rows[j + 1];
        }
      }
      CountIdAtMostOne(tail, next, k);
      if p(rows[0]) {
        forall i | 0 <= i < |tail| ensures !p(tail[i]) {
          assert tail[i] == rows[i + 1];
        }
      }
    }
  }

  /** Under the primary-key invariant two rows with the same id are the same row. */
  lemma IdsDistinct<T>(rows: seq<Row<T>>, next: nat, i: nat, j: nat)
    requires WellFormed(rows, next)
    requires i < |rows| && j < |rows| && rows[i].id == rows[j].id
    ensures i == j
  {
  }

  /** A condition that, position by position, holds exactly where a
      well-formed table has id `k`, and some row has that id, matches once. */
  lemma CountWhereIdOnce<T>(rows: seq<Row<T>>, next: nat, k: nat, i0: nat, ss: seq<Row<T>>, q: Row<T> -> bool)
    requires WellFormed(rows, next)
    requires i0 < |rows| && rows[i0].id == k
    requires |ss| == |rows|
    requires forall i :: 0 <= i < |rows| ==> (q(ss[i]) <==> rows[i].id == k)
    ensures Count(ss, q) == 1
  {
    var p: Row<T> -> bool := HasId(k);
    CountPointwise(ss, q, rows, p);
    CountIdAtMostOne(rows, next, k);
    assert p(rows[i0]);
  }

  /** Under a unique key at most one row has a given key value. */
  lemma {:induction false} CountKeyAtMostOne<T, K>(rows: seq<Row<T>>, key: T -> K, k: K)
    requires UniqueKey(rows, key)
    ensures Count(rows, KeyIs(key, k)) <= 1
  {
    if rows != [] {
      var p := KeyIs(key, k);
      var tail := rows[1..];
      assert UniqueKey(tail, key) by {
        forall i, j | 0 <= i < j < |tail| ensures key(tail[i].val) != key(tail[j].val) {
          assert tail[i] == rows[i + 1] && tail[j] == rows[j + 1];
        }
      }
      CountKeyAtMostOne(tail, key, k);
      if p(rows[0]) {
        forall i | 0 <= i < |tail| ensures !p(tail[i]) {
          assert tail[i] == rows[i + 1];
        }
      }
    }
  }

  /** Dropping the first row keeps the primary-key invariant. */
  lemma TailWellFormed<T>(rows: seq<Row<T>>, next: nat)
    requires rows != [] && WellFormed(rows, next)
    ensures WellFormed(rows[1..], next)
    ensures forall j :: 0 <= j < |rows| - 1 ==> rows[0].id < rows[1..][j].id
  {
    var tail := rows[1..];
    forall i, j | 0 <= i < j < |tail| ensures tail[i].id < tail[j].id {
      assert tail[i] == rows[i + 1] && tail[j] == rows[j + 1];
    }
    forall j | 0 <= j < |tail| ensures rows[0].id < tail[j].id {
      assert tail[j] == rows[j + 1];
    }
  }

  /** A row whose id lies below every id of a well-formed table can go in front of it. */
  lemma ConsWellFormed<T>(x: Row<T>, d: seq<Row<T>>, next: nat)
    requires WellFormed(d, next) && x.id < next
    requires forall j :: 0 <= j < |d| ==> x.id < d[j].id
    ensures WellFormed([x] + d, next)
  {
    var r := [x] + d;
    forall i, j | 0 <= i < j < |r| ensures r[i].id < r[j].id {
      assert r[j] == d[j - 1];
      if i > 0 { assert r[i] == d[i - 1]; }
    }
    forall i | 0 <= i < |r| ensures r[i].id < next {
      if i > 0 { assert r[i] == d[i - 1]; }
    }
  }

  /** A DELETE keeps the primary-key invariant. */
  lemma {:induction false} DeleteWellFormed<T>(rows: seq<Row<T>>, next: nat, p: Row<T> -> bool)
    requires WellFormed(rows, next)
    ensures WellFormed(Delete(rows, p), next)
  {
    if rows != [] {
      var tail := rows[1..];
      TailWellFormed(rows, next);
      DeleteWellFormed(tail, next, p);
      if !p(rows[0]) {
        var d := Delete(tail, p);
        forall j | 0 <= j < |d| ensures rows[0].id < d[j].id {
          var m :| 0 <= m < |tail| && tail[m] == d[j];
        }
        ConsWellFormed(rows[0], d, next);
      }
    }
  }

  /** Dropping the first row keeps a key unique. */
  lemma TailUnique<T, K>(rows: seq<Row<T>>, key: T -> K)
    requires rows != [] && UniqueKey(rows, key)
    ensures UniqueKey(rows[1..], key)
    ensures forall j :: 0 <= j < |rows| - 1 ==> key(rows[0].val) != key(rows[1..][j].val)
  {
    var tail := rows[1..];
    forall i, j | 0 <= i < j < |tail| ensures key(tail[i].val) != key(tail[j].val) {
      assert tail[i] == rows[i + 1] && tail[j] == rows[j + 1];
    }
    forall j | 0 <= j < |tail| ensures key(rows[0].val) != key(tail[j].val) {
      assert tail[j] == rows[j + 1];
    }
  }

  /** A row whose key no row of a keyed table has can go in front of it. */
  lemma ConsUnique<T, K>(x: Row<T>, d: seq<Row<T>>, key: T -> K)
    requires UniqueKey(d, key)
    requires forall j :: 0 <= j < |d| ==> key(x.val) != key(d[j].val)
    ensures UniqueKey([x] + d, key)
  {
    var r := [x] + d;
    forall i, j | 0 <= i < j < |r| ensures key(r[i].val) != key(r[j].val) {
      assert r[j] == d[j - 1];
      if i > 0 { assert r[i] == d[i - 1]; }
    }
  }

  /** A DELETE keeps a unique key unique. */
  lemma {:induction false} DeleteKeepsUnique<T, K>(rows: seq<Row<T>>, key: T -> K, p: Row<T> -> bool)
    requires UniqueKey(rows, key)
    ensures UniqueKey(Delete(rows, p), key)
  {
    if rows != [] {
      var tail := rows[1..];
      TailUnique(rows, key);
      DeleteKeepsUnique(tail, key, p);
      if !p(rows[0]) {
        var d := Delete(tail, p);
        forall j | 0 <= j < |d| ensures key(rows[0].val) != key(d[j].val) {
          var m :| 0 <= m < |tail| && tail[m] == d[j];
        }
        ConsUnique(rows[0], d, key);
      }
    }
  }

  /** Two conditions that match the same rows make the same UPDATE. */
  lemma UpdateSameMatches<T>(rows: seq<Row<T>>, p: Row<T> -> bool, q: Row<T> -> bool, f: T -> T)
    requires forall i :: 0 <= i < |rows| ==> (p(rows[i]) <==> q(rows[i]))
    ensures Update(rows, p, f) == Update(rows, q, f)
  {
    var a := Update(rows, p, f);
    var b := Update(rows, q, f);
    forall i | 0 <= i < |rows| ensures a[i] == b[i] {
      if p(rows[i]) {
        assert a[i].val == b[i].val;
      }
    }
  }

  /** An UPDATE that keeps the key columns keeps a unique key unique. */
  lemma UpdateKeepsUnique<T, K>(rows: seq<Row<T>>, key: T -> K, p: Row<T> -> bool, f: T -> T)
    requires forall v :: key(f(v)) == key(v)
    requires UniqueKey(rows, key)
    ensures UniqueKey(Update(rows, p, f), key)
  {
    var r := Update(rows, p, f);
    forall i | 0 <= i < |rows| ensures key(r[i].val) == key(rows[i].val) {
      if p(rows[i]) {
        assert key(f(rows[i].val)) == key(rows[i].val);
      }
    }
  }

  /** A DELETE whose condition matches no row leaves the table as it was. */
  lemma {:induction false} DeleteNoneUnchanged<T>(rows: seq<Row<T>>, p: Row<T> -> bool)
    requires Count(rows, p) == 0
    ensures Delete(rows, p) == rows
  {
    if rows != [] {
      assert !p(rows[0]);
      assert forall i :: 0 <= i < |rows[1..]| ==> rows[1..][i] == rows[i + 1];
      DeleteNoneUnchanged(rows[1..], p);
      assert [rows[0]] + rows[1..] == rows;
    }
  }

  /** Appending a row whose key no row has adds one row with that key and
      keeps a unique key unique. */
  lemma AppendNewKey<T, K>(rows: seq<Row<T>>, key: T -> K, x: Row<T>)
    requires Count(rows, KeyIs(key, key(x.val))) == 0
    ensures Count(rows + [x], KeyIs(key, key(x.val))) == 1
    ensures UniqueKey(rows, key) ==> UniqueKey(rows + [x], key)
  {
    var p := KeyIs(key, key(x.val));
    CountAppend(rows, x, p);
    var after := rows + [x];
    forall i, j | 0 <= i < j < |after| && UniqueKey(rows, key) ensures key(after[i].val) != key(after[j].val) {
      assert after[i] == rows[i];
      if j == |rows| {
        assert !p(rows[i]);
      } else {
        assert after[j] == rows[j];
      }
    }
  }

  /** The statement pair an "update or insert" handler sends: `UPDATE ... SET
      f WHERE <key> = k` when a SELECT on the key found a row, otherwise an
      INSERT of `x`. */
  function Upsert<T, K(==)>(rows: seq<Row<T>>, key: T -> K, k: K, f: T -> T, x: Row<T>): (r: seq<Row<T>>) {
    if Count(rows, KeyIs(key, k)) > 0 then Update(rows, KeyIs(key, k), f) else rows + [x]
  }

  /** An upsert that keeps the key columns and inserts a row with key `k`
      leaves at least one row with key `k`, adds none when one was there, and
      makes every row with key `k` meet any property `f` and `x` establish;
      a unique key stays unique and then holds exactly one row with key `k`. */
  lemma UpsertKeyed<T, K>(rows: seq<Row<T>>, key: T -> K, k: K, f: T -> T, x: Row<T>, P: T -> bool)
    requires forall v :: key(f(v)) == key(v)
    requires key(x.val) == k
    requires forall v :: P(f(v))
    requires P(x.val)
    ensures var after := Upsert(rows, key, k, f, x);
      Count(after, KeyIs(key, k)) == (if Count(rows, KeyIs(key, k)) > 0 then Count(rows, KeyIs(key, k)) else 1)
    ensures var after := Upsert(rows, key, k, f, x);
      forall i :: 0 <= i < |after| && key(after[i].val) == k ==> P(after[i].val)
    ensures UniqueKey(rows, key) ==>
      UniqueKey(Upsert(rows, key, k, f, x), key) && Count(Upsert(rows, key, k, f, x), KeyIs(key, k)) == 1
  {
    var p := KeyIs(key, k);
    var after := Upsert(rows, key, k, f, x);
    if Count(rows, p) > 0 {
      CountUpdateSameKey(rows, key, k, p, f);
      forall i | 0 <= i < |after| && key(after[i].val) == k ensures P(after[i].val) {
        if p(rows[i]) {
          assert after[i].val == f(rows[i].val);
        }
      }
      if UniqueKey(rows, key) {
        UpdateKeepsUnique(rows, key, p, f);
      }
    } else {
      CountAppend(rows, x, p);
      forall i | 0 <= i < |rows| ensures key(after[i].val) != k {
        assert after[i] == rows[i];
        assert !p(rows[i]);
      }
      forall i, j | 0 <= i < j < |after| && UniqueKey(rows, key) ensures key(after[i].val) != key(after[j].val) {
        if j == |rows| {
          assert !p(rows[i]);
        } else {
          assert after[i] == rows[i] && after[j] == rows[j];
        }
      }
    }
    if UniqueKey(after, key) {
      CountKeyAtMostOne(after, key, k);
    }
  }

  /** Two INSERTs of rows with the same key, into any table, leave two more
      rows with that key, so no unique key survives them. */
  lemma InsertTwiceDuplicates<T, K>(rows: seq<Row<T>>, key: T -> K, a: Row<T>, b: Row<T>)
    requires key(a.val) == key(b.val)
    ensures Count(rows + [a] + [b], KeyIs(key, key(a.val))) == Count(rows, KeyIs(key, key(a.val))) + 2
    ensures !UniqueKey(rows + [a] + [b], key)
  {
    var p := KeyIs(key, key(a.val));
    CountAppend(rows, a, p);
    CountAppend(rows + [a], b, p);
    var r := rows + [a] + [b];
    assert r[|rows|] == a && r[|rows| + 1] == b;
  }
}
