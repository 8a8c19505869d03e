/** The database gateway the handlers call: one object per SQL table, whose
    methods are the four statement kinds the handlers send. Each call is one
    statement, run to completion before the next; a query yields its list of
    rows; `affectedRows` counts the rows the WHERE condition matched. */
module Database {
  import opened Rows

  class Table<T> {
    /** The rows, in storage order. */
    var rows: seq<Row<T>>
    /** The next AUTO_INCREMENT value. */
    var next: nat

    ghost predicate Valid()
      reads this
    {
      next > 0 && Rows.WellFormed(rows, next)
    }

    /** An empty table whose AUTO_INCREMENT starts at 1. */
    constructor ()
      ensures Valid() && rows == [] && next == 1
    {
      rows := [];
      next := 1;
    }

    /** `SELECT * FROM t WHERE p`. */
    method Select(p: Row<T> -> bool) returns (found: seq<Row<T>>)
      ensures found == Rows.Select(rows, p)
    {
      found := Rows.Select(rows, p);
    }

    /** `INSERT INTO t ... VALUES v`: appends one row under a fresh id and
        returns that id (`insertId`). */
    method Insert(v: T) returns (insertId: nat)
      requires Valid()
      modifies this
      ensures Valid()
      ensures insertId == old(next) && insertId > 0
      ensures rows == old(rows) + [Row(insertId, v)] && next == insertId + 1
    {
      insertId := next;
      rows := rows + [Row(insertId, v)];
      next := next + 1;
    }

    /** `UPDATE t SET f WHERE p`; returns `affectedRows`. */
    method Update(p: Row<T> -> bool, f: T -> T) returns (affectedRows: nat)
      requires Valid()
      modifies this
      ensures Valid()
      ensures rows == Rows.Update(old(rows), p, f) && next == old(next)
      ensures affectedRows == Rows.Count(old(rows), p)
    {
      affectedRows := Rows.Count(rows, p);
      rows := Rows.Update(rows, p, f);
    }

    /** `DELETE FROM t WHERE p`; returns `affectedRows`. */
    method Delete(p: Row<T> -> bool) returns (affectedRows: nat)
      requires Valid()
      modifies this
      ensures Valid()
      ensures rows == Rows.Delete(old(rows), p) && next == old(next)
      ensures affectedRows == Rows.Count(old(rows), p)
      ensures |rows| == |old(rows)| - affectedRows
    {
      Rows.DeleteWellFormed(rows, next, p);
      affectedRows := Rows.Count(rows, p);
      rows := Rows.Delete(rows, p);
    }
  }
}
