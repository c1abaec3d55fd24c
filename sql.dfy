/** The relational statements the two apps issue, over a table held as a
    sequence of rows. A table is a bag: order matters only where a statement
    says so (`ORDER BY ... LIMIT 1`), and the contracts below speak of
    positions only to say that a statement rewrites each row in place. */
module Sql {

  /** A NULL-able column value, and the result of a `LIMIT 1` query. */
  datatype Option<T> = None | Some(value: T)

  /** `UPDATE rows SET change WHERE where`: every row satisfying `where` is
      rewritten by `change`, every other row stays, and no row is added or
      removed. */
  function UpdateWhere<T>(rows: seq<T>, where: T -> bool, change: T -> T): (r: seq<T>)
    ensures |r| == |rows|
    ensures forall i :: 0 <= i < |rows| ==> r[i] == (if where(rows[i]) then change(rows[i]) else rows[i])
    decreases |rows|
  {
    if |rows| == 0 then []
    else [if where(rows[0]) then change(rows[0]) else rows[0]] + UpdateWhere(rows[1..], where, change)
  }

  /** `DELETE FROM rows WHERE where`: each row value keeps its multiplicity
      unless it satisfies `where`, in which case none of it is left. */
  function DeleteWhere<T(==,!new)>(rows: seq<T>, where: T -> bool): (r: seq<T>)
    ensures forall x :: multiset(r)[x] == if where(x) then 0 else multiset(rows)[x]
    ensures forall x :: x in r <==> x in rows && !where(x)
    ensures |r| <= |rows|
    decreases |rows|
  {
    if |rows| == 0 then []
    else
      assert rows == [rows[0]] + rows[1..];
      (if where(rows[0]) then [] else [rows[0]]) + DeleteWhere(rows[1..], where)
  }

  /** `SELECT COUNT(*) FROM rows WHERE where`. */
  function CountWhere<T>(rows: seq<T>, where: T -> bool): (n: nat)
    ensures n <= |rows|
    ensures n == 0 <==> forall i :: 0 <= i < |rows| ==> !where(rows[i])
    decreases |rows|
  {
    if |rows| == 0 then 0
    else (if where(rows[0]) then 1 else 0) + CountWhere(rows[1..], where)
  }

  /** `SELECT ... FROM rows WHERE where ORDER BY key LIMIT 1`, as the position
      of the row chosen: a row satisfying `where` whose key is least among
      all such rows, or None exactly when no row satisfies `where`. Rows
      tied on the key are taken in table order. */
  function LeastWhere<T>(rows: seq<T>, where: T -> bool, key: T -> int): (k: Option<nat>)
    ensures k.Some? ==> k.value < |rows| && where(rows[k.value])
    ensures k.Some? ==> forall i :: 0 <= i < |rows| && where(rows[i]) ==> key(rows[k.value]) <= key(rows[i])
    ensures k.None? <==> forall i :: 0 <= i < |rows| ==> !where(rows[i])
    decreases |rows|
  {
    if |rows| == 0 then None
    else
      var rest := LeastWhere(rows[1..], where, key);
      if !where(rows[0]) then
        (if rest.Some? then Some(rest.value + 1) else None)
      else if rest.Some? && key(rows[rest.value + 1]) < key(rows[0]) then
        Some(rest.value + 1)
      else
        Some(0)
  }

  /** Two conditions that agree on every row of the table select the same
      row: `LIMIT 1` depends only on which rows match, not on how the
      condition is written. */
  lemma {:induction false} LeastWhereAgrees<T>(rows: seq<T>, w1: T -> bool, w2: T -> bool, key: T -> int)
    requires forall i :: 0 <= i < |rows| ==> w1(rows[i]) == w2(rows[i])
    ensures LeastWhere(rows, w1, key) == LeastWhere(rows, w2, key)
    decreases |rows|
  {
    if |rows| > 0 {
      forall i | 0 <= i < |rows[1..]| ensures w1(rows[1..][i]) == w2(rows[1..][i]) {
        assert rows[1..][i] == rows[i + 1];
      }
      LeastWhereAgrees(rows[1..], w1, w2, key);
    }
  }

  /** Appending one row raises a count by one exactly when that row matches. */
  lemma {:induction false} CountAppend<T>(rows: seq<T>, x: T, where: T -> bool)
    ensures CountWhere(rows + [x], where) == CountWhere(rows, where) + (if where(x) then 1 else 0)
    decreases |rows|
  {
    if |rows| == 0 {
      assert rows + [x] == [x];
    } else {
      assert (rows + [x])[1..] == rows[1..] + [x];
      CountAppend(rows[1..], x, where);
    }
  }

  /** A DELETE removes exactly the rows a COUNT with the same condition counts. */
  lemma {:induction false} DeleteCount<T(!new)>(rows: seq<T>, where: T -> bool)
    ensures |DeleteWhere(rows, where)| + CountWhere(rows, where) == |rows|
    decreases |rows|
  {
    if |rows| > 0 {
      DeleteCount(rows[1..], where);
    }
  }

  /** Deleting from two tables concatenated is deleting from each. */
  lemma {:induction false} DeleteConcat<T(!new)>(a: seq<T>, b: seq<T>, where: T -> bool)
    ensures DeleteWhere(a + b, where) == DeleteWhere(a, where) + DeleteWhere(b, where)
    decreases |a|
  {
    if |a| == 0 {
      assert a + b == b;
    } else {
      assert (a + b)[1..] == a[1..] + b;
      DeleteConcat(a[1..], b, where);
    }
  }

  /** Running a DELETE a second time removes nothing more. */
  lemma {:induction false} DeleteIdempotent<T(!new)>(rows: seq<T>, where: T -> bool)
    ensures DeleteWhere(DeleteWhere(rows, where), where) == DeleteWhere(rows, where)
    decreases |rows|
  {
    if |rows| > 0 {
      var head := if where(rows[0]) then [] else [rows[0]];
      var tail := DeleteWhere(rows[1..], where);
      assert DeleteWhere(rows, where) == head + tail;
      DeleteConcat(head, tail, where);
      DeleteIdempotent(rows[1..], where);
      assert DeleteWhere(head, where) == head by {
        if head != [] {
          assert head[1..] == [];
        }
      }
    }
  }

  /** Running an UPDATE a second time changes nothing more, when the rows it
      rewrites no longer match its condition. */
  lemma UpdateIdempotent<T>(rows: seq<T>, where: T -> bool, change: T -> T)
    requires forall x :: where(x) ==> !where(change(x))
    ensures UpdateWhere(UpdateWhere(rows, where, change), where, change) == UpdateWhere(rows, where, change)
  {
    var once := UpdateWhere(rows, where, change);
    var twice := UpdateWhere(once, where, change);
    assert |twice| == |once|;
    forall i | 0 <= i < |once| ensures twice[i] == once[i] {
      if where(rows[i]) {
        assert !where(once[i]);
      }
    }
  }

  /** An UPDATE confined to rows that a later DELETE removes, and that it does
      not bring back from the DELETE, is invisible afterwards. */
  lemma {:induction false} DeleteAfterUpdate<T(!new)>(rows: seq<T>, where: T -> bool, change: T -> T, del: T -> bool)
    requires forall x :: where(x) ==> del(x) && del(change(x))
    ensures DeleteWhere(UpdateWhere(rows, where, change), del) == DeleteWhere(rows, del)
    decreases |rows|
  {
    if |rows| > 0 {
      var updated := UpdateWhere(rows, where, change);
      assert updated[1..] == UpdateWhere(rows[1..], where, change);
      DeleteAfterUpdate(rows[1..], where, change, del);
    }
  }
}
