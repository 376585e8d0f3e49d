/**
 * The `users` table and the queries the export pipeline runs against it:
 * the live-row selection of a full export, the incremental and delta change
 * windows, the MAX(updated_at) aggregate that yields a candidate watermark,
 * and the soft-delete UPDATE.
 *
 * Timestamps are integers (one fixed precision). A watermark is nullable,
 * because SQL MAX over no rows is NULL and that NULL is stored as is.
 */
module Rows {

  /** A nullable SQL value. */
  datatype Option<T> = None | Some(value: T)

  /** One row of the `users` table. */
  datatype Row = Row(
    id: int,
    name: string,
    email: string,
    createdAt: int,
    updatedAt: int,
    isDeleted: bool)

  /** SQL `updated_at > mark`: a comparison with NULL is never true. */
  predicate IsNewer(row: Row, mark: Option<int>)
  {
    mark.Some? && row.updatedAt > mark.value
  }

  /**
   * The rows of `rows` that satisfy `keep`, in table order (SelectCounts:
   * every row is kept exactly as often as it occurs, or dropped).
   */
  function Select(rows: seq<Row>, keep: Row -> bool): (r: seq<Row>)
    ensures |r| <= |rows|
    ensures forall x :: x in r <==> x in rows && keep(x)
  {
    if rows == [] then []
    else
      var tail := Select(rows[1..], keep);
      assert forall x :: x in rows <==> x == rows[0] || x in rows[1..];
      if keep(rows[0]) then [rows[0]] + tail else tail
  }

  /** `SELECT * FROM users WHERE is_deleted = false`. */
  function LiveRows(rows: seq<Row>): (r: seq<Row>)
    ensures forall x :: x in r <==> x in rows && !x.isDeleted
  {
    Select(rows, (x: Row) => !x.isDeleted)
  }

  /** `SELECT * FROM users WHERE updated_at > mark AND is_deleted = false`. */
  function IncrementalWindow(rows: seq<Row>, mark: Option<int>): (r: seq<Row>)
    ensures forall x :: x in r <==> x in rows && !x.isDeleted && IsNewer(x, mark)
  {
    Select(rows, (x: Row) => !x.isDeleted && IsNewer(x, mark))
  }

  /** `SELECT * FROM users WHERE updated_at > mark`: deleted rows included. */
  function DeltaWindow(rows: seq<Row>, mark: Option<int>): (r: seq<Row>)
    ensures forall x :: x in r <==> x in rows && IsNewer(x, mark)
  {
    Select(rows, (x: Row) => IsNewer(x, mark))
  }

  /** `SELECT MAX(updated_at)` over `rows`: NULL exactly when there are none. */
  function MaxUpdatedAt(rows: seq<Row>): (m: Option<int>)
    ensures m.None? <==> rows == []
    ensures m.Some? ==> forall x :: x in rows ==> x.updatedAt <= m.value
    ensures m.Some? ==> exists x :: x in rows && x.updatedAt == m.value
  {
    if rows == [] then None
    else
      match MaxUpdatedAt(rows[1..])
      case None => Some(rows[0].updatedAt)
      case Some(t) => Some(if rows[0].updatedAt >= t then rows[0].updatedAt else t)
  }

  /**
   * `UPDATE users SET is_deleted = TRUE, updated_at = now WHERE id = id`:
   * every row with that id is marked deleted and stamped with `now` (also one
   * that was already deleted); all other rows and fields are untouched.
   */
  function SoftDeleted(rows: seq<Row>, id: int, now: int): (r: seq<Row>)
    ensures |r| == |rows|
    ensures forall i :: 0 <= i < |rows| && rows[i].id == id ==>
      r[i] == rows[i].(isDeleted := true, updatedAt := now)
    ensures forall i :: 0 <= i < |rows| && rows[i].id != id ==> r[i] == rows[i]
  {
    if rows == [] then []
    else
      var head := if rows[0].id == id then rows[0].(isDeleted := true, updatedAt := now) else rows[0];
      [head] + SoftDeleted(rows[1..], id, now)
  }

  // ---------------------------------------------------------------------
  // Properties of the windows
  // ---------------------------------------------------------------------

  /** A selection keeps each satisfying row as often as the table holds it. */
  lemma {:induction false} SelectCounts(rows: seq<Row>, keep: Row -> bool)
    ensures forall x :: multiset(Select(rows, keep))[x] == if keep(x) then multiset(rows)[x] else 0
  {
    if rows != [] {
      SelectCounts(rows[1..], keep);
      assert rows == [rows[0]] + rows[1..];
    }
  }

  /** A full export selects every live row exactly once per occurrence, and nothing else. */
  lemma LiveRowsExact(rows: seq<Row>)
    ensures forall x :: multiset(LiveRows(rows))[x] == if x.isDeleted then 0 else multiset(rows)[x]
  {
    SelectCounts(rows, (x: Row) => !x.isDeleted);
  }

  /** The incremental window is exactly the live rows updated after the watermark. */
  lemma IncrementalWindowExact(rows: seq<Row>, mark: Option<int>)
    ensures forall x ::
      multiset(IncrementalWindow(rows, mark))[x] == if !x.isDeleted && IsNewer(x, mark) then multiset(rows)[x] else 0
  {
    SelectCounts(rows, (x: Row) => !x.isDeleted && IsNewer(x, mark));
  }

  /** The delta window is exactly the rows, deleted or not, updated after the watermark. */
  lemma DeltaWindowExact(rows: seq<Row>, mark: Option<int>)
    ensures forall x ::
      multiset(DeltaWindow(rows, mark))[x] == if IsNewer(x, mark) then multiset(rows)[x] else 0
  {
    SelectCounts(rows, (x: Row) => IsNewer(x, mark));
  }

  /** The incremental window is the live part of the delta window. */
  lemma {:induction false} IncrementalIsLiveDelta(rows: seq<Row>, mark: Option<int>)
    ensures IncrementalWindow(rows, mark) == LiveRows(DeltaWindow(rows, mark))
  {
    if rows != [] {
      IncrementalIsLiveDelta(rows[1..], mark);
    }
  }

  /**
   * A NULL watermark matches no row: after a full export of a table with no
   * live rows, incremental and delta exports find nothing, whatever is added.
   */
  lemma {:induction false} NullMarkSeesNothing(rows: seq<Row>)
    ensures DeltaWindow(rows, None) == []
    ensures IncrementalWindow(rows, None) == []
  {
    if rows != [] {
      NullMarkSeesNothing(rows[1..]);
    }
  }

  /** A non-empty incremental window implies a non-empty delta window. */
  lemma IncrementalInsideDelta(rows: seq<Row>, mark: Option<int>)
    requires IncrementalWindow(rows, mark) != []
    ensures DeltaWindow(rows, mark) != []
  {
    var x := IncrementalWindow(rows, mark)[0];
    assert x in IncrementalWindow(rows, mark);
    assert x in DeltaWindow(rows, mark);
  }

  /**
   * The candidate watermark of a non-empty window exists and lies strictly
   * above the watermark that opened the window.
   */
  lemma CandidateAdvances(rows: seq<Row>, mark: Option<int>)
    requires DeltaWindow(rows, mark) != []
    ensures mark.Some?
    ensures MaxUpdatedAt(DeltaWindow(rows, mark)).Some?
    ensures MaxUpdatedAt(DeltaWindow(rows, mark)).value > mark.value
  {
    var w := DeltaWindow(rows, mark);
    assert w[0] in w;
    var x :| x in w && x.updatedAt == MaxUpdatedAt(w).value;
  }

  /** A selection every row fails is empty. */
  lemma {:induction false} SelectNone(rows: seq<Row>, keep: Row -> bool)
    requires forall x :: x in rows ==> !keep(x)
    ensures Select(rows, keep) == []
  {
    if rows != [] {
      assert rows[0] in rows;
      SelectNone(rows[1..], keep);
    }
  }

  /**
   * Advancing the watermark to the candidate of a window covers every row:
   * both windows opened at the new watermark are empty until rows change.
   */
  lemma CaughtUp(rows: seq<Row>, mark: Option<int>)
    requires DeltaWindow(rows, mark) != []
    ensures DeltaWindow(rows, MaxUpdatedAt(DeltaWindow(rows, mark))) == []
    ensures IncrementalWindow(rows, MaxUpdatedAt(DeltaWindow(rows, mark))) == []
  {
    CandidateAdvances(rows, mark);
    var next := MaxUpdatedAt(DeltaWindow(rows, mark));
    forall x | x in rows
      ensures !IsNewer(x, next)
    {
      if IsNewer(x, mark) {
        assert x in DeltaWindow(rows, mark);
      }
    }
    SelectNone(rows, (x: Row) => IsNewer(x, next));
    SelectNone(rows, (x: Row) => !x.isDeleted && IsNewer(x, next));
  }

  // ---------------------------------------------------------------------
  // Properties of soft delete
  // ---------------------------------------------------------------------

  /**
   * After a soft delete the live rows are the previously live rows with the
   * deleted id removed.
   */
  lemma SoftDeleteHidesRow(rows: seq<Row>, id: int, now: int)
    ensures forall x :: x in LiveRows(SoftDeleted(rows, id, now)) <==>
      x in LiveRows(rows) && x.id != id
  {
  }

  /**
   * A soft delete stamped after the watermark shows up in the next delta
   * window as the deleted row, and never in the incremental window.
   */
  lemma SoftDeleteEntersDeltaWindow(rows: seq<Row>, i: int, now: int, mark: Option<int>)
    requires 0 <= i < |rows|
    requires mark.Some? && now > mark.value
    ensures rows[i].(isDeleted := true, updatedAt := now) in DeltaWindow(SoftDeleted(rows, rows[i].id, now), mark)
    ensures rows[i].(isDeleted := true, updatedAt := now) !in IncrementalWindow(SoftDeleted(rows, rows[i].id, now), mark)
  {
  }
}
