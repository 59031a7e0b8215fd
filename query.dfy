/**
 * The two GORM queries the handlers issue, over a table held as a sequence of
 * rows in primary-key order: `Where(...).Find(&rows)` keeps every row that
 * satisfies the condition, in table order, and `First(&row)` returns the first
 * such row or reports that there is none. Whether the database call itself
 * fails is decided outside the model and passed in as an `Outcome`.
 */
module Query {
  import opened Wrappers

  /** How a call into the storage layer went. */
  datatype Outcome = Ok | Err(reason: string)

  /** The three answers of a single-row query: a row, no row, or a storage error. */
  datatype Found<T> = Found(row: T) | Missing | Failed(reason: string)

  /** `Where(cond).Find(&rows)`: the rows satisfying `keep`, in table order. */
  function Where<T(!new)>(rows: seq<T>, keep: T -> bool): (r: seq<T>)
    ensures |r| <= |rows|
    ensures forall x :: x in r <==> x in rows && keep(x)
  {
    if rows == [] then []
    else (if keep(rows[0]) then [rows[0]] else []) + Where(rows[1..], keep)
  }

  /** Filtering a concatenation filters each part: the result keeps table order. */
  lemma {:induction false} WhereAppend<T(!new)>(a: seq<T>, b: seq<T>, keep: T -> bool)
    ensures Where(a + b, keep) == Where(a, keep) + Where(b, keep)
  {
    if a == [] {
      assert a + b == b;
    } else {
      assert (a + b)[1..] == a[1..] + b;
      WhereAppend(a[1..], b, keep);
    }
  }

  /** A row that satisfies the condition keeps its place: a single row filters to itself or to nothing. */
  lemma WhereSingle<T(!new)>(x: T, keep: T -> bool)
    ensures Where([x], keep) == if keep(x) then [x] else []
  {
    assert [x][1..] == [];
  }

  /** The position of the first row satisfying `keep`, if any. */
  function IndexWhere<T>(rows: seq<T>, keep: T -> bool): (r: Option<nat>)
    ensures r.Some? ==> r.value < |rows| && keep(rows[r.value])
    ensures r.Some? ==> forall j :: 0 <= j < r.value ==> !keep(rows[j])
    ensures r.None? <==> forall j :: 0 <= j < |rows| ==> !keep(rows[j])
  {
    if rows == [] then None
    else if keep(rows[0]) then Some(0)
    else match IndexWhere(rows[1..], keep)
      case None => None
      case Some(k) => Some(k + 1)
  }

  /** `Where(cond).First(&row)`: the first matching row in primary-key order. */
  function First<T(!new)>(rows: seq<T>, keep: T -> bool, outcome: Outcome): (r: Found<T>)
    ensures r.Failed? <==> outcome.Err?
    ensures r.Found? ==> r.row in rows && keep(r.row)
    ensures r.Found? ==> exists k :: 0 <= k < |rows| && rows[k] == r.row && forall j :: 0 <= j < k ==> !keep(rows[j])
    ensures r.Missing? <==> outcome.Ok? && forall x :: x in rows ==> !keep(x)
  {
    match outcome
    case Err(e) => Failed(e)
    case Ok =>
      match IndexWhere(rows, keep)
      case Some(k) => Found(rows[k])
      case None => Missing
  }

  /** When at most one row can satisfy the condition, `First` finds exactly that row. */
  lemma {:induction false} FirstOfUnique<T(!new)>(rows: seq<T>, keep: T -> bool, k: nat)
    requires k < |rows| && keep(rows[k])
    requires forall i, j :: 0 <= i < j < |rows| && keep(rows[i]) ==> !keep(rows[j])
    ensures First(rows, keep, Ok) == Found(rows[k])
  {
    var m := IndexWhere(rows, keep);
    assert m.Some? && m.value <= k;
  }
}
