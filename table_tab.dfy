/**
 * The tables of components/TableTab.tsx: one table per meal type, each
 * with a count and its rows newest first, or a single "No records yet." row.
 */
module TableTab {
  import opened Wrappers
  import opened Records
  import Db

  /** The comment cell: the comment, or the placeholder dash. */
  datatype CommentCell = CommentText(text: string) | Dash

  /** One `<tr>`: its key, time, level and comment cells. */
  datatype TableRow = TableRow(key: int, time: int, level: int, comment: CommentCell)

  /** The `<tbody>`: the single "No records yet." row, or one row per record. */
  datatype TableBody = NoRecordsRow | Rows(rows: seq<TableRow>)

  /** `RecordsTable`: its title, the number in "N records", and its body. */
  datatype RecordsTableView = RecordsTableView(title: string, count: nat, body: TableBody)

  /** `TableTab`: the two tables side by side. */
  datatype TableTabView = TableTabView(emptyStomach: RecordsTableView, afterMeal: RecordsTableView)

  /** `rows.slice().reverse()`, as a value. */
  function Reverse(s: seq<Row>): (r: seq<Row>)
    ensures |r| == |s|
    ensures forall i :: 0 <= i < |s| ==> r[i] == s[|s| - 1 - i]
  {
    if s == [] then [] else Reverse(s[1..]) + [s[0]]
  }

  /** Reversing twice gives back the original order. */
  lemma ReverseReverse(s: seq<Row>)
    ensures Reverse(Reverse(s)) == s
  {
  }

  /** `r.comment ? r.comment : —`. */
  function CommentCellFor(c: Option<string>): (cell: CommentCell)
    ensures cell.CommentText? <==> c.Some? && c.value != ""
    ensures cell.CommentText? ==> cell.text == c.value
  {
    if c.Some? && c.value != "" then CommentText(c.value) else Dash
  }

  /** A comment stored by the store shows as text exactly when there is one. */
  lemma StoredCommentCell(c: Option<string>)
    ensures CommentCellFor(Db.NormalizeComment(c)).Dash? <==> Db.NormalizeComment(c).None?
  {
  }

  /** The row drawn for one record. */
  function TableRowFor(r: Row): (row: TableRow)
    ensures row.key == r.id && row.time == r.createdAt && row.level == r.level
    ensures row.comment == Dash <==> r.comment.None? || r.comment.value == ""
    ensures row.comment.CommentText? ==> Some(row.comment.text) == r.comment
  {
    TableRow(r.id, r.createdAt, r.level, CommentCellFor(r.comment))
  }

  /** `.map(...)` over the rows. */
  function TableRows(rows: seq<Row>): (out: seq<TableRow>)
    ensures |out| == |rows|
    ensures forall i :: 0 <= i < |rows| ==> out[i] == TableRowFor(rows[i])
  {
    if rows == [] then [] else [TableRowFor(rows[0])] + TableRows(rows[1..])
  }

  /** `RecordsTable({ title, records })`. */
  function RecordsTable(title: string, records: seq<Row>): (v: RecordsTableView)
    ensures v.title == title && v.count == |records|
    ensures v.body.NoRecordsRow? <==> records == []
    ensures v.body.Rows? ==>
              |v.body.rows| == |records| &&
              forall i :: 0 <= i < |records| ==> v.body.rows[i] == TableRowFor(records[|records| - 1 - i])
  {
    if |records| == 0 then RecordsTableView(title, 0, NoRecordsRow)
    else RecordsTableView(title, |records|, Rows(TableRows(Reverse(records))))
  }

  /** `TableTab({ records })`. */
  function Render(records: seq<Row>): (v: TableTabView)
    ensures v.emptyStomach.title == "Empty stomach" && v.afterMeal.title == "After meal"
    ensures v.emptyStomach.count + v.afterMeal.count == |records|
    ensures v.emptyStomach == RecordsTable("Empty stomach", OfMeal(records, EmptyStomach))
    ensures v.afterMeal == RecordsTable("After meal", OfMeal(records, AfterMeal))
  {
    OfMealPartition(records);
    TableTabView(RecordsTable("Empty stomach", OfMeal(records, EmptyStomach)),
                 RecordsTable("After meal", OfMeal(records, AfterMeal)))
  }

  /** Given the store's listing, each table shows its rows newest first (to the second). */
  lemma NewestFirst(records: seq<Row>, m: MealType, i: int, j: int)
    requires Db.InListingOrder(records)
    requires RecordsTable("", OfMeal(records, m)).body.Rows?
    requires 0 <= i < j < |RecordsTable("", OfMeal(records, m)).body.rows|
    ensures RecordsTable("", OfMeal(records, m)).body.rows[i].time / 1000 >=
            RecordsTable("", OfMeal(records, m)).body.rows[j].time / 1000
  {
    var series := OfMeal(records, m);
    Db.ListingOrderSurvivesFilter(records, m);
    var n := |series|;
    assert Db.ListedBefore(series[n - 1 - j], series[n - 1 - i]);
  }

  /**
   * Halfway through reversing s in place: positions outside lo..hi already
   * hold their mirrored element, positions inside still hold their own.
   */
  ghost predicate ReversedOutside(t: seq<Row>, s: seq<Row>, lo: int, hi: int)
  {
    |t| == |s| &&
    forall k :: 0 <= k < |s| ==> t[k] == HalfReversedAt(s, lo, hi, k)
  }

  /** The element position k holds while only the ends outside lo..hi are reversed. */
  ghost function HalfReversedAt(s: seq<Row>, lo: int, hi: int, k: int): Row
    requires 0 <= k < |s|
  {
    if k < lo || hi < k then s[|s| - 1 - k] else s[k]
  }

  /** Swapping the two ends of the unreversed middle moves both bounds inward. */
  lemma SwapStep(t: seq<Row>, s: seq<Row>, lo: int, hi: int)
    requires 0 <= lo < hi == |s| - 1 - lo
    requires ReversedOutside(t, s, lo, hi)
    ensures ReversedOutside(t[lo := t[hi]][hi := t[lo]], s, lo + 1, hi - 1)
  {
    var u := t[lo := t[hi]][hi := t[lo]];
    assert t[lo] == s[lo] && t[hi] == s[hi];
    forall k | 0 <= k < |s| ensures u[k] == HalfReversedAt(s, lo + 1, hi - 1, k) {
      if k != lo && k != hi {
        assert u[k] == t[k] == HalfReversedAt(s, lo, hi, k);
      }
    }
  }

  /** A sequence holding s's elements at mirrored positions is s reversed. */
  lemma ReversedByIndex(s: seq<Row>, t: seq<Row>)
    requires |t| == |s|
    requires forall k :: 0 <= k < |s| ==> t[k] == s[|s| - 1 - k]
    ensures t == Reverse(s)
  {
  }

  /** Once the middle is empty or a single element, t is s reversed. */
  lemma ReversedWhenMet(t: seq<Row>, s: seq<Row>, lo: int, hi: int)
    requires 0 <= lo && hi == |s| - 1 - lo && hi <= lo
    requires ReversedOutside(t, s, lo, hi)
    ensures t == Reverse(s)
  {
    forall k | 0 <= k < |s| ensures t[k] == s[|s| - 1 - k] {
      assert t[k] == HalfReversedAt(s, lo, hi, k);
      if lo <= k <= hi { assert k == |s| - 1 - k; }
    }
    ReversedByIndex(s, t);
  }

  /**
   * `records.slice().reverse()` on a JavaScript array: copy it, then reverse
   * the copy in place.  The caller's array is not written.
   */
  method ReversedCopy(a: array<Row>) returns (b: array<Row>)
    ensures fresh(b)
    ensures b[..] == Reverse(a[..])
  {
    var s := a[..];
    b := new Row[|s|](k requires 0 <= k < |s| => s[k]);
    var lower, upper := 0, |s| - 1;
    while lower < upper
      invariant 0 <= lower && upper == |s| - 1 - lower
      invariant b.Length == |s|
      invariant ReversedOutside(b[..], s, lower, upper)
    {
      ghost var t := b[..];
      b[lower], b[upper] := b[upper], b[lower];
      assert b[..] == t[lower := t[upper]][upper := t[lower]];
      SwapStep(t, s, lower, upper);
      lower, upper := lower + 1, upper - 1;
    }
    ReversedWhenMet(b[..], s, lower, upper);
  }
}
