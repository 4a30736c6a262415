/**
 * The chart of components/GraphTab.tsx: one line per meal type, each point
 * a record plus its instant `t`, drawn red above the meal type's limit.
 * Layout, axes and colours other than red are not modelled.
 */
module GraphTab {
  import opened Wrappers
  import opened Records
  import Db

  /** Above these levels a point is drawn red. */
  const EmptyStomachLimit := 95
  const AfterMealLimit := 120

  /** `{ ...r, t: new Date(r.created_at).getTime() }`: the whole record and its instant. */
  datatype Point = Point(row: Row, t: int)

  /** The circle drawn for a point, red or in the line's colour. */
  datatype Dot = Dot(point: Point, red: bool)

  /** What the tab shows: the two lines and whether "No records yet." is shown. */
  datatype Chart = Chart(emptyStomach: seq<Dot>, afterMeal: seq<Dot>, noRecordsNote: bool)

  /** What the tooltip of a point lists; `comment` is None when no comment line is shown. */
  datatype Tooltip = Tooltip(meal: MealType, level: int, time: int, comment: Option<string>)

  /** `series.map((r) => ({ ...r, t }))`. */
  function Points(series: seq<Row>): (ps: seq<Point>)
    ensures |ps| == |series|
    ensures forall i :: 0 <= i < |series| ==> ps[i].row == series[i] && ps[i].t == series[i].createdAt
  {
    if series == [] then []
    else [Point(series[0], series[0].createdAt)] + Points(series[1..])
  }

  /** The dots of a line whose red limit is `limit`. */
  function Dots(points: seq<Point>, limit: int): (ds: seq<Dot>)
    ensures |ds| == |points|
    ensures forall i :: 0 <= i < |points| ==>
              ds[i].point == points[i] && (ds[i].red <==> points[i].row.level > limit)
  {
    if points == [] then []
    else [Dot(points[0], points[0].row.level > limit)] + Dots(points[1..], limit)
  }

  /** The chart for the records, in the order given. */
  function Render(records: seq<Row>): (c: Chart)
    ensures |c.emptyStomach| + |c.afterMeal| == |records|
    ensures forall i :: 0 <= i < |c.emptyStomach| ==>
              c.emptyStomach[i].point.row in records &&
              c.emptyStomach[i].point.row.meal == EmptyStomach &&
              (c.emptyStomach[i].red <==> c.emptyStomach[i].point.row.level > EmptyStomachLimit)
    ensures forall i :: 0 <= i < |c.afterMeal| ==>
              c.afterMeal[i].point.row in records &&
              c.afterMeal[i].point.row.meal == AfterMeal &&
              (c.afterMeal[i].red <==> c.afterMeal[i].point.row.level > AfterMealLimit)
    ensures c.noRecordsNote <==> records == []
  {
    OfMealPartition(records);
    var empty := OfMeal(records, EmptyStomach);
    var after := OfMeal(records, AfterMeal);
    assert forall i :: 0 <= i < |empty| ==> empty[i] in empty;
    assert forall i :: 0 <= i < |after| ==> after[i] in after;
    Chart(Dots(Points(empty), EmptyStomachLimit), Dots(Points(after), AfterMealLimit), |records| == 0)
  }

  /** Each line plots exactly its meal type's records, in the order given. */
  lemma LinesAreTheSeries(records: seq<Row>)
    ensures |Render(records).emptyStomach| == |OfMeal(records, EmptyStomach)|
    ensures |Render(records).afterMeal| == |OfMeal(records, AfterMeal)|
    ensures forall i :: 0 <= i < |Render(records).emptyStomach| ==>
              Render(records).emptyStomach[i].point == Point(OfMeal(records, EmptyStomach)[i], OfMeal(records, EmptyStomach)[i].createdAt)
    ensures forall i :: 0 <= i < |Render(records).afterMeal| ==>
              Render(records).afterMeal[i].point == Point(OfMeal(records, AfterMeal)[i], OfMeal(records, AfterMeal)[i].createdAt)
  {
  }

  /** 95 is not red on an empty stomach and 96 is; 120 is not red after a meal and 121 is. */
  lemma RedLimits(r: Row)
    ensures r.meal == EmptyStomach && r.level == 95 ==> !Render([r]).emptyStomach[0].red
    ensures r.meal == EmptyStomach && r.level == 96 ==> Render([r]).emptyStomach[0].red
    ensures r.meal == AfterMeal && r.level == 120 ==> !Render([r]).afterMeal[0].red
    ensures r.meal == AfterMeal && r.level == 121 ==> Render([r]).afterMeal[0].red
  {
    LinesAreTheSeries([r]);
  }

  /** The records of one meal type, taken from the listing, stay in creation-second order. */
  lemma SeriesRunsForward(records: seq<Row>, m: MealType, i: int, j: int)
    requires Db.InListingOrder(records)
    requires 0 <= i < j < |OfMeal(records, m)|
    ensures OfMeal(records, m)[i].createdAt / 1000 <= OfMeal(records, m)[j].createdAt / 1000
  {
    Db.ListingOrderSurvivesFilter(records, m);
    assert Db.ListedBefore(OfMeal(records, m)[i], OfMeal(records, m)[j]);
  }

  /** Fed the store's listing, each line runs forward in time (to the second). */
  lemma LinesRunForward(records: seq<Row>, i: int, j: int)
    requires Db.InListingOrder(records)
    requires 0 <= i < j < |Render(records).emptyStomach| || 0 <= i < j < |Render(records).afterMeal|
    ensures 0 <= i < j < |Render(records).emptyStomach| ==>
              Render(records).emptyStomach[i].point.t / 1000 <= Render(records).emptyStomach[j].point.t / 1000
    ensures 0 <= i < j < |Render(records).afterMeal| ==>
              Render(records).afterMeal[i].point.t / 1000 <= Render(records).afterMeal[j].point.t / 1000
  {
    LinesAreTheSeries(records);
    if 0 <= i < j < |Render(records).emptyStomach| {
      SeriesRunsForward(records, EmptyStomach, i, j);
    }
    if 0 <= i < j < |Render(records).afterMeal| {
      SeriesRunsForward(records, AfterMeal, i, j);
    }
  }

  /** The tooltip: meal type, level, time and, for a non-empty comment, a comment line. */
  function TooltipFor(p: Point): (tip: Tooltip)
    ensures tip.comment.Some? <==> p.row.comment.Some? && p.row.comment.value != ""
    ensures tip.comment.Some? ==> tip.comment == p.row.comment
    ensures tip.meal == p.row.meal && tip.level == p.row.level && tip.time == p.row.createdAt
  {
    var shown := if p.row.comment.Some? && p.row.comment.value != "" then p.row.comment else None;
    Tooltip(p.row.meal, p.row.level, p.row.createdAt, shown)
  }
}
