/**
 * The record shape shared by the store, the route and the views: a meal
 * type, an integer sugar level, an optional comment and the creation instant.
 */
module Records {
  import opened Wrappers

  /** `MealType`: "empty stomach" | "after meal". */
  datatype MealType = EmptyStomach | AfterMeal

  /** The text label of a meal type, as stored in `meal_type` and sent by the form. */
  function MealLabel(m: MealType): string
  {
    match m
    case EmptyStomach => "empty stomach"
    case AfterMeal => "after meal"
  }

  /** The meal type whose label is s, if any. */
  function MealTypeOf(s: string): (r: Option<MealType>)
    ensures r.Some? <==> s == "empty stomach" || s == "after meal"
    ensures r.Some? ==> MealLabel(r.value) == s
  {
    if s == "empty stomach" then Some(EmptyStomach)
    else if s == "after meal" then Some(AfterMeal)
    else None
  }

  /** Every label reads back as its meal type. */
  lemma MealLabelRoundTrip(m: MealType)
    ensures MealTypeOf(MealLabel(m)) == Some(m)
  {
  }

  /**
   * `RecordRow`: `created_at` is kept as the instant it encodes, in
   * milliseconds since the epoch (the ISO text has millisecond precision).
   */
  datatype Row = Row(id: int, meal: MealType, level: int, comment: Option<string>, createdAt: int)

  /** `records.filter((r) => r.meal_type === m)`. */
  function OfMeal(rows: seq<Row>, m: MealType): (r: seq<Row>)
    ensures |r| <= |rows|
    ensures forall x :: x in r <==> x in rows && x.meal == m
  {
    if rows == [] then []
    else if rows[0].meal == m then [rows[0]] + OfMeal(rows[1..], m)
    else OfMeal(rows[1..], m)
  }

  /** Filtering a concatenation filters each part and keeps them in order. */
  lemma {:induction false} OfMealConcat(a: seq<Row>, b: seq<Row>, m: MealType)
    ensures OfMeal(a + b, m) == OfMeal(a, m) + OfMeal(b, m)
  {
    if a != [] {
      assert (a + b)[1..] == a[1..] + b;
      OfMealConcat(a[1..], b, m);
    } else {
      assert a + b == b;
    }
  }

  /** The two series split the rows: each row lands in exactly one of them. */
  lemma {:induction false} OfMealPartition(rows: seq<Row>)
    ensures multiset(OfMeal(rows, EmptyStomach)) + multiset(OfMeal(rows, AfterMeal)) == multiset(rows)
    ensures |OfMeal(rows, EmptyStomach)| + |OfMeal(rows, AfterMeal)| == |rows|
  {
    if rows != [] {
      OfMealPartition(rows[1..]);
      assert rows == [rows[0]] + rows[1..];
    }
  }
}
