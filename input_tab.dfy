/**
 * The record form of components/InputTab.tsx: a meal-type choice, the level
 * text and a comment, the rule that enables Record, and what `record()`
 * does to the form around the POST.  The fetch outcome is a parameter.
 */
module InputTab {
  import opened Wrappers
  import opened JsText
  import opened JsNumber
  import opened Records
  import opened RecordsRoute

  /** `sugarInt`: blank text gives no level; otherwise `Number(text)` when it is an integer. */
  function ParseLevel(text: string): (r: Option<int>)
    ensures AllWhitespace(text) ==> r == None
    ensures r.Some? <==> !AllWhitespace(text) && StringToNumber(text).IntVal?
    ensures r.Some? ==> r.value == StringToNumber(text).n
  {
    TrimEmptyIffAllWhitespace(text);
    if Trim(text) == "" then None
    else
      match StringToNumber(text)
      case IntVal(n) => Some(n)
      case _ => None
  }

  /** Integer text reads back as its integer. */
  lemma ParseLevelOfInteger(n: int)
    ensures ParseLevel(DecimalText(n)) == Some(n)
  {
    DecimalTextRoundTrip(n);
    DecimalTextNotBlank(n);
  }

  /** `String(n)` starts with a minus sign or a digit, so it is never blank. */
  lemma DecimalTextNotBlank(n: int)
    ensures !AllWhitespace(DecimalText(n))
  {
    var s := DecimalText(n);
    assert !IsWhitespace(s[0]) by {
      if n >= 0 { assert DigitValue(s[0]) < 10; }
    }
  }

  /** Text with a nonzero fraction (`12.5`) gives no level; `90.0` gives 90. */
  lemma ParseLevelOfFraction(whole: string, fraction: string)
    requires whole != [] && AllDigitsIn(whole, 10) && AllDigitsIn(fraction, 10)
    ensures ParseLevel(whole + "." + fraction) ==
              if ValueIn(fraction, 10) == 0 then Some(ValueIn(whole, 10)) else None
  {
    FractionText(whole, fraction);
    assert DigitValue((whole + "." + fraction)[0]) < 10;
  }

  /** `canRecord`: a meal type is chosen and the level text parsed. */
  function CanRecord(meal: Option<MealType>, level: Option<int>): bool
  {
    meal.Some? && level.Some?
  }

  /**
   * Record is enabled exactly when a meal type is chosen and the level text
   * is non-blank and `Number` makes an integer of it.
   */
  lemma RecordEnabledIff(meal: Option<MealType>, text: string)
    ensures CanRecord(meal, ParseLevel(text)) <==>
              meal.Some? && !AllWhitespace(text) && StringToNumber(text).IntVal?
  {
  }

  /** Record is enabled by any integer, however large: the range is left to the server. */
  lemma NoClientRangeCheck(m: MealType, n: int)
    ensures CanRecord(Some(m), ParseLevel(DecimalText(n)))
  {
    ParseLevelOfInteger(n);
  }

  /** The body `JSON.stringify({ mealType, sugarLevel: sugarInt, comment })` sends. */
  function PostRequest(meal: MealType, level: int, comment: string): Request
  {
    JsonRequest(ObjectBody(Fields(JString(MealLabel(meal)), JNumber(IntVal(level)), JString(comment))))
  }

  /** What the server makes of the form's request: only the range can still refuse it. */
  lemma PostedRequestValidation(meal: MealType, level: int, comment: string)
    ensures Validate(PostRequest(meal, level, comment)) ==
              if MinLevel <= level <= MaxLevel
              then Success(Db.InsertInput(meal, level, Some(comment)))
              else Failure(OutOfRange)
  {
    MealLabelRoundTrip(meal);
  }

  /** How the `fetch` of `record()` ends: it rejects, or a response arrives. */
  datatype FetchOutcome = Rejected(message: string) | Responded(status: int, text: string)

  /** `res.ok`: a 2xx status. */
  predicate Succeeded(o: FetchOutcome)
  {
    o.Responded? && 200 <= o.status <= 299
  }

  /** The message `record()` shows when the POST fails. */
  function FailureMessage(o: FetchOutcome): (m: string)
    ensures o.Rejected? ==> m == o.message
  {
    match o
    case Rejected(message) => message
    case Responded(status, text) =>
      "POST /api/records failed (" + DecimalText(status) + "): " + text
  }

  /**
   * An answer that is not ok is reported as the fixed prefix, the status
   * written in decimal, and the response text; the status reads back.
   */
  lemma FailureMessageNamesStatus(status: int, text: string)
    ensures var m := FailureMessage(Responded(status, text));
            var prefix := "POST /api/records failed (";
            var digits := DecimalText(status);
            && |m| == |prefix| + |digits| + 3 + |text|
            && m[..|prefix|] == prefix
            && StringToNumber(m[|prefix|..|prefix| + |digits|]) == IntVal(status)
            && m[|prefix| + |digits|..] == "): " + text
  {
    var prefix := "POST /api/records failed (";
    var digits := DecimalText(status);
    assert FailureMessage(Responded(status, text)) == prefix + digits + ("): " + text);
    ThreePartSlices(prefix, digits, "): " + text);
    DecimalTextRoundTrip(status);
  }

  /** The three parts of p + d + q are found again at their offsets. */
  lemma ThreePartSlices(p: string, d: string, q: string)
    ensures |p + d + q| == |p| + |d| + |q|
    ensures (p + d + q)[..|p|] == p
    ensures (p + d + q)[|p|..|p| + |d|] == d
    ensures (p + d + q)[|p| + |d|..] == q
  {
  }

  /** The form's state: the five `useState` cells. */
  class InputForm {
    /** None is the "Select…" choice (the empty string). */
    var mealType: Option<MealType>
    var sugarLevel: string
    var comment: string
    var saving: bool
    var error: Option<string>

    constructor()
      ensures mealType == None && sugarLevel == "" && comment == ""
      ensures !saving && error == None
    {
      mealType := None;
      sugarLevel := "";
      comment := "";
      saving := false;
      error := None;
    }

    /** `sugarInt` for the current text. */
    function SugarInt(): Option<int>
      reads this
    {
      ParseLevel(sugarLevel)
    }

    /** `canRecord` for the current fields. */
    function Enabled(): bool
      reads this
    {
      CanRecord(mealType, SugarInt())
    }

    /**
     * `record()`: nothing when Record is disabled; otherwise it sets `saving`,
     * clears the error, posts the parsed level and then either clears the
     * level and comment and calls `onRecorded`, or shows the failure, and
     * finally clears `saving`.  `inFlight` records that, while the request is
     * in flight, `saving` is set and no error is shown.
     */
    method Record(outcome: FetchOutcome)
      returns (sent: Option<Request>, notified: bool, ghost inFlight: bool)
      modifies this
      ensures !old(Enabled()) ==> sent == None && !notified && unchanged(this)
      ensures old(Enabled()) ==>
                && sent == Some(PostRequest(old(mealType).value, old(SugarInt()).value, old(comment)))
                && inFlight && !saving
                && mealType == old(mealType)
      ensures old(Enabled()) && Succeeded(outcome) ==>
                sugarLevel == "" && comment == "" && error == None && notified && !Enabled()
      ensures old(Enabled()) && !Succeeded(outcome) ==>
                sugarLevel == old(sugarLevel) && comment == old(comment) &&
                error == Some(FailureMessage(outcome)) && !notified && Enabled()
    {
      if !Enabled() {
        return None, false, false;
      }
      var meal, level := mealType.value, SugarInt().value;
      saving := true;
      error := None;
      sent := Some(PostRequest(meal, level, comment));
      inFlight := saving && error == None;
      if Succeeded(outcome) {
        sugarLevel := "";
        comment := "";
        notified := true;
      } else {
        error := Some(FailureMessage(outcome));
        notified := false;
      }
      saving := false;
    }
  }
}
