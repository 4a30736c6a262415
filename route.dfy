/**
 * The records endpoint of app/api/records/route.ts: GET lists the store,
 * POST validates a JSON body in a fixed order and inserts it.  HTTP is
 * reduced to a status code and a body.
 */
module RecordsRoute {
  import opened Wrappers
  import opened JsNumber
  import opened JsText
  import opened Records
  import opened Db

  /**
   * A JSON value read from the request body.  JComposite is an array or an
   * object; what `Number()` makes of it is carried along rather than computed.
   */
  datatype JsonValue =
    | JUndefined
    | JNull
    | JBool(b: bool)
    | JNumber(num: NumberValue)
    | JString(s: string)
    | JComposite(asNumber: NumberValue)

  /** The three properties the route reads from the body object. */
  datatype Fields = Fields(mealType: JsonValue, sugarLevel: JsonValue, comment: JsonValue)

  /** The properties of `{}`: all undefined. */
  const NoFields := Fields(JUndefined, JUndefined, JUndefined)

  /** The parsed body: `null`, some other non-object value, or an object. */
  datatype Body = NullBody | NonObjectBody | ObjectBody(fields: Fields)

  /** A request whose body either is not JSON at all or parses to a Body. */
  datatype Request = MalformedJson | JsonRequest(body: Body)

  /** The four ways a POST is refused. */
  datatype RouteError = InvalidJson | BadMealType | NotAnInteger | OutOfRange

  datatype ResponseBody = ErrorBody(error: string) | RowBody(row: Row) | RowsBody(rows: seq<Row>)

  datatype Response = Response(status: int, body: ResponseBody)

  /** The smallest and largest accepted sugar level. */
  const MinLevel := 0
  const MaxLevel := 1000

  /** `(body ?? {})` followed by reading the three properties. */
  function FieldsOf(body: Body): (f: Fields)
    ensures body.ObjectBody? ==> f == body.fields
    ensures !body.ObjectBody? ==>
              f.mealType == JUndefined && f.sugarLevel == JUndefined && f.comment == JUndefined
  {
    match body
    case ObjectBody(fields) => fields
    case _ => NoFields
  }

  /** JavaScript's `Number(v)`. */
  function NumberOf(v: JsonValue): (r: NumberValue)
    ensures v.JUndefined? ==> r == NaN
    ensures v.JNull? ==> r == IntVal(0)
    ensures v.JBool? ==> r == IntVal(if v.b then 1 else 0)
    ensures v.JString? && AllWhitespace(v.s) ==> r == IntVal(0)
    ensures v.JString? ==> r == StringToNumber(Trim(v.s))
  {
    match v
    case JUndefined => NaN
    case JNull => IntVal(0)
    case JBool(b) => IntVal(if b then 1 else 0)
    case JNumber(num) => num
    case JString(s) =>
      StringToNumberIgnoresSurroundingSpace(s);
      StringToNumber(s)
    case JComposite(asNumber) => asNumber
  }

  /** The meal type named by a JSON value, when it is exactly one of the two labels. */
  function MealTypeField(v: JsonValue): (r: Option<MealType>)
    ensures r.Some? <==> v == JString("empty stomach") || v == JString("after meal")
    ensures r.Some? ==> v == JString(MealLabel(r.value))
  {
    if v.JString? then MealTypeOf(v.s) else None
  }

  /** `typeof comment === "string" ? comment : null`. */
  function CommentField(v: JsonValue): (r: Option<string>)
    ensures r.Some? <==> v.JString?
    ensures r.Some? ==> v == JString(r.value)
  {
    if v.JString? then Some(v.s) else None
  }

  /** The message `badRequest` sends for each refusal. */
  function ErrorMessage(e: RouteError): (m: string)
    ensures m != []
  {
    match e
    case InvalidJson => "Invalid JSON body"
    case BadMealType => "mealType must be 'empty stomach' or 'after meal'"
    case NotAnInteger => "sugarLevel must be an integer"
    case OutOfRange => "sugarLevel out of range"
  }

  /** No two refusals share a message, so a client can tell them apart. */
  lemma ErrorMessagesDistinct(e1: RouteError, e2: RouteError)
    ensures ErrorMessage(e1) == ErrorMessage(e2) ==> e1 == e2
  {
    var m1, m2 := ErrorMessage(e1), ErrorMessage(e2);
    if e1 != e2 {
      assert m1[0] != m2[0] || m1[11] != m2[11];
    }
  }

  /**
   * The checks POST makes before inserting, in their order: the body parses,
   * the meal type is a label, the level is an integer, the level is in range.
   */
  function Validate(req: Request): (r: Result<InsertInput, RouteError>)
    ensures r == Failure(InvalidJson) <==> req.MalformedJson?
    ensures req.JsonRequest? ==>
      var f := FieldsOf(req.body);
      && (r == Failure(BadMealType) <==> MealTypeField(f.mealType).None?)
      && (r == Failure(NotAnInteger) <==>
            MealTypeField(f.mealType).Some? && !NumberOf(f.sugarLevel).IntVal?)
      && (r == Failure(OutOfRange) <==>
            MealTypeField(f.mealType).Some? && NumberOf(f.sugarLevel).IntVal? &&
            !(MinLevel <= NumberOf(f.sugarLevel).n <= MaxLevel))
      && (r.Success? ==>
            Some(r.value.meal) == MealTypeField(f.mealType) &&
            IntVal(r.value.level) == NumberOf(f.sugarLevel) &&
            MinLevel <= r.value.level <= MaxLevel &&
            r.value.comment == CommentField(f.comment))
  {
    match req
    case MalformedJson => Failure(InvalidJson)
    case JsonRequest(body) =>
      var f := FieldsOf(body);
      match MealTypeField(f.mealType)
      case None => Failure(BadMealType)
      case Some(meal) =>
        match NumberOf(f.sugarLevel)
        case IntVal(n) =>
          if n < MinLevel || n > MaxLevel then Failure(OutOfRange)
          else Success(InsertInput(meal, n, CommentField(f.comment)))
        case _ => Failure(NotAnInteger)
  }

  /** A `null` body is read as `{}`, so it is refused for its meal type. */
  lemma NullBodyIsEmptyObject()
    ensures Validate(JsonRequest(NullBody)) == Validate(JsonRequest(ObjectBody(NoFields)))
    ensures Validate(JsonRequest(NullBody)) == Failure(BadMealType)
  {
  }

  /**
   * A level that is missing is refused, but a `null` or empty-string level
   * converts to 0 and is accepted.
   */
  lemma AbsentLevels(meal: MealType, comment: JsonValue)
    ensures Validate(JsonRequest(ObjectBody(Fields(JString(MealLabel(meal)), JUndefined, comment))))
              == Failure(NotAnInteger)
    ensures Validate(JsonRequest(ObjectBody(Fields(JString(MealLabel(meal)), JNull, comment))))
              == Success(InsertInput(meal, 0, CommentField(comment)))
    ensures Validate(JsonRequest(ObjectBody(Fields(JString(MealLabel(meal)), JString(""), comment))))
              == Success(InsertInput(meal, 0, CommentField(comment)))
  {
    MealLabelRoundTrip(meal);
  }

  /** Every stored level lies in the accepted range. */
  ghost predicate LevelsInRange(rows: seq<Row>)
  {
    forall i :: 0 <= i < |rows| ==> MinLevel <= rows[i].level <= MaxLevel
  }

  /** `GET`: the rows of `listRecords`, unchanged, with status 200. */
  method Get(store: RecordStore) returns (resp: Response)
    requires store.Valid()
    modifies store
    ensures store.Valid() && store.db != null
    ensures old(store.db) != null ==> store.db == old(store.db)
    ensures old(store.db) == null ==> fresh(store.db)
    ensures store.Rows() == old(store.Rows()) && store.LastId() == old(store.LastId())
    ensures resp == Response(200, RowsBody(Listing(store.Rows())))
  {
    var rows := store.ListRecords();
    resp := Response(200, RowsBody(rows));
  }

  /**
   * `POST`: a refused request answers 400 with its message and leaves the
   * store untouched; an accepted one answers 201 with the inserted row.
   */
  method Post(store: RecordStore, req: Request, now: int) returns (resp: Response)
    requires store.Valid()
    modifies store, store.db
    ensures store.Valid()
    ensures Validate(req).Failure? ==>
              resp == Response(400, ErrorBody(ErrorMessage(Validate(req).error))) &&
              unchanged(store) && (store.db != null ==> unchanged(store.db))
    ensures Validate(req).Success? ==>
              var input := Validate(req).value;
              && resp.status == 201 && resp.body.RowBody?
              && resp.body.row.meal == input.meal && resp.body.row.level == input.level
              && resp.body.row.comment == NormalizeComment(input.comment)
              && resp.body.row.createdAt == now
              && resp.body.row.id > old(store.LastId())
              && (forall r :: r in old(store.Rows()) ==> r.id < resp.body.row.id)
              && store.Rows() == old(store.Rows()) + [resp.body.row]
              && store.db != null && (old(store.db) == null ==> fresh(store.db))
              && (old(store.db) != null ==> store.db == old(store.db))
    ensures LevelsInRange(old(store.Rows())) ==> LevelsInRange(store.Rows())
  {
    var checked := Validate(req);
    if checked.Failure? {
      return Response(400, ErrorBody(ErrorMessage(checked.error)));
    }
    var row := store.InsertRecord(checked.value, now);
    resp := Response(201, RowBody(row));
  }
}
