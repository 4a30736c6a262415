# sugarmommy: a verified model of the glucose log core

sugarmommy logs blood-glucose readings. Each reading has a meal type ("empty stomach" or "after meal"), an integer sugar level, an optional comment and a creation time. The readings are shown in a chart and in two tables. This project models, in Dafny, the parts that carry logic:

- **the record store** (`lib/db.ts`). This is the lazily opened SQLite database and its `records` table with an AUTOINCREMENT id. It is a `RecordStore` class holding the `_db` handle, and a `Database` class holding the rows and the AUTOINCREMENT counter. The insert takes the clock as a parameter. The listing order is an insertion sort by `datetime(created_at)` (whole seconds), then id. It is proved to be the unique ordered arrangement of the stored rows.
- **the records endpoint** (`app/api/records/route.ts`). `Validate` is the ordered chain of early returns. `Post` and `Get` are methods on the store.
- **the views** (`components/GraphTab.tsx`, `components/TableTab.tsx`). These are pure functions from the record list to what is drawn: the two series, the red dots, the tooltip, the counts and the newest-first table rows.
- **the record form** (`components/InputTab.tsx`). The level text is parsed with JavaScript's `Number()` rules for strings. The enabling rule is modelled, and `record()` is a method on an `InputForm` class. The outcome of `fetch` is a parameter.

Times are integer milliseconds since the epoch. This is the instant that the `created_at` ISO text encodes. Strings are `seq<char>`. JavaScript's `trim` uses the WhiteSpace and LineTerminator characters of ECMAScript.

The model follows the code on these points, where one might expect otherwise:
- The listing orders by `created_at` truncated to whole seconds, then by id. It does not order by the full timestamp.
- The level range 0..1000 is enforced only by the route, not by the store. `Post` is proved to preserve "all levels in range", and the store accepts any level.
- A `null` level and an empty-string level convert to 0 and are accepted. Of the three ways to leave the level out, only `undefined` (which gives NaN) is refused as not an integer.
- When the database path is not configured, the code does not fail. It falls back to a default path.

## Model

| member | source | states |
|---|---|---|
| `JsText.Trim` | lib/db.ts:60 | the trimmed text neither starts nor ends with whitespace |
| `JsText.TrimStart` | lib/db.ts:60 | the result is a suffix of the input, and only whitespace was dropped before it |
| `JsText.TrimEnd` | lib/db.ts:60 | the result is a prefix of the input, and only whitespace was dropped after it |
| `JsText.TrimIsSlice` | lib/db.ts:60 | `trim` keeps one contiguous slice and removes only whitespace on both sides |
| `JsText.TrimEmptyIffAllWhitespace` | components/InputTab.tsx:14 | `text.trim() === ""` exactly when every character is whitespace |
| `JsNumber.StringToNumber` | components/InputTab.tsx:15 | the reference for `Number(text)` on strings: blank text reads as 0, and `Infinity` with either sign is a number but not an integer |
| `JsNumber.StringToNumberIgnoresSurroundingSpace` | components/InputTab.tsx:15 | whitespace around the text never changes what `Number` makes of it |
| `JsNumber.DecimalText` | components/InputTab.tsx:34 | `${res.status}`: a minus sign exactly for a negative number, followed by the decimal digits of its magnitude, with no leading zero except for 0 itself |
| `JsNumber.DecimalTextRoundTrip` | components/InputTab.tsx:15-17 | `Number(String(n))` is the integer n, for every integer n |
| `JsNumber.FractionText` | components/InputTab.tsx:15-16 | `Number("w.f")` is an integer exactly when every fraction digit is 0, and it is then the whole part |
| `JsNumber.ValueInConcat` | components/InputTab.tsx:15 | appending digits b to digits a is worth a·10^\|b\| + b |
| `Records.MealTypeOf` | app/api/records/route.ts:28 | a meal type is recognised exactly for the two labels, and it reads back as its label |
| `Records.MealLabelRoundTrip` | components/TabbedApp.tsx:7 | each meal type's label is recognised as that meal type |
| `Records.OfMeal` | components/GraphTab.tsx:21-22 | the filtered series holds exactly the input rows of that meal type |
| `Records.OfMealConcat` | components/TableTab.tsx:56-57 | filtering is stable: filtering a concatenation concatenates the filtered parts, in order |
| `Records.OfMealPartition` | components/GraphTab.tsx:21-22 | the two series together are a permutation of the input, so their lengths sum to the input length |
| `Db.Stored` | lib/db.ts:22-29 | `CREATE TABLE IF NOT EXISTS`: an existing table keeps its rows and its counter; with no existing table, the table is empty and the counter is 0 |
| `Db.NormalizeComment` | lib/db.ts:60 | the comment is absent when it was absent or whitespace only; otherwise it is the trimmed text, non-empty and without whitespace at either end |
| `Db.NormalizeCommentIdempotent` | lib/db.ts:60 | normalising a stored comment again changes nothing |
| `Db.MaxId` | lib/db.ts:24 | every stored id is at most the result |
| `Db.NextRowId` | lib/db.ts:24 | the AUTOINCREMENT id is above the counter and above every stored id |
| `Db.RowWithId` | lib/db.ts:68-74 | the lookup finds a stored row with that id, and finds nothing only when no row has that id |
| `Db.Second` | lib/db.ts:52 | `datetime(created_at)` keeps the whole second: the result is the second that contains the creation instant |
| `Db.ListedBeforeIsTotal` | lib/db.ts:52 | `ORDER BY datetime(created_at) ASC, id ASC` compares any two rows, and two rows tie only when they share both the second and the id |
| `Db.InsertInOrder` | lib/db.ts:49-53 | inserting into an ordered sequence keeps it ordered and adds exactly that row |
| `Db.Listing` | lib/db.ts:49-54 | the listing is ordered by creation second, then by id, and is a permutation of the stored rows |
| `Db.OrderedSameFirst` | lib/db.ts:52 | two ordered arrangements of the same rows with unique ids start with the same row |
| `Db.TailIdsUnique` | lib/db.ts:24 | removing a row keeps ids unique |
| `Db.OrderedIsUnique` | lib/db.ts:52 | with unique ids, there is only one ordered arrangement of a set of rows |
| `Db.ListingIsTheOrder` | lib/db.ts:47-55 | any ordered permutation of the stored rows is the listing, so repeated listings agree |
| `Db.ListingIgnoresStorageOrder` | lib/db.ts:49-53 | the listing does not depend on the order in which the rows were inserted |
| `Db.ListingOrderSurvivesFilter` | components/GraphTab.tsx:21-22 | a meal-type series taken from the listing is still in listing order |
| `Db.DistinctIdsAreUnique` | lib/db.ts:24 | rows whose ids differ position by position hold each row once, and no two of them share an id |
| `Db.AppendFreshId` | lib/db.ts:66 | appending a row whose id is above all stored ids keeps the ids pairwise distinct |
| `Db.Database.Open` | lib/db.ts:15-36 | opening finds the file's table and counter, or an empty table with counter 0 |
| `Db.Database.Insert` | lib/db.ts:62-66 | the INSERT appends exactly one row with the next AUTOINCREMENT id, and the counter becomes that id |
| `Db.RecordStore.constructor` | lib/db.ts:38 | at module load the handle is null and nothing has been opened |
| `Db.RecordStore.GetDb` | lib/db.ts:40-45 | the first call opens the database, and every later call returns the same handle without opening again; the rows are unchanged |
| `Db.RecordStore.ListRecords` | lib/db.ts:47-55 | returns the listing of the stored rows and changes none of them |
| `Db.RecordStore.InsertRecord` | lib/db.ts:57-77 | appends one row and returns it: the given meal type and level, the normalised comment and the clock's time, with an id above every earlier id; every existing row is unchanged |
| `Db.InsertFirstReading` | lib/db.test.ts:14 | the first insert opens the database and stores exactly (empty stomach, 90, "test") at 2026-01-01T00:00:00Z |
| `Db.InsertTwoReadings` | lib/db.test.ts:14-15 | the two inserts store exactly (empty stomach, 90, "test") and then (after meal, 130, null), at 2026-01-01T00:00:00Z and 2026-01-02T00:00:00Z, the first with the smaller id |
| `Db.InsertThenListScenario` | lib/db.test.ts:14-23 | (empty stomach, 90, "test") on 2026-01-01 and then (after meal, 130, null) on 2026-01-02 list in that order with those values; listing twice gives the same rows |
| `RecordsRoute.FieldsOf` | app/api/records/route.ts:23-26 | `body ?? {}`: an object body gives its own fields; a `null` or non-object body gives all three fields undefined |
| `RecordsRoute.NumberOf` | app/api/records/route.ts:32 | `Number(v)`: undefined is NaN, null is 0, true is 1 and false is 0, blank text is 0, and text is read after trimming |
| `RecordsRoute.MealTypeField` | app/api/records/route.ts:28 | a meal type is found exactly for the JSON strings "empty stomach" and "after meal", and it is the one whose label was sent |
| `RecordsRoute.CommentField` | app/api/records/route.ts:41 | `typeof comment === "string" ? comment : null`: the comment is kept exactly when it is a JSON string |
| `RecordsRoute.ErrorMessage` | app/api/records/route.ts:20-38 | every refusal carries a non-empty message |
| `RecordsRoute.ErrorMessagesDistinct` | app/api/records/route.ts:20-38 | the four refusal messages are pairwise different, so a client can tell the refusals apart |
| `RecordsRoute.Validate` | app/api/records/route.ts:16-41 | the checks run in order: malformed JSON, then meal type, then integer, then range 0..1000; each error occurs exactly when its check fails and all earlier ones pass; on success the input carries the meal type, the integer level and the comment when it is a string (otherwise null) |
| `RecordsRoute.NullBodyIsEmptyObject` | app/api/records/route.ts:23 | a `null` body is read as `{}` and refused for its meal type |
| `RecordsRoute.AbsentLevels` | app/api/records/route.ts:32-35 | a missing level is refused as not an integer, while a `null` or `""` level is accepted as 0 |
| `RecordsRoute.Get` | app/api/records/route.ts:10-13 | responds 200 with exactly the `listRecords` result, and the store keeps its rows |
| `RecordsRoute.Post` | app/api/records/route.ts:15-43 | a refused request gets 400 and its message, and the store is untouched; an accepted one gets 201 with the row `insertRecord` appended, whose id is above every earlier id; all stored levels stay in 0..1000 |
| `InputTab.ParseLevel` | components/InputTab.tsx:13-18 | blank text gives no level; other text gives a level exactly when `Number(text)` is an integer, and then that integer |
| `InputTab.ParseLevelOfInteger` | components/InputTab.tsx:15-17 | integer text parses to that integer |
| `InputTab.ParseLevelOfFraction` | components/InputTab.tsx:16 | text with a nonzero fraction parses to no level; `90.0` parses to 90 |
| `InputTab.RecordEnabledIff` | components/InputTab.tsx:13-20 | `canRecord`: Record is enabled exactly when a meal type is chosen and the level text is non-blank and `Number` makes an integer of it |
| `InputTab.FailureMessage` | components/InputTab.tsx:40 | an error thrown by `fetch` is shown with its own message |
| `InputTab.FailureMessageNamesStatus` | components/InputTab.tsx:32-34 | an answer that is not ok is shown as the fixed prefix, the status in decimal (which reads back as the status) and the response text |
| `InputTab.NoClientRangeCheck` | components/InputTab.tsx:20 | Record is enabled for any integer level once a meal type is chosen, with no range check |
| `InputTab.PostedRequestValidation` | components/InputTab.tsx:30 | the form's body (label, parsed integer, comment text) passes the route's checks exactly when the level is in 0..1000 |
| `InputTab.InputForm.constructor` | components/InputTab.tsx:7-11 | the form starts with no meal type, empty texts, not saving and no error |
| `InputTab.InputForm.Record` | components/InputTab.tsx:22-45 | a disabled form is left unchanged; otherwise the parsed level is posted (the body is `PostRequest`, the `JSON.stringify` of line 30, and success is `Succeeded`, the `res.ok` of line 32) while `saving` is true and no error is shown; on success the level and comment are cleared, the meal type is kept and `onRecorded` is called; on failure the message is shown and the fields are kept; `saving` ends false |
| `GraphTab.Points` | components/GraphTab.tsx:60 | each point keeps its whole record and adds `t` equal to the creation instant, with length and order kept |
| `GraphTab.Dots` | components/GraphTab.tsx:64-77 | a dot is red exactly when its level is above the line's limit |
| `GraphTab.Render` | components/GraphTab.tsx:20-110 | the two lines hold only records of their meal type, are red above 95 and above 120 respectively, and together have as many points as there are records; "No records yet." is shown exactly for an empty list |
| `GraphTab.LinesAreTheSeries` | components/GraphTab.tsx:83 | each line is exactly its meal type's series in input order, projected to points |
| `GraphTab.RedLimits` | components/GraphTab.tsx:66 | on an empty stomach 95 is not red and 96 is; after a meal 120 is not red and 121 is |
| `GraphTab.SeriesRunsForward` | components/GraphTab.tsx:21-22 | one meal type's series taken from the listing is in creation-second order |
| `GraphTab.LinesRunForward` | components/GraphTab.tsx:60 | fed the store's listing, each line's points run forward in time, to the second |
| `GraphTab.TooltipFor` | components/GraphTab.tsx:43-53 | the tooltip shows meal type, level and time, and a comment line only for a non-empty comment |
| `TableTab.Reverse` | components/TableTab.tsx:35-37 | the i-th displayed record is the i-th from the end |
| `TableTab.ReverseReverse` | components/TableTab.tsx:37 | reversing twice restores the order |
| `TableTab.CommentCellFor` | components/TableTab.tsx:43 | the cell shows the comment when it is non-empty, otherwise the dash |
| `TableTab.StoredCommentCell` | components/TableTab.tsx:43 | for a stored comment, the dash appears exactly when there is no comment |
| `TableTab.TableRowFor` | components/TableTab.tsx:39-44 | a row is keyed by the record's id and shows its time and level; the comment cell is the dash exactly when the comment is absent or empty, and otherwise the comment |
| `TableTab.TableRows` | components/TableTab.tsx:38-46 | one table row per record, in the same order |
| `TableTab.RecordsTable` | components/TableTab.tsx:10-53 | the count is the number of records; an empty table has the single "No records yet." row; otherwise the rows are the records in reverse order |
| `TableTab.Render` | components/TableTab.tsx:55-65 | the "Empty stomach" table gets the empty-stomach series and the "After meal" table the after-meal series; the counts sum to the number of records |
| `TableTab.NewestFirst` | components/TableTab.tsx:35-38 | fed the store's listing, each table lists newest first, to the second |
| `TableTab.ReversedCopy` | components/TableTab.tsx:36-37 | `slice().reverse()` returns a new array holding the reversed records and does not write the caller's array |

## Left out

- SQLite and the file system: `fs.mkdirSync`, the WAL pragma, the two indexes and the `SUGARMOMMY_DB_PATH` default path (lib/db.ts:16-20, 31-32, 42) are I/O. The file is modelled by the table it holds.
- Storage failures (an unreachable disk, a failed write) are not modelled. Every statement succeeds.
- AUTOINCREMENT exhaustion is not modelled. SQLite fails with SQLITE_FULL once the counter reaches the 64-bit maximum; the model's ids are unbounded.
- The read-back of the inserted row (lib/db.ts:68-74) never comes back empty in the model, which proves it. For ids up to 2^53 the source behaves the same, so its unchecked cast does not matter for them. Larger ids are covered on the next line.
- Db.RecordStore.InsertRecord: ids are exact integers in the model. In JavaScript, `lastInsertRowid` (lib/db.ts:74) is a double unless `safeIntegers` is on, and it is bound back as a double. Above 2^53 the id can round to a neighbouring value. The read-back `WHERE id = ?` then finds an earlier row or nothing, and `RecordsRoute.Post` passes that result on as its 201 answer. The model proves the new row comes back for every id.
- Db.RecordStore.ListRecords: the listed `id`s (lib/db.ts:54) reach JavaScript as doubles, so ids above 2^53 are rounded. The model lists exact ids, and `RecordsRoute.Get` passes them on unchanged.
- `Date`, `toISOString`, `getTime`, `toLocaleString`: times are integer milliseconds, and the formatting of times is not modelled. Years outside 0000..9999 are not modelled; for them the ISO text and `datetime()` change form.
- JsNumber.StringToNumber: uses exact rational arithmetic and does not round to doubles. It therefore classifies differently from JavaScript any decimal text a double cannot hold exactly: text with 17 or more significant digits (`Number("1.0000000000000001")` is 1 in JavaScript, while the model reads a non-integer), or with a fractional part at magnitudes of 2^52 and above (`"4503599627370496.5"`). Integer text beyond 2^53 keeps its classification but not its value, which JavaScript rounds. Text beyond about 1.8e308 (JavaScript gives Infinity) or below about 5e-324 (JavaScript gives 0) is also read exactly.
- RecordsRoute.NumberOf: `Number()` of a JSON array or object is carried by the request value rather than computed. `Number.isInteger` of a JSON number is also given by the request value (`JNumber` holds the classified number).
- HTTP and rendering: `NextResponse`, `fetch`, headers, JSX, recharts and styling are not modelled. Responses are a status and a body, and the fetch outcome is a parameter. A failure of `res.text()` is not modelled.
- The form's `onChange` setters and React's re-rendering are not modelled. `record()` reads the fields as they are when it is called.
- `components/TabbedApp.tsx` is not part of this model apart from its `MealType` and `RecordRow` shapes. It holds the refresh `fetch` and the tab toggle.
- Concurrency: every operation is sequential, as better-sqlite3 is synchronous.
- A `meal_type` text other than the two labels cannot be stored in the model, because rows carry a `MealType`. The views' filters would drop such rows.
