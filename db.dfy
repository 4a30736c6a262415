/**
 * The record store of lib/db.ts: a lazily opened SQLite database holding one
 * `records` table with an AUTOINCREMENT id.  The table is kept in memory as
 * its rows in rowid order plus the AUTOINCREMENT counter; the clock is a
 * parameter of the insert.
 */
module Db {
  import opened Wrappers
  import opened JsText
  import opened Records

  /** The argument of `insertRecord`: `{ mealType, sugarLevel, comment? }`. */
  datatype InsertInput = InsertInput(meal: MealType, level: int, comment: Option<string>)

  /**
   * What the database file holds: the rows of `records` in rowid order and
   * the largest id AUTOINCREMENT has handed out (`sqlite_sequence`, 0 before
   * the first insert).
   */
  datatype Table = Table(rows: seq<Row>, lastId: nat)

  /**
   * The table `openDb` finds: `CREATE TABLE IF NOT EXISTS` leaves an existing
   * table as it is and otherwise creates an empty one.
   */
  function Stored(file: Option<Table>): (t: Table)
    ensures file.None? ==> t.rows == [] && t.lastId == 0
    ensures file.Some? ==> t == file.value
  {
    match file
    case None => Table([], 0)
    case Some(table) => table
  }

  /** No two rows share an id, and no row occurs twice (`id INTEGER PRIMARY KEY`). */
  ghost predicate IdsUnique(m: multiset<Row>)
  {
    (forall a :: a in m ==> m[a] == 1) &&
    (forall a, b :: a in m && b in m && a.id == b.id ==> a == b)
  }

  // ----- comment normalisation ---------------------------------------------

  /** `input.comment?.trim() ? input.comment.trim() : null`. */
  function NormalizeComment(c: Option<string>): (r: Option<string>)
    ensures r.None? <==> c.None? || AllWhitespace(c.value)
    ensures r.Some? ==> r.value == Trim(c.value) && r.value != [] &&
                        !IsWhitespace(r.value[0]) && !IsWhitespace(r.value[|r.value| - 1])
  {
    match c
    case None => None
    case Some(s) =>
      TrimEmptyIffAllWhitespace(s);
      if Trim(s) != "" then Some(Trim(s)) else None
  }

  /** A stored comment normalises to itself. */
  lemma NormalizeCommentIdempotent(c: Option<string>)
    ensures NormalizeComment(NormalizeComment(c)) == NormalizeComment(c)
  {
    if NormalizeComment(c).Some? {
      TrimKeepsTrimmed(NormalizeComment(c).value);
    }
  }

  // ----- ids -----------------------------------------------------------------

  /** The largest id among the rows, or 0. */
  function MaxId(rows: seq<Row>): (m: nat)
    ensures forall i :: 0 <= i < |rows| ==> rows[i].id <= m
  {
    if rows == [] then 0
    else
      var rest := MaxId(rows[1..]);
      if rows[0].id > rest then rows[0].id else rest
  }

  /**
   * The id AUTOINCREMENT gives the next row: one more than the largest id the
   * table has ever held, i.e. than both `sqlite_sequence` and every live rowid.
   */
  function NextRowId(rows: seq<Row>, lastId: nat): (id: nat)
    ensures id > lastId
    ensures forall i :: 0 <= i < |rows| ==> rows[i].id < id
  {
    (if lastId > MaxId(rows) then lastId else MaxId(rows)) + 1
  }

  /** `SELECT ... FROM records WHERE id = ?`: the first row with that id. */
  function RowWithId(rows: seq<Row>, id: int): (r: Option<Row>)
    ensures r.Some? ==> r.value in rows && r.value.id == id
    ensures r.None? ==> forall i :: 0 <= i < |rows| ==> rows[i].id != id
  {
    if rows == [] then None
    else if rows[0].id == id then Some(rows[0])
    else RowWithId(rows[1..], id)
  }

  // ----- listing order -------------------------------------------------------

  /** `datetime(created_at)`: the creation instant truncated to whole seconds. */
  function Second(r: Row): (s: int)
    ensures s * 1000 <= r.createdAt < s * 1000 + 1000
  {
    r.createdAt / 1000
  }

  /** `ORDER BY datetime(created_at) ASC, id ASC`: a may be listed before b. */
  predicate ListedBefore(a: Row, b: Row)
  {
    Second(a) < Second(b) || (Second(a) == Second(b) && a.id <= b.id)
  }

  /**
   * ORDER BY on (second, id) is a total order, and on rows with different
   * ids it never ties.
   */
  lemma ListedBeforeIsTotal(a: Row, b: Row)
    ensures ListedBefore(a, b) || ListedBefore(b, a)
    ensures ListedBefore(a, b) && ListedBefore(b, a) ==> Second(a) == Second(b) && a.id == b.id
  {
  }

  /** s is in listing order. */
  predicate InListingOrder(s: seq<Row>)
  {
    forall i, j :: 0 <= i < j < |s| ==> ListedBefore(s[i], s[j])
  }

  /** The rows after the first of an ordered sequence are in order. */
  lemma TailInOrder(s: seq<Row>)
    requires InListingOrder(s) && s != []
    ensures InListingOrder(s[1..])
  {
    forall i, j | 0 <= i < j < |s[1..]| ensures ListedBefore(s[1..][i], s[1..][j]) {
      assert s[1..][i] == s[i + 1] && s[1..][j] == s[j + 1];
    }
  }

  /** The first row of an ordered sequence may be listed before every other row. */
  lemma FirstPrecedesRest(s: seq<Row>)
    requires InListingOrder(s) && s != []
    ensures forall x :: x in multiset(s[1..]) ==> ListedBefore(s[0], x)
  {
    forall x | x in multiset(s[1..]) ensures ListedBefore(s[0], x) {
      var k :| 0 <= k < |s[1..]| && s[1..][k] == x;
      assert s[k + 1] == x;
    }
  }

  /** A row that may precede every row of an ordered sequence can head it. */
  lemma ConsInOrder(h: Row, t: seq<Row>)
    requires InListingOrder(t)
    requires forall x :: x in multiset(t) ==> ListedBefore(h, x)
    ensures InListingOrder([h] + t)
  {
    var s := [h] + t;
    forall i, j | 0 <= i < j < |s| ensures ListedBefore(s[i], s[j]) {
      assert s[j] == t[j - 1] && t[j - 1] in multiset(t);
      if i > 0 { assert s[i] == t[i - 1]; }
    }
  }

  /** r placed into an ordered sequence at its place. */
  function InsertInOrder(r: Row, s: seq<Row>): (t: seq<Row>)
    requires InListingOrder(s)
    ensures InListingOrder(t)
    ensures multiset(t) == multiset(s) + multiset{r}
  {
    if s == [] then [r]
    else if ListedBefore(r, s[0]) then
      ConsInOrder(r, s);
      [r] + s
    else
      TailInOrder(s);
      FirstPrecedesRest(s);
      var rest := InsertInOrder(r, s[1..]);
      assert s == [s[0]] + s[1..];
      ConsInOrder(s[0], rest);
      [s[0]] + rest
  }

  /** The rows `listRecords` returns, in order. */
  function Listing(rows: seq<Row>): (s: seq<Row>)
    ensures InListingOrder(s)
    ensures multiset(s) == multiset(rows)
  {
    if rows == [] then []
    else
      assert rows == [rows[0]] + rows[1..];
      InsertInOrder(rows[0], Listing(rows[1..]))
  }

  /** Two ordered arrangements of the same rows with unique ids start with the same row. */
  lemma OrderedSameFirst(s: seq<Row>, t: seq<Row>)
    requires InListingOrder(s) && InListingOrder(t) && s != []
    requires multiset(s) == multiset(t) && IdsUnique(multiset(s))
    ensures t != [] && s[0] == t[0]
  {
    assert s[0] in multiset(t);
    assert t != [] && t[0] in multiset(s);
    var k :| 0 <= k < |t| && t[k] == s[0];
    var m :| 0 <= m < |s| && s[m] == t[0];
    assert ListedBefore(t[0], s[0]) by { if k > 0 { assert ListedBefore(t[0], t[k]); } }
    assert ListedBefore(s[0], t[0]) by { if m > 0 { assert ListedBefore(s[0], s[m]); } }
  }

  /** Dropping the first row keeps ids unique. */
  lemma TailIdsUnique(s: seq<Row>)
    requires s != [] && IdsUnique(multiset(s))
    ensures IdsUnique(multiset(s[1..]))
    ensures multiset(s[1..]) == multiset(s) - multiset{s[0]}
  {
    assert s == [s[0]] + s[1..];
    forall a | a in multiset(s[1..]) ensures multiset(s[1..])[a] == 1 {
      assert multiset(s)[a] == multiset(s[1..])[a] + (if a == s[0] then 1 else 0);
    }
  }

  /** What is left of two ordered arrangements after their common first row. */
  lemma OrderedTails(s: seq<Row>, t: seq<Row>)
    requires InListingOrder(s) && InListingOrder(t) && s != [] && t != [] && s[0] == t[0]
    requires multiset(s) == multiset(t) && IdsUnique(multiset(s))
    ensures InListingOrder(s[1..]) && InListingOrder(t[1..])
    ensures multiset(s[1..]) == multiset(t[1..]) && IdsUnique(multiset(s[1..]))
  {
    TailIdsUnique(s);
    TailIdsUnique(t);
    TailInOrder(s);
    TailInOrder(t);
  }

  /** Two ordered sequences of the same rows with unique ids are the same sequence. */
  lemma {:induction false} OrderedIsUnique(s: seq<Row>, t: seq<Row>)
    requires InListingOrder(s) && InListingOrder(t)
    requires multiset(s) == multiset(t) && IdsUnique(multiset(s))
    ensures s == t
  {
    if s != [] {
      OrderedSameFirst(s, t);
      OrderedTails(s, t);
      OrderedIsUnique(s[1..], t[1..]);
      assert s == [s[0]] + s[1..] && t == [t[0]] + t[1..];
    }
  }

  /**
   * `listRecords` is fully determined by ORDER BY: the listing is the one
   * ordered arrangement of the stored rows.
   */
  lemma ListingIsTheOrder(rows: seq<Row>, s: seq<Row>)
    requires IdsUnique(multiset(rows))
    requires InListingOrder(s) && multiset(s) == multiset(rows)
    ensures s == Listing(rows)
  {
    OrderedIsUnique(s, Listing(rows));
  }

  /** The listing does not depend on the order in which the rows were stored. */
  lemma ListingIgnoresStorageOrder(a: seq<Row>, b: seq<Row>)
    requires IdsUnique(multiset(a)) && multiset(a) == multiset(b)
    ensures Listing(a) == Listing(b)
  {
    ListingIsTheOrder(b, Listing(a));
  }

  /** Keeping only the rows of one meal type keeps listing order. */
  lemma {:induction false} ListingOrderSurvivesFilter(rows: seq<Row>, m: MealType)
    requires InListingOrder(rows)
    ensures InListingOrder(OfMeal(rows, m))
  {
    if rows != [] {
      var rest := rows[1..];
      TailInOrder(rows);
      ListingOrderSurvivesFilter(rest, m);
      if rows[0].meal == m {
        var kept := OfMeal(rest, m);
        forall k | 0 <= k < |kept| ensures ListedBefore(rows[0], kept[k]) {
          assert kept[k] in rest;
          var q :| 0 <= q < |rest| && rest[q] == kept[k];
          assert rows[q + 1] == kept[k];
        }
      }
    }
  }

  /** No two positions of rows hold the same id. */
  predicate DistinctIds(rows: seq<Row>)
  {
    forall i, j :: 0 <= i < |rows| && 0 <= j < |rows| && i != j ==> rows[i].id != rows[j].id
  }

  /** Rows with pairwise distinct ids are a set of rows with unique ids. */
  lemma {:induction false} DistinctIdsAreUnique(rows: seq<Row>)
    requires DistinctIds(rows)
    ensures IdsUnique(multiset(rows))
  {
    if rows != [] {
      var rest := rows[1..];
      assert rows == [rows[0]] + rest;
      assert DistinctIds(rest) by {
        forall i, j | 0 <= i < |rest| && 0 <= j < |rest| && i != j ensures rest[i].id != rest[j].id {
          assert rest[i] == rows[i + 1] && rest[j] == rows[j + 1];
        }
      }
      DistinctIdsAreUnique(rest);
      assert forall x :: x in rest ==> x.id != rows[0].id by {
        forall x | x in rest ensures x.id != rows[0].id {
          var k :| 0 <= k < |rest| && rest[k] == x;
          assert rows[k + 1] == x;
        }
      }
      assert rows[0] !in multiset(rest);
    }
  }

  /** Appending a row with a larger id than every stored row keeps ids distinct. */
  lemma AppendFreshId(rows: seq<Row>, row: Row)
    requires DistinctIds(rows)
    requires forall i :: 0 <= i < |rows| ==> rows[i].id < row.id
    ensures DistinctIds(rows + [row])
  {
  }

  // ----- the database handle -------------------------------------------------

  /** An open database handle (`new Database(path)` after `openDb`). */
  class Database {
    var rows: seq<Row>
    var lastId: nat

    /** `openDb`: opens the file and makes sure the `records` table exists. */
    constructor Open(file: Option<Table>)
      ensures rows == Stored(file).rows && lastId == Stored(file).lastId
    {
      rows := Stored(file).rows;
      lastId := Stored(file).lastId;
    }

    /** The INSERT statement; returns `lastInsertRowid`. */
    method Insert(meal: MealType, level: int, comment: Option<string>, createdAt: int)
      returns (id: nat)
      modifies this
      ensures id == NextRowId(old(rows), old(lastId))
      ensures rows == old(rows) + [Row(id, meal, level, comment, createdAt)]
      ensures lastId == id
    {
      id := NextRowId(rows, lastId);
      rows := rows + [Row(id, meal, level, comment, createdAt)];
      lastId := id;
    }
  }

  // ----- the module state: `_db` and the operations on it --------------------

  /**
   * The module-level state of lib/db.ts: the handle `_db`, null until the
   * first `getDb`, and the file that opening it would find.
   */
  class RecordStore {
    const file: Option<Table>
    var db: Database?
    /** How many times `openDb` has run. */
    ghost var opens: nat

    /** The rows of the table, whether or not the file has been opened yet. */
    ghost function Rows(): seq<Row>
      reads this, db
    {
      if db == null then Stored(file).rows else db.rows
    }

    /** The AUTOINCREMENT counter of the table. */
    ghost function LastId(): nat
      reads this, db
    {
      if db == null then Stored(file).lastId else db.lastId
    }

    ghost predicate Valid()
      reads this, db
    {
      DistinctIds(Rows()) &&
      opens == (if db == null then 0 else 1)
    }

    /** Module load: `_db` is null. */
    constructor(file: Option<Table>)
      requires DistinctIds(Stored(file).rows)
      ensures Valid() && this.file == file && db == null && opens == 0
    {
      this.file := file;
      db := null;
      opens := 0;
    }

    /** `getDb`: opens the database on first use and returns the same handle ever after. */
    method GetDb() returns (d: Database)
      requires Valid()
      modifies this
      ensures Valid() && db == d
      ensures old(db) != null ==> d == old(db) && opens == old(opens)
      ensures old(db) == null ==> fresh(d) && opens == old(opens) + 1
      ensures opens == 1
      ensures Rows() == old(Rows()) && LastId() == old(LastId())
    {
      if db != null {
        return db;
      }
      d := new Database.Open(file);
      db := d;
      opens := opens + 1;
    }

    /** `listRecords`: every stored row, by creation second and then id. */
    method ListRecords() returns (s: seq<Row>)
      requires Valid()
      modifies this
      ensures Valid() && db != null
      ensures old(db) != null ==> db == old(db)
      ensures old(db) == null ==> fresh(db)
      ensures Rows() == old(Rows()) && LastId() == old(LastId())
      ensures s == Listing(Rows())
    {
      var d := GetDb();
      s := Listing(d.rows);
    }

    /**
     * `insertRecord`: stamps the row with `now`, normalises the comment,
     * inserts it and returns the row read back by its new id.
     */
    method InsertRecord(input: InsertInput, now: int) returns (row: Row)
      requires Valid()
      modifies this, db
      ensures Valid() && db != null
      ensures old(db) != null ==> db == old(db)
      ensures old(db) == null ==> fresh(db)
      ensures row.meal == input.meal && row.level == input.level
      ensures row.comment == NormalizeComment(input.comment) && row.createdAt == now
      ensures row.id > old(LastId())
      ensures forall r :: r in old(Rows()) ==> r.id < row.id
      ensures Rows() == old(Rows()) + [row] && LastId() == row.id
    {
      var d := GetDb();
      var comment := NormalizeComment(input.comment);
      ghost var before := d.rows;
      var id := d.Insert(input.meal, input.level, comment, now);
      var inserted := Row(id, input.meal, input.level, comment, now);
      var found := RowWithId(d.rows, id);
      assert d.rows[|d.rows| - 1] == inserted;
      assert forall x :: x in before ==> x.id != id;
      assert found == Some(inserted);
      row := found.value;
      AppendFreshId(before, row);
    }
  }

  /** Two rows already in listing order, with different ids, list as they are. */
  lemma TwoRowListing(a: Row, b: Row)
    requires Second(a) < Second(b) && a.id != b.id
    ensures Listing([a, b]) == [a, b]
  {
    DistinctIdsAreUnique([a, b]);
    ListingIsTheOrder([a, b], [a, b]);
  }

  /** Rows created at least a second apart fall in different seconds, in that order. */
  lemma SecondsApart(a: Row, b: Row)
    requires a.createdAt + 1000 <= b.createdAt
    ensures Second(a) < Second(b)
  {
  }

  /** The comment "test" is stored as it is. */
  lemma TestCommentKept()
    ensures NormalizeComment(Some("test")) == Some("test")
  {
    TrimKeepsTrimmed("test");
  }

  /**
   * The two inserts of the insert-and-list scenario of lib/db.test.ts: a
   * reading taken on an empty stomach on 2026-01-01 and one after a meal on
   * 2026-01-02, into a store whose file holds no table yet.
   */
  method InsertTwoReadings(store: RecordStore) returns (first: Row, second: Row)
    requires store.Valid() && store.db == null && store.file == None
    modifies store
    ensures store.Valid() && store.db != null && fresh(store.db)
    ensures store.Rows() == [first, second]
    ensures first.meal == EmptyStomach && first.level == 90 && first.comment == Some("test")
    ensures second.meal == AfterMeal && second.level == 130 && second.comment == None
    ensures first.createdAt == 1767225600000 && second.createdAt == 1767312000000
    ensures first.id < second.id
  {
    first := InsertFirstReading(store);
    second := store.InsertRecord(InsertInput(AfterMeal, 130, None), 1767312000000);
    PairOf(first, second);
  }

  /** The first insert of the scenario: it opens the database and stores one row. */
  method InsertFirstReading(store: RecordStore) returns (first: Row)
    requires store.Valid() && store.db == null && store.file == None
    modifies store
    ensures store.Valid() && store.db != null && fresh(store.db)
    ensures store.Rows() == [first]
    ensures first.meal == EmptyStomach && first.level == 90 && first.comment == Some("test")
    ensures first.createdAt == 1767225600000
  {
    TestCommentKept();
    first := store.InsertRecord(InsertInput(EmptyStomach, 90, Some("test")), 1767225600000);
  }

  /** One row followed by another is the two-row sequence. */
  lemma PairOf(a: Row, b: Row)
    ensures [a] + [b] == [a, b]
  {
  }

  /**
   * The insert-and-list scenario of lib/db.test.ts: the two readings list in
   * the order they were taken, with their values; listing again gives the
   * same rows.
   */
  method InsertThenListScenario() returns (listed: seq<Row>, again: seq<Row>)
    ensures |listed| == 2
    ensures listed[0].meal == EmptyStomach && listed[0].level == 90 && listed[0].comment == Some("test")
    ensures listed[1].meal == AfterMeal && listed[1].level == 130 && listed[1].comment == None
    ensures listed[0].id < listed[1].id
    ensures again == listed
  {
    var store := new RecordStore(None);
    var first, second := InsertTwoReadings(store);
    SecondsApart(first, second);
    TwoRowListing(first, second);
    listed := store.ListRecords();
    again := store.ListRecords();
  }
}
