/**
 * The `recipes` table: rows keyed by their serial id, the listing order
 * `ORDER BY created_at DESC, id DESC`, and the store operations the request
 * handlers and the bootstrap script perform on it.
 */
module Store {
  import opened Wrappers

  /** One row of `recipes`; `createdAt` is the database clock reading at insert time. */
  datatype Recipe = Recipe(id: int, title: string, minutes: int, description: string, createdAt: nat)

  // ---------------------------------------------------------------- column values

  /** The range of PostgreSQL's `INTEGER`, the type of the `minutes` column. */
  const MinInt32 := -0x8000_0000
  const MaxInt32 := 0x7FFF_FFFF

  /** A `minutes` value the table accepts: an `INTEGER` meeting the check constraint `minutes >= 1`. */
  predicate Storable(minutes: int) {
    MinInt32 <= minutes <= MaxInt32 && minutes >= 1
  }

  /** What a write to an existing row reports. */
  datatype Outcome = Written | Missing | Refused

  // ---------------------------------------------------------------- listing order

  /** `a` is listed before `b`: newer `created_at` first, then the larger id. */
  predicate Before(a: Recipe, b: Recipe) {
    a.createdAt > b.createdAt || (a.createdAt == b.createdAt && a.id > b.id)
  }

  /** Strictly in listing order (so no record appears twice). */
  predicate SortedDesc(s: seq<Recipe>) {
    forall i, j :: 0 <= i < j < |s| ==> Before(s[i], s[j])
  }

  /** Putting a record in front of a sorted listing keeps it sorted when it comes before every entry. */
  lemma ConsSorted(a: Recipe, t: seq<Recipe>)
    requires SortedDesc(t)
    requires forall y :: y in t ==> Before(a, y)
    ensures SortedDesc([a] + t)
  {
    var u := [a] + t;
    forall i, j | 0 <= i < j < |u|
      ensures Before(u[i], u[j])
    {
      assert u[j] == t[j - 1];
      if i > 0 {
        assert u[i] == t[i - 1];
      }
    }
  }

  /** The first entry of a sorted listing comes before every other entry. */
  lemma HeadBeforeRest(s: seq<Recipe>)
    requires SortedDesc(s) && s != []
    ensures forall y :: y in s[1..] ==> Before(s[0], y)
  {
    forall y | y in s[1..]
      ensures Before(s[0], y)
    {
      var i :| 0 <= i < |s| - 1 && s[1..][i] == y;
      assert s[i + 1] == y;
    }
  }

  /** Inserting in front: `x` precedes the head, hence every entry. */
  lemma InsertInFront(x: Recipe, s: seq<Recipe>)
    requires SortedDesc(s) && s != [] && Before(x, s[0])
    ensures SortedDesc([x] + s)
  {
    HeadBeforeRest(s);
    assert s == [s[0]] + s[1..];
    ConsSorted(x, s);
  }

  /** Inserting further down: the head stays in front of `x` and of the rest. */
  lemma InsertBehindHead(x: Recipe, s: seq<Recipe>, t: seq<Recipe>)
    requires SortedDesc(s) && s != [] && !Before(x, s[0]) && x.id != s[0].id
    requires SortedDesc(t) && multiset(t) == multiset(s[1..]) + multiset{x}
    ensures SortedDesc([s[0]] + t)
    ensures multiset([s[0]] + t) == multiset(s) + multiset{x}
  {
    HeadBeforeRest(s);
    forall y | y in t
      ensures Before(s[0], y)
    {
      assert y in multiset(t);
      assert y == x || y in multiset(s[1..]);
    }
    ConsSorted(s[0], t);
    assert s == [s[0]] + s[1..];
  }

  /** Places `x` into a sorted listing; `x`'s id is not yet listed. */
  function InsertSorted(x: Recipe, s: seq<Recipe>): (r: seq<Recipe>)
    requires SortedDesc(s)
    requires forall y :: y in s ==> y.id != x.id
    ensures SortedDesc(r)
    ensures multiset(r) == multiset(s) + multiset{x}
  {
    if s == [] then [x]
    else if Before(x, s[0]) then
      InsertInFront(x, s);
      [x] + s
    else
      assert s[0] in s;
      var t := InsertSorted(x, s[1..]);
      InsertBehindHead(x, s, t);
      [s[0]] + t
  }

  /** No id occurs twice in `s`. */
  predicate DistinctIds(s: seq<Recipe>) {
    forall i, j :: 0 <= i < j < |s| ==> s[i].id != s[j].id
  }

  /** With distinct ids, the tail has distinct ids and none equal to the head's. */
  lemma DistinctTail(s: seq<Recipe>)
    requires DistinctIds(s) && s != []
    ensures DistinctIds(s[1..])
    ensures forall y :: y in multiset(s[1..]) ==> y.id != s[0].id
  {
    forall y | y in multiset(s[1..])
      ensures y.id != s[0].id
    {
      var i :| 0 <= i < |s| - 1 && s[1..][i] == y;
      assert s[i + 1] == y;
    }
  }

  /** A rearrangement of the tail holds no record with the head's id. */
  lemma MembersKeepIds(s: seq<Recipe>, t: seq<Recipe>)
    requires s != [] && multiset(t) == multiset(s[1..])
    requires forall y :: y in multiset(s[1..]) ==> y.id != s[0].id
    ensures forall y :: y in t ==> y.id != s[0].id
  {
    forall y | y in t
      ensures y.id != s[0].id
    {
      assert y in multiset(t);
    }
  }

  /** Adding the head back to a rearrangement of the tail gives the whole. */
  lemma HeadAndTail(s: seq<Recipe>, t: seq<Recipe>, r: seq<Recipe>)
    requires s != [] && multiset(t) == multiset(s[1..])
    requires multiset(r) == multiset(t) + multiset{s[0]}
    ensures multiset(r) == multiset(s)
  {
    assert s == [s[0]] + s[1..];
  }

  /** Sorts rows with distinct ids into listing order. */
  function SortDesc(s: seq<Recipe>): (r: seq<Recipe>)
    requires DistinctIds(s)
    ensures SortedDesc(r)
    ensures multiset(r) == multiset(s)
  {
    if s == [] then []
    else
      DistinctTail(s);
      var t := SortDesc(s[1..]);
      MembersKeepIds(s, t);
      var r := InsertSorted(s[0], t);
      HeadAndTail(s, t, r);
      r
  }

  // ---------------------------------------------------------------- the table's rows

  /** Every row is stored under its own id, and ids come from the serial sequence below `bound`. */
  predicate Keyed(rows: map<int, Recipe>, bound: int) {
    forall id :: id in rows ==> 1 <= id < bound && rows[id].id == id
  }

  /** The rows whose id is below `k`, largest id first. */
  function RowsBelow(rows: map<int, Recipe>, k: int): (s: seq<Recipe>)
    requires forall id :: id in rows ==> rows[id].id == id
    ensures forall i, j :: 0 <= i < j < |s| ==> s[i].id > s[j].id
    ensures forall x :: x in s ==> x.id in rows && rows[x.id] == x && x.id < k
    ensures forall id :: id in rows && 1 <= id < k ==> rows[id] in s
    decreases k
  {
    if k <= 1 then []
    else if k - 1 in rows then [rows[k - 1]] + RowsBelow(rows, k - 1)
    else RowsBelow(rows, k - 1)
  }

  /** The result of `session.query(Recipe).order_by(Recipe.created_at.desc(), Recipe.id.desc())`. */
  function Listing(rows: map<int, Recipe>, bound: int): (r: seq<Recipe>)
    requires Keyed(rows, bound)
    ensures SortedDesc(r)
    ensures forall x :: x in r ==> x.id in rows && rows[x.id] == x
    ensures forall id :: id in rows ==> rows[id] in r
  {
    var s := RowsBelow(rows, bound);
    var r := SortDesc(s);
    assert forall x :: x in r <==> x in multiset(s);
    r
  }

  /**
   * The listing order determines the listing: two strictly ordered sequences of the
   * same records are equal.
   */
  lemma {:induction false} SortedUnique(s: seq<Recipe>, t: seq<Recipe>)
    requires SortedDesc(s) && SortedDesc(t)
    requires forall x :: x in s <==> x in t
    ensures s == t
  {
    if t != [] {
      assert t[0] in t;
    }
    if s != [] {
      assert s[0] in t;
      assert t[0] in s;
      forall x
        ensures x in s[1..] <==> x in t[1..]
      {
        if x in s[1..] {
          var i :| 0 <= i < |s| - 1 && s[1..][i] == x;
          assert Before(s[0], s[i + 1]);
          assert s[i + 1] in s;
          var j :| 0 <= j < |t| && t[j] == x;
          assert j != 0;
          assert t[1..][j - 1] == x;
        }
        if x in t[1..] {
          var j :| 0 <= j < |t| - 1 && t[1..][j] == x;
          assert Before(t[0], t[j + 1]);
          assert t[j + 1] in t;
          var i :| 0 <= i < |s| && s[i] == x;
          assert i != 0;
          assert s[1..][i - 1] == x;
        }
      }
      SortedUnique(s[1..], t[1..]);
      assert s == [s[0]] + s[1..] && t == [t[0]] + t[1..];
    }
  }

  /**
   * A record newer than, or as new as and with a larger id than, every other
   * listed record is listed first.
   */
  lemma NewestListedFirst(s: seq<Recipe>, x: Recipe)
    requires SortedDesc(s) && x in s
    requires forall y :: y in s && y != x ==> Before(x, y)
    ensures s[0] == x
  {
    assert s[0] in s;
  }

  /**
   * A record created after every listed one, with the next serial id, is listed
   * first once inserted.
   */
  lemma ListingAfterInsert(rows: map<int, Recipe>, bound: int, x: Recipe)
    requires Keyed(rows, bound) && 1 <= bound && x.id == bound
    requires forall id :: id in rows ==> rows[id].createdAt <= x.createdAt
    ensures Keyed(rows[bound := x], bound + 1)
    ensures |Listing(rows[bound := x], bound + 1)| > 0
    ensures Listing(rows[bound := x], bound + 1)[0] == x
  {
    var after := rows[bound := x];
    var s := Listing(after, bound + 1);
    assert after[bound] == x;
    forall y | y in s && y != x
      ensures Before(x, y)
    {
      assert y.id in rows;
    }
    NewestListedFirst(s, x);
  }

  /** Changing a record without touching its id or `created_at` keeps the listing sorted in place. */
  lemma ReplaceKeepsSorted(s: seq<Recipe>, k: nat, y: Recipe)
    requires SortedDesc(s) && k < |s|
    requires y.id == s[k].id && y.createdAt == s[k].createdAt
    ensures SortedDesc(s[k := y])
  {
    var t := s[k := y];
    forall i, j | 0 <= i < j < |t|
      ensures Before(t[i], t[j])
    {
      assert Before(s[i], s[j]);
    }
  }

  /** Every entry of the old listing, with the edited record replaced, is in the new listing. */
  lemma EditedListingCovers(rows: map<int, Recipe>, bound: int, k: nat, y: Recipe, t: seq<Recipe>)
    requires Keyed(rows, bound)
    requires k < |Listing(rows, bound)|
    requires y.id == Listing(rows, bound)[k].id && y.createdAt == Listing(rows, bound)[k].createdAt
    requires t == Listing(rows, bound)[k := y]
    ensures Keyed(rows[y.id := y], bound)
    ensures forall x :: x in t ==> x in Listing(rows[y.id := y], bound)
  {
    var before := Listing(rows, bound);
    var edited := rows[y.id := y];
    var after := Listing(edited, bound);
    assert edited[y.id] == y;
    forall x | x in before[k := y]
      ensures x in after
    {
      var i :| 0 <= i < |before| && before[k := y][i] == x;
      if i != k {
        assert Before(before[i], before[k]) || Before(before[k], before[i]);
        assert edited[x.id] == x;
      }
    }
  }

  /** Every entry of the new listing is in the old listing with the edited record replaced. */
  lemma EditedListingWithin(rows: map<int, Recipe>, bound: int, k: nat, y: Recipe, t: seq<Recipe>)
    requires Keyed(rows, bound)
    requires k < |Listing(rows, bound)|
    requires y.id == Listing(rows, bound)[k].id && y.createdAt == Listing(rows, bound)[k].createdAt
    requires t == Listing(rows, bound)[k := y]
    ensures Keyed(rows[y.id := y], bound)
    ensures forall x :: x in Listing(rows[y.id := y], bound) ==> x in t
  {
    var before := Listing(rows, bound);
    var after := Listing(rows[y.id := y], bound);
    forall x | x in after
      ensures x in before[k := y]
    {
      if x.id != y.id {
        assert rows[x.id] == x;
        var i :| 0 <= i < |before| && before[i] == x;
        assert before[k := y][i] == x;
      } else {
        assert before[k := y][k] == y;
      }
    }
  }

  /**
   * Editing a record's title, minutes or description leaves every record at its
   * place in the listing: the new listing is the old one with that record replaced.
   */
  lemma ListingAfterEdit(rows: map<int, Recipe>, bound: int, k: nat, y: Recipe)
    requires Keyed(rows, bound)
    requires k < |Listing(rows, bound)|
    requires y.id == Listing(rows, bound)[k].id && y.createdAt == Listing(rows, bound)[k].createdAt
    ensures Keyed(rows[y.id := y], bound)
    ensures Listing(rows[y.id := y], bound) == Listing(rows, bound)[k := y]
  {
    ReplaceKeepsSorted(Listing(rows, bound), k, y);
    EditedListingCovers(rows, bound, k, y, Listing(rows, bound)[k := y]);
    EditedListingWithin(rows, bound, k, y, Listing(rows, bound)[k := y]);
    SortedUnique(Listing(rows, bound)[k := y], Listing(rows[y.id := y], bound));
  }

  // ---------------------------------------------------------------- seed rows

  /** The two sample rows db_init.py inserts, in one statement and so at one `now()`. */
  function SeedRows(firstId: int, now: nat): (seed: seq<Recipe>)
    ensures |seed| == 2 && seed[0].id == firstId && seed[1].id == firstId + 1
    ensures forall r :: r in seed ==> Storable(r.minutes) && r.createdAt == now
  {
    [ Recipe(firstId, "卵焼き", 10, "卵・砂糖・塩を混ぜて焼くシンプルな定番。", now),
      Recipe(firstId + 1, "味噌汁", 15, "出汁を取り、味噌を溶き、豆腐とわかめを加える。", now) ]
  }

  /** The rows after seeding: the seed rows when the table was empty, else the rows untouched. */
  function Seeded(rows: map<int, Recipe>, nextId: int, now: nat): (r: map<int, Recipe>)
    ensures |rows| != 0 ==> r == rows
    ensures |rows| == 0 ==> r.Keys == {nextId, nextId + 1} && |r| == 2
    ensures |rows| == 0 ==>
      forall id :: id in r ==> r[id].id == id && Storable(r[id].minutes) && r[id].createdAt == now
  {
    if |rows| == 0 then
      var seed := SeedRows(nextId, now);
      var m := map[seed[0].id := seed[0], seed[1].id := seed[1]];
      assert m.Keys == {nextId} + {nextId + 1};
      m
    else rows
  }

  /** A second seeding sees a non-zero count and changes nothing. */
  lemma SeedingIdempotent(rows: map<int, Recipe>, nextId: int, now: nat, nextId': int, now': nat)
    ensures Seeded(Seeded(rows, nextId, now), nextId', now') == Seeded(rows, nextId, now)
  {
    if |rows| == 0 {
      assert nextId in Seeded(rows, nextId, now);
    }
  }

  // ---------------------------------------------------------------- the store

  /**
   * The database behind the engine: whether the `recipes` table exists, its rows,
   * the next value of the `id` serial sequence, and the clock `now()` reads.
   */
  class RecipeStore {
    var tableExists: bool
    var rows: map<int, Recipe>
    var nextId: int
    var clock: nat

    /**
     * The schema's guarantees: no table means no rows and a sequence not yet
     * created (`SERIAL` starts at 1), serial ids, storable minutes, and no row
     * stamped in the future.
     */
    ghost predicate Valid()
      reads this
    {
      && (!tableExists ==> rows == map[] && nextId == 1)
      && 1 <= nextId
      && Keyed(rows, nextId)
      && (forall id :: id in rows ==> Storable(rows[id].minutes) && rows[id].createdAt <= clock)
    }

    /** A database without the `recipes` table. */
    constructor ()
      ensures Valid() && !tableExists && rows == map[] && nextId == 1 && clock == 0
    {
      tableExists, rows, nextId, clock := false, map[], 1, 0;
    }

    /** The records in listing order. */
    function List(): (r: seq<Recipe>)
      reads this
      requires Valid()
      ensures SortedDesc(r)
      ensures forall x :: x in r ==> x.id in rows && rows[x.id] == x
      ensures forall id :: id in rows ==> rows[id] in r
      ensures forall x :: x in r ==> Storable(x.minutes)
    {
      Listing(rows, nextId)
    }

    /** Time passes between requests. */
    method AdvanceClock(elapsed: nat)
      requires Valid()
      modifies this`clock
      ensures Valid() && clock == old(clock) + elapsed
    {
      clock := clock + elapsed;
    }

    /** `CREATE TABLE IF NOT EXISTS recipes (...)`: an existing table keeps its rows. */
    method EnsureTable()
      requires Valid()
      modifies this`tableExists
      ensures Valid() && tableExists && rows == old(rows)
    {
      if !tableExists {
        tableExists := true;
      }
    }

    /**
     * `INSERT INTO recipes (title, minutes, description)`: the id is drawn from the
     * serial sequence and `created_at` from the clock.  The database refuses a
     * value that is not storable, and `None` stands for that error.  A value
     * outside `INTEGER` fails its cast while the statement is planned, before the
     * sequence is read; an `INTEGER` below 1 fails the check constraint after the
     * row is formed, so its id is spent.
     */
    method Insert(title: string, minutes: int, description: string) returns (id: Option<int>)
      requires Valid() && tableExists
      modifies this`rows, this`nextId
      ensures Valid()
      ensures nextId == if MinInt32 <= minutes <= MaxInt32 then old(nextId) + 1 else old(nextId)
      ensures !Storable(minutes) ==> id == None && rows == old(rows)
      ensures Storable(minutes) ==> id == Some(old(nextId)) && old(nextId) !in old(rows)
      ensures Storable(minutes) ==>
        rows == old(rows)[old(nextId) := Recipe(old(nextId), title, minutes, description, clock)]
      ensures Storable(minutes) ==> |rows| == |old(rows)| + 1
      ensures Storable(minutes) ==> List()[0] == rows[old(nextId)]
    {
      var newId := nextId;
      if !(MinInt32 <= minutes <= MaxInt32) {
        id := None;
        return;
      }
      if minutes < 1 {
        nextId := nextId + 1;
        id := None;
        return;
      }
      var record := Recipe(newId, title, minutes, description, clock);
      ListingAfterInsert(rows, newId, record);
      rows := rows[newId := record];
      nextId := nextId + 1;
      id := Some(newId);
    }

    /**
     * `session.get(Recipe, id)` followed by assigning title, minutes and
     * description and committing: an absent id changes nothing; the database
     * refuses a value that is not storable (`Refused` stands for that error);
     * id and `created_at` are never touched.
     */
    method Update(id: int, title: string, minutes: int, description: string) returns (outcome: Outcome)
      requires Valid() && tableExists
      modifies this`rows
      ensures Valid()
      ensures outcome == Missing <==> id !in old(rows)
      ensures outcome == Refused <==> id in old(rows) && !Storable(minutes)
      ensures outcome == Written <==> id in old(rows) && Storable(minutes)
      ensures outcome != Written ==> rows == old(rows)
      ensures outcome == Written ==>
        rows == old(rows)[id := old(rows)[id].(title := title, minutes := minutes, description := description)]
    {
      if id !in rows {
        return Missing;
      }
      if !Storable(minutes) {
        return Refused;
      }
      rows := rows[id := rows[id].(title := title, minutes := minutes, description := description)];
      outcome := Written;
    }

    /** `session.get(Recipe, id)` followed by `session.delete`: an absent id changes nothing. */
    method Delete(id: int) returns (deleted: bool)
      requires Valid()
      modifies this`rows
      ensures Valid()
      ensures deleted <==> id in old(rows)
      ensures rows == old(rows) - {id}
    {
      deleted := id in rows;
      if deleted {
        rows := rows - {id};
      }
    }

    /**
     * `SELECT COUNT(*)` and, only when it is 0, the two-row sample insert;
     * both rows share the statement's `now()`.
     */
    method SeedIfEmpty() returns (seeded: bool)
      requires Valid() && tableExists
      modifies this`rows, this`nextId
      ensures Valid()
      ensures seeded <==> |old(rows)| == 0
      ensures rows == Seeded(old(rows), old(nextId), clock)
      ensures nextId == if seeded then old(nextId) + 2 else old(nextId)
    {
      var count := |rows|;
      seeded := count == 0;
      if seeded {
        var seed := SeedRows(nextId, clock);
        rows := rows[seed[0].id := seed[0]][seed[1].id := seed[1]];
        nextId := nextId + 2;
      }
    }
  }
}
