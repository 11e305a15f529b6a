/**
 * `NewspaperSeeder::run`: makes sure the four known papers exist. Each record is inserted
 * only when no row has its slug yet; rows already there, whatever their contents, are
 * left alone, so running the seeder again changes nothing.
 */
module NewspaperSeeder {
  import opened Wrappers
  import opened Calendar
  import opened Newspapers

  /** The four records, in the order they are tried. */
  function SeedRecords(): (r: seq<NewRecord>)
    ensures |r| == 4
  {
    [ NewRecord("arabnews", TypeSequence, Some("https://www.arabnews.com/sites/default/files/pdf"), None,
                Some(1000), None, None, None, None, None),
      NewRecord("aawsat", TypeSequence, Some("https://aawsat.com/files/pdf/issue"), None,
                Some(1000), None, None, None, None, None),
      NewRecord("okaz", TypeDate, None, Some("https://www.okaz.com.sa/digitals/{Y}/{m}/{d}/index.html"),
                None, None, None, None, None, None),
      NewRecord("ring", TypeMonthly, None, Some("https://ringmagazine.com/en/magazines/{month_year}/view"),
                None, None, None, None, None, None) ]
  }

  /** The rows and the next key: what the seeder reads and changes. */
  datatype Table = Table(rows: map<int, Newspaper>, next: int)

  predicate HasSlug(rows: map<int, Newspaper>, slug: string)
  {
    exists k | k in rows :: rows[k].slug == slug
  }

  /** The table after the records have been tried in order. */
  function Seeded(t: Table, recs: seq<NewRecord>, stamp: Instant): Table
  {
    if recs == [] then t
    else
      var before := Seeded(t, recs[..|recs| - 1], stamp);
      var rec := recs[|recs| - 1];
      if HasSlug(before.rows, rec.slug) then before
      else Table(before.rows[before.next := Inserted(rec, before.next, stamp)], before.next + 1)
  }

  /** A table whose keys are its rows' ids, below the next key, with unique slugs. */
  predicate ValidTable(t: Table)
  {
    WellFormed(t.rows) && forall k | k in t.rows :: k < t.next
  }

  /** One record: the table before it is kept, and at most the next key is added. */
  lemma SeedStep(t: Table, recs: seq<NewRecord>, stamp: Instant)
    requires recs != [] && ValidTable(Seeded(t, recs[..|recs| - 1], stamp))
    ensures var before := Seeded(t, recs[..|recs| - 1], stamp); var s := Seeded(t, recs, stamp);
      && ValidTable(s) && s.next >= before.next
      && (forall k | k in before.rows :: k in s.rows && s.rows[k] == before.rows[k])
      && (forall k | k in s.rows && k !in before.rows :: k == before.next && s.rows[k] == Inserted(recs[|recs| - 1], k, stamp))
      && HasSlug(s.rows, recs[|recs| - 1].slug)
  {
    var before := Seeded(t, recs[..|recs| - 1], stamp);
    var rec := recs[|recs| - 1];
    if !HasSlug(before.rows, rec.slug) {
      InsertKeepsWellFormed(before.rows, before.next, rec, stamp);
      var s := Seeded(t, recs, stamp);
      assert s.rows[before.next].slug == rec.slug;
    }
  }

  /** Seeding keeps the table valid and every existing row as it was. */
  lemma {:induction false} SeedingKeepsRows(t: Table, recs: seq<NewRecord>, stamp: Instant)
    requires ValidTable(t)
    ensures var s := Seeded(t, recs, stamp);
      && ValidTable(s) && s.next >= t.next
      && (forall k | k in t.rows :: k in s.rows && s.rows[k] == t.rows[k])
    decreases |recs|
  {
    if recs != [] {
      SeedingKeepsRows(t, recs[..|recs| - 1], stamp);
      SeedStep(t, recs, stamp);
    }
  }

  /** Afterwards every record's slug is present. */
  lemma {:induction false} SeedingCoversSlugs(t: Table, recs: seq<NewRecord>, stamp: Instant)
    requires ValidTable(t)
    ensures forall i | 0 <= i < |recs| :: HasSlug(Seeded(t, recs, stamp).rows, recs[i].slug)
    decreases |recs|
  {
    if recs != [] {
      var init := recs[..|recs| - 1];
      SeedingCoversSlugs(t, init, stamp);
      SeedingKeepsRows(t, init, stamp);
      SeedStep(t, recs, stamp);
      var before := Seeded(t, init, stamp);
      var s := Seeded(t, recs, stamp);
      forall i | 0 <= i < |recs| - 1
        ensures HasSlug(s.rows, recs[i].slug)
      {
        assert init[i] == recs[i];
        var k :| k in before.rows && before.rows[k].slug == recs[i].slug;
        assert s.rows[k] == before.rows[k];
      }
    }
  }

  /** Every added row is one of the records, inserted under a fresh key. */
  lemma {:induction false} SeedingAddsRecords(t: Table, recs: seq<NewRecord>, stamp: Instant)
    requires ValidTable(t)
    ensures var s := Seeded(t, recs, stamp);
      forall k | k in s.rows && k !in t.rows ::
        t.next <= k && exists i | 0 <= i < |recs| :: s.rows[k] == Inserted(recs[i], k, stamp)
    decreases |recs|
  {
    if recs != [] {
      var init := recs[..|recs| - 1];
      SeedingAddsRecords(t, init, stamp);
      SeedingKeepsRows(t, init, stamp);
      SeedStep(t, recs, stamp);
      var before := Seeded(t, init, stamp);
      var s := Seeded(t, recs, stamp);
      forall k | k in s.rows && k !in t.rows
        ensures t.next <= k && exists i | 0 <= i < |recs| :: s.rows[k] == Inserted(recs[i], k, stamp)
      {
        if k in before.rows {
          var i :| 0 <= i < |init| && before.rows[k] == Inserted(init[i], k, stamp);
          assert recs[i] == init[i];
        } else {
          assert s.rows[k] == Inserted(recs[|recs| - 1], k, stamp);
        }
      }
    }
  }

  /** When every record's slug is already there, seeding changes nothing. */
  lemma {:induction false} SeedingPresentIsNoop(t: Table, recs: seq<NewRecord>, stamp: Instant)
    requires forall i | 0 <= i < |recs| :: HasSlug(t.rows, recs[i].slug)
    ensures Seeded(t, recs, stamp) == t
    decreases |recs|
  {
    if recs != [] {
      var init := recs[..|recs| - 1];
      forall i | 0 <= i < |init|
        ensures HasSlug(t.rows, init[i].slug)
      {
        assert init[i] == recs[i];
      }
      SeedingPresentIsNoop(t, init, stamp);
    }
  }

  /** Running the seeder twice is running it once. */
  lemma SeedingIdempotent(t: Table, recs: seq<NewRecord>, s1: Instant, s2: Instant)
    requires ValidTable(t)
    ensures Seeded(Seeded(t, recs, s1), recs, s2) == Seeded(t, recs, s1)
  {
    SeedingCoversSlugs(t, recs, s1);
    SeedingPresentIsNoop(Seeded(t, recs, s1), recs, s2);
  }

  /** Records with distinct slugs, seeded into an empty table, get keys 1, 2, ... in order. */
  lemma {:induction false} SeedDistinctIntoEmpty(t: Table, recs: seq<NewRecord>, stamp: Instant)
    requires t.rows == map[] && t.next == 1
    requires forall i, j | 0 <= i < j < |recs| :: recs[i].slug != recs[j].slug
    ensures var s := Seeded(t, recs, stamp);
      && s.next == |recs| + 1
      && (forall k :: k in s.rows <==> 1 <= k <= |recs|)
      && forall i | 0 <= i < |recs| :: s.rows[i + 1] == Inserted(recs[i], i + 1, stamp)
    decreases |recs|
  {
    if recs != [] {
      var n := |recs| - 1;
      var init := recs[..n];
      SeedDistinctIntoEmpty(t, init, stamp);
      var before := Seeded(t, init, stamp);
      forall k | k in before.rows
        ensures before.rows[k].slug != recs[n].slug
      {
        assert before.rows[k] == Inserted(init[k - 1], k, stamp);
        assert init[k - 1] == recs[k - 1];
      }
      var s := Seeded(t, recs, stamp);
      assert s == Table(before.rows[before.next := Inserted(recs[n], n + 1, stamp)], n + 2);
      forall i | 0 <= i < n
        ensures s.rows[i + 1] == Inserted(recs[i], i + 1, stamp)
      {
        assert init[i] == recs[i];
      }
    }
  }

  /** On an empty table the four papers get keys 1 to 4, in the order of the list. */
  lemma SeedEmptyTable(t: Table, recs: seq<NewRecord>, stamp: Instant)
    requires t.rows == map[] && t.next == 1 && recs == SeedRecords()
    ensures var s := Seeded(t, recs, stamp);
      && s.next == 5 && (forall k :: k in s.rows <==> 1 <= k <= 4)
      && forall i | 0 <= i < 4 :: s.rows[i + 1] == Inserted(recs[i], i + 1, stamp)
  {
    SeedDistinctIntoEmpty(t, recs, stamp);
  }

  /**
   * `run`: for each record, the slug is looked up and the record created only if it is
   * missing. The table ends as `Seeded` says.
   */
  method Run(store: Store, stamp: Instant)
    requires store.Valid()
    modifies store
    ensures store.Valid()
    ensures Table(store.rows, store.nextId) == Seeded(Table(old(store.rows), old(store.nextId)), SeedRecords(), stamp)
  {
    SeedAll(store, SeedRecords(), stamp);
  }

  /** The `foreach` over the records, for any list of records. */
  method SeedAll(store: Store, records: seq<NewRecord>, stamp: Instant)
    requires store.Valid()
    modifies store
    ensures store.Valid()
    ensures Table(store.rows, store.nextId) == Seeded(Table(old(store.rows), old(store.nextId)), records, stamp)
  {
    ghost var t0 := Table(store.rows, store.nextId);
    var i := 0;
    while i < |records|
      invariant 0 <= i <= |records|
      invariant store.Valid()
      invariant Table(store.rows, store.nextId) == Seeded(t0, records[..i], stamp)
    {
      var rec := records[i];
      assert records[..i + 1][..i] == records[..i];
      if !HasSlug(store.rows, rec.slug) {
        var created := store.Create(rec, stamp);
      }
      i := i + 1;
    }
    assert records[..|records|] == records;
  }
}
