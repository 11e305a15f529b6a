/**
 * The `newspapers` table and the `Newspaper` record read from it.
 *
 * A record is a value: the PHP object is a copy of one row's attributes, and its
 * mutators write the row and then update the copy. The table is a `Store` object whose
 * rows are keyed by primary key; the schema keeps slugs unique and every key equal to
 * the id stored in its row. Wall-clock stamps written to `updated_at` and `created_at`
 * are passed in as `stamp`.
 */
module Newspapers {
  import opened Wrappers
  import opened Calendar
  import opened Errors

  const TypeDate: string := "date"
  const TypeSequence: string := "sequence"
  const TypeMonthly: string := "monthly"

  /** The column default for `cutover_hour`, also applied by `create`. */
  const DefaultCutoverHour: int := 8

  /** One row; DATE columns are civil day numbers, TIMESTAMP columns civil instants. */
  datatype Newspaper = Newspaper(
    id: int,
    slug: string,
    kind: string,
    baseUrl: Option<string>,
    pattern: Option<string>,
    localLatestId: Option<int>,
    providerLatestId: Option<int>,
    seedDate: Option<int>,
    cutoverHour: int,
    lastIncrement: Option<int>,
    lastRedirectUrl: Option<string>,
    createdAt: Option<Instant>,
    updatedAt: Option<Instant>)

  // ---------------------------------------------------------------------
  // The fields each mutator writes
  // ---------------------------------------------------------------------

  /** `setLocalLatestId` and `rollbackIncrement`: the id and `updated_at`, nothing else. */
  function WithLatestId(p: Newspaper, id: int, stamp: Instant): (r: Newspaper)
    ensures r.localLatestId == Some(id) && r.updatedAt == Some(stamp)
    ensures r.(localLatestId := p.localLatestId, updatedAt := p.updatedAt) == p
  {
    p.(localLatestId := Some(id), updatedAt := Some(stamp))
  }

  /** `updateLastRedirectUrl`: the URL and `updated_at`, nothing else. */
  function WithRedirectUrl(p: Newspaper, url: string, stamp: Instant): (r: Newspaper)
    ensures r.lastRedirectUrl == Some(url) && r.updatedAt == Some(stamp)
    ensures r.(lastRedirectUrl := p.lastRedirectUrl, updatedAt := p.updatedAt) == p
  {
    p.(lastRedirectUrl := Some(url), updatedAt := Some(stamp))
  }

  /** `markIncremented`: the id, the day marker and `updated_at`, nothing else. */
  function WithIncrement(p: Newspaper, day: int, id: int, stamp: Instant): (r: Newspaper)
    ensures r.localLatestId == Some(id) && r.lastIncrement == Some(day) && r.updatedAt == Some(stamp)
    ensures r.(localLatestId := p.localLatestId, lastIncrement := p.lastIncrement, updatedAt := p.updatedAt) == p
  {
    p.(localLatestId := Some(id), lastIncrement := Some(day), updatedAt := Some(stamp))
  }

  /** `UPDATE ... WHERE id = :pk`: the row with that key is rewritten, if there is one. */
  function Patched(rows: map<int, Newspaper>, id: int, row: Newspaper): (r: map<int, Newspaper>)
    ensures r.Keys == rows.Keys
    ensures forall k | k in rows && k != id :: r[k] == rows[k]
    ensures id in rows ==> r[id] == row
  {
    if id in rows then rows[id := row] else rows
  }

  // ---------------------------------------------------------------------
  // Table invariants and queries
  // ---------------------------------------------------------------------

  /** `slug VARCHAR(50) NOT NULL UNIQUE`. */
  predicate UniqueSlugs(rows: map<int, Newspaper>)
  {
    forall i, j | i in rows && j in rows && rows[i].slug == rows[j].slug :: i == j
  }

  /** The primary key of every row is the id it carries, and slugs are unique. */
  predicate WellFormed(rows: map<int, Newspaper>)
  {
    (forall k | k in rows :: rows[k].id == k) && UniqueSlugs(rows)
  }

  /** `ORDER BY slug`, as a strict order on code points, shortest prefix first. */
  predicate SlugBefore(a: string, b: string)
    decreases |a|
  {
    b != [] && (a == [] || a[0] < b[0] || (a[0] == b[0] && SlugBefore(a[1..], b[1..])))
  }

  lemma {:induction false} SlugBeforeIrreflexive(a: string)
    ensures !SlugBefore(a, a)
    decreases |a|
  {
    if a != [] {
      SlugBeforeIrreflexive(a[1..]);
    }
  }

  lemma {:induction false} SlugBeforeTransitive(a: string, b: string, c: string)
    requires SlugBefore(a, b) && SlugBefore(b, c)
    ensures SlugBefore(a, c)
    decreases |a|
  {
    if a != [] && a[0] == b[0] && b[0] == c[0] {
      SlugBeforeTransitive(a[1..], b[1..], c[1..]);
    }
  }

  /** Two distinct slugs are always ordered one way or the other. */
  lemma {:induction false} SlugBeforeTotal(a: string, b: string)
    ensures a == b || SlugBefore(a, b) || SlugBefore(b, a)
    decreases |a|
  {
    if a != [] && b != [] && a[0] == b[0] {
      SlugBeforeTotal(a[1..], b[1..]);
      if a[1..] == b[1..] {
        assert a == [a[0]] + a[1..] && b == [b[0]] + b[1..];
      }
    }
  }

  /** No row of `rows` sorts before the row at key `k`. */
  predicate LeastSlugAt(rows: map<int, Newspaper>, k: int)
  {
    k in rows && forall o | o in rows :: !SlugBefore(rows[o].slug, rows[k].slug)
  }

  lemma {:induction false} LeastSlugExists(rows: map<int, Newspaper>)
    requires rows != map[]
    ensures exists k :: LeastSlugAt(rows, k)
    decreases |rows|
  {
    assert exists x :: x in rows by {
      if forall x :: x !in rows {
        assert false;
      }
    }
    var x :| x in rows;
    var rest := rows - {x};
    if rest == map[] {
      assert rest.Keys == {};
      assert rest.Keys == rows.Keys - {x};
      assert rows.Keys == {x};
      SlugBeforeIrreflexive(rows[x].slug);
      assert LeastSlugAt(rows, x);
    } else {
      assert |rest| < |rows| by { assert rest.Keys < rows.Keys; }
      LeastSlugExists(rest);
      var k :| LeastSlugAt(rest, k);
      if SlugBefore(rows[x].slug, rows[k].slug) {
        forall o | o in rows
          ensures !SlugBefore(rows[o].slug, rows[x].slug)
        {
          if o == x {
            SlugBeforeIrreflexive(rows[x].slug);
          } else if SlugBefore(rows[o].slug, rows[x].slug) {
            assert o in rest;
            SlugBeforeTransitive(rows[o].slug, rows[x].slug, rows[k].slug);
          }
        }
        assert LeastSlugAt(rows, x);
      } else {
        forall o | o in rows
          ensures !SlugBefore(rows[o].slug, rows[k].slug)
        {
          if o != x {
            assert o in rest;
          }
        }
        assert LeastSlugAt(rows, k);
      }
    }
  }

  /** With unique slugs there is only one row that sorts first. */
  lemma LeastSlugUnique(rows: map<int, Newspaper>, k1: int, k2: int)
    requires UniqueSlugs(rows) && LeastSlugAt(rows, k1) && LeastSlugAt(rows, k2)
    ensures k1 == k2
  {
    SlugBeforeTotal(rows[k1].slug, rows[k2].slug);
  }

  predicate SortedBySlug(papers: seq<Newspaper>)
  {
    forall i, j | 0 <= i < j < |papers| :: SlugBefore(papers[i].slug, papers[j].slug)
  }

  /** `p` is the row stored under some key of `rows`. */
  predicate IsRowOf(rows: map<int, Newspaper>, p: Newspaper)
  {
    exists k | k in rows :: rows[k] == p
  }

  /** Putting the first row in slug order ahead of the remaining rows, sorted, keeps them sorted. */
  lemma LeastSlugFirst(rows: map<int, Newspaper>, k: int, rest: map<int, Newspaper>, tail: seq<Newspaper>)
    requires UniqueSlugs(rows) && LeastSlugAt(rows, k) && rest == rows - {k}
    requires forall i | 0 <= i < |tail| :: IsRowOf(rest, tail[i])
    requires SortedBySlug(tail)
    ensures SortedBySlug([rows[k]] + tail)
  {
    var r := [rows[k]] + tail;
    forall i, j | 0 <= i < j < |r|
      ensures SlugBefore(r[i].slug, r[j].slug)
    {
      if i == 0 {
        assert IsRowOf(rest, tail[j - 1]);
        var o :| o in rest && rest[o] == tail[j - 1];
        SlugBeforeTotal(rows[k].slug, rows[o].slug);
      } else {
        assert r[i] == tail[i - 1] && r[j] == tail[j - 1];
      }
    }
  }

  /** The key of the row that sorts first. */
  function LeastSlugKey(rows: map<int, Newspaper>): (k: int)
    requires rows != map[] && UniqueSlugs(rows)
    ensures LeastSlugAt(rows, k)
  {
    LeastSlugExists(rows);
    assert forall k1, k2 | LeastSlugAt(rows, k1) && LeastSlugAt(rows, k2) :: k1 == k2 by {
      forall k1, k2 | LeastSlugAt(rows, k1) && LeastSlugAt(rows, k2)
        ensures k1 == k2
      {
        LeastSlugUnique(rows, k1, k2);
      }
    }
    var k :| LeastSlugAt(rows, k);
    k
  }

  /** The rows of `rest`, listed in `tail`, with `rows[k]` in front list all of `rows`. */
  lemma ConsMembers(rows: map<int, Newspaper>, k: int, rest: map<int, Newspaper>, tail: seq<Newspaper>)
    requires k in rows && rest == rows - {k}
    requires forall i | 0 <= i < |tail| :: IsRowOf(rest, tail[i])
    requires forall o | o in rest :: rest[o] in tail
    ensures forall i | 0 <= i < |tail| + 1 :: IsRowOf(rows, ([rows[k]] + tail)[i])
    ensures forall o | o in rows :: rows[o] in [rows[k]] + tail
  {
    var r := [rows[k]] + tail;
    forall i | 0 <= i < |r|
      ensures IsRowOf(rows, r[i])
    {
      if i == 0 {
        assert rows[k] == r[0];
      } else {
        assert IsRowOf(rest, tail[i - 1]);
        var o :| o in rest && rest[o] == tail[i - 1];
        assert rows[o] == r[i];
      }
    }
    forall o | o in rows
      ensures rows[o] in r
    {
      if o != k {
        assert o in rest && rest[o] in tail;
      }
    }
  }

  /** `all()`: every row once, in slug order. */
  function All(rows: map<int, Newspaper>): (r: seq<Newspaper>)
    requires UniqueSlugs(rows)
    ensures |r| == |rows|
    ensures forall i | 0 <= i < |r| :: IsRowOf(rows, r[i])
    ensures forall k | k in rows :: rows[k] in r
    ensures SortedBySlug(r)
    decreases |rows|
  {
    if rows == map[] then []
    else
      var k := LeastSlugKey(rows);
      var rest := rows - {k};
      assert |rest| == |rows| - 1 by { assert rest.Keys == rows.Keys - {k}; }
      var tail := All(rest);
      ConsMembers(rows, k, rest, tail);
      LeastSlugFirst(rows, k, rest, tail);
      [rows[k]] + tail
  }

  /** A list of rows read from `rows`: each is the row stored under its own id, and no id
      appears twice. */
  predicate IsSnapshot(rows: map<int, Newspaper>, papers: seq<Newspaper>)
  {
    && (forall i | 0 <= i < |papers| :: papers[i].id in rows && rows[papers[i].id] == papers[i])
    && (forall i, j | 0 <= i < j < |papers| :: papers[i].id != papers[j].id)
  }

  /** `all` reads every row once: its result is a snapshot of the table. */
  lemma AllIsSnapshot(rows: map<int, Newspaper>)
    requires WellFormed(rows)
    ensures IsSnapshot(rows, All(rows))
  {
    var r := All(rows);
    forall i | 0 <= i < |r|
      ensures r[i].id in rows && rows[r[i].id] == r[i]
    {
      assert IsRowOf(rows, r[i]);
    }
    forall i, j | 0 <= i < j < |r|
      ensures r[i].id != r[j].id
    {
      if r[i].id == r[j].id {
        SlugBeforeIrreflexive(r[i].slug);
      }
    }
  }

  /** `findBySlug`: the row with that slug, or nothing. */
  function FindBySlug(rows: map<int, Newspaper>, slug: string): (r: Option<Newspaper>)
    requires UniqueSlugs(rows)
    ensures r.Some? <==> exists k | k in rows :: rows[k].slug == slug
    ensures r.Some? ==> r.value.slug == slug && r.value in rows.Values
  {
    if exists k | k in rows :: rows[k].slug == slug then
      var k :| k in rows && rows[k].slug == slug;
      Some(rows[k])
    else None
  }

  /** `findById`: the row with that primary key, or nothing. */
  function FindById(rows: map<int, Newspaper>, id: int): (r: Option<Newspaper>)
    requires WellFormed(rows)
    ensures r.Some? <==> id in rows
    ensures r.Some? ==> r.value.id == id && r.value == rows[id]
  {
    if id in rows then Some(rows[id]) else None
  }

  // ---------------------------------------------------------------------
  // Inserts
  // ---------------------------------------------------------------------

  /** The `$data` array passed to `create`; `None` stands for a key that is absent. */
  datatype NewRecord = NewRecord(
    slug: string,
    kind: string,
    baseUrl: Option<string>,
    pattern: Option<string>,
    localLatestId: Option<int>,
    providerLatestId: Option<int>,
    seedDate: Option<int>,
    cutoverHour: Option<int>,
    lastIncrement: Option<int>,
    lastRedirectUrl: Option<string>)

  /** The row `create` inserts: an absent cutover hour becomes 8, both stamps are now. */
  function Inserted(rec: NewRecord, id: int, stamp: Instant): (r: Newspaper)
    ensures r.id == id && r.slug == rec.slug && r.kind == rec.kind
    ensures r.cutoverHour == (if rec.cutoverHour.Some? then rec.cutoverHour.value else 8)
    ensures r.createdAt == r.updatedAt == Some(stamp)
    ensures r.baseUrl == rec.baseUrl && r.pattern == rec.pattern && r.localLatestId == rec.localLatestId
    ensures r.providerLatestId == rec.providerLatestId && r.seedDate == rec.seedDate
    ensures r.lastIncrement == rec.lastIncrement && r.lastRedirectUrl == rec.lastRedirectUrl
  {
    Newspaper(id, rec.slug, rec.kind, rec.baseUrl, rec.pattern, rec.localLatestId,
      rec.providerLatestId, rec.seedDate, rec.cutoverHour.GetOr(DefaultCutoverHour),
      rec.lastIncrement, rec.lastRedirectUrl, Some(stamp), Some(stamp))
  }

  /** Inserting a record whose slug is free, under a key above every key, keeps the table
      well formed. */
  lemma InsertKeepsWellFormed(rows: map<int, Newspaper>, next: int, rec: NewRecord, stamp: Instant)
    requires WellFormed(rows) && (forall k | k in rows :: k < next)
    requires forall k | k in rows :: rows[k].slug != rec.slug
    ensures WellFormed(rows[next := Inserted(rec, next, stamp)])
  {
  }

  // ---------------------------------------------------------------------
  // Status rows
  // ---------------------------------------------------------------------

  datatype StatusRow = StatusRow(
    slug: string,
    kind: string,
    localLatestId: Option<int>,
    providerLatestId: Option<int>,
    lastIncrement: Option<int>,
    daysSinceIncrement: Option<nat>,
    lastRedirectUrl: Option<string>)

  /** `asStatusRow`: the record's public columns and the whole days since its marker. */
  function AsStatusRow(p: Newspaper, now: Instant): (r: StatusRow)
    ensures r.daysSinceIncrement.None? <==> p.lastIncrement.None?
    ensures p.lastIncrement.Some? && now.day >= p.lastIncrement.value ==>
      r.daysSinceIncrement == Some(now.day - p.lastIncrement.value)
    ensures p.lastIncrement.Some? && now.day < p.lastIncrement.value && now.second == 0 ==>
      r.daysSinceIncrement == Some(p.lastIncrement.value - now.day)
    ensures p.lastIncrement.Some? && now.day < p.lastIncrement.value && now.second > 0 ==>
      r.daysSinceIncrement == Some(p.lastIncrement.value - now.day - 1)
    ensures r.slug == p.slug && r.kind == p.kind && r.lastIncrement == p.lastIncrement
    ensures r.localLatestId == p.localLatestId && r.providerLatestId == p.providerLatestId
    ensures r.lastRedirectUrl == p.lastRedirectUrl
  {
    if p.lastIncrement.None? then
      StatusRow(p.slug, p.kind, p.localLatestId, p.providerLatestId, None, None, p.lastRedirectUrl)
    else
      var marker := p.lastIncrement.value;
      ElapsedDaysByDay(marker, now);
      StatusRow(p.slug, p.kind, p.localLatestId, p.providerLatestId, Some(marker),
        Some(ElapsedDays(marker, now)), p.lastRedirectUrl)
  }

  // ---------------------------------------------------------------------
  // The table
  // ---------------------------------------------------------------------

  class Store {
    /** The rows, keyed by primary key. */
    var rows: map<int, Newspaper>
    /** The next AUTO_INCREMENT value. */
    var nextId: int

    ghost predicate Valid()
      reads this
    {
      WellFormed(rows) && forall k | k in rows :: k < nextId
    }

    constructor ()
      ensures Valid() && rows == map[] && nextId == 1
    {
      rows := map[];
      nextId := 1;
    }

    /**
     * `setLocalLatestId` inside a transaction: on commit the row and the record get the
     * new id and stamp; a storage failure rolls back, leaving both untouched, and is
     * re-raised.
     */
    method SetLocalLatestId(paper: Newspaper, newId: int, stamp: Instant, storageOk: bool)
      returns (r: Result<Newspaper, Failure>)
      requires Valid()
      modifies this
      ensures Valid() && nextId == old(nextId)
      ensures storageOk ==> r == Ok(WithLatestId(paper, newId, stamp))
      ensures storageOk ==> rows == Patched(old(rows), paper.id, WithLatestId(if paper.id in old(rows) then old(rows)[paper.id] else paper, newId, stamp))
      ensures !storageOk ==> r == Err(StorageFailure) && rows == old(rows)
    {
      if !storageOk {
        return Err(StorageFailure);
      }
      if paper.id in rows {
        rows := rows[paper.id := WithLatestId(rows[paper.id], newId, stamp)];
      }
      r := Ok(WithLatestId(paper, newId, stamp));
    }

    /** `updateLastRedirectUrl`: writes the URL and the stamp to the row and the record. */
    method UpdateLastRedirectUrl(paper: Newspaper, url: string, stamp: Instant) returns (updated: Newspaper)
      requires Valid()
      modifies this
      ensures Valid() && nextId == old(nextId)
      ensures updated == WithRedirectUrl(paper, url, stamp)
      ensures rows == Patched(old(rows), paper.id, WithRedirectUrl(if paper.id in old(rows) then old(rows)[paper.id] else paper, url, stamp))
    {
      if paper.id in rows {
        rows := rows[paper.id := WithRedirectUrl(rows[paper.id], url, stamp)];
      }
      updated := WithRedirectUrl(paper, url, stamp);
    }

    /** `markIncremented`: writes the id, the day marker and the stamp. */
    method MarkIncremented(paper: Newspaper, day: int, newId: int, stamp: Instant) returns (updated: Newspaper)
      requires Valid()
      modifies this
      ensures Valid() && nextId == old(nextId)
      ensures updated == WithIncrement(paper, day, newId, stamp)
      ensures rows == Patched(old(rows), paper.id, WithIncrement(if paper.id in old(rows) then old(rows)[paper.id] else paper, day, newId, stamp))
    {
      if paper.id in rows {
        rows := rows[paper.id := WithIncrement(rows[paper.id], day, newId, stamp)];
      }
      updated := WithIncrement(paper, day, newId, stamp);
    }

    /** `rollbackIncrement`: writes the previous id and the stamp, and leaves the marker. */
    method RollbackIncrement(paper: Newspaper, previousId: int, stamp: Instant) returns (updated: Newspaper)
      requires Valid()
      modifies this
      ensures Valid() && nextId == old(nextId)
      ensures updated == WithLatestId(paper, previousId, stamp)
      ensures rows == Patched(old(rows), paper.id, WithLatestId(if paper.id in old(rows) then old(rows)[paper.id] else paper, previousId, stamp))
    {
      if paper.id in rows {
        rows := rows[paper.id := WithLatestId(rows[paper.id], previousId, stamp)];
      }
      updated := WithLatestId(paper, previousId, stamp);
    }

    /** `create`: inserts the record under the next key, unless its slug is taken. */
    method Create(rec: NewRecord, stamp: Instant) returns (r: Result<(), Failure>)
      requires Valid()
      modifies this
      ensures Valid()
      ensures (exists k | k in old(rows) :: old(rows)[k].slug == rec.slug) ==>
        r == Err(DuplicateSlug) && rows == old(rows) && nextId == old(nextId)
      ensures (forall k | k in old(rows) :: old(rows)[k].slug != rec.slug) ==>
        r == Ok(()) && rows == old(rows)[old(nextId) := Inserted(rec, old(nextId), stamp)] && nextId == old(nextId) + 1
    {
      if exists k | k in rows :: rows[k].slug == rec.slug {
        return Err(DuplicateSlug);
      }
      rows := rows[nextId := Inserted(rec, nextId, stamp)];
      nextId := nextId + 1;
      r := Ok(());
    }
  }
}
