/**
 * `DashboardController`: the admin's manual corrections of a sequence paper's issue id.
 * Increment and decrement move the id by one, `set` writes a posted value; ids never go
 * below zero. Papers that are unknown or not sequence papers are refused with an error
 * flash. Every request that does not fail ends in a redirect to `/admin`.
 *
 * The posted `value` arrives already cast to an integer; a storage failure while writing
 * is `storageOk == false` and propagates as an exception, with neither write nor flash.
 */
module DashboardController {
  import opened Wrappers
  import opened Calendar
  import opened Errors
  import opened Newspapers
  import opened AppKernel

  const AdminPath: string := "/admin"
  const NotAdjustable: Flash := Flash("error", "Newspaper not found or not adjustable.")
  const AdjustedFlash: Flash := Flash("success", "Latest ID adjusted.")
  const UpdatedFlash: Flash := Flash("success", "Latest ID updated.")

  /** `resolveSequencePaper`: the paper with that slug, when it is a sequence paper. */
  function ResolveSequencePaper(rows: map<int, Newspaper>, slug: string): (r: Option<Newspaper>)
    requires UniqueSlugs(rows)
    ensures r.Some? <==> exists k | k in rows :: rows[k].slug == slug && rows[k].kind == TypeSequence
    ensures r.Some? ==> r.value.slug == slug && r.value.kind == TypeSequence && r.value in rows.Values
  {
    match FindBySlug(rows, slug)
    case None => None
    case Some(p) => if p.kind == TypeSequence then Some(p) else None
  }

  /** `max(0, (int) $current + $delta)`: a null id counts as 0 and the result is never negative. */
  function AdjustedId(current: Option<int>, delta: int): (r: int)
    ensures r >= 0
    ensures current.GetOr(0) + delta >= 0 ==> r == current.GetOr(0) + delta
    ensures current.GetOr(0) + delta < 0 ==> r == 0
  {
    if current.GetOr(0) + delta > 0 then current.GetOr(0) + delta else 0
  }

  /** `max(0, $value)`. */
  function ClampedValue(value: int): (r: int)
    ensures r >= 0 && (value >= 0 ==> r == value) && (value < 0 ==> r == 0)
  {
    if value > 0 then value else 0
  }

  /** The table after the paper with key `id` gets the id `newId`. */
  function WithIdAt(rows: map<int, Newspaper>, id: int, newId: int, stamp: Instant): map<int, Newspaper>
    requires id in rows
  {
    rows[id := WithLatestId(rows[id], newId, stamp)]
  }

  /** The table after `adjust($slug, $delta)` commits. */
  function AdjustedRows(rows: map<int, Newspaper>, slug: string, delta: int, stamp: Instant): map<int, Newspaper>
    requires WellFormed(rows)
  {
    match ResolveSequencePaper(rows, slug)
    case None => rows
    case Some(p) => WithIdAt(rows, p.id, AdjustedId(p.localLatestId, delta), stamp)
  }

  /** The table after `set($slug)` with posted value `value` commits. */
  function SetRows(rows: map<int, Newspaper>, slug: string, value: int, stamp: Instant): map<int, Newspaper>
    requires WellFormed(rows)
  {
    match ResolveSequencePaper(rows, slug)
    case None => rows
    case Some(p) => WithIdAt(rows, p.id, ClampedValue(value), stamp)
  }

  lemma ResolvedIsRow(rows: map<int, Newspaper>, slug: string)
    requires WellFormed(rows) && ResolveSequencePaper(rows, slug).Some?
    ensures var p := ResolveSequencePaper(rows, slug).value; p.id in rows && rows[p.id] == p
  {
    var p := ResolveSequencePaper(rows, slug).value;
    var k :| k in rows && rows[k] == p;
  }

  /**
   * An adjustment changes only the id (and `updated_at`) of the one sequence paper with
   * that slug, to the clamped sum; every other row, and every other paper, is untouched.
   */
  lemma AdjustEffect(rows: map<int, Newspaper>, slug: string, delta: int, stamp: Instant)
    requires WellFormed(rows)
    ensures var after := AdjustedRows(rows, slug, delta, stamp);
      && after.Keys == rows.Keys && WellFormed(after)
      && forall k | k in rows ::
           if rows[k].slug == slug && rows[k].kind == TypeSequence
           then after[k] == WithLatestId(rows[k], AdjustedId(rows[k].localLatestId, delta), stamp)
           else after[k] == rows[k]
  {
    if ResolveSequencePaper(rows, slug).Some? {
      ResolvedIsRow(rows, slug);
    }
  }

  /** `set` writes the clamped value to exactly that row in the same way. */
  lemma SetEffect(rows: map<int, Newspaper>, slug: string, value: int, stamp: Instant)
    requires WellFormed(rows)
    ensures var after := SetRows(rows, slug, value, stamp);
      && after.Keys == rows.Keys && WellFormed(after)
      && forall k | k in rows ::
           if rows[k].slug == slug && rows[k].kind == TypeSequence
           then after[k] == WithLatestId(rows[k], ClampedValue(value), stamp)
           else after[k] == rows[k]
  {
    if ResolveSequencePaper(rows, slug).Some? {
      ResolvedIsRow(rows, slug);
    }
  }

  /** Decrement undoes increment on an id that is not negative; at 0 decrement stays at 0. */
  lemma IncrementThenDecrement(current: Option<int>)
    requires current.GetOr(0) >= 0
    ensures AdjustedId(Some(AdjustedId(current, 1)), -1) == current.GetOr(0)
    ensures current.GetOr(0) == 0 ==> AdjustedId(current, -1) == 0
  {
  }

  /** Setting a value twice is setting it once. */
  lemma SetIdempotent(rows: map<int, Newspaper>, slug: string, value: int, s1: Instant, s2: Instant)
    requires WellFormed(rows)
    ensures WellFormed(SetRows(rows, slug, value, s1))
    ensures SetRows(SetRows(rows, slug, value, s1), slug, value, s2)
      == SetRows(rows, slug, value, s2)
  {
    SetEffect(rows, slug, value, s1);
    var once := SetRows(rows, slug, value, s1);
    SetEffect(once, slug, value, s2);
    SetEffect(rows, slug, value, s2);
    var lhs := SetRows(once, slug, value, s2);
    var rhs := SetRows(rows, slug, value, s2);
    forall k | k in rows
      ensures lhs[k] == rhs[k]
    {
      assert once[k].slug == rows[k].slug && once[k].kind == rows[k].kind;
    }
  }

  class Dashboard {
    const kernel: Kernel
    const store: Store

    constructor (kernel: Kernel, store: Store)
      ensures this.kernel == kernel && this.store == store
    {
      this.kernel := kernel;
      this.store := store;
    }

    /**
     * `adjust`: a paper that cannot be adjusted gets the error flash and no write; the
     * others get the clamped id and the success flash. Both redirect to `/admin`.
     */
    method Adjust(slug: string, delta: int, stamp: Instant, storageOk: bool) returns (r: Result<string, Failure>)
      requires store.Valid()
      modifies store, kernel
      ensures store.Valid() && store.nextId == old(store.nextId)
      ensures kernel.routes == old(kernel.routes) && kernel.csrf == old(kernel.csrf)
      ensures ResolveSequencePaper(old(store.rows), slug).None? ==>
        r == Ok(AdminPath) && store.rows == old(store.rows) && kernel.flashes == old(kernel.flashes) + [NotAdjustable]
      ensures ResolveSequencePaper(old(store.rows), slug).Some? && storageOk ==>
        r == Ok(AdminPath) && store.rows == AdjustedRows(old(store.rows), slug, delta, stamp)
        && kernel.flashes == old(kernel.flashes) + [AdjustedFlash]
      ensures ResolveSequencePaper(old(store.rows), slug).Some? && !storageOk ==>
        r == Err(StorageFailure) && store.rows == old(store.rows) && kernel.flashes == old(kernel.flashes)
    {
      var paper := ResolveSequencePaper(store.rows, slug);
      if paper.None? {
        kernel.AddFlash(NotAdjustable.kind, NotAdjustable.message);
        return Ok(AdminPath);
      }
      ResolvedIsRow(store.rows, slug);
      var updated := AdjustedId(paper.value.localLatestId, delta);
      var written := store.SetLocalLatestId(paper.value, updated, stamp, storageOk);
      if written.Err? {
        return Err(written.error);
      }
      kernel.AddFlash(AdjustedFlash.kind, AdjustedFlash.message);
      r := Ok(AdminPath);
    }

    /** `increment`: `adjust` by +1. */
    method Increment(slug: string, stamp: Instant, storageOk: bool) returns (r: Result<string, Failure>)
      requires store.Valid()
      modifies store, kernel
      ensures store.Valid() && store.nextId == old(store.nextId)
      ensures kernel.routes == old(kernel.routes) && kernel.csrf == old(kernel.csrf)
      ensures ResolveSequencePaper(old(store.rows), slug).None? ==>
        r == Ok(AdminPath) && store.rows == old(store.rows) && kernel.flashes == old(kernel.flashes) + [NotAdjustable]
      ensures ResolveSequencePaper(old(store.rows), slug).Some? && storageOk ==>
        r == Ok(AdminPath) && store.rows == AdjustedRows(old(store.rows), slug, 1, stamp)
        && kernel.flashes == old(kernel.flashes) + [AdjustedFlash]
      ensures ResolveSequencePaper(old(store.rows), slug).Some? && !storageOk ==>
        r == Err(StorageFailure) && store.rows == old(store.rows) && kernel.flashes == old(kernel.flashes)
    {
      r := Adjust(slug, 1, stamp, storageOk);
    }

    /** `decrement`: `adjust` by -1. */
    method Decrement(slug: string, stamp: Instant, storageOk: bool) returns (r: Result<string, Failure>)
      requires store.Valid()
      modifies store, kernel
      ensures store.Valid() && store.nextId == old(store.nextId)
      ensures kernel.routes == old(kernel.routes) && kernel.csrf == old(kernel.csrf)
      ensures ResolveSequencePaper(old(store.rows), slug).None? ==>
        r == Ok(AdminPath) && store.rows == old(store.rows) && kernel.flashes == old(kernel.flashes) + [NotAdjustable]
      ensures ResolveSequencePaper(old(store.rows), slug).Some? && storageOk ==>
        r == Ok(AdminPath) && store.rows == AdjustedRows(old(store.rows), slug, -1, stamp)
        && kernel.flashes == old(kernel.flashes) + [AdjustedFlash]
      ensures ResolveSequencePaper(old(store.rows), slug).Some? && !storageOk ==>
        r == Err(StorageFailure) && store.rows == old(store.rows) && kernel.flashes == old(kernel.flashes)
    {
      r := Adjust(slug, -1, stamp, storageOk);
    }

    /** `set`: like `adjust`, with the posted value clamped at zero as the new id. */
    method Set(slug: string, value: int, stamp: Instant, storageOk: bool) returns (r: Result<string, Failure>)
      requires store.Valid()
      modifies store, kernel
      ensures store.Valid() && store.nextId == old(store.nextId)
      ensures kernel.routes == old(kernel.routes) && kernel.csrf == old(kernel.csrf)
      ensures ResolveSequencePaper(old(store.rows), slug).None? ==>
        r == Ok(AdminPath) && store.rows == old(store.rows) && kernel.flashes == old(kernel.flashes) + [NotAdjustable]
      ensures ResolveSequencePaper(old(store.rows), slug).Some? && storageOk ==>
        r == Ok(AdminPath) && store.rows == SetRows(old(store.rows), slug, value, stamp)
        && kernel.flashes == old(kernel.flashes) + [UpdatedFlash]
      ensures ResolveSequencePaper(old(store.rows), slug).Some? && !storageOk ==>
        r == Err(StorageFailure) && store.rows == old(store.rows) && kernel.flashes == old(kernel.flashes)
    {
      var paper := ResolveSequencePaper(store.rows, slug);
      if paper.None? {
        kernel.AddFlash(NotAdjustable.kind, NotAdjustable.message);
        return Ok(AdminPath);
      }
      ResolvedIsRow(store.rows, slug);
      var written := store.SetLocalLatestId(paper.value, ClampedValue(value), stamp, storageOk);
      if written.Err? {
        return Err(written.error);
      }
      kernel.AddFlash(UpdatedFlash.kind, UpdatedFlash.message);
      r := Ok(AdminPath);
    }
  }

  /** The feature tests: arabnews at 10 goes to 11 on increment, and to 42 on `set` 42. */
  lemma UpdateIdExamples(rows: map<int, Newspaper>, k: int, stamp: Instant)
    requires WellFormed(rows) && k in rows
    requires rows[k].slug == "arabnews" && rows[k].kind == TypeSequence && rows[k].localLatestId == Some(10)
    ensures AdjustedRows(rows, "arabnews", 1, stamp)[k].localLatestId == Some(11)
    ensures SetRows(rows, "arabnews", 42, stamp)[k].localLatestId == Some(42)
  {
    AdjustEffect(rows, "arabnews", 1, stamp);
    SetEffect(rows, "arabnews", 42, stamp);
  }
}
