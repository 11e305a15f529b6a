/**
 * `HealthService::status`: the report behind the health endpoint. It lists every paper
 * in slug order as a status row, counts them, and names the sequence papers whose daily
 * advance is overdue: their marker is more than one whole day before (or after) now.
 *
 * The report's `timestamp` is the instant itself; its `DATE_ATOM` text is not modelled.
 */
module HealthService {
  import opened Wrappers
  import opened Calendar
  import opened Newspapers
  import opened SequenceService
  import opened CronIncrement

  datatype Report = Report(timestamp: Instant, count: nat, sequencePending: seq<string>, newspapers: seq<StatusRow>)

  /** A sequence paper with a marker more than one whole day away from `now`. */
  predicate Pending(p: Newspaper, now: Instant)
  {
    p.kind == TypeSequence && p.lastIncrement.Some? && ElapsedDays(p.lastIncrement.value, now) > 1
  }

  /** The slugs of the pending papers, in list order. */
  function PendingSlugs(papers: seq<Newspaper>, now: Instant): seq<string>
  {
    if papers == [] then []
    else
      var last := papers[|papers| - 1];
      PendingSlugs(papers[..|papers| - 1], now) + (if Pending(last, now) then [last.slug] else [])
  }

  /** `array_map(asStatusRow, ...)`. */
  function StatusRows(papers: seq<Newspaper>, now: Instant): (r: seq<StatusRow>)
    ensures |r| == |papers| && forall i | 0 <= i < |papers| :: r[i] == AsStatusRow(papers[i], now)
  {
    seq(|papers|, i requires 0 <= i < |papers| => AsStatusRow(papers[i], now))
  }

  /** A slug is listed exactly when some pending paper carries it. */
  lemma {:induction false} PendingSlugsMembers(papers: seq<Newspaper>, now: Instant, s: string)
    ensures s in PendingSlugs(papers, now) <==> exists i | 0 <= i < |papers| :: Pending(papers[i], now) && papers[i].slug == s
  {
    if papers != [] {
      var n := |papers| - 1;
      var init := papers[..n];
      PendingSlugsMembers(init, now, s);
      if exists i | 0 <= i < |papers| :: Pending(papers[i], now) && papers[i].slug == s {
        var i :| 0 <= i < |papers| && Pending(papers[i], now) && papers[i].slug == s;
        if i < n {
          assert init[i] == papers[i];
        }
      }
      if s in PendingSlugs(init, now) {
        var i :| 0 <= i < |init| && Pending(init[i], now) && init[i].slug == s;
        assert papers[i] == init[i];
      }
    }
  }

  predicate StrictlySorted(slugs: seq<string>)
  {
    forall i, j | 0 <= i < j < |slugs| :: SlugBefore(slugs[i], slugs[j])
  }

  /** The list keeps the input's order, so over a slug-sorted list it is slug-sorted too. */
  lemma {:induction false} PendingSlugsSorted(papers: seq<Newspaper>, now: Instant)
    requires SortedBySlug(papers)
    ensures StrictlySorted(PendingSlugs(papers, now))
  {
    if papers != [] {
      var n := |papers| - 1;
      var init := papers[..n];
      assert SortedBySlug(init);
      PendingSlugsSorted(init, now);
      var r := PendingSlugs(papers, now);
      var front := PendingSlugs(init, now);
      assert r == front + (if Pending(papers[n], now) then [papers[n].slug] else []);
      forall i, j | 0 <= i < j < |r|
        ensures SlugBefore(r[i], r[j])
      {
        if j >= |front| {
          assert r[j] == papers[n].slug && r[i] == front[i];
          PendingSlugsMembers(init, now, r[i]);
          var m :| 0 <= m < |init| && Pending(init[m], now) && init[m].slug == r[i];
          assert papers[m] == init[m];
          assert SlugBefore(papers[m].slug, papers[n].slug);
        } else {
          assert r[i] == front[i] && r[j] == front[j];
        }
      }
    }
  }

  /** Read by civil day: with the marker on or before today, overdue means two days or more. */
  lemma PendingByDay(p: Newspaper, now: Instant)
    requires p.kind == TypeSequence && p.lastIncrement.Some? && p.lastIncrement.value <= now.day
    ensures Pending(p, now) <==> now.day - p.lastIncrement.value >= 2
  {
    ElapsedDaysByDay(p.lastIncrement.value, now);
  }

  /** The list is empty exactly when no paper is pending. */
  lemma NoPendingSlugs(papers: seq<Newspaper>, now: Instant)
    ensures PendingSlugs(papers, now) == [] <==> forall i | 0 <= i < |papers| :: !Pending(papers[i], now)
  {
    if PendingSlugs(papers, now) != [] {
      PendingSlugsMembers(papers, now, PendingSlugs(papers, now)[0]);
    } else {
      forall i | 0 <= i < |papers|
        ensures !Pending(papers[i], now)
      {
        PendingSlugsMembers(papers, now, papers[i].slug);
      }
    }
  }

  /**
   * The two services together: after a daily run that completes, no sequence paper is
   * reported pending for the rest of that day or the whole next day.
   */
  lemma CompletedRunClearsPending(rows: map<int, Newspaper>, now: Instant,
                                  probe: string -> Option<seq<string>>, stamp: Instant, later: Instant)
    requires WellFormed(rows)
    requires CronPass(rows, All(rows), now, probe, stamp).outcome == Completed
    requires now.day <= later.day <= now.day + 1
    ensures var after := CronPass(rows, All(rows), now, probe, stamp).rows;
      WellFormed(after) && PendingSlugs(All(after), later) == []
  {
    CronRunGuarantees(rows, now, probe, stamp);
    var after := CronPass(rows, All(rows), now, probe, stamp).rows;
    var papers := All(after);
    forall i | 0 <= i < |papers|
      ensures !Pending(papers[i], later)
    {
      assert IsRowOf(after, papers[i]);
      var k :| k in after && after[k] == papers[i];
      if after[k].kind == TypeSequence {
        ElapsedDaysByDay(now.day, later);
      }
    }
    NoPendingSlugs(papers, later);
  }

  /**
   * `status`: every row in slug order. The loop collects the pending slugs; the status
   * rows are the papers mapped one to one.
   */
  method Status(store: Store, now: Instant) returns (report: Report)
    requires store.Valid()
    ensures report.timestamp == now && report.count == |store.rows|
    ensures report.sequencePending == PendingSlugs(All(store.rows), now)
    ensures report.newspapers == StatusRows(All(store.rows), now)
    ensures StrictlySorted(report.sequencePending)
    ensures forall s :: s in report.sequencePending <==>
      exists k | k in store.rows :: Pending(store.rows[k], now) && store.rows[k].slug == s
  {
    var papers := All(store.rows);
    var pending := CollectPending(papers, now);
    PendingSlugsSorted(papers, now);
    forall s
      ensures s in pending <==> exists k | k in store.rows :: Pending(store.rows[k], now) && store.rows[k].slug == s
    {
      PendingSlugsMembers(papers, now, s);
      if s in pending {
        var i :| 0 <= i < |papers| && Pending(papers[i], now) && papers[i].slug == s;
        assert IsRowOf(store.rows, papers[i]);
      }
      if exists k | k in store.rows :: Pending(store.rows[k], now) && store.rows[k].slug == s {
        var k :| k in store.rows && Pending(store.rows[k], now) && store.rows[k].slug == s;
        assert store.rows[k] in papers;
      }
    }
    report := Report(now, |papers|, pending, StatusRows(papers, now));
  }

  /** The `foreach` that fills `$sequencePending`. */
  method CollectPending(papers: seq<Newspaper>, now: Instant) returns (pending: seq<string>)
    ensures pending == PendingSlugs(papers, now)
  {
    pending := [];
    var i := 0;
    while i < |papers|
      invariant 0 <= i <= |papers|
      invariant pending == PendingSlugs(papers[..i], now)
    {
      var paper := papers[i];
      assert papers[..i + 1][..i] == papers[..i];
      if paper.kind == TypeSequence {
        var last := paper.lastIncrement;
        if last.Some? && ElapsedDays(last.value, now) > 1 {
          pending := pending + [paper.slug];
        }
      }
      i := i + 1;
    }
    assert papers[..|papers|] == papers;
  }
}
