/**
 * `SequenceService`: the once-a-day advance of a sequence paper's issue id and the
 * cutover rule that decides which issue a reader is sent to.
 *
 * The advance runs in one transaction on the locked row: it either applies all of its
 * writes or, when the row is missing, none. Its effect on the row is the function
 * `Advanced`; the method `IncrementForDay` is proved to apply exactly that.
 */
module SequenceService {
  import opened Wrappers
  import opened Calendar
  import opened Errors
  import opened Newspapers

  /**
   * The row after `incrementForKsaDay` on civil day `today`: without a marker the
   * marker is set to today; otherwise the id grows by the whole days between the
   * marker and today (`%a`, so in either direction) and the marker moves to today,
   * unless that distance is zero.
   */
  function Advanced(row: Newspaper, today: int, stamp: Instant): Newspaper
  {
    match row.lastIncrement
    case None => row.(lastIncrement := Some(today), updatedAt := Some(stamp))
    case Some(marker) =>
      var diff := ElapsedDays(marker, Midnight(today));
      if diff <= 0 then row
      else WithIncrement(row, today, row.localLatestId.GetOr(0) + diff, stamp)
  }

  /** After an advance on day `today` the marker always reads `today`. */
  lemma AdvanceSetsMarker(row: Newspaper, today: int, stamp: Instant)
    ensures Advanced(row, today, stamp).lastIncrement == Some(today)
  {
    if row.lastIncrement.Some? {
      ElapsedBetweenMidnights(row.lastIncrement.value, today);
    }
  }

  /**
   * With a marker, the id (a null id read as 0) grows by exactly the day distance
   * between marker and today; a marker already on today changes nothing at all.
   */
  lemma AdvanceByDistance(row: Newspaper, today: int, stamp: Instant)
    requires row.lastIncrement.Some?
    ensures Advanced(row, today, stamp).localLatestId.GetOr(0)
      == row.localLatestId.GetOr(0) + DayDistance(row.lastIncrement.value, today)
    ensures row.lastIncrement.value == today ==> Advanced(row, today, stamp) == row
  {
    ElapsedBetweenMidnights(row.lastIncrement.value, today);
  }

  /** A null id with a marker `n` days away becomes exactly `n`. */
  lemma AdvanceFromNullId(row: Newspaper, today: int, stamp: Instant)
    requires row.lastIncrement.Some? && row.localLatestId.None?
    requires row.lastIncrement.value != today
    ensures Advanced(row, today, stamp).localLatestId == Some(DayDistance(row.lastIncrement.value, today))
  {
    ElapsedBetweenMidnights(row.lastIncrement.value, today);
  }

  /** A marker `k` days in the future also adds `k` and moves the marker back to today. */
  lemma AdvanceFromFutureMarker(row: Newspaper, today: int, k: int, stamp: Instant)
    requires k >= 1 && row.lastIncrement == Some(today + k)
    ensures Advanced(row, today, stamp).localLatestId == Some(row.localLatestId.GetOr(0) + k)
    ensures Advanced(row, today, stamp).lastIncrement == Some(today)
  {
    ElapsedBetweenMidnights(today + k, today);
  }

  /** Setting the first marker leaves the id as it was. */
  lemma AdvanceInitialises(row: Newspaper, today: int, stamp: Instant)
    requires row.lastIncrement.None?
    ensures Advanced(row, today, stamp).localLatestId == row.localLatestId
    ensures Advanced(row, today, stamp).lastIncrement == Some(today)
    ensures Advanced(row, today, stamp).updatedAt == Some(stamp)
  {
  }

  /** Only the id, the marker and `updated_at` can change. */
  lemma AdvanceFrame(row: Newspaper, today: int, stamp: Instant)
    ensures Advanced(row, today, stamp).(localLatestId := row.localLatestId,
      lastIncrement := row.lastIncrement, updatedAt := row.updatedAt) == row
  {
  }

  /** A second run on the same day is a no-op: at most one advance per civil day. */
  lemma AdvanceIdempotent(row: Newspaper, today: int, s1: Instant, s2: Instant)
    ensures Advanced(Advanced(row, today, s1), today, s2) == Advanced(row, today, s1)
  {
    var once := Advanced(row, today, s1);
    AdvanceSetsMarker(row, today, s1);
    AdvanceByDistance(once, today, s2);
  }

  /** The unit-test fixture: id 100 with marker 2025-01-01 becomes 101 with marker
      2025-01-02 on 2025-01-02, and stays 100 on 2025-01-01. */
  lemma AdvanceExamples(row: Newspaper, stamp: Instant)
    requires row.localLatestId == Some(100) && row.lastIncrement == Some(20089)
    ensures Advanced(row, 20090, stamp).localLatestId == Some(101)
    ensures Advanced(row, 20090, stamp).lastIncrement == Some(20090)
    ensures Advanced(row, 20089, stamp).localLatestId == Some(100)
  {
    AdvanceByDistance(row, 20090, stamp);
    AdvanceSetsMarker(row, 20090, stamp);
    AdvanceByDistance(row, 20089, stamp);
  }

  /**
   * `incrementForKsaDay`. A paper that is not a sequence paper comes back unchanged
   * and the table is not touched; a missing row fails and rolls back; otherwise the
   * locked row is replaced by `Advanced` and that new row is returned. A storage error
   * inside the transaction (`storageOk == false`) rolls it back and is re-raised.
   */
  method IncrementForDay(store: Store, paper: Newspaper, today: Instant, stamp: Instant, storageOk: bool)
    returns (r: Result<Newspaper, Failure>)
    requires store.Valid()
    modifies store
    ensures store.Valid() && store.nextId == old(store.nextId)
    ensures paper.kind != TypeSequence ==> r == Ok(paper) && store.rows == old(store.rows)
    ensures paper.kind == TypeSequence && !storageOk ==>
      r == Err(StorageFailure) && store.rows == old(store.rows)
    ensures paper.kind == TypeSequence && storageOk && paper.id !in old(store.rows) ==>
      r == Err(RowMissing) && store.rows == old(store.rows)
    ensures paper.kind == TypeSequence && storageOk && paper.id in old(store.rows) ==>
      var row := Advanced(old(store.rows)[paper.id], today.day, stamp);
      r == Ok(row) && store.rows == old(store.rows)[paper.id := row]
  {
    if paper.kind != TypeSequence {
      return Ok(paper);
    }
    if !storageOk {
      return Err(StorageFailure);
    }
    if paper.id !in store.rows {
      return Err(RowMissing);
    }
    var current := store.rows[paper.id];
    var todayMidnight := Midnight(today.day);
    match current.lastIncrement {
      case None =>
        var row := current.(lastIncrement := Some(today.day), updatedAt := Some(stamp));
        store.rows := store.rows[paper.id := row];
        r := Ok(row);
      case Some(marker) =>
        var diff := ElapsedDays(marker, todayMidnight);
        if diff <= 0 {
          assert store.rows[paper.id := current] == store.rows;
          r := Ok(current);
        } else {
          var newId := current.localLatestId.GetOr(0) + diff;
          var row := WithIncrement(current, today.day, newId, stamp);
          store.rows := store.rows[paper.id := row];
          r := Ok(row);
        }
    }
  }

  /**
   * `applyCutover`: before the paper's cutover hour readers get the previous issue
   * (never below 0), from then on the latest one. Only sequence papers with an id
   * qualify.
   */
  function ApplyCutover(paper: Newspaper, now: Instant): (r: Result<int, Failure>)
    ensures paper.kind != TypeSequence ==> r == Err(NotSequence)
    ensures paper.kind == TypeSequence && paper.localLatestId.None? ==> r == Err(MissingLatestId)
    ensures r.Ok? <==> paper.kind == TypeSequence && paper.localLatestId.Some?
  {
    if paper.kind != TypeSequence then Err(NotSequence)
    else if paper.localLatestId.None? then Err(MissingLatestId)
    else
      var id := paper.localLatestId.value;
      if Hour(now) < paper.cutoverHour then Ok(if id - 1 > 0 then id - 1 else 0)
      else Ok(id)
  }

  /** The shown issue is the latest one or the one before it, and never negative when
      the stored id is not; it is the previous one exactly before the cutover hour. */
  lemma CutoverBounds(paper: Newspaper, now: Instant)
    requires ApplyCutover(paper, now).Ok?
    ensures var id := paper.localLatestId.value; var v := ApplyCutover(paper, now).value;
      && (id >= 0 ==> 0 <= v <= id && id - v <= 1)
      && (id >= 1 ==> (v == id - 1 <==> Hour(now) < paper.cutoverHour))
      && (Hour(now) >= paper.cutoverHour ==> v == id)
  {
  }

  /** Later in the day never shows an older issue (for a stored id that is not negative). */
  lemma CutoverMonotone(paper: Newspaper, earlier: Instant, later: Instant)
    requires ApplyCutover(paper, earlier).Ok? && paper.localLatestId.value >= 0
    requires Hour(earlier) <= Hour(later)
    ensures ApplyCutover(paper, earlier).value <= ApplyCutover(paper, later).value
  {
  }

  /** The unit test: id 100, cutover 8: 99 at 06:00 and 100 at 10:00. */
  lemma CutoverExample(paper: Newspaper)
    requires paper.kind == TypeSequence && paper.localLatestId == Some(100) && paper.cutoverHour == 8
    ensures ApplyCutover(paper, Moment(20090, 6 * 3600)) == Ok(99)
    ensures ApplyCutover(paper, Moment(20090, 10 * 3600)) == Ok(100)
  {
  }

  /**
   * The two rules together: when the daily advance has just moved the id up by one,
   * readers before the cutover hour still get the issue they got the day before.
   */
  lemma CutoverHidesTodaysAdvance(row: Newspaper, today: int, stamp: Instant, now: Instant)
    requires row.kind == TypeSequence && row.localLatestId.Some? && row.localLatestId.value >= 0
    requires row.lastIncrement == Some(today - 1)
    requires Hour(now) < row.cutoverHour
    ensures ApplyCutover(Advanced(row, today, stamp), now) == Ok(row.localLatestId.value)
  {
    AdvanceByDistance(row, today, stamp);
  }
}
