/**
 * `cron_increment`: the daily job. It walks every newspaper in slug order, advances each
 * sequence paper for the current civil day and, when the id moved, checks the new issue
 * URL with a HEAD request: a reachable URL becomes `last_redirect_url`, an unreachable one
 * puts the id back where it was (the day marker stays on today).
 *
 * The network is the parameter `probe`: for a URL it gives the response header lines the
 * HTTP stream wrapper would report, or `None` when the stream cannot be opened or reports
 * no header list.
 */
module CronIncrement {
  import opened Wrappers
  import opened Text
  import opened Calendar
  import opened Errors
  import opened Newspapers
  import opened SequenceService
  import opened RedirectBuilder

  // ---------------------------------------------------------------------
  // The status line: `#HTTP/\d\.\d\s+(\d{3})#`
  // ---------------------------------------------------------------------

  /** PCRE `\s`: space, tab, line feed, vertical tab, form feed, carriage return. */
  predicate IsSpace(c: char) { c == ' ' || 9 <= c as int <= 13 }

  /** The length of the run of `\s` at the start of `s` (what `\s+` consumes). */
  function SpaceRun(s: string): (n: nat)
    ensures n <= |s|
    ensures forall k | 0 <= k < n :: IsSpace(s[k])
    ensures n < |s| ==> !IsSpace(s[n])
  {
    if s != [] && IsSpace(s[0]) then 1 + SpaceRun(s[1..]) else 0
  }

  /** The captured status code when the pattern matches at the very start of `h`. */
  function MatchAt(h: string): Option<int>
  {
    if |h| >= 8 && h[..5] == "HTTP/" && IsDigit(h[5]) && h[6] == '.' && IsDigit(h[7]) then
      var rest := h[8..];
      var n := SpaceRun(rest);
      if n >= 1 && n + 3 <= |rest| && AllDigits(rest[n..n + 3]) then Some(DigitsValue(rest[n..n + 3]) as int)
      else None
    else None
  }

  /** `preg_match` of the status pattern: the code captured by the leftmost match. */
  function StatusCode(h: string): Option<int>
    decreases |h|
  {
    if h == [] then None
    else if MatchAt(h).Some? then MatchAt(h)
    else StatusCode(h[1..])
  }

  /** The leftmost-match reading: the code is the one at the first position that matches. */
  lemma StatusCodeLeftmost(h: string, c: int)
    ensures StatusCode(h) == Some(c) <==>
      exists i | 0 <= i < |h| :: MatchAt(h[i..]) == Some(c) && forall k | 0 <= k < i :: MatchAt(h[k..]).None?
  {
    if StatusCode(h) == Some(c) {
      LeftmostOfCode(h, c);
    }
    if exists i | 0 <= i < |h| :: MatchAt(h[i..]) == Some(c) && forall k | 0 <= k < i :: MatchAt(h[k..]).None? {
      var i :| 0 <= i < |h| && MatchAt(h[i..]) == Some(c) && forall k | 0 <= k < i :: MatchAt(h[k..]).None?;
      CodeOfLeftmost(h, c, i);
    }
  }

  lemma {:induction false} LeftmostOfCode(h: string, c: int)
    requires StatusCode(h) == Some(c)
    ensures exists i | 0 <= i < |h| :: MatchAt(h[i..]) == Some(c) && forall k | 0 <= k < i :: MatchAt(h[k..]).None?
    decreases |h|
  {
    if MatchAt(h).Some? {
      assert h[0..] == h;
    } else {
      LeftmostOfCode(h[1..], c);
      var i :| 0 <= i < |h| - 1 && MatchAt(h[1..][i..]) == Some(c)
        && forall k | 0 <= k < i :: MatchAt(h[1..][k..]).None?;
      assert h[1..][i..] == h[i + 1..];
      forall k | 0 <= k < i + 1
        ensures MatchAt(h[k..]).None?
      {
        if k == 0 {
          assert h[0..] == h;
        } else {
          assert h[1..][k - 1..] == h[k..];
        }
      }
    }
  }

  lemma {:induction false} CodeOfLeftmost(h: string, c: int, i: nat)
    requires i < |h| && MatchAt(h[i..]) == Some(c) && forall k | 0 <= k < i :: MatchAt(h[k..]).None?
    ensures StatusCode(h) == Some(c)
    decreases i
  {
    if i == 0 {
      assert h[0..] == h;
    } else {
      assert h[0..] == h;
      assert MatchAt(h).None?;
      assert h[1..][i - 1..] == h[i..];
      forall k | 0 <= k < i - 1
        ensures MatchAt(h[1..][k..]).None?
      {
        assert h[1..][k..] == h[k + 1..];
      }
      CodeOfLeftmost(h[1..], c, i - 1);
    }
  }

  lemma StatusDigitsExample(d: string)
    requires d == "200"
    ensures AllDigits(d) && DigitsValue(d) == 200
  {
    assert Decimal(200) == d;
    DecimalRoundTrip(200);
  }

  lemma StatusMatchExample(h: string)
    requires h == "HTTP/1.1 200 OK"
    ensures MatchAt(h) == Some(200)
  {
    var rest := h[8..];
    assert h[..5] == "HTTP/" && IsDigit(h[5]) && h[6] == '.' && IsDigit(h[7]);
    assert IsSpace(rest[0]) && !IsSpace(rest[1]);
    assert SpaceRun(rest) == 1;
    StatusDigitsExample(rest[1..4]);
  }

  /** A status line with one space: `HTTP/1.1 200 OK` gives 200. */
  lemma StatusLineExample(h: string)
    requires h == "HTTP/1.1 200 OK"
    ensures StatusCode(h) == Some(200)
  {
    StatusMatchExample(h);
  }

  /** A header line that is not a status line yields no code. */
  lemma NoStatusExample(h: string)
    requires h == "Location: x"
    ensures StatusCode(h) == None
  {
    forall i | 0 <= i < |h|
      ensures MatchAt(h[i..]).None?
    {
    }
    StatusCodeLeftmost(h, 0);
    if StatusCode(h).Some? {
      StatusCodeLeftmost(h, StatusCode(h).value);
    }
  }

  // ---------------------------------------------------------------------
  // headRequest
  // ---------------------------------------------------------------------

  /** The code of the first header line that carries one. */
  function FirstStatus(headers: seq<string>): Option<int>
  {
    if headers == [] then None
    else if StatusCode(headers[0]).Some? then StatusCode(headers[0])
    else FirstStatus(headers[1..])
  }

  /** What `headRequest` answers: no header list is a failure; otherwise the first status
      line decides, and a code below 400 is a success; no status line is a failure. */
  predicate HeadOk(meta: Option<seq<string>>)
  {
    meta.Some? && FirstStatus(meta.value).Some? && FirstStatus(meta.value).value < 400
  }

  /** The first header line with a status code decides; later lines are never looked at. */
  lemma {:induction false} FirstStatusIsFirst(headers: seq<string>, c: int)
    ensures FirstStatus(headers) == Some(c) <==>
      exists i | 0 <= i < |headers| :: StatusCode(headers[i]) == Some(c)
        && forall k | 0 <= k < i :: StatusCode(headers[k]).None?
  {
    if headers != [] {
      FirstStatusIsFirst(headers[1..], c);
      if FirstStatus(headers) == Some(c) && StatusCode(headers[0]).None? {
        var i :| 0 <= i < |headers| - 1 && StatusCode(headers[1..][i]) == Some(c)
          && forall k | 0 <= k < i :: StatusCode(headers[1..][k]).None?;
        assert StatusCode(headers[i + 1]) == Some(c);
        forall k | 0 <= k < i + 1
          ensures StatusCode(headers[k]).None?
        {
          if k > 0 {
            assert StatusCode(headers[1..][k - 1]).None?;
          }
        }
      }
      if exists i | 0 <= i < |headers| :: StatusCode(headers[i]) == Some(c)
          && forall k | 0 <= k < i :: StatusCode(headers[k]).None? {
        var i :| 0 <= i < |headers| && StatusCode(headers[i]) == Some(c)
          && forall k | 0 <= k < i :: StatusCode(headers[k]).None?;
        if i > 0 {
          assert StatusCode(headers[1..][i - 1]) == Some(c);
          forall k | 0 <= k < i - 1
            ensures StatusCode(headers[1..][k]).None?
          {
            assert StatusCode(headers[k + 1]).None?;
          }
        }
      }
    }
  }

  /** A redirect answered first decides the check, whatever the final response is. */
  lemma RedirectFirstDecides(first: string, rest: seq<string>)
    requires StatusCode(first).Some? && StatusCode(first).value < 400
    ensures HeadOk(Some([first] + rest))
  {
  }

  /**
   * `headRequest`, given what the stream reported: the header lines are scanned in order
   * and the first status line ends the scan.
   */
  method HeadRequest(meta: Option<seq<string>>) returns (ok: bool)
    ensures ok == HeadOk(meta)
  {
    if meta.None? {
      return false;
    }
    var headers := meta.value;
    var i := 0;
    while i < |headers|
      invariant 0 <= i <= |headers|
      invariant FirstStatus(headers) == FirstStatus(headers[i..])
    {
      var code := StatusCode(headers[i]);
      if code.Some? {
        return code.value < 400;
      }
      assert headers[i..][1..] == headers[i + 1..];
      i := i + 1;
    }
    return false;
  }

  // ---------------------------------------------------------------------
  // One pass of the job
  // ---------------------------------------------------------------------

  /** How the run ends: every paper visited, or an uncaught exception ended it early. */
  datatype Outcome = Completed | Aborted(failure: Failure)

  /** The table and the outcome after some papers of the run have been handled. */
  datatype Pass = Pass(rows: map<int, Newspaper>, outcome: Outcome)

  /**
   * One iteration of the loop for the snapshot row `paper`. The previous id is read from
   * the snapshot, a null id counting as 0. A failure of the advance or of the URL builder
   * ends the run; the advance, committed by then, stays.
   */
  function CronStep(rows: map<int, Newspaper>, paper: Newspaper, now: Instant,
                    probe: string -> Option<seq<string>>, stamp: Instant): Pass
  {
    if paper.kind != TypeSequence then Pass(rows, Completed)
    else if paper.id !in rows then Pass(rows, Aborted(RowMissing))
    else
      var updated := Advanced(rows[paper.id], now.day, stamp);
      var advanced := rows[paper.id := updated];
      var beforeId := paper.localLatestId.GetOr(0);
      var afterId := updated.localLatestId.GetOr(0);
      if afterId == beforeId then Pass(advanced, Completed)
      else
        match BuildSequenceUrl(updated.baseUrl, afterId, updated.pattern)
        case Err(e) => Pass(advanced, Aborted(e))
        case Ok(url) =>
          if HeadOk(probe(url)) then Pass(advanced[paper.id := WithRedirectUrl(updated, url, stamp)], Completed)
          else Pass(advanced[paper.id := WithLatestId(updated, beforeId, stamp)], Completed)
  }

  /** The run over the first papers of the snapshot, stopping at the first abort. */
  function CronPass(rows: map<int, Newspaper>, papers: seq<Newspaper>, now: Instant,
                    probe: string -> Option<seq<string>>, stamp: Instant): Pass
  {
    if papers == [] then Pass(rows, Completed)
    else
      var before := CronPass(rows, papers[..|papers| - 1], now, probe, stamp);
      if before.outcome.Aborted? then before
      else CronStep(before.rows, papers[|papers| - 1], now, probe, stamp)
  }

  /** Once the run has aborted, the remaining papers are not visited. */
  lemma {:induction false} CronPassAbortSticks(rows: map<int, Newspaper>, papers: seq<Newspaper>, j: nat, now: Instant,
                                               probe: string -> Option<seq<string>>, stamp: Instant)
    requires j <= |papers| && CronPass(rows, papers[..j], now, probe, stamp).outcome.Aborted?
    ensures CronPass(rows, papers, now, probe, stamp) == CronPass(rows, papers[..j], now, probe, stamp)
    decreases |papers| - j
  {
    if j < |papers| {
      var longer := papers[..j + 1];
      assert longer[..|longer| - 1] == papers[..j];
      CronPassAbortSticks(rows, papers, j + 1, now, probe, stamp);
    } else {
      assert papers[..j] == papers;
    }
  }

  // ---------------------------------------------------------------------
  // What a run guarantees
  // ---------------------------------------------------------------------

  /** Keys, ids, slugs and types of the rows stay as they were. */
  predicate SameIdentity(a: map<int, Newspaper>, b: map<int, Newspaper>)
  {
    a.Keys == b.Keys && forall k | k in a :: b[k].id == a[k].id && b[k].slug == a[k].slug && b[k].kind == a[k].kind
  }

  /** The id the day's advance gives a row, a null id read as 0: the day distance from its
      marker is added, and a row without a marker keeps its id. */
  function AdvancedId(row: Newspaper, today: int): int
  {
    match row.lastIncrement
    case None => row.localLatestId.GetOr(0)
    case Some(marker) => row.localLatestId.GetOr(0) + DayDistance(marker, today)
  }

  /** `AdvancedId` is the id `incrementForKsaDay` stores; when it equals the previous id the
      advance leaves the id exactly as it was. */
  lemma AdvancedIdOfAdvance(row: Newspaper, today: int, stamp: Instant)
    ensures Advanced(row, today, stamp).localLatestId.GetOr(0) == AdvancedId(row, today)
    ensures AdvancedId(row, today) == row.localLatestId.GetOr(0) ==>
      Advanced(row, today, stamp).localLatestId == row.localLatestId
  {
    if row.lastIncrement.Some? {
      AdvanceByDistance(row, today, stamp);
    }
  }

  /**
   * What the job leaves on a sequence row it visited. The marker is on today and only the
   * id, the marker, `last_redirect_url` and `updated_at` can differ. When the advance did
   * not move the id, the id and the URL are as they were. When it did, the issue URL is
   * built from the new id and decides the rest:
   *   - it passed the check: the new id stays and the URL is recorded;
   *   - it failed the check: the id is the previous one (null read as 0) and the URL is
   *     not touched.
   */
  predicate Settled(before: Newspaper, after: Newspaper, today: int, probe: string -> Option<seq<string>>)
  {
    var beforeId := before.localLatestId.GetOr(0);
    var newId := AdvancedId(before, today);
    && after.lastIncrement == Some(today)
    && after.(localLatestId := before.localLatestId, lastIncrement := before.lastIncrement,
              lastRedirectUrl := before.lastRedirectUrl, updatedAt := before.updatedAt) == before
    && (newId == beforeId ==>
          after.localLatestId == before.localLatestId && after.lastRedirectUrl == before.lastRedirectUrl)
    && (newId != beforeId ==>
          var url := BuildSequenceUrl(before.baseUrl, newId, before.pattern);
          && url.Ok?
          && (HeadOk(probe(url.value)) ==>
                after.localLatestId == Some(newId) && after.lastRedirectUrl == Some(url.value))
          && (!HeadOk(probe(url.value)) ==>
                after.localLatestId == Some(beforeId) && after.lastRedirectUrl == before.lastRedirectUrl))
  }

  /** A step rewrites at most the visited row, and never its key, id, slug or type. */
  lemma CronStepFrame(rows: map<int, Newspaper>, paper: Newspaper, now: Instant,
                      probe: string -> Option<seq<string>>, stamp: Instant)
    ensures var after := CronStep(rows, paper, now, probe, stamp).rows;
      SameIdentity(rows, after) && forall k | k in rows && k != paper.id :: after[k] == rows[k]
    ensures paper.kind != TypeSequence ==> CronStep(rows, paper, now, probe, stamp) == Pass(rows, Completed)
  {
    if paper.kind == TypeSequence && paper.id in rows {
      AdvanceFrame(rows[paper.id], now.day, stamp);
    }
  }

  /**
   * A completed step on a fresh snapshot row settles it: an id never stays advanced to an
   * issue whose URL failed the HEAD check, and an id that stays advanced has its URL recorded.
   */
  lemma CronStepSettles(rows: map<int, Newspaper>, paper: Newspaper, now: Instant,
                        probe: string -> Option<seq<string>>, stamp: Instant)
    requires paper.kind == TypeSequence && paper.id in rows && rows[paper.id] == paper
    requires CronStep(rows, paper, now, probe, stamp).outcome == Completed
    ensures Settled(paper, CronStep(rows, paper, now, probe, stamp).rows[paper.id], now.day, probe)
  {
    AdvanceSetsMarker(paper, now.day, stamp);
    AdvanceFrame(paper, now.day, stamp);
    AdvancedIdOfAdvance(paper, now.day, stamp);
  }

  /** When the advance leaves the id where it was, the step writes the advance and nothing more. */
  lemma CronStepNoAdvance(rows: map<int, Newspaper>, paper: Newspaper, now: Instant,
                          probe: string -> Option<seq<string>>, stamp: Instant)
    requires paper.kind == TypeSequence && paper.id in rows && rows[paper.id] == paper
    requires AdvancedId(paper, now.day) == paper.localLatestId.GetOr(0)
    ensures CronStep(rows, paper, now, probe, stamp)
      == Pass(rows[paper.id := Advanced(paper, now.day, stamp)], Completed)
    ensures CronStep(rows, paper, now, probe, stamp).rows[paper.id].localLatestId == paper.localLatestId
  {
    AdvancedIdOfAdvance(paper, now.day, stamp);
  }

  /**
   * The two outcomes of a step whose advance moved the id of a row with a marker, `d` days
   * from today: the new id is the old one plus `d`, the marker moves to today, and the HEAD
   * check of the new issue URL decides between keeping the new id with its URL recorded and
   * restoring the previous id with the URL untouched.
   */
  lemma CronStepOutcomes(rows: map<int, Newspaper>, paper: Newspaper, now: Instant,
                         probe: string -> Option<seq<string>>, stamp: Instant, newId: int, url: string)
    requires paper.kind == TypeSequence && paper.id in rows && rows[paper.id] == paper
    requires paper.lastIncrement.Some? && DayDistance(paper.lastIncrement.value, now.day) > 0
    requires newId == paper.localLatestId.GetOr(0) + DayDistance(paper.lastIncrement.value, now.day)
    requires BuildSequenceUrl(paper.baseUrl, newId, paper.pattern) == Ok(url)
    ensures var s := CronStep(rows, paper, now, probe, stamp);
      && s.outcome == Completed && s.rows.Keys == rows.Keys
      && s.rows[paper.id].lastIncrement == Some(now.day)
      && (HeadOk(probe(url)) ==>
            s.rows[paper.id].localLatestId == Some(newId) && s.rows[paper.id].lastRedirectUrl == Some(url))
      && (!HeadOk(probe(url)) ==>
            s.rows[paper.id].localLatestId == Some(paper.localLatestId.GetOr(0))
            && s.rows[paper.id].lastRedirectUrl == paper.lastRedirectUrl)
  {
    AdvanceByDistance(paper, now.day, stamp);
    AdvanceSetsMarker(paper, now.day, stamp);
    AdvanceFrame(paper, now.day, stamp);
  }

  /** A step that fails to build the URL ends the run with the advance already stored. */
  lemma CronStepAbortKeepsAdvance(rows: map<int, Newspaper>, paper: Newspaper, now: Instant,
                                  probe: string -> Option<seq<string>>, stamp: Instant)
    requires paper.kind == TypeSequence && paper.id in rows
    requires CronStep(rows, paper, now, probe, stamp).outcome.Aborted?
    ensures var updated := Advanced(rows[paper.id], now.day, stamp);
      CronStep(rows, paper, now, probe, stamp) == Pass(rows[paper.id := updated], Aborted(MissingBaseUrl))
  {
  }

  /** Keys, identities, unvisited rows and visited rows after the first `n` papers. */
  predicate PassInvariant(rows: map<int, Newspaper>, papers: seq<Newspaper>, n: nat, s: Pass, today: int,
                          probe: string -> Option<seq<string>>)
    requires n <= |papers|
  {
    && SameIdentity(rows, s.rows)
    && (forall k | k in rows && (forall i | 0 <= i < n && papers[i].kind == TypeSequence :: papers[i].id != k) ::
          s.rows[k] == rows[k])
    && (s.outcome == Completed ==>
          forall i | 0 <= i < n && papers[i].kind == TypeSequence ::
            papers[i].id in s.rows && Settled(papers[i], s.rows[papers[i].id], today, probe))
  }

  /** Visiting paper `n` keeps the invariant. */
  lemma PassInvariantStep(rows: map<int, Newspaper>, papers: seq<Newspaper>, n: nat, before: Pass, now: Instant,
                          probe: string -> Option<seq<string>>, stamp: Instant)
    requires IsSnapshot(rows, papers) && n < |papers|
    requires PassInvariant(rows, papers, n, before, now.day, probe) && before.outcome == Completed
    ensures PassInvariant(rows, papers, n + 1, CronStep(before.rows, papers[n], now, probe, stamp), now.day, probe)
  {
    var paper := papers[n];
    var after := CronStep(before.rows, paper, now, probe, stamp);
    assert before.rows[paper.id] == paper by {
      assert forall i | 0 <= i < n :: papers[i].id != paper.id;
    }
    CronStepFrame(before.rows, paper, now, probe, stamp);
    forall k | k in rows && (forall i | 0 <= i < n + 1 && papers[i].kind == TypeSequence :: papers[i].id != k)
      ensures after.rows[k] == rows[k]
    {
      assert paper.kind == TypeSequence ==> paper.id != k;
    }
    if after.outcome == Completed {
      if paper.kind == TypeSequence {
        CronStepSettles(before.rows, paper, now, probe, stamp);
      }
      forall i | 0 <= i < n + 1 && papers[i].kind == TypeSequence
        ensures papers[i].id in after.rows && Settled(papers[i], after.rows[papers[i].id], now.day, probe)
      {
        if i < n {
          assert papers[i].id != paper.id;
        }
      }
    }
  }

  /** The invariant holds after every prefix of a snapshot. */
  lemma {:induction false} CronPassInvariant(rows: map<int, Newspaper>, papers: seq<Newspaper>, n: nat, now: Instant,
                                             probe: string -> Option<seq<string>>, stamp: Instant)
    requires IsSnapshot(rows, papers) && n <= |papers|
    ensures PassInvariant(rows, papers, n, CronPass(rows, papers[..n], now, probe, stamp), now.day, probe)
  {
    if n > 0 {
      CronPassInvariant(rows, papers, n - 1, now, probe, stamp);
      var prefix := papers[..n];
      assert prefix[..|prefix| - 1] == papers[..n - 1] && prefix[|prefix| - 1] == papers[n - 1];
      var before := CronPass(rows, papers[..n - 1], now, probe, stamp);
      if before.outcome.Completed? {
        PassInvariantStep(rows, papers, n - 1, before, now, probe, stamp);
      }
    } else {
      assert papers[..0] == [];
    }
  }

  /** Keeping keys, ids and slugs keeps a table well formed. */
  lemma SameIdentityWellFormed(a: map<int, Newspaper>, b: map<int, Newspaper>)
    requires WellFormed(a) && SameIdentity(a, b)
    ensures WellFormed(b)
  {
  }

  /** What a completed prefix of a snapshot guarantees for one row of the table. */
  lemma SnapshotRowGuarantee(rows: map<int, Newspaper>, papers: seq<Newspaper>, s: Pass, k: int, i: nat, today: int,
                             probe: string -> Option<seq<string>>)
    requires IsSnapshot(rows, papers) && PassInvariant(rows, papers, |papers|, s, today, probe)
    requires WellFormed(rows) && k in rows && i < |papers| && papers[i] == rows[k]
    ensures rows[k].kind != TypeSequence ==> s.rows[k] == rows[k]
    ensures s.outcome == Completed && rows[k].kind == TypeSequence ==> Settled(rows[k], s.rows[k], today, probe)
  {
    assert papers[i].id == k;
    assert forall j | 0 <= j < |papers| && papers[j].id == k :: j == i;
  }

  /**
   * A run over the whole table keeps every key, id, slug and type, never touches a paper
   * that is not a sequence paper, and, when it completes, leaves every sequence paper
   * settled for today: the new id kept with its URL recorded when the check passed, the
   * previous id restored when it failed, the row only marked when the id did not move.
   */
  lemma CronRunGuarantees(rows: map<int, Newspaper>, now: Instant, probe: string -> Option<seq<string>>, stamp: Instant)
    requires WellFormed(rows)
    ensures var s := CronPass(rows, All(rows), now, probe, stamp);
      && SameIdentity(rows, s.rows) && WellFormed(s.rows)
      && (forall k | k in rows && rows[k].kind != TypeSequence :: s.rows[k] == rows[k])
      && (s.outcome == Completed ==>
            forall k | k in rows && rows[k].kind == TypeSequence :: Settled(rows[k], s.rows[k], now.day, probe))
  {
    var papers := All(rows);
    AllIsSnapshot(rows);
    WholePassInvariant(rows, papers, now, probe, stamp);
    var s := CronPass(rows, papers, now, probe, stamp);
    SameIdentityWellFormed(rows, s.rows);
    SnapshotGuarantees(rows, papers, s, now.day, probe);
  }

  /** The invariant after the whole snapshot. */
  lemma WholePassInvariant(rows: map<int, Newspaper>, papers: seq<Newspaper>, now: Instant,
                           probe: string -> Option<seq<string>>, stamp: Instant)
    requires IsSnapshot(rows, papers)
    ensures PassInvariant(rows, papers, |papers|, CronPass(rows, papers, now, probe, stamp), now.day, probe)
  {
    CronPassInvariant(rows, papers, |papers|, now, probe, stamp);
    assert papers[..|papers|] == papers;
  }

  /** What a completed pass over a snapshot holding every row guarantees for the table. */
  lemma SnapshotGuarantees(rows: map<int, Newspaper>, papers: seq<Newspaper>, s: Pass, today: int,
                           probe: string -> Option<seq<string>>)
    requires IsSnapshot(rows, papers) && PassInvariant(rows, papers, |papers|, s, today, probe)
    requires WellFormed(rows) && forall k | k in rows :: rows[k] in papers
    ensures forall k | k in rows && rows[k].kind != TypeSequence :: s.rows[k] == rows[k]
    ensures s.outcome == Completed ==>
      forall k | k in rows && rows[k].kind == TypeSequence :: Settled(rows[k], s.rows[k], today, probe)
  {
    forall k | k in rows
      ensures rows[k].kind != TypeSequence ==> s.rows[k] == rows[k]
      ensures s.outcome == Completed && rows[k].kind == TypeSequence ==> Settled(rows[k], s.rows[k], today, probe)
    {
      var i :| 0 <= i < |papers| && papers[i] == rows[k];
      SnapshotRowGuarantee(rows, papers, s, k, i, today, probe);
    }
  }

  /** When every sequence paper already carries today's marker, a run changes nothing. */
  lemma {:induction false} CronRerunNoop(rows: map<int, Newspaper>, papers: seq<Newspaper>, now: Instant,
                                         probe: string -> Option<seq<string>>, stamp: Instant)
    requires IsSnapshot(rows, papers)
    requires forall i | 0 <= i < |papers| && papers[i].kind == TypeSequence :: papers[i].lastIncrement == Some(now.day)
    ensures CronPass(rows, papers, now, probe, stamp) == Pass(rows, Completed)
  {
    if papers != [] {
      var init := papers[..|papers| - 1];
      CronRerunNoop(rows, init, now, probe, stamp);
      var paper := papers[|papers| - 1];
      if paper.kind == TypeSequence {
        AdvanceByDistance(paper, now.day, stamp);
        assert rows[paper.id := paper] == rows;
      }
    }
  }

  /** A second run on the same civil day, whatever the network answers, changes nothing. */
  lemma CronTwiceSameDay(rows: map<int, Newspaper>, now: Instant, later: Instant,
                         probe1: string -> Option<seq<string>>, probe2: string -> Option<seq<string>>,
                         stamp1: Instant, stamp2: Instant)
    requires WellFormed(rows) && later.day == now.day
    requires CronPass(rows, All(rows), now, probe1, stamp1).outcome == Completed
    ensures var once := CronPass(rows, All(rows), now, probe1, stamp1).rows;
      WellFormed(once) && CronPass(once, All(once), later, probe2, stamp2) == Pass(once, Completed)
  {
    var once := CronPass(rows, All(rows), now, probe1, stamp1).rows;
    CronRunGuarantees(rows, now, probe1, stamp1);
    var papers := All(once);
    AllIsSnapshot(once);
    SettledSnapshotMarked(rows, once, papers, now.day, probe1);
    CronRerunNoop(once, papers, later, probe2, stamp2);
  }

  /** After a completed run, every sequence paper of a snapshot carries today's marker. */
  lemma SettledSnapshotMarked(rows: map<int, Newspaper>, once: map<int, Newspaper>, papers: seq<Newspaper>,
                              today: int, probe: string -> Option<seq<string>>)
    requires SameIdentity(rows, once) && IsSnapshot(once, papers)
    requires forall k | k in rows && rows[k].kind == TypeSequence :: Settled(rows[k], once[k], today, probe)
    ensures forall i | 0 <= i < |papers| && papers[i].kind == TypeSequence :: papers[i].lastIncrement == Some(today)
  {
    forall i | 0 <= i < |papers| && papers[i].kind == TypeSequence
      ensures papers[i].lastIncrement == Some(today)
    {
      var k := papers[i].id;
      assert k in rows && rows[k].kind == TypeSequence;
    }
  }

  /** The body of the loop for one snapshot row. Every write of the job is taken to commit. */
  method VisitPaper(store: Store, paper: Newspaper, now: Instant, probe: string -> Option<seq<string>>, stamp: Instant)
    returns (outcome: Outcome)
    requires store.Valid()
    modifies store
    ensures store.Valid()
    ensures Pass(store.rows, outcome) == CronStep(old(store.rows), paper, now, probe, stamp)
  {
    if paper.kind != TypeSequence {
      return Completed;
    }
    var beforeId := paper.localLatestId.GetOr(0);
    var r := IncrementForDay(store, paper, now, stamp, true);
    if r.Err? {
      return Aborted(r.error);
    }
    var updated := r.value;
    var afterId := updated.localLatestId.GetOr(0);
    if afterId == beforeId {
      return Completed;
    }
    var url := BuildSequenceUrl(updated.baseUrl, afterId, updated.pattern);
    if url.Err? {
      return Aborted(url.error);
    }
    var ok := HeadRequest(probe(url.value));
    if !ok {
      updated := store.RollbackIncrement(updated, beforeId, stamp);
    } else {
      updated := store.UpdateLastRedirectUrl(updated, url.value, stamp);
    }
    outcome := Completed;
  }

  /** The loop of the job over the snapshot `papers`, in order, until one aborts. */
  method VisitAll(store: Store, papers: seq<Newspaper>, now: Instant, probe: string -> Option<seq<string>>, stamp: Instant)
    returns (outcome: Outcome)
    requires store.Valid()
    modifies store
    ensures store.Valid()
    ensures Pass(store.rows, outcome) == CronPass(old(store.rows), papers, now, probe, stamp)
  {
    ghost var rows0 := store.rows;
    var i := 0;
    while i < |papers|
      invariant 0 <= i <= |papers| && store.Valid()
      invariant CronPass(rows0, papers[..i], now, probe, stamp) == Pass(store.rows, Completed)
    {
      ghost var prefix := papers[..i + 1];
      assert prefix[..|prefix| - 1] == papers[..i] && prefix[|prefix| - 1] == papers[i];
      outcome := VisitPaper(store, papers[i], now, probe, stamp);
      if outcome.Aborted? {
        CronPassAbortSticks(rows0, papers, i + 1, now, probe, stamp);
        return;
      }
      i := i + 1;
    }
    assert papers[..i] == papers;
    outcome := Completed;
  }

  /** The job: `Newspaper::all` once, then every paper of that snapshot. */
  method RunCron(store: Store, now: Instant, probe: string -> Option<seq<string>>, stamp: Instant)
    returns (outcome: Outcome)
    requires store.Valid()
    modifies store
    ensures store.Valid()
    ensures Pass(store.rows, outcome) == CronPass(old(store.rows), All(old(store.rows)), now, probe, stamp)
  {
    var papers := All(store.rows);
    outcome := VisitAll(store, papers, now, probe, stamp);
  }
}
