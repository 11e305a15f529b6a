/**
 * `PublicController::redirect`: a paper's entry script asks for its slug and the reader is
 * sent to the paper's current issue. Sequence papers go through the cutover rule first; the URL used is then
 * recorded as the row's `last_redirect_url`.
 */
module PublicController {
  import opened Wrappers
  import opened Text
  import opened Calendar
  import opened Errors
  import opened Newspapers
  import opened SequenceService
  import opened RedirectBuilder

  /** The HTTP answer: 404, a redirect, or an uncaught exception (a server error). */
  datatype Response = NotFound | Redirect(url: string) | Failed(failure: Failure)

  /** The issue a sequence paper is sent to: the id after the cutover rule; other papers
      pass no id. */
  function SequenceIdFor(paper: Newspaper, now: Instant): Result<Option<int>, Failure>
  {
    if paper.kind == TypeSequence then
      var id :- ApplyCutover(paper, now);
      Ok(Some(id))
    else Ok(None)
  }

  /** The answer `redirect` gives for `slug` at civil time `now`. */
  function RedirectResponse(rows: map<int, Newspaper>, slug: string, now: Instant): Response
    requires UniqueSlugs(rows)
  {
    match FindBySlug(rows, slug)
    case None => NotFound
    case Some(paper) =>
      match SequenceIdFor(paper, now)
      case Err(e) => Failed(e)
      case Ok(sequenceId) =>
        match BuildUrl(paper, now, sequenceId)
        case Err(e) => Failed(e)
        case Ok(url) => Redirect(url)
  }

  /**
   * `redirect`: looks the slug up, applies the cutover for sequence papers and builds the
   * URL; building it also records it on the row. An unknown slug touches nothing.
   */
  method HandleRedirect(store: Store, slug: string, now: Instant, stamp: Instant) returns (resp: Response)
    requires store.Valid()
    modifies store
    ensures store.Valid() && store.nextId == old(store.nextId)
    ensures resp == RedirectResponse(old(store.rows), slug, now)
    ensures !resp.Redirect? ==> store.rows == old(store.rows)
    ensures resp.Redirect? ==> exists k | k in old(store.rows) && old(store.rows)[k].slug == slug ::
      store.rows == old(store.rows)[k := WithRedirectUrl(old(store.rows)[k], resp.url, stamp)]
  {
    var found := FindBySlug(store.rows, slug);
    if found.None? {
      return NotFound;
    }
    var paper := found.value;
    var sequenceId := SequenceIdFor(paper, now);
    if sequenceId.Err? {
      return Failed(sequenceId.error);
    }
    var r, updated := BuildFor(store, paper, now, sequenceId.value, stamp);
    if r.Err? {
      return Failed(r.error);
    }
    resp := Redirect(r.value);
  }

  /** An unknown slug is a 404. */
  lemma UnknownSlugNotFound(rows: map<int, Newspaper>, slug: string, now: Instant)
    requires UniqueSlugs(rows)
    requires forall k | k in rows :: rows[k].slug != slug
    ensures RedirectResponse(rows, slug, now) == NotFound
  {
  }

  /** A known slug is never a 404. */
  lemma KnownSlugFound(rows: map<int, Newspaper>, k: int, now: Instant)
    requires UniqueSlugs(rows) && k in rows
    ensures RedirectResponse(rows, rows[k].slug, now) != NotFound
  {
  }

  /**
   * A sequence paper with a stored id and a base URL (and no `{id}` pattern) is sent to
   * the issue the cutover rule picks: the previous one before the cutover hour.
   */
  lemma SequenceRedirect(rows: map<int, Newspaper>, k: int, now: Instant)
    requires UniqueSlugs(rows) && k in rows
    requires rows[k].kind == TypeSequence && rows[k].localLatestId.Some?
    requires rows[k].baseUrl.Some? && rows[k].baseUrl.value != []
    requires rows[k].pattern.None? || !Contains(rows[k].pattern.value, "{id}")
    ensures var p := rows[k]; var id := p.localLatestId.value;
      var shown := if Hour(now) < p.cutoverHour then (if id - 1 > 0 then id - 1 else 0) else id;
      RedirectResponse(rows, p.slug, now)
        == Redirect(TrimRightChar(p.baseUrl.value, '/') + "/" + IntText(shown) + "/index.html")
  {
    var p := rows[k];
    assert FindBySlug(rows, p.slug) == Some(p);
    SequenceBaseShape(p.baseUrl.value, ApplyCutover(p, now).value, p.pattern);
  }

  /** A date paper with a pattern is sent to the pattern filled with today's date. */
  lemma DateRedirect(rows: map<int, Newspaper>, k: int, now: Instant)
    requires UniqueSlugs(rows) && k in rows
    requires rows[k].kind == TypeDate && rows[k].pattern.Some? && rows[k].pattern.value != []
    ensures RedirectResponse(rows, rows[k].slug, now) == Redirect(BuildDateUrl(rows[k].pattern.value, now))
  {
    assert FindBySlug(rows, rows[k].slug) == Some(rows[k]);
  }

  /** The feature test: arabnews, id 5, cutover 23, before 23:00, is sent to issue 4. */
  lemma SequenceRedirectExample(rows: map<int, Newspaper>, k: int, now: Instant)
    requires UniqueSlugs(rows) && k in rows && Hour(now) < 23
    requires rows[k].slug == "arabnews" && rows[k].kind == TypeSequence && rows[k].localLatestId == Some(5)
    requires rows[k].cutoverHour == 23 && rows[k].baseUrl == Some("https://example.com/pdf") && rows[k].pattern == None
    ensures RedirectResponse(rows, "arabnews", now) == Redirect("https://example.com/pdf/4/index.html")
  {
    SequenceRedirect(rows, k, now);
    assert IntText(4) == "4";
    TrimRightCharKeeps("https://example.com/pdf", '/');
    assert "https://example.com/pdf" + "/" + "4" + "/index.html" == "https://example.com/pdf/4/index.html";
  }
}
