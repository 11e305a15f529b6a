/**
 * `Kernel`: the request front end. It keeps the route table, matches a request to the
 * first route registered for its method and path, wraps the action in the route's
 * middleware, and owns the two session structures the controllers use: the single-use
 * CSRF tokens, with their expiry purge, and the flash-message queue.
 *
 * `$_SESSION['csrf']` and `$_SESSION['flash']` are fields of the kernel here. Tokens are
 * given (they are random bytes in the source) and `time()` is a parameter.
 */
module AppKernel {
  import opened Wrappers
  import opened Text

  // ---------------------------------------------------------------------
  // Route patterns
  // ---------------------------------------------------------------------

  /** One `/`-separated piece of a route pattern: fixed text or a `{name}` placeholder. */
  datatype Segment = Lit(text: string) | Param(name: string)

  datatype Route = Route(verb: string, pattern: string, segments: seq<Segment>, action: string, middleware: seq<string>)

  /** A whole piece `{name}` is a placeholder; any other piece is literal text. */
  function CompileSegment(piece: string): Segment
  {
    if |piece| >= 3 && piece[0] == '{' && piece[|piece| - 1] == '}' && '}' !in piece[1..|piece| - 1]
    then Param(piece[1..|piece| - 1])
    else Lit(piece)
  }

  /**
   * A piece is a placeholder exactly when it is `{name}` with a non-empty name free of `}`
   * (the class `[^}/]+` of the source's pattern, the piece holding no `/`).
   */
  lemma CompileSegmentParam(piece: string, name: string)
    requires '/' !in piece
    ensures CompileSegment(piece) == Param(name) <==> piece == "{" + name + "}" && name != [] && '}' !in name
  {
    if piece == "{" + name + "}" {
      assert piece[1..|piece| - 1] == name;
    }
  }

  /** `compilePattern`: the pattern's pieces, each literal or a placeholder. */
  function CompilePattern(pattern: string): (segs: seq<Segment>)
    ensures |segs| == |Split(pattern, '/')|
    ensures forall i | 0 <= i < |segs| :: segs[i] == CompileSegment(Split(pattern, '/')[i])
    ensures forall i | 0 <= i < |segs| && segs[i].Lit? :: segs[i].text == Split(pattern, '/')[i]
  {
    var pieces := Split(pattern, '/');
    seq(|pieces|, i requires 0 <= i < |pieces| => CompileSegment(pieces[i]))
  }

  /**
   * The anchored match of a compiled pattern against the pieces of a path: literal pieces
   * must be equal, a placeholder takes one non-empty piece, and the captured pieces come
   * back in order.
   */
  function MatchSegments(segs: seq<Segment>, parts: seq<string>): Option<seq<string>>
    decreases |segs|
  {
    if |segs| != |parts| then None
    else if segs == [] then Some([])
    else
      match MatchSegments(segs[1..], parts[1..])
      case None => None
      case Some(rest) =>
        match segs[0]
        case Lit(t) => if t == parts[0] then Some(rest) else None
        case Param(_) => if parts[0] != [] then Some([parts[0]] + rest) else None
  }

  /** The pieces of the path a pattern describes once its placeholders are filled in. */
  function Fill(segs: seq<Segment>, params: seq<string>): Option<seq<string>>
    decreases |segs|
  {
    if segs == [] then (if params == [] then Some([]) else None)
    else
      match segs[0]
      case Lit(t) =>
        (match Fill(segs[1..], params)
         case Some(rest) => Some([t] + rest)
         case None => None)
      case Param(_) =>
        if params == [] then None
        else
          match Fill(segs[1..], params[1..])
          case Some(rest) => Some([params[0]] + rest)
          case None => None
  }

  /** A match only succeeds on the path the pattern describes with the captured values. */
  lemma {:induction false} MatchIsFill(segs: seq<Segment>, parts: seq<string>)
    requires MatchSegments(segs, parts).Some?
    ensures Fill(segs, MatchSegments(segs, parts).value) == Some(parts)
    ensures forall i | 0 <= i < |MatchSegments(segs, parts).value| :: MatchSegments(segs, parts).value[i] != []
    decreases |segs|
  {
    if segs != [] {
      MatchIsFill(segs[1..], parts[1..]);
      assert parts == [parts[0]] + parts[1..];
      var ps := MatchSegments(segs, parts).value;
      if segs[0].Param? {
        assert ps[1..] == MatchSegments(segs[1..], parts[1..]).value;
      }
    }
  }

  /** ... and it does succeed on every such path whose values are non-empty. */
  lemma {:induction false} FillIsMatch(segs: seq<Segment>, params: seq<string>)
    requires Fill(segs, params).Some?
    requires forall i | 0 <= i < |params| :: params[i] != []
    ensures MatchSegments(segs, Fill(segs, params).value) == Some(params)
    decreases |segs|
  {
    if segs != [] {
      var parts := Fill(segs, params).value;
      if segs[0].Lit? {
        FillIsMatch(segs[1..], params);
        assert parts[1..] == Fill(segs[1..], params).value;
      } else {
        FillIsMatch(segs[1..], params[1..]);
        assert parts[1..] == Fill(segs[1..], params[1..]).value;
        assert params == [params[0]] + params[1..];
      }
    }
  }

  lemma {:induction false} FillLength(segs: seq<Segment>, params: seq<string>)
    requires Fill(segs, params).Some?
    ensures |Fill(segs, params).value| == |segs|
    decreases |segs|
  {
    if segs != [] {
      if segs[0].Lit? {
        FillLength(segs[1..], params);
      } else {
        FillLength(segs[1..], params[1..]);
      }
    }
  }

  lemma {:induction false} FillPieces(segs: seq<Segment>, params: seq<string>, i: nat)
    requires Fill(segs, params).Some? && i < |segs|
    ensures i < |Fill(segs, params).value|
    ensures segs[i].Lit? ==> Fill(segs, params).value[i] == segs[i].text
    ensures segs[i].Param? ==> exists j | 0 <= j < |params| :: Fill(segs, params).value[i] == params[j]
    decreases |segs|
  {
    FillLength(segs, params);
    if i > 0 {
      if segs[0].Lit? {
        FillPieces(segs[1..], params, i - 1);
      } else {
        FillPieces(segs[1..], params[1..], i - 1);
        if segs[i].Param? {
          var j :| 0 <= j < |params[1..]| && Fill(segs[1..], params[1..]).value[i - 1] == params[1..][j];
          assert params[j + 1] == params[1..][j];
        }
      }
    }
  }

  // ---------------------------------------------------------------------
  // Matching a request
  // ---------------------------------------------------------------------

  /** `parse_url(...) ?: '/'`: a missing path, `""` and `"0"` all read as `/`. */
  function RequestPath(parsed: Option<string>): string
  {
    if parsed.None? || parsed.value == [] || parsed.value == "0" then "/" else parsed.value
  }

  /** The captured values when `route` answers `verb` (already upper-cased) on `path`. */
  function RouteMatch(route: Route, verb: string, path: string): Option<seq<string>>
  {
    if route.verb != verb then None else MatchSegments(route.segments, Split(path, '/'))
  }

  /** Where a route for `pattern` answers: exactly on the paths the pattern describes,
      with non-empty, slash-free values in its placeholders. */
  lemma RouteMatchesFilledPattern(route: Route, path: string)
    requires route.segments == CompilePattern(route.pattern)
    requires RouteMatch(route, route.verb, path).Some?
    ensures var ps := RouteMatch(route, route.verb, path).value;
      Fill(route.segments, ps).Some? && Join(Fill(route.segments, ps).value, '/') == path
  {
    MatchIsFill(route.segments, Split(path, '/'));
    JoinSplit(path, '/');
  }

  lemma FilledPatternMatches(route: Route, params: seq<string>)
    requires route.segments == CompilePattern(route.pattern)
    requires Fill(route.segments, params).Some?
    requires forall i | 0 <= i < |params| :: params[i] != [] && '/' !in params[i]
    ensures RouteMatch(route, route.verb, Join(Fill(route.segments, params).value, '/')) == Some(params)
  {
    var parts := Fill(route.segments, params).value;
    FillLength(route.segments, params);
    forall i | 0 <= i < |parts|
      ensures '/' !in parts[i]
    {
      FillPieces(route.segments, params, i);
    }
    SplitJoin(parts, '/');
    FillIsMatch(route.segments, params);
  }

  /** The pieces of `/admin/newspapers/{slug}/increment`. */
  lemma IncrementPatternPieces(pattern: string)
    requires pattern == "/admin/newspapers/{slug}/increment"
    ensures Split(pattern, '/') == ["", "admin", "newspapers", "{slug}", "increment"]
  {
    var slug := "{slug}";
    assert pattern == "/admin/newspapers/" + slug + "/increment";
    RequestPathPieces(pattern, slug);
  }

  lemma IncrementPatternSegments(pattern: string)
    requires pattern == "/admin/newspapers/{slug}/increment"
    ensures CompilePattern(pattern) == [Lit(""), Lit("admin"), Lit("newspapers"), Param("slug"), Lit("increment")]
  {
    IncrementPatternPieces(pattern);
    assert CompileSegment("{slug}") == Param("slug");
  }

  /** Five slash-free pieces joined by slashes split back into those pieces. */
  lemma SplitFive(a: string, b: string, c: string, d: string, e: string)
    requires '/' !in a && '/' !in b && '/' !in c && '/' !in d && '/' !in e
    ensures Split(a + "/" + (b + "/" + (c + "/" + (d + "/" + e))), '/') == [a, b, c, d, e]
  {
    SplitNoSep(e, '/');
    SplitAfterPiece(d, e, '/');
    var t3 := d + "/" + e;
    SplitAfterPiece(c, t3, '/');
    var t2 := c + "/" + t3;
    SplitAfterPiece(b, t2, '/');
    var t1 := b + "/" + t2;
    SplitAfterPiece(a, t1, '/');
  }

  lemma RequestPathPieces(path: string, slug: string)
    requires path == "/admin/newspapers/" + slug + "/increment" && '/' !in slug
    ensures Split(path, '/') == ["", "admin", "newspapers", slug, "increment"]
  {
    var a, b, c, e := "", "admin", "newspapers", "increment";
    assert path == a + "/" + (b + "/" + (c + "/" + (slug + "/" + e)));
    SplitFive(a, b, c, slug, e);
  }

  /** The dashboard's increment route captures the slug, and does not match an empty one. */
  lemma IncrementRouteMatch(route: Route, path: string, slug: string)
    requires route.pattern == "/admin/newspapers/{slug}/increment"
    requires route.segments == CompilePattern(route.pattern)
    requires path == "/admin/newspapers/" + slug + "/increment" && '/' !in slug
    ensures RouteMatch(route, route.verb, path) == if slug == [] then None else Some([slug])
  {
    IncrementPatternSegments(route.pattern);
    RequestPathPieces(path, slug);
    var segs := [Lit(""), Lit("admin"), Lit("newspapers"), Param("slug"), Lit("increment")];
    var parts := ["", "admin", "newspapers", slug, "increment"];
    var tail := MatchSegments(segs[4..], parts[4..]);
    assert tail == Some([]) by {
      assert MatchSegments(segs[5..], parts[5..]) == Some([]);
    }
    var captured := if slug == [] then None else Some([slug]);
    assert segs[3..][1..] == segs[4..] && parts[3..][1..] == parts[4..];
    assert segs[3..][0] == Param("slug") && parts[3..][0] == slug && [slug] + [] == [slug];
    assert MatchSegments(segs[3..], parts[3..]) == captured;
    assert segs[2..][1..] == segs[3..] && parts[2..][1..] == parts[3..];
    assert MatchSegments(segs[2..], parts[2..]) == captured;
    assert segs[1..][1..] == segs[2..] && parts[1..][1..] == parts[2..];
    assert MatchSegments(segs[1..], parts[1..]) == captured;
  }

  datatype Matched = Matched(index: nat, params: seq<string>)

  /** The first route from position `i` on that answers the request. */
  function FirstMatchFrom(routes: seq<Route>, i: nat, verb: string, path: string): (r: Option<Matched>)
    requires i <= |routes|
    ensures r.Some? ==> i <= r.value.index < |routes|
    ensures r.Some? ==> RouteMatch(routes[r.value.index], verb, path) == Some(r.value.params)
    decreases |routes| - i
  {
    if i == |routes| then None
    else
      match RouteMatch(routes[i], verb, path)
      case Some(ps) => Some(Matched(i, ps))
      case None => FirstMatchFrom(routes, i + 1, verb, path)
  }

  /** Routes are tried in registration order: the answer is the first route that matches. */
  lemma {:induction false} FirstMatchIsFirst(routes: seq<Route>, i: nat, verb: string, path: string, m: Matched)
    requires i <= |routes|
    ensures FirstMatchFrom(routes, i, verb, path) == Some(m) <==>
      i <= m.index < |routes| && RouteMatch(routes[m.index], verb, path) == Some(m.params)
        && forall j | i <= j < m.index :: RouteMatch(routes[j], verb, path).None?
    decreases |routes| - i
  {
    if i < |routes| {
      FirstMatchIsFirst(routes, i + 1, verb, path, m);
    }
  }

  /** No route answers exactly when every route fails to match. */
  lemma {:induction false} NoMatchMeansNotFound(routes: seq<Route>, i: nat, verb: string, path: string)
    requires i <= |routes|
    ensures FirstMatchFrom(routes, i, verb, path).None? <==>
      forall j | i <= j < |routes| :: RouteMatch(routes[j], verb, path).None?
    decreases |routes| - i
  {
    if i < |routes| {
      NoMatchMeansNotFound(routes, i + 1, verb, path);
    }
  }

  // ---------------------------------------------------------------------
  // Middleware
  // ---------------------------------------------------------------------

  /** The callable `dispatch` builds: the action, wrapped by middleware instances. */
  datatype Chain = Handler | Wrapped(middleware: string, next: Chain)

  /** The middleware in the order they run when the chain is called. */
  function RunOrder(c: Chain): seq<string>
  {
    match c
    case Handler => []
    case Wrapped(m, next) => [m] + RunOrder(next)
  }

  /** `$middlewareMap[$name] ?? $name`. */
  function MiddlewareClass(name: string): string
  {
    if name == "auth" then "App\\Middlewares\\AuthMiddleware"
    else if name == "csrf" then "App\\Middlewares\\CsrfMiddleware"
    else name
  }

  function Classes(names: seq<string>): (r: seq<string>)
    ensures |r| == |names| && forall i | 0 <= i < |names| :: r[i] == MiddlewareClass(names[i])
  {
    seq(|names|, i requires 0 <= i < |names| => MiddlewareClass(names[i]))
  }

  lemma ClassesPrepend(name: string, rest: seq<string>)
    ensures Classes([name] + rest) == [MiddlewareClass(name)] + Classes(rest)
  {
    var l, r := Classes([name] + rest), [MiddlewareClass(name)] + Classes(rest);
    forall i | 0 <= i < |l|
      ensures l[i] == r[i]
    {
      if i > 0 {
        assert ([name] + rest)[i] == rest[i - 1];
      }
    }
  }

  /** `array_reverse`. */
  function Reversed(s: seq<string>): (r: seq<string>)
    ensures |r| == |s| && forall i | 0 <= i < |s| :: r[i] == s[|s| - 1 - i]
  {
    seq(|s|, i requires 0 <= i < |s| => s[|s| - 1 - i])
  }

  /**
   * The pipeline of `dispatch`: the list is reversed and each name wraps what was built
   * so far, so the first-listed middleware is outermost and runs first.
   */
  method BuildPipeline(middleware: seq<string>) returns (chain: Chain)
    ensures RunOrder(chain) == Classes(middleware)
  {
    var pipeline := Reversed(middleware);
    chain := Handler;
    var i := 0;
    while i < |pipeline|
      invariant 0 <= i <= |pipeline|
      invariant RunOrder(chain) == Classes(middleware[|middleware| - i..])
    {
      var k := |middleware| - 1 - i;
      assert middleware[k..] == [middleware[k]] + middleware[k + 1..];
      ClassesPrepend(middleware[k], middleware[k + 1..]);
      chain := Wrapped(MiddlewareClass(pipeline[i]), chain);
      i := i + 1;
    }
    assert middleware[0..] == middleware;
  }

  // ---------------------------------------------------------------------
  // Session state
  // ---------------------------------------------------------------------

  /** A stored token time: an integer from `time()`, or anything else found in the session. */
  datatype TokenTime = IntTime(t: int) | NonInt

  /** A token survives the purge if its time is an integer no more than `ttl` seconds old. */
  predicate Fresh(v: TokenTime, now: int, ttl: int)
  {
    v.IntTime? && now - v.t <= ttl
  }

  /** `purgeOldTokens` on a token map. */
  function Purged(tokens: map<string, TokenTime>, now: int, ttl: int): map<string, TokenTime>
  {
    map k | k in tokens && Fresh(tokens[k], now, ttl) :: tokens[k]
  }

  /** `generateCsrfToken`: store the token with the current time, then purge. */
  function Generated(tokens: map<string, TokenTime>, token: string, now: int, ttl: int): map<string, TokenTime>
  {
    Purged(tokens[token := IntTime(now)], now, ttl)
  }

  /** `validateCsrfToken`: purge, then accept and remove the token if it is still there. */
  function Validated(tokens: map<string, TokenTime>, token: string, now: int, ttl: int): (bool, map<string, TokenTime>)
  {
    var live := Purged(tokens, now, ttl);
    (token in live, live - {token})
  }

  /** The purge keeps exactly the fresh tokens, with their times. */
  lemma PurgeKeepsFresh(tokens: map<string, TokenTime>, now: int, ttl: int, k: string)
    ensures k in Purged(tokens, now, ttl) <==> k in tokens && Fresh(tokens[k], now, ttl)
    ensures k in Purged(tokens, now, ttl) ==> Purged(tokens, now, ttl)[k] == tokens[k]
  {
  }

  /** Purging twice at the same time is purging once; a later purge keeps no more. */
  lemma PurgeIdempotent(tokens: map<string, TokenTime>, now: int, later: int, ttl: int)
    requires now <= later
    ensures Purged(Purged(tokens, now, ttl), now, ttl) == Purged(tokens, now, ttl)
    ensures Purged(Purged(tokens, now, ttl), later, ttl) == Purged(tokens, later, ttl)
  {
  }

  /** A token is accepted at most once. */
  lemma TokenSingleUse(tokens: map<string, TokenTime>, token: string, now: int, later: int, ttl: int)
    ensures !Validated(Validated(tokens, token, now, ttl).1, token, later, ttl).0
  {
  }

  /** A fresh token is accepted until `ttl` seconds have passed and refused afterwards. */
  lemma GeneratedTokenLifetime(tokens: map<string, TokenTime>, token: string, now: int, later: int, ttl: int)
    requires 0 <= ttl && now <= later
    ensures Validated(Generated(tokens, token, now, ttl), token, later, ttl).0 <==> later - now <= ttl
  {
  }

  /** A message shown once on the next page: `['type' => ..., 'message' => ...]`. */
  datatype Flash = Flash(kind: string, message: string)

  datatype Handled = NotFound | Dispatch(action: string, params: seq<string>, runOrder: seq<string>)

  class Kernel {
    var routes: seq<Route>
    var csrf: map<string, TokenTime>
    var flashes: seq<Flash>
    const ttl: int

    constructor (ttl: int)
      ensures routes == [] && csrf == map[] && flashes == [] && this.ttl == ttl
    {
      routes := [];
      csrf := map[];
      flashes := [];
      this.ttl := ttl;
    }

    /** `register`: appends a route for the upper-cased method and compiled pattern. */
    method Register(verb: string, pattern: string, action: string, middleware: seq<string>)
      modifies this
      ensures routes == old(routes) + [Route(Upper(verb), pattern, CompilePattern(pattern), action, middleware)]
      ensures csrf == old(csrf) && flashes == old(flashes)
    {
      routes := routes + [Route(Upper(verb), pattern, CompilePattern(pattern), action, middleware)];
    }

    /**
     * `handle`: the first registered route for the upper-cased method whose pattern
     * matches the path is dispatched with its captured values; otherwise 404.
     */
    method Handle(parsedPath: Option<string>, verb: string) returns (r: Handled)
      ensures var m := FirstMatchFrom(routes, 0, Upper(verb), RequestPath(parsedPath));
        && (m.None? ==> r == NotFound)
        && (m.Some? ==> r == Dispatch(routes[m.value.index].action, m.value.params,
                                      Classes(routes[m.value.index].middleware)))
    {
      var path := RequestPath(parsedPath);
      var upper := Upper(verb);
      var i := 0;
      while i < |routes|
        invariant 0 <= i <= |routes|
        invariant FirstMatchFrom(routes, 0, upper, path) == FirstMatchFrom(routes, i, upper, path)
      {
        var route := routes[i];
        if route.verb == upper {
          var captured := MatchSegments(route.segments, Split(path, '/'));
          if captured.Some? {
            var chain := BuildPipeline(route.middleware);
            return Dispatch(route.action, captured.value, RunOrder(chain));
          }
        }
        i := i + 1;
      }
      return NotFound;
    }

    /** `purgeOldTokens`: walks the stored tokens and drops the stale ones. */
    method PurgeOldTokens(now: int)
      modifies this
      ensures csrf == Purged(old(csrf), now, ttl)
      ensures routes == old(routes) && flashes == old(flashes)
    {
      var tokens := csrf;
      var pending := tokens.Keys;
      while pending != {}
        invariant pending <= tokens.Keys <= csrf.Keys
        invariant forall k | k in tokens :: tokens[k] == csrf[k]
        invariant forall k | k in csrf && k !in pending :: (k in tokens <==> Fresh(csrf[k], now, ttl))
        decreases pending
      {
        var k :| k in pending;
        if !Fresh(tokens[k], now, ttl) {
          tokens := tokens - {k};
        }
        pending := pending - {k};
      }
      assert tokens == Purged(csrf, now, ttl);
      csrf := tokens;
    }

    /** `generateCsrfToken`, for the random token `token` drawn at time `now`. */
    method GenerateCsrfToken(token: string, now: int) returns (t: string)
      modifies this
      ensures t == token
      ensures csrf == Generated(old(csrf), token, now, ttl)
      ensures routes == old(routes) && flashes == old(flashes)
    {
      csrf := csrf[token := IntTime(now)];
      PurgeOldTokens(now);
      t := token;
    }

    /** `validateCsrfToken`. */
    method ValidateCsrfToken(token: string, now: int) returns (ok: bool)
      modifies this
      ensures (ok, csrf) == Validated(old(csrf), token, now, ttl)
      ensures routes == old(routes) && flashes == old(flashes)
    {
      PurgeOldTokens(now);
      if token in csrf {
        csrf := csrf - {token};
        return true;
      }
      assert csrf - {token} == csrf;
      return false;
    }

    /** `flash`: queue a message. */
    method AddFlash(kind: string, message: string)
      modifies this
      ensures flashes == old(flashes) + [Flash(kind, message)]
      ensures routes == old(routes) && csrf == old(csrf)
    {
      flashes := flashes + [Flash(kind, message)];
    }

    /** `consumeFlash`: every queued message, oldest first; the queue is left empty. */
    method ConsumeFlash() returns (fs: seq<Flash>)
      modifies this
      ensures fs == old(flashes) && flashes == []
      ensures routes == old(routes) && csrf == old(csrf)
    {
      fs := flashes;
      flashes := [];
    }
  }
}
