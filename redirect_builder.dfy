/**
 * `RedirectBuilder`: turns a newspaper record and the current civil time into the URL
 * a reader is redirected to, and records that URL on the row.
 *
 * Date papers substitute `{Y}`, `{m}`, `{d}` in their pattern, monthly papers
 * substitute `{month_year}`, and sequence papers substitute `{id}` in their pattern or
 * else append `/<id>/index.html` to their base URL. Every failure is a `Failure`.
 */
module RedirectBuilder {
  import opened Wrappers
  import opened Text
  import opened Calendar
  import opened Errors
  import opened Newspapers

  const DateKeys: seq<string> := ["{Y}", "{m}", "{d}"]
  const MonthKeys: seq<string> := ["{month_year}"]
  const IdKeys: seq<string> := ["{id}"]

  /** `format('Y')`, `format('m')`, `format('d')` of the civil date of `now`. */
  function DateValues(now: Instant): (vals: seq<string>)
    ensures |vals| == 3
  {
    var d := CivilFromDays(now.day);
    [YearText(d.year), TwoDigits(d.month), TwoDigits(d.day)]
  }

  /** `buildDateUrl`. */
  function BuildDateUrl(pattern: string, now: Instant): string
  {
    Strtr(pattern, DateKeys, DateValues(now))
  }

  /** PHP `str_replace` of one character by another. */
  function ReplaceChar(s: string, from: char, to: char): (r: string)
    ensures |r| == |s|
    ensures forall i | 0 <= i < |s| :: r[i] == (if s[i] == from then to else s[i])
  {
    seq(|s|, i requires 0 <= i < |s| => if s[i] == from then to else s[i])
  }

  /** `strtolower(format('F-Y'))` with spaces turned into dashes. */
  function MonthYear(now: Instant): string
  {
    var d := CivilFromDays(now.day);
    ReplaceChar(Lower(MonthName(d.month) + "-" + YearText(d.year)), ' ', '-')
  }

  /** `buildMonthlyUrl`. */
  function BuildMonthlyUrl(pattern: string, now: Instant): string
  {
    Strtr(pattern, MonthKeys, [MonthYear(now)])
  }

  /**
   * `buildSequenceUrl`: a pattern holding `{id}` wins; otherwise the base URL, with
   * its trailing slashes dropped, gets `/<id>/index.html`; with neither it fails.
   */
  function BuildSequenceUrl(baseUrl: Option<string>, id: int, pattern: Option<string>): (r: Result<string, Failure>)
    ensures r.Err? <==> !(pattern.Some? && Contains(pattern.value, "{id}")) && (baseUrl.None? || baseUrl.value == [])
    ensures r.Err? ==> r.error == MissingBaseUrl
  {
    if pattern.Some? && Contains(pattern.value, "{id}") then Ok(Strtr(pattern.value, IdKeys, [IntText(id)]))
    else if baseUrl.None? || baseUrl.value == [] then Err(MissingBaseUrl)
    else Ok(TrimRightChar(baseUrl.value, '/') + "/" + IntText(id) + "/index.html")
  }

  /** `requirePattern`: a null or empty pattern is an error naming the slug. */
  function RequirePattern(paper: Newspaper): (r: Result<string, Failure>)
    ensures r.Ok? <==> paper.pattern.Some? && paper.pattern.value != []
    ensures r.Ok? ==> r.value == paper.pattern.value
    ensures r.Err? ==> r.error == MissingPattern(paper.slug)
  {
    match paper.pattern
    case Some(p) => if p == [] then Err(MissingPattern(paper.slug)) else Ok(p)
    case None => Err(MissingPattern(paper.slug))
  }

  /** `requireSequenceId`: an explicit id wins, else the stored id, else an error. */
  function RequireSequenceId(paper: Newspaper, sequenceId: Option<int>): (r: Result<int, Failure>)
    ensures sequenceId.Some? ==> r == Ok(sequenceId.value)
    ensures sequenceId.None? && paper.localLatestId.Some? ==> r == Ok(paper.localLatestId.value)
    ensures sequenceId.None? && paper.localLatestId.None? ==> r == Err(MissingLatestId)
  {
    if sequenceId.Some? then Ok(sequenceId.value)
    else if paper.localLatestId.Some? then Ok(paper.localLatestId.value)
    else Err(MissingLatestId)
  }

  /** The `match` of `buildFor`: the URL for the paper's type, or why there is none. */
  function BuildUrl(paper: Newspaper, now: Instant, sequenceId: Option<int>): Result<string, Failure>
  {
    if paper.kind == TypeDate then
      var pattern :- RequirePattern(paper);
      Ok(BuildDateUrl(pattern, now))
    else if paper.kind == TypeMonthly then
      var pattern :- RequirePattern(paper);
      Ok(BuildMonthlyUrl(pattern, now))
    else if paper.kind == TypeSequence then
      var id :- RequireSequenceId(paper, sequenceId);
      BuildSequenceUrl(paper.baseUrl, id, paper.pattern)
    else Err(UnsupportedType)
  }

  /** The four ways `buildFor` fails, and nothing else. */
  lemma BuildUrlFailures(paper: Newspaper, now: Instant, sequenceId: Option<int>)
    ensures var r := BuildUrl(paper, now, sequenceId);
      var noPattern := paper.pattern.None? || paper.pattern.value == [];
      var idPattern := paper.pattern.Some? && Contains(paper.pattern.value, "{id}");
      && (paper.kind !in {TypeDate, TypeMonthly, TypeSequence} <==> r == Err(UnsupportedType))
      && ((paper.kind == TypeDate || paper.kind == TypeMonthly) ==>
            (r.Err? <==> noPattern) && (r.Err? ==> r.error == MissingPattern(paper.slug)))
      && (paper.kind == TypeSequence ==>
            (r == Err(MissingLatestId) <==> sequenceId.None? && paper.localLatestId.None?)
            && (r == Err(MissingBaseUrl) <==>
                  ((sequenceId.Some? || paper.localLatestId.Some?)
                   && !idPattern && (paper.baseUrl.None? || paper.baseUrl.value == []))))
  {
  }

  /**
   * `buildFor`: builds the URL and, only when that succeeds, writes it as the row's
   * `last_redirect_url` (and on the record); a failure writes nothing.
   */
  method BuildFor(store: Store, paper: Newspaper, now: Instant, sequenceId: Option<int>, stamp: Instant)
    returns (r: Result<string, Failure>, updated: Newspaper)
    requires store.Valid()
    modifies store
    ensures store.Valid() && store.nextId == old(store.nextId)
    ensures r == BuildUrl(paper, now, sequenceId)
    ensures r.Err? ==> store.rows == old(store.rows) && updated == paper
    ensures r.Ok? ==> updated == WithRedirectUrl(paper, r.value, stamp)
    ensures r.Ok? ==> store.rows == Patched(old(store.rows), paper.id,
           WithRedirectUrl(if paper.id in old(store.rows) then old(store.rows)[paper.id] else paper, r.value, stamp))
  {
    r := BuildUrl(paper, now, sequenceId);
    updated := paper;
    if r.Ok? {
      updated := store.UpdateLastRedirectUrl(paper, r.value, stamp);
    }
  }

  // ---------------------------------------------------------------------
  // What the builders produce
  // ---------------------------------------------------------------------

  /** Text without `{` holds no placeholder; every key starts with `{`. */
  predicate Plain(s: string) { '{' !in s }

  /** Placeholders in braces that differ in their first letter: none is a prefix of another. */
  predicate Placeholders(keys: seq<string>)
  {
    && (forall j | 0 <= j < |keys| :: |keys[j]| >= 2 && keys[j][0] == '{')
    && (forall j, k | 0 <= j < k < |keys| :: keys[j][1] != keys[k][1])
  }

  /** Plain text in front of a placeholder is copied, the placeholder replaced. */
  lemma PlaceholderStep(j: nat, pre: string, b: string, keys: seq<string>, vals: seq<string>)
    requires ValidPairs(keys, vals) && Placeholders(keys) && j < |keys| && Plain(pre)
    ensures Strtr(pre + (keys[j] + b), keys, vals) == pre + (vals[j] + Strtr(b, keys, vals))
  {
    forall k | 0 <= k < |keys| && k != j
      ensures !StartsWith(keys[j] + b, keys[k])
    {
    }
    StrtrKey(j, b, keys, vals);
    StrtrPlain(pre, keys[j] + b, keys, vals);
  }

  /** Plain text is copied unchanged. */
  lemma PlainKept(b: string, keys: seq<string>, vals: seq<string>)
    requires ValidPairs(keys, vals) && Placeholders(keys) && Plain(b)
    ensures Strtr(b, keys, vals) == b
  {
    StrtrPlain(b, [], keys, vals);
    assert b + [] == b;
  }

  /**
   * In a pattern made of plain text and the three date placeholders, each placeholder
   * becomes its part of the date and the text between them is kept.
   */
  lemma DateUrlShape(a: string, s1: string, s2: string, b: string, now: Instant)
    requires Plain(a) && Plain(s1) && Plain(s2) && Plain(b)
    ensures var v := DateValues(now);
      BuildDateUrl(a + ("{Y}" + (s1 + ("{m}" + (s2 + ("{d}" + b))))), now)
        == a + (v[0] + (s1 + (v[1] + (s2 + (v[2] + b)))))
  {
    var v := DateValues(now);
    var k := DateKeys;
    DateKeysPlaceholders();
    PlainKept(b, k, v);
    PlaceholderStep(2, s2, b, k, v);
    PlaceholderStep(1, s1, s2 + ("{d}" + b), k, v);
    PlaceholderStep(0, a, s1 + ("{m}" + (s2 + ("{d}" + b))), k, v);
  }

  lemma DateKeysPlaceholders()
    ensures Placeholders(DateKeys) && |DateKeys| == 3
  {
  }

  /** The civil date 2025-01-15 is day 20103 and 2025-11-01 is day 20393. */
  lemma TestDates()
    ensures CivilFromDays(20103) == Date(2025, 1, 15)
    ensures CivilFromDays(20393) == Date(2025, 11, 1)
  {
    CivilFromDaysAt(20103, 5, 9086, 24);
    CivilFromDaysAt(20393, 5, 9376, 25);
  }

  /** `CivilFromDays` with its era, day of era and year of era given. */
  lemma CivilFromDaysAt(z: int, era: int, doe: int, yoe: int)
    requires era == (z + 719468) / 146097 && doe == z + 719468 - era * 146097
    requires yoe == NoLeapDays(doe) / 365
    ensures 0 <= doe - YearStart(yoe) <= 365
    ensures CivilFromDays(z) == CivilOfYear(era, yoe, doe - YearStart(yoe))
  {
    EraSplit(doe);
  }

  lemma FourDigitYear()
    ensures YearText(2025) == "2025"
  {
    assert Decimal(2025) == "2025";
  }

  lemma OkazText()
    ensures "https://www.okaz.com.sa/digitals/" + ("2025" + ("/" + ("01" + ("/" + ("15" + "/index.html")))))
      == "https://www.okaz.com.sa/digitals/2025/01/15/index.html"
  {
  }

  lemma RingText()
    ensures "https://ringmagazine.com/en/magazines/" + ("november-2025" + "/view")
      == "https://ringmagazine.com/en/magazines/november-2025/view"
  {
  }

  lemma DateValuesExample(now: Instant)
    requires now.day == 20103
    ensures DateValues(now) == ["2025", "01", "15"]
  {
    TestDates();
    FourDigitYear();
    assert TwoDigits(1) == "01";
    assert TwoDigits(15) == "15";
  }

  /** The date-paper unit test: okaz on 2025-01-15. */
  lemma DateUrlExample(pattern: string, now: Instant)
    requires pattern == "https://www.okaz.com.sa/digitals/{Y}/{m}/{d}/index.html"
    requires now.day == 20103
    ensures BuildDateUrl(pattern, now) == "https://www.okaz.com.sa/digitals/2025/01/15/index.html"
  {
    var a := OkazPrefix(pattern);
    OkazPlain(a);
    PlainPieces();
    DateUrlShape(a, "/", "/", "/index.html", now);
    DateValuesExample(now);
    OkazText();
  }

  /** The okaz pattern is plain text around the three date placeholders. */
  lemma OkazPrefix(pattern: string) returns (a: string)
    requires pattern == "https://www.okaz.com.sa/digitals/{Y}/{m}/{d}/index.html"
    ensures a == "https://www.okaz.com.sa/digitals/"
    ensures pattern == a + ("{Y}" + ("/" + ("{m}" + ("/" + ("{d}" + "/index.html")))))
  {
    a := "https://www.okaz.com.sa/digitals/";
  }

  lemma OkazPlain(a: string)
    requires a == "https://www.okaz.com.sa/digitals/"
    ensures Plain(a)
  {
  }

  lemma PlainPieces()
    ensures Plain("/") && Plain("/index.html") && Plain("/view")
  {
  }

  /** Equal concatenations whose first parts have equal lengths agree part by part. */
  lemma SplitEqual(x1: string, y1: string, x2: string, y2: string)
    requires x1 + y1 == x2 + y2 && |x1| == |x2|
    ensures x1 == x2 && y1 == y2
  {
    assert x1 == (x1 + y1)[..|x1|] && x2 == (x2 + y2)[..|x2|];
    assert y1 == (x1 + y1)[|x1|..] && y2 == (x2 + y2)[|x2|..];
  }

  lemma DecimalWidth(n: nat)
    requires n < 10000
    ensures |Decimal(n)| <= 4
  {
    if n >= 10 {
      assert Decimal(n) == Decimal(n / 10) + [DigitChar(n % 10)];
      if n >= 100 {
        assert Decimal(n / 10) == Decimal(n / 100) + [DigitChar((n / 10) % 10)];
        if n >= 1000 {
          assert Decimal(n / 100) == Decimal(n / 1000) + [DigitChar((n / 100) % 10)];
        }
      }
    }
  }

  lemma YearTextWidth(year: int)
    requires 0 <= year < 10000
    ensures |YearText(year)| == 4
  {
    DecimalWidth(year);
  }

  /**
   * For a date pattern `a{Y}s1{m}s2{d}b`, the URL determines the day: two days with
   * four-digit years give the same URL only if they are the same day.
   */
  lemma DateUrlDeterminesDay(a: string, s1: string, s2: string, b: string, n1: Instant, n2: Instant)
    requires Plain(a) && Plain(s1) && Plain(s2) && Plain(b)
    requires 0 <= CivilFromDays(n1.day).year < 10000 && 0 <= CivilFromDays(n2.day).year < 10000
    requires var p := a + ("{Y}" + (s1 + ("{m}" + (s2 + ("{d}" + b)))));
      BuildDateUrl(p, n1) == BuildDateUrl(p, n2)
    ensures n1.day == n2.day
  {
    var d1, d2 := CivilFromDays(n1.day), CivilFromDays(n2.day);
    var v, w := DateValues(n1), DateValues(n2);
    DateUrlShape(a, s1, s2, b, n1);
    DateUrlShape(a, s1, s2, b, n2);
    YearTextWidth(d1.year);
    YearTextWidth(d2.year);
    SplitEqual(a, v[0] + (s1 + (v[1] + (s2 + (v[2] + b)))), a, w[0] + (s1 + (w[1] + (s2 + (w[2] + b)))));
    SplitEqual(v[0], s1 + (v[1] + (s2 + (v[2] + b))), w[0], s1 + (w[1] + (s2 + (w[2] + b))));
    SplitEqual(s1, v[1] + (s2 + (v[2] + b)), s1, w[1] + (s2 + (w[2] + b)));
    SplitEqual(v[1], s2 + (v[2] + b), w[1], s2 + (w[2] + b));
    SplitEqual(s2, v[2] + b, s2, w[2] + b);
    SplitEqual(v[2], b, w[2], b);
    assert d1 == d2;
    CivilRoundTrip(n1.day);
    CivilRoundTrip(n2.day);
  }

  /** No month name holds a space. */
  lemma MonthNamesUnspaced(month: int)
    requires 1 <= month <= 12
    ensures ' ' !in MonthName(month)
  {
    var n := MonthName(month);
    assert n in MonthNames;
    forall i | 0 <= i < |MonthNames|
      ensures ' ' !in MonthNames[i]
    {
    }
  }

  /** A year's text holds no space. */
  lemma YearTextUnspaced(year: int)
    ensures ' ' !in YearText(year)
  {
    var y := YearText(year);
    if year >= 0 {
      assert forall i | 0 <= i < |y| :: IsDigit(y[i]);
    } else {
      var z := ZeroPad(-year, 4);
      assert y == "-" + z;
      assert forall i | 0 <= i < |z| :: IsDigit(z[i]);
    }
  }

  /** A year's text holds no capital letter. */
  lemma YearTextLower(year: int)
    ensures Lower(YearText(year)) == YearText(year)
  {
    var y := YearText(year);
    if year >= 0 {
      assert forall i | 0 <= i < |y| :: IsDigit(y[i]);
    } else {
      var z := ZeroPad(-year, 4);
      assert y == "-" + z;
      assert forall i | 0 <= i < |z| :: IsDigit(z[i]);
    }
    LowerKeeps(y);
  }

  /** Text without spaces goes through `str_replace(' ', '-', ...)` unchanged. */
  lemma ReplaceUnspaced(s: string)
    requires ' ' !in s
    ensures ReplaceChar(s, ' ', '-') == s
  {
  }

  lemma LowerAppend(a: string, b: string)
    ensures Lower(a + b) == Lower(a) + Lower(b)
  {
  }

  lemma LowerUnspaced(s: string)
    requires ' ' !in s
    ensures ' ' !in Lower(s)
  {
    forall i | 0 <= i < |s|
      ensures Lower(s)[i] != ' '
    {
      assert s[i] != ' ';
    }
  }

  /** Text without capital letters is its own lower case. */
  lemma LowerKeeps(s: string)
    requires forall i | 0 <= i < |s| :: !('A' <= s[i] <= 'Z')
    ensures Lower(s) == s
  {
  }

  /** `str_replace(' ', '-', ...)` leaves a lower-cased `Month-Year` as it is. */
  lemma MonthYearUnspaced(name: string, year: int)
    requires ' ' !in name
    ensures ReplaceChar(Lower(name + "-" + YearText(year)), ' ', '-') == Lower(name) + "-" + YearText(year)
  {
    var y := YearText(year);
    YearTextUnspaced(year);
    YearTextLower(year);
    LowerAppend(name + "-", y);
    LowerAppend(name, "-");
    LowerKeeps("-");
    var t := Lower(name) + "-" + y;
    assert Lower(name + "-" + y) == t;
    LowerUnspaced(name);
    assert ' ' !in t;
    ReplaceUnspaced(t);
  }

  /** Month names hold no spaces, so `str_replace` leaves `month-year` as it is. */
  lemma MonthYearShape(now: Instant)
    ensures var d := CivilFromDays(now.day);
      MonthYear(now) == Lower(MonthName(d.month)) + "-" + YearText(d.year)
  {
    var d := CivilFromDays(now.day);
    MonthNamesUnspaced(d.month);
    MonthYearUnspaced(MonthName(d.month), d.year);
  }

  /** In a pattern made of plain text around `{month_year}` only that placeholder changes. */
  lemma MonthlyUrlShape(a: string, b: string, now: Instant)
    requires Plain(a) && Plain(b)
    ensures BuildMonthlyUrl(a + ("{month_year}" + b), now) == a + (MonthYear(now) + b)
  {
    var k, v := MonthKeys, [MonthYear(now)];
    PlainKept(b, k, v);
    PlaceholderStep(0, a, b, k, v);
  }

  lemma MonthYearExample(now: Instant)
    requires now.day == 20393
    ensures MonthYear(now) == "november-2025"
  {
    TestDates();
    FourDigitYear();
    MonthYearShape(now);
    assert Lower("November") == "november";
  }

  /** The monthly-paper unit test: ring on 2025-11-01. */
  lemma MonthlyUrlExample(pattern: string, now: Instant)
    requires pattern == "https://ringmagazine.com/en/magazines/{month_year}/view"
    requires now.day == 20393
    ensures BuildMonthlyUrl(pattern, now) == "https://ringmagazine.com/en/magazines/november-2025/view"
  {
    var a := RingPrefix(pattern);
    RingPlain(a);
    PlainPieces();
    MonthlyUrlShape(a, "/view", now);
    MonthYearExample(now);
    RingText();
  }

  /** The ring pattern is plain text around `{month_year}`. */
  lemma RingPrefix(pattern: string) returns (a: string)
    requires pattern == "https://ringmagazine.com/en/magazines/{month_year}/view"
    ensures a == "https://ringmagazine.com/en/magazines/" && pattern == a + ("{month_year}" + "/view")
  {
    a := "https://ringmagazine.com/en/magazines/";
  }

  lemma RingPlain(a: string)
    requires a == "https://ringmagazine.com/en/magazines/"
    ensures Plain(a)
  {
  }

  /** A sequence pattern `a{id}b` gets the decimal id in place of `{id}`. */
  lemma SequencePatternShape(a: string, b: string, baseUrl: Option<string>, id: int)
    requires Plain(a) && Plain(b)
    ensures BuildSequenceUrl(baseUrl, id, Some(a + ("{id}" + b))) == Ok(a + (IntText(id) + b))
  {
    var p := a + ("{id}" + b);
    assert p[|a|..] == "{id}" + b;
    assert StartsWith(p[|a|..], "{id}");
    ContainsAt(p, "{id}");
    var k, v := IdKeys, [IntText(id)];
    PlainKept(b, k, v);
    PlaceholderStep(0, a, b, k, v);
  }

  /** A base URL that does not end in `/` is kept as it is. */
  lemma TrimRightCharKeeps(s: string, c: char)
    requires s != [] && s[|s| - 1] != c
    ensures TrimRightChar(s, c) == s
  {
  }

  /** Without an `{id}` pattern, the URL is the base without trailing slashes, the id and
      `/index.html`. */
  lemma SequenceBaseShape(base: string, id: int, pattern: Option<string>)
    requires base != []
    requires pattern.None? || !Contains(pattern.value, "{id}")
    ensures BuildSequenceUrl(Some(base), id, pattern) == Ok(TrimRightChar(base, '/') + "/" + IntText(id) + "/index.html")
  {
  }

  /** The sequence unit test with a base URL: id 11. */
  lemma SequenceBaseExample(base: string, id: int)
    requires base == "https://example.com/pdf" && id == 11
    ensures BuildSequenceUrl(Some(base), id, None) == Ok("https://example.com/pdf/11/index.html")
  {
    DecimalDigits(id);
    assert IntText(id) == "11";
    TrimRightCharKeeps(base, '/');
    assert base + "/" + "11" + "/index.html" == "https://example.com/pdf/11/index.html";
  }

  /** The sequence unit test with an `issue{id}/` pattern: id 200. */
  lemma SequencePatternExample(base: string, pattern: string, id: int)
    requires base == "https://aawsat.com/files/pdf/issue" && id == 200
    requires pattern == "https://aawsat.com/files/pdf/issue{id}/"
    ensures BuildSequenceUrl(Some(base), id, Some(pattern)) == Ok("https://aawsat.com/files/pdf/issue200/")
  {
    var a := AawsatPrefix(pattern);
    SequencePatternShape(a, "/", Some(base), id);
    DecimalDigits(id);
    assert IntText(id) == "200";
    AawsatText();
  }

  /** The aawsat pattern is plain text around `{id}`. */
  lemma AawsatPrefix(pattern: string) returns (a: string)
    requires pattern == "https://aawsat.com/files/pdf/issue{id}/"
    ensures a == "https://aawsat.com/files/pdf/issue" && pattern == a + ("{id}" + "/")
    ensures Plain(a) && Plain("/")
  {
    a := "https://aawsat.com/files/pdf/issue";
  }

  lemma AawsatText()
    ensures "https://aawsat.com/files/pdf/issue" + ("200" + "/") == "https://aawsat.com/files/pdf/issue200/"
  {
  }

  /** Sequence URLs of different issues differ, so the issue can be read off the URL. */
  lemma SequenceUrlDeterminesId(baseUrl: Option<string>, pattern: Option<string>, id1: int, id2: int)
    requires BuildSequenceUrl(baseUrl, id1, pattern).Ok?
    requires pattern.Some? && Contains(pattern.value, "{id}") ==>
      exists a, b | Plain(a) && Plain(b) :: pattern.value == a + ("{id}" + b)
    requires BuildSequenceUrl(baseUrl, id1, pattern) == BuildSequenceUrl(baseUrl, id2, pattern)
    ensures id1 == id2
  {
    var t1, t2 := IntText(id1), IntText(id2);
    if pattern.Some? && Contains(pattern.value, "{id}") {
      var a, b :| Plain(a) && Plain(b) && pattern.value == a + ("{id}" + b);
      SequencePatternShape(a, b, baseUrl, id1);
      SequencePatternShape(a, b, baseUrl, id2);
      SplitEqual(a, t1 + b, a, t2 + b);
      assert |t1| == |t2| by { assert |t1 + b| == |t2 + b|; }
      SplitEqual(t1, b, t2, b);
    } else {
      var t := TrimRightChar(baseUrl.value, '/') + "/";
      assert |t + t1| == |t + t2| by {
        assert |t + t1 + "/index.html"| == |t + t2 + "/index.html"|;
      }
      SplitEqual(t + t1, "/index.html", t + t2, "/index.html");
      SplitEqual(t, t1, t, t2);
    }
    IntTextInjective(id1, id2);
  }
}
