/**
 * The handful of PHP string primitives the core relies on, written out over
 * `seq<char>`: decimal formatting of integers (`sprintf('%d')`, `(string)`),
 * `trim`, `rtrim` with one character, `str_starts_with`, `str_ends_with`,
 * `str_contains`, ASCII `strtoupper`/`strtolower`, `strtr` with an array of
 * replacement pairs, and `explode` on one separator character.
 */
module Text {
  import opened Wrappers

  // ---------------------------------------------------------------------
  // Decimal numbers
  // ---------------------------------------------------------------------

  predicate IsDigit(c: char) { '0' <= c <= '9' }

  predicate AllDigits(s: string) { forall i | 0 <= i < |s| :: IsDigit(s[i]) }

  function DigitChar(d: nat): (c: char)
    requires d < 10
    ensures IsDigit(c) && c as int - '0' as int == d
  {
    (d + '0' as int) as char
  }

  function DigitValue(c: char): nat
    requires IsDigit(c)
  {
    c as int - '0' as int
  }

  /** The decimal digits of `n`, without leading zeros. */
  function Decimal(n: nat): (s: string)
    ensures |s| >= 1 && AllDigits(s)
    ensures s[0] == '0' <==> n == 0
    ensures n == 0 ==> s == "0"
    decreases n
  {
    if n < 10 then [DigitChar(n)] else Decimal(n / 10) + [DigitChar(n % 10)]
  }

  /** The value of a string of decimal digits (the reading direction of `Decimal`). */
  function DigitsValue(s: string): nat
    requires AllDigits(s)
  {
    if s == [] then 0 else 10 * DigitsValue(s[..|s| - 1]) + DigitValue(s[|s| - 1])
  }

  /** Reading back what `Decimal` wrote gives the number again. */
  lemma {:induction false} DecimalRoundTrip(n: nat)
    ensures DigitsValue(Decimal(n)) == n
  {
    if n >= 10 {
      var s := Decimal(n);
      assert s[..|s| - 1] == Decimal(n / 10);
      DecimalRoundTrip(n / 10);
    }
  }

  /** A signed integer as PHP prints it: a minus sign, then the digits of its magnitude. */
  function IntText(i: int): (s: string)
  {
    if i < 0 then "-" + Decimal(-i) else Decimal(i)
  }

  /** Reads back a string written by `IntText`. */
  function ParseInt(s: string): Option<int>
  {
    if |s| >= 2 && s[0] == '-' && AllDigits(s[1..]) && s[1] != '0' then Some(-(DigitsValue(s[1..]) as int))
    else if |s| >= 1 && AllDigits(s) && (s[0] != '0' || |s| == 1) then Some(DigitsValue(s))
    else None
  }

  lemma IntTextRoundTrip(i: int)
    ensures ParseInt(IntText(i)) == Some(i)
  {
    var s := IntText(i);
    if i < 0 {
      var d := Decimal(-i);
      assert s == "-" + d;
      assert s[1..] == d && s[0] == '-' && |s| >= 2;
      DecimalRoundTrip(-i);
      assert ParseInt(s) == Some(-(DigitsValue(d) as int));
    } else {
      assert s == Decimal(i);
      assert s[0] != '-' && !(s[0] == '0' && |s| != 1) by {
        assert IsDigit(s[0]);
      }
      DecimalRoundTrip(i);
      assert ParseInt(s) == Some(DigitsValue(s));
    }
  }

  /** Distinct integers print differently. */
  lemma IntTextInjective(i: int, j: int)
    requires IntText(i) == IntText(j)
    ensures i == j
  {
    IntTextRoundTrip(i);
    IntTextRoundTrip(j);
  }

  /** The digits of a number from 10 to 999, one by one. */
  lemma DecimalDigits(n: nat)
    requires 10 <= n < 1000
    ensures n < 100 ==> Decimal(n) == [DigitChar(n / 10), DigitChar(n % 10)]
    ensures n >= 100 ==> Decimal(n) == [DigitChar(n / 100), DigitChar(n / 10 % 10), DigitChar(n % 10)]
  {
    assert Decimal(n) == Decimal(n / 10) + [DigitChar(n % 10)];
    if n >= 100 {
      assert Decimal(n / 10) == Decimal(n / 100) + [DigitChar(n / 10 % 10)];
    }
  }

  /** `n` printed with at least `width` digits, padded on the left with zeros. */
  function ZeroPad(n: nat, width: nat): (s: string)
    ensures |s| >= width && AllDigits(s)
    ensures DigitsValue(s) == n
  {
    var d := Decimal(n);
    DecimalRoundTrip(n);
    ZerosPrefixValue(if |d| >= width then 0 else width - |d|, d);
    if |d| >= width then d else Zeros(width - |d|) + d
  }

  function Zeros(k: nat): (s: string)
    ensures |s| == k && AllDigits(s) && DigitsValue(s) == 0
  {
    if k == 0 then [] else Zeros(k - 1) + "0"
  }

  /** Leading zeros do not change the value of a digit string. */
  lemma {:induction false} ZerosPrefixValue(k: nat, d: string)
    requires AllDigits(d)
    ensures AllDigits(Zeros(k) + d) && DigitsValue(Zeros(k) + d) == DigitsValue(d)
  {
    var z := Zeros(k);
    if d != [] {
      assert (z + d)[..|z + d| - 1] == z + d[..|d| - 1];
      ZerosPrefixValue(k, d[..|d| - 1]);
    } else {
      assert z + d == z;
    }
  }

  // ---------------------------------------------------------------------
  // trim / rtrim
  // ---------------------------------------------------------------------

  /** The characters PHP's `trim` strips by default: space, tab, LF, CR, NUL, vertical tab. */
  predicate IsTrimChar(c: char)
  {
    c == ' ' || c == '\t' || c == '\n' || c == '\r' || c == '\0' || c == 11 as char
  }

  function TrimLeft(s: string): (r: string)
    ensures |r| <= |s| && r == s[|s| - |r|..]
    ensures r == [] || !IsTrimChar(r[0])
    ensures forall i | 0 <= i < |s| - |r| :: IsTrimChar(s[i])
  {
    if s != [] && IsTrimChar(s[0]) then
      var r := TrimLeft(s[1..]);
      assert s[1..][|s| - 1 - |r|..] == s[|s| - |r|..];
      r
    else s
  }

  function TrimRight(s: string): (r: string)
    ensures |r| <= |s| && r == s[..|r|]
    ensures r == [] || !IsTrimChar(r[|r| - 1])
    ensures forall i | |r| <= i < |s| :: IsTrimChar(s[i])
  {
    if s != [] && IsTrimChar(s[|s| - 1]) then
      var r := TrimRight(s[..|s| - 1]);
      assert s[..|s| - 1][..|r|] == s[..|r|];
      r
    else s
  }

  /** PHP `trim` with the default character list. */
  function Trim(s: string): (r: string)
  {
    TrimRight(TrimLeft(s))
  }

  /** What `trim` keeps is the piece of the input between the strippable characters at
      its two ends: it has none at either end, and only strippable characters were cut. */
  lemma TrimShape(s: string)
    ensures var r := Trim(s); var lo := |s| - |TrimLeft(s)|;
      && (r == [] || (!IsTrimChar(r[0]) && !IsTrimChar(r[|r| - 1])))
      && lo + |r| <= |s| && (forall i | 0 <= i < |r| :: r[i] == s[lo + i])
      && (forall i | 0 <= i < lo :: IsTrimChar(s[i]))
      && (forall i | lo + |r| <= i < |s| :: IsTrimChar(s[i]))
  {
    TrimEnds(s);
    TrimSlice(s);
  }

  /** Neither end of the result is strippable. */
  lemma TrimEnds(s: string)
    ensures var r := Trim(s); r == [] || (!IsTrimChar(r[0]) && !IsTrimChar(r[|r| - 1]))
  {
    var l := TrimLeft(s);
    var r := TrimRight(l);
    if r != [] {
      assert r[0] == l[0];
    }
  }

  /** The result is the slice of the input after the leading strippable characters. */
  lemma TrimSlice(s: string)
    ensures var r := Trim(s); var lo := |s| - |TrimLeft(s)|;
      && lo + |r| <= |s| && (forall i | 0 <= i < |r| :: r[i] == s[lo + i])
      && (forall i | lo + |r| <= i < |s| :: IsTrimChar(s[i]))
  {
    TrimmedSlice(s, TrimLeft(s), Trim(s));
  }

  /** A prefix `r` of a suffix `l` of `s` is a slice of `s`, character by character; what
      follows it in `l` follows it in `s`. */
  lemma TrimmedSlice(s: string, l: string, r: string)
    requires |l| <= |s| && l == s[|s| - |l|..] && |r| <= |l| && r == l[..|r|]
    requires forall i | |r| <= i < |l| :: IsTrimChar(l[i])
    ensures var lo := |s| - |l|;
      && (forall i | 0 <= i < |r| :: r[i] == s[lo + i])
      && forall i | lo + |r| <= i < |s| :: IsTrimChar(s[i])
  {
    var lo := |s| - |l|;
    forall i | lo + |r| <= i < |s|
      ensures IsTrimChar(s[i])
    {
      assert s[i] == l[i - lo];
    }
  }

  /** A string with no strippable character at either end is left alone. */
  lemma TrimKeeps(s: string)
    requires s == [] || (!IsTrimChar(s[0]) && !IsTrimChar(s[|s| - 1]))
    ensures Trim(s) == s
  {
  }

  /** A string that starts with a character `trim` keeps still starts with it after. */
  lemma TrimFirst(s: string)
    requires s != [] && !IsTrimChar(s[0])
    ensures Trim(s) != [] && Trim(s)[0] == s[0]
  {
    assert TrimLeft(s) == s;
  }

  lemma TrimIdempotent(s: string)
    ensures Trim(Trim(s)) == Trim(s)
  {
    TrimShape(s);
    TrimKeeps(Trim(s));
  }

  /** PHP `rtrim($s, c)` for a single character `c`. */
  function TrimRightChar(s: string, c: char): (r: string)
    ensures |r| <= |s| && r == s[..|r|]
    ensures r == [] || r[|r| - 1] != c
    ensures forall i | |r| <= i < |s| :: s[i] == c
  {
    if s != [] && s[|s| - 1] == c then TrimRightChar(s[..|s| - 1], c) else s
  }

  // ---------------------------------------------------------------------
  // Prefixes, suffixes, containment, ASCII case
  // ---------------------------------------------------------------------

  predicate StartsWith(s: string, p: string) { |p| <= |s| && s[..|p|] == p }

  predicate EndsWith(s: string, p: string) { |p| <= |s| && s[|s| - |p|..] == p }

  /** PHP `str_contains`: `p` occurs somewhere in `s` (the empty string occurs everywhere). */
  predicate Contains(s: string, p: string)
    decreases |s|
  {
    StartsWith(s, p) || (s != [] && Contains(s[1..], p))
  }

  lemma {:induction false} ContainsAt(s: string, p: string)
    ensures Contains(s, p) <==> exists i | 0 <= i <= |s| :: StartsWith(s[i..], p)
    decreases |s|
  {
    if s != [] {
      ContainsAt(s[1..], p);
      forall i | 1 <= i <= |s|
        ensures s[1..][i - 1..] == s[i..]
      {
      }
      if Contains(s, p) && !StartsWith(s, p) {
        var i :| 0 <= i <= |s| - 1 && StartsWith(s[1..][i..], p);
        assert StartsWith(s[i + 1..], p);
      }
      if !StartsWith(s, p) && exists i | 0 <= i <= |s| :: StartsWith(s[i..], p) {
        var i :| 0 <= i <= |s| && StartsWith(s[i..], p);
        assert s[0..] == s;
        assert i != 0;
        assert StartsWith(s[1..][i - 1..], p);
      }
    } else {
      assert s[0..] == s;
    }
  }

  function UpperChar(c: char): char { if 'a' <= c <= 'z' then (c as int - 32) as char else c }

  function LowerChar(c: char): char { if 'A' <= c <= 'Z' then (c as int + 32) as char else c }

  /** PHP `strtoupper` (ASCII letters only, as PHP 8 does). */
  function Upper(s: string): (r: string)
    ensures |r| == |s| && forall i | 0 <= i < |s| :: r[i] == UpperChar(s[i])
  {
    seq(|s|, i requires 0 <= i < |s| => UpperChar(s[i]))
  }

  /** PHP `strtolower` (ASCII letters only). */
  function Lower(s: string): (r: string)
    ensures |r| == |s| && forall i | 0 <= i < |s| :: r[i] == LowerChar(s[i])
  {
    seq(|s|, i requires 0 <= i < |s| => LowerChar(s[i]))
  }

  /** Upper-casing twice is upper-casing once; so comparing `Upper(a) == Upper(b)` is
      a case-insensitive comparison that upper-cased input cannot change. */
  lemma UpperIdempotent(s: string)
    ensures Upper(Upper(s)) == Upper(s)
  {
    assert forall i | 0 <= i < |s| :: UpperChar(UpperChar(s[i])) == UpperChar(s[i]);
  }

  // ---------------------------------------------------------------------
  // strtr with an array of pairs
  // ---------------------------------------------------------------------

  /** Replacement pairs as PHP accepts them: as many values as keys, no empty key. */
  predicate ValidPairs(keys: seq<string>, vals: seq<string>)
  {
    |keys| == |vals| && forall j | 0 <= j < |keys| :: keys[j] != []
  }

  /** The index of the longest key that `s` starts with, if any. */
  function LongestKeyAt(s: string, keys: seq<string>): (r: Option<nat>)
    ensures r.Some? ==> r.value < |keys| && StartsWith(s, keys[r.value])
    ensures r.Some? ==> forall j | 0 <= j < |keys| && StartsWith(s, keys[j]) :: |keys[j]| <= |keys[r.value]|
    ensures r.None? <==> forall j | 0 <= j < |keys| :: !StartsWith(s, keys[j])
  {
    if keys == [] then None
    else
      var last := |keys| - 1;
      var rest := LongestKeyAt(s, keys[..last]);
      if !StartsWith(s, keys[last]) then rest
      else if rest.Some? && |keys[rest.value]| >= |keys[last]| then rest
      else Some(last)
  }

  /**
   * PHP `strtr($s, [keys[0] => vals[0], ...])`: scanning left to right, the longest key
   * found at the current position is replaced by its value and scanning resumes after it;
   * replaced text is never searched again.
   */
  function Strtr(s: string, keys: seq<string>, vals: seq<string>): string
    requires ValidPairs(keys, vals)
    decreases |s|
  {
    if s == [] then []
    else match LongestKeyAt(s, keys)
      case Some(j) => vals[j] + Strtr(s[|keys[j]|..], keys, vals)
      case None => [s[0]] + Strtr(s[1..], keys, vals)
  }

  /** Text in which no key occurs is returned unchanged. */
  lemma {:induction false} StrtrNoKey(s: string, keys: seq<string>, vals: seq<string>)
    requires ValidPairs(keys, vals)
    requires forall i, j | 0 <= i <= |s| && 0 <= j < |keys| :: !StartsWith(s[i..], keys[j])
    ensures Strtr(s, keys, vals) == s
    decreases |s|
  {
    if s != [] {
      assert s[0..] == s;
      forall i, j | 0 <= i <= |s| - 1 && 0 <= j < |keys|
        ensures !StartsWith(s[1..][i..], keys[j])
      {
        assert s[1..][i..] == s[i + 1..];
      }
      StrtrNoKey(s[1..], keys, vals);
    }
  }

  /** A prefix containing no character that begins a key passes through unchanged. */
  lemma {:induction false} StrtrPlain(a: string, b: string, keys: seq<string>, vals: seq<string>)
    requires ValidPairs(keys, vals)
    requires forall i, j | 0 <= i < |a| && 0 <= j < |keys| :: keys[j][0] != a[i]
    ensures Strtr(a + b, keys, vals) == a + Strtr(b, keys, vals)
    decreases |a|
  {
    if a == [] {
      assert a + b == b;
    } else {
      var t := a[1..];
      assert a == [a[0]] + t;
      ConsConcat(a[0], t, b);
      StrtrSkip(a[0], t + b, keys, vals);
      forall i, j | 0 <= i < |t| && 0 <= j < |keys|
        ensures keys[j][0] != t[i]
      {
        assert t[i] == a[i + 1];
      }
      StrtrPlain(t, b, keys, vals);
      ConsConcat(a[0], t, Strtr(b, keys, vals));
    }
  }

  lemma ConsConcat<T>(x: T, t: seq<T>, u: seq<T>)
    ensures [x] + (t + u) == ([x] + t) + u
  {
  }

  /** A character that begins no key is copied and scanning moves on. */
  lemma StrtrSkip(c: char, rest: string, keys: seq<string>, vals: seq<string>)
    requires ValidPairs(keys, vals)
    requires forall j | 0 <= j < |keys| :: keys[j][0] != c
    ensures Strtr([c] + rest, keys, vals) == [c] + Strtr(rest, keys, vals)
  {
    var s := [c] + rest;
    forall j | 0 <= j < |keys|
      ensures !StartsWith(s, keys[j])
    {
      assert s[0] == c;
    }
    assert s[1..] == rest;
  }

  /** A key at the front that no other key also matches is replaced by its value. */
  lemma StrtrKey(j: nat, b: string, keys: seq<string>, vals: seq<string>)
    requires ValidPairs(keys, vals) && j < |keys|
    requires forall k | 0 <= k < |keys| && k != j :: !StartsWith(keys[j] + b, keys[k])
    ensures Strtr(keys[j] + b, keys, vals) == vals[j] + Strtr(b, keys, vals)
  {
    var s := keys[j] + b;
    assert s[..|keys[j]|] == keys[j];
    assert s[|keys[j]|..] == b;
  }

  // ---------------------------------------------------------------------
  // explode on one separator
  // ---------------------------------------------------------------------

  /** PHP `explode(sep, s)` for a one-character separator: the pieces between separators. */
  function Split(s: string, sep: char): (parts: seq<string>)
    ensures |parts| >= 1
    ensures forall i | 0 <= i < |parts| :: sep !in parts[i]
    decreases |s|
  {
    if s == [] then [[]]
    else if s[0] == sep then [[]] + Split(s[1..], sep)
    else
      var rest := Split(s[1..], sep);
      [[s[0]] + rest[0]] + rest[1..]
  }

  /** PHP `implode(sep, parts)`. */
  function Join(parts: seq<string>, sep: char): string
    decreases |parts|
  {
    if |parts| == 0 then [] else if |parts| == 1 then parts[0] else parts[0] + [sep] + Join(parts[1..], sep)
  }

  /** Gluing the pieces back together gives the original string. */
  lemma {:induction false} JoinSplit(s: string, sep: char)
    ensures Join(Split(s, sep), sep) == s
    decreases |s|
  {
    if s != [] {
      JoinSplit(s[1..], sep);
      var rest := Split(s[1..], sep);
      if s[0] == sep {
        assert Split(s, sep) == [[]] + rest;
        assert ([[]] + rest)[1..] == rest;
      } else {
        var parts := Split(s, sep);
        assert parts[1..] == rest[1..];
        if |rest| == 1 {
          assert Join(parts, sep) == [s[0]] + rest[0];
        } else {
          assert rest == [rest[0]] + rest[1..];
          assert Join(rest, sep) == rest[0] + [sep] + Join(rest[1..], sep);
        }
      }
    }
  }

  lemma {:induction false} SplitNoSep(a: string, sep: char)
    requires sep !in a
    ensures Split(a, sep) == [a]
    decreases |a|
  {
    if a != [] {
      assert a[0] != sep;
      SplitNoSep(a[1..], sep);
      assert [a[0]] + a[1..] == a;
    }
  }

  lemma {:induction false} SplitAfterPiece(a: string, t: string, sep: char)
    requires sep !in a
    ensures Split(a + [sep] + t, sep) == [a] + Split(t, sep)
    decreases |a|
  {
    var s := a + [sep] + t;
    if a == [] {
      assert s == [sep] + t;
      assert s[1..] == t;
    } else {
      assert s[0] == a[0];
      assert s[1..] == a[1..] + [sep] + t;
      SplitAfterPiece(a[1..], t, sep);
      assert [a[0]] + a[1..] == a;
    }
  }

  /** Splitting what `Join` glued gives the pieces back, when no piece holds the separator. */
  lemma {:induction false} SplitJoin(parts: seq<string>, sep: char)
    requires |parts| >= 1
    requires forall i | 0 <= i < |parts| :: sep !in parts[i]
    ensures Split(Join(parts, sep), sep) == parts
    decreases |parts|
  {
    if |parts| == 1 {
      SplitNoSep(parts[0], sep);
    } else {
      SplitJoin(parts[1..], sep);
      SplitAfterPiece(parts[0], Join(parts[1..], sep), sep);
      assert parts == [parts[0]] + parts[1..];
    }
  }

  /** The position of the first occurrence of `c` in `s`. */
  function FirstIndex(s: string, c: char): (r: Option<nat>)
    ensures r.Some? ==> r.value < |s| && s[r.value] == c && c !in s[..r.value]
    ensures r.None? <==> c !in s
  {
    if s == [] then None
    else if s[0] == c then Some(0)
    else match FirstIndex(s[1..], c)
      case Some(i) => (assert s[..i + 1] == [s[0]] + s[1..][..i]; Some(i + 1))
      case None => None
  }
}
