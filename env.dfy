/**
 * `Env::load`: reads a `.env` file line by line and exports each `NAME=value` to the
 * process environment, `$_ENV` and `$_SERVER`. Blank lines and `#` comments are skipped;
 * values are trimmed and one pair of matching surrounding quotes is removed. A later line
 * for the same name overwrites an earlier one.
 *
 * Two kinds of line stop the load part-way, with the lines before them already applied:
 * a line without `=` (the missing value reaches `sanitize`, whose `string` parameter
 * refuses `null` under strict types) and a line with an empty name (`putenv` refuses an
 * assignment that starts with `=`). The file arrives as its lines.
 */
module Env {
  import opened Wrappers
  import opened Text

  datatype EnvFile = Missing | Unreadable | Lines(lines: seq<string>)

  datatype EnvError =
    | UnreadableFile   // "Unable to read environment file."
    | MissingValue     // a line without `=`: a `TypeError` from `sanitize`
    | EmptyName        // a line `=value`: a `ValueError` from `putenv`

  /** What one line of the file does. */
  datatype EnvLine = Skip | Assign(name: string, value: string) | Fails(error: EnvError)

  predicate IsQuote(c: char) { c == '"' || c == '\'' }

  /** `sanitize`: trimmed, and stripped of one pair of equal quotes around the whole value. */
  function Sanitize(value: string): string
  {
    Unquoted(Trim(value))
  }

  /** `substr($value, 1, -1)` when the value starts and ends with the same quote. */
  function Unquoted(t: string): string
  {
    if t == [] then []
    else if (t[0] == '"' && t[|t| - 1] == '"') || (t[0] == '\'' && t[|t| - 1] == '\'') then
      if |t| >= 2 then t[1..|t| - 1] else []
    else t
  }

  /** Quoting a value protects it: the quotes come off and nothing inside is touched,
      surrounding blanks included. */
  lemma SanitizeQuoted(x: string, q: char)
    requires IsQuote(q)
    ensures Sanitize([q] + x + [q]) == x
  {
    var s := [q] + x + [q];
    assert Unquoted(s) == x by {
      Enclosed(q, x);
      UnquotedEnclosed(s, x, q);
    }
    assert Trim(s) == s by {
      assert s[0] == q && s[|s| - 1] == q;
      TrimKeeps(s);
    }
  }

  lemma UnquotedEnclosed(t: string, x: string, q: char)
    requires IsQuote(q) && |t| == |x| + 2 && t[0] == q && t[|t| - 1] == q && t[1..|t| - 1] == x
    ensures Unquoted(t) == x
  {
  }

  /** The text between the two ends of `x` enclosed in `q`. */
  lemma Enclosed(q: char, x: string)
    ensures var s := [q] + x + [q];
      |s| == |x| + 2 && s[0] == q && s[|s| - 1] == q && s[1..|s| - 1] == x
  {
    var s := [q] + x + [q];
    forall i | 0 <= i < |x|
      ensures s[1..|s| - 1][i] == x[i]
    {
      assert s[i + 1] == x[i];
    }
  }

  /** An unquoted value with nothing to trim comes through as it is. */
  lemma SanitizePlain(x: string)
    requires x != [] && !IsTrimChar(x[0]) && !IsTrimChar(x[|x| - 1])
    requires !(IsQuote(x[0]) && x[|x| - 1] == x[0])
    ensures Sanitize(x) == x
  {
    TrimKeeps(x);
  }

  /** A blank line or a `#` comment, once trimmed. */
  predicate Ignored(trimmed: string)
  {
    trimmed == [] || trimmed[0] == '#'
  }

  /** One line: `explode('=', $line, 2)`, both halves trimmed, the value sanitized. */
  function ParseLine(line: string): EnvLine
  {
    if Ignored(Trim(line)) then Skip else Assignment(line, FirstIndex(line, '='))
  }

  /** The line split at its first `=`, at `eq`. */
  function Assignment(line: string, eq: Option<nat>): EnvLine
    requires eq.Some? ==> eq.value < |line|
  {
    match eq
    case None => Fails(MissingValue)
    case Some(i) =>
      var name := Trim(line[..i]);
      if name == [] then Fails(EmptyName) else Assign(name, Sanitize(line[i + 1..]))
  }

  lemma FirstIndexAt(s: string, c: char, k: nat)
    requires k < |s| && s[k] == c && c !in s[..k]
    ensures FirstIndex(s, c) == Some(k)
  {
    var i := FirstIndex(s, c).value;
    forall j | 0 <= j < k
      ensures s[j] != c
    {
      assert s[..k][j] == s[j];
    }
    forall j | 0 <= j < i
      ensures s[j] != c
    {
      assert s[..i][j] == s[j];
    }
  }

  /** A `NAME=value` line sets `NAME` to the sanitized value. */
  lemma AssignLine(name: string, value: string)
    requires name != [] && !IsTrimChar(name[0]) && !IsTrimChar(name[|name| - 1])
    requires name[0] != '#' && '=' !in name
    ensures ParseLine(name + "=" + value) == Assign(name, Sanitize(value))
  {
    var line := name + "=" + value;
    assert line[..|name|] == name && line[|name|] == '=' && line[|name| + 1..] == value;
    assert line[0] == name[0];
    TrimFirst(line);
    FirstIndexAt(line, '=', |name|);
    TrimKeeps(name);
    AssignmentAt(line, name, value);
  }

  lemma AssignmentAt(line: string, name: string, value: string)
    requires |name| < |line| && line[..|name|] == name && line[|name| + 1..] == value
    requires name != [] && Trim(name) == name
    ensures Assignment(line, Some(|name|)) == Assign(name, Sanitize(value))
  {
  }

  lemma SanitizeTrim(v: string)
    ensures Sanitize(Trim(v)) == Sanitize(v)
  {
    TrimIdempotent(v);
  }

  /** Every line of the file, parsed. */
  function Parsed(lines: seq<string>): (r: seq<EnvLine>)
    ensures |r| == |lines| && forall i | 0 <= i < |lines| :: r[i] == ParseLine(lines[i])
  {
    seq(|lines|, i requires 0 <= i < |lines| => ParseLine(lines[i]))
  }

  /** The variables after the lines have been applied in order, and the error that stopped
      the load, if any. */
  datatype Loaded = Loaded(vars: map<string, string>, error: Option<EnvError>)

  function Apply(vars: map<string, string>, steps: seq<EnvLine>): Loaded
  {
    if steps == [] then Loaded(vars, None)
    else
      var before := Apply(vars, steps[..|steps| - 1]);
      if before.error.Some? then before
      else
        match steps[|steps| - 1]
        case Skip => before
        case Fails(e) => Loaded(before.vars, Some(e))
        case Assign(name, value) => Loaded(before.vars[name := value], None)
  }

  /** The value the last assigning line gives `name`, if any line assigns it. */
  function LastValue(steps: seq<EnvLine>, name: string): Option<string>
  {
    if steps == [] then None
    else
      match steps[|steps| - 1]
      case Assign(n, v) => if n == name then Some(v) else LastValue(steps[..|steps| - 1], name)
      case _ => LastValue(steps[..|steps| - 1], name)
  }

  /**
   * A load that runs to the end leaves every name some line assigns at the value of the
   * last such line, and every other variable as it was.
   */
  lemma {:induction false} LastLineWins(vars: map<string, string>, steps: seq<EnvLine>, name: string)
    requires Apply(vars, steps).error.None?
    ensures var after := Apply(vars, steps).vars;
      && (LastValue(steps, name).Some? ==> name in after && after[name] == LastValue(steps, name).value)
      && (LastValue(steps, name).None? ==> (name in after <==> name in vars)
                                            && (name in vars ==> after[name] == vars[name]))
  {
    if steps != [] {
      LastLineWins(vars, steps[..|steps| - 1], name);
    }
  }

  /** Once a line has stopped the load, no later line is applied. */
  lemma {:induction false} AbortSticks(vars: map<string, string>, steps: seq<EnvLine>, rest: seq<EnvLine>)
    requires Apply(vars, steps).error.Some?
    ensures Apply(vars, steps + rest) == Apply(vars, steps)
    decreases |rest|
  {
    if rest == [] {
      assert steps + rest == steps;
    } else {
      var init := rest[..|rest| - 1];
      AbortSticks(vars, steps, init);
      assert (steps + rest)[..|steps + rest| - 1] == steps + init;
    }
  }

  /** One more line applied to a load that has not failed. */
  lemma ApplyNext(vars: map<string, string>, steps: seq<EnvLine>, i: nat, now: map<string, string>)
    requires i < |steps| && Apply(vars, steps[..i]) == Loaded(now, None) && !steps[i].Fails?
    ensures Apply(vars, steps[..i + 1]) ==
      if steps[i].Assign? then Loaded(now[steps[i].name := steps[i].value], None) else Loaded(now, None)
  {
    assert steps[..i + 1][..i] == steps[..i];
  }

  /** A failing line ends the load with its error and the variables as they were. */
  lemma ApplyFails(vars: map<string, string>, steps: seq<EnvLine>, i: nat, now: map<string, string>)
    requires i < |steps| && Apply(vars, steps[..i]) == Loaded(now, None) && steps[i].Fails?
    ensures Apply(vars, steps) == Loaded(now, Some(steps[i].error))
  {
    assert steps[..i + 1][..i] == steps[..i];
    AbortSticks(vars, steps[..i + 1], steps[i + 1..]);
    assert steps[..i + 1] + steps[i + 1..] == steps;
  }

  /** `NAME="value"` (or with single quotes) sets `NAME` to exactly the quoted text. */
  lemma QuotedAssign(name: string, x: string, q: char)
    requires name != [] && !IsTrimChar(name[0]) && !IsTrimChar(name[|name| - 1])
    requires name[0] != '#' && '=' !in name && IsQuote(q)
    ensures ParseLine(name + "=" + ([q] + x + [q])) == Assign(name, x)
  {
    AssignLine(name, [q] + x + [q]);
    SanitizeQuoted(x, q);
  }

  /** The three places `load` writes: `putenv`, `$_ENV` and `$_SERVER`. */
  class Environment {
    var process: map<string, string>
    var env: map<string, string>
    var server: map<string, string>

    constructor (process: map<string, string>, env: map<string, string>, server: map<string, string>)
      ensures this.process == process && this.env == env && this.server == server
    {
      this.process := process;
      this.env := env;
      this.server := server;
    }

    /**
     * `load`: a missing file changes nothing, an unreadable one fails before any line;
     * otherwise each of the three maps becomes `Apply` of the lines, and an error that
     * stopped the load is raised.
     */
    method Load(file: EnvFile) returns (r: Result<(), EnvError>)
      modifies this
      ensures file.Missing? ==> r == Ok(()) && process == old(process) && env == old(env) && server == old(server)
      ensures file.Unreadable? ==> r == Err(UnreadableFile) && process == old(process) && env == old(env) && server == old(server)
      ensures file.Lines? ==>
        && process == Apply(old(process), Parsed(file.lines)).vars
        && env == Apply(old(env), Parsed(file.lines)).vars
        && server == Apply(old(server), Parsed(file.lines)).vars
        && (r.Ok? <==> Apply(old(env), Parsed(file.lines)).error.None?)
        && (r.Err? ==> Apply(old(env), Parsed(file.lines)).error == Some(r.error))
    {
      if file.Missing? {
        return Ok(());
      }
      if file.Unreadable? {
        return Err(UnreadableFile);
      }
      r := LoadLines(file.lines);
    }

    /** The `foreach` over the lines of a readable file: each line parsed, then applied. */
    method LoadLines(lines: seq<string>) returns (r: Result<(), EnvError>)
      modifies this
      ensures process == Apply(old(process), Parsed(lines)).vars
      ensures env == Apply(old(env), Parsed(lines)).vars
      ensures server == Apply(old(server), Parsed(lines)).vars
      ensures r.Ok? <==> Apply(old(env), Parsed(lines)).error.None?
      ensures r.Err? ==> Apply(old(env), Parsed(lines)).error == Some(r.error)
    {
      r := ApplyLines(Parsed(lines));
    }

    /** The parsed lines applied in order to the three maps, up to the first failure. */
    method ApplyLines(steps: seq<EnvLine>) returns (r: Result<(), EnvError>)
      modifies this
      ensures process == Apply(old(process), steps).vars
      ensures env == Apply(old(env), steps).vars
      ensures server == Apply(old(server), steps).vars
      ensures r.Ok? <==> Apply(old(env), steps).error.None?
      ensures r.Err? ==> Apply(old(env), steps).error == Some(r.error)
    {
      var i := 0;
      while i < |steps|
        invariant 0 <= i <= |steps|
        invariant Apply(old(process), steps[..i]) == Loaded(process, None)
        invariant Apply(old(env), steps[..i]) == Loaded(env, None)
        invariant Apply(old(server), steps[..i]) == Loaded(server, None)
      {
        match steps[i] {
          case Skip =>
            ApplyNext(old(process), steps, i, process);
            ApplyNext(old(env), steps, i, env);
            ApplyNext(old(server), steps, i, server);
          case Fails(e) =>
            ApplyFails(old(process), steps, i, process);
            ApplyFails(old(env), steps, i, env);
            ApplyFails(old(server), steps, i, server);
            return Err(e);
          case Assign(name, value) =>
            ApplyNext(old(process), steps, i, process);
            ApplyNext(old(env), steps, i, env);
            ApplyNext(old(server), steps, i, server);
            process := process[name := value];
            env := env[name := value];
            server := server[name := value];
        }
        i := i + 1;
      }
      assert steps[..|steps|] == steps;
      r := Ok(());
    }
  }
}
