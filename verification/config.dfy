/** The `.env` reader and the typed configuration getters. The file's text
    and the process environment are parameters; the variable table is the
    value `Env` that loading returns. */
module Config {
  import opened Wrappers
  import opened Text

  /** The characters the loader trims from keys and values. */
  predicate IsBlank(c: char) { c == ' ' || c == '\t' || c == '\r' || c == '\n' }

  /** `s.erase(0, s.find_first_not_of(" \t\r\n"))`. */
  function TrimLeft(s: string): (r: string)
    ensures |r| <= |s| && r == s[|s| - |r|..]
    ensures |r| == 0 || !IsBlank(r[0])
    ensures forall i :: 0 <= i < |s| - |r| ==> IsBlank(s[i])
  {
    if |s| > 0 && IsBlank(s[0]) then TrimLeft(s[1..]) else s
  }

  /** `s.erase(s.find_last_not_of(" \t\r\n") + 1)`. */
  function TrimRight(s: string): (r: string)
    ensures |r| <= |s| && r == s[..|r|]
    ensures |r| == 0 || !IsBlank(r[|r| - 1])
    ensures forall i :: |r| <= i < |s| ==> IsBlank(s[i])
  {
    if |s| > 0 && IsBlank(s[|s| - 1]) then TrimRight(s[..|s| - 1]) else s
  }

  /** Both ends trimmed: the result is a slice of `s` with only blanks cut
      away before and after it, and a text with no blank at either end is
      its own trim. */
  function Trim(s: string): (r: string)
    ensures |r| == 0 || (!IsBlank(r[0]) && !IsBlank(r[|r| - 1]))
    ensures exists i :: BlankFramed(s, i, r)
    ensures |s| > 0 && !IsBlank(s[0]) && !IsBlank(s[|s| - 1]) ==> r == s
  {
    var l := TrimLeft(s);
    var r := TrimRight(l);
    Framed(s, l, r);
    r
  }

  /** Blanks cut from the front of `s` leave `l`, and blanks cut from the
      back of `l` leave `r`: then `r` is framed by blanks in `s`. */
  lemma Framed(s: string, l: string, r: string)
    requires |l| <= |s| && l == s[|s| - |l|..] && forall j :: 0 <= j < |s| - |l| ==> IsBlank(s[j])
    requires |r| <= |l| && r == l[..|r|] && forall j :: |r| <= j < |l| ==> IsBlank(l[j])
    ensures BlankFramed(s, |s| - |l|, r)
  {
    var i := |s| - |l|;
    assert s[i..i + |r|] == r;
    forall j | i + |r| <= j < |s|
      ensures IsBlank(s[j])
    {
      assert s[j] == l[j - i];
    }
  }

  /** `r` sits in `s` at `i`, and everything of `s` around it is blank. */
  predicate BlankFramed(s: string, i: int, r: string)
  {
    && 0 <= i && i + |r| <= |s| && s[i..i + |r|] == r
    && (forall j :: 0 <= j < i ==> IsBlank(s[j]))
    && (forall j :: i + |r| <= j < |s| ==> IsBlank(s[j]))
  }

  /** A run of blanks. */
  predicate Blanks(b: string)
  {
    forall i :: 0 <= i < |b| ==> IsBlank(b[i])
  }

  /** Trimming is blind to blanks added at either end. */
  lemma {:induction false} TrimLeftBlanks(b: string, x: string)
    requires Blanks(b)
    ensures TrimLeft(b + x) == TrimLeft(x)
  {
    if |b| > 0 {
      assert (b + x)[0] == b[0];
      assert (b + x)[1..] == b[1..] + x;
      assert Blanks(b[1..]) by {
        assert forall i :: 0 <= i < |b| - 1 ==> b[1..][i] == b[i + 1];
      }
      TrimLeftBlanks(b[1..], x);
    } else {
      assert b + x == x;
    }
  }

  lemma {:induction false} TrimRightBlanks(x: string, b: string)
    requires Blanks(b)
    ensures TrimRight(x + b) == TrimRight(x)
  {
    if |b| > 0 {
      assert (x + b)[|x + b| - 1] == b[|b| - 1];
      assert (x + b)[..|x + b| - 1] == x + b[..|b| - 1];
      assert Blanks(b[..|b| - 1]) by {
        assert forall i :: 0 <= i < |b| - 1 ==> b[..|b| - 1][i] == b[i];
      }
      TrimRightBlanks(x, b[..|b| - 1]);
    } else {
      assert x + b == x;
    }
  }

  /** Trimming `b1 + t + b2` gives back `t` when `t` has no blank end. */
  lemma TrimFramed(b1: string, t: string, b2: string)
    requires Blanks(b1) && Blanks(b2)
    requires |t| == 0 || (!IsBlank(t[0]) && !IsBlank(t[|t| - 1]))
    ensures Trim(b1 + t + b2) == t
  {
    assert b1 + t + b2 == b1 + (t + b2);
    TrimLeftBlanks(b1, t + b2);
    if |t| == 0 {
      assert t + b2 == b2 + "";
      TrimLeftBlanks(b2, "");
    } else {
      assert TrimLeft(t + b2) == t + b2;
      TrimRightBlanks(t, b2);
    }
  }

  predicate QuotedBy(v: string, q: char)
  {
    |v| >= 2 && v[0] == q && v[|v| - 1] == q
  }

  /** One pair of matching outer double or single quotes is removed. */
  function Unquote(v: string): (r: string)
    ensures QuotedBy(v, '"') || QuotedBy(v, '\'') ==> r == v[1..|v| - 1]
    ensures !QuotedBy(v, '"') && !QuotedBy(v, '\'') ==> r == v
  {
    if QuotedBy(v, '"') || QuotedBy(v, '\'') then v[1..|v| - 1] else v
  }

  /** One line of the file: empty lines and lines whose first character is
      '#' are skipped, as are lines without '='. Otherwise the key is the
      trimmed text before the first '=' and the value the trimmed, unquoted
      text after it, further '=' included. */
  function ParseLine(line: string): (r: Option<(string, string)>)
    ensures r.None? <==> |line| == 0 || line[0] == '#' || '=' !in line
    ensures r.Some? ==> '=' !in r.value.0
  {
    if |line| == 0 || line[0] == '#' then None
    else
      match IndexOf(line, '=')
      case None => None
      case Some(pos) =>
        var key := Trim(line[..pos]);
        Some((key, Unquote(Trim(line[pos + 1..]))))
  }

  /** A variable written as `key="value"` reads back as exactly that key and
      value, whatever the value holds: '=', quotes, blanks or '#'. */
  lemma ParseQuotedLine(key: string, value: string)
    requires '=' !in key && |key| > 0 && key[0] != '#'
    requires !IsBlank(key[0]) && !IsBlank(key[|key| - 1])
    ensures ParseLine(key + "=\"" + value + "\"") == Some((key, value))
  {
    var rest := "\"" + value + "\"";
    var line := key + "=" + rest;
    assert key + "=\"" + value + "\"" == line;
    KeyBeforeEquals(key, rest);
    QuotedValue(value);
  }

  /** A line `key = value` with blanks around the key and the value sets the
      key to the unquoted value; '=' may occur inside the value but not in
      the key. */
  lemma ParseSpacedLine(b1: string, key: string, b2: string, b3: string, value: string, b4: string)
    requires Blanks(b1) && Blanks(b2) && Blanks(b3) && Blanks(b4)
    requires '=' !in key && (|key| == 0 || (!IsBlank(key[0]) && !IsBlank(key[|key| - 1])))
    requires |b1| == 0 && |key| > 0 ==> key[0] != '#'
    requires |value| == 0 || (!IsBlank(value[0]) && !IsBlank(value[|value| - 1]))
    ensures ParseLine(b1 + key + b2 + "=" + b3 + value + b4) == Some((key, Unquote(value)))
  {
    var front := b1 + key + b2;
    var back := b3 + value + b4;
    var line := front + "=" + back;
    assert b1 + key + b2 + "=" + b3 + value + b4 == line;
    FrontHasNoEquals(b1, key, b2);
    KeyBeforeEquals(front, back);
    FrontNoComment(b1, key, b2, back);
    TrimFramed(b1, key, b2);
    TrimFramed(b3, value, b4);
  }

  lemma FrontHasNoEquals(b1: string, key: string, b2: string)
    requires Blanks(b1) && Blanks(b2) && '=' !in key
    ensures '=' !in b1 + key + b2
  {
    var front := b1 + key + b2;
    forall j | 0 <= j < |front|
      ensures front[j] != '='
    {
      if j < |b1| {
        assert front[j] == b1[j];
      } else if j < |b1| + |key| {
        assert front[j] == key[j - |b1|];
      } else {
        assert front[j] == b2[j - |b1| - |key|];
      }
    }
  }

  /** The line neither is empty nor starts with '#'. */
  lemma FrontNoComment(b1: string, key: string, b2: string, back: string)
    requires Blanks(b1) && Blanks(b2)
    requires |b1| == 0 && |key| > 0 ==> key[0] != '#'
    ensures var line := b1 + key + b2 + "=" + back; |line| > 0 && line[0] != '#'
  {
    var line := b1 + key + b2 + "=" + back;
    if |b1| > 0 {
      assert line[0] == b1[0];
    } else if |key| > 0 {
      assert line[0] == key[0];
    } else if |b2| > 0 {
      assert line[0] == b2[0];
    } else {
      assert line[0] == '=';
    }
  }

  /** The first '=' of `key=rest` is the one after the key. */
  lemma KeyBeforeEquals(key: string, rest: string)
    requires '=' !in key
    ensures var line := key + "=" + rest;
      IndexOf(line, '=') == Some(|key|) && line[..|key|] == key && line[|key| + 1..] == rest
  {
    var line := key + "=" + rest;
    assert line[|key|] == '=';
    assert line[..|key|] == key;
    assert line[|key| + 1..] == rest;
  }

  /** A double-quoted value has no blank at either end and loses exactly its
      quotes. */
  lemma QuotedValue(value: string)
    ensures Unquote(Trim("\"" + value + "\"")) == value
  {
    var rest := "\"" + value + "\"";
    assert QuotedBy(rest, '"');
    assert Trim(rest) == rest;
    assert rest[1..|rest| - 1] == value;
  }

  /** The file split at each newline, as `std::getline` reads it. */
  function Lines(text: string): (r: seq<string>)
    ensures |r| > 0
    ensures forall i :: 0 <= i < |r| ==> '\n' !in r[i]
    decreases |text|
  {
    match IndexOf(text, '\n')
    case None => [text]
    case Some(i) => [text[..i]] + Lines(text[i + 1..])
  }

  /** The loader's loop over the parsed lines: each line that parsed sets
      its key, a later line overwriting an earlier one. */
  function AssignParsed(vars: map<string, string>, ps: seq<Option<(string, string)>>): (r: map<string, string>)
    ensures vars.Keys <= r.Keys
    decreases |ps|
  {
    if |ps| == 0 then vars
    else
      var before := AssignParsed(vars, ps[..|ps| - 1]);
      match ps[|ps| - 1]
      case None => before
      case Some((k, v)) => before[k := v]
  }

  function ParseLines(lines: seq<string>): (ps: seq<Option<(string, string)>>)
    ensures |ps| == |lines| && forall i :: 0 <= i < |lines| ==> ps[i] == ParseLine(lines[i])
  {
    seq(|lines|, i requires 0 <= i < |lines| => ParseLine(lines[i]))
  }

  /** The loader's loop: each line is parsed and, when it parses, sets its
      key. */
  function Assign(vars: map<string, string>, lines: seq<string>): map<string, string>
  {
    AssignParsed(vars, ParseLines(lines))
  }

  predicate Sets(p: Option<(string, string)>, key: string)
  {
    p.Some? && p.value.0 == key
  }

  predicate SetsKey(line: string, key: string)
  {
    Sets(ParseLine(line), key)
  }

  lemma {:induction false} ParsedKeys(vars: map<string, string>, ps: seq<Option<(string, string)>>, key: string)
    ensures key in AssignParsed(vars, ps) <==> key in vars || exists i :: 0 <= i < |ps| && Sets(ps[i], key)
    decreases |ps|
  {
    if |ps| > 0 {
      var init := ps[..|ps| - 1];
      ParsedKeys(vars, init, key);
      assert forall i :: 0 <= i < |init| ==> init[i] == ps[i];
      if Sets(ps[|ps| - 1], key) {
        assert key in AssignParsed(vars, ps);
      }
    }
  }

  lemma {:induction false} ParsedLastWins(vars: map<string, string>, ps: seq<Option<(string, string)>>, key: string, i: int)
    requires 0 <= i < |ps| && Sets(ps[i], key)
    requires forall j :: i < j < |ps| ==> !Sets(ps[j], key)
    ensures key in AssignParsed(vars, ps) && AssignParsed(vars, ps)[key] == ps[i].value.1
    decreases |ps|
  {
    if i < |ps| - 1 {
      var init := ps[..|ps| - 1];
      assert init[i] == ps[i];
      assert forall j :: i < j < |init| ==> init[j] == ps[j];
      ParsedLastWins(vars, init, key, i);
    }
  }

  lemma {:induction false} ParsedUntouched(vars: map<string, string>, ps: seq<Option<(string, string)>>, key: string)
    requires key in vars
    requires forall i :: 0 <= i < |ps| ==> !Sets(ps[i], key)
    ensures key in AssignParsed(vars, ps) && AssignParsed(vars, ps)[key] == vars[key]
    decreases |ps|
  {
    if |ps| > 0 {
      var init := ps[..|ps| - 1];
      assert forall i :: 0 <= i < |init| ==> init[i] == ps[i];
      ParsedUntouched(vars, init, key);
    }
  }

  /** After loading, a key is present iff it was before or some line sets
      it. */
  lemma AssignKeys(vars: map<string, string>, lines: seq<string>, key: string)
    ensures key in Assign(vars, lines) <==>
      key in vars || exists i :: 0 <= i < |lines| && SetsKey(lines[i], key)
  {
    var ps := ParseLines(lines);
    ParsedKeys(vars, ps, key);
    assert forall i :: 0 <= i < |lines| ==> (Sets(ps[i], key) <==> SetsKey(lines[i], key));
  }

  /** The value a key ends with is the one the last line setting it gives. */
  lemma AssignLastWins(vars: map<string, string>, lines: seq<string>, key: string, i: int)
    requires 0 <= i < |lines| && SetsKey(lines[i], key)
    requires forall j :: i < j < |lines| ==> !SetsKey(lines[j], key)
    ensures key in Assign(vars, lines)
    ensures Assign(vars, lines)[key] == ParseLine(lines[i]).value.1
  {
    ParsedLastWins(vars, ParseLines(lines), key, i);
  }

  /** A key no line sets keeps the value it had. */
  lemma AssignUntouched(vars: map<string, string>, lines: seq<string>, key: string)
    requires key in vars
    requires forall i :: 0 <= i < |lines| ==> !SetsKey(lines[i], key)
    ensures key in Assign(vars, lines) && Assign(vars, lines)[key] == vars[key]
  {
    ParsedUntouched(vars, ParseLines(lines), key);
  }

  /** The static variable table and whether `load` has already run. */
  datatype Env = Env(vars: map<string, string>, loaded: bool)

  /** `load`: runs at most once; a missing file only marks the table loaded. */
  function Load(env: Env, file: Option<string>): (r: Env)
    ensures r.loaded
    ensures env.loaded ==> r == env
    ensures !env.loaded && file.None? ==> r.vars == env.vars
    ensures !env.loaded && file.Some? ==> r.vars == Assign(env.vars, Lines(file.value))
  {
    if env.loaded then env
    else
      match file
      case None => env.(loaded := true)
      case Some(text) => Env(Assign(env.vars, Lines(text)), true)
  }

  /** `get`: the file's variable, else the process environment's, else the
      default. */
  function Get(env: Env, process: map<string, string>, key: string, default: string): (r: string)
    ensures key in env.vars ==> r == env.vars[key]
    ensures key !in env.vars && key in process ==> r == process[key]
    ensures key !in env.vars && key !in process ==> r == default
  {
    if key in env.vars then env.vars[key]
    else if key in process then process[key]
    else default
  }

  /** `getInt`: an empty or unreadable value (no leading integer, or out of
      the range of `int`) gives the default; otherwise `std::stoi` of it. */
  function GetInt(env: Env, process: map<string, string>, key: string, default: int): (r: int)
    ensures var v := Get(env, process, key, "");
      |v| == 0 || ParseLeadingInt(v, INT32_MIN, INT32_MAX).None? ==> r == default
    ensures var v := Get(env, process, key, "");
      |v| > 0 && ParseLeadingInt(v, INT32_MIN, INT32_MAX).Some? ==>
        r == ParseLeadingInt(v, INT32_MIN, INT32_MAX).value && INT32_MIN <= r <= INT32_MAX
  {
    var v := Get(env, process, key, "");
    if |v| == 0 then default
    else
      match ParseLeadingInt(v, INT32_MIN, INT32_MAX)
      case None => default
      case Some(n) => n
  }

  /** A value written as a decimal `int` is read back as that number. */
  lemma GetIntReadsDecimal(env: Env, process: map<string, string>, key: string, n: int, default: int)
    requires Get(env, process, key, "") == Show(n)
    requires INT32_MIN <= n <= INT32_MAX
    ensures GetInt(env, process, key, default) == n
  {
    ParseShow(n, "", INT32_MIN, INT32_MAX);
    assert Show(n) + "" == Show(n);
  }

  /** The lower-case spellings `getBool` accepts as true. */
  predicate Truthy(v: string)
  {
    v == "true" || v == "1" || v == "yes" || v == "on"
  }

  /** `getBool`: the default for an empty value, otherwise whether the value,
      lower-cased, is one of the four true spellings. */
  function GetBool(env: Env, process: map<string, string>, key: string, default: bool): (r: bool)
    ensures var v := Get(env, process, key, "");
      |v| == 0 ==> r == default
    ensures var v := Get(env, process, key, "");
      |v| > 0 ==> (r <==> Truthy(Lower(v)))
  {
    var v := Get(env, process, key, "");
    if |v| == 0 then default else Truthy(Lower(v))
  }

  /** The comparison ignores case: two values that agree up to case give the
      same answer. */
  lemma GetBoolIgnoresCase(env: Env, process: map<string, string>, key: string, default: bool, other: string)
    requires key in env.vars && |other| == |env.vars[key]|
    requires Lower(other) == Lower(env.vars[key])
    ensures GetBool(Env(env.vars[key := other], env.loaded), process, key, default)
      == GetBool(env, process, key, default)
  {
  }

  // ------------------------------------------------------------ settings

  /** `getJWTExpiration`: `JWT_EXPIRATION_HOURS`, 24 when unset. */
  function JwtExpirationHours(env: Env, process: map<string, string>): (h: int)
    ensures "JWT_EXPIRATION_HOURS" !in env.vars && "JWT_EXPIRATION_HOURS" !in process ==> h == 24
  {
    GetInt(env, process, "JWT_EXPIRATION_HOURS", 24)
  }

  /** `getRateLimitWindow`: `RATE_LIMIT_WINDOW` seconds, 900 when unset. */
  function RateLimitWindow(env: Env, process: map<string, string>): (w: int)
    ensures "RATE_LIMIT_WINDOW" !in env.vars && "RATE_LIMIT_WINDOW" !in process ==> w == 900
  {
    GetInt(env, process, "RATE_LIMIT_WINDOW", 900)
  }

  /** `getRateLimitMax`: `RATE_LIMIT_MAX`, 100 when unset. */
  function RateLimitMax(env: Env, process: map<string, string>): (m: int)
    ensures "RATE_LIMIT_MAX" !in env.vars && "RATE_LIMIT_MAX" !in process ==> m == 100
  {
    GetInt(env, process, "RATE_LIMIT_MAX", 100)
  }
}
