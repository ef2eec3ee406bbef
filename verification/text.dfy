/** Character-level helpers shared by the token, header, configuration and
    reward code: ASCII character classes, `std::to_string` of an integer, the
    way `std::stoi`/`std::stoll` read a leading integer, and searching. */
module Text {
  import opened Wrappers

  predicate IsDigit(c: char) { '0' <= c <= '9' }

  predicate IsLetter(c: char) { 'a' <= c <= 'z' || 'A' <= c <= 'Z' }

  predicate IsAlnum(c: char) { IsDigit(c) || IsLetter(c) }

  /** `isspace` in the C locale: space, tab, newline, vertical tab, form feed,
      carriage return. */
  predicate IsSpace(c: char)
  {
    c == ' ' || c == '\t' || c == '\n' || c == '\r' || c as int == 11 || c as int == 12
  }

  /** `std::tolower` on one byte in the C locale. */
  function ToLower(c: char): (r: char)
    ensures IsLetter(c) ==> 'a' <= r <= 'z'
    ensures !('A' <= c <= 'Z') ==> r == c
  {
    if 'A' <= c <= 'Z' then (c as int + 32) as char else c
  }

  function Lower(s: string): (r: string)
    ensures |r| == |s| && forall i :: 0 <= i < |s| ==> r[i] == ToLower(s[i])
  {
    seq(|s|, i requires 0 <= i < |s| => ToLower(s[i]))
  }

  predicate StartsWith(s: string, prefix: string)
  {
    |prefix| <= |s| && s[..|prefix|] == prefix
  }

  predicate OccursAt(s: string, pat: string, i: int)
  {
    0 <= i && i + |pat| <= |s| && s[i..i + |pat|] == pat
  }

  /** `s.find(pat) != std::string::npos`. */
  predicate Contains(s: string, pat: string)
  {
    exists i :: 0 <= i <= |s| && OccursAt(s, pat, i)
  }

  /** `s.find(c)`: the first position of `c`, if any. */
  function IndexOf(s: string, c: char): (r: Option<nat>)
    ensures r.None? <==> c !in s
    ensures r.Some? ==> r.value < |s| && s[r.value] == c && c !in s[..r.value]
  {
    if |s| == 0 then None
    else if s[0] == c then Some(0)
    else
      match IndexOf(s[1..], c)
      case None => None
      case Some(i) =>
        assert s[1..][..i] == s[1..i + 1];
        assert s[..i + 1] == [s[0]] + s[1..i + 1];
        Some(i + 1)
  }

  /** The text before the first `c`: all of `s` when there is none. */
  function Before(s: string, c: char): (r: string)
    ensures c !in r && |r| <= |s| && s[..|r|] == r
    ensures c in s <==> |r| < |s|
    ensures c in s ==> s[|r|] == c
  {
    match IndexOf(s, c)
    case None => s
    case Some(i) => s[..i]
  }

  /** The text after the first `c`: empty when there is none. */
  function After(s: string, c: char): (r: string)
    ensures c in s ==> s == Before(s, c) + [c] + r
  {
    var b := Before(s, c);
    if |b| < |s| then
      assert s == s[..|b|] + [s[|b|]] + s[|b| + 1..];
      s[|b| + 1..]
    else []
  }

  /** `s.rfind(c)`: the last position of `c`, if any. */
  function LastIndexOf(s: string, c: char): (r: Option<nat>)
    ensures r.None? <==> c !in s
    ensures r.Some? ==> r.value < |s| && s[r.value] == c && c !in s[r.value + 1..]
  {
    if |s| == 0 then None
    else if s[|s| - 1] == c then Some(|s| - 1)
    else
      match LastIndexOf(s[..|s| - 1], c)
      case None =>
        assert s == s[..|s| - 1] + [s[|s| - 1]];
        None
      case Some(i) =>
        assert s[i + 1..] == s[..|s| - 1][i + 1..] + [s[|s| - 1]];
        Some(i)
  }

  // ------------------------------------------------------------ decimal text

  function DigitChar(d: nat): (c: char)
    requires d < 10
    ensures IsDigit(c)
  {
    ('0' as int + d) as char
  }

  function DigitValue(c: char): (d: nat)
    requires IsDigit(c)
    ensures d < 10 && DigitChar(d) == c
  {
    c as int - '0' as int
  }

  /** The decimal digits of `n`, most significant first, no leading zero. */
  function ShowNat(n: nat): (r: string)
    ensures |r| > 0
    ensures forall i :: 0 <= i < |r| ==> IsDigit(r[i])
    decreases n
  {
    if n < 10 then [DigitChar(n)] else ShowNat(n / 10) + [DigitChar(n % 10)]
  }

  /** `std::to_string` of a signed integer, and what `operator<<` writes. */
  function Show(n: int): (r: string)
    ensures |r| > 0
    ensures r[0] == '-' || IsDigit(r[0])
    ensures forall i :: 0 < i < |r| ==> IsDigit(r[i])
    ensures '.' !in r && ':' !in r
  {
    if n >= 0 then ShowNat(n) else "-" + ShowNat(-n)
  }

  /** The value of a run of decimal digits. */
  function DigitsValue(s: string): nat
    requires forall i :: 0 <= i < |s| ==> IsDigit(s[i])
  {
    if |s| == 0 then 0 else 10 * DigitsValue(s[..|s| - 1]) + DigitValue(s[|s| - 1])
  }

  lemma {:induction false} ShowNatValue(n: nat)
    ensures DigitsValue(ShowNat(n)) == n
    decreases n
  {
    if n >= 10 {
      var r := ShowNat(n);
      assert r[..|r| - 1] == ShowNat(n / 10);
      ShowNatValue(n / 10);
    }
  }

  /** The length of the run of digits that starts `s`. */
  function DigitRun(s: string): (n: nat)
    ensures n <= |s|
    ensures forall i :: 0 <= i < n ==> IsDigit(s[i])
    ensures n < |s| ==> !IsDigit(s[n])
  {
    if |s| == 0 || !IsDigit(s[0]) then 0 else 1 + DigitRun(s[1..])
  }

  /** `s` without its leading white space. */
  function SkipSpace(s: string): (r: string)
    ensures |r| <= |s| && r == s[|s| - |r|..]
    ensures |r| == 0 || !IsSpace(r[0])
    ensures forall i :: 0 <= i < |s| - |r| ==> IsSpace(s[i])
  {
    if |s| > 0 && IsSpace(s[0]) then SkipSpace(s[1..]) else s
  }

  const INT32_MIN: int := -0x8000_0000
  const INT32_MAX: int := 0x7FFF_FFFF
  const INT64_MIN: int := -0x8000_0000_0000_0000
  const INT64_MAX: int := 0x7FFF_FFFF_FFFF_FFFF

  /** How `std::stoi` (range of `int`) and `std::stoll` (range of `long
      long`) read a string: white space is skipped, one optional sign is
      read, then the longest run of digits; anything after the run is
      ignored. No digit at all, or a value outside `[lo, hi]`, throws, which
      is `None` here. */
  function ParseLeadingInt(s: string, lo: int, hi: int): (r: Option<int>)
    ensures r.Some? ==> lo <= r.value <= hi
  {
    ParseSigned(SkipSpace(s), lo, hi)
  }

  /** The part of `ParseLeadingInt` after the white space. */
  function ParseSigned(t: string, lo: int, hi: int): (r: Option<int>)
    ensures r.Some? ==> lo <= r.value <= hi
  {
    var signed := |t| > 0 && (t[0] == '-' || t[0] == '+');
    var u := if signed then t[1..] else t;
    var n := DigitRun(u);
    if n == 0 then None
    else
      var v: int := DigitsValue(u[..n]);
      var x: int := if signed && t[0] == '-' then -v else v;
      if lo <= x <= hi then Some(x) else None
  }

  lemma NothingToSkip(s: string)
    requires |s| > 0 && !IsSpace(s[0])
    ensures SkipSpace(s) == s
  {
  }

  /** Reading back what `Show` wrote gives the same integer, whatever text
      follows it, provided that text does not start with a digit. */
  lemma ParseShow(n: int, rest: string, lo: int, hi: int)
    requires lo <= n <= hi
    requires |rest| == 0 || !IsDigit(rest[0])
    ensures ParseLeadingInt(Show(n) + rest, lo, hi) == Some(n)
  {
    if n >= 0 {
      ParseShowNat(n, rest, lo, hi);
    } else {
      ParseShowNegative(n, rest, lo, hi);
    }
  }

  /** The digits of `m` followed by a non-digit: the run is exactly the
      digits, and its value is `m`. */
  lemma DigitsThenRest(m: nat, rest: string)
    requires |rest| == 0 || !IsDigit(rest[0])
    ensures var u := ShowNat(m) + rest;
      DigitRun(u) == |ShowNat(m)| && u[..DigitRun(u)] == ShowNat(m) && DigitsValue(ShowNat(m)) == m
  {
    RunOfDigits(ShowNat(m), rest);
    ShowNatValue(m);
    var u := ShowNat(m) + rest;
    assert u[..|ShowNat(m)|] == ShowNat(m);
  }

  lemma ParseShowNat(n: nat, rest: string, lo: int, hi: int)
    requires lo <= n <= hi
    requires |rest| == 0 || !IsDigit(rest[0])
    ensures ParseLeadingInt(Show(n) + rest, lo, hi) == Some(n)
  {
    var u := ShowNat(n) + rest;
    assert Show(n) + rest == u;
    NothingToSkip(u);
    DigitsThenRest(n, rest);
    assert ParseSigned(u, lo, hi) == Some(n);
  }

  lemma ParseShowNegative(n: int, rest: string, lo: int, hi: int)
    requires lo <= n <= hi && n < 0
    requires |rest| == 0 || !IsDigit(rest[0])
    ensures ParseLeadingInt(Show(n) + rest, lo, hi) == Some(n)
  {
    var m: nat := -n;
    var u := ShowNat(m) + rest;
    var s := "-" + u;
    assert Show(n) + rest == s;
    NothingToSkip(s);
    DigitsThenRest(m, rest);
    MinusThenDigits(u, m, lo, hi);
  }

  lemma MinusThenDigits(u: string, m: nat, lo: int, hi: int)
    requires DigitRun(u) > 0 && DigitsValue(u[..DigitRun(u)]) == m
    requires lo <= -(m as int) <= hi
    ensures ParseSigned("-" + u, lo, hi) == Some(-(m as int))
  {
    assert ("-" + u)[1..] == u;
  }

  lemma {:induction false} RunOfDigits(digits: string, rest: string)
    requires forall i :: 0 <= i < |digits| ==> IsDigit(digits[i])
    requires |rest| == 0 || !IsDigit(rest[0])
    ensures DigitRun(digits + rest) == |digits|
  {
    if |digits| > 0 {
      assert (digits + rest)[1..] == digits[1..] + rest;
      RunOfDigits(digits[1..], rest);
    }
  }
}
