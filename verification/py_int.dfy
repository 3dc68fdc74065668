/** Python's `int(text)` in base 10, restricted to ASCII digits. */
module PyInt {
  import opened Wrappers
  import opened Strings

  predicate IsDigit(c: char)
  {
    '0' <= c <= '9'
  }

  /** The digits of a base-10 literal as `int()` accepts them: digits, with single underscores between digits. */
  predicate IsNumeral(s: string)
  {
    && |s| > 0 && IsDigit(s[|s| - 1])
    && (|s| == 1 || IsNumeral(if s[|s| - 2] == '_' then s[..|s| - 2] else s[..|s| - 1]))
  }

  /** The value of the digits of `s`, underscores ignored. */
  function DigitsValue(s: string): nat
  {
    if s == [] then 0
    else if IsDigit(s[|s| - 1]) then DigitsValue(s[..|s| - 1]) * 10 + (s[|s| - 1] as int - '0' as int)
    else DigitsValue(s[..|s| - 1])
  }

  /** `int(s)`: surrounding whitespace is ignored, one sign is allowed; `None` stands for the `ValueError`. */
  function ParseInt(s: string): (r: Option<int>)
    ensures r.Some? ==> Strip(s) != [] && IsDigit(Strip(s)[|Strip(s)| - 1])
  {
    var t := Strip(s);
    if |t| > 0 && (t[0] == '+' || t[0] == '-') then
      var body := t[1..];
      var v: int := DigitsValue(body);
      if IsNumeral(body) then Some(if t[0] == '-' then -v else v) else None
    else if IsNumeral(t) then Some(DigitsValue(t))
    else None
  }

  function DigitChar(d: nat): char
    requires d < 10
  {
    ('0' as int + d) as char
  }

  /** The decimal digits of `n`, without leading zeros. */
  function ShowNat(n: nat): string
  {
    if n < 10 then [DigitChar(n)] else ShowNat(n / 10) + [DigitChar(n % 10)]
  }

  /** `str(n)` for an integer. */
  function ShowInt(n: int): string
  {
    if n < 0 then "-" + ShowNat(-n) else ShowNat(n)
  }

  lemma {:induction false} ShowNatIsNumeral(n: nat)
    ensures IsNumeral(ShowNat(n)) && DigitsValue(ShowNat(n)) == n
    ensures IsDigit(ShowNat(n)[0])
  {
    if n >= 10 {
      ShowNatIsNumeral(n / 10);
      var p := ShowNat(n / 10);
      var s := ShowNat(n);
      assert s[..|s| - 1] == p;
      assert s[|s| - 2] == p[|p| - 1];
      assert s[0] == p[0];
    }
  }

  /** Round trip: `int(str(n)) == n`. */
  lemma ParseShow(n: int)
    ensures ParseInt(ShowInt(n)) == Some(n)
  {
    var m: nat := if n < 0 then -n else n;
    ShowNatIsNumeral(m);
    var d := ShowNat(m);
    ParseDigits(d);
    if n < 0 {
      assert ShowInt(n) == "-" + d;
    } else {
      assert ShowInt(n) == d;
    }
  }

  /** A numeral with no surrounding whitespace parses to its value, and with a minus sign to its negation. */
  lemma ParseDigits(d: string)
    requires IsNumeral(d) && IsDigit(d[0])
    ensures ParseInt(d) == Some(DigitsValue(d) as int)
    ensures ParseInt("-" + d) == Some(-(DigitsValue(d) as int))
  {
    ParsePositive(d);
    ParseNegative("-" + d, d);
  }

  /** A numeral with no surrounding whitespace, read by `int()`, is its value. */
  lemma ParsePositive(d: string)
    requires IsNumeral(d) && IsDigit(d[0])
    ensures ParseInt(d) == Some(DigitsValue(d) as int)
  {
    assert !IsSpace(d[|d| - 1]) && !IsSpace(d[0]);
    StripNoEdges(d);
    assert d[0] != '+' && d[0] != '-';
  }

  /** A minus sign before a numeral negates its value. */
  lemma ParseNegative(s: string, d: string)
    requires IsNumeral(d) && s == "-" + d
    ensures ParseInt(s) == Some(-(DigitsValue(d) as int))
  {
    assert s[|s| - 1] == d[|d| - 1] && s[0] == '-';
    StripNoEdges(s);
    assert s[1..] == d;
  }

  /** `int()` ignores surrounding whitespace: a trimmed text parses as the text itself. */
  lemma ParseIgnoresSpace(s: string)
    ensures ParseInt(Strip(s)) == ParseInt(s)
  {
    StripIdempotent(s);
  }

  /** The literal text `None` is not an integer. */
  lemma NoneIsNotInt()
    ensures ParseInt("None") == None
  {
    StripNoEdges("None");
    assert !IsDigit("None"[3]);
  }
}
