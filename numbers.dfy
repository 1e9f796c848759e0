/**
 * Which texts Python's `int()` and `float()` accept, over ASCII: optional
 * surrounding whitespace, an optional sign and decimal digits (and, for a
 * float, a decimal point and an optional exponent).
 */
module Numbers {
  import opened Wrappers
  import opened Text

  predicate IsDigit(c: char) { '0' <= c <= '9' }

  predicate IsSign(c: char) { c == '+' || c == '-' }

  predicate AllDigits(s: string) { forall k :: 0 <= k < |s| ==> IsDigit(s[k]) }

  /** Index of the first `a` or `b` in `s`, or `|s|`. */
  function Find(s: string, a: char, b: char): (i: nat)
    ensures i <= |s|
    ensures forall k :: 0 <= k < i ==> s[k] != a && s[k] != b
    ensures i < |s| ==> s[i] == a || s[i] == b
  {
    if s == [] || s[0] == a || s[0] == b then 0 else 1 + Find(s[1..], a, b)
  }

  /** The value of a run of decimal digits, most significant first. */
  function DigitsValue(s: string): nat
    requires AllDigits(s)
  {
    if s == [] then 0 else DigitsValue(s[..|s| - 1]) * 10 + (s[|s| - 1] as int - '0' as int)
  }

  /** A base-10 integer literal: an optional sign and at least one digit. */
  predicate IsIntLiteral(t: string)
  {
    || (|t| >= 1 && AllDigits(t))
    || (|t| >= 2 && IsSign(t[0]) && AllDigits(t[1..]))
  }

  /** The default of `sys.get_int_max_str_digits()`: `int()` refuses a
      decimal text with more digits than this. */
  const IntMaxStrDigits := 4300

  /** The number of digits of a literal, its sign not counted. */
  function DigitCount(t: string): nat
  {
    if t != [] && IsSign(t[0]) then |t| - 1 else |t|
  }

  /** Python `int(s)`: `None` where `int` raises `ValueError`. Surrounding
      `\t`..`\r` and spaces are skipped; other whitespace is refused. */
  function ParseInt(s: string): (r: Option<int>)
    ensures r.Some? ==> Strip(s, NumberSpaces) != []
  {
    var t := Strip(s, NumberSpaces);
    if DigitCount(t) > IntMaxStrDigits then None
    else if |t| >= 1 && AllDigits(t) then Some(DigitsValue(t))
    else if |t| >= 2 && t[0] == '-' && AllDigits(t[1..]) then Some(-(DigitsValue(t[1..]) as int))
    else if |t| >= 2 && t[0] == '+' && AllDigits(t[1..]) then Some(DigitsValue(t[1..]))
    else None
  }

  /** `int` accepts exactly the integer literals of at most 4300 digits, and
      the sign of the value is the sign written. */
  lemma ParseIntAccepts(s: string)
    ensures var t := Strip(s, NumberSpaces);
      ParseInt(s).Some? <==> IsIntLiteral(t) && DigitCount(t) <= IntMaxStrDigits
    ensures var t := Strip(s, NumberSpaces);
      ParseInt(s).Some? && t[0] == '-' ==> ParseInt(s).value <= 0
    ensures var t := Strip(s, NumberSpaces);
      ParseInt(s).Some? && t[0] != '-' ==> ParseInt(s).value >= 0
  {
  }

  /** A float mantissa that holds a decimal point: digits, one point, digits,
      with at least one digit on some side. */
  predicate IsPointMantissa(m: string)
  {
    var p := Find(m, '.', '.');
    p < |m| && |m| >= 2 && AllDigits(m[..p]) && AllDigits(m[p + 1..])
  }

  /** An exponent part: `e` or `E`, an optional sign, then digits. */
  predicate IsExponent(x: string)
  {
    && |x| >= 2 && (x[0] == 'e' || x[0] == 'E')
    && (AllDigits(x[1..]) || (|x| >= 3 && IsSign(x[1]) && AllDigits(x[2..])))
  }

  /** A float literal with a decimal point as `float()` accepts it once
      stripped: optional sign, mantissa with a point, optional exponent. */
  predicate IsPointFloat(t: string)
  {
    var u := if t != [] && IsSign(t[0]) then t[1..] else t;
    var e := Find(u, 'e', 'E');
    IsPointMantissa(u[..e]) && (e == |u| || IsExponent(u[e..]))
  }

  /** Python `float(s)` succeeds, for a text that contains a decimal point;
      like `int`, it skips only `\t`..`\r` and spaces around the number. */
  predicate ParsesAsFloat(s: string)
    ensures ParsesAsFloat(s) ==> '.' in s
  {
    var t := Strip(s, NumberSpaces);
    if IsPointFloat(t) then
      PointFloatHasPoint(t);
      StripKeepsChar(s, NumberSpaces, '.');
      true
    else false
  }

  /** Every text `float()` accepts here holds a decimal point. */
  lemma PointFloatHasPoint(t: string)
    requires IsPointFloat(t)
    ensures '.' in t
  {
    var u := if t != [] && IsSign(t[0]) then t[1..] else t;
    var e := Find(u, 'e', 'E');
    var p := Find(u[..e], '.', '.');
    assert u[..e][p] == '.';
    assert u[p] == '.';
  }

  /** A text that starts and ends with a digit and has no exponent mark is
      accepted by `float()` exactly when it is a mantissa with a point. */
  lemma PlainFloat(t: string)
    requires t != [] && IsDigit(t[0]) && IsDigit(t[|t| - 1])
    requires forall k :: 0 <= k < |t| ==> t[k] != 'e' && t[k] != 'E'
    ensures ParsesAsFloat(t) <==> IsPointMantissa(t)
  {
    StripUnchanged(t, NumberSpaces);
    assert Find(t, 'e', 'E') == |t|;
    assert t[..|t|] == t;
  }

  /** Digits, a point and digits form a mantissa. */
  lemma DigitsPointDigits(a: string, b: string)
    requires a != [] && b != [] && AllDigits(a) && AllDigits(b)
    ensures IsPointMantissa(a + "." + b)
  {
    var t := a + "." + b;
    assert t[|a|] == '.';
    assert forall k :: 0 <= k < |a| ==> t[k] == a[k];
    assert Find(t, '.', '.') == |a|;
    assert t[..|a|] == a && t[|a| + 1..] == b;
  }

  /** After the first point, a second one spoils the mantissa. */
  lemma SecondPoint(a: string, rest: string)
    requires AllDigits(a) && '.' in rest
    ensures !IsPointMantissa(a + "." + rest)
  {
    var t := a + "." + rest;
    assert t[|a|] == '.';
    assert forall k :: 0 <= k < |a| ==> t[k] == a[k];
    assert Find(t, '.', '.') == |a|;
    assert t[|a| + 1..] == rest;
  }

  /** `float()` accepts digits, a point and digits. */
  lemma PointNumberAccepted(a: string, b: string)
    requires a != [] && b != [] && AllDigits(a) && AllDigits(b)
    ensures '.' in a + "." + b && ParsesAsFloat(a + "." + b)
  {
    var t := a + "." + b;
    assert t[0] == a[0] && t[|t| - 1] == b[|b| - 1] && t[|a|] == '.';
    NoExponentMark(a, "." + b);
    PlainFloat(t);
    DigitsPointDigits(a, b);
  }

  /** `float()` refuses digits with two points, such as `1.2.3`. */
  lemma TwoPointsRejected(a: string, b: string, c: string)
    requires a != [] && c != [] && AllDigits(a) && AllDigits(b) && AllDigits(c)
    ensures '.' in a + "." + b + "." + c && !ParsesAsFloat(a + "." + b + "." + c)
  {
    var rest := b + "." + c;
    var t := a + "." + rest;
    assert t == a + "." + b + "." + c;
    assert t[0] == a[0] && t[|t| - 1] == c[|c| - 1] && t[|a|] == '.' && rest[|b|] == '.';
    NoExponentMark(b, "." + c);
    NoExponentMark(a, "." + rest);
    PlainFloat(t);
    SecondPoint(a, rest);
  }

  /** Digits followed by a text free of exponent marks hold no exponent mark. */
  lemma NoExponentMark(a: string, rest: string)
    requires AllDigits(a)
    requires forall k :: 0 <= k < |rest| ==> rest[k] != 'e' && rest[k] != 'E'
    ensures forall k :: 0 <= k < |a + rest| ==> (a + rest)[k] != 'e' && (a + rest)[k] != 'E'
  {
    assert forall k :: 0 <= k < |a| ==> (a + rest)[k] == a[k];
    assert forall k :: |a| <= k < |a + rest| ==> (a + rest)[k] == rest[k - |a|];
  }

  /** The decimal digits of `n` (Python `str(n)` for `n >= 0`). */
  function NatToDigits(n: nat): (s: string)
    ensures |s| >= 1 && AllDigits(s)
    ensures s[0] != '0' || n == 0
  {
    var d := [(n % 10 + '0' as int) as char];
    if n < 10 then d else NatToDigits(n / 10) + d
  }

  /** The decimal text of `n`, as Python's `str(n)` writes it. */
  function IntToText(n: int): string
  {
    if n < 0 then "-" + NatToDigits(-n) else NatToDigits(n)
  }

  lemma {:induction false} DigitsRoundTrip(n: nat)
    ensures DigitsValue(NatToDigits(n)) == n
  {
    if n >= 10 {
      DigitsRoundTrip(n / 10);
      var s := NatToDigits(n);
      assert s[..|s| - 1] == NatToDigits(n / 10);
    }
  }

  /** `int` reads the decimal text of `n` back as `n` exactly when it has at
      most 4300 digits; a longer text is refused. */
  lemma IntTextRoundTrip(n: int)
    ensures var digits := NatToDigits(if n < 0 then -n else n);
      ParseInt(IntToText(n)) == if |digits| <= IntMaxStrDigits then Some(n) else None
  {
    IntTextTrimmed(n);
    if n < 0 {
      NegativeText(n);
      assert DigitCount(IntToText(n)) == |NatToDigits(-n)|;
    } else {
      DigitsRoundTrip(n);
      assert DigitCount(IntToText(n)) == |NatToDigits(n)|;
    }
  }

  /** The text of an integer has no surrounding whitespace. */
  lemma IntTextTrimmed(n: int)
    ensures Strip(IntToText(n), NumberSpaces) == IntToText(n)
  {
    var s := IntToText(n);
    assert !IsNumberSpace(s[0]) && !IsNumberSpace(s[|s| - 1]);
    StripUnchanged(s, NumberSpaces);
  }

  lemma NegativeText(n: int)
    requires n < 0
    ensures var s := IntToText(n);
      && |s| >= 2 && s[0] == '-' && !AllDigits(s) && AllDigits(s[1..]) && DigitsValue(s[1..]) == -n
  {
    var s := IntToText(n);
    var d := NatToDigits(-n);
    assert s[1..] == d;
    assert !IsDigit(s[0]);
    DigitsRoundTrip(-n);
  }
}
