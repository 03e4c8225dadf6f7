/** The JavaScript number operations the catalog's paging uses:
    `parseInt(x)` without a radix, `x || d`, and `Math.ceil(a / b)`. */
module JsNumber {
  import opened Wrappers
  import Text

  /** Value of `c` as a digit in `radix` (10 or 16), or -1. */
  function DigitValue(c: char, radix: nat): (d: int)
    ensures -1 <= d < radix || (d == -1)
  {
    var v :=
      if '0' <= c <= '9' then c as int - '0' as int
      else if 'a' <= c <= 'f' then c as int - 'a' as int + 10
      else if 'A' <= c <= 'F' then c as int - 'A' as int + 10
      else -1;
    if v < radix then v else -1
  }

  predicate IsDigit(c: char, radix: nat)
  {
    DigitValue(c, radix) >= 0
  }

  /** Length of the longest prefix of `s` made of digits of `radix`. */
  function DigitCount(s: string, radix: nat): (n: nat)
    ensures n <= |s|
    ensures forall k :: 0 <= k < n ==> IsDigit(s[k], radix)
    ensures n == |s| || !IsDigit(s[n], radix)
  {
    if s != [] && IsDigit(s[0], radix) then 1 + DigitCount(s[1..], radix) else 0
  }

  /** The number the digits `ds` denote in `radix`, most significant first. */
  function DigitsValue(ds: string, radix: nat): nat
  {
    if ds == [] then 0
    else
      var d := DigitValue(ds[|ds| - 1], radix);
      DigitsValue(ds[..|ds| - 1], radix) * radix + (if d < 0 then 0 else d)
  }

  /** The longest run of `radix` digits at the start of `w`, or `None` if there is none. */
  function ParseDigits(w: string, radix: nat): Option<nat>
  {
    var n := DigitCount(w, radix);
    if n == 0 then None else Some(DigitsValue(w[..n], radix))
  }

  predicate HexPrefix(u: string)
  {
    |u| >= 2 && u[0] == '0' && (u[1] == 'x' || u[1] == 'X')
  }

  /** The magnitude: radix 16 after a `0x`/`0X` prefix, radix 10 otherwise. */
  function ParseMagnitude(u: string): Option<nat>
  {
    if HexPrefix(u) then ParseDigits(u[2..], 16) else ParseDigits(u, 10)
  }

  /** `parseInt(s)`: skip leading white space, take an optional sign, then the magnitude.
      `None` stands for `NaN`; `-0` is represented by 0. */
  function ParseInt(s: string): Option<int>
  {
    var t := s[Text.StartIndex(s)..];
    if t != [] && t[0] == '-' then
      match ParseMagnitude(t[1..])
      case None => None
      case Some(m) => Some(-(m as int))
    else if t != [] && t[0] == '+' then
      match ParseMagnitude(t[1..])
      case None => None
      case Some(m) => Some(m as int)
    else
      match ParseMagnitude(t)
      case None => None
      case Some(m) => Some(m as int)
  }

  /** `parseInt(q) || d` for a query parameter that may be absent (`parseInt(undefined)` is `NaN`).
      `NaN` and zero are falsy and give the default. */
  function ParseIntOr(q: Option<string>, d: int): (r: int)
    ensures d != 0 ==> r != 0
    ensures (q.None? || ParseInt(q.value) in {None, Some(0)}) ==> r == d
    ensures q.Some? && ParseInt(q.value).Some? && ParseInt(q.value).value != 0 ==> r == ParseInt(q.value).value
  {
    match q
    case None => d
    case Some(s) =>
      match ParseInt(s)
      case None => d
      case Some(v) => if v == 0 then d else v
  }

  /** `Math.ceil(a / b)` for a non-negative count `a` and a non-zero `b`. */
  function CeilDiv(a: nat, b: int): (r: int)
    requires b != 0
    ensures b > 0 ==> (r - 1) * b < a <= r * b
    ensures b < 0 ==> r * b <= a < (r - 1) * b
  {
    if b > 0 then
      var r := (a + b - 1) / b;
      assert (a + b - 1) == r * b + (a + b - 1) % b;
      r
    else
      var q := a / -b;
      assert a == q * -b + a % -b;
      -q
  }

  // ---------------------------------------------------------------------------
  // Decimal rendering, the inverse of parseInt on non-negative integers.

  function DigitChar(d: nat): (c: char)
    requires d < 10
    ensures DigitValue(c, 10) == d
  {
    ('0' as int + d) as char
  }

  /** The decimal digits of `n`, most significant first, without leading zeros. */
  function Decimal(n: nat): (s: string)
    ensures |s| >= 1
    ensures forall k :: 0 <= k < |s| ==> '0' <= s[k] <= '9'
  {
    if n < 10 then [DigitChar(n)] else Decimal(n / 10) + [DigitChar(n % 10)]
  }

  lemma {:induction false} DecimalValue(n: nat)
    ensures DigitCount(Decimal(n), 10) == |Decimal(n)|
    ensures DigitsValue(Decimal(n), 10) == n
  {
    var s := Decimal(n);
    AllDigitsCount(s);
    if n >= 10 {
      DecimalValue(n / 10);
      assert s[..|s| - 1] == Decimal(n / 10);
    }
  }

  lemma {:induction false} AllDigitsCount(s: string)
    requires forall k :: 0 <= k < |s| ==> '0' <= s[k] <= '9'
    ensures DigitCount(s, 10) == |s|
  {
    if s != [] { AllDigitsCount(s[1..]); }
  }

  /** How `parseInt` reads a string that starts with a decimal digit and has no hex prefix. */
  lemma ParseUnsigned(u: string, v: nat)
    requires u != [] && '0' <= u[0] <= '9' && !HexPrefix(u)
    requires v == DigitsValue(u[..DigitCount(u, 10)], 10)
    ensures ParseInt(u) == Some(v)
    ensures ParseInt("-" + u) == Some(-(v as int))
  {
    assert !Text.IsJsWhitespace(u[0]);
    assert Text.StartIndex(u) == 0;
    assert u[0..] == u;
    assert ParseMagnitude(u) == ParseDigits(u, 10);
    var s := "-" + u;
    assert !Text.IsJsWhitespace(s[0]);
    assert Text.StartIndex(s) == 0;
    assert s[0..] == s && s[1..] == u;
  }

  /** The decimal rendering meets `ParseUnsigned`'s requirements and its digits are all read. */
  lemma DecimalIsUnsigned(n: nat)
    ensures var d := Decimal(n);
            && d != [] && '0' <= d[0] <= '9' && !HexPrefix(d)
            && DigitsValue(d[..DigitCount(d, 10)], 10) == n
  {
    var d := Decimal(n);
    DecimalValue(n);
    assert d[..|d|] == d;
    assert !HexPrefix(d) by { if |d| >= 2 { assert '0' <= d[1] <= '9'; } }
  }

  /** `parseInt` reads back the decimal rendering of a non-negative integer. */
  lemma ParseDecimal(n: nat)
    ensures ParseInt(Decimal(n)) == Some(n)
    ensures ParseInt("-" + Decimal(n)) == Some(-(n as int))
  {
    DecimalIsUnsigned(n);
    ParseUnsigned(Decimal(n), n);
  }

  /** `parseInt` stops at the first character that is not a digit (`"2.5"` gives 2). */
  lemma ParseStopsAtNonDigit(n: nat, rest: string)
    requires rest != [] && !IsDigit(rest[0], 10) && rest[0] != 'x' && rest[0] != 'X'
    ensures ParseInt(Decimal(n) + rest) == Some(n)
  {
    var d := Decimal(n);
    var s := d + rest;
    DecimalValue(n);
    PrefixDigitCount(d, rest);
    assert s[..|d|] == d;
    assert s[0] == d[0];
    assert |s| >= 2 ==> s[1] == (if |d| >= 2 then d[1] else rest[0]);
    ParseUnsigned(s, n);
  }

  lemma {:induction false} PrefixDigitCount(d: string, rest: string)
    requires forall k :: 0 <= k < |d| ==> '0' <= d[k] <= '9'
    requires rest != [] && !IsDigit(rest[0], 10)
    ensures DigitCount(d + rest, 10) == |d|
  {
    if d == [] {
      assert d + rest == rest;
    } else {
      assert (d + rest)[1..] == d[1..] + rest;
      PrefixDigitCount(d[1..], rest);
    }
  }

  /** A string without any decimal digit parses to `NaN`. */
  lemma NoDigitsIsNaN(s: string)
    requires forall k :: 0 <= k < |s| ==> !('0' <= s[k] <= '9')
    ensures ParseInt(s) == None
  {
    var t := s[Text.StartIndex(s)..];
    assert forall k :: 0 <= k < |t| ==> t[k] == s[Text.StartIndex(s) + k];
    if t != [] {
      assert ParseMagnitude(t[1..]) == None by { assert !HexPrefix(t[1..]) || |t| >= 3; }
    }
  }
}
