/**
 * JavaScript's global `parseInt(string)` with no radix, as the prompt
 * validators and workflows of src/index.ts call it: leading white space is
 * skipped, one sign is read, a `0x`/`0X` prefix selects base 16, and the
 * longest run of digits that follows is the value; no digits at all is NaN.
 */
module JsParseInt {

  datatype Parsed = NaN | Num(value: int)

  /** JavaScript white space and line terminators, which `parseInt` skips. */
  predicate IsSpace(c: char)
  {
    var x := c as int;
    x == 0x09 || x == 0x0B || x == 0x0C || x == 0x20 || x == 0xA0 || x == 0xFEFF
    || x == 0x1680 || 0x2000 <= x <= 0x200A || x == 0x202F || x == 0x205F || x == 0x3000
    || x == 0x0A || x == 0x0D || x == 0x2028 || x == 0x2029
  }

  /** The string after its leading white space. */
  function TrimStart(s: string): (r: string)
    ensures r == [] || !IsSpace(r[0])
  {
    if s != [] && IsSpace(s[0]) then TrimStart(s[1..]) else s
  }

  /** What is trimmed is a run of white space at the front, and the rest is kept as it was. */
  lemma {:induction false} TrimStartSpec(s: string)
    ensures var r := TrimStart(s);
            && |r| <= |s| && r == s[|s| - |r|..]
            && forall k :: 0 <= k < |s| - |r| ==> IsSpace(s[k])
  {
    if s != [] && IsSpace(s[0]) {
      TrimStartSpec(s[1..]);
      var r := TrimStart(s);
      assert s[1..][|s| - 1 - |r|..] == s[|s| - |r|..];
      forall k | 0 <= k < |s| - |r| ensures IsSpace(s[k]) {
        if k > 0 {
          assert s[k] == s[1..][k - 1];
        }
      }
    }
  }

  /** The value of `c` as a digit of base `radix` (10 or 16), if it is one. */
  function DigitValue(c: char, radix: nat): (d: int)
    ensures d == -1 || 0 <= d < radix
  {
    var v :=
      if '0' <= c <= '9' then c as int - '0' as int
      else if 'a' <= c <= 'z' then c as int - 'a' as int + 10
      else if 'A' <= c <= 'Z' then c as int - 'A' as int + 10
      else -1;
    if 0 <= v < radix then v else -1
  }

  predicate IsDigit(c: char, radix: nat)
  {
    DigitValue(c, radix) >= 0
  }

  /** Length of the run of base-`radix` digits `s` starts with. */
  function DigitRun(s: string, radix: nat): (n: nat)
    ensures n <= |s|
    ensures forall k :: 0 <= k < n ==> IsDigit(s[k], radix)
    ensures n < |s| ==> !IsDigit(s[n], radix)
  {
    if s != [] && IsDigit(s[0], radix) then 1 + DigitRun(s[1..], radix) else 0
  }

  /** The number a string of base-`radix` digits denotes, most significant first. */
  function ValueOf(s: string, radix: nat): (v: int)
    requires forall k :: 0 <= k < |s| ==> IsDigit(s[k], radix)
    ensures v >= 0
  {
    if s == [] then 0
    else
      var high := ValueOf(s[..|s| - 1], radix);
      ProductOfNaturals(high, radix);
      assert IsDigit(s[|s| - 1], radix);
      high * radix + DigitValue(s[|s| - 1], radix)
  }

  lemma ProductOfNaturals(a: nat, b: nat)
    ensures a * b >= 0
  {
  }

  /**
   * The unsigned part of `parseInt`: a `0x`/`0X` prefix selects base 16,
   * then the longest run of digits is the value, and none is NaN.
   */
  function ParseUnsigned(u: string): (r: Parsed)
    ensures r.Num? ==> r.value >= 0 && u != [] && IsDigit(u[0], 10)
  {
    var hex := |u| >= 2 && u[0] == '0' && (u[1] == 'x' || u[1] == 'X');
    var radix := if hex then 16 else 10;
    var v := if hex then u[2..] else u;
    var n := DigitRun(v, radix);
    if n == 0 then NaN else Num(ValueOf(v[..n], radix))
  }

  /** `parseInt(s)`: white space, then at most one sign, then the unsigned part. */
  function ParseInt(s: string): (r: Parsed)
    ensures TrimStart(s) == [] ==> r.NaN?
    ensures r.Num? && r.value < 0 ==> TrimStart(s)[0] == '-'
  {
    var t := TrimStart(s);
    if t != [] && (t[0] == '-' || t[0] == '+') then
      match ParseUnsigned(t[1..])
      case NaN => NaN
      case Num(v) => if t[0] == '-' then Num(-v) else Num(v)
    else ParseUnsigned(t)
  }

  /** `String(n)` for a natural number: its decimal digits, without leading zeros. */
  function DecimalNat(n: nat): (r: string)
    ensures r != []
    decreases n
  {
    var last := ['0' + (n % 10) as char];
    if n < 10 then last else DecimalNat(n / 10) + last
  }

  /** `String(n)`: a minus sign before the digits of a negative number. */
  function Decimal(n: int): string
  {
    if n < 0 then "-" + DecimalNat(-n) else DecimalNat(n)
  }

  /** Every character of a decimal rendering is a decimal digit, and only `0` starts with `0`. */
  lemma {:induction false} DecimalNatDigits(n: nat)
    ensures forall k :: 0 <= k < |DecimalNat(n)| ==> IsDigit(DecimalNat(n)[k], 10)
    ensures DecimalNat(n)[0] == '0' <==> n == 0
    decreases n
  {
    if n >= 10 {
      DecimalNatDigits(n / 10);
      var s := DecimalNat(n / 10);
      var c := '0' + (n % 10) as char;
      assert DecimalNat(n) == s + [c];
      assert forall k :: 0 <= k < |s| ==> DecimalNat(n)[k] == s[k];
    }
  }

  /** The digits of `DecimalNat(n)` denote `n`. */
  lemma {:induction false} ValueOfDecimalNat(n: nat)
    ensures DecimalNatDigitsOk(n) && ValueOf(DecimalNat(n), 10) == n
    decreases n
  {
    DecimalNatDigits(n);
    if n >= 10 {
      ValueOfDecimalNat(n / 10);
      var s := DecimalNat(n / 10);
      var c := '0' + (n % 10) as char;
      assert DecimalNat(n) == s + [c];
      assert DecimalNat(n)[..|DecimalNat(n)| - 1] == s;
    }
  }

  predicate DecimalNatDigitsOk(n: nat)
  {
    forall k :: 0 <= k < |DecimalNat(n)| ==> IsDigit(DecimalNat(n)[k], 10)
  }

  /** A run of digits followed by a non-digit is read up to that non-digit. */
  lemma {:induction false} DigitRunOfPrefix(s: string, rest: string, radix: nat)
    requires forall k :: 0 <= k < |s| ==> IsDigit(s[k], radix)
    requires rest == [] || !IsDigit(rest[0], radix)
    ensures DigitRun(s + rest, radix) == |s|
  {
    if s != [] {
      assert (s + rest)[1..] == s[1..] + rest;
      DigitRunOfPrefix(s[1..], rest, radix);
    }
  }

  /** The digits of a natural number, and whatever non-digit follows, read back as that number. */
  lemma ParseUnsignedDecimal(m: nat, rest: string)
    requires rest == [] || !IsDigit(rest[0], 10)
    requires m == 0 ==> rest == [] || (rest[0] != 'x' && rest[0] != 'X')
    ensures ParseUnsigned(DecimalNat(m) + rest) == Num(m)
  {
    var d := DecimalNat(m);
    var u := d + rest;
    ValueOfDecimalNat(m);
    DecimalNatDigits(m);
    DigitRunOfPrefix(d, rest, 10);
    assert u[..|d|] == d;
    assert u[0] == d[0];
    if |d| == 1 && |u| >= 2 {
      assert u[1] == rest[0];
    }
  }

  /**
   * `parseInt` reads back what `String` writes, and ignores whatever
   * follows the digits ("1200px" is 1200), except that a zero followed by
   * `x` or `X` starts a hexadecimal number.
   */
  lemma ParseDecimal(n: int, rest: string)
    requires rest == [] || !IsDigit(rest[0], 10)
    requires n == 0 ==> rest == [] || (rest[0] != 'x' && rest[0] != 'X')
    ensures ParseInt(Decimal(n) + rest) == Num(n)
  {
    if n < 0 {
      ParseNegativeDecimal(n, rest);
    } else {
      ParseNaturalDecimal(n, rest);
    }
  }

  lemma NegativeText(n: int, rest: string)
    requires n < 0
    ensures Decimal(n) + rest == "-" + (DecimalNat(-n) + rest)
  {
  }

  /** The digits of a natural number, and a non-digit after them, start with a digit and read back as that number. */
  lemma ReadDecimalNat(m: nat, rest: string)
    requires rest == [] || !IsDigit(rest[0], 10)
    requires m == 0 ==> rest == [] || (rest[0] != 'x' && rest[0] != 'X')
    ensures var u := DecimalNat(m) + rest; u != [] && IsDigit(u[0], 10) && ParseUnsigned(u) == Num(m)
  {
    ParseUnsignedDecimal(m, rest);
    DecimalNatDigits(m);
    assert (DecimalNat(m) + rest)[0] == DecimalNat(m)[0];
  }

  lemma ParseNaturalDecimal(n: int, rest: string)
    requires n >= 0 && (rest == [] || !IsDigit(rest[0], 10))
    requires n == 0 ==> rest == [] || (rest[0] != 'x' && rest[0] != 'X')
    ensures ParseInt(Decimal(n) + rest) == Num(n)
  {
    ReadDecimalNat(n, rest);
    ParseDigits(DecimalNat(n) + rest);
  }

  lemma ParseNegativeDecimal(n: int, rest: string)
    requires n < 0 && (rest == [] || !IsDigit(rest[0], 10))
    ensures ParseInt(Decimal(n) + rest) == Num(n)
  {
    var m: nat := -n;
    ReadDecimalNat(m, rest);
    ParseNegative(DecimalNat(m) + rest);
    NegativeText(n, rest);
  }

  /** Text that starts with a digit is read by the unsigned part alone. */
  lemma ParseDigits(u: string)
    requires u != [] && IsDigit(u[0], 10)
    ensures ParseInt(u) == ParseUnsigned(u)
  {
    assert TrimStart(u) == u;
  }

  /** A minus sign before a digit negates what the unsigned part reads. */
  lemma ParseNegative(u: string)
    requires u != [] && IsDigit(u[0], 10)
    ensures ParseUnsigned(u).Num? ==> ParseInt("-" + u) == Num(-ParseUnsigned(u).value)
  {
    var s := "-" + u;
    assert TrimStart(s) == s;
    assert s[1..] == u;
  }

  /** `parseInt` reads back every integer `String` writes. */
  lemma ParseDecimalRoundTrip(n: int)
    ensures ParseInt(Decimal(n)) == Num(n)
  {
    ParseDecimal(n, []);
    assert Decimal(n) + [] == Decimal(n);
  }

  /** Leading white space is skipped whatever follows it. */
  lemma {:induction false} TrimSpace(w: string, s: string)
    requires forall k :: 0 <= k < |w| ==> IsSpace(w[k])
    ensures TrimStart(w + s) == TrimStart(s)
  {
    if w == [] {
      assert w + s == s;
    } else {
      assert (w + s)[0] == w[0];
      assert (w + s)[1..] == w[1..] + s;
      TrimSpace(w[1..], s);
    }
  }

  /** Leading white space never changes what `parseInt` reads. */
  lemma ParseIgnoresSpace(w: string, s: string)
    requires forall k :: 0 <= k < |w| ==> IsSpace(w[k])
    ensures ParseInt(w + s) == ParseInt(s)
  {
    TrimSpace(w, s);
  }

  /** Text that, after white space and a sign, starts with no digit is not a number. */
  lemma NoDigitsIsNaN(s: string)
    requires var t := TrimStart(s);
             var u := if t != [] && (t[0] == '-' || t[0] == '+') then t[1..] else t;
             u == [] || !IsDigit(u[0], 10)
    ensures ParseInt(s) == NaN
  {
  }
}
