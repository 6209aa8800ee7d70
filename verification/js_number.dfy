/** The two JavaScript number conversions the stores rely on: `Number.prototype.toString()`
    of an integer and the global `parseInt(string)` with no radix (section 19.2.5 of
    ECMA-262). `NaN` is `None`. */
module JsNumber {
  import opened Common

  /** The digit character of `d` in radix 10. */
  function DecimalDigit(d: nat): (c: char)
    requires d < 10
    ensures '0' <= c <= '9' && DigitValue(c) == d
  {
    ['0', '1', '2', '3', '4', '5', '6', '7', '8', '9'][d]
  }

  /** The value of `c` as a digit of any radix up to 36, or 36 when `c` is no digit at all. */
  function DigitValue(c: char): (v: nat)
    ensures v <= 36
  {
    if '0' <= c <= '9' then (c as int) - ('0' as int)
    else if 'a' <= c <= 'z' then (c as int) - ('a' as int) + 10
    else if 'A' <= c <= 'Z' then (c as int) - ('A' as int) + 10
    else 36
  }

  predicate IsDigitIn(c: char, radix: nat) {
    DigitValue(c) < radix
  }

  /** The decimal spelling of a natural number, most significant digit first, no leading zero. */
  function NatToDecimal(n: nat): (r: string)
    ensures |r| >= 1
    ensures forall i :: 0 <= i < |r| ==> '0' <= r[i] <= '9'
    ensures n > 0 ==> r[0] != '0'
    decreases n
  {
    if n < 10 then [DecimalDigit(n)] else NatToDecimal(n / 10) + [DecimalDigit(n % 10)]
  }

  /** `n.toString()` for an integer-valued number. */
  function NumberToString(n: int): (r: string)
    ensures n >= 0 ==> r == NatToDecimal(n)
    ensures n < 0 ==> r == "-" + NatToDecimal(-n)
  {
    if n < 0 then "-" + NatToDecimal(-n) else NatToDecimal(n)
  }

  /** The value of a string of digits of radix `radix`, most significant first. */
  function DigitsValue(z: string, radix: nat): (v: nat)
    requires forall i :: 0 <= i < |z| ==> IsDigitIn(z[i], radix)
  {
    if |z| == 0 then 0
    else
      var front := z[..|z| - 1];
      assert forall i :: 0 <= i < |front| ==> front[i] == z[i];
      var high: nat := DigitsValue(front, radix);
      var shifted: nat := high * radix;
      shifted + DigitValue(z[|z| - 1])
  }

  /** The number of leading characters of `s` that are digits of radix `radix`. */
  function DigitRun(s: string, radix: nat): (n: nat)
    ensures n <= |s|
    ensures forall i :: 0 <= i < n ==> IsDigitIn(s[i], radix)
    ensures n < |s| ==> !IsDigitIn(s[n], radix)
  {
    if |s| > 0 && IsDigitIn(s[0], radix) then 1 + DigitRun(s[1..], radix) else 0
  }

  /** What `parseInt` reads before the digits: the sign, and the radix chosen by an
      optional `0x`/`0X` prefix. */
  datatype Numeral = Numeral(negative: bool, radix: nat, digits: string)

  /** Skips leading whitespace, one sign character and a hexadecimal prefix. */
  function Scan(s: string): (m: Numeral)
    ensures m.radix == 10 || m.radix == 16
    ensures |m.digits| <= |s|
  {
    var t := TrimStart(s);
    var negative := |t| > 0 && t[0] == '-';
    var u := if |t| > 0 && (t[0] == '-' || t[0] == '+') then t[1..] else t;
    if |u| >= 2 && u[0] == '0' && (u[1] == 'x' || u[1] == 'X') then Numeral(negative, 16, u[2..])
    else Numeral(negative, 10, u)
  }

  /** `parseInt(s)`: the longest run of digits after the sign and prefix, negated after
      a minus sign; no digit at all is `NaN`. (A negative zero is read as zero.) */
  function ParseInt(s: string): (r: Option<int>)
    ensures r.None? <==> DigitRun(Scan(s).digits, Scan(s).radix) == 0
    ensures r.Some? && !Scan(s).negative ==> r.value >= 0
    ensures r.Some? && Scan(s).negative ==> r.value <= 0
  {
    var m := Scan(s);
    var n := DigitRun(m.digits, m.radix);
    if n == 0 then None
    else
      var v: int := DigitsValue(m.digits[..n], m.radix);
      Some(if m.negative then -v else v)
  }

  /** Reading back the decimal spelling of a natural number yields the number. */
  lemma {:induction false} DecimalValue(n: nat)
    ensures forall i :: 0 <= i < |NatToDecimal(n)| ==> IsDigitIn(NatToDecimal(n)[i], 10)
    ensures DigitsValue(NatToDecimal(n), 10) == n
    decreases n
  {
    var d := NatToDecimal(n);
    if n >= 10 {
      var front := NatToDecimal(n / 10);
      DecimalValue(n / 10);
      assert d[..|d| - 1] == front;
    }
  }

  /** `parseInt(n.toString()) == n` for every integer `n`. */
  lemma DecimalRoundTrip(n: int)
    ensures ParseInt(NumberToString(n)) == Some(n)
  {
    var m: nat := if n < 0 then -n else n;
    ScanNumber(n);
    DecimalValue(m);
    ParseDigits(NumberToString(n), n < 0, NatToDecimal(m));
  }

  /** A string that scans to a sign and nothing but decimal digits parses to their value. */
  lemma ParseDigits(s: string, negative: bool, d: string)
    requires Scan(s) == Numeral(negative, 10, d) && |d| > 0
    requires forall i :: 0 <= i < |d| ==> IsDigitIn(d[i], 10)
    ensures var v: int := DigitsValue(d, 10); ParseInt(s) == Some(if negative then -v else v)
  {
    DigitRunAll(d, 10);
    assert d[..|d|] == d;
  }

  /** `toString` output carries no whitespace, no `+` and no hexadecimal prefix. */
  lemma ScanNumber(n: int)
    ensures Scan(NumberToString(n)) == Numeral(n < 0, 10, NatToDecimal(if n < 0 then -n else n))
  {
    var d := NatToDecimal(if n < 0 then -n else n);
    var s := NumberToString(n);
    SignOrDigitIsNotSpace(s[0]);
    TrimStartNoop(s);
    assert |d| >= 2 ==> d[1] != 'x' && d[1] != 'X';
    if n < 0 {
      assert s[1..] == d;
    }
  }

  lemma SignOrDigitIsNotSpace(c: char)
    requires c == '-' || '0' <= c <= '9'
    ensures !IsJsWhitespace(c)
  {
  }

  lemma {:induction false} DigitRunAll(s: string, radix: nat)
    requires forall i :: 0 <= i < |s| ==> IsDigitIn(s[i], radix)
    ensures DigitRun(s, radix) == |s|
  {
    if |s| > 0 {
      DigitRunAll(s[1..], radix);
    }
  }
}
