/** How the messages render numbers: an integer below 10^21 in magnitude interpolated
    into a template literal prints in base ten with a leading `-` when negative, and
    `join(", ")` separates a list of them by a comma and a space. Larger numbers, which
    JavaScript prints in exponent form, are not modelled. */
module Text {
  import opened Wrappers

  predicate IsDigit(c: char) {
    '0' <= c <= '9'
  }

  predicate AllDigits(s: string) {
    forall k :: 0 <= k < |s| ==> IsDigit(s[k])
  }

  function DigitChar(d: nat): (c: char)
    requires d < 10
    ensures IsDigit(c)
  {
    "0123456789"[d]
  }

  function DigitValue(c: char): (d: nat)
    requires IsDigit(c)
    ensures d < 10 && DigitChar(d) == c
  {
    (c as int - '0' as int) as nat
  }

  /** Base-ten digits of `n`, most significant first, without leading zeros. */
  function NatText(n: nat): (r: string)
    ensures |r| >= 1 && AllDigits(r)
    ensures |r| > 1 ==> r[0] != '0'
    decreases n
  {
    if n < 10 then [DigitChar(n)] else NatText(n / 10) + [DigitChar(n % 10)]
  }

  /** `${n}` for an integer `n` with |n| < 10^21; beyond that the model keeps printing
      plain digits where JavaScript switches to exponent form. */
  function DecimalText(n: int): (r: string)
    ensures |r| >= 1
    ensures n < 0 <==> r[0] == '-'
    ensures n >= 0 ==> AllDigits(r)
  {
    if n < 0 then "-" + NatText(-n) else NatText(n)
  }

  /** Value of a non-empty run of digits. */
  function DigitsValue(s: string): nat
    requires |s| >= 1 && AllDigits(s)
    decreases |s|
  {
    if |s| == 1 then DigitValue(s[0])
    else DigitsValue(s[..|s| - 1]) * 10 + DigitValue(s[|s| - 1])
  }

  /** Reads back what `DecimalText` writes: an optional `-` followed by digits. */
  function ParseDecimal(s: string): (r: Option<int>)
    ensures r.Some? ==> |s| >= 1
  {
    if |s| >= 2 && s[0] == '-' && AllDigits(s[1..]) then Some(0 - DigitsValue(s[1..]) as int)
    else if |s| >= 1 && AllDigits(s) then Some(DigitsValue(s))
    else None
  }

  lemma {:induction false} NatTextRoundTrip(n: nat)
    ensures DigitsValue(NatText(n)) == n
    decreases n
  {
    if n >= 10 {
      var r := NatText(n);
      NatTextRoundTrip(n / 10);
      assert r[..|r| - 1] == NatText(n / 10);
      assert DigitValue(r[|r| - 1]) == n % 10;
    }
  }

  /** Rendering then parsing gives the number back, so distinct numbers render as
      distinct texts. */
  lemma DecimalRoundTrip(n: int)
    ensures ParseDecimal(DecimalText(n)) == Some(n)
  {
    if n < 0 {
      var t := NatText(-n);
      NatTextRoundTrip(-n);
      assert ("-" + t)[1..] == t;
    } else {
      var t := NatText(n);
      NatTextRoundTrip(n);
      assert IsDigit(t[0]);
    }
  }

  /** `xs.join(", ")` over rendered integers. */
  function JoinDecimal(xs: seq<int>): (r: string)
    ensures |xs| == 0 <==> r == ""
    ensures |xs| == 1 ==> r == DecimalText(xs[0])
    decreases |xs|
  {
    if |xs| == 0 then ""
    else if |xs| == 1 then DecimalText(xs[0])
    else DecimalText(xs[0]) + ", " + JoinDecimal(xs[1..])
  }
}
