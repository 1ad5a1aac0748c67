/**
 * Numeric parsing of a text cell, as `pd.to_numeric(..., errors='coerce')`
 * does it for plain decimal notation: an optional sign, digits, and at most
 * one decimal point. Text that is not such a number gives a missing value.
 * A parsed number is kept exactly, as `units / 10^scale`.
 */
module Numeric {
  import opened Wrappers

  /** The number `units / 10^scale`; "-4500.00" is `Decimal(-450000, 2)`. */
  datatype Decimal = Decimal(units: int, scale: nat) {
    predicate IsNegative() { units < 0 }
    function Abs(): Decimal { if units < 0 then Decimal(-units, scale) else this }
  }

  predicate IsDigit(c: char) { '0' <= c <= '9' }

  predicate AllDigits(s: string) {
    forall i :: 0 <= i < |s| ==> IsDigit(s[i])
  }

  function DigitValue(c: char): nat
    requires IsDigit(c)
  {
    c as int - '0' as int
  }

  /** The value of a string of decimal digits, most significant first. */
  function DigitsValue(s: string): nat
    requires AllDigits(s)
    decreases |s|
  {
    if s == [] then 0 else 10 * DigitsValue(s[..|s| - 1]) + DigitValue(s[|s| - 1])
  }

  /** Index of the first `c` in `s`, or `|s|` when there is none. */
  function IndexOf(s: string, c: char): (k: nat)
    ensures k <= |s|
    ensures k < |s| ==> s[k] == c
    ensures c !in s[..k]
    ensures forall i :: 0 <= i < k ==> s[i] != c
    decreases |s|
  {
    if s == [] then 0
    else if s[0] == c then 0
    else
      var k := IndexOf(s[1..], c);
      assert s[..k + 1] == [s[0]] + s[1..][..k];
      k + 1
  }

  /** The number `whole.frac` denotes: all its digits, scaled down by the fraction's length. */
  function DecimalValue(whole: string, frac: string): Decimal
    requires AllDigits(whole) && AllDigits(frac)
  {
    Decimal(DigitsValue(whole + frac), |frac|)
  }

  /** An unsigned decimal: digits, optionally a point and more digits; at least one digit. */
  function ParseUnsigned(s: string): Option<Decimal> {
    var dot := IndexOf(s, '.');
    var whole := s[..dot];
    var frac := if dot < |s| then s[dot + 1..] else "";
    if |whole| + |frac| > 0 && AllDigits(whole) && AllDigits(frac) then
      Some(DecimalValue(whole, frac))
    else
      None
  }

  /** The sign written in front of a number, if any. */
  datatype Sign = Unsigned | Minus | Plus

  function SignText(sign: Sign): string {
    match sign
    case Unsigned => ""
    case Minus => "-"
    case Plus => "+"
  }

  /** The sign `s` starts with. */
  function SignOf(s: string): Sign {
    if |s| > 0 && s[0] == '-' then Minus
    else if |s| > 0 && s[0] == '+' then Plus
    else Unsigned
  }

  /** `s` without the sign it starts with. */
  function Unsign(s: string): (body: string)
    ensures SignText(SignOf(s)) + body == s
  {
    if SignOf(s) == Unsigned then s else s[1..]
  }

  function Signed(sign: Sign, v: Decimal): Decimal {
    if sign == Minus then Decimal(-v.units, v.scale) else v
  }

  /** An optional `-` or `+` followed by an unsigned decimal; anything else is missing. */
  function ParseNumber(s: string): Option<Decimal> {
    match ParseUnsigned(Unsign(s))
    case None => None
    case Some(v) => Some(Signed(SignOf(s), v))
  }

  /** Writing a sign in front of text that starts with none can be undone. */
  lemma SignOfSigned(sign: Sign, u: string)
    requires |u| > 0 && u[0] != '-' && u[0] != '+'
    ensures SignOf(SignText(sign) + u) == sign && Unsign(SignText(sign) + u) == u
  {
    var s := SignText(sign) + u;
    match sign
    case Unsigned =>
      assert s == u;
    case Minus =>
      assert s[0] == '-' && s[1..] == u;
    case Plus =>
      assert s[0] == '+' && s[1..] == u;
  }

  /** A number written with a decimal point parses to the value it denotes. */
  lemma {:induction false} ParsePointed(sign: Sign, whole: string, frac: string)
    requires AllDigits(whole) && AllDigits(frac) && |whole| + |frac| > 0
    ensures ParseNumber(SignText(sign) + whole + "." + frac) == Some(Signed(sign, DecimalValue(whole, frac)))
  {
    var u := whole + "." + frac;
    assert SignText(sign) + whole + "." + frac == SignText(sign) + u;
    ParseUnsignedPointed(whole, frac);
    assert u[0] != '-' && u[0] != '+' by {
      if |whole| > 0 { assert u[0] == whole[0]; } else { assert u[0] == '.'; }
    }
    ParseSigned(sign, u);
  }

  /** A sign in front of an unsigned number negates it or keeps it. */
  lemma {:induction false} ParseSigned(sign: Sign, u: string)
    requires ParseUnsigned(u).Some? && |u| > 0 && u[0] != '-' && u[0] != '+'
    ensures ParseNumber(SignText(sign) + u) == Some(Signed(sign, ParseUnsigned(u).value))
  {
    SignOfSigned(sign, u);
  }

  lemma {:induction false} ParseUnsignedPointed(whole: string, frac: string)
    requires AllDigits(whole) && AllDigits(frac) && |whole| + |frac| > 0
    ensures ParseUnsigned(whole + "." + frac) == Some(DecimalValue(whole, frac))
  {
    var tail := "." + frac;
    var u := whole + tail;
    assert whole + "." + frac == u;
    assert '.' !in whole;
    NotInIndexOf(whole, tail, '.');
    assert IndexOf(tail, '.') == 0;
    assert IndexOf(u, '.') == |whole|;
    assert u[..|whole|] == whole;
    assert u[|whole| + 1..] == frac;
  }

  /** A number written without a decimal point parses to its integer value. */
  lemma {:induction false} ParseWhole(sign: Sign, whole: string)
    requires AllDigits(whole) && |whole| > 0
    ensures ParseNumber(SignText(sign) + whole) == Some(Signed(sign, Decimal(DigitsValue(whole), 0)))
  {
    ParseUnsignedWhole(whole);
    assert IsDigit(whole[0]);
    ParseSigned(sign, whole);
  }

  lemma {:induction false} ParseUnsignedWhole(whole: string)
    requires AllDigits(whole) && |whole| > 0
    ensures ParseUnsigned(whole) == Some(Decimal(DigitsValue(whole), 0))
  {
    assert '.' !in whole;
    assert IndexOf(whole, '.') == |whole|;
    assert whole[..|whole|] == whole;
    assert whole + "" == whole;
  }

  lemma {:induction false} NotInIndexOf(a: string, b: string, c: char)
    requires c !in a
    ensures IndexOf(a + b, c) == |a| + IndexOf(b, c)
    decreases |a|
  {
    if a != [] {
      assert (a + b)[1..] == a[1..] + b;
      assert (a + b)[0] == a[0];
      NotInIndexOf(a[1..], b, c);
    } else {
      assert a + b == b;
    }
  }

  /**
   * Only plain decimal notation parses: when the parse succeeds, the text after
   * its sign is digits, or digits, one point and digits, with at least one
   * digit, and the value is the one that notation denotes.
   */
  lemma {:induction false} ParseNumberOnlyDecimals(s: string)
    requires ParseNumber(s).Some?
    ensures exists whole, frac ::
      && AllDigits(whole) && AllDigits(frac) && |whole| + |frac| > 0
      && (Unsign(s) == whole + "." + frac || (frac == "" && Unsign(s) == whole))
      && ParseNumber(s) == Some(Signed(SignOf(s), DecimalValue(whole, frac)))
  {
    var u := Unsign(s);
    ParseUnsignedSplit(u);
    var dot := IndexOf(u, '.');
    var whole := u[..dot];
    var frac := if dot < |u| then u[dot + 1..] else "";
    assert AllDigits(whole) && AllDigits(frac) && |whole| + |frac| > 0;
    assert u == whole + "." + frac || (frac == "" && u == whole);
    assert ParseNumber(s) == Some(Signed(SignOf(s), DecimalValue(whole, frac)));
  }

  /** A text that parses is split by its first point into two digit strings. */
  lemma {:induction false} ParseUnsignedSplit(u: string)
    requires ParseUnsigned(u).Some?
    ensures var dot := IndexOf(u, '.');
      var whole := u[..dot];
      var frac := if dot < |u| then u[dot + 1..] else "";
      && (u == whole + "." + frac || (frac == "" && u == whole))
      && ParseUnsigned(u) == Some(DecimalValue(whole, frac))
  {
    var dot := IndexOf(u, '.');
    if dot < |u| {
      assert u == u[..dot] + "." + u[dot + 1..];
    } else {
      assert u == u[..dot];
    }
  }

  /** Text built from digits, signs and points that is not plain decimal notation is missing. */
  lemma MalformedNumbersExample()
    ensures ParseNumber("1.2.3") == None
    ensures ParseNumber("+-1") == None
    ensures ParseNumber("5-") == None
    ensures ParseNumber(".") == None
    ensures ParseNumber("-") == None
  {
    UnsignedRejects("-1", 0);
    UnsignedRejects("5-", 1);
    assert IndexOf("1.2.3", '.') == 1;
    assert !AllDigits("1.2.3"[2..]) by { assert "1.2.3"[2..][1] == '.'; }
  }

  /** A character that is neither a digit, a sign nor a point makes the text unparseable. */
  lemma {:induction false} RejectsForeignChar(s: string, i: nat)
    requires i < |s|
    requires !IsDigit(s[i]) && s[i] != '.' && s[i] != '-' && s[i] != '+'
    ensures ParseNumber(s) == None
  {
    if SignOf(s) != Unsigned {
      assert i > 0;
      assert s[1..][i - 1] == s[i];
      UnsignedRejects(s[1..], i - 1);
    } else {
      UnsignedRejects(s, i);
    }
  }

  lemma {:induction false} UnsignedRejects(s: string, i: nat)
    requires i < |s| && !IsDigit(s[i]) && s[i] != '.'
    ensures ParseUnsigned(s) == None
  {
    var dot := IndexOf(s, '.');
    if i < dot {
      assert s[..dot][i] == s[i];
    } else {
      assert i != dot;
      assert s[dot + 1..][i - dot - 1] == s[i];
    }
  }
}
