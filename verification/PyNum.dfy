/**
 * Python's number conversions as the dashboard uses them: int() of a float
 * (truncation toward zero), round() (half to even), round(x, d), str() of an
 * int, and the display text built from them. A float is a `real`; a NaN float
 * is `None`. How Python prints a float (repr, or "{0:,.0f}") is not modelled:
 * such a piece of text keeps the number itself.
 */
module PyNum {
  import opened Wrappers

  /** int(x) for a finite float: truncation toward zero. */
  function Trunc(x: real): (r: int)
    ensures 0.0 <= x ==> 0 <= r && r as real <= x < r as real + 1.0
    ensures x < 0.0 ==> r <= 0 && r as real - 1.0 < x <= r as real
  {
    if x >= 0.0 then x.Floor else -((-x).Floor)
  }

  /** round(x) for a finite float: the nearest integer, ties to the even one. */
  function RoundHalfEven(x: real): (r: int)
    ensures -0.5 <= x - r as real <= 0.5
    ensures (x - r as real == 0.5 || r as real - x == 0.5) ==> r % 2 == 0
  {
    var f := x.Floor;
    var d := x - f as real;
    if d < 0.5 then f
    else if d > 0.5 then f + 1
    else if f % 2 == 0 then f
    else f + 1
  }

  /** The two properties of RoundHalfEven pin the result down: any integer with them is it. */
  lemma RoundHalfEvenUnique(x: real, n: int)
    requires -0.5 <= x - n as real <= 0.5
    requires (x - n as real == 0.5 || n as real - x == 0.5) ==> n % 2 == 0
    ensures n == RoundHalfEven(x)
  {
  }

  function Pow10(d: nat): (p: nat)
    ensures p >= 1
  {
    if d == 0 then 1 else 10 * Pow10(d - 1)
  }

  /** x in units of 10^-d: x multiplied by 10, d times. */
  function Shift(x: real, d: nat): real {
    if d == 0 then x else 10.0 * Shift(x, d - 1)
  }

  lemma {:induction false} ShiftIsScaling(x: real, d: nat)
    ensures Shift(x, d) == x * Pow10(d) as real
  {
    if d > 0 {
      ShiftIsScaling(x, d - 1);
      assert Pow10(d) as real == 10.0 * Pow10(d - 1) as real;
    }
  }

  lemma {:induction false} ShiftDifference(x: real, r: real, d: nat)
    ensures Shift(x, d) - Shift(r, d) == Shift(x - r, d)
  {
    if d > 0 {
      ShiftDifference(x, r, d - 1);
    }
  }

  /** Scaling is undone by dividing by the scale. */
  lemma ShiftBack(x: real, p: real)
    requires p > 0.0
    ensures (x / p) * p == x && (x * p) / p == x
  {
  }

  /**
   * round(x, d) for a finite float, computed on exact decimals: a multiple of
   * 10^-d within half a unit of x, the even multiple at a tie.
   */
  function RoundTo(x: real, d: nat): (r: real)
    ensures -0.5 <= Shift(x, d) - Shift(r, d) <= 0.5
    ensures Shift(r, d).Floor as real == Shift(r, d)
    ensures (Shift(x, d) - Shift(r, d) == 0.5 || Shift(r, d) - Shift(x, d) == 0.5) ==> Shift(r, d).Floor % 2 == 0
  {
    var p := Pow10(d) as real;
    var n := RoundHalfEven(Shift(x, d));
    ShiftIsScaling(n as real / p, d);
    ShiftBack(n as real, p);
    n as real / p
  }

  /** A multiple of 10^-d is its count of units divided by 10^d. */
  lemma OnGrid(r: real, d: nat)
    requires Shift(r, d).Floor as real == Shift(r, d)
    ensures r == Shift(r, d).Floor as real / Pow10(d) as real
  {
    ShiftIsScaling(r, d);
    ShiftBack(r, Pow10(d) as real);
  }

  lemma RoundToUnits(x: real, d: nat)
    ensures RoundTo(x, d) == RoundHalfEven(Shift(x, d)) as real / Pow10(d) as real
  {
  }

  /** The three properties of RoundTo pin the result down: any real with them is it. */
  lemma RoundToUnique(x: real, d: nat, r: real)
    requires -0.5 <= Shift(x, d) - Shift(r, d) <= 0.5
    requires Shift(r, d).Floor as real == Shift(r, d)
    requires (Shift(x, d) - Shift(r, d) == 0.5 || Shift(r, d) - Shift(x, d) == 0.5) ==> Shift(r, d).Floor % 2 == 0
    ensures r == RoundTo(x, d)
  {
    OnGrid(r, d);
    RoundHalfEvenUnique(Shift(x, d), Shift(r, d).Floor);
    RoundToUnits(x, d);
  }

  /** int(x) of a float that may be NaN: int(nan) raises ValueError. */
  function PyInt(v: Option<real>): (r: Result<int>)
    ensures r.Err? <==> v.None?
    ensures r.Err? ==> r.error == ValueError
    ensures v.Some? ==> r.Ok? && -1.0 < v.value - r.value as real < 1.0
    ensures v.Some? && 0.0 <= v.value ==> 0 <= r.value && r.value as real <= v.value
    ensures v.Some? && v.value < 0.0 ==> r.value <= 0 && v.value <= r.value as real
  {
    match v
    case None => Err(ValueError)
    case Some(x) => Ok(Trunc(x))
  }

  /** int(round(x)) or int(round(x, 0)) of a float that may be NaN. */
  function PyRoundInt(v: Option<real>): (r: Result<int>)
    ensures r.Err? <==> v.None?
    ensures r.Err? ==> r.error == ValueError
    ensures v.Some? ==> r.Ok? && -0.5 <= v.value - r.value as real <= 0.5
    ensures v.Some? && (v.value - r.value as real == 0.5 || r.value as real - v.value == 0.5) ==> r.value % 2 == 0
  {
    match v
    case None => Err(ValueError)
    case Some(x) => Ok(RoundHalfEven(x))
  }

  /** round(x, d) of a float that may be NaN: round(nan, d) is nan. */
  function PyRoundTo(v: Option<real>, d: nat): (r: Option<real>)
    ensures r.Some? <==> v.Some?
    ensures v.Some? ==> -0.5 <= Shift(v.value, d) - Shift(r.value, d) <= 0.5
    ensures v.Some? ==> Shift(r.value, d).Floor as real == Shift(r.value, d)
    ensures v.Some? && (Shift(v.value, d) - Shift(r.value, d) == 0.5 || Shift(r.value, d) - Shift(v.value, d) == 0.5)
      ==> Shift(r.value, d).Floor % 2 == 0
  {
    match v
    case None => None
    case Some(x) => Some(RoundTo(x, d))
  }

  /** round(v, 1) of a float is within 0.05 of it. */
  lemma RoundedToTenths(v: Option<real>)
    ensures v.Some? ==> -0.05 <= v.value - PyRoundTo(v, 1).value <= 0.05
  {
    if v.Some? {
      ShiftDifference(v.value, PyRoundTo(v, 1).value, 1);
      ShiftIsScaling(v.value - PyRoundTo(v, 1).value, 1);
      assert Pow10(1) == 10;
    }
  }

  /** round(v, 2) of a float is within 0.005 of it. */
  lemma RoundedToHundredths(v: Option<real>)
    ensures v.Some? ==> -0.005 <= v.value - PyRoundTo(v, 2).value <= 0.005
  {
    if v.Some? {
      ShiftDifference(v.value, PyRoundTo(v, 2).value, 2);
      ShiftIsScaling(v.value - PyRoundTo(v, 2).value, 2);
      assert Pow10(2) == 100;
    }
  }

  /** round(v, 3) of a float is within 0.0005 of it. */
  lemma RoundedToThousandths(v: Option<real>)
    ensures v.Some? ==> -0.0005 <= v.value - PyRoundTo(v, 3).value <= 0.0005
  {
    if v.Some? {
      ShiftDifference(v.value, PyRoundTo(v, 3).value, 3);
      ShiftIsScaling(v.value - PyRoundTo(v, 3).value, 3);
      assert Pow10(3) == 1000;
    }
  }

  // ----- str() of an int -----

  function DigitChar(d: nat): (c: char)
    requires d < 10
    ensures '0' <= c <= '9'
  {
    "0123456789"[d]
  }

  function DigitValue(c: char): (d: nat)
    ensures d < 10
  {
    if '0' <= c <= '9' then (c as int - '0' as int) else 0
  }

  /** str(n) for n >= 0: the decimal digits, no leading zero. */
  function NatToDecimal(n: nat): (s: string)
    ensures 0 < |s|
    ensures forall i :: 0 <= i < |s| ==> '0' <= s[i] <= '9'
    ensures |s| > 1 ==> s[0] != '0'
  {
    if n < 10 then [DigitChar(n)] else NatToDecimal(n / 10) + [DigitChar(n % 10)]
  }

  /** str(n) for any int. */
  function IntToDecimal(n: int): (s: string)
    ensures 0 < |s|
    ensures s[0] == '-' <==> n < 0
  {
    if n < 0 then "-" + NatToDecimal(-n) else NatToDecimal(n)
  }

  function ParseNat(s: string): nat {
    if s == [] then 0 else 10 * ParseNat(s[..|s| - 1]) + DigitValue(s[|s| - 1])
  }

  /** int(s) for the strings str() produces. */
  function ParseInt(s: string): int {
    if 0 < |s| && s[0] == '-' then -(ParseNat(s[1..]) as int) else ParseNat(s)
  }

  lemma {:induction false} ParseNatToDecimal(n: nat)
    ensures ParseNat(NatToDecimal(n)) == n
  {
    if n >= 10 {
      var s := NatToDecimal(n / 10) + [DigitChar(n % 10)];
      assert s[..|s| - 1] == NatToDecimal(n / 10);
      ParseNatToDecimal(n / 10);
    }
  }

  /** A string of digits reads as its digits. */
  lemma ParseIntOfDigits(s: string)
    requires 0 < |s| && '0' <= s[0] <= '9'
    ensures ParseInt(s) == ParseNat(s)
  {
  }

  /** A minus sign negates what follows it. */
  lemma ParseIntOfMinus(d: string)
    ensures ParseInt("-" + d) == -(ParseNat(d) as int)
  {
    assert ("-" + d)[1..] == d;
  }

  /** int(str(n)) == n for n >= 0. */
  lemma NonNegativeRoundTrip(n: int)
    requires n >= 0
    ensures ParseInt(IntToDecimal(n)) == n
  {
    var d := NatToDecimal(n);
    assert IntToDecimal(n) == d;
    ParseIntOfDigits(d);
    ParseNatToDecimal(n);
  }

  /** int(str(n)) == n for n < 0. */
  lemma NegativeRoundTrip(n: int)
    requires n < 0
    ensures ParseInt(IntToDecimal(n)) == n
  {
    var m: nat := -n;
    var d := NatToDecimal(m);
    calc {
      ParseInt(IntToDecimal(n));
      ParseInt("-" + d);
    == { ParseIntOfMinus(d); }
      -(ParseNat(d) as int);
    == { ParseNatToDecimal(m); }
      -(m as int);
    }
  }

  /** int(str(n)) == n: the decimal text of an int reads back as that int. */
  lemma IntToDecimalRoundTrip(n: int)
    ensures ParseInt(IntToDecimal(n)) == n
  {
    if n < 0 {
      NegativeRoundTrip(n);
    } else {
      NonNegativeRoundTrip(n);
    }
  }

  /** Reads n back from a score shown as str(n) + '/' + str(max), or None when the text does not end in "/max". */
  function ReadOutOf(s: string, max: int): Option<int> {
    var tail := "/" + IntToDecimal(max);
    if |tail| < |s| && s[|s| - |tail|..] == tail then Some(ParseInt(s[..|s| - |tail|])) else None
  }

  /** A score shown out of its maximum reads back as the score. */
  lemma OutOfRoundTrip(n: int, max: int)
    ensures ReadOutOf(IntToDecimal(n) + "/" + IntToDecimal(max), max) == Some(n)
  {
    var d := IntToDecimal(n);
    var tail := "/" + IntToDecimal(max);
    assert d + "/" + IntToDecimal(max) == d + tail;
    assert (d + tail)[|d + tail| - |tail|..] == tail;
    assert (d + tail)[..|d + tail| - |tail|] == d;
    IntToDecimalRoundTrip(n);
  }

  /** str(100), the maximum most scores are shown out of. */
  lemma HundredText()
    ensures IntToDecimal(100) == "100"
  {
    assert NatToDecimal(10) == "10";
  }

  /** A score shown as str(n) + '/100' reads back as n. */
  lemma OutOfHundredRoundTrip(n: int)
    ensures ReadOutOf(IntToDecimal(n) + "/100", 100) == Some(n)
  {
    HundredText();
    OutOfRoundTrip(n, 100);
    assert IntToDecimal(n) + "/100" == IntToDecimal(n) + "/" + IntToDecimal(100);
  }

  // ----- display text -----

  /** One piece of displayed text: literal characters, or a float Python prints itself. */
  datatype Piece =
    | Lit(s: string)      // characters as they appear
    | Real(x: real)       // str(x) of a finite float
    | Grouped(x: real)    // "{0:,.0f}".format(x) of a finite float

  type Text = seq<Piece>

  function Str(s: string): Text {
    [Lit(s)]
  }

  function IntStr(n: int): Text {
    [Lit(IntToDecimal(n))]
  }

  /** str(v) of a float that may be NaN. */
  function FloatStr(v: Option<real>): Text {
    match v
    case None => [Lit("nan")]
    case Some(x) => [Real(x)]
  }
}
