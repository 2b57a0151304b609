/**
 * The text the scripts produce and read: command-line arguments, table cells,
 * the solver's output lines.  Python's float formatting (`f"{x:.6f}"`,
 * `str(x)`) is kept symbolic; integers are rendered digit by digit, and
 * `float()` is modelled for the decimal forms it accepts.
 */
module Rendering {
  import opened Wrappers

  /** A rendered string.  Only the integer renderings are spelled out. */
  datatype Text =
    | Lit(s: string)               // a string used as it is (also str() of an int)
    | Fixed(x: real, places: nat)  // f"{x:.<places>f}"
    | Shown(x: real)               // str(x) of a float
    | Joined(parts: seq<Text>)     // ",".join of the parts
    | Bold(inner: Text)            // "**" + inner + "**"

  // ---------------------------------------------------------------------
  // Integers: str(int) and its inverse

  predicate IsDigit(c: char) { '0' <= c <= '9' }

  /** Every character is a decimal digit (stated by recursion on the last character). */
  predicate AllDigits(s: string) { s == [] || (AllDigits(s[..|s| - 1]) && IsDigit(s[|s| - 1])) }

  lemma {:induction false} AllDigitsIndex(s: string)
    requires AllDigits(s)
    ensures forall i | 0 <= i < |s| :: IsDigit(s[i])
  {
    if s != [] {
      var init := s[..|s| - 1];
      AllDigitsIndex(init);
      assert forall i | 0 <= i < |init| :: s[i] == init[i];
    }
  }

  function DigitChar(d: nat): (c: char)
    requires d < 10
    ensures IsDigit(c) && c as int - '0' as int == d
  {
    (d + '0' as int) as char
  }

  /** str(n) for n >= 0: the decimal digits, most significant first. */
  function NatToString(n: nat): (s: string)
    ensures |s| > 0 && AllDigits(s)
  {
    if n < 10 then [DigitChar(n)] else NatToString(n / 10) + [DigitChar(n % 10)]
  }

  /** str(n) for any int n. */
  function IntToString(n: int): string
  {
    if n < 0 then "-" + NatToString(-n) else NatToString(n)
  }

  /** The number a string of decimal digits denotes. */
  function DigitsValue(s: string): nat
    requires AllDigits(s)
  {
    if s == [] then 0 else DigitsValue(s[..|s| - 1]) * 10 + (s[|s| - 1] as int - '0' as int)
  }

  /** 10^n as a real. */
  function Pow10(n: nat): (p: real)
    ensures p >= 1.0
  {
    if n == 0 then 1.0 else 10.0 * Pow10(n - 1)
  }

  /** The first index at which `p` holds, or |s| when there is none. */
  function FirstWhere(s: string, p: char -> bool): (k: nat)
    ensures k <= |s|
    ensures forall i | 0 <= i < k :: !p(s[i])
    ensures k < |s| ==> p(s[k])
  {
    if s == [] then 0 else if p(s[0]) then 0 else 1 + FirstWhere(s[1..], p)
  }

  lemma {:induction false} NatToStringRoundTrip(n: nat)
    ensures DigitsValue(NatToString(n)) == n
  {
    if n >= 10 {
      NatToStringRoundTrip(n / 10);
      var s := NatToString(n);
      assert s[..|s| - 1] == NatToString(n / 10);
    }
  }

  // ---------------------------------------------------------------------
  // float(): the decimal forms `[sign] digits [. digits] [(e|E) [sign] digits]`,
  // read left to right one character at a time

  predicate IsExpMark(c: char) { c == 'e' || c == 'E' }

  predicate IsSign(c: char) { c == '+' || c == '-' }

  /** Where the scanner is in the literal. */
  datatype Phase = Start | Signed | Whole | Fraction | Exponent | ExponentSigned | ExponentDigits | Rejected

  /**
   * What has been read: the sign, every mantissa digit as one integer, how
   * many of them follow the point, whether any was seen, and the exponent.
   */
  datatype Scan = Scan(phase: Phase, negative: bool, mantissa: nat, fractionDigits: nat,
                       sawDigit: bool, expNegative: bool, exponent: nat)

  const Initial := Scan(Start, false, 0, 0, false, false, 0)

  function DigitOf(c: char): nat
    requires IsDigit(c)
  {
    c as int - '0' as int
  }

  /** One character of the literal. */
  function Step(st: Scan, c: char): Scan
  {
    match st.phase
    case Start =>
      if IsSign(c) then st.(phase := Signed, negative := c == '-')
      else if IsDigit(c) then st.(phase := Whole, mantissa := DigitOf(c), sawDigit := true)
      else if c == '.' then st.(phase := Fraction)
      else st.(phase := Rejected)
    case Signed =>
      if IsDigit(c) then st.(phase := Whole, mantissa := DigitOf(c), sawDigit := true)
      else if c == '.' then st.(phase := Fraction)
      else st.(phase := Rejected)
    case Whole =>
      if IsDigit(c) then st.(mantissa := st.mantissa * 10 + DigitOf(c))
      else if c == '.' then st.(phase := Fraction)
      else if IsExpMark(c) then st.(phase := Exponent)
      else st.(phase := Rejected)
    case Fraction =>
      if IsDigit(c) then st.(mantissa := st.mantissa * 10 + DigitOf(c), fractionDigits := st.fractionDigits + 1, sawDigit := true)
      else if IsExpMark(c) && st.sawDigit then st.(phase := Exponent)
      else st.(phase := Rejected)
    case Exponent =>
      if IsSign(c) then st.(phase := ExponentSigned, expNegative := c == '-')
      else if IsDigit(c) then st.(phase := ExponentDigits, exponent := DigitOf(c))
      else st.(phase := Rejected)
    case ExponentSigned =>
      if IsDigit(c) then st.(phase := ExponentDigits, exponent := DigitOf(c))
      else st.(phase := Rejected)
    case ExponentDigits =>
      if IsDigit(c) then st.(exponent := st.exponent * 10 + DigitOf(c))
      else st.(phase := Rejected)
    case Rejected => st
  }

  /** The scanner after reading all of `s`. */
  function ScanAll(s: string): Scan
  {
    if s == [] then Initial else Step(ScanAll(s[..|s| - 1]), s[|s| - 1])
  }

  /** The value of a completed literal, or None when the text stopped short or went wrong. */
  function Finish(st: Scan): Option<real>
  {
    if st.sawDigit && st.phase in {Whole, Fraction, ExponentDigits} then
      var m := st.mantissa as real / Pow10(st.fractionDigits);
      var v := if st.expNegative then m / Pow10(st.exponent) else m * Pow10(st.exponent);
      Some(if st.negative then -v else v)
    else
      None
  }

  /** float(s), or None where Python raises ValueError. */
  function ParseDecimal(s: string): Option<real>
  {
    Finish(ScanAll(s))
  }

  /** After a sign, or at the start, a run of digits is read as one whole number. */
  lemma {:induction false} ScanDigits(prefix: string, ds: string)
    requires ScanAll(prefix).phase in {Start, Signed} && ScanAll(prefix).mantissa == 0
    requires ScanAll(prefix).fractionDigits == 0 && !ScanAll(prefix).sawDigit
    requires ScanAll(prefix).exponent == 0 && !ScanAll(prefix).expNegative
    requires |ds| > 0 && AllDigits(ds)
    ensures ScanAll(prefix + ds) == ScanAll(prefix).(phase := Whole, mantissa := DigitsValue(ds), sawDigit := true)
    decreases |ds|
  {
    var s := prefix + ds;
    var init := ds[..|ds| - 1];
    var last := ds[|ds| - 1];
    var st0 := ScanAll(prefix);
    assert s[..|s| - 1] == prefix + init && s[|s| - 1] == last;
    ScanAllLast(s);
    assert IsDigit(last);
    assert DigitsValue(ds) == DigitsValue(init) * 10 + DigitOf(last);
    if |init| == 0 {
      assert prefix + init == prefix;
      StepFirstDigit(st0, last);
    } else {
      ScanDigits(prefix, init);
      StepNextDigit(st0.(phase := Whole, mantissa := DigitsValue(init), sawDigit := true), last);
    }
  }

  /** Scanning a non-empty text is scanning all but its last character, then one step. */
  lemma ScanAllLast(s: string)
    requires |s| > 0
    ensures ScanAll(s) == Step(ScanAll(s[..|s| - 1]), s[|s| - 1])
  {
  }

  /** The first digit, at the start or after a sign, begins the whole part. */
  lemma StepFirstDigit(st: Scan, c: char)
    requires st.phase in {Start, Signed} && IsDigit(c)
    ensures Step(st, c) == st.(phase := Whole, mantissa := DigitOf(c), sawDigit := true)
  {
  }

  /** A further digit of the whole part is appended to the mantissa. */
  lemma StepNextDigit(st: Scan, c: char)
    requires st.phase == Whole && IsDigit(c)
    ensures Step(st, c) == st.(mantissa := st.mantissa * 10 + DigitOf(c))
  {
  }

  /** A whole number without point or exponent reads as its mantissa, negated after a minus sign. */
  lemma FinishWhole(st: Scan)
    requires st.phase == Whole && st.sawDigit && st.fractionDigits == 0
    requires st.exponent == 0 && !st.expNegative
    ensures Finish(st) == Some(if st.negative then -(st.mantissa as real) else st.mantissa as real)
  {
    assert Pow10(0) == 1.0;
  }

  /** float(str(n)) == n: reading an int's rendering back gives the int. */
  lemma IntToStringRoundTrip(n: int)
    ensures ParseDecimal(IntToString(n)) == Some(n as real)
  {
    if n < 0 {
      var d := NatToString(-n);
      assert ScanAll("-") == Step(Initial, '-');
      ScanDigits("-", d);
      NatToStringRoundTrip(-n);
      FinishWhole(ScanAll("-" + d));
    } else {
      var d := NatToString(n);
      assert "" + d == d;
      ScanDigits("", d);
      NatToStringRoundTrip(n);
      FinishWhole(ScanAll(d));
    }
  }

  /** Different ints render differently. */
  lemma IntToStringInjective(a: int, b: int)
    requires IntToString(a) == IntToString(b)
    ensures a == b
  {
    IntToStringRoundTrip(a);
    IntToStringRoundTrip(b);
  }

  /** abs() of a number. */
  function Abs(x: real): real { if x < 0.0 then -x else x }

  // ---------------------------------------------------------------------
  // f"{x:.<p>f}" read back by float(): the exact value rounded half to even

  /** The integer nearest to s; an exact half goes to the even neighbour. */
  function RoundHalfEven(s: real): int
  {
    var f := s.Floor;
    var rest := s - f as real;
    if rest > 0.5 || (rest == 0.5 && f % 2 != 0) then f + 1 else f
  }

  /** x shifted `places` decimal places to the left of the point. */
  function Shifted(x: real, places: nat): real
  {
    x * Pow10(places)
  }

  /** The value of f"{x:.<places>f}": x rounded half to even at the last printed place. */
  function RoundTo(x: real, places: nat): real
  {
    RoundHalfEven(Shifted(x, places)) as real / Pow10(places)
  }

  lemma RoundHalfEvenBound(s: real)
    ensures -0.5 <= RoundHalfEven(s) as real - s <= 0.5
  {
  }

  /** Rounding half to even is symmetric about zero. */
  lemma RoundHalfEvenNegate(s: real)
    ensures RoundHalfEven(-s) == -RoundHalfEven(s)
  {
    var f := s.Floor;
    var g := (-s).Floor;
    if s - f as real == 0.0 {
      assert g == -f;
    } else {
      assert g == -f - 1;
      assert -s - g as real == 1.0 - (s - f as real);
      assert (g % 2 != 0) <==> (f % 2 == 0);
    }
  }

  lemma DivideBound(d: real, scale: real)
    requires scale >= 1.0 && -0.5 <= d <= 0.5
    ensures -0.5 / scale <= d / scale <= 0.5 / scale
  {
  }

  lemma ShiftBack(x: real, places: nat)
    ensures Shifted(x, places) / Pow10(places) == x
  {
  }

  lemma DivideDifference(a: real, b: real, c: real)
    requires c != 0.0
    ensures (a - b) / c == a / c - b / c
  {
  }

  /** A value printed with `places` decimals reads back within half a unit of the last place. */
  lemma RoundToBound(x: real, places: nat)
    ensures -0.5 / Pow10(places) <= RoundTo(x, places) - x <= 0.5 / Pow10(places)
  {
    var scale := Pow10(places);
    var s := Shifted(x, places);
    var n := RoundHalfEven(s) as real;
    RoundHalfEvenBound(s);
    DivideBound(n - s, scale);
    ShiftBack(x, places);
    DivideDifference(n, s, scale);
  }

  /** Printing a value and its negation with the same places reads back as negations. */
  lemma RoundToNegate(x: real, places: nat)
    ensures RoundTo(-x, places) == -RoundTo(x, places)
  {
    var scale := Pow10(places);
    assert Shifted(-x, places) == -Shifted(x, places);
    RoundHalfEvenNegate(Shifted(x, places));
    var n := RoundHalfEven(Shifted(x, places)) as real;
    assert (-n) / scale == -(n / scale);
  }

  /** float() of a rendered text, or None where Python raises ValueError. */
  function ParseFloat(t: Text): Option<real>
  {
    match t
    case Lit(s) => ParseDecimal(s)
    case Fixed(x, places) => Some(RoundTo(x, places))
    case Shown(x) => Some(x)
    case Joined(parts) => if |parts| == 1 then ParseFloat(parts[0]) else None
    case Bold(_) => None
  }
  /** A number printed with six decimals reads back within half a micrometre of itself. */
  lemma SixDecimalsReadBack(x: real)
    ensures ParseFloat(Fixed(x, 6)).Some?
    ensures -0.0000005 <= ParseFloat(Fixed(x, 6)).value - x <= 0.0000005
  {
    assert Pow10(6) == 1000000.0;
    RoundToBound(x, 6);
  }


  // ---------------------------------------------------------------------
  // `pat in s`, str.split() and str.splitlines()

  /** Python's `pat in s` for strings. */
  predicate Contains(s: string, pat: string)
  {
    |pat| <= |s| && (s[..|pat|] == pat || Contains(s[1..], pat))
  }

  /** `pat` occurs in `s` starting at index i. */
  ghost predicate OccursAt(s: string, pat: string, i: int)
  {
    0 <= i && i + |pat| <= |s| && s[i..i + |pat|] == pat
  }

  /** `pat in s` holds exactly when `pat` occurs at some index of `s`. */
  lemma {:induction false} ContainsAt(s: string, pat: string)
    ensures Contains(s, pat) <==> exists i :: OccursAt(s, pat, i)
  {
    if |pat| <= |s| {
      if s[..|pat|] == pat {
        assert OccursAt(s, pat, 0);
      } else {
        ContainsAt(s[1..], pat);
        if Contains(s[1..], pat) {
          var i :| OccursAt(s[1..], pat, i);
          assert OccursAt(s, pat, i + 1);
        }
        if exists i :: OccursAt(s, pat, i) {
          var i :| OccursAt(s, pat, i);
          assert i != 0;
          assert OccursAt(s[1..], pat, i - 1);
        }
      }
    }
  }

  /** The characters str.split() separates on (str.isspace()). */
  predicate IsSpace(c: char)
  {
    var k := c as int;
    (9 <= k <= 13) || (28 <= k <= 32) || k == 0x85 || k == 0xA0 || k == 0x1680
    || (0x2000 <= k <= 0x200A) || k == 0x2028 || k == 0x2029 || k == 0x202F
    || k == 0x205F || k == 0x3000
  }

  /** The line boundaries of str.splitlines(). */
  predicate IsLineBreak(c: char)
  {
    var k := c as int;
    (10 <= k <= 13) || (28 <= k <= 30) || k == 0x85 || k == 0x2028 || k == 0x2029
  }

  predicate NoneOf(s: string, p: char -> bool) { forall i | 0 <= i < |s| :: !p(s[i]) }

  /** str.split() with no separator: the maximal runs of non-space characters. */
  function Tokens(s: string): (ts: seq<string>)
    ensures forall i | 0 <= i < |ts| :: |ts[i]| > 0 && NoneOf(ts[i], IsSpace)
    decreases |s|
  {
    if s == [] then []
    else if IsSpace(s[0]) then Tokens(s[1..])
    else
      var k := FirstWhere(s, IsSpace);
      [s[..k]] + Tokens(s[k..])
  }

  /** str.splitlines(): lines without their terminators; "\r\n" is one boundary. */
  function SplitLines(s: string): (lines: seq<string>)
    ensures forall i | 0 <= i < |lines| :: NoneOf(lines[i], IsLineBreak)
    decreases |s|
  {
    if s == [] then []
    else
      var k := FirstWhere(s, IsLineBreak);
      if k == |s| then [s]
      else
        var next := if s[k] == '\r' && k + 1 < |s| && s[k + 1] == '\n' then k + 2 else k + 1;
        [s[..k]] + SplitLines(s[next..])
  }
}
