/** Decimal US dollars to integer microdollars, with no floating point on the way. */
module Money {
  import opened Machine
  import opened Arithmetic
  import opened Utf8
  import opened Digits

  const MAX_TEXT_BYTES: nat := 64
  const I32_MIN: int := -0x8000_0000
  const I32_MAX: int := 0x7FFF_FFFF

  const DOT: Byte := 0x2E

  // ----- The text -----

  /** `whole.fraction` times ten to the `exponent`. */
  datatype Decimal = Decimal(whole: Bytes, fraction: Bytes, exponent: int) {
    predicate WellFormed() {
      whole != [] && AllDigits(whole) && AllDigits(fraction)
    }

    function Digits(): nat
      requires WellFormed()
    {
      DigitsValue(whole + fraction)
    }

    /** The number denoted, in dollars, is `Top() / Bottom()`. */
    function Top(): nat
      requires WellFormed()
    {
      (DigitsValue(whole) * Pow10(|fraction|) + DigitsValue(fraction)) * Pow10(Max(exponent, 0))
    }

    function Bottom(): (b: nat)
      ensures b >= 1
    {
      Pow10(|fraction|) * Pow10(Max(-exponent, 0))
    }

    /** The power of ten that turns the digits into microdollars. */
    function Scale(): int {
      6 + exponent - |fraction|
    }

    /** The exact number of microdollars is `Numerator() / Denominator()`. */
    function Numerator(): nat
      requires WellFormed()
    {
      if Scale() >= 0 then Digits() * Pow10(Scale()) else Digits()
    }

    function Denominator(): (d: nat)
      ensures d >= 1
    {
      if Scale() >= 0 then 1 else Pow10(-Scale())
    }
  }

  predicate ExponentMark(b: Byte) {
    b == 0x65 || b == 0x45
  }

  /** The first position holding an exponent mark, or the length of the text. */
  function MarkAt(s: Bytes): (i: nat)
    ensures i <= |s|
  {
    if s == [] || ExponentMark(s[0]) then 0 else 1 + MarkAt(s[1..])
  }

  function DotAt(s: Bytes): (i: nat)
    ensures i <= |s|
  {
    if s == [] || s[0] == DOT then 0 else 1 + DotAt(s[1..])
  }

  function Mantissa(text: Bytes): Bytes {
    text[..MarkAt(text)]
  }

  /** The exponent mark and what follows it. */
  function Tail(text: Bytes): Bytes {
    text[MarkAt(text)..]
  }

  function ExponentOf(tail: Bytes): Option<int> {
    if tail == [] then Some(0) else ParseSigned(tail[1..], I32_MIN, I32_MAX)
  }

  function Whole(mantissa: Bytes): Bytes {
    mantissa[..DotAt(mantissa)]
  }

  function Fraction(mantissa: Bytes): Bytes {
    if DotAt(mantissa) == |mantissa| then [] else mantissa[DotAt(mantissa) + 1..]
  }

  function ParseDecimal(text: Bytes): (r: Option<Decimal>)
    ensures r.Some? ==> r.value.WellFormed()
  {
    match ExponentOf(Tail(text))
    case None => None
    case Some(exponent) =>
      var whole, fraction := Whole(Mantissa(text)), Fraction(Mantissa(text));
      if whole == [] || !AllDigits(whole) || !AllDigits(fraction) then None
      else Some(Decimal(whole, fraction, exponent))
  }

  // ----- The conversion, with every checked step -----

  function CheckedU128(n: int): Option<nat> {
    if 0 <= n <= U128_MAX then Some(n) else None
  }

  function CheckedPow10(n: nat): Option<nat> {
    CheckedU128(Pow10(n))
  }

  function ToMicros(d: Decimal): Option<nat>
    requires d.WellFormed()
  {
    var digits := CheckedU128(d.Digits());
    if digits.None? || !(I32_MIN <= 6 + d.exponent <= I32_MAX) || !(I32_MIN <= d.Scale() <= I32_MAX) then None
    else if d.Scale() >= 0 then
      match CheckedPow10(d.Scale())
      case None => None
      case Some(factor) =>
        assert digits.value * factor >= 0;
        CheckedU128(digits.value * factor)
    else
      match CheckedPow10(-d.Scale())
      case None => None
      case Some(divisor) =>
        match CheckedU128(digits.value + divisor / 2)
        case None => None
        case Some(sum) =>
          QuotientAtLeast(sum, divisor, 0);
          Some(sum / divisor)
  }

  function UsdMicros(text: Bytes): (r: Option<nat>)
    ensures r.Some? ==> r.value <= I64_MAX
  {
    if |text| > MAX_TEXT_BYTES then None
    else
      match ParseDecimal(text)
      case None => None
      case Some(d) =>
        match ToMicros(d)
        case None => None
        case Some(micros) => if micros <= I64_MAX then Some(micros) else None
  }

  // ----- Correct rounding -----

  /** `r` is `n / d` rounded to the nearest integer, halves upward. */
  predicate RoundsHalfUp(r: nat, n: nat, d: nat) {
    2 * r * d <= 2 * n + d < 2 * (r + 1) * d
  }

  lemma HalfUp(n: nat, d: nat)
    requires d >= 1 && (d == 1 || d % 2 == 0)
    ensures (n + d / 2) / d >= 0 && RoundsHalfUp((n + d / 2) / d, n, d)
  {
    var r := (n + d / 2) / d;
    Quotient(n + d / 2, d);
    QuotientAtLeast(n + d / 2, d, 0);
    assert 2 * (r + 1) * d == 2 * (r * d) + 2 * d;
    assert 2 * r * d == 2 * (r * d);
  }

  lemma Pow10IsEven(n: nat)
    requires n >= 1
    ensures Pow10(n) % 2 == 0
  {
    assert Pow10(n) == 2 * (5 * Pow10(n - 1));
  }

  /** The fraction converted is a million times the number denoted. */
  lemma MillionFold(d: Decimal)
    requires d.WellFormed()
    ensures d.Numerator() * d.Bottom() == 1_000_000 * d.Top() * d.Denominator()
  {
    var up, down, scale := Max(d.exponent, 0), Max(-d.exponent, 0), d.Scale();
    var f := |d.fraction|;
    ValueOfJoined(d.whole, d.fraction);
    SixPlaces();
    Pow10Add(6, up);
    Pow10Add(f, down);
    if scale >= 0 {
      Pow10Add(scale, f + down);
      Regroup(d.Digits(), Pow10(scale), Pow10(f + down), Pow10(6), Pow10(up), 1);
    } else {
      Pow10Add(6 + up, -scale);
      Regroup(d.Digits(), 1, Pow10(f + down), Pow10(6), Pow10(up), Pow10(-scale));
    }
  }

  lemma SixPlaces()
    ensures Pow10(6) == 1_000_000
  {
    assert Pow10(3) == 1000 by { assert Pow10(1) == 10; }
    Pow10Add(3, 3);
  }

  lemma Regroup(n: nat, a: nat, b: nat, m: nat, u: nat, d: nat)
    requires a * b == m * u * d
    ensures n * a * b == m * (n * u) * d
  {
    assert n * a * b == n * (a * b);
    assert m * (n * u) * d == n * (m * u * d);
  }

  lemma Rearranged(r: nat, b: nat, d: nat)
    ensures 2 * r * b * d == 2 * (r * (d * b))
  {
    assert r * b * d == r * (d * b);
    assert 2 * r * b == 2 * (r * b);
    assert 2 * (r * b) * d == 2 * (r * b * d);
  }

  lemma Cancel(a: int, b: int, c: nat)
    requires c >= 1
    ensures a * c <= b * c <==> a <= b
  {
    if a <= b {
      ProductMonotone(a, b, c);
    } else {
      StrictProduct(b, a, c);
    }
  }

  /** Rounding depends on the number alone, not on the fraction it is written as. */
  lemma SameRounding(r: nat, n: nat, d: nat, t: nat, b: nat)
    requires d >= 1 && b >= 1 && n * b == t * d && RoundsHalfUp(r, n, d)
    ensures RoundsHalfUp(r, t, b)
  {
    ScaledBounds(r, n, d, b);
    Rearranged(r, b, d);
    Rearranged(r + 1, b, d);
    Spread(t, b, d);
    Cancel(2 * r * b, 2 * t + b, d);
    Cancel(2 * (r + 1) * b, 2 * t + b, d);
  }

  lemma Spread(t: nat, b: nat, d: nat)
    ensures (2 * t + b) * d == 2 * (t * d) + d * b
  {
  }

  lemma FractionRounds(d: Decimal)
    requires d.WellFormed() && ToMicros(d).Some?
    ensures RoundsHalfUp(ToMicros(d).value, d.Numerator(), d.Denominator())
  {
    if d.Scale() < 0 {
      Pow10IsEven(-d.Scale());
      HalfUp(d.Digits(), Pow10(-d.Scale()));
    }
  }

  /** Whenever a decimal is converted, the result is a million times the number it denotes, rounded half
      up. */
  lemma ConversionRounds(d: Decimal)
    requires d.WellFormed() && ToMicros(d).Some?
    ensures RoundsHalfUp(ToMicros(d).value, 1_000_000 * d.Top(), d.Bottom())
  {
    FractionRounds(d);
    MillionFold(d);
    SameRounding(ToMicros(d).value, d.Numerator(), d.Denominator(), 1_000_000 * d.Top(), d.Bottom());
  }

  lemma ScaledBounds(r: nat, n: nat, d: nat, e: nat)
    requires d >= 1 && e >= 1 && RoundsHalfUp(r, n, d)
    ensures 2 * (r * (d * e)) <= 2 * (n * e) + d * e < 2 * ((r + 1) * (d * e))
  {
    ProductMonotone(2 * r * d, 2 * n + d, e);
    StrictProduct(2 * n + d, 2 * (r + 1) * d, e);
    assert 2 * r * d * e == 2 * (r * (d * e));
    assert (2 * n + d) * e == 2 * (n * e) + d * e;
    assert 2 * (r + 1) * d * e == 2 * ((r + 1) * (d * e));
  }

  lemma RoundingIsMonotone(r: nat, n: nat, d: nat, q: nat, m: nat, e: nat)
    requires d >= 1 && e >= 1
    requires RoundsHalfUp(r, n, d) && RoundsHalfUp(q, m, e)
    requires n * e <= m * d
    ensures r <= q
  {
    ScaledBounds(r, n, d, e);
    ScaledBounds(q, m, e, d);
    assert d * e == e * d;
    if r > q {
      ProductMonotone(q + 1, r, d * e);
    }
  }

  lemma StrictProduct(a: int, b: int, c: nat)
    requires a < b && c >= 1
    ensures a * c < b * c
  {
    ProductMonotone(a + 1, b, c);
    assert (a + 1) * c == a * c + c;
  }

  /** `a` denotes at most the number `b` denotes. */
  predicate NumberAtMost(a: Decimal, b: Decimal)
    requires a.WellFormed() && b.WellFormed()
  {
    a.Top() * b.Bottom() <= b.Top() * a.Bottom()
  }

  predicate SameNumber(a: Decimal, b: Decimal)
    requires a.WellFormed() && b.WellFormed()
  {
    NumberAtMost(a, b) && NumberAtMost(b, a)
  }

  lemma LargerMicros(r: nat, n: nat, d: nat, q: nat, m: nat, e: nat)
    requires d >= 1 && e >= 1
    requires RoundsHalfUp(r, 1_000_000 * n, d) && RoundsHalfUp(q, 1_000_000 * m, e)
    requires n * e <= m * d
    ensures r <= q
  {
    assert 1_000_000 * n * e == 1_000_000 * (n * e) && 1_000_000 * m * d == 1_000_000 * (m * d);
    RoundingIsMonotone(r, 1_000_000 * n, d, q, 1_000_000 * m, e);
  }

  lemma ConversionIsMonotone(a: Decimal, b: Decimal)
    requires a.WellFormed() && b.WellFormed() && ToMicros(a).Some? && ToMicros(b).Some?
    requires NumberAtMost(a, b)
    ensures ToMicros(a).value <= ToMicros(b).value
  {
    ConversionRounds(a);
    ConversionRounds(b);
    LargerMicros(ToMicros(a).value, a.Top(), a.Bottom(), ToMicros(b).value, b.Top(), b.Bottom());
  }

  /** Of two texts it answers for, one denoting a larger number never converts to less. */
  lemma LargerNumberMoreMicros(a: Bytes, b: Bytes)
    ensures UsdMicros(a).Some? && UsdMicros(b).Some? ==>
      (NumberAtMost(ParseDecimal(a).value, ParseDecimal(b).value) ==> UsdMicros(a).value <= UsdMicros(b).value)
  {
    if UsdMicros(a).Some? && UsdMicros(b).Some? && NumberAtMost(ParseDecimal(a).value, ParseDecimal(b).value) {
      ConversionIsMonotone(ParseDecimal(a).value, ParseDecimal(b).value);
    }
  }

  /** The amount depends only on the number a text denotes. */
  lemma SameNumberSameMicros(a: Bytes, b: Bytes)
    ensures UsdMicros(a).Some? && UsdMicros(b).Some? ==>
      (SameNumber(ParseDecimal(a).value, ParseDecimal(b).value) ==> UsdMicros(a) == UsdMicros(b))
  {
    LargerNumberMoreMicros(a, b);
    LargerNumberMoreMicros(b, a);
  }

  // ----- When it answers -----

  lemma Pow10Of38()
    ensures Pow10(38) == 100_000_000_000_000_000_000_000_000_000_000_000_000
  {
    assert Pow10(4) == 10_000;
    Pow10Add(4, 4);
    Pow10Add(8, 8);
    Pow10Add(16, 16);
    Pow10Add(32, 4);
    Pow10Add(36, 1);
    Pow10Add(37, 1);
    assert Pow10(1) == 10;
  }

  lemma {:induction false} Pow10Monotone(a: nat, b: nat)
    requires a <= b
    ensures Pow10(a) <= Pow10(b)
    decreases b - a
  {
    if a < b {
      Pow10Monotone(a, b - 1);
    }
  }

  /** The largest power of ten in 128 bits is the 38th. */
  lemma PowerFits(n: nat)
    ensures CheckedPow10(n).Some? <==> n <= 38
  {
    Pow10Of38();
    if n <= 38 {
      Pow10Monotone(n, 38);
    } else {
      Pow10Monotone(39, n);
      assert Pow10(39) == 10 * Pow10(38);
    }
  }

  lemma FractionLength(text: Bytes)
    requires ParseDecimal(text).Some?
    ensures |ParseDecimal(text).value.fraction| <= |text|
    ensures I32_MIN <= ParseDecimal(text).value.exponent <= I32_MAX
  {
  }

  lemma RoundedFits(n: nat, d: nat)
    requires d >= 1
    ensures (n + d / 2) / d <= I64_MAX <==> n + d / 2 < (I64_MAX + 1) * d
  {
    if n + d / 2 < (I64_MAX + 1) * d {
      QuotientAtMost(n + d / 2, d, I64_MAX);
    } else {
      QuotientAtLeast(n + d / 2, d, I64_MAX + 1);
    }
  }

  /** The power of ten between the digits and microdollars fits 128 bits, as do the digits with half of the
      power they are divided by, and the rounded value fits 63. */
  predicate Convertible(d: Decimal)
    requires d.WellFormed()
  {
    && -38 <= 6 + d.exponent - |d.fraction| <= 38
    && DigitsValue(d.whole + d.fraction)
       + (if 6 + d.exponent < |d.fraction| then Pow10(|d.fraction| - 6 - d.exponent) / 2 else 0) <= U128_MAX
    && 2 * (1_000_000 * d.Top()) < (2 * I64_MAX + 1) * d.Bottom()
  }

  lemma SameBound(d: Decimal, bound: nat)
    requires d.WellFormed()
    ensures 2 * (1_000_000 * d.Top()) < bound * d.Bottom() <==> 2 * d.Numerator() < bound * d.Denominator()
  {
    MillionFold(d);
    SameComparison(d.Numerator(), d.Denominator(), 1_000_000 * d.Top(), d.Bottom(), bound);
  }

  lemma SameComparison(n: nat, e: nat, t: nat, b: nat, bound: nat)
    requires e >= 1 && b >= 1 && n * b == t * e
    ensures 2 * t < bound * b <==> 2 * n < bound * e
  {
    Cancel(bound * b, 2 * t, e);
    Cancel(bound * e, 2 * n, b);
    Commuted(bound, b, e);
    assert 2 * t * e == 2 * (t * e) && 2 * n * b == 2 * (n * b);
  }

  lemma Commuted(a: nat, b: nat, c: nat)
    ensures a * b * c == a * c * b
  {
  }

  predicate Converts(d: Decimal)
    requires d.WellFormed()
  {
    ToMicros(d).Some? && ToMicros(d).value <= I64_MAX
  }

  lemma WholeConverts(d: Decimal)
    requires d.WellFormed() && d.Scale() >= 0 && I32_MIN <= d.exponent <= I32_MAX && |d.fraction| <= MAX_TEXT_BYTES
    ensures Converts(d) <==> Convertible(d)
  {
    SameBound(d, 2 * I64_MAX + 1);
    PowerFits(d.Scale());
    ProductMonotone(1, Pow10(d.Scale()), d.Digits());
  }

  lemma FractionConverts(d: Decimal)
    requires d.WellFormed() && d.Scale() < 0 && I32_MIN <= d.exponent <= I32_MAX && |d.fraction| <= MAX_TEXT_BYTES
    ensures Converts(d) <==> Convertible(d)
  {
    SameBound(d, 2 * I64_MAX + 1);
    PowerFits(-d.Scale());
    Pow10IsEven(-d.Scale());
    RoundedFits(d.Digits(), d.Denominator());
    HalfBelow(d.Digits(), d.Denominator(), I64_MAX);
  }

  lemma HalfBelow(n: nat, d: nat, bound: nat)
    requires d % 2 == 0
    ensures n + d / 2 < (bound + 1) * d <==> 2 * n < (2 * bound + 1) * d
  {
    assert (bound + 1) * d == bound * d + d && (2 * bound + 1) * d == 2 * (bound * d) + d;
  }

  /** Exactly which texts are converted: those of at most 64 bytes that are a decimal number
      whose digits and power of ten fit 128 bits and whose rounded value fits 64. */
  lemma AnswersExactly(text: Bytes)
    ensures UsdMicros(text).Some? <==>
      |text| <= 64 && ParseDecimal(text).Some? && Convertible(ParseDecimal(text).value)
  {
    if |text| <= MAX_TEXT_BYTES && ParseDecimal(text).Some? {
      var d := ParseDecimal(text).value;
      FractionLength(text);
      if d.Scale() >= 0 {
        WholeConverts(d);
      } else {
        FractionConverts(d);
      }
    }
  }

  // ----- Which texts are decimals -----

  /** The digits around a point, or without one. */
  function Pointed(whole: Bytes, dot: bool, fraction: Bytes): Bytes {
    whole + if dot then [0x2E] + fraction else []
  }

  /** Nothing, or an `e` or `E` and a 32-bit number. */
  predicate SpellsExponent(tail: Bytes, exponent: int) {
    if tail == [] then exponent == 0
    else
      && (tail[0] == 0x65 || tail[0] == 0x45)
      && Denotes(tail[1..], exponent) && -0x8000_0000 <= exponent <= 0x7FFF_FFFF
  }

  /** The text spells the decimal: its digits, a point if `dot`, and `tail`, which is empty or an
      exponent. */
  predicate Spells(text: Bytes, d: Decimal, dot: bool, tail: Bytes) {
    && text == Pointed(d.whole, dot, d.fraction) + tail
    && (!dot ==> d.fraction == [])
    && SpellsExponent(tail, d.exponent)
  }

  lemma ExponentSpelled(tail: Bytes, exponent: int)
    ensures SpellsExponent(tail, exponent) <==>
      (tail == [] || ExponentMark(tail[0])) && ExponentOf(tail) == Some(exponent)
  {
    if tail != [] {
      ParsesSigned(tail[1..], -0x8000_0000, 0x7FFF_FFFF, exponent);
    }
  }

  lemma {:induction false} MarkAfter(s: Bytes, tail: Bytes)
    requires forall i :: 0 <= i < |s| ==> !ExponentMark(s[i])
    requires tail == [] || ExponentMark(tail[0])
    ensures MarkAt(s + tail) == |s|
  {
    if s == [] {
      assert s + tail == tail;
    } else {
      assert (s + tail)[1..] == s[1..] + tail;
      MarkAfter(s[1..], tail);
    }
  }

  lemma SplitAtMark(s: Bytes, tail: Bytes)
    requires forall i :: 0 <= i < |s| ==> !ExponentMark(s[i])
    requires tail == [] || ExponentMark(tail[0])
    ensures Mantissa(s + tail) == s && Tail(s + tail) == tail
  {
    MarkAfter(s, tail);
  }

  lemma {:induction false} DotAfter(digits: Bytes, rest: Bytes)
    requires AllDigits(digits) && (rest == [] || rest[0] == DOT)
    ensures DotAt(digits + rest) == |digits|
  {
    if digits == [] {
      assert digits + rest == rest;
    } else {
      assert (digits + rest)[1..] == digits[1..] + rest;
      DotAfter(digits[1..], rest);
    }
  }

  lemma SplitAtDot(whole: Bytes, dot: bool, fraction: Bytes)
    requires AllDigits(whole) && (!dot ==> fraction == [])
    ensures Whole(Pointed(whole, dot, fraction)) == whole
    ensures Fraction(Pointed(whole, dot, fraction)) == fraction
  {
    DotAfter(whole, if dot then [DOT] + fraction else []);
  }

  lemma SpelledIsParsed(text: Bytes, d: Decimal, dot: bool, tail: Bytes)
    requires d.WellFormed() && Spells(text, d, dot, tail)
    ensures ParseDecimal(text) == Some(d)
  {
    ExponentSpelled(tail, d.exponent);
    var mantissa := Pointed(d.whole, dot, d.fraction);
    assert forall i :: 0 <= i < |mantissa| ==> IsDigit(mantissa[i]) || mantissa[i] == DOT;
    SplitAtMark(mantissa, tail);
    SplitAtDot(d.whole, dot, d.fraction);
  }

  lemma {:induction false} AtMark(s: Bytes)
    ensures MarkAt(s) < |s| ==> ExponentMark(s[MarkAt(s)])
  {
    if s != [] && !ExponentMark(s[0]) {
      AtMark(s[1..]);
    }
  }

  lemma {:induction false} AtDot(s: Bytes)
    ensures DotAt(s) < |s| ==> s[DotAt(s)] == DOT
  {
    if s != [] && s[0] != DOT {
      AtDot(s[1..]);
    }
  }

  lemma RejoinAtDot(m: Bytes) returns (dot: bool)
    ensures m == Pointed(Whole(m), dot, Fraction(m)) && (!dot ==> Fraction(m) == [])
  {
    AtDot(m);
    dot := DotAt(m) < |m|;
  }

  lemma RejoinAtMark(text: Bytes)
    ensures text == Mantissa(text) + Tail(text)
    ensures Tail(text) == [] || ExponentMark(Tail(text)[0])
  {
    AtMark(text);
  }

  /** A text parses to a decimal if and only if it spells it: digits, at most one point, at most
      one exponent, no sign in front. */
  lemma ParsesExactly(text: Bytes, d: Decimal)
    requires d.WellFormed()
    ensures ParseDecimal(text) == Some(d) <==> exists dot, tail :: Spells(text, d, dot, tail)
  {
    if ParseDecimal(text) == Some(d) {
      RejoinAtMark(text);
      ExponentSpelled(Tail(text), d.exponent);
      var dot := RejoinAtDot(Mantissa(text));
      assert Spells(text, d, dot, Tail(text));
    }
    forall dot, tail | Spells(text, d, dot, tail)
      ensures ParseDecimal(text) == Some(d)
    {
      SpelledIsParsed(text, d, dot, tail);
    }
  }

  // ----- Writing microdollars back -----

  /** An amount as plain decimal dollars with six places. */
  function Render(micros: nat): Bytes {
    ToDigits(micros / 1_000_000) + [DOT] + Padded(micros % 1_000_000, 6)
  }

  lemma MillionthsArePlaces()
    ensures Pow10(6) == 1_000_000 && Pow10(14) == 100_000_000_000_000
  {
    assert Pow10(1) == 10 && Pow10(3) == 1000;
    Pow10Add(3, 3);
    Pow10Add(6, 6);
    Pow10Add(12, 1);
    Pow10Add(13, 1);
  }

  lemma MicrosOfSixPlaces(d: Decimal, micros: nat)
    requires d.WellFormed() && d.exponent == 0 && |d.fraction| == 6
    requires d.Digits() == micros <= I64_MAX
    ensures ToMicros(d) == Some(micros)
  {
    assert Pow10(0) == 1;
  }

  /** Every amount survives being written as dollars and read back. */
  lemma RenderThenParse(micros: nat)
    requires micros <= I64_MAX
    ensures UsdMicros(Render(micros)) == Some(micros)
  {
    var whole, fraction := ToDigits(micros / 1_000_000), Padded(micros % 1_000_000, 6);
    MillionthsArePlaces();
    ToDigitsIsShort(micros / 1_000_000, 14);
    assert Render(micros) == Pointed(whole, true, fraction) + [];
    SpelledIsParsed(Render(micros), Decimal(whole, fraction, 0), true, []);
    ValueOfToDigits(micros / 1_000_000);
    ValueOfPadded(whole, micros % 1_000_000, 6);
    MicrosOfSixPlaces(Decimal(whole, fraction, 0), micros);
  }
}
