/** Decimal digits as bytes: reading and writing integers. */
module Digits {
  import opened Machine
  import opened Utf8

  const ZERO: Byte := 0x30
  const PLUS: Byte := 0x2B
  const MINUS: Byte := 0x2D

  predicate IsDigit(b: Byte) {
    0x30 <= b <= 0x39
  }

  predicate AllDigits(s: Bytes) {
    forall i :: 0 <= i < |s| ==> IsDigit(s[i])
  }

  function DigitsValue(s: Bytes): nat
    requires AllDigits(s)
  {
    if s == [] then 0 else DigitsValue(s[..|s| - 1]) * 10 + (s[|s| - 1] - ZERO)
  }

  function Pow10(n: nat): (p: nat)
    ensures p >= 1
  {
    if n == 0 then 1 else 10 * Pow10(n - 1)
  }

  /** `str::parse` for a signed integer type: an optional sign, then at least one digit,
      within the type's range. */
  function ParseSigned(s: Bytes, min: int, max: int): Option<int> {
    var signed := s != [] && (s[0] == PLUS || s[0] == MINUS);
    var digits := if signed then s[1..] else s;
    if digits == [] || !AllDigits(digits) then None
    else
      var magnitude: int := DigitsValue(digits);
      var v := if signed && s[0] == MINUS then -magnitude else magnitude;
      if min <= v <= max then Some(v) else None
  }

  /** The text is the number in decimal: digits, a plus or minus in front of them at most. */
  predicate Denotes(s: Bytes, v: int) {
    s != [] &&
      if s[0] == 0x2B then s[1..] != [] && AllDigits(s[1..]) && v == DigitsValue(s[1..])
      else if s[0] == 0x2D then s[1..] != [] && AllDigits(s[1..]) && v == -(DigitsValue(s[1..]) as int)
      else AllDigits(s) && v == DigitsValue(s)
  }

  /** Exactly which texts are read, and as what: those in range that denote a number. */
  lemma ParsesSigned(s: Bytes, min: int, max: int, v: int)
    ensures ParseSigned(s, min, max) == Some(v) <==> Denotes(s, v) && min <= v <= max
  {
  }

  lemma {:induction false} ValueOfJoined(a: Bytes, b: Bytes)
    requires AllDigits(a) && AllDigits(b)
    ensures AllDigits(a + b) && DigitsValue(a + b) == DigitsValue(a) * Pow10(|b|) + DigitsValue(b)
  {
    if b == [] {
      assert a + b == a;
    } else {
      var front := b[..|b| - 1];
      ValueOfJoined(a, front);
      assert (a + b)[..|a + b| - 1] == a + front && (a + b)[|a + b| - 1] == b[|b| - 1];
      TenTimes(DigitsValue(a), Pow10(|front|));
    }
  }

  lemma TenTimes(v: nat, p: nat)
    ensures v * (10 * p) == v * p * 10
  {
  }

  /** `n` in decimal, without leading zeros. */
  function ToDigits(n: nat): (s: Bytes)
    ensures s != [] && AllDigits(s)
  {
    if n < 10 then [ZERO + n] else ToDigits(n / 10) + [ZERO + n % 10]
  }

  /** The last `k` decimal digits of `n`. */
  function Padded(n: nat, k: nat): (s: Bytes)
    ensures |s| == k && AllDigits(s)
  {
    if k == 0 then [] else Padded(n / 10, k - 1) + [ZERO + n % 10]
  }

  lemma {:induction false} Pow10Add(a: nat, b: nat)
    ensures Pow10(a + b) == Pow10(a) * Pow10(b)
  {
    if a > 0 {
      Pow10Add(a - 1, b);
      assert Pow10(a + b) == 10 * Pow10(a - 1 + b);
    }
  }

  lemma {:induction false} ValueOfToDigits(n: nat)
    ensures DigitsValue(ToDigits(n)) == n
  {
    if n >= 10 {
      ValueOfToDigits(n / 10);
      assert ToDigits(n)[..|ToDigits(n)| - 1] == ToDigits(n / 10);
    } else {
      assert ToDigits(n)[..0] == [];
    }
  }

  lemma {:induction false} ToDigitsIsShort(n: nat, k: nat)
    requires k >= 1 && n < Pow10(k)
    ensures |ToDigits(n)| <= k
  {
    if n >= 10 {
      assert k >= 2 by { assert Pow10(1) == 10; }
      ToDigitsIsShort(n / 10, k - 1);
    }
  }

  lemma AppendDigit(v: nat, p: nat, n: nat)
    ensures (v * p + n / 10) * 10 + n % 10 == v * (10 * p) + n
  {
    assert v * (10 * p) == 10 * (v * p);
  }

  /** `k` more digits shift the number before them by `k` places. */
  lemma {:induction false} ValueOfPadded(prefix: Bytes, n: nat, k: nat)
    requires AllDigits(prefix) && n < Pow10(k)
    ensures AllDigits(prefix + Padded(n, k))
    ensures DigitsValue(prefix + Padded(n, k)) == DigitsValue(prefix) * Pow10(k) + n
    decreases k
  {
    if k == 0 {
      assert prefix + [] == prefix;
    } else {
      ValueOfPadded(prefix, n / 10, k - 1);
      var s := prefix + Padded(n, k);
      assert s[..|s| - 1] == prefix + Padded(n / 10, k - 1);
      assert s[|s| - 1] == ZERO + n % 10;
      AppendDigit(DigitsValue(prefix), Pow10(k - 1), n);
    }
  }
}
