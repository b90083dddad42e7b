/** Byte strings and the well-formedness rules of section 4 of RFC 3629.

    A Rust `String` is its UTF-8 bytes, so text is modelled as bytes throughout. */
module Utf8 {
  import opened Machine

  type Byte = b: int | 0 <= b < 256
  type Bytes = seq<Byte>

  /** A Unicode scalar value: a code point that is not a surrogate. */
  type Scalar = c: int | 0 <= c < 0xD800 || 0xE000 <= c < 0x11_0000

  predicate Continuation(b: Byte) {
    0x80 <= b < 0xC0
  }

  predicate SecondOfThree(lead: Byte, second: Byte) {
    || (lead == 0xE0 && 0xA0 <= second < 0xC0)
    || ((0xE1 <= lead <= 0xEC || 0xEE <= lead <= 0xEF) && Continuation(second))
    || (lead == 0xED && 0x80 <= second < 0xA0)
  }

  predicate SecondOfFour(lead: Byte, second: Byte) {
    || (lead == 0xF0 && 0x90 <= second < 0xC0)
    || (0xF1 <= lead <= 0xF3 && Continuation(second))
    || (lead == 0xF4 && 0x80 <= second < 0x90)
  }

  /** The width of the well-formed character at the front of `s`, or 0. */
  function LeadWidth(s: Bytes): (n: nat)
    ensures n <= |s| && n <= 4
    ensures forall i :: 1 <= i < n ==> Continuation(s[i])
  {
    if |s| >= 1 && s[0] < 0x80 then 1
    else if |s| >= 2 && 0xC2 <= s[0] <= 0xDF && Continuation(s[1]) then 2
    else if |s| >= 3 && SecondOfThree(s[0], s[1]) && Continuation(s[2]) then 3
    else if |s| >= 4 && SecondOfFour(s[0], s[1]) && Continuation(s[2]) && Continuation(s[3]) then 4
    else 0
  }

  predicate Valid(s: Bytes) {
    s == [] || (LeadWidth(s) > 0 && Valid(s[LeadWidth(s)..]))
  }

  // ----- Validity against the encoding of scalar values -----

  function Encode(c: Scalar): (s: Bytes)
    ensures 1 <= |s| <= 4
  {
    if c < 0x80 then [c]
    else if c < 0x800 then [0xC0 + c / 64, 0x80 + c % 64]
    else if c < 0x1_0000 then [0xE0 + c / 64 / 64, 0x80 + c / 64 % 64, 0x80 + c % 64]
    else [0xF0 + c / 64 / 64 / 64, 0x80 + c / 64 / 64 % 64, 0x80 + c / 64 % 64, 0x80 + c % 64]
  }

  function EncodeAll(cs: seq<Scalar>): Bytes {
    if cs == [] then [] else Encode(cs[0]) + EncodeAll(cs[1..])
  }

  /** Appends the six payload bits of a continuation byte. */
  function Wide(high: nat, b: Byte): (r: nat)
    requires Continuation(b)
    ensures r / 64 == high && r % 64 == b - 0x80
  {
    high * 64 + (b - 0x80)
  }

  function DecodeFirst(s: Bytes): (c: Scalar)
    requires LeadWidth(s) > 0
  {
    var n := LeadWidth(s);
    if n == 1 then s[0]
    else if n == 2 then Wide(s[0] - 0xC0, s[1])
    else if n == 3 then Wide(Wide(s[0] - 0xE0, s[1]), s[2])
    else Wide(Wide(Wide(s[0] - 0xF0, s[1]), s[2]), s[3])
  }

  lemma FirstScalar(s: Bytes) returns (c: Scalar)
    requires LeadWidth(s) > 0
    ensures Encode(c) == s[..LeadWidth(s)]
  {
    c := DecodeFirst(s);
  }

  lemma WidthOfEncoded(c: Scalar, rest: Bytes)
    ensures LeadWidth(Encode(c) + rest) == |Encode(c)|
  {
    var s := Encode(c) + rest;
    assert forall i :: 0 <= i < |Encode(c)| ==> s[i] == Encode(c)[i];
  }

  lemma {:induction false} EncodedIsValid(cs: seq<Scalar>)
    ensures Valid(EncodeAll(cs))
  {
    if cs != [] {
      EncodedIsValid(cs[1..]);
      WidthOfEncoded(cs[0], EncodeAll(cs[1..]));
      assert EncodeAll(cs)[|Encode(cs[0])|..] == EncodeAll(cs[1..]);
    }
  }

  lemma {:induction false} Decode(s: Bytes) returns (cs: seq<Scalar>)
    requires Valid(s)
    ensures EncodeAll(cs) == s
  {
    if s == [] {
      cs := [];
    } else {
      var n := LeadWidth(s);
      var c := FirstScalar(s);
      var rest := Decode(s[n..]);
      cs := [c] + rest;
      assert cs[1..] == rest;
      assert s == s[..n] + s[n..];
    }
  }

  /** The table-driven check accepts exactly the encodings of scalar values. */
  lemma ValidIffEncoded(s: Bytes)
    ensures Valid(s) <==> exists cs: seq<Scalar> :: s == EncodeAll(cs)
  {
    if Valid(s) {
      var cs := Decode(s);
    }
    forall cs: seq<Scalar> | s == EncodeAll(cs)
      ensures Valid(s)
    {
      EncodedIsValid(cs);
    }
  }

  // ----- Cutting and joining -----

  lemma WidthIsLocal(a: Bytes, b: Bytes)
    requires LeadWidth(a) > 0 || 0 < LeadWidth(a + b) <= |a|
    ensures LeadWidth(a + b) == LeadWidth(a)
  {
    assert forall i :: 0 <= i < |a| ==> (a + b)[i] == a[i];
  }

  lemma ValidTail(s: Bytes, n: nat, rest: Bytes)
    requires 0 < n == LeadWidth(s) && rest == s[n..]
    ensures Valid(s) <==> Valid(rest)
  {
  }

  lemma {:induction false} ValidJoin(a: Bytes, b: Bytes)
    requires Valid(a)
    ensures Valid(a + b) <==> Valid(b)
  {
    if a == [] {
      assert a + b == b;
    } else {
      var n := LeadWidth(a);
      var rest := a[n..];
      WidthIsLocal(a, b);
      ValidTail(a, n, rest);
      ValidJoin(rest, b);
      JoinedTail(a, b, n, rest);
      ValidTail(a + b, n, rest + b);
    }
  }

  lemma JoinedTail(a: Bytes, b: Bytes, n: nat, rest: Bytes)
    requires n <= |a| && rest == a[n..]
    ensures (a + b)[n..] == rest + b
  {
  }

  /** Valid text may be cut wherever the right part does not start inside a character. */
  lemma {:induction false} ValidCut(a: Bytes, b: Bytes)
    requires Valid(a + b)
    requires b != [] ==> !Continuation(b[0])
    ensures Valid(a) && Valid(b)
  {
    if b == [] {
      assert a + b == a;
    } else if a == [] {
      assert a + b == b;
    } else {
      var n := LeadWidth(a + b);
      assert (a + b)[|a|] == b[0];
      assert n <= |a|;
      WidthIsLocal(a, b);
      assert (a + b)[n..] == a[n..] + b;
      ValidCut(a[n..], b);
    }
  }

  lemma {:induction false} AsciiIsValid(s: Bytes)
    requires forall i :: 0 <= i < |s| ==> s[i] < 0x80
    ensures Valid(s)
  {
    if s != [] {
      AsciiIsValid(s[1..]);
    }
  }
}
