/**
  Unicode scalar values and the bytes that encode them, by the arithmetic of section 3 of RFC 3629:
  what UTF-8 is, independently of any way to recognise it.
 */
module Scalars {
  type Bytes = seq<bv8>

  /** The number a byte stands for. */
  function Val(b: bv8): nat {
    b as nat
  }

  lemma ValZero()
    ensures Val(0) == 0
  {
  }

  lemma ValNext(b: bv8)
    requires Val(b) < 0xFF
    ensures Val(b + 1) == Val(b) + 1
  {
    assert b < 0xFF;
  }

  lemma ValInjective(a: bv8, b: bv8)
    requires Val(a) == Val(b)
    ensures a == b
  {
  }

  ghost function ByteOf(n: nat): (b: bv8)
    requires n < 0x100
    ensures Val(b) == n
  {
    if n == 0 then ValZero(); 0 else ValNext(ByteOf(n - 1)); ByteOf(n - 1) + 1
  }

  /** Code points but for the surrogates. */
  type Scalar = c: nat | c < 0x110000 && !(0xD800 <= c <= 0xDFFF)

  ghost function EncodeScalar(c: Scalar): (s: Bytes)
    ensures 1 <= |s| <= 4
  {
    if c < 0x80 then
      [ByteOf(c)]
    else if c < 0x800 then
      [ByteOf(0xC0 + c / 0x40), ByteOf(0x80 + c % 0x40)]
    else if c < 0x10000 then
      [ByteOf(0xE0 + c / 0x1000), ByteOf(0x80 + c / 0x40 % 0x40), ByteOf(0x80 + c % 0x40)]
    else
      [ByteOf(0xF0 + c / 0x40000), ByteOf(0x80 + c / 0x1000 % 0x40),
       ByteOf(0x80 + c / 0x40 % 0x40), ByteOf(0x80 + c % 0x40)]
  }

  ghost function EncodeAll(cs: seq<Scalar>): Bytes {
    if cs == [] then [] else EncodeScalar(cs[0]) + EncodeAll(cs[1..])
  }

  lemma {:induction false} EncodeAllConcat(cs: seq<Scalar>, ds: seq<Scalar>)
    ensures EncodeAll(cs + ds) == EncodeAll(cs) + EncodeAll(ds)
  {
    if cs == [] {
      assert cs + ds == ds;
    } else {
      hide EncodeScalar;
      EncodeAllConcat(cs[1..], ds);
      assert (cs + ds)[1..] == cs[1..] + ds && (cs + ds)[0] == cs[0];
      var e, a, b := EncodeScalar(cs[0]), EncodeAll(cs[1..]), EncodeAll(ds);
      assert e + (a + b) == (e + a) + b;
    }
  }

  /** What the first k characters take. */
  ghost function SizeOf(cs: seq<Scalar>, k: nat): nat
    requires k <= |cs|
  {
    |EncodeAll(cs[..k])|
  }

  lemma SizeGrows(cs: seq<Scalar>, k: nat)
    requires k < |cs|
    ensures SizeOf(cs, k) < SizeOf(cs, k + 1) <= |EncodeAll(cs)|
    ensures EncodeAll(cs[..k]) <= EncodeAll(cs)
  {
    hide EncodeScalar;
    assert cs[..k + 1] == cs[..k] + [cs[k]] && cs == cs[..k + 1] + cs[k + 1..] && cs == cs[..k] + cs[k..];
    EncodeAllConcat(cs[..k], [cs[k]]);
    EncodeAllConcat(cs[..k + 1], cs[k + 1..]);
    EncodeAllConcat(cs[..k], cs[k..]);
    assert [cs[k]][0] == cs[k] && [cs[k]][1..] == [];
  }

  /** The encoding of the longest list of leading characters that fits. */
  ghost predicate LeadingThatFit(cs: seq<Scalar>, budget: nat, cut: Bytes) {
    exists k: nat :: k <= |cs| && FitUpTo(cs, budget, cut, k)
  }

  ghost predicate FitUpTo(cs: seq<Scalar>, budget: nat, cut: Bytes, k: nat)
    requires k <= |cs|
  {
    cut == EncodeAll(cs[..k]) && |cut| <= budget && (k < |cs| ==> SizeOf(cs, k + 1) > budget)
  }
}
