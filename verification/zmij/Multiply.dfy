/**
 Multiword multiplication of `patches/zmij/src/lib.rs`: the high part of a 192-bit product and
 the inexact product rounded to odd. Machine words are naturals with their width in the type,
 so that every function's well-formedness is also the absence of overflow.
 */
module Multiply {

  const B32: nat := 0x1_0000_0000
  const B63: nat := 0x8000_0000_0000_0000
  const B64: nat := 0x1_0000_0000_0000_0000
  const B128: nat := 0x1_0000_0000_0000_0000_0000_0000_0000_0000

  type u32 = x: nat | x < B32
  type u64 = x: nat | x < B64
  type u128 = x: nat | x < B128

  datatype Uint128 = Uint128(hi: u64, lo: u64) {
    function Value(): u128 {
      hi * B64 + lo
    }
  }

  lemma MulBound(x: nat, y: nat, a: nat, b: nat)
    requires x <= a && y <= b
    ensures x * y <= a * b
  {
  }

  function Umul128(x: u64, y: u64): (p: u128)
    ensures p == x * y
  {
    MulBound(x, y, B64 - 1, B64 - 1);
    x * y
  }

  function Umul128Hi64(x: u64, y: u64): u64 {
    Umul128(x, y) / B64
  }

  function WrappingAdd64(x: u64, y: u64): u64 {
    (x + y) % B64
  }

  /** The high 128 bits of the product of a 128-bit and a 64-bit number. */
  function Umul192Hi128(xHi: u64, xLo: u64, y: u64): (r: Uint128)
    ensures r.Value() == (xHi * B64 + xLo) * y / B64
  {
    var p := Umul128(xHi, y);
    var q := Umul128Hi64(xLo, y);
    var lo := WrappingAdd64(p % B64, q);
    var carry := if lo < p % B64 then 1 else 0;
    CarryFits(xHi, xLo, y);
    Uint128(p / B64 + carry, lo)
  }

  /** Adding the low product's high word carries at most once and never out of 128 bits. */
  lemma CarryFits(xHi: u64, xLo: u64, y: u64)
    ensures var p, q := xHi * y, xLo * y / B64;
            var lo := (p % B64 + q) % B64;
            var carry := if lo < p % B64 then 1 else 0;
            && (p / B64 + carry) * B64 + lo == p + q
            && p / B64 + carry < B64
            && p + q == (xHi * B64 + xLo) * y / B64
  {
    MulBound(xHi, y, B64 - 1, B64 - 1);
    MulBound(xLo, y, B64 - 1, B64 - 1);
    Distribute(xHi, xLo, y);
    CarryOf(xHi * y, xLo * y, (xHi * B64 + xLo) * y);
  }

  lemma CarryOf(p: nat, low: nat, z: nat)
    requires p <= (B64 - 1) * (B64 - 1) && low <= (B64 - 1) * (B64 - 1) && z == p * B64 + low
    ensures var q := low / B64;
            var lo := (p % B64 + q) % B64;
            var carry := if lo < p % B64 then 1 else 0;
            && (p / B64 + carry) * B64 + lo == p + q
            && p / B64 + carry < B64
            && p + q == z / B64
  {
    CarryOfProducts(p, low);
  }

  lemma Distribute(xHi: nat, xLo: nat, y: nat)
    ensures (xHi * B64 + xLo) * y == xHi * y * B64 + xLo * y
  {
  }

  lemma CarryOfProducts(p: nat, low: nat)
    requires p <= (B64 - 1) * (B64 - 1) && low <= (B64 - 1) * (B64 - 1)
    ensures var q := low / B64;
            var lo := (p % B64 + q) % B64;
            var carry := if lo < p % B64 then 1 else 0;
            && (p / B64 + carry) * B64 + lo == p + q
            && p / B64 + carry < B64
            && p + q == (p * B64 + low) / B64
  {
    HighOfSum(p, low);
  }

  lemma HighOfSum(p: nat, low: nat)
    ensures (p * B64 + low) / B64 == p + low / B64
  {
  }

  /** `x | 1` when `b`. */
  function OrOne(x: nat, b: bool): (r: nat)
    ensures x <= r <= x + 1
    ensures forall t: nat :: t % 2 == 0 ==> (r >= t <==> x >= t) && (r > t <==> x > t || (x == t && b))
  {
    if b then x - x % 2 + 1 else x
  }

  /** `umulhi_inexact_to_odd` for 64-bit `UInt`. */
  function InexactToOdd64(xHi: u64, xLo: u64, y: u64): (r: u64) {
    var p := Umul192Hi128(xHi, xLo, y);
    OrOneFits(p.hi, p.lo / 2 != 0);
    OrOne(p.hi, p.lo / 2 != 0)
  }

  /** `umulhi_inexact_to_odd` for 32-bit `UInt`: only the high half of the power is used. */
  function InexactToOdd32(xHi: u64, y: u32): (r: u32) {
    var p := Umul128(xHi, y) / B32;
    MulBound(xHi, y, B64 - 1, B32 - 1);
    assert p < B64;
    OrOneFits(p / B32, (p % B32) / 2 != 0);
    OrOne(p / B32, (p % B32) / 2 != 0)
  }

  lemma OrOneFits(x: nat, b: bool)
    ensures x < B64 ==> OrOne(x, b) < B64
    ensures x < B32 ==> OrOne(x, b) < B32
  {
  }

  /**
   Against an even number the rounded product compares as the exact product does, except that
   an excess below two units in the last place of the fraction is not seen.
   */
  lemma InexactToOdd64Compares(xHi: u64, xLo: u64, y: u64, t: nat)
    requires t % 2 == 0
    ensures var r, z := InexactToOdd64(xHi, xLo, y), (xHi * B64 + xLo) * y;
            && (r >= t <==> z >= t * B128)
            && (r > t <==> z >= t * B128 + 2 * B64)
  {
    var p := Umul192Hi128(xHi, xLo, y);
    var z := (xHi * B64 + xLo) * y;
    var v := p.Value();
    assert v == z / B64;
    assert v * B64 <= z < v * B64 + B64;
    assert p.hi >= t <==> v >= t * B64;
  }

  lemma InexactToOdd32Compares(xHi: u64, y: u32, t: nat)
    requires t % 2 == 0
    ensures var r, z := InexactToOdd32(xHi, y), xHi * y;
            && (r >= t <==> z >= t * B64)
            && (r > t <==> z >= t * B64 + 2 * B32)
  {
    var z := xHi * y;
    var p := z / B32;
    assert p * B32 <= z < p * B32 + B32;
    assert p / B32 >= t <==> p >= t * B32;
  }
}
