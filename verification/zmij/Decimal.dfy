/**
 The shortest-decimal selection of `patches/zmij/src/lib.rs`: `to_decimal_schubfach` and the
 fast path of `to_decimal_fast`, on machine integers, for both float widths.
 */
module Decimal {

  import opened Wrappers
  import opened Multiply
  import opened Powers

  datatype Width = Bits32 | Bits64

  /** `ToDecimalResult`: the number `sig * 10^exp`. */
  datatype ToDecimalResult = ToDecimalResult(sig: nat, exp: int)

  const B60: nat := 0x1000_0000_0000_0000

  /** Significands are below this. */
  function SigLimit(w: Width): nat {
    if w.Bits64? then 0x20_0000_0000_0000 else 0x100_0000
  }

  function MaxUInt(w: Width): nat {
    if w.Bits64? then B64 - 1 else B32 - 1
  }

  /** The part of a power's significand that the width uses, as one number. */
  function Entry(w: Width, pow10: Uint128): nat {
    if w.Bits64? then pow10.Value() else pow10.hi
  }

  /** What an entry is scaled by: it stands for `Entry / Scale` times a power of two. */
  function Scale(w: Width): nat {
    if w.Bits64? then B128 else B64
  }

  /** The power is normalized and can be raised by one unit without a carry. */
  predicate Usable(w: Width, pow10: Uint128) {
    pow10.hi >= B63 && (if w.Bits64? then pow10.lo < B64 - 1 else pow10.hi < B64 - 1)
  }

  predicate ValidArgs(w: Width, binSig: nat, shift: nat, pow10: Uint128) {
    1 <= binSig < SigLimit(w) && 1 <= shift <= 4 && Usable(w, pow10)
  }

  lemma FirstPowersOfTwo()
    ensures Pow(2, 1) == 2 && Pow(2, 2) == 4 && Pow(2, 3) == 8 && Pow(2, 4) == 16
  {
    assert Pow(2, 2) == 2 * Pow(2, 1);
    assert Pow(2, 4) == 2 * Pow(2, 3);
  }

  /** `x << shift`. */
  function Shl(x: nat, shift: nat): nat {
    x * Pow(2, shift)
  }

  lemma ShlFits(w: Width, binSig: nat, x: nat, shift: nat)
    requires binSig < SigLimit(w) && x <= 4 * binSig + 2 && 1 <= shift <= 4
    ensures Shl(x, shift) <= MaxUInt(w) && Shl(x, shift) <= 16 * x
  {
    FirstPowersOfTwo();
  }

  function InexactToOdd(w: Width, pow10: Uint128, y: nat): nat
    requires y <= MaxUInt(w)
  {
    if w.Bits64? then InexactToOdd64(pow10.hi, pow10.lo, y) else InexactToOdd32(pow10.hi, y)
  }

  /** The strict overestimate of the power that Schubfach needs. */
  function Raised(w: Width, pow10: Uint128): (r: Uint128)
    requires Usable(w, pow10)
    ensures Entry(w, r) == Entry(w, pow10) + 1
  {
    if w.Bits64? then Uint128(pow10.hi, pow10.lo + 1) else Uint128(pow10.hi + 1, pow10.lo)
  }

  /** `wrapping_sub` read as a signed number. */
  function SignedDiff(w: Width, a: nat, b: nat): int
    requires a <= MaxUInt(w) && b <= MaxUInt(w)
  {
    var modulus := MaxUInt(w) + 1;
    var d := (a - b) % modulus;
    if d >= modulus / 2 then d - modulus else d
  }

  /** The rounded product of a quarter-unit multiple of the significand. */
  function Estimate(w: Width, binSig: nat, x: nat, shift: nat, pow10: Uint128): nat
    requires ValidArgs(w, binSig, shift, pow10) && x <= 4 * binSig + 2
  {
    ShlFits(w, binSig, x, shift);
    InexactToOdd(w, Raised(w, pow10), Shl(x, shift))
  }

  /** The closer of the two integers around the value, if the lower one may be used. */
  function Longer(w: Width, lower: nat, scaled: nat): nat
    requires scaled <= MaxUInt(w) / 2
  {
    var below := scaled / 4;
    var above := below + 1;
    var cmp := SignedDiff(w, scaled, (below + above) * 2);
    var belowCloser := cmp < 0 || (cmp == 0 && below % 2 == 0);
    var belowIn := below * 4 >= lower;
    if belowCloser && belowIn then below else above
  }

  /** The choice at the end of `to_decimal_schubfach`, on the three estimates. */
  function Choose(w: Width, lower: nat, upper: nat, scaled: nat): nat
    requires scaled <= MaxUInt(w) / 2
  {
    var shorter := upper / 4 / 10 * 10;
    if shorter * 4 >= lower then shorter else Longer(w, lower, scaled)
  }

  /** How many quarter units the lower end of the rounding interval is below the value. */
  function LowerGap(regular: bool): nat {
    if regular then 2 else 1
  }

  function ToDecimalSchubfach(w: Width, binSig: nat, shift: nat, pow10: Uint128, regular: bool,
      decExp: int): ToDecimalResult
    requires ValidArgs(w, binSig, shift, pow10)
  {
    var lsb := binSig % 2;
    var lower := Estimate(w, binSig, 4 * binSig - LowerGap(regular), shift, pow10) + lsb;
    var upper := Estimate(w, binSig, 4 * binSig + 2, shift, pow10) - lsb;
    EstimateBounds(w, binSig, 4 * binSig + 2, shift, pow10);
    var scaled := Estimate(w, binSig, 4 * binSig, shift, pow10);
    EstimateBounds(w, binSig, 4 * binSig, shift, pow10);
    ToDecimalResult(Choose(w, lower, upper, scaled), decExp)
  }

  /** The excess the rounding does not see is below twice this. */
  function Unseen(w: Width): nat {
    if w.Bits64? then B64 else B32
  }

  /** Either width of the rounded product against an even number. */
  lemma InexactToOddCompares(w: Width, pow10: Uint128, y: nat, t: nat)
    requires y <= MaxUInt(w) && t % 2 == 0
    ensures var r, z := InexactToOdd(w, pow10, y), Entry(w, pow10) * y;
            && (r >= t <==> z >= t * Scale(w))
            && (r > t <==> z >= t * Scale(w) + 2 * Unseen(w))
  {
    hide InexactToOdd64, InexactToOdd32;
    if w.Bits64? {
      InexactToOdd64Compares(pow10.hi, pow10.lo, y, t);
    } else {
      InexactToOdd32Compares(pow10.hi, y, t);
    }
  }

  lemma EstimateBounds(w: Width, binSig: nat, x: nat, shift: nat, pow10: Uint128)
    requires ValidArgs(w, binSig, shift, pow10) && 4 * binSig <= x <= 4 * binSig + 2
    ensures 1 <= Estimate(w, binSig, x, shift, pow10) < MaxUInt(w) / 2
  {
    ShlFits(w, binSig, x, shift);
    FirstPowersOfTwo();
    MulBound(4, 2, x, Pow(2, shift));
    hide InexactToOdd, Shl, Pow;
    OddBounds(w, Raised(w, pow10), Shl(x, shift));
  }

  lemma OddBounds(w: Width, pow10: Uint128, y: nat)
    requires 8 <= y && y + 1 < MaxUInt(w) / 2 && Scale(w) / 2 <= Entry(w, pow10) < Scale(w)
    ensures 1 <= InexactToOdd(w, pow10, y) < MaxUInt(w) / 2
  {
    hide InexactToOdd, Entry, Scale, MaxUInt, Unseen;
    var t := y + y % 2;
    ScaleIsEven(w);
    OddAtLeastTwo(w, pow10, y);
    OddAtMost(w, pow10, y, t);
  }

  lemma ScaleIsEven(w: Width)
    ensures Scale(w) % 2 == 0 && Unseen(w) > 0
  {
  }

  lemma OddAtLeastTwo(w: Width, pow10: Uint128, y: nat)
    requires y <= MaxUInt(w) && Scale(w) % 2 == 0 && Scale(w) / 2 <= Entry(w, pow10) < Scale(w) && 4 <= y
    ensures InexactToOdd(w, pow10, y) >= 2
  {
    hide InexactToOdd, Entry, Scale;
    ProductBetween(Entry(w, pow10), y, Scale(w), y);
    InexactToOddCompares(w, pow10, y, 2);
  }

  lemma OddAtMost(w: Width, pow10: Uint128, y: nat, t: nat)
    requires y <= MaxUInt(w) && t % 2 == 0 && 4 <= y <= t && Unseen(w) > 0
    requires Scale(w) % 2 == 0 && Scale(w) / 2 <= Entry(w, pow10) < Scale(w)
    ensures InexactToOdd(w, pow10, y) <= t
  {
    hide InexactToOdd, Entry, Scale, Unseen;
    ProductBetween(Entry(w, pow10), y, Scale(w), t);
    InexactToOddCompares(w, pow10, y, t);
  }

  lemma ProductBetween(entry: nat, y: nat, scale: nat, t: nat)
    requires scale % 2 == 0 && scale / 2 <= entry < scale && 4 <= y <= t
    ensures 2 * scale <= entry * y <= t * scale
  {
    MulBound(scale / 2, 4, entry, y);
    MulBound(entry, y, scale, t);
    assert scale * t == t * scale;
  }

  // ---------------------------------------------------------------- the fast path

  const DIV10_SIG64: u64 := B63 / 5 + 1

  function FractionBitsOf(w: Width): nat {
    if w.Bits64? then B60 else B32
  }

  /** `2^num_integral_bits`. */
  function IntegralBitsOf(w: Width): nat {
    if w.Bits64? then 16 else B32
  }

  /** The integral and the 64-bit fractional part of the scaled significand. */
  function ScaledParts(w: Width, binSig: nat, shift: nat, pow10: Uint128): (r: (nat, u64))
    requires ValidArgs(w, binSig, shift, pow10)
  {
    ShlFits(w, binSig, binSig, shift);
    var y := Shl(binSig, shift);
    if w.Bits64? then
      var p := Umul192Hi128(pow10.hi, pow10.lo, y);
      (p.hi, p.lo)
    else
      var p := Umul128(pow10.hi, y);
      (p / B64 % B32, p % B64)
  }

  /** The multiplication by a reciprocal divides small numbers by ten exactly. */
  lemma Div10IsExact(x: u64)
    requires x < 0x4000_0000_0000_0000
    ensures Umul128Hi64(x, DIV10_SIG64) == x / 10
  {
    assert DIV10_SIG64 == 1844674407370955162;
    Reciprocal(x, x / 10, x % 10);
    QuotientIs(x * 1844674407370955162, x / 10, 4 * (x / 10) + (x % 10) * 1844674407370955162);
  }

  lemma Reciprocal(x: u64, q: nat, r: nat)
    requires x == 10 * q + r && r < 10 && x < 0x4000_0000_0000_0000
    ensures x * 1844674407370955162 == q * B64 + (4 * q + r * 1844674407370955162)
    ensures 4 * q + r * 1844674407370955162 < B64
  {
  }

  lemma QuotientIs(a: nat, q: nat, low: nat)
    requires a == q * B64 + low && low < B64
    ensures a / B64 == q
  {
  }

  lemma IntegralIsSmall(w: Width, binSig: nat, shift: nat, pow10: Uint128)
    requires ValidArgs(w, binSig, shift, pow10)
    ensures ScaledParts(w, binSig, shift, pow10).0 < 16 * SigLimit(w)
    ensures w.Bits32? ==> var p := pow10.hi * Shl(binSig, shift); p / B64 % B32 == p / B64
  {
    FirstPowersOfTwo();
    ShlFits(w, binSig, binSig, shift);
    var y := Shl(binSig, shift);
    if w.Bits64? {
      MulBound(pow10.Value(), y, B128, y);
    } else {
      MulBound(pow10.hi, y, B64, y);
    }
  }

  /** The loop body of `to_decimal_fast` for a regular significand; `None` is a `break`. */
  function FastPath(w: Width, binSig: nat, shift: nat, pow10: Uint128, decExp: int): Option<ToDecimalResult>
    requires ValidArgs(w, binSig, shift, pow10)
  {
    var parts := ScaledParts(w, binSig, shift, pow10);
    IntegralIsSmall(w, binSig, shift, pow10);
    FastChoice(w, parts.0, parts.1, HalfUlp(w, shift, pow10), decExp)
  }

  /** The comparisons of the loop body, on the parts of the scaled significand. */
  function FastChoice(w: Width, integral: nat, fractional: u64, scaledHalfUlp: u64,
      decExp: int): Option<ToDecimalResult>
    requires integral < 0x4000_0000_0000_0000
  {
    if fractional == B63 then None
    else
      Div10IsExact(integral);
      var digit := integral - Umul128Hi64(integral, DIV10_SIG64) * 10;
      var ten := 10 * FractionBitsOf(w);
      var scaledSigMod10 := digit * FractionBitsOf(w) + fractional / IntegralBitsOf(w);
      var upper := WrappingAdd64(scaledSigMod10, scaledHalfUlp);
      if (ten - upper) % B64 <= 1 || scaledSigMod10 == scaledHalfUlp then None
      else
        var shorter := integral - digit;
        var longer := integral + (if fractional >= B63 then 1 else 0);
        var decSig := if scaledSigMod10 < scaledHalfUlp then shorter else longer;
        Some(ToDecimalResult(if ten < upper then shorter + 10 else decSig, decExp))
  }

  /** `pow10.hi >> (num_integral_bits - exp_shift + 1)`. */
  function HalfUlp(w: Width, shift: nat, pow10: Uint128): (r: u64)
    requires 1 <= shift <= 4
  {
    FirstPowersOfTwo();
    pow10.hi * Pow(2, shift) / (2 * IntegralBitsOf(w))
  }

  function ToDecimalFast(w: Width, binSig: nat, shift: nat, pow10: Uint128, regular: bool, decExp: int): ToDecimalResult
    requires ValidArgs(w, binSig, shift, pow10)
  {
    var fast := if regular then FastPath(w, binSig, shift, pow10, decExp) else None;
    match fast
    case Some(result) => result
    case None => ToDecimalSchubfach(w, binSig, shift, pow10, regular, decExp)
  }
}
