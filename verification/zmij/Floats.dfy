/**
 Finite floats of either width as bit patterns (`FloatTraits` of `patches/zmij/src/lib.rs`), and
 rounding of a real number to the nearest of them, ties to even (section 4.3.1 of IEEE 754-2019).
 */
module Floats {

  import opened Powers
  import opened Decimal

  // ---------------------------------------------------------------- bit patterns

  function MinExp(w: Width): int {
    if w.Bits64? then -1074 else -149
  }

  function MaxExp(w: Width): int {
    if w.Bits64? then 971 else 104
  }

  function SignBit(w: Width): nat {
    if w.Bits64? then 0x8000_0000_0000_0000 else 0x8000_0000
  }

  function ImplicitBit(w: Width): nat {
    if w.Bits64? then 0x10_0000_0000_0000 else 0x80_0000
  }

  function ExpOffset(w: Width): nat {
    if w.Bits64? then 1075 else 150
  }

  function IsNegative(w: Width, bits: nat): bool {
    bits / SignBit(w) != 0
  }

  function RawSig(w: Width, bits: nat): nat {
    bits % ImplicitBit(w)
  }

  function RawExp(w: Width, bits: nat): nat {
    bits % SignBit(w) / ImplicitBit(w)
  }

  predicate IsFinite(w: Width, bits: nat) {
    bits < 2 * SignBit(w) && RawExp(w, bits) < (if w.Bits64? then 2047 else 255)
  }

  /** A finite float is `Sig * 2^Exp`. */
  function Sig(w: Width, bits: nat): nat {
    if RawExp(w, bits) == 0 then RawSig(w, bits) else RawSig(w, bits) + ImplicitBit(w)
  }

  function Exp(w: Width, bits: nat): int {
    (if RawExp(w, bits) == 0 then 1 else RawExp(w, bits)) - ExpOffset(w)
  }

  /**
   The code's notion: not a power of two, or subnormal. The smallest normal number is irregular
   here although the float below it is as far away as the float above.
   */
  predicate IsRegular(w: Width, bits: nat) {
    RawExp(w, bits) == 0 || RawSig(w, bits) != 0
  }

  lemma BitsInRange(w: Width, bits: nat)
    requires IsFinite(w, bits)
    ensures MinExp(w) <= Exp(w, bits) <= MaxExp(w) && Sig(w, bits) < SigLimit(w)
    ensures RawExp(w, bits) != 0 ==> Sig(w, bits) >= ImplicitBit(w)
    ensures !IsRegular(w, bits) ==> Sig(w, bits) == ImplicitBit(w)
  {
  }

  // ---------------------------------------------------------------- values

  function Units(x: nat, e: int): real {
    x as real * RPow(2, e)
  }

  function Magnitude(w: Width, bits: nat): real {
    Units(Sig(w, bits), Exp(w, bits))
  }

  function ValueOf(w: Width, bits: nat): real {
    if IsNegative(w, bits) then -Magnitude(w, bits) else Magnitude(w, bits)
  }

  /** From here on numbers round to infinity: half a unit above the largest finite float. */
  function OverflowBound(w: Width): real {
    Units(2 * SigLimit(w) - 1, MaxExp(w) - 1)
  }

  function Apart(x: real, y: real): real {
    if x >= y then x - y else y - x
  }

  /** No other finite float is as near to `v`, except that a float with an even significand wins a tie. */
  ghost predicate IsNearest(w: Width, bits: nat, v: real) {
    forall other: nat :: IsFinite(w, other) && ValueOf(w, other) != ValueOf(w, bits) ==>
      Beats(w, bits, other, v)
  }

  predicate Beats(w: Width, bits: nat, other: nat, v: real) {
    Wins(v, ValueOf(w, bits), ValueOf(w, other), Sig(w, bits) % 2 == 0)
  }

  predicate Wins(v: real, x: real, y: real, even: bool) {
    Apart(v, x) < Apart(v, y) || (Apart(v, x) == Apart(v, y) && even)
  }

  /** `v` rounds to this float and not to infinity. */
  ghost predicate RoundsTo(w: Width, bits: nat, v: real) {
    IsNearest(w, bits, v) && Apart(v, 0.0) < OverflowBound(w)
  }

  // ---------------------------------------------------------------- the interval

  /** The float below is only half as far away as the float above. */
  predicate BelowIsNear(w: Width, bits: nat) {
    RawExp(w, bits) >= 2 && RawSig(w, bits) == 0
  }

  /** Half way to the two neighbours, ends included for even significands; in quarters of a unit. */
  predicate InRoundingInterval(w: Width, bits: nat, v: real)
    requires Sig(w, bits) >= 1
  {
    var s, e := Sig(w, bits), Exp(w, bits);
    var low, high := Units(4 * s - (if BelowIsNear(w, bits) then 1 else 2), e), Units(4 * s + 2, e);
    if s % 2 == 0 then low <= 4.0 * v <= high else low < 4.0 * v < high
  }

  // ---------------------------------------------------------------- neighbours

  /** The bits of the magnitude. */
  predicate IsMagnitude(w: Width, m: nat) {
    m < SignBit(w) && IsFinite(w, m)
  }

  lemma SplitBits(w: Width, m: nat)
    requires IsMagnitude(w, m)
    ensures m == RawExp(w, m) * ImplicitBit(w) + RawSig(w, m) && !IsNegative(w, m)
  {
  }

  lemma JoinBits(w: Width, rawExp: nat, rawSig: nat, m: nat)
    requires rawSig < ImplicitBit(w) && m == rawExp * ImplicitBit(w) + rawSig && m < SignBit(w)
    ensures RawExp(w, m) == rawExp && RawSig(w, m) == rawSig
  {
  }

  lemma TwiceTheUnit(x: nat, e: int)
    ensures Units(x, e + 1) == Units(2 * x, e)
  {
    NextPower(e);
    hide RPow;
  }

  lemma NextPower(e: int)
    ensures RPow(2, e + 1) == 2.0 * RPow(2, e)
  {
    if e < -1 {
      assert Pow(2, -e) == 2 * Pow(2, -e - 1);
    } else if e == -1 {
      assert Pow(2, 1) == 2 * Pow(2, 0);
    }
  }

  lemma SuccessorRaw(w: Width, m: nat)
    requires IsMagnitude(w, m) && IsMagnitude(w, m + 1)
    ensures RawSig(w, m) < ImplicitBit(w)
    ensures RawSig(w, m) + 1 < ImplicitBit(w)
            ==> RawExp(w, m + 1) == RawExp(w, m) && RawSig(w, m + 1) == RawSig(w, m) + 1
    ensures RawSig(w, m) + 1 == ImplicitBit(w) ==> RawExp(w, m + 1) == RawExp(w, m) + 1 && RawSig(w, m + 1) == 0
  {
    SplitBits(w, m);
    var rawExp, rawSig := RawExp(w, m), RawSig(w, m);
    assert rawSig < ImplicitBit(w);
    hide RawExp, RawSig, SignBit;
    if rawSig + 1 < ImplicitBit(w) {
      JoinBits(w, rawExp, rawSig + 1, m + 1);
    } else {
      JoinBits(w, rawExp + 1, 0, m + 1);
    }
  }

  /** How the fields change from one bit pattern to the next. */
  lemma SuccessorFields(w: Width, m: nat)
    requires IsMagnitude(w, m) && IsMagnitude(w, m + 1)
    ensures Sig(w, m + 1) % 2 != Sig(w, m) % 2
    ensures BelowIsNear(w, m + 1) ==> Exp(w, m + 1) == Exp(w, m) + 1 && Sig(w, m) + 1 == 2 * Sig(w, m + 1)
    ensures !BelowIsNear(w, m + 1) ==> Exp(w, m + 1) == Exp(w, m) && Sig(w, m + 1) == Sig(w, m) + 1
  {
    hide IsMagnitude, RawExp, RawSig, SignBit;
    SuccessorRaw(w, m);
  }

  /** The next bit pattern is the next float, one unit above. */
  lemma Successor(w: Width, m: nat)
    requires IsMagnitude(w, m) && IsMagnitude(w, m + 1)
    ensures Magnitude(w, m + 1) == Units(Sig(w, m) + 1, Exp(w, m))
  {
    hide IsMagnitude, Sig, Exp, Units, BelowIsNear;
    SuccessorFields(w, m);
    if BelowIsNear(w, m + 1) {
      TwiceTheUnit(Sig(w, m + 1), Exp(w, m));
    }
  }

  lemma UnitsAdd(x: nat, y: nat, e: int)
    ensures Units(x + y, e) == Units(x, e) + Units(y, e)
  {
    hide RPow;
    assert (x + y) as real == x as real + y as real;
  }

  lemma UnitsPositive(x: nat, e: int)
    ensures Units(x, e) >= 0.0 && (x > 0 ==> Units(x, e) > 0.0)
  {
    hide Pow;
  }

  /** A greater magnitude is at least one unit greater. */
  lemma {:induction false} MagnitudesGrow(w: Width, a: nat, b: nat)
    requires a < b && IsMagnitude(w, a) && IsMagnitude(w, b)
    ensures Units(Sig(w, a) + 1, Exp(w, a)) <= Magnitude(w, b)
    decreases b - a
  {
    FiniteBelow(w, b - 1, b);
    hide IsMagnitude, Sig, Exp, Units;
    if a == b - 1 {
      Successor(w, a);
    } else {
      MagnitudesGrow(w, a, b - 1);
      Successor(w, b - 1);
      UnitsAdd(Sig(w, b - 1), 1, Exp(w, b - 1));
      UnitsPositive(1, Exp(w, b - 1));
    }
  }

  lemma FiniteBelow(w: Width, a: nat, b: nat)
    requires a <= b && IsMagnitude(w, b)
    ensures IsMagnitude(w, a)
  {
  }

  lemma SignIsOutside(w: Width, bits: nat)
    requires IsFinite(w, bits)
    ensures var m := bits % SignBit(w);
            && IsMagnitude(w, m) && Sig(w, m) == Sig(w, bits) && Exp(w, m) == Exp(w, bits)
            && RawSig(w, m) == RawSig(w, bits) && RawExp(w, m) == RawExp(w, bits)
            && bits == m + (if IsNegative(w, bits) then SignBit(w) else 0)
  {
    SignBitSplits(w, bits);
  }

  lemma SignBitSplits(w: Width, bits: nat)
    requires IsFinite(w, bits)
    ensures var m := bits % SignBit(w);
            m < SignBit(w) && RawSig(w, m) == RawSig(w, bits) && RawExp(w, m) == RawExp(w, bits)
            && bits == m + (if IsNegative(w, bits) then SignBit(w) else 0)
  {
    if w.Bits64? {
      DoubleSplits(bits);
    } else {
      SingleSplits(bits);
    }
  }

  lemma DoubleSplits(bits: nat)
    requires bits < 0x1_0000_0000_0000_0000
    ensures var m := bits % 0x8000_0000_0000_0000;
            && m % 0x10_0000_0000_0000 == bits % 0x10_0000_0000_0000
            && bits == m + (if bits / 0x8000_0000_0000_0000 != 0 then 0x8000_0000_0000_0000 else 0)
  {
  }

  lemma SingleSplits(bits: nat)
    requires bits < 0x1_0000_0000
    ensures var m := bits % 0x8000_0000;
            && m % 0x80_0000 == bits % 0x80_0000
            && bits == m + (if bits / 0x8000_0000 != 0 then 0x8000_0000 else 0)
  {
  }

  // ---------------------------------------------------------------- nearest is the interval

  lemma WinsBelow(v: real, x: real, y: real, even: bool)
    requires y < x
    ensures Wins(v, x, y, even) <==> if even then 2.0 * v >= x + y else 2.0 * v > x + y
  {
  }

  lemma WinsAbove(v: real, x: real, y: real, even: bool)
    requires x < y
    ensures Wins(v, x, y, even) <==> if even then 2.0 * v <= x + y else 2.0 * v < x + y
  {
  }

  lemma WinsMirrored(v: real, x: real, y: real, even: bool)
    ensures Wins(-v, -x, -y, even) == Wins(v, x, y, even)
  {
  }

  /** The value of the next bit pattern, float or not. */
  function Next(w: Width, m: nat): real {
    Units(Sig(w, m) + 1, Exp(w, m))
  }

  /** The ends of the interval are half way to the neighbours. */
  lemma EndsAreHalfWay(w: Width, m: nat)
    requires IsMagnitude(w, m) && m >= 1 && Sig(w, m) >= 1
    ensures Units(4 * Sig(w, m) + 2, Exp(w, m)) == 2.0 * (Magnitude(w, m) + Next(w, m))
    ensures Units(4 * Sig(w, m) - (if BelowIsNear(w, m) then 1 else 2), Exp(w, m))
            == 2.0 * (Magnitude(w, m) + Magnitude(w, m - 1))
    ensures Magnitude(w, m - 1) < Magnitude(w, m) < Next(w, m)
  {
    hide IsMagnitude, Sig, Exp, BelowIsNear, Units, RPow, Pow;
    FiniteBelow(w, m - 1, m);
    SuccessorFields(w, m - 1);
    var s, e := Sig(w, m), Exp(w, m);
    HalfWayUp(s, e);
    if BelowIsNear(w, m) {
      HalfWayDownNear(s, e, Sig(w, m - 1), Exp(w, m - 1));
    } else {
      HalfWayDown(s, e);
    }
  }

  lemma HalfWayUp(s: nat, e: int)
    ensures Units(4 * s + 2, e) == 2.0 * (Units(s, e) + Units(s + 1, e)) && Units(s, e) < Units(s + 1, e)
  {
    hide RPow;
    UnitsPositive(1, e);
    UnitsAdd(s, 1, e);
    UnitsAdd(s, s + 1, e);
    UnitsAdd(2 * s + 1, 2 * s + 1, e);
  }

  lemma HalfWayDown(s: nat, e: int)
    requires s >= 1
    ensures Units(4 * s - 2, e) == 2.0 * (Units(s, e) + Units(s - 1, e)) && Units(s - 1, e) < Units(s, e)
  {
    HalfWayUp(s - 1, e);
  }

  lemma HalfWayDownNear(s: nat, e: int, t: nat, f: int)
    requires s >= 1 && e == f + 1 && t + 1 == 2 * s
    ensures Units(4 * s - 1, e) == 2.0 * (Units(s, e) + Units(t, f)) && Units(t, f) < Units(s, e)
  {
    hide RPow, Units;
    TwiceTheUnit(s, f);
    TwiceTheUnit(4 * s - 1, f);
    HalfWayUp(t, f);
    assert 2 * (4 * s - 1) == 4 * t + 2;
  }

  lemma OtherMagnitudes(w: Width, m: nat, o: nat)
    requires IsMagnitude(w, m) && m >= 1 && IsMagnitude(w, o) && o != m
    ensures o < m ==> Magnitude(w, o) <= Magnitude(w, m - 1)
    ensures o > m ==> Magnitude(w, o) >= Next(w, m)
  {
    FiniteBelow(w, m - 1, m);
    hide *;
    if o > m {
      MagnitudesGrow(w, m, o);
      NextIs(w, m);
    } else if o < m - 1 {
      MagnitudesGrow(w, o, m - 1);
      NextIs(w, o);
      NextIsAbove(w, o);
    }
  }

  lemma NextIs(w: Width, m: nat)
    ensures Next(w, m) == Units(Sig(w, m) + 1, Exp(w, m))
  {
    hide Units, Sig, Exp;
  }

  lemma MagnitudePositive(w: Width, bits: nat)
    ensures Magnitude(w, bits) >= 0.0
  {
    UnitsPositive(Sig(w, bits), Exp(w, bits));
  }

  lemma SameMagnitude(w: Width, bits: nat)
    requires IsFinite(w, bits)
    ensures var m := bits % SignBit(w);
            IsMagnitude(w, m) && Magnitude(w, m) == Magnitude(w, bits)
            && BelowIsNear(w, m) == BelowIsNear(w, bits) && Sig(w, m) == Sig(w, bits) && Exp(w, m) == Exp(w, bits)
  {
    SignIsOutside(w, bits);
    hide Units;
  }

  /** Every other finite float is at most the one below or at least the one above. */
  lemma OthersAreOutside(w: Width, m: nat, other: nat)
    requires IsMagnitude(w, m) && m >= 1 && IsFinite(w, other)
    requires ValueOf(w, other) != Magnitude(w, m)
    ensures ValueOf(w, other) <= Magnitude(w, m - 1) || ValueOf(w, other) >= Next(w, m)
  {
    hide IsFinite, IsMagnitude, Magnitude, Next;
    var o := other % SignBit(w);
    SameMagnitude(w, other);
    MagnitudePositive(w, m - 1);
    MagnitudePositive(w, other);
    if !IsNegative(w, other) {
      OtherMagnitudes(w, m, o);
    }
  }

  /** The interval in terms of the neighbours. */
  predicate Between(w: Width, m: nat, v: real)
    requires m >= 1
  {
    var x, below, above := Magnitude(w, m), Magnitude(w, m - 1), Next(w, m);
    if Sig(w, m) % 2 == 0 then x + below <= 2.0 * v <= x + above else x + below < 2.0 * v < x + above
  }

  lemma IntervalIsBetween(w: Width, m: nat, v: real)
    requires IsMagnitude(w, m) && m >= 1 && Sig(w, m) >= 1
    ensures InRoundingInterval(w, m, v) <==> Between(w, m, v)
    ensures Magnitude(w, m - 1) < Magnitude(w, m) < Next(w, m)
  {
    hide IsMagnitude, Magnitude, Next, Sig, Exp, BelowIsNear, Units;
    EndsAreHalfWay(w, m);
  }

  lemma OwnValue(w: Width, m: nat)
    requires IsMagnitude(w, m)
    ensures ValueOf(w, m) == Magnitude(w, m)
  {
    hide Magnitude;
  }

  lemma BetweenBeats(w: Width, m: nat, v: real, other: nat)
    requires IsMagnitude(w, m) && m >= 1 && Sig(w, m) >= 1 && Between(w, m, v)
    requires IsFinite(w, other) && ValueOf(w, other) != ValueOf(w, m)
    ensures Beats(w, m, other, v)
  {
    hide IsMagnitude, IsFinite, Magnitude, Next, Sig, ValueOf, Wins;
    IntervalIsBetween(w, m, v);
    OwnValue(w, m);
    OthersAreOutside(w, m, other);
    var x, y, even := Magnitude(w, m), ValueOf(w, other), Sig(w, m) % 2 == 0;
    if y < x {
      WinsBelow(v, x, y, even);
    } else {
      WinsAbove(v, x, y, even);
    }
  }

  lemma BeatsNeighbours(w: Width, m: nat, v: real)
    requires IsMagnitude(w, m) && m >= 1 && Sig(w, m) >= 1 && RoundsTo(w, m, v)
    ensures Between(w, m, v)
  {
    hide IsMagnitude, Magnitude, Next, Sig, ValueOf, Wins, OverflowBound;
    IntervalIsBetween(w, m, v);
    MagnitudeIsFinite(w, m);
    FiniteBelow(w, m - 1, m);
    MagnitudeIsFinite(w, m - 1);
    OwnValue(w, m);
    OwnValue(w, m - 1);
    var x, even := Magnitude(w, m), Sig(w, m) % 2 == 0;
    assert Beats(w, m, m - 1, v);
    WinsBelow(v, x, Magnitude(w, m - 1), even);
    if IsMagnitude(w, m + 1) {
      MagnitudeIsFinite(w, m + 1);
      OwnValue(w, m + 1);
      NextIsSuccessor(w, m);
      assert Beats(w, m, m + 1, v);
      WinsAbove(v, x, Next(w, m), even);
    } else {
      LastFloat(w, m);
    }
  }

  lemma MagnitudeIsFinite(w: Width, m: nat)
    requires IsMagnitude(w, m)
    ensures IsFinite(w, m)
  {
  }

  lemma NextIsSuccessor(w: Width, m: nat)
    requires IsMagnitude(w, m) && IsMagnitude(w, m + 1)
    ensures Magnitude(w, m + 1) == Next(w, m)
  {
    hide IsMagnitude, Units, Sig, Exp;
    Successor(w, m);
  }

  /** The largest finite float: half way to the next value numbers overflow. */
  lemma LastFloat(w: Width, m: nat)
    requires IsMagnitude(w, m) && m >= 1 && !IsMagnitude(w, m + 1)
    ensures Sig(w, m) % 2 == 1 && Magnitude(w, m) + Next(w, m) == 2.0 * OverflowBound(w)
  {
    LastFields(w, m);
    hide Units, Sig, Exp, IsMagnitude, SigLimit;
    var s, e := Sig(w, m), Exp(w, m);
    UnitsAdd(s, s + 1, e);
    TwiceTheUnit(2 * SigLimit(w) - 1, e - 1);
    UnitsAdd(2 * SigLimit(w) - 1, 2 * SigLimit(w) - 1, e - 1);
  }

  lemma LastFields(w: Width, m: nat)
    requires IsMagnitude(w, m) && m >= 1 && !IsMagnitude(w, m + 1)
    ensures Sig(w, m) == SigLimit(w) - 1 && Exp(w, m) == MaxExp(w) && Sig(w, m) % 2 == 1 && SigLimit(w) >= 1
  {
    SplitBits(w, m);
    if RawSig(w, m) + 1 < ImplicitBit(w) {
      JoinBits(w, RawExp(w, m), RawSig(w, m) + 1, m + 1);
    } else if m + 1 < SignBit(w) {
      JoinBits(w, RawExp(w, m) + 1, 0, m + 1);
    }
  }

  lemma BetweenDoesNotOverflow(w: Width, m: nat, v: real)
    requires IsMagnitude(w, m) && m >= 1 && Sig(w, m) >= 1 && Between(w, m, v)
    ensures 0.0 < v < OverflowBound(w)
  {
    hide IsMagnitude, Magnitude, Next, Sig, Units;
    IntervalIsBetween(w, m, v);
    MagnitudePositive(w, m - 1);
    LargestMagnitude(w, m);
    if IsMagnitude(w, m + 1) {
      NextIsSuccessor(w, m);
      LargestMagnitude(w, m + 1);
    } else {
      LastFloat(w, m);
    }
  }

  /** No finite float reaches the bound. */
  lemma LargestMagnitude(w: Width, m: nat)
    requires IsMagnitude(w, m)
    ensures Magnitude(w, m) < OverflowBound(w)
  {
    var last := SignBit(w) - ImplicitBit(w) - 1;
    LastIsLast(w, m);
    hide IsMagnitude, Magnitude, Next, Sig, Exp, Units;
    LastFloat(w, last);
    NextIsAbove(w, last);
    NextIsAbove(w, m);
    if m < last {
      MagnitudesGrow(w, m, last);
    }
  }

  lemma LastIsLast(w: Width, m: nat)
    requires IsMagnitude(w, m)
    ensures var last := SignBit(w) - ImplicitBit(w) - 1;
            m <= last && last >= 1 && IsMagnitude(w, last) && !IsMagnitude(w, last + 1)
  {
    SplitBits(w, m);
  }

  lemma NextIsAbove(w: Width, m: nat)
    ensures Magnitude(w, m) < Next(w, m)
  {
    hide Units, Sig, Exp;
    UnitsAdd(Sig(w, m), 1, Exp(w, m));
    UnitsPositive(1, Exp(w, m));
  }

  function Signed(negative: bool, v: real): real {
    if negative then -v else v
  }

  lemma MagnitudeRounds(w: Width, m: nat, v: real)
    requires IsMagnitude(w, m) && m >= 1 && Sig(w, m) >= 1
    ensures RoundsTo(w, m, v) <==> InRoundingInterval(w, m, v)
    ensures InRoundingInterval(w, m, v) ==> v > 0.0
  {
    hide IsMagnitude, Between, Sig, Beats, IsFinite, ValueOf, OverflowBound, InRoundingInterval;
    IntervalIsBetween(w, m, v);
    if Between(w, m, v) {
      BetweenDoesNotOverflow(w, m, v);
      forall other: nat | IsFinite(w, other) && ValueOf(w, other) != ValueOf(w, m) ensures Beats(w, m, other, v) {
        BetweenBeats(w, m, v, other);
      }
    }
    if RoundsTo(w, m, v) {
      BeatsNeighbours(w, m, v);
    }
  }

  // ---------------------------------------------------------------- signs

  /** The float of the other sign. */
  function Flipped(w: Width, bits: nat): nat {
    if bits < SignBit(w) then bits + SignBit(w) else bits - SignBit(w)
  }

  lemma FlippedValue(w: Width, bits: nat)
    requires IsFinite(w, bits)
    ensures IsFinite(w, Flipped(w, bits)) && ValueOf(w, Flipped(w, bits)) == -ValueOf(w, bits)
    ensures Sig(w, Flipped(w, bits)) == Sig(w, bits) && Flipped(w, Flipped(w, bits)) == bits
  {
    FlippedFields(w, bits);
    hide IsFinite, Units, Sig, Exp;
  }

  /** Adding the sign bit leaves the other fields alone. */
  lemma AddSign(w: Width, m: nat)
    requires m < SignBit(w)
    ensures RawSig(w, m + SignBit(w)) == RawSig(w, m) && RawExp(w, m + SignBit(w)) == RawExp(w, m)
    ensures IsNegative(w, m + SignBit(w)) && !IsNegative(w, m)
  {
    if w.Bits64? {
      assert (m + 0x8000_0000_0000_0000) % 0x10_0000_0000_0000 == m % 0x10_0000_0000_0000;
    } else {
      assert (m + 0x8000_0000) % 0x80_0000 == m % 0x80_0000;
    }
  }

  lemma FlippedFields(w: Width, bits: nat)
    requires IsFinite(w, bits)
    ensures var f := Flipped(w, bits);
            && IsFinite(w, f) && Flipped(w, f) == bits && IsNegative(w, f) != IsNegative(w, bits)
            && Sig(w, f) == Sig(w, bits) && Exp(w, f) == Exp(w, bits)
  {
    hide RawSig, RawExp, IsNegative;
    if bits < SignBit(w) {
      AddSign(w, bits);
    } else {
      AddSign(w, bits - SignBit(w));
    }
  }

  lemma FlippedBeats(w: Width, bits: nat, other: nat, v: real)
    requires IsFinite(w, bits) && IsFinite(w, other)
    ensures Beats(w, Flipped(w, bits), Flipped(w, other), -v) == Beats(w, bits, other, v)
  {
    hide IsFinite, ValueOf, Sig, Flipped, Wins;
    FlippedValue(w, bits);
    FlippedValue(w, other);
    WinsMirrored(v, ValueOf(w, bits), ValueOf(w, other), Sig(w, bits) % 2 == 0);
  }

  lemma FlippedIsNearest(w: Width, bits: nat, v: real)
    requires IsFinite(w, bits) && IsNearest(w, bits, v)
    ensures IsNearest(w, Flipped(w, bits), -v)
  {
    hide IsFinite, ValueOf, Sig, Flipped, Beats;
    FlippedValue(w, bits);
    forall other: nat | IsFinite(w, other) && ValueOf(w, other) != ValueOf(w, Flipped(w, bits))
      ensures Beats(w, Flipped(w, bits), other, -v)
    {
      var o := Flipped(w, other);
      FlippedValue(w, other);
      FlippedValue(w, o);
      FlippedBeats(w, bits, o, v);
    }
  }

  lemma FlippedRounds(w: Width, bits: nat, v: real)
    requires IsFinite(w, bits)
    ensures RoundsTo(w, Flipped(w, bits), -v) <==> RoundsTo(w, bits, v)
  {
    hide IsFinite, IsNearest, OverflowBound, Flipped;
    FlippedValue(w, bits);
    if IsNearest(w, bits, v) {
      FlippedIsNearest(w, bits, v);
    }
    if IsNearest(w, Flipped(w, bits), -v) {
      FlippedIsNearest(w, Flipped(w, bits), -v);
    }
  }

  lemma FlippedInterval(w: Width, bits: nat, v: real)
    requires IsFinite(w, bits) && IsNegative(w, bits) && Sig(w, bits) >= 1
    ensures var m := Flipped(w, bits);
            && IsMagnitude(w, m) && m >= 1 && Sig(w, m) >= 1
            && InRoundingInterval(w, m, v) == InRoundingInterval(w, bits, v)
  {
    SignIsOutside(w, bits);
    hide Units;
  }

  /**
   A number rounds to a nonzero finite float, by the definition that compares it with every other
   finite float of the width, exactly when its magnitude lies in the float's rounding interval.
   */
  lemma RoundsToMeansInInterval(w: Width, bits: nat, v: real)
    requires IsFinite(w, bits) && Sig(w, bits) >= 1
    ensures RoundsTo(w, bits, Signed(IsNegative(w, bits), v)) <==> InRoundingInterval(w, bits, v)
  {
    if IsNegative(w, bits) {
      FlippedInterval(w, bits, v);
      hide *;
      MagnitudeRounds(w, Flipped(w, bits), v);
      FlippedRounds(w, bits, -v);
      SignedIs(v);
    } else {
      PositiveIsMagnitude(w, bits);
      hide *;
      MagnitudeRounds(w, bits, v);
      SignedIs(v);
    }
  }

  lemma SignedIs(v: real)
    ensures Signed(true, v) == -v && Signed(false, v) == v
  {
  }

  lemma PositiveIsMagnitude(w: Width, bits: nat)
    requires IsFinite(w, bits) && Sig(w, bits) >= 1 && !IsNegative(w, bits)
    ensures IsMagnitude(w, bits) && bits >= 1
  {
  }
}
