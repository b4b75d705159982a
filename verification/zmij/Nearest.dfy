/**
 The printed decimal among all decimals: none with fewer digits reads back as the same float, and
 none with as many digits that reads back is nearer to the float.
 */
module Nearest {

  import opened Powers
  import opened Multiply
  import opened Exponents
  import opened Decimal
  import opened DecimalProofs
  import opened Floats
  import opened Text
  import opened FloatText
  import opened ReadBack

  // ---------------------------------------------------------------- decimals in order

  /** What is less than `10^q` at `10^j` is less than `10^p` if `q + j` is at most `p`. */
  lemma BelowPower(m: nat, j: int, q: nat, p: int)
    requires m < Pow(10, q) && q + j <= p
    ensures Value(m, j) < Value(1, p)
  {
    var n := p - j;
    PowMonoExp(10, q, n);
    hide Pow, Value;
    ValueOrder(m, Pow(10, n), j);
    ShiftValue(1, n, j);
  }

  lemma AbovePower(c: nat, x: int, n: nat)
    requires Pow(10, n) <= c
    ensures Value(1, n + x) <= Value(c, x)
  {
    hide Pow, Value;
    ValueOrder(Pow(10, n), c, x);
    ShiftValue(1, n, x);
  }

  lemma IntervalIsConvex(w: Width, bits: nat, low: real, v: real, high: real)
    requires Sig(w, bits) >= 1 && low <= v <= high
    requires InRoundingInterval(w, bits, low) && InRoundingInterval(w, bits, high)
    ensures InRoundingInterval(w, bits, v)
  {
    hide Units;
  }

  lemma IntervalIsPositive(w: Width, bits: nat, v: real)
    requires Sig(w, bits) >= 1 && InRoundingInterval(w, bits, v)
    ensures v > 0.0
  {
    hide Units;
    UnitsPositive(4 * Sig(w, bits) - (if BelowIsNear(w, bits) then 1 else 2), Exp(w, bits));
  }

  lemma PrintedIsInside(w: Width, bits: nat, table: int -> Uint128)
    requires IsFinite(w, bits) && Sig(w, bits) > 0 && TrustedTable(w, bits, table)
    ensures InRoundingInterval(w, bits, DecimalOf(w, bits, table))
  {
    hide *;
    SelectedInCodeInterval(w, bits, table);
    CodeIntervalIsInside(w, bits, DecimalOf(w, bits, table));
  }

  // ---------------------------------------------------------------- fewer digits

  /** A number below a power of ten above the last digit is not in the interval if the printed one is not. */
  lemma NothingBelowPower(w: Width, bits: nat, table: int -> Uint128, c: nat, x: int, n: nat, v: real)
    requires IsFinite(w, bits) && Sig(w, bits) > 0 && TrustedTable(w, bits, table)
    requires Value(c, x) == DecimalOf(w, bits, table) && c % 10 != 0
    requires n > 0 && Pow(10, n) <= c && v < Value(1, n + x)
    ensures !InRoundingInterval(w, bits, v)
  {
    hide *;
    AbovePower(c, x, n);
    PrintedIsInside(w, bits, table);
    NoShorterRounds(w, bits, table, c, x, 1, n + x);
    if InRoundingInterval(w, bits, v) {
      IntervalIsConvex(w, bits, v, Value(1, n + x), Value(c, x));
    }
  }

  lemma FewerDigitsOutside(w: Width, bits: nat, table: int -> Uint128, c: nat, x: int, n: nat, m: nat, j: int)
    requires IsFinite(w, bits) && Sig(w, bits) > 0 && TrustedTable(w, bits, table)
    requires Value(c, x) == DecimalOf(w, bits, table) && c % 10 != 0
    requires Pow(10, n) <= c && m < Pow(10, n)
    ensures !InRoundingInterval(w, bits, Value(m, j))
  {
    PowOfNothing(n);
    hide *;
    if n == 0 {
      ValueOfNothing(j);
      if InRoundingInterval(w, bits, Value(m, j)) {
        IntervalIsPositive(w, bits, Value(m, j));
      }
    } else if j > x {
      NoShorterRounds(w, bits, table, c, x, m, j);
    } else {
      BelowPower(m, j, n, n + x);
      NothingBelowPower(w, bits, table, c, x, n, Value(m, j));
    }
  }

  lemma PowOfNothing(n: nat)
    ensures n == 0 ==> Pow(10, n) == 1
  {
  }

  lemma ValueOfNothing(j: int)
    ensures Value(0, j) == 0.0
  {
  }

  /**
   The printed number, written as `c * 10^x` without a trailing zero, has the fewest digits: no
   decimal with fewer of them, at whatever place, rounds to the same float.
   */
  lemma FewestDigits(w: Width, bits: nat, table: int -> Uint128, c: nat, x: int, n: nat, m: nat, j: int)
    requires IsFinite(w, bits) && Sig(w, bits) > 0 && TrustedTable(w, bits, table)
    requires Value(c, x) == DecimalOf(w, bits, table) && c % 10 != 0
    requires Pow(10, n) <= c && m < Pow(10, n)
    ensures !RoundsTo(w, bits, Signed(IsNegative(w, bits), Value(m, j)))
  {
    hide *;
    FewerDigitsOutside(w, bits, table, c, x, n, m, j);
    RoundsToMeansInInterval(w, bits, Value(m, j));
  }

  // ---------------------------------------------------------------- distances

  /** At least as near as the other number, and even or the same if just as near. */
  predicate Nearer(v: real, other: real, to: real, even: bool) {
    && Apart(v, to) <= Apart(other, to)
    && (Apart(v, to) == Apart(other, to) ==> v == other || even)
  }

  lemma DistanceScaled(d: nat, s: nat, e: int, regular: bool)
    requires -1334 <= e <= 2620
    ensures var k := ComputeDecExp(e, regular);
            Distance(d, s, UlpOf(e, regular)) * RPow(10, k) == 4.0 * Apart(Value(d, k), Units(s, e))
  {
    hide RPow, ComputeDecExp, UlpOf, Times, Units, Value;
    var k, t := ComputeDecExp(e, regular), Times(4 * s, UlpOf(e, regular));
    Unscaled(4 * s, e, regular);
    FourValue(d, k);
    FourUnits(s, e);
    DifferenceTimes((4 * d) as real, t, RPow(10, k));
  }

  lemma FourUnits(s: nat, e: int)
    ensures Units(4 * s, e) == 4.0 * Units(s, e)
  {
    hide RPow;
    assert (4 * s) as real == 4.0 * s as real;
  }

  lemma DifferenceTimes(a: real, b: real, p: real)
    ensures (a - b) * p == a * p - b * p && -(a - b) * p == b * p - a * p
  {
  }

  lemma PreferredIsNearer(d: nat, m: nat, s: nat, e: int, regular: bool)
    requires -1334 <= e <= 2620 && Preferred(d, m, s, UlpOf(e, regular))
    ensures var k := ComputeDecExp(e, regular);
            Nearer(Value(d, k), Value(m, k), Units(s, e), d % 2 == 0)
  {
    hide RPow, ComputeDecExp, UlpOf, Distance, Units, Value, Apart;
    var k, ulp := ComputeDecExp(e, regular), UlpOf(e, regular);
    DistanceScaled(d, s, e, regular);
    DistanceScaled(m, s, e, regular);
    RealScaledOrder(Distance(d, s, ulp), Distance(m, s, ulp), RPow(10, k));
    RealScaledOrder(Distance(m, s, ulp), Distance(d, s, ulp), RPow(10, k));
  }

  // ---------------------------------------------------------------- at the place of the last digit

  /** A selected number that is no multiple of ten is the nearest of all in the code's interval. */
  lemma NearestOnScale(d: nat, m: nat, s: nat, e: int, regular: bool)
    requires s >= 1 && -1334 <= e <= 2620 && IsShortest(d, s, UlpOf(e, regular), regular) && d % 10 != 0
    requires InCodeInterval(Value(m, ComputeDecExp(e, regular)), s, e, regular)
    ensures var k := ComputeDecExp(e, regular);
            Nearer(Value(d, k), Value(m, k), Units(s, e), d % 2 == 0)
  {
    CodeIntervalMeansInInterval(m, s, e, regular);
    hide InInterval, InCodeInterval, UlpOf, Preferred, Value, Units, ComputeDecExp;
    PreferredIsNearer(d, m, s, e, regular);
  }

  /** Of the multiples of ten only the selected one is in the interval. */
  lemma OnlyMultipleOfTen(w: Width, bits: nat, table: int -> Uint128, m: nat, n: nat)
    requires IsFinite(w, bits) && Sig(w, bits) > 0 && TrustedTable(w, bits, table)
    requires var dec := Selected(w, bits, table);
             n > 0 && dec.sig % 10 == 0 && InRoundingInterval(w, bits, Value(m, n + dec.exp))
    ensures var dec := Selected(w, bits, table);
            m * Pow(10, n) == dec.sig && Value(m, n + dec.exp) == Value(dec.sig, dec.exp)
  {
    SelectedIsShortest(w, bits, table);
    var dec := Selected(w, bits, table);
    hide *;
    OnlyTens(w, bits, dec.sig, dec.exp, m, n);
    ShiftValue(m, n, dec.exp);
  }

  lemma OnlyTens(w: Width, bits: nat, d: nat, k: int, m: nat, n: nat)
    requires IsFinite(w, bits) && Sig(w, bits) > 0 && -1074 <= Exp(w, bits) <= 971
    requires k == ComputeDecExp(Exp(w, bits), IsRegular(w, bits))
    requires var ulp := UlpOf(Exp(w, bits), IsRegular(w, bits));
             IsShortest(d, Sig(w, bits), ulp, IsRegular(w, bits)) && Narrow(ulp, IsRegular(w, bits))
    requires n > 0 && d % 10 == 0 && InRoundingInterval(w, bits, Value(m, n + k))
    ensures m * Pow(10, n) == d
  {
    hide *;
    var s, e, regular := Sig(w, bits), Exp(w, bits), IsRegular(w, bits);
    var a, ulp := m * Pow(10, n - 1), UlpOf(e, regular);
    TensIn(m, n);
    CoarserInCodeInterval(w, bits, k, m, n + k);
    ShiftValue(m, n, k);
    CodeIntervalMeansInInterval(10 * a, s, e, regular);
    InShortest(d, s, ulp, regular);
    assert d == 10 * (d / 10);
    OneMultipleOfTen(a, d / 10, s, ulp, regular);
  }

  // ---------------------------------------------------------------- the smallest normal number

  /** The integer next above the smallest normal number, on the selection's scale. */
  function NextAbove(w: Width): nat {
    if w.Bits64? then 22250738585072014 else 11754944
  }

  /** It is less than half away, and well inside of the interval. */
  lemma NextAboveIsNear(w: Width)
    ensures var k, s, e, d := ComputeDecExp(MinExp(w), false), ImplicitBit(w), MinExp(w), NextAbove(w);
            && Value(2 * d - 1, k) < Units(2 * s, e) && Units(s, e) <= Value(d, k)
            && Value(4 * d, k) <= Units(4 * s + 2, e)
  {
    hide Pow, Units, Value;
    if w.Bits64? {
      PowerOf324();
      PowerOf1074();
      AgainstDecimal(0x20_0000_0000_0000, 1074, 44501477170144027, 324, TWO_1074, TEN_324);
      AgainstDecimal(0x10_0000_0000_0000, 1074, 22250738585072014, 324, TWO_1074, TEN_324);
      AgainstDecimal(0x40_0000_0000_0002, 1074, 89002954340288056, 324, TWO_1074, TEN_324);
    } else {
      PowersOf32();
      AgainstDecimal(0x100_0000, 149, 23509887, 45, TWO_149, TEN_45);
      AgainstDecimal(0x80_0000, 149, 11754944, 45, TWO_149, TEN_45);
      AgainstDecimal(0x200_0002, 149, 47019776, 45, TWO_149, TEN_45);
    }
  }

  /** What the code leaves out of the smallest normal number's interval is farther away than that. */
  lemma LeftOutIsFarther(m: nat, d: nat, k: int, s: nat, e: int)
    requires s >= 1 && d > 0 && 4.0 * Value(m, k) < Units(4 * s - 1, e)
    requires Value(2 * d - 1, k) < Units(2 * s, e) && Units(s, e) <= Value(d, k)
    ensures Apart(Value(d, k), Units(s, e)) < Apart(Value(m, k), Units(s, e))
  {
    hide Value, Units;
    FourUnits(s, e);
    TwiceUnits(s, e);
    UnitsAdd(4 * s - 1, 1, e);
    UnitsPositive(1, e);
    ValueOrder(m, d, k);
    ValueOrder(m + d, 2 * d - 1, k);
    ValueAdd(m, d, k);
  }

  lemma TwiceUnits(s: nat, e: int)
    ensures Units(2 * s, e) == 2.0 * Units(s, e)
  {
    UnitsAdd(s, s, e);
  }

  lemma ValueAdd(a: nat, b: nat, k: int)
    ensures Value(a + b, k) == Value(a, k) + Value(b, k)
  {
    hide RPow;
    assert (a + b) as real == a as real + b as real;
  }

  /** At the smallest normal number the selected one is the nearest in the float's own interval. */
  lemma NearestAtSmallestNormal(w: Width, bits: nat, d: nat, k: int, m: nat)
    requires IsFinite(w, bits) && IsSmallestNormal(w, bits) && Sig(w, bits) > 0
    requires k == ComputeDecExp(MinExp(w), false) && d % 10 != 0
    requires IsShortest(d, ImplicitBit(w), UlpOf(MinExp(w), false), false)
    requires InRoundingInterval(w, bits, Value(m, k)) && !InCodeInterval(Value(m, k), ImplicitBit(w), MinExp(w), false)
    ensures Nearer(Value(d, k), Value(m, k), Units(ImplicitBit(w), MinExp(w)), d % 2 == 0)
  {
    var s, e, next := ImplicitBit(w), MinExp(w), NextAbove(w);
    NextAboveIsNear(w);
    NextAboveIsInside(w);
    LeftOutIsBelow(w, bits, Value(m, k));
    hide *;
    LeftOutIsFarther(m, next, k, s, e);
    NearestOnScale(d, next, s, e, false);
    NearerThanNear(Value(d, k), Value(next, k), Value(m, k), Units(s, e), d % 2 == 0);
  }

  lemma NextAboveIsInside(w: Width)
    ensures InCodeInterval(Value(NextAbove(w), ComputeDecExp(MinExp(w), false)), ImplicitBit(w), MinExp(w), false)
  {
    var k, s, e, next := ComputeDecExp(MinExp(w), false), ImplicitBit(w), MinExp(w), NextAbove(w);
    NextAboveIsNear(w);
    FourValue(next, k);
    ValueIs(4 * next, k);
    hide ComputeDecExp, Units, Value, NextAbove, MinExp;
    UnitsAdd(4 * s - 1, 1, e);
    UnitsPositive(1, e);
    FourUnits(s, e);
  }

  lemma LeftOutIsBelow(w: Width, bits: nat, v: real)
    requires IsFinite(w, bits) && IsSmallestNormal(w, bits) && Sig(w, bits) > 0
    requires InRoundingInterval(w, bits, v) && !InCodeInterval(v, ImplicitBit(w), MinExp(w), false)
    ensures 4.0 * v < Units(4 * ImplicitBit(w) - 1, MinExp(w))
  {
    hide Units, MinExp;
    SmallestNormalFields(w, bits);
  }

  lemma NearerThanNear(v: real, near: real, far: real, to: real, even: bool)
    requires Nearer(v, near, to, even) && Apart(near, to) < Apart(far, to)
    ensures Nearer(v, far, to, even)
  {
  }

  // ---------------------------------------------------------------- as many digits

  lemma NearestAtPlace(w: Width, bits: nat, table: int -> Uint128, c: nat, x: int, m: nat)
    requires IsFinite(w, bits) && Sig(w, bits) > 0 && TrustedTable(w, bits, table)
    requires Value(c, x) == DecimalOf(w, bits, table) && c % 10 != 0
    requires InRoundingInterval(w, bits, Value(m, x))
    ensures Nearer(Value(c, x), Value(m, x), Magnitude(w, bits), c % 2 == 0)
  {
    var dec, s, e, regular := Selected(w, bits, table), Sig(w, bits), Exp(w, bits), IsRegular(w, bits);
    SelectedIsShortest(w, bits, table);
    hide *;
    NotBelowScale(c, x, dec.sig, dec.exp);
    if x > dec.exp {
      TensIn(c, x - dec.exp);
      OnlyMultipleOfTen(w, bits, table, m, x - dec.exp);
      SameIsNearer(Value(c, x), Magnitude(w, bits));
    } else {
      NoShift(c);
      SelectedIsNearest(w, bits, dec.sig, x, m);
    }
  }

  lemma SameIsNearer(v: real, to: real)
    ensures Nearer(v, v, to, false) && Nearer(v, v, to, true)
  {
  }

  lemma NoShift(c: nat)
    ensures c * Pow(10, 0) == c
  {
  }

  lemma SelectedIsNearest(w: Width, bits: nat, d: nat, k: int, m: nat)
    requires IsFinite(w, bits) && Sig(w, bits) > 0 && -1074 <= Exp(w, bits) <= 971
    requires k == ComputeDecExp(Exp(w, bits), IsRegular(w, bits)) && d % 10 != 0
    requires IsShortest(d, Sig(w, bits), UlpOf(Exp(w, bits), IsRegular(w, bits)), IsRegular(w, bits))
    requires InRoundingInterval(w, bits, Value(m, k))
    ensures Nearer(Value(d, k), Value(m, k), Magnitude(w, bits), d % 2 == 0)
  {
    var v, s, e, regular := Value(m, k), Sig(w, bits), Exp(w, bits), IsRegular(w, bits);
    assert Magnitude(w, bits) == Units(s, e);
    SmallestNormalFields(w, bits);
    hide *;
    CodeIntervalIsInside(w, bits, v);
    if InCodeInterval(v, s, e, regular) {
      NearestOnScale(d, m, s, e, regular);
    } else {
      NearestAtSmallestNormal(w, bits, d, k, m);
    }
  }

  lemma SmallestNormalFields(w: Width, bits: nat)
    ensures IsSmallestNormal(w, bits) ==>
      Sig(w, bits) == ImplicitBit(w) && Exp(w, bits) == MinExp(w) && !IsRegular(w, bits)
  {
  }

  // ---------------------------------------------------------------- a single digit

  lemma UnitsOrder(a: nat, b: nat, e: int)
    ensures a <= b <==> Units(a, e) <= Units(b, e)
  {
    hide RPow;
    RealScaledOrder(a as real, b as real, RPow(2, e));
  }

  /** A unit of the float is at least one on the selection's scale. */
  lemma UnitsAtLeast(x: nat, e: int, regular: bool)
    requires -1334 <= e <= 2620
    ensures Value(x, ComputeDecExp(e, regular)) <= Units(x, e)
  {
    hide RPow, ComputeDecExp, UlpOf, Units;
    var k, ulp := ComputeDecExp(e, regular), UlpOf(e, regular);
    if regular { RegularUlp(e); } else { IrregularUlp(e); }
    Unscaled(x, e, regular);
    TimesBounds(x, ulp, 40);
    RealScaledOrder(x as real, Times(x, ulp), RPow(10, k));
  }

  /** The smallest subnormal floats on the selection's scale. */
  lemma SmallestUnits(w: Width)
    ensures var k, e := ComputeDecExp(MinExp(w), true), MinExp(w);
            if w.Bits64? then
              Units(3, e) < Value(20, k) && Units(4, e) > Value(19, k) && Units(5, e) > Value(18, k)
            else
              Units(13, e) < Value(20, k) && Units(13, e) > Value(18, k)
  {
    hide Pow, Units, Value;
    if w.Bits64? {
      PowerOf324();
      PowerOf1074();
      AgainstDecimal(3, 1074, 20, 324, TWO_1074, TEN_324);
      AgainstDecimal(4, 1074, 19, 324, TWO_1074, TEN_324);
      AgainstDecimal(5, 1074, 18, 324, TWO_1074, TEN_324);
    } else {
      PowersOf32();
      AgainstDecimal(13, 149, 20, 45, TWO_149, TEN_45);
      AgainstDecimal(13, 149, 18, 45, TWO_149, TEN_45);
    }
  }

  lemma SmallestBetween(w: Width, s: nat, k: int, e: int)
    requires s >= 1 && e == MinExp(w) && k == ComputeDecExp(e, true)
    requires Units(2 * s - 1, e) <= Value(18, k) && Value(20, k) <= Units(2 * s + 1, e)
    ensures Value(19, k) < Units(2 * s, e)
  {
    SmallestUnits(w);
    hide Units, Value, ComputeDecExp;
    if w.Bits64? {
      UnitsOrder(2 * s + 1, 3, e);
      UnitsOrder(5, 2 * s - 1, e);
    } else {
      UnitsOrder(2 * s + 1, 13, e);
      UnitsOrder(13, 2 * s - 1, e);
    }
  }

  /** A float whose interval holds both nine and ten lies nearer to ten. */
  lemma NineAndTen(w: Width, bits: nat, k: int)
    requires IsFinite(w, bits) && Sig(w, bits) >= 1 && k == ComputeDecExp(Exp(w, bits), IsRegular(w, bits))
    requires InRoundingInterval(w, bits, Value(9, k)) && InRoundingInterval(w, bits, Value(10, k))
    ensures Value(19, k) < Units(2 * Sig(w, bits), Exp(w, bits))
  {
    var s, e := Sig(w, bits), Exp(w, bits);
    HalfEnds(w, bits, k);
    BitsInRange(w, bits);
    UnitsAtLeast(2 * s - 1, e, IsRegular(w, bits));
    ValueOrder(2 * s - 1, 18, k);
    SmallIsSubnormal(w, bits);
    hide *;
    SmallestBetween(w, s, k, e);
  }

  lemma SmallIsSubnormal(w: Width, bits: nat)
    requires IsFinite(w, bits)
    ensures Sig(w, bits) <= 9 ==> Exp(w, bits) == MinExp(w) && IsRegular(w, bits)
  {
  }

  lemma HalfEnds(w: Width, bits: nat, k: int)
    requires Sig(w, bits) >= 1
    requires InRoundingInterval(w, bits, Value(9, k)) && InRoundingInterval(w, bits, Value(10, k))
    ensures var s, e := Sig(w, bits), Exp(w, bits);
            Units(2 * s - 1, e) <= Value(18, k) && Value(20, k) <= Units(2 * s + 1, e)
  {
    var s, e := Sig(w, bits), Exp(w, bits);
    hide Units, Value, Exp;
    UnitsAdd(4 * s - 2, 1, e);
    UnitsPositive(1, e);
    TwiceUnits(2 * s - 1, e);
    TwiceUnits(2 * s + 1, e);
    ValueAdd(9, 9, k);
    ValueAdd(10, 10, k);
  }

  /** `v` is above the other number; it is nearer if it is not above `to`, or less than half way. */
  lemma NearerFromAbove(v: real, other: real, to: real, even: bool)
    requires other < v && (v <= to || v + other < 2.0 * to)
    ensures Nearer(v, other, to, even)
  {
  }

  /** Ten against the multiples of a lower power of ten that have one digit. */
  lemma TenIsNearer(w: Width, bits: nat, table: int -> Uint128, x: int, y: real, even: bool)
    requires IsFinite(w, bits) && Sig(w, bits) > 0 && TrustedTable(w, bits, table)
    requires Value(1, x) == DecimalOf(w, bits, table) && x > Selected(w, bits, table).exp
    requires Selected(w, bits, table).sig % 10 == 0
    requires y <= Value(9, x - 1) && InRoundingInterval(w, bits, y)
    ensures Nearer(Value(1, x), y, Magnitude(w, bits), even)
  {
    var k := Selected(w, bits, table).exp;
    SelectedIsShortest(w, bits, table);
    assert Magnitude(w, bits) == Units(Sig(w, bits), Exp(w, bits));
    TenOfNext(x);
    hide *;
    PrintedIsInside(w, bits, table);
    ValueOrder(9, 10, x - 1);
    IntervalIsConvex(w, bits, y, Value(9, x - 1), Value(10, x - 1));
    if x - 1 > k {
      OnlyMultipleOfTen(w, bits, table, 9, x - 1 - k);
      SelectedValue(w, bits, table);
    } else {
      NineAndTen(w, bits, k);
      TwiceUnits(Sig(w, bits), Exp(w, bits));
      ValueAdd(9, 10, k);
    }
    NearerFromAbove(Value(1, x), y, Magnitude(w, bits), even);
  }

  lemma SelectedValue(w: Width, bits: nat, table: int -> Uint128)
    requires IsFinite(w, bits) && Sig(w, bits) > 0 && TrustedTable(w, bits, table)
    ensures DecimalOf(w, bits, table) == Value(Selected(w, bits, table).sig, Selected(w, bits, table).exp)
  {
  }

  lemma TenOfNext(x: int)
    ensures Value(10, x - 1) == Value(1, x)
  {
    ShiftValue(1, 1, x - 1);
    PowOne(10);
  }

  /** A number below one, on the selection's scale. */
  lemma NearerThanBelowOne(w: Width, bits: nat, table: int -> Uint128, c: nat, x: int, y: real)
    requires IsFinite(w, bits) && Sig(w, bits) > 0 && TrustedTable(w, bits, table)
    requires Value(c, x) == DecimalOf(w, bits, table) && c % 10 != 0 && x == Selected(w, bits, table).exp
    requires y < Value(1, x) && InRoundingInterval(w, bits, Value(1, x))
    ensures Nearer(Value(c, x), y, Magnitude(w, bits), c % 2 == 0)
  {
    SelectedIsShortest(w, bits, table);
    var mag, s, e := Magnitude(w, bits), Sig(w, bits), Exp(w, bits);
    assert mag == Units(s, e);
    hide *;
    NearestAtPlace(w, bits, table, c, x, 1);
    UnitsAtLeast(s, e, IsRegular(w, bits));
    ValueOrder(1, s, x);
    CloserOnTop(Value(1, x), y, mag);
    NearerThanNear(Value(c, x), Value(1, x), y, mag, c % 2 == 0);
  }

  /** A number printed with a place to spare is a power of ten if its interval reaches below that power. */
  lemma NearerThanBelowTen(w: Width, bits: nat, table: int -> Uint128, c: nat, x: int, y: real)
    requires IsFinite(w, bits) && Sig(w, bits) > 0 && TrustedTable(w, bits, table)
    requires Value(c, x) == DecimalOf(w, bits, table) && x > Selected(w, bits, table).exp
    requires Selected(w, bits, table).sig % 10 == 0 && InRoundingInterval(w, bits, Value(1, x))
    requires y <= Value(9, x - 1) && InRoundingInterval(w, bits, y)
    ensures Nearer(Value(c, x), y, Magnitude(w, bits), c % 2 == 0)
  {
    SelectedValue(w, bits, table);
    hide *;
    OnlyMultipleOfTen(w, bits, table, 1, x - Selected(w, bits, table).exp);
    TenIsNearer(w, bits, table, x, y, c % 2 == 0);
  }

  lemma PlaceOfPrinted(w: Width, bits: nat, table: int -> Uint128, c: nat, x: int)
    requires IsFinite(w, bits) && Sig(w, bits) > 0 && TrustedTable(w, bits, table)
    requires Value(c, x) == DecimalOf(w, bits, table) && c % 10 != 0
    ensures var dec := Selected(w, bits, table); x >= dec.exp && (x > dec.exp ==> dec.sig % 10 == 0)
  {
    SelectedValue(w, bits, table);
    var dec := Selected(w, bits, table);
    hide *;
    PlaceAt(c, x, dec.sig, dec.exp);
  }

  lemma PlaceAt(c: nat, x: int, d: nat, k: int)
    requires Value(c, x) == Value(d, k) && c % 10 != 0
    ensures x >= k && (x > k ==> d % 10 == 0)
  {
    NotBelowScale(c, x, d, k);
    hide *;
    if x > k {
      TensIn(c, x - k);
      TenTimesIsTens(c * Pow(10, x - k - 1));
    }
  }

  lemma TenTimesIsTens(a: nat)
    ensures 10 * a % 10 == 0
  {
  }

  lemma SingleDigits(w: Width, bits: nat, table: int -> Uint128, c: nat, x: int, m: nat, j: int)
    requires IsFinite(w, bits) && Sig(w, bits) > 0 && TrustedTable(w, bits, table)
    requires Value(c, x) == DecimalOf(w, bits, table) && c % 10 != 0
    requires m <= 9 && j < x && InRoundingInterval(w, bits, Value(m, j))
    ensures Nearer(Value(c, x), Value(m, j), Magnitude(w, bits), c % 2 == 0)
  {
    hide *;
    var y := Value(m, j);
    PrintedIsInside(w, bits, table);
    PlaceOfPrinted(w, bits, table, c, x);
    NineAtMost(m, j, x);
    ValueOrder(1, c, x);
    IntervalIsConvex(w, bits, y, Value(1, x), Value(c, x));
    if x > Selected(w, bits, table).exp {
      NearerThanBelowTen(w, bits, table, c, x, y);
    } else {
      NearerThanBelowOne(w, bits, table, c, x, y);
    }
  }

  lemma CloserOnTop(v: real, y: real, to: real)
    requires y < v <= to
    ensures Apart(v, to) < Apart(y, to)
  {
  }

  lemma NineAtMost(m: nat, j: int, x: int)
    requires m <= 9 && j < x
    ensures Value(m, j) <= Value(9, x - 1) < Value(1, x)
  {
    TenOfNext(x);
    var n := x - 1 - j;
    PowIsPositive(10, n);
    MulMono(m, 1, 9, Pow(10, n));
    hide Pow, Value;
    ValueOrder(m, 9 * Pow(10, n), j);
    ShiftValue(9, n, j);
    ValueOrder(9, 10, x - 1);
  }

  /**
   Of all decimals with at most as many digits that round to the same float, the printed number
   `c * 10^x` is the nearest to it, and of two that are as near the one with the even last digit.
   */
  lemma NearestOfItsLength(w: Width, bits: nat, table: int -> Uint128, c: nat, x: int, n: nat, m: nat, j: int)
    requires IsFinite(w, bits) && Sig(w, bits) > 0 && TrustedTable(w, bits, table)
    requires Value(c, x) == DecimalOf(w, bits, table) && c % 10 != 0
    requires Pow(10, n) <= c && m < Pow(10, n + 1)
    requires RoundsTo(w, bits, Signed(IsNegative(w, bits), Value(m, j)))
    ensures Nearer(DecimalOf(w, bits, table), Value(m, j), Magnitude(w, bits), c % 2 == 0)
  {
    hide *;
    RoundsToMeansInInterval(w, bits, Value(m, j));
    NearestInside(w, bits, table, c, x, n, m, j);
  }

  lemma NearestInside(w: Width, bits: nat, table: int -> Uint128, c: nat, x: int, n: nat, m: nat, j: int)
    requires IsFinite(w, bits) && Sig(w, bits) > 0 && TrustedTable(w, bits, table)
    requires Value(c, x) == DecimalOf(w, bits, table) && c % 10 != 0
    requires Pow(10, n) <= c && m < Pow(10, n + 1)
    requires InRoundingInterval(w, bits, Value(m, j))
    ensures Nearer(Value(c, x), Value(m, j), Magnitude(w, bits), c % 2 == 0)
  {
    hide *;
    if j > x {
      NoShorterRounds(w, bits, table, c, x, m, j);
    } else if j == x {
      NearestAtPlace(w, bits, table, c, x, m);
    } else if n == 0 {
      PowOne(10);
      SingleDigits(w, bits, table, c, x, m, j);
    } else {
      BelowPower(m, j, n + 1, n + x);
      NothingBelowPower(w, bits, table, c, x, n, Value(m, j));
    }
  }
}
