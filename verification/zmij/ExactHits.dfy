/**
 The exact hits of `FastPathProofs.HitsAreSafe` for every float: an exact half way point only
 arises where the table entry is exact, and an interval that ends on a multiple of ten only
 arises for few exponents, all of which keep clear of the grid.
 */
module ExactHits {

  import opened Powers
  import opened Multiply
  import opened Exponents
  import opened Decimal
  import opened DecimalProofs
  import opened FastPathProofs
  import opened Floats

  // ---------------------------------------------------------------- floats

  /** A finite regular float `s * 2^e`. */
  predicate IsFloat(w: Width, s: nat, e: int) {
    1 <= s < SigLimit(w) && MinExp(w) <= e <= MaxExp(w)
  }

  function DecExp(e: int): int
    requires -1334 <= e <= 2620
  {
    ComputeDecExp(e, true)
  }

  function ShiftOf(e: int): nat
    requires -1074 <= e <= 971
  {
    ShiftIsSmall(e, true);
    DoComputeExpShift(e, DecExp(e))
  }

  /** One unit in the last place, scaled by the power of ten: `2^e / 10^k`. */
  function Ulp(e: int): real
    requires -1334 <= e <= 2620
  {
    RPow(2, e) * RPow(10, -DecExp(e))
  }

  lemma UlpIsBetweenOneAndTen(e: int)
    requires -1334 <= e <= 2620
    ensures 1.0 <= Ulp(e) < 10.0
  {
    hide RPow, Pow, ComputeDecExp;
    var k := DecExp(e);
    DecExpIsFloorLog10(e);
    RPowFlip(10, k);
    RPowNext(k);
    QuotientRange(RPow(10, k), RPow(2, e), RPow(10, -k));
  }

  lemma QuotientRange(a: real, b: real, inverse: real)
    requires a <= b < 10.0 * a && a * inverse == 1.0 && inverse > 0.0
    ensures 1.0 <= b * inverse < 10.0
  {
    MulFrom(a, b, inverse, 1.0);
    MulTo(b, 10.0 * a, inverse, 10.0);
  }

  lemma MulFrom(a: real, b: real, inverse: real, p: real)
    requires a <= b && inverse > 0.0 && p == a * inverse
    ensures p <= b * inverse
  {
    RealMulMono(a, b, inverse);
  }

  lemma MulTo(a: real, b: real, inverse: real, p: real)
    requires a < b && inverse > 0.0 && p == b * inverse
    ensures a * inverse < p
  {
    RealMulMono(a, b, inverse);
  }

  lemma CancelInverse(a: real, b: real, inverse: real)
    requires b * inverse == 1.0
    ensures a * b * inverse == a && b * a * inverse == a
  {
    assert a * b * inverse == a * (b * inverse);
  }

  lemma RPowNext(k: int)
    ensures RPow(10, k + 1) == 10.0 * RPow(10, k)
  {
    if k < -1 {
      assert Pow(10, -k) == 10 * Pow(10, -k - 1);
    } else if k == -1 {
      assert Pow(10, 1) == 10 * Pow(10, 0);
    }
  }

  lemma RPowOfNat(b: nat, n: nat)
    requires b > 0
    ensures RPow(b, n) == Pow(b, n) as real
  {
  }

  /** The unit as a fraction of whole numbers. */
  lemma UlpRatio(e: int)
    requires -1334 <= e <= 2620
    ensures e >= 0 ==> 0 <= DecExp(e) <= e && Ulp(e) * Pow(10, DecExp(e)) as real == Pow(2, e) as real
    ensures e < 0 ==> 0 < -DecExp(e) <= -e && Ulp(e) * Pow(2, -e) as real == Pow(10, -DecExp(e)) as real
  {
    hide Pow, RPow;
    var k := DecExp(e);
    if e >= 0 {
      RPowFlip(10, k);
      RPowOfNat(10, k);
      RPowOfNat(2, e);
      CancelInverse(RPow(2, e), RPow(10, -k), RPow(10, k));
    } else {
      RPowFlip(2, e);
      RPowOfNat(10, -k);
      RPowOfNat(2, -e);
      CancelInverse(RPow(10, -k), RPow(2, e), RPow(2, -e));
    }
  }

  /** A multiple of the unit that is a whole number is an equation of whole numbers. */
  lemma TimesIsWhole(x: nat, e: int, n: nat)
    requires -1334 <= e <= 2620 && Times(x, Ulp(e)) == n as real
    ensures e >= 0 ==> x * Pow(2, e) == n * Pow(10, DecExp(e))
    ensures e < 0 ==> x * Pow(10, -DecExp(e)) == n * Pow(2, -e)
  {
    hide Pow, Ulp, DecExp, Times;
    var k, u := DecExp(e), Ulp(e);
    UlpRatio(e);
    TimesIs(x, u);
    if e >= 0 {
      CrossMultiply(x, u, n, Pow(10, k), Pow(2, e));
    } else {
      CrossMultiply(x, u, n, Pow(2, -e), Pow(10, -k));
    }
  }

  lemma TimesIs(x: nat, u: real)
    ensures Times(x, u) == x as real * u
  {
  }

  lemma CrossMultiply(x: nat, u: real, n: nat, p: nat, q: nat)
    requires x as real * u == n as real && u * p as real == q as real
    ensures x * q == n * p
  {
    assert (x * q) as real == x as real * (u * p as real);
    assert (n * p) as real == x as real * u * p as real;
  }

  // ---------------------------------------------------------------- parity and divisibility

  lemma OddTimesOdd(a: nat, b: nat)
    requires a % 2 == 1 && b % 2 == 1
    ensures (a * b) % 2 == 1
  {
    var i, j := a / 2, b / 2;
    assert a == 2 * i + 1 && b == 2 * j + 1;
    assert a * b == 2 * (2 * (i * j) + i + j) + 1;
  }

  lemma {:induction false} PowFiveIsOdd(n: nat)
    ensures Pow(5, n) % 2 == 1
  {
    if n > 0 {
      PowFiveIsOdd(n - 1);
    }
  }

  lemma {:induction false} PowTenSplits(n: nat)
    ensures Pow(10, n) == Pow(2, n) * Pow(5, n)
  {
    if n > 0 {
      PowTenSplits(n - 1);
      TenTimes(Pow(2, n - 1), Pow(5, n - 1));
    }
  }

  lemma TenTimes(p: nat, q: nat)
    ensures 10 * (p * q) == (2 * p) * (5 * q)
  {
  }

  /** A power of two that divides a product with an odd number divides the other factor. */
  lemma {:induction false} TwoPowerBound(s: nat, q: nat, c: nat, d: nat)
    requires s * q == c * Pow(2, d) && q % 2 == 1 && s >= 1
    ensures s >= Pow(2, d)
    decreases d
  {
    if d > 0 {
      var p := Pow(2, d - 1);
      assert Pow(2, d) == 2 * p;
      hide Pow;
      HalveFactor(s, q, c, p);
      TwoPowerBound(s / 2, q, c, d - 1);
    }
  }

  lemma HalveFactor(s: nat, q: nat, c: nat, p: nat)
    requires s * q == c * (2 * p) && q % 2 == 1
    ensures s % 2 == 0 && (s / 2) * q == c * p
  {
    assert s * q == 2 * (c * p);
    if s % 2 == 1 {
      OddTimesOdd(s, q);
    }
    assert s == 2 * (s / 2);
    assert s * q == 2 * ((s / 2) * q);
  }

  lemma {:induction false} FiveThroughTwo(a: nat, e: nat)
    requires a * Pow(2, e) % 5 == 0
    ensures a % 5 == 0
  {
    if e > 0 {
      TwiceTheProduct(a, Pow(2, e - 1));
      FiveThroughTwo(a, e - 1);
    }
  }

  lemma TwiceTheProduct(a: nat, p: nat)
    ensures a * (2 * p) == 2 * (a * p)
    ensures a * (2 * p) % 5 == 0 ==> a * p % 5 == 0
  {
    assert a * (2 * p) == 2 * (a * p);
  }

  lemma {:induction false} FivePowerBound(a: nat, e: nat, c: nat, j: nat)
    requires a * Pow(2, e) == c * Pow(5, j) && a >= 1
    ensures a >= Pow(5, j)
    decreases j
  {
    if j > 0 {
      var rest := c * Pow(5, j - 1);
      assert c * Pow(5, j) == 5 * rest;
      FiveThroughTwo(a, e);
      var t := a / 5;
      assert a * Pow(2, e) == 5 * (t * Pow(2, e));
      FivePowerBound(t, e, c, j - 1);
    }
  }

  /** An odd multiple of a power of five is no even multiple of a whole number. */
  lemma OddIsNotEven(a: nat, n: nat, even: nat)
    requires a % 2 == 1
    ensures a * Pow(5, n) != 2 * even
  {
    PowFiveIsOdd(n);
    OddTimesOdd(a, Pow(5, n));
  }

  // ---------------------------------------------------------------- exact half way points

  function ScaleExp(w: Width): nat {
    if w.Bits64? then 128 else 64
  }

  function SigExp(w: Width): nat {
    if w.Bits64? then 53 else 24
  }

  lemma WidthPowers(w: Width)
    ensures Scale(w) == Pow(2, ScaleExp(w)) && SigLimit(w) == Pow(2, SigExp(w))
  {
    LittlePowers();
    hide Pow;
    PowAdd(2, 8, 8);
    PowAdd(2, 16, 8);
    PowAdd(2, 16, 16);
    PowAdd(2, 32, 16);
    PowAdd(2, 48, 5);
    PowAdd(2, 32, 32);
    PowAdd(2, 64, 64);
  }

  lemma LittlePowers()
    ensures Pow(2, 8) == 256 && Pow(2, 5) == 32
  {
    assert Pow(2, 2) == 4;
    assert Pow(2, 5) == 32;
  }

  /** When the power is a whole number in the entry's scale, entry and product are exact. */
  lemma ExactEntry(w: Width, s: nat, pow10: Uint128, shift: nat, ulp: real, exact: nat)
    requires s >= 1 && Accurate(w, pow10, shift, ulp) && Pow(2, shift) > 0
    requires UlpMark(w, ulp) == (exact * Pow(2, shift)) as real
    ensures ValueMark(w, s, ulp) == FastProduct(w, s, shift, pow10) as real
  {
    hide Entry, Accurate, UlpMark, ValueMark, Pow;
    EntryIs(w, pow10, shift, ulp, exact);
    ValueOfUlp(w, s, ulp);
    WholeProduct(s, exact, Pow(2, shift));
  }

  lemma EntryIs(w: Width, pow10: Uint128, shift: nat, ulp: real, exact: nat)
    requires Accurate(w, pow10, shift, ulp) && Pow(2, shift) > 0
    requires UlpMark(w, ulp) == (exact * Pow(2, shift)) as real
    ensures Entry(w, pow10) == exact
  {
    hide Entry, Scale, Pow;
    BetweenMultiples(Entry(w, pow10), Pow(2, shift), exact);
  }

  lemma ValueOfUlp(w: Width, s: nat, ulp: real)
    ensures ValueMark(w, s, ulp) == s as real * UlpMark(w, ulp)
  {
    RealAssoc(s as real, ulp, Scale(w) as real);
  }

  lemma WholeProduct(s: nat, g: nat, a: nat)
    ensures s as real * (g * a) as real == (g * (s * a)) as real
  {
    assert s * (g * a) == g * (s * a);
    assert (s * (g * a)) as real == s as real * (g * a) as real;
  }

  lemma BetweenMultiples(g: nat, a: nat, exact: nat)
    requires a > 0 && g * a <= exact * a < (g + 1) * a
    ensures g == exact
  {
    MulNext(exact, a);
    SmallFactor(exact, g + 1, a);
    SmallFactor(g, exact + 1, a);
  }

  /** A small negative exponent: the power of ten is a whole number in the entry's scale. */
  lemma SmallPowerIsExact(w: Width, e: int, bits: nat)
    requires -1074 <= e < 0
    requires -e + ShiftOf(e) + bits == -DecExp(e) + ScaleExp(w)
    ensures UlpMark(w, Ulp(e)) == (Pow(5, -DecExp(e)) * Pow(2, bits) * Pow(2, ShiftOf(e))) as real
  {
    hide Ulp, DecExp, ShiftOf, Pow, UlpMark;
    UlpRatio(e);
    TenTimesScale(-DecExp(e), ScaleExp(w), bits, ShiftOf(e), -e);
    MarkFromRatio(w, Ulp(e), Pow(2, -e), Pow(10, -DecExp(e)), Pow(5, -DecExp(e)) * Pow(2, bits) * Pow(2, ShiftOf(e)));
  }

  lemma MarkFromRatio(w: Width, u: real, f: nat, t: nat, r: nat)
    requires f > 0 && u * f as real == t as real && t * Pow(2, ScaleExp(w)) == r * f
    ensures UlpMark(w, u) == r as real
  {
    hide Pow;
    WidthPowers(w);
    CancelPower(u, f, t, Pow(2, ScaleExp(w)), r);
  }

  lemma TenTimesScale(m: nat, scale: nat, bits: nat, h: nat, f: nat)
    requires bits + h + f == m + scale
    ensures Pow(10, m) * Pow(2, scale) == Pow(5, m) * Pow(2, bits) * Pow(2, h) * Pow(2, f)
  {
    hide Pow;
    SameExponent(m, scale, bits + h, f);
    PowTenSplits(m);
    PowAdd(2, bits, h);
    Regroup(Pow(10, m), Pow(2, m), Pow(5, m), Pow(2, scale), Pow(2, bits), Pow(2, h), Pow(2, bits + h), Pow(2, f));
  }

  lemma SameExponent(a: nat, b: nat, c: nat, d: nat)
    requires a + b == c + d
    ensures Pow(2, a) * Pow(2, b) == Pow(2, c) * Pow(2, d)
  {
    hide Pow;
    PowAdd(2, a, b);
    PowAdd(2, c, d);
    assert Pow(2, a + b) == Pow(2, c + d);
  }

  lemma Regroup(ten: nat, two: nat, five: nat, scale: nat, b: nat, h: nat, bh: nat, f: nat)
    requires ten == two * five && bh == b * h && two * scale == bh * f
    ensures ten * scale == five * b * h * f
  {
    assert ten * scale == five * (two * scale);
    Powers.MulAssoc(five, b, h);
    Powers.MulAssoc(five, bh, f);
  }

  lemma CancelPower(u: real, f: nat, t: nat, b: nat, r: nat)
    requires f > 0 && u * f as real == t as real && t * b == r * f
    ensures u * b as real == r as real
  {
    assert (t * b) as real == t as real * b as real;
    assert (r * f) as real == r as real * f as real;
    assert u * f as real * b as real == (u * b as real) * f as real;
    CancelReal(u * b as real, r as real, f as real);
  }

  lemma CancelReal(x: real, y: real, f: real)
    requires f > 0.0 && x * f == y * f
    ensures x == y
  {
    RealMulMono(x, y, f);
    RealMulMono(y, x, f);
  }

  /** Cancelling a common power of two. */
  lemma CancelTwos(x: nat, y: nat, i: nat, j: nat)
    requires i <= j && x * Pow(2, i) == y * Pow(2, j)
    ensures x == y * Pow(2, j - i)
  {
    PowAdd(2, j - i, i);
    hide Pow;
    var p, q := Pow(2, i), Pow(2, j - i);
    Powers.MulAssoc(y, q, p);
    CancelFactor(x, y * q, p);
  }

  /** An exact half way point only arises where the entry is exact. */
  lemma MiddleIsExact(w: Width, s: nat, e: int, pow10: Uint128, n: nat)
    requires IsFloat(w, s, e) && Accurate(w, pow10, ShiftOf(e), Ulp(e)) && MiddleAt(n, s, Ulp(e))
    ensures ValueMark(w, s, Ulp(e)) == FastProduct(w, s, ShiftOf(e), pow10) as real
  {
    hide Ulp, ShiftOf, Pow, DecExp, Accurate, Times;
    UlpRatio(e);
    TimesIsWhole(4 * s, e, 4 * n + 2);
    if e >= 0 {
      MiddleNeedsNegative(s, n, e, DecExp(e));
    } else {
      MiddleBoundsExponent(w, s, n, -e, -DecExp(e));
      NegativeIsExact(w, s, e, pow10);
    }
  }

  lemma NegativeIsExact(w: Width, s: nat, e: int, pow10: Uint128)
    requires s >= 1 && -1074 <= e < 0 && Accurate(w, pow10, ShiftOf(e), Ulp(e))
    requires -e <= -DecExp(e) + SigExp(w)
    ensures ValueMark(w, s, Ulp(e)) == FastProduct(w, s, ShiftOf(e), pow10) as real
  {
    hide Ulp, ShiftOf, Pow, DecExp, Accurate, ValueMark, UlpMark, FastProduct;
    UlpRatio(e);
    ShiftRange(e);
    var bits := -DecExp(e) + ScaleExp(w) + e - ShiftOf(e);
    SmallPowerIsExact(w, e, bits);
    MulMono(0, 0, Pow(5, -DecExp(e)), Pow(2, bits));
    ExactEntry(w, s, pow10, ShiftOf(e), Ulp(e), Pow(5, -DecExp(e)) * Pow(2, bits));
  }

  lemma ShiftRange(e: int)
    requires -1074 <= e <= 971
    ensures 1 <= ShiftOf(e) <= 4
  {
    ShiftIsSmall(e, true);
  }

  lemma MiddleNeedsNegative(s: nat, n: nat, e: nat, k: nat)
    requires k <= e
    ensures 4 * s * Pow(2, e) != (4 * n + 2) * Pow(10, k)
  {
    PowTenSplits(k);
    hide Pow;
    var p5 := Pow(5, k);
    if 4 * s * Pow(2, e) == (4 * n + 2) * Pow(10, k) {
      Regroup2(4 * s * Pow(2, e), 2 * n + 1, Pow(2, k), p5);
      CancelTwos((2 * n + 1) * p5, 2 * s, k, e);
      Powers.MulAssoc(2, s, Pow(2, e - k));
      OddIsNotEven(2 * n + 1, k, s * Pow(2, e - k));
    }
  }

  lemma Regroup2(left: nat, odd: nat, p2: nat, p5: nat)
    requires left == 2 * odd * (p2 * p5)
    ensures 2 * (odd * p5 * p2) == left
  {
    assert odd * (p2 * p5) == odd * p5 * p2;
  }

  lemma MiddleBoundsExponent(w: Width, s: nat, n: nat, f: nat, m: nat)
    requires 1 <= s < SigLimit(w) && 4 * s * Pow(10, m) == (4 * n + 2) * Pow(2, f)
    ensures f <= m + SigExp(w)
  {
    if f > m + SigExp(w) {
      PowTenSplits(m);
      WidthPowers(w);
      PowFiveIsOdd(m);
      hide Pow, SigLimit;
      var p5 := Pow(5, m);
      assert s * p5 * Pow(2, m + 1) == (2 * n + 1) * Pow(2, f) by {
        PowAdd(2, m, 1);
        PowOne(2);
        Regroup3(s, n, p5, Pow(2, m), Pow(2, f));
        Powers.MulAssoc(s * p5, Pow(2, m), 2);
      }
      CancelTwos(s * p5, 2 * n + 1, m + 1, f);
      TwoPowerBound(s, p5, 2 * n + 1, f - (m + 1));
      PowMonoExp(2, SigExp(w), f - (m + 1));
    }
  }

  lemma Regroup3(s: nat, n: nat, p5: nat, p2: nat, right: nat)
    requires 4 * s * (p2 * p5) == (4 * n + 2) * right
    ensures s * p5 * p2 * 2 == (2 * n + 1) * right
  {
    assert s * (p2 * p5) == s * p5 * p2;
    assert (4 * n + 2) * right == 2 * ((2 * n + 1) * right);
  }

  // ---------------------------------------------------------------- ends on a multiple of ten

  /** An end on a multiple of ten is impossible below zero, and gives a power of five above. */
  lemma EndNeedsNonNegative(a: nat, m: nat, f: nat, k: nat)
    requires a % 2 == 1 && k < f + 2
    ensures 2 * a * Pow(10, k) != 40 * m * Pow(2, f)
  {
    hide Pow;
    if 2 * a * Pow(10, k) == 40 * m * Pow(2, f) {
      EndWithoutTwos(a, m, f, k);
      OddIsNoPower(a, k, 5 * m, f + 2 - k);
    }
  }

  lemma EndWithoutTwos(a: nat, m: nat, f: nat, k: nat)
    requires k < f + 2 && 2 * a * Pow(10, k) == 40 * m * Pow(2, f)
    ensures a * Pow(5, k) == 5 * m * Pow(2, f + 2 - k)
  {
    FirstPowersOfTwo();
    hide Pow;
    PowTenSplits(k);
    PowAdd(2, 2, f);
    Regroup4(a, Pow(10, k), Pow(5, k), Pow(2, k), m, Pow(2, f), Pow(2, f + 2));
    CancelTwos(a * Pow(5, k), 5 * m, k, f + 2);
  }

  lemma OddIsNoPower(a: nat, k: nat, y: nat, d: nat)
    requires a % 2 == 1 && d > 0
    ensures a * Pow(5, k) != y * Pow(2, d)
  {
    PowAdd(2, 1, d - 1);
    PowOne(2);
    EvenProduct(y, Pow(2, d - 1));
    OddIsNotEven(a, k, y * Pow(2, d - 1));
  }

  lemma EvenProduct(x: nat, p: nat)
    ensures x * (2 * p) == 2 * (x * p)
  {
  }

  lemma Regroup4(a: nat, p10: nat, p5: nat, p2: nat, m: nat, right: nat, four: nat)
    requires p10 == p2 * p5 && four == 4 * right && 2 * a * p10 == 40 * m * right
    ensures a * p5 * p2 == 5 * m * four
  {
    assert 2 * a * (p2 * p5) == 2 * (a * p5 * p2);
    assert 40 * m * right == 2 * (5 * m * (4 * right));
  }

  lemma EndBoundsPower(a: nat, m: nat, e: nat, k: nat)
    requires a >= 1 && 2 * a * Pow(2, e) == 40 * m * Pow(10, k)
    ensures a >= Pow(5, k + 1)
  {
    PowTenSplits(k);
    assert Pow(5, k + 1) == 5 * Pow(5, k);
    hide Pow;
    var p5, p2 := Pow(5, k), Pow(2, k);
    Regroup5(a, Pow(2, e), m, p2, p5);
    FivePowerBound(a, e, 4 * m * p2, k + 1);
  }

  lemma Regroup5(a: nat, p: nat, m: nat, p2: nat, p5: nat)
    requires 2 * a * p == 40 * m * (p2 * p5)
    ensures a * p == 4 * m * p2 * (5 * p5)
  {
    assert 2 * a * p == 2 * (a * p);
    assert 40 * m * (p2 * p5) == 2 * (4 * m * p2 * (5 * p5));
  }

  // ---------------------------------------------------------------- clear of the grid

  /** How many times the largest error of a product fits between two grid points, per shift. */
  function Slack(w: Width): nat {
    if w.Bits64? then 0x8000 else 0x100
  }

  /** `n / d` is farther from every whole number than `a` times the largest error. */
  predicate Clear(w: Width, n: nat, d: nat, a: nat)
    requires d > 0
  {
    var r := n % d;
    r * Slack(w) >= a * d && (d - r) * Slack(w) >= a * d
  }

  /** Half a unit in the last place on the grid is `HalfNumerator / 5^k`. */
  function HalfNumerator(w: Width, e: int): nat
    requires 4 <= e <= 971
  {
    FractionBitsOf(w) * Pow(2, e - 1 - DecExp(e))
  }

  predicate ClearAt(w: Width, e: int)
    requires 4 <= e <= 971
  {
    DecExp(e) >= 1 && Clear(w, HalfNumerator(w, e), Pow(5, DecExp(e)), Pow(2, ShiftOf(e)))
  }

  /** The numbers of one decimal exponent; each exponent doubles the numerator and the error. */
  lemma Decade(w: Width, k: nat, e0: nat, count: nat, n: nat, d: nat)
    requires 4 <= e0 <= 74 && 3 <= count <= 4 && d > 0
    requires DecExp(e0) == k >= 1 && DecExp(e0 + count - 1) == k && DecExp(e0 + count) == k + 1
    requires ShiftOf(e0) == 1 && ShiftOf(e0 + 1) == 2 && ShiftOf(e0 + 2) == 3 && (count == 4 ==> ShiftOf(e0 + 3) == 4)
    requires n == FractionBitsOf(w) * Pow(2, e0 - 1 - k) && d == Pow(5, k)
    requires Clear(w, n, d, 2) && Clear(w, 2 * n, d, 4) && Clear(w, 4 * n, d, 8)
             && (count == 4 ==> Clear(w, 8 * n, d, 16))
    ensures forall e :: e0 <= e < e0 + count ==> ClearAt(w, e)
    ensures FractionBitsOf(w) * Pow(2, e0 + count - 2 - k) == (if count == 4 then 8 else 4) * n
    ensures Pow(5, k + 1) == 5 * d
  {
    hide *;
    FirstPowersOfTwo();
    BelowExp(e0);
    Monotone(e0, count);
    Numerators(FractionBitsOf(w), e0 - 1 - k, n);
    PowNext(5, k);
    DecadeAt(w, k, e0, n, d);
    DecadeAt(w, k, e0 + 1, 2 * n, d);
    DecadeAt(w, k, e0 + 2, 4 * n, d);
    if count == 4 {
      DecadeAt(w, k, e0 + 3, 8 * n, d);
    }
  }

  lemma BelowExp(e: nat)
    requires 4 <= e <= 74
    ensures DecExp(e) <= e - 1
  {
  }

  lemma PowNext(b: nat, n: nat)
    ensures Pow(b, n + 1) == b * Pow(b, n)
  {
  }

  lemma Numerators(f: nat, x: nat, n: nat)
    requires n == f * Pow(2, x)
    ensures f * Pow(2, x + 1) == 2 * n && f * Pow(2, x + 2) == 4 * n && f * Pow(2, x + 3) == 8 * n
  {
    hide Pow;
    Doubled(f, x);
    Doubled(f, x + 1);
    Doubled(f, x + 2);
  }

  lemma DecadeAt(w: Width, k: nat, e: nat, n: nat, d: nat)
    requires 4 <= e <= 971 && DecExp(e) == k >= 1 && d > 0
    requires n == FractionBitsOf(w) * Pow(2, e - 1 - k) && d == Pow(5, k) && Clear(w, n, d, Pow(2, ShiftOf(e)))
    ensures ClearAt(w, e)
  {
    hide Pow, Clear, ShiftOf;
  }

  lemma Monotone(e0: nat, count: nat)
    requires e0 <= 100 && 3 <= count <= 4 && DecExp(e0) == DecExp(e0 + count - 1)
    ensures DecExp(e0 + 1) == DecExp(e0 + 2) == DecExp(e0)
  {
    MonotoneDecExp(e0, e0 + 1);
    MonotoneDecExp(e0 + 1, e0 + 2);
    MonotoneDecExp(e0 + 2, e0 + count - 1);
  }

  lemma MonotoneDecExp(a: nat, b: nat)
    requires a <= b <= 2000
    ensures DecExp(a) <= DecExp(b)
  {
  }

  lemma Doubled(f: nat, x: nat)
    ensures f * Pow(2, x + 1) == 2 * (f * Pow(2, x))
  {
    hide Pow;
    PowAdd(2, 1, x);
    PowOne(2);
  }

  lemma Decades64_1()
    requires FractionBitsOf(Bits64) * Pow(2, 2) == 0x4000000000000000 && Pow(5, 1) == 5
    ensures forall e :: 4 <= e < 14 ==> ClearAt(Bits64, e)
    ensures FractionBitsOf(Bits64) * Pow(2, 9) == 0x200000000000000000 && Pow(5, 4) == 625
  {
    hide Pow, ClearAt, FractionBitsOf;
    Decade(Bits64, 1, 4, 3, 0x4000000000000000, 5);
    Decade(Bits64, 2, 7, 3, 0x10000000000000000, 25);
    Decade(Bits64, 3, 10, 4, 0x40000000000000000, 125);
  }

  lemma Decades64_2()
    requires FractionBitsOf(Bits64) * Pow(2, 9) == 0x200000000000000000 && Pow(5, 4) == 625
    ensures forall e :: 14 <= e < 24 ==> ClearAt(Bits64, e)
    ensures FractionBitsOf(Bits64) * Pow(2, 16) == 0x10000000000000000000 && Pow(5, 7) == 78125
  {
    hide Pow, ClearAt, FractionBitsOf;
    Decade(Bits64, 4, 14, 3, 0x200000000000000000, 625);
    Decade(Bits64, 5, 17, 3, 0x800000000000000000, 3125);
    Decade(Bits64, 6, 20, 4, 0x2000000000000000000, 15625);
  }

  lemma Decades64_3()
    requires FractionBitsOf(Bits64) * Pow(2, 16) == 0x10000000000000000000 && Pow(5, 7) == 78125
    ensures forall e :: 24 <= e < 34 ==> ClearAt(Bits64, e)
    ensures FractionBitsOf(Bits64) * Pow(2, 23) == 0x800000000000000000000 && Pow(5, 10) == 9765625
  {
    hide Pow, ClearAt, FractionBitsOf;
    Decade(Bits64, 7, 24, 3, 0x10000000000000000000, 78125);
    Decade(Bits64, 8, 27, 3, 0x40000000000000000000, 390625);
    Decade(Bits64, 9, 30, 4, 0x100000000000000000000, 1953125);
  }

  lemma Decades64_4()
    requires FractionBitsOf(Bits64) * Pow(2, 23) == 0x800000000000000000000 && Pow(5, 10) == 9765625
    ensures forall e :: 34 <= e < 44 ==> ClearAt(Bits64, e)
    ensures FractionBitsOf(Bits64) * Pow(2, 30) == 0x40000000000000000000000 && Pow(5, 13) == 1220703125
  {
    hide Pow, ClearAt, FractionBitsOf;
    Decade(Bits64, 10, 34, 3, 0x800000000000000000000, 9765625);
    Decade(Bits64, 11, 37, 3, 0x2000000000000000000000, 48828125);
    Decade(Bits64, 12, 40, 4, 0x8000000000000000000000, 244140625);
  }

  lemma Decades64_5()
    requires FractionBitsOf(Bits64) * Pow(2, 30) == 0x40000000000000000000000 && Pow(5, 13) == 1220703125
    ensures forall e :: 44 <= e < 54 ==> ClearAt(Bits64, e)
    ensures FractionBitsOf(Bits64) * Pow(2, 37) == 0x2000000000000000000000000 && Pow(5, 16) == 152587890625
  {
    hide Pow, ClearAt, FractionBitsOf;
    Decade(Bits64, 13, 44, 3, 0x40000000000000000000000, 1220703125);
    Decade(Bits64, 14, 47, 3, 0x100000000000000000000000, 6103515625);
    Decade(Bits64, 15, 50, 4, 0x400000000000000000000000, 30517578125);
  }

  lemma Decades64_6()
    requires FractionBitsOf(Bits64) * Pow(2, 37) == 0x2000000000000000000000000 && Pow(5, 16) == 152587890625
    ensures forall e :: 54 <= e < 64 ==> ClearAt(Bits64, e)
    ensures FractionBitsOf(Bits64) * Pow(2, 44) == 0x100000000000000000000000000 && Pow(5, 19) == 19073486328125
  {
    hide Pow, ClearAt, FractionBitsOf;
    Decade(Bits64, 16, 54, 3, 0x2000000000000000000000000, 152587890625);
    Decade(Bits64, 17, 57, 3, 0x8000000000000000000000000, 762939453125);
    Decade(Bits64, 18, 60, 4, 0x20000000000000000000000000, 3814697265625);
  }

  lemma Decades64_7()
    requires FractionBitsOf(Bits64) * Pow(2, 44) == 0x100000000000000000000000000 && Pow(5, 19) == 19073486328125
    ensures forall e :: 64 <= e < 74 ==> ClearAt(Bits64, e)
    ensures FractionBitsOf(Bits64) * Pow(2, 51) == 0x8000000000000000000000000000 && Pow(5, 22) == 2384185791015625
  {
    hide Pow, ClearAt, FractionBitsOf;
    Decade(Bits64, 19, 64, 3, 0x100000000000000000000000000, 19073486328125);
    Decade(Bits64, 20, 67, 3, 0x400000000000000000000000000, 95367431640625);
    Decade(Bits64, 21, 70, 4, 0x1000000000000000000000000000, 476837158203125);
  }

  lemma Decades64_8()
    requires FractionBitsOf(Bits64) * Pow(2, 51) == 0x8000000000000000000000000000 && Pow(5, 22) == 2384185791015625
    ensures forall e :: 74 <= e < 77 ==> ClearAt(Bits64, e)
    ensures FractionBitsOf(Bits64) * Pow(2, 53) == 0x20000000000000000000000000000 && Pow(5, 23) == 11920928955078125
  {
    hide Pow, ClearAt, FractionBitsOf;
    Decade(Bits64, 22, 74, 3, 0x8000000000000000000000000000, 2384185791015625);
  }

  lemma Decades32_1()
    requires FractionBitsOf(Bits32) * Pow(2, 2) == 0x400000000 && Pow(5, 1) == 5
    ensures forall e :: 4 <= e < 14 ==> ClearAt(Bits32, e)
    ensures FractionBitsOf(Bits32) * Pow(2, 9) == 0x20000000000 && Pow(5, 4) == 625
  {
    hide Pow, ClearAt, FractionBitsOf;
    Decade(Bits32, 1, 4, 3, 0x400000000, 5);
    Decade(Bits32, 2, 7, 3, 0x1000000000, 25);
    Decade(Bits32, 3, 10, 4, 0x4000000000, 125);
  }

  lemma Decades32_2()
    requires FractionBitsOf(Bits32) * Pow(2, 9) == 0x20000000000 && Pow(5, 4) == 625
    ensures forall e :: 14 <= e < 24 ==> ClearAt(Bits32, e)
    ensures FractionBitsOf(Bits32) * Pow(2, 16) == 0x1000000000000 && Pow(5, 7) == 78125
  {
    hide Pow, ClearAt, FractionBitsOf;
    Decade(Bits32, 4, 14, 3, 0x20000000000, 625);
    Decade(Bits32, 5, 17, 3, 0x80000000000, 3125);
    Decade(Bits32, 6, 20, 4, 0x200000000000, 15625);
  }

  lemma Decades32_3()
    requires FractionBitsOf(Bits32) * Pow(2, 16) == 0x1000000000000 && Pow(5, 7) == 78125
    ensures forall e :: 24 <= e < 34 ==> ClearAt(Bits32, e)
    ensures FractionBitsOf(Bits32) * Pow(2, 23) == 0x80000000000000 && Pow(5, 10) == 9765625
  {
    hide Pow, ClearAt, FractionBitsOf;
    Decade(Bits32, 7, 24, 3, 0x1000000000000, 78125);
    Decade(Bits32, 8, 27, 3, 0x4000000000000, 390625);
    Decade(Bits32, 9, 30, 4, 0x10000000000000, 1953125);
  }

  /** Every exponent at which a float's interval can end on a multiple of ten is clear. */
  lemma AllClear(w: Width, e: int)
    requires 4 <= e <= if w.Bits64? then 76 else 33
    ensures ClearAt(w, e)
  {
    assert Pow(2, 2) == 4 && Pow(5, 1) == 5;
    hide Pow, ClearAt;
    if w.Bits64? {
      Decades64_1();
      Decades64_2();
      Decades64_3();
      Decades64_4();
      Decades64_5();
      Decades64_6();
      Decades64_7();
      Decades64_8();
    } else {
      Decades32_1();
      Decades32_2();
      Decades32_3();
    }
  }

  // ---------------------------------------------------------------- the hits are safe

  /** A value `r / d` of a grid unit above the grid point `q`, with room for the error below it. */
  lemma ClearOfGrid(v: real, z: nat, err: nat, grid: nat, d: nat, q: int, r: nat)
    requires z as real <= v < (z + err) as real && grid > 0 && d > 0
    requires v * d as real == ((q * d + r) * grid) as real
    requires r < d && r * grid >= err * d
    ensures v < ((z / grid + 1) * grid) as real
  {
    var qg := q * grid;
    assert (q * d + r) * grid == qg * d + r * grid by {
      assert (q * d + r) * grid == q * d * grid + r * grid;
      assert q * d * grid == q * grid * d;
    }
    MulMonoStrict(r, d, grid);
    DivideReal(v, qg + err, qg + grid, d, qg * d + r * grid);
    AtLeastGridPoint(z, q, grid);
    assert (q + 1) * grid == qg + grid;
    MulMonoInt(q + 1, z / grid + 1, grid);
  }

  lemma MulMonoStrict(r: nat, d: nat, grid: nat)
    requires r < d && grid > 0
    ensures r * grid < grid * d
  {
    MulMono(r, grid, d, grid);
  }

  lemma MulMonoInt(a: int, b: int, grid: nat)
    requires a <= b
    ensures a * grid <= b * grid
  {
    assert (b - a) * grid >= 0;
    assert (b - a) * grid == b * grid - a * grid;
  }

  lemma AtLeastGridPoint(z: nat, q: int, grid: nat)
    requires grid > 0
    ensures z >= q * grid ==> z / grid >= q
  {
    if z >= q * grid && z / grid < q {
      MulMonoInt(z / grid + 1, q, grid);
    }
  }

  lemma DivideReal(v: real, low: int, high: int, d: nat, total: int)
    requires d > 0 && v * d as real == total as real && low * d <= total < high * d
    ensures low as real <= v < high as real
  {
    assert (low * d) as real == low as real * d as real;
    assert (high * d) as real == high as real * d as real;
    if v < low as real {
      RealMulMono(v, low as real, d as real);
    }
    if v >= high as real {
      RealMulMono(high as real, v, d as real);
    }
  }

  // Products by name: they keep nonlinear terms out of proofs that only pass them on.

  predicate Product(z: nat, x: nat, y: nat) {
    z == x * y
  }

  predicate RealProduct(z: real, x: real, y: nat) {
    z == x * y as real
  }

  lemma UlpTimesTen(e: int)
    requires 0 <= e <= 2620
    ensures DecExp(e) >= 0 && RealProduct(Pow(2, e) as real, Ulp(e), Pow(10, DecExp(e)))
  {
    hide Pow, Ulp, DecExp;
    UlpRatio(e);
  }

  lemma TenIsProduct(k: nat)
    ensures Product(Pow(10, k), Pow(2, k), Pow(5, k))
  {
    hide Pow;
    PowTenSplits(k);
  }

  lemma PowSplit(k: nat, e: nat)
    requires k < e
    ensures Product(Pow(2, e), Pow(2, k), 2 * Pow(2, e - 1 - k))
  {
    hide Pow;
    PowAdd(2, k, e - k);
    PowNext(2, e - 1 - k);
  }

  lemma UlpMarkIsProduct(w: Width, u: real)
    ensures RealProduct(UlpMark(w, u), u, Scale(w))
  {
    hide Scale;
  }

  lemma GridProducts(w: Width, e: int)
    requires 4 <= e <= 971
    ensures 0 <= DecExp(e) < e
    ensures Product(HalfNumerator(w, e), FractionBitsOf(w), Pow(2, e - 1 - DecExp(e)))
    ensures Product(Scale(w), FractionBitsOf(w), Grid(w))
  {
    hide Pow;
  }

  /** Twice the half numerator over the power of five is one unit on the grid. */
  lemma UnitOnGrid(w: Width, e: int)
    requires 4 <= e <= 971
    ensures UlpMark(w, Ulp(e)) * Pow(5, DecExp(e)) as real == (2 * HalfNumerator(w, e) * Grid(w)) as real
  {
    hide *;
    GridProducts(w, e);
    UlpTimesTen(e);
    TenIsProduct(DecExp(e));
    PowSplit(DecExp(e), e);
    UlpMarkIsProduct(w, Ulp(e));
    UnitCross(Ulp(e), Pow(10, DecExp(e)), Pow(2, e), Pow(2, DecExp(e)), Pow(5, DecExp(e)), Pow(2, e - 1 - DecExp(e)),
              FractionBitsOf(w), Grid(w), Scale(w), HalfNumerator(w, e), UlpMark(w, Ulp(e)));
  }

  lemma UnitCross(u: real, tens: nat, twos: nat, p2: nat, p5: nat, rest: nat, f: nat, grid: nat, scale: nat, half: nat,
                  mark: real)
    requires p2 > 0 && RealProduct(twos as real, u, tens) && Product(tens, p2, p5) && Product(twos, p2, 2 * rest)
    requires Product(scale, f, grid) && Product(half, f, rest) && RealProduct(mark, u, scale)
    ensures mark * p5 as real == (2 * half * grid) as real
  {
    UnitCancel(u, p2, p5, rest);
    assert mark * p5 as real == u * scale as real * p5 as real;
    assert u * scale as real * p5 as real == (u * p5 as real) * scale as real;
    assert (2 * rest) as real * scale as real == (2 * rest * scale) as real;
    assert 2 * rest * scale == 2 * half * grid by {
      assert 2 * rest * (f * grid) == 2 * (f * rest) * grid;
    }
  }

  lemma UnitCancel(u: real, p2: nat, p5: nat, rest: nat)
    requires p2 > 0 && u * (p2 * p5) as real == (p2 * (2 * rest)) as real
    ensures u * p5 as real == (2 * rest) as real
  {
    assert (p2 * p5) as real == p2 as real * p5 as real;
    assert (p2 * (2 * rest)) as real == p2 as real * (2 * rest) as real;
    assert u * (p2 as real * p5 as real) == (u * p5 as real) * p2 as real;
    CancelReal(u * p5 as real, (2 * rest) as real, p2 as real);
  }

  /** The largest error of a product, times the power of five, is below the cleared distance. */
  lemma ErrorFits(w: Width, s: nat, shift: nat, r: nat, d: nat)
    requires s < SigLimit(w) && r * Slack(w) >= Pow(2, shift) * d
    ensures r * Grid(w) >= Shl(s, shift) * d
  {
    assert Slack(w) * SigLimit(w) == Grid(w);
    hide Slack, SigLimit, Grid, Pow;
    var a := Pow(2, shift);
    MulMono(a * d, SigLimit(w), r * Slack(w), SigLimit(w));
    Powers.MulAssoc(r, Slack(w), SigLimit(w));
    MulMono(s, a * d, SigLimit(w), a * d);
    Powers.MulAssoc(s, a, d);
  }

  /** The value at an exact hit, from the multiple of ten and half a unit: `sign` tells the end. */
  lemma HitValue(v: real, u: real, m: nat, f: nat, grid: nat, d: nat, n: nat, sign: int)
    requires 4.0 * v - 2.0 * sign as real * u == (40 * m * (f * grid)) as real
    requires u * d as real == (2 * n * grid) as real
    ensures v * d as real == ((10 * m * f * d + sign * n) * grid) as real
  {
    var s := sign as real;
    assert 4.0 * (v * d as real) - 2.0 * s * (u * d as real) == (4.0 * v - 2.0 * s * u) * d as real;
    assert (40 * m * (f * grid)) as real * d as real == (40 * m * (f * grid) * d) as real;
    assert s * (2 * n * grid) as real == (sign * (2 * n * grid)) as real;
    assert (10 * m * f * d + sign * n) * grid == 10 * m * f * d * grid + sign * n * grid;
    assert 40 * m * (f * grid) * d == 4 * (10 * m * f * d * grid);
    assert sign * (2 * n * grid) == 2 * (sign * n * grid);
  }

  /** From the cleared fraction to the grid, for either end. */
  lemma HitStaysOnGrid(v: real, z: nat, err: nat, grid: nat, d: nat, n: nat, base: nat, sign: int)
    requires z as real <= v < (z + err) as real && grid > 0 && d > 0 && err > 0
    requires sign == 1 || sign == -1
    requires v * d as real == ((base * d + sign * n) * grid) as real
    requires n % d * grid >= err * d && (d - n % d) * grid >= err * d
    ensures v < ((z / grid + 1) * grid) as real
  {
    var q, r := n / d, n % d;
    var marked := base * d + sign * n;
    SignedMark(base, d, n, sign);
    if sign == 1 {
      assert marked == (base + q) * d + r;
      ClearOfGrid(v, z, err, grid, d, base + q, r);
    } else {
      MulMono(1, 1, err, d);
      assert r > 0 && marked == (base - q - 1) * d + (d - r);
      ClearOfGrid(v, z, err, grid, d, base - q - 1, d - r);
    }
  }

  /** The mark as a multiple of `d` and what is left over. */
  lemma SignedMark(base: nat, d: nat, n: nat, sign: int)
    requires d > 0 && (sign == 1 || sign == -1)
    ensures base * d + sign * n
         == if sign == 1 then (base + n / d) * d + n % d else (base - n / d - 1) * d + (d - n % d)
  {
    assert n == n / d * d + n % d;
  }

  predicate EndEquation(v: real, u: real, m: nat, scale: nat, sign: int) {
    4.0 * v - 2.0 * sign as real * u == (40 * m * scale) as real && (sign == 1 || sign == -1)
  }

  predicate UnitEquation(u: real, d: nat, n: nat, grid: nat) {
    u * d as real == (2 * n * grid) as real && d > 0 && grid > 0
  }

  predicate ErrorCleared(n: nat, d: nat, grid: nat, err: nat)
    requires d > 0
  {
    n % d * grid >= err * d && (d - n % d) * grid >= err * d && err > 0
  }

  predicate Brackets(z: nat, v: real, err: nat) {
    z as real <= v < (z + err) as real
  }

  predicate OnSameGridPoint(v: real, z: nat, grid: nat)
    requires grid > 0
  {
    v < ((z / grid + 1) * grid) as real
  }

  lemma HitFromEquations(v: real, u: real, z: nat, err: nat, f: nat, grid: nat, d: nat, n: nat, m: nat, scale: nat,
      sign: int)
    requires EndEquation(v, u, m, scale, sign) && Product(scale, f, grid) && UnitEquation(u, d, n, grid)
    requires ErrorCleared(n, d, grid, err) && Brackets(z, v, err)
    ensures OnSameGridPoint(v, z, grid)
  {
    HitValue(v, u, m, f, grid, d, n, sign);
    hide UnitEquation;
    HitStaysOnGrid(v, z, err, grid, d, n, 10 * m * f, sign);
  }

  lemma ClearedAt(w: Width, s: nat, e: int)
    requires 1 <= s < SigLimit(w) && 4 <= e <= if w.Bits64? then 76 else 33
    ensures DecExp(e) >= 1 && Pow(5, DecExp(e)) > 0
    ensures ErrorCleared(HalfNumerator(w, e), Pow(5, DecExp(e)), Grid(w), Shl(s, ShiftOf(e)))
  {
    AllClear(w, e);
    MulMono(1, 1, s, Pow(2, ShiftOf(e)));
    hide Pow, DecExp, ShiftOf, Grid, HalfNumerator, Slack, SigLimit;
    var n, d := HalfNumerator(w, e), Pow(5, DecExp(e));
    ErrorFits(w, s, ShiftOf(e), n % d, d);
    ErrorFits(w, s, ShiftOf(e), d - n % d, d);
  }

  lemma UnitEquationAt(w: Width, e: int)
    requires 4 <= e <= 971
    ensures DecExp(e) >= 0 && UnitEquation(UlpMark(w, Ulp(e)), Pow(5, DecExp(e)), HalfNumerator(w, e), Grid(w))
  {
    assert Grid(w) > 0 && DecExp(e) >= 0;
    hide UlpMark, Ulp, Pow, DecExp, HalfNumerator, Grid;
    UnitOnGrid(w, e);
  }

  lemma BracketsAt(w: Width, s: nat, shift: nat, pow10: Uint128, ulp: real)
    requires ValidArgs(w, s, shift, pow10) && Accurate(w, pow10, shift, ulp)
    ensures Brackets(FastProduct(w, s, shift, pow10), ValueMark(w, s, ulp), Shl(s, shift))
  {
    hide FastProduct, ValueMark, Shl, Accurate, ValidArgs;
    ValueBounds(w, s, shift, pow10, ulp);
  }

  /** An end on a multiple of ten at a positive decimal exponent. */
  lemma PositiveHit(w: Width, s: nat, e: int, pow10: Uint128, m: nat, sign: int)
    requires 1 <= s < SigLimit(w) && 4 <= e <= if w.Bits64? then 76 else 33
    requires ValidArgs(w, s, ShiftOf(e), pow10) && Accurate(w, pow10, ShiftOf(e), Ulp(e))
    requires EndEquation(ValueMark(w, s, Ulp(e)), UlpMark(w, Ulp(e)), m, Scale(w), sign)
    ensures Grid(w) > 0 && OnSameGridPoint(ValueMark(w, s, Ulp(e)), FastProduct(w, s, ShiftOf(e), pow10), Grid(w))
  {
    assert Grid(w) > 0;
    hide *;
    ClearedAt(w, s, e);
    UnitEquationAt(w, e);
    GridProducts(w, e);
    BracketsAt(w, s, ShiftOf(e), pow10, Ulp(e));
    HitFromEquations(ValueMark(w, s, Ulp(e)), UlpMark(w, Ulp(e)), FastProduct(w, s, ShiftOf(e), pow10),
        Shl(s, ShiftOf(e)),
                     FractionBitsOf(w), Grid(w), Pow(5, DecExp(e)), HalfNumerator(w, e), m, Scale(w), sign);
  }

  /** Which end was hit, and the hit as an equation of whole numbers with an odd factor. */
  lemma EndParts(w: Width, s: nat, e: int, m: nat) returns (sign: int, a: nat)
    requires s >= 1 && -1334 <= e <= 2620 && EndAt(m, s, Ulp(e))
    ensures EndEquation(ValueMark(w, s, Ulp(e)), UlpMark(w, Ulp(e)), m, Scale(w), sign)
    ensures a % 2 == 1 && 1 <= a <= 2 * s + 1
    ensures e >= 0 ==> 0 <= DecExp(e) <= e && 2 * a * Pow(2, e) == 40 * m * Pow(10, DecExp(e))
    ensures e < 0 ==> 0 < -DecExp(e) <= -e && 2 * a * Pow(10, -DecExp(e)) == 40 * m * Pow(2, -e)
  {
    sign := if Times(4 * s - 2, Ulp(e)) == (40 * m) as real then 1 else -1;
    a := 2 * s - sign;
    OddNeighbour(s, sign);
    assert 2 * a == 4 * s - 2 * sign;
    assert Times(2 * a, Ulp(e)) == (40 * m) as real by {
      hide Times, Ulp;
    }
    hide Ulp, Pow, Times, EndEquation, EndAt, DecExp;
    EndGivesEquation(w, s, e, m, sign);
    TimesIsWhole(2 * a, e, 40 * m);
    UlpRatio(e);
  }

  lemma OddNeighbour(s: nat, sign: int)
    requires s >= 1 && (sign == 1 || sign == -1)
    ensures (2 * s - sign) % 2 == 1
  {
  }

  /** An end on a multiple of ten, whatever the exponent. */
  lemma EndIsSafe(w: Width, s: nat, e: int, pow10: Uint128, m: nat)
    requires IsFloat(w, s, e) && ValidArgs(w, s, ShiftOf(e), pow10) && Accurate(w, pow10, ShiftOf(e), Ulp(e))
    requires EndAt(m, s, Ulp(e))
    ensures Grid(w) > 0 && OnSameGridPoint(ValueMark(w, s, Ulp(e)), FastProduct(w, s, ShiftOf(e), pow10), Grid(w))
  {
    assert s < SigLimit(w);
    hide Ulp, ShiftOf, Pow, Accurate, Times, ValidArgs, EndEquation, OnSameGridPoint, EndAt, ValueMark, UlpMark,
         FastProduct, DecExp, SigLimit;
    var sign, a := EndParts(w, s, e, m);
    if e < 0 {
      EndNeedsNonNegative(a, m, -e, -DecExp(e));
    } else if DecExp(e) == 0 {
      UnitIsExact(w, s, e, pow10);
    } else {
      EndBoundsPower(a, m, e, DecExp(e));
      PowerBoundsExponent(w, s, e, a);
      PositiveHit(w, s, e, pow10, m, sign);
    }
  }

  lemma EndGivesEquation(w: Width, s: nat, e: int, m: nat, sign: int)
    requires s >= 1 && -1334 <= e <= 2620 && (sign == 1 || sign == -1)
    requires Times(4 * s - 2 * sign, Ulp(e)) == (40 * m) as real
    ensures EndEquation(ValueMark(w, s, Ulp(e)), UlpMark(w, Ulp(e)), m, Scale(w), sign)
  {
    hide Times, Ulp, Scale;
    TimesScaled(s, Ulp(e), Scale(w));
    assert (40 * m * Scale(w)) as real == (40 * m) as real * Scale(w) as real;
  }

  /** A zero decimal exponent: the unit is a power of two, so entry and product are exact. */
  lemma UnitIsExact(w: Width, s: nat, e: int, pow10: Uint128)
    requires s >= 1 && 0 <= e <= 971 && DecExp(e) == 0
    requires Accurate(w, pow10, ShiftOf(e), Ulp(e))
    ensures Grid(w) > 0 && OnSameGridPoint(ValueMark(w, s, Ulp(e)), FastProduct(w, s, ShiftOf(e), pow10), Grid(w))
  {
    assert Grid(w) > 0;
    ZeroShift(e);
    hide *;
    UnitMark(w, e);
    ExactEntry(w, s, pow10, ShiftOf(e), Ulp(e), Scale(w) / 2);
    AboveOwnGridPoint(FastProduct(w, s, ShiftOf(e), pow10), Grid(w));
  }

  lemma ZeroShift(e: int)
    requires 0 <= e <= 971 && DecExp(e) == 0
    ensures ShiftOf(e) == e + 1
  {
    assert e <= 3;
  }

  lemma UnitMark(w: Width, e: int)
    requires 0 <= e <= 971 && DecExp(e) == 0
    ensures UlpMark(w, Ulp(e)) == (Scale(w) / 2 * Pow(2, e + 1)) as real
  {
    assert Scale(w) == 2 * (Scale(w) / 2);
    hide *;
    UlpIsPower(e);
    UlpMarkIsProduct(w, Ulp(e));
    PowNext(2, e);
    HalfTimes(UlpMark(w, Ulp(e)), Ulp(e), Pow(2, e), Pow(2, e + 1), Scale(w), Scale(w) / 2);
  }

  lemma UlpIsPower(e: int)
    requires 0 <= e <= 971 && DecExp(e) == 0
    ensures Ulp(e) == Pow(2, e) as real
  {
    hide Ulp, Pow, DecExp;
    UlpRatio(e);
    PowZero(10);
  }

  lemma HalfTimes(mark: real, u: real, p: nat, twice: nat, scale: nat, half: nat)
    requires RealProduct(mark, u, scale) && u == p as real && twice == 2 * p && scale == 2 * half
    ensures mark == (half * twice) as real
  {
    assert half * (2 * p) == p * scale;
    assert (p * scale) as real == p as real * scale as real;
  }

  lemma AboveOwnGridPoint(z: nat, grid: nat)
    requires grid > 0
    ensures OnSameGridPoint(z as real, z, grid)
  {
    MulNext(z / grid, grid);
  }

  /** A power of five below twice a significand bounds the exponents. */
  lemma PowerBoundsExponent(w: Width, s: nat, e: int, a: nat)
    requires IsFloat(w, s, e) && e >= 0 && DecExp(e) >= 1 && a <= 2 * s + 1
    requires a >= Pow(5, DecExp(e) + 1)
    ensures 4 <= e <= if w.Bits64? then 76 else 33
  {
    var k := DecExp(e);
    FivePowers();
    var limit := if w.Bits64? then 24 else 11;
    if k + 1 >= limit {
      PowMonoExp(5, limit, k + 1);
    }
  }

  lemma FivePowers()
    ensures Pow(5, 11) == 48828125 && Pow(5, 24) == 59604644775390625
  {
    assert Pow(5, 6) == 15625;
    PowAdd(5, 6, 5);
    assert Pow(5, 5) == 3125;
    PowAdd(5, 11, 11);
    PowAdd(5, 22, 2);
    assert Pow(5, 2) == 25;
  }

  /** What the fast path assumes of exact hits holds of every float. */
  lemma HitsAreSafeForFloats(w: Width, s: nat, e: int, pow10: Uint128)
    requires IsFloat(w, s, e) && ValidArgs(w, s, ShiftOf(e), pow10) && Accurate(w, pow10, ShiftOf(e), Ulp(e))
    ensures HitsAreSafe(w, s, ShiftOf(e), pow10, Ulp(e))
  {
    hide Ulp, ShiftOf, Accurate, ValueMark, FastProduct, ValidArgs, EndAt, MiddleAt;
    forall m: nat | EndAt(m, s, Ulp(e))
      ensures Grid(w) > 0 && OnSameGridPoint(ValueMark(w, s, Ulp(e)), FastProduct(w, s, ShiftOf(e), pow10), Grid(w))
    {
      EndIsSafe(w, s, e, pow10, m);
    }
    forall n: nat | MiddleAt(n, s, Ulp(e))
      ensures ValueMark(w, s, Ulp(e)) == FastProduct(w, s, ShiftOf(e), pow10) as real
    {
      MiddleIsExact(w, s, e, pow10, n);
    }
  }
}
