/**
 What the printed decimal is worth without any scaling: it rounds back to the float it came from,
 and no multiple of a higher power of ten does.
 */
module ReadBack {

  import opened Bcd
  import opened Multiply
  import opened Powers
  import opened Exponents
  import opened Decimal
  import opened DecimalProofs
  import opened FastPathProofs
  import opened Floats
  import opened Text
  import opened FloatText

  const TWO_149: nat := 713623846352979940529142984724747568191373312
  const TEN_45: nat := 1000000000000000000000000000000000000000000000
  const TWO_1074: nat :=
    202402253307310618352495346718917307049556649764142118356901358027430339567995346891960383701437124495187077864316811911389808737385793476867013399940738509921517424276566361364466907742093216341239767678472745068562007483424692698618103355649159556340810056512358769552333414615230502532186327508646006263307707741093494784
  const TEN_324: nat :=
    1000000000000000000000000000000000000000000000000000000000000000000000000000000000000000000000000000000000000000000000000000000000000000000000000000000000000000000000000000000000000000000000000000000000000000000000000000000000000000000000000000000000000000000000000000000000000000000000000000000000000000000000000000000000000

  /** The interval the code aims at: the ends belong to it when `s` is even. */
  predicate InCodeInterval(v: real, s: nat, e: int, regular: bool)
    requires s >= 1
  {
    var low, high := Units(4 * s - LowerGap(regular), e), Units(4 * s + 2, e);
    if s % 2 == 0 then low <= 4.0 * v <= high else low < 4.0 * v < high
  }

  /** A multiple of the scaled unit, brought back to the float's own scale. */
  lemma Unscaled(x: nat, e: int, regular: bool)
    requires -1334 <= e <= 2620
    ensures var k := ComputeDecExp(e, regular);
            Times(x, UlpOf(e, regular)) * RPow(10, k) == Units(x, e)
  {
    hide *;
    var k := ComputeDecExp(e, regular);
    RPowFlip(10, k);
    TimesUlp(x, e, regular);
    ChainProduct(x as real, RPow(2, e), RPow(10, -k), RPow(10, k));
  }

  lemma TimesUlp(x: nat, e: int, regular: bool)
    requires -1334 <= e <= 2620
    ensures Times(x, UlpOf(e, regular)) == x as real * (RPow(2, e) * RPow(10, -ComputeDecExp(e, regular)))
    ensures Units(x, e) == x as real * RPow(2, e)
  {
  }

  lemma ChainProduct(x: real, u: real, q: real, p: real)
    requires p * q == 1.0
    ensures x * (u * q) * p == x * u
  {
    assert x * (u * q) * p == x * u * (q * p);
  }

  lemma FourValue(d: nat, k: int)
    ensures (4 * d) as real * RPow(10, k) == 4.0 * Value(d, k)
  {
    hide RPow;
    assert (4 * d) as real == 4.0 * d as real;
    RealAssoc(4.0, d as real, RPow(10, k));
  }

  /** Reading back, on the scale of the selection. */
  lemma CodeIntervalMeansInInterval(d: nat, s: nat, e: int, regular: bool)
    requires s >= 1 && -1334 <= e <= 2620
    ensures InCodeInterval(Value(d, ComputeDecExp(e, regular)), s, e, regular)
            <==> InInterval(d, s, UlpOf(e, regular), regular)
  {
    hide RPow, Pow, ComputeDecExp, Times, Units, Value, UlpOf;
    var k, ulp := ComputeDecExp(e, regular), UlpOf(e, regular);
    Unscaled(4 * s - LowerGap(regular), e, regular);
    Unscaled(4 * s + 2, e, regular);
    FourValue(d, k);
    RealScaledOrder(Times(4 * s - LowerGap(regular), ulp), (4 * d) as real, RPow(10, k));
    RealScaledOrder((4 * d) as real, Times(4 * s + 2, ulp), RPow(10, k));
  }

  lemma SelectedInCodeInterval(w: Width, bits: nat, table: int -> Uint128)
    requires IsFinite(w, bits) && Sig(w, bits) > 0 && TrustedTable(w, bits, table)
    ensures InCodeInterval(DecimalOf(w, bits, table), Sig(w, bits), Exp(w, bits), IsRegular(w, bits))
  {
    BitsInRange(w, bits);
    SelectedIsShortest(w, bits, table);
    hide IsShortest, InInterval, InCodeInterval, TrustedTable, Selected, UlpOf, ComputeDecExp, Value;
    InShortest(Selected(w, bits, table).sig, Sig(w, bits), UlpOf(Exp(w, bits), IsRegular(w, bits)), IsRegular(w, bits));
    CodeIntervalMeansInInterval(Selected(w, bits, table).sig, Sig(w, bits), Exp(w, bits), IsRegular(w, bits));
  }

  /** The interval, of four or three quarters of a unit, is shorter than ten. */
  predicate Narrow(ulp: real, regular: bool) {
    if regular then 4.0 * ulp < 40.0 else 3.0 * ulp < 40.0
  }

  lemma SelectedIsShortest(w: Width, bits: nat, table: int -> Uint128)
    requires IsFinite(w, bits) && Sig(w, bits) > 0 && TrustedTable(w, bits, table)
    ensures -1074 <= Exp(w, bits) <= 971
    ensures Selected(w, bits, table).exp == ComputeDecExp(Exp(w, bits), IsRegular(w, bits))
    ensures IsShortest(Selected(w, bits, table).sig, Sig(w, bits), UlpOf(Exp(w, bits), IsRegular(w, bits)),
            IsRegular(w, bits))
    ensures Narrow(UlpOf(Exp(w, bits), IsRegular(w, bits)), IsRegular(w, bits))
  {
    hide ToDecimal, IsShortest, UlpOf, Trusted, ComputeDecExp, Narrow;
    BitsInRange(w, bits);
    var s, e, regular := Sig(w, bits), Exp(w, bits), IsRegular(w, bits);
    var pow10 := table(-ComputeDecExp(e, regular));
    TrustedIsUsable(w, s, e, regular, pow10);
    assert Selected(w, bits, table) == ToDecimal(w, s, e, regular, RawExp(w, bits) == 0, pow10);
    hide *;
    ShortestAndNarrow(w, s, e, regular, RawExp(w, bits) == 0, pow10);
  }

  lemma ShortestAndNarrow(w: Width, s: nat, e: int, regular: bool, subnormal: bool, pow10: Uint128)
    requires 1 <= s < SigLimit(w) && MinExp(w) <= e <= MaxExp(w) && Trusted(w, s, e, regular, pow10)
    requires !regular ==> s % 2 == 0
    ensures -1074 <= e <= 971
    ensures var dec := ToDecimal(w, s, e, regular, subnormal, pow10);
            dec.exp == ComputeDecExp(e, regular) && IsShortest(dec.sig, s, UlpOf(e, regular), regular)
    ensures Narrow(UlpOf(e, regular), regular)
  {
    hide ToDecimal, IsShortest, UlpOf, Accurate, AllSeparated, ComputeDecExp, Usable, Narrow;
    ToDecimalIsShortest(w, s, e, regular, subnormal, pow10);
    UlpIsNarrow(e, regular);
  }

  lemma UlpIsNarrow(e: int, regular: bool)
    requires -1334 <= e <= 2620
    ensures Narrow(UlpOf(e, regular), regular)
  {
    hide UlpOf;
    if regular {
      RegularUlp(e);
    } else {
      IrregularUlp(e);
    }
  }

  /** The interval is too short for two multiples of ten. */
  lemma OneMultipleOfTen(a: nat, b: nat, s: nat, ulp: real, regular: bool)
    requires s >= 1 && Narrow(ulp, regular)
    requires InInterval(10 * a, s, ulp, regular) && InInterval(10 * b, s, ulp, regular)
    ensures a == b
  {
    IntervalLength(s, ulp, regular);
    hide Times;
    var low, high := Times(4 * s - LowerGap(regular), ulp), Times(4 * s + 2, ulp);
    assert low <= (40 * a) as real <= high && low <= (40 * b) as real <= high;
  }

  lemma IntervalLength(s: nat, ulp: real, regular: bool)
    requires s >= 1 && Narrow(ulp, regular)
    ensures Times(4 * s + 2, ulp) < Times(4 * s - LowerGap(regular), ulp) + 40.0
  {
    var x, g := 4 * s - LowerGap(regular), LowerGap(regular) + 2;
    assert (4 * s + 2) as real == x as real + g as real;
    assert Times(4 * s + 2, ulp) == Times(x, ulp) + g as real * ulp;
  }

  // ---------------------------------------------------------------- no shorter decimal

  /** `c * 10^z` with a last digit other than zero is not a multiple of a higher power of ten. */
  lemma LastDigitStops(c: nat, z: nat, m: nat, n: nat)
    requires c % 10 != 0 && z < n
    ensures c * Pow(10, z) != m * Pow(10, n)
  {
    PowAdd(10, z, 1);
    PowAdd(10, z + 1, n - z - 1);
    PowOne(10);
    hide Pow;
    LastDigitOf(c, m, Pow(10, z), Pow(10, n - z - 1));
  }

  lemma LastDigitOf(c: nat, m: nat, p: nat, q: nat)
    requires c % 10 != 0 && p > 0
    ensures c * p != m * (p * 10 * q)
  {
    if c * p == m * (p * 10 * q) {
      Regroup(m, p, q);
      CancelFactor(c, 10 * (m * q), p);
    }
  }

  lemma Regroup(m: nat, p: nat, q: nat)
    ensures m * (p * 10 * q) == 10 * (m * q) * p
  {
    assert m * (p * 10 * q) == m * (10 * (p * q));
    assert m * (10 * (p * q)) == 10 * (m * (p * q));
    assert m * (p * q) == m * q * p;
    assert 10 * (m * q * p) == 10 * (m * q) * p;
  }

  /** Equal values, on the smaller of the two scales. */
  lemma SameValue(c: nat, x: int, d: nat, k: int)
    requires Value(c, x) == Value(d, k)
    ensures x >= k ==> d == c * Pow(10, x - k)
    ensures x < k ==> c == d * Pow(10, k - x)
  {
    hide Pow, RPow, Value;
    if x >= k {
      ShiftValue(c, x - k, k);
      ValueCancels(c * Pow(10, x - k), d, k);
    } else {
      ShiftValue(d, k - x, x);
      ValueCancels(d * Pow(10, k - x), c, x);
    }
  }

  lemma ValueCancels(a: nat, b: nat, k: int)
    requires Value(a, k) == Value(b, k)
    ensures a == b
  {
    hide RPow;
    RealScaledOrder(a as real, b as real, RPow(10, k));
    RealScaledOrder(b as real, a as real, RPow(10, k));
  }

  lemma TensIn(m: nat, n: nat)
    requires n > 0
    ensures m * Pow(10, n) == 10 * (m * Pow(10, n - 1))
  {
    var p := Pow(10, n - 1);
    assert m * (10 * p) == 10 * (m * p);
  }

  /** The heart of it, on the scale of the selection. */
  lemma NoShorterMultiple(d: nat, s: nat, ulp: real, regular: bool, c: nat, z: nat, m: nat, n: nat)
    requires s >= 1 && IsShortest(d, s, ulp, regular) && Narrow(ulp, regular)
    requires c % 10 != 0 && d == c * Pow(10, z) && z < n
    ensures !InInterval(m * Pow(10, n), s, ulp, regular)
  {
    hide Pow;
    var a := m * Pow(10, n - 1);
    TensIn(m, n);
    LastDigitStops(c, z, m, n);
    if InInterval(10 * a, s, ulp, regular) && d % 10 == 0 {
      OneMultipleOfTen(a, d / 10, s, ulp, regular);
    }
  }

  lemma NotBelowScale(c: nat, x: int, d: nat, k: int)
    requires Value(c, x) == Value(d, k) && c % 10 != 0
    ensures x >= k && d == c * Pow(10, x - k)
  {
    hide Pow, Value;
    SameValue(c, x, d, k);
    if x < k {
      TensIn(d, k - x);
    }
  }

  lemma NoShorterAt(d: nat, k: int, s: nat, e: int, regular: bool, c: nat, x: int, m: nat, j: int)
    requires s >= 1 && -1334 <= e <= 2620 && k == ComputeDecExp(e, regular)
    requires IsShortest(d, s, UlpOf(e, regular), regular) && Narrow(UlpOf(e, regular), regular)
    requires Value(c, x) == Value(d, k) && c % 10 != 0 && j > x
    ensures !InCodeInterval(Value(m, j), s, e, regular)
  {
    hide *;
    NotBelowScale(c, x, d, k);
    var n := j - k;
    NoShorterMultiple(d, s, UlpOf(e, regular), regular, c, x - k, m, n);
    ShiftValue(m, n, k);
    CodeIntervalMeansInInterval(m * Pow(10, n), s, e, regular);
  }

  lemma NoShorterInCodeInterval(w: Width, bits: nat, table: int -> Uint128, c: nat, x: int, m: nat, j: int)
    requires IsFinite(w, bits) && Sig(w, bits) > 0 && TrustedTable(w, bits, table)
    requires Value(c, x) == DecimalOf(w, bits, table) && c % 10 != 0 && j > x
    ensures !InCodeInterval(Value(m, j), Sig(w, bits), Exp(w, bits), IsRegular(w, bits))
  {
    BitsInRange(w, bits);
    SelectedIsShortest(w, bits, table);
    hide IsShortest, InCodeInterval, TrustedTable, Selected, UlpOf, ComputeDecExp, Value, Narrow, Sig, Exp, IsRegular,
         IsFinite;
    var dec := Selected(w, bits, table);
    NoShorterAt(dec.sig, dec.exp, Sig(w, bits), Exp(w, bits), IsRegular(w, bits), c, x, m, j);
  }

  // ---------------------------------------------------------------- the float's own interval

  /** The one float whose interval is wider than the code takes it to be. */
  predicate IsSmallestNormal(w: Width, bits: nat) {
    RawExp(w, bits) == 1 && RawSig(w, bits) == 0
  }

  lemma CodeIntervalIsInside(w: Width, bits: nat, v: real)
    requires IsFinite(w, bits) && Sig(w, bits) >= 1
    ensures var code := InCodeInterval(v, Sig(w, bits), Exp(w, bits), IsRegular(w, bits));
            && (code ==> InRoundingInterval(w, bits, v))
            && (!IsSmallestNormal(w, bits) ==> code == InRoundingInterval(w, bits, v))
  {
    hide Units, Exp, IsFinite;
    var s, e := Sig(w, bits), Exp(w, bits);
    if IsSmallestNormal(w, bits) {
      UnitsAdd(4 * s - 2, 1, e);
      UnitsPositive(1, e);
    }
  }

  /**
   The code's interval lies in the float's own. The two are the same set of numbers for every float
   but the smallest normal one, where they differ.
   */
  lemma IntervalsDifferAtSmallestNormal(w: Width, bits: nat)
    requires IsFinite(w, bits) && Sig(w, bits) >= 1
    ensures forall v: real ::
              InCodeInterval(v, Sig(w, bits), Exp(w, bits), IsRegular(w, bits)) ==> InRoundingInterval(w, bits, v)
    ensures (forall v: real ::
               InCodeInterval(v, Sig(w, bits), Exp(w, bits), IsRegular(w, bits)) == InRoundingInterval(w, bits, v))
            <==> !IsSmallestNormal(w, bits)
  {
    var s, e, regular := Sig(w, bits), Exp(w, bits), IsRegular(w, bits);
    forall v: real
      ensures InCodeInterval(v, s, e, regular) ==> InRoundingInterval(w, bits, v)
      ensures !IsSmallestNormal(w, bits) ==> InCodeInterval(v, s, e, regular) == InRoundingInterval(w, bits, v)
    {
      CodeIntervalIsInside(w, bits, v);
    }
    if IsSmallestNormal(w, bits) {
      OnlyInOwnInterval(w, bits, Units(4 * s - 2, e) / 4.0);
    }
  }

  /** The lower end of the smallest normal number's interval is outside of the one the code works with. */
  lemma OnlyInOwnInterval(w: Width, bits: nat, v: real)
    requires IsFinite(w, bits) && IsSmallestNormal(w, bits) && 4.0 * v == Units(4 * Sig(w, bits) - 2, Exp(w, bits))
    ensures InRoundingInterval(w, bits, v) && !InCodeInterval(v, Sig(w, bits), Exp(w, bits), IsRegular(w, bits))
  {
    hide Units, Exp, IsFinite;
    var s, e := Sig(w, bits), Exp(w, bits);
    UnitsAdd(4 * s - 2, 1, e);
    UnitsAdd(4 * s - 2, 4, e);
    UnitsPositive(1, e);
    UnitsPositive(4, e);
  }

  /** Read by rounding to the nearest float, ties to even, the printed number gives the same float. */
  lemma ReadsBack(w: Width, bits: nat, table: int -> Uint128)
    requires IsFinite(w, bits) && Sig(w, bits) > 0 && TrustedTable(w, bits, table)
    ensures RoundsTo(w, bits, Signed(IsNegative(w, bits), DecimalOf(w, bits, table)))
  {
    hide *;
    SelectedInCodeInterval(w, bits, table);
    CodeIntervalIsInside(w, bits, DecimalOf(w, bits, table));
    RoundsToMeansInInterval(w, bits, DecimalOf(w, bits, table));
  }

  /** The same of the text: what a reader of decimals finds in it rounds to the float. */
  lemma TextReadsBack(w: Width, bits: nat, table: int -> Uint128, t: seq<byte>)
    requires IsFinite(w, bits) && Sig(w, bits) > 0 && TrustedTable(w, bits, table)
    requires Denotes(t, IsNegative(w, bits), DecimalOf(w, bits, table))
    ensures var r := Read(t);
            r.Some? && RoundsTo(w, bits, Signed(r.value.negative, Value(r.value.mantissa, r.value.scale)))
  {
    ReadsBack(w, bits, table);
    hide RoundsTo, DecimalOf, TrustedTable, Read;
  }

  // ---------------------------------------------------------------- the smallest normal numbers

  lemma CrossMultiplied(x: nat, p: nat, y: nat, t: nat)
    requires p > 0 && t > 0
    ensures x as real * (1.0 / p as real) <= y as real * (1.0 / t as real) <==> x * t <= y * p
  {
    var l, r := x as real * (1.0 / p as real), y as real * (1.0 / t as real);
    Cancelled(x, p, t);
    Cancelled(y, t, p);
    RealScaledOrder(l, r, p as real * t as real);
  }

  lemma Cancelled(x: nat, p: nat, t: nat)
    requires p > 0
    ensures x as real * (1.0 / p as real) * (p as real * t as real) == (x * t) as real
    ensures x as real * (1.0 / p as real) * (t as real * p as real) == (x * t) as real
  {
    var q := 1.0 / p as real;
    assert q * p as real == 1.0;
    assert x as real * q * (p as real * t as real) == x as real * (q * p as real) * t as real;
    assert p as real * t as real == t as real * p as real;
  }

  /** No multiple of ten lies in the quarter of a unit that the code leaves out. */
  lemma NothingLeftOut64(a: nat)
    requires 0x3f_ffff_ffff_fffe * TEN_324 <= 40 * TWO_1074 * a
    ensures 0x3f_ffff_ffff_ffff * TEN_324 <= 40 * TWO_1074 * a
  {
  }

  lemma NothingLeftOut32(a: nat)
    requires 0x1ff_fffe * TEN_45 <= 40 * TWO_149 * a
    ensures 0x1ff_ffff * TEN_45 <= 40 * TWO_149 * a
  {
  }

  lemma Doubled(b: nat, n: nat, p: nat)
    requires Pow(b, n) == p
    ensures Pow(b, 2 * n) == p * p
  {
    PowAdd(b, n, n);
  }

  lemma OneMore(b: nat, n: nat, p: nat)
    requires Pow(b, n) == p
    ensures Pow(b, n + 1) == b * p
  {
  }

  lemma SmallTens()
    ensures Pow(10, 5) == 100_000 && Pow(10, 10) == 10_000_000_000 && Pow(10, 11) == 100_000_000_000
  {
    hide Pow;
    SmallPowers();
    Doubled(10, 1, 10);
    Doubled(10, 2, 100);
    OneMore(10, 4, 10_000);
    Doubled(10, 5, 100_000);
    OneMore(10, 10, 10_000_000_000);
  }

  lemma PowersOf32()
    ensures Pow(2, 149) == TWO_149 && Pow(10, 45) == TEN_45
  {
    hide Pow;
    SmallPowers();
    SmallTens();
    PowAdd(2, 36, 1);
    Doubled(2, 37, 137438953472);
    Doubled(2, 74, 18889465931478580854784);
    OneMore(2, 148, 356811923176489970264571492362373784095686656);
    Doubled(10, 11, 100000000000);
    Doubled(10, 22, 10000000000000000000000);
    OneMore(10, 44, 100000000000000000000000000000000000000000000);
  }

  lemma PowerOf324()
    ensures Pow(10, 324) == TEN_324
  {
    hide Pow;
    SmallTens();
    Doubled(10, 10, 10000000000);
    Doubled(10, 20, 100000000000000000000);
    Doubled(10, 40, 10000000000000000000000000000000000000000);
    OneMore(10, 80, 100000000000000000000000000000000000000000000000000000000000000000000000000000000);
    Doubled(10, 81, 1000000000000000000000000000000000000000000000000000000000000000000000000000000000);
    Doubled(10, 162,
      1000000000000000000000000000000000000000000000000000000000000000000000000000000000000000000000000000000000000000000000000000000000000000000000000000000000000000000);
  }

  lemma PowerOf1074()
    ensures Pow(2, 1074) == TWO_1074
  {
    hide Pow;
    SmallPowers();
    PowAdd(2, 48, 48);
    PowAdd(2, 96, 36);
    PowAdd(2, 132, 2);
    Doubled(2, 134, 21778071482940061661655974875633165533184);
    Doubled(2, 268,
      474284397516047136454946754595585670566993857190463750305618264096412179005177856);
    OneMore(2, 536,
      224945689727159819140526925384299092943484855915095831655037778630591879033574393515952034305194542857496045531676044756160413302774714984450425759043258192756736);
    Doubled(2, 537,
      449891379454319638281053850768598185886969711830191663310075557261183758067148787031904068610389085714992091063352089512320826605549429968900851518086516385513472);
  }

  /** `x / 2^f` against `a / 10^n`, as whole numbers. */
  lemma AgainstDecimal(x: nat, f: int, a: nat, n: int, p: nat, t: nat)
    requires f > 0 && n > 0 && p == Pow(2, f) && t == Pow(10, n)
    ensures Units(x, -f) <= Value(a, -n) <==> x * t <= a * p
    ensures Value(a, -n) <= Units(x, -f) <==> a * p <= x * t
  {
    PowIsPositive(2, f);
    PowIsPositive(10, n);
    UnitsDown(x, f);
    RPowDown(n);
    hide *;
    ValueIs(a, -n);
    CrossMultiplied(x, p, a, t);
    CrossMultiplied(a, t, x, p);
  }

  lemma ValueIs(a: nat, k: int)
    ensures Value(a, k) == a as real * RPow(10, k)
  {
  }

  /** The same with a multiple of ten, in quarters. */
  lemma AgainstTens(x: nat, f: int, a: nat, n: int, p: nat, t: nat)
    requires f > 0 && n > 0 && p == Pow(2, f) && t == Pow(10, n)
    ensures Units(x, -f) <= 4.0 * Value(10 * a, -n) <==> x * t <= 40 * p * a
  {
    hide *;
    FourValue(10 * a, -n);
    ValueIs(40 * a, -n);
    assert 4 * (10 * a) == 40 * a;
    AgainstDecimal(x, f, 40 * a, n, p, t);
    Reordered(a, p);
  }

  lemma UnitsDown(x: nat, f: int)
    requires f > 0
    ensures Pow(2, f) > 0 && Units(x, -f) == x as real * (1.0 / Pow(2, f) as real)
  {
    PowIsPositive(2, f);
    hide Pow;
  }

  lemma Reordered(a: nat, p: nat)
    ensures 40 * a * p == 40 * p * a
  {
  }

  /** At the smallest normal number no multiple of ten lies in what the code leaves out. */
  lemma SmallestNormalGap(w: Width, a: nat)
    requires Units(4 * ImplicitBit(w) - 2, MinExp(w)) <= 4.0 * Value(10 * a, ComputeDecExp(MinExp(w), false))
    ensures Units(4 * ImplicitBit(w) - 1, MinExp(w)) <= 4.0 * Value(10 * a, ComputeDecExp(MinExp(w), false))
  {
    hide Pow, Units, Value;
    if w.Bits64? {
      PowerOf324();
      PowerOf1074();
      AgainstTens(0x3f_ffff_ffff_fffe, 1074, a, 324, TWO_1074, TEN_324);
      AgainstTens(0x3f_ffff_ffff_ffff, 1074, a, 324, TWO_1074, TEN_324);
      NothingLeftOut64(a);
    } else {
      PowersOf32();
      AgainstTens(0x1ff_fffe, 149, a, 45, TWO_149, TEN_45);
      AgainstTens(0x1ff_ffff, 149, a, 45, TWO_149, TEN_45);
      NothingLeftOut32(a);
    }
  }

  /** A multiple of ten on the selection's scale is in the code's interval if it is in the float's. */
  lemma TensInCodeInterval(w: Width, bits: nat, a: nat)
    requires IsFinite(w, bits) && Sig(w, bits) >= 1 && -1074 <= Exp(w, bits) <= 971
    requires var v := Value(10 * a, ComputeDecExp(Exp(w, bits), IsRegular(w, bits))); InRoundingInterval(w, bits, v)
    ensures var v := Value(10 * a, ComputeDecExp(Exp(w, bits), IsRegular(w, bits)));
            InCodeInterval(v, Sig(w, bits), Exp(w, bits), IsRegular(w, bits))
  {
    hide Units, Value, ComputeDecExp, IsFinite;
    var v := Value(10 * a, ComputeDecExp(Exp(w, bits), IsRegular(w, bits)));
    CodeIntervalIsInside(w, bits, v);
    if IsSmallestNormal(w, bits) {
      SmallestNormalGap(w, a);
    }
  }

  lemma CoarserInCodeInterval(w: Width, bits: nat, k: int, m: nat, j: int)
    requires IsFinite(w, bits) && Sig(w, bits) >= 1 && -1074 <= Exp(w, bits) <= 971
    requires k == ComputeDecExp(Exp(w, bits), IsRegular(w, bits)) && j > k
    requires InRoundingInterval(w, bits, Value(m, j))
    ensures InCodeInterval(Value(m, j), Sig(w, bits), Exp(w, bits), IsRegular(w, bits))
  {
    hide *;
    var n := j - k;
    TensIn(m, n);
    ShiftValue(m, n, k);
    TensInCodeInterval(w, bits, m * Pow(10, n - 1));
  }

  lemma ScaleOfSelected(w: Width, bits: nat, table: int -> Uint128, c: nat, x: int)
    requires IsFinite(w, bits) && Sig(w, bits) > 0 && TrustedTable(w, bits, table)
    requires Value(c, x) == DecimalOf(w, bits, table) && c % 10 != 0
    ensures -1074 <= Exp(w, bits) <= 971 && x >= ComputeDecExp(Exp(w, bits), IsRegular(w, bits))
  {
    SelectedIsShortest(w, bits, table);
    hide IsShortest, TrustedTable, Selected, ComputeDecExp, Value, Narrow, Sig, Exp, IsRegular, IsFinite, UlpOf, Pow;
    var dec := Selected(w, bits, table);
    NotBelowScale(c, x, dec.sig, dec.exp);
  }

  lemma NoShorterRounds(w: Width, bits: nat, table: int -> Uint128, c: nat, x: int, m: nat, j: int)
    requires IsFinite(w, bits) && Sig(w, bits) > 0 && TrustedTable(w, bits, table)
    requires Value(c, x) == DecimalOf(w, bits, table) && c % 10 != 0 && j > x
    ensures !InRoundingInterval(w, bits, Value(m, j))
  {
    hide *;
    NoShorterInCodeInterval(w, bits, table, c, x, m, j);
    ScaleOfSelected(w, bits, table, c, x);
    if InRoundingInterval(w, bits, Value(m, j)) {
      CoarserInCodeInterval(w, bits, ComputeDecExp(Exp(w, bits), IsRegular(w, bits)), m, j);
    }
  }

  /**
   The printed number, written as `c * 10^x` without a trailing zero, is the shortest that reads
   back: no multiple of a higher power of ten rounds to the same float, for any nonzero float.
   */
  lemma NoShorterDecimal(w: Width, bits: nat, table: int -> Uint128, c: nat, x: int, m: nat, j: int)
    requires IsFinite(w, bits) && Sig(w, bits) > 0 && TrustedTable(w, bits, table)
    requires Value(c, x) == DecimalOf(w, bits, table) && c % 10 != 0 && j > x
    ensures !RoundsTo(w, bits, Signed(IsNegative(w, bits), Value(m, j)))
  {
    hide *;
    NoShorterRounds(w, bits, table, c, x, m, j);
    RoundsToMeansInInterval(w, bits, Value(m, j));
  }
}
