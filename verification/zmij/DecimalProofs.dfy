/**
 What the shortest-decimal selection returns, and that the fast path returns the same.

 `ulp` is the exact value of one unit in the last place of the significand, scaled by the
 power of ten: the printed number is `binSig * ulp`. The rounding interval of round to nearest,
 ties to even (section 4.3.1 of IEEE 754-2019) reaches half a unit to either side (a quarter
 below an irregular significand) and holds its ends exactly when the significand is even.
 */
module DecimalProofs {

  import opened Multiply
  import opened Powers
  import opened Decimal

  // ---------------------------------------------------------------- the specification

  function Times(x: nat, ulp: real): real {
    x as real * ulp
  }

  function LowEnd(s: nat, ulp: real, regular: bool): real
    requires s >= 1
  {
    Times(4 * s - LowerGap(regular), ulp)
  }

  function HighEnd(s: nat, ulp: real): real {
    Times(4 * s + 2, ulp)
  }

  /** `d` reads back as the same float. Everything is in quarters, so that ends are products. */
  predicate InInterval(d: nat, s: nat, ulp: real, regular: bool)
    requires s >= 1
  {
    var v := (4 * d) as real;
    if s % 2 == 0 then LowEnd(s, ulp, regular) <= v <= HighEnd(s, ulp)
    else LowEnd(s, ulp, regular) < v < HighEnd(s, ulp)
  }

  function Distance(d: nat, s: nat, ulp: real): real {
    var diff := (4 * d) as real - Times(4 * s, ulp);
    if diff < 0.0 then -diff else diff
  }

  /** At least as close as `c`, and even if another number is as close. */
  predicate Preferred(d: nat, c: nat, s: nat, ulp: real) {
    Distance(d, s, ulp) <= Distance(c, s, ulp) && (Distance(d, s, ulp) == Distance(c, s, ulp) ==> d == c || d % 2 == 0)
  }

  /** A multiple of ten when the interval has one, otherwise the nearest integer in it. */
  ghost predicate IsShortest(d: nat, s: nat, ulp: real, regular: bool)
    requires s >= 1
  {
    && InInterval(d, s, ulp, regular)
    && (d % 10 == 0 || (&& (forall m: nat :: !InInterval(10 * m, s, ulp, regular))
                        && (forall c: nat :: InInterval(c, s, ulp, regular) ==> Preferred(d, c, s, ulp))))
  }

  // ---------------------------------------------------------------- the hypotheses

  predicate Even(t: nat) {
    t % 2 == 0
  }

  /** The entry is the exact power of ten, rounded down to the entry's width. */
  predicate Accurate(w: Width, pow10: Uint128, shift: nat, ulp: real) {
    var g, a := Entry(w, pow10), Pow(2, shift);
    (g * a) as real <= ulp * Scale(w) as real < ((g + 1) * a) as real
  }

  /** The product that is rounded to odd, and what stands for the number `t` beside it. */
  function RaisedProduct(w: Width, pow10: Uint128, shift: nat, x: nat): nat {
    (Entry(w, pow10) + 1) * Shl(x, shift)
  }

  function Mark(w: Width, t: nat): nat {
    t * Scale(w)
  }

  /** No even number of quarters is so close to `x * ulp` that the raised entry misjudges it. */
  ghost predicate Separated(w: Width, pow10: Uint128, shift: nat, x: nat, ulp: real) {
    forall t: nat :: Even(t) ==>
      && (Times(x, ulp) > t as real ==> RaisedProduct(w, pow10, shift, x) >= Mark(w, t) + 2 * Unseen(w))
      && (Times(x, ulp) < t as real ==> RaisedProduct(w, pow10, shift, x) < Mark(w, t))
  }

  /** The three products of Schubfach are separated. */
  ghost predicate AllSeparated(w: Width, pow10: Uint128, shift: nat, s: nat, ulp: real, regular: bool)
    requires s >= 1
  {
    && Separated(w, pow10, shift, 4 * s - LowerGap(regular), ulp)
    && Separated(w, pow10, shift, 4 * s, ulp)
    && Separated(w, pow10, shift, 4 * s + 2, ulp)
  }

  // ---------------------------------------------------------------- estimates

  /** An estimate compares to even numbers as the value it estimates. */
  ghost predicate ComparesAs(r: nat, v: real) {
    forall t: nat :: Even(t) ==> (r >= t <==> v >= t as real) && (r > t <==> v > t as real)
  }

  lemma MulReal(x: nat, g: nat, a: nat, u: real)
    requires x > 0
    ensures (g * a) as real <= u ==> (g * (x * a)) as real <= x as real * u
    ensures u < (g * a) as real ==> x as real * u < (g * (x * a)) as real
  {
    assert g * (x * a) == x * (g * a);
    assert (x * (g * a)) as real == x as real * (g * a) as real;
  }

  /** The exact product lies between the products with the entry and with the raised entry. */
  lemma ProductBounds(w: Width, pow10: Uint128, shift: nat, x: nat, ulp: real)
    requires Accurate(w, pow10, shift, ulp) && x > 0
    ensures var g, y, v := Entry(w, pow10), Shl(x, shift), Times(x, ulp) * Scale(w) as real;
            (g * y) as real <= v < ((g + 1) * y) as real && (g + 1) * y == g * y + y
  {
    hide Entry, Scale, Pow, Times;
    TimesAssoc(x, ulp, Scale(w) as real);
    ProductsAround(x, Entry(w, pow10), Pow(2, shift), ulp * Scale(w) as real, Shl(x, shift),
                   Times(x, ulp) * Scale(w) as real);
  }

  lemma ProductsAround(x: nat, g: nat, a: nat, u: real, y: nat, v: real)
    requires x > 0 && (g * a) as real <= u < ((g + 1) * a) as real && y == x * a && v == x as real * u
    ensures (g * y) as real <= v < ((g + 1) * y) as real && (g + 1) * y == g * y + y
  {
    MulReal(x, g, a, u);
    MulReal(x, g + 1, a, u);
    NextTimes(g, y);
  }

  lemma TimesAssoc(x: nat, ulp: real, k: real)
    ensures Times(x, ulp) * k == x as real * (ulp * k)
  {
  }

  lemma NextTimes(g: nat, y: nat)
    ensures (g + 1) * y == g * y + y
  {
  }

  lemma ScaledOrder(v: real, t: nat, k: nat)
    requires k > 0
    ensures v * k as real >= (t * k) as real <==> v >= t as real
    ensures v * k as real > (t * k) as real <==> v > t as real
  {
    assert (t * k) as real == t as real * k as real;
  }

  /** The estimate itself compares as the raised product does. */
  lemma EstimateOfProduct(w: Width, s: nat, x: nat, shift: nat, pow10: Uint128, t: nat)
    requires ValidArgs(w, s, shift, pow10) && x <= 4 * s + 2 && Even(t)
    ensures var r, z := Estimate(w, s, x, shift, pow10), RaisedProduct(w, pow10, shift, x);
            (r >= t <==> z >= Mark(w, t)) && (r > t <==> z >= Mark(w, t) + 2 * Unseen(w))
  {
    ShlFits(w, s, x, shift);
    hide InexactToOdd, Shl, Scale, Unseen, MaxUInt, Entry;
    InexactToOddCompares(w, Raised(w, pow10), Shl(x, shift), t);
  }

  /** Raising the entry adds less than what the rounding does not see. */
  lemma ProductNearValue(w: Width, s: nat, x: nat, shift: nat, pow10: Uint128, ulp: real, t: nat)
    requires ValidArgs(w, s, shift, pow10) && 0 < x <= 4 * s + 2 && Accurate(w, pow10, shift, ulp)
    ensures var v, z := Times(x, ulp), RaisedProduct(w, pow10, shift, x);
            && (v >= t as real ==> z >= Mark(w, t))
            && (v <= t as real ==> z < Mark(w, t) + 2 * Unseen(w))
  {
    ShlFits(w, s, x, shift);
    ProductBounds(w, pow10, shift, x, ulp);
    assert Shl(x, shift) < 2 * Unseen(w);
    hide Shl, Scale, Unseen, Entry, Times, Accurate;
    ScaledOrder(Times(x, ulp), t, Scale(w));
  }

  lemma EstimateComparesAt(w: Width, s: nat, x: nat, shift: nat, pow10: Uint128, ulp: real, t: nat)
    requires ValidArgs(w, s, shift, pow10) && 0 < x <= 4 * s + 2 && Even(t)
    requires Accurate(w, pow10, shift, ulp) && Separated(w, pow10, shift, x, ulp)
    ensures var r, v := Estimate(w, s, x, shift, pow10), Times(x, ulp);
            (r >= t <==> v >= t as real) && (r > t <==> v > t as real)
  {
    hide RaisedProduct, Mark, Unseen, Times, Estimate, ValidArgs, Accurate;
    EstimateOfProduct(w, s, x, shift, pow10, t);
    ProductNearValue(w, s, x, shift, pow10, ulp, t);
  }

  lemma EstimateCompares(w: Width, s: nat, x: nat, shift: nat, pow10: Uint128, ulp: real)
    requires ValidArgs(w, s, shift, pow10) && 0 < x <= 4 * s + 2
    requires Accurate(w, pow10, shift, ulp) && Separated(w, pow10, shift, x, ulp)
    ensures ComparesAs(Estimate(w, s, x, shift, pow10), Times(x, ulp))
  {
    hide Estimate, Accurate, Separated;
    forall t: nat | Even(t)
      ensures var r, v := Estimate(w, s, x, shift, pow10), Times(x, ulp);
              (r >= t <==> v >= t as real) && (r > t <==> v > t as real)
    {
      EstimateComparesAt(w, s, x, shift, pow10, ulp, t);
    }
  }

  // ---------------------------------------------------------------- Schubfach is right

  lemma Quarters(s: nat, ulp: real, regular: bool)
    requires s >= 1
    ensures var v := Times(4 * s, ulp);
            && LowEnd(s, ulp, regular) == v - (if regular then 2.0 else 1.0) * ulp
            && HighEnd(s, ulp) == v + 2.0 * ulp
  {
    assert (4 * s - LowerGap(regular)) as real == (4 * s) as real - (if regular then 2.0 else 1.0);
    assert (4 * s + 2) as real == (4 * s) as real + 2.0;
  }

  /** One decimal unit fits into the interval, so the interval holds an integer. */
  predicate UlpInRange(s: nat, ulp: real, regular: bool) {
    if regular then 1.0 <= ulp < 10.0 else 4.0 <= 3.0 * ulp && s % 2 == 0
  }

  lemma EndsCompare(d: nat, s: nat, ulp: real, regular: bool, lower: nat, upper: nat)
    requires s >= 1
    requires lower >= s % 2 && ComparesAs(lower - s % 2, LowEnd(s, ulp, regular))
    requires ComparesAs(upper + s % 2, HighEnd(s, ulp))
    ensures InInterval(d, s, ulp, regular) <==> lower <= 4 * d <= upper
  {
    assert Even(4 * d);
  }

  lemma ChooseIsShortest(w: Width, s: nat, ulp: real, regular: bool, lower: nat, upper: nat, scaled: nat)
    requires s >= 1 && UlpInRange(s, ulp, regular)
    requires scaled < MaxUInt(w) / 2
    requires lower >= s % 2 && ComparesAs(lower - s % 2, LowEnd(s, ulp, regular))
    requires ComparesAs(upper + s % 2, HighEnd(s, ulp))
    requires ComparesAs(scaled, Times(4 * s, ulp))
    ensures IsShortest(Choose(w, lower, upper, scaled), s, ulp, regular)
  {
    hide Times, ComparesAs, Longer;
    var shorter := upper / 4 / 10 * 10;
    forall d: nat
      ensures InInterval(d, s, ulp, regular) <==> lower <= 4 * d <= upper
    {
      EndsCompare(d, s, ulp, regular, lower, upper);
    }
    hide InInterval;
    if shorter * 4 < lower {
      forall m: nat
        ensures !InInterval(10 * m, s, ulp, regular)
      {
        LargestMultiple(upper, m);
      }
      LongerIsNearest(w, s, ulp, regular, lower, upper, scaled);
    }
  }

  lemma LargestMultiple(upper: nat, m: nat)
    ensures 4 * (10 * m) <= upper ==> 10 * m <= upper / 4 / 10 * 10
    ensures upper / 4 / 10 * 10 * 4 <= upper
  {
  }

  /** The last step of `Choose`, when no multiple of ten is in the interval. */
  lemma LongerIsNearest(w: Width, s: nat, ulp: real, regular: bool, lower: nat, upper: nat, scaled: nat)
    requires s >= 1 && UlpInRange(s, ulp, regular)
    requires scaled < MaxUInt(w) / 2
    requires forall d: nat :: InInterval(d, s, ulp, regular) <==> lower <= 4 * d <= upper
    requires ComparesAs(scaled, Times(4 * s, ulp))
    ensures var d := Longer(w, lower, scaled);
            && InInterval(d, s, ulp, regular)
            && forall c: nat :: InInterval(c, s, ulp, regular) ==> Preferred(d, c, s, ulp)
  {
    LongerMeaning(w, s, ulp, lower, scaled);
    Quarters(s, ulp, regular);
    hide Longer, ComparesAs;
    var d, below, v := Longer(w, lower, scaled), scaled / 4, Times(4 * s, ulp);
    NearestInInterval(s, ulp, regular, below, d, v);
    assert InInterval(below, s, ulp, regular) <==> lower <= 4 * below <= upper;
    forall c: nat | InInterval(c, s, ulp, regular)
      ensures Preferred(d, c, s, ulp)
    {
      assert c <= below ==> lower <= 4 * below;
      PreferredOver(s, ulp, below, d, c, v);
    }
  }

  lemma SmallSignedDiff(w: Width, a: nat, b: nat)
    requires a < MaxUInt(w) / 2 && b < a + 3
    ensures b <= MaxUInt(w) && SignedDiff(w, a, b) == a - b
  {
  }

  /** The comparison of the estimate with the midpoint, in terms of the value. */
  lemma LongerMeaning(w: Width, s: nat, ulp: real, lower: nat, scaled: nat)
    requires scaled < MaxUInt(w) / 2
    requires ComparesAs(scaled, Times(4 * s, ulp))
    ensures var below, v := scaled / 4, Times(4 * s, ulp);
            && (4 * below) as real <= v < (4 * below + 4) as real
            && Longer(w, lower, scaled)
               == if (v < (4 * below + 2) as real || (v == (4 * below + 2) as real && below % 2 == 0))
                  && below * 4 >= lower
                  then below else below + 1
  {
    hide Times, SignedDiff, ComparesAs, MaxUInt;
    var below := scaled / 4;
    QuarterFacts(scaled, Times(4 * s, ulp), below);
    SmallSignedDiff(w, scaled, (below + (below + 1)) * 2);
  }

  lemma QuarterFacts(r: nat, v: real, b: nat)
    requires ComparesAs(r, v) && b == r / 4
    ensures (4 * b) as real <= v < (4 * b + 4) as real
    ensures r > 4 * b + 2 <==> v > (4 * b + 2) as real
    ensures r >= 4 * b + 2 <==> v >= (4 * b + 2) as real
  {
    assert 4 * b <= r < 4 * b + 4;
    hide ComparesAs, Even;
    ComparesAt(r, v, 2 * b);
    ComparesAt(r, v, 2 * b + 1);
    ComparesAt(r, v, 2 * b + 2);
  }

  lemma ComparesAt(r: nat, v: real, half: nat)
    requires ComparesAs(r, v)
    ensures var t := 2 * half; (r >= t <==> v >= t as real) && (r > t <==> v > t as real)
  {
    assert Even(2 * half);
  }

  /** The nearer of two neighbours is in the interval; below an irregular value perhaps not. */
  lemma NearestInInterval(s: nat, ulp: real, regular: bool, below: nat, d: nat, v: real)
    requires s >= 1 && UlpInRange(s, ulp, regular)
    requires v == Times(4 * s, ulp) && (4 * below) as real <= v < (4 * below + 4) as real
    requires LowEnd(s, ulp, regular) == v - (if regular then 2.0 else 1.0) * ulp
    requires HighEnd(s, ulp) == v + 2.0 * ulp
    ensures v <= (4 * below + 2) as real && regular ==> InInterval(below, s, ulp, regular)
    ensures v <= (4 * below + 2) as real && (4 * below) as real < LowEnd(s, ulp, regular)
            ==> InInterval(below + 1, s, ulp, regular)
    ensures v >= (4 * below + 2) as real ==> InInterval(below + 1, s, ulp, regular)
    ensures (4 * below) as real >= LowEnd(s, ulp, regular) && s % 2 == 0 ==> InInterval(below, s, ulp, regular)
  {
    if ulp == 1.0 {
      assert v == (4 * s) as real;
      assert below == s;
    }
  }

  lemma PreferredOver(s: nat, ulp: real, below: nat, d: nat, c: nat, v: real)
    requires v == Times(4 * s, ulp) && (4 * below) as real <= v < (4 * below + 4) as real
    requires d == below || d == below + 1
    requires d == below ==> v < (4 * below + 2) as real || (v == (4 * below + 2) as real && below % 2 == 0)
    requires d == below + 1 ==>
      c > below || v > (4 * below + 2) as real || (v == (4 * below + 2) as real && below % 2 == 1)
    ensures Preferred(d, c, s, ulp)
  {
  }

  /** `to_decimal_schubfach` returns the shortest decimal that reads back. */
  lemma SchubfachIsShortest(w: Width, s: nat, shift: nat, pow10: Uint128, regular: bool, decExp: int, ulp: real)
    requires ValidArgs(w, s, shift, pow10) && UlpInRange(s, ulp, regular)
    requires Accurate(w, pow10, shift, ulp) && AllSeparated(w, pow10, shift, s, ulp, regular)
    ensures var r := ToDecimalSchubfach(w, s, shift, pow10, regular, decExp);
            r.exp == decExp && IsShortest(r.sig, s, ulp, regular)
  {
    hide *;
    SchubfachUnfolds(w, s, shift, pow10, regular, decExp);
    AllEstimatesCompare(w, s, shift, pow10, regular, ulp);
    ChooseIsShortest(w, s, ulp, regular, Lower(w, s, shift, pow10, regular), Upper(w, s, shift, pow10),
                     Estimate(w, s, 4 * s, shift, pow10));
  }

  lemma AllEstimatesCompare(w: Width, s: nat, shift: nat, pow10: Uint128, regular: bool, ulp: real)
    requires ValidArgs(w, s, shift, pow10)
    requires Accurate(w, pow10, shift, ulp) && AllSeparated(w, pow10, shift, s, ulp, regular)
    ensures s >= 1 && Lower(w, s, shift, pow10, regular) >= s % 2
    ensures ComparesAs(Lower(w, s, shift, pow10, regular) - s % 2, LowEnd(s, ulp, regular))
    ensures ComparesAs(Upper(w, s, shift, pow10) + s % 2, HighEnd(s, ulp))
    ensures ComparesAs(Estimate(w, s, 4 * s, shift, pow10), Times(4 * s, ulp))
  {
    hide ComparesAs, Estimate, Accurate, Separated, Times, ToDecimalSchubfach, Choose, MaxUInt, Usable, SigLimit;
    EstimateCompares(w, s, 4 * s - LowerGap(regular), shift, pow10, ulp);
    EstimateCompares(w, s, 4 * s, shift, pow10, ulp);
    EstimateCompares(w, s, 4 * s + 2, shift, pow10, ulp);
    SchubfachUnfolds(w, s, shift, pow10, regular, 0);
  }

  function Lower(w: Width, s: nat, shift: nat, pow10: Uint128, regular: bool): (r: nat)
    requires ValidArgs(w, s, shift, pow10)
  {
    Estimate(w, s, 4 * s - LowerGap(regular), shift, pow10) + s % 2
  }

  function Upper(w: Width, s: nat, shift: nat, pow10: Uint128): (r: nat)
    requires ValidArgs(w, s, shift, pow10)
  {
    EstimateBounds(w, s, 4 * s + 2, shift, pow10);
    Estimate(w, s, 4 * s + 2, shift, pow10) - s % 2
  }

  lemma SchubfachUnfolds(w: Width, s: nat, shift: nat, pow10: Uint128, regular: bool, decExp: int)
    requires ValidArgs(w, s, shift, pow10)
    ensures Estimate(w, s, 4 * s, shift, pow10) < MaxUInt(w) / 2
    ensures Lower(w, s, shift, pow10, regular) - s % 2 == Estimate(w, s, 4 * s - LowerGap(regular), shift, pow10)
    ensures Upper(w, s, shift, pow10) + s % 2 == Estimate(w, s, 4 * s + 2, shift, pow10)
    ensures ToDecimalSchubfach(w, s, shift, pow10, regular, decExp)
            == ToDecimalResult(Choose(w, Lower(w, s, shift, pow10, regular), Upper(w, s, shift, pow10),
                                      Estimate(w, s, 4 * s, shift, pow10)), decExp)
  {
    EstimateBounds(w, s, 4 * s, shift, pow10);
    EstimateBounds(w, s, 4 * s + 2, shift, pow10);
  }
}
