/**
 Whenever the loop body of `to_decimal_fast` returns, it returns what Schubfach returns.
 */
module FastPathProofs {

  import opened Wrappers
  import opened Multiply
  import opened Powers
  import opened Decimal
  import opened DecimalProofs

  /** The value and one unit in the last place, in units of the scaled product. */
  function ValueMark(w: Width, s: nat, ulp: real): real {
    Times(s, ulp) * Scale(w) as real
  }

  function UlpMark(w: Width, ulp: real): real {
    ulp * Scale(w) as real
  }

  /** One unit of the fixed-point numbers, in units of the scaled product. */
  function Grid(w: Width): nat {
    if w.Bits64? then 0x10_0000_0000_0000_0000 else B32
  }

  /** The product the fast path computes: the value scaled, from an entry rounded down. */
  function FastProduct(w: Width, s: nat, shift: nat, pow10: Uint128): nat {
    Entry(w, pow10) * Shl(s, shift)
  }

  lemma PartsOfProduct(w: Width, s: nat, shift: nat, pow10: Uint128)
    requires ValidArgs(w, s, shift, pow10)
    ensures var z, parts := FastProduct(w, s, shift, pow10), ScaledParts(w, s, shift, pow10);
            && parts.0 == z / Scale(w)
            && parts.1 == z % Scale(w) / (Scale(w) / B64)
  {
    IntegralIsSmall(w, s, shift, pow10);
    ShlFits(w, s, s, shift);
    var z := FastProduct(w, s, shift, pow10);
    if w.Bits64? {
      var p := Umul192Hi128(pow10.hi, pow10.lo, Shl(s, shift));
      SplitProduct(z, p.hi, p.lo);
    }
  }

  lemma SplitProduct(z: nat, hi: u64, lo: u64)
    requires hi * B64 + lo == z / B64
    ensures hi == z / B128 && lo == z % B128 / B64
  {
  }

  /** The fixed-point remainder: what is above the multiple of ten below, rounded down to the grid. */
  function Remainder(w: Width, z: nat): nat {
    z / Scale(w) % 10 * FractionBitsOf(w) + z % Scale(w) / (Scale(w) / B64) / IntegralBitsOf(w)
  }

  function TenBelow(w: Width, z: nat): nat {
    z / Scale(w) / 10 * 10
  }

  lemma RemainderOnGrid(w: Width, z: nat)
    ensures var above := z - TenBelow(w, z) * Scale(w);
            && Remainder(w, z) * Grid(w) <= above < (Remainder(w, z) + 1) * Grid(w)
            && Remainder(w, z) < 10 * FractionBitsOf(w)
  {
    var i, f := z / Scale(w), z % Scale(w);
    assert z == i * Scale(w) + f;
    FractionOnGrid(w, f);
    assert i == i / 10 * 10 + i % 10;
  }

  lemma FractionOnGrid(w: Width, f: nat)
    requires f < Scale(w)
    ensures var q := f / (Scale(w) / B64) / IntegralBitsOf(w);
            && q < FractionBitsOf(w) && q * Grid(w) <= f < (q + 1) * Grid(w)
  {
    if w.Bits64? {
      assert f / B64 / 16 == f / (B64 * 16);
    } else {
      assert f / 1 / B32 == f / B32;
    }
  }

  lemma GridDivides(w: Width, z: nat)
    ensures z / Grid(w) * Grid(w) == TenBelow(w, z) * Scale(w) + Remainder(w, z) * Grid(w)
    ensures Scale(w) == FractionBitsOf(w) * Grid(w)
  {
    RemainderOnGrid(w, z);
    var q := TenBelow(w, z) * FractionBitsOf(w) + Remainder(w, z);
    hide TenBelow, Remainder;
    if w.Bits64? {
      assert z / Grid(w) == q;
    } else {
      assert z / Grid(w) == q;
    }
  }

  /** Half a unit in the last place is the entry's half unit rounded down to the grid. */
  lemma HalfOnGrid(w: Width, shift: nat, pow10: Uint128)
    requires 1 <= shift <= 4
    ensures var half, g, a := HalfUlp(w, shift, pow10), Entry(w, pow10), Pow(2, shift);
            2 * half * Grid(w) <= g * a && (g + 1) * a <= 2 * (half + 1) * Grid(w)
  {
    var a, hi, half := Pow(2, shift), pow10.hi, HalfUlp(w, shift, pow10);
    ShiftFactor(shift);
    assert half == hi * a / (2 * IntegralBitsOf(w));
    hide HalfUlp, Grid, Pow;
    HighHalf(hi, a, 2 * IntegralBitsOf(w), half);
    if w.Bits64? {
      EntryFromHigh(hi, pow10.lo, a, half);
    } else {
      EntryIsHigh(hi, a, half);
    }
  }

  lemma ShiftFactor(shift: nat)
    requires 1 <= shift <= 4
    ensures Pow(2, shift) in {2, 4, 8, 16}
  {
    FirstPowersOfTwo();
  }

  lemma HighHalf(hi: u64, a: nat, n: nat, half: nat)
    requires a in {2, 4, 8, 16} && (n == 32 || n == 2 * B32) && half == hi * a / n
    ensures half * n <= hi * a && (hi + 1) * a <= (half + 1) * n
  {
    if a == 2 {
      HighHalfOf(hi, 2, n, half);
    } else if a == 4 {
      HighHalfOf(hi, 4, n, half);
    } else if a == 8 {
      HighHalfOf(hi, 8, n, half);
    } else {
      HighHalfOf(hi, 16, n, half);
    }
  }

  lemma HighHalfOf(hi: nat, a: nat, n: nat, half: nat)
    requires a > 0 && n > 0 && n % a == 0 && half == hi * a / n
    ensures half * n <= hi * a && (hi + 1) * a <= (half + 1) * n
  {
    var m := n / a;
    assert n == a * m;
    assert hi * a < (half + 1) * n && half * n <= hi * a by {
      DivBounds(hi * a, n);
    }
    assert (half + 1) * n == ((half + 1) * m) * a;
    if hi >= (half + 1) * m {
      MulBound((half + 1) * m, a, hi, a);
      assert false;
    }
    MulBound(hi + 1, a, (half + 1) * m, a);
  }

  lemma DivBounds(x: nat, n: nat)
    requires n > 0
    ensures x / n * n <= x < (x / n + 1) * n
  {
  }

  lemma EntryIsHigh(hi: u64, a: nat, half: nat)
    requires half * (2 * B32) <= hi * a && (hi + 1) * a <= (half + 1) * (2 * B32)
    ensures 2 * half * Grid(Bits32) <= hi * a && (hi + 1) * a <= 2 * (half + 1) * Grid(Bits32)
  {
  }

  lemma EntryFromHigh(hi: u64, lo: u64, a: nat, half: nat)
    requires half * 32 <= hi * a && (hi + 1) * a <= (half + 1) * 32
    ensures var g := hi * B64 + lo;
            2 * half * Grid(Bits64) <= g * a && (g + 1) * a <= 2 * (half + 1) * Grid(Bits64)
  {
    var g := hi * B64 + lo;
    MulBound(hi * B64, a, g, a);
    MulBound(g + 1, a, (hi + 1) * B64, a);
    assert hi * B64 * a == hi * a * B64;
    assert (hi + 1) * B64 * a == (hi + 1) * a * B64;
  }

  // ---------------------------------------------------------------- the hypotheses about exact hits

  predicate EndAt(m: nat, s: nat, ulp: real)
    requires s >= 1
  {
    Times(4 * s - 2, ulp) == (40 * m) as real || Times(4 * s + 2, ulp) == (40 * m) as real
  }

  predicate MiddleAt(n: nat, s: nat, ulp: real) {
    Times(4 * s, ulp) == (4 * n + 2) as real
  }

  /**
   When the value is exactly half way between two integers the product is exact, and when an
   end of its interval is exactly a multiple of ten the product is cut to the same grid point
   as the value. `ExactHits` proves both of every float.
   */
  ghost predicate HitsAreSafe(w: Width, s: nat, shift: nat, pow10: Uint128, ulp: real)
    requires s >= 1
  {
    var z, v := FastProduct(w, s, shift, pow10), ValueMark(w, s, ulp);
    && (forall m: nat :: EndAt(m, s, ulp) ==> v < ((z / Grid(w) + 1) * Grid(w)) as real)
    && (forall n: nat :: MiddleAt(n, s, ulp) ==> v == z as real)
  }

  // ---------------------------------------------------------------- the interval, scaled

  /** `InInterval` with everything multiplied by the scale: `v` the value, `u` one unit. */
  predicate Inside(d: real, v: real, u: real, even: bool) {
    if even then 2.0 * v - u <= 2.0 * d <= 2.0 * v + u else 2.0 * v - u < 2.0 * d < 2.0 * v + u
  }

  /** `v` is `t`, times `k`. */
  predicate Scales(t: real, k: nat, v: real) {
    t * k as real == v
  }

  predicate Multiplies(d: nat, k: nat, mark: nat) {
    d * k == mark
  }

  lemma TimesScaled(s: nat, ulp: real, k: nat)
    requires s >= 1
    ensures var v, u := Times(s, ulp) * k as real, ulp * k as real;
            && Scales(Times(4 * s - 2, ulp), k, 4.0 * v - 2.0 * u)
            && Scales(Times(4 * s, ulp), k, 4.0 * v)
            && Scales(Times(4 * s + 2, ulp), k, 4.0 * v + 2.0 * u)
  {
    assert (4 * s - 2) as real == 4.0 * s as real - 2.0;
    assert (4 * s + 2) as real == 4.0 * s as real + 2.0;
    assert Times(4 * s - 2, ulp) == 4.0 * Times(s, ulp) - 2.0 * ulp;
    assert Times(4 * s, ulp) == 4.0 * Times(s, ulp);
    assert Times(4 * s + 2, ulp) == 4.0 * Times(s, ulp) + 2.0 * ulp;
  }

  lemma InsideMeansInInterval(d: nat, s: nat, ulp: real, k: nat, mark: nat, v: real, u: real)
    requires s >= 1 && k > 0 && Multiplies(d, k, mark) && Scales(Times(s, ulp), k, v) && Scales(ulp, k, u)
    ensures InInterval(d, s, ulp, true) <==> Inside(mark as real, v, u, s % 2 == 0)
  {
    hide Times;
    TimesScaled(s, ulp, k);
    ScaledOrder(LowEnd(s, ulp, true), 4 * d, k);
    ScaledOrder(HighEnd(s, ulp), 4 * d, k);
    assert 4 * d * k == 4 * mark;
  }

  // ---------------------------------------------------------------- the decisions, scaled

  /**
   What is known of the numbers the fast path compares, all in units of the scaled product:
   `z` approximates the value `v`, `ten` is the multiple of ten below it, `c` and `half` are the
   fixed-point remainder and half unit, `grid` their resolution, `one` the number one.
   */
  datatype Scaled = Scaled(z: nat, v: real, u: real, err: nat, ten: nat, c: nat, half: nat, grid: nat, one: nat) {
    predicate Facts() {
      && z as real <= v < (z + err) as real
      && ten + c <= z < ten + c + grid
      && c + grid <= 10 * one
      && (2 * half) as real <= u < (2 * half + 2 * grid) as real
      && one as real <= u < (10 * one) as real
      && 4 * err < one
    }

    /** Rounding up to a multiple of ten is decided correctly when the fast path takes it. */
    lemma UpIsInside(even: bool)
      requires Facts() && c + half > 10 * one
      ensures Inside((ten + 10 * one) as real, v, u, even)
    {
    }

    /** The upper end does not reach the next multiple of ten: not even by an exact hit. */
    lemma UpFromEnd(end: real)
      requires Facts() && c + half + 2 * grid <= 10 * one
      requires end == 4.0 * v + 2.0 * u && end <= (4 * (ten + 10 * one)) as real
      requires end == (4 * (ten + 10 * one)) as real ==> v < (ten + c + grid) as real
      ensures 2.0 * v + u < (2 * ten + 20 * one) as real
    {
    }

    lemma DownFromEnd(end: real)
      requires Facts() && c + grid <= half
      requires end == 4.0 * v - 2.0 * u && end <= (4 * ten) as real
      requires end == (4 * ten) as real ==> v < (ten + c + grid) as real
      ensures 2.0 * v - u < (2 * ten) as real
    {
    }

    /** Rounding down is ruled out when the remainder is past the half unit. */
    lemma DownIsOutside(even: bool)
      requires Facts() && c >= half + grid
      ensures !Inside(ten as real, v, u, even) && 2.0 * v - u > (2 * ten) as real
    {
    }

    /** Rounding down is right when the lower end is below the multiple of ten. */
    lemma DownIsInside(even: bool)
      requires Facts() && 2.0 * v - u < (2 * ten) as real
      ensures Inside(ten as real, v, u, even)
    {
    }
  }

  function TenMark(w: Width, z: nat): nat {
    TenBelow(w, z) * Scale(w)
  }

  function RemainderMark(w: Width, z: nat): nat {
    Remainder(w, z) * Grid(w)
  }

  function HalfMark(w: Width, shift: nat, pow10: Uint128): nat
    requires 1 <= shift <= 4
  {
    HalfUlp(w, shift, pow10) * Grid(w)
  }

  function ScaledOf(w: Width, s: nat, shift: nat, pow10: Uint128, ulp: real): Scaled
    requires ValidArgs(w, s, shift, pow10)
  {
    var z, k := FastProduct(w, s, shift, pow10), Scale(w);
    Scaled(z, ValueMark(w, s, ulp), UlpMark(w, ulp), Shl(s, shift), TenMark(w, z),
           RemainderMark(w, z), HalfMark(w, shift, pow10), Grid(w), k)
  }

  lemma FactsHold(w: Width, s: nat, shift: nat, pow10: Uint128, ulp: real)
    requires ValidArgs(w, s, shift, pow10) && Accurate(w, pow10, shift, ulp) && 1.0 <= ulp < 10.0
    ensures ScaledOf(w, s, shift, pow10, ulp).Facts()
  {
    assert s >= 1 && 1 <= shift <= 4 && Scale(w) > 0;
    hide ValueMark, UlpMark, TenMark, RemainderMark, HalfMark, Shl, Grid, Scale, ValidArgs, Accurate, FastProduct;
    ValueBounds(w, s, shift, pow10, ulp);
    MarksBracket(w, FastProduct(w, s, shift, pow10));
    HalfNearUlp(w, shift, pow10, ulp);
    ErrorIsSmall(w, s, shift, pow10);
    UlpScaled(w, ulp);
  }

  lemma MarksBracket(w: Width, z: nat)
    ensures TenMark(w, z) + RemainderMark(w, z) <= z < TenMark(w, z) + RemainderMark(w, z) + Grid(w)
    ensures RemainderMark(w, z) + Grid(w) <= 10 * Scale(w)
    ensures z / Grid(w) * Grid(w) == TenMark(w, z) + RemainderMark(w, z)
  {
    hide Remainder, TenBelow, Grid, Scale, FractionBitsOf;
    RemainderOnGrid(w, z);
    GridDivides(w, z);
    RoomBelowTen(Remainder(w, z), FractionBitsOf(w), Grid(w));
  }

  lemma ValueBounds(w: Width, s: nat, shift: nat, pow10: Uint128, ulp: real)
    requires ValidArgs(w, s, shift, pow10) && Accurate(w, pow10, shift, ulp)
    ensures var z := FastProduct(w, s, shift, pow10);
            z as real <= ValueMark(w, s, ulp) < (z + Shl(s, shift)) as real
  {
    hide Scale, Shl, Entry, Times, Accurate, Pow;
    ProductBounds(w, pow10, shift, s, ulp);
  }

  lemma HalfNearUlp(w: Width, shift: nat, pow10: Uint128, ulp: real)
    requires 1 <= shift <= 4 && Accurate(w, pow10, shift, ulp)
    ensures var half := HalfMark(w, shift, pow10);
            (2 * half) as real <= UlpMark(w, ulp) < (2 * half + 2 * Grid(w)) as real
  {
    hide Scale, Entry, HalfUlp, Grid, Pow;
    HalfOnGrid(w, shift, pow10);
    HalfDistributes(HalfUlp(w, shift, pow10), Grid(w));
  }

  lemma HalfDistributes(half: nat, grid: nat)
    ensures 2 * half * grid == 2 * (half * grid)
    ensures 2 * (half + 1) * grid == 2 * (half * grid) + 2 * grid
  {
    assert (half + 1) * grid == half * grid + grid;
  }

  lemma UlpScaled(w: Width, ulp: real)
    requires 1.0 <= ulp < 10.0
    ensures Scale(w) as real <= UlpMark(w, ulp) < (10 * Scale(w)) as real
  {
    RealMulMono(1.0, ulp, Scale(w) as real);
    RealMulMono(ulp, 10.0, Scale(w) as real);
  }

  lemma RoomBelowTen(r: nat, f: nat, grid: nat)
    requires r < 10 * f
    ensures r * grid + grid <= 10 * (f * grid) && (r + 1) * grid == r * grid + grid
  {
    MulBound(r + 1, grid, 10 * f, grid);
  }

  lemma ErrorIsSmall(w: Width, s: nat, shift: nat, pow10: Uint128)
    requires ValidArgs(w, s, shift, pow10)
    ensures 4 * Shl(s, shift) < Scale(w)
  {
    ShlFits(w, s, s, shift);
  }

  // ---------------------------------------------------------------- using the separation

  /** A product with the entry below an even number: the value is not above that number. */
  lemma NotAbove(w: Width, s: nat, shift: nat, pow10: Uint128, x: nat, ulp: real, t: nat)
    requires ValidArgs(w, s, shift, pow10) && x <= 4 * s + 2 && Even(t)
    requires Separated(w, pow10, shift, x, ulp)
    requires Entry(w, pow10) * Shl(x, shift) < Mark(w, t)
    ensures Times(x, ulp) <= t as real
  {
    ShlFits(w, s, x, shift);
    assert Shl(x, shift) < 2 * Unseen(w);
    hide Scale, Shl, Entry, Unseen, Times, Mark, ValidArgs, MaxUInt, Pow;
    MulNext(Entry(w, pow10), Shl(x, shift));
  }

  lemma MulNext(g: nat, y: nat)
    ensures (g + 1) * y == g * y + y
  {
  }

  /** The products at the ends of the interval are the product of the value and half a unit away. */
  lemma EndProducts(w: Width, s: nat, shift: nat, pow10: Uint128)
    requires s >= 1
    ensures var g, z, e := Entry(w, pow10), FastProduct(w, s, shift, pow10), Entry(w, pow10) * Pow(2, shift);
            && g * Shl(4 * s + 2, shift) == 4 * z + 2 * e
            && g * Shl(4 * s, shift) == 4 * z
            && g * Shl(4 * s - 2, shift) + 2 * e == 4 * z
  {
    hide Entry, Pow;
    var g, a := Entry(w, pow10), Pow(2, shift);
    SumProduct(g, s, a);
    DifferenceProduct(g, s, a);
  }

  lemma SumProduct(g: nat, s: nat, a: nat)
    ensures g * ((4 * s + 2) * a) == 4 * (g * (s * a)) + 2 * (g * a)
    ensures g * ((4 * s) * a) == 4 * (g * (s * a))
  {
    var p := s * a;
    assert (4 * s + 2) * a == 4 * p + 2 * a;
    assert (4 * s) * a == 4 * p;
    assert g * (4 * p + 2 * a) == g * (4 * p) + g * (2 * a);
    assert g * (4 * p) == 4 * (g * p);
  }

  lemma DifferenceProduct(g: nat, s: nat, a: nat)
    requires s >= 1
    ensures g * ((4 * s - 2) * a) + 2 * (g * a) == 4 * (g * (s * a))
  {
    SumProduct(g, s, a);
    assert (4 * s - 2) * a == (4 * s) * a - 2 * a;
    assert g * ((4 * s) * a - 2 * a) == g * ((4 * s) * a) - g * (2 * a);
  }

  // ---------------------------------------------------------------- the result of the fast path

  function FractionOf(w: Width, z: nat): nat {
    z % Scale(w) / (Scale(w) / B64)
  }

  lemma HalfIsSmall(w: Width, s: nat, shift: nat, pow10: Uint128, ulp: real)
    requires ValidArgs(w, s, shift, pow10) && Accurate(w, pow10, shift, ulp) && 1.0 <= ulp < 10.0
    ensures HalfUlp(w, shift, pow10) < 5 * FractionBitsOf(w)
  {
    FactsHold(w, s, shift, pow10, ulp);
    var half, f, grid := HalfUlp(w, shift, pow10), FractionBitsOf(w), Grid(w);
    GridDivides(w, 0);
    hide HalfUlp, FractionBitsOf, Grid, Scale, Times, TenMark, RemainderMark, Shl;
    MulAssoc(5, f, grid);
    SmallFactor(half, 5 * f, grid);
  }

  lemma SmallFactor(x: nat, y: nat, grid: nat)
    requires x * grid < y * grid
    ensures x < y
  {
    if x >= y {
      MulBound(y, grid, x, grid);
    }
  }

  /** What the comparisons decide, without machine arithmetic. */
  ghost predicate Decides(fast: Option<ToDecimalResult>, w: Width, decExp: int,
                          integral: nat, fraction: nat, c: nat, half: nat) {
    var ten := 10 * FractionBitsOf(w);
    && (fast.None? <==> fraction == B63 || c + half == ten || c + half + 1 == ten || c == half)
    && (fast.Some? ==>
          && fast.value.exp == decExp
          && fast.value.sig == if c + half > ten then integral / 10 * 10 + 10
                               else if c < half then integral / 10 * 10
                               else integral + (if fraction >= B63 then 1 else 0))
  }

  lemma FastChoiceDecides(w: Width, integral: nat, fraction: u64, half: u64, decExp: int)
    requires integral < 0x4000_0000_0000_0000 && half < 5 * FractionBitsOf(w)
    ensures Decides(FastChoice(w, integral, fraction, half, decExp), w, decExp, integral, fraction,
                    integral % 10 * FractionBitsOf(w) + fraction / IntegralBitsOf(w), half)
  {
    LastDigit(integral);
    RemainderIsSmall(w, integral, fraction);
    hide Umul128Hi64, WrappingAdd64, FractionBitsOf, IntegralBitsOf;
    NoWrap(integral % 10 * FractionBitsOf(w) + fraction / IntegralBitsOf(w), half, 10 * FractionBitsOf(w));
  }

  lemma LastDigit(integral: nat)
    requires integral < 0x4000_0000_0000_0000
    ensures integral - Umul128Hi64(integral, DIV10_SIG64) * 10 == integral % 10
  {
    Div10IsExact(integral);
  }

  lemma RemainderIsSmall(w: Width, integral: nat, fraction: u64)
    ensures integral % 10 * FractionBitsOf(w) + fraction / IntegralBitsOf(w) < 10 * FractionBitsOf(w) <= 10 * B60
  {
  }

  /** The fast path with its machine arithmetic read as arithmetic. */
  lemma FastPathMeaning(w: Width, s: nat, shift: nat, pow10: Uint128, decExp: int, ulp: real)
    requires ValidArgs(w, s, shift, pow10) && Accurate(w, pow10, shift, ulp) && 1.0 <= ulp < 10.0
    ensures var z := FastProduct(w, s, shift, pow10);
            Decides(FastPath(w, s, shift, pow10, decExp), w, decExp, z / Scale(w), FractionOf(w, z),
                    Remainder(w, z), HalfUlp(w, shift, pow10))
  {
    assert 1 <= shift <= 4;
    hide FastChoice, ScaledParts, HalfUlp, Accurate, ValidArgs, FastProduct, Decides;
    var parts := ScaledParts(w, s, shift, pow10);
    PartsOfProduct(w, s, shift, pow10);
    HalfIsSmall(w, s, shift, pow10, ulp);
    IntegralIsSmall(w, s, shift, pow10);
    FastChoiceDecides(w, parts.0, parts.1, HalfUlp(w, shift, pow10), decExp);
  }

  lemma NoWrap(c: nat, half: nat, ten: nat)
    requires c < ten && 2 * half < ten && ten <= 10 * B60
    ensures c + half < B64 && WrappingAdd64(c, half) == c + half
    ensures (ten - (c + half)) % B64 <= 1 <==> c + half == ten || c + half + 1 == ten
  {
  }

  // ---------------------------------------------------------------- the three outcomes

  /** Everything assumed of one regular number, whose decimal unit is between one and ten. */
  ghost predicate Hypotheses(w: Width, s: nat, shift: nat, pow10: Uint128, ulp: real) {
    && ValidArgs(w, s, shift, pow10)
    && 1.0 <= ulp < 10.0
    && Accurate(w, pow10, shift, ulp)
    && AllSeparated(w, pow10, shift, s, ulp, true)
    && HitsAreSafe(w, s, shift, pow10, ulp)
  }

  lemma InsideTens(w: Width, s: nat, shift: nat, pow10: Uint128, ulp: real)
    requires ValidArgs(w, s, shift, pow10)
    ensures var z, x := FastProduct(w, s, shift, pow10), ScaledOf(w, s, shift, pow10, ulp);
            && (InInterval(TenBelow(w, z), s, ulp, true) <==> Inside(x.ten as real, x.v, x.u, s % 2 == 0))
            && (InInterval(TenBelow(w, z) + 10, s, ulp, true)
               <==> Inside((x.ten + 10 * x.one) as real, x.v, x.u, s % 2 == 0))
  {
    var z := FastProduct(w, s, shift, pow10);
    assert s >= 1 && Scale(w) > 0;
    hide FastProduct, TenBelow, Scale, Times, InInterval, Inside, TenMark, RemainderMark, HalfMark, Shl, Grid,
         ValidArgs;
    TenMarks(w, z);
    MarksScale(w, s, ulp);
    hide Scales, Multiplies, ValueMark, UlpMark;
    var x := ScaledOf(w, s, shift, pow10, ulp);
    InsideMeansInInterval(TenBelow(w, z), s, ulp, Scale(w), x.ten, x.v, x.u);
    InsideMeansInInterval(TenBelow(w, z) + 10, s, ulp, Scale(w), x.ten + 10 * x.one, x.v, x.u);
  }

  lemma MarksScale(w: Width, s: nat, ulp: real)
    ensures Scales(Times(s, ulp), Scale(w), ValueMark(w, s, ulp)) && Scales(ulp, Scale(w), UlpMark(w, ulp))
  {
  }

  lemma TenMarks(w: Width, z: nat)
    ensures Multiplies(TenBelow(w, z), Scale(w), TenMark(w, z))
    ensures Multiplies(TenBelow(w, z) + 10, Scale(w), TenMark(w, z) + 10 * Scale(w))
  {
    hide TenBelow, Scale;
  }

  lemma MarksOrder(w: Width, c: nat, half: nat)
    ensures c + half > 10 * FractionBitsOf(w) ==> c * Grid(w) + half * Grid(w) > 10 * Scale(w)
    ensures c + half + 2 <= 10 * FractionBitsOf(w) ==> c * Grid(w) + half * Grid(w) + 2 * Grid(w) <= 10 * Scale(w)
    ensures c > half ==> c * Grid(w) >= half * Grid(w) + Grid(w)
    ensures c < half ==> c * Grid(w) + Grid(w) <= half * Grid(w)
  {
  }

  /** The entry's half unit between the two grid points around it. */
  lemma EntryHalf(w: Width, shift: nat, pow10: Uint128)
    requires 1 <= shift <= 4
    ensures var e, half := Entry(w, pow10) * Pow(2, shift), HalfMark(w, shift, pow10);
            2 * half <= e < 2 * half + 2 * Grid(w)
  {
    HalfOnGrid(w, shift, pow10);
    assert Pow(2, shift) > 0;
    MulNext(Entry(w, pow10), Pow(2, shift));
    hide Entry, Grid, HalfUlp, Pow;
    HalfDistributes(HalfUlp(w, shift, pow10), Grid(w));
  }

  lemma MarkOf(w: Width, d: nat, mark: nat)
    requires d * Scale(w) == mark
    ensures Mark(w, 4 * d) == 4 * mark
  {
    hide Scale;
    assert 4 * d * Scale(w) == 4 * (d * Scale(w));
  }

  lemma UpProduct(w: Width, s: nat, shift: nat, pow10: Uint128, ulp: real)
    requires ValidArgs(w, s, shift, pow10)
    requires var x := ScaledOf(w, s, shift, pow10, ulp); x.c + x.half + 2 * x.grid <= 10 * x.one
    ensures Entry(w, pow10) * Shl(4 * s + 2, shift) < Mark(w, 4 * (TenBelow(w, FastProduct(w, s, shift, pow10)) + 10))
  {
    var z := FastProduct(w, s, shift, pow10);
    assert s >= 1 && 1 <= shift <= 4;
    hide FastProduct, TenBelow, Entry, Scale, Grid, HalfMark, RemainderMark, TenMark, Shl, ValidArgs, Mark, Pow;
    EndProducts(w, s, shift, pow10);
    EntryHalf(w, shift, pow10);
    MarksBracket(w, z);
    TenMarks(w, z);
    MarkOf(w, TenBelow(w, z) + 10, TenMark(w, z) + 10 * Scale(w));
  }

  lemma DownProduct(w: Width, s: nat, shift: nat, pow10: Uint128, ulp: real)
    requires ValidArgs(w, s, shift, pow10)
    requires var x := ScaledOf(w, s, shift, pow10, ulp); x.c + x.grid <= x.half
    ensures Entry(w, pow10) * Shl(4 * s - 2, shift) < Mark(w, 4 * TenBelow(w, FastProduct(w, s, shift, pow10)))
  {
    var z := FastProduct(w, s, shift, pow10);
    assert s >= 1 && 1 <= shift <= 4;
    hide FastProduct, TenBelow, Entry, Scale, Grid, HalfMark, RemainderMark, TenMark, Shl, ValidArgs, Mark, Pow;
    EndProducts(w, s, shift, pow10);
    EntryHalf(w, shift, pow10);
    MarksBracket(w, z);
    TenMarks(w, z);
    MarkOf(w, TenBelow(w, z), TenMark(w, z));
  }

  /** An end of the interval exactly on a multiple of ten is cut to the same grid point. */
  lemma EndHitIsSafe(w: Width, s: nat, shift: nat, pow10: Uint128, ulp: real, d: nat, m: nat)
    requires Hypotheses(w, s, shift, pow10, ulp) && d == 10 * m
    ensures var x := ScaledOf(w, s, shift, pow10, ulp);
            Times(4 * s - 2, ulp) == (4 * d) as real || Times(4 * s + 2, ulp) == (4 * d) as real
            ==> x.v < (x.ten + x.c + x.grid) as real
  {
    var z := FastProduct(w, s, shift, pow10);
    MarksBracket(w, z);
    MulNext(z / Grid(w), Grid(w));
    assert 40 * m == 4 * d;
    hide FastProduct, Grid, Scale, Times, TenMark, RemainderMark, HalfMark, Shl, AllSeparated, Accurate, ValueMark,
         UlpMark, ValidArgs;
    assert Times(4 * s - 2, ulp) == (4 * d) as real || Times(4 * s + 2, ulp) == (4 * d) as real ==> EndAt(m, s, ulp);
  }

  /** The scaled numbers in terms of the decimal candidates and the ends of the interval. */
  lemma ScaledFields(w: Width, s: nat, shift: nat, pow10: Uint128, ulp: real)
    requires ValidArgs(w, s, shift, pow10)
    ensures var x, d := ScaledOf(w, s, shift, pow10, ulp), TenBelow(w, FastProduct(w, s, shift, pow10));
            && x.one > 0
            && Multiplies(d, x.one, x.ten) && Multiplies(d + 10, x.one, x.ten + 10 * x.one)
            && Scales(Times(4 * s - 2, ulp), x.one, 4.0 * x.v - 2.0 * x.u)
            && Scales(Times(4 * s, ulp), x.one, 4.0 * x.v)
            && Scales(Times(4 * s + 2, ulp), x.one, 4.0 * x.v + 2.0 * x.u)
  {
    assert s >= 1 && Scale(w) > 0;
    hide FastProduct, TenBelow, Scale, Grid, HalfMark, RemainderMark, TenMark, Shl, Times, ValidArgs, Scales,
         Multiplies;
    TimesScaled(s, ulp, Scale(w));
    TenMarks(w, FastProduct(w, s, shift, pow10));
  }

  /** The upper end does not pass the next multiple of ten, and an exact hit is safe. */
  lemma UpNotAbove(w: Width, s: nat, shift: nat, pow10: Uint128, ulp: real)
    requires Hypotheses(w, s, shift, pow10, ulp)
    requires var x := ScaledOf(w, s, shift, pow10, ulp); x.c + x.half + 2 * x.grid <= 10 * x.one
    ensures var x, d := ScaledOf(w, s, shift, pow10, ulp), TenBelow(w, FastProduct(w, s, shift, pow10)) + 10;
            var t := Times(4 * s + 2, ulp);
            t <= (4 * d) as real && (t == (4 * d) as real ==> x.v < (x.ten + x.c + x.grid) as real)
  {
    var z := FastProduct(w, s, shift, pow10);
    var m := z / Scale(w) / 10 + 1;
    assert TenBelow(w, z) + 10 == 10 * m;
    hide ScaledOf, FastProduct, TenBelow, Entry, Scale, Shl, Times, ValidArgs, Mark, Separated, Accurate, HitsAreSafe,
         Even;
    EvenFour(10 * m);
    UpProduct(w, s, shift, pow10, ulp);
    NotAbove(w, s, shift, pow10, 4 * s + 2, ulp, 4 * (10 * m));
    EndHitIsSafe(w, s, shift, pow10, ulp, 10 * m, m);
  }

  lemma DownNotAbove(w: Width, s: nat, shift: nat, pow10: Uint128, ulp: real)
    requires Hypotheses(w, s, shift, pow10, ulp)
    requires var x := ScaledOf(w, s, shift, pow10, ulp); x.c + x.grid <= x.half
    ensures var x, d := ScaledOf(w, s, shift, pow10, ulp), TenBelow(w, FastProduct(w, s, shift, pow10));
            var t := Times(4 * s - 2, ulp);
            t <= (4 * d) as real && (t == (4 * d) as real ==> x.v < (x.ten + x.c + x.grid) as real)
  {
    var z := FastProduct(w, s, shift, pow10);
    var m := z / Scale(w) / 10;
    assert TenBelow(w, z) == 10 * m;
    hide ScaledOf, FastProduct, TenBelow, Entry, Scale, Shl, Times, ValidArgs, Mark, Separated, Accurate, HitsAreSafe,
         Even;
    EvenFour(10 * m);
    DownProduct(w, s, shift, pow10, ulp);
    NotAbove(w, s, shift, pow10, 4 * s - 2, ulp, 4 * (10 * m));
    EndHitIsSafe(w, s, shift, pow10, ulp, 10 * m, m);
  }

  /** Rounding up is ruled out when the fixed-point sum is two grid units below ten. */
  lemma UpIsOutside(w: Width, s: nat, shift: nat, pow10: Uint128, ulp: real)
    requires Hypotheses(w, s, shift, pow10, ulp)
    requires var x := ScaledOf(w, s, shift, pow10, ulp); x.c + x.half + 2 * x.grid <= 10 * x.one
    ensures var x := ScaledOf(w, s, shift, pow10, ulp); 2.0 * x.v + x.u < (2 * x.ten + 20 * x.one) as real
  {
    assert ValidArgs(w, s, shift, pow10) && Accurate(w, pow10, shift, ulp) && 1.0 <= ulp < 10.0;
    hide *;
    UpNotAbove(w, s, shift, pow10, ulp);
    FactsHold(w, s, shift, pow10, ulp);
    ScaledFields(w, s, shift, pow10, ulp);
    var x := ScaledOf(w, s, shift, pow10, ulp);
    UpEnd(x, Times(4 * s + 2, ulp), TenBelow(w, FastProduct(w, s, shift, pow10)) + 10, x.one);
  }

  lemma EvenFour(d: nat)
    ensures Even(4 * d)
  {
  }

  lemma UpEnd(x: Scaled, t: real, d: nat, k: nat)
    requires x.Facts() && x.c + x.half + 2 * x.grid <= 10 * x.one
    requires k > 0 && Multiplies(d, k, x.ten + 10 * x.one) && Scales(t, k, 4.0 * x.v + 2.0 * x.u)
    requires t <= (4 * d) as real && (t == (4 * d) as real ==> x.v < (x.ten + x.c + x.grid) as real)
    ensures 2.0 * x.v + x.u < (2 * x.ten + 20 * x.one) as real
  {
    ScaledCompare(t, d, k, x.ten + 10 * x.one);
    x.UpFromEnd(t * k as real);
  }

  lemma DownEnd(x: Scaled, t: real, d: nat, k: nat)
    requires x.Facts() && x.c + x.grid <= x.half
    requires k > 0 && Multiplies(d, k, x.ten) && Scales(t, k, 4.0 * x.v - 2.0 * x.u)
    requires t <= (4 * d) as real && (t == (4 * d) as real ==> x.v < (x.ten + x.c + x.grid) as real)
    ensures 2.0 * x.v - x.u < (2 * x.ten) as real
  {
    ScaledCompare(t, d, k, x.ten);
    x.DownFromEnd(t * k as real);
  }

  lemma ScaledCompare(t: real, d: nat, k: nat, mark: nat)
    requires k > 0 && d * k == mark
    ensures t <= (4 * d) as real ==> t * k as real <= (4 * mark) as real
    ensures t * k as real == (4 * mark) as real ==> t == (4 * d) as real
  {
    ScaledOrder(t, 4 * d, k);
    assert 4 * d * k == 4 * mark;
  }

  /** Rounding down is right when the remainder is a grid unit below the half unit. */
  lemma DownIsBelow(w: Width, s: nat, shift: nat, pow10: Uint128, ulp: real)
    requires Hypotheses(w, s, shift, pow10, ulp)
    requires var x := ScaledOf(w, s, shift, pow10, ulp); x.c + x.grid <= x.half
    ensures var x := ScaledOf(w, s, shift, pow10, ulp); 2.0 * x.v - x.u < (2 * x.ten) as real
  {
    assert ValidArgs(w, s, shift, pow10) && Accurate(w, pow10, shift, ulp) && 1.0 <= ulp < 10.0;
    hide *;
    DownNotAbove(w, s, shift, pow10, ulp);
    FactsHold(w, s, shift, pow10, ulp);
    ScaledFields(w, s, shift, pow10, ulp);
    var x := ScaledOf(w, s, shift, pow10, ulp);
    DownEnd(x, Times(4 * s - 2, ulp), TenBelow(w, FastProduct(w, s, shift, pow10)), x.one);
  }

  // ---------------------------------------------------------------- the value between two integers

  /** With the fraction past one half, the value is nearer the next integer. */
  lemma NearNext(w: Width, s: nat, shift: nat, pow10: Uint128, ulp: real)
    requires Hypotheses(w, s, shift, pow10, ulp)
    requires FractionOf(w, FastProduct(w, s, shift, pow10)) > B63
    ensures Distance(FastProduct(w, s, shift, pow10) / Scale(w) + 1, s, ulp) < 2.0
  {
    var z := FastProduct(w, s, shift, pow10);
    var i := z / Scale(w);
    FactsHold(w, s, shift, pow10, ulp);
    ScaledFields(w, s, shift, pow10, ulp);
    FractionBounds(w, z);
    assert ScaledOf(w, s, shift, pow10, ulp).z == z && ScaledOf(w, s, shift, pow10, ulp).one == Scale(w);
    hide ScaledOf, FastProduct, Scale, Times, TenBelow, Hypotheses, FractionOf;
    var x := ScaledOf(w, s, shift, pow10, ulp);
    CloserThanHalf(Times(4 * s, ulp), i + 1, x.one, x.v);
  }

  /** With the fraction below one half, the value is nearer the integer below. */
  lemma NearBelow(w: Width, s: nat, shift: nat, pow10: Uint128, ulp: real)
    requires Hypotheses(w, s, shift, pow10, ulp)
    requires FractionOf(w, FastProduct(w, s, shift, pow10)) < B63
    ensures Distance(FastProduct(w, s, shift, pow10) / Scale(w), s, ulp) < 2.0
  {
    var z := FastProduct(w, s, shift, pow10);
    var i := z / Scale(w);
    FactsHold(w, s, shift, pow10, ulp);
    ScaledFields(w, s, shift, pow10, ulp);
    FractionBounds(w, z);
    MiddleNotReached(w, s, shift, pow10, ulp);
    assert ScaledOf(w, s, shift, pow10, ulp).z == z && ScaledOf(w, s, shift, pow10, ulp).one == Scale(w);
    hide ScaledOf, FastProduct, Scale, Times, TenBelow, Hypotheses, FractionOf;
    var x := ScaledOf(w, s, shift, pow10, ulp);
    CloserThanHalf(Times(4 * s, ulp), i, x.one, x.v);
  }

  lemma FractionBounds(w: Width, z: nat)
    ensures var i, k := z / Scale(w), Scale(w);
            && i * k <= z < i * k + k
            && (i + 1) * k == i * k + k
            && (FractionOf(w, z) > B63 ==> 2 * z > 2 * (i * k) + k)
            && (FractionOf(w, z) < B63 ==> 2 * z < 2 * (i * k) + k)
  {
  }

  /** A value less than half a unit from an integer, scaled by `k`. */
  lemma CloserThanHalf(t: real, i: nat, k: nat, v: real)
    requires k > 0 && Scales(t, k, 4.0 * v)
    requires 2.0 * v < (2 * (i * k) + k) as real && 2.0 * v > (2 * (i * k)) as real - k as real
    ensures -2.0 < (4 * i) as real - t < 2.0
  {
    DifferenceScaled(t, i, k, v);
    BelowTwo((4 * i) as real - t, k as real, 4.0 * (i * k) as real - 4.0 * v);
  }

  lemma BelowTwo(diff: real, k: real, scaled: real)
    requires k > 0.0 && diff * k == scaled && -2.0 * k < scaled < 2.0 * k
    ensures -2.0 < diff < 2.0
  {
    if diff >= 2.0 {
      RealMulMono(2.0, diff, k);
    }
    if diff <= -2.0 {
      RealMulMono(diff, -2.0, k);
    }
  }

  lemma DifferenceScaled(t: real, i: nat, k: nat, v: real)
    requires t * k as real == 4.0 * v
    ensures ((4 * i) as real - t) * k as real == 4.0 * (i * k) as real - 4.0 * v
  {
    assert (i * k) as real == i as real * k as real;
    assert (4 * i) as real == 4.0 * i as real;
    assert ((4 * i) as real - t) * k as real == 4.0 * i as real * k as real - t * k as real;
  }

  /** Below one half the value stays below one half: an exact half would have been seen. */
  lemma MiddleNotReached(w: Width, s: nat, shift: nat, pow10: Uint128, ulp: real)
    requires Hypotheses(w, s, shift, pow10, ulp)
    requires FractionOf(w, FastProduct(w, s, shift, pow10)) < B63
    ensures var z := FastProduct(w, s, shift, pow10);
            2.0 * ValueMark(w, s, ulp) < (2 * (z / Scale(w) * Scale(w)) + Scale(w)) as real
  {
    assert ValidArgs(w, s, shift, pow10) && Scale(w) > 0;
    var z := FastProduct(w, s, shift, pow10);
    var i := z / Scale(w);
    hide *;
    MiddleNotPassed(w, s, shift, pow10, ulp);
    FractionBounds(w, z);
    MiddleHit(w, s, shift, pow10, ulp, i);
    MiddleScaled(w, s, ulp);
    HalfWay(Times(4 * s, ulp), i, Scale(w), ValueMark(w, s, ulp), z);
  }

  lemma MiddleHit(w: Width, s: nat, shift: nat, pow10: Uint128, ulp: real, i: nat)
    requires Hypotheses(w, s, shift, pow10, ulp)
    ensures Times(4 * s, ulp) == (4 * i + 2) as real ==> ValueMark(w, s, ulp) == FastProduct(w, s, shift, pow10) as real
  {
    hide Times, ValueMark, FastProduct, AllSeparated, Accurate, ValidArgs;
    assert Times(4 * s, ulp) == (4 * i + 2) as real ==> MiddleAt(i, s, ulp);
  }

  lemma MiddleScaled(w: Width, s: nat, ulp: real)
    ensures Times(4 * s, ulp) * Scale(w) as real == 4.0 * ValueMark(w, s, ulp)
  {
    hide Scale;
    assert Times(4 * s, ulp) == 4.0 * Times(s, ulp);
  }

  lemma HalfWay(t: real, i: nat, k: nat, v: real, z: nat)
    requires k > 0 && t * k as real == 4.0 * v && t <= (4 * i + 2) as real
    requires t == (4 * i + 2) as real ==> v == z as real
    requires 2 * z < 2 * (i * k) + k
    ensures 2.0 * v < (2 * (i * k) + k) as real
  {
    var middle := (4 * i + 2) as real;
    assert middle * k as real == 4.0 * (i * k) as real + 2.0 * k as real by {
      assert (i * k) as real == i as real * k as real;
      assert middle == 4.0 * i as real + 2.0;
    }
    RealMulMono(t, middle, k as real);
    if t < middle {
      assert t * k as real < middle * k as real;
    }
  }

  lemma MiddleNotPassed(w: Width, s: nat, shift: nat, pow10: Uint128, ulp: real)
    requires Hypotheses(w, s, shift, pow10, ulp)
    requires FractionOf(w, FastProduct(w, s, shift, pow10)) < B63
    ensures Times(4 * s, ulp) <= (4 * (FastProduct(w, s, shift, pow10) / Scale(w)) + 2) as real
  {
    var z := FastProduct(w, s, shift, pow10);
    var i := z / Scale(w);
    FractionBounds(w, z);
    assert s >= 1;
    hide FastProduct, Entry, Scale, Shl, Times, ValidArgs, Separated, Accurate, HitsAreSafe, Even, FractionOf;
    EndProducts(w, s, shift, pow10);
    EvenMiddle(i);
    MiddleMark(w, i);
    NotAbove(w, s, shift, pow10, 4 * s, ulp, 4 * i + 2);
  }

  lemma EvenMiddle(i: nat)
    ensures Even(4 * i + 2)
  {
    assert 4 * i + 2 == 2 * (2 * i + 1);
  }

  lemma MiddleMark(w: Width, i: nat)
    ensures Mark(w, 4 * i + 2) == 4 * (i * Scale(w)) + 2 * Scale(w)
  {
    hide Scale;
    assert (4 * i + 2) * Scale(w) == 4 * i * Scale(w) + 2 * Scale(w);
    assert 4 * i * Scale(w) == 4 * (i * Scale(w));
  }

  // ---------------------------------------------------------------- agreement

  /** No multiple of ten reads back. */
  ghost predicate NoTens(s: nat, ulp: real)
    requires s >= 1
  {
    forall m: nat :: !InInterval(10 * m, s, ulp, true)
  }

  /** Both neighbouring multiples of ten are outside, hence all are. */
  lemma NoTensOutside(s: nat, ulp: real, m: nat)
    requires s >= 1
    requires (40 * m) as real < LowEnd(s, ulp, true) && HighEnd(s, ulp) < (40 * (m + 1)) as real
    ensures NoTens(s, ulp)
  {
    hide LowEnd, HighEnd;
    forall n: nat
      ensures !InInterval(10 * n, s, ulp, true)
    {
      assert n <= m || n >= m + 1;
    }
  }

  lemma ScaledCompareStrict(t: real, d: nat, k: nat, mark: nat)
    requires k > 0 && d * k == mark
    ensures t * k as real < (4 * mark) as real ==> t < (4 * d) as real
    ensures t * k as real > (4 * mark) as real ==> t > (4 * d) as real
  {
    ScaledOrder(t, 4 * d, k);
    assert 4 * d * k == 4 * mark;
  }

  lemma TensRuledOut(w: Width, s: nat, shift: nat, pow10: Uint128, ulp: real)
    requires ValidArgs(w, s, shift, pow10)
    requires var x := ScaledOf(w, s, shift, pow10, ulp);
             2.0 * x.v - x.u > (2 * x.ten) as real && 2.0 * x.v + x.u < (2 * x.ten + 20 * x.one) as real
    ensures NoTens(s, ulp)
  {
    var z := FastProduct(w, s, shift, pow10);
    var m := z / Scale(w) / 10;
    assert TenBelow(w, z) == 10 * m;
    assert LowEnd(s, ulp, true) == Times(4 * s - 2, ulp) && HighEnd(s, ulp) == Times(4 * s + 2, ulp);
    ScaledFields(w, s, shift, pow10, ulp);
    hide ScaledOf, FastProduct, Scale, TenBelow, Times, ValidArgs, NoTens, LowEnd, HighEnd;
    var x := ScaledOf(w, s, shift, pow10, ulp);
    ScaledCompareStrict(Times(4 * s - 2, ulp), 10 * m, x.one, x.ten);
    ScaledCompareStrict(Times(4 * s + 2, ulp), 10 * m + 10, x.one, x.ten + 10 * x.one);
    NoTensOutside(s, ulp, m);
  }

  /** What a number must be to be the shortest: a multiple of ten that reads back, or very near. */
  ghost predicate Settles(d: nat, s: nat, ulp: real)
    requires s >= 1
  {
    || (d % 10 == 0 && InInterval(d, s, ulp, true))
    || (NoTens(s, ulp) && Distance(d, s, ulp) < 2.0)
  }

  lemma TensSettle(w: Width, s: nat, shift: nat, pow10: Uint128, ulp: real)
    requires ValidArgs(w, s, shift, pow10)
    ensures var d, x := TenBelow(w, FastProduct(w, s, shift, pow10)), ScaledOf(w, s, shift, pow10, ulp);
            && (Inside(x.ten as real, x.v, x.u, s % 2 == 0) ==> Settles(d, s, ulp))
            && (Inside((x.ten + 10 * x.one) as real, x.v, x.u, s % 2 == 0) ==> Settles(d + 10, s, ulp))
  {
    hide FastProduct, Inside, ScaledOf, InInterval, NoTens, Distance, Scale, ValidArgs;
    InsideTens(w, s, shift, pow10, ulp);
  }

  lemma FastOutcome(w: Width, s: nat, shift: nat, pow10: Uint128, ulp: real, d: nat)
    requires Hypotheses(w, s, shift, pow10, ulp)
    requires var z := FastProduct(w, s, shift, pow10);
             var c, half, ten := Remainder(w, z), HalfUlp(w, shift, pow10), 10 * FractionBitsOf(w);
             && FractionOf(w, z) != B63 && c + half != ten && c + half + 1 != ten && c != half
             && d == if c + half > ten then TenBelow(w, z) + 10
                     else if c < half then TenBelow(w, z)
                     else z / Scale(w) + (if FractionOf(w, z) >= B63 then 1 else 0)
    ensures Settles(d, s, ulp)
  {
    var z, x := FastProduct(w, s, shift, pow10), ScaledOf(w, s, shift, pow10, ulp);
    var c, half := Remainder(w, z), HalfUlp(w, shift, pow10);
    assert x.c == c * Grid(w) && x.half == half * Grid(w) && x.one == Scale(w) && x.grid == Grid(w);
    FactsHold(w, s, shift, pow10, ulp);
    MarksOrder(w, c, half);
    TensSettle(w, s, shift, pow10, ulp);
    hide FastProduct, ScaledOf, Remainder, HalfUlp, Grid, Scale, FractionBitsOf, FractionOf, TenBelow, Hypotheses,
         Inside;
    if c + half > 10 * FractionBitsOf(w) {
      x.UpIsInside(s % 2 == 0);
    } else {
      UpIsOutside(w, s, shift, pow10, ulp);
      if c < half {
        DownIsBelow(w, s, shift, pow10, ulp);
        x.DownIsInside(s % 2 == 0);
      } else {
        x.DownIsOutside(s % 2 == 0);
        TensRuledOut(w, s, shift, pow10, ulp);
        if FractionOf(w, z) >= B63 {
          NearNext(w, s, shift, pow10, ulp);
        } else {
          NearBelow(w, s, shift, pow10, ulp);
        }
      }
    }
  }

  /** The shortest number is unique. */
  lemma SettledIsShortest(s: nat, ulp: real, d: nat, r: nat)
    requires s >= 1 && 1.0 <= ulp < 10.0
    requires Settles(d, s, ulp) && IsShortest(r, s, ulp, true)
    ensures r == d
  {
    Quarters(s, ulp, true);
    hide Times, LowEnd, HighEnd, InInterval;
    if d % 10 == 0 && InInterval(d, s, ulp, true) {
      assert InInterval(10 * (d / 10), s, ulp, true);
      assert r % 10 == 0;
    } else {
      var tens := 10 * (r / 10);
      assert !InInterval(tens, s, ulp, true);
      assert InInterval(d, s, ulp, true);
      assert Preferred(r, d, s, ulp);
    }
  }

  /**
   The fast path agrees with Schubfach on every regular number it does not hand over, and both
   return the shortest decimal that reads back.
   */
  lemma FastIsSchubfach(w: Width, s: nat, shift: nat, pow10: Uint128, decExp: int, ulp: real)
    requires Hypotheses(w, s, shift, pow10, ulp)
    ensures ToDecimalFast(w, s, shift, pow10, true, decExp) == ToDecimalSchubfach(w, s, shift, pow10, true, decExp)
    ensures IsShortest(ToDecimalFast(w, s, shift, pow10, true, decExp).sig, s, ulp, true)
  {
    SchubfachIsShortest(w, s, shift, pow10, true, decExp, ulp);
    FastPathMeaning(w, s, shift, pow10, decExp, ulp);
    hide ToDecimalSchubfach, FastPath, Hypotheses, FastProduct, Remainder, HalfUlp, IsShortest, FractionOf, Scale,
         FractionBitsOf;
    var fast := FastPath(w, s, shift, pow10, decExp);
    if fast.Some? {
      FastOutcome(w, s, shift, pow10, ulp, fast.value.sig);
      SettledIsShortest(s, ulp, fast.value.sig, ToDecimalSchubfach(w, s, shift, pow10, true, decExp).sig);
    }
  }
}
