/**
 The exponent arithmetic of `patches/zmij/src/lib.rs`: `compute_dec_exp` as an exact logarithm,
 the shift that aligns a scaled significand, and the table of shifts.
 */
module Exponents {

  import opened Powers

  type u8 = x: nat | x < 256

  const LOG10_3_OVER_4_SIG := 131_072
  const LOG10_2_SIG := 315_653
  const LOG10_2_EXP_POW := 0x10_0000
  const LOG2_POW10_SIG := 217_707
  const LOG2_POW10_EXP_POW := 0x1_0000
  const F64_EXP_OFFSET := 1075

  /** `compute_dec_exp`; an arithmetic shift right is a division rounding down. */
  function ComputeDecExp(binExp: int, regular: bool): int
    requires -1334 <= binExp <= 2620
  {
    (binExp * LOG10_2_SIG - (if regular then 0 else LOG10_3_OVER_4_SIG)) / LOG10_2_EXP_POW
  }

  // ---------------------------------------------------------------- 2^b against 10^a

  /** `p^n <= a * 2^b` and `p^m <= c * 2^d` make `p^(n+m) <= r * 2^(b+d+x)`. */
  lemma Upper(p: nat, n: nat, a: nat, b: nat, m: nat, c: nat, d: nat, r: nat, x: nat)
    requires Pow(p, n) <= a * Pow(2, b) && Pow(p, m) <= c * Pow(2, d)
    requires a * c <= r * Pow(2, x)
    ensures Pow(p, n + m) <= r * Pow(2, b + d + x)
  {
    hide Pow;
    PowAdd(p, n, m);
    PowAdd(2, b, d);
    PowAdd(2, b + d, x);
    MulMono(Pow(p, n), Pow(p, m), a * Pow(2, b), c * Pow(2, d));
    MulSwap(a, Pow(2, b), c, Pow(2, d));
    MulMono(a * c, Pow(2, b + d), r * Pow(2, x), Pow(2, b + d));
    MulSwap(r, Pow(2, x), 1, Pow(2, b + d));
  }

  lemma Lower(p: nat, n: nat, a: nat, b: nat, m: nat, c: nat, d: nat, r: nat, x: nat)
    requires Pow(p, n) >= a * Pow(2, b) && Pow(p, m) >= c * Pow(2, d)
    requires a * c >= r * Pow(2, x)
    ensures Pow(p, n + m) >= r * Pow(2, b + d + x)
  {
    hide Pow;
    PowAdd(p, n, m);
    PowAdd(2, b, d);
    PowAdd(2, b + d, x);
    MulMono(a * Pow(2, b), c * Pow(2, d), Pow(p, n), Pow(p, m));
    MulSwap(a, Pow(2, b), c, Pow(2, d));
    MulMono(r * Pow(2, x), Pow(2, b + d), a * c, Pow(2, b + d));
    MulSwap(r, Pow(2, x), 1, Pow(2, b + d));
  }

  lemma SmallPowers()
    ensures Pow(2, 0) == 1 && Pow(2, 1) == 2 && Pow(2, 2) == 4 && Pow(2, 3) == 8 && Pow(10, 1) == 10
    ensures Pow(2, 27) == 0x800_0000
    ensures Pow(2, 36) == 0x10_0000_0000
    ensures Pow(2, 45) == 0x2000_0000_0000
    ensures Pow(2, 47) == 0x8000_0000_0000
    ensures Pow(2, 48) == 0x1_0000_0000_0000
  {
    PowAdd(2, 6, 6);
    PowAdd(2, 12, 12);
    PowAdd(2, 24, 12);
    PowAdd(2, 24, 3);
    PowAdd(2, 36, 9);
    PowAdd(2, 45, 2);
    PowAdd(2, 24, 24);
  }

  /** 643/2136 is below log10(2). */
  lemma Convergent2136()
    ensures Pow(10, 643) < Pow(2, 2136)
  {
    hide Pow;
    SmallPowers();
    Upper(10, 1, 5, 1, 1, 5, 1, 25, 0);
    Upper(10, 2, 25, 2, 2, 25, 2, 625, 0);
    Upper(10, 4, 625, 4, 1, 5, 1, 3125, 0);
    Upper(10, 5, 3125, 5, 5, 3125, 5, 9765625, 0);
    Upper(10, 10, 9765625, 10, 10, 9765625, 10, 95367431640625, 0);
    Upper(10, 20, 95367431640625, 20, 20, 95367431640625, 20, 258493941422822, 45);
    Upper(10, 40, 258493941422822, 85, 40, 258493941422822, 85, 237389193643997, 48);
    Upper(10, 80, 237389193643997, 218, 80, 237389193643997, 218, 200208309518314, 48);
    Upper(10, 160, 200208309518314, 484, 160, 200208309518314, 484, 142404726944467, 48);
    Upper(10, 320, 142404726944467, 1016, 1, 5, 1, 178005908680584, 2);
    Upper(10, 321, 178005908680584, 1019, 321, 178005908680584, 1019, 225143306843737, 47);
    Upper(10, 642, 225143306843737, 2085, 1, 5, 1, 281429133554672, 2);
    PowAdd(2, 2088, 48);
    MulMono(281429133554672, Pow(2, 2088), 281474976710656, Pow(2, 2088));
  }

  lemma PowerOf146()
    ensures Pow(10, 146) >= 140884073147364 * Pow(2, 438)
  {
    hide Pow;
    SmallPowers();
    Lower(10, 1, 5, 1, 1, 5, 1, 25, 0);
    Lower(10, 2, 25, 2, 2, 25, 2, 625, 0);
    Lower(10, 4, 625, 4, 4, 625, 4, 390625, 0);
    Lower(10, 8, 390625, 8, 1, 5, 1, 1953125, 0);
    Lower(10, 9, 1953125, 9, 9, 1953125, 9, 3814697265625, 0);
    Lower(10, 18, 3814697265625, 18, 18, 3814697265625, 18, 211758236813575, 36);
    Lower(10, 36, 211758236813575, 72, 36, 211758236813575, 72, 159309191113245, 48);
    Lower(10, 72, 159309191113245, 192, 1, 5, 1, 199136488891556, 2);
    Lower(10, 73, 199136488891556, 195, 73, 199136488891556, 195, 140884073147364, 48);
  }

  /** 146/485 is above log10(2). */
  lemma Convergent485()
    ensures Pow(10, 146) > Pow(2, 485)
  {
    hide Pow;
    SmallPowers();
    PowerOf146();
    PowAdd(2, 438, 47);
    MulMono(140737488355328, Pow(2, 438), 140884073147364, Pow(2, 438));
  }

  lemma PowerOf643()
    ensures Pow(10, 643) >= 281429133554628 * Pow(2, 2088)
  {
    hide Pow;
    SmallPowers();
    Lower(10, 1, 5, 1, 1, 5, 1, 25, 0);
    Lower(10, 2, 25, 2, 2, 25, 2, 625, 0);
    Lower(10, 4, 625, 4, 1, 5, 1, 3125, 0);
    Lower(10, 5, 3125, 5, 5, 3125, 5, 9765625, 0);
    Lower(10, 10, 9765625, 10, 10, 9765625, 10, 95367431640625, 0);
    Lower(10, 20, 95367431640625, 20, 20, 95367431640625, 20, 258493941422821, 45);
    Lower(10, 40, 258493941422821, 85, 40, 258493941422821, 85, 237389193643994, 48);
    Lower(10, 80, 237389193643994, 218, 80, 237389193643994, 218, 200208309518308, 48);
    Lower(10, 160, 200208309518308, 484, 160, 200208309518308, 484, 142404726944457, 48);
    Lower(10, 320, 142404726944457, 1016, 1, 5, 1, 178005908680571, 2);
    Lower(10, 321, 178005908680571, 1019, 321, 178005908680571, 1019, 225143306843703, 47);
    Lower(10, 642, 225143306843703, 2085, 1, 5, 1, 281429133554628, 2);
  }

  /** 789/2621 is above log10(2), too, and closer. */
  lemma Convergent2621()
    ensures Pow(10, 789) > Pow(2, 2621)
  {
    hide Pow;
    SmallPowers();
    PowerOf643();
    PowerOf146();
    Lower(10, 643, 281429133554628, 2088, 146, 140884073147364, 438, 281722255390871, 47);
    PowAdd(2, 2573, 48);
    MulMono(281474976710656, Pow(2, 2573), 281722255390871, Pow(2, 2573));
  }

  /** No fraction with a denominator up to 2620 lies between the two convergents. */
  lemma ConvergentGap(a: int, b: int)
    requires 0 < b <= 2620
    ensures 2136 * a <= 643 * b || 485 * a >= 146 * b
  {
    // b == 485 * (2136 a - 643 b) + 2136 * (146 b - 485 a)
    assert 485 * (2136 * a - 643 * b) + 2136 * (146 * b - 485 * a) == b;
  }

  lemma BelowLog(a: nat, b: nat)
    requires b > 0 && 2136 * a <= 643 * b
    ensures Pow(10, a) < Pow(2, b)
  {
    Convergent2136();
    hide Pow;
    if Pow(10, a) >= Pow(2, b) {
      PowMonoBase(Pow(2, b), Pow(10, a), 2136);
      PowMul(2, b, 2136);
      PowMul(10, a, 2136);
      PowMonoExp(10, a * 2136, 643 * b);
      PowMul(10, 643, b);
      PowMul(2, 2136, b);
      PowMonoBase(Pow(10, 643), Pow(2, 2136), b);
    }
  }

  lemma AboveLog(a: nat, b: nat)
    requires b > 0 && 485 * a >= 146 * b
    ensures Pow(10, a) > Pow(2, b)
  {
    Convergent485();
    hide Pow;
    if Pow(10, a) <= Pow(2, b) {
      PowMonoBase(Pow(10, a), Pow(2, b), 485);
      PowMul(10, a, 485);
      PowMul(2, b, 485);
      PowMonoExp(10, 146 * b, a * 485);
      PowMul(10, 146, b);
      PowMul(2, 485, b);
      PowMonoBase(Pow(2, 485), Pow(10, 146), b);
    }
  }

  /**
   For every exponent in the documented range the shift-and-multiply is the exact floor of
   log10(2^binExp): one unit in the last place, scaled by 10^-decExp, lies in [1, 10).
   */
  lemma DecExpIsFloorLog10(binExp: int)
    requires -1334 <= binExp <= 2620
    ensures var k := ComputeDecExp(binExp, true);
            RPow(10, k) <= RPow(2, binExp) < RPow(10, k + 1)
  {
    hide Pow;
    var k := ComputeDecExp(binExp, true);
    if binExp > 0 {
      ConvergentGap(k, binExp);
      BelowLog(k, binExp);
      ConvergentGap(k + 1, binExp);
      AboveLog(k + 1, binExp);
    } else if binExp < 0 {
      var f, n := -binExp, -k;
      ConvergentGap(n, f);
      AboveLog(n, f);
      ConvergentGap(n - 1, f);
      BelowLog(n - 1, f);
      assert k + 1 == -(n - 1);
      ReciprocalOrder(Pow(2, f), Pow(10, n));
      ReciprocalOrder(Pow(10, n - 1), Pow(2, f));
      PowZero(10);
    } else {
      PowZero(2);
      PowZero(10);
      PowOne(10);
    }
  }

  lemma ReciprocalOrder(x: nat, y: nat)
    requires 0 < x < y
    ensures 1.0 / (y as real) < 1.0 / (x as real)
  {
  }

  lemma PowZero(b: nat)
    ensures Pow(b, 0) == 1
  {
  }

  lemma PowOne(b: nat)
    ensures Pow(b, 1) == b
  {
    assert Pow(b, 1) == b * Pow(b, 0);
  }

  // ---------------------------------------------------------------- three quarters of a power

  lemma PowersOfThree()
    ensures Pow(3, 529) <= 191609561279372 * Pow(2, 791)
  {
    hide Pow;
    SmallPowers();
    assert Pow(3, 1) == 3 by { PowOne(3); }
    Upper(3, 1, 3, 0, 1, 3, 0, 9, 0);
    Upper(3, 2, 9, 0, 2, 9, 0, 81, 0);
    Upper(3, 4, 81, 0, 4, 81, 0, 6561, 0);
    Upper(3, 8, 6561, 0, 8, 6561, 0, 43046721, 0);
    Upper(3, 16, 43046721, 0, 16, 43046721, 0, 231627523606481, 3);
    Upper(3, 32, 231627523606481, 3, 1, 3, 0, 173720642704861, 2);
    Upper(3, 33, 173720642704861, 5, 33, 173720642704861, 5, 214433709557156, 47);
    Upper(3, 66, 214433709557156, 57, 66, 214433709557156, 57, 163360225949002, 48);
    Upper(3, 132, 163360225949002, 162, 132, 163360225949002, 162, 189619437819808, 47);
    Upper(3, 264, 189619437819808, 371, 264, 189619437819808, 371, 255479415039162, 47);
    Upper(3, 528, 255479415039162, 789, 1, 3, 0, 191609561279372, 2);
  }

  lemma PowerOf66()
    ensures Pow(10, 66) <= 167047794380764 * Pow(2, 172)
  {
    hide Pow;
    SmallPowers();
    Upper(10, 1, 5, 1, 1, 5, 1, 25, 0);
    Upper(10, 2, 25, 2, 2, 25, 2, 625, 0);
    Upper(10, 4, 625, 4, 4, 625, 4, 390625, 0);
    Upper(10, 8, 390625, 8, 8, 390625, 8, 152587890625, 0);
    Upper(10, 16, 152587890625, 16, 16, 152587890625, 16, 173472347597681, 27);
    Upper(10, 32, 173472347597681, 59, 1, 5, 1, 216840434497102, 2);
    Upper(10, 33, 216840434497102, 62, 33, 216840434497102, 62, 167047794380764, 48);
  }

  /** 66/529 is below log10(4/3). */
  lemma QuarterConvergent529()
    ensures Pow(3, 529) * Pow(10, 66) < Pow(4, 529)
  {
    hide Pow;
    SmallPowers();
    PowersOfThree();
    PowerOf66();
    MulMono(Pow(3, 529), Pow(10, 66), 191609561279372 * Pow(2, 791), 167047794380764 * Pow(2, 172));
    MulSwap(191609561279372, Pow(2, 791), 167047794380764, Pow(2, 172));
    PowAdd(2, 791, 172);
    PowAdd(2, 963, 95);
    Pow95();
    MulMono(32007954593984933296346800208, Pow(2, 963), 39614081257132168796771975168, Pow(2, 963));
    FourIsTwoSquared(529);
  }

  lemma Pow95()
    ensures Pow(2, 95) == 39614081257132168796771975168
  {
    hide Pow;
    SmallPowers();
    PowAdd(2, 47, 48);
  }

  lemma FourIsTwoSquared(n: nat)
    ensures Pow(4, n) == Pow(2, 2 * n)
  {
    SmallPowers();
    PowMul(2, 2, n);
  }

  /** 1/8 is above log10(4/3). */
  lemma QuarterConvergent8()
    ensures Pow(4, 8) < Pow(3, 8) * Pow(10, 1)
  {
    PowAdd(4, 4, 4);
    PowAdd(3, 4, 4);
    assert Pow(4, 4) == 4 * Pow(4, 3) && Pow(3, 4) == 3 * Pow(3, 3);
    SmallPowers();
  }

  /** Every fraction at most 66/529 is below log10(4/3). */
  lemma QuarterAbove(a: nat, b: nat)
    requires b > 0 && 529 * a <= 66 * b
    ensures Pow(3, b) * Pow(10, a) < Pow(4, b)
  {
    hide Pow;
    QuarterConvergent529();
    if Pow(3, b) * Pow(10, a) >= Pow(4, b) {
      PowMonoBase(Pow(4, b), Pow(3, b) * Pow(10, a), 529);
      Raised(3, b, 10, a, 529);
      PowMul(4, b, 529);
      PowMonoExp(10, 529 * a, 66 * b);
      MulMono(Pow(3, 529 * b), Pow(10, 529 * a), Pow(3, 529 * b), Pow(10, 66 * b));
      Raised(3, 529, 10, 66, b);
      PowMul(4, 529, b);
      PowMonoBase(Pow(3, 529) * Pow(10, 66), Pow(4, 529), b);
    }
  }

  /** Every fraction at least 1/8 is above log10(4/3). */
  lemma QuarterBelow(a: nat, b: nat)
    requires b > 0 && 8 * a >= b
    ensures Pow(4, b) < Pow(3, b) * Pow(10, a)
  {
    hide Pow;
    QuarterConvergent8();
    if Pow(4, b) >= Pow(3, b) * Pow(10, a) {
      PowMonoBase(Pow(3, b) * Pow(10, a), Pow(4, b), 8);
      Raised(3, b, 10, a, 8);
      PowMul(4, b, 8);
      PowMonoExp(10, b, 8 * a);
      MulMono(Pow(3, 8 * b), Pow(10, b), Pow(3, 8 * b), Pow(10, 8 * a));
      Raised(3, 8, 10, 1, b);
      PowMul(4, 8, b);
      PowMonoBase(Pow(4, 8), Pow(3, 8) * Pow(10, 1), b);
    }
  }

  lemma Raised(p: nat, x: nat, q: nat, y: nat, n: nat)
    ensures Pow(Pow(p, x) * Pow(q, y), n) == Pow(p, n * x) * Pow(q, n * y)
  {
    PowProduct(Pow(p, x), Pow(q, y), n);
    PowMul(p, x, n);
    PowMul(q, y, n);
  }

  /** `a * x <= b * y`. */
  predicate ProductLe(a: nat, x: nat, b: nat, y: nat) {
    a * x <= b * y
  }

  /**
   Comparing `p * 2^v` with `q * 10^u` through a fraction `n/d` below log10(2): it is enough to
   compare the exponents, with a margin of `less - more` for the factors.
   */
  lemma AboveByFraction(p: nat, q: nat, n: nat, d: nat, u: nat, v: nat, du: nat, nv: nat, dv: nat, more: nat, less: nat)
    requires Pow(10, n) <= Pow(2, d) && du == d * u && nv == n * v && dv == d * v && du + less <= nv + more
    requires !ProductLe(Pow(p, d), Pow(10, less), Pow(q, d), Pow(10, more))
    ensures !ProductLe(p, Pow(2, v), q, Pow(10, u))
  {
    hide *;
    if ProductLe(p, Pow(2, v), q, Pow(10, u)) {
      Raise(p, 2, v, q, 10, u, d, dv, du);
      PowersOfFraction(10, n, 2, d, v, nv, dv);
      Margin(du, less, nv, more);
      Squeeze(Pow(p, d), Pow(q, d), Pow(10, less), Pow(10, more), Pow(2, dv), Pow(10, nv), Pow(10, du));
    }
  }

  /** The same through a fraction above log10(2). */
  lemma BelowByFraction(p: nat, q: nat, n: nat, d: nat, u: nat, v: nat, du: nat, nv: nat, dv: nat, more: nat, less: nat)
    requires Pow(2, d) <= Pow(10, n) && du == d * u && nv == n * v && dv == d * v && nv + more <= du + less
    requires !ProductLe(Pow(q, d), Pow(10, more), Pow(p, d), Pow(10, less))
    ensures !ProductLe(q, Pow(10, u), p, Pow(2, v))
  {
    hide *;
    if ProductLe(q, Pow(10, u), p, Pow(2, v)) {
      Raise(q, 10, u, p, 2, v, d, du, dv);
      PowersOfFraction(2, d, 10, n, v, dv, nv);
      Margin(nv, more, du, less);
      SqueezeDown(Pow(p, d), Pow(q, d), Pow(10, less), Pow(10, more), Pow(2, dv), Pow(10, nv), Pow(10, du));
    }
  }

  /** Both sides to the power `d`. */
  lemma Raise(p: nat, a: nat, x: nat, q: nat, b: nat, y: nat, d: nat, dx: nat, dy: nat)
    requires ProductLe(p, Pow(a, x), q, Pow(b, y)) && dx == d * x && dy == d * y
    ensures ProductLe(Pow(p, d), Pow(a, dx), Pow(q, d), Pow(b, dy))
  {
    hide *;
    RaiseProducts(p, Pow(a, x), q, Pow(b, y), d);
    PowerOfPower(a, x, d, dx);
    PowerOfPower(b, y, d, dy);
  }

  lemma PowerOfPower(b: nat, x: nat, d: nat, dx: nat)
    requires dx == d * x
    ensures Pow(Pow(b, x), d) == Pow(b, dx)
  {
    hide Pow;
    PowMul(b, x, d);
  }

  lemma RaiseProducts(p: nat, x: nat, q: nat, y: nat, d: nat)
    requires ProductLe(p, x, q, y)
    ensures ProductLe(Pow(p, d), Pow(x, d), Pow(q, d), Pow(y, d))
  {
    hide Pow;
    PowMonoBase(p * x, q * y, d);
    PowProduct(p, x, d);
    PowProduct(q, y, d);
  }

  lemma PowersOfFraction(a: nat, n: nat, b: nat, d: nat, v: nat, nv: nat, dv: nat)
    requires Pow(a, n) <= Pow(b, d) && nv == n * v && dv == d * v
    ensures Pow(a, nv) <= Pow(b, dv)
  {
    hide Pow;
    PowMul(a, n, v);
    PowMul(b, d, v);
    PowMonoBase(Pow(a, n), Pow(b, d), v);
  }

  lemma Margin(x: nat, a: nat, y: nat, b: nat)
    requires x + a <= y + b
    ensures ProductLe(Pow(10, x), Pow(10, a), Pow(10, y), Pow(10, b)) && Pow(10, x) > 0 && Pow(10, y) > 0
  {
    hide Pow;
    PowAdd(10, x, a);
    PowAdd(10, y, b);
    PowMonoExp(10, x + a, y + b);
  }

  lemma Squeeze(p: nat, q: nat, less: nat, more: nat, twos: nat, tens: nat, ten: nat)
    requires ProductLe(p, twos, q, ten) && tens <= twos && ProductLe(ten, less, tens, more) && tens > 0
    ensures ProductLe(p, less, q, more)
  {
    MulMono(tens, p * less, twos, p * less);
    Reorder(twos, p, less);
    MulMono(p * twos, less, q * ten, less);
    Reorder(ten, q, less);
    MulMonoRight(q, ten * less, tens * more);
    Reorder(tens, q, more);
    CancelFactor(p * less, q * more, tens);
  }

  lemma SqueezeDown(p: nat, q: nat, less: nat, more: nat, twos: nat, tens: nat, ten: nat)
    requires ProductLe(q, ten, p, twos) && twos <= tens && ProductLe(tens, more, ten, less) && tens > 0
    ensures ProductLe(q, more, p, less)
  {
    Reorder(tens, q, more);
    MulMonoRight(q, tens * more, ten * less);
    Reorder(ten, q, less);
    MulMono(q * ten, less, p * twos, less);
    Reorder(twos, p, less);
    MulMono(twos, p * less, tens, p * less);
    CancelFactor(q * more, p * less, tens);
  }

  /** `t * (p * x)` in the two other orders. */
  lemma Reorder(t: nat, p: nat, x: nat)
    ensures t * (p * x) == (p * t) * x == p * (t * x)
  {
    MulAssoc(t, p, x);
    MulAssoc(p, t, x);
  }

  /** Three quarters of `2^e` is at least `10^k`. */
  lemma QuarterLow(k: nat, e: nat)
    requires 2136 * k + 267 <= 643 * e
    ensures 4 * Pow(10, k) <= 3 * Pow(2, e)
  {
    hide Pow;
    Convergent2136();
    QuarterBelow(267, 2136);
    PowZero(10);
    AboveByFraction(3, 4, 643, 2136, k, e, 2136 * k, 643 * e, 2136 * e, 0, 267);
  }

  lemma QuarterHigh(a: nat, e: nat)
    requires 789 * e <= 2621 * a + 327
    ensures 3 * Pow(2, e) < 4 * Pow(10, a)
  {
    hide Pow;
    Convergent2621();
    QuarterAbove(327, 2621);
    PowZero(10);
    BelowByFraction(3, 4, 789, 2621, a, e, 2621 * a, 789 * e, 2621 * e, 0, 327);
  }

  lemma QuarterLowNegative(n: nat, f: nat)
    requires 789 * f + 328 <= 2621 * n
    ensures 4 * Pow(2, f) <= 3 * Pow(10, n)
  {
    hide Pow;
    Convergent2621();
    QuarterBelow(328, 2621);
    PowZero(10);
    BelowByFraction(4, 3, 789, 2621, n, f, 2621 * n, 789 * f, 2621 * f, 328, 0);
  }

  lemma QuarterHighNegative(m: nat, f: nat)
    requires 2136 * m <= 643 * f + 266
    ensures 3 * Pow(10, m) < 4 * Pow(2, f)
  {
    hide Pow;
    Convergent2136();
    QuarterAbove(266, 2136);
    PowZero(10);
    AboveByFraction(4, 3, 643, 2136, m, f, 2136 * m, 643 * f, 2136 * f, 266, 0);
  }

  /** The exponents at which 643/2136 would not do lie outside of the range, if only just. */
  lemma NoNearMiss(m: int, f: int)
    requires 2136 * m - 643 * f == 267
    ensures f % 2136 == 1335
  {
    assert f == 2136 * (1651 * m - 497 * f - 207) + 1335;
  }

  lemma NoNearMissPositive(k: int, e: int)
    requires 643 * e - 2136 * k == 266
    ensures e % 2136 == 1286
  {
    assert e == 2136 * (497 * -e + 1651 * k + 205) + 1286;
  }

  /**
   The irregular case, for every exponent in the documented range: the exact floor of
   log10(3/4 * 2^binExp).
   */
  lemma DecExpIsFloorLog10Irregular(binExp: int)
    requires -1334 <= binExp <= 2620
    ensures var k := ComputeDecExp(binExp, false);
            RPow(10, k) <= 0.75 * RPow(2, binExp) < RPow(10, k + 1)
  {
    hide RPow, Pow, ComputeDecExp;
    if binExp > 0 {
      IrregularPositive(binExp);
    } else if binExp < 0 {
      IrregularNegative(-binExp);
    } else {
      IrregularZero();
    }
  }

  lemma IrregularZero()
    ensures var k := ComputeDecExp(0, false); RPow(10, k) <= 0.75 * RPow(2, 0) < RPow(10, k + 1)
  {
    PowZero(2);
    PowZero(10);
    PowOne(10);
  }

  lemma IrregularPositive(binExp: int)
    requires 0 < binExp <= 2620
    ensures var k := ComputeDecExp(binExp, false);
            RPow(10, k) <= 0.75 * RPow(2, binExp) < RPow(10, k + 1)
  {
    hide Pow;
    var k := ComputeDecExp(binExp, false);
    if 643 * binExp - 2136 * k < 267 {
      NoNearMissPositive(k, binExp);
    }
    QuarterLow(k, binExp);
    QuarterHigh(k + 1, binExp);
  }

  lemma IrregularNegative(f: int)
    requires 0 < f <= 1334
    ensures var k := ComputeDecExp(-f, false);
            RPow(10, k) <= 0.75 * RPow(2, -f) < RPow(10, k + 1)
  {
    var n := -ComputeDecExp(-f, false);
    NegativeMargins(f, n);
    hide *;
    QuarterLowNegative(n, f);
    QuarterHighNegative(n - 1, f);
    PowIsPositive(2, f);
    PowIsPositive(10, n - 1);
    QuarterReciprocal(Pow(2, f), Pow(10, n), Pow(10, n - 1));
    NegativePower(10, n);
    NegativePower(10, n - 1);
    NegativePower(2, f);
  }

  lemma NegativeMargins(f: int, n: int)
    requires 0 < f <= 1334 && n == -ComputeDecExp(-f, false)
    ensures n >= 1 && 789 * f + 328 <= 2621 * n && 2136 * (n - 1) <= 643 * f + 266
  {
    if 2136 * (n - 1) > 643 * f + 266 {
      NoNearMiss(n - 1, f);
    }
  }

  lemma PowIsPositive(b: nat, n: nat)
    requires b > 0
    ensures Pow(b, n) > 0
  {
  }

  lemma NegativePower(b: nat, n: int)
    requires b > 0 && n >= 0
    ensures RPow(b, -n) == 1.0 / Pow(b, n) as real
  {
    PowZero(b);
  }

  lemma QuarterReciprocal(x: nat, y: nat, z: nat)
    requires x > 0 && z > 0 && 4 * x <= 3 * y && 3 * z < 4 * x
    ensures 1.0 / y as real <= 0.75 * (1.0 / x as real) < 1.0 / z as real
  {
    QuotientOrder(4 * x, 3 * y);
    QuotientOrder(3 * z, 4 * x);
    assert 0.75 * (1.0 / x as real) == 3.0 / (4 * x) as real;
    assert 1.0 / y as real == 3.0 / (3 * y) as real && 1.0 / z as real == 3.0 / (3 * z) as real;
  }

  lemma QuotientOrder(x: nat, y: nat)
    requires 0 < x <= y
    ensures 3.0 / y as real <= 3.0 / x as real
    ensures x < y ==> 3.0 / y as real < 3.0 / x as real
  {
  }

  // ---------------------------------------------------------------- shifts

  /** `do_compute_exp_shift`; the cast to `u8` drops everything above eight bits. */
  function DoComputeExpShift(binExp: int, decExp: int): u8
    requires -350 <= decExp <= 350
  {
    var pow10BinExp := (-decExp * LOG2_POW10_SIG) / LOG2_POW10_EXP_POW;
    (binExp + pow10BinExp + 1) % 256
  }

  /** No fraction with a denominator below 1166 lies between 205/681 and 146/485. */
  lemma ShiftGap(a: int, b: int)
    requires 0 < b < 1166
    ensures 681 * a <= 205 * b || 485 * a >= 146 * b
  {
    assert 485 * (681 * a - 205 * b) + 681 * (146 * b - 485 * a) == b;
  }

  /** The shift of a finite number is between one and four: the cast loses nothing. */
  lemma ShiftIsSmall(binExp: int, regular: bool)
    requires -1074 <= binExp <= 971
    ensures var k := ComputeDecExp(binExp, regular);
            -324 <= k <= 292 && 1 <= DoComputeExpShift(binExp, k) <= 4
    ensures var k := ComputeDecExp(binExp, regular);
            DoComputeExpShift(binExp, k) == binExp + (-k * LOG2_POW10_SIG) / LOG2_POW10_EXP_POW + 1
  {
    var k := ComputeDecExp(binExp, regular);
    if binExp > 0 {
      ShiftGap(k, binExp);
    }
  }

  /** Up to a denominator of 350 the multiplication cannot reach the fraction 2136/643. */
  lemma NoFractionMissed(m: int, p: int)
    requires 0 < m <= 350 && LOG2_POW10_EXP_POW * p <= LOG2_POW10_SIG * m
    ensures 643 * p < 2136 * m
  {
    var r := 643 * p - 2136 * m;
    var t := 146 * p - 485 * m;
    assert m == 643 * t - 146 * r;
    assert LOG2_POW10_EXP_POW * r <= 705 * m;
  }

  /** For every exponent of the documented range the multiplication gives the floor of log2(10^-decExp). */
  lemma Log2IsFloor(decExp: int)
    requires -350 <= decExp <= 350
    ensures var p := (-decExp * LOG2_POW10_SIG) / LOG2_POW10_EXP_POW;
            RPow(2, p) <= RPow(10, -decExp) < RPow(2, p + 1)
  {
    hide Pow;
    var m, p := -decExp, (-decExp * LOG2_POW10_SIG) / LOG2_POW10_EXP_POW;
    if m > 0 {
      FloorAbove(m, p);
      AboveLog(m, p);
      BelowLog(m, p + 1);
    } else if m < 0 {
      var n, q := -m, -p;
      FloorBelow(n, q);
      BelowLog(n, q);
      AboveLog(n, q - 1);
      ReciprocalOrder(Pow(10, n), Pow(2, q));
      ReciprocalOrder(Pow(2, q - 1), Pow(10, n));
      assert p + 1 == -(q - 1);
    } else {
      PowZero(2);
      PowZero(10);
      PowOne(2);
    }
  }

  lemma FloorAbove(m: int, p: int)
    requires 0 < m <= 350 && p == (m * LOG2_POW10_SIG) / LOG2_POW10_EXP_POW
    ensures p > 0 && 485 * m >= 146 * p && 2136 * m <= 643 * (p + 1)
  {
    NoFractionMissed(m, p);
    ConvergentGap(m, p);
    ConvergentGap(m, p + 1);
  }

  lemma FloorBelow(n: int, q: int)
    requires 0 < n <= 350 && -q == (-n * LOG2_POW10_SIG) / LOG2_POW10_EXP_POW
    ensures q > 1 && 2136 * n <= 643 * q && 485 * n >= 146 * (q - 1)
  {
    NoFractionMissed(n, q - 1);
    ConvergentGap(n, q - 1);
    ConvergentGap(n, q);
  }

  /** The shift aligns the power of ten: one above the binary exponent of the unit, scaled by `10^-decExp`. */
  lemma ShiftAligns(binExp: int, regular: bool)
    requires -1074 <= binExp <= 971
    ensures var k := ComputeDecExp(binExp, regular);
            var shift := DoComputeExpShift(binExp, k);
            RPow(2, shift - 1 - binExp) <= RPow(10, -k) < RPow(2, shift - binExp)
  {
    hide ComputeDecExp, RPow;
    ShiftIsSmall(binExp, regular);
    Log2IsFloor(ComputeDecExp(binExp, regular));
  }

  /** The shift of every raw exponent, as the static table is filled. */
  method BuildExpShifts() returns (data: array<u8>)
    ensures fresh(data) && data.Length == 2048
    ensures data[0] == DoComputeExpShift(1 - F64_EXP_OFFSET, ComputeDecExp(1 - F64_EXP_OFFSET, true))
    ensures forall e :: -1074 <= e <= 972 ==> data[e + F64_EXP_OFFSET] == DoComputeExpShift(e, ComputeDecExp(e, true))
  {
    data := new u8[2048](_ => 0);
    var rawExp := 0;
    while rawExp < data.Length
      invariant 0 <= rawExp <= 2048
      invariant rawExp > 0 ==>
        data[0] == DoComputeExpShift(1 - F64_EXP_OFFSET, ComputeDecExp(1 - F64_EXP_OFFSET, true))
      invariant forall e :: -1074 <= e < rawExp - F64_EXP_OFFSET ==>
        data[e + F64_EXP_OFFSET] == DoComputeExpShift(e, ComputeDecExp(e, true))
    {
      var binExp := rawExp - F64_EXP_OFFSET;
      if rawExp == 0 {
        binExp := binExp + 1;
      }
      var decExp := ComputeDecExp(binExp, true);
      data[rawExp] := DoComputeExpShift(binExp, decExp);
      rawExp := rawExp + 1;
    }
  }

  /** `compute_exp_shift` of a regular double: the table lookup is the direct computation. */
  method ComputeExpShift(binExp: int, decExp: int, table: array<u8>, enable: bool) returns (shift: u8)
    requires -1074 <= binExp <= 971 && decExp == ComputeDecExp(binExp, true)
    requires table.Length == 2048
    requires forall e :: -1074 <= e <= 972 ==> table[e + F64_EXP_OFFSET] == DoComputeExpShift(e, ComputeDecExp(e, true))
    ensures shift == DoComputeExpShift(binExp, decExp) && 1 <= shift <= 4
  {
    ShiftIsSmall(binExp, true);
    if enable {
      shift := table[binExp + F64_EXP_OFFSET];
    } else {
      shift := DoComputeExpShift(binExp, decExp);
    }
  }
}
