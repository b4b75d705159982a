/** Integer powers, and powers with a negative exponent as reals. */
module Powers {

  function Pow(b: nat, n: nat): (p: nat)
    ensures b > 0 ==> p > 0
  {
    if n == 0 then 1 else b * Pow(b, n - 1)
  }

  lemma MulAssoc(a: int, x: int, y: int)
    ensures a * (x * y) == (a * x) * y
  {
  }

  lemma {:induction false} PowAdd(b: nat, m: nat, n: nat)
    ensures Pow(b, m + n) == Pow(b, m) * Pow(b, n)
  {
    if m > 0 {
      PowAdd(b, m - 1, n);
      MulAssoc(b, Pow(b, m - 1), Pow(b, n));
    }
  }

  lemma {:induction false} PowMul(b: nat, m: nat, n: nat)
    ensures Pow(b, m * n) == Pow(Pow(b, m), n)
  {
    if n == 0 {
      assert m * 0 == 0;
    } else {
      assert m * n == m + m * (n - 1);
      PowAdd(b, m, m * (n - 1));
      PowMul(b, m, n - 1);
    }
  }

  lemma {:induction false} PowProduct(a: nat, b: nat, n: nat)
    ensures Pow(a * b, n) == Pow(a, n) * Pow(b, n)
  {
    if n > 0 {
      PowProduct(a, b, n - 1);
      MulSwap(a, Pow(a, n - 1), b, Pow(b, n - 1));
    }
  }

  lemma {:induction false} PowMonoBase(a: nat, b: nat, n: nat)
    ensures a <= b ==> Pow(a, n) <= Pow(b, n)
    ensures a < b && n > 0 ==> Pow(a, n) < Pow(b, n)
  {
    if n > 0 {
      PowMonoBase(a, b, n - 1);
      if a <= b {
        MulMono(a, Pow(a, n - 1), b, Pow(b, n - 1));
      }
    }
  }

  lemma MulMono(a: nat, x: nat, b: nat, y: nat)
    requires a <= b && x <= y
    ensures a * x <= b * y
    ensures a < b && 0 < y ==> a * x < b * y
  {
    MulMonoRight(a, x, y);
    MulMonoRight(y, a, b);
    if a < b && 0 < y {
      MulMonoRight(y, a, b - 1);
      assert y * (b - 1) == y * b - y;
    }
  }

  lemma MulMonoRight(a: nat, x: nat, y: nat)
    requires x <= y
    ensures a * x <= a * y
  {
    assert a * y - a * x == a * (y - x);
  }

  lemma CancelFactor(a: nat, b: nat, p: nat)
    requires p > 0
    ensures a * p == b * p ==> a == b
    ensures p * a <= p * b ==> a <= b
  {
    if a < b {
      MulMono(a, p, b, p);
    } else if b < a {
      MulMono(b, p, a, p);
    }
  }

  lemma MulSwap(a: nat, p: nat, c: nat, q: nat)
    ensures (a * p) * (c * q) == (a * c) * (p * q)
  {
    assert (a * p) * (c * q) == a * (p * (c * q));
    assert p * (c * q) == c * (p * q);
    assert a * (c * (p * q)) == (a * c) * (p * q);
  }

  lemma {:induction false} PowMonoExp(b: nat, m: nat, n: nat)
    requires b > 0 && m <= n
    ensures Pow(b, m) <= Pow(b, n)
  {
    if m < n {
      PowMonoExp(b, m, n - 1);
      MulMono(1, Pow(b, n - 1), b, Pow(b, n - 1));
    }
  }

  /** `b` to an integer power. */
  function RPow(b: nat, n: int): (r: real)
    requires b > 0
    ensures r > 0.0
  {
    if n >= 0 then Pow(b, n) as real else 1.0 / (Pow(b, -n) as real)
  }

  lemma RPowFlip(b: nat, n: int)
    requires b > 0
    ensures RPow(b, n) * RPow(b, -n) == 1.0
  {
  }

  lemma RealAssoc(x: real, y: real, z: real)
    ensures x * y * z == x * (y * z)
  {
  }

  lemma RealMulMono(a: real, b: real, k: real)
    requires k > 0.0
    ensures a <= b ==> a * k <= b * k
    ensures a < b ==> a * k < b * k
  {
    assert (b - a) * k == b * k - a * k;
  }

  lemma RealScaledOrder(a: real, b: real, p: real)
    requires p > 0.0
    ensures a * p <= b * p <==> a <= b
    ensures a * p < b * p <==> a < b
  {
    if a < b {
      RealMulMono(a, b, p);
    } else if b < a {
      RealMulMono(b, a, p);
    }
  }
}
