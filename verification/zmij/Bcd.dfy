/**
 Digit extraction of `patches/zmij/src/lib.rs`: eight decimal digits spread over the bytes of one
 word by three multiplications, and the number of digits left when trailing zeros are dropped.
 Words are taken as on a little-endian machine.
 */
module Bcd {

  import opened Multiply
  import opened Powers

  type byte = x: nat | x < 256
  type digit = x: nat | x < 10

  const DIV10K_SIG := 109951163  // 2^40 / 10000 + 1
  const NEG10K := B32 - 10000
  const DIV100_SIG := 5243       // 2^19 / 100 + 1
  const NEG100 := 65536 - 100
  const DIV10_SIG := 103         // 2^10 / 10 + 1
  const NEG10 := 256 - 10

  /** The digits of a number from its most significant one: exactly `n` of them. */
  function Digits(value: nat, n: nat): (ds: seq<digit>)
    ensures |ds| == n
  {
    if n == 0 then [] else Digits(value / 10, n - 1) + [value % 10]
  }

  /** The number a row of bytes denotes, the first one being least significant. */
  function LittleEndian(b: seq<byte>): nat {
    if b == [] then 0 else b[0] + 256 * LittleEndian(b[1..])
  }

  /** The first `n` bytes of a number in memory. */
  function Bytes(v: nat, n: nat): (b: seq<byte>)
    ensures |b| == n
  {
    if n == 0 then [] else [v % 256] + Bytes(v / 256, n - 1)
  }

  function Reverse<T>(s: seq<T>): (r: seq<T>)
    ensures |r| == |s| && forall i :: 0 <= i < |s| ==> r[i] == s[|s| - 1 - i]
  {
    if s == [] then [] else Reverse(s[1..]) + [s[0]]
  }

  /** `v & 0x7f_0000_007f`. */
  function AndLanes2(v: nat): nat {
    v % 0x80 + v / B32 % 0x80 * B32
  }

  /** `v & 0xf_000f_000f_000f`. */
  function AndLanes4(v: nat): nat {
    v % 0x10 + v / 0x1_0000 % 0x10 * 0x1_0000 + v / B32 % 0x10 * B32
        + v / 0x1_0000_0000_0000 % 0x10 * 0x1_0000_0000_0000
  }

  /** The word with its bytes in the opposite order. */
  function SwapBytes(v: u64): nat {
    LittleEndian(Reverse(Bytes(v, 8)))
  }

  /** `to_bcd8`, before the bytes are swapped. */
  function Spread(x: nat): nat {
    var s1 := x + NEG10K * (x * DIV10K_SIG / 0x100_0000_0000);
    var s2 := s1 + NEG100 * AndLanes2(s1 * DIV100_SIG / 0x8_0000);
    s2 + NEG10 * AndLanes4(s2 * DIV10_SIG / 0x400)
  }

  lemma Split4(x: nat)
    requires x < 100_000_000
    ensures x + NEG10K * (x * DIV10K_SIG / 0x100_0000_0000) == x / 10000 * B32 + x % 10000
  {
    assert x * DIV10K_SIG / 0x100_0000_0000 == x / 10000;
  }

  lemma Div100Lane(x: nat)
    requires x < 10000
    ensures x * DIV100_SIG / 0x8_0000 == x / 100
  {
  }

  /** Multiplying by the reciprocal divides each half-word without disturbing its neighbour. */
  lemma Split2(a: nat, b: nat)
    requires a < 10000 && b < 10000
    ensures var s := a * B32 + b;
            s + NEG100 * AndLanes2(s * DIV100_SIG / 0x8_0000)
            == (a / 100 * 65536 + a % 100) * B32 + (b / 100 * 65536 + b % 100)
  {
    var s := a * B32 + b;
    var t := s * DIV100_SIG / 0x8_0000;
    Halves(a, b, t);
    assert AndLanes2(t) == b / 100 + a / 100 * B32 by {
      assert t / B32 % 0x80 == a / 100;
    }
  }

  lemma Halves(a: nat, b: nat, t: nat)
    requires a < 10000 && b < 10000 && t == (a * B32 + b) * DIV100_SIG / 0x8_0000
    ensures t % 0x80 == b / 100 && t / B32 == a / 100
  {
    var p, q := a * DIV100_SIG, b * DIV100_SIG;
    Div100Lane(a);
    Div100Lane(b);
    assert t == p * 0x2000 + q / 0x8_0000;
  }

  lemma Div10Lane(x: nat)
    requires x < 100
    ensures x * DIV10_SIG / 0x400 == x / 10
  {
  }

  lemma Split1(a: nat, b: nat, c: nat, d: nat)
    requires a < 100 && b < 100 && c < 100 && d < 100
    ensures var s := a * 0x1_0000_0000_0000 + b * B32 + c * 65536 + d;
            s + NEG10 * AndLanes4(s * DIV10_SIG / 0x400)
            == (a / 10 * 256 + a % 10) * 0x1_0000_0000_0000 + (b / 10 * 256 + b % 10) * B32
               + (c / 10 * 256 + c % 10) * 65536 + (d / 10 * 256 + d % 10)
  {
    var s := a * 0x1_0000_0000_0000 + b * B32 + c * 65536 + d;
    Lanes(a, b, c, d, s);
    FourLanes(s * DIV10_SIG / 0x400);
    hide AndLanes4;
    Tens(a, b, c, d);
  }

  lemma Lanes(a: nat, b: nat, c: nat, d: nat, s: nat)
    requires a < 100 && b < 100 && c < 100 && d < 100
    requires s == a * 0x1_0000_0000_0000 + b * B32 + c * 65536 + d
    ensures var t := s * DIV10_SIG / 0x400;
            && t % 16 == d / 10 && t / 65536 % 16 == c / 10
            && t / 65536 / 65536 % 16 == b / 10 && t / 65536 / 65536 / 65536 % 16 == a / 10
  {
    var t := s * DIV10_SIG / 0x400;
    LowLane(a * B32 + b * 65536 + c, d);
    assert s == (a * B32 + b * 65536 + c) * 65536 + d;
    NextLane(a * 65536 + b, c, d / 10, t);
    NextLane(a, b, c / 10, t / 65536);
    NextLane(0, a, b / 10, t / 65536 / 65536);
  }

  lemma FourLanes(t: nat)
    ensures AndLanes4(t) == t % 16 + t / 65536 % 16 * 65536 + t / 65536 / 65536 % 16 * B32
                            + t / 65536 / 65536 / 65536 % 16 * 0x1_0000_0000_0000
  {
  }

  lemma Tens(a: nat, b: nat, c: nat, d: nat)
    ensures a * 0x1_0000_0000_0000 + b * B32 + c * 65536 + d
            + NEG10 * (d / 10 + c / 10 * 65536 + b / 10 * B32 + a / 10 * 0x1_0000_0000_0000)
            == (a / 10 * 256 + a % 10) * 0x1_0000_0000_0000 + (b / 10 * 256 + b % 10) * B32
               + (c / 10 * 256 + c % 10) * 65536 + (d / 10 * 256 + d % 10)
  {
  }

  lemma LowLane(h: nat, x: nat)
    requires x < 100
    ensures (h * 65536 + x) * DIV10_SIG / 0x400 == 6592 * h + x / 10
    ensures (6592 * h + x / 10) % 16 == x / 10
  {
    Div10Lane(x);
    assert (h * 65536 + x) * DIV10_SIG == 0x400 * (6592 * h) + x * DIV10_SIG;
    Drop1024(6592 * h, x * DIV10_SIG);
    Drop16(412 * h, x / 10);
  }

  lemma Drop1024(q: nat, r: nat)
    ensures (0x400 * q + r) / 0x400 == q + r / 0x400
  {
  }

  lemma Drop65536(q: nat, r: nat)
    ensures (65536 * q + r) / 65536 == q + r / 65536
  {
  }

  lemma Drop16(q: nat, r: nat)
    requires r < 16
    ensures (16 * q + r) % 16 == r
  {
  }

  /** Dropping a lane leaves the tens of the next one at the bottom. */
  lemma NextLane(h: nat, x: nat, low: nat, t: nat)
    requires x < 100 && low < 64 && t == 6592 * (h * 65536 + x) + low
    ensures t / 65536 == 6592 * h + x / 10
    ensures t / 65536 % 16 == x / 10
  {
    assert t == 65536 * (6592 * h) + (6592 * x + low);
    Drop65536(6592 * h, 6592 * x + low);
    TensOfLane(x, low);
    Drop16(412 * h, x / 10);
  }

  lemma TensOfLane(x: nat, low: nat)
    requires x < 100 && low < 64
    ensures (6592 * x + low) / 65536 == x / 10
  {
  }

  // ---------------------------------------------------------------- all eight digits

  /** `to_bcd8` on a little-endian machine. */
  function ToBcd8(x: nat): nat
    requires x < 100_000_000
  {
    SpreadIs(x);
    SwapBytes(Spread(x))
  }

  lemma SpreadIs(x: nat)
    requires x < 100_000_000
    ensures var a, b := x / 10000, x % 10000;
            Spread(x) == (a / 100 / 10 * 256 + a / 100 % 10) * 0x1_0000_0000_0000
                + (a % 100 / 10 * 256 + a % 100 % 10) * B32
                         + (b / 100 / 10 * 256 + b / 100 % 10) * 65536 + (b % 100 / 10 * 256 + b % 100 % 10)
    ensures Spread(x) < B64
  {
    hide Spread;
    var a, b := x / 10000, x % 10000;
    SpreadOf(x, a, b);
    EightBytesFit(a / 100, a % 100, b / 100, b % 100);
  }

  lemma SpreadOf(x: nat, a: nat, b: nat)
    requires x < 100_000_000 && a == x / 10000 && b == x % 10000
    ensures Spread(x) == (a / 100 / 10 * 256 + a / 100 % 10) * 0x1_0000_0000_0000
                         + (a % 100 / 10 * 256 + a % 100 % 10) * B32
                         + (b / 100 / 10 * 256 + b / 100 % 10) * 65536 + (b % 100 / 10 * 256 + b % 100 % 10)
  {
    hide AndLanes2, AndLanes4, Spread;
    Split4(x);
    Split2(a, b);
    Split1(a / 100, a % 100, b / 100, b % 100);
    SpreadSteps(x, a * B32 + b, a / 100 * 0x1_0000_0000_0000 + a % 100 * B32 + b / 100 * 65536 + b % 100);
  }

  lemma SpreadSteps(x: nat, s1: nat, s2: nat)
    requires s1 == x + NEG10K * (x * DIV10K_SIG / 0x100_0000_0000)
    requires s2 == s1 + NEG100 * AndLanes2(s1 * DIV100_SIG / 0x8_0000)
    ensures Spread(x) == s2 + NEG10 * AndLanes4(s2 * DIV10_SIG / 0x400)
  {
    hide AndLanes2, AndLanes4;
  }

  lemma EightBytesFit(a: nat, b: nat, c: nat, d: nat)
    requires a < 100 && b < 100 && c < 100 && d < 100
    ensures (a / 10 * 256 + a % 10) * 0x1_0000_0000_0000 + (b / 10 * 256 + b % 10) * B32
            + (c / 10 * 256 + c % 10) * 65536 + (d / 10 * 256 + d % 10) < B64
  {
  }

  lemma {:induction false} BytesOfLittleEndian(b: seq<byte>)
    ensures Bytes(LittleEndian(b), |b|) == b
  {
    if b != [] {
      BytesOfLittleEndian(b[1..]);
      Peel(b[0], LittleEndian(b[1..]));
    }
  }

  lemma {:induction false} LittleEndianOfBytes(v: nat, n: nat)
    requires v < Pow(256, n)
    ensures LittleEndian(Bytes(v, n)) == v
  {
    if n > 0 {
      LittleEndianOfBytes(v / 256, n - 1);
    }
  }

  lemma Peel(b: byte, rest: nat)
    ensures (b + 256 * rest) % 256 == b && (b + 256 * rest) / 256 == rest
  {
  }

  lemma ReverseTwice<T>(s: seq<T>)
    ensures Reverse(Reverse(s)) == s
  {
  }

  /** Digits of a number put together from two groups. */
  lemma {:induction false} DigitsConcat(h: nat, m: nat, l: nat, n: nat)
    requires l < Pow(10, n)
    ensures Digits(h * Pow(10, n) + l, m + n) == Digits(h, m) + Digits(l, n)
  {
    var v := h * Pow(10, n) + l;
    if n == 0 {
      assert v == h;
    } else {
      var p := Pow(10, n - 1);
      assert h * (10 * p) == 10 * (h * p);
      assert v / 10 == h * p + l / 10 && v % 10 == l % 10;
      DigitsConcat(h, m, l / 10, n - 1);
      assert (Digits(h, m) + Digits(l / 10, n - 1)) + [l % 10] == Digits(h, m) + (Digits(l / 10, n - 1) + [l % 10]);
    }
  }

  lemma DigitsOfPair(x: nat)
    requires x < 100
    ensures Digits(x, 2) == [x / 10, x % 10]
  {
    assert Digits(x / 10, 1) == Digits(x / 10 / 10, 0) + [x / 10 % 10];
  }

  lemma DigitsOfFour(x: nat)
    requires x < 10000
    ensures Digits(x, 4) == [x / 100 / 10, x / 100 % 10, x % 100 / 10, x % 100 % 10]
  {
    assert Pow(10, 2) == 10 * Pow(10, 1);
    DigitsConcat(x / 100, 2, x % 100, 2);
    DigitsOfPair(x / 100);
    DigitsOfPair(x % 100);
  }

  lemma Pow10Four()
    ensures Pow(10, 4) == 10000
  {
    assert Pow(10, 2) == 10 * Pow(10, 1);
    assert Pow(10, 4) == 10 * Pow(10, 3);
  }

  lemma DigitsOfEight(x: nat)
    requires x < 100_000_000
    ensures var a, b := x / 10000, x % 10000;
            Digits(x, 8) == [a / 100 / 10, a / 100 % 10, a % 100 / 10, a % 100 % 10,
                             b / 100 / 10, b / 100 % 10, b % 100 / 10, b % 100 % 10]
  {
    hide Pow, Digits;
    Pow10Four();
    DigitsConcat(x / 10000, 4, x % 10000, 4);
    DigitsOfFour(x / 10000);
    DigitsOfFour(x % 10000);
  }

  lemma LittleEndianOfEight(b: seq<byte>)
    requires |b| == 8
    ensures var w: seq<nat> := b;
            LittleEndian(b) == (w[7] * 256 + w[6]) * 0x1_0000_0000_0000 + (w[5] * 256 + w[4]) * B32
                               + (w[3] * 256 + w[2]) * 65536 + (w[1] * 256 + w[0])
  {
    LittleEndianOfTwo(b);
    LittleEndianOfTwo(b[2..]);
    LittleEndianOfTwo(b[4..]);
    LittleEndianOfTwo(b[6..]);
    assert b[2..][2..] == b[4..] && b[4..][2..] == b[6..] && b[6..][2..] == [];
  }

  lemma LittleEndianOfTwo(b: seq<byte>)
    requires |b| >= 2
    ensures LittleEndian(b) == b[0] + 256 * b[1] + 65536 * LittleEndian(b[2..])
  {
    assert b[1..][1..] == b[2..];
  }

  /** The eight digits in order, one a byte, for every number that has no more. */
  lemma ToBcd8IsDigits(x: nat)
    requires x < 100_000_000
    ensures ToBcd8(x) == LittleEndian(Digits(x, 8)) && Bytes(ToBcd8(x), 8) == Digits(x, 8)
  {
    hide Spread, Digits, LittleEndian, Bytes;
    var ds: seq<byte> := Digits(x, 8);
    DigitsOfEight(x);
    SpreadIs(x);
    LittleEndianOfEight(Reverse(ds));
    BytesOfLittleEndian(Reverse(ds));
    ReverseTwice(ds);
    BytesOfLittleEndian(ds);
  }

  // ---------------------------------------------------------------- trailing zeros

  /** How many bits a number needs: the word size less the leading zeros. */
  function BitLength(v: nat): nat {
    if v == 0 then 0 else 1 + BitLength(v / 2)
  }

  /** `count_trailing_nonzeros`: `(70 - ((x << 1) | 1).leading_zeros()) / 8`. */
  function CountTrailingNonzeros(x: u64): nat
    requires x < 0x8000_0000_0000_0000
  {
    SentinelFits(x);
    (70 - (64 - BitLength(2 * x + 1))) / 8
  }

  lemma {:induction false} BitLengthAtMost(v: nat, n: nat)
    requires v < Pow(2, n)
    ensures BitLength(v) <= n
  {
    if v > 0 {
      BitLengthAtMost(v / 2, n - 1);
    }
  }

  lemma SentinelFits(x: u64)
    ensures BitLength(2 * x + 1) == 1 + BitLength(x) && BitLength(x) <= 64
  {
    hide BitLength;
    PowAdd(2, 32, 32);
    PowAdd(2, 16, 16);
    PowAdd(2, 8, 8);
    assert Pow(2, 8) == 256 by { PowAdd(2, 4, 4); assert Pow(2, 4) == 2 * Pow(2, 3); }
    BitLengthAtMost(x, 64);
    DoubleLength(x);
  }

  lemma DoubleLength(x: nat)
    ensures BitLength(2 * x + 1) == 1 + BitLength(x)
  {
  }

  /** The number of leading entries that are left when the zeros at the end are dropped. */
  function TrimmedLength(b: seq<nat>): (n: nat)
    ensures n <= |b| && (n > 0 ==> b[n - 1] != 0)
    ensures forall i :: n <= i < |b| ==> b[i] == 0
  {
    if b == [] then 0
    else if TrimmedLength(b[1..]) > 0 then 1 + TrimmedLength(b[1..])
    else if b[0] != 0 then 1 else 0
  }

  lemma ByteLength(b: byte, rest: nat)
    ensures rest > 0 ==> BitLength(b + 256 * rest) == 8 + BitLength(rest)
    ensures b > 0 ==> 1 <= BitLength(b) <= 8
  {
    hide BitLength;
    if rest > 0 {
      HalveTwice(b, 64 * rest);
      HalveTwice(b / 4, 16 * rest);
      HalveTwice(b / 16, 4 * rest);
      HalveTwice(b / 64, rest);
    }
    if b > 0 {
      ShortLength(b);
    }
  }

  lemma ShortLength(b: byte)
    requires b > 0
    ensures 1 <= BitLength(b) <= 8
  {
    PowAdd(2, 4, 4);
    assert Pow(2, 4) == 2 * Pow(2, 3);
    BitLengthAtMost(b, 8);
  }

  lemma HalveTwice(low: nat, high: nat)
    requires high > 0
    ensures BitLength(low + 4 * high) == 2 + BitLength(low / 4 + high)
  {
    var v := low + 4 * high;
    assert v / 2 / 2 == low / 4 + high;
  }

  lemma {:induction false} BytesInUse(b: seq<byte>)
    ensures LittleEndian(b) == 0 <==> TrimmedLength(b) == 0
    ensures (7 + BitLength(LittleEndian(b))) / 8 == TrimmedLength(b)
  {
    if b != [] {
      BytesInUse(b[1..]);
      ByteLength(b[0], LittleEndian(b[1..]));
    }
  }

  /** The bit trick finds the last nonzero digit. */
  lemma CountIsTrimmedLength(b: seq<digit>)
    requires |b| == 8
    ensures LittleEndian(b) < 0x8000_0000_0000_0000
    ensures CountTrailingNonzeros(LittleEndian(b)) == TrimmedLength(b)
  {
    LittleEndianOfEight(b);
    BytesInUse(b);
    SentinelFits(LittleEndian(b));
  }

  lemma {:induction false} TrimConcat(a: seq<nat>, b: seq<nat>)
    ensures TrimmedLength(a + b) == if TrimmedLength(b) > 0 then |a| + TrimmedLength(b) else TrimmedLength(a)
  {
    if a == [] {
      assert a + b == b;
    } else {
      assert (a + b)[1..] == a[1..] + b;
      TrimConcat(a[1..], b);
    }
  }

  // ---------------------------------------------------------------- digits as text

  const ZERO: byte := '0' as nat
  const ZEROS: nat := 0x0101_0101_0101_0101 * ZERO

  function Ascii(ds: seq<digit>): (t: seq<byte>)
    ensures |t| == |ds| && forall i :: 0 <= i < |ds| ==> t[i] == ZERO + ds[i]
  {
    seq(|ds|, i requires 0 <= i < |ds| => ZERO + ds[i])
  }

  lemma {:induction false} AsciiSum(ds: seq<digit>)
    ensures LittleEndian(Ascii(ds)) == LittleEndian(ds) + ZERO * Ones(|ds|)
  {
    if ds != [] {
      AsciiSum(ds[1..]);
      assert Ascii(ds)[1..] == Ascii(ds[1..]);
    }
  }

  /** The number whose bytes are all one. */
  function Ones(n: nat): nat {
    if n == 0 then 0 else 1 + 256 * Ones(n - 1)
  }

  lemma OnesOfEight()
    ensures ZERO * Ones(8) == ZEROS
  {
    assert Ones(4) == 1 + 256 * Ones(3);
    assert Ones(6) == 1 + 256 * Ones(5);
  }

  /** Adding the constant turns every digit into its character, with no carry between bytes. */
  lemma AddZeros(ds: seq<digit>)
    requires |ds| == 8
    ensures LittleEndian(ds) + ZEROS == LittleEndian(Ascii(ds))
    ensures Bytes(LittleEndian(ds) + ZEROS, 8) == Ascii(ds)
  {
    AsciiSum(ds);
    OnesOfEight();
    BytesOfLittleEndian(Ascii(ds));
  }
}
