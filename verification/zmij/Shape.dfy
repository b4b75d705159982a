/**
 What a printed number looks like, said of the text and the number alone: where `write` of
 `patches/zmij/src/lib.rs` uses an exponent, what stands before and behind the point, and that
 nothing superfluous is printed. Together with the number this leaves one text only.
 */
module Shape {

  import opened Powers
  import opened Bcd
  import opened Decimal
  import opened Text

  // ---------------------------------------------------------------- the specification

  /** A number from `0.00001` (`0.000001` for single precision) up to `10^16` (`10^13`) has no exponent. */
  predicate NeedsExponent(w: Width, v: real) {
    match w
    case Bits64 => v < 0.00001 || v >= 10000000000000000.0
    case Bits32 => v < 0.000001 || v >= 10000000000000.0
  }

  predicate IsNumeral(t: seq<byte>) {
    t != [] && forall i :: 0 <= i < |t| ==> '0' as nat <= t[i] <= '9' as nat
  }

  /** The decimal digits of a number without leading zeros. */
  function Numeral(n: nat): seq<byte> {
    Ascii(NatDigits(n))
  }

  /** The integer part, a point, and at least one digit; a last digit `0` only if it is the only one. */
  predicate IsPlain(t: seq<byte>, point: nat, v: real) {
    && 0 < point < |t| - 1 && t[point] == '.' as nat
    && v >= 0.0 && t[..point] == Numeral(v.Floor) && IsNumeral(t[point + 1..])
    && (t[|t| - 1] == '0' as nat ==> |t| == point + 2)
  }

  /**
   One digit other than `0`, and if there are more a point and the others, the last not `0`; then
   `e`, the sign and the digits of the exponent that the number has when it is written like this.
   */
  predicate IsScientific(t: seq<byte>, mark: nat, x: int, v: real) {
    && 0 < mark < |t| - 2 && t[mark] == 'e' as nat
    && '1' as nat <= t[0] <= '9' as nat
    && (mark == 1 ||
         (mark > 2 && t[1] == '.' as nat && IsNumeral(t[2..mark]) && t[mark - 1] != '0' as nat))
    && RPow(10, x) <= v < RPow(10, x + 1)
    && t[mark + 1] == (if x >= 0 then '+' as nat else '-' as nat)
    && t[mark + 2..] == Numeral(if x >= 0 then x else -x)
  }

  /** How a positive number is written. */
  ghost predicate IsShaped(w: Width, t: seq<byte>, v: real) {
    && ('e' as nat in t <==> NeedsExponent(w, v))
    && (NeedsExponent(w, v) ==> exists mark, x :: IsScientific(t, mark, x, v))
    && (!NeedsExponent(w, v) ==> exists point :: IsPlain(t, point, v))
  }

  /** The same with a sign in front. */
  ghost predicate IsShapedSigned(w: Width, t: seq<byte>, negative: bool, v: real) {
    if negative then t != [] && t[0] == '-' as nat && IsShaped(w, t[1..], v) else IsShaped(w, t, v)
  }

  // ---------------------------------------------------------------- the range of the exponent

  lemma NumberAtLeast(ds: seq<digit>)
    requires |ds| > 0 && ds[0] != 0
    ensures Pow(10, |ds| - 1) <= Number(ds)
  {
    assert ds == ds[..1] + ds[1..];
    NumberConcat(ds[..1], ds[1..]);
    NumberOfOne(ds[0]);
    assert ds[..1] == [ds[0]];
    MulMono(1, Pow(10, |ds| - 1), ds[0], Pow(10, |ds| - 1));
  }

  lemma NumberOfOne(d: digit)
    ensures Number([d]) == d
  {
    assert [d][..0] == [];
  }

  lemma ValueOfOne(k: int)
    ensures Value(1, k) == RPow(10, k)
  {
  }

  /** Digits of which the first is not zero and worth `10^e` make a number of that magnitude. */
  lemma LaidOutRange(ds: seq<digit>, e: int)
    requires |ds| > 0 && ds[0] != 0
    ensures RPow(10, e) <= LaidOut(ds, e) < RPow(10, e + 1)
  {
    hide Pow, RPow, Number, Value;
    var n, k := |ds|, e + 1 - |ds|;
    NumberAtLeast(ds);
    NumberBound(ds);
    ValueOrder(Pow(10, n - 1), Number(ds), k);
    ValueOrder(Number(ds), Pow(10, n), k);
    ShiftValue(1, n - 1, k);
    ShiftValue(1, n, k);
    ValueOfOne(e);
    ValueOfOne(e + 1);
  }

  lemma RPowMono(a: int, b: int)
    requires a <= b
    ensures RPow(10, a) <= RPow(10, b)
  {
    hide RPow, Pow;
    var n: nat := b - a;
    RPowAdd(n, a);
    PowIsOneOrMore(n);
    assert n + a == b;
    Enlarged(Pow(10, n) as real, RPow(10, a), RPow(10, b));
  }

  lemma Enlarged(p: real, x: real, y: real)
    requires p >= 1.0 && x > 0.0 && y == p * x
    ensures x <= y
  {
    RealMulMono(1.0, p, x);
  }

  lemma PowIsOneOrMore(n: nat)
    ensures Pow(10, n) as real >= 1.0
  {
  }

  lemma Thresholds()
    ensures RPow(10, -5) == 0.00001 && RPow(10, -6) == 0.000001
    ensures RPow(10, 13) == 10000000000000.0 && RPow(10, 16) == 10000000000000000.0
  {
    assert Pow(10, 5) == 100_000;
    assert Pow(10, 6) == 10 * Pow(10, 5);
    assert Pow(10, 8) == 100 * Pow(10, 6);
    PowAdd(10, 8, 5);
    PowAdd(10, 8, 8);
  }

  /** The exponent test of `write` is a test of the number. */
  lemma PlainMeansRange(w: Width, e: int, v: real)
    requires RPow(10, e) <= v < RPow(10, e + 1)
    ensures Plain(w, e) <==> !NeedsExponent(w, v)
  {
    hide RPow;
    Thresholds();
    var low, high := if w.Bits64? then -5 else -6, if w.Bits64? then 16 else 13;
    if e < low { RPowMono(e + 1, low); } else { RPowMono(low, e); }
    if e < high { RPowMono(e + 1, high); } else { RPowMono(high, e); }
  }

  // ---------------------------------------------------------------- the integer part

  /** The digits of a number without leading zeros are its only digits of this kind. */
  lemma {:induction false} DigitsAreNatDigits(ds: seq<digit>)
    requires |ds| > 0 && (|ds| > 1 ==> ds[0] != 0)
    ensures NatDigits(Number(ds)) == ds
  {
    var n := |ds| - 1;
    if n == 0 {
      NumberOfOne(ds[0]);
      assert ds == [ds[0]];
    } else {
      DigitsAreNatDigits(ds[..n]);
      NumberAtLeast(ds[..n]);
      PowIsOneOrMore(n - 1);
      LastDigit(Number(ds[..n]), ds[n]);
      assert ds == ds[..n] + [ds[n]];
    }
  }

  lemma LastDigit(rest: nat, d: digit)
    ensures (10 * rest + d) / 10 == rest && (10 * rest + d) % 10 == d
  {
  }

  /** Of a number with a point in its digits the digits before the point are the integer part. */
  lemma FloorOfPoint(front: seq<digit>, back: seq<digit>)
    ensures var v := Value(Number(front + back), -|back|);
            v >= 0.0 && v.Floor == Number(front)
  {
    hide Pow, RPow, Value, Number;
    var n := |back|;
    NumberConcat(front, back);
    NumberBound(back);
    ShiftValue(Number(front), n, -n);
    ShiftValue(Number(front) + 1, n, -n);
    WholeValue(Number(front));
    WholeValue(Number(front) + 1);
    NextMultiple(Number(front), Pow(10, n));
    ValueOrder(Number(front) * Pow(10, n), Number(front + back), -n);
    ValueOrder(Number(front + back), (Number(front) + 1) * Pow(10, n), -n);
  }

  lemma WholeValue(m: nat)
    ensures Value(m, 0) == m as real
  {
  }

  lemma NextMultiple(a: nat, p: nat)
    ensures (a + 1) * p == a * p + p
  {
  }

  // ---------------------------------------------------------------- texts

  lemma AsciiIsNumeral(ds: seq<digit>)
    requires |ds| > 0
    ensures IsNumeral(Ascii(ds)) && 'e' as nat !in Ascii(ds)
  {
  }

  /** `front`, a point, `back`. */
  lemma PlainText(t: seq<byte>, front: seq<digit>, back: seq<digit>, v: real)
    requires |front| > 0 && |back| > 0 && (|front| > 1 ==> front[0] != 0)
    requires back[|back| - 1] == 0 ==> |back| == 1
    requires t == Ascii(front) + [DOT] + Ascii(back) && v == Value(Number(front + back), -|back|)
    ensures IsPlain(t, |front|, v) && 'e' as nat !in t
  {
    hide Number, Value, NatDigits, Ascii;
    FloorOfPoint(front, back);
    DigitsAreNatDigits(front);
    AsciiIsNumeral(front);
    AsciiIsNumeral(back);
    AsciiAt(back, |back| - 1);
    var p := |front|;
    assert t[..p] == Ascii(front) && t[p + 1..] == Ascii(back) && t[p] == DOT;
    assert t[|t| - 1] == Ascii(back)[|back| - 1];
  }

  lemma AsciiAt(ds: seq<digit>, i: nat)
    requires i < |ds|
    ensures |Ascii(ds)| == |ds| && Ascii(ds)[i] == '0' as nat + ds[i]
  {
  }

  lemma WholeIsPlain(w: Width, ds: seq<digit>, e: int)
    requires |ds| > 0 && ds[0] != 0 && Plain(w, e) && |ds| - 1 <= e
    ensures exists point :: IsPlain(Layout(w, ds, e), point, LaidOut(ds, e))
    ensures 'e' as nat !in Layout(w, ds, e)
  {
    hide Number, Value, IsPlain;
    var front, back := ds + Zeros(e + 1 - |ds|), Zeros(1);
    assert Ascii(back) == [ZERO];
    assert front + back == ds + Zeros(e + 2 - |ds|);
    TrailingZeros(ds, e + 2 - |ds|);
    ShiftValue(Number(ds), e + 2 - |ds|, -1);
    var t := Layout(w, ds, e);
    assert t == Ascii(front) + [DOT] + Ascii(back);
    PlainText(t, front, back, LaidOut(ds, e));
  }

  lemma PointInsideIsPlain(w: Width, ds: seq<digit>, e: int)
    requires |ds| > 0 && ds[0] != 0 && ds[|ds| - 1] != 0 && Plain(w, e) && 0 <= e < |ds| - 1
    ensures exists point :: IsPlain(Layout(w, ds, e), point, LaidOut(ds, e))
    ensures 'e' as nat !in Layout(w, ds, e)
  {
    hide Number, Value, IsPlain, Ascii;
    var front, back := ds[..e + 1], ds[e + 1..];
    assert front + back == ds;
    PlainText(Layout(w, ds, e), front, back, LaidOut(ds, e));
  }

  lemma PointInFrontIsPlain(w: Width, ds: seq<digit>, e: int)
    requires |ds| > 0 && ds[0] != 0 && ds[|ds| - 1] != 0 && Plain(w, e) && e < 0
    ensures exists point :: IsPlain(Layout(w, ds, e), point, LaidOut(ds, e))
    ensures 'e' as nat !in Layout(w, ds, e)
  {
    var front, back := Zeros(1), Zeros(-1 - e) + ds;
    PointInFront(w, ds, front, back, e);
    LaidOutIs(ds, e);
    LeadingZeros(-e, ds);
    hide Number, Value, IsPlain, Ascii, Layout, LaidOut, Plain;
    var t := Layout(w, ds, e);
    assert t == Ascii(front) + [DOT] + Ascii(back);
    PlainText(t, front, back, LaidOut(ds, e));
  }

  lemma ScientificText(t: seq<byte>, ds: seq<digit>, e: int, v: real)
    requires |ds| > 0 && ds[0] != 0 && ds[|ds| - 1] != 0 && RPow(10, e) <= v < RPow(10, e + 1)
    requires t == Ascii(ds[..1]) + (if |ds| > 1 then [DOT] + Ascii(ds[1..]) else []) + ExponentText(e)
    ensures exists mark, x :: IsScientific(t, mark, x, v)
    ensures 'e' as nat in t
  {
    hide RPow, NatDigits, Ascii;
    AsciiAt(ds[..1], 0);
    var mark := if |ds| > 1 then |ds| + 1 else 1;
    assert t[mark..] == ExponentText(e);
    assert t[mark] == ExponentText(e)[0] && t[mark + 1] == ExponentText(e)[1];
    assert t[mark + 2..] == ExponentText(e)[2..];
    if |ds| > 1 {
      AsciiIsNumeral(ds[1..]);
      AsciiAt(ds[1..], |ds| - 2);
      assert t[2..mark] == Ascii(ds[1..]);
      assert t[mark - 1] == t[2..mark][mark - 3];
    }
    ExponentHasDigits(e);
    assert IsScientific(t, mark, e, v);
  }

  lemma ExponentHasDigits(e: int)
    ensures |ExponentText(e)| > 2 && ExponentText(e)[2..] == Numeral(if e >= 0 then e else -e)
  {
  }

  /** Every layout of shown digits is the text the number must have. */
  lemma LayoutIsShaped(w: Width, ds: seq<digit>, e: int)
    requires |ds| > 0 && ds[0] != 0 && ds[|ds| - 1] != 0
    ensures IsShaped(w, Layout(w, ds, e), LaidOut(ds, e))
  {
    LaidOutRange(ds, e);
    PlainMeansRange(w, e, LaidOut(ds, e));
    if Plain(w, e) {
      hide IsPlain, Layout, LaidOut, NeedsExponent, Plain;
      if |ds| - 1 <= e {
        WholeIsPlain(w, ds, e);
      } else if 0 <= e {
        PointInsideIsPlain(w, ds, e);
      } else {
        PointInFrontIsPlain(w, ds, e);
      }
    } else {
      var t := Layout(w, ds, e);
      assert t == Ascii(ds[..1]) + (if |ds| > 1 then [DOT] + Ascii(ds[1..]) else []) + ExponentText(e);
      hide *;
      ScientificText(t, ds, e, LaidOut(ds, e));
      ShapedByExponent(w, t, LaidOut(ds, e));
    }
  }

  lemma ShapedByExponent(w: Width, t: seq<byte>, v: real)
    requires NeedsExponent(w, v) && 'e' as nat in t && exists mark, x :: IsScientific(t, mark, x, v)
    ensures IsShaped(w, t, v)
  {
  }

  lemma SignedIsShaped(w: Width, t: seq<byte>, negative: bool, v: real)
    requires IsShaped(w, t, v)
    ensures IsShapedSigned(w, SignText(negative) + t, negative, v)
  {
    assert (SignText(true) + t)[1..] == t && SignText(false) + t == t;
  }
}
