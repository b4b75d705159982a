/**
 What the printed text of `patches/zmij/src/lib.rs` looks like and what it means: the four
 layouts of `write`, a reader of decimal numbers, and the proof that the reader finds exactly
 the number that was laid out.
 */
module Text {

  import opened Wrappers
  import opened Powers
  import opened Bcd
  import opened Decimal

  const MINUS: byte := '-' as nat
  const PLUS: byte := '+' as nat
  const DOT: byte := '.' as nat
  const EXPONENT: byte := 'e' as nat

  // ---------------------------------------------------------------- numbers and digits

  /** The number a row of digits denotes. */
  function Number(ds: seq<digit>): nat {
    if ds == [] then 0 else 10 * Number(ds[..|ds| - 1]) + ds[|ds| - 1]
  }

  /** The digits of a number, without leading zeros. */
  function NatDigits(v: nat): (ds: seq<digit>)
    ensures |ds| > 0 && (|ds| > 1 ==> ds[0] != 0)
  {
    if v < 10 then [v] else NatDigits(v / 10) + [v % 10]
  }

  function Zeros(n: nat): seq<digit> {
    seq(n, _ => 0)
  }

  /** `m * 10^s`. */
  function Value(m: nat, s: int): real {
    m as real * RPow(10, s)
  }

  lemma {:induction false} NumberOfDigits(v: nat, n: nat)
    requires v < Pow(10, n)
    ensures Number(Digits(v, n)) == v
  {
    if n > 0 {
      NumberOfDigits(v / 10, n - 1);
    }
  }

  lemma {:induction false} NumberOfNatDigits(v: nat)
    ensures Number(NatDigits(v)) == v
  {
    if v < 10 {
      assert Number([]) == 0 && [v as digit][..0] == [];
    } else {
      NumberOfNatDigits(v / 10);
    }
  }

  lemma {:induction false} NumberConcat(a: seq<digit>, b: seq<digit>)
    ensures Number(a + b) == Number(a) * Pow(10, |b|) + Number(b)
  {
    if b == [] {
      assert a + b == a;
    } else {
      var front := b[..|b| - 1];
      assert (a + b)[..|a + b| - 1] == a + front;
      NumberConcat(a, front);
      Rescale(Number(a), Pow(10, |front|), Number(front));
    }
  }

  lemma Rescale(a: nat, p: nat, n: nat)
    ensures 10 * (a * p + n) == a * (10 * p) + 10 * n
  {
  }

  lemma {:induction false} NumberOfZeros(n: nat)
    ensures Number(Zeros(n)) == 0
  {
    if n > 0 {
      assert Zeros(n)[..n - 1] == Zeros(n - 1);
      NumberOfZeros(n - 1);
    }
  }

  /** Zeros in front do not change a number. */
  lemma LeadingZeros(n: nat, ds: seq<digit>)
    ensures Number(Zeros(n) + ds) == Number(ds)
  {
    NumberConcat(Zeros(n), ds);
    NumberOfZeros(n);
  }

  /** Zeros at the end multiply it. */
  lemma TrailingZeros(ds: seq<digit>, n: nat)
    ensures Number(ds + Zeros(n)) == Number(ds) * Pow(10, n)
  {
    NumberConcat(ds, Zeros(n));
    NumberOfZeros(n);
  }

  lemma ShiftValue(m: nat, n: nat, s: int)
    ensures Value(m * Pow(10, n), s) == Value(m, n + s)
  {
    hide Pow, RPow;
    RPowAdd(n, s);
    NatProductAsReal(m, Pow(10, n));
    RealAssoc(m as real, Pow(10, n) as real, RPow(10, s));
  }

  lemma {:induction false} NumberBound(ds: seq<digit>)
    ensures Number(ds) < Pow(10, |ds|)
  {
    if ds != [] {
      NumberBound(ds[..|ds| - 1]);
    }
  }

  lemma ValueOrder(a: nat, b: nat, k: int)
    ensures a <= b <==> Value(a, k) <= Value(b, k)
    ensures a < b <==> Value(a, k) < Value(b, k)
  {
    hide RPow;
    RealScaledOrder(a as real, b as real, RPow(10, k));
  }

  lemma NatProductAsReal(m: nat, p: nat)
    ensures (m * p) as real == m as real * p as real
  {
  }

  lemma RPowAdd(n: nat, s: int)
    ensures RPow(10, n + s) == Pow(10, n) as real * RPow(10, s)
  {
    hide *;
    if s >= 0 {
      PowAdd(10, n, s);
      NatProductAsReal(Pow(10, n), Pow(10, s));
      RPowUp(s);
      RPowUp(n + s);
    } else if n + s >= 0 {
      RPowDrop(n + s, -s);
    } else {
      RPowRaise(n, -(n + s));
    }
  }

  lemma RPowDrop(a: nat, b: int)
    requires b > 0
    ensures RPow(10, a) == Pow(10, a + b) as real * RPow(10, -b)
  {
    hide *;
    PowAdd(10, a, b);
    SplitQuotient(Pow(10, a + b), Pow(10, a), Pow(10, b));
    RPowDown(b);
    RPowUp(a);
  }

  lemma RPowRaise(n: nat, b: int)
    requires b > 0
    ensures RPow(10, -b) == Pow(10, n) as real * RPow(10, -b - n)
  {
    hide *;
    PowAdd(10, n, b);
    SplitReciprocal(Pow(10, n + b), Pow(10, n), Pow(10, b));
    RPowDown(b);
    RPowDown(n + b);
    assert -b - n == -(n + b);
  }

  lemma RPowUp(n: nat)
    ensures RPow(10, n) == Pow(10, n) as real
  {
  }

  lemma RPowDown(n: int)
    requires n > 0
    ensures RPow(10, -n) == 1.0 / Pow(10, n) as real
  {
  }

  lemma SplitQuotient(p: nat, q: nat, r: nat)
    requires p == q * r && r > 0
    ensures q as real == p as real * (1.0 / r as real)
  {
    assert p as real == q as real * r as real;
    RealAssoc(q as real, r as real, 1.0 / r as real);
    assert r as real * (1.0 / r as real) == 1.0;
  }

  lemma SplitReciprocal(p: nat, q: nat, r: nat)
    requires p == q * r && r > 0 && q > 0
    ensures 1.0 / r as real == q as real * (1.0 / p as real)
  {
    assert p as real == q as real * r as real;
    var x := 1.0 / p as real;
    assert q as real * r as real * x == 1.0;
    RealAssoc(r as real, q as real, x);
    assert r as real * (q as real * x) == 1.0;
  }

  // ---------------------------------------------------------------- the layouts

  /** Numbers whose first digit is worth `10^e` for such an `e` are written without an exponent. */
  predicate Plain(w: Width, e: int) {
    if w.Bits64? then -5 <= e <= 15 else -6 <= e <= 12
  }

  function ExponentText(e: int): seq<byte> {
    [EXPONENT, if e >= 0 then PLUS else MINUS] + Ascii(NatDigits(if e >= 0 then e else -e))
  }

  /** The text of digits of which the first is worth `10^e`. */
  function Layout(w: Width, ds: seq<digit>, e: int): seq<byte>
    requires |ds| > 0
  {
    if Plain(w, e) then
      if |ds| - 1 <= e then Ascii(ds + Zeros(e + 1 - |ds|)) + [DOT, ZERO]
      else if 0 <= e then Ascii(ds[..e + 1]) + [DOT] + Ascii(ds[e + 1..])
      else [ZERO, DOT] + Ascii(Zeros(-1 - e) + ds)
    else
      Ascii(ds[..1]) + (if |ds| > 1 then [DOT] + Ascii(ds[1..]) else []) + ExponentText(e)
  }

  function SignText(negative: bool): seq<byte> {
    if negative then [MINUS] else []
  }

  // ---------------------------------------------------------------- reading

  /** A number as read: `mantissa * 10^scale`, negative or not. */
  datatype Reading = Reading(negative: bool, mantissa: nat, scale: int)

  predicate IsDigit(c: byte) {
    ZERO <= c < ZERO + 10
  }

  function DigitOf(c: byte): digit
    requires IsDigit(c)
  {
    c - ZERO
  }

  /** How many digits a text starts with. */
  function DigitRun(t: seq<byte>): (n: nat)
    ensures n <= |t| && forall i :: 0 <= i < n ==> IsDigit(t[i])
  {
    if t != [] && IsDigit(t[0]) then 1 + DigitRun(t[1..]) else 0
  }

  function DigitsOf(t: seq<byte>): (ds: seq<digit>)
    requires forall i :: 0 <= i < |t| ==> IsDigit(t[i])
    ensures |ds| == |t|
  {
    seq(|t|, i requires 0 <= i < |t| => DigitOf(t[i]))
  }

  /** `e`, a sign, digits without a leading zero, and nothing else. */
  function ReadExponent(t: seq<byte>): Option<int> {
    if t == [] then Some(0)
    else if |t| < 3 || t[0] != EXPONENT || (t[1] != PLUS && t[1] != MINUS) || DigitRun(t[2..]) != |t| - 2 then None
    else if |t| > 3 && t[2] == ZERO then None
    else
      var n: int := Number(DigitsOf(t[2..]));
      Some(if t[1] == PLUS then n else -n)
  }

  /** Digits, then a point and more digits or neither, then an exponent or nothing. */
  function ReadUnsigned(t: seq<byte>, negative: bool): Option<Reading> {
    var i := DigitRun(t);
    if i == 0 then None
    else if i < |t| && t[i] == DOT then
      var fraction := t[i + 1..];
      var j := DigitRun(fraction);
      if j == 0 then None
      else
        match ReadExponent(fraction[j..])
        case None => None
        case Some(e) => Some(Reading(negative, Number(DigitsOf(t[..i]) + DigitsOf(fraction[..j])), e - j))
    else
      match ReadExponent(t[i..])
      case None => None
      case Some(e) => Some(Reading(negative, Number(DigitsOf(t[..i])), e))
  }

  function Read(t: seq<byte>): Option<Reading> {
    if t != [] && t[0] == MINUS then ReadUnsigned(t[1..], true) else ReadUnsigned(t, false)
  }

  // ---------------------------------------------------------------- reading a layout

  /** What follows the digits does not continue them. */
  predicate StopsDigits(rest: seq<byte>) {
    rest == [] || !IsDigit(rest[0])
  }

  lemma {:induction false} RunOfAscii(ds: seq<digit>, rest: seq<byte>)
    requires StopsDigits(rest)
    ensures var t := Ascii(ds) + rest;
            DigitRun(t) == |ds| && t[|ds|..] == rest && t[..|ds|] == Ascii(ds) && DigitsOf(Ascii(ds)) == ds
  {
    var t := Ascii(ds) + rest;
    if ds == [] {
      assert t == rest;
    } else {
      RunOfAscii(ds[1..], rest);
      assert t[1..] == Ascii(ds[1..]) + rest;
    }
  }

  lemma ReadsWhole(ds: seq<digit>, rest: seq<byte>, negative: bool)
    requires |ds| > 0 && StopsDigits(rest) && (rest != [] ==> rest[0] != DOT)
    requires ReadExponent(rest).Some?
    ensures ReadUnsigned(Ascii(ds) + rest, negative) == Some(Reading(negative, Number(ds), ReadExponent(rest).value))
  {
    hide Number, ReadExponent, DigitRun;
    RunOfAscii(ds, rest);
  }

  lemma AfterPoint(t: seq<byte>, i: nat, rest: seq<byte>)
    requires i <= |t| && t[i..] == [DOT] + rest
    ensures i < |t| && t[i] == DOT && t[i + 1..] == rest
  {
    assert t[i + 1..] == t[i..][1..];
  }

  lemma UnfoldFraction(t: seq<byte>, i: nat, fraction: seq<byte>, j: nat, negative: bool)
    requires 0 < i == DigitRun(t) < |t| && t[i] == DOT && t[i + 1..] == fraction && 0 < j == DigitRun(fraction)
    requires ReadExponent(fraction[j..]).Some?
    ensures ReadUnsigned(t, negative)
            == Some(Reading(negative, Number(DigitsOf(t[..i]) + DigitsOf(fraction[..j])),
               ReadExponent(fraction[j..]).value - j))
  {
    hide Number, ReadExponent, DigitRun, DigitsOf;
  }

  lemma ReadsFraction(ds: seq<digit>, fs: seq<digit>, rest: seq<byte>, negative: bool)
    requires |ds| > 0 && |fs| > 0 && StopsDigits(rest)
    requires ReadExponent(rest).Some?
    ensures ReadUnsigned(Ascii(ds) + ([DOT] + (Ascii(fs) + rest)), negative)
            == Some(Reading(negative, Number(ds + fs), ReadExponent(rest).value - |fs|))
  {
    hide Number, ReadExponent, DigitRun, DigitsOf, ReadUnsigned, Ascii;
    var tail := [DOT] + (Ascii(fs) + rest);
    RunOfAscii(ds, tail);
    RunOfAscii(fs, rest);
    AfterPoint(Ascii(ds) + tail, |ds|, Ascii(fs) + rest);
    UnfoldFraction(Ascii(ds) + tail, |ds|, Ascii(fs) + rest, |fs|, negative);
  }

  lemma NoExponent()
    ensures ReadExponent([]) == Some(0)
  {
  }

  lemma ReadsExponent(e: int)
    ensures ReadExponent(ExponentText(e)) == Some(e) && StopsDigits(ExponentText(e)) && ExponentText(e)[0] != DOT
  {
    hide Number, NatDigits, DigitRun;
    var n := if e >= 0 then e else -e;
    var t, ds := ExponentText(e), NatDigits(n);
    RunOfAscii(ds, []);
    assert t[2..] == Ascii(ds) + [] == Ascii(ds);
    NumberOfNatDigits(n);
  }

  /** The number that is laid out: digits of which the first is worth `10^e`. */
  function LaidOut(ds: seq<digit>, e: int): real {
    Value(Number(ds), e + 1 - |ds|)
  }

  /** The reading of a layout denotes the number that was laid out. */
  ghost predicate Denotes(t: seq<byte>, negative: bool, value: real) {
    var r := Read(t);
    r.Some? && r.value.negative == negative && Value(r.value.mantissa, r.value.scale) == value
  }

  ghost predicate UnsignedDenotes(t: seq<byte>, negative: bool, value: real) {
    var r := ReadUnsigned(t, negative);
    r.Some? && r.value.negative == negative && Value(r.value.mantissa, r.value.scale) == value
  }

  lemma WholeDenotes(w: Width, ds: seq<digit>, e: int, negative: bool)
    requires |ds| > 0 && Plain(w, e) && |ds| - 1 <= e
    ensures UnsignedDenotes(Layout(w, ds, e), negative, LaidOut(ds, e))
  {
    hide Number, ReadUnsigned, Value;
    var all := ds + Zeros(e + 1 - |ds|);
    assert Ascii(Zeros(1)) == [ZERO];
    FractionReads(all, Zeros(1), Layout(w, ds, e), negative);
    assert all + Zeros(1) == ds + Zeros(e + 2 - |ds|);
    TrailingZeros(ds, e + 2 - |ds|);
    ShiftValue(Number(ds), e + 2 - |ds|, -1);
  }

  lemma PointInsideDenotes(w: Width, ds: seq<digit>, e: int, negative: bool)
    requires |ds| > 0 && Plain(w, e) && 0 <= e < |ds| - 1
    ensures UnsignedDenotes(Layout(w, ds, e), negative, LaidOut(ds, e))
  {
    hide Number, ReadUnsigned, Value;
    FractionReads(ds[..e + 1], ds[e + 1..], Layout(w, ds, e), negative);
    assert ds[..e + 1] + ds[e + 1..] == ds;
  }

  lemma PointInFrontDenotes(w: Width, ds: seq<digit>, e: int, negative: bool)
    requires |ds| > 0 && Plain(w, e) && e < 0
    ensures UnsignedDenotes(Layout(w, ds, e), negative, LaidOut(ds, e))
  {
    hide *;
    var zs, fs := Zeros(1), Zeros(-1 - e) + ds;
    PointInFront(w, ds, zs, fs, e);
    FractionReads(zs, fs, Layout(w, ds, e), negative);
    LeadingZeros(-e, ds);
    LaidOutIs(ds, e);
    Reads(Layout(w, ds, e), negative, Number(zs + fs), -|fs|);
  }

  lemma FractionReads(ds: seq<digit>, fs: seq<digit>, t: seq<byte>, negative: bool)
    requires |ds| > 0 && |fs| > 0 && t == Ascii(ds) + ([DOT] + (Ascii(fs) + []))
    ensures ReadUnsigned(t, negative) == Some(Reading(negative, Number(ds + fs), -|fs|))
  {
    NoExponent();
    hide Number, ReadExponent, DigitRun, ReadUnsigned;
    ReadsFraction(ds, fs, [], negative);
  }

  lemma PointInFront(w: Width, ds: seq<digit>, zs: seq<digit>, fs: seq<digit>, e: int)
    requires |ds| > 0 && Plain(w, e) && e < 0 && zs == Zeros(1) && fs == Zeros(-1 - e) + ds
    ensures |zs| == 1 && |fs| == |ds| - 1 - e
    ensures Layout(w, ds, e) == Ascii(zs) + ([DOT] + (Ascii(fs) + []))
    ensures zs + fs == Zeros(-e) + ds
  {
    assert Ascii(zs) == [ZERO];
  }

  lemma LaidOutIs(ds: seq<digit>, e: int)
    ensures LaidOut(ds, e) == Value(Number(ds), e + 1 - |ds|)
  {
  }

  lemma Reads(t: seq<byte>, negative: bool, m: nat, s: int)
    requires ReadUnsigned(t, negative) == Some(Reading(negative, m, s))
    ensures UnsignedDenotes(t, negative, Value(m, s))
  {
  }

  lemma ScientificDenotes(w: Width, ds: seq<digit>, e: int, negative: bool)
    requires |ds| > 0 && !Plain(w, e)
    ensures UnsignedDenotes(Layout(w, ds, e), negative, LaidOut(ds, e))
  {
    hide Number, ReadUnsigned, Value, ReadExponent, ExponentText, Plain, DigitRun;
    var rest := ExponentText(e);
    ReadsExponent(e);
    var head := Ascii(ds[..1]);
    if |ds| > 1 {
      var tail := [DOT] + (Ascii(ds[1..]) + rest);
      assert head + ([DOT] + Ascii(ds[1..])) + rest == head + tail;
      ReadsFraction(ds[..1], ds[1..], rest, negative);
      assert ds[..1] + ds[1..] == ds;
    } else {
      assert ds[..1] == ds;
      assert head + [] + rest == Ascii(ds) + rest;
      ReadsWhole(ds, rest, negative);
    }
  }

  /** Every layout, read as a decimal number, denotes exactly the number that was laid out. */
  lemma LayoutDenotes(w: Width, ds: seq<digit>, e: int, negative: bool)
    requires |ds| > 0
    ensures Denotes(SignText(negative) + Layout(w, ds, e), negative, LaidOut(ds, e))
  {
    hide ReadUnsigned, Value, LaidOut;
    if Plain(w, e) {
      if |ds| - 1 <= e {
        WholeDenotes(w, ds, e, negative);
      } else if 0 <= e {
        PointInsideDenotes(w, ds, e, negative);
      } else {
        PointInFrontDenotes(w, ds, e, negative);
      }
    } else {
      ScientificDenotes(w, ds, e, negative);
    }
    var t := Layout(w, ds, e);
    assert t[0] != MINUS;
    assert (SignText(true) + t)[1..] == t && SignText(false) + t == t;
  }
}
