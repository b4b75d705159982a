/**
 `write` of `patches/zmij/src/lib.rs` as a whole: from the bits of a finite float to text that,
 read as a decimal, denotes exactly the selected number, which reads back as the same float.
 */
module FloatText {

  import opened Multiply
  import PowerTable
  import opened Powers
  import opened Exponents
  import opened Decimal
  import opened DecimalProofs
  import opened FastPathProofs
  import opened ExactHits
  import opened Floats
  import opened Bcd
  import opened Text
  import opened Printer
  import opened Shape

  // ---------------------------------------------------------------- laying out a decimal

  /** `MAX_DIGITS10` of the two widths. */
  function MaxDigits10(w: Width): nat {
    if w.Bits64? then 17 else 9
  }

  /** The decimals the selection returns, once a subnormal one is scaled up. */
  predicate Printable(w: Width, dec: ToDecimalResult) {
    if w.Bits64? then 1_000_000_000_000_000 <= dec.sig < 100_000_000_000_000_000 && -400 <= dec.exp <= 400
    else 1_000_000 <= dec.sig < 1_000_000_000 && -60 <= dec.exp <= 60
  }

  /** A single-precision significand of seven digits is written with eight. */
  function Widened(w: Width, dec: ToDecimalResult): ToDecimalResult {
    if w.Bits32? && dec.sig < 10_000_000 then ToDecimalResult(10 * dec.sig, dec.exp - 1) else dec
  }

  function AllDigits(w: Width, dec: ToDecimalResult): seq<digit> {
    Digits(Widened(w, dec).sig, DigitCount(w, dec.sig))
  }

  /** The digits that are printed, and the power of ten the first of them is worth. */
  function ShownDigits(w: Width, dec: ToDecimalResult): seq<digit> {
    SignificantDigits(AllDigits(w, dec))
  }

  function ShownExp(w: Width, dec: ToDecimalResult): int {
    Widened(w, dec).exp + DigitCount(w, dec.sig) - 1
  }

  /** A number with as many digits as it needs does not begin with a zero. */
  lemma FirstIsNonzero(value: nat, n: nat)
    requires n > 0 && Pow(10, n - 1) <= value < Pow(10, n)
    ensures Digits(value, n)[0] != 0
  {
    hide Number, Pow;
    var ds := Digits(value, n);
    NumberOfDigits(value, n);
    if ds[0] == 0 {
      assert ds == Zeros(1) + ds[1..];
      LeadingZeros(1, ds[1..]);
      NumberBound(ds[1..]);
      assert false;
    }
  }

  lemma {:induction false} TrimmedDigits(ds: seq<digit>)
    ensures ds == SignificantDigits(ds) + Zeros(|ds| - TrimmedLength(ds))
  {
  }

  lemma WidenedFits(w: Width, dec: ToDecimalResult)
    requires Printable(w, dec)
    ensures var n := DigitCount(w, dec.sig); n > 0 && Pow(10, n - 1) <= Widened(w, dec).sig < Pow(10, n)
  {
    Pow10Eight();
    assert Pow(10, 16) == 10 * Pow(10, 15);
    assert Pow(10, 8) == 10 * Pow(10, 7);
  }

  /** The printed digits denote the number, and begin and end with digits other than zero. */
  lemma ShownIsDecimal(w: Width, dec: ToDecimalResult)
    requires Printable(w, dec)
    ensures var ds := ShownDigits(w, dec);
            && |ds| > 0 && ds[0] != 0 && ds[|ds| - 1] != 0
            && LaidOut(ds, ShownExp(w, dec)) == Value(dec.sig, dec.exp)
  {
    hide Pow, Digits, Number, Value, DigitCount, Printable;
    var n, wide, all := DigitCount(w, dec.sig), Widened(w, dec), AllDigits(w, dec);
    WidenedFits(w, dec);
    FirstIsNonzero(wide.sig, n);
    TrimmedDigits(all);
    var ds := ShownDigits(w, dec);
    var rest := n - |ds|;
    TrailingZeros(ds, rest);
    NumberOfDigits(wide.sig, n);
    ShiftValue(Number(ds), rest, wide.exp);
    WidenedIsSame(w, dec);
  }

  lemma WidenedIsSame(w: Width, dec: ToDecimalResult)
    ensures var wide := Widened(w, dec); Value(wide.sig, wide.exp) == Value(dec.sig, dec.exp)
  {
    Pow10Eight();
    hide Value, Pow;
    ShiftValue(dec.sig, 1, dec.exp - 1);
  }

  /** The choice between the four layouts. */
  method LayOut(w: Width, buf: array<byte>, start: nat, length: nat, decExp: int, ghost ds: seq<digit>)
      returns (end: nat)
    requires Staged(buf, start, ds) && length == |ds| <= MaxDigits10(w) && start <= 1 && buf.Length == BUFFER_SIZE
    requires if w.Bits64? then -1000 < decExp < 1000 else -100 < decExp < 100
    modifies buf
    ensures start <= end <= BUFFER_SIZE && buf[start..end] == Layout(w, ds, decExp)
    ensures forall i :: 0 <= i < start ==> buf[i] == old(buf[i])
  {
    hide ExponentText, Ascii, Staged;
    assert |ds| > 0 by { StagedHasDigits(buf, start, ds); }
    if Plain(w, decExp) {
      if length - 1 <= decExp {
        end := LayOutWhole(buf, start, length, decExp, ds);
      } else if 0 <= decExp {
        end := LayOutPoint(buf, start, length, decExp, ds);
      } else {
        end := LayOutFraction(buf, start, length, decExp, ds);
      }
    } else {
      end := LayOutScientific(w, buf, start, length, decExp, ds);
    }
  }

  lemma StagedHasDigits(buf: array<byte>, start: nat, ds: seq<digit>)
    requires Staged(buf, start, ds)
    ensures |ds| > 0
  {
  }

  /** The part of `write` behind the choice of the decimal: every store is inside 24 bytes. */
  method WriteDecimal(w: Width, buf: array<byte>, start: nat, dec: ToDecimalResult) returns (end: nat)
    requires buf.Length == BUFFER_SIZE && start <= 1 && Printable(w, dec)
    modifies buf
    ensures start <= end <= BUFFER_SIZE && |ShownDigits(w, dec)| > 0
    ensures buf[start..end] == Layout(w, ShownDigits(w, dec), ShownExp(w, dec))
    ensures forall i :: 0 <= i < start ==> buf[i] == old(buf[i])
  {
    hide Digits, TrimmedLength, LaidOut, Layout, Ascii, Staged;
    var extraDigit := dec.sig >= Threshold(w);
    var decExp := dec.exp + MaxDigits10(w) - 2 + (if extraDigit then 1 else 0);
    var sig := dec.sig;
    if w.Bits32? && sig < 10_000_000 {
      sig := sig * 10;
      decExp := decExp - 1;
    }
    var sigEnd := WriteSignificand(w, buf, start + 1, sig, extraDigit);
    var length := sigEnd - (start + 1);
    ghost var ds := ShownDigits(w, dec);
    ShownIsDecimal(w, dec);
    StagedIs(buf, start, ds);
    end := LayOut(w, buf, start, length, decExp, ds);
  }

  lemma StagedIs(buf: array<byte>, start: nat, ds: seq<digit>)
    requires |ds| > 0 && start + 1 + |ds| <= buf.Length && buf[start + 1..start + 1 + |ds|] == Ascii(ds)
    ensures Staged(buf, start, ds)
  {
    forall i | start < i < start + 1 + |ds| ensures buf[i] == ZERO + ds[i - start - 1] {
      assert buf[i] == buf[start + 1..start + 1 + |ds|][i - start - 1];
    }
  }

  // ---------------------------------------------------------------- the decimal of a float

  /** One unit in the last place over the power of ten of the selection. */
  function UlpOf(e: int, regular: bool): real
    requires -1334 <= e <= 2620
  {
    RPow(2, e) * RPow(10, -ComputeDecExp(e, regular))
  }

  function ShiftFor(e: int, regular: bool): nat
    requires -1074 <= e <= 971
  {
    ShiftIsSmall(e, regular);
    DoComputeExpShift(e, ComputeDecExp(e, regular))
  }

  /**
   What is taken of the table of powers: the entry is the exact power rounded down, and no even
   number of quarters falls into the entry's error.
   */
  ghost predicate Trusted(w: Width, s: nat, e: int, regular: bool, pow10: Uint128) {
    && 1 <= s && -1074 <= e <= 971 && Usable(w, pow10)
    && Accurate(w, pow10, ShiftFor(e, regular), UlpOf(e, regular))
    && AllSeparated(w, pow10, ShiftFor(e, regular), s, UlpOf(e, regular), regular)
  }

  /** The entry of 10^0 can be trusted for every double that is a whole number of units. */
  lemma ExactEntryIsTrusted(s: nat)
    requires 1 <= s < SigLimit(Bits64)
    ensures Trusted(Bits64, s, 0, true, Uint128(B63, 0))
  {
    var one := Uint128(B63, 0);
    FirstPowersOfTwo();
    UnitOfZero();
    assert one.Value() == 0x8000_0000_0000_0000_0000_0000_0000_0000;
    ExactEntrySeparates(4 * s - 2);
    ExactEntrySeparates(4 * s);
    ExactEntrySeparates(4 * s + 2);
  }

  lemma UnitOfZero()
    ensures UlpOf(0, true) == 1.0 && ShiftFor(0, true) == 1
  {
    assert Pow(2, 0) == 1 && Pow(10, 0) == 1;
  }

  lemma ExactEntrySeparates(x: nat)
    requires x < B64
    ensures Separated(Bits64, Uint128(B63, 0), 1, x, 1.0)
  {
    FirstPowersOfTwo();
    var z := RaisedProduct(Bits64, Uint128(B63, 0), 1, x);
    assert z == x * B128 + 2 * x;
    hide RaisedProduct, Pow;
    assert Times(x, 1.0) == x as real;
    forall t: nat
      ensures x > t ==> z >= Mark(Bits64, t) + 2 * Unseen(Bits64)
      ensures x < t ==> z < Mark(Bits64, t)
    {
      if x > t {
        assert x * B128 >= t * B128 + B128;
      }
    }
  }

  /** The table at the power of ten the float needs can be trusted for it. */
  ghost predicate TrustedTable(w: Width, bits: nat, table: int -> Uint128)
    requires IsFinite(w, bits) && Sig(w, bits) > 0
  {
    BitsInRange(w, bits);
    var e, regular := Exp(w, bits), IsRegular(w, bits);
    Trusted(w, Sig(w, bits), e, regular, table(-ComputeDecExp(e, regular)))
  }

  /** The selection as `write` calls it: subnormal floats do not take the fast path. */
  function ToDecimal(w: Width, s: nat, e: int, regular: bool, subnormal: bool, pow10: Uint128): ToDecimalResult
    requires 1 <= s < SigLimit(w) && -1074 <= e <= 971 && Usable(w, pow10)
  {
    ShiftIsSmall(e, regular);
    if subnormal then ToDecimalSchubfach(w, s, ShiftFor(e, regular), pow10, regular, ComputeDecExp(e, regular))
    else ToDecimalFast(w, s, ShiftFor(e, regular), pow10, regular, ComputeDecExp(e, regular))
  }

  /** The irregular exponent leaves a unit of which three quarters lie between one and ten. */
  lemma IrregularUlp(e: int)
    requires -1334 <= e <= 2620
    ensures 4.0 <= 3.0 * UlpOf(e, false) < 40.0
  {
    hide RPow, Pow, ComputeDecExp;
    var k := ComputeDecExp(e, false);
    DecExpIsFloorLog10Irregular(e);
    RPowFlip(10, k);
    RPowNext(k);
    QuotientRange(RPow(10, k), 0.75 * RPow(2, e), RPow(10, -k));
    RealAssoc(0.75, RPow(2, e), RPow(10, -k));
  }

  /** `to_decimal_schubfach` of every float returns the shortest decimal, regular or not. */
  lemma SchubfachOfFloat(w: Width, s: nat, e: int, regular: bool, pow10: Uint128)
    requires 1 <= s < SigLimit(w) && MinExp(w) <= e <= MaxExp(w) && Trusted(w, s, e, regular, pow10)
    requires !regular ==> s % 2 == 0
    ensures 1 <= ShiftFor(e, regular) <= 4
    ensures var dec := ToDecimalSchubfach(w, s, ShiftFor(e, regular), pow10, regular, ComputeDecExp(e, regular));
            dec.exp == ComputeDecExp(e, regular) && IsShortest(dec.sig, s, UlpOf(e, regular), regular)
  {
    hide ToDecimalSchubfach, IsShortest, Accurate, AllSeparated, Usable, ComputeDecExp, Ulp, UlpOf;
    ShiftIsSmall(e, regular);
    if regular {
      UlpOfRegular(e);
      UlpIsBetweenOneAndTen(e);
    } else {
      IrregularUlp(e);
    }
    SchubfachIsShortest(w, s, ShiftFor(e, regular), pow10, regular, ComputeDecExp(e, regular), UlpOf(e, regular));
  }

  /** The selected decimal is the shortest one that reads back, whichever path found it. */
  lemma ToDecimalIsShortest(w: Width, s: nat, e: int, regular: bool, subnormal: bool, pow10: Uint128)
    requires 1 <= s < SigLimit(w) && MinExp(w) <= e <= MaxExp(w) && Trusted(w, s, e, regular, pow10)
    requires !regular ==> s % 2 == 0
    ensures var dec := ToDecimal(w, s, e, regular, subnormal, pow10);
            dec.exp == ComputeDecExp(e, regular) && IsShortest(dec.sig, s, UlpOf(e, regular), regular)
  {
    hide ToDecimalSchubfach, FastPath, IsShortest, Accurate, AllSeparated, Usable, ComputeDecExp, Ulp, UlpOf;
    var shift, ulp, k := ShiftFor(e, regular), UlpOf(e, regular), ComputeDecExp(e, regular);
    ShiftIsSmall(e, regular);
    if regular {
      UlpOfRegular(e);
      UlpIsBetweenOneAndTen(e);
      HitsAreSafeForFloats(w, s, e, pow10);
      FastIsSchubfach(w, s, shift, pow10, k, ulp);
    }
    SchubfachOfFloat(w, s, e, regular, pow10);
  }

  lemma UlpOfRegular(e: int)
    requires -1074 <= e <= 971
    ensures UlpOf(e, true) == Ulp(e) && ShiftFor(e, true) == ShiftOf(e)
  {
    hide RPow, Pow, ComputeDecExp, DoComputeExpShift;
  }

  // ---------------------------------------------------------------- the size of the decimal

  lemma DecExpRange(w: Width, e: int, regular: bool)
    requires MinExp(w) <= e <= MaxExp(w)
    ensures if w.Bits64? then -324 <= ComputeDecExp(e, regular) <= 292 else -46 <= ComputeDecExp(e, regular) <= 31
  {
  }

  lemma TimesBounds(x: nat, ulp: real, limit: nat)
    ensures ulp >= 1.0 ==> Times(x, ulp) >= x as real
    ensures x > 0 && ulp < limit as real ==> Times(x, ulp) < (x * limit) as real
  {
    hide Times;
    if x > 0 && ulp >= 1.0 {
      TimesAtLeast(x, ulp);
    }
    if x == 0 {
      TimesZero(ulp);
    }
    if x > 0 && ulp < limit as real {
      TimesBelow(x, ulp, limit);
    }
  }

  lemma TimesZero(ulp: real)
    ensures Times(0, ulp) == 0.0
  {
  }

  lemma TimesAtLeast(x: nat, ulp: real)
    requires x > 0 && ulp >= 1.0
    ensures Times(x, ulp) >= x as real
  {
    RealMulMono(1.0, ulp, x as real);
    assert ulp * x as real == x as real * ulp;
  }

  lemma TimesBelow(x: nat, ulp: real, limit: nat)
    requires x > 0 && ulp < limit as real
    ensures Times(x, ulp) < (x * limit) as real
  {
    RealMulMono(ulp, limit as real, x as real);
    assert ulp * x as real == x as real * ulp;
    NatProductAsReal(limit, x);
  }

  /** The decimal of a float has the digits its layout expects. */
  lemma DecimalFits(w: Width, s: nat, e: int, regular: bool, subnormal: bool, pow10: Uint128)
    requires 1 <= s < SigLimit(w) && MinExp(w) <= e <= MaxExp(w) && Trusted(w, s, e, regular, pow10)
    requires !regular ==> s == ImplicitBit(w)
    requires !subnormal ==> s >= ImplicitBit(w)
    requires subnormal ==> regular && s < ImplicitBit(w)
    ensures var dec := ToDecimal(w, s, e, regular, subnormal, pow10);
            1 <= dec.sig < 10 * Threshold(w) && (!subnormal ==> Printable(w, dec))
  {
    hide ToDecimal, IsShortest, Accurate, AllSeparated, UlpOf, ComputeDecExp, ShiftFor, Usable, Printable;
    ToDecimalIsShortest(w, s, e, regular, subnormal, pow10);
    var dec := ToDecimal(w, s, e, regular, subnormal, pow10);
    DecExpRange(w, e, regular);
    InShortest(dec.sig, s, UlpOf(e, regular), regular);
    hide *;
    IntervalFits(w, dec, s, e, regular, subnormal);
  }

  lemma IntervalFits(w: Width, dec: ToDecimalResult, s: nat, e: int, regular: bool, subnormal: bool)
    requires 1 <= s < SigLimit(w) && -1334 <= e <= 2620 && InInterval(dec.sig, s, UlpOf(e, regular), regular)
    requires if w.Bits64? then -324 <= dec.exp <= 292 else -46 <= dec.exp <= 31
    requires !regular ==> s == ImplicitBit(w)
    requires !subnormal ==> s >= ImplicitBit(w)
    ensures 1 <= dec.sig < 10 * Threshold(w) && (!subnormal ==> Printable(w, dec))
  {
    hide UlpOf, InInterval;
    if regular {
      RegularUlp(e);
      RegularFits(w, dec, s, UlpOf(e, true));
    } else {
      IrregularUlp(e);
      IrregularFits(w, dec, s, UlpOf(e, false));
    }
  }

  lemma RegularUlp(e: int)
    requires -1334 <= e <= 2620
    ensures 1.0 <= UlpOf(e, true) < 10.0
  {
    hide RPow, Pow, ComputeDecExp;
    UlpIsBetweenOneAndTen(e);
  }

  lemma InShortest(d: nat, s: nat, ulp: real, regular: bool)
    requires s >= 1 && IsShortest(d, s, ulp, regular)
    ensures InInterval(d, s, ulp, regular)
  {
  }

  lemma RegularFits(w: Width, dec: ToDecimalResult, s: nat, ulp: real)
    requires 1 <= s < SigLimit(w) && InInterval(dec.sig, s, ulp, true) && 1.0 <= ulp < 10.0
    requires if w.Bits64? then -324 <= dec.exp <= 292 else -46 <= dec.exp <= 31
    ensures 1 <= dec.sig < 10 * Threshold(w) && (s >= ImplicitBit(w) ==> Printable(w, dec))
  {
    hide Times;
    TimesBounds(4 * s - 2, ulp, 10);
    TimesBounds(4 * s + 2, ulp, 10);
    assert 4 * s - 2 <= 4 * dec.sig <= 10 * (4 * s + 2);
  }

  lemma IrregularFits(w: Width, dec: ToDecimalResult, s: nat, ulp: real)
    requires s == ImplicitBit(w) && InInterval(dec.sig, s, ulp, false) && 4.0 <= 3.0 * ulp < 40.0
    requires if w.Bits64? then -324 <= dec.exp <= 292 else -46 <= dec.exp <= 31
    ensures 1 <= dec.sig < 10 * Threshold(w) && Printable(w, dec)
  {
    hide Times;
    TimesBounds(4 * s - 1, ulp, 14);
    TimesBounds(4 * s + 2, ulp, 14);
    assert 4 * s - 1 <= 4 * dec.sig <= 14 * (4 * s + 2);
  }

  // ---------------------------------------------------------------- write

  /** The loop that scales a subnormal number up until it has all its digits. */
  method ScaleUp(w: Width, dec: ToDecimalResult) returns (scaled: ToDecimalResult)
    requires 1 <= dec.sig < 10 * Threshold(w)
    requires if w.Bits64? then -324 <= dec.exp <= 292 else -46 <= dec.exp <= 31
    ensures Printable(w, scaled) && scaled.sig >= Threshold(w)
    ensures Value(scaled.sig, scaled.exp) == Value(dec.sig, dec.exp)
  {
    assert Pow(10, 0) == 1;
    hide Value, Pow;
    Pow10Eight();
    var sig, exp := dec.sig, dec.exp;
    ghost var steps: nat, digits: nat := 0, if w.Bits64? then 16 else 8;
    while sig < Threshold(w)
      invariant 1 <= sig < 10 * Threshold(w) && steps <= digits
      invariant exp == dec.exp - steps && sig >= Pow(10, steps)
      invariant Value(sig, exp) == Value(dec.sig, dec.exp)
      decreases Threshold(w) - sig
    {
      if steps == digits {
        assert false;
      }
      ShiftValue(sig, 1, exp - 1);
      PowAdd(10, steps, 1);
      sig := sig * 10;
      exp := exp - 1;
      steps := steps + 1;
    }
    scaled := ToDecimalResult(sig, exp);
  }

  /** The number that is printed. */
  function DecimalOf(w: Width, bits: nat, table: int -> Uint128): real
    requires IsFinite(w, bits) && Sig(w, bits) > 0 && TrustedTable(w, bits, table)
  {
    var dec := Selected(w, bits, table);
    Value(dec.sig, dec.exp)
  }

  function Selected(w: Width, bits: nat, table: int -> Uint128): ToDecimalResult
    requires IsFinite(w, bits) && Sig(w, bits) > 0 && TrustedTable(w, bits, table)
  {
    BitsInRange(w, bits);
    var e, regular := Exp(w, bits), IsRegular(w, bits);
    ToDecimal(w, Sig(w, bits), e, regular, RawExp(w, bits) == 0, table(-ComputeDecExp(e, regular)))
  }

  /** The stored table as a function of the power of ten. */
  function EntryOf(t: PowerTable.Sources): int -> Uint128
    requires PowerTable.Compiles(t)
  {
    decExp requires PowerTable.Compiles(t) =>
      if 0 <= decExp - PowerTable.DEC_EXP_MIN < PowerTable.NUM_POW10
      then PowerTable.Compute(t, decExp - PowerTable.DEC_EXP_MIN).value else Uint128(0, 0)
  }

  /** Every power of ten that a float of either width asks for is stored. */
  lemma LookupIsInTable(w: Width, e: int, regular: bool)
    requires MinExp(w) <= e <= MaxExp(w)
    ensures PowerTable.DEC_EXP_MIN <= -ComputeDecExp(e, regular) < PowerTable.DEC_EXP_MIN + PowerTable.NUM_POW10
  {
    hide ComputeDecExp;
    DecExpRange(w, e, regular);
  }

  /** The entry for the exponent of a float, read from either layout. */
  method Lookup(w: Width, e: int, regular: bool, t: PowerTable.Sources, data: array<u64>, split: bool)
      returns (pow10: Uint128)
    requires MinExp(w) <= e <= MaxExp(w)
    requires PowerTable.Compiles(t) && PowerTable.Holds(t, data, split, PowerTable.NUM_POW10)
    ensures pow10 == EntryOf(t)(-ComputeDecExp(e, regular))
  {
    hide ComputeDecExp, PowerTable.Compute, PowerTable.Holds;
    LookupIsInTable(w, e, regular);
    pow10 := PowerTable.GetUnchecked(t, data, split, -ComputeDecExp(e, regular));
  }

  /** The choice of the decimal in `write`. */
  method Choose(w: Width, bits: nat, t: PowerTable.Sources, data: array<u64>, split: bool)
      returns (dec: ToDecimalResult)
    requires PowerTable.Compiles(t) && PowerTable.Holds(t, data, split, PowerTable.NUM_POW10)
    requires IsFinite(w, bits) && Sig(w, bits) > 0 && TrustedTable(w, bits, EntryOf(t))
    ensures Printable(w, dec) && Value(dec.sig, dec.exp) == DecimalOf(w, bits, EntryOf(t))
  {
    hide ToDecimal, Trusted, Value, ComputeDecExp, EntryOf, PowerTable.Compute, PowerTable.Holds;
    BitsInRange(w, bits);
    var rawExp, rawSig := RawExp(w, bits), RawSig(w, bits);
    if rawExp == 0 {
      var e := 1 - ExpOffset(w);
      var pow10 := Lookup(w, e, true, t, data, split);
      DecimalFits(w, rawSig, e, true, true, pow10);
      ToDecimalIsShortest(w, rawSig, e, true, true, pow10);
      DecExpRange(w, e, true);
      TrustedIsUsable(w, rawSig, e, true, pow10);
      dec := ToDecimal(w, rawSig, e, true, true, pow10);
      dec := ScaleUp(w, dec);
    } else {
      var s, e := rawSig + ImplicitBit(w), rawExp - ExpOffset(w);
      var pow10 := Lookup(w, e, rawSig != 0, t, data, split);
      DecimalFits(w, s, e, rawSig != 0, false, pow10);
      TrustedIsUsable(w, s, e, rawSig != 0, pow10);
      dec := ToDecimal(w, s, e, rawSig != 0, false, pow10);
    }
  }

  lemma TrustedIsUsable(w: Width, s: nat, e: int, regular: bool, pow10: Uint128)
    requires Trusted(w, s, e, regular, pow10)
    ensures Usable(w, pow10)
  {
  }

  /**
   `write`. The text of a nonzero float denotes exactly the selected decimal and the sign of
   the float; it never needs more than the 24 bytes of the buffer.
   */
  method Write(w: Width, bits: nat, t: PowerTable.Sources, data: array<u64>, split: bool, buf: array<byte>)
      returns (end: nat)
    requires buf.Length == BUFFER_SIZE && IsFinite(w, bits)
    requires PowerTable.Compiles(t) && PowerTable.Holds(t, data, split, PowerTable.NUM_POW10)
    requires Sig(w, bits) > 0 ==> TrustedTable(w, bits, EntryOf(t))
    modifies buf
    ensures end <= BUFFER_SIZE
    ensures Sig(w, bits) == 0 ==> buf[..end] == SignText(IsNegative(w, bits)) + [ZERO, DOT, ZERO]
    ensures Sig(w, bits) > 0 ==> Denotes(buf[..end], IsNegative(w, bits), DecimalOf(w, bits, EntryOf(t)))
    ensures Sig(w, bits) > 0 ==> IsShapedSigned(w, buf[..end], IsNegative(w, bits), DecimalOf(w, bits, EntryOf(t)))
  {
    hide TrustedTable, DecimalOf, Denotes, IsShaped, Printable, Layout, ShownDigits, ShownExp, LaidOut, Value;
    var start := if IsNegative(w, bits) then 1 else 0;
    buf[0] := MINUS;
    if RawExp(w, bits) == 0 && RawSig(w, bits) == 0 {
      buf[start], buf[start + 1], buf[start + 2] := ZERO, DOT, ZERO;
      return start + 3;
    }
    assert Sig(w, bits) > 0;
    var dec := Choose(w, bits, t, data, split);
    end := WriteDecimal(w, buf, start, dec);
    ShownIsDecimal(w, dec);
    LayoutDenotes(w, ShownDigits(w, dec), ShownExp(w, dec), IsNegative(w, bits));
    LayoutIsShaped(w, ShownDigits(w, dec), ShownExp(w, dec));
    ghost var text := Layout(w, ShownDigits(w, dec), ShownExp(w, dec));
    SignedIsShaped(w, text, IsNegative(w, bits), LaidOut(ShownDigits(w, dec), ShownExp(w, dec)));
    assert buf[0..start] == SignText(IsNegative(w, bits));
    JoinSlices(buf, 0, start, end);
    assert buf[..end] == buf[0..end];
  }
}
