/**
 The in-place writer of `patches/zmij/src/lib.rs`: `write_significand` (scalar form) and the
 second half of `write`, which shuffles the digits inside a 24-byte buffer into one of four
 layouts. Positions in the buffer stand for the pointers the source advances.
 */
module Printer {

  import opened Multiply
  import opened Powers
  import opened Decimal
  import opened Bcd
  import opened Text

  const BUFFER_SIZE := 24

  // ---------------------------------------------------------------- stores

  /** `write8`: an unaligned store of one word. */
  method Write8(buf: array<byte>, at: nat, value: u64)
    requires at + 8 <= buf.Length
    modifies buf
    ensures buf[at..at + 8] == Bytes(value, 8)
    ensures forall i :: 0 <= i < at || at + 8 <= i < buf.Length ==> buf[i] == old(buf[i])
  {
    var bytes := Bytes(value, 8);
    forall i | 0 <= i < 8 {
      buf[at + i] := bytes[i];
    }
  }

  /** `write_if`: the digit is always stored, and kept only if the condition holds. */
  method WriteIf(buf: array<byte>, at: nat, d: digit, condition: bool) returns (next: nat)
    requires at < buf.Length
    modifies buf
    ensures next == at + (if condition then 1 else 0) && buf[at] == ZERO + d
    ensures forall i :: 0 <= i < buf.Length && i != at ==> buf[i] == old(buf[i])
  {
    buf[at] := ZERO + d;
    next := at + (if condition then 1 else 0);
  }

  /** `ptr::copy`: the two ranges may overlap. */
  method Copy(buf: array<byte>, from: nat, to: nat, n: nat)
    requires from + n <= buf.Length && to + n <= buf.Length
    modifies buf
    ensures forall i :: to <= i < to + n ==> buf[i] == old(buf[i - to + from])
    ensures forall i :: 0 <= i < buf.Length && !(to <= i < to + n) ==> buf[i] == old(buf[i])
  {
    forall i | 0 <= i < n {
      buf[to + i] := buf[from + i];
    }
  }

  /** `ptr::write_bytes`. */
  method Fill(buf: array<byte>, at: nat, c: byte, n: nat)
    requires at + n <= buf.Length
    modifies buf
    ensures forall i :: at <= i < at + n ==> buf[i] == c
    ensures forall i :: 0 <= i < buf.Length && !(at <= i < at + n) ==> buf[i] == old(buf[i])
  {
    forall i | at <= i < at + n {
      buf[i] := c;
    }
  }

  // ---------------------------------------------------------------- significands

  /** Significands from here on have one digit more. */
  function Threshold(w: Width): nat {
    if w.Bits64? then 10_000_000_000_000_000 else 100_000_000
  }

  /** How many digits a significand is written with. */
  function DigitCount(w: Width, value: nat): nat {
    (if w.Bits64? then 16 else 8) + (if value >= Threshold(w) then 1 else 0)
  }

  function SignificantDigits(ds: seq<digit>): seq<digit> {
    ds[..TrimmedLength(ds)]
  }

  lemma Pow10Eight()
    ensures Pow(10, 1) == 10 && Pow(10, 8) == 100_000_000 && Pow(10, 9) == 1_000_000_000
    ensures Pow(10, 16) == 10_000_000_000_000_000 && Pow(10, 17) == 100_000_000_000_000_000
  {
    Pow10Four();
    PowAdd(10, 4, 4);
    PowAdd(10, 8, 8);
    assert Pow(10, 1) == 10 * Pow(10, 0);
  }

  lemma EightMoreDigits(high: nat, n: nat, low: nat)
    requires low < 100_000_000
    ensures Digits(high * 100_000_000 + low, n + 8) == Digits(high, n) + Digits(low, 8)
  {
    Pow10Eight();
    DigitsConcat(high, n, low, 8);
  }

  /** One digit in front of eight others. */
  lemma LeadingDigit(h: digit, low: nat)
    requires low < 100_000_000
    ensures Digits(h * 100_000_000 + low, 9) == [h] + Digits(low, 8)
  {
    hide Digits;
    SingleDigit(h);
    EightMoreDigits(h, 1, low);
  }

  lemma SingleDigit(d: digit)
    ensures Digits(d, 1) == [d]
  {
    assert Digits(d / 10, 0) == [];
  }

  /** Eight digits in one store; the result is how many of them remain without trailing zeros. */
  method WriteEight(buf: array<byte>, at: nat, x: nat) returns (count: nat)
    requires x < 100_000_000 && at + 8 <= buf.Length
    modifies buf
    ensures count == TrimmedLength(Digits(x, 8))
    ensures buf[at..at + 8] == Ascii(Digits(x, 8))
    ensures forall i :: 0 <= i < at || at + 8 <= i < buf.Length ==> buf[i] == old(buf[i])
  {
    hide ToBcd8, Digits, CountTrailingNonzeros, LittleEndian, Bytes, TrimmedLength;
    ToBcd8IsDigits(x);
    var bcd := ToBcd8(x);
    AddZeros(Digits(x, 8));
    CountIsTrimmedLength(Digits(x, 8));
    SumFits(Digits(x, 8));
    Write8(buf, at, bcd + ZEROS);
    count := CountTrailingNonzeros(bcd);
  }

  lemma SumFits(ds: seq<digit>)
    requires |ds| == 8
    ensures LittleEndian(ds) + ZEROS < B64
  {
    LittleEndianOfEight(ds);
  }

  lemma ZeroTrims(n: nat)
    ensures TrimmedLength(Digits(0, n)) == 0
  {
    ZeroDigits(n);
  }

  lemma {:induction false} ZeroDigits(n: nat)
    ensures forall i :: 0 <= i < n ==> Digits(0, n)[i] == 0
  {
    if n > 0 {
      ZeroDigits(n - 1);
    }
  }

  lemma NonzeroTrims(x: nat)
    requires 0 < x < 100_000_000
    ensures TrimmedLength(Digits(x, 8)) > 0
  {
    Pow10Eight();
    NumberOfDigits(x, 8);
    if TrimmedLength(Digits(x, 8)) == 0 {
      AllZero(Digits(x, 8));
      assert false;
    }
  }

  lemma {:induction false} AllZero(ds: seq<digit>)
    requires forall i :: 0 <= i < |ds| ==> ds[i] == 0
    ensures Number(ds) == 0
  {
    if ds != [] {
      AllZero(ds[..|ds| - 1]);
    }
  }

  /** The first digit or none, as `write_if` leaves it, and the rest. */
  function Optional(present: bool, d: digit): seq<digit> {
    if present then [d] else []
  }

  lemma FirstGroup(value: nat, extra: bool)
    requires extra <==> value >= 100_000_000
    requires value < 1_000_000_000
    ensures var first, second := Optional(extra, value / 100_000_000), Digits(value % 100_000_000, 8);
            var ds := Digits(value, if extra then 9 else 8);
            ds == first + second && TrimmedLength(ds) == |first| + TrimmedLength(second)
  {
    hide Digits, TrimmedLength;
    var h, low := value / 100_000_000, value % 100_000_000;
    OneDigitTrims(extra, h);
    TrimConcat(Optional(extra, h), Digits(low, 8));
    if extra {
      LeadingDigit(h, low);
    }
  }

  lemma OneDigitTrims(present: bool, d: digit)
    requires present ==> d > 0
    ensures TrimmedLength(Optional(present, d)) == |Optional(present, d)|
  {
  }

  lemma BothGroups(value: nat, extra: bool)
    requires extra <==> value >= 10_000_000_000_000_000
    requires value < 100_000_000_000_000_000
    ensures var high, low := value / 100_000_000, value % 100_000_000;
            var front := Digits(high, if extra then 9 else 8);
            var ds := Digits(value, if extra then 17 else 16);
            && ds == front + Digits(low, 8)
            && TrimmedLength(ds) == if low == 0 then TrimmedLength(front) else |front| + TrimmedLength(Digits(low, 8))
  {
    hide Digits, TrimmedLength;
    var high, low := value / 100_000_000, value % 100_000_000;
    var n := if extra then 9 else 8;
    EightMoreDigits(high, n, low);
    TrimConcat(Digits(high, n), Digits(low, 8));
    if low == 0 {
      ZeroTrims(8);
    } else {
      NonzeroTrims(low);
    }
  }

  lemma AsciiConcat(a: seq<digit>, b: seq<digit>)
    ensures Ascii(a + b) == Ascii(a) + Ascii(b)
  {
  }

  lemma JoinSlices(buf: array<byte>, a: nat, b: nat, c: nat)
    requires a <= b <= c <= buf.Length
    ensures buf[a..c] == buf[a..b] + buf[b..c]
  {
  }

  /** The first digit if there is one more than eight, and the next eight. */
  method WriteGroup(buf: array<byte>, at: nat, value: nat, extraDigit: bool) returns (next: nat, count: nat)
    requires value < 1_000_000_000 && (extraDigit <==> value >= 100_000_000)
    requires at + 9 <= buf.Length
    modifies buf
    ensures var ds := Digits(value, if extraDigit then 9 else 8);
            next + 8 == at + |ds| && next - at + count == TrimmedLength(ds) && buf[at..next + 8] == Ascii(ds)
    ensures forall i :: 0 <= i < at || at + 9 <= i < buf.Length ==> buf[i] == old(buf[i])
  {
    hide Digits, TrimmedLength;
    next := WriteIf(buf, at, value / 100_000_000, extraDigit);
    count := WriteEight(buf, next, value % 100_000_000);
    FirstGroup(value, extraDigit);
    AsciiConcat(Optional(extraDigit, value / 100_000_000), Digits(value % 100_000_000, 8));
    assert buf[at..next] == Ascii(Optional(extraDigit, value / 100_000_000));
    JoinSlices(buf, at, next, next + 8);
  }

  /** The scalar form for doubles: two groups, the second one only if it is not all zeros. */
  method WriteTwoGroups(buf: array<byte>, at: nat, value: nat, extraDigit: bool) returns (end: nat)
    requires value < 100_000_000_000_000_000 && (extraDigit <==> value >= 10_000_000_000_000_000)
    requires at + 17 <= buf.Length
    modifies buf
    ensures var ds := Digits(value, if extraDigit then 17 else 16);
            end == at + TrimmedLength(ds) && buf[at..end] == Ascii(SignificantDigits(ds))
    ensures forall i :: 0 <= i < at || at + 17 <= i < buf.Length ==> buf[i] == old(buf[i])
  {
    hide Digits, TrimmedLength, Ascii, SignificantDigits;
    var high, low := value / 100_000_000, value % 100_000_000;
    var next, count := WriteGroup(buf, at, high, extraDigit);
    ghost var front, back := Digits(high, if extraDigit then 9 else 8), Digits(low, 8);
    BothGroups(value, extraDigit);
    if low == 0 {
      end := next + count;
      TakeFront(buf, at, front, end);
      Untouched(front, back);
      return;
    }
    count := WriteEight(buf, next + 8, low);
    end := next + 8 + count;
    assert buf[at..next + 8] == Ascii(front);
    JoinGroups(buf, at, next + 8, front, back, end);
  }

  lemma JoinGroups(buf: array<byte>, at: nat, mid: nat, front: seq<digit>, back: seq<digit>, end: nat)
    requires at <= mid == at + |front| && mid + |back| <= buf.Length
    requires buf[at..mid] == Ascii(front) && buf[mid..mid + |back|] == Ascii(back)
    requires end == at + TrimmedLength(front + back)
    ensures buf[at..end] == Ascii(SignificantDigits(front + back))
  {
    hide TrimmedLength, Ascii, SignificantDigits;
    AsciiConcat(front, back);
    JoinSlices(buf, at, mid, mid + |back|);
    TakeFront(buf, at, front + back, end);
  }

  lemma Untouched(front: seq<digit>, back: seq<digit>)
    requires TrimmedLength(front + back) == TrimmedLength(front)
    ensures SignificantDigits(front + back) == SignificantDigits(front)
  {
    hide TrimmedLength;
  }

  /**
   Writes exactly the digits of the significand and returns the end of the last nonzero one.
   Nothing outside the 9 or 17 places of the longest significand is touched.
   */
  method WriteSignificand(w: Width, buf: array<byte>, at: nat, value: nat, extraDigit: bool) returns (end: nat)
    requires value < 10 * Threshold(w) && (extraDigit <==> value >= Threshold(w))
    requires at + 1 + DigitCount(w, 0) <= buf.Length
    modifies buf
    ensures var ds := Digits(value, DigitCount(w, value));
            end == at + TrimmedLength(ds) && buf[at..end] == Ascii(SignificantDigits(ds))
    ensures forall i :: 0 <= i < at || at + 1 + DigitCount(w, 0) <= i < buf.Length ==> buf[i] == old(buf[i])
  {
    hide Digits, TrimmedLength, Ascii, SignificantDigits;
    if w.Bits32? {
      var next, count := WriteGroup(buf, at, value, extraDigit);
      end := next + count;
      TakeFront(buf, at, Digits(value, DigitCount(w, value)), end);
    } else {
      end := WriteTwoGroups(buf, at, value, extraDigit);
    }
  }

  lemma TakeFront(buf: array<byte>, at: nat, ds: seq<digit>, end: nat)
    requires at + |ds| <= buf.Length && end == at + TrimmedLength(ds) && buf[at..at + |ds|] == Ascii(ds)
    ensures buf[at..end] == Ascii(SignificantDigits(ds))
  {
    hide TrimmedLength, Ascii, SignificantDigits;
    TakeOfSlice(buf, at, |ds|, TrimmedLength(ds));
    SignificantText(ds);
  }

  lemma SignificantText(ds: seq<digit>)
    ensures Ascii(SignificantDigits(ds)) == Ascii(ds)[..TrimmedLength(ds)]
  {
    hide TrimmedLength;
  }

  lemma TakeOfSlice(buf: array<byte>, at: nat, m: nat, n: nat)
    requires n <= m && at + m <= buf.Length
    ensures buf[at..at + n] == buf[at..at + m][..n]
  {
  }

  // ---------------------------------------------------------------- layouts in place

  /** The digits stand one place behind `start`, where `write_significand` left them. */
  predicate Staged(buf: array<byte>, start: nat, ds: seq<digit>)
    reads buf
  {
    |ds| > 0 && start + 1 + |ds| <= buf.Length
    && forall i :: start < i < start + 1 + |ds| ==> buf[i] == ZERO + ds[i - start - 1]
  }

  /** 1234e7 -> 12340000000.0 */
  method LayOutWhole(buf: array<byte>, start: nat, length: nat, decExp: nat, ghost ds: seq<digit>) returns (end: nat)
    requires Staged(buf, start, ds) && length == |ds| && length - 1 <= decExp && start + decExp + 3 <= buf.Length
    modifies buf
    ensures start <= end <= buf.Length && buf[start..end] == Ascii(ds + Zeros(decExp + 1 - |ds|)) + [DOT, ZERO]
    ensures forall i :: 0 <= i < start ==> buf[i] == old(buf[i])
  {
    Copy(buf, start + 1, start, length);
    Fill(buf, start + length, ZERO, decExp + 3 - length);
    buf[start + decExp + 1] := DOT;
    end := start + decExp + 3;
    WholeText(buf[start..end], ds, decExp);
  }

  lemma WholeText(t: seq<byte>, ds: seq<digit>, decExp: nat)
    requires 0 < |ds| <= decExp + 1 && |t| == decExp + 3
    requires forall i :: 0 <= i < |ds| ==> t[i] == ZERO + ds[i]
    requires forall i :: |ds| <= i < |t| && i != decExp + 1 ==> t[i] == ZERO
    requires t[decExp + 1] == DOT
    ensures t == Ascii(ds + Zeros(decExp + 1 - |ds|)) + [DOT, ZERO]
  {
  }

  /** 1234e-2 -> 12.34 */
  method LayOutPoint(buf: array<byte>, start: nat, length: nat, decExp: nat, ghost ds: seq<digit>) returns (end: nat)
    requires Staged(buf, start, ds) && length == |ds| && decExp < length - 1
    modifies buf
    ensures start <= end <= buf.Length && buf[start..end] == Ascii(ds[..decExp + 1]) + [DOT] + Ascii(ds[decExp + 1..])
    ensures forall i :: 0 <= i < start ==> buf[i] == old(buf[i])
  {
    Copy(buf, start + 1, start, decExp + 1);
    buf[start + decExp + 1] := DOT;
    end := start + length + 1;
    PointText(buf[start..end], ds, decExp);
  }

  lemma PointText(t: seq<byte>, ds: seq<digit>, decExp: nat)
    requires decExp < |ds| - 1 && |t| == |ds| + 1 && t[decExp + 1] == DOT
    requires forall i :: 0 <= i <= decExp ==> t[i] == ZERO + ds[i]
    requires forall i :: decExp + 1 < i < |t| ==> t[i] == ZERO + ds[i - 1]
    ensures t == Ascii(ds[..decExp + 1]) + [DOT] + Ascii(ds[decExp + 1..])
  {
  }

  /** 1234e-6 -> 0.001234 */
  method LayOutFraction(buf: array<byte>, start: nat, length: nat, decExp: int, ghost ds: seq<digit>) returns (end: nat)
    requires Staged(buf, start, ds) && length == |ds| && decExp < 0 && start + 1 - decExp + length <= buf.Length
    modifies buf
    ensures start <= end <= buf.Length && buf[start..end] == [ZERO, DOT] + Ascii(Zeros(-1 - decExp) + ds)
    ensures forall i :: 0 <= i < start ==> buf[i] == old(buf[i])
  {
    Copy(buf, start + 1, start + (1 - decExp), length);
    Fill(buf, start, ZERO, 1 - decExp);
    buf[start + 1] := DOT;
    end := start + (1 - decExp) + length;
    FractionText(buf[start..end], ds, decExp);
  }

  lemma FractionText(t: seq<byte>, ds: seq<digit>, decExp: int)
    requires decExp < 0 && |t| == |ds| + 1 - decExp && t[0] == ZERO && t[1] == DOT
    requires forall i :: 1 < i < 1 - decExp ==> t[i] == ZERO
    requires forall i :: 1 - decExp <= i < |t| ==> t[i] == ZERO + ds[i - (1 - decExp)]
    ensures t == [ZERO, DOT] + Ascii(Zeros(-1 - decExp) + ds)
  {
  }

  /** `digits2`: the entry of the static table. */
  function Digits2(v: nat): (t: seq<byte>)
    requires v < 100
  {
    Ascii([v / 10, v % 10])
  }

  /** `digit = dec_exp / 100`, by multiplication and shift. */
  function Hundreds(e: nat): nat {
    e * DIV100_SIG / 0x8_0000
  }

  /** The two digits, then over their place or beside it the letter and the sign. */
  method WriteTail(buf: array<byte>, at: nat, p: nat, v: nat, sign: byte)
    requires v < 100 && at < p && p + 2 <= buf.Length
    modifies buf
    ensures buf[at] == EXPONENT && buf[at + 1] == sign && buf[p + 1] == ZERO + v % 10
    ensures p > at + 1 ==> buf[p] == ZERO + v / 10
    ensures forall i :: 0 <= i < at || p + 1 < i < buf.Length ==> buf[i] == old(buf[i])
    ensures forall i :: at + 1 < i < p ==> buf[i] == old(buf[i])
  {
    buf[p], buf[p + 1] := Digits2(v)[0], Digits2(v)[1];
    buf[at], buf[at + 1] := EXPONENT, sign;
  }

  /**
   Writes the exponent. The two digits may overlap the letter and the sign, which are stored
   last; so a single digit loses its leading zero.
   */
  method WriteExponent(w: Width, buf: array<byte>, at: nat, decExp: int) returns (end: nat)
    requires if w.Bits64? then -1000 < decExp < 1000 else -100 < decExp < 100
    requires at + (if w.Bits64? then 5 else 4) <= buf.Length
    modifies buf
    ensures at <= end <= buf.Length && buf[at..end] == ExponentText(decExp)
    ensures forall i :: 0 <= i < at ==> buf[i] == old(buf[i])
  {
    hide NatDigits, ExponentText, Hundreds;
    var sign := if decExp >= 0 then PLUS else MINUS;
    var p := at + 1;
    var e := if decExp >= 0 then decExp else -decExp;
    p := p + (if e >= 10 then 1 else 0);
    if w.Bits32? {
      WriteTail(buf, at, p, e, sign);
      end := p + 2;
      ShortText(buf[at..end], decExp, e);
      return;
    }
    HundredsIs(e);
    var d := Hundreds(e);
    buf[p] := ZERO + d;
    if e < 100 {
      WriteTail(buf, at, p, e - d * 100, sign);
      end := p + 2;
      ShortText(buf[at..end], decExp, e);
    } else {
      p := p + 1;
      WriteTail(buf, at, p, e - d * 100, sign);
      end := p + 2;
      FiveAt(buf, at);
      LongText(buf[at..end], decExp, e);
    }
  }

  lemma FiveAt(buf: array<byte>, at: nat)
    requires at + 5 <= buf.Length
    ensures buf[at..at + 5] == [buf[at], buf[at + 1], buf[at + 2], buf[at + 3], buf[at + 4]]
  {
  }

  lemma ShortText(t: seq<byte>, decExp: int, e: nat)
    requires e == (if decExp >= 0 then decExp else -decExp) && e < 100
    requires |t| == (if e < 10 then 3 else 4) && t[0] == EXPONENT && t[1] == if decExp >= 0 then PLUS else MINUS
    requires t[|t| - 1] == ZERO + e % 10 && (e >= 10 ==> t[2] == ZERO + e / 10)
    ensures t == ExponentText(decExp)
  {
    ShortExponent(e);
  }

  lemma LongText(t: seq<byte>, decExp: int, e: nat)
    requires e == (if decExp >= 0 then decExp else -decExp) && 100 <= e < 1000
    requires |t| == 5 && t[0] == EXPONENT && t[1] == if decExp >= 0 then PLUS else MINUS
    requires var r := e - e / 100 * 100; t[2] == ZERO + e / 100 && t[3] == ZERO + r / 10 && t[4] == ZERO + r % 10
    ensures t == ExponentText(decExp)
  {
    LongExponent(e);
  }

  lemma HundredsIs(e: nat)
    requires e < 1000
    ensures Hundreds(e) == e / 100 < 10
  {
  }

  lemma ShortExponent(e: nat)
    requires e < 100
    ensures NatDigits(e) == if e < 10 then [e] else [e / 10, e % 10]
  {
    if e >= 10 {
      assert NatDigits(e / 10) == [e / 10];
    }
  }

  lemma LongExponent(e: nat)
    requires 100 <= e < 1000
    ensures NatDigits(e) == [e / 100, (e - e / 100 * 100) / 10, (e - e / 100 * 100) % 10]
  {
    ShortExponent(e / 10);
    assert (e - e / 100 * 100) / 10 == e / 10 % 10;
  }

  /** 1234e30 -> 1.234e33 */
  method LayOutScientific(w: Width, buf: array<byte>, start: nat, length: nat, decExp: int, ghost ds: seq<digit>)
      returns (end: nat)
    requires Staged(buf, start, ds) && length == |ds|
    requires if w.Bits64? then -1000 < decExp < 1000 else -100 < decExp < 100
    requires start + length + 1 + (if w.Bits64? then 5 else 4) <= buf.Length
    modifies buf
    ensures start <= end <= buf.Length
    ensures buf[start..end] == Ascii(ds[..1]) + (if |ds| > 1 then [DOT] + Ascii(ds[1..]) else []) + ExponentText(decExp)
    ensures forall i :: 0 <= i < start ==> buf[i] == old(buf[i])
  {
    hide ExponentText;
    buf[start] := buf[start + 1];
    buf[start + 1] := DOT;
    var at := start + length + (if length > 1 then 1 else 0);
    end := WriteExponent(w, buf, at, decExp);
    ScientificText(buf[start..at], ds);
    JoinSlices(buf, start, at, end);
  }

  lemma ScientificText(t: seq<byte>, ds: seq<digit>)
    requires |ds| > 0 && |t| == |ds| + (if |ds| > 1 then 1 else 0) && t[0] == ZERO + ds[0]
    requires |ds| > 1 ==> t[1] == DOT && forall i :: 2 <= i < |t| ==> t[i] == ZERO + ds[i - 1]
    ensures t == Ascii(ds[..1]) + (if |ds| > 1 then [DOT] + Ascii(ds[1..]) else [])
  {
  }
}
