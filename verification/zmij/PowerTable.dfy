/**
 `Pow10SignificandsTable` of `patches/zmij/src/lib.rs`: how an entry is computed from two
 smaller tables, and the two layouts in which 617 entries are stored and read back.
 */
module PowerTable {

  import opened Wrappers
  import opened Multiply
  import opened Powers

  const B127: nat := 0x8000_0000_0000_0000_0000_0000_0000_0000

  const NUM_POW10: nat := 617
  const DEC_EXP_MIN: int := -292

  /** The three tables an entry is computed from; only their shape and normalization matter. */
  datatype Sources = Sources(pow10s: seq<u64>, highParts: seq<Uint128>, fixups: seq<u32>) {
    predicate Normalized() {
      && |pow10s| == 28 && |highParts| == 23 && |fixups| == 20
      && (forall i :: 0 <= i < 28 ==> pow10s[i] >= B63)
      && (forall i :: 0 <= i < 23 ==> highParts[i].hi >= B63)
    }

    function Mantissa(i: nat): u64
      requires Normalized()
    {
      pow10s[(i + 11) % 28]
    }

    function High(i: nat): Uint128
      requires Normalized() && i < NUM_POW10
    {
      highParts[(i + 11) / 28]
    }

    /** Bit `i % 32` of word `i / 32`. */
    function Fixup(i: nat): nat
      requires Normalized() && i < NUM_POW10
    {
      fixups[i / 32] / Pow(2, i % 32) % 2
    }
  }

  datatype Limbs = Limbs(c2: u64, c1: u64, c0: u64) {
    function Value(): nat {
      c2 * B128 + c1 * B64 + c0
    }

    /** The leading 128 bits, shifted up by one when the top bit is clear. */
    function Top(): Uint128 {
      if c2 / B63 != 0 then Uint128(c2, c1)
      else Uint128(c2 * 2 + c1 / B63, (c1 * 2) % B64 + c0 / B63)
    }
  }

  /** The exact 192-bit product of a mantissa and a high part. */
  function Product(m: u64, h: Uint128): (r: Limbs)
    ensures r.Value() == h.Value() * m
  {
    var h1 := Umul128Hi64(h.lo, m);
    var c0 := Umul128(h.lo, m) % B64;
    var c1 := WrappingAdd64(h1, Umul128(h.hi, m) % B64);
    LimbsOfProduct(m, h);
    Limbs((if c1 < h1 then 1 else 0) + Umul128Hi64(h.hi, m), c1, c0)
  }

  lemma LimbsOfProduct(m: u64, h: Uint128)
    ensures var h1 := h.lo * m / B64;
            var c0 := h.lo * m % B64;
            var c1 := (h1 + h.hi * m % B64) % B64;
            var c2 := (if c1 < h1 then 1 else 0) + h.hi * m / B64;
            c2 < B64 && c2 * B128 + c1 * B64 + c0 == h.Value() * m
  {
    CarryFits(h.hi, h.lo, m);
    assert h.Value() * m == h.hi * m * B64 + h.lo * m;
  }

  lemma TopOfLimbs(l: Limbs)
    requires l.c2 >= B63 / 2
    ensures var z, r := l.Value(), l.Top().Value();
            && B127 <= r < B128
            && r == if z >= B127 * B64 then z / B64 else z / B63
  {
    var z := l.Value();
    if l.c2 / B63 != 0 {
      assert z == (l.c2 * B64 + l.c1) * B64 + l.c0;
    } else {
      var carry := l.c1 / B63;
      assert (l.c1 * 2) % B64 == l.c1 * 2 - carry * B64;
      var r := (l.c2 * B64 + l.c1) * 2 + l.c0 / B63;
      assert l.Top().Value() == r;
      assert z == r * B63 + l.c0 % B63;
    }
  }

  function TopBits(m: u64, h: Uint128): Uint128 {
    Product(m, h).Top()
  }

  /**
   The top bits are the leading 128 bits of the exact 192-bit product: the product divided by
   the one power of two that brings it into [2^127, 2^128), rounded down.
   */
  lemma TopBitsOfProduct(m: u64, h: Uint128)
    requires m >= B63 && h.hi >= B63
    ensures var z, r := h.Value() * m, TopBits(m, h).Value();
            && B127 <= r < B128
            && r == if z >= B127 * B64 then z / B64 else z / B63
  {
    var l := Product(m, h);
    MulBound(B63 * B64, B63, h.Value(), m);
    TopOfLimbs(l);
  }

  /** `compute`; `None` is the underflow that stops the table from compiling. */
  function Compute(t: Sources, i: nat): (r: Option<Uint128>)
    requires t.Normalized() && i < NUM_POW10
  {
    var top := TopBits(t.Mantissa(i), t.High(i));
    if top.lo < t.Fixup(i) then None else Some(Uint128(top.hi, top.lo - t.Fixup(i)))
  }

  lemma ComputeIsNormalizedProduct(t: Sources, i: nat)
    requires t.Normalized() && i < NUM_POW10 && Compute(t, i).Some?
    ensures var z, r := t.High(i).Value() * t.Mantissa(i), Compute(t, i).value.Value();
            && r + t.Fixup(i) == (if z >= B127 * B64 then z / B64 else z / B63)
            && B127 <= r + t.Fixup(i) < B128
  {
    TopBitsOfProduct(t.Mantissa(i), t.High(i));
  }

  predicate Compiles(t: Sources) {
    t.Normalized() && forall i :: 0 <= i < NUM_POW10 ==> Compute(t, i).Some?
  }

  /** Where the two words of an entry are stored. */
  function HiSlot(split: bool, i: nat): int {
    if split then NUM_POW10 - i - 1 else i * 2
  }

  function LoSlot(split: bool, i: nat): int {
    if split then NUM_POW10 * 2 - i - 1 else i * 2 + 1
  }

  ghost predicate Holds(t: Sources, data: array<u64>, split: bool, count: nat)
    requires Compiles(t) && count <= NUM_POW10
    reads data
  {
    && data.Length == NUM_POW10 * 2
    && forall i :: 0 <= i < count ==>
         Uint128(data[HiSlot(split, i)], data[LoSlot(split, i)]) == Compute(t, i).value
  }

  /** `Pow10SignificandsTable::new` for either layout. */
  method New(t: Sources, split: bool) returns (data: array<u64>)
    requires Compiles(t)
    ensures fresh(data) && Holds(t, data, split, NUM_POW10)
  {
    hide Compute;
    data := new u64[NUM_POW10 * 2](_ => 0);
    var i := 0;
    while i < NUM_POW10
      invariant 0 <= i <= NUM_POW10
      invariant Holds(t, data, split, i)
    {
      var result := Compute(t, i).value;
      if split {
        data[NUM_POW10 - i - 1] := result.hi;
        data[NUM_POW10 * 2 - i - 1] := result.lo;
      } else {
        data[i * 2] := result.hi;
        data[i * 2 + 1] := result.lo;
      }
      i := i + 1;
    }
  }

  /**
   `get_unchecked`: in the split layout both words are loaded at an offset of `-decExp` from a
   fixed base. Every load is in bounds and both layouts return the entry of `decExp + 292`.
   */
  method GetUnchecked(t: Sources, data: array<u64>, split: bool, decExp: int) returns (r: Uint128)
    requires Compiles(t) && Holds(t, data, split, NUM_POW10)
    requires DEC_EXP_MIN <= decExp < DEC_EXP_MIN + NUM_POW10
    ensures r == Compute(t, decExp - DEC_EXP_MIN).value
  {
    ghost var i := decExp - DEC_EXP_MIN;
    if !split {
      var index := (decExp - DEC_EXP_MIN) * 2;
      assert index == HiSlot(split, i);
      r := Uint128(data[index], data[index + 1]);
    } else {
      var hi := NUM_POW10 + DEC_EXP_MIN - 1;
      var lo := hi + NUM_POW10;
      assert hi - decExp == HiSlot(split, i);
      r := Uint128(data[hi - decExp], data[lo - decExp]);
    }
  }
}
