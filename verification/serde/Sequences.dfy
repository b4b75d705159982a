/**
 Sequences in serde (`patches/serde_core/src/de/impls.rs`, `patches/serde_core/src/de/value.rs`):
 vectors and arrays read afresh or over old contents, and the deserializer that counts the
 elements it has handed out. Elements are read by a pair of functions the visitors are given.
 */
module Sequences {

  import opened Wrappers

  /** `invalid_length` carries how many elements there are and how many were expected. */
  datatype Error = Element(message: string) | InvalidLength(length: nat, expected: nat)

  /**
   How an element is read: as a new value, or over an old one. Reading over an old value leaves
   some value behind even when it fails.
   */
  datatype Codec<!D, !T> = Codec(read: D -> Result<T, Error>, readOver: (T, D) -> (T, Option<Error>))

  /** Reading over any old value succeeds exactly when reading afresh does, with the same result. */
  ghost predicate Agrees<D(!new), T(!new)>(codec: Codec<D, T>) {
    forall old_: T, d: D ::
      codec.read(d) == var (new_, error) := codec.readOver(old_, d); if error.None? then Ok(new_) else Err(error.value)
  }

  // ---------------------------------------------------------------- what is read

  /** Values in front of a result. */
  function Prepend<T>(values: seq<T>, r: Result<seq<T>, Error>): Result<seq<T>, Error> {
    match r
    case Err(e) => Err(e)
    case Ok(rest) => Ok(values + rest)
  }

  lemma PrependNothing<T>(r: Result<seq<T>, Error>)
    ensures Prepend([], r) == r
  {
    assert r.Ok? ==> [] + r.value == r.value;
  }

  lemma PrependOneMore<T>(values: seq<T>, value: T, r: Result<seq<T>, Error>)
    ensures Prepend(values, Prepend([value], r)) == Prepend(values + [value], r)
  {
    assert r.Ok? ==> values + ([value] + r.value) == values + [value] + r.value;
  }

  lemma PrependToNothing<T>(values: seq<T>)
    ensures Prepend(values, Ok([])) == Ok(values)
  {
    assert values + [] == values;
  }

  /** All elements in order, or the first error. */
  function FreshAll<D, T>(read: D -> Result<T, Error>, data: seq<D>): Result<seq<T>, Error>
    decreases |data|
  {
    if data == [] then Ok([])
    else
      match read(data[0])
      case Err(e) => Err(e)
      case Ok(value) => Prepend([value], FreshAll(read, data[1..]))
  }

  /** The first element that cannot be read. */
  predicate IsFirstBad<D, T>(read: D -> Result<T, Error>, data: seq<D>, k: nat) {
    k < |data| && read(data[k]).Err? && forall i :: 0 <= i < k ==> read(data[i]).Ok?
  }

  /** What is read into a vector: every element in its place, or the error of the first that is bad. */
  lemma {:induction false} FreshAllMeaning<D, T>(read: D -> Result<T, Error>, data: seq<D>)
    ensures var r := FreshAll(read, data);
            && (r.Ok? <==> forall i :: 0 <= i < |data| ==> read(data[i]).Ok?)
            && (r.Ok? ==> |r.value| == |data| && forall i :: 0 <= i < |data| ==> read(data[i]) == Ok(r.value[i]))
            && (r.Err? ==> exists k: nat :: IsFirstBad(read, data, k) && read(data[k]) == Err(r.error))
    decreases |data|
  {
    if data != [] && read(data[0]).Ok? {
      FreshAllMeaning(read, data[1..]);
      var tail := FreshAll(read, data[1..]);
      assert forall i :: 1 <= i < |data| ==> data[i] == data[1..][i - 1];
      assert forall i :: 0 <= i < |data[1..]| ==> data[1..][i] == data[i + 1];
      if tail.Err? {
        var k: nat :| IsFirstBad(read, data[1..], k) && read(data[1..][k]) == Err(tail.error);
        forall i | 0 <= i < k + 1 ensures read(data[i]).Ok? {
          assert i > 0 ==> read(data[1..][i - 1]).Ok?;
        }
        assert data[k + 1] == data[1..][k];
        assert IsFirstBad(read, data, k + 1);
      }
    } else if data != [] {
      assert IsFirstBad(read, data, 0);
    }
  }

  /** Exactly the first `n` elements, from element `from` on; data that ends early is an error. */
  function FreshArray<D, T>(read: D -> Result<T, Error>, data: seq<D>, from: nat, n: nat): Result<seq<T>, Error>
    requires from <= n
    decreases n - from
  {
    if from == n then Ok([])
    else if data == [] then Err(InvalidLength(from, n))
    else
      match read(data[0])
      case Err(e) => Err(e)
      case Ok(value) => Prepend([value], FreshArray(read, data[1..], from + 1, n))
  }

  /** What reading over a vector leaves in it, from place `i` on, and the error if there is one. */
  function InPlaceFrom<D, T>(codec: Codec<D, T>, place: seq<T>, i: nat, data: seq<D>): (seq<T>, Option<Error>)
    requires i <= |place|
    decreases |data|
  {
    if data == [] then (place[..i], None)
    else if i < |place| then
      var (value, error) := codec.readOver(place[i], data[0]);
      if error.Some? then (place[i := value], error) else InPlaceFrom(codec, place[i := value], i + 1, data[1..])
    else
      match codec.read(data[0])
      case Err(e) => (place, Some(e))
      case Ok(value) => InPlaceFrom(codec, place + [value], i + 1, data[1..])
  }

  /** What element `k` of the data becomes: read over what is there, or read afresh behind the end. */
  function ReadAt<D, T>(codec: Codec<D, T>, place: seq<T>, i: nat, data: seq<D>, k: nat): Result<T, Error>
    requires k < |data|
  {
    if i + k < |place| then
      var (value, error) := codec.readOver(place[i + k], data[k]);
      if error.None? then Ok(value) else Err(error.value)
    else codec.read(data[k])
  }

  /** The values that were there before an element failed, and what the failed one left. */
  predicate LeftBehind<D, T(==)>(codec: Codec<D, T>, place: seq<T>, i: nat, data: seq<D>, k: nat, after: seq<T>)
    requires k < |data| && i <= |place|
  {
    && |after| == (if i + k < |place| then |place| else i + k) && after[..i] == place[..i]
    && (forall j :: 0 <= j < k ==> ReadAt(codec, place, i, data, j) == Ok(after[i + j]))
    && (i + k < |place| ==> after[i + k] == codec.readOver(place[i + k], data[k]).0)
    && (forall j :: i + k < j < |place| ==> after[j] == place[j])
  }

  lemma FirstFails<D, T>(codec: Codec<D, T>, place: seq<T>, i: nat, data: seq<D>)
    requires i <= |place| && data != [] && ReadAt(codec, place, i, data, 0).Err?
    ensures var (after, error) := InPlaceFrom(codec, place, i, data);
            error == Some(ReadAt(codec, place, i, data, 0).error) && LeftBehind(codec, place, i, data, 0, after)
  {
    if i < |place| {
      var (value, error) := codec.readOver(place[i], data[0]);
      assert InPlaceFrom(codec, place, i, data) == (place[i := value], error);
    } else {
      assert InPlaceFrom(codec, place, i, data) == (place, Some(codec.read(data[0]).error));
    }
  }

  /**
   What an in-place read leaves: on success the elements in order and nothing else; when element
   `k` is the first to fail, those before it, what it left itself, and the old values behind it.
   */
  lemma {:induction false} InPlaceMeaning<D, T>(codec: Codec<D, T>, place: seq<T>, i: nat, data: seq<D>)
    requires i <= |place|
    ensures var (after, error) := InPlaceFrom(codec, place, i, data);
            && (error.None? <==> forall k :: 0 <= k < |data| ==> ReadAt(codec, place, i, data, k).Ok?)
            && (error.None? ==>
                 && |after| == i + |data| && after[..i] == place[..i]
                 && forall k :: 0 <= k < |data| ==> ReadAt(codec, place, i, data, k) == Ok(after[i + k]))
            && (error.Some? ==>
                 exists k :: 0 <= k < |data| && ReadAt(codec, place, i, data, k) == Err(error.value)
                             && LeftBehind(codec, place, i, data, k, after))
    decreases |data|
  {
    if data != [] {
      var first := ReadAt(codec, place, i, data, 0);
      if first.Err? {
        FirstFails(codec, place, i, data);
      } else {
        var next := if i < |place| then place[i := first.value] else place + [first.value];
        InPlaceMeaning(codec, next, i + 1, data[1..]);
        NextElements(codec, place, i, data, first.value, next);
        var (after, error) := InPlaceFrom(codec, next, i + 1, data[1..]);
        assert InPlaceFrom(codec, place, i, data) == (after, error);
        hide ReadAt, LeftBehind, InPlaceFrom;
        if error.Some? {
          var k :| 0 <= k < |data[1..]| && ReadAt(codec, next, i + 1, data[1..], k) == Err(error.value)
                   && LeftBehind(codec, next, i + 1, data[1..], k, after);
          assert ReadAt(codec, place, i, data, k + 1) == Err(error.value);
          LeftOneMoreBehind(codec, place, i, data, first.value, next, k, after);
        } else {
          OneMoreRead(codec, place, i, data, first.value, next, i + 1, data[1..], after, |data|);
        }
      }
    }
  }

  /** The place behind the first element. */
  predicate IsNext<T(==)>(place: seq<T>, i: nat, value: T, next: seq<T>) {
    i <= |place| && next == if i < |place| then place[i := value] else place + [value]
  }

  lemma NextElements<D, T>(codec: Codec<D, T>, place: seq<T>, i: nat, data: seq<D>, value: T, next: seq<T>)
    requires data != [] && IsNext(place, i, value, next)
    ensures forall k :: 1 <= k < |data| ==>
      ReadAt(codec, place, i, data, k) == ReadAt(codec, next, i + 1, data[1..], k - 1)
  {
    forall k | 1 <= k < |data|
      ensures ReadAt(codec, place, i, data, k) == ReadAt(codec, next, i + 1, data[1..], k - 1)
    {
    }
  }

  /** `m` elements are read if the first is and as many but one behind it are. */
  lemma OneMoreRead<D, T>(codec: Codec<D, T>, place: seq<T>, i: nat, data: seq<D>, value: T, next: seq<T>, n: nat,
                          rest: seq<D>, after: seq<T>, m: nat)
    requires data != [] && IsNext(place, i, value, next) && ReadAt(codec, place, i, data, 0) == Ok(value)
    requires n == i + 1 && rest == data[1..] && 1 <= m <= |data| && i + m <= |after|
    requires after[..i + 1] == next[..i + 1]
    requires forall k :: 0 <= k < m - 1 ==> ReadAt(codec, next, n, rest, k) == Ok(after[n + k])
    ensures after[..i] == place[..i]
    ensures forall k :: 0 <= k < m ==> ReadAt(codec, place, i, data, k) == Ok(after[i + k])
  {
    NextElements(codec, place, i, data, value, next);
    hide ReadAt;
    assert after[i] == after[..i + 1][i] && after[..i] == after[..i + 1][..i];
    forall k | 0 <= k < m ensures ReadAt(codec, place, i, data, k) == Ok(after[i + k]) {
      if k > 0 {
        assert ReadAt(codec, next, n, rest, k - 1) == Ok(after[n + (k - 1)]);
      }
    }
  }

  lemma LeftOneMoreBehind<D, T>(codec: Codec<D, T>, place: seq<T>, i: nat, data: seq<D>, value: T, next: seq<T>,
                                k: nat, after: seq<T>)
    requires data != [] && IsNext(place, i, value, next) && ReadAt(codec, place, i, data, 0) == Ok(value)
    requires k + 1 < |data| && LeftBehind(codec, next, i + 1, data[1..], k, after)
    ensures LeftBehind(codec, place, i, data, k + 1, after)
  {
    NextElements(codec, place, i, data, value, next);
    hide ReadAt;
    assert after[i] == after[..i + 1][i] && after[..i] == after[..i + 1][..i];
    forall j | 0 <= j < k + 1 ensures ReadAt(codec, place, i, data, j) == Ok(after[i + j]) {
      if j > 0 {
        assert ReadAt(codec, next, i + 1, data[1..], j - 1) == Ok(after[i + 1 + (j - 1)]);
      }
    }
  }

  /** What reading over an array leaves in its slots, from slot `i` on, and the error if there is one. */
  function InPlaceArrayFrom<D, T>(codec: Codec<D, T>, place: seq<T>, i: nat, data: seq<D>): (seq<T>, Option<Error>)
    requires i <= |place|
    decreases |place| - i
  {
    if i == |place| then (place, None)
    else if data == [] then (place, Some(InvalidLength(i, |place|)))
    else
      var (value, error) := codec.readOver(place[i], data[0]);
      if error.Some? then (place[i := value], error) else InPlaceArrayFrom(codec, place[i := value], i + 1, data[1..])
  }

  /** The first `m` elements are in their slots, and the slots behind are as they were. */
  predicate ReadInto<D, T(==)>(codec: Codec<D, T>, place: seq<T>, i: nat, data: seq<D>, m: nat, after: seq<T>)
    requires i <= |place| && m <= |data|
  {
    && i + m <= |after| == |place| && after[..i] == place[..i]
    && (forall k :: 0 <= k < m ==> ReadAt(codec, place, i, data, k) == Ok(after[i + k]))
    && (forall j :: i + m <= j < |place| ==> after[j] == place[j])
  }

  /**
   What reading over an array leaves: all slots read; or, when element `k` is the first to fail,
   those before it, what it left itself, and the old values behind it; or, when the data ends
   early, the slots that were reached, and an error with their number.
   */
  lemma {:induction false} InPlaceArrayMeaning<D, T>(codec: Codec<D, T>, place: seq<T>, i: nat, data: seq<D>)
    requires i <= |place|
    ensures var (after, error) := InPlaceArrayFrom(codec, place, i, data);
            && (error.None? ==> |place| - i <= |data| && ReadInto(codec, place, i, data, |place| - i, after))
            && (error.Some? ==>
                 || (|data| < |place| - i && error == Some(InvalidLength(i + |data|, |place|))
                     && ReadInto(codec, place, i, data, |data|, after))
                 || exists k :: 0 <= k < |data| && i + k < |place|
                                && ReadAt(codec, place, i, data, k) == Err(error.value)
                                && LeftBehind(codec, place, i, data, k, after))
    decreases |place| - i
  {
    if i < |place| && data != [] {
      var first := ReadAt(codec, place, i, data, 0);
      if first.Err? {
        FirstSlotFails(codec, place, i, data);
      } else {
        var next, n, rest := place[i := first.value], i + 1, data[1..];
        InPlaceArrayMeaning(codec, next, n, rest);
        NextElements(codec, place, i, data, first.value, next);
        var (after, error) := InPlaceArrayFrom(codec, next, n, rest);
        assert InPlaceArrayFrom(codec, place, i, data) == (after, error);
        hide ReadAt, LeftBehind, InPlaceArrayFrom, ReadInto;
        if error.None? {
          OneMoreSlot(codec, place, i, data, first.value, next, n, rest, after, |place| - i);
        } else if |rest| < |next| - n && ReadInto(codec, next, n, rest, |rest|, after)
                  && error == Some(InvalidLength(n + |rest|, |next|)) {
          OneMoreSlot(codec, place, i, data, first.value, next, n, rest, after, |data|);
        } else {
          var k :| 0 <= k < |rest| && n + k < |next| && ReadAt(codec, next, n, rest, k) == Err(error.value)
                   && LeftBehind(codec, next, n, rest, k, after);
          assert ReadAt(codec, place, i, data, k + 1) == Err(error.value);
          LeftOneMoreBehind(codec, place, i, data, first.value, next, k, after);
        }
      }
    }
  }

  lemma FirstSlotFails<D, T>(codec: Codec<D, T>, place: seq<T>, i: nat, data: seq<D>)
    requires i < |place| && data != [] && ReadAt(codec, place, i, data, 0).Err?
    ensures var (after, error) := InPlaceArrayFrom(codec, place, i, data);
            error == Some(ReadAt(codec, place, i, data, 0).error) && LeftBehind(codec, place, i, data, 0, after)
  {
    var (value, error) := codec.readOver(place[i], data[0]);
    assert InPlaceArrayFrom(codec, place, i, data) == (place[i := value], error);
  }

  lemma OneMoreSlot<D, T>(codec: Codec<D, T>, place: seq<T>, i: nat, data: seq<D>, value: T, next: seq<T>, n: nat,
                          rest: seq<D>, after: seq<T>, m: nat)
    requires data != [] && i < |place| && IsNext(place, i, value, next)
    requires ReadAt(codec, place, i, data, 0) == Ok(value) && n == i + 1 && rest == data[1..] && 1 <= m <= |data|
    requires ReadInto(codec, next, n, rest, m - 1, after)
    ensures ReadInto(codec, place, i, data, m, after)
  {
    OneMoreRead(codec, place, i, data, value, next, n, rest, after, m);
    hide ReadAt;
  }

  /** Slots that were not reached keep what they held, whether reading stopped there or not. */
  lemma {:induction false} UnreachedSlots<D, T>(codec: Codec<D, T>, place: seq<T>, i: nat, data: seq<D>)
    requires i <= |place|
    ensures var (after, _) := InPlaceArrayFrom(codec, place, i, data);
            && |after| == |place| && after[..i] == place[..i]
            && forall j :: i + |data| <= j < |place| ==> after[j] == place[j]
    decreases |place| - i
  {
    if i < |place| && data != [] {
      var (value, error) := codec.readOver(place[i], data[0]);
      if error.None? {
        UnreachedSlots(codec, place[i := value], i + 1, data[1..]);
        var (after, _) := InPlaceArrayFrom(codec, place[i := value], i + 1, data[1..]);
        assert after[..i] == after[..i + 1][..i] == place[i := value][..i + 1][..i] == place[..i];
      }
    }
  }

  /** Where reading over agrees with reading afresh, so does reading over an array. */
  lemma {:induction false} InPlaceArrayIsFresh<D(!new), T(!new)>(codec: Codec<D, T>, place: seq<T>, i: nat,
      data: seq<D>)
    requires Agrees(codec) && i <= |place|
    ensures var (after, error) := InPlaceArrayFrom(codec, place, i, data);
            match FreshArray(codec.read, data, i, |place|)
            case Ok(values) => error.None? && after == place[..i] + values
            case Err(e) => error == Some(e)
    decreases |place| - i
  {
    if i == |place| {
      assert place[..i] + [] == place;
    } else if data != [] {
      var (value, error) := codec.readOver(place[i], data[0]);
      assert codec.read(data[0]) == if error.None? then Ok(value) else Err(error.value);
      if error.None? {
        InPlaceArrayIsFresh(codec, place[i := value], i + 1, data[1..]);
        assert place[i := value][..i + 1] == place[..i] + [value];
        var rest := FreshArray(codec.read, data[1..], i + 1, |place|);
        assert rest.Ok? ==> place[..i] + [value] + rest.value == place[..i] + ([value] + rest.value);
      }
    }
  }

  /** Whatever was in the vector, a successful read leaves what a fresh read returns; errors are the same. */
  lemma {:induction false} InPlaceIsFresh<D(!new), T(!new)>(codec: Codec<D, T>, place: seq<T>, i: nat, data: seq<D>)
    requires Agrees(codec) && i <= |place|
    ensures var (after, error) := InPlaceFrom(codec, place, i, data);
            match FreshAll(codec.read, data)
            case Ok(values) => error.None? && after == place[..i] + values
            case Err(e) => error == Some(e)
    decreases |data|
  {
    if data != [] {
      if i < |place| {
        var (value, error) := codec.readOver(place[i], data[0]);
        assert codec.read(data[0]) == if error.None? then Ok(value) else Err(error.value);
        if error.None? {
          InPlaceIsFresh(codec, place[i := value], i + 1, data[1..]);
          assert place[i := value][..i + 1] == place[..i] + [value];
        }
      } else {
        match codec.read(data[0])
        case Err(_) =>
        case Ok(value) =>
          InPlaceIsFresh(codec, place + [value], i + 1, data[1..]);
          assert (place + [value])[..i + 1] == place[..i] + [value];
      }
    }
  }

  /** The default `deserialize_in_place`: read afresh, and assign if that succeeds. */
  function Assigning<D, T>(read: D -> Result<T, Error>): Codec<D, T> {
    Codec(read, (old_: T, d: D) =>
      match read(d)
      case Ok(value) => (value, None)
      case Err(e) => (old_, Some(e)))
  }

  /** An element that does not say how to be read over agrees; with `NestingAgrees`, so do vectors of it. */
  lemma DefaultAgrees<D(!new), T(!new)>(read: D -> Result<T, Error>)
    ensures Agrees(Assigning(read))
  {
    forall old_: T, d: D
      ensures read(d) == var (new_, error) := Assigning(read).readOver(old_, d);
                         if error.None? then Ok(new_) else Err(error.value) {
    }
  }

  /** Over a vector of such elements an in-place read never shows in the result. */
  lemma VecOfDefaultsIsFresh<D(!new), T(!new)>(read: D -> Result<T, Error>, place: seq<T>, data: seq<D>)
    ensures var (after, error) := InPlaceFrom(Assigning(read), place, 0, data);
            FreshAll(read, data) == if error.None? then Ok(after) else Err(error.value)
  {
    DefaultAgrees(read);
    NestingAgrees(Assigning(read));
    assert VecCodec(Assigning(read)).read(data) == FreshAll(read, data);
    assert VecCodec(Assigning(read)).readOver(place, data) == InPlaceFrom(Assigning(read), place, 0, data);
  }

  /** The element functions of a vector of elements: agreement carries over to nested vectors. */
  function VecCodec<D, T>(codec: Codec<D, T>): Codec<seq<D>, seq<T>> {
    Codec((data: seq<D>) => FreshAll(codec.read, data),
        (place: seq<T>, data: seq<D>) => InPlaceFrom(codec, place, 0, data))
  }

  lemma NestingAgrees<D(!new), T(!new)>(codec: Codec<D, T>)
    requires Agrees(codec)
    ensures Agrees(VecCodec(codec))
  {
    forall place: seq<T>, data: seq<D>
      ensures FreshAll(codec.read, data)
           == var (after, error) := InPlaceFrom(codec, place, 0, data);
           if error.None? then Ok(after) else Err(error.value)
    {
      InPlaceIsFresh(codec, place, 0, data);
      assert FreshAll(codec.read, data).Ok?
          ==> place[..0] + FreshAll(codec.read, data).value == FreshAll(codec.read, data).value;
    }
  }

  // ---------------------------------------------------------------- the deserializer

  class SeqDeserializer<D> {
    var iter: seq<D>
    var count: nat
    /** The elements it was made of. */
    ghost const data: seq<D>

    /** What is left is what has not been counted. */
    ghost predicate Valid()
      reads this
    {
      count <= |data| && iter == data[count..]
    }

    constructor (data: seq<D>)
      ensures Valid() && this.data == data && iter == data && count == 0
    {
      iter, count := data, 0;
      this.data := data;
    }

    /** The elements of the data come out one by one, in order, and then nothing. */
    method Next() returns (d: Option<D>)
      requires Valid()
      modifies this
      ensures Valid() && count == if old(count) < |data| then old(count) + 1 else |data|
      ensures d == if old(count) < |data| then Some(data[old(count)]) else None
    {
      if iter == [] {
        return None;
      }
      d := Some(iter[0]);
      iter, count := iter[1..], count + 1;
    }

    /** `next_element`. */
    method NextElement<T>(read: D -> Result<T, Error>) returns (r: Result<Option<T>, Error>)
      requires Valid()
      modifies this
      ensures Valid()
      ensures old(iter) == [] ==> r == Ok(None) && iter == []
      ensures old(iter) != [] ==> iter == old(iter[1..])
      ensures old(iter) != [] ==> r == match read(old(iter[0])) case Ok(value) => Ok(Some(value)) case Err(e) => Err(e)
    {
      var d := Next();
      if d.None? {
        return Ok(None);
      }
      match read(d.value)
      case Ok(value) => r := Ok(Some(value));
      case Err(e) => r := Err(e);
    }

    /** `end`: data that nobody asked for is an error that reports how many elements it has in all. */
    method End() returns (error: Option<Error>)
      requires Valid()
      ensures error.None? <==> iter == []
      ensures error.Some? ==> error == Some(InvalidLength(|data|, count)) && count < |data|
    {
      var remaining := |iter|;
      error := if remaining == 0 then None else Some(InvalidLength(count + remaining, count));
    }
  }

  // ---------------------------------------------------------------- visitors

  /** The vector that is read into. */
  class Vec<T> {
    var values: seq<T>

    constructor (values: seq<T>)
      ensures this.values == values
    {
      this.values := values;
    }
  }

  /** `VecVisitor::visit_seq`. */
  method VisitVec<D, T>(access: SeqDeserializer<D>, read: D -> Result<T, Error>) returns (r: Result<seq<T>, Error>)
    requires access.Valid()
    modifies access
    ensures r == FreshAll(read, old(access.iter))
    ensures r.Ok? ==> access.iter == []
    ensures access.Valid()
  {
    var values: seq<T> := [];
    PrependNothing(FreshAll(read, access.iter));
    while true
      invariant access.Valid()
      invariant FreshAll(read, old(access.iter)) == Prepend(values, FreshAll(read, access.iter))
      decreases |access.iter|
    {
      var next := access.NextElement(read);
      if next.Err? {
        return Err(next.error);
      }
      if next.value.None? {
        PrependToNothing(values);
        return Ok(values);
      }
      PrependOneMore(values, next.value.value, FreshAll(read, access.iter));
      values := values + [next.value.value];
    }
  }

  /** `VecInPlaceVisitor::visit_seq`: overwrite, then truncate or push. */
  method VisitVecInPlace<D, T>(access: SeqDeserializer<D>, codec: Codec<D, T>, place: Vec<T>)
      returns (error: Option<Error>)
    requires access.Valid()
    modifies access, place
    ensures (place.values, error) == InPlaceFrom(codec, old(place.values), 0, old(access.iter))
    ensures error.None? ==> access.iter == []
    ensures access.Valid()
  {
    var n, i := |place.values|, 0;
    while i < n
      invariant i <= n == |place.values|
      invariant access.Valid()
      invariant InPlaceFrom(codec, old(place.values), 0, old(access.iter))
                == InPlaceFrom(codec, place.values, i, access.iter)
    {
      var d := access.Next();
      if d.None? {
        place.values := place.values[..i];
        return None;
      }
      var (value, failed) := codec.readOver(place.values[i], d.value);
      place.values := place.values[i := value];
      if failed.Some? {
        return failed;
      }
      i := i + 1;
    }
    while true
      invariant access.Valid()
      invariant InPlaceFrom(codec, old(place.values), 0, old(access.iter))
             == InPlaceFrom(codec, place.values, |place.values|, access.iter)
      decreases |access.iter|
    {
      var next := access.NextElement(codec.read);
      if next.Err? {
        return Some(next.error);
      }
      if next.value.None? {
        assert place.values[..|place.values|] == place.values;
        return None;
      }
      place.values := place.values + [next.value.value];
    }
  }

  /** `ArrayVisitor::visit_seq`: one match per element, so data that ends early is an error. */
  method VisitArray<D, T>(access: SeqDeserializer<D>, read: D -> Result<T, Error>, n: nat)
      returns (r: Result<seq<T>, Error>)
    requires access.Valid()
    modifies access
    ensures r == FreshArray(read, old(access.iter), 0, n)
    ensures r.Ok? ==> |r.value| == n <= old(|access.iter|) && access.iter == old(access.iter[n..])
    ensures access.Valid()
  {
    var values: seq<T> := [];
    PrependNothing(FreshArray(read, access.iter, 0, n));
    while |values| < n
      invariant |values| <= n && |values| <= old(|access.iter|) && access.iter == old(access.iter)[|values|..]
      invariant access.Valid()
      invariant FreshArray(read, old(access.iter), 0, n)
             == Prepend(values, FreshArray(read, access.iter, |values|, n))
    {
      var next := access.NextElement(read);
      if next.Err? {
        return Err(next.error);
      }
      if next.value.None? {
        return Err(InvalidLength(|values|, n));
      }
      PrependOneMore(values, next.value.value, FreshArray(read, access.iter, |values| + 1, n));
      values := values + [next.value.value];
    }
    PrependToNothing(values);
    r := Ok(values);
  }

  /** `ArrayInPlaceVisitor::visit_seq`, over the slots of a buffer, also when it stops half way. */
  method VisitArrayInPlace<D, T>(access: SeqDeserializer<D>, codec: Codec<D, T>, place: array<T>)
    returns (error: Option<Error>)
    requires access.Valid()
    modifies access, place
    ensures (place[..], error) == InPlaceArrayFrom(codec, old(place[..]), 0, old(access.iter))
    ensures error.None? ==> place.Length <= old(|access.iter|) && access.iter == old(access.iter[place.Length..])
    ensures access.Valid()
  {
    var idx := 0;
    while idx < place.Length
      invariant idx <= place.Length && idx <= old(|access.iter|) && access.iter == old(access.iter)[idx..]
      invariant access.Valid()
      invariant InPlaceArrayFrom(codec, old(place[..]), 0, old(access.iter))
             == InPlaceArrayFrom(codec, place[..], idx, access.iter)
    {
      ghost var before, left := place[..], access.iter;
      var d := access.Next();
      if d.None? {
        return Some(InvalidLength(idx, place.Length));
      }
      assert left != [] && d.value == left[0] && access.iter == left[1..];
      var (value, failed) := codec.readOver(place[idx], d.value);
      place[idx] := value;
      assert place[..] == before[idx := value];
      if failed.Some? {
        return failed;
      }
      idx := idx + 1;
    }
    error := None;
  }

  // ---------------------------------------------------------------- deserialize_any

  /** What is read into an array: its elements in order, or where the data ended. */
  lemma {:induction false} FreshArrayMeaning<D, T>(read: D -> Result<T, Error>, data: seq<D>, from: nat, n: nat)
    requires from <= n
    ensures var r := FreshArray(read, data, from, n);
            && (r.Ok? <==> n - from <= |data| && forall i :: 0 <= i < n - from ==> read(data[i]).Ok?)
            && (r.Ok? ==> |r.value| == n - from && forall i :: 0 <= i < n - from ==> read(data[i]) == Ok(r.value[i]))
            && (|data| < n - from && (forall i :: 0 <= i < |data| ==> read(data[i]).Ok?)
               ==> r == Err(InvalidLength(from + |data|, n)))
    decreases n - from
  {
    if from < n && data != [] && read(data[0]).Ok? {
      FreshArrayMeaning(read, data[1..], from + 1, n);
      var tail := FreshArray(read, data[1..], from + 1, n);
      assert forall i :: 1 <= i < |data| ==> data[i] == data[1..][i - 1];
      assert forall i :: 0 <= i < |data[1..]| ==> data[1..][i] == data[i + 1];
    }
  }

  /**
   A fixed-length target read from a sequence: it succeeds exactly when there are exactly as many
   elements as it has places and all of them can be read; a wrong number of good elements is
   reported as the number there is, whether it is too small or too large.
   */
  method DeserializeArray<D, T>(data: seq<D>, read: D -> Result<T, Error>, n: nat) returns (r: Result<seq<T>, Error>)
    ensures r.Ok? <==> |data| == n && forall i :: 0 <= i < |data| ==> read(data[i]).Ok?
    ensures r.Ok? ==> |r.value| == n && forall i :: 0 <= i < n ==> read(data[i]) == Ok(r.value[i])
    ensures |data| != n && (forall i :: 0 <= i < |data| ==> read(data[i]).Ok?) ==> r == Err(InvalidLength(|data|, n))
  {
    var access := new SeqDeserializer(data);
    FreshArrayMeaning(read, data, 0, n);
    r := VisitArray(access, read, n);
    if r.Ok? {
      var error := access.End();
      if error.Some? {
        r := Err(error.value);
      }
    }
  }

  /**
   The same over the slots of an existing array: what is left in them is what the visitor leaves,
   and data that is too long is an error with the number there is. Where reading over agrees with
   reading afresh, it succeeds exactly when a fresh read does and holds the same then.
   */
  method DeserializeArrayInPlace<D(!new), T(!new)>(data: seq<D>, codec: Codec<D, T>, place: array<T>)
    returns (error: Option<Error>)
    modifies place
    ensures var (after, failed) := InPlaceArrayFrom(codec, old(place[..]), 0, data);
            && place[..] == after
            && error == if failed.None? && |data| > place.Length then Some(InvalidLength(|data|, place.Length))
               else failed
    ensures Agrees(codec) ==>
      (error.None? <==> |data| == place.Length && forall i :: 0 <= i < |data| ==> codec.read(data[i]).Ok?)
    ensures Agrees(codec) && error.None? ==>
      |data| == place.Length && forall i :: 0 <= i < place.Length ==> codec.read(data[i]) == Ok(place[i])
    ensures Agrees(codec) && |data| != place.Length && (forall i :: 0 <= i < |data| ==> codec.read(data[i]).Ok?) ==>
      error == Some(InvalidLength(|data|, place.Length))
  {
    var access := new SeqDeserializer(data);
    ghost var before := place[..];
    error := VisitArrayInPlace(access, codec, place);
    if error.None? {
      error := access.End();
    }
    if Agrees(codec) {
      AgreeingArray(codec, before, data);
      assert place[..] == InPlaceArrayFrom(codec, before, 0, data).0;
    }
  }

  lemma AgreeingArray<D(!new), T(!new)>(codec: Codec<D, T>, place: seq<T>, data: seq<D>)
    requires Agrees(codec)
    ensures var (after, error) := InPlaceArrayFrom(codec, place, 0, data); var n := |place|;
            && (error.None? <==> n <= |data| && forall i :: 0 <= i < n ==> codec.read(data[i]).Ok?)
            && (error.None? ==> |after| == n && forall i :: 0 <= i < n ==> codec.read(data[i]) == Ok(after[i]))
            && (|data| < n && (forall i :: 0 <= i < |data| ==> codec.read(data[i]).Ok?) ==>
                 error == Some(InvalidLength(|data|, n)))
  {
    InPlaceArrayIsFresh(codec, place, 0, data);
    FreshArrayMeaning(codec.read, data, 0, |place|);
    var r := FreshArray(codec.read, data, 0, |place|);
    assert r.Ok? ==> place[..0] + r.value == r.value;
  }

  /** A vector takes every element, so the final count never fails; old contents do not matter. */
  method DeserializeVecInPlace<D(!new), T(!new)>(data: seq<D>, codec: Codec<D, T>, place: Vec<T>)
      returns (error: Option<Error>)
    requires Agrees(codec)
    modifies place
    ensures match FreshAll(codec.read, data)
            case Ok(values) => error.None? && place.values == values
            case Err(e) => error == Some(e)
  {
    var access := new SeqDeserializer(data);
    InPlaceIsFresh(codec, place.values, 0, data);
    ghost var before := place.values;
    assert before[..0] == [];
    PrependNothing(FreshAll(codec.read, data));
    error := VisitVecInPlace(access, codec, place);
    if error.None? {
      error := access.End();
    }
  }
}
