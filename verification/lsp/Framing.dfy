/**
 The Content-Length framing codec of `crates/lsp-client/src/lib.rs`: the header grammar,
 one decoding step, and `FrameDecoder` itself, whose methods are proved against the step.

 Bytes are characters below 256; JSON is a pair of functions given by the caller.
 */
module Framing {

  import opened Wrappers

  type byte = c: char | c as int < 256 witness 'a'
  type bytes = seq<byte>

  const MAX_HEADER_LINE: nat := 4096
  const MAX_HEADERS_TOTAL: nat := 16384
  const MAX_BODY_BYTES: nat := 67108864
  const I64_MAX: int := 0x7fff_ffff_ffff_ffff

  const CRLF: bytes := "\r\n"

  datatype DecodeEvent<+V> = Frame(msg: V) | MalformedFrame

  datatype DecodeError = HeaderLineTooLong | HeadersTooLarge | InvalidContentLength | BodyTooLarge

  datatype DecodeState =
    | Headers(headerBytes: nat, contentLength: Option<nat>)
    | Body(length: nat)
    | Poisoned(err: DecodeError)

  const START := Headers(0, None)

  /** What every reachable decoder state satisfies. */
  predicate ValidState(s: DecodeState) {
    match s
    case Headers(headerBytes, _) => headerBytes <= MAX_HEADERS_TOTAL
    case Body(length) => 1 <= length <= MAX_BODY_BYTES
    case Poisoned(_) => true
  }

  // ---------------------------------------------------------------- the header grammar

  predicate CrlfAt(buf: bytes, i: nat) {
    i + 1 < |buf| && buf[i] == '\r' && buf[i + 1] == '\n'
  }

  /** The position of the first `\r\n`. */
  function FindCrlf(buf: bytes): (r: Option<nat>)
    ensures r.Some? ==> CrlfAt(buf, r.value) && forall i: nat :: i < r.value ==> !CrlfAt(buf, i)
    ensures r.None? ==> forall i: nat :: !CrlfAt(buf, i)
  {
    FindCrlfFrom(buf, 0)
  }

  function FindCrlfFrom(buf: bytes, from: nat): (r: Option<nat>)
    requires from <= |buf|
    ensures r.Some?
            ==> from <= r.value && CrlfAt(buf, r.value) && forall i: nat :: from <= i < r.value ==> !CrlfAt(buf, i)
    ensures r.None? ==> forall i: nat :: from <= i ==> !CrlfAt(buf, i)
    decreases |buf| - from
  {
    if from == |buf| then None
    else if CrlfAt(buf, from) then Some(from)
    else FindCrlfFrom(buf, from + 1)
  }

  predicate IsSpace(b: byte) {
    b == ' ' || 9 <= b as int <= 13
  }

  function TrimStart(s: bytes): (r: bytes) {
    if s != [] && IsSpace(s[0]) then TrimStart(s[1..]) else s
  }

  function TrimEnd(s: bytes): (r: bytes) {
    if s != [] && IsSpace(s[|s| - 1]) then TrimEnd(s[..|s| - 1]) else s
  }

  function Trim(s: bytes): bytes {
    TrimEnd(TrimStart(s))
  }

  function ToLower(b: byte): byte {
    if 'A' <= b <= 'Z' then (b as int + 32) as char else b
  }

  predicate EqIgnoreCase(a: bytes, b: bytes) {
    |a| == |b| && forall i :: 0 <= i < |a| ==> ToLower(a[i]) == ToLower(b[i])
  }

  /** The position of the first colon. */
  function FindColon(s: bytes, from: nat := 0): (r: Option<nat>)
    requires from <= |s|
    ensures r.Some? ==> from <= r.value < |s| && s[r.value] == ':' && forall i :: from <= i < r.value ==> s[i] != ':'
    ensures r.None? ==> forall i :: from <= i < |s| ==> s[i] != ':'
    decreases |s| - from
  {
    if from == |s| then None
    else if s[from] == ':' then Some(from)
    else FindColon(s, from + 1)
  }

  predicate IsDigit(b: byte) {
    '0' <= b <= '9'
  }

  predicate AreDigits(s: bytes) {
    forall i :: 0 <= i < |s| ==> IsDigit(s[i])
  }

  function Digits(s: bytes): (n: nat)
    requires AreDigits(s)
  {
    if s == [] then 0
    else
      assert IsDigit(s[|s| - 1]);
      10 * Digits(s[..|s| - 1]) + (s[|s| - 1] as int - '0' as int)
  }

  /** `str::parse::<i64>`: an optional sign, at least one digit, nothing else, no overflow. */
  function ParseI64(s: bytes): Option<int> {
    var negative := s != [] && s[0] == '-';
    var body := if s != [] && (s[0] == '-' || s[0] == '+') then s[1..] else s;
    if body == [] || !AreDigits(body) then None
    else
      var n: int := if negative then 0 - Digits(body) else Digits(body);
      if -I64_MAX - 1 <= n <= I64_MAX then Some(n) else None
  }

  const CONTENT_LENGTH: bytes := "content-length"

  /** One non-blank header line: the Content-Length in force after it, or a fatal error. */
  function HeaderLine(line: bytes, inForce: Option<nat>): Result<Option<nat>, DecodeError> {
    var colon := FindColon(line);
    if colon.None? then Ok(inForce)
    else if !EqIgnoreCase(Trim(line[..colon.value]), CONTENT_LENGTH) then Ok(inForce)
    else
      match ParseI64(Trim(line[colon.value + 1..]))
      case None => Err(InvalidContentLength)
      case Some(n) => Ok(Some(if n < 0 then 0 else n))
  }

  // ---------------------------------------------------------------- one decoding step

  datatype Step<+V> =
    | NeedMore
    | Advance(state: DecodeState, rest: bytes)
    | Emit(event: DecodeEvent<V>, state: DecodeState, rest: bytes)
    | Fatal(err: DecodeError, rest: bytes)

  function EventOf<V>(parsed: Option<V>): DecodeEvent<V> {
    match parsed
    case Some(msg) => Frame(msg)
    case None => MalformedFrame
  }

  /** The state after the blank line that ends a header section. */
  function AfterBlank<V>(contentLength: Option<nat>, rest: bytes): Step<V> {
    match contentLength
    case None => Advance(START, rest)
    case Some(n) =>
      if n > MAX_BODY_BYTES then Fatal(BodyTooLarge, rest)
      else if n > 0 then Advance(Body(n), rest)
      else Advance(START, rest)
  }

  function LineStep<V>(headerBytes: nat, contentLength: Option<nat>, line: bytes, buf: bytes, rest: bytes): Step<V> {
    var raw := |line| + 2;
    if raw > MAX_HEADER_LINE then Fatal(HeaderLineTooLong, buf)
    else if headerBytes + raw > MAX_HEADERS_TOTAL then Fatal(HeadersTooLarge, buf)
    else if line == [] then AfterBlank(contentLength, rest)
    else
      match HeaderLine(line, contentLength)
      case Err(e) => Fatal(e, rest)
      case Ok(inForce) => Advance(Headers(headerBytes + raw, inForce), rest)
  }

  /** One turn of the loop in `next_event`, on whatever is buffered. */
  function DecodeStep<V>(parse: bytes -> Option<V>, s: DecodeState, buf: bytes): (r: Step<V>)
    requires ValidState(s)
    ensures r.Advance? || r.Emit? ==> ValidState(r.state) && |r.rest| < |buf|
    ensures r.Fatal? ==> |r.rest| <= |buf|
  {
    match s
    case Poisoned(e) => Fatal(e, buf)
    case Headers(headerBytes, contentLength) =>
      (match FindCrlf(buf)
       case None => if |buf| > MAX_HEADER_LINE then Fatal(HeaderLineTooLong, buf) else NeedMore
       case Some(term) => LineStep(headerBytes, contentLength, buf[..term], buf, buf[term + 2..]))
    case Body(length) =>
      if |buf| < length then NeedMore
      else Emit(EventOf(parse(buf[..length])), START, buf[length..])
  }

  /** `next_event` as a function: the result, the state and the buffer it leaves. */
  datatype Pulled<+V> = Pulled(result: Result<Option<DecodeEvent<V>>, DecodeError>, state: DecodeState, buf: bytes)

  function Pull<V>(parse: bytes -> Option<V>, s: DecodeState, buf: bytes): (p: Pulled<V>)
    requires ValidState(s)
    ensures ValidState(p.state)
    ensures |p.buf| <= |buf|
    ensures p.result.Ok? && p.result.value.Some? ==> |p.buf| < |buf|
    decreases |buf|
  {
    match DecodeStep(parse, s, buf)
    case NeedMore => Pulled(Ok(None), s, buf)
    case Advance(s', rest) => Pull(parse, s', rest)
    case Emit(event, s', rest) => Pulled(Ok(Some(event)), s', rest)
    case Fatal(e, rest) => Pulled(Err(e), Poisoned(e), rest)
  }

  /** What a whole stretch of decoding leaves behind. */
  datatype Outcome<+V> = Outcome(
    events: seq<DecodeEvent<V>>, fatal: Option<DecodeError>, state: DecodeState, buf: bytes)

  /** Pulling until there is nothing more to pull. */
  function Drain<V>(parse: bytes -> Option<V>, s: DecodeState, buf: bytes): (o: Outcome<V>)
    requires ValidState(s)
    ensures ValidState(o.state)
    ensures o.fatal.Some? <==> o.state.Poisoned?
    ensures o.fatal.Some? ==> o.state == Poisoned(o.fatal.value)
    decreases |buf|
  {
    match DecodeStep(parse, s, buf)
    case NeedMore => Outcome([], None, s, buf)
    case Advance(s', rest) => Drain(parse, s', rest)
    case Emit(event, s', rest) =>
      var o := Drain(parse, s', rest);
      o.(events := [event] + o.events)
    case Fatal(e, rest) => Outcome([], Some(e), Poisoned(e), rest)
  }

  /** Draining is pulling once and, after an event, draining again. */
  lemma {:induction false} DrainByPull<V>(parse: bytes -> Option<V>, s: DecodeState, buf: bytes)
    requires ValidState(s)
    ensures var p := Pull(parse, s, buf);
            Drain(parse, s, buf) ==
            match p.result
            case Err(e) => Outcome([], Some(e), p.state, p.buf)
            case Ok(None) => Outcome([], None, p.state, p.buf)
            case Ok(Some(event)) => var o := Drain(parse, p.state, p.buf); o.(events := [event] + o.events)
    decreases |buf|
  {
    var step := DecodeStep(parse, s, buf);
    if step.Advance? {
      DrainByPull(parse, step.state, step.rest);
    }
  }

  // ---------------------------------------------------------------- the decoder object

  class FrameDecoder<V> {
    const parse: bytes -> Option<V>
    var buf: bytes
    var state: DecodeState

    constructor (parse: bytes -> Option<V>)
      ensures this.parse == parse && buf == [] && state == START && Valid()
    {
      this.parse := parse;
      buf := [];
      state := START;
    }

    predicate Valid()
      reads this
    {
      ValidState(state)
    }

    method Feed(chunk: bytes)
      requires Valid()
      modifies this`buf
      ensures Valid() && buf == old(buf) + chunk
    {
      buf := buf + chunk;
    }

    method Poison(err: DecodeError) returns (e: DecodeError)
      modifies this`state
      ensures state == Poisoned(err) && e == err
    {
      state := Poisoned(err);
      e := err;
    }

    /** Drains one complete header line within the caps and updates the state for it. */
    method EndOfLine(rawLen: nat, headerBytes: nat, contentLength: Option<nat>) returns (failed: Option<DecodeError>)
      requires 2 <= rawLen <= |buf| && rawLen <= MAX_HEADER_LINE && headerBytes + rawLen <= MAX_HEADERS_TOTAL
      modifies this
      ensures LineStep<V>(headerBytes, contentLength, old(buf)[..rawLen - 2], old(buf), old(buf)[rawLen..])
              == if failed.Some? then Fatal(failed.value, buf) else Advance(state, buf)
      ensures failed.Some? ==> state == Poisoned(failed.value)
    {
      failed := None;
      var line := buf[..rawLen - 2];
      buf := buf[rawLen..];
      if line == [] {
        match contentLength {
          case None =>
            state := START;
          case Some(length) =>
            if length > MAX_BODY_BYTES {
              var e := Poison(BodyTooLarge);
              return Some(e);
            } else if length > 0 {
              state := Body(length);
            } else {
              state := START;
            }
        }
      } else {
        match HeaderLine(line, contentLength) {
          case Err(err) =>
            var e := Poison(err);
            return Some(e);
          case Ok(inForce) =>
            state := Headers(headerBytes + rawLen, inForce);
        }
      }
    }

    /** The loop ends because every turn that does not return shortens the buffer. */
    method NextEvent() returns (r: Result<Option<DecodeEvent<V>>, DecodeError>)
      requires Valid()
      modifies this
      ensures Valid()
      ensures Pulled(r, state, buf) == Pull(parse, old(state), old(buf))
    {
      while true
        invariant Valid()
        invariant Pull(parse, state, buf) == Pull(parse, old(state), old(buf))
        decreases |buf|
      {
        match state
        case Poisoned(err) =>
          return Err(err);
        case Headers(headerBytes, contentLength) =>
          var term := FindCrlf(buf);
          if term.None? {
            if |buf| > MAX_HEADER_LINE {
              var e := Poison(HeaderLineTooLong);
              return Err(e);
            }
            return Ok(None);
          }
          var rawLen := term.value + 2;
          if rawLen > MAX_HEADER_LINE {
            var e := Poison(HeaderLineTooLong);
            return Err(e);
          }
          if headerBytes + rawLen > MAX_HEADERS_TOTAL {
            var e := Poison(HeadersTooLarge);
            return Err(e);
          }
          var failed := EndOfLine(rawLen, headerBytes, contentLength);
          if failed.Some? {
            return Err(failed.value);
          }
        case Body(length) =>
          if |buf| < length {
            return Ok(None);
          }
          var body := buf[..length];
          buf := buf[length..];
          state := START;
          return Ok(Some(EventOf(parse(body))));
      }
    }

    /** `feed`, then `next_event` until it has nothing more to say. */
    method Pump(chunk: bytes) returns (events: seq<DecodeEvent<V>>, fatal: Option<DecodeError>)
      requires Valid()
      modifies this
      ensures Valid()
      ensures Outcome(events, fatal, state, buf) == Drain(parse, old(state), old(buf) + chunk)
    {
      Feed(chunk);
      events, fatal := [], None;
      while true
        invariant Valid()
        invariant var o := Drain(parse, state, buf);
                  o.(events := events + o.events) == Drain(parse, old(state), old(buf) + chunk)
        decreases |buf|
      {
        DrainByPull(parse, state, buf);
        var r := NextEvent();
        match r
        case Err(e) =>
          fatal := Some(e);
          return;
        case Ok(None) =>
          return;
        case Ok(Some(event)) =>
          ghost var o := Drain(parse, state, buf);
          assert events + ([event] + o.events) == (events + [event]) + o.events;
          events := events + [event];
      }
    }
  }
}
