/**
 What the framing codec guarantees over whole byte streams: the way bytes are chunked does
 not matter, no byte is lost, and what was encoded is decoded again.
 */
module FramingProofs {

  import opened Wrappers
  import opened Lists
  import opened Framing

  // ---------------------------------------------------------------- chunking invariance

  /** The first terminator stays first; a missing one can only come at the very end or later. */
  lemma FindCrlfExtend(a: bytes, b: bytes)
    ensures FindCrlf(a).Some? ==> FindCrlf(a + b) == FindCrlf(a)
    ensures FindCrlf(a).None? && FindCrlf(a + b).Some? ==> FindCrlf(a + b).value + 1 >= |a|
  {
    assert forall i: nat :: i + 1 < |a| ==> CrlfAt(a, i) == CrlfAt(a + b, i);
    if FindCrlf(a).Some? {
      assert CrlfAt(a + b, FindCrlf(a).value);
    } else if FindCrlf(a + b).Some? {
      assert !CrlfAt(a, FindCrlf(a + b).value);
    }
  }

  /** Bytes that arrive later do not change a step that could already be taken. */
  lemma StepExtend<V>(parse: bytes -> Option<V>, s: DecodeState, a: bytes, b: bytes)
    requires ValidState(s)
    requires !DecodeStep(parse, s, a).NeedMore?
    ensures var step := DecodeStep(parse, s, a);
            DecodeStep(parse, s, a + b) == step.(rest := step.rest + b)
  {
    hide FindCrlf, HeaderLine;
    FindCrlfExtend(a, b);
    if s.Headers? && FindCrlf(a).Some? {
      var term := FindCrlf(a).value;
      assert (a + b)[..term] == a[..term];
      assert (a + b)[term + 2..] == a[term + 2..] + b;
    } else if s.Body? {
      assert (a + b)[..s.length] == a[..s.length];
      assert (a + b)[s.length..] == a[s.length..] + b;
    }
  }

  function After<V>(first: Outcome<V>, second: Outcome<V>): Outcome<V> {
    second.(events := first.events + second.events)
  }

  /** Draining what has come and then the rest is draining everything. */
  lemma {:induction false} DrainAppend<V>(parse: bytes -> Option<V>, s: DecodeState, a: bytes, b: bytes)
    requires ValidState(s)
    ensures var o := Drain(parse, s, a);
            Drain(parse, s, a + b) == After(o, Drain(parse, o.state, o.buf + b))
    decreases |a|
  {
    hide Drain, DecodeStep;
    var step := DecodeStep(parse, s, a);
    DrainByStep(parse, s, a);
    if !step.NeedMore? {
      StepExtend(parse, s, a, b);
      DrainByStep(parse, s, a + b);
    }
    match step
    case NeedMore =>
    case Advance(s', rest) =>
      DrainAppend(parse, s', rest, b);
    case Emit(event, s', rest) =>
      DrainAppend(parse, s', rest, b);
      var o := Drain(parse, s', rest);
      var o' := Drain(parse, o.state, o.buf + b);
      assert [event] + (o.events + o'.events) == ([event] + o.events) + o'.events;
    case Fatal(e, rest) =>
      DrainPoisoned(parse, e, rest + b);
  }

  lemma DrainByStep<V>(parse: bytes -> Option<V>, s: DecodeState, buf: bytes)
    requires ValidState(s)
    ensures Drain(parse, s, buf) ==
            match DecodeStep(parse, s, buf)
            case NeedMore => Outcome([], None, s, buf)
            case Advance(s', rest) => Drain(parse, s', rest)
            case Emit(event, s', rest) =>
              var o := Drain(parse, s', rest);
              o.(events := [event] + o.events)
            case Fatal(e, rest) => Outcome([], Some(e), Poisoned(e), rest)
  {
  }

  lemma DrainPoisoned<V>(parse: bytes -> Option<V>, e: DecodeError, buf: bytes)
    ensures Drain(parse, Poisoned(e), buf) == Outcome([], Some(e), Poisoned(e), buf)
  {
  }

  lemma DrainNothing<V>(parse: bytes -> Option<V>)
    ensures Drain(parse, START, []) == Outcome([], None, START, [])
  {
  }

  /** Feeding the chunks one by one, draining after each. */
  function DrainChunks<V>(parse: bytes -> Option<V>, s: DecodeState, buf: bytes, chunks: seq<bytes>): (o: Outcome<V>)
    requires ValidState(s)
    decreases |chunks|
  {
    if chunks == [] then Drain(parse, s, buf)
    else
      var o := Drain(parse, s, buf + chunks[0]);
      After(o, DrainChunks(parse, o.state, o.buf, chunks[1..]))
  }

  lemma FlattenHead(buf: bytes, chunks: seq<bytes>)
    ensures buf + Flatten(chunks) == if chunks == [] then buf else (buf + chunks[0]) + Flatten(chunks[1..])
  {
  }

  lemma {:induction false} ChunkingInvariance<V>(parse: bytes -> Option<V>, s: DecodeState, buf: bytes,
      chunks: seq<bytes>)
    requires ValidState(s)
    ensures DrainChunks(parse, s, buf, chunks) == Drain(parse, s, buf + Flatten(chunks))
    decreases |chunks|
  {
    hide DecodeStep, Drain;
    FlattenHead(buf, chunks);
    if chunks != [] {
      var fed, rest := buf + chunks[0], Flatten(chunks[1..]);
      var o := Drain(parse, s, fed);
      calc {
        DrainChunks(parse, s, buf, chunks);
        After(o, DrainChunks(parse, o.state, o.buf, chunks[1..]));
        { ChunkingInvariance(parse, o.state, o.buf, chunks[1..]); }
        After(o, Drain(parse, o.state, o.buf + rest));
        { DrainAppend(parse, s, fed, rest); }
        Drain(parse, s, fed + rest);
      }
    }
  }

  /** Two ways of cutting one stream cannot be told apart. */
  lemma SameStreamSameOutcome<V>(parse: bytes -> Option<V>, one: seq<bytes>, other: seq<bytes>)
    requires Flatten(one) == Flatten(other)
    ensures DrainChunks(parse, START, [], one) == DrainChunks(parse, START, [], other)
  {
    ChunkingInvariance(parse, START, [], one);
    ChunkingInvariance(parse, START, [], other);
  }

  /**
   The decoding half of the client's reader task: chunks as the transport hands them over,
   stopping at a fatal error. Its result depends on the stream alone.
   */
  method ReadLoop<V>(parse: bytes -> Option<V>, chunks: seq<bytes>)
    returns (events: seq<DecodeEvent<V>>, fatal: Option<DecodeError>)
    ensures events == Drain(parse, START, Flatten(chunks)).events
    ensures fatal == Drain(parse, START, Flatten(chunks)).fatal
  {
    hide DecodeStep, Drain, Flatten, FindCrlf, HeaderLine;
    DrainNothing(parse);
    ChunkingInvariance(parse, START, [], chunks);
    assert [] + Flatten(chunks) == Flatten(chunks);
    var decoder := new FrameDecoder(parse);
    events, fatal := [], None;
    for i := 0 to |chunks|
      invariant decoder.parse == parse && fresh(decoder) && decoder.Valid() && fatal.None?
      invariant Drain(parse, decoder.state, decoder.buf) == Outcome([], None, decoder.state, decoder.buf)
      invariant DrainChunks(parse, START, [], chunks)
                == After(Outcome(events, None, START, []), DrainChunks(parse, decoder.state, decoder.buf, chunks[i..]))
    {
      assert chunks[i..][0] == chunks[i] && chunks[i..][1..] == chunks[i + 1..];
      DrainTwice(parse, decoder.state, decoder.buf + chunks[i]);
      var more: seq<DecodeEvent<V>>;
      more, fatal := decoder.Pump(chunks[i]);
      ghost var rest := DrainChunks(parse, decoder.state, decoder.buf, chunks[i + 1..]);
      assert events + (more + rest.events) == (events + more) + rest.events;
      events := events + more;
      if fatal.Some? {
        PoisonedStays(parse, fatal.value, decoder.buf, chunks[i + 1..]);
        return;
      }
    }
  }

  /** A decoder that has been drained has nothing more to say until it is fed. */
  lemma {:induction false} DrainTwice<V>(parse: bytes -> Option<V>, s: DecodeState, buf: bytes)
    requires ValidState(s)
    ensures var o := Drain(parse, s, buf);
            Drain(parse, o.state, o.buf) == Outcome([], o.fatal, o.state, o.buf)
    decreases |buf|
  {
    var step := DecodeStep(parse, s, buf);
    if step.Advance? || step.Emit? {
      DrainTwice(parse, step.state, step.rest);
    }
  }

  // ---------------------------------------------------------------- reachable decoders

  predicate IsSuffix(end: bytes, whole: bytes) {
    |end| <= |whole| && whole[|whole| - |end|..] == end
  }

  lemma SuffixTransitive(a: bytes, b: bytes, c: bytes)
    requires IsSuffix(a, b) && IsSuffix(b, c)
    ensures IsSuffix(a, c)
  {
    assert c[|c| - |a|..] == c[|c| - |b|..][|b| - |a|..];
  }

  lemma StepLeavesSuffix<V>(parse: bytes -> Option<V>, s: DecodeState, buf: bytes)
    requires ValidState(s)
    ensures var step := DecodeStep(parse, s, buf); step.NeedMore? || IsSuffix(step.rest, buf)
  {
  }

  /** The bytes still buffered are exactly the end of the bytes fed: none lost, none made up. */
  lemma {:induction false} BytesConserved<V>(parse: bytes -> Option<V>, s: DecodeState, buf: bytes)
    requires ValidState(s)
    ensures IsSuffix(Drain(parse, s, buf).buf, buf)
    decreases |buf|
  {
    hide DecodeStep;
    var step := DecodeStep(parse, s, buf);
    StepLeavesSuffix(parse, s, buf);
    if step.Advance? || step.Emit? {
      BytesConserved(parse, step.state, step.rest);
      SuffixTransitive(Drain(parse, step.state, step.rest).buf, step.rest, buf);
    }
  }

  /** When the decoder asks for more, what it holds is small or is a body still incomplete. */
  lemma {:induction false} WaitingIsBounded<V>(parse: bytes -> Option<V>, s: DecodeState, buf: bytes)
    requires ValidState(s)
    requires Pull(parse, s, buf).result == Ok(None)
    ensures var p := Pull(parse, s, buf);
            || (p.state.Headers? && p.state.headerBytes <= MAX_HEADERS_TOTAL
                && |p.buf| <= MAX_HEADER_LINE && forall i: nat :: !CrlfAt(p.buf, i))
            || (p.state.Body? && |p.buf| < p.state.length && 1 <= p.state.length <= MAX_BODY_BYTES)
    decreases |buf|
  {
    var step := DecodeStep(parse, s, buf);
    if step.Advance? {
      WaitingIsBounded(parse, step.state, step.rest);
    }
  }

  lemma PoisonedStays<V>(parse: bytes -> Option<V>, e: DecodeError, buf: bytes, later: seq<bytes>)
    ensures DrainChunks(parse, Poisoned(e), buf, later) == Outcome([], Some(e), Poisoned(e), buf + Flatten(later))
  {
    ChunkingInvariance(parse, Poisoned(e), buf, later);
  }

  /** A fatal error stays, whatever is fed afterwards, and nothing more is consumed. */
  lemma {:induction false} ErrorsAreSticky<V>(parse: bytes -> Option<V>, s: DecodeState, buf: bytes, later: seq<bytes>)
    requires ValidState(s)
    requires Pull(parse, s, buf).result.Err?
    ensures var p := Pull(parse, s, buf);
            DrainChunks(parse, p.state, p.buf, later)
            == Outcome([], Some(p.result.error), Poisoned(p.result.error), p.buf + Flatten(later))
    decreases |buf|
  {
    var step := DecodeStep(parse, s, buf);
    if step.Advance? {
      ErrorsAreSticky(parse, step.state, step.rest, later);
    } else {
      PoisonedStays(parse, step.err, step.rest, later);
    }
  }

  // ---------------------------------------------------------------- encoding

  function Decimal(n: nat): (s: bytes)
    ensures s != [] && forall i :: 0 <= i < |s| ==> IsDigit(s[i])
  {
    var last: bytes := [('0' as int + n % 10) as char];
    if n < 10 then last else Decimal(n / 10) + last
  }

  function DecimalInt(n: int): (s: bytes)
  {
    if n < 0 then ['-'] + Decimal(-n) else Decimal(n)
  }

  lemma {:induction false} DigitsOfDecimal(n: nat)
    ensures Digits(Decimal(n)) == n
  {
    var s := Decimal(n);
    if n >= 10 {
      DigitsOfDecimal(n / 10);
      assert s[..|s| - 1] == Decimal(n / 10);
    } else {
      assert s[..|s| - 1] == [];
    }
  }

  const LENGTH_KEY: bytes := "Content-Length"

  function LengthLine(n: int): bytes {
    LENGTH_KEY + [':', ' '] + DecimalInt(n)
  }

  lemma TrimKeepsNonSpaces(s: bytes)
    requires s != [] && !IsSpace(s[0]) && !IsSpace(s[|s| - 1])
    ensures Trim(s) == s && Trim([' '] + s) == s
  {
    assert ([' '] + s)[1..] == s;
  }

  lemma LengthKeyIsContentLength()
    ensures EqIgnoreCase(Trim(LENGTH_KEY), CONTENT_LENGTH)
  {
    TrimKeepsNonSpaces(LENGTH_KEY);
  }

  lemma ParsesDecimalInt(n: int)
    requires -I64_MAX - 1 <= n <= I64_MAX
    ensures ParseI64(DecimalInt(n)) == Some(n)
    ensures var text := DecimalInt(n);
            text != [] && forall i :: 0 <= i < |text| ==> text[i] == '-' || IsDigit(text[i])
  {
    var text, size: nat := DecimalInt(n), if n < 0 then 0 - n else n;
    DigitsOfDecimal(size);
    if n < 0 {
      assert text[1..] == Decimal(size);
    }
  }

  /** The decoder reads every 64-bit Content-Length it is sent; negative ones count as zero. */
  lemma LengthLineIsRead(n: int, inForce: Option<nat>)
    requires -I64_MAX - 1 <= n <= I64_MAX
    ensures HeaderLine(LengthLine(n), inForce) == Ok(Some(if n < 0 then 0 else n))
  {
    hide DecimalInt, ParseI64, Trim, EqIgnoreCase;
    var line, text := LengthLine(n), DecimalInt(n);
    ParsesDecimalInt(n);
    assert line[14] == ':';
    assert FindColon(line) == Some(14);
    assert line[..14] == LENGTH_KEY;
    LengthKeyIsContentLength();
    assert line[15..] == [' '] + text;
    TrimKeepsNonSpaces(text);
  }

  lemma LengthLineIsLine(n: int)
    requires -I64_MAX - 1 <= n <= I64_MAX
    ensures IsLine(LengthLine(n))
  {
    var line, text := LengthLine(n), DecimalInt(n);
    ParsesDecimalInt(n);
    forall i | 0 <= i < |line|
      ensures line[i] != '\r'
    {
      if i >= 16 {
        assert line[i] == text[i - 16];
      }
    }
  }

  /** A header line as it may appear on the wire: not blank, no terminator inside. */
  predicate IsLine(line: bytes) {
    line != [] && forall i :: 0 <= i < |line| ==> !CrlfAt(line, i)
  }

  function EncodeLines(lines: seq<bytes>): bytes {
    if lines == [] then [] else lines[0] + CRLF + EncodeLines(lines[1..])
  }

  /** The Content-Length in force after some header lines. */
  function LengthAfter(lines: seq<bytes>, inForce: Option<nat>): Result<Option<nat>, DecodeError> {
    if lines == [] then Ok(inForce)
    else
      match HeaderLine(lines[0], inForce)
      case Err(e) => Err(e)
      case Ok(next) => LengthAfter(lines[1..], next)
  }

  function LinesSize(lines: seq<bytes>): nat {
    |EncodeLines(lines)|
  }

  /** Lines within the caps; `used` counts the header bytes before them. */
  predicate LegalLines(lines: seq<bytes>, used: nat) {
    && used + LinesSize(lines) <= MAX_HEADERS_TOTAL
    && forall line :: line in lines ==> IsLine(line) && |line| + 2 <= MAX_HEADER_LINE
  }

  /** One line on the wire is one step. */
  lemma StepOverLine<V>(parse: bytes -> Option<V>, s: DecodeState, line: bytes, rest: bytes)
    requires ValidState(s) && s.Headers?
    requires line == [] || IsLine(line)
    ensures DecodeStep(parse, s, line + CRLF + rest)
            == LineStep(s.headerBytes, s.contentLength, line, line + CRLF + rest, rest)
  {
    var buf := line + CRLF + rest;
    assert CrlfAt(buf, |line|);
    forall i: nat | i < |line|
      ensures !CrlfAt(buf, i)
    {
      if i + 1 < |line| {
        assert !CrlfAt(line, i);
      }
    }
    assert buf[..|line|] == line;
    assert buf[|line| + 2..] == rest;
  }

  /** Legal header lines leave their total size and the Content-Length in force. */
  lemma {:induction false} DrainLines<V>(parse: bytes -> Option<V>, s: DecodeState, lines: seq<bytes>, rest: bytes)
    requires ValidState(s) && s.Headers?
    requires LegalLines(lines, s.headerBytes) && LengthAfter(lines, s.contentLength).Ok?
    ensures Drain(parse, s, EncodeLines(lines) + rest)
            == Drain(parse, Headers(s.headerBytes + LinesSize(lines), LengthAfter(lines, s.contentLength).value), rest)
    decreases |lines|
  {
    hide DecodeStep, HeaderLine;
    if lines == [] {
      assert EncodeLines(lines) + rest == rest;
    } else {
      var more := EncodeLines(lines[1..]) + rest;
      assert lines[0] in lines;
      StepOverLine(parse, s, lines[0], more);
      assert EncodeLines(lines) + rest == lines[0] + CRLF + more;
      var next := HeaderLine(lines[0], s.contentLength).value;
      DrainLines(parse, Headers(s.headerBytes + |lines[0]| + 2, next), lines[1..], rest);
    }
  }

  /** A legal header section and its blank line leave what the Content-Length decides. */
  lemma DrainSection<V>(parse: bytes -> Option<V>, lines: seq<bytes>, rest: bytes)
    requires LegalLines(lines, 2) && LengthAfter(lines, None).Ok?
    ensures var o := Drain(parse, START, EncodeLines(lines) + CRLF + rest);
            match LengthAfter(lines, None).value
            case None => o == Drain(parse, START, rest)
            case Some(n) =>
              if n > MAX_BODY_BYTES then o == Outcome([], Some(BodyTooLarge), Poisoned(BodyTooLarge), rest)
              else if n > 0 then o == Drain(parse, Body(n), rest)
              else o == Drain(parse, START, rest)
  {
    hide DecodeStep, HeaderLine;
    var s := Headers(LinesSize(lines), LengthAfter(lines, None).value);
    DrainLines(parse, START, lines, CRLF + rest);
    StepOverLine(parse, s, [], rest);
    assert EncodeLines(lines) + CRLF + rest == EncodeLines(lines) + (CRLF + rest);
    assert [] + CRLF + rest == CRLF + rest;
  }

  /** The error comes at once. */
  predicate FailsWith<V(==)>(o: Outcome<V>, e: DecodeError) {
    o.fatal == Some(e) && o.events == []
  }

  /** After legal lines, one line that breaks a cap or spells a bad length ends the stream. */
  lemma BadLineIsFatal<V>(parse: bytes -> Option<V>, lines: seq<bytes>, line: bytes, rest: bytes)
    requires LegalLines(lines, 0) && LengthAfter(lines, None).Ok? && IsLine(line)
    ensures var o := Drain(parse, START, EncodeLines(lines) + (line + CRLF + rest));
            if |line| + 2 > MAX_HEADER_LINE then FailsWith(o, HeaderLineTooLong)
            else if LinesSize(lines) + |line| + 2 > MAX_HEADERS_TOTAL then FailsWith(o, HeadersTooLarge)
            else if HeaderLine(line, None).Err? then FailsWith(o, InvalidContentLength)
            else LegalLines(lines + [line], 0)
  {
    hide Drain, HeaderLine, IsLine, EncodeLines, FailsWith, LengthAfter;
    assert LinesSize(lines) <= MAX_HEADERS_TOTAL;
    if |line| + 2 <= MAX_HEADER_LINE && LinesSize(lines) + |line| + 2 <= MAX_HEADERS_TOTAL {
      OneMoreLine(lines, line);
    }
    var inForce, tail := LengthAfter(lines, None).value, line + CRLF + rest;
    DrainLines(parse, START, lines, tail);
    BadLineStops(parse, LinesSize(lines), inForce, line, rest);
  }

  lemma BadLineStops<V>(parse: bytes -> Option<V>, used: nat, inForce: Option<nat>, line: bytes, rest: bytes)
    requires used <= MAX_HEADERS_TOTAL && IsLine(line)
    ensures var o := Drain(parse, Headers(used, inForce), line + CRLF + rest);
            if |line| + 2 > MAX_HEADER_LINE then FailsWith(o, HeaderLineTooLong)
            else if used + |line| + 2 > MAX_HEADERS_TOTAL then FailsWith(o, HeadersTooLarge)
            else HeaderLine(line, None).Err? ==> FailsWith(o, InvalidContentLength)
  {
    assert line != [];
    hide DecodeStep, Drain, HeaderLine, IsLine;
    StepOverLine(parse, Headers(used, inForce), line, rest);
    DrainByStep(parse, Headers(used, inForce), line + CRLF + rest);
    RefusedWhateverIsInForce(line, inForce);
  }

  lemma RefusedWhateverIsInForce(line: bytes, inForce: Option<nat>)
    ensures HeaderLine(line, inForce).Err? <==> HeaderLine(line, None).Err?
    ensures HeaderLine(line, inForce).Err? ==> HeaderLine(line, inForce).error == InvalidContentLength
  {
  }

  lemma OneMoreLine(lines: seq<bytes>, line: bytes)
    requires LegalLines(lines, 0) && IsLine(line) && |line| + 2 <= MAX_HEADER_LINE
    requires LinesSize(lines) + |line| + 2 <= MAX_HEADERS_TOTAL
    ensures LegalLines(lines + [line], 0)
  {
    hide IsLine;
    EncodeLinesAppend(lines, line);
  }

  lemma {:induction false} EncodeLinesAppend(lines: seq<bytes>, line: bytes)
    ensures EncodeLines(lines + [line]) == EncodeLines(lines) + line + CRLF
  {
    if lines == [] {
      assert [line][1..] == [];
    } else {
      EncodeLinesAppend(lines[1..], line);
      assert (lines + [line])[1..] == lines[1..] + [line];
    }
  }

  /** What a peer may put on the wire: a message, a header block without a body, or a bad body. */
  datatype Block<V> =
    | Message(msg: V)
    | Skipped(lines: seq<bytes>)
    | Garbage(body: bytes)

  function Framed(body: bytes): bytes {
    EncodeLines([LengthLine(|body|)]) + CRLF + body
  }

  /** `encode_message` on the printed message. */
  function EncodeMessage<V>(show: V -> bytes, msg: V): bytes {
    Framed(show(msg))
  }

  function EncodeBlock<V>(show: V -> bytes, block: Block<V>): bytes {
    match block
    case Message(msg) => EncodeMessage(show, msg)
    case Skipped(lines) => EncodeLines(lines) + CRLF
    case Garbage(body) => Framed(body)
  }

  function EncodeBlocks<V>(show: V -> bytes, blocks: seq<Block<V>>): bytes {
    if blocks == [] then [] else EncodeBlock(show, blocks[0]) + EncodeBlocks(show, blocks[1..])
  }

  predicate GoodBlock<V(==)>(show: V -> bytes, parse: bytes -> Option<V>, block: Block<V>) {
    match block
    case Message(msg) => 1 <= |show(msg)| <= MAX_BODY_BYTES && parse(show(msg)) == Some(msg)
    case Skipped(lines) => LegalLines(lines, 2) && LengthAfter(lines, None) in {Ok(None), Ok(Some(0))}
    case Garbage(body) => 1 <= |body| <= MAX_BODY_BYTES && parse(body).None?
  }

  function EventsOf<V>(blocks: seq<Block<V>>): seq<DecodeEvent<V>> {
    if blocks == [] then []
    else
      (match blocks[0]
       case Message(msg) => [Frame(msg)]
       case Skipped(_) => []
       case Garbage(_) => [MalformedFrame]) + EventsOf(blocks[1..])
  }

  /** A framed body is one event and leaves the decoder where it started. */
  lemma DrainFramed<V>(parse: bytes -> Option<V>, body: bytes, rest: bytes)
    requires 1 <= |body| <= MAX_BODY_BYTES
    ensures var o := Drain(parse, START, rest);
            Drain(parse, START, Framed(body) + rest) == o.(events := [EventOf(parse(body))] + o.events)
  {
    hide EncodeLines, LengthLine, LegalLines, LengthAfter, HeaderLine, FindCrlf, Drain, DecodeStep;
    var lines, tail := [LengthLine(|body|)], body + rest;
    LegalLengthLine(|body|);
    DrainSection(parse, lines, tail);
    assert Framed(body) + rest == EncodeLines(lines) + CRLF + tail;
    DrainBody(parse, body, rest);
  }

  lemma DrainBody<V>(parse: bytes -> Option<V>, body: bytes, rest: bytes)
    requires 1 <= |body| <= MAX_BODY_BYTES
    ensures var o := Drain(parse, START, rest);
            Drain(parse, Body(|body|), body + rest) == o.(events := [EventOf(parse(body))] + o.events)
  {
    hide Drain;
    assert (body + rest)[..|body|] == body && (body + rest)[|body|..] == rest;
    DrainByStep(parse, Body(|body|), body + rest);
  }

  /**
   Decoding a stream of good blocks gives back the messages in order, one `MalformedFrame`
   for each bad body, nothing for the skipped blocks, and an empty decoder.
   */
  lemma {:induction false} RoundTrip<V>(show: V -> bytes, parse: bytes -> Option<V>, blocks: seq<Block<V>>)
    requires forall b :: b in blocks ==> GoodBlock(show, parse, b)
    ensures Drain(parse, START, EncodeBlocks(show, blocks)) == Outcome(EventsOf(blocks), None, START, [])
  {
    if blocks != [] {
      var rest := EncodeBlocks(show, blocks[1..]);
      assert blocks[0] in blocks;
      RoundTrip(show, parse, blocks[1..]);
      match blocks[0]
      case Message(msg) =>
        DrainFramed(parse, show(msg), rest);
      case Skipped(lines) =>
        DrainSection(parse, lines, rest);
        assert EncodeBlocks(show, blocks) == EncodeLines(lines) + CRLF + rest;
      case Garbage(body) =>
        DrainFramed(parse, body, rest);
    }
  }

  /** The round trip survives any transport that cuts the stream into chunks. */
  lemma RoundTripInChunks<V>(show: V -> bytes, parse: bytes -> Option<V>, blocks: seq<Block<V>>, chunks: seq<bytes>)
    requires forall b :: b in blocks ==> GoodBlock(show, parse, b)
    requires Flatten(chunks) == EncodeBlocks(show, blocks)
    ensures DrainChunks(parse, START, [], chunks) == Outcome(EventsOf(blocks), None, START, [])
  {
    RoundTrip(show, parse, blocks);
    ChunkingInvariance(parse, START, [], chunks);
    assert [] + Flatten(chunks) == Flatten(chunks);
  }

  /** A zero or negative Content-Length, or none at all, makes a block that is skipped. */
  lemma NonPositiveLengthIsSkipped<V>(show: V -> bytes, parse: bytes -> Option<V>, n: int)
    requires -I64_MAX - 1 <= n <= 0
    ensures GoodBlock(show, parse, Skipped([LengthLine(n)])) && GoodBlock(show, parse, Skipped([]))
  {
    LegalLengthLine(n);
    assert EncodeLines([]) == [];
  }

  /** A Content-Length line of any 64-bit value is a legal header section on its own. */
  lemma LegalLengthLine(n: int)
    requires -I64_MAX - 1 <= n <= I64_MAX
    ensures LegalLines([LengthLine(n)], 2)
    ensures LengthAfter([LengthLine(n)], None) == Ok(Some(if n < 0 then 0 else n))
  {
    hide HeaderLine, LengthLine;
    var line := LengthLine(n);
    LengthLineIsRead(n, None);
    LengthLineIsLine(n);
    LengthLineIsShort(n);
    var none: seq<bytes> := [];
    assert [line][1..] == none;
    assert EncodeLines([line]) == line + CRLF + [];
  }

  lemma LengthLineIsShort(n: int)
    requires -I64_MAX - 1 <= n <= I64_MAX
    ensures |LengthLine(n)| <= 16 + 1 + 19
  {
    assert Pow10(8) == 100_000_000;
    assert Pow10(14) == 100_000_000_000_000;
    assert Pow10(19) == 10_000_000_000_000_000_000;
    DecimalWidth(if n < 0 then 0 - n else n, 19);
  }

  function Pow10(k: nat): nat {
    if k == 0 then 1 else 10 * Pow10(k - 1)
  }

  lemma {:induction false} DecimalWidth(n: nat, k: nat)
    requires 1 <= k && n < Pow10(k)
    ensures |Decimal(n)| <= k
    decreases k
  {
    if n >= 10 {
      assert Pow10(1) == 10 * Pow10(0) == 10;
      DecimalWidth(n / 10, k - 1);
    }
  }
}
