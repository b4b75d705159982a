/**
 The header grammar of the framing codec (`crates/lsp-client/src/lib.rs`) as it appears on the
 wire: header lines spelled out in their parts, which of them carry a length and which length, and
 what the decoder makes of a whole section.
 */
module HeaderGrammar {

  import opened Wrappers
  import opened Lists
  import opened Framing
  import opened FramingProofs

  // ---------------------------------------------------------------- spelling

  predicate IsBlank(b: byte) {
    b == ' ' || b == '\t' || b == '\n' || b == '\r' || b as int == 11 || b as int == 12
  }

  predicate AllBlank(s: bytes) {
    forall i :: 0 <= i < |s| ==> IsBlank(s[i])
  }

  /** No white space at either end. */
  predicate IsTight(s: bytes) {
    s == [] || (!IsBlank(s[0]) && !IsBlank(s[|s| - 1]))
  }

  /** A line without a colon, or a key and a value, each with white space around it. */
  datatype Header =
    | NoColon(text: bytes)
    | Field(before: bytes, key: bytes, behind: bytes, lead: bytes, value: bytes, trail: bytes)

  predicate IsWellSpelled(h: Header) {
    match h
    case NoColon(text) => ':' !in text
    case Field(before, key, behind, lead, value, trail) =>
      && AllBlank(before) && AllBlank(behind) && AllBlank(lead) && AllBlank(trail)
      && IsTight(key) && IsTight(value) && ':' !in key
  }

  function Spelled(h: Header): bytes {
    match h
    case NoColon(text) => text
    case Field(before, key, behind, lead, value, trail) => before + key + behind + ":" + (lead + value + trail)
  }

  /** `content-length` in upper or lower case letters. */
  predicate IsLengthKey(key: bytes) {
    && |key| == 14
    && forall i :: 0 <= i < 14 ==>
         key[i] == "content-length"[i] || key[i] == "CONTENT-LENGTH"[i]
  }

  predicate IsOther(h: Header) {
    h.NoColon? || !IsLengthKey(h.key)
  }

  predicate IsNumeral(s: bytes) {
    s != [] && forall i :: 0 <= i < |s| ==> '0' <= s[i] <= '9'
  }

  /** The digits behind the sign, if there is one. */
  function Unsigned(s: bytes): bytes {
    if s != [] && (s[0] == '+' || s[0] == '-') then s[1..] else s
  }

  /** The number a row of digits denotes, the first digit worth the most. */
  function NumeralValue(s: bytes): nat
    requires forall i :: 0 <= i < |s| ==> '0' <= s[i] <= '9'
  {
    if s == [] then 0
    else
      var d: nat := s[0] as int - '0' as int;
      d * Pow10(|s| - 1) + NumeralValue(s[1..])
  }

  function IntegerValue(s: bytes): int
    requires IsNumeral(Unsigned(s))
  {
    var size: int := NumeralValue(Unsigned(s));
    if s[0] == '-' then -size else size
  }

  /** The value is a 64-bit integer. */
  predicate IsLength(value: bytes) {
    IsNumeral(Unsigned(value)) && -0x8000_0000_0000_0000 <= IntegerValue(value) < 0x8000_0000_0000_0000
  }

  /** The header does not end the stream. */
  predicate IsGood(h: Header) {
    IsOther(h) || IsLength(h.value)
  }

  // ---------------------------------------------------------------- every line has a spelling

  function LeadingBlanks(s: bytes): (n: nat)
    ensures n <= |s| && AllBlank(s[..n]) && (n < |s| ==> !IsBlank(s[n]))
  {
    if s != [] && IsBlank(s[0]) then
      var n := LeadingBlanks(s[1..]);
      assert s[..n + 1] == [s[0]] + s[1..][..n];
      n + 1
    else 0
  }

  function TightLength(s: bytes): (n: nat)
    ensures n <= |s| && AllBlank(s[n..]) && (n > 0 ==> !IsBlank(s[n - 1]))
  {
    if s != [] && IsBlank(s[|s| - 1]) then
      var n := TightLength(s[..|s| - 1]);
      assert s[n..] == s[..|s| - 1][n..] + [s[|s| - 1]];
      n
    else |s|
  }

  /** White space, a tight text, and white space. */
  lemma TightPart(s: bytes) returns (a: bytes, t: bytes, b: bytes)
    ensures s == a + t + b && AllBlank(a) && IsTight(t) && AllBlank(b)
  {
    var n := LeadingBlanks(s);
    var m := TightLength(s[n..]);
    a, t, b := s[..n], s[n..][..m], s[n..][m..];
  }

  /** Every line is spelled in one of these ways, so nothing is said of a part of the lines only. */
  lemma EveryLineIsSpelled(line: bytes) returns (h: Header)
    ensures IsWellSpelled(h) && Spelled(h) == line
  {
    var colon := FindColon(line);
    if colon.None? {
      h := NoColon(line);
    } else {
      var before, key, behind := TightPart(line[..colon.value]);
      var lead, value, trail := TightPart(line[colon.value + 1..]);
      h := Field(before, key, behind, lead, value, trail);
      assert forall i :: 0 <= i < |key| ==> key[i] == line[|before| + i];
      assert line == line[..colon.value] + ":" + line[colon.value + 1..];
    }
  }

  // ---------------------------------------------------------------- what the decoder reads

  lemma {:induction false} TrimsFront(a: bytes, t: bytes)
    requires AllBlank(a) && (t == [] || !IsBlank(t[0]))
    ensures TrimStart(a + t) == t
  {
    if a == [] {
      assert a + t == t;
    } else {
      assert (a + t)[1..] == a[1..] + t;
      TrimsFront(a[1..], t);
    }
  }

  lemma {:induction false} TrimsEnd(t: bytes, b: bytes)
    requires AllBlank(b) && (t == [] || !IsBlank(t[|t| - 1]))
    ensures TrimEnd(t + b) == t
  {
    if b == [] {
      assert t + b == t;
    } else {
      var n := |b| - 1;
      assert (t + b)[..|t + b| - 1] == t + b[..n];
      TrimsEnd(t, b[..n]);
    }
  }

  lemma TrimIsTightPart(a: bytes, t: bytes, b: bytes)
    requires AllBlank(a) && IsTight(t) && AllBlank(b)
    ensures Trim(a + t + b) == t
  {
    if t == [] {
      assert a + t + b == (a + b) + [];
      TrimsFront(a + b, []);
    } else {
      assert a + t + b == a + (t + b);
      TrimsFront(a, t + b);
      TrimsEnd(t, b);
    }
  }

  lemma {:induction false} FirstColon(s: bytes, rest: bytes, from: nat)
    requires ':' !in s && from <= |s|
    ensures FindColon(s + ":" + rest, from) == Some(|s|)
    decreases |s| - from
  {
    var line := s + ":" + rest;
    assert line[|s|] == ':';
    if from < |s| {
      assert line[from] == s[from];
      FirstColon(s, rest, from + 1);
    }
  }

  lemma LengthKeysAreEqual(key: bytes)
    ensures EqIgnoreCase(key, CONTENT_LENGTH) <==> IsLengthKey(key)
  {
    LowerLetters();
    if |key| == 14 {
      forall i | 0 <= i < 14
        ensures ToLower(key[i]) == ToLower(CONTENT_LENGTH[i])
           <==> key[i] == "content-length"[i] || key[i] == "CONTENT-LENGTH"[i]
      {
        SameLetter(key[i], i);
      }
    }
  }

  lemma LowerLetters()
    ensures forall i :: 0 <= i < 14 ==> ToLower(CONTENT_LENGTH[i]) == "content-length"[i]
  {
  }

  lemma SameLetter(b: byte, i: nat)
    requires i < 14
    ensures ToLower(b) == "content-length"[i] <==> b == "content-length"[i] || b == "CONTENT-LENGTH"[i]
  {
  }

  lemma {:induction false} NumeralIsDigits(s: bytes)
    requires forall i :: 0 <= i < |s| ==> '0' <= s[i] <= '9'
    ensures NumeralValue(s) == Digits(s)
  {
    if |s| > 1 {
      var n := |s| - 1;
      NumeralIsDigits(s[1..]);
      NumeralIsDigits(s[1..n]);
      NumeralIsDigits(s[..n]);
      assert s[1..][..n - 1] == s[1..n] && s[..n][1..] == s[1..n];
      assert Digits(s[1..]) == 10 * Digits(s[1..n]) + (s[n] as int - '0' as int);
      TimesTen(s[0] as int - '0' as int, Pow10(n - 1));
    } else if |s| == 1 {
      assert s[1..] == [] && s[..0] == [];
    }
  }

  lemma TimesTen(d: nat, p: nat)
    ensures d * (10 * p) == 10 * (d * p)
  {
  }

  lemma IntegersAreParsed(value: bytes)
    ensures ParseI64(value) == if IsLength(value) then Some(IntegerValue(value)) else None
  {
    var body := Unsigned(value);
    if IsNumeral(body) {
      NumeralIsDigits(body);
    }
  }

  /** What a header line does to the length in force, by its spelling. */
  lemma HeaderMeans(h: Header, inForce: Option<nat>)
    requires IsWellSpelled(h)
    ensures HeaderLine(Spelled(h), inForce)
         == if IsOther(h) then Ok(inForce)
            else if !IsLength(h.value) then Err(InvalidContentLength)
            else Ok(Some(if IntegerValue(h.value) < 0 then 0 else IntegerValue(h.value)))
  {
    var line := Spelled(h);
    match h
    case NoColon(text) =>
    case Field(before, key, behind, lead, value, trail) =>
      hide Trim, EqIgnoreCase, ParseI64, IsLengthKey, IsLength, IntegerValue;
      var front, back := before + key + behind, lead + value + trail;
      NoColonIn(before, key, behind);
      FirstColon(front, back, 0);
      assert line[..|front|] == front && line[|front| + 1..] == back;
      TrimIsTightPart(before, key, behind);
      TrimIsTightPart(lead, value, trail);
      LengthKeysAreEqual(key);
      IntegersAreParsed(value);
  }

  lemma NoColonIn(a: bytes, t: bytes, b: bytes)
    requires AllBlank(a) && AllBlank(b) && ':' !in t
    ensures ':' !in a + t + b
  {
  }

  // ---------------------------------------------------------------- sections

  function Lines(hs: seq<Header>): (lines: seq<bytes>)
    ensures |lines| == |hs| && forall i :: 0 <= i < |hs| ==> lines[i] == Spelled(hs[i])
  {
    seq(|hs|, i requires 0 <= i < |hs| => Spelled(hs[i]))
  }

  /** The headers on the wire, each with its terminator. */
  function Encoded(hs: seq<Header>): bytes {
    if hs == [] then [] else Spelled(hs[0]) + "\r\n" + Encoded(hs[1..])
  }

  /** Lines that can be told apart on the wire and that the caps allow, with the blank line behind them. */
  predicate Fits(hs: seq<Header>) {
    && |Encoded(hs)| + 2 <= 16384
    && forall h :: h in hs ==>
         IsWellSpelled(h) && 0 < |Spelled(h)| && |Spelled(h)| + 2 <= 4096 && IsLine(Spelled(h))
  }

  lemma {:induction false} EncodedIsLines(hs: seq<Header>)
    ensures Encoded(hs) == EncodeLines(Lines(hs))
  {
    if hs != [] {
      EncodedIsLines(hs[1..]);
      assert Lines(hs)[1..] == Lines(hs[1..]);
    }
  }

  lemma {:induction false} EncodedConcat(a: seq<Header>, b: seq<Header>)
    ensures Encoded(a + b) == Encoded(a) + Encoded(b)
  {
    hide Spelled;
    if a == [] {
      assert a + b == b;
    } else {
      assert (a + b)[1..] == a[1..] + b;
      EncodedConcat(a[1..], b);
    }
  }

  lemma FittingLines(hs: seq<Header>)
    requires Fits(hs)
    ensures LegalLines(Lines(hs), 2)
  {
    hide IsLine, Spelled, IsWellSpelled;
    EncodedIsLines(hs);
    forall line | line in Lines(hs) ensures IsLine(line) && |line| + 2 <= MAX_HEADER_LINE {
      var i :| 0 <= i < |hs| && line == Lines(hs)[i];
      assert hs[i] in hs;
    }
  }

  /** One header line, whatever it says. */
  lemma DrainHeader<V>(parse: bytes -> Option<V>, used: nat, inForce: Option<nat>, h: Header, rest: bytes)
    requires IsWellSpelled(h) && IsLine(Spelled(h)) && |Spelled(h)| + 2 <= 4096
    requires used + |Spelled(h)| + 2 <= 16384
    ensures var next := HeaderLine(Spelled(h), inForce);
            Drain(parse, Headers(used, inForce), Spelled(h) + CRLF + rest)
            == if next.Err? then Outcome([], Some(next.error), Poisoned(next.error), rest)
               else Drain(parse, Headers(used + |Spelled(h)| + 2, next.value), rest)
  {
    hide DecodeStep, Drain, HeaderLine, Spelled, IsWellSpelled;
    var line := Spelled(h);
    assert line != [] by { hide *; LineIsNotEmpty(line); }
    StepOverLine(parse, Headers(used, inForce), line, rest);
    DrainByStep(parse, Headers(used, inForce), line + CRLF + rest);
  }

  lemma LineIsNotEmpty(line: bytes)
    requires IsLine(line)
    ensures line != []
  {
  }

  /** What has been used of the caps does not matter while they are kept. */
  lemma {:induction false} UsedDoesNotMatter<V>(parse: bytes -> Option<V>, hs: seq<Header>, a: nat, b: nat,
                                                inForce: Option<nat>, rest: bytes)
    requires Fits(hs) && a + |Encoded(hs)| + 2 <= 16384 && b + |Encoded(hs)| + 2 <= 16384
    ensures Drain(parse, Headers(a, inForce), Encoded(hs) + (CRLF + rest))
         == Drain(parse, Headers(b, inForce), Encoded(hs) + (CRLF + rest))
    decreases |hs|
  {
    hide Drain, DecodeStep, HeaderLine, Spelled, IsWellSpelled, IsLine;
    if hs == [] {
      assert Encoded(hs) + (CRLF + rest) == CRLF + rest;
      BlankLine(parse, a, inForce, rest);
      BlankLine(parse, b, inForce, rest);
    } else {
      var h, tail := hs[0], Encoded(hs[1..]) + (CRLF + rest);
      assert h in hs;
      FrontOfEncoded(hs, rest);
      DrainHeader(parse, a, inForce, h, tail);
      DrainHeader(parse, b, inForce, h, tail);
      var next := HeaderLine(Spelled(h), inForce);
      if next.Ok? {
        UsedDoesNotMatter(parse, hs[1..], a + |Spelled(h)| + 2, b + |Spelled(h)| + 2, next.value, rest);
      }
    }
  }

  lemma FrontOfEncoded(hs: seq<Header>, rest: bytes)
    requires hs != []
    ensures Encoded(hs) + (CRLF + rest) == Spelled(hs[0]) + CRLF + (Encoded(hs[1..]) + (CRLF + rest))
    ensures |Encoded(hs)| == |Spelled(hs[0])| + 2 + |Encoded(hs[1..])|
  {
    hide Spelled;
    var line, more, tail := Spelled(hs[0]), Encoded(hs[1..]), CRLF + rest;
    assert Encoded(hs) == line + CRLF + more;
    hide Encoded;
    assert line + CRLF + more + tail == line + CRLF + (more + tail);
  }

  /** The blank line behind the headers. */
  lemma BlankLine<V>(parse: bytes -> Option<V>, used: nat, inForce: Option<nat>, rest: bytes)
    requires used + 2 <= 16384
    ensures Drain(parse, Headers(used, inForce), CRLF + rest)
         == match inForce
            case None => Drain(parse, START, rest)
            case Some(n) =>
              if n > 67108864 then Outcome([], Some(BodyTooLarge), Poisoned(BodyTooLarge), rest)
              else if n > 0 then Drain(parse, Body(n), rest)
              else Drain(parse, START, rest)
  {
    hide DecodeStep, Drain;
    StepOverLine(parse, Headers(used, inForce), [], rest);
    assert [] + CRLF + rest == CRLF + rest;
    DrainByStep(parse, Headers(used, inForce), CRLF + rest);
  }

  // ---------------------------------------------------------------- headers that say nothing about the length

  /** The same but for what is left in the buffer. */
  predicate YieldsTheSame<V(==)>(a: Outcome<V>, b: Outcome<V>) {
    a.events == b.events && a.fatal == b.fatal && a.state == b.state
  }

  lemma {:induction false} InsertedHeader<V>(parse: bytes -> Option<V>, used: nat, inForce: Option<nat>,
                                             a: seq<Header>, h: Header, b: seq<Header>, rest: bytes)
    requires Fits(a + [h] + b) && used + |Encoded(a + [h] + b)| + 2 <= 16384 && IsOther(h)
    ensures var with := Drain(parse, Headers(used, inForce), Encoded(a + [h] + b) + (CRLF + rest));
            var without := Drain(parse, Headers(used, inForce), Encoded(a + b) + (CRLF + rest));
            YieldsTheSame(with, without) && ((forall x :: x in a ==> IsGood(x)) ==> with == without)
    decreases |a|
  {
    hide Drain, DecodeStep, HeaderLine, Spelled, IsWellSpelled, IsLine, IsOther, IsGood;
    var all := a + [h] + b;
    FrontOfEncoded(all, rest);
    assert all[0] in all;
    EncodedConcat(a + [h], b);
    EncodedConcat(a, [h]);
    EncodedConcat(a, b);
    if a == [] {
      assert all == [h] + b && a + b == b;
      HeaderInFront(parse, used, inForce, h, b, rest);
    } else {
      var x, more := a[0], a[1..];
      assert all[0] == x && all[1..] == more + [h] + b && (a + b)[0] == x && (a + b)[1..] == more + b;
      FrontOfEncoded(a + b, rest);
      HeaderMeans(x, inForce);
      DrainHeader(parse, used, inForce, x, Encoded(more + [h] + b) + (CRLF + rest));
      DrainHeader(parse, used, inForce, x, Encoded(more + b) + (CRLF + rest));
      FitsLess(all, more + [h] + b);
      var next := HeaderLine(Spelled(x), inForce);
      if next.Ok? {
        InsertedHeader(parse, used + |Spelled(x)| + 2, next.value, more, h, b, rest);
      } else {
        BadIsNotGood(x, inForce);
      }
    }
  }

  lemma HeaderInFront<V>(parse: bytes -> Option<V>, used: nat, inForce: Option<nat>, h: Header, b: seq<Header>,
                         rest: bytes)
    requires Fits([h] + b) && used + |Encoded([h] + b)| + 2 <= 16384 && IsOther(h)
    ensures Drain(parse, Headers(used, inForce), Encoded([h] + b) + (CRLF + rest))
         == Drain(parse, Headers(used, inForce), Encoded(b) + (CRLF + rest))
  {
    hide Drain, DecodeStep, HeaderLine, Spelled, IsWellSpelled, IsLine, IsOther;
    var all := [h] + b;
    FrontOfEncoded(all, rest);
    assert all[0] == h && all[0] in all && all[1..] == b;
    HeaderMeans(h, inForce);
    DrainHeader(parse, used, inForce, h, Encoded(b) + (CRLF + rest));
    FitsLess(all, b);
    UsedDoesNotMatter(parse, b, used + |Spelled(h)| + 2, used, inForce, rest);
  }

  lemma BadIsNotGood(h: Header, inForce: Option<nat>)
    requires IsWellSpelled(h) && HeaderLine(Spelled(h), inForce).Err?
    ensures !IsGood(h)
  {
    HeaderMeans(h, inForce);
  }

  lemma FitsLess(hs: seq<Header>, tail: seq<Header>)
    requires Fits(hs) && |hs| > 0 && tail == hs[1..]
    ensures Fits(tail)
  {
    hide IsLine, Spelled, IsWellSpelled;
    forall h | h in tail ensures h in hs {
    }
  }

  /**
   A header that is not about the length, wherever it stands in a section within the caps, does not
   change what comes out: neither the events nor the error, nor, if no length before it is bad,
   anything at all.
   */
  lemma OtherHeadersDoNotMatter<V>(parse: bytes -> Option<V>, a: seq<Header>, h: Header, b: seq<Header>, rest: bytes)
    requires Fits(a + [h] + b) && IsOther(h)
    ensures var with := Drain(parse, START, Encoded(a + [h] + b) + "\r\n" + rest);
            var without := Drain(parse, START, Encoded(a + b) + "\r\n" + rest);
            YieldsTheSame(with, without) && ((forall x :: x in a ==> IsGood(x)) ==> with == without)
  {
    hide Drain, Encoded, IsOther, IsGood, YieldsTheSame;
    InsertedHeader(parse, 0, None, a, h, b, rest);
    assert Encoded(a + [h] + b) + CRLF + rest == Encoded(a + [h] + b) + (CRLF + rest);
    assert Encoded(a + b) + CRLF + rest == Encoded(a + b) + (CRLF + rest);
  }

  // ---------------------------------------------------------------- the length

  /** The length in force behind good headers. */
  function LengthBehind(hs: seq<Header>, inForce: Option<nat>): Option<nat>
    requires forall h :: h in hs ==> IsGood(h)
    decreases |hs|
  {
    if hs == [] then inForce
    else
      var n := |hs| - 1;
      assert hs[n] in hs && IsGood(hs[n]);
      if IsOther(hs[n]) then LengthBehind(hs[..n], inForce) else Some(LengthOf(hs[n]))
  }

  /** Negative lengths count as zero. */
  function LengthOf(h: Header): nat
    requires !IsOther(h) && IsLength(h.value)
  {
    if IntegerValue(h.value) < 0 then 0 else IntegerValue(h.value)
  }

  lemma {:induction false} LengthAfterGood(hs: seq<Header>, inForce: Option<nat>)
    requires forall h :: h in hs ==> IsGood(h) && IsWellSpelled(h)
    ensures LengthAfter(Lines(hs), inForce) == Ok(LengthBehind(hs, inForce))
    decreases |hs|
  {
    hide IsGood, IsWellSpelled, HeaderLine, IntegerValue, Spelled;
    if hs != [] {
      var n := |hs| - 1;
      assert hs[n] in hs;
      LengthAfterGood(hs[..n], inForce);
      assert Lines(hs) == Lines(hs[..n]) + [Spelled(hs[n])];
      LengthAfterOneMore(Lines(hs[..n]), Spelled(hs[n]), inForce);
      HeaderMeans(hs[n], LengthBehind(hs[..n], inForce));
      GoodIsLength(hs[n]);
    }
  }

  lemma GoodIsLength(h: Header)
    requires IsGood(h)
    ensures !IsOther(h) ==> IsLength(h.value)
  {
  }

  lemma {:induction false} LengthAfterOneMore(lines: seq<bytes>, line: bytes, inForce: Option<nat>)
    ensures var front := LengthAfter(lines, inForce);
            LengthAfter(lines + [line], inForce) == if front.Err? then front else HeaderLine(line, front.value)
  {
    hide HeaderLine;
    if lines == [] {
      assert [line][1..] == [];
    } else {
      assert (lines + [line])[1..] == lines[1..] + [line];
      var next := HeaderLine(lines[0], inForce);
      if next.Ok? {
        LengthAfterOneMore(lines[1..], line, next.value);
      }
    }
  }

  /** Good headers leave a length and nothing else. */
  lemma DrainGood<V>(parse: bytes -> Option<V>, hs: seq<Header>, rest: bytes)
    requires Fits(hs) && forall h :: h in hs ==> IsGood(h)
    ensures Drain(parse, START, Encoded(hs) + rest)
         == Drain(parse, Headers(|Encoded(hs)|, LengthBehind(hs, None)), rest)
  {
    hide Drain, IsGood, LengthAfter, LengthBehind, IsLine, Spelled;
    FittingLines(hs);
    EncodedIsLines(hs);
    LengthAfterGood(hs, None);
    DrainLines(parse, START, Lines(hs), rest);
  }

  /** What follows the header section. */
  function AfterSection<V>(parse: bytes -> Option<V>, length: Option<int>, rest: bytes): Outcome<V> {
    if length.None? || length.value <= 0 then Drain(parse, START, rest)
    else if length.value > 67108864 then Outcome([], Some(BodyTooLarge), Poisoned(BodyTooLarge), rest)
    else if |rest| < length.value then Outcome([], None, Body(length.value), rest)
    else
      var o := Drain(parse, START, rest[length.value..]);
      o.(events := [EventOf(parse(rest[..length.value]))] + o.events)
  }

  lemma DrainGoodSection<V>(parse: bytes -> Option<V>, hs: seq<Header>, length: Option<int>, rest: bytes)
    requires Fits(hs) && forall h :: h in hs ==> IsGood(h)
    requires var n := LengthBehind(hs, None);
             if length.None? then n.None? else n == Some(if length.value < 0 then 0 else length.value)
    ensures Drain(parse, START, Encoded(hs) + "\r\n" + rest) == AfterSection(parse, length, rest)
  {
    hide Drain, IsGood, LengthBehind, DecodeStep;
    DrainGood(parse, hs, CRLF + rest);
    assert Encoded(hs) + CRLF + rest == Encoded(hs) + (CRLF + rest);
    BlankLine(parse, |Encoded(hs)|, LengthBehind(hs, None), rest);
    if length.Some? && 0 < length.value <= 67108864 {
      BodyFollows(parse, length.value, rest);
    }
  }

  lemma BodyFollows<V>(parse: bytes -> Option<V>, n: nat, rest: bytes)
    requires 1 <= n <= 67108864
    ensures Drain(parse, Body(n), rest) == AfterSection(parse, Some(n), rest)
  {
    hide Drain;
    DrainByStep(parse, Body(n), rest);
  }

  /**
   Of several lengths the last one counts, whatever else stands in the section: that many bytes are
   one body; none follow if it is not positive, and more than 64 MiB end the stream.
   */
  lemma LastLengthCounts<V>(parse: bytes -> Option<V>, before: seq<Header>, length: Header, after: seq<Header>,
                            rest: bytes)
    requires Fits(before + [length] + after) && (forall h :: h in before ==> IsGood(h))
    requires !IsOther(length) && IsLength(length.value) && forall h :: h in after ==> IsOther(h)
    ensures Drain(parse, START, Encoded(before + [length] + after) + "\r\n" + rest)
         == AfterSection(parse, Some(IntegerValue(length.value)), rest)
  {
    var n := IntegerValue(length.value);
    hide Drain, IsOther, IsLength, IntegerValue, AfterSection, Fits, Encoded;
    var hs := before + [length] + after;
    forall h | h in hs ensures IsGood(h) {
    }
    LastIsBehind(before, length, after);
    DrainGoodSection(parse, hs, Some(n), rest);
  }

  lemma {:induction false} LastIsBehind(before: seq<Header>, length: Header, after: seq<Header>)
    requires forall h :: h in before + [length] + after ==> IsGood(h)
    requires !IsOther(length) && IsLength(length.value) && forall h :: h in after ==> IsOther(h)
    ensures LengthBehind(before + [length] + after, None)
         == Some(if IntegerValue(length.value) < 0 then 0 else IntegerValue(length.value))
    decreases |after|
  {
    hide IsOther, IsLength, IsGood, IntegerValue;
    var hs, n := before + [length] + after, |before| + |after|;
    if after == [] {
      assert hs[n] == length;
    } else {
      var m := |after| - 1;
      assert hs[n] == after[m] && hs[..n] == before + [length] + after[..m];
      LastIsBehind(before, length, after[..m]);
    }
  }

  /** A section without a length is skipped. */
  lemma NoLengthIsSkipped<V>(parse: bytes -> Option<V>, hs: seq<Header>, rest: bytes)
    requires Fits(hs) && forall h :: h in hs ==> IsOther(h)
    ensures Drain(parse, START, Encoded(hs) + "\r\n" + rest) == Drain(parse, START, rest)
  {
    hide Drain, IsOther, Fits, Encoded;
    forall h | h in hs ensures IsGood(h) {
    }
    NothingBehind(hs);
    DrainGoodSection(parse, hs, None, rest);
  }

  lemma {:induction false} NothingBehind(hs: seq<Header>)
    requires forall h :: h in hs ==> IsGood(h) && IsOther(h)
    ensures LengthBehind(hs, None) == None
    decreases |hs|
  {
    if hs != [] {
      assert hs[|hs| - 1] in hs;
      NothingBehind(hs[..|hs| - 1]);
    }
  }

  // ---------------------------------------------------------------- errors

  /**
   A header whose key is `content-length` and whose value is no 64-bit integer - no digits, other
   characters, or too large - ends the stream where it stands.
   */
  lemma BadLengthIsFatal<V>(parse: bytes -> Option<V>, before: seq<Header>, bad: Header, rest: bytes)
    requires Fits(before + [bad]) && (forall h :: h in before ==> IsGood(h))
    requires !IsOther(bad) && !IsLength(bad.value)
    ensures FailsWith(Drain(parse, START, Encoded(before + [bad]) + rest), InvalidContentLength)
  {
    var inForce, used, tail := LengthBehind(before, None), |Encoded(before)|, Spelled(bad) + CRLF + rest;
    FitsFront(before, bad);
    SplitOff(before, bad, rest);
    FitsLast(before, bad);
    hide *;
    DrainGood(parse, before, tail);
    DrainHeader(parse, used, inForce, bad, rest);
    HeaderMeans(bad, inForce);
    Failing(parse, rest, InvalidContentLength, HeaderLine(Spelled(bad), inForce));
  }

  lemma Failing<V>(parse: bytes -> Option<V>, rest: bytes, e: DecodeError, next: Result<Option<nat>, DecodeError>)
    requires next == Err(e)
    ensures FailsWith<V>(Outcome([], Some(next.error), Poisoned(next.error), rest), e)
  {
  }

  lemma SplitOff(before: seq<Header>, h: Header, rest: bytes)
    ensures Encoded(before + [h]) + rest == Encoded(before) + (Spelled(h) + CRLF + rest)
    ensures |Encoded(before + [h])| == |Encoded(before)| + |Spelled(h)| + 2
  {
    EncodedConcat(before, [h]);
    EncodedOne(h);
    hide Encoded, Spelled;
    assert Encoded(before) + (Spelled(h) + CRLF) + rest == Encoded(before) + (Spelled(h) + CRLF + rest);
  }

  lemma FitsLast(before: seq<Header>, h: Header)
    requires Fits(before + [h])
    ensures IsWellSpelled(h) && IsLine(Spelled(h)) && |Spelled(h)| + 2 <= 4096
    ensures |Encoded(before + [h])| + 2 <= 16384
  {
    assert h in before + [h];
  }

  lemma FitsFront(before: seq<Header>, h: Header)
    requires Fits(before + [h])
    ensures Fits(before)
  {
    hide IsLine, Spelled, IsWellSpelled;
    EncodedConcat(before, [h]);
    forall x | x in before ensures x in before + [h] {
    }
  }

  lemma EncodedOne(h: Header)
    ensures Encoded([h]) == Spelled(h) + CRLF
  {
    assert [h][1..] == [];
  }

  /** A line that breaks a cap ends the stream: 4096 bytes for a line, 16384 for the section. */
  lemma CapsAreFatal<V>(parse: bytes -> Option<V>, before: seq<Header>, line: bytes, rest: bytes)
    requires Fits(before) && (forall h :: h in before ==> IsGood(h))
    requires line == [] || IsLine(line)
    ensures var o := Drain(parse, START, Encoded(before) + line + "\r\n" + rest);
            && (|line| + 2 > 4096 ==> FailsWith(o, HeaderLineTooLong))
            && (|line| + 2 <= 4096 && |Encoded(before)| + |line| + 2 > 16384 ==> FailsWith(o, HeadersTooLarge))
  {
    hide Drain, DecodeStep, IsGood, LengthBehind, IsLine, HeaderLine, Fits;
    var used, inForce, tail := |Encoded(before)|, LengthBehind(before, None), line + CRLF + rest;
    assert used <= 16384 by { FittingSize(before); }
    assert Encoded(before) + line + CRLF + rest == Encoded(before) + tail;
    DrainGood(parse, before, tail);
    StepOverLine(parse, Headers(used, inForce), line, rest);
    DrainByStep(parse, Headers(used, inForce), tail);
  }

  lemma FittingSize(hs: seq<Header>)
    requires Fits(hs)
    ensures |Encoded(hs)| <= 16384
  {
  }

  /** A line without its terminator is waited for up to 4096 bytes. */
  lemma PartialLineWaits<V>(parse: bytes -> Option<V>, before: seq<Header>, part: bytes)
    requires Fits(before) && (forall h :: h in before ==> IsGood(h))
    requires forall i: nat :: !CrlfAt(part, i)
    ensures var o := Drain(parse, START, Encoded(before) + part);
            if |part| > 4096 then FailsWith(o, HeaderLineTooLong)
            else o == Outcome([], None, Headers(|Encoded(before)|, LengthBehind(before, None)), part)
  {
    hide Drain, IsGood, LengthBehind, IsLine, HeaderLine, Fits, Encoded;
    FittingSize(before);
    DrainGood(parse, before, part);
    DrainByStep(parse, Headers(|Encoded(before)|, LengthBehind(before, None)), part);
  }

  // ---------------------------------------------------------------- round trip

  /** A body with its length among other headers. */
  datatype Dressed = Dressed(before: seq<Header>, length: Header, after: seq<Header>, body: bytes)

  ghost predicate IsDressed(d: Dressed) {
    && Fits(d.before + [d.length] + d.after) && (forall h :: h in d.before ==> IsGood(h))
    && !IsOther(d.length) && IsLength(d.length.value) && IntegerValue(d.length.value) == |d.body|
    && (forall h :: h in d.after ==> IsOther(h)) && 1 <= |d.body| <= 67108864
  }

  function EncodedDressed(d: Dressed): bytes {
    Encoded(d.before + [d.length] + d.after) + "\r\n" + d.body
  }

  function EncodedAll(ds: seq<Dressed>): bytes {
    if ds == [] then [] else EncodedDressed(ds[0]) + EncodedAll(ds[1..])
  }

  /** One event for each body, in order. */
  function EventsOfAll<V>(parse: bytes -> Option<V>, ds: seq<Dressed>): (events: seq<DecodeEvent<V>>)
    ensures |events| == |ds|
    ensures forall i :: 0 <= i < |ds| ==>
      events[i] == if parse(ds[i].body).Some? then Frame(parse(ds[i].body).value) else MalformedFrame
  {
    if ds == [] then [] else [EventOf(parse(ds[0].body))] + EventsOfAll(parse, ds[1..])
  }

  /**
   However the peer dresses its lengths - among other headers, in any case, with white space, signs
   or leading zeros, or repeated - each body comes out once, in order, and nothing is left over.
   */
  lemma {:induction false} DressedRoundTrip<V>(parse: bytes -> Option<V>, ds: seq<Dressed>)
    requires forall d :: d in ds ==> IsDressed(d)
    ensures Drain(parse, START, EncodedAll(ds)) == Outcome(EventsOfAll(parse, ds), None, START, [])
  {
    hide Drain, IsOther, IsGood, Encoded, IntegerValue, IsLength, Fits;
    if ds == [] {
      DrainNothing(parse);
    } else {
      var d, more := ds[0], EncodedAll(ds[1..]);
      assert d in ds;
      DressedRoundTrip(parse, ds[1..]);
      LastLengthCounts(parse, d.before, d.length, d.after, d.body + more);
      assert EncodedAll(ds) == Encoded(d.before + [d.length] + d.after) + "\r\n" + (d.body + more);
      assert (d.body + more)[..|d.body|] == d.body && (d.body + more)[|d.body|..] == more;
    }
  }

  /** And that in whatever chunks the bytes arrive. */
  lemma DressedRoundTripInChunks<V>(parse: bytes -> Option<V>, ds: seq<Dressed>, chunks: seq<bytes>)
    requires (forall d :: d in ds ==> IsDressed(d)) && Flatten(chunks) == EncodedAll(ds)
    ensures DrainChunks(parse, START, [], chunks) == Outcome(EventsOfAll(parse, ds), None, START, [])
  {
    hide Drain, DrainChunks, IsDressed;
    DressedRoundTrip(parse, ds);
    ChunkingInvariance(parse, START, [], chunks);
    assert [] + Flatten(chunks) == Flatten(chunks);
  }
}
