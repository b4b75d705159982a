/**
 The token windows of `quote!` (`patches/quote/src/lib.rs`): seven shifted rows of tokens are
 transposed, and every token is treated by the first rule that fits the token and its three
 neighbours on either side. The result is what a left-to-right muncher produces.
 */
module Windows {

  import opened Wrappers

  type Span = int

  datatype Delimiter = Parenthesis | Bracket | Brace

  /** Trees of an output stream. A joint leaf is the first part of a longer symbol. */
  datatype Tree =
    | Leaf(text: string, joint: bool, span: Span)
    | Branch(delimiter: Delimiter, stream: seq<Tree>, span: Span)

  /** Token trees a macro is invoked with. `Other` is a token that is pushed by parsing its text. */
  datatype Token =
    | Ident(name: string)
    | Punct(text: string)
    | Lifetime(name: string)
    | Other(parsed: seq<Tree>)
    | Group(delimiter: Delimiter, inner: seq<Token>)

  /** What an expansion does. */
  datatype Op =
    | Push(token: Token)
    | Interpolate(name: string)
    | Repeat(inner: seq<Token>, separator: Option<Token>)

  const PAD := Punct("@")
  const POUND := Punct("#")
  const STAR := Punct("*")

  /** The middle row: only tokens of the input are parenthesized. */
  datatype Current = Bare(token: Token) | Wrapped(token: Token)

  predicate IsRepeatable(t: Token) {
    t.Group? && t.delimiter == Parenthesis
  }

  // ---------------------------------------------------------------- the rules

  /** `quote_token_with_context`, rule by rule in the order they are written. */
  function TokenWithContext(b3: Token, b2: Token, b1: Token, curr: Current, a1: Token, a2: Token, a3: Token): seq<Op> {
    if curr.Bare? then []
    else if curr.token == POUND && IsRepeatable(a1) && a2 == STAR then [Repeat(a1.inner, None)]
    else if b1 == POUND && IsRepeatable(curr.token) && a1 == STAR then []
    else if b2 == POUND && IsRepeatable(b1) && curr.token == STAR then []
    else if curr.token == POUND && IsRepeatable(a1) && a3 == STAR then [Repeat(a1.inner, Some(a2))]
    else if b1 == POUND && IsRepeatable(curr.token) && a2 == STAR then []
    else if b2 == POUND && IsRepeatable(b1) && a1 == STAR then []
    else if b3 == POUND && IsRepeatable(b2) && b1 == STAR && curr.token == STAR then [Push(STAR)]
    else if b3 == POUND && IsRepeatable(b2) && curr.token == STAR then []
    else if curr.token == POUND && a1.Ident? then [Interpolate(a1.name)]
    else if b1 == POUND && curr.token.Ident? then []
    else [Push(curr.token)]
  }

  function Pads(n: nat): (p: seq<Token>)
    ensures |p| == n
  {
    seq(n, _ => PAD)
  }

  function Middle(ts: seq<Token>): seq<Current> {
    seq(3, _ => Bare(PAD)) + seq(|ts|, i requires 0 <= i < |ts| => Wrapped(ts[i])) + seq(3, _ => Bare(PAD))
  }

  /** `quote_tokens_with_context`: the rows, transposed from column `k` on. */
  function TokensWithContext(b3: seq<Token>, b2: seq<Token>, b1: seq<Token>, curr: seq<Current>,
                             a1: seq<Token>, a2: seq<Token>, a3: seq<Token>, k: nat): seq<Op>
    requires k <= |curr| == |b3| == |b2| == |b1| == |a1| == |a2| == |a3|
    decreases |curr| - k
  {
    if k == |curr| then []
    else
      TokenWithContext(b3[k], b2[k], b1[k], curr[k], a1[k], a2[k], a3[k])
      + TokensWithContext(b3, b2, b1, curr, a1, a2, a3, k + 1)
  }

  /** `quote_each_token`. */
  function EachToken(ts: seq<Token>): seq<Op> {
    TokensWithContext(
      Pads(6) + ts,
      Pads(5) + ts + Pads(1),
      Pads(4) + ts + Pads(2),
      Middle(ts),
      Pads(2) + ts + Pads(4),
      Pads(1) + ts + Pads(5),
      ts + Pads(6), 0)
  }

  // ---------------------------------------------------------------- the muncher

  predicate StartsRepeat(ts: seq<Token>) {
    |ts| >= 3 && ts[0] == POUND && IsRepeatable(ts[1]) && ts[2] == STAR
  }

  predicate StartsSeparated(ts: seq<Token>) {
    !StartsRepeat(ts) && |ts| >= 4 && ts[0] == POUND && IsRepeatable(ts[1]) && ts[3] == STAR
  }

  predicate StartsVar(ts: seq<Token>) {
    |ts| >= 2 && ts[0] == POUND && ts[1].Ident?
  }

  /** An interpolation at the front is consumed whole, any other token is pushed. */
  function Munch(ts: seq<Token>): seq<Op> {
    if ts == [] then []
    else if StartsRepeat(ts) then [Repeat(ts[1].inner, None)] + Munch(ts[3..])
    else if StartsSeparated(ts) then [Repeat(ts[1].inner, Some(ts[2]))] + Munch(ts[4..])
    else if StartsVar(ts) then [Interpolate(ts[1].name)] + Munch(ts[2..])
    else [Push(ts[0])] + Munch(ts[1..])
  }

  // ---------------------------------------------------------------- windows by position

  function At(ts: seq<Token>, i: int): Token {
    if 0 <= i < |ts| then ts[i] else PAD
  }

  /** The rule that fits at position `i`. */
  function OpAt(ts: seq<Token>, i: nat): seq<Op>
    requires i < |ts|
  {
    TokenWithContext(At(ts, i - 3), At(ts, i - 2), At(ts, i - 1), Wrapped(ts[i]), At(ts, i + 1), At(ts, i + 2),
        At(ts, i + 3))
  }

  function OpsFrom(ts: seq<Token>, i: nat): seq<Op>
    requires i <= |ts|
    decreases |ts| - i
  {
    if i == |ts| then [] else OpAt(ts, i) + OpsFrom(ts, i + 1)
  }

  /** The columns of the transposed rows are the windows of the tokens, with three empty ones at either end. */
  lemma {:induction false} ColumnsAreWindows(ts: seq<Token>, k: nat)
    requires k <= |ts| + 6
    ensures TokensWithContext(Pads(6) + ts, Pads(5) + ts + Pads(1), Pads(4) + ts + Pads(2), Middle(ts),
                              Pads(2) + ts + Pads(4), Pads(1) + ts + Pads(5), ts + Pads(6), k)
            == if k < 3 then OpsFrom(ts, 0) else if k <= |ts| + 3 then OpsFrom(ts, k - 3) else []
    decreases |ts| + 6 - k
  {
    hide TokenWithContext;
    if k < |ts| + 6 {
      ColumnsAreWindows(ts, k + 1);
      BarePads(ts, k);
    }
  }

  lemma BarePads(ts: seq<Token>, k: nat)
    requires k < |ts| + 6
    ensures var b3, b2, b1 := Pads(6) + ts, Pads(5) + ts + Pads(1), Pads(4) + ts + Pads(2);
            var a1, a2, a3 := Pads(2) + ts + Pads(4), Pads(1) + ts + Pads(5), ts + Pads(6);
            var ops := TokenWithContext(b3[k], b2[k], b1[k], Middle(ts)[k], a1[k], a2[k], a3[k]);
            if 3 <= k < |ts| + 3 then ops == OpAt(ts, k - 3) else ops == []
  {
    if 3 <= k < |ts| + 3 {
      hide TokenWithContext;
    }
  }

  // ---------------------------------------------------------------- windows and muncher

  /** The three tokens before position `i` do not reach over it. */
  predicate Boundary(ts: seq<Token>, i: nat)
    requires i < |ts|
  {
    && !(At(ts, i - 1) == POUND && IsRepeatable(ts[i]) && (At(ts, i + 1) == STAR || At(ts, i + 2) == STAR))
    && !(At(ts, i - 1) == POUND && ts[i].Ident?)
    && !(At(ts, i - 2) == POUND && IsRepeatable(At(ts, i - 1)) && (ts[i] == STAR || At(ts, i + 1) == STAR))
    && !(At(ts, i - 3) == POUND && IsRepeatable(At(ts, i - 2)) && At(ts, i - 1) != STAR && ts[i] == STAR)
  }

  /** How many tokens the muncher takes off the front. */
  function Consumed(ts: seq<Token>): (n: nat)
    requires ts != []
    ensures 1 <= n <= |ts|
  {
    if StartsRepeat(ts) then 3 else if StartsSeparated(ts) then 4 else if StartsVar(ts) then 2 else 1
  }

  /** Behind what the muncher took, nothing reaches over the next token. */
  lemma NextBoundary(ts: seq<Token>, i: nat)
    requires i < |ts| && Boundary(ts, i)
    ensures var j := i + Consumed(ts[i..]); j < |ts| ==> Boundary(ts, j)
  {
  }

  /** At a boundary the window does what the muncher does, and nothing in the rest of what it took. */
  lemma OpsOfStep(ts: seq<Token>, i: nat)
    requires i < |ts| && Boundary(ts, i)
    ensures var rest := ts[i..];
            OpAt(ts, i) == if StartsRepeat(rest) then [Repeat(rest[1].inner, None)]
                           else if StartsSeparated(rest) then [Repeat(rest[1].inner, Some(rest[2]))]
                           else if StartsVar(rest) then [Interpolate(rest[1].name)]
                           else [Push(rest[0])]
    ensures forall j :: i < j < i + Consumed(ts[i..]) ==> OpAt(ts, j) == []
  {
  }

  lemma {:induction false} SkipSilent(ts: seq<Token>, i: nat, j: nat)
    requires i <= j <= |ts| && forall k :: i <= k < j ==> OpAt(ts, k) == []
    ensures OpsFrom(ts, i) == OpsFrom(ts, j)
    decreases j - i
  {
    if i < j {
      SkipSilent(ts, i + 1, j);
    }
  }

  lemma MunchStep(ts: seq<Token>, op: seq<Op>)
    requires ts != []
    requires op == if StartsRepeat(ts) then [Repeat(ts[1].inner, None)]
                   else if StartsSeparated(ts) then [Repeat(ts[1].inner, Some(ts[2]))]
                   else if StartsVar(ts) then [Interpolate(ts[1].name)]
                   else [Push(ts[0])]
    ensures Munch(ts) == op + Munch(ts[Consumed(ts)..])
  {
  }

  lemma {:induction false} WindowsFromBoundary(ts: seq<Token>, i: nat)
    requires i <= |ts| && (i < |ts| ==> Boundary(ts, i))
    ensures OpsFrom(ts, i) == Munch(ts[i..])
    decreases |ts| - i
  {
    hide TokenWithContext, OpAt, Boundary, Munch, At;
    if i < |ts| {
      var n := Consumed(ts[i..]);
      OpsOfStep(ts, i);
      MunchStep(ts[i..], OpAt(ts, i));
      NextBoundary(ts, i);
      hide Consumed, StartsRepeat, StartsSeparated, StartsVar;
      SkipSilent(ts, i + 1, i + n);
      WindowsFromBoundary(ts, i + n);
      assert ts[i..][n..] == ts[i + n..];
    } else {
      MunchNothing(ts[i..]);
    }
  }

  lemma MunchNothing(ts: seq<Token>)
    requires ts == []
    ensures Munch(ts) == []
  {
  }

  /** The window expansion of every token sequence is the muncher's. */
  lemma WindowsAreMuncher(ts: seq<Token>)
    ensures EachToken(ts) == Munch(ts)
  {
    ColumnsAreWindows(ts, 0);
    WindowsFromBoundary(ts, 0);
    assert ts[0..] == ts;
  }
}
