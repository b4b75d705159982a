/**
 `quote_spanned!` (`patches/quote/src/lib.rs`): its own rules, arms and pushes, written out beside
 those of `quote!`. The two expansions differ in the span that is handed on and in nothing else,
 so the trees are the same once spans are erased, every quoted token carries the given span, and
 interpolated tokens keep theirs.
 */
module Spanned {

  import opened Wrappers
  import opened Windows
  import opened Expansion
  import opened Repetition
  import opened Spans

  // ---------------------------------------------------------------- the rules

  /** What a spanned expansion does; everything but an interpolation is handed the span. */
  datatype SpannedOp =
    | PushWith(token: Token, span: Span)
    | InterpolateValue(name: string)
    | RepeatWith(inner: seq<Token>, separator: Option<Token>, span: Span)

  /** `quote_token_with_context_spanned`, rule by rule in the order they are written. */
  function TokenWithContextSpanned(span: Span, b3: Token, b2: Token, b1: Token, curr: Current,
                                   a1: Token, a2: Token, a3: Token): seq<SpannedOp> {
    if curr.Bare? then []
    else if curr.token == POUND && IsRepeatable(a1) && a2 == STAR then [RepeatWith(a1.inner, None, span)]
    else if b1 == POUND && IsRepeatable(curr.token) && a1 == STAR then []
    else if b2 == POUND && IsRepeatable(b1) && curr.token == STAR then []
    else if curr.token == POUND && IsRepeatable(a1) && a3 == STAR then [RepeatWith(a1.inner, Some(a2), span)]
    else if b1 == POUND && IsRepeatable(curr.token) && a2 == STAR then []
    else if b2 == POUND && IsRepeatable(b1) && a1 == STAR then []
    else if b3 == POUND && IsRepeatable(b2) && b1 == STAR && curr.token == STAR then [PushWith(STAR, span)]
    else if b3 == POUND && IsRepeatable(b2) && curr.token == STAR then []
    else if curr.token == POUND && a1.Ident? then [InterpolateValue(a1.name)]
    else if b1 == POUND && curr.token.Ident? then []
    else [PushWith(curr.token, span)]
  }

  /** `quote_tokens_with_context_spanned`, from column `k` on. */
  function TokensWithContextSpanned(span: Span, b3: seq<Token>, b2: seq<Token>, b1: seq<Token>, curr: seq<Current>,
                                    a1: seq<Token>, a2: seq<Token>, a3: seq<Token>, k: nat): seq<SpannedOp>
    requires k <= |curr| == |b3| == |b2| == |b1| == |a1| == |a2| == |a3|
    decreases |curr| - k
  {
    if k == |curr| then []
    else
      TokenWithContextSpanned(span, b3[k], b2[k], b1[k], curr[k], a1[k], a2[k], a3[k])
      + TokensWithContextSpanned(span, b3, b2, b1, curr, a1, a2, a3, k + 1)
  }

  /** `quote_each_token_spanned`. */
  function EachTokenSpanned(span: Span, ts: seq<Token>): seq<SpannedOp> {
    TokensWithContextSpanned(span,
      Pads(6) + ts,
      Pads(5) + ts + Pads(1),
      Pads(4) + ts + Pads(2),
      Middle(ts),
      Pads(2) + ts + Pads(4),
      Pads(1) + ts + Pads(5),
      ts + Pads(6), 0)
  }

  // ---------------------------------------------------------------- the same operations

  function OpWith(op: Op, span: Span): SpannedOp {
    match op
    case Push(token) => PushWith(token, span)
    case Interpolate(name) => InterpolateValue(name)
    case Repeat(inner, separator) => RepeatWith(inner, separator, span)
  }

  function OpsWith(ops: seq<Op>, span: Span): (r: seq<SpannedOp>)
    ensures |r| == |ops| && forall i :: 0 <= i < |ops| ==> r[i] == OpWith(ops[i], span)
  {
    if ops == [] then [] else [OpWith(ops[0], span)] + OpsWith(ops[1..], span)
  }

  lemma OpsWithConcat(a: seq<Op>, b: seq<Op>, span: Span)
    ensures OpsWith(a + b, span) == OpsWith(a, span) + OpsWith(b, span)
  {
  }

  lemma SameRules(span: Span, b3: Token, b2: Token, b1: Token, curr: Current, a1: Token, a2: Token, a3: Token)
    ensures TokenWithContextSpanned(span, b3, b2, b1, curr, a1, a2, a3)
         == OpsWith(TokenWithContext(b3, b2, b1, curr, a1, a2, a3), span)
  {
  }

  lemma {:induction false} SameColumns(span: Span, b3: seq<Token>, b2: seq<Token>, b1: seq<Token>, curr: seq<Current>,
                                       a1: seq<Token>, a2: seq<Token>, a3: seq<Token>, k: nat)
    requires k <= |curr| == |b3| == |b2| == |b1| == |a1| == |a2| == |a3|
    ensures TokensWithContextSpanned(span, b3, b2, b1, curr, a1, a2, a3, k)
         == OpsWith(TokensWithContext(b3, b2, b1, curr, a1, a2, a3, k), span)
    decreases |curr| - k
  {
    hide TokenWithContext, TokenWithContextSpanned, OpsWith;
    if k < |curr| {
      SameRules(span, b3[k], b2[k], b1[k], curr[k], a1[k], a2[k], a3[k]);
      SameColumns(span, b3, b2, b1, curr, a1, a2, a3, k + 1);
      OpsWithConcat(TokenWithContext(b3[k], b2[k], b1[k], curr[k], a1[k], a2[k], a3[k]),
                    TokensWithContext(b3, b2, b1, curr, a1, a2, a3, k + 1), span);
    }
  }

  /** The two rule tables do the same to every token sequence, up to the span. */
  lemma SameOperations(span: Span, ts: seq<Token>)
    ensures EachTokenSpanned(span, ts) == OpsWith(EachToken(ts), span)
  {
    SameColumns(span, Pads(6) + ts, Pads(5) + ts + Pads(1), Pads(4) + ts + Pads(2), Middle(ts),
                Pads(2) + ts + Pads(4), Pads(1) + ts + Pads(5), ts + Pads(6), 0);
  }

  // ---------------------------------------------------------------- the macros

  /** The code of a spanned invocation. */
  datatype SpannedStmt =
    | LeafWith(token: Token, span: Span)
    | GroupWith(span: Span, delimiter: Delimiter, body: seq<SpannedStmt>)
    | ValueToTokens(name: string)
    | LoopWith(names: seq<string>, separator: seq<SpannedStmt>, body: seq<SpannedStmt>)

  function SpannedOpSize(op: SpannedOp): nat {
    match op
    case PushWith(t, _) => TokenSize(t)
    case InterpolateValue(_) => 1
    case RepeatWith(inner, separator, _) =>
      1 + Size(inner) + (if separator.Some? then TokenSize(separator.value) else 0)
  }

  function SpannedOpsSize(ops: seq<SpannedOp>): nat {
    if ops == [] then 0 else SpannedOpSize(ops[0]) + SpannedOpsSize(ops[1..])
  }

  lemma SpannedOpSizeIsPositive(op: SpannedOp)
    ensures SpannedOpSize(op) > 0
  {
  }

  lemma {:induction false} SizeWithSpan(ops: seq<Op>, span: Span)
    ensures SpannedOpsSize(OpsWith(ops, span)) == OpsSize(ops)
  {
    if ops != [] {
      SizeWithSpan(ops[1..], span);
      assert OpsWith(ops, span)[1..] == OpsWith(ops[1..], span);
    }
  }

  lemma EachTokenSpannedSize(span: Span, ts: seq<Token>)
    ensures SpannedOpsSize(EachTokenSpanned(span, ts)) <= Size(ts)
  {
    SameOperations(span, ts);
    SizeWithSpan(EachToken(ts), span);
    EachTokenSize(ts);
  }

  /** `quote_token_spanned`. */
  function QuoteTokenSpanned(span: Span, t: Token): seq<SpannedStmt>
    decreases TokenSize(t), 0
  {
    if t.Group? then [GroupWith(span, t.delimiter, QuoteSpanned(span, t.inner))] else [LeafWith(t, span)]
  }

  function ExpandSpannedOp(op: SpannedOp): seq<SpannedStmt>
    decreases SpannedOpSize(op), 1
  {
    match op
    case PushWith(t, span) => QuoteTokenSpanned(span, t)
    case InterpolateValue(name) => [ValueToTokens(name)]
    case RepeatWith(inner, separator, span) =>
      [LoopWith(PoundedNames(inner),
                if separator.Some? then QuoteTokenSpanned(span, separator.value) else [],
                QuoteEachTokenSpanned(span, inner))]
  }

  function ExpandSpannedOps(ops: seq<SpannedOp>): seq<SpannedStmt>
    decreases SpannedOpsSize(ops), 2
  {
    if ops == [] then []
    else SpannedOpSizeIsPositive(ops[0]); ExpandSpannedOp(ops[0]) + ExpandSpannedOps(ops[1..])
  }

  function QuoteEachTokenSpanned(span: Span, ts: seq<Token>): seq<SpannedStmt>
    decreases Size(ts), 3
  {
    EachTokenSpannedSize(span, ts);
    ExpandSpannedOps(EachTokenSpanned(span, ts))
  }

  /** `quote_spanned!`: no token, one token, an interpolation, two tokens, or any other number. */
  function QuoteSpanned(span: Span, ts: seq<Token>): seq<SpannedStmt>
    decreases Size(ts), 4
  {
    if |ts| == 0 then []
    else if |ts| == 1 then QuoteTokenSpanned(span, ts[0])
    else if |ts| == 2 && ts[0] == POUND && ts[1].Ident? then [ValueToTokens(ts[1].name)]
    else if |ts| == 2 then SizeOfFront(ts); QuoteTokenSpanned(span, ts[0]) + QuoteTokenSpanned(span, ts[1])
    else QuoteEachTokenSpanned(span, ts)
  }

  // ---------------------------------------------------------------- the same expansion

  function StmtWith(s: Stmt, span: Span): SpannedStmt {
    match s
    case PushLeaf(t) => LeafWith(t, span)
    case PushGroup(delimiter, body) => GroupWith(span, delimiter, CodeWith(body, span))
    case ToTokens(name) => ValueToTokens(name)
    case Loop(names, separator, body) => LoopWith(names, CodeWith(separator, span), CodeWith(body, span))
  }

  function CodeWith(code: seq<Stmt>, span: Span): seq<SpannedStmt> {
    if code == [] then [] else [StmtWith(code[0], span)] + CodeWith(code[1..], span)
  }

  lemma {:induction false} CodeWithConcat(a: seq<Stmt>, b: seq<Stmt>, span: Span)
    ensures CodeWith(a + b, span) == CodeWith(a, span) + CodeWith(b, span)
  {
    hide StmtWith;
    if a == [] {
      assert a + b == b;
    } else {
      CodeWithConcat(a[1..], b, span);
      assert (a + b)[1..] == a[1..] + b;
    }
  }

  lemma CodeWithOne(s: Stmt, span: Span)
    ensures CodeWith([s], span) == [StmtWith(s, span)]
  {
    assert [s][1..] == [];
  }

  lemma {:induction false} SameToken(span: Span, t: Token)
    ensures QuoteTokenSpanned(span, t) == CodeWith(QuoteToken(t), span)
    decreases TokenSize(t), 0
  {
    hide Quote, QuoteSpanned;
    if t.Group? {
      SameExpansion(span, t.inner);
      CodeWithOne(PushGroup(t.delimiter, Quote(t.inner)), span);
    } else {
      CodeWithOne(PushLeaf(t), span);
    }
  }

  lemma {:induction false} SameOp(span: Span, op: Op)
    ensures ExpandSpannedOp(OpWith(op, span)) == CodeWith(ExpandOp(op), span)
    decreases OpSize(op), 1
  {
    hide QuoteToken, QuoteTokenSpanned, QuoteEachToken, QuoteEachTokenSpanned, PoundedNames;
    match op
    case Push(t) => SameToken(span, t);
    case Interpolate(name) => CodeWithOne(ToTokens(name), span);
    case Repeat(inner, separator) =>
      SameEach(span, inner);
      if separator.Some? {
        SameToken(span, separator.value);
      }
      NoCodeWith(span);
      CodeWithOne(Loop(PoundedNames(inner), if separator.Some? then QuoteToken(separator.value) else [],
                       QuoteEachToken(inner)), span);
  }

  lemma NoCodeWith(span: Span)
    ensures CodeWith([], span) == []
  {
  }

  lemma {:induction false} SameOps(span: Span, ops: seq<Op>)
    ensures ExpandSpannedOps(OpsWith(ops, span)) == CodeWith(ExpandOps(ops), span)
    decreases OpsSize(ops), 2
  {
    hide ExpandOp, ExpandSpannedOp, StmtWith, OpWith;
    if ops != [] {
      OpSizeIsPositive(ops[0]);
      SameOp(span, ops[0]);
      SameOps(span, ops[1..]);
      assert OpsWith(ops, span)[1..] == OpsWith(ops[1..], span);
      CodeWithConcat(ExpandOp(ops[0]), ExpandOps(ops[1..]), span);
    }
  }

  lemma {:induction false} SameEach(span: Span, ts: seq<Token>)
    ensures QuoteEachTokenSpanned(span, ts) == CodeWith(QuoteEachToken(ts), span)
    decreases Size(ts), 3
  {
    EachTokenSize(ts);
    hide ExpandOps, ExpandSpannedOps, EachToken, EachTokenSpanned, OpsWith, CodeWith;
    SameOperations(span, ts);
    SameOps(span, EachToken(ts));
  }

  /** Arm by arm and at every depth, `quote_spanned!` expands to the code of `quote!` with the span handed on. */
  lemma {:induction false} SameExpansion(span: Span, ts: seq<Token>)
    ensures QuoteSpanned(span, ts) == CodeWith(Quote(ts), span)
    decreases Size(ts), 4
  {
    hide QuoteToken, QuoteTokenSpanned, QuoteEachToken, QuoteEachTokenSpanned, StmtWith;
    if |ts| == 1 {
      SizeOfSplit(ts, 1);
      TokenWithin(ts, 0);
      SameToken(span, ts[0]);
    } else if |ts| == 2 && ts[0] == POUND && ts[1].Ident? {
      NameWith(ts[1].name, span);
    } else if |ts| == 2 {
      SizeOfFront(ts);
      SameToken(span, ts[0]);
      SameToken(span, ts[1]);
      CodeWithConcat(QuoteToken(ts[0]), QuoteToken(ts[1]), span);
    } else if |ts| > 2 {
      SameEach(span, ts);
    }
  }

  lemma NameWith(name: string, span: Span)
    ensures CodeWith([ToTokens(name)], span) == [ValueToTokens(name)]
  {
    CodeWithOne(ToTokens(name), span);
  }

  // ---------------------------------------------------------------- meaning

  /** The pushes of the runtime that are given a span. */
  function SpellSpanned(t: Token, span: Span): seq<Tree>
    requires !t.Group?
  {
    match t
    case Ident(name) => [Leaf(name, false, span)]
    case Punct(text) => if text == "_" then [Leaf(text, false, span)] else Symbol(text, span)
    case Lifetime(name) => [Leaf("'", true, span), Leaf(name, false, span)]
    case Other(parsed) => Respan(parsed, span)
  }

  function EvalSpanned(code: seq<SpannedStmt>, env: Env): Option<seq<Tree>>
    decreases code
  {
    if code == [] then Some([]) else Append(EvalSpannedStmt(code[0], env), EvalSpanned(code[1..], env))
  }

  function EvalSpannedStmt(s: SpannedStmt, env: Env): Option<seq<Tree>>
    decreases s, 1, 0
  {
    match s
    case LeafWith(t, span) => if t.Group? then None else Some(SpellSpanned(t, span))
    case GroupWith(span, delimiter, body) =>
      (match EvalSpanned(body, env)
       case None => None
       case Some(inner) => Some([Branch(delimiter, inner, span)]))
    case ValueToTokens(name) => if name in env && env[name].Plain? then Some(env[name].tokens) else None
    case LoopWith(names, _, _) =>
      if forall name :: name in names ==> name in env then
        var n := RoundCount(names, env);
        if n.None? then None else EvalSpannedRounds(s, env, 0, n.value)
      else None
  }

  function EvalSpannedRounds(s: SpannedStmt, env: Env, r: nat, n: nat): Option<seq<Tree>>
    requires s.LoopWith? && r <= n
    decreases s, 0, n - r
  {
    if r == n then Some([])
    else
      var e := RoundEnv(s.names, env, r);
      Append(Append(if r == 0 then Some([]) else EvalSpanned(s.separator, e), EvalSpanned(s.body, e)),
             EvalSpannedRounds(s, env, r + 1, n))
  }

  /** Code with a span means what the code means when all its pushes are given the span. */
  lemma {:induction false} MeaningWithSpan(code: seq<Stmt>, env: Env, span: Span)
    ensures EvalSpanned(CodeWith(code, span), env) == Eval(code, env, Spanned(span))
    decreases code
  {
    hide EvalStmt, EvalSpannedStmt, StmtWith;
    if code != [] {
      StmtMeaning(code[0], env, span);
      MeaningWithSpan(code[1..], env, span);
      assert CodeWith(code, span)[1..] == CodeWith(code[1..], span);
    }
  }

  lemma {:induction false} StmtMeaning(s: Stmt, env: Env, span: Span)
    ensures EvalSpannedStmt(StmtWith(s, span), env) == EvalStmt(s, env, Spanned(span))
    decreases s, 1, 0
  {
    hide Eval, EvalSpanned, CodeWith, EvalRounds, EvalSpannedRounds, RoundCount;
    match s
    case PushLeaf(_) =>
    case PushGroup(_, body) => MeaningWithSpan(body, env, span);
    case ToTokens(_) =>
    case Loop(names, _, _) =>
      if forall name :: name in names ==> name in env {
        var n := RoundCount(names, env);
        if n.Some? {
          RoundsMeaning(s, env, 0, n.value, span);
        }
      }
  }

  lemma {:induction false} RoundsMeaning(s: Stmt, env: Env, r: nat, n: nat, span: Span)
    requires s.Loop? && r <= n
    ensures EvalSpannedRounds(StmtWith(s, span), env, r, n) == EvalRounds(s, env, Spanned(span), r, n)
    decreases s, 0, n - r
  {
    hide Eval, EvalSpanned, CodeWith;
    if r < n {
      var e := RoundEnv(s.names, env, r);
      MeaningWithSpan(s.separator, e, span);
      MeaningWithSpan(s.body, e, span);
      RoundsMeaning(s, env, r + 1, n, span);
    }
  }

  /** The trees an invocation of `quote_spanned!` yields. */
  function SpannedTrees(span: Span, ts: seq<Token>, env: Env): Option<seq<Tree>> {
    EvalSpanned(QuoteSpanned(span, ts), env)
  }

  lemma SpannedMeaning(span: Span, ts: seq<Token>, env: Env)
    ensures SpannedTrees(span, ts, env) == Eval(Quote(ts), env, Repetition.Spanned(span))
  {
    hide Quote, QuoteSpanned, EvalSpanned, Eval, CodeWith;
    SameExpansion(span, ts);
    MeaningWithSpan(Quote(ts), env, span);
  }

  // ---------------------------------------------------------------- spans

  /** Erasing the spans of either macro's output gives the same trees. */
  lemma SpannedIsUnspannedErased(ts: seq<Token>, env: Env, span: Span)
    ensures MapResult(Eval(Quote(ts), env, Unspanned), Erased()) == MapResult(SpannedTrees(span, ts, env), Erased())
  {
    SpannedMeaning(span, ts, env);
    EvalIsNatural(Quote(ts), env, Unspanned, Erased(), CALL_SITE);
    EvalIsNatural(Quote(ts), env, Repetition.Spanned(span), Erased(), CALL_SITE);
  }

  /**
   Every token of the spanned output, at any depth, carries the given span or a span that came in
   with an interpolated value; with values that bring none, all tokens carry the given span.
   */
  lemma SpansAreGivenOrOwn(ts: seq<Token>, env: Env, span: Span, own: Span -> bool)
    requires AllSpansOfEnv(env, own) && SpannedTrees(span, ts, env).Some?
    ensures AllSpans(SpannedTrees(span, ts, env).value, Either(span, own))
  {
    SpannedMeaning(span, ts, env);
    hide SpannedTrees, Eval, Quote;
    var good := Either(span, own);
    var f: Span -> Span := x => if x == span || own(x) then x else span;
    Weaken(env, own, good);
    FixedEnv(env, good, f);
    EvalIsNatural(Quote(ts), env, Repetition.Spanned(span), f, span);
    FixedTrees(SpannedTrees(span, ts, env).value, good, f);
  }

  /**
   The given span reaches exactly the quoted tokens: exchanging it for another one changes the
   tokens that carry it, and, if no interpolated token carries it, no interpolated one.
   */
  lemma GivenSpanReachesQuotedTokens(ts: seq<Token>, env: Env, unused: Span, span: Span)
    requires unused != span && AllSpansOfEnv(env, Not(unused))
    ensures MapResult(SpannedTrees(unused, ts, env), Exchange(unused, span)) == SpannedTrees(span, ts, env)
  {
    SpannedMeaning(unused, ts, env);
    SpannedMeaning(span, ts, env);
    FixedEnv(env, Not(unused), Exchange(unused, span));
    EvalIsNatural(Quote(ts), env, Repetition.Spanned(unused), Exchange(unused, span), span);
  }
}
