/**
 Where the tokens of a spanned expansion come from. Every tree, at every depth, is marked as quoted
 or interpolated: the quoted ones carry the given span, whatever it is, and the interpolated ones
 are what they were in their values.
 */
module Origins {

  import opened Wrappers
  import opened Windows
  import opened Expansion
  import opened Repetition
  import opened Spans
  import opened Spanned

  // ---------------------------------------------------------------- marked trees

  datatype Marked =
    | MarkedLeaf(text: string, joint: bool, span: Span, quoted: bool)
    | MarkedBranch(delimiter: Delimiter, stream: seq<Marked>, span: Span, quoted: bool)

  function MarkTree(t: Tree, quoted: bool): Marked {
    match t
    case Leaf(text, joint, span) => MarkedLeaf(text, joint, span, quoted)
    case Branch(delimiter, stream, span) => MarkedBranch(delimiter, Mark(stream, quoted), span, quoted)
  }

  function Mark(ts: seq<Tree>, quoted: bool): seq<Marked> {
    if ts == [] then [] else [MarkTree(ts[0], quoted)] + Mark(ts[1..], quoted)
  }

  function PlainTree(t: Marked): Tree {
    match t
    case MarkedLeaf(text, joint, span, _) => Leaf(text, joint, span)
    case MarkedBranch(delimiter, stream, span, _) => Branch(delimiter, PlainTrees(stream), span)
  }

  /** The trees without their marks. */
  function PlainTrees(ts: seq<Marked>): seq<Tree> {
    if ts == [] then [] else [PlainTree(ts[0])] + PlainTrees(ts[1..])
  }

  function RequoteTree(t: Marked, span: Span): Marked {
    match t
    case MarkedLeaf(text, joint, old_, quoted) => MarkedLeaf(text, joint, if quoted then span else old_, quoted)
    case MarkedBranch(delimiter, stream, old_, quoted) =>
      MarkedBranch(delimiter, Requote(stream, span), if quoted then span else old_, quoted)
  }

  /** The same trees with another span on the quoted ones and no change to the others. */
  function Requote(ts: seq<Marked>, span: Span): seq<Marked> {
    if ts == [] then [] else [RequoteTree(ts[0], span)] + Requote(ts[1..], span)
  }

  /** Every quoted tree, at every depth, has the span, and every other one a span with the property. */
  predicate SpansByOrigin(ts: seq<Marked>, span: Span, own: Span -> bool) {
    ts == []
    || (&& (if ts[0].quoted then ts[0].span == span else own(ts[0].span))
        && (ts[0].MarkedBranch? ==> SpansByOrigin(ts[0].stream, span, own))
        && SpansByOrigin(ts[1..], span, own))
  }

  // ---------------------------------------------------------------- the expansion, marked

  function Join(a: Option<seq<Marked>>, b: Option<seq<Marked>>): Option<seq<Marked>> {
    if a.Some? && b.Some? then Some(a.value + b.value) else None
  }

  /** `EvalSpanned`, with a mark on what is pushed by the macro and on what values push. */
  function EvalMarked(code: seq<SpannedStmt>, env: Env): Option<seq<Marked>>
    decreases code
  {
    if code == [] then Some([]) else Join(EvalMarkedStmt(code[0], env), EvalMarked(code[1..], env))
  }

  function EvalMarkedStmt(s: SpannedStmt, env: Env): Option<seq<Marked>>
    decreases s, 1, 0
  {
    match s
    case LeafWith(t, span) => if t.Group? then None else Some(Mark(SpellSpanned(t, span), true))
    case GroupWith(span, delimiter, body) =>
      (match EvalMarked(body, env)
       case None => None
       case Some(inner) => Some([MarkedBranch(delimiter, inner, span, true)]))
    case ValueToTokens(name) => if name in env && env[name].Plain? then Some(Mark(env[name].tokens, false)) else None
    case LoopWith(names, _, _) =>
      if forall name :: name in names ==> name in env then
        var n := RoundCount(names, env);
        if n.None? then None else EvalMarkedRounds(s, env, 0, n.value)
      else None
  }

  function EvalMarkedRounds(s: SpannedStmt, env: Env, r: nat, n: nat): Option<seq<Marked>>
    requires s.LoopWith? && r <= n
    decreases s, 0, n - r
  {
    if r == n then Some([])
    else
      var e := RoundEnv(s.names, env, r);
      Join(Join(if r == 0 then Some([]) else EvalMarked(s.separator, e), EvalMarked(s.body, e)),
           EvalMarkedRounds(s, env, r + 1, n))
  }

  // ---------------------------------------------------------------- the marks add nothing

  lemma {:induction false} PlainOfMark(ts: seq<Tree>, quoted: bool)
    ensures PlainTrees(Mark(ts, quoted)) == ts
  {
    if ts != [] {
      if ts[0].Branch? {
        PlainOfMark(ts[0].stream, quoted);
      }
      PlainOfMark(ts[1..], quoted);
      assert Mark(ts, quoted)[1..] == Mark(ts[1..], quoted);
    }
  }

  lemma {:induction false} PlainConcat(a: seq<Marked>, b: seq<Marked>)
    ensures PlainTrees(a + b) == PlainTrees(a) + PlainTrees(b)
  {
    hide PlainTree;
    if a == [] {
      assert a + b == b;
    } else {
      PlainConcat(a[1..], b);
      assert (a + b)[1..] == a[1..] + b;
    }
  }

  function PlainResult(r: Option<seq<Marked>>): Option<seq<Tree>> {
    match r
    case None => None
    case Some(ts) => Some(PlainTrees(ts))
  }

  lemma PlainJoin(a: Option<seq<Marked>>, b: Option<seq<Marked>>)
    ensures PlainResult(Join(a, b)) == Append(PlainResult(a), PlainResult(b))
  {
    hide PlainTrees;
    if a.Some? && b.Some? {
      PlainConcat(a.value, b.value);
    }
  }

  lemma PlainBranch(delimiter: Delimiter, inner: seq<Marked>, span: Span)
    ensures PlainTrees([MarkedBranch(delimiter, inner, span, true)]) == [Branch(delimiter, PlainTrees(inner), span)]
  {
    assert [MarkedBranch(delimiter, inner, span, true)][1..] == [];
  }

  /** Without its marks the marked expansion is the expansion. */
  lemma {:induction false} PlainEval(code: seq<SpannedStmt>, env: Env)
    ensures PlainResult(EvalMarked(code, env)) == EvalSpanned(code, env)
    decreases code
  {
    hide EvalMarkedStmt, EvalSpannedStmt, Join, Append;
    if code != [] {
      PlainEvalStmt(code[0], env);
      PlainEval(code[1..], env);
      PlainJoin(EvalMarkedStmt(code[0], env), EvalMarked(code[1..], env));
    }
  }

  lemma {:induction false} PlainEvalStmt(s: SpannedStmt, env: Env)
    ensures PlainResult(EvalMarkedStmt(s, env)) == EvalSpannedStmt(s, env)
    decreases s, 1, 0
  {
    hide EvalMarked, EvalSpanned, EvalMarkedRounds, EvalSpannedRounds, RoundCount, PlainTrees, Mark, SpellSpanned;
    match s
    case LeafWith(t, span) =>
      if !t.Group? {
        PlainOfMark(SpellSpanned(t, span), true);
      }
    case GroupWith(span, delimiter, body) =>
      PlainEval(body, env);
      if EvalMarked(body, env).Some? {
        PlainBranch(delimiter, EvalMarked(body, env).value, span);
      }
    case ValueToTokens(name) =>
      if name in env && env[name].Plain? {
        PlainOfMark(env[name].tokens, false);
      }
    case LoopWith(names, _, _) =>
      if forall name :: name in names ==> name in env {
        var n := RoundCount(names, env);
        if n.Some? {
          PlainEvalRounds(s, env, 0, n.value);
        }
      }
  }

  lemma {:induction false} PlainEvalRounds(s: SpannedStmt, env: Env, r: nat, n: nat)
    requires s.LoopWith? && r <= n
    ensures PlainResult(EvalMarkedRounds(s, env, r, n)) == EvalSpannedRounds(s, env, r, n)
    decreases s, 0, n - r
  {
    hide EvalMarked, EvalSpanned, Join, Append;
    if r < n {
      var e := RoundEnv(s.names, env, r);
      PlainEval(s.separator, e);
      PlainEval(s.body, e);
      PlainEvalRounds(s, env, r + 1, n);
      var front := if r == 0 then Some([]) else EvalMarked(s.separator, e);
      PlainJoin(front, EvalMarked(s.body, e));
      PlainJoin(Join(front, EvalMarked(s.body, e)), EvalMarkedRounds(s, env, r + 1, n));
    }
  }

  // ---------------------------------------------------------------- the given span

  lemma {:induction false} RequoteConcat(a: seq<Marked>, b: seq<Marked>, span: Span)
    ensures Requote(a + b, span) == Requote(a, span) + Requote(b, span)
  {
    hide RequoteTree;
    if a == [] {
      assert a + b == b;
    } else {
      RequoteConcat(a[1..], b, span);
      assert (a + b)[1..] == a[1..] + b;
    }
  }

  lemma {:induction false} RequoteOwn(ts: seq<Tree>, span: Span)
    ensures Requote(Mark(ts, false), span) == Mark(ts, false)
  {
    if ts != [] {
      if ts[0].Branch? {
        RequoteOwn(ts[0].stream, span);
      }
      RequoteOwn(ts[1..], span);
      assert Mark(ts, false)[1..] == Mark(ts[1..], false);
    }
  }

  /** Requoting quoted trees is respanning them. */
  lemma {:induction false} RequoteIsRespan(ts: seq<Tree>, span: Span)
    ensures Requote(Mark(ts, true), span) == Mark(Respan(ts, span), true)
  {
    if ts != [] {
      if ts[0].Branch? {
        RequoteIsRespan(ts[0].stream, span);
      }
      RequoteIsRespan(ts[1..], span);
      assert Mark(ts, true)[1..] == Mark(ts[1..], true);
      assert Respan(ts, span)[1..] == Respan(ts[1..], span);
    }
  }

  lemma {:induction false} RespanTwice(ts: seq<Tree>, a: Span, b: Span)
    ensures Respan(Respan(ts, a), b) == Respan(ts, b)
  {
    if ts != [] {
      if ts[0].Branch? {
        RespanTwice(ts[0].stream, a, b);
      }
      RespanTwice(ts[1..], a, b);
      assert Respan(ts, a)[1..] == Respan(ts[1..], a);
    }
  }

  lemma {:induction false} RespanSymbol(text: string, a: Span, b: Span)
    ensures Respan(Symbol(text, a), b) == Symbol(text, b)
  {
    if text != "" {
      RespanSymbol(text[1..], a, b);
      assert Symbol(text, a)[1..] == Symbol(text[1..], a);
    }
  }

  /** A quoted token that is spelt with one span and respanned is spelt with the other. */
  lemma RespanSpelling(t: Token, a: Span, b: Span)
    requires !t.Group?
    ensures Respan(SpellSpanned(t, a), b) == SpellSpanned(t, b)
  {
    match t
    case Ident(name) => RespanOne(Leaf(name, false, a), b);
    case Punct(text) => if text == "_" { RespanOne(Leaf(text, false, a), b); } else { RespanSymbol(text, a, b); }
    case Lifetime(name) =>
      assert SpellSpanned(t, a)[1..] == [Leaf(name, false, a)];
      RespanOne(Leaf(name, false, a), b);
    case Other(parsed) => RespanTwice(parsed, a, b);
  }

  lemma RespanOne(t: Tree, span: Span)
    ensures Respan([t], span) == [RespanTree(t, span)]
  {
    assert [t][1..] == [];
  }

  function RequoteResult(r: Option<seq<Marked>>, span: Span): Option<seq<Marked>> {
    match r
    case None => None
    case Some(ts) => Some(Requote(ts, span))
  }

  lemma RequoteJoin(a: Option<seq<Marked>>, b: Option<seq<Marked>>, span: Span)
    ensures RequoteResult(Join(a, b), span) == Join(RequoteResult(a, span), RequoteResult(b, span))
  {
    hide Requote;
    if a.Some? && b.Some? {
      RequoteConcat(a.value, b.value, span);
    }
  }

  lemma RequoteBranch(delimiter: Delimiter, inner: seq<Marked>, a: Span, b: Span)
    ensures Requote([MarkedBranch(delimiter, inner, a, true)], b)
         == [MarkedBranch(delimiter, Requote(inner, b), b, true)]
  {
    assert [MarkedBranch(delimiter, inner, a, true)][1..] == [];
  }

  /** The code with one span, requoted, is the code with the other span. */
  lemma {:induction false} RequoteEval(code: seq<Stmt>, env: Env, a: Span, b: Span)
    ensures RequoteResult(EvalMarked(CodeWith(code, a), env), b) == EvalMarked(CodeWith(code, b), env)
    decreases code
  {
    hide EvalMarkedStmt, StmtWith, Join, Requote;
    if code == [] {
      NothingRequoted(b);
    } else {
      RequoteStmt(code[0], env, a, b);
      RequoteEval(code[1..], env, a, b);
      assert CodeWith(code, a)[1..] == CodeWith(code[1..], a) && CodeWith(code, b)[1..] == CodeWith(code[1..], b);
      RequoteJoin(EvalMarkedStmt(StmtWith(code[0], a), env), EvalMarked(CodeWith(code[1..], a), env), b);
    }
  }

  lemma NothingRequoted(span: Span)
    ensures Requote([], span) == []
  {
  }

  lemma {:induction false} RequoteStmt(s: Stmt, env: Env, a: Span, b: Span)
    ensures RequoteResult(EvalMarkedStmt(StmtWith(s, a), env), b) == EvalMarkedStmt(StmtWith(s, b), env)
    decreases s, 1, 0
  {
    hide EvalMarked, CodeWith, EvalMarkedRounds, RoundCount, Requote, Mark, SpellSpanned, Respan;
    match s
    case PushLeaf(t) =>
      if !t.Group? {
        RequoteIsRespan(SpellSpanned(t, a), b);
        RespanSpelling(t, a, b);
      }
    case PushGroup(delimiter, body) =>
      RequoteEval(body, env, a, b);
      var inner := EvalMarked(CodeWith(body, a), env);
      if inner.Some? {
        RequoteBranch(delimiter, inner.value, a, b);
      }
    case ToTokens(name) =>
      if name in env && env[name].Plain? {
        RequoteOwn(env[name].tokens, b);
      }
    case Loop(names, _, _) =>
      if forall name :: name in names ==> name in env {
        var n := RoundCount(names, env);
        if n.Some? {
          RequoteRounds(s, env, 0, n.value, a, b);
        }
      }
  }

  lemma {:induction false} RequoteRounds(s: Stmt, env: Env, r: nat, n: nat, a: Span, b: Span)
    requires s.Loop? && r <= n
    ensures RequoteResult(EvalMarkedRounds(StmtWith(s, a), env, r, n), b)
         == EvalMarkedRounds(StmtWith(s, b), env, r, n)
    decreases s, 0, n - r
  {
    hide EvalMarked, CodeWith, Join, Requote;
    NothingRequoted(b);
    if r < n {
      var e := RoundEnv(s.names, env, r);
      RequoteEval(s.separator, e, a, b);
      RequoteEval(s.body, e, a, b);
      RequoteRounds(s, env, r + 1, n, a, b);
      var front := if r == 0 then Some([]) else EvalMarked(CodeWith(s.separator, a), e);
      var body := EvalMarked(CodeWith(s.body, a), e);
      RequoteJoin(front, body, b);
      RequoteJoin(Join(front, body), EvalMarkedRounds(StmtWith(s, a), env, r + 1, n), b);
    }
  }

  // ---------------------------------------------------------------- the spans of values

  lemma {:induction false} OriginConcat(a: seq<Marked>, b: seq<Marked>, span: Span, own: Span -> bool)
    ensures SpansByOrigin(a + b, span, own) <==> SpansByOrigin(a, span, own) && SpansByOrigin(b, span, own)
  {
    if a == [] {
      assert a + b == b;
    } else {
      OriginConcat(a[1..], b, span, own);
      assert (a + b)[1..] == a[1..] + b;
    }
  }

  lemma {:induction false} OriginOfOwn(ts: seq<Tree>, span: Span, own: Span -> bool)
    requires AllSpans(ts, own)
    ensures SpansByOrigin(Mark(ts, false), span, own)
  {
    if ts != [] {
      if ts[0].Branch? {
        OriginOfOwn(ts[0].stream, span, own);
      }
      OriginOfOwn(ts[1..], span, own);
      assert Mark(ts, false)[1..] == Mark(ts[1..], false);
    }
  }

  lemma {:induction false} OriginOfQuoted(ts: seq<Tree>, span: Span, own: Span -> bool)
    ensures SpansByOrigin(Mark(Respan(ts, span), true), span, own)
  {
    if ts != [] {
      if ts[0].Branch? {
        OriginOfQuoted(ts[0].stream, span, own);
      }
      OriginOfQuoted(ts[1..], span, own);
      assert Mark(Respan(ts, span), true)[1..] == Mark(Respan(ts[1..], span), true);
    }
  }

  lemma OriginOfBranch(delimiter: Delimiter, inner: seq<Marked>, span: Span, own: Span -> bool)
    requires SpansByOrigin(inner, span, own)
    ensures SpansByOrigin([MarkedBranch(delimiter, inner, span, true)], span, own)
  {
    assert [MarkedBranch(delimiter, inner, span, true)][1..] == [];
  }

  ghost predicate GoodResult(r: Option<seq<Marked>>, span: Span, own: Span -> bool) {
    r.Some? ==> SpansByOrigin(r.value, span, own)
  }

  lemma GoodJoin(a: Option<seq<Marked>>, b: Option<seq<Marked>>, span: Span, own: Span -> bool)
    requires GoodResult(a, span, own) && GoodResult(b, span, own)
    ensures GoodResult(Join(a, b), span, own)
  {
    hide SpansByOrigin;
    if a.Some? && b.Some? {
      OriginConcat(a.value, b.value, span, own);
    }
  }

  lemma RoundEnvKeepsSpans(names: seq<string>, env: Env, r: nat, own: Span -> bool)
    requires AllSpansOfEnv(env, own)
    ensures AllSpansOfEnv(RoundEnv(names, env, r), own)
  {
  }

  lemma {:induction false} OriginsOfEval(code: seq<Stmt>, env: Env, span: Span, own: Span -> bool)
    requires AllSpansOfEnv(env, own)
    ensures GoodResult(EvalMarked(CodeWith(code, span), env), span, own)
    decreases code
  {
    hide EvalMarkedStmt, StmtWith, Join, AllSpansOfEnv;
    if code != [] {
      OriginsOfStmt(code[0], env, span, own);
      OriginsOfEval(code[1..], env, span, own);
      assert CodeWith(code, span)[1..] == CodeWith(code[1..], span);
      GoodJoin(EvalMarkedStmt(StmtWith(code[0], span), env), EvalMarked(CodeWith(code[1..], span), env), span, own);
    }
  }

  lemma {:induction false} OriginsOfStmt(s: Stmt, env: Env, span: Span, own: Span -> bool)
    requires AllSpansOfEnv(env, own)
    ensures GoodResult(EvalMarkedStmt(StmtWith(s, span), env), span, own)
    decreases s, 1, 0
  {
    hide EvalMarked, CodeWith, EvalMarkedRounds, RoundCount, Mark, SpellSpanned, Respan, AllSpans, SpansByOrigin;
    match s
    case PushLeaf(t) =>
      if !t.Group? {
        RespanSpelling(t, span, span);
        OriginOfQuoted(SpellSpanned(t, span), span, own);
      }
    case PushGroup(delimiter, body) =>
      OriginsOfEval(body, env, span, own);
      var inner := EvalMarked(CodeWith(body, span), env);
      if inner.Some? {
        OriginOfBranch(delimiter, inner.value, span, own);
      }
    case ToTokens(name) =>
      if name in env && env[name].Plain? {
        assert AllSpansOfValue(env[name], own);
        OriginOfOwn(env[name].tokens, span, own);
      }
    case Loop(names, _, _) =>
      if forall name :: name in names ==> name in env {
        var n := RoundCount(names, env);
        if n.Some? {
          OriginsOfRounds(s, env, 0, n.value, span, own);
        }
      }
  }

  lemma {:induction false} OriginsOfRounds(s: Stmt, env: Env, r: nat, n: nat, span: Span, own: Span -> bool)
    requires AllSpansOfEnv(env, own) && s.Loop? && r <= n
    ensures GoodResult(EvalMarkedRounds(StmtWith(s, span), env, r, n), span, own)
    decreases s, 0, n - r
  {
    hide EvalMarked, CodeWith, Join, AllSpansOfEnv;
    if r < n {
      var e := RoundEnv(s.names, env, r);
      RoundEnvKeepsSpans(s.names, env, r, own);
      OriginsOfEval(s.separator, e, span, own);
      OriginsOfEval(s.body, e, span, own);
      OriginsOfRounds(s, env, r + 1, n, span, own);
      var front := if r == 0 then Some([]) else EvalMarked(CodeWith(s.separator, span), e);
      var body := EvalMarked(CodeWith(s.body, span), e);
      GoodJoin(front, body, span, own);
      GoodJoin(Join(front, body), EvalMarkedRounds(StmtWith(s, span), env, r + 1, n), span, own);
    }
  }

  // ---------------------------------------------------------------- every token

  /** The marked trees of an invocation of `quote_spanned!`. */
  function MarkedTrees(span: Span, ts: seq<Token>, env: Env): Option<seq<Marked>> {
    EvalMarked(QuoteSpanned(span, ts), env)
  }

  /**
   Token by token and at every depth: without the marks these are the trees of the invocation;
   quoted ones carry the given span and interpolated ones a span of their value; and with another
   span the quoted ones carry that one while the interpolated ones are the same as before.
   */
  lemma SpansAreByOrigin(ts: seq<Token>, env: Env, span: Span, other: Span, own: Span -> bool)
    requires AllSpansOfEnv(env, own)
    ensures PlainResult(MarkedTrees(span, ts, env)) == SpannedTrees(span, ts, env)
    ensures MarkedTrees(span, ts, env).Some? ==> SpansByOrigin(MarkedTrees(span, ts, env).value, span, own)
    ensures MarkedTrees(other, ts, env) == RequoteResult(MarkedTrees(span, ts, env), other)
  {
    hide Quote, QuoteSpanned, EvalMarked, EvalSpanned, CodeWith, Requote, PlainTrees, SpansByOrigin, AllSpansOfEnv;
    SameExpansion(span, ts);
    SameExpansion(other, ts);
    PlainEval(QuoteSpanned(span, ts), env);
    OriginsOfEval(Quote(ts), env, span, own);
    RequoteEval(Quote(ts), env, span, other);
  }
}
