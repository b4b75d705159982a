/**
 Changing spans (`patches/quote/src/runtime.rs`): running expanded code commutes with changing the
 spans of what comes out, for the span of quoted tokens as for those of interpolated ones.
 */
module Spans {

  import opened Wrappers
  import opened Windows
  import opened Expansion
  import opened Repetition

  // ---------------------------------------------------------------- changing spans

  function MapTree(t: Tree, f: Span -> Span): Tree {
    match t
    case Leaf(text, joint, span) => Leaf(text, joint, f(span))
    case Branch(delimiter, stream, span) => Branch(delimiter, MapTrees(stream, f), f(span))
  }

  function MapTrees(ts: seq<Tree>, f: Span -> Span): seq<Tree> {
    if ts == [] then [] else [MapTree(ts[0], f)] + MapTrees(ts[1..], f)
  }

  function MapValue(v: Value, f: Span -> Span): Value {
    match v
    case Plain(tokens) => Plain(MapTrees(tokens, f))
    case List(items) => List(MapValues(items, f))
  }

  function MapValues(vs: seq<Value>, f: Span -> Span): (r: seq<Value>)
    ensures |r| == |vs| && forall i :: 0 <= i < |vs| ==> r[i] == MapValue(vs[i], f)
  {
    if vs == [] then [] else [MapValue(vs[0], f)] + MapValues(vs[1..], f)
  }

  function MapEnv(env: Env, f: Span -> Span): Env {
    map name | name in env :: MapValue(env[name], f)
  }

  function MapResult(r: Option<seq<Tree>>, f: Span -> Span): Option<seq<Tree>> {
    match r
    case None => None
    case Some(ts) => Some(MapTrees(ts, f))
  }

  /** The spans that a mode gives to quoted tokens are all turned into `to`. */
  ghost predicate Carries(mode: Mode, f: Span -> Span, to: Span) {
    match mode
    case Unspanned => forall x :: f(x) == to
    case Spanned(span) => f(span) == to
  }

  lemma {:induction false} MapConcat(a: seq<Tree>, b: seq<Tree>, f: Span -> Span)
    ensures MapTrees(a + b, f) == MapTrees(a, f) + MapTrees(b, f)
  {
    hide MapTree;
    if a == [] {
      assert a + b == b;
    } else {
      MapConcat(a[1..], b, f);
      assert (a + b)[1..] == a[1..] + b;
    }
  }

  // ---------------------------------------------------------------- leaves

  lemma {:induction false} MapRespan(ts: seq<Tree>, span: Span, f: Span -> Span)
    ensures MapTrees(Respan(ts, span), f) == Respan(ts, f(span))
  {
    if ts != [] {
      if ts[0].Branch? {
        MapRespan(ts[0].stream, span, f);
      }
      MapRespan(ts[1..], span, f);
    }
  }

  lemma {:induction false} MapConstant(ts: seq<Tree>, to: Span, f: Span -> Span)
    requires forall x :: f(x) == to
    ensures MapTrees(ts, f) == Respan(ts, to)
  {
    if ts != [] {
      if ts[0].Branch? {
        MapConstant(ts[0].stream, to, f);
      }
      MapConstant(ts[1..], to, f);
    }
  }

  lemma {:induction false} MapSymbol(text: string, span: Span, f: Span -> Span)
    ensures MapTrees(Symbol(text, span), f) == Symbol(text, f(span))
  {
    if text != "" {
      MapSymbol(text[1..], span, f);
    }
  }

  lemma SpellIsNatural(t: Token, mode: Mode, f: Span -> Span, to: Span)
    requires !t.Group? && Carries(mode, f, to)
    ensures MapTrees(Spell(t, mode), f) == Spell(t, Spanned(to))
  {
    var span := SpanOf(mode);
    match t
    case Ident(_) => OneLeaf(Spell(t, mode), f);
    case Punct(text) =>
      if text == "_" { OneLeaf(Spell(t, mode), f); } else { MapSymbol(text, span, f); }
    case Lifetime(name) =>
      MapConcat([Leaf("'", true, span)], [Leaf(name, false, span)], f);
      OneLeaf([Leaf("'", true, span)], f);
      OneLeaf([Leaf(name, false, span)], f);
    case Other(parsed) =>
      if mode.Unspanned? { MapConstant(parsed, to, f); } else { MapRespan(parsed, span, f); }
  }

  lemma OneLeaf(ts: seq<Tree>, f: Span -> Span)
    requires |ts| == 1
    ensures MapTrees(ts, f) == [MapTree(ts[0], f)]
  {
    assert ts[1..] == [];
  }

  // ---------------------------------------------------------------- environments

  lemma {:induction false} RoundCountIsNatural(names: seq<string>, env: Env, f: Span -> Span)
    requires forall name :: name in names ==> name in env
    ensures RoundCount(names, MapEnv(env, f)) == RoundCount(names, env)
  {
    if names != [] {
      RoundCountIsNatural(names[1..], env, f);
    }
  }

  lemma RoundEnvIsNatural(names: seq<string>, env: Env, r: nat, f: Span -> Span)
    ensures RoundEnv(names, MapEnv(env, f), r) == MapEnv(RoundEnv(names, env, r), f)
  {
  }

  lemma AppendIsNatural(a: Option<seq<Tree>>, b: Option<seq<Tree>>, f: Span -> Span)
    ensures MapResult(Append(a, b), f) == Append(MapResult(a, f), MapResult(b, f))
  {
    if a.Some? && b.Some? {
      MapConcat(a.value, b.value, f);
    }
  }

  // ---------------------------------------------------------------- code

  /** Changing the spans of the result is running with changed spans from the start. */
  lemma {:induction false} EvalIsNatural(code: seq<Stmt>, env: Env, mode: Mode, f: Span -> Span, to: Span)
    requires Carries(mode, f, to)
    ensures MapResult(Eval(code, env, mode), f) == Eval(code, MapEnv(env, f), Spanned(to))
    decreases code
  {
    hide Carries, EvalStmt;
    if code != [] {
      StmtIsNatural(code[0], env, mode, f, to);
      EvalIsNatural(code[1..], env, mode, f, to);
      AppendIsNatural(EvalStmt(code[0], env, mode), Eval(code[1..], env, mode), f);
    }
  }

  lemma {:induction false} StmtIsNatural(s: Stmt, env: Env, mode: Mode, f: Span -> Span, to: Span)
    requires Carries(mode, f, to)
    ensures MapResult(EvalStmt(s, env, mode), f) == EvalStmt(s, MapEnv(env, f), Spanned(to))
    decreases s, 1, 0
  {
    hide Eval, EvalRounds, RoundCount, Spell;
    match s
    case PushLeaf(t) =>
      hide MapTrees;
      if !t.Group? {
        SpellIsNatural(t, mode, f, to);
      }
    case PushGroup(delimiter, body) =>
      EvalIsNatural(body, env, mode, f, to);
      var inner := Eval(body, env, mode);
      if inner.Some? {
        OneLeaf([Branch(delimiter, inner.value, SpanOf(mode))], f);
      }
    case ToTokens(_) =>
    case Loop(names, _, _) =>
      if forall name :: name in names ==> name in env {
        RoundCountIsNatural(names, env, f);
        var n := RoundCount(names, env);
        if n.Some? {
          RoundsAreNatural(s, env, mode, 0, n.value, f, to);
        }
      }
  }

  lemma {:induction false} RoundsAreNatural(s: Stmt, env: Env, mode: Mode, r: nat, n: nat, f: Span -> Span, to: Span)
    requires Carries(mode, f, to) && s.Loop? && r <= n
    ensures MapResult(EvalRounds(s, env, mode, r, n), f) == EvalRounds(s, MapEnv(env, f), Spanned(to), r, n)
    decreases s, 0, n - r
  {
    hide Carries, Eval;
    if r < n {
      var e := RoundEnv(s.names, env, r);
      RoundEnvIsNatural(s.names, env, r, f);
      EvalIsNatural(s.separator, e, mode, f, to);
      EvalIsNatural(s.body, e, mode, f, to);
      RoundsAreNatural(s, env, mode, r + 1, n, f, to);
      var front := if r == 0 then Some([]) else Eval(s.separator, e, mode);
      AppendIsNatural(front, Eval(s.body, e, mode), f);
      AppendIsNatural(Append(front, Eval(s.body, e, mode)), EvalRounds(s, env, mode, r + 1, n), f);
    }
  }

  // ---------------------------------------------------------------- spans that stay

  function Erased(): Span -> Span {
    _ => CALL_SITE
  }

  function Exchange(from: Span, to: Span): Span -> Span {
    x => if x == from then to else x
  }

  function Either(span: Span, own: Span -> bool): Span -> bool {
    x => x == span || own(x)
  }

  function Not(span: Span): Span -> bool {
    x => x != span
  }

  /** Every span in the trees satisfies the predicate. */
  predicate AllSpans(ts: seq<Tree>, p: Span -> bool) {
    ts == [] || (p(ts[0].span) && (ts[0].Branch? ==> AllSpans(ts[0].stream, p)) && AllSpans(ts[1..], p))
  }

  predicate AllSpansOfValue(v: Value, p: Span -> bool) {
    match v
    case Plain(tokens) => AllSpans(tokens, p)
    case List(items) => forall i :: 0 <= i < |items| ==> AllSpansOfValue(items[i], p)
  }

  predicate AllSpansOfEnv(env: Env, p: Span -> bool) {
    forall name :: name in env ==> AllSpansOfValue(env[name], p)
  }

  /** A map that leaves exactly the good spans alone leaves exactly the good trees alone. */
  lemma {:induction false} FixedTrees(ts: seq<Tree>, p: Span -> bool, f: Span -> Span)
    requires forall x :: f(x) == x <==> p(x)
    ensures MapTrees(ts, f) == ts <==> AllSpans(ts, p)
  {
    if ts != [] {
      if ts[0].Branch? {
        FixedTrees(ts[0].stream, p, f);
      }
      FixedTrees(ts[1..], p, f);
      assert ts == [ts[0]] + ts[1..];
      var mapped := MapTrees(ts, f);
      assert mapped[0] == MapTree(ts[0], f) && mapped[1..] == MapTrees(ts[1..], f);
    }
  }

  lemma {:induction false} FixedValue(v: Value, p: Span -> bool, f: Span -> Span)
    requires AllSpansOfValue(v, p)
    requires forall x :: f(x) == x <==> p(x)
    ensures MapValue(v, f) == v
  {
    match v
    case Plain(tokens) => FixedTrees(tokens, p, f);
    case List(items) =>
      forall i | 0 <= i < |items| ensures MapValue(items[i], f) == items[i] {
        FixedValue(items[i], p, f);
      }
  }

  lemma FixedEnv(env: Env, p: Span -> bool, f: Span -> Span)
    requires AllSpansOfEnv(env, p)
    requires forall x :: f(x) == x <==> p(x)
    ensures MapEnv(env, f) == env
  {
    forall name | name in env ensures MapValue(env[name], f) == env[name] {
      FixedValue(env[name], p, f);
    }
  }

  lemma Weaken(env: Env, p: Span -> bool, q: Span -> bool)
    requires AllSpansOfEnv(env, p) && forall x :: p(x) ==> q(x)
    ensures AllSpansOfEnv(env, q)
  {
    forall name | name in env ensures AllSpansOfValue(env[name], q) {
      WeakenValue(env[name], p, q);
    }
  }

  lemma {:induction false} WeakenTrees(ts: seq<Tree>, p: Span -> bool, q: Span -> bool)
    requires AllSpans(ts, p) && forall x :: p(x) ==> q(x)
    ensures AllSpans(ts, q)
  {
    if ts != [] {
      if ts[0].Branch? {
        WeakenTrees(ts[0].stream, p, q);
      }
      WeakenTrees(ts[1..], p, q);
    }
  }

  lemma {:induction false} WeakenValue(v: Value, p: Span -> bool, q: Span -> bool)
    requires AllSpansOfValue(v, p) && forall x :: p(x) ==> q(x)
    ensures AllSpansOfValue(v, q)
  {
    match v
    case Plain(tokens) => WeakenTrees(tokens, p, q);
    case List(items) =>
      forall i | 0 <= i < |items| ensures AllSpansOfValue(items[i], q) {
        WeakenValue(items[i], p, q);
      }
  }
}
