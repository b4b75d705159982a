/**
 Running expanded `quote!` code (`patches/quote/src/lib.rs`, `patches/quote/src/runtime.rs`):
 tokens are appended to a stream, and a repetition advances the iterators of its names until
 one is exhausted. The meaning is the zip of the iterables; the loop is proved to compute it.
 */
module Repetition {

  import opened Wrappers
  import opened Windows
  import opened Expansion

  /** What a name stands for: something with tokens of its own, or something to iterate over. */
  datatype Value = Plain(tokens: seq<Tree>) | List(items: seq<Value>)

  type Env = map<string, Value>

  /** `quote!`, or `quote_spanned!` with a span. */
  datatype Mode = Unspanned | Spanned(span: Span)

  const CALL_SITE: Span := 0

  function SpanOf(mode: Mode): Span {
    match mode
    case Unspanned => CALL_SITE
    case Spanned(span) => span
  }

  // ---------------------------------------------------------------- leaves

  /** `respan_token_tree`. */
  function RespanTree(t: Tree, span: Span): Tree {
    match t
    case Leaf(text, joint, _) => Leaf(text, joint, span)
    case Branch(delimiter, stream, _) => Branch(delimiter, Respan(stream, span), span)
  }

  function Respan(ts: seq<Tree>, span: Span): seq<Tree> {
    if ts == [] then [] else [RespanTree(ts[0], span)] + Respan(ts[1..], span)
  }

  /** The characters of a symbol, joined to one another. */
  function Symbol(text: string, span: Span): seq<Tree> {
    if text == "" then [] else [Leaf([text[0]], |text| > 1, span)] + Symbol(text[1..], span)
  }

  /** What `quote_token` pushes for a token that is no group. */
  function Spell(t: Token, mode: Mode): seq<Tree>
    requires !t.Group?
  {
    var span := SpanOf(mode);
    match t
    case Ident(name) => [Leaf(name, false, span)]
    case Punct(text) => if text == "_" then [Leaf(text, false, span)] else Symbol(text, span)
    case Lifetime(name) => [Leaf("'", true, span), Leaf(name, false, span)]
    case Other(parsed) => if mode.Unspanned? then parsed else Respan(parsed, span)
  }

  /** Parsed trees with another span on all of them, at every depth. */
  predicate IsRespanned(parsed: seq<Tree>, ts: seq<Tree>, span: Span) {
    && |ts| == |parsed|
    && (forall i :: 0 <= i < |ts| ==> ts[i].span == span && ts[i].Leaf? == parsed[i].Leaf?)
    && (forall i :: 0 <= i < |ts| && ts[i].Leaf? ==> ts[i].text == parsed[i].text && ts[i].joint == parsed[i].joint)
    && (forall i :: 0 <= i < |ts| && ts[i].Branch? ==>
         ts[i].delimiter == parsed[i].delimiter && IsRespanned(parsed[i].stream, ts[i].stream, span))
  }

  /**
   What one quoted leaf becomes. Of an operator every character is a leaf, joint unless it is the
   last; `_` and names are one leaf; a lifetime is a joint `'` and its name; other text is parsed.
   */
  predicate IsSpelling(t: Token, mode: Mode, ts: seq<Tree>)
    requires !t.Group?
  {
    var span := if mode.Spanned? then mode.span else CALL_SITE;
    match t
    case Ident(name) => ts == [Leaf(name, false, span)]
    case Punct(text) =>
      if text == "_" then ts == [Leaf("_", false, span)] else
        |ts| == |text| && forall i :: 0 <= i < |ts| ==> ts[i] == Leaf([text[i]], i != |text| - 1, span)
    case Lifetime(name) => ts == [Leaf("'", true, span), Leaf(name, false, span)]
    case Other(parsed) => if mode.Unspanned? then ts == parsed else IsRespanned(parsed, ts, span)
  }

  lemma SpellIsSpelling(t: Token, mode: Mode)
    requires !t.Group?
    ensures IsSpelling(t, mode, Spell(t, mode))
  {
    match t
    case Punct(text) => SymbolAt(text, SpanOf(mode));
    case Other(parsed) => RespanIsRespanned(parsed, SpanOf(mode));
    case _ =>
  }

  lemma {:induction false} SymbolAt(text: string, span: Span)
    ensures var ts := Symbol(text, span);
            |ts| == |text| && forall i :: 0 <= i < |ts| ==> ts[i] == Leaf([text[i]], i != |text| - 1, span)
  {
    if text != "" {
      SymbolAt(text[1..], span);
      var ts := Symbol(text, span);
      forall i | 1 <= i < |ts| ensures ts[i] == Leaf([text[i]], i != |text| - 1, span) {
        assert ts[i] == Symbol(text[1..], span)[i - 1];
      }
    }
  }

  lemma {:induction false} RespanIsRespanned(parsed: seq<Tree>, span: Span)
    ensures IsRespanned(parsed, Respan(parsed, span), span)
  {
    if parsed != [] {
      RespanIsRespanned(parsed[1..], span);
      if parsed[0].Branch? {
        RespanIsRespanned(parsed[0].stream, span);
      }
      var ts := Respan(parsed, span);
      assert ts[0] == RespanTree(parsed[0], span) && ts[1..] == Respan(parsed[1..], span);
      forall i | 1 <= i < |ts| ensures ts[i] == ts[1..][i - 1] && parsed[i] == parsed[1..][i - 1] {
      }
    }
  }

  // ---------------------------------------------------------------- meaning

  /** The length of the shortest iterable among the names, if there is one. */
  function RoundCount(names: seq<string>, env: Env): (n: Option<nat>)
    requires forall name :: name in names ==> name in env
    ensures n.None? <==> forall name :: name in names ==> env[name].Plain?
    ensures n.Some? ==> forall name :: name in names && env[name].List? ==> n.value <= |env[name].items|
    ensures n.Some? ==> exists name :: name in names && env[name].List? && n.value == |env[name].items|
  {
    if names == [] then None
    else
      var rest := RoundCount(names[1..], env);
      var v := env[names[0]];
      if v.Plain? then rest
      else if rest.Some? && rest.value <= |v.items| then rest
      else Some(|v.items|)
  }

  /** Names of iterables stand for their item of the round, everything else for what it was. */
  function RoundEnv(names: seq<string>, env: Env, r: nat): Env {
    map name | name in env ::
      if name in names && env[name].List? && r < |env[name].items| then env[name].items[r] else env[name]
  }

  function Append(a: Option<seq<Tree>>, b: Option<seq<Tree>>): Option<seq<Tree>> {
    if a.Some? && b.Some? then Some(a.value + b.value) else None
  }

  /** The tokens a piece of code appends; nothing if it does not compile for these values. */
  function Eval(code: seq<Stmt>, env: Env, mode: Mode): Option<seq<Tree>>
    decreases code
  {
    if code == [] then Some([]) else Append(EvalStmt(code[0], env, mode), Eval(code[1..], env, mode))
  }

  function EvalStmt(s: Stmt, env: Env, mode: Mode): Option<seq<Tree>>
    decreases s, 1, 0
  {
    match s
    case PushLeaf(t) => if t.Group? then None else Some(Spell(t, mode))
    case PushGroup(delimiter, body) =>
      (match Eval(body, env, mode)
       case None => None
       case Some(inner) => Some([Branch(delimiter, inner, SpanOf(mode))]))
    case ToTokens(name) => if name in env && env[name].Plain? then Some(env[name].tokens) else None
    case Loop(names, _, _) =>
      if forall name :: name in names ==> name in env then
        var n := RoundCount(names, env);
        if n.None? then None else EvalRounds(s, env, mode, 0, n.value)
      else None
  }

  /** Rounds `r` to `n` of a repetition: the separator before each but the first, then the body. */
  function EvalRounds(s: Stmt, env: Env, mode: Mode, r: nat, n: nat): Option<seq<Tree>>
    requires s.Loop? && r <= n
    decreases s, 0, n - r
  {
    if r == n then Some([])
    else
      var e := RoundEnv(s.names, env, r);
      Append(Append(if r == 0 then Some([]) else Eval(s.separator, e, mode), Eval(s.body, e, mode)),
             EvalRounds(s, env, mode, r + 1, n))
  }

  // ---------------------------------------------------------------- the code as it runs

  /** The mutable stream `_s`. */
  class TokenStream {
    var tokens: seq<Tree>

    constructor ()
      ensures tokens == []
    {
      tokens := [];
    }

    method Extend(more: seq<Tree>)
      modifies this
      ensures tokens == old(tokens) + more
    {
      tokens := tokens + more;
    }
  }

  /**
   What a name is bound to as a repetition goes on: the variable of the caller, what
   `quote_into_iter` makes of it, or the `RepInterp` that holds the item of a round.
   */
  datatype Source =
    | Variable(value: Value)
    | Iterator(rest: seq<Value>)
    | Repeating(value: Value)
    | Item(value: Value)

  /** `quote_into_iter`: on an iterable, on a value that repeats, and on what it returned itself. */
  function QuoteIntoIter(source: Source): (Source, bool) {
    match source
    case Variable(value) => if value.List? then (Iterator(value.items), true) else (Repeating(value), false)
    case Item(value) => if value.List? then (Iterator(value.items), true) else (Repeating(value), false)
    case Iterator(_) => (source, true)
    case Repeating(_) => (source, false)
  }

  /** Calling it on its own result changes nothing, which is why a name may occur many times. */
  lemma QuoteIntoIterIsIdempotent(source: Source)
    ensures var (bound, isIter) := QuoteIntoIter(source); QuoteIntoIter(bound) == (bound, isIter)
  {
  }

  function SourceAt(v: Value, r: nat): Source {
    if v.Plain? then Repeating(v) else if r <= |v.items| then Iterator(v.items[r..]) else Iterator([])
  }

  /** The sources before round `r`. */
  predicate SourcesAt(sources: map<string, Source>, names: seq<string>, env: Env, r: nat)
    requires forall name :: name in names ==> name in env
  {
    forall name :: name in names ==> name in sources && sources[name] == SourceAt(env[name], r)
  }

  /** `quote_bind_into_iter`, once for every occurrence of every name. */
  method IntoIter(names: seq<string>, env: Env) returns (sources: map<string, Source>, hasIter: bool)
    requires forall name :: name in names ==> name in env
    ensures SourcesAt(sources, names, env, 0)
    ensures hasIter <==> exists name :: name in names && env[name].List?
  {
    sources, hasIter := map name | name in env :: Variable(env[name]), false;
    for i := 0 to |names|
      invariant sources.Keys == env.Keys
      invariant forall name :: name in env ==>
        sources[name] == if name in names[..i] then SourceAt(env[name], 0) else Variable(env[name])
      invariant hasIter <==> exists j :: 0 <= j < i && env[names[j]].List?
    {
      var name := names[i];
      QuoteIntoIterIsIdempotent(Variable(env[name]));
      var (bound, isIter) := QuoteIntoIter(sources[name]);
      sources := sources[name := bound];
      hasIter := hasIter || isIter;
    }
  }

  /** `next` of what a name is bound to; a `RepInterp` hands out the item it holds. */
  function Next(source: Source): Option<(Value, Source)>
    requires !source.Variable?
  {
    match source
    case Iterator(rest) => if rest == [] then None else Some((rest[0], Iterator(rest[1..])))
    case Repeating(value) => Some((value, source))
    case Item(value) => Some((value, source))
  }

  /** The bindings of one name in the loop body, the innermost last. */
  type Bindings = bs: seq<Source> | bs != [] && forall b :: b in bs ==> !b.Variable? witness [Iterator([])]

  /** The item of round `r`. */
  function ItemAt(v: Value, r: nat): Value {
    if v.List? && r < |v.items| then v.items[r] else v
  }

  /** After `count` occurrences of the name: the source, advanced once, below as many items. */
  function BindingsAfter(v: Value, r: nat, count: nat): Bindings {
    if count == 0 then [SourceAt(v, r)] else [SourceAt(v, r + 1)] + seq(count, _ => Item(ItemAt(v, r)))
  }

  /** `let $var = match $var.next()`: the innermost binding moves on and is shadowed by its item. */
  function BindNext(bindings: Bindings): Option<Bindings> {
    var top := |bindings| - 1;
    match Next(bindings[top])
    case None => None
    case Some((item, moved)) => Some(Shadowed(bindings, moved, item))
  }

  function Shadowed(bindings: Bindings, moved: Source, item: Value): Bindings
    requires !moved.Variable?
  {
    bindings[|bindings| - 1 := moved] + [Item(item)]
  }

  /** The first occurrence advances the source; every later one only shadows an item with itself. */
  lemma NextOccurrence(v: Value, r: nat, count: nat)
    requires v.List? ==> r <= |v.items| && (count > 0 ==> r < |v.items|)
    ensures var next := BindNext(BindingsAfter(v, r, count));
            if v.List? && r == |v.items| then next == None else next == Some(BindingsAfter(v, r, count + 1))
  {
    if count == 0 {
      FirstOccurrence(v, r);
    } else {
      LaterOccurrence(v, r, count);
    }
  }

  lemma FirstOccurrence(v: Value, r: nat)
    requires v.List? ==> r <= |v.items|
    ensures var next := BindNext([SourceAt(v, r)]);
            if v.List? && r == |v.items| then next == None else next == Some([SourceAt(v, r + 1), Item(ItemAt(v, r))])
    ensures BindingsAfter(v, r, 1) == [SourceAt(v, r + 1), Item(ItemAt(v, r))]
  {
    var item, bindings := ItemAt(v, r), [SourceAt(v, r)];
    assert seq(1, _ => Item(item)) == [Item(item)];
    NextOfSource(v, r);
    if v.List? ==> r < |v.items| {
      Shadowing(SourceAt(v, r), SourceAt(v, r + 1), item);
    }
  }

  lemma NextOfSource(v: Value, r: nat)
    requires v.List? ==> r <= |v.items|
    ensures Next(SourceAt(v, r)) == if v.List? && r == |v.items| then None else Some((ItemAt(v, r), SourceAt(v, r + 1)))
  {
  }

  lemma Shadowing(source: Source, moved: Source, item: Value)
    requires !source.Variable? && !moved.Variable?
    ensures Shadowed([source], moved, item) == [moved, Item(item)]
  {
  }

  lemma LaterOccurrence(v: Value, r: nat, count: nat)
    requires count > 0
    ensures BindNext(BindingsAfter(v, r, count)) == Some(BindingsAfter(v, r, count + 1))
  {
    var item := Item(ItemAt(v, r));
    var bindings := BindingsAfter(v, r, count);
    hide SourceAt, ItemAt;
    var top := |bindings| - 1;
    assert bindings[top] == item && Next(item) == Some((item.value, item));
    assert bindings[top := item] + [item] == BindingsAfter(v, r, count + 1);
  }

  /** How often a name occurs. */
  function Occurrences(names: seq<string>, name: string): nat {
    multiset(names)[name]
  }

  /** The bindings in the middle of round `r`, when `done` have been bound. */
  ghost predicate BoundUpTo(scope: map<string, Bindings>, done: seq<string>, env: Env, names: seq<string>, r: nat)
    requires forall name :: name in names ==> name in env
  {
    forall name :: name in names
        ==> name in scope && scope[name] == BindingsAfter(env[name], r, Occurrences(done, name))
  }

  lemma OneMoreOccurrence(done: seq<string>, name: string, other: string)
    ensures Occurrences(done + [name], other) == Occurrences(done, other) + if other == name then 1 else 0
  {
  }

  lemma AllOccur(names: seq<string>, name: string)
    ensures name in names <==> Occurrences(names, name) > 0
  {
  }

  /** What the names stand for in the body: the innermost binding. */
  function Innermost(scope: map<string, Bindings>, names: seq<string>, env: Env): Env
    requires forall name :: name in names ==> name in scope
  {
    map name | name in env ::
      if name in names && scope[name][|scope[name]| - 1].Item? then scope[name][|scope[name]| - 1].value else env[name]
  }

  /** What is left when the scope of the body ends: the outermost bindings. */
  function Outermost(scope: map<string, Bindings>): map<string, Source> {
    map name | name in scope :: scope[name][0]
  }

  lemma EndOfRound(scope: map<string, Bindings>, names: seq<string>, env: Env, r: nat)
    requires forall name :: name in names ==> name in env
    requires Served(names, env, r) && BoundUpTo(scope, names, env, names, r)
    ensures forall name :: name in names ==> name in scope
    ensures Innermost(scope, names, env) == RoundEnv(names, env, r)
    ensures SourcesAt(Outermost(scope), names, env, r + 1)
  {
    forall name | name in names
      ensures name in scope && scope[name][0] == SourceAt(env[name], r + 1)
      ensures scope[name][|scope[name]| - 1] == Item(ItemAt(env[name], r))
    {
      AllOccur(names, name);
    }
  }

  /** The scope of the body before anything is bound in it. */
  function OpenScope(sources: map<string, Source>): map<string, Bindings> {
    map name | name in sources && !sources[name].Variable? :: [sources[name]]
  }

  lemma StartOfRound(sources: map<string, Source>, names: seq<string>, env: Env, r: nat)
    requires forall name :: name in names ==> name in env
    requires SourcesAt(sources, names, env, r)
    ensures BoundUpTo(OpenScope(sources), [], env, names, r)
  {
  }

  /** No iterable among the names is exhausted. */
  ghost predicate Served(names: seq<string>, env: Env, r: nat)
    requires forall name :: name in names ==> name in env
  {
    forall name :: name in names && env[name].List? ==> r < |env[name].items|
  }

  /** Before round `r` of `n` every iterable has an item for it, except that the shortest may not. */
  lemma ServedBefore(names: seq<string>, env: Env, r: nat, n: nat)
    requires forall name :: name in names ==> name in env
    requires RoundCount(names, env) == Some(n)
    ensures r < n ==> Served(names, env, r)
    ensures r == n ==> !Served(names, env, r)
  {
    var shortest :| shortest in names && env[shortest].List? && n == |env[shortest].items|;
  }

  /**
   `quote_bind_next_or_break`, once for every occurrence of every name. A name that occurs again
   finds the `RepInterp` of its first occurrence, so its iterator advances once in the round.
   */
  method BindAll(names: seq<string>, env: Env, scope: map<string, Bindings>, ghost r: nat)
      returns (bound: Option<map<string, Bindings>>)
    requires forall name :: name in names ==> name in env
    requires forall name :: name in names && env[name].List? ==> r <= |env[name].items|
    requires BoundUpTo(scope, [], env, names, r)
    ensures bound.Some? <==> Served(names, env, r)
    ensures bound.Some? ==> BoundUpTo(bound.value, names, env, names, r)
  {
    hide BindNext, BoundUpTo;
    var current := scope;
    for i := 0 to |names|
      invariant BoundUpTo(current, names[..i], env, names, r)
      invariant forall j :: 0 <= j < i && env[names[j]].List? ==> r < |env[names[j]].items|
    {
      var name := names[i];
      NextName(current, names, i, env, r);
      var bindings := BindNext(current[name]);
      if bindings.None? {
        return None;
      }
      current := current[name := bindings.value];
    }
    assert names[..|names|] == names;
    bound := Some(current);
  }

  /** The bindings at the head of the loop body: the items of the round, or the end of the loop. */
  method NextOrBreak(names: seq<string>, env: Env, sources: map<string, Source>, ghost r: nat, ghost n: nat)
    returns (next: Option<Env>, advanced: map<string, Source>)
    requires forall name :: name in names ==> name in env
    requires RoundCount(names, env) == Some(n) && r <= n && SourcesAt(sources, names, env, r)
    ensures next.None? <==> r == n
    ensures next.Some? ==> next.value == RoundEnv(names, env, r) && SourcesAt(advanced, names, env, r + 1)
  {
    hide RoundEnv, RoundCount, Innermost, Outermost, BoundUpTo, SourcesAt, OpenScope;
    StartOfRound(sources, names, env, r);
    ServedBefore(names, env, r, n);
    var bound := BindAll(names, env, OpenScope(sources), r);
    if bound.None? {
      return None, sources;
    }
    EndOfRound(bound.value, names, env, r);
    next, advanced := Some(Innermost(bound.value, names, env)), Outermost(bound.value);
  }

  /** Binding the next name of the list, be it for the first time or not. */
  lemma NextName(scope: map<string, Bindings>, names: seq<string>, i: nat, env: Env, r: nat)
    requires (forall name :: name in names ==> name in env) && i < |names|
    requires BoundUpTo(scope, names[..i], env, names, r)
    requires forall j :: 0 <= j < i && env[names[j]].List? ==> r < |env[names[j]].items|
    requires env[names[i]].List? ==> r <= |env[names[i]].items|
    ensures names[i] in scope
    ensures var v, next := env[names[i]], BindNext(scope[names[i]]);
            && (next.None? <==> v.List? && r == |v.items|)
            && (next.Some? ==> BoundUpTo(scope[names[i] := next.value], names[..i + 1], env, names, r))
  {
    hide BindingsAfter, BindNext, Occurrences;
    var name, done := names[i], names[..i];
    assert names[..i + 1] == done + [name];
    AllOccur(done, name);
    NextOccurrence(env[name], r, Occurrences(done, name));
    forall other
      ensures Occurrences(done + [name], other) == Occurrences(done, other) + if other == name then 1 else 0 {
      OneMoreOccurrence(done, name, other);
    }
  }

  // ---------------------------------------------------------------- running code

  lemma EvalSplit(code: seq<Stmt>, i: nat, env: Env, mode: Mode)
    requires i < |code|
    ensures Eval(code[i..], env, mode) == Append(EvalStmt(code[i], env, mode), Eval(code[i + 1..], env, mode))
  {
    assert code[i..][0] == code[i] && code[i..][1..] == code[i + 1..];
  }

  /** Running code appends exactly its meaning to the stream. */
  method Run(code: seq<Stmt>, env: Env, mode: Mode, s: TokenStream)
    requires Eval(code, env, mode).Some?
    modifies s
    ensures s.tokens == old(s.tokens) + Eval(code, env, mode).value
    decreases code
  {
    hide EvalStmt, Eval;
    var i := 0;
    assert code[0..] == code;
    while i < |code|
      invariant i <= |code| && Eval(code[i..], env, mode).Some?
      invariant s.tokens + Eval(code[i..], env, mode).value == old(s.tokens) + Eval(code, env, mode).value
    {
      EvalSplit(code, i, env, mode);
      RunStmt(code[i], env, mode, s);
      i := i + 1;
    }
    NothingLeft(code[i..], env, mode);
  }

  lemma NothingLeft(code: seq<Stmt>, env: Env, mode: Mode)
    requires code == []
    ensures Eval(code, env, mode) == Some([])
  {
  }

  method RunStmt(stmt: Stmt, env: Env, mode: Mode, s: TokenStream)
    requires EvalStmt(stmt, env, mode).Some?
    modifies s
    ensures s.tokens == old(s.tokens) + EvalStmt(stmt, env, mode).value
    decreases stmt, 1
  {
    match stmt
    case PushLeaf(t) =>
      s.Extend(Spell(t, mode));
    case PushGroup(delimiter, body) =>
      var inner := new TokenStream();
      Run(body, env, mode, inner);
      assert inner.tokens == Eval(body, env, mode).value;
      s.Extend([Branch(delimiter, inner.tokens, SpanOf(mode))]);
    case ToTokens(name) =>
      s.Extend(env[name].tokens);
    case Loop(_, _, _) =>
      RunLoop(stmt, env, mode, s);
  }

  /** What is appended in one round. */
  function RoundText(s: Stmt, e: Env, mode: Mode, first: bool): Option<seq<Tree>>
    requires s.Loop?
  {
    Append(if first then Some([]) else Eval(s.separator, e, mode), Eval(s.body, e, mode))
  }

  lemma RoundUnfolds(s: Stmt, env: Env, mode: Mode, r: nat, n: nat)
    requires s.Loop? && r < n && EvalRounds(s, env, mode, r, n).Some?
    ensures var text := RoundText(s, RoundEnv(s.names, env, r), mode, r == 0);
            && text.Some? && EvalRounds(s, env, mode, r + 1, n).Some?
            && EvalRounds(s, env, mode, r, n).value == text.value + EvalRounds(s, env, mode, r + 1, n).value
  {
  }

  method RunRound(stmt: Stmt, e: Env, mode: Mode, first: bool, s: TokenStream)
    requires stmt.Loop? && RoundText(stmt, e, mode, first).Some?
    modifies s
    ensures s.tokens == old(s.tokens) + RoundText(stmt, e, mode, first).value
    decreases stmt, 0, 0
  {
    hide Eval;
    if !first {
      Run(stmt.separator, e, mode, s);
    }
    Run(stmt.body, e, mode, s);
  }

  /** The expanded repetition: `while true`, with a flag that holds back the first separator. */
  method RunLoop(stmt: Stmt, env: Env, mode: Mode, s: TokenStream)
    requires stmt.Loop? && EvalStmt(stmt, env, mode).Some?
    modifies s
    ensures s.tokens == old(s.tokens) + EvalStmt(stmt, env, mode).value
    decreases stmt, 0, 1
  {
    hide *;
    LoopMeans(stmt, env, mode);
    var sources, hasIter := IntoIter(stmt.names, env);
    ghost var n := RoundCount(stmt.names, env).value;
    ghost var r := 0;
    ghost var whole := EvalRounds(stmt, env, mode, 0, n).value;
    var first := true;
    while true
      invariant r <= n && RoundCount(stmt.names, env) == Some(n) && SourcesAt(sources, stmt.names, env, r)
      invariant first == (r == 0)
      invariant EvalRounds(stmt, env, mode, r, n).Some?
      invariant s.tokens + EvalRounds(stmt, env, mode, r, n).value == old(s.tokens) + whole
      decreases n - r
    {
      var next;
      next, sources := NextOrBreak(stmt.names, env, sources, r, n);
      if next.None? {
        break;
      }
      RoundUnfolds(stmt, env, mode, r, n);
      RunRound(stmt, next.value, mode, first, s);
      first := false;
      r := r + 1;
    }
    NoRounds(stmt, env, mode, n);
  }

  lemma LoopMeans(s: Stmt, env: Env, mode: Mode)
    requires s.Loop? && EvalStmt(s, env, mode).Some?
    ensures forall name :: name in s.names ==> name in env
    ensures RoundCount(s.names, env).Some?
    ensures EvalRounds(s, env, mode, 0, RoundCount(s.names, env).value) == EvalStmt(s, env, mode)
  {
  }

  lemma NoRounds(s: Stmt, env: Env, mode: Mode, n: nat)
    requires s.Loop?
    ensures EvalRounds(s, env, mode, n, n) == Some([])
  {
  }

  lemma OneLeafMeans(t: Token, env: Env, mode: Mode)
    requires !t.Group?
    ensures Eval(Quote([t]), env, mode) == Some(Spell(t, mode))
  {
    assert [PushLeaf(t)][1..] == [];
    assert Spell(t, mode) + [] == Spell(t, mode);
  }

  /**
   An invocation: what comes out is the meaning of reading the tokens from left to right, and of a
   token that is no group its spelling.
   */
  method Invoke(ts: seq<Token>, env: Env, mode: Mode) returns (tokens: seq<Tree>)
    requires Eval(Reference(ts), env, mode).Some?
    ensures tokens == Eval(Reference(ts), env, mode).value
    ensures |ts| == 1 && !ts[0].Group? ==> IsSpelling(ts[0], mode, tokens)
  {
    QuoteIsReference(ts);
    if |ts| == 1 && !ts[0].Group? {
      OneLeafMeans(ts[0], env, mode);
      SpellIsSpelling(ts[0], mode);
      assert ts == [ts[0]];
    }
    hide Eval, Reference;
    var s := new TokenStream();
    Run(Quote(ts), env, mode, s);
    tokens := s.tokens;
  }
}
