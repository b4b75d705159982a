/**
 What an invocation of `quote!` or `quote_spanned!` (`patches/quote/src/lib.rs`) yields, form by
 form and in terms of its tokens: names, groups, and repetitions as bodies with separators between.
 */
module Meaning {

  import opened Wrappers
  import opened Windows
  import opened Patterns
  import opened Expansion
  import opened Repetition

  /** The tokens an invocation yields, if it compiles for these values. */
  function Yield(ts: seq<Token>, env: Env, mode: Mode): Option<seq<Tree>> {
    Eval(Quote(ts), env, mode)
  }

  // ---------------------------------------------------------------- one form after the other

  lemma QuoteOps(ts: seq<Token>)
    ensures Quote(ts) == ExpandOps(EachToken(ts))
  {
    ShortArms(ts);
    WindowsAreMuncher(ts);
  }

  lemma AppendAssoc(a: Option<seq<Tree>>, b: Option<seq<Tree>>, c: Option<seq<Tree>>)
    ensures Append(Append(a, b), c) == Append(a, Append(b, c))
  {
    if a.Some? && b.Some? && c.Some? {
      assert a.value + b.value + c.value == a.value + (b.value + c.value);
    }
  }

  lemma AppendNothing(a: Option<seq<Tree>>)
    ensures Append(Some([]), a) == a && Append(a, Some([])) == a
  {
    if a.Some? {
      assert [] + a.value == a.value && a.value + [] == a.value;
    }
  }

  lemma {:induction false} EvalConcat(a: seq<Stmt>, b: seq<Stmt>, env: Env, mode: Mode)
    ensures Eval(a + b, env, mode) == Append(Eval(a, env, mode), Eval(b, env, mode))
  {
    hide EvalStmt, Append;
    if a == [] {
      assert a + b == b;
      AppendNothing(Eval(b, env, mode));
    } else {
      assert (a + b)[0] == a[0] && (a + b)[1..] == a[1..] + b;
      EvalConcat(a[1..], b, env, mode);
      AppendAssoc(EvalStmt(a[0], env, mode), Eval(a[1..], env, mode), Eval(b, env, mode));
    }
  }

  lemma EvalOne(s: Stmt, env: Env, mode: Mode)
    ensures Eval([s], env, mode) == EvalStmt(s, env, mode)
  {
    hide Append;
    assert [s][1..] == [];
    AppendNothing(EvalStmt(s, env, mode));
  }

  /** What the first operation yields comes before what the others do. */
  lemma YieldOfOp(ts: seq<Token>, op: Op, rest: seq<Token>, env: Env, mode: Mode)
    requires EachToken(ts) == [op] + EachToken(rest)
    ensures Yield(ts, env, mode) == Append(Eval(ExpandOp(op), env, mode), Yield(rest, env, mode))
  {
    hide EachToken, ExpandOp, ExpandOps, Quote, Eval, Append;
    QuoteOps(ts);
    QuoteOps(rest);
    ExpandPrepend(op, EachToken(rest));
    EvalConcat(ExpandOp(op), Quote(rest), env, mode);
  }

  /** A token other than `#` yields what it yields on its own, before what the rest yields. */
  lemma OrdinaryYields(t: Token, rest: seq<Token>, env: Env, mode: Mode)
    requires t != Punct("#")
    ensures Yield([t] + rest, env, mode) == Append(Yield([t], env, mode), Yield(rest, env, mode))
  {
    hide EachToken, Eval, Append, QuoteToken;
    Ordinary(t, rest);
    YieldOfOp([t] + rest, Push(t), rest, env, mode);
  }

  /** A leaf on its own is its spelling. */
  lemma LeafYields(t: Token, env: Env, mode: Mode)
    requires !t.Group?
    ensures Yield([t], env, mode).Some? && IsSpelling(t, mode, Yield([t], env, mode).value)
  {
    hide Eval, IsSpelling, Spell;
    OneLeafMeans(t, env, mode);
    SpellIsSpelling(t, mode);
  }

  /** A group yields a group with the same delimiter around what its tokens yield. */
  lemma GroupYields(delimiter: Delimiter, inner: seq<Token>, env: Env, mode: Mode)
    ensures var body := Yield(inner, env, mode);
            var span := if mode.Spanned? then mode.span else CALL_SITE;
            Yield([Group(delimiter, inner)], env, mode)
            == if body.None? then None else Some([Branch(delimiter, body.value, span)])
  {
    EvalOne(PushGroup(delimiter, Quote(inner)), env, mode);
    QuoteOfGroup(delimiter, inner);
    hide Eval, Quote;
  }

  lemma QuoteOfGroup(delimiter: Delimiter, inner: seq<Token>)
    ensures Quote([Group(delimiter, inner)]) == [PushGroup(delimiter, Quote(inner))]
  {
  }

  /** `#name` yields the tokens of the value, whatever span the invocation has. */
  lemma NameYields(name: string, rest: seq<Token>, env: Env, mode: Mode)
    requires name in env && env[name].Plain?
    ensures Yield([Punct("#"), Ident(name)] + rest, env, mode)
         == Append(Some(env[name].tokens), Yield(rest, env, mode))
  {
    hide EachToken, Append, Quote;
    Interpolation(name, rest);
    YieldOfOp([Punct("#"), Ident(name)] + rest, Interpolate(name), rest, env, mode);
    EvalOne(ToTokens(name), env, mode);
  }

  // ---------------------------------------------------------------- names

  /** `# name` stands somewhere in the tokens, at any depth. */
  predicate Mentions(ts: seq<Token>, name: string)
    decreases ts
  {
    || (exists i :: 1 <= i < |ts| && ts[i] == Ident(name) && ts[i - 1] == Punct("#"))
    || (exists i :: 0 <= i < |ts| && ts[i].Group? && Mentions(ts[i].inner, name))
  }

  /** The token before position `i`. */
  function Before(before: Token, ts: seq<Token>, i: nat): Token
    requires i < |ts|
  {
    if i == 0 then before else ts[i - 1]
  }

  lemma {:induction false} BehindAt(before: Token, ts: seq<Token>, name: string)
    ensures name in NamesBehind(before, ts)
       <==> exists i :: 0 <= i < |ts| && name in PoundedPair(Before(before, ts, i), ts[i])
    decreases |ts|
  {
    hide PoundedPair;
    if ts != [] {
      BehindAt(ts[0], ts[1..], name);
      assert forall i :: 0 <= i < |ts| - 1 ==>
        Before(ts[0], ts[1..], i) == Before(before, ts, i + 1) && ts[1..][i] == ts[i + 1];
      if name in NamesBehind(ts[0], ts[1..]) {
        var i :| 0 <= i < |ts| - 1 && name in PoundedPair(Before(ts[0], ts[1..], i), ts[1..][i]);
        assert name in PoundedPair(Before(before, ts, i + 1), ts[i + 1]);
      }
      if i: nat :| i < |ts| && name in PoundedPair(Before(before, ts, i), ts[i]) {
        if i > 0 {
          assert name in PoundedPair(Before(ts[0], ts[1..], i - 1), ts[1..][i - 1]);
        } else {
          assert name in PoundedPair(before, ts[0]);
        }
      }
    }
  }

  /** A repetition binds exactly the names that its tokens mention. */
  lemma {:induction false} BoundAreMentioned(ts: seq<Token>, name: string)
    ensures name in PoundedNames(ts) <==> Mentions(ts, name)
    decreases ts
  {
    PoundedIsBehindPad(ts);
    BehindAt(PAD, ts, name);
    forall i | 0 <= i < |ts| && ts[i].Group?
      ensures name in PoundedNames(ts[i].inner) <==> Mentions(ts[i].inner, name)
    {
      BoundAreMentioned(ts[i].inner, name);
    }
    hide PoundedNames;
    forall i | 0 <= i < |ts|
      ensures name in PoundedPair(Before(PAD, ts, i), ts[i])
         <==> if ts[i].Group? then Mentions(ts[i].inner, name)
              else i > 0 && ts[i] == Ident(name) && ts[i - 1] == Punct("#")
    {
    }
  }

  // ---------------------------------------------------------------- repetitions

  /** What the names stand for in round `r`: iterables that the body mentions for their item. */
  ghost predicate IsRound(env: Env, body: seq<Token>, r: nat, e: Env) {
    && e.Keys == env.Keys
    && forall name :: name in env ==>
         e[name] == if Mentions(body, name) && env[name].List? && r < |env[name].items| then env[name].items[r]
                    else env[name]
  }

  /** There are as many rounds as the shortest iterable that the body mentions has items. */
  ghost predicate HasRounds(env: Env, body: seq<Token>, n: nat) {
    && (forall name :: Mentions(body, name) ==> name in env)
    && (forall name :: Mentions(body, name) && env[name].List? ==> n <= |env[name].items|)
    && (exists name :: Mentions(body, name) && env[name].List? && n == |env[name].items|)
  }

  /** The bodies in order, with the separators between them. */
  function Interleaved(bodies: seq<seq<Tree>>, separators: seq<seq<Tree>>): seq<Tree>
    requires |bodies| == |separators|
    decreases |bodies|
  {
    if |bodies| == 0 then []
    else if |bodies| == 1 then bodies[0]
    else
      var n := |bodies| - 1;
      Interleaved(bodies[..n], separators[..n]) + separators[n] + bodies[n]
  }

  lemma RoundIsRoundEnv(env: Env, body: seq<Token>, r: nat, e: Env)
    requires IsRound(env, body, r, e)
    ensures e == RoundEnv(PoundedNames(body), env, r)
  {
    hide PoundedNames, Mentions;
    forall name | name in env ensures e[name] == RoundEnv(PoundedNames(body), env, r)[name] {
      BoundAreMentioned(body, name);
    }
  }

  lemma CountOfRounds(env: Env, body: seq<Token>, n: nat)
    requires HasRounds(env, body, n)
    ensures forall name :: name in PoundedNames(body) ==> name in env
    ensures RoundCount(PoundedNames(body), env) == Some(n)
  {
    hide PoundedNames, Mentions, RoundCount;
    var names := PoundedNames(body);
    forall name ensures name in names <==> Mentions(body, name) {
      BoundAreMentioned(body, name);
    }
    var shortest :| Mentions(body, shortest) && env[shortest].List? && n == |env[shortest].items|;
    assert shortest in names;
    assert RoundCount(names, env).Some?;
    var other :| other in names && env[other].List? && RoundCount(names, env).value == |env[other].items|;
    assert Mentions(body, other);
  }

  /** The rounds from `r` on, behind those before. */
  lemma {:induction false} RoundsInterleave(s: Stmt, env: Env, mode: Mode, bodies: seq<seq<Tree>>,
                                            separators: seq<seq<Tree>>, r: nat)
    requires s.Loop? && r <= |bodies| == |separators|
    requires forall k :: 0 <= k < |bodies| ==> Eval(s.body, RoundEnv(s.names, env, k), mode) == Some(bodies[k])
    requires forall k :: 0 <= k < |bodies| ==> Eval(s.separator, RoundEnv(s.names, env, k), mode) == Some(separators[k])
    ensures var rest := EvalRounds(s, env, mode, r, |bodies|);
            rest.Some? && Interleaved(bodies[..r], separators[..r]) + rest.value == Interleaved(bodies, separators)
    decreases |bodies| - r
  {
    hide Eval, RoundEnv, EvalRounds, Interleaved;
    if r == |bodies| {
      assert bodies[..r] == bodies && separators[..r] == separators;
      NoRounds(s, env, mode, r);
    } else {
      RoundsInterleave(s, env, mode, bodies, separators, r + 1);
      var rest := EvalRounds(s, env, mode, r + 1, |bodies|).value;
      var text := (if r == 0 then [] else separators[r]) + bodies[r];
      OneRound(s, env, mode, r, |bodies|, separators[r], bodies[r], rest);
      InterleavedStep(bodies, separators, r);
      assert Interleaved(bodies[..r], separators[..r]) + (text + rest)
          == Interleaved(bodies[..r], separators[..r]) + text + rest;
    }
  }

  lemma OneRound(s: Stmt, env: Env, mode: Mode, r: nat, n: nat, separator: seq<Tree>, body: seq<Tree>, rest: seq<Tree>)
    requires s.Loop? && r < n && EvalRounds(s, env, mode, r + 1, n) == Some(rest)
    requires Eval(s.body, RoundEnv(s.names, env, r), mode) == Some(body)
    requires Eval(s.separator, RoundEnv(s.names, env, r), mode) == Some(separator)
    ensures EvalRounds(s, env, mode, r, n) == Some((if r == 0 then [] else separator) + body + rest)
  {
    hide Eval, RoundEnv;
  }

  lemma InterleavedStep(bodies: seq<seq<Tree>>, separators: seq<seq<Tree>>, r: nat)
    requires r < |bodies| == |separators|
    ensures Interleaved(bodies[..r + 1], separators[..r + 1])
         == Interleaved(bodies[..r], separators[..r]) + ((if r == 0 then [] else separators[r]) + bodies[r])
  {
    var b, s := bodies[..r + 1], separators[..r + 1];
    assert b[..r] == bodies[..r] && s[..r] == separators[..r] && b[r] == bodies[r] && s[r] == separators[r];
    if r > 0 {
      var front := Interleaved(b[..r], s[..r]);
      assert front + s[r] + b[r] == front + (s[r] + b[r]);
    } else {
      assert Interleaved(b[..0], s[..0]) == [];
    }
  }

  /** The tokens of a repetition. */
  function RepetitionTokens(body: seq<Token>, separator: Option<Token>): seq<Token> {
    if separator.Some? then [Punct("#"), Group(Parenthesis, body), separator.value, Punct("*")]
    else [Punct("#"), Group(Parenthesis, body), Punct("*")]
  }

  /**
   A repetition yields what its body yields in every round, in order, with what the separator yields
   between the rounds only, before what the rest yields.
   */
  lemma RepetitionYields(body: seq<Token>, separator: Option<Token>, rest: seq<Token>, env: Env, mode: Mode,
                         envs: seq<Env>, bodies: seq<seq<Tree>>, separators: seq<seq<Tree>>)
    requires separator != Some(Punct("*"))
    requires HasRounds(env, body, |bodies|) && |envs| == |separators| == |bodies|
    requires forall r :: 0 <= r < |envs| ==> IsRound(env, body, r, envs[r])
    requires forall r :: 0 <= r < |envs| ==> Yield(body, envs[r], mode) == Some(bodies[r])
    requires forall r :: 0 <= r < |envs| ==>
      Some(separators[r]) == if separator.Some? then Yield([separator.value], envs[r], mode) else Some([])
    ensures Yield(RepetitionTokens(body, separator) + rest, env, mode)
         == Append(Some(Interleaved(bodies, separators)), Yield(rest, env, mode))
  {
    hide *;
    var op := Repeat(body, separator);
    FrontOfRepetition(body, separator, rest);
    YieldOfOp(RepetitionTokens(body, separator) + rest, op, rest, env, mode);
    LoopOfRepetition(body, separator);
    SeparatorYields(separator, envs, mode, separators);
    BodyYields(body, envs, mode, bodies);
    LoopYields(body, if separator.Some? then Quote([separator.value]) else [], env, mode, envs, bodies, separators);
  }

  lemma FrontOfRepetition(body: seq<Token>, separator: Option<Token>, rest: seq<Token>)
    requires separator != Some(Punct("*"))
    ensures EachToken(RepetitionTokens(body, separator) + rest) == [Repeat(body, separator)] + EachToken(rest)
  {
    hide EachToken;
    if separator.Some? {
      SeparatedRepetition(body, separator.value, rest);
    } else {
      PlainRepetition(body, rest);
    }
  }

  lemma LoopOfRepetition(body: seq<Token>, separator: Option<Token>)
    ensures ExpandOp(Repeat(body, separator))
         == [Loop(PoundedNames(body), if separator.Some? then Quote([separator.value]) else [], Quote(body))]
  {
    QuoteOps(body);
    hide EachToken, ExpandOps, PoundedNames, QuoteToken;
  }

  lemma BodyYields(body: seq<Token>, envs: seq<Env>, mode: Mode, bodies: seq<seq<Tree>>)
    requires |envs| == |bodies| && forall r :: 0 <= r < |envs| ==> Yield(body, envs[r], mode) == Some(bodies[r])
    ensures forall r :: 0 <= r < |envs| ==> Eval(Quote(body), envs[r], mode) == Some(bodies[r])
  {
    hide Eval, Quote;
  }

  lemma SeparatorYields(separator: Option<Token>, envs: seq<Env>, mode: Mode, separators: seq<seq<Tree>>)
    requires |envs| == |separators|
    requires forall r :: 0 <= r < |envs| ==>
      Some(separators[r]) == if separator.Some? then Yield([separator.value], envs[r], mode) else Some([])
    ensures var code := if separator.Some? then Quote([separator.value]) else [];
            forall r :: 0 <= r < |envs| ==> Eval(code, envs[r], mode) == Some(separators[r])
  {
    NoCode(envs, mode);
    hide Eval, Quote;
  }

  /** The expanded loop yields the rounds with what its separator yields between them. */
  lemma LoopYields(body: seq<Token>, separator: seq<Stmt>, env: Env, mode: Mode, envs: seq<Env>,
                   bodies: seq<seq<Tree>>, separators: seq<seq<Tree>>)
    requires HasRounds(env, body, |bodies|) && |envs| == |separators| == |bodies|
    requires forall r :: 0 <= r < |envs| ==> IsRound(env, body, r, envs[r])
    requires forall r :: 0 <= r < |envs| ==> Eval(Quote(body), envs[r], mode) == Some(bodies[r])
    requires forall r :: 0 <= r < |envs| ==> Eval(separator, envs[r], mode) == Some(separators[r])
    ensures Eval([Loop(PoundedNames(body), separator, Quote(body))], env, mode)
         == Some(Interleaved(bodies, separators))
  {
    var loop := Loop(PoundedNames(body), separator, Quote(body));
    NothingInterleaved(bodies, separators);
    hide *;
    forall k | 0 <= k < |bodies|
      ensures Eval(loop.body, RoundEnv(loop.names, env, k), mode) == Some(bodies[k])
      ensures Eval(loop.separator, RoundEnv(loop.names, env, k), mode) == Some(separators[k])
    {
      RoundIsRoundEnv(env, body, k, envs[k]);
    }
    CountOfRounds(env, body, |bodies|);
    RoundsInterleave(loop, env, mode, bodies, separators, 0);
    LoopIsRounds(loop, env, mode, |bodies|);
    EvalOne(loop, env, mode);
    var text := EvalRounds(loop, env, mode, 0, |bodies|).value;
    assert [] + text == text;
  }

  lemma LoopIsRounds(s: Stmt, env: Env, mode: Mode, n: nat)
    requires s.Loop? && (forall name :: name in s.names ==> name in env) && RoundCount(s.names, env) == Some(n)
    ensures EvalStmt(s, env, mode) == EvalRounds(s, env, mode, 0, n)
  {
    hide EvalRounds, RoundCount;
  }

  lemma NoCode(envs: seq<Env>, mode: Mode)
    ensures forall r :: 0 <= r < |envs| ==> Eval([], envs[r], mode) == Some([])
  {
  }

  lemma NothingInterleaved(bodies: seq<seq<Tree>>, separators: seq<seq<Tree>>)
    requires |bodies| == |separators|
    ensures Interleaved(bodies[..0], separators[..0]) == []
  {
  }
}
