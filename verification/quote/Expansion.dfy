/**
 What the `quote!` macros expand to (`patches/quote/src/lib.rs`): the arms for few tokens, the
 general arm, nested groups and repetitions, and the names a repetition binds. The reference is
 a left-to-right reading of the tokens.
 */
module Expansion {

  import opened Wrappers
  import opened Windows

  /** The code an invocation expands to; a repetition without a separator pushes nothing between rounds. */
  datatype Stmt =
    | PushLeaf(token: Token)
    | PushGroup(delimiter: Delimiter, body: seq<Stmt>)
    | ToTokens(name: string)
    | Loop(names: seq<string>, separator: seq<Stmt>, body: seq<Stmt>)

  // ---------------------------------------------------------------- sizes

  function TokenSize(t: Token): nat {
    if t.Group? then 2 + Size(t.inner) else 1
  }

  function Size(ts: seq<Token>): nat {
    if ts == [] then 0 else TokenSize(ts[0]) + Size(ts[1..])
  }

  function OpSize(op: Op): nat {
    match op
    case Push(t) => TokenSize(t)
    case Interpolate(_) => 1
    case Repeat(inner, separator) => 1 + Size(inner) + (if separator.Some? then TokenSize(separator.value) else 0)
  }

  function OpsSize(ops: seq<Op>): nat {
    if ops == [] then 0 else OpSize(ops[0]) + OpsSize(ops[1..])
  }

  lemma OpSizeIsPositive(op: Op)
    ensures OpSize(op) > 0
  {
  }

  lemma {:induction false} SizeOfSplit(ts: seq<Token>, n: nat)
    requires n <= |ts|
    ensures Size(ts) == Size(ts[..n]) + Size(ts[n..])
  {
    if n == 0 {
      assert ts[0..] == ts;
    } else {
      SizeOfSplit(ts[1..], n - 1);
      assert ts[1..][n - 1..] == ts[n..] && ts[..n][1..] == ts[1..][..n - 1];
    }
  }

  lemma SizeOfFront(ts: seq<Token>)
    ensures |ts| >= 2 ==> Size(ts) == TokenSize(ts[0]) + TokenSize(ts[1]) + Size(ts[2..])
    ensures |ts| >= 3 ==> Size(ts) == TokenSize(ts[0]) + TokenSize(ts[1]) + TokenSize(ts[2]) + Size(ts[3..])
    ensures |ts| >= 4
            ==> Size(ts) == TokenSize(ts[0]) + TokenSize(ts[1]) + TokenSize(ts[2]) + TokenSize(ts[3]) + Size(ts[4..])
  {
    if |ts| >= 2 { assert ts[1..][1..] == ts[2..]; }
    if |ts| >= 3 { assert ts[2..][1..] == ts[3..]; }
    if |ts| >= 4 { assert ts[3..][1..] == ts[4..]; }
  }

  /** Operations are no larger than the tokens they were made of. */
  lemma {:induction false} MunchSize(ts: seq<Token>)
    ensures OpsSize(Munch(ts)) <= Size(ts)
  {
    if ts != [] {
      SizeOfFront(ts);
      var n := Consumed(ts);
      MunchSize(ts[n..]);
      assert Munch(ts)[1..] == Munch(ts[n..]);
    }
  }

  lemma EachTokenSize(ts: seq<Token>)
    ensures OpsSize(EachToken(ts)) <= Size(ts)
  {
    WindowsAreMuncher(ts);
    MunchSize(ts);
  }

  lemma {:induction false} TokenWithin(ts: seq<Token>, i: nat)
    requires i < |ts|
    ensures TokenSize(ts[i]) <= Size(ts)
  {
    if i > 0 {
      TokenWithin(ts[1..], i - 1);
    }
  }

  // ---------------------------------------------------------------- names

  /** `pounded_var_with_context`: what one pair of neighbours contributes. */
  function PoundedPair(b1: Token, curr: Token): seq<string>
    decreases TokenSize(curr), 0
  {
    if curr.Group? then PoundedNames(curr.inner)
    else if b1 == POUND && curr.Ident? then [curr.name]
    else []
  }

  /** `pounded_var_names_with_context` on the rows `@ ts` and `ts @`, from column `k` on. */
  function PoundedFrom(ts: seq<Token>, k: nat): seq<string>
    requires k <= |ts| + 1
    decreases Size(ts) + 1, 1, |ts| + 1 - k
  {
    if k == |ts| + 1 then []
    else
      if k < |ts| then TokenWithin(ts, k); PoundedPair(([PAD] + ts)[k], (ts + [PAD])[k]) + PoundedFrom(ts, k + 1)
      else PoundedPair(([PAD] + ts)[k], (ts + [PAD])[k]) + PoundedFrom(ts, k + 1)
  }

  /** `pounded_var_names`. */
  function PoundedNames(ts: seq<Token>): seq<string>
    decreases Size(ts) + 1, 2
  {
    PoundedFrom(ts, 0)
  }

  // ---------------------------------------------------------------- the macros

  /** `quote_token`. */
  function QuoteToken(t: Token): seq<Stmt>
    decreases TokenSize(t), 0
  {
    if t.Group? then [PushGroup(t.delimiter, Quote(t.inner))] else [PushLeaf(t)]
  }

  function ExpandOp(op: Op): seq<Stmt>
    decreases OpSize(op), 1
  {
    match op
    case Push(t) => QuoteToken(t)
    case Interpolate(name) => [ToTokens(name)]
    case Repeat(inner, separator) =>
      [Loop(PoundedNames(inner), if separator.Some? then QuoteToken(separator.value) else [], QuoteEachToken(inner))]
  }

  function ExpandOps(ops: seq<Op>): seq<Stmt>
    decreases OpsSize(ops), 2
  {
    if ops == [] then [] else OpSizeIsPositive(ops[0]); ExpandOp(ops[0]) + ExpandOps(ops[1..])
  }

  /** `quote_each_token`, everything expanded. */
  function QuoteEachToken(ts: seq<Token>): seq<Stmt>
    decreases Size(ts), 3
  {
    EachTokenSize(ts);
    ExpandOps(EachToken(ts))
  }

  /** `quote!`: no token, one token, an interpolation, two tokens, or any other number. */
  function Quote(ts: seq<Token>): seq<Stmt>
    decreases Size(ts), 4
  {
    if |ts| == 0 then []
    else if |ts| == 1 then QuoteToken(ts[0])
    else if |ts| == 2 && ts[0] == POUND && ts[1].Ident? then [ToTokens(ts[1].name)]
    else if |ts| == 2 then SizeOfFront(ts); QuoteToken(ts[0]) + QuoteToken(ts[1])
    else QuoteEachToken(ts)
  }

  // ---------------------------------------------------------------- the reference

  function ReferenceToken(t: Token): seq<Stmt>
    decreases TokenSize(t), 0
  {
    if t.Group? then [PushGroup(t.delimiter, Reference(t.inner))] else [PushLeaf(t)]
  }

  /** Reads the tokens from left to right; groups and repetitions are read inside in the same way. */
  function Reference(ts: seq<Token>): seq<Stmt>
    decreases Size(ts), 1
  {
    if ts == [] then []
    else
      SizeOfFront(ts);
      if StartsRepeat(ts) then
        var body := Reference(ts[1].inner);
        [Loop(NamesOf(body), [], body)] + Reference(ts[3..])
      else if StartsSeparated(ts) then
        var body := Reference(ts[1].inner);
        [Loop(NamesOf(body), ReferenceToken(ts[2]), body)] + Reference(ts[4..])
      else if StartsVar(ts) then [ToTokens(ts[1].name)] + Reference(ts[2..])
      else ReferenceToken(ts[0]) + Reference(ts[1..])
  }

  /** The names a piece of code interpolates, wherever in it, in order. */
  function NamesOf(code: seq<Stmt>): seq<string> {
    if code == [] then [] else NamesOfStmt(code[0]) + NamesOf(code[1..])
  }

  function NamesOfStmt(s: Stmt): seq<string> {
    match s
    case PushLeaf(_) => []
    case PushGroup(_, body) => NamesOf(body)
    case ToTokens(name) => [name]
    case Loop(_, separator, body) => NamesOf(body) + NamesOf(separator)
  }

  // ---------------------------------------------------------------- names: the proof

  lemma NamesHead(code: seq<Stmt>)
    ensures NamesOf(code) == if code == [] then [] else NamesOfStmt(code[0]) + NamesOf(code[1..])
  {
  }

  lemma {:induction false} NamesConcat(a: seq<Stmt>, b: seq<Stmt>)
    ensures NamesOf(a + b) == NamesOf(a) + NamesOf(b)
  {
    hide NamesOf, NamesOfStmt;
    NamesHead(a);
    NamesHead(a + b);
    if a == [] {
      assert a + b == b;
    } else {
      assert (a + b)[1..] == a[1..] + b;
      NamesConcat(a[1..], b);
    }
  }

  /** The names from column `k` on depend on the tokens from there on and on the one before. */
  function NamesBehind(before: Token, ts: seq<Token>): seq<string>
    decreases |ts|
  {
    if ts == [] then [] else PoundedPair(before, ts[0]) + NamesBehind(ts[0], ts[1..])
  }

  lemma {:induction false} PoundedIsBehind(ts: seq<Token>, k: nat)
    requires k <= |ts|
    ensures PoundedFrom(ts, k) == NamesBehind(([PAD] + ts)[k], ts[k..])
    decreases |ts| - k
  {
    if k < |ts| {
      PoundedIsBehind(ts, k + 1);
      assert ts[k..][0] == ts[k] && ts[k..][1..] == ts[k + 1..];
    } else {
      assert PoundedFrom(ts, k + 1) == [];
    }
  }

  /** A token that is not `#` never makes an identifier behind it count. */
  lemma PlainBefore(before: Token, ts: seq<Token>)
    requires before != POUND || ts == [] || !ts[0].Ident?
    ensures NamesBehind(before, ts) == NamesBehind(PAD, ts)
  {
  }

  lemma PairOfLeaf(before: Token, t: Token)
    requires !t.Group? && !(before == POUND && t.Ident?)
    ensures PoundedPair(before, t) == []
  {
  }

  lemma PairOfGroup(before: Token, t: Token)
    requires t.Group?
    ensures PoundedPair(before, t) == PoundedNames(t.inner)
  {
  }

  lemma NamesOfRepeat(ts: seq<Token>)
    requires StartsRepeat(ts)
    ensures NamesBehind(PAD, ts) == PoundedNames(ts[1].inner) + NamesBehind(PAD, ts[3..])
  {
    hide PoundedNames, PoundedPair, NamesBehind;
    BehindUnfolds(PAD, ts);
    BehindUnfolds(ts[0], ts[1..]);
    BehindUnfolds(ts[1], ts[2..]);
    PairOfLeaf(PAD, ts[0]);
    PairOfGroup(ts[0], ts[1]);
    PairOfLeaf(ts[1], ts[2]);
    assert ts[2..][1..] == ts[3..];
    PlainBefore(ts[2], ts[3..]);
  }

  lemma NamesOfSeparated(ts: seq<Token>)
    requires StartsSeparated(ts)
    ensures NamesBehind(PAD, ts) == PoundedNames(ts[1].inner) + PoundedPair(PAD, ts[2]) + NamesBehind(PAD, ts[4..])
  {
    assert PoundedPair(ts[1], ts[2]) == PoundedPair(PAD, ts[2]);
    hide PoundedNames, PoundedPair, NamesBehind;
    BehindUnfolds(PAD, ts);
    BehindUnfolds(ts[0], ts[1..]);
    BehindUnfolds(ts[1], ts[2..]);
    BehindUnfolds(ts[2], ts[3..]);
    PairOfLeaf(PAD, ts[0]);
    PairOfGroup(ts[0], ts[1]);
    PairOfLeaf(ts[2], ts[3]);
    assert ts[2..][1..] == ts[3..] && ts[3..][1..] == ts[4..];
    PlainBefore(ts[3], ts[4..]);
  }

  lemma NamesOfVar(ts: seq<Token>)
    requires StartsVar(ts)
    ensures NamesBehind(PAD, ts) == [ts[1].name] + NamesBehind(PAD, ts[2..])
  {
    assert PoundedPair(ts[0], ts[1]) == [ts[1].name];
    hide PoundedNames, PoundedPair, NamesBehind;
    BehindUnfolds(PAD, ts);
    BehindUnfolds(ts[0], ts[1..]);
    PairOfLeaf(PAD, ts[0]);
    PlainBefore(ts[1], ts[2..]);
  }

  lemma NamesOfOrdinary(ts: seq<Token>)
    requires ts != [] && !StartsVar(ts)
    ensures NamesBehind(PAD, ts) == PoundedPair(PAD, ts[0]) + NamesBehind(PAD, ts[1..])
  {
    hide PoundedNames, PoundedPair, NamesBehind;
    BehindUnfolds(PAD, ts);
    PlainBefore(ts[0], ts[1..]);
  }

  lemma BehindUnfolds(before: Token, ts: seq<Token>)
    ensures ts != [] ==> NamesBehind(before, ts) == PoundedPair(before, ts[0]) + NamesBehind(ts[0], ts[1..])
    ensures |ts| > 1 ==> ts[1..][1..] == ts[2..]
  {
  }

  // ---------------------------------------------------------------- the theorem

  /** The expansion is the reference and binds the names the reference interpolates. */
  ghost predicate Agrees(ts: seq<Token>) {
    && ExpandOps(Munch(ts)) == Reference(ts)
    && Quote(ts) == Reference(ts)
    && PoundedNames(ts) == NamesOf(Reference(ts))
  }

  ghost predicate TokenAgrees(t: Token) {
    QuoteToken(t) == ReferenceToken(t) && PoundedPair(PAD, t) == NamesOf(ReferenceToken(t))
  }

  lemma TokenIsReference(t: Token)
    requires t.Group? ==> Agrees(t.inner)
    ensures TokenAgrees(t)
  {
    hide Quote, Reference, PoundedNames;
    if t.Group? {
      SingleNames(PushGroup(t.delimiter, Reference(t.inner)));
    } else {
      SingleNames(PushLeaf(t));
    }
  }

  lemma SingleNames(s: Stmt)
    ensures NamesOf([s]) == NamesOfStmt(s)
  {
    assert [s][1..] == [];
  }

  lemma NamesPrepend(s: Stmt, code: seq<Stmt>)
    ensures NamesOf([s] + code) == NamesOfStmt(s) + NamesOf(code)
  {
    assert ([s] + code)[1..] == code;
  }

  lemma ExpandPrepend(op: Op, ops: seq<Op>)
    ensures ExpandOps([op] + ops) == ExpandOp(op) + ExpandOps(ops)
  {
    assert ([op] + ops)[1..] == ops;
  }

  lemma PoundedIsBehindPad(ts: seq<Token>)
    ensures PoundedNames(ts) == NamesBehind(PAD, ts)
  {
    PoundedIsBehind(ts, 0);
    assert ts[0..] == ts;
  }

  /** The three equations of one step, for each interpolation form and the ordinary token. */
  ghost predicate StepHolds(ts: seq<Token>) {
    ExpandOps(Munch(ts)) == Reference(ts) && NamesBehind(PAD, ts) == NamesOf(Reference(ts))
  }

  lemma ReferenceUnfolds(ts: seq<Token>)
    ensures StartsRepeat(ts) ==>
      var body := Reference(ts[1].inner); Reference(ts) == [Loop(NamesOf(body), [], body)] + Reference(ts[3..])
    ensures StartsSeparated(ts) ==>
      var body := Reference(ts[1].inner);
      Reference(ts) == [Loop(NamesOf(body), ReferenceToken(ts[2]), body)] + Reference(ts[4..])
    ensures StartsVar(ts) ==> Reference(ts) == [ToTokens(ts[1].name)] + Reference(ts[2..])
    ensures ts != [] && !StartsRepeat(ts) && !StartsSeparated(ts) && !StartsVar(ts) ==>
      Reference(ts) == ReferenceToken(ts[0]) + Reference(ts[1..])
  {
    hide ReferenceToken, NamesOf;
  }

  lemma ExpandRepeat(inner: seq<Token>, separator: Option<Token>)
    requires Agrees(inner)
    ensures ExpandOp(Repeat(inner, separator))
            == [Loop(NamesOf(Reference(inner)),
                     if separator.Some? then QuoteToken(separator.value) else [], Reference(inner))]
  {
    hide Quote, Munch, EachToken, ExpandOps, QuoteToken, NamesOf, PoundedNames;
    WindowsAreMuncher(inner);
  }

  lemma RepeatAgrees(ts: seq<Token>)
    requires StartsRepeat(ts) && Agrees(ts[1].inner) && StepHolds(ts[3..])
    ensures StepHolds(ts)
  {
    hide NamesBehind, Quote, PoundedNames, ExpandOps, NamesOf, Reference, ExpandOp;
    var inner := ts[1].inner;
    ReferenceUnfolds(ts);
    ExpandRepeat(inner, None);
    ExpandPrepend(Repeat(inner, None), Munch(ts[3..]));
    NamesOfRepeat(ts);
    NamesPrepend(Loop(NamesOf(Reference(inner)), [], Reference(inner)), Reference(ts[3..]));
    NoNames();
  }

  lemma SeparatedAgrees(ts: seq<Token>)
    requires StartsSeparated(ts) && Agrees(ts[1].inner) && TokenAgrees(ts[2]) && StepHolds(ts[4..])
    ensures StepHolds(ts)
  {
    hide NamesBehind, Quote, PoundedNames, PoundedPair, ExpandOps, QuoteToken, ReferenceToken, NamesOf, Reference,
         ExpandOp;
    var inner := ts[1].inner;
    ReferenceUnfolds(ts);
    ExpandRepeat(inner, Some(ts[2]));
    ExpandPrepend(Repeat(inner, Some(ts[2])), Munch(ts[4..]));
    NamesOfSeparated(ts);
    NamesPrepend(Loop(NamesOf(Reference(inner)), ReferenceToken(ts[2]), Reference(inner)), Reference(ts[4..]));
  }

  lemma VarAgrees(ts: seq<Token>)
    requires StartsVar(ts) && StepHolds(ts[2..])
    ensures StepHolds(ts)
  {
    hide NamesBehind, ExpandOps, NamesOf, Reference;
    ReferenceUnfolds(ts);
    ExpandPrepend(Interpolate(ts[1].name), Munch(ts[2..]));
    NamesOfVar(ts);
    NamesPrepend(ToTokens(ts[1].name), Reference(ts[2..]));
  }

  lemma OrdinaryAgrees(ts: seq<Token>)
    requires ts != [] && !StartsRepeat(ts) && !StartsSeparated(ts) && !StartsVar(ts)
    requires TokenAgrees(ts[0]) && StepHolds(ts[1..])
    ensures StepHolds(ts)
  {
    hide PoundedPair, NamesBehind, ExpandOps, NamesOf, QuoteToken, ReferenceToken, Reference;
    ReferenceUnfolds(ts);
    ExpandPrepend(Push(ts[0]), Munch(ts[1..]));
    NamesOfOrdinary(ts);
    NamesConcat(ReferenceToken(ts[0]), Reference(ts[1..]));
  }

  lemma NoNames()
    ensures NamesOf([]) == []
  {
  }

  lemma InnerIsSmaller(ts: seq<Token>, i: nat)
    requires i < |ts| && ts[i].Group?
    ensures Size(ts[i].inner) < Size(ts)
  {
    TokenWithin(ts, i);
  }

  lemma TailIsSmaller(ts: seq<Token>, n: nat)
    requires 0 < n <= |ts|
    ensures Size(ts[n..]) < Size(ts)
  {
    SizeOfSplit(ts, n);
  }

  lemma {:induction false} StepsAgree(ts: seq<Token>)
    ensures StepHolds(ts)
    decreases Size(ts), 0
  {
    hide StepHolds, Agrees, TokenAgrees;
    if ts == [] {
      EmptyAgrees();
    } else {
      var n := Consumed(ts);
      TailIsSmaller(ts, n);
      StepsAgree(ts[n..]);
      if StartsRepeat(ts) {
        InnerIsSmaller(ts, 1);
        QuoteIsReference(ts[1].inner);
        RepeatAgrees(ts);
      } else if StartsSeparated(ts) {
        InnerIsSmaller(ts, 1);
        QuoteIsReference(ts[1].inner);
        if ts[2].Group? {
          InnerIsSmaller(ts, 2);
          QuoteIsReference(ts[2].inner);
        }
        TokenIsReference(ts[2]);
        SeparatedAgrees(ts);
      } else if StartsVar(ts) {
        VarAgrees(ts);
      } else {
        if ts[0].Group? {
          InnerIsSmaller(ts, 0);
          QuoteIsReference(ts[0].inner);
        }
        TokenIsReference(ts[0]);
        OrdinaryAgrees(ts);
      }
    }
  }

  lemma EmptyAgrees()
    ensures StepHolds([])
  {
  }

  /** The arms for one and for two tokens do what the general arm does. */
  lemma ShortArms(ts: seq<Token>)
    ensures Quote(ts) == ExpandOps(Munch(ts))
  {
    WindowsAreMuncher(ts);
    hide QuoteToken;
    if |ts| == 1 {
      assert Munch(ts) == [Push(ts[0])];
      ExpandPrepend(Push(ts[0]), []);
    } else if |ts| == 2 && StartsVar(ts) {
      assert Munch(ts) == [Interpolate(ts[1].name)];
      ExpandPrepend(Interpolate(ts[1].name), []);
    } else if |ts| == 2 {
      assert Munch(ts) == [Push(ts[0])] + Munch(ts[1..]) && Munch(ts[1..]) == [Push(ts[1])];
      ExpandPrepend(Push(ts[0]), [Push(ts[1])]);
      ExpandPrepend(Push(ts[1]), []);
    }
  }

  /**
   Whatever the tokens, `quote!` expands to the code of a left-to-right reading, in every arm and
   at every depth, and each repetition binds exactly the names its body interpolates.
   */
  lemma {:induction false} QuoteIsReference(ts: seq<Token>)
    ensures Agrees(ts)
    decreases Size(ts), 1
  {
    StepsAgree(ts);
    ShortArms(ts);
    PoundedIsBehindPad(ts);
    hide Quote, PoundedNames, NamesBehind, ExpandOps, NamesOf;
  }
}
