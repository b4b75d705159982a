/**
 Batching is invisible in the caches: however the same messages are cut into batches, the server
 ends with the same contents and diffs, and every cached diff is the diff of the cached content.
 Both hold exactly when the engine, for each document, serves all contents or none.
 */
module ServerProofs {

  import opened Lists
  import opened Wrappers
  import opened Server

  // ---------------------------------------------------------------- specification

  /** Whether a document is diffed does not depend on what is in it. */
  ghost predicate Uniform(engine: Engine, root: Option<Root>, config: Config) {
    forall uri, text, other ::
      DiffOf(engine, root, config, uri, text).Some? == DiffOf(engine, root, config, uri, other).Some?
  }

  /** Every open document has exactly the diff of its content, and no other document has one. */
  predicate Coherent(engine: Engine, st: State) {
    && (forall uri :: uri in st.diffs ==> uri in st.contents)
    && (forall uri :: uri in st.contents ==>
         Lookup(st.diffs, uri) == DiffOf(engine, st.root, st.config, uri, st.contents[uri]))
  }

  /** The message does not replace the root or the configuration. */
  predicate KeepsSetup(st: State, msg: Message) {
    msg.Initialize? && msg.root.Some? ==> msg.root == st.root && (msg.loaded.Some? ==> msg.loaded.value == st.config)
  }

  predicate Plain(st: State, msgs: seq<Message>) {
    forall msg :: msg in msgs ==> !msg.Exit? && KeepsSetup(st, msg)
  }

  // ---------------------------------------------------------------- the middle of a batch

  /** Documents that are not to be diffed are coherent; a diff that is left over is of a served document. */
  ghost predicate Pending(engine: Engine, st: State, dirty: seq<Uri>) {
    && NoDuplicates(dirty)
    && (forall uri :: uri in dirty ==> uri in st.contents)
    && (forall uri :: uri in st.diffs ==>
         uri in st.contents && DiffOf(engine, st.root, st.config, uri, st.contents[uri]).Some?)
    && (forall uri :: uri in st.contents && uri !in dirty ==>
         Lookup(st.diffs, uri) == DiffOf(engine, st.root, st.config, uri, st.contents[uri]))
  }

  lemma CoherentIsPending(engine: Engine, st: State)
    ensures Pending(engine, st, []) <==> Coherent(engine, st)
  {
  }

  lemma {:induction false} WithoutKeepsOrder(dirty: seq<Uri>, uri: Uri)
    requires NoDuplicates(dirty)
    ensures NoDuplicates(Without(dirty, uri))
  {
    if dirty != [] {
      var rest := Without(dirty[1..], uri);
      WithoutKeepsOrder(dirty[1..], uri);
      assert dirty[0] !in dirty[1..];
      assert dirty[0] !in rest;
      ConsKeepsOrder(dirty[0], rest);
    }
  }

  lemma ConsKeepsOrder(uri: Uri, rest: seq<Uri>)
    requires NoDuplicates(rest) && uri !in rest
    ensures NoDuplicates([uri] + rest)
  {
  }

  lemma MarkedKeepsOrder(dirty: seq<Uri>, uri: Uri)
    requires NoDuplicates(dirty)
    ensures NoDuplicates(Marked(dirty, uri))
  {
  }

  lemma HandledKeepsPending(engine: Engine, st: State, dirty: seq<Uri>, msg: Message)
    requires Uniform(engine, st.root, st.config) && KeepsSetup(st, msg) && Pending(engine, st, dirty)
    ensures var next := Handled(engine, st, msg);
            next.root == st.root && next.config == st.config && Pending(engine, next, DirtyAfter(dirty, msg))
  {
    hide DiffOf, Without, Marked, NoDuplicates, Pending;
    match msg
    case DidOpen(uri, text) =>
      if uri.Some? && text.Some? { UpdateKeepsPending(engine, st, dirty, uri.value, text.value); }
    case DidChange(uri, text) =>
      if uri.Some? && text.Some? { UpdateKeepsPending(engine, st, dirty, uri.value, text.value); }
    case DidClose(uri) =>
      if uri.Some? { CloseKeepsPending(engine, st, dirty, uri.value); }
    case _ =>
      SamePending(engine, st, Handled(engine, st, msg), dirty);
  }

  lemma SamePending(engine: Engine, st: State, next: State, dirty: seq<Uri>)
    requires Pending(engine, st, dirty) && next.root == st.root && next.config == st.config
    requires next.diffs == st.diffs && next.contents == st.contents
    ensures Pending(engine, next, dirty)
  {
    hide DiffOf, NoDuplicates;
  }

  lemma UpdateKeepsPending(engine: Engine, st: State, dirty: seq<Uri>, uri: Uri, text: Text)
    requires Uniform(engine, st.root, st.config) && Pending(engine, st, dirty)
    ensures Pending(engine, st.(contents := st.contents[uri := text]), Marked(dirty, uri))
  {
    hide DiffOf, NoDuplicates;
    MarkedKeepsOrder(dirty, uri);
  }

  lemma CloseKeepsPending(engine: Engine, st: State, dirty: seq<Uri>, uri: Uri)
    requires Pending(engine, st, dirty)
    ensures Pending(engine, st.(diffs := st.diffs - {uri}, contents := st.contents - {uri}), Without(dirty, uri))
  {
    hide DiffOf, NoDuplicates, Without;
    WithoutKeepsOrder(dirty, uri);
  }

  lemma ComputedKeepsPending(engine: Engine, st: State, dirty: seq<Uri>)
    requires dirty != [] && Pending(engine, st, dirty)
    ensures var next := Computed(engine, st, dirty[0]);
            && next.root == st.root && next.config == st.config && next.contents == st.contents
            && Pending(engine, next, dirty[1..])
  {
    hide DiffOf;
  }

  lemma {:induction false} ComputedAllKeepsPending(engine: Engine, st: State, dirty: seq<Uri>)
    requires Pending(engine, st, dirty)
    ensures var next := ComputedAll(engine, st, dirty);
            && next.root == st.root && next.config == st.config && next.contents == st.contents
            && Pending(engine, next, [])
    decreases |dirty|
  {
    hide Pending, Computed, DiffOf;
    if dirty != [] {
      ComputedKeepsPending(engine, st, dirty);
      ComputedAllKeepsPending(engine, Computed(engine, st, dirty[0]), dirty[1..]);
    }
  }

  // ---------------------------------------------------------------- contents

  function ContentsStep(contents: map<Uri, Text>, msg: Message): map<Uri, Text> {
    match msg
    case DidOpen(uri, text) => if uri.Some? && text.Some? then contents[uri.value := text.value] else contents
    case DidChange(uri, text) => if uri.Some? && text.Some? then contents[uri.value := text.value] else contents
    case DidClose(uri) => if uri.Some? then contents - {uri.value} else contents
    case _ => contents
  }

  /** The documents after some messages, whatever the batches. */
  function ContentsAfter(contents: map<Uri, Text>, msgs: seq<Message>): map<Uri, Text>
    decreases |msgs|
  {
    if msgs == [] then contents else ContentsAfter(ContentsStep(contents, msgs[0]), msgs[1..])
  }

  lemma {:induction false} ContentsConcat(contents: map<Uri, Text>, a: seq<Message>, b: seq<Message>)
    ensures ContentsAfter(contents, a + b) == ContentsAfter(ContentsAfter(contents, a), b)
    decreases |a|
  {
    if a == [] {
      assert a + b == b;
    } else {
      assert (a + b)[1..] == a[1..] + b;
      ContentsConcat(ContentsStep(contents, a[0]), a[1..], b);
    }
  }

  // ---------------------------------------------------------------- one batch

  /** The messages of a batch keep the bookkeeping in order and have their effect on the contents. */
  lemma {:induction false} HandledAllKeepsPending(engine: Engine, p: Progress, msgs: seq<Message>)
    requires Uniform(engine, p.state.root, p.state.config) && Plain(p.state, msgs)
    requires !p.exited && Pending(engine, p.state, p.dirty)
    ensures var end := HandledAll(engine, p, msgs);
            && !end.exited && end.state.root == p.state.root && end.state.config == p.state.config
            && Pending(engine, end.state, end.dirty)
            && end.state.contents == ContentsAfter(p.state.contents, msgs)
    decreases |msgs|
  {
    hide Pending, Uniform, DirtyAfter, Handled, ContentsStep, Plain, KeepsSetup;
    if msgs != [] {
      PlainHead(p.state, msgs);
      HandledKeepsPending(engine, p.state, p.dirty, msgs[0]);
      ContentsOfHandled(engine, p.state, msgs[0]);
      var next := Progress(Handled(engine, p.state, msgs[0]), DirtyAfter(p.dirty, msgs[0]), false);
      PlainTail(p.state, next.state, msgs);
      HandledAllKeepsPending(engine, next, msgs[1..]);
    }
  }

  lemma PlainHead(st: State, msgs: seq<Message>)
    requires Plain(st, msgs) && msgs != []
    ensures !msgs[0].Exit? && KeepsSetup(st, msgs[0])
  {
    assert msgs[0] in msgs;
  }

  lemma PlainTail(st: State, next: State, msgs: seq<Message>)
    requires Plain(st, msgs) && msgs != [] && next.root == st.root && next.config == st.config
    ensures Plain(next, msgs[1..])
  {
    forall msg | msg in msgs[1..] ensures !msg.Exit? && KeepsSetup(next, msg) {
      assert msg in msgs;
    }
  }

  lemma ContentsOfHandled(engine: Engine, st: State, msg: Message)
    ensures Handled(engine, st, msg).contents == ContentsStep(st.contents, msg)
  {
  }

  /** After a batch, `diff_cache[u]` is the diff of `content_cache[u]`, for every document. */
  lemma BatchKeepsCoherent(engine: Engine, st: State, msgs: seq<Message>)
    requires Uniform(engine, st.root, st.config) && Plain(st, msgs) && Coherent(engine, st)
    ensures var (next, running) := AfterBatch(engine, st, msgs);
            && running && Coherent(engine, next)
            && next.root == st.root && next.config == st.config
            && next.contents == ContentsAfter(st.contents, msgs)
  {
    hide Pending, Coherent, Uniform, HandledAll, ComputedAll, Plain;
    var start := Progress(st, [], false);
    CoherentIsPending(engine, st);
    HandledAllKeepsPending(engine, start, msgs);
    var end := HandledAll(engine, start, msgs);
    ComputedAllKeepsPending(engine, end.state, end.dirty);
    CoherentIsPending(engine, ComputedAll(engine, end.state, end.dirty));
  }

  // ---------------------------------------------------------------- all batches

  lemma {:induction false} BatchesKeepCoherent(engine: Engine, st: State, batches: seq<seq<Message>>)
    requires Uniform(engine, st.root, st.config) && Plain(st, Flatten(batches)) && Coherent(engine, st)
    ensures var end := AfterBatches(engine, st, batches);
            && Coherent(engine, end) && end.root == st.root && end.config == st.config
            && end.contents == ContentsAfter(st.contents, Flatten(batches))
    decreases |batches|
  {
    hide Coherent, Uniform, AfterBatch;
    if batches != [] {
      assert Plain(st, batches[0]) && Plain(st, Flatten(batches[1..]));
      BatchKeepsCoherent(engine, st, batches[0]);
      var (next, running) := AfterBatch(engine, st, batches[0]);
      assert Plain(next, Flatten(batches[1..]));
      BatchesKeepCoherent(engine, next, batches[1..]);
      ContentsConcat(st.contents, batches[0], Flatten(batches[1..]));
    }
  }

  lemma CoherentIsDetermined(engine: Engine, a: State, b: State)
    requires Coherent(engine, a) && Coherent(engine, b)
    requires a.root == b.root && a.config == b.config && a.contents == b.contents
    ensures a.diffs == b.diffs
  {
    forall uri | uri in a.diffs || uri in b.diffs ensures Lookup(a.diffs, uri) == Lookup(b.diffs, uri) {
    }
    assert a.diffs.Keys == b.diffs.Keys;
  }

  /** The two caches a later message can see. */
  predicate SameCaches(a: State, b: State) {
    a.contents == b.contents && a.diffs == b.diffs
  }

  /** However the same messages are cut into batches, the caches end up the same. */
  lemma BatchSplitInvariance(engine: Engine, st: State, one: seq<seq<Message>>, other: seq<seq<Message>>)
    requires Uniform(engine, st.root, st.config) && Coherent(engine, st)
    requires Flatten(one) == Flatten(other) && Plain(st, Flatten(one))
    ensures SameCaches(AfterBatches(engine, st, one), AfterBatches(engine, st, other))
  {
    hide Coherent, Uniform, AfterBatches, Plain;
    BatchesKeepCoherent(engine, st, one);
    BatchesKeepCoherent(engine, st, other);
    CoherentIsDetermined(engine, AfterBatches(engine, st, one), AfterBatches(engine, st, other));
  }

  // ---------------------------------------------------------------- coalescing

  /** Diagnostics of distinct documents among `dirty`, each of the document's content in `st`. */
  predicate PublishesOnce(engine: Engine, st: State, dirty: seq<Uri>, more: seq<Outgoing>) {
    && (forall i :: 0 <= i < |more| ==> more[i].PublishDiagnostics? || more[i].RefreshCodeLens?)
    && (forall i :: 0 <= i < |more| && more[i].PublishDiagnostics? ==>
         && more[i].uri in dirty && more[i].uri in st.contents
         && DiffOf(engine, st.root, st.config, more[i].uri, st.contents[more[i].uri]) == Some(more[i].diff))
    && (forall i, j :: 0 <= i < j < |more| && more[i].PublishDiagnostics? && more[j].PublishDiagnostics? ==>
         more[i].uri != more[j].uri)
  }

  lemma ComputedPublishesOnce(engine: Engine, st: State, uri: Uri)
    ensures var next := Computed(engine, st, uri);
            && next.root == st.root && next.config == st.config && next.contents == st.contents
            && st.out <= next.out && |next.out| <= |st.out| + 2
            && PublishesOnce(engine, st, [uri], next.out[|st.out|..])
  {
    hide DiffOf;
  }

  lemma PublishesOnceDependsOn(engine: Engine, a: State, b: State, dirty: seq<Uri>, more: seq<Outgoing>)
    requires a.root == b.root && a.config == b.config && a.contents == b.contents
    ensures PublishesOnce(engine, a, dirty, more) == PublishesOnce(engine, b, dirty, more)
  {
    hide DiffOf;
  }

  /** Behind a batch every changed document is published at most once, with its latest content. */
  lemma {:induction false} ComputedAllPublishesOnce(engine: Engine, st: State, dirty: seq<Uri>)
    requires NoDuplicates(dirty)
    ensures var after := ComputedAll(engine, st, dirty);
            st.out <= after.out && PublishesOnce(engine, st, dirty, after.out[|st.out|..])
    decreases |dirty|
  {
    if dirty != [] {
      HeadIsAlone(dirty);
      hide Computed, NoDuplicates, PublishesOnce;
      var next := Computed(engine, st, dirty[0]);
      ComputedPublishesOnce(engine, st, dirty[0]);
      ComputedAllPublishesOnce(engine, next, dirty[1..]);
      var after := ComputedAll(engine, next, dirty[1..]);
      var own, rest := next.out[|st.out|..], after.out[|next.out|..];
      PublishesOnceDependsOn(engine, next, st, dirty[1..], rest);
      JoinPublications(engine, st, dirty, own, rest);
      JoinTails(st.out, next.out, after.out);
    }
  }

  lemma JoinTails(a: seq<Outgoing>, b: seq<Outgoing>, c: seq<Outgoing>)
    requires a <= b <= c
    ensures a <= c && c[|a|..] == b[|a|..] + c[|b|..]
  {
  }

  lemma HeadIsAlone(dirty: seq<Uri>)
    requires dirty != [] && NoDuplicates(dirty)
    ensures dirty[0] !in dirty[1..] && NoDuplicates(dirty[1..]) && dirty[..1] == [dirty[0]]
  {
  }

  lemma JoinPublications(engine: Engine, st: State, dirty: seq<Uri>, own: seq<Outgoing>, rest: seq<Outgoing>)
    requires dirty != [] && dirty[0] !in dirty[1..]
    requires |own| <= 2 && PublishesOnce(engine, st, [dirty[0]], own) && PublishesOnce(engine, st, dirty[1..], rest)
    ensures PublishesOnce(engine, st, dirty, own + rest)
  {
    hide DiffOf;
  }

  // ---------------------------------------------------------------- without uniformity

  /** What the claim says for one setup: every split of every stream ends with the same caches. */
  ghost predicate SplitInvariant(engine: Engine, st: State) {
    forall one, other :: Flatten(one) == Flatten(other) && Plain(st, Flatten(one)) ==>
      SameCaches(AfterBatches(engine, st, one), AfterBatches(engine, st, other))
  }

  function Idle(root: Option<Root>, config: Config): State {
    State(root, config, false, map[], map[], 1, [])
  }

  /**
   A document opened with a content that is served and changed to one that is not: in two batches
   the first diff stays in the cache, in one batch there is none.
   */
  lemma StaleDiff(engine: Engine, root: Option<Root>, config: Config, uri: Uri, served: Text, refused: Text)
    requires DiffOf(engine, root, config, uri, served).Some? && DiffOf(engine, root, config, uri, refused).None?
    ensures var st, open, change := Idle(root, config), DidOpen(Some(uri), Some(served)),
            DidChange(Some(uri), Some(refused));
            && uri in AfterBatches(engine, st, [[open], [change]]).diffs
            && uri !in AfterBatches(engine, st, [[open, change]]).diffs
  {
    hide DiffOf;
    var st, open, change := Idle(root, config), DidOpen(Some(uri), Some(served)), DidChange(Some(uri), Some(refused));
    var afterOpen := Handled(engine, st, open);
    OneMessage(engine, st, open);
    var first := Computed(engine, afterOpen, uri);
    OneMessage(engine, first, change);
    TwoMessages(engine, st, open, change);
    assert [[open], [change]][1..] == [[change]];
  }

  lemma HandledOne(engine: Engine, p: Progress, msg: Message)
    requires !p.exited && !msg.Exit?
    ensures HandledAll(engine, p, [msg]) == Progress(Handled(engine, p.state, msg), DirtyAfter(p.dirty, msg), false)
  {
    hide Handled, DirtyAfter;
    assert [msg][1..] == [];
  }

  lemma ComputedOne(engine: Engine, st: State, uri: Uri)
    ensures ComputedAll(engine, st, [uri]) == Computed(engine, st, uri)
  {
    hide Computed;
    assert [uri][1..] == [];
  }

  lemma OneMessage(engine: Engine, st: State, msg: Message)
    requires (msg.DidOpen? || msg.DidChange?) && msg.uri.Some? && msg.text.Some?
    ensures AfterBatch(engine, st, [msg]) == (Computed(engine, Handled(engine, st, msg), msg.uri.value), true)
    ensures AfterBatches(engine, st, [[msg]]) == Computed(engine, Handled(engine, st, msg), msg.uri.value)
  {
    hide Handled, Computed;
    assert [[msg]][1..] == [];
    var start, dirty := Progress(st, [], false), [msg.uri.value];
    HandledOne(engine, start, msg);
    assert DirtyAfter([], msg) == dirty;
    ComputedOne(engine, Handled(engine, st, msg), msg.uri.value);
  }

  lemma TwoMessages(engine: Engine, st: State, open: Message, change: Message)
    requires open.DidOpen? && open.uri.Some? && open.text.Some?
    requires change.DidChange? && change.uri == open.uri && change.text.Some?
    ensures AfterBatches(engine, st, [[open, change]])
            == Computed(engine, Handled(engine, Handled(engine, st, open), change), open.uri.value)
  {
    hide Handled, Computed;
    assert [open, change][1..] == [change] && [[open, change]][1..] == [];
    var start, dirty := Progress(st, [], false), [open.uri.value];
    assert DirtyAfter([], open) == dirty && DirtyAfter(dirty, change) == dirty;
    var middle := Progress(Handled(engine, st, open), dirty, false);
    HandledOne(engine, middle, change);
    assert HandledAll(engine, start, [open, change]) == HandledAll(engine, middle, [change]);
    ComputedOne(engine, Handled(engine, Handled(engine, st, open), change), open.uri.value);
  }

  /** Batching is invisible from every idle server on exactly when the engine is uniform. */
  lemma SplitInvarianceNeedsUniformity(engine: Engine, root: Option<Root>, config: Config)
    ensures SplitInvariant(engine, Idle(root, config)) <==> Uniform(engine, root, config)
  {
    var st := Idle(root, config);
    if Uniform(engine, root, config) {
      forall one, other | Flatten(one) == Flatten(other) && Plain(st, Flatten(one))
        ensures SameCaches(AfterBatches(engine, st, one), AfterBatches(engine, st, other))
      {
        BatchSplitInvariance(engine, st, one, other);
      }
    } else {
      var uri, text, other :|
        DiffOf(engine, root, config, uri, text).Some? != DiffOf(engine, root, config, uri, other).Some?;
      if DiffOf(engine, root, config, uri, text).Some? {
        SplitVisible(engine, root, config, uri, text, other);
      } else {
        SplitVisible(engine, root, config, uri, other, text);
      }
    }
  }

  lemma SplitVisible(engine: Engine, root: Option<Root>, config: Config, uri: Uri, served: Text, refused: Text)
    requires DiffOf(engine, root, config, uri, served).Some? && DiffOf(engine, root, config, uri, refused).None?
    ensures !SplitInvariant(engine, Idle(root, config))
  {
    hide AfterBatches, DiffOf;
    StaleDiff(engine, root, config, uri, served, refused);
    var st, open, change := Idle(root, config), DidOpen(Some(uri), Some(served)), DidChange(Some(uri), Some(refused));
    var split, whole := [[open], [change]], [[open, change]];
    assert split[1..] == [[change]] && [[change]][1..] == [] && whole[1..] == [];
    assert Flatten([[change]]) == [change];
    assert Flatten(split) == [open, change] == Flatten(whole);
    assert Plain(st, Flatten(split));
    assert !SameCaches(AfterBatches(engine, st, split), AfterBatches(engine, st, whole));
  }
}
