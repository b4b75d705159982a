/**
 The main loop of the language server (`crates/lsp-server/src/main.rs`): messages are handled in
 batches; documents that changed are collected and diffed once, behind the batch, with their
 latest content. The diff engine, configuration loading and file reads are parameters.
 */
module Server {

  import opened Wrappers

  type Uri = string
  type Text = string
  type Root = string
  type Config = string
  type Id = string

  datatype Diff = Diff(payload: string)

  /** What lies behind the protocol: the engine on a live buffer, and the custom compare request. */
  datatype Engine = Engine(
    diff: (Root, Config, Uri, Text) -> Option<Diff>,
    compare: (Uri, Uri, Option<Root>, Config, Option<Text>) -> string)

  /** Messages from the client, by what the loop reads of them; a missing field is `None`. */
  datatype Message =
    | NoMethod
    | Initialize(root: Option<Root>, loaded: Option<Config>, refresh: bool, id: Option<Id>)
    | Initialized
    | DidOpen(uri: Option<Uri>, text: Option<Text>)
    | DidChange(uri: Option<Uri>, text: Option<Text>)
    | DidClose(uri: Option<Uri>)
    | CodeLens(uri: Option<Uri>, id: Option<Id>)
    | SemanticDiff(oldUri: Uri, newUri: Uri, id: Option<Id>)
    | Shutdown(id: Option<Id>)
    | Exit
    | Unknown(method_: string, id: Option<Id>)

  datatype Outgoing =
    | Capabilities(id: Id)
    | Lenses(id: Id, shown: Option<Diff>)
    | Compared(id: Id, result: string)
    | Null(id: Id)
    | MethodNotFound(id: Id, method_: string)
    | PublishDiagnostics(uri: Uri, diff: Diff)
    | RefreshCodeLens(serverId: int)

  /** The fields of the server state and what has been written so far. */
  datatype State = State(
    root: Option<Root>,
    config: Config,
    refresh: bool,
    diffs: map<Uri, Diff>,
    contents: map<Uri, Text>,
    nextServerId: int,
    out: seq<Outgoing>)

  function Lookup<V>(m: map<Uri, V>, uri: Uri): Option<V> {
    if uri in m then Some(m[uri]) else None
  }

  // ---------------------------------------------------------------- one message

  function Marked(dirty: seq<Uri>, uri: Uri): seq<Uri> {
    if uri in dirty then dirty else dirty + [uri]
  }

  /** `dirty.retain(|u| u != uri)`. */
  function Without(dirty: seq<Uri>, uri: Uri): (rest: seq<Uri>)
    ensures forall u :: u in rest <==> u in dirty && u != uri
  {
    if dirty == [] then []
    else if dirty[0] == uri then Without(dirty[1..], uri)
    else [dirty[0]] + Without(dirty[1..], uri)
  }

  function Answer(out: seq<Outgoing>, id: Option<Id>, answer: Id -> Outgoing): seq<Outgoing> {
    if id.Some? then out + [answer(id.value)] else out
  }

  /** What a message does to the state. */
  function Handled(engine: Engine, st: State, msg: Message): State {
    match msg
    case NoMethod => st
    case Initialize(root, loaded, refresh, id) =>
      State(if root.Some? then root else st.root,
            if root.Some? && loaded.Some? then loaded.value else st.config,
            refresh, st.diffs, st.contents, st.nextServerId, Answer(st.out, id, i => Capabilities(i)))
    case Initialized => st
    case DidOpen(uri, text) =>
      if uri.Some? && text.Some? then st.(contents := st.contents[uri.value := text.value]) else st
    case DidChange(uri, text) =>
      if uri.Some? && text.Some? then st.(contents := st.contents[uri.value := text.value]) else st
    case DidClose(uri) =>
      if uri.Some? then st.(diffs := st.diffs - {uri.value}, contents := st.contents - {uri.value}) else st
    case CodeLens(uri, id) =>
      var diff := Lookup(st.diffs, if uri.Some? then uri.value else "");
      st.(out := Answer(st.out, id, i => Lenses(i, diff)))
    case SemanticDiff(oldUri, newUri, id) =>
      var result := engine.compare(oldUri, newUri, st.root, st.config, Lookup(st.contents, newUri));
      st.(out := Answer(st.out, id, i => Compared(i, result)))
    case Shutdown(id) => st.(out := Answer(st.out, id, i => Null(i)))
    case Exit => st
    case Unknown(name, id) => st.(out := Answer(st.out, id, i => MethodNotFound(i, name)))
  }

  /** What a message does to the list of documents to diff. */
  function DirtyAfter(dirty: seq<Uri>, msg: Message): seq<Uri> {
    match msg
    case DidOpen(uri, text) => if uri.Some? && text.Some? then Marked(dirty, uri.value) else dirty
    case DidChange(uri, text) => if uri.Some? && text.Some? then Marked(dirty, uri.value) else dirty
    case DidClose(uri) => if uri.Some? then Without(dirty, uri.value) else dirty
    case _ => dirty
  }

  // ---------------------------------------------------------------- the engine

  /** The diff of a document: none without a root, outside of it, or when the engine falls back. */
  function DiffOf(engine: Engine, root: Option<Root>, config: Config, uri: Uri, text: Text): Option<Diff> {
    if root.None? then None else engine.diff(root.value, config, uri, text)
  }

  /** `compute_and_push`. */
  function Computed(engine: Engine, st: State, uri: Uri): State {
    var text := Lookup(st.contents, uri);
    var diff := if text.Some? then DiffOf(engine, st.root, st.config, uri, text.value) else None;
    match diff
    case None => st
    case Some(d) =>
      var published := st.(diffs := st.diffs[uri := d], out := st.out + [PublishDiagnostics(uri, d)]);
      if st.refresh then
        published.(out := published.out + [RefreshCodeLens(st.nextServerId)], nextServerId := st.nextServerId + 1)
      else published
  }

  function ComputedAll(engine: Engine, st: State, dirty: seq<Uri>): State
    decreases |dirty|
  {
    if dirty == [] then st else ComputedAll(engine, Computed(engine, st, dirty[0]), dirty[1..])
  }

  // ---------------------------------------------------------------- batches

  /** The middle of a batch: the messages handled so far, or an `exit` among them. */
  datatype Progress = Progress(state: State, dirty: seq<Uri>, exited: bool)

  function HandledAll(engine: Engine, p: Progress, msgs: seq<Message>): Progress
    decreases |msgs|
  {
    if p.exited || msgs == [] then p
    else if msgs[0].Exit? then p.(exited := true)
    else HandledAll(engine, Progress(Handled(engine, p.state, msgs[0]), DirtyAfter(p.dirty, msgs[0]), false), msgs[1..])
  }

  /** The state after a batch, and whether the server goes on. An `exit` leaves at once. */
  function AfterBatch(engine: Engine, st: State, msgs: seq<Message>): (State, bool) {
    var p := HandledAll(engine, Progress(st, [], false), msgs);
    if p.exited then (p.state, false) else (ComputedAll(engine, p.state, p.dirty), true)
  }

  function AfterBatches(engine: Engine, st: State, batches: seq<seq<Message>>): State
    decreases |batches|
  {
    if batches == [] then st
    else
      var (next, running) := AfterBatch(engine, st, batches[0]);
      if running then AfterBatches(engine, next, batches[1..]) else next
  }

  // ---------------------------------------------------------------- the server

  class ServerState {
    const engine: Engine
    var root: Option<Root>
    var configJson: Config
    var supportsCodeLensRefresh: bool
    var diffCache: map<Uri, Diff>
    var contentCache: map<Uri, Text>
    var nextServerId: int
    var out: seq<Outgoing>

    ghost function View(): State
      reads this
    {
      State(root, configJson, supportsCodeLensRefresh, diffCache, contentCache, nextServerId, out)
    }

    constructor (engine: Engine)
      ensures this.engine == engine
      ensures View() == State(None, "{}", false, map[], map[], 1, [])
    {
      this.engine := engine;
      root, configJson, supportsCodeLensRefresh := None, "{}", false;
      diffCache, contentCache, nextServerId, out := map[], map[], 1, [];
    }

    method Respond(id: Option<Id>, answer: Id -> Outgoing)
      modifies this`out
      ensures out == Answer(old(out), id, answer)
    {
      if id.Some? {
        out := out + [answer(id.value)];
      }
    }

    /** One message that is not `exit`, in arrival order. */
    method Handle(msg: Message, dirty: seq<Uri>) returns (newDirty: seq<Uri>)
      requires !msg.Exit?
      modifies this
      ensures View() == Handled(engine, old(View()), msg) && newDirty == DirtyAfter(dirty, msg)
      ensures msg.Initialize? && msg.root.Some? ==>
        root == msg.root && configJson == (if msg.loaded.Some? then msg.loaded.value else old(configJson))
      ensures msg.Initialize? ==> supportsCodeLensRefresh == msg.refresh
      ensures !msg.Initialize? || msg.root.None? ==> root == old(root) && configJson == old(configJson)
      ensures !msg.Initialize? ==> supportsCodeLensRefresh == old(supportsCodeLensRefresh)
      ensures (msg.DidOpen? || msg.DidChange?) && msg.uri.Some? && msg.text.Some? ==>
        contentCache == old(contentCache)[msg.uri.value := msg.text.value] && msg.uri.value in newDirty
      ensures msg.DidClose? && msg.uri.Some? ==>
        msg.uri.value !in contentCache && msg.uri.value !in diffCache && msg.uri.value !in newDirty
    {
      newDirty := dirty;
      match msg
      case NoMethod =>
      case Initialize(newRoot, loaded, refresh, id) =>
        if newRoot.Some? {
          if loaded.Some? {
            configJson := loaded.value;
          }
          root := newRoot;
        }
        supportsCodeLensRefresh := refresh;
        Respond(id, i => Capabilities(i));
      case Initialized =>
      case DidOpen(uri, text) =>
        if uri.Some? && text.Some? {
          contentCache := contentCache[uri.value := text.value];
          if uri.value !in newDirty {
            newDirty := newDirty + [uri.value];
          }
        }
      case DidChange(uri, text) =>
        if uri.Some? && text.Some? {
          contentCache := contentCache[uri.value := text.value];
          if uri.value !in newDirty {
            newDirty := newDirty + [uri.value];
          }
        }
      case DidClose(uri) =>
        if uri.Some? {
          diffCache := diffCache - {uri.value};
          contentCache := contentCache - {uri.value};
          newDirty := Without(newDirty, uri.value);
        }
      case CodeLens(uri, id) =>
        var diff := Lookup(diffCache, if uri.Some? then uri.value else "");
        Respond(id, i => Lenses(i, diff));
      case SemanticDiff(oldUri, newUri, id) =>
        if id.Some? {
          var result := engine.compare(oldUri, newUri, root, configJson, Lookup(contentCache, newUri));
          Respond(id, i => Compared(i, result));
        }
      case Shutdown(id) =>
        Respond(id, i => Null(i));
      case Unknown(name, id) =>
        Respond(id, i => MethodNotFound(i, name));
    }

    method ComputeAndPush(uri: Uri)
      modifies this
      ensures View() == Computed(engine, old(View()), uri)
    {
      if root.None? || uri !in contentCache {
        return;
      }
      var diff := engine.diff(root.value, configJson, uri, contentCache[uri]);
      if diff.None? {
        return;
      }
      diffCache := diffCache[uri := diff.value];
      out := out + [PublishDiagnostics(uri, diff.value)];
      if supportsCodeLensRefresh {
        var id := nextServerId;
        nextServerId := nextServerId + 1;
        out := out + [RefreshCodeLens(id)];
      }
    }

    /** One turn of the main loop. */
    method RunBatch(batch: seq<Message>) returns (running: bool)
      modifies this
      ensures (View(), running) == AfterBatch(engine, old(View()), batch)
    {
      hide Handled, DirtyAfter, Computed;
      var dirty: seq<Uri> := [];
      ghost var end := HandledAll(engine, Progress(View(), [], false), batch);
      var i := 0;
      assert batch[0..] == batch;
      while i < |batch|
        invariant i <= |batch| && HandledAll(engine, Progress(View(), dirty, false), batch[i..]) == end
      {
        assert batch[i..][0] == batch[i] && batch[i..][1..] == batch[i + 1..];
        if batch[i].Exit? {
          return false;
        }
        dirty := Handle(batch[i], dirty);
        i := i + 1;
      }
      assert end == Progress(View(), dirty, false);
      ghost var after := ComputedAll(engine, View(), dirty);
      var k := 0;
      assert dirty[0..] == dirty;
      while k < |dirty|
        invariant k <= |dirty| && ComputedAll(engine, View(), dirty[k..]) == after
      {
        assert dirty[k..][0] == dirty[k] && dirty[k..][1..] == dirty[k + 1..];
        ComputeAndPush(dirty[k]);
        k := k + 1;
      }
      running := true;
    }

    /** The whole loop, for the batches that the channel happens to deliver. */
    method Serve(batches: seq<seq<Message>>)
      modifies this
      ensures View() == AfterBatches(engine, old(View()), batches)
    {
      hide AfterBatch;
      var i, running := 0, true;
      assert batches[0..] == batches;
      while i < |batches| && running
        invariant i <= |batches|
        invariant AfterBatches(engine, old(View()), batches)
               == if running then AfterBatches(engine, View(), batches[i..]) else View()
      {
        assert batches[i..][0] == batches[i] && batches[i..][1..] == batches[i + 1..];
        running := RunBatch(batches[i]);
        i := i + 1;
      }
    }
  }
}
