/**
 What a client of the server (`crates/lsp-server/src/main.rs`) can rely on from the start: what
 `initialize` sets up, what opening a document publishes, and what each request is answered.
 */
module ServerLaws {

  import opened Lists
  import opened Wrappers
  import opened Server
  import opened ServerProofs

  /** The server as it is made. */
  const NEW_SERVER := State(None, "{}", false, map[], map[], 1, [])

  // ---------------------------------------------------------------- one message

  /** `initialize` with a root sets it, and the configuration that was loaded for it; the flag is always set. */
  lemma InitializeSetsUp(engine: Engine, st: State, root: Option<Root>, loaded: Option<Config>, refresh: bool,
                         id: Option<Id>)
    ensures var next := Handled(engine, st, Initialize(root, loaded, refresh, id));
            && (root.Some? ==> next.root == root && next.config == if loaded.Some? then loaded.value else st.config)
            && (root.None? ==> next.root == st.root && next.config == st.config)
            && next.refresh == refresh
            && next.diffs == st.diffs && next.contents == st.contents && next.nextServerId == st.nextServerId
            && next.out == if id.Some? then st.out + [Capabilities(id.value)] else st.out
  {
  }

  lemma OneBatchMeans(engine: Engine, st: State, msg: Message)
    requires !msg.Exit?
    ensures AfterBatches(engine, st, [[msg]]) == ComputedAll(engine, Handled(engine, st, msg), DirtyAfter([], msg))
  {
    assert [[msg]][1..] == [] && [msg][1..] == [];
    var p := Progress(Handled(engine, st, msg), DirtyAfter([], msg), false);
    assert HandledAll(engine, Progress(st, [], false), [msg]) == HandledAll(engine, p, []);
  }

  /** A codeLens request is answered with the cached diff of the document it names, and changes nothing. */
  lemma LensesShowOwnDiff(engine: Engine, st: State, uri: Uri, id: Id)
    ensures var next := AfterBatches(engine, st, [[CodeLens(Some(uri), Some(id))]]);
            next == st.(out := st.out + [Lenses(id, if uri in st.diffs then Some(st.diffs[uri]) else None)])
  {
    OneBatchMeans(engine, st, CodeLens(Some(uri), Some(id)));
  }

  /** A compare request is given the live text of the new document, if it is open. */
  lemma CompareUsesLiveText(engine: Engine, st: State, oldUri: Uri, newUri: Uri, id: Id)
    ensures var next := AfterBatches(engine, st, [[SemanticDiff(oldUri, newUri, Some(id))]]);
            var live := if newUri in st.contents then Some(st.contents[newUri]) else None;
            next == st.(out := st.out + [Compared(id, engine.compare(oldUri, newUri, st.root, st.config, live))])
  {
    OneBatchMeans(engine, st, SemanticDiff(oldUri, newUri, Some(id)));
  }

  /** Requests are answered in kind, and what carries no id is not answered. */
  lemma RequestsAreAnswered(engine: Engine, st: State, name: string, id: Id)
    ensures AfterBatches(engine, st, [[Shutdown(Some(id))]]) == st.(out := st.out + [Null(id)])
    ensures AfterBatches(engine, st, [[Unknown(name, Some(id))]]) == st.(out := st.out + [MethodNotFound(id, name)])
    ensures AfterBatches(engine, st, [[Unknown(name, None)]]) == st
    ensures AfterBatches(engine, st, [[Shutdown(None)]]) == st
    ensures AfterBatches(engine, st, [[Initialized]]) == AfterBatches(engine, st, [[NoMethod]]) == st
  {
    OneBatchMeans(engine, st, Shutdown(Some(id)));
    OneBatchMeans(engine, st, Unknown(name, Some(id)));
    OneBatchMeans(engine, st, Unknown(name, None));
    OneBatchMeans(engine, st, Shutdown(None));
    OneBatchMeans(engine, st, Initialized);
    OneBatchMeans(engine, st, NoMethod);
  }

  /** A closed document has neither content nor diff, whatever came before. */
  lemma CloseForgets(engine: Engine, st: State, uri: Uri)
    ensures AfterBatches(engine, st, [[DidClose(Some(uri))]])
         == st.(diffs := st.diffs - {uri}, contents := st.contents - {uri})
  {
    OneBatchMeans(engine, st, DidClose(Some(uri)));
  }

  /** `exit` ends the loop at once: nothing behind it is handled, and nothing is computed. */
  lemma ExitEndsAtOnce(engine: Engine, st: State, behind: seq<Message>, later: seq<seq<Message>>)
    ensures AfterBatches(engine, st, [[Exit] + behind] + later) == st
  {
    var batch := [Exit] + behind;
    assert ([batch] + later)[0] == batch && batch[0] == Exit;
    assert HandledAll(engine, Progress(st, [], false), batch) == Progress(st, [], true);
  }

  // ---------------------------------------------------------------- opening a document

  /** What is written for a document that the engine serves. */
  function Published(st: State, uri: Uri, diff: Diff): seq<Outgoing> {
    [PublishDiagnostics(uri, diff)] + if st.refresh then [RefreshCodeLens(st.nextServerId)] else []
  }

  /** With a root, new content of a document is diffed, cached and published in the same batch. */
  lemma UpdateIsPublished(engine: Engine, st: State, msg: Message, uri: Uri, text: Text)
    requires st.root.Some? && (msg == DidOpen(Some(uri), Some(text)) || msg == DidChange(Some(uri), Some(text)))
    ensures var next := AfterBatches(engine, st, [[msg]]);
            var diff := engine.diff(st.root.value, st.config, uri, text);
            && next.contents == st.contents[uri := text]
            && next.diffs == (if diff.Some? then st.diffs[uri := diff.value] else st.diffs)
            && next.out == st.out + (if diff.Some? then Published(st, uri, diff.value) else [])
            && next.nextServerId == st.nextServerId + (if diff.Some? && st.refresh then 1 else 0)
            && next.root == st.root && next.config == st.config && next.refresh == st.refresh
  {
    OneBatchMeans(engine, st, msg);
    ComputedOne(engine, Handled(engine, st, msg), uri);
  }

  lemma ComputedOne(engine: Engine, st: State, uri: Uri)
    ensures ComputedAll(engine, st, [uri]) == Computed(engine, st, uri)
  {
    assert [uri][1..] == [];
  }

  /** Without a root content is kept, but nothing is diffed. */
  lemma WithoutRootNothingIsDiffed(engine: Engine, st: State, uri: Uri, text: Text)
    requires st.root.None?
    ensures AfterBatches(engine, st, [[DidOpen(Some(uri), Some(text))]]) == st.(contents := st.contents[uri := text])
  {
    OneBatchMeans(engine, st, DidOpen(Some(uri), Some(text)));
    ComputedOne(engine, st.(contents := st.contents[uri := text]), uri);
  }

  /**
   From the start: `initialize` with a root and then a document, in two batches or in one, end with
   the engine's diff of that root, the configuration, the document and its text, cached and
   published, and a codeLens request behind them shows it.
   */
  lemma FirstDocument(engine: Engine, root: Root, loaded: Option<Config>, refresh: bool, uri: Uri, text: Text,
                      diff: Diff, id: Id, oneBatch: bool)
    requires engine.diff(root, if loaded.Some? then loaded.value else "{}", uri, text) == Some(diff)
    ensures var start, open := Initialize(Some(root), loaded, refresh, Some(id)), DidOpen(Some(uri), Some(text));
            var batches := if oneBatch then [[start, open]] else [[start], [open]];
            var end := AfterBatches(engine, NEW_SERVER, batches);
            && end.root == Some(root) && end.config == (if loaded.Some? then loaded.value else "{}")
            && end.refresh == refresh
            && end.contents == map[uri := text] && end.diffs == map[uri := diff]
            && end.out == [Capabilities(id), PublishDiagnostics(uri, diff)]
                          + (if refresh then [RefreshCodeLens(1)] else [])
            && AfterBatches(engine, end, [[CodeLens(Some(uri), Some(id))]]).out
               == end.out + [Lenses(id, Some(diff))]
  {
    var start, open := Initialize(Some(root), loaded, refresh, Some(id)), DidOpen(Some(uri), Some(text));
    var begun := Handled(engine, NEW_SERVER, start);
    OneBatchMeans(engine, NEW_SERVER, start);
    UpdateIsPublished(engine, begun, open, uri, text);
    if oneBatch {
      StartAndOpen(engine, NEW_SERVER, start, open);
    } else {
      TwoBatchesMean(engine, NEW_SERVER, start, open);
    }
    var end := AfterBatches(engine, begun, [[open]]);
    LensesShowOwnDiff(engine, end, uri, id);
  }

  lemma TwoBatchesMean(engine: Engine, st: State, first: Message, second: Message)
    requires !first.Exit? && !second.Exit?
    ensures AfterBatches(engine, st, [[first], [second]])
         == AfterBatches(engine, AfterBatches(engine, st, [[first]]), [[second]])
  {
    assert [[first], [second]][1..] == [[second]] && [[first]][1..] == [];
    hide HandledAll, ComputedAll;
    assert AfterBatch(engine, st, [first]).1 by { Running(engine, st, first); }
  }

  lemma Running(engine: Engine, st: State, msg: Message)
    requires !msg.Exit?
    ensures AfterBatch(engine, st, [msg]).1
  {
    assert [msg][1..] == [];
    assert HandledAll(engine, Progress(st, [], false), [msg])
        == HandledAll(engine, Progress(Handled(engine, st, msg), DirtyAfter([], msg), false), []);
  }

  /** In one batch the document is diffed with the root that came before it. */
  lemma StartAndOpen(engine: Engine, st: State, start: Message, open: Message)
    requires start.Initialize? && open.DidOpen?
    ensures AfterBatches(engine, st, [[start, open]])
         == AfterBatches(engine, Handled(engine, st, start), [[open]])
  {
    var both: seq<Message>, begun := [start, open], Handled(engine, st, start);
    var none: seq<seq<Message>> := [];
    assert both[1..] == [open] && [both][1..] == none && [[open]][1..] == none;
    assert HandledAll(engine, Progress(st, [], false), both)
        == HandledAll(engine, Progress(begun, [], false), [open]);
    hide Handled;
  }
}
