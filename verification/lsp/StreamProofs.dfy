/**
 Which streams of messages have one outcome, whatever the batches, under a given engine and from a
 given state: the exact condition, document by document.
 */
module StreamProofs {

  import opened Lists
  import opened Wrappers
  import opened Server
  import opened ServerProofs

  // ---------------------------------------------------------------- the condition

  /**
   What a stream does to one document: the diff it had when it was last closed or at the start,
   and the contents it has been given since.
   */
  datatype Track = Track(base: Option<Diff>, seen: seq<Text>)

  predicate Closes(msg: Message, uri: Uri) {
    msg.DidClose? && msg.uri == Some(uri)
  }

  predicate Updates(msg: Message, uri: Uri) {
    (msg.DidOpen? || msg.DidChange?) && msg.uri == Some(uri) && msg.text.Some?
  }

  function TrackStep(uri: Uri, t: Track, msg: Message): Track {
    if Closes(msg, uri) then Track(None, [])
    else if Updates(msg, uri) then t.(seen := t.seen + [msg.text.value])
    else t
  }

  function Tracked(uri: Uri, t: Track, msgs: seq<Message>): Track
    decreases |msgs|
  {
    if msgs == [] then t else Tracked(uri, TrackStep(uri, t, msgs[0]), msgs[1..])
  }

  function AtStart(st: State, uri: Uri): Track {
    Track(Lookup(st.diffs, uri), [])
  }

  function DiffIn(engine: Engine, st: State, uri: Uri, text: Text): Option<Diff> {
    DiffOf(engine, st.root, st.config, uri, text)
  }

  /** The engine serves the latest content, or serves no content of the track differently from its base. */
  predicate Settled(engine: Engine, st: State, uri: Uri, t: Track) {
    t.seen == []
    || DiffIn(engine, st, uri, t.seen[|t.seen| - 1]).Some?
    || forall i :: 0 <= i < |t.seen| && DiffIn(engine, st, uri, t.seen[i]).Some? ==>
         DiffIn(engine, st, uri, t.seen[i]) == t.base
  }

  /** Every document is settled at the end of the stream. */
  ghost predicate OneOutcome(engine: Engine, st: State, msgs: seq<Message>) {
    forall uri :: Settled(engine, st, uri, Tracked(uri, AtStart(st, uri), msgs))
  }

  /** The diff a settled document ends with. */
  function FinalDiff(engine: Engine, st: State, uri: Uri, t: Track): Option<Diff> {
    if t.seen == [] then t.base
    else
      var latest := DiffIn(engine, st, uri, t.seen[|t.seen| - 1]);
      if latest.Some? then latest else t.base
  }

  // ---------------------------------------------------------------- what holds in any batch

  predicate Possible(engine: Engine, st: State, uri: Uri, t: Track, diff: Option<Diff>) {
    diff == t.base || (diff.Some? && exists i :: 0 <= i < |t.seen| && diff == DiffIn(engine, st, uri, t.seen[i]))
  }

  /** The caches agree with the track of one document, with `dirty` still to be diffed. */
  predicate Follows(engine: Engine, st: State, dirty: seq<Uri>, uri: Uri, t: Track) {
    && Possible(engine, st, uri, t, Lookup(st.diffs, uri))
    && (uri in dirty ==> t.seen != [])
    && (t.seen != [] ==>
         var latest := t.seen[|t.seen| - 1];
         && Lookup(st.contents, uri) == Some(latest)
         && (uri !in dirty && DiffIn(engine, st, uri, latest).Some?
            ==> Lookup(st.diffs, uri) == DiffIn(engine, st, uri, latest)))
  }

  lemma PossibleAfterUpdate(engine: Engine, st: State, uri: Uri, t: Track, text: Text, diff: Option<Diff>)
    requires Possible(engine, st, uri, t, diff)
    ensures Possible(engine, st, uri, t.(seen := t.seen + [text]), diff)
  {
    hide DiffIn;
    var more := t.(seen := t.seen + [text]);
    if diff != t.base {
      var i :| 0 <= i < |t.seen| && diff == DiffIn(engine, st, uri, t.seen[i]);
      assert diff == DiffIn(engine, st, uri, more.seen[i]);
    }
  }

  lemma HandledFollows(engine: Engine, st: State, dirty: seq<Uri>, uri: Uri, t: Track, msg: Message)
    requires KeepsSetup(st, msg) && Follows(engine, st, dirty, uri, t)
    ensures var next := Handled(engine, st, msg);
            && next.root == st.root && next.config == st.config
            && Follows(engine, next, DirtyAfter(dirty, msg), uri, TrackStep(uri, t, msg))
  {
    hide DiffOf, Possible;
    if Updates(msg, uri) {
      PossibleAfterUpdate(engine, st, uri, t, msg.text.value, Lookup(st.diffs, uri));
    }
    var next := Handled(engine, st, msg);
    SameSetup(engine, st, next, uri, TrackStep(uri, t, msg), Lookup(st.diffs, uri));
    if Closes(msg, uri) {
      NothingPossible(engine, next, uri);
    }
  }

  lemma SameSetup(engine: Engine, st: State, next: State, uri: Uri, t: Track, diff: Option<Diff>)
    requires KeepsRoot(st, next)
    ensures Possible(engine, st, uri, t, diff) == Possible(engine, next, uri, t, diff)
  {
    assert forall text :: DiffIn(engine, st, uri, text) == DiffIn(engine, next, uri, text);
  }

  predicate KeepsRoot(st: State, next: State) {
    next.root == st.root && next.config == st.config
  }

  lemma NothingPossible(engine: Engine, st: State, uri: Uri)
    ensures Possible(engine, st, uri, Track(None, []), None)
  {
  }

  lemma ComputedFollows(engine: Engine, st: State, dirty: seq<Uri>, uri: Uri, t: Track)
    requires dirty != [] && Follows(engine, st, dirty, uri, t)
    ensures var next := Computed(engine, st, dirty[0]);
            KeepsRoot(st, next) && Follows(engine, next, dirty[1..], uri, t)
  {
    hide DiffOf;
  }

  lemma {:induction false} ComputedAllFollows(engine: Engine, st: State, dirty: seq<Uri>, uri: Uri, t: Track)
    requires Follows(engine, st, dirty, uri, t)
    ensures var next := ComputedAll(engine, st, dirty); KeepsRoot(st, next) && Follows(engine, next, [], uri, t)
    decreases |dirty|
  {
    hide Follows, Computed;
    if dirty != [] {
      ComputedFollows(engine, st, dirty, uri, t);
      ComputedAllFollows(engine, Computed(engine, st, dirty[0]), dirty[1..], uri, t);
    }
  }

  lemma {:induction false} HandledAllFollows(engine: Engine, p: Progress, msgs: seq<Message>, uri: Uri, t: Track)
    requires Plain(p.state, msgs) && !p.exited && Follows(engine, p.state, p.dirty, uri, t)
    ensures var end := HandledAll(engine, p, msgs);
            && !end.exited && KeepsRoot(p.state, end.state)
            && Follows(engine, end.state, end.dirty, uri, Tracked(uri, t, msgs))
    decreases |msgs|
  {
    hide Follows, DirtyAfter, TrackStep, Handled;
    if msgs != [] {
      HandledFollows(engine, p.state, p.dirty, uri, t, msgs[0]);
      var next := Progress(Handled(engine, p.state, msgs[0]), DirtyAfter(p.dirty, msgs[0]), false);
      PlainParts(p.state, next.state, msgs, 1);
      HandledAllFollows(engine, next, msgs[1..], uri, TrackStep(uri, t, msgs[0]));
    }
  }

  lemma BatchFollows(engine: Engine, st: State, msgs: seq<Message>, uri: Uri, t: Track)
    requires Plain(st, msgs) && Follows(engine, st, [], uri, t)
    ensures var (next, running) := AfterBatch(engine, st, msgs);
            running && KeepsRoot(st, next) && Follows(engine, next, [], uri, Tracked(uri, t, msgs))
  {
    hide Follows, HandledAll, ComputedAll, Plain;
    HandledAllFollows(engine, Progress(st, [], false), msgs, uri, t);
    var end := HandledAll(engine, Progress(st, [], false), msgs);
    ComputedAllFollows(engine, end.state, end.dirty, uri, Tracked(uri, t, msgs));
  }

  lemma {:induction false} TrackedConcat(uri: Uri, t: Track, a: seq<Message>, b: seq<Message>)
    ensures Tracked(uri, t, a + b) == Tracked(uri, Tracked(uri, t, a), b)
    decreases |a|
  {
    if a == [] {
      assert a + b == b;
    } else {
      assert (a + b)[1..] == a[1..] + b;
      TrackedConcat(uri, TrackStep(uri, t, a[0]), a[1..], b);
    }
  }

  lemma {:induction false} BatchesFollow(engine: Engine, st: State, batches: seq<seq<Message>>, uri: Uri, t: Track)
    requires Plain(st, Flatten(batches)) && Follows(engine, st, [], uri, t)
    ensures var end := AfterBatches(engine, st, batches);
            KeepsRoot(st, end) && Follows(engine, end, [], uri, Tracked(uri, t, Flatten(batches)))
    decreases |batches|
  {
    hide Follows, AfterBatch;
    if batches != [] {
      assert Plain(st, batches[0]) && Plain(st, Flatten(batches[1..]));
      BatchFollows(engine, st, batches[0], uri, t);
      var (next, running) := AfterBatch(engine, st, batches[0]);
      assert Plain(next, Flatten(batches[1..]));
      BatchesFollow(engine, next, batches[1..], uri, Tracked(uri, t, batches[0]));
      TrackedConcat(uri, t, batches[0], Flatten(batches[1..]));
    }
  }

  // ---------------------------------------------------------------- settled documents

  lemma SettledFollows(engine: Engine, st: State, uri: Uri, t: Track)
    requires Follows(engine, st, [], uri, t) && Settled(engine, st, uri, t)
    ensures Lookup(st.diffs, uri) == FinalDiff(engine, st, uri, t)
  {
    hide DiffIn;
  }

  /** However the stream is cut, every settled document ends with the same diff. */
  lemma EndsWithFinalDiff(engine: Engine, st: State, batches: seq<seq<Message>>, uri: Uri)
    requires Plain(st, Flatten(batches))
    requires Settled(engine, st, uri, Tracked(uri, AtStart(st, uri), Flatten(batches)))
    ensures Lookup(AfterBatches(engine, st, batches).diffs, uri)
         == FinalDiff(engine, st, uri, Tracked(uri, AtStart(st, uri), Flatten(batches)))
  {
    var t := Tracked(uri, AtStart(st, uri), Flatten(batches));
    var end := AfterBatches(engine, st, batches);
    BatchesFollow(engine, st, batches, uri, AtStart(st, uri));
    hide Follows, AfterBatches, Plain, Tracked;
    assert forall text :: DiffIn(engine, st, uri, text) == DiffIn(engine, end, uri, text);
    SettledFollows(engine, end, uri, t);
  }

  lemma {:induction false} ContentsOfBatches(engine: Engine, st: State, batches: seq<seq<Message>>)
    requires Plain(st, Flatten(batches))
    ensures AfterBatches(engine, st, batches).contents == ContentsAfter(st.contents, Flatten(batches))
    decreases |batches|
  {
    hide AfterBatch;
    if batches != [] {
      assert Plain(st, batches[0]) && Plain(st, Flatten(batches[1..]));
      ContentsOfBatch(engine, st, batches[0]);
      var (next, running) := AfterBatch(engine, st, batches[0]);
      assert Plain(next, Flatten(batches[1..]));
      ContentsOfBatches(engine, next, batches[1..]);
      ContentsConcat(st.contents, batches[0], Flatten(batches[1..]));
    }
  }

  lemma ContentsOfBatch(engine: Engine, st: State, msgs: seq<Message>)
    requires Plain(st, msgs)
    ensures var (next, running) := AfterBatch(engine, st, msgs);
            running && KeepsRoot(st, next) && next.contents == ContentsAfter(st.contents, msgs)
  {
    hide HandledAll, ComputedAll, Plain;
    var start := Progress(st, [], false);
    ContentsHandled(engine, start, msgs);
    var end := HandledAll(engine, start, msgs);
    ContentsComputed(engine, end.state, end.dirty);
  }

  lemma {:induction false} ContentsHandled(engine: Engine, p: Progress, msgs: seq<Message>)
    requires Plain(p.state, msgs) && !p.exited
    ensures var end := HandledAll(engine, p, msgs);
            !end.exited && KeepsRoot(p.state, end.state) && end.state.contents == ContentsAfter(p.state.contents, msgs)
    decreases |msgs|
  {
    hide DirtyAfter;
    if msgs != [] {
      var next := Progress(Handled(engine, p.state, msgs[0]), DirtyAfter(p.dirty, msgs[0]), false);
      assert KeepsSetup(p.state, msgs[0]);
      assert next.state.contents == ContentsStep(p.state.contents, msgs[0]) && KeepsRoot(p.state, next.state);
      hide Handled;
      PlainParts(p.state, next.state, msgs, 1);
      ContentsHandled(engine, next, msgs[1..]);
    }
  }

  lemma {:induction false} ContentsComputed(engine: Engine, st: State, dirty: seq<Uri>)
    ensures var next := ComputedAll(engine, st, dirty); KeepsRoot(st, next) && next.contents == st.contents
    decreases |dirty|
  {
    hide DiffOf;
    if dirty != [] {
      ContentsComputed(engine, Computed(engine, st, dirty[0]), dirty[1..]);
    }
  }

  lemma SameLookups(a: map<Uri, Diff>, b: map<Uri, Diff>)
    requires forall uri :: Lookup(a, uri) == Lookup(b, uri)
    ensures a == b
  {
    assert forall uri :: uri in a <==> Lookup(a, uri).Some?;
    assert forall uri :: uri in b <==> Lookup(b, uri).Some?;
    assert a.Keys == b.Keys;
  }

  /** If every document is settled, all cuts of the stream end with the same caches. */
  lemma SettledStreams(engine: Engine, st: State, one: seq<seq<Message>>, other: seq<seq<Message>>)
    requires Flatten(one) == Flatten(other) && Plain(st, Flatten(one)) && OneOutcome(engine, st, Flatten(one))
    ensures SameCaches(AfterBatches(engine, st, one), AfterBatches(engine, st, other))
  {
    hide AfterBatches, Plain, Settled, Tracked, FinalDiff, Lookup;
    ContentsOfBatches(engine, st, one);
    ContentsOfBatches(engine, st, other);
    forall uri
      ensures Lookup(AfterBatches(engine, st, one).diffs, uri) == Lookup(AfterBatches(engine, st, other).diffs, uri) {
      EndsWithFinalDiff(engine, st, one, uri);
      EndsWithFinalDiff(engine, st, other, uri);
    }
    SameLookups(AfterBatches(engine, st, one).diffs, AfterBatches(engine, st, other).diffs);
  }

  // ---------------------------------------------------------------- documents that are not settled

  predicate NeverCloses(msgs: seq<Message>, uri: Uri) {
    forall msg :: msg in msgs ==> !Closes(msg, uri)
  }

  /** While a batch is handled, a document's diff only goes when it is closed. */
  lemma {:induction false} HandlingKeepsBase(engine: Engine, p: Progress, msgs: seq<Message>, uri: Uri, t: Track)
    requires Plain(p.state, msgs) && !p.exited && Lookup(p.state.diffs, uri) == t.base
    ensures var end := HandledAll(engine, p, msgs);
            !end.exited && Lookup(end.state.diffs, uri) == Tracked(uri, t, msgs).base
    decreases |msgs|
  {
    hide DirtyAfter;
    if msgs != [] {
      var next := Progress(Handled(engine, p.state, msgs[0]), DirtyAfter(p.dirty, msgs[0]), false);
      assert KeepsSetup(p.state, msgs[0]);
      assert Lookup(next.state.diffs, uri) == TrackStep(uri, t, msgs[0]).base;
      assert KeepsRoot(p.state, next.state);
      hide Handled, TrackStep;
      PlainParts(p.state, next.state, msgs, 1);
      HandlingKeepsBase(engine, next, msgs[1..], uri, TrackStep(uri, t, msgs[0]));
    }
  }

  /** Diffing leaves a document alone whose content the engine refuses. */
  lemma {:induction false} RefusedStays(engine: Engine, st: State, dirty: seq<Uri>, uri: Uri, text: Text)
    requires Lookup(st.contents, uri) == Some(text) && DiffIn(engine, st, uri, text).None?
    ensures Lookup(ComputedAll(engine, st, dirty).diffs, uri) == Lookup(st.diffs, uri)
    decreases |dirty|
  {
    hide DiffOf;
    if dirty != [] {
      RefusedStays(engine, Computed(engine, st, dirty[0]), dirty[1..], uri, text);
    }
  }

  /** A batch that ends with a refused content leaves the diff of the track's base. */
  lemma RefusedBatch(engine: Engine, st: State, msgs: seq<Message>, uri: Uri, t: Track, start: Track)
    requires Plain(st, msgs) && Follows(engine, st, [], uri, start)
    requires Lookup(st.diffs, uri) == t.base
    requires var end := Tracked(uri, start, msgs);
             end.seen != [] && DiffIn(engine, st, uri, end.seen[|end.seen| - 1]).None?
    ensures Lookup(AfterBatch(engine, st, msgs).0.diffs, uri) == Tracked(uri, t, msgs).base
  {
    var p := Progress(st, [], false);
    HandlingKeepsBase(engine, p, msgs, uri, t);
    HandledAllFollows(engine, p, msgs, uri, start);
    var end, track := HandledAll(engine, p, msgs), Tracked(uri, start, msgs);
    hide HandledAll, Plain, Tracked, DiffOf;
    RefusedStays(engine, end.state, end.dirty, uri, track.seen[|track.seen| - 1]);
  }

  lemma {:induction false} NoCloseKeepsBase(uri: Uri, t: Track, msgs: seq<Message>)
    requires NeverCloses(msgs, uri)
    ensures Tracked(uri, t, msgs).base == t.base
    decreases |msgs|
  {
    if msgs != [] {
      assert !Closes(msgs[0], uri);
      NoCloseKeepsBase(uri, TrackStep(uri, t, msgs[0]), msgs[1..]);
    }
  }

  lemma TrackedLast(uri: Uri, t: Track, msgs: seq<Message>)
    requires msgs != []
    ensures var n := |msgs| - 1; Tracked(uri, t, msgs) == TrackStep(uri, Tracked(uri, t, msgs[..n]), msgs[n])
  {
    var n := |msgs| - 1;
    TrackedConcat(uri, t, msgs[..n], [msgs[n]]);
    assert msgs[..n] + [msgs[n]] == msgs && [msgs[n]][1..] == [];
  }

  /** Where in the stream a content of the final track was given. */
  lemma {:induction false} WhereGiven(uri: Uri, t: Track, msgs: seq<Message>, i: nat) returns (p: nat)
    requires t.seen == [] && i < |Tracked(uri, t, msgs).seen|
    ensures p <= |msgs| && NeverCloses(msgs[p..], uri)
    ensures var given := Tracked(uri, t, msgs[..p]);
            given.seen != [] && given.seen[|given.seen| - 1] == Tracked(uri, t, msgs).seen[i]
    decreases |msgs|
  {
    var n := |msgs| - 1;
    TrackedLast(uri, t, msgs);
    var before := Tracked(uri, t, msgs[..n]);
    if i == |before.seen| {
      p := n + 1;
      assert msgs[..p] == msgs;
    } else {
      assert !Closes(msgs[n], uri) && before.seen[i] == Tracked(uri, t, msgs).seen[i];
      p := WhereGiven(uri, t, msgs[..n], i);
      assert msgs[..n][..p] == msgs[..p];
      assert msgs[p..] == msgs[..n][p..] + [msgs[n]];
      NotClosedLater(msgs[..n][p..], msgs[n], uri);
    }
  }

  lemma NotClosedLater(msgs: seq<Message>, msg: Message, uri: Uri)
    requires NeverCloses(msgs, uri) && !Closes(msg, uri)
    ensures NeverCloses(msgs + [msg], uri)
  {
  }

  lemma OneBatch(engine: Engine, st: State, msgs: seq<Message>)
    ensures AfterBatches(engine, st, [msgs]) == AfterBatch(engine, st, msgs).0 && Flatten([msgs]) == msgs
  {
    hide AfterBatch;
    assert [msgs][1..] == [] && msgs + [] == msgs;
    assert Flatten<Message>([]) == [];
  }

  lemma TwoBatches(engine: Engine, st: State, a: seq<Message>, b: seq<Message>)
    requires AfterBatch(engine, st, a).1
    ensures AfterBatches(engine, st, [a, b]) == AfterBatch(engine, AfterBatch(engine, st, a).0, b).0
    ensures Flatten([a, b]) == a + b
  {
    hide AfterBatch;
    assert [a, b][1..] == [b];
    OneBatch(engine, AfterBatch(engine, st, a).0, b);
  }

  lemma PlainParts(st: State, next: State, msgs: seq<Message>, p: nat)
    requires Plain(st, msgs) && KeepsRoot(st, next) && p <= |msgs|
    ensures Plain(st, msgs[..p]) && Plain(next, msgs[p..])
  {
  }

  /** A content that was served on the way shows in the cache if the stream is cut behind it. */
  lemma CutShows(engine: Engine, st: State, msgs: seq<Message>, uri: Uri, p: nat)
    requires Plain(st, msgs) && p <= |msgs| && NeverCloses(msgs[p..], uri)
    requires var t, given := Tracked(uri, AtStart(st, uri), msgs), Tracked(uri, AtStart(st, uri), msgs[..p]);
             && t.seen != [] && DiffIn(engine, st, uri, t.seen[|t.seen| - 1]).None?
             && given.seen != [] && DiffIn(engine, st, uri, given.seen[|given.seen| - 1]).Some?
    ensures var given := Tracked(uri, AtStart(st, uri), msgs[..p]);
            && Flatten([msgs[..p], msgs[p..]]) == msgs
            && Lookup(AfterBatches(engine, st, [msgs[..p], msgs[p..]]).diffs, uri)
               == DiffIn(engine, st, uri, given.seen[|given.seen| - 1])
  {
    var a, b, start := msgs[..p], msgs[p..], AtStart(st, uri);
    var given := Tracked(uri, start, a);
    assert a + b == msgs;
    PlainParts(st, st, msgs, p);
    BatchFollows(engine, st, a, uri, start);
    var (next, _) := AfterBatch(engine, st, a);
    PlainParts(st, next, msgs, p);
    TrackedConcat(uri, start, a, b);
    TwoBatches(engine, st, a, b);
    NoCloseKeepsBase(uri, AtStart(next, uri), b);
    hide AfterBatch, AfterBatches, Plain, Tracked, Possible, DiffOf, Flatten;
    RefusedBatch(engine, next, b, uri, AtStart(next, uri), given);
  }

  lemma UnsettledStream(engine: Engine, st: State, msgs: seq<Message>, uri: Uri)
    requires Plain(st, msgs) && !Settled(engine, st, uri, Tracked(uri, AtStart(st, uri), msgs))
    ensures exists p :: 0 <= p <= |msgs| && Flatten([msgs]) == Flatten([msgs[..p], msgs[p..]]) == msgs
                        && !SameCaches(AfterBatches(engine, st, [msgs]),
                           AfterBatches(engine, st, [msgs[..p], msgs[p..]]))
  {
    var start := AtStart(st, uri);
    var t := Tracked(uri, start, msgs);
    var i :| 0 <= i < |t.seen| && DiffIn(engine, st, uri, t.seen[i]).Some?
        && DiffIn(engine, st, uri, t.seen[i]) != t.base;
    var p := WhereGiven(uri, start, msgs, i);
    hide AfterBatch, AfterBatches, Plain, Tracked, DiffIn, Flatten, NeverCloses;
    StartFollows(engine, st, uri);
    RefusedBatch(engine, st, msgs, uri, start, start);
    OneBatch(engine, st, msgs);
    CutShows(engine, st, msgs, uri, p);
  }

  lemma StartFollows(engine: Engine, st: State, uri: Uri)
    ensures Follows(engine, st, [], uri, AtStart(st, uri))
  {
  }

  /**
   From any state and under any engine, a stream of messages that neither exits nor replaces root
   and configuration ends with the same caches however it is cut into batches if and only if every
   document is settled at its end.
   */
  lemma StreamsWithOneOutcome(engine: Engine, st: State, msgs: seq<Message>)
    requires Plain(st, msgs)
    ensures OneOutcome(engine, st, msgs) <==>
      forall one, other :: Flatten(one) == msgs && Flatten(other) == msgs ==>
        SameCaches(AfterBatches(engine, st, one), AfterBatches(engine, st, other))
  {
    hide AfterBatches, Plain, Settled, Tracked, SameCaches;
    if OneOutcome(engine, st, msgs) {
      forall one, other | Flatten(one) == msgs && Flatten(other) == msgs
        ensures SameCaches(AfterBatches(engine, st, one), AfterBatches(engine, st, other))
      {
        SettledStreams(engine, st, one, other);
      }
    } else {
      var uri :| !Settled(engine, st, uri, Tracked(uri, AtStart(st, uri), msgs));
      UnsettledStream(engine, st, msgs, uri);
    }
  }
}
