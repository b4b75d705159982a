/**
 Request correlation of the client (`crates/lsp-client/src/client.rs`): requests, the reader task
 and the pending map as one state machine whose steps are the pieces between which tasks can be
 interleaved. The safety properties hold over every run.
 */
module Client {

  import opened Wrappers

  /** A request is named by the position of its `fetch_add` among all of them. */
  type RequestNo = nat
  type Id = int
  type Reply = string
  type WriteError = string

  const TWO_63 := 0x8000_0000_0000_0000
  const TWO_64 := 0x1_0000_0000_0000_0000

  /** The value of the 64-bit counter, which starts at one, when request `k` takes it. */
  function IdOf(k: RequestNo): (id: Id)
    ensures -TWO_63 <= id < TWO_63
  {
    (1 + k + TWO_63) % TWO_64 - TWO_63
  }

  datatype Outcome = Answered(reply: Reply) | NotWritten(error: WriteError) | ConnectionClosed | TimedOut

  /** How far `send_request` has come. */
  datatype Phase =
    | Allocated
    | Writing
    | Failing(error: WriteError)
    | Waiting
    | Expiring
    | Returned(outcome: Outcome)

  /** What became of the sending half of the request's channel. */
  datatype Channel = Unused | Sent(reply: Reply) | Dropped

  /** `since` is how many messages had been received when the request was registered. */
  datatype Request = Request(phase: Phase, channel: Channel, since: nat)

  /** The reader holds a sender it has taken from the map until it sends on it. */
  datatype Reader = Reading | Holding(k: RequestNo, reply: Reply) | Ended

  /** Messages with an id, in the order in which the reader dispatches them. */
  datatype Received = Received(id: Id, reply: Reply)

  datatype State = State(
    requests: seq<Request>,
    pending: map<Id, RequestNo>,
    reader: Reader,
    received: seq<Received>)

  const START := State([], map[], Reading, [])

  datatype Step =
    | Allocate
    | Register(k: RequestNo)
    | WriteOk(k: RequestNo)
    | WriteFails(k: RequestNo, error: WriteError)
    | RemoveFailed(k: RequestNo)
    | Dispatch(id: Id, reply: Reply)
    | Send
    | Wake(k: RequestNo)
    | Expire(k: RequestNo)
    | RemoveExpired(k: RequestNo)
    | EndOfStream
    | Abort

  predicate InPhase(st: State, k: RequestNo, phase: Phase) {
    k < |st.requests| && st.requests[k].phase == phase
  }

  predicate Enabled(st: State, step: Step) {
    match step
    case Allocate => true
    case Register(k) => InPhase(st, k, Allocated)
    case WriteOk(k) => InPhase(st, k, Writing)
    case WriteFails(k, _) => InPhase(st, k, Writing)
    case RemoveFailed(k) => k < |st.requests| && st.requests[k].phase.Failing?
    case Dispatch(_, _) => st.reader.Reading?
    case Send => st.reader.Holding? && st.reader.k < |st.requests|
    case Wake(k) => InPhase(st, k, Waiting) && !st.requests[k].channel.Unused?
    case Expire(k) => InPhase(st, k, Waiting) && st.requests[k].channel.Unused?
    case RemoveExpired(k) => InPhase(st, k, Expiring)
    case EndOfStream => st.reader.Reading?
    case Abort => st.reader.Reading?
  }

  /** Dropping the sender of a request, if it is one. */
  function DropSender(requests: seq<Request>, k: RequestNo): (r: seq<Request>)
    ensures |r| == |requests|
  {
    if k < |requests| then requests[k := requests[k].(channel := Dropped)] else requests
  }

  /** Taking an id out of the map; the sender found there is dropped. */
  function Removed(st: State, id: Id): State {
    if id in st.pending then st.(requests := DropSender(st.requests, st.pending[id]), pending := st.pending - {id})
    else st
  }

  function SetPhase(st: State, k: RequestNo, phase: Phase): State
    requires k < |st.requests|
  {
    st.(requests := st.requests[k := st.requests[k].(phase := phase)])
  }

  /** Every sender that is still in the map is dropped. */
  function AllDropped(st: State): seq<Request> {
    seq(|st.requests|, k requires 0 <= k < |st.requests| =>
      if exists id :: id in st.pending && st.pending[id] == k then st.requests[k].(channel := Dropped)
      else st.requests[k])
  }

  function Apply(st: State, step: Step): State
    requires Enabled(st, step)
  {
    match step
    case Allocate => st.(requests := st.requests + [Request(Allocated, Unused, 0)])
    case Register(k) =>
      var cleared := Removed(st, IdOf(k));
      cleared.(requests := cleared.requests[k := Request(Writing, cleared.requests[k].channel, |st.received|)],
               pending := cleared.pending[IdOf(k) := k])
    case WriteOk(k) => SetPhase(st, k, Waiting)
    case WriteFails(k, error) => SetPhase(st, k, Failing(error))
    case RemoveFailed(k) => SetPhase(Removed(st, IdOf(k)), k, Returned(NotWritten(st.requests[k].phase.error)))
    case Dispatch(id, reply) =>
      var heard := st.(received := st.received + [Received(id, reply)]);
      if id in st.pending then heard.(pending := st.pending - {id}, reader := Holding(st.pending[id], reply)) else heard
    case Send =>
      var k := st.reader.k;
      st.(requests := st.requests[k := st.requests[k].(channel := Sent(st.reader.reply))], reader := Reading)
    case Wake(k) =>
      var channel := st.requests[k].channel;
      SetPhase(st, k, Returned(if channel.Sent? then Answered(channel.reply) else ConnectionClosed))
    case Expire(k) => SetPhase(st, k, Expiring)
    case RemoveExpired(k) => SetPhase(Removed(st, IdOf(k)), k, Returned(TimedOut))
    case EndOfStream => st.(requests := AllDropped(st), pending := map[], reader := Ended)
    case Abort => st.(reader := Ended)
  }

  /** The steps can be taken one after the other. */
  predicate CanRun(st: State, steps: seq<Step>)
    decreases |steps|
  {
    steps == [] || (Enabled(st, steps[0]) && CanRun(Apply(st, steps[0]), steps[1..]))
  }

  function Run(st: State, steps: seq<Step>): State
    requires CanRun(st, steps)
    decreases |steps|
  {
    if steps == [] then st else Run(Apply(st, steps[0]), steps[1..])
  }

  // ---------------------------------------------------------------- ids

  /** Fewer than 2^64 requests never share an id. */
  lemma IdsAreUnique(j: RequestNo, k: RequestNo)
    requires j < TWO_64 && k < TWO_64 && IdOf(j) == IdOf(k)
    ensures j == k
  {
    var a, b := 1 + j + TWO_63, 1 + k + TWO_63;
    assert a / TWO_64 <= 1 && b / TWO_64 <= 1;
  }

  /** The first request has the id one, and they count up. */
  lemma IdsCountUp(k: RequestNo)
    requires k < 0x7fff_ffff_ffff_ffff
    ensures IdOf(k) == k + 1
  {
  }

  /** The counter wraps: beyond 2^64 requests the claim fails. */
  lemma IdsWrap(k: RequestNo)
    ensures IdOf(k + TWO_64) == IdOf(k)
  {
    assert 1 + (k + TWO_64) + TWO_63 == (1 + k + TWO_63) + TWO_64;
  }

  // ---------------------------------------------------------------- the invariant

  /** The first message with the id among those from `since` on. */
  function FirstReply(received: seq<Received>, since: nat, id: Id): Option<Reply>
    decreases |received| - since
  {
    if since >= |received| then None
    else if received[since].id == id then Some(received[since].reply)
    else FirstReply(received, since + 1, id)
  }

  /** An entry of the map belongs to a request of that id which has not returned or been answered. */
  predicate PendingIsOwn(st: State) {
    forall id :: id in st.pending ==>
      var k := st.pending[id];
      && k < |st.requests| && id == IdOf(k) && st.requests[k].channel.Unused?
      && !st.requests[k].phase.Allocated? && !st.requests[k].phase.Returned?
      && FirstReply(st.received, st.requests[k].since, id).None?
  }

  predicate HoldingIsOwn(st: State) {
    st.reader.Holding? ==>
      var k := st.reader.k;
      && k < |st.requests| && IdOf(k) !in st.pending && st.requests[k].channel.Unused?
         && !st.requests[k].phase.Allocated?
      && FirstReply(st.received, st.requests[k].since, IdOf(k)) == Some(st.reader.reply)
  }

  /** What is known of one request. */
  predicate RequestOk(st: State, k: RequestNo)
    requires k < |st.requests|
  {
    var r := st.requests[k];
    && r.since <= |st.received|
    && (r.phase.Allocated? ==> r.channel.Unused? && IdOf(k) !in st.pending)
    && (r.channel.Sent? ==> FirstReply(st.received, r.since, IdOf(k)) == Some(r.channel.reply))
    && (r.phase.Returned? ==> IdOf(k) !in st.pending)
    && (r.phase.Returned? && r.phase.outcome.Answered? ==> r.channel == Sent(r.phase.outcome.reply))
    && (r.phase.Returned? && r.phase.outcome.ConnectionClosed? ==> r.channel.Dropped?)
    && (r.channel.Dropped?
       ==> st.reader.Ended? || (r.phase.Returned? && (r.phase.outcome.NotWritten? || r.phase.outcome.TimedOut?)))
    && (r.channel.Unused? && !r.phase.Allocated? && !r.phase.Returned? ==>
         (IdOf(k) in st.pending && st.pending[IdOf(k)] == k) || (st.reader.Holding? && st.reader.k == k))
  }

  predicate Invariant(st: State) {
    && |st.requests| <= TWO_64 && PendingIsOwn(st) && HoldingIsOwn(st)
    && forall k :: 0 <= k < |st.requests| ==> RequestOk(st, k)
  }

  lemma {:induction false} FirstReplyExtends(received: seq<Received>, since: nat, id: Id, more: Received)
    requires since <= |received|
    ensures FirstReply(received + [more], since, id)
         == if FirstReply(received, since, id).Some? then FirstReply(received, since, id)
            else if more.id == id then Some(more.reply) else None
    decreases |received| - since
  {
    if since < |received| {
      FirstReplyExtends(received, since + 1, id, more);
    }
  }

  lemma DistinctIds(st: State)
    requires |st.requests| <= TWO_64
    ensures forall j, k :: 0 <= j < |st.requests| && 0 <= k < |st.requests| && IdOf(j) == IdOf(k) ==> j == k
  {
    forall j, k | 0 <= j < |st.requests| && 0 <= k < |st.requests| && IdOf(j) == IdOf(k)
      ensures j == k
    {
      IdsAreUnique(j, k);
    }
  }

  lemma AllocateKeeps(st: State)
    requires Invariant(st) && |st.requests| < TWO_64
    ensures Invariant(Apply(st, Allocate))
  {
    hide IdOf, FirstReply;
    var next, n := Apply(st, Allocate), |st.requests|;
    DistinctIds(next);
    assert forall k :: 0 <= k < n ==> RequestOk(st, k) && next.requests[k] == st.requests[k];
  }

  lemma RegisterKeeps(st: State, k: RequestNo)
    requires Invariant(st) && Enabled(st, Register(k))
    ensures Invariant(Apply(st, Register(k)))
  {
    assert RequestOk(st, k);
    assert FirstReply(st.received, |st.received|, IdOf(k)) == None;
    hide IdOf, FirstReply;
    var next := Apply(st, Register(k));
    DistinctIds(st);
    forall j | 0 <= j < |next.requests| ensures RequestOk(next, j) {
      assert RequestOk(st, j);
    }
  }

  lemma PhaseKeeps(st: State, k: RequestNo, phase: Phase)
    requires Invariant(st) && k < |st.requests|
    requires !st.requests[k].phase.Allocated? && !st.requests[k].phase.Returned?
    requires phase.Waiting? || phase.Failing? || phase.Expiring?
    ensures Invariant(SetPhase(st, k, phase))
  {
    hide IdOf, FirstReply;
    var next := SetPhase(st, k, phase);
    forall j | 0 <= j < |next.requests| ensures RequestOk(next, j) {
      assert RequestOk(st, j);
    }
  }

  lemma RemoveKeeps(st: State, k: RequestNo, outcome: Outcome)
    requires Invariant(st) && k < |st.requests|
    requires st.requests[k].phase.Failing? || st.requests[k].phase.Expiring?
    requires outcome.NotWritten? || outcome.TimedOut?
    ensures Invariant(SetPhase(Removed(st, IdOf(k)), k, Returned(outcome)))
  {
    hide IdOf, FirstReply;
    var next := SetPhase(Removed(st, IdOf(k)), k, Returned(outcome));
    assert RequestOk(st, k);
    DistinctIds(st);
    forall j | 0 <= j < |next.requests| ensures RequestOk(next, j) {
      assert RequestOk(st, j);
    }
  }

  lemma WakeKeeps(st: State, k: RequestNo)
    requires Invariant(st) && Enabled(st, Wake(k))
    ensures Invariant(Apply(st, Wake(k)))
  {
    hide IdOf, FirstReply;
    var next := Apply(st, Wake(k));
    assert RequestOk(st, k);
    DistinctIds(st);
    forall j | 0 <= j < |next.requests| ensures RequestOk(next, j) {
      assert RequestOk(st, j);
    }
  }

  lemma SendKeeps(st: State)
    requires Invariant(st) && Enabled(st, Send)
    ensures Invariant(Apply(st, Send))
  {
    hide IdOf, FirstReply;
    var next := Apply(st, Send);
    assert RequestOk(st, st.reader.k);
    DistinctIds(st);
    forall j | 0 <= j < |next.requests| ensures RequestOk(next, j) {
      assert RequestOk(st, j);
    }
  }

  lemma EndKeeps(st: State)
    requires Invariant(st) && st.reader.Reading?
    ensures Invariant(Apply(st, EndOfStream))
  {
    hide IdOf, FirstReply;
    var next := Apply(st, EndOfStream);
    forall j | 0 <= j < |next.requests| ensures RequestOk(next, j) {
      assert RequestOk(st, j);
    }
  }

  lemma AbortKeeps(st: State)
    requires Invariant(st) && st.reader.Reading?
    ensures Invariant(Apply(st, Abort))
  {
    hide IdOf, FirstReply;
    var next := Apply(st, Abort);
    forall j | 0 <= j < |next.requests| ensures RequestOk(next, j) {
      assert RequestOk(st, j);
    }
  }

  lemma DispatchKeeps(st: State, id: Id, reply: Reply)
    requires Invariant(st) && st.reader.Reading?
    ensures Invariant(Apply(st, Dispatch(id, reply)))
  {
    hide IdOf, FirstReply;
    var next, more := Apply(st, Dispatch(id, reply)), Received(id, reply);
    DistinctIds(st);
    forall k | 0 <= k < |st.requests|
      ensures FirstReply(next.received, st.requests[k].since, IdOf(k))
           == if FirstReply(st.received, st.requests[k].since, IdOf(k)).Some?
              then FirstReply(st.received, st.requests[k].since, IdOf(k))
              else if id == IdOf(k) then Some(reply) else None
    {
      assert RequestOk(st, k);
      FirstReplyExtends(st.received, st.requests[k].since, IdOf(k), more);
    }
    forall j | 0 <= j < |next.requests| ensures RequestOk(next, j) {
      assert RequestOk(st, j);
    }
  }

  /** Every step keeps the invariant, as long as the counter has not come around. */
  lemma StepKeeps(st: State, step: Step)
    requires Invariant(st) && Enabled(st, step)
    requires step.Allocate? ==> |st.requests| < TWO_64
    ensures Invariant(Apply(st, step))
  {
    hide Invariant, Removed;
    match step
    case Allocate => AllocateKeeps(st);
    case Register(k) => RegisterKeeps(st, k);
    case WriteOk(k) => PhaseKeeps(st, k, Waiting);
    case WriteFails(k, error) => PhaseKeeps(st, k, Failing(error));
    case RemoveFailed(k) => RemoveKeeps(st, k, NotWritten(st.requests[k].phase.error));
    case Dispatch(id, reply) => DispatchKeeps(st, id, reply);
    case Send => SendKeeps(st);
    case Wake(k) => WakeKeeps(st, k);
    case Expire(k) => PhaseKeeps(st, k, Expiring);
    case RemoveExpired(k) => RemoveKeeps(st, k, TimedOut);
    case EndOfStream => EndKeeps(st);
    case Abort => AbortKeeps(st);
  }

  // ---------------------------------------------------------------- every run

  /** How many requests a run makes. */
  function Allocations(steps: seq<Step>): nat {
    if steps == [] then 0 else (if steps[0].Allocate? then 1 else 0) + Allocations(steps[1..])
  }

  lemma StepCountsRequests(st: State, step: Step)
    requires Enabled(st, step)
    ensures |Apply(st, step).requests| == |st.requests| + if step.Allocate? then 1 else 0
  {
    hide IdOf;
  }

  /** The invariant holds in every state that a run of fewer than 2^64 requests reaches. */
  lemma {:induction false} RunKeeps(st: State, steps: seq<Step>)
    requires Invariant(st) && CanRun(st, steps) && |st.requests| + Allocations(steps) <= TWO_64
    ensures Invariant(Run(st, steps))
    ensures |Run(st, steps).requests| == |st.requests| + Allocations(steps)
    decreases |steps|
  {
    hide Invariant, Apply, Enabled;
    if steps != [] {
      StepCountsRequests(st, steps[0]);
      StepKeeps(st, steps[0]);
      RunKeeps(Apply(st, steps[0]), steps[1..]);
    }
  }

  lemma StartIsFine()
    ensures Invariant(START)
  {
  }

  /** The step that explains how far a request has come, if it is not on the way of success. */
  predicate Explained(k: RequestNo, phase: Phase, happened: set<Step>) {
    match phase
    case Failing(error) => WriteFails(k, error) in happened
    case Expiring => Expire(k) in happened
    case Returned(NotWritten(error)) => WriteFails(k, error) in happened
    case Returned(TimedOut) => Expire(k) in happened
    case Returned(_) => Wake(k) in happened
    case _ => true
  }

  predicate AllExplained(st: State, happened: set<Step>) {
    forall k :: 0 <= k < |st.requests| ==> Explained(k, st.requests[k].phase, happened)
  }

  lemma StepExplains(st: State, step: Step, happened: set<Step>)
    requires Enabled(st, step) && AllExplained(st, happened)
    ensures AllExplained(Apply(st, step), happened + {step})
  {
    hide IdOf;
    var next := Apply(st, step);
    forall k | 0 <= k < |next.requests| ensures Explained(k, next.requests[k].phase, happened + {step}) {
      assert k < |st.requests| ==> Explained(k, st.requests[k].phase, happened);
    }
  }

  lemma {:induction false} RunExplains(st: State, steps: seq<Step>, happened: set<Step>)
    requires CanRun(st, steps) && AllExplained(st, happened)
    ensures AllExplained(Run(st, steps), happened + set step | step in steps)
    decreases |steps|
  {
    hide AllExplained, Apply, Enabled;
    if steps == [] {
      assert happened + (set step | step in steps) == happened;
    } else {
      StepExplains(st, steps[0], happened);
      RunExplains(Apply(st, steps[0]), steps[1..], happened + {steps[0]});
      assert steps == [steps[0]] + steps[1..];
      assert happened + {steps[0]} + (set step | step in steps[1..]) == happened + set step | step in steps;
    }
  }

  /** What the outcome of a returned request says about what happened. */
  predicate OutcomeIsEarned(st: State, k: RequestNo, outcome: Outcome)
    requires k < |st.requests|
  {
    match outcome
    case Answered(reply) => FirstReply(st.received, st.requests[k].since, IdOf(k)) == Some(reply)
    case ConnectionClosed => st.reader.Ended?
    case NotWritten(_) => true
    case TimedOut => true
  }

  /**
   Safety over every interleaving: ids are never reused; a request that returned has no entry in
   the pending map; an answer is the first message with the request's own id since it was
   registered; a connection error means that the reader has ended; a write error and a timeout are
   those of the request's own steps.
   */
  lemma EveryRunIsSafe(steps: seq<Step>)
    requires CanRun(START, steps) && Allocations(steps) <= TWO_64
    ensures var end := Run(START, steps);
            && (forall j, k :: 0 <= j < k < |end.requests| ==> IdOf(j) != IdOf(k))
            && (forall k :: 0 <= k < |end.requests| && end.requests[k].phase.Returned? ==>
                 IdOf(k) !in end.pending && OutcomeIsEarned(end, k, end.requests[k].phase.outcome))
            && AllExplained(end, set step | step in steps)
  {
    StartIsFine();
    RunKeeps(START, steps);
    RunExplains(START, steps, {});
    assert {} + (set step | step in steps) == set step | step in steps;
    hide CanRun, Run, IdOf, AllExplained;
    var end := Run(START, steps);
    DistinctIds(end);
    forall k | 0 <= k < |end.requests| && end.requests[k].phase.Returned?
      ensures IdOf(k) !in end.pending && OutcomeIsEarned(end, k, end.requests[k].phase.outcome)
    {
      assert RequestOk(end, k);
    }
  }

  // ---------------------------------------------------------------- one outcome

  lemma OutcomeStays(st: State, step: Step, k: RequestNo)
    requires Enabled(st, step) && k < |st.requests| && st.requests[k].phase.Returned?
    ensures k < |Apply(st, step).requests| && Apply(st, step).requests[k].phase == st.requests[k].phase
  {
    hide IdOf;
  }

  /** A request that has returned keeps its outcome in every continuation: it gets no second one. */
  lemma {:induction false} OutcomeIsFinal(st: State, steps: seq<Step>, k: RequestNo)
    requires CanRun(st, steps) && k < |st.requests| && st.requests[k].phase.Returned?
    ensures k < |Run(st, steps).requests| && Run(st, steps).requests[k].phase == st.requests[k].phase
    decreases |steps|
  {
    hide Apply, Enabled;
    if steps != [] {
      OutcomeStays(st, steps[0], k);
      OutcomeIsFinal(Apply(st, steps[0]), steps[1..], k);
    }
  }

  // ---------------------------------------------------------------- stray messages

  /**
   Nobody waits for the id: it is unknown, or its request has not been registered, has returned,
   or has been sent an answer before.
   */
  predicate IsStray(st: State, id: Id) {
    forall k :: 0 <= k < |st.requests| && IdOf(k) == id ==>
      || st.requests[k].phase.Allocated?
      || st.requests[k].phase.Returned?
      || FirstReply(st.received, st.requests[k].since, id).Some?
  }

  /** While the reader reads, the map has an entry for exactly the ids that somebody waits for. */
  lemma StrayIdsHaveNoEntry(st: State, id: Id)
    requires Invariant(st) && st.reader.Reading?
    ensures IsStray(st, id) <==> id !in st.pending
  {
    hide IdOf, FirstReply;
    DistinctIds(st);
    if k: RequestNo :| k < |st.requests| && IdOf(k) == id && !st.requests[k].phase.Allocated?
                       && !st.requests[k].phase.Returned? && FirstReply(st.received, st.requests[k].since, id).None? {
      assert RequestOk(st, k);
    }
  }

  /**
   Over every run, a message with a stray id changes nothing but the record of what was received,
   and any other message goes to a request with that very id.
   */
  lemma MessagesFindTheirRequest(steps: seq<Step>, id: Id, reply: Reply)
    requires CanRun(START, steps) && Allocations(steps) <= TWO_64 && Run(START, steps).reader.Reading?
    ensures var st := Run(START, steps);
            var next := Apply(st, Dispatch(id, reply));
            && next.requests == st.requests
            && (IsStray(st, id) ==> next == st.(received := st.received + [Received(id, reply)]))
            && (!IsStray(st, id) ==> next.reader.Holding? && IdOf(next.reader.k) == id && next.reader.reply == reply)
  {
    StartIsFine();
    RunKeeps(START, steps);
    hide Run, CanRun, IdOf, IsStray;
    StrayIdsHaveNoEntry(Run(START, steps), id);
  }

  // ---------------------------------------------------------------- progress

  /** Steps a request has still to make. */
  function Rank(phase: Phase): nat {
    match phase
    case Allocated => 4
    case Writing => 3
    case Waiting => 2
    case Failing(_) => 1
    case Expiring => 1
    case Returned(_) => 0
  }

  /** The step that takes a request further, whatever the server and the reader do. */
  function OwnStep(st: State, k: RequestNo): Step
    requires k < |st.requests| && !st.requests[k].phase.Returned?
  {
    match st.requests[k].phase
    case Allocated => Register(k)
    case Writing => WriteFails(k, "write timeout")
    case Failing(_) => RemoveFailed(k)
    case Waiting => if st.requests[k].channel.Unused? then Expire(k) else Wake(k)
    case Expiring => RemoveExpired(k)
  }

  /** No request is stuck: its next step is always possible and brings it closer to its outcome. */
  lemma OwnStepProgresses(st: State, k: RequestNo)
    requires k < |st.requests| && !st.requests[k].phase.Returned?
    ensures var step := OwnStep(st, k);
            && Enabled(st, step) && k < |Apply(st, step).requests|
            && Rank(Apply(st, step).requests[k].phase) < Rank(st.requests[k].phase)
  {
    hide IdOf;
  }

  /** No step of another task takes a request back. */
  lemma OthersDoNotDelay(st: State, step: Step, k: RequestNo)
    requires Enabled(st, step) && k < |st.requests|
    ensures k < |Apply(st, step).requests| && Rank(Apply(st, step).requests[k].phase) <= Rank(st.requests[k].phase)
  {
    hide IdOf;
  }

  /** From every state a request can be brought to its outcome in at most four steps of its own. */
  lemma {:induction false} CanReturn(st: State, k: RequestNo) returns (steps: seq<Step>)
    requires k < |st.requests|
    ensures |steps| <= Rank(st.requests[k].phase) && CanRun(st, steps)
    ensures k < |Run(st, steps).requests| && Run(st, steps).requests[k].phase.Returned?
    decreases Rank(st.requests[k].phase)
  {
    hide Apply, Enabled, OwnStep;
    if st.requests[k].phase.Returned? {
      steps := [];
    } else {
      OwnStepProgresses(st, k);
      var own := OwnStep(st, k);
      var rest := CanReturn(Apply(st, own), k);
      steps := [own] + rest;
      assert steps[1..] == rest;
    }
  }

  // ---------------------------------------------------------------- answers

  /** Somebody waits for the id of the request, and the reader can take messages. */
  predicate Awaits(st: State, k: RequestNo) {
    && k < |st.requests| && (st.requests[k].phase.Writing? || st.requests[k].phase.Waiting?)
    && st.requests[k].channel.Unused? && st.reader.Reading?
  }

  /** A message with the request's id goes to the request and nobody else, and wakes it with its reply. */
  lemma ReplyArrives(st: State, k: RequestNo, reply: Reply)
    requires Invariant(st) && Awaits(st, k) && st.requests[k].phase.Waiting?
    ensures var steps := [Dispatch(IdOf(k), reply), Send, Wake(k)];
            CanRun(st, steps)
            && Run(st, steps).requests == st.requests[k := Request(Returned(Answered(reply)), Sent(reply),
                                                                   st.requests[k].since)]
            && Run(st, steps).pending == st.pending - {IdOf(k)} && Run(st, steps).reader.Reading?
  {
    assert RequestOk(st, k);
    hide IdOf, FirstReply;
    var heard := Apply(st, Dispatch(IdOf(k), reply));
    assert heard.reader == Holding(k, reply);
    var sent := Apply(heard, Send);
    assert sent.requests[k] == Request(Waiting, Sent(reply), st.requests[k].since);
    ThreeSteps(st, Dispatch(IdOf(k), reply), Send, Wake(k));
  }

  lemma ThreeSteps(st: State, a: Step, b: Step, c: Step)
    requires Enabled(st, a) && Enabled(Apply(st, a), b) && Enabled(Apply(Apply(st, a), b), c)
    ensures CanRun(st, [a, b, c]) && Run(st, [a, b, c]) == Apply(Apply(Apply(st, a), b), c)
  {
    hide Apply, Enabled;
    OneStep(Apply(Apply(st, a), b), c);
    TwoSteps(st, a, b, [c]);
    assert [a, b] + [c] == [a, b, c];
  }

  lemma OneStep(st: State, c: Step)
    requires Enabled(st, c)
    ensures CanRun(st, [c]) && Run(st, [c]) == Apply(st, c)
  {
    hide Apply, Enabled;
    assert [c][1..] == [];
  }

  lemma TwoSteps(st: State, a: Step, b: Step, more: seq<Step>)
    requires Enabled(st, a) && Enabled(Apply(st, a), b) && CanRun(Apply(Apply(st, a), b), more)
    ensures CanRun(st, [a, b] + more) && Run(st, [a, b] + more) == Run(Apply(Apply(st, a), b), more)
  {
    hide Apply, Enabled;
    assert ([a, b] + more)[1..] == [b] + more && ([b] + more)[1..] == more;
  }

  /** From every reachable state a new request can be registered, written, and answered with its reply. */
  lemma RequestIsAnswered(before: seq<Step>, k: RequestNo, reply: Reply)
    requires CanRun(START, before) && Allocations(before) <= TWO_64 && Run(START, before).reader.Reading?
    requires InPhase(Run(START, before), k, Allocated)
    ensures var st, steps := Run(START, before), [Register(k), WriteOk(k), Dispatch(IdOf(k), reply), Send, Wake(k)];
            CanRun(st, steps) && k < |Run(st, steps).requests|
            && Run(st, steps).requests[k].phase == Returned(Answered(reply))
  {
    StartIsFine();
    RunKeeps(START, before);
    var st := Run(START, before);
    hide Run, CanRun, IdOf, FirstReply;
    assert RequestOk(st, k);
    RegisterKeeps(st, k);
    var registered := Apply(st, Register(k));
    PhaseKeeps(registered, k, Waiting);
    var written := Apply(registered, WriteOk(k));
    ReplyArrives(written, k, reply);
    TwoSteps(st, Register(k), WriteOk(k), [Dispatch(IdOf(k), reply), Send, Wake(k)]);
    assert [Register(k), WriteOk(k)] + [Dispatch(IdOf(k), reply), Send, Wake(k)]
        == [Register(k), WriteOk(k), Dispatch(IdOf(k), reply), Send, Wake(k)];
  }

  /** When the stream ends, every request that waits is woken and returns that the connection is closed. */
  lemma EndWakesEveryone(st: State, k: RequestNo)
    requires Invariant(st) && Awaits(st, k) && st.requests[k].phase.Waiting?
    ensures var ended := Apply(st, EndOfStream);
            && ended.pending == map[] && Enabled(ended, Wake(k))
            && Apply(ended, Wake(k)).requests[k].phase == Returned(ConnectionClosed)
  {
    assert RequestOk(st, k);
    hide IdOf, FirstReply;
    assert st.pending[IdOf(k)] == k;
  }

  /** When the reader is aborted nothing is cleared: a request that waits is not woken, it times out. */
  lemma AbortLeavesTheTimeout(st: State, k: RequestNo)
    requires Invariant(st) && Awaits(st, k) && st.requests[k].phase.Waiting?
    ensures var aborted, steps := Apply(st, Abort), [Abort, Expire(k), RemoveExpired(k)];
            && aborted.pending == st.pending && !Enabled(aborted, Wake(k))
            && CanRun(st, steps) && k < |Run(st, steps).requests|
            && Run(st, steps).requests[k].phase == Returned(TimedOut)
  {
    hide IdOf, FirstReply;
    ThreeSteps(st, Abort, Expire(k), RemoveExpired(k));
  }
}
