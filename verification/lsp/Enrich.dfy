/**
 The hover fan-out of `crates/lsp-client/src/enrich.rs`: all queries are polled on one task, at
 most fifty hold a permit of a fair semaphore, and the answers are collected in target order.
 A schedule says which queries are answered by the time they are polled.
 */
module Enrich {

  import opened Lists
  import opened Wrappers

  const MAX_CONCURRENT_HOVERS := 50

  datatype Target = Target(id: string, line: nat, col: nat)

  /** `Ok(Some(text))`, or nothing: no information, a timeout or a server error. */
  type Answer = Option<string>

  // ---------------------------------------------------------------- futures and permits

  /** Waiting futures are in the semaphore's queue; a released permit is granted to the first. */
  datatype Phase = Idle | Queued | Granted | Hovering | Finished

  /** What goes over the wire. */
  datatype Event = Open | Hover(target: nat) | Close

  datatype Hovers = Hovers(permits: nat, queue: seq<nat>, phases: seq<Phase>, log: seq<Event>)

  function Started(n: nat): Hovers {
    Hovers(MAX_CONCURRENT_HOVERS, [], seq(n, _ => Idle), [])
  }

  function SendHover(h: Hovers, i: nat): Hovers
    requires i < |h.phases|
  {
    h.(phases := h.phases[i := Hovering], log := h.log + [Hover(i)])
  }

  function Release(h: Hovers): Hovers {
    if h.queue == [] then h.(permits := h.permits + 1)
    else if h.queue[0] < |h.phases| then h.(queue := h.queue[1..], phases := h.phases[h.queue[0] := Granted])
    else h
  }

  /** The part of a poll before the answer: acquire a permit and send the query. */
  function Advance(h: Hovers, i: nat): Hovers
    requires i < |h.phases|
  {
    match h.phases[i]
    case Idle =>
      if h.permits > 0 then SendHover(h.(permits := h.permits - 1), i)
      else h.(queue := h.queue + [i], phases := h.phases[i := Queued])
    case Granted => SendHover(h, i)
    case _ => h
  }

  /** One poll of a future, and whether it is ready. A future that is ready is not polled again. */
  function Poll(h: Hovers, i: nat, answered: bool): (Hovers, bool)
    requires i < |h.phases| && !h.phases[i].Finished?
  {
    var advanced := Advance(h, i);
    if advanced.phases[i].Hovering? && answered
    then (Release(advanced.(phases := advanced.phases[i := Finished])), true)
    else (advanced, false)
  }

  // ---------------------------------------------------------------- the invariant

  predicate Holds(p: Phase) {
    p.Granted? || p.Hovering?
  }

  /** How many futures hold a permit. */
  function Holders(phases: seq<Phase>): nat {
    if phases == [] then 0 else (if Holds(phases[0]) then 1 else 0) + Holders(phases[1..])
  }

  /** The queue holds exactly the queued futures, each once, and permits are only free without a queue. */
  ghost predicate QueueOk(h: Hovers) {
    && NoDuplicates(h.queue)
    && (forall i :: i in h.queue <==> 0 <= i < |h.phases| && h.phases[i].Queued?)
    && (h.queue != [] ==> h.permits == 0)
  }

  /** Exactly the queries that got as far are on the wire, each once. */
  ghost predicate LogOk(h: Hovers) {
    && NoDuplicates(h.log)
    && (forall e :: e in h.log ==> e.Hover? && e.target < |h.phases|)
    && (forall i :: 0 <= i < |h.phases| ==> (Hover(i) in h.log <==> h.phases[i].Hovering? || h.phases[i].Finished?))
  }

  ghost predicate Invariant(h: Hovers) {
    h.permits + Holders(h.phases) == MAX_CONCURRENT_HOVERS && QueueOk(h) && LogOk(h)
  }

  lemma {:induction false} HoldersOfUpdate(phases: seq<Phase>, i: nat, p: Phase)
    requires i < |phases|
    ensures Holders(phases[i := p]) == Holders(phases) - (if Holds(phases[i]) then 1 else 0)
            + (if Holds(p) then 1 else 0)
  {
    if i > 0 {
      HoldersOfUpdate(phases[1..], i - 1, p);
      assert phases[i := p][1..] == phases[1..][i - 1 := p];
    } else {
      assert phases[i := p][1..] == phases[1..];
    }
  }

  lemma {:induction false} HoldersOfIdle(n: nat)
    ensures Holders(seq(n, _ => Idle)) == 0
  {
    if n > 0 {
      HoldersOfIdle(n - 1);
      assert seq(n, _ => Idle)[1..] == seq(n - 1, _ => Idle);
    }
  }

  lemma StartedIsFine(n: nat)
    ensures Invariant(Started(n))
  {
    HoldersOfIdle(n);
  }

  lemma SendKeeps(h: Hovers, i: nat)
    requires i < |h.phases| && QueueOk(h) && LogOk(h) && (h.phases[i].Idle? || h.phases[i].Granted?)
    ensures QueueOk(SendHover(h, i)) && LogOk(SendHover(h, i))
  {
  }

  lemma AdvanceKeeps(h: Hovers, i: nat)
    requires i < |h.phases| && Invariant(h)
    ensures Invariant(Advance(h, i))
  {
    HoldersOfUpdate(h.phases, i, Hovering);
    HoldersOfUpdate(h.phases, i, Queued);
    if h.phases[i].Idle? && h.permits > 0 {
      SendKeeps(h.(permits := h.permits - 1), i);
    } else if h.phases[i].Granted? {
      SendKeeps(h, i);
    }
  }

  lemma TailOfQueue(queue: seq<nat>)
    requires queue != [] && NoDuplicates(queue)
    ensures NoDuplicates(queue[1..]) && forall i :: i in queue[1..] <==> i in queue && i != queue[0]
  {
    assert queue == [queue[0]] + queue[1..];
  }

  lemma ReleaseKeepsQueue(h: Hovers)
    requires QueueOk(h)
    ensures QueueOk(Release(h))
  {
    if h.queue != [] {
      assert h.queue[0] in h.queue;
      TailOfQueue(h.queue);
      hide NoDuplicates;
    }
  }

  /** A finished query gives its permit to the first in the queue, or back. */
  lemma FinishKeeps(h: Hovers, i: nat)
    requires i < |h.phases| && Invariant(h) && h.phases[i].Hovering?
    ensures Invariant(Release(h.(phases := h.phases[i := Finished])))
  {
    HoldersOfUpdate(h.phases, i, Finished);
    var finished := h.(phases := h.phases[i := Finished]);
    if h.queue != [] {
      assert h.queue[0] in h.queue;
      HoldersOfUpdate(finished.phases, h.queue[0], Granted);
    }
    assert QueueOk(finished) && LogOk(finished);
    ReleaseKeepsQueue(finished);
    assert LogOk(Release(finished));
  }

  lemma HoldersFit(h: Hovers)
    requires Invariant(h)
    ensures Holders(h.phases) <= MAX_CONCURRENT_HOVERS
  {
  }

  lemma QueueHead(h: Hovers)
    requires Invariant(h) && h.queue != []
    ensures h.queue[0] < |h.phases| && h.phases[h.queue[0]].Queued?
  {
    assert h.queue[0] in h.queue;
  }

  /** At every point at most fifty queries hold a permit, and each is sent once. */
  lemma PollKeeps(h: Hovers, i: nat, answered: bool)
    requires i < |h.phases| && !h.phases[i].Finished? && Invariant(h)
    ensures var (next, ready) := Poll(h, i, answered);
            && Invariant(next) && Holders(next.phases) <= MAX_CONCURRENT_HOVERS && |next.phases| == |h.phases|
            && (next.phases[i].Finished? <==> ready)
            && (forall j :: 0 <= j < |h.phases| && j != i ==> (next.phases[j].Finished? <==> h.phases[j].Finished?))
  {
    hide Invariant, Holders;
    AdvanceKeeps(h, i);
    HoldersFit(Advance(h, i));
    var advanced := Advance(h, i);
    if advanced.phases[i].Hovering? {
      FinishKeeps(advanced, i);
      if advanced.queue != [] {
        QueueHead(advanced);
      }
      HoldersFit(Release(advanced.(phases := advanced.phases[i := Finished])));
    }
  }

  /** With fewer than fifty queries under way a new one is sent by its first poll; never are there more. */
  lemma FiftyAtOnce(h: Hovers, i: nat)
    requires Invariant(h) && i < |h.phases| && h.phases[i].Idle?
    ensures Holders(h.phases) <= 50
    ensures Holders(h.phases) < 50 ==>
      Hover(i) in Poll(h, i, false).0.log && Poll(h, i, false).0.phases[i].Hovering?
  {
    hide Holders;
  }

  /** While a query is unfinished, some future would finish if it were polled with its answer there. */
  lemma SomeoneCanFinish(h: Hovers, i: nat)
    requires Invariant(h) && i < |h.phases| && !h.phases[i].Finished?
    ensures exists j :: 0 <= j < |h.phases| && !h.phases[j].Finished? && Poll(h, j, true).1
  {
    if Holders(h.phases) > 0 {
      var j := SomeHolder(h.phases);
      assert Poll(h, j, true).1;
    } else {
      assert h.queue == [];
      assert h.phases[i].Idle? by {
        assert i !in h.queue;
        if Holds(h.phases[i]) { HolderCounts(h.phases, i); }
      }
      assert Poll(h, i, true).1;
    }
  }

  /** Some future at `from` or behind would finish if it were polled with its answer there. */
  ghost predicate CanFinishFrom(h: Hovers, from: nat) {
    exists j :: from <= j < |h.phases| && !h.phases[j].Finished? && Poll(h, j, true).1
  }

  /** A poll that does not finish its future, although the answer is there, takes nothing from the others. */
  lemma WaitingTakesNothing(h: Hovers, i: nat)
    requires Invariant(h) && i < |h.phases| && !h.phases[i].Finished? && !Poll(h, i, true).1
    requires CanFinishFrom(h, i)
    ensures CanFinishFrom(Poll(h, i, true).0, i + 1)
  {
    hide Invariant;
    var j :| i <= j < |h.phases| && !h.phases[j].Finished? && Poll(h, j, true).1;
    var next := Poll(h, i, true).0;
    assert next.phases[j] == h.phases[j] && next.permits == h.permits;
    assert Poll(next, j, true).1;
  }

  lemma FinishedIsSkipped(h: Hovers, i: nat)
    requires CanFinishFrom(h, i) && i < |h.phases| && h.phases[i].Finished?
    ensures CanFinishFrom(h, i + 1)
  {
    hide Poll;
    var j :| i <= j < |h.phases| && !h.phases[j].Finished? && Poll(h, j, true).1;
    assert j != i;
  }

  predicate AllAnswered(answered: seq<bool>) {
    forall i :: 0 <= i < |answered| ==> answered[i]
  }

  lemma {:induction false} SomeHolder(phases: seq<Phase>) returns (j: nat)
    requires Holders(phases) > 0
    ensures j < |phases| && Holds(phases[j])
  {
    if Holds(phases[0]) {
      j := 0;
    } else {
      j := SomeHolder(phases[1..]);
      j := j + 1;
    }
  }

  lemma {:induction false} HolderCounts(phases: seq<Phase>, j: nat)
    requires j < |phases| && Holds(phases[j])
    ensures Holders(phases) > 0
  {
    if j > 0 {
      HolderCounts(phases[1..], j - 1);
    }
  }

  // ---------------------------------------------------------------- the results

  /** The map of the answers, folded in target order: a later target with the same id wins. */
  function Collected(targets: seq<Target>, answers: seq<Answer>): map<string, string>
    requires |targets| == |answers|
    decreases |targets|
  {
    if targets == [] then map[]
    else
      var n := |targets| - 1;
      var front := Collected(targets[..n], answers[..n]);
      if answers[n].Some? then front[targets[n].id := answers[n].value] else front
  }

  /** What the fold comes to: the answer of the last answered target with the id. */
  lemma {:induction false} CollectedIsLastAnswer(targets: seq<Target>, answers: seq<Answer>, id: string)
    requires |targets| == |answers|
    ensures id in Collected(targets, answers)
            <==> exists i :: 0 <= i < |targets| && targets[i].id == id && answers[i].Some?
    ensures forall i :: 0 <= i < |targets| && targets[i].id == id && answers[i].Some?
              && (forall j :: i < j < |targets| && targets[j].id == id ==> answers[j].None?)
              ==> Collected(targets, answers)[id] == answers[i].value
    decreases |targets|
  {
    if targets != [] {
      var n := |targets| - 1;
      CollectedIsLastAnswer(targets[..n], answers[..n], id);
    }
  }

  /** How many results are there. */
  function Filled(results: seq<Option<Answer>>): nat {
    if results == [] then 0 else (if results[0].Some? then 1 else 0) + Filled(results[1..])
  }

  lemma {:induction false} FilledOfUpdate(results: seq<Option<Answer>>, i: nat, a: Answer)
    requires i < |results| && results[i].None?
    ensures Filled(results[i := Some(a)]) == Filled(results) + 1
  {
    if i > 0 {
      FilledOfUpdate(results[1..], i - 1, a);
      assert results[i := Some(a)][1..] == results[1..][i - 1 := Some(a)];
    } else {
      assert results[i := Some(a)][1..] == results[1..];
    }
  }

  lemma {:induction false} FilledUp(results: seq<Option<Answer>>)
    ensures Filled(results) <= |results|
    ensures Filled(results) == |results| <==> forall i :: 0 <= i < |results| ==> results[i].Some?
  {
    if results != [] {
      FilledUp(results[1..]);
    }
  }

  lemma {:induction false} NothingFilled(n: nat)
    ensures Filled(seq(n, _ => None)) == 0
  {
    if n > 0 {
      NothingFilled(n - 1);
      assert seq(n, _ => Option<Answer>.None)[1..] == seq(n - 1, _ => None);
    }
  }

  // ---------------------------------------------------------------- the loop

  /** `futures_join_all` over the hover futures, one poll of the combined future at a time. */
  class JoinAll {
    const answers: seq<Answer>
    var hovers: Hovers
    var results: seq<Option<Answer>>
    var done: nat

    /** A result is there exactly when its future has finished, and it is the future's own answer. */
    ghost predicate Valid()
      reads this
    {
      && Invariant(hovers) && |hovers.phases| == |results| == |answers| && done == Filled(results)
      && (forall i :: 0 <= i < |results| ==> (results[i].Some? <==> hovers.phases[i].Finished?))
      && (forall i :: 0 <= i < |results| && results[i].Some? ==> results[i].value == answers[i])
    }

    constructor (answers: seq<Answer>)
      ensures Valid() && this.answers == answers && hovers == Started(|answers|) && done == 0
    {
      StartedIsFine(|answers|);
      NothingFilled(|answers|);
      this.answers := answers;
      hovers, results, done := Started(|answers|), seq(|answers|, _ => None), 0;
    }

    /** One slot of the polling loop: a future that has finished is not polled again. */
    method PollSlot(i: nat, answered: bool)
      requires Valid() && i < |results|
      modifies this
      ensures Valid() && |results| == old(|results|)
      ensures old(results[i].Some?) ==> hovers == old(hovers) && results == old(results)
      ensures done >= old(done)
      ensures answered && old(CanFinishFrom(hovers, i)) ==> done > old(done) || CanFinishFrom(hovers, i + 1)
    {
      hide Invariant, Poll, Filled, Started, CanFinishFrom;
      if results[i].Some? {
        if CanFinishFrom(hovers, i) {
          FinishedIsSkipped(hovers, i);
        }
      } else {
        PollKeeps(hovers, i, answered);
        var (next, ready) := Poll(hovers, i, answered);
        if answered && !ready && CanFinishFrom(hovers, i) {
          WaitingTakesNothing(hovers, i);
        }
        hovers := next;
        if ready {
          FilledOfUpdate(results, i, answers[i]);
          results := results[i := Some(answers[i])];
          done := done + 1;
        }
      }
    }

    /**
     One poll of the combined future; it is ready once every result is there. If all answers are
     there and the combined future is not ready, this poll brings at least one more result.
     */
    method PollRound(answered: seq<bool>) returns (ready: bool)
      requires Valid() && |answered| == |answers|
      modifies this
      ensures Valid() && |results| == old(|results|)
      ensures ready <==> forall i :: 0 <= i < |results| ==> results[i].Some?
      ensures done >= old(done) && (ready <==> done == |results|) && done <= |results|
      ensures AllAnswered(answered) && old(done) < |results| ==> done > old(done)
    {
      hide Valid, CanFinishFrom, Poll;
      ValidSizes();
      ghost var start := done;
      if start < |results| {
        SomeResultCanCome();
      }
      for i := 0 to |answered|
        invariant Valid() && |results| == |answered| && done >= start
        invariant start < |results| && AllAnswered(answered) ==> done > start || CanFinishFrom(hovers, i)
      {
        PollSlot(i, answered[i]);
      }
      NoneBehind();
      FilledUp(results);
      DoneIsFilled();
      ready := done == |results|;
    }

    lemma ValidSizes()
      requires Valid()
      ensures |results| == |answers|
    {
    }

    /** While a result is missing, some future can finish. */
    lemma SomeResultCanCome()
      requires Valid() && done < |results|
      ensures CanFinishFrom(hovers, 0)
    {
      hide Invariant, Poll, Filled;
      FilledUp(results);
      var i :| 0 <= i < |results| && results[i].None?;
      SomeoneCanFinish(hovers, i);
    }

    lemma NoneBehind()
      requires Valid()
      ensures !CanFinishFrom(hovers, |results|)
    {
    }

    lemma DoneIsFilled()
      requires Valid()
      ensures done == Filled(results)
    {
    }
  }

  // ---------------------------------------------------------------- enrich

  /** Only queries of the first `n` targets, none twice. */
  ghost predicate OnlyHovers(log: seq<Event>, n: nat) {
    NoDuplicates(log) && forall e :: e in log ==> e.Hover? && e.target < n
  }

  /** Every target is queried, exactly once. */
  ghost predicate HoversAll(log: seq<Event>, n: nat) {
    OnlyHovers(log, n) && forall i :: 0 <= i < n ==> Hover(i) in log
  }

  lemma LogOfHovers(h: Hovers)
    requires Invariant(h)
    ensures OnlyHovers(h.log, |h.phases|)
    ensures (forall i :: 0 <= i < |h.phases| ==> h.phases[i].Finished?) ==> HoversAll(h.log, |h.phases|)
  {
  }

  /** In how many rounds of a schedule all answers are there. */
  function FullRounds(schedule: seq<seq<bool>>): nat
    decreases |schedule|
  {
    if schedule == [] then 0
    else
      var n := |schedule| - 1;
      FullRounds(schedule[..n]) + if AllAnswered(schedule[n]) then 1 else 0
  }

  /**
   `hover_map`: nothing while the combined future is pending, otherwise the collected answers. It
   cannot stay pending in as many rounds with all answers as there are targets.
   */
  method HoverMap(targets: seq<Target>, answers: seq<Answer>, schedule: seq<seq<bool>>)
    returns (result: Option<map<string, string>>, log: seq<Event>)
    requires |targets| == |answers| && forall round :: round in schedule ==> |round| == |answers|
    ensures targets == [] ==> result == Some(map[]) && log == []
    ensures result.None? ==> OnlyHovers(log, |targets|)
    ensures result.Some? ==> result.value == Collected(targets, answers) && HoversAll(log, |targets|)
    ensures FullRounds(schedule) >= |targets| ==> result.Some?
  {
    if targets == [] {
      return Some(map[]), [];
    }
    hide Invariant, Started, Filled, Collected, HoversAll, OnlyHovers, AllAnswered;
    var join := new JoinAll(answers);
    var ready, r := false, 0;
    while r < |schedule| && !ready
      invariant r <= |schedule| && join.Valid() && fresh(join)
      invariant ready ==> forall i :: 0 <= i < |join.results| ==> join.results[i].Some?
      invariant !ready ==> FullRounds(schedule[..r]) <= join.done < |targets|
    {
      assert schedule[r] in schedule;
      assert schedule[..r + 1][..r] == schedule[..r];
      ready := join.PollRound(schedule[r]);
      r := r + 1;
    }
    log := join.hovers.log;
    LogOfHovers(join.hovers);
    if !ready {
      assert schedule[..|schedule|] == schedule;
      return None, log;
    }
    var collected := Collect(targets, answers, join.results);
    result := Some(collected);
  }

  /** The fold over the results, once they are all there. */
  method Collect(targets: seq<Target>, answers: seq<Answer>, results: seq<Option<Answer>>)
      returns (collected: map<string, string>)
    requires |targets| == |answers| == |results|
    requires forall i :: 0 <= i < |results| ==> results[i] == Some(answers[i])
    ensures collected == Collected(targets, answers)
  {
    collected := map[];
    for i := 0 to |targets|
      invariant collected == Collected(targets[..i], answers[..i])
    {
      assert targets[..i + 1][..i] == targets[..i] && answers[..i + 1][..i] == answers[..i];
      var answer := results[i].value;
      if answer.Some? {
        collected := collected[targets[i].id := answer.value];
      }
    }
    assert targets[..|targets|] == targets && answers[..|targets|] == answers;
  }

  /**
   `enrich_targets`: a failed `didOpen` ends it with an empty map; otherwise every query lies
   between the `didOpen` and the one `didClose`. The map does not depend on the schedule, and it is
   there at the latest when all answers have been there in as many polls as there are targets.
   */
  method EnrichTargets(openFails: bool, targets: seq<Target>, answers: seq<Answer>, schedule: seq<seq<bool>>)
    returns (result: Option<map<string, string>>, log: seq<Event>)
    requires |targets| == |answers| && forall round :: round in schedule ==> |round| == |answers|
    ensures openFails ==> result == Some(map[]) && log == [Open]
    ensures !openFails && result.Some? ==>
      && result.value == Collected(targets, answers)
      && |log| >= 2 && log[0] == Open && log[|log| - 1] == Close && HoversAll(log[1..|log| - 1], |targets|)
    ensures FullRounds(schedule) >= |targets| ==> result.Some?
    ensures !openFails && result.None? ==> |log| >= 1 && log[0] == Open && OnlyHovers(log[1..], |targets|)
  {
    log := [Open];
    if openFails {
      return Some(map[]), log;
    }
    var hovers;
    result, hovers := HoverMap(targets, answers, schedule);
    log := log + hovers;
    assert log[1..] == hovers;
    if result.Some? {
      log := log + [Close];
      assert log[1..|log| - 1] == hovers;
    }
  }
}
