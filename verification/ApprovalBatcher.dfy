/**
 Batching approval cards into digests.  Callers, timers and senders run concurrently; each takes the
 lock for one step, so a run is any interleaving of those steps.
 */
module ApprovalBatcher {
  import opened Text

  /** What a caller hands over: a card, or something that is no mapping. */
  datatype Item = Card(id: nat) | Junk

  /** The batcher's fields, and around them the timers the runtime holds and what became of the cards.
      A fired timer has left `live`, cannot be cancelled any more, and waits for the lock. */
  datatype State = State(
    queue: seq<Item>, timer: Option<nat>, itemsQueued: nat, batchesSent: nat,
    live: set<nat>, fired: set<nat>, nextTimer: nat,
    accepted: seq<Item>, batches: seq<seq<Item>>, unsent: set<nat>, failed: nat)

  datatype Step =
    | Append(items: seq<Item>, timerStarts: bool)
    | Fire(timer: nat)
    | Callback(timer: nat)
    | Flush
    | Send(batch: nat, digestBuilt: bool)

  function Init(): State {
    State([], None, 0, 0, {}, {}, 0, [], [], {}, 0)
  }

  function Cards(items: seq<Item>): (cs: seq<Item>)
    ensures forall c :: c in cs ==> c.Card?
  {
    if items == [] then []
    else (if items[0].Card? then [items[0]] else []) + Cards(items[1..])
  }

  function Cancel(s: State): State {
    if s.timer.Some? then s.(live := s.live - {s.timer.value}) else s
  }

  /** Cancels a timer left over and starts a new one, if the runtime can. */
  function StartTimer(s: State, starts: bool): State {
    if starts then Cancel(s).(timer := Some(s.nextTimer), live := Cancel(s).live + {s.nextTimer}, nextTimer := s.nextTimer + 1)
    else Cancel(s).(timer := None)
  }

  /** Lifts the pending batch out of the queue; it is sent outside the lock. */
  function Detach(s: State): State {
    s.(queue := [], timer := None, batches := s.batches + [s.queue], unsent := s.unsent + {|s.batches|})
  }

  function AppendCards(s: State, cards: seq<Item>, starts: bool, threshold: nat): State {
    if cards == [] then s
    else
      var more := s.(queue := s.queue + cards, itemsQueued := s.itemsQueued + |cards|, accepted := s.accepted + cards);
      var timed := if |more.queue| == |cards| then StartTimer(more, starts) else more;
      if |timed.queue| >= threshold then Detach(Cancel(timed)) else timed
  }

  predicate CanStep(s: State, step: Step) {
    match step
    case Append(_, _) => true
    case Fire(t) => t in s.live
    case Callback(t) => t in s.fired
    case Flush => true
    case Send(k, _) => k in s.unsent
  }

  function Next(s: State, step: Step, threshold: nat): State {
    match step
    case Append(items, starts) => AppendCards(s, Cards(items), starts, threshold)
    case Fire(t) => s.(live := s.live - {t}, fired := s.fired + {t})
    case Callback(t) =>
      var called := s.(fired := s.fired - {t});
      if s.queue == [] then called else Detach(called)
    case Flush => if s.queue == [] then s else Detach(Cancel(s))
    case Send(k, built) =>
      s.(unsent := s.unsent - {k},
         batchesSent := s.batchesSent + (if built then 1 else 0), failed := s.failed + (if built then 0 else 1))
  }

  // ----- every interleaving -----

  function Flatten(batches: seq<seq<Item>>): seq<Item> {
    if batches == [] then [] else Flatten(batches[..|batches| - 1]) + batches[|batches| - 1]
  }

  /** Nothing is lost or doubled, and order is kept: the accepted cards are those of the detached
      batches followed by those pending, and every batch is sent, failed, or still to be sent. */
  ghost predicate Accounted(s: State) {
    && s.accepted == Flatten(s.batches) + s.queue
    && s.itemsQueued == |s.accepted|
    && (forall k :: k in s.unsent ==> k < |s.batches|)
    && (forall k :: 0 <= k < |s.batches| ==> s.batches[k] != [])
    && s.batchesSent + s.failed + |s.unsent| == |s.batches|
  }

  /** And outside the lock fewer cards are pending than make a batch. */
  ghost predicate Conserved(s: State, threshold: nat) {
    Accounted(s) && |s.queue| < threshold
  }

  /** Timers are numbered; while cards are pending the current timer has not been used up. */
  ghost predicate Timed(s: State) {
    && s.live !! s.fired
    && (forall t :: t in s.live + s.fired ==> t < s.nextTimer)
    && (s.timer.Some? ==> s.timer.value < s.nextTimer)
    && (s.queue != [] && s.timer.Some? ==> s.timer.value in s.live + s.fired)
  }

  /** A timer stands behind every pending card. */
  ghost predicate Covered(s: State) {
    s.queue != [] ==> s.timer.Some? && s.timer.value in s.live + s.fired
  }

  lemma DetachConserves(s: State)
    requires s.queue != [] && Accounted(s)
    ensures Accounted(Detach(s))
  {
    var d := Detach(s);
    assert d.batches[..|s.batches|] == s.batches;
    assert Flatten(d.batches) + [] == Flatten(s.batches) + s.queue;
    assert |s.batches| !in s.unsent;
  }

  lemma AppendConserves(s: State, cards: seq<Item>, starts: bool, threshold: nat)
    requires threshold > 0 && Conserved(s, threshold)
    ensures Conserved(AppendCards(s, cards, starts, threshold), threshold)
  {
    hide Accounted, Flatten;
    if cards != [] {
      var more := s.(queue := s.queue + cards, itemsQueued := s.itemsQueued + |cards|, accepted := s.accepted + cards);
      MoreCards(s, cards);
      var timed := if |more.queue| == |cards| then StartTimer(more, starts) else more;
      SameAccount(more, timed);
      SameAccount(timed, Cancel(timed));
      if |timed.queue| >= threshold { DetachConserves(Cancel(timed)); }
    }
  }

  lemma MoreCards(s: State, cards: seq<Item>)
    requires Accounted(s)
    ensures Accounted(s.(queue := s.queue + cards, itemsQueued := s.itemsQueued + |cards|, accepted := s.accepted + cards))
  {
    hide Flatten;
    assert (Flatten(s.batches) + s.queue) + cards == Flatten(s.batches) + (s.queue + cards);
  }

  /** Timers are no part of the account. */
  lemma SameAccount(s: State, t: State)
    requires t == s.(timer := t.timer, live := t.live, fired := t.fired, nextTimer := t.nextTimer)
    ensures Accounted(s) <==> Accounted(t)
  {
  }

  lemma StepConserves(s: State, step: Step, threshold: nat)
    requires threshold > 0 && CanStep(s, step) && Conserved(s, threshold)
    ensures Conserved(Next(s, step, threshold), threshold)
  {
    match step
    case Append(items, starts) =>
      AppendConserves(s, Cards(items), starts, threshold);
    case Fire(_) =>
      SameAccount(s, Next(s, step, threshold));
    case Callback(t) =>
      SameAccount(s, s.(fired := s.fired - {t}));
      if s.queue != [] { DetachConserves(s.(fired := s.fired - {t})); }
    case Flush =>
      SameAccount(s, Cancel(s));
      if s.queue != [] { DetachConserves(Cancel(s)); }
    case Send(_, _) =>
  }

  lemma StepKeepsTimers(s: State, step: Step, threshold: nat)
    requires CanStep(s, step) && Timed(s)
    ensures Timed(Next(s, step, threshold))
    ensures Covered(s) && (step.Append? ==> step.timerStarts) ==> Covered(Next(s, step, threshold))
  {
    match step
    case Append(items, starts) =>
      var cards := Cards(items);
      if cards != [] {
        var more := s.(queue := s.queue + cards, itemsQueued := s.itemsQueued + |cards|, accepted := s.accepted + cards);
        StartedTimer(more, starts);
        assert |more.queue| == |cards| <==> s.queue == [];
      }
    case Fire(t) =>
      assert (s.live - {t}) + (s.fired + {t}) == s.live + s.fired;
    case Callback(t) =>
    case Flush =>
    case Send(_, _) =>
  }

  lemma StartedTimer(s: State, starts: bool)
    requires s.live !! s.fired && (forall t :: t in s.live + s.fired ==> t < s.nextTimer)
    ensures var r := StartTimer(s, starts);
      && r.live !! r.fired && (forall t :: t in r.live + r.fired ==> t < r.nextTimer)
      && r.queue == s.queue && r.timer == (if starts then Some(s.nextTimer) else None)
      && (r.timer.Some? ==> r.timer.value in r.live)
  {
    assert forall t :: t in s.live ==> t in s.live + s.fired;
    assert forall t :: t in s.fired ==> t in s.live + s.fired;
  }

  predicate IsRun(s: State, steps: seq<Step>, threshold: nat)
    decreases |steps|
  {
    steps == [] || (CanStep(s, steps[0]) && IsRun(Next(s, steps[0], threshold), steps[1..], threshold))
  }

  function Final(s: State, steps: seq<Step>, threshold: nat): State
    decreases |steps|
  {
    if steps == [] then s else Final(Next(s, steps[0], threshold), steps[1..], threshold)
  }

  /** Over every interleaving cards are conserved in order; and if timers can be started, a timer stands
      behind every pending card. */
  lemma {:induction false} InterleavingsConserve(s: State, steps: seq<Step>, threshold: nat)
    requires threshold > 0 && IsRun(s, steps, threshold) && Conserved(s, threshold) && Timed(s)
    ensures Conserved(Final(s, steps, threshold), threshold) && Timed(Final(s, steps, threshold))
    ensures Covered(s) && (forall k :: 0 <= k < |steps| && steps[k].Append? ==> steps[k].timerStarts)
      ==> Covered(Final(s, steps, threshold))
    decreases |steps|
  {
    if steps != [] {
      hide Next, Conserved, Timed, Covered;
      StepConserves(s, steps[0], threshold);
      StepKeepsTimers(s, steps[0], threshold);
      InterleavingsConserve(Next(s, steps[0], threshold), steps[1..], threshold);
    }
  }

  /** Accepted cards stay accepted, and detached ones stay detached. */
  lemma StepGrows(s: State, step: Step, threshold: nat)
    requires CanStep(s, step)
    ensures s.accepted <= Next(s, step, threshold).accepted
    ensures Flatten(s.batches) <= Flatten(Next(s, step, threshold).batches)
  {
    var n := Next(s, step, threshold);
    if n.batches != s.batches {
      assert n.batches[..|s.batches|] == s.batches;
    }
  }

  /** Once any timer callback has had the lock, every card accepted before the run is in a batch,
      whatever else happens before and after: with `Covered`, no card waits forever. */
  lemma {:induction false} CallbackDetaches(s: State, steps: seq<Step>, threshold: nat)
    requires threshold > 0 && IsRun(s, steps, threshold) && Conserved(s, threshold)
    ensures Flatten(s.batches) <= Flatten(Final(s, steps, threshold).batches)
    ensures (exists k :: 0 <= k < |steps| && steps[k].Callback?)
      ==> s.accepted <= Flatten(Final(s, steps, threshold).batches)
    decreases |steps|
  {
    if steps != [] {
      var n := Next(s, steps[0], threshold);
      StepConserves(s, steps[0], threshold);
      StepGrows(s, steps[0], threshold);
      assert steps[0].Callback? ==> n.queue == [] && n.accepted == Flatten(n.batches) + n.queue;
      hide Next, Flatten, Conserved;
      CallbackDetaches(n, steps[1..], threshold);
      assert forall k :: 0 < k < |steps| ==> steps[k] == steps[1..][k - 1];
    }
  }

  ghost predicate Distinct(cards: seq<Item>) {
    forall i, j :: 0 <= i < j < |cards| ==> cards[i] != cards[j]
  }

  lemma {:induction false} FlattenHolds(batches: seq<seq<Item>>, c: Item)
    ensures c in Flatten(batches) <==> exists k :: 0 <= k < |batches| && c in batches[k]
    decreases |batches|
  {
    if batches != [] {
      var last := |batches| - 1;
      FlattenHolds(batches[..last], c);
      assert forall k :: 0 <= k < last ==> batches[..last][k] == batches[k];
    }
  }

  /** A card that was accepted once is pending or in exactly one detached batch, never both. */
  lemma CardIsInOnePlace(s: State, threshold: nat, c: Item)
    requires Conserved(s, threshold) && Distinct(s.accepted) && c in s.accepted
    ensures c in s.queue <==> forall k :: 0 <= k < |s.batches| ==> c !in s.batches[k]
    ensures forall j, k :: 0 <= j < k < |s.batches| && c in s.batches[j] ==> c !in s.batches[k]
  {
    FlattenHolds(s.batches, c);
    DistinctConcat(Flatten(s.batches), s.queue);
    BatchesDisjoint(s.batches, c);
  }

  lemma DistinctConcat(a: seq<Item>, b: seq<Item>)
    requires Distinct(a + b)
    ensures Distinct(a) && forall c :: c in a ==> c !in b
  {
    assert forall i :: 0 <= i < |a| ==> (a + b)[i] == a[i];
    assert forall j :: 0 <= j < |b| ==> (a + b)[|a| + j] == b[j];
    forall i, j | 0 <= i < |a| && 0 <= j < |b| ensures a[i] != b[j] {
      assert (a + b)[i] != (a + b)[|a| + j];
    }
  }

  lemma {:induction false} BatchesDisjoint(batches: seq<seq<Item>>, c: Item)
    requires Distinct(Flatten(batches))
    ensures forall j, k :: 0 <= j < k < |batches| && c in batches[j] ==> c !in batches[k]
    decreases |batches|
  {
    if batches != [] {
      var last := |batches| - 1;
      var front := Flatten(batches[..last]);
      DistinctConcat(front, batches[last]);
      BatchesDisjoint(batches[..last], c);
      FlattenHolds(batches[..last], c);
      assert forall j :: 0 <= j < last ==> batches[..last][j] == batches[j];
    }
  }

  // ----- timers that fired too late to be cancelled -----

  /** No timer runs but the one the batcher knows of. */
  predicate Single(s: State) {
    s.live <= (if s.timer.Some? then {s.timer.value} else {})
  }

  /** A callback finds cards pending whose timer is still running: it flushes them and forgets the timer. */
  predicate Orphans(s: State, step: Step) {
    step.Callback? && s.queue != [] && s.timer.Some? && s.timer.value in s.live
  }

  lemma StepOrphansIff(s: State, step: Step, threshold: nat)
    requires CanStep(s, step) && Timed(s) && Single(s)
    ensures Single(Next(s, step, threshold)) <==> !Orphans(s, step)
  {
    hide Cards, Flatten;
  }

  predicate AlwaysSingle(s: State, steps: seq<Step>, threshold: nat)
    decreases |steps|
  {
    Single(s) && (steps == [] || AlwaysSingle(Next(s, steps[0], threshold), steps[1..], threshold))
  }

  predicate NeverOrphans(s: State, steps: seq<Step>, threshold: nat)
    decreases |steps|
  {
    steps == [] || (!Orphans(s, steps[0]) && NeverOrphans(Next(s, steps[0], threshold), steps[1..], threshold))
  }

  /** Over every interleaving at most one timer runs, and always the current one, exactly when no callback
      finds cards pending whose timer is still running. */
  lemma {:induction false} OneTimerRunsIff(s: State, steps: seq<Step>, threshold: nat)
    requires IsRun(s, steps, threshold) && Timed(s) && Single(s)
    ensures AlwaysSingle(s, steps, threshold) <==> NeverOrphans(s, steps, threshold)
    decreases |steps|
  {
    if steps != [] {
      hide Next, Timed, Single, Orphans, Covered;
      var t := Next(s, steps[0], threshold);
      StepOrphansIff(s, steps[0], threshold);
      StepKeepsTimers(s, steps[0], threshold);
      if Single(t) {
        OneTimerRunsIff(t, steps[1..], threshold);
      } else {
        NotSingleNow(t, steps[1..], threshold);
      }
    }
  }

  lemma NotSingleNow(s: State, steps: seq<Step>, threshold: nat)
    requires !Single(s)
    ensures !AlwaysSingle(s, steps, threshold)
  {
  }

  /** The timer that was started when the pending cards began to collect, None if it could not be started;
      `owner` is that of the cards pending before the steps. */
  function Owner(owner: Option<nat>, s: State, steps: seq<Step>, threshold: nat): Option<nat>
    decreases |steps|
  {
    if steps == [] then owner
    else
      var step := steps[0];
      var begins := step.Append? && s.queue == [] && Cards(step.items) != [];
      Owner(if !begins then owner else if step.timerStarts then Some(s.nextTimer) else None,
            Next(s, step, threshold), steps[1..], threshold)
  }

  /** While cards are pending the batcher knows whose they are. */
  lemma {:induction false} TimerIsOwner(owner: Option<nat>, s: State, steps: seq<Step>, threshold: nat)
    requires IsRun(s, steps, threshold) && (s.queue != [] ==> s.timer == owner)
    ensures var t := Final(s, steps, threshold);
      t.queue != [] ==> t.timer == Owner(owner, s, steps, threshold)
    decreases |steps|
  {
    if steps != [] {
      var step := steps[0];
      var begins := step.Append? && s.queue == [] && Cards(step.items) != [];
      var next := if !begins then owner else if step.timerStarts then Some(s.nextTimer) else None;
      StepKeepsOwner(owner, s, step, threshold);
      hide Next, Cards, CanStep;
      TimerIsOwner(next, Next(s, step, threshold), steps[1..], threshold);
    }
  }

  lemma StepKeepsOwner(owner: Option<nat>, s: State, step: Step, threshold: nat)
    requires s.queue != [] ==> s.timer == owner
    ensures var begins := step.Append? && s.queue == [] && Cards(step.items) != [];
      var t := Next(s, step, threshold);
      t.queue != [] ==> t.timer == if !begins then owner else if step.timerStarts then Some(s.nextTimer) else None
  {
    hide Cards;
    if step.Append? {
      var cards := Cards(step.items);
      assert |s.queue + cards| == |cards| <==> s.queue == [];
    }
  }

  /** After any run, the callback of a fired timer takes cards that are not its own exactly when cards are
      pending and the batcher's current timer is another one or none; every pending card goes with it.  It
      orphans a timer exactly when moreover that other timer has not fired yet. */
  lemma CallbackTakesOthersIff(s: State, steps: seq<Step>, threshold: nat, t: nat)
    requires threshold > 0 && IsRun(Init(), steps, threshold) && s == Final(Init(), steps, threshold) && t in s.fired
    ensures var taken := Next(s, Callback(t), threshold).batches[|s.batches|..];
      && taken == (if s.queue == [] then [] else [s.queue])
      && (taken != [] && Owner(None, Init(), steps, threshold) != Some(t) <==> s.queue != [] && s.timer != Some(t))
      && (Orphans(s, Callback(t)) <==> s.queue != [] && s.timer.Some? && s.timer != Some(t) && s.timer.value !in s.fired)
  {
    TimerIsOwner(None, Init(), steps, threshold);
    InterleavingsConserve(Init(), steps, threshold);
    hide IsRun, Final, Owner;
    assert s.timer == Some(t) ==> s.timer.value !in s.live;
  }

  /** Such a run: a timer that fired before it could be cancelled flushes cards that are not its own, before
      their window is over, and two timers then run at once. */
  lemma StaleTimerFlushesEarly()
    ensures var steps := [Append([Card(1)], true), Fire(0), Append([Card(2)], true), Append([Card(3)], true),
                          Callback(0), Append([Card(4)], true)];
      && IsRun(Init(), steps, 2)
      && Final(Init(), steps, 2).batches == [[Card(1), Card(2)], [Card(3)]]
      && Final(Init(), steps, 2).live == {1, 2}
  {
    hide Next, IsRun, Final;
    var (s2, s4, s5) := (StaleState(2), StaleState(4), StaleState(5));
    StaleSteps();
    var t1 := [Append([Card(4)], true)];
    var t2 := [Callback(0)] + t1;
    var t3 := [Append([Card(3)], true)] + t2;
    var t4 := [Append([Card(2)], true)] + t3;
    var t5 := [Fire(0)] + t4;
    assert t1 == [Append([Card(4)], true)] + [];
    RunNil(StaleState(6), 2);
    RunCons(s5, Append([Card(4)], true), [], 2);
    RunCons(s4, Callback(0), t1, 2);
    RunCons(StaleState(3), Append([Card(3)], true), t2, 2);
    RunCons(s2, Append([Card(2)], true), t3, 2);
    RunCons(StaleState(1), Fire(0), t4, 2);
    RunCons(Init(), Append([Card(1)], true), t5, 2);
    assert [Append([Card(1)], true)] + t5
        == [Append([Card(1)], true), Fire(0), Append([Card(2)], true), Append([Card(3)], true),
            Callback(0), Append([Card(4)], true)];
  }

  /** The states of that run. */
  ghost function StaleState(n: nat): State {
    var s1 := State([Card(1)], Some(0), 1, 0, {0}, {}, 1, [Card(1)], [], {}, 0);
    var s3 := State([], None, 2, 0, {}, {0}, 1, [Card(1), Card(2)], [[Card(1), Card(2)]], {0}, 0);
    var s4 := s3.(queue := [Card(3)], timer := Some(1), itemsQueued := 3, live := {1}, nextTimer := 2,
                  accepted := [Card(1), Card(2), Card(3)]);
    var s5 := s4.(queue := [], timer := None, fired := {}, batches := [[Card(1), Card(2)], [Card(3)]], unsent := {0, 1});
    if n <= 1 then s1
    else if n == 2 then s1.(live := {}, fired := {0})
    else if n == 3 then s3
    else if n == 4 then s4
    else if n == 5 then s5
    else s5.(queue := [Card(4)], timer := Some(2), itemsQueued := 4, live := {1, 2}, nextTimer := 3,
             accepted := [Card(1), Card(2), Card(3), Card(4)])
  }

  lemma StaleSteps()
    ensures Next(Init(), Append([Card(1)], true), 2) == StaleState(1)
    ensures Next(StaleState(1), Fire(0), 2) == StaleState(2) && CanStep(StaleState(1), Fire(0))
    ensures Next(StaleState(2), Append([Card(2)], true), 2) == StaleState(3)
    ensures Next(StaleState(3), Append([Card(3)], true), 2) == StaleState(4)
    ensures Next(StaleState(4), Callback(0), 2) == StaleState(5) && CanStep(StaleState(4), Callback(0))
    ensures Next(StaleState(5), Append([Card(4)], true), 2) == StaleState(6)
  {
    hide Cards;
    FirstSteps();
    LastSteps();
  }

  lemma FirstSteps()
    ensures Next(Init(), Append([Card(1)], true), 2) == StaleState(1)
    ensures Next(StaleState(1), Fire(0), 2) == StaleState(2)
    ensures Next(StaleState(2), Append([Card(2)], true), 2) == StaleState(3)
  {
    hide Cards;
    OneCard(1);
    OneCard(2);
  }

  lemma LastSteps()
    ensures Next(StaleState(3), Append([Card(3)], true), 2) == StaleState(4)
    ensures Next(StaleState(4), Callback(0), 2) == StaleState(5)
    ensures Next(StaleState(5), Append([Card(4)], true), 2) == StaleState(6)
  {
    hide Cards;
    OneCard(3);
    OneCard(4);
  }

  lemma RunNil(s: State, threshold: nat)
    ensures IsRun(s, [], threshold) && Final(s, [], threshold) == s
  {
  }

  lemma OneCard(n: nat)
    ensures Cards([Card(n)]) == [Card(n)]
  {
    assert [Card(n)][1..] == [];
  }

  lemma RunCons(s: State, step: Step, steps: seq<Step>, threshold: nat)
    ensures IsRun(s, [step] + steps, threshold)
       <==> CanStep(s, step) && IsRun(Next(s, step, threshold), steps, threshold)
    ensures Final(s, [step] + steps, threshold) == Final(Next(s, step, threshold), steps, threshold)
  {
    hide Next;
    assert ([step] + steps)[1..] == steps;
  }

  // ----- the class -----

  class Batcher {
    const threshold: nat
    var queue: seq<Item>
    var timer: Option<nat>
    var itemsQueued: nat
    var batchesSent: nat
    /** The runtime's timers and the fate of the cards; `world` agrees with the fields above. */
    ghost var world: State

    ghost predicate Valid()
      reads this
    {
      && threshold > 0 && Conserved(world, threshold) && Timed(world)
      && world.queue == queue && world.timer == timer
      && world.itemsQueued == itemsQueued && world.batchesSent == batchesSent
    }

    constructor (sizeThreshold: int)
      ensures Valid() && world == Init() && threshold == if sizeThreshold < 1 then 1 else sizeThreshold
    {
      threshold := if sizeThreshold < 1 then 1 else sizeThreshold;
      queue, timer, itemsQueued, batchesSent := [], None, 0, 0;
      world := Init();
    }

    /** The timer handle is the number of the timer the runtime starts; None if it cannot. */
    method AppendItems(items: seq<Item>, started: Option<nat>) returns (count: nat, pending: Option<seq<Item>>)
      requires Valid() && (started.Some? ==> started.value == world.nextTimer)
      modifies this
      ensures Valid() && world == Next(old(world), Append(items, started.Some?), threshold)
      ensures count == |Cards(items)|
      ensures pending.Some? <==> |world.batches| > |old(world.batches)|
      ensures pending.Some? ==> world.batches == old(world.batches) + [pending.value]
    {
      hide Conserved, Timed;
      StepConserves(world, Append(items, started.Some?), threshold);
      StepKeepsTimers(world, Append(items, started.Some?), threshold);
      var valid := Cards(items);
      count, pending := |valid|, None;
      if valid == [] {
        return;
      }
      world := Next(world, Append(items, started.Some?), threshold);
      queue := queue + valid;
      itemsQueued := itemsQueued + |valid|;
      if |queue| == |valid| {
        timer := started;
      }
      if |queue| >= threshold {
        pending := Some(queue);
        queue, timer := [], None;
      }
    }

    method OnTimer(ghost t: nat) returns (pending: Option<seq<Item>>)
      requires Valid() && t in world.fired
      modifies this
      ensures Valid() && world == Next(old(world), Callback(t), threshold)
      ensures pending == if old(queue) == [] then None else Some(old(queue))
    {
      StepConserves(world, Callback(t), threshold);
      StepKeepsTimers(world, Callback(t), threshold);
      world := Next(world, Callback(t), threshold);
      if queue == [] {
        return None;
      }
      pending := Some(queue);
      queue := [];
      timer := None;
    }

    method FlushPending() returns (flushed: seq<Item>)
      requires Valid()
      modifies this
      ensures Valid() && world == Next(old(world), Flush, threshold) && flushed == old(queue)
    {
      StepConserves(world, Flush, threshold);
      StepKeepsTimers(world, Flush, threshold);
      world := Next(world, Flush, threshold);
      flushed := queue;
      if queue != [] {
        queue, timer := [], None;
      }
    }

    method SendBatch(ghost k: nat, digestBuilt: bool)
      requires Valid() && k in world.unsent
      modifies this
      ensures Valid() && world == Next(old(world), Send(k, digestBuilt), threshold)
    {
      StepConserves(world, Send(k, digestBuilt), threshold);
      StepKeepsTimers(world, Send(k, digestBuilt), threshold);
      world := Next(world, Send(k, digestBuilt), threshold);
      if digestBuilt {
        batchesSent := batchesSent + 1;
      }
    }
  }
}
