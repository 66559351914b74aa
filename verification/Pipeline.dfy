/**
 The queues of orchestrator/orchestrator.go: three goroutines and any number of helper
 goroutines that pass nonces through two bounded channels, as a machine of interleaved steps.
 It covers the time before cancellation.
 */
module Pipeline {
  import opened Wrappers

  const QUEUE_SIZE: nat := 1000
  const REQUEUE_WINDOW: nat := 50

  /** A nonce given up by MaybeRequeue, and the latest nonce it was told, if any. */
  datatype Drop = Drop(nonce: nat, latest: Option<nat>)

  /** Goroutines that hold a nonce are counted by the nonce they hold. */
  datatype Pipe = Pipe(
    heard: seq<nat>,             // sent by the listener
    caughtUp: seq<nat>,          // sent by the catch-up
    queue: seq<nat>,             // noncesQueue
    processing: Option<nat>,     // in Process or its retries
    deciding: multiset<nat>,     // in MaybeRequeue, asking for the latest nonce
    returning: multiset<nat>,    // in MaybeRequeue, sending to the requeue channel
    requeue: seq<nat>,           // failedNoncesQueue
    idle: nat,                   // ticker goroutines still to receive a nonce
    carrying: multiset<nat>,     // ticker goroutines sending their nonce to the queue
    done: multiset<nat>,         // Process returned nil
    forgotten: multiset<nat>,    // Process failed and there were no retries
    dropped: seq<Drop>
  )

  datatype Step =
    | Hear(nonce: nat)
    | CatchUp(nonce: nat)
    | Receive
    | Finish(calls: seq<bool>)
    | Tick
    | Decide(nonce: nat, latest: Option<nat>)
    | PutBack(nonce: nat)
    | Grab
    | Deliver(nonce: nat)

  datatype Goroutine = Listener | CatchingUp | Processor | Helper

  function Actor(step: Step): Goroutine {
    match step
    case Hear(_) => Listener
    case CatchUp(_) => CatchingUp
    case Receive => Processor
    case Finish(_) => Processor
    case Tick => Processor
    case _ => Helper
  }

  /** The calls of Process for one nonce: until the first that succeeds, or all the retries. */
  predicate ProperCalls(retries: nat, calls: seq<bool>) {
    && 1 <= |calls| <= 1 + retries
    && (forall i | 0 <= i < |calls| - 1 :: !calls[i])
    && (calls[|calls| - 1] || |calls| == 1 + retries)
  }

  /** The age limit of MaybeRequeue. */
  predicate Recent(nonce: nat, latest: nat) {
    latest <= REQUEUE_WINDOW || nonce >= latest - REQUEUE_WINDOW
  }

  predicate Enabled(retries: nat, p: Pipe, step: Step) {
    match step
    case Hear(_) => |p.queue| < QUEUE_SIZE
    case CatchUp(_) => |p.queue| < QUEUE_SIZE
    case Receive => p.processing.None? && p.queue != []
    case Finish(calls) => p.processing.Some? && ProperCalls(retries, calls)
    case Tick => p.processing.None?
    case Decide(n, _) => n in p.deciding
    case PutBack(n) => n in p.returning && |p.requeue| < QUEUE_SIZE
    case Grab => p.idle > 0 && p.requeue != []
    case Deliver(n) => n in p.carrying && |p.queue| < QUEUE_SIZE
  }

  /** The error of Retry decides about the requeue, and without any retries that is nil. */
  function Finished(retries: nat, p: Pipe, nonce: nat, ok: bool): Pipe {
    if ok then p.(processing := None, done := p.done + multiset{nonce})
    else if retries == 0 then p.(processing := None, forgotten := p.forgotten + multiset{nonce})
    else p.(processing := None, deciding := p.deciding + multiset{nonce})
  }

  function Decided(p: Pipe, nonce: nat, latest: Option<nat>): Pipe {
    var rest := p.(deciding := p.deciding - multiset{nonce});
    if latest.Some? && Recent(nonce, latest.value) then rest.(returning := p.returning + multiset{nonce})
    else rest.(dropped := p.dropped + [Drop(nonce, latest)])
  }

  function Do(retries: nat, p: Pipe, step: Step): Pipe
    requires Enabled(retries, p, step)
  {
    match step
    case Hear(n) => p.(heard := p.heard + [n], queue := p.queue + [n])
    case CatchUp(n) => p.(caughtUp := p.caughtUp + [n], queue := p.queue + [n])
    case Receive => p.(queue := p.queue[1..], processing := Some(p.queue[0]))
    case Finish(calls) => Finished(retries, p, p.processing.value, calls[|calls| - 1])
    case Tick => if |p.requeue| > 0 && |p.queue| < QUEUE_SIZE then p.(idle := p.idle + 1) else p
    case Decide(n, latest) => Decided(p, n, latest)
    case PutBack(n) => p.(returning := p.returning - multiset{n}, requeue := p.requeue + [n])
    case Grab => p.(idle := p.idle - 1, requeue := p.requeue[1..], carrying := p.carrying + multiset{p.requeue[0]})
    case Deliver(n) => p.(carrying := p.carrying - multiset{n}, queue := p.queue + [n])
  }

  predicate Legal(retries: nat, p: Pipe, steps: seq<Step>)
    decreases |steps|
  {
    steps == [] || (Enabled(retries, p, steps[0]) && Legal(retries, Do(retries, p, steps[0]), steps[1..]))
  }

  function Run(retries: nat, p: Pipe, steps: seq<Step>): Pipe
    requires Legal(retries, p, steps)
    decreases |steps|
  {
    if steps == [] then p else Run(retries, Do(retries, p, steps[0]), steps[1..])
  }

  const EMPTY: Pipe :=
    Pipe([], [], [], None, multiset{}, multiset{}, [], 0, multiset{}, multiset{}, multiset{}, [])

  // --- the invariant ---

  function Held(o: Option<nat>): multiset<nat> {
    match o case None => multiset{} case Some(n) => multiset{n}
  }

  function Dropped(drops: seq<Drop>): multiset<nat> {
    if drops == [] then multiset{} else Dropped(drops[..|drops| - 1]) + multiset{drops[|drops| - 1].nonce}
  }

  /** What is still on its way. */
  function Outstanding(p: Pipe): multiset<nat> {
    multiset(p.queue) + Held(p.processing) + p.deciding + p.returning + multiset(p.requeue) + p.carrying
  }

  function Enqueued(p: Pipe): multiset<nat> {
    multiset(p.heard) + multiset(p.caughtUp)
  }

  /** What has left the pipeline, one way or another. */
  function Gone(p: Pipe): multiset<nat> {
    p.done + p.forgotten + Dropped(p.dropped)
  }

  /** Given up without an answer, or more than the window behind the latest nonce. */
  predicate Justified(d: Drop) {
    d.latest.None? || d.nonce + REQUEUE_WINDOW < d.latest.value
  }

  ghost predicate Inv(retries: nat, p: Pipe) {
    && Enqueued(p) == Outstanding(p) + Gone(p)
    && |p.queue| <= QUEUE_SIZE && |p.requeue| <= QUEUE_SIZE
    && (forall d | d in p.dropped :: Justified(d))
    && (retries > 0 ==> p.forgotten == multiset{})
  }

  /** How often n is among these. */
  function Count(s: seq<nat>, n: nat): nat {
    multiset(s)[n]
  }

  lemma CountFirst(s: seq<nat>, n: nat)
    requires s != []
    ensures Count(s, n) == (if s[0] == n then 1 else 0) + Count(s[1..], n)
  {
    assert s == [s[0]] + s[1..];
  }

  lemma CountLast(s: seq<nat>, m: nat, n: nat)
    ensures Count(s + [m], n) == Count(s, n) + if m == n then 1 else 0
  {
  }

  lemma DroppedOneMore(drops: seq<Drop>, d: Drop, n: nat)
    ensures Dropped(drops + [d])[n] == Dropped(drops)[n] + if d.nonce == n then 1 else 0
  {
    assert (drops + [d])[..|drops|] == drops;
  }

  /** How many copies of nonce n were enqueued, are on their way, and have left. */
  lemma Counts(p: Pipe, n: nat)
    ensures Enqueued(p)[n] == Count(p.heard, n) + Count(p.caughtUp, n)
    ensures Outstanding(p)[n] == Count(p.queue, n) + Held(p.processing)[n] + p.deciding[n] + p.returning[n]
                                 + Count(p.requeue, n) + p.carrying[n]
    ensures Gone(p)[n] == p.done[n] + p.forgotten[n] + Dropped(p.dropped)[n]
  {
  }

  /** For nonce n, what was enqueued in between has not left and what left was on its way. */
  predicate Balanced(p: Pipe, q: Pipe, n: nat) {
    Enqueued(q)[n] + Outstanding(p)[n] + Gone(p)[n] == Enqueued(p)[n] + Outstanding(q)[n] + Gone(q)[n]
  }

  lemma SendingBalances(retries: nat, p: Pipe, step: Step, n: nat)
    requires Enabled(retries, p, step) && Actor(step) in {Listener, CatchingUp}
    ensures Balanced(p, Do(retries, p, step), n)
  {
    hide Enqueued, Outstanding, Gone, Dropped, Count;
    var q := Do(retries, p, step);
    Counts(p, n);
    Counts(q, n);
    CountLast(p.queue, step.nonce, n);
    CountLast(p.heard, step.nonce, n);
    CountLast(p.caughtUp, step.nonce, n);
  }

  lemma ProcessingBalances(retries: nat, p: Pipe, step: Step, n: nat)
    requires Enabled(retries, p, step) && Actor(step).Processor?
    ensures Balanced(p, Do(retries, p, step), n)
  {
    hide Enqueued, Outstanding, Gone, Dropped, Count;
    Counts(p, n);
    Counts(Do(retries, p, step), n);
    if step.Receive? {
      hide Finished;
      CountFirst(p.queue, n);
    } else if step.Finish? {
      FinishedBalances(retries, p, p.processing.value, step.calls[|step.calls| - 1], n);
    }
  }

  lemma FinishedBalances(retries: nat, p: Pipe, nonce: nat, ok: bool, n: nat)
    requires p.processing == Some(nonce)
    ensures Balanced(p, Finished(retries, p, nonce, ok), n)
  {
    hide Enqueued, Outstanding, Gone, Dropped, Count;
    Counts(p, n);
    Counts(Finished(retries, p, nonce, ok), n);
  }

  lemma DecidingBalances(retries: nat, p: Pipe, step: Step, n: nat)
    requires Enabled(retries, p, step) && step.Decide?
    ensures Balanced(p, Do(retries, p, step), n)
  {
    hide Enqueued, Outstanding, Gone, Dropped, Count;
    Counts(p, n);
    Counts(Do(retries, p, step), n);
    DroppedOneMore(p.dropped, Drop(step.nonce, step.latest), n);
  }

  lemma PassingBalances(retries: nat, p: Pipe, step: Step, n: nat)
    requires Enabled(retries, p, step) && (step.PutBack? || step.Grab? || step.Deliver?)
    ensures Balanced(p, Do(retries, p, step), n)
  {
    hide Enqueued, Outstanding, Gone, Dropped, Count;
    Counts(p, n);
    Counts(Do(retries, p, step), n);
    if step.PutBack? {
      CountLast(p.requeue, step.nonce, n);
    } else if step.Grab? {
      CountFirst(p.requeue, n);
    } else {
      CountLast(p.queue, step.nonce, n);
    }
  }

  /** What is enqueued appears, what is processed moves, nothing vanishes. */
  lemma StepConserves(retries: nat, p: Pipe, step: Step, n: nat)
    requires Enabled(retries, p, step)
    ensures Balanced(p, Do(retries, p, step), n)
  {
    hide Balanced, Do, Enabled;
    match Actor(step) {
      case Listener => SendingBalances(retries, p, step, n);
      case CatchingUp => SendingBalances(retries, p, step, n);
      case Processor => ProcessingBalances(retries, p, step, n);
      case Helper => if step.Decide? { DecidingBalances(retries, p, step, n); } else { PassingBalances(retries, p, step, n); }
    }
  }

  lemma BalanceStays(retries: nat, p: Pipe, step: Step)
    requires Enqueued(p) == Outstanding(p) + Gone(p) && Enabled(retries, p, step)
    ensures var q := Do(retries, p, step); Enqueued(q) == Outstanding(q) + Gone(q)
  {
    hide Enqueued, Outstanding, Gone, Do, Enabled;
    var q := Do(retries, p, step);
    forall n ensures Enqueued(q)[n] == (Outstanding(q) + Gone(q))[n] {
      StepConserves(retries, p, step, n);
      assert Enqueued(p)[n] == (Outstanding(p) + Gone(p))[n];
    }
  }

  lemma DropsStayJustified(retries: nat, p: Pipe, step: Step)
    requires Enabled(retries, p, step) && forall d | d in p.dropped :: Justified(d)
    ensures forall d | d in Do(retries, p, step).dropped :: Justified(d)
  {
    var q := Do(retries, p, step);
    forall d | d in q.dropped ensures Justified(d) {
      assert d in p.dropped || (step.Decide? && d == Drop(step.nonce, step.latest));
    }
  }

  lemma StepKeepsBounds(retries: nat, p: Pipe, step: Step)
    requires Enabled(retries, p, step) && |p.queue| <= QUEUE_SIZE && |p.requeue| <= QUEUE_SIZE
    ensures |Do(retries, p, step).queue| <= QUEUE_SIZE && |Do(retries, p, step).requeue| <= QUEUE_SIZE
    ensures retries > 0 ==> Do(retries, p, step).forgotten == p.forgotten
  {
  }

  lemma StepGrows(retries: nat, p: Pipe, step: Step)
    requires Enabled(retries, p, step)
    ensures Grows(p, Do(retries, p, step))
  {
  }

  lemma StepKeepsInv(retries: nat, p: Pipe, step: Step)
    requires Inv(retries, p) && Enabled(retries, p, step)
    ensures Inv(retries, Do(retries, p, step)) && Grows(p, Do(retries, p, step))
  {
    hide Do, Enabled, Enqueued, Outstanding, Gone, Justified, Grows;
    BalanceStays(retries, p, step);
    DropsStayJustified(retries, p, step);
    StepKeepsBounds(retries, p, step);
    StepGrows(retries, p, step);
  }

  /** Nothing that was sent, done or dropped is taken back. */
  ghost predicate Grows(p: Pipe, q: Pipe) {
    p.heard <= q.heard && p.caughtUp <= q.caughtUp && p.done <= q.done && p.dropped <= q.dropped
  }

  /**
   Over every interleaving: nonces enqueued = on their way + done + given up, both channels
   keep to their size, and only nonces older than the window, or those for which the latest
   nonce could not be had, are given up.
   */
  lemma {:induction false} RunsKeepInv(retries: nat, p: Pipe, steps: seq<Step>)
    requires Inv(retries, p) && Legal(retries, p, steps)
    ensures Inv(retries, Run(retries, p, steps)) && Grows(p, Run(retries, p, steps))
    decreases |steps|
  {
    if steps != [] {
      StepKeepsInv(retries, p, steps[0]);
      RunsKeepInv(retries, Do(retries, p, steps[0]), steps[1..]);
    }
  }

  lemma {:induction false} DroppedOnes(drops: seq<Drop>, n: nat)
    requires n in Dropped(drops)
    ensures exists d :: d in drops && d.nonce == n
  {
    var last := |drops| - 1;
    if drops[last].nonce == n {
      assert drops[last] in drops;
    } else {
      DroppedOnes(drops[..last], n);
    }
  }

  /** Every nonce ever enqueued is on its way, done, or given up for one of the two reasons. */
  lemma EveryNonceIsSomewhere(retries: nat, steps: seq<Step>, n: nat)
    requires retries > 0 && Legal(retries, EMPTY, steps)
    requires n in Run(retries, EMPTY, steps).heard || n in Run(retries, EMPTY, steps).caughtUp
    ensures var p := Run(retries, EMPTY, steps);
            || n in Outstanding(p)
            || n in p.done
            || exists d :: d in p.dropped && d.nonce == n && (d.latest.None? || n + REQUEUE_WINDOW < d.latest.value)
  {
    RunsKeepInv(retries, EMPTY, steps);
    var p := Run(retries, EMPTY, steps);
    assert n in Enqueued(p);
    if n in Dropped(p.dropped) {
      DroppedOnes(p.dropped, n);
    }
  }

  // --- first in, first out ---

  /** What a step sends to the main queue. */
  function SentBy(step: Step): seq<nat> {
    if step.Hear? || step.CatchUp? || step.Deliver? then [step.nonce] else []
  }

  /** What comes to be processed between two states. */
  function Taken(p: Pipe, q: Pipe): seq<nat> {
    if p.processing.None? && q.processing.Some? then [q.processing.value] else []
  }

  function Sent(steps: seq<Step>): seq<nat>
    decreases |steps|
  {
    if steps == [] then [] else SentBy(steps[0]) + Sent(steps[1..])
  }

  function Received(retries: nat, p: Pipe, steps: seq<Step>): seq<nat>
    requires Legal(retries, p, steps)
    decreases |steps|
  {
    if steps == [] then []
    else Taken(p, Do(retries, p, steps[0])) + Received(retries, Do(retries, p, steps[0]), steps[1..])
  }

  lemma OneStepIsInOrder(retries: nat, p: Pipe, step: Step)
    requires Enabled(retries, p, step)
    ensures p.queue + SentBy(step) == Taken(p, Do(retries, p, step)) + Do(retries, p, step).queue
  {
    if step.Receive? {
      assert p.queue == [p.queue[0]] + p.queue[1..];
    }
  }

  lemma Chained(a: seq<nat>, b: seq<nat>, c: seq<nat>, d: seq<nat>, e: seq<nat>, f: seq<nat>, g: seq<nat>)
    requires a + b == c + d && d + e == f + g
    ensures a + (b + e) == (c + f) + g
  {
    assert a + (b + e) == (a + b) + e == c + (d + e);
  }

  /** Over every run, nonces come to be processed in the order in which they were sent. */
  lemma {:induction false} QueueIsInOrder(retries: nat, p: Pipe, steps: seq<Step>)
    requires Legal(retries, p, steps)
    ensures p.queue + Sent(steps) == Received(retries, p, steps) + Run(retries, p, steps).queue
    decreases |steps|
  {
    if steps != [] {
      hide Do, Enabled, SentBy, Taken;
      var q, rest := Do(retries, p, steps[0]), steps[1..];
      OneStepIsInOrder(retries, p, steps[0]);
      QueueIsInOrder(retries, q, rest);
      Chained(p.queue, SentBy(steps[0]), Taken(p, q), q.queue, Sent(rest), Received(retries, q, rest), Run(retries, q, rest).queue);
    }
  }

  // --- nothing gets stuck ---

  /** How many steps at most until everything on its way can be done. */
  function Distance(p: Pipe): nat {
    7 * |p.deciding| + 6 * |p.returning| + 5 * |p.requeue| + (if p.idle == 0 then 1 else 0)
    + 3 * |p.carrying| + 2 * |p.queue| + |Held(p.processing)|
  }

  /** How many copies of nonce n are about to be told a latest nonce they are too old for. */
  function TooOld(p: Pipe, latest: nat, n: nat): nat {
    if n + REQUEUE_WINDOW >= latest then 0 else p.deciding[n]
  }

  /** Between two states nothing was enqueued, and of nonce n only what was too old was given up. */
  ghost predicate Keeps(p: Pipe, q: Pipe, latest: nat, n: nat) {
    && q.done[n] + Outstanding(q)[n] + Dropped(q.dropped)[n] == p.done[n] + Outstanding(p)[n] + Dropped(p.dropped)[n]
    && Dropped(q.dropped)[n] + TooOld(q, latest, n) == Dropped(p.dropped)[n] + TooOld(p, latest, n)
  }

  /** The further drops were all answered with this latest nonce, and too old for it. */
  ghost predicate DropsOnlyOld(p: Pipe, q: Pipe, latest: nat) {
    && p.dropped <= q.dropped
    && forall i | |p.dropped| <= i < |q.dropped| ::
         q.dropped[i].latest == Some(latest) && q.dropped[i].nonce + REQUEUE_WINDOW < latest
  }

  /** The step chosen to bring something on its way nearer. */
  ghost predicate Helps(p: Pipe, latest: nat, step: Step) {
    match step
    case Finish(calls) => p.processing.Some? && calls == [true]
    case Receive => p.processing.None? && p.queue != []
    case Deliver(n) => p.queue == [] && n in p.carrying
    case Tick => p.processing.None? && p.queue == [] && p.requeue != [] && p.idle == 0
    case Grab => p.requeue != [] && p.idle > 0
    case PutBack(n) => p.requeue == [] && n in p.returning
    case Decide(n, answer) => n in p.deciding && answer == Some(latest)
    case _ => false
  }

  lemma HelpingStepIsEnabled(retries: nat, p: Pipe, latest: nat, step: Step)
    requires Helps(p, latest, step)
    ensures Enabled(retries, p, step) && Actor(step) in {Processor, Helper}
    ensures DropsOnlyOld(p, Do(retries, p, step), latest)
  {
  }

  /** A nonce told that it is recent goes back, and any other is moved from deciding to dropped. */
  lemma DecidedMoves(p: Pipe, nonce: nat, latest: Option<nat>, n: nat)
    requires nonce in p.deciding
    ensures var q := Decided(p, nonce, latest);
            if latest.Some? && Recent(nonce, latest.value)
            then q.dropped == p.dropped && (n != nonce ==> q.deciding[n] == p.deciding[n])
            else Dropped(q.dropped)[n] + q.deciding[n] == Dropped(p.dropped)[n] + p.deciding[n]
                 && (n != nonce ==> q.deciding[n] == p.deciding[n])
  {
    hide Dropped;
    DroppedOneMore(p.dropped, Drop(nonce, latest), n);
  }

  lemma OnlyDecidingDrops(retries: nat, p: Pipe, step: Step)
    requires Enabled(retries, p, step) && !step.Decide?
    ensures Do(retries, p, step).dropped == p.dropped && p.deciding <= Do(retries, p, step).deciding
    ensures (step.Finish? ==> step.calls == [true]) ==> p.deciding == Do(retries, p, step).deciding
  {
  }

  lemma HelpingStepMoves(retries: nat, p: Pipe, latest: nat, step: Step, n: nat)
    requires Enabled(retries, p, step) && Helps(p, latest, step)
    ensures var q := Do(retries, p, step);
            Dropped(q.dropped)[n] + TooOld(q, latest, n) == Dropped(p.dropped)[n] + TooOld(p, latest, n)
  {
    hide Dropped, Decided;
    if step.Decide? {
      DecidedMoves(p, step.nonce, step.latest, n);
    } else {
      OnlyDecidingDrops(retries, p, step);
      hide Do;
    }
  }

  lemma HelpingStepEnqueuesNothing(retries: nat, p: Pipe, latest: nat, step: Step)
    requires Enabled(retries, p, step) && Helps(p, latest, step)
    ensures Enqueued(Do(retries, p, step)) == Enqueued(p) && Do(retries, p, step).forgotten == p.forgotten
  {
  }

  lemma HelpingStepKeeps(retries: nat, p: Pipe, latest: nat, step: Step, n: nat)
    requires Enabled(retries, p, step) && Helps(p, latest, step)
    ensures Keeps(p, Do(retries, p, step), latest, n)
  {
    hide Do, Enabled, Helps, Enqueued, Outstanding, Dropped, TooOld;
    HelpingStepEnqueuesNothing(retries, p, latest, step);
    HelpingStepMoves(retries, p, latest, step, n);
    StepConserves(retries, p, step, n);
  }

  lemma OneLess(m: multiset<nat>, n: nat)
    requires n in m
    ensures |m - multiset{n}| == |m| - 1
  {
  }

  lemma OneMore(m: multiset<nat>, n: nat)
    ensures |m + multiset{n}| == |m| + 1
  {
  }

  lemma ProcessorIsNearer(retries: nat, p: Pipe, latest: nat, step: Step)
    requires Helps(p, latest, step) && Enabled(retries, p, step) && Actor(step).Processor?
    ensures Distance(Do(retries, p, step)) < Distance(p)
  {
  }

  lemma RequeueIsNearer(retries: nat, p: Pipe, latest: nat, step: Step)
    requires Helps(p, latest, step) && Enabled(retries, p, step) && (step.Decide? || step.PutBack?)
    ensures Distance(Do(retries, p, step)) < Distance(p)
  {
    if step.Decide? {
      OneLess(p.deciding, step.nonce);
      OneMore(p.returning, step.nonce);
    } else {
      OneLess(p.returning, step.nonce);
    }
  }

  lemma TickerIsNearer(retries: nat, p: Pipe, latest: nat, step: Step)
    requires Helps(p, latest, step) && Enabled(retries, p, step) && (step.Grab? || step.Deliver?)
    ensures Distance(Do(retries, p, step)) < Distance(p)
  {
    if step.Grab? {
      OneMore(p.carrying, p.requeue[0]);
    } else {
      OneLess(p.carrying, step.nonce);
    }
  }

  lemma HelpingStepIsNearer(retries: nat, p: Pipe, latest: nat, step: Step)
    requires Helps(p, latest, step) && Enabled(retries, p, step)
    ensures Distance(Do(retries, p, step)) < Distance(p)
  {
    hide Enabled, Do, Distance;
    if Actor(step).Processor? {
      ProcessorIsNearer(retries, p, latest, step);
    } else if step.Grab? || step.Deliver? {
      TickerIsNearer(retries, p, latest, step);
    } else {
      RequeueIsNearer(retries, p, latest, step);
    }
  }

  lemma SomeStepHelps(p: Pipe, latest: nat) returns (step: Step)
    requires Outstanding(p) != multiset{}
    ensures Helps(p, latest, step)
  {
    if p.processing.Some? {
      step := Finish([true]);
    } else if p.queue != [] {
      step := Receive;
    } else if p.carrying != multiset{} {
      var n :| n in p.carrying;
      step := Deliver(n);
    } else if p.requeue != [] {
      step := if p.idle == 0 then Tick else Grab;
    } else if p.returning != multiset{} {
      var n :| n in p.returning;
      step := PutBack(n);
    } else {
      assert p.deciding != multiset{};
      var n :| n in p.deciding;
      step := Decide(n, Some(latest));
    }
  }

  lemma {:induction false} Drain(retries: nat, p: Pipe, latest: nat) returns (steps: seq<Step>)
    ensures Legal(retries, p, steps)
    ensures forall s | s in steps :: Actor(s) in {Processor, Helper} && (s.Decide? ==> s.latest == Some(latest))
    ensures var q := Run(retries, p, steps);
            Outstanding(q) == multiset{} && DropsOnlyOld(p, q, latest) && forall n :: Keeps(p, q, latest, n)
    decreases Distance(p)
  {
    hide Enabled, Do, Distance, Outstanding, Dropped, TooOld;
    if Outstanding(p) == multiset{} {
      steps := [];
    } else {
      var step := SomeStepHelps(p, latest);
      HelpingStepIsEnabled(retries, p, latest, step);
      HelpingStepIsNearer(retries, p, latest, step);
      var next := Do(retries, p, step);
      var rest := Drain(retries, next, latest);
      steps := [step] + rest;
      assert steps[1..] == rest;
      forall n ensures Keeps(p, Run(retries, p, steps), latest, n) {
        HelpingStepKeeps(retries, p, latest, step, n);
        assert Keeps(next, Run(retries, next, rest), latest, n);
      }
    }
  }

  /**
   No deadlock and no lost nonce: from every state, however full the channels are, and
   whatever the latest nonce is, the processor and the helpers alone can bring every nonce on
   its way to be processed, if from then on the calls succeed; all but those that have failed
   and wait for MaybeRequeue to find them too old, which it gives up.
   */
  lemma CanDrain(retries: nat, p: Pipe, latest: nat) returns (steps: seq<Step>)
    ensures Legal(retries, p, steps)
    ensures forall s | s in steps :: Actor(s) in {Processor, Helper} && (s.Decide? ==> s.latest == Some(latest))
    ensures var q := Run(retries, p, steps);
            && Outstanding(q) == multiset{} && DropsOnlyOld(p, q, latest)
            && forall n :: q.done[n] == p.done[n] + Outstanding(p)[n] - TooOld(p, latest, n)
  {
    hide Legal, Run, Dropped, DropsOnlyOld;
    steps := Drain(retries, p, latest);
    var q := Run(retries, p, steps);
    forall n ensures q.done[n] == p.done[n] + Outstanding(p)[n] - TooOld(p, latest, n) {
      assert Keeps(p, q, latest, n);
      Counts(q, n);
    }
  }

  /** No answer of the chain from `latest` on. */
  predicate ToldLess(step: Step, latest: nat) {
    step.Decide? && step.latest.Some? && step.latest.value < latest
  }

  lemma OneStepLoses(retries: nat, p: Pipe, step: Step, latest: nat, n: nat)
    requires Enabled(retries, p, step) && !ToldLess(step, latest) && !Recent(n, latest)
    ensures var q := Do(retries, p, step);
            Dropped(q.dropped)[n] + q.deciding[n] >= Dropped(p.dropped)[n] + p.deciding[n]
  {
    hide Dropped, Decided;
    if step.Decide? {
      DecidedMoves(p, step.nonce, step.latest, n);
    } else {
      OnlyDecidingDrops(retries, p, step);
      hide Do;
    }
  }

  lemma {:induction false} TooOldStays(retries: nat, p: Pipe, steps: seq<Step>, latest: nat, n: nat)
    requires Legal(retries, p, steps) && forall s | s in steps :: !ToldLess(s, latest)
    ensures var q := Run(retries, p, steps);
            !Recent(n, latest) ==> Dropped(q.dropped)[n] + q.deciding[n] >= Dropped(p.dropped)[n] + p.deciding[n]
    decreases |steps|
  {
    if steps != [] && !Recent(n, latest) {
      hide Do, Dropped, Recent;
      var q := Do(retries, p, steps[0]);
      OneStepLoses(retries, p, steps[0], latest, n);
      TooOldStays(retries, q, steps[1..], latest, n);
    }
  }

  /**
   The exception is one of the code: as the latest nonce never falls, no run whatsoever saves
   more copies of a nonce than CanDrain does, other than by enqueuing it again.
   */
  lemma TooOldIsLost(retries: nat, p: Pipe, steps: seq<Step>, latest: nat, n: nat)
    requires retries > 0 && Inv(retries, p) && Legal(retries, p, steps)
    requires forall s | s in steps :: !ToldLess(s, latest)
    ensures var q := Run(retries, p, steps);
            q.done[n] + Enqueued(p)[n] <= p.done[n] + Outstanding(p)[n] - TooOld(p, latest, n) + Enqueued(q)[n]
  {
    hide Run, Legal, Enqueued, Outstanding, Dropped;
    RunsKeepInv(retries, p, steps);
    TooOldStays(retries, p, steps, latest, n);
    var q := Run(retries, p, steps);
    Counts(p, n);
    Counts(q, n);
    DropsGrow(p.dropped, q.dropped, n);
    assert Enqueued(q)[n] == (Outstanding(q) + Gone(q))[n] && Enqueued(p)[n] == (Outstanding(p) + Gone(p))[n];
  }

  lemma {:induction false} DropsGrow(drops: seq<Drop>, more: seq<Drop>, n: nat)
    requires drops <= more
    ensures Dropped(drops)[n] <= Dropped(more)[n]
  {
    if drops != more {
      DropsGrow(drops, more[..|more| - 1], n);
    }
  }

  // --- the nonces sent by the catch-up ---

  /** The loop bound latest - earliest + 1, in unsigned 64-bit arithmetic. */
  function MissingCount(latest: nat, earliest: nat): nat {
    (latest - earliest + 1) % UINT64_LIMIT
  }

  /** The first k values of latest - i, in unsigned 64-bit arithmetic. */
  function Countdown(latest: nat, k: nat): (s: seq<nat>)
    ensures |s| == k
  {
    seq<nat>(k, i requires 0 <= i < k => (latest - i) % UINT64_LIMIT)
  }

  lemma CountdownStep(latest: nat, k: nat)
    ensures Countdown(latest, 0) == []
    ensures Countdown(latest, k + 1) == Countdown(latest, k) + [(latest - k) % UINT64_LIMIT]
  {
  }

  /** From latest down to earliest. */
  function DownTo(latest: nat, earliest: nat): seq<nat> {
    if latest < earliest then [] else [latest] + if latest == 0 then [] else DownTo(latest - 1, earliest)
  }

  lemma {:induction false} DownToAt(latest: nat, earliest: nat)
    ensures |DownTo(latest, earliest)| == if latest < earliest then 0 else latest - earliest + 1
    ensures forall i | 0 <= i < |DownTo(latest, earliest)| :: DownTo(latest, earliest)[i] == latest - i
  {
    if latest >= earliest && latest > 0 {
      DownToAt(latest - 1, earliest);
    }
  }

  /** Each of them, and each once. */
  lemma DownToOnceEach(latest: nat, earliest: nat, n: nat)
    ensures n in DownTo(latest, earliest) <==> earliest <= n <= latest
    ensures forall i, j | 0 <= i < j < |DownTo(latest, earliest)| :: DownTo(latest, earliest)[i] != DownTo(latest, earliest)[j]
  {
    DownToAt(latest, earliest);
    hide DownTo;
    if earliest <= n <= latest {
      assert DownTo(latest, earliest)[latest - n] == n;
    }
  }

  /**
   The catch-up sends latest down to earliest exactly when earliest is at most latest + 1
   (and the two do not span all 64-bit numbers). Otherwise its loop bound wraps around.
   */
  lemma {:induction false} CatchUpIff(latest: nat, earliest: nat)
    requires latest < UINT64_LIMIT && earliest < UINT64_LIMIT
    ensures Countdown(latest, MissingCount(latest, earliest)) == DownTo(latest, earliest)
       <==> earliest <= latest + 1 && latest - earliest + 1 < UINT64_LIMIT
  {
    DownToAt(latest, earliest);
  }

  /** It fails for latest 1 and earliest 3: the first thing sent after nonce 0 is the greatest number there is. */
  lemma CatchUpCanWrap()
    ensures MissingCount(1, 3) == UINT64_LIMIT - 1 && Countdown(1, MissingCount(1, 3))[2] == UINT64_LIMIT - 1
  {
  }
}
