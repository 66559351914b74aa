/**
 orchestrator/orchestrator.go: the goroutines of `Start`. Each method below is one of them;
 between any two of its operations the others take any number of their own.
 */
module Orchestration {
  import opened Wrappers
  import opened Protocol
  import opened Surroundings
  import opened Signing
  import Pipeline

  datatype Ended = Completed | Interrupted | Failed

  /** What the listener's select meets; a nonce that is no number is None. */
  datatype ChainEvent = NotABlock | NewBlock(nonces: seq<Option<int>>) | HealthCheck(lost: bool) | StopSignal

  /** The nonces of the attestation events of committed blocks, in order, as unsigned 64-bit numbers. */
  function Announced(events: seq<ChainEvent>): seq<nat> {
    if events == [] then []
    else
      var before, last := Announced(events[..|events| - 1]), events[|events| - 1];
      if last.NewBlock? then before + Parsed(last.nonces) else before
  }

  function Parsed(nonces: seq<Option<int>>): seq<nat> {
    if nonces == [] then []
    else
      var before, last := Parsed(nonces[..|nonces| - 1]), nonces[|nonces| - 1];
      if last.Some? then before + [last.value % UINT64_LIMIT] else before
  }

  lemma {:induction false} ParsedPrefix(nonces: seq<Option<int>>, k: nat)
    requires k <= |nonces|
    ensures Parsed(nonces[..k]) <= Parsed(nonces)
  {
    if k < |nonces| {
      assert nonces[..|nonces| - 1][..k] == nonces[..k];
      ParsedPrefix(nonces[..|nonces| - 1], k);
    } else {
      assert nonces[..k] == nonces;
    }
  }

  lemma NothingAnnounced()
    ensures Announced([]) == []
  {
  }

  lemma {:induction false} AnnouncedPrefix(events: seq<ChainEvent>, k: nat)
    requires k <= |events|
    ensures Announced(events[..k]) <= Announced(events)
  {
    if k < |events| {
      assert events[..|events| - 1][..k] == events[..k];
      AnnouncedPrefix(events[..|events| - 1], k);
    } else {
      assert events[..k] == events;
    }
  }

  lemma {:induction false} ParsedStep(nonces: seq<Option<int>>, k: nat)
    requires k < |nonces|
    ensures Parsed(nonces[..k + 1]) == Parsed(nonces[..k]) + if nonces[k].Some? then [nonces[k].value % UINT64_LIMIT] else []
  {
    assert nonces[..k + 1][..k] == nonces[..k];
  }

  /** Nonces that are numbers are sent as they are, each in its place. */
  lemma {:induction false} ParsedAt(nonces: seq<Option<int>>)
    requires forall i | 0 <= i < |nonces| :: nonces[i].Some? && 0 <= nonces[i].value < UINT64_LIMIT
    ensures |Parsed(nonces)| == |nonces| && forall i | 0 <= i < |nonces| :: Parsed(nonces)[i] == nonces[i].value
  {
    if nonces != [] {
      ParsedAt(nonces[..|nonces| - 1]);
    }
  }

  lemma {:induction false} AnnouncedStep(events: seq<ChainEvent>, k: nat)
    requires k < |events|
    ensures Announced(events[..k + 1]) == Announced(events[..k]) + if events[k].NewBlock? then Parsed(events[k].nonces) else []
  {
    assert events[..k + 1][..k] == events[..k];
  }

  /** The listener goes on after this. */
  predicate Harmless(event: ChainEvent) {
    match event
    case NotABlock => true
    case NewBlock(nonces) => forall i | 0 <= i < |nonces| :: nonces[i].Some?
    case HealthCheck(lost) => !lost
    case StopSignal => false
  }

  /** What was sent up to the k-th nonce of event `at`, all events before having been harmless. */
  ghost predicate SentUpTo(events: seq<ChainEvent>, at: nat, k: nat, sent: seq<nat>) {
    && at < |events| && (forall i | 0 <= i < at :: Harmless(events[i]))
    && match events[at]
       case NewBlock(nonces) =>
         k < |nonces| && (forall i | 0 <= i < k :: nonces[i].Some?) && sent == Announced(events[..at]) + Parsed(nonces[..k])
       case _ => sent == Announced(events[..at])
  }

  lemma SentInOrder(events: seq<ChainEvent>, at: nat, k: nat, was: seq<nat>, heard: seq<nat>)
    requires at < |events| && forall i | 0 <= i < at :: Harmless(events[i])
    requires if events[at].NewBlock?
             then var nonces := events[at].nonces;
                  && k < |nonces| && (forall i | 0 <= i < k :: nonces[i].Some?)
                  && heard == was + Announced(events[..at]) + Parsed(nonces[..k])
             else heard == was + Announced(events[..at])
    ensures SentUpTo(events, at, k, heard[|was|..]) && was <= heard <= was + Announced(events)
  {
    hide Announced, Parsed, Harmless;
    AnnouncedPrefix(events, at);
    AnnouncedStep(events, at);
    AnnouncedPrefix(events, at + 1);
    if events[at].NewBlock? {
      ParsedPrefix(events[at].nonces, k);
      assert heard[|was|..] == Announced(events[..at]) + Parsed(events[at].nonces[..k]);
    } else {
      assert heard[|was|..] == Announced(events[..at]);
    }
  }

  /** What of the pipeline only this goroutine changes. */
  ghost predicate Untouched(g: Pipeline.Goroutine, p: Pipeline.Pipe, q: Pipeline.Pipe) {
    match g
    case Listener => q.heard == p.heard
    case CatchingUp => q.caughtUp == p.caughtUp
    case Processor => q.processing == p.processing && p.queue <= q.queue && q.done == p.done && q.forgotten == p.forgotten
    case Helper => true
  }

  lemma OthersLeaveIt(retries: nat, p: Pipeline.Pipe, step: Pipeline.Step, g: Pipeline.Goroutine)
    requires Pipeline.Enabled(retries, p, step) && Pipeline.Actor(step) != g
    ensures Untouched(g, p, Pipeline.Do(retries, p, step))
  {
  }

  ghost predicate AllSettled(p: Params, s: State, evmAddr: string, done: multiset<nat>) {
    forall n | n in done :: Settled(p, s, evmAddr, n)
  }

  lemma AllSettledStays(p: Params, s: State, s': State, evmAddr: string, done: multiset<nat>)
    requires Grows(s, s') && AllSettled(p, s, evmAddr, done)
    ensures AllSettled(p, s', evmAddr, done)
  {
    forall n | n in done ensures Settled(p, s', evmAddr, n) {
      SettledStays(p, s, s', evmAddr, n);
    }
  }

  /** Every latest nonce that a helper was told has been the length of the chain. */
  ghost predicate ToldTruly(s: State, dropped: seq<Pipeline.Drop>) {
    forall d | d in dropped && d.latest.Some? :: d.latest.value <= |s.chain|
  }

  lemma NextIsToldTruly(retries: nat, p: Pipeline.Pipe, step: Pipeline.Step, s: State)
    requires Pipeline.Enabled(retries, p, step) && ToldTruly(s, p.dropped)
    requires step.Decide? && step.latest.Some? ==> step.latest.value <= |s.chain|
    ensures ToldTruly(s, Pipeline.Do(retries, p, step).dropped)
  {
  }

  class Node {
    const orch: Orchestrator
    const retries: nat
    var pipe: Pipeline.Pipe

    /** The pipeline is balanced, what it calls done is settled, and what it drops was compared with the chain. */
    ghost predicate Valid()
      reads this, orch, orch.net
    {
      && orch.Valid()
      && Pipeline.Inv(retries, pipe)
      && AllSettled(orch.net.p, orch.net.s, orch.EvmAddress(), pipe.done)
      && ToldTruly(orch.net.s, pipe.dropped)
    }

    constructor (orch: Orchestrator, retries: nat)
      requires orch.Valid()
      ensures Valid() && this.orch == orch && this.retries == retries && pipe == Pipeline.EMPTY
    {
      this.orch := orch;
      this.retries := retries;
      pipe := Pipeline.EMPTY;
    }

    /**
     Every nonce that was announced or caught up is on its way, or settled, or more than the
     window behind the chain, or the latest nonce could not be had; and no two confirms were
     accepted for one subject.
     */
    lemma EveryNonceIsAccountedFor(n: nat)
      requires Valid() && retries > 0 && (n in pipe.heard || n in pipe.caughtUp)
      ensures || n in Pipeline.Outstanding(pipe)
              || Settled(orch.net.p, orch.net.s, orch.EvmAddress(), n)
              || exists d :: d in pipe.dropped && d.nonce == n
                   && (d.latest.None? || n + Pipeline.REQUEUE_WINDOW < d.latest.value <= |orch.net.s.chain|)
      ensures forall i, j | 0 <= i < j < |orch.published| :: orch.published[i].subject != orch.published[j].subject
    {
      assert n in Pipeline.Enqueued(pipe);
      if n in Pipeline.Dropped(pipe.dropped) {
        Pipeline.DroppedOnes(pipe.dropped, n);
      }
    }

    /** Steps of everybody but the processor and `except`. */
    method Interleave(except: Pipeline.Goroutine)
      requires Valid()
      modifies `pipe, orch.net
      ensures Valid() && Grows(old(orch.net.s), orch.net.s) && Pipeline.Grows(old(pipe), pipe)
      ensures Untouched(except, old(pipe), pipe) && Untouched(Pipeline.Processor, old(pipe), pipe)
    {
      hide Inv, Params.Sound, InOrder, AllSettled, ToldTruly, Pipeline.Inv;
      var steps: seq<Pipeline.Step> := *;
      for i := 0 to |steps|
        invariant Valid() && Grows(old(orch.net.s), orch.net.s) && Pipeline.Grows(old(pipe), pipe)
        invariant Untouched(except, old(pipe), pipe) && Untouched(Pipeline.Processor, old(pipe), pipe)
      {
        var step := steps[i];
        if step.Decide? {
          var latest := AskForLatest();
          step := Pipeline.Decide(step.nonce, latest);
        }
        Move(step, except);
      }
    }

    /** One such step, if it can be taken. */
    method Move(step: Pipeline.Step, except: Pipeline.Goroutine)
      requires Valid()
      requires step.Decide? && step.latest.Some? ==> step.latest.value <= |orch.net.s.chain|
      modifies `pipe
      ensures Valid() && Pipeline.Grows(old(pipe), pipe)
      ensures Untouched(except, old(pipe), pipe) && Untouched(Pipeline.Processor, old(pipe), pipe)
    {
      hide Inv, Params.Sound, InOrder, ToldTruly, Pipeline.Inv, Pipeline.Do;
      if Pipeline.Enabled(retries, pipe, step) && Pipeline.Actor(step) !in {Pipeline.Processor, except} {
        Pipeline.StepKeepsInv(retries, pipe, step);
        NextIsToldTruly(retries, pipe, step, orch.net.s);
        OthersLeaveIt(retries, pipe, step, except);
        OthersLeaveIt(retries, pipe, step, Pipeline.Processor);
        pipe := Pipeline.Do(retries, pipe, step);
      }
    }

    /** The latest nonce, as the node has it. */
    method AskForLatest() returns (latest: Option<nat>)
      requires Valid()
      modifies orch.net
      ensures Valid() && Grows(old(orch.net.s), orch.net.s)
      ensures latest.Some? ==> latest.value == |orch.net.s.chain| < UINT64_LIMIT
      ensures LatestNonceQuery in orch.net.sure ==> latest.Some?
    {
      hide Params.Sound, InOrder, Settled, AllSettled, Pipeline.Inv, Inv;
      ghost var was := orch.net.s;
      latest := orch.net.LatestAttestationNonce();
      orch.net.ChainFits();
      InOrderStays(orch.net.p, was, orch.net.s, orch.EvmAddress(), orch.published);
      AllSettledStays(orch.net.p, was, orch.net.s, orch.EvmAddress(), pipe.done);
    }

    /** Process of this nonce has what it needs to succeed. */
    predicate Doable(nonce: nat)
      reads orch.net
    {
      && {AttestationQuery, CommitmentQuery, DhtConfirms, DhtPut} <= orch.net.sure
      && 1 <= nonce <= |orch.net.s.chain|
      && (nonce == 1 || CanSign(orch.net.p, orch.keyStore, orch.net.s.chain[nonce - 1]))
    }

    /** One call of Process. */
    method Attempt(nonce: nat) returns (ok: bool)
      requires Valid()
      modifies orch, orch.net
      ensures Valid() && Grows(old(orch.net.s), orch.net.s)
      ensures orch.asked == old(orch.asked) + [nonce]
      ensures ok ==> Settled(orch.net.p, orch.net.s, orch.EvmAddress(), nonce)
      ensures old(Doable(nonce)) ==> ok
    {
      hide Inv, Params.Sound, InOrder, Settled, Pipeline.Inv, CanSign;
      ghost var was := orch.net.s;
      var err := orch.Process(nonce);
      AllSettledStays(orch.net.p, was, orch.net.s, orch.EvmAddress(), pipe.done);
      return err.None?;
    }

    /** Process was called with this nonce until it succeeded, or once and then for every retry. */
    ghost predicate Tried(before: seq<nat>, after: seq<nat>, nonce: nat, ok: bool) {
      && before < after && (forall i | |before| <= i < |after| :: after[i] == nonce)
      && if ok then |after| - |before| <= 1 + retries else |after| - |before| == 1 + retries
    }

    /** Process with its retries; a nonce that fails them all is left to MaybeRequeue, and no other. */
    method HandleNonce(nonce: nat, except: Pipeline.Goroutine)
      requires Valid() && pipe.processing == Some(nonce)
      modifies `pipe, orch, orch.net
      ensures Valid() && Grows(old(orch.net.s), orch.net.s) && Pipeline.Grows(old(pipe), pipe)
      ensures pipe.processing.None? && (!except.Processor? ==> Untouched(except, old(pipe), pipe))
      ensures old(pipe).queue <= pipe.queue
      ensures Tried(old(orch.asked), orch.asked, nonce, pipe.done[nonce] > old(pipe).done[nonce])
      ensures pipe.done[nonce] <= old(pipe).done[nonce] ==>
                if retries == 0 then pipe.forgotten[nonce] > old(pipe).forgotten[nonce] else nonce in pipe.deciding
      ensures old(Doable(nonce)) ==> pipe.done[nonce] > old(pipe).done[nonce]
    {
      hide Inv, Params.Sound, InOrder, Settled, ToldTruly, Pipeline.Inv, CanSign;
      var ok := Attempt(nonce);
      var calls := [ok];
      while !ok && |calls| <= retries
        invariant Valid() && Grows(old(orch.net.s), orch.net.s) && Pipeline.Grows(old(pipe), pipe)
        invariant pipe.processing == Some(nonce) && Untouched(except, old(pipe), pipe)
        invariant Untouched(Pipeline.Processor, old(pipe), pipe)
        invariant old(Doable(nonce)) ==> ok
        invariant |orch.asked| == |old(orch.asked)| + |calls| && old(orch.asked) <= orch.asked
        invariant forall i | |old(orch.asked)| <= i < |orch.asked| :: orch.asked[i] == nonce
        invariant 1 <= |calls| <= 1 + retries && calls[|calls| - 1] == ok
        invariant forall i | 0 <= i < |calls| - 1 :: !calls[i]
        invariant ok ==> Settled(orch.net.p, orch.net.s, orch.EvmAddress(), nonce)
        decreases retries - |calls|
      {
        Interleave(except);
        ok := Attempt(nonce);
        calls := calls + [ok];
      }
      Conclude(nonce, calls, except);
    }

    /** What becomes of the nonce after the last call. */
    method Conclude(nonce: nat, calls: seq<bool>, except: Pipeline.Goroutine)
      requires Valid() && pipe.processing == Some(nonce) && Pipeline.ProperCalls(retries, calls)
      requires calls[|calls| - 1] ==> Settled(orch.net.p, orch.net.s, orch.EvmAddress(), nonce)
      modifies `pipe
      ensures Valid() && Pipeline.Grows(old(pipe), pipe)
      ensures pipe.processing.None? && (!except.Processor? ==> Untouched(except, old(pipe), pipe))
      ensures pipe == Pipeline.Finished(retries, old(pipe), nonce, calls[|calls| - 1])
    {
      hide Inv, Params.Sound, InOrder, Settled, Pipeline.Inv;
      Pipeline.StepKeepsInv(retries, pipe, Pipeline.Finish(calls));
      pipe := Pipeline.Do(retries, pipe, Pipeline.Finish(calls));
    }

    /**
     One turn of ProcessNonces: its ticker fires, or it receives a nonce if there is one. `found`
     is what it finds when the others have gone on.
     */
    method TakeTurn(except: Pipeline.Goroutine, ticked: bool) returns (ghost found: Pipeline.Pipe)
      requires Valid() && pipe.processing.None?
      modifies `pipe, orch, orch.net
      ensures Valid() && Grows(old(orch.net.s), orch.net.s) && Pipeline.Grows(old(pipe), pipe)
      ensures pipe.processing.None? && (!except.Processor? ==> Untouched(except, old(pipe), pipe))
      ensures old(pipe).queue <= found.queue && found.processing.None? && found.done == old(pipe).done
      ensures ticked ==> pipe == Pipeline.Do(retries, found, Pipeline.Tick)
      ensures !ticked && found.queue == [] ==> pipe == found
      ensures !ticked && found.queue != [] ==> found.queue[1..] <= pipe.queue
      ensures !ticked && found.queue != [] ==>
                var n := found.queue[0];
                && (pipe.done[n] <= found.done[n] ==>
                      if retries == 0 then pipe.forgotten[n] > found.forgotten[n] else n in pipe.deciding)
                && (old(Doable(n)) ==> n in pipe.done)
    {
      hide Inv, Params.Sound, InOrder, Settled, AllSettled, Pipeline.Inv, CanSign;
      Interleave(except);
      found := pipe;
      if ticked {
        Pipeline.StepKeepsInv(retries, pipe, Pipeline.Tick);
        pipe := Pipeline.Do(retries, pipe, Pipeline.Tick);
      } else if pipe.queue != [] {
        Pipeline.StepKeepsInv(retries, pipe, Pipeline.Receive);
        pipe := Pipeline.Do(retries, pipe, Pipeline.Receive);
        HandleNonce(pipe.processing.value, except);
      }
    }

    /** How many of the turns receive rather than tick. */
    static function Receives(ticks: seq<bool>): nat {
      if ticks == [] then 0 else Receives(ticks[..|ticks| - 1]) + if ticks[|ticks| - 1] then 0 else 1
    }

    /**
     ProcessNonces, until the context ends; `ticks` says of each turn which of its cases is
     chosen. With enough turns that receive, all that was queued and is doable gets done.
     */
    method ProcessNonces(ticks: seq<bool>)
      requires Valid() && pipe.processing.None?
      modifies `pipe, orch, orch.net
      ensures Valid() && Grows(old(orch.net.s), orch.net.s) && Pipeline.Grows(old(pipe), pipe)
      ensures pipe.processing.None?
      ensures Receives(ticks) >= |old(pipe).queue| ==>
                forall n | n in old(pipe).queue && old(Doable(n)) :: n in pipe.done
    {
      hide Inv, Params.Sound, InOrder, Settled, AllSettled, Pipeline.Inv, CanSign;
      ghost var queued, taken := pipe.queue, 0;
      for turn := 0 to |ticks|
        invariant Valid() && Grows(old(orch.net.s), orch.net.s) && Pipeline.Grows(old(pipe), pipe)
        invariant pipe.processing.None?
        invariant 0 <= taken <= |queued| && queued[taken..] <= pipe.queue
        invariant taken == |queued| || taken >= Receives(ticks[..turn])
        invariant forall i | 0 <= i < taken && old(Doable(queued[i])) :: queued[i] in pipe.done
      {
        assert ticks[..turn + 1][..turn] == ticks[..turn];
        ghost var before, here := pipe, orch.net.s;
        ghost var found := TakeTurn(Pipeline.Processor, ticks[turn]);
        if !ticks[turn] && taken < |queued| {
          assert before.queue[0] == queued[taken] && found.queue[0] == before.queue[0];
          assert queued[taken + 1..] == queued[taken..][1..] <= found.queue[1..];
          taken := taken + 1;
        }
      }
      assert ticks[..|ticks|] == ticks;
    }

    /** Everybody but the listener, or everybody but the catch-up. */
    method Others(except: Pipeline.Goroutine)
      requires Valid() && pipe.processing.None? && !except.Processor?
      modifies `pipe, orch, orch.net
      ensures Valid() && Grows(old(orch.net.s), orch.net.s) && Pipeline.Grows(old(pipe), pipe)
      ensures pipe.processing.None? && Untouched(except, old(pipe), pipe)
    {
      hide Inv, Params.Sound, InOrder, Settled, AllSettled, Pipeline.Inv, CanSign;
      var ticks: seq<bool> := *;
      for turn := 0 to |ticks|
        invariant Valid() && Grows(old(orch.net.s), orch.net.s) && Pipeline.Grows(old(pipe), pipe)
        invariant pipe.processing.None? && Untouched(except, old(pipe), pipe)
      {
        ghost var found := TakeTurn(except, ticks[turn]);
      }
    }

    /**
     A send by the catch-up or the listener, unless the context has ended; without room it
     blocks, and then only the end of the context helps.
     */
    method Send(step: Pipeline.Step, ended: bool) returns (sent: bool)
      requires Valid() && pipe.processing.None? && (step.Hear? || step.CatchUp?)
      modifies `pipe, orch, orch.net
      ensures Valid() && Grows(old(orch.net.s), orch.net.s) && Pipeline.Grows(old(pipe), pipe)
      ensures pipe.processing.None?
      ensures step.CatchUp? ==> pipe.caughtUp == old(pipe).caughtUp + if sent then [step.nonce] else []
      ensures step.Hear? ==> pipe.heard == old(pipe).heard + if sent then [step.nonce] else []
      ensures sent ==> !ended && pipe.queue != [] && pipe.queue[|pipe.queue| - 1] == step.nonce
      ensures !sent ==> ended || |pipe.queue| == Pipeline.QUEUE_SIZE
    {
      hide Inv, Params.Sound, InOrder, Settled, AllSettled;
      Others(Pipeline.Actor(step));
      if ended || |pipe.queue| >= Pipeline.QUEUE_SIZE {
        return false;
      }
      Pipeline.StepKeepsInv(retries, pipe, step);
      pipe := Pipeline.Do(retries, pipe, step);
      return true;
    }

    /**
     EnqueueMissingEvents. The earliest nonce is whatever the node says it has not pruned. It
     sends the countdown from the latest nonce, in order and without omissions; all of it, unless
     a query fails, or the context ends after `patience` sends, or there is no room.
     */
    method EnqueueMissingEvents(patience: nat) returns (end: Ended, ghost latest: nat, ghost earliest: nat, ghost sent: nat)
      requires Valid() && pipe.processing.None?
      modifies `pipe, orch, orch.net
      ensures Valid() && Grows(old(orch.net.s), orch.net.s) && Pipeline.Grows(old(pipe), pipe)
      ensures latest < UINT64_LIMIT && earliest < UINT64_LIMIT && sent <= Pipeline.MissingCount(latest, earliest)
      ensures pipe.caughtUp == old(pipe).caughtUp + Pipeline.Countdown(latest, sent)
      ensures end == Completed ==> sent == Pipeline.MissingCount(latest, earliest)
      ensures end != Failed ==> latest >= |old(orch.net.s).chain|
      ensures end == Interrupted ==> sent == patience || |pipe.queue| == Pipeline.QUEUE_SIZE
      ensures {LatestNonceQuery, EarliestNonceQuery} <= orch.net.sure ==> end != Failed
    {
      hide Inv, Params.Sound, InOrder, Settled, AllSettled, Pipeline.Inv, Pipeline.MissingCount, Pipeline.Countdown;
      latest, earliest, sent := 0, 0, 0;
      Pipeline.CountdownStep(0, 0);
      var latestNonce, earliestNonce := AskForBounds();
      if latestNonce.None? || earliestNonce.None? {
        return Failed, latest, earliest, sent;
      }
      latest, earliest := latestNonce.value, earliestNonce.value;
      end, sent := CountDown(latestNonce.value, Pipeline.MissingCount(latestNonce.value, earliestNonce.value), patience);
    }

    method CountDown(latest: nat, count: nat, patience: nat) returns (end: Ended, ghost sent: nat)
      requires Valid() && pipe.processing.None?
      modifies `pipe, orch, orch.net
      ensures Valid() && Grows(old(orch.net.s), orch.net.s) && Pipeline.Grows(old(pipe), pipe)
      ensures sent <= count && (end == Completed ==> sent == count) && end != Failed
      ensures end == Interrupted ==> sent == patience || |pipe.queue| == Pipeline.QUEUE_SIZE
      ensures pipe.caughtUp == old(pipe).caughtUp + Pipeline.Countdown(latest, sent)
    {
      hide Inv, Params.Sound, InOrder, Settled, AllSettled, Pipeline.Inv, Pipeline.Countdown;
      Pipeline.CountdownStep(latest, 0);
      sent := 0;
      for i := 0 to count
        invariant Valid() && Grows(old(orch.net.s), orch.net.s) && Pipeline.Grows(old(pipe), pipe)
        invariant pipe.processing.None? && sent == i <= patience
        invariant pipe.caughtUp == old(pipe).caughtUp + Pipeline.Countdown(latest, i)
      {
        Pipeline.CountdownStep(latest, i);
        var ok := Send(Pipeline.CatchUp((latest - i) % UINT64_LIMIT), i == patience);
        if !ok {
          return Interrupted, sent;
        }
        sent := sent + 1;
      }
      return Completed, sent;
    }

    /** The two queries at the start of the catch-up. */
    method AskForBounds() returns (latest: Option<nat>, earliest: Option<nat>)
      requires Valid()
      modifies orch.net
      ensures Valid() && Grows(old(orch.net.s), orch.net.s)
      ensures latest.Some? ==> |old(orch.net.s).chain| <= latest.value < UINT64_LIMIT
      ensures earliest.Some? ==> earliest.value < UINT64_LIMIT
      ensures LatestNonceQuery in orch.net.sure ==> latest.Some?
      ensures EarliestNonceQuery in orch.net.sure ==> earliest.Some?
    {
      hide Params.Sound, InOrder, Settled, AllSettled, Pipeline.Inv, Inv;
      latest := AskForLatest();
      var value: int := *;
      var failed: bool := *;
      earliest := if failed && EarliestNonceQuery !in orch.net.sure then None else Some(value % UINT64_LIMIT);
    }

    /**
     StartNewEventsListener, given what it meets. It sends the announced nonces in order, and
     all of them, unless it is stopped, loses the node for good, meets what is no number, or
     cannot send, because the context has ended after `patience` sends or there is no room.
     Then `at` is the event at which it ends, and `k` the nonce of a block.
     */
    method StartNewEventsListener(events: seq<ChainEvent>, patience: nat) returns (end: Ended, ghost at: nat, ghost k: nat)
      requires Valid() && pipe.processing.None?
      modifies `pipe, orch, orch.net
      ensures Valid() && Grows(old(orch.net.s), orch.net.s) && Pipeline.Grows(old(pipe), pipe)
      ensures old(pipe).heard <= pipe.heard <= old(pipe).heard + Announced(events)
      ensures end == Completed ==> pipe.heard == old(pipe).heard + Announced(events) && forall e | e in events :: Harmless(e)
      ensures end != Completed ==> SentUpTo(events, at, k, pipe.heard[|old(pipe).heard|..])
      ensures end == Failed ==> events[at] == HealthCheck(true) || (events[at].NewBlock? && events[at].nonces[k].None?)
      ensures end == Interrupted ==>
                || events[at] == StopSignal
                || (&& events[at].NewBlock? && events[at].nonces[k].Some?
                    && (|pipe.heard| - |old(pipe).heard| == patience || |pipe.queue| == Pipeline.QUEUE_SIZE))
    {
      hide Inv, Params.Sound, InOrder, Settled, AllSettled, ToldTruly, Pipeline.Inv, Announced, Parsed, SentUpTo;
      ghost var was := pipe.heard;
      var sends := 0;
      at, k := 0, 0;
      NothingAnnounced();
      for i := 0 to |events|
        invariant Valid() && Grows(old(orch.net.s), orch.net.s) && Pipeline.Grows(old(pipe), pipe)
        invariant pipe.processing.None? && pipe.heard == was + Announced(events[..i])
        invariant forall j | 0 <= j < i :: Harmless(events[j])
        invariant |Announced(events[..i])| == sends <= patience
      {
        AnnouncedStep(events, i);
        at := i;
        match events[i] {
          case NotABlock =>
          case StopSignal =>
            SentInOrder(events, at, k, was, pipe.heard);
            return Interrupted, at, k;
          case HealthCheck(lost) =>
            if lost {
              SentInOrder(events, at, k, was, pipe.heard);
              return Failed, at, k;
            }
          case NewBlock(nonces) =>
            end, k := SendAll(nonces, patience - sends);
            if end != Completed {
              SentInOrder(events, at, k, was, pipe.heard);
              return;
            }
            assert nonces[..|nonces|] == nonces;
            sends := sends + |nonces|;
        }
      }
      assert events[..|events|] == events;
      return Completed, at, k;
    }

    /** The nonces of one block; `k` is how many of them were sent. */
    method SendAll(nonces: seq<Option<int>>, patience: nat) returns (end: Ended, ghost k: nat)
      requires Valid() && pipe.processing.None?
      modifies `pipe, orch, orch.net
      ensures Valid() && Grows(old(orch.net.s), orch.net.s) && Pipeline.Grows(old(pipe), pipe)
      ensures pipe.processing.None?
      ensures k <= |nonces| && (forall i | 0 <= i < k :: nonces[i].Some?)
      ensures pipe.heard == old(pipe).heard + Parsed(nonces[..k]) && |Parsed(nonces[..k])| == k <= patience
      ensures end == Completed <==> k == |nonces|
      ensures end == Failed ==> nonces[k].None?
      ensures end == Interrupted ==> nonces[k].Some? && (k == patience || |pipe.queue| == Pipeline.QUEUE_SIZE)
    {
      hide Inv, Params.Sound, InOrder, Settled, AllSettled, Pipeline.Inv;
      ghost var was := pipe.heard;
      k := 0;
      for i := 0 to |nonces|
        invariant Valid() && Grows(old(orch.net.s), orch.net.s) && Pipeline.Grows(old(pipe), pipe)
        invariant k == i && pipe.processing.None? && pipe.heard == was + Parsed(nonces[..i])
        invariant |Parsed(nonces[..i])| == i <= patience
        invariant forall j | 0 <= j < i :: nonces[j].Some?
      {
        ParsedStep(nonces, i);
        if nonces[i].None? {
          return Failed, k;
        }
        var ok := Send(Pipeline.Hear(nonces[i].value % UINT64_LIMIT), i == patience);
        if !ok {
          return Interrupted, k;
        }
        k := k + 1;
      }
      return Completed, k;
    }
  }
}
