/** The Bus object itself, proved against the protocol of EventBus: each method is what its goroutine does when no other
    moves in between, and states what its caller may rely on. */
module Bus {
  import opened Tallies
  import opened Runs
  import P = EventBus

  // ---- What a worker does ----

  /** safeInvoke for the worker's next handler. */
  function Called(s: P.State, w: nat, panics: bool): P.State {
    P.Recover(P.Invoke(s, w, panics), w)
  }

  function AfterCall(s: P.State, w: nat): P.State
    requires P.CanInvoke(s, w) && |s.pool.handled| == s.pool.handlers
  {
    var e, h := s.pool.workers[w].e, s.pool.workers[w].next;
    s.(pool := s.pool.(workers := s.pool.workers[w := P.Handling(e, h + 1)],
                       handled := s.pool.handled[h := s.pool.handled[h] + multiset{e}]))
  }

  /** A handler that panics leaves the same state as one that returns: it has had the event, the worker goes on. */
  lemma PanicsAreIsolated(s: P.State, w: nat, panics: bool)
    requires P.CanInvoke(s, w) && |s.pool.handled| == s.pool.handlers
    ensures Called(s, w, panics) == AfterCall(s, w)
  {
  }

  /** The state after the worker has called the first n handlers. */
  function Invoked(s: P.State, w: nat, n: nat): P.State {
    if n == 0 then s else Called(Invoked(s, w, n - 1), w, false)
  }

  function Dispatched(s: P.State, w: nat): P.State {
    P.Finish(Invoked(s, w, s.pool.handlers), w)
  }

  predicate JustReceived(s: P.State, w: nat) {
    && w < |s.pool.workers| && s.pool.workers[w].Handling? && s.pool.workers[w].next == 0
    && |s.pool.handled| == s.pool.handlers
  }

  ghost predicate Served(s: P.State, t: P.State, w: nat, n: nat)
    requires JustReceived(s, w)
  {
    var e := s.pool.workers[w].e;
    && t == s.(pool := s.pool.(workers := s.pool.workers[w := P.Handling(e, n)], handled := t.pool.handled))
    && |t.pool.handled| == s.pool.handlers
    && forall k | 0 <= k < s.pool.handlers ::
         t.pool.handled[k] == s.pool.handled[k] + (if k < n then multiset{e} else multiset{})
  }

  lemma CallServes(s: P.State, t: P.State, w: nat, n: nat)
    requires JustReceived(s, w) && Served(s, t, w, n) && n < s.pool.handlers
    ensures P.CanInvoke(t, w) && Served(s, AfterCall(t, w), w, n + 1)
  {
  }

  /** Each of the first n handlers has had the event once more, and nothing else has moved. */
  lemma {:induction false} InvokedServes(s: P.State, w: nat, n: nat)
    requires JustReceived(s, w) && n <= s.pool.handlers
    ensures Served(s, Invoked(s, w, n), w, n)
  {
    if n > 0 {
      InvokedServes(s, w, n - 1);
      CallServes(s, Invoked(s, w, n - 1), w, n - 1);
      PanicsAreIsolated(Invoked(s, w, n - 1), w, false);
    }
  }

  lemma ServedIsDispatched(s: P.State, t: P.State, w: nat)
    requires JustReceived(s, w) && Served(s, t, w, s.pool.handlers)
    ensures Dispatched(s, w) == t.(pool := t.pool.(workers := s.pool.workers[w := P.Receiving],
                                                  dispatched := s.pool.dispatched + multiset{s.pool.workers[w].e}))
  {
    InvokedServes(s, w, s.pool.handlers);
    assert t.pool.handled == Invoked(s, w, s.pool.handlers).pool.handled;
    assert t == Invoked(s, w, s.pool.handlers);
  }

  lemma CalledReachable(s: P.State, w: nat, panics: bool)
    requires P.Reachable(s)
    ensures P.Reachable(Called(s, w, panics))
  {
    P.ReachableStep(s, P.Invoking(w, panics));
    P.ReachableStep(P.Invoke(s, w, panics), P.Recovering(w));
  }

  lemma {:induction false} InvokedReachable(s: P.State, w: nat, n: nat)
    requires P.Reachable(s)
    ensures P.Reachable(Invoked(s, w, n))
  {
    if n > 0 {
      InvokedReachable(s, w, n - 1);
      CalledReachable(Invoked(s, w, n - 1), w, false);
    }
  }

  /** One iteration of the range loop, and the first n. */
  function Iterated(s: P.State, w: nat): P.State {
    Dispatched(P.Receive(s, w), w)
  }

  function Ranged(s: P.State, w: nat, n: nat): P.State {
    if n == 0 then s else Iterated(Ranged(s, w, n - 1), w)
  }

  /** From s0 to s a worker has taken the first n queued events through every handler; nothing else has moved. */
  ghost predicate WorkedOff(s0: P.State, s: P.State, n: nat) {
    && n <= |s0.chan.queue| && |s0.pool.handled| == s0.pool.handlers == |s.pool.handled|
    && s == s0.(chan := s0.chan.(queue := s0.chan.queue[n..], received := s0.chan.received + s0.chan.queue[..n]),
                pool := s0.pool.(dispatched := s0.pool.dispatched + multiset(s0.chan.queue[..n]),
                  handled := s.pool.handled))
    && forall k | 0 <= k < s0.pool.handlers :: s.pool.handled[k] == s0.pool.handled[k] + multiset(s0.chan.queue[..n])
  }

  /** One trip round the worker's loop. */
  lemma IterationServes(s: P.State, w: nat)
    requires P.CanReceive(s, w) && |s.pool.handled| == s.pool.handlers
    ensures JustReceived(P.Receive(s, w), w)
    ensures WorkedOff(s, Iterated(s, w), 1)
  {
    var t := P.Receive(s, w);
    InvokedServes(t, w, t.pool.handlers);
    assert s.chan.queue[..1] == [s.chan.queue[0]];
    assert s.pool.workers[w := P.Receiving] == s.pool.workers;
  }

  lemma WorkedOffJoins(s0: P.State, s: P.State, t: P.State, n: nat)
    requires WorkedOff(s0, s, n) && WorkedOff(s, t, 1)
    ensures WorkedOff(s0, t, n + 1)
  {
    var q := s0.chan.queue;
    assert q[n..][..1] == [q[n]] && q[n..][1..] == q[n + 1..] && q[..n + 1] == q[..n] + [q[n]];
    assert s0.chan.received + q[..n] + [q[n]] == s0.chan.received + q[..n + 1];
  }

  lemma WorkedOffNone(s: P.State)
    requires |s.pool.handled| == s.pool.handlers
    ensures WorkedOff(s, s, 0)
  {
    assert s.chan.queue[0..] == s.chan.queue && s.chan.received + s.chan.queue[..0] == s.chan.received;
  }

  lemma WorkedOffOneWay(s0: P.State, s: P.State, t: P.State, n: nat)
    requires WorkedOff(s0, s, n) && WorkedOff(s0, t, n)
    ensures s == t
  {
    assert s.pool.handled == t.pool.handled;
  }

  /** The range loop, as the protocol's own steps. */
  lemma {:induction false} RangedServes(s: P.State, w: nat, n: nat)
    requires w < |s.pool.workers| && s.pool.workers[w].Receiving?
    requires n <= |s.chan.queue| && |s.pool.handled| == s.pool.handlers
    ensures WorkedOff(s, Ranged(s, w, n), n)
  {
    if n == 0 {
      WorkedOffNone(s);
    } else {
      var t := Ranged(s, w, n - 1);
      RangedServes(s, w, n - 1);
      IterationServes(t, w);
      WorkedOffJoins(s, t, Iterated(t, w), n - 1);
    }
  }

  lemma {:induction false} RangedReachable(s: P.State, w: nat, n: nat)
    requires P.Reachable(s)
    ensures P.Reachable(Ranged(s, w, n))
  {
    if n > 0 {
      RangedReachable(s, w, n - 1);
      IterationReachable(Ranged(s, w, n - 1), w);
    }
  }

  lemma IterationReachable(s: P.State, w: nat)
    requires P.Reachable(s)
    ensures P.Reachable(Iterated(s, w))
  {
    var t := P.Receive(s, w);
    P.ReachableStep(s, P.Taking(w));
    InvokedReachable(t, w, t.pool.handlers);
    P.ReachableStep(Invoked(t, w, t.pool.handlers), P.Finishing(w));
  }

  predicate OnlyWorkerLeft(ws: seq<P.Worker>, w: nat) {
    forall v | 0 <= v < |ws| && v != w :: ws[v].Exited?
  }

  /** A worker leaves; the last one to leave leaves a drained bus. */
  lemma LastExitDrains(s: P.State, w: nat)
    requires P.Reachable(s) && P.CanExit(s, w) && OnlyWorkerLeft(s.pool.workers, w)
    ensures P.Drained(P.Exit(s, w)) && P.Exit(s, w).pool.wg == 0
  {
    P.ReachableStep(s, P.Exiting(w));
    LastGone(P.Exit(s, w));
  }

  lemma LastGone(s: P.State)
    requires P.Reachable(s) && s.pool.workers != [] && forall v | 0 <= v < |s.pool.workers| :: s.pool.workers[v].Exited?
    ensures P.Drained(s) && s.pool.wg == 0
  {
    P.ReachableInv(s);
    P.NoneAlive(s);
    P.EmptyWaitGroup(s);
  }

  /** The whole of work(), once the queue is closed. */
  lemma WorkEnds(s0: P.State, s: P.State, w: nat)
    requires P.Reachable(s0) && s0.chan.sealed && w < |s0.pool.workers| && s0.pool.workers[w].Receiving?
    requires WorkedOff(s0, s, |s0.chan.queue|)
    ensures P.Reachable(P.Exit(s, w))
    ensures OnlyWorkerLeft(s.pool.workers, w) ==> P.Drained(P.Exit(s, w)) && P.Exit(s, w).pool.wg == 0
  {
    var n := |s0.chan.queue|;
    ReachableIsSane(s0);
    RangedServes(s0, w, n);
    RangedReachable(s0, w, n);
    WorkedOffOneWay(s0, s, Ranged(s0, w, n), n);
    P.ReachableStep(s, P.Exiting(w));
    if OnlyWorkerLeft(s.pool.workers, w) {
      LastExitDrains(s, w);
    }
  }

  // ---- What a call does when nobody comes between ----

  /** What a method relies on in a bus somebody has been using. */
  predicate Sane(s: P.State) {
    && |s.pool.handled| == s.pool.handlers
    && s.chan.accepted == s.chan.received + s.chan.queue
    && (s.chan.sealed ==> s.door.closed)
    && (s.door.once.Unused? ==> !s.chan.sealed)
    && (s.door.once.Used? ==> s.chan.sealed)
    && (!s.pool.started ==>
      s.pool.workers == [] && s.pool.unadded == 0 && s.pool.wg == 0 && s.pool.dispatched == multiset{})
  }

  lemma ReachableIsSane(s: P.State)
    requires P.Reachable(s)
    ensures Sane(s) && !s.door.crashed
  {
    P.ReachableInv(s);
    if !s.pool.started {
      assert s.pool.wg == Sum(s.pool.workers, P.Alive) == 0;
      assert s.pool.dispatched + Gather(s.pool.workers, P.Held) == multiset{};
    }
  }

  /** Publish alone, step by step, and as one change. */
  function Published(s: P.State, e: P.Event): P.State {
    var p := |s.calls.publishers|;
    P.Count(P.Select(P.LoadClosed(P.Publish(s, e), p), p), p)
  }

  function AfterPublish(s: P.State, e: P.Event): P.State {
    var ok := !s.door.closed && |s.chan.queue| < s.chan.capacity;
    var sent := if ok then [e] else [];
    s.(chan := s.chan.(queue := s.chan.queue + sent, accepted := s.chan.accepted + sent),
       calls := P.Calls(s.calls.publishers + [P.Returned(e, ok)],
                        s.calls.published + (if ok then 1 else 0), s.calls.dropped + (if ok then 0 else 1)))
  }

  lemma PublishSteps(s: P.State, e: P.Event)
    requires Sane(s)
    ensures Published(s, e) == AfterPublish(s, e)
  {
    assert s.chan.queue + [] == s.chan.queue && s.chan.accepted + [] == s.chan.accepted;
    assert Published(s, e).calls.publishers == AfterPublish(s, e).calls.publishers;
  }

  /** Shutdown alone: closeOnce.Do, then the answer. */
  function ShutDown(s: P.State): P.State {
    var c := |s.door.closers|;
    P.CloseQueue(P.StoreClosed(P.EnterOnce(P.Shutdown(s), c), c), c)
  }

  function Answered(s: P.State, drained: bool): P.State {
    var c := |s.door.closers|;
    if drained then P.Answer(P.Observe(ShutDown(s), c), c) else P.Expire(ShutDown(s), c)
  }

  function AfterShutdown(s: P.State, drained: bool): P.State {
    s.(chan := s.chan.(sealed := true),
      door := P.Door(true, P.Used, s.door.closers + [P.Finished(drained)], s.door.crashed))
  }

  lemma ShutdownSteps(s: P.State, drained: bool)
    requires Sane(s) && !s.door.once.Running? && (drained ==> s.pool.wg == 0)
    ensures Answered(s, drained) == AfterShutdown(s, drained)
  {
    assert ShutDown(s).door.closers == s.door.closers + [P.Waiting];
    assert Answered(s, drained).door.closers == s.door.closers + [P.Finished(drained)];
  }

  lemma EnteredReachable(s: P.State)
    requires P.Reachable(s)
    ensures P.Reachable(P.EnterOnce(P.Shutdown(s), |s.door.closers|))
  {
    P.ReachableStep(s, P.ShuttingDown);
    P.ReachableStep(P.Shutdown(s), P.EnteringOnce(|s.door.closers|));
  }

  lemma ClosedReachable(s: P.State, c: nat)
    requires P.Reachable(s)
    ensures P.Reachable(P.CloseQueue(P.StoreClosed(s, c), c))
  {
    P.ReachableStep(s, P.StoringClosed(c));
    P.ReachableStep(P.StoreClosed(s, c), P.ClosingQueue(c));
  }

  lemma WaitedReachable(s: P.State, c: nat)
    requires P.Reachable(s)
    ensures P.Reachable(P.Answer(P.Observe(s, c), c))
  {
    P.ReachableStep(s, P.Observing(c));
    P.ReachableStep(P.Observe(s, c), P.Answering(c));
  }

  lemma ExpiredReachable(s: P.State, c: nat)
    requires P.Reachable(s)
    ensures P.Reachable(P.Expire(s, c))
  {
    P.ReachableStep(s, P.Expiring(c));
  }

  lemma ShutDownReachable(s: P.State)
    requires P.Reachable(s)
    ensures P.Reachable(ShutDown(s))
  {
    var c := |s.door.closers|;
    EnteredReachable(s);
    ClosedReachable(P.EnterOnce(P.Shutdown(s), c), c);
  }

  lemma AnsweredReachable(s: P.State, drained: bool)
    requires P.Reachable(s)
    ensures P.Reachable(Answered(s, drained))
  {
    ShutDownReachable(s);
    WaitedReachable(ShutDown(s), |s.door.closers|);
    ExpiredReachable(ShutDown(s), |s.door.closers|);
  }

  lemma AnswerIsRightIff(s: P.State)
    requires P.Reachable(s) && !s.door.once.Running? && s.pool.wg == 0
    ensures P.Drained(AfterShutdown(s, true)) <==> s.pool.workers != [] || s.chan.accepted == []
  {
    ReachableIsSane(s);
    ShutdownSteps(s, true);
    AnsweredReachable(s, true);
    P.ReachableInv(AfterShutdown(s, true));
    P.EmptyWaitGroup(AfterShutdown(s, true));
  }

  /** Start alone: the compare-and-swap and n turns of the loop. */
  function Staffed(s: P.State, n: nat): P.State {
    if n == 0 then P.Start(s) else P.AddWorker(Staffed(s, n - 1))
  }

  function AfterTurns(s: P.State, n: nat): P.State
    requires n <= s.pool.size
  {
    s.(pool := s.pool.(started := true, unadded := s.pool.size - n, wg := n, workers := seq(n, _ => P.Receiving)))
  }

  lemma {:induction false} StartSteps(s: P.State, n: nat)
    requires Sane(s) && !s.pool.started && n <= s.pool.size
    ensures Staffed(s, n) == AfterTurns(s, n)
  {
    if n > 0 {
      StartSteps(s, n - 1);
      assert seq(n, _ => P.Receiving) == seq(n - 1, _ => P.Receiving) + [P.Receiving];
    }
  }

  class Bus {
    var capacity: nat
    var size: nat
    var handlers: nat
    var started: bool
    var queue: seq<P.Event>
    var sealed: bool
    var closed: bool
    var closeOnce: P.Once
    var wg: int
    var published: int
    var dropped: int
    var workers: seq<P.Worker>
    // history
    ghost var unadded: nat
    ghost var publishers: seq<P.Publisher>
    ghost var closers: seq<P.Closer>
    ghost var accepted: seq<P.Event>
    ghost var received: seq<P.Event>
    ghost var dispatched: multiset<P.Event>
    ghost var handled: seq<multiset<P.Event>>
    ghost var crashed: bool

    ghost function Snapshot(): P.State
      reads this
    {
      P.State(P.Channel(capacity, queue, sealed, accepted, received), P.Calls(publishers, published, dropped),
              P.Pool(size, started, unadded, handlers, wg, workers, dispatched, handled),
              P.Door(closed, closeOnce, closers, crashed))
    }

    constructor NewBus(workers: int, buffer: int)
      ensures Snapshot() == P.Init(workers, buffer) && P.Reachable(Snapshot())
      ensures (buffer >= 1 ==> capacity == buffer) && (buffer < 1 ==> capacity == 1)
      ensures (workers >= 1 ==> size == workers) && (workers < 1 ==> size == 1)
      ensures handlers == 0 && !started && this.workers == [] && queue == [] && !sealed && !closed
      ensures published == dropped == 0
    {
      capacity := if buffer < 1 then 1 else buffer;
      size := if workers < 1 then 1 else workers;
      handlers, started, queue, sealed, closed, closeOnce := 0, false, [], false, false, P.Unused;
      wg, published, dropped := 0, 0, 0;
      publishers, this.workers, closers, unadded := [], [], [], 0;
      accepted, received, dispatched, handled, crashed := [], [], multiset{}, [], false;
      new;
      assert Snapshot() == Run(P.Step, P.Init(workers, buffer), []);
    }

    /** A handler registered in time is one that has had nothing yet, so it will have every event dispatched. */
    method Subscribe() returns (panicked: bool)
      requires Sane(Snapshot())
      modifies this`handlers, this`handled
      ensures Sane(Snapshot())
      ensures panicked <==> old(started)
      ensures Snapshot() == P.Subscribe(old(Snapshot()))
      ensures panicked ==> Snapshot() == old(Snapshot())
      ensures !panicked ==>
        handlers == old(handlers) + 1 && handled == old(handled) + [multiset{}] && dispatched == multiset{}
    {
      panicked := started;
      if !started {
        handlers := handlers + 1;
        handled := handled + [multiset{}];
      }
    }

    method Start() returns (panicked: bool)
      requires Sane(Snapshot())
      modifies this`started, this`unadded, this`wg, this`workers
      ensures Sane(Snapshot())
      ensures panicked <==> old(started)
      ensures panicked ==> Snapshot() == old(Snapshot())
      ensures !panicked ==> Snapshot() == AfterTurns(old(Snapshot()), size)
      ensures !panicked ==> started && unadded == 0 && wg == size && workers == seq(size, _ => P.Receiving)
    {
      panicked := started;
      if started {
        return;
      }
      started, unadded := true, size;
      for i := 0 to size
        invariant started && unadded == size - i && wg == i && workers == seq(i, _ => P.Receiving)
      {
        assert seq(i + 1, _ => P.Receiving) == seq(i, _ => P.Receiving) + [P.Receiving];
        wg := wg + 1;
        workers := workers + [P.Receiving];
        unadded := unadded - 1;
      }
    }

    /** The event is accepted, behind all others, exactly when the bus is open and has room; exactly one counter rises,
        by one, and no worker or handler is involved. */
    method Publish(e: P.Event)
      requires Sane(Snapshot())
      modifies this`queue, this`accepted, this`published, this`dropped, this`publishers
      ensures Sane(Snapshot()) && Snapshot() == AfterPublish(old(Snapshot()), e)
      ensures var accepts := !old(closed) && |old(queue)| < capacity;
        && accepted == old(accepted) + (if accepts then [e] else [])
        && queue == old(queue) + (if accepts then [e] else [])
        && published == old(published) + (if accepts then 1 else 0)
        && dropped == old(dropped) + (if accepts then 0 else 1)
    {
      var ok := false;
      if !closed {
        // a closed channel would panic into the recover below; sealed ==> closed
        if !sealed && |queue| < capacity {
          queue := queue + [e];
          accepted := accepted + [e];
          ok := true;
        }
      }
      if ok {
        published := published + 1;
      } else {
        dropped := dropped + 1;
      }
      publishers := publishers + [P.Returned(e, ok)];
    }

    method Receive(w: nat)
      requires P.CanReceive(Snapshot(), w)
      modifies this`queue, this`received, this`workers
      ensures Snapshot() == P.Receive(old(Snapshot()), w)
    {
      var e := queue[0];
      queue := queue[1..];
      received := received + [e];
      workers := workers[w := P.Handling(e, 0)];
    }

    /** Whether the handler returns or panics, it has had the event once, the worker goes on to the next handler, and
        nothing else has moved. */
    method SafeInvoke(w: nat) returns (panicked: bool)
      requires P.CanInvoke(Snapshot(), w) && |handled| == handlers
      modifies this`workers, this`handled
      ensures Snapshot() == AfterCall(old(Snapshot()), w)
    {
      var e, h := workers[w].e, workers[w].next;
      panicked := *;
      handled := handled[h := handled[h] + multiset{e}];
      workers := workers[w := P.Deferred(e, h, panicked)];
      // the deferred function
      workers := workers[w := P.Handling(e, h + 1)];
    }

    /** The loop over the handlers, any of them panicking: each has had the event exactly once more. */
    method Dispatch(w: nat)
      requires JustReceived(Snapshot(), w)
      modifies this`workers, this`handled, this`dispatched
      ensures Snapshot() == Dispatched(old(Snapshot()), w)
      ensures workers == old(workers)[w := P.Receiving] && dispatched == old(dispatched) + multiset{old(workers)[w].e}
      ensures |handled| == handlers
      ensures forall k | 0 <= k < handlers :: handled[k] == old(handled)[k] + multiset{old(workers)[w].e}
    {
      ghost var before := Snapshot();
      for h := 0 to handlers
        invariant Served(before, Snapshot(), w, h)
      {
        CallServes(before, Snapshot(), w, h);
        var _ := SafeInvoke(w);
      }
      ServedIsDispatched(before, Snapshot(), w);
      dispatched := dispatched + multiset{workers[w].e};
      workers := workers[w := P.Receiving];
    }

    /** for e := range queue, once the queue is closed and wherever the other workers stand: every event still queued
        goes through every handler exactly once, and the worker leaves. The last worker to leave leaves a drained
        bus. */
    method Work(w: nat)
      requires P.Reachable(Snapshot()) && sealed && w < |workers| && workers[w].Receiving?
      modifies this`queue, this`received, this`workers, this`handled, this`dispatched, this`wg
      ensures queue == [] && received == accepted
      ensures workers == old(workers)[w := P.Exited] && wg == old(wg) - 1
      ensures handlers == |handled| == |old(handled)|
      ensures forall k | 0 <= k < handlers :: handled[k] == old(handled)[k] + multiset(old(queue))
      ensures P.Reachable(Snapshot())
      ensures OnlyWorkerLeft(old(workers), w) ==> P.Drained(Snapshot()) && wg == 0
    {
      ghost var s0 := Snapshot();
      ReachableIsSane(s0);
      Range(w);
      assert s0.chan.queue[..|s0.chan.queue|] == s0.chan.queue;
      WorkEnds(s0, Snapshot(), w);
      workers := workers[w := P.Exited];
      wg := wg - 1;
    }

    method Range(w: nat)
      requires Sane(Snapshot()) && w < |workers| && workers[w].Receiving?
      modifies this`queue, this`received, this`workers, this`handled, this`dispatched
      ensures WorkedOff(old(Snapshot()), Snapshot(), |old(queue)|)
    {
      ghost var s0 := Snapshot();
      ghost var n := 0;
      WorkedOffNone(s0);
      while queue != []
        invariant WorkedOff(s0, Snapshot(), n)
        decreases |queue|
      {
        ghost var s := Snapshot();
        IterationServes(s, w);
        Receive(w);
        Dispatch(w);
        WorkedOffJoins(s0, s, Snapshot(), n);
        n := n + 1;
      }
    }

    /** closeOnce.Do: the channel is open when it is closed, so closing it never panics, and a later call finds it
        closed. */
    method Close()
      requires Sane(Snapshot()) && !closeOnce.Running?
      modifies this`closed, this`sealed, this`crashed, this`closeOnce
      ensures closed && sealed && closeOnce.Used? && crashed == old(crashed)
      ensures old(closeOnce).Unused? ==> !old(sealed)
    {
      if closeOnce.Unused? {
        closed := true;
        crashed := crashed || sealed;
        sealed := true;
        closeOnce := P.Used;
      } else {
        assert sealed && closed;
      }
    }

    /** Waits until the wait group is empty or the context expires, and answers which. Afterwards the bus is closed for
        good, and a true answer means drained exactly when Start had added a worker or nothing was accepted. */
    method Shutdown(expired: bool) returns (drained: bool)
      requires P.Reachable(Snapshot()) && !closeOnce.Running? && (wg == 0 || expired)
      modifies this`closed, this`sealed, this`crashed, this`closeOnce, this`closers
      ensures Snapshot() == AfterShutdown(old(Snapshot()), drained)
      ensures closed && sealed && !crashed
      ensures !drained ==> expired
      ensures drained ==> wg == 0 && (P.Drained(Snapshot()) <==> workers != [] || accepted == [])
    {
      ReachableIsSane(Snapshot());
      if wg == 0 {
        AnswerIsRightIff(Snapshot());
      }
      Close();
      drained := !expired;
      if expired && wg == 0 {
        drained := *;  // both ready: select takes either
      }
      closers := closers + [P.Finished(drained)];
    }
  }
}
