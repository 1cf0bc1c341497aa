/** The bounded in-process publisher of internal/platform/events/events.go as a protocol of atomic steps.
    Any number of Publish calls, one pool of workers and any number of Shutdown calls interleave freely. */
module EventBus {
  import opened Tallies
  import opened Runs

  datatype Event = Event(name: string, actorId: string, subjectId: string, requestId: string)

  /** Where one Publish call stands. */
  datatype Publisher =
    | Entering(e: Event)           // before closed.Load()
    | Selecting(e: Event)          // closed was false, before the select
    | CountingPublished(e: Event)  // the send went through, published not yet increased
    | CountingDropped(e: Event)    // closed, full, or recovered from a send on a closed channel
    | Returned(e: Event, accepted: bool)

  /** Where one worker goroutine stands: waiting on the queue, about to call handler number next, in the deferred
      function after that handler returned or panicked, or gone. */
  datatype Worker = Receiving | Handling(e: Event, next: nat) | Deferred(e: Event, next: nat, panicked: bool) | Exited

  /** Where one Shutdown call stands; Observed is past the Wait in its goroutine, with the select still to answer. */
  datatype Closer = Arriving | Storing | Closing | Waiting | Observed | Finished(drained: bool)

  /** sync.Once: the first caller runs the body, later callers block until it has run. */
  datatype Once = Unused | Running | Used

  /** The buffered channel, with the history of what went in and what came out. */
  datatype Channel = Channel(capacity: nat, queue: seq<Event>, sealed: bool, accepted: seq<Event>, received: seq<Event>)

  datatype Calls = Calls(publishers: seq<Publisher>, published: int, dropped: int)

  /** The worker pool, with the events fully dispatched and, per handler, the events it was called with. unadded are
      the turns that the loop of Start still has to make. */
  datatype Pool = Pool(size: nat, started: bool, unadded: nat, handlers: nat, wg: int, workers: seq<Worker>,
                       dispatched: multiset<Event>, handled: seq<multiset<Event>>)

  datatype Door = Door(closed: bool, once: Once, closers: seq<Closer>, crashed: bool)

  datatype State = State(chan: Channel, calls: Calls, pool: Pool, door: Door)

  function AtLeastOne(n: int): nat {
    if n < 1 then 1 else n
  }

  function Init(workers: int, buffer: int): State {
    State(Channel(AtLeastOne(buffer), [], false, [], []), Calls([], 0, 0),
          Pool(AtLeastOne(workers), false, 0, 0, 0, [], multiset{}, []), Door(false, Unused, [], false))
  }

  // ---- The atomic steps. A goroutine that is not at the step's point, or is blocked there, does not move. ----

  function Subscribe(s: State): State {
    if s.pool.started then s  // panics in the caller
    else s.(pool := s.pool.(handlers := s.pool.handlers + 1, handled := s.pool.handled + [multiset{}]))
  }

  /** The compare-and-swap at the head of Start. */
  function Start(s: State): State {
    if s.pool.started then s  // panics in the caller
    else s.(pool := s.pool.(started := true, unadded := s.pool.size))
  }

  /** One turn of its loop: wg.Add(1), then the go statement. A goroutine not yet begun is one at its first receive. */
  function AddWorker(s: State): State {
    if s.pool.unadded == 0 then s
    else s.(pool := s.pool.(unadded := s.pool.unadded - 1, wg := s.pool.wg + 1,
      workers := s.pool.workers + [Receiving]))
  }

  function Publish(s: State, e: Event): State {
    s.(calls := s.calls.(publishers := s.calls.publishers + [Entering(e)]))
  }

  function PublisherAt(calls: Calls, p: nat, now: Publisher): Calls
    requires p < |calls.publishers|
  {
    calls.(publishers := calls.publishers[p := now])
  }

  predicate CanLoad(s: State, p: nat) {
    p < |s.calls.publishers| && s.calls.publishers[p].Entering?
  }

  function LoadClosed(s: State, p: nat): State {
    if !CanLoad(s, p) then s else
    var e := s.calls.publishers[p].e;
    s.(calls := PublisherAt(s.calls, p, if s.door.closed then CountingDropped(e) else Selecting(e)))
  }

  predicate CanSelect(s: State, p: nat) {
    p < |s.calls.publishers| && s.calls.publishers[p].Selecting?
  }

  /** The non-blocking send: a closed channel panics into the recover, a full queue takes the default. */
  function Select(s: State, p: nat): State {
    if !CanSelect(s, p) then s else
    var e := s.calls.publishers[p].e;
    if s.chan.sealed || |s.chan.queue| >= s.chan.capacity then
      s.(calls := PublisherAt(s.calls, p, CountingDropped(e)))
    else
      s.(calls := PublisherAt(s.calls, p, CountingPublished(e)),
         chan := s.chan.(queue := s.chan.queue + [e], accepted := s.chan.accepted + [e]))
  }

  predicate CanCount(s: State, p: nat) {
    p < |s.calls.publishers| && (s.calls.publishers[p].CountingPublished? || s.calls.publishers[p].CountingDropped?)
  }

  function Count(s: State, p: nat): State {
    if !CanCount(s, p) then s else
    var ok := s.calls.publishers[p].CountingPublished?;
    s.(calls := PublisherAt(s.calls, p, Returned(s.calls.publishers[p].e, ok)).(
         published := s.calls.published + (if ok then 1 else 0),
         dropped := s.calls.dropped + (if ok then 0 else 1)))
  }

  function WorkerAt(pool: Pool, w: nat, now: Worker): Pool
    requires w < |pool.workers|
  {
    pool.(workers := pool.workers[w := now])
  }

  predicate CanReceive(s: State, w: nat) {
    w < |s.pool.workers| && s.pool.workers[w].Receiving? && s.chan.queue != []
  }

  function Receive(s: State, w: nat): State {
    if !CanReceive(s, w) then s else
    s.(pool := WorkerAt(s.pool, w, Handling(s.chan.queue[0], 0)),
       chan := s.chan.(queue := s.chan.queue[1..], received := s.chan.received + [s.chan.queue[0]]))
  }

  predicate CanInvoke(s: State, w: nat) {
    w < |s.pool.workers| && s.pool.workers[w].Handling? && s.pool.workers[w].next < s.pool.handlers
  }

  /** The handler runs; whether it returns or panics, the deferred function is next. */
  function Invoke(s: State, w: nat, panics: bool): State {
    if !CanInvoke(s, w) then s else
    var Handling(e, h) := s.pool.workers[w];
    var handled := s.pool.handled;
    s.(pool := WorkerAt(s.pool, w, Deferred(e, h, panics)).(
         handled := if h < |handled| then handled[h := handled[h] + multiset{e}] else handled))
  }

  predicate CanRecover(s: State, w: nat) {
    w < |s.pool.workers| && s.pool.workers[w].Deferred?
  }

  /** recover() ends a panic and is nil without one; either way safeInvoke returns to the loop over the handlers. */
  function Recover(s: State, w: nat): State {
    if !CanRecover(s, w) then s else
    s.(pool := WorkerAt(s.pool, w, Handling(s.pool.workers[w].e, s.pool.workers[w].next + 1)))
  }

  predicate CanFinish(s: State, w: nat) {
    w < |s.pool.workers| && s.pool.workers[w].Handling? && s.pool.workers[w].next >= s.pool.handlers
  }

  function Finish(s: State, w: nat): State {
    if !CanFinish(s, w) then s else
    s.(pool := WorkerAt(s.pool, w, Receiving).(dispatched := s.pool.dispatched + multiset{s.pool.workers[w].e}))
  }

  predicate CanExit(s: State, w: nat) {
    w < |s.pool.workers| && s.pool.workers[w].Receiving? && s.chan.queue == [] && s.chan.sealed
  }

  function Exit(s: State, w: nat): State {
    if !CanExit(s, w) then s else
    s.(pool := WorkerAt(s.pool, w, Exited).(wg := s.pool.wg - 1))
  }

  function Shutdown(s: State): State {
    s.(door := s.door.(closers := s.door.closers + [Arriving]))
  }

  predicate CloserIs(s: State, c: nat, at: Closer) {
    c < |s.door.closers| && s.door.closers[c] == at
  }

  function EnterOnce(s: State, c: nat): State {
    if !CloserIs(s, c, Arriving) || s.door.once.Running? then s
    else if s.door.once.Unused? then s.(door := s.door.(closers := s.door.closers[c := Storing], once := Running))
    else s.(door := s.door.(closers := s.door.closers[c := Waiting]))
  }

  function StoreClosed(s: State, c: nat): State {
    if !CloserIs(s, c, Storing) then s
    else s.(door := s.door.(closers := s.door.closers[c := Closing], closed := true))
  }

  /** Closing a closed channel would panic outside any recover: that is what crashed records. */
  function CloseQueue(s: State, c: nat): State {
    if !CloserIs(s, c, Closing) then s
    else s.(door := s.door.(closers := s.door.closers[c := Waiting], once := Used,
                            crashed := s.door.crashed || s.chan.sealed),
            chan := s.chan.(sealed := true))
  }

  predicate CanObserve(s: State, c: nat) {
    CloserIs(s, c, Waiting) && s.pool.wg == 0
  }

  /** wg.Wait finds the group empty; close(done), which nobody else sees, follows in the same goroutine. */
  function Observe(s: State, c: nat): State {
    if !CanObserve(s, c) then s else s.(door := s.door.(closers := s.door.closers[c := Observed]))
  }

  /** The select takes done, any time later. */
  function Answer(s: State, c: nat): State {
    if !CloserIs(s, c, Observed) then s else s.(door := s.door.(closers := s.door.closers[c := Finished(true)]))
  }

  /** It takes the expired context, whether or not done is closed. */
  function Expire(s: State, c: nat): State {
    if !CloserIs(s, c, Waiting) && !CloserIs(s, c, Observed) then s
    else s.(door := s.door.(closers := s.door.closers[c := Finished(false)]))
  }

  datatype Action =
    | Subscribing | Starting | AddingWorker
    | Publishing(e: Event) | LoadingClosed(p: nat) | Sending(p: nat) | Counting(p: nat)
    | Taking(w: nat) | Invoking(w: nat, panics: bool) | Recovering(w: nat) | Finishing(w: nat) | Exiting(w: nat)
    | ShuttingDown | EnteringOnce(c: nat) | StoringClosed(c: nat) | ClosingQueue(c: nat)
    | Observing(c: nat) | Answering(c: nat) | Expiring(c: nat)

  function Step(s: State, a: Action): State {
    match a
    case Subscribing => Subscribe(s)
    case Starting => Start(s)
    case AddingWorker => AddWorker(s)
    case Publishing(e) => Publish(s, e)
    case LoadingClosed(p) => LoadClosed(s, p)
    case Sending(p) => Select(s, p)
    case Counting(p) => Count(s, p)
    case Taking(w) => Receive(s, w)
    case Invoking(w, panics) => Invoke(s, w, panics)
    case Recovering(w) => Recover(s, w)
    case Finishing(w) => Finish(s, w)
    case Exiting(w) => Exit(s, w)
    case ShuttingDown => Shutdown(s)
    case EnteringOnce(c) => EnterOnce(s, c)
    case StoringClosed(c) => StoreClosed(s, c)
    case ClosingQueue(c) => CloseQueue(s, c)
    case Observing(c) => Observe(s, c)
    case Answering(c) => Answer(s, c)
    case Expiring(c) => Expire(s, c)
  }

  // ---- What each goroutine contributes to the totals ----

  function SentOne(p: Publisher): int { if p.CountingPublished? || (p.Returned? && p.accepted) then 1 else 0 }
  function Sent(p: Publisher): multiset<Event> { if SentOne(p) == 1 then multiset{p.e} else multiset{} }
  function CountedPublished(p: Publisher): int { if p.Returned? && p.accepted then 1 else 0 }
  function CountedDropped(p: Publisher): int { if p.Returned? && !p.accepted then 1 else 0 }
  function Held(w: Worker): multiset<Event> { if w.Handling? || w.Deferred? then multiset{w.e} else multiset{} }
  function Past(h: nat): Worker -> multiset<Event> {
    (w: Worker) => if (w.Handling? && w.next > h) || (w.Deferred? && w.next >= h) then multiset{w.e} else multiset{}
  }
  function Alive(w: Worker): int { if w.Exited? then 0 else 1 }
  function InOnce(c: Closer): int { if c.Storing? || c.Closing? then 1 else 0 }

  ghost predicate CallsCounted(calls: Calls, accepted: seq<Event>) {
    && multiset(accepted) == Gather(calls.publishers, Sent)
    && |accepted| == Sum(calls.publishers, SentOne)
    && calls.published == Sum(calls.publishers, CountedPublished)
    && calls.dropped == Sum(calls.publishers, CountedDropped)
  }

  ghost predicate QueueInOrder(chan: Channel) {
    && 1 <= chan.capacity
    && |chan.queue| <= chan.capacity
    && chan.accepted == chan.received + chan.queue
  }

  ghost predicate HandlersServed(pool: Pool, received: seq<Event>) {
    multiset(received) == pool.dispatched + Gather(pool.workers, Held) && AllServed(pool)
  }

  ghost predicate WorkersInLoop(pool: Pool, chan: Channel) {
    && 1 <= pool.size
    && pool.wg == Sum(pool.workers, Alive)
    && (forall w | 0 <= w < |pool.workers| ::
          && (pool.workers[w].Handling? ==> pool.workers[w].next <= pool.handlers)
          && (pool.workers[w].Deferred? ==> pool.workers[w].next < pool.handlers)
          && (pool.workers[w].Exited? ==> chan.sealed && chan.queue == []))
    && (if pool.started then |pool.workers| + pool.unadded == pool.size else pool.workers == [] && pool.unadded == 0)
    && (pool.workers == [] ==> chan.received == [])
  }

  ghost predicate ClosedOnce(door: Door, sealed: bool) {
    && Sum(door.closers, InOnce) == (if door.once.Running? then 1 else 0)
    && (sealed <==> door.once.Used?)
    && (door.once.Unused? ==> !door.closed)
    && (sealed ==> door.closed)
    && (forall c | 0 <= c < |door.closers| ::
          && (door.closers[c].Closing? ==> door.closed)
          && (door.closers[c].Waiting? || door.closers[c].Observed? || door.closers[c].Finished? ==> sealed))
    && !door.crashed
  }

  ghost predicate Inv(s: State) {
    && CallsCounted(s.calls, s.chan.accepted)
    && QueueInOrder(s.chan)
    && HandlersServed(s.pool, s.chan.received)
    && WorkersInLoop(s.pool, s.chan)
    && ClosedOnce(s.door, s.chan.sealed)
  }

  ghost predicate Reachable(s: State) {
    exists workers: int, buffer: int, actions: seq<Action> :: s == Run(Step, Init(workers, buffer), actions)
  }

  // ---- Publish ----

  lemma PublisherMoves(calls: Calls, p: nat, now: Publisher)
    requires p < |calls.publishers|
    ensures var was, ps, ps' := calls.publishers[p], calls.publishers, calls.publishers[p := now];
      && Sum(ps', SentOne) == Sum(ps, SentOne) - SentOne(was) + SentOne(now)
      && Sum(ps', CountedPublished) == Sum(ps, CountedPublished) - CountedPublished(was) + CountedPublished(now)
      && Sum(ps', CountedDropped) == Sum(ps, CountedDropped) - CountedDropped(was) + CountedDropped(now)
      && (Sent(was) == Sent(now) ==> Gather(ps', Sent) == Gather(ps, Sent))
      && (Sent(was) == multiset{} ==> Gather(ps', Sent) == Gather(ps, Sent) + Sent(now))
  {
    GatherUpdate(calls.publishers, Sent, p, now);
    SumUpdate(calls.publishers, SentOne, p, now);
    SumUpdate(calls.publishers, CountedPublished, p, now);
    SumUpdate(calls.publishers, CountedDropped, p, now);
  }

  lemma PublishKeepsInv(s: State, e: Event)
    requires Inv(s)
    ensures Inv(Publish(s, e))
  {
    SumAppend(s.calls.publishers, SentOne, Entering(e));
    SumAppend(s.calls.publishers, CountedPublished, Entering(e));
    SumAppend(s.calls.publishers, CountedDropped, Entering(e));
    GatherAppend(s.calls.publishers, Sent, Entering(e));
  }

  lemma LoadClosedKeepsInv(s: State, p: nat)
    requires Inv(s)
    ensures Inv(LoadClosed(s, p))
  {
    if CanLoad(s, p) {
      PublisherMoves(s.calls, p, LoadClosed(s, p).calls.publishers[p]);
    }
  }

  lemma SendCounted(calls: Calls, accepted: seq<Event>, p: nat, e: Event)
    requires CallsCounted(calls, accepted)
    requires p < |calls.publishers| && calls.publishers[p] == Selecting(e)
    ensures CallsCounted(PublisherAt(calls, p, CountingPublished(e)), accepted + [e])
    ensures CallsCounted(PublisherAt(calls, p, CountingDropped(e)), accepted)
  {
    PublisherMoves(calls, p, CountingPublished(e));
    PublisherMoves(calls, p, CountingDropped(e));
    assert multiset(accepted + [e]) == multiset(accepted) + multiset{e};
  }

  lemma SentInOrder(chan: Channel, e: Event)
    requires QueueInOrder(chan) && |chan.queue| < chan.capacity
    ensures QueueInOrder(chan.(queue := chan.queue + [e], accepted := chan.accepted + [e]))
  {
    assert chan.received + chan.queue + [e] == chan.received + (chan.queue + [e]);
  }

  lemma SelectKeepsInv(s: State, p: nat)
    requires Inv(s)
    ensures Inv(Select(s, p))
  {
    if CanSelect(s, p) {
      var e, t := s.calls.publishers[p].e, Select(s, p);
      SendCounted(s.calls, s.chan.accepted, p, e);
      if !s.chan.sealed && |s.chan.queue| < s.chan.capacity {
        SentInOrder(s.chan, e);
      }
      assert WorkersInLoop(s.pool, t.chan);
    }
  }

  lemma CountKeepsInv(s: State, p: nat)
    requires Inv(s)
    ensures Inv(Count(s, p))
  {
    if CanCount(s, p) {
      PublisherMoves(s.calls, p, Count(s, p).calls.publishers[p]);
    }
  }

  // ---- Workers ----

  ghost predicate AllServed(pool: Pool) {
    |pool.handled| == pool.handlers && forall h: nat | h < pool.handlers ::
      pool.handled[h] == pool.dispatched + Gather(pool.workers, Past(h))
  }

  /** A worker that moves without passing a handler leaves what every handler has had accounted for. */
  lemma KeepsServed(pool: Pool, w: nat, now: Worker)
    requires AllServed(pool) && w < |pool.workers|
    requires forall h: nat | h < pool.handlers :: Past(h)(pool.workers[w]) == Past(h)(now)
    ensures AllServed(WorkerAt(pool, w, now))
  {
    forall h: nat | h < pool.handlers
      ensures Gather(pool.workers[w := now], Past(h)) == Gather(pool.workers, Past(h))
    {
      GatherUpdate(pool.workers, Past(h), w, now);
    }
  }

  lemma StaysInLoop(pool: Pool, chan: Channel, w: nat, now: Worker, chan': Channel)
    requires WorkersInLoop(pool, chan) && w < |pool.workers| && !pool.workers[w].Exited?
    requires !now.Exited? && (now.Handling? ==> now.next <= pool.handlers)
    requires (now.Deferred? ==> now.next < pool.handlers)
    requires chan'.sealed == chan.sealed && (chan.queue == [] ==> chan'.queue == [])
    ensures WorkersInLoop(WorkerAt(pool, w, now), chan')
  {
    SumUpdate(pool.workers, Alive, w, now);
  }

  lemma ReceiveHolds(pool: Pool, received: seq<Event>, w: nat, e: Event)
    requires multiset(received) == pool.dispatched + Gather(pool.workers, Held)
    requires w < |pool.workers| && pool.workers[w] == Receiving
    ensures multiset(received + [e]) == pool.dispatched + Gather(pool.workers[w := Handling(e, 0)], Held)
  {
    GatherUpdate(pool.workers, Held, w, Handling(e, 0));
    assert multiset(received + [e]) == multiset(received) + multiset{e};
  }

  lemma ReceiveServes(pool: Pool, received: seq<Event>, w: nat, e: Event)
    requires HandlersServed(pool, received) && w < |pool.workers| && pool.workers[w] == Receiving
    ensures HandlersServed(WorkerAt(pool, w, Handling(e, 0)), received + [e])
  {
    ReceiveHolds(pool, received, w, e);
    KeepsServed(pool, w, Handling(e, 0));
  }

  lemma ReceiveKeepsInv(s: State, w: nat)
    requires Inv(s)
    ensures Inv(Receive(s, w))
  {
    if CanReceive(s, w) {
      var e := s.chan.queue[0];
      ReceiveServes(s.pool, s.chan.received, w, e);
      StaysInLoop(s.pool, s.chan, w, Handling(e, 0), Receive(s, w).chan);
      assert s.chan.received + s.chan.queue == s.chan.received + [e] + s.chan.queue[1..];
    }
  }

  lemma InvokeServes(pool: Pool, w: nat, e: Event, n: nat, panics: bool, h: nat)
    requires w < |pool.workers| && pool.workers[w] == Handling(e, n)
    requires n < pool.handlers == |pool.handled| && h < pool.handlers
    requires pool.handled[h] == pool.dispatched + Gather(pool.workers, Past(h))
    ensures pool.handled[n := pool.handled[n] + multiset{e}][h]
         == pool.dispatched + Gather(pool.workers[w := Deferred(e, n, panics)], Past(h))
  {
    var now := Deferred(e, n, panics);
    GatherUpdate(pool.workers, Past(h), w, now);
    if h == n {
      assert Past(h)(pool.workers[w]) == multiset{} && Past(h)(now) == multiset{e};
    } else {
      assert Past(h)(pool.workers[w]) == Past(h)(now);
    }
  }

  lemma InvokeServesAll(pool: Pool, received: seq<Event>, w: nat, e: Event, n: nat, panics: bool)
    requires HandlersServed(pool, received) && w < |pool.workers| && pool.workers[w] == Handling(e, n)
    requires n < pool.handlers
    ensures var handled := pool.handled[n := pool.handled[n] + multiset{e}];
      HandlersServed(WorkerAt(pool, w, Deferred(e, n, panics)).(handled := handled), received)
  {
    GatherUpdate(pool.workers, Held, w, Deferred(e, n, panics));
    var handled := pool.handled[n := pool.handled[n] + multiset{e}];
    forall h: nat | h < pool.handlers
      ensures handled[h] == pool.dispatched + Gather(pool.workers[w := Deferred(e, n, panics)], Past(h))
    {
      InvokeServes(pool, w, e, n, panics, h);
    }
  }

  lemma InvokeKeepsInv(s: State, w: nat, panics: bool)
    requires Inv(s)
    ensures Inv(Invoke(s, w, panics))
  {
    if CanInvoke(s, w) {
      var Handling(e, n) := s.pool.workers[w];
      InvokeServesAll(s.pool, s.chan.received, w, e, n, panics);
      StaysInLoop(s.pool, s.chan, w, Deferred(e, n, panics), s.chan);
    }
  }

  /** The deferred function stands behind the handler it follows. */
  lemma DeferredIsPast(e: Event, n: nat, panicked: bool, h: nat)
    ensures Past(h)(Deferred(e, n, panicked)) == Past(h)(Handling(e, n + 1))
  {
  }

  lemma RecoverServes(pool: Pool, received: seq<Event>, w: nat, e: Event, n: nat, panicked: bool)
    requires HandlersServed(pool, received) && w < |pool.workers| && pool.workers[w] == Deferred(e, n, panicked)
    ensures HandlersServed(WorkerAt(pool, w, Handling(e, n + 1)), received)
  {
    forall h: nat {
      DeferredIsPast(e, n, panicked, h);
    }
    KeepsServed(pool, w, Handling(e, n + 1));
    RecoverHolds(pool.workers, w, e, n, panicked);
  }

  lemma RecoverHolds(ws: seq<Worker>, w: nat, e: Event, n: nat, panicked: bool)
    requires w < |ws| && ws[w] == Deferred(e, n, panicked)
    ensures Gather(ws[w := Handling(e, n + 1)], Held) == Gather(ws, Held)
  {
    GatherUpdate(ws, Held, w, Handling(e, n + 1));
  }

  lemma RecoverKeepsInv(s: State, w: nat)
    requires Inv(s)
    ensures Inv(Recover(s, w))
  {
    if CanRecover(s, w) {
      var Deferred(e, n, panicked) := s.pool.workers[w];
      RecoverServes(s.pool, s.chan.received, w, e, n, panicked);
      StaysInLoop(s.pool, s.chan, w, Handling(e, n + 1), s.chan);
    }
  }

  /** A worker that leaves what it held behind: what every handler has had is now all dispatched. */
  lemma LeavesServed(pool: Pool, w: nat, now: Worker, extra: multiset<Event>, h: nat)
    requires w < |pool.workers| && h < pool.handlers == |pool.handled|
    requires Past(h)(pool.workers[w]) == extra && Past(h)(now) == multiset{}
    requires pool.handled[h] == pool.dispatched + Gather(pool.workers, Past(h))
    ensures pool.handled[h] == pool.dispatched + extra + Gather(pool.workers[w := now], Past(h))
  {
    GatherUpdate(pool.workers, Past(h), w, now);
  }

  lemma FinishServes(pool: Pool, received: seq<Event>, w: nat, e: Event)
    requires HandlersServed(pool, received)
    requires w < |pool.workers| && pool.workers[w] == Handling(e, pool.handlers)
    ensures HandlersServed(WorkerAt(pool, w, Receiving).(dispatched := pool.dispatched + multiset{e}), received)
  {
    GatherUpdate(pool.workers, Held, w, Receiving);
    forall h: nat | h < pool.handlers
      ensures pool.handled[h] == pool.dispatched + multiset{e} + Gather(pool.workers[w := Receiving], Past(h))
    {
      LeavesServed(pool, w, Receiving, multiset{e}, h);
    }
  }

  lemma FinishKeepsInv(s: State, w: nat)
    requires Inv(s)
    ensures Inv(Finish(s, w))
  {
    if CanFinish(s, w) {
      FinishServes(s.pool, s.chan.received, w, s.pool.workers[w].e);
      StaysInLoop(s.pool, s.chan, w, Receiving, s.chan);
    }
  }

  lemma ExitServes(pool: Pool, received: seq<Event>, w: nat)
    requires HandlersServed(pool, received) && w < |pool.workers| && pool.workers[w].Receiving?
    ensures HandlersServed(WorkerAt(pool, w, Exited), received)
  {
    GatherUpdate(pool.workers, Held, w, Exited);
    forall h: nat | h < pool.handlers
      ensures pool.handled[h] == pool.dispatched + Gather(pool.workers[w := Exited], Past(h))
    {
      LeavesServed(pool, w, Exited, multiset{}, h);
    }
  }

  lemma ExitKeepsInv(s: State, w: nat)
    requires Inv(s)
    ensures Inv(Exit(s, w))
  {
    if CanExit(s, w) {
      ExitServes(s.pool, s.chan.received, w);
      SumUpdate(s.pool.workers, Alive, w, Exited);
    }
  }

  lemma SubscribeKeepsInv(s: State)
    requires Inv(s)
    ensures Inv(Subscribe(s))
  {
    if !s.pool.started {
      assert s.pool.dispatched + Gather(s.pool.workers, Held) == multiset{};
    }
  }

  lemma AddWorkerServes(pool: Pool, received: seq<Event>)
    requires HandlersServed(pool, received)
    ensures HandlersServed(pool.(workers := pool.workers + [Receiving]), received)
  {
    GatherAppend(pool.workers, Held, Receiving);
    forall h: nat | h < pool.handlers
      ensures Gather(pool.workers + [Receiving], Past(h)) == Gather(pool.workers, Past(h))
    {
      GatherAppend(pool.workers, Past(h), Receiving);
    }
  }

  lemma AddWorkerKeepsInv(s: State)
    requires Inv(s)
    ensures Inv(AddWorker(s))
  {
    AddWorkerServes(s.pool, s.chan.received);
    SumAppend(s.pool.workers, Alive, Receiving);
  }

  // ---- Shutdown ----

  lemma CloserMoves(closers: seq<Closer>, c: nat, now: Closer)
    requires c < |closers|
    ensures Sum(closers[c := now], InOnce) == Sum(closers, InOnce) - InOnce(closers[c]) + InOnce(now)
    ensures Sum(closers, InOnce) >= InOnce(closers[c])
  {
    SumUpdate(closers, InOnce, c, now);
    SumBounds(closers, InOnce, c);
  }

  lemma ShutdownKeepsInv(s: State)
    requires Inv(s)
    ensures Inv(Shutdown(s))
  {
    SumAppend(s.door.closers, InOnce, Arriving);
  }

  lemma EnterOnceKeepsInv(s: State, c: nat)
    requires Inv(s)
    ensures Inv(EnterOnce(s, c))
  {
    if CloserIs(s, c, Arriving) {
      CloserMoves(s.door.closers, c, EnterOnce(s, c).door.closers[c]);
    }
  }

  lemma StoreClosedKeepsInv(s: State, c: nat)
    requires Inv(s)
    ensures Inv(StoreClosed(s, c))
  {
    if CloserIs(s, c, Storing) {
      CloserMoves(s.door.closers, c, Closing);
    }
  }

  lemma CloseQueueKeepsInv(s: State, c: nat)
    requires Inv(s)
    ensures Inv(CloseQueue(s, c))
  {
    if CloserIs(s, c, Closing) {
      CloserMoves(s.door.closers, c, Waiting);
    }
  }

  /** Past the once, a call of Shutdown moves without touching the door. */
  lemma PastOnceKeepsClosed(door: Door, sealed: bool, c: nat, now: Closer)
    requires ClosedOnce(door, sealed) && c < |door.closers| && (door.closers[c].Waiting? || door.closers[c].Observed?)
    requires now.Observed? || now.Finished?
    ensures ClosedOnce(door.(closers := door.closers[c := now]), sealed)
  {
    CloserMoves(door.closers, c, now);
  }

  lemma ObserveKeepsInv(s: State, c: nat)
    requires Inv(s)
    ensures Inv(Observe(s, c))
  {
    if CanObserve(s, c) {
      PastOnceKeepsClosed(s.door, s.chan.sealed, c, Observed);
    }
  }

  lemma AnswerKeepsInv(s: State, c: nat)
    requires Inv(s)
    ensures Inv(Answer(s, c)) && Inv(Expire(s, c))
  {
    if CloserIs(s, c, Waiting) || CloserIs(s, c, Observed) {
      PastOnceKeepsClosed(s.door, s.chan.sealed, c, Finished(true));
      PastOnceKeepsClosed(s.door, s.chan.sealed, c, Finished(false));
    }
  }

  lemma PoolStepKeepsInv(s: State, a: Action)
    requires Inv(s)
    requires a.AddingWorker? || a.Taking? || a.Invoking? || a.Recovering? || a.Finishing? || a.Exiting?
    ensures Inv(Step(s, a))
  {
    match a
    case AddingWorker =>
      assert Step(s, a) == AddWorker(s);
      AddWorkerKeepsInv(s);
    case Taking(w) =>
      assert Step(s, a) == Receive(s, w);
      ReceiveKeepsInv(s, w);
    case Invoking(w, panics) =>
      assert Step(s, a) == Invoke(s, w, panics);
      InvokeKeepsInv(s, w, panics);
    case Recovering(w) =>
      assert Step(s, a) == Recover(s, w);
      RecoverKeepsInv(s, w);
    case Finishing(w) =>
      assert Step(s, a) == Finish(s, w);
      FinishKeepsInv(s, w);
    case Exiting(w) =>
      assert Step(s, a) == Exit(s, w);
      ExitKeepsInv(s, w);
  }

  lemma DoorStepKeepsInv(s: State, a: Action)
    requires Inv(s)
    requires a.ShuttingDown? || a.EnteringOnce? || a.StoringClosed? || a.ClosingQueue?
    ensures Inv(Step(s, a))
  {
    match a
    case ShuttingDown =>
      assert Step(s, a) == Shutdown(s);
      ShutdownKeepsInv(s);
    case EnteringOnce(c) =>
      assert Step(s, a) == EnterOnce(s, c);
      EnterOnceKeepsInv(s, c);
    case StoringClosed(c) =>
      assert Step(s, a) == StoreClosed(s, c);
      StoreClosedKeepsInv(s, c);
    case ClosingQueue(c) =>
      assert Step(s, a) == CloseQueue(s, c);
      CloseQueueKeepsInv(s, c);
  }

  /** Once a Shutdown has found the group empty, the select may still take either case: true, or the expired context's
      false as if nothing had been found. */
  lemma EitherCaseMayBeTaken(s: State, c: nat)
    requires CanObserve(s, c)
    ensures var t := Step(s, Observing(c));
      && c < |Step(t, Answering(c)).door.closers|
      && Step(t, Answering(c)).door.closers[c] == Finished(true)
      && Step(t, Expiring(c)) == Step(s, Expiring(c))
      && c < |Step(s, Expiring(c)).door.closers|
      && Step(s, Expiring(c)).door.closers[c] == Finished(false)
  {
    var cs := s.door.closers;
    assert cs[c := Observed][c := Finished(false)] == cs[c := Finished(false)];
  }

  lemma WaitStepKeepsInv(s: State, a: Action)
    requires Inv(s) && (a.Observing? || a.Answering? || a.Expiring?)
    ensures Inv(Step(s, a))
  {
    match a
    case Observing(c) =>
      assert Step(s, a) == Observe(s, c);
      ObserveKeepsInv(s, c);
    case Answering(c) =>
      assert Step(s, a) == Answer(s, c);
      AnswerKeepsInv(s, c);
    case Expiring(c) =>
      assert Step(s, a) == Expire(s, c);
      AnswerKeepsInv(s, c);
  }

  lemma PublishStepKeepsInv(s: State, a: Action)
    requires Inv(s) && (a.Publishing? || a.LoadingClosed? || a.Sending? || a.Counting?)
    ensures Inv(Step(s, a))
  {
    match a
    case Publishing(e) =>
      assert Step(s, a) == Publish(s, e);
      PublishKeepsInv(s, e);
    case LoadingClosed(p) =>
      assert Step(s, a) == LoadClosed(s, p);
      LoadClosedKeepsInv(s, p);
    case Sending(p) =>
      assert Step(s, a) == Select(s, p);
      SelectKeepsInv(s, p);
    case Counting(p) =>
      assert Step(s, a) == Count(s, p);
      CountKeepsInv(s, p);
  }

  lemma StartKeepsInv(s: State)
    requires Inv(s)
    ensures Inv(Start(s))
  {
  }

  lemma StepKeepsInv(s: State, a: Action)
    requires Inv(s)
    ensures Inv(Step(s, a))
  {
    if a.Subscribing? {
      assert Step(s, a) == Subscribe(s);
      SubscribeKeepsInv(s);
    } else if a.Starting? {
      assert Step(s, a) == Start(s);
      StartKeepsInv(s);
    } else if a.Publishing? || a.LoadingClosed? || a.Sending? || a.Counting? {
      PublishStepKeepsInv(s, a);
    } else if a.ShuttingDown? || a.EnteringOnce? || a.StoringClosed? || a.ClosingQueue? {
      DoorStepKeepsInv(s, a);
    } else if a.Observing? || a.Answering? || a.Expiring? {
      WaitStepKeepsInv(s, a);
    } else {
      PoolStepKeepsInv(s, a);
    }
  }

  lemma StepsKeepInv()
    ensures Keeps(Step, Inv)
  {
    forall s: State, a: Action | Inv(s) ensures Inv(Step(s, a)) {
      StepKeepsInv(s, a);
    }
  }

  lemma ReachableInv(s: State)
    requires Reachable(s)
    ensures Inv(s)
  {
    var workers: int, buffer: int, actions: seq<Action> :| s == Run(Step, Init(workers, buffer), actions);
    StepsKeepInv();
    RunKeeps(Step, Inv, Init(workers, buffer), actions);
  }

  // ---- What holds in every reachable state ----

  lemma AcceptedIsConserved(s: State)
    requires Reachable(s)
    ensures multiset(s.chan.accepted) == multiset(s.chan.queue) + Gather(s.pool.workers, Held) + s.pool.dispatched
    ensures |s.chan.queue| <= s.chan.capacity
    ensures s.chan.received + s.chan.queue == s.chan.accepted  // first in, first out
    ensures !s.door.crashed
  {
    ReachableInv(s);
    assert multiset(s.chan.received + s.chan.queue) == multiset(s.chan.received) + multiset(s.chan.queue);
  }

  // ---- What NewBus is asked for is what the bus has ----

  predicate Sized(s: State, workers: int, buffer: int) {
    && (if buffer >= 1 then s.chan.capacity == buffer else s.chan.capacity == 1)
    && (if workers >= 1 then s.pool.size == workers else s.pool.size == 1)
  }

  /** Over every run the queue has room for as many events as asked for and, once Start is through, as many workers run
      as asked for; one of each when asked for fewer. */
  lemma SizesAreKept(workers: int, buffer: int, actions: seq<Action>)
    ensures var s := Run(Step, Init(workers, buffer), actions);
      && Sized(s, workers, buffer)
      && (s.pool.started && s.pool.unadded == 0 ==> |s.pool.workers| == if workers >= 1 then workers else 1)
  {
    var sized := (s: State) => Sized(s, workers, buffer);
    RunKeeps(Step, sized, Init(workers, buffer), actions);
    ReachableInv(Run(Step, Init(workers, buffer), actions));
  }

  /** A send goes through exactly while the channel is open and holds fewer events than asked for; else the event is
      dropped and the channel left as it was. */
  lemma SendGoesThroughIff(workers: int, buffer: int, actions: seq<Action>, p: nat)
    requires CanSelect(Run(Step, Init(workers, buffer), actions), p)
    ensures var s := Run(Step, Init(workers, buffer), actions); var e := s.calls.publishers[p].e;
      if !s.chan.sealed && |s.chan.queue| < (if buffer >= 1 then buffer else 1) then
        && Select(s, p).chan.accepted == s.chan.accepted + [e] && Select(s, p).chan.queue == s.chan.queue + [e]
        && Select(s, p).calls.publishers[p] == CountingPublished(e)
      else Select(s, p).chan == s.chan && Select(s, p).calls.publishers[p] == CountingDropped(e)
  {
    SizesAreKept(workers, buffer, actions);
  }

  function Pending(p: Publisher): int { if p.Returned? then 0 else 1 }

  lemma {:induction false} OutcomesPartition(ps: seq<Publisher>)
    ensures Sum(ps, CountedPublished) + Sum(ps, CountedDropped) + Sum(ps, Pending) == |ps|
    ensures Sum(ps, CountedPublished) <= Sum(ps, SentOne) <= Sum(ps, CountedPublished) + Sum(ps, Pending)
  {
    if ps != [] {
      OutcomesPartition(ps[1..]);
    }
  }

  /** Every Publish call adds to exactly one counter, and once no call is under way the counters are exact. */
  lemma EveryPublishCountedOnce(s: State)
    requires Reachable(s)
    ensures s.calls.published + s.calls.dropped + Sum(s.calls.publishers, Pending) == |s.calls.publishers|
    ensures s.calls.published <= |s.chan.accepted| <= s.calls.published + Sum(s.calls.publishers, Pending)
    ensures (forall p | 0 <= p < |s.calls.publishers| :: s.calls.publishers[p].Returned?) ==>
      s.calls.published == |s.chan.accepted| && s.calls.dropped == |s.calls.publishers| - |s.chan.accepted|
  {
    ReachableInv(s);
    OutcomesPartition(s.calls.publishers);
    if forall p | 0 <= p < |s.calls.publishers| :: s.calls.publishers[p].Returned? {
      SumZero(s.calls.publishers, Pending);
    }
  }

  ghost predicate SealedKeeps(s: State, t: State) {
    s.chan.sealed ==> t.chan.sealed && t.chan.accepted == s.chan.accepted && t.pool.handlers >= s.pool.handlers
  }

  lemma NothingAcceptedAfterClose(s: State, actions: seq<Action>)
    requires s.chan.sealed
    ensures Run(Step, s, actions).chan.sealed
    ensures Run(Step, s, actions).chan.accepted == s.chan.accepted
  {
    var any := (x: State) => true;
    RunRelates(Step, any, SealedKeeps, s, s, actions);
  }

  /** Everything accepted has been through every handler exactly once, and nothing is left over. */
  ghost predicate Drained(s: State) {
    && s.chan.queue == []
    && s.pool.dispatched == multiset(s.chan.accepted)
    && |s.pool.handled| == s.pool.handlers
    && forall h | 0 <= h < s.pool.handlers :: s.pool.handled[h] == multiset(s.chan.accepted)
  }

  lemma {:induction false} AllExited(ws: seq<Worker>)
    requires Sum(ws, Alive) == 0
    ensures forall w | 0 <= w < |ws| :: ws[w].Exited?
    ensures Gather(ws, Held) == multiset{} && forall h: nat :: Gather(ws, Past(h)) == multiset{}
  {
    forall w | 0 <= w < |ws| ensures ws[w].Exited? {
      SumBounds(ws, Alive, w);
    }
    GatherEmpty(ws, Held);
    forall h: nat ensures Gather(ws, Past(h)) == multiset{} {
      GatherEmpty(ws, Past(h));
    }
  }

  /** Shutdown goes on to report a complete drain once its Wait finds the group empty. At that instant the report is
      right exactly when Start had added a worker or nothing was accepted; the handlers then ran once per call that
      got in. */
  lemma ShutdownTrueMeansDrained(s: State, c: nat)
    requires Reachable(s) && CanObserve(s, c)
    ensures Drained(s) <==> s.pool.workers != [] || s.chan.accepted == []
    ensures Drained(s) ==> forall h | 0 <= h < s.pool.handlers :: s.pool.handled[h] == Gather(s.calls.publishers, Sent)
  {
    ReachableInv(s);
    EmptyWaitGroup(s);
  }

  /** So it is right whenever it is given, if Start had added a worker by the time the Wait returned. */
  lemma StaffedWaitIsRight(s: State, c: nat, actions: seq<Action>)
    requires Reachable(s) && CanObserve(s, c) && (s.pool.workers != [] || s.chan.accepted == [])
    ensures Drained(Run(Step, Observe(s, c), actions))
  {
    ReachableInv(s);
    EmptyWaitGroup(s);
    ObserveKeepsInv(s, c);
    DrainedForGood(Observe(s, c), actions);
  }

  lemma EmptyWaitGroup(s: State)
    requires Inv(s) && s.pool.wg == 0
    ensures Drained(s) <==> s.pool.workers != [] || s.chan.accepted == []
  {
    AllExited(s.pool.workers);
    if s.pool.workers != [] {
      assert s.pool.workers[0].Exited?;
      assert s.chan.accepted == s.chan.received;
    } else {
      assert s.chan.accepted == s.chan.queue;
    }
  }

  predicate Quiet(ws: seq<Worker>) {
    forall w | 0 <= w < |ws| :: ws[w].Receiving? || ws[w].Exited?
  }

  /** Closed and drained, with no worker that could still move an event. */
  ghost predicate Settled(s: State) {
    Drained(s) && s.chan.sealed && (!s.pool.started ==> s.chan.accepted == []) && Quiet(s.pool.workers)
  }

  lemma NoneAlive(s: State)
    requires Inv(s) && forall w | 0 <= w < |s.pool.workers| :: s.pool.workers[w].Exited?
    ensures s.pool.wg == 0
  {
    SumZero(s.pool.workers, Alive);
  }

  lemma DrainedIsSettled(s: State)
    requires Inv(s) && s.chan.sealed && Drained(s)
    ensures Settled(s)
  {
    assert s.chan.accepted == s.chan.received;
    forall w | 0 <= w < |s.pool.workers| ensures s.pool.workers[w].Receiving? || s.pool.workers[w].Exited? {
      GatherHolds(s.pool.workers, Held, w);
    }
  }

  /** Nothing a settled bus can still do touches the queue, what was accepted or what was served. */
  lemma SettledFrame(s: State, a: Action)
    requires Settled(s) && !a.Subscribing? && !a.Sending? && !a.ClosingQueue?
    ensures var t := Step(s, a);
      && t.chan == s.chan && t.pool.dispatched == s.pool.dispatched && t.pool.handled == s.pool.handled
      && t.pool.handlers == s.pool.handlers && (s.pool.started ==> t.pool.started)
  {
  }

  lemma SettledWorkers(s: State, a: Action)
    requires s.chan.queue == [] && Quiet(s.pool.workers)
    ensures Quiet(Step(s, a).pool.workers)
  {
    var ws, ws' := s.pool.workers, Step(s, a).pool.workers;
    match a
    case AddingWorker =>
    case Exiting(_) =>
    case _ => assert ws' == ws;
  }

  lemma SettledStep(s: State, a: Action)
    requires Settled(s)
    ensures Settled(Step(s, a))
  {
    SettledWorkers(s, a);
    if !a.Subscribing? && !a.Sending? && !a.ClosingQueue? {
      SettledFrame(s, a);
    }
  }

  /** A true answer stays true: once closed and drained, a bus is drained for good. */
  lemma DrainedForGood(s: State, actions: seq<Action>)
    requires Inv(s) && s.chan.sealed && Drained(s)
    ensures Drained(Run(Step, s, actions))
  {
    DrainedIsSettled(s);
    forall s: State, a: Action | Settled(s) ensures Settled(Step(s, a)) {
      SettledStep(s, a);
    }
    RunKeeps(Step, Settled, s, actions);
  }

  lemma ReachableStep(s: State, a: Action)
    requires Reachable(s)
    ensures Reachable(Step(s, a))
  {
    var workers: int, buffer: int, actions: seq<Action> :| s == Run(Step, Init(workers, buffer), actions);
    RunAppend(Step, Init(workers, buffer), actions, [a]);
    assert Run(Step, s, [a]) == Step(s, a) by {
      assert [a][1..] == [];
    }
  }

  lemma PublishOnFreshBus(e: Event) returns (s: State)
    ensures Reachable(s) && s.chan.queue == [e] && s.pool == Init(1, 1).pool && s.door == Init(1, 1).door
  {
    s := Init(1, 1);
    assert s == Run(Step, s, []);
    ReachableStep(s, Publishing(e));
    s := Publish(s, e);
    ReachableStep(s, LoadingClosed(0));
    s := LoadClosed(s, 0);
    ReachableStep(s, Sending(0));
    s := Select(s, 0);
  }

  lemma EnteredOnFreshDoor(s: State) returns (t: State)
    requires Reachable(s) && s.door == Init(1, 1).door
    ensures Reachable(t) && t == s.(door := Door(false, Running, [Storing], false))
  {
    ReachableStep(s, ShuttingDown);
    t := Shutdown(s);
    ReachableStep(t, EnteringOnce(0));
    t := EnterOnce(t, 0);
  }

  lemma ShutdownOnFreshDoor(s: State) returns (t: State)
    requires Reachable(s) && s.door == Init(1, 1).door
    ensures Reachable(t) && CloserIs(t, 0, Waiting) && t.pool == s.pool && t.chan.queue == s.chan.queue
  {
    t := EnteredOnFreshDoor(s);
    ReachableStep(t, StoringClosed(0));
    t := StoreClosed(t, 0);
    ReachableStep(t, ClosingQueue(0));
    t := CloseQueue(t, 0);
  }

  /** The inputs on which it is wrong: one event published, and the bus shut down without a Start or while Start is
      between its compare-and-swap and its first wg.Add. */
  lemma UnstaffedShutdownReportsTrue(e: Event, started: bool)
    ensures exists s: State, c: nat :: Reachable(s) && CanObserve(s, c) && s.pool.started == started && !Drained(s)
  {
    var s := PublishOnFreshBus(e);
    if started {
      ReachableStep(s, Starting);
      s := Start(s);
    }
    var t := ShutdownOnFreshDoor(s);
    assert CanObserve(t, 0) && t.chan.queue == [e];
  }

  /** A worker added after the Wait does not help: the answer is true while that worker has the event still to take. */
  lemma LateWorkerShutdownReportsTrue(e: Event)
    ensures exists s: State, c: nat ::
      Reachable(s) && CloserIs(s, c, Finished(true)) && s.pool.workers == [Receiving] && s.pool.wg == 1 && !Drained(s)
  {
    var s := PublishOnFreshBus(e);
    var t := ShutdownOnFreshDoor(s);
    var u := AnsweredAfterOneWorker(t);
    assert u.chan.queue == [e];
  }

  lemma AnsweredAfterOneWorker(s: State) returns (t: State)
    requires Reachable(s) && CloserIs(s, 0, Waiting) && s.pool == Init(1, 1).pool
    ensures Reachable(t) && CloserIs(t, 0, Finished(true)) && t.chan == s.chan && t.pool.workers == [Receiving]
    ensures t.pool.wg == 1
  {
    ReachableStep(s, Observing(0));
    t := Observe(s, 0);
    t := StartedWithOneWorker(t);
    ReachableStep(t, Answering(0));
    t := Answer(t, 0);
  }

  lemma StartedWithOneWorker(s: State) returns (t: State)
    requires Reachable(s) && !s.pool.started && s.pool.size == 1 && s.pool.wg == 0 && s.pool.workers == []
    ensures Reachable(t) && t.door == s.door && t.chan == s.chan && t.pool.workers == [Receiving] && t.pool.wg == 1
  {
    ReachableStep(s, Starting);
    t := Start(s);
    ReachableStep(t, AddingWorker);
    t := AddWorker(t);
  }

  // ---- Draining takes a known number of the pool's steps, whatever the schedule ----

  /** Steps one event takes: the receive, a call and its deferred function per handler, the way back to the receive. */
  function Turn(handlers: nat): nat {
    2 * handlers + 2
  }

  function Left(handlers: nat): Worker -> int {
    (w: Worker) =>
      if w.Exited? then 0
      else if w.Handling? && w.next <= handlers then Turn(handlers) - 2 * w.next
      else if w.Deferred? && w.next < handlers then Turn(handlers) - 2 * w.next - 1
      else 1
  }

  function Work(queued: nat, handlers: nat, workers: seq<Worker>): int {
    queued * Turn(handlers) + Sum(workers, Left(handlers))
  }

  /** A worker not yet added has to be added and to leave. */
  function Remaining(s: State): int {
    Work(|s.chan.queue|, s.pool.handlers, s.pool.workers) + 2 * s.pool.unadded
  }

  predicate PoolMove(s: State, a: Action) {
    || (a.AddingWorker? && s.pool.unadded > 0)
    || (a.Taking? && CanReceive(s, a.w))
    || (a.Invoking? && CanInvoke(s, a.w))
    || (a.Recovering? && CanRecover(s, a.w))
    || (a.Finishing? && CanFinish(s, a.w))
    || (a.Exiting? && CanExit(s, a.w))
  }

  ghost predicate SealedAndStarted(s: State) {
    Inv(s) && s.chan.sealed && s.pool.started
  }

  lemma WorkMoves(queued: nat, handlers: nat, ws: seq<Worker>, w: nat, now: Worker)
    requires w < |ws|
    ensures Work(queued, handlers, ws[w := now])
      == Work(queued, handlers, ws) - Left(handlers)(ws[w]) + Left(handlers)(now)
    ensures queued > 0 ==> Work(queued - 1, handlers, ws) == Work(queued, handlers, ws) - Turn(handlers)
  {
    SumUpdate(ws, Left(handlers), w, now);
    assert (queued - 1) * Turn(handlers) == queued * Turn(handlers) - Turn(handlers);
  }

  lemma WorkerMoveUsesOne(s: State, a: Action, w: nat, now: Worker)
    requires w < |s.pool.workers| && Step(s, a).pool.workers == s.pool.workers[w := now]
    requires Step(s, a).chan.queue == s.chan.queue && Step(s, a).pool.unadded == s.pool.unadded
    requires Step(s, a).pool.handlers == s.pool.handlers
    requires Left(s.pool.handlers)(now) == Left(s.pool.handlers)(s.pool.workers[w]) - 1
    ensures Remaining(Step(s, a)) == Remaining(s) - 1
  {
    WorkMoves(|s.chan.queue|, s.pool.handlers, s.pool.workers, w, now);
  }

  lemma TakingUsesOne(s: State, w: nat)
    requires CanReceive(s, w)
    ensures Remaining(Receive(s, w)) == Remaining(s) - 1
  {
    var q, h, ws, now := |s.chan.queue|, s.pool.handlers, s.pool.workers, Handling(s.chan.queue[0], 0);
    WorkMoves(q, h, ws, w, now);
    WorkMoves(q, h, ws[w := now], w, Receiving);
  }

  lemma PoolMoveUsesOne(s: State, a: Action)
    requires WorkersInLoop(s.pool, s.chan) && PoolMove(s, a)
    ensures Remaining(Step(s, a)) == Remaining(s) - 1
  {
    var ws := s.pool.workers;
    match a
    case AddingWorker => SumAppend(ws, Left(s.pool.handlers), Receiving);
    case Taking(w) => TakingUsesOne(s, w);
    case Invoking(w, panics) => WorkerMoveUsesOne(s, a, w, Deferred(ws[w].e, ws[w].next, panics));
    case Recovering(w) => WorkerMoveUsesOne(s, a, w, Handling(ws[w].e, ws[w].next + 1));
    case Finishing(w) => WorkerMoveUsesOne(s, a, w, Receiving);
    case Exiting(w) => WorkerMoveUsesOne(s, a, w, Exited);
  }

  lemma StaysClosedAndStarted(s: State, a: Action)
    ensures s.chan.sealed ==> Step(s, a).chan.sealed
    ensures s.pool.started ==> Step(s, a).pool.started
  {
  }

  lemma OtherStepsUseNone(s: State, a: Action)
    requires s.chan.sealed && s.pool.started && !PoolMove(s, a)
    ensures Step(s, a).chan == s.chan && Step(s, a).pool == s.pool
  {
  }

  lemma StepUsesOnlyPoolMoves(s: State, a: Action)
    requires SealedAndStarted(s)
    ensures SealedAndStarted(Step(s, a))
    ensures Remaining(Step(s, a)) == Remaining(s) - (if PoolMove(s, a) then 1 else 0)
  {
    StepKeepsInv(s, a);
    StaysClosedAndStarted(s, a);
    if PoolMove(s, a) {
      PoolMoveUsesOne(s, a);
    } else {
      OtherStepsUseNone(s, a);
    }
  }

  function MovesIn(s: State, actions: seq<Action>): nat
    decreases |actions|
  {
    if actions == [] then 0
    else (if PoolMove(s, actions[0]) then 1 else 0) + MovesIn(Step(s, actions[0]), actions[1..])
  }

  lemma LiveWorkerCanMove(s: State, w: nat)
    requires s.chan.sealed && w < |s.pool.workers| && !s.pool.workers[w].Exited?
    ensures exists a :: PoolMove(s, a)
  {
    if CanReceive(s, w) {
      assert PoolMove(s, Taking(w));
    } else if CanExit(s, w) {
      assert PoolMove(s, Exiting(w));
    } else if CanFinish(s, w) {
      assert PoolMove(s, Finishing(w));
    } else if CanRecover(s, w) {
      assert PoolMove(s, Recovering(w));
    } else {
      assert PoolMove(s, Invoking(w, false));
    }
  }

  lemma {:induction false} WorkIsLeftUntilExit(queued: nat, handlers: nat, ws: seq<Worker>)
    ensures Work(queued, handlers, ws) >= Sum(ws, Left(handlers)) >= 0
    ensures (exists w | 0 <= w < |ws| :: !ws[w].Exited?) ==> Work(queued, handlers, ws) > 0
  {
    SumNonNegative(ws, Left(handlers));
    assert queued * Turn(handlers) >= 0;
    if w :| 0 <= w < |ws| && !ws[w].Exited? {
      SumBounds(ws, Left(handlers), w);
    }
  }

  lemma AllExitedMeansDrained(s: State)
    requires SealedAndStarted(s) && s.pool.workers != []
    requires forall w | 0 <= w < |s.pool.workers| :: s.pool.workers[w].Exited?
    ensures Drained(s) && s.pool.wg == 0 && Remaining(s) == 2 * s.pool.unadded
  {
    NoneAlive(s);
    SumZero(s.pool.workers, Left(s.pool.handlers));
    EmptyWaitGroup(s);
  }

  /** As long as work remains the pool can take a step; with none left the bus has drained. */
  lemma PoolNeverStuck(s: State)
    requires SealedAndStarted(s)
    ensures Remaining(s) >= 0
    ensures Remaining(s) > 0 ==> exists a :: PoolMove(s, a)
    ensures Remaining(s) == 0 ==> Drained(s) && s.pool.wg == 0
  {
    WorkIsLeftUntilExit(|s.chan.queue|, s.pool.handlers, s.pool.workers);
    if s.pool.unadded > 0 {
      assert PoolMove(s, AddingWorker);
    } else if w :| 0 <= w < |s.pool.workers| && !s.pool.workers[w].Exited? {
      LiveWorkerCanMove(s, w);
    } else {
      AllExitedMeansDrained(s);
    }
  }

  /** From any state of a started bus whose queue is closed, every schedule makes exactly Remaining(s) of the pool's
      steps before the pool is idle, and the pool is idle only with everything drained. */
  lemma {:induction false} EveryScheduleDrains(s: State, actions: seq<Action>)
    requires SealedAndStarted(s)
    ensures SealedAndStarted(Run(Step, s, actions))
    ensures MovesIn(s, actions) == Remaining(s) - Remaining(Run(Step, s, actions))
    ensures MovesIn(s, actions) <= Remaining(s)
    ensures MovesIn(s, actions) == Remaining(s) ==> Drained(Run(Step, s, actions)) && Run(Step, s, actions).pool.wg == 0
    decreases |actions|
  {
    if actions != [] {
      StepUsesOnlyPoolMoves(s, actions[0]);
      EveryScheduleDrains(Step(s, actions[0]), actions[1..]);
    }
    PoolNeverStuck(Run(Step, s, actions));
  }
}
