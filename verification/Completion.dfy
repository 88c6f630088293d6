/**
 * How finished work gets back to its loop: the pool of threadpool.c together with one wake-up machine
 * of async.c for each loop, whose handle EVENTS is wq_async and whose queue is that of the loop. A
 * worker, or a cancel, puts the request into the queue and sends while it holds wq_mutex;
 * uv__work_done takes the whole queue while it holds it.
 */
module Completion {
  import opened Wrappers
  import opened Sequences
  import T = ThreadPool
  import A = Async

  /** Sender i of a machine is worker i; the sender behind the workers is the loop's own thread. */
  datatype State = State(pool: T.State, wakers: seq<A.State>)

  datatype Action = Pool(step: T.Action) | Wake(l: nat, a: A.Action)

  /** The loop that worker i is going to deliver to. */
  function LoopOf(s: State, i: nat): nat
    requires T.Enabled(s.pool, T.Deliver(i))
  {
    s.pool.reqs[s.pool.workers[i].req].loop
  }

  /** The loop's thread is neither in a done callback nor in uv__work_cancel. */
  predicate LoopFree(s: State, l: nat) {
    && l < |s.wakers| && l < |s.pool.loops| && s.pool.loops[l].cancelling == None && s.pool.loops[l].drain == []
    && OwnThreadIdle(s, l)
  }

  predicate OwnThreadIdle(s: State, l: nat) {
    l < |s.wakers| && |s.pool.workers| < |s.wakers[l].senders| && s.wakers[l].senders[|s.pool.workers|] == A.Idle
  }

  predicate MayPush(s: State, l: nat, j: nat, r: T.Req) {
    l < |s.wakers| && A.Enabled(s.wakers[l], A.Push(j, r))
  }

  predicate PoolEnabled(s: State, a: T.Action)
    requires T.Enabled(s.pool, a)
  {
    match a
    case Lock(i) => forall l :: 0 <= l < |s.wakers| && i < |s.wakers[l].senders| ==> s.wakers[l].senders[i] == A.Idle
    case Deliver(i) => MayPush(s, LoopOf(s, i), i, s.pool.workers[i].req)
    case TryCancel(r) => OwnThreadIdle(s, s.pool.reqs[r].loop) && s.wakers[s.pool.reqs[r].loop].lock == A.Free
    case PostCancel(l) => MayPush(s, l, |s.pool.workers|, s.pool.loops[l].cancelling.value)
    case Move(l) => LoopFree(s, l) && s.wakers[l].at == A.Calling(A.EVENTS) && s.wakers[l].lock == A.Free
    case Done(l) => OwnThreadIdle(s, l)
    case _ => true
  }

  /** The steps of a wake-up machine that are not steps of the pool; wq_async stays open. */
  predicate WakeEnabled(s: State, l: nat, a: A.Action) {
    && l < |s.wakers| && A.Enabled(s.wakers[l], a)
    && match a
       case Push(_, _) => false
       case LockQueue => false
       case HandleEvent => false
       case UnlockQueue => false
       case Close(h) => h != A.EVENTS
       case Send(_, _) => true
       case Open(_) => true
       case Check(_) => true
       case Swap(_) => true
       case Write(_) => true
       case _ => LoopFree(s, l)
  }

  predicate Enabled(s: State, a: Action) {
    match a
    case Pool(b) => T.Enabled(s.pool, b) && PoolEnabled(s, b)
    case Wake(l, b) => WakeEnabled(s, l, b)
  }

  /** LockQueue, HandleEvent for everything queued, and UnlockQueue. */
  function Drained(w: A.State): A.State {
    w.(at := A.Draining, handled := w.handled + w.queue, queue := [], calls := w.calls + multiset{A.EVENTS})
  }

  function Wakers(s: State, a: T.Action): seq<A.State>
    requires T.Enabled(s.pool, a) && PoolEnabled(s, a)
  {
    match a
    case Deliver(i) => s.wakers[LoopOf(s, i) := A.Apply(s.wakers[LoopOf(s, i)], A.Push(i, s.pool.workers[i].req))]
    case PostCancel(l) => s.wakers[l := A.Apply(s.wakers[l], A.Push(|s.pool.workers|, s.pool.loops[l].cancelling.value))]
    case Move(l) => s.wakers[l := Drained(s.wakers[l])]
    case _ => s.wakers
  }

  function Apply(s: State, a: Action): State
    requires Enabled(s, a)
  {
    match a
    case Pool(b) => State(T.Apply(s.pool, b), Wakers(s, b))
    case Wake(l, b) => s.(wakers := s.wakers[l := A.Apply(s.wakers[l], b)])
  }

  function Init(nworkers: nat, wakers: seq<A.State>): State {
    State(T.Init(nworkers, |wakers|), wakers)
  }

  function Run(s: State, actions: seq<Action>): Option<State>
    decreases |actions|
  {
    if actions == [] then Some(s)
    else if Enabled(s, actions[0]) then Run(Apply(s, actions[0]), actions[1..])
    else None
  }

  /** A machine at the start, with wq_async among its handles, for so many threads and the loop's own. */
  predicate Fresh(w: A.State, nworkers: nat) {
    && A.EVENTS in w.handles && NoDuplicates(w.handles) && w.capacity > 0 && nworkers < |w.senders|
    && w == A.Init(|w.senders|, w.capacity, w.eventfd, w.handles)
  }

  // ---------- The invariant ----------

  /** The machine keeps its invariant, and every request in the loop's queue is in the machine's. */
  predicate WakerOk(q: seq<T.Req>, w: A.State, nworkers: nat) {
    && A.Inv(w) && A.IsOpen(w, A.EVENTS) && w.at != A.Handling && nworkers < |w.senders|
    && forall r | r in q :: r in w.queue
  }

  predicate WakersOk(s: State) {
    |s.wakers| == |s.pool.loops| && forall l :: 0 <= l < |s.wakers| ==> WakerOk(s.pool.loops[l].queue, s.wakers[l], |s.pool.workers|)
  }

  ghost predicate Inv(s: State) {
    T.Inv(s.pool) && WakersOk(s)
  }

  /** Of the loops only queues that grow by a delivered or cancelled request matter here. */
  lemma PoolSizes(s: T.State, a: T.Action)
    requires T.Enabled(s, a)
    ensures |T.Apply(s, a).workers| == |s.workers| && |T.Apply(s, a).loops| == |s.loops|
  {
    hide Without;
  }

  lemma SameQueues(s: T.State, a: T.Action)
    requires T.Enabled(s, a) && !a.Deliver? && !a.PostCancel? && !a.Move?
    ensures var t := T.Apply(s, a);
            |t.loops| == |s.loops| && forall l, r :: 0 <= l < |s.loops| && r in t.loops[l].queue ==> r in s.loops[l].queue
  {
    hide Without, T.Enqueue, T.TakeTurn;
    if a.TryCancel? {
      var l := s.reqs[a.r].loop;
      WithoutLess(s.loops[l].queue, a.r);
    } else if a.Turn? {
      TurnLoops(s, a.i, a.wake);
    }
  }

  lemma TurnLoops(s: T.State, i: nat, wake: nat)
    requires i < |s.workers|
    ensures T.TakeTurn(s, i, wake).loops == s.loops
  {
    hide T.Enqueue;
  }

  lemma {:induction false} WithoutLess(q: seq<T.Req>, x: T.Req)
    ensures forall r | r in Without(q, x) :: r in q
  {
    if q != [] && q[0] != x {
      WithoutLess(q[1..], x);
    }
  }

  lemma PushOk(q: seq<T.Req>, w: A.State, n: nat, j: nat, r: T.Req)
    requires WakerOk(q, w, n) && A.Enabled(w, A.Push(j, r))
    ensures WakerOk(q + [r], A.Apply(w, A.Push(j, r)), n)
  {
    hide A.Inv;
    A.InvKept(w, A.Push(j, r));
    var t := A.Apply(w, A.Push(j, r));
    assert t.queue == w.queue + [r] && t.queue[|w.queue|] == r;
    forall x | x in q + [r] ensures x in t.queue {
      if x in q {
        assert x in w.queue;
      }
    }
  }

  lemma DrainedOk(q: seq<T.Req>, w: A.State, n: nat)
    requires WakerOk(q, w, n) && w.at == A.Calling(A.EVENTS) && w.lock == A.Free
    ensures WakerOk([], Drained(w), n)
  {
    hide NoDuplicates;
    var t := Drained(w);
    assert t.handled + t.queue == w.handled + w.queue;
    assert A.LockOk(t);
  }

  lemma WakeOk(q: seq<T.Req>, w: A.State, n: nat, a: A.Action)
    requires WakerOk(q, w, n) && A.Enabled(w, a)
    requires !a.Push? && !a.LockQueue? && !a.HandleEvent? && !a.UnlockQueue? && a != A.Close(A.EVENTS)
    ensures WakerOk(q, A.Apply(w, a), n)
  {
    hide A.Inv;
    A.InvKept(w, a);
    StaysOpen(w, a);
    Untouched(w, a);
  }

  lemma Untouched(w: A.State, a: A.Action)
    requires A.Enabled(w, a) && !a.Push? && !a.LockQueue? && !a.HandleEvent? && !a.UnlockQueue? && w.at != A.Handling
    ensures var t := A.Apply(w, a); t.queue == w.queue && t.at != A.Handling && |t.senders| == |w.senders|
  {
    hide Without;
  }

  lemma StaysOpen(w: A.State, a: A.Action)
    requires A.Inv(w) && A.Enabled(w, a) && A.IsOpen(w, A.EVENTS) && a != A.Close(A.EVENTS)
    ensures A.IsOpen(A.Apply(w, a), A.EVENTS)
  {
    hide Without, NoDuplicates;
    if a.Close? {
      A.ListsKept(w, a);
    }
  }

  lemma {:induction false} InvKept(s: State, a: Action)
    requires Inv(s) && Enabled(s, a)
    ensures Inv(Apply(s, a))
  {
    hide T.Inv, WakerOk, T.Apply, A.Apply, T.Enabled, A.Enabled;
    match a
    case Wake(l, b) => WakeOk(s.pool.loops[l].queue, s.wakers[l], |s.pool.workers|, b);
    case Pool(b) =>
      T.InvKept(s.pool, b);
      PoolSizes(s.pool, b);
      PoolWakers(s, b);
  }

  lemma PoolWakers(s: State, a: T.Action)
    requires Inv(s) && Enabled(s, Pool(a))
    ensures WakersOk(Apply(s, Pool(a)))
  {
    hide T.Inv, WakerOk, A.Apply, A.Enabled;
    var t, n := T.Apply(s.pool, a), |s.pool.workers|;
    PoolSizes(s.pool, a);
    match a
    case Deliver(i) =>
      var l := LoopOf(s, i);
      PushOk(s.pool.loops[l].queue, s.wakers[l], n, i, s.pool.workers[i].req);
    case PostCancel(l) => PushOk(s.pool.loops[l].queue, s.wakers[l], n, n, s.pool.loops[l].cancelling.value);
    case Move(l) => DrainedOk(s.pool.loops[l].queue, s.wakers[l], n);
    case _ =>
      SameQueues(s.pool, a);
      forall l | 0 <= l < |s.wakers| ensures WakerOk(t.loops[l].queue, s.wakers[l], n) {
        FewerOk(s.pool.loops[l].queue, t.loops[l].queue, s.wakers[l], n);
      }
  }

  lemma FewerOk(q: seq<T.Req>, q': seq<T.Req>, w: A.State, n: nat)
    requires WakerOk(q, w, n) && forall r | r in q' :: r in q
    ensures WakerOk(q', w, n)
  {
    hide A.Inv;
  }

  lemma InvAtStart(nworkers: nat, wakers: seq<A.State>)
    requires nworkers > 0 && forall w | w in wakers :: Fresh(w, nworkers)
    ensures Inv(Init(nworkers, wakers))
  {
    hide T.Inv, A.Inv, Fresh;
    T.InvAtStart(nworkers, |wakers|);
    forall l | 0 <= l < |wakers| ensures WakerOk([], wakers[l], nworkers) {
      assert wakers[l] in wakers;
      FreshOk(wakers[l], nworkers);
    }
  }

  lemma FreshOk(w: A.State, nworkers: nat)
    requires Fresh(w, nworkers)
    ensures WakerOk([], w, nworkers)
  {
    hide A.Inv, NoDuplicates;
    A.InvAtStart(|w.senders|, w.capacity, w.eventfd, w.handles);
  }

  lemma {:induction false} InvOfRun(s: State, actions: seq<Action>)
    requires Inv(s) && Run(s, actions).Some?
    ensures Inv(Run(s, actions).value)
    decreases |actions|
  {
    hide Inv, Apply;
    if actions != [] {
      InvKept(s, actions[0]);
      InvOfRun(Apply(s, actions[0]), actions[1..]);
    }
  }

  /** uv__work_done is running, or the loop is on its way to it, or a thread that holds wq_mutex is about to see to that. */
  predicate OnItsWay(w: A.State) {
    || w.at == A.Calling(A.EVENTS) || A.Announcing(w)
    || (A.EVENTS in w.pending && (w.bytes > 0 || A.WriteComing(w.senders) || w.at in {A.Reading, A.Moving} || A.EVENTS in w.moved))
  }

  /** No completion is lost: after every run, a loop with finished requests in its queue is going to take them. */
  lemma NoCompletionIsLost(nworkers: nat, wakers: seq<A.State>, actions: seq<Action>, l: nat)
    requires nworkers > 0 && (forall w | w in wakers :: Fresh(w, nworkers)) && Run(Init(nworkers, wakers), actions).Some?
    ensures var s := Run(Init(nworkers, wakers), actions).value;
            |s.wakers| == |s.pool.loops| && (l < |s.wakers| && s.pool.loops[l].queue != [] ==> OnItsWay(s.wakers[l]))
  {
    hide Run, T.Inv, Fresh, WakerOk, OnItsWay;
    InvAtStart(nworkers, wakers);
    InvOfRun(Init(nworkers, wakers), actions);
    var s := Run(Init(nworkers, wakers), actions).value;
    if l < |s.wakers| && s.pool.loops[l].queue != [] {
      QueuedIsComing(s.pool.loops[l].queue, s.wakers[l], |s.pool.workers|);
    }
  }

  lemma QueuedIsComing(q: seq<T.Req>, w: A.State, n: nat)
    requires WakerOk(q, w, n) && q != []
    ensures OnItsWay(w)
  {
    hide NoDuplicates, A.LockOk;
    assert q[0] in w.queue;
  }

  // ---------- Pool and loops get to rest, and then every callback has run ----------

  /** The steps that finish what was begun: no new requests, cancels, sends or handles, and no spurious wake-ups. */
  predicate Finishing(a: Action) {
    match a
    case Pool(b) => T.WorkerStep(b) || b.PostCancel? || b.Move? || b.Done?
    case Wake(_, b) => A.Finishing(b)
  }

  function Cancels(loops: seq<T.Loop>): nat {
    if loops == [] then 0 else Cancels(loops[..|loops| - 1]) + if loops[|loops| - 1].cancelling.Some? then 1 else 0
  }

  function ToCall(loops: seq<T.Loop>): nat {
    if loops == [] then 0 else ToCall(loops[..|loops| - 1]) + |loops[|loops| - 1].drain|
  }

  lemma {:induction false} LoopUpdate(loops: seq<T.Loop>, l: nat, x: T.Loop)
    requires l < |loops|
    ensures Cancels(loops[l := x]) == Cancels(loops) - Cancels([loops[l]]) + Cancels([x])
    ensures ToCall(loops[l := x]) == ToCall(loops) - |loops[l].drain| + |x.drain|
  {
    var n := |loops| - 1;
    assert [x][..0] == [] && [loops[l]][..0] == [];
    if l < n {
      LoopUpdate(loops[..n], l, x);
      assert loops[l := x][..n] == loops[..n][l := x];
    } else {
      assert loops[l := x][..n] == loops[..n];
    }
  }

  predicate SamePool(t: T.State, s: T.State) {
    t.workers == s.workers && t.wq == s.wq && t.slow == s.slow
  }

  predicate OneNearer(t: seq<A.State>, s: seq<A.State>) {
    |t| == |s| && exists l :: 0 <= l < |s| && t == s[l := t[l]] && A.Nearer(t[l], s[l])
  }

  /**
   * The state t is nearer to rest than s: the pool is, or else fewer cancels are under way, or else one of the
   * wake-up machines is nearer while the others stand, or else fewer callbacks are to be run.
   */
  predicate Nearer(t: State, s: State) {
    || T.Nearer(t.pool, s.pool)
    || (SamePool(t.pool, s.pool)
        && (Cancels(t.pool.loops) < Cancels(s.pool.loops)
            || (Cancels(t.pool.loops) == Cancels(s.pool.loops)
                && (OneNearer(t.wakers, s.wakers) || (t.wakers == s.wakers && ToCall(t.pool.loops) < ToCall(s.pool.loops))))))
  }

  /** Each finishing step brings pool and loops nearer to rest. */
  lemma FinishingEnds(s: State, a: Action)
    requires Inv(s) && Enabled(s, a) && Finishing(a)
    ensures Nearer(Apply(s, a), s)
  {
    hide WakersOk, T.Inv, A.Nearer, T.Nearer, A.Apply, T.PoolEffort, A.Enabled, OneNearer;
    match a
    case Wake(l, b) =>
      A.FinishingEnds(s.wakers[l], b);
      MadeNearer(s.wakers, l, A.Apply(s.wakers[l], b));
    case Pool(b) =>
      if T.WorkerStep(b) {
        T.WorkersMakeProgress(s.pool, b);
      } else {
        match b
        case PostCancel(l) => LoopUpdate(s.pool.loops, l, T.Apply(s.pool, b).loops[l]);
        case Move(l) =>
          LoopUpdate(s.pool.loops, l, T.Apply(s.pool, b).loops[l]);
          DrainedNearer(s.wakers[l]);
          MadeNearer(s.wakers, l, Drained(s.wakers[l]));
        case Done(l) => LoopUpdate(s.pool.loops, l, T.Apply(s.pool, b).loops[l]);
      }
  }

  lemma MadeNearer(ws: seq<A.State>, l: nat, w: A.State)
    requires l < |ws| && A.Nearer(w, ws[l])
    ensures OneNearer(ws[l := w], ws)
  {
    hide A.Nearer;
    var t := ws[l := w];
    assert t == ws[l := t[l]];
  }

  lemma DrainedNearer(w: A.State)
    requires w.at == A.Calling(A.EVENTS)
    ensures A.Nearer(Drained(w), w)
  {
  }

  predicate Quiet(w: A.State) {
    forall j :: 0 <= j < |w.senders| ==> w.senders[j] == A.Idle
  }

  /** A sender that has begun can go on. */
  lemma SenderStep(s: State, l: nat) returns (a: Action)
    requires l < |s.wakers| && !Quiet(s.wakers[l])
    ensures Finishing(a) && Enabled(s, a)
  {
    var w := s.wakers[l];
    var j: nat :| j < |w.senders| && w.senders[j] != A.Idle;
    match w.senders[j]
    case Checking(_, _) => a := Wake(l, A.Check(j));
    case Swapping(_, _) => a := Wake(l, A.Swap(j));
    case Writing(_, _) => a := Wake(l, A.Write(j));
  }

  /** When no sender is busy nobody holds the mutex of the queue, and nobody writes. */
  lemma QuietIsFree(q: seq<T.Req>, w: A.State, n: nat)
    requires WakerOk(q, w, n) && Quiet(w)
    ensures w.lock == A.Free && !A.WriteComing(w.senders) && n < |w.senders|
  {
    hide A.ListsOk, A.PendingOk, A.QueueOk;
    assert A.LockOk(w);
  }

  lemma AllQuiet(s: State, l: nat)
    requires WakersOk(s) && l < |s.wakers| && Quiet(s.wakers[l])
    ensures s.wakers[l].lock == A.Free && |s.pool.workers| < |s.wakers[l].senders| && OwnThreadIdle(s, l)
  {
    hide WakerOk, A.WriteComing;
    QuietIsFree(s.pool.loops[l].queue, s.wakers[l], |s.pool.workers|);
    EnoughSenders(s, l);
  }

  lemma EnoughSenders(s: State, l: nat)
    requires WakersOk(s) && l < |s.wakers|
    ensures |s.pool.workers| < |s.wakers[l].senders|
  {
    hide A.Inv;
  }

  /** A worker that does not wait can go on. */
  lemma WorkerStep(s: State, i: nat) returns (a: Action)
    requires Inv(s) && (forall w | w in s.wakers :: Quiet(w)) && i < |s.pool.workers| && s.pool.workers[i] != T.Waiting
    ensures Finishing(a) && Enabled(s, a)
  {
    hide T.Inv, WakerOk;
    var b := T.SomeStep(s.pool, i);
    a := Pool(b);
    if b.Deliver? {
      var l := LoopOf(s, b.i);
      assert s.wakers[l] in s.wakers;
      AllQuiet(s, l);
    } else if b.Lock? {
      forall l | 0 <= l < |s.wakers| && b.i < |s.wakers[l].senders| ensures s.wakers[l].senders[b.i] == A.Idle {
        assert s.wakers[l] in s.wakers;
      }
    }
  }

  /** A loop with a cancelled, finished or taken request can go on. */
  lemma LoopStep(s: State, l: nat) returns (a: Action)
    requires Inv(s) && (forall w | w in s.wakers :: Quiet(w)) && l < |s.wakers|
    requires s.pool.loops[l].cancelling.Some? || s.pool.loops[l].drain != [] || s.pool.loops[l].queue != []
    ensures Finishing(a) && Enabled(s, a)
  {
    hide T.PoolOk, T.HistoriesOk, T.LoopsOk, WakerOk;
    var loop := s.pool.loops[l];
    assert s.wakers[l] in s.wakers;
    AllQuiet(s, l);
    if loop.cancelling.Some? {
      assert T.Held(s.pool, loop.cancelling.value, l, T.Cancelling);
      a := Pool(T.PostCancel(l));
    } else if loop.drain != [] {
      assert T.Held(s.pool, loop.drain[0], l, T.InDrain);
      a := Pool(T.Done(l));
    } else {
      assert LoopFree(s, l);
      a := WakeUp(s, l);
    }
  }

  /** The wake-up machine of a loop with finished requests in its queue can go on. */
  lemma WakeUp(s: State, l: nat) returns (a: Action)
    requires WakersOk(s) && LoopFree(s, l) && Quiet(s.wakers[l]) && s.pool.loops[l].queue != []
    ensures Finishing(a) && Enabled(s, a)
  {
    hide A.ListsOk, A.LockOk, A.QueueOk, A.PendingOk, WakerOk;
    var w := s.wakers[l];
    QuietIsFree(s.pool.loops[l].queue, w, |s.pool.workers|);
    QueuedIsComing(s.pool.loops[l].queue, w, |s.pool.workers|);
    Stations(s.pool.loops[l].queue, w, |s.pool.workers|);
    match w.at
    case Polling => a := Wake(l, A.Wake);
    case Reading => a := Wake(l, A.Read);
    case Moving => a := Wake(l, A.Move);
    case Draining => a := Wake(l, if w.moved == [] then A.Leave else A.Visit);
    case Calling(h) => a := if h == A.EVENTS then Pool(T.Move(l)) else Wake(l, A.Return);
  }

  lemma Stations(q: seq<T.Req>, w: A.State, n: nat)
    requires WakerOk(q, w, n)
    ensures w.at != A.Handling && (w.at == A.Polling ==> w.moved == [])
  {
  }

  /** As long as a request has not had its callback some finishing step can be made. */
  lemma SomeStep(s: State, r: T.Req) returns (a: Action)
    requires Inv(s) && r in s.pool.reqs && s.pool.reqs[r].at != T.Finished
    ensures Finishing(a) && Enabled(s, a)
  {
    hide T.PoolOk, T.LoopsOk, WakerOk, Quiet, Enabled, Finishing;
    if w :| w in s.wakers && !Quiet(w) {
      var l: nat :| l < |s.wakers| && s.wakers[l] == w;
      a := SenderStep(s, l);
    } else if i: nat :| i < |s.pool.workers| && s.pool.workers[i] != T.Waiting {
      a := WorkerStep(s, i);
    } else {
      var q := s.pool.reqs[r];
      assert T.Held(s.pool, r, q.loop, q.at);
      AsleepIsEmpty(s.pool);
      a := LoopStep(s, q.loop);
    }
  }

  lemma AsleepIsEmpty(s: T.State)
    requires T.PoolOk(s) && forall i :: 0 <= i < |s.workers| ==> s.workers[i] == T.Waiting
    ensures s.wq == [] && s.slow == []
  {
  }

  /**
   * When pool and loops are at rest every request that was ever submitted has had its callback, once: with
   * UV_ECANCELED and without its work if a cancel of it succeeded, after its work otherwise.
   */
  lemma RestIsDone(nworkers: nat, wakers: seq<A.State>, actions: seq<Action>, r: T.Req)
    requires nworkers > 0 && (forall w | w in wakers :: Fresh(w, nworkers)) && Run(Init(nworkers, wakers), actions).Some?
    requires var s := Run(Init(nworkers, wakers), actions).value;
             r in s.pool.reqs && forall a :: Finishing(a) ==> !Enabled(s, a)
    ensures var q := Run(Init(nworkers, wakers), actions).value.pool.reqs[r];
            && q.at == T.Finished && q.dones == 1 && (q.canceled <==> q.cancels > 0) && q.runs == if q.canceled then 0 else 1
  {
    hide Run, T.PoolOk, T.PlacesOk, T.LoopsOk, WakersOk, Enabled, Finishing, Fresh;
    InvAtStart(nworkers, wakers);
    InvOfRun(Init(nworkers, wakers), actions);
    var s := Run(Init(nworkers, wakers), actions).value;
    assert T.HistoryOk(s.pool.reqs[r]);
    if s.pool.reqs[r].at != T.Finished {
      var a := SomeStep(s, r);
      assert false;
    }
  }
}
