/**
 * The thread pool of libuv/src/threadpool.c as a machine of atomic steps. What a thread does while
 * it holds `mutex` is one step, except that a worker's turn round its loop is a step of its own.
 */
module ThreadPool {
  import opened Wrappers
  import opened Sequences

  type Req = nat

  datatype Kind = Cpu | SlowIo

  /** An entry of wq: a request, or run_slow_work_message. */
  datatype Item = Work(req: Req) | RunSlow

  /** Where a pool thread is. */
  datatype Worker =
    | Entering(slow: bool)           // about to lock mutex; it has slow_io_work_running to give back if slow
    | Looping                        // holds mutex, at the top of the loop
    | Waiting                        // in uv_cond_wait, not signalled
    | Woken                          // signalled, about to lock mutex again inside uv_cond_wait
    | Running(req: Req, slow: bool)  // has taken a request
    | Ran(req: Req, slow: bool)      // has run its work function

  /** w->work: the function, NULL once it has run, or uv__cancelled. */
  datatype WorkField = Function | Null | Cancelled

  /** The places a request can be linked or held at; `ran` says whether the worker has run it. */
  datatype Place = InWq | InSlow | AtWorker(i: nat, ran: bool) | Cancelling | InLoopQueue | InDrain | Finished

  /** A request with its history. */
  datatype Request = Request(loop: nat, work: WorkField, at: Place, runs: nat, cancels: nat, dones: nat, canceled: bool)

  /** A loop: its wq, the local queue of uv__work_done, and the request a cancel has taken out. */
  datatype Loop = Loop(queue: seq<Req>, drain: seq<Req>, cancelling: Option<Req>)

  datatype State = State(workers: seq<Worker>, wq: seq<Item>, slow: seq<Req>, idle: int, slowRunning: int,
                         loops: seq<Loop>, reqs: map<Req, Request>)

  /** One atomic step; `wake` is the thread a uv_cond_signal wakes, if one waits. */
  datatype Action =
    | Submit(r: Req, loop: nat, kind: Kind, wake: nat)
    | Lock(i: nat)
    | Relock(i: nat)
    | Spurious(i: nat)
    | Turn(i: nat, wake: nat)
    | Execute(i: nat)
    | Deliver(i: nat)
    | TryCancel(r: Req)
    | PostCancel(l: nat)
    | Move(l: nat)
    | Done(l: nat)

  /** slow_work_thread_threshold */
  function Threshold(n: nat): nat {
    (n + 1) / 2
  }

  predicate Unlocked(s: State) {
    Looping !in s.workers
  }

  /** uv_cond_signal wakes a waiting thread if there is one. */
  predicate CanWake(s: State, wake: nat) {
    Waiting in s.workers ==> wake < |s.workers| && s.workers[wake] == Waiting
  }

  function Signal(s: State, wake: nat): State {
    if wake < |s.workers| && s.workers[wake] == Waiting then s.(workers := s.workers[wake := Woken]) else s
  }

  function SetPlace(s: State, r: Req, at: Place): State {
    if r in s.reqs then s.(reqs := s.reqs[r := s.reqs[r].(at := at)]) else s
  }

  predicate Holds(s: State, i: nat, ran: bool, r: Req) {
    i < |s.workers| && (if ran then s.workers[i].Ran? else s.workers[i].Running?) && s.workers[i].req == r && r in s.reqs
  }

  /** The guard of the waiting loop, lines 71-74. */
  predicate MustWait(s: State) {
    s.wq == [] || (s.wq == [RunSlow] && s.slowRunning >= Threshold(|s.workers|))
  }

  predicate OnLoop(s: State, l: nat) {
    l < |s.loops| && s.loops[l].cancelling == None
  }

  predicate Enabled(s: State, a: Action) {
    match a
    case Submit(r, loop, kind, wake) => Unlocked(s) && r !in s.reqs && loop < |s.loops| && CanWake(s, wake)
    case Lock(i) => i < |s.workers| && s.workers[i].Entering? && Unlocked(s)
    case Relock(i) => i < |s.workers| && s.workers[i] == Woken && Unlocked(s)
    case Spurious(i) => i < |s.workers| && s.workers[i] == Waiting
    case Turn(i, wake) => i < |s.workers| && s.workers[i] == Looping && CanWake(s, wake)
    case Execute(i) => i < |s.workers| && s.workers[i].Running? && Holds(s, i, false, s.workers[i].req)
    case Deliver(i) => i < |s.workers| && s.workers[i].Ran? && Holds(s, i, true, s.workers[i].req) && s.reqs[s.workers[i].req].loop < |s.loops|
    case TryCancel(r) => Unlocked(s) && r in s.reqs && s.reqs[r].at != Finished && OnLoop(s, s.reqs[r].loop)
    case PostCancel(l) => l < |s.loops| && s.loops[l].cancelling.Some? && s.loops[l].cancelling.value in s.reqs
    case Move(l) => OnLoop(s, l) && s.loops[l].drain == []
    case Done(l) => OnLoop(s, l) && s.loops[l].drain != [] && s.loops[l].drain[0] in s.reqs
  }

  /** QUEUE_INSERT_TAIL(&wq, q), and a signal if the counter says that a thread is idle. */
  function Enqueue(s: State, item: Item, wake: nat): (t: State)
    ensures t.reqs == s.reqs && t.loops == s.loops
  {
    var t := s.(wq := s.wq + [item]);
    if s.idle > 0 then Signal(t, wake) else t
  }

  /** post() for a request, lines 142-160. */
  function Post(s: State, r: Req, kind: Kind, wake: nat): State {
    if kind == SlowIo then
      var t := s.(slow := s.slow + [r]);
      if RunSlow in s.wq then t else Enqueue(t, RunSlow, wake)
    else Enqueue(s, Work(r), wake)
  }

  /** Worker i takes the first slow request, lines 104-116. */
  function TakeSlow(s: State, i: nat, wake: nat): State
    requires i < |s.workers| && s.slow != []
  {
    var r, more := s.slow[0], s.slow[1..];
    var t := SetPlace(s.(slowRunning := s.slowRunning + 1, slow := more, workers := s.workers[i := Running(r, true)]), r, AtWorker(i, false));
    if more == [] then t else Enqueue(t, RunSlow, wake)
  }

  /** One turn of worker i round its loop, lines 71-119, while it holds the mutex. */
  function TakeTurn(s: State, i: nat, wake: nat): State
    requires i < |s.workers|
  {
    if MustWait(s) then s.(idle := s.idle + 1, workers := s.workers[i := Waiting])
    else
      var rest := s.(wq := s.wq[1..]);
      match s.wq[0]
      case Work(r) => SetPlace(rest.(workers := s.workers[i := Running(r, false)]), r, AtWorker(i, false))
      case RunSlow =>
        if s.slowRunning >= Threshold(|s.workers|) then rest.(wq := rest.wq + [RunSlow])
        else if s.slow == [] then rest
        else TakeSlow(rest, i, wake)
  }

  /** Whether uv__work_cancel takes the request: it is linked in a queue and its work is not NULL. */
  predicate Cancellable(q: Request) {
    q.at in {InWq, InSlow, InLoopQueue, InDrain} && q.work != Null
  }

  function Apply(s: State, a: Action): State
    requires Enabled(s, a)
  {
    match a
    case Submit(r, loop, kind, wake) =>
      var q := Request(loop, Function, if kind == Cpu then InWq else InSlow, 0, 0, 0, false);
      Post(s.(reqs := s.reqs[r := q]), r, kind, wake)
    case Lock(i) =>
      s.(slowRunning := s.slowRunning - if s.workers[i].slow then 1 else 0, workers := s.workers[i := Looping])
    case Relock(i) => s.(idle := s.idle - 1, workers := s.workers[i := Looping])
    case Spurious(i) => s.(workers := s.workers[i := Woken])
    case Turn(i, wake) => TakeTurn(s, i, wake)
    case Execute(i) =>
      var r := s.workers[i].req;
      s.(workers := s.workers[i := Ran(r, s.workers[i].slow)],
         reqs := s.reqs[r := s.reqs[r].(at := AtWorker(i, true), runs := s.reqs[r].runs + 1)])
    case Deliver(i) =>
      var r := s.workers[i].req;
      var q := s.reqs[r];
      var l := s.loops[q.loop];
      s.(workers := s.workers[i := Entering(s.workers[i].slow)],
         loops := s.loops[q.loop := l.(queue := l.queue + [r])],
         reqs := s.reqs[r := q.(work := Null, at := InLoopQueue)])
    case TryCancel(r) =>
      var q := s.reqs[r];
      if !Cancellable(q) then s  // UV_EBUSY
      else
        var l := s.loops[q.loop];
        s.(wq := Without(s.wq, Work(r)), slow := Without(s.slow, r),
           loops := s.loops[q.loop := Loop(Without(l.queue, r), Without(l.drain, r), Some(r))],
           reqs := s.reqs[r := q.(at := Cancelling, cancels := q.cancels + 1)])
    case PostCancel(l) =>
      var r := s.loops[l].cancelling.value;
      s.(loops := s.loops[l := s.loops[l].(queue := s.loops[l].queue + [r], cancelling := None)],
         reqs := s.reqs[r := s.reqs[r].(work := Cancelled, at := InLoopQueue)])
    case Move(l) =>
      var q := s.loops[l].queue;
      s.(loops := s.loops[l := s.loops[l].(queue := [], drain := q)],
         reqs := map r | r in s.reqs :: if r in q then s.reqs[r].(at := InDrain) else s.reqs[r])
    case Done(l) =>
      var r := s.loops[l].drain[0];
      s.(loops := s.loops[l := s.loops[l].(drain := s.loops[l].drain[1..])],
         reqs := s.reqs[r := s.reqs[r].(at := Finished, dones := s.reqs[r].dones + 1, canceled := s.reqs[r].work == Cancelled)])
  }

  function Init(nworkers: nat, nloops: nat): State {
    State(seq(nworkers, i => Entering(false)), [], [], 0, 0, seq(nloops, i => Loop([], [], None)), map[])
  }

  /** The state after a list of steps; None if one of them was not possible. */
  function Run(s: State, actions: seq<Action>): Option<State>
    decreases |actions|
  {
    if actions == [] then Some(s)
    else if Enabled(s, actions[0]) then Run(Apply(s, actions[0]), actions[1..])
    else None
  }

  // ---------- Sums over the workers ----------

  function Total(ws: seq<Worker>, f: Worker -> nat): nat {
    if ws == [] then 0 else Total(ws[..|ws| - 1], f) + f(ws[|ws| - 1])
  }

  lemma {:induction false} TotalUpdate(ws: seq<Worker>, f: Worker -> nat, i: nat, w: Worker)
    requires i < |ws|
    ensures Total(ws[i := w], f) == Total(ws, f) - f(ws[i]) + f(w)
  {
    var n := |ws| - 1;
    if i < n {
      TotalUpdate(ws[..n], f, i, w);
      assert ws[i := w][..n] == ws[..n][i := w];
    } else {
      assert ws[i := w][..n] == ws[..n];
    }
  }

  lemma {:induction false} TotalSame(ws: seq<Worker>, f: Worker -> nat, w: Worker)
    requires forall i :: 0 <= i < |ws| ==> ws[i] == w
    ensures Total(ws, f) == |ws| * f(w)
  {
    if ws != [] {
      TotalSame(ws[..|ws| - 1], f, w);
    }
  }

  function Sleeps(w: Worker): nat {
    if w in {Waiting, Woken} then 1 else 0
  }

  /** Whether the thread has slow_io_work_running to give back. */
  function Slow(w: Worker): nat {
    match w
    case Entering(slow) => if slow then 1 else 0
    case Running(_, slow) => if slow then 1 else 0
    case Ran(_, slow) => if slow then 1 else 0
    case _ => 0
  }

  // ---------- The pool: counters, mutex, message, wake-up ----------

  predicate OneOwner(ws: seq<Worker>) {
    forall i, j :: 0 <= i < j < |ws| && ws[i] == Looping ==> ws[j] != Looping
  }

  predicate CountersOk(s: State) {
    |s.workers| > 0 && OneOwner(s.workers) && s.idle == Total(s.workers, Sleeps) && s.slowRunning == Total(s.workers, Slow)
  }

  predicate QueuesOk(s: State) {
    NoDuplicates(s.wq) && NoDuplicates(s.slow) && (s.slow != [] ==> RunSlow in s.wq)
  }

  predicate Awake(s: State) {
    exists i :: 0 <= i < |s.workers| && s.workers[i] != Waiting
  }

  predicate PoolOk(s: State) {
    CountersOk(s) && QueuesOk(s) && (s.wq != [] ==> Awake(s))
  }

  lemma SetWorker(s: State, i: nat, w: Worker)
    requires CountersOk(s) && i < |s.workers| && (w == Looping ==> s.workers[i] == Looping || Unlocked(s))
    ensures CountersOk(s.(workers := s.workers[i := w], idle := s.idle - Sleeps(s.workers[i]) + Sleeps(w),
                          slowRunning := s.slowRunning - Slow(s.workers[i]) + Slow(w)))
  {
    TotalUpdate(s.workers, Sleeps, i, w);
    TotalUpdate(s.workers, Slow, i, w);
  }

  /** If nobody is awake the counters say that all sleep, and no slow work runs. */
  lemma Asleep(s: State)
    requires CountersOk(s) && !Awake(s)
    ensures s.idle == |s.workers| > 0 && s.slowRunning == 0 && Waiting in s.workers
  {
    TotalSame(s.workers, Sleeps, Waiting);
    TotalSame(s.workers, Slow, Waiting);
    assert s.workers[0] == Waiting;
  }

  lemma SignalPool(s: State, wake: nat)
    requires CountersOk(s) && CanWake(s, wake)
    ensures CountersOk(Signal(s, wake))
    ensures s.idle > 0 || Awake(s) ==> Awake(Signal(s, wake))
  {
    var t := Signal(s, wake);
    if wake < |s.workers| && s.workers[wake] == Waiting {
      SetWorker(s, wake, Woken);
      assert t.workers[wake] != Waiting;
    } else if s.idle > 0 && !Awake(s) {
      Asleep(s);
    }
  }

  lemma EnqueuePool(s: State, item: Item, wake: nat)
    requires CountersOk(s) && NoDuplicates(s.wq) && NoDuplicates(s.slow) && CanWake(s, wake) && item !in s.wq
    requires s.slow != [] ==> RunSlow in s.wq || item == RunSlow
    ensures PoolOk(Enqueue(s, item, wake))
  {
    hide NoDuplicates, OneOwner;
    Appended(s.wq, item);
    var t := s.(wq := s.wq + [item]);
    assert item == t.wq[|s.wq|];
    SignalPool(t, wake);
    if !Awake(s) {
      Asleep(s);
    }
  }

  lemma PostPool(s: State, r: Req, kind: Kind, wake: nat)
    requires PoolOk(s) && CanWake(s, wake) && Work(r) !in s.wq && r !in s.slow
    ensures PoolOk(Post(s, r, kind, wake))
  {
    hide NoDuplicates, OneOwner;
    if kind == SlowIo {
      Appended(s.slow, r);
      var t := s.(slow := s.slow + [r]);
      if RunSlow !in s.wq {
        EnqueuePool(t, RunSlow, wake);
      }
    } else {
      EnqueuePool(s, Work(r), wake);
    }
  }

  lemma TakeSlowPool(s: State, i: nat, wake: nat)
    requires CountersOk(s) && NoDuplicates(s.wq) && NoDuplicates(s.slow) && CanWake(s, wake) && RunSlow !in s.wq
    requires i < |s.workers| && s.workers[i] == Looping && s.slow != []
    ensures PoolOk(TakeSlow(s, i, wake))
  {
    hide OneOwner;
    var r, more := s.slow[0], s.slow[1..];
    SetWorker(s, i, Running(r, true));
    var t := SetPlace(s.(slowRunning := s.slowRunning + 1, slow := more, workers := s.workers[i := Running(r, true)]), r, AtWorker(i, false));
    assert CountersOk(t);
    assert t.workers[i] != Waiting;
    if more != [] {
      assert CanWake(t, wake);
      EnqueuePool(t, RunSlow, wake);
    }
  }

  lemma TurnPool(s: State, i: nat, wake: nat)
    requires PoolOk(s) && i < |s.workers| && s.workers[i] == Looping && CanWake(s, wake)
    ensures PoolOk(TakeTurn(s, i, wake))
  {
    hide OneOwner;
    var t := TakeTurn(s, i, wake);
    if MustWait(s) {
      SetWorker(s, i, Waiting);
      if s.wq != [] && !Awake(t) {
        Asleep(t);
      }
    } else {
      var rest := s.(wq := s.wq[1..]);
      assert s.wq == [s.wq[0]] + rest.wq;
      match s.wq[0]
      case Work(r) =>
        SetWorker(s, i, Running(r, false));
        assert t.workers[i] != Waiting;
      case RunSlow =>
        assert RunSlow !in rest.wq;
        assert s.workers[i] != Waiting;
        if s.slowRunning >= Threshold(|s.workers|) {
          assert t.wq[|rest.wq|] == RunSlow;
        } else if s.slow != [] {
          TakeSlowPool(rest, i, wake);
        }
    }
  }

  lemma {:induction false} PoolKept(s: State, a: Action)
    requires PoolOk(s) && Enabled(s, a)
    requires a.Submit? ==> Work(a.r) !in s.wq && a.r !in s.slow
    ensures PoolOk(Apply(s, a))
  {
    hide PoolOk, CountersOk, TakeTurn, Post, Total;
    match a
    case Submit(r, loop, kind, wake) =>
      var q := Request(loop, Function, if kind == Cpu then InWq else InSlow, 0, 0, 0, false);
      var t := s.(reqs := s.reqs[r := q]);
      SamePool(s, t);
      PostPool(t, r, kind, wake);
    case Lock(i) => MoveWorker(s, Apply(s, a), i);
    case Relock(i) => MoveWorker(s, Apply(s, a), i);
    case Spurious(i) => MoveWorker(s, Apply(s, a), i);
    case Turn(i, wake) => TurnPool(s, i, wake);
    case Execute(i) => MoveWorker(s, Apply(s, a), i);
    case Deliver(i) => MoveWorker(s, Apply(s, a), i);
    case TryCancel(r) =>
      if Cancellable(s.reqs[r]) {
        CancelPool(s, Apply(s, a), r);
      }
    case _ => SamePool(s, Apply(s, a));
  }

  /** Only worker i moves, and not to waiting. */
  lemma MoveWorker(s: State, t: State, i: nat)
    requires PoolOk(s) && i < |s.workers| && |t.workers| == |s.workers| && t.wq == s.wq && t.slow == s.slow
    requires t.workers == s.workers[i := t.workers[i]] && t.workers[i] != Waiting && (t.workers[i] == Looping ==> Unlocked(s))
    requires t.idle == s.idle - Sleeps(s.workers[i]) + Sleeps(t.workers[i])
    requires t.slowRunning == s.slowRunning - Slow(s.workers[i]) + Slow(t.workers[i])
    ensures PoolOk(t)
  {
    hide OneOwner, NoDuplicates, Total;
    SetWorker(s, i, t.workers[i]);
  }

  lemma SamePool(s: State, t: State)
    requires PoolOk(s) && t.workers == s.workers && t.wq == s.wq && t.slow == s.slow && t.idle == s.idle && t.slowRunning == s.slowRunning
    ensures PoolOk(t)
  {
    hide OneOwner, NoDuplicates, Total;
  }

  lemma CancelPool(s: State, t: State, r: Req)
    requires PoolOk(s) && t.workers == s.workers && t.idle == s.idle && t.slowRunning == s.slowRunning
    requires t.wq == Without(s.wq, Work(r)) && t.slow == Without(s.slow, r)
    ensures PoolOk(t)
  {
    hide OneOwner, NoDuplicates, Total;
    WithoutIs(s.wq, Work(r));
    WithoutIs(s.slow, r);
    assert t.slow != [] ==> t.slow[0] in s.slow;
    assert t.wq != [] ==> t.wq[0] in s.wq;
  }

  // ---------- Each request is at exactly one place ----------

  /** Whether request r is linked or held at the place; for the three places of a loop, of loop l. */
  predicate Held(s: State, r: Req, l: nat, at: Place) {
    match at
    case InWq => Work(r) in s.wq
    case InSlow => r in s.slow
    case AtWorker(i, ran) => i < |s.workers| && (if ran then s.workers[i].Ran? else s.workers[i].Running?) && s.workers[i].req == r
    case Cancelling => l < |s.loops| && s.loops[l].cancelling == Some(r)
    case InLoopQueue => l < |s.loops| && r in s.loops[l].queue
    case InDrain => l < |s.loops| && r in s.loops[l].drain
    case Finished => false
  }

  /** Whether the request's own record says that it is there. */
  predicate Says(s: State, r: Req, l: nat, at: Place) {
    r in s.reqs && s.reqs[r].at == at != Finished && (at in {Cancelling, InLoopQueue, InDrain} ==> s.reqs[r].loop == l)
  }

  ghost predicate PlacesOk(s: State) {
    forall r, l, at :: Held(s, r, l, at) <==> Says(s, r, l, at)
  }

  predicate LoopsOk(s: State) {
    forall l :: 0 <= l < |s.loops| ==> NoDuplicates(s.loops[l].queue) && NoDuplicates(s.loops[l].drain)
  }

  /** What the history of a request says, by the place it is at. */
  predicate HistoryOk(q: Request) {
    match q.at
    case InWq => q.work == Function && q.runs == 0 && q.cancels == 0 && q.dones == 0
    case InSlow => q.work == Function && q.runs == 0 && q.cancels == 0 && q.dones == 0
    case AtWorker(_, ran) => q.work == Function && q.runs == (if ran then 1 else 0) && q.cancels == 0 && q.dones == 0
    case Cancelling => q.runs == 0 && q.cancels > 0 && q.dones == 0
    case Finished => q.dones == 1 && (q.canceled <==> q.cancels > 0) && q.runs == if q.cancels > 0 then 0 else 1
    case _ => q.dones == 0 && q.work == (if q.cancels > 0 then Cancelled else Null) && q.runs == if q.cancels > 0 then 0 else 1
  }

  predicate HistoriesOk(s: State) {
    forall r :: r in s.reqs ==> s.reqs[r].loop < |s.loops| && HistoryOk(s.reqs[r])
  }

  ghost predicate Inv(s: State) {
    PoolOk(s) && PlacesOk(s) && LoopsOk(s) && HistoriesOk(s)
  }

  lemma TurnHistories(s: State, i: nat, wake: nat)
    requires PlacesOk(s) && HistoriesOk(s) && i < |s.workers|
    ensures HistoriesOk(TakeTurn(s, i, wake))
  {
    hide Enqueue;
    var t := TakeTurn(s, i, wake);
    if s.wq != [] && s.wq[0].Work? {
      assert Held(s, s.wq[0].req, 0, InWq);
    } else if s.slow != [] {
      var r := s.slow[0];
      assert Held(s, r, 0, InSlow);
      assert t.reqs == s.reqs || t.reqs == s.reqs[r := s.reqs[r].(at := AtWorker(i, false))];
    }
  }

  lemma MoveHistories(s: State, l: nat)
    requires PlacesOk(s) && HistoriesOk(s) && Enabled(s, Move(l))
    ensures HistoriesOk(Apply(s, Move(l)))
  {
    forall r | r in s.reqs ensures HistoryOk(Apply(s, Move(l)).reqs[r]) {
      assert Held(s, r, l, InLoopQueue) <==> Says(s, r, l, InLoopQueue);
    }
  }

  lemma {:induction false} HistoriesKept(s: State, a: Action)
    requires Inv(s) && Enabled(s, a)
    ensures HistoriesOk(Apply(s, a))
  {
    hide PoolOk, LoopsOk, HistoriesOk, Enqueue, TakeTurn, Without;
    var t := Apply(s, a);
    match a
    case Submit(r, loop, kind, wake) => SetHistory(s, t, r);
    case Turn(i, wake) => TurnHistories(s, i, wake);
    case Execute(i) =>
      assert Held(s, s.workers[i].req, 0, AtWorker(i, false));
      SetHistory(s, t, s.workers[i].req);
    case Deliver(i) =>
      assert Held(s, s.workers[i].req, 0, AtWorker(i, true));
      SetHistory(s, t, s.workers[i].req);
    case TryCancel(r) =>
      if Cancellable(s.reqs[r]) {
        SetHistory(s, t, r);
      }
    case PostCancel(l) =>
      assert Held(s, s.loops[l].cancelling.value, l, Cancelling);
      SetHistory(s, t, s.loops[l].cancelling.value);
    case Move(l) => MoveHistories(s, l);
    case Done(l) =>
      assert Held(s, s.loops[l].drain[0], l, InDrain);
      SetHistory(s, t, s.loops[l].drain[0]);
    case _ => SameHistories(s, t);
  }

  /** The history of one request goes on. */
  lemma SetHistory(s: State, t: State, r: Req)
    requires HistoriesOk(s) && r in t.reqs && t.reqs == s.reqs[r := t.reqs[r]] && |t.loops| == |s.loops|
    requires if r in s.reqs then t.reqs[r].loop == s.reqs[r].loop else t.reqs[r].loop < |s.loops|
    requires (r in s.reqs && HistoryOk(s.reqs[r]) ==> HistoryOk(t.reqs[r])) && (r !in s.reqs ==> HistoryOk(t.reqs[r]))
    ensures HistoriesOk(t)
  {
  }

  lemma SameHistories(s: State, t: State)
    requires HistoriesOk(s) && t.reqs == s.reqs && |t.loops| == |s.loops|
    ensures HistoriesOk(t)
  {
  }

  lemma EnqueueHeld(s: State, item: Item, wake: nat)
    ensures forall r, l, at :: Held(Enqueue(s, item, wake), r, l, at) <==> Held(s, r, l, at) || (at == InWq && item == Work(r))
  {
  }

  lemma TakeSlowPlaces(s: State, i: nat, wake: nat)
    requires PlacesOk(s) && NoDuplicates(s.slow)
    requires i < |s.workers| && s.workers[i] == Looping && s.slow != []
    ensures PlacesOk(TakeSlow(s, i, wake))
  {
    hide Enqueue;
    var r, more := s.slow[0], s.slow[1..];
    assert Held(s, r, 0, InSlow);
    assert s.slow == [r] + more && r !in more;
    var t := SetPlace(s.(slowRunning := s.slowRunning + 1, slow := more, workers := s.workers[i := Running(r, true)]), r, AtWorker(i, false));
    forall r', l, at ensures Held(t, r', l, at) <==> Says(t, r', l, at) {
      assert Held(s, r', l, at) <==> Says(s, r', l, at);
    }
    if more != [] {
      EnqueueHeld(t, RunSlow, wake);
      assert forall r', l, at :: Says(TakeSlow(s, i, wake), r', l, at) <==> Says(t, r', l, at);
    }
  }

  lemma TurnPlaces(s: State, i: nat, wake: nat)
    requires PlacesOk(s) && NoDuplicates(s.wq) && NoDuplicates(s.slow)
    requires i < |s.workers| && s.workers[i] == Looping
    ensures PlacesOk(TakeTurn(s, i, wake))
  {
    hide TakeSlow;
    var t := TakeTurn(s, i, wake);
    if !MustWait(s) {
      var rest := s.(wq := s.wq[1..]);
      assert s.wq == [s.wq[0]] + rest.wq;
      match s.wq[0]
      case Work(r) =>
        assert Held(s, r, 0, InWq);
        assert Work(r) !in rest.wq;
        forall r', l, at ensures Held(t, r', l, at) <==> Says(t, r', l, at) {
          assert Held(s, r', l, at) <==> Says(s, r', l, at);
        }
      case RunSlow =>
        forall r', l, at ensures Held(rest, r', l, at) <==> Says(rest, r', l, at) {
          assert Held(s, r', l, at) <==> Says(s, r', l, at);
        }
        if s.slowRunning >= Threshold(|s.workers|) {
          forall r', l, at ensures Held(t, r', l, at) <==> Says(t, r', l, at) {
            assert Held(s, r', l, at) <==> Says(s, r', l, at);
          }
        } else if s.slow != [] {
          TakeSlowPlaces(rest, i, wake);
        }
    } else {
      forall r', l, at ensures Held(t, r', l, at) <==> Says(t, r', l, at) {
        assert Held(s, r', l, at) <==> Says(s, r', l, at);
      }
    }
  }

  lemma PostPlaces(s: State, r: Req, q: Request, kind: Kind, wake: nat)
    requires PlacesOk(s) && r !in s.reqs && q.at == (if kind == Cpu then InWq else InSlow)
    ensures PlacesOk(Post(s.(reqs := s.reqs[r := q]), r, kind, wake))
  {
    hide Enqueue;
    var u := s.(reqs := s.reqs[r := q]);
    var t := Post(u, r, kind, wake);
    if kind == Cpu {
      EnqueueHeld(u, Work(r), wake);
    } else {
      EnqueueHeld(u.(slow := u.slow + [r]), RunSlow, wake);
    }
    forall r', l, at ensures Held(t, r', l, at) <==> Says(t, r', l, at) {
      assert Held(s, r', l, at) <==> Says(s, r', l, at);
    }
  }

  lemma CancelPlaces(s: State, r: Req)
    requires Inv(s) && Enabled(s, TryCancel(r))
    ensures PlacesOk(Apply(s, TryCancel(r)))
  {
    hide Without, NoDuplicates, HistoryOk;
    var t := Apply(s, TryCancel(r));
    var l0 := s.reqs[r].loop;
    assert LoopsOk(s);
    WithoutIs(s.wq, Work(r));
    WithoutIs(s.slow, r);
    WithoutIs(s.loops[l0].queue, r);
    WithoutIs(s.loops[l0].drain, r);
    forall r', l, at ensures Held(t, r', l, at) <==> Says(t, r', l, at) {
      assert Held(s, r', l, at) <==> Says(s, r', l, at);
    }
  }

  lemma DeliverPlaces(s: State, i: nat)
    requires Inv(s) && Enabled(s, Deliver(i))
    ensures PlacesOk(Apply(s, Deliver(i)))
  {
    hide NoDuplicates, HistoryOk, PoolOk;
    var t := Apply(s, Deliver(i));
    assert Held(s, s.workers[i].req, 0, AtWorker(i, true));
    forall r', l, at ensures Held(t, r', l, at) <==> Says(t, r', l, at) {
      assert Held(s, r', l, at) <==> Says(s, r', l, at);
    }
  }

  lemma DonePlaces(s: State, l0: nat)
    requires PlacesOk(s) && LoopsOk(s) && Enabled(s, Done(l0))
    ensures PlacesOk(Apply(s, Done(l0)))
  {
    var t := Apply(s, Done(l0));
    var q := s.loops[l0].drain;
    assert q == [q[0]] + q[1..] && q[0] !in q[1..];
    assert Held(s, q[0], l0, InDrain);
    forall r', l, at ensures Held(t, r', l, at) <==> Says(t, r', l, at) {
      assert Held(s, r', l, at) <==> Says(s, r', l, at);
    }
  }

  lemma {:induction false} PlacesKept(s: State, a: Action)
    requires Inv(s) && Enabled(s, a)
    ensures PlacesOk(Apply(s, a))
  {
    hide HistoryOk, Post, Enqueue, TakeTurn, Without, Awake, CountersOk, NoDuplicates, Held, Says, PlacesOk, LoopsOk;
    match a
    case Submit(r, loop, kind, wake) => PostPlaces(s, r, Request(loop, Function, if kind == Cpu then InWq else InSlow, 0, 0, 0, false), kind, wake);
    case Turn(i, wake) => TurnPlaces(s, i, wake);
    case TryCancel(r) => CancelPlaces(s, r);
    case Done(l0) => DonePlaces(s, l0);
    case PostCancel(l0) => PostCancelPlaces(s, l0);
    case Move(l0) => MovePlaces(s, l0);
    case Execute(i) => ExecutePlaces(s, i);
    case Deliver(i) => DeliverPlaces(s, i);
    case _ => SamePlaces(s, Apply(s, a));
  }

  lemma PostCancelPlaces(s: State, l0: nat)
    requires PlacesOk(s) && Enabled(s, PostCancel(l0))
    ensures PlacesOk(Apply(s, PostCancel(l0)))
  {
    var t := Apply(s, PostCancel(l0));
    assert Held(s, s.loops[l0].cancelling.value, l0, Cancelling);
    forall r', l, at ensures Held(t, r', l, at) <==> Says(t, r', l, at) {
      assert Held(s, r', l, at) <==> Says(s, r', l, at);
    }
  }

  lemma MovePlaces(s: State, l0: nat)
    requires PlacesOk(s) && Enabled(s, Move(l0))
    ensures PlacesOk(Apply(s, Move(l0)))
  {
    var t := Apply(s, Move(l0));
    forall r', l, at ensures Held(t, r', l, at) <==> Says(t, r', l, at) {
      assert Held(s, r', l, at) <==> Says(s, r', l, at);
      assert Held(s, r', l0, InLoopQueue) <==> Says(s, r', l0, InLoopQueue);
    }
  }

  lemma ExecutePlaces(s: State, i: nat)
    requires PlacesOk(s) && Enabled(s, Execute(i))
    ensures PlacesOk(Apply(s, Execute(i)))
  {
    var t := Apply(s, Execute(i));
    assert Held(s, s.workers[i].req, 0, AtWorker(i, false));
    forall r', l, at ensures Held(t, r', l, at) <==> Says(t, r', l, at) {
      assert Held(s, r', l, at) <==> Says(s, r', l, at);
    }
  }

  /** A worker moves that holds no request before or after. */
  lemma SamePlaces(s: State, t: State)
    requires PlacesOk(s) && t.wq == s.wq && t.slow == s.slow && t.loops == s.loops && t.reqs == s.reqs && |t.workers| == |s.workers|
    requires forall i :: 0 <= i < |s.workers| ==>
      t.workers[i] == s.workers[i] || (!s.workers[i].Running? && !s.workers[i].Ran? && !t.workers[i].Running? && !t.workers[i].Ran?)
    ensures PlacesOk(t)
  {
    forall r', l, at ensures Held(t, r', l, at) <==> Says(t, r', l, at) {
      assert Held(s, r', l, at) <==> Says(s, r', l, at);
    }
  }

  lemma {:induction false} LoopsKept(s: State, a: Action)
    requires Inv(s) && Enabled(s, a)
    ensures LoopsOk(Apply(s, a))
  {
    hide HistoryOk, Enqueue, Without, PoolOk;
    match a
    case Deliver(i) =>
      var r := s.workers[i].req;
      var l := s.reqs[r].loop;
      assert Held(s, r, 0, AtWorker(i, true));
      assert Held(s, r, l, InLoopQueue) <==> Says(s, r, l, InLoopQueue);
      Appended(s.loops[l].queue, r);
    case PostCancel(l) =>
      var r := s.loops[l].cancelling.value;
      assert Held(s, r, l, Cancelling);
      assert Held(s, r, l, InLoopQueue) <==> Says(s, r, l, InLoopQueue);
      Appended(s.loops[l].queue, r);
    case TryCancel(r) =>
      WithoutIs(s.loops[s.reqs[r].loop].queue, r);
      WithoutIs(s.loops[s.reqs[r].loop].drain, r);
    case _ =>
  }

  // ---------- Every run ----------

  lemma {:induction false} InvKept(s: State, a: Action)
    requires Inv(s) && Enabled(s, a)
    ensures Inv(Apply(s, a))
  {
    hide Apply, PoolOk, LoopsOk, HistoriesOk, PlacesOk;
    if a.Submit? {
      assert PlacesOk(s);
      NewIsNowhere(s, a.r);
    }
    PoolKept(s, a);
    PlacesKept(s, a);
    LoopsKept(s, a);
    HistoriesKept(s, a);
  }

  lemma NewIsNowhere(s: State, r: Req)
    requires PlacesOk(s) && r !in s.reqs
    ensures Work(r) !in s.wq && r !in s.slow
  {
    assert !Held(s, r, 0, InWq) && !Held(s, r, 0, InSlow);
  }

  lemma InvAtStart(nworkers: nat, nloops: nat)
    requires nworkers > 0
    ensures Inv(Init(nworkers, nloops))
  {
    var s := Init(nworkers, nloops);
    TotalSame(s.workers, Sleeps, Entering(false));
    TotalSame(s.workers, Slow, Entering(false));
  }

  lemma {:induction false} InvOfRun(s: State, actions: seq<Action>)
    requires Inv(s) && Run(s, actions).Some?
    ensures Inv(Run(s, actions).value)
    decreases |actions|
  {
    hide Inv, Apply;
    if actions != [] {
      InvKept(s, actions[0]);
      InvOfRun(Apply(s, actions[0]), actions[1..]);
    }
  }

  /** No lost wake-up: if every thread waits and none has been signalled, there is nothing to do. */
  lemma NoWorkIsForgotten(nworkers: nat, nloops: nat, actions: seq<Action>)
    requires nworkers > 0 && Run(Init(nworkers, nloops), actions).Some?
    ensures var s := Run(Init(nworkers, nloops), actions).value;
            (forall w :: w in s.workers ==> w == Waiting) ==> s.wq == [] && s.slow == []
  {
    InvAtStart(nworkers, nloops);
    InvOfRun(Init(nworkers, nloops), actions);
    var s := Run(Init(nworkers, nloops), actions).value;
    assert Inv(s);
    if s.wq != [] {
      var i :| 0 <= i < |s.workers| && s.workers[i] != Waiting;
      assert s.workers[i] in s.workers;
    }
  }

  /** Slow work pending means that run_slow_work_message is in wq, and it is there at most once. */
  lemma SlowWorkIsScheduled(nworkers: nat, nloops: nat, actions: seq<Action>)
    requires nworkers > 0 && Run(Init(nworkers, nloops), actions).Some?
    ensures var s := Run(Init(nworkers, nloops), actions).value;
            (s.slow != [] ==> RunSlow in s.wq) && multiset(s.wq)[RunSlow] <= 1
  {
    InvAtStart(nworkers, nloops);
    InvOfRun(Init(nworkers, nloops), actions);
    var s := Run(Init(nworkers, nloops), actions).value;
    OnlyOnce(s.wq, RunSlow);
  }

  lemma {:induction false} OnlyOnce<T>(q: seq<T>, x: T)
    requires NoDuplicates(q)
    ensures multiset(q)[x] <= 1
  {
    if q != [] {
      assert q == [q[0]] + q[1..];
      OnlyOnce(q[1..], x);
      assert x == q[0] ==> x !in q[1..];
    }
  }

  ghost predicate SlowLimited(s: State) {
    s.slowRunning <= Threshold(|s.workers|)
  }

  lemma SlowLimitedKept(s: State, a: Action)
    requires SlowLimited(s) && Enabled(s, a)
    ensures SlowLimited(Apply(s, a)) && |Apply(s, a).workers| == |s.workers|
  {
    hide Without;
  }

  lemma {:induction false} SlowLimitedOfRun(s: State, actions: seq<Action>)
    requires SlowLimited(s) && Run(s, actions).Some?
    ensures var t := Run(s, actions).value; SlowLimited(t) && |t.workers| == |s.workers|
    decreases |actions|
  {
    hide Apply, Enabled;
    if actions != [] {
      SlowLimitedKept(s, actions[0]);
      SlowLimitedOfRun(Apply(s, actions[0]), actions[1..]);
    }
  }

  /** At most half of the threads, rounded up, are at work on slow requests. */
  lemma SlowWorkIsLimited(nworkers: nat, nloops: nat, actions: seq<Action>)
    requires nworkers > 0 && Run(Init(nworkers, nloops), actions).Some?
    ensures 2 * Total(Run(Init(nworkers, nloops), actions).value.workers, Slow) <= nworkers + 1
  {
    hide Enabled, Apply, PlacesOk, HistoriesOk, LoopsOk, QueuesOk, Awake;
    InvAtStart(nworkers, nloops);
    InvOfRun(Init(nworkers, nloops), actions);
    SlowLimitedOfRun(Init(nworkers, nloops), actions);
  }

  /**
   * Each request is at exactly one place. Its done callback runs at most once; the status is
   * UV_ECANCELED just when a cancel of it succeeded, and then the work function never ran;
   * otherwise the work function ran exactly once before.
   */
  lemma EveryRequestIsServed(nworkers: nat, nloops: nat, actions: seq<Action>, r: Req)
    requires nworkers > 0 && Run(Init(nworkers, nloops), actions).Some?
    requires r in Run(Init(nworkers, nloops), actions).value.reqs
    ensures var s := Run(Init(nworkers, nloops), actions).value;
            var q := s.reqs[r];
            && (q.at != Finished ==> Held(s, r, q.loop, q.at))
            && (forall l, at :: Held(s, r, l, at) ==> at == q.at != Finished)
            && (q.at == Finished <==> q.dones > 0) && q.dones <= 1 && q.runs <= 1
            && (q.cancels > 0 ==> q.runs == 0)
            && (q.dones == 1 ==> (q.canceled <==> q.cancels > 0) && q.runs == (if q.canceled then 0 else 1))
  {
    hide Run, PoolOk;
    InvAtStart(nworkers, nloops);
    InvOfRun(Init(nworkers, nloops), actions);
    var s := Run(Init(nworkers, nloops), actions).value;
    assert PlacesOk(s);
    assert Held(s, r, s.reqs[r].loop, s.reqs[r].at) <==> Says(s, r, s.reqs[r].loop, s.reqs[r].at);
    forall l, at | Held(s, r, l, at) ensures at == s.reqs[r].at != Finished {
      assert Says(s, r, l, at);
    }
  }

  // ---------- The workers make progress ----------

  predicate WorkerStep(a: Action) {
    a.Lock? || a.Relock? || a.Turn? || a.Execute? || a.Deliver?
  }

  /** Steps still to be made by a thread before it waits. */
  function Effort(w: Worker): nat {
    match w
    case Waiting => 0
    case Looping => 1
    case Entering(_) => 2
    case Woken => 2
    case Ran(_, _) => 3
    case Running(_, _) => 4
  }

  function ItemEffort(q: seq<Item>): nat {
    if q == [] then 0 else (if q[0].Work? then 6 else 1) + ItemEffort(q[1..])
  }

  /** How many entries are behind the message. */
  function Behind(q: seq<Item>): nat {
    if q == [] then 0 else if q[0] == RunSlow then |q| - 1 else Behind(q[1..])
  }

  function PoolEffort(s: State): nat {
    Total(s.workers, Effort) + ItemEffort(s.wq) + 6 * |s.slow|
  }

  lemma {:induction false} ItemAppended(q: seq<Item>, x: Item)
    ensures ItemEffort(q + [x]) == ItemEffort(q) + if x.Work? then 6 else 1
    ensures RunSlow !in q ==> Behind(q + [x]) == 0
  {
    if q != [] {
      assert (q + [x])[1..] == q[1..] + [x];
      ItemAppended(q[1..], x);
    }
  }

  lemma SignalEffort(s: State, wake: nat)
    ensures Total(Signal(s, wake).workers, Effort) <= Total(s.workers, Effort) + 2
  {
    if wake < |s.workers| {
      TotalUpdate(s.workers, Effort, wake, Woken);
    }
  }

  lemma EnqueueEffort(s: State, wake: nat)
    ensures PoolEffort(Enqueue(s, RunSlow, wake)) <= PoolEffort(s) + 3
  {
    ItemAppended(s.wq, RunSlow);
    SignalEffort(s.(wq := s.wq + [RunSlow]), wake);
  }

  lemma TakeSlowEffort(s: State, i: nat, wake: nat)
    requires i < |s.workers| && s.slow != [] && s.workers[i] == Looping
    ensures PoolEffort(TakeSlow(s, i, wake)) <= PoolEffort(s)
  {
    hide Enqueue;
    var r, more := s.slow[0], s.slow[1..];
    TotalUpdate(s.workers, Effort, i, Running(r, true));
    var t := SetPlace(s.(slowRunning := s.slowRunning + 1, slow := more, workers := s.workers[i := Running(r, true)]), r, AtWorker(i, false));
    EnqueueEffort(t, wake);
  }

  /** The state t is nearer to rest than s. */
  predicate Nearer(t: State, s: State) {
    PoolEffort(t) < PoolEffort(s) || (PoolEffort(t) == PoolEffort(s) && Behind(t.wq) < Behind(s.wq))
  }

  lemma TurnProgress(s: State, i: nat, wake: nat)
    requires PoolOk(s) && i < |s.workers| && s.workers[i] == Looping
    ensures Nearer(TakeTurn(s, i, wake), s)
  {
    hide TakeSlow, Awake;
    if MustWait(s) {
      TotalUpdate(s.workers, Effort, i, Waiting);
    } else {
      var rest := s.(wq := s.wq[1..]);
      match s.wq[0]
      case Work(r) => TotalUpdate(s.workers, Effort, i, Running(r, false));
      case RunSlow =>
        assert s.wq == [RunSlow] + rest.wq && RunSlow !in rest.wq;
        if s.slowRunning >= Threshold(|s.workers|) {
          ItemAppended(rest.wq, RunSlow);
        } else if s.slow != [] {
          TakeSlowEffort(rest, i, wake);
        }
    }
  }

  /** Each step of a worker brings the pool nearer to rest. */
  lemma WorkersMakeProgress(s: State, a: Action)
    requires Inv(s) && Enabled(s, a) && WorkerStep(a)
    ensures Nearer(Apply(s, a), s)
  {
    hide PlacesOk, LoopsOk, HistoriesOk, PoolOk;
    if a.Turn? {
      TurnProgress(s, a.i, a.wake);
    } else {
      TotalUpdate(s.workers, Effort, a.i, Apply(s, a).workers[a.i]);
    }
  }

  /** As long as a thread does not wait, some thread can make a step. */
  lemma SomeStep(s: State, i: nat) returns (a: Action)
    requires Inv(s) && i < |s.workers| && s.workers[i] != Waiting
    ensures WorkerStep(a) && Enabled(s, a)
  {
    hide NoDuplicates, HistoryOk, PoolOk;
    if Looping in s.workers {
      var j: nat :| j < |s.workers| && s.workers[j] == Looping;
      var wake: nat := 0;
      if Waiting in s.workers {
        wake :| wake < |s.workers| && s.workers[wake] == Waiting;
      }
      a := Turn(j, wake);
    } else {
      match s.workers[i]
      case Entering(_) => a := Lock(i);
      case Woken => a := Relock(i);
      case Running(r, _) => a := Execute(i); assert Held(s, r, 0, AtWorker(i, false));
      case Ran(r, _) => a := Deliver(i); assert Held(s, r, 0, AtWorker(i, true));
    }
  }

  /** When no worker can make a step the pool is at rest: nothing queued, and every thread waits. */
  lemma RestIsIdle(s: State)
    requires Inv(s) && forall a :: WorkerStep(a) ==> !Enabled(s, a)
    ensures s.wq == [] && s.slow == [] && forall w :: w in s.workers ==> w == Waiting
  {
    hide Enabled, WorkerStep;
    forall i | 0 <= i < |s.workers| ensures s.workers[i] == Waiting {
      if s.workers[i] != Waiting {
        var a := SomeStep(s, i);
        assert false;
      }
    }
  }
}
