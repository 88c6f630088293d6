/**
 * The wake-ups of libuv/src/threadpool.c: while threads wait, there are as many others on their way
 * to wq as there are entries in it that a thread would take.
 */
module PoolWakeUp {
  import opened Wrappers
  import opened Sequences
  import opened ThreadPool

  /** The thread will look at wq next; one that gives back slow_io_work_running first is not counted. */
  function Coming(w: Worker): nat {
    if w in {Looping, Woken, Entering(false)} then 1 else 0
  }

  /** The entries of wq, without run_slow_work_message while the threshold holds it up. */
  function Runnable(s: State): nat {
    if s.slowRunning >= Threshold(|s.workers|) && RunSlow in s.wq then |s.wq| - 1 else |s.wq|
  }

  predicate Enough(s: State) {
    Waiting in s.workers ==> Total(s.workers, Coming) >= Runnable(s)
  }

  lemma {:induction false} TotalIsPositive(ws: seq<Worker>, f: Worker -> nat, w: Worker)
    requires w in ws
    ensures Total(ws, f) >= f(w)
  {
    var n := |ws| - 1;
    if w != ws[n] {
      assert ws == ws[..n] + [ws[n]];
      TotalIsPositive(ws[..n], f, w);
    }
  }

  lemma {:induction false} SomeIsComing(ws: seq<Worker>)
    requires Total(ws, Coming) > 0
    ensures exists w :: w in ws && Coming(w) == 1
  {
    var n := |ws| - 1;
    if Coming(ws[n]) == 0 {
      SomeIsComing(ws[..n]);
      var w :| w in ws[..n] && Coming(w) == 1;
      assert w in ws;
    } else {
      assert ws[n] in ws;
    }
  }

  /** A new entry comes with a signal when a thread waits. */
  lemma EnqueueEnough(s: State, item: Item, wake: nat)
    requires CountersOk(s) && CanWake(s, wake) && (item == RunSlow ==> RunSlow !in s.wq)
    requires Enough(s)
    ensures Enough(Enqueue(s, item, wake))
  {
    hide OneOwner;
    if Waiting in s.workers {
      TotalIsPositive(s.workers, Sleeps, Waiting);
      TotalUpdate(s.workers, Coming, wake, Woken);
    }
  }

  lemma PostEnough(s: State, r: Req, kind: Kind, wake: nat)
    requires CountersOk(s) && Enough(s) && CanWake(s, wake)
    ensures Enough(Post(s, r, kind, wake))
  {
    hide CountersOk, Total;
    if kind == Cpu {
      EnqueueEnough(s, Work(r), wake);
    } else if RunSlow !in s.wq {
      var t := s.(slow := s.slow + [r]);
      assert CountersOk(t) by { SameCounters(s, t); }
      EnqueueEnough(t, RunSlow, wake);
    }
  }

  lemma SameCounters(s: State, t: State)
    requires CountersOk(s) && t.workers == s.workers && t.idle == s.idle && t.slowRunning == s.slowRunning
    ensures CountersOk(t)
  {
  }

  lemma TurnEnough(s: State, i: nat, wake: nat)
    requires PoolOk(s) && Enough(s) && i < |s.workers| && s.workers[i] == Looping && CanWake(s, wake)
    ensures Enough(TakeTurn(s, i, wake))
  {
    hide OneOwner, Total, Awake;
    var t := TakeTurn(s, i, wake);
    if !MustWait(s) {
      var rest := s.(wq := s.wq[1..]);
      assert s.wq == [s.wq[0]] + rest.wq;
      match s.wq[0]
      case Work(r) =>
        TotalUpdate(s.workers, Coming, i, Running(r, false));
      case RunSlow =>
        assert RunSlow !in rest.wq;
        if s.slowRunning < Threshold(|s.workers|) && s.slow != [] {
          TakeSlowEnough(rest, i, wake);
        }
    }
  }

  /** The message was taken off wq when there was one more runnable entry. */
  lemma TakeSlowEnough(s: State, i: nat, wake: nat)
    requires CountersOk(s) && i < |s.workers| && s.workers[i] == Looping && CanWake(s, wake) && s.slow != [] && RunSlow !in s.wq
    requires Waiting in s.workers ==> Total(s.workers, Coming) >= |s.wq| + 1
    ensures Enough(TakeSlow(s, i, wake))
  {
    hide OneOwner, Total;
    var r, more := s.slow[0], s.slow[1..];
    var t := SetPlace(s.(slowRunning := s.slowRunning + 1, slow := more, workers := s.workers[i := Running(r, true)]), r, AtWorker(i, false));
    SetWorker(s, i, Running(r, true));
    TotalUpdate(s.workers, Coming, i, Running(r, true));
    if more != [] {
      SameCounters(s.(slowRunning := s.slowRunning + 1, workers := s.workers[i := Running(r, true)], idle := s.idle), t);
      EnqueueEnough(t, RunSlow, wake);
    }
  }

  lemma {:induction false} EnoughKept(s: State, a: Action)
    requires PoolOk(s) && Enough(s) && Enabled(s, a)
    ensures Enough(Apply(s, a))
  {
    hide OneOwner, NoDuplicates, Total, Awake;
    var t := Apply(s, a);
    match a
    case Submit(r, loop, kind, wake) =>
      var q := Request(loop, Function, if kind == Cpu then InWq else InSlow, 0, 0, 0, false);
      PostEnough(s.(reqs := s.reqs[r := q]), r, kind, wake);
    case Lock(i) => TotalUpdate(s.workers, Coming, i, Looping);
    case Relock(i) => TotalUpdate(s.workers, Coming, i, Looping);
    case Spurious(i) => TotalUpdate(s.workers, Coming, i, Woken);
    case Turn(i, wake) => TurnEnough(s, i, wake);
    case Execute(i) => TotalUpdate(s.workers, Coming, i, t.workers[i]);
    case Deliver(i) => TotalUpdate(s.workers, Coming, i, t.workers[i]);
    case TryCancel(r) =>
      WithoutIs(s.wq, Work(r));
      WithoutIsShorter(s.wq, Work(r));
    case _ =>
  }

  lemma {:induction false} EnoughOfRun(s: State, actions: seq<Action>)
    requires Inv(s) && Enough(s) && Run(s, actions).Some?
    ensures Enough(Run(s, actions).value)
    decreases |actions|
  {
    hide Enough, Apply, PoolOk, PlacesOk, HistoriesOk, LoopsOk;
    if actions != [] {
      EnoughKept(s, actions[0]);
      InvKept(s, actions[0]);
      EnoughOfRun(Apply(s, actions[0]), actions[1..]);
    }
  }

  /**
   * No wake-up is lost: after every run, while a thread waits unsignalled, at least as many threads
   * are on their way to wq as there are entries to be taken from it; so there is one whenever a
   * thread would not have to wait, even if all others are busy with long work.
   */
  lemma WaitingThreadsAreNotNeeded(nworkers: nat, nloops: nat, actions: seq<Action>)
    requires nworkers > 0 && Run(Init(nworkers, nloops), actions).Some?
    ensures var s := Run(Init(nworkers, nloops), actions).value;
            Waiting in s.workers ==>
              && Total(s.workers, Coming) >= Runnable(s)
              && (!MustWait(s) ==> exists w :: w in s.workers && w in {Looping, Woken, Entering(false)})
  {
    hide Apply, Enabled, PlacesOk, HistoriesOk, LoopsOk, Awake, CountersOk, Total;
    var s := Run(Init(nworkers, nloops), actions).value;
    InvAtStart(nworkers, nloops);
    assert Waiting !in Init(nworkers, nloops).workers;
    EnoughOfRun(Init(nworkers, nloops), actions);
    InvOfRun(Init(nworkers, nloops), actions);
    if Waiting in s.workers && !MustWait(s) {
      if Runnable(s) == 0 {
        NothingRunnable(s);
      }
      SomeIsComing(s.workers);
    }
  }

  /** With nothing to be taken from wq a thread waits. */
  lemma NothingRunnable(s: State)
    requires Runnable(s) == 0
    ensures MustWait(s)
  {
    if s.wq != [] {
      assert s.wq == [s.wq[0]];
    }
  }

  lemma {:induction false} WithoutIsShorter<T>(q: seq<T>, x: T)
    ensures |Without(q, x)| <= |q|
  {
    if q != [] && q[0] != x {
      WithoutIsShorter(q[1..], x);
    }
  }
}
