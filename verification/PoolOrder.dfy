/** What libuv/src/threadpool.c takes next: requests in the order of submission, slow ones up to half of the threads. */
module PoolOrder {
  import opened Wrappers
  import opened Sequences
  import opened ThreadPool

  /** A request is queued behind all others; slow ones behind each other, with the message in wq for all of them. */
  lemma SubmittedLast(s: State, r: Req, loop: nat, kind: Kind, wake: nat)
    requires Enabled(s, Submit(r, loop, kind, wake))
    ensures var t := Apply(s, Submit(r, loop, kind, wake));
      && (kind == Cpu ==> t.wq == s.wq + [Work(r)] && t.slow == s.slow)
      && (kind == SlowIo ==> t.slow == s.slow + [r] && t.wq == if RunSlow in s.wq then s.wq else s.wq + [RunSlow])
      && t.reqs[r].loop == loop && t.reqs[r].runs == 0 && t.reqs[r].dones == 0
  {
  }

  /** A thread that need not wait takes the first request of wq. */
  lemma FirstIsTaken(s: State, i: nat, wake: nat)
    requires Enabled(s, Turn(i, wake)) && s.wq != [] && s.wq[0].Work?
    ensures var t := Apply(s, Turn(i, wake)); t.workers == s.workers[i := Running(s.wq[0].req, false)] && t.wq == s.wq[1..] && t.slow == s.slow
  {
  }

  /**
   * The message makes a thread take the first slow request while fewer than half of the threads, rounded up,
   * are at work on such; if more are pending, the message is put behind what is in wq.
   */
  lemma SlowIsTaken(s: State, i: nat, wake: nat)
    requires Enabled(s, Turn(i, wake)) && s.wq != [] && s.wq[0] == RunSlow && s.slow != [] && 2 * s.slowRunning < |s.workers|
    ensures var t := Apply(s, Turn(i, wake));
      && t.workers[i] == Running(s.slow[0], true) && t.slow == s.slow[1..] && t.slowRunning == s.slowRunning + 1
      && t.wq == s.wq[1..] + if |s.slow| > 1 then [RunSlow] else []
  {
  }

  /** When as many are, the message goes behind the other entries, and a thread waits if there is none. */
  lemma SlowIsHeldBack(s: State, i: nat, wake: nat)
    requires Enabled(s, Turn(i, wake)) && s.wq != [] && s.wq[0] == RunSlow && 2 * s.slowRunning >= |s.workers|
    ensures var t := Apply(s, Turn(i, wake));
      && t.slow == s.slow && t.slowRunning == s.slowRunning
      && if |s.wq| == 1 then t.wq == s.wq && t.workers[i] == Waiting else t.wq == s.wq[1..] + [RunSlow] && t.workers == s.workers
  {
  }

  /** A thread waits just when nothing is queued, or only slow work that has to be held back. */
  lemma WaitsExactly(s: State, i: nat, wake: nat)
    requires Enabled(s, Turn(i, wake))
    ensures Apply(s, Turn(i, wake)).workers[i] == Waiting
            <==> s.wq == [] || (s.wq == [RunSlow] && 2 * s.slowRunning >= |s.workers|)
  {
    hide Enqueue;
    if !MustWait(s) && s.wq[0] == RunSlow && s.slowRunning < Threshold(|s.workers|) && s.slow != [] {
      SlowIsTaken(s, i, wake);
    }
  }

  predicate Before<T(==)>(q: seq<T>, x: T, y: T) {
    exists i, j :: 0 <= i < j < |q| && q[i] == x && q[j] == y
  }

  lemma StillBefore<T>(q: seq<T>, more: seq<T>, x: T, y: T)
    requires Before(q, x, y)
    ensures Before(q + more, x, y)
  {
    var i, j :| 0 <= i < j < |q| && q[i] == x && q[j] == y;
    assert (q + more)[i] == x && (q + more)[j] == y;
  }

  lemma BeforeInRest<T>(q: seq<T>, x: T, y: T)
    requires Before(q, x, y) && NoDuplicates(q) && x in q[1..]
    ensures Before(q[1..], x, y)
  {
    var i, j :| 0 <= i < j < |q| && q[i] == x && q[j] == y;
    assert q == [q[0]] + q[1..];
    Parts([q[0]], q[1..]);
    assert i > 0 && q[1..][i - 1] == x && q[1..][j - 1] == y;
  }

  lemma {:induction false} BeforeWithout<T>(q: seq<T>, z: T, x: T, y: T)
    requires Before(q, x, y) && z != x && z != y
    ensures Before(Without(q, z), x, y)
    decreases |q|
  {
    var i, j :| 0 <= i < j < |q| && q[i] == x && q[j] == y;
    if q[0] == z {
      assert q[1..][i - 1] == x && q[1..][j - 1] == y;
    } else if i > 0 {
      assert q[1..][i - 1] == x && q[1..][j - 1] == y;
      BeforeWithout(q[1..], z, x, y);
      StillBehind(q[0], Without(q[1..], z), x, y);
    } else {
      WithoutKeeps(q[1..], z, y, j - 1);
      var k :| 0 <= k < |Without(q[1..], z)| && Without(q[1..], z)[k] == y;
      assert Without(q, z)[0] == x && Without(q, z)[k + 1] == y;
    }
  }

  lemma StillBehind<T>(first: T, q: seq<T>, x: T, y: T)
    requires Before(q, x, y)
    ensures Before([first] + q, x, y)
  {
    var i, j :| 0 <= i < j < |q| && q[i] == x && q[j] == y;
    assert ([first] + q)[i + 1] == x && ([first] + q)[j + 1] == y;
  }

  lemma {:induction false} WithoutKeeps<T>(q: seq<T>, z: T, y: T, j: nat)
    requires j < |q| && q[j] == y && y != z
    ensures y in Without(q, z)
  {
    if j > 0 && q[0] != z {
      WithoutKeeps(q[1..], z, y, j - 1);
    }
  }

  /** No request of wq is overtaken by one behind it, unless it is cancelled; nor a slow one by a slow one. */
  lemma NotOvertaken(s: State, a: Action, r: Req, later: Req)
    requires PoolOk(s) && Enabled(s, a) && a != TryCancel(later)
    ensures var t := Apply(s, a);
      && (Before(s.wq, Work(r), Work(later)) && Work(r) in t.wq ==> Before(t.wq, Work(r), Work(later)))
      && (Before(s.slow, r, later) && r in t.slow ==> Before(t.slow, r, later))
  {
    hide NoDuplicates, CountersOk, Awake, Without, Before;
    var t := Apply(s, a);
    match a
    case Submit(r', loop, kind, wake) =>
      SubmittedLast(s, r', loop, kind, wake);
      if Before(s.wq, Work(r), Work(later)) {
        StillBefore(s.wq, [Work(r')], Work(r), Work(later));
        StillBefore(s.wq, [RunSlow], Work(r), Work(later));
      }
      if Before(s.slow, r, later) {
        StillBefore(s.slow, [r'], r, later);
      }
    case Turn(i, wake) => TurnKeepsOrder(s, i, wake, r, later);
    case TryCancel(z) => CancelKeepsOrder(s, z, r, later);
    case _ =>
  }

  lemma CancelKeepsOrder(s: State, z: Req, r: Req, later: Req)
    requires PoolOk(s) && Enabled(s, TryCancel(z)) && z != later
    ensures var t := Apply(s, TryCancel(z));
      && (Before(s.wq, Work(r), Work(later)) && Work(r) in t.wq ==> Before(t.wq, Work(r), Work(later)))
      && (Before(s.slow, r, later) && r in t.slow ==> Before(t.slow, r, later))
  {
    hide NoDuplicates, CountersOk, Awake, Without, Before;
    WithoutIs(s.wq, Work(z));
    WithoutIs(s.slow, z);
    if z != r && Before(s.wq, Work(r), Work(later)) {
      BeforeWithout(s.wq, Work(z), Work(r), Work(later));
    }
    if z != r && Before(s.slow, r, later) {
      BeforeWithout(s.slow, z, r, later);
    }
  }

  lemma TurnKeepsOrder(s: State, i: nat, wake: nat, r: Req, later: Req)
    requires PoolOk(s) && Enabled(s, Turn(i, wake))
    ensures var t := Apply(s, Turn(i, wake));
      && (Before(s.wq, Work(r), Work(later)) && Work(r) in t.wq ==> Before(t.wq, Work(r), Work(later)))
      && (Before(s.slow, r, later) && r in t.slow ==> Before(t.slow, r, later))
  {
    hide NoDuplicates, CountersOk, Awake, Before;
    var t := Apply(s, Turn(i, wake));
    TurnQueues(s, i, wake);
    if Before(s.wq, Work(r), Work(later)) && Work(r) in t.wq && t.wq != s.wq {
      BeforeInRest(s.wq, Work(r), Work(later));
      StillBefore(s.wq[1..], [RunSlow], Work(r), Work(later));
    }
    if Before(s.slow, r, later) && r in t.slow && t.slow != s.slow {
      BeforeInRest(s.slow, r, later);
    }
  }

  lemma TurnQueues(s: State, i: nat, wake: nat)
    requires Enabled(s, Turn(i, wake))
    ensures var t := Apply(s, Turn(i, wake));
      && (t.wq == s.wq || (s.wq != [] && (t.wq == s.wq[1..] || t.wq == s.wq[1..] + [RunSlow])))
      && (t.slow == s.slow || (s.slow != [] && t.slow == s.slow[1..]))
  {
  }

  /** Over every run: as long as a request is queued, those submitted behind it are still behind it. */
  lemma {:induction false} FirstComeFirstServed(s: State, actions: seq<Action>, r: Req, later: Req)
    requires Inv(s) && Run(s, actions).Some? && TryCancel(later) !in actions
    requires r in s.reqs && later in s.reqs && Before(s.wq, Work(r), Work(later))
    ensures var t := Run(s, actions).value; Work(r) in t.wq ==> Before(t.wq, Work(r), Work(later))
    decreases |actions|
  {
    hide Inv, Apply, Enabled, Before;
    if actions != [] {
      var a, t := actions[0], Apply(s, actions[0]);
      assert a in actions;
      PoolPart(s);
      NotOvertaken(s, a, r, later);
      InvKept(s, a);
      Known(s, a, r);
      Known(s, a, later);
      if Work(r) in t.wq {
        FirstComeFirstServed(t, actions[1..], r, later);
      } else {
        NotQueuedAgain(t, actions[1..], r);
      }
    }
  }

  lemma PoolPart(s: State)
    requires Inv(s)
    ensures PoolOk(s)
  {
    hide PoolOk, PlacesOk, LoopsOk, HistoriesOk;
  }

  lemma Known(s: State, a: Action, r: Req)
    requires Enabled(s, a) && r in s.reqs
    ensures r in Apply(s, a).reqs
  {
    hide Without;
  }

  /** A request that has left wq does not come back. */
  lemma {:induction false} NotQueuedAgain(s: State, actions: seq<Action>, r: Req)
    requires Run(s, actions).Some? && r in s.reqs && Work(r) !in s.wq
    ensures Work(r) !in Run(s, actions).value.wq
    decreases |actions|
  {
    hide Apply, Enabled;
    if actions != [] {
      Known(s, actions[0], r);
      StaysOut(s, actions[0], r);
      NotQueuedAgain(Apply(s, actions[0]), actions[1..], r);
    }
  }

  lemma StaysOut(s: State, a: Action, r: Req)
    requires Enabled(s, a) && r in s.reqs && Work(r) !in s.wq
    ensures Work(r) !in Apply(s, a).wq
  {
    hide Without;
    if a.TryCancel? {
      OnlyFewer(s.wq, Work(a.r));
    } else if a.Turn? {
      TurnQueues(s, a.i, a.wake);
    } else if a.Submit? {
      SubmittedLast(s, a.r, a.loop, a.kind, a.wake);
    }
  }

  lemma {:induction false} OnlyFewer<T>(q: seq<T>, z: T)
    ensures forall x | x in Without(q, z) :: x in q
  {
    if q != [] && q[0] != z {
      OnlyFewer(q[1..], z);
    }
  }

  /**
   * A cancel succeeds just for a request that is queued and not run: one that waits in wq or for a slow
   * thread, or that has been cancelled before and waits for its callback. Otherwise nothing changes.
   */
  lemma CancelExactly(s: State, r: Req)
    requires Inv(s) && Enabled(s, TryCancel(r))
    ensures var t, q := Apply(s, TryCancel(r)), s.reqs[r];
      if Work(r) in s.wq || r in s.slow || (q.at in {InLoopQueue, InDrain} && q.cancels > 0)
      then t.reqs[r].cancels == q.cancels + 1 && t.loops[q.loop].cancelling == Some(r) && Work(r) !in t.wq && r !in t.slow
      else t == s
  {
    hide NoDuplicates, CountersOk, Awake, Without;
    var q := s.reqs[r];
    assert HistoryOk(q);
    assert Held(s, r, q.loop, InWq) <==> Says(s, r, q.loop, InWq);
    assert Held(s, r, q.loop, InSlow) <==> Says(s, r, q.loop, InSlow);
    WithoutIs(s.wq, Work(r));
    WithoutIs(s.slow, r);
  }

  /** Finished and cancelled requests are queued behind each other, taken all at once, and called back from the first on. */
  lemma CalledInOrder(s: State, a: Action)
    requires Enabled(s, a)
    ensures a.Deliver? ==> var r := s.workers[a.i].req;
              Apply(s, a).loops[s.reqs[r].loop].queue == s.loops[s.reqs[r].loop].queue + [r]
    ensures a.PostCancel? ==> Apply(s, a).loops[a.l].queue == s.loops[a.l].queue + [s.loops[a.l].cancelling.value]
    ensures a.Move? ==> Apply(s, a).loops[a.l].drain == s.loops[a.l].queue && Apply(s, a).loops[a.l].queue == []
    ensures a.Done? ==> var t := Apply(s, a);
              t.loops[a.l].drain == s.loops[a.l].drain[1..] && t.reqs[s.loops[a.l].drain[0]].dones == s.reqs[s.loops[a.l].drain[0]].dones + 1
  {
    hide Without;
  }
}
