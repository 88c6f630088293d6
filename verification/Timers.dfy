/** The timers of a loop, libuv/src/timer.c, on top of the heap. */
module Timers {
  import opened H = Heap

  const MAX64: nat := 0xFFFF_FFFF_FFFF_FFFF
  const INT_MAX: nat := 0x7FFF_FFFF

  /** loop->time + timeout in 64 bits, clamped when the sum wraps around. */
  function Deadline(time: nat, timeout: nat): nat {
    var sum := (time + timeout) % (MAX64 + 1);
    if sum < timeout then MAX64 else sum
  }

  /** The clamp makes the deadline exact up to the 64-bit maximum. */
  lemma DeadlineIs(time: nat, timeout: nat)
    requires time <= MAX64 && timeout <= MAX64
    ensures Deadline(time, timeout) == if time + timeout <= MAX64 then time + timeout else MAX64
  {
    if time + timeout > MAX64 {
      assert (time + timeout) % (MAX64 + 1) == time + timeout - (MAX64 + 1);
    }
  }

  /**
   * A repeating timer that is restarted lies in the future exactly when the clock has not reached
   * the 64-bit maximum; at the maximum it is due again at once.
   */
  lemma RestartInFuture(time: nat, repeat: nat)
    requires time <= MAX64 && 0 < repeat <= MAX64
    ensures Deadline(time, repeat) > time <==> time < MAX64
  {
    DeadlineIs(time, repeat);
  }

  /** What a callback does. */
  datatype Op = Start(n: Node, cb: bool, timeout: nat, repeat: nat) | Stop(n: Node) | Again(n: Node)

  /** The calls that start timers start them with a timeout. */
  predicate Ahead(op: Op) {
    op.Start? ==> op.timeout > 0
  }

  predicate Untouched(n: Node, ops: seq<Op>) {
    forall op | op in ops :: op.n != n
  }

  class TimerLoop {
    const heap: H.Heap
    var time: nat
    var counter: nat
    /** Every initialised timer handle of the loop. */
    ghost var timers: set<Node>

    /** A timer is active exactly when it is in the heap, and no two in the heap compare equal. */
    ghost predicate HandlesOk(all: set<Node>)
      reads this`time, this`counter, this`timers, timers`active, timers`hasCallback, timers`startId, timers`timeout, timers`repeat
    {
      && all <= timers && time <= MAX64 && counter <= MAX64
      && (forall n | n in timers :: (n.active <==> n in all))
      && (forall n | n in timers :: n.repeat <= MAX64 && (n.active ==> n.hasCallback && n.startId < counter && n.timeout <= MAX64))
      && (forall m, n | m in timers && n in timers && m.active && n.active && m.startId == n.startId :: m == n)
    }

    ghost predicate Valid()
      reads this, heap, heap.nodes, timers
    {
      heap.Valid() && HandlesOk(Elems(heap.nodes))
    }

    ghost predicate Room()
      reads this, heap
    {
      counter < MAX64 && heap.nelts + 1 < 0x1_0000_0000
    }

    constructor (now: nat)
      requires now <= MAX64
      ensures Valid() && fresh(heap) && timers == {} && time == now
    {
      heap := new H.Heap();
      time, counter, timers := now, 0, {};
    }

    /** uv_timer_init */
    method Init(n: Node)
      requires Valid() && n !in timers
      modifies this`timers, n`active, n`hasCallback, n`repeat
      ensures Valid() && timers == old(timers) + {n} && !n.active
    {
      assert n !in Elems(heap.nodes);
      n.active, n.hasCallback, n.repeat := false, false, 0;
      timers := timers + {n};
    }

    /** uv_timer_stop */
    method Stop(n: Node)
      requires Valid() && n in timers
      modifies heap, Elems(heap.nodes)`left, Elems(heap.nodes)`right, Elems(heap.nodes)`parent, n`active
      ensures Valid() && !n.active
      ensures Elems(heap.nodes) == old(Elems(heap.nodes)) - {n} && heap.nelts <= old(heap.nelts)
      ensures old(n.active) ==> heap.nelts + 1 == old(heap.nelts)
    {
      hide H.Heap.Valid;
      if !n.active {
        return;
      }
      heap.InElems(n);
      assert allocated(timers);
      heap.Remove(n);
      n.active := false;
    }

    /** uv_timer_start; `cb` is whether a callback is given. */
    method Start(n: Node, cb: bool, timeout: nat, repeat: nat) returns (ok: bool)
      requires Valid() && n in timers && timeout <= MAX64 && repeat <= MAX64 && Room()
      modifies this`counter, heap, Elems(heap.nodes)`left, Elems(heap.nodes)`right, Elems(heap.nodes)`parent, n
      ensures Valid() && ok == cb
      ensures !ok ==> Elems(heap.nodes) == old(Elems(heap.nodes)) && counter == old(counter) && n.active == old(n.active)
                      && KeyOf(n) == old(KeyOf(n)) && n.repeat == old(n.repeat)
      ensures ok ==> n.active && n.hasCallback && n.timeout == Deadline(time, timeout) && n.repeat == repeat && n.startId == old(counter)
                     && Elems(heap.nodes) == old(Elems(heap.nodes)) + {n} && counter == old(counter) + 1
    {
      if !cb {
        return false;
      }
      if n.active {
        Stop(n);
      }
      Arm(n, Deadline(time, timeout), repeat);
      ok := true;
    }

    /** Lines 87-96 for a timer that is not active. */
    method Arm(n: Node, deadline: nat, repeat: nat)
      requires Valid() && n in timers && !n.active && deadline <= MAX64 && repeat <= MAX64 && Room()
      modifies this`counter, heap, Elems(heap.nodes)`left, Elems(heap.nodes)`right, Elems(heap.nodes)`parent, n
      ensures Valid() && n.active && n.hasCallback && n.timeout == deadline && n.repeat == repeat && n.startId == old(counter)
      ensures Elems(heap.nodes) == old(Elems(heap.nodes)) + {n} && counter == old(counter) + 1 && heap.nelts == old(heap.nelts) + 1
    {
      hide Linked, Ordered, Elems;
      hide H.Heap.Valid, HandlesOk;
      Enough();
      heap.InElems(n);
      assert allocated(timers) && allocated(heap.nodes);
      ghost var all := Elems(heap.nodes);
      Mark(n, deadline, repeat, all);
      heap.Insert(n);
      assert HandlesOk(all + {n});
    }

    lemma Enough()
      requires heap.Valid() && HandlesOk(Elems(heap.nodes)) && heap.nelts + 1 < 0x1_0000_0000
      ensures forall n | n in timers :: n.active <==> n in Elems(heap.nodes)
    {}

    /** The fields of the handle; it counts as active before the heap has it. */
    method Mark(n: Node, deadline: nat, repeat: nat, ghost all: set<Node>)
      requires HandlesOk(all) && n in timers && n !in all && deadline <= MAX64 && repeat <= MAX64 && counter < MAX64
      modifies this`counter, n`hasCallback, n`timeout, n`repeat, n`startId, n`active
      ensures HandlesOk(all + {n}) && counter == old(counter) + 1
      ensures n.active && n.hasCallback && n.timeout == deadline && n.repeat == repeat && n.startId == old(counter)
    {
      n.hasCallback := true;
      n.timeout := deadline;
      n.repeat := repeat;
      n.startId := counter;
      counter := counter + 1;
      n.active := true;
    }

    /** uv_timer_again */
    method Again(n: Node) returns (ok: bool)
      requires Valid() && n in timers && Room()
      modifies this`counter, heap, Elems(heap.nodes)`left, Elems(heap.nodes)`right, Elems(heap.nodes)`parent, n
      ensures Valid() && ok == old(n.hasCallback) && n.repeat == old(n.repeat) && n.hasCallback == old(n.hasCallback)
      ensures ok && old(n.repeat) != 0 ==>
        && n.active && n.timeout == Deadline(time, n.repeat) && n.startId == old(counter)
        && Elems(heap.nodes) == old(Elems(heap.nodes)) + {n} && counter == old(counter) + 1
      ensures !ok || old(n.repeat) == 0 ==>
        && n.active == old(n.active) && KeyOf(n) == old(KeyOf(n)) && counter == old(counter)
        && Elems(heap.nodes) == old(Elems(heap.nodes))
    {
      hide Linked, Ordered, Elems, Deadline;
      if !n.hasCallback {
        return false;
      }
      if n.repeat != 0 {
        Stop(n);
        var started := Start(n, n.hasCallback, n.repeat, n.repeat);
      }
      ok := true;
    }

    /** uv__next_timeout: how long the loop may sleep, -1 for ever. */
    method NextTimeout() returns (r: int)
      requires Valid()
      ensures r == -1 <==> Elems(heap.nodes) == {}
      ensures -1 <= r <= INT_MAX
      ensures forall n | n in Elems(heap.nodes) && r >= 0 :: n.timeout >= time + r || r == 0
      ensures r == 0 ==> exists n :: n in Elems(heap.nodes) && n.timeout <= time
      ensures 0 < r < INT_MAX ==> exists n :: n in Elems(heap.nodes) && n.timeout == time + r
    {
      hide Linked, Ordered;
      LeastIsFirst();
      var n := heap.min;
      if n == null {
        return -1;
      }
      if n.timeout <= time {
        return 0;
      }
      var diff := n.timeout - time;
      if diff > INT_MAX {
        diff := INT_MAX;
      }
      r := diff;
    }

    /** heap_min is the first in the order of timeout and start_id. */
    lemma LeastIsFirst()
      requires heap.Valid()
      ensures heap.min == null <==> Elems(heap.nodes) == {}
      ensures heap.min != null ==> heap.min in Elems(heap.nodes)
      ensures forall n | n in Elems(heap.nodes) :: heap.min != null && !Less(KeyOf(n), KeyOf(heap.min))
    {
      var s := heap.nodes;
      forall n | n in Elems(s) ensures heap.min != null && !Less(KeyOf(n), KeyOf(heap.min)) {
        var i :| 0 <= i < |s| && s[i] == n;
        FirstIsLeast(s, i + 1);
      }
      if s != [] {
        assert s[0] in Elems(s);
      }
    }

    // ---------- uv__run_timers ----------

    /** The active timers whose time has come. */
    ghost function Due(): set<Node>
      reads this, heap, timers
    {
      set n | n in timers && n.active && n.timeout <= time
    }

    /** Lines 172-173 for the first timer in the heap. At the 64-bit maximum a repeating one is due as before. */
    method Fire(n: Node)
      requires Valid() && n in Due() && counter < MAX64
      modifies this`counter, heap, Elems(heap.nodes)`left, Elems(heap.nodes)`right, Elems(heap.nodes)`parent, n
      ensures Valid() && counter <= old(counter) + 1
      ensures Due() == if time < MAX64 || n.repeat == 0 then old(Due()) - {n} else old(Due())
      ensures n.repeat == old(n.repeat) && (n.active <==> n.repeat != 0)
      ensures n.active ==> n.timeout == Deadline(time, n.repeat)
    {
      hide Linked, Ordered, Elems, Deadline, H.Heap.Valid;
      if n.repeat != 0 {
        RestartInFuture(time, n.repeat);
        DeadlineFits(time, n.repeat);
      }
      Members();
      RoomAfterStop(n);
      Stop(n);
      var again := Again(n);
    }

    lemma DeadlineFits(time: nat, repeat: nat)
      requires time <= MAX64
      ensures Deadline(time, repeat) <= MAX64
      ensures time == MAX64 && 0 < repeat <= MAX64 ==> Deadline(time, repeat) == MAX64
    {
      if repeat <= MAX64 {
        DeadlineIs(time, repeat);
      }
    }

    /** Stopping an active timer makes room for starting it again. */
    lemma RoomAfterStop(n: Node)
      requires Valid() && n in timers && n.active
      ensures 0 < heap.nelts < 0x1_0000_0000
    {
      assert n in heap.nodes;
    }

    lemma DueIs()
      ensures forall n | n in timers :: n in Due() <==> n.active && n.timeout <= time
    {}

    /** The keys of the due timers. */
    ghost function DueKeys(): map<Node, Key>
      reads this, heap, timers
    {
      map n | n in Due() :: KeyOf(n)
    }

    /**
     * The timers that have fired so far, in order, are exactly those of `keys` that are not due any
     * more, and come before those that still are.
     */
    ghost predicate Progress(fired: seq<Node>, keys: map<Node, Key>)
      reads this, heap, timers
    {
      && Due() <= keys.Keys && Elems(fired) == keys.Keys - Due()
      && (forall i :: 0 <= i < |fired| ==> fired[i] in keys)
      && (forall i, j :: 0 <= i < j < |fired| ==> Less(keys[fired[i]], keys[fired[j]]))
      && (forall n | n in Due() :: KeyOf(n) == keys[n] && forall i :: 0 <= i < |fired| ==> Less(keys[fired[i]], keys[n]))
    }

    /** The timers not among `due` are as they were; those that fired are active again if they repeat. */
    ghost predicate Settled(due: set<Node>)
      reads this, heap, timers
    {
      forall n | n in timers && n in due && n !in Due() :: (n.active <==> n.repeat != 0) && (n.active ==> n.timeout == Deadline(time, n.repeat))
    }

    /** The first timer of the heap comes strictly before every other one that is due. */
    lemma FirstDue()
      requires Valid()
      ensures heap.min == null || heap.min.timeout > time ==> Due() == {}
      ensures heap.min != null && heap.min.timeout <= time ==> heap.min in Due()
      ensures heap.min != null ==> forall n | n in Due() && n != heap.min :: Less(KeyOf(heap.min), KeyOf(n))
      ensures Elems(heap.nodes) <= timers
    {
      hide Linked, Ordered;
      LeastIsFirst();
    }

    /** One turn of the loop. */
    method FireNext(n: Node, ghost fired: seq<Node>, ghost keys: map<Node, Key>)
      requires Valid() && (time < MAX64 || n.repeat == 0) && counter < MAX64 && Progress(fired, keys) && Settled(keys.Keys)
      requires n in Due() && forall m | m in Due() && m != n :: Less(KeyOf(n), KeyOf(m))
      modifies this`counter, heap, Elems(heap.nodes)`left, Elems(heap.nodes)`right, Elems(heap.nodes)`parent, n
      ensures Valid() && Progress(fired + [n], keys) && Settled(keys.Keys)
      ensures counter <= old(counter) + 1 && Due() == old(Due()) - {n} && n.repeat == old(n.repeat)
      ensures n in keys
    {
      hide H.Heap.Valid, HandlesOk, Deadline, Due, Elems, Less;
      assert allocated(timers) && allocated(keys);
      ghost var was := Due();
      DueMembers();
      Fire(n);
      DueMembers();
      Snoc(fired, n);
      ghost var more := fired + [n];
      assert Progress(more, keys) by {
        forall i, j | 0 <= i < j < |more| ensures Less(keys[more[i]], keys[more[j]]) {
          assert j == |fired| ==> more[j] == n;
        }
      }
    }

    lemma DueMembers()
      ensures Due() <= timers
    {}

    lemma Snoc(s: seq<Node>, n: Node)
      ensures Elems(s + [n]) == Elems(s) + {n}
    {}

    /**
     * uv__run_timers with callbacks that touch no timer: exactly the timers due on entry fire, once
     * each, in the order of (timeout, start_id); none is due afterwards, and repeating ones are
     * active again. It does not end when a repeating timer is due at the 64-bit maximum, see RunFor.
     */
    method RunTimers() returns (ghost fired: seq<Node>, ghost keys: map<Node, Key>)
      requires Valid() && counter + |Due()| <= MAX64
      requires time < MAX64 || forall n | n in Due() :: n.repeat == 0
      modifies this`counter, heap, timers
      ensures Valid() && Due() == {} && time == old(time)
      ensures keys == old(DueKeys()) && Elems(fired) == keys.Keys == old(Due())
      ensures forall i :: 0 <= i < |fired| ==> fired[i] in keys
      ensures forall i, j :: 0 <= i < j < |fired| ==>
                var a, b := keys[fired[i]], keys[fired[j]]; a.timeout < b.timeout || (a.timeout == b.timeout && a.startId < b.startId)
      ensures forall n | n in timers :: n in keys <==> old(n.active && n.timeout <= time)
      ensures forall n | n in keys :: keys[n] == Key(old(n.timeout), old(n.startId))
      ensures forall n | n in timers && n.active :: n.timeout > time
      ensures forall n | n in timers && n !in keys :: n.active == old(n.active) && KeyOf(n) == old(KeyOf(n))
      ensures forall n | n in timers :: n.repeat == old(n.repeat)
      ensures forall n | n in timers && n in keys :: (n.active <==> n.repeat != 0) && (n.active ==> n.timeout == Deadline(time, n.repeat))
    {
      hide H.Heap.Valid, HandlesOk, Deadline, Due, Elems, Less, Progress, Settled;
      DueIs();
      fired, keys := [], DueKeys();
      Start0(keys);
      while true
        invariant Valid() && Progress(fired, keys) && Settled(keys.Keys) && counter + |Due()| <= MAX64
        invariant forall n | n in timers && n !in keys :: n.active == old(n.active) && KeyOf(n) == old(KeyOf(n))
        invariant forall n | n in timers :: n.repeat == old(n.repeat)
        invariant time < MAX64 || forall n | n in Due() :: n.repeat == 0
        decreases |Due()|
      {
        FirstDue();
        var n := heap.min;
        if n == null {
          break;
        }
        if n.timeout > time {
          break;
        }
        ghost var was := Due();
        DueMembers();
        Remains(was, n);
        FireNext(n, fired, keys);
        fired := fired + [n];
      }
      AllFired(fired, keys);
      DueIs();
    }

    lemma AllFired(fired: seq<Node>, keys: map<Node, Key>)
      requires Progress(fired, keys) && Settled(keys.Keys) && Due() == {}
      ensures Elems(fired) == keys.Keys && forall i :: 0 <= i < |fired| ==> fired[i] in keys
      ensures forall i, j :: 0 <= i < j < |fired| ==>
                var a, b := keys[fired[i]], keys[fired[j]]; a.timeout < b.timeout || (a.timeout == b.timeout && a.startId < b.startId)
      ensures forall n | n in timers && n in keys :: (n.active <==> n.repeat != 0) && (n.active ==> n.timeout == Deadline(time, n.repeat))
    {
      hide Deadline;
    }

    /** What may be asked of a timer. */
    ghost predicate Allowed(op: Op)
      reads `timers
    {
      op.n in timers && (op.Start? ==> op.timeout <= MAX64 && op.repeat <= MAX64)
    }

    /** The timers that are due are among these, under the same keys. */
    ghost predicate Within(keys: map<Node, Key>)
      reads this, heap, timers
    {
      forall n | n in Due() :: n in keys && KeyOf(n) == keys[n]
    }

    lemma WithinTwice(keys: map<Node, Key>, now: map<Node, Key>)
      requires Within(now) && forall n | n in now :: n in keys && now[n] == keys[n]
      ensures Within(keys)
    {
      hide Due;
    }

    /** Below the 64-bit maximum a timer that is started ahead is not due. */
    lemma AheadOfTime(timeout: nat)
      requires 0 < timeout <= MAX64 && time < MAX64
      ensures Deadline(time, timeout) > time
    {
      RestartInFuture(time, timeout);
    }

    /** One call from a callback, as long as the counters have room. */
    method Do(op: Op)
      requires Valid() && Allowed(op)
      modifies this`counter, heap, timers
      ensures Valid() && (forall m | m in timers && m != op.n :: m in Due() <==> m in old(Due()))
      ensures time < MAX64 && Ahead(op) ==> Within(old(DueKeys()))
    {
      hide H.Heap.Valid, HandlesOk, Deadline, Elems;
      Members();
      ghost var keys := DueKeys();
      RepeatsOk();
      if time < MAX64 && op.Start? && op.timeout > 0 {
        AheadOfTime(op.timeout);
      }
      if time < MAX64 && op.n.repeat > 0 {
        AheadOfTime(op.n.repeat);
      }
      match op
      case Start(n, cb, timeout, repeat) =>
        if counter < MAX64 && heap.nelts + 1 < 0x1_0000_0000 {
          var ok := Start(n, cb, timeout, repeat);
        }
      case Stop(n) => Stop(n);
      case Again(n) =>
        if counter < MAX64 && heap.nelts + 1 < 0x1_0000_0000 {
          var ok := Again(n);
        }
    }

    lemma RepeatsOk()
      requires Valid()
      ensures forall n | n in timers :: n.repeat <= MAX64
    {}

    lemma Members()
      requires Valid()
      ensures Elems(heap.nodes) <= timers
    {}

    lemma KeysWithin()
      ensures Within(DueKeys())
    {}

    method Callback(ops: seq<Op>)
      requires Valid() && forall op | op in ops :: Allowed(op)
      modifies this`counter, heap, timers
      ensures Valid() && (ops == [] ==> Due() == old(Due()) && forall n | n in timers :: n.repeat == old(n.repeat))
      ensures forall m | m in timers && Untouched(m, ops) :: m in Due() <==> m in old(Due())
      ensures time < MAX64 && (forall op | op in ops :: Ahead(op)) ==> Within(old(DueKeys()))
    {
      hide H.Heap.Valid, HandlesOk, Due;
      ghost var keys := DueKeys();
      KeysWithin();
      for i := 0 to |ops|
        invariant Valid()
        invariant forall m | m in timers && Untouched(m, ops) :: m in Due() <==> m in old(Due())
        invariant time < MAX64 && (forall op | op in ops :: Ahead(op)) ==> Within(keys)
        invariant i == 0 ==> Due() == old(Due()) && forall n | n in timers :: n.repeat == old(n.repeat)
      {
        assert ops[i] in ops;
        ghost var now := DueKeys();
        Do(ops[i]);
        if time < MAX64 && forall op | op in ops :: Ahead(op) {
          WithinTwice(keys, now);
        }
      }
    }

    /** The first timer of the heap in the order of timeout, and of start_id for equal ones. */
    lemma FirstIs()
      requires Valid()
      ensures heap.min == null ==> forall n | n in timers :: !n.active
      ensures heap.min != null ==> heap.min in timers && heap.min.active
      ensures heap.min != null ==> forall n | n in timers && n.active && n != heap.min ::
                heap.min.timeout < n.timeout || (heap.min.timeout == n.timeout && heap.min.startId < n.startId)
    {
      hide Linked, Ordered;
      LeastIsFirst();
    }

    /**
     * One turn of the loop of uv__run_timers, whatever the callback does: the timer that fires is
     * active and due, and the first of those in the order of (timeout, start_id).
     */
    method Turn(ops: seq<Op>) returns (fired: Node?)
      requires Valid() && counter < MAX64 && forall op | op in ops :: Allowed(op)
      modifies this`counter, heap, timers
      ensures Valid() && (fired == null <==> old(Due()) == {})
      ensures fired == null ==> Due() == {}
      ensures fired != null ==> fired in old(Due()) && forall m | m in old(Due()) && m != fired :: Less(old(KeyOf(fired)), old(KeyOf(m)))
      ensures fired != null ==> fired in timers && old(fired.active) && old(fired.timeout) <= time
      ensures fired != null ==> forall m | m in timers && m != fired && old(m.active) ::
                old(fired.timeout) < old(m.timeout) || (old(fired.timeout) == old(m.timeout) && old(fired.startId) < old(m.startId))
      ensures fired == null ==> forall m | m in timers && m.active :: m.timeout > time
      ensures ops == [] && fired != null ==>
                Due() == if time < MAX64 || old(fired.repeat) == 0 then old(Due()) - {fired} else old(Due())
      ensures fired != null ==> forall m | m in timers && m != fired && Untouched(m, ops) :: m in Due() <==> m in old(Due())
      ensures fired != null && time < MAX64 && (forall op | op in ops :: Ahead(op)) ==> Within(old(DueKeys()) - {fired})
      ensures ops == [] ==> forall n | n in timers :: n.repeat == old(n.repeat)
    {
      hide H.Heap.Valid, HandlesOk, Deadline, Due, Elems, Less;
      FirstDue();
      FirstIs();
      Members();
      DueMembers();
      var n := heap.min;
      if n == null {
        return null;
      }
      if n.timeout > time {
        return null;
      }
      Fire(n);
      Callback(ops);
      fired := n;
    }

    /**
     * So many turns at most; the k-th callback makes the calls script(k). `done` says that the loop
     * has ended. At the 64-bit maximum, with callbacks that do nothing, repeating timers that are due
     * stay due, so that it has not, after however many turns.
     */
    method RunFor(turns: nat, script: nat -> seq<Op>) returns (done: bool, ghost fired: seq<Node>)
      requires Valid() && forall k: nat :: forall op | op in script(k) :: Allowed(op)
      modifies this`counter, heap, timers
      ensures Valid() && (done ==> Due() == {}) && (!done ==> |fired| == turns || counter >= MAX64)
      ensures time == MAX64 && (forall k: nat :: script(k) == []) ==>
                forall n | n in old(Due()) && old(n.repeat) != 0 :: !done && n in Due()
    {
      hide H.Heap.Valid, HandlesOk, Deadline, Due, Elems, Less;
      DueMembers();
      fired := [];
      for k := 0 to turns
        invariant Valid() && |fired| == k
        invariant time == MAX64 && (forall k: nat :: script(k) == []) ==>
                    forall n | n in old(Due()) && old(n.repeat) != 0 :: n in Due() && n.repeat != 0
      {
        if counter >= MAX64 {
          return false, fired;
        }
        var n := Turn(script(k));
        if n == null {
          return true, fired;
        }
        fired := fired + [n];
      }
      done := false;
    }

    /**
     * The loop ends below the 64-bit maximum, whatever the callbacks stop and restart, as long as they
     * start timers with a timeout: each turn leaves one due timer less. Only timers due on entry fire,
     * each at most once and in order, and every one that no callback touches. It is not `done` only if
     * the 64-bit counter of starts is used up.
     */
    method RunToEnd(script: nat -> seq<Op>) returns (done: bool, ghost fired: seq<Node>, ghost keys: map<Node, Key>)
      requires Valid() && time < MAX64
      requires forall k: nat :: forall op | op in script(k) :: Allowed(op) && Ahead(op)
      modifies this`counter, heap, timers
      ensures Valid() && keys == old(DueKeys()) && (if done then Due() == {} else counter == MAX64)
      ensures forall i :: 0 <= i < |fired| ==> fired[i] in keys
      ensures forall i, j :: 0 <= i < j < |fired| ==>
                var a, b := keys[fired[i]], keys[fired[j]]; a.timeout < b.timeout || (a.timeout == b.timeout && a.startId < b.startId)
      ensures forall n | n in timers :: n in keys <==> old(n.active && n.timeout <= time)
      ensures forall n | n in keys :: keys[n] == Key(old(n.timeout), old(n.startId))
      ensures done ==> forall n | n in timers && n.active :: n.timeout > time
      ensures done ==> forall n | n in keys && (forall k: nat :: Untouched(n, script(k))) :: n in fired
    {
      hide H.Heap.Valid, Deadline, Due, Elems, Less, Untouched, Within, Fired;
      DueIs();
      fired, keys := [], DueKeys();
      KeysWithin();
      DueMembers();
      NoneFired(keys, Due());
      ghost var left := Due();
      var k := 0;
      while counter < MAX64
        invariant Valid() && Within(keys) && Fired(fired, keys, left) && left == Due() <= timers
        invariant forall n | n in keys && (forall k: nat :: Untouched(n, script(k))) :: n in fired || n in Due()
        decreases |left|
      {
        ghost var now := DueKeys();
        WithinIs(keys);
        var n := Turn(script(k));
        if n == null {
          AllFit(fired, keys, left);
          DueIs();
          return true, fired, keys;
        }
        WithinTwice(keys, now - {n});
        WithinIs(now - {n});
        DueMembers();
        OneFewer(fired, keys, left, n, Due());
        fired := fired + [n];
        left := Due();
        k := k + 1;
      }
      AllFit(fired, keys, left);
      done := false;
    }

    lemma WithinIs(keys: map<Node, Key>)
      requires Within(keys)
      ensures Due() <= keys.Keys && forall n | n in Due() :: KeyOf(n) == keys[n]
    {
      hide Due;
    }

    lemma Remains(s: set<Node>, n: Node)
      requires n in s
      ensures |s - {n}| == |s| - 1
    {}

    lemma Start0(keys: map<Node, Key>)
      requires keys == DueKeys()
      ensures Progress([], keys) && Settled(keys.Keys)
    {}
  }

  /** Those that have fired come in order, and before those that are due. */
  ghost predicate Fired(fired: seq<Node>, keys: map<Node, Key>, due: set<Node>) {
    && due <= keys.Keys && (forall i :: 0 <= i < |fired| ==> fired[i] in keys)
    && (forall i, j :: 0 <= i < j < |fired| ==> Less(keys[fired[i]], keys[fired[j]]))
    && (forall i, n :: 0 <= i < |fired| && n in due ==> Less(keys[fired[i]], keys[n]))
  }

  lemma NoneFired(keys: map<Node, Key>, due: set<Node>)
    requires due <= keys.Keys
    ensures Fired([], keys, due)
  {}

  lemma AllFit(fired: seq<Node>, keys: map<Node, Key>, due: set<Node>)
    requires Fired(fired, keys, due)
    ensures forall i :: 0 <= i < |fired| ==> fired[i] in keys
    ensures forall i, j :: 0 <= i < j < |fired| ==>
              var a, b := keys[fired[i]], keys[fired[j]]; a.timeout < b.timeout || (a.timeout == b.timeout && a.startId < b.startId)
  {
  }

  lemma OneFewer(fired: seq<Node>, keys: map<Node, Key>, due: set<Node>, n: Node, due': set<Node>)
    requires Fired(fired, keys, due) && n in due && due' <= due - {n}
    requires forall m | m in due && m != n :: Less(keys[n], keys[m])
    ensures Fired(fired + [n], keys, due') && |due'| < |due|
  {
    hide Less;
    Smaller(due', due - {n});
  }

  lemma {:induction false} Smaller(a: set<Node>, b: set<Node>)
    requires a <= b
    ensures |a| <= |b|
  {
    if x :| x in a {
      Smaller(a - {x}, b - {x});
    }
  }
}
