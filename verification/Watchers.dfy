/** The watcher table of libuv/src/unix/core.c. An event mask is the set of its flags. */
module Watchers {
  import opened Sequences
  import P = PowerOfTwo

  datatype Flag = PollIn | PollOut | PollRdHup | PollPri

  type Mask = set<Flag>

  const INT_MAX := 0x7FFF_FFFF

  /** uv__io_t */
  class Watcher {
    const fd: int
    var events: Mask
    var pevents: Mask

    /** uv__io_init */
    constructor (fd: int)
      requires -1 <= fd
      ensures this.fd == fd && events == {} && pevents == {}
    {
      this.fd, events, pevents := fd, {}, {};
    }
  }

  /** An entry of loop->watchers; the last two hold what uv__io_poll of Linux keeps there. */
  datatype Slot = Empty | Of(w: Watcher) | Fake(id: int)

  /** The slots that are not empty. */
  function Count(slots: seq<Slot>): nat {
    if slots == [] then 0 else Count(slots[..|slots| - 1]) + if slots[|slots| - 1] == Empty then 0 else 1
  }

  lemma {:induction false} CountUpdate(slots: seq<Slot>, i: nat, s: Slot)
    requires i < |slots|
    ensures Count(slots[i := s]) == Count(slots) - (if slots[i] == Empty then 0 else 1) + (if s == Empty then 0 else 1)
  {
    var n := |slots| - 1;
    if i < n {
      CountUpdate(slots[..n], i, s);
      assert slots[i := s][..n] == slots[..n][i := s];
    } else {
      assert slots[i := s][..n] == slots[..n];
    }
  }

  lemma {:induction false} CountMore(slots: seq<Slot>, more: seq<Slot>)
    requires forall i :: 0 <= i < |more| ==> more[i] == Empty
    ensures Count(slots + more) == Count(slots)
  {
    if more == [] {
      assert slots + more == slots;
    } else {
      assert (slots + more)[..|slots + more| - 1] == slots + more[..|more| - 1];
      CountMore(slots, more[..|more| - 1]);
    }
  }

  predicate Holds(slots: seq<Slot>, w: Watcher) {
    0 <= w.fd < |slots| && slots[w.fd] == Of(w)
  }

  /** w->events and w->pevents */
  datatype Asked = Asked(events: Mask, pevents: Mask)

  function AskedOf(all: set<Watcher>): map<Watcher, Asked>
    reads all
  {
    map w | w in all :: Asked(w.events, w.pevents)
  }

  /** A watcher is in the table just when events are asked for, and in the queue when poll has to be told. */
  predicate WatcherOk(w: Watcher, a: Asked, slots: seq<Slot>, queue: seq<Watcher>) {
    && -1 <= w.fd
    && (a.pevents != {} <==> Holds(slots, w))
    && (w in queue ==> a.pevents != {})
    && (a.pevents != {} && a.events != a.pevents ==> w in queue)
    && (a.pevents == {} ==> a.events == {})
  }

  ghost predicate InUse(slots: seq<Slot>, queue: seq<Watcher>, asked: map<Watcher, Asked>) {
    && NoDuplicates(queue) && (forall w | w in queue :: w in asked)
    && (forall w | w in asked :: WatcherOk(w, asked[w], slots, queue))
    && (forall i :: 0 <= i < |slots| ==> slots[i] == Empty || (slots[i].Of? && slots[i].w in asked && slots[i].w.fd == i))
  }

  /** No other watcher of the descriptor is in use. */
  predicate Alone(w: Watcher, asked: map<Watcher, Asked>) {
    forall v | v in asked && v != w && v.fd == w.fd :: asked[v].pevents == {}
  }

  lemma MoreSlots(slots: seq<Slot>, more: seq<Slot>, queue: seq<Watcher>, asked: map<Watcher, Asked>)
    requires InUse(slots, queue, asked) && forall i :: 0 <= i < |more| ==> more[i] == Empty
    ensures InUse(slots + more, queue, asked) && Count(slots + more) == Count(slots)
  {
    CountMore(slots, more);
    forall w | w in asked ensures WatcherOk(w, asked[w], slots + more, queue) {
      assert WatcherOk(w, asked[w], slots, queue);
    }
  }

  /** The queue after uv__io_start. */
  function QueueStarted(queue: seq<Watcher>, w: Watcher, a: Asked): seq<Watcher> {
    if a.events == a.pevents || w in queue then queue else queue + [w]
  }

  lemma QueueCases(queue: seq<Watcher>, w: Watcher, a: Asked)
    ensures QueueStarted(queue, w, a) == if a.events == a.pevents || w in queue then queue else queue + [w]
  {}

  lemma Started(slots: seq<Slot>, queue: seq<Watcher>, asked: map<Watcher, Asked>, w: Watcher, a: Asked)
    requires InUse(slots, queue, asked) && w in asked && Alone(w, asked) && 0 <= w.fd < |slots|
    requires a.events == asked[w].events && a.pevents >= asked[w].pevents && a.pevents != {}
    ensures slots[w.fd] in {Empty, Of(w)} && (slots[w.fd] == Empty <==> asked[w].pevents == {})
    ensures a.events == a.pevents ==> slots[w.fd] == Of(w)
    ensures InUse(slots[w.fd := Of(w)], QueueStarted(queue, w, a), asked[w := a])
  {
    hide NoDuplicates;
    assert WatcherOk(w, asked[w], slots, queue);
    if w !in queue {
      Appended(queue, w);
    }
    var slots', queue', asked' := slots[w.fd := Of(w)], QueueStarted(queue, w, a), asked[w := a];
    forall v | v in asked' ensures WatcherOk(v, asked'[v], slots', queue') {
      assert v != w ==> WatcherOk(v, asked[v], slots, queue);
    }
  }

  /** The queue after uv__io_stop. */
  function QueueStopped(queue: seq<Watcher>, w: Watcher, a: Asked): seq<Watcher> {
    if a.pevents == {} then Without(queue, w) else if w in queue then queue else queue + [w]
  }

  lemma Stopped(slots: seq<Slot>, queue: seq<Watcher>, asked: map<Watcher, Asked>, w: Watcher, a: Asked)
    requires InUse(slots, queue, asked) && w in asked && Alone(w, asked) && 0 <= w.fd < |slots|
    requires a.pevents <= asked[w].pevents && a.events == if a.pevents == {} then {} else asked[w].events
    ensures slots[w.fd] in {Empty, Of(w)} && (slots[w.fd] == Empty <==> asked[w].pevents == {})
    ensures InUse(if a.pevents == {} then slots[w.fd := Empty] else slots, QueueStopped(queue, w, a), asked[w := a])
  {
    hide NoDuplicates, Without;
    assert WatcherOk(w, asked[w], slots, queue);
    if slots[w.fd] != Empty {
      var v := slots[w.fd].w;
      assert WatcherOk(v, asked[v], slots, queue);
    }
    WithoutIs(queue, w);
    if w !in queue {
      Appended(queue, w);
    }
    var slots', queue', asked' := if a.pevents == {} then slots[w.fd := Empty] else slots, QueueStopped(queue, w, a), asked[w := a];
    forall v | v in asked' ensures WatcherOk(v, asked'[v], slots', queue') {
      assert v != w ==> WatcherOk(v, asked[v], slots, queue);
    }
    assert NoDuplicates(queue') && forall v | v in queue' :: v in asked';
  }

  lemma NothingLeft(a: Mask, b: Mask)
    ensures a - b == {} <==> a <= b
  {
    if a - b == {} {
      forall x | x in a ensures x in b {
        assert x !in a - b;
      }
    }
  }

  lemma NotInUse(slots: seq<Slot>, queue: seq<Watcher>, asked: map<Watcher, Asked>, w: Watcher)
    requires InUse(slots, queue, asked) && w in asked
    ensures -1 <= w.fd && (asked[w].pevents == {} ==> asked[w].events == {} && Without(queue, w) == queue)
    ensures !(0 <= w.fd < |slots|) ==> asked[w].pevents == {}
  {
    assert WatcherOk(w, asked[w], slots, queue);
    if w !in queue {
      NotThere(queue, w);
    }
  }

  class Table {
    /** loop->watchers, with its two extra entries; of no length while it is NULL. */
    var watchers: array<Slot>
    var nwatchers: nat
    var nfds: int
    var queue: seq<Watcher>
    /** Every watcher that was initialised on this loop. */
    ghost var all: set<Watcher>

    constructor ()
      ensures Inv() && fresh(watchers) && all == {} && queue == []
    {
      watchers, nwatchers, nfds, queue, all := new Slot[0], 0, 0, [], {};
      P.TwoIsPower();
      new;
      assert AskedOf(all) == map[] && Slots() == [];
    }

    function Slots(): seq<Slot>
      reads this, watchers
    {
      if nwatchers <= watchers.Length then watchers[..nwatchers] else []
    }

    ghost predicate SizeOk()
      reads `watchers, `nwatchers
    {
      && (if watchers.Length == 0 then nwatchers == 0 else watchers.Length == nwatchers + 2)
      && P.IsPower(nwatchers + 2)
    }

    ghost predicate Inv()
      reads this, watchers, all
    {
      SizeOk() && InUse(Slots(), queue, AskedOf(all)) && nfds == Count(Slots())
    }

    /** A new watcher; see uv__io_init. */
    method Register(w: Watcher)
      requires Inv() && w !in all && w.fd >= -1 && w.events == {} && w.pevents == {}
      modifies `all
      ensures Inv() && all == old(all) + {w}
    {
      ghost var asked := AskedOf(all);
      all := all + {w};
      assert AskedOf(all) == asked[w := Asked({}, {})];
    }

    /** maybe_resize. From a length of 2^31 - 1 on next_power_of_two fails. */
    method MaybeResize(len: nat)
      requires Inv() && len + 2 <= P.WORD / 2
      modifies `watchers, `nwatchers
      ensures Inv() && len <= nwatchers && old(nwatchers) <= nwatchers && Grew(old(Slots()), Slots()) && (watchers == old(watchers) || fresh(watchers))
      ensures old(watchers.Length) > 0 ==> Extra() == old(Extra())
      ensures if len <= old(nwatchers) then watchers == old(watchers) && nwatchers == old(nwatchers)
              else P.IsLeastPower(nwatchers + 2, len + 2)
    {
      hide InUse, Count, P.Pow2, P.IsPower, P.IsLeastPower;
      if len <= nwatchers {
        return;
      }
      var n := P.NextPowerOfTwo(len + 2);
      P.LeastIsPower(n, len + 2);
      var larger := Grown(watchers, nwatchers, n - 2);
      ghost var more := larger[nwatchers..n - 2];
      MoreSlots(Slots(), more, queue, AskedOf(all));
      assert larger[..n - 2] == Slots() + more;
      watchers, nwatchers := larger, n - 2;
      assert AskedOf(all) == old(AskedOf(all));
    }

    lemma InRange()
      requires SizeOk()
      ensures nwatchers <= watchers.Length
    {
    }

    method SetSlot(fd: nat, s: Slot)
      requires fd < nwatchers <= watchers.Length
      modifies watchers
      ensures Slots() == old(Slots())[fd := s]
    {
      watchers[fd] := s;
    }

    /** uv__io_start */
    method IoStart(w: Watcher, events: Mask)
      requires Inv() && w in all && Alone(w, AskedOf(all)) && events != {} && 0 <= w.fd && w.fd + 3 <= P.WORD / 2
      modifies `watchers, `nwatchers, `nfds, `queue, watchers, w`pevents
      ensures Inv() && (watchers == old(watchers) || fresh(watchers)) && nwatchers >= old(nwatchers)
      ensures AskedOf(all) == old(AskedOf(all)[w := Asked(w.events, w.pevents + events)])
      ensures queue == QueueStarted(old(queue), w, Asked(w.events, w.pevents))
    {
      hide *;
      MaybeResize(w.fd + 1);
      assert AskedOf(all) == old(AskedOf(all));
      Enter(w, events);
    }

    /** Lines 835-853, once the slot is there. */
    method Enter(w: Watcher, events: Mask)
      requires Inv() && w in all && Alone(w, AskedOf(all)) && events != {} && 0 <= w.fd < nwatchers
      modifies `nfds, `queue, watchers, w`pevents
      ensures Inv()
      ensures AskedOf(all) == old(AskedOf(all)[w := Asked(w.events, w.pevents + events)])
      ensures queue == QueueStarted(old(queue), w, Asked(w.events, w.pevents))
    {
      hide Count, SizeOk, InUse, Alone, QueueStarted;
      InRange();
      ghost var slots, asked := Slots(), AskedOf(all);
      Started(slots, queue, asked, w, Asked(w.events, w.pevents + events));
      QueueCases(queue, w, Asked(w.events, w.pevents + events));
      assert watchers[w.fd] == slots[w.fd];
      w.pevents := w.pevents + events;
      assert AskedOf(all) == asked[w := Asked(w.events, w.pevents)];
      if w.events == w.pevents {
        assert slots[w.fd := Of(w)] == slots;
        return;
      }
      if w !in queue {
        queue := queue + [w];
      }
      Occupy(w);
      assert AskedOf(all) == asked[w := Asked(w.events, w.pevents)];
    }

    /** Lines 850-853. */
    method Occupy(w: Watcher)
      requires 0 <= w.fd < nwatchers <= watchers.Length && watchers[w.fd] in {Empty, Of(w)} && nfds == Count(Slots())
      modifies `nfds, watchers
      ensures Slots() == old(Slots())[w.fd := Of(w)] && nfds == Count(Slots())
    {
      hide Count;
      CountUpdate(Slots(), w.fd, Of(w));
      if watchers[w.fd] == Empty {
        SetSlot(w.fd, Of(w));
        nfds := nfds + 1;
      }
      assert old(Slots())[w.fd] == Of(w) ==> Slots() == old(Slots())[w.fd := Of(w)];
    }

    /** uv__io_stop */
    method IoStop(w: Watcher, events: Mask)
      requires Inv() && w in all && Alone(w, AskedOf(all)) && events != {}
      modifies `nfds, `queue, watchers, w`pevents, w`events
      ensures Inv()
      ensures AskedOf(all) == old(AskedOf(all)[w := Asked(if w.pevents <= events then {} else w.events, w.pevents - events)])
      ensures queue == QueueStopped(old(queue), w, Asked(w.events, w.pevents))
    {
      hide Count, SizeOk, InUse, Alone, Without;
      InRange();
      ghost var slots, asked := Slots(), AskedOf(all);
      NotInUse(slots, queue, asked, w);
      NothingLeft(w.pevents, events);
      if w.fd == -1 {
        assert asked == asked[w := asked[w]];
        return;
      }
      if w.fd >= nwatchers {
        assert asked == asked[w := asked[w]];
        return;
      }
      ghost var a := Asked(if w.pevents <= events then {} else w.events, w.pevents - events);
      Stopped(slots, queue, asked, w, a);
      CountUpdate(slots, w.fd, Empty);
      w.pevents := w.pevents - events;
      if w.pevents == {} {
        queue := Without(queue, w);
        if watchers[w.fd] != Empty {
          assert watchers[w.fd] == Of(w);
          assert nfds > 0;
          SetSlot(w.fd, Empty);
          nfds := nfds - 1;
          w.events := {};
        }
        assert Slots() == slots[w.fd := Empty];
      } else if w !in queue {
        queue := queue + [w];
      }
      assert AskedOf(all) == asked[w := a];
    }

    /** The two entries behind the slots. */
    function Extra(): seq<Slot>
      reads this, watchers
    {
      if nwatchers <= watchers.Length then watchers[nwatchers..] else []
    }
  }

  /** The slots are kept, and those behind them are empty. */
  predicate Grew(slots: seq<Slot>, slots': seq<Slot>) {
    slots <= slots' && forall i :: |slots| <= i < |slots'| ==> slots'[i] == Empty
  }

  /** Lines 788-805: the slots, empty ones behind them, and the two extra entries. */
  method Grown(watchers: array<Slot>, nwatchers: nat, n: nat) returns (larger: array<Slot>)
    requires if watchers.Length == 0 then nwatchers == 0 else watchers.Length == nwatchers + 2
    requires nwatchers <= n
    ensures fresh(larger) && larger.Length == n + 2 && larger[..nwatchers] == watchers[..nwatchers]
    ensures forall i :: nwatchers <= i < n ==> larger[i] == Empty
    ensures watchers.Length > 0 ==> larger[n..] == watchers[nwatchers..]
  {
    var fakeWatcherList, fakeWatcherCount := Empty, Empty;
    if watchers.Length != 0 {
      fakeWatcherList, fakeWatcherCount := watchers[nwatchers], watchers[nwatchers + 1];
    }
    larger := new Slot[n + 2](i => Empty);
    for i := 0 to nwatchers
      invariant forall k :: 0 <= k < i ==> larger[k] == watchers[k]
      invariant forall k :: i <= k < n + 2 ==> larger[k] == Empty
    {
      larger[i] := watchers[i];
    }
    larger[n] := fakeWatcherList;
    larger[n + 1] := fakeWatcherCount;
  }
}
