/**
 * uv__io_poll of libuv/src/unix/posix-poll.c on the watcher table: what poll(2) is asked for, and
 * what the callbacks are given.
 */
module IoPoll {
  import opened Sequences
  import opened W = Watchers
  import P = PowerOfTwo
  import A = PollArray

  const ALL: Mask := {PollIn, PollOut, PollRdHup, PollPri}

  /** What poll(2) found for a descriptor; `err` stands for POLLERR and POLLHUP. */
  datatype Ready = Ready(events: Mask, err: bool)

  /** A callback: of which watcher, with which events, and what the watcher asked for then. */
  datatype Call = Call(w: Watcher, ready: Ready, asked: Mask)

  /** What a callback does. */
  datatype Op = Start(w: Watcher, events: Mask) | Stop(w: Watcher, events: Mask) | Close(w: Watcher)

  /** What poll(2) was told of a watcher is in the map, and the map names only descriptors of the table. */
  ghost predicate Told(asked: map<Watcher, Asked>, polled: map<int, Mask>, nwatchers: nat) {
    && (forall w | w in asked && asked[w].events != {} :: w.fd in polled && polled[w.fd] == asked[w].events)
    && (forall fd | fd in polled :: 0 <= fd < nwatchers)
  }

  lemma DequeuedOk(slots: seq<Slot>, queue: seq<Watcher>, asked: map<Watcher, Asked>)
    requires InUse(slots, queue, asked) && queue != []
    ensures var w := queue[0];
            && w in asked && asked[w].pevents != {} && 0 <= w.fd < |slots|
            && InUse(slots, queue[1..], asked[w := Asked(asked[w].pevents, asked[w].pevents)])
  {
    hide NoDuplicates;
    var w, rest := queue[0], queue[1..];
    assert queue == [w] + rest;
    Parts([w], rest);
    assert WatcherOk(w, asked[w], slots, queue);
    var asked' := asked[w := Asked(asked[w].pevents, asked[w].pevents)];
    forall v | v in asked' ensures WatcherOk(v, asked'[v], slots, rest) {
      assert WatcherOk(v, asked[v], slots, queue);
    }
  }

  /** The other watchers of a descriptor in use are not in use. */
  lemma Sole(slots: seq<Slot>, queue: seq<Watcher>, asked: map<Watcher, Asked>, w: Watcher)
    requires InUse(slots, queue, asked) && w in asked && (asked[w].pevents != {} || Alone(w, asked))
    ensures forall v | v in asked && v != w && v.fd == w.fd :: asked[v].events == {}
  {
    assert WatcherOk(w, asked[w], slots, queue);
    forall v | v in asked && v != w && v.fd == w.fd ensures asked[v].events == {} {
      assert WatcherOk(v, asked[v], slots, queue);
    }
  }

  /** With nothing queued poll(2) is told of every watcher just what it asks for. */
  lemma UpToDate(slots: seq<Slot>, asked: map<Watcher, Asked>, w: Watcher)
    requires InUse(slots, [], asked) && w in asked
    ensures asked[w].events == asked[w].pevents
  {
    assert WatcherOk(w, asked[w], slots, []);
  }

  class Loop {
    const table: Table
    const poll: A.PollFds

    constructor ()
      ensures Inv() && fresh(table) && fresh(poll) && table.all == {} && !poll.iterating
    {
      table := new Table();
      poll := new A.PollFds();
    }

    ghost predicate Inv()
      reads this, table, table.watchers, table.all, poll, poll.fds
    {
      table.Inv() && poll.Valid() && Told(AskedOf(table.all), poll.Table(), table.nwatchers)
    }

    /** Lines 154-167: the queued watchers are put into the array. */
    method Prologue()
      requires Inv() && !poll.iterating
      modifies table`queue, table.all`events, poll`fds, poll`used, poll.fds
      ensures Inv() && table.queue == [] && (poll.fds == old(poll.fds) || fresh(poll.fds))
      ensures forall w | w in table.all :: w.pevents == old(w.pevents) && w.events == w.pevents
      ensures forall w | w in table.all && w.pevents != {} :: w.fd in poll.Table() && poll.Table()[w.fd] == w.pevents
      ensures forall w | w in table.all && w.pevents != {} ::
        exists i :: 0 <= i < poll.used && poll.Entries()[i].fd == w.fd && poll.Entries()[i].events == w.pevents
    {
      hide *;
      while table.queue != []
        invariant Inv() && (poll.fds == old(poll.fds) || fresh(poll.fds))
        invariant forall w | w in table.all :: w.pevents == old(w.pevents)
        decreases |table.queue|
      {
        var w := table.queue[0];
        InAll(w);
        TakeQueued(w);
      }
      AllTold();
    }

    lemma AllTold()
      requires Inv() && table.queue == []
      ensures forall w | w in table.all :: w.events == w.pevents
      ensures forall w | w in table.all && w.pevents != {} :: w.fd in poll.Table() && poll.Table()[w.fd] == w.pevents
      ensures forall w | w in table.all && w.pevents != {} ::
        exists i :: 0 <= i < poll.used && poll.Entries()[i].fd == w.fd && poll.Entries()[i].events == w.pevents
    {
      hide Count;
      forall w | w in table.all ensures w.events == w.pevents {
        UpToDate(table.Slots(), AskedOf(table.all), w);
      }
      assert forall w | w in table.all :: AskedOf(table.all)[w].events == w.pevents;
      forall w | w in table.all && w.pevents != {}
        ensures exists i :: 0 <= i < poll.used && poll.Entries()[i].fd == w.fd && poll.Entries()[i].events == w.pevents
      {
        var i := A.MapHas(poll.Entries(), w.fd);
      }
    }

    lemma InAll(w: Watcher)
      requires Inv() && w in table.queue
      ensures w in table.all
    {
    }

    method TakeQueued(w: Watcher)
      requires Inv() && !poll.iterating && table.queue != [] && w == table.queue[0]
      modifies table`queue, w`events, poll`fds, poll`used, poll.fds
      ensures Inv() && table.queue == old(table.queue)[1..] && (poll.fds == old(poll.fds) || fresh(poll.fds))
      ensures w.fd >= 0 && w.events == w.pevents != {} && poll.Table() == old(poll.Table())[w.fd := w.pevents]
    {
      hide Count, InUse, A.Map, A.Unique, Told;
      ghost var asked, polled := AskedOf(table.all), poll.Table();
      DequeuedOk(table.Slots(), table.queue, asked);
      Sole(table.Slots(), table.queue, asked, w);
      table.queue := table.queue[1..];
      assert w.pevents != {};
      assert w.fd >= 0;
      assert w.fd < table.nwatchers;
      poll.Add(w.fd, w.pevents);
      w.events := w.pevents;
      assert AskedOf(table.all) == asked[w := Asked(w.pevents, w.pevents)];
      NowTold(asked, polled, table.nwatchers, w);
    }

    method IoStart(w: Watcher, events: Mask)
      requires Inv() && w in table.all && Alone(w, AskedOf(table.all)) && events != {} && 0 <= w.fd && w.fd + 3 <= P.WORD / 2
      modifies table, table.watchers, w`pevents
      ensures Inv() && table.all == old(table.all) && (table.watchers == old(table.watchers) || fresh(table.watchers))
      ensures AskedOf(table.all) == old(AskedOf(table.all)[w := Asked(w.events, w.pevents + events)])
    {
      hide Count, InUse, Alone, A.Map, A.Unique, Told;
      table.IoStart(w, events);
      assert poll.Table() == old(poll.Table());
      StillTold(old(AskedOf(table.all)), AskedOf(table.all), poll.Table(), old(table.nwatchers), table.nwatchers, w);
    }

    method IoStop(w: Watcher, events: Mask)
      requires Inv() && w in table.all && Alone(w, AskedOf(table.all)) && events != {}
      modifies table, table.watchers, w`pevents, w`events
      ensures Inv() && table.all == old(table.all) && table.watchers == old(table.watchers)
      ensures AskedOf(table.all) == old(AskedOf(table.all)[w := Asked(if w.pevents <= events then {} else w.events, w.pevents - events)])
    {
      hide Count, InUse, Alone, A.Map, A.Unique, Told;
      table.IoStop(w, events);
      assert poll.Table() == old(poll.Table());
      StillTold(old(AskedOf(table.all)), AskedOf(table.all), poll.Table(), table.nwatchers, table.nwatchers, w);
    }

    /** uv__io_close: afterwards poll(2) is not asked about the descriptor any more. */
    method IoClose(w: Watcher)
      requires Inv() && w in table.all && Alone(w, AskedOf(table.all))
      modifies table, table.watchers, w`pevents, w`events, poll`used, poll.fds
      ensures Inv() && table.all == old(table.all) && table.watchers == old(table.watchers)
      ensures w.pevents == {} && w.events == {} && poll.Table() == old(poll.Table()) - {w.fd}
      ensures poll.iterating ==> Invalidated(old(poll.Entries()), poll.Entries(), {w.fd})
    {
      hide Count, InUse, Alone, A.Map, A.Unique, Told;
      AllFlags(w.pevents);
      Sole(table.Slots(), table.queue, AskedOf(table.all), w);
      IoStop(w, ALL);
      ghost var asked, polled := AskedOf(table.all), poll.Table();
      poll.Invalidate(w.fd);
      assert AskedOf(table.all) == asked;
      assert table.Inv();
      ClosedTold(asked, polled, table.nwatchers, w.fd);
    }

    /** What the asserts of uv__io_start and uv__io_stop ask of a call at any time. */
    ghost predicate Allowed(op: Op)
      reads table
    {
      && op.w in table.all
      && (op.Start? ==> op.events != {} && 0 <= op.w.fd && op.w.fd + 3 <= P.WORD / 2)
      && (op.Stop? ==> op.events != {})
    }

    /** And at this time: the descriptor is not in use by another watcher. */
    predicate Free(w: Watcher)
      reads table, table.watchers
    {
      0 <= w.fd < |table.Slots()| ==> table.Slots()[w.fd] in {Empty, Of(w)}
    }

    lemma FreeIsAlone(w: Watcher)
      requires Inv() && w in table.all
      ensures Free(w) <==> Alone(w, AskedOf(table.all))
    {
      hide Count, NoDuplicates;
      var slots, asked := table.Slots(), AskedOf(table.all);
      forall v | v in asked ensures WatcherOk(v, asked[v], slots, table.queue) {
      }
      if !Free(w) {
        var v := slots[w.fd].w;
        assert v in asked && v != w && v.fd == w.fd && Holds(slots, v);
      }
    }

    /** A call a callback makes, if the descriptor is free for it. */
    method Do(op: Op) returns (done: bool)
      requires Inv() && Allowed(op) && poll.iterating
      modifies table, table.watchers, table.all`pevents, table.all`events, poll`used, poll.fds
      ensures Inv() && table.all == old(table.all) && (table.watchers == old(table.watchers) || fresh(table.watchers))
      ensures done == old(Alone(op.w, AskedOf(table.all)))
      ensures Invalidated(old(poll.Entries()), poll.Entries(), if done then ClosedBy([op]) else {})
      ensures forall v | v in table.all && v != op.w :: v.pevents == old(v.pevents)
      ensures done ==> op.w.pevents == match op { case Start(w, es) => old(w.pevents) + es case Stop(w, es) => old(w.pevents) - es case Close(_) => {} }
      ensures forall v | v in table.all && v != op.w && v.pevents != {} && done :: v.fd != op.w.fd
    {
      hide Count, InUse, A.Map, A.Unique, Told;
      FreeIsAlone(op.w);
      InvalidatedNone(poll.Entries());
      done := Free(op.w);
      if done {
        NoneBut(op.w);
        match op {
          case Start(w, events) => IoStart(w, events);
          case Stop(w, events) => IoStop(w, events);
          case Close(w) => IoClose(w);
        }
        assert AskedOf(table.all)[op.w].pevents == op.w.pevents;
        assert ClosedBy([op]) == if op.Close? then {op.w.fd} else {};
      }
    }

    /** The calls of a callback; `done` are those that were made. */
    method Callback(ops: seq<Op>) returns (done: seq<Op>)
      requires Inv() && poll.iterating && forall op | op in ops :: Allowed(op)
      modifies table, table.watchers, table.all`pevents, table.all`events, poll`used, poll.fds
      ensures Inv() && table.all == old(table.all) && (table.watchers == old(table.watchers) || fresh(table.watchers))
      ensures Invalidated(old(poll.Entries()), poll.Entries(), ClosedBy(done)) && forall op | op in done :: op in ops
      ensures forall v | v in table.all && Spared(ops, v) :: v.pevents == old(v.pevents) && (v.pevents != {} ==> v.fd !in ClosedBy(done))
    {
      hide Count, InUse, A.Map, A.Unique, Told, Invalidated;
      InvalidatedNone(poll.Entries());
      done := [];
      assert ClosedBy(done) == {};
      for i := 0 to |ops|
        invariant Inv() && table.all == old(table.all) && (table.watchers == old(table.watchers) || fresh(table.watchers))
        invariant Invalidated(old(poll.Entries()), poll.Entries(), ClosedBy(done)) && forall op | op in done :: op in ops
        invariant forall v | v in table.all && Spared(ops, v) :: v.pevents == old(v.pevents) && (v.pevents != {} ==> v.fd !in ClosedBy(done))
      {
        ghost var es := poll.Entries();
        assert ops[i] in ops;
        var yes := Do(ops[i]);
        InvalidatedTwice(old(poll.Entries()), es, poll.Entries(), ClosedBy(done), if yes then ClosedBy([ops[i]]) else {});
        assert ClosedBy(done) + {} == ClosedBy(done);
        if yes {
          ClosedByMore(done, ops[i]);
          done := done + [ops[i]];
        }
      }
    }

    /** An entry that is not invalidated names a slot of the table. */
    lemma Polled(i: nat)
      requires Inv() && i < poll.used && poll.fds[i].fd != -1
      ensures var fd := poll.fds[i].fd;
              && 0 <= fd < table.nwatchers <= table.watchers.Length
              && var slot := table.watchers[fd];
                 slot == Empty || (slot.Of? && slot.w in table.all && slot.w.fd == fd && slot.w.pevents != {})
    {
      hide Count;
      table.InRange();
      var fd := poll.fds[i].fd;
      assert poll.Entries()[i].fd == fd;
      assert fd in poll.Table();
      var slot := table.Slots()[fd];
      if slot != Empty {
        assert WatcherOk(slot.w, AskedOf(table.all)[slot.w], table.Slots(), table.queue);
      }
    }

    /** A watcher in use is in its slot. */
    lemma InSlot(w: Watcher)
      requires Inv() && w in table.all && w.pevents != {}
      ensures 0 <= w.fd < table.nwatchers <= table.watchers.Length && table.watchers[w.fd] == Of(w)
    {
      hide Count;
      table.InRange();
      assert WatcherOk(w, AskedOf(table.all)[w], table.Slots(), table.queue);
      assert table.Slots()[w.fd] == table.watchers[w.fd];
    }

    /** Lines 241-245: nobody is interested in the descriptor any more. */
    method Forget(fd: nat)
      requires Inv() && poll.iterating && fd < table.nwatchers <= table.watchers.Length && table.watchers[fd] == Empty
      modifies poll`used, poll.fds
      ensures Inv() && Invalidated(old(poll.Entries()), poll.Entries(), {fd})
    {
      hide Count, A.Map, A.Unique, Told, InUse;
      ghost var asked, polled := AskedOf(table.all), poll.Table();
      NotInTable(table.Slots(), table.queue, asked, fd);
      poll.Invalidate(fd);
      assert AskedOf(table.all) == asked;
      assert table.Inv();
      ClosedTold(asked, polled, table.nwatchers, fd);
    }

    /**
     * Lines 228-262: entry i, with what poll(2) found there and what the callback does. `gone` are the
     * descriptors that are closed by it, or that nobody watches.
     */
    method Look(i: nat, found: Ready, ops: seq<Op>) returns (calls: seq<Call>, done: seq<Op>, ghost gone: set<int>)
      requires Inv() && poll.iterating && i < poll.used && forall op | op in ops :: Allowed(op)
      modifies table, table.watchers, table.all`pevents, table.all`events, poll`used, poll.fds
      ensures Inv() && table.all == old(table.all) && (table.watchers == old(table.watchers) || fresh(table.watchers))
      ensures Invalidated(old(poll.Entries()), poll.Entries(), gone) && ClosedBy(done) <= gone
      ensures calls == [] || (|calls| == 1 && CallOk(calls[0], found) && calls[0].w.fd == old(poll.Entries())[i].fd != -1)
      ensures forall w | w in table.all && old(w.pevents) != {} && w.fd == old(poll.Entries())[i].fd ::
        calls == CallOf(w, old(w.pevents), found)
      ensures (calls == [] ==> done == []) && forall op | op in done :: op in ops
      ensures forall v | v in table.all && Spared(ops, v) :: v.pevents == old(v.pevents) && (v.pevents != {} ==> v.fd !in gone)
      ensures old(poll.Entries())[i].fd != -1 && (forall w | w in table.all && w.fd == old(poll.Entries())[i].fd :: old(w.pevents) == {}) ==>
                calls == [] && poll.Entries()[i] == A.NONE
    {
      hide Count, InUse, A.Map, A.Unique, Told, Invalidated;
      ghost var es := poll.Entries();
      InvalidatedNone(poll.Entries());
      forall w | w in table.all && w.pevents != {}
        ensures 0 <= w.fd < table.nwatchers <= table.watchers.Length && table.watchers[w.fd] == Of(w)
      {
        InSlot(w);
      }
      calls, done, gone := [], [], {};
      var fd := poll.fds[i].fd;
      if fd == -1 {
        return;
      }
      Polled(i);
      assert fd >= 0;
      assert fd < table.nwatchers;
      var slot := table.watchers[fd];
      if slot == Empty {
        Forget(fd);
        gone := {fd};
        NowNone(es, poll.Entries(), fd, i);
        return;
      }
      var w := slot.w;
      var revents := Ready(found.events * w.pevents, found.err);
      if revents.events != {} || revents.err {
        calls := [Call(w, revents, w.pevents)];
        done := Callback(ops);
        gone := ClosedBy(done);
      }
    }

    /**
     * Lines 218-270: the callbacks for what poll(2) found at each descriptor, and the purge. The k-th
     * callback makes the calls scripts[k], those of done[k] as the others are not allowed then. The
     * signal watcher is no different here.
     */
    method Dispatch(found: int -> Ready, scripts: seq<seq<Op>>) returns (calls: seq<Call>, done: seq<seq<Op>>)
      requires Inv() && !poll.iterating
      requires forall s | s in scripts :: forall op | op in s :: Allowed(op)
      modifies table, table.watchers, table.all`pevents, table.all`events, poll`used, poll`iterating, poll.fds
      ensures Inv() && !poll.iterating && table.all == old(table.all)
      ensures forall c | c in calls :: CallOk(c, found(c.w.fd))
      ensures forall i, j :: 0 <= i < j < |calls| ==> calls[i].w.fd != calls[j].w.fd
      ensures |done| == |calls| && forall i, j :: 0 <= i < j < |calls| ==> calls[j].w.fd !in ClosedBy(done[i])
      ensures forall v | v in table.all && Waits(v, old(v.pevents), scripts) && v.fd in old(poll.Table()) ::
        Answered(calls, v, old(v.pevents), found)
      ensures forall i :: 0 <= i < poll.used ==> poll.Entries()[i].fd != -1
    {
      hide Count, InUse, A.Map, A.Unique, Told, CallOk, Before, Waits, CallOf, Spared, ClosedBy, Invalidated, Looked, Answered;
      ghost var es, asked, gone := poll.Entries(), AskedOf(table.all), {};
      assert A.Unique(es);
      poll.iterating := true;
      calls, done := [], [];
      NoneLooked(es, asked, found, scripts);
      var n := poll.used;
      for i := 0 to n
        invariant Inv() && poll.iterating && table.all == old(table.all)
        invariant table.watchers == old(table.watchers) || fresh(table.watchers)
        invariant Looked(calls, done, es, asked, i, gone, found, scripts) && poll.used == n == |es|
      {
        calls, done, gone := LookNext(calls, done, es, asked, i, gone, found, scripts);
      }
      AllLooked(calls, done, es, asked, gone, found, scripts);
      poll.iterating := false;
      Purge();
    }

    /**
     * After the entries before i: `gone` is what is invalidated since, the callbacks were as they
     * should, and those who wait have been called.
     */
    ghost predicate Looked(calls: seq<Call>, done: seq<seq<Op>>, es: seq<A.Entry>, asked: map<Watcher, Asked>, i: nat, gone: set<int>,
                           found: int -> Ready, scripts: seq<seq<Op>>)
      reads table, table.all`pevents, poll, poll.fds
    {
      && Invalidated(es, poll.Entries(), gone) && i <= |es| && Before(calls, done, es, i, gone, found)
      && forall v | v in table.all && v in asked && Waits(v, asked[v].pevents, scripts) ::
           v.pevents == asked[v].pevents && Served(calls, es, i, gone, v, asked[v].pevents, found)
    }

    lemma NoneLooked(es: seq<A.Entry>, asked: map<Watcher, Asked>, found: int -> Ready, scripts: seq<seq<Op>>)
      requires es == poll.Entries() && asked == AskedOf(table.all)
      ensures Looked([], [], es, asked, 0, {}, found, scripts)
    {
      hide Waits, Served, Before, Invalidated;
      NoneBefore(es, found);
      InvalidatedNone(es);
      forall v | v in table.all ensures Served([], es, 0, {}, v, asked[v].pevents, found) {
        NoneServed(es, v, asked[v].pevents, found);
      }
    }

    lemma AllLooked(calls: seq<Call>, done: seq<seq<Op>>, es: seq<A.Entry>, asked: map<Watcher, Asked>, gone: set<int>,
                    found: int -> Ready, scripts: seq<seq<Op>>)
      requires A.Unique(es) && asked.Keys == table.all && Looked(calls, done, es, asked, |es|, gone, found, scripts)
      ensures forall j, k :: 0 <= j < k < |calls| ==> calls[j].w.fd != calls[k].w.fd
      ensures |done| == |calls| && forall j, k :: 0 <= j < k < |calls| ==> calls[k].w.fd !in ClosedBy(done[j])
      ensures forall c | c in calls :: CallOk(c, found(c.w.fd))
      ensures forall v | v in table.all && Waits(v, asked[v].pevents, scripts) && v.fd in A.Map(es) ::
        Answered(calls, v, asked[v].pevents, found)
    {
      hide A.Unique, A.Map, Waits, Served, Before, Invalidated, CallOk, ClosedBy, Answered;
      CallsDiffer(calls, done, es, |es|, gone, found);
      forall v | v in table.all && Waits(v, asked[v].pevents, scripts) && v.fd in A.Map(es)
        ensures Answered(calls, v, asked[v].pevents, found)
      {
        AllServed(calls, es, gone, v, asked[v].pevents, found);
      }
    }

    /** One turn: entry i is looked at. */
    method LookNext(calls: seq<Call>, done: seq<seq<Op>>, ghost es: seq<A.Entry>, ghost asked: map<Watcher, Asked>, i: nat,
                    ghost gone: set<int>, found: int -> Ready, scripts: seq<seq<Op>>)
      returns (calls': seq<Call>, done': seq<seq<Op>>, ghost gone': set<int>)
      requires Inv() && poll.iterating && i < |es| && A.Unique(es) && asked.Keys == table.all
      requires Looked(calls, done, es, asked, i, gone, found, scripts) && |es| == poll.used
      requires forall s | s in scripts :: forall op | op in s :: Allowed(op)
      modifies table, table.watchers, table.all`pevents, table.all`events, poll`used, poll.fds
      ensures Inv() && table.all == old(table.all) && (table.watchers == old(table.watchers) || fresh(table.watchers))
      ensures Looked(calls', done', es, asked, i + 1, gone', found, scripts) && |es| == poll.used
    {
      hide Count, InUse, A.Map, A.Unique, Told, Invalidated, CallOk, Before, Served, Waits, CallOf, Spared, ClosedBy;
      ghost var now := poll.Entries();
      SameLength(es, now, gone);
      var ops := if |calls| < |scripts| then scripts[|calls|] else [];
      assert ops == [] || ops in scripts;
      ghost var lost;
      var call, made;
      call, made, lost := Look(i, found(poll.fds[i].fd), ops);
      ghost var after := poll.Entries();
      InvalidatedTwice(es, now, after, gone, lost);
      SameLength(now, after, lost);
      OneMore(calls, done, es, now, i, gone, call, made, lost, found);
      calls', done', gone' := calls + call, done + (if call == [] then [] else [made]), gone + lost;
      forall v | v in table.all && Waits(v, asked[v].pevents, scripts)
        ensures v.pevents == asked[v].pevents && Served(calls', es, i + 1, gone', v, asked[v].pevents, found)
      {
        WaitsSpared(v, asked[v].pevents, scripts, ops);
        ServedStep(calls, call, es, i, now, gone, lost, v, asked[v].pevents, found);
      }
    }

    /** uv__io_poll, for one return of poll(2). */
    method Poll(found: int -> Ready, scripts: seq<seq<Op>>) returns (calls: seq<Call>, done: seq<seq<Op>>)
      requires Inv() && !poll.iterating
      requires forall s | s in scripts :: forall op | op in s :: Allowed(op)
      modifies table, table.watchers, table.all`pevents, table.all`events, poll, poll.fds
      ensures Inv() && !poll.iterating && table.all == old(table.all)
      ensures forall c | c in calls :: CallOk(c, found(c.w.fd))
      ensures forall i, j :: 0 <= i < j < |calls| ==> calls[i].w.fd != calls[j].w.fd
      ensures |done| == |calls| && forall i, j :: 0 <= i < j < |calls| ==> calls[j].w.fd !in ClosedBy(done[i])
      ensures forall v | v in table.all && Waits(v, old(v.pevents), scripts) :: Answered(calls, v, old(v.pevents), found)
      ensures forall c | c in calls ::
        && c.asked != {} && c.ready.events == found(c.w.fd).events * c.asked && c.ready.err == found(c.w.fd).err
        && (c.ready.events != {} || c.ready.err)
      ensures forall i, j :: 0 <= i < j < |calls| ==> forall op | op in done[i] && op.Close? :: op.w.fd != calls[j].w.fd
      ensures forall v | v in table.all && old(v.pevents) != {} && (forall ops | ops in scripts :: forall op | op in ops :: op.w != v) ::
        var events, err := found(v.fd).events * old(v.pevents), found(v.fd).err;
        events != {} || err ==> Call(v, Ready(events, err), old(v.pevents)) in calls
    {
      hide Count, InUse, A.Map, A.Unique, Told, CallOk, Answered;
      if table.nfds == 0 {
        NothingQueued();
        assert table.queue == [];
        return [], [];
      }
      Prologue();
      calls, done := Dispatch(found, scripts);
      CallsAre(calls, done, found);
      forall v, asked | Answered(calls, v, asked, found)
        ensures var events, err := found(v.fd).events * asked, found(v.fd).err; events != {} || err ==> Call(v, Ready(events, err), asked) in calls
      {
        AnswerIs(calls, v, asked, found);
      }
    }

    /**
     * A descriptor passes from one watcher to another while the array is looked at, before the turn
     * of its entry. If the first one is closed, the second gets nothing of what was found for the
     * first; if it is only stopped, the second is called with it.
     */
    method PassOn(i: nat, found: Ready, close: bool, v: Watcher, w: Watcher, events: Mask) returns (calls: seq<Call>)
      requires Inv() && poll.iterating && i < poll.used && poll.Entries()[i].fd == v.fd == w.fd && v != w
      requires v in table.all && w in table.all && v.pevents != {} && events != {} && w.fd + 3 <= P.WORD / 2
      modifies table, table.watchers, table.all`pevents, table.all`events, poll`used, poll.fds
      ensures Inv() && calls == if close then [] else CallOf(w, events, found)
    {
      hide Count, InUse, A.Map, A.Unique, Told, CallOf, CallOk, Alone, Invalidated, ClosedBy;
      ghost var es := poll.Entries();
      Replace(v, w, close, events);
      EntryAfter(es, poll.Entries(), i, v, close);
      var done;
      ghost var gone;
      calls, done, gone := Look(i, found, []);
    }

    /** v leaves the descriptor, and w has it. */
    method Replace(v: Watcher, w: Watcher, close: bool, events: Mask)
      requires Inv() && poll.iterating && v.fd == w.fd && v != w
      requires v in table.all && w in table.all && v.pevents != {} && events != {} && w.fd + 3 <= P.WORD / 2
      modifies table, table.watchers, table.all`pevents, table.all`events, poll`used, poll.fds
      ensures Inv() && table.all == old(table.all) && (table.watchers == old(table.watchers) || fresh(table.watchers))
      ensures w.pevents == events && Invalidated(old(poll.Entries()), poll.Entries(), if close then {v.fd} else {})
    {
      hide Count, InUse, A.Map, A.Unique, Told, Alone, Invalidated, Inv;
      ghost var es, gone := poll.Entries(), if close then {v.fd} else {};
      Leave(v, w, close);
      ghost var now := poll.Entries();
      var yes := Do(Start(w, events));
      assert ClosedBy([Start(w, events)]) == {};
      InvalidatedTwice(es, now, poll.Entries(), gone, {});
      assert gone + {} == gone;
    }

    /** v is stopped or closed, and its descriptor is free for w. */
    method Leave(v: Watcher, w: Watcher, close: bool)
      requires Inv() && poll.iterating && v.fd == w.fd && v in table.all && w in table.all && v != w && v.pevents != {}
      modifies table, table.watchers, table.all`pevents, table.all`events, poll`used, poll.fds
      ensures Inv() && table.all == old(table.all) && (table.watchers == old(table.watchers) || fresh(table.watchers))
      ensures Alone(w, AskedOf(table.all)) && w.pevents == {} && w.fd >= 0
      ensures Invalidated(old(poll.Entries()), poll.Entries(), if close then {v.fd} else {})
    {
      hide Count, InUse, A.Map, A.Unique, Told, Alone, Invalidated;
      InSlot(v);
      FreeIsAlone(v);
      NoneBut(v);
      AllFlags(v.pevents);
      var yes := Do(if close then Close(v) else Stop(v, ALL));
      NoneAtAll(w);
      assert ClosedBy([Close(v)]) == {v.fd} && ClosedBy([Stop(v, ALL)]) == {};
    }

    lemma EntryAfter(es: seq<A.Entry>, es': seq<A.Entry>, i: nat, v: Watcher, close: bool)
      requires Invalidated(es, es', if close then {v.fd} else {}) && i < |es| && es[i].fd == v.fd
      ensures |es'| == |es| && es'[i].fd == if close then -1 else v.fd
    {
    }

    lemma NoneBut(v: Watcher)
      requires Inv() && Alone(v, AskedOf(table.all))
      ensures forall u | u in table.all && u != v && u.fd == v.fd :: u.pevents == {}
    {
      assert forall u | u in table.all :: AskedOf(table.all)[u].pevents == u.pevents;
    }

    lemma NoneAtAll(w: Watcher)
      requires forall u | u in table.all && u.fd == w.fd :: u.pevents == {}
      ensures Alone(w, AskedOf(table.all))
    {
    }

    lemma NothingQueued()
      requires Inv() && table.nfds == 0
      ensures table.queue == [] && forall w | w in table.all :: w.pevents == {}
    {
      hide Count;
      forall w | w in table.all ensures w.pevents == {} {
        assert WatcherOk(w, AskedOf(table.all)[w], table.Slots(), table.queue);
        if w.pevents != {} {
          CountUpdate(table.Slots(), w.fd, Empty);
        }
      }
      if table.queue != [] {
        DequeuedOk(table.Slots(), table.queue, AskedOf(table.all));
        assert false;
      }
    }

    /** Line 270. */
    method Purge()
      requires Inv() && !poll.iterating
      modifies poll`used, poll.fds
      ensures Inv() && poll.Table() == old(poll.Table()) && forall i :: 0 <= i < poll.used ==> poll.Entries()[i].fd != -1
    {
      hide Count, InUse, A.Map, A.Unique, Told;
      A.MapWithout(poll.Entries(), -1);
      poll.Del(-1);
      assert AskedOf(table.all) == old(AskedOf(table.all));
      assert table.Inv();
    }
  }

  /** The callback of a watcher that asks for `asked`: the events found among these, and errors; none if there is nothing. */
  function CallOf(w: Watcher, asked: Mask, found: Ready): seq<Call> {
    var events := found.events * asked;
    if events != {} || found.err then [Call(w, Ready(events, found.err), asked)] else []
  }

  /** A call for what was found at the descriptor of its watcher. */
  predicate CallOk(c: Call, found: Ready) {
    c.asked != {} && CallOf(c.w, c.asked, found) == [c]
  }

  predicate Seen(es: seq<A.Entry>, i: nat, fd: int)
    requires i <= |es|
  {
    exists k :: 0 <= k < i && es[k].fd == fd
  }

  /** The events found are masked with those the watcher asks for; errors are told in any case. */
  lemma CallsAre(calls: seq<Call>, done: seq<seq<Op>>, found: int -> Ready)
    requires forall c | c in calls :: CallOk(c, found(c.w.fd))
    ensures forall c | c in calls ::
      && c.asked != {} && c.ready.events == found(c.w.fd).events * c.asked && c.ready.err == found(c.w.fd).err
      && (c.ready.events != {} || c.ready.err)
    ensures |done| == |calls| && (forall i, j :: 0 <= i < j < |calls| ==> calls[j].w.fd !in ClosedBy(done[i])) ==>
              forall i, j :: 0 <= i < j < |calls| ==> forall op | op in done[i] && op.Close? :: op.w.fd != calls[j].w.fd
  {
  }

  lemma AnswerIs(calls: seq<Call>, v: Watcher, asked: Mask, found: int -> Ready)
    requires Answered(calls, v, asked, found)
    ensures var events, err := found(v.fd).events * asked, found(v.fd).err;
            events != {} || err ==> Call(v, Ready(events, err), asked) in calls
  {
  }

  /** A watcher that is in use and that no callback starts, stops or closes. */
  predicate Waits(w: Watcher, asked: Mask, scripts: seq<seq<Op>>) {
    asked != {} && forall ops | ops in scripts :: Spared(ops, w)
  }

  lemma WaitsSpared(w: Watcher, asked: Mask, scripts: seq<seq<Op>>, ops: seq<Op>)
    requires Waits(w, asked, scripts) && (ops == [] || ops in scripts)
    ensures asked != {} && Spared(ops, w)
  {
  }

  /** What was found for the watcher has been told to it. */
  predicate Answered(calls: seq<Call>, w: Watcher, asked: Mask, found: int -> Ready) {
    forall c | c in CallOf(w, asked, found(w.fd)) :: c in calls
  }

  /** The watcher's descriptor is not gone, and if an entry of it was before i the watcher has been called. */
  predicate Served(calls: seq<Call>, es: seq<A.Entry>, i: nat, gone: set<int>, w: Watcher, asked: Mask, found: int -> Ready)
    requires i <= |es|
  {
    (asked != {} ==> w.fd !in gone) && (Seen(es, i, w.fd) ==> Answered(calls, w, asked, found))
  }

  lemma NoneServed(es: seq<A.Entry>, w: Watcher, asked: Mask, found: int -> Ready)
    ensures Served([], es, 0, {}, w, asked, found)
  {
  }

  lemma ServedStep(calls: seq<Call>, call: seq<Call>, es: seq<A.Entry>, i: nat, now: seq<A.Entry>, gone: set<int>, lost: set<int>,
                   w: Watcher, asked: Mask, found: int -> Ready)
    requires i < |es| && Served(calls, es, i, gone, w, asked, found) && asked != {} && w.fd !in lost
    requires Invalidated(es, now, gone) && (now[i].fd == w.fd ==> call == CallOf(w, asked, found(w.fd)))
    ensures Served(calls + call, es, i + 1, gone + lost, w, asked, found)
  {
    if Seen(es, i + 1, w.fd) && !Seen(es, i, w.fd) {
      assert es[i].fd == w.fd;
    }
  }

  lemma AllServed(calls: seq<Call>, es: seq<A.Entry>, gone: set<int>, w: Watcher, asked: Mask, found: int -> Ready)
    requires A.Unique(es) && w.fd in A.Map(es) && Served(calls, es, |es|, gone, w, asked, found)
    ensures Answered(calls, w, asked, found)
  {
    var k := A.MapHas(es, w.fd);
    assert Seen(es, |es|, w.fd);
  }

  /**
   * The callbacks so far were as they should, for different descriptors of the entries before i,
   * none that an earlier callback had closed.
   */
  predicate Before(calls: seq<Call>, done: seq<seq<Op>>, es: seq<A.Entry>, i: nat, gone: set<int>, found: int -> Ready)
    requires i <= |es|
  {
    && |done| == |calls| && (forall ops | ops in done :: ClosedBy(ops) <= gone)
    && (forall c | c in calls :: CallOk(c, found(c.w.fd)))
    && (forall j :: 0 <= j < |calls| ==> Seen(es, i, calls[j].w.fd))
    && (forall j, k :: 0 <= j < k < |calls| ==> calls[j].w.fd != calls[k].w.fd && calls[k].w.fd !in ClosedBy(done[j]))
  }

  lemma NoneBefore(es: seq<A.Entry>, found: int -> Ready)
    ensures Before([], [], es, 0, {}, found)
  {
  }

  lemma CallsDiffer(calls: seq<Call>, done: seq<seq<Op>>, es: seq<A.Entry>, i: nat, gone: set<int>, found: int -> Ready)
    requires i <= |es| && Before(calls, done, es, i, gone, found)
    ensures forall j, k :: 0 <= j < k < |calls| ==> calls[j].w.fd != calls[k].w.fd
    ensures |done| == |calls| && forall j, k :: 0 <= j < k < |calls| ==> calls[k].w.fd !in ClosedBy(done[j])
    ensures forall c | c in calls :: CallOk(c, found(c.w.fd))
  {
  }

  lemma SameLength(es: seq<A.Entry>, es': seq<A.Entry>, gone: set<int>)
    requires Invalidated(es, es', gone)
    ensures |es| == |es'|
  {
  }

  lemma OneMore(calls: seq<Call>, done: seq<seq<Op>>, es: seq<A.Entry>, now: seq<A.Entry>, i: nat, gone: set<int>,
                call: seq<Call>, made: seq<Op>, lost: set<int>, found: int -> Ready)
    requires Invalidated(es, now, gone) && A.Unique(es) && i < |es| && Before(calls, done, es, i, gone, found) && ClosedBy(made) <= lost
    requires call == [] || (|call| == 1 && CallOk(call[0], found(call[0].w.fd)) && now[i].fd == call[0].w.fd != -1)
    ensures Before(calls + call, done + (if call == [] then [] else [made]), es, i + 1, gone + lost, found)
  {
    hide CallOk, ClosedBy;
    forall fd | Seen(es, i, fd) ensures Seen(es, i + 1, fd) {
      var k :| 0 <= k < i && es[k].fd == fd;
      assert es[k].fd == fd;
    }
    if call != [] {
      assert es[i].fd == call[0].w.fd && call[0].w.fd !in gone;
      assert Seen(es, i + 1, call[0].w.fd);
    }
  }

  lemma NotInTable(slots: seq<Slot>, queue: seq<Watcher>, asked: map<Watcher, Asked>, fd: nat)
    requires InUse(slots, queue, asked) && fd < |slots| && slots[fd] == Empty
    ensures forall v | v in asked && v.fd == fd :: asked[v].events == {}
  {
    forall v | v in asked && v.fd == fd ensures asked[v].events == {} {
      assert WatcherOk(v, asked[v], slots, queue);
    }
  }

  /** The descriptors that the calls close. */
  function ClosedBy(ops: seq<Op>): set<int> {
    set op | op in ops && op.Close? :: op.w.fd
  }

  lemma ClosedByMore(ops: seq<Op>, op: Op)
    ensures ClosedBy(ops + [op]) == ClosedBy(ops) + ClosedBy([op])
  {
  }

  /** While the array is iterated over, entries of the descriptors are invalidated where they are. */
  predicate Invalidated(es: seq<A.Entry>, es': seq<A.Entry>, fds: set<int>) {
    |es| == |es'| && forall i :: 0 <= i < |es| ==> es'[i] == if es[i].fd in fds then A.NONE else es[i]
  }

  lemma NowNone(es: seq<A.Entry>, es': seq<A.Entry>, fd: int, i: nat)
    requires Invalidated(es, es', {fd}) && i < |es| && es[i].fd == fd
    ensures es'[i] == A.NONE
  {
  }

  lemma InvalidatedNone(es: seq<A.Entry>)
    ensures Invalidated(es, es, {})
  {
  }

  lemma InvalidatedTwice(a: seq<A.Entry>, b: seq<A.Entry>, c: seq<A.Entry>, fds: set<int>, more: set<int>)
    requires Invalidated(a, b, fds) && Invalidated(b, c, more)
    ensures Invalidated(a, c, fds + more)
  {
  }

  /** No call concerns the watcher. */
  predicate Spared(ops: seq<Op>, w: Watcher) {
    forall op | op in ops :: op.w != w
  }

  lemma AllFlags(m: Mask)
    ensures m <= ALL && m - ALL == {}
  {
    forall f | f in m ensures f in ALL {
      match f
      case PollIn =>
      case PollOut =>
      case PollRdHup =>
      case PollPri =>
    }
  }

  /** The map is told of one watcher what it asks for. */
  lemma NowTold(asked: map<Watcher, Asked>, polled: map<int, Mask>, n: nat, w: Watcher)
    requires Told(asked, polled, n) && w in asked && 0 <= w.fd < n
    requires forall v | v in asked && v != w && v.fd == w.fd :: asked[v].events == {}
    ensures Told(asked[w := Asked(asked[w].pevents, asked[w].pevents)], polled[w.fd := asked[w].pevents], n)
  {
  }

  /** A change of one watcher's mask keeps Told. */
  lemma StillTold(asked: map<Watcher, Asked>, asked': map<Watcher, Asked>, polled: map<int, Mask>, n: nat, n': nat, w: Watcher)
    requires Told(asked, polled, n) && n <= n' && w in asked && w in asked'
    requires asked' == asked[w := asked'[w]] && asked'[w].events in {{}, asked[w].events}
    ensures Told(asked', polled, n')
  {
  }

  /** And so does removing the descriptor of watchers not in use. */
  lemma ClosedTold(asked: map<Watcher, Asked>, polled: map<int, Mask>, n: nat, fd: int)
    requires Told(asked, polled, n) && forall v | v in asked && v.fd == fd :: asked[v].events == {}
    ensures Told(asked, polled - {fd}, n)
  {
  }
}
