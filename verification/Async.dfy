/**
 * The wake-up protocol of libuv/src/unix/async.c with the event queue of uv/Looper.cpp on top, as a
 * machine of atomic steps: any number of sending threads, and the loop's thread.
 */
module Async {
  import opened Wrappers
  import opened Sequences

  type Handle = nat
  type Event = int

  /** _async_event_handle */
  const EVENTS: Handle := 0

  /** What the loop reads at a time, the size of buf at line 78. */
  const CHUNK := 1024

  /** Where a sending thread is in uv_async_send; `pushing` if it came from PushEvent and holds the lock. */
  datatype Sender =
    | Idle
    | Checking(h: Handle, pushing: bool)
    | Swapping(h: Handle, pushing: bool)
    | Writing(h: Handle, pushing: bool)

  /** Where the loop's thread is: outside uv__async_io, or in it; Handling is DoEvent with the lock. */
  datatype LoopAt = Polling | Reading | Moving | Draining | Calling(h: Handle) | Handling

  datatype Owner = Free | Pusher(j: nat) | TheLoop

  /**
   * `bytes` is what the descriptor holds, at most `capacity`; an eventfd is read empty at once.
   * `handles` is loop->async_handles and `moved` the local queue of uv__async_io. `swaps` are the handles
   * that were made pending, `calls` those whose callbacks have run, both since the handle was opened.
   */
  datatype State = State(senders: seq<Sender>, at: LoopAt, pending: set<Handle>, bytes: nat, capacity: nat, eventfd: bool,
                         handles: seq<Handle>, moved: seq<Handle>, lock: Owner, queue: seq<Event>,
                         pushed: seq<Event>, handled: seq<Event>, swaps: multiset<Handle>, calls: multiset<Handle>)

  datatype Action =
    | Send(j: nat, h: Handle)
    | Push(j: nat, e: Event)
    | Open(h: Handle)
    | Close(h: Handle)
    | Check(j: nat)
    | Swap(j: nat)
    | Write(j: nat)
    | Wake
    | Read
    | Move
    | Visit
    | Leave
    | Return
    | LockQueue
    | HandleEvent
    | UnlockQueue

  /** Handles other than EVENTS, which InitLooper opened, are opened, and all are closed, on the loop's thread, outside uv__async_io or in a callback. */
  predicate MayCallUser(s: State) {
    s.at == Polling || (s.at.Calling? && s.at.h != EVENTS)
  }

  predicate Enabled(s: State, a: Action) {
    match a
    case Send(j, h) => j < |s.senders| && s.senders[j] == Idle
    case Push(j, e) => j < |s.senders| && s.senders[j] == Idle && s.lock == Free
    case Open(h) => MayCallUser(s) && h != EVENTS && h !in s.handles && h !in s.moved
    case Close(h) => MayCallUser(s) && (h in s.handles || h in s.moved)
    case Check(j) => j < |s.senders| && s.senders[j].Checking?
    case Swap(j) => j < |s.senders| && s.senders[j].Swapping?
    case Write(j) => j < |s.senders| && s.senders[j].Writing?
    case Wake => s.at == Polling && s.bytes > 0
    case Read => s.at == Reading
    case Move => s.at == Moving
    case Visit => s.at == Draining && s.moved != []
    case Leave => s.at == Draining && s.moved == []
    case Return => s.at.Calling? && s.at.h != EVENTS
    case LockQueue => s.at == Calling(EVENTS) && s.lock == Free
    case HandleEvent => s.at == Handling && s.queue != []
    case UnlockQueue => s.at == Handling && s.queue == []
  }

  /** Sender j leaves uv_async_send, and PushEvent if it came from there. */
  function Done(s: State, j: nat): State
    requires j < |s.senders| && s.senders[j] != Idle
  {
    s.(senders := s.senders[j := Idle], lock := if s.senders[j].pushing then Free else s.lock)
  }

  function Apply(s: State, a: Action): State
    requires Enabled(s, a)
  {
    match a
    case Send(j, h) => s.(senders := s.senders[j := Checking(h, false)])
    case Push(j, e) =>
      s.(senders := s.senders[j := Checking(EVENTS, true)], lock := Pusher(j), queue := s.queue + [e], pushed := s.pushed + [e])
    case Open(h) =>
      s.(handles := s.handles + [h], pending := s.pending - {h},
         swaps := s.swaps[h := if s.at == Calling(h) then 1 else 0], calls := s.calls[h := 0])
    case Close(h) => s.(handles := Without(s.handles, h), moved := Without(s.moved, h))
    case Check(j) =>
      var t := s.senders[j];
      if t.h in s.pending then Done(s, j) else s.(senders := s.senders[j := Swapping(t.h, t.pushing)])
    case Swap(j) =>
      var t := s.senders[j];
      if t.h in s.pending then Done(s, j)
      else s.(senders := s.senders[j := Writing(t.h, t.pushing)], pending := s.pending + {t.h}, swaps := s.swaps + multiset{t.h})
    case Write(j) => Done(s.(bytes := if s.bytes < s.capacity then s.bytes + 1 else s.bytes), j)
    case Wake => s.(at := Reading)
    case Read =>
      if s.eventfd then s.(bytes := 0, at := Moving)
      else if s.bytes >= CHUNK then s.(bytes := s.bytes - CHUNK)
      else s.(bytes := 0, at := Moving)
    case Move => s.(moved := s.handles, handles := [], at := Draining)
    case Visit =>
      var h := s.moved[0];
      s.(moved := s.moved[1..], handles := s.handles + [h], pending := s.pending - {h},
         at := if h in s.pending then Calling(h) else Draining)
    case Leave => s.(at := Polling)
    case Return => s.(at := Draining, calls := s.calls + multiset{s.at.h})
    case LockQueue => s.(lock := TheLoop, at := Handling, calls := s.calls + multiset{EVENTS})
    case HandleEvent => s.(handled := s.handled + [s.queue[0]], queue := s.queue[1..])
    case UnlockQueue => s.(lock := Free, at := Draining)
  }

  function Init(nsenders: nat, capacity: nat, eventfd: bool, handles: seq<Handle>): State {
    State(seq(nsenders, i => Idle), Polling, {}, 0, capacity, eventfd, handles, [], Free, [], [], [], multiset{}, multiset{})
  }

  function Run(s: State, actions: seq<Action>): Option<State>
    decreases |actions|
  {
    if actions == [] then Some(s)
    else if Enabled(s, actions[0]) then Run(Apply(s, actions[0]), actions[1..])
    else None
  }

  // ---------- The invariant ----------

  predicate IsOpen(s: State, h: Handle) {
    h in s.handles || h in s.moved
  }

  /** Somebody is about to write to the descriptor. */
  predicate WriteComing(ws: seq<Sender>) {
    exists j :: 0 <= j < |ws| && ws[j].Writing?
  }

  /** The loop is going to look at the handle. */
  predicate Coming(s: State, h: Handle) {
    s.bytes > 0 || WriteComing(s.senders) || s.at in {Reading, Moving} || h in s.moved
  }

  predicate LockOk(s: State) {
    && (forall j :: 0 <= j < |s.senders| && s.senders[j] != Idle && s.senders[j].pushing ==> s.lock == Pusher(j) && s.senders[j].h == EVENTS)
    && (s.lock == TheLoop <==> s.at == Handling)
    && (s.lock.Pusher? ==> s.lock.j < |s.senders| && s.senders[s.lock.j] != Idle && s.senders[s.lock.j].pushing)
  }

  /** Whether the thread that holds the lock has yet to see that the handle is pending. */
  predicate Announcing(s: State) {
    s.lock.Pusher? && s.lock.j < |s.senders| && (s.senders[s.lock.j].Checking? || s.senders[s.lock.j].Swapping?)
  }

  /** Every handle is in one list, once; the local list is empty outside the drain. */
  predicate ListsOk(s: State) {
    NoDuplicates(s.handles + s.moved) && (s.at in {Polling, Reading, Moving} ==> s.moved == [])
  }

  predicate PendingOk(s: State) {
    s.capacity > 0 && forall h :: h in s.pending && IsOpen(s, h) ==> Coming(s, h)
  }

  predicate QueueOk(s: State) {
    && s.pushed == s.handled + s.queue
    && (s.queue != [] && IsOpen(s, EVENTS) ==> EVENTS in s.pending || Announcing(s) || s.at in {Calling(EVENTS), Handling})
  }

  /** Each time an open handle was made pending its callback has run, or runs, but for the last time if it is pending. */
  predicate CallsOk(s: State) {
    forall h | h in s.handles + s.moved :: s.swaps[h] == s.calls[h] + (if h in s.pending then 1 else 0) + (if s.at == Calling(h) then 1 else 0)
  }

  predicate Inv(s: State) {
    LockOk(s) && ListsOk(s) && PendingOk(s) && QueueOk(s) && CallsOk(s)
  }

  lemma LockKeptBySender(s: State, a: Action, j: nat)
    requires LockOk(s) && Enabled(s, a) && a in {Check(j), Swap(j), Write(j)}
    ensures LockOk(Apply(s, a))
  {
    var t := Apply(s, a);
    if s.lock == Pusher(j) {
      assert s.senders[j].pushing;
    }
    forall i | 0 <= i < |t.senders| && t.senders[i] != Idle && t.senders[i].pushing
      ensures t.lock == Pusher(i) && t.senders[i].h == EVENTS {
      assert s.senders[i].pushing;
    }
  }

  lemma {:induction false} LockKept(s: State, a: Action)
    requires LockOk(s) && Enabled(s, a)
    ensures LockOk(Apply(s, a))
  {
    match a
    case Check(j) => LockKeptBySender(s, a, j);
    case Swap(j) => LockKeptBySender(s, a, j);
    case Write(j) => LockKeptBySender(s, a, j);
    case _ =>
  }

  lemma CloseLists(s: State, h: Handle)
    requires ListsOk(s)
    ensures var handles, moved := Without(s.handles, h), Without(s.moved, h);
      && NoDuplicates(handles + moved) && (s.moved == [] ==> moved == [])
      && forall g :: g in handles || g in moved <==> (g in s.handles || g in s.moved) && g != h
  {
    hide NoDuplicates;
    Parts(s.handles, s.moved);
    WithoutIs(s.handles, h);
    WithoutIs(s.moved, h);
    Joined(Without(s.handles, h), Without(s.moved, h));
  }

  lemma {:induction false} ListsKept(s: State, a: Action)
    requires ListsOk(s) && Enabled(s, a)
    ensures ListsOk(Apply(s, a))
    ensures forall h :: IsOpen(Apply(s, a), h) <==> (IsOpen(s, h) && a != Close(h)) || a == Open(h)
  {
    hide NoDuplicates, Without;
    Parts(s.handles, s.moved);
    match a
    case Open(h) =>
      Appended(s.handles, h);
      Joined(s.handles + [h], s.moved);
    case Close(h) => CloseLists(s, h);
    case Move =>
      assert [] + s.handles == s.handles;
    case Visit =>
      assert s.handles + [s.moved[0]] + s.moved[1..] == s.handles + s.moved;
    case _ =>
  }

  lemma WriterStays(ws: seq<Sender>, j: nat, w: Sender)
    requires j < |ws| && !ws[j].Writing?
    ensures WriteComing(ws) || w.Writing? ==> WriteComing(ws[j := w])
  {
    if i :| 0 <= i < |ws| && ws[i].Writing? {
      assert ws[j := w][i].Writing?;
    }
    assert ws[j := w][j] == w;
  }

  lemma PendingClose(s: State, h: Handle)
    requires ListsOk(s) && PendingOk(s) && Enabled(s, Close(h))
    ensures PendingOk(Apply(s, Close(h)))
  {
    hide NoDuplicates, Without, WriteComing;
    Parts(s.handles, s.moved);
    WithoutIs(s.handles, h);
    WithoutIs(s.moved, h);
  }

  lemma PendingBySender(s: State, a: Action)
    requires PendingOk(s) && Enabled(s, a) && (a.Send? || a.Push? || a.Check? || a.Swap?)
    ensures PendingOk(Apply(s, a))
  {
    hide WriteComing;
    WriterStays(s.senders, a.j, Apply(s, a).senders[a.j]);
  }

  lemma {:induction false} PendingKept(s: State, a: Action)
    requires Inv(s) && Enabled(s, a)
    ensures PendingOk(Apply(s, a))
  {
    hide NoDuplicates, Without, QueueOk, LockOk, CallsOk, WriteComing;
    match a
    case Close(h) => PendingClose(s, h);
    case Send(_, _) => PendingBySender(s, a);
    case Push(_, _) => PendingBySender(s, a);
    case Check(_) => PendingBySender(s, a);
    case Swap(_) => PendingBySender(s, a);
    case _ =>
  }

  lemma QueueKeptBySender(s: State, a: Action, j: nat)
    requires Inv(s) && Enabled(s, a) && a in {Check(j), Swap(j), Write(j)}
    ensures QueueOk(Apply(s, a))
  {
    hide NoDuplicates, PendingOk, CallsOk;
    var t := Apply(s, a);
    assert IsOpen(t, EVENTS) == IsOpen(s, EVENTS);
    if Announcing(s) && s.lock.j != j {
      assert !s.senders[j].pushing;
      assert Announcing(t);
    }
  }

  lemma {:induction false} QueueKept(s: State, a: Action)
    requires Inv(s) && Enabled(s, a)
    ensures QueueOk(Apply(s, a))
  {
    hide NoDuplicates, Without, PendingOk, CallsOk;
    match a
    case Push(j, e) => assert s.handled + (s.queue + [e]) == s.handled + s.queue + [e];
    case HandleEvent => assert s.handled + [s.queue[0]] + s.queue[1..] == s.handled + s.queue;
    case Check(j) => QueueKeptBySender(s, a, j);
    case Swap(j) => QueueKeptBySender(s, a, j);
    case Write(j) => QueueKeptBySender(s, a, j);
    case Close(h) => ListsKept(s, a);
    case _ =>
  }

  /** Nothing that is counted changes. */
  lemma SameCalls(s: State, t: State)
    requires CallsOk(s) && t.swaps == s.swaps && t.calls == s.calls && t.pending == s.pending
    requires t.at == s.at || (!t.at.Calling? && !s.at.Calling?)
    requires forall h | IsOpen(t, h) :: IsOpen(s, h)
    ensures CallsOk(t)
  {
    forall h | h in t.handles + t.moved
      ensures t.swaps[h] == t.calls[h] + (if h in t.pending then 1 else 0) + (if t.at == Calling(h) then 1 else 0)
    {
      assert IsOpen(t, h);
      assert h in s.handles + s.moved;
    }
  }

  lemma SwapCalls(s: State, j: nat)
    requires CallsOk(s) && Enabled(s, Swap(j))
    ensures CallsOk(Apply(s, Swap(j)))
  {
  }

  lemma VisitCalls(s: State)
    requires CallsOk(s) && Enabled(s, Visit)
    ensures CallsOk(Apply(s, Visit))
  {
  }

  lemma OpenCalls(s: State, h: Handle)
    requires CallsOk(s) && Enabled(s, Open(h))
    ensures CallsOk(Apply(s, Open(h)))
  {
  }

  lemma CalledCalls(s: State, a: Action)
    requires CallsOk(s) && Enabled(s, a) && a in {Return, LockQueue}
    ensures CallsOk(Apply(s, a))
  {
  }

  lemma {:induction false} CallsKept(s: State, a: Action)
    requires ListsOk(s) && CallsOk(s) && Enabled(s, a)
    ensures CallsOk(Apply(s, a))
  {
    hide NoDuplicates, Without, ListsOk, CallsOk;
    match a
    case Swap(j) => SwapCalls(s, j);
    case Visit => VisitCalls(s);
    case Open(h) => OpenCalls(s, h);
    case Return => CalledCalls(s, a);
    case LockQueue => CalledCalls(s, a);
    case Close(h) =>
      ListsKept(s, a);
      SameCalls(s, Apply(s, a));
    case _ => SameCalls(s, Apply(s, a));
  }

  // ---------- Every run ----------

  lemma {:induction false} InvOfRun(s: State, actions: seq<Action>)
    requires Inv(s) && Run(s, actions).Some?
    ensures Inv(Run(s, actions).value)
    decreases |actions|
  {
    hide Inv, Apply;
    if actions != [] {
      InvKept(s, actions[0]);
      InvOfRun(Apply(s, actions[0]), actions[1..]);
    }
  }

  lemma InvKept(s: State, a: Action)
    requires Inv(s) && Enabled(s, a)
    ensures Inv(Apply(s, a))
  {
    hide Apply, LockOk, ListsOk, PendingOk, QueueOk, CallsOk;
    CallsKept(s, a);
    LockKept(s, a);
    ListsKept(s, a);
    PendingKept(s, a);
    QueueKept(s, a);
  }

  lemma InvAtStart(nsenders: nat, capacity: nat, eventfd: bool, handles: seq<Handle>)
    requires capacity > 0 && NoDuplicates(handles)
    ensures Inv(Init(nsenders, capacity, eventfd, handles))
  {
    assert handles + [] == handles;
  }

  /**
   * No event is lost. Whenever events are queued, and neither a PushEvent nor the loop on its way to
   * or in DoEvent is under way, the handle is pending, and the descriptor is readable, about to be
   * written, just being read, or the drain under way has yet to visit the handle.
   */
  lemma NoEventIsLost(nsenders: nat, capacity: nat, eventfd: bool, handles: seq<Handle>, actions: seq<Action>)
    requires capacity > 0 && NoDuplicates(handles) && Run(Init(nsenders, capacity, eventfd, handles), actions).Some?
    ensures var s := Run(Init(nsenders, capacity, eventfd, handles), actions).value;
            s.queue != [] && s.lock == Free && s.at != Calling(EVENTS) && IsOpen(s, EVENTS)
            ==> EVENTS in s.pending && (s.bytes > 0 || WriteComing(s.senders) || s.at in {Reading, Moving} || EVENTS in s.moved)
  {
    InvAtStart(nsenders, capacity, eventfd, handles);
    InvOfRun(Init(nsenders, capacity, eventfd, handles), actions);
  }

  /** Events are handled in the order they were pushed, each once; the rest are in the queue. */
  lemma EventsAreHandledInOrder(nsenders: nat, capacity: nat, eventfd: bool, handles: seq<Handle>, actions: seq<Action>)
    requires capacity > 0 && NoDuplicates(handles) && Run(Init(nsenders, capacity, eventfd, handles), actions).Some?
    ensures var s := Run(Init(nsenders, capacity, eventfd, handles), actions).value;
            s.pushed == Pushes(actions) == s.handled + s.queue
  {
    InvAtStart(nsenders, capacity, eventfd, handles);
    InvOfRun(Init(nsenders, capacity, eventfd, handles), actions);
    PushedOfRun(Init(nsenders, capacity, eventfd, handles), actions);
  }

  function Pushes(actions: seq<Action>): seq<Event> {
    if actions == [] then [] else (if actions[0].Push? then [actions[0].e] else []) + Pushes(actions[1..])
  }

  lemma PushedStep(s: State, a: Action)
    requires Enabled(s, a)
    ensures Apply(s, a).pushed == s.pushed + if a.Push? then [a.e] else []
  {
  }

  lemma {:induction false} PushedOfRun(s: State, actions: seq<Action>)
    requires Run(s, actions).Some?
    ensures Run(s, actions).value.pushed == s.pushed + Pushes(actions)
    decreases |actions|
  {
    hide Apply, Enabled;
    if actions != [] {
      PushedStep(s, actions[0]);
      PushedOfRun(Apply(s, actions[0]), actions[1..]);
    }
  }

  // ---------- The loop gets to rest, and then nothing is left ----------

  /** The steps that finish what was begun: all but those that start a send, a push, or a change of handles. */
  predicate Finishing(a: Action) {
    !a.Send? && !a.Push? && !a.Open? && !a.Close?
  }

  function SenderEffort(ws: seq<Sender>): nat {
    if ws == [] then 0
    else SenderEffort(ws[..|ws| - 1]) + match ws[|ws| - 1] case Idle => 0 case Checking(_, _) => 3 case Swapping(_, _) => 2 case Writing(_, _) => 1
  }

  lemma {:induction false} SenderEffortUpdate(ws: seq<Sender>, j: nat, w: Sender)
    requires j < |ws|
    ensures SenderEffort(ws[j := w]) - SenderEffort([w]) == SenderEffort(ws) - SenderEffort([ws[j]])
  {
    var n := |ws| - 1;
    assert [w][..0] == [] && [ws[j]][..0] == [];
    if j < n {
      SenderEffortUpdate(ws[..n], j, w);
      assert ws[j := w][..n] == ws[..n][j := w];
    } else {
      assert ws[j := w][..n] == ws[..n];
    }
  }

  /** How many stations the loop has ahead before it polls an empty descriptor. */
  function Stations(s: State): nat {
    match s.at
    case Polling => if s.bytes > 0 then 4 else 0
    case Reading => 3
    case Moving => if s.bytes > 0 then 6 else 2
    case _ => if s.bytes > 0 then 5 else 1
  }

  /** What is left to do at this station. */
  function Inside(s: State): nat {
    match s.at
    case Reading => s.bytes
    case Draining => 4 * |s.moved| + |s.queue|
    case Calling(_) => 4 * |s.moved| + 3 + |s.queue|
    case Handling => 4 * |s.moved| + 2 + |s.queue|
    case _ => 0
  }

  predicate Nearer(t: State, s: State) {
    || SenderEffort(t.senders) < SenderEffort(s.senders)
    || (t.senders == s.senders && (Stations(t) < Stations(s) || (Stations(t) == Stations(s) && Inside(t) < Inside(s))))
  }

  /** Each finishing step brings the machine nearer to rest. */
  lemma FinishingEnds(s: State, a: Action)
    requires Enabled(s, a) && Finishing(a)
    ensures Nearer(Apply(s, a), s)
  {
    if a.Check? || a.Swap? || a.Write? {
      SenderStep(s, a);
    } else {
      LoopStep(s, a);
    }
  }

  lemma SenderStep(s: State, a: Action)
    requires Enabled(s, a) && (a.Check? || a.Swap? || a.Write?)
    ensures SenderEffort(Apply(s, a).senders) < SenderEffort(s.senders)
  {
    var w := Apply(s, a).senders[a.j];
    assert Apply(s, a).senders == s.senders[a.j := w];
    SenderEffortUpdate(s.senders, a.j, w);
  }

  lemma LoopStep(s: State, a: Action)
    requires Enabled(s, a) && Finishing(a) && !a.Check? && !a.Swap? && !a.Write?
    ensures var t := Apply(s, a);
      t.senders == s.senders && (Stations(t) < Stations(s) || (Stations(t) == Stations(s) && Inside(t) < Inside(s)))
  {
    hide Without, SenderEffort;
  }

  /** As long as a sender is busy or the loop has a reason to run, some finishing step can be made. */
  lemma SomeStep(s: State) returns (a: Action)
    requires Inv(s) && ((exists j :: 0 <= j < |s.senders| && s.senders[j] != Idle) || s.at != Polling || s.bytes > 0)
    ensures Finishing(a) && Enabled(s, a)
  {
    hide ListsOk, PendingOk, QueueOk, CallsOk;
    if j: nat :| j < |s.senders| && s.senders[j] != Idle {
      match s.senders[j]
      case Checking(_, _) => a := Check(j);
      case Swapping(_, _) => a := Swap(j);
      case Writing(_, _) => a := Write(j);
    } else {
      match s.at
      case Polling => a := Wake;
      case Reading => a := Read;
      case Moving => a := Move;
      case Draining => a := if s.moved == [] then Leave else Visit;
      case Calling(h) => a := if h == EVENTS then LockQueue else Return;
      case Handling => a := if s.queue == [] then UnlockQueue else HandleEvent;
    }
  }

  /** At rest every event pushed has been handled, no open handle is pending, and each was called as often as it was made pending. */
  lemma RestIsDone(s: State)
    requires Inv(s) && forall a :: Finishing(a) ==> !Enabled(s, a)
    ensures IsOpen(s, EVENTS) ==> s.handled == s.pushed
    ensures forall h :: h in s.pending ==> !IsOpen(s, h)
    ensures forall h | IsOpen(s, h) :: s.calls[h] == s.swaps[h]
  {
    hide Enabled, Finishing, NoDuplicates;
    if (exists j :: 0 <= j < |s.senders| && s.senders[j] != Idle) || s.at != Polling || s.bytes > 0 {
      var a := SomeStep(s);
      assert false;
    }
    assert s.handled + [] == s.handled;
  }

  // ---------- Every send is followed by a callback ----------

  /** The callbacks of a handle that have begun. */
  function Begun(s: State, h: Handle): nat {
    s.calls[h] + if s.at == Calling(h) then 1 else 0
  }

  /** Sender j has yet to find the handle pending, or to make it so. */
  predicate Sending(s: State, j: nat, h: Handle) {
    j < |s.senders| && (s.senders[j].Checking? || s.senders[j].Swapping?) && s.senders[j].h == h
  }

  /** A sender leaves the handle pending, if it was not before. */
  lemma LeftPending(s: State, a: Action, j: nat, h: Handle)
    requires Enabled(s, a) && Sending(s, j, h) && a != Open(h) && (h in s.pending ==> a != Visit)
    ensures Sending(Apply(s, a), j, h) || h in Apply(s, a).pending
  {
    hide Without;
  }

  /** A callback that has begun stays so, and a handle does not stop being pending but by one. */
  lemma BegunOrPending(s: State, a: Action, h: Handle)
    requires Enabled(s, a) && a != Open(h)
    ensures Begun(Apply(s, a), h) >= Begun(s, h)
    ensures h in s.pending ==> h in Apply(s, a).pending || Begun(Apply(s, a), h) > Begun(s, h)
  {
    hide Without;
  }

  lemma {:induction false} AnsweredOfRun(s: State, actions: seq<Action>, j: nat, h: Handle, before: nat)
    requires Run(s, actions).Some? && Open(h) !in actions
    requires Begun(s, h) > before || (Begun(s, h) >= before && (h in s.pending || Sending(s, j, h)))
    ensures var t := Run(s, actions).value; Begun(t, h) > before || h in t.pending || Sending(t, j, h)
    decreases |actions|
  {
    hide Apply, Enabled, Begun, Sending;
    if actions != [] {
      var a, t := actions[0], Apply(s, actions[0]);
      assert a in actions;
      BegunOrPending(s, a, h);
      if Begun(t, h) <= before && h !in s.pending {
        LeftPending(s, a, j, h);
      }
      AnsweredOfRun(t, actions[1..], j, h, before);
    }
  }

  /**
   * Every uv_async_send on an open handle is followed by a callback: when everything has come to rest after it,
   * and the handle was not closed, a callback of the handle has begun since the send did.
   */
  lemma SendIsAnswered(s: State, j: nat, h: Handle, actions: seq<Action>)
    requires Inv(s) && Run(s, [Send(j, h)] + actions).Some? && Open(h) !in actions
    requires var t := Run(s, [Send(j, h)] + actions).value; IsOpen(t, h) && forall a :: Finishing(a) ==> !Enabled(t, a)
    ensures var t := Run(s, [Send(j, h)] + actions).value; t.calls[h] > Begun(s, h) == s.calls[h] + if s.at == Calling(h) then 1 else 0
  {
    hide Inv, Apply, Enabled, Finishing, Sending;
    var all := [Send(j, h)] + actions;
    assert all[1..] == actions;
    var first := Apply(s, Send(j, h));
    JustSent(s, j, h);
    var t := Run(s, all).value;
    InvOfRun(s, all);
    AnsweredOfRun(first, actions, j, h, Begun(s, h));
    AtRest(t, j, h);
  }

  lemma JustSent(s: State, j: nat, h: Handle)
    requires Enabled(s, Send(j, h))
    ensures var t := Apply(s, Send(j, h)); Sending(t, j, h) && Begun(t, h) == Begun(s, h)
  {
  }

  lemma AtRest(t: State, j: nat, h: Handle)
    requires Inv(t) && IsOpen(t, h) && forall a :: Finishing(a) ==> !Enabled(t, a)
    ensures h !in t.pending && !Sending(t, j, h) && Begun(t, h) == t.calls[h]
  {
    hide Enabled, Finishing, LockOk, ListsOk, PendingOk, QueueOk, CallsOk;
    RestIsDone(t);
    if Sending(t, j, h) || t.at.Calling? {
      var a := SomeStep(t);
      assert false;
    }
  }
}
