/**
 * Signal watchers of libuv/src/unix/signal.c: which handles a signal is delivered to, and the
 * caught/dispatched counters that decide when a closing handle may be released.
 */
module Signals {
  import opened SignalKey
  import opened RbShape
  import opened RbLinks
  import opened RbInsert
  import RbRemove
  import RbSearch

  /** The number of values of an unsigned int: the two counters of a handle wrap around at it. */
  const WRAP: nat := 0x1_0000_0000

  /** More messages than this never fit into a signal pipe together with the reader's buffer. */
  const ROOM: nat := 0x1_0000

  /** The counters and flags of a handle; its signum, UV_SIGNAL_ONE_SHOT flag and loop are in its tree key. */
  datatype Handle = Handle(caught: nat, dispatched: nat, closing: bool, closePending: nat)

  datatype Msg = Msg(handle: Node, signum: int)

  /** What sigaction was last asked for, or what SA_RESETHAND left. */
  datatype Disposition = Default | Once | Always

  ghost function CountOf(p: seq<Msg>, n: Node): nat {
    if p == [] then 0 else CountOf(p[..|p| - 1], n) + if p[|p| - 1].handle == n then 1 else 0
  }

  /** The nodes registered for a signal, in the order of the tree. */
  ghost function Registered(s: seq<Item>, signum: int): seq<Node> {
    if s == [] then []
    else Registered(s[..|s| - 1], signum) + if s[|s| - 1].key.signum == signum then [s[|s| - 1].node] else []
  }

  /**
   * The pipe of a loop after a signal: one more message, in tree order, for each handle of that loop
   * registered for the signal whose write succeeds.
   */
  ghost function Sent(s: seq<Item>, signum: int, written: Node -> bool, loop: nat, pipe: seq<Msg>): seq<Msg> {
    if s == [] then pipe
    else
      var p, x := Sent(s[..|s| - 1], signum, written, loop, pipe), s[|s| - 1];
      if x.key.signum == signum && x.key.loop == loop && written(x.node) && |p| < ROOM then p + [Msg(x.node, signum)] else p
  }

  lemma SentStep(s: seq<Item>, i: nat, signum: int, written: Node -> bool, loop: nat, pipe: seq<Msg>)
    requires i < |s|
    ensures var p := Sent(s[..i], signum, written, loop, pipe);
            Sent(s[..i + 1], signum, written, loop, pipe) ==
            if s[i].key.signum == signum && s[i].key.loop == loop && written(s[i].node) && |p| < ROOM
            then p + [Msg(s[i].node, signum)] else p
  {
    assert s[..i + 1][..i] == s[..i];
  }

  lemma {:induction false} SentNone(s: seq<Item>, from: nat, to: nat, signum: int, written: Node -> bool, loop: nat, pipe: seq<Msg>)
    requires from <= to <= |s| && forall j :: from <= j < to ==> s[j].key.signum != signum
    ensures Sent(s[..to], signum, written, loop, pipe) == Sent(s[..from], signum, written, loop, pipe)
  {
    if from < to {
      SentStep(s, to - 1, signum, written, loop, pipe);
      SentNone(s, from, to - 1, signum, written, loop, pipe);
    }
  }

  lemma {:induction false} SentExtends(s: seq<Item>, signum: int, written: Node -> bool, loop: nat, pipe: seq<Msg>)
    ensures pipe <= Sent(s, signum, written, loop, pipe)
  {
    if s != [] {
      SentExtends(s[..|s| - 1], signum, written, loop, pipe);
    }
  }

  lemma {:induction false} RegisteredPrefix(s: seq<Item>, signum: int, from: nat, i: nat)
    requires from <= i <= |s|
    requires forall j :: 0 <= j < from ==> s[j].key.signum != signum
    requires forall j :: from <= j < i ==> s[j].key.signum == signum
    ensures |Registered(s[..i], signum)| == i - from
    ensures forall j :: from <= j < i ==> Registered(s[..i], signum)[j - from] == s[j].node
  {
    if i > 0 {
      var p := s[..i];
      assert p[..i - 1] == s[..i - 1];
      RegisteredPrefix(s, signum, if from == i then from - 1 else from, i - 1);
    }
  }

  lemma {:induction false} RegisteredRest(s: seq<Item>, signum: int, to: nat)
    requires to <= |s| && forall j :: to <= j < |s| ==> s[j].key.signum != signum
    ensures Registered(s, signum) == Registered(s[..to], signum)
  {
    if to < |s| {
      var p := s[..|s| - 1];
      assert p[..to] == s[..to];
      RegisteredRest(p, signum, to);
    } else {
      assert s[..to] == s;
    }
  }

  /** The key uv__signal_first_handle searches for: no loop pointer is NULL, so no handle compares equal. */
  function Lookup(signum: int, address: nat): Key {
    Key(signum, false, 0, address)
  }

  /** The lower bound of the lookup key is where the handles of that signal begin. */
  lemma LookupBound(s: seq<Item>, signum: int, address: nat, at: nat)
    requires Sorted(s) && RbSearch.IsLowerBound(s, Lookup(signum, address), at)
    requires forall j :: 0 <= j < |s| ==> s[j].key.loop > 0
    ensures forall j :: 0 <= j < at ==> s[j].key.signum < signum
    ensures forall j :: at <= j < |s| ==> s[j].key.signum >= signum
  {
    forall j | 0 <= j < at ensures s[j].key.signum < signum {
      assert Less(s[j].key, Lookup(signum, address));
    }
    forall j | at <= j < |s| ensures s[j].key.signum >= signum {
      assert !Less(s[j].key, Lookup(signum, address));
    }
  }

  lemma {:induction false} CountZero(p: seq<Msg>, n: Node)
    requires forall i :: 0 <= i < |p| ==> p[i].handle != n
    ensures CountOf(p, n) == 0
  {
    if p != [] {
      CountZero(p[..|p| - 1], n);
    }
  }

  lemma {:induction false} CountPositive(p: seq<Msg>, n: Node, i: nat)
    requires i < |p| && p[i].handle == n
    ensures CountOf(p, n) > 0
  {
    if i < |p| - 1 {
      CountPositive(p[..|p| - 1], n, i);
    }
  }

  lemma {:induction false} CountBound(p: seq<Msg>, n: Node)
    ensures CountOf(p, n) <= |p|
  {
    if p != [] {
      CountBound(p[..|p| - 1], n);
    }
  }

  lemma CountPush(p: seq<Msg>, m: Msg, n: Node)
    ensures CountOf(p + [m], n) == CountOf(p, n) + if m.handle == n then 1 else 0
  {
    assert (p + [m])[..|p|] == p;
  }

  lemma {:induction false} CountPop(p: seq<Msg>, n: Node)
    requires p != []
    ensures CountOf(p, n) == CountOf(p[1..], n) + if p[0].handle == n then 1 else 0
  {
    if |p| > 1 {
      var front := p[..|p| - 1];
      CountPop(front, n);
      assert p[1..][..|p| - 2] == front[1..];
    } else {
      assert p[..0] == [] && p[1..] == [];
    }
  }

  /** The difference of the two counters, as unsigned numbers. */
  function Outstanding(caught: nat, dispatched: nat): nat {
    if caught >= dispatched then caught - dispatched
    else if caught + WRAP >= dispatched then caught + WRAP - dispatched else 0
  }

  function Increment(x: nat): nat {
    if x + 1 == WRAP then 0 else x + 1
  }

  /** What is left in a pipe after a read, and what has been read. */
  function Rest(pipe: seq<Msg>, full: bool): seq<Msg>
    requires full <==> |pipe| >= 32
  {
    pipe[if full then 32 else |pipe|..]
  }

  function Read(pipe: seq<Msg>, full: bool): seq<Msg>
    requires full <==> |pipe| >= 32
  {
    pipe[..if full then 32 else |pipe|]
  }

  lemma ReadMore(pipe: seq<Msg>, taken: seq<Msg>, now: seq<Msg>, full: bool, next: seq<Msg>)
    requires pipe <= taken + now && (full <==> |now| >= 32) && Rest(now, full) <= next
    ensures pipe <= taken + Read(now, full) + next && |Read(now, full)| == (if full then 32 else |now|)
    ensures next == Rest(now, full) ==> taken + Read(now, full) + next == taken + now
    ensures !full ==> pipe <= taken + Read(now, full) && Rest(now, full) == [] && |now| < 32
  {
    assert now == Read(now, full) + Rest(now, full);
    assert taken + Read(now, full) + Rest(now, full) == taken + now;
    assert taken + Read(now, full) + next == taken + now + next[|Rest(now, full)|..];
  }

  /** No signal arrives. */
  predicate Quiet(actions: seq<Action>) {
    forall i :: 0 <= i < |actions| ==> !actions[i].Arrives?
  }

  /** A message is for the handle. */
  predicate Named(n: Node, read: seq<Msg>) {
    exists i :: 0 <= i < |read| && read[i].handle == n
  }

  lemma NoneNamed()
    ensures forall n :: !Named(n, [])
  {}

  lemma NamedMore(pipe: seq<Msg>, i: nat)
    requires i < |pipe|
    ensures forall n :: Named(n, pipe[..i + 1]) <==> Named(n, pipe[..i]) || n == pipe[i].handle
  {
    forall n | Named(n, pipe[..i]) || n == pipe[i].handle ensures Named(n, pipe[..i + 1]) {
      var j :| 0 <= j <= i && pipe[j].handle == n && (n != pipe[i].handle ==> j < i);
      assert pipe[..i + 1][j] == pipe[j];
    }
    forall n | Named(n, pipe[..i + 1]) ensures Named(n, pipe[..i]) || n == pipe[i].handle {
      var j :| 0 <= j <= i && pipe[..i + 1][j].handle == n;
      if j < i {
        assert pipe[..i][j] == pipe[j];
      }
    }
  }

  /** Just the one-shot handles with a message among those read have been stopped. */
  ghost predicate Stopped(was: map<Node, Key>, read: seq<Msg>)
    reads was.Keys`key
  {
    forall n | n in was :: n.key == if was[n].oneshot && Named(n, read) then was[n].(signum := 0) else was[n]
  }

  function Of(d: map<int, Disposition>, signum: int): Disposition {
    if signum in d then d[signum] else Default
  }

  /** And only their signals may have another disposition. */
  ghost predicate Undisturbed(were: map<int, Disposition>, now: map<int, Disposition>, was: map<Node, Key>, read: seq<Msg>) {
    forall s | s == 0 || Spared(s, was, read) :: Of(now, s) == Of(were, s)
  }

  /** None of these watched the signal. */
  predicate Spared(s: int, was: map<Node, Key>, read: seq<Msg>) {
    forall n | n in was && was[n].oneshot && Named(n, read) :: was[n].signum != s
  }

  lemma StillUndisturbed(were: map<int, Disposition>, now: map<int, Disposition>, next: map<int, Disposition>, was: map<Node, Key>,
                         pipe: seq<Msg>, i: nat, signum: int)
    requires i < |pipe| && pipe[i].handle in was && Undisturbed(were, now, was, pipe[..i]) && signum in {0, was[pipe[i].handle].signum}
    requires forall s | !was[pipe[i].handle].oneshot || s != signum || s == 0 :: Of(next, s) == Of(now, s)
    ensures Undisturbed(were, next, was, pipe[..i + 1])
  {
    hide Named;
    NamedMore(pipe, i);
    forall s | s == 0 || Spared(s, was, pipe[..i + 1]) ensures Of(next, s) == Of(were, s) {
      assert s != 0 ==> Spared(s, was, pipe[..i]);
    }
  }

  ghost predicate StoppedKeys(was: map<Node, Key>, now: map<Node, Key>, read: seq<Msg>)
    requires was.Keys == now.Keys
  {
    forall n | n in was :: now[n] == if was[n].oneshot && Named(n, read) then was[n].(signum := 0) else was[n]
  }

  lemma NamedBoth(a: seq<Msg>, b: seq<Msg>)
    ensures forall n :: Named(n, a + b) <==> Named(n, a) || Named(n, b)
  {
    forall n | Named(n, a) || Named(n, b) ensures Named(n, a + b) {
      if Named(n, a) {
        var j :| 0 <= j < |a| && a[j].handle == n;
        assert (a + b)[j] == a[j];
      } else {
        var j :| 0 <= j < |b| && b[j].handle == n;
        assert (a + b)[|a| + j] == b[j];
      }
    }
  }

  lemma StoppedTwice(was: map<Node, Key>, mid: map<Node, Key>, taken: seq<Msg>, read: seq<Msg>)
    requires was.Keys == mid.Keys && StoppedKeys(was, mid, taken)
    requires forall n | n in mid :: n.key == if mid[n].oneshot && Named(n, read) then mid[n].(signum := 0) else mid[n]
    ensures Stopped(was, taken + read)
  {
    hide Named;
    NamedBoth(taken, read);
  }

  lemma UndisturbedTwice(were: map<int, Disposition>, d: map<int, Disposition>, now: map<int, Disposition>,
                         was: map<Node, Key>, mid: map<Node, Key>, taken: seq<Msg>, read: seq<Msg>)
    requires was.Keys == mid.Keys && StoppedKeys(was, mid, taken) && Undisturbed(were, d, was, taken)
    requires forall s | s == 0 || Spared(s, mid, read) :: Of(now, s) == Of(d, s)
    ensures Undisturbed(were, now, was, taken + read)
  {
    hide Named;
    NamedBoth(taken, read);
    forall s | s == 0 || Spared(s, was, taken + read) ensures Of(now, s) == Of(were, s) {
      assert s != 0 ==> Spared(s, was, taken) && Spared(s, mid, read);
    }
  }

  lemma NothingStopped(was: map<Node, Key>, d: map<int, Disposition>)
    requires forall n | n in was :: n.key == was[n]
    ensures Stopped(was, []) && Undisturbed(d, d, was, [])
  {
    hide Named;
    NoneNamed();
  }

  lemma OneLess<T>(s: seq<T>, i: nat, now: seq<T>, next: seq<T>)
    requires i < |s| && s[i..] <= now && now != [] && now[1..] <= next
    ensures s[i + 1..] <= next
  {
    assert s[i + 1..] == s[i..][1..];
  }

  lemma OutstandingStep(caught: nat, dispatched: nat, k: nat)
    requires caught < WRAP && dispatched < WRAP && Outstanding(caught, dispatched) == k
    ensures k < WRAP && (caught == dispatched <==> k == 0)
    ensures k + 1 < WRAP ==> Outstanding(Increment(caught), dispatched) == k + 1
    ensures k > 0 ==> Outstanding(caught, Increment(dispatched)) == k - 1
  {}

  /** What a signal callback may do, any number of times: signals can also arrive while it runs. */
  datatype Action =
    | DoStart(handle: Node, signum: int, oneshot: bool, registered: bool)
    | DoStop(handle: Node)
    | DoClose(handle: Node)
    | Arrives(signum: int, written: Node -> bool)

  /** What never goes back: a close is not undone, and it is made pending at most once. */
  ghost predicate Later(a: Handle, b: Handle) {
    (a.closing ==> b.closing) && a.closePending <= b.closePending <= 1
  }

  lemma SameTwice(a: Handle, b: Handle, c: Handle)
    requires SameBut(a, b) && SameBut(b, c)
    ensures SameBut(a, c)
  {}

  /**
   * The counters of a handle differ by its messages in flight; when it is closing, its close has been
   * made pending once if there are none, and not yet if there are some, unless that is about to be done.
   */
  predicate HandleFits(h: Handle, signum: int, inFlight: nat, excepted: bool) {
    && h.caught < WRAP && h.dispatched < WRAP
    && Outstanding(h.caught, h.dispatched) == inFlight
    && (h.closing ==> signum == 0)
    && (!h.closing ==> h.closePending == 0)
    && (h.closing && !excepted ==> h.closePending == if inFlight == 0 then 1 else 0)
  }

  lemma CaughtFits(h: Handle, signum: int, k: nat, excepted: bool)
    requires HandleFits(h, signum, k, excepted) && signum != 0 && k + 1 < WRAP
    ensures HandleFits(h.(caught := Increment(h.caught)), signum, k + 1, excepted)
  {
    OutstandingStep(h.caught, h.dispatched, k);
  }

  lemma DispatchedFits(h: Handle, signum: int, k: nat)
    requires HandleFits(h, signum, k, false) && k > 0
    ensures HandleFits(h.(dispatched := Increment(h.dispatched)), signum, k - 1, true) && h.closePending == 0
  {
    OutstandingStep(h.caught, h.dispatched, k);
  }

  class Watchers {
    /** uv__signal_tree */
    const tree: Head
    /** Every initialised handle. */
    var handles: map<Node, Handle>
    /** For each loop, the messages written to its pipe and not yet dispatched, oldest first. */
    var pipes: map<nat, seq<Msg>>
    var dispositions: map<int, Disposition>

    constructor ()
      ensures Inv(null) && fresh(tree) && handles == map[]
    {
      tree := new Head();
      handles, pipes, dispositions := map[], map[], map[];
      new;
      assert Items(tree.tree) == [] && Nodes(tree.tree) == {};
    }

    function Pipe(loop: nat): seq<Msg>
      reads `pipes
    {
      if loop in pipes then pipes[loop] else []
    }

    function DispositionOf(signum: int): Disposition
      reads `dispositions
    {
      if signum in dispositions then dispositions[signum] else Default
    }

    /**
     * The counters of n differ by exactly its messages in flight; when n is closing, its close has
     * been made pending once if there are none, and not yet if there are some.
     */
    ghost predicate HandleOk(n: Node, except: Node?)
      requires n in handles
      reads `handles, `pipes, n`key
    {
      HandleFits(handles[n], n.key.signum, CountOf(Pipe(n.key.loop), n), n == except)
    }

    ghost predicate PipesOk()
      reads `handles, `pipes, handles.Keys`key
    {
      forall l | l in pipes.Keys :: PipeOk(pipes[l], l, handles.Keys)
    }

    /** Every message in the pipe of a loop names an initialised handle of that loop. */
    static ghost predicate PipeOk(p: seq<Msg>, loop: nat, keys: set<Node>)
      reads keys`key
    {
      |p| <= ROOM && forall i :: 0 <= i < |p| ==> p[i].handle in keys && p[i].signum != 0 && p[i].handle.key.loop == loop
    }

    /** A handle that is not one-shot keeps the handler of its signal installed for good. */
    ghost predicate DispositionsOk()
      reads `dispositions, tree, Nodes(tree.tree)`key
    {
      && (forall n | n in Nodes(tree.tree) && !n.key.oneshot :: DispositionOf(n.key.signum) == Always)
      && (forall s | DispositionOf(s) != Default :: exists n :: n in Nodes(tree.tree) && n.key.signum == s)
    }

    /**
     * The tree holds exactly the started handles among those initialised, which differ by address.
     * `moving` is a handle that is out of the tree while its key changes.
     */
    ghost predicate ShapeOk(keys: set<Node>, moving: Node?)
      reads tree, Nodes(tree.tree), keys`key
    {
      && Valid(tree) && Nodes(tree.tree) <= keys
      && (moving != null ==> moving in keys && moving !in Nodes(tree.tree))
      && (forall n | n in keys :: n.key.loop > 0 && (n == moving || (n in Nodes(tree.tree) <==> n.key.signum != 0)))
      && (forall m, n | m in keys && n in keys && m.key.handle == n.key.handle :: m == n)
    }

    ghost predicate TreeOk(keys: set<Node>)
      reads `dispositions, tree, Nodes(tree.tree), keys`key
    {
      ShapeOk(keys, null) && DispositionsOk()
    }

    ghost predicate HandlesOk(except: Node?)
      reads `handles, `pipes, handles.Keys`key
    {
      forall n | n in handles.Keys :: HandleOk(n, except)
    }

    ghost predicate CountsOk(except: Node?)
      reads `handles, `pipes, handles.Keys`key
    {
      HandlesOk(except) && PipesOk()
    }

    ghost predicate Inv(except: Node?)
      reads `handles, `pipes, `dispositions, tree, Nodes(tree.tree), handles.Keys`key
    {
      TreeOk(handles.Keys) && CountsOk(except)
    }

    /** uv__signal_first_handle */
    method FirstHandle(signum: int, address: nat) returns (first: Node?, ghost at: nat)
      requires Valid(tree) && forall n | n in Nodes(tree.tree) :: n.key.loop > 0
      ensures at <= |Items(tree.tree)|
      ensures forall j :: 0 <= j < at ==> Items(tree.tree)[j].key.signum < signum
      ensures forall j :: at <= j < |Items(tree.tree)| ==> Items(tree.tree)[j].key.signum >= signum
      ensures first == null ==> forall n | n in Nodes(tree.tree) :: n.key.signum != signum
      ensures first != null <==> at < |Items(tree.tree)| && Items(tree.tree)[at].key.signum == signum
      ensures first != null ==> first == Items(tree.tree)[at].node && first in Nodes(tree.tree) && first.key.signum == signum
      ensures first != null && first.key.oneshot ==>
        forall n | n in Nodes(tree.tree) && n.key.signum == signum :: n.key.oneshot
    {
      hide Items, Nodes, Linked, Distinct, RedBlack, Compare;
      assert allocated(Nodes(tree.tree));
      NodeIsItem(tree.tree, null);
      ItemLoops();
      ghost var s := Items(tree.tree);
      first, at := RbSearch.NFind(tree, Lookup(signum, address));
      LookupBound(s, signum, address, at);
      BlockFacts(s, signum, at);
      assert first != null ==> s[at] in s;
      if first != null && first.key.signum == signum {
        return;
      }
      first := null;
    }

    lemma ItemLoops()
      requires tree.Ok() && forall n | n in Nodes(tree.tree) :: n.key.loop > 0
      ensures var s := Items(tree.tree); forall j :: 0 <= j < |s| ==> s[j].key.loop > 0
    {
      hide Items, Nodes, Linked, Distinct;
      NodeIsItem(tree.tree, null);
      var s := Items(tree.tree);
      forall j | 0 <= j < |s| ensures s[j].key.loop > 0 {
        assert s[j] in s;
      }
    }

    /**
     * One turn of the loop in uv__signal_handler: a message for the handle, if its pipe takes it.
     * Then the handle has one more message in flight and one more caught signal, or neither.
     */
    method Deliver(handle: Node, signum: int, written: bool, ghost except: Node?)
      requires CountsOk(except) && handle in handles && handle.key.signum == signum != 0
      modifies this`handles, this`pipes
      ensures CountsOk(except) && handles.Keys == old(handles.Keys)
      ensures forall n | n in handles.Keys :: SameBut(old(handles[n]), handles[n])
      ensures forall n | n in handles.Keys && n != handle :: handles[n] == old(handles[n])
      ensures forall l :: var p := old(Pipe(l));
        Pipe(l) == if handle.key.loop == l && written && |p| < ROOM then p + [Msg(handle, signum)] else p
      ensures var h := old(handles[handle]);
        handles[handle] == if written && |old(Pipe(handle.key.loop))| < ROOM then h.(caught := Increment(h.caught)) else h
    {
      hide CountOf, Outstanding, HandleFits, Increment, PipeOk;
      var loop := handle.key.loop;
      var h, p, msg := handles[handle], Pipe(loop), Msg(handle, signum);
      if written && |p| < ROOM {
        assert HandleOk(handle, except);
        CountBound(p, handle);
        CaughtFits(h, signum, CountOf(p, handle), handle == except);
        pipes := pipes[loop := p + [msg]];
        handles := handles[handle := h.(caught := Increment(h.caught))];
        assert HandlesOk(except) by {
          hide PipeOk, PipesOk;
          forall n | n in handles.Keys ensures HandleOk(n, except) {
            assert old(HandleOk(n, except));
            CountPush(p, msg, n);
          }
        }
        assert handles.Keys == old(handles.Keys);
        PipesMore(old(pipes), loop, msg);
      }
    }

    lemma PipesMore(before: map<nat, seq<Msg>>, loop: nat, msg: Msg)
      requires forall l | l in before.Keys :: PipeOk(before[l], l, handles.Keys)
      requires var p := if loop in before then before[loop] else []; |p| < ROOM && pipes == before[loop := p + [msg]]
      requires msg.handle in handles.Keys && msg.signum != 0 && msg.handle.key.loop == loop
      ensures PipesOk()
    {
      assert PipeOk(pipes[loop], loop, handles.Keys) by {
        assert loop in before ==> PipeOk(before[loop], loop, handles.Keys);
      }
    }

    /** SA_RESETHAND: the kernel drops a one-shot handler when it delivers. */
    method Reset(signum: int, ghost keys: set<Node>)
      requires TreeOk(keys) && DispositionOf(signum) == Once
      modifies `dispositions
      ensures TreeOk(keys)
      ensures forall s :: DispositionOf(s) == if s == signum then Default else old(DispositionOf(s))
    {
      hide Items, Nodes, Valid;
      assert allocated(Nodes(tree.tree)) && allocated(keys);
      ghost var all := Nodes(tree.tree);
      dispositions := dispositions[signum := Default];
      forall n | n in all && !n.key.oneshot ensures DispositionOf(n.key.signum) == Always {
        assert old(DispositionOf(n.key.signum)) == Always;
      }
      forall s | DispositionOf(s) != Default ensures exists n :: n in all && n.key.signum == s {
        assert old(DispositionOf(s)) != Default;
      }
    }

    /** Where handle number i stands, among those from `at` on that are registered for the signal. */
    ghost predicate Visit(s: seq<Item>, signum: int, at: nat, i: nat, handle: Node?, visited: seq<Node>)
      reads handle
    {
      && at <= i <= |s|
      && (forall j :: 0 <= j < at ==> s[j].key.signum < signum)
      && (forall j :: at <= j < i ==> s[j].key.signum == signum)
      && |visited| == i - at && (forall j :: at <= j < i ==> visited[j - at] == s[j].node)
      && (if handle != null then i < |s| && s[i].node == handle && s[i].key == handle.key
          else i == |s| || s[i].key.signum != signum)
    }

    lemma VisitEnd(s: seq<Item>, signum: int, at: nat, i: nat, handle: Node?, visited: seq<Node>)
      requires Sorted(s) && Visit(s, signum, at, i, handle, visited)
      requires forall j :: at <= j < |s| ==> s[j].key.signum >= signum
      requires handle == null || handle.key.signum != signum
      ensures visited == Registered(s, signum) && i <= |s| && forall j :: i <= j < |s| ==> s[j].key.signum != signum
    {
      hide Registered;
      RegisteredPrefix(s, signum, at, i);
      ghost var reg := Registered(s[..i], signum);
      forall k | 0 <= k < |visited| ensures visited[k] == reg[k] {
        assert s[at + k].node == visited[at + k - at];
      }
      assert visited == reg;
      forall j | i <= j < |s| ensures s[j].key.signum != signum {
        if i < j {
          assert Less(s[i].key, s[j].key);
        }
      }
      RegisteredRest(s, signum, i);
    }

    /**
     * uv__signal_handler: one message is attempted for each handle registered for the signal, in
     * tree order, and for no other. The kernel calls it unless the disposition is the default.
     */
    method Raise(signum: int, address: nat, written: Node -> bool, ghost except: Node?) returns (ghost visited: seq<Node>)
      requires Inv(except) && signum != 0
      modifies `handles, `pipes, `dispositions
      ensures Inv(except) && handles.Keys == old(handles.Keys)
      ensures visited == if old(DispositionOf(signum)) == Default then [] else Registered(Items(tree.tree), signum)
      ensures forall n | n in handles.Keys && n !in visited :: handles[n] == old(handles[n])
      ensures forall n | n in handles.Keys :: SameBut(old(handles[n]), handles[n])
      ensures old(DispositionOf(signum)) == Default ==> forall l :: Pipe(l) == old(Pipe(l))
      ensures old(DispositionOf(signum)) != Default ==>
        forall l :: Pipe(l) == Sent(Items(tree.tree), signum, written, l, old(Pipe(l)))
      ensures forall s :: DispositionOf(s) == if s == signum && old(DispositionOf(s)) == Once then Default else old(DispositionOf(s))
    {
      hide Items, Nodes, Valid, Registered, CountsOk, DispositionsOk, TreeOk, CountOf, Sent;
      visited := [];
      if DispositionOf(signum) == Default {
        return;
      }
      ghost var keys := handles.Keys;
      assert allocated(Nodes(tree.tree)) && allocated(keys);
      if DispositionOf(signum) == Once {
        Reset(signum, keys);
      }
      visited := DeliverAll(signum, address, written, except, keys);
    }

    /** The loop of uv__signal_handler. */
    method DeliverAll(signum: int, address: nat, written: Node -> bool, ghost except: Node?, ghost keys: set<Node>)
      returns (ghost visited: seq<Node>)
      requires TreeOk(keys) && CountsOk(except) && handles.Keys == keys && signum != 0
      modifies `handles, `pipes
      ensures TreeOk(keys) && CountsOk(except) && handles.Keys == keys
      ensures visited == Registered(Items(tree.tree), signum)
      ensures forall n | n in handles.Keys && n !in visited :: handles[n] == old(handles[n])
      ensures forall n | n in handles.Keys :: SameBut(old(handles[n]), handles[n])
      ensures forall l :: Pipe(l) == Sent(Items(tree.tree), signum, written, l, old(Pipe(l)))
    {
      hide Items, Nodes, Valid, Registered, HandleOk, PipesOk, CountsOk, DispositionsOk, TreeOk, Visit, CountOf, Sent, SameBut;
      ghost var s := Items(tree.tree);
      AllTheSame();
      TreeFacts(keys);
      var handle, at := FirstHandle(signum, address);
      VisitFrom(keys, signum, at, handle);
      visited := [];
      ghost var i := at;
      forall l ensures Pipe(l) == Sent(s[..at], signum, written, l, Pipe(l)) {
        SentNone(s, 0, at, signum, written, l, Pipe(l));
        SentNil(s, signum, written, l, Pipe(l));
      }
      while handle != null && handle.key.signum == signum
        invariant TreeOk(keys) && CountsOk(except) && handles.Keys == keys && (handle != null ==> handle in keys)
        invariant at <= i <= |s| && Visit(s, signum, at, i, handle, visited)
        invariant forall n | n in keys && n !in visited :: handles[n] == old(handles[n])
        invariant forall n | n in keys :: SameBut(old(handles[n]), handles[n])
        invariant forall l :: Pipe(l) == Sent(s[..i], signum, written, l, old(Pipe(l)))
        decreases |s| - i
      {
        VisitHere(s, signum, at, i, handle, visited);
        label Turn:
        var next := VisitOne(signum, written(handle), except, keys, at, i, handle, visited);
        forall l ensures Pipe(l) == Sent(s[..i + 1], signum, written, l, old(Pipe(l))) {
          assert old@Turn(Pipe(l)) == Sent(s[..i], signum, written, l, old(Pipe(l)));
          SentStep(s, i, signum, written, l, old(Pipe(l)));
        }
        forall n | n in keys ensures SameBut(old(handles[n]), handles[n]) {
          SameTwice(old(handles[n]), old@Turn(handles[n]), handles[n]);
        }
        visited := visited + [handle];
        handle, i := next, i + 1;
      }
      VisitEnd(s, signum, at, i, handle, visited);
      assert s[..|s|] == s;
      forall l ensures Pipe(l) == Sent(s, signum, written, l, old(Pipe(l))) {
        SentNone(s, i, |s|, signum, written, l, old(Pipe(l)));
      }
    }

    /** The handles in the tree are those with a signal. */
    lemma Started()
      requires TreeOk(handles.Keys)
      ensures forall n | n in handles.Keys :: n in Nodes(tree.tree) <==> n.key.signum != 0
      ensures forall n | n in Nodes(tree.tree) :: n in handles.Keys
    {}

    lemma AllTheSame()
      ensures forall n | n in handles.Keys :: SameBut(handles[n], handles[n])
    {}

    lemma SentNil(s: seq<Item>, signum: int, written: Node -> bool, loop: nat, pipe: seq<Msg>)
      ensures Sent(s[..0], signum, written, loop, pipe) == pipe
    {}

    /** The body of the loop. */
    method VisitOne(signum: int, written: bool, ghost except: Node?, ghost keys: set<Node>,
                    ghost at: nat, ghost i: nat, handle: Node, ghost visited: seq<Node>) returns (next: Node?)
      requires TreeOk(keys) && CountsOk(except) && handles.Keys == keys && handle in keys
      requires Visit(Items(tree.tree), signum, at, i, handle, visited) && handle.key.signum == signum != 0
      modifies `handles, `pipes
      ensures TreeOk(keys) && CountsOk(except) && handles.Keys == keys && (next != null ==> next in keys)
      ensures i < |Items(tree.tree)|
      ensures Visit(Items(tree.tree), signum, at, i + 1, next, visited + [handle])
      ensures forall n | n in keys && n != handle :: handles[n] == old(handles[n])
      ensures forall n | n in keys :: SameBut(old(handles[n]), handles[n])
      ensures var loop := Items(tree.tree)[i].key.loop;
        forall l :: var p := old(Pipe(l)); Pipe(l) == if loop == l && written && |p| < ROOM then p + [Msg(handle, signum)] else p
    {
      hide Items, Nodes, Valid, Registered, HandleOk, PipesOk, CountsOk, DispositionsOk, TreeOk, Visit, CountOf;
      assert allocated(Nodes(tree.tree)) && allocated(keys);
      VisitHere(Items(tree.tree), signum, at, i, handle, visited);
      Deliver(handle, signum, written, except);
      TreeFacts(keys);
      next := RbSearch.Next(tree, handle, i);
      VisitNext(keys, signum, at, i, handle, visited, next);
    }

    lemma VisitFrom(keys: set<Node>, signum: int, at: nat, first: Node?)
      requires TreeOk(keys) && at <= |Items(tree.tree)|
      requires forall j :: 0 <= j < at ==> Items(tree.tree)[j].key.signum < signum
      requires first != null <==> at < |Items(tree.tree)| && Items(tree.tree)[at].key.signum == signum
      requires first != null ==> first == Items(tree.tree)[at].node
      ensures Visit(Items(tree.tree), signum, at, at, first, []) && (first != null ==> first in keys)
    {
      hide Items, TreeOk;
      if first != null {
        ItemKey(keys, at);
      }
    }

    lemma VisitHere(s: seq<Item>, signum: int, at: nat, i: nat, handle: Node, visited: seq<Node>)
      requires Visit(s, signum, at, i, handle, visited)
      ensures i < |s| && s[i].node == handle && s[i].key == handle.key
    {}

    lemma VisitNext(keys: set<Node>, signum: int, at: nat, i: nat, handle: Node, visited: seq<Node>, next: Node?)
      requires TreeOk(keys) && Visit(Items(tree.tree), signum, at, i, handle, visited) && handle.key.signum == signum
      requires next == RbSearch.NodeAt(Items(tree.tree), i + 1)
      ensures Visit(Items(tree.tree), signum, at, i + 1, next, visited + [handle]) && (next != null ==> next in keys)
    {
      hide Items, TreeOk;
      if i + 1 < |Items(tree.tree)| {
        ItemKey(keys, i + 1);
      }
    }

    /** No handle of the tree watches the signal. */
    ghost predicate Unwatched(signum: int)
      reads tree, Nodes(tree.tree)`key
    {
      forall n | n in Nodes(tree.tree) :: n.key.signum != signum
    }

    ghost predicate OnlyOneShots(signum: int)
      reads tree, Nodes(tree.tree)`key
    {
      forall n | n in Nodes(tree.tree) && n.key.signum == signum :: n.key.oneshot
    }

    /** What is installed for a signal when a handle stopped watching it. */
    ghost predicate Disposed(signum: int, oneshot: bool, before: Disposition)
      reads `dispositions, tree, Nodes(tree.tree)`key
    {
      DispositionOf(signum) == if Unwatched(signum) then Default else if OnlyOneShots(signum) && !oneshot then Once else before
    }

    /** What is to be installed for a signal when another handle starts watching it. */
    ghost function Chosen(signum: int, oneshot: bool): Disposition
      reads `dispositions, tree, Nodes(tree.tree)`key
    {
      if Unwatched(signum) || (!oneshot && OnlyOneShots(signum)) then if oneshot then Once else Always else DispositionOf(signum)
    }

    /**
     * When a handle leaves, nothing is installed for its signal any more if it was the last one, the one-shot
     * handler if it was the last regular one, and what was installed before otherwise.
     */
    lemma DisposedIs(signum: int, oneshot: bool, before: Disposition)
      requires Disposed(signum, oneshot, before)
      ensures (forall n | n in Nodes(tree.tree) :: n.key.signum != signum) ==> DispositionOf(signum) == Default
      ensures !oneshot && (exists n :: n in Nodes(tree.tree) && n.key.signum == signum) ==>
                (forall n | n in Nodes(tree.tree) && n.key.signum == signum :: n.key.oneshot) ==> DispositionOf(signum) == Once
      ensures oneshot && (exists n :: n in Nodes(tree.tree) && n.key.signum == signum) ==> DispositionOf(signum) == before
      ensures (exists n :: n in Nodes(tree.tree) && n.key.signum == signum && !n.key.oneshot) ==> DispositionOf(signum) == before
    {
      hide Nodes;
    }

    /**
     * The handler of a regular handle comes in place of nothing and of that of one-shot handles; that of a
     * one-shot handle only in place of nothing.
     */
    lemma ChosenIs(signum: int, oneshot: bool)
      ensures (forall n | n in Nodes(tree.tree) :: n.key.signum != signum) ==> Chosen(signum, oneshot) == if oneshot then Once else Always
      ensures !oneshot && (forall n | n in Nodes(tree.tree) && n.key.signum == signum :: n.key.oneshot) ==> Chosen(signum, oneshot) == Always
      ensures oneshot && (exists n :: n in Nodes(tree.tree) && n.key.signum == signum) ==> Chosen(signum, oneshot) == DispositionOf(signum)
      ensures (exists n :: n in Nodes(tree.tree) && n.key.signum == signum && !n.key.oneshot) && DispositionsOk() ==> Chosen(signum, oneshot) == Always
    {
      hide Nodes;
    }

    /**
     * A handle that starts gets a signal that nobody catches just when it is one-shot, other handles
     * watch the signal, and the signal has its default disposition, as it has after the kernel has
     * dropped a one-shot handler, until the last of its handles stops or a regular one starts.
     */
    lemma UncaughtExactly(signum: int, oneshot: bool)
      requires DispositionsOk()
      ensures Chosen(signum, oneshot) == Default <==> oneshot && !Unwatched(signum) && DispositionOf(signum) == Default
    {
      hide Nodes;
      if !oneshot && !OnlyOneShots(signum) {
        var n :| n in Nodes(tree.tree) && n.key.signum == signum && !n.key.oneshot;
        assert DispositionOf(n.key.signum) == Always;
      }
    }

    /** Lines 554-567, after the handle left the tree: `first` is what uv__signal_first_handle finds. */
    method Redispose(signum: int, oneshot: bool, first: Node?)
      requires forall n | n in Nodes(tree.tree) && !n.key.oneshot :: DispositionOf(n.key.signum) == Always
      requires forall s | s != signum && DispositionOf(s) != Default :: exists n :: n in Nodes(tree.tree) && n.key.signum == s
      requires first == null ==> forall n | n in Nodes(tree.tree) :: n.key.signum != signum
      requires first != null ==> first in Nodes(tree.tree) && first.key.signum == signum
      requires first != null && first.key.oneshot ==> forall n | n in Nodes(tree.tree) && n.key.signum == signum :: n.key.oneshot
      requires first != null && !first.key.oneshot ==> !OnlyOneShots(signum)
      modifies `dispositions
      ensures DispositionsOk() && Disposed(signum, oneshot, old(DispositionOf(signum)))
      ensures forall s | s != signum :: DispositionOf(s) == old(DispositionOf(s))
    {
      hide Nodes;
      ghost var all := Nodes(tree.tree);
      if first == null {
        dispositions := dispositions[signum := Default];
      } else if first.key.oneshot && !oneshot {
        dispositions := dispositions[signum := Once];
      }
      forall n | n in all && !n.key.oneshot ensures DispositionOf(n.key.signum) == Always {
        ghost var k := n.key.signum;
        assert old(DispositionOf(k)) == Always;
      }
      forall s | DispositionOf(s) != Default ensures exists n :: n in all && n.key.signum == s {
        assert s != signum ==> old(DispositionOf(s)) != Default;
      }
    }

    /** The part of uv__signal_stop under the signal lock. */
    method Unlink(handle: Node, address: nat, ghost keys: set<Node>)
      requires TreeOk(keys) && handle in keys && handle.key.signum != 0
      modifies `dispositions, tree, Nodes(tree.tree)
      ensures ShapeOk(keys, handle) && DispositionsOk()
      ensures Nodes(tree.tree) == old(Nodes(tree.tree)) - {handle}
      ensures Disposed(handle.key.signum, handle.key.oneshot, old(DispositionOf(handle.key.signum)))
      ensures forall s | s != handle.key.signum :: DispositionOf(s) == old(DispositionOf(s))
      ensures forall n | n in keys && old(allocated(n)) :: n.key == old(n.key)
    {
      hide Items, Nodes, Valid, ShapeOk, DispositionsOk;
      assert allocated(keys);
      var signum, oneshot := handle.key.signum, handle.key.oneshot;
      TakeOut(handle, keys);
      assert allocated(Nodes(tree.tree));
      ShapeLoops(keys, handle);
      var first, at := FirstHandle(signum, address);
      Redispose(signum, oneshot, first);
    }

    /** RB_REMOVE: the handle is out of the tree; the dispositions suit the others, but perhaps for its signal. */
    method TakeOut(handle: Node, ghost keys: set<Node>)
      requires TreeOk(keys) && handle in keys && handle.key.signum != 0
      modifies tree, Nodes(tree.tree)
      ensures ShapeOk(keys, handle) && Nodes(tree.tree) == old(Nodes(tree.tree)) - {handle}
      ensures forall n | n in Nodes(tree.tree) && !n.key.oneshot :: DispositionOf(n.key.signum) == Always
      ensures forall s | s != handle.key.signum && DispositionOf(s) != Default :: exists n :: n in Nodes(tree.tree) && n.key.signum == s
      ensures forall n | n in keys && old(allocated(n)) :: n.key == old(n.key)
    {
      hide Items, Nodes, Valid, RbRemove.Without;
      assert allocated(Nodes(tree.tree)) && allocated(keys);
      TreeFacts(keys);
      var removed := RbRemove.Remove(tree, handle);
      assert forall n | n in keys :: old(allocated(n)) && n.key == old(n.key);
    }

    lemma ShapeLoops(keys: set<Node>, moving: Node?)
      requires ShapeOk(keys, moving)
      ensures Valid(tree) && forall n | n in Nodes(tree.tree) :: n.key.loop > 0
    {}

    /** uv__signal_stop */
    method Stop(handle: Node, address: nat, ghost except: Node?)
      requires Inv(except) && handle in handles
      modifies `dispositions, tree, handles.Keys
      ensures Inv(except) && handle.key == old(handle.key).(signum := 0)
      ensures forall n | n in handles.Keys && n != handle :: n.key == old(n.key)
      ensures Nodes(tree.tree) == old(Nodes(tree.tree)) - {handle}
      ensures forall s | s != old(handle.key.signum) || s == 0 :: DispositionOf(s) == old(DispositionOf(s))
      ensures old(handle.key.signum) != 0 ==>
                Disposed(old(handle.key.signum), handle.key.oneshot, old(DispositionOf(handle.key.signum)))
    {
      hide Items, Nodes, Valid, CountOf, Outstanding, DispositionsOk, ShapeOk;
      Started();
      // If the watcher wasn't started, this is a no-op.
      if handle.key.signum == 0 {
        return;
      }
      ghost var keys := handles.Keys;
      Unlink(handle, address, keys);
      Rename(handle, handle.key.(signum := 0), keys, except);
    }

    /** A handle out of the tree gets another signum or becomes one-shot; its counters do not mind. */
    method Rename(handle: Node, key: Key, ghost keys: set<Node>, ghost except: Node?)
      requires ShapeOk(keys, handle) && keys == handles.Keys && CountsOk(except)
      requires key.loop == handle.key.loop && key.handle == handle.key.handle
      requires !handles[handle].closing || key.signum == 0
      modifies handle
      ensures ShapeOk(keys, handle) && CountsOk(except) && handle.key == key && (key.signum == 0 ==> ShapeOk(keys, null))
    {
      hide Items, Nodes, Valid, CountOf, Outstanding;
      assert allocated(keys);
      handle.key := key;
      forall n | n in keys ensures HandleOk(n, except) {
        assert old(HandleOk(n, except));
      }
    }

    /** uv__signal_start; `registered` is whether sigaction accepts the signal number. */
    method Start(handle: Node, signum: int, oneshot: bool, registered: bool, address: nat, ghost except: Node?) returns (ok: bool)
      requires Inv(except) && handle in handles && !handles[handle].closing
      modifies `dispositions, tree, handles.Keys
      ensures Inv(except)
      ensures ok ==> signum != 0 && handle.key.signum == signum
      ensures ok && old(handle.key.signum) != signum ==> handle.key.oneshot == (old(handle.key.oneshot) || oneshot)
      ensures !ok ==> signum == 0 || !registered
      ensures signum == 0 || old(handle.key.signum) == signum ==> handle.key == old(handle.key)
      ensures handle.key.loop == old(handle.key.loop) && handle.key.handle == old(handle.key.handle)
      ensures forall n | n in handles.Keys && n != handle :: n.key == old(n.key)
      ensures ok && old(handle.key.signum) != signum ==>
                DispositionOf(signum) == old(Chosen(signum, oneshot))
      ensures old(handle.key.signum) !in {0, signum} && signum != 0 ==>
                Disposed(old(handle.key.signum), old(handle.key.oneshot), old(DispositionOf(handle.key.signum)))
      ensures forall s | s != signum && (s == 0 || s != old(handle.key.signum)) :: DispositionOf(s) == old(DispositionOf(s))
      ensures !ok || old(handle.key.signum) == signum ==> DispositionOf(signum) == old(DispositionOf(signum))
    {
      hide Items, Nodes, Valid, CountOf, Outstanding, DispositionsOk, CountsOk, TreeOk;
      if signum == 0 {
        return false;
      }
      // Short circuit: already watching this signal.
      if signum == handle.key.signum {
        return true;
      }
      assert allocated(Nodes(tree.tree));
      ghost var g := handle.key.signum;
      if handle.key.signum != 0 {
        Stop(handle, address, except);
        assert Unwatched(signum) == old(Unwatched(signum)) && OnlyOneShots(signum) == old(OnlyOneShots(signum));
      }
      ghost var unwatched, oneshots := Unwatched(g), OnlyOneShots(g);
      ok := Begin(handle, signum, oneshot, registered, address, except);
      assert g != 0 ==> Unwatched(g) == unwatched && OnlyOneShots(g) == oneshots;
    }

    /** Lines 391-417: the handle, which is stopped, is started. */
    method Begin(handle: Node, signum: int, oneshot: bool, registered: bool, address: nat, ghost except: Node?) returns (ok: bool)
      requires Inv(except) && handle in handles && !handles[handle].closing && handle.key.signum == 0 != signum
      modifies `dispositions, tree, handles.Keys
      ensures Inv(except) && (!ok ==> !registered)
      ensures handle.key == if ok then old(handle.key).(signum := signum, oneshot := old(handle.key.oneshot) || oneshot) else old(handle.key)
      ensures forall n | n in handles.Keys && n != handle :: n.key == old(n.key)
      ensures Nodes(tree.tree) == if ok then old(Nodes(tree.tree)) + {handle} else old(Nodes(tree.tree))
      ensures forall s | s != signum || !ok :: DispositionOf(s) == old(DispositionOf(s))
      ensures ok ==> DispositionOf(signum) == old(Chosen(signum, oneshot))
    {
      hide Items, Nodes, Valid, CountOf, Outstanding, DispositionsOk, CountsOk, TreeOk;
      ghost var keys := handles.Keys;
      TreeFacts(keys);
      var first, at := FirstHandle(signum, address);
      if first == null || (!oneshot && first.key.oneshot) {
        if !registered {
          return false;
        }
      }
      Link(handle, signum, oneshot, first, keys, except);
      ok := true;
    }

    /** Lines 398-412: the handler is installed if need be and the handle enters the tree. */
    method Link(handle: Node, signum: int, oneshot: bool, first: Node?, ghost keys: set<Node>, ghost except: Node?)
      requires TreeOk(keys) && keys == handles.Keys && CountsOk(except) && handle in keys
      requires handle.key.signum == 0 != signum && !handles[handle].closing
      requires first == null ==> forall n | n in Nodes(tree.tree) :: n.key.signum != signum
      requires first != null ==> first in Nodes(tree.tree) && first.key.signum == signum
      requires first != null && first.key.oneshot ==> forall n | n in Nodes(tree.tree) && n.key.signum == signum :: n.key.oneshot
      modifies `dispositions, tree, keys
      ensures TreeOk(keys) && CountsOk(except)
      ensures handle.key == old(handle.key).(signum := signum, oneshot := old(handle.key.oneshot) || oneshot)
      ensures forall n | n in keys && n != handle :: n.key == old(n.key)
      ensures Nodes(tree.tree) == old(Nodes(tree.tree)) + {handle}
      ensures forall s :: DispositionOf(s) == if s == signum then old(Installed(oneshot, first, DispositionOf(s))) else old(DispositionOf(s))
    {
      hide Items, Nodes, Valid, CountsOk, ShapeOk, DispositionsOk;
      ghost var all := Nodes(tree.tree);
      assert allocated(all) && allocated(keys);
      StillShaped(keys, handle);
      Install(signum, oneshot, first);
      Rename(handle, handle.key.(signum := signum, oneshot := handle.key.oneshot || oneshot), keys, except);
      assert Prepared(signum, oneshot);
      AllOf(keys, handle);
      Enter(handle, keys, except);
      NowOk(all, handle);
    }

    /** A stopped handle may be given another key. */
    lemma StillShaped(keys: set<Node>, handle: Node)
      requires ShapeOk(keys, null) && handle in keys && handle.key.signum == 0
      ensures ShapeOk(keys, handle) && handle !in Nodes(tree.tree)
    {}

    lemma AllOf(keys: set<Node>, moving: Node?)
      requires ShapeOk(keys, moving)
      ensures Nodes(tree.tree) <= keys
    {}

    /** The dispositions suit the tree with the handle. */
    lemma NowOk(all: set<Node>, handle: Node)
      requires Nodes(tree.tree) == all + {handle}
      requires forall n | n in all && !n.key.oneshot :: DispositionOf(n.key.signum) == Always
      requires !handle.key.oneshot ==> DispositionOf(handle.key.signum) == Always
      requires forall s | s != handle.key.signum && DispositionOf(s) != Default :: exists n :: n in all && n.key.signum == s
      ensures DispositionsOk()
    {
      hide Nodes;
      forall s | DispositionOf(s) != Default ensures exists n :: n in Nodes(tree.tree) && n.key.signum == s {
        if s != handle.key.signum {
          var n :| n in all && n.key.signum == s;
          assert n in Nodes(tree.tree);
        } else {
          assert handle in Nodes(tree.tree);
        }
      }
    }

    /** The dispositions suit the tree that will have one more handle for the signal. */
    ghost predicate Prepared(signum: int, oneshot: bool)
      reads `dispositions, tree, Nodes(tree.tree)`key
    {
      && (forall n | n in Nodes(tree.tree) && !n.key.oneshot :: DispositionOf(n.key.signum) == Always)
      && (!oneshot ==> DispositionOf(signum) == Always)
      && (forall s | s != signum && DispositionOf(s) != Default :: exists n :: n in Nodes(tree.tree) && n.key.signum == s)
    }

    /** Lines 398-406: what is installed for the signal, `first` being its first handle. */
    function Installed(oneshot: bool, first: Node?, before: Disposition): Disposition
      reads if first == null then {} else {first}
    {
      if first == null || (!oneshot && first.key.oneshot) then if oneshot then Once else Always else before
    }

    method Install(signum: int, oneshot: bool, first: Node?)
      requires DispositionsOk()
      requires first == null ==> forall n | n in Nodes(tree.tree) :: n.key.signum != signum
      requires first != null ==> first in Nodes(tree.tree) && first.key.signum == signum
      requires first != null && first.key.oneshot ==> forall n | n in Nodes(tree.tree) && n.key.signum == signum :: n.key.oneshot
      modifies `dispositions
      ensures Prepared(signum, oneshot)
      ensures forall s :: DispositionOf(s) == if s == signum then Installed(oneshot, first, old(DispositionOf(s))) else old(DispositionOf(s))
    {
      hide Nodes;
      ghost var all := Nodes(tree.tree);
      if first == null || (!oneshot && first.key.oneshot) {
        dispositions := dispositions[signum := if oneshot then Once else Always];
      }
      forall n | n in all && !n.key.oneshot ensures DispositionOf(n.key.signum) == Always {
        ghost var k := n.key.signum;
        assert old(DispositionOf(k)) == Always;
      }
      forall s | s != signum && DispositionOf(s) != Default ensures exists n :: n in all && n.key.signum == s {
        assert old(DispositionOf(s)) != Default;
      }
    }

    /** RB_INSERT finds no equal key, because no other handle has this address. */
    method Enter(handle: Node, ghost keys: set<Node>, ghost except: Node?)
      requires ShapeOk(keys, handle) && handle.key.signum != 0 && keys == handles.Keys && CountsOk(except)
      modifies tree, Nodes(tree.tree), handle
      ensures ShapeOk(keys, null) && CountsOk(except) && Nodes(tree.tree) == old(Nodes(tree.tree)) + {handle}
      ensures forall n | n in keys && old(allocated(n)) :: n.key == old(n.key)
    {
      hide Items, Nodes, Valid, CountsOk;
      assert allocated(Nodes(tree.tree)) && allocated(keys);
      var found := RbInsert.Insert(tree, handle);
      ValidOk();
      NodeIsItem(tree.tree, null);
      assert found == null;
    }

    lemma ValidOk()
      requires Valid(tree)
      ensures tree.Ok()
    {}

    /** uv_signal_init: a handle of a loop, at an address no other handle has. */
    method Init(loop: nat, address: nat) returns (handle: Node)
      requires Inv(null) && loop > 0 && forall n | n in handles.Keys :: n.key.handle != address
      modifies `handles
      ensures Inv(null) && fresh(handle) && handles == old(handles)[handle := Handle(0, 0, false, 0)]
      ensures handle.key == Key(0, false, loop, address)
    {
      hide Items, Nodes, Valid, Outstanding, DispositionsOk, CountsOk, CountOf, ShapeOk;
      ghost var keys := handles.Keys;
      assert allocated(Nodes(tree.tree)) && allocated(keys);
      handle := new Node(Key(0, false, loop, address));
      assert ShapeOk(keys, null) && CountsOk(null);
      ShapeWithNew(keys, handle);
      Register(handle);
      assert handles.Keys == keys + {handle};
    }

    lemma ShapeWithNew(keys: set<Node>, handle: Node)
      requires ShapeOk(keys, null) && handle !in keys && handle.key.signum == 0 && handle.key.loop > 0
      requires forall n | n in keys :: n.key.handle != handle.key.handle
      ensures ShapeOk(keys + {handle}, null)
    {
      hide Valid, Nodes;
    }

    method Register(handle: Node)
      requires CountsOk(null) && handle !in handles && handle.key.signum == 0
      modifies `handles
      ensures CountsOk(null) && handles == old(handles)[handle := Handle(0, 0, false, 0)]
    {
      hide CountOf, Outstanding;
      CountsWithNew(handle);
      ghost var keys := handles.Keys;
      handles := handles[handle := Handle(0, 0, false, 0)];
      forall n | n in handles.Keys ensures HandleOk(n, null) {
        assert n in keys ==> old(HandleOk(n, null));
      }
    }

    /** No message names a handle that was not there before. */
    lemma CountsWithNew(handle: Node)
      requires CountsOk(null) && handle !in handles && handle.key.signum == 0
      ensures CountOf(Pipe(handle.key.loop), handle) == 0 == Outstanding(0, 0)
    {
      CountZero(Pipe(handle.key.loop), handle);
    }

    /** uv_close and uv__signal_close */
    method Close(handle: Node, address: nat)
      requires Inv(null) && handle in handles && !handles[handle].closing
      modifies `handles, `dispositions, tree, handles.Keys
      ensures Inv(null) && handles.Keys == old(handles.Keys)
      ensures handles[handle].closing && handle.key == old(handle.key).(signum := 0)
      ensures forall n | n in handles.Keys && n != handle :: handles[n] == old(handles[n]) && n.key == old(n.key)
    {
      hide Items, Nodes, Valid, CountOf, Outstanding, DispositionsOk, TreeOk;
      Stop(handle, address, null);
      MarkClosing(handle);
    }

    method MarkClosing(handle: Node)
      requires Inv(null) && handle in handles && !handles[handle].closing && handle.key.signum == 0
      modifies `handles
      ensures Inv(null) && handles.Keys == old(handles.Keys) && handles[handle].closing
      ensures forall n | n in handles.Keys && n != handle :: handles[n] == old(handles[n])
    {
      hide Items, Nodes, Valid, CountOf, Outstanding, DispositionsOk, TreeOk;
      ghost var keys := handles.Keys;
      assert allocated(Nodes(tree.tree)) && allocated(keys);
      var h := handles[handle];
      OutstandingStep(h.caught, h.dispatched, CountOf(Pipe(handle.key.loop), handle));
      h := h.(closing := true);
      // If caught signals are still in the pipe, the close callback must wait for them.
      if h.caught == h.dispatched {
        h := h.(closePending := h.closePending + 1);
      }
      handles := handles[handle := h];
      assert handles.Keys == keys && TreeOk(keys);
      forall n | n in keys ensures HandleOk(n, null) {
        assert old(HandleOk(n, null));
      }
    }

    /** A user callback. The API forbids to start, stop or close a handle that is closing. */
    method Act(action: Action, address: nat)
      requires Inv(null)
      modifies `handles, `pipes, `dispositions, tree, handles.Keys
      ensures Inv(null) && handles.Keys == old(handles.Keys)
      ensures forall n | n in handles.Keys :: Later(old(handles[n]), handles[n]) && n.key.loop == old(n.key.loop)
      ensures forall l :: old(Pipe(l)) <= Pipe(l)
      ensures !action.Arrives? ==> pipes == old(pipes)
      ensures action.DoStop? && action.handle in handles && !old(handles[action.handle].closing) ==> action.handle.key.signum == 0
      ensures action.DoClose? && action.handle in handles ==> handles[action.handle].closing
      ensures action.DoStart? && action.handle in handles && !old(handles[action.handle].closing) && action.registered && action.signum != 0 ==>
                action.handle.key.signum == action.signum
    {
      hide Items, Nodes, Valid, CountOf, Outstanding, DispositionsOk, TreeOk, CountsOk, Sent, Registered;
      AtMostOnce();
      match action
      case DoStart(handle, signum, oneshot, registered) =>
        if handle in handles && !handles[handle].closing {
          var ok := Start(handle, signum, oneshot, registered, address, null);
        }
      case DoStop(handle) =>
        if handle in handles && !handles[handle].closing {
          Stop(handle, address, null);
        }
      case DoClose(handle) =>
        if handle in handles && !handles[handle].closing {
          Close(handle, address);
          AtMostOnce();
        }
      case Arrives(signum, written) =>
        if signum != 0 {
          ghost var s, were := Items(tree.tree), DispositionOf(signum);
          ghost var visited := Raise(signum, address, written, null);
          forall l ensures old(Pipe(l)) <= Pipe(l) {
            SentExtends(s, signum, written, l, old(Pipe(l)));
          }
        }
    }

    method Callback(actions: seq<Action>, address: nat)
      requires Inv(null)
      modifies `handles, `pipes, `dispositions, tree, handles.Keys
      ensures Inv(null) && handles.Keys == old(handles.Keys)
      ensures forall n | n in handles.Keys :: Later(old(handles[n]), handles[n]) && n.key.loop == old(n.key.loop)
      ensures forall l :: old(Pipe(l)) <= Pipe(l)
      ensures Quiet(actions) ==> pipes == old(pipes)
      ensures actions == [] ==> handles == old(handles) && dispositions == old(dispositions) && Nodes(tree.tree) == old(Nodes(tree.tree))
      ensures actions == [] ==> forall n | n in handles.Keys :: n.key == old(n.key)
    {
      hide Items, Nodes, Valid, CountOf, Outstanding, DispositionsOk, TreeOk, CountsOk;
      ghost var keys := handles.Keys;
      AtMostOnce();
      for i := 0 to |actions|
        invariant Inv(null) && handles.Keys == keys
        invariant forall n | n in keys :: Later(old(handles[n]), handles[n]) && n.key.loop == old(n.key.loop)
        invariant forall l :: old(Pipe(l)) <= Pipe(l)
        invariant Quiet(actions) ==> pipes == old(pipes)
        invariant i == 0 ==> handles == old(handles) && dispositions == old(dispositions) && Nodes(tree.tree) == old(Nodes(tree.tree))
        invariant i == 0 ==> forall n | n in keys :: n.key == old(n.key)
      {
        Act(actions[i], address);
      }
    }

    lemma AtMostOnce()
      requires CountsOk(null)
      ensures forall n | n in handles.Keys :: handles[n].closePending <= if handles[n].closing then 1 else 0
    {
      hide CountOf, Outstanding;
      forall n | n in handles.Keys ensures handles[n].closePending <= if handles[n].closing then 1 else 0 {
        assert HandleOk(n, null);
      }
    }

    /** Lines 463-483: one message read from the pipe; `called` tells whether the callback ran. */
    method Dispatch(loop: nat, actions: seq<Action>, address: nat) returns (called: bool)
      requires Inv(null) && Pipe(loop) != []
      modifies `handles, `pipes, `dispositions, tree, handles.Keys
      ensures Inv(null) && handles.Keys == old(handles.Keys)
      ensures forall n | n in handles.Keys :: Later(old(handles[n]), handles[n])
      ensures called <==> old(Pipe(loop)[0].signum == Pipe(loop)[0].handle.key.signum)
      ensures old(Pipe(loop))[1..] <= Pipe(loop) && (Quiet(actions) ==> Pipe(loop) == old(Pipe(loop))[1..])
      ensures var h := old(Pipe(loop)[0].handle); h in handles && (h.key.oneshot ==> h.key.signum == 0)
      ensures actions == [] || !called ==>
                var h := old(Pipe(loop)[0].handle);
                && (forall n | n in handles.Keys :: n.key == if n == h && old(n.key.oneshot) then old(n.key).(signum := 0) else old(n.key))
                && Nodes(tree.tree) == old(Nodes(tree.tree)) - (if old(Pipe(loop)[0].handle.key.oneshot) then {h} else {})
                && forall s | !old(Pipe(loop)[0].handle.key.oneshot) || s != old(Pipe(loop)[0].handle.key.signum) || s == 0 ::
                     DispositionOf(s) == old(DispositionOf(s))
    {
      hide Items, Nodes, Valid, CountOf, Outstanding, DispositionsOk, TreeOk, CountsOk;
      ghost var keys := handles.Keys;
      var msg := Pipe(loop)[0];
      var handle := msg.handle;
      HeadOk(loop);
      AtMostOnce();
      called := msg.signum == handle.key.signum;
      if called {
        assert !handles[handle].closing;
        Callback(actions, address);
      }
      assert Pipe(loop)[0] == msg;
      Settle(loop, handle, address);
    }

    /** Lines 471-483, after the callback. */
    method Settle(loop: nat, handle: Node, address: nat)
      requires Inv(null) && Pipe(loop) != [] && handle == Pipe(loop)[0].handle
      modifies `handles, `pipes, `dispositions, tree, handles.Keys
      ensures Inv(null) && handles.Keys == old(handles.Keys)
      ensures forall n | n in handles.Keys :: Later(old(handles[n]), handles[n])
      ensures Pipe(loop) == old(Pipe(loop))[1..] && handle in handles
      ensures handle.key == if old(handle.key.oneshot) then old(handle.key).(signum := 0) else old(handle.key)
      ensures forall n | n in handles.Keys && n != handle :: n.key == old(n.key)
      ensures Nodes(tree.tree) == old(Nodes(tree.tree)) - if old(handle.key.oneshot) then {handle} else {}
      ensures forall s | !old(handle.key.oneshot) || s != old(handle.key.signum) || s == 0 :: DispositionOf(s) == old(DispositionOf(s))
    {
      hide Items, Nodes, Valid, CountOf, Outstanding, DispositionsOk, TreeOk, CountsOk;
      ghost var keys := handles.Keys;
      AtMostOnce();
      HeadOk(loop);
      assert allocated(Nodes(tree.tree)) && allocated(keys) && TreeOk(keys);
      Consume(loop, handle);
      assert TreeOk(keys);
      if handle.key.oneshot {
        Stop(handle, address, handle);
      }
      // A close that had to wait for this message is made pending now.
      FinishClose(handle);
    }

    lemma HeadOk(loop: nat)
      requires CountsOk(null) && Pipe(loop) != []
      ensures Pipe(loop)[0].signum != 0 && Pipe(loop)[0].handle in handles && Pipe(loop)[0].handle.key.loop == loop
      ensures handles[Pipe(loop)[0].handle].closing ==> Pipe(loop)[0].handle.key.signum == 0
    {
      hide CountOf, Outstanding;
      assert HandleOk(pipes[loop][0].handle, null);
    }

    /** handle->dispatched_signals++; the message is no longer in flight. */
    method Consume(loop: nat, handle: Node)
      requires CountsOk(null) && Pipe(loop) != [] && handle == Pipe(loop)[0].handle && handle in handles && handle.key.loop == loop
      modifies `handles, `pipes
      ensures CountsOk(handle) && handles.Keys == old(handles.Keys) && Pipe(loop) == old(Pipe(loop))[1..]
      ensures handles == old(handles)[handle := old(handles[handle]).(dispatched := Increment(old(handles[handle].dispatched)))]
      ensures handles[handle].closePending == 0
    {
      hide CountOf, Outstanding, HandleFits;
      var p, h := Pipe(loop), handles[handle];
      assert HandleOk(handle, null);
      CountPop(p, handle);
      DispatchedFits(h, handle.key.signum, CountOf(p, handle));
      handles := handles[handle := h.(dispatched := Increment(h.dispatched))];
      pipes := pipes[loop := p[1..]];
      assert HandlesOk(handle) by {
        forall n | n in handles.Keys ensures HandleOk(n, handle) {
          assert old(HandleOk(n, null));
          CountPop(p, n);
        }
      }
      assert PipesOk() by {
        hide HandleOk, HandlesOk;
        assert old(PipeOk(p, loop, handles.Keys));
        assert PipeOk(p[1..], loop, handles.Keys);
      }
    }

    method FinishClose(handle: Node)
      requires Inv(handle) && handle in handles && handles[handle].closePending == 0
      modifies `handles
      ensures Inv(null) && handles.Keys == old(handles.Keys)
      ensures forall n | n in handles.Keys :: handles[n] == old(handles[n]).(closePending := handles[n].closePending)
      ensures forall n | n in handles.Keys && n != handle :: handles[n] == old(handles[n])
      ensures handles[handle].closePending <= 1
    {
      hide Items, Nodes, Valid, CountOf, Outstanding, DispositionsOk, TreeOk;
      ghost var keys := handles.Keys;
      assert allocated(Nodes(tree.tree)) && allocated(keys);
      var h := handles[handle];
      assert HandleOk(handle, handle);
      OutstandingStep(h.caught, h.dispatched, CountOf(Pipe(handle.key.loop), handle));
      if h.closing && h.caught == h.dispatched {
        handles := handles[handle := h.(closePending := h.closePending + 1)];
      }
      assert handles.Keys == keys && TreeOk(keys);
      forall n | n in keys ensures HandleOk(n, null) {
        assert old(HandleOk(n, handle));
      }
    }

    /**
     * One read of uv__signal_event: up to 32 messages are taken from the pipe and dispatched, while
     * the callbacks do what they like. `full` asks for another read.
     */
    method Event(loop: nat, script: nat -> seq<Action>, address: nat) returns (full: bool)
      requires Inv(null)
      modifies `handles, `pipes, `dispositions, tree, handles.Keys
      ensures Inv(null) && handles.Keys == old(handles.Keys)
      ensures forall n | n in handles.Keys :: Later(old(handles[n]), handles[n])
      ensures full <==> |old(Pipe(loop))| >= 32
      ensures Rest(old(Pipe(loop)), full) <= Pipe(loop)
      ensures (forall i :: Quiet(script(i))) ==> Pipe(loop) == Rest(old(Pipe(loop)), full)
      ensures (forall i :: script(i) == []) ==>
                var read := old(Pipe(loop))[..if full then 32 else |old(Pipe(loop))|];
                && (forall n | n in handles.Keys :: n.key == if old(n.key.oneshot) && Named(n, read) then old(n.key).(signum := 0) else old(n.key))
                && (forall s | s == 0 || (forall n | n in handles.Keys && old(n.key.oneshot) && Named(n, read) :: old(n.key.signum) != s) ::
                      DispositionOf(s) == old(DispositionOf(s)))
      ensures forall n | n in handles.Keys :: n in Nodes(tree.tree) <==> n.key.signum != 0
    {
      hide Items, Nodes, Valid, CountOf, Outstanding, DispositionsOk, TreeOk, CountsOk, Quiet, Named, Stopped, Undisturbed, Spared;
      ghost var keys, pipe, was, were := handles.Keys, Pipe(loop), map n | n in handles.Keys :: n.key, dispositions;
      NothingStopped(was, were);
      full := |Pipe(loop)| >= 32;
      var count := if full then 32 else |Pipe(loop)|;
      TakeAll(loop, count, script, address, was, were);
      assert pipe[..count] == Read(pipe, full);
      Started();
      if forall i :: script(i) == [] {
        Afterwards(was, were, pipe[..count]);
      }
    }

    /** The loop of lines 462-485. */
    method TakeAll(loop: nat, count: nat, script: nat -> seq<Action>, address: nat, ghost was: map<Node, Key>, ghost were: map<int, Disposition>)
      requires Inv(null) && count <= |Pipe(loop)| && was.Keys == handles.Keys
      requires Stopped(was, []) && Undisturbed(were, dispositions, was, [])
      modifies `handles, `pipes, `dispositions, tree, handles.Keys
      ensures Inv(null) && handles.Keys == old(handles.Keys) && old(Pipe(loop))[count..] <= Pipe(loop)
      ensures (forall i :: Quiet(script(i))) ==> Pipe(loop) == old(Pipe(loop))[count..]
      ensures forall n | n in handles.Keys :: Later(old(handles[n]), handles[n])
      ensures (forall i :: script(i) == []) ==>
                Stopped(was, old(Pipe(loop))[..count]) && Undisturbed(were, dispositions, was, old(Pipe(loop))[..count])
    {
      hide Items, Nodes, Valid, CountOf, Outstanding, DispositionsOk, TreeOk, CountsOk, Quiet, Named, Stopped, Undisturbed, Spared;
      ghost var keys, pipe := handles.Keys, Pipe(loop);
      AtMostOnce();
      for i := 0 to count
        invariant Inv(null) && handles.Keys == keys && i <= count && pipe[i..] <= Pipe(loop)
        invariant (forall i :: Quiet(script(i))) ==> Pipe(loop) == pipe[i..]
        invariant forall n | n in keys :: Later(old(handles[n]), handles[n])
        invariant (forall i :: script(i) == []) ==> Stopped(was, pipe[..i]) && Undisturbed(were, dispositions, was, pipe[..i])
      {
        TakeOne(loop, script(i), address, pipe, i, was, were);
      }
    }

    lemma Afterwards(was: map<Node, Key>, were: map<int, Disposition>, read: seq<Msg>)
      requires Stopped(was, read) && Undisturbed(were, dispositions, was, read)
      ensures forall n | n in was :: n.key == if was[n].oneshot && Named(n, read) then was[n].(signum := 0) else was[n]
      ensures forall s | s == 0 || (forall n | n in was && was[n].oneshot && Named(n, read) :: was[n].signum != s) :: DispositionOf(s) == Of(were, s)
    {
      hide Named;
      forall s | s == 0 || (forall n | n in was && was[n].oneshot && Named(n, read) :: was[n].signum != s) ensures DispositionOf(s) == Of(were, s) {
        assert s != 0 ==> Spared(s, was, read);
      }
    }

    /** Message i of those that were in the pipe. */
    method TakeOne(loop: nat, actions: seq<Action>, address: nat, ghost pipe: seq<Msg>, ghost i: nat,
                   ghost was: map<Node, Key>, ghost were: map<int, Disposition>)
      requires Inv(null) && i < |pipe| && pipe[i..] <= Pipe(loop) && was.Keys == handles.Keys
      modifies `handles, `pipes, `dispositions, tree, handles.Keys
      ensures Inv(null) && handles.Keys == old(handles.Keys) && pipe[i + 1..] <= Pipe(loop)
      ensures Quiet(actions) && old(Pipe(loop)) == pipe[i..] ==> Pipe(loop) == pipe[i + 1..]
      ensures forall n | n in handles.Keys :: Later(old(handles[n]), handles[n])
      ensures old(Stopped(was, pipe[..i]) && Undisturbed(were, dispositions, was, pipe[..i])) && actions == [] ==>
                Stopped(was, pipe[..i + 1]) && Undisturbed(were, dispositions, was, pipe[..i + 1])
    {
      hide Items, Nodes, Valid, CountOf, Outstanding, DispositionsOk, TreeOk, CountsOk, Quiet, Named, Undisturbed;
      ghost var now, d, h := Pipe(loop), dispositions, pipe[i].handle;
      HeadOk(loop);
      assert now[0] == pipe[i..][0] == pipe[i];
      var called := Dispatch(loop, actions, address);
      OneLess(pipe, i, now, Pipe(loop));
      assert pipe[i..][1..] == pipe[i + 1..];
      NamedMore(pipe, i);
      assert forall s :: DispositionOf(s) == Of(dispositions, s) && old(DispositionOf(s)) == Of(d, s);
      if actions == [] && old(Stopped(was, pipe[..i])) && Undisturbed(were, d, was, pipe[..i]) {
        StillUndisturbed(were, d, dispositions, was, pipe, i, old(h.key.signum));
      }
    }

    /**
     * The loop of uv__signal_event for so many reads at most; script(k)(i) is the callback of the i-th
     * message of the k-th read. The messages are `taken` in order. The loop ends when fewer than 32 have
     * been read at once, and then every message that was there at the beginning has been dispatched. It
     * has not ended after `limit` reads only if so many full reads have come; when no signal arrives
     * meanwhile it ends after as many reads as the messages fill, and one more.
     */
    method Events(limit: nat, loop: nat, script: nat -> nat -> seq<Action>, address: nat) returns (done: bool, ghost taken: seq<Msg>)
      requires Inv(null)
      modifies `handles, `pipes, `dispositions, tree, handles.Keys
      ensures Inv(null) && handles.Keys == old(handles.Keys)
      ensures forall n | n in handles.Keys :: Later(old(handles[n]), handles[n])
      ensures old(Pipe(loop)) <= taken + Pipe(loop)
      ensures if done then old(Pipe(loop)) <= taken && |taken| < 32 * limit else |taken| == 32 * limit
      ensures (forall k, i :: Quiet(script(k)(i))) ==>
                taken + Pipe(loop) == old(Pipe(loop)) && (done <==> |old(Pipe(loop))| < 32 * limit) && (done ==> Pipe(loop) == [])
      ensures (forall k, i :: script(k)(i) == []) ==>
                && (forall n | n in handles.Keys :: n.key == if old(n.key.oneshot) && Named(n, taken) then old(n.key).(signum := 0) else old(n.key))
                && (forall s | s == 0 || (forall n | n in handles.Keys && old(n.key.oneshot) && Named(n, taken) :: old(n.key.signum) != s) ::
                      DispositionOf(s) == old(DispositionOf(s)))
      ensures forall n | n in handles.Keys :: n in Nodes(tree.tree) <==> n.key.signum != 0
    {
      hide Items, Nodes, Valid, CountOf, Outstanding, DispositionsOk, TreeOk, CountsOk, Quiet, Named, Stopped, Undisturbed, Spared;
      ghost var was, were := map n | n in handles.Keys :: n.key, dispositions;
      NothingStopped(was, were);
      done, taken := ReadFor(limit, loop, script, address, was, were);
      Finally(was, were, taken);
    }

    method ReadFor(limit: nat, loop: nat, script: nat -> nat -> seq<Action>, address: nat,
                   ghost was: map<Node, Key>, ghost were: map<int, Disposition>) returns (done: bool, ghost taken: seq<Msg>)
      requires Inv(null) && was.Keys == handles.Keys && Stopped(was, []) && Undisturbed(were, dispositions, was, [])
      modifies `handles, `pipes, `dispositions, tree, handles.Keys
      ensures Inv(null) && handles.Keys == old(handles.Keys)
      ensures forall n | n in handles.Keys :: Later(old(handles[n]), handles[n])
      ensures old(Pipe(loop)) <= taken + Pipe(loop)
      ensures if done then old(Pipe(loop)) <= taken && |taken| < 32 * limit else |taken| == 32 * limit
      ensures (forall k, i :: Quiet(script(k)(i))) ==>
                taken + Pipe(loop) == old(Pipe(loop)) && (done <==> |old(Pipe(loop))| < 32 * limit) && (done ==> Pipe(loop) == [])
      ensures (forall k, i :: script(k)(i) == []) ==> Stopped(was, taken) && Undisturbed(were, dispositions, was, taken)
      ensures forall n | n in handles.Keys :: n in Nodes(tree.tree) <==> n.key.signum != 0
    {
      hide Items, Nodes, Valid, CountOf, Outstanding, DispositionsOk, TreeOk, CountsOk, Quiet, Rest, Read, Named, Stopped, Undisturbed, Spared;
      ghost var keys, pipe := handles.Keys, Pipe(loop);
      AtMostOnce();
      Started();
      taken := [];
      for k := 0 to limit
        invariant Inv(null) && handles.Keys == keys && |taken| == 32 * k && pipe <= taken + Pipe(loop)
        invariant (forall k, i :: Quiet(script(k)(i))) ==> taken + Pipe(loop) == pipe
        invariant forall n | n in keys :: Later(old(handles[n]), handles[n])
        invariant (forall k, i :: script(k)(i) == []) ==> Stopped(was, taken) && Undisturbed(were, dispositions, was, taken)
        invariant forall n | n in keys :: n in Nodes(tree.tree) <==> n.key.signum != 0
      {
        ghost var now := Pipe(loop);
        var full := ReadOn(loop, script(k), address, taken, was, were);
        ReadMore(pipe, taken, now, full, Pipe(loop));
        taken := taken + Read(now, full);
        if !full {
          return true, taken;
        }
      }
      done := false;
    }

    lemma Finally(was: map<Node, Key>, were: map<int, Disposition>, read: seq<Msg>)
      ensures Stopped(was, read) && Undisturbed(were, dispositions, was, read) ==>
                && (forall n | n in was :: n.key == if was[n].oneshot && Named(n, read) then was[n].(signum := 0) else was[n])
                && (forall s | s == 0 || (forall n | n in was && was[n].oneshot && Named(n, read) :: was[n].signum != s) :: DispositionOf(s) == Of(were, s))
    {
      hide Named;
      if Stopped(was, read) && Undisturbed(were, dispositions, was, read) {
        Afterwards(was, were, read);
      }
    }

    /** One more read, after those of `taken`. */
    method ReadOn(loop: nat, script: nat -> seq<Action>, address: nat, ghost taken: seq<Msg>,
                  ghost was: map<Node, Key>, ghost were: map<int, Disposition>) returns (full: bool)
      requires Inv(null) && was.Keys == handles.Keys
      modifies `handles, `pipes, `dispositions, tree, handles.Keys
      ensures Inv(null) && handles.Keys == old(handles.Keys)
      ensures forall n | n in handles.Keys :: Later(old(handles[n]), handles[n])
      ensures full <==> |old(Pipe(loop))| >= 32
      ensures Rest(old(Pipe(loop)), full) <= Pipe(loop)
      ensures (forall i :: Quiet(script(i))) ==> Pipe(loop) == Rest(old(Pipe(loop)), full)
      ensures old(Stopped(was, taken) && Undisturbed(were, dispositions, was, taken)) && (forall i :: script(i) == []) ==>
                var more := taken + Read(old(Pipe(loop)), full); Stopped(was, more) && Undisturbed(were, dispositions, was, more)
      ensures forall n | n in handles.Keys :: n in Nodes(tree.tree) <==> n.key.signum != 0
    {
      hide Items, Nodes, Valid, CountOf, Outstanding, DispositionsOk, TreeOk, CountsOk, Quiet, Rest, Named, Stopped, Undisturbed;
      ghost var now, mid, d := Pipe(loop), map n | n in handles.Keys :: n.key, dispositions;
      assert forall s :: DispositionOf(s) == Of(d, s);
      MidStopped(was, mid, taken);
      full := Event(loop, script, address);
      ghost var read := now[..if full then 32 else |now|];
      if StoppedKeys(was, mid, taken) && Undisturbed(were, d, was, taken) && forall i :: script(i) == [] {
        assert forall s | s == 0 || Spared(s, mid, read) :: DispositionOf(s) == Of(d, s);
        assert forall s :: DispositionOf(s) == Of(dispositions, s);
        StoppedTwice(was, mid, taken, read);
        UndisturbedTwice(were, d, dispositions, was, mid, taken, read);
      }
    }

    lemma MidStopped(was: map<Node, Key>, mid: map<Node, Key>, taken: seq<Msg>)
      requires was.Keys == mid.Keys && forall n | n in mid :: n.key == mid[n]
      ensures Stopped(was, taken) <==> StoppedKeys(was, mid, taken)
    {
      hide Named;
    }

    /**
     * The close of a handle is pending, once, exactly when it is closing and no message in any pipe
     * names it: only then may its memory go. Until then the callback of a message is never run for it.
     */
    lemma ReleaseIsSafe(n: Node)
      requires Inv(null) && n in handles
      ensures handles[n].closePending == (if handles[n].closing && !InFlight(n) then 1 else 0)
      ensures handles[n].closing ==> n !in Nodes(tree.tree)
      ensures forall l, i | l in pipes.Keys && 0 <= i < |pipes[l]| && handles[pipes[l][i].handle].closing ::
        pipes[l][i].signum != pipes[l][i].handle.key.signum
    {
      hide CountOf, Outstanding, Nodes, Items, Valid, DispositionsOk;
      assert HandleOk(n, null);
      var loop := n.key.loop;
      if InFlight(n) {
        var l, i :| l in pipes.Keys && 0 <= i < |pipes[l]| && pipes[l][i].handle == n;
        assert PipeOk(pipes[l], l, handles.Keys);
        CountPositive(pipes[l], n, i);
      } else {
        CountZero(Pipe(loop), n);
      }
      forall l, i | l in pipes.Keys && 0 <= i < |pipes[l]| && handles[pipes[l][i].handle].closing
        ensures pipes[l][i].signum != pipes[l][i].handle.key.signum
      {
        assert PipeOk(pipes[l], l, handles.Keys);
        assert HandleOk(pipes[l][i].handle, null);
      }
    }

    ghost predicate InFlight(n: Node)
      reads `pipes
    {
      exists l, i :: l in pipes.Keys && 0 <= i < |pipes[l]| && pipes[l][i].handle == n
    }

    lemma TreeFacts(keys: set<Node>)
      requires TreeOk(keys)
      ensures Valid(tree) && tree.Ok() && Sorted(Items(tree.tree)) && Nodes(tree.tree) <= keys
      ensures forall n | n in Nodes(tree.tree) :: n.key.loop > 0
    {}

    lemma ItemKey(keys: set<Node>, i: nat)
      requires TreeOk(keys) && i < |Items(tree.tree)|
      ensures Items(tree.tree)[i].key == Items(tree.tree)[i].node.key && Items(tree.tree)[i].node in keys
    {
      hide Items, Nodes, DispositionsOk;
      NodeIsItem(tree.tree, null);
      assert Items(tree.tree)[i] in Items(tree.tree);
    }
  }

  /** Only the count of caught signals may differ. */
  ghost predicate SameBut(a: Handle, b: Handle) {
    b == a.(caught := b.caught)
  }

  /** In a sorted sequence, what the item at the lower bound says about all the others. */
  lemma BlockFacts(s: seq<Item>, signum: int, at: nat)
    requires Sorted(s) && at <= |s|
    requires forall j :: 0 <= j < at ==> s[j].key.signum < signum
    ensures at == |s| || s[at].key.signum > signum ==> forall x :: x in s ==> x.key.signum != signum
    ensures at < |s| && s[at].key.signum == signum && s[at].key.oneshot ==>
      forall x :: x in s && x.key.signum == signum ==> x.key.oneshot
  {
    forall x | x in s && x.key.signum == signum
      ensures at < |s| && s[at].key.signum <= signum
      ensures s[at].key.signum == signum && s[at].key.oneshot ==> x.key.oneshot
    {
      var j :| 0 <= j < |s| && s[j] == x;
      assert at < j ==> Less(s[at].key, s[j].key);
    }
  }

  /**
   * A one-shot handle is started, its signal arrives, and a second one is started before the first
   * is dispatched: the second is never called, not even when the first has been stopped.
   */
  method UncaughtStart(signum: int, address: nat) returns (w: Watchers, second: Node)
    requires signum != 0
    ensures w.Inv(null) && second in w.handles && second in Nodes(w.tree.tree) && second.key.signum == signum
    ensures w.DispositionOf(signum) == Default
  {
    hide Nodes, Watchers.CountsOk, Watchers.DispositionsOk, Watchers.ShapeOk;
    w := new Watchers();
    var first := w.Init(1, 1);
    second := w.Init(1, 2);
    w.Started();
    assert w.Unwatched(signum);
    var ok := w.Start(first, signum, true, true, address, null);
    w.Started();
    ghost var visited := w.Raise(signum, address, n => true, null);
    ok := w.Start(second, signum, true, true, address, null);
    w.Started();
    w.Stop(first, address, null);
    w.Started();
  }
}
