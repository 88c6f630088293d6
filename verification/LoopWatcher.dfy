/**
 * The prepare, check and idle handles of libuv/src/unix/loop-watcher.c. A pass moves the handles to
 * a list of its own and runs them from there, while their callbacks start and stop handles.
 */
module LoopWatcher {
  import opened Sequences
  import Q = Queue

  const UV_EINVAL := -22

  /** What a callback does to a handle; `cb` says whether a callback is given. */
  datatype Op = Start(h: Q.Node, cb: bool) | Stop(h: Q.Node)

  /** The loop's list, and the list of the pass under way. */
  datatype Lists = Lists(linked: seq<Q.Node>, waiting: seq<Q.Node>)

  predicate IsActive(l: Lists, h: Q.Node) {
    h in l.linked || h in l.waiting
  }

  function Apply(l: Lists, op: Op): Lists {
    match op
    case Start(h, cb) => if IsActive(l, h) || !cb then l else l.(linked := [h] + l.linked)
    case Stop(h) => Lists(Without(l.linked, h), Without(l.waiting, h))
  }

  function ApplyAll(l: Lists, ops: seq<Op>): Lists
    decreases |ops|
  {
    if ops == [] then l else ApplyAll(Apply(l, ops[0]), ops[1..])
  }

  /** The first waiting handle goes to the end of the loop's list, and its callback runs. */
  function Turn(l: Lists, ops: seq<Op>): Lists
    requires l.waiting != []
  {
    ApplyAll(Lists(l.linked + [l.waiting[0]], l.waiting[1..]), ops)
  }

  function Script(scripts: seq<seq<Op>>, k: nat): seq<Op> {
    if k < |scripts| then scripts[k] else []
  }

  /** The handles a pass runs from its k-th callback on, and the loop's list at its end. */
  function Pass(l: Lists, scripts: seq<seq<Op>>, k: nat): (seq<Q.Node>, seq<Q.Node>)
    decreases |l.waiting|
  {
    if l.waiting == [] then ([], l.linked)
    else
      WaitingShrinks(Lists(l.linked + [l.waiting[0]], l.waiting[1..]), Script(scripts, k));
      var p := Pass(Turn(l, Script(scripts, k)), scripts, k + 1);
      ([l.waiting[0]] + p.0, p.1)
  }

  lemma {:induction false} WithoutShrinks(q: seq<Q.Node>, x: Q.Node)
    ensures |Without(q, x)| <= |q|
  {
    if q != [] {
      WithoutShrinks(q[1..], x);
    }
  }

  lemma {:induction false} WaitingShrinks(l: Lists, ops: seq<Op>)
    ensures |ApplyAll(l, ops).waiting| <= |l.waiting|
    decreases |ops|
  {
    if ops != [] {
      WithoutShrinks(l.waiting, ops[0].h);
      WaitingShrinks(Apply(l, ops[0]), ops[1..]);
    }
  }

  class Loop {
    const head: Q.Node
    /** The handles with UV_HANDLE_ACTIVE. */
    var active: set<Q.Node>
    /** Every handle that was initialised, the lists, and the head of the last pass's list. */
    ghost var all: set<Q.Node>
    ghost var lists: Lists
    ghost var queue: Q.Node

    constructor ()
      ensures Inv() && fresh(head) && fresh(queue) && all == {} && lists == Lists([], [])
    {
      head := new Q.Node();
      var none := new Q.Node();
      queue := none;
      active, all, lists := {}, {}, Lists([], []);
      new;
      Q.PathOfTwo(head, head);
      Q.OneIsDistinctOf(head);
      Q.PathOfTwo(queue, queue);
      Q.OneIsDistinctOf(queue);
    }

    ghost predicate Inv()
      reads this, head, queue, lists.linked, lists.waiting
    {
      Q.Ring([head] + lists.linked) && Q.Ring([queue] + lists.waiting) && SetsOk(head, queue, all, lists, active)
    }

    method StartHandle(h: Q.Node, cb: bool) returns (err: int)
      requires Inv() && h in all
      modifies `active, `lists, head, all
      ensures Inv() && lists == Apply(old(lists), Start(h, cb))
      ensures lists.waiting == old(lists.waiting)
      ensures lists.linked == if h in old(active) || !cb then old(lists.linked) else [h] + old(lists.linked)
      ensures err == if h !in old(active) && !cb then UV_EINVAL else 0
    {
      hide Q.Ring, NoDuplicates;
      if h in active {
        return 0;
      }
      if !cb {
        return UV_EINVAL;
      }
      Q.HeadOf(head, lists.linked);
      Apart(head, lists.linked, queue, lists.waiting);
      assert head in [head] + lists.linked && head.next in [head] + lists.linked && h !in [queue] + lists.waiting;
      Q.InsertHead(head, h, lists.linked);
      assert Q.Ring([queue] + lists.waiting);
      AfterStart(head, queue, all, lists, active, h);
      active := active + {h};
      lists := lists.(linked := [h] + lists.linked);
      return 0;
    }

    method StopHandle(h: Q.Node)
      requires Inv() && h in all
      modifies `active, `lists, head, queue, all
      ensures Inv() && lists == Apply(old(lists), Stop(h)) && h !in active
      ensures Q.Elems(lists.linked) == Q.Elems(old(lists.linked)) - {h} && Q.Elems(lists.waiting) == Q.Elems(old(lists.waiting)) - {h}
    {
      hide Q.Ring, Q.Path, Q.Init, Q.Tail, Q.Link, Without, NoDuplicates, SetsOk, Apply;
      StopIs(lists, h);
      AfterStop(head, queue, all, lists, active, h);
      if h !in active {
        WhereIs(head, queue, all, lists, active, h);
        NotThere(lists.linked, h);
        NotThere(lists.waiting, h);
        return;
      }
      Unlist(h);
      active := active - {h};
      lists := Apply(lists, Stop(h));
    }

    /** The handle is unlinked from the list that has it, and the other list is left alone. */
    method Unlist(h: Q.Node)
      requires Inv() && h in active
      modifies head, queue, all
      ensures Q.Ring([head] + Without(lists.linked, h)) && Q.Ring([queue] + Without(lists.waiting, h))
    {
      hide Q.Ring, Without, NoDuplicates, SetsOk;
      ghost var inLoop := h in lists.linked;
      WhereIs(head, queue, all, lists, active, h);
      RingIn(head, lists.linked);
      RingIn(queue, lists.waiting);
      ghost var here, there := if inLoop then head else queue, if inLoop then queue else head;
      ghost var mine, others := if inLoop then lists.linked else lists.waiting, if inLoop then lists.waiting else lists.linked;
      Apart(here, mine, there, others);
      Detach(h, here, mine, there, others);
    }

    method Callback(ops: seq<Op>)
      requires Inv() && forall op | op in ops :: op.h in all
      modifies `active, `lists, head, queue, all
      ensures Inv() && lists == ApplyAll(old(lists), ops)
    {
      hide Q.Ring, SetsOk, Apply;
      assert ops[0..] == ops;
      for i := 0 to |ops|
        invariant Inv() && ApplyAll(old(lists), ops) == ApplyAll(lists, ops[i..])
      {
        assert ops[i..][1..] == ops[i + 1..] && ops[i..][0] == ops[i];
        match ops[i]
        case Start(h, cb) =>
          var err := StartHandle(h, cb);
        case Stop(h) =>
          StopHandle(h);
      }
      assert ops[|ops|..] == [];
    }

    /**
     * uv__run_prepare and its like; the k-th callback does scripts[k]. What is run, and what the
     * loop's list is then, is said by Pass, see the lemmas below.
     */
    method Run(scripts: seq<seq<Op>>) returns (called: seq<Q.Node>)
      requires Inv() && lists.waiting == []
      requires forall s | s in scripts :: forall op | op in s :: op.h in all
      modifies `active, `lists, `queue, head, all
      ensures Inv() && lists.waiting == []
      ensures called == Pass(Lists([], old(lists.linked)), scripts, 0).0
      ensures lists.linked == Pass(Lists([], old(lists.linked)), scripts, 0).1
    {
      hide Q.Ring, SetsOk, Pass, Passed, ApplyAll;
      var temp := new Q.Node();
      Take(temp);
      called := [];
      ghost var start := lists;
      var k := 0;
      Q.HeadOf(temp, lists.waiting);
      PassedAtStart(start, scripts);
      while temp.next != temp
        invariant Inv() && queue == temp && k >= 0
        invariant if lists.waiting == [] then temp.next == temp else temp.next == lists.waiting[0] != temp
        invariant Passed(start, scripts, called, lists, k)
        decreases |lists.waiting|
      {
        var q := temp.next;
        ghost var before := lists;
        PassedTurn(start, scripts, called, before, k);
        Requeue(q);
        var ops := if k < |scripts| then scripts[k] else [];
        assert ops == [] || ops in scripts;
        Callback(ops);
        WaitingShrinks(Lists(before.linked + [q], before.waiting[1..]), ops);
        called := called + [q];
        k := k + 1;
        Q.HeadOf(temp, lists.waiting);
        HeadWaits(temp, lists.waiting);
      }
      PassedAtEnd(start, scripts, called, lists, k);
    }

    /** QUEUE_MOVE to the list of this pass. */
    method Take(temp: Q.Node)
      requires Inv() && lists.waiting == [] && temp != head && temp !in all
      modifies `lists, `queue, head, all, temp
      ensures Inv() && queue == temp && lists == Lists([], old(lists.linked)) && temp !in lists.waiting
    {
      hide Q.Ring, NoDuplicates;
      RingIn(head, lists.linked);
      assert temp !in [head] + lists.linked && head in [head] + lists.linked;
      Q.HeadOf(head, lists.linked);
      Q.Move(head, temp, lists.linked);
      queue := temp;
      lists := Lists([], lists.linked);
      assert [head] + [] == [head];
    }

    /** Lines 54-57: the first waiting handle goes to the end of the loop's list. */
    method Requeue(q: Q.Node)
      requires Inv() && lists.waiting != [] && q == lists.waiting[0]
      modifies `lists, head, queue, all
      ensures Inv() && lists == Lists(old(lists.linked) + [q], old(lists.waiting)[1..])
    {
      hide Q.Ring, NoDuplicates;
      ghost var rest := lists.waiting[1..];
      assert lists.waiting == [q] + rest;
      RingIn(queue, lists.waiting);
      RingIn(head, lists.linked);
      Apart(queue, lists.waiting, head, lists.linked);
      ToTheEnd(q, queue, rest, head, lists.linked);
      AfterRequeue(head, queue, all, lists, active);
      lists := Lists(lists.linked + [q], rest);
    }
  }

  /** QUEUE_REMOVE and QUEUE_INSERT_TAIL of the first entry. */
  method ToTheEnd(q: Q.Node, ghost queue: Q.Node, ghost rest: seq<Q.Node>, head: Q.Node, ghost linked: seq<Q.Node>)
    requires Q.Ring([queue] + ([q] + rest)) && Q.Ring([head] + linked)
    requires forall x | x in [queue] + ([q] + rest) :: x !in [head] + linked
    modifies queue, q, Q.Elems(rest), head, Q.Elems(linked)
    ensures Q.Ring([queue] + rest) && Q.Ring([head] + (linked + [q]))
  {
    hide Q.Ring, Q.Path, Q.Init, Q.Tail, NoDuplicates;
    RingIn(queue, [q] + rest);
    Among(queue, q, rest);
    Q.HeadOf(head, linked);
    assert head.prev in [head] + linked && head in [head] + linked;
    ghost var last := head.prev;
    Q.Remove(q, [queue], rest);
    assert head.prev == last;
    Q.InsertTail(head, q, linked);
  }

  lemma Among<T>(h: T, q: T, rest: seq<T>)
    ensures q in [h] + ([q] + rest) && forall x | x in [h] + rest :: x in [h] + ([q] + rest)
  {
    assert forall i :: 0 <= i < |rest| ==> ([h] + ([q] + rest))[i + 2] == rest[i];
    assert ([h] + ([q] + rest))[1] == q && ([h] + ([q] + rest))[0] == h;
  }

  /** The pass from start, after the callbacks of `called` and with the lists now. */
  ghost predicate Passed(start: Lists, scripts: seq<seq<Op>>, called: seq<Q.Node>, now: Lists, k: nat) {
    called + Pass(now, scripts, k).0 == Pass(start, scripts, 0).0 && Pass(now, scripts, k).1 == Pass(start, scripts, 0).1
  }

  lemma PassedAtStart(start: Lists, scripts: seq<seq<Op>>)
    ensures Passed(start, scripts, [], start, 0)
  {
    assert [] + Pass(start, scripts, 0).0 == Pass(start, scripts, 0).0;
  }

  lemma PassedTurn(start: Lists, scripts: seq<seq<Op>>, called: seq<Q.Node>, now: Lists, k: nat)
    requires Passed(start, scripts, called, now, k) && now.waiting != []
    ensures Passed(start, scripts, called + [now.waiting[0]], Turn(now, Script(scripts, k)), k + 1)
  {
    var rest := Pass(Turn(now, Script(scripts, k)), scripts, k + 1).0;
    assert called + ([now.waiting[0]] + rest) == called + [now.waiting[0]] + rest;
  }

  lemma PassedAtEnd(start: Lists, scripts: seq<seq<Op>>, called: seq<Q.Node>, now: Lists, k: nat)
    requires Passed(start, scripts, called, now, k) && now.waiting == []
    ensures Pass(start, scripts, 0) == (called, now.linked)
  {
    assert called + [] == called;
  }

  lemma HeadWaits(h: Q.Node, items: seq<Q.Node>)
    requires Q.Ring([h] + items)
    ensures h !in items
  {
    Q.Opened(h, items);
  }

  /** A handle is active just when it is in one of the lists, and it is in one only. */
  ghost predicate SetsOk(head: Q.Node, queue: Q.Node, all: set<Q.Node>, l: Lists, active: set<Q.Node>) {
    && head != queue && head !in all && queue !in all
    && (forall h | h in l.linked :: h in all && h !in l.waiting)
    && (forall h | h in l.waiting :: h in all)
    && active == Q.Elems(l.linked) + Q.Elems(l.waiting)
    && NoDuplicates(l.linked) && NoDuplicates(l.waiting)
  }

  lemma AfterStart(head: Q.Node, queue: Q.Node, all: set<Q.Node>, l: Lists, active: set<Q.Node>, h: Q.Node)
    requires SetsOk(head, queue, all, l, active) && h in all && h !in active
    ensures SetsOk(head, queue, all, l.(linked := [h] + l.linked), active + {h})
  {
    hide NoDuplicates;
    Q.OneIsDistinctOf(h);
    Joined([h], l.linked);
    var l' := l.(linked := [h] + l.linked);
    assert Q.Elems(l'.linked) == {h} + Q.Elems(l.linked);
    assert h !in l.linked && h !in l.waiting;
  }

  lemma AfterRequeue(head: Q.Node, queue: Q.Node, all: set<Q.Node>, l: Lists, active: set<Q.Node>)
    requires SetsOk(head, queue, all, l, active) && l.waiting != []
    ensures SetsOk(head, queue, all, Lists(l.linked + [l.waiting[0]], l.waiting[1..]), active)
  {
    hide NoDuplicates;
    var q, rest := l.waiting[0], l.waiting[1..];
    assert l.waiting == [q] + rest;
    Parts([q], rest);
    Appended(l.linked, q);
    assert Q.Elems(l.linked + [q]) == Q.Elems(l.linked) + {q};
    assert Q.Elems(l.waiting) == {q} + Q.Elems(rest);
  }

  lemma StopIs(l: Lists, h: Q.Node)
    ensures Apply(l, Stop(h)) == Lists(Without(l.linked, h), Without(l.waiting, h))
  {}

  lemma AfterStop(head: Q.Node, queue: Q.Node, all: set<Q.Node>, l: Lists, active: set<Q.Node>, h: Q.Node)
    requires SetsOk(head, queue, all, l, active) && h in all
    ensures SetsOk(head, queue, all, Apply(l, Stop(h)), active - {h})
    ensures Q.Elems(Without(l.linked, h)) == Q.Elems(l.linked) - {h} && Q.Elems(Without(l.waiting, h)) == Q.Elems(l.waiting) - {h}
  {
    hide NoDuplicates, Without;
    WithoutIs(l.linked, h);
    WithoutIs(l.waiting, h);
    assert Q.Elems(Without(l.linked, h)) == Q.Elems(l.linked) - {h};
    assert Q.Elems(Without(l.waiting, h)) == Q.Elems(l.waiting) - {h};
  }

  lemma WhereIs(head: Q.Node, queue: Q.Node, all: set<Q.Node>, l: Lists, active: set<Q.Node>, h: Q.Node)
    requires SetsOk(head, queue, all, l, active)
    ensures if h in active then h in l.linked <==> h !in l.waiting else h !in l.linked && h !in l.waiting
    ensures head != queue && head !in l.linked && head !in l.waiting && queue !in l.linked && queue !in l.waiting
    ensures forall x | x in l.linked :: x in all && x !in l.waiting
    ensures forall x | x in l.waiting :: x in all && x !in l.linked
  {
    hide NoDuplicates;
  }

  /** Two lists have no node in common. */
  lemma Apart(h: Q.Node, a: seq<Q.Node>, g: Q.Node, b: seq<Q.Node>)
    requires h != g && h !in b && g !in a && forall x | x in a :: x !in b
    ensures forall x | x in [h] + a :: x !in [g] + b
  {
  }

  /** QUEUE_REMOVE of an entry, wherever it is. */
  method Unlink(ghost head: Q.Node, ghost items: seq<Q.Node>, h: Q.Node)
    requires Q.Ring([head] + items) && h in items
    modifies h.prev`next, h.next`prev
    ensures Q.Ring([head] + Without(items, h))
  {
    hide Q.Ring;
    ghost var a, b := Around(items, h);
    assert [head] + items == [head] + a + ([h] + b);
    Q.Remove(h, [head] + a, b);
    assert [head] + a + b == [head] + (a + b);
  }

  /** The same, and another list is left alone. */
  method Detach(h: Q.Node, ghost head: Q.Node, ghost items: seq<Q.Node>, ghost other: Q.Node, ghost rest: seq<Q.Node>)
    requires Q.Ring([head] + items) && Q.Ring([other] + rest) && h in items && forall x | x in [head] + items :: x !in [other] + rest
    modifies h.prev`next, h.next`prev
    ensures Q.Ring([head] + Without(items, h)) && Q.Ring([other] + Without(rest, h))
  {
    hide Q.Ring;
    RingIn(head, items);
    assert h in [head] + items;
    assert h !in rest by {
      assert h in rest ==> h in [other] + rest;
    }
    NotThere(rest, h);
    Unlink(head, items, h);
  }

  ghost method Around(items: seq<Q.Node>, h: Q.Node) returns (a: seq<Q.Node>, b: seq<Q.Node>)
    requires h in items
    ensures items == a + ([h] + b) && Without(items, h) == a + b
  {
    if items[0] == h {
      a, b := [], items[1..];
    } else {
      a, b := Around(items[1..], h);
      a := [items[0]] + a;
    }
  }

  lemma RingIn(head: Q.Node, items: seq<Q.Node>)
    requires Q.Ring([head] + items)
    ensures head !in items && NoDuplicates(items)
    ensures forall h | h in items :: h.next in [head] + items && h.prev in [head] + items
  {
    Q.Opened(head, items);
    forall h | h in items ensures h.next in [head] + items && h.prev in [head] + items {
      InnerLinks([head] + items, h);
    }
  }

  lemma {:induction false} InnerLinks(nodes: seq<Q.Node>, h: Q.Node)
    requires Q.Ring(nodes) && h in nodes
    ensures h.next in nodes && h.prev in nodes
  {
    hide Q.Path, NoDuplicates;
    var i :| 0 <= i < |nodes| && nodes[i] == h;
    Neighbours(nodes[..i], h, nodes[i + 1..], nodes);
  }

  lemma Neighbours(x: seq<Q.Node>, h: Q.Node, z: seq<Q.Node>, nodes: seq<Q.Node>)
    requires Q.Ring(nodes) && nodes == x + ([h] + z)
    ensures h.next in nodes && h.prev in nodes
  {
    hide Q.Path, NoDuplicates;
    if x != [] {
      Q.PathSplit(x, [h] + z);
      assert h.prev == x[|x| - 1];
    }
    if z != [] {
      assert nodes == x + [h] + z;
      Q.PathSplit(x + [h], z);
      assert h.next == z[0];
    }
  }

  // ---------- What a pass runs ----------

  /** q without some of its entries, in the same order. */
  predicate Thinned(p: seq<Q.Node>, q: seq<Q.Node>)
    decreases |q|
  {
    if q == [] then p == []
    else Thinned(p, q[1..]) || (p != [] && p[0] == q[0] && Thinned(p[1..], q[1..]))
  }

  lemma {:induction false} ThinnedSelf(q: seq<Q.Node>)
    ensures Thinned(q, q)
  {
    if q != [] {
      ThinnedSelf(q[1..]);
    }
  }

  lemma {:induction false} ThinnedWithout(q: seq<Q.Node>, x: Q.Node)
    ensures Thinned(Without(q, x), q)
  {
    if q != [] {
      if q[0] == x {
        ThinnedSelf(q[1..]);
      } else {
        ThinnedWithout(q[1..], x);
        assert Without(q, x)[1..] == Without(q[1..], x);
      }
    }
  }

  lemma {:induction false} ThinnedTwice(p: seq<Q.Node>, q: seq<Q.Node>, r: seq<Q.Node>)
    requires Thinned(p, q) && Thinned(q, r)
    ensures Thinned(p, r)
    decreases |q| + |r|
  {
    if r != [] {
      if Thinned(q, r[1..]) {
        ThinnedTwice(p, q, r[1..]);
      } else if Thinned(p, q[1..]) {
        ThinnedTwice(p, q[1..], r[1..]);
      } else {
        ThinnedTwice(p[1..], q[1..], r[1..]);
      }
    }
  }

  lemma {:induction false} ThinnedMembers(p: seq<Q.Node>, q: seq<Q.Node>)
    requires Thinned(p, q) && NoDuplicates(q)
    ensures NoDuplicates(p) && forall x | x in p :: x in q
    decreases |q|
  {
    if q != [] {
      assert q == [q[0]] + q[1..];
      Parts([q[0]], q[1..]);
      if Thinned(p, q[1..]) {
        ThinnedMembers(p, q[1..]);
      } else {
        ThinnedMembers(p[1..], q[1..]);
        assert p == [p[0]] + p[1..];
        Joined([p[0]], p[1..]);
      }
    }
  }

  /** x comes somewhere before y. */
  ghost predicate Precedes(q: seq<Q.Node>, x: Q.Node, y: Q.Node) {
    exists i, j :: 0 <= i < j < |q| && q[i] == x && q[j] == y
  }

  lemma {:induction false} ThinnedOrder(p: seq<Q.Node>, q: seq<Q.Node>, x: Q.Node, y: Q.Node)
    requires Thinned(p, q) && Precedes(p, x, y)
    ensures Precedes(q, x, y)
    decreases |q|
  {
    var i, j :| 0 <= i < j < |p| && p[i] == x && p[j] == y;
    if Thinned(p, q[1..]) {
      ThinnedOrder(p, q[1..], x, y);
      Later(q, x, y);
    } else if i > 0 {
      assert p[1..][i - 1] == x && p[1..][j - 1] == y;
      ThinnedOrder(p[1..], q[1..], x, y);
      Later(q, x, y);
    } else {
      assert p[1..][j - 1] == y;
      ThinnedHas(p[1..], q[1..], y);
      var k :| 0 <= k < |q[1..]| && q[1..][k] == y;
      assert q[0] == x && q[k + 1] == y;
    }
  }

  lemma Later(q: seq<Q.Node>, x: Q.Node, y: Q.Node)
    requires q != [] && Precedes(q[1..], x, y)
    ensures Precedes(q, x, y)
  {
    var i, j :| 0 <= i < j < |q[1..]| && q[1..][i] == x && q[1..][j] == y;
    assert q[i + 1] == x && q[j + 1] == y;
  }

  lemma FirstPrecedes(q: seq<Q.Node>, h: Q.Node)
    requires q != [] && h in q[1..]
    ensures Precedes(q, q[0], h)
  {
    var j :| 0 <= j < |q[1..]| && q[1..][j] == h;
    assert q[j + 1] == h;
  }

  lemma {:induction false} ThinnedHas(p: seq<Q.Node>, q: seq<Q.Node>, x: Q.Node)
    requires Thinned(p, q) && x in p
    ensures x in q
    decreases |q|
  {
    if Thinned(p, q[1..]) {
      ThinnedHas(p, q[1..], x);
    } else if x != p[0] {
      ThinnedHas(p[1..], q[1..], x);
    }
  }

  /** Callbacks take out of the waiting list just the handles they stop; those they start go elsewhere. */
  lemma {:induction false} StillWaiting(l: Lists, ops: seq<Op>)
    requires NoDuplicates(l.waiting)
    ensures var w := ApplyAll(l, ops).waiting;
            Thinned(w, l.waiting) && NoDuplicates(w) && forall h | h in l.waiting :: h in w <==> Stop(h) !in ops
    decreases |ops|
  {
    if ops == [] {
      ThinnedSelf(l.waiting);
    } else {
      var l' := Apply(l, ops[0]);
      WithoutIs(l.waiting, ops[0].h);
      ThinnedWithout(l.waiting, ops[0].h);
      ThinnedSelf(l.waiting);
      StillWaiting(l', ops[1..]);
      ThinnedTwice(ApplyAll(l', ops[1..]).waiting, l'.waiting, l.waiting);
      ThinnedMembers(ApplyAll(l', ops[1..]).waiting, l'.waiting);
      assert ops == [ops[0]] + ops[1..];
    }
  }

  /** A pass runs handles that were waiting at its start, each at most once, in their order. */
  lemma {:induction false} OnlyWaitingRun(l: Lists, scripts: seq<seq<Op>>, k: nat)
    requires NoDuplicates(l.waiting)
    ensures Thinned(Pass(l, scripts, k).0, l.waiting) && NoDuplicates(Pass(l, scripts, k).0)
    decreases |l.waiting|
  {
    if l.waiting != [] {
      var q, rest := l.waiting[0], l.waiting[1..];
      var t := Lists(l.linked + [q], rest);
      var c := Pass(Turn(l, Script(scripts, k)), scripts, k + 1).0;
      assert l.waiting == [q] + rest;
      Parts([q], rest);
      WaitingShrinks(t, Script(scripts, k));
      StillWaiting(t, Script(scripts, k));
      OnlyWaitingRun(Turn(l, Script(scripts, k)), scripts, k + 1);
      ThinnedTwice(c, Turn(l, Script(scripts, k)).waiting, rest);
      assert ([q] + c)[1..] == c;
      ThinnedMembers([q] + c, l.waiting);
    }
  }

  /** None of the callbacks from the k-th to before the n-th stops the handle. */
  predicate Spared(scripts: seq<seq<Op>>, k: nat, n: nat, h: Q.Node) {
    forall j: nat :: k <= j < n ==> Stop(h) !in Script(scripts, j)
  }

  lemma SparedNone(scripts: seq<seq<Op>>, k: nat, h: Q.Node)
    ensures Spared(scripts, k, k, h)
  {
  }

  lemma SparedMore(scripts: seq<seq<Op>>, k: nat, n: nat, h: Q.Node)
    requires k < n && Stop(h) !in Script(scripts, k) && Spared(scripts, k + 1, n, h)
    ensures Spared(scripts, k, n, h)
  {
  }

  /**
   * A handle that is waiting runs, unless a callback that ran before its turn stopped it: either it
   * is the i-th to run and none of the callbacks before stopped it, or the i-th callback, of a handle
   * before it in the list, did.
   */
  lemma {:induction false} RunsUnlessStopped(l: Lists, scripts: seq<seq<Op>>, k: nat, h: Q.Node) returns (i: nat)
    requires NoDuplicates(l.waiting) && h in l.waiting
    ensures var called := Pass(l, scripts, k).0;
            && i < |called|
            && if h in called then called[i] == h && Spared(scripts, k, k + i, h)
               else Stop(h) in Script(scripts, k + i) && Precedes(l.waiting, called[i], h)
    decreases |l.waiting|
  {
    hide Thinned, Precedes, ApplyAll, NoDuplicates, Script, Spared;
    var q, rest, ops := l.waiting[0], l.waiting[1..], Script(scripts, k);
    i := 0;
    SparedNone(scripts, k, h);
    if h != q {
      var t := Lists(l.linked + [q], rest);
      var l' := Turn(l, ops);
      var c := Pass(l', scripts, k + 1).0;
      assert l.waiting == [q] + rest;
      Parts([q], rest);
      WaitingShrinks(t, ops);
      StillWaiting(t, ops);
      OnlyWaitingRun(l', scripts, k + 1);
      ThinnedMembers(c, l'.waiting);
      if Stop(h) in ops {
        ThinnedTwice(c, l'.waiting, rest);
        FirstPrecedes(l.waiting, h);
      } else {
        i := RunsUnlessStopped(l', scripts, k + 1, h);
        assert ([q] + c)[i + 1] == c[i];
        if h in c {
          SparedMore(scripts, k, k + 1 + i, h);
        } else {
          ThinnedOrder(l'.waiting, rest, c[i], h);
          Later(l.waiting, c[i], h);
        }
        i := i + 1;
      }
    }
  }

  /** A handle of the loop's list stays there when nobody stops it. */
  lemma {:induction false} StaysLinked(l: Lists, ops: seq<Op>, h: Q.Node)
    requires h in l.linked && Stop(h) !in ops
    ensures h in ApplyAll(l, ops).linked
    decreases |ops|
  {
    if ops != [] {
      assert ops == [ops[0]] + ops[1..];
      if ops[0].Stop? {
        OthersStay(l.linked, ops[0].h, h);
      }
      StaysLinked(Apply(l, ops[0]), ops[1..], h);
    }
  }

  lemma {:induction false} OthersStay(q: seq<Q.Node>, x: Q.Node, h: Q.Node)
    requires h in q && h != x
    ensures h in Without(q, x)
  {
    if q[0] != x && q[0] != h {
      OthersStay(q[1..], x, h);
    }
  }

  /** A handle that ran is in the loop's list again at the end, unless its own or a later callback stopped it. */
  lemma {:induction false} LinkedAgain(l: Lists, scripts: seq<seq<Op>>, k: nat, h: Q.Node)
    requires (h in l.linked || (l.waiting != [] && h == l.waiting[0])) && Spared(scripts, k, k + |Pass(l, scripts, k).0|, h)
    ensures h in Pass(l, scripts, k).1
    decreases |l.waiting|
  {
    if l.waiting != [] {
      var t := Lists(l.linked + [l.waiting[0]], l.waiting[1..]);
      WaitingShrinks(t, Script(scripts, k));
      StaysLinked(t, Script(scripts, k), h);
      LinkedAgain(Turn(l, Script(scripts, k)), scripts, k + 1, h);
    }
  }
}
