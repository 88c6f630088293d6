/** The intrusive circular lists of libuv/src/queue.h. A list is its head and its entries in order. */
module Queue {
  import opened Sequences

  /** QUEUE; where it is a member of a handle it stands for the handle. */
  class Node {
    var next: Node
    var prev: Node

    /** QUEUE_INIT */
    constructor ()
      ensures next == this && prev == this && Ring([this])
    {
      next, prev := this, this;
    }
  }

  function Init<T>(nodes: seq<T>): seq<T> {
    if nodes == [] then [] else nodes[..|nodes| - 1]
  }

  function Tail<T>(nodes: seq<T>): seq<T> {
    if nodes == [] then [] else nodes[1..]
  }

  function Elems(nodes: seq<Node>): set<Node> {
    set n | n in nodes
  }

  predicate Link(a: Node, b: Node)
    reads a`next, b`prev
  {
    a.next == b && b.prev == a
  }

  /** Each node is linked to the one after it. */
  predicate Path(nodes: seq<Node>)
    reads Init(nodes)`next, Tail(nodes)`prev
  {
    |nodes| <= 1 || (Link(nodes[0], nodes[1]) && (Shorter(nodes); Path(nodes[1..])))
  }

  lemma Shorter<T>(nodes: seq<T>)
    requires |nodes| > 1
    ensures nodes[0] in Init(nodes) && nodes[1] in Tail(nodes)
    ensures |Init(nodes)| == |Init(nodes[1..])| + 1 && |Tail(nodes)| == |Tail(nodes[1..])| + 1
    ensures forall i :: 0 <= i < |Init(nodes[1..])| ==> Init(nodes[1..])[i] == Init(nodes)[i + 1]
    ensures forall i :: 0 <= i < |Tail(nodes[1..])| ==> Tail(nodes[1..])[i] == Tail(nodes)[i + 1]
    ensures (forall n | n in Init(nodes[1..]) :: n in Init(nodes)) && forall n | n in Tail(nodes[1..]) :: n in Tail(nodes)
  {
    assert Init(nodes) == [nodes[0]] + Init(nodes[1..]);
    assert Tail(nodes) == [nodes[1]] + Tail(nodes[1..]);
  }

  /** The nodes, the first of which is the head, are linked in a circle, in both directions. */
  predicate Ring(nodes: seq<Node>)
    reads nodes`next, nodes`prev
  {
    nodes != [] && NoDuplicates(nodes) && Path(nodes) && Link(nodes[|nodes| - 1], nodes[0])
  }

  lemma {:induction false} PathSplit(a: seq<Node>, b: seq<Node>)
    requires a != [] && b != []
    ensures Path(a + b) <==> Path(a) && Path(b) && Link(a[|a| - 1], b[0])
    decreases |a|
  {
    var ab := a + b;
    if |a| == 1 {
      assert ab[1..] == b;
    } else {
      PathSplit(a[1..], b);
      assert ab[1..] == a[1..] + b;
    }
  }

  /** QUEUE_EMPTY and QUEUE_HEAD */
  lemma HeadOf(h: Node, items: seq<Node>)
    requires Ring([h] + items)
    ensures (h.next == h) <==> items == []
    ensures h.next == ([h] + items)[if items == [] then 0 else 1]
    ensures h.prev == ([h] + items)[|items|]
  {
    if items != [] {
      assert ([h] + items)[1] != ([h] + items)[0];
    }
  }

  lemma Ends<T>(nodes: seq<T>)
    requires NoDuplicates(nodes) && nodes != []
    ensures nodes[0] !in Tail(nodes) && nodes[|nodes| - 1] !in Init(nodes)
    ensures forall x | x in Tail(nodes) || x in Init(nodes) :: x in nodes
  {
  }

  lemma PathOfTwo(a: Node, b: Node)
    ensures Path([a, b]) <==> Link(a, b)
    ensures Path([a]) && Path([])
  {
    assert [a, b][1..] == [b];
  }

  /** The entries and what links them to the head. */
  lemma Opened(h: Node, items: seq<Node>)
    requires Ring([h] + items)
    ensures h !in items && NoDuplicates(items) && Path(items) && Path([h])
    ensures items == [] ==> Link(h, h)
    ensures items != [] ==> Link(h, items[0]) && Link(items[|items| - 1], h) && items[0] !in Tail(items) && items[|items| - 1] !in Init(items)
    ensures forall x | x in Tail(items) || x in Init(items) :: x in items
  {
    hide NoDuplicates;
    Parts([h], items);
    if items != [] {
      PathSplit([h], items);
      Ends(items);
    }
  }

  /** And back. */
  lemma Closed(h: Node, items: seq<Node>)
    requires h !in items && NoDuplicates(items) && Path(items)
    requires items == [] ==> Link(h, h)
    requires items != [] ==> Link(h, items[0]) && Link(items[|items| - 1], h)
    ensures Ring([h] + items)
  {
    hide NoDuplicates;
    OneIsDistinctOf(h);
    Joined([h], items);
    if items != [] {
      PathSplit([h], items);
    }
  }

  lemma OneIsDistinctOf<T>(a: T)
    ensures NoDuplicates([a])
  {
  }

  method InsertHead(h: Node, q: Node, ghost items: seq<Node>)
    requires Ring([h] + items) && q !in [h] + items
    modifies q`next, q`prev, h`next, h.next`prev
    ensures Ring([h] + ([q] + items))
  {
    hide NoDuplicates, Path, Ring;
    Opened(h, items);
    q.next := h.next;
    q.prev := h;
    q.next.prev := q;
    h.next := q;
    assert Path(items);
    OneIsDistinctOf(q);
    Joined([q], items);
    PathOfTwo(q, h);
    if items != [] {
      PathSplit([q], items);
      assert ([q] + items)[|items|] == items[|items| - 1];
    } else {
      assert [q] + items == [q];
    }
    Closed(h, [q] + items);
  }

  method InsertTail(h: Node, q: Node, ghost items: seq<Node>)
    requires Ring([h] + items) && q !in [h] + items
    modifies q`next, q`prev, h`prev, h.prev`next
    ensures Ring([h] + (items + [q]))
  {
    hide NoDuplicates, Path, Ring;
    Opened(h, items);
    q.next := h;
    q.prev := h.prev;
    q.prev.next := q;
    h.prev := q;
    assert Path(items);
    OneIsDistinctOf(q);
    Joined(items, [q]);
    PathOfTwo(q, h);
    if items != [] {
      PathSplit(items, [q]);
      assert (items + [q])[0] == items[0];
    } else {
      assert items + [q] == [q];
    }
    Closed(h, items + [q]);
  }

  /** A ring cut in two. */
  lemma Cut(x: seq<Node>, y: seq<Node>)
    requires Ring(x + y) && x != [] && y != []
    ensures Path(x) && Path(y) && Link(x[|x| - 1], y[0]) && Link(y[|y| - 1], x[0])
    ensures NoDuplicates(x) && NoDuplicates(y) && forall n | n in x :: n !in y
    ensures x[|x| - 1] !in Init(x) && x[0] !in Tail(x) && y[|y| - 1] !in Init(y) && y[0] !in Tail(y)
    ensures x[|x| - 1] !in y && x[0] !in y && y[|y| - 1] !in x && y[0] !in x
    ensures forall n | n in Tail(x) || n in Init(x) :: n in x
    ensures forall n | n in Tail(y) || n in Init(y) :: n in y
  {
    hide NoDuplicates, Path;
    PathSplit(x, y);
    Parts(x, y);
    Ends(x);
    Ends(y);
    assert x[|x| - 1] in x && x[0] in x && y[|y| - 1] in y && y[0] in y;
  }

  /** Two runs made into a ring. */
  lemma Joint(x: seq<Node>, y: seq<Node>)
    requires x != [] && y != [] && Path(x) && Path(y) && Link(x[|x| - 1], y[0]) && Link(y[|y| - 1], x[0])
    requires NoDuplicates(x) && NoDuplicates(y) && forall n | n in x :: n !in y
    ensures Ring(x + y)
  {
    hide NoDuplicates, Path;
    PathSplit(x, y);
    Joined(x, y);
  }

  lemma Alone(x: seq<Node>)
    requires x != [] && NoDuplicates(x) && Path(x) && Link(x[|x| - 1], x[0])
    ensures Ring(x)
  {
  }

  /** QUEUE_REMOVE of the entry between x, which begins with the head, and b. */
  method Remove(q: Node, ghost x: seq<Node>, ghost b: seq<Node>)
    requires x != [] && Ring(x + ([q] + b))
    modifies q.prev`next, q.next`prev
    ensures Ring(x + b) && q !in x + b
  {
    hide NoDuplicates, Ring, Path, Init, Tail;
    CutOut(q, x, b);
    q.prev.next := q.next;
    q.next.prev := q.prev;
    assert Path(x);
    if b == [] {
      assert x + b == x;
      Alone(x);
    } else {
      assert Path(b);
      Joint(x, b);
    }
  }

  /** The entry between x and b and its neighbours. */
  lemma CutOut(q: Node, x: seq<Node>, b: seq<Node>)
    requires x != [] && Ring(x + ([q] + b))
    ensures NoDuplicates(x) && Path(x) && q !in x && q !in b && q !in x + b && (b != [] ==> x + b != x)
    ensures q.prev == x[|x| - 1] && q.prev !in Init(x) && q.next == (if b == [] then x[0] else b[0]) && q.next !in Tail(x)
    ensures b != [] ==>
      && NoDuplicates(b) && Path(b) && (forall n | n in x :: n !in b) && Link(b[|b| - 1], x[0])
      && q.prev !in Init(b) && q.next !in Tail(b) && q.next !in x && q.prev !in b && b[|b| - 1] !in x && x[0] !in b
  {
    hide NoDuplicates, Ring, Path;
    Cut(x, [q] + b);
    PathOfTwo(q, q);
    if b != [] {
      PathSplit([q], b);
      Parts([q], b);
      Ends(b);
      assert forall n | n in b :: n in [q] + b;
      assert ([q] + b)[|b|] == b[|b| - 1];
    }
    Ends(x);
  }

  /** QUEUE_SPLIT: the entries from q on, y, go to the list of n; x begins with the head h. */
  method Split(h: Node, q: Node, n: Node, ghost x: seq<Node>, ghost y: seq<Node>)
    requires Ring(x + y) && x != [] && y != [] && x[0] == h && y[0] == q && n !in x + y
    modifies n`next, n`prev, h`prev, h.prev`next, q`prev, q.prev`next
    ensures Ring(x) && Ring([n] + y)
  {
    hide NoDuplicates, Ring, Path;
    Cut(x, y);
    n.prev := h.prev;
    n.prev.next := n;
    n.next := q;
    h.prev := q.prev;
    h.prev.next := h;
    q.prev := n;
    assert Path(x) && Path(y);
    Alone(x);
    OneIsDistinctOf(n);
    PathOfTwo(n, n);
    Joint([n], y);
  }

  /** QUEUE_MOVE: all entries go to the list of n. */
  method Move(h: Node, n: Node, ghost items: seq<Node>)
    requires Ring([h] + items) && n !in [h] + items
    modifies n`next, n`prev, h`next, h`prev, h.prev`next, h.next`prev
    ensures Ring([h]) && Ring([n] + items)
  {
    hide NoDuplicates, Ring, Path;
    HeadOf(h, items);
    if h.next == h {
      assert [h] + items == [h] && [n] + items == [n];
      n.next := n;
      n.prev := n;
      OneIsDistinctOf(n);
      PathOfTwo(n, n);
      Alone([n]);
    } else {
      Cut([h], items);
      Split(h, h.next, n, [h], items);
    }
  }

  /** QUEUE_ADD: the entries of n go behind those of h; x begins with the head h. */
  method Add(h: Node, n: Node, ghost x: seq<Node>, ghost b: seq<Node>)
    requires x != [] && x[0] == h && Ring(x) && Ring([n] + b) && forall k | k in x :: k !in [n] + b
    modifies h.prev`next, n.next`prev, h`prev, n.prev`next
    ensures Ring(x + b)
  {
    hide NoDuplicates, Path, Init, Tail;
    Ends(x);
    assert n in [n] + b && forall k | k in b :: k in [n] + b;
    assert x[|x| - 1] in x;
    if b != [] {
      Cut([n], b);
      assert b[0] in b && b[|b| - 1] in b;
    }
    h.prev.next := n.next;
    n.next.prev := h.prev;
    h.prev := n.prev;
    h.prev.next := h;
    assert Path(x);
    if b == [] {
      assert x + b == x;
      Alone(x);
    } else {
      assert Path(b);
      Joint(x, b);
    }
  }
}
