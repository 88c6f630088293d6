/**
 * The pointer binary heap of libuv/src/heap-inl.h with the comparison of libuv/src/timer.c. The
 * node at position i of a complete tree has its children at 2i and 2i + 1; the heap is proved
 * against the sequence of its nodes in that order.
 */
module Heap {
  /** A uv_timer_t with the heap_node it embeds. */
  class Node {
    var left: Node?
    var right: Node?
    var parent: Node?
    /** timer_less_than compares these two. */
    var timeout: nat
    var startId: nat
    /** The rest of the handle, which the heap does not touch. */
    var repeat: nat
    var active: bool
    var hasCallback: bool
  }

  datatype Key = Key(timeout: nat, startId: nat)

  function KeyOf(n: Node): Key
    reads n`timeout, n`startId
  {
    Key(n.timeout, n.startId)
  }

  /** timer_less_than */
  predicate Less(a: Key, b: Key) {
    if a.timeout < b.timeout then true
    else if b.timeout < a.timeout then false
    else if a.startId < b.startId then true
    else if b.startId < a.startId then false
    else false
  }

  /** The node at a position counted from 1, null where there is none. */
  ghost function At(s: seq<Node>, i: int): Node? {
    if 1 <= i <= |s| then s[i - 1] else null
  }

  ghost predicate Distinct(s: seq<Node>) {
    forall i, j :: 1 <= i < j <= |s| ==> At(s, i) != At(s, j)
  }

  /** The links of the node at position i are those of a complete tree. */
  ghost predicate LinkedAt(s: seq<Node>, i: int)
    requires 1 <= i <= |s|
    reads s`left, s`right, s`parent
  {
    var n := s[i - 1];
    n.left == At(s, 2 * i) && n.right == At(s, 2 * i + 1) && n.parent == At(s, i / 2)
  }

  ghost predicate Linked(s: seq<Node>)
    reads s`left, s`right, s`parent
  {
    Distinct(s) && forall i :: 1 <= i <= |s| ==> LinkedAt(s, i)
  }

  ghost function Swapped(s: seq<Node>, p: nat, c: nat): (t: seq<Node>)
    requires 1 <= p <= |s| && 1 <= c <= |s|
    ensures |t| == |s|
  {
    s[p - 1 := s[c - 1]][c - 1 := s[p - 1]]
  }

  /** A C pointer to a link: the min field of the heap or a child field of a node. */
  datatype Slot = MinSlot | LeftOf(n: Node) | RightOf(n: Node)

  ghost function SlotNode(slot: Slot): set<Node> {
    if slot.MinSlot? then {} else {slot.n}
  }

  /** The slot that links the node at position i. */
  ghost predicate SlotAt(slot: Slot, s: seq<Node>, i: nat) {
    if i <= 1 then slot == MinSlot
    else i / 2 <= |s| && slot == if i % 2 == 0 then LeftOf(s[i / 2 - 1]) else RightOf(s[i / 2 - 1])
  }

  /** Where k steps lead from position i: each step goes down to the side of the lowest bit of the path. */
  ghost function Walk(i: nat, path: nat, k: nat): nat
    decreases k
  {
    if k == 0 then i else Walk(2 * i + path % 2, path / 2, k - 1)
  }

  lemma {:induction false} WalkDown(i: nat, path: nat, k: nat)
    requires i >= 1
    ensures Walk(i, path, k) >= i && (k > 0 ==> Walk(i, path, k) >= 2 * i)
    decreases k
  {
    if k > 0 {
      WalkDown(2 * i + path % 2, path / 2, k - 1);
    }
  }

  lemma Halve(w: nat, n: nat)
    ensures 2 * w * (n / 2) <= w * n && (n >= 1 ==> w <= w * n)
  {
    assert w * (2 * (n / 2)) <= w * n by {
      assert 2 * (n / 2) <= n;
    }
  }

  /** One more bit of a path: it stays below w, and leads on to the same place. */
  lemma PathStep(n: nat, path: nat, k: nat, w: nat, target: nat)
    requires n >= 2 && path < w && w * n <= target && Walk(n, path, k) == target
    ensures Walk(n / 2, path * 2 + n % 2, k + 1) == target
    ensures path * 2 + n % 2 < 2 * w && 2 * w * (n / 2) <= target && path * 2 + n % 2 < target
  {
    Halve(w, n);
    LowBit(path, n);
    Smaller(w, n);
  }

  lemma LowBit(path: nat, n: nat)
    ensures (path * 2 + n % 2) % 2 == n % 2 && (path * 2 + n % 2) / 2 == path && 2 * (n / 2) + n % 2 == n
  {
  }

  lemma Smaller(w: nat, n: nat)
    requires n >= 2
    ensures w * 2 <= w * n
  {
  }

  /** The bits of a position, the top one left out, lead from the root to it; they fit an unsigned int. */
  method Path(target: nat) returns (path: nat, k: nat)
    requires 1 <= target < 0x1_0000_0000
    ensures Walk(1, path, k) == target && path < 0x1_0000_0000
  {
    path, k := 0, 0;
    var n := target;
    ghost var w := 1;
    assert Walk(n, 0, 0) == target;
    hide Walk;
    while n >= 2
      invariant n >= 1 && Walk(n, path, k) == target
      invariant 0 <= path < w && w * n <= target && path < 0x1_0000_0000
    {
      PathStep(n, path, k, w, target);
      path := path * 2 + n % 2;
      k, n := k + 1, n / 2;
      w := 2 * w;
    }
  }

  ghost function Elems(s: seq<Node>): set<Node> {
    set n | n in s
  }

  /** No node is less than its parent. */
  ghost predicate OrderedAt(s: seq<Node>, j: nat)
    requires 1 <= j <= |s|
    reads s`timeout, s`startId
  {
    j >= 2 ==> !Less(KeyOf(s[j - 1]), KeyOf(s[j / 2 - 1]))
  }

  ghost predicate Ordered(s: seq<Node>)
    reads s`timeout, s`startId
  {
    forall j :: 2 <= j <= |s| ==> OrderedAt(s, j)
  }

  /** No child of the node at i is less than the parent of that node. */
  ghost predicate Skips(s: seq<Node>, i: nat)
    reads s`timeout, s`startId
  {
    forall j :: 2 <= j <= |s| && j / 2 == i && i >= 2 && i <= |s| ==> !Less(KeyOf(s[j - 1]), KeyOf(s[i / 2 - 1]))
  }

  /** Only the node at i may be less than its parent. */
  ghost predicate OrderedButUp(s: seq<Node>, i: nat)
    reads s`timeout, s`startId
  {
    (forall j :: 2 <= j <= |s| && j != i ==> OrderedAt(s, j)) && Skips(s, i)
  }

  /** The node at i may also be greater than its children. */
  ghost predicate OrderedButHere(s: seq<Node>, i: nat)
    reads s`timeout, s`startId
  {
    (forall j :: 2 <= j <= |s| && j != i && j / 2 != i ==> OrderedAt(s, j)) && Skips(s, i)
  }

  lemma LessIsTotal(a: Key, b: Key, c: Key)
    ensures !(Less(a, b) && Less(b, a)) && (!Less(a, b) && !Less(b, a) ==> a == b)
    ensures !Less(b, a) && !Less(c, b) ==> !Less(c, a)
  {}

  /** One step up: the lesser node passes its parent. */
  lemma SwapUp(s: seq<Node>, i: nat)
    requires 2 <= i <= |s| && OrderedButUp(s, i) && Less(KeyOf(s[i - 1]), KeyOf(s[i / 2 - 1]))
    ensures OrderedButUp(Swapped(s, i / 2, i), i / 2)
  {
    var t, p := Swapped(s, i / 2, i), i / 2;
    forall j | 2 <= j <= |t| && j != p ensures OrderedAt(t, j) {
      if j != i { assert OrderedAt(s, j); }
      LessIsTotal(KeyOf(s[i - 1]), KeyOf(s[p - 1]), KeyOf(s[j - 1]));
    }
    forall j | 2 <= j <= |t| && j / 2 == p && p >= 2 ensures !Less(KeyOf(t[j - 1]), KeyOf(t[p / 2 - 1])) {
      assert OrderedAt(s, p);
      if j != i { assert OrderedAt(s, j); }
      LessIsTotal(KeyOf(s[p / 2 - 1]), KeyOf(s[p - 1]), KeyOf(s[j - 1]));
    }
  }

  /** One step down: the lesser child passes the node. */
  lemma SwapDown(s: seq<Node>, i: nat, c: nat)
    requires 1 <= i && 2 <= c <= |s| && c / 2 == i && OrderedButHere(s, i)
    requires Less(KeyOf(s[c - 1]), KeyOf(s[i - 1]))
    requires forall j :: 2 <= j <= |s| && j / 2 == i ==> !Less(KeyOf(s[j - 1]), KeyOf(s[c - 1]))
    ensures OrderedButHere(Swapped(s, i, c), c)
  {
    var t := Swapped(s, i, c);
    forall j | 2 <= j <= |t| && j != c && j / 2 != c ensures OrderedAt(t, j) {
      if j != i && j / 2 != i { assert OrderedAt(s, j); }
    }
    forall j | 2 <= j <= |t| && j / 2 == c ensures !Less(KeyOf(t[j - 1]), KeyOf(t[c / 2 - 1])) {
      assert OrderedAt(s, j);
    }
  }

  /** The first node is the least of all. */
  lemma {:induction false} FirstIsLeast(s: seq<Node>, i: nat)
    requires Ordered(s) && 1 <= i <= |s|
    ensures !Less(KeyOf(s[i - 1]), KeyOf(s[0]))
    decreases i
  {
    if i > 1 {
      FirstIsLeast(s, i / 2);
      assert OrderedAt(s, i);
      LessIsTotal(KeyOf(s[0]), KeyOf(s[i / 2 - 1]), KeyOf(s[i - 1]));
    }
  }

  lemma SwappedElems(s: seq<Node>, p: nat, c: nat)
    requires 1 <= p <= |s| && 1 <= c <= |s|
    ensures Elems(Swapped(s, p, c)) == Elems(s)
  {
    var t := Swapped(s, p, c);
    forall n | n in s ensures n in t {
      var i :| 0 <= i < |s| && s[i] == n;
      assert t[if i == p - 1 then c - 1 else if i == c - 1 then p - 1 else i] == n;
    }
  }

  class Heap {
    var min: Node?
    var nelts: nat
    ghost var nodes: seq<Node>

    /**
     * heap_node_swap in terms of the nodes around the edge: the parent's parent, the sibling, and
     * the children of the child, each null where there is none.
     */
    method SwapLinks(parent: Node, child: Node, ghost up: Node?, ghost sib: Node?, ghost cl: Node?, ghost cr: Node?)
      requires parent.parent == up && child.parent == parent && child.left == cl && child.right == cr
      requires (parent.left == child && parent.right == sib) || (parent.right == child && parent.left == sib)
      requires up == null ==> min == parent
      requires up != null ==> up.left == parent || up.right == parent
      requires Different(parent, child, up, sib, cl, cr)
      modifies this`min, ({parent, child} + Some({up, sib, cl, cr}))`left, ({parent, child} + Some({up, sib, cl, cr}))`right,
               ({parent, child} + Some({up, sib, cl, cr}))`parent
      ensures min == if up == null then child else old(min)
      ensures child.parent == up && parent.parent == child && parent.left == cl && parent.right == cr
      ensures if old(parent.left) == child then child.left == parent && child.right == sib
              else child.right == parent && child.left == sib
      ensures sib != null ==> sib.parent == child && sib.left == old(sib.left) && sib.right == old(sib.right)
      ensures cl != null ==> cl.parent == parent && cl.left == old(cl.left) && cl.right == old(cl.right)
      ensures cr != null ==> cr.parent == parent && cr.left == old(cr.left) && cr.right == old(cr.right)
      ensures up != null ==> up.parent == old(up.parent) && if old(up.left) == parent
                             then up.left == child && up.right == old(up.right)
                             else up.right == child && up.left == old(up.left)
    {
      var sibling := Exchange(parent, child);
      SetParent(sibling, child);
      SetParent(parent.left, parent);
      SetParent(parent.right, parent);
      if child.parent == null {
        min := child;
      } else if child.parent.left == parent {
        child.parent.left := child;
      } else {
        child.parent.right := child;
      }
    }

    /** Lines 78-89: the two nodes trade their links, and the edge between them turns round. */
    method Exchange(parent: Node, child: Node) returns (sibling: Node?)
      requires parent != child && child.parent == parent && parent.parent != child
      requires child.left != parent && child.right != parent && child.left != child && child.right != child
      requires (parent.left == child) != (parent.right == child)
      modifies {parent, child}`left, {parent, child}`right, {parent, child}`parent
      ensures child.parent == old(parent.parent) && parent.parent == child
      ensures parent.left == old(child.left) && parent.right == old(child.right)
      ensures if old(parent.left) == child
              then child.left == parent && child.right == sibling == old(parent.right)
              else child.right == parent && child.left == sibling == old(parent.left)
    {
      var l, r, p := parent.left, parent.right, parent.parent;
      parent.left, parent.right, parent.parent := child.left, child.right, child.parent;
      child.left, child.right, child.parent := l, r, p;
      parent.parent := child;
      if child.left == child {
        child.left := parent;
        sibling := child.right;
      } else {
        child.right := parent;
        sibling := child.left;
      }
    }

    /**
     * heap_node_swap: the nodes at positions p and c, a parent and its child, change places, and
     * the links are again those of a complete tree.
     */
    method NodeSwap(parent: Node, child: Node, ghost s: seq<Node>, ghost p: nat, ghost c: nat)
      requires Linked(s) && min == At(s, 1)
      requires 1 <= p <= |s| && 2 <= c <= |s| && c / 2 == p && parent == At(s, p) && child == At(s, c)
      modifies this`min, Elems(s)`left, Elems(s)`right, Elems(s)`parent
      ensures Linked(Swapped(s, p, c)) && min == At(Swapped(s, p, c), 1)
    {
      hide Swapped, Different, At, Distinct;
      ghost var d := if c == 2 * p then 2 * p + 1 else 2 * p;
      ghost var up, sib, cl, cr := At(s, p / 2), At(s, d), At(s, 2 * c), At(s, 2 * c + 1);
      Surroundings(s, p, c, d);
      SwapLinks(parent, child, up, sib, cl, cr);
      ghost var t := Swapped(s, p, c);
      forall i | 1 <= i <= |s| ensures LinkedAt(t, i) {
        assert old(LinkedAt(s, i));
        SwappedAround(s, p, c, i);
        ApartFrom(s, i, p, c, d);
      }
      SwappedDistinct(s, p, c);
      SwappedAt(s, p, c, 1);
    }

    /** What is at position i and around it when p and c have changed places. */
    lemma SwappedAround(s: seq<Node>, p: nat, c: nat, i: nat)
      requires 1 <= p <= |s| && 1 <= c <= |s| && p != c && 1 <= i <= |s|
      ensures var t := Swapped(s, p, c);
        && t[i - 1] == (if i == p then s[c - 1] else if i == c then s[p - 1] else s[i - 1])
        && At(t, 2 * i) == (if 2 * i == p then At(s, c) else if 2 * i == c then At(s, p) else At(s, 2 * i))
        && At(t, 2 * i + 1) == (if 2 * i + 1 == p then At(s, c) else if 2 * i + 1 == c then At(s, p) else At(s, 2 * i + 1))
        && At(t, i / 2) == (if i / 2 == p then At(s, c) else if i / 2 == c then At(s, p) else At(s, i / 2))
    {
      SwappedAt(s, p, c, 2 * i);
      SwappedAt(s, p, c, 2 * i + 1);
      SwappedAt(s, p, c, i / 2);
    }

    /** The node at i is none of those around the edge, but for the one it is. */
    lemma ApartFrom(s: seq<Node>, i: nat, p: nat, c: nat, d: nat)
      requires Distinct(s) && 1 <= i <= |s| && 1 <= p <= |s| && 1 <= c <= |s|
      ensures (i != p ==> s[i - 1] != s[p - 1]) && (i != c ==> s[i - 1] != s[c - 1])
      ensures (i != p / 2 ==> s[i - 1] != At(s, p / 2)) && (i != d ==> s[i - 1] != At(s, d))
      ensures (i != 2 * c ==> s[i - 1] != At(s, 2 * c)) && (i != 2 * c + 1 ==> s[i - 1] != At(s, 2 * c + 1))
      ensures (i == p / 2 ==> s[i - 1] == At(s, p / 2)) && (i == d ==> s[i - 1] == At(s, d))
      ensures (i == 2 * c ==> s[i - 1] == At(s, 2 * c)) && (i == 2 * c + 1 ==> s[i - 1] == At(s, 2 * c + 1))
      ensures 2 * i != p ==> At(s, 2 * i) != s[p - 1]
    {
      assert At(s, i) == s[i - 1] && At(s, p) == s[p - 1] && At(s, c) == s[c - 1];
      if i != p { Apart(s, i, p); }
      if i != c { Apart(s, i, c); }
      if i != p / 2 { Apart(s, i, p / 2); }
      if i != d { Apart(s, i, d); }
      if i != 2 * c { Apart(s, i, 2 * c); }
      if i != 2 * c + 1 { Apart(s, i, 2 * c + 1); }
      if 2 * i != p { Apart(s, p, 2 * i); }
    }

    lemma Apart(s: seq<Node>, i: int, j: int)
      requires Distinct(s) && 1 <= i <= |s| && i != j
      ensures At(s, i) != At(s, j)
    {
      if 1 <= j < i {
        assert At(s, j) != At(s, i);
      }
    }

    lemma SwappedAt(s: seq<Node>, p: nat, c: nat, k: int)
      requires 1 <= p <= |s| && 1 <= c <= |s| && p != c
      ensures At(Swapped(s, p, c), k) == if k == p then At(s, c) else if k == c then At(s, p) else At(s, k)
    {}

    lemma SwappedDistinct(s: seq<Node>, p: nat, c: nat)
      requires Distinct(s) && 1 <= p <= |s| && 1 <= c <= |s| && p != c
      ensures Distinct(Swapped(s, p, c))
    {
      var t := Swapped(s, p, c);
      forall i, j | 1 <= i < j <= |t| ensures At(t, i) != At(t, j) {
        SwappedAt(s, p, c, i);
        SwappedAt(s, p, c, j);
        Apart(s, if i == p then c else if i == c then p else i, if j == p then c else if j == c then p else j);
      }
    }

    ghost predicate Valid()
      reads this, nodes`left, nodes`right, nodes`parent, nodes`timeout, nodes`startId
    {
      Linked(nodes) && min == At(nodes, 1) && nelts == |nodes| < 0x1_0000_0000 && Ordered(nodes)
    }

    constructor ()
      ensures Valid() && nodes == []
    {
      min, nelts, nodes := null, 0, [];
    }

    method Read(slot: Slot) returns (n: Node?)
      ensures n == match slot case MinSlot => min case LeftOf(p) => p.left case RightOf(p) => p.right
    {
      match slot
      case MinSlot => n := min;
      case LeftOf(p) => n := p.left;
      case RightOf(p) => n := p.right;
    }

    lemma SlotReads(slot: Slot, s: seq<Node>, i: nat)
      requires Linked(s) && min == At(s, 1) && SlotAt(slot, s, i) && i >= 1
      ensures (match slot case MinSlot => min case LeftOf(p) => p.left case RightOf(p) => p.right) == At(s, i)
    {
      if i > 1 {
        assert LinkedAt(s, i / 2);
      }
    }

    /** Follows the path from the root: the slot of the target position and the one before it. */
    method Descend(path0: nat, k0: nat, ghost s: seq<Node>, ghost target: nat) returns (parent: Slot, child: Slot)
      requires Linked(s) && min == At(s, 1) && Walk(1, path0, k0) == target && target <= |s| + 1
      ensures SlotAt(child, s, target) && SlotAt(parent, s, target / 2)
    {
      hide Linked, Walk, SlotAt, At;
      parent, child := MinSlot, MinSlot;
      TopSlot(s);
      var path, k := path0, k0;
      ghost var i := 1;
      WalkZero(i, path);
      while k > 0
        invariant i >= 1 && Walk(i, path, k) == target && SlotAt(child, s, i) && SlotAt(parent, s, i / 2)
        invariant k == 0 ==> i == target
        decreases k
      {
        WalkDown(i, path, k);
        SlotReads(child, s, i);
        SlotBelow(s, i, path % 2);
        WalkStep(i, path, k);
        parent := child;
        var n := Read(child);
        if path % 2 == 1 {
          child := RightOf(n);
        } else {
          child := LeftOf(n);
        }
        i := 2 * i + path % 2;
        path, k := path / 2, k - 1;
        WalkZero(i, path);
      }
    }

    lemma TopSlot(s: seq<Node>)
      ensures SlotAt(MinSlot, s, 1) && SlotAt(MinSlot, s, 1 / 2)
    {}

    lemma SlotBelow(s: seq<Node>, i: nat, bit: nat)
      requires 1 <= i <= |s| && bit < 2
      ensures At(s, i) == s[i - 1] && (2 * i + bit) / 2 == i
      ensures SlotAt(if bit == 1 then RightOf(s[i - 1]) else LeftOf(s[i - 1]), s, 2 * i + bit)
    {}

    lemma WalkZero(i: nat, path: nat)
      ensures Walk(i, path, 0) == i
    {}

    lemma WalkStep(i: nat, path: nat, k: nat)
      requires k > 0
      ensures Walk(i, path, k) == Walk(2 * i + path % 2, path / 2, k - 1)
    {}

    /** *slot = n; */
    method Write(slot: Slot, n: Node?)
      modifies this`min, SlotNode(slot)`left, SlotNode(slot)`right
      ensures match slot {
        case MinSlot => min == n
        case LeftOf(p) => p.left == n && p.right == old(p.right) && min == old(min)
        case RightOf(p) => p.right == n && p.left == old(p.left) && min == old(min)
      }
    {
      match slot
      case MinSlot => min := n;
      case LeftOf(p) => p.left := n;
      case RightOf(p) => p.right := n;
    }

    /** Lines 139-141: a new last node. */
    method Append(newnode: Node, parent: Slot, child: Slot, ghost s: seq<Node>)
      requires Linked(s) && min == At(s, 1) && newnode !in s
      requires newnode.left == null && newnode.right == null
      requires SlotAt(child, s, |s| + 1) && SlotAt(parent, s, (|s| + 1) / 2)
      modifies this`min, newnode`parent, Elems(s)`left, Elems(s)`right
      ensures Linked(s + [newnode]) && min == At(s + [newnode], 1)
    {
      ghost var n, t := |s| + 1, s + [newnode];
      if n > 1 {
        SlotReads(parent, s, n / 2);
        assert LinkedAt(s, n / 2);
      }
      newnode.parent := Read(parent);
      Write(child, newnode);
      forall i | 1 <= i <= n ensures LinkedAt(t, i) {
        AppendAt(s, newnode, 2 * i);
        AppendAt(s, newnode, 2 * i + 1);
        AppendAt(s, newnode, i / 2);
        AppendAt(s, newnode, i);
        if i < n {
          assert old(LinkedAt(s, i));
          if i != n / 2 { Apart(s, i, n / 2); }
        }
      }
      AppendDistinct(s, newnode);
      AppendAt(s, newnode, 1);
    }

    lemma AppendAt(s: seq<Node>, x: Node, i: int)
      ensures At(s + [x], i) == if i == |s| + 1 then x else At(s, i)
    {}

    lemma AppendDistinct(s: seq<Node>, x: Node)
      requires Distinct(s) && x !in s
      ensures Distinct(s + [x])
    {
      var t := s + [x];
      forall i, j | 1 <= i < j <= |t| ensures At(t, i) != At(t, j) {
        AppendAt(s, x, i);
        AppendAt(s, x, j);
        if j <= |s| { assert At(s, i) != At(s, j); } else { assert s[i - 1] in s; }
      }
    }

    /** Lines 146-147 and 235-236: up, while the node is less than its parent. */
    method SiftUp(n: Node, ghost s0: seq<Node>, ghost i0: nat) returns (ghost s: seq<Node>)
      requires Linked(s0) && min == At(s0, 1) && 1 <= i0 <= |s0| && n == s0[i0 - 1] && OrderedButUp(s0, i0)
      modifies this`min, Elems(s0)`left, Elems(s0)`right, Elems(s0)`parent
      ensures Linked(s) && min == At(s, 1) && Ordered(s) && Elems(s) == Elems(s0) && |s| == |s0|
    {
      hide Linked, OrderedButUp, Swapped, Ordered, Elems;
      s := s0;
      ghost var i := i0;
      while n.parent != null && Less(KeyOf(n), KeyOf(n.parent))
        invariant Linked(s) && min == At(s, 1) && 1 <= i <= |s| == |s0| && n == s[i - 1] && OrderedButUp(s, i)
        invariant Elems(s) == Elems(s0)
        decreases i
      {
        ParentAt(s, i);
        SwapUp(s, i);
        SwappedElems(s, i / 2, i);
        SwappedAt(s, i / 2, i, i / 2);
        ghost var t := Swapped(s, i / 2, i);
        assert allocated(t);
        NodeSwap(n.parent, n, s, i / 2, i);
        s, i := t, i / 2;
      }
      TopOrdered(s, i);
    }

    lemma ParentAt(s: seq<Node>, i: nat)
      requires Linked(s) && 1 <= i <= |s|
      ensures s[i - 1].parent == At(s, i / 2) && (i == 1 <==> s[i - 1].parent == null)
    {
      assert LinkedAt(s, i);
    }

    /** Where the walk up stops, nothing is out of order. */
    lemma TopOrdered(s: seq<Node>, i: nat)
      requires Linked(s) && 1 <= i <= |s| && OrderedButUp(s, i)
      requires s[i - 1].parent == null || !Less(KeyOf(s[i - 1]), KeyOf(s[i - 1].parent))
      ensures Ordered(s)
    {
      ParentAt(s, i);
    }

    /** Adds a node; the heap then holds one node more, and the links and the order are right again. */
    method Insert(newnode: Node)
      requires Valid() && newnode !in nodes && nelts + 1 < 0x1_0000_0000
      modifies this, newnode`left, newnode`right, newnode`parent, Elems(nodes)`left, Elems(nodes)`right, Elems(nodes)`parent
      ensures Valid() && Elems(nodes) == old(Elems(nodes)) + {newnode} && nelts == old(nelts) + 1
    {
      hide Linked, Ordered, OrderedButUp, Elems;
      Hang(newnode);
      nelts := nelts + 1;
      AppendOrdered(nodes, newnode);
      AppendElems(nodes, newnode);
      ghost var s := SiftUp(newnode, nodes + [newnode], |nodes| + 1);
      nodes := s;
    }

    /** Lines 112-141: the new node hangs at the next free position. */
    method Hang(newnode: Node)
      requires Linked(nodes) && min == At(nodes, 1) && nelts == |nodes| && newnode !in nodes && nelts + 1 < 0x1_0000_0000
      modifies this`min, newnode`left, newnode`right, newnode`parent, Elems(nodes)`left, Elems(nodes)`right
      ensures Linked(nodes + [newnode]) && min == At(nodes + [newnode], 1)
    {
      hide Linked, SlotAt, Walk, Elems, At;
      newnode.left, newnode.right, newnode.parent := null, null, null;
      var path, k := Path(1 + nelts);
      var parent, child := Descend(path, k, nodes, 1 + nelts);
      Append(newnode, parent, child, nodes);
    }

    lemma AppendOrdered(s: seq<Node>, x: Node)
      requires Ordered(s)
      ensures OrderedButUp(s + [x], |s| + 1)
    {
      var t := s + [x];
      forall j | 2 <= j <= |t| && j != |t| ensures OrderedAt(t, j) {
        assert OrderedAt(s, j);
      }
    }

    lemma AppendElems(s: seq<Node>, x: Node)
      ensures Elems(s + [x]) == Elems(s) + {x}
    {}

    /** Lines 184-185: the last node is unlinked. */
    method Chop(slot: Slot, ghost s: seq<Node>) returns (last: Node)
      requires Linked(s) && min == At(s, 1) && |s| > 0 && SlotAt(slot, s, |s|)
      modifies this`min, Elems(s)`left, Elems(s)`right
      ensures last == s[|s| - 1] && Linked(s[..|s| - 1]) && min == At(s[..|s| - 1], 1)
    {
      ghost var n, t := |s|, s[..|s| - 1];
      SlotReads(slot, s, n);
      last := Read(slot);
      if n > 1 {
        assert LinkedAt(s, n / 2);
        ElemAt(s, n / 2);
      }
      Write(slot, null);
      forall i | 1 <= i <= |t| ensures LinkedAt(t, i) {
        assert old(LinkedAt(s, i));
        ChopAt(s, 2 * i);
        ChopAt(s, 2 * i + 1);
        ChopAt(s, i / 2);
        if i != n / 2 { Apart(s, i, n / 2); }
      }
      ChopDistinct(s);
      ChopAt(s, 1);
    }

    lemma ElemAt(s: seq<Node>, i: nat)
      requires 1 <= i <= |s|
      ensures s[i - 1] in Elems(s)
    {}

    lemma ChopAt(s: seq<Node>, i: int)
      requires |s| > 0
      ensures At(s[..|s| - 1], i) == if i == |s| then null else At(s, i)
    {}

    lemma ChopDistinct(s: seq<Node>)
      requires Distinct(s) && |s| > 0
      ensures Distinct(s[..|s| - 1])
    {
      var t := s[..|s| - 1];
      forall i, j | 1 <= i < j <= |t| ensures At(t, i) != At(t, j) {
        ChopAt(s, i);
        ChopAt(s, j);
        assert At(s, i) != At(s, j);
      }
    }

    /** Lines 196-214 in terms of the nodes around: the parent and the children of the replaced node. */
    method TakePlace(node: Node, child: Node, ghost up: Node?, ghost l: Node?, ghost r: Node?)
      requires node.parent == up && node.left == l && node.right == r && Different(node, child, up, l, r, null)
      requires up == null ==> min == node
      requires up != null ==> up.left == node || up.right == node
      modifies this`min, ({child} + Some({up}))`left, ({child} + Some({up}))`right, ({child} + Some({l, r}))`parent
      ensures child.left == l && child.right == r && child.parent == up
      ensures min == if up == null then child else old(min)
      ensures l != null ==> l.parent == child
      ensures r != null ==> r.parent == child
      ensures up != null ==> if old(up.left) == node then up.left == child && up.right == old(up.right)
                             else up.right == child && up.left == old(up.left)
    {
      child.left, child.right, child.parent := node.left, node.right, node.parent;
      SetParent(child.left, child);
      SetParent(child.right, child);
      if node.parent == null {
        min := child;
      } else if node.parent.left == node {
        node.parent.left := child;
      } else {
        node.parent.right := child;
      }
    }

    lemma PlaceAround(s: seq<Node>, i: nat, x: Node)
      requires Linked(s) && 1 <= i <= |s| && x !in s
      ensures var node, up, l, r := s[i - 1], At(s, i / 2), At(s, 2 * i), At(s, 2 * i + 1);
        && node.parent == up && node.left == l && node.right == r && Different(node, x, up, l, r, null)
        && (up == null <==> i == 1) && (up != null ==> if i % 2 == 0 then up.left == node else up.right == node)
        && (up != null ==> up in Elems(s)) && (l != null ==> l in Elems(s)) && (r != null ==> r in Elems(s))
        && At(s, i) == node
      ensures min == At(s, 1) && i == 1 ==> min == s[i - 1]
    {
      assert LinkedAt(s, i);
      if i > 1 { assert LinkedAt(s, i / 2); }
      Apart(s, i, i / 2);
      Apart(s, i, 2 * i);
      Apart(s, i, 2 * i + 1);
      if i > 1 {
        Apart(s, i / 2, 2 * i);
        Apart(s, i / 2, 2 * i + 1);
      }
      if 2 * i <= |s| { Apart(s, 2 * i, 2 * i + 1); }
    }

    /** A node outside takes the place and the links of the one at position i. */
    method Replace(node: Node, child: Node, ghost s: seq<Node>, ghost i: nat)
      requires Linked(s) && min == At(s, 1) && 1 <= i <= |s| && node == s[i - 1] && child !in s
      modifies this`min, child`left, child`right, child`parent, Elems(s)`left, Elems(s)`right, Elems(s)`parent
      ensures Linked(s[i - 1 := child]) && min == At(s[i - 1 := child], 1)
    {
      hide Different, At, Distinct;
      ghost var t := s[i - 1 := child];
      PlaceAround(s, i, child);
      TakePlace(node, child, At(s, i / 2), At(s, 2 * i), At(s, 2 * i + 1));
      forall j | 1 <= j <= |s| ensures LinkedAt(t, j) {
        assert old(LinkedAt(s, j));
        ReplaceAt(s, i, child, 2 * j);
        ReplaceAt(s, i, child, 2 * j + 1);
        ReplaceAt(s, i, child, j / 2);
        ApartFrom(s, j, i, i, i);
        assert s[j - 1] in s;
      }
      ReplaceDistinct(s, i, child);
      ReplaceAt(s, i, child, 1);
    }

    lemma ReplaceAt(s: seq<Node>, i: nat, x: Node, j: int)
      requires 1 <= i <= |s|
      ensures At(s[i - 1 := x], j) == if j == i then x else At(s, j)
    {}

    lemma ReplaceDistinct(s: seq<Node>, i: nat, x: Node)
      requires Distinct(s) && 1 <= i <= |s| && x !in s
      ensures Distinct(s[i - 1 := x])
    {
      var t := s[i - 1 := x];
      forall j, k | 1 <= j < k <= |t| ensures At(t, j) != At(t, k) {
        ReplaceAt(s, i, x, j);
        ReplaceAt(s, i, x, k);
        assert s[j - 1] in s && s[k - 1] in s;
        if j != i && k != i { assert At(s, j) != At(s, k); }
      }
    }

    /** Lines 220-229: down, while a child is less than the node. */
    method SiftDown(n: Node, ghost s0: seq<Node>, ghost i0: nat) returns (ghost s: seq<Node>, ghost i: nat)
      requires Linked(s0) && min == At(s0, 1) && 1 <= i0 <= |s0| && n == s0[i0 - 1] && OrderedButHere(s0, i0)
      modifies this`min, Elems(s0)`left, Elems(s0)`right, Elems(s0)`parent
      ensures Linked(s) && min == At(s, 1) && Elems(s) == Elems(s0) && |s| == |s0|
      ensures 1 <= i <= |s| && n == s[i - 1] && OrderedButUp(s, i)
    {
      hide Linked, OrderedButUp, OrderedButHere, Swapped, Elems;
      s, i := s0, i0;
      while true
        invariant Linked(s) && min == At(s, 1) && 1 <= i <= |s| == |s0| && n == s[i - 1] && OrderedButHere(s, i)
        invariant Elems(s) == Elems(s0)
        decreases |s0| - i
      {
        ChildrenAt(s, i);
        var smallest := n;
        if n.left != null && Less(KeyOf(n.left), KeyOf(smallest)) {
          smallest := n.left;
        }
        if n.right != null && Less(KeyOf(n.right), KeyOf(smallest)) {
          smallest := n.right;
        }
        if smallest == n {
          BottomOrdered(s, i);
          break;
        }
        ghost var c := if smallest == At(s, 2 * i) then 2 * i else 2 * i + 1;
        SmallestChild(s, i, c);
        SwapDown(s, i, c);
        SwappedElems(s, i, c);
        SwappedAt(s, i, c, c);
        ghost var t := Swapped(s, i, c);
        assert allocated(t);
        NodeSwap(n, smallest, s, i, c);
        s, i := t, c;
      }
    }

    lemma ChildrenAt(s: seq<Node>, i: nat)
      requires Linked(s) && 1 <= i <= |s|
      ensures s[i - 1].left == At(s, 2 * i) && s[i - 1].right == At(s, 2 * i + 1)
      ensures At(s, 2 * i) != s[i - 1] && At(s, 2 * i + 1) != s[i - 1]
      ensures At(s, 2 * i) != null ==> At(s, 2 * i) != At(s, 2 * i + 1)
    {
      assert LinkedAt(s, i);
      Apart(s, i, 2 * i);
      Apart(s, i, 2 * i + 1);
    }

    lemma SmallestChild(s: seq<Node>, i: nat, c: nat)
      requires 1 <= i && (c == 2 * i || c == 2 * i + 1) && c <= |s|
      requires !Less(KeyOf(s[2 * i - 1]), KeyOf(s[c - 1]))
      requires 2 * i + 1 <= |s| ==> !Less(KeyOf(s[2 * i]), KeyOf(s[c - 1]))
      ensures forall j :: 2 <= j <= |s| && j / 2 == i ==> !Less(KeyOf(s[j - 1]), KeyOf(s[c - 1]))
    {}

    lemma BottomOrdered(s: seq<Node>, i: nat)
      requires 1 <= i <= |s| && OrderedButHere(s, i)
      requires At(s, 2 * i) != null ==> !Less(KeyOf(At(s, 2 * i)), KeyOf(s[i - 1]))
      requires At(s, 2 * i + 1) != null ==> !Less(KeyOf(At(s, 2 * i + 1)), KeyOf(s[i - 1]))
      ensures OrderedButUp(s, i)
    {
      forall j | 2 <= j <= |s| && j != i ensures OrderedAt(s, j) {
        assert j / 2 == i ==> j == 2 * i || j == 2 * i + 1;
      }
    }

    /** heap_remove: exactly the given node leaves the heap; nothing happens on an empty one. */
    method Remove(node: Node?)
      requires Valid() && (nelts > 0 ==> node != null && node in nodes)
      modifies this, Elems(nodes)`left, Elems(nodes)`right, Elems(nodes)`parent
      ensures Valid() && Elems(nodes) == old(Elems(nodes)) - Some({node}) && nelts == if old(nelts) == 0 then 0 else old(nelts) - 1
    {
      hide Linked, Ordered, SlotAt, Walk, Elems, Some;
      if nelts == 0 {
        EmptyElems(nodes, node);
        return;
      }
      ghost var s, n := nodes, nelts;
      var child := TakeLast();
      nelts := nelts - 1;
      ghost var t := s[..n - 1];
      if child == node {
        // Lines 189-191 clear min when it is the node; unlinking the root has cleared it already.
        assert child != min;
        nodes := t;
        return;
      }
      nodes := Refill(node, child, s);
    }

    /** Lines 166-185: the last node, which is unlinked. */
    method TakeLast() returns (child: Node)
      requires Valid() && nelts > 0
      modifies this`min, Elems(nodes)`left, Elems(nodes)`right
      ensures var t := nodes[..nelts - 1];
              && nelts == |nodes| && child == nodes[nelts - 1] && child !in t && Elems(t) == Elems(nodes) - Some({child})
              && Linked(t) && min == At(t, 1) && Ordered(t)
    {
      hide Linked, Ordered, SlotAt, Walk, Elems, Some, At;
      var path, k := Path(nelts);
      var before, max := Descend(path, k, nodes, nelts);
      ChopElems(nodes);
      child := Chop(max, nodes);
      ChopOrdered(nodes);
    }

    lemma EmptyElems(s: seq<Node>, node: Node?)
      requires s == []
      ensures Elems(s) == Elems(s) - Some({node})
    {}

    lemma ChopElems(s: seq<Node>)
      requires |s| > 0 && Linked(s)
      ensures Elems(s[..|s| - 1]) == Elems(s) - Some({s[|s| - 1]}) && s[|s| - 1] !in s[..|s| - 1]
    {
      var t, last := s[..|s| - 1], s[|s| - 1];
      forall n | n in t ensures n != last {
        var i :| 0 <= i < |t| && t[i] == n;
        assert At(s, i + 1) != At(s, |s|);
      }
      assert s == t + [last];
    }

    lemma ChopOrdered(s: seq<Node>)
      requires |s| > 0 && Ordered(s)
      ensures Ordered(s[..|s| - 1])
    {
      var t := s[..|s| - 1];
      forall j | 2 <= j <= |t| ensures OrderedAt(t, j) {
        assert OrderedAt(s, j);
      }
    }

    /** Lines 195-236: the last node fills the place of the removed one and goes where it belongs. */
    method Refill(node: Node, child: Node, ghost s: seq<Node>) returns (ghost result: seq<Node>)
      requires |s| > 1 && Linked(s[..|s| - 1]) && min == At(s[..|s| - 1], 1) && Ordered(s[..|s| - 1])
      requires child == s[|s| - 1] && child !in s[..|s| - 1] && node != child && node in s
      modifies this`min, Elems(s)`left, Elems(s)`right, Elems(s)`parent
      ensures Linked(result) && min == At(result, 1) && Ordered(result) && |result| == |s| - 1
      ensures Elems(result) == Elems(s) - Some({node})
    {
      hide Linked, Ordered, SlotAt, Walk, Elems, Some;
      ghost var t := s[..|s| - 1];
      ghost var i := IndexOf(t, node, s);
      ghost var u := t[i - 1 := child];
      RefillElems(s, t, u, i);
      assert allocated(u);
      Replace(node, child, t, i);
      ReplaceOrdered(t, i, child);
      ghost var v, j := SiftDown(child, u, i);
      result := SiftUp(child, v, j);
    }

    lemma IndexOf(t: seq<Node>, n: Node, s: seq<Node>) returns (i: nat)
      requires |s| > 0 && t == s[..|s| - 1] && n in s && n != s[|s| - 1]
      ensures 1 <= i <= |t| && t[i - 1] == n
    {
      var k :| 0 <= k < |s| && s[k] == n;
      i := k + 1;
    }

    lemma RefillElems(s: seq<Node>, t: seq<Node>, u: seq<Node>, i: nat)
      requires |s| > 0 && t == s[..|s| - 1] && 1 <= i <= |t| && u == t[i - 1 := s[|s| - 1]] && Linked(t) && s[|s| - 1] !in t
      ensures Elems(u) == Elems(s) - Some({t[i - 1]}) && Elems(t) <= Elems(s) && Elems(u) <= Elems(s) && s[|s| - 1] in Elems(s)
    {
      var node, last := t[i - 1], s[|s| - 1];
      forall n | n in u ensures n in s && n != node {
        var k :| 0 <= k < |u| && u[k] == n;
        if k != i - 1 {
          assert n == s[k];
          Apart(t, k + 1, i);
        }
      }
      forall n | n in s && n != node ensures n in u {
        var k :| 0 <= k < |s| && s[k] == n;
        if k < |t| { assert u[k] == n; } else { assert u[i - 1] == n; }
      }
    }

    lemma ReplaceOrdered(s: seq<Node>, i: nat, x: Node)
      requires Ordered(s) && 1 <= i <= |s|
      ensures OrderedButHere(s[i - 1 := x], i)
    {
      var t := s[i - 1 := x];
      forall j | 2 <= j <= |t| && j != i && j / 2 != i ensures OrderedAt(t, j) {
        assert OrderedAt(s, j);
      }
      forall j | 2 <= j <= |t| && j / 2 == i && i >= 2 ensures !Less(KeyOf(t[j - 1]), KeyOf(t[i / 2 - 1])) {
        assert OrderedAt(s, j) && OrderedAt(s, i);
        LessIsTotal(KeyOf(s[i / 2 - 1]), KeyOf(s[i - 1]), KeyOf(s[j - 1]));
      }
    }

    /** heap_dequeue */
    method Dequeue()
      requires Valid()
      modifies this, Elems(nodes)`left, Elems(nodes)`right, Elems(nodes)`parent
      ensures Valid() && Elems(nodes) == old(Elems(nodes)) - Some({old(min)})
    {
      if nelts > 0 {
        assert nodes[0] in nodes;
      }
      Remove(min);
    }

    lemma InElems(n: Node)
      ensures n in nodes <==> n in Elems(nodes)
      ensures Valid() && n in nodes ==> nelts > 0
    {}

    method SetParent(n: Node?, p: Node)
      modifies Some({n})`parent
      ensures n != null ==> n.parent == p
    {
      if n != null {
        n.parent := p;
      }
    }
  }

  /** What the links say around the edge from position p to its child c; d is the other child of p. */
  lemma Surroundings(s: seq<Node>, p: nat, c: nat, d: nat)
    requires Linked(s) && 1 <= p <= |s| && 2 <= c <= |s| && c / 2 == p
    requires d == if c == 2 * p then 2 * p + 1 else 2 * p
    ensures var parent, child, up, sib, cl, cr := s[p - 1], s[c - 1], At(s, p / 2), At(s, d), At(s, 2 * c), At(s, 2 * c + 1);
      && parent.parent == up && child.parent == parent && child.left == cl && child.right == cr
      && ((c == 2 * p && parent.left == child && parent.right == sib) || (c == 2 * p + 1 && parent.right == child && parent.left == sib))
      && (up == null <==> p == 1)
      && (up != null ==> if p % 2 == 0 then up.left == parent else up.right == parent)
      && Different(parent, child, up, sib, cl, cr)
      && parent == At(s, p) && child == At(s, c) && parent in Elems(s) && child in Elems(s) && Some({up, sib, cl, cr}) <= Elems(s)
  {
    assert LinkedAt(s, p);
    assert LinkedAt(s, c);
    if p > 1 {
      assert LinkedAt(s, p / 2);
    }
    forall i, j | 1 <= i < j <= |s| ensures At(s, i) != At(s, j) {}
  }

  ghost function Some(s: set<Node?>): set<Node> {
    set n: Node | n in s
  }

  /** The nodes that are there are all different. */
  ghost predicate Different(a: Node, b: Node, c: Node?, d: Node?, e: Node?, f: Node?) {
    && a != b && a != c && a != d && a != e && a != f && b != c && b != d && b != e && b != f
    && (c != null ==> c != d && c != e && c != f) && (d != null ==> d != e && d != f) && (e != null ==> e != f)
  }
}
