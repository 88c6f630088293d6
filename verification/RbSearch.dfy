/** RB_NFIND and RB_NEXT of libuv/include/uv/tree.h: lower bound and in-order successor. */
module RbSearch {
  import opened SignalKey
  import opened RbShape
  import opened RbLinks
  import opened RbInsert

  /** The node at position i of a sequence, null past its end. */
  ghost function NodeAt(s: seq<Item>, i: nat): Node? {
    if i < |s| then s[i].node else null
  }

  /** i is the first position whose key is not less than the given one. */
  ghost predicate IsLowerBound(s: seq<Item>, key: Key, i: nat) {
    && i <= |s|
    && (forall j :: 0 <= j < i ==> Less(s[j].key, key))
    && (forall j :: i <= j < |s| ==> !Less(s[j].key, key))
  }

  lemma LeafLowerBound(c: Context, key: Key)
    requires Between(c, key)
    ensures IsLowerBound(Items(Plug(c, Leaf)), key, |Before(c)|)
    ensures NodeAt(Items(Plug(c, Leaf)), |Before(c)|) == NodeAt(After(c), 0)
  {
    hide Plug, Before, After;
    PlugItems(c, Leaf);
    assert Items(Plug(c, Leaf)) == Before(c) + After(c);
    forall j | 0 <= j < |After(c)| ensures !Less(After(c)[j].key, key) {
      TotalOrder(key, After(c)[j].key, key);
    }
  }

  lemma Standing(a: seq<Item>, t: Tree, b: seq<Item>)
    requires t.Branch?
    ensures |Items(t.left)| < |Items(t)| && (a + Items(t) + b)[|a| + |Items(t.left)|] == Item(t.node, t.key)
  {
    assert Items(t)[|Items(t.left)|] == Item(t.node, t.key);
  }

  lemma EqualLowerBound(c: Context, t: Tree)
    requires t.Branch? && Sorted(Items(Plug(c, t)))
    ensures var at := |Before(c)| + |Items(t.left)|;
            IsLowerBound(Items(Plug(c, t)), t.key, at) && NodeAt(Items(Plug(c, t)), at) == t.node
  {
    hide Plug, Before, After, Items, Nodes, ContextNodes, Less;
    PlugItems(c, t);
    var s := Items(Plug(c, t));
    var at := |Before(c)| + |Items(t.left)|;
    Standing(Before(c), t, After(c));
    assert s[at] == Item(t.node, t.key);
    forall j | at <= j < |s| ensures !Less(s[j].key, t.key) {
      Asymmetric(t.key, s[j].key);
    }
  }

  /** The node at the lower bound, in terms of the nodes and their keys. */
  lemma NearestNode(t: Tree, key: Key, at: nat)
    requires Linked(t, null) && Sorted(Items(t)) && IsLowerBound(Items(t), key, at)
    ensures var res := NodeAt(Items(t), at);
            if res == null then forall n :: n in Nodes(t) ==> Less(n.key, key)
            else res in Nodes(t) && !Less(res.key, key)
                 && forall n :: n in Nodes(t) && n != res ==> Less(n.key, key) || Less(res.key, n.key)
  {
    hide Linked, Items, Nodes, Less;
    NodeIsItem(t, null);
    var s := Items(t);
    assert at < |s| ==> s[at] in s;
    forall n | n in Nodes(t) && (at < |s| ==> n != s[at].node)
      ensures Less(n.key, key) || (at < |s| && Less(s[at].key, n.key))
    {
      assert Item(n, n.key) in s;
      var j :| 0 <= j < |s| && s[j] == Item(n, n.key);
    }
  }

  /** RB_NFIND: the first node, in order, whose key is not less than the one searched for. */
  method NFind(h: Head, key: Key) returns (res: Node?, ghost at: nat)
    requires Valid(h)
    ensures IsLowerBound(Items(h.tree), key, at) && res == NodeAt(Items(h.tree), at)
    ensures if res == null then forall n :: n in Nodes(h.tree) ==> Less(n.key, key)
            else res in Nodes(h.tree) && !Less(res.key, key)
                 && forall n :: n in Nodes(h.tree) && n != res ==> Less(n.key, key) || Less(res.key, n.key)
  {
    hide Plug, Linked, Distinct, DistinctContext, Items, Nodes, RedBlack, Sorted, Before, After, Between, Compare, IsLowerBound, NodeAt;
    var tmp := h.root;
    res := null;
    ghost var c, t := Top, h.tree;
    PlugTop(t);
    TopBetween(key);
    TopAfter();
    while tmp != null
      invariant Valid(h) && h.tree == Plug(c, t) && tmp == Root(t) && Between(c, key)
      invariant res == NodeAt(After(c), 0)
      decreases t
    {
      var comp := Compare(key, tmp.key);
      h.At(c, L, t.left, t.node, t.color, t.key, t.right);
      TotalOrder(key, t.key, t.key);
      if comp < 0 {
        GoDown(c, t, key, L);
        res := tmp;
        tmp := tmp.left;
        c, t := Step(c, L, t.node, t.color, t.key, t.right), t.left;
        AfterLeft(c);
      } else if comp > 0 {
        GoDown(c, t, key, R);
        tmp := tmp.right;
        c, t := Step(c, R, t.node, t.color, t.key, t.left), t.right;
        AfterRight(c);
      } else {
        EqualLowerBound(c, t);
        at := |Before(c)| + |Items(t.left)|;
        NearestNode(h.tree, key, at);
        return tmp, at;
      }
      PlugDown(c, t);
    }
    LeafLowerBound(c, key);
    at := |Before(c)|;
    NearestNode(h.tree, key, at);
  }

  lemma TopAfter()
    ensures NodeAt(After(Top), 0) == null
  {}

  lemma AfterLeft(c: Context)
    requires c.Step? && c.side == L
    ensures NodeAt(After(c), 0) == c.node
  {}

  lemma AfterRight(c: Context)
    requires c.Step? && c.side == R
    ensures After(c) == After(c.up)
  {}

  lemma FirstItem(c: Context, t: Tree)
    requires t.Branch? && t.left == Leaf
    ensures NodeAt(Items(t) + After(c), 0) == t.node
  {}

  lemma GoLeft(c: Context, t: Tree)
    requires t.Branch?
    ensures Items(t) + After(c) == Items(t.left) + After(Step(c, L, t.node, t.color, t.key, t.right))
  {}

  lemma RightOf(c: Context, t: Tree)
    requires t.Branch?
    ensures After(Step(c, R, t.node, t.color, t.key, t.left)) == After(c)
  {}

  /** The sequence position of the root of a subtree, and what comes after it. */
  lemma PositionOf(c: Context, t: Tree, i: nat)
    requires t.Branch? && Distinct(Plug(c, t))
    requires i < |Items(Plug(c, t))| && Items(Plug(c, t))[i].node == t.node
    ensures i == |Before(c)| + |Items(t.left)|
    ensures NodeAt(Items(Plug(c, t)), i + 1) == NodeAt(Items(t.right) + After(c), 0)
  {
    hide Plug, Before, After;
    PlugItems(c, t);
    var s, a := Items(Plug(c, t)), Before(c) + Items(t.left);
    var here := Item(t.node, t.key);
    var b := Items(t.right) + After(c);
    assert s == a + [here] + b;
    DistinctItems(Plug(c, t), i, |a|);
  }

  /** No node is in the sequence twice. */
  lemma {:induction false} DistinctItems(t: Tree, i: nat, j: nat)
    requires Distinct(t) && i < |Items(t)| && j < |Items(t)| && Items(t)[i].node == Items(t)[j].node
    ensures i == j
  {
    var n := |Items(t.left)|;
    ItemIsNode(t.left);
    ItemIsNode(t.right);
    if i < n && j < n {
      DistinctItems(t.left, i, j);
    } else if i > n && j > n {
      DistinctItems(t.right, i - n - 1, j - n - 1);
    }
  }

  /** RB_NEXT: the node that follows in the sequence, null after the last. */
  method Next(h: Head, elm0: Node, ghost i: nat) returns (elm: Node?)
    requires h.Ok() && i < |Items(h.tree)| && Items(h.tree)[i].node == elm0
    ensures elm == NodeAt(Items(h.tree), i + 1)
  {
    hide Plug, Linked, Distinct, DistinctContext, Items, Nodes, Before, After, NodeAt;
    ItemIsNode(h.tree);
    ghost var c, t := Locate(h.tree, Top, elm0);
    PlugTop(h.tree);
    PositionOf(c, t, i);
    Family(h, c, t);
    if elm0.right != null {
      RightOf(c, t);
      PlugDown(Step(c, R, t.node, t.color, t.key, t.left), t.right);
      elm := Leftmost(h, elm0.right, Step(c, R, t.node, t.color, t.key, t.left), t.right);
    } else {
      NoRight(c, t);
      elm := Climb(h, elm0, c, t);
    }
  }

  lemma NoRight(c: Context, t: Tree)
    requires t.Branch? && t.right == Leaf
    ensures Items(t.right) + After(c) == After(c)
  {}

  method Leftmost(h: Head, elm0: Node, ghost c0: Context, ghost t0: Tree) returns (elm: Node)
    requires h.Ok() && h.tree == Plug(c0, t0) && t0.Branch? && elm0 == t0.node
    ensures elm == NodeAt(Items(t0) + After(c0), 0)
  {
    hide Plug, Linked, Distinct, DistinctContext, Items, Nodes, Before, After, NodeAt;
    elm := elm0;
    ghost var c, t := c0, t0;
    Family(h, c, t);
    while elm.left != null
      invariant h.Ok() && h.tree == Plug(c, t) && t.Branch? && elm == t.node && elm.left == Root(t.left)
      invariant Items(t0) + After(c0) == Items(t) + After(c)
      decreases t
    {
      elm := elm.left;
      GoLeft(c, t);
      c, t := Step(c, L, t.node, t.color, t.key, t.right), t.left;
      PlugDown(c, t);
      Family(h, c, t);
    }
    FirstItem(c, t);
  }

  /** Lines 676-684: up until the path comes from a left child; that parent is next. */
  method Climb(h: Head, elm0: Node, ghost c0: Context, ghost t0: Tree) returns (elm: Node?)
    requires h.Ok() && h.tree == Plug(c0, t0) && t0.Branch? && elm0 == t0.node
    ensures elm == NodeAt(After(c0), 0)
  {
    hide Plug, Linked, Distinct, DistinctContext, Items, Nodes, Before, After, NodeAt;
    var e := elm0;
    ghost var c, t := c0, t0;
    Family(h, c, t);
    if e.parent != null && e == e.parent.left {
      AfterLeft(c);
      return e.parent;
    }
    while e.parent != null && e == e.parent.right
      invariant h.Ok() && h.tree == Plug(c, t) && t.Branch? && e == t.node && e.parent == Parent(c) && After(c) == After(c0)
      invariant c.Step? ==> c.node.Child(c.side) == e && c.node.Child(c.side.Other()) != e
      decreases Depth(c)
    {
      AfterRight(c);
      PlugUp(c, t);
      e := e.parent;
      c, t := c.up, Join(c.side, t, c.node, c.color, c.key, c.far);
      Family(h, c, t);
    }
    elm := e.parent;
    if c.Step? { AfterLeft(c); } else { TopAfter(); }
  }
}
