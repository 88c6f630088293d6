/** RB_INSERT and RB_INSERT_COLOR of libuv/include/uv/tree.h. */
module RbInsert {
  import opened SignalKey
  import opened RbShape
  import opened RbLinks

  lemma JoinOther(side: Side, near: Tree, n: Node, color: Color, key: Key, far: Tree)
    ensures Join(side.Other(), far, n, color, key, near) == Join(side, near, n, color, key, far)
  {}

  /** The red-black measures of a node do not depend on the side. */
  lemma JoinRules(side: Side, near: Tree, n: Node, color: Color, key: Key, far: Tree)
    ensures var t := Join(side, near, n, color, key, far);
      && (Balanced(t) <==> Balanced(near) && Balanced(far) && Height(near) == Height(far))
      && (Height(near) == Height(far) ==> Height(t) == Height(near) + if color == Black then 1 else 0)
      && (NoRedRedBelow(t) <==> NoRedRed(near) && NoRedRed(far))
      && (NoRedRed(t) <==> NoRedRedBelow(t) && (color == Red ==> !IsRed(near) && !IsRed(far)))
      && (IsRed(t) <==> color == Red)
  {}

  ghost predicate Valid(h: Head)
    reads h, Nodes(h.tree)
  {
    h.Ok() && Sorted(Items(h.tree)) && RedBlack(h.tree)
  }

  /** The red node at the root of t may have a red parent; everything else is in order. */
  ghost predicate RedAt(c: Context, t: Tree)
    ensures RedAt(c, t) ==> t.Branch? && t.color == Red
  {
    && IsRed(t) && Balanced(t) && NoRedRed(t)
    && BalancedContext(c, Height(t)) && NoRedRedContext(c, false) && TopBlack(c)
  }

  /** A red parent is not the root, so there is a grandparent, and it is black. */
  lemma Grandparent(c: Context, t: Tree)
    requires RedAt(c, t) && c.Step? && c.color == Red
    ensures c.up.Step? && c.up.color == Black
    ensures NoRedRedContext(c.up, true) && NoRedRedContext(c.up.up, false) && TopBlack(c.up.up)
    ensures BalancedContext(c.up, Height(t)) && BalancedContext(c.up.up, Height(t) + 1)
    ensures Balanced(c.far) && Height(c.far) == Height(t) && NoRedRed(c.far) && !IsRed(c.far)
  {
    assert TopBlack(c.up);
    assert NoRedRedContext(c.up, true);
    assert BalancedContext(c.up, Height(t));
  }

  /** Line 416: the uncle is red; the red moves up two levels. */
  lemma RedUncleRule(c: Context, t: Tree, uncle: Tree)
    requires RedAt(c, t) && c.Step? && c.color == Red && c.up.Step?
    requires c.up.far.Branch? && c.up.far.color == Red && uncle == c.up.far.(color := Black)
    ensures RedAt(c.up.up, Join(c.up.side, Join(c.side, t, c.node, Black, c.key, c.far), c.up.node, Red, c.up.key, uncle))
  {
    Grandparent(c, t);
    var p := Join(c.side, t, c.node, Black, c.key, c.far);
    JoinRules(c.side, t, c.node, Black, c.key, c.far);
    JoinRules(c.up.side, p, c.up.node, Red, c.up.key, uncle);
  }

  method RedUncle(h: Head, gparent: Node, parent: Node, tmp: Node, ghost c: Context, ghost t: Tree)
    requires h.Ok() && h.tree == Plug(c, t) && c.Step? && c.up.Step? && c.up.far.Branch?
    requires gparent == c.up.node && parent == c.node && tmp == c.up.far.node
    modifies h, Nodes(h.tree)
    ensures h.Ok() && Nodes(h.tree) == old(Nodes(h.tree)) && Items(h.tree) == old(Items(h.tree))
    ensures h.tree == Plug(c.up.up, Join(c.up.side, Join(c.side, t, c.node, Black, c.key, c.far), c.up.node, Red, c.up.key,
                                         c.up.far.(color := Black)))
  {
    hide Items, Nodes, Linked, Distinct;
    ghost var g, s, u := c.up, c.up.side, c.up.far;
    ghost var p := Join(c.side, t, c.node, c.color, c.key, c.far);
    ghost var u' := u.(color := Black);
    JoinOther(s, p, g.node, g.color, g.key, u);
    h.Paint(tmp, Black, Step(g.up, s.Other(), g.node, g.color, g.key, p), L, u.left, u.color, u.key, u.right);
    JoinOther(s, p, g.node, g.color, g.key, u');
    h.Paint(parent, Black, Step(g.up, s, g.node, g.color, g.key, u'), c.side, t, c.color, c.key, c.far);
    h.Paint(gparent, Red, g.up, s, Join(c.side, t, c.node, Black, c.key, c.far), g.color, g.key, u');
  }

  /** Lines 422-427: the red node is the inner grandchild; after a rotation its parent is the outer one. */
  method RotateInner(h: Head, side: Side, parent: Node, ghost c: Context, ghost t: Tree, ghost near: Tree, ghost far: Tree)
    requires h.Ok() && h.tree == Plug(c, t) && c.Step? && c.up.Step? && side == c.up.side && c.side == side.Other()
    requires t.Branch? && t == Join(c.up.side, near, t.node, t.color, t.key, far) && parent == c.node
    modifies h, Nodes(h.tree)
    ensures h.Ok() && Nodes(h.tree) == old(Nodes(h.tree)) && Items(h.tree) == old(Items(h.tree))
    ensures h.tree == Plug(Step(c.up, c.up.side, t.node, t.color, t.key, far),
                           Join(c.up.side, c.far, c.node, c.color, c.key, near))
  {
    hide Items, Nodes, Linked, Distinct;
    JoinOther(c.up.side, c.far, c.node, c.color, c.key, t);
    var tmp := h.Rotate(side, parent, c.up, c.far, c.color, c.key, near, t.node, t.color, t.key, far);
  }

  /** Lines 428-429: recolour, and rotate the grandparent down to the other side. */
  method RotateOuter(h: Head, side: Side, gparent: Node, parent: Node, ghost c: Context, ghost t: Tree)
    requires h.Ok() && h.tree == Plug(c, t) && c.Step? && c.up.Step? && c.side == c.up.side == side
    requires gparent == c.up.node && parent == c.node
    modifies h, Nodes(h.tree)
    ensures h.Ok() && Nodes(h.tree) == old(Nodes(h.tree)) && Items(h.tree) == old(Items(h.tree))
    ensures h.tree == Plug(Step(c.up.up, c.side, c.node, Black, c.key,
                                Join(c.side, c.far, c.up.node, Red, c.up.key, c.up.far)), t)
  {
    hide Items, Nodes, Linked, Distinct;
    ghost var g, s := c.up, c.side;
    ghost var p := Join(s, t, c.node, Black, c.key, c.far);
    h.Paint(parent, Black, g, s, t, c.color, c.key, c.far);
    h.Paint(gparent, Red, g.up, s, p, g.color, g.key, g.far);
    JoinOther(s, p, g.node, Red, g.key, g.far);
    JoinOther(s, t, c.node, Black, c.key, c.far);
    var tmp := h.Rotate(side.Other(), gparent, g.up, g.far, Red, g.key, c.far, c.node, Black, c.key, t);
    JoinOther(s, c.far, g.node, Red, g.key, g.far);
    JoinOther(s, t, c.node, Black, c.key, Join(s, c.far, g.node, Red, g.key, g.far));
  }

  lemma RotateInnerRule(c: Context, t: Tree, near: Tree, far: Tree)
    requires RedAt(c, t) && c.Step? && c.color == Red && c.up.Step?
    requires t == Join(c.up.side, near, t.node, t.color, t.key, far)
    ensures RedAt(Step(c.up, c.up.side, t.node, t.color, t.key, far), Join(c.up.side, c.far, c.node, c.color, c.key, near))
  {
    Grandparent(c, t);
    JoinRules(c.up.side, near, t.node, t.color, t.key, far);
    JoinRules(c.up.side, c.far, c.node, c.color, c.key, near);
  }

  /** Here the uncle is black, so the grandparent may become red below the black parent. */
  lemma RotateOuterRule(c: Context, t: Tree)
    requires RedAt(c, t) && c.Step? && c.color == Red && c.up.Step? && c.side == c.up.side && !IsRed(c.up.far)
    ensures RedAt(Step(c.up.up, c.side, c.node, Black, c.key, Join(c.side, c.far, c.up.node, Red, c.up.key, c.up.far)), t)
  {
    Grandparent(c, t);
    JoinRules(c.side, c.far, c.up.node, Red, c.up.key, c.up.far);
  }

  /** The red grandchild, its parent and its grandparent, as the pointers show them. */
  lemma Family(h: Head, c: Context, t: Tree)
    requires h.Ok() && h.tree == Plug(c, t) && t.Branch?
    ensures t.node.parent == Parent(c) && t.node in Nodes(h.tree) && t.node.color == t.color
    ensures t.node.left == Root(t.left) && t.node.right == Root(t.right)
    ensures c.Step? ==>
      && c.node in Nodes(h.tree) && c.node.color == c.color && c.node.parent == Parent(c.up)
      && c.node.Child(c.side) == t.node && c.node.Child(c.side.Other()) == Root(c.far) != t.node
      && (c.far.Branch? ==> c.far.node in Nodes(h.tree) && c.far.node.color == c.far.color)
    ensures c.Top? <==> h.root == t.node
  {
    hide Linked, Distinct, DistinctContext, Items;
    h.At(c, L, t.left, t.node, t.color, t.key, t.right);
    if c.Step? {
      h.At(c.up, c.side, t, c.node, c.color, c.key, c.far);
      if c.far.Branch? {
        JoinOther(c.side, t, c.node, c.color, c.key, c.far);
        h.At(Step(c.up, c.side.Other(), c.node, c.color, c.key, t), L, c.far.left, c.far.node, c.far.color, c.far.key, c.far.right);
        h.RootInTree(c.far);
      }
    }
  }

  /** One round of the loop of RB_INSERT_COLOR: the parent of `elm` is red. */
  method InsertRound(h: Head, elm: Node, parent: Node, ghost c: Context, ghost t: Tree)
    returns (next: Node, ghost c': Context, ghost t': Tree)
    requires h.Ok() && h.tree == Plug(c, t) && RedAt(c, t) && elm == t.node
    requires c.Step? && parent == c.node && c.color == Red
    modifies h, Nodes(h.tree)
    ensures h.Ok() && Nodes(h.tree) == old(Nodes(h.tree)) && Items(h.tree) == old(Items(h.tree))
    ensures h.tree == Plug(c', t') && RedAt(c', t') && next == t'.node && Depth(c') < Depth(c)
  {
    hide Plug, RedAt, Linked, Distinct, DistinctContext, Items, Nodes;
    Family(h, c, t);
    Grandparent(c, t);
    PlugUp(c, t);
    Family(h, c.up, Join(c.side, t, c.node, c.color, c.key, c.far));
    var gparent := parent.parent;
    var side := if parent == gparent.left then L else R;
    assert side == c.up.side;
    var tmp := gparent.Child(side.Other());
    if tmp != null && tmp.color == Red {
      RedUncle(h, gparent, parent, tmp, c, t);
      RedUncleRule(c, t, c.up.far.(color := Black));
      return gparent, c.up.up,
        Join(c.up.side, Join(c.side, t, c.node, Black, c.key, c.far), c.up.node, Red, c.up.key, c.up.far.(color := Black));
    }
    var par := parent;
    next, c', t' := elm, c, t;
    if parent.Child(side.Other()) == elm {
      ghost var near, far := if side == L then t.left else t.right, if side == L then t.right else t.left;
      RotateInner(h, side, parent, c, t, near, far);
      RotateInnerRule(c, t, near, far);
      c' := Step(c.up, side, t.node, t.color, t.key, far);
      t' := Join(side, c.far, c.node, c.color, c.key, near);
      next, par := parent, elm;
    }
    RotateOuterRule(c', t');
    RotateOuter(h, side, gparent, par, c', t');
    c' := Step(c'.up.up, c'.side, c'.node, Black, c'.key, Join(c'.side, c'.far, c'.up.node, Red, c'.up.key, c'.up.far));
  }

  lemma PlugUp(c: Context, t: Tree)
    requires c.Step?
    ensures Plug(c, t) == Plug(c.up, Join(c.side, t, c.node, c.color, c.key, c.far))
  {}

  /** Where no red node has a red parent any more, painting the root black finishes. */
  lemma RedAtEnd(c: Context, t: Tree)
    requires RedAt(c, t) && (c.Step? ==> c.color == Black)
    ensures var all := Plug(c, t);
            all.Branch? && Balanced(all) && NoRedRed(all) && RedBlack(all.(color := Black))
  {
    PlugBalanced(c, t);
    PlugNoRedRed(c, t);
    PlugRoot(c, t);
  }

  method InsertColor(h: Head, elm0: Node, ghost c0: Context, ghost t0: Tree)
    requires h.Ok() && h.tree == Plug(c0, t0) && RedAt(c0, t0) && elm0 == t0.node
    modifies h, Nodes(h.tree)
    ensures h.Ok() && RedBlack(h.tree)
    ensures Nodes(h.tree) == old(Nodes(h.tree)) && Items(h.tree) == old(Items(h.tree))
  {
    hide Plug, RedAt, Linked, Distinct, DistinctContext, Items, Nodes, RedBlack;
    var elm := elm0;
    ghost var c, t := c0, t0;
    Family(h, c, t);
    while elm.parent != null && elm.parent.color == Red
      invariant h.Ok() && h.tree == Plug(c, t) && RedAt(c, t) && elm == t.node
      invariant elm.parent == Parent(c) && (c.Step? ==> c.node.color == c.color)
      invariant Nodes(h.tree) == old(Nodes(h.tree)) && Items(h.tree) == old(Items(h.tree))
      decreases Depth(c)
    {
      elm, c, t := InsertRound(h, elm, elm.parent, c, t);
      Family(h, c, t);
    }
    RedAtEnd(c, t);
    ghost var all := h.tree;
    PlugTop(all);
    Family(h, Top, all);
    h.Paint(h.root, Black, Top, L, all.left, all.color, all.key, all.right);
    PlugTop(all.(color := Black));
  }

  lemma PlugTop(t: Tree)
    ensures Plug(Top, t) == t
  {}

  /** Everything before the place of a key is less and everything after it greater. */
  ghost predicate Between(c: Context, key: Key) {
    && (forall i :: 0 <= i < |Before(c)| ==> Less(Before(c)[i].key, key))
    && (forall i :: 0 <= i < |After(c)| ==> Less(key, After(c)[i].key))
  }

  /** The search goes down to the side the comparison tells. */
  lemma GoDown(c: Context, t: Tree, key: Key, side: Side)
    requires t.Branch? && Sorted(Items(Plug(c, t))) && Between(c, key)
    requires if side == L then Less(key, t.key) else Less(t.key, key)
    ensures Between(Step(c, side, t.node, t.color, t.key, if side == L then t.right else t.left), key)
  {
    hide Plug, Nodes, ContextNodes, Less;
    PlugItems(c, t);
    var s := Items(Plug(c, t));
    var at := |Before(c)| + |Items(t.left)|;
    assert s[at] == Item(t.node, t.key);
    var c' := Step(c, side, t.node, t.color, t.key, if side == L then t.right else t.left);
    if side == L {
      forall i | 0 <= i < |After(c')| ensures Less(key, After(c')[i].key) {
        assert After(c')[i] == s[at + i];
        TotalOrder(key, t.key, s[at + i].key);
      }
    } else {
      forall i | 0 <= i < |Before(c')| ensures Less(Before(c')[i].key, key) {
        assert Before(c')[i] == s[i];
        TotalOrder(s[i].key, t.key, key);
      }
    }
  }

  /** Adding a leaf where the key belongs keeps the order. */
  lemma InsertSorted(a: seq<Item>, x: Item, b: seq<Item>)
    requires Sorted(a + b)
    requires forall i :: 0 <= i < |a| ==> Less(a[i].key, x.key)
    requires forall i :: 0 <= i < |b| ==> Less(x.key, b[i].key)
    ensures Sorted(a + [x] + b)
  {
    var s := a + [x] + b;
    forall i, j | 0 <= i < j < |s| ensures Less(s[i].key, s[j].key) {
      if i < |a| && j > |a| {
        assert (a + b)[i] == s[i] && (a + b)[j - 1] == s[j];
      } else if j < |a| {
        assert (a + b)[i] == s[i] && (a + b)[j] == s[j];
      } else if i > |a| {
        assert (a + b)[i - 1] == s[i] && (a + b)[j - 1] == s[j];
      }
    }
  }

  /** What a new red leaf does to the red-black rules and to the order. */
  lemma NewLeaf(c: Context, elm: Node, key: Key)
    requires RedBlack(Plug(c, Leaf)) && Sorted(Items(Plug(c, Leaf))) && Between(c, key)
    ensures var t := Branch(Leaf, elm, Red, key, Leaf);
            RedAt(c, t) && Items(Plug(c, t)) == Before(c) + [Item(elm, key)] + After(c) && Sorted(Items(Plug(c, t)))
    ensures Items(Plug(c, Leaf)) == Before(c) + After(c)
  {
    var t := Branch(Leaf, elm, Red, key, Leaf);
    PlugItems(c, Leaf);
    PlugItems(c, t);
    assert Before(c) + [] + After(c) == Before(c) + After(c);
    assert [] + [Item(elm, key)] + [] == [Item(elm, key)];
    PlugBalanced(c, Leaf);
    PlugNoRedRed(c, Leaf);
    PlugRoot(c, Leaf);
    InsertSorted(Before(c), Item(elm, key), After(c));
  }

  /**
   * RB_INSERT. A new key enters at the one place where the order allows it; a key that is there
   * already changes nothing, and its node is returned.
   */
  method Insert(h: Head, elm: Node) returns (found: Node?)
    requires Valid(h) && elm !in Nodes(h.tree)
    modifies h, Nodes(h.tree), elm
    ensures Valid(h) && elm.key == old(elm.key)
    ensures forall n | n in old(Nodes(h.tree)) && old(allocated(n)) :: n.key == old(n.key)
    ensures found != null ==> h.tree == old(h.tree) && Item(found, elm.key) in Items(h.tree)
    ensures found == null ==>
      && Nodes(h.tree) == old(Nodes(h.tree)) + {elm}
      && exists a, b :: old(Items(h.tree)) == a + b && Items(h.tree) == a + [Item(elm, elm.key)] + b
  {
    hide Plug, RedAt, Linked, Distinct, DistinctContext, Items, Nodes, RedBlack, Sorted, Before, After, Between, Compare;
    var tmp := h.root;
    var parent: Node? := null;
    var side := L;
    ghost var c, t := Top, h.tree;
    ghost var was := h.tree;
    NodeIsItem(was, null);
    PlugTop(t);
    TopBetween(elm.key);
    while tmp != null
      invariant Valid(h) && h.tree == old(h.tree) == Plug(c, t) && tmp == Root(t) && parent == Parent(c)
      invariant c.Step? ==> side == c.side
      invariant Between(c, elm.key) && elm.key == old(elm.key)
      invariant forall n | n in Nodes(was) && old(allocated(n)) :: n.key == old(n.key)
      decreases t
    {
      parent := tmp;
      var comp := Compare(elm.key, parent.key);
      h.At(c, L, t.left, t.node, t.color, t.key, t.right);
      TotalOrder(elm.key, t.key, t.key);
      if comp < 0 {
        GoDown(c, t, elm.key, L);
        tmp, side := tmp.left, L;
        c, t := Step(c, L, t.node, t.color, t.key, t.right), t.left;
      } else if comp > 0 {
        GoDown(c, t, elm.key, R);
        tmp, side := tmp.right, R;
        c, t := Step(c, R, t.node, t.color, t.key, t.left), t.right;
      } else {
        RootInItems(c, t);
        return tmp;
      }
      if c.side == L { PlugDown(c, t); } else { PlugDown(c, t); }
    }
    ghost var item := Item(elm, elm.key);
    NewLeaf(c, elm, elm.key);
    h.Attach(elm, parent, side, c);
    InsertColor(h, elm, c, Branch(Leaf, elm, Red, elm.key, Leaf));
    assert Items(h.tree)[|Before(c)|] == item && item in Items(h.tree);
    NodeIsItem(h.tree, null);
    forall n | n in Nodes(was) && old(allocated(n)) ensures n.key == old(n.key) {
      assert Item(n, old(n.key)) in Items(h.tree);
    }
    found := null;
  }

  lemma TopBetween(key: Key)
    ensures Between(Top, key)
  {}

  lemma RootInItems(c: Context, t: Tree)
    requires t.Branch?
    ensures Item(t.node, t.key) in Items(Plug(c, t))
  {
    PlugItems(c, t);
    assert Items(t)[|Items(t.left)|] == Item(t.node, t.key);
  }

  lemma PlugDown(c: Context, t: Tree)
    requires c.Step?
    ensures Plug(c, t) == Plug(c.up, if c.side == L then Branch(t, c.node, c.color, c.key, c.far) else Branch(c.far, c.node, c.color, c.key, t))
  {}
}
