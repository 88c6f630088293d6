/** RB_REMOVE and RB_REMOVE_COLOR of libuv/include/uv/tree.h. */
module RbRemove {
  import opened SignalKey
  import opened RbShape
  import opened RbLinks
  import opened RbInsert

  /** The subtree t lacks one black level; painting its root black would supply it if that root is red. */
  ghost predicate Deficient(c: Context, t: Tree)
    ensures Deficient(c, t) && c.Step? ==> c.far.Branch?
  {
    && Balanced(t) && NoRedRedBelow(t)
    && BalancedContext(c, Height(t) + 1) && NoRedRedContext(c, false) && TopBlack(c)
  }

  /** Lines 460-464: a red sibling is rotated up; the new sibling is black. */
  lemma RedSiblingRule(c: Context, t: Tree, near: Tree, far: Tree)
    requires Deficient(c, t) && c.Step? && c.far.Branch? && c.far.color == Red
    requires c.far == Join(c.side, near, c.far.node, Red, c.far.key, far)
    ensures near.Branch? && near.color == Black
    ensures Deficient(Step(Step(c.up, c.side, c.far.node, Black, c.far.key, far), c.side, c.node, Red, c.key, near), t)
  {
    JoinRules(c.side, near, c.far.node, Red, c.far.key, far);
    assert c.color == Black;
    assert TopBlack(c.up);
    assert BalancedContext(c.up, Height(t) + 2) && NoRedRedContext(c.up, false);
  }

  method RotateRedSibling(h: Head, side: Side, parent: Node, tmp: Node, ghost c: Context, ghost t: Tree, ghost near: Tree, ghost far: Tree)
    requires h.Ok() && h.tree == Plug(c, t) && c.Step? && c.far.Branch? && side == c.side
    requires parent == c.node && tmp == c.far.node
    requires c.far == Join(side, near, c.far.node, c.far.color, c.far.key, far)
    modifies h, Nodes(h.tree)
    ensures h.Ok() && Nodes(h.tree) == old(Nodes(h.tree)) && Items(h.tree) == old(Items(h.tree))
    ensures h.tree == Plug(Step(Step(c.up, side, tmp, Black, c.far.key, far), side, parent, Red, c.key, near), t)
  {
    hide Items, Nodes, Linked, Distinct;
    ghost var s := c.far;
    ghost var s' := Join(side, near, tmp, Black, s.key, far);
    JoinOther(side, t, parent, c.color, c.key, s);
    h.Paint(tmp, Black, Step(c.up, side.Other(), parent, c.color, c.key, t), side, near, s.color, s.key, far);
    JoinOther(side, t, parent, c.color, c.key, s');
    h.Paint(parent, Red, c.up, side, t, c.color, c.key, s');
    var top := h.Rotate(side, parent, c.up, t, Red, c.key, near, tmp, Black, s.key, far);
  }

  /** Lines 465-471: with two black nephews the sibling becomes red, and the parent's tree is the one that lacks a level. */
  lemma BlackNephewsRule(c: Context, t: Tree)
    requires Deficient(c, t) && c.Step? && c.far.Branch? && c.far.color == Black && !IsRed(t)
    requires !IsRed(c.far.left) && !IsRed(c.far.right)
    requires NoRedRed(t)
    ensures Deficient(c.up, Join(c.side, t, c.node, c.color, c.key, c.far.(color := Red)))
  {
    JoinRules(c.side, t, c.node, c.color, c.key, c.far.(color := Red));
    NoRedRedWeaken(c.up, c.color == Red);
    assert c.up.Step? ==> TopBlack(c.up);
  }

  method PaintSibling(h: Head, side: Side, tmp: Node, ghost c: Context, ghost t: Tree)
    requires h.Ok() && h.tree == Plug(c, t) && c.Step? && c.far.Branch? && side == c.side && tmp == c.far.node
    modifies h, Nodes(h.tree)
    ensures h.Ok() && Nodes(h.tree) == old(Nodes(h.tree)) && Items(h.tree) == old(Items(h.tree))
    ensures h.tree == Plug(c.up, Join(side, t, c.node, c.color, c.key, c.far.(color := Red)))
  {
    hide Items, Nodes, Linked, Distinct;
    ghost var s := c.far;
    JoinOther(side, t, c.node, c.color, c.key, s);
    h.Paint(tmp, Red, Step(c.up, side.Other(), c.node, c.color, c.key, t), L, s.left, s.color, s.key, s.right);
    JoinOther(side, t, c.node, c.color, c.key, s.(color := Red));
  }

  /** Lines 473-482: a red near nephew is rotated up, so that the far nephew is red. */
  lemma NearNephewRule(c: Context, t: Tree, nn: Tree, n: Tree, nf: Tree, far: Tree)
    requires Deficient(c, t) && c.Step? && c.far.Branch? && c.far.color == Black
    requires n.Branch? && n == Join(c.side, nn, n.node, Red, n.key, nf)
    requires c.far == Join(c.side, n, c.far.node, Black, c.far.key, far) && !IsRed(far)
    ensures var far' := Join(c.side, nf, c.far.node, Red, c.far.key, far);
            IsRed(far') && Deficient(c.(far := Join(c.side, nn, n.node, Black, n.key, far')), t)
  {
    JoinRules(c.side, nn, n.node, Red, n.key, nf);
    JoinRules(c.side, n, c.far.node, Black, c.far.key, far);
    JoinRules(c.side, nf, c.far.node, Red, c.far.key, far);
    JoinRules(c.side, nn, n.node, Black, n.key, Join(c.side, nf, c.far.node, Red, c.far.key, far));
  }

  method RotateNearNephew(h: Head, side: Side, tmp: Node, oleft: Node, ghost c: Context, ghost t: Tree,
                          ghost nn: Tree, ghost n: Tree, ghost nf: Tree, ghost far: Tree)
    requires h.Ok() && h.tree == Plug(c, t) && c.Step? && c.far.Branch? && side == c.side
    requires tmp == c.far.node && n.Branch? && oleft == n.node
    requires n == Join(side, nn, n.node, n.color, n.key, nf)
    requires c.far == Join(side, n, c.far.node, c.far.color, c.far.key, far)
    modifies h, Nodes(h.tree)
    ensures h.Ok() && Nodes(h.tree) == old(Nodes(h.tree)) && Items(h.tree) == old(Items(h.tree))
    ensures h.tree == Plug(c.(far := Join(side, nn, oleft, Black, n.key, Join(side, nf, tmp, Red, c.far.key, far))), t)
  {
    hide Items, Nodes, Linked, Distinct;
    ghost var s, o := c.far, side.Other();
    ghost var sc := Step(c.up, o, c.node, c.color, c.key, t);
    ghost var n' := Join(side, nn, oleft, Black, n.key, nf);
    JoinOther(side, t, c.node, c.color, c.key, s);
    h.Paint(oleft, Black, Step(sc, side, tmp, s.color, s.key, far), side, nn, n.color, n.key, nf);
    h.Paint(tmp, Red, sc, side, n', s.color, s.key, far);
    JoinOther(side, n', tmp, Red, s.key, far);
    JoinOther(side, nn, oleft, Black, n.key, nf);
    var top := h.Rotate(side.Other(), tmp, sc, far, Red, s.key, nf, oleft, Black, n.key, nn);
    ghost var far' := Join(side, nf, tmp, Red, s.key, far);
    JoinOther(side, nf, tmp, Red, s.key, far);
    JoinOther(side, nn, oleft, Black, n.key, far');
    JoinOther(side, t, c.node, c.color, c.key, Join(side, nn, oleft, Black, n.key, far'));
  }

  /** Lines 483-489: with a red far nephew a last rotation supplies the missing level everywhere. */
  lemma FarNephewRule(c: Context, t: Tree, near: Tree, far: Tree)
    requires Deficient(c, t) && c.Step? && c.far.Branch? && c.far.color == Black && NoRedRed(t) && !IsRed(t)
    requires c.far == Join(c.side, near, c.far.node, Black, c.far.key, far) && IsRed(far)
    ensures var all := Plug(c.up, Join(c.side, Join(c.side, t, c.node, Black, c.key, near), c.far.node, c.color, c.far.key,
                                       far.(color := Black)));
            Deficient(Top, all) && !IsRed(all)
  {
    var p := Join(c.side, t, c.node, Black, c.key, near);
    var u := Join(c.side, p, c.far.node, c.color, c.far.key, far.(color := Black));
    JoinRules(c.side, near, c.far.node, Black, c.far.key, far);
    JoinRules(c.side, t, c.node, Black, c.key, near);
    JoinRules(c.side, p, c.far.node, c.color, c.far.key, far.(color := Black));
    PlugBalanced(c.up, u);
    PlugNoRedRed(c.up, u);
    PlugRoot(c.up, u);
    assert c.up.Step? ==> TopBlack(c.up);
  }

  method RotateFarNephew(h: Head, side: Side, parent: Node, tmp: Node, nephew: Node, ghost c: Context, ghost t: Tree, ghost near: Tree, ghost far: Tree)
    requires h.Ok() && h.tree == Plug(c, t) && c.Step? && c.far.Branch? && side == c.side
    requires parent == c.node && tmp == c.far.node && far.Branch? && nephew == far.node
    requires parent.color == c.color
    requires c.far == Join(side, near, c.far.node, c.far.color, c.far.key, far)
    modifies h, Nodes(h.tree)
    ensures h.Ok() && Nodes(h.tree) == old(Nodes(h.tree)) && Items(h.tree) == old(Items(h.tree))
    ensures h.tree == Plug(c.up, Join(side, Join(side, t, parent, Black, c.key, near), tmp, c.color, c.far.key, far.(color := Black)))
  {
    hide Items, Nodes, Linked, Distinct;
    ghost var s, o := c.far, side.Other();
    ghost var s' := Join(side, near, tmp, c.color, s.key, far);
    ghost var s'' := Join(side, near, tmp, c.color, s.key, far.(color := Black));
    JoinOther(side, t, parent, c.color, c.key, s);
    h.Paint(tmp, parent.color, Step(c.up, o, parent, c.color, c.key, t), side, near, s.color, s.key, far);
    JoinOther(side, t, parent, c.color, c.key, s');
    h.Paint(parent, Black, c.up, side, t, c.color, c.key, s');
    JoinOther(side, t, parent, Black, c.key, s');
    JoinOther(side, near, tmp, c.color, s.key, far);
    h.Paint(nephew, Black, Step(Step(c.up, o, parent, Black, c.key, t), o, tmp, c.color, s.key, near), L, far.left, far.color, far.key, far.right);
    JoinOther(side, near, tmp, c.color, s.key, far.(color := Black));
    JoinOther(side, t, parent, Black, c.key, s'');
    var top := h.Rotate(side, parent, c.up, t, Black, c.key, near, tmp, c.color, s.key, far.(color := Black));
  }

  lemma BlackRoot(t: Tree)
    requires NoRedRedBelow(t) && !IsRed(t)
    ensures NoRedRed(t)
  {}

  /** The subtree that hangs on a side, and the one on the other side. */
  ghost function Sub(t: Tree, side: Side): Tree
    requires t.Branch?
  {
    if side == L then t.left else t.right
  }

  lemma SubJoin(t: Tree, side: Side)
    requires t.Branch?
    ensures t == Join(side, Sub(t, side), t.node, t.color, t.key, Sub(t, side.Other()))
    ensures !IsRed(Sub(t, side)) && !IsRed(Sub(t, side.Other())) <==> !IsRed(t.left) && !IsRed(t.right)
  {}

  /** What the pointers show around a subtree that may be empty: its parent and its sibling with its children. */
  lemma Siblings(h: Head, c: Context, t: Tree)
    requires h.Ok() && h.tree == Plug(c, t)
    ensures c.Top? ==> h.root == Root(t)
    ensures t.Branch? ==> t.node.color == t.color && t.node.parent == Parent(c) && t.node in Nodes(h.tree)
    ensures c.Step? ==>
      && c.node in Nodes(h.tree) && c.node.color == c.color && c.node.parent == Parent(c.up)
      && c.node.Child(c.side) == Root(t) && c.node.Child(c.side.Other()) == Root(c.far)
      && (c.far.Branch? ==> Root(t) != c.far.node && Watched(h, c.far))
    ensures c.Step? ==> h.root != Root(t) && h.root != null
  {
    hide Linked, Distinct, DistinctContext, Items;
    if t.Branch? {
      Family(h, c, t);
    }
    PlugTop(h.tree);
    if c.Step? {
      Family(h, c.up, Join(c.side, t, c.node, c.color, c.key, c.far));
      h.At(c.up, c.side, t, c.node, c.color, c.key, c.far);
      h.Focus(c, t);
      h.RootInContext(c, Root(t));
      h.RootInTree(t);
      if c.far.Branch? {
        WatchFar(h, c, t);
      }
    }
  }

  /** The sibling's colour, its children and their colours can be read off the nodes. */
  ghost predicate Watched(h: Head, s: Tree)
    requires s.Branch?
    reads h, Nodes(h.tree), Nodes(s)
  {
    && s.node in Nodes(h.tree) && s.node.color == s.color
    && s.node.left == Root(s.left) && s.node.right == Root(s.right)
    && (s.left.Branch? ==> s.left.node in Nodes(h.tree) && s.left.node.color == s.left.color)
    && (s.right.Branch? ==> s.right.node in Nodes(h.tree) && s.right.node.color == s.right.color)
  }

  lemma WatchFar(h: Head, c: Context, t: Tree)
    requires h.Ok() && h.tree == Plug(c, t) && c.Step? && c.far.Branch?
    ensures Watched(h, c.far) && c.far.node != Root(t)
  {
    hide Plug, Distinct, DistinctContext;
    h.Focus(c, t);
    h.RootInTree(t);
    h.RootInTree(c.far.left);
    h.RootInTree(c.far.right);
    var s := c.far;
    assert Linked(s, c.node);
    assert Linked(s.left, s.node) && Linked(s.right, s.node);
    assert Nodes(s) == Nodes(s.left) + {s.node} + Nodes(s.right) && Nodes(s) <= ContextNodes(c);
  }

  /** One round of the loop of RB_REMOVE_COLOR. */
  method RemoveRound(h: Head, elm: Node?, parent: Node, ghost c: Context, ghost t: Tree)
    returns (elm': Node?, parent': Node?, ghost c': Context, ghost t': Tree)
    requires h.Ok() && h.tree == Plug(c, t) && Deficient(c, t) && elm == Root(t)
    requires c.Step? && parent == c.node && !IsRed(t)
    modifies h, Nodes(h.tree)
    ensures h.Ok() && Nodes(h.tree) == old(Nodes(h.tree)) && Items(h.tree) == old(Items(h.tree))
    ensures h.tree == Plug(c', t') && Deficient(c', t') && elm' == Root(t') && parent' == Parent(c')
    ensures IsRed(t') || Depth(c') < Depth(c)
  {
    hide Plug, Deficient, Linked, Distinct, DistinctContext, Items, Nodes;
    Siblings(h, c, t);
    var side := if parent.left == elm then L else R;
    assert side == c.side;
    var tmp := parent.Child(side.Other());
    c', t' := c, t;
    SubJoin(c.far, side);
    if tmp.color == Red {
      ghost var near, far := Sub(c.far, side), Sub(c.far, side.Other());
      RedSiblingRule(c, t, near, far);
      RotateRedSibling(h, side, parent, tmp, c, t, near, far);
      c' := Step(Step(c.up, side, tmp, Black, c.far.key, far), side, parent, Red, c.key, near);
      Siblings(h, c', t);
      tmp := parent.Child(side.Other());
    }
    elm', parent', c', t' := RemoveRoundBlack(h, side, parent, tmp, c', t);
  }

  /** The rest of the round, where the sibling is black. */
  method RemoveRoundBlack(h: Head, side: Side, parent: Node, tmp: Node, ghost c: Context, ghost t: Tree)
    returns (elm': Node?, parent': Node?, ghost c': Context, ghost t': Tree)
    requires h.Ok() && h.tree == Plug(c, t) && Deficient(c, t) && !IsRed(t)
    requires c.Step? && side == c.side && c.far.Branch? && parent == c.node && tmp == c.far.node && c.far.color == Black
    modifies h, Nodes(h.tree)
    ensures h.Ok() && Nodes(h.tree) == old(Nodes(h.tree)) && Items(h.tree) == old(Items(h.tree))
    ensures h.tree == Plug(c', t') && Deficient(c', t') && elm' == Root(t') && parent' == Parent(c')
    ensures c'.Top? || (c' == c.up && (IsRed(t') <==> c.color == Red))
  {
    hide Plug, Linked, Distinct, DistinctContext, Items, Nodes, Balanced, BalancedContext, NoRedRedContext, NoRedRed, Height;
    Siblings(h, c, t);
    SubJoin(c.far, side);
    BlackRoot(t);
    if (tmp.left == null || tmp.left.color == Black) && (tmp.right == null || tmp.right.color == Black) {
      BlackNephewsRule(c, t);
      PaintSibling(h, side, tmp, c, t);
      elm', c', t' := parent, c.up, Join(side, t, c.node, c.color, c.key, c.far.(color := Red));
      Siblings(h, c', t');
      return elm', elm'.parent, c', t';
    }
    ghost var near, far := Sub(c.far, side), Sub(c.far, side.Other());
    var nephew := tmp.Child(side.Other());
    if nephew == null || nephew.color == Black {
      var oleft := tmp.Child(side);
      ghost var nn, nf := Sub(near, side), Sub(near, side.Other());
      SubJoin(near, side);
      NearNephewRule(c, t, nn, near, nf, far);
      RotateNearNephew(h, side, tmp, oleft, c, t, nn, near, nf, far);
      ghost var far' := Join(side, nf, tmp, Red, c.far.key, far);
      ghost var c1 := c.(far := Join(side, nn, oleft, Black, near.key, far'));
      elm', t' := SupplyLevel(h, side, parent, c1, t, nn, far');
    } else {
      elm', t' := SupplyLevel(h, side, parent, c, t, near, far);
    }
    parent', c' := null, Top;
  }

  /** The end of the round that breaks the loop: elm becomes the root. */
  method SupplyLevel(h: Head, side: Side, parent: Node, ghost c: Context, ghost t: Tree, ghost near: Tree, ghost far: Tree)
    returns (elm': Node?, ghost t': Tree)
    requires h.Ok() && h.tree == Plug(c, t) && Deficient(c, t) && !IsRed(t) && NoRedRed(t)
    requires c.Step? && side == c.side && c.far.Branch? && parent == c.node && c.far.color == Black
    requires c.far == Join(side, near, c.far.node, Black, c.far.key, far) && IsRed(far)
    modifies h, Nodes(h.tree)
    ensures h.Ok() && Nodes(h.tree) == old(Nodes(h.tree)) && Items(h.tree) == old(Items(h.tree))
    ensures h.tree == t' == Plug(Top, t') && Deficient(Top, t') && elm' == Root(t')
  {
    hide Plug, Linked, Distinct, DistinctContext, Items, Nodes, Deficient, NoRedRed;
    Siblings(h, c, t);
    var tmp := parent.Child(side.Other());
    var nephew := tmp.Child(side.Other());
    FarNephewRule(c, t, near, far);
    RotateFarNephew(h, side, parent, tmp, nephew, c, t, near, far);
    t' := h.tree;
    PlugTop(t');
    elm' := h.root;
  }

  /** Lines 526-527: painting the root of the deficient subtree black ends the repair. */
  lemma DeficientEnd(c: Context, t: Tree)
    requires Deficient(c, t) && (IsRed(t) || c.Top?)
    ensures RedBlack(Plug(c, if t.Leaf? then t else t.(color := Black)))
  {
    if t.Branch? {
      var t' := t.(color := Black);
      assert Plug(Top, t') == t';
      if IsRed(t) {
        PlugBalanced(c, t');
        PlugNoRedRed(c, t');
        PlugRoot(c, t');
      }
    }
  }

  method RemoveColor(h: Head, parent0: Node?, elm0: Node?, ghost c0: Context, ghost t0: Tree)
    requires h.Ok() && h.tree == Plug(c0, t0) && Deficient(c0, t0) && elm0 == Root(t0) && parent0 == Parent(c0)
    modifies h, Nodes(h.tree)
    ensures h.Ok() && RedBlack(h.tree)
    ensures Nodes(h.tree) == old(Nodes(h.tree)) && Items(h.tree) == old(Items(h.tree))
  {
    hide Plug, Deficient, Linked, Distinct, DistinctContext, Items, Nodes, RedBlack;
    var elm, parent := elm0, parent0;
    ghost var c, t := c0, t0;
    Siblings(h, c, t);
    while (elm == null || elm.color == Black) && elm != h.root
      invariant h.Ok() && h.tree == Plug(c, t) && Deficient(c, t) && elm == Root(t) && parent == Parent(c)
      invariant t.Branch? ==> t.node.color == t.color
      invariant elm != h.root <==> c.Step?
      invariant Nodes(h.tree) == old(Nodes(h.tree)) && Items(h.tree) == old(Items(h.tree))
      decreases if IsRed(t) then 0 else 1, Depth(c)
    {
      elm, parent, c, t := RemoveRound(h, elm, parent, c, t);
      Siblings(h, c, t);
    }
    DeficientEnd(c, t);
    if elm != null {
      h.Paint(elm, Black, c, L, t.left, t.color, t.key, t.right);
    }
  }

  // ---------- Taking a node out ----------

  /** The hole of `inner`, a context inside the subtree that fills the hole of `outer`. */
  ghost function Compose(outer: Context, inner: Context): Context {
    if inner.Top? then outer else inner.(up := Compose(outer, inner.up))
  }

  lemma {:induction false} ComposePlug(outer: Context, inner: Context, t: Tree)
    ensures Plug(Compose(outer, inner), t) == Plug(outer, Plug(inner, t))
  {
    if inner.Step? {
      ComposePlug(outer, inner.up, Join(inner.side, t, inner.node, inner.color, inner.key, inner.far));
    }
  }

  lemma {:induction false} ComposeParent(outer: Context, inner: Context)
    requires outer.Step?
    ensures Parent(Compose(outer, inner)) == if inner.Top? then outer.node else inner.node
    ensures outer.node in ContextNodes(Compose(outer, inner))
    ensures DistinctContext(Compose(outer, inner)) && inner.Step? ==> inner.node != outer.node
  {
    if inner.Step? {
      ComposeParent(outer, inner.up);
    }
  }

  /** A black node with at most one child leaves its child one level short. */
  lemma SpliceBlackRule(c: Context, side: Side, n: Node, key: Key, t: Tree)
    requires RedBlack(Plug(c, Join(side, Leaf, n, Black, key, t)))
    ensures Deficient(c, t)
  {
    var whole := Join(side, Leaf, n, Black, key, t);
    JoinRules(side, Leaf, n, Black, key, t);
    PlugBalanced(c, whole);
    PlugNoRedRed(c, whole);
    PlugRoot(c, whole);
  }

  /** A red node with at most one child has none, and nothing needs repair. */
  lemma SpliceRedRule(c: Context, side: Side, n: Node, key: Key, t: Tree)
    requires RedBlack(Plug(c, Join(side, Leaf, n, Red, key, t)))
    ensures RedBlack(Plug(c, t))
  {
    var whole := Join(side, Leaf, n, Red, key, t);
    JoinRules(side, Leaf, n, Red, key, t);
    PlugBalanced(c, whole);
    PlugNoRedRed(c, whole);
    PlugRoot(c, whole);
    PlugRoot(c, t);
    NoRedRedWeaken(c, IsRed(whole));
    PlugBalanced(c, t);
    PlugNoRedRed(c, t);
  }

  /** The rules look at colours only: another node in the same place does not matter to them. */
  lemma {:induction false} SameRules(c: Context, l: Tree, x: Node, kx: Key, y: Node, ky: Key, color: Color, inner: Context, t: Tree)
    ensures var a, b := Compose(Step(c, R, x, color, kx, l), inner), Compose(Step(c, R, y, color, ky, l), inner);
      && (forall h :: BalancedContext(a, h) <==> BalancedContext(b, h))
      && (forall red :: NoRedRedContext(a, red) <==> NoRedRedContext(b, red))
      && (TopBlack(a) <==> TopBlack(b))
      && a.Step? && b.Step?
  {
    if inner.Step? {
      SameRules(c, l, x, kx, y, ky, color, inner.up, t);
    }
  }

  /** So a tree with y where x was is as good, and as deficient, as the one with x. */
  lemma SubstituteRule(c: Context, l: Tree, x: Node, kx: Key, y: Node, ky: Key, color: Color, inner: Context, t: Tree)
    ensures Deficient(Compose(Step(c, R, x, color, kx, l), inner), t) <==> Deficient(Compose(Step(c, R, y, color, ky, l), inner), t)
    ensures RedBlack(Plug(Compose(Step(c, R, x, color, kx, l), inner), t))
       <==> RedBlack(Plug(Compose(Step(c, R, y, color, ky, l), inner), t))
  {
    var a, b := Compose(Step(c, R, x, color, kx, l), inner), Compose(Step(c, R, y, color, ky, l), inner);
    SameRules(c, l, x, kx, y, ky, color, inner, t);
    PlugBalanced(a, t);
    PlugBalanced(b, t);
    PlugNoRedRed(a, t);
    PlugNoRedRed(b, t);
    PlugRoot(a, t);
    PlugRoot(b, t);
  }

  ghost predicate Without(before: seq<Item>, n: Node, after: seq<Item>) {
    exists i :: 0 <= i < |before| && before[i].node == n && after == before[..i] + before[i + 1..]
  }

  lemma WithoutAt(a: seq<Item>, x: Item, b: seq<Item>)
    ensures Without(a + [x] + b, x.node, a + b)
  {
    var s := a + [x] + b;
    assert s[|a|] == x && s[..|a|] == a && s[|a| + 1..] == b;
  }

  lemma WithoutBeside(a: seq<Item>, x: Item, m: seq<Item>, b: seq<Item>)
    ensures Without(a + ([x] + m) + b, x.node, a + m + b)
    ensures Without(a + (m + [x]) + b, x.node, a + m + b)
  {
    hide Without;
    WithoutAt(a, x, m + b);
    assert a + ([x] + m) + b == a + [x] + (m + b) && a + m + b == a + (m + b);
    WithoutAt(a + m, x, b);
    assert a + (m + [x]) + b == (a + m) + [x] + b;
  }

  lemma SpliceItems(c: Context, side: Side, n: Node, color: Color, key: Key, t: Tree)
    ensures Without(Items(Plug(c, Join(side, Leaf, n, color, key, t))), n, Items(Plug(c, t)))
  {
    hide Plug, Before, After, Without;
    var whole := Join(side, Leaf, n, color, key, t);
    PlugItems(c, whole);
    PlugItems(c, t);
    assert Items(whole) == if side == L then [Item(n, key)] + Items(t) else Items(t) + [Item(n, key)];
    WithoutBeside(Before(c), Item(n, key), Items(t), After(c));
  }

  lemma WithoutBetween(a: seq<Item>, l: seq<Item>, x: Item, m: seq<Item>, b: seq<Item>)
    ensures Without(a + (l + [x] + m) + b, x.node, a + (l + m) + b)
  {
    hide Without;
    WithoutAt(a + l, x, m + b);
    assert a + (l + [x] + m) + b == (a + l) + [x] + (m + b);
    assert a + (l + m) + b == (a + l) + (m + b);
  }

  /** The leftmost node of the right subtree takes the place of the removed one. */
  lemma SubstituteItems(c: Context, l: Tree, x: Node, color: Color, kx: Key, inner: Context, y: Node, cy: Color, ky: Key, t: Tree)
    requires Before(inner) == []
    ensures Without(Items(Plug(c, Branch(l, x, color, kx, Plug(inner, Branch(Leaf, y, cy, ky, t))))), x,
                    Items(Plug(c, Branch(l, y, color, ky, Plug(inner, t)))))
  {
    hide Plug, Before, After, Without;
    var r, r' := Plug(inner, Branch(Leaf, y, cy, ky, t)), Plug(inner, t);
    SuccessorItems(inner, y, cy, ky, t);
    PlugItems(c, Branch(l, x, color, kx, r));
    PlugItems(c, Branch(l, y, color, ky, r'));
    assert Items(l) + [Item(y, ky)] + Items(r') == Items(l) + Items(r);
    WithoutBetween(Before(c), Items(l), Item(x, kx), Items(r), After(c));
  }

  lemma SuccessorItems(inner: Context, y: Node, cy: Color, ky: Key, t: Tree)
    requires Before(inner) == []
    ensures Items(Plug(inner, Branch(Leaf, y, cy, ky, t))) == [Item(y, ky)] + Items(Plug(inner, t))
  {
    hide Plug, Before, After;
    PlugItems(inner, Branch(Leaf, y, cy, ky, t));
    PlugItems(inner, t);
    var here := [Item(y, ky)];
    assert Items(Branch(Leaf, y, cy, ky, t)) == here + Items(t);
    assert [] + (here + Items(t)) + After(inner) == here + ([] + Items(t) + After(inner));
  }

  lemma WithoutIncludes(before: seq<Item>, n: Node, after: seq<Item>)
    requires Without(before, n, after)
    ensures forall x :: x in after ==> x in before
  {}

  lemma WithoutSorted(before: seq<Item>, n: Node, after: seq<Item>)
    requires Sorted(before) && Without(before, n, after)
    ensures Sorted(after)
  {
    hide Less;
    var k :| 0 <= k < |before| && before[k].node == n && after == before[..k] + before[k + 1..];
    forall i, j | 0 <= i < j < |after| ensures Less(after[i].key, after[j].key) {
      var i' := if i < k then i else i + 1;
      var j' := if j < k then j else j + 1;
      assert before[i'] == after[i] && before[j'] == after[j];
    }
  }

  /**
   * RB_REMOVE: exactly the given node leaves the tree. With two children its in-order successor
   * takes its place and colour, and the repair starts where the successor was.
   */
  method Remove(h: Head, elm: Node) returns (removed: Node)
    requires Valid(h) && elm in Nodes(h.tree)
    modifies h, Nodes(h.tree)
    ensures Valid(h) && removed == elm
    ensures forall n | n in old(Nodes(h.tree)) && old(allocated(n)) :: n.key == old(n.key)
    ensures Nodes(h.tree) == old(Nodes(h.tree)) - {elm}
    ensures Without(old(Items(h.tree)), elm, Items(h.tree))
  {
    hide Plug, Deficient, Linked, Distinct, DistinctContext, Items, Nodes, RedBlack, Sorted, Without;
    ghost var c, t := Locate(h.tree, Top, elm);
    PlugTop(h.tree);
    Family(h, c, t);
    ghost var was, wasTree := Items(h.tree), h.tree;
    NodeIsItem(wasTree, null);
    if elm.left == null {
      RemoveOne(h, elm, elm.right, R, c, t);
    } else if elm.right == null {
      RemoveOne(h, elm, elm.left, L, c, t);
    } else {
      RemoveInner(h, elm, c, t);
    }
    WithoutSorted(was, elm, Items(h.tree));
    NodeIsItem(h.tree, null);
    WithoutIncludes(was, elm, Items(h.tree));
    forall n | n in Nodes(wasTree) && old(allocated(n)) ensures n.key == old(n.key) {
      if n != elm {
        assert Item(n, n.key) in was;
      }
    }
    removed := elm;
  }

  /** A node with at most one child, which hangs on the given side. */
  method RemoveOne(h: Head, elm: Node, child: Node?, ghost side: Side, ghost c: Context, ghost t: Tree)
    requires h.Ok() && h.tree == Plug(c, t) && RedBlack(h.tree) && t.Branch? && elm == t.node
    requires Sub(t, side.Other()) == Leaf && child == Root(Sub(t, side))
    modifies h, Nodes(h.tree)
    ensures h.Ok() && RedBlack(h.tree)
    ensures Nodes(h.tree) == old(Nodes(h.tree)) - {elm} && elm.key == old(elm.key)
    ensures Without(old(Items(h.tree)), elm, Items(h.tree))
  {
    hide Plug, Deficient, Linked, Distinct, DistinctContext, Items, Nodes, RedBlack, Without;
    Family(h, c, t);
    ghost var sub, o := Sub(t, side), side.Other();
    SubJoin(t, o);
    SpliceItems(c, o, elm, t.color, t.key, sub);
    if t.color == Black {
      SpliceBlackRule(c, o, elm, t.key, sub);
    } else {
      SpliceRedRule(c, o, elm, t.key, sub);
    }
    var parent := elm.parent;
    var color := elm.color;
    h.Splice(elm, child, c, o, t.color, t.key, sub);
    if color == Black {
      RemoveColor(h, parent, child, c, sub);
    }
  }

  /** Lines 541-543: down the left links from the right child. */
  method Successor(h: Head, elm0: Node, ghost c: Context, ghost r: Tree)
    returns (elm: Node, ghost inner: Context, ghost t: Tree)
    requires h.Ok() && h.tree == Plug(c, r) && r.Branch? && elm0 == r.node
    ensures t.Branch? && t.left == Leaf && elm == t.node && r == Plug(inner, t) && Before(inner) == []
    ensures h.Ok() && h.tree == Plug(Compose(c, inner), t) && elm.left == null && elm.right == Root(t.right)
    ensures elm.color == t.color && elm.key == t.key && elm in Nodes(h.tree) && elm.parent == Parent(Compose(c, inner))
  {
    hide Plug, Linked, Distinct, DistinctContext, Items, Nodes;
    elm, inner, t := elm0, Top, r;
    PlugTop(r);
    ComposePlug(c, Top, r);
    Family(h, c, r);
    while elm.left != null
      invariant t.Branch? && elm == t.node && r == Plug(inner, t) && Before(inner) == []
      invariant h.Ok() && h.tree == Plug(Compose(c, inner), t)
      invariant elm.left == Root(t.left) && elm.right == Root(t.right) && elm.color == t.color && elm in Nodes(h.tree)
      invariant elm.parent == Parent(Compose(c, inner))
      decreases t
    {
      elm := elm.left;
      ghost var up := inner;
      inner, t := Step(inner, L, t.node, t.color, t.key, t.right), t.left;
      PlugDown(inner, t);
      ComposePlug(c, inner, t);
      Family(h, Compose(c, inner), t);
    }
    h.At(Compose(c, inner), L, t.left, t.node, t.color, t.key, t.right);
  }

  /** What the successor leaves behind, once it stands in the place of the removed node. */
  lemma SuccessorRule(c: Context, l: Tree, x: Node, kx: Key, y: Node, ky: Key, color: Color, inner: Context, s: Tree)
    requires s.Branch? && s.left == Leaf && RedBlack(Plug(Compose(Step(c, R, x, color, kx, l), inner), s))
    ensures s.color == Black ==> Deficient(Compose(Step(c, R, y, color, ky, l), inner), s.right)
    ensures s.color == Red ==> RedBlack(Plug(Compose(Step(c, R, y, color, ky, l), inner), s.right))
  {
    hide Plug, Compose, RedBlack, Deficient;
    var oc := Compose(Step(c, R, x, color, kx, l), inner);
    assert s == Join(L, Leaf, s.node, s.color, s.key, s.right);
    if s.color == Black {
      SpliceBlackRule(oc, L, s.node, s.key, s.right);
    } else {
      SpliceRedRule(oc, L, s.node, s.key, s.right);
    }
    SubstituteRule(c, l, x, kx, y, ky, color, inner, s.right);
  }

  /** Lines 556-570: the successor, taken out of the tree, stands in the place of the removed node. */
  method PutInPlace(h: Head, was: Node, elm: Node, ghost c: Context, ghost l: Tree, ghost color: Color, ghost key: Key,
                    ghost inner: Context, ghost sub: Tree)
    requires h.Ok() && h.tree == Plug(Compose(Step(c, R, was, color, key, l), inner), sub) && l.Branch? && elm !in Nodes(h.tree)
    modifies h, Nodes(h.tree) - {was}, elm
    ensures h.Ok() && h.tree == Plug(Compose(Step(c, R, elm, color, elm.key, l), inner), sub)
    ensures h.tree == Plug(c, Branch(l, elm, color, elm.key, Plug(inner, sub)))
    ensures elm.key == old(elm.key) && Nodes(h.tree) == old(Nodes(h.tree)) - {was} + {elm} && elm.parent == was.parent
    ensures was.key == key
  {
    hide Plug, Linked, Distinct, DistinctContext, Items, Nodes;
    ghost var oc, nc := Step(c, R, was, color, key, l), Step(c, R, elm, color, elm.key, l);
    ComposePlug(oc, inner, sub);
    PlugDown(oc, Plug(inner, sub));
    Family(h, c, Branch(l, was, color, key, Plug(inner, sub)));
    NodeIsItem(h.tree, null);
    RootInItems(c, Branch(l, was, color, key, Plug(inner, sub)));
    h.Substitute(was, elm, c, l, color, key, Plug(inner, sub));
    ComposePlug(nc, inner, sub);
    PlugDown(nc, Plug(inner, sub));
  }

  /** A node with two children. */
  method RemoveInner(h: Head, was: Node, ghost c: Context, ghost t: Tree)
    requires h.Ok() && h.tree == Plug(c, t) && RedBlack(h.tree) && t.Branch? && was == t.node
    requires t.left.Branch? && t.right.Branch?
    modifies h, Nodes(h.tree)
    ensures h.Ok() && RedBlack(h.tree)
    ensures Nodes(h.tree) == old(Nodes(h.tree)) - {was} && was.key == old(was.key)
    ensures Without(old(Items(h.tree)), was, Items(h.tree))
  {
    hide Plug, Deficient, Linked, Distinct, DistinctContext, Items, Nodes, RedBlack, Without;
    hide Compose, ContextNodes, Before, After, Height, Balanced, NoRedRed, IsRed, BalancedContext, NoRedRedContext, Sorted;
    Family(h, c, t);
    NodeIsItem(h.tree, null);
    RootInItems(c, t);
    ghost var l, oc := t.left, Step(c, R, was, t.color, t.key, t.left);
    PlugDown(oc, t.right);
    var elm, inner, s := Successor(h, was.right, oc, t.right);
    ghost var sub, nc := s.right, Step(c, R, elm, t.color, s.key, t.left);
    var child := elm.right;
    var parent := elm.parent;
    var color := elm.color;
    SuccessorRule(c, l, was, t.key, elm, s.key, t.color, inner, s);
    SubstituteItems(c, l, was, t.color, t.key, inner, elm, s.color, s.key, sub);
    assert s == Join(L, Leaf, elm, s.color, s.key, sub);
    h.Focus(Compose(oc, inner), s);
    ComposeParent(oc, inner);
    ComposeParent(nc, inner);
    h.Splice(elm, child, Compose(oc, inner), L, s.color, s.key, sub);
    if parent == was {
      parent := elm;
    }
    PutInPlace(h, was, elm, c, l, t.color, t.key, inner, sub);
    if color == Black {
      RemoveColor(h, parent, child, Compose(nc, inner), sub);
    }
  }
}
