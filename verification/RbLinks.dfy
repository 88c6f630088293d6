/**
 * The pointer side of libuv/include/uv/tree.h: the tree of a head as linked nodes, and the
 * in-place steps that insertion and removal are made of, each a change of the tree value.
 */
module RbLinks {
  import opened SignalKey
  import opened RbShape

  /** The nodes of t are linked as t says, and its root has the given parent. */
  ghost predicate Linked(t: Tree, parent: Node?)
    reads Nodes(t)
  {
    t.Branch? ==>
      && t.node.parent == parent && t.node.color == t.color && t.node.key == t.key
      && t.node.left == Root(t.left) && t.node.right == Root(t.right)
      && Linked(t.left, t.node) && Linked(t.right, t.node)
  }

  ghost predicate Distinct(t: Tree) {
    t.Branch? ==>
      && t.node !in Nodes(t.left) && t.node !in Nodes(t.right) && Nodes(t.left) !! Nodes(t.right)
      && Distinct(t.left) && Distinct(t.right)
  }

  ghost predicate DistinctContext(c: Context) {
    c.Step? ==>
      && c.node !in Nodes(c.far) && c.node !in ContextNodes(c.up) && Nodes(c.far) !! ContextNodes(c.up)
      && Distinct(c.far) && DistinctContext(c.up)
  }

  lemma {:induction false} PlugDistinct(c: Context, t: Tree)
    ensures Distinct(Plug(c, t)) <==> Distinct(t) && DistinctContext(c) && ContextNodes(c) !! Nodes(t)
  {
    if c.Step? {
      PlugDistinct(c.up, Join(c.side, t, c.node, c.color, c.key, c.far));
    }
  }

  lemma LinkedJoin(side: Side, near: Tree, n: Node, color: Color, key: Key, far: Tree, parent: Node?)
    ensures Linked(Join(side, near, n, color, key, far), parent) <==>
            && n.parent == parent && n.color == color && n.key == key
            && n.Child(side) == Root(near) && n.Child(side.Other()) == Root(far)
            && Linked(near, n) && Linked(far, n)
    ensures Root(Join(side, near, n, color, key, far)) == n
    ensures Nodes(Join(side, near, n, color, key, far)) == Nodes(near) + {n} + Nodes(far)
    ensures Distinct(Join(side, near, n, color, key, far)) <==>
            && n !in Nodes(near) && n !in Nodes(far) && Nodes(near) !! Nodes(far) && Distinct(near) && Distinct(far)
  {}

  /** The items of a linked tree name its nodes and the keys they have now. */
  lemma {:induction false} ItemsLinked(t: Tree, parent: Node?)
    requires Linked(t, parent)
    ensures forall x :: x in Items(t) ==> x.node in Nodes(t) && x.node.key == x.key
  {
    if t.Branch? {
      ItemsLinked(t.left, t.node);
      ItemsLinked(t.right, t.node);
    }
  }

  lemma {:induction false} ItemIsNode(t: Tree)
    ensures forall i :: 0 <= i < |Items(t)| ==> Items(t)[i].node in Nodes(t)
    ensures forall n :: n in Nodes(t) ==> exists i :: 0 <= i < |Items(t)| && Items(t)[i].node == n
  {
    if t.Branch? {
      ItemIsNode(t.left);
      ItemIsNode(t.right);
      var s, k := Items(t), |Items(t.left)|;
      assert s[k].node == t.node;
      forall n | n in Nodes(t.left) ensures exists i :: 0 <= i < |s| && s[i].node == n {
        var i :| 0 <= i < k && Items(t.left)[i].node == n;
        assert s[i].node == n;
      }
      forall n | n in Nodes(t.right) ensures exists i :: 0 <= i < |s| && s[i].node == n {
        var i :| 0 <= i < |Items(t.right)| && Items(t.right)[i].node == n;
        assert s[k + 1 + i].node == n;
      }
    }
  }

  /** Every node of a linked tree stands in its sequence with the key it has now. */
  lemma NodeIsItem(t: Tree, parent: Node?)
    requires Linked(t, parent)
    ensures forall n :: n in Nodes(t) ==> Item(n, n.key) in Items(t)
    ensures forall x :: x in Items(t) ==> x.node in Nodes(t) && x.node.key == x.key
  {
    hide Linked, Items, Nodes;
    ItemIsNode(t);
    ItemsLinked(t, parent);
    forall n | n in Nodes(t) ensures Item(n, n.key) in Items(t) {
      var i :| 0 <= i < |Items(t)| && Items(t)[i].node == n;
      assert Items(t)[i] in Items(t);
    }
  }

  /** if (n) RB_PARENT(n) = to; */
  method SetParent(n: Node?, to: Node?, ghost t: Tree, ghost from: Node?)
    requires Linked(t, from) && Distinct(t) && n == Root(t)
    modifies Nodes(t)`parent
    ensures Linked(t, to)
  {
    if n != null {
      n.parent := to;
      assert Linked(t.left, n) && Linked(t.right, n);
    }
  }

  class Head {
    var root: Node?
    ghost var tree: Tree

    constructor ()
      ensures root == null && tree == Leaf && Ok()
    {
      root, tree := null, Leaf;
    }

    /** What surrounds the subtree at `hole` is linked as c says, up to the root pointer. */
    ghost predicate Around(c: Context, hole: Node?)
      reads `root, ContextNodes(c)
    {
      if c.Top? then root == hole else
      && c.node.Child(c.side) == hole && c.node.Child(c.side.Other()) == Root(c.far)
      && c.node.parent == Parent(c.up) && c.node.color == c.color && c.node.key == c.key
      && Linked(c.far, c.node) && Around(c.up, c.node)
    }

    ghost predicate Ok()
      reads this, Nodes(tree)
    {
      Around(Top, Root(tree)) && Linked(tree, null) && Distinct(tree)
    }

    lemma {:induction false} PlugLinked(c: Context, t: Tree)
      ensures Around(Top, Root(Plug(c, t))) && Linked(Plug(c, t), null) <==> Around(c, Root(t)) && Linked(t, Parent(c))
    {
      hide Linked;
      if c.Step? {
        LinkedJoin(c.side, t, c.node, c.color, c.key, c.far, Parent(c.up));
        PlugLinked(c.up, Join(c.side, t, c.node, c.color, c.key, c.far));
      }
    }

    /** The tree seen from one of its subtrees. */
    lemma Focus(c: Context, t: Tree)
      requires tree == Plug(c, t)
      ensures Ok() <==> Around(c, Root(t)) && Linked(t, Parent(c))
                        && Distinct(t) && DistinctContext(c) && ContextNodes(c) !! Nodes(t)
      ensures Nodes(tree) == ContextNodes(c) + Nodes(t)
    {
      hide Plug, Linked, Distinct, DistinctContext;
      PlugLinked(c, t);
      PlugDistinct(c, t);
      PlugItems(c, t);
    }

    /** What can be read off the fields of a node of the tree. */
    lemma At(c: Context, side: Side, near: Tree, n: Node, color: Color, key: Key, far: Tree)
      requires Ok() && tree == Plug(c, Join(side, near, n, color, key, far))
      ensures n.parent == Parent(c) && n.color == color && n.key == key
      ensures n.Child(side) == Root(near) && n.Child(side.Other()) == Root(far)
      ensures n in Nodes(tree) && Nodes(near) <= Nodes(tree) && Nodes(far) <= Nodes(tree)
      ensures c.Step? ==> c.node in Nodes(tree) && c.node.Child(c.side) == n && c.node.Child(c.side.Other()) == Root(c.far)
      ensures c.Top? ==> root == n
      ensures c.Step? ==> root != n && c.node.Child(c.side.Other()) != n
    {
      hide Plug, Linked, Distinct, DistinctContext, Nodes, Root, Join;
      Focus(c, Join(side, near, n, color, key, far));
      LinkedJoin(side, near, n, color, key, far, Parent(c));
      if c.Step? {
        RootInContext(c, n);
        RootInTree(c.far);
      }
    }

    lemma {:induction false} RootInContext(c: Context, hole: Node?)
      requires Around(c, hole)
      ensures c.Step? ==> root != null && root in ContextNodes(c)
    {
      hide Linked;
      if c.Step? {
        RootInContext(c.up, c.node);
      }
    }

    /** Makes the link that points to `from` point to `to`. */
    method Relink(parent: Node?, from: Node, to: Node?, ghost c: Context)
      requires Around(c, from) && parent == Parent(c)
      requires DistinctContext(c) && from !in ContextNodes(c)
      modifies `root, ContextNodes(c)`left, ContextNodes(c)`right
      ensures Around(c, to)
    {
      hide Linked, Distinct;
      if parent != null {
        if from == parent.left {
          parent.left := to;
        } else {
          parent.right := to;
        }
        assert Around(c.up, parent);
      } else {
        root := to;
      }
    }

    method SetChild(n: Node, side: Side, child: Node?)
      modifies n`left, n`right
      ensures n.Child(side) == child && n.Child(side.Other()) == old(n.Child(side.Other()))
    {
      if side == L {
        n.left := child;
      } else {
        n.right := child;
      }
    }

    /** Two nodes, three subtrees and their surroundings share no node. */
    ghost predicate Apart(c: Context, p: Tree, x: Node, q: Tree, y: Node, r: Tree) {
      && DistinctContext(c) && Distinct(p) && Distinct(q) && Distinct(r) && x != y
      && x !in Nodes(p) && x !in Nodes(q) && x !in Nodes(r) && x !in ContextNodes(c)
      && y !in Nodes(p) && y !in Nodes(q) && y !in Nodes(r) && y !in ContextNodes(c)
      && Nodes(p) !! Nodes(q) && Nodes(p) !! Nodes(r) && Nodes(q) !! Nodes(r)
      && Nodes(p) !! ContextNodes(c) && Nodes(q) !! ContextNodes(c) && Nodes(r) !! ContextNodes(c)
    }

    /** The subtree q becomes the child of n on the side. */
    method Adopt(n: Node, side: Side, child: Node?, ghost q: Tree, ghost from: Node)
      requires Linked(q, from) && Distinct(q) && child == Root(q) && n !in Nodes(q)
      modifies n`left, n`right, Nodes(q)`parent
      ensures Linked(q, n) && n.Child(side) == Root(q) && n.Child(side.Other()) == old(n.Child(side.Other()))
    {
      hide Linked, Distinct, Root;
      assert allocated(Nodes(q));
      SetChild(n, side, child);
      SetParent(child, n, q, from);
    }

    /** The pointer updates of a rotation, with their effect on each part of the tree. */
    method RotateLinks(side: Side, elm: Node, ghost c: Context, ghost p: Tree, ghost q: Tree, ghost y: Node, ghost r: Tree)
        returns (tmp: Node)
      requires Around(c, elm) && Linked(p, elm) && Linked(q, y) && Linked(r, y)
      requires elm.parent == Parent(c) && elm.Child(side) == Root(p) && elm.Child(side.Other()) == y
      requires y.Child(side) == Root(q) && y.Child(side.Other()) == Root(r)
      requires Apart(c, p, elm, q, y, r)
      modifies `root, ContextNodes(c), {elm, y}, Nodes(q)
      ensures Around(c, y) && Linked(p, elm) && Linked(q, elm) && Linked(r, y)
      ensures tmp == y && y.parent == Parent(c) && elm.parent == y
      ensures elm.Child(side) == Root(p) && elm.Child(side.Other()) == Root(q)
      ensures y.Child(side) == elm && y.Child(side.Other()) == Root(r)
      ensures elm.color == old(elm.color) && elm.key == old(elm.key) && y.color == old(y.color) && y.key == old(y.key)
    {
      hide Linked, Distinct, DistinctContext, Around, Nodes, ContextNodes, Root, Parent;
      assert allocated(ContextNodes(c)) && allocated(Nodes(p)) && allocated(Nodes(q)) && allocated(Nodes(r));
      tmp := elm.Child(side.Other());
      Adopt(elm, side.Other(), tmp.Child(side), q, y);
      tmp.parent := elm.parent;
      Relink(elm.parent, elm, tmp, c);
      SetChild(tmp, side, elm);
      elm.parent := tmp;
    }

    /**
     * RB_ROTATE_LEFT for side L and RB_ROTATE_RIGHT for side R: `elm` moves down to that side and
     * its child on the other side moves up.
     */
    method Rotate(side: Side, elm: Node, ghost c: Context, ghost p: Tree, ghost cx: Color, ghost kx: Key, ghost q: Tree,
                  ghost y: Node, ghost cy: Color, ghost ky: Key, ghost r: Tree) returns (tmp: Node)
      requires Ok() && tree == Plug(c, Join(side, p, elm, cx, kx, Join(side, q, y, cy, ky, r)))
      modifies this, Nodes(tree)
      ensures Ok() && tree == Plug(c, Join(side, Join(side, p, elm, cx, kx, q), y, cy, ky, r))
      ensures Nodes(tree) == old(Nodes(tree)) && Items(tree) == old(Items(tree)) && tmp == y
    {
      hide Plug, Linked, Distinct, DistinctContext, Around, Items, Nodes, ContextNodes, Ok, Apart;
      BeforeRotation(side, elm, c, p, cx, kx, q, y, cy, ky, r);
      RotateItems(c, side, p, elm, cx, kx, q, y, cy, ky, r);
      ghost var all := Nodes(tree);
      tmp := RotateLinks(side, elm, c, p, q, y, r);
      tree := Plug(c, Join(side, Join(side, p, elm, cx, kx, q), y, cy, ky, r));
      AfterRotation(side, elm, c, p, cx, kx, q, y, cy, ky, r);
    }

    /** The parts of a tree about to be rotated. */
    lemma BeforeRotation(side: Side, elm: Node, c: Context, p: Tree, cx: Color, kx: Key, q: Tree, y: Node, cy: Color, ky: Key, r: Tree)
      requires Ok() && tree == Plug(c, Join(side, p, elm, cx, kx, Join(side, q, y, cy, ky, r)))
      ensures Around(c, elm) && Linked(p, elm) && Linked(q, y) && Linked(r, y)
      ensures elm.parent == Parent(c) && elm.Child(side) == Root(p) && elm.Child(side.Other()) == y
      ensures y.Child(side) == Root(q) && y.Child(side.Other()) == Root(r)
      ensures elm.color == cx && elm.key == kx && y.color == cy && y.key == ky
      ensures Apart(c, p, elm, q, y, r)
      ensures Nodes(tree) == ContextNodes(c) + {elm, y} + Nodes(p) + Nodes(q) + Nodes(r)
    {
      hide Plug, Linked, Distinct, DistinctContext, Around, Nodes, ContextNodes, Root, Join, Parent;
      var inner := Join(side, q, y, cy, ky, r);
      Focus(c, Join(side, p, elm, cx, kx, inner));
      LinkedJoin(side, p, elm, cx, kx, inner, Parent(c));
      LinkedJoin(side, q, y, cy, ky, r, elm);
    }

    /** The parts of a rotated tree make a whole again. */
    lemma AfterRotation(side: Side, elm: Node, c: Context, p: Tree, cx: Color, kx: Key, q: Tree, y: Node, cy: Color, ky: Key, r: Tree)
      requires Around(c, y) && Linked(p, elm) && Linked(q, elm) && Linked(r, y)
      requires y.parent == Parent(c) && elm.parent == y
      requires elm.Child(side) == Root(p) && elm.Child(side.Other()) == Root(q)
      requires y.Child(side) == elm && y.Child(side.Other()) == Root(r)
      requires elm.color == cx && elm.key == kx && y.color == cy && y.key == ky
      requires Apart(c, p, elm, q, y, r)
      requires tree == Plug(c, Join(side, Join(side, p, elm, cx, kx, q), y, cy, ky, r))
      ensures Ok() && Nodes(tree) == ContextNodes(c) + {elm, y} + Nodes(p) + Nodes(q) + Nodes(r)
    {
      hide Plug, Linked, Distinct, DistinctContext, Around, Nodes, ContextNodes, Root, Join, Parent;
      var lower := Join(side, p, elm, cx, kx, q);
      LinkedJoin(side, p, elm, cx, kx, q, y);
      LinkedJoin(side, lower, y, cy, ky, r, Parent(c));
      Focus(c, Join(side, lower, y, cy, ky, r));
    }

    lemma RootInTree(t: Tree)
      ensures Root(t) == null <==> t == Leaf
      ensures t.Branch? ==> Root(t) in Nodes(t)
    {}

    /** RB_COLOR(elm) = color; */
    method Paint(elm: Node, color: Color, ghost c: Context, ghost side: Side, ghost near: Tree, ghost was: Color, ghost key: Key, ghost far: Tree)
      requires Ok() && tree == Plug(c, Join(side, near, elm, was, key, far))
      modifies this, Nodes(tree)
      ensures Ok() && tree == Plug(c, Join(side, near, elm, color, key, far))
      ensures Nodes(tree) == old(Nodes(tree)) && Items(tree) == old(Items(tree)) && root == old(root)
    {
      hide Plug, Linked, Distinct, DistinctContext, Around, Items, Nodes, ContextNodes, Root, Join, Parent;
      Focus(c, Join(side, near, elm, was, key, far));
      LinkedJoin(side, near, elm, was, key, far, Parent(c));
      PaintItems(c, side, near, elm, was, color, key, far);
      elm.color := color;
      tree := Plug(c, Join(side, near, elm, color, key, far));
      LinkedJoin(side, near, elm, color, key, far, Parent(c));
      Focus(c, Join(side, near, elm, color, key, far));
    }

    lemma PaintItems(c: Context, side: Side, near: Tree, n: Node, was: Color, color: Color, key: Key, far: Tree)
      ensures Items(Plug(c, Join(side, near, n, was, key, far))) == Items(Plug(c, Join(side, near, n, color, key, far)))
    {
      hide Plug, Before, After;
      var s, t := Join(side, near, n, was, key, far), Join(side, near, n, color, key, far);
      PlugItems(c, s);
      PlugItems(c, t);
      assert Items(s) == Items(t);
    }

    /** RB_SET and the link to a new leaf; `side` is the sign of the last comparison. */
    method Attach(elm: Node, parent: Node?, side: Side, ghost c: Context)
      requires Ok() && tree == Plug(c, Leaf) && elm !in Nodes(tree)
      requires parent == Parent(c) && (c.Step? ==> side == c.side)
      modifies this, Nodes(tree), elm
      ensures Ok() && tree == Plug(c, Branch(Leaf, elm, Red, elm.key, Leaf)) && elm.key == old(elm.key)
      ensures Nodes(tree) == old(Nodes(tree)) + {elm}
    {
      hide Plug, Linked, Distinct, DistinctContext;
      Focus(c, Leaf);
      assert allocated(ContextNodes(c));
      elm.parent, elm.left, elm.right, elm.color := parent, null, null, Red;
      assert Around(c, null);
      LinkHole(parent, side, elm, c);
      ghost var t := Branch(Leaf, elm, Red, elm.key, Leaf);
      tree := Plug(c, t);
      LinkedJoin(L, Leaf, elm, Red, elm.key, Leaf, parent);
      LinkedLeaf(elm);
      Focus(c, t);
    }

    lemma LinkedLeaf(parent: Node?)
      ensures Linked(Leaf, parent) && Distinct(Leaf) && Nodes(Leaf) == {}
    {}

    method LinkHole(parent: Node?, side: Side, elm: Node, ghost c: Context)
      requires Around(c, null) && parent == Parent(c) && (c.Step? ==> side == c.side) && DistinctContext(c)
      modifies `root, ContextNodes(c)
      ensures Around(c, elm)
    {
      hide Linked, Distinct;
      if parent != null {
        if side == L {
          parent.left := elm;
        } else {
          parent.right := elm;
        }
        assert Around(c.up, parent);
      } else {
        root := elm;
      }
    }

    /** Takes a node with at most one child out of the tree and puts that child in its place. */
    method Splice(elm: Node, child: Node?, ghost c: Context, ghost side: Side, ghost color: Color, ghost key: Key, ghost t: Tree)
      requires Ok() && tree == Plug(c, Join(side, Leaf, elm, color, key, t)) && child == Root(t)
      modifies this, Nodes(tree) - {elm}
      ensures Ok() && tree == Plug(c, t) && Nodes(tree) == old(Nodes(tree)) - {elm}
    {
      hide Plug, Linked, Distinct, DistinctContext, Around, Nodes, ContextNodes, Join, Parent;
      var parent := elm.parent;
      Focus(c, Join(side, Leaf, elm, color, key, t));
      LinkedJoin(side, Leaf, elm, color, key, t, Parent(c));
      LinkedLeaf(elm);
      assert allocated(ContextNodes(c)) && allocated(Nodes(t));
      SetParent(child, parent, t, elm);
      Relink(parent, elm, child, c);
      tree := Plug(c, t);
      Focus(c, t);
    }

    /** Puts `elm`, which is not in the tree, in the place of `was`, with its links and its colour. */
    method Substitute(was: Node, elm: Node, ghost c: Context, ghost l: Tree, ghost color: Color, ghost key: Key, ghost r: Tree)
      requires Ok() && tree == Plug(c, Branch(l, was, color, key, r)) && l.Branch? && elm !in Nodes(tree)
      modifies this, Nodes(tree) - {was}, elm
      ensures Ok() && tree == Plug(c, Branch(l, elm, color, elm.key, r)) && elm.key == old(elm.key)
      ensures Nodes(tree) == old(Nodes(tree)) - {was} + {elm}
      ensures elm.parent == was.parent
    {
      hide Plug, Linked, Distinct, DistinctContext, Around, Nodes, ContextNodes, Join, Parent, Root;
      assert Branch(l, was, color, key, r) == Join(L, l, was, color, key, r) by { JoinLeft(l, was, color, key, r); }
      BeforeSubstitution(was, elm, c, l, color, key, r);
      SubstituteLinks(was, elm, c, l, r);
      JoinLeft(l, elm, color, elm.key, r);
      tree := Plug(c, Branch(l, elm, color, elm.key, r));
      AfterSubstitution(was, elm, c, l, color, r);
    }

    /** The parts of a tree in which a node is to be replaced. */
    lemma BeforeSubstitution(was: Node, elm: Node, c: Context, l: Tree, color: Color, key: Key, r: Tree)
      requires Ok() && tree == Plug(c, Join(L, l, was, color, key, r)) && elm !in Nodes(tree)
      ensures Around(c, was) && Linked(l, was) && Linked(r, was) && Apart(c, l, was, Leaf, elm, r)
      ensures was.parent == Parent(c) && was.left == Root(l) && was.right == Root(r) && was.color == color
      ensures Nodes(tree) == ContextNodes(c) + Nodes(l) + {was} + Nodes(r)
    {
      hide Plug, Linked, Around, ContextNodes, Join, Parent;
      Focus(c, Join(L, l, was, color, key, r));
      LinkedJoin(L, l, was, color, key, r, Parent(c));
    }

    lemma AfterSubstitution(was: Node, elm: Node, c: Context, l: Tree, color: Color, r: Tree)
      requires Around(c, elm) && Linked(l, elm) && Linked(r, elm) && Apart(c, l, was, Leaf, elm, r)
      requires elm.parent == Parent(c) && elm.left == Root(l) && elm.right == Root(r) && elm.color == color
      requires tree == Plug(c, Join(L, l, elm, color, elm.key, r))
      ensures Ok() && Nodes(tree) == ContextNodes(c) + Nodes(l) + {elm} + Nodes(r)
    {
      hide Plug, Linked, Around, ContextNodes, Join, Parent;
      Focus(c, Join(L, l, elm, color, elm.key, r));
      LinkedJoin(L, l, elm, color, elm.key, r, Parent(c));
    }

    /** The pointer updates of Substitute. */
    method SubstituteLinks(was: Node, elm: Node, ghost c: Context, ghost l: Tree, ghost r: Tree)
      requires Around(c, was) && Linked(l, was) && Linked(r, was) && Apart(c, l, was, Leaf, elm, r)
      requires was.parent == Parent(c) && was.left == Root(l) && was.right == Root(r) && l.Branch?
      modifies `root, ContextNodes(c)`left, ContextNodes(c)`right, Nodes(l)`parent, Nodes(r)`parent
      modifies elm`left, elm`right, elm`parent, elm`color
      ensures Around(c, elm) && Linked(l, elm) && Linked(r, elm)
      ensures elm.parent == was.parent && elm.left == was.left && elm.right == was.right && elm.color == was.color
    {
      hide Linked, Distinct, DistinctContext, Around, Nodes, ContextNodes, Root, Parent;
      assert allocated(ContextNodes(c)) && allocated(Nodes(l)) && allocated(Nodes(r));
      elm.left, elm.right, elm.parent, elm.color := was.left, was.right, was.parent, was.color;
      Relink(was.parent, was, elm, c);
      SetParent(was.left, elm, l, was);
      SetParent(was.right, elm, r, was);
    }

    lemma JoinLeft(l: Tree, n: Node, color: Color, key: Key, r: Tree)
      ensures Join(L, l, n, color, key, r) == Branch(l, n, color, key, r)
    {}
  }
}
