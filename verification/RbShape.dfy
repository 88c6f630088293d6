/**
 * Red-black trees as values. The in-place operations of RbLinks are each stated as a change from
 * one such value to another, and what libuv/include/uv/tree.h promises is proved about the values.
 *
 * The C macros write every case twice, mirrored. Here a case is written once, for a side: `Join`
 * puts the subtree `near` on that side and `far` on the other.
 */
module RbShape {
  import opened SignalKey

  datatype Color = Red | Black

  class Node {
    var left: Node?
    var right: Node?
    var parent: Node?
    var color: Color
    var key: Key

    constructor (key: Key)
      ensures this.key == key
    {
      this.key := key;
      left, right, parent, color := null, null, null, Black;
    }

    function Child(side: Side): Node?
      reads this
    {
      if side == L then left else right
    }
  }

  datatype Side = L | R {
    function Other(): Side {
      if this == L then R else L
    }
  }

  /** A node with the colour and the key it has, and its subtrees. */
  datatype Tree = Leaf | Branch(left: Tree, node: Node, color: Color, key: Key, right: Tree)

  ghost function Root(t: Tree): Node? {
    if t.Leaf? then null else t.node
  }

  ghost predicate IsRed(t: Tree) {
    t.Branch? && t.color == Red
  }

  ghost function Nodes(t: Tree): set<Node> {
    if t.Leaf? then {} else Nodes(t.left) + {t.node} + Nodes(t.right)
  }

  ghost function Join(side: Side, near: Tree, node: Node, color: Color, key: Key, far: Tree): Tree {
    if side == L then Branch(near, node, color, key, far) else Branch(far, node, color, key, near)
  }

  /** The in-order sequence of nodes with their keys: what the tree stands for. */
  datatype Item = Item(node: Node, key: Key)

  ghost function Items(t: Tree): seq<Item> {
    if t.Leaf? then [] else Items(t.left) + [Item(t.node, t.key)] + Items(t.right)
  }

  ghost predicate Sorted(s: seq<Item>) {
    forall i, j :: 0 <= i < j < |s| ==> Less(s[i].key, s[j].key)
  }

  // ---------- The red-black rules ----------

  /** The number of black nodes on the leftmost path, which in a balanced tree is that of every path. */
  ghost function Height(t: Tree): nat {
    if t.Leaf? then 0 else Height(t.left) + if t.color == Black then 1 else 0
  }

  ghost predicate Balanced(t: Tree) {
    t.Branch? ==> Balanced(t.left) && Balanced(t.right) && Height(t.left) == Height(t.right)
  }

  ghost predicate NoRedRed(t: Tree) {
    t.Branch? ==> NoRedRed(t.left) && NoRedRed(t.right) && (t.color == Red ==> !IsRed(t.left) && !IsRed(t.right))
  }

  ghost predicate RedBlack(t: Tree) {
    !IsRed(t) && Balanced(t) && NoRedRed(t)
  }

  /** All but the root obey the rule on red nodes. */
  ghost predicate NoRedRedBelow(t: Tree) {
    t.Branch? ==> NoRedRed(t.left) && NoRedRed(t.right)
  }

  // ---------- A tree with a hole ----------

  /** What surrounds a subtree; `Step` says on which side of `node` it hangs. */
  datatype Context = Top | Step(up: Context, side: Side, node: Node, color: Color, key: Key, far: Tree)

  ghost function Plug(c: Context, t: Tree): Tree {
    match c
    case Top => t
    case Step(up, side, node, color, key, far) => Plug(up, Join(side, t, node, color, key, far))
  }

  ghost function Parent(c: Context): Node? {
    if c.Top? then null else c.node
  }

  ghost function Depth(c: Context): nat {
    if c.Top? then 0 else Depth(c.up) + 1
  }

  ghost function ContextNodes(c: Context): set<Node> {
    if c.Top? then {} else ContextNodes(c.up) + {c.node} + Nodes(c.far)
  }

  ghost function Before(c: Context): seq<Item> {
    if c.Top? then []
    else if c.side == L then Before(c.up)
    else Before(c.up) + (Items(c.far) + [Item(c.node, c.key)])
  }

  ghost function After(c: Context): seq<Item> {
    if c.Top? then []
    else if c.side == R then After(c.up)
    else [Item(c.node, c.key)] + Items(c.far) + After(c.up)
  }

  /** A balanced tree of height h in the hole makes a balanced tree. */
  ghost predicate BalancedContext(c: Context, h: nat) {
    c.Step? ==> Balanced(c.far) && Height(c.far) == h && BalancedContext(c.up, h + if c.color == Black then 1 else 0)
  }

  /** The rule on red nodes holds around the hole, also if the hole is filled by a red node when `red`. */
  ghost predicate NoRedRedContext(c: Context, red: bool) {
    c.Step? ==> NoRedRed(c.far) && (c.color == Red ==> !red && !IsRed(c.far)) && NoRedRedContext(c.up, c.color == Red)
  }

  ghost predicate TopBlack(c: Context) {
    c.Step? ==> if c.up.Top? then c.color == Black else TopBlack(c.up)
  }

  lemma Reassociate(a: seq<Item>, b: seq<Item>, c: seq<Item>, d: seq<Item>, e: seq<Item>)
    ensures a + (b + c + d) + e == (a + (b + c)) + d + e
    ensures a + (b + c + d) + e == a + b + (c + d + e)
  {}

  lemma {:induction false} PlugItems(c: Context, t: Tree)
    ensures Items(Plug(c, t)) == Before(c) + Items(t) + After(c)
    ensures Nodes(Plug(c, t)) == ContextNodes(c) + Nodes(t)
  {
    if c.Step? {
      var here := [Item(c.node, c.key)];
      if c.side == L {
        PlugItems(c.up, Branch(t, c.node, c.color, c.key, c.far));
        Reassociate(Before(c.up), Items(t), here, Items(c.far), After(c.up));
      } else {
        PlugItems(c.up, Branch(c.far, c.node, c.color, c.key, t));
        Reassociate(Before(c.up), Items(c.far), here, Items(t), After(c.up));
      }
    } else {
      assert [] + Items(t) + [] == Items(t);
    }
  }

  lemma {:induction false} PlugBalanced(c: Context, t: Tree)
    ensures Balanced(Plug(c, t)) <==> Balanced(t) && BalancedContext(c, Height(t))
  {
    if c.Step? {
      PlugBalanced(c.up, Join(c.side, t, c.node, c.color, c.key, c.far));
    }
  }

  lemma {:induction false} PlugNoRedRed(c: Context, t: Tree)
    ensures NoRedRed(Plug(c, t)) <==> NoRedRed(t) && NoRedRedContext(c, IsRed(t))
  {
    if c.Step? {
      PlugNoRedRed(c.up, Join(c.side, t, c.node, c.color, c.key, c.far));
    }
  }

  lemma {:induction false} PlugRoot(c: Context, t: Tree)
    ensures c.Step? ==> Plug(c, t).Branch? && (IsRed(Plug(c, t)) <==> !TopBlack(c))
  {
    if c.Step? {
      PlugRoot(c.up, Join(c.side, t, c.node, c.color, c.key, c.far));
    }
  }

  lemma {:induction false} NoRedRedWeaken(c: Context, red: bool)
    requires NoRedRedContext(c, red)
    ensures NoRedRedContext(c, false)
  {}

  /** A rotation does not change the sequence. */
  lemma RotateItems(c: Context, side: Side, p: Tree, x: Node, cx: Color, kx: Key, q: Tree,
                    y: Node, cy: Color, ky: Key, r: Tree)
    ensures Items(Plug(c, Join(side, p, x, cx, kx, Join(side, q, y, cy, ky, r))))
         == Items(Plug(c, Join(side, Join(side, p, x, cx, kx, q), y, cy, ky, r)))
  {
    hide Plug, Before, After, Nodes, ContextNodes;
    var s, t := Join(side, p, x, cx, kx, Join(side, q, y, cy, ky, r)), Join(side, Join(side, p, x, cx, kx, q), y, cy, ky, r);
    PlugItems(c, s);
    PlugItems(c, t);
    assert Items(s) == Items(t);
  }

  /** The place of a node in the tree. */
  lemma {:induction false} Locate(t: Tree, c: Context, n: Node) returns (c': Context, t': Tree)
    requires n in Nodes(t)
    ensures t'.Branch? && t'.node == n && Plug(c', t') == Plug(c, t)
  {
    if t.node == n {
      c', t' := c, t;
    } else if n in Nodes(t.left) {
      c', t' := Locate(t.left, Step(c, L, t.node, t.color, t.key, t.right), n);
    } else {
      c', t' := Locate(t.right, Step(c, R, t.node, t.color, t.key, t.left), n);
    }
  }
}
