/** What the red-black rules of libuv/include/uv/tree.h are for: the height is at most 2 lg (n + 1). */
module RbHeight {
  import opened RbShape

  /** The nodes on the longest path from the root. */
  ghost function Levels(t: Tree): nat {
    if t.Leaf? then 0 else 1 + if Levels(t.left) > Levels(t.right) then Levels(t.left) else Levels(t.right)
  }

  ghost function Pow2(n: nat): nat {
    if n == 0 then 1 else 2 * Pow2(n - 1)
  }

  lemma {:induction false} Pow2Grows(a: nat, b: nat)
    requires a <= b
    ensures Pow2(a) <= Pow2(b)
  {
    if a < b {
      Pow2Grows(a, b - 1);
    }
  }

  /** No path is more than twice as long as its black nodes. */
  lemma {:induction false} AtMostTwice(t: Tree)
    requires Balanced(t) && NoRedRed(t)
    ensures Levels(t) <= 2 * Height(t) + if IsRed(t) then 1 else 0
  {
    if t.Branch? {
      AtMostTwice(t.left);
      AtMostTwice(t.right);
    }
  }

  lemma {:induction false} EnoughNodes(t: Tree)
    requires Balanced(t)
    ensures |Items(t)| + 1 >= Pow2(Height(t))
  {
    if t.Branch? {
      EnoughNodes(t.left);
      EnoughNodes(t.right);
    }
  }

  /** 2 to the power of half the height is at most n + 1. */
  lemma HeightIsLogarithmic(t: Tree)
    requires RedBlack(t)
    ensures Pow2((Levels(t) + 1) / 2) <= |Items(t)| + 1
  {
    AtMostTwice(t);
    EnoughNodes(t);
    Pow2Grows((Levels(t) + 1) / 2, Height(t));
  }
}
