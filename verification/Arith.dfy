/** The few facts about division and products that the solver does not find by itself. */
module Arith {
  lemma DivMod(x: nat, y: nat)
    requires y > 0
    ensures 0 <= x / y <= x && 0 <= x % y < y && x == x / y * y + x % y
  {
    assert x / y * y == y * (x / y);
    if x / y > x {
      MulMono(x + 1, x / y, y);
      MulMono(1, y, x + 1);
    }
  }

  /** x / y, for those who need not know more of it. */
  function Div(x: nat, y: nat): (q: nat)
    requires y > 0
    ensures q <= x
  {
    DivMod(x, y);
    x / y
  }

  function Mod(x: nat, y: nat): (r: nat)
    requires y > 0
    ensures r < y
  {
    x % y
  }

  lemma AtMost(a: nat, b: nat, c: nat)
    requires b > 0 && a <= c * b
    ensures a / b <= c
  {
    DivMod(a, b);
    if a / b > c {
      MulMono(c + 1, a / b, b);
      Distribute(c, 1, b);
    }
  }

  lemma Double(a: int, b: int)
    ensures (2 * a) * b == 2 * (a * b)
    ensures a * (2 * b) == 2 * (a * b)
  {}

  lemma MulMono(a: nat, b: nat, c: nat)
    requires a <= b
    ensures a * c <= b * c
    ensures c * a <= c * b
  {}

  lemma Distribute(a: int, b: int, c: int)
    ensures (a + b) * c == a * c + b * c
    ensures (a - b) * c == a * c - b * c
    ensures c * (a + b) == c * a + c * b
  {}

  /** A quotient and a remainder written as one number, taken apart again. */
  lemma Split(steps: nat, at: nat, count: nat)
    requires at < count
    ensures (steps * count + at) / count == steps && (steps * count + at) % count == at
  {
    var x := steps * count + at;
    DivMod(x, count);
    var q := x / count;
    if q < steps {
      MulMono(q + 1, steps, count);
      Distribute(q, 1, count);
    } else if q > steps {
      MulMono(steps + 1, q, count);
      Distribute(steps, 1, count);
    }
  }
}
