/** How many times a JavaScript counting loop `for (j = 0; j < b; j++)` runs when its bound
    `b` is a real number. The page uses such loops twice: the burst size of a popped circle
    (`j < radius * 2`) and the circle population of `init` (`i < height * width / 9000`). */
module Counting {

  /** The least integer not below `x`. */
  function Ceil(x: real): (n: int)
    ensures x <= n as real < x + 1.0
  {
    -((-x).Floor)
  }

  /** The number of naturals strictly below `b`: the iteration count of a loop that starts at
      0, steps by 1 and stops when its counter is no longer below `b`. */
  function CountBelow(b: real): (n: nat)
    ensures b <= n as real
    ensures n > 0 ==> ((n - 1) as real) < b
  {
    if b <= 0.0 then 0 else Ceil(b)
  }

  /** The counting loop itself, run to completion: it stops after exactly `CountBelow(b)` steps. */
  method CountingLoop(b: real) returns (n: nat)
    ensures n == CountBelow(b)
  {
    n := 0;
    while (n as real) < b
      invariant n <= CountBelow(b)
      decreases CountBelow(b) - n
    {
      n := n + 1;
    }
  }

  /** For a natural numerator the loop bound `a / 9000` yields the integer ceiling of the
      quotient: one more than the rounded-down quotient whenever 9000 does not divide `a`. */
  lemma CountBelowPerNineThousand(a: nat)
    ensures CountBelow(a as real / 9000.0) == (a + 8999) / 9000
    ensures a % 9000 != 0 ==> CountBelow(a as real / 9000.0) == a / 9000 + 1
    ensures a % 9000 == 0 ==> CountBelow(a as real / 9000.0) == a / 9000
  {
    var q, r := a / 9000, a % 9000;
    var b := a as real / 9000.0;
    assert a == 9000 * q + r;
    assert b == q as real + r as real / 9000.0;
    if r == 0 {
      assert CountBelow(b) == q;
    } else {
      assert q as real < b < q as real + 1.0;
      assert CountBelow(b) == q + 1;
      assert a + 8999 == 9000 * (q + 1) + (r - 1);
    }
  }
}
