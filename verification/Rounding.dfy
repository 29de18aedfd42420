/** Rounding up to a multiple, as include/bboot.h does with masks. */
module Rounding {
  import opened Bits

  /** ROUND_UP() of include/bboot.h for a power of two d, without wrap-around. */
  function RoundUp(n: nat, d: nat): (r: nat)
    requires d > 0
    ensures n <= r < n + d && r % d == 0
  {
    var m := n + d - 1;
    assert m == d * (m / d) + m % d;
    DivModUnique(m - m % d, d, m / d, 0);
    m - m % d
  }

  /** Rounding up does not pass a multiple. */
  lemma RoundUpBelow(n: nat, d: nat, top: nat)
    requires d > 0 && n <= top && top % d == 0
    ensures RoundUp(n, d) <= top
  {
    var r := RoundUp(n, d);
    assert r == d * (r / d) && top == d * (top / d);
    MulSign(d, r / d - top / d);
    assert d * (r / d - top / d) == r - top;
  }
}
