/** Facts about products and quotients that the verifier does not find by itself. */
module Arithmetic {

  /** x / y, rounded up. */
  function CeilDiv(x: nat, y: nat): nat
    requires y > 0
  {
    (x + y - 1) / y
  }

  function Quotient(x: nat, y: nat): nat
    requires y > 0
  {
    x / y
  }

  lemma {:induction false} AtLeast(d: int, y: int)
    requires d >= 1 && y >= 0
    ensures d * y >= y
  {
    if d > 1 { AtLeast(d - 1, y); }
  }

  lemma {:induction false} MulMonotone(a: nat, b: nat, y: nat)
    requires a <= b
    ensures a * y <= b * y
  {
    if a < b {
      MulMonotone(a, b - 1, y);
      assert b * y == (b - 1) * y + y;
    }
  }

  /** Quotient and remainder are unique. */
  lemma PartsUnique(q: int, r: int, p: int, s: int, y: int)
    requires 0 <= r < y && 0 <= s < y && q * y + r == p * y + s
    ensures q == p && r == s
  {
    if q > p { AtLeast(q - p, y); }
    if q < p { AtLeast(p - q, y); }
  }

  lemma DivParts(n: nat, k: nat, y: nat)
    requires k < y
    ensures (n * y + k) / y == n && (n * y + k) % y == k
  {
    var x := n * y + k;
    assert x == x / y * y + x % y;
    PartsUnique(n, k, x / y, x % y, y);
  }

  /** Positions in a sequence hold different values. */
  predicate Distinct(c: seq<nat>) {
    forall i, j :: 0 <= i < j < |c| ==> c[i] != c[j]
  }
}
