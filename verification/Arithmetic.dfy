/** Products and quotients of natural numbers, one step at a time. */
module Arithmetic {
  lemma MulMono(x: nat, y: nat, b: nat)
    requires x <= y
    ensures x * b <= y * b
  {
    assert y * b - x * b == (y - x) * b;
  }

  lemma MulNext(x: nat, y: nat, b: nat)
    requires x < y
    ensures x * b + b <= y * b
  {
    MulMono(x + 1, y, b);
    assert (x + 1) * b == x * b + b;
  }

  /** Multiples of `b` that are closer than `b` are the same multiple. */
  lemma SameMultiple(x: nat, y: nat, b: nat, r: nat, s: nat)
    requires r < b && s < b && x * b + r == y * b + s
    ensures x == y && r == s
  {
    if x < y { MulNext(x, y, b); }
    if y < x { MulNext(y, x, b); }
  }

  lemma DivMod(b: nat, m: nat, r: nat)
    requires r < b
    ensures (m * b + r) / b == m && (m * b + r) % b == r
  {
    var k := m * b + r;
    SameMultiple(k / b, m, b, k % b, r);
  }

  lemma AddMultiple(x: nat, m: nat, b: nat)
    requires b > 0
    ensures (x + m * b) / b == x / b + m && (x + m * b) % b == x % b
  {
    var q: nat, r: nat := x / b, x % b;
    assert (q + m) * b == q * b + m * b;
    assert x + m * b == (q + m) * b + r;
    DivMod(b, q + m, r);
  }

  lemma MulAdd(q: nat, n: nat, b: nat)
    ensures (q + n) * b == q * b + n * b
  {
  }

  lemma MulSwap(x: nat, a: nat, b: nat)
    ensures x * a * b == x * b * a
  {
  }
}
