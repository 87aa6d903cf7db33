/** Two facts about integer division used by the buffer offsets and the move timer. */
module Arith {

  /** Multiplying by a natural number keeps the order. */
  lemma {:induction false} MulOrder(a: nat, b: nat, c: nat)
    ensures a <= b ==> a * c <= b * c
  {
    if a <= b {
      assert b * c == a * c + (b - a) * c;
    }
  }

  /** Division with a remainder below the divisor has only one answer. */
  lemma {:induction false} DivModUnique(a: nat, m: nat, q: nat, r: nat)
    requires 0 <= r < m && a == q * m + r
    ensures a % m == r && a / m == q
  {
    var q', r' := a / m, a % m;
    assert a == q' * m + r' && 0 <= r' < m;
    // q' is neither below nor above q: either way the products would be a whole m apart.
    assert (q' + 1) * m == q' * m + m;
    assert (q + 1) * m == q * m + m;
    MulOrder(q' + 1, q, m);
    MulOrder(q + 1, q', m);
  }
}
