/** Facts about Euclidean remainder modulo a positive modulus.
    For q > 0 Dafny's `%` agrees with Python's and numpy's `%`: the
    residue always lies in [0, q), also for negative left operands. */
module ModArith {

  /** A residue is determined by any quotient/remainder decomposition. */
  lemma ModUnique(a: int, q: int, d: int, r: int)
    requires 0 < q && 0 <= r < q && a == q * d + r
    ensures a % q == r
  {
    var d', r' := a / q, a % q;
    assert a == q * d' + r';
    assert q * (d - d') == r' - r;
    MulBounded(q, d - d');
  }

  /** The only multiple of q strictly between -q and q is 0. */
  lemma MulBounded(q: int, k: int)
    requires 0 < q && -q < q * k < q
    ensures k == 0
  {
  }

  /** Adding a multiple of q does not change the residue. */
  lemma ModShift(a: int, k: int, q: int)
    requires 0 < q
    ensures (a + q * k) % q == a % q
  {
    assert a == q * (a / q) + a % q;
    assert a + q * k == q * (a / q + k) + a % q;
    ModUnique(a + q * k, q, a / q + k, a % q);
  }

  /** A reduced value is congruent to the value it was reduced from. */
  lemma ModCongruent(a: int, q: int)
    requires 0 < q
    ensures (a % q) % q == a % q
    ensures (a % q - a) % q == 0
  {
    ModUnique(a % q, q, 0, a % q);
    assert a % q - a == q * (-(a / q));
    ModShift(0, -(a / q), q);
  }

  /** Congruence is preserved by addition and subtraction. */
  lemma ModLinear(a: int, a': int, b: int, b': int, q: int)
    requires 0 < q && a % q == a' % q && b % q == b' % q
    ensures (a + b) % q == (a' + b') % q
    ensures (a - b) % q == (a' - b') % q
  {
    var ka, kb := a / q - a' / q, b / q - b' / q;
    assert a == a' + q * ka;
    assert b == b' + q * kb;
    assert a + b == (a' + b') + q * (ka + kb);
    ModShift(a' + b', ka + kb, q);
    assert a - b == (a' - b') + q * (ka - kb);
    ModShift(a' - b', ka - kb, q);
  }

  /** Congruence is preserved by multiplication with an integer. */
  lemma ModScale(c: int, a: int, a': int, q: int)
    requires 0 < q && a % q == a' % q
    ensures (c * a) % q == (c * a') % q
  {
    var k := a / q - a' / q;
    assert a == a' + q * k;
    assert c * a == c * a' + q * (c * k);
    ModShift(c * a', c * k, q);
  }
}
