/**
 The few facts about Euclidean `%` that the carousel's cycle laws rest on.
 The solver does not find them unaided when the modulus is symbolic.
 */
module ModArith {

  lemma {:induction false} MulAtLeast(d: int, n: int)
    requires d > 0 && n > 0
    ensures d * n >= n
    decreases d
  {
    if d > 1 {
      MulAtLeast(d - 1, n);
      assert d * n == (d - 1) * n + n;
    }
  }

  lemma Distrib(q: int, q': int, n: int)
    ensures (q - q') * n == q * n - q' * n
    ensures (q + q') * n == q * n + q' * n
  {
  }

  /** Quotient and remainder are unique: any `x == q * n + r` with
      `0 <= r < n` has remainder `r`. */
  lemma ModUnique(x: int, q: int, r: int, n: int)
    requires n > 0 && 0 <= r < n && x == q * n + r
    ensures x % n == r
  {
    var q' := x / n;
    var d := q - q';
    Distrib(q, q', n);
    if d > 0 {
      MulAtLeast(d, n);
    } else if d < 0 {
      MulAtLeast(-d, n);
      Distrib(q', q, n);
    }
  }

  /** Reducing modulo `n` before adding `b` does not change the residue. */
  lemma ModAddLeft(a: int, b: int, n: int)
    requires n > 0
    ensures (a % n + b) % n == (a + b) % n
  {
    var m := a % n + b;
    assert a == (a / n) * n + a % n;
    assert m == (m / n) * n + m % n;
    Distrib(a / n, m / n, n);
    ModUnique(a + b, a / n + m / n, m % n, n);
  }

  /** Adding the modulus does not change the residue. */
  lemma ModShiftOne(y: int, n: int)
    requires n > 0
    ensures (y + n) % n == y % n
  {
    assert y + n == (y / n + 1) * n + y % n;
    ModUnique(y + n, y / n + 1, y % n, n);
  }

  /** A full turn in either direction brings an index back to itself. */
  lemma ModFullTurn(i: int, n: int)
    requires 0 <= i < n
    ensures (i + n) % n == i
    ensures (i - n) % n == i
  {
    assert 1 * n == n;
    ModUnique(i + n, 1, i, n);
    assert -1 * n == -n;
    ModUnique(i - n, -1, i, n);
  }
}
