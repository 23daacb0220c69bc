/** Facts about Dafny's Euclidean remainder that the ring proofs need; each
    is small so that the solver does not wander into nonlinear arithmetic. */
module Arith {

  lemma MulAtLeast(m: int, n: int)
    requires n > 0 && m > 0
    ensures m * n >= n
  {
  }

  lemma DivMod(x: int, n: int)
    requires n > 0
    ensures x == (x / n) * n + x % n
  {
  }

  lemma MulSub(q: int, q': int, n: int)
    ensures q * n - q' * n == (q - q') * n
  {
  }

  /** The remainder is determined by any quotient/remainder split. */
  lemma ModUnique(x: int, n: int, q: int, r: int)
    requires n > 0 && 0 <= r < n && x == q * n + r
    ensures x % n == r
  {
    var q', r' := x / n, x % n;
    DivMod(x, n);
    MulSub(q, q', n);
    var m := q - q';
    assert m * n == r' - r;
    if m > 0 {
      MulAtLeast(m, n);
    } else if m < 0 {
      MulSub(q', q, n);
      MulAtLeast(-m, n);
    }
  }

  /** Stepping a cursor by `(pos + 1) % n` commutes with reduction. */
  lemma ModSucc(x: int, n: int)
    requires n > 0 && x >= 0
    ensures (x % n + 1) % n == (x + 1) % n
  {
    var q, r := x / n, x % n;
    DivMod(x, n);
    if r + 1 < n {
      ModUnique(x + 1, n, q, r + 1);
    } else {
      assert x + 1 == (q + 1) * n + 0;
      ModUnique(x + 1, n, q + 1, 0);
    }
  }
}
