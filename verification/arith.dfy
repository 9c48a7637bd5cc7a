/** Euclidean division facts the recurrence proofs need. */
module Arith {
  lemma {:induction false} MulAtLeast(k: int, n: int)
    requires k >= 1 && n > 0
    ensures k * n >= n
  {
    if k > 1 {
      MulAtLeast(k - 1, n);
      assert k * n == (k - 1) * n + n;
    }
  }

  lemma DivModUnique(a: int, n: int, q: int, t: int)
    requires n > 0 && 0 <= t < n && a == q * n + t
    ensures a / n == q && a % n == t
  {
    var q' := a / n;
    var t' := a % n;
    assert a == q' * n + t';
    if q' < q {
      assert (q - q') * n == q * n - q' * n;
      MulAtLeast(q - q', n);
    } else if q' > q {
      assert (q' - q) * n == q' * n - q * n;
      MulAtLeast(q' - q, n);
    }
  }

  lemma NextMultiple(d: nat, n: nat)
    requires n > 0
    ensures d < (d / n + 1) * n
    ensures ((d / n + 1) * n) % n == 0
    ensures forall e: nat :: d < e < (d / n + 1) * n ==> e % n != 0
  {
    var q := d / n;
    var c := (q + 1) * n;
    assert c == q * n + n;
    assert d == q * n + d % n;
    DivModUnique(c, n, q + 1, 0);
    forall e: nat | d < e < c ensures e % n != 0 {
      DivModUnique(e, n, q, e - q * n);
    }
  }
}
