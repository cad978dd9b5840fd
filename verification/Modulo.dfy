/** Facts about remainders by a variable divisor. */
module Modulo {
  lemma MultipleBounds(n: int, d: int)
    requires n > 0
    ensures d >= 1 ==> n * d >= n
    ensures d <= -1 ==> n * d <= -n
    ensures d <= 0 ==> n * d <= 0
  {}

  /** Quotient and remainder are determined by x == q * n + r. */
  lemma Unique(x: int, n: int, q: int, r: int)
    requires n > 0 && 0 <= r < n && x == q * n + r
    ensures x / n == q && x % n == r
  {
    var d := x / n - q;
    assert x == n * (x / n) + x % n;
    assert n * d == r - x % n by {
      assert n * d == n * (x / n) - n * q;
    }
    MultipleBounds(n, d);
  }

  lemma Shift(x: int, n: int)
    requires n > 0
    ensures (x + n) % n == x % n
  {
    assert x == n * (x / n) + x % n;
    assert x + n == (x / n + 1) * n + x % n;
    Unique(x + n, n, x / n + 1, x % n);
  }

  lemma Succ(x: int, n: int)
    requires n > 0
    ensures (x + 1) % n == (x % n + 1) % n
  {
    assert x == n * (x / n) + x % n;
    if x % n + 1 < n {
      Unique(x + 1, n, x / n, x % n + 1);
      Unique(x % n + 1, n, 0, x % n + 1);
    } else {
      assert x + 1 == (x / n + 1) * n + 0;
      Unique(x + 1, n, x / n + 1, 0);
      Unique(n, n, 1, 0);
    }
  }

  lemma Pred(x: int, n: int)
    requires n > 0
    ensures (x - 1) % n == (x % n - 1 + n) % n
  {
    Succ(x - 1, n);
    var m := (x - 1) % n;
    if m + 1 < n {
      Unique(m + 1, n, 0, m + 1);
      assert x % n == m + 1;
      Unique(m + n, n, 1, m);
    } else {
      Unique(n, n, 1, 0);
      assert x % n == 0;
      Unique(n - 1, n, 0, n - 1);
    }
  }

  lemma SmallId(x: int, n: int)
    requires 0 <= x < n
    ensures x % n == x
  {}

  /** Two different numbers with the same remainder are at least n apart. */
  lemma Apart(x: int, y: int, n: int)
    requires n > 0 && x < y && x % n == y % n
    ensures x + n <= y
  {
    assert x == n * (x / n) + x % n;
    assert y == n * (y / n) + y % n;
    var d := y / n - x / n;
    assert n * d == y - x by {
      assert n * d == n * (y / n) - n * (x / n);
    }
    MultipleBounds(n, d);
  }

  /** Reducing one summand first does not change the remainder of a sum. */
  lemma Sum(x: int, y: int, n: int)
    requires n > 0
    ensures (x % n + y) % n == (x + y) % n
  {
    var z := x % n + y;
    assert x == n * (x / n) + x % n;
    assert z == n * (z / n) + z % n;
    assert x + y == (x / n + z / n) * n + z % n by {
      assert (x / n + z / n) * n == n * (x / n) + n * (z / n);
    }
    Unique(x + y, n, x / n + z / n, z % n);
  }
}
