/** Natural-number facts about powers and Euclidean division used by the
    reduction function's digit extraction. */
module Arith {

  function Pow(b: nat, e: nat): (r: nat)
    ensures b > 0 ==> r > 0
  {
    if e == 0 then 1 else b * Pow(b, e - 1)
  }

  /** Division by a positive divisor has exactly one quotient/remainder pair. */
  lemma DivModUnique(a: int, n: int, q: int, r: int)
    requires n > 0 && 0 <= r < n && a == q * n + r
    ensures a / n == q && a % n == r
  {
    var q0, r0 := a / n, a % n;
    assert (q - q0) * n == r0 - r;
    if q > q0 {
      assert (q - q0) * n >= n by { MulAtLeast(q - q0, n); }
    } else if q < q0 {
      assert (q0 - q) * n >= n by { MulAtLeast(q0 - q, n); }
    }
  }

  lemma MulAtLeast(k: int, n: int)
    requires k >= 1 && n > 0
    ensures k * n >= n
  {
    assert k * n == (k - 1) * n + n;
    assert (k - 1) * n >= 0;
  }

  /** Dividing by `b` and then by `c` is dividing by `b * c`. */
  lemma DivDiv(a: nat, b: nat, c: nat)
    requires b > 0 && c > 0
    ensures a / b / c == a / (b * c)
  {
    var q1, r1 := a / b, a % b;
    var q2, r2 := q1 / c, q1 % c;
    assert a == b * q1 + r1;
    assert q1 == c * q2 + r2;
    var r := b * r2 + r1;
    assert b * q1 == (b * c) * q2 + b * r2 by {
      MulDistrib(b, c * q2, r2);
      assert b * (c * q2) == (b * c) * q2;
    }
    assert b * r2 <= b * (c - 1) by {
      MulMonotone(b, r2, c - 1);
    }
    assert b * (c - 1) == b * c - b;
    DivModUnique(a, b * c, q2, r);
  }

  lemma MulDistrib(a: int, x: int, y: int)
    ensures a * (x + y) == a * x + a * y
  {
  }

  lemma MulMonotone(a: nat, x: nat, y: nat)
    requires x <= y
    ensures a * x <= a * y
  {
    assert a * y == a * x + a * (y - x);
  }

  /** Reducing modulo `n * m` keeps the remainder modulo `n`, and the
      quotient by `n` of the reduced value is the quotient reduced modulo `m`. */
  lemma ModMulSplit(a: nat, n: nat, m: nat)
    requires n > 0 && m > 0
    ensures (a % (n * m)) % n == a % n
    ensures (a % (n * m)) / n == (a / n) % m
  {
    var r := a % (n * m);
    var q := a / (n * m);
    assert a == (n * m) * q + r;
    var s, t := r / n, r % n;
    assert r == n * s + t;
    assert s < m;
    assert a == (m * q + s) * n + t by {
      assert (n * m) * q == (m * q) * n;
      assert n * s == s * n;
    }
    DivModUnique(a, n, m * q + s, t);
    DivModUnique(a / n, m, q, s);
    DivModUnique(r, n, s, t);
  }
}
