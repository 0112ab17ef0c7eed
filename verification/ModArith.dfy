/** Remainders by a variable modulus. */
module ModArith {

  lemma {:induction false} MulBound(d: int, n: nat)
    ensures d > 0 ==> d * n >= n
    ensures d < 0 ==> d * n + n <= 0
  {
    if d > 0 {
      MulNonNegative(d - 1, n);
      assert d * n == (d - 1) * n + n;
    } else if d < 0 {
      MulNonNegative(-d - 1, n);
      assert (-d - 1) * n == -(d * n) - n;
    }
  }

  lemma {:induction false} MulNonNegative(a: nat, b: nat)
    ensures a * b >= 0
  {
  }

  lemma {:induction false} ModUnique(x: int, q: int, r: int, n: nat)
    requires n > 0 && x == q * n + r && 0 <= r < n
    ensures x % n == r && x / n == q
  {
    var q', r' := x / n, x % n;
    var d := q' - q;
    assert d * n == q' * n - q * n;
    assert x == q' * n + r';
    MulBound(d, n);
  }

  lemma {:induction false} ModShift(x: int, q: int, n: nat)
    requires n > 0
    ensures (q * n + x) % n == x % n
  {
    assert q * n + x == (q + x / n) * n + x % n by {
      assert x == (x / n) * n + x % n;
      assert (q + x / n) * n == q * n + (x / n) * n;
    }
    ModUnique(q * n + x, q + x / n, x % n, n);
  }

  lemma {:induction false} AddMod(a: int, b: int, n: nat)
    requires n > 0
    ensures (a % n + b) % n == (a + b) % n
  {
    assert a == (a / n) * n + a % n;
    ModShift(a % n + b, a / n, n);
  }

  lemma {:induction false} ModOfMod(x: int, n: nat, m: nat, q: nat)
    requires n > 0 && m > 0 && m == q * n
    ensures x % m % n == x % n
  {
    var k := x / m;
    assert x == k * m + x % m;
    assert k * m == (k * q) * n;
    ModShift(x % m, k * q, n);
  }

  // equal remainders: the difference is a multiple
  lemma {:induction false} ModEqual(a: int, b: int, n: nat) returns (k: int)
    requires n > 0 && a % n == b % n
    ensures a - b == k * n
  {
    k := a / n - b / n;
    assert a == (a / n) * n + a % n && b == (b / n) * n + b % n;
    assert k * n == (a / n) * n - (b / n) * n;
  }
}
