/** Triangular probing over a power-of-two table: the number theory behind every probe loop. */
module Probing {
  import opened Basics
  import opened RoundUp32
  import opened ModArith

  // the distance travelled after s steps of i = (i + (++step)) & mask
  function Tri(s: nat): nat {
    if s == 0 then 0 else Tri(s - 1) + s
  }

  // the bucket reached from hash value h after s steps
  function Probe(h: nat, s: nat, n: nat): (i: nat)
    requires n > 0
    ensures i < n
  {
    (h + Tri(s)) % n
  }

  lemma {:induction false} TriTwice(s: nat)
    ensures 2 * Tri(s) == s * (s + 1)
  {
    if s > 0 { TriTwice(s - 1); }
  }

  lemma {:induction false} PowerDividesPower(a: nat, b: nat) returns (q: nat)
    requires IsPowerOfTwo(a) && IsPowerOfTwo(b) && a <= b
    ensures b == q * a
    decreases a
  {
    if a == 1 {
      q := b;
    } else {
      q := PowerDividesPower(a / 2, b / 2);
      assert q * a == 2 * (q * (a / 2));
    }
  }

  // (i + step) & mask, in 32-bit arithmetic
  function Next(i: nat, step: nat, n: nat): nat
    requires n > 0
  {
    (i + step) % TWO32 % n
  }

  lemma {:induction false} ProbeStart(h: nat, n: nat)
    requires n > 0
    ensures h % n == Probe(h, 0, n)
  {
  }

  /** One turn of a probe loop, in 32-bit arithmetic, is one more step of Probe. */
  lemma {:induction false} ProbeStep(h: nat, s: nat, n: nat)
    requires IsPowerOfTwo(n) && n <= TWO31
    ensures Next(Probe(h, s, n), s + 1, n) == Probe(h, s + 1, n)
  {
    var q := DividesTwo32(n);
    hide IsPowerOfTwo;
    StepMod(h + Tri(s), s + 1, n, q);
  }

  lemma {:induction false} DividesTwo32(n: nat) returns (q: nat)
    requires IsPowerOfTwo(n) && n <= TWO31
    ensures TWO32 == q * n
  {
    Two31IsPower();
    var half := PowerDividesPower(n, TWO31);
    q := 2 * half;
    assert q * n == 2 * (half * n);
  }

  lemma {:induction false} StepMod(a: nat, b: nat, n: nat, q: nat)
    requires n > 0 && TWO32 == q * n
    ensures (a % n + b) % TWO32 % n == (a + b) % n
  {
    ModOfMod(a % n + b, n, TWO32, q);
    AddMod(a, b, n);
  }

  // a power of two that divides u * v with u odd divides v
  lemma {:induction false} OddFactor(m: nat, u: nat, v: nat, k: nat) returns (j: nat)
    requires IsPowerOfTwo(m) && u % 2 == 1 && u * v == k * m
    ensures v == j * m
    decreases m
  {
    if m == 1 {
      j := v;
    } else {
      assert k * m == 2 * (k * (m / 2));
      var w := u / 2;
      assert u * v == 2 * (w * v) + v;
      assert v % 2 == 0;
      assert u * (v / 2) == k * (m / 2) by { assert 2 * (u * (v / 2)) == u * v; }
      j := OddFactor(m / 2, u, v / 2, k);
      assert j * m == 2 * (j * (m / 2));
    }
  }

  /** No bucket is met twice within n steps. */
  lemma {:induction false} ProbeInjective(h: nat, a: nat, b: nat, n: nat)
    requires IsPowerOfTwo(n) && a < b < n
    ensures Probe(h, a, n) != Probe(h, b, n)
  {
    if Probe(h, a, n) == Probe(h, b, n) {
      TriTwice(a);
      TriTwice(b);
      var k := ModEqual(h + Tri(b), h + Tri(a), n);
      TriDifference(a, b, n, k);
    }
  }

  lemma {:induction false} TriDifference(a: nat, b: nat, n: nat, k: int)
    requires IsPowerOfTwo(n) && a < b < n
    ensures b * (b + 1) - a * (a + 1) != 2 * (k * n)
  {
    if b * (b + 1) - a * (a + 1) == 2 * (k * n) {
      var u, v := b - a, a + b + 1;
      assert u * v == b * (b + 1) - a * (a + 1);
      assert k * (2 * n) == 2 * (k * n);
      NotMultiple(u, v, 2 * n, k);
    }
  }

  lemma {:induction false} NotMultiple(u: nat, v: nat, m: nat, k: int)
    requires IsPowerOfTwo(m) && 0 < u < m && 0 < v < m && u % 2 != v % 2
    ensures u * v != k * m
  {
    if u * v == k * m {
      MulBound(k, m);
      assert u * v >= 0;
      if u % 2 == 1 {
        var j := OddFactor(m, u, v, k);
        MulBound(j, m);
      } else {
        assert v * u == u * v;
        var j := OddFactor(m, v, u, k);
        MulBound(j, m);
      }
    }
  }

  // ---------- n distinct buckets are all of them ----------

  function Below(n: nat): (b: set<nat>)
    ensures forall i: nat :: i in b <==> i < n
    ensures |b| == n
  {
    if n == 0 then {} else Below(n - 1) + {n - 1}
  }

  function Visited(h: nat, s: nat, n: nat): (v: set<nat>)
    requires n > 0
    ensures forall i :: i in v ==> i < n
  {
    if s == 0 then {} else Visited(h, s - 1, n) + {Probe(h, s - 1, n)}
  }

  lemma {:induction false} VisitedStep(h: nat, s: nat, n: nat, i: nat) returns (t: nat)
    requires n > 0 && i in Visited(h, s, n)
    ensures t < s && Probe(h, t, n) == i
  {
    if i == Probe(h, s - 1, n) { t := s - 1; } else { t := VisitedStep(h, s - 1, n, i); }
  }

  lemma {:induction false} VisitedSize(h: nat, s: nat, n: nat)
    requires IsPowerOfTwo(n) && s <= n
    ensures |Visited(h, s, n)| == s
  {
    if s > 0 {
      VisitedSize(h, s - 1, n);
      if Probe(h, s - 1, n) in Visited(h, s - 1, n) {
        var t := VisitedStep(h, s - 1, n, Probe(h, s - 1, n));
        ProbeInjective(h, t, s - 1, n);
      }
    }
  }

  lemma {:induction false} SubsetOfSameSize(a: set<nat>, b: set<nat>)
    requires a <= b && |a| == |b|
    ensures a == b
  {
    assert b == a + (b - a);
  }

  /** Within n steps every bucket of the table is met. */
  lemma {:induction false} ProbeCovers(h: nat, i: nat, n: nat) returns (s: nat)
    requires IsPowerOfTwo(n) && i < n
    ensures s < n && Probe(h, s, n) == i
  {
    VisitedSize(h, n, n);
    SubsetOfSameSize(Visited(h, n, n), Below(n));
    s := VisitedStep(h, n, n, i);
  }

  /** The probe loop is back at its first bucket after 2n-1 steps at the latest. */
  lemma {:induction false} ProbeReturns(h: nat, n: nat)
    requires IsPowerOfTwo(n)
    ensures Probe(h, 2 * n - 1, n) == Probe(h, 0, n)
  {
    TriTwice(2 * n - 1);
    var q := 2 * n - 1;
    assert 2 * Tri(q) == 2 * (q * n) by { assert q * (q + 1) == 2 * (q * n); }
    ModShift(h, q, n);
  }
}
