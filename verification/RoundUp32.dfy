/** The bucket counts of the hash table: `kroundup32` on 32-bit unsigned numbers. A word is kept as its 32 bits, most
    significant first, so that the shift-and-or steps of the macro are statements about positions. */
module RoundUp32 {
  import opened Basics

  predicate IsPowerOfTwo(n: nat)
  {
    n == 1 || (n > 1 && n % 2 == 0 && IsPowerOfTwo(n / 2))
  }

  function Power2(k: nat): (p: nat)
    ensures p > 0
  {
    if k == 0 then 1 else 2 * Power2(k - 1)
  }

  lemma {:induction false} Power2IsPower(k: nat)
    ensures IsPowerOfTwo(Power2(k))
  {
    if k > 0 { Power2IsPower(k - 1); }
  }

  function Bits(n: nat, width: nat): (b: seq<bool>)
    ensures |b| == width
    decreases width, n
  {
    if width == 0 then [] else Bits(n / 2, width - 1) + [n % 2 == 1]
  }

  function Value(b: seq<bool>): nat {
    if b == [] then 0 else 2 * Value(b[..|b| - 1]) + (if b[|b| - 1] then 1 else 0)
  }

  lemma {:induction false} ValueOfBits(n: nat, width: nat)
    requires n < Power2(width)
    ensures Value(Bits(n, width)) == n
  {
    if width > 0 {
      ValueOfBits(n / 2, width - 1);
      assert Bits(n, width)[..width - 1] == Bits(n / 2, width - 1);
    }
  }

  // ---------- the macro ----------

  // x | (x >> k)
  function OrShifted(b: seq<bool>, k: nat): (r: seq<bool>)
    ensures |r| == |b|
  {
    seq(|b|, i requires 0 <= i < |b| => b[i] || (i >= k && b[i - k]))
  }

  function Smear(b: seq<bool>): seq<bool> {
    OrShifted(OrShifted(OrShifted(OrShifted(OrShifted(b, 1), 2), 4), 8), 16)
  }

  // --(x), x |= x>>1, x |= x>>2, x |= x>>4, x |= x>>8, x |= x>>16, ++(x)
  function KRoundUp32(x: u32): u32 { RoundUp(x, 32) }

  function RoundUp(x: u32, width: nat): u32 {
    (Value(Smear(Bits((x + TWO32 - 1) % TWO32, width))) + 1) % TWO32
  }

  // position i is set when b has a set bit in the `window` positions that end at i
  ghost predicate Covers(r: seq<bool>, b: seq<bool>, window: nat) {
    |r| == |b| &&
    forall i :: 0 <= i < |r| ==> (r[i] <==> exists j :: i - window < j <= i && 0 <= j && b[j])
  }

  lemma {:induction false} OrShiftedDoubles(r: seq<bool>, b: seq<bool>, k: nat)
    requires Covers(r, b, k)
    ensures Covers(OrShifted(r, k), b, 2 * k)
  {
  }

  lemma {:induction false} SmearCovers(b: seq<bool>)
    ensures Covers(Smear(b), b, 32)
  {
    assert Covers(b, b, 1);
    var b1 := OrShifted(b, 1);
    OrShiftedDoubles(b, b, 1);
    var b2 := OrShifted(b1, 2);
    OrShiftedDoubles(b1, b, 2);
    var b4 := OrShifted(b2, 4);
    OrShiftedDoubles(b2, b, 4);
    var b8 := OrShifted(b4, 8);
    OrShiftedDoubles(b4, b, 8);
    OrShiftedDoubles(b8, b, 16);
  }

  // all bits below the highest set one become set
  lemma {:induction false} OnesFrom(b: seq<bool>, p: nat)
    requires p <= |b|
    requires forall i :: 0 <= i < |b| ==> (b[i] <==> p <= i)
    ensures Value(b) == Power2(|b| - p) - 1
  {
    if b != [] {
      OnesFrom(b[..|b| - 1], if p == |b| then p - 1 else p);
    }
  }

  lemma {:induction false} ValueRange(b: seq<bool>, p: nat)
    requires p <= |b|
    requires forall i :: 0 <= i < p ==> !b[i]
    ensures Value(b) < Power2(|b| - p)
    ensures p < |b| && b[p] ==> 2 * Value(b) >= Power2(|b| - p)
  {
    if p < |b| {
      ValueRange(b[..|b| - 1], p);
      if p == |b| - 1 {
        ValueRange(b[..p], p);
      }
    } else if b != [] {
      ValueRange(b[..|b| - 1], p - 1);
    }
  }

  lemma {:induction false} FirstSet(b: seq<bool>) returns (p: nat)
    ensures p <= |b| && (forall i :: 0 <= i < p ==> !b[i]) && (p < |b| ==> b[p])
  {
    if b == [] || b[0] {
      p := 0;
    } else {
      var q := FirstSet(b[1..]);
      p := q + 1;
      assert forall i :: 1 <= i < p ==> b[i] == b[1..][i - 1];
    }
  }

  lemma {:induction false} Power32()
    ensures Power2(31) == TWO31 && Power2(32) == TWO32
  {
    assert Power2(8) == 0x100;
    assert Power2(16) == 0x1_0000;
    assert Power2(24) == 0x100_0000;
  }

  lemma {:induction false} Power2Grows(j: nat, k: nat)
    requires j < k
    ensures 2 * Power2(j) <= Power2(k)
  {
    if j < k - 1 { Power2Grows(j, k - 1); }
  }

  // smearing the bits of y gives one less than the least power of two above y
  lemma {:induction false} SmearedValue(y: nat, width: nat) returns (k: nat)
    requires width <= 32 && y < Power2(width)
    ensures k <= width && Value(Smear(Bits(y, width))) == Power2(k) - 1
    ensures y < Power2(k) && (k > 0 ==> 2 * y >= Power2(k)) && (k == 0 ==> y == 0)
  {
    var b := Bits(y, width);
    ValueOfBits(y, width);
    var p := FirstSet(b);
    ValueRange(b, p);
    SmearCovers(b);
    OnesFrom(Smear(b), p);
    k := width - p;
  }

  lemma {:induction false} RoundUpSpec(x: u32, width: nat) returns (k: nat)
    requires 0 < width <= 32 && Power2(width) == TWO32 && Power2(width - 1) == TWO31
    ensures 0 < x <= TWO31 ==> RoundUp(x, width) == Power2(k) && x <= Power2(k) < 2 * x
    ensures x == 0 || x > TWO31 ==> RoundUp(x, width) == 0
  {
    hide Value, Smear, Bits;
    var y := (x + TWO32 - 1) % TWO32;
    assert y == if x == 0 then TWO32 - 1 else x - 1;
    k := SmearedValue(y, width);
    assert RoundUp(x, width) == Power2(k) % TWO32;
    if k < width - 1 {
      Power2Grows(k, width - 1);
    }
  }

  /** For 1..2^31 the macro gives the least power of two not below x; for 0 and above 2^31 the 32-bit arithmetic wraps
      it to 0. */
  lemma {:induction false} KRoundUp32Spec(x: u32)
    ensures 0 < x <= TWO31 ==> IsPowerOfTwo(KRoundUp32(x)) && x <= KRoundUp32(x) < 2 * x
    ensures x == 0 || x > TWO31 ==> KRoundUp32(x) == 0
  {
    Power32();
    var k := RoundUpSpec(x, 32);
    Power2IsPower(k);
  }

  // ---------- how powers of two are spaced ----------

  lemma {:induction false} PowersAreSpaced(a: nat, b: nat)
    requires IsPowerOfTwo(a) && IsPowerOfTwo(b) && a < b
    ensures 2 * a <= b
    decreases a
  {
    if a > 1 {
      PowersAreSpaced(a / 2, b / 2);
    }
  }

  lemma {:induction false} Two31IsPower()
    ensures IsPowerOfTwo(TWO31)
  {
    Power32();
    Power2IsPower(31);
  }

  // the only power of two in [lo, 2*lo), for a power of two lo
  lemma {:induction false} PowerInRange(lo: nat, r: nat)
    requires IsPowerOfTwo(lo) && IsPowerOfTwo(r) && lo <= r < 2 * lo
    ensures r == lo
  {
    if lo < r { PowersAreSpaced(lo, r); }
  }

  // the only power of two in (lo, 4*lo) other than lo, for a power of two lo
  lemma {:induction false} NextPower(lo: nat, r: nat)
    requires IsPowerOfTwo(lo) && IsPowerOfTwo(r) && lo < r < 4 * lo
    ensures r == 2 * lo
  {
    PowersAreSpaced(lo, r);
    PowerInRange(2 * lo, r);
  }

  lemma {:induction false} PreviousBound(n: nat, r: nat)
    requires IsPowerOfTwo(n) && IsPowerOfTwo(r) && 4 <= n && n - 1 <= r < 2 * (n - 1)
    ensures r == n
  {
    if r < n { PowersAreSpaced(r, n); }
    PowerInRange(n, r);
  }

  /** The two resize requests that kh_put makes: n-1 keeps the bucket count, n+1 doubles it, and doubling 2^31 wraps to
      0. */
  lemma {:induction false} ResizeRequests(n: nat)
    requires IsPowerOfTwo(n) && 4 <= n <= TWO31
    ensures KRoundUp32(n - 1) == n
    ensures n == TWO31 ==> KRoundUp32(n + 1) == 0
    ensures n < TWO31 ==> KRoundUp32(n + 1) == 2 * n <= TWO31
  {
    hide KRoundUp32;
    KRoundUp32Spec(n - 1);
    PreviousBound(n, KRoundUp32(n - 1));
    KRoundUp32Spec(n + 1);
    if n < TWO31 {
      Two31IsPower();
      PowersAreSpaced(n, TWO31);
      NextPower(n, KRoundUp32(n + 1));
    }
  }
}
