/** One's complement sums of 16-bit words: section 2 of RFC 1071. Host words are little-endian; the network order sum is
    the reference. */
module OnesComplement {
  import opened Basics

  function Word(hi: byte, lo: byte): u16 {
    var h: int := hi;
    0x100 * h + lo
  }

  // ---------- the reference: add words one at a time with an end-around carry ----------

  function AddWithCarry(a: u16, b: u16): u16 {
    if a + b > 0xffff then a + b - 0xffff else a + b
  }

  // 16-bit words in network order, an odd last byte padded with zero
  function NetworkSum(b: seq<byte>): u16
    decreases |b|
  {
    if |b| == 0 then 0
    else if |b| == 1 then Word(b[0], 0)
    else AddWithCarry(NetworkSum(b[2..]), Word(b[0], b[1]))
  }

  /** The example of section 3 of RFC 1071. */
  lemma {:induction false} RfcExample()
    ensures NetworkSum([0x00, 0x01, 0xf2, 0x03, 0xf4, 0xf5, 0xf6, 0xf7]) == 0xddf2
  {
    var d: seq<byte> := [0x00, 0x01, 0xf2, 0x03, 0xf4, 0xf5, 0xf6, 0xf7];
    assert d[2..] == [0xf2, 0x03, 0xf4, 0xf5, 0xf6, 0xf7];
    assert d[2..][2..] == [0xf4, 0xf5, 0xf6, 0xf7];
    assert d[2..][2..][2..] == [0xf6, 0xf7];
  }

  function SwapBytes(w: u16): u16 { (w % 0x100) * 0x100 + w / 0x100 }

  /** The host word whose two bytes in memory are the network order sum of b. */
  function Sum(b: seq<byte>): u16 { SwapBytes(NetworkSum(b)) }

  // ---------- plain sums and their canonical residue ----------

  // network order words, no carries
  function BeSum(b: seq<byte>): nat
    decreases |b|
  {
    if |b| == 0 then 0
    else if |b| == 1 then Word(b[0], 0)
    else Word(b[0], b[1]) + BeSum(b[2..])
  }

  // the same bytes read as host words
  function LeSum(b: seq<byte>): nat
    decreases |b|
  {
    if |b| == 0 then 0
    else if |b| == 1 then Word(0, b[0])
    else Word(b[1], b[0]) + LeSum(b[2..])
  }

  // the representative of s modulo 65535 that is 0 only for s == 0
  function Canon(s: nat): u16 {
    if s == 0 then 0 else (s - 1) % 0xffff + 1
  }

  // FOLD_U32T
  function Fold(u: nat): nat { u / 0x1_0000 + u % 0x1_0000 }

  lemma {:induction false} CanonSmall(u: u16)
    ensures Canon(u) == u
  {
  }

  lemma {:induction false} CanonFold(u: nat)
    ensures Canon(Fold(u)) == Canon(u)
  {
    var q := u / 0x1_0000;
    assert u == Fold(u) + 0xffff * q;
    CanonShift(Fold(u), q);
  }

  lemma {:induction false} CanonShift(s: nat, k: nat)
    requires s > 0 || k == 0
    ensures Canon(s + 0xffff * k) == Canon(s)
  {
  }

  // folding a 32-bit sum twice gives the canonical residue
  lemma {:induction false} FoldTwice(u: u32)
    ensures Fold(Fold(u)) == Canon(u)
  {
    CanonFold(u);
    CanonFold(Fold(u));
    CanonSmall(Fold(Fold(u)));
  }

  lemma {:induction false} CanonAdd(a: nat, b: nat)
    ensures Canon(Canon(a) + b) == Canon(a + b)
  {
    if a > 0 {
      var k := (a - 1) / 0xffff;
      assert a == Canon(a) + 0xffff * k;
      CanonShift(Canon(a) + b, k);
    }
  }

  lemma {:induction false} CanonCongruent(a: nat, a': nat, b: nat)
    requires Canon(a) == Canon(a')
    ensures Canon(a + b) == Canon(a' + b)
  {
    CanonAdd(a, b);
    CanonAdd(a', b);
  }

  lemma {:induction false} CanonSwap(s: nat)
    ensures SwapBytes(Canon(s)) == Canon(0x100 * s)
  {
    if s > 0 {
      var c: int := Canon(s);
      var k := (s - 1) / 0xffff;
      assert s == c + 0xffff * k;
      assert 0x100 * s == 0x100 * c + 0xffff * (0x100 * k);
      CanonShift(0x100 * c, 0x100 * k);
      var hi, lo := c / 0x100, c % 0x100;
      assert 0x100 * c == SwapBytes(c) + 0xffff * hi;
      CanonShift(SwapBytes(c), hi);
      CanonSmall(SwapBytes(c));
    }
  }

  lemma {:induction false} SwapTwice(w: u16)
    ensures SwapBytes(SwapBytes(w)) == w
  {
  }

  // ---------- byte order and cutting ----------

  // a network order word is 256 times the host word, modulo 65535
  lemma {:induction false} OrdersAgree(b: seq<byte>)
    ensures Canon(0x100 * BeSum(b)) == Canon(LeSum(b))
    ensures BeSum(b) == 0 <==> LeSum(b) == 0
    ensures exists k: nat :: 0x100 * BeSum(b) == LeSum(b) + 0xffff * k
    decreases |b|
  {
    if |b| == 0 {
      assert 0x100 * BeSum(b) == LeSum(b) + 0xffff * 0;
    } else if |b| == 1 {
      assert 0x100 * BeSum(b) == LeSum(b) + 0xffff * (b[0] as nat);
      CanonShift(LeSum(b), b[0]);
    } else {
      OrdersAgree(b[2..]);
      var k: nat :| 0x100 * BeSum(b[2..]) == LeSum(b[2..]) + 0xffff * k;
      var k' := k + b[0];
      assert 0x100 * BeSum(b) == LeSum(b) + 0xffff * k';
      CanonShift(LeSum(b), k');
    }
  }

  lemma {:induction false} CarryIsCanon(a: u16, b: u16)
    ensures AddWithCarry(a, b) == Canon(a + b)
  {
  }

  lemma {:induction false} NetworkSumCanon(b: seq<byte>)
    ensures NetworkSum(b) == Canon(BeSum(b))
    decreases |b|
  {
    hide Canon, AddWithCarry;
    if |b| >= 2 {
      NetworkSumCanon(b[2..]);
      CarryIsCanon(NetworkSum(b[2..]), Word(b[0], b[1]));
      CanonAdd(BeSum(b[2..]), Word(b[0], b[1]));
    } else {
      CanonSmall(NetworkSum(b));
    }
  }

  /** Byte order independence: adding host words and swapping nothing gives Sum. */
  lemma {:induction false} SumIsLeSum(b: seq<byte>)
    ensures Sum(b) == Canon(LeSum(b))
    ensures SwapBytes(Sum(b)) == Canon(BeSum(b))
  {
    NetworkSumCanon(b);
    CanonSwap(BeSum(b));
    OrdersAgree(b);
    SwapTwice(NetworkSum(b));
  }

  // reading from an odd position puts the bytes the other way round
  lemma {:induction false} OddStart(b: seq<byte>)
    requires |b| > 0
    ensures BeSum(b) == Word(b[0], 0) + LeSum(b[1..])
    decreases |b|
  {
    if |b| >= 2 {
      if |b| >= 3 {
        OddStart(b[2..]);
        assert b[2..][1..] == b[1..][2..];
      }
    }
  }

  lemma {:induction false} LeSumAppend(a: seq<byte>, b: seq<byte>)
    ensures |a| % 2 == 0 ==> LeSum(a + b) == LeSum(a) + LeSum(b)
    ensures |a| % 2 == 1 ==> BeSum(a + b) == BeSum(a) + LeSum(b)
    decreases |a|
  {
    if |a| == 0 {
      assert a + b == b;
    } else if |a| == 1 {
      OddStart(a + b);
      assert (a + b)[1..] == b;
    } else {
      LeSumAppend(a[2..], b);
      assert (a + b)[2..] == a[2..] + b;
    }
  }

  lemma {:induction false} LeSumBound(b: seq<byte>)
    ensures 2 * LeSum(b) <= 0xffff * (|b| + 1)
    ensures 2 * BeSum(b) <= 0xffff * (|b| + 1)
    decreases |b|
  {
    if |b| >= 2 { LeSumBound(b[2..]); }
  }
}
