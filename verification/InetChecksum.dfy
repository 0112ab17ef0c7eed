/** The Internet checksum of inet_chksum.c: the three versions of lwip_standard_chksum, and the sums over pbuf chains
    built on them. All of them compute OnesComplement.Sum. */
module InetChecksum {
  import opened Basics
  import opened OnesComplement

  // the length up to which a 32-bit accumulator of 16-bit words cannot overflow
  const SUM_LIMIT: nat := 0x2_0000

  function HostWord(data: seq<byte>, pos: nat): u16
    requires pos + 1 < |data|
  {
    Word(data[pos + 1], data[pos])
  }

  lemma {:induction false} LeSumStep(data: seq<byte>, pos: nat)
    requires pos <= |data|
    ensures pos + 1 < |data| ==> LeSum(data[pos..]) == HostWord(data, pos) + LeSum(data[pos + 2..])
    ensures pos + 1 == |data| ==> LeSum(data[pos..]) == data[pos]
    ensures pos == |data| ==> LeSum(data[pos..]) == 0
  {
    if pos + 1 < |data| {
      assert data[pos..][2..] == data[pos + 2..];
    }
  }

  lemma {:induction false} BeSumStep(data: seq<byte>, pos: nat)
    requires pos <= |data|
    ensures pos + 1 < |data| ==>
              BeSum(data[pos..]) == Word(data[pos], data[pos + 1]) + BeSum(data[pos + 2..])
    ensures pos + 1 == |data| ==> BeSum(data[pos..]) == Word(data[pos], 0)
    ensures pos == |data| ==> BeSum(data[pos..]) == 0
  {
    if pos + 1 < |data| {
      assert data[pos..][2..] == data[pos + 2..];
    }
  }

  /** LWIP_CHKSUM_ALGORITHM 1: network order words, deferred carries, one swap at the end. */
  method Checksum1(data: seq<byte>) returns (r: u16)
    requires |data| <= SUM_LIMIT
    ensures r == Sum(data)
  {
    hide LeSum, BeSum, Canon, Sum, Fold;
    var acc: u32, len, pos := 0, |data|, 0;
    assert data[0..] == data;
    BeSumBound(data);
    while len > 1
      invariant 0 <= len && pos + len == |data|
      invariant acc + BeSum(data[pos..]) == BeSum(data)
    {
      BeSumStep(data, pos);
      acc := acc + Word(data[pos], data[pos + 1]);
      pos := pos + 2;
      len := len - 2;
    }
    BeSumStep(data, pos);
    if len > 0 {
      acc := acc + Word(data[pos], 0);
    }
    FoldTwice(acc);
    FoldRange(acc);
    var folded := Fold(acc);
    if folded / 0x1_0000 != 0 {
      folded := Fold(folded);
    }
    SumIsLeSum(data);
    SwapTwice(Sum(data));
    r := SwapBytes(folded);
  }

  lemma {:induction false} BeSumBound(data: seq<byte>)
    requires |data| <= SUM_LIMIT
    ensures BeSum(data) <= 0xffff_ffff && LeSum(data) <= 0xffff_ffff
  {
    LeSumBound(data);
  }

  lemma {:induction false} FoldRange(u: u32)
    ensures 0 <= Fold(u) <= 0x1_fffe
    ensures Fold(u) < 0x1_0000 ==> Fold(Fold(u)) == Fold(u)
  {
  }

  // the bulk loop shared by versions 2 and 3: sum += *ps++
  method AddHostWords(data: seq<byte>, start: nat, sum0: u32) returns (sum: u32, pos: nat)
    requires start <= |data| && sum0 + LeSum(data[start..]) <= 0xffff_ffff
    ensures start <= pos <= |data| <= pos + 1
    ensures sum + LeSum(data[pos..]) == sum0 + LeSum(data[start..])
  {
    hide LeSum, HostWord;
    sum, pos := sum0, start;
    while |data| - pos > 1
      invariant start <= pos <= |data|
      invariant sum + LeSum(data[pos..]) == sum0 + LeSum(data[start..])
      decreases |data| - pos
    {
      LeSumStep(data, pos);
      sum := sum + HostWord(data, pos);
      pos := pos + 2;
    }
  }

  // fold a 32-bit sum to 16 bits, swap if the start was odd
  function Finish(sum: u32, odd: bool): u16 {
    var folded := Fold(Fold(sum));
    FoldRange(sum);
    FoldRange(Fold(sum));
    FoldTwice(sum);
    if odd then SwapBytes(folded) else folded
  }

  lemma {:induction false} FinishSpec(sum: u32, odd: bool, data: seq<byte>)
    requires Canon(sum) == Canon(if odd then BeSum(data) else LeSum(data))
    ensures Finish(sum, odd) == Sum(data)
  {
    hide LeSum, BeSum, Canon, Sum, Fold, SwapBytes;
    FoldTwice(sum);
    SumIsLeSum(data);
    SwapTwice(Sum(data));
  }

  // the odd first byte goes to t[1], a left-over last byte to t[0]
  method OddHead(odd: bool, data: seq<byte>) returns (t1: byte, pos: nat)
    ensures pos <= |data| && (odd ==> pos == 1 || data == []) && (!odd ==> pos == 0)
    ensures Word(t1, 0) + LeSum(data[pos..]) == if odd then BeSum(data) else LeSum(data)
  {
    assert data[0..] == data;
    t1, pos := 0, 0;
    if odd && |data| > 0 {
      OddStart(data);
      t1 := data[0];
      pos := 1;
    }
  }

  /** LWIP_CHKSUM_ALGORITHM 2: host words from an even address; an odd start is summed the other way round and swapped
      at the end. */
  method Checksum2(address: nat, data: seq<byte>) returns (r: u16)
    requires |data| <= SUM_LIMIT
    ensures r == Sum(data)
  {
    hide LeSum, BeSum, Canon, Sum, Finish;
    var odd := address % 2 == 1;
    BeSumBound(data);
    var t1, start := OddHead(odd, data);
    var sum, pos := AddHostWords(data, start, 0);
    LeSumStep(data, pos);
    var t0 := if pos < |data| then data[pos] else 0;
    sum := sum + Word(t1, t0);
    FinishSpec(sum, odd, data);
    r := Finish(sum, odd);
  }

  // a 32-bit host word
  function HostLong(data: seq<byte>, pos: nat): u32
    requires pos + 3 < |data|
  {
    HostWord(data, pos) + 0x1_0000 * HostWord(data, pos + 2)
  }

  // tmp = sum + x; if (tmp < sum) tmp++;
  function AddLong(sum: u32, x: u32): u32 {
    var tmp := (sum + x) % 0x1_0000_0000;
    if tmp < sum then tmp + 1 else tmp
  }

  /** The end-around carry of the unrolled loop is never lost. */
  lemma {:induction false} AddLongCanon(sum: u32, x: u32)
    ensures Canon(AddLong(sum, x)) == Canon(sum + x)
    ensures AddLong(sum, x) == if sum + x > 0xffff_ffff then sum + x - 0xffff_ffff else sum + x
  {
    if sum + x > 0xffff_ffff {
      CanonShift(AddLong(sum, x), 0x1_0001);
    }
  }

  lemma {:induction false} HostLongCanon(data: seq<byte>, pos: nat, s: nat)
    requires pos + 3 < |data|
    ensures Canon(s + HostLong(data, pos) + LeSum(data[pos + 4..])) == Canon(s + LeSum(data[pos..]))
  {
    LeSumStep(data, pos);
    LeSumStep(data, pos + 2);
    var lo, hi := HostWord(data, pos), HostWord(data, pos + 2);
    var base := s + lo + hi + LeSum(data[pos + 4..]);
    assert s + HostLong(data, pos) + LeSum(data[pos + 4..]) == base + 0xffff * hi;
    CanonShift(base, hi);
  }

  // while (len > 7): eight bytes a turn
  method AddHostLongs(data: seq<byte>, start: nat, sum0: u32) returns (sum: u32, pos: nat)
    requires start <= |data|
    ensures start <= pos <= |data| <= pos + 7
    ensures Canon(sum + LeSum(data[pos..])) == Canon(sum0 + LeSum(data[start..]))
  {
    hide LeSum, Canon, HostLong, AddLong;
    sum, pos := sum0, start;
    while |data| - pos > 7
      invariant start <= pos <= |data|
      invariant Canon(sum + LeSum(data[pos..])) == Canon(sum0 + LeSum(data[start..]))
      decreases |data| - pos
    {
      AddLongStep(data, pos, sum);
      var tmp := AddLong(sum, HostLong(data, pos));
      AddLongStep(data, pos + 4, tmp);
      sum := AddLong(tmp, HostLong(data, pos + 4));
      pos := pos + 8;
    }
  }

  lemma {:induction false} AddLongStep(data: seq<byte>, pos: nat, sum: u32)
    requires pos + 3 < |data|
    ensures Canon(AddLong(sum, HostLong(data, pos)) + LeSum(data[pos + 4..])) == Canon(sum + LeSum(data[pos..]))
  {
    hide LeSum, Canon, HostLong, AddLong;
    AddLongCanon(sum, HostLong(data, pos));
    CanonCongruent(AddLong(sum, HostLong(data, pos)), sum + HostLong(data, pos), LeSum(data[pos + 4..]));
    HostLongCanon(data, pos, sum);
  }

  /** LWIP_CHKSUM_ALGORITHM 3: 32-bit words, two a turn, from a 4-byte boundary; of any length. */
  method Checksum3(address: nat, data: seq<byte>) returns (r: u16)
    ensures r == Sum(data)
  {
    hide LeSum, BeSum, Canon, Sum, Finish, Fold;
    var odd := address % 2 == 1;
    var t1, pos := OddHead(odd, data);
    var sum: u32 := 0;
    ghost var whole := if odd then BeSum(data) else LeSum(data);
    if (address + pos) % 4 != 0 && |data| - pos > 1 {
      LeSumStep(data, pos);
      sum := HostWord(data, pos);
      pos := pos + 2;
    }
    assert Word(t1, 0) + sum + LeSum(data[pos..]) == whole;
    ghost var rest0 := sum + LeSum(data[pos..]);
    sum, pos := AddHostLongs(data, pos, sum);
    CanonCongruent(sum + LeSum(data[pos..]), rest0, Word(t1, 0));
    CanonFold(sum);
    FoldRange(sum);
    CanonCongruent(sum, Fold(sum), LeSum(data[pos..]) + Word(t1, 0));
    sum := Fold(sum);
    LeSumBound(data[pos..]);
    sum, pos := AddHostWords(data, pos, sum);
    LeSumStep(data, pos);
    var t0 := if pos < |data| then data[pos] else 0;
    sum := sum + Word(t1, t0);
    FinishSpec(sum, odd, data);
    r := Finish(sum, odd);
  }
}
