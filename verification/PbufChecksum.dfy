/** Checksums over pbuf chains, with and without a pseudo-header: the value depends only on the bytes, not on how they
    are cut into pbufs or where those lie in memory. */
module PbufChecksum {
  import opened Basics
  import opened OnesComplement
  import opened InetChecksum

  // one pbuf: where its payload lies, and the payload
  datatype Pbuf = Pbuf(address: nat, payload: seq<byte>)

  // q->len is 16 bits wide
  ghost predicate ValidChain(p: seq<Pbuf>) {
    forall k :: 0 <= k < |p| ==> |p[k].payload| <= 0xffff
  }

  function Payloads(p: seq<Pbuf>): (r: seq<seq<byte>>)
    ensures |r| == |p| && forall k :: 0 <= k < |p| ==> r[k] == p[k].payload
  {
    seq(|p|, k requires 0 <= k < |p| => p[k].payload)
  }

  // the bytes of a chain
  function ChainBytes(p: seq<Pbuf>): seq<byte> { Flat(Payloads(p)) }

  lemma {:induction false} ChainStep(p: seq<Pbuf>, k: nat)
    requires k < |p|
    ensures ChainBytes(p[..k + 1]) == ChainBytes(p[..k]) + p[k].payload && ChainBytes(p[..0]) == []
  {
    assert Payloads(p[..k + 1])[..k] == Payloads(p[..k]);
  }

  // what acc holds after the bytes `done`
  function Held(done: seq<byte>, swapped: bool): u16 {
    if swapped then SwapBytes(Sum(done)) else Sum(done)
  }

  // one turn of a chain loop: acc += chksum; fold; swap if the piece is odd
  function Turn(acc: u16, chksum: u16, odd: bool): u16 {
    var folded := Fold(acc + chksum);
    FoldFits(acc, chksum);
    if odd then SwapBytes(folded) else folded
  }

  lemma {:induction false} FoldFits(a: u16, b: u16)
    ensures Fold(a + b) <= 0xffff && Fold(a + b) == Canon(a + b)
  {
    CanonFold(a + b);
    CanonSmall(Fold(a + b));
  }

  /** A turn adds a piece. Whether it swaps is free, as long as `swapped` records it; only the bytes added after an odd
      number need acc swapped. */
  lemma {:induction false} TurnAdds(done: seq<byte>, piece: seq<byte>, swapped: bool, odd: bool)
    requires swapped == (|done| % 2 == 1)
    ensures Turn(Held(done, swapped), Sum(piece), odd) == Held(done + piece, swapped != odd)
  {
    hide LeSum, BeSum, Canon, Sum, Fold, SwapBytes;
    var before := if swapped then BeSum(done) else LeSum(done);
    var after := if swapped then BeSum(done + piece) else LeSum(done + piece);
    LeSumAppend(done, piece);
    assert after == before + LeSum(piece);
    SumIsLeSum(piece);
    SumIsLeSum(done);
    FoldFits(Held(done, swapped), Sum(piece));
    CanonAdd(before, Sum(piece));
    CanonAdd(LeSum(piece), before);
    SumIsLeSum(done + piece);
    SwapTwice(Sum(done + piece));
  }

  function Complement(w: u16): u16 { 0xffff - w }

  /** inet_chksum */
  method InetChksum(address: nat, data: seq<byte>) returns (r: u16)
    requires |data| <= 0xffff
    ensures r == Complement(Sum(data))
  {
    var sum := Checksum2(address, data);
    r := Complement(sum);
  }

  /** inet_chksum_pbuf: the checksum of the flat bytes, however they are cut. */
  method InetChksumPbuf(p: seq<Pbuf>) returns (r: u16)
    requires ValidChain(p)
    ensures r == Complement(Sum(ChainBytes(p)))
  {
    hide Sum, SwapBytes, Turn, Held;
    var acc, swapped := 0, false;
    HeldNothing();
    for k := 0 to |p|
      invariant acc == Held(ChainBytes(p[..k]), swapped)
      invariant swapped == (|ChainBytes(p[..k])| % 2 == 1)
    {
      ChainStep(p, k);
      var chksum := Checksum2(p[k].address, p[k].payload);
      var odd := |p[k].payload| % 2 != 0;
      TurnAdds(ChainBytes(p[..k]), p[k].payload, swapped, odd);
      acc := Turn(acc, chksum, odd);
      if odd {
        swapped := !swapped;
      }
    }
    assert p[..|p|] == p;
    Unswap(ChainBytes(p), swapped);
    if swapped {
      acc := SwapBytes(acc);
    }
    r := Complement(acc);
  }

  lemma {:induction false} HeldNothing()
    ensures Held([], false) == 0
  {
  }

  lemma {:induction false} Unswap(done: seq<byte>, swapped: bool)
    ensures Sum(done) == if swapped then SwapBytes(Held(done, swapped)) else Held(done, swapped)
  {
    SwapTwice(Sum(done));
  }

  // ---------- pseudo-headers ----------

  function Bytes4(addr: u32): seq<byte> {
    [addr % 0x100, addr / 0x100 % 0x100, addr / 0x1_0000 % 0x100, addr / 0x100_0000]
  }

  // the pseudo-header of TCP and UDP over IPv4: addresses, zero, protocol, length
  function PseudoHeader(src: u32, dest: u32, proto: byte, protoLen: u16): seq<byte> {
    Bytes4(src) + Bytes4(dest) + [0, proto] + [protoLen / 0x100, protoLen % 0x100]
  }

  /** The pseudo-header byte by byte: section 3.1 of RFC 793. The addresses are in network order already. */
  lemma {:induction false} PseudoHeaderBytes(src: u32, dest: u32, proto: byte, protoLen: u16)
    ensures var h := PseudoHeader(src, dest, proto, protoLen);
            && |h| == 12 && h[8] == 0 && h[9] == proto && h[10] as int * 0x100 + h[11] as int == protoLen
            && h[0] + 0x100 * h[1] as int + 0x1_0000 * h[2] as int + 0x100_0000 * h[3] as int == src
            && h[4] + 0x100 * h[5] as int + 0x1_0000 * h[6] as int + 0x100_0000 * h[7] as int == dest
  {
    Bytes4Value(src);
    Bytes4Value(dest);
    hide Bytes4;
  }

  lemma {:induction false} Bytes4Value(a: u32)
    ensures var b := Bytes4(a);
            |b| == 4 && b[0] + 0x100 * b[1] as int + 0x1_0000 * b[2] as int + 0x100_0000 * b[3] as int == a
  {
    var q, r := a / 0x100, a / 0x1_0000;
    assert a == 0x100 * q + a % 0x100 && q == 0x100 * r + q % 0x100 && r == 0x100 * (a / 0x100_0000) + r % 0x100;
  }

  // acc = (addr & 0xffff) + (addr >> 16), both addresses, folded
  function AddressSum(src: u32, dest: u32): u16 {
    var acc: u32 := Halves(src) + Halves(dest);
    FoldTwice(acc);
    Fold(Fold(acc))
  }

  lemma {:induction false} AddressSumIs(src: u32, dest: u32)
    ensures AddressSum(src, dest) == Held(Bytes4(src) + Bytes4(dest), false)
  {
    hide Bytes4, LeSum, Fold, Canon, Sum;
    SumIsLeSum(Bytes4(src) + Bytes4(dest));
    AddressWords(src);
    AddressWords(dest);
    LeSumAppend(Bytes4(src), Bytes4(dest));
    FoldTwice(Halves(src) + Halves(dest));
  }

  // (addr & 0xffff) + (addr >> 16)
  function Halves(addr: u32): (h: nat)
    ensures h <= 0x1_fffe
  {
    addr % 0x1_0000 + addr / 0x1_0000
  }

  lemma {:induction false} AddressWords(addr: u32)
    ensures |Bytes4(addr)| == 4 && LeSum(Bytes4(addr)) == Halves(addr)
  {
    hide LeSum;
    LeSum4(addr % 0x100, addr / 0x100 % 0x100, addr / 0x1_0000 % 0x100, addr / 0x100_0000);
    LowHalf(addr);
    HighHalf(addr);
  }

  lemma {:induction false} LowHalf(addr: u32)
    ensures addr % 0x1_0000 == 0x100 * (addr / 0x100 % 0x100) + addr % 0x100
  {
  }

  lemma {:induction false} HighHalf(addr: u32)
    ensures addr / 0x1_0000 == 0x100 * (addr / 0x100_0000) + addr / 0x1_0000 % 0x100
  {
  }

  lemma {:induction false} LeSum4(a: byte, b: byte, c: byte, d: byte)
    ensures LeSum([a, b, c, d]) == Word(b, a) + Word(d, c)
  {
    assert [a, b, c, d][2..] == [c, d];
    assert LeSum([c, d]) == Word(d, c) by {
      assert [c, d][2..] == [];
      assert LeSum([]) == 0;
    }
  }

  // acc += htons(proto); acc += htons(proto_len); fold; fold
  function AddProtocol(acc: u16, proto: byte, protoLen: u16): u16 {
    var sum: u32 := acc + SwapBytes(proto) + SwapBytes(protoLen);
    FoldTwice(sum);
    Fold(Fold(sum))
  }

  lemma {:induction false} AddProtocolIs(src: u32, dest: u32, proto: byte, protoLen: u16, data: seq<byte>)
    ensures AddProtocol(Sum(Bytes4(src) + Bytes4(dest) + data), proto, protoLen)
         == Sum(PseudoHeader(src, dest, proto, protoLen) + data)
  {
    hide LeSum, BeSum, Canon, Sum, Fold, SwapBytes, Bytes4;
    var addr := Bytes4(src) + Bytes4(dest);
    var tail: seq<byte> := [0, proto, protoLen / 0x100, protoLen % 0x100];
    var all := PseudoHeader(src, dest, proto, protoLen) + data;
    assert all == addr + (tail + data);
    AddressWords(src);
    AddressWords(dest);
    LeSumAppend(addr, tail + data);
    LeSumAppend(tail, data);
    LeSumAppend(addr, data);
    var t: nat := SwapBytes(proto) + SwapBytes(protoLen);
    assert LeSum(tail) == t by { ProtocolWords(proto, protoLen); }
    SumIsLeSum(addr + data);
    SumIsLeSum(all);
    FoldTwice(Sum(addr + data) + t);
    CanonAdd(LeSum(addr + data), t);
  }

  lemma {:induction false} ProtocolWords(proto: byte, protoLen: u16)
    ensures LeSum([0, proto, protoLen / 0x100, protoLen % 0x100]) == SwapBytes(proto) + SwapBytes(protoLen)
  {
    hide LeSum;
    LeSum4(0, proto, protoLen / 0x100, protoLen % 0x100);
    assert Word(proto, 0) == SwapBytes(proto);
    assert Word(protoLen % 0x100, protoLen / 0x100) == SwapBytes(protoLen);
  }

  /** inet_chksum_pseudo with inet_cksum_pseudo_base: the checksum of pseudo-header and data. */
  method InetChksumPseudo(p: seq<Pbuf>, proto: byte, protoLen: u16, src: u32, dest: u32) returns (r: u16)
    requires ValidChain(p)
    ensures r == Complement(Sum(PseudoHeader(src, dest, proto, protoLen) + ChainBytes(p)))
  {
    hide Sum, SwapBytes, Turn, Held, Bytes4, PseudoHeader, AddressSum, AddProtocol;
    ghost var addr := Bytes4(src) + Bytes4(dest);
    var acc, swapped := AddressSum(src, dest), false;
    AddressSumIs(src, dest);
    AddressWords(src);
    AddressWords(dest);
    assert addr + ChainBytes(p[..0]) == addr;
    for k := 0 to |p|
      invariant acc == Held(addr + ChainBytes(p[..k]), swapped)
      invariant swapped == (|ChainBytes(p[..k])| % 2 == 1)
    {
      ChainStep(p, k);
      assert addr + ChainBytes(p[..k + 1]) == addr + ChainBytes(p[..k]) + p[k].payload;
      var chksum := Checksum2(p[k].address, p[k].payload);
      var odd := |p[k].payload| % 2 != 0;
      TurnAdds(addr + ChainBytes(p[..k]), p[k].payload, swapped, odd);
      acc := Turn(acc, chksum, odd);
      if odd {
        swapped := !swapped;
      }
    }
    assert p[..|p|] == p;
    Unswap(addr + ChainBytes(p), swapped);
    if swapped {
      acc := SwapBytes(acc);
    }
    AddProtocolIs(src, dest, proto, protoLen, ChainBytes(p));
    r := Complement(AddProtocol(acc, proto, protoLen));
  }

  lemma {:induction false} ChainPrefix(p: seq<Pbuf>, k: nat)
    requires k <= |p|
    ensures ChainBytes(p[..k]) <= ChainBytes(p)
    decreases |p| - k
  {
    if k == |p| {
      assert p[..k] == p;
    } else {
      ChainPrefix(p, k + 1);
      ChainStep(p, k);
    }
  }

  // after k pbufs `left` of the wanted bytes are missing and `done` are summed
  ghost predicate Taken(p: seq<Pbuf>, k: nat, left: nat, wanted: nat, done: seq<byte>) {
    k <= |p| && left + |done| == wanted && done <= ChainBytes(p) && (left > 0 ==> done == ChainBytes(p[..k]))
  }

  lemma {:induction false} TakenStart(p: seq<Pbuf>, wanted: nat)
    ensures Taken(p, 0, wanted, wanted, [])
  {
  }

  lemma {:induction false} TakenStep(p: seq<Pbuf>, k: nat, left: nat, wanted: nat, done: seq<byte>)
    requires Taken(p, k, left, wanted, done) && k < |p| && left > 0
    ensures var piece := p[k].payload[..Min(|p[k].payload|, left)];
            Taken(p, k + 1, left - |piece|, wanted, done + piece)
            && (left > |piece| ==> |piece| == |p[k].payload|)
  {
    ChainStep(p, k);
    ChainPrefix(p, k + 1);
    var piece := p[k].payload[..Min(|p[k].payload|, left)];
    assert done + piece <= ChainBytes(p[..k + 1]);
  }

  lemma {:induction false} TakenEnd(p: seq<Pbuf>, k: nat, left: nat, wanted: nat, done: seq<byte>)
    requires Taken(p, k, left, wanted, done) && (k == |p| || left == 0)
    ensures done == ChainBytes(p)[..Min(wanted, |ChainBytes(p)|)]
  {
    if left > 0 { assert p[..k] == p; }
  }

  /** inet_chksum_pseudo_partial with inet_cksum_pseudo_partial_base: the checksum of pseudo-header and the first
      chksumLen bytes. The swap test looks at the length of the whole pbuf, also when only a part of it is summed; the
      last unswap makes up for it. */
  method InetChksumPseudoPartial(p: seq<Pbuf>, proto: byte, protoLen: u16, chksumLen: u16, src: u32, dest: u32)
    returns (r: u16)
    requires ValidChain(p)
    ensures r == Complement(Sum(PseudoHeader(src, dest, proto, protoLen)
                                + ChainBytes(p)[..Min(chksumLen, |ChainBytes(p)|)]))
  {
    hide Sum, SwapBytes, Turn, Held, Bytes4, PseudoHeader, AddressSum, AddProtocol, Taken, ChainBytes;
    ghost var addr := Bytes4(src) + Bytes4(dest);
    var acc, swapped := AddressSum(src, dest), false;
    AddressSumIs(src, dest);
    AddressWords(src);
    AddressWords(dest);
    TakenStart(p, chksumLen);
    var k, left: nat := 0, chksumLen;
    ghost var done: seq<byte> := [];
    assert addr + done == addr;
    while k < |p| && left > 0
      invariant k <= |p| && Taken(p, k, left, chksumLen, done)
      invariant left > 0 ==> swapped == (|done| % 2 == 1)
      invariant acc == Held(addr + done, swapped)
    {
      TakenStep(p, k, left, chksumLen, done);
      var piece := p[k].payload[..Min(|p[k].payload|, left)];
      assert addr + (done + piece) == addr + done + piece;
      var chksum := Checksum2(p[k].address, piece);
      left := left - |piece|;
      var odd := |p[k].payload| % 2 != 0;
      TurnAdds(addr + done, piece, swapped, odd);
      acc := Turn(acc, chksum, odd);
      if odd {
        swapped := !swapped;
      }
      done := done + piece;
      k := k + 1;
    }
    TakenEnd(p, k, left, chksumLen, done);
    Unswap(addr + done, swapped);
    if swapped {
      acc := SwapBytes(acc);
    }
    AddProtocolIs(src, dest, proto, protoLen, done);
    r := Complement(AddProtocol(acc, proto, protoLen));
  }
}
