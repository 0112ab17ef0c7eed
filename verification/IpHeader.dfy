/** The IPv4 header checksum: built field by field on output, updated in place when a packet is forwarded. */
module IpHeader {
  import opened Basics
  import opened OnesComplement
  import opened InetChecksum
  import opened PbufChecksum

  // a header whose checksum field makes it sum to all ones: inet_chksum over it gives 0
  predicate Verifies(hdr: seq<byte>) { Complement(Sum(hdr)) == 0 }

  lemma {:induction false} VerifiesIff(hdr: seq<byte>)
    ensures Verifies(hdr) <==> LeSum(hdr) > 0 && LeSum(hdr) % 0xffff == 0
  {
    hide LeSum, Sum, Canon;
    SumIsLeSum(hdr);
    CanonFull(LeSum(hdr));
  }

  lemma {:induction false} CanonFull(s: nat)
    ensures Canon(s) == 0xffff <==> s > 0 && s % 0xffff == 0
  {
  }

  function HostWordAt(hdr: seq<byte>, k: nat): u16
    requires k + 1 < |hdr|
  {
    Word(hdr[k + 1], hdr[k])
  }

  lemma {:induction false} SplitWord(hdr: seq<byte>, k: nat)
    requires k % 2 == 0 && k + 1 < |hdr|
    ensures LeSum(hdr) == LeSum(hdr[..k]) + HostWordAt(hdr, k) + LeSum(hdr[k + 2..])
  {
    assert hdr == hdr[..k] + hdr[k..];
    LeSumAppend(hdr[..k], hdr[k..]);
    assert hdr[k..][2..] == hdr[k + 2..];
  }

  // changing one aligned pair of bytes changes the sum by the difference of the two words
  lemma {:induction false} ChangeWord(hdr: seq<byte>, hdr': seq<byte>, k: nat)
    requires k % 2 == 0 && k + 1 < |hdr| && |hdr'| == |hdr|
    requires hdr'[..k] == hdr[..k] && hdr'[k + 2..] == hdr[k + 2..]
    ensures LeSum(hdr') == LeSum(hdr) - HostWordAt(hdr, k) + HostWordAt(hdr', k)
  {
    SplitWord(hdr, k);
    SplitWord(hdr', k);
  }

  // ---------- ip4_forward ----------

  // PP_HTONS on constants
  const FORWARD_STEP: u16 := SwapBytes(0x100)
  const FORWARD_WRAP: u16 := SwapBytes(0xffff - 0x100)

  // 8-bit TTL minus one
  function Decrement(ttl: byte): byte {
    if ttl == 0 then 0xff else ttl - 1
  }

  function ForwardChecksum(c: u16): u16 {
    if c >= FORWARD_WRAP then (c + FORWARD_STEP + 1) % 0x1_0000 else (c + FORWARD_STEP) % 0x1_0000
  }

  lemma {:induction false} ForwardChecksumAddsOne(c: u16)
    ensures ForwardChecksum(c) == if c >= 0xfffe then c - 0xfffe else c + 1
  {
    assert FORWARD_STEP == 1 && FORWARD_WRAP == 0xfffe;
  }

  /** TTL and checksum in ip4_forward. A packet is sent on unless its TTL came down to zero; the incremental update
      keeps a valid header valid exactly for TTLs that do not wrap. */
  method Forward(hdr: array<byte>) returns (sent: bool)
    requires hdr.Length >= 20
    modifies hdr
    ensures sent <==> old(hdr[8]) != 1
    ensures hdr[8] == Decrement(old(hdr[8]))
    ensures sent && old(Verifies(hdr[..])) ==> (Verifies(hdr[..]) <==> old(hdr[8]) >= 1)
    ensures sent && old(hdr[8]) >= 1 ==> (Verifies(hdr[..]) <==> old(Verifies(hdr[..])))
    ensures !sent ==> hdr[..] == old(hdr[..])[8 := 0]
    ensures forall k :: 0 <= k < hdr.Length && k !in {8, 10, 11} ==> hdr[k] == old(hdr[k])
  {
    ghost var before := hdr[..];
    hdr[8] := Decrement(hdr[8]);
    ghost var middle := hdr[..];
    if hdr[8] == 0 {
      return false;
    }
    var c := ForwardChecksum(Word(hdr[11], hdr[10]));
    hdr[10], hdr[11] := c % 0x100, c / 0x100;
    ForwardProof(before, middle, hdr[..]);
    return true;
  }

  lemma {:induction false} ForwardProof(before: seq<byte>, middle: seq<byte>, after: seq<byte>)
    requires |before| == |middle| == |after| >= 20 && before[8] != 1
    requires middle == before[8 := Decrement(before[8])]
    requires var c := ForwardChecksum(HostWordAt(middle, 10));
             after == middle[10 := c % 0x100][11 := c / 0x100]
    ensures Verifies(before) ==> (Verifies(after) <==> before[8] >= 1)
    ensures before[8] >= 1 ==> (Verifies(after) <==> Verifies(before))
  {
    hide LeSum, Verifies, ForwardChecksum;
    ChangeWord(before, middle, 8);
    ChangeWord(middle, after, 10);
    ForwardChecksumAddsOne(HostWordAt(middle, 10));
    VerifiesIff(before);
    VerifiesIff(after);
    AtLeast(after, 8);
    AtLeast(before, 8);
    var c := ForwardChecksum(HostWordAt(middle, 10));
    assert HostWordAt(after, 10) == c;
    assert HostWordAt(after, 8) == HostWordAt(middle, 8) > 0;
    assert before[8] >= 1 ==> HostWordAt(before, 8) > 0;
    ForwardMod(LeSum(before), LeSum(after), before[8], HostWordAt(before, 10));
  }

  lemma {:induction false} ForwardMod(s: nat, s': nat, ttl: byte, c: u16)
    requires s' == s - ttl + Decrement(ttl) - c + ForwardChecksum(c)
    ensures s % 0xffff == 0 ==> (s' % 0xffff == 0 <==> ttl >= 1)
    ensures ttl >= 1 ==> (s' % 0xffff == 0 <==> s % 0xffff == 0)
  {
    hide ForwardChecksum;
    ForwardChecksumAddsOne(c);
  }

  lemma {:induction false} AtLeast(hdr: seq<byte>, k: nat)
    requires k % 2 == 0 && k + 1 < |hdr|
    ensures LeSum(hdr) >= HostWordAt(hdr, k)
  {
    SplitWord(hdr, k);
  }

  // ---------- ip4_output_if_src ----------

  // options rounded up to a multiple of four bytes with zeros
  function Padded(options: seq<byte>): (r: seq<byte>)
    ensures |r| % 4 == 0 && |r| < |options| + 4
  {
    options + seq((4 - |options| % 4) % 4, i => 0)
  }

  // the bytes of a header without fragmentation; chksum is the host word stored in its field
  function Header(tos: byte, len: u16, id: u16, ttl: byte, proto: byte, chksum: u16, src: u32, dest: u32,
                  options: seq<byte>): (h: seq<byte>)
    requires |options| <= 40 && |options| % 4 == 0
    ensures |h| == 20 + |options|
  {
    FixedPart(0x45 + |options| / 4, tos, len, id, ttl, proto, chksum) + (Bytes4(src) + Bytes4(dest) + options)
  }

  function FixedPart(vhl: byte, tos: byte, len: u16, id: u16, ttl: byte, proto: byte, chksum: u16): (f: seq<byte>)
    ensures |f| == 12
  {
    [vhl, tos, len / 0x100, len % 0x100, id / 0x100, id % 0x100, 0, 0, ttl, proto, chksum % 0x100, chksum / 0x100]
  }

  // the words of the fixed part, in the order in which they are added up
  function FieldSum(vhl: byte, tos: byte, len: u16, id: u16, ttl: byte, proto: byte, src: u32, dest: u32): nat {
    Word(proto, ttl) + Halves(dest) + Word(tos, vhl) + SwapBytes(len) + SwapBytes(id) + Halves(src)
  }

  lemma {:induction false} HeaderSum(tos: byte, len: u16, id: u16, ttl: byte, proto: byte, chksum: u16, src: u32,
                                     dest: u32, options: seq<byte>)
    requires |options| <= 40 && |options| % 4 == 0
    ensures LeSum(Header(tos, len, id, ttl, proto, chksum, src, dest, options))
         == FieldSum(0x45 + |options| / 4, tos, len, id, ttl, proto, src, dest) + chksum + LeSum(options)
  {
    hide LeSum, Bytes4, SwapBytes, Word, FixedPart, Halves;
    FixedSum(0x45 + |options| / 4, tos, len, id, ttl, proto, chksum, Bytes4(src) + Bytes4(dest) + options);
    RestSum(src, dest, options);
  }

  lemma {:induction false} RestSum(src: u32, dest: u32, options: seq<byte>)
    ensures LeSum(Bytes4(src) + Bytes4(dest) + options) == Halves(src) + Halves(dest) + LeSum(options)
  {
    hide LeSum, Bytes4, Halves;
    AddressWords(src);
    AddressWords(dest);
    LeSumAppend(Bytes4(src) + Bytes4(dest), options);
    LeSumAppend(Bytes4(src), Bytes4(dest));
  }

  lemma {:induction false} FixedSum(vhl: byte, tos: byte, len: u16, id: u16, ttl: byte, proto: byte, chksum: u16,
                                    rest: seq<byte>)
    ensures LeSum(FixedPart(vhl, tos, len, id, ttl, proto, chksum) + rest)
         == Word(tos, vhl) + SwapBytes(len) + SwapBytes(id) + Word(proto, ttl) + chksum + LeSum(rest)
  {
    hide LeSum, SwapBytes, Word;
    LeSumWords12(FixedPart(vhl, tos, len, id, ttl, proto, chksum), rest);
    WordOfBytes(len);
    WordOfBytes(id);
    WordOfBytes(chksum);
    WordZero();
  }

  lemma {:induction false} LeSumWords12(f: seq<byte>, rest: seq<byte>)
    requires |f| == 12
    ensures LeSum(f + rest) == Word(f[1], f[0]) + Word(f[3], f[2]) + Word(f[5], f[4]) + Word(f[7], f[6])
                             + Word(f[9], f[8]) + Word(f[11], f[10]) + LeSum(rest)
  {
    hide LeSum, Word;
    LeSumAppend(f, rest);
    assert f == [f[0], f[1], f[2], f[3]] + f[4..];
    LeSumCons4(f[0], f[1], f[2], f[3], f[4..]);
    assert f[4..] == [f[4], f[5], f[6], f[7]] + f[8..];
    LeSumCons4(f[4], f[5], f[6], f[7], f[8..]);
    assert f[8..] == [f[8], f[9], f[10], f[11]];
    LeSum4(f[8], f[9], f[10], f[11]);
  }

  lemma {:induction false} WordZero()
    ensures Word(0, 0) == 0
  {
  }

  lemma {:induction false} LeSumCons4(a: byte, b: byte, c: byte, d: byte, rest: seq<byte>)
    ensures LeSum([a, b, c, d] + rest) == Word(b, a) + Word(d, c) + LeSum(rest)
  {
    LeSumAppend([a, b, c, d], rest);
    LeSum4(a, b, c, d);
  }

  lemma {:induction false} WordOfBytes(w: u16)
    ensures Word(w % 0x100, w / 0x100) == SwapBytes(w) && Word(w / 0x100, w % 0x100) == w
  {
  }

  // chk_sum = fold; chk_sum = (chk_sum >> 16) + chk_sum; ~chk_sum as 16 bits
  function InlineChecksum(chkSum: u32): u16 {
    var once := Fold(chkSum);
    0xffff - (once / 0x1_0000 + once) % 0x1_0000
  }

  lemma {:induction false} InlineChecksumIs(chkSum: u32)
    ensures InlineChecksum(chkSum) == Complement(Canon(chkSum))
  {
    FoldTwice(chkSum);
    FoldRange(chkSum);
  }

  lemma {:induction false} ComplementCloses(s: nat)
    ensures Canon(s + Complement(Canon(s))) == 0xffff
  {
  }

  // an address as it lies in memory: in network order already
  ghost predicate AddressAt(h: seq<byte>, k: nat, a: u32) {
    && k + 4 <= |h| && h[k] == a % 0x100 && h[k + 1] == a / 0x100 % 0x100
    && h[k + 2] == a / 0x1_0000 % 0x100 && h[k + 3] == a / 0x100_0000
  }

  // a number with its high byte first
  ghost predicate NumberAt(h: seq<byte>, k: nat, n: u16) {
    k + 2 <= |h| && h[k] as int * 0x100 + h[k + 1] as int == n
  }

  /** An unfragmented IPv4 header, field by field: section 3.1 of RFC 791. */
  ghost predicate Fields(h: seq<byte>, options: seq<byte>, tos: byte, len: u16, id: u16, ttl: byte, proto: byte,
                         src: u32, dest: u32) {
    && 20 + |options| <= |h| < 24 + |options| && |h| % 4 == 0
    && h[0] / 0x10 == 4 && 4 * (h[0] % 0x10) == |h|
    && h[1] == tos && NumberAt(h, 2, len) && NumberAt(h, 4, id) && NumberAt(h, 6, 0) && h[8] == ttl && h[9] == proto
    && AddressAt(h, 12, src) && AddressAt(h, 16, dest)
    && h[20..20 + |options|] == options
    && forall k :: 20 + |options| <= k < |h| ==> h[k] == 0
  }

  lemma {:induction false} HeaderFields(tos: byte, len: u16, id: u16, ttl: byte, proto: byte, chksum: u16, src: u32,
                                        dest: u32, options: seq<byte>)
    requires |options| <= 40 && |Padded(options)| <= 40
    ensures Fields(Header(tos, len, id, ttl, proto, chksum, src, dest, Padded(options)), options, tos, len, id, ttl,
                   proto, src, dest)
  {
    hide Bytes4, FixedPart, AddressAt, NumberAt, Padded;
    var o := Padded(options);
    var h := Header(tos, len, id, ttl, proto, chksum, src, dest, o);
    FixedFields(0x45 + |o| / 4, tos, len, id, ttl, proto, chksum, Bytes4(src) + Bytes4(dest) + o);
    AddressFields(FixedPart(0x45 + |o| / 4, tos, len, id, ttl, proto, chksum), src, dest, o);
    OptionsAt(h, options);
  }

  lemma {:induction false} OptionsAt(h: seq<byte>, options: seq<byte>)
    requires |h| >= 20 && h[20..] == Padded(options)
    ensures 20 + |options| <= |h| < 24 + |options| && |h| % 4 == 0
    ensures h[20..20 + |options|] == options
    ensures forall k :: 20 + |options| <= k < |h| ==> h[k] == 0
  {
    var o := Padded(options);
    assert o[..|options|] == options;
    assert forall k :: 20 <= k < |h| ==> h[k] == h[20..][k - 20];
  }

  lemma {:induction false} FixedFields(vhl: byte, tos: byte, len: u16, id: u16, ttl: byte, proto: byte, chksum: u16,
                                       rest: seq<byte>)
    ensures var h := FixedPart(vhl, tos, len, id, ttl, proto, chksum) + rest;
            && h[0] == vhl && h[1] == tos && NumberAt(h, 2, len) && NumberAt(h, 4, id) && NumberAt(h, 6, 0)
            && h[8] == ttl && h[9] == proto
  {
  }

  lemma {:induction false} AddressFields(fixed: seq<byte>, src: u32, dest: u32, o: seq<byte>)
    requires |fixed| == 12
    ensures |Bytes4(src)| == |Bytes4(dest)| == 4
    ensures AddressAt(fixed + (Bytes4(src) + Bytes4(dest) + o), 12, src)
    ensures AddressAt(fixed + (Bytes4(src) + Bytes4(dest) + o), 16, dest)
    ensures (fixed + (Bytes4(src) + Bytes4(dest) + o))[20..] == o
  {
  }

  /** The header checksum of ip4_output_if_src, summed up while the fields are written. The header has every field in
      its place; the checksum is the one that inet_chksum computes over it with a zero checksum field, so that it
      verifies. */
  method OutputHeader(options: seq<byte>, tos: byte, len: u16, id: u16, ttl: byte, proto: byte, src: u32, dest: u32)
    returns (hdr: array<byte>)
    requires |options| <= 40
    ensures fresh(hdr)
    ensures var o := Padded(options);
            var chksum := Complement(Sum(Header(tos, len, id, ttl, proto, 0, src, dest, o)));
            hdr[..] == Header(tos, len, id, ttl, proto, chksum, src, dest, o)
    ensures Fields(hdr[..], options, tos, len, id, ttl, proto, src, dest)
    ensures Verifies(hdr[..])
  {
    hide Fields, LeSum, Bytes4, SwapBytes, Padded, Canon, Sum, InlineChecksum, Header, FieldSum;
    var o := Padded(options);
    assert |o| <= 40;
    var chkSum: u32 := 0;
    LeSumBound(o);
    var i := 0;
    assert o[0..] == o;
    while i < |o|
      invariant 0 <= i <= |o| && i % 2 == 0 && chkSum + LeSum(o[i..]) == LeSum(o)
    {
      LeSumStep(o, i);
      chkSum := chkSum + HostWord(o, i);
      i := i + 2;
    }
    LeSumStep(o, |o|);
    chkSum := chkSum + Word(proto, ttl);
    chkSum := chkSum + dest % 0x1_0000;
    chkSum := chkSum + dest / 0x1_0000;
    var vhl: byte := 0x45 + |o| / 4;
    chkSum := chkSum + Word(tos, vhl);
    chkSum := chkSum + SwapBytes(len);
    chkSum := chkSum + SwapBytes(id);
    chkSum := chkSum + src % 0x1_0000;
    chkSum := chkSum + src / 0x1_0000;
    assert chkSum == LeSum(o) + FieldSum(vhl, tos, len, id, ttl, proto, src, dest) by {
      Unfold(vhl, tos, len, id, ttl, proto, src, dest);
    }
    var chksum := InlineChecksum(chkSum);
    InlineChecksumIs(chkSum);
    HeaderFields(tos, len, id, ttl, proto, chksum, src, dest, options);
    HeaderSum(tos, len, id, ttl, proto, 0, src, dest, o);
    HeaderSum(tos, len, id, ttl, proto, chksum, src, dest, o);
    SumIsLeSum(Header(tos, len, id, ttl, proto, 0, src, dest, o));
    SumIsLeSum(Header(tos, len, id, ttl, proto, chksum, src, dest, o));
    ComplementCloses(chkSum);
    var bytes := Header(tos, len, id, ttl, proto, chksum, src, dest, o);
    hdr := new byte[|bytes|](k requires 0 <= k < |bytes| => bytes[k]);
    assert hdr[..] == bytes;
  }

  lemma {:induction false} Unfold(vhl: byte, tos: byte, len: u16, id: u16, ttl: byte, proto: byte, src: u32, dest: u32)
    ensures FieldSum(vhl, tos, len, id, ttl, proto, src, dest)
         == Word(proto, ttl) + (dest % 0x1_0000 + dest / 0x1_0000) + Word(tos, vhl) + SwapBytes(len) + SwapBytes(id)
          + (src % 0x1_0000 + src / 0x1_0000)
  {
  }

  /** A header that verifies and has a TTL of 0, as ip4_output_if_src writes it, is sent on with a TTL of 255 and does
      not verify any more. */
  method ForwardBreaks(tos: byte, len: u16, id: u16, proto: byte, src: u32, dest: u32)
    returns (hdr: array<byte>, sent: bool)
    ensures fresh(hdr) && sent && hdr.Length == 20 && hdr[8] == 0xff && !Verifies(hdr[..])
  {
    hide Verifies, Sum, Bytes4;
    hdr := OutputHeader([], tos, len, id, 0, proto, src, dest);
    assert Padded([]) == [];
    sent := Forward(hdr);
  }
}
