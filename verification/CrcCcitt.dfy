/** The table-driven CRC-CCITT of the MCB frames. It is the remainder of a polynomial division, it is linear, and it
    detects every burst of up to 16 bits. Words are their bits, most significant first: polynomials over the field of
    two elements. */
module CrcCcitt {
  import opened Basics
  import opened RoundUp32

  // ---------- bit strings ----------

  function Zeros(n: nat): (z: seq<bool>)
    ensures |z| == n
  {
    seq(n, i => false)
  }

  function Xor(a: seq<bool>, b: seq<bool>): (c: seq<bool>)
    requires |a| == |b|
    ensures |c| == |a|
  {
    seq(|a|, i requires 0 <= i < |a| => a[i] != b[i])
  }

  // a 16-bit register
  type Reg = r: seq<bool> | |r| == 16 witness Zeros(16)

  // 0x1021, that is x^12 + x^5 + 1; the divisor has x^16 in addition
  const POLY: Reg :=
    [false, false, false, true, false, false, false, false, false, false, true, false, false, false, false, true]

  /** The number that the source gives for the polynomial. */
  lemma {:induction false} PolyValue()
    ensures Value(POLY) == 0x1021
  {
    var p := POLY;
    assert Value(p[..4]) == 1 by { assert p[..4] == [false, false, false, true]; FourBits(false, false, false, true); }
    assert p[..8] == p[..4] + [false, false, false, false];
    assert p[..12] == p[..8] + [false, false, true, false];
    assert p == p[..12] + [false, false, false, true];
    FourMore(p[..4], false, false, false, false);
    FourMore(p[..8], false, false, true, false);
    FourMore(p[..12], false, false, false, true);
  }

  lemma {:induction false} FourBits(a: bool, b: bool, c: bool, d: bool)
    ensures Value([a, b, c, d]) == 8 * Bit(a) + 4 * Bit(b) + 2 * Bit(c) + Bit(d)
  {
    FourMore([], a, b, c, d);
    assert [] + [a, b, c, d] == [a, b, c, d];
  }

  lemma {:induction false} FourMore(front: seq<bool>, a: bool, b: bool, c: bool, d: bool)
    ensures Value(front + [a, b, c, d])
         == 16 * Value(front) + 8 * Bit(a) + 4 * Bit(b) + 2 * Bit(c) + Bit(d)
  {
    hide Value, Bit;
    var f := front + [a, b, c, d];
    var f3 := front + [a, b, c];
    var f2 := front + [a, b];
    var f1 := front + [a];
    OneMore(front, a);
    OneMore(f1, b);
    OneMore(f2, c);
    OneMore(f3, d);
    assert f == f3 + [d] && f3 == f2 + [c] && f2 == f1 + [b];
  }

  lemma {:induction false} OneMore(front: seq<bool>, a: bool)
    ensures Value(front + [a]) == 2 * Value(front) + Bit(a)
  {
    assert (front + [a])[..|front|] == front;
  }

  function Bit(b: bool): nat { if b then 1 else 0 }

  // r << 1
  function Shl(r: Reg): Reg { r[1..] + [false] }

  // multiplication by x modulo the divisor
  function MulX(r: Reg): Reg {
    if r[0] then Xor(Shl(r), POLY) else Shl(r)
  }

  function MulXs(r: Reg, k: nat): Reg {
    if k == 0 then r else MulX(MulXs(r, k - 1))
  }

  // ---------- the reference: long division of bit strings ----------

  // the next message bit enters at the bottom; a one that leaves at the top is cancelled with
  // the divisor
  function DivideBit(r: Reg, bit: bool): Reg {
    if r[0] then Xor(r[1..] + [bit], POLY) else r[1..] + [bit]
  }

  function Remainder(r: Reg, bits: seq<bool>): Reg {
    if bits == [] then r else DivideBit(Remainder(r, bits[..|bits| - 1]), bits[|bits| - 1])
  }

  // ---------- the CRC bit by bit ----------

  // the message bit enters at the top
  function StepBit(crc: Reg, bit: bool): Reg { MulX(Xor(crc, [bit] + Zeros(15))) }

  function BitCrc(crc: Reg, bits: seq<bool>): Reg {
    if bits == [] then crc else StepBit(BitCrc(crc, bits[..|bits| - 1]), bits[|bits| - 1])
  }

  // ---------- algebra ----------

  lemma {:induction false} MulXLinear(a: Reg, b: Reg)
    ensures MulX(Xor(a, b)) == Xor(MulX(a), MulX(b))
  {
  }

  lemma {:induction false} MulXsLinear(a: Reg, b: Reg, k: nat)
    ensures MulXs(Xor(a, b), k) == Xor(MulXs(a, k), MulXs(b, k))
  {
    if k > 0 {
      MulXsLinear(a, b, k - 1);
      MulXLinear(MulXs(a, k - 1), MulXs(b, k - 1));
    }
  }

  // the divisor has a constant term, so multiplication by x loses nothing
  lemma {:induction false} MulXNonZero(r: Reg)
    requires r != Zeros(16)
    ensures MulX(r) != Zeros(16)
  {
    if r[0] {
      assert MulX(r)[15];
    } else {
      var i :| 0 <= i < 16 && r[i];
      assert MulX(r)[i - 1];
    }
  }

  lemma {:induction false} MulXsNonZero(r: Reg, k: nat)
    requires r != Zeros(16)
    ensures MulXs(r, k) != Zeros(16)
  {
    if k > 0 {
      MulXsNonZero(r, k - 1);
      MulXNonZero(MulXs(r, k - 1));
    }
  }

  // k shifts of a word with k leading zeros bring no feedback
  lemma {:induction false} ShiftOut(w: seq<bool>, k: nat)
    requires |w| + k == 16
    ensures MulXs(Zeros(k) + w, k) == w + Zeros(k)
  {
    ShiftSome(w, k, k);
  }

  lemma {:induction false} ShiftSome(w: seq<bool>, k: nat, j: nat)
    requires |w| + k == 16 && j <= k
    ensures MulXs(Zeros(k) + w, j) == Zeros(k - j) + w + Zeros(j)
  {
    if j > 0 {
      ShiftSome(w, k, j - 1);
      var r: Reg := Zeros(k - (j - 1)) + w + Zeros(j - 1);
      assert MulX(r) == Zeros(k - j) + w + Zeros(j);
    } else {
      assert Zeros(k) + w == Zeros(k) + w + Zeros(0);
    }
  }

  lemma {:induction false} MulXsAdd(r: Reg, k: nat)
    ensures MulXs(MulX(r), k) == MulX(MulXs(r, k))
  {
    if k > 0 { MulXsAdd(r, k - 1); }
  }

  /** Up to 16 message bits can be added to the register at once. */
  lemma {:induction false} BitsAtOnce(crc: Reg, w: seq<bool>)
    requires |w| <= 16
    ensures BitCrc(crc, w) == MulXs(Xor(crc, w + Zeros(16 - |w|)), |w|)
  {
    hide MulX, Xor, Zeros;
    if w == [] {
      NoBitsAtOnce(crc);
      assert w + Zeros(16) == Zeros(16);
    } else {
      var k := |w| - 1;
      var v, x := w[..k], w[k];
      BitsAtOnce(crc, v);
      var a: Reg := Xor(crc, v + Zeros(16 - k));
      var b: Reg := Zeros(k) + ([x] + Zeros(15 - k));
      ShiftOut([x] + Zeros(15 - k), k);
      ZerosJoin(x, 15 - k, k);
      MulXsLinear(a, b, k);
      OneMoreBit(crc, v, x);
      assert w == v + [x];
    }
  }

  lemma {:induction false} NoBitsAtOnce(crc: Reg)
    ensures Xor(crc, Zeros(16)) == crc
  {
  }

  lemma {:induction false} ZerosJoin(x: bool, m: nat, n: nat)
    ensures [x] + Zeros(m) + Zeros(n) == [x] + Zeros(m + n)
  {
  }

  lemma {:induction false} OneMoreBit(crc: Reg, v: seq<bool>, x: bool)
    requires |v| < 16
    ensures Xor(Xor(crc, v + Zeros(16 - |v|)), Zeros(|v|) + ([x] + Zeros(15 - |v|)))
         == Xor(crc, v + [x] + Zeros(15 - |v|))
  {
  }

  /** The CRC of a message is the remainder of the message times x^16. */
  lemma {:induction false} CrcIsRemainder(bits: seq<bool>)
    ensures BitCrc(Zeros(16), bits) == Remainder(Zeros(16), bits + Zeros(16))
  {
    CrcFromRemainder(bits);
    ZerosMultiply(bits, 16);
  }

  lemma {:induction false} ZerosMultiply(bits: seq<bool>, k: nat)
    ensures Remainder(Zeros(16), bits + Zeros(k)) == MulXs(Remainder(Zeros(16), bits), k)
  {
    if k == 0 {
      assert bits + Zeros(0) == bits;
    } else {
      ZerosMultiply(bits, k - 1);
      assert (bits + Zeros(k))[..|bits| + k - 1] == bits + Zeros(k - 1);
    }
  }

  lemma {:induction false} CrcFromRemainder(bits: seq<bool>)
    ensures BitCrc(Zeros(16), bits) == MulXs(Remainder(Zeros(16), bits), 16)
  {
    if bits == [] {
      ShiftOut([], 16);
      assert Zeros(16) + [] == Zeros(16) && [] + Zeros(16) == Zeros(16);
    } else {
      var n := |bits| - 1;
      var d, x := Remainder(Zeros(16), bits[..n]), bits[n];
      CrcFromRemainder(bits[..n]);
      var low: Reg := Zeros(15) + [x];
      var high: Reg := [x] + Zeros(15);
      DivideStep(d, x);
      hide MulX, Xor, Zeros, DivideBit;
      MulXsLinear(MulX(d), low, 16);
      MulXsAdd(d, 16);
      ShiftOut([x], 15);
      assert MulXs(low, 16) == MulX(high);
      MulXLinear(MulXs(d, 16), high);
    }
  }

  lemma {:induction false} DivideStep(d: Reg, x: bool)
    ensures DivideBit(d, x) == Xor(MulX(d), Zeros(15) + [x])
  {
  }

  /** The CRC is linear. */
  lemma {:induction false} CrcLinear(r: Reg, s: Reg, a: seq<bool>, b: seq<bool>)
    requires |a| == |b|
    ensures BitCrc(Xor(r, s), Xor(a, b)) == Xor(BitCrc(r, a), BitCrc(s, b))
  {
    if a != [] {
      var n := |a| - 1;
      CrcLinear(r, s, a[..n], b[..n]);
      assert Xor(a, b)[..n] == Xor(a[..n], b[..n]);
      var r', s' := BitCrc(r, a[..n]), BitCrc(s, b[..n]);
      var x, y := [a[n]] + Zeros(15), [b[n]] + Zeros(15);
      assert Xor(Xor(r', s'), [a[n] != b[n]] + Zeros(15)) == Xor(Xor(r', x), Xor(s', y));
      MulXLinear(Xor(r', x), Xor(s', y));
    }
  }

  lemma {:induction false} CrcAppend(r: Reg, a: seq<bool>, b: seq<bool>)
    ensures BitCrc(r, a + b) == BitCrc(BitCrc(r, a), b)
  {
    if b == [] {
      assert a + b == a;
    } else {
      CrcAppend(r, a, b[..|b| - 1]);
      assert (a + b)[..|a + b| - 1] == a + b[..|b| - 1];
    }
  }

  lemma {:induction false} CrcOfZeros(r: Reg, n: nat)
    ensures BitCrc(r, Zeros(n)) == MulXs(r, n)
  {
    if n > 0 {
      CrcOfZeros(r, n - 1);
      assert Zeros(n)[..n - 1] == Zeros(n - 1);
      var r' := BitCrc(r, Zeros(n - 1));
      assert Xor(r', [false] + Zeros(15)) == r';
    }
  }

  lemma {:induction false} ZeroStaysZero(n: nat)
    ensures MulXs(Zeros(16), n) == Zeros(16)
  {
    if n > 0 { ZeroStaysZero(n - 1); }
  }

  // a and b agree outside the w bits from position i on
  ghost predicate DifferWithin(a: seq<bool>, b: seq<bool>, i: nat, w: nat) {
    |a| == |b| && i + w <= |a| && forall k :: 0 <= k < |a| && !(i <= k < i + w) ==> a[k] == b[k]
  }

  lemma {:induction false} BurstNonZero(i: nat, burst: seq<bool>, t: nat)
    requires 0 < |burst| <= 16 && burst != Zeros(|burst|)
    ensures BitCrc(Zeros(16), Zeros(i) + burst + Zeros(t)) != Zeros(16)
  {
    hide BitCrc, MulXs;
    var z: Reg := Zeros(16);
    CrcAppend(z, Zeros(i) + burst, Zeros(t));
    CrcAppend(z, Zeros(i), burst);
    CrcOfZeros(z, i);
    ZeroStaysZero(i);
    BitsAtOnce(z, burst);
    var first: Reg := Xor(z, burst + Zeros(16 - |burst|));
    var k :| 0 <= k < |burst| && burst[k];
    assert first[k];
    MulXsNonZero(first, |burst|);
    CrcOfZeros(MulXs(first, |burst|), t);
    MulXsNonZero(MulXs(first, |burst|), t);
  }

  /** Messages of the same length that differ by a burst of at most 16 bits have different CRCs. */
  lemma {:induction false} BurstDetected(a: seq<bool>, b: seq<bool>, i: nat, w: nat)
    requires DifferWithin(a, b, i, w) && w <= 16 && a != b
    ensures BitCrc(Zeros(16), a) != BitCrc(Zeros(16), b)
  {
    hide BitCrc;
    var z: Reg := Zeros(16);
    DifferenceIsBurst(a, b, i, w);
    BurstNonZero(i, Xor(a, b)[i..i + w], |a| - i - w);
    CrcLinear(z, z, a, b);
    XorSelf(z);
    XorSelf(BitCrc(z, a));
  }

  lemma {:induction false} DifferenceIsBurst(a: seq<bool>, b: seq<bool>, i: nat, w: nat)
    requires DifferWithin(a, b, i, w) && a != b
    ensures 0 < w && Xor(a, b) == Zeros(i) + Xor(a, b)[i..i + w] + Zeros(|a| - i - w)
    ensures Xor(a, b)[i..i + w] != Zeros(w)
  {
    var k :| 0 <= k < |a| && a[k] != b[k];
    assert Xor(a, b)[i..i + w][k - i] && !Zeros(w)[k - i];
  }

  lemma {:induction false} XorSelf(r: Reg)
    ensures Xor(r, r) == Zeros(16)
  {
  }

  /** A message followed by its own CRC has CRC zero. */
  lemma {:induction false} CrcCloses(bits: seq<bool>)
    ensures BitCrc(Zeros(16), bits + BitCrc(Zeros(16), bits)) == Zeros(16)
  {
    hide BitCrc;
    var crc := BitCrc(Zeros(16), bits);
    CrcAppend(Zeros(16), bits, crc);
    BitsAtOnce(crc, crc);
    XorSelf(crc);
    assert crc + Zeros(0) == crc;
    ZeroStaysZero(16);
  }

  // ---------- the table ----------

  // the bits of a byte
  function ByteBits(c: nat): (b: seq<bool>)
    ensures |b| == 8
  {
    Bits(c, 8)
  }

  lemma {:induction false} BitsOfValue(b: seq<bool>)
    ensures Bits(Value(b), |b|) == b && Value(b) < Power2(|b|)
  {
    if b != [] {
      BitsOfValue(b[..|b| - 1]);
    }
  }

  lemma {:induction false} ByteValue(b: seq<bool>)
    requires |b| == 8
    ensures Value(b) < 256 && ByteBits(Value(b)) == b
  {
    BitsOfValue(b);
    assert Power2(8) == 256;
  }

  // the table entry for byte value i
  function TableEntry(i: nat): Reg { MulXs(ByteBits(i) + Zeros(8), 8) }

  /** init_crcccitt_tab */
  method InitTable() returns (tab: array<Reg>)
    ensures fresh(tab) && tab.Length == 256
    ensures forall i :: 0 <= i < 256 ==> tab[i] == TableEntry(i)
  {
    hide MulXs, MulX, Shl, ByteBits;
    tab := new Reg[256](_ => Zeros(16));
    for i := 0 to 256
      invariant forall k :: 0 <= k < i ==> tab[k] == TableEntry(k)
    {
      var entry := ComputeEntry(i);
      tab[i] := entry;
    }
  }

  // the inner loop: eight times
  method ComputeEntry(i: nat) returns (crc: Reg)
    ensures crc == TableEntry(i)
  {
    hide ByteBits, POLY;
    crc := Zeros(16);
    var c: Reg := ByteBits(i) + Zeros(8);
    ghost var c0 := c;
    XorZero(c0);
    assert MulXs(c0, 0) == c0;
    assert c == c0[0..] + Zeros(0);
    for j := 0 to 8
      invariant Xor(crc, c) == MulXs(c0, j)
      invariant c == c0[j..] + Zeros(j)
    {
      EntryStep(crc, c);
      if crc[0] != c[0] {
        crc := Xor(Shl(crc), POLY);
      } else {
        crc := Shl(crc);
      }
      c := Shl(c);
      assert c == c0[j + 1..] + Zeros(j + 1);
    }
    assert c == Zeros(16) by { assert c0[8..] == Zeros(8); }
    XorZero(crc);
  }

  lemma {:induction false} XorZero(r: Reg)
    ensures Xor(r, Zeros(16)) == r && Xor(Zeros(16), r) == r
  {
  }

  lemma {:induction false} EntryStep(crc: Reg, c: Reg)
    ensures crc[0] != c[0] ==> Xor(Xor(Shl(crc), POLY), Shl(c)) == MulX(Xor(crc, c))
    ensures crc[0] == c[0] ==> Xor(Shl(crc), Shl(c)) == MulX(Xor(crc, c))
  {
  }

  // ---------- the message ----------

  // (crc << 8) ^ tab[((crc >> 8) ^ c) & 0xff]
  method Update(tab: array<Reg>, crc: Reg, c: byte) returns (r: Reg)
    requires tab.Length == 256 && forall i :: 0 <= i < 256 ==> tab[i] == TableEntry(i)
    ensures r == BitCrc(crc, ByteBits(c))
  {
    hide ByteBits, BitCrc, MulXs;
    var index := Xor(crc[..8], ByteBits(c));
    ByteValue(index);
    r := Xor(crc[8..] + Zeros(8), tab[Value(index)]);
    TableStep(crc, ByteBits(c));
  }

  /** One table look-up does eight bit steps. */
  lemma {:induction false} TableStep(crc: Reg, b: seq<bool>)
    requires |b| == 8
    ensures Xor(crc[8..] + Zeros(8), MulXs(Xor(crc[..8], b) + Zeros(8), 8)) == BitCrc(crc, b)
  {
    hide BitCrc, MulXs;
    var hi: Reg := Xor(crc[..8], b) + Zeros(8);
    var lo: Reg := Zeros(8) + crc[8..];
    BitsAtOnce(crc, b);
    assert Xor(crc, b + Zeros(8)) == Xor(lo, hi);
    MulXsLinear(lo, hi, 8);
    ShiftOut(crc[8..], 8);
  }

  function MessageBits(data: seq<byte>): seq<bool> {
    if data == [] then [] else MessageBits(data[..|data| - 1]) + ByteBits(data[|data| - 1])
  }

  /** The message is the bytes in their order, each with its most significant bit first. */
  lemma {:induction false} MessageBitsAt(data: seq<byte>, k: nat)
    requires k < |data|
    ensures |MessageBits(data)| == 8 * |data|
    ensures Value(MessageBits(data)[8 * k..8 * k + 8]) == data[k]
  {
    hide ByteBits, Value;
    var n := |data| - 1;
    var front, last := MessageBits(data[..n]), ByteBits(data[n]);
    MessageLength(data[..n]);
    ByteBack(data[n]);
    assert MessageBits(data) == front + last;
    if k < n {
      MessageBitsAt(data[..n], k);
      assert (front + last)[8 * k..8 * k + 8] == front[8 * k..8 * k + 8];
    } else {
      assert (front + last)[8 * n..8 * n + 8] == last;
    }
  }

  lemma {:induction false} MessageLength(data: seq<byte>)
    ensures |MessageBits(data)| == 8 * |data|
  {
    if data != [] { MessageLength(data[..|data| - 1]); }
  }

  lemma {:induction false} ByteBack(c: byte)
    ensures Value(ByteBits(c)) == c
  {
    Power32();
    assert Power2(8) == 0x100;
    ValueOfBits(c, 8);
  }

  /** crc_calc over the words of a frame, byte after byte. The byte index is 16 bits wide, which is enough for less than
      0x8000 words. */
  method Calc(data: seq<byte>) returns (crc: Reg)
    requires |data| % 2 == 0 && |data| / 2 < 0x8000
    ensures crc == BitCrc(Zeros(16), MessageBits(data))
  {
    hide BitCrc, ByteBits;
    var tab := InitTable();
    crc := Zeros(16);
    assert BitCrc(Zeros(16), []) == Zeros(16) by { NoBits(Zeros(16)); }
    assert data[..0] == [];
    for i := 0 to |data|
      invariant forall k :: 0 <= k < 256 ==> tab[k] == TableEntry(k)
      invariant crc == BitCrc(Zeros(16), MessageBits(data[..i]))
    {
      assert data[..i + 1][..i] == data[..i];
      CrcAppend(Zeros(16), MessageBits(data[..i]), ByteBits(data[i]));
      crc := Update(tab, crc, data[i]);
    }
    assert data[..|data|] == data;
  }

  lemma {:induction false} NoBits(r: Reg)
    ensures BitCrc(r, []) == r
  {
  }
}
