/** Channel data on the wire: samples of several channels are interleaved block by block, cut into chunks, collected and
    taken apart again. */
module Monitoring {
  import opened Basics
  import opened ModArith

  datatype Dtype = U16 | S16 | U32 | S32 | Float | OtherType

  // other types are passed over
  function Width(t: Dtype): nat {
    match t
    case U16 => 2
    case S16 => 2
    case U32 => 4
    case S32 => 4
    case Float => 4
    case OtherType => 0
  }

  function Power256(w: nat): (p: nat)
    ensures p > 0
  {
    if w == 0 then 1 else 0x100 * Power256(w - 1)
  }

  // the bytes of a bit pattern in memory, lowest first
  function Encode(v: nat, w: nat): (s: seq<byte>)
    ensures |s| == w
  {
    if w == 0 then [] else [v % 0x100] + Encode(v / 0x100, w - 1)
  }

  function Decode(s: seq<byte>): nat {
    if s == [] then 0 else s[0] + 0x100 * Decode(s[1..])
  }

  lemma {:induction false} DecodeEncode(v: nat, w: nat)
    requires v < Power256(w)
    ensures Decode(Encode(v, w)) == v
  {
    if w > 0 {
      DecodeEncode(v / 0x100, w - 1);
      assert Encode(v, w)[1..] == Encode(v / 0x100, w - 1);
    }
  }

  /** The values that a channel of each type can carry. */
  lemma {:induction false} SampleRange(t: Dtype)
    ensures Power256(Width(t)) == match t
                                  case U16 => 0x1_0000
                                  case S16 => 0x1_0000
                                  case OtherType => 1
                                  case _ => TWO32
  {
    assert Power256(1) == 0x100 && Power256(2) == 0x1_0000 && Power256(3) == 0x100_0000 && Power256(4) == TWO32;
  }

  /** Byte k of a sample has the weight 256^k. */
  lemma {:induction false} EncodeAt(v: nat, w: nat, k: nat)
    requires k < w
    ensures Encode(v, w)[k] == v / Power256(k) % 0x100
  {
    if k > 0 {
      EncodeAt(v / 0x100, w - 1, k - 1);
      DivideTwice(v, Power256(k - 1));
    }
  }

  lemma {:induction false} DivideTwice(v: nat, p: nat)
    requires p > 0
    ensures v / 0x100 / p == v / (0x100 * p)
  {
    var q, r := v / 0x100 / p, v / 0x100 % p;
    var s := 0x100 * r + v % 0x100;
    assert v / 0x100 == q * p + r && q * (0x100 * p) == 0x100 * (q * p);
    ModUnique(v, q, s, 0x100 * p);
  }

  // where channel j starts in a block
  function Offset(types: seq<Dtype>, j: nat): nat
    requires j <= |types|
  {
    if j == 0 then 0 else Offset(types, j - 1) + Width(types[j - 1])
  }

  function BlockSize(types: seq<Dtype>): nat { Offset(types, |types|) }

  // sample i of the first j channels
  function Block(types: seq<Dtype>, data: seq<seq<nat>>, i: nat, j: nat): (s: seq<byte>)
    requires j <= |types| == |data| && forall c :: 0 <= c < |data| ==> i < |data[c]|
    ensures |s| == Offset(types, j)
  {
    if j == 0 then [] else Block(types, data, i, j - 1) + Encode(data[j - 1][i], Width(types[j - 1]))
  }

  // the first n samples of all channels
  function Blocks(types: seq<Dtype>, data: seq<seq<nat>>, n: nat): (s: seq<byte>)
    requires |types| == |data| && forall c :: 0 <= c < |data| ==> n <= |data[c]|
    ensures |s| == n * BlockSize(types)
  {
    if n == 0 then [] else Blocks(types, data, n - 1) + Block(types, data, n - 1, |types|)
  }

  /** Two samples of a 16-bit and a 32-bit channel on the wire. */
  lemma {:induction false} WireExample()
    ensures Blocks([U16, S32], [[0x0201, 0x0807], [0x0605_0403, 0x0c0b_0a09]], 2)
            == [1, 2, 3, 4, 5, 6, 7, 8, 9, 10, 11, 12]
  {
    hide Encode;
    var types: seq<Dtype>, data: seq<seq<nat>> := [U16, S32], [[0x0201, 0x0807], [0x0605_0403, 0x0c0b_0a09]];
    TwoBytes(1, 2);
    TwoBytes(7, 8);
    FourBytes(3, 4, 5, 6);
    FourBytes(9, 10, 11, 12);
    assert Block(types, data, 0, 1) == [1, 2] && Block(types, data, 0, 2) == [1, 2] + [3, 4, 5, 6];
    assert Block(types, data, 1, 1) == [7, 8] && Block(types, data, 1, 2) == [7, 8] + [9, 10, 11, 12];
    assert Blocks(types, data, 1) == [1, 2, 3, 4, 5, 6];
  }

  lemma {:induction false} TwoBytes(a: byte, b: byte)
    ensures Encode(a + 0x100 * b, 2) == [a, b]
  {
    assert Encode(b, 1) == [b];
  }

  lemma {:induction false} FourBytes(a: byte, b: byte, c: byte, d: byte)
    ensures Encode(a + 0x100 * b + 0x1_0000 * c + 0x100_0000 * d, 4) == [a, b, c, d]
  {
    hide Encode;
    TwoBytes(c, d);
    OneByte(a, b + 0x100 * c + 0x1_0000 * d, 3);
    OneByte(b, c + 0x100 * d, 2);
  }

  lemma {:induction false} OneByte(a: byte, v: nat, w: nat)
    ensures Encode(a + 0x100 * v, w + 1) == [a] + Encode(v, w)
  {
    var n := a + 0x100 * v;
    ModUnique(n, v, a, 0x100);
    assert n % 0x100 == a && n / 0x100 == v;
  }

  // the value that taking apart assigns to sample i of channel j
  function Taken(types: seq<Dtype>, raw: seq<byte>, perBlock: nat, i: nat, j: nat): nat
    requires j < |types| && i * perBlock + Offset(types, j) + Width(types[j]) <= |raw|
  {
    var at := i * perBlock + Offset(types, j);
    Decode(raw[at..at + Width(types[j])])
  }

  // blocks that reach `size` bytes
  function BlocksFor(size: nat, block: nat): (n: nat)
    requires block > 0
    ensures n * block >= size && (n > 0 ==> (n - 1) * block < size)
  {
    var n := (size + block - 1) / block;
    DivisionBounds(size + block - 1, block);
    n
  }

  lemma {:induction false} DivisionBounds(a: nat, b: nat)
    requires b > 0
    ensures (a / b) * b <= a < (a / b) * b + b
    ensures (a / b - 1) * b == (a / b) * b - b
  {
  }

  lemma {:induction false} MulOrder(x: int, y: int, b: nat)
    ensures x < y ==> x * b + b <= y * b
    ensures x <= y ==> x * b <= y * b
  {
    if x < y {
      MulNonNegative(y - x - 1, b);
      assert y * b == x * b + b + (y - x - 1) * b;
    }
  }

  lemma {:induction false} OffsetGrows(types: seq<Dtype>, j: nat, k: nat)
    requires j < k <= |types|
    ensures Offset(types, j) + Width(types[j]) <= Offset(types, k)
  {
    if j < k - 1 { OffsetGrows(types, j, k - 1); }
  }

  lemma {:induction false} BlockAt(types: seq<Dtype>, data: seq<seq<nat>>, i: nat, j: nat, k: nat)
    requires j < k <= |types| == |data| && forall c :: 0 <= c < |data| ==> i < |data[c]|
    ensures Offset(types, j) + Width(types[j]) <= Offset(types, k)
    ensures Block(types, data, i, k)[Offset(types, j)..Offset(types, j) + Width(types[j])]
         == Encode(data[j][i], Width(types[j]))
  {
    hide Encode;
    OffsetGrows(types, j, k);
    var from, to := Offset(types, j), Offset(types, j) + Width(types[j]);
    if j < k - 1 {
      BlockAt(types, data, i, j, k - 1);
    }
    SliceOfJoin(Block(types, data, i, k - 1), Encode(data[k - 1][i], Width(types[k - 1])), from, to - from);
  }

  lemma {:induction false} BlocksAt(types: seq<Dtype>, data: seq<seq<nat>>, i: nat, n: nat, b: nat, at: nat)
    requires i < n && |types| == |data| && forall c :: 0 <= c < |data| ==> n <= |data[c]|
    requires b == BlockSize(types) && at == i * b
    ensures at + b <= |Blocks(types, data, n)| && Blocks(types, data, n)[at..at + b] == Block(types, data, i, |types|)
  {
    hide Block, Offset;
    var front, last := Blocks(types, data, n - 1), Block(types, data, n - 1, |types|);
    MulOrder(i, n - 1, b);
    assert |front| == (n - 1) * b;
    if i < n - 1 {
      BlocksAt(types, data, i, n - 1, b, at);
    }
    SliceOfJoin(front, last, at, b);
  }

  lemma {:induction false} SliceOfJoin(front: seq<byte>, last: seq<byte>, at: nat, b: nat)
    requires at + b <= |front| || (at == |front| && |last| == b)
    ensures at + b <= |front + last|
    ensures (front + last)[at..at + b] == if at + b <= |front| then front[at..at + b] else last
  {
    if at + b > |front| {
      assert (front + last)[at..at + b] == last;
    }
  }

  /** Taking apart what was interleaved returns every sample of every channel. */
  lemma {:induction false} RoundTrip(types: seq<Dtype>, data: seq<seq<nat>>, n: nat, i: nat, j: nat)
    requires i < n && j < |types| == |data| && forall c :: 0 <= c < |data| ==> n <= |data[c]|
    requires data[j][i] < Power256(Width(types[j]))
    ensures i * BlockSize(types) + Offset(types, j) + Width(types[j]) <= n * BlockSize(types)
    ensures Taken(types, Blocks(types, data, n), BlockSize(types), i, j) == data[j][i]
  {
    hide Block, Blocks, Decode, Encode, Offset;
    var b, from, w := BlockSize(types), Offset(types, j), Width(types[j]);
    var raw := Blocks(types, data, n);
    BlocksAt(types, data, i, n, b, i * b);
    BlockAt(types, data, i, j, |types|);
    InnerSlice(raw, i * b, b, from, w);
    DecodeEncode(data[j][i], w);
  }

  lemma {:induction false} InnerSlice(raw: seq<byte>, at: nat, b: nat, from: nat, w: nat)
    requires at + b <= |raw| && from + w <= b
    ensures raw[at + from..at + from + w] == raw[at..at + b][from..from + w]
  {
    var inner, outer := raw[at..at + b][from..from + w], raw[at + from..at + from + w];
    forall k | 0 <= k < w
      ensures inner[k] == outer[k]
    {
      assert raw[at..at + b][from + k] == raw[at + (from + k)];
    }
    assert inner == outer;
  }

  // ---------- chunks ----------

  /** One received frame: the announced size, the bytes it carries, and how many bytes the drive said were ready. */
  datatype Chunk = Chunk(size: nat, payload: seq<byte>, ready: nat)

  function Clipped(c: Chunk): nat { if c.ready < c.size then c.ready else c.size }

  ghost predicate Carried(c: Chunk) { Clipped(c) <= |c.payload| }

  function Collected(cs: seq<Chunk>): seq<byte>
    requires forall k :: 0 <= k < |cs| ==> Carried(cs[k])
  {
    if cs == [] then []
    else
      var c := cs[|cs| - 1];
      assert Carried(c);
      Collected(cs[..|cs| - 1]) + c.payload[..Clipped(c)]
  }

  // the frames carry the bytes s from position `at` on, in pieces of any size
  ghost predicate CutsUp(cs: seq<Chunk>, s: seq<byte>, at: nat)
    decreases |cs|
  {
    if cs == [] then at == 0
    else
      var c := cs[|cs| - 1];
      && c.size <= c.ready && c.size <= |c.payload| && c.size <= at <= |s|
      && c.payload[..c.size] == s[at - c.size..at]
      && CutsUp(cs[..|cs| - 1], s, at - c.size)
  }

  lemma {:induction false} CollectedWhole(cs: seq<Chunk>, s: seq<byte>, at: nat)
    requires CutsUp(cs, s, at) && at <= |s|
    ensures forall k :: 0 <= k < |cs| ==> Carried(cs[k])
    ensures Collected(cs) == s[..at]
    decreases |cs|
  {
    if cs != [] {
      var c := cs[|cs| - 1];
      CollectedWhole(cs[..|cs| - 1], s, at - c.size);
      assert s[..at] == s[..at - c.size] + s[at - c.size..at];
    }
  }

  /** From the channels of the drive to the channels of the caller: whatever the sizes of the frames between. */
  lemma {:induction false} EndToEnd(types: seq<Dtype>, data: seq<seq<nat>>, n: nat, cs: seq<Chunk>, i: nat, j: nat)
    requires i < n && j < |types| == |data| && forall c :: 0 <= c < |data| ==> n <= |data[c]|
    requires data[j][i] < Power256(Width(types[j]))
    requires CutsUp(cs, Blocks(types, data, n), n * BlockSize(types))
    ensures forall k :: 0 <= k < |cs| ==> Carried(cs[k])
    ensures i * BlockSize(types) + Offset(types, j) + Width(types[j]) <= |Collected(cs)|
    ensures Taken(types, Collected(cs), BlockSize(types), i, j) == data[j][i]
  {
    hide Blocks, CutsUp, Collected, Taken, Offset;
    var raw := Blocks(types, data, n);
    CollectedWhole(cs, raw, |raw|);
    assert raw[..|raw|] == raw;
    RoundTrip(types, data, n, i, j);
  }

  // ---------- the loops ----------

  ghost function Contents(channels: seq<array<nat>>): (d: seq<seq<nat>>)
    reads channels
    ensures |d| == |channels| && forall c :: 0 <= c < |d| ==> d[c] == channels[c][..]
  {
    seq(|channels|, c requires 0 <= c < |channels| reads channels => channels[c][..])
  }

  /** The interleaving loop of net_send: it writes whole blocks until `size` bytes are reached. */
  method Interleave(types: seq<Dtype>, channels: seq<array<nat>>, size: nat) returns (buf: seq<byte>)
    requires |types| == |channels| && BlockSize(types) > 0
    requires forall c :: 0 <= c < |channels| ==> BlocksFor(size, BlockSize(types)) <= channels[c].Length
    ensures var n := BlocksFor(size, BlockSize(types));
            buf == Blocks(types, Contents(channels), n)
            && (|buf| == size <==> size % BlockSize(types) == 0)
  {
    hide Block, Blocks, Encode, BlocksFor;
    ghost var data := Contents(channels);
    var sum := 0;
    var position := 0;
    buf := [];
    ghost var b, n := BlockSize(types), BlocksFor(size, BlockSize(types));
    BlocksStart(types, data);
    while sum < size
      invariant position <= n && sum == position * b == |buf| && buf == Blocks(types, data, position)
      decreases size - sum
    {
      MoreBlocks(position, b, size);
      BlocksStep(types, data, position);
      ghost var before := buf;
      for i := 0 to |types|
        invariant buf == before + Block(types, data, position, i)
        invariant sum == |before| + Offset(types, i)
      {
        BlockStep(types, data, position, i);
        sum := sum + Width(types[i]);
        buf := buf + Encode(channels[i][position], Width(types[i]));
      }
      position := position + 1;
    }
    EnoughBlocks(position, b, size);
  }

  lemma {:induction false} MoreBlocks(position: nat, b: nat, size: nat)
    requires b > 0 && position * b < size
    ensures position < BlocksFor(size, b)
  {
    MulOrder(BlocksFor(size, b), position, b);
  }

  lemma {:induction false} EnoughBlocks(position: nat, b: nat, size: nat)
    requires b > 0 && position * b >= size && position <= BlocksFor(size, b)
    ensures position == BlocksFor(size, b)
    ensures position * b == size <==> size % b == 0
  {
    var n: int, q: int := BlocksFor(size, b), size / b;
    MulOrder(position, n - 1, b);
    DivisionBounds(size, b);
    if size % b == 0 {
      assert size == q * b;
      MulOrder(q, position - 1, b);
      MulOrder(position, q, b);
    } else if position * b == size {
      ModUnique(size, position, 0, b);
      assert false;
    }
  }

  lemma {:induction false} BlocksStart(types: seq<Dtype>, data: seq<seq<nat>>)
    requires |types| == |data|
    ensures Blocks(types, data, 0) == []
  {
  }

  lemma {:induction false} BlocksStep(types: seq<Dtype>, data: seq<seq<nat>>, n: nat)
    requires |types| == |data| && forall c :: 0 <= c < |data| ==> n < |data[c]|
    ensures Blocks(types, data, n + 1) == Blocks(types, data, n) + Block(types, data, n, |types|)
    ensures Block(types, data, n, 0) == []
  {
  }

  lemma {:induction false} BlockStep(types: seq<Dtype>, data: seq<seq<nat>>, i: nat, j: nat)
    requires j < |types| == |data| && forall c :: 0 <= c < |data| ==> i < |data[c]|
    ensures Block(types, data, i, j + 1) == Block(types, data, i, j) + Encode(data[j][i], Width(types[j]))
  {
  }

  // the first i blocks and j channels of the next are taken apart; all else is as in d0
  ghost predicate Apart(types: seq<Dtype>, raw: seq<byte>, perBlock: nat, d0: seq<seq<nat>>, d: seq<seq<nat>>, i: nat,
                        j: nat)
    requires |d0| == |d| == |types|
  {
    forall c :: 0 <= c < |types| ==>
      && |d[c]| == |d0[c]|
      && forall k :: 0 <= k < |d[c]| ==>
           if Width(types[c]) > 0 && (k < i || (k == i && c < j))
           then InBlocks(types, raw, perBlock, k, c) && d[c][k] == Taken(types, raw, perBlock, k, c)
           else d[c][k] == d0[c][k]
  }

  // sample i of channel j becomes v
  function With(d: seq<seq<nat>>, j: nat, i: nat, v: nat): (r: seq<seq<nat>>)
    requires j < |d| && i < |d[j]|
    ensures |r| == |d|
  {
    var row: seq<nat> := d[j][i := v];
    d[j := row]
  }

  lemma {:induction false} ApartStep(types: seq<Dtype>, raw: seq<byte>, perBlock: nat, d0: seq<seq<nat>>,
                                     d: seq<seq<nat>>, i: nat, j: nat)
    requires |d0| == |d| == |types| && Apart(types, raw, perBlock, d0, d, i, j)
    requires j < |types| && i < |d[j]| && InBlocks(types, raw, perBlock, i, j)
    ensures Width(types[j]) > 0 ==>
              Apart(types, raw, perBlock, d0, With(d, j, i, Taken(types, raw, perBlock, i, j)), i, j + 1)
    ensures Width(types[j]) == 0 ==> Apart(types, raw, perBlock, d0, d, i, j + 1)
  {
    hide Taken, InBlocks;
  }

  lemma {:induction false} ApartRow(types: seq<Dtype>, raw: seq<byte>, perBlock: nat, d0: seq<seq<nat>>,
                                    d: seq<seq<nat>>, i: nat)
    requires |d0| == |d| == |types| && Apart(types, raw, perBlock, d0, d, i, |types|)
    ensures Apart(types, raw, perBlock, d0, d, i + 1, 0)
  {
    hide Taken, InBlocks;
  }

  // what is read for the last whole block was collected
  ghost predicate BlocksInside(types: seq<Dtype>, raw: seq<byte>, size: nat, perBlock: nat)
    requires perBlock > 0
  {
    size / perBlock > 0 ==> (size / perBlock - 1) * perBlock + BlockSize(types) <= |raw|
  }

  /** A drive whose blocks cover the mapped channels never makes it read beyond. */
  lemma {:induction false} CoveringBlocks(types: seq<Dtype>, raw: seq<byte>, size: nat, perBlock: nat)
    requires 0 < perBlock && BlockSize(types) <= perBlock && size <= |raw|
    ensures BlocksInside(types, raw, size, perBlock)
  {
    DivisionBounds(size, perBlock);
    var q := size / perBlock;
    assert q > 0 ==> (q - 1) * perBlock + perBlock == q * perBlock;
  }

  /** process_monitoring_data: takes the collected bytes apart, every whole block and nothing else. */
  method Process(types: seq<Dtype>, raw: seq<byte>, size: nat, perBlock: nat, channels: seq<array<nat>>)
    requires |types| == |channels| && 0 < perBlock && BlocksInside(types, raw, size, perBlock)
    requires forall c :: 0 <= c < |channels| ==> size / perBlock <= channels[c].Length
    requires forall c, e :: 0 <= c < e < |channels| ==> channels[c] != channels[e]
    modifies channels
    ensures Apart(types, raw, perBlock, old(Contents(channels)), Contents(channels), size / perBlock, 0)
  {
    hide Apart, InBlocks, Offset, Contents;
    var blocks := size / perBlock;
    ghost var d0 := Contents(channels);
    ApartStart(types, raw, perBlock, d0);
    for i := 0 to blocks
      invariant Apart(types, raw, perBlock, d0, Contents(channels), i, 0)
    {
      BlockInside(types, raw, size, perBlock, i);
      ProcessBlock(types, raw, perBlock, i, channels, d0);
    }
  }

  // one turn of the outer loop
  method ProcessBlock(types: seq<Dtype>, raw: seq<byte>, perBlock: nat, i: nat, channels: seq<array<nat>>,
                      ghost d0: seq<seq<nat>>)
    requires |types| == |channels| == |d0|
    requires forall c :: 0 <= c < |channels| ==> i < channels[c].Length
    requires forall c, e :: 0 <= c < e < |channels| ==> channels[c] != channels[e]
    requires forall c :: 0 <= c < |types| ==> InBlocks(types, raw, perBlock, i, c)
    requires Apart(types, raw, perBlock, d0, Contents(channels), i, 0)
    modifies channels
    ensures Apart(types, raw, perBlock, d0, Contents(channels), i + 1, 0)
  {
    hide Apart, InBlocks, Offset, Contents, With, Taken;
    var at := i * perBlock;
    var offset := 0;
    OffsetStart(types);
    for j := 0 to |types|
      invariant offset == Offset(types, j)
      invariant Apart(types, raw, perBlock, d0, Contents(channels), i, j)
    {
      var w := Width(types[j]);
      ContentsAt(channels, j);
      ApartStep(types, raw, perBlock, d0, Contents(channels), i, j);
      InBlocksMeans(types, raw, perBlock, i, j);
      TakenIs(types, raw, perBlock, i, j);
      if w > 0 {
        Store(channels, j, i, Decode(raw[at + offset..at + offset + w]));
      }
      OffsetStep(types, j);
      offset := offset + w;
    }
    ApartRow(types, raw, perBlock, d0, Contents(channels), i);
  }

  method Store(channels: seq<array<nat>>, j: nat, i: nat, v: nat)
    requires j < |channels| && i < channels[j].Length
    requires forall c, e :: 0 <= c < e < |channels| ==> channels[c] != channels[e]
    modifies channels[j]
    ensures |Contents(channels)[j]| == |old(Contents(channels)[j])| == channels[j].Length
    ensures Contents(channels) == With(old(Contents(channels)), j, i, v)
  {
    channels[j][i] := v;
    assert Contents(channels)[j] == old(Contents(channels))[j][i := v];
  }

  lemma {:induction false} ContentsAt(channels: seq<array<nat>>, j: nat)
    requires j < |channels|
    ensures |Contents(channels)| == |channels| && |Contents(channels)[j]| == channels[j].Length
  {
  }

  lemma {:induction false} TakenIs(types: seq<Dtype>, raw: seq<byte>, perBlock: nat, i: nat, j: nat)
    requires j < |types| && i * perBlock + Offset(types, j) + Width(types[j]) <= |raw|
    ensures var at := i * perBlock + Offset(types, j);
            Taken(types, raw, perBlock, i, j) == Decode(raw[at..at + Width(types[j])])
  {
  }

  lemma {:induction false} ApartStart(types: seq<Dtype>, raw: seq<byte>, perBlock: nat, d: seq<seq<nat>>)
    requires |d| == |types|
    ensures Apart(types, raw, perBlock, d, d, 0, 0)
  {
  }

  lemma {:induction false} InBlocksMeans(types: seq<Dtype>, raw: seq<byte>, perBlock: nat, i: nat, c: nat)
    requires c < |types| && InBlocks(types, raw, perBlock, i, c)
    ensures i * perBlock + Offset(types, c) + Width(types[c]) <= |raw|
  {
  }

  lemma {:induction false} OffsetStart(types: seq<Dtype>)
    ensures Offset(types, 0) == 0
  {
  }

  lemma {:induction false} OffsetStep(types: seq<Dtype>, j: nat)
    requires j < |types|
    ensures Offset(types, j + 1) == Offset(types, j) + Width(types[j])
  {
  }

  ghost predicate InBlocks(types: seq<Dtype>, raw: seq<byte>, perBlock: nat, i: nat, c: nat)
    requires c < |types|
  {
    i * perBlock + Offset(types, c) + Width(types[c]) <= |raw|
  }

  lemma {:induction false} BlockInside(types: seq<Dtype>, raw: seq<byte>, size: nat, perBlock: nat, i: nat)
    requires 0 < perBlock && BlocksInside(types, raw, size, perBlock) && i < size / perBlock
    ensures forall c :: 0 <= c < |types| ==> InBlocks(types, raw, perBlock, i, c)
  {
    MulOrder(i, size / perBlock - 1, perBlock);
    forall c | 0 <= c < |types| ensures InBlocks(types, raw, perBlock, i, c) {
      OffsetGrows(types, c, |types|);
    }
  }

  /** One pass of the reading loop: a frame's bytes, clipped to what was ready, go after those collected so far. */
  method Collect(raw: array<byte>, start: nat, c: Chunk) returns (size: nat)
    requires Carried(c) && start + Clipped(c) <= raw.Length
    modifies raw
    ensures size == start + Clipped(c)
    ensures raw[..size] == old(raw[..start]) + c.payload[..Clipped(c)]
    ensures raw[size..] == old(raw[size..])
  {
    var n := c.size;
    if c.ready < n { n := c.ready; }
    for i := 0 to n
      invariant raw[..start + i] == old(raw[..start]) + c.payload[..i]
      invariant raw[start + n..] == old(raw[start + n..])
    {
      raw[start + i] := c.payload[i];
    }
    size := start + n;
  }
}
