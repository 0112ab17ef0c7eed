/** ip4_frag: splitting a datagram held in a pbuf chain into fragments that fit the MTU. */
module IpFrag {
  import opened Basics
  import opened ModArith

  const IP_HLEN: nat := 20

  // what is sent: the 13-bit offset field, the MF flag and the payload
  datatype Fragment = Fragment(offset: nat, mf: bool, data: seq<byte>)

  datatype Status = Ok | ErrVal | ErrMem

  // nfb, 8-byte units per fragment: (mtu - 20) / 8 rounded toward zero, as 16 bits
  function Units(mtu: u16): nat {
    if mtu >= IP_HLEN then (mtu - IP_HLEN) / 8 else (0x1_0000 - (IP_HLEN - mtu) / 8) % 0x1_0000
  }

  /** No unit fits exactly from an MTU of 13 to one of 27. */
  lemma {:induction false} NoUnits(mtu: u16)
    ensures Units(mtu) == 0 <==> 13 <= mtu <= 27
    ensures mtu < 13 ==> 8 * Units(mtu) > 0xffff
  {
    if mtu < IP_HLEN {
      var q: nat := (IP_HLEN - mtu) / 8;
      assert q <= 2 && (q == 0 <==> mtu > 12);
    }
  }

  /** The fragments of `rest`, the first at offset ofo. */
  function Split(rest: seq<byte>, ofo: nat, mtu: u16): seq<Fragment>
    requires Units(mtu) > 0
    decreases |rest|
  {
    if rest == [] then []
    else
      var size := Min(|rest|, 8 * Units(mtu));
      [Fragment(ofo % 0x2000, |rest| > mtu - IP_HLEN, rest[..size])]
      + Split(rest[size..], ofo + Units(mtu), mtu)
  }

  // ---------- walking the pbuf chain ----------

  // the bytes that come after position poff of piece k
  function From(chain: seq<seq<byte>>, k: nat, poff: nat): seq<byte>
    requires k < |chain| ==> poff <= |chain[k]|
    decreases |chain| - k
  {
    if k >= |chain| then [] else chain[k][poff..] + From(chain, k + 1, 0)
  }

  lemma {:induction false} FromIsFlat(chain: seq<seq<byte>>, k: nat)
    requires k <= |chain|
    ensures Flat(chain) == Flat(chain[..k]) + From(chain, k, 0)
    decreases |chain| - k
  {
    if k == |chain| {
      assert chain[..k] == chain;
    } else {
      FromIsFlat(chain, k + 1);
      assert chain[..k + 1][..k] == chain[..k];
      assert chain[k][0..] == chain[k];
    }
  }

  /** The inner loop: references to the next `size` bytes, piece by piece. */
  method CopyOut(chain: seq<seq<byte>>, k0: nat, poff0: nat, size: nat) returns (data: seq<byte>, k: nat, poff: nat)
    requires k0 < |chain| && poff0 <= |chain[k0]| && 0 < size <= |From(chain, k0, poff0)|
    ensures k < |chain| && poff <= |chain[k]|
    ensures data == From(chain, k0, poff0)[..size] && From(chain, k, poff) == From(chain, k0, poff0)[size..]
  {
    hide From, Copied;
    ghost var all := From(chain, k0, poff0);
    var left: nat, newLen: nat := size, 0;
    data, k, poff := [], k0, poff0;
    CopiedNothing(chain, k, poff);
    while left > 0
      invariant k < |chain| && poff + newLen <= |chain[k]| && |data| + left == size
      invariant Copied(chain, all, data, k, poff + newLen)
      invariant left > 0 ==> newLen == 0
      decreases left, |chain| - k
    {
      newLen := Min(left, |chain[k]| - poff);
      if newLen == 0 {
        CopiedPiece(chain, all, data, k);
        poff := 0;
        k := k + 1;
        continue;
      }
      CopiedMore(chain, all, data, k, poff, newLen);
      data := data + chain[k][poff..poff + newLen];
      left := left - newLen;
      if left > 0 {
        CopiedPiece(chain, all, data, k);
        newLen := 0;
        poff := 0;
        k := k + 1;
      }
    }
    poff := poff + newLen;
    CopiedAll(chain, all, data, k, poff);
  }

  // data was copied, and the rest of the bytes comes after position p of piece k
  ghost predicate Copied(chain: seq<seq<byte>>, all: seq<byte>, data: seq<byte>, k: nat, p: nat) {
    k < |chain| && p <= |chain[k]| && all == data + From(chain, k, p)
  }

  lemma {:induction false} CopiedNothing(chain: seq<seq<byte>>, k: nat, p: nat)
    requires k < |chain| && p <= |chain[k]|
    ensures Copied(chain, From(chain, k, p), [], k, p)
  {
  }

  // on to the next piece
  lemma {:induction false} CopiedPiece(chain: seq<seq<byte>>, all: seq<byte>, data: seq<byte>, k: nat)
    requires k < |chain| && Copied(chain, all, data, k, |chain[k]|) && |data| < |all|
    ensures k + 1 < |chain| && Copied(chain, all, data, k + 1, 0)
  {
    assert From(chain, k, |chain[k]|) == From(chain, k + 1, 0);
  }

  lemma {:induction false} CopiedMore(chain: seq<seq<byte>>, all: seq<byte>, data: seq<byte>, k: nat, p: nat, n: nat)
    requires Copied(chain, all, data, k, p) && p + n <= |chain[k]|
    ensures Copied(chain, all, data + chain[k][p..p + n], k, p + n)
  {
    hide From;
    Advance(chain, k, p, n);
    Reassociate(data, chain[k][p..p + n], From(chain, k, p + n));
  }

  lemma {:induction false} CopiedAll(chain: seq<seq<byte>>, all: seq<byte>, data: seq<byte>, k: nat, p: nat)
    requires Copied(chain, all, data, k, p)
    ensures data == all[..|data|] && From(chain, k, p) == all[|data|..]
  {
    hide From;
  }

  lemma {:induction false} Reassociate(a: seq<byte>, b: seq<byte>, c: seq<byte>)
    ensures a + (b + c) == (a + b) + c
  {
  }

  lemma {:induction false} Advance(chain: seq<seq<byte>>, k: nat, poff: nat, n: nat)
    requires k < |chain| && poff + n <= |chain[k]|
    ensures From(chain, k, poff) == chain[k][poff..poff + n] + From(chain, k, poff + n)
  {
    assert chain[k][poff..] == chain[k][poff..poff + n] + chain[k][poff + n..];
    Reassociate(chain[k][poff..poff + n], chain[k][poff + n..], From(chain, k + 1, 0));
  }

  /** ip4_frag. `memory` fragments can be built before an allocation fails. What is sent are the fragments of the
      payload, in order; an allocation failure cuts them short. If no unit fits, empty fragments are sent until that
      happens. */
  method Ip4Frag(chain: seq<seq<byte>>, headerWords: nat, origOffset: nat, origMf: bool, mtu: u16, memory: nat)
    returns (status: Status, sent: seq<Fragment>)
    requires |chain| > 0 && |chain[0]| >= IP_HLEN && IP_HLEN <= |Flat(chain)| <= 0xffff
    requires origOffset < 0x2000
    ensures headerWords != 5 || origMf ==> status == ErrVal && sent == []
    ensures headerWords == 5 && !origMf && Units(mtu) == 0 ==>
              if |Flat(chain)| == IP_HLEN then status == Ok && sent == []
              else status == ErrMem && |sent| == memory && forall i :: 0 <= i < memory ==> sent[i].data == []
    ensures headerWords == 5 && !origMf && Units(mtu) > 0 ==>
              var all := Split(Flat(chain)[IP_HLEN..], origOffset, mtu);
              && (status == Ok <==> |all| <= memory)
              && status != ErrVal
              && sent == all[..Min(|all|, memory)]
  {
    hide From, Flat, Split, Units, SentSoFar;
    sent := [];
    if headerWords * 4 != IP_HLEN || origMf {
      return ErrVal, [];
    }
    WholeChain(chain);
    Advance(chain, 0, 0, IP_HLEN);
    ghost var payload := Flat(chain)[IP_HLEN..];
    var nfb := Units(mtu);
    var k: nat, poff: nat, ofo: nat := 0, IP_HLEN, origOffset;
    var left := TotalLength(chain) - IP_HLEN;
    NothingSent(payload, origOffset, mtu);
    while left > 0
      invariant k < |chain| && poff <= |chain[k]|
      invariant left == |From(chain, k, poff)| && |sent| <= memory
      invariant SentSoFar(payload, origOffset, mtu, sent, From(chain, k, poff), ofo)
      decreases left, memory - |sent|
    {
      var fragsize := Min(left, 8 * nfb);
      TurnSends(payload, origOffset, mtu, sent, From(chain, k, poff), ofo);
      if |sent| == memory {
        return ErrMem, sent;
      }
      var data: seq<byte> := [];
      if fragsize > 0 {
        data, k, poff := CopyOut(chain, k, poff, fragsize);
      }
      var last := left <= mtu - IP_HLEN;
      sent := sent + [Fragment(ofo % 0x2000, !last, data)];
      left := left - fragsize;
      ofo := ofo + nfb;
    }
    AllSent(payload, origOffset, mtu, sent, From(chain, k, poff), ofo);
    return Ok, sent;
  }

  // what was sent before fragment offset ofo, when `rest` of the payload is left
  ghost predicate SentSoFar(payload: seq<byte>, origOffset: nat, mtu: u16, sent: seq<Fragment>, rest: seq<byte>,
                            ofo: nat)
  {
    if Units(mtu) > 0 then Split(payload, origOffset, mtu) == sent + Split(rest, ofo, mtu)
    else rest == payload && (payload == [] ==> sent == []) && forall i :: 0 <= i < |sent| ==> sent[i].data == []
  }

  lemma {:induction false} NothingSent(payload: seq<byte>, origOffset: nat, mtu: u16)
    ensures SentSoFar(payload, origOffset, mtu, [], payload, origOffset)
  {
  }

  // one turn of the loop
  lemma {:induction false} TurnSends(payload: seq<byte>, origOffset: nat, mtu: u16, sent: seq<Fragment>,
                                     rest: seq<byte>, ofo: nat)
    requires SentSoFar(payload, origOffset, mtu, sent, rest, ofo) && rest != []
    ensures payload != [] || Units(mtu) > 0
    ensures Units(mtu) > 0 ==> |sent| < |Split(payload, origOffset, mtu)|
                               && sent == Split(payload, origOffset, mtu)[..|sent|]
    ensures Units(mtu) == 0 ==> forall i :: 0 <= i < |sent| ==> sent[i].data == []
    ensures var size := Min(|rest|, 8 * Units(mtu));
            SentSoFar(payload, origOffset, mtu, sent + [Fragment(ofo % 0x2000, |rest| > mtu - IP_HLEN, rest[..size])],
                      rest[size..], ofo + Units(mtu))
  {
    hide Split, Units;
    if Units(mtu) > 0 {
      SplitStep(rest, ofo, mtu);
      var size := Min(|rest|, 8 * Units(mtu));
      var f, tail := Fragment(ofo % 0x2000, |rest| > mtu - IP_HLEN, rest[..size]),
                     Split(rest[size..], ofo + Units(mtu), mtu);
      assert sent + ([f] + tail) == (sent + [f]) + tail;
    }
  }

  lemma {:induction false} AllSent(payload: seq<byte>, origOffset: nat, mtu: u16, sent: seq<Fragment>,
                                   rest: seq<byte>, ofo: nat)
    requires SentSoFar(payload, origOffset, mtu, sent, rest, ofo) && rest == []
    ensures if Units(mtu) > 0 then sent == Split(payload, origOffset, mtu) else payload == [] && sent == []
  {
    hide Split, Units;
    if Units(mtu) > 0 { SplitStep(rest, ofo, mtu); }
  }

  lemma {:induction false} SplitStep(rest: seq<byte>, ofo: nat, mtu: u16)
    requires Units(mtu) > 0
    ensures Units(mtu) > 0 && (rest == [] ==> Split(rest, ofo, mtu) == [])
    ensures rest != [] ==>
              var size := Min(|rest|, 8 * Units(mtu));
              Split(rest, ofo, mtu) == [Fragment(ofo % 0x2000, |rest| > mtu - IP_HLEN, rest[..size])]
                                       + Split(rest[size..], ofo + Units(mtu), mtu)
  {
  }

  lemma {:induction false} WholeChain(chain: seq<seq<byte>>)
    ensures Flat(chain) == From(chain, 0, 0)
  {
    FromIsFlat(chain, 0);
    assert Flat(chain[..0]) == [];
  }

  function TotalLength(chain: seq<seq<byte>>): (n: nat)
    ensures n == |Flat(chain)|
  {
    if chain == [] then 0 else TotalLength(chain[..|chain| - 1]) + |chain[|chain| - 1]|
  }

  // ---------- what the fragments are ----------

  function Joined(fs: seq<Fragment>): seq<byte> {
    if fs == [] then [] else fs[0].data + Joined(fs[1..])
  }

  /** The fragments carry the payload, nothing more and nothing less, in order. */
  lemma {:induction false} SplitJoins(rest: seq<byte>, ofo: nat, mtu: u16)
    requires Units(mtu) > 0
    ensures Joined(Split(rest, ofo, mtu)) == rest
    ensures |Split(rest, ofo, mtu)| > 0 <==> rest != []
    decreases |rest|
  {
    hide Split, Units;
    SplitStep(rest, ofo, mtu);
    if rest != [] {
      var size := Min(|rest|, 8 * Units(mtu));
      var tail := Split(rest[size..], ofo + Units(mtu), mtu);
      SplitJoins(rest[size..], ofo + Units(mtu), mtu);
      assert Split(rest, ofo, mtu)[1..] == tail;
      assert rest == rest[..size] + rest[size..];
    }
  }

  // each fragment's offset field says where its payload belongs, from byte `pos` on
  ghost predicate Placed(fs: seq<Fragment>, pos: nat) {
    fs == [] || (8 * fs[0].offset == pos && fs[0].data != [] && Placed(fs[1..], pos + |fs[0].data|))
  }

  /** The offsets are consecutive: every fragment starts where the one before it ends. */
  lemma {:induction false} SplitPlaced(rest: seq<byte>, ofo: nat, mtu: u16)
    requires Units(mtu) > 0 && 8 * ofo + |rest| <= 0xffff
    ensures Placed(Split(rest, ofo, mtu), 8 * ofo)
    decreases |rest|
  {
    hide Units, Split, Placed;
    SplitStep(rest, ofo, mtu);
    NothingPlaced(8 * ofo);
    if rest != [] {
      var u := Units(mtu);
      var size := Min(|rest|, 8 * u);
      var tail := Split(rest[size..], ofo + u, mtu);
      var f := Fragment(ofo % 0x2000, |rest| > mtu - IP_HLEN, rest[..size]);
      assert f.offset == ofo && f.data != [];
      if |rest| > size {
        SplitPlaced(rest[size..], ofo + u, mtu);
      } else {
        SplitStep(rest[size..], ofo + u, mtu);
        NothingPlaced(8 * ofo + size);
      }
      PlacedCons(f, tail, 8 * ofo);
    }
  }

  lemma {:induction false} NothingPlaced(pos: nat)
    ensures Placed([], pos)
  {
  }

  lemma {:induction false} PlacedCons(f: Fragment, fs: seq<Fragment>, pos: nat)
    requires 8 * f.offset == pos && f.data != [] && Placed(fs, pos + |f.data|)
    ensures Placed([f] + fs, pos)
  {
    assert ([f] + fs)[1..] == fs;
  }

  // all but the last carry `full` bytes, and the last no more
  ghost predicate Sized(fs: seq<Fragment>, full: nat) {
    forall i :: 0 <= i < |fs| ==> |fs[i].data| <= full && (i < |fs| - 1 ==> |fs[i].data| == full)
  }

  /** All fragments but the last are full, and every fragment fits the MTU. */
  lemma {:induction false} SplitSized(rest: seq<byte>, ofo: nat, mtu: u16)
    requires Units(mtu) > 0
    ensures Sized(Split(rest, ofo, mtu), 8 * Units(mtu)) && (mtu >= IP_HLEN ==> 8 * Units(mtu) + IP_HLEN <= mtu)
    decreases |rest|
  {
    hide Split;
    SplitStep(rest, ofo, mtu);
    if rest != [] {
      var u := Units(mtu);
      var size := Min(|rest|, 8 * u);
      SplitSized(rest[size..], ofo + u, mtu);
      if |rest| == size {
        SplitStep(rest[size..], ofo + u, mtu);
      }
    }
  }

  /** There are no more fragments than it takes. */
  lemma {:induction false} SplitCount(rest: seq<byte>, ofo: nat, mtu: u16)
    requires Units(mtu) > 0 && rest != []
    ensures var n, full := |Split(rest, ofo, mtu)|, 8 * Units(mtu);
            (n - 1) * full < |rest| <= n * full
    decreases |rest|
  {
    hide Split, Units;
    SplitStep(rest, ofo, mtu);
    var full := 8 * Units(mtu);
    var size := Min(|rest|, full);
    var n := |Split(rest[size..], ofo + Units(mtu), mtu)|;
    if |rest| > full {
      SplitCount(rest[size..], ofo + Units(mtu), mtu);
      assert n * full == (n - 1) * full + full && (n + 1) * full == n * full + full;
    } else {
      SplitStep(rest[size..], ofo + Units(mtu), mtu);
      assert n == 0;
    }
  }

  // ---------- the more-fragments flag ----------

  // every fragment but the last, and only those, announce another one
  predicate FlagsRight(fs: seq<Fragment>) {
    forall i :: 0 <= i < |fs| ==> (fs[i].mf <==> i < |fs| - 1)
  }

  // a remainder that the last-fragment test takes for a whole fragment, or any payload if the MTU is below the header
  predicate FlagsMisjudged(length: nat, mtu: u16)
    requires Units(mtu) > 0
  {
    if mtu < IP_HLEN then length > 0
    else length > 8 * Units(mtu) && 1 <= length % (8 * Units(mtu)) <= (mtu - IP_HLEN) % 8
  }

  /** The MF flags are right exactly when the payload does not end within (MTU-20) mod 8 bytes after a whole number of
      fragments; in particular always when MTU-20 is a multiple of 8. */
  lemma {:induction false} FlagsRightIff(rest: seq<byte>, ofo: nat, mtu: u16)
    requires Units(mtu) > 0 && |rest| <= 0xffff
    ensures FlagsRight(Split(rest, ofo, mtu)) <==> !FlagsMisjudged(|rest|, mtu)
    decreases |rest|
  {
    if rest != [] {
      var u := Units(mtu);
      var size := Min(|rest|, 8 * u);
      var fs, tail := Split(rest, ofo, mtu), Split(rest[size..], ofo + u, mtu);
      FlagsRightIff(rest[size..], ofo + u, mtu);
      SplitJoins(rest[size..], ofo + u, mtu);
      assert fs == [fs[0]] + tail;
      FlagsCons(fs, tail);
      NoUnits(mtu);
      if mtu >= IP_HLEN { MisjudgedStep(|rest|, mtu); }
    }
  }

  lemma {:induction false} MisjudgedStep(length: nat, mtu: u16)
    requires Units(mtu) > 0 && mtu >= IP_HLEN
    ensures var f, r := 8 * Units(mtu), (mtu - IP_HLEN) % 8;
            && mtu - IP_HLEN == f + r
            && (length <= f ==> !FlagsMisjudged(length, mtu))
            && (length > f ==> (FlagsMisjudged(length, mtu) <==>
                                length <= f + r || FlagsMisjudged(length - f, mtu)))
  {
    var f, r := 8 * Units(mtu), (mtu - IP_HLEN) % 8;
    if length > f {
      ModShift(length - f, 1, f);
      assert 1 * f + (length - f) == length;
      if length - f < f {
        ModUnique(length - f, 0, length - f, f);
      } else if length - f == f {
        ModUnique(f, 1, 0, f);
      }
    }
  }

  lemma {:induction false} FlagsCons(fs: seq<Fragment>, tail: seq<Fragment>)
    requires |fs| > 0 && fs[1..] == tail
    ensures FlagsRight(fs) <==> (fs[0].mf <==> tail != []) && FlagsRight(tail)
  {
    assert forall i :: 0 <= i < |tail| ==> tail[i] == fs[i + 1];
  }

  /** Below an MTU of 13 the whole payload leaves as one fragment that announces another. */
  lemma {:induction false} WholeAtOnce(payload: seq<byte>, ofo: nat, mtu: u16)
    requires mtu < 13 && 0 < |payload| <= 0xffff
    ensures Units(mtu) > 0 && Split(payload, ofo, mtu) == [Fragment(ofo % 0x2000, true, payload)]
  {
    NoUnits(mtu);
    hide Units;
    SplitStep(payload, ofo, mtu);
    SplitStep([], ofo + Units(mtu), mtu);
    assert payload[..|payload|] == payload && payload[|payload|..] == [];
  }

  /** A concrete case: 9 bytes over an MTU of 29 leave as two fragments, none with MF set. */
  lemma {:induction false} FlagsMisjudgedExample(payload: seq<byte>)
    requires |payload| == 9
    ensures |Split(payload, 0, 29)| == 2 && !Split(payload, 0, 29)[0].mf
    ensures !FlagsRight(Split(payload, 0, 29))
  {
    assert Split(payload, 0, 29)[1..] == Split(payload[8..], 1, 29);
    assert Split(payload[9..], 2, 29) == [];
    FlagsRightIff(payload, 0, 29);
  }

  // the bytes of n full fragments
  function FullLength(n: nat, mtu: u16): nat { n * (8 * Units(mtu)) }

  /** What misjudged flags come to: the last fragment but one says that it is the last, and all before are right. */
  lemma {:induction false} MisjudgedSplit(rest: seq<byte>, ofo: nat, mtu: u16)
    requires Units(mtu) > 0 && mtu >= IP_HLEN && FlagsMisjudged(|rest|, mtu) && |rest| <= 0xffff
    ensures var fs := Split(rest, ofo, mtu);
            var n := |fs| - 1;
            && n > 0 && FlagsRight(fs[..n])
            && FullLength(n, mtu) < |rest| && Joined(fs[..n]) == rest[..FullLength(n, mtu)]
    decreases |rest|
  {
    hide Split, Units, FlagsMisjudged, FlagsRight, Joined;
    var u := Units(mtu);
    var full := 8 * u;
    SplitStep(rest, ofo, mtu);
    MisjudgedLong(|rest|, mtu);
    MisjudgedStep(|rest|, mtu);
    var later := rest[full..];
    var fs, tail := Split(rest, ofo, mtu), Split(later, ofo + u, mtu);
    assert fs == [fs[0]] + tail && fs[0].data == rest[..full];
    if |rest| <= mtu - IP_HLEN {
      OneFragment(later, ofo + u, mtu);
      OnlyOne(fs[0]);
      assert fs[..1] == [fs[0]];
    } else {
      MisjudgedSplit(later, ofo + u, mtu);
      var n := |tail| - 1;
      assert fs[..n + 1] == [fs[0]] + tail[..n];
      FlagsCons(fs[..n + 1], tail[..n]);
      JoinedCons(fs[0], tail[..n]);
      OneMorePiece(rest, full, n);
    }
  }

  lemma {:induction false} OneFragment(rest: seq<byte>, ofo: nat, mtu: u16)
    requires Units(mtu) > 0 && 0 < |rest| <= 8 * Units(mtu)
    ensures |Split(rest, ofo, mtu)| == 1
  {
    hide Split, Units;
    SplitStep(rest, ofo, mtu);
    SplitStep(rest[|rest|..], ofo + Units(mtu), mtu);
  }

  lemma {:induction false} OneMorePiece(rest: seq<byte>, full: nat, n: nat)
    requires full <= |rest| && n * full < |rest[full..]|
    ensures (n + 1) * full == n * full + full < |rest|
    ensures rest[..full] + rest[full..][..n * full] == rest[..(n + 1) * full]
  {
    assert (n + 1) * full == n * full + full;
  }

  lemma {:induction false} MisjudgedLong(length: nat, mtu: u16)
    requires Units(mtu) > 0 && mtu >= IP_HLEN && FlagsMisjudged(length, mtu)
    ensures length > 8 * Units(mtu)
    ensures length <= mtu - IP_HLEN ==> length - 8 * Units(mtu) <= 8 * Units(mtu)
  {
  }

  lemma {:induction false} OnlyOne(f: Fragment)
    ensures Joined([f]) == f.data && (!f.mf ==> FlagsRight([f]))
  {
    assert [f][1..] == [];
  }

  lemma {:induction false} JoinedCons(f: Fragment, fs: seq<Fragment>)
    ensures Joined([f] + fs) == f.data + Joined(fs)
  {
    assert ([f] + fs)[1..] == fs;
  }
}
