/** Fragmentation followed by reassembly is the identity, as far as it is. */
module ReassRoundTrip {
  import opened Basics
  import opened ReassQueue
  import opened IpReass
  import opened ReassRun
  import opened ReassSystem
  import opened ReassDelivery
  import F = IpFrag

  // the packets in which the fragments of a payload arrive
  ghost predicate Carries(ps: seq<Packet>, fs: seq<F.Fragment>, key: Key) {
    && |ps| == |fs|
    && forall i :: 0 <= i < |ps| ==>
         && WellFormed(ps[i]) && ps[i].header.key == key && ps[i].words == 5
         && ps[i].header.offset == fs[i].offset && ps[i].mf == fs[i].mf && ps[i].data == fs[i].data
  }

  // c continues a cut from byte pos on
  ghost predicate CutFrom(c: seq<Frag>, pos: nat) {
    && (c != [] ==> c[0].start == pos)
    && (forall i :: 0 <= i < |c| ==> c[i].start < c[i].end)
    && (forall i :: 0 < i < |c| ==> Joins(c, i))
  }

  lemma {:induction false} CutCons(c: seq<Frag>, pos: nat, mid: nat)
    requires c != [] && c[0].start == pos < c[0].end == mid && CutFrom(c[1..], mid)
    ensures CutFrom(c, pos)
  {
    forall i | 0 < i < |c|
      ensures Joins(c, i)
    {
      if i > 1 { assert Joins(c[1..], i - 1); }
    }
  }

  // placed fragments within 65535 bytes are consecutive ranges and carry the payload
  lemma {:induction false} PlacedIsCut(ps: seq<Packet>, fs: seq<F.Fragment>, key: Key, pos: nat)
    requires Carries(ps, fs, key) && F.Placed(fs, pos) && pos + |F.Joined(fs)| <= 0xffff
    ensures CutFrom(FragsOf(ps), pos) && Payload(FragsOf(ps)) == F.Joined(fs)
    ensures ps != [] ==> FragOf(ps[|ps| - 1]).end == pos + |F.Joined(fs)|
    decreases |fs|
  {
    hide FragsOf;
    if fs != [] {
      var c, c1, mid := FragsOf(ps), FragsOf(ps[1..]), pos + |fs[0].data|;
      PlacedIsCut(ps[1..], fs[1..], key, mid);
      assert c[1..] == c1;
      assert c[0] == Frag(pos, mid, fs[0].data, ps[0].clen);
      hide CutFrom;
      CutCons(c, pos, mid);
      if fs[1..] == [] {
        assert F.Joined(fs) == fs[0].data;
      }
    }
  }

  // packets that carry placed fragments with the right flags
  lemma {:induction false} CarriedFragments(ps: seq<Packet>, fs: seq<F.Fragment>, key: Key)
    requires Carries(ps, fs, key) && fs != [] && F.Placed(fs, 0) && F.FlagsRight(fs)
    requires |F.Joined(fs)| <= 0xffff - F.IP_HLEN
    ensures |ps| > 0 && Fragments(ps, key)
    ensures Whole(ps) == Delivered(ps[0].header, |F.Joined(fs)| + F.IP_HLEN, F.Joined(fs))
  {
    hide FragsOf, F.Placed, Payload, F.Joined;
    PlacedIsCut(ps, fs, key, 0);
    OnlyFirstAtZero(ps, key, 0);
  }

  lemma {:induction false} SplitIsFragments(payload: seq<byte>, mtu: u16, ps: seq<Packet>, key: Key)
    requires 0 < |payload| <= 0xffff - F.IP_HLEN && F.Units(mtu) > 0
    requires !F.FlagsMisjudged(|payload|, mtu)
    requires Carries(ps, F.Split(payload, 0, mtu), key)
    ensures |ps| > 0 && Fragments(ps, key)
    ensures Whole(ps) == Delivered(ps[0].header, |payload| + F.IP_HLEN, payload)
  {
    hide F.Split, F.Placed, F.FlagsMisjudged, F.Joined, Carries;
    F.SplitJoins(payload, 0, mtu);
    F.SplitPlaced(payload, 0, mtu);
    F.FlagsRightIff(payload, 0, mtu);
    CarriedFragments(ps, F.Split(payload, 0, mtu), key);
  }

  /** For every payload of up to 65515 bytes and every MTU under which ip4_frag gets on and sets its flags right: its
      fragments, with no more pbufs than the limit, arrive in any order, with duplicates, among packets of any other
      datagrams and seconds of the timer, the last missing one at the end. The first of them gets an entry, no other
      datagram evicts it, and it does not expire. Then ip4_reass hands up exactly that payload, and nothing before, if
      and only if no arrival fools the check for holes. */
  lemma {:induction false} RoundTrip(payload: seq<byte>, mtu: u16, ps: seq<Packet>, key: Key, lim: Limits,
                                     ds: seq<Datagram>, evs: seq<Event>, f: nat)
    requires 0 < |payload| <= 0xffff - F.IP_HLEN && F.Units(mtu) > 0
    requires !F.FlagsMisjudged(|payload|, mtu)
    requires Carries(ps, F.Split(payload, 0, mtu), key) && PbufCount(FragsOf(ps)) <= lim.pbufs
    requires Fit(lim, ds) && Entry(ds, key) == None && Among(evs, ps, key) && Undisturbed(lim, ds, evs, key, f)
    requires evs != [] && IsOwn(evs[|evs| - 1], key)
    requires !Full(Seen(Numbers(evs[..|evs| - 1], ps, key)), |ps|) && Full(Seen(Numbers(evs, ps, key)), |ps|)
    ensures (forall k :: 0 <= k < |evs| - 1 && IsOwn(evs[k], key) ==> Out(lim, ds, evs, k) == None)
            && Out(lim, ds, evs, |evs| - 1) == Some(Delivered(ps[0].header, |payload| + F.IP_HLEN, payload))
            <==> NeverFooled(Numbers(evs, ps, key), |ps|)
  {
    SplitIsFragments(payload, mtu, ps, key);
    hide F.Split, F.FlagsMisjudged, Carries, NeverFooled, Full, Out, Fragments, Whole, Fit, Undisturbed, FragsOf, Entry;
    RunExact(lim, ds, evs, ps, key, f);
  }

  lemma {:induction false} AtLeastOneEach(c: seq<Frag>)
    requires forall i :: 0 <= i < |c| ==> c[i].clen >= 1
    ensures PbufCount(c) >= |c|
  {
    if c != [] { AtLeastOneEach(c[1..]); }
  }

  /** A payload of more whole fragments than the limit on pbufs is never handed up, whatever arrives in whatever
      order. */
  lemma {:induction false} TooLong(payload: seq<byte>, mtu: u16, ps: seq<Packet>, key: Key, lim: Limits,
                                   ds: seq<Datagram>, evs: seq<Event>, k: nat)
    requires |payload| <= 0xffff - F.IP_HLEN && F.Units(mtu) > 0 && !F.FlagsMisjudged(|payload|, mtu)
    requires Carries(ps, F.Split(payload, 0, mtu), key)
    requires Fit(lim, ds) && Entry(ds, key) == None && Among(evs, ps, key) && k < |evs| && IsOwn(evs[k], key)
    requires |payload| > lim.pbufs * (8 * F.Units(mtu))
    ensures Out(lim, ds, evs, k) != Some(Delivered(ps[0].header, |payload| + F.IP_HLEN, payload))
  {
    NotEmpty(payload, mtu, lim);
    TooMany(payload, mtu, ps, key, lim);
    SplitIsFragments(payload, mtu, ps, key);
    hide F.Split, F.FlagsMisjudged, Out, Fragments, Whole, Fit, FragsOf, Entry, PbufCount, F.Units, Carries, Among;
    NeverTooLarge(lim, ds, evs, ps, key, k);
  }

  lemma {:induction false} NotEmpty(payload: seq<byte>, mtu: u16, lim: Limits)
    requires F.Units(mtu) > 0 && |payload| > lim.pbufs * (8 * F.Units(mtu))
    ensures |payload| > 0
  {
    assert lim.pbufs * (8 * F.Units(mtu)) >= 0;
  }

  lemma {:induction false} TooMany(payload: seq<byte>, mtu: u16, ps: seq<Packet>, key: Key, lim: Limits)
    requires |payload| > 0 && F.Units(mtu) > 0 && Carries(ps, F.Split(payload, 0, mtu), key)
    requires |payload| > lim.pbufs * (8 * F.Units(mtu))
    ensures PbufCount(FragsOf(ps)) > lim.pbufs
  {
    hide F.Split, F.Units, PbufCount, FragsOf;
    F.SplitCount(payload, 0, mtu);
    MoreFactors(|ps|, lim.pbufs, 8 * F.Units(mtu));
    AtLeastOneEach(FragsOf(ps));
  }

  lemma {:induction false} MoreFactors(a: nat, b: nat, c: nat)
    requires a * c > b * c
    ensures a > b
  {
    assert a <= b ==> a * c <= b * c;
  }

  /** With the limit of 10 pbufs, 88 bytes over an MTU of 28 never come back, not even in order and alone. */
  lemma {:induction false} ElevenFragments(payload: seq<byte>, ps: seq<Packet>, key: Key, ages: nat, entries: nat,
                                           evs: seq<Event>, k: nat)
    requires |payload| == 88 && Carries(ps, F.Split(payload, 0, 28), key)
    requires Among(evs, ps, key) && k < |evs| && IsOwn(evs[k], key)
    ensures |ps| == 11
    ensures Out(Limits(10, entries, ages), [], evs, k) != Some(Delivered(ps[0].header, 108, payload))
  {
    hide F.Split, F.FlagsMisjudged, F.Units, Out, Fit, Entry, Among;
    var lim := Limits(10, entries, ages);
    OneUnit();
    F.SplitCount(payload, 0, 28);
    Eleven(|ps|);
    EmptyFit(lim);
    EntryAbsent([], key);
    TooLong(payload, 28, ps, key, lim, [], evs, k);
  }

  lemma {:induction false} OneUnit()
    ensures F.Units(28) == 1 && !F.FlagsMisjudged(88, 28)
  {
  }

  lemma {:induction false} Eleven(n: nat)
    ensures (n - 1) * 8 < 88 <= n * 8 <==> n == 11
  {
  }

  // every arrival is the next fragment or one seen before
  ghost predicate InOrder(a: seq<nat>) {
    forall k :: 0 <= k < |a| ==> a[k] == 0 || a[k] - 1 in Seen(a[..k])
  }

  /** Arrival in order, with earlier fragments repeated at will, never fools the check. */
  lemma {:induction false} InOrderNeverFools(a: seq<nat>, n: nat)
    requires InOrder(a)
    ensures NeverFooled(a, n)
  {
    hide RunsOn;
    forall k | 0 <= k < |a| ensures !Fooled(Seen(a[..k]), a[k], n) {
      assert a[k] == 0 || a[k] - 1 in Seen(a[..k]);
    }
  }

  // every arrival precedes all seen ones, or repeats the least
  ghost predicate Reversed(a: seq<nat>) {
    forall k, i :: 0 <= i < k < |a| ==> a[k] <= a[i]
  }

  /** Nor does arrival back to front. */
  lemma {:induction false} ReversedNeverFools(a: seq<nat>, n: nat)
    requires Reversed(a)
    ensures NeverFooled(a, n)
  {
    hide RunsOn;
    forall k | 0 <= k < |a|
      ensures !Fooled(Seen(a[..k]), a[k], n)
    {
      forall i | i in Seen(a[..k]) ensures i >= a[k] {
        var l :| 0 <= l < k && a[l] == i;
      }
    }
  }

  // ---------- alone and in order ----------

  function InTurn(ps: seq<Packet>): seq<Event> { seq(|ps|, i requires 0 <= i < |ps| => Arrive(ps[i])) }

  // fragments of one datagram differ
  lemma {:induction false} NumberIs(ps: seq<Packet>, key: Key, i: nat)
    requires Fragments(ps, key) && i < |ps|
    ensures Number(ps, ps[i]) == i
  {
    var c, j := FragsOf(ps), Number(ps, ps[i]);
    FragmentsCut(ps, key);
    if j < i { CutOrder(c, j, i); }
    if i < j { CutOrder(c, i, j); }
  }

  lemma {:induction false} AllOwn(ps: seq<Packet>, key: Key, n: nat)
    requires Fragments(ps, key) && n <= |ps|
    ensures Among(InTurn(ps)[..n], ps, key)
    ensures var a := Numbers(InTurn(ps)[..n], ps, key); |a| == n && forall k :: 0 <= k < n ==> a[k] == k
    decreases n
  {
    hide Fragments, Number;
    FragmentsWellFormed(ps, key);
    if n > 0 {
      var evs := InTurn(ps)[..n];
      AllOwn(ps, key, n - 1);
      assert evs[..n - 1] == InTurn(ps)[..n - 1];
      NumberIs(ps, key, n - 1);
    }
  }

  lemma {:induction false} CountedUp(a: seq<nat>, n: nat)
    requires |a| <= n && forall k :: 0 <= k < |a| ==> a[k] == k
    ensures InOrder(a) && (Full(Seen(a), n) <==> |a| == n)
  {
    forall k | 0 < k < |a| ensures a[k] - 1 in Seen(a[..k]) {
      assert a[..k][k - 1] == k - 1;
    }
    if |a| == n {
      forall i: nat | i < n ensures i in Seen(a) { assert a[i] == i; }
    } else {
      assert |a| !in Seen(a);
    }
  }

  /** Alone and in order, fragments are handed up as what they make up, at the last of them, if and only if they keep
      within the limit on pbufs. */
  lemma {:induction false} AloneInOrder(ps: seq<Packet>, key: Key, lim: Limits)
    requires Fragments(ps, key) && lim.datagrams > 0
    requires |ps| > 0 && forall i :: 0 <= i < |ps| ==> WellFormed(ps[i]) && ps[i].words == 5
    ensures Events(InTurn(ps))
    ensures Out(lim, [], InTurn(ps), |ps| - 1) == Some(Whole(ps)) <==> PbufCount(FragsOf(ps)) <= lim.pbufs
  {
    hide Out, Fragments, Whole, Fit, Undisturbed, FragsOf, Entry, Full, NeverFooled, Numbers;
    var evs, n := InTurn(ps), |ps|;
    FragmentsWellFormed(ps, key);
    EmptyFit(lim);
    EntryAbsent([], key);
    AllOwn(ps, key, n);
    AllOwn(ps, key, n - 1);
    assert evs[..n] == evs;
    CountedUp(Numbers(evs, ps, key), n);
    CountedUp(Numbers(evs[..n - 1], ps, key), n);
    InOrderNeverFools(Numbers(evs, ps, key), n);
    if PbufCount(FragsOf(ps)) <= lim.pbufs {
      NobodyElse(ps, key, lim);
      RunExact(lim, [], evs, ps, key, 0);
    } else {
      NeverTooLarge(lim, [], evs, ps, key, n - 1);
    }
  }

  /** Alone and in order, the fragments of a payload give it back if and only if they keep within the limit on pbufs. */
  lemma {:induction false} InOrderAlone(payload: seq<byte>, mtu: u16, ps: seq<Packet>, key: Key, lim: Limits)
    requires 0 < |payload| <= 0xffff - F.IP_HLEN && F.Units(mtu) > 0 && !F.FlagsMisjudged(|payload|, mtu)
    requires Carries(ps, F.Split(payload, 0, mtu), key) && lim.datagrams > 0
    ensures |ps| > 0 && Events(InTurn(ps))
    ensures Out(lim, [], InTurn(ps), |ps| - 1) == Some(Delivered(ps[0].header, |payload| + F.IP_HLEN, payload))
            <==> PbufCount(FragsOf(ps)) <= lim.pbufs
  {
    SplitIsFragments(payload, mtu, ps, key);
    hide F.Split, F.FlagsMisjudged, Out, Fragments, Whole, FragsOf;
    AloneInOrder(ps, key, lim);
  }

  /** With misjudged flags, alone and in order, a shorter datagram is handed up instead, one fragment too early. */
  lemma {:induction false} MisjudgedAlone(payload: seq<byte>, mtu: u16, ps: seq<Packet>, key: Key, lim: Limits)
    requires 0 < |payload| <= 0xffff - F.IP_HLEN && F.Units(mtu) > 0 && mtu >= F.IP_HLEN
    requires F.FlagsMisjudged(|payload|, mtu)
    requires Carries(ps, F.Split(payload, 0, mtu), key) && lim.datagrams > 0
    ensures |ps| > 1 && Events(InTurn(ps)) && forall i :: 0 <= i < |ps| ==> WellFormed(ps[i])
    ensures var n := |ps| - 1;
            var m := F.FullLength(n, mtu);
            && m < |payload|
            && (PbufCount(FragsOf(ps[..n])) <= lim.pbufs ==>
                  Out(lim, [], InTurn(ps), n - 1) == Some(Delivered(ps[0].header, m + F.IP_HLEN, payload[..m])))
  {
    hide F.Split, F.Units, F.FlagsMisjudged, F.FlagsRight, F.Joined, F.FullLength, F.Placed, Carries, Out, Fragments,
         Whole, FragsOf, InTurn;
    var fs := F.Split(payload, 0, mtu);
    F.MisjudgedSplit(payload, 0, mtu);
    F.SplitPlaced(payload, 0, mtu);
    CarriedSize(ps, fs, key);
    var n := |ps| - 1;
    PlacedPrefix(fs, 0, n);
    CarriedPrefix(ps, fs, key, n);
    CarriedFragments(ps[..n], fs[..n], key);
    AloneInOrder(ps[..n], key, lim);
    InTurnPrefix(lim, ps, n);
  }

  lemma {:induction false} CarriedSize(ps: seq<Packet>, fs: seq<F.Fragment>, key: Key)
    requires Carries(ps, fs, key)
    ensures |ps| == |fs| && Events(InTurn(ps)) && forall i :: 0 <= i < |ps| ==> WellFormed(ps[i]) && ps[i].words == 5
  {
  }

  lemma {:induction false} CarriedPrefix(ps: seq<Packet>, fs: seq<F.Fragment>, key: Key, n: nat)
    requires Carries(ps, fs, key) && n <= |ps|
    ensures |ps| == |fs| && Carries(ps[..n], fs[..n], key)
  {
  }

  lemma {:induction false} PlacedPrefix(fs: seq<F.Fragment>, pos: nat, n: nat)
    requires F.Placed(fs, pos) && n <= |fs|
    ensures F.Placed(fs[..n], pos)
  {
    if n > 0 {
      PlacedPrefix(fs[1..], pos + |fs[0].data|, n - 1);
      assert fs[..n][1..] == fs[1..][..n - 1];
    }
  }

  lemma {:induction false} InTurnPrefix(lim: Limits, ps: seq<Packet>, n: nat)
    requires 0 < n <= |ps| && Events(InTurn(ps))
    ensures Events(InTurn(ps[..n])) && Out(lim, [], InTurn(ps[..n]), n - 1) == Out(lim, [], InTurn(ps), n - 1)
  {
    hide Out;
    assert InTurn(ps)[..n] == InTurn(ps[..n]);
    OutPrefix(lim, [], InTurn(ps), n, n - 1);
  }

  lemma {:induction false} NobodyElse(ps: seq<Packet>, key: Key, lim: Limits)
    requires Fragments(ps, key) && lim.datagrams > 0
    requires forall i :: 0 <= i < |ps| ==> WellFormed(ps[i]) && ps[i].words == 5
    requires PbufCount(FragsOf(ps)) <= lim.pbufs
    ensures Events(InTurn(ps)) && Undisturbed(lim, [], InTurn(ps), key, 0)
  {
    FragmentsWellFormed(ps, key);
    FragmentsCut(ps, key);
    hide Fragments, FragsOf, State, Entry;
    var evs := InTurn(ps);
    assert FragsOf(ps)[0].clen == ps[0].clen;
    NoSecondsIn(evs);
    assert evs[0..] == evs;
    assert State(lim, [], evs[..0]) == [] by { Begins(lim, evs); }
  }

  lemma {:induction false} Begins(lim: Limits, evs: seq<Event>)
    requires Events(evs)
    ensures State(lim, [], evs[..0]) == []
  {
  }

  lemma {:induction false} NoSecondsIn(evs: seq<Event>)
    requires forall k :: 0 <= k < |evs| ==> evs[k].Arrive?
    ensures Seconds(evs) == 0
  {
    if evs != [] { NoSecondsIn(evs[..|evs| - 1]); }
  }
}
