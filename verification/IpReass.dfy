/** ip4_reass: the list of datagrams under reassembly, its bounded pbuf budget with eviction of the oldest, and the
    reassembly timer. */
module IpReass {
  import opened Basics
  import opened ReassQueue

  datatype Key = Key(src: u32, dest: u32, id: u16)

  // an IP header: what identifies the datagram, the 13-bit offset field, everything else
  datatype Header = Header(key: Key, offset: nat, other: int)

  // an incoming fragment: header, header length in words, MF flag, payload, pbufs in its chain
  datatype Packet = Packet(header: Header, words: nat, mf: bool, data: seq<byte>, clen: nat)

  datatype Datagram = Datagram(header: Header, timer: nat, last: bool, length: u16, frags: seq<Frag>)

  datatype Delivered = Delivered(header: Header, totalLength: u16, data: seq<byte>)

  ghost predicate WellFormed(p: Packet) {
    p.header.offset < 0x2000 && p.clen >= 1 && |p.data| <= 0xffff
  }

  // ---------- one datagram ----------

  function FragOf(p: Packet): Frag
    requires WellFormed(p)
  {
    Frag(8 * p.header.offset, (8 * p.header.offset + |p.data|) % 0x1_0000, p.data, p.clen)
  }

  // the header of the first fragment replaces any other; a fragment without MF sets the length
  function Noted(d: Datagram, p: Packet): Datagram
    requires WellFormed(p)
  {
    var header := if p.header.offset == 0 && d.header.offset != 0 then p.header else d.header;
    if p.mf then d.(header := header)
    else d.(header := header, last := true, length := FragOf(p).end)
  }

  function Complete(d: Datagram): Delivered {
    Delivered(d.header.(offset := 0), (d.length + 20) % 0x1_0000, Payload(d.frags))
  }

  /** What an accepted fragment does to its datagram, and what is handed up. */
  ghost function Receive(d: Datagram, p: Packet): (Datagram, Option<Delivered>)
    requires WellFormed(p)
  {
    var n := Noted(d, p);
    match Chained(d.frags, FragOf(p), n.last)
    case Dropped => (n, None)
    case Queued(q, valid) =>
      var n' := n.(frags := q);
      (n', if valid then Some(Complete(n')) else None)
  }

  // ---------- the list ----------

  function Find(ds: seq<Datagram>, key: Key): (i: nat)
    ensures i <= |ds| && (i < |ds| ==> ds[i].header.key == key)
    ensures forall j :: 0 <= j < i ==> ds[j].header.key != key
  {
    if ds == [] || ds[0].header.key == key then 0 else 1 + Find(ds[1..], key)
  }

  predicate Has(ds: seq<Datagram>, key: Key) { Find(ds, key) < |ds| }

  function Fresh(p: Packet, maxAge: nat): Datagram {
    Datagram(p.header, maxAge, false, 0, [])
  }

  function Removed<T>(s: seq<T>, i: nat): seq<T>
    requires i < |s|
  {
    s[..i] + s[i + 1..]
  }

  // the list after its datagram took the fragment in; a new datagram goes to the front
  ghost function Accept(ds: seq<Datagram>, p: Packet, maxAge: nat): (seq<Datagram>, Option<Delivered>)
    requires WellFormed(p)
  {
    var i := Find(ds, p.header.key);
    var ds0 := if i < |ds| then ds else [Fresh(p, maxAge)] + ds;
    var i0 := if i < |ds| then i else 0;
    var (d, r) := Receive(ds0[i0], p);
    (if r.Some? then Removed(ds0, i0) else ds0[i0 := d], r)
  }

  function PbufTotal(ds: seq<Datagram>): nat {
    if ds == [] then 0 else PbufCount(ds[0].frags) + PbufTotal(ds[1..])
  }

  ghost predicate UniqueKeys(ds: seq<Datagram>) {
    forall i, j :: 0 <= i < j < |ds| ==> ds[i].header.key != ds[j].header.key
  }

  // at least one pbuf, and the 16-bit end that goes with the payload
  predicate Sound(f: Frag) { f.clen >= 1 && |f.data| <= 0xffff && f.end == (f.start + |f.data|) % 0x1_0000 }

  // strictly increasing starts, at least one fragment, each of them sound
  ghost predicate GoodQueue(d: Datagram) {
    d.frags != [] && Sorted(d.frags) && forall f :: f in d.frags ==> Sound(f)
  }

  ghost predicate GoodList(ds: seq<Datagram>, maxAge: nat) {
    UniqueKeys(ds) && forall d :: d in ds ==> GoodQueue(d) && d.timer <= maxAge
  }

  function Aged(ds: seq<Datagram>): seq<Datagram> {
    if ds == [] then []
    else (if ds[0].timer > 0 then [ds[0].(timer := ds[0].timer - 1)] else []) + Aged(ds[1..])
  }

  function Without(ds: seq<Datagram>, gone: set<Key>): seq<Datagram> {
    if ds == [] then []
    else (if ds[0].header.key in gone then [] else [ds[0]]) + Without(ds[1..], gone)
  }

  // ---------- lemmas about lists ----------

  lemma {:induction false} PbufTotalSplit(ds: seq<Datagram>, i: nat)
    requires i < |ds|
    ensures PbufTotal(ds) == PbufTotal(Removed(ds, i)) + PbufCount(ds[i].frags)
  {
    if i > 0 {
      PbufTotalSplit(ds[1..], i - 1);
      assert Removed(ds, i)[1..] == Removed(ds[1..], i - 1);
    } else {
      assert Removed(ds, 0) == ds[1..];
    }
  }

  lemma {:induction false} PbufTotalUpdate(ds: seq<Datagram>, i: nat, d: Datagram)
    requires i < |ds|
    ensures PbufTotal(ds[i := d]) == PbufTotal(ds) - PbufCount(ds[i].frags) + PbufCount(d.frags)
  {
    PbufTotalSplit(ds, i);
    PbufTotalSplit(ds[i := d], i);
    assert Removed(ds[i := d], i) == Removed(ds, i);
  }

  lemma {:induction false} PbufCountInsert(q: seq<Frag>, f: Frag, p: nat)
    requires p <= |q|
    ensures PbufCount(q[..p] + [f] + q[p..]) == PbufCount(q) + f.clen
  {
    var c := q[..p] + [f] + q[p..];
    if p == 0 {
      assert c[1..] == q;
    } else {
      PbufCountInsert(q[1..], f, p - 1);
      assert c[1..] == q[1..][..p - 1] + [f] + q[1..][p - 1..];
    }
  }

  lemma {:induction false} RemovedIsWithout(ds: seq<Datagram>, i: nat)
    requires i < |ds| && UniqueKeys(ds)
    ensures Removed(ds, i) == Without(ds, {ds[i].header.key})
    decreases |ds|
  {
    var k := ds[i].header.key;
    if i == 0 {
      assert Removed(ds, 0) == ds[1..];
      NothingGone(ds[1..], {k});
    } else {
      RemovedIsWithout(ds[1..], i - 1);
      assert Removed(ds, i) == [ds[0]] + Removed(ds[1..], i - 1);
    }
  }

  lemma {:induction false} NothingGone(ds: seq<Datagram>, gone: set<Key>)
    requires forall d :: d in ds ==> d.header.key !in gone
    ensures Without(ds, gone) == ds
  {
    if ds != [] {
      NothingGone(ds[1..], gone);
    }
  }

  lemma {:induction false} WithoutTwice(ds: seq<Datagram>, a: set<Key>, b: set<Key>)
    ensures Without(Without(ds, a), b) == Without(ds, a + b)
  {
    if ds != [] {
      WithoutTwice(ds[1..], a, b);
      if ds[0].header.key in a {
        assert Without(ds, a) == Without(ds[1..], a);
        assert Without(ds, a + b) == Without(ds[1..], a + b);
      } else {
        assert Without(ds, a)[1..] == Without(ds[1..], a);
      }
    }
  }

  lemma {:induction false} WithoutMembers(ds: seq<Datagram>, gone: set<Key>)
    ensures forall d :: d in Without(ds, gone) <==> d in ds && d.header.key !in gone
    ensures |Without(ds, gone)| <= |ds|
    ensures PbufTotal(Without(ds, gone)) <= PbufTotal(ds)
  {
    if ds != [] {
      WithoutMembers(ds[1..], gone);
      if ds[0].header.key in gone {
        assert Without(ds, gone) == Without(ds[1..], gone);
      } else {
        assert Without(ds, gone)[1..] == Without(ds[1..], gone);
        assert Without(ds, gone)[0] == ds[0];
      }
    }
  }

  lemma {:induction false} AgedMembers(ds: seq<Datagram>)
    ensures forall d :: d in Aged(ds) ==> exists e :: e in ds && e.timer > 0 && d == e.(timer := e.timer - 1)
    ensures PbufTotal(Aged(ds)) <= PbufTotal(ds) && |Aged(ds)| <= |ds|
  {
    if ds != [] {
      AgedMembers(ds[1..]);
      if ds[0].timer > 0 {
        assert Aged(ds)[1..] == Aged(ds[1..]);
      } else {
        assert Aged(ds) == Aged(ds[1..]);
      }
    }
  }

  lemma {:induction false} AgedUnique(ds: seq<Datagram>)
    requires UniqueKeys(ds)
    ensures UniqueKeys(Aged(ds))
  {
    if ds != [] {
      AgedUnique(ds[1..]);
      AgedMembers(ds[1..]);
      if ds[0].timer > 0 {
        var rest := Aged(ds[1..]);
        assert Aged(ds) == [ds[0].(timer := ds[0].timer - 1)] + rest;
        forall j | 0 <= j < |rest|
          ensures rest[j].header.key != ds[0].header.key
        {
          assert rest[j] in rest;
        }
      } else {
        assert Aged(ds) == Aged(ds[1..]);
      }
    }
  }

  /** A fragment does not give its datagram more time. */
  lemma {:induction false} ReceiveKeepsTimer(d: Datagram, p: Packet)
    requires WellFormed(p)
    ensures Receive(d, p).0.timer == d.timer && d.timer == Receive(Fresh(p, d.timer), p).0.timer
  {
  }

  // ---------- eviction ----------

  predicate Other(d: Datagram, key: Key) { d.header.key != key }

  // the entry of another datagram with the least timer, the last one of several
  ghost predicate Oldest(ds: seq<Datagram>, key: Key, i: nat) {
    i < |ds| && Other(ds[i], key) &&
    forall j :: 0 <= j < |ds| && Other(ds[j], key) ==>
      ds[i].timer <= ds[j].timer && (j > i ==> ds[i].timer < ds[j].timer)
  }

  function Others(ds: seq<Datagram>, key: Key): nat {
    if ds == [] then 0 else (if Other(ds[0], key) then 1 else 0) + Others(ds[1..], key)
  }

  lemma {:induction false} OthersSplit(ds: seq<Datagram>, key: Key, i: nat)
    requires i < |ds|
    ensures Others(ds, key) == Others(Removed(ds, i), key) + if Other(ds[i], key) then 1 else 0
    ensures Others(ds[..i + 1], key) == Others(ds[..i], key) + if Other(ds[i], key) then 1 else 0
  {
    if i > 0 {
      OthersSplit(ds[1..], key, i - 1);
      assert Removed(ds, i)[1..] == Removed(ds[1..], i - 1);
      assert ds[..i + 1][1..] == ds[1..][..i] && ds[..i][1..] == ds[1..][..i - 1];
    } else {
      assert Removed(ds, 0) == ds[1..];
      assert ds[..1][1..] == [] && ds[..0] == [];
    }
  }

  lemma {:induction false} NoOthers(ds: seq<Datagram>, key: Key)
    ensures Others(ds, key) == 0 <==> forall d :: d in ds ==> !Other(d, key)
  {
    if ds != [] {
      NoOthers(ds[1..], key);
    }
  }

  // the pbufs of the datagram of `key`
  function OwnPbufs(ds: seq<Datagram>, key: Key): nat {
    if ds == [] then 0 else (if Other(ds[0], key) then 0 else PbufCount(ds[0].frags)) + OwnPbufs(ds[1..], key)
  }

  lemma {:induction false} OwnAmongAll(ds: seq<Datagram>, key: Key)
    ensures OwnPbufs(ds, key) <= PbufTotal(ds)
    ensures Others(ds, key) == 0 ==> OwnPbufs(ds, key) == PbufTotal(ds)
  {
    if ds != [] {
      OwnAmongAll(ds[1..], key);
    }
  }

  lemma {:induction false} OwnStays(ds: seq<Datagram>, gone: set<Key>, key: Key)
    requires key !in gone
    ensures OwnPbufs(Without(ds, gone), key) == OwnPbufs(ds, key)
  {
    if ds != [] {
      OwnStays(ds[1..], gone, key);
      var rest := Without(ds[1..], gone);
      assert ([ds[0]] + rest)[1..] == rest;
      assert [] + rest == rest;
    }
  }

  lemma {:induction false} AllOthers(ds: seq<Datagram>, key: Key)
    requires !Has(ds, key)
    ensures Others(ds, key) == |ds| && PbufTotal([]) == 0
  {
    if ds != [] {
      AllOthers(ds[1..], key);
    }
  }

  // what eviction on behalf of `key` may have done to the list
  ghost predicate Evicted(before: seq<Datagram>, after: seq<Datagram>, gone: set<Key>, key: Key) {
    && key !in gone
    && after == Without(before, gone)
    && forall d, e :: d in before && d.header.key in gone && e in after && Other(e, key) ==> d.timer <= e.timer
  }

  // d went last: it is one of those that went, and none of them was younger
  ghost predicate Youngest(before: seq<Datagram>, gone: set<Key>, d: Datagram) {
    && d in before && d.header.key in gone
    && forall e :: e in before && e.header.key in gone ==> e.timer <= d.timer
  }

  lemma {:induction false} EvictedNothing(ds: seq<Datagram>, key: Key)
    ensures Evicted(ds, ds, {}, key)
  {
    NothingGone(ds, {});
  }

  lemma {:induction false} RemovedMember<T>(s: seq<T>, i: nat, j: nat) returns (k: nat)
    requires i < |s| && j < |s| - 1
    ensures k < |s| && k != i && Removed(s, i)[j] == s[k] && (k < i <==> j < i)
    ensures k == if j < i then j else j + 1
  {
    k := if j < i then j else j + 1;
  }

  lemma {:induction false} RemovedUnique(ds: seq<Datagram>, i: nat)
    requires UniqueKeys(ds) && i < |ds|
    ensures UniqueKeys(Removed(ds, i))
    ensures forall e :: e in Removed(ds, i) ==> e in ds
  {
    forall a, b | 0 <= a < b < |ds| - 1
      ensures Removed(ds, i)[a].header.key != Removed(ds, i)[b].header.key
    {
      var a' := RemovedMember(ds, i, a);
      var b' := RemovedMember(ds, i, b);
    }
  }

  // removing the oldest of the others continues an eviction
  lemma {:induction false} EvictedStep(before: seq<Datagram>, now: seq<Datagram>, gone: set<Key>, key: Key, i: nat)
    requires UniqueKeys(now) && Evicted(before, now, gone, key) && Oldest(now, key, i)
    ensures Evicted(before, Removed(now, i), gone + {now[i].header.key}, key)
  {
    hide Without, UniqueKeys, Removed, Oldest;
    OldestIndex(now, key, i);
    var k := now[i].header.key;
    RemovedIsWithout(now, i);
    WithoutTwice(before, gone, {k});
    forall d, e | d in before && d.header.key in gone + {k} && e in Removed(now, i) && Other(e, key)
      ensures d.timer <= e.timer
    {
      OldestGoesFirst(before, now, gone, key, i, d, e);
    }
  }

  lemma {:induction false} OldestGoesFirst(before: seq<Datagram>, now: seq<Datagram>, gone: set<Key>, key: Key, i: nat,
                                           d: Datagram, e: Datagram)
    requires UniqueKeys(now) && Evicted(before, now, gone, key) && Oldest(now, key, i)
    requires d in before && d.header.key in gone + {now[i].header.key} && e in Removed(now, i) && Other(e, key)
    ensures d.timer <= e.timer
  {
    RemovedUnique(now, i);
    if d.header.key !in gone {
      WithoutMembers(before, gone);
      SameKey(now, i, d);
    }
  }

  lemma {:induction false} VictimIsYoungest(before: seq<Datagram>, now: seq<Datagram>, gone: set<Key>, key: Key, i: nat)
    requires UniqueKeys(before) && Evicted(before, now, gone, key) && Oldest(now, key, i)
    ensures Youngest(before, gone + {now[i].header.key}, now[i])
  {
    WithoutMembers(before, gone);
    var d := now[i];
    assert d in now;
    forall e | e in before && e.header.key in gone + {d.header.key} ensures e.timer <= d.timer {
      if e.header.key == d.header.key { SameMember(before, d, e); }
    }
  }

  lemma {:induction false} GoodIsUnique(ds: seq<Datagram>, maxAge: nat)
    requires GoodList(ds, maxAge)
    ensures UniqueKeys(ds)
  {
  }

  lemma {:induction false} SameMember(ds: seq<Datagram>, d: Datagram, e: Datagram)
    requires UniqueKeys(ds) && d in ds && e in ds && d.header.key == e.header.key
    ensures d == e
  {
  }

  lemma {:induction false} SameKey(ds: seq<Datagram>, i: nat, d: Datagram)
    requires i < |ds| && d in ds && d.header.key == ds[i].header.key && UniqueKeys(ds)
    ensures d == ds[i]
  {
  }

  // ---------- a fragment and the limits ----------

  /** IP_REASS_MAX_PBUFS, MEMP_NUM_REASSDATA and IP_REASS_MAXAGE. */
  datatype Limits = Limits(pbufs: nat, datagrams: nat, age: nat)

  // the entry of another datagram with the least timer among the first n, the last of several
  function OldestOther(ds: seq<Datagram>, key: Key, n: nat): (o: Option<nat>)
    requires n <= |ds|
    ensures o.Some? ==> o.value < n && Other(ds[o.value], key)
  {
    if n == 0 then None
    else
      var o := OldestOther(ds, key, n - 1);
      if Other(ds[n - 1], key) && (o.None? || ds[n - 1].timer <= ds[o.value].timer) then Some(n - 1) else o
  }

  lemma {:induction false} OldestOtherIs(ds: seq<Datagram>, key: Key, n: nat)
    requires n <= |ds|
    ensures var o := OldestOther(ds, key, n);
            if o.None? then forall j :: 0 <= j < n ==> !Other(ds[j], key)
            else forall j :: 0 <= j < n && Other(ds[j], key) ==>
                   ds[o.value].timer <= ds[j].timer && (j > o.value ==> ds[o.value].timer < ds[j].timer)
  {
    if n > 0 { OldestOtherIs(ds, key, n - 1); }
  }

  // what the eviction loop leaves, with `freed` pbufs freed already
  function Evict(ds: seq<Datagram>, key: Key, freed: nat, needed: nat): seq<Datagram>
    decreases |ds|
  {
    var o := OldestOther(ds, key, |ds|);
    if o.None? then ds
    else
      var now, f := Removed(ds, o.value), freed + PbufCount(ds[o.value].frags);
      if f < needed && Others(ds, key) > 1 then Evict(now, key, f, needed) else now
  }

  // there is a place for the fragment without evicting anything
  ghost predicate Room(lim: Limits, ds: seq<Datagram>, p: Packet) {
    PbufTotal(ds) + p.clen <= lim.pbufs && (Has(ds, p.header.key) || |ds| < lim.datagrams)
  }

  /** With its own datagram there is room for the fragment, and if it needs an entry, one is free, becomes free when
      pbufs are short, or is bought with at least as many pbufs as the fragment has. */
  ghost predicate Acceptable(lim: Limits, ds: seq<Datagram>, p: Packet) {
    var key, total := p.header.key, PbufTotal(ds);
    && p.words == 5
    && OwnPbufs(ds, key) + p.clen <= lim.pbufs
    && (Has(ds, key) || |ds| < lim.datagrams || total + p.clen > lim.pbufs || total >= p.clen)
  }

  // what ip4_reass does to the list, and what it hands up
  ghost function Serve(lim: Limits, ds: seq<Datagram>, p: Packet): (seq<Datagram>, Option<Delivered>)
    requires WellFormed(p)
  {
    var key := p.header.key;
    var short := PbufTotal(ds) + p.clen > lim.pbufs;
    var ds1 := if short then Evict(ds, key, 0, p.clen) else ds;
    if p.words * 4 != 20 then (ds, None)
    else if short && (PbufTotal(ds1) == PbufTotal(ds) || PbufTotal(ds1) + p.clen > lim.pbufs) then (ds1, None)
    else if !Has(ds1, key) && |ds1| == lim.datagrams then
      var ds2 := Evict(ds1, key, 0, p.clen);
      if PbufTotal(ds1) - PbufTotal(ds2) < p.clen then (ds2, None) else Accept(ds2, p, lim.age)
    else Accept(ds1, p, lim.age)
  }

  // the list is in order and within the limits
  ghost predicate Fit(lim: Limits, ds: seq<Datagram>) {
    GoodList(ds, lim.age) && PbufTotal(ds) <= lim.pbufs && |ds| <= lim.datagrams
  }

  // one round of the eviction loop
  lemma {:induction false} EvictRound(before: seq<Datagram>, now: seq<Datagram>, gone: set<Key>, key: Key, age: nat)
    requires UniqueKeys(before) && GoodList(now, age) && Evicted(before, now, gone, key)
    ensures OldestOther(now, key, |now|).None? <==> Others(now, key) == 0
    ensures var o := OldestOther(now, key, |now|);
            o.Some? ==>
              var i, d := o.value, now[o.value];
              && Evicted(before, Removed(now, i), gone + {d.header.key}, key)
                  && Youngest(before, gone + {d.header.key}, d)
              && GoodList(Removed(now, i), age) && PbufCount(d.frags) > 0
              && PbufTotal(Removed(now, i)) == PbufTotal(now) - PbufCount(d.frags)
              && Others(Removed(now, i), key) == Others(now, key) - 1
  {
    hide Evicted, Without, OldestOther, PbufTotal, Others, Removed, Youngest;
    OldestOtherIs(now, key, |now|);
    NoOthers(now, key);
    var o := OldestOther(now, key, |now|);
    if o.Some? {
      var i := o.value;
      assert Oldest(now, key, i);
      assert now[i] in now;
      VictimIsYoungest(before, now, gone, key, i);
      EvictedStep(before, now, gone, key, i);
      RemovedUnique(now, i);
      OthersSplit(now, key, i);
      PbufTotalSplit(now, i);
      GoodCount(now[i]);
    }
  }

  // the loop from `now` on, after `freed` pbufs
  lemma {:induction false} EvictFrom(before: seq<Datagram>, now: seq<Datagram>, gone0: set<Key>, key: Key, freed: nat,
                                     needed: nat, age: nat) returns (gone: set<Key>, last: Option<Datagram>)
    requires UniqueKeys(before) && GoodList(now, age) && Evicted(before, now, gone0, key) && freed < needed
    ensures var after := Evict(now, key, freed, needed);
            && Evicted(before, after, gone, key) && GoodList(after, age) && PbufTotal(after) <= PbufTotal(now)
            && (freed + PbufTotal(now) - PbufTotal(after) >= needed || Others(after, key) == 0)
            && (if Others(now, key) == 0 then after == now && gone == gone0 && last == None
                else |after| < |now| && PbufTotal(after) < PbufTotal(now) && last.Some?
                     && Youngest(before, gone, last.value)
                     && freed + PbufTotal(now) - PbufTotal(after) - PbufCount(last.value.frags) < needed)
    decreases |now|
  {
    hide Evicted, Youngest, GoodList, UniqueKeys, OldestOther, Others, PbufTotal;
    EvictRound(before, now, gone0, key, age);
    var o := OldestOther(now, key, |now|);
    gone, last := gone0, None;
    if o.Some? {
      var d := now[o.value];
      var f := freed + PbufCount(d.frags);
      gone, last := gone0 + {d.header.key}, Some(d);
      if f < needed && Others(now, key) > 1 {
        gone, last := EvictFrom(before, Removed(now, o.value), gone, key, f, needed, age);
      }
    }
  }

  /** The eviction loop frees other datagrams, oldest first, until enough pbufs are free or none is left, and no
      more. */
  lemma {:induction false} EvictFacts(ds: seq<Datagram>, key: Key, needed: nat, age: nat) returns (gone: set<Key>)
    requires GoodList(ds, age) && needed > 0
    ensures var after := Evict(ds, key, 0, needed);
            && Evicted(ds, after, gone, key) && GoodList(after, age)
            && |after| <= |ds| && PbufTotal(after) <= PbufTotal(ds)
            && (PbufTotal(ds) - PbufTotal(after) >= needed || Others(after, key) == 0)
            && (gone != {} ==>
                  exists d :: Youngest(ds, gone, d)
                              && PbufTotal(ds) - PbufTotal(after) - PbufCount(d.frags) < needed)
            && (if Others(ds, key) == 0 then after == ds && gone == {}
                else |after| < |ds| && PbufTotal(after) < PbufTotal(ds))
  {
    hide Evicted, Youngest, GoodList, Evict, Others;
    EvictedNothing(ds, key);
    GoodIsUnique(ds, age);
    var last;
    gone, last := EvictFrom(ds, ds, {}, key, 0, needed, age);
  }

  /** What ip4_reass does to the list: a fragment without IP options is accepted exactly if it is acceptable, and what
      has to go for it is evicted. */
  lemma {:induction false} ServeCases(lim: Limits, ds: seq<Datagram>, p: Packet) returns (gone: set<Key>)
    requires Fit(lim, ds) && WellFormed(p)
    ensures var ds1 := Without(ds, gone);
            && Evicted(ds, ds1, gone, p.header.key) && Fit(lim, ds1)
            && (if Acceptable(lim, ds, p) then Room(lim, ds1, p) && Serve(lim, ds, p) == Accept(ds1, p, lim.age)
                else Serve(lim, ds, p) == (ds1, None))
            && (p.words == 5 && Room(lim, ds, p) ==> Acceptable(lim, ds, p))
            && (p.words != 5 || Room(lim, ds, p) ==> gone == {} && ds1 == ds)
  {
    hide Evicted, Without, Evict, Accept, GoodList, OwnPbufs, PbufTotal, Others, Find;
    var key := p.header.key;
    gone := {};
    EvictedNothing(ds, key);
    WithoutNothing(ds);
    OwnAmongAll(ds, key);
    var ds1 := ds;
    if p.words == 5 {
      if PbufTotal(ds) + p.clen > lim.pbufs {
        gone := EvictFacts(ds, key, p.clen, lim.age);
        ds1 := Evict(ds, key, 0, p.clen);
        EvictedIs(ds, ds1, gone, key);
        OwnStays(ds, gone, key);
        OwnAmongAll(ds1, key);
        StillHas(ds, gone, key);
      } else if !Has(ds, key) && |ds| == lim.datagrams {
        gone := EvictFacts(ds, key, p.clen, lim.age);
        ds1 := Evict(ds, key, 0, p.clen);
        EvictedIs(ds, ds1, gone, key);
        StillHas(ds, gone, key);
        AllOthers(ds1, key);
        AllOthers(ds, key);
      }
    }
  }

  class Reassembler {
    const lim: Limits
    var datagrams: seq<Datagram>
    var pbufCount: nat

    ghost predicate Valid()
      reads this
    {
      Fit(lim, datagrams) && pbufCount == PbufTotal(datagrams)
    }

    constructor (lim: Limits)
      ensures Valid() && datagrams == [] && this.lim == lim
    {
      this.lim, datagrams, pbufCount := lim, [], 0;
    }

    // the scan for the oldest entry of another datagram
    method FindOldest(key: Key) returns (oldest: nat, others: nat)
      ensures others == Others(datagrams, key)
      ensures others > 0 ==> OldestOther(datagrams, key, |datagrams|) == Some(oldest) && Oldest(datagrams, key, oldest)
    {
      oldest, others := |datagrams|, 0;
      for r := 0 to |datagrams|
        invariant others == Others(datagrams[..r], key)
        invariant others == 0 <==> OldestOther(datagrams, key, r) == None
        invariant oldest == (if others == 0 then |datagrams| else OldestOther(datagrams, key, r).value)
      {
        OthersSplit(datagrams, key, r);
        if Other(datagrams[r], key) {
          others := others + 1;
          if oldest == |datagrams| || datagrams[r].timer <= datagrams[oldest].timer {
            oldest := r;
          }
        }
      }
      OldestOtherIs(datagrams, key, |datagrams|);
      assert datagrams[..|datagrams|] == datagrams;
    }

    // one round of the eviction loop; `others` counts before the removal
    method EvictOne(key: Key) returns (freed: nat, others: nat)
      requires Valid()
      modifies this
      ensures Valid() && freed == old(pbufCount) - pbufCount
      ensures others == old(Others(datagrams, key))
      ensures others == 0 ==> datagrams == old(datagrams)
      ensures others > 0 ==>
                var o := OldestOther(old(datagrams), key, |old(datagrams)|);
                && o.Some? && Oldest(old(datagrams), key, o.value) && datagrams == Removed(old(datagrams), o.value)
                && freed == PbufCount(old(datagrams)[o.value].frags) && Others(datagrams, key) == others - 1
    {
      hide Evicted, GoodList, Others, PbufTotal, OldestOther;
      ghost var now := datagrams;
      EvictedNothing(now, key);
      GoodIsUnique(now, lim.age);
      EvictRound(now, now, {}, key, lim.age);
      var oldest;
      oldest, others := FindOldest(key);
      freed := 0;
      if others > 0 {
        freed := PbufCount(datagrams[oldest].frags);
        datagrams := Removed(datagrams, oldest);
        pbufCount := pbufCount - freed;
      }
    }

    /** ip_reass_remove_oldest_datagram: frees other datagrams, oldest first, until enough pbufs are free or no other
        datagram is left, and no more than that; the datagram of `key` stays. */
    method RemoveOldest(key: Key, needed: nat) returns (freed: nat, ghost gone: set<Key>)
      requires Valid() && needed > 0
      modifies this
      ensures Valid() && datagrams == Evict(old(datagrams), key, 0, needed)
      ensures Evicted(old(datagrams), datagrams, gone, key)
      ensures freed == old(pbufCount) - pbufCount
      ensures freed >= needed || Others(datagrams, key) == 0
      ensures gone != {} ==> exists d :: Youngest(old(datagrams), gone, d) && freed - PbufCount(d.frags) < needed
      ensures Others(old(datagrams), key) > 0 ==> |datagrams| < |old(datagrams)| && freed > 0
      ensures Others(old(datagrams), key) == 0 ==> datagrams == old(datagrams)
    {
      hide Evicted, GoodList, Youngest, Others, OldestOther, PbufTotal, Evict, Removed, PbufCount;
      ghost var before := datagrams;
      gone := EvictFacts(before, key, needed, lim.age);
      EvictUnfold(before, key, 0, needed);
      freed := 0;
      var freedNow, others;
      freedNow, others := EvictOne(key);
      freed := freed + freedNow;
      while freed < needed && others > 1
        invariant Valid() && freed == old(pbufCount) - pbufCount
        invariant others > 0 ==> Others(datagrams, key) == others - 1
        invariant Evict(before, key, 0, needed) ==
                  if freed < needed && others > 1 then Evict(datagrams, key, freed, needed) else datagrams
        decreases others
      {
        EvictUnfold(datagrams, key, freed, needed);
        freedNow, others := EvictOne(key);
        freed := freed + freedNow;
      }
    }

    /** ip_reass_tmr */
    method Tick()
      requires Valid()
      modifies this
      ensures Valid() && datagrams == Aged(old(datagrams))
    {
      hide UniqueKeys, Aged, PbufTotal, GoodList;
      ghost var before := datagrams;
      AgedGood(before, lim.age);
      var r := 0;
      assert datagrams[0..] == datagrams;
      while r < |datagrams|
        invariant r <= |datagrams| && datagrams[..r] + Aged(datagrams[r..]) == Aged(before)
        invariant pbufCount == PbufTotal(datagrams)
        decreases |datagrams| - r
      {
        AgedStep(datagrams, r);
        if datagrams[r].timer > 0 {
          PbufTotalUpdate(datagrams, r, datagrams[r].(timer := datagrams[r].timer - 1));
          datagrams := datagrams[r := datagrams[r].(timer := datagrams[r].timer - 1)];
          r := r + 1;
        } else {
          PbufTotalSplit(datagrams, r);
          pbufCount := pbufCount - PbufCount(datagrams[r].frags);
          datagrams := Removed(datagrams, r);
        }
      }
      AgedEnd(datagrams);
      assert datagrams == Aged(before);
    }

    /** ip4_reass. A fragment without IP options is accepted exactly if there is room for it with its own datagram
        alone, and an entry for it; what has to go for it is evicted. */
    method Reass(p: Packet) returns (r: Option<Delivered>, ghost accepted: bool, ghost gone: set<Key>)
      requires Valid() && WellFormed(p)
      modifies this
      ensures Valid() && (datagrams, r) == Serve(lim, old(datagrams), p)
      ensures Evicted(old(datagrams), Without(old(datagrams), gone), gone, p.header.key)
      ensures accepted ==> p.words == 5
                           && Room(lim, Without(old(datagrams), gone), p)
                           && (datagrams, r) == Accept(Without(old(datagrams), gone), p, lim.age)
      ensures !accepted ==> r == None && datagrams == Without(old(datagrams), gone)
      ensures accepted <==> Acceptable(lim, old(datagrams), p)
      ensures p.words == 5 && Room(lim, old(datagrams), p) ==>
                accepted && gone == {} && (datagrams, r) == Accept(old(datagrams), p, lim.age)
    {
      hide Evicted, Without, Accept, GoodList, OwnPbufs, PbufTotal, Others, Find, Evict;
      ghost var before := datagrams;
      gone := ServeCases(lim, before, p);
      accepted := Acceptable(lim, before, p);
      r := None;
      if p.words * 4 != 20 {
        return;
      }
      var freed;
      if pbufCount + p.clen > lim.pbufs {
        ghost var g;
        freed, g := RemoveOldest(p.header.key, p.clen);
        if freed == 0 || pbufCount + p.clen > lim.pbufs {
          return;
        }
      }
      if Find(datagrams, p.header.key) == |datagrams| && |datagrams| == lim.datagrams {
        ghost var g;
        freed, g := RemoveOldest(p.header.key, p.clen);
        if freed < p.clen {
          return;
        }
      }
      r := Take(p);
    }

    // the rest of ip4_reass, once there is room
    method Take(p: Packet) returns (r: Option<Delivered>)
      requires Valid() && WellFormed(p) && Room(lim, datagrams, p)
      modifies this
      ensures Valid() && (datagrams, r) == Accept(old(datagrams), p, lim.age)
    {
      hide GoodList, GoodBut, Chained, PbufTotal, Payload, Sorted, FragOf, Noted;
      ghost var before := datagrams;
      AcceptFit(lim, before, p);
      var i := Find(datagrams, p.header.key);
      if i == |datagrams| {
        datagrams := [Fresh(p, lim.age)] + datagrams;
        i := 0;
      }
      ghost var ds0 := datagrams;
      PlaceGood(before, p, lim.age, ds0, i);
      TakenGood(ds0, i, p, lim.age);
      pbufCount := pbufCount + p.clen;
      var d := Noted(datagrams[i], p);
      var chained := Chain(d.frags, FragOf(p), d.last);
      r := None;
      match chained {
        case Dropped =>
          pbufCount := pbufCount - p.clen;
          datagrams := datagrams[i := d];
        case Queued(q, valid) =>
          d := d.(frags := q);
          if valid {
            r := Some(Complete(d));
            datagrams := Removed(datagrams, i);
            pbufCount := pbufCount - PbufCount(q);
          } else {
            datagrams := datagrams[i := d];
          }
      }
    }
  }

  // the entry after it took the fragment in, and the list with it or without it
  lemma {:induction false} TakenGood(ds: seq<Datagram>, i: nat, p: Packet, maxAge: nat)
    requires WellFormed(p) && i < |ds| && GoodBut(ds, i, maxAge) && ds[i].header.key == p.header.key
    requires Sorted(ds[i].frags) && forall f :: f in ds[i].frags ==> Sound(f)
    ensures var n := Noted(ds[i], p);
            && n.frags == ds[i].frags && n.timer == ds[i].timer && n.header.key == p.header.key
            && match Chained(n.frags, FragOf(p), n.last)
               case Dropped => GoodList(ds[i := n], maxAge) && PbufTotal(ds[i := n]) == PbufTotal(ds)
               case Queued(q, valid) =>
                 && PbufTotal(Removed(ds, i)) == PbufTotal(ds) + p.clen - PbufCount(q)
                 && PbufTotal(ds[i := n.(frags := q)]) == PbufTotal(ds) + p.clen
                 && GoodList(Removed(ds, i), maxAge) && GoodList(ds[i := n.(frags := q)], maxAge)
  {
    hide GoodBut, Chained, GoodList, PbufTotal, Sorted;
    GoodButTimer(ds, i, maxAge);
    var n := Noted(ds[i], p);
    ChainedGood(n.frags, FragOf(p), n.last);
    RemoveGood(ds, i, maxAge);
    match Chained(n.frags, FragOf(p), n.last)
    case Dropped => UpdateGood(ds, i, n, maxAge);
    case Queued(q, valid) => UpdateGood(ds, i, n.(frags := q), maxAge);
  }

  lemma {:induction false} GoodButTimer(ds: seq<Datagram>, i: nat, maxAge: nat)
    requires GoodBut(ds, i, maxAge)
    ensures i < |ds| && ds[i].timer <= maxAge
  {
  }

  /** Where there is room, the list stays in order and within the limits. */
  lemma {:induction false} AcceptFit(lim: Limits, ds: seq<Datagram>, p: Packet)
    requires Fit(lim, ds) && WellFormed(p) && Room(lim, ds, p)
    ensures Fit(lim, Accept(ds, p, lim.age).0)
  {
    hide GoodList, GoodBut, Chained, PbufTotal, FragOf, Noted;
    var i := Find(ds, p.header.key);
    var ds0 := if i < |ds| then ds else [Fresh(p, lim.age)] + ds;
    var i0 := if i < |ds| then i else 0;
    PlaceGood(ds, p, lim.age, ds0, i0);
    TakenGood(ds0, i0, p, lim.age);
  }

  /** A second ages every entry by itself, and those that are left keep their order. */
  lemma {:induction false} AgedJoin(a: seq<Datagram>, b: seq<Datagram>)
    ensures Aged(a + b) == Aged(a) + Aged(b)
  {
    if a == [] {
      assert a + b == b && Aged(a) == [];
    } else {
      hide Aged;
      AgedJoin(a[1..], b);
      AgedFirst(a);
      AgedFirst(a + b);
      Regroup(Aged([a[0]]), Aged(a[1..]), Aged(b));
      FirstOfJoin(a, b);
    }
  }

  lemma {:induction false} FirstOfJoin<T>(a: seq<T>, b: seq<T>)
    requires a != []
    ensures (a + b)[0] == a[0] && (a + b)[1..] == a[1..] + b
  {
  }

  lemma {:induction false} Regroup<T>(a: seq<T>, b: seq<T>, c: seq<T>)
    ensures a + (b + c) == a + b + c
  {
  }

  lemma {:induction false} AgedFirst(ds: seq<Datagram>)
    requires ds != []
    ensures Aged(ds) == Aged([ds[0]]) + Aged(ds[1..])
  {
    AgedOne(ds[0]);
  }

  lemma {:induction false} AgedOne(d: Datagram)
    ensures Aged([d]) == if d.timer > 0 then [d.(timer := d.timer - 1)] else []
  {
    assert [d][1..] == [];
  }

  /** The first fragment of a datagram makes an entry at the front of the list, with the full time to live; the others
      move up. Only a packet that is no fragment at all is handed up at once. */
  lemma {:induction false} NewAtFront(ds: seq<Datagram>, p: Packet, maxAge: nat)
    requires WellFormed(p) && forall j :: 0 <= j < |ds| ==> ds[j].header.key != p.header.key
    ensures var (ds', r) := Accept(ds, p, maxAge);
            if p.header.offset == 0 && !p.mf then r.Some? && ds' == ds
            else
              && r.None? && |ds'| == |ds| + 1 && ds'[1..] == ds
              && ds'[0].header == p.header && ds'[0].timer == maxAge && ds'[0].frags == [FragOf(p)]
  {
    hide Payload;
    var q := Chained([], FragOf(p), !p.mf);
    assert Inserted([], FragOf(p)) == [FragOf(p)];
    assert q == Queued([FragOf(p)], p.header.offset == 0 && !p.mf);
  }

  // the first round of the eviction loop
  lemma {:induction false} EvictUnfold(ds: seq<Datagram>, key: Key, freed: nat, needed: nat)
    ensures var o := OldestOther(ds, key, |ds|);
            && (o.None? <==> Others(ds, key) == 0)
            && (o.None? ==> Evict(ds, key, freed, needed) == ds)
            && (o.Some? ==>
                  var now, f := Removed(ds, o.value), freed + PbufCount(ds[o.value].frags);
                  Evict(ds, key, freed, needed) ==
                  if f < needed && Others(ds, key) > 1 then Evict(now, key, f, needed) else now)
  {
    hide Others, Removed, PbufCount, OldestOther;
    OldestOtherIs(ds, key, |ds|);
    NoOthers(ds, key);
  }

  lemma {:induction false} StillHas(ds: seq<Datagram>, gone: set<Key>, key: Key)
    requires key !in gone
    ensures Has(Without(ds, gone), key) <==> Has(ds, key)
  {
    if ds != [] {
      StillHas(ds[1..], gone, key);
      var rest := Without(ds[1..], gone);
      assert ([ds[0]] + rest)[1..] == rest;
      assert [] + rest == rest;
    }
  }

  lemma {:induction false} WithoutNothing(ds: seq<Datagram>)
    ensures Without(ds, {}) == ds
  {
    NothingGone(ds, {});
  }

  lemma {:induction false} EvictedIs(before: seq<Datagram>, after: seq<Datagram>, gone: set<Key>, key: Key)
    requires Evicted(before, after, gone, key)
    ensures after == Without(before, gone) && key !in gone
  {
  }

  // all entries but number i are as they should be
  ghost predicate GoodBut(ds: seq<Datagram>, i: nat, maxAge: nat) {
    && i < |ds| && UniqueKeys(ds) && ds[i].timer <= maxAge
    && forall j :: 0 <= j < |ds| && j != i ==> GoodQueue(ds[j]) && ds[j].timer <= maxAge
  }

  lemma {:induction false} PlaceGood(ds: seq<Datagram>, p: Packet, maxAge: nat, ds0: seq<Datagram>, i: nat)
    requires GoodList(ds, maxAge)
    requires var k := Find(ds, p.header.key);
             if k < |ds| then ds0 == ds && i == k else ds0 == [Fresh(p, maxAge)] + ds && i == 0
    ensures GoodBut(ds0, i, maxAge) && PbufTotal(ds0) == PbufTotal(ds)
    ensures ds0[i].header.key == p.header.key && Sorted(ds0[i].frags)
    ensures forall f :: f in ds0[i].frags ==> Sound(f)
    ensures ds0[i].frags == [] ==> ds0 != ds
  {
    if Find(ds, p.header.key) < |ds| {
      assert ds[i] in ds && GoodQueue(ds[i]);
    } else {
      FreshGood(ds, p, maxAge, ds0);
    }
  }

  lemma {:induction false} FreshGood(ds: seq<Datagram>, p: Packet, maxAge: nat, ds0: seq<Datagram>)
    requires GoodList(ds, maxAge) && Find(ds, p.header.key) == |ds| && ds0 == [Fresh(p, maxAge)] + ds
    ensures GoodBut(ds0, 0, maxAge) && PbufTotal(ds0) == PbufTotal(ds)
  {
    hide GoodQueue;
    assert ds0[1..] == ds;
    forall j | 0 < j < |ds0| ensures ds0[j] == ds[j - 1] && ds0[j] in ds {
    }
  }

  lemma {:induction false} UpdateGood(ds: seq<Datagram>, i: nat, d: Datagram, maxAge: nat)
    requires GoodBut(ds, i, maxAge)
    requires GoodQueue(d) && d.timer <= maxAge && d.header.key == ds[i].header.key
    ensures GoodList(ds[i := d], maxAge)
    ensures PbufTotal(ds[i := d]) == PbufTotal(ds) - PbufCount(ds[i].frags) + PbufCount(d.frags)
  {
    PbufTotalUpdate(ds, i, d);
  }

  lemma {:induction false} RemoveGood(ds: seq<Datagram>, i: nat, maxAge: nat)
    requires GoodBut(ds, i, maxAge)
    ensures GoodList(Removed(ds, i), maxAge)
    ensures PbufTotal(Removed(ds, i)) == PbufTotal(ds) - PbufCount(ds[i].frags)
  {
    PbufTotalSplit(ds, i);
    RemovedUnique(ds, i);
    forall j | 0 <= j < |ds| - 1
      ensures GoodQueue(Removed(ds, i)[j]) && Removed(ds, i)[j].timer <= maxAge
    {
      var k := RemovedMember(ds, i, j);
    }
  }

  lemma {:induction false} ChainedGood(q: seq<Frag>, f: Frag, last: bool)
    requires Sorted(q) && Sound(f) && forall g :: g in q ==> Sound(g)
    ensures var r := Chained(q, f, last);
            match r
            case Dropped => q != []
            case Queued(q', _) => q' != [] && Sorted(q') && (forall g :: g in q' ==> Sound(g))
                                  && PbufCount(q') == PbufCount(q) + f.clen
  {
    var p := Position(q, f.start);
    if !Rejected(q, f) {
      InsertedSorted(q, f);
      PbufCountInsert(q, f, p);
    }
  }

  lemma {:induction false} AgedEnd(ds: seq<Datagram>)
    ensures ds[..|ds|] + Aged(ds[|ds|..]) == ds
  {
  }

  lemma {:induction false} AgedStep(ds: seq<Datagram>, r: nat)
    requires r < |ds|
    ensures ds[r].timer > 0 ==>
              var ds' := ds[r := ds[r].(timer := ds[r].timer - 1)];
              ds'[..r + 1] + Aged(ds'[r + 1..]) == ds[..r] + Aged(ds[r..])
    ensures ds[r].timer == 0 ==>
              Removed(ds, r)[..r] + Aged(Removed(ds, r)[r..]) == ds[..r] + Aged(ds[r..])
  {
    assert ds[r..][1..] == ds[r + 1..];
    assert Removed(ds, r)[r..] == ds[r + 1..];
    if ds[r].timer > 0 {
      var ds' := ds[r := ds[r].(timer := ds[r].timer - 1)];
      assert ds'[r + 1..] == ds[r + 1..];
      assert ds'[..r + 1] == ds[..r] + [ds'[r]];
    }
  }

  lemma {:induction false} AgedGood(ds: seq<Datagram>, maxAge: nat)
    requires GoodList(ds, maxAge)
    ensures GoodList(Aged(ds), maxAge) && PbufTotal(Aged(ds)) <= PbufTotal(ds) && |Aged(ds)| <= |ds|
  {
    hide UniqueKeys;
    AgedUnique(ds);
    AgedMembers(ds);
  }

  lemma {:induction false} OldestIndex(ds: seq<Datagram>, key: Key, i: nat)
    requires Oldest(ds, key, i)
    ensures i < |ds| && Other(ds[i], key)
  {
  }

  lemma {:induction false} GoodCount(d: Datagram)
    requires GoodQueue(d)
    ensures PbufCount(d.frags) > 0
  {
    assert d.frags[0] in d.frags;
  }
}
