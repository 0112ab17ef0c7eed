/** Whole runs of ip4_reass and its timer: packets of any datagrams in any order, under the limits on pbufs, entries and
    age, as the datagram of one key sees them. */
module ReassSystem {
  import opened Basics
  import opened IpReass
  import opened ReassRun

  // ---------- among other datagrams ----------

  function Entry(ds: seq<Datagram>, key: Key): Option<Datagram> {
    if Has(ds, key) then Some(ds[Find(ds, key)]) else None
  }

  lemma {:induction false} FindUnique(ds: seq<Datagram>, key: Key, i: nat)
    requires UniqueKeys(ds) && i < |ds| && ds[i].header.key == key
    ensures Find(ds, key) == i
  {
  }

  lemma {:induction false} EntryAbsent(ds: seq<Datagram>, key: Key)
    requires forall i :: 0 <= i < |ds| ==> ds[i].header.key != key
    ensures Entry(ds, key) == None
  {
  }

  lemma {:induction false} ReceiveKey(d: Datagram, p: Packet)
    requires WellFormed(p) && d.header.key == p.header.key
    ensures Receive(d, p).0.header.key == p.header.key
  {
  }

  // changing or removing one entry leaves the others as they are
  lemma {:induction false} EntryFrame(ds: seq<Datagram>, i: nat, d: Datagram, key: Key)
    requires UniqueKeys(ds) && i < |ds| && d.header.key == ds[i].header.key
    ensures UniqueKeys(ds[i := d]) && UniqueKeys(Removed(ds, i))
    ensures Entry(ds[i := d], key) == if key == d.header.key then Some(d) else Entry(ds, key)
    ensures Entry(Removed(ds, i), key) == if key == d.header.key then None else Entry(ds, key)
  {
    RemovedUnique(ds, i);
    var updated, removed := ds[i := d], Removed(ds, i);
    if key == d.header.key {
      FindUnique(updated, key, i);
      forall j | 0 <= j < |removed|
        ensures removed[j].header.key != key
      {
        var k := RemovedMember(ds, i, j);
      }
      EntryAbsent(removed, key);
    } else if Has(ds, key) {
      var k := Find(ds, key);
      FindUnique(updated, key, k);
      FindUnique(removed, key, if k < i then k else k - 1);
    } else {
      EntryAbsent(updated, key);
      forall j | 0 <= j < |removed|
        ensures removed[j].header.key != key
      {
        var k := RemovedMember(ds, i, j);
      }
      EntryAbsent(removed, key);
    }
  }

  /** A packet moves the entry of its own datagram and no other. */
  lemma {:induction false} AcceptEntry(ds: seq<Datagram>, p: Packet, key: Key, maxAge: nat)
    requires WellFormed(p) && UniqueKeys(ds)
    ensures var (ds', r) := Accept(ds, p, maxAge);
            && UniqueKeys(ds')
            && if p.header.key == key then (Entry(ds', key), r) == EntryStep(Entry(ds, key), p, maxAge)
               else Entry(ds', key) == Entry(ds, key)
  {
    hide Receive, UniqueKeys, Find, Removed, Fresh;
    var i := Find(ds, p.header.key);
    if i < |ds| {
      ReceiveKey(ds[i], p);
      EntryFrame(ds, i, Receive(ds[i], p).0, key);
    } else {
      var f := Fresh(p, maxAge);
      FreshFront(ds, p, maxAge, key);
      ReceiveKey(f, p);
      EntryFrame([f] + ds, 0, Receive(f, p).0, key);
    }
  }

  lemma {:induction false} FreshFront(ds: seq<Datagram>, p: Packet, maxAge: nat, key: Key)
    requires UniqueKeys(ds) && !Has(ds, p.header.key)
    ensures Fresh(p, maxAge).header.key == p.header.key
    ensures UniqueKeys([Fresh(p, maxAge)] + ds) && Entry(ds, p.header.key) == None
    ensures key != p.header.key ==> Entry([Fresh(p, maxAge)] + ds, key) == Entry(ds, key)
  {
    var ds0 := [Fresh(p, maxAge)] + ds;
    if key != p.header.key {
      if Has(ds, key) { FindUnique(ds0, key, Find(ds, key) + 1); } else { EntryAbsent(ds0, key); }
    }
  }

  // ---------- events ----------

  datatype Event = Arrive(packet: Packet) | Second

  ghost predicate Events(evs: seq<Event>) {
    forall k :: 0 <= k < |evs| && evs[k].Arrive? ==> WellFormed(evs[k].packet)
  }

  ghost function Happen(lim: Limits, ds: seq<Datagram>, e: Event): (seq<Datagram>, Option<Delivered>)
    requires e.Arrive? ==> WellFormed(e.packet)
  {
    if e.Second? then (Aged(ds), None) else Serve(lim, ds, e.packet)
  }

  // the list after the events, from ds on
  ghost function State(lim: Limits, ds: seq<Datagram>, evs: seq<Event>): seq<Datagram>
    requires Events(evs)
  {
    if evs == [] then ds else Happen(lim, State(lim, ds, evs[..|evs| - 1]), evs[|evs| - 1]).0
  }

  // what event k hands up
  ghost function Out(lim: Limits, ds: seq<Datagram>, evs: seq<Event>, k: nat): Option<Delivered>
    requires Events(evs) && k < |evs|
  {
    Happen(lim, State(lim, ds, evs[..k]), evs[k]).1
  }

  function Seconds(evs: seq<Event>): nat {
    if evs == [] then 0 else Seconds(evs[..|evs| - 1]) + if evs[|evs| - 1].Second? then 1 else 0
  }

  predicate IsOwn(e: Event, key: Key) { e.Arrive? && e.packet.header.key == key }

  // ---------- one event, one datagram ----------

  lemma {:induction false} AgedEntry(ds: seq<Datagram>, key: Key)
    requires UniqueKeys(ds)
    ensures Entry(Aged(ds), key)
         == if Entry(ds, key).Some? && Entry(ds, key).value.timer > 0
            then var d := Entry(ds, key).value; Some(d.(timer := d.timer - 1)) else None
  {
    if ds == [] {
      EntryAbsent(ds, key);
    } else {
      hide Aged, Entry, UniqueKeys;
      var d, rest := ds[0], Aged(ds[1..]);
      TailUnique(ds);
      AgedEntry(ds[1..], key);
      AgedHead(ds);
      EntryHead(ds, key);
      if d.timer > 0 {
        AgedUnique(ds);
        EntryCons(d.(timer := d.timer - 1), rest, key);
      }
    }
  }

  lemma {:induction false} EntryCons(d: Datagram, rest: seq<Datagram>, key: Key)
    requires UniqueKeys([d] + rest)
    ensures Entry([d] + rest, key) == if d.header.key == key then Some(d) else Entry(rest, key)
  {
    hide Entry, UniqueKeys;
    EntryHead([d] + rest, key);
    assert ([d] + rest)[1..] == rest;
  }

  lemma {:induction false} EntryHead(ds: seq<Datagram>, key: Key)
    requires ds != [] && UniqueKeys(ds)
    ensures Entry(ds, key) == if ds[0].header.key == key then Some(ds[0]) else Entry(ds[1..], key)
    ensures ds[0].header.key == key ==> Entry(ds[1..], key) == None
  {
    if ds[0].header.key == key { EntryAbsent(ds[1..], key); }
  }

  lemma {:induction false} TailUnique(ds: seq<Datagram>)
    requires ds != [] && UniqueKeys(ds)
    ensures UniqueKeys(ds[1..])
  {
  }

  lemma {:induction false} AgedHead(ds: seq<Datagram>)
    requires ds != []
    ensures Aged(ds) == if ds[0].timer > 0 then [ds[0].(timer := ds[0].timer - 1)] + Aged(ds[1..]) else Aged(ds[1..])
  {
    assert [] + Aged(ds[1..]) == Aged(ds[1..]);
  }

  lemma {:induction false} EntryTail(ds: seq<Datagram>, key: Key)
    requires ds != [] && ds[0].header.key != key
    ensures Entry(ds, key) == Entry(ds[1..], key)
  {
  }

  lemma {:induction false} EntryWithout(ds: seq<Datagram>, gone: set<Key>, key: Key)
    ensures Entry(Without(ds, gone), key) == if key in gone then None else Entry(ds, key)
  {
    if ds != [] {
      EntryWithout(ds[1..], gone, key);
      var rest := Without(ds[1..], gone);
      assert [] + rest == rest;
      if ds[0].header.key != key {
        EntryTail(ds, key);
        if ds[0].header.key !in gone { EntryTail([ds[0]] + rest, key); }
      }
    }
  }

  /** A packet of the datagram moves its entry if it is acceptable and leaves it alone otherwise; a packet of another
      one leaves it alone or evicts it. */
  lemma {:induction false} ServeEntry(lim: Limits, ds: seq<Datagram>, p: Packet, key: Key)
    requires Fit(lim, ds) && WellFormed(p)
    ensures var (ds', r) := Serve(lim, ds, p);
            && Fit(lim, ds')
            && (if p.header.key != key then Entry(ds', key) == Entry(ds, key) || Entry(ds', key) == None
                else if Acceptable(lim, ds, p) then (Entry(ds', key), r) == EntryStep(Entry(ds, key), p, lim.age)
                else Entry(ds', key) == Entry(ds, key) && r == None)
            && (Room(lim, ds, p) && p.header.key != key ==> Entry(ds', key) == Entry(ds, key))
  {
    hide Serve, Without, Accept, Entry, EntryStep, Evicted, Room, Acceptable, GoodList;
    var gone := ServeCases(lim, ds, p);
    var ds1 := Without(ds, gone);
    EvictedIs(ds, ds1, gone, p.header.key);
    EntryWithout(ds, gone, key);
    if Acceptable(lim, ds, p) {
      AcceptFit(lim, ds1, p);
      GoodIsUnique(ds1, lim.age);
      AcceptEntry(ds1, p, key, lim.age);
    }
  }

  lemma {:induction false} HappenFit(lim: Limits, ds: seq<Datagram>, e: Event)
    requires Fit(lim, ds) && (e.Arrive? ==> WellFormed(e.packet))
    ensures Fit(lim, Happen(lim, ds, e).0)
  {
    hide Serve, GoodList, Aged, PbufTotal;
    if e.Second? {
      AgedGood(ds, lim.age);
    } else {
      ServeEntry(lim, ds, e.packet, e.packet.header.key);
    }
  }

  /** The list stays in order and within the limits. */
  lemma {:induction false} StateFit(lim: Limits, ds: seq<Datagram>, evs: seq<Event>)
    requires Fit(lim, ds) && Events(evs)
    ensures Fit(lim, State(lim, ds, evs))
  {
    hide Happen, Fit;
    if evs != [] {
      StateFit(lim, ds, evs[..|evs| - 1]);
      HappenFit(lim, State(lim, ds, evs[..|evs| - 1]), evs[|evs| - 1]);
    }
  }

  // what one event makes of the entry of one datagram
  lemma {:induction false} HappenEntry(lim: Limits, ds: seq<Datagram>, e: Event, key: Key)
    requires Fit(lim, ds) && (e.Arrive? ==> WellFormed(e.packet))
    ensures var (ds', r) := Happen(lim, ds, e);
            && Fit(lim, ds')
            && (if e.Second? then
                  Entry(ds', key) == if Entry(ds, key).Some? && Entry(ds, key).value.timer > 0
                                     then var d := Entry(ds, key).value; Some(d.(timer := d.timer - 1)) else None
                else if !IsOwn(e, key) then Entry(ds', key) == Entry(ds, key) || Entry(ds', key) == None
                else if Acceptable(lim, ds, e.packet) then
                  (Entry(ds', key), r) == EntryStep(Entry(ds, key), e.packet, lim.age)
                else Entry(ds', key) == Entry(ds, key) && r == None)
  {
    hide Serve, GoodList, Aged, PbufTotal, Entry, EntryStep, Acceptable;
    HappenFit(lim, ds, e);
    if e.Second? {
      GoodIsUnique(ds, lim.age);
      AgedEntry(ds, key);
    } else {
      ServeEntry(lim, ds, e.packet, key);
    }
  }

  // ---------- age ----------

  lemma {:induction false} StepTimer(e: Option<Datagram>, p: Packet, maxAge: nat)
    requires WellFormed(p)
    ensures var e' := EntryStep(e, p, maxAge).0;
            e'.Some? ==> e'.value.timer == if e.Some? then e.value.timer else maxAge
  {
    if e.Some? { ReceiveKeepsTimer(e.value, p); } else { ReceiveKeepsTimer(Fresh(p, maxAge), p); }
  }

  // a second takes one from the timer of an entry; only a packet of the datagram makes one
  lemma {:induction false} TimerStep(lim: Limits, ds: seq<Datagram>, e: Event, key: Key)
    requires Fit(lim, ds) && (e.Arrive? ==> WellFormed(e.packet))
    ensures var before, after := Entry(ds, key), Entry(Happen(lim, ds, e).0, key);
            after.Some? ==> if before.Some? then after.value.timer + Seconds([e]) == before.value.timer
                            else IsOwn(e, key) && after.value.timer == lim.age
  {
    hide Happen, Entry, EntryStep, Acceptable, Fit;
    HappenEntry(lim, ds, e, key);
    assert [e][..0] == [];
    if IsOwn(e, key) { StepTimer(Entry(ds, key), e.packet, lim.age); }
  }

  lemma {:induction false} SecondsStep(evs: seq<Event>, b: nat)
    requires b < |evs|
    ensures Seconds(evs[b..]) == Seconds(evs[b..|evs| - 1]) + Seconds([evs[|evs| - 1]])
  {
    assert evs[b..][..|evs| - 1 - b] == evs[b..|evs| - 1];
    assert [evs[|evs| - 1]][..0] == [];
  }

  /** In every run from the empty list, whatever arrives: an entry was made by a packet of its datagram, has been there
      ever since, and its timer is what is left of the maximal age. So it is never older than that. */
  lemma {:induction false} AgeExact(lim: Limits, evs: seq<Event>, key: Key) returns (b: nat)
    requires Events(evs) && Entry(State(lim, [], evs), key).Some?
    ensures b < |evs| && IsOwn(evs[b], key) && Entry(State(lim, [], evs[..b]), key) == None
    ensures forall k :: b < k <= |evs| ==> Entry(State(lim, [], evs[..k]), key).Some?
    ensures Entry(State(lim, [], evs), key).value.timer + Seconds(evs[b + 1..]) == lim.age
    decreases |evs|
  {
    hide Happen, Entry, Fit, Seconds;
    if evs == [] {
      EntryAbsent([], key);
    } else {
      var m := |evs| - 1;
      var e, before := evs[m], State(lim, [], evs[..m]);
      EmptyFit(lim);
      StateFit(lim, [], evs[..m]);
      TimerStep(lim, before, e, key);
      assert evs[..m + 1] == evs;
      if Entry(before, key).Some? {
        b := AgeExact(lim, evs[..m], key);
        SecondsStep(evs, b + 1);
        forall k | b < k <= |evs| ensures Entry(State(lim, [], evs[..k]), key).Some? {
          if k <= m { assert evs[..m][..k] == evs[..k]; }
        }
        assert evs[..m][..b] == evs[..b] && evs[..m][b + 1..] == evs[b + 1..m];
      } else {
        b := m;
        NoSeconds();
        assert evs[b + 1..] == [];
      }
    }
  }

  lemma {:induction false} SecondsFewer(evs: seq<Event>, b: nat, k: nat)
    requires b <= k <= |evs|
    ensures Seconds(evs[k..]) <= Seconds(evs[b..])
    decreases |evs|
  {
    NoSeconds();
    if k == |evs| {
      assert evs[k..] == [];
    } else {
      var m := |evs| - 1;
      SecondsStep(evs, b);
      SecondsStep(evs, k);
      SecondsFewer(evs[..m], b, k);
      assert evs[..m][k..] == evs[k..m] && evs[..m][b..] == evs[b..m];
    }
  }

  /** In particular an entry that is there after more than the maximal age in seconds was made in the meantime. */
  lemma {:induction false} NothingOutlives(lim: Limits, evs: seq<Event>, key: Key, k: nat)
    requires Events(evs) && k <= |evs| && Seconds(evs[k..]) > lim.age && Entry(State(lim, [], evs), key).Some?
    ensures exists b: nat :: k <= b < |evs| && IsOwn(evs[b], key) && Entry(State(lim, [], evs[..b]), key) == None
  {
    hide State, Entry, Seconds;
    var b := AgeExact(lim, evs, key);
    if b < k { SecondsFewer(evs, b + 1, k); }
  }

  lemma {:induction false} NoSeconds()
    ensures Seconds([]) == 0
  {
  }

  lemma {:induction false} EmptyFit(lim: Limits)
    ensures Fit(lim, [])
  {
  }
}
