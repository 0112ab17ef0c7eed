/** What ip4_reass hands up for one datagram, in whole runs among packets of other datagrams, under the limits and with
    the timer running. */
module ReassDelivery {
  import opened Basics
  import opened ReassQueue
  import opened IpReass
  import opened ReassRun
  import opened ReassSystem

  // ---------- the packets of one datagram among the events ----------

  /** The packets of the datagram of `key` are among its fragments ps. */
  ghost predicate Among(evs: seq<Event>, ps: seq<Packet>, key: Key) {
    Events(evs) && forall k :: 0 <= k < |evs| && IsOwn(evs[k], key) ==> evs[k].packet in ps
  }

  function Number(ps: seq<Packet>, p: Packet): (j: nat)
    requires p in ps
    ensures j < |ps| && ps[j] == p
  {
    if ps[|ps| - 1] == p then |ps| - 1 else Number(ps[..|ps| - 1], p)
  }

  // which fragments arrive, in order
  ghost function Numbers(evs: seq<Event>, ps: seq<Packet>, key: Key): (a: seq<nat>)
    requires Among(evs, ps, key)
    ensures forall k :: 0 <= k < |a| ==> a[k] < |ps|
  {
    if evs == [] then []
    else
      var e := evs[|evs| - 1];
      Numbers(evs[..|evs| - 1], ps, key) + if IsOwn(e, key) then [Number(ps, e.packet)] else []
  }

  // those that were accepted since the entry of the datagram was made
  ghost function Live(lim: Limits, ds: seq<Datagram>, evs: seq<Event>, ps: seq<Packet>, key: Key): (a: seq<nat>)
    requires Among(evs, ps, key)
    ensures forall k :: 0 <= k < |a| ==> a[k] < |ps|
  {
    if evs == [] || Entry(State(lim, ds, evs), key) == None then []
    else
      var e, before := evs[|evs| - 1], evs[..|evs| - 1];
      Live(lim, ds, before, ps, key)
      + if IsOwn(e, key) && Acceptable(lim, State(lim, ds, before), e.packet) then [Number(ps, e.packet)] else []
  }

  // ---------- every run ----------

  // the entry holds the fragments a, which are not yet all
  ghost predicate Holds(e: Option<Datagram>, ps: seq<Packet>, a: seq<nat>)
    requires forall i :: 0 <= i < |ps| ==> WellFormed(ps[i])
  {
    if e.None? then a == []
    else a != [] && !Full(Seen(a), |ps|) && EntryAfter(e.value, ps, a, e.value.timer)
  }

  lemma {:induction false} AgedHolds(d: Datagram, ps: seq<Packet>, a: seq<nat>)
    requires forall i :: 0 <= i < |ps| ==> WellFormed(ps[i])
    requires Holds(Some(d), ps, a) && d.timer > 0
    ensures Holds(Some(d.(timer := d.timer - 1)), ps, a)
  {
  }

  // an arrival that is taken in
  lemma {:induction false} StepHolds(e: Option<Datagram>, ps: seq<Packet>, key: Key, a: seq<nat>, j: nat, maxAge: nat)
    requires Fragments(ps, key) && j < |ps| && Holds(e, ps, a)
    ensures var (e', r) := EntryStep(e, ps[j], maxAge);
            if Full(Seen(a + [j]), |ps|) then e' == None && r == Some(Whole(ps))
            else if Fooled(Seen(a), j, |ps|) then e' == None && r.Some? && |r.value.data| < |Whole(ps).data|
            else r == None && e'.Some? && Holds(e', ps, a + [j])
  {
    hide Receive, EntryAfter, Full, Fooled, Whole, Fragments, Seen;
    FragmentsWellFormed(ps, key);
    var d := if e.Some? then e.value else Fresh(ps[j], maxAge);
    OneArrival(d, ps, key, a, j, d.timer);
    EntryAfterTimer(Receive(d, ps[j]).0, ps, a + [j], d.timer);
  }

  lemma {:induction false} EntryAfterTimer(d: Datagram, ps: seq<Packet>, a: seq<nat>, t: nat)
    requires forall i :: 0 <= i < |ps| ==> WellFormed(ps[i])
    ensures EntryAfter(d, ps, a, t) ==> d.timer == t
  {
  }

  /** In every run, whatever arrives and whatever is evicted or expires: the entry of the datagram holds the fragments
      accepted since it was made, never all of them. */
  lemma {:induction false} Projection(lim: Limits, ds: seq<Datagram>, evs: seq<Event>, ps: seq<Packet>, key: Key)
    requires Fit(lim, ds) && Entry(ds, key) == None && Fragments(ps, key) && Among(evs, ps, key)
    ensures forall i :: 0 <= i < |ps| ==> WellFormed(ps[i])
    ensures Holds(Entry(State(lim, ds, evs), key), ps, Live(lim, ds, evs, ps, key))
  {
    hide Happen, Entry, EntryStep, Acceptable, Holds, Fit, Fragments, Full, Fooled, Whole;
    FragmentsWellFormed(ps, key);
    HoldsNothing(ps);
    if evs != [] {
      var m := |evs| - 1;
      var e, before := evs[m], State(lim, ds, evs[..m]);
      var l := Live(lim, ds, evs[..m], ps, key);
      Projection(lim, ds, evs[..m], ps, key);
      StateFit(lim, ds, evs[..m]);
      HappenEntry(lim, before, e, key);
      assert l + [] == l;
      if IsOwn(e, key) {
        StepHolds(Entry(before, key), ps, key, l, Number(ps, e.packet), lim.age);
      } else if e.Second? && Entry(before, key).Some? && Entry(before, key).value.timer > 0 {
        AgedHolds(Entry(before, key).value, ps, l);
      }
    }
  }

  lemma {:induction false} HoldsNothing(ps: seq<Packet>)
    requires forall i :: 0 <= i < |ps| ==> WellFormed(ps[i])
    ensures Holds(None, ps, [])
  {
  }

  /** What is handed up at any packet of the datagram in any run: nothing if the packet cannot be accepted; the datagram
      if its entry now has all fragments; too little if the check for holes is fooled; nothing otherwise. */
  lemma {:induction false} ArrivalExact(lim: Limits, ds: seq<Datagram>, evs: seq<Event>, ps: seq<Packet>, key: Key,
                                        k: nat)
    requires Fit(lim, ds) && Entry(ds, key) == None && Fragments(ps, key) && Among(evs, ps, key)
    requires k < |evs| && IsOwn(evs[k], key)
    ensures forall i :: 0 <= i < |ps| ==> WellFormed(ps[i])
    ensures var before, l, j, r := State(lim, ds, evs[..k]), Live(lim, ds, evs[..k], ps, key),
                                   Number(ps, evs[k].packet), Out(lim, ds, evs, k);
            if !Acceptable(lim, before, evs[k].packet) then r == None
            else if Full(Seen(l + [j]), |ps|) then r == Some(Whole(ps))
            else if Fooled(Seen(l), j, |ps|) then r.Some? && |r.value.data| < |Whole(ps).data|
            else r == None
  {
    hide Happen, Entry, EntryStep, Acceptable, Holds, Fit, Fragments, Full, Fooled, Whole, Live;
    FragmentsWellFormed(ps, key);
    Projection(lim, ds, evs[..k], ps, key);
    StateFit(lim, ds, evs[..k]);
    var before := State(lim, ds, evs[..k]);
    HappenEntry(lim, before, evs[k], key);
    StepHolds(Entry(before, key), ps, key, Live(lim, ds, evs[..k], ps, key), Number(ps, evs[k].packet), lim.age);
  }

  // ---------- pbufs ----------

  lemma {:induction false} PbufsJoin(a: seq<Frag>, b: seq<Frag>)
    ensures PbufCount(a + b) == PbufCount(a) + PbufCount(b)
  {
    if a == [] {
      assert a + b == b;
    } else {
      PbufsJoin(a[1..], b);
      assert (a + b)[1..] == a[1..] + b;
    }
  }

  // fragments that are there do not have more pbufs than all of them
  lemma {:induction false} SomePbufs(c: seq<Frag>, s: set<nat>, hi: nat)
    requires hi <= |c|
    ensures PbufCount(Range(c, s, 0, hi)) <= PbufCount(c[..hi])
    ensures Full(s, hi) ==> PbufCount(Range(c, s, 0, hi)) == PbufCount(c[..hi])
  {
    if hi > 0 {
      SomePbufs(c, s, hi - 1);
      assert c[..hi] == c[..hi - 1] + [c[hi - 1]];
      PbufsJoin(c[..hi - 1], [c[hi - 1]]);
      PbufsJoin(Range(c, s, 0, hi - 1), if hi - 1 in s then [c[hi - 1]] else []);
    }
  }

  // one more fragment
  lemma {:induction false} OneMorePbufs(c: seq<Frag>, s: set<nat>, j: nat)
    requires j < |c| && j !in s
    ensures PbufCount(Range(c, s, 0, |c|)) + c[j].clen <= PbufCount(c)
    ensures Full(s + {j}, |c|) ==> PbufCount(Range(c, s, 0, |c|)) + c[j].clen == PbufCount(c)
  {
    hide Full, Range;
    RangeInsert(c, s, j);
    SomePbufs(c, s + {j}, |c|);
    assert c[..|c|] == c;
    var l, r := Range(c, s, 0, j), Range(c, s, j, |c|);
    PbufsJoin(l, r);
    PbufsJoin(l + [c[j]], r);
    PbufsJoin(l, [c[j]]);
  }

  lemma {:induction false} OwnIsEntry(ds: seq<Datagram>, key: Key)
    requires UniqueKeys(ds)
    ensures OwnPbufs(ds, key) == if Entry(ds, key).Some? then PbufCount(Entry(ds, key).value.frags) else 0
    ensures Has(ds, key) <==> Entry(ds, key).Some?
  {
    hide Entry, UniqueKeys;
    if ds != [] {
      TailUnique(ds);
      OwnIsEntry(ds[1..], key);
      EntryHead(ds, key);
    }
    EntryHas(ds, key);
  }

  lemma {:induction false} EntryHas(ds: seq<Datagram>, key: Key)
    ensures Has(ds, key) <==> Entry(ds, key).Some?
  {
  }

  // the pbufs of the fragments a
  ghost function Held(ps: seq<Packet>, a: seq<nat>): nat
    requires forall i :: 0 <= i < |ps| ==> WellFormed(ps[i])
  {
    PbufCount(Range(FragsOf(ps), Seen(a), 0, |ps|))
  }

  lemma {:induction false} HeldIs(e: Option<Datagram>, ps: seq<Packet>, a: seq<nat>)
    requires (forall i :: 0 <= i < |ps| ==> WellFormed(ps[i])) && Holds(e, ps, a)
    ensures Held(ps, a) == if e.Some? then PbufCount(e.value.frags) else 0
  {
    NoneSeen(FragsOf(ps), 0, |ps|);
    SeenStep([], 0);
  }

  // whether a packet is accepted whose datagram holds the fragments a
  lemma {:induction false} AcceptableIff(lim: Limits, ds: seq<Datagram>, p: Packet, ps: seq<Packet>, a: seq<nat>)
    requires Fit(lim, ds) && (forall i :: 0 <= i < |ps| ==> WellFormed(ps[i]))
    requires Holds(Entry(ds, p.header.key), ps, a)
    ensures Acceptable(lim, ds, p) ==> p.words == 5 && Held(ps, a) + p.clen <= lim.pbufs
    ensures a != [] && p.words == 5 && Held(ps, a) + p.clen <= lim.pbufs ==> Acceptable(lim, ds, p)
  {
    hide Entry, Holds, Held, UniqueKeys;
    HoldsSome(Entry(ds, p.header.key), ps, a);
    OwnIsEntry(ds, p.header.key);
    HeldIs(Entry(ds, p.header.key), ps, a);
  }

  lemma {:induction false} HoldsSome(e: Option<Datagram>, ps: seq<Packet>, a: seq<nat>)
    requires (forall i :: 0 <= i < |ps| ==> WellFormed(ps[i])) && Holds(e, ps, a)
    ensures e.Some? <==> a != []
    ensures a != [] ==> !Full(Seen(a), |ps|)
  {
  }

  lemma {:induction false} NewToFull(a: seq<nat>, j: nat, n: nat)
    requires (a == [] || !Full(Seen(a), n)) && Full(Seen(a + [j]), n)
    ensures j !in Seen(a)
  {
    SeenStep(a, j);
    assert j in Seen(a) ==> Seen(a) + {j} == Seen(a);
  }

  /** In any run, only a datagram whose fragments keep within the limit on pbufs is handed up. */
  lemma {:induction false} NeverTooLarge(lim: Limits, ds: seq<Datagram>, evs: seq<Event>, ps: seq<Packet>, key: Key,
                                         k: nat)
    requires Fit(lim, ds) && Entry(ds, key) == None && Fragments(ps, key) && Among(evs, ps, key)
    requires k < |evs| && IsOwn(evs[k], key)
    requires forall i :: 0 <= i < |ps| ==> WellFormed(ps[i])
    ensures Out(lim, ds, evs, k) == Some(Whole(ps)) ==> PbufCount(FragsOf(ps)) <= lim.pbufs
  {
    hide Out, State, Entry, Holds, Full, Fooled, Whole, Live, Fit, Fragments, Acceptable;
    var before, l, p := State(lim, ds, evs[..k]), Live(lim, ds, evs[..k], ps, key), evs[k].packet;
    var c, s, j := FragsOf(ps), Seen(l), Number(ps, p);
    ArrivalExact(lim, ds, evs, ps, key, k);
    if Acceptable(lim, before, p) && Full(Seen(l + [j]), |ps|) {
      Projection(lim, ds, evs[..k], ps, key);
      StateFit(lim, ds, evs[..k]);
      HoldsSome(Entry(before, key), ps, l);
      SeenStep(l, j);
      NewToFull(l, j, |ps|);
      OneMorePbufs(c, s, j);
      AcceptableIff(lim, before, p, ps, l);
      assert Held(ps, l) == PbufCount(Range(c, s, 0, |c|));
    }
  }

  // ---------- undisturbed runs ----------

  // the packet of another datagram at k does not evict the entry
  ghost predicate Spared(lim: Limits, ds: seq<Datagram>, evs: seq<Event>, key: Key, k: nat)
    requires Events(evs) && k < |evs|
  {
    evs[k].Arrive? && !IsOwn(evs[k], key) && Entry(State(lim, ds, evs[..k]), key).Some? ==>
      Entry(State(lim, ds, evs[..k + 1]), key).Some?
  }

  /** The first packet of the datagram, at event f, gets an entry; no other packet evicts it; and no more seconds pass
      from then on than the maximal age. */
  ghost predicate Undisturbed(lim: Limits, ds: seq<Datagram>, evs: seq<Event>, key: Key, f: nat)
    requires Events(evs)
  {
    && (forall k :: 0 <= k < |evs| && k < f ==> !IsOwn(evs[k], key))
    && (f < |evs| ==> IsOwn(evs[f], key) && Acceptable(lim, State(lim, ds, evs[..f]), evs[f].packet)
                      && Seconds(evs[f..]) <= lim.age)
    && (forall k :: 0 <= k < |evs| ==> Spared(lim, ds, evs, key, k))
  }

  /** Every fragment is without IP options, and all of them together are within the limit on pbufs. */
  ghost predicate Fits(lim: Limits, ps: seq<Packet>)
    requires forall i :: 0 <= i < |ps| ==> WellFormed(ps[i])
  {
    (forall i :: 0 <= i < |ps| ==> ps[i].words == 5) && PbufCount(FragsOf(ps)) <= lim.pbufs
  }

  /** Where every packet finds room and the first of the datagram has no IP options, only the timer can disturb. */
  lemma {:induction false} RoomIsEnough(lim: Limits, ds: seq<Datagram>, evs: seq<Event>, key: Key, f: nat)
    requires Fit(lim, ds) && Events(evs) && f < |evs| && IsOwn(evs[f], key) && evs[f].packet.words == 5
    requires forall k :: 0 <= k < f ==> !IsOwn(evs[k], key)
    requires forall k :: 0 <= k < |evs| && evs[k].Arrive? ==> Room(lim, State(lim, ds, evs[..k]), evs[k].packet)
    ensures Undisturbed(lim, ds, evs, key, f) <==> Seconds(evs[f..]) <= lim.age
  {
    hide Serve, Entry, EntryStep, Acceptable, Room, Fit, Seconds;
    forall k | 0 <= k < |evs| ensures Spared(lim, ds, evs, key, k) {
      var before := State(lim, ds, evs[..k]);
      assert evs[..k + 1][..k] == evs[..k];
      StateFit(lim, ds, evs[..k]);
      if evs[k].Arrive? { ServeEntry(lim, before, evs[k].packet, key); }
    }
    StateFit(lim, ds, evs[..f]);
    var gone := ServeCases(lim, State(lim, ds, evs[..f]), evs[f].packet);
  }

  lemma {:induction false} UndisturbedPrefix(lim: Limits, ds: seq<Datagram>, evs: seq<Event>, key: Key, f: nat, m: nat)
    requires Events(evs) && Undisturbed(lim, ds, evs, key, f) && m <= |evs|
    ensures Undisturbed(lim, ds, evs[..m], key, f)
  {
    hide State, Entry, Acceptable, Seconds;
    var before := evs[..m];
    forall k | 0 <= k < m ensures Spared(lim, ds, before, key, k) {
      assert before[..k] == evs[..k] && before[..k + 1] == evs[..k + 1];
      assert Spared(lim, ds, evs, key, k);
    }
    if f < m {
      assert before[..f] == evs[..f];
      SecondsSplit(evs, f, m);
      assert before[f..] == evs[f..m];
    }
  }

  lemma {:induction false} SecondsSplit(evs: seq<Event>, f: nat, m: nat)
    requires f <= m <= |evs|
    ensures Seconds(evs[f..m]) <= Seconds(evs[f..])
    decreases |evs| - m
  {
    if m == |evs| {
      assert evs[f..m] == evs[f..];
    } else {
      SecondsSplit(evs, f, m + 1);
      assert evs[f..m + 1][..m - f] == evs[f..m];
    }
  }

  // the entry holds the fragments a and has what is left of its time
  ghost predicate Steady(lim: Limits, e: Option<Datagram>, evs: seq<Event>, ps: seq<Packet>, a: seq<nat>, f: nat)
    requires forall i :: 0 <= i < |ps| ==> WellFormed(ps[i])
  {
    Holds(e, ps, a) && (|evs| <= f ==> a == [])
    && (|evs| > f ==> e.Some? && e.value.timer + Seconds(evs[f..]) == lim.age)
  }

  // a fragment that is there already changes nothing, accepted or not
  lemma {:induction false} HoldsAgain(e: Option<Datagram>, ps: seq<Packet>, a: seq<nat>, j: nat)
    requires (forall i :: 0 <= i < |ps| ==> WellFormed(ps[i])) && Holds(e, ps, a) && j in Seen(a)
    ensures Holds(e, ps, a + [j]) && !Full(Seen(a + [j]), |ps|) && !Fooled(Seen(a), j, |ps|)
  {
    SeenStep(a, j);
    assert Seen(a) + {j} == Seen(a);
    assert (a + [j])[0] == a[0];
  }

  // a packet of the datagram, once it has an entry or can get one: it is accepted if it is new
  lemma {:induction false} OwnArrival(lim: Limits, before: seq<Datagram>, p: Packet, ps: seq<Packet>, key: Key,
                                      a: seq<nat>, j: nat)
    requires Fit(lim, before) && Fragments(ps, key) && j < |ps| && p == ps[j]
    requires forall i :: 0 <= i < |ps| ==> WellFormed(ps[i])
    requires Fits(lim, ps) && Holds(Entry(before, key), ps, a) && (a == [] ==> Acceptable(lim, before, p))
    ensures var (after, r) := Serve(lim, before, p);
            var (e, e') := (Entry(before, key), Entry(after, key));
            if Full(Seen(a + [j]), |ps|) then r == Some(Whole(ps))
            else if Fooled(Seen(a), j, |ps|) then r.Some?
            else && r == None && Holds(e', ps, a + [j]) && e'.Some?
                 && e'.value.timer == if e.Some? then e.value.timer else lim.age
  {
    hide Serve, Entry, EntryStep, Holds, Fit, Fragments, Full, Fooled, Whole, Held, Acceptable;
    FragmentsWellFormed(ps, key);
    var e, c := Entry(before, key), FragsOf(ps);
    HappenEntry(lim, before, Arrive(p), key);
    HoldsSome(e, ps, a);
    AcceptableIff(lim, before, p, ps, a);
    StepHolds(e, ps, key, a, j, lim.age);
    StepTimer(e, p, lim.age);
    if j in Seen(a) {
      SeenSome(a, j);
      HoldsAgain(e, ps, a, j);
    } else {
      OneMorePbufs(c, Seen(a), j);
      HeldUnfold(ps, a);
    }
  }

  lemma {:induction false} HeldUnfold(ps: seq<Packet>, a: seq<nat>)
    requires forall i :: 0 <= i < |ps| ==> WellFormed(ps[i])
    ensures Held(ps, a) == PbufCount(Range(FragsOf(ps), Seen(a), 0, |ps|))
  {
  }

  // one event that is not a packet of the datagram
  lemma {:induction false} SteadyOther(lim: Limits, before: seq<Datagram>, e: Event, evs: seq<Event>, ps: seq<Packet>,
                                       key: Key, a: seq<nat>, f: nat)
    requires Fit(lim, before) && (e.Arrive? ==> WellFormed(e.packet)) && !IsOwn(e, key)
    requires (forall i :: 0 <= i < |ps| ==> WellFormed(ps[i])) && evs != [] && evs[|evs| - 1] == e
    requires Steady(lim, Entry(before, key), evs[..|evs| - 1], ps, a, f) && f != |evs| - 1
    requires f < |evs| ==> Seconds(evs[f..]) <= lim.age
    requires var after := Happen(lim, before, e).0;
             e.Arrive? && Entry(before, key).Some? ==> Entry(after, key).Some?
    ensures Steady(lim, Entry(Happen(lim, before, e).0, key), evs, ps, a, f)
  {
    hide Happen, Entry, EntryStep, Acceptable, Fit, Holds, Seconds;
    var m := |evs| - 1;
    HappenEntry(lim, before, e, key);
    TimerStep(lim, before, e, key);
    HoldsSome(Entry(before, key), ps, a);
    if f < m {
      SecondsStep(evs, f);
      assert evs[..m][f..] == evs[f..m];
      SecondsOne(e);
      if e.Second? { AgedHolds(Entry(before, key).value, ps, a); }
    }
  }

  lemma {:induction false} SecondsOne(e: Event)
    ensures Seconds([e]) == if e.Second? then 1 else 0
  {
    assert [e][..0] == [];
  }

  lemma {:induction false} NumbersStep(evs: seq<Event>, ps: seq<Packet>, key: Key)
    requires evs != [] && Among(evs, ps, key)
    ensures var m := |evs| - 1;
            Numbers(evs, ps, key) == if IsOwn(evs[m], key)
                                     then Numbers(evs[..m], ps, key) + [Number(ps, evs[m].packet)]
                                     else Numbers(evs[..m], ps, key)
  {
  }

  lemma {:induction false} OutPrefix(lim: Limits, ds: seq<Datagram>, evs: seq<Event>, m: nat, k: nat)
    requires Events(evs) && k < m <= |evs|
    ensures Out(lim, ds, evs[..m], k) == Out(lim, ds, evs, k)
  {
    assert evs[..m][..k] == evs[..k];
  }

  // no packet of the datagram has had anything handed up
  ghost predicate NothingOut(lim: Limits, ds: seq<Datagram>, evs: seq<Event>, key: Key)
    requires Events(evs)
  {
    forall k :: 0 <= k < |evs| && IsOwn(evs[k], key) ==> Out(lim, ds, evs, k) == None
  }

  lemma {:induction false} NothingOutStep(lim: Limits, ds: seq<Datagram>, evs: seq<Event>, key: Key)
    requires Events(evs) && evs != [] && NothingOut(lim, ds, evs[..|evs| - 1], key)
    requires IsOwn(evs[|evs| - 1], key) ==> Out(lim, ds, evs, |evs| - 1) == None
    ensures NothingOut(lim, ds, evs, key)
  {
    hide Out, IsOwn;
    var m := |evs| - 1;
    forall k | 0 <= k < m && IsOwn(evs[k], key) ensures Out(lim, ds, evs, k) == None {
      OutPrefix(lim, ds, evs, m, k);
      assert evs[..m][k] == evs[k];
    }
  }

  // not fooled and not full: neither were they before the last event
  lemma {:induction false} NumbersBefore(evs: seq<Event>, ps: seq<Packet>, key: Key)
    requires Among(evs, ps, key) && evs != []
    requires NeverFooled(Numbers(evs, ps, key), |ps|) && !Full(Seen(Numbers(evs, ps, key)), |ps|)
    ensures var e, a1 := evs[|evs| - 1], Numbers(evs[..|evs| - 1], ps, key);
            && NeverFooled(a1, |ps|) && !Full(Seen(a1), |ps|)
            && (if IsOwn(e, key) then
                  var j := Number(ps, e.packet);
                  Numbers(evs, ps, key) == a1 + [j] && !Fooled(Seen(a1), j, |ps|) && !Full(Seen(a1 + [j]), |ps|)
                else Numbers(evs, ps, key) == a1)
  {
    hide Full, Fooled, NeverFooled, Seen, Numbers;
    NumbersStep(evs, ps, key);
    var a := Numbers(evs, ps, key);
    if IsOwn(evs[|evs| - 1], key) {
      assert a[..|a| - 1] == Numbers(evs[..|evs| - 1], ps, key);
      UnfooledSteps(a, |ps|);
      FullMonotone(a, |ps|);
    }
  }

  // the last event of an undisturbed run, of which a were the numbers before
  lemma {:induction false} LastSteady(lim: Limits, ds: seq<Datagram>, evs: seq<Event>, ps: seq<Packet>, key: Key,
                                      f: nat, a: seq<nat>)
    requires Fit(lim, ds) && Fragments(ps, key) && Among(evs, ps, key) && evs != []
    requires forall i :: 0 <= i < |ps| ==> WellFormed(ps[i])
    requires Fits(lim, ps) && Undisturbed(lim, ds, evs, key, f)
    requires Steady(lim, Entry(State(lim, ds, evs[..|evs| - 1]), key), evs[..|evs| - 1], ps, a, f)
    requires IsOwn(evs[|evs| - 1], key) ==>
               var j := Number(ps, evs[|evs| - 1].packet);
               !Fooled(Seen(a), j, |ps|) && !Full(Seen(a + [j]), |ps|)
    ensures IsOwn(evs[|evs| - 1], key) ==> Out(lim, ds, evs, |evs| - 1) == None
    ensures var a' := if IsOwn(evs[|evs| - 1], key) then a + [Number(ps, evs[|evs| - 1].packet)] else a;
            Steady(lim, Entry(State(lim, ds, evs), key), evs, ps, a', f)
  {
    hide Happen, Entry, Holds, Steady, Fit, Fits, Fragments, Full, Fooled, Whole, Acceptable, Seen, Seconds, Out;
    var m := |evs| - 1;
    if IsOwn(evs[m], key) {
      OwnSteady(lim, ds, evs, ps, key, f, a);
    } else {
      StateFit(lim, ds, evs[..m]);
      assert Spared(lim, ds, evs, key, m);
      assert evs[..m + 1] == evs;
      SteadyOther(lim, State(lim, ds, evs[..m]), evs[m], evs, ps, key, a, f);
    }
  }

  // as long as the check is not fooled and fragments are missing, nothing is handed up and nothing is lost
  lemma {:induction false} StaysSteady(lim: Limits, ds: seq<Datagram>, evs: seq<Event>, ps: seq<Packet>, key: Key,
                                       f: nat)
    requires Fit(lim, ds) && Entry(ds, key) == None && Fragments(ps, key) && Among(evs, ps, key)
    requires forall i :: 0 <= i < |ps| ==> WellFormed(ps[i])
    requires Fits(lim, ps) && Undisturbed(lim, ds, evs, key, f)
    requires NeverFooled(Numbers(evs, ps, key), |ps|) && !Full(Seen(Numbers(evs, ps, key)), |ps|)
    ensures Steady(lim, Entry(State(lim, ds, evs), key), evs, ps, Numbers(evs, ps, key), f)
    ensures NothingOut(lim, ds, evs, key)
    decreases |evs|
  {
    if evs == [] {
      HoldsNothing(ps);
      NoNumbers(ps, key);
    } else {
      hide State, Entry, Steady, Fit, Fits, Fragments, Full, Fooled, NeverFooled, Seen, Numbers, Number, NothingOut,
           Undisturbed, Out;
      var m := |evs| - 1;
      UndisturbedPrefix(lim, ds, evs, key, f, m);
      NumbersBefore(evs, ps, key);
      StaysSteady(lim, ds, evs[..m], ps, key, f);
      LastSteady(lim, ds, evs, ps, key, f, Numbers(evs[..m], ps, key));
      NothingOutStep(lim, ds, evs, key);
    }
  }

  lemma {:induction false} NoNumbers(ps: seq<Packet>, key: Key)
    ensures Numbers([], ps, key) == []
  {
  }

  // the last event is a packet of the datagram
  lemma {:induction false} OwnSteady(lim: Limits, ds: seq<Datagram>, evs: seq<Event>, ps: seq<Packet>, key: Key,
                                     f: nat, a: seq<nat>)
    requires Fit(lim, ds) && Fragments(ps, key) && Among(evs, ps, key) && evs != [] && IsOwn(evs[|evs| - 1], key)
    requires forall i :: 0 <= i < |ps| ==> WellFormed(ps[i])
    requires Fits(lim, ps) && Undisturbed(lim, ds, evs, key, f)
    requires Steady(lim, Entry(State(lim, ds, evs[..|evs| - 1]), key), evs[..|evs| - 1], ps, a, f)
    ensures var j, r := Number(ps, evs[|evs| - 1].packet), Out(lim, ds, evs, |evs| - 1);
            if Full(Seen(a + [j]), |ps|) then r == Some(Whole(ps))
            else if Fooled(Seen(a), j, |ps|) then r.Some?
            else r == None && Steady(lim, Entry(State(lim, ds, evs), key), evs, ps, a + [j], f)
  {
    hide Serve, Entry, Holds, Fit, Fits, Fragments, Full, Fooled, Whole, Acceptable, Seen, Seconds;
    var m := |evs| - 1;
    var e, before := evs[m], State(lim, ds, evs[..m]);
    StateFit(lim, ds, evs[..m]);
    HoldsSome(Entry(before, key), ps, a);
    OwnArrival(lim, before, e.packet, ps, key, a, Number(ps, e.packet));
    SecondsOne(e);
    SecondsStep(evs, f);
    assert evs[..m][f..] == evs[f..m];
    NoSeconds();
    assert f == m ==> evs[f..m] == [];
  }

  /** The fragments arrive in any order, with any duplicates, the last missing one at the end, among packets of other
      datagrams and seconds of the timer, undisturbed and within the limit on pbufs. Exactly if no arrival fools the
      check for holes, the datagram is handed up then, and nothing before. */
  lemma {:induction false} RunExact(lim: Limits, ds: seq<Datagram>, evs: seq<Event>, ps: seq<Packet>, key: Key, f: nat)
    requires Fit(lim, ds) && Entry(ds, key) == None && Fragments(ps, key) && Among(evs, ps, key)
    requires forall i :: 0 <= i < |ps| ==> WellFormed(ps[i])
    requires Fits(lim, ps) && Undisturbed(lim, ds, evs, key, f)
    requires evs != [] && IsOwn(evs[|evs| - 1], key)
    requires !Full(Seen(Numbers(evs[..|evs| - 1], ps, key)), |ps|) && Full(Seen(Numbers(evs, ps, key)), |ps|)
    ensures (forall k :: 0 <= k < |evs| - 1 && IsOwn(evs[k], key) ==> Out(lim, ds, evs, k) == None)
            && Out(lim, ds, evs, |evs| - 1) == Some(Whole(ps))
            <==> NeverFooled(Numbers(evs, ps, key), |ps|)
  {
    hide State, Out, Entry, Fit, Fits, Fragments, Full, Fooled, Whole, NeverFooled, Seen, Seconds, Numbers,
         Undisturbed, Steady;
    var m, n := |evs| - 1, |ps|;
    var evs1, a := evs[..m], Numbers(evs, ps, key);
    var a1 := Numbers(evs1, ps, key);
    NumbersStep(evs, ps, key);
    assert a[..|a| - 1] == a1;
    if NeverFooled(a, n) {
      UnfooledSteps(a, n);
      UndisturbedPrefix(lim, ds, evs, key, f, m);
      StaysSteady(lim, ds, evs1, ps, key, f);
      OwnSteady(lim, ds, evs, ps, key, f, a1);
      forall k | 0 <= k < m && IsOwn(evs[k], key) ensures Out(lim, ds, evs, k) == None {
        OutPrefix(lim, ds, evs, m, k);
        assert evs1[k] == evs[k];
      }
    } else {
      var i := FirstFooled(a, n);
      NotFullBefore(a, i, n);
      LastNotFooled(a, n);
      var k := NumberAt(evs, ps, key, i);
      FooledEvent(lim, ds, evs, ps, key, f, i, k);
    }
  }

  lemma {:induction false} LastNotFooled(a: seq<nat>, n: nat)
    requires a != [] && Full(Seen(a), n)
    ensures !Fooled(Seen(a[..|a| - 1]), a[|a| - 1], n)
  {
    hide Fooled, Full, Seen;
    var a1, j := a[..|a| - 1], a[|a| - 1];
    assert a == a1 + [j];
    SeenStep(a1, j);
    if Fooled(Seen(a1), j, n) { FooledIsNotFull(Seen(a1), j, n); }
  }

  // the event that is arrival number i
  lemma {:induction false} NumberAt(evs: seq<Event>, ps: seq<Packet>, key: Key, i: nat) returns (k: nat)
    requires Among(evs, ps, key) && i < |Numbers(evs, ps, key)|
    ensures k < |evs| && IsOwn(evs[k], key)
    ensures Numbers(evs[..k], ps, key) == Numbers(evs, ps, key)[..i]
    ensures Number(ps, evs[k].packet) == Numbers(evs, ps, key)[i]
    ensures i < |Numbers(evs, ps, key)| - 1 && IsOwn(evs[|evs| - 1], key) ==> k < |evs| - 1
    decreases |evs|
  {
    var m := |evs| - 1;
    var a, a1 := Numbers(evs, ps, key), Numbers(evs[..m], ps, key);
    if i < |a1| {
      k := NumberAt(evs[..m], ps, key, i);
      assert evs[..m][..k] == evs[..k];
    } else {
      k := m;
    }
  }

  // the event that fools the check first
  lemma {:induction false} FooledEvent(lim: Limits, ds: seq<Datagram>, evs: seq<Event>, ps: seq<Packet>, key: Key,
                                       f: nat, i: nat, k: nat)
    requires Fit(lim, ds) && Entry(ds, key) == None && Fragments(ps, key) && Among(evs, ps, key)
    requires forall i :: 0 <= i < |ps| ==> WellFormed(ps[i])
    requires Fits(lim, ps) && Undisturbed(lim, ds, evs, key, f)
    requires k < |evs| && IsOwn(evs[k], key)
    requires var a := Numbers(evs[..k], ps, key);
             NeverFooled(a, |ps|) && !Full(Seen(a), |ps|) && Fooled(Seen(a), Number(ps, evs[k].packet), |ps|)
    ensures Out(lim, ds, evs, k).Some?
  {
    hide State, Out, Entry, Fit, Fits, Fragments, Full, Fooled, Whole, NeverFooled, Seen, Seconds, Numbers,
         Undisturbed, Steady;
    var a, j := Numbers(evs[..k], ps, key), Number(ps, evs[k].packet);
    UndisturbedPrefix(lim, ds, evs, key, f, k);
    UndisturbedPrefix(lim, ds, evs, key, f, k + 1);
    StaysSteady(lim, ds, evs[..k], ps, key, f);
    assert evs[..k + 1][..k] == evs[..k];
    OwnSteady(lim, ds, evs[..k + 1], ps, key, f, a);
    FooledIsNotFull(Seen(a), j, |ps|);
    SeenStep(a, j);
    OutPrefix(lim, ds, evs, k + 1, k);
  }

  // ---------- a foreign fragment ----------

  // the entry is there and holds an overlap
  ghost predicate Blocked(e: Option<Datagram>) { e.Some? && Overlapping(e.value.frags) }

  lemma {:induction false} BlockedStep(e: Option<Datagram>, p: Packet, maxAge: nat)
    requires WellFormed(p) && Blocked(e) && Sorted(e.value.frags)
    ensures var (e', r) := EntryStep(e, p, maxAge);
            Blocked(e') && r == None
  {
    hide Chained, Overlapping, Sorted, FragOf;
    NotedKeeps(e.value, p);
    OverlapStays(e.value.frags, FragOf(p), Noted(e.value, p).last);
  }

  lemma {:induction false} EntrySorted(lim: Limits, ds: seq<Datagram>, key: Key)
    requires Fit(lim, ds) && Entry(ds, key).Some?
    ensures Sorted(Entry(ds, key).value.frags)
  {
    assert Entry(ds, key).value in ds;
  }

  /** Once an overlap is queued, whoever sent it, nothing is handed up for the datagram as long as its entry is there,
      whatever else arrives. */
  lemma {:induction false} BlockedRun(lim: Limits, ds: seq<Datagram>, evs: seq<Event>, key: Key)
    requires Fit(lim, ds) && Blocked(Entry(ds, key)) && Events(evs)
    requires forall k :: 0 <= k < |evs| ==> Entry(State(lim, ds, evs[..k]), key).Some?
    ensures NothingOut(lim, ds, evs, key)
    ensures Entry(State(lim, ds, evs), key).Some? ==> Blocked(Entry(State(lim, ds, evs), key))
    decreases |evs|
  {
    if evs != [] {
      hide Happen, Entry, EntryStep, Blocked, Acceptable, Fit, NothingOut;
      var m := |evs| - 1;
      var before := State(lim, ds, evs[..m]);
      forall k | 0 <= k < m ensures Entry(State(lim, ds, evs[..m][..k]), key).Some? {
        assert evs[..m][..k] == evs[..k];
      }
      BlockedRun(lim, ds, evs[..m], key);
      StateFit(lim, ds, evs[..m]);
      BlockedOnce(lim, before, evs[m], key);
      NothingOutStep(lim, ds, evs, key);
    } else {
      NothingYet(lim, ds, key);
    }
  }

  lemma {:induction false} NothingYet(lim: Limits, ds: seq<Datagram>, key: Key)
    ensures NothingOut(lim, ds, [], key) && State(lim, ds, []) == ds
  {
  }

  lemma {:induction false} BlockedOnce(lim: Limits, ds: seq<Datagram>, e: Event, key: Key)
    requires Fit(lim, ds) && Blocked(Entry(ds, key)) && (e.Arrive? ==> WellFormed(e.packet))
    ensures var (ds', r) := Happen(lim, ds, e);
            (Entry(ds', key).Some? ==> Blocked(Entry(ds', key))) && (IsOwn(e, key) ==> r == None)
  {
    hide Happen, Entry, EntryStep, Acceptable, Fit, Overlapping, Sorted;
    HappenEntry(lim, ds, e, key);
    EntrySorted(lim, ds, key);
    if IsOwn(e, key) { BlockedStep(Entry(ds, key), e.packet, lim.age); }
  }
}
