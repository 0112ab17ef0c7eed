/** What one operation of the address resolution does, told of the table and the acts alone: which entry is recycled,
    what news of an address changes, where a packet is routed, and what a second does to each entry. */
module ArpLaws {
  import opened Basics
  import opened ArpTable
  import ArpRun

  // ---------- recycling ----------

  // v is the oldest entry of those that `among` picks, the last of equally old ones
  ghost predicate OldestOf(t: Table, v: nat, among: Entry -> bool) {
    && v < |t| && among(t[v])
    && (forall j :: 0 <= j < |t| && among(t[j]) ==> t[j].ctime <= t[v].ctime)
    && (forall j :: v < j < |t| && among(t[j]) ==> t[j].ctime < t[v].ctime)
  }

  ghost predicate Any(t: Table, among: Entry -> bool) { exists j :: 0 <= j < |t| && among(t[j]) }

  /** The entry that makes way: the first empty one; or else the oldest resolved one; or else the oldest that waits
      without packets; or else the oldest of all. */
  ghost predicate MakesWay(t: Table, v: nat) {
    v < |t| &&
    if Any(t, (e: Entry) => e.phase.Empty?) then
      t[v].phase.Empty? && forall j :: 0 <= j < v ==> !t[j].phase.Empty?
    else if Any(t, (e: Entry) => !e.phase.Pending?) then OldestOf(t, v, (e: Entry) => !e.phase.Pending?)
    else if Any(t, (e: Entry) => e.q == []) then OldestOf(t, v, (e: Entry) => e.q == [])
    else OldestOf(t, v, (e: Entry) => true)
  }

  // the packets of q are freed, in order
  ghost predicate FreedInOrder(acts: seq<Act>, ip: Ip, q: seq<Packet>) {
    |acts| == |q| && forall k :: 0 <= k < |q| ==> acts[k] == Freed(ip, q[k])
  }

  // the packets of q go out to mac, in order
  ghost predicate SentInOrder(acts: seq<Act>, ip: Ip, q: seq<Packet>, mac: Mac) {
    |acts| == |q| && forall k :: 0 <= k < |q| ==> acts[k] == Sent(ip, q[k], mac)
  }

  lemma {:induction false} RanksTell(t: Table, v: nat)
    requires v < |t| && forall j :: 0 <= j < |t| ==> Rank(t[v]) <= Rank(t[j])
    ensures Rank(t[v]) == 0 <==> Any(t, (e: Entry) => e.phase.Empty?)
    ensures Rank(t[v]) <= 1 <==> Any(t, (e: Entry) => !e.phase.Pending?)
    ensures Rank(t[v]) == 2 ==> Any(t, (e: Entry) => e.q == [])
    ensures Rank(t[v]) == 3 ==> !Any(t, (e: Entry) => e.q == [])
  {
    assert t[v].phase.Empty? ==> Any(t, (e: Entry) => e.phase.Empty?);
    assert !t[v].phase.Pending? ==> Any(t, (e: Entry) => !e.phase.Pending?);
    assert t[v].q == [] ==> Any(t, (e: Entry) => e.q == []);
  }

  lemma {:induction false} CheapestMakesWay(t: Table)
    requires |t| > 0
    ensures Victim(t).Some? && MakesWay(t, Victim(t).value)
  {
    hide Victim, Any;
    VictimIsCheapest(t);
    var v := Victim(t).value;
    RanksTell(t, v);
    if Rank(t[v]) == 1 {
      assert OldestOf(t, v, (e: Entry) => !e.phase.Pending?);
    } else if Rank(t[v]) == 2 {
      assert OldestOf(t, v, (e: Entry) => e.q == []);
    } else if Rank(t[v]) == 3 {
      assert OldestOf(t, v, (e: Entry) => true);
    }
  }

  /** A search finds the entry in use for the address. If there is none and one may be recycled, the entry that makes
      way is taken: its packets are freed in order, it is empty and for the new address, and every other entry stays. */
  lemma {:induction false} FindRecycles(t: Table, ip: Ip, hard: bool) returns (v: nat)
    ensures var (i, r) := Find(t, ip, hard);
            if Any(t, (e: Entry) => e.For(ip)) then
              i.Some? && i.value < |t| && t[i.value].For(ip) && r == Result(t, [])
            else if !hard || t == [] then i.None? && r == Result(t, [])
            else
              && i == Some(v) && MakesWay(t, v)
              && FreedInOrder(r.acts, t[v].ip, t[v].q)
              && r.table == t[v := Entry(Empty, ip, t[v].mac, 0, [])]
  {
    hide Victim, Match, MakesWay;
    v := 0;
    var m := Match(t, ip, |t|);
    assert m.Some? ==> Any(t, (e: Entry) => e.For(ip));
    if m.None? && t != [] {
      CheapestMakesWay(t);
      v := Victim(t).value;
    }
  }

  // ---------- news of an address ----------

  // an address that no host can have
  ghost predicate NoHost(net: Net, ip: Ip) { ip == 0 || net.kind(ip) == Broadcast || net.kind(ip) == Multicast }

  /** A message from ip makes its entry stable with the address heard, and all that waited goes out there in order. An
      unknown address is entered, in the place of another entry, only if the message is for us; otherwise nothing
      changes. A reply is sent exactly for a request that is for us. */
  lemma {:induction false} HearTells(c: Cache, net: Net, ip: Ip, mac: Mac, forUs: bool, request: bool)
      returns (v: nat, served: seq<Act>)
    ensures var (c', acts) := ArpRun.Input(c, net, ip, mac, forUs, request);
            var t, us := c.table, forUs && net.own != 0;
            && c'.hint == c.hint
            && acts == served + (if us && request then [Reply(ip, mac)] else [])
            && (forall k :: 0 <= k < |served| ==> !served[k].Reply?)
            && if NoHost(net, ip) || (!Any(t, (e: Entry) => e.For(ip)) && (!us || t == [])) then
                 c'.table == t && served == []
               else
                 && v < |t| && c'.table == t[v := Entry(Stable, ip, mac, 0, [])]
                 && if Any(t, (e: Entry) => e.For(ip)) then t[v].For(ip) && SentInOrder(served, ip, t[v].q, mac)
                    else MakesWay(t, v) && FreedInOrder(served, t[v].ip, t[v].q)
  {
    hide Find, MakesWay, Any;
    var us := forUs && net.own != 0;
    served := Update(c.table, net, ip, mac, us).acts;
    v := 0;
    if !NoHost(net, ip) {
      v := FindRecycles(c.table, ip, us);
      var (i, r) := Find(c.table, ip, us);
      if i.Some? {
        v := i.value;
        assert SentAll(r.table[v].ip, [], mac) == [] && r.acts + [] == r.acts;
        assert r.acts == [] ==> r.acts + SentAll(ip, r.table[v].q, mac) == SentAll(ip, r.table[v].q, mac);
      }
    }
  }

  // ---------- queries ----------

  // the queue with one more packet, and what is reported of it
  ghost predicate OneMore(q: seq<Packet>, ip: Ip, p: Packet, limit: nat, q': seq<Packet>, acts: seq<Act>) {
    if |q| < limit then q' == q + [p] && acts == [Taken(ip, p)]
    else q' == (q + [p])[1..] && acts == [Taken(ip, p), Freed(ip, (q + [p])[0])]
  }

  /** A query for a known address sends to a resolved host, and queues for one that is not, giving up the oldest packet
      past the limit; it asks only when called without a packet. An unknown address gets the entry that makes way, is
      asked for, and starts its queue with the packet. */
  lemma {:induction false} QueryTells(c: Cache, net: Net, ip: Ip, p: Option<Packet>, asked: bool, copied: bool,
                                      limit: nat) returns (v: nat, freed: seq<Act>, asks: seq<Act>, served: seq<Act>)
    requires c.table != [] && limit > 0
    ensures var (c', acts) := Query(c, net, ip, p, copied, limit);
            var t := c.table;
            && acts == freed + asks + served
            && QueryStatus(t, net, ip, p, asked, copied)
               == (if NoHost(net, ip) then ErrArg else if (if p.Some? then served != [] else asked) then Ok else ErrMem)
            && if NoHost(net, ip) then c' == c && acts == []
               else if Any(t, (e: Entry) => e.For(ip)) then
                 && v < |t| && t[v].For(ip) && freed == [] && asks == (if p.None? then [Ask(ip)] else [])
                 && if p.Some? && !t[v].phase.Pending? then
                      c' == Cache(t, v) && served == [Direct(ip, p.value, t[v].mac)]
                    else if p.Some? && copied then
                      && |c'.table| == |t| && c' == Cache(t[v := t[v].(q := c'.table[v].q)], c.hint)
                      && OneMore(t[v].q, ip, p.value, limit, c'.table[v].q, served)
                    else c' == c && served == []
               else
                 && MakesWay(t, v) && FreedInOrder(freed, t[v].ip, t[v].q) && asks == [Ask(ip)]
                 && if p.Some? && copied then
                      && c' == Cache(t[v := Entry(Pending, ip, t[v].mac, 0, [p.value])], c.hint)
                      && served == [Taken(ip, p.value)]
                    else c' == Cache(t[v := Entry(Pending, ip, t[v].mac, 0, [])], c.hint) && served == []
  {
    hide Find, MakesWay, Any;
    var t := c.table;
    v, freed, asks, served := 0, [], [], [];
    if !NoHost(net, ip) {
      v := FindRecycles(t, ip, true);
      var (i, r) := Find(t, ip, true);
      v := i.value;
      var found := r.table[v];
      var e := if found.phase.Empty? then found.(phase := Pending) else found;
      freed := r.acts;
      asks := if found.phase.Empty? || p.None? then [Ask(ip)] else [];
      if p.Some? && e.Resolved() {
        served := [Direct(ip, p.value, e.mac)];
      } else if p.Some? && copied {
        served := Enqueue(e, p.value, limit).1;
      }
      assert freed + asks + [] == freed + asks;
      assert found.phase.Empty? && limit > 0 && p.Some? ==> found.q + [p.value] == [p.value];
    }
  }

  // ---------- routing ----------

  // whatever is sent, queued or asked for is for this hop
  ghost predicate GoesVia(acts: seq<Act>, hop: Ip) {
    forall k :: 0 <= k < |acts| && !acts[k].Freed? ==> acts[k].ip == hop && !acts[k].Spread? && !acts[k].Reply?
  }

  lemma {:induction false} QueryVia(c: Cache, net: Net, ip: Ip, p: Packet, copied: bool, limit: nat)
    requires limit > 0
    ensures GoesVia(Query(c, net, ip, Some(p), copied, limit).1, ip)
  {
    hide Any, MakesWay, Query;
    if c.table == [] {
      EmptyTable(c, net, ip, p, copied, limit);
    } else {
      var v, freed, asks, served := QueryTells(c, net, ip, Some(p), true, copied, limit);
    }
  }

  lemma {:induction false} EmptyTable(c: Cache, net: Net, ip: Ip, p: Packet, copied: bool, limit: nat)
    requires c.table == []
    ensures Query(c, net, ip, Some(p), copied, limit).1 == []
  {
  }

  /** Where a packet goes: to everyone for a broadcast or multicast address, to the host itself on the local net, to the
      gateway for all others. It has no route exactly if it is for a remote host and there is no gateway. */
  lemma {:induction false} OutputRoutes(c: Cache, net: Net, dst: Ip, p: Packet, asked: bool, copied: bool, limit: nat)
    requires limit > 0
    ensures var (c', acts) := Output(c, net, dst, p, asked, copied, limit);
            match net.kind(dst)
            case Broadcast => acts == [Spread(dst, p)] && c' == c
            case Multicast => acts == [Spread(dst, p)] && c' == c
            case Local => GoesVia(acts, dst)
            case Remote => if net.gateway != 0 then GoesVia(acts, net.gateway) else acts == [] && c' == c
    ensures OutputStatus(c, net, dst, p, asked, copied) == ErrRoute <==> net.kind(dst) == Remote && net.gateway == 0
  {
    hide Query;
    QueryVia(c, net, dst, p, copied, limit);
    QueryVia(c, net, net.gateway, p, copied, limit);
  }

  /** A resolved next hop is sent to at once, at its link address. If its entry is stable and 70 seconds old or more it
      is asked for again, by broadcast from 85 seconds on. An unresolved one is queried. */
  lemma {:induction false} HopServed(c: Cache, net: Net, dst: Ip, hop: Ip, k: nat, p: Packet, asked: bool, copied: bool,
                                     limit: nat)
    requires (net.kind(dst) == Local && hop == dst) || (net.kind(dst) == Remote && hop == net.gateway != 0)
    requires Unique(c.table)
    ensures var (c', acts) := Output(c, net, dst, p, asked, copied, limit);
            var t := c.table;
            if k < |t| && t[k].For(hop) && !t[k].phase.Pending? then
              && OutputStatus(c, net, dst, p, asked, copied) == Ok && c'.hint == k
              && if t[k].phase.Stable? && t[k].ctime >= 70 && asked then
                   && c'.table == t[k := t[k].(phase := Rerequesting1)]
                   && acts == [Refresh(hop, t[k].ctime >= 85), Direct(hop, p, t[k].mac)]
                 else c'.table == t && acts == [Direct(hop, p, t[k].mac)]
            else (forall j :: 0 <= j < |t| && t[j].For(hop) ==> t[j].phase.Pending?) ==>
                   && (c', acts) == Query(c, net, hop, Some(p), copied, limit)
                   && OutputStatus(c, net, dst, p, asked, copied)
                      == QueryStatus(t, net, hop, Some(p), asked, copied)
  {
    hide Query, QueryStatus;
    var m := Known(c.table, hop, |c.table|);
  }

  // ---------- the timer ----------

  // an entry after n seconds without news or use
  function Later(e: Entry, n: nat): Entry {
    if n == 0 then e else Aged(Later(e, n - 1)).0
  }

  /** An address that is asked for waits four more seconds, asked for in each of them; in the fifth it is given up with
      the packets that wait. */
  lemma {:induction false} PendingLives(e: Entry, n: nat)
    requires e.phase.Pending? && e.ctime == 0 && n < 5
    ensures Later(e, n) == e.(ctime := n)
    ensures n < 4 ==> Aged(Later(e, n)).1 == [Ask(e.ip)]
    ensures n == 4 ==> !Later(e, 5).Used() && FreedInOrder(Aged(Later(e, n)).1, e.ip, e.q)
  {
    if n > 0 { PendingLives(e, n - 1); }
  }

  /** A resolved address is held for 99 seconds, in silence, and given up in the hundredth. */
  lemma {:induction false} StableLives(e: Entry, n: nat)
    requires e.phase.Stable? && e.ctime == 0 && e.q == [] && n < 100
    ensures Later(e, n) == e.(ctime := n) && Aged(Later(e, n)).1 == []
    ensures n == 99 ==> !Later(e, 100).Used()
  {
    if n > 0 { StableLives(e, n - 1); }
  }

  /** Two seconds after a host was asked for again it may be asked for once more. */
  lemma {:induction false} RefreshRests(e: Entry)
    requires e.phase.Rerequesting1? && e.ctime < 98 && e.q == []
    ensures Later(e, 1) == e.(phase := Rerequesting2, ctime := e.ctime + 1)
    ensures Later(e, 2) == e.(phase := Stable, ctime := e.ctime + 2)
    ensures Aged(e).1 == Aged(Later(e, 1)).1 == []
  {
  }

  /** In one second the requests that go out are those for the entries that are still waiting afterwards. */
  lemma {:induction false} TickAsks(t: Table, n: nat, ip: Ip)
    requires n <= |t|
    ensures Ask(ip) in Tick(t, n).acts
            <==> exists j :: 0 <= j < n && t[j].phase.Pending? && t[j].ip == ip && t[j].ctime < 4
  {
    if n > 0 {
      TickAsks(t, n - 1, ip);
      AgedAsks(t[n - 1], ip);
    }
  }

  lemma {:induction false} AgedAsks(e: Entry, ip: Ip)
    ensures Ask(ip) in Aged(e).1 <==> e.phase.Pending? && e.ip == ip && e.ctime < 4
  {
  }
}
