/** The address resolution table: what each operation does to the table, and which packets and requests it hands on. */
module ArpTable {
  import opened Basics

  const ARP_TABLE_SIZE: nat := 10
  const ARP_MAXAGE: nat := 100
  const ARP_MAXPENDING: nat := 5
  const ARP_AGE_REREQUEST_USED_UNICAST: nat := ARP_MAXAGE - 30
  const ARP_AGE_REREQUEST_USED_BROADCAST: nat := ARP_MAXAGE - 15

  // addresses and packets are only compared and passed on
  type Ip = nat
  type Mac = nat
  type Packet = nat

  datatype Phase = Empty | Pending | Stable | Rerequesting1 | Rerequesting2

  datatype Entry = Entry(phase: Phase, ip: Ip, mac: Mac, ctime: nat, q: seq<Packet>)
  {
    predicate Used() { !phase.Empty? }

    predicate Resolved() { phase.Stable? || phase.Rerequesting1? || phase.Rerequesting2? }

    predicate For(a: Ip) { Used() && ip == a }
  }

  /** What leaves the table or enters it. */
  datatype Act =
    | Taken(ip: Ip, p: Packet)                    // queued until the address is resolved
    | Sent(ip: Ip, p: Packet, mac: Mac)           // a queued packet goes out
    | Freed(ip: Ip, p: Packet)                    // a queued packet is given up
    | Direct(ip: Ip, p: Packet, mac: Mac)         // a packet goes out at once
    | Spread(ip: Ip, p: Packet)                   // to a broadcast or multicast address
    | Ask(ip: Ip)                                 // a request for an unresolved address
    | Refresh(ip: Ip, broadcast: bool)            // a request for an address that is about to expire
    | Reply(ip: Ip, mac: Mac)

  // where an address lies, as seen from the interface
  datatype Kind = Broadcast | Multicast | Local | Remote

  datatype Net = Net(own: Ip, gateway: Ip, kind: Ip -> Kind)
  {
    predicate Unicast(ip: Ip) { ip != 0 && kind(ip) != Broadcast && kind(ip) != Multicast }
  }

  type Table = seq<Entry>

  datatype Status = Ok | ErrArg | ErrMem | ErrRoute

  // ---------- searching ----------

  // the first entry in use for ip among the first n
  function Match(t: Table, ip: Ip, n: nat): (m: Option<nat>)
    requires n <= |t|
    ensures m.Some? ==> m.value < n && t[m.value].For(ip)
    ensures m.None? ==> forall j :: 0 <= j < n ==> !t[j].For(ip)
  {
    if n == 0 then None
    else
      var m := Match(t, ip, n - 1);
      if m.Some? then m else if t[n - 1].For(ip) then Some(n - 1) else None
  }

  // how dear an entry is: empty, resolved, waiting, waiting with packets
  function Rank(e: Entry): nat {
    if e.phase.Empty? then 0 else if e.Resolved() then 1 else if e.q == [] then 2 else 3
  }

  function FirstEmpty(t: Table, n: nat): Option<nat>
    requires n <= |t|
  {
    if n == 0 then None
    else
      var f := FirstEmpty(t, n - 1);
      if f.Some? then f else if t[n - 1].phase.Empty? then Some(n - 1) else None
  }

  // the oldest entry of one rank among the first n, the last of equals
  function Oldest(t: Table, rank: nat, n: nat): (o: Option<nat>)
    requires n <= |t|
    ensures o.Some? ==> o.value < n && Rank(t[o.value]) == rank
  {
    if n == 0 then None
    else
      var o := Oldest(t, rank, n - 1);
      if Rank(t[n - 1]) == rank && (o.None? || t[n - 1].ctime >= t[o.value].ctime) then Some(n - 1) else o
  }

  function Victim(t: Table): Option<nat> {
    if FirstEmpty(t, |t|).Some? then FirstEmpty(t, |t|)
    else if Oldest(t, 1, |t|).Some? then Oldest(t, 1, |t|)
    else if Oldest(t, 2, |t|).Some? then Oldest(t, 2, |t|)
    else Oldest(t, 3, |t|)
  }

  lemma {:induction false} FirstEmptyIs(t: Table, n: nat)
    requires n <= |t|
    ensures var f := FirstEmpty(t, n);
            if f.Some? then f.value < n && Rank(t[f.value]) == 0 && (forall j :: 0 <= j < f.value ==> Rank(t[j]) > 0)
            else forall j :: 0 <= j < n ==> Rank(t[j]) > 0
  {
    if n > 0 { FirstEmptyIs(t, n - 1); }
  }

  lemma {:induction false} OldestIs(t: Table, rank: nat, n: nat)
    requires n <= |t|
    ensures var o := Oldest(t, rank, n);
            if o.Some? then
              && (forall j :: 0 <= j < n && Rank(t[j]) == rank ==> t[j].ctime <= t[o.value].ctime)
              && (forall j :: o.value < j < n && Rank(t[j]) == rank ==> t[j].ctime < t[o.value].ctime)
            else forall j :: 0 <= j < n ==> Rank(t[j]) != rank
  {
    if n > 0 { OldestIs(t, rank, n - 1); }
  }

  /** A full search recycles the first empty entry, or else the oldest entry of the least dear rank (the last of equally
      old ones); in a table with any entry at all it never fails. */
  lemma {:induction false} VictimIsCheapest(t: Table)
    requires |t| > 0
    ensures var v := Victim(t);
            && v.Some? && v.value < |t|
            && (forall j :: 0 <= j < |t| ==> Rank(t[v.value]) <= Rank(t[j]))
            && (Rank(t[v.value]) == 0 ==> forall j :: 0 <= j < v.value ==> Rank(t[j]) > 0)
            && (Rank(t[v.value]) > 0 ==>
                  && (forall j :: 0 <= j < |t| && Rank(t[j]) == Rank(t[v.value]) ==> t[j].ctime <= t[v.value].ctime)
                  && (forall j :: v.value < j < |t| && Rank(t[j]) == Rank(t[v.value])
                        ==> t[j].ctime < t[v.value].ctime))
  {
    FirstEmptyIs(t, |t|);
    OldestIs(t, 1, |t|);
    OldestIs(t, 2, |t|);
    OldestIs(t, 3, |t|);
    assert Rank(t[0]) == 0 || Rank(t[0]) == 1 || Rank(t[0]) == 2 || Rank(t[0]) == 3;
  }

  // ---------- operations ----------

  function FreedAll(ip: Ip, q: seq<Packet>): (a: seq<Act>)
    ensures |a| == |q| && forall i :: 0 <= i < |a| ==> a[i] == Freed(ip, q[i])
  {
    seq(|q|, i requires 0 <= i < |q| => Freed(ip, q[i]))
  }

  function SentAll(ip: Ip, q: seq<Packet>, mac: Mac): (a: seq<Act>)
    ensures |a| == |q| && forall i :: 0 <= i < |a| ==> a[i] == Sent(ip, q[i], mac)
  {
    seq(|q|, i requires 0 <= i < |q| => Sent(ip, q[i], mac))
  }

  datatype Result = Result(table: Table, acts: seq<Act>)

  // the entry for ip; if there is none and `hard` is set, a recycled one, still empty
  function Find(t: Table, ip: Ip, hard: bool): (r: (Option<nat>, Result))
    ensures r.0.Some? ==> r.0.value < |r.1.table|
    ensures |r.1.table| == |t|
  {
    var m := Match(t, ip, |t|);
    if m.Some? then (m, Result(t, []))
    else if !hard || t == [] then (None, Result(t, []))
    else
      VictimIsCheapest(t);
      var i := Victim(t).value;
      (Some(i), Result(t[i := Entry(Empty, ip, t[i].mac, 0, [])], FreedAll(t[i].ip, t[i].q)))
  }

  // ip is at mac
  function Update(t: Table, net: Net, ip: Ip, mac: Mac, hard: bool): (r: Result)
    ensures |r.table| == |t|
  {
    if !net.Unicast(ip) then Result(t, [])
    else
      var (i, r) := Find(t, ip, hard);
      if i.None? then r
      else
        var e := r.table[i.value];
        Result(r.table[i.value := Entry(Stable, e.ip, mac, 0, [])], r.acts + SentAll(e.ip, e.q, mac))
  }

  // a waiting entry takes one more packet; past the limit the oldest goes
  function Enqueue(e: Entry, p: Packet, limit: nat): (Entry, seq<Act>) {
    var q := e.q + [p];
    if |e.q| >= limit then (e.(q := q[1..]), [Taken(e.ip, p), Freed(e.ip, q[0])])
    else (e.(q := q), [Taken(e.ip, p)])
  }

  // the table and the entry used last
  datatype Cache = Cache(table: Table, hint: nat)

  // `copied`: memory for the queued packet could be had
  function Query(c: Cache, net: Net, ip: Ip, p: Option<Packet>, copied: bool, limit: nat): (r: (Cache, seq<Act>))
    ensures |r.0.table| == |c.table|
  {
    if !net.Unicast(ip) then (c, [])
    else
      var (i, r) := Find(c.table, ip, true);
      if i.None? then (Cache(r.table, c.hint), r.acts)
      else
        var found := r.table[i.value];
        var e := if found.phase.Empty? then found.(phase := Pending) else found;
        var asked := if found.phase.Empty? || p.None? then [Ask(e.ip)] else [];
        if p.Some? && e.Resolved() then
          (Cache(r.table, i.value), r.acts + asked + [Direct(e.ip, p.value, e.mac)])
        else
          var (e', acts) := if p.Some? && copied then Enqueue(e, p.value, limit) else (e, []);
          (Cache(r.table[i.value := e'], c.hint), r.acts + asked + acts)
  }

  // what the caller of a query is told; `asked`: a request could be sent
  function QueryStatus(t: Table, net: Net, ip: Ip, p: Option<Packet>, asked: bool, copied: bool): Status {
    if !net.Unicast(ip) then ErrArg
    else
      var (i, r) := Find(t, ip, true);
      if i.None? then ErrMem
      else if p.None? then (if asked then Ok else ErrMem)
      else if r.table[i.value].Resolved() || copied then Ok
      else ErrMem
  }

  // a packet for the resolved entry i; `asked`: a request could be sent
  function OutputTo(t: Table, i: nat, p: Packet, asked: bool): (r: Result)
    requires i < |t|
    ensures |r.table| == |t|
  {
    var e := t[i];
    if e.phase.Stable? && asked && e.ctime >= ARP_AGE_REREQUEST_USED_UNICAST then
      Result(t[i := e.(phase := Rerequesting1)],
             [Refresh(e.ip, e.ctime >= ARP_AGE_REREQUEST_USED_BROADCAST), Direct(e.ip, p, e.mac)])
    else Result(t, [Direct(e.ip, p, e.mac)])
  }

  // the first resolved entry for ip among the first n
  function Known(t: Table, ip: Ip, n: nat): (m: Option<nat>)
    requires n <= |t|
    ensures m.Some? ==> m.value < n && t[m.value].Resolved() && t[m.value].ip == ip
    ensures m.None? ==> forall j :: 0 <= j < n ==> !(t[j].Resolved() && t[j].ip == ip)
  {
    if n == 0 then None
    else
      var m := Known(t, ip, n - 1);
      if m.Some? then m else if t[n - 1].Resolved() && t[n - 1].ip == ip then Some(n - 1) else None
  }

  // the next hop of a unicast destination
  function NextHop(net: Net, dst: Ip): Option<Ip> {
    if net.kind(dst) != Remote then Some(dst) else if net.gateway != 0 then Some(net.gateway) else None
  }

  function Output(c: Cache, net: Net, dst: Ip, p: Packet, asked: bool, copied: bool, limit: nat): (Cache, seq<Act>) {
    if net.kind(dst) == Broadcast || net.kind(dst) == Multicast then (c, [Spread(dst, p)])
    else
      var hop := NextHop(net, dst);
      if hop.None? then (c, [])
      else
        var k := Known(c.table, hop.value, |c.table|);
        if k.Some? then
          var r := OutputTo(c.table, k.value, p, asked);
          (Cache(r.table, k.value), r.acts)
        else
          Query(c, net, hop.value, Some(p), copied, limit)
  }

  function OutputStatus(c: Cache, net: Net, dst: Ip, p: Packet, asked: bool, copied: bool): Status {
    if net.kind(dst) == Broadcast || net.kind(dst) == Multicast then Ok
    else
      var hop := NextHop(net, dst);
      if hop.None? then ErrRoute
      else if Known(c.table, hop.value, |c.table|).Some? then Ok
      else QueryStatus(c.table, net, hop.value, Some(p), asked, copied)
  }

  function Aged(e: Entry): (Entry, seq<Act>) {
    if e.phase.Empty? then (e, [])
    else
      var age := e.ctime + 1;
      if age >= ARP_MAXAGE || (e.phase.Pending? && age >= ARP_MAXPENDING) then
        (e.(phase := Empty, ctime := age, q := []), FreedAll(e.ip, e.q))
      else if e.phase.Rerequesting1? then (e.(phase := Rerequesting2, ctime := age), [])
      else if e.phase.Rerequesting2? then (e.(phase := Stable, ctime := age), [])
      else if e.phase.Pending? then (e.(ctime := age), [Ask(e.ip)])
      else (e.(ctime := age), [])
  }

  // the first n entries grow older
  function Tick(t: Table, n: nat): (r: Result)
    requires n <= |t|
    ensures |r.table| == |t|
    ensures forall j :: 0 <= j < n ==> r.table[j] == Aged(t[j]).0
    ensures forall j :: n <= j < |t| ==> r.table[j] == t[j]
  {
    if n == 0 then Result(t, [])
    else
      var r := Tick(t, n - 1);
      var (e, acts) := Aged(t[n - 1]);
      Result(r.table[n - 1 := e], r.acts + acts)
  }

  // ---------- what every operation keeps ----------

  ghost predicate Unique(t: Table) {
    forall i, j :: 0 <= i < j < |t| && t[i].Used() && t[j].Used() ==> t[i].ip != t[j].ip
  }

  ghost predicate EntryGood(e: Entry, limit: nat) {
    && (e.q != [] ==> e.phase.Pending?)
    && |e.q| <= limit
    && (e.Used() ==> e.ctime < ARP_MAXAGE)
    && (e.phase.Pending? ==> e.ctime < ARP_MAXPENDING)
  }

  /** One entry per address, packets only on waiting entries and no more than the limit, ages below their bounds. */
  ghost predicate Good(t: Table, limit: nat) {
    && |t| == ARP_TABLE_SIZE
    && Unique(t)
    && forall i :: 0 <= i < |t| ==> EntryGood(t[i], limit)
  }

  lemma {:induction false} OneEach(t: Table, limit: nat)
    requires Good(t, limit)
    ensures Unique(t)
  {
  }

  // the packets waiting for ip
  function QueueOf(t: Table, ip: Ip): seq<Packet> {
    var m := Match(t, ip, |t|);
    if m.Some? then t[m.value].q else []
  }

  // the packets for ip that the acts take in
  function TakenFor(acts: seq<Act>, ip: Ip): seq<Packet> {
    if acts == [] then []
    else
      var a := acts[|acts| - 1];
      TakenFor(acts[..|acts| - 1], ip) + (if a.Taken? && a.ip == ip then [a.p] else [])
  }

  // the packets for ip that leave the queue, sent or freed
  function GoneFor(acts: seq<Act>, ip: Ip): seq<Packet> {
    if acts == [] then []
    else
      var a := acts[|acts| - 1];
      GoneFor(acts[..|acts| - 1], ip) + (if (a.Sent? || a.Freed?) && a.ip == ip then [a.p] else [])
  }

  lemma {:induction false} TakenJoin(a: seq<Act>, b: seq<Act>, ip: Ip)
    ensures TakenFor(a + b, ip) == TakenFor(a, ip) + TakenFor(b, ip)
  {
    if b == [] {
      assert a + b == a;
    } else {
      var m := |b| - 1;
      assert (a + b)[..|a + b| - 1] == a + b[..m];
      TakenJoin(a, b[..m], ip);
    }
  }

  lemma {:induction false} GoneJoin(a: seq<Act>, b: seq<Act>, ip: Ip)
    ensures GoneFor(a + b, ip) == GoneFor(a, ip) + GoneFor(b, ip)
  {
    if b == [] {
      assert a + b == a;
    } else {
      var m := |b| - 1;
      assert (a + b)[..|a + b| - 1] == a + b[..m];
      GoneJoin(a, b[..m], ip);
    }
  }

  lemma {:induction false} OneGone(a: Act, ip: Ip)
    requires a.Sent? || a.Freed?
    ensures TakenFor([a], ip) == [] && GoneFor([a], ip) == if a.ip == ip then [a.p] else []
    ensures TakenFor([], ip) == [] && GoneFor([], ip) == []
  {
    assert [a][..0] == [];
  }

  lemma {:induction false} LastOff(q: seq<Packet>)
    requires q != []
    ensures q == q[..|q| - 1] + [q[|q| - 1]]
    ensures q[..|q| - 1] + [] == q[..|q| - 1]
  {
  }

  lemma {:induction false} FreedAllMore(owner: Ip, q: seq<Packet>, p: Packet)
    ensures FreedAll(owner, q + [p]) == FreedAll(owner, q) + [Freed(owner, p)]
  {
  }

  lemma {:induction false} SentAllMore(owner: Ip, q: seq<Packet>, p: Packet, mac: Mac)
    ensures SentAll(owner, q + [p], mac) == SentAll(owner, q, mac) + [Sent(owner, p, mac)]
  {
  }

  lemma {:induction false} FreedAllGone(owner: Ip, q: seq<Packet>, ip: Ip)
    ensures TakenFor(FreedAll(owner, q), ip) == []
    ensures GoneFor(FreedAll(owner, q), ip) == if owner == ip then q else []
  {
    hide TakenFor, GoneFor, FreedAll;
    if q == [] {
      NoFreed(owner, ip);
    } else {
      var before, p := q[..|q| - 1], q[|q| - 1];
      var acts, a := FreedAll(owner, before), Freed(owner, p);
      FreedAllGone(owner, before, ip);
      OneGone(a, ip);
      TakenJoin(acts, [a], ip);
      GoneJoin(acts, [a], ip);
      FreedAllMore(owner, before, p);
      LastOff(q);
    }
  }

  lemma {:induction false} NoFreed(owner: Ip, ip: Ip)
    ensures TakenFor(FreedAll(owner, []), ip) == [] && GoneFor(FreedAll(owner, []), ip) == []
  {
    assert FreedAll(owner, []) == [];
  }

  lemma {:induction false} SentAllGone(owner: Ip, q: seq<Packet>, mac: Mac, ip: Ip)
    ensures TakenFor(SentAll(owner, q, mac), ip) == []
    ensures GoneFor(SentAll(owner, q, mac), ip) == if owner == ip then q else []
  {
    hide TakenFor, GoneFor, SentAll;
    if q == [] {
      NoSent(owner, mac, ip);
    } else {
      var before, p := q[..|q| - 1], q[|q| - 1];
      var acts, a := SentAll(owner, before, mac), Sent(owner, p, mac);
      SentAllGone(owner, before, mac, ip);
      OneGone(a, ip);
      TakenJoin(acts, [a], ip);
      GoneJoin(acts, [a], ip);
      SentAllMore(owner, before, p, mac);
      LastOff(q);
    }
  }

  lemma {:induction false} NoSent(owner: Ip, mac: Mac, ip: Ip)
    ensures TakenFor(SentAll(owner, [], mac), ip) == [] && GoneFor(SentAll(owner, [], mac), ip) == []
  {
    assert SentAll(owner, [], mac) == [];
  }

  // ---------- one entry at a time ----------

  lemma {:induction false} MatchUnique(t: Table, i: nat, ip: Ip)
    requires Unique(t) && i < |t| && t[i].For(ip)
    ensures Match(t, ip, |t|) == Some(i)
  {
  }

  // entry i is replaced, and no other entry is for the new address
  lemma {:induction false} Replaced(t: Table, i: nat, e: Entry, ip: Ip)
    requires Unique(t) && i < |t|
    requires e.Used() ==> forall j :: 0 <= j < |t| && j != i ==> !t[j].For(e.ip)
    ensures Unique(t[i := e])
    ensures QueueOf(t[i := e], ip) == if e.For(ip) then e.q else if t[i].For(ip) then [] else QueueOf(t, ip)
    ensures t[i].For(ip) ==> QueueOf(t, ip) == t[i].q
  {
    hide Match;
    var t' := t[i := e];
    assert Match(t, ip, |t|).None? ==> forall j :: 0 <= j < |t| ==> !t[j].For(ip);
    assert Match(t', ip, |t'|).None? ==> forall j :: 0 <= j < |t'| ==> !t'[j].For(ip);
    if t[i].For(ip) { MatchUnique(t, i, ip); }
    if e.For(ip) { MatchUnique(t', i, ip); }
    var m := Match(t, ip, |t|);
    if m.Some? && m.value != i && !e.For(ip) {
      assert t'[m.value].For(ip);
      MatchUnique(t', m.value, ip);
    }
    var m' := Match(t', ip, |t'|);
    if m'.Some? && m'.value != i {
      assert t[m'.value].For(ip);
    }
  }

  /** The packets for ip: those that were waiting and those taken in are those that left, in that order, and those that
      still wait. */
  ghost predicate Moves(t: Table, acts: seq<Act>, t': Table, ip: Ip) {
    QueueOf(t, ip) + TakenFor(acts, ip) == GoneFor(acts, ip) + QueueOf(t', ip)
  }

  lemma {:induction false} MovesJoin(t: Table, a: seq<Act>, t1: Table, b: seq<Act>, t2: Table, ip: Ip)
    requires Moves(t, a, t1, ip) && Moves(t1, b, t2, ip)
    ensures Moves(t, a + b, t2, ip)
  {
    TakenJoin(a, b, ip);
    GoneJoin(a, b, ip);
    Chain(QueueOf(t, ip), QueueOf(t1, ip), QueueOf(t2, ip), TakenFor(a, ip), TakenFor(b, ip), GoneFor(a, ip),
          GoneFor(b, ip));
  }

  lemma {:induction false} Chain(q: seq<Packet>, q1: seq<Packet>, q2: seq<Packet>, ta: seq<Packet>, tb: seq<Packet>,
                                 ga: seq<Packet>, gb: seq<Packet>)
    requires q + ta == ga + q1 && q1 + tb == gb + q2
    ensures q + (ta + tb) == (ga + gb) + q2
  {
    assert q + (ta + tb) == (q + ta) + tb;
    assert (ga + q1) + tb == ga + (q1 + tb);
    assert ga + (gb + q2) == (ga + gb) + q2;
  }

  // a search changes at most one entry: the recycled one, whose packets are freed
  lemma {:induction false} FindKeeps(t: Table, ip: Ip, hard: bool, limit: nat, a: Ip)
    requires Good(t, limit)
    ensures var (i, r) := Find(t, ip, hard);
            && Good(r.table, limit) && Moves(t, r.acts, r.table, a)
            && (i.None? <==> !hard && Match(t, ip, |t|).None?)
            && (i.None? ==> r.table == t)
            && (i.Some? ==> Claimed(r.table, i.value, ip))
  {
    hide QueueOf, TakenFor, GoneFor, Victim, Match;
    var (i, r) := Find(t, ip, hard);
    NothingMoves(t, a);
    if Match(t, ip, |t|).Some? {
    } else if hard {
      VictimIsCheapest(t);
      var e := Entry(Empty, ip, t[i.value].mac, 0, []);
      Replaced(t, i.value, e, a);
      FreedAllGone(t[i.value].ip, t[i.value].q, a);
    }
  }

  lemma {:induction false} NothingMoves(t: Table, ip: Ip)
    ensures Moves(t, [], t, ip)
  {
  }

  // entry i is the one for ip, or may become it
  ghost predicate Claimed(t: Table, i: nat, ip: Ip) {
    && i < |t| && t[i].ip == ip
    && (forall j :: 0 <= j < |t| && j != i ==> !t[j].For(ip))
    && (t[i].phase.Empty? ==> t[i].q == [] && t[i].ctime == 0)
  }

  lemma {:induction false} ClaimedQueue(t: Table, i: nat, ip: Ip)
    requires Unique(t) && Claimed(t, i, ip)
    ensures QueueOf(t, ip) == t[i].q
  {
    if t[i].Used() { MatchUnique(t, i, ip); }
  }

  lemma {:induction false} UpdateKeeps(t: Table, net: Net, ip: Ip, mac: Mac, hard: bool, limit: nat, a: Ip)
    requires Good(t, limit)
    ensures var r := Update(t, net, ip, mac, hard);
            Good(r.table, limit) && Moves(t, r.acts, r.table, a)
  {
    hide QueueOf, TakenFor, GoneFor, Find, Match;
    NothingMoves(t, a);
    if net.Unicast(ip) {
      FindKeeps(t, ip, hard, limit, a);
      var (i, r) := Find(t, ip, hard);
      if i.Some? {
        var e := r.table[i.value];
        ClaimedQueue(r.table, i.value, ip);
        Replaced(r.table, i.value, Entry(Stable, e.ip, mac, 0, []), a);
        SentAllGone(e.ip, e.q, mac, a);
        MovesJoin(t, r.acts, r.table, SentAll(e.ip, e.q, mac), Update(t, net, ip, mac, hard).table, a);
      }
    }
  }

  // acts that leave every queue alone
  ghost predicate Idle(acts: seq<Act>) {
    forall i :: 0 <= i < |acts| ==> !acts[i].Taken? && !acts[i].Sent? && !acts[i].Freed?
  }

  lemma {:induction false} IdleMoves(acts: seq<Act>, ip: Ip)
    requires Idle(acts)
    ensures TakenFor(acts, ip) == [] && GoneFor(acts, ip) == []
  {
    if acts != [] { IdleMoves(acts[..|acts| - 1], ip); }
  }

  lemma {:induction false} EnqueueKeeps(e: Entry, p: Packet, limit: nat, a: Ip)
    requires EntryGood(e, limit) && e.phase.Pending? && limit > 0
    ensures var (e', acts) := Enqueue(e, p, limit);
            && EntryGood(e', limit) && e'.phase.Pending? && e'.ip == e.ip
            && (if a == e.ip then e.q + TakenFor(acts, a) == GoneFor(acts, a) + e'.q
                else TakenFor(acts, a) == [] && GoneFor(acts, a) == [])
  {
    var q := e.q + [p];
    var took: seq<Act> := [Taken(e.ip, p)];
    assert took[..0] == [];
    assert TakenFor([], a) == [] && GoneFor([], a) == [];
    assert TakenFor(took, a) == (if a == e.ip then [p] else []) && GoneFor(took, a) == [];
    if |e.q| >= limit {
      var acts := took + [Freed(e.ip, q[0])];
      assert acts[..1] == took;
      assert q == [q[0]] + q[1..];
    }
  }

  lemma {:induction false} QueryKeeps(c: Cache, net: Net, ip: Ip, p: Option<Packet>, copied: bool, limit: nat, a: Ip)
    requires Good(c.table, limit) && limit > 0
    ensures var (c', acts) := Query(c, net, ip, p, copied, limit);
            Good(c'.table, limit) && Moves(c.table, acts, c'.table, a)
  {
    hide QueueOf, TakenFor, GoneFor, Find, Match, Enqueue;
    NothingMoves(c.table, a);
    if net.Unicast(ip) {
      FindKeeps(c.table, ip, true, limit, a);
      var (i, r) := Find(c.table, ip, true);
      assert i.Some?;
      QueryClaimed(c, net, ip, p, copied, limit, a, i.value, r);
    }
  }

  lemma {:induction false} QueryClaimed(c: Cache, net: Net, ip: Ip, p: Option<Packet>, copied: bool, limit: nat, a: Ip,
                                        i: nat, r: Result)
    requires Good(r.table, limit) && limit > 0 && net.Unicast(ip) && |r.table| == |c.table|
    requires Find(c.table, ip, true) == (Some(i), r) && Claimed(r.table, i, ip) && Moves(c.table, r.acts, r.table, a)
    ensures var (c', acts) := Query(c, net, ip, p, copied, limit);
            Good(c'.table, limit) && Moves(c.table, acts, c'.table, a)
  {
    hide QueueOf, TakenFor, GoneFor, Find, Match, Enqueue;
    var found := r.table[i];
    var e := if found.phase.Empty? then found.(phase := Pending) else found;
    var asked := if found.phase.Empty? || p.None? then [Ask(e.ip)] else [];
    var (c', acts) := Query(c, net, ip, p, copied, limit);
    ClaimedQueue(r.table, i, ip);
    Replaced(r.table, i, e, a);
    var t1 := r.table[i := e];
    IdleMoves(asked, a);
    assert Moves(r.table, asked, t1, a);
    MovesJoin(c.table, r.acts, r.table, asked, t1, a);
    if p.Some? && e.Resolved() {
      var direct := [Direct(e.ip, p.value, e.mac)];
      IdleMoves(direct, a);
      assert Moves(t1, direct, t1, a);
      MovesJoin(c.table, r.acts + asked, t1, direct, t1, a);
      assert t1 == r.table;
    } else if p.Some? && copied {
      var (e', more) := Enqueue(e, p.value, limit);
      EnqueueKeeps(e, p.value, limit, a);
      Replaced(t1, i, e', a);
      assert t1[i := e'] == r.table[i := e'];
      MovesJoin(c.table, r.acts + asked, t1, more, t1[i := e'], a);
    } else {
      assert r.acts + asked + [] == r.acts + asked;
    }
  }

  lemma {:induction false} OutputToKeeps(t: Table, i: nat, p: Packet, asked: bool, limit: nat, a: Ip)
    requires Good(t, limit) && i < |t| && t[i].Resolved()
    ensures var r := OutputTo(t, i, p, asked);
            Good(r.table, limit) && Moves(t, r.acts, r.table, a)
  {
    hide QueueOf, TakenFor, GoneFor, Match;
    var r := OutputTo(t, i, p, asked);
    IdleMoves(r.acts, a);
    assert r.table == t[i := r.table[i]];
    Replaced(t, i, r.table[i], a);
  }

  lemma {:induction false} OutputKeeps(c: Cache, net: Net, dst: Ip, p: Packet, asked: bool, copied: bool, limit: nat,
                                       a: Ip)
    requires Good(c.table, limit) && limit > 0
    ensures var (c', acts) := Output(c, net, dst, p, asked, copied, limit);
            Good(c'.table, limit) && Moves(c.table, acts, c'.table, a)
  {
    hide QueueOf, TakenFor, GoneFor, OutputTo, Query, Good, Moves;
    NothingMoves(c.table, a);
    SpreadMoves(c.table, dst, p, a);
    var hop := NextHop(net, dst);
    if hop.Some? {
      var k := Known(c.table, hop.value, |c.table|);
      if k.Some? {
        OutputToKeeps(c.table, k.value, p, asked, limit, a);
      } else {
        QueryKeeps(c, net, hop.value, Some(p), copied, limit, a);
      }
    }
  }

  lemma {:induction false} SpreadMoves(t: Table, dst: Ip, p: Packet, ip: Ip)
    ensures Moves(t, [Spread(dst, p)], t, ip)
  {
    IdleMoves([Spread(dst, p)], ip);
  }

  lemma {:induction false} AgedKeeps(e: Entry, limit: nat)
    requires EntryGood(e, limit)
    ensures EntryGood(Aged(e).0, limit)
    ensures Aged(e).0.Used() ==> e.Used()
    ensures Aged(e).0.ip == e.ip
  {
  }

  lemma {:induction false} TickKeeps(t: Table, n: nat, limit: nat, a: Ip)
    requires Good(t, limit) && n <= |t|
    ensures Good(Tick(t, n).table, limit) && Moves(t, Tick(t, n).acts, Tick(t, n).table, a)
  {
    hide QueueOf, TakenFor, GoneFor, Match, Aged;
    if n == 0 {
      NothingMoves(t, a);
    } else {
      TickKeeps(t, n - 1, limit, a);
      var r := Tick(t, n - 1);
      var (e, acts) := Aged(t[n - 1]);
      AgedKeeps(t[n - 1], limit);
      AgedMoves(t[n - 1], a);
      Replaced(r.table, n - 1, e, a);
      MovesJoin(t, r.acts, r.table, acts, r.table[n - 1 := e], a);
    }
  }

  lemma {:induction false} AgedMoves(e: Entry, a: Ip)
    requires e.phase.Empty? ==> e.q == []
    requires e.q != [] ==> e.phase.Pending?
    ensures var (e', acts) := Aged(e);
            && TakenFor(acts, a) == []
            && (if e.For(a) then e.q == GoneFor(acts, a) + (if e'.Used() then e'.q else []) else GoneFor(acts, a) == [])
  {
    FreedAllGone(e.ip, e.q, a);
    IdleMoves([Ask(e.ip)], a);
    IdleMoves([], a);
  }

  // ---------- what the caller is told ----------

  // the acts send the packet or take it in
  ghost predicate CaredFor(acts: seq<Act>, p: Packet) {
    exists k :: 0 <= k < |acts| && (acts[k].Direct? || acts[k].Taken? || acts[k].Spread?) && acts[k].p == p
  }

  lemma {:induction false} FindActs(t: Table, ip: Ip, hard: bool)
    ensures forall k :: 0 <= k < |Find(t, ip, hard).1.acts| ==> Find(t, ip, hard).1.acts[k].Freed?
  {
    hide Match, Victim;
  }

  lemma {:induction false} CaredForIff(freed: seq<Act>, asked: seq<Act>, acts: seq<Act>, p: Packet)
    requires forall k :: 0 <= k < |freed| ==> freed[k].Freed?
    requires forall k :: 0 <= k < |asked| ==> asked[k].Ask?
    ensures CaredFor(freed + asked + acts, p) <==> CaredFor(acts, p)
  {
    var all := freed + asked + acts;
    var m := |freed + asked|;
    if CaredFor(acts, p) {
      var k :| 0 <= k < |acts| && (acts[k].Direct? || acts[k].Taken? || acts[k].Spread?) && acts[k].p == p;
      assert all[m + k] == acts[k];
    }
    if CaredFor(all, p) {
      var k :| 0 <= k < |all| && (all[k].Direct? || all[k].Taken? || all[k].Spread?) && all[k].p == p;
      assert k >= m && all[k] == acts[k - m];
    }
  }

  /** A query that is given a packet reports success exactly if the packet was sent or taken in. */
  lemma {:induction false} QueryStatusTells(c: Cache, net: Net, ip: Ip, p: Packet, asked: bool, copied: bool,
                                            limit: nat)
    ensures QueryStatus(c.table, net, ip, Some(p), asked, copied) == Ok
            <==> CaredFor(Query(c, net, ip, Some(p), copied, limit).1, p)
  {
    hide Find, CaredFor;
    FindActs(c.table, ip, true);
    NobodyCares([], p);
    if net.Unicast(ip) {
      var (i, r) := Find(c.table, ip, true);
      NobodyCares(r.acts, p);
      if i.Some? {
        var found := r.table[i.value];
        var e := if found.phase.Empty? then found.(phase := Pending) else found;
        var asks := if found.phase.Empty? then [Ask(e.ip)] else [];
        CaredForIff(r.acts, asks, [], p);
        CaredForIff(r.acts, asks, [Direct(e.ip, p, e.mac)], p);
        CaredForIff(r.acts, asks, Enqueue(e, p, limit).1, p);
        FirstCares([Direct(e.ip, p, e.mac)], p);
        FirstCares(Enqueue(e, p, limit).1, p);
      }
    }
  }

  lemma {:induction false} NobodyCares(acts: seq<Act>, p: Packet)
    requires forall k :: 0 <= k < |acts| ==> acts[k].Freed?
    ensures !CaredFor(acts, p)
  {
  }

  lemma {:induction false} FirstCares(acts: seq<Act>, p: Packet)
    requires acts != [] && (acts[0].Direct? || acts[0].Taken? || acts[0].Spread?) && acts[0].p == p
    ensures CaredFor(acts, p)
  {
  }

  /** Output reports success exactly if the packet was sent or taken in. */
  lemma {:induction false} OutputStatusTells(c: Cache, net: Net, dst: Ip, p: Packet, asked: bool, copied: bool,
                                             limit: nat)
    ensures OutputStatus(c, net, dst, p, asked, copied) == Ok
            <==> CaredFor(Output(c, net, dst, p, asked, copied, limit).1, p)
  {
    hide Query, QueryStatus, Known, CaredFor;
    NobodyCares([], p);
    FirstCares([Spread(dst, p)], p);
    var hop := NextHop(net, dst);
    if hop.Some? {
      QueryStatusTells(c, net, hop.value, p, asked, copied, limit);
      var k := Known(c.table, hop.value, |c.table|);
      if k.Some? { OutputToCares(c.table, k.value, p, asked); }
    }
  }

  lemma {:induction false} OutputToCares(t: Table, i: nat, p: Packet, asked: bool)
    requires i < |t|
    ensures CaredFor(OutputTo(t, i, p, asked).acts, p)
  {
    var acts := OutputTo(t, i, p, asked).acts;
    assert acts[|acts| - 1] == Direct(t[i].ip, p, t[i].mac);
  }
}
