/** Whole runs of the address resolution table: every sequence of received messages, outgoing packets, queries and timer
    ticks. */
module ArpRun {
  import opened Basics
  import opened ArpTable

  /** What can happen; `asked` and `copied` tell whether a request could be sent and a packet copied. */
  datatype Event =
    | Heard(ip: Ip, mac: Mac, forUs: bool, request: bool)
    | Out(dst: Ip, p: Packet, asked: bool, copied: bool)
    | Wanted(ip: Ip, packet: Option<Packet>, copied: bool)
    | Second

  // etharp_input on a well-formed message
  function Input(c: Cache, net: Net, ip: Ip, mac: Mac, forUs: bool, request: bool): (Cache, seq<Act>) {
    var us := forUs && net.own != 0;
    var r := Update(c.table, net, ip, mac, us);
    (Cache(r.table, c.hint), r.acts + (if request && us then [Reply(ip, mac)] else []))
  }

  function Step(c: Cache, net: Net, limit: nat, ev: Event): (Cache, seq<Act>) {
    match ev
    case Heard(ip, mac, forUs, request) => Input(c, net, ip, mac, forUs, request)
    case Out(dst, p, asked, copied) => Output(c, net, dst, p, asked, copied, limit)
    case Wanted(ip, packet, copied) => Query(c, net, ip, packet, copied, limit)
    case Second =>
      var r := Tick(c.table, |c.table|);
      (Cache(r.table, c.hint), r.acts)
  }

  function Initial(): Cache {
    Cache(seq(ARP_TABLE_SIZE, i => Entry(Empty, 0, 0, 0, [])), 0)
  }

  function Run(net: Net, limit: nat, evs: seq<Event>): (Cache, seq<Act>) {
    if evs == [] then (Initial(), [])
    else
      var (c, log) := Run(net, limit, evs[..|evs| - 1]);
      var (c', acts) := Step(c, net, limit, evs[|evs| - 1]);
      (c', log + acts)
  }

  lemma {:induction false} StepKeeps(c: Cache, net: Net, limit: nat, ev: Event, a: Ip)
    requires Good(c.table, limit) && limit > 0
    ensures var (c', acts) := Step(c, net, limit, ev);
            Good(c'.table, limit) && Moves(c.table, acts, c'.table, a)
  {
    hide Good, Moves, Update, Output, Query, Tick;
    match ev
    case Heard(ip, mac, forUs, request) =>
      var us := forUs && net.own != 0;
      UpdateKeeps(c.table, net, ip, mac, us, limit, a);
      var r := Update(c.table, net, ip, mac, us);
      var reply: seq<Act> := if request && us then [Reply(ip, mac)] else [];
      StillMoves(r.table, reply, a);
      MovesJoin(c.table, r.acts, r.table, reply, r.table, a);
    case Out(dst, p, asked, copied) =>
      OutputKeeps(c, net, dst, p, asked, copied, limit, a);
    case Wanted(ip, packet, copied) =>
      QueryKeeps(c, net, ip, packet, copied, limit, a);
    case Second =>
      FullLength(c.table, limit);
      TickKeeps(c.table, |c.table|, limit, a);
  }

  lemma {:induction false} StillMoves(t: Table, acts: seq<Act>, a: Ip)
    requires Idle(acts)
    ensures Moves(t, acts, t, a)
  {
    IdleMoves(acts, a);
  }

  lemma {:induction false} FullLength(t: Table, limit: nat)
    requires Good(t, limit)
    ensures |t| == ARP_TABLE_SIZE
  {
  }

  /** In every run, for every address: the packets taken in are, in that order, the packets that left the queue, each
      sent or freed once, followed by those still waiting; and the table keeps its invariant. */
  lemma {:induction false} Conserved(net: Net, limit: nat, evs: seq<Event>, a: Ip)
    requires limit > 0
    ensures var (c, log) := Run(net, limit, evs);
            && Good(c.table, limit)
            && TakenFor(log, a) == GoneFor(log, a) + QueueOf(c.table, a)
            && |QueueOf(c.table, a)| <= limit
  {
    hide QueueOf, TakenFor, GoneFor, Step;
    if evs == [] {
      EmptyQueue(Initial().table, a);
      NothingMoves(Initial().table, a);
    } else {
      Conserved(net, limit, evs[..|evs| - 1], a);
      var (c, log) := Run(net, limit, evs[..|evs| - 1]);
      var (c', acts) := Step(c, net, limit, evs[|evs| - 1]);
      StepKeeps(c, net, limit, evs[|evs| - 1], a);
      EmptyQueue(Initial().table, a);
      assert QueueOf(Initial().table, a) + TakenFor(log, a) == TakenFor(log, a);
      MovesJoin(Initial().table, log, c.table, acts, c'.table, a);
      assert QueueOf(Initial().table, a) + TakenFor(log + acts, a) == TakenFor(log + acts, a);
      QueueShort(c'.table, limit, a);
    }
  }

  lemma {:induction false} EmptyQueue(t: Table, a: Ip)
    requires forall i :: 0 <= i < |t| ==> t[i].phase.Empty?
    ensures QueueOf(t, a) == []
  {
  }

  lemma {:induction false} QueueShort(t: Table, limit: nat, a: Ip)
    requires Good(t, limit)
    ensures |QueueOf(t, a)| <= limit
  {
  }

  // ---------- fresh addresses ----------

  // the link address last heard for a, and the seconds since
  function LastHeard(net: Net, evs: seq<Event>, a: Ip): Option<(Mac, nat)> {
    if evs == [] then None
    else
      var before := LastHeard(net, evs[..|evs| - 1], a);
      match evs[|evs| - 1]
      case Heard(ip, mac, _, _) => if ip == a && net.Unicast(ip) then Some((mac, 0)) else before
      case Second => if before.Some? then Some((before.value.0, before.value.1 + 1)) else None
      case Out(_, _, _, _) => before
      case Wanted(_, _, _) => before
  }

  // every resolved entry holds what was last heard, and how long ago
  ghost predicate UpToDate(t: Table, net: Net, evs: seq<Event>) {
    forall i :: 0 <= i < |t| && t[i].Resolved() ==> LastHeard(net, evs, t[i].ip) == Some((t[i].mac, t[i].ctime))
  }

  // a search leaves an entry or empties it
  lemma {:induction false} FindShape(t: Table, ip: Ip, hard: bool)
    ensures var (i, r) := Find(t, ip, hard);
            && (forall j :: 0 <= j < |t| ==> r.table[j] == t[j] || r.table[j].phase.Empty?)
            && (i.Some? ==> r.table[i.value].ip == ip)
  {
    hide Match, Victim;
  }

  // after news of ip, no entry holds anything older for it
  lemma {:induction false} UpdateShape(t: Table, net: Net, ip: Ip, mac: Mac, hard: bool)
    requires Unique(t)
    ensures var r := Update(t, net, ip, mac, hard);
            && (forall j :: 0 <= j < |t| ==> (r.table[j] == t[j] || !r.table[j].Used()
                                             || (r.table[j] == Entry(Stable, ip, mac, 0, []) && net.Unicast(ip))))
            && (forall j :: 0 <= j < |t| && net.Unicast(ip) && r.table[j].For(ip)
                  ==> r.table[j] == Entry(Stable, ip, mac, 0, []))
  {
    hide Victim, QueueOf, TakenFor, GoneFor;
    FindShape(t, ip, hard);
    assert Match(t, ip, |t|).None? ==> forall j :: 0 <= j < |t| ==> !t[j].For(ip);
  }

  lemma {:induction false} QueryShape(c: Cache, net: Net, ip: Ip, p: Option<Packet>, copied: bool, limit: nat)
    ensures var t' := Query(c, net, ip, p, copied, limit).0.table;
            forall j :: 0 <= j < |t'| ==> t'[j] == c.table[j] || !t'[j].Used() || t'[j].phase.Pending?
  {
    hide Find;
    FindShape(c.table, ip, true);
  }

  // an entry that is used for output may start asking again
  ghost predicate Asks(e: Entry, e': Entry) {
    && e.phase.Stable? && e.ctime >= ARP_AGE_REREQUEST_USED_UNICAST
    && e' == e.(phase := Rerequesting1)
  }

  lemma {:induction false} OutputShape(c: Cache, net: Net, dst: Ip, p: Packet, asked: bool, copied: bool, limit: nat)
    ensures var t' := Output(c, net, dst, p, asked, copied, limit).0.table;
            |t'| == |c.table|
            && forall j :: 0 <= j < |t'| ==>
                  t'[j] == c.table[j] || !t'[j].Used() || t'[j].phase.Pending? || Asks(c.table[j], t'[j])
  {
    hide Query, Known;
    var hop := NextHop(net, dst);
    if hop.Some? { QueryShape(c, net, hop.value, Some(p), copied, limit); }
  }

  /** In every run a resolved entry holds the address last heard for its protocol address, and its age is the time since
      then, so it is always below ARP_MAXAGE. */
  lemma {:induction false} AlwaysUpToDate(net: Net, limit: nat, evs: seq<Event>)
    requires limit > 0
    ensures var c := Run(net, limit, evs).0;
            Good(c.table, limit) && UpToDate(c.table, net, evs)
  {
    hide Step, UpToDate, LastHeard, Good, TakenFor, GoneFor, QueueOf;
    Conserved(net, limit, evs, 0);
    if evs == [] {
      StartsUpToDate(net);
    } else {
      var before := evs[..|evs| - 1];
      AlwaysUpToDate(net, limit, before);
      OneEach(Run(net, limit, before).0.table, limit);
      StaysUpToDate(Run(net, limit, before).0, net, limit, before, evs[|evs| - 1]);
      assert evs == before + [evs[|evs| - 1]];
    }
  }

  lemma {:induction false} StartsUpToDate(net: Net)
    ensures UpToDate(Initial().table, net, [])
  {
  }

  lemma {:induction false} StaysUpToDate(c: Cache, net: Net, limit: nat, before: seq<Event>, ev: Event)
    requires Unique(c.table) && UpToDate(c.table, net, before)
    ensures UpToDate(Step(c, net, limit, ev).0.table, net, before + [ev])
  {
    hide Update, Output, Query, Find, Match, Known;
    assert (before + [ev])[..|before + [ev]| - 1] == before;
    match ev
    case Heard(ip, mac, forUs, request) =>
      UpdateShape(c.table, net, ip, mac, forUs && net.own != 0);
    case Out(dst, p, asked, copied) =>
      OutputShape(c, net, dst, p, asked, copied, limit);
    case Wanted(ip, packet, copied) =>
      QueryShape(c, net, ip, packet, copied, limit);
    case Second =>
  }

  /** In every run a packet to a resolved address goes where that host was last heard, at most ARP_MAXAGE - 1 seconds
      ago; a queued packet goes out only on news of its address. */
  lemma {:induction false} SentFresh(net: Net, limit: nat, before: seq<Event>, ev: Event, k: nat)
    requires limit > 0
    requires var acts := Step(Run(net, limit, before).0, net, limit, ev).1;
             k < |acts| && (acts[k].Direct? || acts[k].Sent?)
    ensures var a := Step(Run(net, limit, before).0, net, limit, ev).1[k];
            var heard := LastHeard(net, before + [ev], a.ip);
            && heard.Some? && heard.value.0 == a.mac && heard.value.1 < ARP_MAXAGE
            && (a.Sent? ==> ev.Heard? && ev.ip == a.ip && ev.mac == a.mac)
  {
    hide Run;
    var c := Run(net, limit, before).0;
    AlwaysUpToDate(net, limit, before);
    assert (before + [ev])[..|before + [ev]| - 1] == before;
    match ev
    case Heard(ip, mac, forUs, request) =>
      UpdateActs(c.table, net, ip, mac, forUs && net.own != 0);
    case Out(dst, p, asked, copied) =>
      OutputActs(c, net, dst, p, asked, copied, limit, k);
    case Wanted(ip, packet, copied) =>
      QueryActs(c, net, ip, packet, copied, limit, k);
    case Second =>
      TickActs(c.table, |c.table|);
  }

  lemma {:induction false} UpdateActs(t: Table, net: Net, ip: Ip, mac: Mac, hard: bool)
    ensures var r := Update(t, net, ip, mac, hard);
            forall k :: 0 <= k < |r.acts| ==>
                  r.acts[k].Freed? || (r.acts[k].Sent? && r.acts[k].ip == ip && r.acts[k].mac == mac && net.Unicast(ip))
  {
    hide Find;
    FindShape(t, ip, hard);
    FindActs(t, ip, hard);
  }

  // a resolved entry for the address, with the link address that was used
  ghost predicate FromEntry(t: Table, a: Act) {
    a.Direct? && exists j :: 0 <= j < |t| && t[j].Resolved() && t[j].ip == a.ip && t[j].mac == a.mac
  }

  lemma {:induction false} QueryActs(c: Cache, net: Net, ip: Ip, p: Option<Packet>, copied: bool, limit: nat, k: nat)
    requires var acts := Query(c, net, ip, p, copied, limit).1; k < |acts|
    ensures var a := Query(c, net, ip, p, copied, limit).1[k];
            FromEntry(c.table, a) || a.Taken? || a.Freed? || a.Ask?
  {
    hide Find;
    FindShape(c.table, ip, true);
    FindActs(c.table, ip, true);
  }

  lemma {:induction false} OutputActs(c: Cache, net: Net, dst: Ip, p: Packet, asked: bool, copied: bool, limit: nat,
                                      k: nat)
    requires var acts := Output(c, net, dst, p, asked, copied, limit).1; k < |acts|
    ensures var a := Output(c, net, dst, p, asked, copied, limit).1[k];
            FromEntry(c.table, a) || a.Taken? || a.Freed? || a.Ask? || a.Spread? || a.Refresh?
  {
    hide Query, Known;
    var hop := NextHop(net, dst);
    if hop.Some? && Known(c.table, hop.value, |c.table|).None? && net.kind(dst) != Broadcast
        && net.kind(dst) != Multicast {
      QueryActs(c, net, hop.value, Some(p), copied, limit, k);
    }
  }

  lemma {:induction false} TickActs(t: Table, n: nat)
    requires n <= |t|
    ensures forall k :: 0 <= k < |Tick(t, n).acts| ==> Tick(t, n).acts[k].Freed? || Tick(t, n).acts[k].Ask?
  {
    if n > 0 { TickActs(t, n - 1); }
  }

  // ---------- the entry used last ----------

  /** The short cut through the entry used last is taken exactly when the scan would pick that entry. */
  lemma {:induction false} HintIsScan(t: Table, hint: nat, ip: Ip)
    requires Unique(t) && hint < |t|
    ensures t[hint].Resolved() && t[hint].ip == ip <==> Known(t, ip, |t|) == Some(hint)
  {
    hide Known;
  }

  // ---------- requests for addresses that are about to expire ----------

  function Seconds(evs: seq<Event>): nat {
    if evs == [] then 0 else Seconds(evs[..|evs| - 1]) + (if evs[|evs| - 1].Second? then 1 else 0)
  }

  // an entry for a, `ticks` seconds after a refresh was asked for
  ghost predicate Cooling(t: Table, a: Ip, ticks: nat) {
    forall i :: 0 <= i < |t| && t[i].For(a) ==>
      || t[i].phase.Pending?
      || (t[i].phase.Stable? && t[i].ctime <= ticks)
      || (ticks == 0 && t[i].phase.Rerequesting1?)
      || (ticks == 1 && t[i].phase.Rerequesting2?)
  }

  ghost predicate Refreshes(acts: seq<Act>, a: Ip) {
    exists k :: 0 <= k < |acts| && acts[k].Refresh? && acts[k].ip == a
  }

  lemma {:induction false} StaysCool(c: Cache, net: Net, limit: nat, ev: Event, a: Ip, ticks: nat)
    requires Unique(c.table) && Cooling(c.table, a, ticks)
    requires ticks + (if ev.Second? then 1 else 0) < 2
    ensures Cooling(Step(c, net, limit, ev).0.table, a, ticks + (if ev.Second? then 1 else 0))
  {
    hide Update, Output, Query, Find, Match, Known;
    match ev
    case Heard(ip, mac, forUs, request) =>
      UpdateShape(c.table, net, ip, mac, forUs && net.own != 0);
    case Out(dst, p, asked, copied) =>
      OutputShape(c, net, dst, p, asked, copied, limit);
    case Wanted(ip, packet, copied) =>
      QueryShape(c, net, ip, packet, copied, limit);
    case Second =>
  }

  lemma {:induction false} CoolAsksNothing(c: Cache, net: Net, limit: nat, ev: Event, a: Ip, ticks: nat)
    requires Cooling(c.table, a, ticks) && ticks < 2
    ensures !Refreshes(Step(c, net, limit, ev).1, a)
  {
    hide Update, Query, Find, Match, Known;
    match ev
    case Heard(ip, mac, forUs, request) =>
      UpdateActs(c.table, net, ip, mac, forUs && net.own != 0);
    case Out(dst, p, asked, copied) =>
      QueryAsksNothing(c, net, if NextHop(net, dst).Some? then NextHop(net, dst).value else 0, Some(p), copied, limit);
    case Wanted(ip, packet, copied) =>
      QueryAsksNothing(c, net, ip, packet, copied, limit);
    case Second =>
      TickActs(c.table, |c.table|);
  }

  lemma {:induction false} QueryAsksNothing(c: Cache, net: Net, ip: Ip, p: Option<Packet>, copied: bool, limit: nat)
    ensures forall k :: 0 <= k < |Query(c, net, ip, p, copied, limit).1| ==>
              !Query(c, net, ip, p, copied, limit).1[k].Refresh?
  {
    hide Query;
    forall k | 0 <= k < |Query(c, net, ip, p, copied, limit).1|
      ensures !Query(c, net, ip, p, copied, limit).1[k].Refresh?
    {
      QueryActs(c, net, ip, p, copied, limit, k);
    }
  }

  lemma {:induction false} RefreshCools(c: Cache, net: Net, limit: nat, ev: Event, a: Ip)
    requires Unique(c.table) && Refreshes(Step(c, net, limit, ev).1, a)
    ensures Cooling(Step(c, net, limit, ev).0.table, a, 0)
  {
    hide Update, Query, Find, Match, Known;
    match ev
    case Heard(ip, mac, forUs, request) =>
      UpdateActs(c.table, net, ip, mac, forUs && net.own != 0);
    case Out(dst, p, asked, copied) =>
      QueryAsksNothing(c, net, if NextHop(net, dst).Some? then NextHop(net, dst).value else 0, Some(p), copied, limit);
    case Wanted(ip, packet, copied) =>
      QueryAsksNothing(c, net, ip, packet, copied, limit);
    case Second =>
      TickActs(c.table, |c.table|);
  }

  // the acts of event k of a run
  function ActsAt(net: Net, limit: nat, evs: seq<Event>, k: nat): seq<Act>
    requires k < |evs|
  {
    Step(Run(net, limit, evs[..k]).0, net, limit, evs[k]).1
  }

  lemma {:induction false} CoolAfter(net: Net, limit: nat, evs: seq<Event>, i: nat, j: nat, a: Ip)
    requires limit > 0 && i < j <= |evs|
    requires Refreshes(ActsAt(net, limit, evs, i), a) && Seconds(evs[i + 1..j]) < 2
    ensures Cooling(Run(net, limit, evs[..j]).0.table, a, Seconds(evs[i + 1..j]))
    decreases j
  {
    hide Step, Refreshes, Cooling;
    Conserved(net, limit, evs[..j - 1], a);
    assert evs[..j][..j - 1] == evs[..j - 1];
    if j == i + 1 {
      assert evs[i + 1..j] == [];
      RefreshCools(Run(net, limit, evs[..i]).0, net, limit, evs[i], a);
    } else {
      assert evs[i + 1..j][..j - 1 - (i + 1)] == evs[i + 1..j - 1];
      CoolAfter(net, limit, evs, i, j - 1, a);
      StaysCool(Run(net, limit, evs[..j - 1]).0, net, limit, evs[j - 1], a, Seconds(evs[i + 1..j - 1]));
    }
  }

  /** Between two refresh requests for one address at least two seconds pass. */
  lemma {:induction false} RefreshesApart(net: Net, limit: nat, evs: seq<Event>, i: nat, j: nat, a: Ip)
    requires limit > 0 && i < j < |evs|
    requires Refreshes(ActsAt(net, limit, evs, i), a) && Refreshes(ActsAt(net, limit, evs, j), a)
    ensures Seconds(evs[i + 1..j]) >= 2
  {
    hide Step, Refreshes, Cooling;
    if Seconds(evs[i + 1..j]) < 2 {
      CoolAfter(net, limit, evs, i, j, a);
      CoolAsksNothing(Run(net, limit, evs[..j]).0, net, limit, evs[j], a, Seconds(evs[i + 1..j]));
    }
  }

  // ---------- how long an entry lives ----------

  // a resolved entry is given up
  predicate Recycled(t: Table, t': Table, i: nat)
    requires i < |t| && i < |t'|
  {
    t[i].Resolved() && !(t'[i].Resolved() && t'[i].ip == t[i].ip)
  }

  // no message tells of a, and the table search takes no entry i to use it for another address
  ghost predicate LeftAlone(net: Net, limit: nat, before: seq<Event>, evs: seq<Event>, i: nat, a: Ip)
    requires i < ARP_TABLE_SIZE && limit > 0
  {
    forall k :: 0 <= k < |evs| && !evs[k].Second? ==>
      (evs[k].Heard? ==> evs[k].ip != a) && KeepsEntry(net, limit, before + evs[..k], evs[k], i)
  }

  ghost predicate KeepsEntry(net: Net, limit: nat, evs: seq<Event>, ev: Event, i: nat)
    requires i < ARP_TABLE_SIZE && limit > 0
  {
    var c := Run(net, limit, evs).0;
    var c' := Step(c, net, limit, ev).0;
    i < |c.table| && i < |c'.table| && !Recycled(c.table, c'.table, i)
  }

  lemma {:induction false} LastHeardLater(net: Net, before: seq<Event>, evs: seq<Event>, a: Ip)
    requires forall k :: 0 <= k < |evs| && evs[k].Heard? ==> evs[k].ip != a
    ensures var was := LastHeard(net, before, a);
            LastHeard(net, before + evs, a) ==
            if was.Some? then Some((was.value.0, was.value.1 + Seconds(evs))) else None
  {
    if evs == [] {
      assert before + evs == before;
    } else {
      var m := |evs| - 1;
      LastHeardLater(net, before, evs[..m], a);
      assert (before + evs)[..|before + evs| - 1] == before + evs[..m];
    }
  }

  lemma {:induction false} StillThere(net: Net, limit: nat, before: seq<Event>, evs: seq<Event>, i: nat)
    requires limit > 0 && i < ARP_TABLE_SIZE
    ensures |Run(net, limit, before).0.table| == |Run(net, limit, before + evs).0.table| == ARP_TABLE_SIZE
    ensures var e, e' := Run(net, limit, before).0.table[i], Run(net, limit, before + evs).0.table[i];
            (e.Resolved() && LeftAlone(net, limit, before, evs, i, e.ip) && e.ctime + Seconds(evs) < ARP_MAXAGE ==>
               e'.Resolved() && e'.ip == e.ip)
  {
    hide Step, Recycled, Good;
    TableFull(net, limit, before);
    TableFull(net, limit, before + evs);
    var e := Run(net, limit, before).0.table[i];
    if evs == [] {
      assert before + evs == before;
    } else if e.Resolved() && LeftAlone(net, limit, before, evs, i, e.ip) && e.ctime + Seconds(evs) < ARP_MAXAGE {
      var m := |evs| - 1;
      var evs1 := evs[..m];
      LeftAlonePrefix(net, limit, before, evs, i, e.ip);
      StillThere(net, limit, before, evs1, i);
      StillResolved(net, limit, before, evs1, i);
      assert (before + evs)[..|before + evs| - 1] == before + evs1;
      var c := Run(net, limit, before + evs1).0;
      if evs[m].Second? {
        OneOlder(c, net, limit, i);
      } else {
        assert KeepsEntry(net, limit, before + evs1, evs[m], i);
        NotRecycled(c.table, Step(c, net, limit, evs[m]).0.table, i);
      }
    }
  }

  lemma {:induction false} TableFull(net: Net, limit: nat, evs: seq<Event>)
    requires limit > 0
    ensures |Run(net, limit, evs).0.table| == ARP_TABLE_SIZE
  {
    Conserved(net, limit, evs, 0);
    FullLength(Run(net, limit, evs).0.table, limit);
  }

  lemma {:induction false} NotRecycled(t: Table, t': Table, i: nat)
    requires i < |t| && i < |t'| && !Recycled(t, t', i) && t[i].Resolved()
    ensures t'[i].Resolved() && t'[i].ip == t[i].ip
  {
  }

  lemma {:induction false} LeftAlonePrefix(net: Net, limit: nat, before: seq<Event>, evs: seq<Event>, i: nat, a: Ip)
    requires i < ARP_TABLE_SIZE && limit > 0 && evs != [] && LeftAlone(net, limit, before, evs, i, a)
    ensures LeftAlone(net, limit, before, evs[..|evs| - 1], i, a)
    ensures forall k :: 0 <= k < |evs| && evs[k].Heard? ==> evs[k].ip != a
  {
    hide KeepsEntry;
    var evs1 := evs[..|evs| - 1];
    forall k | 0 <= k < |evs1| && !evs1[k].Second?
      ensures (evs1[k].Heard? ==> evs1[k].ip != a) && KeepsEntry(net, limit, before + evs1[..k], evs1[k], i)
    {
      assert evs1[..k] == evs[..k] && evs1[k] == evs[k];
    }
  }

  // with no news, a resolved entry holds what it held, and its age has grown by the seconds
  lemma {:induction false} StillResolved(net: Net, limit: nat, before: seq<Event>, evs: seq<Event>, i: nat)
    requires limit > 0 && i < ARP_TABLE_SIZE
    requires |Run(net, limit, before).0.table| == |Run(net, limit, before + evs).0.table| == ARP_TABLE_SIZE
    requires var e, e' := Run(net, limit, before).0.table[i], Run(net, limit, before + evs).0.table[i];
             e.Resolved() && e'.Resolved() && e'.ip == e.ip
    requires forall k :: 0 <= k < |evs| && evs[k].Heard? ==> evs[k].ip != Run(net, limit, before).0.table[i].ip
    ensures var e, e' := Run(net, limit, before).0.table[i], Run(net, limit, before + evs).0.table[i];
            e'.mac == e.mac && e'.ctime == e.ctime + Seconds(evs) < ARP_MAXAGE
  {
    hide Run, LastHeard;
    AlwaysUpToDate(net, limit, before);
    AlwaysUpToDate(net, limit, before + evs);
    LastHeardLater(net, before, evs, Run(net, limit, before).0.table[i].ip);
  }

  lemma {:induction false} OneOlder(c: Cache, net: Net, limit: nat, i: nat)
    requires i < |c.table| && c.table[i].Resolved() && c.table[i].ctime + 1 < ARP_MAXAGE
    ensures var t' := Step(c, net, limit, Second).0.table;
            i < |t'| && t'[i].Resolved() && t'[i].ip == c.table[i].ip
  {
  }

  /** With no news of its address and as long as no search recycles it, a resolved entry lives exactly as long as its
      age is below ARP_MAXAGE, and keeps its link address. */
  lemma {:induction false} LivesItsAge(net: Net, limit: nat, before: seq<Event>, evs: seq<Event>, i: nat)
    requires limit > 0 && i < ARP_TABLE_SIZE
    ensures |Run(net, limit, before).0.table| == |Run(net, limit, before + evs).0.table| == ARP_TABLE_SIZE
    ensures var e, e' := Run(net, limit, before).0.table[i], Run(net, limit, before + evs).0.table[i];
            e.Resolved() && LeftAlone(net, limit, before, evs, i, e.ip) ==>
              && (e'.Resolved() && e'.ip == e.ip <==> e.ctime + Seconds(evs) < ARP_MAXAGE)
              && (e'.Resolved() && e'.ip == e.ip ==> e'.mac == e.mac && e'.ctime == e.ctime + Seconds(evs))
  {
    hide Run, KeepsEntry;
    StillThere(net, limit, before, evs, i);
    var e, e' := Run(net, limit, before).0.table[i], Run(net, limit, before + evs).0.table[i];
    if e.Resolved() && LeftAlone(net, limit, before, evs, i, e.ip) && e'.Resolved() && e'.ip == e.ip {
      StillResolved(net, limit, before, evs, i);
    }
  }

  // a search with an empty entry at hand recycles nothing
  lemma {:induction false} FindSpares(t: Table, ip: Ip, hard: bool, i: nat, j: nat)
    requires i < |t| && j < |t| && t[i].Used() && t[j].phase.Empty?
    ensures var (f, r) := Find(t, ip, hard);
            r.table[i] == t[i] && (f.Some? && f.value == i ==> t[i].ip == ip)
  {
    hide Match;
    VictimIsCheapest(t);
    assert Rank(t[j]) == 0 && Rank(t[i]) > 0;
  }

  /** As long as some entry is empty, no event but a second gives up a resolved entry. */
  lemma {:induction false} EmptyEntrySpares(c: Cache, net: Net, limit: nat, ev: Event, i: nat, j: nat)
    requires i < |c.table| && j < |c.table| && c.table[j].phase.Empty? && !ev.Second?
    ensures var t' := Step(c, net, limit, ev).0.table;
            i < |t'| && !Recycled(c.table, t', i)
  {
    hide Find, Known;
    if c.table[i].Used() {
      match ev
      case Heard(ip, mac, forUs, request) =>
        FindSpares(c.table, ip, forUs && net.own != 0, i, j);
      case Out(dst, p, asked, copied) =>
        if NextHop(net, dst).Some? { FindSpares(c.table, NextHop(net, dst).value, true, i, j); }
      case Wanted(ip, packet, copied) =>
        FindSpares(c.table, ip, true, i, j);
    }
  }
}
