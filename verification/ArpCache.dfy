/** The address resolution cache as the stack runs it: a table updated in place, entry by entry. */
module ArpCache {
  import opened Basics
  import opened ArpTable
  import ArpRun

  // a candidate of the sweep: ARP_TABLE_SIZE stands for none
  ghost predicate Candidate(o: Option<nat>, v: nat) {
    if o.None? then v == ARP_TABLE_SIZE else v == o.value < ARP_TABLE_SIZE
  }

  ghost predicate AgeIs(t: Table, v: nat, age: nat)
    requires |t| == ARP_TABLE_SIZE
  {
    age == if v < ARP_TABLE_SIZE then t[v].ctime else 0
  }

  lemma {:induction false} SweepStart(t: Table, ip: Ip)
    ensures Match(t, ip, 0).None? && FirstEmpty(t, 0).None?
    ensures Oldest(t, 1, 0).None? && Oldest(t, 2, 0).None? && Oldest(t, 3, 0).None?
  {
  }

  lemma {:induction false} SweepStep(t: Table, ip: Ip, i: nat)
    requires i < |t|
    ensures Match(t, ip, i).None? ==> Match(t, ip, i + 1) == if t[i].For(ip) then Some(i) else None
    ensures FirstEmpty(t, i + 1) == if FirstEmpty(t, i).None? && t[i].phase.Empty? then Some(i) else FirstEmpty(t, i)
  {
  }

  lemma {:induction false} OldestStep(t: Table, rank: nat, i: nat)
    requires i < |t|
    ensures var o := Oldest(t, rank, i);
            Oldest(t, rank, i + 1) ==
            if Rank(t[i]) == rank && (o.None? || t[i].ctime >= t[o.value].ctime) then Some(i) else o
  {
  }

  // the first match ends the sweep
  lemma {:induction false} MatchStays(t: Table, ip: Ip, i: nat, n: nat)
    requires i < n <= |t| && Match(t, ip, i + 1) == Some(i)
    ensures Match(t, ip, n) == Some(i)
  {
    if n > i + 1 { MatchStays(t, ip, i, n - 1); }
  }

  lemma {:induction false} GoodFacts(t: Table, limit: nat)
    requires Good(t, limit)
    ensures |t| == ARP_TABLE_SIZE
    ensures forall i :: 0 <= i < |t| && t[i].phase.Empty? ==> t[i].q == []
  {
  }

  lemma {:induction false} KnownStart(t: Table, ip: Ip)
    ensures Known(t, ip, 0).None?
  {
  }

  lemma {:induction false} KnownStep(t: Table, ip: Ip, i: nat)
    requires i < |t| && Known(t, ip, i).None?
    ensures Known(t, ip, i + 1) == if t[i].Resolved() && t[i].ip == ip then Some(i) else None
  {
  }

  lemma {:induction false} KnownStays(t: Table, ip: Ip, i: nat, n: nat)
    requires i < n <= |t| && Known(t, ip, i + 1) == Some(i)
    ensures Known(t, ip, n) == Some(i)
  {
    if n > i + 1 { KnownStays(t, ip, i, n - 1); }
  }

  lemma {:induction false} NotUnicast(c: Cache, net: Net, ip: Ip, p: Option<Packet>, copied: bool, limit: nat)
    requires !net.Unicast(ip)
    ensures Query(c, net, ip, p, copied, limit) == (c, [])
  {
  }

  // the cases of a query, once the entry is found
  lemma {:induction false} QueryCases(c: Cache, net: Net, ip: Ip, p: Option<Packet>, copied: bool, limit: nat, i: nat,
                                      f: Result)
    requires net.Unicast(ip) && Find(c.table, ip, true) == (Some(i), f)
    ensures var found := f.table[i];
            var e := if found.phase.Empty? then found.(phase := Pending) else found;
            var asked := f.acts + if found.phase.Empty? || p.None? then [Ask(e.ip)] else [];
            Query(c, net, ip, p, copied, limit) ==
            if p.Some? && e.Resolved() then (Cache(f.table, i), asked + [Direct(e.ip, p.value, e.mac)])
            else if p.Some? && copied then
              (Cache(f.table[i := Enqueue(e, p.value, limit).0], c.hint), asked + Enqueue(e, p.value, limit).1)
            else (Cache(f.table[i := e], c.hint), asked)
  {
    hide Find, Enqueue;
    assert f.acts + [] == f.acts;
    forall asked: seq<Act> ensures asked + [] == asked { }
  }

  class Arp {
    const limit: nat                    // packets that may wait for one address
    const net: Net
    const table: array<Entry>
    var hint: nat
    ghost var log: seq<Act>             // everything taken in, sent, freed and asked for so far

    ghost predicate Valid()
      reads this, table
    {
      limit > 0 && Good(table[..], limit) && hint < ARP_TABLE_SIZE
    }

    ghost function Contents(): Cache
      reads this, table
    {
      Cache(table[..], hint)
    }

    constructor (net: Net, limit: nat)
      requires limit > 0
      ensures Valid() && fresh(table) && this.net == net && this.limit == limit
      ensures Contents() == ArpRun.Initial() && log == []
    {
      this.net, this.limit, hint, log := net, limit, 0, [];
      table := new Entry[ARP_TABLE_SIZE](_ => Entry(Empty, 0, 0, 0, []));
      new;
      assert table[..] == ArpRun.Initial().table;
      ArpRun.Conserved(net, limit, [], 0);
      assert ArpRun.Run(net, limit, []) == (ArpRun.Initial(), []);
    }

    /** etharp_free_entry: gives up the waiting packets, then the entry. */
    method FreeEntry(i: nat)
      requires i < table.Length
      modifies table, `log
      ensures table[..] == old(table[..])[i := old(table[i]).(phase := Empty, q := [])]
      ensures log == old(log) + FreedAll(old(table[i].ip), old(table[i].q))
    {
      var e := table[i];
      log := log + FreedAll(e.ip, e.q);
      if e.q != [] {
        table[i] := table[i].(q := []);
      }
      table[i] := table[i].(phase := Empty);
    }

    // the single sweep of etharp_find_entry: a match ends it, candidates for recycling are remembered
    method Sweep(ip: Ip) returns (found: Option<nat>, empty: nat, oldStable: nat, oldPending: nat, oldQueue: nat)
      requires Valid()
      ensures found == Match(table[..], ip, ARP_TABLE_SIZE)
      ensures found.None? ==>
                && Candidate(FirstEmpty(table[..], ARP_TABLE_SIZE), empty)
                && Candidate(Oldest(table[..], 1, ARP_TABLE_SIZE), oldStable)
                && Candidate(Oldest(table[..], 2, ARP_TABLE_SIZE), oldPending)
                && Candidate(Oldest(table[..], 3, ARP_TABLE_SIZE), oldQueue)
    {
      hide Good, Match, Oldest, FirstEmpty;
      ghost var t := table[..];
      GoodFacts(t, limit);
      empty, oldStable, oldPending, oldQueue := ARP_TABLE_SIZE, ARP_TABLE_SIZE, ARP_TABLE_SIZE, ARP_TABLE_SIZE;
      var ageQueue: nat, agePending: nat, ageStable: nat := 0, 0, 0;
      SweepStart(t, ip);
      for i := 0 to ARP_TABLE_SIZE
        invariant Match(t, ip, i).None?
        invariant Candidate(FirstEmpty(t, i), empty)
        invariant Candidate(Oldest(t, 1, i), oldStable) && AgeIs(t, oldStable, ageStable)
        invariant Candidate(Oldest(t, 2, i), oldPending) && AgeIs(t, oldPending, agePending)
        invariant Candidate(Oldest(t, 3, i), oldQueue) && AgeIs(t, oldQueue, ageQueue)
      {
        var e := table[i];
        SweepStep(t, ip, i);
        OldestStep(t, 1, i);
        OldestStep(t, 2, i);
        OldestStep(t, 3, i);
        if empty == ARP_TABLE_SIZE && e.phase.Empty? {
          empty := i;
        } else if !e.phase.Empty? {
          if e.ip == ip {
            MatchStays(t, ip, i, |t|);
            found := Some(i);
            return;
          }
          if e.phase.Pending? {
            if e.q != [] {
              if e.ctime >= ageQueue { oldQueue, ageQueue := i, e.ctime; }
            } else {
              if e.ctime >= agePending { oldPending, agePending := i, e.ctime; }
            }
          } else {
            if e.ctime >= ageStable { oldStable, ageStable := i, e.ctime; }
          }
        }
      }
      found := None;
    }

    /** etharp_find_entry: the entry for ip, or a recycled one when `hard` is set. */
    method FindEntry(ip: Ip, hard: bool) returns (r: Option<nat>)
      requires Valid()
      modifies table, `log
      ensures (r, Result(table[..], log)) ==
              var (i, f) := Find(old(table[..]), ip, hard); (i, Result(f.table, old(log) + f.acts))
    {
      hide Good, Match, Oldest, FirstEmpty;
      ghost var t := table[..];
      GoodFacts(t, limit);
      assert log + [] == log;
      var found, empty, oldStable, oldPending, oldQueue := Sweep(ip);
      if found.Some? || !hard {
        return found;
      }
      VictimIsCheapest(t);
      FirstEmptyIs(t, |t|);
      var i := empty;
      if empty == ARP_TABLE_SIZE {
        i := if oldStable < ARP_TABLE_SIZE then oldStable
             else if oldPending < ARP_TABLE_SIZE then oldPending
             else oldQueue;
        FreeEntry(i);
      }
      table[i] := table[i].(ip := ip, ctime := 0);
      assert i == Victim(t).value;
      assert FreedAll(t[i].ip, []) == [];
      assert table[..] == t[i := Entry(Empty, ip, t[i].mac, 0, [])];
      assert log == old(log) + FreedAll(t[i].ip, t[i].q);
      r := Some(i);
    }

    // the packets that waited for entry i go out to mac
    method SendQueue(i: nat, mac: Mac)
      requires i < table.Length
      modifies table, `log
      ensures table[..] == old(table[..])[i := old(table[i]).(q := [])]
      ensures log == old(log) + SentAll(old(table[i].ip), old(table[i].q), mac)
    {
      ghost var e, start, t := table[i], log, table[..];
      ghost var k := 0;
      assert start + SentAll(e.ip, e.q[..0], mac) == start;
      while table[i].q != []
        invariant k <= |e.q| && table[..] == t[i := e.(q := e.q[k..])]
        invariant log == start + SentAll(e.ip, e.q[..k], mac)
        decreases |table[i].q|
      {
        var p := table[i].q[0];
        table[i] := table[i].(q := table[i].q[1..]);
        log := log + [Sent(table[i].ip, p, mac)];
        assert SentAll(e.ip, e.q[..k + 1], mac) == SentAll(e.ip, e.q[..k], mac) + [Sent(e.ip, e.q[k], mac)];
        k := k + 1;
        assert table[..] == t[i := e.(q := e.q[k..])];
      }
      assert e.q[..k] == e.q;
    }

    /** etharp_update_arp_entry: an entry becomes stable, and what waited for it goes out. */
    method UpdateEntry(ip: Ip, mac: Mac, hard: bool)
      requires Valid()
      modifies table, `log
      ensures Valid() && Contents().table == Update(old(table[..]), net, ip, mac, hard).table
      ensures log == old(log) + Update(old(table[..]), net, ip, mac, hard).acts
    {
      hide Good, Find, Moves;
      ghost var t := table[..];
      UpdateKeeps(t, net, ip, mac, hard, limit, 0);
      assert log + [] == log;
      if !net.Unicast(ip) {
        return;
      }
      var found := FindEntry(ip, hard);
      if found.None? {
        return;
      }
      var i := found.value;
      ghost var f := Find(t, ip, hard).1;
      ghost var e := f.table[i];
      table[i] := table[i].(phase := Stable);
      table[i] := table[i].(mac := mac);
      table[i] := table[i].(ctime := 0);
      assert table[..] == f.table[i := Entry(Stable, e.ip, mac, 0, e.q)];
      SendQueue(i, mac);
      assert table[..] == f.table[i := Entry(Stable, e.ip, mac, 0, [])];
      assert log == old(log) + (f.acts + SentAll(e.ip, e.q, mac));
    }

    // a packet joins the queue of entry i; past the limit the oldest is freed
    method EnqueueAt(i: nat, p: Packet)
      requires i < table.Length && limit > 0
      modifies table, `log
      ensures table[..] == old(table[..])[i := Enqueue(old(table[i]), p, limit).0]
      ensures log == old(log) + Enqueue(old(table[i]), p, limit).1
    {
      var qlen := |table[i].q|;
      table[i] := table[i].(q := table[i].q + [p]);
      log := log + [Taken(table[i].ip, p)];
      if qlen >= limit {
        var oldest := table[i].q[0];
        table[i] := table[i].(q := table[i].q[1..]);
        log := log + [Freed(table[i].ip, oldest)];
      }
    }

    /** etharp_query: sends, queues or asks. */
    method QueryEntry(ip: Ip, p: Option<Packet>, asked: bool, copied: bool) returns (status: Status)
      requires Valid()
      modifies `hint, `log, table
      ensures Valid()
      ensures status == QueryStatus(old(table[..]), net, ip, p, asked, copied)
      ensures (Contents(), log) ==
              var (c, acts) := Query(old(Contents()), net, ip, p, copied, limit); (c, old(log) + acts)
    {
      hide Good, Find, Moves, Query, Enqueue;
      ghost var c := Contents();
      GoodFacts(c.table, limit);
      QueryKeeps(c, net, ip, p, copied, limit, 0);
      FindKeeps(c.table, ip, true, limit, 0);
      if !net.Unicast(ip) {
        NotUnicast(c, net, ip, p, copied, limit);
        assert log + [] == log;
        return ErrArg;
      }
      var found := FindEntry(ip, true);
      var i := found.value;
      ghost var f := Find(c.table, ip, true).1;
      QueryCases(c, net, ip, p, copied, limit, i, f);
      var isNew := false;
      if table[i].phase.Empty? {
        isNew := true;
        table[i] := table[i].(phase := Pending);
      }
      ghost var e := table[i];
      ghost var asks: seq<Act> := if isNew || p.None? then [Ask(e.ip)] else [];
      if isNew || p.None? {
        log := log + [Ask(table[i].ip)];
      }
      assert log == old(log) + (f.acts + asks);
      assert table[..] == f.table[i := e];
      status := if asked then Ok else ErrMem;
      if p.None? {
        return;
      }
      status := ErrMem;
      if table[i].Resolved() {
        hint := i;
        status := Ok;
        log := log + [Direct(table[i].ip, p.value, table[i].mac)];
        assert log == old(log) + (f.acts + asks + [Direct(e.ip, p.value, e.mac)]);
        assert table[..] == f.table;
      } else if copied {
        EnqueueAt(i, p.value);
        status := Ok;
        assert table[..] == f.table[i := Enqueue(e, p.value, limit).0];
        assert log == old(log) + (f.acts + asks + Enqueue(e, p.value, limit).1);
      }
    }

    /** etharp_output_to_arp_index: asks again when the entry is about to expire, then sends. */
    method OutputToIndex(p: Packet, i: nat, asked: bool)
      requires i < table.Length
      modifies table, `log
      ensures Result(table[..], log) ==
              var r := OutputTo(old(table[..]), i, p, asked); Result(r.table, old(log) + r.acts)
    {
      if table[i].phase.Stable? {
        if table[i].ctime >= ARP_AGE_REREQUEST_USED_BROADCAST {
          if asked {
            log := log + [Refresh(table[i].ip, true)];
            table[i] := table[i].(phase := Rerequesting1);
          }
        } else if table[i].ctime >= ARP_AGE_REREQUEST_USED_UNICAST {
          if asked {
            log := log + [Refresh(table[i].ip, false)];
            table[i] := table[i].(phase := Rerequesting1);
          }
        }
      }
      log := log + [Direct(table[i].ip, p, table[i].mac)];
    }

    /** etharp_output, with the short cut through the entry used last. */
    method Send(dst: Ip, p: Packet, asked: bool, copied: bool) returns (status: Status)
      requires Valid()
      modifies `hint, `log, table
      ensures Valid()
      ensures status == OutputStatus(old(Contents()), net, dst, p, asked, copied)
      ensures (Contents(), log) ==
              var (c, acts) := Output(old(Contents()), net, dst, p, asked, copied, limit); (c, old(log) + acts)
    {
      hide Good, OutputTo, Query, QueryStatus, Moves, Known;
      ghost var c := Contents();
      GoodFacts(c.table, limit);
      OutputKeeps(c, net, dst, p, asked, copied, limit, 0);
      assert log + [] == log;
      if net.kind(dst) == Broadcast || net.kind(dst) == Multicast {
        log := log + [Spread(dst, p)];
        return Ok;
      }
      var hop := dst;
      if net.kind(dst) == Remote {
        if net.gateway == 0 {
          return ErrRoute;
        }
        hop := net.gateway;
      }
      if table[hint].Resolved() && table[hint].ip == hop {
        OneEach(c.table, limit);
        ArpRun.HintIsScan(c.table, hint, hop);
        OutputToIndex(p, hint, asked);
        return Ok;
      }
      KnownStart(c.table, hop);
      for i := 0 to ARP_TABLE_SIZE
        invariant Known(c.table, hop, i).None? && Contents() == c && log == old(log)
      {
        KnownStep(c.table, hop, i);
        if table[i].Resolved() && table[i].ip == hop {
          KnownStays(c.table, hop, i, |c.table|);
          hint := i;
          OutputToIndex(p, i, asked);
          return Ok;
        }
      }
      status := QueryEntry(hop, Some(p), asked, copied);
    }

    /** etharp_tmr */
    method Timer()
      requires Valid()
      modifies table, `log
      ensures Valid()
      ensures Result(table[..], log) ==
              var r := Tick(old(table[..]), ARP_TABLE_SIZE); Result(r.table, old(log) + r.acts)
    {
      hide Good, Moves;
      ghost var t := table[..];
      GoodFacts(t, limit);
      TickKeeps(t, |t|, limit, 0);
      assert log + [] == log;
      for i := 0 to ARP_TABLE_SIZE
        invariant table[..] == Tick(t, i).table
        invariant log == old(log) + Tick(t, i).acts
      {
        ghost var before, r := log, Tick(t, i);
        assert table[i] == t[i];
        TickOne(i);
        assert log == old(log) + (r.acts + Aged(t[i]).1);
      }
    }

    // one turn of the sweep of etharp_tmr
    method TickOne(i: nat)
      requires i < table.Length
      modifies table, `log
      ensures table[..] == old(table[..])[i := Aged(old(table[i])).0]
      ensures log == old(log) + Aged(old(table[i])).1
    {
      assert log + [] == log;
      if !table[i].phase.Empty? {
        table[i] := table[i].(ctime := table[i].ctime + 1);
        if table[i].ctime >= ARP_MAXAGE || (table[i].phase.Pending? && table[i].ctime >= ARP_MAXPENDING) {
          FreeEntry(i);
        } else if table[i].phase.Rerequesting1? {
          table[i] := table[i].(phase := Rerequesting2);
        } else if table[i].phase.Rerequesting2? {
          table[i] := table[i].(phase := Stable);
        } else if table[i].phase.Pending? {
          log := log + [Ask(table[i].ip)];
        }
      }
    }

    /** etharp_input on a well-formed message */
    method Receive(ip: Ip, mac: Mac, forUs: bool, request: bool)
      requires Valid()
      modifies table, `log
      ensures Valid()
      ensures (Contents(), log) ==
              var (c, acts) := ArpRun.Input(old(Contents()), net, ip, mac, forUs, request); (c, old(log) + acts)
    {
      hide Good, Update;
      var us := if net.own == 0 then false else forUs;
      ghost var r := Update(table[..], net, ip, mac, us);
      UpdateEntry(ip, mac, us);
      assert r.acts + [] == r.acts;
      if request && us {
        log := log + [Reply(ip, mac)];
        assert log == old(log) + (r.acts + [Reply(ip, mac)]);
      }
    }
  }
}
