/** The fragment queue of one datagram under reassembly, kept by ip_reass_chain_frag_into_datagram_and_validate. */
module ReassQueue {
  import opened Basics

  // a queued fragment: the byte range of its helper struct, its payload, its number of pbufs
  datatype Frag = Frag(start: u16, end: u16, data: seq<byte>, clen: nat)

  datatype ChainResult = Dropped | Queued(queue: seq<Frag>, valid: bool)

  ghost predicate Sorted(q: seq<Frag>) {
    forall i, j :: 0 <= i < j < |q| ==> q[i].start < q[j].start
  }

  // the number of leading fragments that start before `start`
  function Position(q: seq<Frag>, start: u16): (p: nat)
    ensures p <= |q| && (p < |q| ==> q[p].start >= start)
    ensures forall i :: 0 <= i < p ==> q[i].start < start
  {
    if q == [] || q[0].start >= start then 0 else 1 + Position(q[1..], start)
  }

  // no hole between fragment i - 1 and fragment i
  predicate Joins(q: seq<Frag>, i: nat)
    requires 0 < i < |q|
  {
    q[i - 1].end == q[i].start
  }

  /** The queue covers one range from byte 0 on without a hole. */
  ghost predicate Contiguous(q: seq<Frag>) {
    |q| > 0 && q[0].start == 0 && forall i :: 0 < i < |q| ==> Joins(q, i)
  }

  // thrown away: same start as, or overlap with, a queued fragment, as far as that is tested
  ghost predicate Rejected(q: seq<Frag>, f: Frag) {
    var p := Position(q, f.start);
    || (p < |q| && q[p].start == f.start)
    || (exists i :: 0 <= i < p && f.start < q[i].end)
    || (0 < p < |q| && f.end > q[p].start)
  }

  function Inserted(q: seq<Frag>, f: Frag): seq<Frag> {
    var p := Position(q, f.start);
    q[..p] + [f] + q[p..]
  }

  // what the validation part finds: every pair is tested, except the one formed by a fragment
  // inserted before another one and its predecessor
  ghost predicate Judged(q: seq<Frag>, p: nat)
    requires p < |q|
  {
    q[0].start == 0 && forall i :: 0 < i < |q| && (i == p ==> p == |q| - 1) ==> Joins(q, i)
  }

  // what becomes of a queue when fragment f arrives
  ghost function Chained(q: seq<Frag>, f: Frag, last: bool): ChainResult {
    if Rejected(q, f) then Dropped
    else Queued(Inserted(q, f), last && Judged(Inserted(q, f), Position(q, f.start)))
  }

  // the pairs looked at on the way to the insertion point
  ghost predicate FrontJoins(q: seq<Frag>, p: nat)
    requires p < |q|
  {
    forall i :: 0 < i <= p && (i == p ==> p == |q| - 1) ==> Joins(q, i)
  }

  lemma {:induction false} InsertedAt(queue: seq<Frag>, f: Frag, p: nat)
    requires p == Position(queue, f.start)
    ensures |Inserted(queue, f)| == |queue| + 1 && Inserted(queue, f)[p] == f
    ensures forall i :: 0 <= i < p ==> Inserted(queue, f)[i] == queue[i]
    ensures forall i :: p < i <= |queue| ==> Inserted(queue, f)[i] == queue[i - 1]
    ensures forall i :: 0 < i < p ==> (Joins(Inserted(queue, f), i) <==> Joins(queue, i))
  {
  }

  // the walk to the insertion point
  method Locate(queue: seq<Frag>, f: Frag) returns (dropped: bool, q: nat, valid: bool)
    requires Sorted(queue)
    ensures dropped <==> Rejected(queue, f)
    ensures !dropped ==> q == Position(queue, f.start) && (valid <==> FrontJoins(Inserted(queue, f), q))
  {
    dropped, valid, q := false, true, 0;
    while q < |queue| && f.start >= queue[q].start
      invariant q <= |queue|
      invariant forall i :: 0 <= i < q ==> queue[i].start < f.start && queue[i].end <= f.start
      invariant valid <==> forall i :: 0 < i < q ==> Joins(queue, i)
    {
      if f.start == queue[q].start {
        PositionIs(queue, f.start, q);
        return true, q, valid;
      } else if f.start < queue[q].end {
        PositionBeyond(queue, f.start, q);
        return true, q, valid;
      } else if q > 0 && queue[q - 1].end != queue[q].start {
        assert !Joins(queue, q);
        valid := false;
      }
      q := q + 1;
    }
    PositionIs(queue, f.start, q);
    InsertedAt(queue, f, q);
    if q < |queue| {
      dropped := q > 0 && (f.start < queue[q - 1].end || f.end > queue[q].start);
    } else if q > 0 && queue[q - 1].end != f.start {
      assert !Joins(Inserted(queue, f), q);
      valid := false;
    }
  }

  // the check for holes after the new fragment
  method NoHolesAfter(chained: seq<Frag>, p: nat) returns (valid: bool)
    requires p < |chained|
    ensures valid <==> forall i :: p < i < |chained| ==> Joins(chained, i)
  {
    var k := p + 1;
    while k < |chained|
      invariant p < k <= |chained|
      invariant forall i :: p < i < k ==> Joins(chained, i)
    {
      if chained[k - 1].end != chained[k].start {
        assert !Joins(chained, k);
        return false;
      }
      k := k + 1;
    }
    return true;
  }

  /** ip_reass_chain_frag_into_datagram_and_validate: insertion, and the check for holes once the last fragment was
      seen. */
  method Chain(queue: seq<Frag>, f: Frag, last: bool) returns (r: ChainResult)
    requires Sorted(queue)
    ensures r == Chained(queue, f, last)
  {
    var dropped, q, valid := Locate(queue, f);
    if dropped {
      return Dropped;
    }
    InsertedAt(queue, f, q);
    var chained := queue[..q] + [f] + queue[q..];
    if last && valid {
      if chained[0].start != 0 {
        valid := false;
      } else {
        valid := NoHolesAfter(chained, q);
      }
    }
    return Queued(chained, last && valid);
  }

  lemma {:induction false} PositionIs(q: seq<Frag>, start: u16, p: nat)
    requires p <= |q| && (p < |q| ==> q[p].start >= start)
    requires forall i :: 0 <= i < p ==> q[i].start < start
    ensures Position(q, start) == p
  {
  }

  lemma {:induction false} PositionBeyond(q: seq<Frag>, start: u16, i: nat)
    requires Sorted(q) && i < |q| && q[i].start < start
    ensures Position(q, start) > i
  {
  }

  /** The queue stays sorted. */
  lemma {:induction false} InsertedSorted(q: seq<Frag>, f: Frag)
    requires Sorted(q) && !Rejected(q, f)
    ensures Sorted(Inserted(q, f))
  {
    InsertedAt(q, f, Position(q, f.start));
  }

  // f has a byte in common with fragment i
  predicate Shares(q: seq<Frag>, i: nat, f: Frag)
    requires i < |q|
  {
    q[i].start < f.end && f.start < q[i].end
  }

  /** A fragment is thrown away exactly if it shares a byte with a queued one, unless it starts before all of them. */
  lemma {:induction false} RejectedExact(q: seq<Frag>, f: Frag)
    requires Sorted(q) && f.start < f.end && forall i :: 0 <= i < |q| ==> q[i].start < q[i].end
    ensures Rejected(q, f) <==> q != [] && q[0].start <= f.start && exists i :: 0 <= i < |q| && Shares(q, i, f)
  {
    var p := Position(q, f.start);
    if i :| 0 <= i < |q| && Shares(q, i, f) {
      assert i >= p ==> q[p].start <= q[i].start < f.end;
    }
    if Rejected(q, f) {
      if i :| 0 <= i < p && f.start < q[i].end {
        assert Shares(q, i, f);
      } else {
        assert Shares(q, p, f);
      }
    }
  }

  // ---------- what the verdict is worth ----------

  // the new fragment lands between two queued ones without starting where the first one ends,
  // and this is the only hole
  ghost predicate BlindSpot(q: seq<Frag>, f: Frag) {
    var p := Position(q, f.start);
    && 0 < p < |q| && q[p - 1].end != f.start && f.end == q[p].start
    && q[0].start == 0
    && JoinsBut(q, p)
  }

  // all pairs of c but the one at p
  ghost predicate JoinsBut(c: seq<Frag>, p: nat) {
    forall i :: 0 < i < |c| && i != p ==> Joins(c, i)
  }

  lemma {:induction false} MiddleJoins(q: seq<Frag>, f: Frag, p: nat)
    requires p == Position(q, f.start) && 0 < p < |q|
    ensures JoinsBut(Inserted(q, f), p) <==> f.end == q[p].start && JoinsBut(q, p)
  {
    var c := Inserted(q, f);
    InsertedAt(q, f, p);
    assert Joins(c, p + 1) <==> f.end == q[p].start;
    if JoinsBut(c, p) {
      forall i | 0 < i < |q| && i != p
        ensures Joins(q, i)
      {
        if i < p { assert Joins(c, i); } else { assert Joins(c, i + 1); }
      }
    }
    if f.end == q[p].start && JoinsBut(q, p) {
      forall i | 0 < i < |c| && i != p
        ensures Joins(c, i)
      {
        if i < p { assert Joins(q, i); } else if i > p + 1 { assert Joins(q, i - 1); }
      }
    }
  }

  /** The verdict is that the datagram is complete exactly when it is, or the fragment hits the blind spot of the check:
      a hole just before a fragment that is inserted in the middle. */
  lemma {:induction false} VerdictExact(q: seq<Frag>, f: Frag, last: bool, r: ChainResult)
    requires Sorted(q) && r == Chained(q, f, last) && r.Queued?
    ensures (r.valid <==> last && Contiguous(r.queue)) <==> !(last && BlindSpot(q, f))
    ensures last && Contiguous(r.queue) ==> r.valid
  {
    hide Rejected, Inserted;
    var p := Position(q, f.start);
    var c := Inserted(q, f);
    InsertedAt(q, f, p);
    if 0 < p < |q| {
      MiddleJoins(q, f, p);
      assert Joins(c, p) <==> q[p - 1].end == f.start;
      assert Judged(c, p) <==> c[0].start == 0 && JoinsBut(c, p);
      assert Contiguous(c) <==> c[0].start == 0 && JoinsBut(c, p) && Joins(c, p);
    } else {
      assert Judged(c, p) <==> Contiguous(c);
    }
  }

  /** Bytes 0-7, 24-31 (last) and 16-23 arrive: the datagram is handed up without bytes 8-15. */
  lemma {:induction false} BlindSpotExample(a: seq<byte>, c: seq<byte>, d: seq<byte>, r: ChainResult)
    requires |a| == |c| == |d| == 8
    requires r == Chained([Frag(0, 8, a, 1), Frag(24, 32, d, 1)], Frag(16, 24, c, 1), true)
    ensures r.Queued? && r.valid && !Contiguous(r.queue)
    ensures Payload(r.queue) == a + c + d
  {
    var q := [Frag(0, 8, a, 1), Frag(24, 32, d, 1)];
    var f := Frag(16, 24, c, 1);
    PositionIs(q, 16, 1);
    InsertedAt(q, f, 1);
    assert r.queue == [q[0], f, q[1]];
    assert !Joins(r.queue, 1) && Joins(r.queue, 2);
    assert r.queue[1..] == [f, q[1]] && r.queue[1..][1..] == [q[1]] && r.queue[1..][1..][1..] == [];
    assert Payload([q[1]]) == d;
    assert Payload([f, q[1]]) == c + d;
  }

  // ---------- overlaps ----------

  // fragment i begins before the one in front of it ends
  predicate Overlap(q: seq<Frag>, i: nat)
    requires 0 < i < |q|
  {
    q[i - 1].end > q[i].start
  }

  ghost predicate Overlapping(q: seq<Frag>) { exists i :: 0 < i < |q| && Overlap(q, i) }

  /** The overlap that is not tested: a new first fragment that reaches into the one that was first. */
  lemma {:induction false} OverlapArises(q: seq<Frag>, f: Frag)
    requires Sorted(q) && !Rejected(q, f) && !Overlapping(q)
    ensures Overlapping(Inserted(q, f)) <==> q != [] && f.start < q[0].start < f.end
  {
    var c, p := Inserted(q, f), Position(q, f.start);
    InsertedAt(q, f, p);
    if q != [] && f.start < q[0].start < f.end {
      PositionIs(q, f.start, 0);
      assert Overlap(c, 1);
    }
    if i :| 0 < i < |c| && Overlap(c, i) {
      assert i < p ==> Overlap(q, i);
      assert i > p + 1 ==> Overlap(q, i - 1);
    }
  }

  /** An overlap stays, whatever arrives, and the queue is never taken for complete again. */
  lemma {:induction false} OverlapStays(q: seq<Frag>, f: Frag, last: bool)
    requires Sorted(q) && Overlapping(q)
    ensures match Chained(q, f, last)
            case Dropped => true
            case Queued(c, valid) => Overlapping(c) && !valid
  {
    hide Rejected, Inserted, Overlap;
    if !Rejected(q, f) {
      var i :| 0 < i < |q| && Overlap(q, i);
      InsertedAt(q, f, Position(q, f.start));
      OverlapMoves(q, f, i);
    }
  }

  // where an overlap is after an insertion: not at the new fragment
  lemma {:induction false} OverlapMoves(q: seq<Frag>, f: Frag, i: nat)
    requires Sorted(q) && !Rejected(q, f) && 0 < i < |q| && Overlap(q, i)
    ensures var c, p := Inserted(q, f), Position(q, f.start);
            var a := if p < i then i + 1 else i;
            p != a < |c| && Overlap(c, a) && !Joins(c, a)
  {
    hide Inserted;
    InsertedAt(q, f, Position(q, f.start));
  }

  /** After bytes 8-15, bytes 0-11 are queued; then the true bytes 0-7 are dropped as a duplicate. */
  lemma {:induction false} OverlapExample(a: seq<byte>, b: seq<byte>, c: seq<byte>)
    ensures var q, f := [Frag(8, 16, a, 1)], Frag(0, 12, b, 1);
            && Chained(q, f, false) == Queued([f] + q, false) && Overlapping([f] + q)
            && Chained([f] + q, Frag(0, 8, c, 1), false) == Dropped
  {
    var q, f := [Frag(8, 16, a, 1)], Frag(0, 12, b, 1);
    PositionIs(q, 0, 0);
    assert Inserted(q, f) == [f] + q;
    assert Overlap([f] + q, 1);
    PositionIs([f] + q, 0, 0);
  }

  // the payload of a queue, in order
  function Payload(q: seq<Frag>): seq<byte> {
    if q == [] then [] else q[0].data + Payload(q[1..])
  }

  function PbufCount(q: seq<Frag>): nat {
    if q == [] then 0 else q[0].clen + PbufCount(q[1..])
  }
}
