/** The fragments of one datagram as they arrive: what each arrival does to the entry of the datagram, and what the
    check for holes makes of it. */
module ReassRun {
  import opened Basics
  import opened ReassQueue
  import opened IpReass

  // ---------- a datagram cut into fragments ----------

  /** Non-empty ranges, one after the other from byte 0 on. */
  ghost predicate Cut(c: seq<Frag>) {
    && |c| > 0 && c[0].start == 0
    && (forall i :: 0 <= i < |c| ==> c[i].start < c[i].end)
    && (forall i :: 0 < i < |c| ==> Joins(c, i))
  }

  lemma {:induction false} CutOrder(c: seq<Frag>, i: nat, j: nat)
    requires Cut(c) && i < j < |c|
    ensures c[i].end <= c[j].start && c[i].start < c[j].start && c[i].end < c[j].end
  {
    assert Joins(c, j);
    if i < j - 1 { CutOrder(c, i, j - 1); }
  }

  // the fragments lo..hi-1 whose number is in s
  function Range(c: seq<Frag>, s: set<nat>, lo: nat, hi: nat): seq<Frag>
    requires lo <= hi <= |c|
  {
    if lo == hi then [] else Range(c, s, lo, hi - 1) + if hi - 1 in s then [c[hi - 1]] else []
  }

  lemma {:induction false} RangeSplit(c: seq<Frag>, s: set<nat>, lo: nat, mid: nat, hi: nat)
    requires lo <= mid <= hi <= |c|
    ensures Range(c, s, lo, hi) == Range(c, s, lo, mid) + Range(c, s, mid, hi)
  {
    if mid < hi { RangeSplit(c, s, lo, mid, hi - 1); }
  }

  lemma {:induction false} RangeSame(c: seq<Frag>, s: set<nat>, s': set<nat>, lo: nat, hi: nat)
    requires lo <= hi <= |c| && forall i :: lo <= i < hi ==> (i in s <==> i in s')
    ensures Range(c, s, lo, hi) == Range(c, s', lo, hi)
  {
    if lo < hi { RangeSame(c, s, s', lo, hi - 1); }
  }

  // element a of a range is some fragment of it
  lemma {:induction false} RangeAt(c: seq<Frag>, s: set<nat>, lo: nat, hi: nat, a: nat) returns (i: nat)
    requires lo <= hi <= |c| && a < |Range(c, s, lo, hi)|
    ensures lo <= i < hi && i in s && Range(c, s, lo, hi)[a] == c[i] && |Range(c, s, lo, i)| == a
  {
    if a < |Range(c, s, lo, hi - 1)| {
      i := RangeAt(c, s, lo, hi - 1, a);
    } else {
      i := hi - 1;
    }
  }

  lemma {:induction false} RangeGrows(c: seq<Frag>, s: set<nat>, lo: nat, i: nat, hi: nat)
    requires lo <= i < hi <= |c| && i in s
    ensures |Range(c, s, lo, i)| < |Range(c, s, lo, hi)| && Range(c, s, lo, hi)[|Range(c, s, lo, i)|] == c[i]
  {
    if i < hi - 1 { RangeGrows(c, s, lo, i, hi - 1); }
  }

  lemma {:induction false} RangeSorted(c: seq<Frag>, s: set<nat>, hi: nat)
    requires Cut(c) && hi <= |c|
    ensures Sorted(Range(c, s, 0, hi))
  {
    var q := Range(c, s, 0, hi);
    forall a, b | 0 <= a < b < |q|
      ensures q[a].start < q[b].start
    {
      var i := RangeAt(c, s, 0, hi, a);
      var j := RangeAt(c, s, 0, hi, b);
      if j <= i { RangeMonotone(c, s, j, i); }
      CutOrder(c, i, j);
    }
  }

  lemma {:induction false} RangeMonotone(c: seq<Frag>, s: set<nat>, i: nat, j: nat)
    requires i <= j <= |c|
    ensures |Range(c, s, 0, i)| <= |Range(c, s, 0, j)|
  {
    if i < j { RangeMonotone(c, s, i, j - 1); }
  }

  // the queued fragments before number j end before it; the one after them is j or starts later
  lemma {:induction false} ArrivalPosition(c: seq<Frag>, s: set<nat>, j: nat)
    requires Cut(c) && j < |c|
    ensures var q, p := Range(c, s, 0, |c|), |Range(c, s, 0, j)|;
            && p <= |q|
            && (forall a :: 0 <= a < p ==> q[a].start < c[j].start && q[a].end <= c[j].start)
            && (j in s ==> p < |q| && q[p] == c[j])
            && (j !in s && p < |q| ==> c[j].start < q[p].start && c[j].end <= q[p].start)
  {
    var n := |c|;
    var q, l, r := Range(c, s, 0, n), Range(c, s, 0, j), Range(c, s, j, n);
    RangeSplit(c, s, 0, j, n);
    forall a | 0 <= a < |l|
      ensures q[a].start < c[j].start && q[a].end <= c[j].start
    {
      var i := RangeAt(c, s, 0, j, a);
      CutOrder(c, i, j);
    }
    if j in s {
      RangeGrows(c, s, 0, j, n);
    } else if |r| > 0 {
      var i := RangeAt(c, s, j, n, 0);
      CutOrder(c, j, i);
    }
  }

  lemma {:induction false} RangeInsert(c: seq<Frag>, s: set<nat>, j: nat)
    requires j < |c| && j !in s
    ensures Range(c, s + {j}, 0, |c|) == Range(c, s, 0, j) + [c[j]] + Range(c, s, j, |c|)
    ensures Range(c, s, 0, |c|) == Range(c, s, 0, j) + Range(c, s, j, |c|)
  {
    var n, s' := |c|, s + {j};
    RangeSplit(c, s', 0, j, n);
    RangeSplit(c, s', j, j + 1, n);
    RangeSplit(c, s, 0, j, n);
    RangeSplit(c, s, j, j + 1, n);
    RangeSame(c, s, s', 0, j);
    RangeSame(c, s, s', j + 1, n);
    assert Range(c, s', j, j + 1) == [c[j]];
    assert Range(c, s, j, j + 1) == [];
  }

  /** Arrival of fragment j when those in s are queued: a duplicate is dropped, anything else is put in its place. */
  lemma {:induction false} Arrival(c: seq<Frag>, s: set<nat>, j: nat)
    requires Cut(c) && j < |c|
    ensures var q := Range(c, s, 0, |c|);
            && Position(q, c[j].start) == |Range(c, s, 0, j)|
            && (Rejected(q, c[j]) <==> j in s)
            && (j !in s ==> Inserted(q, c[j]) == Range(c, s + {j}, 0, |c|))
  {
    hide Range, Cut;
    var q, p := Range(c, s, 0, |c|), |Range(c, s, 0, j)|;
    ArrivalPosition(c, s, j);
    PositionIs(q, c[j].start, p);
    if j !in s {
      RangeInsert(c, s, j);
      assert q[..p] == Range(c, s, 0, j) && q[p..] == Range(c, s, j, |c|);
    }
  }

  // ---------- completeness ----------

  ghost predicate Full(s: set<nat>, n: nat) { forall i: nat :: i < n ==> i in s }

  // a hole-free queue that ends with fragment k - 1 has all the fragments before k
  lemma {:induction false} ContiguousHasAll(c: seq<Frag>, s: set<nat>, k: nat)
    requires Cut(c) && 0 < k <= |c| && k - 1 in s && Contiguous(Range(c, s, 0, k))
    ensures forall i: nat :: i < k ==> i in s
  {
    var q, q' := Range(c, s, 0, k), Range(c, s, 0, k - 1);
    assert q == q' + [c[k - 1]];
    if k > 1 {
      CutOrder(c, 0, k - 1);
      if q' != [] {
        assert Joins(q, |q'|) && Joins(c, k - 1);
        var m := RangeAt(c, s, 0, k - 1, |q'| - 1);
        if m < k - 2 { CutOrder(c, m, k - 2); }
        assert m == k - 2;
        assert forall i :: 0 < i < |q'| ==> (Joins(q', i) <==> Joins(q, i));
        ContiguousHasAll(c, s, k - 1);
      }
    }
  }

  lemma {:induction false} FullRange(c: seq<Frag>, s: set<nat>, k: nat)
    requires k <= |c| && Full(s, |c|)
    ensures Range(c, s, 0, k) == c[..k]
  {
    if k > 0 {
      FullRange(c, s, k - 1);
      assert c[..k] == c[..k - 1] + [c[k - 1]];
    }
  }

  /** Once the last fragment is there, the queue is without holes exactly when all are there. */
  lemma {:induction false} CompleteIffFull(c: seq<Frag>, s: set<nat>)
    requires Cut(c) && |c| - 1 in s
    ensures Contiguous(Range(c, s, 0, |c|)) <==> Full(s, |c|)
  {
    if Contiguous(Range(c, s, 0, |c|)) {
      ContiguousHasAll(c, s, |c|);
    }
    if Full(s, |c|) {
      FullRange(c, s, |c|);
      assert c[..|c|] == c;
    }
  }

  /** With the last fragment there, fragment j closes all holes but the one just before it. */
  ghost predicate Fooled(s: set<nat>, j: nat, n: nat) {
    && 1 < j < n - 1 && j !in s && j - 1 !in s && 0 in s
    && (forall i :: j < i < n ==> i in s)
    && RunsOn(s, 0, j)
  }

  // the members of s between lo and hi leave no gap
  ghost predicate RunsOn(s: set<nat>, lo: nat, hi: nat) {
    forall h: nat, i: nat :: lo <= h < i < hi && h in s && i in s ==> i - 1 in s
  }

  ghost predicate AllJoin(q: seq<Frag>) { forall i :: 0 < i < |q| ==> Joins(q, i) }

  // the last fragment of a range is the one with the greatest number
  lemma {:induction false} RangeLast(c: seq<Frag>, s: set<nat>, lo: nat, hi: nat) returns (k: nat)
    requires lo <= hi <= |c| && Range(c, s, lo, hi) != []
    ensures lo <= k < hi && k in s && Range(c, s, lo, hi)[|Range(c, s, lo, hi)| - 1] == c[k]
    ensures forall i :: k < i < hi ==> i !in s
  {
    if hi - 1 in s {
      k := hi - 1;
    } else {
      k := RangeLast(c, s, lo, hi - 1);
    }
  }

  // and the first the one with the least
  lemma {:induction false} RangeFirst(c: seq<Frag>, s: set<nat>, lo: nat, hi: nat) returns (k: nat)
    requires lo <= hi <= |c| && Range(c, s, lo, hi) != []
    ensures lo <= k < hi && k in s && Range(c, s, lo, hi)[0] == c[k]
    ensures forall i :: lo <= i < k ==> i !in s
  {
    if Range(c, s, lo, hi - 1) != [] {
      k := RangeFirst(c, s, lo, hi - 1);
    } else {
      k := hi - 1;
      forall i | lo <= i < k ensures i !in s {
        if i in s { RangeGrows(c, s, lo, i, k); }
      }
    }
  }

  lemma {:induction false} NextToEachOther(c: seq<Frag>, k: nat, m: nat)
    requires Cut(c) && k < m < |c|
    ensures c[k].end == c[m].start <==> k + 1 == m
  {
    assert Joins(c, k + 1);
    if k + 1 < m { CutOrder(c, k + 1, m); }
  }

  // the fragments of a range follow each other exactly when their numbers do
  lemma {:induction false} AllJoinIff(c: seq<Frag>, s: set<nat>, lo: nat, hi: nat)
    requires Cut(c) && lo <= hi <= |c|
    ensures AllJoin(Range(c, s, lo, hi)) <==> RunsOn(s, lo, hi)
  {
    if lo < hi {
      var m := hi - 1;
      AllJoinIff(c, s, lo, m);
      var q := Range(c, s, lo, m);
      if m in s && q == [] {
        forall h | lo <= h < m ensures h !in s {
          if h in s { RangeGrows(c, s, lo, h, m); }
        }
      } else if m in s {
        var k := RangeLast(c, s, lo, m);
        NextToEachOther(c, k, m);
        JoinOne(q, c[m]);
        assert RunsOn(s, lo, hi) ==> m - 1 in s;
      } else {
        assert Range(c, s, lo, hi) == q;
      }
    }
  }

  lemma {:induction false} JoinOne(q: seq<Frag>, f: Frag)
    requires q != []
    ensures AllJoin(q + [f]) <==> AllJoin(q) && q[|q| - 1].end == f.start
  {
    var r := q + [f];
    forall i | 0 < i < |q| ensures Joins(r, i) <==> Joins(q, i) { }
    assert Joins(r, |q|) <==> q[|q| - 1].end == f.start;
  }

  lemma {:induction false} JoinsButTwo(l: seq<Frag>, r: seq<Frag>)
    ensures JoinsBut(l + r, |l|) <==> AllJoin(l) && AllJoin(r)
  {
    var q := l + r;
    forall i | 0 < i < |l| ensures Joins(q, i) <==> Joins(l, i) { }
    forall i | 0 < i < |r| ensures Joins(q, |l| + i) <==> Joins(r, i) { }
    if JoinsBut(q, |l|) {
      forall i | 0 < i < |r| ensures Joins(r, i) { assert Joins(q, |l| + i); }
      forall i | 0 < i < |l| ensures Joins(l, i) { assert Joins(q, i); }
    }
    if AllJoin(l) && AllJoin(r) {
      forall i | 0 < i < |q| && i != |l| ensures Joins(q, i) {
        if i > |l| { assert Joins(r, i - |l|); } else { assert Joins(l, i); }
      }
    }
  }

  // the blind spot of the check, in terms of what has arrived
  lemma {:induction false} BlindSpotIffFooled(c: seq<Frag>, s: set<nat>, j: nat)
    requires Cut(c) && j < |c| && j !in s && |c| - 1 in s + {j}
    ensures BlindSpot(Range(c, s, 0, |c|), c[j]) <==> Fooled(s, j, |c|)
  {
    hide Cut, Range, RunsOn, JoinsBut, AllJoin;
    var n := |c|;
    var l, r := Range(c, s, 0, j), Range(c, s, j, n);
    Arrival(c, s, j);
    RangeInsert(c, s, j);
    JoinsButTwo(l, r);
    AllJoinIff(c, s, 0, j);
    AllJoinIff(c, s, j, n);
    UpperRuns(s, j, n);
    if l != [] && r != [] {
      Neighbours(c, s, j);
    } else {
      if Fooled(s, j, n) {
        RangeGrows(c, s, 0, 0, j);
        RangeGrows(c, s, j, n - 1, n);
      }
    }
  }

  // the members above j have no gap and begin right after it: all are there
  lemma {:induction false} UpperRuns(s: set<nat>, j: nat, n: nat)
    requires j < n && j !in s && n - 1 in s + {j}
    ensures RunsOn(s, j, n) && (j < n - 1 ==> j + 1 in s) <==> forall i :: j < i < n ==> i in s
  {
    if RunsOn(s, j, n) && (j < n - 1 ==> j + 1 in s) {
      forall i | j < i < n ensures i in s {
        Downwards(s, j, n, i);
      }
    }
  }

  lemma {:induction false} Downwards(s: set<nat>, j: nat, n: nat, i: nat)
    requires j < i < n && n - 1 in s && j + 1 in s && RunsOn(s, j, n)
    ensures i in s
    decreases n - i
  {
    if i < n - 1 && i > j + 1 {
      Downwards(s, j, n, i + 1);
      assert j <= j + 1 < i + 1 < n && i + 1 in s;
    }
  }

  // what lies on either side of fragment j
  lemma {:induction false} Neighbours(c: seq<Frag>, s: set<nat>, j: nat)
    requires Cut(c) && j < |c| && j !in s && Range(c, s, 0, j) != [] && Range(c, s, j, |c|) != []
    ensures var l, r := Range(c, s, 0, j), Range(c, s, j, |c|);
            && (l[0].start == 0 <==> 0 in s)
            && (l[|l| - 1].end == c[j].start <==> j - 1 in s)
            && (c[j].end == r[0].start <==> j + 1 in s)
            && 0 < j < |c| - 1
  {
    hide Range;
    var first := RangeFirst(c, s, 0, j);
    var before := RangeLast(c, s, 0, j);
    var after := RangeFirst(c, s, j, |c|);
    if first > 0 { CutOrder(c, 0, first); }
    NextToEachOther(c, before, j);
    NextToEachOther(c, j, after);
  }

  /** The verdict on an arrival: with the last fragment there, complete if all are there, or if the check is fooled. */
  lemma {:induction false} ArrivalVerdict(c: seq<Frag>, s: set<nat>, j: nat, last: bool)
    requires Cut(c) && j < |c| && j !in s && (last ==> |c| - 1 in s + {j})
    ensures Chained(Range(c, s, 0, |c|), c[j], last)
         == Queued(Range(c, s + {j}, 0, |c|), last && (Full(s + {j}, |c|) || Fooled(s, j, |c|)))
  {
    hide Range, Rejected, Inserted, Contiguous, Full, Fooled, BlindSpot;
    var q := Range(c, s, 0, |c|);
    var r := Chained(q, c[j], last);
    Arrival(c, s, j);
    RangeSorted(c, s, |c|);
    VerdictExact(q, c[j], last, r);
    if last {
      CompleteIffFull(c, s + {j});
      BlindSpotIffFooled(c, s, j);
      if Fooled(s, j, |c|) { FooledIsNotFull(s, j, |c|); }
    }
  }

  lemma {:induction false} FooledIsNotFull(s: set<nat>, j: nat, n: nat)
    requires Fooled(s, j, n)
    ensures !Full(s + {j}, n) && n - 1 in s
  {
    assert j - 1 < n && j - 1 !in s + {j};
  }

  // ---------- arrivals at the entry of a datagram ----------

  function FragsOf(ps: seq<Packet>): (c: seq<Frag>)
    requires forall i :: 0 <= i < |ps| ==> WellFormed(ps[i])
    ensures |c| == |ps| && forall i :: 0 <= i < |ps| ==> c[i] == FragOf(ps[i])
  {
    if ps == [] then [] else FragsOf(ps[..|ps| - 1]) + [FragOf(ps[|ps| - 1])]
  }

  /** The fragments of one datagram: consecutive ranges, MF on all but the last. */
  ghost predicate Fragments(ps: seq<Packet>, key: Key) {
    && (forall i :: 0 <= i < |ps| ==> WellFormed(ps[i]) && ps[i].header.key == key)
    && (forall i :: 0 <= i < |ps| ==> (ps[i].mf <==> i < |ps| - 1))
    && Cut(FragsOf(ps))
  }

  function Seen(a: seq<nat>): set<nat> { set i | i in a }

  // the entry after the arrivals a, none of which completed it
  ghost predicate EntryAfter(d: Datagram, ps: seq<Packet>, a: seq<nat>, maxAge: nat)
    requires forall i :: 0 <= i < |ps| ==> WellFormed(ps[i])
  {
    var n := |ps|;
    && a != [] && (forall k :: 0 <= k < |a| ==> a[k] < n)
    && d.frags == Range(FragsOf(ps), Seen(a), 0, n)
    && (d.last <==> n - 1 in Seen(a))
    && (d.last ==> d.length == FragOf(ps[n - 1]).end)
    && d.timer == maxAge
    && d.header == if 0 in Seen(a) then ps[0].header else ps[a[0]].header
  }

  // what the complete datagram is handed up as
  function Whole(ps: seq<Packet>): Delivered
    requires |ps| > 0 && forall i :: 0 <= i < |ps| ==> WellFormed(ps[i])
  {
    Delivered(ps[0].header.(offset := 0), (FragOf(ps[|ps| - 1]).end + 20) % 0x1_0000, Payload(FragsOf(ps)))
  }

  lemma {:induction false} SeenStep(a: seq<nat>, j: nat)
    ensures Seen(a + [j]) == Seen(a) + {j} && Seen([]) == {}
  {
  }

  // what noting fragment j does to an entry, next to the queue
  lemma {:induction false} NotedAfter(d: Datagram, ps: seq<Packet>, key: Key, a: seq<nat>, j: nat, maxAge: nat,
                                      frags: seq<Frag>)
    requires Fragments(ps, key) && j < |ps|
    requires if a == [] then d == Fresh(ps[j], maxAge) else EntryAfter(d, ps, a, maxAge)
    requires frags == Range(FragsOf(ps), Seen(a + [j]), 0, |ps|)
    ensures EntryAfter(Noted(d, ps[j]).(frags := frags), ps, a + [j], maxAge)
    ensures d.frags == Range(FragsOf(ps), Seen(a), 0, |ps|)
    ensures Noted(d, ps[j]).last <==> |ps| - 1 in Seen(a) + {j}
  {
    hide Range, Cut, FragsOf, FragOf;
    var n, a' := |ps|, a + [j];
    SeenStep(a, j);
    OnlyFirstAtZero(ps, key, j);
    assert ps[j].mf <==> j < n - 1;
    if a == [] {
      NoneSeen(FragsOf(ps), 0, n);
    } else {
      OnlyFirstAtZero(ps, key, a[0]);
      assert a'[0] == a[0] && (0 in Seen(a') <==> 0 in Seen(a) || j == 0);
      assert a[0] == 0 ==> 0 in Seen(a);
    }
  }

  /** One more arrival: something is handed up when the set is full, and then it is the datagram, or when the check is
      fooled, and then it is not. */
  lemma {:induction false} OneArrival(d: Datagram, ps: seq<Packet>, key: Key, a: seq<nat>, j: nat, maxAge: nat)
    requires Fragments(ps, key) && j < |ps|
    requires if a == [] then d == Fresh(ps[j], maxAge) else EntryAfter(d, ps, a, maxAge) && !Full(Seen(a), |ps|)
    ensures var (d', r) := Receive(d, ps[j]);
            if Full(Seen(a + [j]), |ps|) then r == Some(Whole(ps))
            else if Fooled(Seen(a), j, |ps|) then r.Some? && |r.value.data| < |Whole(ps).data|
            else r == None && EntryAfter(d', ps, a + [j], maxAge)
  {
    hide Range, Noted, Full, Fooled, Cut, Whole, Chained, EntryAfter, Fragments, FragsOf, FragOf;
    FragmentsWellFormed(ps, key);
    var c, n, s := FragsOf(ps), |ps|, Seen(a);
    var s' := s + {j};
    SeenStep(a, j);
    FragmentsCut(ps, key);
    var d1 := Noted(d, ps[j]);
    NotedAfter(d, ps, key, a, j, maxAge, Range(c, s', 0, n));
    if j in s {
      DuplicateDropped(c, s, j, d1.last);
      assert s' == s;
      SeenSome(a, j);
      NotedKeeps(d, ps[j]);
      assert d1.(frags := d.frags) == d1;
      NotFooledBySeen(s, j, n);
    } else {
      ArrivalVerdict(c, s, j, d1.last);
      if Fooled(s, j, n) { FooledIsNotFull(s, j, n); }
      if Full(s', n) { FullHasLast(s', n); }
      NewArrival(ps, key, a, j, maxAge, d1);
    }
  }

  lemma {:induction false} SeenSome(a: seq<nat>, j: nat)
    requires j in Seen(a)
    ensures a != []
  {
  }

  lemma {:induction false} FullHasLast(s: set<nat>, n: nat)
    requires Full(s, n) && n > 0
    ensures n - 1 in s
  {
  }

  lemma {:induction false} FragmentsCut(ps: seq<Packet>, key: Key)
    requires Fragments(ps, key)
    ensures |ps| > 0 && Cut(FragsOf(ps))
    ensures forall i :: 0 <= i < |ps| ==> FragsOf(ps)[i] == FragOf(ps[i]) && FragsOf(ps)[i].data != []
  {
  }

  // what is handed up, if something is
  lemma {:induction false} NewArrival(ps: seq<Packet>, key: Key, a: seq<nat>, j: nat, maxAge: nat, d: Datagram)
    requires Fragments(ps, key) && j < |ps| && j !in Seen(a)
    requires |ps| - 1 in Seen(a) + {j} ==> d.last
    requires EntryAfter(d.(frags := Range(FragsOf(ps), Seen(a) + {j}, 0, |ps|)), ps, a + [j], maxAge)
    ensures var whole := Complete(d.(frags := Range(FragsOf(ps), Seen(a) + {j}, 0, |ps|)));
            && (Full(Seen(a) + {j}, |ps|) ==> whole == Whole(ps))
            && (Fooled(Seen(a), j, |ps|) ==> |whole.data| < |Whole(ps).data|)
  {
    hide Range, Full, Fooled, Cut, FragsOf, Fragments, FragOf, Payload;
    FragmentsWellFormed(ps, key);
    FragmentsCut(ps, key);
    var c, s' := FragsOf(ps), Seen(a) + {j};
    SeenStep(a, j);
    WholeRange(c, s');
    if Fooled(Seen(a), j, |ps|) { FooledIsShort(c, Seen(a), j); }
  }

  lemma {:induction false} NotFooledBySeen(s: set<nat>, j: nat, n: nat)
    requires j in s
    ensures !Fooled(s, j, n)
  {
  }

  // what the fooled check lets through lacks bytes
  lemma {:induction false} FooledIsShort(c: seq<Frag>, s: set<nat>, j: nat)
    requires Fooled(s, j, |c|) && forall i :: 0 <= i < |c| ==> c[i].data != []
    ensures |Payload(Range(c, s + {j}, 0, |c|))| < |Payload(c)|
  {
    hide Fooled, Range, Payload;
    FooledIsNotFull(s, j, |c|);
    assert c[..|c|] == c;
    RangeIsShort(c, s + {j}, |c|);
  }

  lemma {:induction false} RangeIsShort(c: seq<Frag>, s: set<nat>, hi: nat)
    requires hi <= |c| && forall i :: 0 <= i < |c| ==> c[i].data != []
    ensures |Payload(Range(c, s, 0, hi))| <= |Payload(c[..hi])|
    ensures !Full(s, hi) ==> |Payload(Range(c, s, 0, hi))| < |Payload(c[..hi])|
  {
    if hi > 0 {
      RangeIsShort(c, s, hi - 1);
      assert c[..hi] == c[..hi - 1] + [c[hi - 1]];
      PayloadJoin(c[..hi - 1], [c[hi - 1]]);
      PayloadJoin(Range(c, s, 0, hi - 1), [c[hi - 1]]);
      PayloadOne(c[hi - 1]);
      if hi - 1 !in s { assert Range(c, s, 0, hi) == Range(c, s, 0, hi - 1); }
      assert Full(s, hi - 1) && hi - 1 in s ==> Full(s, hi);
    }
  }

  lemma {:induction false} PayloadOne(f: Frag)
    ensures Payload([f]) == f.data
  {
    assert [f][1..] == [];
  }

  lemma {:induction false} PayloadJoin(a: seq<Frag>, b: seq<Frag>)
    ensures Payload(a + b) == Payload(a) + Payload(b)
  {
    if a == [] {
      assert a + b == b && Payload(a) + Payload(b) == Payload(b);
    } else {
      PayloadJoin(a[1..], b);
      assert (a + b)[1..] == a[1..] + b && (a + b)[0] == a[0];
      AppendThree(a[0].data, Payload(a[1..]), Payload(b));
    }
  }

  lemma {:induction false} AppendThree(x: seq<byte>, y: seq<byte>, z: seq<byte>)
    ensures x + (y + z) == (x + y) + z
  {
  }

  lemma {:induction false} DuplicateDropped(c: seq<Frag>, s: set<nat>, j: nat, last: bool)
    requires Cut(c) && j < |c| && j in s
    ensures Chained(Range(c, s, 0, |c|), c[j], last) == Dropped
  {
    hide Range, Rejected;
    Arrival(c, s, j);
  }

  lemma {:induction false} NotedKeeps(d: Datagram, p: Packet)
    requires WellFormed(p)
    ensures Noted(d, p).frags == d.frags
  {
  }

  lemma {:induction false} WholeRange(c: seq<Frag>, s: set<nat>)
    ensures Full(s, |c|) ==> Range(c, s, 0, |c|) == c && (|c| > 0 ==> |c| - 1 in s && 0 in s)
  {
    if Full(s, |c|) {
      FullRange(c, s, |c|);
      assert c[..|c|] == c;
    }
  }

  lemma {:induction false} OnlyFirstAtZero(ps: seq<Packet>, key: Key, j: nat)
    requires Fragments(ps, key) && j < |ps|
    ensures ps[j].header.offset == 0 <==> j == 0
  {
    if j > 0 { CutOrder(FragsOf(ps), 0, j); }
  }

  lemma {:induction false} NoneSeen(c: seq<Frag>, lo: nat, hi: nat)
    requires lo <= hi <= |c|
    ensures Range(c, {}, lo, hi) == []
  {
    if lo < hi { NoneSeen(c, lo, hi - 1); }
  }

  // the entry of one datagram, if it has one, takes a fragment in
  ghost function EntryStep(e: Option<Datagram>, p: Packet, maxAge: nat): (Option<Datagram>, Option<Delivered>)
    requires WellFormed(p)
  {
    var (d, r) := Receive(if e.Some? then e.value else Fresh(p, maxAge), p);
    (if r.Some? then None else Some(d), r)
  }

  /** No arrival of the run fools the check. */
  ghost predicate NeverFooled(a: seq<nat>, n: nat) {
    forall k :: 0 <= k < |a| ==> !Fooled(Seen(a[..k]), a[k], n)
  }

  lemma {:induction false} UnfooledSteps(a: seq<nat>, n: nat)
    requires a != [] && NeverFooled(a, n)
    ensures NeverFooled(a[..|a| - 1], n) && !Fooled(Seen(a[..|a| - 1]), a[|a| - 1], n)
  {
    hide Fooled, Seen;
    var m := |a| - 1;
    forall k | 0 <= k < m ensures !Fooled(Seen(a[..m][..k]), a[..m][k], n) {
      assert a[..m][..k] == a[..k];
    }
  }

  lemma {:induction false} FirstFooled(a: seq<nat>, n: nat) returns (k: nat)
    requires !NeverFooled(a, n)
    ensures k < |a| && Fooled(Seen(a[..k]), a[k], n) && NeverFooled(a[..k], n)
  {
    hide Fooled, Seen;
    var m := |a| - 1;
    if NeverFooled(a[..m], n) {
      k := m;
      forall i | 0 <= i < m ensures !Fooled(Seen(a[..i]), a[i], n) {
        assert a[..m][..i] == a[..i] && a[..m][i] == a[i];
      }
    } else {
      k := FirstFooled(a[..m], n);
      assert a[..m][..k] == a[..k];
    }
  }

  lemma {:induction false} NotFullBefore(a: seq<nat>, k: nat, n: nat)
    requires k < |a| && !Full(Seen(a[..|a| - 1]), n)
    ensures !Full(Seen(a[..k]), n)
  {
    assert Seen(a[..k]) <= Seen(a[..|a| - 1]) by {
      forall i | i in Seen(a[..k]) ensures i in Seen(a[..|a| - 1]) {
        var l :| 0 <= l < k && a[l] == i;
        assert a[..|a| - 1][l] == i;
      }
    }
  }

  lemma {:induction false} FragmentsWellFormed(ps: seq<Packet>, key: Key)
    requires Fragments(ps, key)
    ensures |ps| > 0 && forall i :: 0 <= i < |ps| ==> WellFormed(ps[i]) && ps[i].header.key == key
  {
  }

  lemma {:induction false} FullMonotone(a: seq<nat>, n: nat)
    requires a != [] && !Full(Seen(a), n)
    ensures !Full(Seen(a[..|a| - 1]), n)
  {
    assert Seen(a[..|a| - 1]) <= Seen(a);
  }

  // ---------- the length in the header handed up ----------

  // the payload of a queue without holes ends where its last fragment does
  lemma {:induction false} PayloadEnds(q: seq<Frag>)
    requires q != [] && Sorted(q) && (forall f :: f in q ==> Sound(f)) && AllJoin(q)
    ensures q[0].start + |Payload(q)| == q[|q| - 1].start + |q[|q| - 1].data|
  {
    hide Payload, Sorted, AllJoin;
    if |q| == 1 {
      assert q == [q[0]];
      PayloadOne(q[0]);
    } else {
      var r := q[1..];
      TailJoins(q);
      assert forall f :: f in r ==> f in q;
      PayloadEnds(r);
      assert q == [q[0]] + r && q[0] in q;
      PayloadJoin([q[0]], r);
      PayloadOne(q[0]);
      NoWrap(q[0]);
    }
  }

  lemma {:induction false} TailJoins(q: seq<Frag>)
    requires |q| > 1 && Sorted(q) && AllJoin(q)
    ensures Sorted(q[1..]) && AllJoin(q[1..]) && q[0].end == q[1].start && q[0].start < q[1].start
  {
    assert forall i :: 0 < i < |q[1..]| ==> (Joins(q[1..], i) <==> Joins(q, i + 1));
    assert Joins(q, 1);
  }

  lemma {:induction false} NoWrap(f: Frag)
    requires Sound(f) && f.start < f.end
    ensures f.end == f.start + |f.data|
  {
  }

  /** The total length in the header handed up is that of the data handed up exactly if they fit an IP packet and the
      datagram ends where the fragment without MF said. */
  lemma {:induction false} LengthExact(d: Datagram)
    requires GoodQueue(d) && Contiguous(d.frags)
    ensures var z := d.frags[|d.frags| - 1];
            && |Complete(d).data| == z.start + |z.data|
            && (Complete(d).totalLength == |Complete(d).data| + 20
                <==> z.start + |z.data| <= 65515 && d.length == z.end)
  {
    hide Payload;
    PayloadEnds(d.frags);
    assert d.frags[|d.frags| - 1] in d.frags;
  }

  /** Bytes 8-15 arrive with MF, then bytes 0-7 without: 16 bytes are handed up under a total length of 28. */
  lemma {:induction false} BeyondTheLast(d: Datagram, p: Packet, rest: seq<byte>)
    requires WellFormed(p) && p.header.offset == 0 && !p.mf && |p.data| == |rest| == 8
    requires d.frags == [Frag(8, 16, rest, 1)]
    ensures var r := Receive(d, p).1;
            r.Some? && r.value.totalLength == 28 && r.value.data == p.data + rest
  {
    var f := FragOf(p);
    PositionIs(d.frags, 0, 0);
    var q := Inserted(d.frags, f);
    assert q == [f] + d.frags;
    assert Joins(q, 1);
    PayloadJoin([f], d.frags);
    PayloadOne(f);
    PayloadOne(d.frags[0]);
  }
}
