/** What the buckets of the hash table mean: which map they hold, and why probing finds it. Everything here is about
    values; KHash.dfy keeps these predicates over its arrays. */
module KHashLayout {
  import opened Basics
  import opened RoundUp32
  import opened Probing
  import opened FlagWords

  // (khint_t)(n * 0.77 + 0.5) for a power of two n
  function UpperBound(n: nat): nat { (77 * n + 50) / 100 }

  /** The load limit is 0.77 of the buckets, rounded to the nearest number. */
  lemma {:induction false} UpperBoundRounds(n: nat)
    ensures UpperBound(n) == (n as real * 0.77 + 0.5).Floor
  {
    var q, r := (77 * n + 50) / 100, (77 * n + 50) % 100;
    assert n as real * 0.77 + 0.5 == (77 * n + 50) as real / 100.0 == q as real + r as real / 100.0;
  }

  predicate LiveAt(ms: seq<Mark>, i: int) { 0 <= i < |ms| && ms[i] == Live }

  function LiveCount(ms: seq<Mark>): nat { multiset(ms)[Live] }

  function OccupiedCount(ms: seq<Mark>): int { |ms| - multiset(ms)[Empty] }

  ghost predicate Holds<K>(ms: seq<Mark>, ks: seq<K>, k: K) {
    |ms| <= |ks| && exists i :: LiveAt(ms, i) && ks[i] == k
  }

  /** The live buckets hold exactly the map m, each key once. */
  ghost predicate Stock<K(!new), V>(ms: seq<Mark>, ks: seq<K>, vs: seq<V>, m: map<K, V>) {
    && |ms| <= |ks| && |ms| <= |vs|
    && (forall i :: LiveAt(ms, i) ==> ks[i] in m && m[ks[i]] == vs[i])
    && (forall i, j :: LiveAt(ms, i) && LiveAt(ms, j) && i != j ==> ks[i] != ks[j])
    && (forall k :: k in m ==> Holds(ms, ks, k))
  }

  // the first s buckets that hash value h probes are not empty
  ghost predicate Passed(h: nat, ms: seq<Mark>, s: nat) {
    |ms| > 0 && forall t: nat :: t < s ==> !IsEmpty(ms[Probe(h, t, |ms|)])
  }

  ghost predicate Reachable(h: nat, ms: seq<Mark>, i: int) {
    |ms| > 0 && exists s: nat :: Passed(h, ms, s) && Probe(h, s, |ms|) == i
  }

  /** Stock, and no empty bucket lies before a live key on its probe path. */
  ghost predicate Layout<K(!new), V>(hash: K -> u32, ms: seq<Mark>, ks: seq<K>, vs: seq<V>, m: map<K, V>) {
    && Stock(ms, ks, vs, m)
    && IsPowerOfTwo(|ms|)
    && (forall i :: 0 <= i < |ms| ==> ms[i] != EmptyDeleted)
    && (forall i :: LiveAt(ms, i) ==> Reachable(hash(ks[i]), ms, i))
  }

  // ---------- changing one bucket ----------

  lemma {:induction false} StockAdd<K(!new), V>(ms: seq<Mark>, ks: seq<K>, vs: seq<V>, m: map<K, V>, x: nat, k: K, v: V)
    requires Stock(ms, ks, vs, m) && x < |ms| && ms[x] != Live && k !in m
    ensures Stock(ms[x := Live], ks[x := k], vs[x := v], m[k := v])
    ensures LiveCount(ms[x := Live]) == LiveCount(ms) + 1
  {
    var ms', ks', m' := ms[x := Live], ks[x := k], m[k := v];
    assert forall i :: LiveAt(ms', i) ==> i == x || LiveAt(ms, i);
    forall q | q in m'
      ensures Holds(ms', ks', q)
    {
      if q == k {
        assert LiveAt(ms', x);
      } else {
        assert Holds(ms, ks, q);
        var i :| LiveAt(ms, i) && ks[i] == q;
        assert LiveAt(ms', i);
      }
    }
  }

  lemma {:induction false} StockRemove<K(!new), V>(ms: seq<Mark>, ks: seq<K>, vs: seq<V>, m: map<K, V>, x: nat)
    requires Stock(ms, ks, vs, m) && LiveAt(ms, x)
    ensures Stock(ms[x := Deleted], ks, vs, m - {ks[x]})
    ensures LiveCount(ms[x := Deleted]) == LiveCount(ms) - 1
  {
    var ms', m' := ms[x := Deleted], m - {ks[x]};
    assert forall i :: LiveAt(ms', i) ==> i != x && LiveAt(ms, i);
    forall q | q in m'
      ensures Holds(ms', ks, q)
    {
      assert Holds(ms, ks, q);
      var i :| LiveAt(ms, i) && ks[i] == q;
      assert LiveAt(ms', i);
    }
  }

  // only the live buckets matter
  lemma {:induction false} StockFrame<K(!new), V>(ms: seq<Mark>, ks: seq<K>, vs: seq<V>, m: map<K, V>, ks': seq<K>,
                                                  vs': seq<V>)
    requires Stock(ms, ks, vs, m) && |ms| <= |ks'| && |ms| <= |vs'|
    requires forall i :: LiveAt(ms, i) ==> ks'[i] == ks[i] && vs'[i] == vs[i]
    ensures Stock(ms, ks', vs', m)
  {
    forall q | q in m
      ensures Holds(ms, ks', q)
    {
      assert Holds(ms, ks, q);
      var i :| LiveAt(ms, i) && ks[i] == q;
      assert LiveAt(ms, i) && ks'[i] == q;
    }
  }

  // buckets that were not empty stay so: every path survives
  lemma {:induction false} ReachableFrame(h: nat, ms: seq<Mark>, ms': seq<Mark>, i: int)
    requires Reachable(h, ms, i) && |ms'| == |ms|
    requires forall j :: 0 <= j < |ms| && !IsEmpty(ms[j]) ==> !IsEmpty(ms'[j])
    ensures Reachable(h, ms', i)
  {
    hide Probe;
    var s: nat :| Passed(h, ms, s) && Probe(h, s, |ms|) == i;
    assert Passed(h, ms', s);
  }

  lemma {:induction false} LayoutFrame<K(!new), V>(hash: K -> u32, ms: seq<Mark>, ks: seq<K>, vs: seq<V>, m: map<K, V>,
                                                   ks': seq<K>, vs': seq<V>)
    requires Layout(hash, ms, ks, vs, m) && |ms| <= |ks'| && |ms| <= |vs'|
    requires forall i :: LiveAt(ms, i) ==> ks'[i] == ks[i] && vs'[i] == vs[i]
    ensures Layout(hash, ms, ks', vs', m)
  {
    StockFrame(ms, ks, vs, m, ks', vs');
  }

  lemma {:induction false} LayoutAdd<K(!new), V>(hash: K -> u32, ms: seq<Mark>, ks: seq<K>, vs: seq<V>, m: map<K, V>,
                                                 x: nat, k: K, v: V)
    requires Layout(hash, ms, ks, vs, m) && x < |ms| && ms[x] != Live && k !in m
    requires Reachable(hash(k), ms, x)
    ensures Layout(hash, ms[x := Live], ks[x := k], vs[x := v], m[k := v])
    ensures LiveCount(ms[x := Live]) == LiveCount(ms) + 1
  {
    hide Reachable, IsPowerOfTwo;
    var ms', ks' := ms[x := Live], ks[x := k];
    StockAdd(ms, ks, vs, m, x, k, v);
    forall i | LiveAt(ms', i)
      ensures Reachable(hash(ks'[i]), ms', i)
    {
      assert i == x || LiveAt(ms, i);
      ReachableFrame(hash(ks'[i]), ms, ms', i);
    }
  }

  lemma {:induction false} LayoutRemove<K(!new), V>(hash: K -> u32, ms: seq<Mark>, ks: seq<K>, vs: seq<V>,
                                                    m: map<K, V>, x: nat)
    requires Layout(hash, ms, ks, vs, m) && LiveAt(ms, x)
    ensures Layout(hash, ms[x := Deleted], ks, vs, m - {ks[x]})
    ensures LiveCount(ms[x := Deleted]) == LiveCount(ms) - 1
  {
    hide Reachable, IsPowerOfTwo;
    var ms' := ms[x := Deleted];
    StockRemove(ms, ks, vs, m, x);
    forall i | LiveAt(ms', i)
      ensures Reachable(hash(ks[i]), ms', i)
    {
      assert LiveAt(ms, i);
      ReachableFrame(hash(ks[i]), ms, ms', i);
    }
  }

  lemma {:induction false} LayoutSetValue<K(!new), V>(hash: K -> u32, ms: seq<Mark>, ks: seq<K>, vs: seq<V>,
                                                      m: map<K, V>, x: nat, v: V)
    requires Layout(hash, ms, ks, vs, m) && LiveAt(ms, x)
    ensures Layout(hash, ms, ks, vs[x := v], m[ks[x] := v])
  {
    hide Reachable, IsPowerOfTwo;
    assert forall k :: k in m[ks[x] := v] ==> Holds(ms, ks, k);
  }

  // ---------- probing for a key ----------

  // none of the first s probes met an empty bucket or the key
  ghost predicate Missed<K(!new)>(h: nat, ms: seq<Mark>, ks: seq<K>, key: K, s: nat) {
    && 0 < |ms| <= |ks|
    && forall t: nat :: t < s ==>
         !IsEmpty(ms[Probe(h, t, |ms|)]) && !(LiveAt(ms, Probe(h, t, |ms|)) && ks[Probe(h, t, |ms|)] == key)
  }

  lemma {:induction false} MissedStep<K(!new)>(h: nat, ms: seq<Mark>, ks: seq<K>, key: K, s: nat)
    requires Missed(h, ms, ks, key, s) && !IsEmpty(ms[Probe(h, s, |ms|)])
    requires LiveAt(ms, Probe(h, s, |ms|)) ==> ks[Probe(h, s, |ms|)] != key
    ensures Missed(h, ms, ks, key, s + 1)
  {
  }

  /** A probe that comes to an empty bucket proves that the key is absent. */
  lemma {:induction false} EmptyMeansAbsent<K(!new), V>(hash: K -> u32, ms: seq<Mark>, ks: seq<K>, vs: seq<V>,
      m: map<K, V>, key: K, s: nat)
    requires Layout(hash, ms, ks, vs, m) && Missed(hash(key), ms, ks, key, s)
    requires IsEmpty(ms[Probe(hash(key), s, |ms|)])
    ensures key !in m
  {
    hide Probe, IsPowerOfTwo;
  }

  lemma {:induction false} LiveMeansHeld<K(!new), V>(hash: K -> u32, ms: seq<Mark>, ks: seq<K>, vs: seq<V>,
                                                     m: map<K, V>, i: nat)
    requires Layout(hash, ms, ks, vs, m) && LiveAt(ms, i)
    ensures i < |ks| && i < |vs| && ks[i] in m && m[ks[i]] == vs[i]
  {
  }

  /** So does a probe that comes back to where it started. */
  lemma {:induction false} ReturnMeansAbsent<K(!new), V>(hash: K -> u32, ms: seq<Mark>, ks: seq<K>, vs: seq<V>,
      m: map<K, V>, key: K, s: nat)
    requires Layout(hash, ms, ks, vs, m) && Missed(hash(key), ms, ks, key, s)
    requires s > 0 && Probe(hash(key), s, |ms|) == Probe(hash(key), 0, |ms|)
    ensures key !in m
    ensures forall i :: 0 <= i < |ms| ==> !IsEmpty(ms[i])
  {
    hide Probe, IsPowerOfTwo;
    if s < |ms| {
      ProbeInjective(hash(key), 0, s, |ms|);
    }
    forall i | 0 <= i < |ms|
      ensures !IsEmpty(ms[i]) && !(LiveAt(ms, i) && ks[i] == key)
    {
      var t := ProbeCovers(hash(key), i, |ms|);
    }
  }

  // the turn of the probe loop that would be number 2n - 1 always returns
  lemma {:induction false} ProbeMustReturn(h: nat, s: nat, n: nat)
    requires IsPowerOfTwo(n) && s < 2 * n && Probe(h, s, n) != Probe(h, 0, n)
    ensures s < 2 * n - 1
  {
    ProbeReturns(h, n);
  }

  // a table with an empty bucket has one on every probe path, within n steps
  lemma {:induction false} EmptyIsMet(h: nat, ms: seq<Mark>, s: nat)
    requires IsPowerOfTwo(|ms|) && Passed(h, ms, s)
    requires Empty in ms
    ensures s < |ms|
  {
    hide Probe, IsPowerOfTwo;
    var i :| 0 <= i < |ms| && ms[i] == Empty;
    var t := ProbeCovers(h, i, |ms|);
  }

  // fewer live buckets than buckets, and no others occupied: one is empty
  lemma {:induction false} RoomLeft(ms: seq<Mark>)
    requires LiveCount(ms) < |ms|
    requires forall i :: 0 <= i < |ms| ==> ms[i] == Live || ms[i] == Empty
    ensures Empty in ms
  {
    if ms[|ms| - 1] == Live {
      var rest := ms[..|ms| - 1];
      assert ms == rest + [Live];
      RoomLeft(rest);
    }
  }
}
