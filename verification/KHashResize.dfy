/** The in-place rehash of kh_resize. One pair of key and value arrays is read through the old flags and written through
    the new ones; an element that lands on a bucket still live in the old table kicks its occupant out, and the occupant
    is placed next. */
module KHashResize {
  import opened Basics
  import opened RoundUp32
  import opened Probing
  import opened FlagWords
  import opened KHashLayout

  predicate LiveOrEmpty(ms: seq<Mark>) {
    forall i :: 0 <= i < |ms| ==> ms[i] == Live || ms[i] == Empty
  }

  // the two views of the arrays: mo is still to be moved, mn has been placed
  ghost predicate TwoViews<K(!new), V>(hash: K -> u32, old_: seq<Mark>, new_: seq<Mark>, ks: seq<K>, vs: seq<V>,
                                       mo: map<K, V>, mn: map<K, V>) {
    && Stock(old_, ks, vs, mo)
    && Layout(hash, new_, ks, vs, mn)
    && mo.Keys !! mn.Keys
    && (forall i :: LiveAt(new_, i) ==> !LiveAt(old_, i))
    && LiveOrEmpty(new_)
  }

  /** Placing an element on a bucket that holds nothing live. */
  lemma {:induction false} PlaceFree<K(!new), V>(hash: K -> u32, old_: seq<Mark>, new_: seq<Mark>, ks: seq<K>,
                                                 vs: seq<V>, mo: map<K, V>, mn: map<K, V>, i: nat, k: K, v: V)
    requires TwoViews(hash, old_, new_, ks, vs, mo, mn)
    requires i < |new_| && IsEmpty(new_[i]) && !LiveAt(old_, i) && Reachable(hash(k), new_, i)
    requires k !in mo && k !in mn && i < |ks| && i < |vs|
    ensures new_[i] == Empty
    ensures TwoViews(hash, old_, new_[i := Live], ks[i := k], vs[i := v], mo, mn[k := v])
    ensures LiveCount(new_[i := Live]) == LiveCount(new_) + 1
  {
    hide Stock, Layout, Reachable;
    assert |old_| <= |ks| && |old_| <= |vs| by { StockLengths(old_, ks, vs, mo); }
    StockFrame(old_, ks, vs, mo, ks[i := k], vs[i := v]);
    LayoutAdd(hash, new_, ks, vs, mn, i, k, v);
    assert forall j :: LiveAt(new_[i := Live], j) ==> j == i || LiveAt(new_, j);
  }

  lemma {:induction false} StockLengths<K(!new), V>(ms: seq<Mark>, ks: seq<K>, vs: seq<V>, m: map<K, V>)
    requires Stock(ms, ks, vs, m)
    ensures |ms| <= |ks| && |ms| <= |vs|
  {
  }

  /** Kicking out: the occupant leaves the old view, the element enters the new one. */
  lemma {:induction false} KickOut<K(!new), V>(hash: K -> u32, old_: seq<Mark>, new_: seq<Mark>, ks: seq<K>,
                                               vs: seq<V>, mo: map<K, V>, mn: map<K, V>, i: nat)
    requires TwoViews(hash, old_, new_, ks, vs, mo, mn) && LiveAt(old_, i) && i < |ks| && i < |vs|
    ensures TwoViews(hash, old_[i := Deleted], new_, ks, vs, mo - {ks[i]}, mn)
    ensures ks[i] in mo && mo[ks[i]] == vs[i] && ks[i] !in mn
    ensures LiveCount(old_[i := Deleted]) == LiveCount(old_) - 1
  {
    hide Layout;
    StockRemove(old_, ks, vs, mo, i);
  }

  // the search for an empty bucket of the new table
  method FindEmpty(h: u32, newFlags: array<bv32>, newN: nat) returns (i: nat)
    requires Fits(newN, newFlags.Length) && IsPowerOfTwo(newN) && newN <= TWO31
    requires Empty in Marks(newFlags[..], newN)
    ensures i < newN && IsEmpty(Marks(newFlags[..], newN)[i])
    ensures Reachable(h, Marks(newFlags[..], newN), i)
  {
    hide Marks, Fits, IsPowerOfTwo, Probe, Next, EmptyFlag;
    ghost var ms := Marks(newFlags[..], newN);
    var step: u32 := 0;
    i := h % newN;
    ProbeStart(h, newN);
    while !EmptyFlag(newFlags, newN, i)
      invariant i == Probe(h, step, newN) && step <= newN && Passed(h, ms, step)
      decreases newN - step
    {
      EmptyIsMet(h, ms, step);
      ProbeStep(h, step, newN);
      step := step + 1;
      i := Next(i, step, newN);
    }
  }

  // total = everything still to be moved, everything placed, and the element in hand
  ghost predicate InHand<K(!new), V>(total: map<K, V>, mo: map<K, V>, mn: map<K, V>, k: K, v: V) {
    k !in mo && k !in mn && total == mo + mn + map[k := v]
  }

  lemma {:induction false} HandMoves<K(!new), V>(total: map<K, V>, mo: map<K, V>, mn: map<K, V>, k: K, v: V, k': K,
                                                 v': V)
    requires InHand(total, mo, mn, k, v) && mo.Keys !! mn.Keys
    requires k' in mo && mo[k'] == v'
    ensures InHand(total, mo - {k'}, mn[k := v], k', v')
  {
  }

  lemma {:induction false} TakeInHand<K(!new), V>(total: map<K, V>, mo: map<K, V>, mn: map<K, V>, k: K)
    requires total == mo + mn && mo.Keys !! mn.Keys && k in mo
    ensures InHand(total, mo - {k}, mn, k, mo[k])
  {
  }

  // write the element to bucket i, take its old occupant in hand
  method KickStep<K(!new), V>(hash: K -> u32, flags: array<bv32>, n: nat, newFlags: array<bv32>, newN: nat,
                              keys: array<K>, vals: array<V>, i: nat, key0: K, val0: V, ghost total: map<K, V>,
                              ghost mo0: map<K, V>, ghost mn0: map<K, V>)
    returns (key: K, val: V, ghost mo: map<K, V>, ghost mn: map<K, V>)
    requires flags != newFlags && (flags as object) !in {keys as object, vals}
    requires (newFlags as object) !in {keys as object, vals} && (keys as object) != vals
    requires Fits(n, flags.Length) && Fits(newN, newFlags.Length) && newN <= TWO31
    requires n <= keys.Length && n <= vals.Length && newN <= keys.Length && newN <= vals.Length
    requires TwoViews(hash, Marks(flags[..], n), Marks(newFlags[..], newN), keys[..], vals[..], mo0, mn0)
    requires InHand(total, mo0, mn0, key0, val0) && i < newN && i < n && LiveAt(Marks(flags[..], n), i)
    requires IsEmpty(Marks(newFlags[..], newN)[i]) && Reachable(hash(key0), Marks(newFlags[..], newN), i)
    modifies flags, newFlags, keys, vals
    ensures TwoViews(hash, Marks(flags[..], n), Marks(newFlags[..], newN), keys[..], vals[..], mo, mn)
    ensures InHand(total, mo, mn, key, val)
    ensures Marks(flags[..], n) == old(Marks(flags[..], n))[i := Deleted]
    ensures LiveCount(Marks(flags[..], n)) == old(LiveCount(Marks(flags[..], n))) - 1
    ensures LiveCount(Marks(newFlags[..], newN)) == old(LiveCount(Marks(newFlags[..], newN))) + 1
  {
    hide TwoViews, Reachable, Marks, Fits, LiveCount, InHand;
    ghost var om, nm, ks, vs := Marks(flags[..], n), Marks(newFlags[..], newN), keys[..], vals[..];
    key, val := keys[i], vals[i];
    mo, mn := mo0 - {key}, mn0[key0 := val0];
    ViewsApart(hash, om, nm, ks, vs, mo0, mn0, total, key0, val0);
    KickOut(hash, om, nm, ks, vs, mo0, mn0, i);
    HandMoves(total, mo0, mn0, key0, val0, key, val);
    PlaceFree(hash, om[i := Deleted], nm, ks, vs, mo, mn0, i, key0, val0);
    SetOccupied(newFlags, newN, i);
    keys[i] := key0;
    vals[i] := val0;
    SetDeleted(flags, n, i);
    assert keys[..] == ks[i := key0] && vals[..] == vs[i := val0];
  }

  // write the element to bucket i for good
  method DropStep<K(!new), V>(hash: K -> u32, flags: array<bv32>, n: nat, newFlags: array<bv32>, newN: nat,
                              keys: array<K>, vals: array<V>, i: nat, key0: K, val0: V, ghost total: map<K, V>,
                              ghost mo0: map<K, V>, ghost mn0: map<K, V>)
    returns (ghost mn: map<K, V>)
    requires flags != newFlags && (flags as object) !in {keys as object, vals}
    requires (newFlags as object) !in {keys as object, vals} && (keys as object) != vals
    requires Fits(n, flags.Length) && Fits(newN, newFlags.Length) && newN <= TWO31
    requires n <= keys.Length && n <= vals.Length && newN <= keys.Length && newN <= vals.Length
    requires TwoViews(hash, Marks(flags[..], n), Marks(newFlags[..], newN), keys[..], vals[..], mo0, mn0)
    requires InHand(total, mo0, mn0, key0, val0) && i < newN && !LiveAt(Marks(flags[..], n), i)
    requires IsEmpty(Marks(newFlags[..], newN)[i]) && Reachable(hash(key0), Marks(newFlags[..], newN), i)
    modifies newFlags, keys, vals
    ensures TwoViews(hash, Marks(flags[..], n), Marks(newFlags[..], newN), keys[..], vals[..], mo0, mn)
    ensures total == mo0 + mn
    ensures LiveCount(Marks(newFlags[..], newN)) == old(LiveCount(Marks(newFlags[..], newN))) + 1
  {
    hide TwoViews, Reachable, Marks, Fits, LiveCount;
    ghost var om, nm, ks, vs := Marks(flags[..], n), Marks(newFlags[..], newN), keys[..], vals[..];
    mn := mn0[key0 := val0];
    PlaceFree(hash, om, nm, ks, vs, mo0, mn0, i, key0, val0);
    SetOccupied(newFlags, newN, i);
    keys[i] := key0;
    vals[i] := val0;
    assert keys[..] == ks[i := key0] && vals[..] == vs[i := val0];
  }

  /** The kick-out process for one element: afterwards everything that was live in the old view or in hand is live in
      exactly one view. */
  method Place<K(!new), V>(hash: K -> u32, flags: array<bv32>, n: nat, newFlags: array<bv32>, newN: nat,
                           keys: array<K>, vals: array<V>, key0: K, val0: V, ghost total: map<K, V>,
                           ghost mo0: map<K, V>, ghost mn0: map<K, V>)
    returns (ghost mo: map<K, V>, ghost mn: map<K, V>)
    requires flags != newFlags && (flags as object) !in {keys as object, vals}
    requires (newFlags as object) !in {keys as object, vals} && (keys as object) != vals
    requires Fits(n, flags.Length) && Fits(newN, newFlags.Length) && newN <= TWO31
    requires n <= keys.Length && n <= vals.Length && newN <= keys.Length && newN <= vals.Length
    requires TwoViews(hash, Marks(flags[..], n), Marks(newFlags[..], newN), keys[..], vals[..], mo0, mn0)
    requires InHand(total, mo0, mn0, key0, val0)
    requires LiveCount(Marks(flags[..], n)) + LiveCount(Marks(newFlags[..], newN)) + 1 < newN
    modifies flags, newFlags, keys, vals
    ensures TwoViews(hash, Marks(flags[..], n), Marks(newFlags[..], newN), keys[..], vals[..], mo, mn)
    ensures total == mo + mn
    ensures LiveCount(Marks(flags[..], n)) + LiveCount(Marks(newFlags[..], newN))
         == old(LiveCount(Marks(flags[..], n)) + LiveCount(Marks(newFlags[..], newN))) + 1
    ensures forall i :: LiveAt(Marks(flags[..], n), i) ==> old(LiveAt(Marks(flags[..], n), i))
  {
    hide TwoViews, Reachable, Marks, Fits, EitherFlag, IsPowerOfTwo, LiveCount, InHand;
    var key, val := key0, val0;
    mo, mn := mo0, mn0;
    ghost var om0 := Marks(flags[..], n);
    while true
      invariant TwoViews(hash, Marks(flags[..], n), Marks(newFlags[..], newN), keys[..], vals[..], mo, mn)
      invariant InHand(total, mo, mn, key, val)
      invariant LiveCount(Marks(flags[..], n)) + LiveCount(Marks(newFlags[..], newN))
             == old(LiveCount(Marks(flags[..], n)) + LiveCount(Marks(newFlags[..], newN)))
      invariant forall i :: LiveAt(Marks(flags[..], n), i) ==> LiveAt(om0, i)
      decreases LiveCount(Marks(flags[..], n))
    {
      Room(hash, Marks(flags[..], n), Marks(newFlags[..], newN), keys[..], vals[..], mo, mn);
      var i := FindEmpty(hash(key), newFlags, newN);
      if i < n && !EitherFlag(flags, n, i) {
        key, val, mo, mn := KickStep(hash, flags, n, newFlags, newN, keys, vals, i, key, val, total, mo, mn);
      } else {
        mn := DropStep(hash, flags, n, newFlags, newN, keys, vals, i, key, val, total, mo, mn);
        break;
      }
    }
  }

  lemma {:induction false} ViewsApart<K(!new), V>(hash: K -> u32, old_: seq<Mark>, new_: seq<Mark>, ks: seq<K>,
                                                  vs: seq<V>, mo: map<K, V>, mn: map<K, V>, total: map<K, V>, k: K,
                                                  v: V)
    requires TwoViews(hash, old_, new_, ks, vs, mo, mn) && InHand(total, mo, mn, k, v)
    ensures mo.Keys !! mn.Keys && k !in mo && k !in mn
  {
  }

  lemma {:induction false} Room<K(!new), V>(hash: K -> u32, old_: seq<Mark>, new_: seq<Mark>, ks: seq<K>, vs: seq<V>,
                                            mo: map<K, V>, mn: map<K, V>)
    requires TwoViews(hash, old_, new_, ks, vs, mo, mn) && LiveCount(new_) < |new_|
    ensures Empty in new_ && IsPowerOfTwo(|new_|)
  {
    RoomLeft(new_);
  }

  lemma {:induction false} LayoutSize<K(!new), V>(hash: K -> u32, ms: seq<Mark>, ks: seq<K>, vs: seq<V>, m: map<K, V>)
    requires Layout(hash, ms, ks, vs, m)
    ensures IsPowerOfTwo(|ms|)
  {
  }

  /** The whole rehash: the new flags describe exactly the map that the old flags described. */
  method Rehash<K(!new), V>(hash: K -> u32, flags: array<bv32>, n: nat, newFlags: array<bv32>, newN: nat,
                            keys: array<K>, vals: array<V>, ghost m: map<K, V>)
    requires flags != newFlags && (flags as object) !in {keys as object, vals}
    requires (newFlags as object) !in {keys as object, vals} && (keys as object) != vals
    requires Fits(n, flags.Length) && Fits(newN, newFlags.Length)
    requires n <= keys.Length && n <= vals.Length && newN <= keys.Length && newN <= vals.Length
    requires IsPowerOfTwo(newN) && newN <= TWO31
    requires Stock(Marks(flags[..], n), keys[..], vals[..], m)
    requires LiveCount(Marks(flags[..], n)) < newN
    requires forall i :: 0 <= i < newN ==> Marks(newFlags[..], newN)[i] == Empty
    modifies flags, newFlags, keys, vals
    ensures Layout(hash, Marks(newFlags[..], newN), keys[..], vals[..], m)
    ensures LiveOrEmpty(Marks(newFlags[..], newN))
    ensures LiveCount(Marks(newFlags[..], newN)) == old(LiveCount(Marks(flags[..], n)))
  {
    hide Stock, Layout, Reachable, Marks, Fits, EitherFlag, IsPowerOfTwo;
    ghost var mo, mn: map<K, V> := m, map[];
    EmptyLayout(hash, Marks(newFlags[..], newN), keys[..], vals[..]);
    assert forall i :: !LiveAt(Marks(newFlags[..], newN), i);
    NoneLive(Marks(newFlags[..], newN));
    for j := 0 to n
      invariant TwoViews(hash, Marks(flags[..], n), Marks(newFlags[..], newN), keys[..], vals[..], mo, mn)
      invariant m == mo + mn
      invariant LiveCount(Marks(flags[..], n)) + LiveCount(Marks(newFlags[..], newN))
             == old(LiveCount(Marks(flags[..], n)))
      invariant forall i :: LiveAt(Marks(flags[..], n), i) ==> i >= j
    {
      if !EitherFlag(flags, n, j) {
        var key, val := keys[j], vals[j];
        ghost var before := Marks(flags[..], n);
        KickOut(hash, before, Marks(newFlags[..], newN), keys[..], vals[..], mo, mn, j);
        SetDeleted(flags, n, j);
        TakeInHand(m, mo, mn, key);
        ghost var left := Marks(flags[..], n);
        assert forall i :: LiveAt(left, i) ==> i != j && LiveAt(before, i);
        mo, mn := Place(hash, flags, n, newFlags, newN, keys, vals, key, val, m, mo - {key}, mn);
      }
    }
    NoneLive(Marks(flags[..], n));
    NothingLeft(Marks(flags[..], n), keys[..], vals[..], mo);
    assert m == mn;
  }

  lemma {:induction false} EmptyLayout<K(!new), V>(hash: K -> u32, ms: seq<Mark>, ks: seq<K>, vs: seq<V>)
    requires IsPowerOfTwo(|ms|) && |ms| <= |ks| && |ms| <= |vs|
    requires forall i :: 0 <= i < |ms| ==> ms[i] == Empty
    ensures Layout(hash, ms, ks, vs, map[])
  {
  }

  lemma {:induction false} NoneLive(ms: seq<Mark>)
    requires forall i :: !LiveAt(ms, i)
    ensures LiveCount(ms) == 0
  {
    forall i | 0 <= i < |ms|
      ensures ms[i] != Live
    {
      assert LiveAt(ms, i) == (ms[i] == Live);
    }
  }

  lemma {:induction false} NothingLeft<K(!new), V>(ms: seq<Mark>, ks: seq<K>, vs: seq<V>, m: map<K, V>)
    requires Stock(ms, ks, vs, m)
    requires forall i :: !LiveAt(ms, i)
    ensures m == map[]
  {
    assert forall k :: k in m ==> Holds(ms, ks, k);
  }
}
