/** The open-addressing hash table: kh_init, kh_clear, kh_get, kh_resize, kh_put and kh_del over packed flags and
    parallel key and value arrays. `contents` is the map the table stands for. */
module KHash {
  import opened Basics
  import opened RoundUp32
  import opened Probing
  import opened FlagWords
  import opened KHashLayout
  import opened KHashResize

  // how the three allocations of a resize turn out
  datatype Allocation = Allocation(flagsOk: bool, keysOk: bool, valsOk: bool)

  // kroundup32(n); if (n < 4) n = 4
  function BucketCount(request: u32): nat {
    if KRoundUp32(request) < 4 then 4 else KRoundUp32(request)
  }

  // the size that kh_put asks for; size<<1 is 32 bits wide
  function Request(n: nat, size: nat): u32 { (if n > (2 * size) % TWO32 then n - 1 else n + 1) % TWO32 }

  lemma {:induction false} BucketCountSpec(request: u32)
    ensures IsPowerOfTwo(BucketCount(request)) && 4 <= BucketCount(request) <= TWO31
    ensures 4 < request <= TWO31 ==> request <= BucketCount(request) < 2 * request
    ensures request <= 4 || request > TWO31 ==> BucketCount(request) == 4
  {
    hide KRoundUp32;
    KRoundUp32Spec(request);
    Two31IsPower();
    var r := KRoundUp32(request);
    if r > TWO31 { PowersAreSpaced(TWO31, r); }
    assert IsPowerOfTwo(4) && IsPowerOfTwo(2);
  }

  lemma {:induction false} PowerFits(n: nat)
    requires IsPowerOfTwo(n)
    ensures Fits(n, WordCount(n))
  {
    if n >= 16 {
      var n2 := HalfPower(n);
      var n4 := HalfPower(n2);
      var n8 := HalfPower(n4);
      var n16 := HalfPower(n8);
      hide IsPowerOfTwo;
      assert n == 16 * n16;
    }
  }

  lemma {:induction false} HalfPower(n: nat) returns (h: nat)
    requires IsPowerOfTwo(n) && n > 1
    ensures n == 2 * h && IsPowerOfTwo(h)
  {
    h := n / 2;
  }

  lemma {:induction false} CountsFit(ms: seq<Mark>)
    ensures LiveCount(ms) <= OccupiedCount(ms) <= |ms|
    ensures LiveOrEmpty(ms) ==> LiveCount(ms) == OccupiedCount(ms)
  {
    if ms != [] {
      var rest := ms[..|ms| - 1];
      assert ms == rest + [ms[|ms| - 1]];
      CountsFit(rest);
    }
  }

  /** The buckets, their counters and the map they stand for. */
  ghost predicate Coherent<K(!new), V>(hash: K -> u32, nBuckets: nat, size: nat, nOccupied: nat, upperBound: nat,
                                       ms: seq<Mark>, ks: seq<K>, vs: seq<V>, m: map<K, V>)
  {
    && |ms| == nBuckets
    && size == |m|
    && (nBuckets == 0 ==> size == nOccupied == upperBound == 0)
    && (nBuckets > 0 ==>
         && 4 <= nBuckets <= TWO31
         && Layout(hash, ms, ks, vs, m)
         && upperBound == UpperBound(nBuckets)
         && size == LiveCount(ms)
         && nOccupied == OccupiedCount(ms)
         && (nBuckets < TWO31 ==> nOccupied <= upperBound))
  }

  lemma {:induction false} StockOfCoherent<K(!new), V>(hash: K -> u32, nBuckets: nat, size: nat, nOccupied: nat,
                                                       upperBound: nat, ms: seq<Mark>, ks: seq<K>, vs: seq<V>,
                                                       m: map<K, V>)
    requires Coherent(hash, nBuckets, size, nOccupied, upperBound, ms, ks, vs, m)
    ensures Stock(ms, ks, vs, m) && LiveCount(ms) == size == |m|
  {
  }

  // a table without tombstones and with room to spare
  lemma {:induction false} CoherentFresh<K(!new), V>(hash: K -> u32, size: nat, ms: seq<Mark>, ks: seq<K>, vs: seq<V>,
                                                     m: map<K, V>)
    requires 4 <= |ms| <= TWO31 && Layout(hash, ms, ks, vs, m) && LiveOrEmpty(ms)
    requires size == LiveCount(ms) == |m| <= UpperBound(|ms|)
    ensures Coherent(hash, |ms|, size, size, UpperBound(|ms|), ms, ks, vs, m)
  {
    CountsFit(ms);
  }

  lemma {:induction false} CoherentEmpty<K(!new), V>(hash: K -> u32, ms: seq<Mark>, ks: seq<K>, vs: seq<V>)
    requires 4 <= |ms| <= TWO31 && IsPowerOfTwo(|ms|) && |ms| <= |ks| && |ms| <= |vs|
    requires forall i :: 0 <= i < |ms| ==> ms[i] == Empty
    ensures Coherent(hash, |ms|, 0, 0, UpperBound(|ms|), ms, ks, vs, map[])
  {
    hide IsPowerOfTwo, Layout;
    EmptyLayout(hash, ms, ks, vs);
    assert forall i :: !LiveAt(ms, i);
    NoneLive(ms);
    CoherentFresh(hash, 0, ms, ks, vs, map[]);
  }

  /** What kh_put leaves of n buckets, `size` of them live, after a rehash that was due: no tombstones, and twice the
      buckets if at least half were live. At 2^31 buckets the count stays, and with half of them live so does all
      else. */
  ghost predicate Rehashed(n: nat, size: nat, nOccupied: nat, n': nat, nOccupied': int) {
    if n < TWO31 then
      nOccupied' == size && n' == (if n > 2 * size then n else if n == 0 then 4 else 2 * n)
    else
      n' == n && nOccupied' == if 2 * size < n then size else nOccupied
  }

  method Realloc<T(0)>(a: array<T>, length: nat) returns (b: array<T>)
    ensures fresh(b) && b.Length == length
    ensures forall i :: 0 <= i < a.Length && i < length ==> b[i] == a[i]
  {
    b := new T[length];
    var n := if a.Length < length then a.Length else length;
    for i := 0 to n
      invariant forall j :: 0 <= j < i ==> b[j] == a[j]
    {
      b[i] := a[i];
    }
  }

  class Table<K(==, 0, !new), V(0, !new)> {
    const hash: K -> u32
    var nBuckets: nat
    var size: nat
    var nOccupied: nat
    var upperBound: nat
    var flags: array<bv32>
    var keys: array<K>
    var vals: array<V>
    ghost var contents: map<K, V>

    ghost function Repr(): set<object>
      reads this
    {
      {this, flags, keys, vals}
    }

    ghost predicate Arrays()
      reads this
    {
      && (flags as object) !in {keys as object, vals as object} && (keys as object) != vals
      && Fits(nBuckets, flags.Length) && nBuckets <= keys.Length && nBuckets <= vals.Length
    }

    ghost predicate Valid()
      reads Repr()
    {
      && Arrays()
      && Coherent(hash, nBuckets, size, nOccupied, upperBound, Buckets(), keys[..], vals[..], contents)
    }

    ghost function Buckets(): seq<Mark>
      requires Arrays()
      reads this, flags
    {
      Marks(flags[..], nBuckets)
    }

    // the table cannot grow any more and has no bucket to spare
    ghost predicate Saturated()
      reads this
    {
      nBuckets == TWO31 && size == TWO31
    }

    // there is no more room for values than there are buckets
    ghost predicate Tight()
      reads this
    {
      vals.Length == nBuckets
    }

    /** A rehash is due, and an allocation it needs fails: the flags always, keys and values only to double the table,
        which is done when at least half of its buckets are live. With 2^31 buckets it cannot grow, and it is rehashed
        only when less than half of them are live. */
    ghost predicate Denied(alloc: Allocation)
      reads this
    {
      && nOccupied >= upperBound
      && if nBuckets < TWO31 then !alloc.flagsOk || (nBuckets <= 2 * size && !(alloc.keysOk && alloc.valsOk))
         else 2 * size < nBuckets && !alloc.flagsOk
    }

    /** kh_init */
    constructor (hash: K -> u32)
      ensures Valid() && Tight() && fresh(Repr()) && this.hash == hash && contents == map[] && nBuckets == 0
    {
      this.hash := hash;
      nBuckets, size, nOccupied, upperBound := 0, 0, 0, 0;
      flags := new bv32[0];
      keys := new K[0];
      vals := new V[0];
      contents := map[];
    }

    /** kh_clear */
    method Clear()
      requires Valid()
      modifies Repr()
      ensures Valid() && Repr() == old(Repr()) && contents == map[]
      ensures size == nOccupied == 0 && nBuckets == old(nBuckets) && vals == old(vals)
    {
      hide Marks, Fits;
      if nBuckets > 0 {
        Fill(flags, nBuckets);
        size, nOccupied := 0, 0;
        contents := map[];
        CoherentEmpty(hash, Buckets(), keys[..], vals[..]);
      }
    }

    /** kh_get: a bucket exactly when the key is present. */
    method Get(key: K) returns (x: nat)
      requires Valid()
      ensures x <= nBuckets
      ensures key in contents <==> x < nBuckets
      ensures x < nBuckets ==> Buckets()[x] == Live && keys[x] == key && vals[x] == contents[key]
    {
      hide IsPowerOfTwo, Fits, Marks, EmptyFlag, DeletedFlag, EitherFlag, Probe, Next, Layout;
      if nBuckets == 0 {
        return 0;
      }
      ghost var ms, h := Buckets(), hash(key);
      LayoutSize(hash, ms, keys[..], vals[..], contents);
      var step: u32, i := 0, hash(key) % nBuckets;
      var last := i;
      ProbeStart(h, nBuckets);
      while !EmptyFlag(flags, nBuckets, i) && (DeletedFlag(flags, nBuckets, i) || keys[i] != key)
        invariant i == Probe(h, step, nBuckets) && step < 2 * nBuckets - 1
        invariant Missed(h, ms, keys[..], key, step)
        decreases 2 * nBuckets - step
      {
        ProbeStep(h, step, nBuckets);
        step := step + 1;
        i := Next(i, step, nBuckets);
        if i == last {
          ReturnMeansAbsent(hash, ms, keys[..], vals[..], contents, key, step);
          return nBuckets;
        }
        ProbeMustReturn(h, step, nBuckets);
      }
      if EitherFlag(flags, nBuckets, i) {
        EmptyMeansAbsent(hash, ms, keys[..], vals[..], contents, key, step);
        x := nBuckets;
      } else {
        LiveMeansHeld(hash, ms, keys[..], vals[..], contents, i);
        x := i;
      }
    }

    // the allocations of an expanding resize; a failure leaves a table that is still usable
    method Expand(newN: nat, alloc: Allocation) returns (ok: bool)
      requires Valid() && nBuckets < newN
      modifies `keys, `vals
      ensures Valid() && fresh(Repr() - old(Repr()))
      ensures ok ==> keys.Length == newN && vals.Length == newN
      ensures ok <==> alloc.keysOk && alloc.valsOk
      ensures !ok ==> vals == old(vals)
    {
      hide Layout, Marks, Fits;
      if !alloc.keysOk {
        return false;
      }
      keys := Realloc(keys, newN);
      SameBuckets(hash, Buckets(), old(keys[..]), vals[..], contents, keys[..], vals[..]);
      if !alloc.valsOk {
        return false;
      }
      vals := Realloc(vals, newN);
      SameBuckets(hash, Buckets(), keys[..], old(vals[..]), contents, keys[..], vals[..]);
      return true;
    }

    // gives back the buckets from newN on
    method Shrink(newN: nat)
      requires newN <= keys.Length && newN <= vals.Length
      modifies `keys, `vals
      ensures fresh(keys) && fresh(vals) && (keys as object) != vals
      ensures keys.Length == newN && vals.Length == newN
      ensures forall i :: 0 <= i < newN ==> keys[i] == old(keys[i]) && vals[i] == old(vals[i])
    {
      keys := Realloc(keys, newN);
      vals := Realloc(vals, newN);
    }

    // rehash into newFlags, give back what a smaller table does not need
    method Rebuild(newFlags: array<bv32>, newN: nat)
      requires Valid() && (newFlags as object) !in Repr()
      requires IsPowerOfTwo(newN) && 4 <= newN <= TWO31 && Fits(newN, newFlags.Length)
      requires newN <= keys.Length && newN <= vals.Length && size < UpperBound(newN)
      requires forall i :: 0 <= i < newN ==> Marks(newFlags[..], newN)[i] == Empty
      modifies Repr(), newFlags
      ensures Valid() && fresh(Repr() - old(Repr()) - {newFlags}) && contents == old(contents)
      ensures nBuckets == newN && nOccupied == size
      ensures old(vals.Length == newN || nBuckets > newN) ==> Tight()
    {
      hide IsPowerOfTwo, Fits, Marks, Layout, Coherent;
      StockOfCoherent(hash, nBuckets, size, nOccupied, upperBound, Buckets(), keys[..], vals[..], contents);
      Rehash(hash, flags, nBuckets, newFlags, newN, keys, vals, contents);
      ghost var ks, vs := keys[..], vals[..];
      if nBuckets > newN {
        Shrink(newN);
      }
      flags, nBuckets, nOccupied, upperBound := newFlags, newN, size, UpperBound(newN);
      SameBuckets(hash, Buckets(), ks, vs, contents, keys[..], vals[..]);
      CoherentFresh(hash, size, Buckets(), keys[..], vals[..], contents);
    }

    /** kh_resize: the map survives; when there is room and memory the table has the requested bucket count and no
        tombstones. */
    method Resize(request: u32, alloc: Allocation) returns (r: int)
      requires Valid()
      modifies Repr()
      ensures Valid() && fresh(Repr() - old(Repr())) && contents == old(contents)
      ensures r == 0 || r == -1
      ensures old(size) >= UpperBound(BucketCount(request)) || r == -1 ==>
                nBuckets == old(nBuckets) && nOccupied == old(nOccupied) && upperBound == old(upperBound)
      ensures old(size) >= UpperBound(BucketCount(request)) ==> r == 0
      ensures old(size) < UpperBound(BucketCount(request)) && r == 0 ==>
                nBuckets == BucketCount(request) && nOccupied == size
      ensures r == -1 <==> old(size) < UpperBound(BucketCount(request))
                           && (!alloc.flagsOk
                               || (old(nBuckets) < BucketCount(request) && !(alloc.keysOk && alloc.valsOk)))
      ensures old(Tight()) ==> Tight()
    {
      hide IsPowerOfTwo, Fits, Marks, Coherent, BucketCount;
      var newN := BucketCount(request);
      BucketCountSpec(request);
      PowerFits(newN);
      if size >= UpperBound(newN) {
        return 0;
      }
      if !alloc.flagsOk {
        return -1;
      }
      var newFlags := NewFlags(newN);
      if nBuckets < newN {
        var ok := Expand(newN, alloc);
        if !ok {
          return -1;
        }
      }
      Rebuild(newFlags, newN);
      return 0;
    }

    // the first part of kh_put: make sure that a probe can end
    method MakeRoom(alloc: Allocation) returns (r: int)
      requires Valid()
      modifies Repr()
      ensures Valid() && fresh(Repr() - old(Repr())) && contents == old(contents)
      ensures r == 0 || r == -1
      ensures r == -1 <==> old(Denied(alloc))
      ensures old(Tight()) ==> Tight()
      ensures r == -1 ==> nBuckets == old(nBuckets) && nOccupied == old(nOccupied)
      ensures r == 0 ==> nBuckets > 0 && (nBuckets < TWO31 ==> nOccupied < upperBound)
      ensures Saturated() <==> old(Saturated())
      ensures old(nOccupied < upperBound) ==>
                nBuckets == old(nBuckets) && nOccupied == old(nOccupied) && Buckets() == old(Buckets())
      ensures r == 0 && old(nOccupied >= upperBound) ==>
                Rehashed(old(nBuckets), old(size), old(nOccupied), nBuckets, nOccupied)
    {
      hide IsPowerOfTwo, Fits, Marks, Coherent, Layout, BucketCount, UpperBound, Request;
      r := 0;
      CoherentSize(hash, nBuckets, size, nOccupied, upperBound, Buckets(), keys[..], vals[..], contents);
      if nOccupied >= upperBound {
        RequestIs(nBuckets, size);
        WantedGrants(nBuckets, size);
        r := Resize(Request(nBuckets, size), alloc);
        CoherentSize(hash, nBuckets, size, nOccupied, upperBound, Buckets(), keys[..], vals[..], contents);
      }
    }

    // the second part: the bucket where key is or shall be
    method Site(key: K) returns (x: nat)
      requires Valid() && nBuckets > 0
      ensures x < nBuckets
      ensures key in contents ==> Buckets()[x] == Live && keys[x] == key
      ensures key !in contents && Buckets()[x] != Live ==> Reachable(hash(key), Buckets(), x)
      ensures key !in contents && Buckets()[x] == Live ==>
                keys[x] != key && forall i :: 0 <= i < nBuckets ==> Buckets()[i] == Live
      ensures key !in contents ==> Chosen(hash(key), Buckets(), x)
    {
      hide IsPowerOfTwo, Fits, Marks, EmptyFlag, DeletedFlag, EitherFlag, Probe, Next, Layout,
           Missed, SiteSoFar, Reachable, Chosen, Fresh;
      ghost var ms, h := Buckets(), hash(key);
      LayoutSize(hash, ms, keys[..], vals[..], contents);
      var step: u32, i := 0, hash(key) % nBuckets;
      var last, site := i, nBuckets;
      x := nBuckets;
      ProbeStart(h, nBuckets);
      NothingMet(h, ms, keys[..], key);
      while !EmptyFlag(flags, nBuckets, i) && (DeletedFlag(flags, nBuckets, i) || keys[i] != key)
        invariant x == nBuckets && 0 <= site <= nBuckets
        invariant i == Probe(h, step, nBuckets) && step < 2 * nBuckets - 1
        invariant Missed(h, ms, keys[..], key, step)
        invariant SiteSoFar(h, ms, site, step) && Fresh(h, ms, step) && (step > 0 ==> i != last)
        decreases 2 * nBuckets - step
      {
        MissedStep(h, ms, keys[..], key, step);
        SiteStep(h, ms, keys[..], key, site, step);
        FreshStep(h, ms, keys[..], key, step);
        if DeletedFlag(flags, nBuckets, i) {
          site := i;
        }
        ProbeStep(h, step, nBuckets);
        step := step + 1;
        i := Next(i, step, nBuckets);
        if i == last {
          ReturnMeansAbsent(hash, ms, keys[..], vals[..], contents, key, step);
          SiteAtReturn(h, ms, keys[..], key, site, step);
          ChosenAt(h, ms, site, step);
          x := site;
          break;
        }
        ProbeMustReturn(h, step, nBuckets);
      }
      if x == nBuckets {
        SiteAtEnd(hash, ms, keys[..], vals[..], contents, key, site, step);
        if EmptyFlag(flags, nBuckets, i) {
          ChosenAt(h, ms, site, step);
        }
        if EmptyFlag(flags, nBuckets, i) && site != nBuckets {
          x := site;
        } else {
          x := i;
        }
      }
    }

    /** kh_put. Exactly if the memory for a rehash is denied, bucket n_buckets is returned, which does not exist.
        Otherwise it is the key's bucket, except when the table is saturated and the key absent: then an occupied bucket
        of another key comes back with `ret` 0. The caller stores the value of a new key, so it is still open here. */
    method Put(key: K, alloc: Allocation) returns (x: nat, ret: int)
      requires Valid()
      modifies Repr()
      ensures Valid() && fresh(Repr() - old(Repr()))
      ensures -1 <= ret <= 2
      ensures ret == -1 <==> old(Denied(alloc))
      ensures ret == -1 ==> x == nBuckets == old(nBuckets) && contents == old(contents)
      ensures old(Tight()) ==> Tight()
      ensures ret >= 0 ==> x < nBuckets && Buckets()[x] == Live
      ensures ret >= 0 ==> (keys[x] == key <==> !(old(Saturated()) && key !in old(contents)))
      ensures ret == 0 ==> contents == old(contents) && (key in old(contents) || old(Saturated()))
      ensures ret > 0 ==> key !in old(contents) && contents == old(contents)[key := vals[x]] && keys[x] == key
      ensures ret >= 0 && old(nOccupied < upperBound) ==>
                nBuckets == old(nBuckets) && nOccupied == old(nOccupied) + if ret == 1 then 1 else 0
      ensures ret > 0 && old(nOccupied < upperBound) ==>
                Chosen(hash(key), old(Buckets()), x) && (ret == 2 <==> IsDeletedAt(old(Buckets()), x))
      ensures ret >= 0 && old(nOccupied >= upperBound) ==>
                Rehashed(old(nBuckets), old(size), old(nOccupied), nBuckets, nOccupied - if ret == 1 then 1 else 0)
    {
      hide IsPowerOfTwo, Fits, Marks, Layout, Reachable, Coherent, Chosen, Rehashed;
      ret := MakeRoom(alloc);
      if ret < 0 {
        return nBuckets, -1;
      }
      x := Site(key);
      ret := Enter(key, x);
    }

    // the last part of kh_put: take the bucket over if it is not live
    method Enter(key: K, x: nat) returns (ret: int)
      requires Valid() && nBuckets > 0 && x < nBuckets
      requires nBuckets < TWO31 ==> nOccupied < upperBound
      requires Buckets()[x] != Live ==> key !in contents && Reachable(hash(key), Buckets(), x)
      requires key !in contents && Buckets()[x] == Live ==> forall i :: 0 <= i < nBuckets ==> Buckets()[i] == Live
      modifies this, flags, keys
      ensures Valid() && Repr() == old(Repr()) && nBuckets == old(nBuckets)
      ensures Buckets()[x] == Live && vals[..] == old(vals[..]) && vals == old(vals)
      ensures old(Buckets()[x]) == Live ==>
                ret == 0 && contents == old(contents) && keys[..] == old(keys[..]) && nOccupied == old(nOccupied)
      ensures old(Buckets()[x]) == Live && key !in contents ==> old(Saturated())
      ensures old(Buckets()[x]) != Live ==> !old(Saturated())
      ensures IsEmpty(old(Buckets()[x])) ==> ret == 1 && nOccupied == old(nOccupied) + 1
      ensures old(Buckets()[x]) == Deleted ==> ret == 2 && nOccupied == old(nOccupied)
      ensures ret != 0 ==> contents == old(contents)[key := vals[x]] && keys[x] == key
    {
      hide IsPowerOfTwo, Fits, Marks, EmptyFlag, DeletedFlag, EitherFlag, Layout, Reachable, Coherent;
      ghost var ms, ks, vs := Buckets(), keys[..], vals[..];
      CoherentEnter(hash, nBuckets, size, nOccupied, upperBound, ms, ks, vs, contents, x, key);
      if EmptyFlag(flags, nBuckets, x) {
        keys[x] := key;
        SetLive(flags, nBuckets, x);
        size, nOccupied := size + 1, nOccupied + 1;
        contents := contents[key := vals[x]];
        ret := 1;
      } else if DeletedFlag(flags, nBuckets, x) {
        keys[x] := key;
        SetLive(flags, nBuckets, x);
        size := size + 1;
        contents := contents[key := vals[x]];
        ret := 2;
      } else {
        ret := 0;
      }
      assert ret != 0 ==> keys[..] == ks[x := key];
    }

    /** Storing a value through kh_val. */
    method SetValue(x: nat, v: V)
      requires Valid() && x < nBuckets && Buckets()[x] == Live
      modifies vals, `contents
      ensures Valid() && keys[x] in old(contents) && contents == old(contents)[keys[x] := v]
      ensures vals[x] == v
    {
      hide IsPowerOfTwo, Fits, Marks, Layout;
      LiveMeansHeld(hash, Buckets(), keys[..], vals[..], contents, x);
      LayoutSetValue(hash, Buckets(), keys[..], vals[..], contents, x, v);
      contents := contents[keys[x] := v];
      vals[x] := v;
      assert vals[..] == old(vals[..])[x := v];
    }

    /** kh_del */
    method Del(x: nat)
      requires Valid() && x <= nBuckets
      modifies flags, `size, `contents
      ensures Valid()
      ensures x < nBuckets && old(Buckets()[x]) == Live ==>
                keys[x] in old(contents) && contents == old(contents) - {keys[x]}
      ensures !(x < nBuckets && old(Buckets()[x]) == Live) ==> contents == old(contents)
    {
      hide IsPowerOfTwo, Fits, Marks, EitherFlag, Layout, Coherent;
      if x != nBuckets && !EitherFlag(flags, nBuckets, x) {
        CoherentRemove(hash, nBuckets, size, nOccupied, upperBound, Buckets(), keys[..], vals[..], contents, x);
        SetDeleted(flags, nBuckets, x);
        size := size - 1;
        contents := contents - {keys[x]};
      }
    }
  }

  lemma {:induction false} CoherentEnter<K(!new), V>(hash: K -> u32, nBuckets: nat, size: nat, nOccupied: nat,
                                                     upperBound: nat, ms: seq<Mark>, ks: seq<K>, vs: seq<V>,
                                                     m: map<K, V>, x: nat, key: K)
    requires Coherent(hash, nBuckets, size, nOccupied, upperBound, ms, ks, vs, m) && x < nBuckets
    requires nBuckets < TWO31 ==> nOccupied < upperBound
    requires ms[x] != Live ==> key !in m && Reachable(hash(key), ms, x)
    requires key !in m && ms[x] == Live ==> forall i :: 0 <= i < nBuckets ==> ms[i] == Live
    ensures |ms| <= |ks| && |ms| <= |vs|
    ensures ms[x] == Empty ==> Coherent(hash, nBuckets, size + 1, nOccupied + 1, upperBound,
                                        ms[x := Live], ks[x := key], vs, m[key := vs[x]])
    ensures ms[x] == Deleted ==> Coherent(hash, nBuckets, size + 1, nOccupied, upperBound,
                                          ms[x := Live], ks[x := key], vs, m[key := vs[x]])
    ensures ms[x] != EmptyDeleted
    ensures ms[x] == Live && key !in m ==> nBuckets == TWO31 && size == TWO31
    ensures ms[x] != Live ==> size < nBuckets
  {
    hide IsPowerOfTwo, Reachable;
    if ms[x] != Live {
      CountsFit(ms[x := Live]);
      LayoutAdd(hash, ms, ks, vs, m, x, key, vs[x]);
      assert vs == vs[x := vs[x]];
    } else if key !in m {
      AllLive(ms);
    }
  }

  /** Below 2^31 buckets a probe meets an empty bucket within the bucket count, before it is back where it started: the
      wrap-around exits of the probe loops are never taken. */
  lemma {:induction false} ProbesEnd<K(!new), V>(hash: K -> u32, nBuckets: nat, size: nat, nOccupied: nat,
                                                 upperBound: nat, ms: seq<Mark>, ks: seq<K>, vs: seq<V>, m: map<K, V>,
                                                 h: nat, s: nat)
    requires Coherent(hash, nBuckets, size, nOccupied, upperBound, ms, ks, vs, m) && 0 < nBuckets < TWO31
    requires Passed(h, ms, s)
    ensures size <= nOccupied <= upperBound < nBuckets
    ensures s < nBuckets && (s > 0 ==> Probe(h, s, nBuckets) != Probe(h, 0, nBuckets))
  {
    LayoutSize(hash, ms, ks, vs, m);
    CountsFit(ms);
    hide IsPowerOfTwo, Layout, Passed, Probe;
    assert Empty in ms by { assert multiset(ms)[Empty] > 0; }
    EmptyIsMet(h, ms, s);
    if s > 0 {
      ProbeInjective(h, 0, s, nBuckets);
    }
  }

  lemma {:induction false} AllLive(ms: seq<Mark>)
    requires forall i :: 0 <= i < |ms| ==> ms[i] == Live
    ensures LiveCount(ms) == OccupiedCount(ms) == |ms|
  {
    if ms != [] {
      var rest := ms[..|ms| - 1];
      assert ms == rest + [ms[|ms| - 1]];
      AllLive(rest);
    }
  }

  lemma {:induction false} CoherentRemove<K(!new), V>(hash: K -> u32, nBuckets: nat, size: nat, nOccupied: nat,
                                                      upperBound: nat, ms: seq<Mark>, ks: seq<K>, vs: seq<V>,
                                                      m: map<K, V>, x: nat)
    requires Coherent(hash, nBuckets, size, nOccupied, upperBound, ms, ks, vs, m) && LiveAt(ms, x)
    ensures size > 0 && x < |ks| && ks[x] in m
    ensures Coherent(hash, nBuckets, size - 1, nOccupied, upperBound, ms[x := Deleted], ks, vs, m - {ks[x]})
  {
    hide IsPowerOfTwo, Reachable;
    LayoutRemove(hash, ms, ks, vs, m, x);
  }

  // x is the last tombstone among the first s probes
  ghost predicate LastTombstone(h: nat, ms: seq<Mark>, x: nat, s: nat)
    requires |ms| > 0
  {
    exists t: nat :: t < s && TombstoneAt(h, ms, x, t, s)
  }

  ghost predicate TombstoneAt(h: nat, ms: seq<Mark>, x: nat, t: nat, s: nat)
    requires |ms| > 0
  {
    Probe(h, t, |ms|) == x && IsDeleted(ms[x]) && forall u: nat :: t < u < s ==> !IsDeleted(ms[Probe(h, u, |ms|)])
  }

  ghost predicate IsDeletedAt(ms: seq<Mark>, x: nat) { x < |ms| && ms[x] == Deleted }

  ghost predicate NoTombstone(h: nat, ms: seq<Mark>, s: nat)
    requires |ms| > 0
  {
    forall t: nat :: t < s ==> !IsDeleted(ms[Probe(h, t, |ms|)])
  }

  // the first s probes have met no empty bucket and have not come back to the first
  ghost predicate Fresh(h: nat, ms: seq<Mark>, s: nat) {
    Passed(h, ms, s) && forall u: nat :: 0 < u < s ==> Probe(h, u, |ms|) != Probe(h, 0, |ms|)
  }

  /** The bucket for a new key: the probe ends at the first empty bucket, or back where it began; the last tombstone on
      the way is taken, or else the bucket where it ends. */
  ghost predicate Chosen(h: nat, ms: seq<Mark>, x: nat) {
    exists s: nat :: Fresh(h, ms, s) && EndsAt(h, ms, s)
                     && if NoTombstone(h, ms, s) then x == Probe(h, s, |ms|) else LastTombstone(h, ms, x, s)
  }

  ghost predicate EndsAt(h: nat, ms: seq<Mark>, s: nat)
    requires |ms| > 0
  {
    IsEmpty(ms[Probe(h, s, |ms|)]) || (s > 0 && Probe(h, s, |ms|) == Probe(h, 0, |ms|))
  }

  // site is the last tombstone met in the first s probes, or the bucket count when none was met
  ghost predicate SiteSoFar(h: nat, ms: seq<Mark>, site: nat, s: nat) {
    && |ms| > 0
    && (site < |ms| ==> IsDeleted(ms[site]) && Reachable(h, ms, site) && LastTombstone(h, ms, site, s))
    && (site >= |ms| ==> site == |ms| && NoTombstone(h, ms, s))
  }

  lemma {:induction false} NothingMet<K(!new)>(h: nat, ms: seq<Mark>, ks: seq<K>, key: K)
    requires 0 < |ms| <= |ks|
    ensures Missed(h, ms, ks, key, 0) && SiteSoFar(h, ms, |ms|, 0) && Fresh(h, ms, 0)
  {
  }

  lemma {:induction false} FreshStep<K(!new)>(h: nat, ms: seq<Mark>, ks: seq<K>, key: K, s: nat)
    requires Fresh(h, ms, s) && Missed(h, ms, ks, key, s + 1)
    requires s > 0 ==> Probe(h, s, |ms|) != Probe(h, 0, |ms|)
    ensures Fresh(h, ms, s + 1)
  {
    hide Probe;
  }

  lemma {:induction false} ChosenAt(h: nat, ms: seq<Mark>, site: nat, s: nat)
    requires |ms| > 0 && Fresh(h, ms, s) && EndsAt(h, ms, s) && SiteSoFar(h, ms, site, s)
    ensures Chosen(h, ms, if site < |ms| then site else Probe(h, s, |ms|))
  {
    hide Probe, Fresh, EndsAt, TombstoneAt;
    if site < |ms| {
      var t: nat :| t < s && TombstoneAt(h, ms, site, t, s);
      TombstoneThere(h, ms, site, t, s);
    }
  }

  lemma {:induction false} TombstoneThere(h: nat, ms: seq<Mark>, x: nat, t: nat, s: nat)
    requires |ms| > 0 && t < s && TombstoneAt(h, ms, x, t, s)
    ensures !NoTombstone(h, ms, s)
  {
  }

  lemma {:induction false} SiteStep<K(!new)>(h: nat, ms: seq<Mark>, ks: seq<K>, key: K, site: nat, s: nat)
    requires SiteSoFar(h, ms, site, s) && Missed(h, ms, ks, key, s)
    ensures SiteSoFar(h, ms, if IsDeleted(ms[Probe(h, s, |ms|)]) then Probe(h, s, |ms|) else site, s + 1)
  {
    hide Probe, TombstoneAt;
    assert Passed(h, ms, s);
    var i := Probe(h, s, |ms|);
    if IsDeleted(ms[i]) {
      TombstoneNow(h, ms, s);
    } else if site < |ms| {
      var t: nat :| t < s && TombstoneAt(h, ms, site, t, s);
      TombstoneStill(h, ms, site, t, s);
    }
  }

  lemma {:induction false} TombstoneNow(h: nat, ms: seq<Mark>, s: nat)
    requires |ms| > 0 && IsDeleted(ms[Probe(h, s, |ms|)])
    ensures TombstoneAt(h, ms, Probe(h, s, |ms|), s, s + 1)
  {
  }

  lemma {:induction false} TombstoneStill(h: nat, ms: seq<Mark>, x: nat, t: nat, s: nat)
    requires |ms| > 0 && TombstoneAt(h, ms, x, t, s) && !IsDeleted(ms[Probe(h, s, |ms|)])
    ensures TombstoneAt(h, ms, x, t, s + 1)
  {
  }

  // after a full round: with no tombstone on the way every bucket is live
  lemma {:induction false} SiteAtReturn<K(!new)>(h: nat, ms: seq<Mark>, ks: seq<K>, key: K, site: nat, s: nat)
    requires IsPowerOfTwo(|ms|) && s > 0 && Probe(h, s, |ms|) == Probe(h, 0, |ms|)
    requires SiteSoFar(h, ms, site, s) && Missed(h, ms, ks, key, s)
    ensures site < |ms| ==> ms[site] != Live && Reachable(h, ms, site)
    ensures site >= |ms| ==> site == |ms| && forall i :: 0 <= i < |ms| ==> ms[i] == Live
    ensures ms[Probe(h, 0, |ms|)] == Live ==> ks[Probe(h, 0, |ms|)] != key
  {
    hide Probe, IsPowerOfTwo, Reachable;
    if s < |ms| {
      ProbeInjective(h, 0, s, |ms|);
    }
    assert LiveAt(ms, Probe(h, 0, |ms|)) == (ms[Probe(h, 0, |ms|)] == Live);
    if site >= |ms| {
      forall i | 0 <= i < |ms|
        ensures ms[i] == Live
      {
        var t := ProbeCovers(h, i, |ms|);
        assert !IsDeleted(ms[Probe(h, t, |ms|)]) && !IsEmpty(ms[Probe(h, t, |ms|)]);
      }
    }
  }

  // where the probe stops: on the key, or on an empty bucket
  lemma {:induction false} SiteAtEnd<K(!new), V>(hash: K -> u32, ms: seq<Mark>, ks: seq<K>, vs: seq<V>, m: map<K, V>,
                                                 key: K, site: nat, s: nat)
    requires Layout(hash, ms, ks, vs, m) && Missed(hash(key), ms, ks, key, s)
    requires SiteSoFar(hash(key), ms, site, s)
    ensures IsEmpty(ms[Probe(hash(key), s, |ms|)]) ==>
              key !in m && Reachable(hash(key), ms, Probe(hash(key), s, |ms|))
    ensures LiveAt(ms, Probe(hash(key), s, |ms|)) && ks[Probe(hash(key), s, |ms|)] == key ==> key in m
    ensures site < |ms| ==> ms[site] != Live && Reachable(hash(key), ms, site)
  {
    hide Probe, IsPowerOfTwo;
    assert Passed(hash(key), ms, s);
    if IsEmpty(ms[Probe(hash(key), s, |ms|)]) {
      EmptyMeansAbsent(hash, ms, ks, vs, m, key, s);
    }
  }

  lemma {:induction false} CoherentSize<K(!new), V>(hash: K -> u32, nBuckets: nat, size: nat, nOccupied: nat,
                                                    upperBound: nat, ms: seq<Mark>, ks: seq<K>, vs: seq<V>,
                                                    m: map<K, V>)
    requires Coherent(hash, nBuckets, size, nOccupied, upperBound, ms, ks, vs, m)
    ensures size == |m| && size <= nOccupied <= nBuckets
    ensures nBuckets == 0 || (IsPowerOfTwo(nBuckets) && 4 <= nBuckets <= TWO31)
    ensures upperBound == UpperBound(nBuckets) && (nBuckets < TWO31 ==> nOccupied <= upperBound)
    ensures nBuckets == 0 ==> size == nOccupied == upperBound == 0
  {
    CountsFit(ms);
  }

  /** Below 2^31 buckets the request that kh_put makes is always granted; at 2^31 it leaves the bucket count alone. */
  lemma {:induction false} RequestGrants(n: nat, size: nat)
    requires n == 0 || (IsPowerOfTwo(n) && 4 <= n <= TWO31)
    requires size <= n && (n < TWO31 ==> size <= UpperBound(n))
    ensures n > (2 * size) % TWO32 ==> n > 0 && BucketCount(n - 1) == n
    ensures n > (2 * size) % TWO32 && n < TWO31 ==> size < UpperBound(n)
    ensures n <= (2 * size) % TWO32 && n < TWO31 ==> BucketCount(n + 1) == if n == 0 then 4 else 2 * n
    ensures n <= (2 * size) % TWO32 && n < TWO31 ==> size < UpperBound(BucketCount(n + 1))
    ensures n <= (2 * size) % TWO32 && n == TWO31 ==> size >= UpperBound(BucketCount(n + 1))
  {
    hide KRoundUp32, IsPowerOfTwo;
    if n > 0 {
      ResizeRequests(n);
    } else {
      KRoundUp32Spec(1);
    }
  }

  // what is asked for in the end, and whether it is granted
  lemma {:induction false} RequestIs(n: nat, size: nat)
    requires n == 0 || (IsPowerOfTwo(n) && 4 <= n <= TWO31)
    requires size <= n && (n < TWO31 ==> size <= UpperBound(n))
    ensures var wanted := BucketCount(Request(n, size));
            if n < TWO31 then
              size < UpperBound(wanted) && wanted == (if n > 2 * size then n else if n == 0 then 4 else 2 * n)
            else if 2 * size < n then wanted == n && size < UpperBound(wanted)
            else size >= UpperBound(wanted)
  {
    hide BucketCount, IsPowerOfTwo, UpperBound;
    RequestGrants(n, size);
    assert size < TWO31 ==> (2 * size) % TWO32 == 2 * size;
    HalfBelow(n, size);
    UpperBoundBelow(TWO31);
  }

  lemma {:induction false} HalfBelow(n: nat, size: nat)
    ensures 2 * size < n ==> size < UpperBound(n)
  {
  }

  // granted, unless there are 2^31 buckets already and too many in use
  lemma {:induction false} WantedGrants(n: nat, size: nat)
    requires n == 0 || (IsPowerOfTwo(n) && 4 <= n <= TWO31)
    requires size <= n && (n < TWO31 ==> size <= UpperBound(n))
    ensures var wanted := BucketCount(Request(n, size));
            && wanted >= 4 && (n < TWO31 ==> size < UpperBound(wanted))
            && (size == TWO31 ==> size >= UpperBound(wanted))
  {
    hide BucketCount, IsPowerOfTwo, UpperBound;
    RequestGrants(n, size);
    BucketCountSpec(Request(n, size));
    UpperBoundBelow(BucketCount(Request(n, size)));
    UpperBoundBelow(TWO31);
  }

  lemma {:induction false} UpperBoundBelow(n: nat)
    requires n <= TWO31
    ensures UpperBound(n) <= TWO31
  {
  }

  lemma {:induction false} SameBuckets<K(!new), V>(hash: K -> u32, ms: seq<Mark>, ks: seq<K>, vs: seq<V>, m: map<K, V>,
                                                   ks': seq<K>, vs': seq<V>)
    requires |ms| <= |ks| && |ms| <= |vs| && |ms| <= |ks'| && |ms| <= |vs'|
    requires forall i :: 0 <= i < |ms| ==> ks'[i] == ks[i] && vs'[i] == vs[i]
    ensures Layout(hash, ms, ks, vs, m) ==> Layout(hash, ms, ks', vs', m)
  {
    if Layout(hash, ms, ks, vs, m) {
      LayoutFrame(hash, ms, ks, vs, m, ks', vs');
    }
  }

  method PutNew(t: Table<nat, nat>, key: nat)
    requires t.Valid() && key !in t.contents && |t.contents| < TWO31
    modifies t.Repr()
    ensures t.Valid() && fresh(t.Repr() - old(t.Repr()))
    ensures t.contents.Keys == old(t.contents).Keys + {key}
  {
    hide IsPowerOfTwo, Fits, Marks, Layout, Coherent;
    TableSize(t);
    var x, ret := t.Put(key, Allocation(true, true, true));
    t.SetValue(x, 0);
  }

  /** The saturated case can be met: 2^31 puts of new keys fill the table. */
  method FillUp(hash: nat -> u32) returns (t: Table<nat, nat>)
    ensures fresh(t) && fresh(t.Repr()) && t.Valid() && t.Saturated() && TWO31 !in t.contents
  {
    hide IsPowerOfTwo, Fits, Marks, Layout, Coherent;
    t := new Table(hash);
    for i := 0 to TWO31
      invariant fresh(t) && fresh(t.Repr()) && t.Valid()
      invariant |t.contents| == i && forall k :: k in t.contents ==> k < i
    {
      assert |t.contents.Keys| == i;
      PutNew(t, i);
      assert |t.contents.Keys| == i + 1;
    }
    TableSize(t);
  }

  /** Then the next new key is given the bucket of another one, as if it had been there. */
  method OneTooMany(hash: nat -> u32) returns (t: Table<nat, nat>, x: nat, ret: int)
    ensures fresh(t) && fresh(t.Repr()) && t.Valid() && TWO31 !in t.contents
    ensures ret == 0 && x < t.nBuckets && t.keys[x] != TWO31 && t.keys[x] in t.contents
  {
    hide IsPowerOfTwo, Fits, Marks, Layout, Coherent;
    t := FillUp(hash);
    x, ret := t.Put(TWO31, Allocation(true, true, true));
    TableSize(t);
    LiveMeansHeld(t.hash, t.Buckets(), t.keys[..], t.vals[..], t.contents, x);
  }

  lemma {:induction false} TableSize<K(0, !new), V(0, !new)>(t: Table<K, V>)
    requires t.Valid()
    ensures t.size == |t.contents| && t.size <= t.nBuckets <= TWO31
    ensures t.nBuckets > 0 ==> Layout(t.hash, t.Buckets(), t.keys[..], t.vals[..], t.contents)
  {
    CoherentSize(t.hash, t.nBuckets, t.size, t.nOccupied, t.upperBound, t.Buckets(), t.keys[..], t.vals[..],
                 t.contents);
  }
}
