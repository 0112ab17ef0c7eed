/** The label dictionary (language to label), a client of the hash table. */
module DictLabels {
  import opened Basics
  import opened FlagWords
  import opened KHashLayout
  import opened KHash

  class Labels {
    var h: Table<string, string>

    ghost predicate Valid()
      reads this, h, h.Repr()
    {
      this !in h.Repr() && h.Valid() && h.Tight()
    }

    /** il_dict_labels_create */
    constructor (hash: string -> u32)
      ensures Valid() && fresh(h) && fresh(h.Repr()) && h.contents == map[] && h.nBuckets == 0
    {
      h := new Table(hash);
    }

    /** il_dict_labels_get: None is the error for a language that is not there. */
    method Get(lang: string) returns (text: Option<string>)
      requires Valid()
      ensures text == if lang in h.contents then Some(h.contents[lang]) else None
    {
      var k := h.Get(lang);
      if k == h.nBuckets {
        return None;
      }
      return Some(h.vals[k]);
    }

    /** il_dict_labels_set: a map update, unless the table is saturated and the language new; then the label of some
        other language is overwritten. If the memory for a rehash is denied, exactly then the label goes past the end of
        the array of labels: the code stores at k all the same, which is not modelled. */
    method Set(lang: string, text: string, alloc: Allocation) returns (k: nat)
      requires Valid()
      modifies h, h.Repr()
      ensures Valid() && h == old(h) && fresh(h.Repr() - old(h.Repr()))
      ensures k >= h.vals.Length <==> old(h.Denied(alloc))
      ensures k < h.vals.Length ==> k < h.nBuckets && h.vals[k] == text
      ensures old(h.Denied(alloc)) ==> k == h.nBuckets && h.contents == old(h.contents)
      ensures !old(h.Denied(alloc)) && !(old(h.Saturated()) && lang !in old(h.contents)) ==>
                h.contents == old(h.contents)[lang := text] && h.keys[k] == lang
      ensures !old(h.Denied(alloc)) && old(h.Saturated()) && lang !in old(h.contents) ==>
                lang !in h.contents && h.contents.Keys == old(h.contents).Keys && h.keys[k] != lang
    {
      hide Marks, Fits, Coherent, Layout;
      var absent;
      k, absent := h.Put(lang, alloc);
      if k < h.nBuckets {
        h.SetValue(k, text);
      }
    }

    /** il_dict_labels_del */
    method Del(lang: string)
      requires Valid()
      modifies h.Repr()
      ensures Valid() && h == old(h) && h.Repr() == old(h.Repr())
      ensures h.contents == old(h.contents) - {lang}
    {
      hide Marks, Fits, Coherent, Layout;
      var k := h.Get(lang);
      if k != h.nBuckets {
        h.Del(k);
      }
    }

    /** il_dict_labels_langs_get: exactly the languages, each once, and a terminating NULL. */
    method Langs() returns (langs: array<Option<string>>)
      requires Valid()
      ensures fresh(langs) && langs.Length == |h.contents| + 1 && langs[|h.contents|] == None
      ensures forall i :: 0 <= i < |h.contents| ==> langs[i].Some? && langs[i].value in h.contents
      ensures forall i, j :: 0 <= i < j < |h.contents| ==> langs[i] != langs[j]
      ensures forall lang :: lang in h.contents ==>
                exists i :: 0 <= i < |h.contents| && langs[i] == Some(lang)
    {
      hide Marks, Fits, Coherent, Layout, Stock, EitherFlag;
      langs := new Option<string>[h.size + 1](_ => None);
      var i := 0;
      ghost var ms, ks := h.Buckets(), h.keys[..];
      StockOfTable(h);
      KeysOfStock(ms, ks, h.vals[..], h.contents);
      for k := 0 to h.nBuckets
        invariant i == |LiveKeys(ms, ks, k)| && i <= h.size
        invariant forall a :: 0 <= a < i ==> langs[a] == Some(LiveKeys(ms, ks, k)[a])
      {
        LiveKeysGrow(ms, ks, k);
        if !EitherFlag(h.flags, h.nBuckets, k) {
          langs[i] := Some(h.keys[k]);
          i := i + 1;
        }
      }
      langs[i] := None;
      ghost var l := LiveKeys(ms, ks, |ms|);
      assert forall a :: 0 <= a < |l| ==> langs[a] == Some(l[a]);
      forall lang | lang in h.contents
        ensures exists a :: 0 <= a < |h.contents| && langs[a] == Some(lang)
      {
        var a :| 0 <= a < |l| && l[a] == lang;
        assert langs[a] == Some(lang);
      }
    }
  }

  // the first put always rehashes
  lemma {:induction false} FirstPutDenied<K(0, !new), V(0, !new)>(t: Table<K, V>, alloc: Allocation)
    requires t.Valid() && t.nBuckets == 0
    ensures t.Denied(alloc) <==> alloc != Allocation(true, true, true)
  {
    hide Marks, Fits, Layout, Coherent;
    CoherentSize(t.hash, t.nBuckets, t.size, t.nOccupied, t.upperBound, t.Buckets(), t.keys[..], t.vals[..],
                 t.contents);
  }

  /** The label of the first language goes past the end if any of the three allocations fails. */
  method FirstStoreBeyond(hash: string -> u32, lang: string, text: string, alloc: Allocation)
    returns (labels: Labels, k: nat)
    requires alloc != Allocation(true, true, true)
    ensures fresh(labels) && labels.Valid() && k >= labels.h.vals.Length && labels.h.contents == map[]
  {
    labels := new Labels(hash);
    FirstPutDenied(labels.h, alloc);
    k := labels.Set(lang, text, alloc);
  }

  lemma {:induction false} StockOfTable(h: Table<string, string>)
    requires h.Valid()
    ensures Stock(h.Buckets(), h.keys[..], h.vals[..], h.contents) && h.size == |h.contents|
    ensures |h.Buckets()| <= h.keys.Length
  {
    hide Marks, Fits, Layout, Coherent;
    StockOfCoherent(h.hash, h.nBuckets, h.size, h.nOccupied, h.upperBound, h.Buckets(),
                    h.keys[..], h.vals[..], h.contents);
  }

  // the keys of the live buckets among the first k
  function LiveKeys<K>(ms: seq<Mark>, ks: seq<K>, k: nat): seq<K>
    requires k <= |ms| <= |ks|
  {
    if k == 0 then []
    else LiveKeys(ms, ks, k - 1) + if ms[k - 1] == Live then [ks[k - 1]] else []
  }

  lemma {:induction false} LiveKeysGrow<K>(ms: seq<Mark>, ks: seq<K>, k: nat)
    requires k < |ms| <= |ks|
    ensures |LiveKeys(ms, ks, k + 1)| <= |LiveKeys(ms, ks, |ms|)|
    ensures LiveKeys(ms, ks, k + 1) == LiveKeys(ms, ks, k) + if ms[k] == Live then [ks[k]] else []
    decreases |ms| - k
  {
    if k + 1 < |ms| { LiveKeysGrow(ms, ks, k + 1); }
  }

  lemma {:induction false} LiveKeyAt<K>(ms: seq<Mark>, ks: seq<K>, k: nat, a: nat) returns (i: nat)
    requires k <= |ms| <= |ks| && a < |LiveKeys(ms, ks, k)|
    ensures i < k && LiveAt(ms, i) && ks[i] == LiveKeys(ms, ks, k)[a]
    ensures a == |LiveKeys(ms, ks, i)|
  {
    if a < |LiveKeys(ms, ks, k - 1)| {
      i := LiveKeyAt(ms, ks, k - 1, a);
    } else {
      i := k - 1;
    }
  }

  lemma {:induction false} LiveKeyListed<K>(ms: seq<Mark>, ks: seq<K>, k: nat, i: nat)
    requires i < k <= |ms| <= |ks| && LiveAt(ms, i)
    ensures ks[i] in LiveKeys(ms, ks, k)
  {
    if i < k - 1 { LiveKeyListed(ms, ks, k - 1, i); }
  }

  /** Under Stock the live keys list the map's keys, each once. */
  lemma {:induction false} KeysOfStock<K(!new), V>(ms: seq<Mark>, ks: seq<K>, vs: seq<V>, m: map<K, V>)
    requires Stock(ms, ks, vs, m)
    ensures |ms| <= |ks|
    ensures var l := LiveKeys(ms, ks, |ms|);
            && |l| == |m|
            && (forall a :: 0 <= a < |l| ==> l[a] in m)
            && (forall a, b :: 0 <= a < b < |l| ==> l[a] != l[b])
            && (forall k :: k in m ==> k in l)
  {
    var l := LiveKeys(ms, ks, |ms|);
    forall a | 0 <= a < |l|
      ensures l[a] in m && forall b :: a < b < |l| ==> l[a] != l[b]
    {
      var i := LiveKeyAt(ms, ks, |ms|, a);
      forall b | a < b < |l|
        ensures l[a] != l[b]
      {
        var j := LiveKeyAt(ms, ks, |ms|, b);
      }
    }
    forall k | k in m
      ensures k in l
    {
      assert Holds(ms, ks, k);
      var i :| LiveAt(ms, i) && ks[i] == k;
      LiveKeyListed(ms, ks, |ms|, i);
    }
    DistinctSize(l, m.Keys);
  }

  lemma {:induction false} DistinctSize<K>(l: seq<K>, s: set<K>)
    requires forall a, b :: 0 <= a < b < |l| ==> l[a] != l[b]
    requires forall k :: k in s <==> k in l
    ensures |l| == |s|
  {
    if l == [] {
      assert s == {};
    } else {
      var k, rest := l[|l| - 1], l[..|l| - 1];
      assert l == rest + [k];
      DistinctSize(rest, s - {k});
    }
  }
}
