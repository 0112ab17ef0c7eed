/** The packed bucket flags of the hash table: two bits a bucket, sixteen buckets a word. */
module FlagWords {
  // the four values of a bucket's pair of bits, 0 to 3
  datatype Mark = Live | Deleted | Empty | EmptyDeleted

  predicate IsEmpty(m: Mark) { m == Empty || m == EmptyDeleted }

  predicate IsDeleted(m: Mark) { m == Deleted || m == EmptyDeleted }

  function WithDeleted(m: Mark): Mark { if IsEmpty(m) then EmptyDeleted else Deleted }

  function WithoutEmpty(m: Mark): Mark { if IsDeleted(m) then Deleted else Live }

  function Decode(c: bv32): Mark {
    if c == 0 then Live else if c == 1 then Deleted else if c == 2 then Empty else EmptyDeleted
  }

  // (i & 0xf) << 1
  function Shift(i: nat): bv32 {
    [0, 2, 4, 6, 8, 10, 12, 14, 16, 18, 20, 22, 24, 26, 28, 30][i % 16]
  }

  predicate EvenShift(s: bv32) { s <= 30 && s & 1 == 0 }

  lemma {:induction false} ShiftRange(i: nat)
    ensures EvenShift(Shift(i))
  {
    var j := i % 16;
    assert j == 0 || j == 1 || j == 2 || j == 3 || j == 4 || j == 5 || j == 6 || j == 7
        || j == 8 || j == 9 || j == 10 || j == 11 || j == 12 || j == 13 || j == 14 || j == 15;
  }

  /** The pair of bucket i lies 2 * (i mod 16) bits up. */
  lemma {:induction false} ShiftValue(i: nat)
    ensures Shift(i) as int == 2 * (i % 16)
  {
    var j := i % 16;
    assert j == 0 || j == 1 || j == 2 || j == 3 || j == 4 || j == 5 || j == 6 || j == 7
        || j == 8 || j == 9 || j == 10 || j == 11 || j == 12 || j == 13 || j == 14 || j == 15;
  }

  lemma {:induction false} ShiftInjective(i: nat, j: nat)
    requires i % 16 != j % 16
    ensures Shift(i) != Shift(j)
  {
  }

  // the two bits of w above position s
  function Pair(w: bv32, s: bv32): bv32
    requires EvenShift(s)
  {
    (w >> s) & 3
  }

  // w' is w with the pair at s replaced by the code of m
  ghost predicate PairSet(w: bv32, w': bv32, s: bv32, m: Mark) {
    EvenShift(s) && Decode(Pair(w', s)) == m &&
    forall t :: EvenShift(t) && t != s ==> Pair(w', t) == Pair(w, t)
  }

  function SetBits(w: bv32, s: bv32, c: bv32): bv32 requires EvenShift(s) { w | (c << s) }

  function ClearBits(w: bv32, s: bv32, c: bv32): bv32 requires EvenShift(s) { w & !(c << s) }

  lemma {:induction false} SetBitsPair(w: bv32, s: bv32, t: bv32, c: bv32)
    requires EvenShift(s) && EvenShift(t) && c <= 3
    ensures Pair(SetBits(w, s, c), s) == Pair(w, s) | c
    ensures s != t ==> Pair(SetBits(w, s, c), t) == Pair(w, t)
  {
  }

  lemma {:induction false} ClearBitsPair(w: bv32, s: bv32, t: bv32, c: bv32)
    requires EvenShift(s) && EvenShift(t) && c <= 3
    ensures Pair(ClearBits(w, s, c), s) == Pair(w, s) & !c
    ensures s != t ==> Pair(ClearBits(w, s, c), t) == Pair(w, t)
  {
  }

  lemma {:induction false} SetBitsIsUpdate(w: bv32, s: bv32, c: bv32, m: Mark)
    requires EvenShift(s) && c <= 3 && Decode(Pair(w, s) | c) == m
    ensures PairSet(w, SetBits(w, s, c), s, m)
  {
    hide Decode, Pair, SetBits, EvenShift;
    SetBitsPair(w, s, s, c);
    forall t | EvenShift(t) && t != s
      ensures Pair(SetBits(w, s, c), t) == Pair(w, t)
    {
      SetBitsPair(w, s, t, c);
    }
  }

  lemma {:induction false} ClearBitsIsUpdate(w: bv32, s: bv32, c: bv32, m: Mark)
    requires EvenShift(s) && c <= 3 && Decode(Pair(w, s) & !c) == m
    ensures PairSet(w, ClearBits(w, s, c), s, m)
  {
    hide Decode, Pair, ClearBits, EvenShift;
    ClearBitsPair(w, s, s, c);
    forall t | EvenShift(t) && t != s
      ensures Pair(ClearBits(w, s, c), t) == Pair(w, t)
    {
      ClearBitsPair(w, s, t, c);
    }
  }

  lemma {:induction false} Codes(w: bv32, s: bv32)
    requires EvenShift(s)
    ensures Decode(Pair(w, s) | 1) == WithDeleted(Decode(Pair(w, s)))
    ensures Decode(Pair(w, s) & !2) == WithoutEmpty(Decode(Pair(w, s)))
    ensures Decode(Pair(w, s) & !3) == Live
  {
  }

  lemma {:induction false} DeletedMacro(w: bv32, s: bv32)
    requires EvenShift(s)
    ensures PairSet(w, SetBits(w, s, 1), s, WithDeleted(Decode(Pair(w, s))))
  {
    Codes(w, s);
    SetBitsIsUpdate(w, s, 1, WithDeleted(Decode(Pair(w, s))));
  }

  lemma {:induction false} OccupiedMacro(w: bv32, s: bv32)
    requires EvenShift(s)
    ensures PairSet(w, ClearBits(w, s, 2), s, WithoutEmpty(Decode(Pair(w, s))))
  {
    Codes(w, s);
    ClearBitsIsUpdate(w, s, 2, WithoutEmpty(Decode(Pair(w, s))));
  }

  lemma {:induction false} LiveMacro(w: bv32, s: bv32)
    requires EvenShift(s)
    ensures PairSet(w, ClearBits(w, s, 3), s, Live)
  {
    Codes(w, s);
    ClearBitsIsUpdate(w, s, 3, Live);
  }

  lemma {:induction false} PairOfFill(s: bv32)
    requires EvenShift(s)
    ensures Pair(0xaaaa_aaaa, s) == 2
  {
  }

  // __ac_fsize
  function WordCount(n: nat): nat { if n < 16 then 1 else n / 16 }

  // n is 0 (no flags) or a bucket count that fills its words
  predicate Fits(n: nat, words: nat) {
    if n == 0 then words == 0 else words == WordCount(n) && (n < 16 || n % 16 == 0)
  }

  /** The flags of a table take as few words as hold them. */
  lemma {:induction false} FewestWords(n: nat)
    requires n > 0 && Fits(n, WordCount(n))
    ensures 16 * (WordCount(n) - 1) < n <= 16 * WordCount(n)
  {
  }

  function MarkAt(words: seq<bv32>, i: nat): Mark
    requires i / 16 < |words|
  {
    ShiftRange(i);
    Decode(Pair(words[i / 16], Shift(i)))
  }

  // the flags of the first n buckets
  function Marks(words: seq<bv32>, n: nat): (ms: seq<Mark>)
    requires Fits(n, |words|)
    ensures |ms| == n
  {
    seq(n, i requires 0 <= i < n => MarkAt(words, i))
  }

  lemma {:induction false} MarksAt(words: seq<bv32>, n: nat, i: nat)
    requires Fits(n, |words|) && i < n
    ensures EvenShift(Shift(i))
    ensures i / 16 < |words| && Marks(words, n)[i] == Decode(Pair(words[i / 16], Shift(i)))
  {
    ShiftRange(i);
  }

  lemma {:induction false} TestBits(p: bv32)
    requires p <= 3
    ensures p & 2 != 0 <==> IsEmpty(Decode(p))
    ensures p & 1 != 0 <==> IsDeleted(Decode(p))
    ensures p & 3 == 0 <==> Decode(p) == Live
  {
  }

  lemma {:induction false} PairBound(w: bv32, s: bv32)
    requires EvenShift(s)
    ensures Pair(w, s) <= 3
  {
  }

  // __ac_isempty
  predicate EmptyFlag(words: array<bv32>, n: nat, i: nat)
    requires Fits(n, words.Length) && i < n
    reads words
    ensures EmptyFlag(words, n, i) <==> IsEmpty(Marks(words[..], n)[i])
  {
    MarksAt(words[..], n, i);
    PairBound(words[i / 16], Shift(i));
    TestBits(Pair(words[i / 16], Shift(i)));
    Pair(words[i / 16], Shift(i)) & 2 != 0
  }

  // __ac_isdel
  predicate DeletedFlag(words: array<bv32>, n: nat, i: nat)
    requires Fits(n, words.Length) && i < n
    reads words
    ensures DeletedFlag(words, n, i) <==> IsDeleted(Marks(words[..], n)[i])
  {
    MarksAt(words[..], n, i);
    PairBound(words[i / 16], Shift(i));
    TestBits(Pair(words[i / 16], Shift(i)));
    Pair(words[i / 16], Shift(i)) & 1 != 0
  }

  // __ac_iseither
  predicate EitherFlag(words: array<bv32>, n: nat, i: nat)
    requires Fits(n, words.Length) && i < n
    reads words
    ensures EitherFlag(words, n, i) <==> Marks(words[..], n)[i] != Live
  {
    MarksAt(words[..], n, i);
    PairBound(words[i / 16], Shift(i));
    TestBits(Pair(words[i / 16], Shift(i)));
    Pair(words[i / 16], Shift(i)) & 3 != 0
  }

  lemma {:induction false} MarksUpdate(words: seq<bv32>, n: nat, i: nat, w: bv32, m: Mark)
    requires Fits(n, |words|) && i < n && i / 16 < |words|
    requires PairSet(words[i / 16], w, Shift(i), m)
    ensures Marks(words[i / 16 := w], n) == Marks(words, n)[i := m]
  {
    var words' := words[i / 16 := w];
    forall j | 0 <= j < n
      ensures Marks(words', n)[j] == Marks(words, n)[i := m][j]
    {
      ShiftRange(j);
      if j != i && j / 16 == i / 16 {
        ShiftInjective(i, j);
      }
    }
  }

  method NewFlags(n: nat) returns (words: array<bv32>)
    requires n > 0 && Fits(n, WordCount(n))
    ensures fresh(words) && words.Length == WordCount(n)
    ensures forall i :: 0 <= i < n ==> Marks(words[..], n)[i] == Empty
  {
    words := new bv32[WordCount(n)](_ => 0xaaaa_aaaa);
    AllEmpty(words[..], n);
  }

  lemma {:induction false} AllEmpty(words: seq<bv32>, n: nat)
    requires Fits(n, |words|)
    requires forall k :: 0 <= k < |words| ==> words[k] == 0xaaaa_aaaa
    ensures forall i :: 0 <= i < n ==> Marks(words, n)[i] == Empty
  {
    forall i | 0 <= i < n
      ensures Marks(words, n)[i] == Empty
    {
      ShiftRange(i);
      PairOfFill(Shift(i));
    }
  }

  method Fill(words: array<bv32>, n: nat)
    requires Fits(n, words.Length)
    modifies words
    ensures forall i :: 0 <= i < n ==> Marks(words[..], n)[i] == Empty
  {
    for k := 0 to words.Length
      invariant forall l :: 0 <= l < k ==> words[l] == 0xaaaa_aaaa
    {
      words[k] := 0xaaaa_aaaa;
    }
    AllEmpty(words[..], n);
  }

  // __ac_set_isdel_true
  method SetDeleted(words: array<bv32>, n: nat, i: nat)
    requires Fits(n, words.Length) && i < n
    modifies words
    ensures Marks(words[..], n) == old(Marks(words[..], n))[i := WithDeleted(old(Marks(words[..], n)[i]))]
  {
    hide *;
    MarksAt(words[..], n, i);
    ShiftRange(i);
    DeletedMacro(words[i / 16], Shift(i));
    words[i / 16] := SetBits(words[i / 16], Shift(i), 1);
    MarksUpdate(old(words[..]), n, i, words[i / 16], WithDeleted(old(Marks(words[..], n)[i])));
    assert words[..] == old(words[..])[i / 16 := words[i / 16]];
  }

  // __ac_set_isempty_false
  method SetOccupied(words: array<bv32>, n: nat, i: nat)
    requires Fits(n, words.Length) && i < n
    modifies words
    ensures Marks(words[..], n) == old(Marks(words[..], n))[i := WithoutEmpty(old(Marks(words[..], n)[i]))]
  {
    hide *;
    MarksAt(words[..], n, i);
    ShiftRange(i);
    OccupiedMacro(words[i / 16], Shift(i));
    words[i / 16] := ClearBits(words[i / 16], Shift(i), 2);
    MarksUpdate(old(words[..]), n, i, words[i / 16], WithoutEmpty(old(Marks(words[..], n)[i])));
    assert words[..] == old(words[..])[i / 16 := words[i / 16]];
  }

  // __ac_set_isboth_false
  method SetLive(words: array<bv32>, n: nat, i: nat)
    requires Fits(n, words.Length) && i < n
    modifies words
    ensures Marks(words[..], n) == old(Marks(words[..], n))[i := Live]
  {
    hide *;
    MarksAt(words[..], n, i);
    ShiftRange(i);
    LiveMacro(words[i / 16], Shift(i));
    words[i / 16] := ClearBits(words[i / 16], Shift(i), 3);
    MarksUpdate(old(words[..]), n, i, words[i / 16], Live);
    assert words[..] == old(words[..])[i / 16 := words[i / 16]];
  }
}
