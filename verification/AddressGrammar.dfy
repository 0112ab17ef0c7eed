/** The dotted form of addresses as the documentation promises it, numbers as in C, and when ip4addr_aton reads it. */
module AddressGrammar {
  import opened Basics
  import opened ModArith
  import opened AddressText

  // ---------- the promised form ----------

  // what ends a text, and a piece of it
  predicate Ends(c: char) { c == '\0' || IsSpace(c) }

  predicate IsPiece(t: string) { forall i :: 0 <= i < |t| ==> t[i] != '.' && !Ends(t[i]) }

  /** Pieces with a dot between them, up to the end of the text, a NUL or white space. */
  predicate Splits(s: string, pieces: seq<string>, rest: string) {
    && |pieces| > 0 && (forall i :: 0 <= i < |pieces| ==> IsPiece(pieces[i]))
    && (rest == "" || Ends(rest[0]))
    && s == Join(pieces) + rest
  }

  function Join(pieces: seq<string>): string {
    if pieces == [] then "" else if |pieces| == 1 then pieces[0] else pieces[0] + "." + Join(pieces[1..])
  }

  // 0x is for hexadecimal, 0 for octal, 1-9 for decimal
  function Base(t: string): nat {
    if At(t, 0) != '0' then 10 else if At(t, 1) == 'x' || At(t, 1) == 'X' then 16 else 8
  }

  function Body(t: string): string {
    if Base(t) == 10 then t else if Base(t) == 16 then t[2..] else t[1..]
  }

  predicate IsNumeral(t: string, base: nat) {
    forall i :: 0 <= i < |t| ==> IsHex(t[i]) && DigitOf(t[i]) < base
  }

  // the number that digits denote, of any size
  function Value(t: string, base: nat): nat
    requires forall i :: 0 <= i < |t| ==> IsHex(t[i])
  {
    if t == "" then 0 else Value(t[..|t| - 1], base) * base + DigitOf(t[|t| - 1])
  }

  /** A number as in C. The 0 of an octal number is itself a digit; decimal and hexadecimal ones need another. */
  function CNumber(t: string): Option<nat> {
    if IsNumeral(Body(t), Base(t)) && (Base(t) == 8 || Body(t) != "") then Some(Value(Body(t), Base(t))) else None
  }

  function BigEndian(parts: seq<nat>): nat {
    if parts == [] then 0 else BigEndian(parts[..|parts| - 1]) * 0x100 + parts[|parts| - 1]
  }

  // what the last of k numbers has room for
  function RoomFor(k: nat): nat
    requires 1 <= k <= 4
  {
    if k == 1 then TWO32 else if k == 2 then 0x1000000 else if k == 3 then 0x10000 else 0x100
  }

  // one byte per number, and the rest of the address for the last
  function Combined(nums: seq<nat>): Option<nat>
    requires 1 <= |nums| <= 4
  {
    var k := |nums| - 1;
    if (forall i :: 0 <= i < k ==> nums[i] <= 0xff) && nums[k] < RoomFor(k + 1)
    then Some(BigEndian(nums[..k]) * RoomFor(k + 1) + nums[k]) else None
  }

  function Numerals(pieces: seq<string>): (r: Option<seq<nat>>)
    ensures r.Some? ==> |r.value| == |pieces|
  {
    if pieces == [] then Some([])
    else
      var first, others := CNumber(pieces[0]), Numerals(pieces[1..]);
      if first.Some? && others.Some? then Some([first.value] + others.value) else None
  }

  /** The address that the pieces stand for. */
  function Promised(pieces: seq<string>): Option<nat> {
    var nums := Numerals(pieces);
    if 1 <= |pieces| <= 4 && nums.Some? then Combined(nums.value) else None
  }

  // ---------- what the code takes for a number ----------

  /** Digits by the code's tests: 8 and 9 in every base, letters in hexadecimal. */
  predicate Taken(t: string) {
    && t != "" && IsDigit(t[0])
    && forall i :: 0 <= i < |Body(t)| ==> IsDigit(Body(t)[i]) || (Base(t) == 16 && IsHex(Body(t)[i]))
  }

  // the value the code computes, modulo 2^32
  function WordOf(t: string): (w: nat)
    requires Taken(t)
    ensures w < TWO32
  {
    Value(Body(t), Base(t)) % TWO32
  }

  ghost predicate AllTaken(pieces: seq<string>) { forall i :: 0 <= i < |pieces| ==> Taken(pieces[i]) }

  predicate Wraps(t: string) { Taken(t) && Value(Body(t), Base(t)) >= TWO32 }

  predicate OddOctal(t: string) { Base(t) == 8 && ('8' in Body(t) || '9' in Body(t)) }

  predicate BareHex(t: string) { Base(t) == 16 && Body(t) == "" }

  /** The piece is none of those that the code reads otherwise than promised. */
  predicate Plain(t: string) { !Wraps(t) && !OddOctal(t) && !BareHex(t) }

  lemma {:induction false} DigitRange(c: char)
    requires IsHex(c)
    ensures DigitOf(c) < 16 && (IsDigit(c) <==> DigitOf(c) < 10)
            && (DigitOf(c) < 8 <==> IsDigit(c) && c != '8' && c != '9')
  {
  }

  // a number as in C is one the code takes, without 8 and 9 in octal and not just 0x
  lemma {:induction false} CNumberIff(t: string)
    ensures CNumber(t).Some? <==> Taken(t) && !OddOctal(t) && !BareHex(t)
    ensures CNumber(t).Some? ==> CNumber(t) == Some(Value(Body(t), Base(t)))
  {
    var b := Body(t);
    forall i | 0 <= i < |b| && IsHex(b[i])
      ensures DigitOf(b[i]) < Base(t) <==>
              (IsDigit(b[i]) || Base(t) == 16) && (Base(t) == 8 ==> b[i] != '8' && b[i] != '9')
    {
      DigitRange(b[i]);
    }
    assert Base(t) == 10 && t != "" && IsNumeral(b, 10) ==> DigitOf(t[0]) < 10;
    if Base(t) == 8 && CNumber(t).Some? {
      forall i | 0 <= i < |b| ensures b[i] != '8' && b[i] != '9' { }
    }
  }

  // ---------- the code, piece by piece ----------

  predicate Accepted(c: char, base: nat) { IsDigit(c) || (base == 16 && IsHex(c)) }

  lemma {:induction false} ValueStep(t: string, c: char, base: nat)
    requires (forall i :: 0 <= i < |t| ==> IsHex(t[i])) && IsHex(c)
    ensures forall i :: 0 <= i < |t + [c]| ==> IsHex((t + [c])[i])
    ensures Value(t + [c], base) == Value(t, base) * base + DigitOf(c) && Value("", base) == 0
  {
    assert (t + [c])[..|t|] == t;
  }

  // the first n digits of a body
  lemma {:induction false} DigitsRead(s: string, pos: nat, b: string, base: nat, n: nat)
    requires HasAt(s, pos, b) && n <= |b| && (base == 8 || base == 10 || base == 16)
    requires forall i :: 0 <= i < n ==> Accepted(b[i], base)
    ensures forall i :: 0 <= i < n ==> IsHex(b[i])
    ensures Digits(s, pos, base, 0) == Digits(s, pos + n, base, Value(b[..n], base) % TWO32)
  {
    hide Digits, Value, IsDigit, DigitOf, HasAt;
    AcceptedIsHex(b, base, n);
    if n > 0 {
      DigitsRead(s, pos, b, base, n - 1);
      var c, v := b[n - 1], Value(b[..n - 1], base);
      CharAt(s, pos, b, n - 1);
      OneMore(s, pos + n - 1, base, v, c);
      ValueStep(b[..n - 1], c, base);
      assert b[..n] == b[..n - 1] + [c];
    } else {
      NoValue(base);
      assert b[..0] == "";
    }
  }

  lemma {:induction false} NoValue(base: nat)
    ensures Value("", base) == 0
  {
  }

  lemma {:induction false} AcceptedIsHex(b: string, base: nat, n: nat)
    requires n <= |b| && forall i :: 0 <= i < n ==> Accepted(b[i], base)
    ensures forall i :: 0 <= i < n ==> IsHex(b[i])
  {
  }

  lemma {:induction false} OneMore(s: string, pos: nat, base: nat, v: nat, c: char)
    requires At(s, pos) == c && Accepted(c, base) && (base == 8 || base == 10 || base == 16)
    ensures IsHex(c) && Digits(s, pos, base, v % TWO32) == Digits(s, pos + 1, base, (v * base + DigitOf(c)) % TWO32)
  {
    hide DigitOf, At;
    DigitsStep(s, pos, base, v % TWO32);
    HornerMod(v, base, DigitOf(c));
    DigitRange(c);
    if base == 16 { ShiftIn(v % TWO32, DigitOf(c)); }
  }

  lemma {:induction false} HornerMod(v: nat, base: nat, d: nat)
    ensures (v % TWO32 * base + d) % TWO32 == (v * base + d) % TWO32
  {
    var q, r := v / TWO32, v % TWO32;
    assert v == q * TWO32 + r;
    assert v * base == (q * base) * TWO32 + r * base;
    ModShift(r * base + d, q * base, TWO32);
  }

  // up to which digit a body is accepted
  lemma {:induction false} FirstOdd(b: string, base: nat) returns (n: nat)
    ensures n <= |b| && (n < |b| ==> !Accepted(b[n], base)) && forall i :: 0 <= i < n ==> Accepted(b[i], base)
  {
    if b == "" {
      n := 0;
    } else {
      n := FirstOdd(b[..|b| - 1], base);
      if n == |b| - 1 && Accepted(b[n], base) { n := n + 1; }
    }
  }

  // t stands at pos, and something ends it there
  predicate PieceAt(s: string, pos: nat, t: string) {
    HasAt(s, pos, t) && IsPiece(t) && (At(s, pos + |t|) == '.' || Ends(At(s, pos + |t|)))
  }

  lemma {:induction false} PieceStarts(s: string, pos: nat, t: string)
    requires PieceAt(s, pos, t)
    ensures IsDigit(At(s, pos)) <==> t != "" && IsDigit(t[0])
    ensures t != "" && IsDigit(t[0]) ==>
              var skip := |t| - |Body(t)|;
              && HasAt(s, pos + skip, Body(t)) && Number(s, pos) == Digits(s, pos + skip, Base(t), 0)
  {
    hide IsPiece, IsHex, HasAt, Digits;
    CharAt(s, pos, t, 0);
    CharAt(s, pos, t, 1);
    Later(s, pos, t, |t| - |Body(t)|);
    assert At(s, pos + |t|) != 'x' && At(s, pos + |t|) != 'X' && !IsDigit(At(s, pos + |t|));
  }

  lemma {:induction false} Later(s: string, pos: nat, t: string, skip: nat)
    requires HasAt(s, pos, t) && skip <= |t|
    ensures HasAt(s, pos + skip, t[skip..])
  {
    assert s[pos + skip..pos + |t|] == s[pos..pos + |t|][skip..];
  }

  /** A piece the code takes is read to its end, its value modulo 2^32; any other stops it within. */
  lemma {:induction false} PieceRead(s: string, pos: nat, t: string)
    requires PieceAt(s, pos, t) && t != "" && IsDigit(t[0])
    ensures IsDigit(At(s, pos))
    ensures var (val, next) := Number(s, pos);
            if Taken(t) then next == pos + |t| && val == WordOf(t)
            else At(s, next) != '.' && !Ends(At(s, next))
  {
    hide Value, HasAt, IsSpace;
    PieceStarts(s, pos, t);
    var b, base, from := Body(t), Base(t), pos + |t| - |Body(t)|;
    var n := FirstOdd(b, base);
    DigitsRead(s, from, b, base, n);
    DigitsStep(s, from + n, base, Value(b[..n], base) % TWO32);
    CharAt(s, from, b, n);
    EndNotDigit(s, pos, t);
    assert n == |b| ==> b[..n] == b;
    assert n < |b| ==> b[n] == t[|t| - |b| + n];
  }

  lemma {:induction false} CharAt(s: string, pos: nat, t: string, n: nat)
    requires HasAt(s, pos, t)
    ensures n < |t| ==> At(s, pos + n) == t[n]
  {
    assert n < |t| ==> s[pos..pos + |t|][n] == s[pos + n];
  }

  lemma {:induction false} EndNotDigit(s: string, pos: nat, t: string)
    requires PieceAt(s, pos, t)
    ensures !IsHex(At(s, pos + |t|)) && !IsDigit(At(s, pos + |t|))
  {
  }

  // what the code makes of the pieces that are left, after the numbers of the others
  function Read(parts: seq<nat>, pieces: seq<string>): Option<u32>
    requires |parts| < 4 && pieces != [] && forall i :: 0 <= i < |parts| ==> parts[i] < TWO32
    decreases |pieces|
  {
    if !Taken(pieces[0]) then None
    else
      if |pieces| == 1 then Assemble(parts, WordOf(pieces[0]))
      else if |parts| == 3 then None
      else Read(parts + [WordOf(pieces[0])], pieces[1..])
  }

  // the first piece, and the text after it
  lemma {:induction false} FirstPiece(s: string, before: string, pieces: seq<string>, rest: string)
    requires s == before + Join(pieces) + rest && Splits(Join(pieces) + rest, pieces, rest)
    ensures PieceAt(s, |before|, pieces[0])
    ensures |pieces| == 1 ==> At(s, |before| + |pieces[0]|) == if rest == "" then '\0' else rest[0]
    ensures |pieces| > 1 ==>
              var before1 := before + pieces[0] + ".";
              && At(s, |before| + |pieces[0]|) == '.' && |before1| == |before| + |pieces[0]| + 1
              && s == before1 + Join(pieces[1..]) + rest
              && Splits(Join(pieces[1..]) + rest, pieces[1..], rest)
  {
    hide PieceAt, IsPiece, Ends;
    var t, later := pieces[0], pieces[1..];
    var next := if |pieces| == 1 then rest else "." + Join(later) + rest;
    Dissolved(before, t, Join(later), rest);
    assert IsPiece(t);
    StandsAt(s, before, t, next);
  }

  lemma {:induction false} Dissolved(before: string, t: string, later: string, rest: string)
    ensures before + (t + "." + later) + rest == before + t + ("." + later + rest)
    ensures before + (t + "." + later) + rest == (before + t + ".") + later + rest
    ensures before + t + rest == before + t + (rest)
  {
  }

  lemma {:induction false} ParseIsRead(s: string, before: string, pieces: seq<string>, rest: string, parts: seq<nat>)
    requires |parts| < 4 && forall i :: 0 <= i < |parts| ==> parts[i] < TWO32
    requires s == before + Join(pieces) + rest && Splits(Join(pieces) + rest, pieces, rest)
    ensures Parse(s, |before|, parts) == Read(parts, pieces)
    decreases |pieces|
  {
    hide Number, Assemble, Taken, WordOf, Body, Base, Join, PieceAt, IsPiece, At;
    var t := pieces[0];
    FirstPiece(s, before, pieces, rest);
    PieceStarts(s, |before|, t);
    if t != "" && IsDigit(t[0]) {
      PieceRead(s, |before|, t);
      if Taken(t) && |pieces| > 1 && |parts| < 3 {
        ParseIsRead(s, before + t + ".", pieces[1..], rest, parts + [WordOf(t)]);
      }
    } else {
      TakenStarts(t);
    }
  }

  lemma {:induction false} TakenStarts(t: string)
    ensures Taken(t) ==> t != "" && IsDigit(t[0])
  {
  }

  lemma {:induction false} StandsAt(s: string, before: string, t: string, next: string)
    requires s == before + t + next && IsPiece(t) && (next == "" || next[0] == '.' || Ends(next[0]))
    ensures PieceAt(s, |before|, t)
    ensures At(s, |before| + |t|) == if next == "" then '\0' else next[0]
  {
    assert s[|before|..|before| + |t|] == t;
  }

  // ---------- the code and the promise ----------

  // the numbers that the code takes the pieces for
  ghost function Wrapped(pieces: seq<string>): (r: seq<nat>)
    requires AllTaken(pieces)
    ensures |r| == |pieces| && forall i :: 0 <= i < |r| ==> r[i] == WordOf(pieces[i])
  {
    seq(|pieces|, i requires 0 <= i < |pieces| => WordOf(pieces[i]))
  }

  lemma {:induction false} AllTakenTail(pieces: seq<string>)
    requires pieces != []
    ensures AllTaken(pieces) <==> Taken(pieces[0]) && AllTaken(pieces[1..])
    ensures AllTaken(pieces) ==> Wrapped(pieces) == [WordOf(pieces[0])] + Wrapped(pieces[1..])
  {
    hide Taken, WordOf;
    assert forall i :: 0 < i < |pieces| ==> pieces[i] == pieces[1..][i - 1];
  }

  lemma {:induction false} ReadIs(parts: seq<nat>, pieces: seq<string>)
    requires |parts| < 4 && pieces != [] && forall i :: 0 <= i < |parts| ==> parts[i] < TWO32
    ensures if |parts| + |pieces| <= 4 && AllTaken(pieces)
            then var all := parts + Wrapped(pieces); Read(parts, pieces) == Assemble(all[..|all| - 1], all[|all| - 1])
            else Read(parts, pieces) == None
    decreases |pieces|
  {
    hide Taken, AllTaken, Assemble, WordOf, Wrapped;
    AllTakenTail(pieces);
    if Taken(pieces[0]) {
      var one := parts + [WordOf(pieces[0])];
      if |pieces| == 1 {
        NothingTaken(pieces[1..]);
        assert one == parts + Wrapped(pieces) && one[..|parts|] == parts;
      } else if |parts| < 3 {
        ReadIs(one, pieces[1..]);
        if AllTaken(pieces) { Regroup(parts, WordOf(pieces[0]), Wrapped(pieces[1..])); }
      }
    }
  }

  lemma {:induction false} Regroup(a: seq<nat>, x: nat, b: seq<nat>)
    ensures a + ([x] + b) == (a + [x]) + b
  {
  }

  lemma {:induction false} NothingTaken(pieces: seq<string>)
    ensures pieces == [] ==> AllTaken(pieces) && Wrapped(pieces) == []
  {
  }

  // within 32 bits, the code puts numbers together as promised
  lemma {:induction false} AssembleIsCombined(nums: seq<nat>)
    requires 1 <= |nums| <= 4 && forall i :: 0 <= i < |nums| ==> nums[i] < TWO32
    ensures Assemble(nums[..|nums| - 1], nums[|nums| - 1]) == Combined(nums)
  {
    var k := |nums| - 1;
    assert forall i :: 0 <= i < k ==> nums[..k][i] == nums[i];
    BigEndianIs(nums[..k]);
  }

  lemma {:induction false} BigEndianIs(parts: seq<nat>)
    requires |parts| < 4
    ensures BigEndian(parts) ==
            if |parts| == 0 then 0 else if |parts| == 1 then parts[0]
            else if |parts| == 2 then parts[0] * 0x100 + parts[1]
            else parts[0] * 0x10000 + parts[1] * 0x100 + parts[2]
  {
    if parts != [] { BigEndianIs(parts[..|parts| - 1]); }
  }

  // the promise, where every piece is a number
  lemma {:induction false} NumeralsAre(pieces: seq<string>)
    ensures Numerals(pieces).Some? <==> forall i :: 0 <= i < |pieces| ==> CNumber(pieces[i]).Some?
    ensures Numerals(pieces).Some? ==>
              forall i :: 0 <= i < |pieces| ==> Numerals(pieces).value[i] == CNumber(pieces[i]).value
  {
    hide CNumber;
    if pieces != [] {
      NumeralsAre(pieces[1..]);
      assert forall i :: 0 < i < |pieces| ==> pieces[i] == pieces[1..][i - 1];
    }
  }

  ghost predicate AllPlain(pieces: seq<string>) { forall i :: 0 <= i < |pieces| ==> Plain(pieces[i]) }

  lemma {:induction false} PlainNumber(t: string)
    requires Plain(t) && Taken(t)
    ensures CNumber(t) == Some(WordOf(t))
  {
    CNumberIff(t);
  }

  lemma {:induction false} PlainNumbers(pieces: seq<string>)
    requires AllPlain(pieces) && AllTaken(pieces)
    ensures Numerals(pieces) == Some(Wrapped(pieces))
  {
    hide Taken, WordOf, Plain, CNumber;
    NumeralsAre(pieces);
    forall i | 0 <= i < |pieces| ensures CNumber(pieces[i]) == Some(WordOf(pieces[i])) {
      PlainNumber(pieces[i]);
    }
    assert Numerals(pieces).value == Wrapped(pieces);
  }

  lemma {:induction false} NotPlainNotPromised(pieces: seq<string>)
    ensures !AllPlain(pieces) ==> Promised(pieces) == None
    ensures Promised(pieces).Some? ==> |pieces| <= 4 && AllTaken(pieces)
  {
    hide Taken, Value, Body, Base, OddOctal, BareHex, CNumber, BigEndian;
    NumeralsAre(pieces);
    forall i | 0 <= i < |pieces| && Promised(pieces).Some? ensures Plain(pieces[i]) && Taken(pieces[i]) {
      CNumberIff(pieces[i]);
    }
  }

  lemma {:induction false} ReadAlone(pieces: seq<string>)
    requires pieces != []
    ensures if |pieces| <= 4 && AllTaken(pieces) then Read([], pieces) == Combined(Wrapped(pieces))
            else Read([], pieces) == None
  {
    hide Read, AllTaken, Wrapped, Assemble, Combined;
    ReadIs([], pieces);
    if |pieces| <= 4 && AllTaken(pieces) {
      var nums := Wrapped(pieces);
      assert [] + nums == nums;
      AllWords(pieces);
      AssembleIsCombined(nums);
    }
  }

  lemma {:induction false} AllWords(pieces: seq<string>)
    requires AllTaken(pieces)
    ensures forall i :: 0 <= i < |pieces| ==> Wrapped(pieces)[i] < TWO32
  {
    hide Taken, WordOf;
  }

  // what the code reads in the pieces, and what they stand for
  lemma {:induction false} ReadIsPromised(pieces: seq<string>)
    requires pieces != []
    ensures if AllPlain(pieces) then Read([], pieces) == Promised(pieces) else Promised(pieces) == None
  {
    hide Read, Promised, AllPlain, AllTaken, Numerals, Wrapped, Combined;
    ReadAlone(pieces);
    NotPlainNotPromised(pieces);
    if AllPlain(pieces) && |pieces| <= 4 && AllTaken(pieces) {
      PlainNumbers(pieces);
      PromisedIs(pieces);
    }
  }

  /** The texts that mislead the code: at most four pieces of digits that it accepts, not all of them numbers as in C
      below 2^32, whose values modulo 2^32 fit their places. */
  ghost predicate Misleading(pieces: seq<string>)
    requires pieces != []
  {
    var k := |pieces| - 1;
    && !AllPlain(pieces) && |pieces| <= 4 && AllTaken(pieces)
    && (forall i :: 0 <= i < k ==> WordOf(pieces[i]) <= 0xff)
    && WordOf(pieces[k]) < RoomFor(k + 1)
  }

  /** For every text: the code returns something else than promised if and only if the text is misleading. Then it
      returns the address of the values modulo 2^32, where the promise is to refuse. */
  lemma {:induction false} AtonExact(s: string, pieces: seq<string>, rest: string)
    requires Splits(s, pieces, rest)
    ensures Parse(s, 0, []) != Promised(pieces) <==> Misleading(pieces)
    ensures Misleading(pieces) ==> Promised(pieces) == None && Parse(s, 0, []) == Combined(Wrapped(pieces))
  {
    hide Parse, Promised, AllPlain, AllTaken, Read, Join, WordOf, RoomFor, Wrapped;
    assert s == "" + Join(pieces) + rest;
    ParseIsRead(s, "", pieces, rest, []);
    ReadIsPromised(pieces);
    ReadAlone(pieces);
    if |pieces| <= 4 && AllTaken(pieces) { WordsFit(pieces); }
  }

  lemma {:induction false} WordsFit(pieces: seq<string>)
    requires 1 <= |pieces| <= 4 && AllTaken(pieces)
    ensures var k := |pieces| - 1;
            Combined(Wrapped(pieces)).Some? <==>
            (forall i :: 0 <= i < k ==> WordOf(pieces[i]) <= 0xff) && WordOf(pieces[k]) < RoomFor(k + 1)
  {
    hide WordOf, BigEndian, RoomFor, Taken;
    var nums := Wrapped(pieces);
    assert forall i :: 0 <= i < |nums| ==> nums[i] == WordOf(pieces[i]);
  }

  /** What follows the white space or NUL after the pieces is not read, nor is it part of the promise. */
  lemma {:induction false} RestUnread(s: string, s': string, pieces: seq<string>, rest: string, rest': string)
    requires Splits(s, pieces, rest) && Splits(s', pieces, rest')
    ensures Parse(s, 0, []) == Parse(s', 0, [])
  {
    hide Parse, Read, Join;
    assert s == "" + Join(pieces) + rest && s' == "" + Join(pieces) + rest';
    ParseIsRead(s, "", pieces, rest, []);
    ParseIsRead(s', "", pieces, rest', []);
  }

  /** Every text splits into pieces. */
  lemma {:induction false} EveryTextSplits(s: string) returns (pieces: seq<string>, rest: string)
    ensures Splits(s, pieces, rest)
  {
    if s == "" {
      pieces, rest := [""], "";
    } else if Ends(s[0]) {
      pieces, rest := [""], s;
      assert s == "" + s;
    } else {
      var later;
      later, rest := EveryTextSplits(s[1..]);
      if s[0] == '.' {
        pieces := [""] + later;
        DotGlued(s, later, rest);
      } else {
        pieces := [[s[0]] + later[0]] + later[1..];
        CharGlued(s, later, rest);
      }
    }
  }

  // a dot in front
  lemma {:induction false} DotGlued(s: string, later: seq<string>, rest: string)
    requires s != "" && Splits(s[1..], later, rest) && s[0] == '.'
    ensures Splits(s, [""] + later, rest)
  {
    hide Ends;
    var pieces := [""] + later;
    assert pieces[1..] == later;
    assert Join(pieces) == "." + Join(later) by { assert "" + "." + Join(later) == "." + Join(later); }
    assert s == "." + s[1..];
    Reassociate(".", Join(later), rest);
  }

  // another character in front, not one that ends a text
  lemma {:induction false} CharGlued(s: string, later: seq<string>, rest: string)
    requires s != "" && Splits(s[1..], later, rest) && s[0] != '.' && !Ends(s[0])
    ensures Splits(s, [[s[0]] + later[0]] + later[1..], rest)
  {
    hide Ends;
    var c, first := [s[0]], later[0];
    var pieces := [c + first] + later[1..];
    assert pieces[1..] == later[1..];
    assert Join(pieces) == c + Join(later) by {
      Reassociate(c, first, "." + Join(later[1..]));
      Reassociate(c + first, ".", Join(later[1..]));
      Reassociate(first, ".", Join(later[1..]));
    }
    assert s == c + s[1..];
    Reassociate(c, Join(later), rest);
    assert IsPiece(c + first) by {
      forall i | 0 <= i < |c + first| ensures (c + first)[i] != '.' && !Ends((c + first)[i]) {
        assert i > 0 ==> (c + first)[i] == first[i - 1];
      }
    }
  }

  lemma {:induction false} Reassociate(a: string, b: string, c: string)
    ensures a + (b + c) == (a + b) + c
  {
  }

  lemma {:induction false} PromisedIs(pieces: seq<string>)
    requires 1 <= |pieces| <= 4 && Numerals(pieces).Some?
    ensures Promised(pieces) == Combined(Numerals(pieces).value)
  {
  }

  // ---------- the three families ----------

  // a text that is one piece
  lemma {:induction false} OnePiece(t: string)
    requires IsPiece(t) && Taken(t) && !Plain(t)
    ensures Parse(t, 0, []) == Some(WordOf(t)) && Promised([t]) == None
  {
    hide Parse, Promised, Plain, Taken, WordOf, IsPiece;
    var rest := "";
    assert t + rest == t && "" + t + rest == t;
    ParseIsRead(t, "", [t], rest, []);
    AtonExact(t, [t], rest);
    assert !AllPlain([t]) by { assert !Plain([t][0]); }
  }

  lemma {:induction false} DecIsNumeral(n: nat)
    ensures forall i :: 0 <= i < |Dec(n)| ==> IsDigit(Dec(n)[i])
    ensures Value(Dec(n), 10) == n
  {
    hide Dec, Value, DigitChar, DigitOf;
    DecSplit(n);
    DigitCharOf(n % 10);
    if n >= 10 {
      DecIsNumeral(n / 10);
      ValueStep(Dec(n / 10), DigitChar(n % 10), 10);
    } else {
      ValueStep("", DigitChar(n), 10);
    }
  }

  /** Every decimal number of 2^32 or more is taken for the address of what is left modulo 2^32. */
  lemma {:induction false} TooLargeTaken(n: nat)
    requires n >= TWO32
    ensures Parse(Dec(n), 0, []) == Some(n % TWO32) && Promised([Dec(n)]) == None
  {
    DecIsNumeral(n);
    FirstDigit(n);
    hide Dec, Parse, Promised, Value;
    OnePiece(Dec(n));
  }

  lemma {:induction false} DecTen(n: nat, s: string, d: nat)
    requires n > 0 && Dec(n) == s && d < 10
    ensures Dec(10 * n + d) == s + [DigitChar(d)]
  {
    hide Dec, DigitChar;
    DecSplit(10 * n + d);
    assert (10 * n + d) / 10 == n && (10 * n + d) % 10 == d;
  }

  lemma {:induction false} TenDigits()
    ensures Dec(TWO32) == "4294967296"
  {
    DecSplit(4);
    hide Dec;
    DecTen(4, "4", 2);
    DecTen(42, "42", 9);
    DecTen(429, "429", 4);
    DecTen(4294, "4294", 9);
    DecTen(42949, "42949", 6);
    DecTen(429496, "429496", 7);
    DecTen(4294967, "4294967", 2);
    DecTen(42949672, "42949672", 9);
    DecTen(429496729, "429496729", 6);
  }

  lemma {:induction false} TwoCharacters(t: string)
    requires |t| == 2 && t[0] != '.' && t[1] != '.' && !Ends(t[0]) && !Ends(t[1])
    ensures IsPiece(t)
  {
    hide Ends;
  }

  lemma {:induction false} Eight(t: string)
    requires t == "08"
    ensures IsPiece(t) && Taken(t) && !Plain(t) && WordOf(t) == 8
  {
    TwoCharacters(t);
    ValueStep("", '8', 8);
    assert Body(t) == "" + ['8'] && Body(t)[0] == '8';
  }

  lemma {:induction false} Bare(t: string)
    requires t == "0x"
    ensures IsPiece(t) && Taken(t) && !Plain(t) && WordOf(t) == 0
  {
    TwoCharacters(t);
    assert Body(t) == "";
  }

  /** 4294967296 is taken for 0.0.0.0, 08 for 0.0.0.8, and 0x for 0.0.0.0; none of them is promised to be an address. */
  lemma {:induction false} Misread(large: string, eight: string, bare: string)
    requires large == "4294967296" && eight == "08" && bare == "0x"
    ensures Parse(large, 0, []) == Some(0) && Promised([large]) == None
    ensures Parse(eight, 0, []) == Some(8) && Promised([eight]) == None
    ensures Parse(bare, 0, []) == Some(0) && Promised([bare]) == None
  {
    hide Parse, Promised, Dec, Taken, Plain, WordOf, IsPiece;
    TenDigits();
    TooLargeTaken(TWO32);
    Eight(eight);
    Bare(bare);
    OnePiece(eight);
    OnePiece(bare);
  }
}
