/** Addresses and numbers as text: the dotted form is printed and read back, numbers are printed in place. */
module AddressText {
  import opened Basics
  import opened ModArith
  import RoundUp32

  // ---------- decimal digits ----------

  function DigitChar(d: nat): char
    requires d < 10
  {
    "0123456789"[d]
  }

  function Dec(n: nat): (s: string)
    ensures |s| > 0
  {
    (if n < 10 then "" else Dec(n / 10)) + [DigitChar(n % 10)]
  }

  // the character at pos; a C string ends with NUL
  function At(s: string, pos: nat): char { if pos < |s| then s[pos] else '\0' }

  predicate IsDigit(c: char) { '0' <= c <= '9' }

  predicate IsHex(c: char) { IsDigit(c) || 'a' <= c <= 'f' || 'A' <= c <= 'F' }

  predicate IsSpace(c: char) {
    c == ' ' || c == '\U{0C}' || c == '\n' || c == '\r' || c == '\t' || c == '\U{0B}'
  }

  function DigitOf(c: char): nat
    requires IsHex(c)
  {
    if IsDigit(c) then c as nat - '0' as nat
    else if 'a' <= c <= 'f' then c as nat - 'a' as nat + 10
    else c as nat - 'A' as nat + 10
  }

  lemma {:induction false} DigitCharOf(d: nat)
    requires d < 10
    ensures IsDigit(DigitChar(d)) && DigitOf(DigitChar(d)) == d
    ensures DigitChar(d) == '0' <==> d == 0
  {
    assert d == 0 || d == 1 || d == 2 || d == 3 || d == 4 || d == 5 || d == 6 || d == 7 || d == 8 || d == 9;
  }

  // ---------- printing an address ----------

  // byte n of an address in network order
  function Part(a: u32, n: nat): (b: byte)
    requires n < 4
  {
    if n == 0 then a / 0x1000000
    else if n == 1 then a / 0x10000 % 0x100
    else if n == 2 then a / 0x100 % 0x100
    else a % 0x100
  }

  // the first n parts, each followed by a dot
  function Dotted(a: u32, n: nat): string
    requires n <= 4
  {
    if n == 0 then "" else Dotted(a, n - 1) + Dec(Part(a, n - 1)) + "."
  }

  function Text(a: u32): string {
    Dotted(a, 3) + Dec(Part(a, 3))
  }

  lemma {:induction false} DecLength(n: nat)
    ensures n < 10 ==> |Dec(n)| == 1
    ensures 10 <= n < 100 ==> |Dec(n)| == 2
    ensures 100 <= n < 1000 ==> |Dec(n)| == 3
  {
    if n >= 10 {
      assert |Dec(n)| == |Dec(n / 10)| + 1;
      if n >= 100 { assert |Dec(n / 10)| == |Dec(n / 10 / 10)| + 1; }
    }
  }

  /** 16 bytes hold every address with its end mark. */
  lemma {:induction false} SixteenSuffice(a: u32)
    ensures 7 <= |Text(a)| && |Text(a)| + 1 <= 16
  {
    DecLength(Part(a, 0));
    DecLength(Part(a, 1));
    DecLength(Part(a, 2));
    DecLength(Part(a, 3));
    assert |Dotted(a, 1)| == |Dec(Part(a, 0))| + 1;
    assert |Dotted(a, 2)| == |Dotted(a, 1)| + |Dec(Part(a, 1))| + 1;
    assert |Dotted(a, 3)| == |Dotted(a, 2)| + |Dec(Part(a, 2))| + 1;
  }

  /** The high byte comes first. */
  lemma {:induction false} TextExample()
    ensures Text(0xC0A8_0001) == "192.168.0.1"
  {
    hide Dec;
    SmallDec();
    var a := 0xC0A8_0001;
    assert Part(a, 0) == 192 && Part(a, 1) == 168 && Part(a, 2) == 0 && Part(a, 3) == 1;
    assert Dotted(a, 1) == "" + "192" + ".";
    assert Dotted(a, 2) == "192." + "168" + ".";
    assert Dotted(a, 3) == "192.168." + "0" + ".";
  }

  lemma {:induction false} SmallDec()
    ensures Dec(0) == "0" && Dec(1) == "1" && Dec(192) == "192" && Dec(168) == "168"
  {
    assert Dec(19) == Dec(1) + "9" && Dec(16) == Dec(1) + "6";
  }

  // ---------- reading an address ----------

  // the digits from pos on, onto val; 8 and 9 count as digits in octal too, and values wrap at 32 bits
  function Digits(s: string, pos: nat, base: nat, val: nat): (r: (nat, nat))
    requires val < TWO32 && (base == 8 || base == 10 || base == 16)
    ensures pos <= r.1 && r.0 < TWO32
    decreases |s| - pos
  {
    var c := At(s, pos);
    if IsDigit(c) || (base == 16 && IsHex(c)) then Digits(s, pos + 1, base, (val * base + DigitOf(c)) % TWO32)
    else (val, pos)
  }

  // one number as in C: 0x for hexadecimal, 0 for octal
  function Number(s: string, pos: nat): (r: (nat, nat))
    requires IsDigit(At(s, pos))
    ensures pos < r.1 && r.0 < TWO32
  {
    if At(s, pos) != '0' then Digits(s, pos, 10, 0)
    else if At(s, pos + 1) == 'x' || At(s, pos + 1) == 'X' then Digits(s, pos + 2, 16, 0)
    else Digits(s, pos + 1, 8, 0)
  }

  // the parts before the last, and the last
  function Assemble(parts: seq<nat>, val: nat): Option<u32>
    requires |parts| < 4 && val < TWO32 && forall i :: 0 <= i < |parts| ==> parts[i] < TWO32
  {
    if exists i :: 0 <= i < |parts| && parts[i] > 0xff then None
    else if |parts| == 0 then Some(val)
    else if |parts| == 1 then (if val > 0xffffff then None else Some(parts[0] * 0x1000000 + val))
    else if |parts| == 2 then (if val > 0xffff then None else Some(parts[0] * 0x1000000 + parts[1] * 0x10000 + val))
    else if val > 0xff then None
    else Some(parts[0] * 0x1000000 + parts[1] * 0x10000 + parts[2] * 0x100 + val)
  }

  function Parse(s: string, pos: nat, parts: seq<nat>): Option<u32>
    requires |parts| < 4 && forall i :: 0 <= i < |parts| ==> parts[i] < TWO32
    decreases |s| - pos
  {
    if !IsDigit(At(s, pos)) then None
    else
      var (val, next) := Number(s, pos);
      if At(s, next) == '.' then
        if |parts| == 3 then None else Parse(s, next + 1, parts + [val])
      else if At(s, next) != '\0' && !IsSpace(At(s, next)) then None
      else Assemble(parts, val)
  }

  lemma {:induction false} DigitsPrinted(s: string, pos: nat, n: nat)
    requires HasAt(s, pos, Dec(n)) && n < TWO32
    ensures Digits(s, pos, 10, 0) == Digits(s, pos + |Dec(n)|, 10, n)
    decreases n
  {
    hide HasAt, Dec, IsDigit, IsHex, DigitOf, At;
    var m := |Dec(n)| - 1;
    LastDigit(s, pos, n);
    OneDigit(s, pos + m, n % 10, n / 10);
    if n >= 10 {
      DigitsPrinted(s, pos, n / 10);
    }
  }

  lemma {:induction false} LastDigit(s: string, pos: nat, n: nat)
    requires HasAt(s, pos, Dec(n))
    ensures var m := |Dec(n)| - 1;
            && At(s, pos + m) == DigitChar(n % 10)
            && if n < 10 then m == 0 else m == |Dec(n / 10)| && HasAt(s, pos, Dec(n / 10))
  {
    DecSplit(n);
    hide Dec, HasAt;
    ButLast(s, pos, if n < 10 then "" else Dec(n / 10), DigitChar(n % 10));
  }

  lemma {:induction false} DecSplit(n: nat)
    ensures Dec(n) == (if n < 10 then "" else Dec(n / 10)) + [DigitChar(n % 10)]
  {
  }

  lemma {:induction false} ButLast(s: string, pos: nat, t: string, c: char)
    requires HasAt(s, pos, t + [c])
    ensures HasAt(s, pos, t) && At(s, pos + |t|) == c
  {
    var whole := s[pos..pos + |t + [c]|];
    assert whole == t + [c];
    assert s[pos + |t|] == whole[|t|];
    assert s[pos..pos + |t|] == whole[..|t|] == t;
  }

  lemma {:induction false} OneDigit(s: string, pos: nat, d: nat, val: nat)
    requires d < 10 && At(s, pos) == DigitChar(d) && val * 10 + d < TWO32
    ensures Digits(s, pos, 10, val) == Digits(s, pos + 1, 10, val * 10 + d)
  {
    DigitCharOf(d);
  }

  lemma {:induction false} FirstDigit(n: nat)
    ensures IsDigit(Dec(n)[0]) && (Dec(n)[0] == '0' <==> n == 0)
  {
    DigitCharOf(n % 10);
    if n >= 10 { FirstDigit(n / 10); }
  }

  // a printed number is read back, whatever comes after it except another digit or an x
  lemma {:induction false} NumberPrinted(s: string, pos: nat, n: nat)
    requires HasAt(s, pos, Dec(n)) && n < TWO32
    requires var c := At(s, pos + |Dec(n)|); !IsDigit(c) && c != 'x' && c != 'X'
    ensures IsDigit(At(s, pos)) && Number(s, pos) == (n, pos + |Dec(n)|)
  {
    FirstDigit(n);
    assert At(s, pos) == s[pos..pos + |Dec(n)|][0];
    DigitsPrinted(s, pos, n);
    DecLength(n);
  }

  // part n is read, and what follows it
  lemma {:induction false} PartRead(a: u32, n: nat, before: string, after: string, parts: seq<nat>)
    requires n < 4 && |parts| == n && forall i :: 0 <= i < n ==> parts[i] < TWO32
    requires after == "" || after[0] == '.'
    ensures var s := before + Dec(Part(a, n)) + after;
            Parse(s, |before|, parts) ==
            if after == "" then Assemble(parts, Part(a, n))
            else if n == 3 then None
            else Parse(s, |before + Dec(Part(a, n))| + 1, parts + [Part(a, n)])
  {
    hide Dec, Number, Assemble;
    var t := Dec(Part(a, n));
    var s := before + t + after;
    assert s[|before|..|before| + |t|] == t;
    assert after != "" ==> s[|before| + |t|] == after[0];
    NumberPrinted(s, |before|, Part(a, n));
  }

  lemma {:induction false} PartsMakeUp(a: u32)
    ensures Assemble([Part(a, 0), Part(a, 1), Part(a, 2)], Part(a, 3)) == Some(a)
  {
    FourBytes(a);
    hide Part;
    var p: seq<nat> := [Part(a, 0), Part(a, 1), Part(a, 2)];
    assert p[0] == Part(a, 0) && p[1] == Part(a, 1) && p[2] == Part(a, 2);
  }

  lemma {:induction false} FourBytes(a: u32)
    ensures Part(a, 0) * 0x1000000 + Part(a, 1) * 0x10000 + Part(a, 2) * 0x100 + Part(a, 3) == a
  {
    var q1 := a / 0x100;
    var q2 := q1 / 0x100;
    assert a / 0x10000 == q2 && a / 0x1000000 == q2 / 0x100;
  }

  /** Reading the printed form of any address returns the address. */
  lemma {:induction false} TextReadBack(a: u32)
    ensures Parse(Text(a), 0, []) == Some(a)
  {
    hide Dec, Part, Assemble, Parse;
    var d0, d1, d2, d3 := Dec(Part(a, 0)), Dec(Part(a, 1)), Dec(Part(a, 2)), Dec(Part(a, 3));
    var s := Text(a);
    Spelled(a);
    var b1, b2, b3 := d0 + ".", d0 + "." + d1 + ".", d0 + "." + d1 + "." + d2 + ".";
    var n0: seq<nat>, n1: seq<nat> := [], [Part(a, 0)];
    var n2: seq<nat>, n3: seq<nat> := [Part(a, 0), Part(a, 1)], [Part(a, 0), Part(a, 1), Part(a, 2)];
    assert n0 + [Part(a, 0)] == n1 && n1 + [Part(a, 1)] == n2 && n2 + [Part(a, 2)] == n3;
    assert s == "" + d0 + ("." + d1 + "." + d2 + "." + d3);
    PartRead(a, 0, "", "." + d1 + "." + d2 + "." + d3, n0);
    assert |"" + d0| + 1 == |b1|;
    assert s == b1 + d1 + ("." + d2 + "." + d3);
    PartRead(a, 1, b1, "." + d2 + "." + d3, n1);
    assert s == b2 + d2 + ("." + d3);
    PartRead(a, 2, b2, "." + d3, n2);
    assert s == b3 + d3 + "";
    PartRead(a, 3, b3, "", n3);
    PartsMakeUp(a);
  }

  lemma {:induction false} Spelled(a: u32)
    ensures Text(a) == Dec(Part(a, 0)) + "." + Dec(Part(a, 1)) + "." + Dec(Part(a, 2)) + "." + Dec(Part(a, 3))
  {
    hide Dec, Part;
    assert Dotted(a, 1) == Dec(Part(a, 0)) + "." by { assert "" + Dec(Part(a, 0)) == Dec(Part(a, 0)); }
    assert Dotted(a, 2) == Dotted(a, 1) + Dec(Part(a, 1)) + ".";
    assert Dotted(a, 3) == Dotted(a, 2) + Dec(Part(a, 2)) + ".";
  }

  // ---------- the loops over addresses ----------

  lemma {:induction false} DigitsStep(s: string, pos: nat, base: nat, val: nat)
    requires val < TWO32 && (base == 8 || base == 10 || base == 16)
    ensures var c := At(s, pos);
            && (IsDigit(c) ==>
                  IsHex(c) && pos < |s|
                  && Digits(s, pos, base, val) == Digits(s, pos + 1, base, (val * base + DigitOf(c)) % TWO32))
            && (base == 16 && IsHex(c) ==>
                  pos < |s| && (val * 16) % TWO32 + DigitOf(c) < TWO32
                  && Digits(s, pos, base, val) == Digits(s, pos + 1, base, (val * 16) % TWO32 + DigitOf(c)))
            && (!IsDigit(c) && !(base == 16 && IsHex(c)) ==> Digits(s, pos, base, val) == (val, pos))
  {
    var c := At(s, pos);
    if base == 16 && IsHex(c) {
      ShiftIn(val, DigitOf(c));
    }
  }

  // a shift by a digit leaves room for it
  lemma {:induction false} ShiftIn(val: nat, d: nat)
    requires d < 16
    ensures (val * 16) % TWO32 + d == (val * 16 + d) % TWO32
  {
    var q, r := val / 0x1000_0000, val % 0x1000_0000;
    assert val * 16 == q * TWO32 + r * 16;
    ModUnique(val * 16, q, r * 16, TWO32);
    ModUnique(val * 16 + d, q, r * 16 + d, TWO32);
  }

  // the digits of a number, one character at a time
  method ReadDigits(cp: string, from: nat, base: nat) returns (val: nat, pos: nat)
    requires base == 8 || base == 10 || base == 16
    ensures (val, pos) == Digits(cp, from, base, 0)
  {
    hide IsHex, DigitOf;
    val, pos := 0, from;
    while true
      invariant val < TWO32 && Digits(cp, pos, base, val) == Digits(cp, from, base, 0)
      decreases |cp| - pos
    {
      var c := At(cp, pos);
      DigitsStep(cp, pos, base, val);
      if IsDigit(c) {
        val := (val * base + DigitOf(c)) % TWO32;
      } else if base == 16 && IsHex(c) {
        val := (val * 16) % TWO32 + DigitOf(c);
      } else {
        return;
      }
      pos := pos + 1;
    }
  }

  /** ip4addr_aton; the address is returned as the number with its first part highest. */
  method Aton(cp: string) returns (r: Option<u32>)
    ensures r == Parse(cp, 0, [])
  {
    hide Digits, Assemble;
    var pos := 0;
    var parts: seq<nat> := [];
    while true
      invariant |parts| <= 3 && (forall i :: 0 <= i < |parts| ==> parts[i] < TWO32)
      invariant Parse(cp, pos, parts) == Parse(cp, 0, [])
      decreases |cp| - pos
    {
      var c := At(cp, pos);
      if !IsDigit(c) {
        return None;
      }
      var base, from := 10, pos;
      if c == '0' {
        c := At(cp, pos + 1);
        if c == 'x' || c == 'X' {
          base, from := 16, pos + 2;
        } else {
          base, from := 8, pos + 1;
        }
      }
      var val, next := ReadDigits(cp, from, base);
      assert (val, next) == Number(cp, pos);
      if At(cp, next) == '.' {
        if |parts| >= 3 {
          return None;
        }
        parts := parts + [val];
        pos := next + 1;
      } else if At(cp, next) != '\0' && !IsSpace(At(cp, next)) {
        return None;
      } else {
        return Assemble(parts, val);
      }
    }
  }

  function Rev(s: string): (r: string)
    ensures |r| == |s|
  {
    if s == "" then "" else Rev(s[1..]) + [s[0]]
  }

  lemma {:induction false} RevSnoc(s: string, c: char)
    ensures Rev(s + [c]) == [c] + Rev(s)
  {
    if s != "" {
      RevSnoc(s[1..], c);
      assert (s + [c])[1..] == s[1..] + [c];
    } else {
      assert (s + [c])[1..] == "";
    }
  }

  lemma {:induction false} RevAt(s: string, i: nat)
    requires i < |s|
    ensures Rev(s)[i] == s[|s| - 1 - i]
  {
    if i < |s| - 1 { RevAt(s[1..], i); }
  }

  // the digits of n, lowest first
  method InverseDigits(n: nat) returns (inv: string)
    ensures Rev(inv) == Dec(n)
  {
    hide Rev, Dec, DigitChar;
    inv := "";
    var rest := n;
    RevNothing();
    assert Dec(n) + "" == Dec(n);
    while true
      invariant Dec(rest) + Rev(inv) == Dec(n)
      decreases rest
    {
      DecSplit(rest);
      var d := DigitChar(rest % 10);
      RevSnoc(inv, d);
      Shifted(if rest < 10 then "" else Dec(rest / 10), d, Rev(inv));
      inv := inv + [d];
      if rest / 10 == 0 {
        break;
      }
      rest := rest / 10;
    }
  }

  lemma {:induction false} RevNothing()
    ensures Rev("") == ""
  {
  }

  // the last k characters of inv, reversed, go after the first len of buf
  method AppendInverse(inv: string, buf: array<char>, len: nat, buflen: nat) returns (ok: bool)
    requires len <= buflen <= buf.Length
    modifies buf
    ensures ok == (len + |inv| <= buflen)
    ensures ok ==> buf[..len + |inv|] == old(buf[..len]) + Rev(inv)
  {
    var i := |inv|;
    assert inv[i..] == "";
    while i > 0
      invariant 0 <= i <= |inv| && len + |inv| - i <= buflen
      invariant buf[..len + |inv| - i] == old(buf[..len]) + Rev(inv[i..])
    {
      i := i - 1;
      if len + |inv| - i - 1 >= buflen {
        return false;
      }
      buf[len + |inv| - i - 1] := inv[i];
      assert inv[i..][1..] == inv[i + 1..];
    }
    assert inv[0..] == inv;
    ok := true;
  }

  lemma {:induction false} DottedGrows(a: u32, n: nat)
    requires n < 4
    ensures Dotted(a, n + 1) == Dotted(a, n) + Dec(Part(a, n)) + "."
    ensures |Dotted(a, n + 1)| <= |Dotted(a, 4)| == |Text(a)| + 1
    ensures Dotted(a, 4) == Text(a) + "."
    decreases 4 - n
  {
    if n < 3 { DottedGrows(a, n + 1); }
  }

  /** ip4addr_ntoa_r: writes the text and its end mark, exactly if the buffer holds them. */
  method NtoaR(a: u32, buf: array<char>, buflen: nat) returns (ok: bool)
    requires buflen <= buf.Length
    modifies buf
    ensures ok == (|Text(a)| + 1 <= buflen)
    ensures ok ==> buf[..|Text(a)|] == Text(a) && buf[|Text(a)|] == '\0'
  {
    hide Dec, Part, Dotted, Rev, Text;
    NothingDotted(a);
    var len: nat := 0;
    for n := 0 to 4
      invariant len == |Dotted(a, n)| <= buflen && buf[..len] == Dotted(a, n)
    {
      DottedGrows(a, n);
      var inv := InverseDigits(Part(a, n));
      ok := AppendInverse(inv, buf, len, buflen);
      if !ok {
        return;
      }
      len := len + |inv|;
      if len >= buflen {
        return false;
      }
      buf[len] := '.';
      len := len + 1;
      assert buf[..len] == buf[..len - 1] + ".";
    }
    DottedGrows(a, 3);
    buf[len - 1] := '\0';
    assert Dotted(a, 4)[..len - 1] == Text(a);
    ok := true;
  }

  lemma {:induction false} NothingDotted(a: u32)
    ensures Dotted(a, 0) == ""
  {
  }

  // ---------- printing a number ----------

  function Signed(n: int): string { if n < 0 then "-" + Dec(-n) else Dec(n) }

  function Abs(n: int): nat { if n < 0 then -n else n }

  // any reader of decimal digits
  function DecValue(s: string): nat
    requires forall i :: 0 <= i < |s| ==> IsDigit(s[i])
  {
    if s == "" then 0 else 10 * DecValue(s[..|s| - 1]) + DigitOf(s[|s| - 1])
  }

  /** A decimal reader gets the number back. */
  lemma {:induction false} DecReadBack(n: nat)
    ensures forall i :: 0 <= i < |Dec(n)| ==> IsDigit(Dec(n)[i])
    ensures DecValue(Dec(n)) == n
    ensures Dec(n)[0] == '0' ==> n == 0
  {
    DigitCharOf(n % 10);
    if n >= 10 {
      DecReadBack(n / 10);
      assert Dec(n)[..|Dec(n)| - 1] == Dec(n / 10);
    } else {
      assert Dec(n)[..|Dec(n)| - 1] == "";
    }
  }

  predicate IsDecimal(s: string) { s != "" && forall i :: 0 <= i < |s| ==> IsDigit(s[i]) }

  // any reader of signed numbers: digits, or a minus sign before digits
  function Read(s: string): Option<int> {
    if IsDecimal(s) then Some(DecValue(s))
    else if s != "" && s[0] == '-' && IsDecimal(s[1..]) then Some(0 - DecValue(s[1..]))
    else None
  }

  /** A reader of signed numbers gets every integer back, and there is no leading zero but the zero itself. */
  lemma {:induction false} SignedReadBack(n: int)
    ensures Read(Signed(n)) == Some(n)
    ensures n != 0 ==> Signed(n)[if n < 0 then 1 else 0] != '0'
  {
    hide Dec, DecValue;
    var d := Dec(Abs(n));
    DecReadBack(Abs(n));
    MinusRead(d);
    assert !IsDigit('-');
    assert Signed(n) == if n < 0 then "-" + d else d;
  }

  lemma {:induction false} MinusRead(d: string)
    requires IsDecimal(d)
    ensures var s := "-" + d; s[0] == '-' && s[1..] == d && s[1] == d[0] && !IsDecimal(s)
  {
    var s := "-" + d;
    assert !IsDigit(s[0]);
  }

  // division as in C
  function Quotient(n: int): int { if n >= 0 then n / 10 else -(-n / 10) }

  const MIDDLE: string := "9876543210123456789"
  const DIGIT_TABLE: string := "zyxwvutsrqponmlkjihgfedcba" + MIDDLE + "abcdefghijklmnopqrstuvwxyz"

  lemma {:induction false} TableMiddle()
    ensures |DIGIT_TABLE| == 71 && DIGIT_TABLE[26..45] == MIDDLE && |MIDDLE| == 19
  {
  }

  // the middle of the table serves negative remainders too
  lemma {:induction false} TableDigit(n: int)
    ensures var r := n - Quotient(n) * 10;
            -10 < r < 10 && |DIGIT_TABLE| == 71 && DIGIT_TABLE[35 + r] == DigitChar(Abs(n) % 10)
  {
    TableMiddle();
    var r := n - Quotient(n) * 10;
    var middle := DIGIT_TABLE[26..45];
    assert middle[9 + r] == DIGIT_TABLE[35 + r];
    Middle(r);
  }

  lemma {:induction false} Middle(r: int)
    requires -10 < r < 10
    ensures |MIDDLE| == 19 && MIDDLE[9 + r] == DigitChar(if r < 0 then -r else r)
  {
    var s := MIDDLE;
    assert s[0] == '9' && s[1] == '8' && s[2] == '7' && s[3] == '6' && s[4] == '5' && s[5] == '4' && s[6] == '3'
           && s[7] == '2'
        && s[8] == '1' && s[9] == '0' && s[10] == '1' && s[11] == '2' && s[12] == '3' && s[13] == '4' && s[14] == '5'
        && s[15] == '6' && s[16] == '7' && s[17] == '8' && s[18] == '9';
    if r < 0 {
      assert r == -1 || r == -2 || r == -3 || r == -4 || r == -5 || r == -6 || r == -7 || r == -8 || r == -9;
    } else {
      assert r == 0 || r == 1 || r == 2 || r == 3 || r == 4 || r == 5 || r == 6 || r == 7 || r == 8 || r == 9;
    }
  }

  /** lwip_itoa: the digits are written lowest first, then turned round in place. */
  method Itoa(result: array<char>, number: int)
    requires |Signed(number)| < result.Length
    modifies result
    ensures result[..|Signed(number)|] == Signed(number) && result[|Signed(number)|] == '\0'
    ensures forall k :: |Signed(number)| < k < result.Length ==> result[k] == old(result[k])
  {
    hide Rev, Dec;
    var at := WriteDigits(result, number);
    if number < 0 {
      ghost var before := result[..at];
      RevSnoc(before, '-');
      result[at] := '-';
      at := at + 1;
      assert result[..at] == before + ['-'];
      assert ['-'] + Rev(before) == "-" + Rev(before);
    }
    result[at] := '\0';
    TurnRound(result, at);
  }

  // the digits of a number, lowest first; the sign is left to the caller
  method WriteDigits(result: array<char>, number: int) returns (at: nat)
    requires |Dec(Abs(number))| < result.Length
    modifies result
    ensures at == |Dec(Abs(number))| && Rev(result[..at]) == Dec(Abs(number))
    ensures forall k :: at <= k < result.Length ==> result[k] == old(result[k])
  {
    hide Rev, Dec, Quotient, Abs;
    var rest := number;
    at := 0;
    ghost var text := Dec(Abs(number));
    RevNothing();
    assert text + "" == text && result[..0] == "";
    while true
      invariant at < result.Length && Dec(Abs(rest)) + Rev(result[..at]) == text
      invariant forall k :: at <= k < result.Length ==> result[k] == old(result[k])
      decreases Abs(rest)
    {
      var value := rest;
      ghost var before := result[..at];
      rest := Quotient(rest);
      TableDigit(value);
      QuotientIs(value);
      OneLess(Abs(value), before);
      result[at] := DIGIT_TABLE[35 + (value - rest * 10)];
      at := at + 1;
      assert result[..at] == before + [DigitChar(Abs(value) % 10)];
      if rest == 0 {
        break;
      }
      assert |text| == |Dec(Abs(rest))| + at;
    }
  }

  lemma {:induction false} QuotientIs(n: int)
    ensures Abs(Quotient(n)) == Abs(n) / 10
    ensures Quotient(n) == 0 <==> Abs(n) < 10
    ensures Abs(n) == 0 ==> Quotient(n) == 0
  {
  }

  // writing the lowest digit of m moves it from the number to the text
  lemma {:induction false} OneLess(m: nat, before: string)
    ensures var text := before + [DigitChar(m % 10)];
            Dec(m) + Rev(before) == (if m < 10 then Rev(text) else Dec(m / 10) + Rev(text))
  {
    hide Dec, Rev, DigitChar;
    var d := DigitChar(m % 10);
    DecSplit(m);
    RevSnoc(before, d);
    Shifted(if m < 10 then "" else Dec(m / 10), d, Rev(before));
  }

  lemma {:induction false} Shifted(front: string, d: char, back: string)
    ensures front + [d] + back == front + ([d] + back)
    ensures front == "" ==> front + [d] + back == [d] + back
  {
  }

  // turns the first n characters round
  method TurnRound(a: array<char>, n: nat)
    requires n <= a.Length
    modifies a
    ensures a[..n] == Rev(old(a[..n])) && forall k :: n <= k < a.Length ==> a[k] == old(a[k])
  {
    var lo, hi := 0, n - 1;
    while lo < hi
      invariant 0 <= lo <= n && lo + hi == n - 1 && lo <= hi + 2
      invariant forall k :: 0 <= k < lo ==> a[k] == old(a[n - 1 - k]) && a[n - 1 - k] == old(a[k])
      invariant forall k :: lo <= k <= hi ==> a[k] == old(a[k])
      invariant forall k :: n <= k < a.Length ==> a[k] == old(a[k])
    {
      a[hi], a[lo] := a[lo], a[hi];
      hi := hi - 1;
      lo := lo + 1;
    }
    ghost var was := old(a[..n]);
    forall k | 0 <= k < n ensures a[k] == Rev(was)[k] {
      RevAt(was, k);
    }
  }

  // ---------- netmasks ----------

  /** ip4_addr_netmask_valid on the mask as a number: accepted are exactly the numbers that are ones first, then
      zeros. */
  method NetmaskValid(nm: u32) returns (valid: bool)
    ensures valid <==> exists k: nat :: k <= 32 && nm == TWO32 - RoundUp32.Power2(k)
  {
    hide Half, RoundUp32.Power2;
    RoundUp32.Power32();
    HalfIs(32);
    var mask: nat := 0x8000_0000;
    ghost var i: nat := 32;
    while mask != 0
      invariant i <= 32 && mask == Half(i) && nm >= TWO32 - RoundUp32.Power2(i)
    {
      HalfIs(i);
      HalfIs(i - 1);
      BitShows(nm, i, i, mask);
      if nm / mask % 2 == 0 {
        break;
      }
      mask := mask / 2;
      i := i - 1;
    }
    ghost var j: nat := i;
    HalfIs(i);
    while mask != 0
      invariant j <= i <= 32 && mask == Half(j)
      invariant 0 <= nm - (TWO32 - RoundUp32.Power2(i)) < RoundUp32.Power2(j)
      invariant i > 0 ==> nm - (TWO32 - RoundUp32.Power2(i)) < RoundUp32.Power2(i - 1)
    {
      HalfIs(j);
      HalfIs(j - 1);
      BitShows(nm, i, j, mask);
      if nm / mask % 2 != 0 {
        BetweenPowers(nm, i);
        return false;
      }
      mask := mask / 2;
      j := j - 1;
    }
    HalfIs(j);
    return true;
  }

  lemma {:induction false} HalfIs(i: nat)
    requires i <= 32
    ensures Half(i) == 0 <==> i == 0
    ensures i > 0 ==> Half(i) == RoundUp32.Power2(i - 1) && RoundUp32.Power2(i) == 2 * Half(i)
    ensures i > 0 ==> Half(i) / 2 == Half(i - 1)
    ensures RoundUp32.Power2(0) == 1
  {
    if i > 1 { assert RoundUp32.Power2(i - 1) == 2 * RoundUp32.Power2(i - 2); }
  }

  lemma {:induction false} PowerMultiple(j: nat, k: nat) returns (m: nat)
    requires j <= k
    ensures RoundUp32.Power2(k) == m * RoundUp32.Power2(j) && RoundUp32.Power2(j) > 0
    ensures j < k ==> m % 2 == 0
  {
    if j == k {
      m := 1;
    } else {
      m := PowerMultiple(j, k - 1);
      assert 2 * (m * RoundUp32.Power2(j)) == (2 * m) * RoundUp32.Power2(j);
      m := 2 * m;
    }
  }

  // with ones down to bit i and zeros from there to bit j, bit j - 1 tells where the rest lies
  lemma {:induction false} BitShows(nm: u32, i: nat, j: nat, p: nat)
    requires 0 < j <= i <= 32 && p == RoundUp32.Power2(j - 1)
    requires 0 <= nm - (TWO32 - RoundUp32.Power2(i)) < 2 * p
    ensures p > 0
    ensures nm / p % 2 == 0 <==> nm - (TWO32 - RoundUp32.Power2(i)) < p
  {
    hide RoundUp32.Power2;
    RoundUp32.Power32();
    var m := PowerMultiple(j - 1, 32);
    var l := PowerMultiple(j - 1, i);
    RestOf(nm, RoundUp32.Power2(i), m, l, p);
  }

  lemma {:induction false} RestOf(nm: u32, w: nat, m: nat, l: nat, p: nat)
    requires p > 0 && TWO32 == m * p && w == l * p && m % 2 == 0 && l % 2 == 0
    requires 0 <= nm - (TWO32 - w) < 2 * p
    ensures nm / p % 2 == 0 <==> nm - (TWO32 - w) < p
  {
    Distribute(m, l, p);
    QuotientParity(nm, m - l, nm - (TWO32 - w), p);
  }

  lemma {:induction false} Distribute(m: int, l: int, p: int)
    ensures (m - l) * p == m * p - l * p
  {
  }

  lemma {:induction false} QuotientParity(nm: nat, q: int, r: nat, p: nat)
    requires p > 0 && q % 2 == 0 && nm == q * p + r && r < 2 * p
    ensures nm / p % 2 == 0 <==> r < p
  {
    if r < p {
      ModUnique(nm, q, r, p);
    } else {
      assert nm == (q + 1) * p + (r - p);
      ModUnique(nm, q + 1, r - p, p);
    }
  }

  // strictly between two neighbours there is no other
  lemma {:induction false} BetweenPowers(nm: u32, i: nat)
    requires 0 < i <= 32
    requires 0 < nm - (TWO32 - RoundUp32.Power2(i)) < RoundUp32.Power2(i - 1)
    ensures forall k: nat :: k <= 32 ==> nm != TWO32 - RoundUp32.Power2(k)
  {
    forall k: nat | k <= 32 ensures nm != TWO32 - RoundUp32.Power2(k) {
      assert RoundUp32.Power2(i) == 2 * RoundUp32.Power2(i - 1);
      if k > i {
        RoundUp32.Power2Grows(i, k);
      } else if k < i - 1 {
        RoundUp32.Power2Grows(k, i - 1);
      }
    }
  }

  // the mask for bit i - 1, 0 once all are done
  ghost function Half(i: nat): nat { if i == 0 then 0 else RoundUp32.Power2(i - 1) }
}
