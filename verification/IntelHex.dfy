/** Intel HEX: output_intelhex writes a buffer as records of 32 bytes, input_intelhex reads a file of records back. */
module IntelHex {
  import opened Basics

  const MAXBUF: nat := 524288
  const MAXSLENGTH: nat := 256
  const IHEXLENGTH: nat := 0x20

  // ---------- hexadecimal digits ----------

  function Digit(n: nat): char
    requires n < 16
  {
    "0123456789ABCDEF"[n]
  }

  function DigitValue(c: char): Option<nat> {
    if '0' <= c <= '9' then Some(c as nat - '0' as nat)
    else if 'A' <= c <= 'F' then Some(c as nat - 'A' as nat + 10)
    else if 'a' <= c <= 'f' then Some(c as nat - 'a' as nat + 10)
    else None
  }

  lemma {:induction false} DigitRoundTrip(n: nat)
    requires n < 16
    ensures DigitValue(Digit(n)) == Some(n) && Digit(n) != '\n' && Digit(n) != '\0'
  {
    assert n == 0 || n == 1 || n == 2 || n == 3 || n == 4 || n == 5 || n == 6 || n == 7
        || n == 8 || n == 9 || n == 10 || n == 11 || n == 12 || n == 13 || n == 14 || n == 15;
  }

  // the k lowest digits of n
  function HexN(n: nat, k: nat): (s: string)
    ensures |s| == k
  {
    if k == 0 then "" else HexN(n / 16, k - 1) + [Digit(n % 16)]
  }

  function Needed(n: nat): (k: nat)
    ensures k > 0
  {
    if n < 16 then 1 else 1 + Needed(n / 16)
  }

  // printf %<p>.<p>X: at least p digits
  function Hex(n: nat, p: nat): string {
    HexN(n, if Needed(n) < p then p else Needed(n))
  }

  function Power16(k: nat): nat { if k == 0 then 1 else 16 * Power16(k - 1) }

  // ---------- sscanf ----------

  datatype Scan = Match(value: nat, next: nat) | Mismatch | EndOfInput

  // the digits of s from pos on, at most `width` of them, accumulated onto acc
  function ScanDigits(s: string, pos: nat, width: nat, acc: nat): (nat, nat)
    decreases width
  {
    if width == 0 || pos >= |s| || DigitValue(s[pos]).None? then (acc, pos)
    else ScanDigits(s, pos + 1, width - 1, 16 * acc + DigitValue(s[pos]).value)
  }

  // %<width>x; the line is a C string, so a NUL in it is its end
  function ScanHex(s: string, pos: nat, width: nat): Scan {
    if pos >= |s| || s[pos] == '\0' then EndOfInput
    else
      var (v, next) := ScanDigits(s, pos, width, 0);
      if next == pos then Mismatch else Match(v, next)
  }

  lemma {:induction false} ScanPrinted(s: string, pos: nat, n: nat, k: nat, more: nat, acc: nat)
    requires HasAt(s, pos, HexN(n, k)) && n < Power16(k)
    ensures ScanDigits(s, pos, k + more, acc) == ScanDigits(s, pos + k, more, acc * Power16(k) + n)
    decreases k
  {
    hide HasAt, HexN;
    if k > 0 {
      LastDigit(s, pos, n, k);
      ScanPrinted(s, pos, n / 16, k - 1, more + 1, acc);
      DigitRoundTrip(n % 16);
      Accumulate(acc, n, Power16(k - 1));
    }
  }

  lemma {:induction false} LastDigit(s: string, pos: nat, n: nat, k: nat)
    requires k > 0 && HasAt(s, pos, HexN(n, k))
    ensures HasAt(s, pos, HexN(n / 16, k - 1)) && pos + k <= |s| && s[pos + k - 1] == Digit(n % 16)
  {
    var t := HexN(n / 16, k - 1);
    assert HexN(n, k)[..k - 1] == t;
    assert s[pos..pos + k][..k - 1] == s[pos..pos + (k - 1)];
    assert s[pos + (k - 1)] == s[pos..pos + k][k - 1];
  }

  lemma {:induction false} Accumulate(acc: nat, n: nat, p: nat)
    ensures 16 * (acc * p + n / 16) + n % 16 == acc * (16 * p) + n
  {
    assert acc * (16 * p) == 16 * (acc * p);
  }

  /** What %X printed with k digits, %<k>x reads back. */
  lemma {:induction false} ScanHexPrinted(s: string, pos: nat, n: nat, k: nat)
    requires HasAt(s, pos, HexN(n, k)) && n < Power16(k) && k > 0
    ensures ScanHex(s, pos, k) == Match(n, pos + k)
  {
    ScanPrinted(s, pos, n, k, 0, 0);
    HexNPlain(n, k);
    assert s[pos] == s[pos..pos + k][0];
  }

  // hexadecimal digits are neither line ends nor NULs
  predicate Plain(s: string) { forall i :: 0 <= i < |s| ==> s[i] != '\n' && s[i] != '\0' }

  lemma {:induction false} HexNPlain(n: nat, k: nat)
    ensures Plain(HexN(n, k))
  {
    if k > 0 {
      HexNPlain(n / 16, k - 1);
      DigitRoundTrip(n % 16);
    }
  }

  // ---------- writing ----------

  function Total(data: seq<byte>): nat {
    if data == [] then 0 else Total(data[..|data| - 1]) + data[|data| - 1]
  }

  function RecordSum(cc: nat, data: seq<byte>): nat {
    |data| + cc / 0x100 + cc % 0x100 + Total(data)
  }

  // (0x100 - sum) & 0xff
  function CheckByte(sum: nat): nat { (0x100 - sum) % 0x100 }

  function HexBytes(data: seq<byte>): string {
    if data == [] then "" else HexBytes(data[..|data| - 1]) + Hex(data[|data| - 1], 2)
  }

  function Record(cc: nat, data: seq<byte>): string {
    ":" + Hex(|data|, 2) + Hex(cc, 4) + "00" + HexBytes(data) + Hex(CheckByte(RecordSum(cc, data)), 2)
  }

  const END_RECORD: string := ":00000001FF"

  function ChunkSize(left: nat): nat { if left > IHEXLENGTH then IHEXLENGTH else left }

  // the file from buffer position cc on
  function Records(buf: seq<byte>, cc: nat): string
    decreases |buf| - cc
  {
    if cc >= |buf| then END_RECORD + "\n"
    else
      var ll := ChunkSize(|buf| - cc);
      Record(cc, buf[cc..cc + ll]) + "\n" + Records(buf, cc + ll)
  }

  /** output_intelhex */
  method Output(ebuf: array<byte>, length: nat) returns (file: string)
    requires length <= ebuf.Length == MAXBUF
    ensures file == Records(ebuf[..length], 0)
  {
    hide Hex, Records, Record, HexBytes, Total;
    ghost var buf := ebuf[..length];
    file := "";
    var cc := 0;
    while cc < length
      invariant 0 <= cc && Records(buf, 0) == file + Records(buf, cc)
      decreases length - cc
    {
      var ll := ChunkSize(length - cc);
      ghost var chunk := buf[cc..cc + ll];
      RecordsStep(buf, cc);
      var sum := ll + cc / 0x100 + cc % 0x100;
      var bytes := "";
      EmptyChunk();
      assert chunk[..0] == [];
      for i := 0 to ll
        invariant bytes == HexBytes(chunk[..i]) && sum == ll + cc / 0x100 + cc % 0x100 + Total(chunk[..i])
      {
        ChunkStep(chunk, i);
        bytes := bytes + Hex(ebuf[cc + i], 2);
        sum := sum + ebuf[cc + i];
      }
      assert chunk[..ll] == chunk;
      RecordIs(cc, chunk);
      file := file + (":" + Hex(ll, 2) + Hex(cc, 4) + "00" + bytes + Hex(CheckByte(sum), 2) + "\n");
      cc := cc + ll;
    }
    RecordsStep(buf, cc);
    file := file + (END_RECORD + "\n");
  }

  lemma {:induction false} EmptyChunk()
    ensures HexBytes([]) == "" && Total([]) == 0
  {
  }

  lemma {:induction false} ChunkStep(chunk: seq<byte>, i: nat)
    requires i < |chunk|
    ensures HexBytes(chunk[..i + 1]) == HexBytes(chunk[..i]) + Hex(chunk[i], 2)
    ensures Total(chunk[..i + 1]) == Total(chunk[..i]) + chunk[i]
  {
    assert chunk[..i + 1][..i] == chunk[..i];
  }

  lemma {:induction false} RecordIs(cc: nat, data: seq<byte>)
    ensures Record(cc, data) == ":" + Hex(|data|, 2) + Hex(cc, 4) + "00" + HexBytes(data)
                                + Hex(CheckByte(RecordSum(cc, data)), 2)
  {
  }

  lemma {:induction false} RecordsStep(buf: seq<byte>, cc: nat)
    ensures cc >= |buf| ==> Records(buf, cc) == END_RECORD + "\n"
    ensures cc < |buf| ==>
              var ll := ChunkSize(|buf| - cc);
              Records(buf, cc) == Record(cc, buf[cc..cc + ll]) + "\n" + Records(buf, cc + ll)
  {
  }

  // ---------- reading ----------

  // the characters up to the line end, the rest of the file, and whether the file ended first
  function GetLine(file: string, sc: nat): (r: (string, string, bool))
    ensures r.2 || |r.1| < |file|
  {
    if file == "" then ("", "", true)
    else if file[0] == '\n' || sc >= MAXSLENGTH - 1 then ("", file[1..], false)
    else
      var (line, rest, eof) := GetLine(file[1..], sc + 1);
      ([file[0]] + line, rest, eof)
  }

  // the buffer, the lowest address and the length seen so far, and the variable the scans fill
  datatype State = State(mem: seq<byte>, start: nat, length: nat, lval: nat)

  datatype Outcome = Outcome(ok: bool, st: State)

  // a byte that cannot be scanned repeats the last value
  function ScanByte(line: string, at: nat, lval: nat): nat {
    var scan := ScanHex(line, at, 2);
    if scan.Match? then scan.value else lval
  }

  // the data bytes i..ll-1 of a line, added to the sum
  function LoadBytes(line: string, st: State, ladr: nat, i: nat, ll: nat, sum: nat): (r: (State, nat))
    requires i <= ll && ladr + ll <= |st.mem|
    ensures |r.0.mem| == |st.mem| && r.0.start == st.start && r.0.length == st.length
    decreases ll - i
  {
    if i == ll then (st, sum)
    else
      var lval := ScanByte(line, 9 + 2 * i, st.lval);
      LoadBytes(line, st.(mem := st.mem[ladr + i := lval % 0x100], lval := lval), ladr, i + 1, ll, sum + lval % 0x100)
  }

  function LoadRecord(line: string, st: State, ll: nat, ladr: nat): (o: Outcome)
    requires ladr + ll <= |st.mem|
    ensures |o.st.mem| == |st.mem|
  {
    var start := if ladr < st.start then ladr else st.start;
    var (loaded, sum) := LoadBytes(line, st, ladr, 0, ll, ll + ladr / 0x100 + ladr % 0x100);
    var length := if ladr + ll - start > st.length then ladr + ll - start else st.length;
    var lval := ScanByte(line, 9 + 2 * ll, loaded.lval);
    Outcome(!ScanHex(line, 9 + 2 * ll, 2).Mismatch? && CheckByte(sum) == lval, State(loaded.mem, start, length, lval))
  }

  // count, address and type at the start of a line
  function ScanHead(line: string): Option<(nat, nat, nat)> {
    var s1 := ScanHex(line, 1, 2);
    if !s1.Match? then None else
    var s2 := ScanHex(line, s1.next, 4);
    if !s2.Match? then None else
    var s3 := ScanHex(line, s2.next, 2);
    if !s3.Match? then None else Some((s1.value, s2.value, s3.value))
  }

  function ParseLine(line: string, st: State): (o: Outcome)
    requires |st.mem| == MAXBUF
    ensures |o.st.mem| == MAXBUF
  {
    if |line| < 11 || line[0] != ':' then Outcome(false, st)
    else
      var head := ScanHead(line);
      if head.Some? && head.value.1 + head.value.0 <= MAXBUF && head.value.2 == 0 then
        LoadRecord(line, st, head.value.0, head.value.1)
      else Outcome(true, st)
  }

  // the reading of a file, up to its end or the first bad line; a last line without a line end is not looked at
  function ReadAll(file: string, st: State): (o: Outcome)
    requires |st.mem| == MAXBUF
    ensures |o.st.mem| == MAXBUF
    decreases |file|
  {
    var (line, rest, eof) := GetLine(file, 0);
    if eof then Outcome(true, st)
    else
      var o := ParseLine(line, st);
      if o.ok then ReadAll(rest, o.st) else o
  }

  // one turn of the character loop
  method ReadLine(file: string, from: nat) returns (line: string, next: nat, eof: bool)
    requires from <= |file|
    ensures from <= next <= |file| && (eof || next > from)
    ensures GetLine(file[from..], 0) == (line, file[next..], eof)
  {
    line, next, eof := "", from, false;
    assert file[from..] == file[next..];
    assert line + GetLine(file[next..], 0).0 == GetLine(file[next..], 0).0;
    while next < |file| && file[next] != '\n' && |line| < MAXSLENGTH - 1
      invariant from <= next <= |file| && |line| == next - from
      invariant var (l, r, e) := GetLine(file[next..], |line|); GetLine(file[from..], 0) == (line + l, r, e)
    {
      assert file[next..][1..] == file[next + 1..];
      ghost var l := GetLine(file[next + 1..], |line| + 1).0;
      assert line + ([file[next]] + l) == line + [file[next]] + l;
      line, next := line + [file[next]], next + 1;
    }
    eof := next == |file|;
    assert line + "" == line;
    if !eof {
      assert file[next..][1..] == file[next + 1..];
      next := next + 1;
    } else {
      assert file[next..] == "";
    }
  }

  /** input_intelhex; `garbage` is what the uninitialised scan variable holds, start0 and length0 what the caller's
      variables do, which are set only on success. */
  method Input(file: string, ebuf: array<byte>, garbage: nat, start0: int, length0: int)
    returns (ok: bool, start: int, length: int)
    requires ebuf.Length == MAXBUF
    modifies ebuf
    ensures var o := ReadAll(file, State(old(ebuf[..]), MAXBUF, 0, garbage));
            && ok == o.ok && ebuf[..] == o.st.mem
            && (start, length) == if ok then (o.st.start, o.st.length) else (start0, length0)
  {
    hide GetLine, ScanHex, ScanByte;
    var pos, eof, lval := 0, false, garbage;
    var hstart: nat, hlength: nat := MAXBUF, 0;
    ok := true;
    ghost var outcome := ReadAll(file, State(ebuf[..], MAXBUF, 0, garbage));
    assert file[0..] == file;
    while !eof
      invariant pos <= |file|
      invariant if eof then outcome == Outcome(ok, State(ebuf[..], hstart, hlength, lval))
                else ok && outcome == ReadAll(file[pos..], State(ebuf[..], hstart, hlength, lval))
      decreases !eof, |file| - pos
    {
      var line, next, end := ReadLine(file, pos);
      ghost var st := State(ebuf[..], hstart, hlength, lval);
      pos, eof := next, end;
      if !end {
        if |line| < 11 || line[0] != ':' {
          ok, eof := false, true;
        } else {
          var head := ScanHead(line);
          if head.Some? && head.value.1 + head.value.0 <= MAXBUF && head.value.2 == 0 {
            var ll, ladr := head.value.0, head.value.1;
            var sum := ll + ladr / 0x100 + ladr % 0x100;
            if ladr < hstart { hstart := ladr; }
            ghost var loaded := LoadBytes(line, st, ladr, 0, ll, sum);
            for i := 0 to ll
              invariant sum >= 0 && hstart == (if ladr < st.start then ladr else st.start)
              invariant loaded == LoadBytes(line, State(ebuf[..], st.start, st.length, lval), ladr, i, ll, sum)
            {
              ghost var before := ebuf[..];
              lval := ScanByte(line, 9 + 2 * i, lval);
              ebuf[ladr + i] := lval % 0x100;
              assert ebuf[..] == before[ladr + i := lval % 0x100];
              sum := sum + lval % 0x100;
            }
            if ladr + ll - hstart > hlength { hlength := ladr + ll - hstart; }
            lval := ScanByte(line, 9 + 2 * ll, lval);
            if ScanHex(line, 9 + 2 * ll, 2).Mismatch? || CheckByte(sum) != lval {
              ok, eof := false, true;
            }
          }
        }
      }
    }
    start, length := if ok then hstart else start0, if ok then hlength else length0;
  }

  // ---------- the round trip ----------

  lemma {:induction false} NeededAtMost(n: nat, k: nat)
    requires k > 0 && n < Power16(k)
    ensures Needed(n) <= k
  {
    if n >= 16 {
      assert k > 1;
      NeededAtMost(n / 16, k - 1);
    }
  }

  lemma {:induction false} Powers()
    ensures Power16(1) == 0x10 && Power16(2) == 0x100 && Power16(3) == 0x1000
    ensures Power16(4) == 0x10000 && Power16(5) == 0x100000
  {
    assert Power16(1) == 16 * Power16(0);
    assert Power16(2) == 16 * Power16(1);
    assert Power16(3) == 16 * Power16(2);
  }

  lemma {:induction false} HexFits(n: nat, p: nat)
    requires p > 0 && n < Power16(p)
    ensures Hex(n, p) == HexN(n, p)
  {
    NeededAtMost(n, p);
  }

  // an address past 64 KiB takes a fifth digit
  lemma {:induction false} HexSpills(n: nat)
    requires 0x10000 <= n < 0x100000
    ensures Hex(n, 4) == HexN(n, 5) == HexN(n / 16, 4) + [Digit(n % 16)]
  {
    Powers();
    NeededAtMost(n, 5);
    var n1, n2, n3 := n / 16, n / 16 / 16, n / 16 / 16 / 16;
    assert n3 >= 16 && Needed(n) == 1 + Needed(n1) && Needed(n1) == 1 + Needed(n2) && Needed(n2) == 1 + Needed(n3);
  }

  lemma {:induction false} HexBytesAt(data: seq<byte>, i: nat)
    requires i < |data|
    ensures |HexBytes(data)| == 2 * |data| && HexBytes(data)[2 * i..2 * i + 2] == HexN(data[i], 2)
  {
    hide HexN, Plain, Hex;
    var n := |data| - 1;
    var front := HexBytes(data[..n]);
    Powers();
    HexFits(data[n], 2);
    HexBytesPlain(data[..n]);
    assert HexBytes(data) == front + HexN(data[n], 2);
    if i < n {
      HexBytesAt(data[..n], i);
      assert HexBytes(data)[2 * i..2 * i + 2] == front[2 * i..2 * i + 2];
    } else {
      assert HexBytes(data)[2 * n..2 * n + 2] == HexN(data[n], 2);
    }
  }

  lemma {:induction false} HexBytesPlain(data: seq<byte>)
    ensures |HexBytes(data)| == 2 * |data| && Plain(HexBytes(data))
  {
    if data != [] {
      var n := |data| - 1;
      HexBytesPlain(data[..n]);
      Powers();
      HexFits(data[n], 2);
      HexNPlain(data[n], 2);
    }
  }

  lemma {:induction false} HasAtConcat(a: string, t: string, b: string)
    ensures HasAt(a + t + b, |a|, t)
  {
    assert (a + t + b)[|a|..|a| + |t|] == t;
  }

  // where the fields of a record with a four-digit address stand
  lemma {:induction false} RecordFields(cc: nat, data: seq<byte>)
    requires cc < 0x10000 && |data| < 0x100
    ensures var line := Record(cc, data);
            var n := |data|;
            && |line| == 11 + 2 * n && line[0] == ':' && Plain(line)
            && HasAt(line, 1, HexN(n, 2)) && HasAt(line, 3, HexN(cc, 4)) && HasAt(line, 7, HexN(0, 2))
            && HasAt(line, 9, HexBytes(data)) && HasAt(line, 9 + 2 * n, HexN(CheckByte(RecordSum(cc, data)), 2))
  {
    Powers();
    var n, check := |data|, CheckByte(RecordSum(cc, data));
    HexFits(n, 2); HexFits(cc, 4); HexFits(check, 2);
    HexNPlain(n, 2); HexNPlain(cc, 4); HexNPlain(check, 2); HexBytesPlain(data);
    ZeroType();
    Layout(HexN(n, 2), HexN(cc, 4), "00", HexBytes(data), HexN(check, 2));
  }

  lemma {:induction false} ZeroType()
    ensures HexN(0, 2) == "00" && Plain("00")
  {
    assert HexN(0, 1) == HexN(0, 0) + ['0'];
  }

  lemma {:induction false} Layout(a: string, b: string, c: string, d: string, e: string)
    requires |a| == 2 && |c| == 2 && |e| == 2 && Plain(a) && Plain(b) && Plain(c) && Plain(d) && Plain(e)
    ensures var line := ":" + a + b + c + d + e;
            var m := 3 + |b|;
            && |line| == m + 4 + |d| && line[0] == ':' && Plain(line)
            && HasAt(line, 1, a) && HasAt(line, 3, b) && HasAt(line, m, c) && HasAt(line, m + 2, d)
                && HasAt(line, m + 2 + |d|, e)
  {
    hide HasAt;
    HasAtConcat(":", a, b + c + d + e);
    assert ":" + a + (b + c + d + e) == ":" + a + b + c + d + e;
    HasAtConcat(":" + a, b, c + d + e);
    assert ":" + a + b + (c + d + e) == ":" + a + b + c + d + e;
    HasAtConcat(":" + a + b, c, d + e);
    assert ":" + a + b + c + (d + e) == ":" + a + b + c + d + e;
    HasAtConcat(":" + a + b + c, d, e);
    HasAtConcat(":" + a + b + c + d, e, "");
    assert ":" + a + b + c + d + e + "" == ":" + a + b + c + d + e;
  }

  // a data field that holds the printed bytes is read back into the buffer
  lemma {:induction false} BytesReadBack(line: string, st: State, ladr: nat, i: nat, data: seq<byte>, base: nat)
    requires i <= |data| && ladr + |data| <= |st.mem| && HasAt(line, 9, HexBytes(data))
    ensures var (r, sum) := LoadBytes(line, st, ladr, i, |data|, base + Total(data[..i]));
            && sum == base + Total(data)
            && r.mem == st.mem[..ladr + i] + data[i..] + st.mem[ladr + |data|..]
            && (i < |data| ==> r.lval == data[|data| - 1])
    decreases |data| - i
  {
    hide HasAt, HexBytes, ScanByte, Total;
    if i == |data| {
      assert data[..i] == data;
      assert st.mem == st.mem[..ladr + i] + [] + st.mem[ladr + i..];
    } else {
      ByteReadBack(line, data, i, st.lval);
      ChunkStep(data, i);
      var next := st.(mem := st.mem[ladr + i := data[i]], lval := data[i]);
      BytesReadBack(line, next, ladr, i + 1, data, base);
      StoreNext(st.mem, ladr, i, data);
    }
  }

  lemma {:induction false} StoreNext(mem: seq<byte>, ladr: nat, i: nat, data: seq<byte>)
    requires i < |data| && ladr + |data| <= |mem|
    ensures var next := mem[ladr + i := data[i]];
            next[..ladr + (i + 1)] + data[i + 1..] + next[ladr + |data|..]
            == mem[..ladr + i] + data[i..] + mem[ladr + |data|..]
  {
    var next := mem[ladr + i := data[i]];
    assert next[..ladr + (i + 1)] == mem[..ladr + i] + [data[i]];
    assert next[ladr + |data|..] == mem[ladr + |data|..];
    assert data[i..] == [data[i]] + data[i + 1..];
  }

  lemma {:induction false} HasAtInner(s: string, pos: nat, t: string, at: nat, u: string)
    requires HasAt(s, pos, t) && HasAt(t, at, u)
    ensures HasAt(s, pos + at, u)
  {
    var p, m := pos + at, |u|;
    forall j | 0 <= j < m
      ensures s[p..p + m][j] == u[j]
    {
      assert u[j] == t[at..at + m][j] == t[at + j];
      assert t[at + j] == s[pos..pos + |t|][at + j] == s[p + j];
    }
  }

  lemma {:induction false} ByteReadBack(line: string, data: seq<byte>, i: nat, lval: nat)
    requires i < |data| && HasAt(line, 9, HexBytes(data))
    ensures ScanByte(line, 9 + 2 * i, lval) == data[i]
  {
    HexBytesAt(data, i);
    HasAtInner(line, 9, HexBytes(data), 2 * i, HexN(data[i], 2));
    Powers();
    ScanHexPrinted(line, 9 + 2 * i, data[i], 2);
  }

  lemma {:induction false} HeadReadBack(line: string, n: nat, ladr: nat)
    requires n < 0x100 && ladr < 0x10000
    requires HasAt(line, 1, HexN(n, 2)) && HasAt(line, 3, HexN(ladr, 4))
    ensures ScanHead(line).Some? ==> ScanHead(line).value.0 == n && ScanHead(line).value.1 == ladr
    ensures HasAt(line, 7, HexN(0, 2)) ==> ScanHead(line) == Some((n, ladr, 0))
  {
    hide HasAt, ScanHex;
    Powers();
    ScanHexPrinted(line, 1, n, 2);
    ScanHexPrinted(line, 3, ladr, 4);
    if HasAt(line, 7, HexN(0, 2)) {
      ScanHexPrinted(line, 7, 0, 2);
    }
  }

  // what reading back the record for `data` at cc must leave
  predicate Loaded(o: Outcome, st: State, cc: nat, data: seq<byte>)
    requires cc + |data| <= |st.mem|
  {
    var start := if cc < st.start then cc else st.start;
    && o.ok
    && o.st.mem == st.mem[..cc] + data + st.mem[cc + |data|..]
    && o.st.start == start
    && o.st.length == (if cc + |data| - start > st.length then cc + |data| - start else st.length)
  }

  /** Reading one written record puts its bytes back, if its address has four digits. */
  lemma {:induction false} RecordReadBack(cc: nat, data: seq<byte>, st: State)
    requires cc < 0x10000 && |data| < 0x100 && |st.mem| == MAXBUF
    ensures Loaded(ParseLine(Record(cc, data), st), st, cc, data)
  {
    hide Record, ScanHex, HasAt, HexN, LoadBytes, CheckByte, Total;
    var line := Record(cc, data);
    var n, check := |data|, CheckByte(RecordSum(cc, data));
    RecordFields(cc, data);
    HeadReadBack(line, n, cc);
    var base := n + cc / 0x100 + cc % 0x100;
    EmptyChunk();
    assert data[..0] == [] && data[0..] == data;
    assert base + Total(data[..0]) == base;
    BytesReadBack(line, st, cc, 0, data, base);
    CheckIsByte(RecordSum(cc, data));
    Powers();
    ScanHexPrinted(line, 9 + 2 * n, check, 2);
  }

  lemma {:induction false} CheckIsByte(sum: nat)
    ensures CheckByte(sum) < 0x100
  {
  }

  // ---------- the checksum as printed ----------

  function DigitOr0(c: char): nat { if DigitValue(c).Some? then DigitValue(c).value else 0 }

  // the digits of a text taken two at a time, from the left, and added up
  function PairSum(t: string): nat {
    if |t| < 2 then 0 else 16 * DigitOr0(t[0]) + DigitOr0(t[1]) + PairSum(t[2..])
  }

  lemma {:induction false} PairSumJoin(a: string, b: string)
    requires |a| % 2 == 0
    ensures PairSum(a + b) == PairSum(a) + PairSum(b)
    decreases |a|
  {
    if a == "" {
      assert a + b == b;
    } else {
      PairSumJoin(a[2..], b);
      assert (a + b)[2..] == a[2..] + b;
    }
  }

  lemma {:induction false} TwoDigits(x: nat, y: nat)
    requires x < 16 && y < 16
    ensures PairSum([Digit(x), Digit(y)]) == 16 * x + y
  {
    hide Digit, DigitValue;
    DigitRoundTrip(x);
    DigitRoundTrip(y);
    assert [Digit(x), Digit(y)][2..] == "";
  }

  lemma {:induction false} PairSumByte(n: nat)
    requires n < 0x100
    ensures PairSum(HexN(n, 2)) == n
  {
    hide PairSum, HexN, Digit;
    HexNTwo(n, 0);
    NoDigits(n / 0x100);
    TwoDigits(n / 16, n % 16);
    assert n / 16 % 16 == n / 16;
    assert "" + [Digit(n / 16), Digit(n % 16)] == [Digit(n / 16), Digit(n % 16)];
  }

  lemma {:induction false} HexNTwo(n: nat, k: nat)
    ensures HexN(n, k + 2) == HexN(n / 0x100, k) + [Digit(n / 16 % 16), Digit(n % 16)]
  {
    assert HexN(n, k + 2) == HexN(n / 16, k + 1) + [Digit(n % 16)];
    assert HexN(n / 16, k + 1) == HexN(n / 16 / 16, k) + [Digit(n / 16 % 16)];
  }

  lemma {:induction false} LowByte(n: nat)
    ensures 16 * (n / 16 % 16) + n % 16 == n % 0x100
  {
  }

  lemma {:induction false} PairSumWord(n: nat)
    requires n < 0x10000
    ensures PairSum(HexN(n, 4)) == n / 0x100 + n % 0x100
  {
    hide HexN, PairSum, Digit;
    HexNTwo(n, 2);
    PairSumByte(n / 0x100);
    TwoDigits(n / 16 % 16, n % 16);
    LowByte(n);
    PairSumJoin(HexN(n / 0x100, 2), [Digit(n / 16 % 16), Digit(n % 16)]);
  }

  lemma {:induction false} NoDigits(n: nat)
    ensures HexN(n, 0) == ""
  {
  }

  lemma {:induction false} PairSumBytes(data: seq<byte>)
    ensures |HexBytes(data)| == 2 * |data| && PairSum(HexBytes(data)) == Total(data)
  {
    hide HexN, PairSum, Hex, HexBytes, Total;
    EmptyChunk();
    if data == [] {
      NoPairs();
    } else {
      var n := |data| - 1;
      PairSumBytes(data[..n]);
      ChunkStep(data, n);
      assert data[..n + 1] == data;
      Powers();
      HexFits(data[n], 2);
      PairSumByte(data[n]);
      PairSumJoin(HexBytes(data[..n]), HexN(data[n], 2));
    }
  }

  lemma {:induction false} NoPairs()
    ensures PairSum("") == 0
  {
  }

  /** The printed record falls into bytes of two digits, which add up to 0 modulo 256, exactly if its address has four
      digits; five leave a digit over. */
  lemma {:induction false} ChecksumCloses(cc: nat, data: seq<byte>)
    requires cc < MAXBUF && |data| < 0x100
    ensures var digits := Record(cc, data)[1..];
            && (|digits| % 2 == 0 <==> cc < 0x10000)
            && (cc < 0x10000 ==> PairSum(digits) % 0x100 == 0)
  {
    hide Hex, HexN, HexBytes, PairSum, Total;
    Powers();
    var n, check := |data|, CheckByte(RecordSum(cc, data));
    CheckIsByte(RecordSum(cc, data));
    HexFits(n, 2);
    HexFits(check, 2);
    ZeroType();
    PairSumBytes(data);
    var a, d, e := HexN(n, 2), HexBytes(data), HexN(check, 2);
    var b := if cc < 0x10000 then HexN(cc, 4) else HexN(cc, 5);
    if cc < 0x10000 { HexFits(cc, 4); } else { HexSpills(cc); }
    assert Record(cc, data) == ":" + (a + b + "00" + d + e);
    if cc < 0x10000 {
      PairSumByte(n);
      PairSumWord(cc);
      PairSumByte(0);
      PairSumByte(check);
      PairSumJoin(a + b + "00" + d, e);
      PairSumJoin(a + b + "00", d);
      PairSumJoin(a + b, "00");
      PairSumJoin(a, b);
      Closes(n + cc / 0x100 + cc % 0x100 + Total(data));
    }
  }

  lemma {:induction false} Closes(sum: nat)
    ensures (sum + CheckByte(sum)) % 0x100 == 0
  {
  }

  // a line without line ends, short enough for the line buffer, is taken off whole
  lemma {:induction false} LineTakenOff(line: string, rest: string, sc: nat)
    requires Plain(line) && sc + |line| <= MAXSLENGTH - 1
    ensures GetLine(line + "\n" + rest, sc) == (line, rest, false)
    decreases |line|
  {
    var file := line + "\n" + rest;
    if line == "" {
      assert file == ['\n'] + rest && file[1..] == rest;
    } else {
      assert file[1..] == line[1..] + "\n" + rest;
      LineTakenOff(line[1..], rest, sc + 1);
      assert [file[0]] + line[1..] == line;
    }
  }

  lemma {:induction false} ReadOneLine(line: string, rest: string, st: State)
    requires Plain(line) && |line| <= MAXSLENGTH - 1 && |st.mem| == MAXBUF
    ensures var o := ParseLine(line, st);
            ReadAll(line + "\n" + rest, st) == if o.ok then ReadAll(rest, o.st) else o
  {
    hide ParseLine, Plain;
    LineTakenOff(line, rest, 0);
  }

  // the end record is of another type and changes nothing
  lemma {:induction false} EndReadBack(st: State)
    requires |st.mem| == MAXBUF
    ensures ReadAll(END_RECORD + "\n", st) == Outcome(true, st)
  {
    EndIgnored(END_RECORD, st);
    hide ParseLine, HasAt, Plain;
    ReadOneLine(END_RECORD, "", st);
    assert END_RECORD + "\n" + "" == END_RECORD + "\n";
    assert GetLine("", 0) == ("", "", true);
  }

  lemma {:induction false} EndIgnored(line: string, st: State)
    requires line == END_RECORD && |st.mem| == MAXBUF
    ensures Plain(line) && ParseLine(line, st) == Outcome(true, st)
  {
    hide ScanHex, LoadRecord;
    EndFields();
    HeadIgnored(line);
  }

  lemma {:induction false} OneMoreDigit(n: nat, k: nat)
    ensures HexN(n, k + 1) == HexN(n / 16, k) + [Digit(n % 16)]
  {
  }

  lemma {:induction false} EndFields()
    ensures HasAt(END_RECORD, 1, HexN(0, 2)) && HasAt(END_RECORD, 3, HexN(0, 4)) && HasAt(END_RECORD, 7, HexN(1, 2))
  {
    ZeroType();
    OneMoreDigit(0, 2);
    OneMoreDigit(0, 3);
    OneMoreDigit(0, 0);
    OneMoreDigit(1, 1);
    NoDigits(0);
    assert HexN(0, 1) == "0" && HexN(0, 3) == "000" && HexN(0, 4) == "0000" && HexN(1, 2) == "01";
    Layout("00", "0000", "01", "", "FF");
    assert ":" + "00" + "0000" + "01" + "" + "FF" == END_RECORD;
  }

  lemma {:induction false} HeadIgnored(line: string)
    requires HasAt(line, 1, HexN(0, 2)) && HasAt(line, 3, HexN(0, 4)) && HasAt(line, 7, HexN(1, 2))
    ensures ScanHead(line) == Some((0, 0, 1))
  {
    hide HasAt, ScanHex;
    Powers();
    ScanHexPrinted(line, 1, 0, 2);
    ScanHexPrinted(line, 3, 0, 4);
    ScanHexPrinted(line, 7, 1, 2);
  }

  // the state once the first cc bytes of buf have been read back over mem
  ghost predicate ReadSoFar(st: State, buf: seq<byte>, cc: nat, mem: seq<byte>)
    requires cc <= |buf| <= |mem|
  {
    && st.mem == buf[..cc] + mem[cc..]
    && st.length == cc
    && st.start == (if cc == 0 then MAXBUF else 0)
  }

  lemma {:induction false} NextChunk(buf: seq<byte>, cc: nat, ll: nat, mem: seq<byte>, st: State, o: Outcome)
    requires cc + ll <= |buf| <= |mem| == |st.mem| == MAXBUF && ll > 0
    requires ReadSoFar(st, buf, cc, mem) && Loaded(o, st, cc, buf[cc..cc + ll])
    ensures o.ok && ReadSoFar(o.st, buf, cc + ll, mem)
  {
    assert buf[..cc] + buf[cc..cc + ll] == buf[..cc + ll];
    assert st.mem[..cc] == buf[..cc];
    assert st.mem[cc + ll..] == mem[cc + ll..];
  }

  // a record past 64 KiB: the first four of its five address digits are read as the address
  lemma {:induction false} SpilledRecord(cc: nat, data: seq<byte>, st: State)
    requires 0x10000 <= cc < MAXBUF && 0 < |data| <= IHEXLENGTH && |st.mem| == MAXBUF
    requires st.start == 0 && st.length == 0x10000
    ensures var line := Record(cc, data);
            var o := ParseLine(line, st);
            && Plain(line) && |line| <= MAXSLENGTH - 1
            && o.st.start == 0 && o.st.length == 0x10000
  {
    hide Hex, HexN, HexBytes, ScanHead, ScanHex, HasAt, CheckByte, Total, Plain;
    Powers();
    var n, check := |data|, CheckByte(RecordSum(cc, data));
    CheckIsByte(RecordSum(cc, data));
    HexFits(n, 2); HexFits(check, 2); HexSpills(cc);
    HexNPlain(n, 2); HexNPlain(cc, 5); HexNPlain(check, 2); HexBytesPlain(data);
    ZeroType();
    var line := Record(cc, data);
    Layout(HexN(n, 2), HexN(cc, 5), "00", HexBytes(data), HexN(check, 2));
    HasAtConcat("", HexN(cc / 16, 4), [Digit(cc % 16)]);
    assert "" + HexN(cc / 16, 4) + [Digit(cc % 16)] == HexN(cc, 5);
    HasAtInner(line, 3, HexN(cc, 5), 0, HexN(cc / 16, 4));
    HeadReadBack(line, n, cc / 16);
  }

  lemma {:induction false} StaysShort(buf: seq<byte>, cc: nat, st: State)
    requires 0x10000 <= cc && |buf| <= |st.mem| == MAXBUF
    requires st.start == 0 && st.length == 0x10000
    ensures ReadAll(Records(buf, cc), st).st.length == 0x10000
    decreases |buf| - cc
  {
    hide ParseLine, Record, ReadAll, Records, Plain;
    RecordsStep(buf, cc);
    if cc >= |buf| {
      EndReadBack(st);
    } else {
      var ll := ChunkSize(|buf| - cc);
      var data := buf[cc..cc + ll];
      SpilledRecord(cc, data, st);
      ReadOneLine(Record(cc, data), Records(buf, cc + ll), st);
      StaysShort(buf, cc + ll, ParseLine(Record(cc, data), st).st);
    }
  }

  lemma {:induction false} ReadRest(buf: seq<byte>, cc: nat, mem: seq<byte>, st: State)
    requires cc <= |buf| <= |mem| == |st.mem| == MAXBUF && cc <= 0x10000
    requires cc % IHEXLENGTH == 0 || cc == |buf|
    requires ReadSoFar(st, buf, cc, mem)
    ensures var o := ReadAll(Records(buf, cc), st);
            if |buf| <= 0x10000 then o.ok && ReadSoFar(o.st, buf, |buf|, mem)
            else o.st.length == 0x10000
    decreases |buf| - cc
  {
    hide ParseLine, Record, ReadAll, Records;
    if cc == |buf| {
      RecordsStep(buf, cc);
      EndReadBack(st);
    } else if cc == 0x10000 {
      StaysShort(buf, cc, st);
    } else {
      hide ReadSoFar;
      var o := ChunkReadBack(buf, cc, mem, st);
      ReadRest(buf, cc + ChunkSize(|buf| - cc), mem, o.st);
    }
  }

  lemma {:induction false} ChunkReadBack(buf: seq<byte>, cc: nat, mem: seq<byte>, st: State) returns (o: Outcome)
    requires cc < |buf| <= |mem| == |st.mem| == MAXBUF && cc < 0x10000 && cc % IHEXLENGTH == 0
    requires ReadSoFar(st, buf, cc, mem)
    ensures |o.st.mem| == MAXBUF
    ensures var next := cc + ChunkSize(|buf| - cc);
            ReadAll(Records(buf, cc), st) == ReadAll(Records(buf, next), o.st) && ReadSoFar(o.st, buf, next, mem)
  {
    hide ParseLine, Record, ReadAll, Records, Loaded, Plain, ReadSoFar, HasAt, HexN, HexBytes;
    RecordsStep(buf, cc);
    var ll := ChunkSize(|buf| - cc);
    var data := buf[cc..cc + ll];
    RecordFields(cc, data);
    RecordReadBack(cc, data, st);
    o := ParseLine(Record(cc, data), st);
    NextChunk(buf, cc, ll, mem, st, o);
    ReadOneLine(Record(cc, data), Records(buf, cc + ll), st);
  }

  /** Reading back what was written: the buffer returns, from address 0 and with its length, exactly when it holds
      between 1 byte and 64 KiB; the rest of the memory is as it was. */
  lemma {:induction false} RoundTrip(buf: seq<byte>, mem: seq<byte>, garbage: nat)
    requires |buf| <= |mem| == MAXBUF
    ensures var o := ReadAll(Records(buf, 0), State(mem, MAXBUF, 0, garbage));
            && ((o.ok && o.st.start == 0 && o.st.length == |buf| && o.st.mem[..|buf|] == buf)
                <==> 1 <= |buf| <= 0x10000)
            && (|buf| <= 0x10000 ==> o.ok && o.st.mem == buf + mem[|buf|..])
  {
    hide ReadAll, Records;
    assert buf[..0] + mem[0..] == [] + mem == mem;
    ReadRest(buf, 0, mem, State(mem, MAXBUF, 0, garbage));
    assert buf[..|buf|] == buf;
  }
}
