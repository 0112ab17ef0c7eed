/** Which Intel HEX files the reader accepts, and where the writer puts its records. */
module IntelHexFiles {
  import opened Basics
  import opened IntelHex

  // ---------- one line ----------

  // the line starts with the record for the data at addr and this check byte
  predicate Prints(line: string, addr: nat, data: seq<byte>, check: nat) {
    && addr < 0x10000 && |data| < 0x100 && check < 0x100
    && |line| > 0 && line[0] == ':'
    && HasAt(line, 1, HexN(|data|, 2)) && HasAt(line, 3, HexN(addr, 4)) && HasAt(line, 7, "00")
    && HasAt(line, 9, HexBytes(data)) && HasAt(line, 9 + 2 * |data|, HexN(check, 2))
  }

  /** A data record is accepted exactly if its bytes, count, address and check byte included, add up to 0 modulo 256.
      Its data are stored either way, and counted. */
  lemma {:induction false} RecordAccepted(line: string, addr: nat, data: seq<byte>, check: nat, st: State)
    requires Prints(line, addr, data, check) && |st.mem| == MAXBUF
    ensures var o := ParseLine(line, st);
            && (o.ok <==> (|data| + addr / 0x100 + addr % 0x100 + Total(data) + check) % 0x100 == 0)
            && o.st.mem == st.mem[..addr] + data + st.mem[addr + |data|..]
            && o.st.start == Min(addr, st.start)
            && o.st.length == (if o.st.start + st.length < addr + |data| then addr + |data| - o.st.start else st.length)
  {
    hide ScanHex, HasAt, HexN, HexBytes, LoadBytes, CheckByte, Total;
    var n := |data|;
    HexBytesPlain(data);
    ZeroType();
    LineLongEnough(line, n, HexN(check, 2));
    HeadReadBack(line, n, addr);
    var base := n + addr / 0x100 + addr % 0x100;
    EmptyChunk();
    assert data[..0] == [] && data[0..] == data;
    assert base + Total(data[..0]) == base;
    BytesReadBack(line, st, addr, 0, data, base);
    Powers();
    ScanHexPrinted(line, 9 + 2 * n, check, 2);
    ClosesIff(base + Total(data), check);
  }

  lemma {:induction false} HasAtFront(front: string, rest: string, pos: nat, t: string)
    requires HasAt(front + rest, pos, t) && pos + |t| <= |front|
    ensures HasAt(front, pos, t)
  {
    assert (front + rest)[pos..pos + |t|] == front[pos..pos + |t|];
  }

  lemma {:induction false} LineLongEnough(line: string, n: nat, last: string)
    requires HasAt(line, 9 + 2 * n, last) && |last| == 2
    ensures |line| >= 11 + 2 * n
  {
  }

  lemma {:induction false} ClosesIff(sum: nat, check: nat)
    requires check < 0x100
    ensures CheckByte(sum) == check <==> (sum + check) % 0x100 == 0
  {
  }

  /** A line of less than 11 characters or without a colon ends the reading without success, and what was read before it
      is not reported. */
  lemma {:induction false} BadLineFails(line: string, rest: string, st: State)
    requires Plain(line) && |line| <= 255 && |st.mem| == MAXBUF
    requires |line| < 11 || line[0] != ':'
    ensures ReadAll(line + "\n" + rest, st) == Outcome(false, st)
  {
    hide Plain;
    ReadOneLine(line, rest, st);
  }

  /** A record of another type is passed over, whatever its check byte. */
  lemma {:induction false} OtherTypesIgnored(line: string, n: nat, addr: nat, recordType: nat, st: State)
    requires |line| >= 11 && line[0] == ':' && |st.mem| == MAXBUF
    requires n < 0x100 && addr < 0x10000 && 0 < recordType < 0x100
    requires HasAt(line, 1, HexN(n, 2)) && HasAt(line, 3, HexN(addr, 4)) && HasAt(line, 7, HexN(recordType, 2))
    ensures ParseLine(line, st) == Outcome(true, st)
  {
    hide ScanHex, HasAt, HexN, LoadRecord;
    Powers();
    ScanHexPrinted(line, 1, n, 2);
    ScanHexPrinted(line, 3, addr, 4);
    ScanHexPrinted(line, 7, recordType, 2);
  }

  /** So is a line whose count cannot be read. */
  lemma {:induction false} UnreadableIgnored(line: string, st: State)
    requires |line| >= 11 && line[0] == ':' && |st.mem| == MAXBUF && DigitValue(line[1]) == None
    ensures ParseLine(line, st) == Outcome(true, st)
  {
    assert ScanDigits(line, 1, 2, 0) == (0, 1);
  }

  /** A line of more than 255 characters is cut after 255 of them, and the next character is lost. */
  lemma {:induction false} LongLineCut(file: string, sc: nat)
    requires sc <= 255 && |file| > 255 - sc && Plain(file[..255 - sc])
    ensures GetLine(file, sc) == (file[..255 - sc], file[256 - sc..], false)
    decreases 255 - sc
  {
    if sc < 255 {
      assert file[1..][..254 - sc] == file[..255 - sc][1..];
      assert file[1..][255 - sc..] == file[256 - sc..];
      LongLineCut(file[1..], sc + 1);
      assert [file[0]] + file[1..][..254 - sc] == file[..255 - sc];
    }
  }

  // ---------- a whole file of data records ----------

  datatype Rec = Rec(addr: nat, data: seq<byte>, check: nat)
  {
    // digits for every field, and short enough for the line buffer
    predicate Fits() { addr < 0x10000 && |data| <= 122 && check < 0x100 }

    predicate Adds() { (|data| + addr / 0x100 + addr % 0x100 + Total(data) + check) % 0x100 == 0 }

    function Line(): string { ":" + HexN(|data|, 2) + HexN(addr, 4) + "00" + HexBytes(data) + HexN(check, 2) }
  }

  function Text(recs: seq<Rec>): string {
    if recs == [] then "" else recs[0].Line() + "\n" + Text(recs[1..])
  }

  // the memory once the records are stored, in their order
  function Stored(mem: seq<byte>, recs: seq<Rec>): (r: seq<byte>)
    requires |mem| == MAXBUF && forall k :: 0 <= k < |recs| ==> recs[k].Fits()
    ensures |r| == MAXBUF
    decreases |recs|
  {
    if recs == [] then mem
    else
      var r := recs[0];
      assert r.Fits();
      Stored(mem[..r.addr] + r.data + mem[r.addr + |r.data|..], recs[1..])
  }

  lemma {:induction false} LinePrints(r: Rec)
    requires r.Fits()
    ensures Prints(r.Line(), r.addr, r.data, r.check) && Plain(r.Line()) && |r.Line()| <= 255
  {
    hide HexN, HexBytes, HasAt, Plain;
    HexNPlain(|r.data|, 2); HexNPlain(r.addr, 4); HexNPlain(r.check, 2); HexBytesPlain(r.data);
    ZeroType();
    Layout(HexN(|r.data|, 2), HexN(r.addr, 4), "00", HexBytes(r.data), HexN(r.check, 2));
  }

  lemma {:induction false} FirstRecord(r: Rec, rest: string, st: State) returns (o: Outcome)
    requires r.Fits() && |st.mem| == MAXBUF
    ensures |o.st.mem| == MAXBUF && o.st.mem == st.mem[..r.addr] + r.data + st.mem[r.addr + |r.data|..]
    ensures o.ok <==> r.Adds()
    ensures ReadAll(r.Line() + "\n" + rest, st) == if o.ok then ReadAll(rest, o.st) else o
  {
    hide ParseLine, Prints, Plain, ReadAll, Rec.Line, Total;
    LinePrints(r);
    RecordAccepted(r.Line(), r.addr, r.data, r.check, st);
    ReadOneLine(r.Line(), rest, st);
    o := ParseLine(r.Line(), st);
  }

  /** A file of data records is read with success exactly if every one of them adds up to 0, and then all are stored. */
  lemma {:induction false} FileAccepted(recs: seq<Rec>, st: State)
    requires |st.mem| == MAXBUF && forall k :: 0 <= k < |recs| ==> recs[k].Fits()
    ensures var o := ReadAll(Text(recs), st);
            && (o.ok <==> forall k :: 0 <= k < |recs| ==> recs[k].Adds())
            && (o.ok ==> o.st.mem == Stored(st.mem, recs))
    decreases |recs|
  {
    hide Rec.Line, Rec.Adds;
    if recs == [] {
      assert GetLine("", 0) == ("", "", true);
    } else {
      hide ReadAll;
      var r, rest := recs[0], recs[1..];
      var o := FirstRecord(r, Text(rest), st);
      FileAccepted(rest, o.st);
      assert recs == [r] + rest;
    }
  }

  /** A record whose line ends before its check byte is judged by its last data byte in place of it. */
  lemma {:induction false} MissingCheck(r: Rec, st: State)
    requires r.Fits() && r.data != [] && |st.mem| == MAXBUF
    ensures |r.Line()| >= 2
    ensures ParseLine(r.Line()[..|r.Line()| - 2], st).ok <==> r.(check := r.data[|r.data| - 1]).Adds()
  {
    hide HasAt, HexN, HexBytes, LoadBytes, CheckByte, Total, ScanHex;
    var n, data := |r.data|, r.data;
    LinePrints(r);
    HexBytesPlain(data);
    ZeroType();
    var line := r.Line()[..9 + 2 * n];
    assert r.Line() == line + HexN(r.check, 2);
    HasAtFront(line, HexN(r.check, 2), 1, HexN(n, 2));
    HasAtFront(line, HexN(r.check, 2), 3, HexN(r.addr, 4));
    HasAtFront(line, HexN(r.check, 2), 7, "00");
    HeadReadBack(line, n, r.addr);
    HasAtFront(line, HexN(r.check, 2), 9, HexBytes(data));
    var base := n + r.addr / 0x100 + r.addr % 0x100;
    EmptyChunk();
    assert data[..0] == [] && data[0..] == data;
    assert base + Total(data[..0]) == base;
    BytesReadBack(line, st, r.addr, 0, data, base);
    NothingToScan(line, 9 + 2 * n, data[n - 1]);
    ClosesIff(base + Total(data), data[n - 1]);
  }

  lemma {:induction false} NothingToScan(line: string, at: nat, lval: nat)
    requires at >= |line|
    ensures ScanHex(line, at, 2) == EndOfInput && ScanByte(line, at, lval) == lval
  {
  }

  // ---------- what the writer writes ----------

  // the line for the bytes from `at` on, 32 of them or those that are left
  function LineAt(buf: seq<byte>, at: nat): string
    requires at < |buf|
  {
    Record(at, buf[at..at + Min(32, |buf| - at)]) + "\n"
  }

  lemma {:induction false} LineFirst(buf: seq<byte>, cc: nat)
    requires cc < |buf| <= 0x10000
    ensures HasAt(Records(buf, cc), 0, LineAt(buf, cc))
    ensures cc + 32 < |buf| ==>
              |LineAt(buf, cc)| == 76 && Records(buf, cc) == LineAt(buf, cc) + Records(buf, cc + 32)
  {
    hide Record, HasAt, Records;
    RecordsStep(buf, cc);
    var ll := ChunkSize(|buf| - cc);
    RecordFields(cc, buf[cc..cc + ll]);
    HasAtConcat("", LineAt(buf, cc), Records(buf, cc + ll));
    assert "" + LineAt(buf, cc) + Records(buf, cc + ll) == LineAt(buf, cc) + Records(buf, cc + ll);
  }

  /** Record k stands 76 k characters into the file and holds the 32 bytes from 32 k on, or those that are left. */
  lemma {:induction false} WrittenAt(buf: seq<byte>, cc: nat, k: nat)
    requires cc + 32 * k < |buf| <= 0x10000
    ensures HasAt(Records(buf, cc), 76 * k, LineAt(buf, cc + 32 * k))
    decreases k
  {
    hide LineAt, HasAt, Records;
    LineFirst(buf, cc);
    if k > 0 {
      WrittenAt(buf, cc + 32, k - 1);
      HasAtLater(LineAt(buf, cc), Records(buf, cc + 32), 76 * (k - 1), LineAt(buf, cc + 32 * k));
    }
  }

  lemma {:induction false} HasAtLater(front: string, s: string, pos: nat, t: string)
    requires HasAt(s, pos, t)
    ensures HasAt(front + s, |front| + pos, t)
  {
    assert (front + s)[|front| + pos..|front| + pos + |t|] == s[pos..pos + |t|];
  }

  lemma {:induction false} TwoPrinted(n: nat)
    requires n < 0x100
    ensures Hex(n, 2) == HexN(n, 2) == [Digit(n / 16), Digit(n % 16)]
  {
    Powers();
    HexFits(n, 2);
    HexNTwo(n, 0);
    NoDigits(n / 0x100);
  }

  lemma {:induction false} FourPrinted(n: nat)
    requires n < 0x10000
    ensures Hex(n, 4) == HexN(n, 4) == HexN(n / 0x100, 2) + HexN(n % 0x100, 2)
  {
    hide HexN, Hex, Digit;
    Powers();
    HexFits(n, 4);
    HexNTwo(n, 2);
    TwoPrinted(n % 0x100);
    Nibbles(n);
  }

  lemma {:induction false} Nibbles(n: nat)
    ensures n % 0x100 / 16 == n / 16 % 16 && n % 0x100 % 16 == n % 16
  {
    var q, a, b := n / 0x100, n / 16 % 16, n % 16;
    assert n == 0x100 * q + 16 * a + b;
    assert n % 0x100 == 16 * a + b;
  }

  /** The digits are those of %X. */
  lemma {:induction false} Literally()
    ensures Record(0x12EF, [0xAB]) == ":0112EF00AB53"
  {
    hide Hex, HexN;
    TwoPrinted(0x01);
    FourPrinted(0x12EF);
    TwoPrinted(0x12);
    TwoPrinted(0xEF);
    TwoPrinted(0xAB);
    TwoPrinted(0x53);
    assert [0xAB][..0] == [];
  }

  /** The bytes of the end record add up to 0 as well. */
  lemma {:induction false} EndRecordCloses()
    ensures PairSum(END_RECORD[1..]) % 0x100 == 0
  {
    hide HexN, PairSum;
    TwoPrinted(0);
    TwoPrinted(1);
    TwoPrinted(0xFF);
    FourPrinted(0);
    assert END_RECORD[1..] == HexN(0, 2) + HexN(0, 4) + HexN(1, 2) + HexN(0xFF, 2);
    PairSumByte(0);
    PairSumWord(0);
    PairSumByte(1);
    PairSumByte(0xFF);
    PairSumJoin(HexN(0, 2), HexN(0, 4));
    PairSumJoin(HexN(0, 2) + HexN(0, 4), HexN(1, 2));
    PairSumJoin(HexN(0, 2) + HexN(0, 4) + HexN(1, 2), HexN(0xFF, 2));
  }
}
