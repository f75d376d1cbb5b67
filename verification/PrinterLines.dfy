/** Lines that load nothing: records of other types, and lines with a wrong checksum. */
module PrinterLines {
  import opened Bits
  import opened FlashMachine
  import opened HexText
  import opened Printer
  import opened PrinterImage
  import opened PrinterBase

  /** A record type that neither carries data nor sets a base: the end of the file, start addresses and unknown ones. */
  predicate Plain(kind: byte) {
    kind != 0 && kind != 2 && kind != 4
  }

  /** A record up to its checksum. */
  function Unchecked(addr: nat, kind: byte, d: seq<byte>): (s: string)
    requires |d| < 256 && addr < 65536
  {
    (":" + HexBytes([|d|, addr / 256, addr % 256, kind])) + HexBytes(d)
  }

  /** The line of a record, with any checksum byte. */
  function Line(addr: nat, kind: byte, d: seq<byte>, ck: byte): (s: string)
    requires |d| < 256 && addr < 65536
  {
    Unchecked(addr, kind, d) + HexByte(ck)
  }

  lemma {:induction false} LineOfRecord(addr: nat, kind: byte, d: seq<byte>)
    requires |d| < 256 && addr < 65536
    ensures RecordText(addr, kind, d) == Line(addr, kind, d, ChecksumOf(RecordBody(addr, kind, d)))
  {
    hide HexByte, HexBytes, Sum, ChecksumOf, RecordText;
    RecordParts(addr, kind, d);
  }

  // -- Records of other types ------------------------------------------------------------------------------------

  lemma {:induction false} PlainByte(chip: Chip, p: Parser, b: byte)
    requires chip.Valid() && p.state == ReadData && p.dataRem > 0 && p.currAddr < chip.bootStart && Plain(p.recordType)
    ensures var (q, ops) := ByteDone(chip, p.(data := b));
            && ops == []
            && q == p.(data := b, prevData := q.prevData, dataRem := p.dataRem - 1, checksum := Plus(p.checksum, b),
                       state := if p.dataRem == 1 then Checksum else ReadData)
  {
    hide DataWord, Flush, AddressSpace, LE16;
    SpacePositive(chip);
    assert (p.dataRem + 255) % 256 == p.dataRem - 1;
  }

  lemma {:induction false} PlusThen(c: byte, b: byte, sum: nat)
    ensures (Plus(c, b) as int + sum) % 256 == (c as int + (b as int + sum)) % 256
  {
    ModSum(c as int + b as int, sum);
  }

  /** What a parser keeps over the bytes of a record that loads nothing. */
  ghost predicate SameLoad(p: Parser, q: Parser) {
    && q.baseAddr == p.baseAddr && q.pageStart == p.pageStart && q.pageDirty == p.pageDirty && q.running == p.running
    && q.currAddr == p.currAddr && q.recordType == p.recordType
  }

  lemma {:induction false} PlainData(chip: Chip, m: Machine, d: seq<byte>)
    requires chip.Valid() && m.f.Fits(chip) && m.p.dataRem as int == |d| && !m.p.readMSB
    requires m.p.state == (if d == [] then Checksum else ReadData) && (d != [] ==> m.p.currAddr < chip.bootStart)
    requires Plain(m.p.recordType)
    ensures var r := Print(chip, m, HexBytes(d));
            && r.f == m.f && SameLoad(m.p, r.p) && r.p.state == Checksum && !r.p.readMSB
            && r.p.checksum as int == (m.p.checksum as int + Sum(d)) % 256
    decreases |d|
  {
    hide HexByte, HexBytes, Print, Sum, ByteDone, Plus, Run;
    if d == [] {
      NoBytes();
      PrintNothing(chip, m);
    } else {
      OddFirst([], 0, d);
      PrintByte(chip, m, d[0]);
      PlainByte(chip, m.p, d[0]);
      RunNothing(chip, m.f);
      var m1 := Print(chip, m, HexByte(d[0]));
      PrintConcat(chip, m, HexByte(d[0]), HexBytes(d[1..]));
      PlainData(chip, m1, d[1..]);
      PlusThen(m.p.checksum, d[0], Sum(d[1..]));
    }
  }

  lemma {:induction false} WrongByte(chip: Chip, p: Parser, b: byte)
    requires chip.Valid() && p.state == Checksum && (p.checksum + b) % 256 != 0
    ensures ByteDone(chip, p.(data := b)) == (p.(data := b), [])
  {
    hide Flush, DataByte;
  }

  /** The header of a record, and its sum so far. */
  lemma {:induction false} AnyHeader(chip: Chip, m: Machine, addr: nat, kind: byte, d: seq<byte>)
    requires chip.Valid() && m.f.Fits(chip) && addr < 65536 && |d| < 256
    ensures var r := Print(chip, m, ":" + HexBytes([|d|, addr / 256, addr % 256, kind]));
            && r.f == m.f && r.p.recordType == kind && !r.p.readMSB && r.p.dataRem as int == |d|
            && r.p.state == (if d == [] then Checksum else ReadData)
            && r.p.currAddr == RecordAddress(chip, m.p.baseAddr, addr)
            && r.p.baseAddr == m.p.baseAddr && r.p.pageStart == m.p.pageStart && r.p.pageDirty == m.p.pageDirty
            && r.p.running == m.p.running
            && (r.p.checksum as int + Sum(d)) % 256 == Sum(RecordBody(addr, kind, d)) % 256
  {
    hide HexBytes, Print, Sum, RecordBody, AddressSpace;
    SpacePositive(chip);
    PrintHeaderAt(chip, m, |d|, addr, kind);
    SumHeader(addr, kind, d);
    ModSum(|d| + addr / 256 + addr % 256 + kind, Sum(d));
  }

  lemma {:induction false} AtChecksum(chip: Chip, m: Machine, ck: byte, body: seq<byte>)
    requires chip.Valid() && m.f.Fits(chip) && m.p.state == Checksum && !m.p.readMSB
    requires m.p.checksum as int == Sum(body) % 256 && m.p.currAddr < AddressSpace(chip)
    ensures var r := Print(chip, m, HexByte(ck));
            var right := ck == ChecksumOf(body);
            var leaves := right && m.p.pageDirty && m.p.pageStart != PageBase(chip, m.p.currAddr);
            && r.f == (if leaves then Apply(chip, m.f, Write(m.p.pageStart)) else m.f)
            && r.p.pageDirty == (m.p.pageDirty && !leaves) && r.p.baseAddr == m.p.baseAddr
            && r.p.running == (m.p.running && !(right && m.p.recordType == TYPE_EOF))
  {
    hide Apply, HexByte, ByteDone, Print, AddressSpace, Sum, ChecksumOf, And, Rem;
    ChecksumIff(body, ck);
    ModSum(Sum(body), ck);
    PrintByte(chip, m, ck);
    RunNothing(chip, m.f);
    if ck == ChecksumOf(body) {
      RightChecksum(chip, m.p, ck);
      PageOfAddress(chip, m.p.currAddr);
      RunTwo(chip, m.f, Write(m.p.pageStart), Write(0));
    } else {
      WrongByte(chip, m.p, ck);
    }
  }

  /**
   A record that carries no data and sets no base, with any checksum byte, whatever base and page are in force: it keeps
   the base and leaves flash alone, but for the commit of a page in use that its own address lies outside of, if the
   checksum is right. Only the end-of-file type clears the run flag. In the boot section it is abandoned.
   */
  lemma {:induction false} PlainRecord(chip: Chip, m: Machine, addr: nat, kind: byte, d: seq<byte>, ck: byte)
    requires chip.Valid() && m.f.Fits(chip) && addr < 65536 && |d| < 256 && Plain(kind)
    ensures var a := RecordAddress(chip, m.p.baseAddr, addr);
            var right := ck == ChecksumOf(RecordBody(addr, kind, d));
            var leaves := right && m.p.pageDirty && m.p.pageStart != PageBase(chip, a);
            var r := Print(chip, m, Line(addr, kind, d, ck));
            && r.p.baseAddr == m.p.baseAddr
            && (if d != [] && a >= chip.bootStart
                then r.f == m.f && !r.p.pageDirty && r.p.running == m.p.running && r.p.state == WaitLine
                else
                  && r.f == (if leaves then Apply(chip, m.f, Write(m.p.pageStart)) else m.f)
                  && r.p.pageDirty == (m.p.pageDirty && !leaves)
                  && r.p.running == (m.p.running && !(right && kind == TYPE_EOF)))
  {
    hide Apply, HexByte, HexBytes, Print, Sum, RecordBody, ChecksumOf, AddressSpace, ByteDone, Run, Rem, PageBase;
    var t0, t1, t2 := ":" + HexBytes([|d|, addr / 256, addr % 256, kind]), HexBytes(d), HexByte(ck);
    SpacePositive(chip);
    PrintConcat(chip, m, t0 + t1, t2);
    PrintConcat(chip, m, t0, t1);
    AnyHeader(chip, m, addr, kind, d);
    var m1 := Print(chip, m, t0);
    if d != [] && m1.p.currAddr >= chip.bootStart {
      AbandonedLine(chip, m1, d);
      NoColons(ck);
      Waiting(chip, Print(chip, m1, t1), t2);
    } else {
      PlainData(chip, m1, d);
      AtChecksum(chip, Print(chip, m1, t1), ck, RecordBody(addr, kind, d));
    }
  }

  lemma {:induction false} NoColonsIn(d: seq<byte>)
    ensures forall c <- HexBytes(d) :: c != ':'
    decreases |d|
  {
    if d != [] {
      NoColons(d[0]);
      NoColonsIn(d[1..]);
    }
  }

  /** From its first data byte on, a record in the boot section is skipped. */
  lemma {:induction false} AbandonedLine(chip: Chip, m: Machine, d: seq<byte>)
    requires chip.Valid() && m.f.Fits(chip) && m.p.state == ReadData && !m.p.readMSB && m.p.dataRem > 0
    requires m.p.currAddr >= chip.bootStart && d != []
    ensures var r := Print(chip, m, HexBytes(d));
            && r.f == m.f && r.p.state == WaitLine && !r.p.pageDirty
            && r.p.baseAddr == m.p.baseAddr && r.p.running == m.p.running
  {
    hide HexByte, HexBytes, Print, Sum, ByteDone, Plus, Run;
    OddFirst([], 0, d);
    PrintByte(chip, m, d[0]);
    DroppedByte(chip, m.p, d[0]);
    RunNothing(chip, m.f);
    PrintConcat(chip, m, HexByte(d[0]), HexBytes(d[1..]));
    NoColonsIn(d[1..]);
    Waiting(chip, Print(chip, m, HexByte(d[0])), HexBytes(d[1..]));
  }

  /** The start-address record that a linker adds to its output. */
  lemma {:induction false} StartAddressRecord(chip: Chip, f0: Flash)
    requires chip.Valid() && f0.Fits(chip)
    ensures var r := Printed(chip, f0, ":0400000300000000F9");
            r.f == f0 && r.p.running && r.p.baseAddr == 0
  {
    hide Print, Line, ChecksumOf;
    StartAddressText();
    PlainRecord(chip, Machine(INITIAL, f0), 0, 3, [0, 0, 0, 0], 0xF9);
  }

  lemma {:induction false} StartAddressText()
    ensures Line(0, 3, [0, 0, 0, 0], 0xF9) == ":0400000300000000F9"
  {
    hide HexBytes, HexByte;
    HexFour(4, 0, 0, 3);
    HexFour(0, 0, 0, 0);
    OneRecordDigits();
    Three();
  }

  lemma {:induction false} Three()
    ensures HexByte(3) == "03"
  {
  }

  // -- Wrong checksums ---------------------------------------------------------------------------------------------

  /** A data byte of any record: on with the record, to its checksum, or the record is abandoned. */
  lemma {:induction false} AnyByte(chip: Chip, p: Parser, b: byte)
    requires chip.Valid() && p.state == ReadData && p.dataRem > 0 && !p.readMSB
    ensures var q := ByteDone(chip, p.(data := b)).0;
            && (q.state == WaitLine
                || (q.state == (if p.dataRem == 1 then Checksum else ReadData)
                    && q.dataRem == p.dataRem - 1 && q.checksum == Plus(p.checksum, b)))
            && !q.readMSB
  {
    hide And, AddressSpace, LE16;
    SpacePositive(chip);
    assert (p.dataRem + 255) % 256 == p.dataRem - 1;
  }

  lemma {:induction false} AnyData(chip: Chip, m: Machine, d: seq<byte>)
    requires chip.Valid() && m.f.Fits(chip) && !m.p.readMSB
    requires m.p.state == WaitLine
             || (m.p.state == (if d == [] then Checksum else ReadData) && m.p.dataRem as int == |d|)
    ensures m.p.state == WaitLine ==> Print(chip, m, HexBytes(d)).p.state == WaitLine
    ensures var r := Print(chip, m, HexBytes(d));
            r.p.state == WaitLine
            || (r.p.state == Checksum && !r.p.readMSB && r.p.checksum as int == (m.p.checksum as int + Sum(d)) % 256)
    decreases |d|
  {
    hide HexByte, HexBytes, Print, Sum, ByteDone, Plus, Run;
    if m.p.state == WaitLine {
      NoColonsIn(d);
      Waiting(chip, m, HexBytes(d));
    } else if d == [] {
      NoBytes();
      PrintNothing(chip, m);
    } else {
      OddFirst([], 0, d);
      PrintByte(chip, m, d[0]);
      AnyByte(chip, m.p, d[0]);
      var m1 := Print(chip, m, HexByte(d[0]));
      PrintConcat(chip, m, HexByte(d[0]), HexBytes(d[1..]));
      AnyData(chip, m1, d[1..]);
      PlusThen(m.p.checksum, d[0], Sum(d[1..]));
    }
  }

  /**
   A wrong checksum byte, at the end of a record of any type, does nothing: no page is committed, the base, the page in
   use and the run flag stay as the record left them.
   */
  lemma {:induction false} WrongChecksum(chip: Chip, m: Machine, addr: nat, kind: byte, d: seq<byte>, ck: byte)
    requires chip.Valid() && m.f.Fits(chip) && addr < 65536 && |d| < 256 && ck != ChecksumOf(RecordBody(addr, kind, d))
    ensures var before := Print(chip, m, Unchecked(addr, kind, d));
            var r := Print(chip, m, Line(addr, kind, d, ck));
            && r.f == before.f && r.p.baseAddr == before.p.baseAddr && r.p.running == before.p.running
            && r.p.pageDirty == before.p.pageDirty && r.p.pageStart == before.p.pageStart
  {
    hide HexByte, HexBytes, Print, Sum, RecordBody, ChecksumOf, ByteDone, Run, RecordAddress;
    var t0, t1, t2 := ":" + HexBytes([|d|, addr / 256, addr % 256, kind]), HexBytes(d), HexByte(ck);
    PrintConcat(chip, m, t0 + t1, t2);
    PrintConcat(chip, m, t0, t1);
    AnyHeader(chip, m, addr, kind, d);
    var m1 := Print(chip, m, t0);
    AnyData(chip, m1, d);
    var m2 := Print(chip, m1, t1);
    if m2.p.state == WaitLine {
      NoColons(ck);
      Waiting(chip, m2, t2);
    } else {
      ChecksumIff(RecordBody(addr, kind, d), ck);
      ModSum(Sum(RecordBody(addr, kind, d)), ck);
      PrintByte(chip, m2, ck);
      WrongByte(chip, m2.p, ck);
      RunNothing(chip, m2.f);
    }
  }
}
