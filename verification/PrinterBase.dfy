/** Extended address records, as the printer bootloader reads them. */
module PrinterBase {
  import opened Bits
  import opened FlashMachine
  import opened HexText
  import opened Printer
  import opened PrinterImage

  /** What a record's two bytes are multiplied by to give the base address. */
  function Scale(kind: byte): (n: nat) {
    if kind == TYPE_SEGMENT then 16 else 65536
  }

  /** The base that two bytes mean, in the width of an address. */
  function BaseOf(chip: Chip, kind: byte, first: byte, second: byte): (a: nat) {
    LE16(second, first) * Scale(kind) % AddressSpace(chip)
  }

  ghost predicate Extended(kind: byte) {
    kind == TYPE_SEGMENT || kind == TYPE_LINEAR
  }

  lemma {:induction false} BaseByte(chip: Chip, p: Parser, b: byte)
    requires chip.Valid() && p.state.ReadData? && p.dataRem == 1
    requires p.currAddr < chip.bootStart && Extended(p.recordType)
    ensures ByteDone(chip, p.(data := b)) ==
            (p.(data := b, dataRem := 0, checksum := Plus(p.checksum, b), state := Checksum,
                baseAddr := BaseOf(chip, p.recordType, b, p.prevData)), [])
  {
    hide DataWord, Flush, AddressSpace, LE16;
    assert p.recordType != TYPE_DATA;
    SpacePositive(chip);
  }

  lemma {:induction false} SpacePositive(chip: Chip)
    ensures AddressSpace(chip) > 0
  {
  }

  /** A data byte at or above the boot section makes the parser abandon the record. */
  lemma {:induction false} DroppedByte(chip: Chip, p: Parser, b: byte)
    requires chip.Valid() && p.state.ReadData? && p.dataRem > 0 && p.currAddr >= chip.bootStart
    ensures ByteDone(chip, p.(data := b)) ==
            (p.(data := b, dataRem := p.dataRem - 1, checksum := Plus(p.checksum, b), state := WaitLine,
                pageDirty := false), [])
  {
    hide DataWord, Flush, AddressSpace;
    assert (p.dataRem + 255) % 256 == p.dataRem - 1;
  }

  /** A checksum byte neither changes the base nor puts a page in use. */
  lemma {:induction false} ChecksumByte(chip: Chip, p: Parser, b: byte)
    requires chip.Valid() && p.state == Checksum
    ensures var (q, ops) := ByteDone(chip, p.(data := b));
            && q.baseAddr == p.baseAddr && q.state == Checksum && (!p.pageDirty ==> !q.pageDirty && ops == [])
  {
    hide And, DataByte;
  }

  /** Until the next colon nothing happens to an abandoned record. */
  lemma {:induction false} Waiting(chip: Chip, m: Machine, s: string)
    requires chip.Valid() && m.f.Fits(chip) && m.p.state == WaitLine && forall c <- s :: c != ':'
    ensures var r := Print(chip, m, s);
            && r.f == m.f && r.p.state == WaitLine && r.p.baseAddr == m.p.baseAddr && r.p.pageDirty == m.p.pageDirty
            && r.p.pageStart == m.p.pageStart && r.p.running == m.p.running
    decreases |s|
  {
    hide ByteDone, Apply;
    if s != [] {
      assert s[0] in s && forall c <- s[1..] :: c in s;
      Waiting(chip, Advance(chip, m, s[0]), s[1..]);
    }
  }

  lemma {:induction false} NoColons(b: byte)
    ensures forall c <- HexByte(b) :: c != ':'
  {
  }

  lemma {:induction false} ExtendedText(addr: nat, kind: byte, hi: byte, lo: byte)
    requires addr < 65536
    ensures var ck := ChecksumOf(RecordBody(addr, kind, [hi, lo]));
            RecordText(addr, kind, [hi, lo]) ==
            (":" + HexBytes([2, addr / 256, addr % 256, kind])) + HexByte(hi) + (HexByte(lo) + HexByte(ck))
  {
    hide HexByte, HexBytes, ChecksumOf;
    HexBytesConcat([2, addr / 256, addr % 256, kind], [hi, lo]);
    HexTwo(hi, lo);
  }

  /**
   What an extended address record does, whatever base is in force: if its own address lies below the boot section the
   base becomes the one its bytes mean in the wrong order, otherwise it stays.
   */
  lemma {:induction false} ExtendedAddressIs(chip: Chip, m: Machine, addr: nat, kind: byte, hi: byte, lo: byte)
    requires chip.Valid() && m.f.Fits(chip) && addr < 65536 && Extended(kind)
    ensures var r := Print(chip, m, RecordText(addr, kind, [hi, lo]));
            && r.p.baseAddr == (if (m.p.baseAddr + addr) % AddressSpace(chip) < chip.bootStart
                                then BaseOf(chip, kind, lo, hi) else m.p.baseAddr)
            && (r.p.state == Checksum || r.p.state == WaitLine)
            && (!m.p.pageDirty ==> !r.p.pageDirty && r.f == m.f)
  {
    hide Apply, HexByte, HexBytes, ByteDone, Print, RecordText, RecordBody, ChecksumOf, AddressSpace, Run, Plus, BaseOf;
    var ck := ChecksumOf(RecordBody(addr, kind, [hi, lo]));
    var t0, t1, t2 := ":" + HexBytes([2, addr / 256, addr % 256, kind]), HexByte(hi), HexByte(lo) + HexByte(ck);
    ExtendedText(addr, kind, hi, lo);
    SpacePositive(chip);
    PrintConcat(chip, m, t0 + t1, t2);
    PrintConcat(chip, m, t0, t1);
    PrintHeaderAt(chip, m, 2, addr, kind);
    var m1 := Print(chip, m, t0);
    PrintByte(chip, m1, hi);
    RunNothing(chip, m.f);
    var m2 := Print(chip, m1, t1);
    if m1.p.currAddr < chip.bootStart {
      LowByte(chip, m1.p, hi);
      SecondByte(chip, m2, lo, ck);
    } else {
      DroppedByte(chip, m1.p, hi);
      NoColons(lo);
      NoColons(ck);
      Waiting(chip, m2, t2);
    }
  }

  lemma {:induction false} SecondByte(chip: Chip, m: Machine, lo: byte, ck: byte)
    requires chip.Valid() && m.f.Fits(chip) && m.p.state == ReadData && m.p.dataRem == 1 && !m.p.readMSB
    requires m.p.currAddr < chip.bootStart && Extended(m.p.recordType)
    ensures var r := Print(chip, m, HexByte(lo) + HexByte(ck));
            && r.p.baseAddr == BaseOf(chip, m.p.recordType, lo, m.p.prevData) && r.p.state == Checksum
            && (!m.p.pageDirty ==> !r.p.pageDirty && r.f == m.f)
  {
    hide Apply, HexByte, ByteDone, Print, Run, Plus, BaseOf;
    PrintConcat(chip, m, HexByte(lo), HexByte(ck));
    PrintByte(chip, m, lo);
    BaseByte(chip, m.p, lo);
    RunNothing(chip, m.f);
    var m1 := Print(chip, m, HexByte(lo));
    PrintByte(chip, m1, ck);
    ChecksumByte(chip, m1.p, ck);
  }

  /**
   Two bytes mean the same base in both orders if and only if they are equal, or the base is lost in 16 bits anyway.
   */
  lemma {:induction false} SwapIff(chip: Chip, kind: byte, hi: byte, lo: byte)
    requires Extended(kind)
    ensures BaseOf(chip, kind, lo, hi) == BaseOf(chip, kind, hi, lo) <==>
            hi == lo || (!chip.Far() && kind == TYPE_LINEAR)
  {
    hide LE16;
    if chip.Far() {
      WholeBase(kind, LE16(hi, lo));
      WholeBase(kind, LE16(lo, hi));
      SwappedWords(hi, lo);
    } else if kind == TYPE_LINEAR {
      LostBase(LE16(hi, lo));
      LostBase(LE16(lo, hi));
    } else {
      SegmentBase(hi, lo);
      SegmentBase(lo, hi);
    }
  }

  lemma {:induction false} SwappedWords(hi: byte, lo: byte)
    ensures LE16(hi, lo) == LE16(lo, hi) <==> hi == lo
  {
  }

  lemma {:induction false} WholeBase(kind: byte, v: word)
    ensures v as int * Scale(kind) % 0x1_0000_0000 == v as int * Scale(kind)
  {
    DivModUnique(v as int * Scale(kind), 0x1_0000_0000, 0, v as int * Scale(kind));
  }

  lemma {:induction false} LostBase(v: nat)
    ensures v * 65536 % 0x1_0000 == 0
  {
    DivModUnique(v * 65536, 0x1_0000, v, 0);
  }

  lemma {:induction false} SegmentBase(low: byte, high: byte)
    ensures LE16(low, high) as int * 16 % 0x1_0000 == 16 * low as int + 4096 * (high as int % 16)
  {
    DivModUnique(LE16(low, high) as int * 16, 0x1_0000, high as int / 16, 16 * low as int + 4096 * (high as int % 16));
  }

  /**
   The base after an extended address record is the one the record means if and only if the record lies below the
   boot section and its two bytes are equal (or mean nothing in 16 bits), or it lies above and that base was in force
   already.
   */
  lemma {:induction false} ExtendedAddressIff(chip: Chip, m: Machine, addr: nat, kind: byte, hi: byte, lo: byte)
    requires chip.Valid() && m.f.Fits(chip) && addr < 65536 && Extended(kind)
    ensures Print(chip, m, RecordText(addr, kind, [hi, lo])).p.baseAddr == BaseOf(chip, kind, hi, lo) <==>
            if (m.p.baseAddr + addr) % AddressSpace(chip) < chip.bootStart
            then hi == lo || (!chip.Far() && kind == TYPE_LINEAR)
            else m.p.baseAddr == BaseOf(chip, kind, hi, lo)
  {
    hide Print, RecordText, BaseOf, AddressSpace;
    SpacePositive(chip);
    ExtendedAddressIs(chip, m, addr, kind, hi, lo);
    SwapIff(chip, kind, hi, lo);
  }

  // -- A base at or above the boot section -------------------------------------------------------------------

  /** No record that carries data has its address in the application section under this base. */
  ghost predicate NoneReach(chip: Chip, base: nat) {
    forall addr: nat :: addr < 65536 ==> RecordAddress(chip, base, addr) >= chip.bootStart
  }

  function RecordAddress(chip: Chip, base: nat, addr: nat): (a: nat) {
    SpacePositive(chip);
    (base + addr) % AddressSpace(chip)
  }

  /**
   That is so if and only if the base is at or above the boot section and no address field takes it round to 0: never
   on a device with 16-bit addresses.
   */
  lemma {:induction false} NoneReachIff(chip: Chip, base: nat)
    requires chip.Valid() && base < AddressSpace(chip)
    ensures NoneReach(chip, base) <==> chip.bootStart <= base && base + 0xFFFF < AddressSpace(chip)
    ensures !chip.Far() ==> RecordAddress(chip, base, (0x1_0000 - base) % 0x1_0000) == 0 && !NoneReach(chip, base)
  {
    hide Rem, Pow2, PowerOfTwo;
    var space := AddressSpace(chip);
    if base + 0xFFFF >= space {
      assert RecordAddress(chip, base, (space - base) % space) == 0;
    } else {
      assert RecordAddress(chip, base, 0) == base;
    }
  }

  /** A record with data is abandoned at its first data byte if and only if its address is in the boot section. */
  lemma {:induction false} AbandonedIff(chip: Chip, m: Machine, count: byte, addr: nat, kind: byte, b: byte)
    requires chip.Valid() && m.f.Fits(chip) && addr < 65536 && count > 0
    ensures var header := ":" + HexBytes([count, addr / 256, addr % 256, kind]);
            Print(chip, m, header + HexByte(b)).p.state == WaitLine
            <==> RecordAddress(chip, m.p.baseAddr, addr) >= chip.bootStart
  {
    hide Apply, HexByte, HexBytes, ByteDone, Print, AddressSpace, Run, Plus;
    var header := ":" + HexBytes([count, addr / 256, addr % 256, kind]);
    SpacePositive(chip);
    PrintConcat(chip, m, header, HexByte(b));
    PrintHeaderAt(chip, m, count, addr, kind);
    var m1 := Print(chip, m, header);
    PrintByte(chip, m1, b);
    if m1.p.currAddr >= chip.bootStart {
      DroppedByte(chip, m1.p, b);
    } else {
      KeptByte(chip, m1.p, b);
    }
  }

  lemma {:induction false} KeptByte(chip: Chip, p: Parser, b: byte)
    requires chip.Valid() && p.state.ReadData? && p.currAddr < chip.bootStart
    ensures ByteDone(chip, p.(data := b)).0.state != WaitLine
  {
    hide And, AddressSpace, LE16;
    SpacePositive(chip);
  }

  /** The parser under a base from which no record reaches the application section. */
  ghost predicate Stuck(chip: Chip, p: Parser, base: nat)
    requires chip.Valid()
  {
    && chip.bootStart <= base && base + 0xFFFF < AddressSpace(chip) && p.baseAddr == base
    && (p.state == ByteCount || p.state == AddressHigh ==> p.currAddr == base)
    && (p.state == AddressLow ==> base <= p.currAddr <= base + 0xFF00)
    && (p.state == RecordType || p.state == ReadData ==> base <= p.currAddr)
    && (p.state == ReadData ==> p.dataRem > 0)
  }

  /** What may still happen to a page that was begun before: it is committed once, or dropped. */
  ghost predicate OnlyCommits(p: Parser, q: Parser, ops: seq<FlashOp>) {
    && (ops == [] || (p.pageDirty && !q.pageDirty && ops == [Write(p.pageStart)]))
    && (q.pageDirty ==> p.pageDirty && q.pageStart == p.pageStart && ops == [])
  }

  lemma {:induction false} StuckHeader(chip: Chip, p: Parser, base: nat)
    requires chip.Valid() && Stuck(chip, p, base)
    requires p.state == ByteCount || p.state == AddressHigh || p.state == AddressLow || p.state == RecordType
    ensures var (q, ops) := ByteDone(chip, p);
            Stuck(chip, q, base) && ops == [] && q.pageDirty == p.pageDirty && q.pageStart == p.pageStart
  {
    hide DataByte, Flush;
  }

  lemma {:induction false} StuckTail(chip: Chip, p: Parser, base: nat)
    requires chip.Valid() && Stuck(chip, p, base) && (p.state == ReadData || p.state == Checksum)
    ensures var (q, ops) := ByteDone(chip, p);
            Stuck(chip, q, base) && OnlyCommits(p, q, ops)
  {
    hide DataWord, And, AddressSpace;
  }

  lemma {:induction false} StuckStep(chip: Chip, p: Parser, base: nat, c: char)
    requires chip.Valid() && Stuck(chip, p, base)
    ensures var (q, ops) := Step(chip, p, c);
            Stuck(chip, q, base) && OnlyCommits(p, q, ops)
  {
    hide ByteDone, AddressSpace;
    if p.state != WaitLine && c != ':' && HexToDecimal(c) >= 0 {
      var p1 := p.(data := p.data * 16 % 256 + HexToDecimal(c), readMSB := !p.readMSB);
      if p.state == ReadData || p.state == Checksum {
        StuckTail(chip, p1, base);
      } else {
        StuckHeader(chip, p1, base);
      }
    }
  }

  /**
   Under such a base no characters whatsoever change the base, and they request no flash operation but the one commit
   of a page that was in use already.
   */
  lemma {:induction false} StuckForever(chip: Chip, p: Parser, base: nat, s: string)
    requires chip.Valid() && Stuck(chip, p, base)
    ensures Stuck(chip, Feed(chip, p, s), base) && Feed(chip, p, s).baseAddr == base
    ensures OnlyCommits(p, Feed(chip, p, s), FeedOps(chip, p, s))
    ensures !p.pageDirty ==> FeedOps(chip, p, s) == []
    decreases |s|
  {
    hide Step, Stuck;
    StuckBase(chip, p, base);
    if s != [] {
      StuckStep(chip, p, base, s[0]);
      StuckForever(chip, Step(chip, p, s[0]).0, base, s[1..]);
    }
  }

  lemma {:induction false} StuckBase(chip: Chip, p: Parser, base: nat)
    requires chip.Valid() && Stuck(chip, p, base)
    ensures p.baseAddr == base
  {
  }

  /** Between records the parser is stuck if and only if no record reaches the application section. */
  lemma {:induction false} StuckIff(chip: Chip, p: Parser)
    requires chip.Valid() && p.baseAddr < AddressSpace(chip) && (p.state == WaitLine || p.state == Checksum)
    ensures Stuck(chip, p, p.baseAddr) <==> NoneReach(chip, p.baseAddr)
  {
    hide NoneReach, AddressSpace;
    NoneReachIff(chip, p.baseAddr);
  }

  /** With 16-bit addresses there is always a way back: the record at the address that takes the base round to 0. */
  lemma {:induction false} NearComesBack(chip: Chip, m: Machine, kind: byte, hi: byte, lo: byte)
    requires chip.Valid() && m.f.Fits(chip) && !chip.Far() && m.p.baseAddr < 0x1_0000 && Extended(kind)
    ensures var addr := (0x1_0000 - m.p.baseAddr) % 0x1_0000;
            Print(chip, m, RecordText(addr, kind, [hi, lo])).p.baseAddr == BaseOf(chip, kind, lo, hi)
  {
    hide Print, RecordText, BaseOf, NoneReach;
    NoneReachIff(chip, m.p.baseAddr);
    ExtendedAddressIs(chip, m, (0x1_0000 - m.p.baseAddr) % 0x1_0000, kind, hi, lo);
  }

  lemma {:induction false} OneRecordText()
    ensures RecordText(0, TYPE_LINEAR, [0, 1]) == ":020000040001F9"
  {
    hide HexBytes, HexByte, Sum, ChecksumOf;
    var body := RecordBody(0, TYPE_LINEAR, [0, 1]);
    assert body == [2, 0, 0, 4] + [0, 1];
    SumHeader(0, TYPE_LINEAR, [0, 1]);
    PairFirst(0, 1, []);
    assert [0, 1] + [] == [0, 1];
    NoBytes();
    ChecksumIff(body, 0xF9);
    HexBytesConcat([2, 0, 0, 4], [0, 1]);
    HexFour(2, 0, 0, 4);
    HexTwo(0, 1);
    OneRecordDigits();
  }

  lemma {:induction false} OneRecordDigits()
    ensures HexByte(2) == "02" && HexByte(0) == "00" && HexByte(4) == "04" && HexByte(1) == "01"
    ensures HexByte(0xF9) == "F9"
  {
  }

  lemma {:induction false} OneRecordBase(chip: Chip)
    requires chip.Valid()
    ensures BaseOf(chip, TYPE_LINEAR, 1, 0) == if chip.Far() then 0x100_0000 else 0
    ensures 0 % AddressSpace(chip) == 0 && AddressSpace(chip) == if chip.Far() then 0x1_0000_0000 else 0x1_0000
  {
    assert LE16(0, 1) == 256;
  }

  /**
   The record for the second 64 KiB is one where addresses have 32 bits: sent after reset, it keeps everything that
   follows out of flash. With 16 bits it leaves base 0 in force.
   */
  lemma {:induction false} OneRecordBlocks(chip: Chip, f0: Flash, s: string)
    requires chip.Valid() && f0.Fits(chip)
    ensures var m := Printed(chip, f0, ":020000040001F9");
            m.f == f0 && m.p.baseAddr == (if chip.Far() then 0x100_0000 else 0) && !m.p.pageDirty
    ensures NoneReach(chip, Printed(chip, f0, ":020000040001F9").p.baseAddr) <==> chip.Far()
    ensures chip.Far() ==> Printed(chip, f0, ":020000040001F9" + s).p.baseAddr == 0x100_0000
    ensures chip.Far() ==> Printed(chip, f0, ":020000040001F9" + s).f == f0
  {
    hide Print, Feed, FeedOps, RecordText, NoneReach, Stuck, BaseOf, AddressSpace, Run, RecordAddress;
    var m := Machine(INITIAL, f0);
    OneRecordText();
    OneRecordBase(chip);
    ExtendedAddressIs(chip, m, 0, TYPE_LINEAR, 0, 1);
    var m1 := Print(chip, m, RecordText(0, TYPE_LINEAR, [0, 1]));
    NoneReachIff(chip, m1.p.baseAddr);
    if chip.Far() {
      PrintConcat(chip, m, RecordText(0, TYPE_LINEAR, [0, 1]), s);
      StuckIff(chip, m1.p);
      StuckForever(chip, m1.p, 0x100_0000, s);
      PrintIsFeed(chip, m1, s);
      RunNothing(chip, f0);
    }
  }
}
