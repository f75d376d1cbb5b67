/**
 The printer bootloader's Intel HEX parser (BootloaderPrinter.c): a state machine fed one
 character at a time that drives the flash through a one-page cache.
 */
module Printer {
  import opened Bits
  import opened FlashMachine
  import opened HexText

  datatype ParseState = WaitLine | ByteCount | AddressHigh | AddressLow | RecordType | ReadData | Checksum

  /** The HEXParser struct, with PageDirty and RunBootloader. */
  datatype Parser = Parser(
    state: ParseState, prevData: byte, data: byte, readMSB: bool, recordType: byte, dataRem: byte,
    checksum: byte, pageStart: nat, baseAddr: nat, currAddr: nat, pageDirty: bool, running: bool)

  const INITIAL := Parser(WaitLine, 0, 0, false, 0, 0, 0, 0, 0, 0, false, true)

  /** Value of an upper-case hexadecimal digit, -1 for any other character. */
  function HexToDecimal(c: char): (d: int)
    ensures -1 <= d < 16
  {
    if 'A' <= c <= 'F' then 10 + (c as int - 'A' as int)
    else if '0' <= c <= '9' then c as int - '0' as int
    else -1
  }

  function Flush(chip: Chip, p: Parser): (Parser, seq<FlashOp>)
    requires chip.pageSize <= AddressSpace(chip)
  {
    var newPage := And(p.currAddr, AddressSpace(chip) - chip.pageSize);
    if p.pageDirty && p.pageStart != newPage then
      (p.(pageStart := newPage, pageDirty := false), [Write(p.pageStart)])
    else
      (p, [])
  }

  /** A completed data word of a record of type 00. */
  function DataWord(chip: Chip, p: Parser, w: word): (Parser, seq<FlashOp>)
    requires chip.pageSize <= AddressSpace(chip)
  {
    var filled := if p.pageDirty then [Fill(p.currAddr, w)] else [Erase(p.pageStart), Fill(p.currAddr, w)];
    var (q, flushed) := Flush(chip, p.(pageDirty := true, currAddr := (p.currAddr + 2) % AddressSpace(chip)));
    (q, filled + flushed)
  }

  /** A data byte, with the count still including it. */
  function DataByte(chip: Chip, p: Parser): (Parser, seq<FlashOp>)
    requires chip.pageSize <= AddressSpace(chip)
  {
    var p1 := p.(dataRem := (p.dataRem + 255) % 256);
    if p1.currAddr >= chip.bootStart then
      (p1.(state := WaitLine, pageDirty := false), [])
    else if p1.dataRem % 2 == 1 then
      (p1.(prevData := p1.data), [])
    else
      var w := LE16(p1.prevData, p1.data);
      var (p2, ops) :=
        if p1.recordType == TYPE_DATA then DataWord(chip, p1, w)
        else if p1.recordType == TYPE_SEGMENT then (p1.(baseAddr := (w * 16) % AddressSpace(chip)), [])
        else if p1.recordType == TYPE_LINEAR then (p1.(baseAddr := (w * 65536) % AddressSpace(chip)), [])
        else (p1, []);
      (if p2.dataRem == 0 then p2.(state := Checksum) else p2, ops)
  }

  /** A byte of the record is complete in `p.data`. */
  function ByteDone(chip: Chip, p0: Parser): (Parser, seq<FlashOp>)
    requires chip.pageSize <= AddressSpace(chip)
  {
    var p := if p0.state.Checksum? then p0 else p0.(checksum := (p0.checksum + p0.data) % 256);
    match p.state
    case ByteCount => (p.(dataRem := p.data, state := AddressHigh), [])
    case AddressHigh => (p.(currAddr := (p.currAddr + p.data * 256) % AddressSpace(chip), state := AddressLow), [])
    case AddressLow => (p.(currAddr := (p.currAddr + p.data) % AddressSpace(chip), state := RecordType), [])
    case RecordType => (p.(recordType := p.data, state := if p.dataRem != 0 then ReadData else Checksum), [])
    case ReadData => DataByte(chip, p)
    case Checksum =>
      if p.data != (255 - p.checksum + 1) % 256 then (p, []) else
        var (q, ops) := Flush(chip, p);
        (if q.recordType == TYPE_EOF then q.(running := false) else q, ops)
    case WaitLine => (p, [])
  }

  /** ParseIntelHEXByte as a function: the next parser state and the flash operations it requests. */
  function Step(chip: Chip, p: Parser, c: char): (Parser, seq<FlashOp>)
    requires chip.pageSize <= AddressSpace(chip)
  {
    if p.state.WaitLine? || c == ':' then
      (p.(checksum := 0, currAddr := p.baseAddr, readMSB := false,
          state := if c == ':' then ByteCount else p.state), [])
    else
      var d := HexToDecimal(c);
      if d < 0 then (p, []) else
        var p1 := p.(data := p.data * 16 % 256 + d, readMSB := !p.readMSB);
        if p1.readMSB then (p1, []) else ByteDone(chip, p1)
  }

  /** The parser state and the operations requested after a whole character stream. */
  function Feed(chip: Chip, p: Parser, s: string): Parser
    requires chip.pageSize <= AddressSpace(chip)
    decreases |s|
  {
    if s == [] then p else Feed(chip, Step(chip, p, s[0]).0, s[1..])
  }

  function FeedOps(chip: Chip, p: Parser, s: string): seq<FlashOp>
    requires chip.pageSize <= AddressSpace(chip)
    decreases |s|
  {
    if s == [] then [] else
      var (p1, ops) := Step(chip, p, s[0]);
      ops + FeedOps(chip, p1, s[1..])
  }

  /** The parser together with the flash it drives. */
  datatype Machine = Machine(p: Parser, f: Flash)

  function Advance(chip: Chip, m: Machine, c: char): (r: Machine)
    requires chip.Valid() && m.f.Fits(chip)
    ensures r.f.Fits(chip)
  {
    var (p, ops) := Step(chip, m.p, c);
    Machine(p, Run(chip, m.f, ops))
  }

  function Print(chip: Chip, m: Machine, s: string): (r: Machine)
    requires chip.Valid() && m.f.Fits(chip)
    ensures r.f.Fits(chip)
    decreases |s|
  {
    if s == [] then m else Print(chip, Advance(chip, m, s[0]), s[1..])
  }

  lemma {:induction false} PrintConcat(chip: Chip, m: Machine, s: string, t: string)
    requires chip.Valid() && m.f.Fits(chip)
    ensures Print(chip, m, s + t) == Print(chip, Print(chip, m, s), t)
    decreases |s|
  {
    if s == [] {
      assert s + t == t;
    } else {
      assert (s + t)[0] == s[0] && (s + t)[1..] == s[1..] + t;
      PrintConcat(chip, Advance(chip, m, s[0]), s[1..], t);
    }
  }

  lemma {:induction false} FeedConcat(chip: Chip, p: Parser, s: string, t: string)
    requires chip.Valid()
    ensures Feed(chip, p, s + t) == Feed(chip, Feed(chip, p, s), t)
    ensures FeedOps(chip, p, s + t) == FeedOps(chip, p, s) + FeedOps(chip, Feed(chip, p, s), t)
    decreases |s|
  {
    if s == [] {
      assert s + t == t;
    } else {
      var (p1, ops) := Step(chip, p, s[0]);
      assert (s + t)[0] == s[0] && (s + t)[1..] == s[1..] + t;
      FeedConcat(chip, p1, s[1..], t);
      assert FeedOps(chip, p, s + t) == ops + FeedOps(chip, p1, s[1..] + t);
    }
  }

  /** Printing is feeding the parser and running the operations it requests. */
  lemma {:induction false} PrintIsFeed(chip: Chip, m: Machine, s: string)
    requires chip.Valid() && m.f.Fits(chip)
    ensures Print(chip, m, s) == Machine(Feed(chip, m.p, s), Run(chip, m.f, FeedOps(chip, m.p, s)))
    decreases |s|
  {
    if s != [] {
      var (p1, ops) := Step(chip, m.p, s[0]);
      PrintIsFeed(chip, Advance(chip, m, s[0]), s[1..]);
      RunConcat(chip, m.f, ops, FeedOps(chip, p1, s[1..]));
    }
  }
}
