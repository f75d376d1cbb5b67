/** The HID bootloader's page programming (BootloaderHID.c) and the host loader's programming loop that drives it. */
module Hid {
  import opened Bits
  import opened FlashMachine
  import opened Endpoint
  import opened HostLoader

  const START_APPLICATION := 0xFFFF
  const CONTROL_SIZE := 8

  // -- Device ------------------------------------------------------------------------------------------

  /**
   The page-word loop from word k on, with its counter of 8 bits; the second component is false if the loop is still
   waiting when the host has sent everything.
   */
  function PageWords(chip: Chip, f: Flash, a: nat, p: OutPipe, k: byte): (r: (Flash, bool))
    requires chip.Valid() && f.Fits(chip)
    ensures r.0.Fits(chip) && r.0.mem == f.mem
    decreases Left(p)
  {
    if k as int >= chip.pageSize / 2 then (f, true)
    else if p.bank == [] && p.pending == [] then (f, false)
    else
      TurnTakes(p);
      var (w, p1) := Read16(Refill(p));
      PageWords(chip, PageFill(chip, f, a + 2 * k as int, w), a, p1, (k as int + 1) % 256)
  }

  /** What a turn of a word loop uses up: a byte, or a packet that holds none. */
  function Left(p: OutPipe): (n: nat) {
    |Rest(p)| + |p.pending|
  }

  lemma {:induction false} TurnTakes(p: OutPipe)
    requires p.bank != [] || p.pending != []
    ensures Left(Read16(Refill(p)).1) < Left(p)
  {
    hide LE16;
    var q := Refill(p);
    assert Left(q) <= Left(p) && (p.bank == [] ==> Left(q) < Left(p));
    var (lo, q1) := Read8(q);
    assert Left(q1) <= Left(q) && (q.bank != [] ==> Left(q1) < Left(q));
    assert Left(Read8(q1).1) <= Left(q1);
  }

  /** An 8-bit counter never reaches the 256 words of a 512-byte page, however much the host sends. */
  lemma {:induction false} CounterNeverReaches(chip: Chip, f: Flash, a: nat, p: OutPipe, k: byte)
    requires chip.Valid() && f.Fits(chip) && chip.pageSize == 512
    ensures !PageWords(chip, f, a, p, k).1
    decreases Left(p)
  {
    hide Read16, Refill, PageFill, Left;
    if p.bank != [] || p.pending != [] {
      TurnTakes(p);
      var (w, p1) := Read16(Refill(p));
      CounterNeverReaches(chip, PageFill(chip, f, a + 2 * k as int, w), a, p1, (k as int + 1) % 256);
    }
  }

  /** So on such a device a report for a page leaves the page erased, whatever it carries. */
  lemma {:induction false} LargePageErased(chip: Chip, d: Device, packets: seq<packet>)
    requires chip.Valid() && d.f.Fits(chip) && chip.pageSize > 256 && packets != []
    ensures var w := Read16(NextPacket(OutPipe([], packets))).0;
            var a := PageAddress(chip, w);
            var mem := SetReport(chip, d, packets).f.mem;
            if w != START_APPLICATION && a < chip.bootStart && Rem(a, chip.pageSize) == 0
            then a + chip.pageSize <= chip.flashSize && mem == Overwrite(d.f.mem, a, Blank(chip.pageSize))
            else mem == d.f.mem
  {
    hide Rem, And, PageWords, Read16, Overwrite;
    PageSizes(chip);
    var (w, p) := Read16(NextPacket(OutPipe([], packets)));
    var a := PageAddress(chip, w);
    MaskIsAlignment(chip, a);
    if a < chip.bootStart && And(a, chip.pageSize - 1) == 0 {
      PageInBounds(chip, a);
      CounterNeverReaches(chip, PageErase(chip, d.f, a), a, p, 0);
    }
  }

  datatype Device = Device(f: Flash, running: bool)

  function PageAddress(chip: Chip, w: word): (a: nat) {
    if chip.Far() then w * 256 else w
  }

  /** The SetReport request, with the packets of its data stage. */
  function SetReport(chip: Chip, d: Device, packets: seq<packet>): (r: Device)
    requires chip.Valid() && d.f.Fits(chip)
    ensures r.f.Fits(chip)
  {
    if packets == [] then d else
      var (w, p) := Read16(NextPacket(OutPipe([], packets)));
      var a := PageAddress(chip, w);
      if w == START_APPLICATION then d.(running := false)
      else if a < chip.bootStart && And(a, chip.pageSize - 1) == 0 then
        PageInBounds(chip, a);
        var (f, finished) := PageWords(chip, PageErase(chip, d.f, a), a, p, 0);
        d.(f := if finished then RwwEnable(chip, PageWrite(chip, f, a)) else f)
      else d
  }

  /** No report changes the boot section. */
  lemma {:induction false} ReportKeepsBoot(chip: Chip, d: Device, packets: seq<packet>)
    requires chip.Valid() && d.f.Fits(chip)
    ensures SetReport(chip, d, packets).f.mem[chip.bootStart..] == d.f.mem[chip.bootStart..]
  {
    hide And, PageWords;
    if packets != [] {
      var (w, p) := Read16(NextPacket(OutPipe([], packets)));
      var a := PageAddress(chip, w);
      if a < chip.bootStart && And(a, chip.pageSize - 1) == 0 {
        PageInBounds(chip, a);
      }
    }
  }

  function RunReports(chip: Chip, d: Device, reports: seq<seq<packet>>): (r: Device)
    requires chip.Valid() && d.f.Fits(chip)
    ensures r.f.Fits(chip)
    decreases |reports|
  {
    if reports == [] then d else RunReports(chip, SetReport(chip, d, reports[0]), reports[1..])
  }

  /** Nor does any sequence of reports, whatever the host sends and wherever it stops. */
  lemma {:induction false} ReportsKeepBoot(chip: Chip, d: Device, reports: seq<seq<packet>>)
    requires chip.Valid() && d.f.Fits(chip)
    ensures RunReports(chip, d, reports).f.mem[chip.bootStart..] == d.f.mem[chip.bootStart..]
    decreases |reports|
  {
    hide SetReport;
    if reports != [] {
      ReportKeepsBoot(chip, d, reports[0]);
      ReportsKeepBoot(chip, SetReport(chip, d, reports[0]), reports[1..]);
    }
  }

  lemma {:induction false} PageWordsTurn(chip: Chip, f: Flash, a: nat, p: OutPipe, k: byte)
    requires chip.Valid() && f.Fits(chip)
    ensures 2 * k as int >= chip.pageSize ==> PageWords(chip, f, a, p, k) == (f, true)
    ensures 2 * k as int < chip.pageSize && (p.bank != [] || p.pending != []) && k < 255 ==>
              var (w, p1) := Read16(Refill(p));
              PageWords(chip, f, a, p, k) == PageWords(chip, PageFill(chip, f, a + 2 * k as int, w), a, p1, k + 1)
  {
    hide Read16, Refill, PageFill, LE16, Left;
  }

  lemma {:induction false} PageWordsFill(chip: Chip, f: Flash, a: nat, p: OutPipe, k: byte, data: seq<byte>)
    requires chip.Valid() && f.Fits(chip) && Rem(a, chip.pageSize) == 0 && 2 * k as int <= chip.pageSize <= 256
    requires WordPipe(p) && |data| == chip.pageSize && Rest(p) == data[2 * k as int..]
    requires forall i :: 0 <= i < 2 * k as int ==> f.buf[i] == data[i]
    ensures PageWords(chip, f, a, p, k) == (f.(buf := data), true)
    decreases chip.pageSize - 2 * k as int
  {
    hide Rem, WordPipe, Rest, Read16, Refill, PageFill, LE16, PageWords;
    var n := 2 * k as int;
    PageWordsTurn(chip, f, a, p, k);
    if n == chip.pageSize {
      assert f.buf == data;
    } else {
      RefillReadsWord(p);
      var (w, p1) := Read16(Refill(p));
      var lo, hi := data[n], data[n + 1];
      assert Rest(p)[0] == lo && Rest(p)[1] == hi;
      PageFillWord(chip, f, a, k as int, lo, hi);
      var f1 := PageFill(chip, f, a + n, w);
      assert data[n..][2..] == data[n + 2..];
      PageWordsFill(chip, f1, a, p1, k + 1, data);
    }
  }

  lemma {:induction false} PageFillWord(chip: Chip, f: Flash, a: nat, k: nat, lo: byte, hi: byte)
    requires chip.Valid() && f.Fits(chip) && Rem(a, chip.pageSize) == 0 && 2 * k < chip.pageSize
    ensures 2 * k + 1 < chip.pageSize
    ensures PageFill(chip, f, a + 2 * k, LE16(lo, hi)) == f.(buf := f.buf[2 * k := lo][2 * k + 1 := hi])
  {
    hide Rem;
    RemSum(a, 2 * k, chip.pageSize);
    RemSmall(2 * k, chip.pageSize);
    assert LE16(lo, hi) % 256 == lo && LE16(lo, hi) / 256 == hi;
  }

  /**
   A complete report for a page below the boot section replaces exactly that page, if and only if the page is no larger
   than the loop can count; a larger one is left erased.
   */
  lemma {:induction false} ReportPrograms(chip: Chip, d: Device, w: word, data: seq<byte>)
    requires chip.Valid() && d.f.Fits(chip) && |data| == chip.pageSize
    requires var a := PageAddress(chip, w); a < chip.bootStart && Rem(a, chip.pageSize) == 0
    requires w != START_APPLICATION
    ensures var a := PageAddress(chip, w);
            && a + chip.pageSize <= chip.flashSize
            && var r := SetReport(chip, d, Packets([w % 256, w / 256] + data, CONTROL_SIZE));
               if chip.pageSize <= 256
               then r == d.(f := Flash(Overwrite(d.f.mem, a, data), Blank(chip.pageSize)))
               else r.f.mem == Overwrite(d.f.mem, a, Blank(chip.pageSize)) && r.running == d.running
  {
    hide Rem, And, PageWords, Read16, Overwrite;
    var a, report := PageAddress(chip, w), [w % 256, w / 256] + data;
    var packets := Packets(report, CONTROL_SIZE);
    RemGap(a, chip.bootStart, chip.pageSize);
    MaskIsAlignment(chip, a);
    FirstWord(report);
    var (v, p) := Read16(NextPacket(OutPipe([], packets)));
    assert report[2..] == data && LE16(report[0], report[1]) == w;
    var f := PageErase(chip, d.f, a);
    assert data[2 * 0..] == data;
    if chip.pageSize <= 256 {
      PageWordsFill(chip, f, a, p, 0, data);
      ErasedThenWritten(chip, d.f, a, data);
    } else {
      LargePageErased(chip, d, packets);
    }
  }

  /**
   A report clears the run flag if and only if its first word is 0xFFFF, and such a report leaves the flash alone.
   */
  lemma {:induction false} StartReportIff(chip: Chip, d: Device, packets: seq<packet>)
    requires chip.Valid() && d.f.Fits(chip) && packets != []
    ensures var w := Read16(NextPacket(OutPipe([], packets))).0;
            var r := SetReport(chip, d, packets);
            && r.running == (d.running && w != 0xFFFF)
            && (w == 0xFFFF ==> r.f == d.f)
  {
    hide And, PageWords, Read16;
    var a := PageAddress(chip, Read16(NextPacket(OutPipe([], packets))).0);
    if a < chip.bootStart && And(a, chip.pageSize - 1) == 0 {
      PageInBounds(chip, a);
    }
  }

  /** The report a host sends to start the application. */
  lemma {:induction false} StartReport(chip: Chip, d: Device, rest: seq<byte>)
    requires chip.Valid() && d.f.Fits(chip) && |rest| % 2 == 0
    ensures SetReport(chip, d, Packets([0xFF, 0xFF] + rest, CONTROL_SIZE)) == Device(d.f, false)
  {
    hide SetReport, Read16;
    FirstWord([0xFF, 0xFF] + rest);
    StartReportIff(chip, d, Packets([0xFF, 0xFF] + rest, CONTROL_SIZE));
  }

  lemma {:induction false} FirstWord(report: seq<byte>)
    requires |report| >= 2 && |report| % 2 == 0
    ensures var packets := Packets(report, CONTROL_SIZE);
            && packets != []
            && var (w, p) := Read16(NextPacket(OutPipe([], packets)));
               && w == LE16(report[0], report[1]) && WordPipe(p) && Rest(p) == report[2..]
  {
    hide Read16;
    var packets := Packets(report, CONTROL_SIZE);
    PacketsConcat(report, CONTROL_SIZE);
    var start := OutPipe([], packets);
    assert Rest(start) == report;
    RefillReadsWord(start);
  }

  lemma {:induction false} ErasedThenWritten(chip: Chip, f: Flash, a: nat, data: seq<byte>)
    requires chip.Valid() && f.Fits(chip) && a + chip.pageSize <= chip.flashSize && |data| == chip.pageSize
    ensures RwwEnable(chip, PageWrite(chip, PageErase(chip, f, a).(buf := data), a)) ==
            Flash(Overwrite(f.mem, a, data), Blank(chip.pageSize))
  {
    var e := PageErase(chip, f, a).mem;
    AndErased(e[a..a + chip.pageSize], data);
    assert Overwrite(e, a, data) == Overwrite(f.mem, a, data);
  }

  // -- Host ---------------------------------------------------------------------------------------------

  /** ihex_get_data */
  function BlockData(h: Hex, addr: nat, len: nat): (r: seq<byte>)
    ensures |r| == len
    ensures addr + len < MAX_MEMORY_SIZE ==>
              forall i :: 0 <= i < len ==> r[i] == if addr + i in h.cells then h.cells[addr + i] else ERASED
  {
    if addr + len >= MAX_MEMORY_SIZE then Blank(len)
    else if len == 0 then []
    else BlockData(h, addr, len - 1) + [if addr + len - 1 in h.cells then h.cells[addr + len - 1] else ERASED]
  }

  /** ihex_bytes_within_range, for the bounds of one block */
  predicate AnyMasked(h: Hex, addr: nat, len: nat) {
    addr + len <= MAX_MEMORY_SIZE && exists i :: addr <= i < addr + len && i in h.cells
  }

  /** memory_is_blank */
  predicate AllBlank(h: Hex, addr: nat, len: nat) {
    forall i :: addr <= i < addr + len && i < MAX_MEMORY_SIZE && i in h.cells ==> h.cells[i] == ERASED
  }

  /** The first block is always sent, the others when they hold something to program. */
  predicate Sent(target: Target, h: Hex, addr: nat) {
    addr == 0 || (AnyMasked(h, addr, target.blockSize) && !AllBlank(h, addr, target.blockSize))
  }

  /** The code and block sizes the loader has an address format for; it gives up on any other. */
  predicate Known(target: Target) {
    || (0 < target.blockSize <= 256 && target.codeSize < 0x1_0000)
    || target.blockSize == 256 || target.blockSize == 512 || target.blockSize == 1024
  }

  /** The report for a block; the page address goes out in one of three formats. */
  function ReportFor(target: Target, h: Hex, addr: nat): (r: seq<byte>)
    requires Known(target)
  {
    var data := BlockData(h, addr, target.blockSize);
    if target.blockSize <= 256 && target.codeSize < 0x1_0000 then [addr % 256, addr / 256 % 256] + data
    else if target.blockSize == 256 then [addr / 256 % 256, addr / 0x1_0000 % 256] + data
    else [addr % 256, addr / 256 % 256, addr / 0x1_0000 % 256] + Zeros(61) + data
  }

  /** Bytes with the least significant one first. */
  function Little(bs: seq<byte>): (n: nat) {
    if bs == [] then 0 else bs[0] as int + 256 * Little(bs[1..])
  }

  /**
   What every report carries: the block address (in units of 256 bytes on a large device with pages of that size), zeros
   up to the data, and the block, which is the image where it was loaded and 0xFF elsewhere, and all 0xFF at the very
   end of the image.
   */
  lemma {:induction false} ReportCarries(target: Target, h: Hex, addr: nat)
    requires Known(target) && addr < target.codeSize <= 0x100_0000
    ensures var r, n := ReportFor(target, h, addr), target.blockSize;
            var head := if n > 256 then 64 else 2;
            && |r| == head + n
            && (if n > 256 then Little(r[..3]) == addr && forall i :: 3 <= i < 64 ==> r[i] == 0
                else if target.codeSize < 0x1_0000 then Little(r[..2]) == addr
                else Little(r[..2]) == addr / 256)
            && forall i :: head <= i < |r| ==> r[i] == LoadedByte(h, addr + n, addr + (i - head))
  {
    hide BlockData, Little, LoadedByte, Zeros;
    ThreeBytes(addr);
    var r, data := ReportFor(target, h, addr), BlockData(h, addr, target.blockSize);
    BlockBytes(h, addr, target.blockSize);
    if target.blockSize > 256 {
      var head: seq<byte> := [addr % 256, addr / 256 % 256, addr / 0x1_0000 % 256];
      LittleIs(head[0], head[1], head[2]);
      ThreeParts(head, data, r);
      ThreeBytes(addr);
    } else {
      var head := if target.codeSize < 0x1_0000 then addr else addr / 256;
      TwoParts(r[0], r[1], data, r);
      LittleIs(r[0], r[1], 0);
      TwoBytes(head);
    }
  }

  lemma {:induction false} ThreeParts(head: seq<byte>, data: seq<byte>, r: seq<byte>)
    requires |head| == 3 && r == head + Zeros(61) + data
    ensures |r| == 64 + |data| && r[..3] == head && forall i :: 3 <= i < 64 ==> r[i] == 0
    ensures forall i :: 64 <= i < |r| ==> r[i] == data[i - 64]
  {
    hide Zeros;
    assert forall i :: 3 <= i < 64 ==> r[i] == Zeros(61)[i - 3];
  }

  lemma {:induction false} TwoParts(a: byte, b: byte, data: seq<byte>, r: seq<byte>)
    requires r == [a, b] + data
    ensures |r| == 2 + |data| && r[..2] == [a, b] && forall i :: 2 <= i < |r| ==> r[i] == data[i - 2]
  {
  }

  lemma {:induction false} TwoBytes(n: nat)
    requires n < 0x1_0000
    ensures n % 256 + 256 * (n / 256 % 256) == n
  {
  }

  lemma {:induction false} ThreeBytes(n: nat)
    requires n < 0x100_0000
    ensures n % 256 + 256 * (n / 256 % 256) + 65536 * (n / 0x1_0000 % 256) == n
    ensures n / 256 < 0x1_0000 && n / 256 / 256 == n / 0x1_0000
  {
    var q := n / 256;
    assert q / 256 == n / 0x1_0000;
  }

  /** The byte at address i of a block that ends at `end`. */
  function LoadedByte(h: Hex, end: nat, i: nat): (b: byte) {
    if end < MAX_MEMORY_SIZE && i in h.cells then h.cells[i] else ERASED
  }

  lemma {:induction false} LittleIs(a: byte, b: byte, c: byte)
    ensures Little([a, b]) == a as int + 256 * b as int
    ensures Little([a, b, c]) == a as int + 256 * b as int + 65536 * c as int
  {
    assert [a, b, c][1..] == [b, c] && [b, c][1..] == [c] && [c][1..] == [] && [a, b][1..] == [b] && [b][1..] == [];
    assert Little([b]) == b as int && Little([c]) == c as int;
  }

  lemma {:induction false} BlockBytes(h: Hex, addr: nat, n: nat)
    ensures forall i :: 0 <= i < n ==> BlockData(h, addr, n)[i] == LoadedByte(h, addr + n, addr + i)
  {
  }

  /** The programming loop from block address `addr` on, played against the device. */
  function Program(chip: Chip, d: Device, target: Target, h: Hex, addr: nat): (r: Device)
    requires chip.Valid() && d.f.Fits(chip) && Known(target)
    ensures r.f.Fits(chip)
    decreases target.codeSize - addr
  {
    if addr >= target.codeSize then d
    else
      var packets := Packets(ReportFor(target, h, addr), CONTROL_SIZE);
      var d1 := if Sent(target, h, addr) then SetReport(chip, d, packets) else d;
      Program(chip, d1, target, h, addr + target.blockSize)
  }

  /** A loader target and the AVR it is meant for: the block is a page and the address formats agree. */
  ghost predicate Matches(chip: Chip, target: Target) {
    && chip.Valid() && target.blockSize == chip.pageSize
    && (chip.Far() ==> chip.pageSize == 256) && chip.pageSize <= 256
    && (chip.Far() <==> target.codeSize >= 0x1_0000)
    && 0 < target.codeSize && target.codeSize + target.blockSize < MAX_MEMORY_SIZE
  }

  /** The word a page address is sent as. */
  function AddressWord(chip: Chip, addr: nat): (w: nat) {
    if chip.Far() then addr / 256 else addr
  }

  /** In both AVR formats the device decodes the page the host meant, and never the start code. */
  lemma {:induction false} AddressRoundTrip(chip: Chip, target: Target, h: Hex, addr: nat)
    requires Matches(chip, target) && addr < target.codeSize && Rem(addr, chip.pageSize) == 0
    ensures AddressWord(chip, addr) < START_APPLICATION
    ensures PageAddress(chip, AddressWord(chip, addr)) == addr
    ensures ReportFor(target, h, addr) ==
            [AddressWord(chip, addr) % 256, AddressWord(chip, addr) / 256] + BlockData(h, addr, chip.pageSize)
  {
    hide Rem, BlockData;
    RemEven(addr, chip.pageSize);
    if chip.Far() {
      RemIsModulo(addr, 256);
      assert addr / 256 / 256 == addr / 0x1_0000 < 256;
    } else {
      assert addr / 256 < 256;
    }
  }

  lemma {:induction false} ReportRefused(chip: Chip, d: Device, w: word, data: seq<byte>)
    requires chip.Valid() && d.f.Fits(chip) && |data| % 2 == 0 && w != START_APPLICATION
    requires PageAddress(chip, w) >= chip.bootStart
    ensures SetReport(chip, d, Packets([w % 256, w / 256] + data, CONTROL_SIZE)) == d
  {
    hide Read16, PageWords;
    FirstWord([w % 256, w / 256] + data);
  }

  lemma {:induction false} OverwriteSlice(mem: seq<byte>, at: nat, data: seq<byte>, q: nat)
    requires at + |data| <= |mem| && q + |data| <= |mem| && (q == at || q + |data| <= at || at + |data| <= q)
    ensures Overwrite(mem, at, data)[q..q + |data|] == if q == at then data else mem[q..q + |data|]
  {
    hide Overwrite;
    var m := Overwrite(mem, at, data);
    forall i | 0 <= i < |data|
      ensures m[q..q + |data|][i] == if q == at then data[i] else mem[q + i]
    {
      assert m[q..q + |data|][i] == m[q + i];
    }
  }

  /** One block of the programming loop, seen at one page. */
  lemma {:induction false} BlockAtPage(chip: Chip, d: Device, target: Target, h: Hex, addr: nat, q: nat)
    requires Matches(chip, target) && d.f.Fits(chip) && addr < target.codeSize
    requires Rem(addr, chip.pageSize) == 0 && Rem(q, chip.pageSize) == 0 && q + chip.pageSize <= chip.flashSize
    ensures var r := SetReport(chip, d, Packets(ReportFor(target, h, addr), CONTROL_SIZE));
            && r.running == d.running
            && r.f.mem[q..q + chip.pageSize] ==
               if q == addr && addr < chip.bootStart then BlockData(h, addr, chip.pageSize)
               else d.f.mem[q..q + chip.pageSize]
  {
    hide Rem, SetReport, Packets, BlockData;
    AddressRoundTrip(chip, target, h, addr);
    var w, data := AddressWord(chip, addr), BlockData(h, addr, chip.pageSize);
    if addr < chip.bootStart {
      ReportPrograms(chip, d, w, data);
      if q < addr {
        RemGap(q, addr, chip.pageSize);
      } else if addr < q {
        RemGap(addr, q, chip.pageSize);
      }
      OverwriteSlice(d.f.mem, addr, data, q);
    } else {
      ReportRefused(chip, d, w, data);
    }
  }

  lemma {:induction false} ProgramAtPage(chip: Chip, d: Device, target: Target, h: Hex, addr: nat, q: nat)
    requires Matches(chip, target) && d.f.Fits(chip)
    requires Rem(addr, chip.pageSize) == 0 && Rem(q, chip.pageSize) == 0 && q + chip.pageSize <= chip.flashSize
    ensures var r := Program(chip, d, target, h, addr);
            && r.running == d.running
            && r.f.mem[q..q + chip.pageSize] ==
               if addr <= q < target.codeSize && q < chip.bootStart && Sent(target, h, q)
               then BlockData(h, q, chip.pageSize) else d.f.mem[q..q + chip.pageSize]
    decreases target.codeSize - addr
  {
    hide Rem, SetReport, Packets, BlockData, Sent, ReportFor;
    var p := chip.pageSize;
    if addr < target.codeSize {
      BlockAtPage(chip, d, target, h, addr, q);
      RemSum(addr, p, p);
      RemIsModulo(p, p);
      if addr < q {
        RemGap(addr, q, p);
      }
      var packets := Packets(ReportFor(target, h, addr), CONTROL_SIZE);
      var d1 := if Sent(target, h, addr) then SetReport(chip, d, packets) else d;
      ProgramAtPage(chip, d1, target, h, addr + p, q);
    }
  }

  /** Some byte of the block at q was loaded and is not 0xFF. */
  ghost predicate HoldsCode(h: Hex, q: nat, len: nat) {
    exists i :: q <= i < q + len && i in h.cells && h.cells[i] != ERASED
  }

  lemma {:induction false} SentIff(target: Target, h: Hex, q: nat)
    requires q + target.blockSize <= MAX_MEMORY_SIZE
    ensures Sent(target, h, q) <==> q == 0 || HoldsCode(h, q, target.blockSize)
  {
    if HoldsCode(h, q, target.blockSize) {
      var i :| q <= i < q + target.blockSize && i in h.cells && h.cells[i] != ERASED;
      assert AnyMasked(h, q, target.blockSize) && !AllBlank(h, q, target.blockSize);
    }
  }

  /**
   After the programming loop the first page, and every other page below the boot section that was given a byte other
   than 0xFF, holds the image where it was loaded and 0xFF elsewhere. Every other page is as it was, and the bootloader
   still runs.
   */
  lemma {:induction false} ProgrammedPages(chip: Chip, d: Device, target: Target, h: Hex, q: nat)
    requires Matches(chip, target) && d.f.Fits(chip)
    requires Rem(q, chip.pageSize) == 0 && q + chip.pageSize <= chip.flashSize
    ensures var r := Program(chip, d, target, h, 0);
            var page := r.f.mem[q..q + chip.pageSize];
            && r.running == d.running
            && (if q < chip.bootStart && q < target.codeSize && (q == 0 || HoldsCode(h, q, chip.pageSize)) then
                  forall i :: 0 <= i < chip.pageSize ==> page[i] == if q + i in h.cells then h.cells[q + i] else ERASED
                else page == d.f.mem[q..q + chip.pageSize])
  {
    hide Rem, Program, Sent, HoldsCode;
    RemIsModulo(0, chip.pageSize);
    ProgramAtPage(chip, d, target, h, 0, q);
    if q < target.codeSize {
      SentIff(target, h, q);
    }
  }

  /**
   A page holds what was loaded for it and 0xFF elsewhere if it is the first one or a byte other than 0xFF was loaded
   for it, and is left alone otherwise.
   */
  ghost predicate PageLoaded(chip: Chip, before: seq<byte>, after: seq<byte>, h: Hex, q: nat) {
    && q + chip.pageSize <= |before| == |after|
    && var page := after[q..q + chip.pageSize];
       if q == 0 || HoldsCode(h, q, chip.pageSize) then
         forall i :: 0 <= i < chip.pageSize ==> page[i] == if q + i in h.cells then h.cells[q + i] else ERASED
       else page == before[q..q + chip.pageSize]
  }

  /** The start of a page of the application section that the loader covers. */
  ghost predicate AppPage(chip: Chip, target: Target, q: nat)
    requires chip.pageSize > 0
  {
    Rem(q, chip.pageSize) == 0 && q < chip.bootStart && q < target.codeSize
  }

  /**
   From the text of a HEX file to the flash of the device: the records, each laid over the ones before it, page by
   page.
   */
  lemma {:induction false} FileToFlash(chip: Chip, d: Device, target: Target, rs: seq<Record>, eol: string, q: nat)
    requires Matches(chip, target) && d.f.Fits(chip) && (forall x <- rs :: x.Valid()) && InBounds(EMPTY, target, rs)
    requires AppPage(chip, target, q)
    ensures q + chip.pageSize <= chip.bootStart
    ensures var h := ReadLines(EMPTY, target, LinesOf(rs, eol)).0;
            PageLoaded(chip, d.f.mem, Program(chip, d, target, h, 0).f.mem, Overlay(EMPTY, target, rs), q)
  {
    hide Rem, Program, ReadLines, LinesOf, Overlay, InBounds, HoldsCode;
    RemGap(q, chip.bootStart, chip.pageSize);
    ReadFileLoads(EMPTY, target, rs, eol);
    var h := Overlay(EMPTY, target, rs);
    ProgrammedPages(chip, d, target, h, q);
    var after := Program(chip, d, target, h, 0).f.mem;
    assert |after| == chip.flashSize;
    var page := after[q..q + chip.pageSize];
    if q == 0 || HoldsCode(h, q, chip.pageSize) {
      assert forall i :: 0 <= i < chip.pageSize ==> page[i] == if q + i in h.cells then h.cells[q + i] else ERASED;
      assert PageLoaded(chip, d.f.mem, after, h, q);
    }
  }

  lemma {:induction false} MatchesKnown(chip: Chip, target: Target)
    requires Matches(chip, target)
    ensures Known(target)
  {
  }
}
