/** The HID bootloader's request handler and the host loader, as the sources write them. */
module HidDevice {
  import opened Bits
  import opened FlashMachine
  import opened Endpoint
  import opened HostLoader
  import opened Hid

  class HidBootloader {
    const flash: FlashMemory
    var runBootloader: bool
    var outPipe: OutPipe

    constructor (flash: FlashMemory)
      requires flash.Valid()
      ensures this.flash == flash && State() == Device(flash.State(), true)
    {
      this.flash, runBootloader, outPipe := flash, true, OutPipe([], []);
    }

    ghost function State(): Device
      reads this, flash
    {
      Device(flash.State(), runBootloader)
    }

    /** The HID_REQ_SetReport case; a host that stops sending leaves it waiting for ever. */
    method SetReport(packets: seq<packet>)
      requires flash.Valid()
      modifies this, flash
      ensures flash.Valid() && State() == Hid.SetReport(flash.chip, old(State()), packets)
    {
      hide And, Read16, Refill;
      if packets == [] {
        return;
      }
      var chip := flash.chip;
      var (w, next) := Read16(NextPacket(OutPipe([], packets)));
      outPipe := next;
      var pageAddress := PageAddress(chip, w);
      var pageAddressIsAligned := And(pageAddress, chip.pageSize - 1) == 0;
      if w == START_APPLICATION {
        runBootloader := false;
      } else if pageAddress < chip.bootStart && pageAddressIsAligned {
        PageInBounds(chip, pageAddress);
        flash.BootPageErase(pageAddress);
        var finished := FillPage(pageAddress);
        if finished {
          flash.BootPageWrite(pageAddress);
          flash.BootRwwEnable();
        }
      }
    }

    method FillPage(pageAddress: nat) returns (finished: bool)
      requires flash.Valid()
      modifies this`outPipe, flash
      ensures flash.Valid()
      ensures (flash.State(), finished) == PageWords(flash.chip, old(flash.State()), pageAddress, old(outPipe), 0)
    {
      hide Read16, Refill, PageFill, Left;
      var chip := flash.chip;
      ghost var goal := PageWords(chip, flash.State(), pageAddress, outPipe, 0);
      var pageWord := 0;
      while pageWord < chip.pageSize / 2
        invariant flash.Valid() && 0 <= pageWord < 256
        invariant PageWords(chip, flash.State(), pageAddress, outPipe, pageWord) == goal
        decreases Left(outPipe)
      {
        if outPipe.bank == [] && outPipe.pending == [] {
          return false;
        }
        TurnTakes(outPipe);
        var (w, next) := Read16(Refill(outPipe));
        outPipe := next;
        flash.BootPageFill(pageAddress + 2 * pageWord, w);
        pageWord := (pageWord + 1) % 256;
      }
      finished := true;
    }
  }

  class HexFileLoader {
    const target: Target
    const firmwareImage: array<byte>
    const firmwareMask: array<bool>
    var endRecordSeen: bool
    var byteCount: nat
    var extendedAddr: nat
    /** What the loader stored at indices outside the two arrays. */
    var outside: map<nat, byte>

    constructor (target: Target)
      ensures Valid() && fresh(firmwareImage) && fresh(firmwareMask) && this.target == target && State() == EMPTY
    {
      this.target := target;
      firmwareImage := new byte[MAX_MEMORY_SIZE](_ => ERASED);
      firmwareMask := new bool[MAX_MEMORY_SIZE](_ => false);
      endRecordSeen, byteCount, extendedAddr, outside := false, 0, 0, map[];
      new;
      assert Cells() == map[];
    }

    ghost predicate Valid()
      reads this`outside
    {
      && firmwareImage.Length == firmwareMask.Length == MAX_MEMORY_SIZE
      && forall i <- outside :: i >= MAX_MEMORY_SIZE
    }

    ghost function Cells(): map<nat, byte>
      requires Valid()
      reads this`outside, firmwareImage, firmwareMask
    {
      ImageCells() + outside
    }

    ghost function ImageCells(): map<nat, byte>
      requires firmwareImage.Length == firmwareMask.Length == MAX_MEMORY_SIZE
      reads firmwareImage, firmwareMask
    {
      map i: nat | i < MAX_MEMORY_SIZE && firmwareMask[i] :: firmwareImage[i]
    }

    ghost function State(): Hex
      requires Valid()
      reads this, firmwareImage, firmwareMask
    {
      Hex(Cells(), endRecordSeen, byteCount, extendedAddr)
    }

    method StoreInside(at: nat, b: byte)
      requires Valid() && at < MAX_MEMORY_SIZE
      modifies firmwareImage, firmwareMask
      ensures ImageCells() == old(ImageCells())[at := b]
    {
      firmwareImage[at] := b;
      firmwareMask[at] := true;
    }

    /** The two stores of the data loop, at an index that the bound test may have let through by wrapping. */
    method StoreByte(at: nat, b: byte)
      requires Valid()
      modifies this`outside, firmwareImage, firmwareMask
      ensures Valid() && Cells() == old(Cells())[at := b]
    {
      hide ImageCells;
      ghost var image := ImageCells();
      if at < MAX_MEMORY_SIZE {
        StoreInside(at, b);
        assert Cells() == (image + outside)[at := b];
      } else {
        outside := outside[at := b];
      }
    }

    /** The data bytes and the checksum of a data record. */
    method ParseDataBytes(line: string, base: nat, len: nat, header: nat) returns (ok: bool)
      requires Valid()
      modifies this`outside, firmwareImage, firmwareMask
      ensures Valid() && (State(), ok) == ParseData(old(State()), line, base, len, 0, header)
    {
      hide Scan;
      ghost var goal := ParseData(State(), line, base, len, 0, header);
      var num, sum := 0, header;
      while num != len
        invariant 0 <= num <= len && Valid() && 0 <= sum
        invariant ParseData(State(), line, base, len, num, sum) == goal
      {
        var i := Scan(line, 9 + 2 * num, 2);
        if i < 0 {
          return false;
        }
        StoreByte((base + num) % ADDRESS_WRAP, i % 256);
        sum := sum + i % 256;
        num := num + 1;
      }
      var cksum := Scan(line, 9 + 2 * len, 2);
      ok := cksum >= 0 && (sum + cksum) % 256 == 0;
    }

    method ParseHexLine(line: string) returns (ok: bool)
      requires Valid()
      modifies this, firmwareImage, firmwareMask
      ensures Valid() && (State(), ok) == ParseLine(old(State()), target, line)
    {
      hide Scan, ParseData, LinearBase;
      if |line| < 11 || line[0] != ':' {
        return false;
      }
      var len := Scan(line, 1, 2);
      if len < 0 || |line| < 11 + 2 * len {
        return false;
      }
      var addr := Scan(line, 3, 4);
      if addr < 0 {
        return false;
      }
      var code := Scan(line, 7, 2);
      if code < 0 || (addr + extendedAddr + len) % ADDRESS_WRAP >= MAX_MEMORY_SIZE {
        return false;
      }
      var sum := len % 256 + addr / 256 % 256 + addr % 256 + code % 256;
      if code != 0 {
        if code == 1 {
          endRecordSeen := true;
        } else if (code == 2 || code == 4) && len == 2 {
          var i, cksum := Scan(line, 9, 4), Scan(line, 13, 2);
          if i >= 0 && cksum >= 0 && (sum + i / 256 % 256 + i % 256 + cksum) % 256 == 0 {
            extendedAddr := if code == 2 then i * 16 else LinearBase(target, i);
          }
        }
        return true;
      }
      byteCount := byteCount + len;
      ok := ParseDataBytes(line, addr + extendedAddr, len, sum);
    }

    /** read_intel_hex, with the file's lines as fgets delivers them. */
    method ReadIntelHex(lines: seq<string>) returns (count: int)
      requires Valid()
      modifies this, firmwareImage, firmwareMask
      ensures Valid() && (State(), count) == ReadLines(EMPTY, target, lines)
    {
      hide ParseLine;
      byteCount, endRecordSeen, extendedAddr, outside := 0, false, 0, map[];
      for i := 0 to MAX_MEMORY_SIZE
        invariant Valid() && byteCount == 0 && !endRecordSeen && extendedAddr == 0 && outside == map[]
        invariant forall k :: 0 <= k < i ==> !firmwareMask[k]
      {
        firmwareImage[i] := ERASED;
        firmwareMask[i] := false;
      }
      assert Cells() == map[];
      assert lines[0..] == lines;
      for lineno := 0 to |lines|
        invariant Valid() && ReadLines(State(), target, lines[lineno..]) == ReadLines(EMPTY, target, lines)
      {
        assert lines[lineno..][0] == lines[lineno] && lines[lineno..][1..] == lines[lineno + 1..];
        if lines[lineno] != [] {
          var ok := ParseHexLine(lines[lineno]);
          if !ok {
            return -2;
          }
          if endRecordSeen {
            return byteCount;
          }
        }
      }
      count := byteCount;
    }

    method BytesWithinRange(begin: nat, len: nat) returns (found: bool)
      requires Valid() && len > 0
      ensures found == AnyMasked(State(), begin, len)
    {
      if begin + len > MAX_MEMORY_SIZE {
        return false;
      }
      for i := begin to begin + len
        invariant forall k :: begin <= k < i ==> k !in Cells()
      {
        if firmwareMask[i] {
          assert i in Cells();
          return true;
        }
      }
      found := false;
    }

    method MemoryIsBlank(addr: nat, len: nat) returns (blank: bool)
      requires Valid()
      ensures blank == AllBlank(State(), addr, len)
    {
      var i := addr;
      while i < addr + len && i < MAX_MEMORY_SIZE
        invariant addr <= i
        invariant forall k :: addr <= k < i && k in Cells() ==> Cells()[k] == ERASED
      {
        if firmwareMask[i] && firmwareImage[i] != ERASED {
          assert i in Cells() && Cells()[i] != ERASED;
          return false;
        }
        i := i + 1;
      }
      blank := true;
    }

    method GetData(addr: nat, len: nat) returns (bytes: seq<byte>)
      requires Valid()
      ensures bytes == BlockData(State(), addr, len)
    {
      if addr + len >= MAX_MEMORY_SIZE {
        return Blank(len);
      }
      bytes := [];
      for i := 0 to len
        invariant bytes == BlockData(State(), addr, i)
      {
        assert firmwareMask[addr + i] <==> addr + i in Cells();
        bytes := bytes + [if firmwareMask[addr + i] then firmwareImage[addr + i] else ERASED];
      }
    }

    /** The block at `addr` behind its address, in the format for the target. */
    method MakeReport(addr: nat) returns (report: seq<byte>)
      requires Valid() && Known(target)
      ensures report == ReportFor(target, State(), addr)
    {
      hide BlockData;
      var data := GetData(addr, target.blockSize);
      if target.blockSize <= 256 && target.codeSize < 0x1_0000 {
        report := [addr % 256, addr / 256 % 256] + data;
      } else if target.blockSize == 256 {
        report := [addr / 256 % 256, addr / 0x1_0000 % 256] + data;
      } else {
        report := [addr % 256, addr / 256 % 256, addr / 0x1_0000 % 256] + Zeros(61) + data;
      }
    }

    /** The programming loop of main, against an attached device that accepts every write. */
    method ProgramDevice(device: HidBootloader)
      requires Valid() && Known(target) && device.flash.Valid()
      modifies device, device.flash
      ensures device.flash.Valid()
      ensures device.State() == Program(device.flash.chip, old(device.State()), target, State(), 0)
    {
      hide Hid.SetReport, Packets, AnyMasked, AllBlank, ReportFor, Program, Cells;
      ghost var chip, h := device.flash.chip, State();
      ghost var goal := Program(chip, device.State(), target, h, 0);
      var firstBlock, addr := true, 0;
      while addr < target.codeSize
        invariant device.flash.Valid() && firstBlock == (addr == 0) && State() == h
        invariant Program(chip, device.State(), target, h, addr) == goal
        decreases target.codeSize - addr
      {
        ProgramBlock(chip, device.State(), target, h, addr);
        var within := BytesWithinRange(addr, target.blockSize);
        var blank := MemoryIsBlank(addr, target.blockSize);
        if firstBlock || (within && !blank) {
          var report := MakeReport(addr);
          device.SetReport(Packets(report, CONTROL_SIZE));
        }
        firstBlock := false;
        addr := addr + target.blockSize;
      }
      ProgramEnds(chip, device.State(), target, h, addr);
    }

    /** The whole run of the loader: every application page of the device ends up as the file's records say. */
    method ProgramFile(rs: seq<Record>, eol: string, device: HidBootloader) returns (count: int)
      requires Valid() && device.flash.Valid() && Matches(device.flash.chip, target)
      requires (forall x <- rs :: x.Valid()) && InBounds(EMPTY, target, rs)
      modifies this, firmwareImage, firmwareMask, device, device.flash
      ensures Valid() && device.flash.Valid() && count == Overlay(EMPTY, target, rs).byteCount
      ensures device.runBootloader == old(device.runBootloader)
      ensures forall q: nat :: AppPage(device.flash.chip, target, q) ==>
                PageLoaded(device.flash.chip, old(device.flash.mem), device.flash.mem, Overlay(EMPTY, target, rs), q)
    {
      hide Rem, ReadLines, Overlay, InBounds, LinesOf, Program, PageLoaded;
      ghost var chip, d0 := device.flash.chip, device.State();
      ghost var h := ReadLines(EMPTY, target, LinesOf(rs, eol)).0;
      MatchesKnown(chip, target);
      ReadFileLoads(EMPTY, target, rs, eol);
      ProgramKeepsRunning(chip, d0, target, h);
      forall q: nat | AppPage(chip, target, q)
        ensures PageLoaded(chip, d0.f.mem, Program(chip, d0, target, h, 0).f.mem, Overlay(EMPTY, target, rs), q)
      {
        FileToFlash(chip, d0, target, rs, eol, q);
      }
      count := ReadIntelHex(LinesOf(rs, eol));
      ProgramDevice(device);
    }
  }

  lemma {:induction false} ProgramBlock(chip: Chip, d: Device, target: Target, h: Hex, addr: nat)
    requires chip.Valid() && d.f.Fits(chip) && Known(target) && addr < target.codeSize
    ensures var packets := Packets(ReportFor(target, h, addr), CONTROL_SIZE);
            var d1 := if Sent(target, h, addr) then Hid.SetReport(chip, d, packets) else d;
            Program(chip, d, target, h, addr) == Program(chip, d1, target, h, addr + target.blockSize)
  {
    hide Hid.SetReport, Packets, Sent, ReportFor;
  }

  lemma {:induction false} ProgramEnds(chip: Chip, d: Device, target: Target, h: Hex, addr: nat)
    requires chip.Valid() && d.f.Fits(chip) && Known(target) && addr >= target.codeSize
    ensures Program(chip, d, target, h, addr) == d
  {
  }

  lemma {:induction false} ProgramKeepsRunning(chip: Chip, d: Device, target: Target, h: Hex)
    requires Matches(chip, target) && d.f.Fits(chip) && Known(target)
    ensures Program(chip, d, target, h, 0).running == d.running
  {
    hide Program, Rem;
    RemSmall(0, chip.pageSize);
    RemGap(0, chip.bootStart, chip.pageSize);
    ProgrammedPages(chip, d, target, h, 0);
  }
}
