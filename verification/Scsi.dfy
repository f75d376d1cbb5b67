/** The SCSI block commands of the mass storage bootloader (SCSI.c) over the virtual disk. */
module Scsi {
  import opened Bits
  import opened FlashMachine
  import opened Fat12
  import opened VirtualDisk
  import opened DiskRuns
  import opened DiskDevice

  const CMD_TEST_UNIT_READY: byte := 0x00
  const CMD_REQUEST_SENSE: byte := 0x03
  const CMD_INQUIRY: byte := 0x12
  const CMD_MODE_SENSE_6: byte := 0x1A
  const CMD_READ_CAPACITY_10: byte := 0x25
  const CMD_START_STOP_UNIT: byte := 0x1B
  const CMD_SEND_DIAGNOSTIC: byte := 0x1D
  const CMD_PREVENT_ALLOW_MEDIUM_REMOVAL: byte := 0x1E
  const CMD_READ_10: byte := 0x28
  const CMD_WRITE_10: byte := 0x2A
  const CMD_VERIFY_10: byte := 0x2F

  datatype Sense = Sense(key: byte, code: byte)
  const SENSE_GOOD := Sense(0x00, 0x00)
  const SENSE_OUT_OF_RANGE := Sense(0x05, 0x21)
  const SENSE_INVALID_COMMAND := Sense(0x05, 0x20)
  const SENSE_INVALID_FIELD := Sense(0x05, 0x24)

  /** The standard INQUIRY data: a removable block device, "LUFA", "Bootloader", "0.00". */
  const INQUIRY_DATA: seq<byte> :=
    [0x00, 0x80, 0x00, 0x02, 0x1F, 0x00, 0x00, 0x00,
     0x4C, 0x55, 0x46, 0x41, 0, 0, 0, 0,
     0x42, 0x6F, 0x6F, 0x74, 0x6C, 0x6F, 0x61, 0x64, 0x65, 0x72, 0, 0, 0, 0, 0, 0,
     0x30, 0x2E, 0x30, 0x30]

  /** The sense data a REQUEST SENSE returns. */
  function SenseBytes(s: Sense): (r: seq<byte>)
    ensures |r| == 18
  {
    [0x70, 0, s.key, 0, 0, 0, 0, 0x0A, 0, 0, 0, 0, s.code, 0, 0, 0, 0, 0]
  }

  /** A response cut or padded with zeros to the length the host allocates. */
  function Allocated(bytes: seq<byte>, n: nat): (r: seq<byte>)
    ensures |r| == n && forall i :: 0 <= i < n ==> r[i] == if i < |bytes| then bytes[i] else 0
  {
    if n <= |bytes| then bytes[..n] else bytes + Zeros(n - |bytes|)
  }

  /** A 32-bit value, most significant byte first. */
  function BE32(n: nat): (r: seq<byte>)
    ensures |r| == 4
  {
    [n / 0x100_0000 % 256, n / 65536 % 256, n / 256 % 256, n % 256]
  }

  /** The block address field, of which the source keeps the low 16 bits. */
  function BlockAddress(cdb: seq<byte>): (r: word)
    requires |cdb| == 16
  {
    LE16(cdb[5], cdb[4])
  }

  function TotalBlocks(cdb: seq<byte>): (r: word)
    requires |cdb| == 16
  {
    LE16(cdb[8], cdb[7])
  }

  /** The blocks a transfer touches; their numbers wrap in 16 bits. */
  function Transfer(first: word, sectors: seq<seq<byte>>): (ws: seq<BlockWrite>)
    ensures |ws| == |sectors|
    ensures forall i :: 0 <= i < |ws| ==> ws[i] == BlockWrite((first + i) % 65536, sectors[i])
  {
    if sectors == [] then [] else
      var n := |sectors| - 1;
      Transfer(first, sectors[..n]) + [BlockWrite((first + n) % 65536, sectors[n])]
  }

  /** A 10-byte read or write command with the sectors the host sends. */
  datatype Command = Command(cdb: seq<byte>, sectors: seq<seq<byte>>) {
    ghost predicate Valid() {
      |cdb| == 16 && (cdb[0] == CMD_WRITE_10 ==> |sectors| == TotalBlocks(cdb))
      && forall s <- sectors :: |s| == SECTOR_SIZE
    }
  }

  /** An INQUIRY for anything but the standard data is refused. */
  predicate PlainInquiry(cdb: seq<byte>)
    requires |cdb| == 16
  {
    cdb[1] % 4 == 0 && cdb[2] == 0
  }

  predicate InRange(cfg: Config, c: Command)
    requires |c.cdb| == 16 && cfg.FlashFileSize() >= 0
  {
    BlockAddress(c.cdb) < cfg.MediaBlocks()
  }

  /** The sense data after a command, which says how that command ended and nothing of those before it. */
  function SenseAfter(cfg: Config, c: Command): (s: Sense)
    requires |c.cdb| == 16 && cfg.FlashFileSize() >= 0
  {
    var op := c.cdb[0];
    if op == CMD_READ_10 || op == CMD_WRITE_10 then (if InRange(cfg, c) then SENSE_GOOD else SENSE_OUT_OF_RANGE)
    else if op == CMD_INQUIRY then (if PlainInquiry(c.cdb) then SENSE_GOOD else SENSE_INVALID_FIELD)
    else if op in {CMD_REQUEST_SENSE, CMD_READ_CAPACITY_10, CMD_MODE_SENSE_6, CMD_START_STOP_UNIT, CMD_SEND_DIAGNOSTIC,
                   CMD_TEST_UNIT_READY, CMD_PREVENT_ALLOW_MEDIUM_REMOVAL, CMD_VERIFY_10}
    then SENSE_GOOD
    else SENSE_INVALID_COMMAND
  }

  /** What the commands that describe the device send, for the sense data in force; nothing for all others. */
  function Description(cfg: Config, sense: Sense, c: Command): (r: seq<byte>)
    requires |c.cdb| == 16 && cfg.FlashFileSize() >= 0
  {
    var op := c.cdb[0];
    if op == CMD_INQUIRY && PlainInquiry(c.cdb) then Allocated(INQUIRY_DATA, LE16(c.cdb[4], c.cdb[3]))
    else if op == CMD_REQUEST_SENSE then Allocated(SenseBytes(sense), c.cdb[4])
    else if op == CMD_READ_CAPACITY_10 then BE32(cfg.MediaBlocks() - 1) + BE32(SECTOR_SIZE)
    else if op == CMD_MODE_SENSE_6 then [0, 0, 0, 0]
    else []
  }

  /** The last block that READ CAPACITY reports is the last one that READ and WRITE accept. */
  lemma {:induction false} CapacityIsRange(cfg: Config, sense: Sense, query: Command, c: Command)
    requires cfg.Valid() && |query.cdb| == 16 && |c.cdb| == 16 && query.cdb[0] == CMD_READ_CAPACITY_10
    ensures var r := Description(cfg, sense, query);
            && |r| == 8 && r[4..] == [0, 0, 2, 0]
            && (InRange(cfg, c) <==>
                BlockAddress(c.cdb) <= r[3] as int + 256 * r[2] as int + 65536 * r[1] as int + 0x100_0000 * r[0] as int)
  {
    hide Sectors, LE16, BE32, BlockAddress;
    SectorsExact(cfg);
    var n := cfg.MediaBlocks() - 1;
    SmallBE32(n);
    SmallBE32(SECTOR_SIZE);
  }

  lemma {:induction false} SmallBE32(n: nat)
    requires n < 65536
    ensures BE32(n) == [0, 0, n / 256, n % 256]
  {
  }

  /** What a command writes to the disk: nothing, unless it is a write that starts on the medium. */
  function WritesOf(cfg: Config, c: Command): (ws: seq<BlockWrite>)
    requires c.Valid() && cfg.FlashFileSize() >= 0
    ensures forall w <- ws :: |w.data| == SECTOR_SIZE
  {
    if c.cdb[0] == CMD_WRITE_10 && BlockAddress(c.cdb) < cfg.MediaBlocks() then
      var ws := Transfer(BlockAddress(c.cdb), c.sectors);
      assert forall i :: 0 <= i < |ws| ==> ws[i].data in c.sectors;
      ws
    else []
  }

  function RunCommands(cfg: Config, d: Disk, cs: seq<Command>): (r: Disk)
    requires cfg.Valid() && d.Fits(cfg) && forall c <- cs :: c.Valid()
    ensures r.Fits(cfg)
    decreases |cs|
  {
    if cs == [] then d else
      assert cs[0] in cs && forall c <- cs[1..] :: c in cs;
      RunCommands(cfg, RunWrites(cfg, d, WritesOf(cfg, cs[0])), cs[1..])
  }

  /** In every run of SCSI commands no flash byte above the firmware file changes. */
  lemma {:induction false} CommandsKeepBootSection(cfg: Config, d: Disk, cs: seq<Command>)
    requires cfg.Valid() && d.Fits(cfg) && forall c <- cs :: c.Valid()
    ensures RunCommands(cfg, d, cs).mem[cfg.FlashFileSize()..] == d.mem[cfg.FlashFileSize()..]
    decreases |cs|
  {
    hide RunWrites, WritesOf;
    if cs != [] {
      assert cs[0] in cs && forall c <- cs[1..] :: c in cs;
      FlashAboveFileKept(cfg, d, WritesOf(cfg, cs[0]));
      CommandsKeepBootSection(cfg, RunWrites(cfg, d, WritesOf(cfg, cs[0])), cs[1..]);
    }
  }

  lemma {:induction false} RunWritesLast(cfg: Config, d: Disk, ws: seq<BlockWrite>, w: BlockWrite)
    requires cfg.Valid() && d.Fits(cfg) && (forall x <- ws :: |x.data| == SECTOR_SIZE) && |w.data| == SECTOR_SIZE
    ensures forall x <- ws + [w] :: |x.data| == SECTOR_SIZE
    ensures RunWrites(cfg, d, ws + [w]) == VirtualDisk.WriteBlock(cfg, RunWrites(cfg, d, ws), w.block, w.data)
    decreases |ws|
  {
    hide VirtualDisk.WriteBlock;
    if ws == [] {
      assert ws + [w] == [w] && [w][1..] == [];
    } else {
      assert ws[0] in ws && forall x <- ws[1..] :: x in ws;
      assert (ws + [w])[1..] == ws[1..] + [w];
      RunWritesLast(cfg, VirtualDisk.WriteBlock(cfg, d, ws[0].block, ws[0].data), ws[1..], w);
    }
  }

  /** The first i blocks of an accepted write. */
  ghost function WritesUpTo(cfg: Config, c: Command, i: nat): (ws: seq<BlockWrite>)
    requires cfg.Valid() && c.Valid() && i <= |WritesOf(cfg, c)|
    ensures forall w <- ws :: |w.data| == SECTOR_SIZE
  {
    WritesOf(cfg, c)[..i]
  }

  lemma {:induction false} WriteNextBlock(cfg: Config, d: Disk, c: Command, i: nat)
    requires cfg.Valid() && d.Fits(cfg) && c.Valid() && c.cdb[0] == CMD_WRITE_10
    requires BlockAddress(c.cdb) < cfg.MediaBlocks() && i < TotalBlocks(c.cdb)
    ensures i < |c.sectors| == |WritesOf(cfg, c)| && |c.sectors[i]| == SECTOR_SIZE
    ensures RunWrites(cfg, d, WritesUpTo(cfg, c, i + 1)) ==
            VirtualDisk.WriteBlock(cfg, RunWrites(cfg, d, WritesUpTo(cfg, c, i)), (BlockAddress(c.cdb) + i) % 65536,
                                   c.sectors[i])
  {
    hide RunWrites, VirtualDisk.WriteBlock, BlockAddress, Transfer;
    var ws := WritesOf(cfg, c);
    assert c.sectors[i] in c.sectors;
    assert ws[..i + 1] == ws[..i] + [ws[i]];
    RunWritesLast(cfg, d, WritesUpTo(cfg, c, i), ws[i]);
  }

  lemma {:induction false} WritesEnds(cfg: Config, d: Disk, c: Command)
    requires cfg.Valid() && d.Fits(cfg) && c.Valid()
    ensures RunWrites(cfg, d, WritesUpTo(cfg, c, 0)) == d
    ensures WritesUpTo(cfg, c, |WritesOf(cfg, c)|) == WritesOf(cfg, c)
    ensures c.cdb[0] == CMD_WRITE_10 && BlockAddress(c.cdb) < cfg.MediaBlocks() ==>
            |WritesOf(cfg, c)| == TotalBlocks(c.cdb)
  {
    hide VirtualDisk.WriteBlock, BlockAddress, Transfer;
    assert WritesOf(cfg, c)[..0] == [];
  }

  /** Endpoint_Write_Stream_LE */
  method WriteStream(buffer: seq<byte>, length: nat) returns (sent: seq<byte>)
    requires length <= |buffer|
    ensures sent == buffer[..length]
  {
    sent := [];
    for i := 0 to length
      invariant sent == buffer[..i]
    {
      sent := sent + [buffer[i]];
    }
  }

  /** Endpoint_Null_Stream, after what has been sent before. */
  method NullStream(before: seq<byte>, length: nat) returns (sent: seq<byte>)
    ensures sent == before + Zeros(length)
  {
    sent := before;
    for i := 0 to length
      invariant |sent| == |before| + i && sent[..|before|] == before
      invariant forall k :: |before| <= k < |sent| ==> sent[k] == 0
    {
      sent := sent + [0];
    }
  }

  lemma {:induction false} OptionBits(b: byte)
    ensures And(b, 3) == 0 <==> b % 4 == 0
  {
    hide And, Rem;
    assert Pow2(2) == 4;
    AndMask(b, 2);
    RemIsModulo(b, 4);
  }

  lemma {:induction false} InquiryBytesAt(sent: seq<byte>)
    requires forall i :: 0 <= i < |sent| ==> sent[i] == if i < |INQUIRY_DATA| then INQUIRY_DATA[i] else 0
    ensures sent == Allocated(INQUIRY_DATA, |sent|)
  {
    hide Allocated;
  }

  lemma {:induction false} SenseBytesAt(s: Sense, sent: seq<byte>)
    requires forall i :: 0 <= i < |sent| ==>
               sent[i] == if i == 0 then 0x70 else if i == 2 then s.key else if i == 7 then 0x0A
                          else if i == 12 then s.code else 0
    ensures sent == Allocated(SenseBytes(s), |sent|)
  {
    hide Allocated;
  }

  class ScsiDevice {
    const disk: VirtualFat
    var sense: Sense
    var runBootloader: bool
    var dataTransferLength: nat

    constructor (disk: VirtualFat)
      ensures this.disk == disk && sense == SENSE_GOOD && runBootloader && dataTransferLength == 0
    {
      this.disk := disk;
      sense, runBootloader, dataTransferLength := SENSE_GOOD, true, 0;
    }

    /** SCSI_Command_ReadWrite_10 */
    method ReadWrite10(c: Command, isDataRead: bool) returns (success: bool, sent: seq<seq<byte>>)
      requires disk.Valid() && c.Valid() && isDataRead == (c.cdb[0] != CMD_WRITE_10)
      modifies this, disk.flash, disk.eeprom, disk.entries
      ensures disk.Valid() && runBootloader == old(runBootloader)
      ensures disk.State() == RunWrites(disk.cfg, old(disk.State()), WritesOf(disk.cfg, c))
      ensures success == (BlockAddress(c.cdb) < disk.cfg.MediaBlocks())
      ensures sense == if success then old(sense) else SENSE_OUT_OF_RANGE
      ensures dataTransferLength == if success
                then (old(dataTransferLength) + 0x1_0000_0000 - TotalBlocks(c.cdb) * SECTOR_SIZE) % 0x1_0000_0000
                else old(dataTransferLength)
      ensures |sent| == if success && isDataRead then TotalBlocks(c.cdb) else 0
      ensures forall i :: 0 <= i < |sent| ==>
                sent[i] == VirtualDisk.ReadBlock(disk.cfg, disk.State(), (BlockAddress(c.cdb) + i) % 65536)
    {
      hide RunWrites, WritesOf, VirtualDisk.ReadBlock, VirtualDisk.WriteBlock;
      var cfg := disk.cfg;
      var blockAddress, totalBlocks := BlockAddress(c.cdb), TotalBlocks(c.cdb);
      sent := [];
      ghost var d0 := disk.State();
      NoWrites(cfg, d0, c);
      if blockAddress >= cfg.MediaBlocks() {
        sense := SENSE_OUT_OF_RANGE;
        success := false;
        return;
      }
      if isDataRead {
        for i := 0 to totalBlocks
          invariant disk.Valid() && disk.State() == d0 && |sent| == i
          invariant sense == old(sense) && runBootloader == old(runBootloader)
          invariant dataTransferLength == old(dataTransferLength)
          invariant forall k :: 0 <= k < i ==> sent[k] == VirtualDisk.ReadBlock(cfg, d0, (blockAddress + k) % 65536)
        {
          var data := disk.ReadBlock((blockAddress + i) % 65536);
          sent := sent + [data];
        }
      } else {
        WriteAll(c);
      }
      dataTransferLength := (dataTransferLength + 0x1_0000_0000 - totalBlocks * SECTOR_SIZE) % 0x1_0000_0000;
      success := true;
    }

    method WriteAll(c: Command)
      requires disk.Valid() && c.Valid() && c.cdb[0] == CMD_WRITE_10 && BlockAddress(c.cdb) < disk.cfg.MediaBlocks()
      modifies disk.flash, disk.eeprom, disk.entries
      ensures disk.Valid() && disk.State() == RunWrites(disk.cfg, old(disk.State()), WritesOf(disk.cfg, c))
    {
      hide VirtualDisk.WriteBlock, RunWrites, WritesOf, WritesUpTo, BlockAddress;
      ghost var cfg, d0 := disk.cfg, disk.State();
      var blockAddress := BlockAddress(c.cdb);
      WritesEnds(cfg, d0, c);
      for i := 0 to TotalBlocks(c.cdb)
        invariant disk.Valid() && disk.State() == RunWrites(cfg, d0, WritesUpTo(cfg, c, i))
      {
        WriteNextBlock(cfg, d0, c, i);
        disk.WriteBlock((blockAddress + i) % 65536, c.sectors[i]);
      }
    }

    method Inquiry(cdb: seq<byte>) returns (success: bool, sent: seq<byte>)
      requires |cdb| == 16
      modifies this`sense, this`dataTransferLength
      ensures success == PlainInquiry(cdb) && sense == if success then old(sense) else SENSE_INVALID_FIELD
      ensures |sent| == if success then LE16(cdb[4], cdb[3]) else 0
      ensures forall i :: 0 <= i < |sent| ==> sent[i] == if i < |INQUIRY_DATA| then INQUIRY_DATA[i] else 0
      ensures dataTransferLength == if success then Reduced(old(dataTransferLength), Min(LE16(cdb[4], cdb[3]), 36))
                                    else old(dataTransferLength)
    {
      hide And, LE16;
      var allocationLength := LE16(cdb[4], cdb[3]);
      var bytesTransferred := if allocationLength < |INQUIRY_DATA| then allocationLength else |INQUIRY_DATA|;
      OptionBits(cdb[1]);
      if And(cdb[1], 3) != 0 || cdb[2] != 0 {
        sense := SENSE_INVALID_FIELD;
        return false, [];
      }
      sent := WriteStream(INQUIRY_DATA, bytesTransferred);
      sent := NullStream(sent, allocationLength - bytesTransferred);
      dataTransferLength := Reduced(dataTransferLength, bytesTransferred);
      success := true;
    }

    method RequestSense(cdb: seq<byte>) returns (sent: seq<byte>)
      requires |cdb| == 16
      modifies this`dataTransferLength
      ensures |sent| == cdb[4] as int
      ensures forall i :: 0 <= i < |sent| ==>
                sent[i] == if i == 0 then 0x70 else if i == 2 then sense.key else if i == 7 then 0x0A
                           else if i == 12 then sense.code else 0
      ensures dataTransferLength == Reduced(old(dataTransferLength), Min(cdb[4], 18))
    {
      var allocationLength, senseData := cdb[4] as int, SenseBytes(sense);
      var bytesTransferred := if allocationLength < |senseData| then allocationLength else |senseData|;
      sent := WriteStream(senseData, bytesTransferred);
      sent := NullStream(sent, allocationLength - bytesTransferred);
      dataTransferLength := Reduced(dataTransferLength, bytesTransferred);
    }

    /** SCSI_DecodeSCSICommand */
    method Decode(c: Command) returns (success: bool, sent: seq<seq<byte>>)
      requires disk.Valid() && c.Valid()
      modifies this, disk.flash, disk.eeprom, disk.entries
      ensures disk.Valid()
      ensures disk.State() == RunWrites(disk.cfg, old(disk.State()), WritesOf(disk.cfg, c))
      ensures sense == SenseAfter(disk.cfg, c) && (success <==> sense == SENSE_GOOD)
      ensures runBootloader == if c.cdb[0] == CMD_START_STOP_UNIT then c.cdb[4] % 4 != 2 else old(runBootloader)
      ensures c.cdb[0] == CMD_READ_10 && success ==>
                && |sent| == TotalBlocks(c.cdb)
                && forall i :: 0 <= i < |sent| ==>
                     sent[i] == VirtualDisk.ReadBlock(disk.cfg, disk.State(), (BlockAddress(c.cdb) + i) % 65536)
      ensures c.cdb[0] != CMD_READ_10 ==> Concat(sent) == Description(disk.cfg, old(sense), c)
      ensures c.cdb[0] in {0x00, 0x1B, 0x1D, 0x1E, 0x2F} ==> dataTransferLength == 0
      ensures c.cdb[0] == 0x25 ==> dataTransferLength == Reduced(old(dataTransferLength), 8)
      ensures c.cdb[0] == 0x1A ==> dataTransferLength == Reduced(old(dataTransferLength), 4)
      ensures !success ==> dataTransferLength == old(dataTransferLength)
    {
      hide RunWrites, WritesOf, VirtualDisk.ReadBlock, Allocated, SenseBytes, BE32, Reduced, LE16, BlockAddress;
      success, sent := false, [];
      var op := c.cdb[0];
      NoWrites(disk.cfg, disk.State(), c);
      if op == CMD_INQUIRY {
        var bytes;
        success, bytes := Inquiry(c.cdb);
        sent := [bytes];
        OneChunk(bytes);
        InquiryBytesAt(bytes);
      } else if op == CMD_REQUEST_SENSE {
        var bytes := RequestSense(c.cdb);
        success, sent := true, [bytes];
        OneChunk(bytes);
        SenseBytesAt(old(sense), bytes);
      } else if op == CMD_READ_CAPACITY_10 {
        var bytes := BE32(disk.cfg.MediaBlocks() - 1) + BE32(SECTOR_SIZE);
        success, sent, dataTransferLength := true, [bytes], Reduced(dataTransferLength, 8);
        OneChunk(bytes);
      } else if op == CMD_WRITE_10 || op == CMD_READ_10 {
        success, sent := ReadWrite10(c, op == CMD_READ_10);
      } else if op == CMD_MODE_SENSE_6 {
        success, sent, dataTransferLength := true, [[0, 0, 0, 0]], Reduced(dataTransferLength, 4);
        OneChunk([0, 0, 0, 0]);
      } else if op == CMD_START_STOP_UNIT || op == CMD_SEND_DIAGNOSTIC || op == CMD_TEST_UNIT_READY
                || op == CMD_PREVENT_ALLOW_MEDIUM_REMOVAL || op == CMD_VERIFY_10 {
        if op == CMD_START_STOP_UNIT {
          runBootloader := c.cdb[4] % 4 != 2;
        }
        success := true;
        dataTransferLength := 0;
      } else {
        sense := SENSE_INVALID_COMMAND;
      }
      if success {
        sense := SENSE_GOOD;
      }
    }

    /** A run of commands: no flash byte above the firmware file changes. */
    method Serve(cs: seq<Command>)
      requires disk.Valid() && forall c <- cs :: c.Valid()
      modifies this, disk.flash, disk.eeprom, disk.entries
      ensures disk.Valid() && disk.State() == RunCommands(disk.cfg, old(disk.State()), cs)
      ensures disk.cfg.FlashFileSize() >= 0
      ensures disk.flash.mem[disk.cfg.FlashFileSize()..] == old(disk.flash.mem)[disk.cfg.FlashFileSize()..]
      ensures cs != [] ==> |cs[|cs| - 1].cdb| == 16 && sense == SenseAfter(disk.cfg, cs[|cs| - 1])
    {
      hide RunWrites, WritesOf, SenseAfter;
      ghost var cfg, d0 := disk.cfg, disk.State();
      assert cs[0..] == cs;
      for i := 0 to |cs|
        invariant disk.Valid() && forall c <- cs[i..] :: c.Valid()
        invariant RunCommands(cfg, disk.State(), cs[i..]) == RunCommands(cfg, d0, cs)
        invariant i > 0 ==> |cs[i - 1].cdb| == 16 && sense == SenseAfter(cfg, cs[i - 1])
      {
        assert cs[i] in cs && cs[i..][1..] == cs[i + 1..] && cs[i..][0] == cs[i];
        var _, _ := Decode(cs[i]);
      }
      assert cs[|cs|..] == [];
      CommandsKeepBootSection(cfg, d0, cs);
    }
  }

  function Min(a: nat, b: nat): (r: nat)
    ensures r <= a && r <= b && (r == a || r == b)
  {
    if a < b then a else b
  }

  /** A 32-bit transfer counter less the bytes transferred. */
  function Reduced(length: nat, n: nat): (r: nat) {
    (length + 0x1_0000_0000 - n) % 0x1_0000_0000
  }

  lemma {:induction false} OneChunk(bytes: seq<byte>)
    ensures Concat([bytes]) == bytes
  {
    assert [bytes][1..] == [];
    assert Concat([bytes]) == bytes + Concat([]);
  }

  lemma {:induction false} NoWrites(cfg: Config, d: Disk, c: Command)
    requires cfg.Valid() && d.Fits(cfg) && c.Valid()
    ensures c.cdb[0] != CMD_WRITE_10 || BlockAddress(c.cdb) >= cfg.MediaBlocks() ==>
              RunWrites(cfg, d, WritesOf(cfg, c)) == d
  {
  }
}
