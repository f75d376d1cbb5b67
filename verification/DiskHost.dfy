/** A host at the SCSI commands of the virtual disk: what the bytes of a command mean, and whole files through them. */
module DiskHost {
  import opened Bits
  import opened FlashMachine
  import opened Fat12
  import opened VirtualDisk
  import opened DiskReader
  import opened DiskRuns
  import opened DiskDevice
  import opened Scsi

  // -- Command blocks --------------------------------------------------------------------------------------------

  /** A READ(10) or WRITE(10) command block for k blocks from block n on, as the host builds it: high bytes first. */
  function Cdb10(op: byte, n: nat, k: word): (cdb: seq<byte>)
    requires n < 0x1_0000_0000
    ensures |cdb| == 16 && cdb[0] == op
  {
    [op, 0, n / 0x100_0000, n / 0x1_0000 % 256, n / 256 % 256, n % 256, 0, k / 256, k % 256, 0, 0, 0, 0, 0, 0, 0]
  }

  /** The device takes the block number modulo 65536 and the count as it is. */
  lemma {:induction false} CdbDecodes(op: byte, n: nat, k: word)
    requires n < 0x1_0000_0000
    ensures BlockAddress(Cdb10(op, n, k)) as int == n % 0x1_0000 && TotalBlocks(Cdb10(op, n, k)) == k
  {
    LowWord(n);
  }

  lemma {:induction false} LowWord(n: nat)
    ensures n % 256 + 256 * (n / 256 % 256) == n % 0x1_0000
  {
    var q, r := n / 0x1_0000, n % 0x1_0000;
    DivModUnique(n, 256, 256 * q + r / 256, r % 256);
  }

  /** So a block behind the medium is refused if and only if its number is not taken for one on it. */
  lemma {:induction false} RangeCheckIff(cfg: Config, op: byte, n: nat, k: word, sectors: seq<seq<byte>>)
    requires cfg.Valid() && n < 0x1_0000_0000
    ensures (InRange(cfg, Command(Cdb10(op, n, k), sectors)) <==> n < cfg.MediaBlocks()) <==>
            n < 0x1_0000 || n % 0x1_0000 >= cfg.MediaBlocks()
  {
    hide Cdb10, BlockAddress;
    CdbDecodes(op, n, k);
    SectorsExact(cfg);
  }

  /** How each command ends, by its code: sense key and additional code. */
  lemma {:induction false} SenseIs(cfg: Config, c: Command)
    requires cfg.Valid() && |c.cdb| == 16
    ensures var op := c.cdb[0];
            SenseAfter(cfg, c) ==
            if op in {0x00, 0x03, 0x1A, 0x1B, 0x1D, 0x1E, 0x25, 0x2F} then Sense(0, 0)
            else if op == 0x12 then
              (if And(c.cdb[1], 1) == 0 && And(c.cdb[1], 2) == 0 && c.cdb[2] == 0 then Sense(0, 0) else Sense(5, 0x24))
            else if op == 0x28 || op == 0x2A then
              (if c.cdb[5] as int + 256 * c.cdb[4] as int < cfg.MediaBlocks() then Sense(0, 0) else Sense(5, 0x21))
            else Sense(5, 0x20)
  {
    hide And, Sectors;
    TwoBits(c.cdb[1]);
  }

  lemma {:induction false} TwoBits(b: byte)
    ensures And(b, 1) == 0 && And(b, 2) == 0 <==> b % 4 == 0
  {
    assert And(b, 1) == b % 2 + 2 * And(b / 2, 0) && And(b / 2, 0) == 0;
    assert And(b, 2) == 2 * And(b / 2, 1);
    assert And(b / 2, 1) == b / 2 % 2 + 2 * And(b / 4, 0) && And(b / 4, 0) == 0;
  }

  /** What the commands send that carry no sectors. */
  lemma {:induction false} DescriptionIs(cfg: Config, sense: Sense, c: Command)
    requires cfg.Valid() && |c.cdb| == 16
    ensures var op, r := c.cdb[0], Description(cfg, sense, c);
            && (op == 0x1A ==> r == [0, 0, 0, 0])
            && (op !in {0x03, 0x12, 0x1A, 0x25} ==> r == [])
            && (op == 0x12 && SenseAfter(cfg, c) != Sense(0, 0) ==> r == [])
  {
    hide And, Sectors, BE32;
  }

  // -- Reading -----------------------------------------------------------------------------------------------------

  function ReadCommand(n: nat, k: word): (c: Command)
    requires n < 0x1_0000_0000
  {
    Command(Cdb10(0x28, n, k), [])
  }

  /** The sectors that a READ(10) command is answered with. */
  function Answer(cfg: Config, d: Disk, c: Command): (r: seq<seq<byte>>)
    requires cfg.Valid() && d.Fits(cfg) && |c.cdb| == 16
  {
    if c.cdb[0] == CMD_READ_10 && InRange(cfg, c)
    then BlocksFrom(cfg, d, BlockAddress(c.cdb), TotalBlocks(c.cdb)) else []
  }

  function BlocksFrom(cfg: Config, d: Disk, first: word, k: nat): (r: seq<seq<byte>>)
    requires cfg.Valid() && d.Fits(cfg)
    ensures |r| == k
  {
    if k == 0 then [] else BlocksFrom(cfg, d, first, k - 1) + [VirtualDisk.ReadBlock(cfg, d, (first + k - 1) % 65536)]
  }

  lemma {:induction false} BlockAt(cfg: Config, d: Disk, first: word, k: nat, i: nat)
    requires cfg.Valid() && d.Fits(cfg) && i < k
    ensures BlocksFrom(cfg, d, first, k)[i] == VirtualDisk.ReadBlock(cfg, d, (first + i) % 65536)
  {
    hide VirtualDisk.ReadBlock;
    if i < k - 1 {
      BlockAt(cfg, d, first, k - 1, i);
    }
  }

  lemma {:induction false} ConcatTwo(a: seq<seq<byte>>, b: seq<byte>)
    ensures Concat(a + [b]) == Concat(a) + b
    decreases |a|
  {
    if a == [] {
      assert a + [b] == [b] && [b][1..] == [] && Concat([b]) == b + Concat([]);
    } else {
      assert (a + [b])[1..] == a[1..] + [b];
      ConcatTwo(a[1..], b);
    }
  }

  /** A READ(10) for blocks n to n + k - 1 sends exactly those blocks, one after the other. */
  lemma {:induction false} ReadSends(cfg: Config, d: Disk, n: nat, k: word)
    requires cfg.Valid() && d.Fits(cfg) && n < cfg.MediaBlocks() && n + k as int <= 0x1_0000
    ensures |Answer(cfg, d, ReadCommand(n, k))| == k as int
    ensures forall i :: 0 <= i < k as int ==>
              Answer(cfg, d, ReadCommand(n, k))[i] == VirtualDisk.ReadBlock(cfg, d, n + i)
    ensures Concat(Answer(cfg, d, ReadCommand(n, k))) == ReadSectors(cfg, d, n, k as int)
  {
    hide VirtualDisk.ReadBlock, BlockAddress, TotalBlocks, Sectors, Cdb10, ReadSectors, BlocksFrom, Concat;
    CdbDecodes(0x28, n, k);
    SectorsExact(cfg);
    BlocksJoin(cfg, d, n, k as int);
    forall i | 0 <= i < k as int
      ensures Answer(cfg, d, ReadCommand(n, k))[i] == VirtualDisk.ReadBlock(cfg, d, n + i)
    {
      BlockAt(cfg, d, n, k as int, i);
    }
  }

  lemma {:induction false} BlocksJoin(cfg: Config, d: Disk, n: nat, k: nat)
    requires cfg.Valid() && d.Fits(cfg) && n < 0x1_0000 && n + k <= 0x1_0000
    ensures Concat(BlocksFrom(cfg, d, n, k)) == ReadSectors(cfg, d, n, k)
    decreases k
  {
    hide VirtualDisk.ReadBlock;
    if k > 0 {
      BlocksJoin(cfg, d, n, k - 1);
      ConcatTwo(BlocksFrom(cfg, d, n, k - 1), VirtualDisk.ReadBlock(cfg, d, n + k - 1));
    }
  }

  /** A run of sectors of a file, transferred by one command. */
  datatype Run = Run(first: nat, count: nat)

  /** The runs cover sectors `from` to `to` in order. */
  ghost predicate Consecutive(runs: seq<Run>, from: nat, to: nat)
    decreases |runs|
  {
    if runs == [] then from == to
    else runs[0].first == from && runs[0].count < 0x1_0000 && Consecutive(runs[1..], from + runs[0].count, to)
  }

  /** What READ(10) commands for such runs send, joined together. */
  function ReadRuns(cfg: Config, d: Disk, start: nat, runs: seq<Run>): (r: seq<byte>)
    requires cfg.Valid() && d.Fits(cfg) && forall x <- runs :: start + x.first < 0x1_0000_0000 && x.count < 0x1_0000
    decreases |runs|
  {
    if runs == [] then [] else
      assert runs[0] in runs && forall x <- runs[1..] :: x in runs;
      Concat(Answer(cfg, d, ReadCommand(start + runs[0].first, runs[0].count))) + ReadRuns(cfg, d, start, runs[1..])
  }

  lemma {:induction false} RunsBounded(runs: seq<Run>, from: nat, to: nat)
    requires Consecutive(runs, from, to)
    ensures from <= to && forall x <- runs :: x.first <= to && x.count < 0x1_0000
    decreases |runs|
  {
    if runs != [] {
      RunsBounded(runs[1..], from + runs[0].count, to);
      forall x | x in runs
        ensures x.first <= to && x.count < 0x1_0000
      {
        assert x == runs[0] || x in runs[1..];
      }
    }
  }

  lemma {:induction false} RunsRead(cfg: Config, d: Disk, start: nat, runs: seq<Run>, from: nat, to: nat)
    requires cfg.Valid() && d.Fits(cfg) && Consecutive(runs, from, to) && start + to < cfg.MediaBlocks()
    ensures forall x <- runs :: start + x.first < 0x1_0000_0000 && x.count < 0x1_0000
    ensures from <= to && start + to <= 65536
    ensures ReadRuns(cfg, d, start, runs) == ReadSectors(cfg, d, start + from, to - from)
    decreases |runs|
  {
    hide ReadRuns, ReadSectors, Sectors, Consecutive;
    SectorsExact(cfg);
    RunsBounded(runs, from, to);
    if runs == [] {
      RunsEnd(cfg, d, start, from, to);
    } else {
      var x := runs[0];
      NextRun(cfg, d, start, runs, from, to);
      RunsRead(cfg, d, start, runs[1..], from + x.count, to);
      SectorsConcat(cfg, d, start + from, x.count, to - from - x.count);
    }
  }

  lemma {:induction false} RunsEnd(cfg: Config, d: Disk, start: nat, from: nat, to: nat)
    requires cfg.Valid() && d.Fits(cfg) && Consecutive([], from, to) && start + to <= 65536
    ensures from == to && ReadRuns(cfg, d, start, []) == [] && ReadSectors(cfg, d, start + from, 0) == []
  {
    hide VirtualDisk.ReadBlock, Answer;
  }

  /** The first of several runs. */
  lemma {:induction false} NextRun(cfg: Config, d: Disk, start: nat, runs: seq<Run>, at: nat, m: nat)
    requires cfg.Valid() && d.Fits(cfg) && runs != [] && Consecutive(runs, at, m) && start + m < cfg.MediaBlocks()
    requires forall x <- runs :: start + x.first < 0x1_0000_0000 && x.count < 0x1_0000
    ensures var x := runs[0];
            && x.first == at && at + x.count <= m && Consecutive(runs[1..], at + x.count, m) && start + m <= 0x1_0000
            && (forall y <- runs[1..] :: start + y.first < 0x1_0000_0000 && y.count < 0x1_0000)
            && ReadRuns(cfg, d, start, runs) ==
               ReadSectors(cfg, d, start + x.first, x.count) + ReadRuns(cfg, d, start, runs[1..])
  {
    hide ReadSectors, Sectors, Answer, ReadCommand, Concat;
    var x := runs[0];
    SectorsExact(cfg);
    assert x in runs && forall y <- runs[1..] :: y in runs;
    RunsBounded(runs[1..], at + x.count, m);
    ReadSends(cfg, d, start + at, x.count);
  }

  /** A host that looks a file up by the FAT rules and reads its sectors with READ(10) commands gets the file. */
  lemma {:induction false} ReadsFile(cfg: Config, d: Disk, name: seq<byte>, slot: nat, runs: seq<Run>)
    requires cfg.Valid() && d.Fits(cfg) && Separate(cfg, d) && (slot == FLASH_SLOT || slot == EEPROM_SLOT)
    requires FindSlot(d.dir + Zeros(SECTOR_SIZE - DIRECTORY_SIZE), name) == slot
    requires d.FileSize(slot) <= (if slot == FLASH_SLOT then cfg.FlashFileSize() else cfg.e2end + 1)
    requires var start := DATA_START_BLOCK + (d.StartCluster(slot) as int - 2) * SECTORS_PER_CLUSTER;
             var m := Sectors(if slot == FLASH_SLOT then cfg.FlashFileSize() else cfg.e2end);
             Consecutive(runs, 0, m) && start + m < cfg.MediaBlocks()
    ensures d.StartCluster(slot) >= 2
    ensures var start := DATA_START_BLOCK + (d.StartCluster(slot) as int - 2) * SECTORS_PER_CLUSTER;
            && (forall x <- runs :: start + x.first < 0x1_0000_0000 && x.count < 0x1_0000)
            && d.FileSize(slot) <= |ReadRuns(cfg, d, start, runs)|
            && ReadRuns(cfg, d, start, runs)[..d.FileSize(slot)] == FileBytes(cfg, d, name)
  {
    hide FileBytes, FindSlot, Zeros, Clusters, Sectors, LE16, ReadSectors, ReadRuns, Consecutive;
    var content := if slot == FLASH_SLOT then d.mem else d.eeprom;
    var m := Sectors(if slot == FLASH_SLOT then cfg.FlashFileSize() else cfg.e2end);
    var start := DATA_START_BLOCK + (d.StartCluster(slot) as int - 2) * SECTORS_PER_CLUSTER;
    SectorsExact(cfg);
    RunsRead(cfg, d, start, runs, 0, m);
    WholeFile(cfg, d, slot, start, m, content);
    ReadFile(cfg, d, name, slot);
    assert content[..m * SECTOR_SIZE][..d.FileSize(slot)] == content[..d.FileSize(slot)];
  }

  // -- Writing -----------------------------------------------------------------------------------------------------

  /** The sectors of a run of a file. */
  function RunSectors(file: seq<byte>, x: Run): (r: seq<seq<byte>>)
    requires (x.first + x.count) * SECTOR_SIZE <= |file|
    ensures |r| == x.count && forall i :: 0 <= i < x.count ==> r[i] == FileSectorOf(file, x.first + i)
    decreases x.count
  {
    if x.count == 0 then [] else
      RunSectors(file, Run(x.first, x.count - 1)) + [FileSectorOf(file, x.first + x.count - 1)]
  }

  /** The WRITE(10) command for a run of a file that starts at block `start`. */
  function WriteCommand(start: nat, file: seq<byte>, x: Run): (c: Command)
    requires start + x.first < 0x1_0000_0000 && x.count < 0x1_0000 && (x.first + x.count) * SECTOR_SIZE <= |file|
    ensures |c.cdb| == 16
  {
    Command(Cdb10(0x2A, start + x.first, x.count), RunSectors(file, x))
  }

  lemma {:induction false} WriteCommandIs(cfg: Config, start: nat, file: seq<byte>, x: Run)
    requires cfg.Valid() && |file| == cfg.FlashFileSize() && x.count < 0x1_0000
    requires x.first + x.count <= Sectors(|file|) && start + Sectors(|file|) < cfg.MediaBlocks()
    ensures (x.first + x.count) * SECTOR_SIZE <= |file| && start + x.first < 0x1_0000
    ensures var c := WriteCommand(start, file, x);
            && c.Valid() && |WritesOf(cfg, c)| == x.count
            && forall i :: 0 <= i < x.count ==>
                 WritesOf(cfg, c)[i] == BlockWrite(start + x.first + i, FileSectorOf(file, x.first + i))
  {
    hide BlockAddress, TotalBlocks, Sectors, FileSectorOf, RunSectors, WritesOf;
    SectorsExact(cfg);
    CdbDecodes(0x2A, start + x.first, x.count);
    RunSectorSizes(file, x);
    var c := WriteCommand(start, file, x);
    WritesAt(cfg, c, start + x.first);
  }

  lemma {:induction false} WritesAt(cfg: Config, c: Command, n: nat)
    requires cfg.Valid() && c.Valid() && c.cdb[0] == CMD_WRITE_10 && BlockAddress(c.cdb) as int == n < cfg.MediaBlocks()
    requires n + |c.sectors| <= 0x1_0000
    ensures |WritesOf(cfg, c)| == |c.sectors|
    ensures forall i :: 0 <= i < |c.sectors| ==> WritesOf(cfg, c)[i] == BlockWrite(n + i, c.sectors[i])
  {
    hide BlockAddress, TotalBlocks, Sectors, Transfer;
  }

  lemma {:induction false} RunSectorSizes(file: seq<byte>, x: Run)
    requires (x.first + x.count) * SECTOR_SIZE <= |file|
    ensures forall s <- RunSectors(file, x) :: |s| == SECTOR_SIZE
  {
    hide FileSectorOf, RunSectors;
    forall s | s in RunSectors(file, x)
      ensures |s| == SECTOR_SIZE
    {
      var i :| 0 <= i < x.count && RunSectors(file, x)[i] == s;
    }
  }

  /** A WRITE(10) command writes its sectors behind those written before. */
  lemma {:induction false} RunWritten(cfg: Config, d: Disk, start: nat, file: seq<byte>, order: seq<nat>, x: Run,
                                      i: nat)
    requires cfg.Valid() && d.Fits(cfg) && |file| == cfg.FlashFileSize() && x.count < 0x1_0000
    requires x.first + x.count <= Sectors(|file|) && DATA_START_BLOCK <= start
    requires start + Sectors(|file|) < cfg.MediaBlocks() && start + Sectors(|file|) <= 65536
    requires (forall k <- order :: k < Sectors(|file|)) && i <= x.count
    ensures (x.first + x.count) * SECTOR_SIZE <= |file| && start + x.first < 0x1_0000
    ensures WriteCommand(start, file, x).Valid() && i <= |WritesOf(cfg, WriteCommand(start, file, x))|
    ensures forall k <- order + Range(x.first, i) :: k < Sectors(|file|)
    ensures var d1, ws := WriteSectors(cfg, d, start, file, order), WritesOf(cfg, WriteCommand(start, file, x));
            RunWrites(cfg, d1, ws[..i]) == WriteSectors(cfg, d, start, file, order + Range(x.first, i))
    decreases i
  {
    hide RunWrites, WritesOf, WriteCommand, VirtualDisk.WriteBlock, Sectors, FileSectorOf, Range, WriteSectors;
    WriteCommandIs(cfg, start, file, x);
    RangeBelow(x.first, i, order, Sectors(|file|));
    var ws, d1 := WritesOf(cfg, WriteCommand(start, file, x)), WriteSectors(cfg, d, start, file, order);
    if i == 0 {
      RangeNone(x.first);
      assert order + Range(x.first, 0) == order && ws[..0] == [];
      NoBlocks(cfg, d1);
    } else {
      RunWritten(cfg, d, start, file, order, x, i - 1);
      assert ws[..i] == ws[..i - 1] + [ws[i - 1]];
      RunWritesLast(cfg, d1, ws[..i - 1], ws[i - 1]);
      RangeLast(x.first, i);
      assert order + Range(x.first, i) == order + Range(x.first, i - 1) + [x.first + i - 1];
      SectorsLast(cfg, d, start, file, order + Range(x.first, i - 1), x.first + i - 1);
    }
  }

  lemma {:induction false} SectorsLast(cfg: Config, d: Disk, start: nat, file: seq<byte>, order: seq<nat>, k: nat)
    requires cfg.Valid() && d.Fits(cfg) && |file| == cfg.FlashFileSize()
    requires DATA_START_BLOCK <= start && start + Sectors(|file|) <= 65536
    requires forall j <- order + [k] :: j < Sectors(|file|)
    ensures (forall j <- order :: j < Sectors(|file|)) && (k + 1) * SECTOR_SIZE <= |file| && start + k < 0x1_0000
    ensures WriteSectors(cfg, d, start, file, order + [k]) ==
            VirtualDisk.WriteBlock(cfg, WriteSectors(cfg, d, start, file, order), start + k, FileSectorOf(file, k))
  {
    hide VirtualDisk.WriteBlock, Sectors, FileSectorOf;
    SectorsExact(cfg);
    assert (order + [k])[..|order|] == order && k in order + [k] && forall j <- order :: j in order + [k];
  }

  lemma {:induction false} NoBlocks(cfg: Config, d: Disk)
    requires cfg.Valid() && d.Fits(cfg)
    ensures RunWrites(cfg, d, []) == d
  {
  }

  lemma {:induction false} RangeNone(s: nat)
    ensures Range(s, 0) == []
  {
  }

  lemma {:induction false} RangeLast(s: nat, n: nat)
    requires n > 0
    ensures Range(s, n) == Range(s, n - 1) + [s + n - 1]
  {
  }

  lemma {:induction false} RangeBelow(s: nat, n: nat, order: seq<nat>, m: nat)
    requires s + n <= m && forall k <- order :: k < m
    ensures forall k <- order + Range(s, n) :: k < m
  {
    forall k | k in order + Range(s, n)
      ensures k < m
    {
      if k !in order {
        assert k in Range(s, n);
        var i :| 0 <= i < n && Range(s, n)[i] == k;
      }
    }
  }

  /** The sectors that runs transfer, in the order in which they do. */
  function OrderOf(runs: seq<Run>): (r: seq<nat>) {
    if runs == [] then [] else OrderOf(runs[..|runs| - 1]) + Range(runs[|runs| - 1].first, runs[|runs| - 1].count)
  }

  ghost predicate RunsFit(runs: seq<Run>, m: nat) {
    forall x <- runs :: x.first + x.count <= m && x.count < 0x1_0000
  }

  function WriteCommands(start: nat, file: seq<byte>, runs: seq<Run>): (cs: seq<Command>)
    requires start + |file| < 0x1_0000_0000 && RunsFit(runs, |file| / SECTOR_SIZE)
    ensures |cs| == |runs|
  {
    if runs == [] then [] else
      var n := |runs| - 1;
      assert runs[n] in runs && forall x <- runs[..n] :: x in runs;
      WriteCommands(start, file, runs[..n]) + [WriteCommand(start, file, runs[n])]
  }

  lemma {:induction false} RunCommandsLast(cfg: Config, d: Disk, cs: seq<Command>, c: Command)
    requires cfg.Valid() && d.Fits(cfg) && (forall x <- cs :: x.Valid()) && c.Valid()
    ensures forall x <- cs + [c] :: x.Valid()
    ensures RunCommands(cfg, d, cs + [c]) == RunWrites(cfg, RunCommands(cfg, d, cs), WritesOf(cfg, c))
    decreases |cs|
  {
    hide RunWrites, WritesOf;
    if cs == [] {
      assert cs + [c] == [c] && [c][1..] == [];
    } else {
      assert cs[0] in cs && forall x <- cs[1..] :: x in cs;
      assert (cs + [c])[1..] == cs[1..] + [c];
      RunCommandsLast(cfg, RunWrites(cfg, d, WritesOf(cfg, cs[0])), cs[1..], c);
    }
  }

  lemma {:induction false} CommandsWrite(cfg: Config, d: Disk, start: nat, file: seq<byte>, runs: seq<Run>)
    requires cfg.Valid() && d.Fits(cfg) && |file| == cfg.FlashFileSize() && RunsFit(runs, Sectors(|file|))
    requires DATA_START_BLOCK <= start && start + Sectors(|file|) < cfg.MediaBlocks()
    ensures start + |file| < 0x1_0000_0000 && RunsFit(runs, |file| / SECTOR_SIZE) && start + Sectors(|file|) <= 65536
    ensures forall c <- WriteCommands(start, file, runs) :: c.Valid()
    ensures forall k <- OrderOf(runs) :: k < Sectors(|file|)
    ensures RunCommands(cfg, d, WriteCommands(start, file, runs)) ==
            WriteSectors(cfg, d, start, file, OrderOf(runs))
    decreases |runs|
  {
    hide RunWrites, WritesOf, WriteCommand, WriteSectors, RunCommands, Sectors;
    FileSizes(cfg, start);
    if runs == [] {
      NothingDone(cfg, d, start, file);
    } else {
      var n := |runs| - 1;
      var x := runs[n];
      assert x in runs && forall y <- runs[..n] :: y in runs;
      CommandsWrite(cfg, d, start, file, runs[..n]);
      WriteCommandIs(cfg, start, file, x);
      var c := WriteCommand(start, file, x);
      RunCommandsLast(cfg, d, WriteCommands(start, file, runs[..n]), c);
      RunWritten(cfg, d, start, file, OrderOf(runs[..n]), x, x.count);
      assert WritesOf(cfg, c)[..x.count] == WritesOf(cfg, c);
    }
  }

  lemma {:induction false} FileSizes(cfg: Config, start: nat)
    requires cfg.Valid() && start + Sectors(cfg.FlashFileSize()) < cfg.MediaBlocks()
    ensures Sectors(cfg.FlashFileSize()) == cfg.FlashFileSize() / SECTOR_SIZE
    ensures start + cfg.FlashFileSize() < 0x1_0000_0000 && start + Sectors(cfg.FlashFileSize()) <= 65536
  {
    SectorsExact(cfg);
  }

  lemma {:induction false} NothingDone(cfg: Config, d: Disk, start: nat, file: seq<byte>)
    requires cfg.Valid() && d.Fits(cfg) && |file| == cfg.FlashFileSize()
    requires DATA_START_BLOCK <= start && start + Sectors(|file|) <= 65536
    ensures RunCommands(cfg, d, []) == d && WriteSectors(cfg, d, start, file, []) == d
  {
  }

  /**
   A host that writes all sectors of a new FLASH.BIN with WRITE(10) commands, in any order and in runs of any length,
   leaves flash equal to the file, and everything above it and the directory as they were.
   */
  lemma {:induction false} WritesFile(cfg: Config, d: Disk, file: seq<byte>, runs: seq<Run>)
    requires cfg.Valid() && d.Fits(cfg) && |file| == cfg.FlashFileSize() && RunsFit(runs, Sectors(|file|))
    requires forall k :: 0 <= k < Sectors(|file|) ==> k in OrderOf(runs)
    requires var start := FileStartBlock(d.StartCluster(FLASH_SLOT));
             DATA_START_BLOCK <= start && start as int + Sectors(|file|) < cfg.MediaBlocks()
    ensures var start := FileStartBlock(d.StartCluster(FLASH_SLOT));
            && start as int + |file| < 0x1_0000_0000 && RunsFit(runs, |file| / SECTOR_SIZE)
            && (forall c <- WriteCommands(start, file, runs) :: c.Valid())
            && var q := RunCommands(cfg, d, WriteCommands(start, file, runs));
               q.mem == Overwrite(d.mem, 0, file) && q.dir == d.dir
  {
    hide RunCommands, WriteCommands, WriteSectors, Sectors, FileStartBlock, OrderOf, Overwrite;
    var start := FileStartBlock(d.StartCluster(FLASH_SLOT));
    CommandsWrite(cfg, d, start, file, runs);
    SectorsLand(cfg, d, start, file, OrderOf(runs), 0);
    AnyOrderWrites(cfg, d, start, file, OrderOf(runs));
  }

  /** From reset both files lie on the medium, whole. */
  lemma {:induction false} FilesOnMedium(cfg: Config, d: Disk)
    requires cfg.Valid() && d.Fits(cfg) && d.dir == InitialDirectory(cfg)
    ensures d.StartCluster(FLASH_SLOT) == 2 && FileStartBlock(2) == DATA_START_BLOCK
    ensures DATA_START_BLOCK + Sectors(cfg.FlashFileSize()) < cfg.MediaBlocks()
    ensures var start := DATA_START_BLOCK + (d.StartCluster(EEPROM_SLOT) as int - 2) * SECTORS_PER_CLUSTER;
            start >= DATA_START_BLOCK && start + Sectors(cfg.e2end) < cfg.MediaBlocks()
  {
    hide InitialDirectory, FileEntry, Sectors, Clusters, FileStartBlock, LE16;
    SectorsExact(cfg);
    StartBlock(2);
    DirectoryBytes(cfg);
    SizesSmall(cfg);
    EntryDecodes(d, FLASH_SLOT, FLASH_NAME, 2, cfg.FlashFileSize());
    EntryDecodes(d, EEPROM_SLOT, EEPROM_NAME, 2 + Clusters(cfg.FlashFileSize()), cfg.e2end);
    ClustersTight(cfg.FlashFileSize());
  }

  lemma {:induction false} ClustersTight(size: nat)
    ensures SECTORS_PER_CLUSTER * Clusters(size) <= Sectors(size) + 3
  {
  }

  /**
   From reset, a host that stores a new FLASH.BIN with WRITE(10) commands and loads it with READ(10) commands gets back
   what it stored.
   */
  lemma {:induction false} StoresAndLoads(cfg: Config, d: Disk, file: seq<byte>, stores: seq<Run>, loads: seq<Run>)
    requires cfg.Valid() && d.Fits(cfg) && d.dir == InitialDirectory(cfg) && |file| == cfg.FlashFileSize()
    requires RunsFit(stores, Sectors(|file|)) && Consecutive(loads, 0, Sectors(|file|))
    requires forall k :: 0 <= k < Sectors(|file|) ==> k in OrderOf(stores)
    ensures 4 + |file| < 0x1_0000_0000 && RunsFit(stores, |file| / SECTOR_SIZE)
    ensures forall c <- WriteCommands(4, file, stores) :: c.Valid()
    ensures forall x <- loads :: 4 + x.first < 0x1_0000_0000 && x.count < 0x1_0000
    ensures ReadRuns(cfg, RunCommands(cfg, d, WriteCommands(4, file, stores)), 4, loads) == file
  {
    hide RunCommands, WriteCommands, Sectors, FileStartBlock, OrderOf, Overwrite, InitialDirectory, ReadRuns, Separate;
    hide FileBytes, FindSlot, ReadSectors, Consecutive, Clusters, LE16;
    FilesOnMedium(cfg, d);
    WritesFile(cfg, d, file, stores);
    var q := RunCommands(cfg, d, WriteCommands(4, file, stores));
    SectorsExact(cfg);
    InitialFiles(cfg, q);
    RunsRead(cfg, q, 4, loads, 0, Sectors(|file|));
    WholeFile(cfg, q, FLASH_SLOT, 4, Sectors(|file|), q.mem);
    assert q.mem[..|file|] == file;
  }

  // -- The same on the object ----------------------------------------------------------------------------------------

  /** One READ(10) command for blocks on the medium. */
  method Load(device: ScsiDevice, n: nat, k: word) returns (bytes: seq<byte>)
    requires device.disk.Valid() && n < device.disk.cfg.MediaBlocks() && n + k as int <= 0x1_0000
    modifies device, device.disk.flash, device.disk.eeprom, device.disk.entries
    ensures device.disk.Valid() && device.disk.State() == old(device.disk.State())
    ensures bytes == ReadSectors(device.disk.cfg, device.disk.State(), n, k as int)
  {
    hide VirtualDisk.ReadBlock, BlockAddress, TotalBlocks, Sectors, ReadSectors, Concat, RunWrites, WritesOf;
    hide SenseAfter, Description, Answer;
    ghost var cfg, d := device.disk.cfg, device.disk.State();
    var c := ReadCommand(n, k);
    Loadable(cfg, n, k);
    NoWrites(cfg, d, c);
    var success, sent := device.Decode(c);
    Loaded(cfg, d, n, k, sent);
    bytes := Concat(sent);
  }

  lemma {:induction false} Loadable(cfg: Config, n: nat, k: word)
    requires cfg.Valid() && n < cfg.MediaBlocks()
    ensures n < 0x1_0000
    ensures var c := ReadCommand(n, k);
            && c.Valid() && SenseAfter(cfg, c) == SENSE_GOOD
            && BlockAddress(c.cdb) as int == n && TotalBlocks(c.cdb) == k
  {
    hide BlockAddress, TotalBlocks, Sectors, Cdb10;
    SectorsExact(cfg);
    CdbDecodes(0x28, n, k);
  }

  lemma {:induction false} Loaded(cfg: Config, d: Disk, n: nat, k: word, sent: seq<seq<byte>>)
    requires cfg.Valid() && d.Fits(cfg) && n < cfg.MediaBlocks() && n + k as int <= 0x1_0000 && |sent| == k as int
    requires forall i :: 0 <= i < |sent| ==> sent[i] == VirtualDisk.ReadBlock(cfg, d, (n + i) % 65536)
    ensures Concat(sent) == ReadSectors(cfg, d, n, k as int)
  {
    hide VirtualDisk.ReadBlock, Sectors, ReadSectors, Concat, Answer;
    ReadSends(cfg, d, n, k);
    assert sent == Answer(cfg, d, ReadCommand(n, k));
  }

  /** Storing a new FLASH.BIN after reset and loading it again, in any commands that cover it. */
  method StoreAndLoad(device: ScsiDevice, file: seq<byte>, stores: seq<Run>, loads: seq<Run>) returns (got: seq<byte>)
    requires device.disk.Valid() && |file| == device.disk.cfg.FlashFileSize()
    requires device.disk.State().dir == InitialDirectory(device.disk.cfg)
    requires RunsFit(stores, Sectors(|file|)) && Consecutive(loads, 0, Sectors(|file|))
    requires forall k :: 0 <= k < Sectors(|file|) ==> k in OrderOf(stores)
    modifies device, device.disk.flash, device.disk.eeprom, device.disk.entries
    ensures device.disk.Valid() && |file| <= |old(device.disk.flash.mem)|
    ensures device.disk.flash.mem == Overwrite(old(device.disk.flash.mem), 0, file)
    ensures got == file
  {
    hide RunCommands, WriteCommands, Sectors, FileStartBlock, OrderOf, Overwrite, InitialDirectory, ReadRuns;
    hide SenseAfter, Consecutive, ReadSectors;
    ghost var cfg, d := device.disk.cfg, device.disk.State();
    FilesOnMedium(cfg, d);
    WritesFile(cfg, d, file, stores);
    StoresAndLoads(cfg, d, file, stores, loads);
    device.Serve(WriteCommands(4, file, stores));
    ghost var q, m := device.disk.State(), Sectors(|file|);
    got := [];
    ghost var at := 0;
    assert loads[0..] == loads;
    for i := 0 to |loads|
      invariant device.disk.Valid() && device.disk.State() == q
      invariant 0 <= at <= m && Consecutive(loads[i..], at, m)
      invariant forall x <- loads[i..] :: 4 + x.first < 0x1_0000_0000 && x.count < 0x1_0000
      invariant got + ReadRuns(cfg, q, 4, loads[i..]) == file
    {
      NextRun(cfg, q, 4, loads[i..], at, m);
      assert loads[i..][0] == loads[i] && loads[i..][1..] == loads[i + 1..];
      var bytes := Load(device, 4 + loads[i].first, loads[i].count);
      got := got + bytes;
      at := at + loads[i].count;
    }
    FileSizes(cfg, 4);
    assert loads[|loads|..] == [];
    RunsEnd(cfg, q, 4, at, m);
  }
}
