/** Whole sessions with the virtual disk: from its initial directory, and over any writes. */
module DiskRuns {
  import opened Bits
  import opened FlashMachine
  import opened Fat12
  import opened VirtualDisk
  import opened DiskReader

  // -- The initial directory ------------------------------------------------------------------------

  function Rot8(x: byte): (r: byte) {
    x / 2 + if x % 2 == 1 then 128 else 0
  }

  /** FAT_CHECKSUM of an 8.3 name. */
  function LfnChecksum(name: seq<byte>): (r: byte) {
    if name == [] then 0 else (Rot8(LfnChecksum(name[..|name| - 1])) + name[|name| - 1]) % 256
  }

  function FileEntry(name: seq<byte>, cluster: nat, size: nat): (r: seq<byte>)
    requires |name| == 11
    ensures |r| == 32
  {
    name + [0, 0, 0, 0, 0, 0, 0, 0, 0, 0, 0, 0x20, 0x08, 0x4E, 0x12, cluster % 256, cluster / 256 % 256,
            size % 256, size / 256 % 256, size / 65536 % 256, size / 0x100_0000 % 256]
  }

  /** FirmwareFileEntries at reset. */
  function InitialDirectory(cfg: Config): (r: seq<byte>)
    requires cfg.FlashFileSize() >= 0
    ensures |r| == DIRECTORY_SIZE
  {
    [0x4C, 0x55, 0x46, 0x41, 0x20, 0x42, 0x4F, 0x4F, 0x54, 0x20, 0x20, 0x08,            // "LUFA BOOT  "
     0, 0, 0, 0, 0, 0, 0, 0, 0, 0, 0, 0, 0, 0, 0, 0, 0, 0, 0, 0]
    + ([0x41, 0x46, 0, 0x4C, 0, 0x41, 0, 0x53, 0, 0x48, 0, 0x0F, 0, LfnChecksum(FLASH_NAME), // FLASH.BIN
        0x2E, 0, 0x42, 0, 0x49, 0, 0x4E, 0, 0, 0, 0, 0, 0, 0, 0, 0, 0, 0]
    + (FileEntry(FLASH_NAME, 2, cfg.FlashFileSize())
    + ([0x41, 0x45, 0, 0x45, 0, 0x50, 0, 0x52, 0, 0x4F, 0, 0x0F, 0, LfnChecksum(EEPROM_NAME), // EEPROM.BIN
        0x4D, 0, 0x2E, 0, 0x42, 0, 0x49, 0, 0x4E, 0, 0, 0, 0, 0, 0, 0, 0, 0]
    + FileEntry(EEPROM_NAME, 2 + Clusters(cfg.FlashFileSize()), cfg.e2end))))
  }

  lemma {:induction false} DirectoryBytes(cfg: Config)
    requires cfg.FlashFileSize() >= 0
    ensures var dir := InitialDirectory(cfg);
            && dir[0] == 0x4C && dir[32] == 0x41 && dir[96] == 0x41
            && dir[64..96] == FileEntry(FLASH_NAME, 2, cfg.FlashFileSize())
            && dir[128..160] == FileEntry(EEPROM_NAME, 2 + Clusters(cfg.FlashFileSize()), cfg.e2end)
  {
    hide LfnChecksum, Clusters, FileEntry;
  }

  lemma {:induction false} LfnStep(name: seq<byte>, c: byte)
    ensures LfnChecksum(name + [c]) == (Rot8(LfnChecksum(name)) + c) % 256
  {
    assert (name + [c])[..|name|] == name;
  }

  lemma {:induction false} LfnSteps(a: seq<byte>, v: byte, c: byte, d: byte, e: byte, v1: byte, v2: byte, v3: byte)
    requires LfnChecksum(a) == v && v1 == (Rot8(v) + c) % 256 && v2 == (Rot8(v1) + d) % 256
    requires v3 == (Rot8(v2) + e) % 256
    ensures LfnChecksum(a + [c, d, e]) == v3
  {
    hide LfnChecksum, Rot8;
    LfnStep(a, c);
    LfnStep(a + [c], d);
    LfnStep(a + [c] + [d], e);
    assert a + [c, d, e] == a + [c] + [d] + [e];
  }

  lemma {:induction false} LfnTwo(c: byte, d: byte, v: byte)
    requires v == (Rot8(c) + d) % 256
    ensures LfnChecksum([c, d]) == v
  {
    hide LfnChecksum, Rot8;
    LfnOne(c);
    LfnStep([c], d);
    assert [c] + [d] == [c, d];
  }

  /** The checksum of FLASH.BIN as a short name. */
  lemma {:induction false} FlashLfn()
    ensures LfnChecksum(FLASH_NAME) == 0x26
  {
    hide LfnChecksum;
    var a: seq<byte> := [0x46, 0x4C];
    var b := a + [0x41, 0x53, 0x48];
    LfnTwo(0x46, 0x4C, 111);
    LfnSteps(a, 111, 0x41, 0x53, 0x48, 248, 207, 47);
    LfnSteps(b, 47, 0x20, 0x20, 0x20, 183, 251, 29);
    LfnSteps(b + [0x20, 0x20, 0x20], 29, 0x42, 0x49, 0x4E, 208, 177, 38);
    assert FLASH_NAME == b + [0x20, 0x20, 0x20] + [0x42, 0x49, 0x4E];
  }

  /** The checksum of EEPROM.BIN as a short name. */
  lemma {:induction false} EepromLfn()
    ensures LfnChecksum(EEPROM_NAME) == 0x14
  {
    hide LfnChecksum;
    var a: seq<byte> := [0x45, 0x45];
    var b := a + [0x50, 0x52, 0x4F];
    LfnTwo(0x45, 0x45, 231);
    LfnSteps(a, 231, 0x50, 0x52, 0x4F, 67, 243, 72);
    LfnSteps(b, 72, 0x4D, 0x20, 0x20, 113, 216, 140);
    LfnSteps(b + [0x4D, 0x20, 0x20], 140, 0x42, 0x49, 0x4E, 136, 141, 20);
    assert EEPROM_NAME == b + [0x4D, 0x20, 0x20] + [0x42, 0x49, 0x4E];
  }

  lemma {:induction false} LfnOne(c: byte)
    ensures LfnChecksum([c]) == c
  {
    assert [c][..0] == [];
  }

  /** The characters of a long-name entry, by the VFAT layout. */
  function LongName(e: seq<byte>): (r: seq<byte>)
    requires |e| == 32
  {
    [e[1], e[3], e[5], e[7], e[9], e[14], e[16], e[18], e[20], e[22], e[24], e[28], e[30]]
  }

  /** The two long-name entries at reset: the only one of its file, marked as such, with name and checksum. */
  lemma {:induction false} LongNames(cfg: Config)
    requires cfg.FlashFileSize() >= 0
    ensures var dir := InitialDirectory(cfg);
            && dir[32] == 0x41 && dir[43] == 0x0F && dir[45] == 0x26
            && LongName(dir[32..64]) == [0x46, 0x4C, 0x41, 0x53, 0x48, 0x2E, 0x42, 0x49, 0x4E, 0, 0, 0, 0]
            && dir[96] == 0x41 && dir[107] == 0x0F && dir[109] == 0x14
            && LongName(dir[96..128]) == [0x45, 0x45, 0x50, 0x52, 0x4F, 0x4D, 0x2E, 0x42, 0x49, 0x4E, 0, 0, 0]
  {
    hide LfnChecksum, Clusters, FileEntry;
    FlashLfn();
    EepromLfn();
    var dir := InitialDirectory(cfg);
    assert dir[32..64] == [0x41, 0x46, 0, 0x4C, 0, 0x41, 0, 0x53, 0, 0x48, 0, 0x0F, 0, 0x26,
                           0x2E, 0, 0x42, 0, 0x49, 0, 0x4E, 0, 0, 0, 0, 0, 0, 0, 0, 0, 0, 0];
    assert dir[96..128] == [0x41, 0x45, 0, 0x45, 0, 0x50, 0, 0x52, 0, 0x4F, 0, 0x0F, 0, 0x14,
                            0x4D, 0, 0x2E, 0, 0x42, 0, 0x49, 0, 0x4E, 0, 0, 0, 0, 0, 0, 0, 0, 0];
    assert dir[32] == dir[32..64][0] && dir[43] == dir[32..64][11] && dir[45] == dir[32..64][13];
    assert dir[96] == dir[96..128][0] && dir[107] == dir[96..128][11] && dir[109] == dir[96..128][13];
  }

  /** What a directory says of an entry it holds. */
  lemma {:induction false} EntryDecodes(d: Disk, slot: nat, name: seq<byte>, cluster: nat, size: nat)
    requires |d.dir| == DIRECTORY_SIZE && slot < 5 && |name| == 11 && cluster < 65536 && size < 0x1_0000_0000
    requires d.dir[32 * slot..32 * slot + 32] == FileEntry(name, cluster, size)
    ensures d.StartCluster(slot) == cluster && d.FileSize(slot) == size
    ensures d.dir[32 * slot..32 * slot + 11] == name
  {
    hide LE16;
    var e := FileEntry(name, cluster, size);
    SizeDigits(size);
    ClusterDigits(cluster);
    assert e[26] == cluster % 256 && e[27] == cluster / 256 % 256;
    assert e[28] == size % 256 && e[29] == size / 256 % 256;
    assert e[30] == size / 65536 % 256 && e[31] == size / 0x100_0000 % 256;
    var b := 32 * slot;
    var q := d.dir[b..b + 32];
    assert q[26] == d.dir[b + 26] && q[27] == d.dir[b + 27];
    assert q[28] == d.dir[b + 28] && q[29] == d.dir[b + 29] && q[30] == d.dir[b + 30] && q[31] == d.dir[b + 31];
    assert e[..11] == name && q[..11] == d.dir[b..b + 11];
  }

  lemma {:induction false} ClusterDigits(c: nat)
    requires c < 65536
    ensures LE16(c % 256, c / 256 % 256) == c
  {
  }

  lemma {:induction false} SizeDigits(n: nat)
    requires n < 0x1_0000_0000
    ensures LE16(n % 256, n / 256 % 256) + 65536 * (LE16(n / 65536 % 256, n / 0x100_0000 % 256) as int) == n
  {
    var hi := n / 65536;
    assert n / 0x100_0000 == hi / 256;
    assert LE16(hi % 256, hi / 256 % 256) == hi;
    assert LE16(n % 256, n / 256 % 256) == n % 65536;
  }

  lemma {:induction false} FirstByteDiffers(root: seq<byte>, name: seq<byte>, k: nat)
    requires |root| == SECTOR_SIZE && k < 16 && |name| == 11 && root[32 * k] != name[0]
    ensures FindSlot(root, name, k) == FindSlot(root, name, k + 1)
  {
    assert root[32 * k..32 * k + 11][0] == root[32 * k];
  }

  /** At reset the two files are found in the slots the bootloader relies on, whole and apart. */
  lemma {:induction false} InitialFiles(cfg: Config, d: Disk)
    requires cfg.Valid() && d.Fits(cfg) && d.dir == InitialDirectory(cfg)
    ensures Separate(cfg, d)
    ensures d.FileSize(FLASH_SLOT) == cfg.FlashFileSize() && d.FileSize(EEPROM_SLOT) == cfg.e2end
    ensures var root := d.dir + Zeros(SECTOR_SIZE - DIRECTORY_SIZE);
            FindSlot(root, FLASH_NAME) == FLASH_SLOT && FindSlot(root, EEPROM_NAME) == EEPROM_SLOT
  {
    hide InitialDirectory, Clusters, FileEntry, FindSlot, Zeros;
    var root := d.dir + Zeros(SECTOR_SIZE - DIRECTORY_SIZE);
    DirectoryBytes(cfg);
    SizesSmall(cfg);
    EntryDecodes(d, FLASH_SLOT, FLASH_NAME, 2, cfg.FlashFileSize());
    EntryDecodes(d, EEPROM_SLOT, EEPROM_NAME, 2 + Clusters(cfg.FlashFileSize()), cfg.e2end);
    assert root[64..75] == d.dir[64..75] && root[128..139] == d.dir[128..139];
    assert root[64] == root[64..75][0];
    FirstByteDiffers(root, FLASH_NAME, 0);
    FirstByteDiffers(root, FLASH_NAME, 1);
    FirstByteDiffers(root, EEPROM_NAME, 0);
    FirstByteDiffers(root, EEPROM_NAME, 1);
    FirstByteDiffers(root, EEPROM_NAME, 2);
    FirstByteDiffers(root, EEPROM_NAME, 3);
    SlotFound(root, FLASH_NAME, 2);
    SlotFound(root, EEPROM_NAME, 4);
  }

  lemma {:induction false} SlotFound(root: seq<byte>, name: seq<byte>, k: nat)
    requires |root| == SECTOR_SIZE && k < 16 && root[32 * k..32 * k + 11] == name
    ensures FindSlot(root, name, k) == k
  {
  }

  lemma {:induction false} SizesSmall(cfg: Config)
    requires cfg.Valid()
    ensures cfg.e2end < 0x1_0000_0000 && cfg.FlashFileSize() < 0x1_0000_0000
    ensures 2 + Clusters(cfg.FlashFileSize()) + Clusters(cfg.e2end) <= 171
  {
  }

  /** After reset, a host that reads FLASH.BIN and EEPROM.BIN gets the flash below the boot section and the EEPROM. */
  lemma {:induction false} InitialContents(cfg: Config, d: Disk)
    requires cfg.Valid() && d.Fits(cfg) && d.dir == InitialDirectory(cfg)
    ensures FileBytes(cfg, d, FLASH_NAME) == d.mem[..cfg.FlashFileSize()]
    ensures FileBytes(cfg, d, EEPROM_NAME) == d.eeprom[..cfg.e2end]
  {
    hide InitialDirectory, FileBytes, Separate, FindSlot;
    InitialFiles(cfg, d);
    ReadFile(cfg, d, FLASH_NAME, FLASH_SLOT);
    ReadFile(cfg, d, EEPROM_NAME, EEPROM_SLOT);
  }

  // -- Writing the flash file -------------------------------------------------------------------------

  function FileSectorOf(file: seq<byte>, k: nat): (r: seq<byte>)
    requires (k + 1) * SECTOR_SIZE <= |file|
    ensures |r| == SECTOR_SIZE
  {
    file[k * SECTOR_SIZE..(k + 1) * SECTOR_SIZE]
  }

  /** A host that writes sectors of a new FLASH.BIN in the order it likes. */
  function WriteSectors(cfg: Config, d: Disk, first: nat, file: seq<byte>, order: seq<nat>): (r: Disk)
    requires cfg.Valid() && d.Fits(cfg) && |file| == cfg.FlashFileSize()
    requires DATA_START_BLOCK <= first && first + Sectors(|file|) <= 65536
    requires forall k <- order :: k < Sectors(|file|)
    ensures r.Fits(cfg)
    decreases |order|
  {
    if order == [] then d else
      var n := |order| - 1;
      SectorsExact(cfg);
      assert order[n] in order && forall k <- order[..n] :: k in order;
      WriteBlock(cfg, WriteSectors(cfg, d, first, file, order[..n]), first + order[n], FileSectorOf(file, order[n]))
  }

  /** One sector of the flash file, written in place. */
  lemma {:induction false} SectorLands(cfg: Config, d: Disk, first: nat, k: nat, data: seq<byte>)
    requires cfg.Valid() && d.Fits(cfg) && |data| == SECTOR_SIZE && k < Sectors(cfg.FlashFileSize())
    requires DATA_START_BLOCK <= first == FileStartBlock(d.StartCluster(FLASH_SLOT))
    requires first + Sectors(cfg.FlashFileSize()) <= 65536
    ensures var r := WriteBlock(cfg, d, first + k, data);
            && (k + 1) * SECTOR_SIZE <= cfg.FlashFileSize()
            && r.dir == d.dir && r.mem == Overwrite(d.mem, k * SECTOR_SIZE, data)
  {
    hide FileStartBlock, Sectors, Overwrite;
    SectorsExact(cfg);
    FileBounds(cfg, d, first + k);
  }

  lemma {:induction false} SectorsLand(cfg: Config, d: Disk, first: nat, file: seq<byte>, order: seq<nat>, i: nat)
    requires cfg.Valid() && d.Fits(cfg) && |file| == cfg.FlashFileSize() && i < cfg.chip.flashSize
    requires DATA_START_BLOCK <= first == FileStartBlock(d.StartCluster(FLASH_SLOT)) && first + Sectors(|file|) <= 65536
    requires forall k <- order :: k < Sectors(|file|)
    ensures var r := WriteSectors(cfg, d, first, file, order);
            && r.dir == d.dir
            && (i < |file| && i / SECTOR_SIZE in order ==> r.mem[i] == file[i])
            && (i / SECTOR_SIZE !in order ==> r.mem[i] == d.mem[i])
    decreases |order|
  {
    hide FileStartBlock, Sectors, WriteBlock;
    SectorsExact(cfg);
    if order != [] {
      var n := |order| - 1;
      assert order[n] in order && forall k <- order[..n] :: k in order;
      SectorsLand(cfg, d, first, file, order[..n], i);
      var k, mid := order[n], WriteSectors(cfg, d, first, file, order[..n]);
      assert i / SECTOR_SIZE in order <==> i / SECTOR_SIZE in order[..n] || i / SECTOR_SIZE == k by {
        assert order == order[..n] + [k];
      }
      SectorLands(cfg, mid, first, k, FileSectorOf(file, k));
      assert i / SECTOR_SIZE == k <==> k * SECTOR_SIZE <= i < k * SECTOR_SIZE + SECTOR_SIZE;
    }
  }

  /**
   Wherever the directory puts the file, writing all its sectors in any order and any number of times
   leaves flash equal to the file and everything above it as it was.
   */
  lemma {:induction false} AnyOrderWrites(cfg: Config, d: Disk, first: nat, file: seq<byte>, order: seq<nat>)
    requires cfg.Valid() && d.Fits(cfg) && |file| == cfg.FlashFileSize()
    requires DATA_START_BLOCK <= first == FileStartBlock(d.StartCluster(FLASH_SLOT)) && first + Sectors(|file|) <= 65536
    requires forall k <- order :: k < Sectors(|file|)
    requires forall k :: 0 <= k < Sectors(|file|) ==> k in order
    ensures WriteSectors(cfg, d, first, file, order).mem == Overwrite(d.mem, 0, file)
  {
    hide WriteSectors, FileStartBlock;
    SectorsExact(cfg);
    var mem := WriteSectors(cfg, d, first, file, order).mem;
    forall i | 0 <= i < |mem|
      ensures mem[i] == Overwrite(d.mem, 0, file)[i]
    {
      SectorsLand(cfg, d, first, file, order, i);
    }
  }

  /**
   A host that reads FLASH.BIN by the FAT rules after writing all its sectors, in any order, gets back what it wrote.
   */
  lemma {:induction false} WrittenFileReadsBack(cfg: Config, d: Disk, name: seq<byte>, file: seq<byte>, order: seq<nat>)
    requires cfg.Valid() && d.Fits(cfg) && Separate(cfg, d) && |file| == cfg.FlashFileSize()
    requires FindSlot(d.dir + Zeros(SECTOR_SIZE - DIRECTORY_SIZE), name) == FLASH_SLOT
    requires d.FileSize(FLASH_SLOT) == |file|
    requires forall k <- order :: k < Sectors(|file|)
    requires forall k :: 0 <= k < Sectors(|file|) ==> k in order
    ensures var first := FileStartBlock(d.StartCluster(FLASH_SLOT));
            && DATA_START_BLOCK <= first && first + Sectors(|file|) <= 65536
            && FileBytes(cfg, WriteSectors(cfg, d, first, file, order), name) == file
  {
    hide WriteSectors, FileStartBlock, FindSlot, FileBytes, Sectors, Zeros, LE16, Overwrite, Clusters;
    var c := d.StartCluster(FLASH_SLOT);
    StartBlock(c);
    SectorsExact(cfg);
    ClustersCover(|file|);
    var first := FileStartBlock(c);
    var q := WriteSectors(cfg, d, first, file, order);
    SectorsLand(cfg, d, first, file, order, 0);
    AnyOrderWrites(cfg, d, first, file, order);
    ReadFile(cfg, q, name, FLASH_SLOT);
    assert q.mem[..|file|] == file;
  }

  // -- Any run ------------------------------------------------------------------------------------------

  datatype BlockWrite = BlockWrite(block: word, data: seq<byte>)

  function RunWrites(cfg: Config, d: Disk, ws: seq<BlockWrite>): (r: Disk)
    requires cfg.Valid() && d.Fits(cfg) && forall w <- ws :: |w.data| == SECTOR_SIZE
    ensures r.Fits(cfg)
    decreases |ws|
  {
    if ws == [] then d else
      assert ws[0] in ws && forall w <- ws[1..] :: w in ws;
      RunWrites(cfg, WriteBlock(cfg, d, ws[0].block, ws[0].data), ws[1..])
  }

  /** No sequence of block writes, however it rewrites the directory, reaches flash above the file. */
  lemma {:induction false} FlashAboveFileKept(cfg: Config, d: Disk, ws: seq<BlockWrite>)
    requires cfg.Valid() && d.Fits(cfg) && forall w <- ws :: |w.data| == SECTOR_SIZE
    ensures RunWrites(cfg, d, ws).mem[cfg.FlashFileSize()..] == d.mem[cfg.FlashFileSize()..]
    decreases |ws|
  {
    hide FileStartBlock, Sectors, InFlashFile, InEepromFile;
    if ws != [] {
      assert ws[0] in ws && forall w <- ws[1..] :: w in ws;
      FileBounds(cfg, d, ws[0].block);
      var d1 := WriteBlock(cfg, d, ws[0].block, ws[0].data);
      assert d1.mem[cfg.FlashFileSize()..] == d.mem[cfg.FlashFileSize()..];
      FlashAboveFileKept(cfg, d1, ws[1..]);
    }
  }

  /** Blocks belong to the flash file if and only if its block range does not wrap around in 16 bits. */
  lemma {:induction false} FileReachableIff(cfg: Config, d: Disk)
    requires cfg.Valid() && d.Fits(cfg)
    ensures (exists n: word :: InFlashFile(cfg, d, n)) <==>
            FileStartBlock(d.StartCluster(FLASH_SLOT)) + Sectors(cfg.FlashFileSize()) <= 65536
  {
    hide FileStartBlock, Sectors, LE16;
    SectorsExact(cfg);
    var start := FileStartBlock(d.StartCluster(FLASH_SLOT));
    if start + Sectors(cfg.FlashFileSize()) <= 65536 {
      assert InFlashFile(cfg, d, start);
    }
  }

  /** If it wraps, no write to any block but the directory reaches flash. */
  lemma {:induction false} WrappedFileKept(cfg: Config, d: Disk, ws: seq<BlockWrite>)
    requires cfg.Valid() && d.Fits(cfg) && forall w <- ws :: |w.data| == SECTOR_SIZE && w.block != ROOT_BLOCK
    requires FileStartBlock(d.StartCluster(FLASH_SLOT)) + Sectors(cfg.FlashFileSize()) > 65536
    ensures RunWrites(cfg, d, ws).mem == d.mem
    decreases |ws|
  {
    hide FileStartBlock, Sectors, LE16, InFlashFile, InEepromFile;
    if ws != [] {
      assert ws[0] in ws && forall w <- ws[1..] :: w in ws;
      FileReachableIff(cfg, d);
      WrappedFileKept(cfg, WriteBlock(cfg, d, ws[0].block, ws[0].data), ws[1..]);
    }
  }
}
