/**
 A host reading the virtual disk by the rules of the FAT specification alone: geometry from the
 boot sector, name, start cluster and size from the root directory, then the allocation chain.
 */
module DiskReader {
  import opened Bits
  import opened FlashMachine
  import opened Fat12
  import opened VirtualDisk

  const FLASH_NAME: seq<byte> := [0x46, 0x4C, 0x41, 0x53, 0x48, 0x20, 0x20, 0x20, 0x42, 0x49, 0x4E]
  const EEPROM_NAME: seq<byte> := [0x45, 0x45, 0x50, 0x52, 0x4F, 0x4D, 0x20, 0x20, 0x42, 0x49, 0x4E]

  datatype Layout = Layout(fatStart: nat, rootStart: nat, dataStart: nat, perCluster: nat)

  function LayoutOf(boot: seq<byte>): (l: Layout)
    requires |boot| == SECTOR_SIZE && LE16(boot[11], boot[12]) > 0
  {
    var bytesPerSector: nat := LE16(boot[11], boot[12]);
    var reserved: nat := LE16(boot[14], boot[15]);
    var copies: nat := boot[16];
    var perFat: nat := LE16(boot[22], boot[23]);
    var rootEntries: nat := LE16(boot[17], boot[18]);
    var rootStart := reserved + Times(copies, perFat);
    Layout(reserved, rootStart, rootStart + SectorsFor(rootEntries * 32, bytesPerSector), boot[13])
  }

  function Times(a: nat, b: nat): (n: nat) {
    a * b
  }

  /** The sectors that n bytes take. */
  function SectorsFor(n: nat, bytesPerSector: nat): (s: nat)
    requires bytesPerSector > 0
  {
    (n + bytesPerSector - 1) / bytesPerSector
  }

  const DISK_LAYOUT := Layout(FAT_BLOCK_1, ROOT_BLOCK, DATA_START_BLOCK, SECTORS_PER_CLUSTER)

  lemma {:induction false} DiskLayout(cfg: Config)
    requires cfg.Valid()
    ensures var boot := BootSector(cfg);
            && LE16(boot[11], boot[12]) > 0
            && LayoutOf(boot) == DISK_LAYOUT
  {
    hide BootSector;
    BootBytes(cfg);
  }

  /** The fields of the boot sector that a reader needs. */
  lemma {:induction false} BootBytes(cfg: Config)
    requires cfg.Valid()
    ensures var boot := BootSector(cfg);
            && boot[11] == 0 && boot[12] == 2 && boot[13] == 4 && boot[14] == 1 && boot[15] == 0 && boot[16] == 2
            && boot[17] == 16 && boot[18] == 0 && boot[22] == 1 && boot[23] == 0
  {
    hide BootSector;
    BootByte(cfg, 0);
    BootByte(cfg, 1);
    BootByte(cfg, 2);
    BootByte(cfg, 3);
    BootByte(cfg, 4);
    BootByte(cfg, 5);
    BootByte(cfg, 6);
    BootByte(cfg, 7);
    BootByte(cfg, 11);
    BootByte(cfg, 12);
  }

  lemma {:induction false} BootByte(cfg: Config, i: nat)
    requires cfg.Valid() && i < 25
    ensures BootSector(cfg)[11 + i] == Geometry(cfg.MediaBlocks())[i]
  {
    hide Geometry, Zeros;
  }

  /** The first root directory entry with this name, 16 if there is none. */
  function FindSlot(root: seq<byte>, name: seq<byte>, k: nat := 0): (r: nat)
    requires |root| == SECTOR_SIZE && k <= 16
    ensures r <= 16
    decreases 16 - k
  {
    if k == 16 || root[32 * k..32 * k + 11] == name then k else FindSlot(root, name, k + 1)
  }

  function ReadSectors(cfg: Config, d: Disk, first: nat, count: nat): (r: seq<byte>)
    requires cfg.Valid() && d.Fits(cfg) && first + count <= 65536
    ensures |r| == count * SECTOR_SIZE
  {
    if count == 0 then [] else ReadSectors(cfg, d, first, count - 1) + ReadBlock(cfg, d, first + count - 1)
  }

  ghost predicate InTable(clusters: seq<nat>) {
    forall i :: 0 <= i < |clusters| ==> 2 <= clusters[i] < TABLE_ENTRIES
  }

  function ReadClusters(cfg: Config, d: Disk, l: Layout, clusters: seq<nat>): (r: seq<byte>)
    requires cfg.Valid() && d.Fits(cfg) && InTable(clusters)
    requires l.dataStart + TABLE_ENTRIES * l.perCluster <= 65536
    decreases |clusters|
  {
    if clusters == [] then [] else
      ClusterFits(clusters[0], l.dataStart, l.perCluster);
      ReadSectors(cfg, d, l.dataStart + (clusters[0] - 2) * l.perCluster, l.perCluster)
      + ReadClusters(cfg, d, l, clusters[1..])
  }

  lemma {:induction false} ClusterFits(c: nat, start: nat, per: nat)
    requires 2 <= c < TABLE_ENTRIES && start + TABLE_ENTRIES * per <= 65536
    ensures 0 <= (c - 2) * per && start + (c - 2) * per + per <= 65536
  {
    assert (TABLE_ENTRIES - (c - 1)) * per >= 0;
    assert (c - 2) * per + per == (c - 1) * per;
  }

  lemma {:induction false} FollowInTable(t: seq<byte>, c: nat, fuel: nat)
    requires |t| == SECTOR_SIZE
    ensures InTable(Follow(t, c, fuel))
    decreases fuel
  {
    hide Entry;
    if fuel > 0 && 2 <= c < TABLE_ENTRIES && Entry(t, c) < 0xFF8 {
      FollowInTable(t, Entry(t, c), fuel - 1);
    }
  }

  /** The contents of a file, as the host reads them. */
  function FileBytes(cfg: Config, d: Disk, name: seq<byte>): (r: seq<byte>)
    requires cfg.Valid() && d.Fits(cfg)
  {
    var l := (DiskLayout(cfg); LayoutOf(ReadBlock(cfg, d, BOOT_BLOCK)));
    var fat, root := ReadBlock(cfg, d, l.fatStart), ReadBlock(cfg, d, l.rootStart);
    var slot := FindSlot(root, name);
    if slot == 16 then [] else
      var start: nat := LE16(root[32 * slot + 26], root[32 * slot + 27]);
      var low: nat := LE16(root[32 * slot + 28], root[32 * slot + 29]);
      var high: nat := LE16(root[32 * slot + 30], root[32 * slot + 31]);
      var chain := Follow(fat, start, TABLE_ENTRIES);
      FollowInTable(fat, start, TABLE_ENTRIES);
      var data := ReadClusters(cfg, d, l, chain);
      if low + 65536 * high <= |data| then data[..low + 65536 * high] else data
  }

  /** Both files lie within the 8-bit reach of the table updates and do not overlap. */
  ghost predicate Separate(cfg: Config, d: Disk)
    requires cfg.Valid() && d.Fits(cfg)
  {
    var fs, fn := d.StartCluster(FLASH_SLOT) as int, Clusters(cfg.FlashFileSize());
    var es, en := d.StartCluster(EEPROM_SLOT) as int, Clusters(cfg.e2end);
    && 2 <= fs && fs + fn <= 171 && 2 <= es && es + en <= 171
    && (fs + fn <= es || es + en <= fs)
  }

  lemma {:induction false} FatChains(cfg: Config, d: Disk, j: nat)
    requires cfg.Valid() && d.Fits(cfg) && Separate(cfg, d)
    ensures var fs, fn := d.StartCluster(FLASH_SLOT) as int, Clusters(cfg.FlashFileSize());
            var es, en := d.StartCluster(EEPROM_SLOT) as int, Clusters(cfg.e2end);
            && (fs <= j < fs + fn ==> Entry(FatSector(cfg, d), j) == ChainValue(fs, fn, j))
            && (es <= j < es + en ==> Entry(FatSector(cfg, d), j) == ChainValue(es, en, j))
  {
    hide UpdateChain, UpdateEntry, Entry, Clusters, Zeros, LE16;
    var t0 := UpdateEntry(UpdateEntry(Zeros(SECTOR_SIZE), 0, 0xFF8), 1, 0xFFF);
    TwoChains(t0, d.StartCluster(FLASH_SLOT), Clusters(cfg.FlashFileSize()),
              d.StartCluster(EEPROM_SLOT), Clusters(cfg.e2end), j);
  }

  lemma {:induction false} TwoChains(t: seq<byte>, fs: word, fn: byte, es: word, en: byte, j: nat)
    requires |t| == SECTOR_SIZE && 2 <= fs && fs + fn <= 171 && 2 <= es && es + en <= 171
    requires fs + fn <= es || es + en <= fs
    ensures var fat := UpdateChain(UpdateChain(t, fs, fn), es, en);
            && (fs <= j < fs + fn ==> Entry(fat, j) == ChainValue(fs, fn, j))
            && (es <= j < es + en ==> Entry(fat, j) == ChainValue(es, en, j))
  {
    hide UpdateChainFrom, Entry;
    if j < TABLE_ENTRIES {
      UpdateChainDecodes(t, fs, fn, 0, j);
      UpdateChainDecodes(UpdateChain(t, fs, fn), es, en, 0, j);
    }
  }

  lemma {:induction false} FileChain(cfg: Config, d: Disk, slot: nat, size: nat)
    requires cfg.Valid() && d.Fits(cfg) && Separate(cfg, d)
    requires (slot == FLASH_SLOT && size == cfg.FlashFileSize()) || (slot == EEPROM_SLOT && size == cfg.e2end)
    ensures Clusters(size) > 0
    ensures Follow(FatSector(cfg, d), d.StartCluster(slot), TABLE_ENTRIES) ==
            Range(d.StartCluster(slot), Clusters(size))
  {
    hide FatSector, Entry, Follow, Range;
    var s, n := d.StartCluster(slot), Clusters(size);
    forall j | s <= j < s + n
      ensures Entry(FatSector(cfg, d), j) == ChainValue(s, n, j)
    {
      FatChains(cfg, d, j);
    }
    FollowChain(FatSector(cfg, d), s, n, s, TABLE_ENTRIES);
  }

  /** Clusters in a row are sectors in a row. */
  lemma {:induction false} ConsecutiveClusters(cfg: Config, d: Disk, s: nat, n: nat)
    requires cfg.Valid() && d.Fits(cfg) && 2 <= s && s + n <= TABLE_ENTRIES
    ensures ReadClusters(cfg, d, DISK_LAYOUT, Range(s, n)) ==
            ReadSectors(cfg, d, DATA_START_BLOCK + (s - 2) * SECTORS_PER_CLUSTER, n * SECTORS_PER_CLUSTER)
    decreases n
  {
    hide ReadBlock;
    if n > 0 {
      ConsecutiveClusters(cfg, d, s + 1, n - 1);
      assert Range(s, n)[1..] == Range(s + 1, n - 1);
      SectorsConcat(cfg, d, DATA_START_BLOCK + (s - 2) * SECTORS_PER_CLUSTER, SECTORS_PER_CLUSTER,
                    (n - 1) * SECTORS_PER_CLUSTER);
    }
  }

  lemma {:induction false} SectorsConcat(cfg: Config, d: Disk, first: nat, a: nat, b: nat)
    requires cfg.Valid() && d.Fits(cfg) && first + a + b <= 65536
    ensures ReadSectors(cfg, d, first, a + b) == ReadSectors(cfg, d, first, a) + ReadSectors(cfg, d, first + a, b)
    decreases b
  {
    hide ReadBlock;
    if b > 0 {
      SectorsConcat(cfg, d, first, a, b - 1);
      assert ReadSectors(cfg, d, first, a + b) ==
             ReadSectors(cfg, d, first, a + (b - 1)) + ReadBlock(cfg, d, first + a + b - 1);
    }
  }

  lemma {:induction false} SectorsAre(cfg: Config, d: Disk, first: nat, count: nat, content: seq<byte>)
    requires cfg.Valid() && d.Fits(cfg) && first + count <= 65536 && count * SECTOR_SIZE <= |content|
    requires forall k :: 0 <= k < count ==>
               ReadBlock(cfg, d, first + k) == content[k * SECTOR_SIZE..k * SECTOR_SIZE + SECTOR_SIZE]
    ensures ReadSectors(cfg, d, first, count) == content[..count * SECTOR_SIZE]
    decreases count
  {
    hide ReadBlock;
    if count > 0 {
      SectorsAre(cfg, d, first, count - 1, content);
      assert ReadBlock(cfg, d, first + (count - 1)) ==
             content[(count - 1) * SECTOR_SIZE..(count - 1) * SECTOR_SIZE + SECTOR_SIZE];
    }
  }

  /** Sector k of either file is the block that the allocation chain leads to. */
  lemma {:induction false} FileSector(cfg: Config, d: Disk, slot: nat, k: nat)
    requires cfg.Valid() && d.Fits(cfg) && Separate(cfg, d)
    requires (slot == FLASH_SLOT && k < Sectors(cfg.FlashFileSize())) || (slot == EEPROM_SLOT && k < Sectors(cfg.e2end))
    ensures d.StartCluster(slot) >= 2 && (k + 1) * SECTOR_SIZE <= |if slot == FLASH_SLOT then d.mem else d.eeprom|
    ensures var n := DATA_START_BLOCK + (d.StartCluster(slot) - 2) * SECTORS_PER_CLUSTER + k;
            && n < 65536
            && ReadBlock(cfg, d, n) ==
               (if slot == FLASH_SLOT then d.mem else d.eeprom)[k * SECTOR_SIZE..k * SECTOR_SIZE + SECTOR_SIZE]
  {
    hide BootSector, FatSector, InFile, Sectors, Clusters, FileStartBlock;
    SectorsExact(cfg);
    ClustersCover(cfg.FlashFileSize());
    ClustersCover(cfg.e2end);
    var fs, es := d.StartCluster(FLASH_SLOT), d.StartCluster(EEPROM_SLOT);
    StartBlock(fs);
    StartBlock(es);
    var n := DATA_START_BLOCK + (d.StartCluster(slot) - 2) * SECTORS_PER_CLUSTER + k;
    InFileIff(n, FileStartBlock(fs), Sectors(cfg.FlashFileSize()));
    InFileIff(n, FileStartBlock(es), Sectors(cfg.e2end));
  }

  lemma {:induction false} StartBlock(c: word)
    requires 2 <= c < TABLE_ENTRIES
    ensures FileStartBlock(c) == DATA_START_BLOCK + (c - 2) * SECTORS_PER_CLUSTER
  {
  }

  lemma {:induction false} ClustersCover(size: nat)
    ensures Sectors(size) <= SECTORS_PER_CLUSTER * Clusters(size)
  {
  }

  /** Reading a file by the FAT rules yields the memory it stands for. */
  lemma {:induction false} ReadFile(cfg: Config, d: Disk, name: seq<byte>, slot: nat)
    requires cfg.Valid() && d.Fits(cfg) && Separate(cfg, d)
    requires slot == FLASH_SLOT || slot == EEPROM_SLOT
    requires FindSlot(d.dir + Zeros(SECTOR_SIZE - DIRECTORY_SIZE), name) == slot
    requires d.FileSize(slot) <= (if slot == FLASH_SLOT then cfg.FlashFileSize() else cfg.e2end + 1)
    ensures FileBytes(cfg, d, name) == (if slot == FLASH_SLOT then d.mem else d.eeprom)[..d.FileSize(slot)]
  {
    hide FileBytes, FindSlot, Follow, FatSector, Clusters, Sectors, Separate, ReadClusters, LE16, Range, Zeros, InTable;
    var content := if slot == FLASH_SLOT then d.mem else d.eeprom;
    var size := if slot == FLASH_SLOT then cfg.FlashFileSize() else cfg.e2end;
    FileChain(cfg, d, slot, size);
    FollowInTable(FatSector(cfg, d), d.StartCluster(slot), TABLE_ENTRIES);
    FileData(cfg, d, slot, size);
    SectorsExact(cfg);
    var data := ReadClusters(cfg, d, DISK_LAYOUT, Range(d.StartCluster(slot), Clusters(size)));
    FileBytesAre(cfg, d, name, slot, data);
    assert data[..d.FileSize(slot)] == data[..Sectors(size) * SECTOR_SIZE][..d.FileSize(slot)];
  }

  /** Looking a file up on the disk. */
  lemma {:induction false} FileBytesAre(cfg: Config, d: Disk, name: seq<byte>, slot: nat, data: seq<byte>)
    requires cfg.Valid() && d.Fits(cfg) && slot < 5
    requires FindSlot(d.dir + Zeros(SECTOR_SIZE - DIRECTORY_SIZE), name) == slot
    requires InTable(Follow(FatSector(cfg, d), d.StartCluster(slot), TABLE_ENTRIES))
    requires data == ReadClusters(cfg, d, DISK_LAYOUT, Follow(FatSector(cfg, d), d.StartCluster(slot), TABLE_ENTRIES))
    requires d.FileSize(slot) <= |data|
    ensures FileBytes(cfg, d, name) == data[..d.FileSize(slot)]
  {
    hide LayoutOf, BootSector, FatSector, FindSlot, Follow, ReadClusters, LE16;
    DiskLayout(cfg);
    var root := d.dir + Zeros(SECTOR_SIZE - DIRECTORY_SIZE);
    assert forall i :: 0 <= i < DIRECTORY_SIZE ==> root[i] == d.dir[i];
  }

  /** The clusters of a file hold the memory it stands for, sector by sector. */
  lemma {:induction false} FileData(cfg: Config, d: Disk, slot: nat, size: nat)
    requires cfg.Valid() && d.Fits(cfg) && Separate(cfg, d)
    requires (slot == FLASH_SLOT && size == cfg.FlashFileSize()) || (slot == EEPROM_SLOT && size == cfg.e2end)
    ensures d.StartCluster(slot) >= 2 && InTable(Range(d.StartCluster(slot), Clusters(size)))
    ensures var content := if slot == FLASH_SLOT then d.mem else d.eeprom;
            var data := ReadClusters(cfg, d, DISK_LAYOUT, Range(d.StartCluster(slot), Clusters(size)));
            && Sectors(size) * SECTOR_SIZE <= |data| && Sectors(size) * SECTOR_SIZE <= |content|
            && data[..Sectors(size) * SECTOR_SIZE] == content[..Sectors(size) * SECTOR_SIZE]
  {
    hide ReadSectors, ReadClusters, Clusters, Sectors, LE16;
    var s, content := d.StartCluster(slot), if slot == FLASH_SLOT then d.mem else d.eeprom;
    ConsecutiveClusters(cfg, d, s, Clusters(size));
    ClustersCover(size);
    SectorsExact(cfg);
    var first, m, all := DATA_START_BLOCK + (s - 2) * SECTORS_PER_CLUSTER, Sectors(size),
      Clusters(size) * SECTORS_PER_CLUSTER;
    SectorsConcat(cfg, d, first, m, all - m);
    assert all == m + (all - m);
    WholeFile(cfg, d, slot, first, m, content);
  }

  lemma {:induction false} WholeFile(cfg: Config, d: Disk, slot: nat, first: nat, m: nat, content: seq<byte>)
    requires cfg.Valid() && d.Fits(cfg) && Separate(cfg, d)
    requires (slot == FLASH_SLOT && m == Sectors(cfg.FlashFileSize()) && content == d.mem)
             || (slot == EEPROM_SLOT && m == Sectors(cfg.e2end) && content == d.eeprom)
    requires first == DATA_START_BLOCK + (d.StartCluster(slot) - 2) * SECTORS_PER_CLUSTER
    requires first + m <= 65536 && m * SECTOR_SIZE <= |content|
    ensures ReadSectors(cfg, d, first, m) == content[..m * SECTOR_SIZE]
  {
    hide ReadBlock, ReadSectors;
    forall k | 0 <= k < m
      ensures ReadBlock(cfg, d, first + k) == content[k * SECTOR_SIZE..k * SECTOR_SIZE + SECTOR_SIZE]
    {
      FileSector(cfg, d, slot, k);
    }
    SectorsAre(cfg, d, first, m, content);
  }

  // -- What else the served sectors say --------------------------------------------------------------------------

  /** The boot sector announces the number of blocks that the disk accepts, its type, and itself as a boot sector. */
  lemma {:induction false} BootFields(cfg: Config)
    requires cfg.Valid()
    ensures var boot := BootSector(cfg);
            && LE16(boot[19], boot[20]) as int == cfg.MediaBlocks()
            && cfg.MediaBlocks() == (cfg.chip.bootStart - cfg.auxSize) / 512 + (cfg.e2end + 1) / 512 + 32
            && boot[21] == 0xF8 && boot[510] == 0x55 && boot[511] == 0xAA
            && boot[54..62] == [0x46, 0x41, 0x54, 0x31, 0x32, 0x20, 0x20, 0x20]
            && LE16(boot[24], boot[25]) as int + 64 * LE16(boot[26], boot[27]) as int == cfg.MediaBlocks()
  {
    hide BootSector;
    SectorsExact(cfg);
    BootByte(cfg, 8);
    BootByte(cfg, 9);
    BootByte(cfg, 10);
    BootByte(cfg, 13);
    BootByte(cfg, 14);
    BootByte(cfg, 15);
    BootByte(cfg, 16);
    BootTail(cfg);
    BlockDigits(cfg.MediaBlocks());
  }

  lemma {:induction false} BootTail(cfg: Config)
    requires cfg.Valid()
    ensures var boot := BootSector(cfg);
            && boot[54..62] == [0x46, 0x41, 0x54, 0x31, 0x32, 0x20, 0x20, 0x20]
            && boot[510] == 0x55 && boot[511] == 0xAA
  {
    hide Geometry, Zeros;
  }

  lemma {:induction false} BlockDigits(n: nat)
    requires n < 65536
    ensures LE16(n % 256, n / 256 % 256) as int == n
    ensures LE16(n % 64, 0) as int + 64 * LE16(n / 64 % 256, n / 64 / 256 % 256) as int == n
  {
    var h := n / 64;
    assert LE16(h % 256, h / 256 % 256) as int == h;
  }

  /** Every entry of the served table: media descriptor, reserved entry, the two chains, and free clusters. */
  lemma {:induction false} FatEntries(cfg: Config, d: Disk, j: nat)
    requires cfg.Valid() && d.Fits(cfg) && Separate(cfg, d) && j < TABLE_ENTRIES
    ensures var fs, fn := d.StartCluster(FLASH_SLOT) as int, Clusters(cfg.FlashFileSize());
            var es, en := d.StartCluster(EEPROM_SLOT) as int, Clusters(cfg.e2end);
            Entry(FatSector(cfg, d), j) ==
            if j == 0 then 0xFF8 else if j == 1 then 0xFFF
            else if fs <= j < fs + fn then ChainValue(fs, fn, j)
            else if es <= j < es + en then ChainValue(es, en, j)
            else 0
  {
    hide UpdateChainFrom, UpdateEntry, Entry, Clusters, Zeros, LE16;
    var t := Zeros(SECTOR_SIZE);
    var t0 := UpdateEntry(UpdateEntry(t, 0, 0xFF8), 1, 0xFFF);
    UpdateEntryDecodes(t, 0, 0xFF8, j);
    UpdateEntryDecodes(UpdateEntry(t, 0, 0xFF8), 1, 0xFFF, j);
    FreeEntry(j);
    UpdateChainDecodes(t0, d.StartCluster(FLASH_SLOT), Clusters(cfg.FlashFileSize()), 0, j);
    UpdateChainDecodes(UpdateChain(t0, d.StartCluster(FLASH_SLOT), Clusters(cfg.FlashFileSize())),
                       d.StartCluster(EEPROM_SLOT), Clusters(cfg.e2end), 0, j);
  }

  lemma {:induction false} FreeEntry(j: nat)
    requires j < TABLE_ENTRIES
    ensures Entry(Zeros(SECTOR_SIZE), j) == 0
  {
    hide Zeros;
    assert j + j / 2 + 1 < SECTOR_SIZE;
  }

  /** Both copies of the table are the same, and a block in neither file and behind the directory reads as zeros. */
  lemma {:induction false} OtherBlocks(cfg: Config, d: Disk, n: word)
    requires cfg.Valid() && d.Fits(cfg)
    ensures ReadBlock(cfg, d, 2) == ReadBlock(cfg, d, 1)
    ensures n > 3 && !InFlashFile(cfg, d, n) && !InEepromFile(cfg, d, n) ==> ReadBlock(cfg, d, n) == Zeros(512)
  {
    hide BootSector, FatSector, InFlashFile, InEepromFile, FileStartBlock;
  }

  /** A block write changes the directory, or sectors of the files its block lies in, and nothing else. */
  lemma {:induction false} WriteBlockFrame(cfg: Config, d: Disk, n: word, data: seq<byte>)
    requires cfg.Valid() && d.Fits(cfg) && |data| == SECTOR_SIZE
    ensures var r := WriteBlock(cfg, d, n, data);
            && (n < ROOT_BLOCK ==> r == d)
            && (n == ROOT_BLOCK ==>
                r == d.(dir := r.dir) && ReadBlock(cfg, r, 3) == data[..160] + Zeros(352))
            && (n > ROOT_BLOCK ==> r.dir == d.dir)
            && (n > ROOT_BLOCK && !InFlashFile(cfg, d, n) ==> r.mem == d.mem)
            && (n > ROOT_BLOCK && !InEepromFile(cfg, d, n) ==> r.eeprom == d.eeprom)
  {
    hide BootSector, FatSector, InFlashFile, InEepromFile, FileStartBlock, Overwrite;
    FileBounds(cfg, d, n);
  }
}
