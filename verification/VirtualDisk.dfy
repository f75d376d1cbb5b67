/**
 The virtual FAT12 disk of the mass storage bootloader (VirtualFAT.c, VirtualFAT.h): what a block
 read returns and what a block write changes, as functions of flash, EEPROM and directory.
 */
module VirtualDisk {
  import opened Bits
  import opened FlashMachine
  import opened Fat12

  const SECTORS_PER_CLUSTER := 4
  const CLUSTER_SIZE := 2048
  const DIRECTORY_SIZE := 160
  const FLASH_SLOT := 2
  const EEPROM_SLOT := 4

  const BOOT_BLOCK := 0
  const FAT_BLOCK_1 := 1
  const FAT_BLOCK_2 := 2
  const ROOT_BLOCK := 3
  const DATA_START_BLOCK := 4

  function Sectors(size: nat): (r: nat) {
    size / SECTOR_SIZE + if size % SECTOR_SIZE != 0 then 1 else 0
  }

  function Clusters(size: nat): (r: nat) {
    size / CLUSTER_SIZE + if size % CLUSTER_SIZE != 0 then 1 else 0
  }

  /** Build-time constants: AUX_BOOT_SECTION_SIZE and E2END beside those of the chip. */
  datatype Config = Config(chip: Chip, auxSize: nat, e2end: nat) {

    /** FLASH_FILE_SIZE_BYTES */
    function FlashFileSize(): int {
      (chip.flashSize - 1) - ((chip.flashSize - 1) - chip.bootStart) - auxSize
    }

    /** LUN_MEDIA_BLOCKS */
    function MediaBlocks(): nat
      requires FlashFileSize() >= 0
    {
      Sectors(FlashFileSize()) + Sectors(e2end) + 32
    }

    ghost predicate Valid() {
      && chip.Valid()
      && 0 < FlashFileSize() && FlashFileSize() % SECTOR_SIZE == 0
      && (e2end + 1) % SECTOR_SIZE == 0 && e2end <= 0xFFFF
      && 2 + Clusters(FlashFileSize()) + Clusters(e2end) <= 171
    }
  }

  /** Everything a block access can see or change. */
  datatype Disk = Disk(mem: seq<byte>, eeprom: seq<byte>, dir: seq<byte>) {
    ghost predicate Fits(cfg: Config) {
      |mem| == cfg.chip.flashSize && |eeprom| == cfg.e2end + 1 && |dir| == DIRECTORY_SIZE
    }

    /** StartingCluster of the directory entry in a slot. */
    function StartCluster(slot: nat): (c: word)
      requires slot < 5 && |dir| == DIRECTORY_SIZE
    {
      LE16(dir[32 * slot + 26], dir[32 * slot + 27])
    }

    /** FileSizeBytes of the directory entry in a slot. */
    function FileSize(slot: nat): (n: nat)
      requires slot < 5 && |dir| == DIRECTORY_SIZE
    {
      LE16(dir[32 * slot + 28], dir[32 * slot + 29]) + 65536 * (LE16(dir[32 * slot + 30], dir[32 * slot + 31]) as int)
    }
  }

  /** Bytes 11 to 35 of the boot sector: the disk geometry. */
  function Geometry(lun: nat): (r: seq<byte>)
    ensures |r| == 25
  {
    [SECTOR_SIZE % 256, SECTOR_SIZE / 256, SECTORS_PER_CLUSTER, 1, 0, 2, 16, 0, lun % 256, lun / 256 % 256, 0xF8,
     1, 0, lun % 64, 0, lun / 64 % 256, lun / 64 / 256 % 256, 0, 0, 0, 0, 0, 0, 0, 0]
  }

  /** The boot sector, with its signature at the very end. */
  function BootSector(cfg: Config): (r: seq<byte>)
    requires cfg.FlashFileSize() >= 0
    ensures |r| == SECTOR_SIZE
  {
    [0xEB, 0x3C, 0x90, 0x6D, 0x6B, 0x64, 0x6F, 0x73, 0x66, 0x73, 0x00]  // "mkdosfs"
    + (Geometry(cfg.MediaBlocks())
       + ([0, 0, 0x29, 0x78, 0x56, 0x34, 0x12,
           0x4C, 0x55, 0x46, 0x41, 0x20, 0x42, 0x4F, 0x4F, 0x54, 0x20, 0x20,  // "LUFA BOOT  "
           0x46, 0x41, 0x54, 0x31, 0x32, 0x20, 0x20, 0x20]                    // "FAT12   "
          + (Zeros(448) + [0x55, 0xAA])))
  }

  /** The allocation table: media descriptor, reserved entry, and one linear chain for each file. */
  function FatSector(cfg: Config, d: Disk): (r: seq<byte>)
    requires cfg.FlashFileSize() >= 0 && |d.dir| == DIRECTORY_SIZE
    ensures |r| == SECTOR_SIZE
  {
    var t0 := UpdateEntry(UpdateEntry(Zeros(SECTOR_SIZE), 0, 0xFF8), 1, 0xFFF);
    var t1 := UpdateChain(t0, d.StartCluster(FLASH_SLOT), Clusters(cfg.FlashFileSize()) % 256);
    UpdateChain(t1, d.StartCluster(EEPROM_SLOT), Clusters(cfg.e2end) % 256)
  }

  /** First disk block of a file, computed in 16 bits. */
  function FileStartBlock(cluster: word): (b: word) {
    ((cluster + 65534) * SECTORS_PER_CLUSTER + DATA_START_BLOCK) % 65536
  }

  /** The range check of both file accesses; the end block wraps in 16 bits too. */
  predicate InFile(n: word, start: word, sectors: nat) {
    start <= n <= (start + sectors + 65535) % 65536
  }

  lemma {:induction false} InFileBound(n: word, start: word, sectors: nat)
    requires InFile(n, start, sectors) && 0 < sectors <= 65536
    ensures n - start < sectors
    ensures start + sectors <= 65536
  {
  }

  lemma {:induction false} InFileIff(n: word, start: word, sectors: nat)
    requires 0 < sectors && start + sectors <= 65536
    ensures InFile(n, start, sectors) <==> start <= n < start + sectors
  {
  }

  predicate InFlashFile(cfg: Config, d: Disk, n: word)
    requires cfg.FlashFileSize() >= 0 && |d.dir| == DIRECTORY_SIZE
  {
    InFile(n, FileStartBlock(d.StartCluster(FLASH_SLOT)), Sectors(cfg.FlashFileSize()))
  }

  predicate InEepromFile(cfg: Config, d: Disk, n: word)
    requires |d.dir| == DIRECTORY_SIZE
  {
    InFile(n, FileStartBlock(d.StartCluster(EEPROM_SLOT)), Sectors(cfg.e2end))
  }

  /** Both files fill their last sector, but for the EEPROM file's last byte. */
  lemma {:induction false} SectorsExact(cfg: Config)
    requires cfg.Valid()
    ensures 0 < Sectors(cfg.FlashFileSize()) <= 684 && Sectors(cfg.FlashFileSize()) * SECTOR_SIZE == cfg.FlashFileSize()
    ensures 0 < Sectors(cfg.e2end) <= 684 && Sectors(cfg.e2end) * SECTOR_SIZE == cfg.e2end + 1
  {
    assert cfg.e2end % SECTOR_SIZE == 511;
  }

  lemma {:induction false} FileBounds(cfg: Config, d: Disk, n: word)
    requires cfg.Valid() && d.Fits(cfg)
    ensures InFlashFile(cfg, d, n) ==>
              (n - FileStartBlock(d.StartCluster(FLASH_SLOT))) * SECTOR_SIZE + SECTOR_SIZE <= cfg.FlashFileSize()
    ensures InEepromFile(cfg, d, n) ==>
              (n - FileStartBlock(d.StartCluster(EEPROM_SLOT))) * SECTOR_SIZE + SECTOR_SIZE <= cfg.e2end + 1
  {
    hide Sectors, FileStartBlock;
    SectorsExact(cfg);
    if InFlashFile(cfg, d, n) {
      InFileBound(n, FileStartBlock(d.StartCluster(FLASH_SLOT)), Sectors(cfg.FlashFileSize()));
    }
    if InEepromFile(cfg, d, n) {
      InFileBound(n, FileStartBlock(d.StartCluster(EEPROM_SLOT)), Sectors(cfg.e2end));
    }
  }

  /** VirtualFAT_ReadBlock: a data block shows the EEPROM file over the flash file over zeros. */
  function ReadBlock(cfg: Config, d: Disk, n: word): (r: seq<byte>)
    requires cfg.Valid() && d.Fits(cfg)
    ensures |r| == SECTOR_SIZE
  {
    FileBounds(cfg, d, n);
    if n == BOOT_BLOCK then BootSector(cfg)
    else if n == FAT_BLOCK_1 || n == FAT_BLOCK_2 then FatSector(cfg, d)
    else if n == ROOT_BLOCK then d.dir + Zeros(SECTOR_SIZE - DIRECTORY_SIZE)
    else if InEepromFile(cfg, d, n) then
      var a := (n - FileStartBlock(d.StartCluster(EEPROM_SLOT))) * SECTOR_SIZE;
      d.eeprom[a..a + SECTOR_SIZE]
    else if InFlashFile(cfg, d, n) then
      var a := (n - FileStartBlock(d.StartCluster(FLASH_SLOT))) * SECTOR_SIZE;
      d.mem[a..a + SECTOR_SIZE]
    else Zeros(SECTOR_SIZE)
  }

  /** VirtualFAT_WriteBlock: a plain sector overwrite of whichever file the block lies in. */
  function WriteBlock(cfg: Config, d: Disk, n: word, data: seq<byte>): (r: Disk)
    requires cfg.Valid() && d.Fits(cfg) && |data| == SECTOR_SIZE
    ensures r.Fits(cfg)
  {
    FileBounds(cfg, d, n);
    if n < ROOT_BLOCK then d
    else if n == ROOT_BLOCK then d.(dir := data[..DIRECTORY_SIZE])
    else
      var d1 :=
        if InFlashFile(cfg, d, n)
        then d.(mem := Overwrite(d.mem, (n - FileStartBlock(d.StartCluster(FLASH_SLOT))) * SECTOR_SIZE, data))
        else d;
      if InEepromFile(cfg, d, n)
      then d1.(eeprom := Overwrite(d.eeprom, (n - FileStartBlock(d.StartCluster(EEPROM_SLOT))) * SECTOR_SIZE, data))
      else d1
  }

  /** A written data block reads back as written if it lies in a file, and as zeros otherwise. */
  lemma {:induction false} ReadBack(cfg: Config, d: Disk, n: word, data: seq<byte>)
    requires cfg.Valid() && d.Fits(cfg) && |data| == SECTOR_SIZE && n >= DATA_START_BLOCK
    ensures ReadBlock(cfg, WriteBlock(cfg, d, n, data), n) ==
            if InFlashFile(cfg, d, n) || InEepromFile(cfg, d, n) then data else Zeros(SECTOR_SIZE)
  {
    hide BootSector, FatSector;
    FileBounds(cfg, d, n);
  }
}
