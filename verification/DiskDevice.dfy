/** VirtualFAT.c as the source writes it: buffers and tables changed in place, flash driven word by word. */
module DiskDevice {
  import opened Bits
  import opened FlashMachine
  import opened Fat12
  import opened VirtualDisk

  /** Every page size divides a sector. */
  lemma {:induction false} SectorAligned(chip: Chip, k: nat)
    requires chip.Valid()
    ensures Rem(k * SECTOR_SIZE, chip.pageSize) == 0
    decreases k
  {
    hide Rem;
    if k == 0 {
      RemIsModulo(0, chip.pageSize);
    } else {
      PageDividesSector(chip);
      SectorAligned(chip, k - 1);
      RemSum((k - 1) * SECTOR_SIZE, SECTOR_SIZE, chip.pageSize);
    }
  }

  lemma {:induction false} PageDividesSector(chip: Chip)
    requires chip.Valid()
    ensures Rem(SECTOR_SIZE, chip.pageSize) == 0
  {
    hide Rem;
    var k: nat :| chip.pageSize == Pow2(k);
    assert Pow2(10) == 1024;
    if k > 9 {
      Pow2Mono(10, k);
    }
    Pow2Divides(k, 9);
    assert Pow2(9) == 512;
  }

  method UpdateFAT12ClusterEntry(fatTable: array<byte>, index: word, chainEntry: word)
    requires fatTable.Length == SECTOR_SIZE
    modifies fatTable
    ensures fatTable[..] == UpdateEntry(old(fatTable[..]), index, chainEntry)
  {
    hide And, Or;
    var fatOffset := (index + index / 2) % 256;
    var upperNibble := index % 2 != 0;
    if upperNibble {
      fatTable[fatOffset] := Or(And(fatTable[fatOffset], 0x0F), And(chainEntry, 0x0F) * 16) % 256;
      fatTable[fatOffset + 1] := chainEntry / 16 % 256;
    } else {
      fatTable[fatOffset] := chainEntry % 256;
      fatTable[fatOffset + 1] := Or(And(fatTable[fatOffset + 1], 0xF0), chainEntry / 256) % 256;
    }
  }

  method UpdateFAT12ClusterChain(fatTable: array<byte>, index: word, chainLength: byte)
    requires fatTable.Length == SECTOR_SIZE
    modifies fatTable
    ensures fatTable[..] == UpdateChain(old(fatTable[..]), index, chainLength)
  {
    hide UpdateEntry;
    ghost var t0 := fatTable[..];
    for i := 0 to chainLength
      invariant UpdateChainFrom(fatTable[..], index, chainLength, i) == UpdateChain(t0, index, chainLength)
    {
      var currentCluster := (index + i) % 65536;
      var nextCluster := (currentCluster + 1) % 65536;
      if i == chainLength - 1 {
        nextCluster := END_OF_CHAIN;
      }
      UpdateFAT12ClusterEntry(fatTable, currentCluster, nextCluster);
    }
  }

  class VirtualFat {
    const cfg: Config
    const flash: FlashMemory
    const eeprom: array<byte>
    const entries: array<byte>

    ghost predicate Valid()
      reads this, flash, eeprom, entries
    {
      && cfg.Valid() && flash.Valid() && flash.chip == cfg.chip
      && eeprom != entries && State().Fits(cfg)
    }

    ghost function State(): Disk
      reads this, flash, eeprom, entries
    {
      Disk(flash.mem, eeprom[..], entries[..])
    }

    constructor (cfg: Config, flash: FlashMemory, eeprom: array<byte>, directory: seq<byte>)
      requires cfg.Valid() && flash.Valid() && flash.chip == cfg.chip
      requires eeprom.Length == cfg.e2end + 1 && |directory| == DIRECTORY_SIZE
      ensures Valid() && this.flash == flash && this.eeprom == eeprom && this.cfg == cfg && fresh(entries)
      ensures State() == Disk(flash.mem, eeprom[..], directory)
    {
      this.cfg := cfg;
      this.flash := flash;
      this.eeprom := eeprom;
      var copy := new byte[DIRECTORY_SIZE](i requires 0 <= i < DIRECTORY_SIZE => directory[i]);
      this.entries := copy;
      new;
      assert entries[..] == directory;
    }

    /** *FLASHFileStartCluster and *EEPROMFileStartCluster: read through pointers into the directory. */
    function StartingCluster(slot: nat): (c: word)
      requires slot < 5 && entries.Length == DIRECTORY_SIZE
      reads this, entries
    {
      LE16(entries[32 * slot + 26], entries[32 * slot + 27])
    }

    /** One word of the write loop: a page is erased before its first word and committed after its last. */
    method WriteFlashWord(flashAddress: nat, lo: byte, hi: byte, ghost t: nat) returns (next: nat)
      requires Valid() && flashAddress < cfg.chip.bootStart && flashAddress % 2 == 0
      requires t == Rem(flashAddress, cfg.chip.pageSize)
      modifies flash
      ensures Valid() && next == flashAddress + 2
      ensures flash.State() == ProgramWord(cfg.chip, old(flash.State()), flashAddress, t, LE16(lo, hi))
    {
      hide Apply, Rem, AddressSpace, LE16;
      var p := cfg.chip.pageSize;
      RemNextWord(flashAddress, p);
      AddressFits(cfg.chip, flashAddress + 1);
      RemEven(cfg.chip.bootStart, p);
      AddressFits(cfg.chip, flashAddress + 2);
      if Rem(flashAddress, p) == 0 {
        flash.ErasePage(flashAddress);
      }
      flash.FillWord(flashAddress, LE16(lo, hi));
      next := (flashAddress + 2) % AddressSpace(cfg.chip);
      if Rem(next, p) == 0 {
        flash.WritePage(next - p);
      }
    }

    /** The erase, fill and write loop over one sector is a plain overwrite, for every page size. */
    method WriteFlashSector(start: nat, blockBuffer: array<byte>)
      requires Valid() && blockBuffer.Length == SECTOR_SIZE
      requires Rem(start, cfg.chip.pageSize) == 0 && start + SECTOR_SIZE <= cfg.chip.bootStart
      modifies flash
      ensures Valid() && flash.mem == Overwrite(old(flash.mem), start, blockBuffer[..])
    {
      hide Rem, Open, ProgramWord;
      ghost var chip, mem0 := cfg.chip, flash.mem;
      ghost var data := blockBuffer[..];
      var flashAddress := start;
      var i := 0;
      RemIsModulo(0, chip.pageSize);
      RemEven(start, chip.pageSize);
      while i < SECTOR_SIZE
        invariant 0 <= i <= SECTOR_SIZE && i % 2 == 0 && flashAddress == start + i
        invariant Valid() && Partial(chip, flash.State(), mem0, start, data[..i])
      {
        ghost var t := Rem(i, chip.pageSize);
        RemSum(start, i, chip.pageSize);
        ProgramWordGrows(chip, flash.State(), mem0, start, data[..i], t, data[i], data[i + 1]);
        assert data[..i] + [data[i], data[i + 1]] == data[..i + 2];
        flashAddress := WriteFlashWord(flashAddress, blockBuffer[i], blockBuffer[i + 1], t);
        i := i + 2;
      }
      PageDividesSector(chip);
      assert data[..SECTOR_SIZE] == data;
    }

    method ReadFlashSector(start: nat, blockBuffer: array<byte>)
      requires blockBuffer.Length == SECTOR_SIZE && start + SECTOR_SIZE <= |flash.mem|
      modifies blockBuffer
      ensures blockBuffer[..] == flash.mem[start..start + SECTOR_SIZE]
    {
      for i := 0 to SECTOR_SIZE
        invariant blockBuffer[..i] == flash.mem[start..start + i]
      {
        blockBuffer[i] := flash.mem[start + i];
      }
      assert blockBuffer[..] == blockBuffer[..SECTOR_SIZE];
    }

    method ReadEepromSector(start: nat, blockBuffer: array<byte>)
      requires blockBuffer.Length == SECTOR_SIZE && start + SECTOR_SIZE <= eeprom.Length && blockBuffer != eeprom
      modifies blockBuffer
      ensures blockBuffer[..] == eeprom[start..start + SECTOR_SIZE]
    {
      for i := 0 to SECTOR_SIZE
        invariant blockBuffer[..i] == eeprom[start..start + i]
      {
        blockBuffer[i] := eeprom[start + i];
      }
      assert blockBuffer[..] == blockBuffer[..SECTOR_SIZE];
    }

    method WriteEepromSector(start: nat, blockBuffer: array<byte>)
      requires blockBuffer.Length == SECTOR_SIZE && start + SECTOR_SIZE <= eeprom.Length && blockBuffer != eeprom
      modifies eeprom
      ensures eeprom[..] == Overwrite(old(eeprom[..]), start, blockBuffer[..])
    {
      ghost var before, data := eeprom[..], blockBuffer[..];
      for i := 0 to SECTOR_SIZE
        invariant blockBuffer[..] == data
        invariant forall k :: 0 <= k < eeprom.Length ==>
                    eeprom[k] == if start <= k < start + i then data[k - start] else before[k]
      {
        eeprom[start + i] := blockBuffer[i];
      }
      assert eeprom[..] == Overwrite(before, start, data);
    }

    method ReadWriteFLASHFileBlock(blockNumber: word, blockBuffer: array<byte>, read: bool)
      requires Valid() && blockBuffer.Length == SECTOR_SIZE && blockBuffer != eeprom && blockBuffer != entries
      modifies blockBuffer, flash
      ensures Valid()
      ensures eeprom[..] == old(eeprom[..]) && entries[..] == old(entries[..])
      ensures var a := (blockNumber - FileStartBlock(State().StartCluster(FLASH_SLOT))) * SECTOR_SIZE;
              if !InFlashFile(cfg, State(), blockNumber) then
                blockBuffer[..] == old(blockBuffer[..]) && flash.mem == old(flash.mem)
              else
                && 0 <= a && a + SECTOR_SIZE <= cfg.FlashFileSize()
                && (if read then blockBuffer[..] == flash.mem[a..a + SECTOR_SIZE] && flash.mem == old(flash.mem)
                    else flash.mem == Overwrite(old(flash.mem), a, old(blockBuffer[..]))
                         && blockBuffer[..] == old(blockBuffer[..]))
    {
      hide Rem, FileStartBlock, Sectors;
      SectorsExact(cfg);
      FileBounds(cfg, State(), blockNumber);
      var fileStartBlock := FileStartBlock(StartingCluster(FLASH_SLOT));
      var fileEndBlock := (fileStartBlock + Sectors(cfg.FlashFileSize()) + 65535) % 65536;
      if !(blockNumber >= fileStartBlock && blockNumber <= fileEndBlock) {
        return;
      }
      AddressFits(cfg.chip, (blockNumber - fileStartBlock) * SECTOR_SIZE);
      var flashAddress := (blockNumber - fileStartBlock) * SECTOR_SIZE % AddressSpace(cfg.chip);
      if read {
        ReadFlashSector(flashAddress, blockBuffer);
      } else {
        SectorAligned(cfg.chip, blockNumber - fileStartBlock);
        WriteFlashSector(flashAddress, blockBuffer);
      }
    }

    method ReadWriteEEPROMFileBlock(blockNumber: word, blockBuffer: array<byte>, read: bool)
      requires Valid() && blockBuffer.Length == SECTOR_SIZE && blockBuffer != eeprom && blockBuffer != entries
      modifies blockBuffer, eeprom
      ensures Valid()
      ensures flash.mem == old(flash.mem) && entries[..] == old(entries[..])
      ensures var a := (blockNumber - FileStartBlock(State().StartCluster(EEPROM_SLOT))) * SECTOR_SIZE;
              if !InEepromFile(cfg, State(), blockNumber) then
                blockBuffer[..] == old(blockBuffer[..]) && eeprom[..] == old(eeprom[..])
              else
                && 0 <= a && a + SECTOR_SIZE <= cfg.e2end + 1
                && (if read then blockBuffer[..] == eeprom[a..a + SECTOR_SIZE] && eeprom[..] == old(eeprom[..])
                    else eeprom[..] == Overwrite(old(eeprom[..]), a, old(blockBuffer[..]))
                         && blockBuffer[..] == old(blockBuffer[..]))
    {
      hide Rem, FileStartBlock, Sectors;
      SectorsExact(cfg);
      FileBounds(cfg, State(), blockNumber);
      var fileStartBlock := FileStartBlock(StartingCluster(EEPROM_SLOT));
      var fileEndBlock := (fileStartBlock + Sectors(cfg.e2end) + 65535) % 65536;
      if !(blockNumber >= fileStartBlock && blockNumber <= fileEndBlock) {
        return;
      }
      var eepromAddress := (blockNumber - fileStartBlock) * SECTOR_SIZE;
      if read {
        ReadEepromSector(eepromAddress, blockBuffer);
      } else {
        WriteEepromSector(eepromAddress, blockBuffer);
      }
    }

    method WriteBlock(blockNumber: word, data: seq<byte>)
      requires Valid() && |data| == SECTOR_SIZE
      modifies flash, eeprom, entries
      ensures Valid() && State() == VirtualDisk.WriteBlock(cfg, old(State()), blockNumber, data)
    {
      hide FileStartBlock, Sectors, InFile, Overwrite;
      FileBounds(cfg, State(), blockNumber);
      var blockBuffer := new byte[SECTOR_SIZE](i requires 0 <= i < SECTOR_SIZE => data[i]);
      assert blockBuffer[..] == data;
      if blockNumber == BOOT_BLOCK || blockNumber == FAT_BLOCK_1 || blockNumber == FAT_BLOCK_2 {
        return;
      }
      if blockNumber == ROOT_BLOCK {
        forall i | 0 <= i < DIRECTORY_SIZE {
          entries[i] := blockBuffer[i];
        }
        assert entries[..] == data[..DIRECTORY_SIZE];
      } else {
        ReadWriteFLASHFileBlock(blockNumber, blockBuffer, false);
        ReadWriteEEPROMFileBlock(blockNumber, blockBuffer, false);
      }
    }

    method BuildFat(blockBuffer: array<byte>)
      requires Valid() && blockBuffer.Length == SECTOR_SIZE && blockBuffer != entries && blockBuffer != eeprom
      requires blockBuffer[..] == Zeros(SECTOR_SIZE)
      modifies blockBuffer
      ensures State() == old(State()) && blockBuffer[..] == FatSector(cfg, State())
    {
      hide UpdateEntry, UpdateChainFrom, Clusters;
      UpdateFAT12ClusterEntry(blockBuffer, 0, 0xF00 + 0xF8);
      UpdateFAT12ClusterEntry(blockBuffer, 1, 0xFFF);
      UpdateFAT12ClusterChain(blockBuffer, StartingCluster(FLASH_SLOT), Clusters(cfg.FlashFileSize()) % 256);
      UpdateFAT12ClusterChain(blockBuffer, StartingCluster(EEPROM_SLOT), Clusters(cfg.e2end) % 256);
    }

    method ReadBlock(blockNumber: word) returns (data: seq<byte>)
      requires Valid()
      modifies flash, eeprom
      ensures Valid() && State() == old(State()) && data == VirtualDisk.ReadBlock(cfg, State(), blockNumber)
    {
      hide FileStartBlock, Sectors, InFile, UpdateChain, UpdateEntry, BootSector, FatSector;
      FileBounds(cfg, State(), blockNumber);
      var blockBuffer := new byte[SECTOR_SIZE](_ => 0);
      assert blockBuffer[..] == Zeros(SECTOR_SIZE);
      if blockNumber == BOOT_BLOCK {
        return BootSector(cfg);
      }
      if blockNumber == FAT_BLOCK_1 || blockNumber == FAT_BLOCK_2 {
        BuildFat(blockBuffer);
      } else if blockNumber == ROOT_BLOCK {
        forall i | 0 <= i < DIRECTORY_SIZE {
          blockBuffer[i] := entries[i];
        }
        assert blockBuffer[..] == entries[..] + Zeros(SECTOR_SIZE - DIRECTORY_SIZE);
      } else {
        ReadWriteFLASHFileBlock(blockNumber, blockBuffer, true);
        ReadWriteEEPROMFileBlock(blockNumber, blockBuffer, true);
      }
      data := blockBuffer[..];
    }
  }
}
