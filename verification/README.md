# The LUFA bootloaders: what they leave in flash

LUFA ships five USB bootloaders for AVR microcontrollers. Each speaks a different protocol to its host: Intel HEX text sent
to a printer, a FAT12 disk, Atmel's DFU dialect, HID reports from a host loader, or AVR109 over a virtual serial port. All of
them drive the same small machine: erase a flash page, fill the words of a one-page buffer, commit the page. This project
models the five protocols and that machine in Dafny, and proves what every run of them leaves in flash, what they send back to
the host, and what they never touch.

Each component has two layers:

- functions and lemmas over values: what one character, block, request, report or command does to the state, and what
  follows for whole runs;
- a class that works the way the C code does (static variables, page loops, endpoint banks, in-place tables), whose methods are
  proved equal to those functions, up to methods that carry the main results to the object.

| files | component |
|---|---|
| `Bits`, `Flash` | fixed-width arithmetic and bit masks; the flash page machine and the guard of BootloaderAPI.c |
| `HexText`, `Printer`, `PrinterImage`, `PrinterOdd`, `PrinterStart`, `PrinterBase`, `PrinterLines`, `PrinterStream`, `PrinterRecord`, `PrinterDevice` | the printer bootloader's streaming HEX parser |
| `Fat12`, `VirtualDisk`, `DiskReader`, `DiskRuns`, `DiskDevice`, `Scsi`, `DiskHost` | the virtual FAT12 disk and its SCSI commands |
| `Endpoint`, `Dfu`, `DfuSecure`, `DfuFiller`, `DfuTransfer`, `DfuEeprom`, `DfuExit`, `DfuCommands`, `DfuDevice` | the DFU state machine |
| `HostLoader`, `Hid`, `HidDevice`, `HexAgreement` | the HID host loader, the device it programs, and agreement of the two HEX readers |
| `Cdc`, `CdcBlocks`, `CdcEeprom`, `CdcCommands`, `CdcDevice` | the AVR109 command engine |

`dafny verify dfyconfig.toml` checks everything.

## Assumptions

- The page machine is hardware. Erasing sets a page to 0xFF; a fill sets one word of the buffer and ignores bit 0 of its address;
  a commit ANDs the buffer into the page; a commit and the read-while-write enable set the buffer to 0xFF.
- The page size is a power of two from 2 to 512, and the boot section starts on a page boundary. `FLASHEND > 0xFFFF` decides, as in
  the source, between 16-bit and 32-bit addresses, whose wrap-around is modelled.
- A buffer word that is filled twice holds the later word.
- Flash cells beyond the array read as erased. The EEPROM decodes an address modulo its size.
- Packets the host sends are a finite sequence. When it is used up the host has gone, which is how a wait for the next packet
  ends; in the IN direction a host takes a given number of packets. Reading an empty endpoint bank yields 0.
- Fuse, lock and signature bytes, the initial secure mode and all sizes are parameters.

## Where code and comments disagree

The model follows the code.

- Printer: the end-of-file record's own address, 0, decides whether the last page is flushed, so an image shorter than a page is
  erased and never committed (`PrintedImageIff`). The page cache starts at page 0, so an image that starts behind it destroys
  page 0 and loses its first word (`PrintedBeyond`, `PrintedAtIff`). A record with an odd byte count shifts its data by one
  (`PrintedOddTail`) and the records after it down by one (`PrintedOddInside`). Extended address records are read low byte first
  and are dropped under a base above the application (`ExtendedAddressIff`), for ever where addresses have 32 bits
  (`OneRecordBlocks`).
- FAT12: the byte offset of an entry is an 8-bit variable, so entries above 170 are not reached (`UpdateEntryIff`). EEPROM.BIN has
  E2END bytes, one less than the EEPROM.
- DFU: the start command by jump leaves the bootloader when flash word 0 is blank, although its comment speaks of a loaded
  application (`ExitsIff`, `StartRequest`). CLRSTATUS resets the status and not the state (`ClearStatusIff`, `ErrorPersistsIff`).
  DiscardFillerBytes spends a count when it only fetches a packet (`DiscardIff`), so an EEPROM download to an address that needs
  alignment filler stores the last filler byte first (`EepromDownloadThenUpload`).
- HID: the word counter of the page loop has 8 bits, so a page of 512 bytes is erased and never written (`ReportPrograms`).
- CDC: the last byte of a block of odd size is fetched and never filled, and a block longer than a page wraps round in it
  (`BlockRoundTrip`). Each of the two single-byte fills sets a whole word, so a word sent in two bytes loses its high one
  (`FilledWordIff`).
- SCSI: a 32-bit block address is cut to 16 bits before the range check (`RangeCheckIff`).
- Host loader: an end-of-file record is accepted before its checksum is looked at, a bad checksum in a type 02 or 04 record is
  ignored without an error, and data is stored before its checksum is checked (`ParseLineIs`, `WrongChecksum`, `BadEndAccepted`).
  The bound test adds in 32 bits, so a record that reaches the end of that range passes it and is stored outside the image
  (`StoresOutsideIff`, `LastByteStored`).

## Model

| member | source | states |
|---|---|---|
| FlashMachine.PageInBounds | Bootloaders/Printer/BootloaderAPI.c:38-45 | an address that passes the page guard is page-aligned and its whole page lies below the boot section |
| FlashMachine.MaskIsAlignment | Bootloaders/MassStorage/BootloaderAPI.c:38-50 | the bit-mask test of the guard is divisibility by the page size |
| FlashMachine.BootSectionUntouched | Bootloaders/Printer/BootloaderAPI.c:47-76 | no sequence of erase, fill and write requests, at any addresses, changes flash at or above the boot section start |
| FlashMachine.EraseIs | Bootloaders/Printer/BootloaderAPI.c:47-58 | an erase of an application page blanks exactly that page and the buffer |
| FlashMachine.WriteIs | Bootloaders/Printer/BootloaderAPI.c:60-71 | a commit to an erased page programs exactly the buffer |
| FlashMachine.Refused | Bootloaders/Printer/BootloaderAPI.c:38-71 | off the page boundaries and in the boot section an erase or a commit changes nothing at all |
| FlashMachine.FlashMemory.ErasePage | Bootloaders/Printer/BootloaderAPI.c:47-58 | the in-place operation is the guarded erase, and does nothing on a refused address |
| FlashMachine.FlashMemory.WritePage | Bootloaders/Printer/BootloaderAPI.c:60-71 | the in-place operation is the guarded commit, and does nothing on a refused address |
| FlashMachine.FlashMemory.FillWord | Bootloaders/Printer/BootloaderAPI.c:73-76 | a fill changes no flash byte; the addressed word of the buffer becomes the given one and every other byte of the buffer stays |
| FlashMachine.FlashMemory.EraseApplication | Bootloaders/DFU/BootloaderDFU.c:787-795 | the erase loop is the page-by-page erase of the whole application section |
| FlashMachine.EraseFromIs | Bootloaders/CDC/BootloaderCDC.c:506-514 | the erase loop blanks every byte from its start to the boot section and no other |
| PrinterImage.PrintedImage | Bootloaders/Printer/BootloaderPrinter.c:214-369 | printing even-count records for consecutive addresses from 0 and the end record leaves the image in flash, its last page padded with 0xFF, all other pages as they were, and stops the bootloader; an image shorter than a page leaves page 0 erased |
| PrinterImage.PrintedImageIff | Bootloaders/Printer/BootloaderPrinter.c:214-230 | such a file is in flash afterwards if and only if it fills a page or is blank |
| PrinterImage.PrintedOddTail | Bootloaders/Printer/BootloaderPrinter.c:295-334 | what a last record with an odd byte count leaves in flash: a stale byte and then its data, shifted |
| PrinterImage.PrintedOddTailIff | Bootloaders/Printer/BootloaderPrinter.c:295-334 | such a file loads correctly if and only if the odd record repeats the stale byte, or the image is below a page and blank |
| PrinterOdd.PrintedRecords | Bootloaders/Printer/BootloaderPrinter.c:214-369 | records of any length for consecutive addresses from 0: flash holds the merged words of the records, each laid over the image from the even address on, if no odd record that goes on with another ends in the last word of a page |
| PrinterOdd.PrintedOddInside | Bootloaders/Printer/BootloaderPrinter.c:295-334 | an odd record between even ones is loaded behind a stale byte and loses its last two bytes, and everything after it is loaded one address too low |
| PrinterOdd.OddAddressRecord | Bootloaders/Printer/BootloaderPrinter.c:238-363 | a record at an odd address is loaded as if it stood at the even address below, over the last word of the image if that is still in the buffer |
| PrinterOdd.WordMissesPage | Bootloaders/Printer/BootloaderPrinter.c:319-334 | after an odd record that ends a page, the first word of the next record goes to the last word of the following page |
| PrinterBase.ExtendedAddressIs | Bootloaders/Printer/BootloaderPrinter.c:295-345 | for any base in force, any address field and both address widths: a type 02 or 04 record sets the base its bytes mean in the wrong order if its own address lies below the boot section, and otherwise leaves the base alone |
| PrinterBase.ExtendedAddressIff | Bootloaders/Printer/BootloaderPrinter.c:299-345 | the base afterwards is the intended one if and only if the record lies below the boot section and its bytes are equal (or mean nothing in 16 bits), or it lies above and that base was in force |
| PrinterBase.StuckForever | Bootloaders/Printer/BootloaderPrinter.c:238-305 | once a base is in force from which no record address reaches the application section, no characters whatsoever change it, and they cause no flash operation but the one commit of a page that was in use already (none if there was none) |
| PrinterBase.NoneReachIff | Bootloaders/Printer/BootloaderPrinter.c:273-305 | a base keeps every record out of the application section if and only if it is at or above the boot section and no 16-bit address field takes it round to 0: never on a device with 16-bit addresses |
| PrinterBase.AbandonedIff | Bootloaders/Printer/BootloaderPrinter.c:295-305 | a record with data is abandoned at its first data byte if and only if its address, base added and wrapped, is in the boot section |
| PrinterBase.NearComesBack | Bootloaders/Printer/BootloaderPrinter.c:295-345 | with 16-bit addresses there is a way back from every base: the extended address record whose address field takes it round to 0 sets a new one |
| PrinterBase.OneRecordBlocks | Bootloaders/Printer/BootloaderPrinter.c:314-345 | the record `:020000040001F9` after reset sets such a base if and only if addresses have 32 bits; there everything that follows leaves flash as it was, and with 16 bits base 0 is in force |
| PrinterStart.PrintedInFirstPage | Bootloaders/Printer/BootloaderPrinter.c:214-369 | a file that starts inside page 0 is loaded with the rest of that page erased, or only erases it if it does not fill it |
| PrinterStart.PrintedBeyond | Bootloaders/Printer/BootloaderPrinter.c:214-369 | a file that starts behind page 0 destroys page 0, which gets the first word, and loads the rest where it belongs over an erased start of page |
| PrinterStart.PrintedAtIff | Bootloaders/Printer/BootloaderPrinter.c:214-369 | for every even start address, exactly when the image is in flash afterwards |
| PrinterImage.LoadWord | Bootloaders/Printer/BootloaderPrinter.c:319-334 | one more data word keeps the invariant of a sequential load: whole pages committed, the open page erased with its words in the buffer |
| PrinterStream.PageDiscipline | Bootloaders/Printer/BootloaderPrinter.c:214-230 | for every stream, each commit follows an erase of the same page with only fills between, the page start is aligned, and the byte count never underflows |
| PrinterStream.JunkIsIgnored | Bootloaders/Printer/BootloaderPrinter.c:238-271 | deleting every character outside `0-9A-F:` changes neither the flash operations nor the run flag |
| PrinterStream.BootSectionKept | Bootloaders/Printer/BootloaderPrinter.c:238-369 | no stream changes the boot section |
| PrinterRecord.ParserReadsRecord | Bootloaders/Printer/BootloaderPrinter.c:267-363 | for every stream, the parser's state, type, remaining count and checksum are those of the record bytes since the last colon |
| PrinterRecord.ExitExactly | Bootloaders/Printer/BootloaderPrinter.c:351-363 | a character clears the run flag if and only if it completes the checksum byte of a type 01 record that sums to 0 modulo 256 |
| PrinterLines.PlainRecord | Bootloaders/Printer/BootloaderPrinter.c:269-363 | a record of any type other than 00, 02 and 04, with any data and any checksum byte, under any base and page: it keeps the base and the flash, but for the commit of a page in use that its own address lies outside of, and that only if the checksum is right |
| PrinterLines.WrongChecksum | Bootloaders/Printer/BootloaderPrinter.c:351-363 | at the end of a record of any type a wrong checksum byte commits no page and changes neither base nor run flag |
| PrinterLines.StartAddressRecord | Bootloaders/Printer/BootloaderPrinter.c:317-345 | the start-address record `:0400000300000000F9` after reset leaves flash as it was |
| PrinterDevice.PrinterBootloader.FlushPageIfRequired | Bootloaders/Printer/BootloaderPrinter.c:214-230 | the page cache and flash change as the flush function says |
| PrinterDevice.PrinterBootloader.WriteDataWord | Bootloaders/Printer/BootloaderPrinter.c:319-334 | erase on first use, fill, advance and flush, as the word function says |
| PrinterDevice.PrinterBootloader.ReadDataByte | Bootloaders/Printer/BootloaderPrinter.c:295-349 | one data byte of a record, as the byte function says |
| PrinterDevice.PrinterBootloader.ProcessByte | Bootloaders/Printer/BootloaderPrinter.c:269-368 | one completed byte, in each of the record states |
| PrinterDevice.PrinterBootloader.ParseIntelHEXByte | Bootloaders/Printer/BootloaderPrinter.c:238-369 | the in-place parser and flash after a character are the state machine's next state |
| PrinterDevice.PrinterBootloader.Receive | Bootloaders/Printer/BootloaderPrinter.c:381-402 | feeding the received bytes one by one is printing the whole stream, and keeps the boot section |
| PrinterDevice.PrinterBootloader.ReceiveImage | Bootloaders/Printer/BootloaderPrinter.c:374-402 | on the object: a file for address 0 received after reset leaves the padded image in flash and stops the bootloader |
| PrinterDevice.PrinterBootloader.ReceiveImageAt | Bootloaders/Printer/BootloaderPrinter.c:374-402 | on the object: for every even start address, exactly when the image is in flash |
| Fat12.UpdateEntryDecodes | Bootloaders/MassStorage/Lib/VirtualFAT.c:245-265 | for an index up to 170 an update makes its entry decode to the value and leaves every other entry alone |
| Fat12.UpdateEntryIff | Bootloaders/MassStorage/Lib/VirtualFAT.c:245-265 | updates of an entry work for every table and value if and only if its index is at most 170 |
| Fat12.UpdateEntryMisses | Bootloaders/MassStorage/Lib/VirtualFAT.c:249-264 | above 170 the addressed entry is not changed at all |
| Fat12.UpdateChainDecodes | Bootloaders/MassStorage/Lib/VirtualFAT.c:277-292 | a chain update links its clusters in order, ends the chain, and leaves all other entries alone |
| Fat12.FollowChain | Bootloaders/MassStorage/Lib/VirtualFAT.c:277-292 | a reader that follows the chain visits s, s+1, ..., s+n-1 and stops |
| VirtualDisk.FileBounds | Bootloaders/MassStorage/Lib/VirtualFAT.c:303-392 | under 16-bit wrap of start and end blocks, an accepted block lies inside the flash file or the EEPROM |
| VirtualDisk.ReadBack | Bootloaders/MassStorage/Lib/VirtualFAT.c:399-482 | a written file block reads back identically |
| DiskReader.DiskLayout | Bootloaders/MassStorage/Lib/VirtualFAT.c:51-72 | a reader of the boot block finds the table, directory and data where the code serves them |
| DiskReader.FileChain | Bootloaders/MassStorage/Lib/VirtualFAT.c:451-465 | the allocation table served on a read holds both files' chains, for any disjoint start clusters up to 170 |
| DiskReader.ReadFile | Bootloaders/MassStorage/Lib/VirtualFAT.c:435-482 | reading a file by the FAT rules alone yields the flash or EEPROM it stands for, for every content and any disjoint start clusters up to 170 |
| DiskReader.BootFields | Bootloaders/MassStorage/Lib/VirtualFAT.c:51-73 | the boot sector announces as many blocks as the disk accepts, by the sizes of the two files, and its type and signature |
| DiskReader.FatEntries | Bootloaders/MassStorage/Lib/VirtualFAT.c:451-465 | every entry of the served table: media descriptor, reserved entry, the two chains, free clusters |
| DiskReader.OtherBlocks | Bootloaders/MassStorage/Lib/VirtualFAT.c:435-482 | both copies of the table are the same, and a block in neither file reads as zeros |
| DiskReader.WriteBlockFrame | Bootloaders/MassStorage/Lib/VirtualFAT.c:399-428 | a block write changes the directory or the files its block lies in, and nothing else; the directory reads back |
| DiskRuns.InitialContents | Bootloaders/MassStorage/Lib/VirtualFAT.c:75-182 | with the built-in directory, FLASH.BIN reads as the application flash and EEPROM.BIN as EEPROM up to E2END |
| DiskRuns.LongNames | Bootloaders/MassStorage/Lib/VirtualFAT.c:95-175 | the two long-name entries at reset carry the names of the files and the checksums of their short names |
| DiskRuns.AnyOrderWrites | Bootloaders/MassStorage/Lib/VirtualFAT.c:399-428 | writing all sectors of FLASH.BIN in any order, at any directory-relocated start cluster whose blocks do not wrap, leaves flash equal to the file and the rest as it was |
| DiskRuns.WrittenFileReadsBack | Bootloaders/MassStorage/Lib/VirtualFAT.c:399-482 | a host that then reads FLASH.BIN by the FAT rules gets back the file it wrote |
| DiskRuns.FileReachableIff | Bootloaders/MassStorage/Lib/VirtualFAT.c:307-313 | some block belongs to the flash file if and only if its block range does not wrap in 16 bits |
| DiskRuns.WrappedFileKept | Bootloaders/MassStorage/Lib/VirtualFAT.c:303-428 | if it wraps, no run of writes to blocks other than the directory changes flash |
| DiskRuns.FlashAboveFileKept | Bootloaders/MassStorage/Lib/VirtualFAT.c:303-428 | no run of block writes, directory overwrites included, changes flash above the firmware file |
| DiskDevice.UpdateFAT12ClusterEntry | Bootloaders/MassStorage/Lib/VirtualFAT.c:245-265 | the in-place update of the table is the entry update function |
| DiskDevice.UpdateFAT12ClusterChain | Bootloaders/MassStorage/Lib/VirtualFAT.c:277-292 | the in-place loop is the chain update function |
| DiskDevice.VirtualFat.WriteFlashSector | Bootloaders/MassStorage/Lib/VirtualFAT.c:333-354 | for every page size the erase, fill and commit loop over a sector is a plain 512-byte overwrite |
| DiskDevice.VirtualFat.ReadWriteFLASHFileBlock | Bootloaders/MassStorage/Lib/VirtualFAT.c:303-355 | a block of the flash file is transferred to or from flash; any other block changes nothing |
| DiskDevice.VirtualFat.ReadWriteEEPROMFileBlock | Bootloaders/MassStorage/Lib/VirtualFAT.c:366-392 | a block of the EEPROM file is transferred to or from EEPROM; any other block changes nothing |
| DiskDevice.VirtualFat.WriteBlock | Bootloaders/MassStorage/Lib/VirtualFAT.c:399-428 | the in-place block write is the block write function |
| DiskDevice.VirtualFat.ReadBlock | Bootloaders/MassStorage/Lib/VirtualFAT.c:435-482 | the block it builds is the block read function's, and nothing changes |
| Scsi.CommandsKeepBootSection | Bootloaders/MassStorage/Lib/SCSI.c:238-274 | in every run of SCSI commands no flash byte above the firmware file changes |
| Scsi.CapacityIsRange | Bootloaders/MassStorage/Lib/SCSI.c:217-256 | the last block that READ CAPACITY reports is the last one that READ and WRITE accept |
| Scsi.ScsiDevice.ReadWrite10 | Bootloaders/MassStorage/Lib/SCSI.c:238-274 | range check, the blocks read or written in order with 16-bit block numbers, sense data and remaining length |
| Scsi.ScsiDevice.Inquiry | Bootloaders/MassStorage/Lib/SCSI.c:157-187 | the two option bits and the page code are refused; otherwise as many bytes as allocated are sent, the standard data first and zeros behind it, and the length falls by the data bytes alone |
| Scsi.ScsiDevice.RequestSense | Bootloaders/MassStorage/Lib/SCSI.c:195-208 | as many bytes as allocated are sent: the fixed format with the key and code in force at their places, zeros elsewhere |
| Scsi.ScsiDevice.Decode | Bootloaders/MassStorage/Lib/SCSI.c:91-148 | for every command: whether it succeeds, the sense it leaves (that of this command alone), what it sends and writes, what remains of the length, and when the run flag is cleared |
| Scsi.ScsiDevice.Serve | Bootloaders/MassStorage/Lib/SCSI.c:91-148 | on the object: over any run of commands no flash byte above the firmware file changes, and the sense is that of the last command |
| DiskHost.CdbDecodes | Bootloaders/MassStorage/Lib/SCSI.c:244-251 | a command block for block n and count k, high bytes first, is taken for block n modulo 65536 and count k |
| DiskHost.RangeCheckIff | Bootloaders/MassStorage/Lib/SCSI.c:244-256 | the range check is right about block n if and only if n has 16 bits or is refused anyway |
| DiskHost.SenseIs | Bootloaders/MassStorage/Lib/SCSI.c:91-148 | sense key and code after every command, by its code |
| DiskHost.DescriptionIs | Bootloaders/MassStorage/Lib/SCSI.c:96-138 | which commands send nothing, and what MODE SENSE sends |
| DiskHost.ReadSends | Bootloaders/MassStorage/Lib/SCSI.c:258-266 | READ(10) for n and k sends blocks n to n + k - 1 in order |
| DiskHost.ReadsFile | Bootloaders/MassStorage/Lib/SCSI.c:238-274 | a host that looks a file up by the FAT rules and reads its sectors with READ(10) commands, in runs of any length, gets the file |
| DiskHost.WritesFile | Bootloaders/MassStorage/Lib/SCSI.c:238-274 | a host that writes all sectors of FLASH.BIN with WRITE(10) commands, in any order and in runs of any length, leaves flash equal to the file, and everything above it and the directory as they were |
| DiskHost.StoresAndLoads | Bootloaders/MassStorage/Lib/SCSI.c:238-274 | from reset, storing FLASH.BIN with WRITE(10) and loading it with READ(10) returns it |
| DiskHost.StoreAndLoad | Bootloaders/MassStorage/Lib/SCSI.c:91-148 | on the object: the same, and flash holds the file |
| DfuSecure.LockedSessionRevealsNothing | Bootloaders/DFU/BootloaderDFU.c:253-516 | two locked devices that differ only in application flash send the same packets in every session |
| DfuSecure.UnlockErases | Bootloaders/DFU/BootloaderDFU.c:609-652 | a request leaves a locked device locked, idle or in error, and unchanged in flash, or unlocks it with every application byte erased |
| DfuSecure.LockedSessionKeepsFlash | Bootloaders/DFU/BootloaderDFU.c:609-652 | in a session after which the device is still locked, every state on the way is locked, idle or in error, with flash unchanged |
| DfuSecure.NeverLocks | Bootloaders/DFU/BootloaderDFU.c:747-796 | no session locks an unlocked device |
| DfuSecure.SessionKeepsBoot | Bootloaders/DFU/BootloaderDFU.c:253-576 | no session changes the boot section |
| DfuTransfer.FlashWordsStore | Bootloaders/DFU/BootloaderDFU.c:328-383 | the download loop over any whole-word packets stores the data, padded to whole pages, page by page as far as the boot section, and runs to its end |
| DfuFiller.DiscardIff | Bootloaders/DFU/BootloaderDFU.c:583-603 | discarding n bytes removes the next n bytes of the stream if and only if they all are in the packet at hand |
| DfuFiller.DiscardFails | Bootloaders/DFU/BootloaderDFU.c:583-603 | the smallest stream for which it does not |
| DfuFiller.RefusedWords | Bootloaders/DFU/BootloaderDFU.c:328-383 | a download loop that starts off a page boundary or in the boot section changes no flash byte, for any packets and any page size |
| DfuTransfer.DownloadStores | Bootloaders/DFU/BootloaderDFU.c:270-417 | a download to an application page, of any length and suffix, makes flash the whole words of the payload, padded with 0xFF to whole pages and cut at the boot section, and touches no other page |
| DfuTransfer.RefusedDownload | Bootloaders/DFU/BootloaderDFU.c:270-417 | a flash download that does not start on a page, or starts in the boot section, changes no flash byte, in whatever packets it comes |
| DfuTransfer.DownloadIff | Bootloaders/DFU/BootloaderDFU.c:270-417 | what the range holds afterwards, word for word, and that it is the payload if and only if the part not written (all of it off a page, what lies in the boot section otherwise) was there already |
| DfuTransfer.UploadStep | Bootloaders/DFU/BootloaderDFU.c:418-516 | an upload of a flash range sends exactly its whole words, in full packets and a last one |
| DfuTransfer.DownloadThenUpload | Bootloaders/DFU/BootloaderDFU.c:270-516 | download, zero-length request, display command and upload return the written words and the old bytes behind them: the payload if and only if its length is even and what was not written was there already |
| DfuEeprom.EepromDownload | Bootloaders/DFU/BootloaderDFU.c:384-405 | an EEPROM download lays the payload in consecutive cells, or the last alignment byte and the payload without its last byte, and touches nothing else |
| DfuEeprom.EepromUploadStep | Bootloaders/DFU/BootloaderDFU.c:485-503 | an upload of an EEPROM range sends its cells in order |
| DfuEeprom.EepromDownloadThenUpload | Bootloaders/DFU/BootloaderDFU.c:270-516 | a download to the EEPROM and an upload return the payload if and only if no alignment is needed or the payload repeats the last alignment byte |
| DfuCommands.BaseRequestIs | Bootloaders/DFU/BootloaderDFU.c:609-652 | the request `06 03 00 page` selects that 64 KB page on an unlocked device, is an error on a locked one, and touches no memory |
| DfuCommands.PageDownloadThenUpload | Bootloaders/DFU/BootloaderDFU.c:270-652 | after it, a download to start lies at 0x10000 * page + start and comes back under the conditions of every download |
| DfuCommands.CommandFrame | Bootloaders/DFU/BootloaderDFU.c:609-844 | commands outside the protocol leave an unlocked device as it is; flash is changed by opening it for programming and by the chip erase alone, the EEPROM by no command, and only the chip erase unlocks |
| DfuCommands.ChipErase | Bootloaders/DFU/BootloaderDFU.c:787-795 | the chip erase request blanks the application section and unlocks the device, in every state |
| DfuCommands.InformationRead | Bootloaders/DFU/BootloaderDFU.c:801-844 | the version, id and signature bytes that a read command and an upload return, the error for any other index, and the start address that comes instead of a signature in the error state |
| DfuCommands.BlankCheckIs | Bootloaders/DFU/BootloaderDFU.c:715-741 | the blank check reports the first byte that is not 0xFF, and the next upload its low 16 bits; a blank section changes nothing |
| DfuCommands.StatusReported | Bootloaders/DFU/BootloaderDFU.c:517-566 | the status and state bytes that GETSTATUS and GETSTATE send, by their numbers |
| DfuCommands.AbortIs | Bootloaders/DFU/BootloaderDFU.c:253-268 | ABORT makes the device idle from every state, and a request that is not for the interface does nothing |
| DfuCommands.UploadNothing | Bootloaders/DFU/BootloaderDFU.c:485-510 | an upload for a memory that the command data no longer names sends an empty packet and ends |
| DfuExit.ExitsIff | Bootloaders/DFU/BootloaderDFU.c:747-786 | a request clears the run flag if and only if it executes a start by jump with no data left while flash word 0 is blank |
| DfuExit.SessionExitsIff | Bootloaders/DFU/BootloaderDFU.c:253-576 | a session ends the bootloader if and only if one of its requests did that, on the flash at that point |
| DfuExit.StartRequest | Bootloaders/DFU/BootloaderDFU.c:779-784 | the start request leaves the bootloader running if and only if there is an application in flash |
| DfuCommands.ArmsIff | Bootloaders/DFU/BootloaderDFU.c:769-778 | a request arms the watchdog reset if and only if it executes a start by watchdog with no data left |
| DfuCommands.JumpAddressSet | Bootloaders/DFU/BootloaderDFU.c:755-768 | a start by jump with data left sets the jump address from its last two bytes |
| DfuExit.ClearStatusIff | Bootloaders/DFU/BootloaderDFU.c:543-550 | after CLRSTATUS the device is idle if and only if it was idle before |
| DfuExit.LeavesErrorIff | Bootloaders/DFU/BootloaderDFU.c:253-576 | in every state that keeps the invariant of SessionPends, a request leaves the error state if and only if it is an abort or its last command opens a memory for programming or display |
| DfuExit.SessionPends | Bootloaders/DFU/BootloaderDFU.c:270-301 | in every state a session reaches, a pending exit means a start command that an unlocked device accepted |
| DfuExit.ErrorPersistsIff | Bootloaders/DFU/BootloaderDFU.c:253-576 | from such a state a session stays in error all the way if and only if none of its requests does that; CLRSTATUS is one that does not |
| DfuDevice.ControlEndpoint.DiscardFillerBytes | Bootloaders/DFU/BootloaderDFU.c:583-603 | discarding in place follows the discard function, fetched packets counted |
| DfuDevice.DfuBootloader.ReceiveFlashWords | Bootloaders/DFU/BootloaderDFU.c:331-380 | the word loop on flash is the download function, aborts included |
| DfuDevice.DfuBootloader.ReceiveFirmware | Bootloaders/DFU/BootloaderDFU.c:311-411 | the data stage after a memory program command |
| DfuDevice.DfuBootloader.HandleDnload | Bootloaders/DFU/BootloaderDFU.c:270-417 | the in-place handler of DNLOAD is its function |
| DfuDevice.DfuBootloader.HandleUpload | Bootloaders/DFU/BootloaderDFU.c:418-516 | the in-place handler of UPLOAD is its function, packets included |
| DfuDevice.DfuBootloader.HandleStatus | Bootloaders/DFU/BootloaderDFU.c:517-575 | the in-place handlers of the status, state and abort requests are their function |
| DfuDevice.DfuBootloader.ProcessBootloaderCommand | Bootloaders/DFU/BootloaderDFU.c:609-652 | secure-mode filter and dispatch |
| DfuDevice.DfuBootloader.ProcessMemProgCommand | Bootloaders/DFU/BootloaderDFU.c:674-698 | addresses loaded, first page erased, download state entered |
| DfuDevice.DfuBootloader.BlankCheck | Bootloaders/DFU/BootloaderDFU.c:715-741 | finds the first byte of the application section that is not blank, if there is one |
| DfuDevice.DfuBootloader.ProcessMemReadCommand | Bootloaders/DFU/BootloaderDFU.c:704-742 | upload state entered, or the blank check and its error report |
| DfuDevice.DfuBootloader.ProcessWriteCommand | Bootloaders/DFU/BootloaderDFU.c:747-796 | start commands, and the chip erase that unlocks |
| DfuDevice.DfuBootloader.ProcessReadCommand | Bootloaders/DFU/BootloaderDFU.c:801-844 | bootloader and signature bytes, and the error for any other index |
| DfuDevice.DfuBootloader.ControlRequest | Bootloaders/DFU/BootloaderDFU.c:253-576 | every request changes the device and answers as the step function says |
| DfuDevice.DfuBootloader.HandleSession | Bootloaders/DFU/BootloaderDFU.c:253-576 | on the object: a session never changes the boot section, leaves a device that stays locked with its flash as it was, and ends the bootloader exactly by a start by jump over a blank word 0 |
| DfuDevice.DfuBootloader.DownloadAndVerify | Bootloaders/DFU/BootloaderDFU.c:270-516 | on the object: what comes back from a download and an upload, and exactly when it is the payload |
| DfuDevice.DfuBootloader.DownloadToPage | Bootloaders/DFU/BootloaderDFU.c:270-652 | on the object: the same for a range of any 64 KB page, which is selected first |
| DfuDevice.DfuBootloader.DownloadEeprom | Bootloaders/DFU/BootloaderDFU.c:270-516 | on the object: the same for the EEPROM, with the bytes that were kept |
| HostLoader.ParseLineLoads | Bootloaders/HID/HostLoaderApp/hid_bootloader_cli.c:942-1007 | the line printed for a record loads exactly that record |
| HostLoader.ParseLineIs | Bootloaders/HID/HostLoaderApp/hid_bootloader_cli.c:942-1007 | what the line of any record does under any base with any checksum byte: refused if and only if the sum of base, address and count, in 32 bits, is at or above the image size, or it is data with a wrong checksum; data goes to its addresses in 32 bits |
| HostLoader.StoresOutsideIff | Bootloaders/HID/HostLoaderApp/hid_bootloader_cli.c:960-1000 | under every base that reading reaches, a line stores outside the image if and only if it is a data record that reaches the end of the 32-bit range |
| HostLoader.FileStoresOutsideIff | Bootloaders/HID/HostLoaderApp/hid_bootloader_cli.c:897-931 | the same for every file of records, in bounds or not |
| HostLoader.FileKeepsBase | Bootloaders/HID/HostLoaderApp/hid_bootloader_cli.c:968-990 | whatever a file holds, the base stays at or below 0xFFFF0000 |
| HostLoader.LastByteStored | Bootloaders/HID/HostLoaderApp/hid_bootloader_cli.c:960-1000 | the two lines `:02000004FFFFFC` and `:01FFFF000001` store a byte at index 0xFFFFFFFF |
| HostLoader.WrongChecksum | Bootloaders/HID/HostLoaderApp/hid_bootloader_cli.c:958-1005 | with a wrong checksum only data is refused, after all of it has been stored; an end of file counts and a base is ignored |
| HostLoader.BadEndAccepted | Bootloaders/HID/HostLoaderApp/hid_bootloader_cli.c:963-967 | the line `:00000001FE` is read as the end of the file |
| HostLoader.ReadFileLoads | Bootloaders/HID/HostLoaderApp/hid_bootloader_cli.c:897-931 | a file of valid records gives the overlay of its data records, later ones winning, each at the base in force, and returns their total length |
| HostLoader.ReadingStops | Bootloaders/HID/HostLoaderApp/hid_bootloader_cli.c:897-931 | reading stops with an error at the first data line with a wrong checksum, whose bytes are in the image by then |
| HostLoader.LinearBaseIs | Bootloaders/HID/HostLoaderApp/hid_bootloader_cli.c:978-990 | the base of a type 04 record is its value times 64 KiB, less 0x60000000 on large devices with large blocks |
| HostLoader.ShapeRefused | Bootloaders/HID/HostLoaderApp/hid_bootloader_cli.c:949-957 | a line that is too short for its count, has no colon or lacks a digit where a field starts is refused and changes nothing |
| HostLoader.LinesSkipped | Bootloaders/HID/HostLoaderApp/hid_bootloader_cli.c:916-927 | empty lines and everything behind the end-of-file record are skipped |
| HostLoader.LowerCaseRead | Bootloaders/HID/HostLoaderApp/hid_bootloader_cli.c:942-1007 | digits may be written in lower case |
| Hid.ReportPrograms | Bootloaders/HID/BootloaderHID.c:145-208 | a complete report for an application page replaces exactly that page if pages have at most 256 bytes, and leaves it erased if they have more |
| Hid.LargePageErased | Bootloaders/HID/BootloaderHID.c:178-203 | with pages above 256 bytes no report, however long, writes a page: it erases it and waits for ever |
| Hid.StartReportIff | Bootloaders/HID/BootloaderHID.c:163-172 | a report clears the run flag if and only if its first word is 0xFFFF, and then leaves flash alone |
| Hid.StartReport | Bootloaders/HID/BootloaderHID.c:163-172 | the start report, in packets, with anything behind the word |
| Hid.ReportKeepsBoot | Bootloaders/HID/BootloaderHID.c:158-203 | no report changes the boot section |
| Hid.ReportsKeepBoot | Bootloaders/HID/BootloaderHID.c:133-210 | no sequence of reports does |
| Hid.AddressRoundTrip | Bootloaders/HID/HostLoaderApp/hid_bootloader_cli.c:183-193 | in both AVR formats the device decodes the page the host encoded, and never the start code |
| Hid.ReportCarries | Bootloaders/HID/HostLoaderApp/hid_bootloader_cli.c:182-204 | in all three formats a report carries the block address and the block, which is the image where it was loaded and 0xFF elsewhere |
| Hid.ProgrammedPages | Bootloaders/HID/HostLoaderApp/hid_bootloader_cli.c:172-206 | after the programming loop page 0, and every other application page that was given a byte other than 0xFF, is the image where it was loaded and 0xFF elsewhere; every other page is unchanged |
| Hid.FileToFlash | Bootloaders/HID/HostLoaderApp/hid_bootloader_cli.c:172-206 | from the text of a HEX file to the pages of the device, across both programs, under the same condition |
| HidDevice.HidBootloader.SetReport | Bootloaders/HID/BootloaderHID.c:145-208 | the in-place handler is the report function |
| HidDevice.HidBootloader.FillPage | Bootloaders/HID/BootloaderHID.c:179-191 | the word loop fills the page buffer from the packets |
| HidDevice.HexFileLoader.ParseHexLine | Bootloaders/HID/HostLoaderApp/hid_bootloader_cli.c:942-1007 | the in-place parser of a line is the line function, stores outside the arrays included |
| HidDevice.HexFileLoader.ReadIntelHex | Bootloaders/HID/HostLoaderApp/hid_bootloader_cli.c:897-931 | the reading loop is the file function, up to the first bad line or the end record |
| HidDevice.HexFileLoader.BytesWithinRange | Bootloaders/HID/HostLoaderApp/hid_bootloader_cli.c:1009-1021 | finds whether a block holds any masked byte |
| HidDevice.HexFileLoader.MemoryIsBlank | Bootloaders/HID/HostLoaderApp/hid_bootloader_cli.c:1043-1053 | finds whether every masked byte of a block is 0xFF |
| HidDevice.HexFileLoader.GetData | Bootloaders/HID/HostLoaderApp/hid_bootloader_cli.c:1023-1041 | a block's image bytes where masked, 0xFF elsewhere |
| HidDevice.HexFileLoader.ProgramDevice | Bootloaders/HID/HostLoaderApp/hid_bootloader_cli.c:172-206 | the address loop played against the device is the programming function, first block always sent |
| HidDevice.HexFileLoader.ProgramFile | Bootloaders/HID/HostLoaderApp/hid_bootloader_cli.c:99-206 | on the objects: reading a file of records and programming a device leaves every application page as the records say, page 0 and the pages with code written, the others unchanged |
| HexAgreement.HostReadsImage | Bootloaders/HID/HostLoaderApp/hid_bootloader_cli.c:897-1007 | the host loader masks exactly a consecutive file's addresses and holds its image there |
| HexAgreement.ReadersAgree | Bootloaders/Printer/BootloaderPrinter.c:238-369 | on every consecutive file of even-count records, printer flash equals the host loader's image at every masked address if and only if the image fills a page or is blank |
| Cdc.FetchNext | Bootloaders/CDC/BootloaderCDC.c:382-401 | however the stream is cut into packets, empty ones included, fetching takes its next byte |
| Cdc.ResponseFraming | Bootloaders/CDC/BootloaderCDC.c:408-427 | the packets of a response concatenate to its bytes, all full but the last, which is shorter than 16 |
| Cdc.TaskFraming | Bootloaders/CDC/BootloaderCDC.c:623-649 | the same for the response to every command |
| CdcBlocks.AddressStaysEven | Bootloaders/CDC/BootloaderCDC.c:432-656 | every command keeps the address counter even |
| CdcBlocks.AddressAlwaysEven | Bootloaders/CDC/BootloaderCDC.c:432-656 | the counter is even after every run of commands |
| CdcBlocks.ReadFlashIs | Bootloaders/CDC/BootloaderCDC.c:298-316 | with an even counter the read loop returns consecutive flash bytes |
| CdcBlocks.WriteFlashFolds | Bootloaders/CDC/BootloaderCDC.c:334-354 | over any packets and for any size the write loop puts the whole words of the stream in the page buffer, wrapping round at its end |
| CdcBlocks.FoldIs | Bootloaders/CDC/BootloaderCDC.c:334-354 | after that each place of the buffer holds the last byte of the stream that falls on it, or what it held before |
| CdcBlocks.WriteBlockTask | Bootloaders/CDC/BootloaderCDC.c:326-373 | a block write changes the page at the address counter, if it is one of the application section, and nothing else, for every address and size |
| CdcBlocks.BlockRoundTrip | Bootloaders/CDC/BootloaderCDC.c:276-374 | set-address, block write, set-address and block read return what flash then holds, for every even address and every size; exactly when that is the block is stated (at a page and up to its size: an even size or a last byte of 0xFF) |
| CdcEeprom.EepromRoundTrip | Bootloaders/CDC/BootloaderCDC.c:276-374 | set-address to word w, EEPROM block write, set-address and block read: cell w + i modulo the size holds the last byte that fell on it, the other cells and flash are unchanged, and a block no larger than the EEPROM comes back |
| CdcEeprom.WriteEepromLays | Bootloaders/CDC/BootloaderCDC.c:355-363 | the write loop lays the stream in consecutive cells, for any packets |
| CdcEeprom.ReadEepromIs | Bootloaders/CDC/BootloaderCDC.c:317-324 | the read loop returns consecutive cells |
| CdcCommands.ExitIff | Bootloaders/CDC/BootloaderCDC.c:444-450 | the run flag is cleared by command E and by no other |
| CdcCommands.FixedAnswers | Bootloaders/CDC/BootloaderCDC.c:451-499 | the commands with fixed answers, byte for byte, change nothing |
| CdcCommands.HardwareAnswers | Bootloaders/CDC/BootloaderCDC.c:500-596 | signature, lock, fuses, page size and the flash word at the counter, as they are answered, and nothing changes |
| CdcCommands.UnknownAnswer | Bootloaders/CDC/BootloaderCDC.c:617-621 | every other command is answered with a question mark and changes nothing |
| CdcCommands.UnknownMemory | Bootloaders/CDC/BootloaderCDC.c:289-295 | so is a block transfer for a memory other than F and E |
| CdcCommands.EraseTask | Bootloaders/CDC/BootloaderCDC.c:506-514 | command e blanks the application section and nothing else |
| CdcCommands.WritePageTask | Bootloaders/CDC/BootloaderCDC.c:576-583 | command m commits the buffer to an erased application page at the counter, and is refused elsewhere |
| CdcCommands.FillTask | Bootloaders/CDC/BootloaderCDC.c:557-575 | each single-byte fill sets the whole word at the counter to its byte and 0, and only c moves the counter |
| CdcCommands.FilledWordIff | Bootloaders/CDC/BootloaderCDC.c:557-575 | a word sent as two bytes arrives if and only if its high byte is 0 |
| CdcCommands.EepromByteTasks | Bootloaders/CDC/BootloaderCDC.c:597-616 | commands D and d write and read the cell at the counter and move on by one cell |
| CdcBlocks.RunKeepsBoot | Bootloaders/CDC/BootloaderCDC.c:432-656 | no run of commands changes the boot section |
| CdcDevice.CdcBootloader.FetchNextCommandByte | Bootloaders/CDC/BootloaderCDC.c:382-401 | the packet loop is the fetch function |
| CdcDevice.CdcBootloader.WriteNextResponseByte | Bootloaders/CDC/BootloaderCDC.c:408-427 | a full bank is sent before the byte is added |
| CdcDevice.CdcBootloader.ReadWriteMemoryBlock | Bootloaders/CDC/BootloaderCDC.c:276-374 | the in-place block transfer is the block function, response included |
| CdcDevice.CdcBootloader.CdcTask | Bootloaders/CDC/BootloaderCDC.c:432-656 | one command in, one framed response out, as the task function says; nothing without a command |
| CdcDevice.CdcBootloader.Serve | Bootloaders/CDC/BootloaderCDC.c:432-656 | on the object: a run of commands keeps the boot section and the even counter |
| CdcDevice.CdcBootloader.WriteAndReadBlock | Bootloaders/CDC/BootloaderCDC.c:276-374 | on the object: flash after a block write, and exactly when the block read returns the block |
| CdcDevice.CdcBootloader.WriteAndReadEeprom | Bootloaders/CDC/BootloaderCDC.c:276-374 | on the object: the EEPROM after a block write, and that a block no larger than it comes back |

## Left out

- USB descriptors, enumeration, class requests other than those above, line encoding, timeouts and the host loader's device access: foreign calls and tables.
- Hardware setup, LEDs, watchdog, timers and Application_Jump_Check: register accesses that one function settles.
- The host loader's option parsing and MCU table: constants; its target sizes are parameters here.
- The corner cases of sscanf in the host loader (leading blanks, signs, 0x): hex fields are digit strings here.
- HidDevice.HexFileLoader.ParseHexLine: a store outside the two arrays is kept apart from everything else; what it overwrites in the host process is not modelled.
- PrinterStart.PrintedAtIff: odd start addresses and records that are not consecutive are covered by the stream properties only.
- PrinterOdd.PrintedRecords: after an odd record that ends a page only the next word is stated (WordMissesPage), not the whole file.
- DfuTransfer.DownloadStores: page sizes are 32 to 256, since the control endpoint holds 32 bytes and the word count of a page 8 bits.
- DfuTransfer.DownloadIff: ranges that run past the end of flash are left to DownloadStores, because flash has no bytes there to compare.
- Hid.ProgrammedPages: stated for targets whose block is the device's page and whose address format is one of the two AVR ones; the 64-byte Teensy format reaches no LUFA device.
- DfuEeprom.EepromDownload: the range does not run over the end of the 16-bit EEPROM addresses.
- CdcEeprom.EepromRoundTrip: the 16-bit EEPROM addresses do not wrap, or wrap at a multiple of the EEPROM size, as for every power of two.
- DiskHost.WritesFile: the file lies on the medium, as it does with the directory at reset.
- Cdc.TaskFraming: the device stays attached while a response is sent.
- CdcBlocks.BlockRoundTrip: addresses up to 128 KiB, all that a 16-bit word address can name; the lock-bit write of command `l` has no effect in the model.
- hid_bootloader_loader.py, and every project outside Bootloaders/: not part of this model.
