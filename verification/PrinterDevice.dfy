/**
 The printer bootloader as the source writes it: static state updated in place, flash operations performed as it goes.
 */
module PrinterDevice {
  import opened Bits
  import opened FlashMachine
  import opened HexText
  import opened Printer
  import opened PrinterImage
  import opened PrinterStart
  import opened PrinterStream

  class PrinterBootloader {
    const flash: FlashMemory
    var parserState: ParseState
    var prevData: byte
    var data: byte
    var readMSB: bool
    var recordType: byte
    var dataRem: byte
    var checksum: byte
    var pageStartAddress: nat
    var currBaseAddress: nat
    var currAddress: nat
    var pageDirty: bool
    var runBootloader: bool

    constructor (flash: FlashMemory)
      requires flash.Valid()
      ensures this.flash == flash && Valid()
      ensures State() == Machine(INITIAL, flash.State())
    {
      this.flash := flash;
      parserState, prevData, data, readMSB, recordType, dataRem, checksum := WaitLine, 0, 0, false, 0, 0, 0;
      pageStartAddress, currBaseAddress, currAddress, pageDirty, runBootloader := 0, 0, 0, false, true;
    }

    ghost predicate Valid()
      reads this, flash
    {
      flash.Valid()
    }

    ghost function Fields(): Parser
      reads this
    {
      Parser(parserState, prevData, data, readMSB, recordType, dataRem, checksum, pageStartAddress,
             currBaseAddress, currAddress, pageDirty, runBootloader)
    }

    ghost function State(): Machine
      reads this, flash
    {
      Machine(Fields(), flash.State())
    }

    method FlushPageIfRequired()
      requires Valid()
      modifies this, flash
      ensures Valid()
      ensures var (p, ops) := Flush(flash.chip, old(Fields()));
              Fields() == p && flash.State() == Run(flash.chip, old(flash.State()), ops)
    {
      hide And, Apply;
      if !pageDirty {
        return;
      }
      var newPageStartAddress := And(currAddress, AddressSpace(flash.chip) - flash.chip.pageSize);
      if pageStartAddress != newPageStartAddress {
        RunTwo(flash.chip, flash.State(), Write(pageStartAddress), Write(0));
        flash.WritePage(pageStartAddress);
        pageStartAddress := newPageStartAddress;
        pageDirty := false;
      }
    }

    method WriteDataWord(newDataWord: word)
      requires Valid()
      modifies this, flash
      ensures Valid()
      ensures var (p, ops) := DataWord(flash.chip, old(Fields()), newDataWord);
              Fields() == p && flash.State() == Run(flash.chip, old(flash.State()), ops)
    {
      hide And, Apply, Run, Flush;
      ghost var chip, f0, p0 := flash.chip, flash.State(), Fields();
      ghost var erase, fill := Erase(pageStartAddress), Fill(currAddress, newDataWord);
      RunTwo(chip, f0, erase, fill);
      RunTwo(chip, f0, fill, fill);
      if !pageDirty {
        flash.ErasePage(pageStartAddress);
        pageDirty := true;
      }
      flash.FillWord(currAddress, newDataWord);
      currAddress := (currAddress + 2) % AddressSpace(flash.chip);
      ghost var filled := if p0.pageDirty then [fill] else [erase, fill];
      assert flash.State() == Run(chip, f0, filled);
      RunConcat(chip, f0, filled, Flush(chip, Fields()).1);
      FlushPageIfRequired();
    }

    /** The READ_DATA case of the parser. */
    method ReadDataByte()
      requires Valid()
      modifies this, flash
      ensures Valid()
      ensures var (p, ops) := DataByte(flash.chip, old(Fields()));
              Fields() == p && flash.State() == Run(flash.chip, old(flash.State()), ops)
    {
      hide And, Apply, DataWord;
      dataRem := (dataRem + 255) % 256;
      if currAddress >= flash.chip.bootStart {
        parserState := WaitLine;
        pageDirty := false;
        return;
      }
      if dataRem % 2 == 1 {
        prevData := data;
        return;
      }
      var newDataWord := LE16(prevData, data);
      if recordType == TYPE_DATA {
        WriteDataWord(newDataWord);
      } else if recordType == TYPE_SEGMENT {
        currBaseAddress := (newDataWord * 16) % AddressSpace(flash.chip);
      } else if recordType == TYPE_LINEAR {
        currBaseAddress := (newDataWord * 65536) % AddressSpace(flash.chip);
      }
      if dataRem == 0 {
        parserState := Checksum;
      }
    }

    method ParseIntelHEXByte(readCharacter: char)
      requires Valid()
      modifies this, flash
      ensures Valid() && State() == Advance(flash.chip, old(State()), readCharacter)
    {
      hide Apply, ByteDone, HexToDecimal;
      if parserState.WaitLine? || readCharacter == ':' {
        checksum := 0;
        currAddress := currBaseAddress;
        readMSB := false;
        if readCharacter == ':' {
          parserState := ByteCount;
        }
        return;
      }
      var readCharacterDec := HexToDecimal(readCharacter);
      if readCharacterDec < 0 {
        return;
      }
      data := data * 16 % 256 + readCharacterDec;
      readMSB := !readMSB;
      if !readMSB {
        ProcessByte();
      }
    }

    /** Both digits of a byte of the record have been read. */
    method ProcessByte()
      requires Valid() && !parserState.WaitLine?
      modifies this, flash
      ensures Valid()
      ensures var (p, ops) := ByteDone(flash.chip, old(Fields()));
              Fields() == p && flash.State() == Run(flash.chip, old(flash.State()), ops)
    {
      hide And, Apply, DataByte, Flush;
      if !parserState.Checksum? {
        checksum := (checksum + data) % 256;
      }
      match parserState {
        case ByteCount =>
          dataRem := data;
          parserState := AddressHigh;
        case AddressHigh =>
          currAddress := (currAddress + data * 256) % AddressSpace(flash.chip);
          parserState := AddressLow;
        case AddressLow =>
          currAddress := (currAddress + data) % AddressSpace(flash.chip);
          parserState := RecordType;
        case RecordType =>
          recordType := data;
          parserState := if dataRem != 0 then ReadData else Checksum;
        case ReadData =>
          ReadDataByte();
        case Checksum =>
          if data == (255 - checksum + 1) % 256 {
            FlushPageIfRequired();
            if recordType == TYPE_EOF {
              runBootloader := false;
            }
          }
        case WaitLine =>
          assert false;
      }
    }

    /** The main loop's inner loop: every received byte goes to the parser. */
    method Receive(bytes: string)
      requires Valid()
      modifies this, flash
      ensures Valid() && State() == Print(flash.chip, old(State()), bytes)
      ensures flash.mem[flash.chip.bootStart..] == old(flash.mem)[flash.chip.bootStart..]
    {
      hide Advance;
      ghost var chip, m0 := flash.chip, State();
      assert bytes[..0] == [];
      for i := 0 to |bytes|
        invariant Valid() && State() == Print(chip, m0, bytes[..i])
      {
        ghost var m := State();
        ParseIntelHEXByte(bytes[i]);
        PrintConcat(chip, m0, bytes[..i], [bytes[i]]);
        assert bytes[..i + 1] == bytes[..i] + [bytes[i]];
        assert [bytes[i]][1..] == [];
        assert Print(chip, m, [bytes[i]]) == Advance(chip, m, bytes[i]);
      }
      assert bytes[..|bytes|] == bytes;
      BootSectionKept(chip, m0, bytes);
    }

    /** A whole HEX file for an image at address 0, printed to the device after reset: the image is in its flash. */
    method ReceiveImage(chunks: seq<seq<byte>>, eol: string)
      requires Valid() && Fields() == INITIAL && EvenRecords(chunks) && Ignorable(eol)
      requires |Concat(chunks)| <= flash.chip.bootStart && |Concat(chunks)| <= 65536
      modifies this, flash
      ensures Valid() && !runBootloader
      ensures var img, p := Concat(chunks), flash.chip.pageSize;
              && |img| + Padding(flash.chip, |img|) <= flash.chip.bootStart && p <= flash.chip.bootStart
              && flash.mem == (if |img| == 0 || |img| >= p then Overwrite(old(flash.mem), 0, Padded(flash.chip, img))
                               else Overwrite(old(flash.mem), 0, Blank(p)))
      ensures |Concat(chunks)| >= flash.chip.pageSize ==> flash.mem[..|Concat(chunks)|] == Concat(chunks)
    {
      hide Print, HexFile, Padded, Padding, Overwrite, Concat;
      ghost var f0 := flash.State();
      PrintedImage(flash.chip, f0, chunks, eol);
      PrintedImageIff(flash.chip, f0, chunks, eol);
      FirstPageFits(flash.chip);
      Receive(HexFile(chunks, eol));
    }

    lemma {:induction false} FirstPageFits(chip: Chip)
      requires chip.Valid()
      ensures chip.pageSize <= chip.bootStart
    {
      RemSmall(0, chip.pageSize);
      RemGap(0, chip.bootStart, chip.pageSize);
    }

    /** The same for an image at some other address: it is in flash exactly under the stated condition. */
    method ReceiveImageAt(a: nat, chunks: seq<seq<byte>>, eol: string)
      requires Valid() && Fields() == INITIAL && Ignorable(eol) && Placeable(flash.chip, a, chunks)
      modifies this, flash
      ensures Valid() && |Concat(chunks)| >= 2
      ensures var img := Concat(chunks);
              flash.mem[a..a + |img|] == img
              <==> if a < flash.chip.pageSize then a + |img| >= flash.chip.pageSize || forall b <- img :: b == ERASED
                   else img[..2] == FirstWordThen(flash.chip, old(flash.mem), a, |img|)
    {
      hide Print, FileAt, Concat, FirstWordThen, EvenRecords;
      PrintedAtIff(flash.chip, flash.State(), a, chunks, eol);
      FileAtFits(flash.chip, a, chunks);
      Receive(FileAt(a, chunks, eol));
    }

    lemma {:induction false} FileAtFits(chip: Chip, a: nat, chunks: seq<seq<byte>>)
      requires Placeable(chip, a, chunks)
      ensures forall c <- chunks :: 0 < |c| < 256
    {
    }
  }
}
