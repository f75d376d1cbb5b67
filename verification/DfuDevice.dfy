/** BootloaderDFU.c as the source writes it: static variables and memories updated in place by the request handlers. */
module DfuDevice {
  import opened Bits
  import opened FlashMachine
  import opened Endpoint
  import opened Dfu
  import opened DfuExit
  import opened DfuSecure
  import opened DfuTransfer
  import opened DfuCommands
  import opened DfuEeprom

  /** The control endpoint during one request; the host takes `inCredits` more packets and then detaches. */
  class ControlEndpoint {
    var outPipe: OutPipe
    var inBank: packet
    var inSent: seq<packet>
    var inCredits: nat

    constructor ()
    {
      outPipe, inBank, inSent, inCredits := OutPipe([], []), [], [], 0;
    }

    /** The data stage of the next request. */
    method Open(out: seq<packet>, credits: nat)
      modifies this
      ensures outPipe == OutPipe([], out) && inBank == [] && inSent == [] && inCredits == credits
    {
      outPipe, inBank, inSent, inCredits := OutPipe([], out), [], [], credits;
    }

    /** Sends the bank. */
    method Flush()
      modifies this`inBank, this`inSent
      ensures inSent == old(inSent) + [old(inBank)] && inBank == []
      ensures old(inSent) == [] ==> inSent == [old(inBank)]
    {
      inSent, inBank := inSent + [inBank], [];
    }

    method DiscardFillerBytes(numberOfBytes: byte)
      modifies this`outPipe
      ensures outPipe == Discard(old(outPipe), numberOfBytes)
    {
      ghost var p0 := outPipe;
      var n := numberOfBytes;
      while n > 0
        invariant 0 <= n && Discard(outPipe, n) == Discard(p0, numberOfBytes)
      {
        n := n - 1;
        if outPipe.bank == [] {
          if outPipe.pending == [] {
            return;
          }
          outPipe := NextPacket(outPipe);
        } else {
          outPipe := outPipe.(bank := outPipe.bank[1..]);
        }
      }
    }

    /** Room for the next bytes in the IN bank: a full bank is sent and waited for. */
    method Write(bs: seq<byte>) returns (attached: bool)
      modifies this`inBank, this`inSent, this`inCredits
      ensures (inBank, inSent, inCredits, attached) == SendByte(old(inBank), old(inSent), old(inCredits), bs)
    {
      if |inBank| == CONTROL_SIZE {
        inSent, inBank := inSent + [inBank], [];
        if inCredits == 0 {
          return false;
        }
        inCredits := inCredits - 1;
        inBank := bs;
        return true;
      }
      inBank := inBank + bs;
      attached := true;
    }
  }

  class DfuBootloader {
    const cfg: Config
    const flash: FlashMemory
    const eeprom: array<byte>
    const sentData: array<byte>
    const endpoint: ControlEndpoint
    var isSecure: bool
    var runBootloader: bool
    var waitForExit: bool
    var resetArmed: bool
    var dfuState: State
    var dfuStatus: byte
    var sentCommand: byte
    var sentDataSize: word
    var responseByte: byte
    var appStartPtr: word
    var flash64KBPage: byte
    var startAddr: word
    var endAddr: word

    ghost predicate Valid()
      reads this, flash, eeprom, sentData
    {
      cfg.Valid() && flash.Valid() && flash.chip == cfg.chip && eeprom != sentData && DeviceState().Fits(cfg)
    }

    ghost function DeviceState(): Dfu
      reads this, flash, eeprom, sentData
    {
      Dfu(isSecure, runBootloader, waitForExit, resetArmed, dfuState, dfuStatus, sentCommand, sentData[..],
          sentDataSize,
          responseByte, appStartPtr, flash64KBPage, startAddr, endAddr, flash.State(), eeprom[..])
    }

    constructor (cfg: Config, flash: FlashMemory, eeprom: array<byte>, secureMode: bool)
      requires cfg.Valid() && flash.Valid() && flash.chip == cfg.chip && eeprom.Length == cfg.eepromSize
      ensures Valid() && fresh(sentData) && fresh(endpoint)
      ensures this.cfg == cfg && this.flash == flash && this.eeprom == eeprom
      ensures DeviceState() == Dfu(secureMode, true, false, false, Idle, STATUS_OK, 0, [0, 0, 0, 0, 0], 0, 0,
                                   0, 0, 0, 0,
                                   flash.State(), eeprom[..])
    {
      this.cfg, this.flash, this.eeprom := cfg, flash, eeprom;
      sentData := new byte[5](_ => 0);
      isSecure, runBootloader, waitForExit, resetArmed := secureMode, true, false, false;
      dfuState, dfuStatus, sentCommand, sentDataSize, responseByte := Idle, STATUS_OK, 0, 0, 0;
      appStartPtr, flash64KBPage, startAddr, endAddr := 0, 0, 0, 0;
      endpoint := new ControlEndpoint();
      new;
      assert sentData[..] == [0, 0, 0, 0, 0];
    }

    function CurrFlashAddress(): (a: nat)
      reads this
    {
      startAddr + 0x1_0000 * (flash64KBPage as int)
    }

    // -- Commands ------------------------------------------------------------------------------------

    method ProcessMemProgCommand()
      requires Valid()
      modifies this, flash
      ensures Valid() && DeviceState() == MemProg(cfg, old(DeviceState()))
    {
      hide Apply;
      if sentData[0] == 0x00 || sentData[0] == 0x01 {
        startAddr, endAddr := LE16(sentData[2], sentData[1]), LE16(sentData[4], sentData[3]);
        if sentData[0] == 0x00 {
          flash.ErasePage(CurrFlashAddress());
        }
        dfuState := DnloadIdle;
      }
    }

    /** The first byte of the application section that is not blank. */
    method BlankCheck() returns (currFlashAddress: nat)
      requires cfg.chip.Valid() && flash.Valid() && flash.chip == cfg.chip
      ensures currFlashAddress <= cfg.chip.bootStart
      ensures forall a :: 0 <= a < currFlashAddress ==> FlashByte(cfg.chip, flash.State(), a) == ERASED
      ensures currFlashAddress < cfg.chip.bootStart ==> FlashByte(cfg.chip, flash.State(), currFlashAddress) != ERASED
      ensures currFlashAddress == FirstNonBlank(cfg, flash.State(), 0)
    {
      hide FlashByte;
      currFlashAddress := 0;
      while currFlashAddress < cfg.chip.bootStart
            && FlashByte(cfg.chip, Flash(flash.mem, flash.buf), currFlashAddress) == ERASED
        invariant currFlashAddress <= cfg.chip.bootStart
        invariant forall a :: 0 <= a < currFlashAddress ==> FlashByte(cfg.chip, flash.State(), a) == ERASED
        invariant FirstNonBlank(cfg, flash.State(), currFlashAddress) == FirstNonBlank(cfg, flash.State(), 0)
      {
        currFlashAddress := currFlashAddress + 1;
      }
    }

    method ProcessMemReadCommand()
      requires Valid()
      modifies this
      ensures Valid() && DeviceState() == MemRead(cfg, old(DeviceState()))
    {
      if sentData[0] == 0x00 || sentData[0] == 0x02 {
        startAddr, endAddr := LE16(sentData[2], sentData[1]), LE16(sentData[4], sentData[3]);
        dfuState := UploadIdle;
      } else if sentData[0] == 0x01 {
        var currFlashAddress := BlankCheck();
        if currFlashAddress < cfg.chip.bootStart {
          flash64KBPage := currFlashAddress / 0x1_0000 % 256;
          startAddr := currFlashAddress % 0x1_0000;
          dfuState, dfuStatus := Error, ERR_CHECK_ERASED;
        }
      }
    }

    method ProcessWriteCommand()
      requires Valid()
      modifies this, flash
      ensures Valid() && DeviceState() == WriteCommand(cfg, old(DeviceState()))
    {
      hide Apply;
      if sentData[0] == 0x03 {
        waitForExit := true;
        if sentDataSize != 0 {
          if sentData[1] == 0x01 {
            appStartPtr := LE16(sentData[4], sentData[3]);
          }
        } else if sentData[1] == 0x00 {
          resetArmed := true;
        } else if FlashByte(cfg.chip, Flash(flash.mem, flash.buf), 0) == ERASED
                  && FlashByte(cfg.chip, Flash(flash.mem, flash.buf), 1) == ERASED {
          runBootloader := false;
        }
      } else if sentData[0] == 0x00 && sentData[1] == 0xFF {
        flash.EraseApplication();
        isSecure := false;
      }
    }

    method ProcessReadCommand()
      requires Valid()
      modifies this
      ensures Valid() && DeviceState() == ReadCommand(cfg, old(DeviceState()))
    {
      var dataIndexToRead, readAddressInvalid := sentData[1], false;
      if sentData[0] == 0x00 {
        if dataIndexToRead < 3 {
          responseByte := BOOTLOADER_INFO[dataIndexToRead];
        } else {
          readAddressInvalid := true;
        }
      } else if sentData[0] == 0x01 {
        if dataIndexToRead == 0x30 {
          responseByte := 0x58;
        } else if dataIndexToRead == 0x31 {
          responseByte := cfg.signature[0];
        } else if dataIndexToRead == 0x60 {
          responseByte := cfg.signature[1];
        } else if dataIndexToRead == 0x61 {
          responseByte := cfg.signature[2];
        } else {
          readAddressInvalid := true;
        }
      }
      if readAddressInvalid {
        dfuState, dfuStatus := Error, ERR_ADDRESS;
      }
    }

    method ProcessBootloaderCommand()
      requires Valid()
      modifies this, flash
      ensures Valid() && DeviceState() == ProcessCommand(cfg, old(DeviceState()))
    {
      hide MemProg, MemRead, WriteCommand, ReadCommand;
      if isSecure {
        if !((sentCommand == COMMAND_WRITE && sentData[0] == 0x00 && sentData[1] == 0xFF)
             || sentCommand == COMMAND_READ) {
          dfuState, dfuStatus := Error, ERR_WRITE;
          return;
        }
      }
      if sentCommand == COMMAND_PROG_START {
        ProcessMemProgCommand();
      } else if sentCommand == COMMAND_DISP_DATA {
        ProcessMemReadCommand();
      } else if sentCommand == COMMAND_WRITE {
        ProcessWriteCommand();
      } else if sentCommand == COMMAND_READ {
        ProcessReadCommand();
      } else if sentCommand == COMMAND_CHANGE_BASE_ADDR {
        if sentData[0] == 0x03 && sentData[1] == 0x00 {
          flash64KBPage := sentData[2];
        }
      }
    }

    // -- DNLOAD --------------------------------------------------------------------------------------

    /** The loop over the words of a flash download. */
    method ReceiveFlashWords(address: nat, words: nat) returns (finished: bool)
      requires cfg.chip.Valid() && flash.Valid() && flash.chip == cfg.chip
      modifies endpoint, flash
      ensures flash.Valid()
      ensures (flash.State(), finished) ==
              FlashWords(cfg.chip, old(flash.State()), old(endpoint.outPipe), address, address, 0, words)
    {
      hide Apply, Read16, Refill;
      ghost var goal := FlashWords(cfg.chip, flash.State(), endpoint.outPipe, address, address, 0, words);
      var wordsRemaining, currFlashAddress := words, address;
      var currFlashPageStartAddress, wordsInFlashPage := address, 0;
      while wordsRemaining > 0
        invariant flash.Valid() && 0 <= wordsInFlashPage < 256
        invariant FlashWords(cfg.chip, flash.State(), endpoint.outPipe, currFlashAddress, currFlashPageStartAddress,
                             wordsInFlashPage, wordsRemaining) == goal
      {
        wordsRemaining := wordsRemaining - 1;
        if endpoint.outPipe.bank == [] && endpoint.outPipe.pending == [] {
          return false;
        }
        var (w, next) := Read16(Refill(endpoint.outPipe));
        endpoint.outPipe := next;
        flash.FillWord(currFlashAddress, w);
        wordsInFlashPage := (wordsInFlashPage + 1) % 256;
        currFlashAddress := (currFlashAddress + 2) % 0x1_0000_0000;
        if wordsInFlashPage == cfg.chip.pageSize / 2 || wordsRemaining == 0 {
          flash.WritePage(currFlashPageStartAddress);
          if wordsRemaining != 0 {
            currFlashPageStartAddress, wordsInFlashPage := currFlashAddress, 0;
            flash.ErasePage(currFlashAddress);
          }
        }
      }
      finished := true;
    }

    method ReceiveEepromBytes(bytes: nat)
      requires eeprom.Length > 0 && eeprom != sentData
      modifies endpoint, this`startAddr, eeprom
      ensures (eeprom[..], startAddr) == EepromBytes(old(eeprom[..]), old(startAddr), old(endpoint.outPipe), bytes)
    {
      hide Rem, Refill, Read8;
      ghost var goal := EepromBytes(eeprom[..], startAddr, endpoint.outPipe, bytes);
      var bytesRemaining := bytes;
      while bytesRemaining > 0
        invariant EepromBytes(eeprom[..], startAddr, endpoint.outPipe, bytesRemaining) == goal
      {
        bytesRemaining := bytesRemaining - 1;
        if endpoint.outPipe.bank == [] && endpoint.outPipe.pending == [] {
          return;
        }
        var (b, next) := Read8(Refill(endpoint.outPipe));
        endpoint.outPipe := next;
        ghost var before := eeprom[..];
        var i := EepromIndex(eeprom[..], startAddr);
        eeprom[i] := b;
        assert eeprom[..] == before[i := b];
        startAddr := (startAddr + 1) % 65536;
      }
    }

    /** The part of DNLOAD that follows a memory program command. */
    method ReceiveFirmware()
      requires Valid()
      modifies this, flash, eeprom, endpoint
      ensures Valid() && DeviceState() == Download(cfg, old(DeviceState()), old(endpoint.outPipe))
    {
      hide FlashWords, EepromBytes, Discard;
      if sentDataSize == 0 {
        dfuState := Idle;
        return;
      }
      endpoint.DiscardFillerBytes(FILLER_SIZE);
      endpoint.DiscardFillerBytes(startAddr % CONTROL_SIZE);
      var bytesRemaining := (endAddr - startAddr + 1) % 65536;
      if sentData[0] == 0x00 {
        var finished := ReceiveFlashWords(CurrFlashAddress(), bytesRemaining / 2);
        if !finished {
          return;
        }
        startAddr := endAddr;
      } else {
        ReceiveEepromBytes(bytesRemaining);
      }
      endpoint.DiscardFillerBytes(SUFFIX_SIZE);
    }

    /** One command parameter. */
    method LoadCommandByte(dataByte: nat)
      requires Valid() && dataByte < 5 && endpoint.outPipe.bank != []
      modifies endpoint, this`sentDataSize, sentData
      ensures Valid()
      ensures var (b, next) := Read8(old(endpoint.outPipe));
              var d := old(DeviceState());
              && DeviceState() == d.(data := d.data[dataByte := b], dataSize := (d.dataSize + 65535) % 65536)
              && endpoint.outPipe == next
    {
      hide Read8;
      var (b, next) := Read8(endpoint.outPipe);
      sentData[dataByte] := b;
      assert sentData[..] == old(sentData[..])[dataByte := b];
      endpoint.outPipe := next;
      sentDataSize := (sentDataSize + 65535) % 65536;
    }

    /** The command parameters in the rest of the first packet. */
    method LoadCommandData()
      requires Valid()
      modifies endpoint, this`sentDataSize, sentData
      ensures Valid() && (DeviceState(), endpoint.outPipe) ==
              ReadCommandData(old(DeviceState()), old(endpoint.outPipe), 0)
    {
      hide Read8, DeviceState, Valid;
      DataLength();
      ghost var goal := ReadCommandData(DeviceState(), endpoint.outPipe, 0);
      var dataByte := 0;
      while dataByte < 5 && endpoint.outPipe.bank != []
        invariant 0 <= dataByte <= 5 && Valid() && |DeviceState().data| == 5
        invariant ReadCommandData(DeviceState(), endpoint.outPipe, dataByte) == goal
      {
        LoadCommandByte(dataByte);
        dataByte := dataByte + 1;
      }
    }

    lemma {:induction false} DataLength()
      requires Valid()
      ensures |DeviceState().data| == 5 && cfg.Valid() && DeviceState().Fits(cfg)
    {
    }

    method ReadCommandCode()
      requires Valid() && endpoint.outPipe.pending != []
      modifies this`sentCommand, this`sentDataSize, endpoint
      ensures Valid()
      ensures var (b, next) := Read8(NextPacket(old(endpoint.outPipe)));
              var d := old(DeviceState());
              && DeviceState() == d.(command := b, dataSize := (d.dataSize + 65535) % 65536)
              && endpoint.outPipe == next
    {
      hide Read8;
      var (b, next) := Read8(NextPacket(endpoint.outPipe));
      sentCommand, endpoint.outPipe := b, next;
      sentDataSize := (sentDataSize + 65535) % 65536;
    }

    method AcceptCommand()
      requires Valid() && endpoint.outPipe.pending != []
      modifies this, flash, sentData, endpoint
      ensures Valid() && (DeviceState(), endpoint.outPipe) ==
              ReceiveCommand(cfg, old(DeviceState()), old(endpoint.outPipe))
    {
      hide ProcessCommand, ReadCommandData, Read8, DeviceState, Valid;
      DataLength();
      ReadCommandCode();
      LoadCommandData();
      ProcessBootloaderCommand();
    }

    /** The command that was waiting for its exit request. */
    method FinishWait()
      requires Valid()
      modifies this, flash
      ensures Valid()
      ensures var d := old(DeviceState());
              DeviceState() == if d.waitForExit then ProcessCommand(cfg, d).(waitForExit := false) else d
    {
      hide ProcessCommand;
      if waitForExit {
        ProcessBootloaderCommand();
        waitForExit := false;
      }
    }

    lemma {:induction false} Fields()
      ensures DeviceState().state == dfuState && DeviceState().dataSize == sentDataSize
      ensures DeviceState().f == flash.State() && DeviceState().eeprom == eeprom[..]
      ensures DeviceState().secure == isSecure && DeviceState().running == runBootloader
      ensures DeviceState().waitForExit == waitForExit && DeviceState().flash64 == flash64KBPage
    {
    }

    method HandleDnload(r: Request)
      requires Valid() && endpoint.outPipe == OutPipe([], r.out)
      modifies this, flash, eeprom, sentData, endpoint
      ensures Valid() && DeviceState() == Dnload(cfg, old(DeviceState()), r)
    {
      hide ProcessCommand, ReceiveCommand, Download, DeviceState, Valid;
      DataLength();
      FinishWait();
      Fields();
      if sentDataSize != 0 {
        if endpoint.outPipe.pending == [] {
          return;
        }
        AcceptCommand();
        Fields();
      }
      if dfuState == DnloadIdle {
        ReceiveFirmware();
      }
    }

    // -- UPLOAD --------------------------------------------------------------------------------------

    method SendFlashWords(address: nat, words: nat) returns (finished: bool)
      modifies endpoint
      ensures (endpoint.inBank, endpoint.inSent, finished) ==
              UploadWords(cfg, flash.State(), address, words, old(endpoint.inBank), old(endpoint.inSent),
                          old(endpoint.inCredits))
    {
      hide SendByte, FlashByte;
      ghost var goal := UploadWords(cfg, flash.State(), address, words, endpoint.inBank, endpoint.inSent,
                                    endpoint.inCredits);
      var wordsRemaining, currFlashAddress := words, address;
      while wordsRemaining > 0
        invariant UploadWords(cfg, flash.State(), currFlashAddress, wordsRemaining,
                              endpoint.inBank, endpoint.inSent, endpoint.inCredits) == goal
      {
        wordsRemaining := wordsRemaining - 1;
        var f := Flash(flash.mem, flash.buf);
        var attached := endpoint.Write([FlashByte(cfg.chip, f, currFlashAddress),
                                        FlashByte(cfg.chip, f, currFlashAddress + 1)]);
        if !attached {
          return false;
        }
        currFlashAddress := (currFlashAddress + 2) % 0x1_0000_0000;
      }
      finished := true;
    }

    method SendEepromBytes(bytes: nat) returns (finished: bool)
      requires eeprom.Length > 0
      modifies endpoint, this`startAddr
      ensures (endpoint.inBank, endpoint.inSent, startAddr, finished) ==
              UploadEeprom(eeprom[..], old(startAddr), bytes, old(endpoint.inBank), old(endpoint.inSent),
                           old(endpoint.inCredits))
    {
      hide SendByte, Rem;
      ghost var goal := UploadEeprom(eeprom[..], startAddr, bytes, endpoint.inBank, endpoint.inSent,
                                     endpoint.inCredits);
      var bytesRemaining := bytes;
      while bytesRemaining > 0
        invariant UploadEeprom(eeprom[..], startAddr, bytesRemaining, endpoint.inBank, endpoint.inSent,
                               endpoint.inCredits) == goal
      {
        bytesRemaining := bytesRemaining - 1;
        var attached := endpoint.Write([eeprom[EepromIndex(eeprom[..], startAddr)]]);
        if !attached {
          return false;
        }
        startAddr := (startAddr + 1) % 65536;
      }
      finished := true;
    }

    method SendMemory()
      requires Valid() && endpoint.inBank == [] && endpoint.inSent == []
      modifies this`startAddr, this`dfuState, endpoint
      ensures Valid() && (DeviceState(), endpoint.inSent) ==
              UploadMemory(cfg, old(DeviceState()), old(endpoint.inCredits))
    {
      hide UploadWords, UploadEeprom;
      var bytesRemaining, finished := (endAddr - startAddr + 1) % 65536, true;
      if sentData[0] == 0x00 {
        finished := SendFlashWords(CurrFlashAddress(), bytesRemaining / 2);
        if finished {
          startAddr := endAddr;
        }
      } else if sentData[0] == 0x02 {
        finished := SendEepromBytes(bytesRemaining);
      }
      if finished {
        dfuState := Idle;
        endpoint.Flush();
      }
    }

    method HandleUpload()
      requires Valid() && endpoint.inBank == [] && endpoint.inSent == []
      modifies this`startAddr, this`dfuState, endpoint
      ensures Valid() && (DeviceState(), endpoint.inSent) == Upload(cfg, old(DeviceState()), old(endpoint.inCredits))
    {
      hide UploadMemory;
      if endpoint.inCredits == 0 {
        return;
      }
      endpoint.inCredits := endpoint.inCredits - 1;
      if dfuState != UploadIdle {
        if dfuState == Error && sentData[0] == 0x01 {
          endpoint.inSent := [[startAddr % 256, startAddr / 256]];
        } else {
          endpoint.inSent := [[responseByte]];
        }
      } else {
        SendMemory();
      }
    }

    method HandleStatus(r: Request) returns (packets: seq<packet>)
      requires Valid()
      modifies this`dfuStatus, this`dfuState
      ensures Valid() && (DeviceState(), packets) == StatusRequest(old(DeviceState()), r)
    {
      packets := [];
      if r.request == REQ_GETSTATUS {
        if r.credits > 0 {
          packets := [[dfuStatus, 0, 0, 0, StateCode(dfuState), 0]];
        }
      } else if r.request == REQ_CLRSTATUS {
        dfuStatus := STATUS_OK;
      } else if r.request == REQ_GETSTATE {
        if r.credits > 0 {
          packets := [[StateCode(dfuState)]];
        }
      } else if r.request == REQ_ABORT {
        dfuState := Idle;
      }
    }

    method StoreLength(length: word)
      requires Valid()
      modifies this`sentDataSize
      ensures Valid() && DeviceState() == old(DeviceState()).(dataSize := length)
    {
      sentDataSize := length;
    }

    /** EVENT_USB_Device_ControlRequest */
    method ControlRequest(r: Request) returns (packets: seq<packet>)
      requires Valid()
      modifies this, flash, eeprom, sentData, endpoint
      ensures Valid() && (DeviceState(), packets) == Step(cfg, old(DeviceState()), r)
    {
      hide Dnload, Upload, StatusRequest, DeviceState, Valid;
      DataLength();
      packets := [];
      if !r.toInterface {
        return;
      }
      StoreLength(r.length);
      endpoint.Open(r.out, r.credits);
      if r.request == REQ_DNLOAD {
        HandleDnload(r);
      } else if r.request == REQ_UPLOAD {
        HandleUpload();
        packets := endpoint.inSent;
      } else {
        packets := HandleStatus(r);
      }
    }

    /**
     A whole session. It never changes the boot section; it leaves a locked device either unlocked or with all its
     flash as it was; and it leaves the bootloader only by a start by jump over a blank first word.
     */
    method HandleSession(rs: seq<Request>) returns (sent: seq<seq<packet>>)
      requires Valid()
      modifies this, flash, eeprom, sentData, endpoint
      ensures Valid() && (DeviceState(), sent) == Session(cfg, old(DeviceState()), rs)
      ensures flash.mem[cfg.chip.bootStart..] == old(flash.mem)[cfg.chip.bootStart..]
      ensures old(Locked(DeviceState())) && old(isSecure) && isSecure ==> flash.mem == old(flash.mem)
      ensures old(runBootloader) ==>
                (!runBootloader <==> exists k :: 0 <= k < |rs| && ExitsAt(cfg, old(DeviceState()), rs, k))
    {
      hide Step, DeviceState, Valid, ExitsAt, Locked;
      DataLength();
      Fields();
      ghost var d0, goal := DeviceState(), Session(cfg, DeviceState(), rs);
      sent := [];
      assert rs[0..] == rs && [] + goal.1 == goal.1;
      for i := 0 to |rs|
        invariant Valid() && cfg.Valid() && DeviceState().Fits(cfg)
        invariant Session(cfg, DeviceState(), rs[i..]).0 == goal.0
        invariant sent + Session(cfg, DeviceState(), rs[i..]).1 == goal.1
      {
        ghost var more := Session(cfg, Step(cfg, DeviceState(), rs[i]).0, rs[i..][1..]).1;
        assert rs[i..][1..] == rs[i + 1..] && rs[i..][0] == rs[i];
        var packets := ControlRequest(rs[i]);
        DataLength();
        assert sent + ([packets] + more) == sent + [packets] + more;
        sent := sent + [packets];
      }
      assert rs[|rs|..] == [] && sent + [] == sent;
      Fields();
      SessionKeepsBoot(cfg, d0, rs);
      LockedEnd(cfg, d0, rs);
      if d0.running {
        SessionExitsIff(cfg, d0, rs);
      }
    }

    lemma {:induction false} LockedEnd(cfg: Config, d: Dfu, rs: seq<Request>)
      requires cfg.Valid() && d.Fits(cfg)
      ensures d.secure && Locked(d) && Session(cfg, d, rs).0.secure ==> Session(cfg, d, rs).0.f == d.f
    {
      hide Session, Locked;
      if d.secure && Locked(d) && Session(cfg, d, rs).0.secure {
        LockedSessionKeepsFlash(cfg, d, rs);
        assert rs[..|rs|] == rs;
      }
    }

    /** Downloading firmware to a range and reading the range back, as a host does it. */
    method DownloadAndVerify(start: word, end: word, filler: seq<byte>, payload: seq<byte>, suffix: seq<byte>,
                             credits: nat)
      returns (got: seq<byte>)
      requires Valid() && Downloadable(cfg, DeviceState(), start, end, filler, payload, suffix)
      requires |payload| <= CONTROL_SIZE * credits && Base(DeviceState(), start) + |payload| <= cfg.chip.flashSize
      modifies this, flash, eeprom, sentData, endpoint
      ensures Valid()
      ensures var a, w := Base(old(DeviceState()), start), Whole(payload);
              var k := Written(cfg.chip, a, |w|);
              && a + |payload| <= |old(flash.mem)|
              && got == w[..k] + old(flash.mem)[a + k..a + |w|]
              && (got == payload <==> |payload| % 2 == 0 && old(flash.mem)[a + k..a + |w|] == w[k..])
    {
      hide Step, DeviceState, Valid, Rem, Packets, ProgramStage, Concat, Whole, Written;
      DataLength();
      Fields();
      ghost var d0 := DeviceState();
      DownloadableSize(cfg, d0, start, end, filler, payload, suffix);
      DownloadThenUpload(cfg, d0, start, end, filler, payload, suffix, credits);
      var _ := ControlRequest(ProgramRequest(start, end, filler, payload, suffix));
      var _ := ControlRequest(ZERO_LENGTH);
      var _ := ControlRequest(DisplayRequest(start, end));
      var sent := ControlRequest(Request(true, REQ_UPLOAD, |payload|, [], credits));
      got := Concat(sent);
    }

    /** The same for a range of any 64 KB page of flash, which the host selects first. */
    method DownloadToPage(page: byte, start: word, end: word, filler: seq<byte>, payload: seq<byte>,
                          suffix: seq<byte>, credits: nat)
      returns (got: seq<byte>)
      requires Valid() && Downloadable(cfg, DeviceState(), start, end, filler, payload, suffix)
      requires |payload| <= CONTROL_SIZE * credits
      requires 0x1_0000 * page as int + start as int + |payload| <= cfg.chip.flashSize
      modifies this, flash, eeprom, sentData, endpoint
      ensures Valid()
      ensures var a, w := 0x1_0000 * page as int + start as int, Whole(payload);
              var k := Written(cfg.chip, a, |w|);
              && a + |payload| <= |old(flash.mem)|
              && got == w[..k] + old(flash.mem)[a + k..a + |w|]
              && (got == payload <==> |payload| % 2 == 0 && old(flash.mem)[a + k..a + |w|] == w[k..])
    {
      hide Step, DeviceState, Valid, Rem, Packets, ProgramStage, Concat, Whole, Written;
      DataLength();
      Fields();
      BaseRequestIs(cfg, DeviceState(), page);
      var _ := ControlRequest(BaseRequest(page));
      DataLength();
      Fields();
      got := DownloadAndVerify(start, end, filler, payload, suffix, credits);
    }

    /** The same for the EEPROM: what comes back is what was kept of the payload. */
    method DownloadEeprom(start: word, end: word, filler: seq<byte>, align: seq<byte>, payload: seq<byte>,
                          suffix: seq<byte>, credits: nat)
      returns (got: seq<byte>)
      requires Valid() && EepromDownloadable(cfg, DeviceState(), start, end, filler, align, payload, suffix)
      requires |payload| <= cfg.eepromSize && |payload| <= CONTROL_SIZE * credits
      modifies this, flash, eeprom, sentData, endpoint
      ensures Valid() && flash.mem == old(flash.mem)
      ensures old(eeprom[..]) != [] && Laid(old(eeprom[..]), eeprom[..], start, Kept(align, payload))
      ensures got == Kept(align, payload)
    {
      hide Step, DeviceState, Valid, Packets, EepromStage, Concat, Kept, Laid;
      DataLength();
      Fields();
      ghost var d0 := DeviceState();
      EepromFits(cfg, d0, start, end, filler, align, payload, suffix);
      EepromDownloadThenUpload(cfg, d0, start, end, filler, align, payload, suffix, credits);
      var _ := ControlRequest(EepromRequest(start, end, filler, align, payload, suffix));
      var _ := ControlRequest(ZERO_LENGTH);
      var _ := ControlRequest(EepromDisplay(start, end));
      var sent := ControlRequest(Request(true, REQ_UPLOAD, |payload|, [], credits));
      got := Concat(sent);
      Fields();
    }

    lemma {:induction false} EepromFits(cfg: Config, d: Dfu, start: word, end: word, filler: seq<byte>,
                                        align: seq<byte>, payload: seq<byte>, suffix: seq<byte>)
      requires EepromDownloadable(cfg, d, start, end, filler, align, payload, suffix)
      ensures |EepromStage(start, end, filler, align, payload, suffix)| < 65536 && payload != [] && d.eeprom != []
    {
      hide EepromStage;
    }

    lemma {:induction false} DownloadableSize(cfg: Config, d: Dfu, start: word, end: word, filler: seq<byte>,
                                              payload: seq<byte>,
                                              suffix: seq<byte>)
      requires Downloadable(cfg, d, start, end, filler, payload, suffix)
      requires Base(d, start) + |payload| <= cfg.chip.flashSize
      ensures |ProgramStage(start, end, filler, payload, suffix)| < 65536 && |payload| < 65536
      ensures Base(d, start) + |payload| <= |d.f.mem|
    {
      hide ProgramStage;
      StageLength(start, end, filler, payload, suffix);
    }
  }
}
