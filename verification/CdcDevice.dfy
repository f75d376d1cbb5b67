/**
 BootloaderCDC.c as the source writes it: an address counter and memories updated in place, endpoint banks filled and
 cleared.
 */
module CdcDevice {
  import opened Bits
  import opened FlashMachine
  import opened Endpoint
  import opened Cdc
  import opened CdcBlocks
  import opened CdcEeprom

  lemma {:induction false} EmitOneMore(o: InPipe, bs: seq<byte>, b: byte)
    ensures EmitAll(o, bs + [b]) == Emit(EmitAll(o, bs), b)
  {
    assert (bs + [b])[..|bs|] == bs;
  }

  /** The packets that carry one command. */
  function Pipe(packets: seq<packet>): (p: OutPipe)
    requires packets != []
  {
    OutPipe(packets[0], packets[1..])
  }

  lemma {:induction false} PipeRest(packets: seq<packet>)
    requires packets != []
    ensures Rest(Pipe(packets)) == Concat(packets)
  {
  }

  function Pipes(commands: seq<seq<packet>>): (ps: seq<OutPipe>)
    requires forall c <- commands :: c != []
    ensures |ps| == |commands| && forall i :: 0 <= i < |ps| ==> commands[i] != [] && ps[i] == Pipe(commands[i])
  {
    if commands == [] then [] else
      assert commands[0] in commands && forall c <- commands[1..] :: c in commands;
      [Pipe(commands[0])] + Pipes(commands[1..])
  }

  /** The commands that answer from the device's state and change nothing. */
  predicate IsQuery(command: byte) {
    || Is(command, 'P') || Is(command, 'L') || Is(command, 't') || Is(command, 'a') || Is(command, 'p')
    || Is(command, 'S') || Is(command, 'V') || Is(command, 's') || Is(command, 'r') || Is(command, 'F')
    || Is(command, 'N') || Is(command, 'Q') || Is(command, 'b') || Is(command, 'R')
  }

  class CdcBootloader {
    const cfg: Config
    const flash: FlashMemory
    const eeprom: array<byte>
    var currAddress: nat
    var runBootloader: bool

    // The endpoints during one command.
    var outPipe: OutPipe
    var inPipe: InPipe

    ghost predicate Valid()
      reads this, flash, eeprom
    {
      cfg.Valid() && flash.Valid() && flash.chip == cfg.chip && eeprom.Length == cfg.eepromSize
    }

    ghost function DeviceState(): Cdc
      reads this, flash, eeprom
    {
      Cdc(currAddress, runBootloader, flash.State(), eeprom[..])
    }

    constructor (cfg: Config, flash: FlashMemory, eeprom: array<byte>)
      requires cfg.Valid() && flash.Valid() && flash.chip == cfg.chip && eeprom.Length == cfg.eepromSize
      ensures Valid() && this.cfg == cfg && this.flash == flash && this.eeprom == eeprom
      ensures DeviceState() == Cdc(0, true, flash.State(), eeprom[..])
    {
      this.cfg, this.flash, this.eeprom := cfg, flash, eeprom;
      currAddress, runBootloader := 0, true;
      outPipe, inPipe := OutPipe([], []), InPipe([], []);
    }

    method FetchNextCommandByte() returns (b: byte)
      modifies this`outPipe
      ensures (b, outPipe) == Fetch(old(outPipe))
    {
      while outPipe.bank == []
        invariant Fetch(outPipe) == Fetch(old(outPipe))
        decreases |outPipe.pending|
      {
        if outPipe.pending == [] {
          return 0;
        }
        outPipe := NextPacket(outPipe);
      }
      b := outPipe.bank[0];
      outPipe := outPipe.(bank := outPipe.bank[1..]);
    }

    method WriteNextResponseByte(response: byte)
      modifies this`inPipe
      ensures inPipe == Emit(old(inPipe), response)
    {
      if |inPipe.bank| == ENDPOINT_SIZE {
        inPipe := InPipe([], inPipe.sent + [inPipe.bank]);
      }
      inPipe := inPipe.(bank := inPipe.bank + [response]);
    }

    method WriteResponse(response: seq<byte>)
      modifies this`inPipe
      ensures inPipe == EmitAll(old(inPipe), response)
    {
      hide Emit;
      for currByte := 0 to |response|
        invariant inPipe == EmitAll(old(inPipe), response[..currByte])
      {
        WriteNextResponseByte(response[currByte]);
        EmitOneMore(old(inPipe), response[..currByte], response[currByte]);
        assert response[..currByte + 1] == response[..currByte] + [response[currByte]];
      }
      assert response[..|response|] == response;
    }

    // -- Blocks ----------------------------------------------------------------------------------------

    method ReadFlashBlock(size: nat)
      requires Valid()
      modifies this`inPipe, this`currAddress
      ensures var (bytes, a) := ReadFlash(cfg.chip, flash.State(), old(currAddress), false, size);
              inPipe == EmitAll(old(inPipe), bytes) && currAddress == a
    {
      hide Emit, EmitAll, FlashByte, Or, Next;
      var blockSize, highByte := size, false;
      ghost var f := flash.State();
      ghost var done: seq<byte> := [];
      ghost var whole := ReadFlash(cfg.chip, f, currAddress, false, size);
      assert inPipe == EmitAll(inPipe, []) by { NothingEmitted(inPipe); }
      assert [] + whole.0 == whole.0;
      while blockSize > 0
        invariant inPipe == EmitAll(old(inPipe), done)
        invariant var (bytes, a) := ReadFlash(cfg.chip, f, currAddress, highByte, blockSize);
                  done + bytes == whole.0 && a == whole.1
      {
        var b := FlashByte(cfg.chip, Flash(flash.mem, flash.buf), Or(currAddress, if highByte then 1 else 0));
        WriteNextResponseByte(b);
        EmitOneMore(old(inPipe), done, b);
        done := done + [b];
        if highByte {
          currAddress := Next(currAddress);
        }
        highByte := !highByte;
        blockSize := blockSize - 1;
      }
      assert done + [] == done;
    }

    lemma {:induction false} NothingEmitted(o: InPipe)
      ensures EmitAll(o, []) == o
    {
    }

    method ReadEepromBlock(size: nat)
      requires Valid()
      modifies this`inPipe, this`currAddress
      ensures var (bytes, a) := ReadEeprom(eeprom[..], old(currAddress), size);
              inPipe == EmitAll(old(inPipe), bytes) && currAddress == a
    {
      hide Emit, EmitAll, Next;
      var blockSize := size;
      ghost var done: seq<byte> := [];
      ghost var whole := ReadEeprom(eeprom[..], currAddress, size);
      assert inPipe == EmitAll(inPipe, []) by { NothingEmitted(inPipe); }
      assert [] + whole.0 == whole.0;
      while blockSize > 0
        invariant inPipe == EmitAll(old(inPipe), done)
        invariant var (bytes, a) := ReadEeprom(eeprom[..], currAddress, blockSize);
                  done + bytes == whole.0 && a == whole.1
      {
        var b := eeprom[EepromIndex(eeprom[..], currAddress / 2 % 0x1_0000)];
        WriteNextResponseByte(b);
        EmitOneMore(old(inPipe), done, b);
        done := done + [b];
        currAddress := Next(currAddress);
        blockSize := blockSize - 1;
      }
      assert done + [] == done;
    }

    method WriteFlashBlock(size: nat)
      requires Valid()
      modifies this`outPipe, this`currAddress, flash
      ensures Valid()
      ensures var (f, a, p) := WriteFlash(cfg.chip, Apply(cfg.chip, old(flash.State()), Erase(old(currAddress))),
                                          old(currAddress), old(outPipe), false, 0, size);
              && flash.State() == Apply(cfg.chip, f, Write(old(currAddress)))
              && currAddress == a && outPipe == p
    {
      hide Apply, Fetch, Next;
      var pageStartAddress := currAddress;
      flash.ErasePage(pageStartAddress);
      var blockSize, highByte := size, false;
      var lowByte: byte := 0;
      ghost var whole := WriteFlash(cfg.chip, flash.State(), currAddress, outPipe, false, 0, size);
      while blockSize > 0
        invariant Valid()
        invariant WriteFlash(cfg.chip, flash.State(), currAddress, outPipe, highByte, lowByte, blockSize) == whole
      {
        var b := FetchNextCommandByte();
        if highByte {
          flash.FillWord(currAddress, LE16(lowByte, b));
          currAddress := Next(currAddress);
        } else {
          lowByte := b;
        }
        highByte := !highByte;
        blockSize := blockSize - 1;
      }
      flash.WritePage(pageStartAddress);
    }

    method WriteEepromBlock(size: nat)
      requires Valid()
      modifies this`outPipe, this`currAddress, eeprom
      ensures Valid()
      ensures var (bytes, a, p) := WriteEeprom(old(eeprom[..]), old(currAddress), old(outPipe), size);
              eeprom[..] == bytes && currAddress == a && outPipe == p
    {
      hide Fetch, Next;
      var blockSize := size;
      while blockSize > 0
        invariant Valid()
        invariant WriteEeprom(eeprom[..], currAddress, outPipe, blockSize) ==
                  WriteEeprom(old(eeprom[..]), old(currAddress), old(outPipe), size)
      {
        var b := FetchNextCommandByte();
        var i := EepromIndex(eeprom[..], currAddress / 2 % 0x1_0000);
        ghost var before := eeprom[..];
        eeprom[i] := b;
        assert eeprom[..] == before[i := b];
        currAddress := Next(currAddress);
        blockSize := blockSize - 1;
      }
    }

    method ReadWriteMemoryBlock(command: byte)
      requires Valid()
      modifies this`outPipe, this`inPipe, this`currAddress, flash, eeprom
      ensures Valid()
      ensures var (d, response) := MemoryBlock(cfg, old(DeviceState()), command, old(outPipe));
              DeviceState() == d && inPipe == EmitAll(old(inPipe), response)
    {
      hide Apply, Fetch, Next, EmitAll, ReadFlash, ReadEeprom, WriteFlash, WriteEeprom;
      var hi := FetchNextCommandByte();
      var lo := FetchNextCommandByte();
      var memoryType := FetchNextCommandByte();
      var blockSize := LE16(lo, hi);
      if memoryType != MEMORY_FLASH && memoryType != MEMORY_EEPROM {
        WriteResponse([QUESTION_MARK]);
      } else if command == 'g' as int {
        if memoryType == MEMORY_FLASH {
          ReadFlashBlock(blockSize);
        } else {
          ReadEepromBlock(blockSize);
        }
      } else {
        if memoryType == MEMORY_FLASH {
          WriteFlashBlock(blockSize);
        } else {
          WriteEepromBlock(blockSize);
        }
        WriteResponse([CARRIAGE_RETURN]);
      }
    }

    // -- Commands --------------------------------------------------------------------------------------

    method AnswerQuery(command: byte) returns (known: bool)
      requires Valid()
      modifies this`inPipe
      ensures known == IsQuery(command)
      ensures var (d, response) := Respond(cfg, DeviceState(), command, outPipe);
              if known then d == DeviceState() && inPipe == EmitAll(old(inPipe), response) else inPipe == old(inPipe)
    {
      hide Apply, Fetch, Next, EmitAll, MemoryBlock, FlashByte, Or, EraseFrom;
      known := true;
      if Is(command, 'P') || Is(command, 'L') {
        WriteResponse([CARRIAGE_RETURN]);
      } else if Is(command, 't') {
        WriteResponse([0x44, 0x00]);
      } else if Is(command, 'a') {
        WriteResponse(['Y' as int]);
      } else if Is(command, 'p') {
        WriteResponse(['S' as int]);
      } else if Is(command, 'S') {
        WriteResponse([0x4C, 0x55, 0x46, 0x41, 0x43, 0x44, 0x43]);
      } else if Is(command, 'V') {
        WriteResponse(['0' as int + 1, '0' as int]);
      } else if Is(command, 's') {
        WriteResponse([cfg.signature[2], cfg.signature[1], cfg.signature[0]]);
      } else if Is(command, 'r') {
        WriteResponse([cfg.lock]);
      } else if Is(command, 'F') {
        WriteResponse([cfg.low]);
      } else if Is(command, 'N') {
        WriteResponse([cfg.high]);
      } else if Is(command, 'Q') {
        WriteResponse([cfg.extended]);
      } else if Is(command, 'b') {
        WriteResponse(['Y' as int, cfg.chip.pageSize / 256 % 256, cfg.chip.pageSize % 256]);
      } else if Is(command, 'R') {
        var f := Flash(flash.mem, flash.buf);
        WriteResponse([FlashByte(cfg.chip, f, currAddress + 1), FlashByte(cfg.chip, f, currAddress)]);
      } else {
        known := false;
      }
    }

    method Execute(command: byte)
      requires Valid()
      requires !IsQuery(command)
      modifies this, flash, eeprom
      ensures Valid()
      ensures var (d, response) := Respond(cfg, old(DeviceState()), command, old(outPipe));
              DeviceState() == d && inPipe == EmitAll(old(inPipe), response)
    {
      hide Apply, Fetch, Next, EmitAll, MemoryBlock, FlashByte, Or, EraseFrom;
      if Is(command, 'E') {
        runBootloader := false;
        WriteResponse([CARRIAGE_RETURN]);
      } else if Is(command, 'x') || Is(command, 'y') || Is(command, 'T') {
        var _ := FetchNextCommandByte();
        WriteResponse([CARRIAGE_RETURN]);
      } else if Is(command, 'A') {
        var hi := FetchNextCommandByte();
        var lo := FetchNextCommandByte();
        currAddress := Or(hi as int * 512, lo as int * 2);
        WriteResponse([CARRIAGE_RETURN]);
      } else if Is(command, 'e') {
        flash.EraseApplication();
        WriteResponse([CARRIAGE_RETURN]);
      } else if Is(command, 'l') {
        var _ := FetchNextCommandByte();
        WriteResponse([CARRIAGE_RETURN]);
      } else if Is(command, 'B') || Is(command, 'g') {
        ReadWriteMemoryBlock(command);
      } else if Is(command, 'C') {
        var b := FetchNextCommandByte();
        flash.FillWord(currAddress, b);
        WriteResponse([CARRIAGE_RETURN]);
      } else if Is(command, 'c') {
        var b := FetchNextCommandByte();
        flash.FillWord(Or(currAddress, 1), b);
        currAddress := Next(currAddress);
        WriteResponse([CARRIAGE_RETURN]);
      } else if Is(command, 'm') {
        flash.WritePage(currAddress);
        WriteResponse([CARRIAGE_RETURN]);
      } else if Is(command, 'D') {
        var b := FetchNextCommandByte();
        var i := EepromIndex(eeprom[..], currAddress / 2 % 0x1_0000);
        eeprom[i] := b;
        assert eeprom[..] == old(eeprom[..])[i := b];
        currAddress := Next(currAddress);
        WriteResponse([CARRIAGE_RETURN]);
      } else if Is(command, 'd') {
        WriteResponse([eeprom[EepromIndex(eeprom[..], currAddress / 2 % 0x1_0000)]]);
        currAddress := Next(currAddress);
      } else if command != 27 {
        WriteResponse([QUESTION_MARK]);
      } else {
        WriteResponse([]);
      }
    }

    method RespondTo(command: byte)
      requires Valid()
      modifies this, flash, eeprom
      ensures Valid()
      ensures var (d, response) := Respond(cfg, old(DeviceState()), command, old(outPipe));
              DeviceState() == d && inPipe == EmitAll(old(inPipe), response)
    {
      hide Respond, EmitAll, IsQuery;
      var known := AnswerQuery(command);
      if !known {
        Execute(command);
      }
    }

    /** CDC_Task; `packets` are those the host sends from now on, none when no command has arrived. */
    method CdcTask(packets: seq<packet>) returns (sent: seq<packet>)
      requires Valid()
      modifies this, flash, eeprom
      ensures Valid()
      ensures if packets == [] then DeviceState() == old(DeviceState()) && sent == [] else
                (DeviceState(), sent) == Task(cfg, old(DeviceState()), Pipe(packets))
    {
      hide Apply, Fetch, Next, EmitAll, MemoryBlock, FlashByte, Or, EraseFrom, Respond;
      if packets == [] {
        return [];
      }
      outPipe, inPipe := OutPipe(packets[0], packets[1..]), InPipe([], []);
      var command := FetchNextCommandByte();
      RespondTo(command);
      var isEndpointFull := |inPipe.bank| == ENDPOINT_SIZE;
      sent := inPipe.sent + [inPipe.bank];
      if isEndpointFull {
        sent := sent + [[]];
      }
    }

    lemma {:induction false} Fields()
      ensures DeviceState().currAddr == currAddress && DeviceState().f == flash.State()
      ensures DeviceState().eeprom == eeprom[..]
    {
    }

    lemma {:induction false} StateFits()
      requires Valid()
      ensures cfg.Valid() && DeviceState().Fits(cfg)
    {
    }

    /** A run of commands: the boot section keeps its contents and the address counter stays even. */
    method Serve(commands: seq<seq<packet>>)
      requires Valid() && forall c <- commands :: c != []
      modifies this, flash, eeprom
      ensures Valid() && DeviceState() == RunTasks(cfg, old(DeviceState()), Pipes(commands))
      ensures flash.mem[cfg.chip.bootStart..] == old(flash.mem)[cfg.chip.bootStart..]
      ensures old(currAddress) % 2 == 0 ==> currAddress % 2 == 0
    {
      hide Task, DeviceState, Valid, Pipe;
      StateFits();
      Fields();
      ghost var d0, ps := DeviceState(), Pipes(commands);
      assert ps[0..] == ps;
      for i := 0 to |commands|
        invariant Valid() && cfg.Valid() && DeviceState().Fits(cfg)
        invariant RunTasks(cfg, DeviceState(), ps[i..]) == RunTasks(cfg, d0, ps)
      {
        assert commands[i] in commands && ps[i..][1..] == ps[i + 1..] && ps[i..][0] == Pipe(commands[i]);
        var _ := CdcTask(commands[i]);
        StateFits();
      }
      assert ps[|ps|..] == [];
      Fields();
      RunKeepsBoot(cfg, d0, ps);
      if d0.currAddr % 2 == 0 {
        AddressAlwaysEven(cfg, d0, ps);
      }
    }

    /**
     Writing a block and reading it back, each command in whatever packets: the host gets the block exactly if flash
     can hold it.
     */
    method WriteAndReadBlock(a: nat, data: seq<byte>, commands: seq<seq<packet>>) returns (got: seq<byte>)
      requires Valid() && a % 2 == 0 && a < 0x2_0000 && |data| < 0x1_0000 && a + |data| <= cfg.chip.flashSize
      requires |commands| == 4 && forall c <- commands :: c != []
      requires Concat(commands[0]) == SetAddress(a) && Concat(commands[1]) == BlockCommand('B', |data|) + data
      requires Concat(commands[2]) == SetAddress(a) && Concat(commands[3]) == BlockCommand('g', |data|)
      modifies this, flash, eeprom
      ensures Valid()
      ensures |old(flash.mem)| == cfg.chip.flashSize && flash.mem == Written(cfg.chip, old(flash.mem), a, data)
      ensures got == data <==> Holds(cfg.chip, old(flash.mem), a, data)
    {
      hide Task, DeviceState, Valid, Concat, Written, Holds, Rest, RunTasks, SetAddress, BlockCommand;
      StateFits();
      Fields();
      ghost var d0, ps := DeviceState(), Pipes(commands);
      forall i | 0 <= i < 4
        ensures Rest(ps[i]) == Concat(commands[i])
      {
        PipeRest(commands[i]);
      }
      BlockRoundTrip(cfg, d0, a, data, ps);
      RunThree(cfg, d0, ps[..3]);
      assert commands[0] in commands && commands[1] in commands && commands[2] in commands && commands[3] in commands;
      var _ := CdcTask(commands[0]);
      var _ := CdcTask(commands[1]);
      var _ := CdcTask(commands[2]);
      var sent := CdcTask(commands[3]);
      Fields();
      got := Concat(sent);
    }

    /** The same for the EEPROM: a block no larger than it comes back as it was sent. */
    method WriteAndReadEeprom(w: nat, data: seq<byte>, commands: seq<seq<packet>>) returns (got: seq<byte>)
      requires Valid() && w < 0x1_0000 && |data| < 0x1_0000 && Linear(cfg.eepromSize, w, |data|)
      requires |commands| == 4 && forall c <- commands :: c != []
      requires Concat(commands[0]) == SetAddress(2 * w) && Concat(commands[1]) == EepromCommand('B', |data|) + data
      requires Concat(commands[2]) == SetAddress(2 * w) && Concat(commands[3]) == EepromCommand('g', |data|)
      modifies this, flash, eeprom
      ensures Valid() && flash.mem == old(flash.mem)
      ensures old(eeprom[..]) != [] && Laid(old(eeprom[..]), eeprom[..], w, data)
      ensures |data| <= cfg.eepromSize ==> got == data
    {
      hide Task, DeviceState, Valid, Concat, Rest, RunTasks, SetAddress, EepromCommand, Laid, Linear;
      StateFits();
      Fields();
      ghost var d0, ps := DeviceState(), Pipes(commands);
      forall i | 0 <= i < 4
        ensures Rest(ps[i]) == Concat(commands[i])
      {
        PipeRest(commands[i]);
      }
      EepromRoundTrip(cfg, d0, w, data, ps);
      RunThree(cfg, d0, ps[..3]);
      assert commands[0] in commands && commands[1] in commands && commands[2] in commands && commands[3] in commands;
      var _ := CdcTask(commands[0]);
      var _ := CdcTask(commands[1]);
      var _ := CdcTask(commands[2]);
      var sent := CdcTask(commands[3]);
      Fields();
      got := Concat(sent);
    }
  }
}
