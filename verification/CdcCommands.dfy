/** What each single AVR109 command leaves behind and answers. */
module CdcCommands {
  import opened Bits
  import opened FlashMachine
  import opened Endpoint
  import opened Cdc
  import opened CdcBlocks
  import opened CdcEeprom

  /** A command is its first byte, however the stream is cut, and the host receives exactly its response. */
  lemma {:induction false} Answered(cfg: Config, d: Cdc, p: OutPipe)
    requires cfg.Valid() && d.Fits(cfg) && Rest(p) != []
    ensures var p1 := Fetch(p).1;
            var (d1, sent) := Task(cfg, d, p);
            && Rest(p1) == Rest(p)[1..]
            && d1 == Respond(cfg, d, Rest(p)[0], p1).0 && Concat(sent) == Respond(cfg, d, Rest(p)[0], p1).1
  {
    hide Fetch, Rest, Respond, EmitAll, Finish, Concat;
    FetchNext(p);
    ResponseFraming(Respond(cfg, d, Rest(p)[0], Fetch(p).1).1);
  }

  /** The bootloader is left by command E and by no other. */
  lemma {:induction false} ExitIff(cfg: Config, d: Cdc, p: OutPipe)
    requires cfg.Valid() && d.Fits(cfg) && Rest(p) != []
    ensures Task(cfg, d, p).0.running == (d.running && Rest(p)[0] != 'E' as int)
    ensures Rest(p)[0] == 'E' as int ==> Task(cfg, d, p).0 == d.(running := false) && Concat(Task(cfg, d, p).1) == [13]
  {
    hide Fetch, Rest, EmitAll, Finish, Concat, Task, Or, Apply, EraseFrom, FlashByte, EepromIndex, LE16, Next;
    hide ReadFlash, ReadEeprom, WriteFlash, WriteEeprom;
    Answered(cfg, d, p);
  }

  /** The commands that answer with fixed bytes and change nothing. */
  lemma {:induction false} FixedAnswers(cfg: Config, d: Cdc, p: OutPipe)
    requires cfg.Valid() && d.Fits(cfg) && Rest(p) != []
    ensures var c, (d1, sent) := Rest(p)[0] as int, Task(cfg, d, p);
            var answer := Concat(sent);
            && (c in {'x' as int, 'y' as int, 'T' as int, 'P' as int, 'L' as int, 'l' as int} ==>
                d1 == d && answer == [13])
            && (c == 't' as int ==> d1 == d && answer == [0x44, 0x00])
            && (c == 'a' as int ==> d1 == d && answer == [0x59])
            && (c == 'p' as int ==> d1 == d && answer == [0x53])
            && (c == 'S' as int ==> d1 == d && answer == [0x4C, 0x55, 0x46, 0x41, 0x43, 0x44, 0x43])
            && (c == 'V' as int ==> d1 == d && answer == [0x31, 0x30])
            && (c == 27 ==> d1 == d && answer == [])
  {
    hide Fetch, Rest, EmitAll, Finish, Concat, Task, Or, Apply, EraseFrom, FlashByte, EepromIndex, LE16, Next;
    hide MemoryBlock;
    Answered(cfg, d, p);
  }

  /** The commands that answer with what the hardware reports and change nothing. */
  lemma {:induction false} HardwareAnswers(cfg: Config, d: Cdc, p: OutPipe)
    requires cfg.Valid() && d.Fits(cfg) && Rest(p) != []
    ensures var c, (d1, sent) := Rest(p)[0] as int, Task(cfg, d, p);
            var answer, s := Concat(sent), cfg.signature;
            && (c == 's' as int ==> d1 == d && answer == [s[2], s[1], s[0]])
            && (c == 'r' as int ==> d1 == d && answer == [cfg.lock])
            && (c == 'F' as int ==> d1 == d && answer == [cfg.low])
            && (c == 'N' as int ==> d1 == d && answer == [cfg.high])
            && (c == 'Q' as int ==> d1 == d && answer == [cfg.extended])
            && (c == 'b' as int ==>
                d1 == d && |answer| == 3 && answer[0] == 0x59 && LE16(answer[2], answer[1]) as int == cfg.chip.pageSize)
            && (c == 'R' as int && d.currAddr + 1 < cfg.chip.flashSize ==>
                d1 == d && answer == [d.f.mem[d.currAddr + 1], d.f.mem[d.currAddr]])
  {
    hide Fetch, Rest, EmitAll, Finish, Concat, Task, Or, Apply, EraseFrom, FlashByte, EepromIndex, Next;
    hide MemoryBlock;
    Answered(cfg, d, p);
    if d.currAddr + 1 < cfg.chip.flashSize {
      FlashByteIs(cfg.chip, d.f, d.currAddr);
      FlashByteIs(cfg.chip, d.f, d.currAddr + 1);
    }
  }

  /** The commands of the protocol. */
  predicate Known(c: byte) {
    || c == 27 || Is(c, 'E') || Is(c, 'x') || Is(c, 'y') || Is(c, 'T') || Is(c, 'P') || Is(c, 'L') || Is(c, 't')
    || Is(c, 'a') || Is(c, 'A') || Is(c, 'p') || Is(c, 'S') || Is(c, 'V') || Is(c, 's') || Is(c, 'e') || Is(c, 'l')
    || Is(c, 'r') || Is(c, 'F') || Is(c, 'N') || Is(c, 'Q') || Is(c, 'b') || Is(c, 'B') || Is(c, 'g') || Is(c, 'C')
    || Is(c, 'c') || Is(c, 'm') || Is(c, 'R') || Is(c, 'D') || Is(c, 'd')
  }

  /** Every other command is answered with a question mark and changes nothing. */
  lemma {:induction false} UnknownAnswer(cfg: Config, d: Cdc, p: OutPipe)
    requires cfg.Valid() && d.Fits(cfg) && Rest(p) != [] && !Known(Rest(p)[0])
    ensures Task(cfg, d, p).0 == d && Concat(Task(cfg, d, p).1) == [0x3F]
  {
    hide Fetch, Rest, EmitAll, Finish, Concat, Task, Or, Apply, EraseFrom, FlashByte, EepromIndex, LE16, Next;
    hide MemoryBlock;
    Answered(cfg, d, p);
  }

  /** So is a block transfer for a memory other than F and E. */
  lemma {:induction false} UnknownMemory(cfg: Config, d: Cdc, p: OutPipe)
    requires cfg.Valid() && d.Fits(cfg) && |Rest(p)| >= 4 && (Rest(p)[0] == 'B' as int || Rest(p)[0] == 'g' as int)
    requires Rest(p)[3] != 'F' as int && Rest(p)[3] != 'E' as int
    ensures Task(cfg, d, p).0 == d && Concat(Task(cfg, d, p).1) == [0x3F]
  {
    hide Fetch, Rest, EmitAll, Finish, Concat, Task, Or, Apply, EraseFrom, FlashByte, EepromIndex, LE16, Next;
    hide ReadFlash, ReadEeprom, WriteFlash, WriteEeprom;
    Answered(cfg, d, p);
    FetchFour(p);
  }

  /** Command e blanks the application section and nothing else. */
  lemma {:induction false} EraseTask(cfg: Config, d: Cdc, p: OutPipe)
    requires cfg.Valid() && d.Fits(cfg) && Rest(p) != [] && Rest(p)[0] == 'e' as int
    ensures var (d1, sent) := Task(cfg, d, p);
            && d1.f.mem == Overwrite(d.f.mem, 0, Blank(cfg.chip.bootStart))
            && d1 == d.(f := d1.f) && Concat(sent) == [13]
  {
    hide Fetch, Rest, EmitAll, Finish, Concat, Task, Or, Apply, EraseFrom, FlashByte, EepromIndex, LE16, Next, Rem;
    hide MemoryBlock;
    Answered(cfg, d, p);
    RemSmall(0, cfg.chip.pageSize);
    EraseFromIs(cfg.chip, d.f, 0);
  }

  /** Command m commits the buffer to the page at the counter, if that is a page of the application. */
  lemma {:induction false} WritePageTask(cfg: Config, d: Cdc, p: OutPipe)
    requires cfg.Valid() && d.Fits(cfg) && Rest(p) != [] && Rest(p)[0] == 'm' as int
    ensures var a, size, (d1, sent) := d.currAddr, cfg.chip.pageSize, Task(cfg, d, p);
            && d1 == d.(f := d1.f) && Concat(sent) == [13]
            && (if Rem(a, size) != 0 || a >= cfg.chip.bootStart then d1.f == d.f
                else
                  && a + size <= cfg.chip.flashSize
                  && ((forall i :: a <= i < a + size ==> d.f.mem[i] == ERASED) ==>
                      d1.f.mem == Overwrite(d.f.mem, a, d.f.buf)))
  {
    hide Fetch, Rest, EmitAll, Finish, Concat, Task, Or, Apply, EraseFrom, FlashByte, EepromIndex, LE16, Next, Rem;
    hide MemoryBlock, Overwrite;
    Answered(cfg, d, p);
    var a, size := d.currAddr, cfg.chip.pageSize;
    if Rem(a, size) != 0 || a >= cfg.chip.bootStart {
      Refused(cfg.chip, d.f, a);
    } else {
      RemGap(a, cfg.chip.bootStart, size);
      if forall i :: a <= i < a + size ==> d.f.mem[i] == ERASED {
        WriteIs(cfg.chip, d.f, a);
      }
    }
  }

  /**
   The two single-byte fills, C and c: each sets the whole buffer word at the counter to its byte and 0, and only c
   moves the counter on.
   */
  lemma {:induction false} FillTask(cfg: Config, d: Cdc, p: OutPipe, b: byte)
    requires cfg.Valid() && d.Fits(cfg) && d.currAddr % 2 == 0 && |Rest(p)| == 2 && Rest(p)[1] == b
    requires Rest(p)[0] == 'C' as int || Rest(p)[0] == 'c' as int
    ensures var i, (d1, sent) := Rem(d.currAddr, cfg.chip.pageSize), Task(cfg, d, p);
            && i + 1 < cfg.chip.pageSize && d1.f == d.f.(buf := d.f.buf[i := b][i + 1 := 0])
            && d1 == d.(f := d1.f, currAddr := if Rest(p)[0] == 'c' as int then (d.currAddr + 2) % 0x1_0000_0000
                                               else d.currAddr)
            && Concat(sent) == [13]
  {
    hide Fetch, Rest, EmitAll, Finish, Concat, Task, Or, Apply, EraseFrom, FlashByte, EepromIndex, Rem;
    hide MemoryBlock;
    Answered(cfg, d, p);
    FetchNext(Fetch(p).1);
    HighByteAddress(d.currAddr, true);
    FillWordAt(cfg.chip, d.f, d.currAddr, b);
  }

  lemma {:induction false} FillWordAt(chip: Chip, f: Flash, a: nat, b: byte)
    requires chip.Valid() && f.Fits(chip) && a % 2 == 0
    ensures var i := Rem(a, chip.pageSize);
            && i + 1 < chip.pageSize
            && Apply(chip, f, Fill(a, b)) == f.(buf := f.buf[i := b][i + 1 := 0])
            && Apply(chip, f, Fill(a + 1, b)) == f.(buf := f.buf[i := b][i + 1 := 0])
  {
    hide Rem;
    RemEven(a, chip.pageSize);
    RemOdd(a, chip.pageSize);
  }

  /** So a word sent as its high and its low byte arrives if and only if the high byte is 0. */
  lemma {:induction false} FilledWordIff(cfg: Config, d: Cdc, ps: seq<OutPipe>, lo: byte, hi: byte)
    requires cfg.Valid() && d.Fits(cfg) && d.currAddr % 2 == 0 && |ps| == 2
    requires Rest(ps[0]) == ['C' as int, hi] && Rest(ps[1]) == ['c' as int, lo]
    ensures var i, buf := Rem(d.currAddr, cfg.chip.pageSize), RunTasks(cfg, d, ps).f.buf;
            && i + 1 < |buf| && buf == d.f.buf[i := lo][i + 1 := 0]
            && (buf[i] == lo && buf[i + 1] == hi <==> hi == 0)
  {
    hide Task, Rest, Rem;
    FillTask(cfg, d, ps[0], hi);
    var d1 := Task(cfg, d, ps[0]).0;
    FillTask(cfg, d1, ps[1], lo);
    assert ps[1..] == [ps[1]] && [ps[1]][1..] == [];
    assert RunTasks(cfg, d1, [ps[1]]) == RunTasks(cfg, Task(cfg, d1, ps[1]).0, []);
  }

  /** Command D writes the EEPROM cell at the counter, command d reads it; both move on by one cell. */
  lemma {:induction false} EepromByteTasks(cfg: Config, d: Cdc, p: OutPipe, w: nat)
    requires cfg.Valid() && d.Fits(cfg) && w < 0x1_0000 && d.currAddr == 2 * w && Rest(p) != []
    ensures var cell, (d1, sent) := Rem(w, cfg.eepromSize), Task(cfg, d, p);
            && (Rest(p)[0] == 'd' as int ==> d1 == d.(currAddr := 2 * (w + 1)) && Concat(sent) == [d.eeprom[cell]])
            && (Rest(p)[0] == 'D' as int && |Rest(p)| > 1 ==>
                d1 == d.(currAddr := 2 * (w + 1), eeprom := d.eeprom[cell := Rest(p)[1]]) && Concat(sent) == [13])
  {
    hide Fetch, Rest, EmitAll, Finish, Concat, Task, Or, Apply, EraseFrom, FlashByte, Rem, MemoryBlock;
    Answered(cfg, d, p);
    if |Rest(p)| > 1 {
      FetchNext(Fetch(p).1);
    }
  }
}
