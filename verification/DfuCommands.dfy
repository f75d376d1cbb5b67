/** What the small DFU commands do, request by request: base page, start, information, blank check and status. */
module DfuCommands {
  import opened Bits
  import opened FlashMachine
  import opened Endpoint
  import opened Dfu
  import opened DfuFiller
  import opened DfuTransfer
  import opened DfuExit

  // -- Requests of a few bytes ---------------------------------------------------------------------------------

  /** The command data from position k on comes from the packet; what the packet does not reach stays. */
  lemma {:induction false} DataFrom(d: Dfu, bank: packet, pending: seq<packet>, k: nat)
    requires |d.data| == 5 && k + |bank| <= 5 && d.dataSize as int >= |bank|
    ensures ReadCommandData(d, OutPipe(bank, pending), k) ==
            (d.(data := d.data[..k] + bank + d.data[k + |bank|..], dataSize := d.dataSize - |bank|),
             OutPipe([], pending))
    decreases |bank|
  {
    hide ReadCommandData;
    if bank == [] {
      assert d.data[..k] + bank + d.data[k..] == d.data;
      ReadStops(d, pending, k);
    } else {
      ReadOneMore(d, bank, pending, k);
      var d1 := d.(data := d.data[k := bank[0]], dataSize := d.dataSize - 1);
      DataFrom(d1, bank[1..], pending, k + 1);
      assert d1.data[..k + 1] + bank[1..] + d1.data[k + |bank|..] == d.data[..k] + bank + d.data[k + |bank|..];
    }
  }

  lemma {:induction false} ReadStops(d: Dfu, pending: seq<packet>, k: nat)
    requires |d.data| == 5 && k <= 5
    ensures ReadCommandData(d, OutPipe([], pending), k) == (d, OutPipe([], pending))
  {
  }

  /** A request that carries a command of up to six bytes in one packet. */
  function Short(command: byte, c: seq<byte>): (r: Request)
    requires |c| <= 5
  {
    Request(true, 1, 1 + |c|, [[command] + c], 0)
  }

  /** The device with the command in force. */
  function InForce(d: Dfu, command: byte, c: seq<byte>): (e: Dfu)
    requires |d.data| == 5 && |c| <= 5
  {
    d.(command := command, dataSize := 0, data := c + d.data[|c|..])
  }

  lemma {:induction false} ShortReceived(cfg: Config, d: Dfu, command: byte, c: seq<byte>)
    requires cfg.Valid() && d.Fits(cfg) && |c| <= 5 && d.dataSize as int == 1 + |c|
    ensures InForce(d, command, c).Fits(cfg)
    ensures ReceiveCommand(cfg, d, OutPipe([], [[command] + c])) ==
            (ProcessCommand(cfg, InForce(d, command, c)), OutPipe([], []))
  {
    hide ReadCommandData, ProcessCommand, Read8, NextPacket;
    FirstByte(command, c);
    DataFrom(d.(command := command, dataSize := |c|), c, [], 0);
    assert d.data[..0] + c + d.data[|c|..] == c + d.data[|c|..];
  }

  /** What such a request does. */
  lemma {:induction false} ShortStep(cfg: Config, d: Dfu, command: byte, c: seq<byte>)
    requires cfg.Valid() && d.Fits(cfg) && !d.waitForExit && |c| <= 5
    ensures InForce(d, command, c).Fits(cfg)
    ensures var q := ProcessCommand(cfg, InForce(d, command, c));
            Step(cfg, d, Short(command, c)).0 == if q.state == DnloadIdle then q.(state := Idle) else q
  {
    hide ReceiveCommand, ProcessCommand, Upload, StatusRequest, FlashWords, EepromBytes, Discard;
    ShortReceived(cfg, d.(dataSize := 1 + |c|), command, c);
    CommandKeepsSize(cfg, InForce(d, command, c));
  }

  lemma {:induction false} CommandKeepsSize(cfg: Config, e: Dfu)
    requires cfg.Valid() && e.Fits(cfg)
    ensures ProcessCommand(cfg, e).dataSize == e.dataSize
  {
    hide Information, EraseFrom, FirstNonBlank, Apply, LE16, FlashByte;
  }

  // -- What commands may change ----------------------------------------------------------------------------------

  /** The commands of the protocol that do something, by their first bytes. */
  ghost predicate Effective(e: Dfu)
    requires |e.data| == 5
  {
    var c, x, y := e.command, e.data[0], e.data[1];
    || (c == 0x01 && x < 2) || (c == 0x03 && x < 3) || (c == 0x04 && (x == 0x03 || (x == 0x00 && y == 0xFF)))
    || (c == 0x05 && x < 2) || (c == 0x06 && x == 0x03 && y == 0x00)
  }

  /**
   Every other command leaves an unlocked device as it is. No command changes the EEPROM; flash is changed by opening it
   for programming and by the chip erase alone, and only the latter unlocks a device.
   */
  lemma {:induction false} CommandFrame(cfg: Config, e: Dfu)
    requires cfg.Valid() && e.Fits(cfg)
    ensures var q, chipErase := ProcessCommand(cfg, e), e.command == 0x04 && e.data[0] == 0x00 && e.data[1] == 0xFF;
            && (!e.secure && !Effective(e) ==> q == e)
            && q.eeprom == e.eeprom && q.secure == (e.secure && !chipErase)
            && (!chipErase && !(!e.secure && e.command == 0x01 && e.data[0] == 0x00) ==> q.f == e.f)
  {
    hide EraseFrom, FirstNonBlank, Apply, LE16, FlashByte;
  }

  // -- The 64 KB page ------------------------------------------------------------------------------------------

  /** The request that selects a 64 KB page of flash. */
  function BaseRequest(page: byte): (r: Request) {
    Request(true, 1, 4, [[0x06, 0x03, 0x00, page]], 0)
  }

  /** It selects the page and touches no memory; on a locked device it is an error. */
  lemma {:induction false} BaseRequestIs(cfg: Config, d: Dfu, page: byte)
    requires cfg.Valid() && d.Fits(cfg) && !d.waitForExit
    ensures var q := Step(cfg, d, BaseRequest(page)).0;
            && q.f == d.f && q.eeprom == d.eeprom && q.secure == d.secure && !q.waitForExit && q.running == d.running
            && q.flash64 == (if d.secure then d.flash64 else page)
            && q.state == (if d.secure then Error else if d.state == DnloadIdle then Idle else d.state)
            && q.status == (if d.secure then 3 else d.status)
  {
    hide Step, MemProg, MemRead, WriteCommand, ReadCommand;
    ShortStep(cfg, d, 0x06, [0x03, 0x00, page]);
    assert [0x06] + [0x03, 0x00, page] == [0x06, 0x03, 0x00, page];
  }

  /**
   Selecting a 64 KB page, downloading to a range of it and uploading the range: the payload lies at that page's
   address, and comes back under the conditions of every download.
   */
  lemma {:induction false} PageDownloadThenUpload(cfg: Config, d: Dfu, page: byte, start: word, end: word,
                                                  filler: seq<byte>, payload: seq<byte>, suffix: seq<byte>,
                                                  credits: nat)
    requires Downloadable(cfg, d, start, end, filler, payload, suffix) && |payload| <= CONTROL_SIZE * credits
    requires 0x1_0000 * page as int + start as int + |payload| <= cfg.chip.flashSize
    ensures var a, n, w := 0x1_0000 * page as int + start as int, |payload|, Whole(payload);
            var k := Written(cfg.chip, a, |w|);
            var d0 := Step(cfg, d, BaseRequest(page)).0;
            var d1 := Step(cfg, d0, ProgramRequest(start, end, filler, payload, suffix)).0;
            var d2 := Step(cfg, d1, ZERO_LENGTH).0;
            var d3 := Step(cfg, d2, DisplayRequest(start, end)).0;
            var sent := Step(cfg, d3, Request(true, REQ_UPLOAD, n, [], credits)).1;
            && d1.f.mem[a..a + |w|] == w[..k] + d.f.mem[a + k..a + |w|]
            && Concat(sent) == w[..k] + d.f.mem[a + k..a + |w|]
            && (Concat(sent) == payload <==> n % 2 == 0 && d.f.mem[a + k..a + |w|] == w[k..])
  {
    hide Step, ProgramStage, Concat, Packets, Whole, Written, Guarded, Rem;
    StageLength(start, end, filler, payload, suffix);
    BaseRequestIs(cfg, d, page);
    var d0 := Step(cfg, d, BaseRequest(page)).0;
    DownloadIff(cfg, d0, start, end, filler, payload, suffix);
    DownloadThenUpload(cfg, d0, start, end, filler, payload, suffix, credits);
  }

  // -- Information ---------------------------------------------------------------------------------------------

  /**
   The information that a read command asks for, as the protocol numbers it. In the error state a signature command
   leads to the start address instead, because its code is taken for that of the blank check.
   */
  lemma {:induction false} InformationRead(cfg: Config, d: Dfu, kind: byte, i: byte)
    requires cfg.Valid() && d.Fits(cfg) && !d.waitForExit && d.state != UploadIdle && kind < 2
    ensures var q := Step(cfg, d, Short(0x05, [kind, i])).0;
            var sent := Step(cfg, q, Request(true, 2, 1, [], 1)).1;
            var s := cfg.signature;
            if (kind == 0 && i >= 3) || (kind == 1 && i !in {0x30, 0x31, 0x60, 0x61})
            then q.state == Error && q.status == 8
            else if d.state == Error && kind == 1 then sent == [[d.startAddr % 256, d.startAddr / 256]]
            else if kind == 0 then sent == [[if i == 0 then 0x20 else if i == 1 then 0xDC else 0xFB]]
            else sent == [[if i == 0x30 then 0x58 else if i == 0x31 then s[0] else if i == 0x60 then s[1] else s[2]]]
  {
    hide Step, ProcessCommand, Download;
    ShortStep(cfg, d, 0x05, [kind, i]);
    InformationProcessed(cfg, InForce(d, 0x05, [kind, i]));
    var q := Step(cfg, d, Short(0x05, [kind, i])).0;
    UploadAnswer(cfg, q, 1);
  }

  lemma {:induction false} InformationProcessed(cfg: Config, e: Dfu)
    requires cfg.Valid() && e.Fits(cfg) && e.command == 0x05
    ensures var b := Information(cfg, e.data[0], e.data[1], e.response);
            ProcessCommand(cfg, e) == if b < 0 then e.(state := Error, status := 8) else e.(response := b)
  {
    hide MemProg, MemRead, WriteCommand, Information;
  }

  lemma {:induction false} UploadAnswer(cfg: Config, d: Dfu, length: word)
    requires cfg.Valid() && d.Fits(cfg) && d.state != UploadIdle
    ensures Step(cfg, d, Request(true, 2, length, [], 1)).1 ==
            [if d.state == Error && d.data[0] == 0x01 then [d.startAddr % 256, d.startAddr / 256] else [d.response]]
  {
    hide UploadMemory, Dnload;
  }

  /** The status and state that the device reports, by their numbers in USB DFU 1.1. */
  lemma {:induction false} StatusReported(cfg: Config, d: Dfu, credits: nat)
    requires cfg.Valid() && d.Fits(cfg) && credits > 0
    ensures var code := if d.state == Idle then 2 else if d.state == DnloadIdle then 5
                        else if d.state == UploadIdle then 9 else 10;
            && Step(cfg, d, Request(true, 3, 6, [], credits)).1 == [[d.status, 0, 0, 0, code, 0]]
            && Step(cfg, d, Request(true, 5, 1, [], credits)).1 == [[code]]
  {
    hide Dnload, Upload;
  }

  /** An abort makes the device idle from every state; a request that is not for the interface does nothing at all. */
  lemma {:induction false} AbortIs(cfg: Config, d: Dfu, r: Request)
    requires cfg.Valid() && d.Fits(cfg)
    ensures r.toInterface && r.request == 6 ==>
              Step(cfg, d, r) == (d.(state := Idle, dataSize := r.length), [])
    ensures !r.toInterface ==> Step(cfg, d, r) == (d, [])
  {
    hide Dnload, Upload;
  }

  /** The chip erase, on locked and unlocked devices alike: the application section is blank and the device unlocked. */
  lemma {:induction false} ChipErase(cfg: Config, d: Dfu)
    requires cfg.Valid() && d.Fits(cfg) && !d.waitForExit
    ensures var q := Step(cfg, d, Short(0x04, [0x00, 0xFF])).0;
            && !q.secure && q.f.mem == Overwrite(d.f.mem, 0, Blank(cfg.chip.bootStart)) && q.eeprom == d.eeprom
            && q.running == d.running && q.state == if d.state == DnloadIdle then Idle else d.state
  {
    hide Step, MemProg, MemRead, ReadCommand, EraseFrom, Rem, Overwrite, Blank;
    ShortStep(cfg, d, 0x04, [0x00, 0xFF]);
    RemSmall(0, cfg.chip.pageSize);
    EraseFromIs(cfg.chip, d.f, 0);
  }

  /** An upload that was opened for a memory the command data no longer names sends an empty packet and ends. */
  lemma {:induction false} UploadNothing(cfg: Config, d: Dfu, length: word, credits: nat)
    requires cfg.Valid() && d.Fits(cfg) && d.state == UploadIdle && credits > 0
    requires d.data[0] != 0x00 && d.data[0] != 0x02
    ensures Step(cfg, d, Request(true, 2, length, [], credits)) == (d.(dataSize := length, state := Idle), [[]])
  {
    hide Dnload, UploadWords, UploadEeprom;
  }

  // -- Blank check ---------------------------------------------------------------------------------------------

  lemma {:induction false} FirstNonBlankIs(cfg: Config, f: Flash, a: nat)
    requires cfg.Valid() && f.Fits(cfg.chip) && a <= cfg.chip.bootStart
    ensures var r := FirstNonBlank(cfg, f, a);
            && (r < cfg.chip.bootStart ==> f.mem[r] != ERASED)
            && forall i :: a <= i < r ==> f.mem[i] == ERASED
    decreases cfg.chip.bootStart - a
  {
    hide FlashByte;
    if a < cfg.chip.bootStart {
      FlashByteIs(cfg.chip, f, a);
      if f.mem[a] == ERASED {
        FirstNonBlankIs(cfg, f, a + 1);
      }
    }
  }

  /**
   The blank check of an unlocked device: with the first byte of the application section that is not 0xFF at `a`, it is
   an error and the next upload sends the low 16 bits of `a`; a blank section leaves everything as it was.
   */
  lemma {:induction false} BlankCheckIs(cfg: Config, d: Dfu, a: nat)
    requires cfg.Valid() && d.Fits(cfg) && !d.waitForExit && !d.secure && d.state == Idle && a <= cfg.chip.bootStart
    requires (forall i :: 0 <= i < a ==> d.f.mem[i] == ERASED) && (a < cfg.chip.bootStart ==> d.f.mem[a] != ERASED)
    ensures var q := Step(cfg, d, Short(0x03, [0x01])).0;
            && q.f == d.f && q.eeprom == d.eeprom
            && (if a == cfg.chip.bootStart then q.state == Idle && q.status == d.status && q.flash64 == d.flash64
                else
                  && q.state == Error && q.status == 5 && FlashAddress(q) == a
                  && Step(cfg, q, Request(true, 2, 2, [], 1)).1 == [[a % 256, a / 256 % 256]])
  {
    hide Step, ProcessCommand, FirstNonBlank;
    ShortStep(cfg, d, 0x03, [0x01]);
    BlankProcessed(cfg, InForce(d, 0x03, [0x01]));
    FirstNonBlankAt(cfg, d.f, a);
    if a < cfg.chip.bootStart {
      AddressParts(a);
      UploadAnswer(cfg, Step(cfg, d, Short(0x03, [0x01])).0, 2);
    }
  }

  lemma {:induction false} FirstNonBlankAt(cfg: Config, f: Flash, a: nat)
    requires cfg.Valid() && f.Fits(cfg.chip) && a <= cfg.chip.bootStart
    requires (forall i :: 0 <= i < a ==> f.mem[i] == ERASED) && (a < cfg.chip.bootStart ==> f.mem[a] != ERASED)
    ensures FirstNonBlank(cfg, f, 0) == a
  {
    hide FirstNonBlank;
    FirstNonBlankIs(cfg, f, 0);
  }

  lemma {:induction false} BlankProcessed(cfg: Config, e: Dfu)
    requires cfg.Valid() && e.Fits(cfg) && !e.secure && e.command == 0x03 && e.data[0] == 0x01
    ensures var a := FirstNonBlank(cfg, e.f, 0);
            ProcessCommand(cfg, e) ==
            if a == cfg.chip.bootStart then e
            else e.(flash64 := a / 0x1_0000 % 256, startAddr := a % 0x1_0000, state := Error, status := 5)
  {
    hide FirstNonBlank, MemProg, WriteCommand, ReadCommand;
  }

  lemma {:induction false} AddressParts(a: nat)
    requires a < 0x100_0000
    ensures a % 0x1_0000 + 0x1_0000 * (a / 0x1_0000 % 256) == a
    ensures a % 0x1_0000 % 256 == a % 256 && a % 0x1_0000 / 256 == a / 256 % 256
  {
    var q, r := a / 0x1_0000, a % 0x1_0000;
    assert a == 256 * (256 * q + r / 256) + r % 256;
    DivModUnique(a, 256, 256 * q + r / 256, r % 256);
  }

  // -- Starting the application ----------------------------------------------------------------------------------

  /** A start command by watchdog, with no data left. */
  ghost predicate StartsByReset(e: Dfu)
    requires |e.data| == 5
  {
    !e.secure && e.command == 0x04 && e.data[0] == 0x03 && e.data[1] == 0x00 && e.dataSize == 0
  }

  lemma {:induction false} CommandArms(cfg: Config, e: Dfu)
    requires cfg.Valid() && e.Fits(cfg)
    ensures ProcessCommand(cfg, e).resetArmed <==> e.resetArmed || StartsByReset(e)
  {
    hide Information, EraseFrom, FirstNonBlank, Apply, LE16, FlashByte;
  }

  lemma {:induction false} TransfersKeepArmed(cfg: Config, d: Dfu, p: OutPipe, credits: nat)
    requires cfg.Valid() && d.Fits(cfg)
    ensures Download(cfg, d, p).resetArmed == d.resetArmed && Upload(cfg, d, credits).0.resetArmed == d.resetArmed
  {
    hide FlashWords, EepromBytes, Discard, UploadWords, UploadEeprom;
  }

  /** A request arms the watchdog if and only if it executes a start by watchdog. */
  lemma {:induction false} ArmsIff(cfg: Config, d: Dfu, r: Request)
    requires cfg.Valid() && d.Fits(cfg)
    ensures Step(cfg, d, r).0.resetArmed <==>
            d.resetArmed || exists i :: 0 <= i < |Executed(cfg, d, r)| && StartsByReset(Executed(cfg, d, r)[i])
  {
    hide ProcessCommand, Download, Dnload, StartsByReset, CommandRead, Upload, StateCode, ReceiveCommand;
    var d0, p := d.(dataSize := r.length), OutPipe([], r.out);
    if r.toInterface && r.request == REQ_DNLOAD {
      var d1 := Resumed(cfg, d0);
      CommandArms(cfg, d0);
      DnloadExecutes(cfg, d0, r);
      TransfersKeepArmed(cfg, d1, p, 0);
      if d1.dataSize != 0 && r.out != [] {
        var e := CommandRead(cfg, d1, p);
        CommandArms(cfg, e);
        TransfersKeepArmed(cfg, ProcessCommand(cfg, e), ReceiveCommand(cfg, d1, p).1, 0);
        var es := Executed(cfg, d, r);
        assert es == (if d.waitForExit then [d0, e] else [e]) && es[|es| - 1] == e;
      }
      if d.waitForExit {
        assert Executed(cfg, d, r)[0] == d0;
      }
    } else {
      assert Executed(cfg, d, r) == [];
      TransfersKeepArmed(cfg, d0, p, r.credits);
    }
  }

  /** A start by jump with data left sets the jump address, high byte first, and waits for the exit request. */
  lemma {:induction false} JumpAddressSet(cfg: Config, d: Dfu, x: byte, hi: byte, lo: byte, length: word)
    requires cfg.Valid() && d.Fits(cfg) && !d.waitForExit && !d.secure && d.state != DnloadIdle && length > 6
    ensures var q := Step(cfg, d, Request(true, REQ_DNLOAD, length, [[0x04, 0x03, 0x01, x, hi, lo]], 0)).0;
            && q.appStart as int == 256 * hi as int + lo as int && q.waitForExit
            && q.f == d.f && q.running == d.running && q.resetArmed == d.resetArmed && q.state == d.state
  {
    hide Step, MemProg, MemRead, ReadCommand, Download, ReceiveCommand;
    var c: seq<byte> := [0x03, 0x01, x, hi, lo];
    assert [0x04] + c == [0x04, 0x03, 0x01, x, hi, lo];
    LongStep(cfg, d, 0x04, c, length);
  }

  /** A request whose packet ends with the command although more data is announced. */
  lemma {:induction false} LongStep(cfg: Config, d: Dfu, command: byte, c: seq<byte>, length: word)
    requires cfg.Valid() && d.Fits(cfg) && !d.waitForExit && |c| == 5 && length > 6
    ensures var q := ProcessCommand(cfg, d.(command := command, dataSize := length - 6, data := c));
            q.state != DnloadIdle ==> Step(cfg, d, Request(true, REQ_DNLOAD, length, [[command] + c], 0)).0 == q
  {
    hide ReceiveCommand, ProcessCommand, Upload, StatusRequest, Download;
    LongReceived(cfg, d.(dataSize := length), command, c);
  }

  lemma {:induction false} LongReceived(cfg: Config, d: Dfu, command: byte, c: seq<byte>)
    requires cfg.Valid() && d.Fits(cfg) && |c| == 5 && d.dataSize > 6
    ensures ReceiveCommand(cfg, d, OutPipe([], [[command] + c])) ==
            (ProcessCommand(cfg, d.(command := command, dataSize := d.dataSize - 6, data := c)), OutPipe([], []))
  {
    hide ReadCommandData, ProcessCommand, Read8, NextPacket;
    FirstByte(command, c);
    DataFrom(d.(command := command, dataSize := d.dataSize - 1), c, [], 0);
    assert d.data[..0] + c + d.data[5..] == c;
  }
}
