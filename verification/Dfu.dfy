/** The DFU bootloader (BootloaderDFU.c) as a state machine over class requests. */
module Dfu {
  import opened Bits
  import opened FlashMachine
  import opened Endpoint

  const REQ_DNLOAD: byte := 1
  const REQ_UPLOAD: byte := 2
  const REQ_GETSTATUS: byte := 3
  const REQ_CLRSTATUS: byte := 4
  const REQ_GETSTATE: byte := 5
  const REQ_ABORT: byte := 6

  const COMMAND_PROG_START: byte := 0x01
  const COMMAND_DISP_DATA: byte := 0x03
  const COMMAND_WRITE: byte := 0x04
  const COMMAND_READ: byte := 0x05
  const COMMAND_CHANGE_BASE_ADDR: byte := 0x06

  const STATUS_OK: byte := 0
  const ERR_WRITE: byte := 3
  const ERR_CHECK_ERASED: byte := 5
  const ERR_ADDRESS: byte := 8

  const FILLER_SIZE := 26
  const SUFFIX_SIZE := 16
  const CONTROL_SIZE := 32
  const BOOTLOADER_INFO: seq<byte> := [0x20, 0xDC, 0xFB]

  /** The states this bootloader uses, of those in Appendix A.1 of USB DFU 1.1. */
  datatype State = Idle | DnloadIdle | UploadIdle | Error

  function StateCode(s: State): (b: byte) {
    match s case Idle => 2 case DnloadIdle => 5 case UploadIdle => 9 case Error => 10
  }

  datatype Config = Config(chip: Chip, eepromSize: nat, signature: seq<byte>) {
    ghost predicate Valid() {
      chip.Valid() && eepromSize > 0 && |signature| == 3
    }
  }

  /** The static variables of the bootloader, with the memories they control. */
  datatype Dfu = Dfu(
    secure: bool, running: bool, waitForExit: bool, resetArmed: bool, state: State, status: byte,
    command: byte, data: seq<byte>, dataSize: word, response: byte, appStart: word,
    flash64: byte, startAddr: word, endAddr: word, f: Flash, eeprom: seq<byte>) {

    ghost predicate Fits(cfg: Config) {
      f.Fits(cfg.chip) && |eeprom| == cfg.eepromSize && |data| == 5
    }
  }

  /** A control request with its data stage; `credits` counts the IN packets the host accepts before it leaves. */
  datatype Request = Request(toInterface: bool, request: byte, length: word, out: seq<packet>, credits: nat)

  // -- Memory access -------------------------------------------------------------------------------

  function FlashAddress(d: Dfu): (a: nat) {
    d.startAddr + 0x1_0000 * (d.flash64 as int)
  }

  // -- Commands ------------------------------------------------------------------------------------

  function LoadAddresses(d: Dfu): (r: Dfu)
    requires |d.data| == 5
  {
    d.(startAddr := LE16(d.data[2], d.data[1]), endAddr := LE16(d.data[4], d.data[3]))
  }

  function MemProg(cfg: Config, d: Dfu): (r: Dfu)
    requires cfg.Valid() && d.Fits(cfg)
    ensures r.Fits(cfg)
  {
    if d.data[0] == 0x00 || d.data[0] == 0x01 then
      var d1 := LoadAddresses(d);
      d1.(f := if d.data[0] == 0x00 then Apply(cfg.chip, d.f, Erase(FlashAddress(d1))) else d.f, state := DnloadIdle)
    else d
  }

  /** The first byte of the application section that is not blank, bootStart if there is none. */
  function FirstNonBlank(cfg: Config, f: Flash, a: nat): (r: nat)
    requires a <= cfg.chip.bootStart
    ensures a <= r <= cfg.chip.bootStart
    decreases cfg.chip.bootStart - a
  {
    if a == cfg.chip.bootStart || FlashByte(cfg.chip, f, a) != ERASED then a else FirstNonBlank(cfg, f, a + 1)
  }

  function MemRead(cfg: Config, d: Dfu): (r: Dfu)
    requires cfg.Valid() && d.Fits(cfg)
    ensures r.Fits(cfg)
  {
    if d.data[0] == 0x00 || d.data[0] == 0x02 then LoadAddresses(d).(state := UploadIdle)
    else if d.data[0] == 0x01 then
      var a := FirstNonBlank(cfg, d.f, 0);
      if a < cfg.chip.bootStart
      then d.(flash64 := a / 0x1_0000 % 256, startAddr := a % 0x1_0000, state := Error, status := ERR_CHECK_ERASED)
      else d
    else d
  }

  function WriteCommand(cfg: Config, d: Dfu): (r: Dfu)
    requires cfg.Valid() && d.Fits(cfg)
    ensures r.Fits(cfg)
  {
    if d.data[0] == 0x03 then
      var d1 := d.(waitForExit := true);
      if d.dataSize != 0 then
        (if d.data[1] == 0x01 then d1.(appStart := LE16(d.data[4], d.data[3])) else d1)
      else if d.data[1] == 0x00 then d1.(resetArmed := true)
      else if FlashByte(cfg.chip, d.f, 0) == ERASED && FlashByte(cfg.chip, d.f, 1) == ERASED then d1.(running := false)
      else d1
    else if d.data[0] == 0x00 && d.data[1] == 0xFF then
      d.(f := EraseFrom(cfg.chip, d.f, 0), secure := false)
    else d
  }

  /** The information byte at an index, -1 if there is none; other kinds of information keep the last response. */
  function Information(cfg: Config, kind: byte, i: byte, last: byte): (r: int)
    requires cfg.Valid()
    ensures -1 <= r < 256
  {
    if kind == 0x00 then (if i < 3 then BOOTLOADER_INFO[i] else -1)
    else if kind != 0x01 then last
    else if i == 0x30 then 0x58
    else if i == 0x31 then cfg.signature[0]
    else if i == 0x60 then cfg.signature[1]
    else if i == 0x61 then cfg.signature[2]
    else -1
  }

  function ReadCommand(cfg: Config, d: Dfu): (r: Dfu)
    requires cfg.Valid() && d.Fits(cfg)
    ensures r.Fits(cfg)
  {
    var b := Information(cfg, d.data[0], d.data[1], d.response);
    if b < 0 then d.(state := Error, status := ERR_ADDRESS) else d.(response := b)
  }

  /** In secure mode only a chip erase and the information commands get through. */
  predicate Allowed(d: Dfu)
    requires |d.data| == 5
  {
    !d.secure || (d.command == COMMAND_WRITE && d.data[0] == 0x00 && d.data[1] == 0xFF) || d.command == COMMAND_READ
  }

  function ProcessCommand(cfg: Config, d: Dfu): (r: Dfu)
    requires cfg.Valid() && d.Fits(cfg)
    ensures r.Fits(cfg) && (r.secure ==> d.secure)
  {
    if !Allowed(d) then d.(state := Error, status := ERR_WRITE)
    else if d.command == COMMAND_PROG_START then MemProg(cfg, d)
    else if d.command == COMMAND_DISP_DATA then MemRead(cfg, d)
    else if d.command == COMMAND_WRITE then WriteCommand(cfg, d)
    else if d.command == COMMAND_READ then ReadCommand(cfg, d)
    else if d.command == COMMAND_CHANGE_BASE_ADDR && d.data[0] == 0x03 && d.data[1] == 0x00
    then d.(flash64 := d.data[2])
    else d
  }

  // -- DNLOAD ---------------------------------------------------------------------------------------

  /** Up to five command bytes from what is left of the first packet. */
  function ReadCommandData(d: Dfu, p: OutPipe, k: nat): (r: (Dfu, OutPipe))
    requires |d.data| == 5 && k <= 5
    ensures |r.0.data| == 5 && r.0 == d.(data := r.0.data, dataSize := r.0.dataSize)
    decreases 5 - k
  {
    if k == 5 || p.bank == [] then (d, p) else
      var (b, p1) := Read8(p);
      ReadCommandData(d.(data := d.data[k := b], dataSize := (d.dataSize + 65535) % 65536), p1, k + 1)
  }

  /** DiscardFillerBytes: fetching a packet uses up one count and discards no byte. */
  function Discard(p: OutPipe, n: nat): (r: OutPipe)
    decreases n
  {
    if n == 0 then p
    else if p.bank == [] then (if p.pending == [] then p else Discard(NextPacket(p), n - 1))
    else Discard(p.(bank := p.bank[1..]), n - 1)
  }

  function BytesRemaining(d: Dfu): (n: word) {
    (d.endAddr - d.startAddr + 1) % 65536
  }

  /** The flash download loop; the second component says that it ran to its end. */
  function FlashWords(chip: Chip, f: Flash, p: OutPipe, addr: nat, pageStart: nat, inPage: byte, remaining: nat)
    : (r: (Flash, bool))
    requires chip.Valid() && f.Fits(chip)
    ensures r.0.Fits(chip)
    decreases remaining
  {
    if remaining == 0 then (f, true)
    else if p.bank == [] && p.pending == [] then (f, false)
    else
      var (w, p1) := Read16(Refill(p));
      var f1 := Apply(chip, f, Fill(addr, w));
      var inPage1 := (inPage + 1) % 256;
      var addr1 := (addr + 2) % 0x1_0000_0000;
      if inPage1 == chip.pageSize / 2 || remaining == 1 then
        var f2 := Apply(chip, f1, Write(pageStart));
        if remaining == 1 then (f2, true)
        else FlashWords(chip, Apply(chip, f2, Erase(addr1)), p1, addr1, addr1, 0, remaining - 1)
      else FlashWords(chip, f1, p1, addr1, pageStart, inPage1, remaining - 1)
  }

  /** The EEPROM download loop, with the address it has reached. */
  function EepromBytes(eeprom: seq<byte>, addr: word, p: OutPipe, remaining: nat): (r: (seq<byte>, word))
    requires eeprom != []
    ensures |r.0| == |eeprom|
    decreases remaining
  {
    if remaining == 0 || (p.bank == [] && p.pending == []) then (eeprom, addr) else
      var (b, p1) := Read8(Refill(p));
      EepromBytes(eeprom[EepromIndex(eeprom, addr) := b], (addr + 1) % 65536, p1, remaining - 1)
  }

  /** The part of DNLOAD that follows a memory program command. */
  function Download(cfg: Config, d: Dfu, p: OutPipe): (r: Dfu)
    requires cfg.Valid() && d.Fits(cfg)
    ensures r.Fits(cfg) && (r.secure ==> d.secure)
  {
    if d.dataSize == 0 then d.(state := Idle) else
      var p1 := Discard(Discard(p, FILLER_SIZE), d.startAddr % CONTROL_SIZE);
      if d.data[0] == 0x00 then
        var a := FlashAddress(d);
        var (f, finished) := FlashWords(cfg.chip, d.f, p1, a, a, 0, BytesRemaining(d) / 2);
        d.(f := f, startAddr := if finished then d.endAddr else d.startAddr)
      else
        var (eeprom, next) := EepromBytes(d.eeprom, d.startAddr, p1, BytesRemaining(d));
        d.(eeprom := eeprom, startAddr := next)
  }

  /** The command code and its parameters from the first packet, and their execution. */
  function ReceiveCommand(cfg: Config, d: Dfu, p: OutPipe): (r: (Dfu, OutPipe))
    requires cfg.Valid() && d.Fits(cfg) && p.pending != []
    ensures r.0.Fits(cfg) && (r.0.secure ==> d.secure)
  {
    var (b, p1) := Read8(NextPacket(p));
    var (d1, p2) := ReadCommandData(d.(command := b, dataSize := (d.dataSize + 65535) % 65536), p1, 0);
    (ProcessCommand(cfg, d1), p2)
  }

  function Dnload(cfg: Config, d: Dfu, r: Request): (q: Dfu)
    requires cfg.Valid() && d.Fits(cfg)
    ensures q.Fits(cfg) && (q.secure ==> d.secure)
  {
    var d1 := if d.waitForExit then ProcessCommand(cfg, d).(waitForExit := false) else d;
    var p := OutPipe([], r.out);
    if d1.dataSize == 0 then
      (if d1.state == DnloadIdle then Download(cfg, d1, p) else d1)
    else if r.out == [] then d1
    else
      var (d2, p1) := ReceiveCommand(cfg, d1, p);
      if d2.state == DnloadIdle then Download(cfg, d2, p1) else d2
  }

  // -- UPLOAD ---------------------------------------------------------------------------------------

  /** Bytes through the IN bank: a full bank is sent first. The last component says that the host stayed. */
  function SendByte(bank: packet, sent: seq<packet>, credits: nat, bs: seq<byte>)
    : (r: (packet, seq<packet>, nat, bool))
  {
    if |bank| != CONTROL_SIZE then (bank + bs, sent, credits, true)
    else if credits == 0 then ([], sent + [bank], 0, false)
    else (bs, sent + [bank], credits - 1, true)
  }

  function UploadWords(cfg: Config, f: Flash, a: nat, remaining: nat, bank: packet, sent: seq<packet>, credits: nat)
    : (r: (packet, seq<packet>, bool))
    decreases remaining
  {
    if remaining == 0 then (bank, sent, true) else
      var w := [FlashByte(cfg.chip, f, a), FlashByte(cfg.chip, f, a + 1)];
      var (bank1, sent1, credits1, attached) := SendByte(bank, sent, credits, w);
      if !attached then (bank1, sent1, false)
      else UploadWords(cfg, f, (a + 2) % 0x1_0000_0000, remaining - 1, bank1, sent1, credits1)
  }

  function UploadEeprom(eeprom: seq<byte>, addr: word, remaining: nat, bank: packet, sent: seq<packet>, credits: nat)
    : (r: (packet, seq<packet>, word, bool))
    requires eeprom != []
    decreases remaining
  {
    if remaining == 0 then (bank, sent, addr, true) else
      var (bank1, sent1, credits1, attached) := SendByte(bank, sent, credits, [eeprom[EepromIndex(eeprom, addr)]]);
      if !attached then (bank1, sent1, addr, false)
      else UploadEeprom(eeprom, (addr + 1) % 65536, remaining - 1, bank1, sent1, credits1)
  }

  /** UPLOAD of a memory range, with the device in the upload state. */
  function UploadMemory(cfg: Config, d: Dfu, credits: nat): (r: (Dfu, seq<packet>))
    requires cfg.Valid() && d.Fits(cfg)
    ensures r.0.Fits(cfg) && r.0.secure == d.secure
  {
    if d.data[0] == 0x00 then
      var (bank, sent, finished) := UploadWords(cfg, d.f, FlashAddress(d), BytesRemaining(d) / 2, [], [], credits);
      if finished then (d.(startAddr := d.endAddr, state := Idle), sent + [bank]) else (d, sent)
    else if d.data[0] == 0x02 then
      var (bank, sent, next, finished) := UploadEeprom(d.eeprom, d.startAddr, BytesRemaining(d), [], [], credits);
      if finished then (d.(startAddr := next, state := Idle), sent + [bank]) else (d.(startAddr := next), sent)
    else (d.(state := Idle), [[]])
  }

  function Upload(cfg: Config, d: Dfu, credits: nat): (r: (Dfu, seq<packet>))
    requires cfg.Valid() && d.Fits(cfg)
    ensures r.0.Fits(cfg) && r.0.secure == d.secure
  {
    if credits == 0 then (d, [])
    else if d.state == UploadIdle then UploadMemory(cfg, d, credits - 1)
    else (d, [if d.state == Error && d.data[0] == 0x01 then [d.startAddr % 256, d.startAddr / 256] else [d.response]])
  }

  // -- Requests -------------------------------------------------------------------------------------

  /** The requests about the device's own state. */
  function StatusRequest(d: Dfu, r: Request): (q: (Dfu, seq<packet>))
    ensures q.0 == d.(status := q.0.status, state := q.0.state)
  {
    if r.request == REQ_GETSTATUS then
      (d, if r.credits == 0 then [] else [[d.status, 0, 0, 0, StateCode(d.state), 0]])
    else if r.request == REQ_CLRSTATUS then (d.(status := STATUS_OK), [])
    else if r.request == REQ_GETSTATE then (d, if r.credits == 0 then [] else [[StateCode(d.state)]])
    else if r.request == REQ_ABORT then (d.(state := Idle), [])
    else (d, [])
  }

  /** EVENT_USB_Device_ControlRequest: the next state and the packets sent to the host. */
  function Step(cfg: Config, d0: Dfu, r: Request): (q: (Dfu, seq<packet>))
    requires cfg.Valid() && d0.Fits(cfg)
    ensures q.0.Fits(cfg) && (q.0.secure ==> d0.secure)
  {
    if !r.toInterface then (d0, []) else
      var d := d0.(dataSize := r.length);
      if r.request == REQ_DNLOAD then (Dnload(cfg, d, r), [])
      else if r.request == REQ_UPLOAD then Upload(cfg, d, r.credits)
      else StatusRequest(d, r)
  }

  /** A whole session: the final state, and everything sent, request by request. */
  function Session(cfg: Config, d: Dfu, rs: seq<Request>): (q: (Dfu, seq<seq<packet>>))
    requires cfg.Valid() && d.Fits(cfg)
    ensures q.0.Fits(cfg)
    decreases |rs|
  {
    if rs == [] then (d, []) else
      var (d1, sent) := Step(cfg, d, rs[0]);
      var (d2, more) := Session(cfg, d1, rs[1..]);
      (d2, [sent] + more)
  }

  /** The state before a later request, seen from the second request on. */
  lemma {:induction false} LaterRequest(cfg: Config, d: Dfu, rs: seq<Request>, k: nat)
    requires cfg.Valid() && d.Fits(cfg) && k < |rs|
    ensures Session(cfg, d, rs[..k + 1]).0 == Session(cfg, Step(cfg, d, rs[0]).0, rs[1..][..k]).0
    ensures k + 1 < |rs| ==> rs[1..][k] == rs[k + 1]
  {
    hide Step;
    assert rs[..k + 1][1..] == rs[1..][..k] && rs[..k + 1][0] == rs[0];
  }
}
