/**
 The CDC bootloader's AVR109 engine (BootloaderCDC.c): one command from a packetised byte stream, one framed response.
 */
module Cdc {
  import opened Bits
  import opened FlashMachine
  import opened Endpoint

  const ENDPOINT_SIZE := 16
  const CARRIAGE_RETURN: byte := 13
  const QUESTION_MARK: byte := 63
  const MEMORY_FLASH: byte := 'F' as int
  const MEMORY_EEPROM: byte := 'E' as int

  /** Build-time constants and the fuse and lock bytes the hardware reports. */
  datatype Config = Config(chip: Chip, eepromSize: nat, signature: seq<byte>, lock: byte, low: byte, high: byte,
                           extended: byte) {
    ghost predicate Valid() {
      chip.Valid() && eepromSize > 0 && |signature| == 3
    }
  }

  datatype Cdc = Cdc(currAddr: nat, running: bool, f: Flash, eeprom: seq<byte>) {
    ghost predicate Fits(cfg: Config) {
      f.Fits(cfg.chip) && |eeprom| == cfg.eepromSize
    }
  }

  // -- Input -----------------------------------------------------------------------------------------------

  /** FetchNextCommandByte: empty packets are skipped; a host that has gone yields 0. */
  function Fetch(p: OutPipe): (r: (byte, OutPipe))
    decreases |p.pending|
  {
    if p.bank != [] then Read8(p)
    else if p.pending == [] then (0, p)
    else Fetch(NextPacket(p))
  }

  /** However the stream is cut into packets, fetching takes its next byte. */
  lemma {:induction false} FetchNext(p: OutPipe)
    requires Rest(p) != []
    ensures var (b, q) := Fetch(p);
            b == Rest(p)[0] && Rest(q) == Rest(p)[1..]
    decreases |p.pending|
  {
    if p.bank == [] {
      assert Rest(NextPacket(p)) == Rest(p);
      FetchNext(NextPacket(p));
    }
  }

  // -- Block commands ----------------------------------------------------------------------------------------

  function Next(a: nat): (r: nat) {
    (a + 2) % 0x1_0000_0000
  }

  /** The read loop over flash: the address advances after every second byte. */
  function ReadFlash(chip: Chip, f: Flash, a: nat, high: bool, n: nat): (r: (seq<byte>, nat))
    decreases n
  {
    if n == 0 then ([], a) else
      var b := FlashByte(chip, f, Or(a, if high then 1 else 0));
      var (rest, last) := ReadFlash(chip, f, if high then Next(a) else a, !high, n - 1);
      ([b] + rest, last)
  }

  function ReadEeprom(eeprom: seq<byte>, a: nat, n: nat): (r: (seq<byte>, nat))
    requires eeprom != []
    decreases n
  {
    if n == 0 then ([], a) else
      var (rest, last) := ReadEeprom(eeprom, Next(a), n - 1);
      ([eeprom[EepromIndex(eeprom, a / 2 % 0x1_0000)]] + rest, last)
  }

  /** The write loop over flash: every second byte completes a word. */
  function WriteFlash(chip: Chip, f: Flash, a: nat, p: OutPipe, high: bool, low: byte, n: nat): (r: (Flash, nat,
                      OutPipe))
    requires chip.Valid() && f.Fits(chip)
    ensures r.0.Fits(chip)
    decreases n
  {
    if n == 0 then (f, a, p) else
      var (b, p1) := Fetch(p);
      if high then WriteFlash(chip, Apply(chip, f, Fill(a, LE16(low, b))), Next(a), p1, false, low, n - 1)
      else WriteFlash(chip, f, a, p1, true, b, n - 1)
  }

  function WriteEeprom(eeprom: seq<byte>, a: nat, p: OutPipe, n: nat): (r: (seq<byte>, nat, OutPipe))
    requires eeprom != []
    ensures |r.0| == |eeprom|
    decreases n
  {
    if n == 0 then (eeprom, a, p) else
      var (b, p1) := Fetch(p);
      WriteEeprom(eeprom[EepromIndex(eeprom, a / 2 % 0x1_0000) := b], Next(a), p1, n - 1)
  }

  /** ReadWriteMemoryBlock: the new state and the response. */
  function MemoryBlock(cfg: Config, d: Cdc, command: byte, p: OutPipe): (r: (Cdc, seq<byte>))
    requires cfg.Valid() && d.Fits(cfg)
    ensures r.0.Fits(cfg)
  {
    var (hi, p1) := Fetch(p);
    var (lo, p2) := Fetch(p1);
    var (kind, p3) := Fetch(p2);
    var size := LE16(lo, hi);
    if kind != MEMORY_FLASH && kind != MEMORY_EEPROM then (d, [QUESTION_MARK])
    else if command == 'g' as int then
      var (bytes, a) :=
        if kind == MEMORY_FLASH then ReadFlash(cfg.chip, d.f, d.currAddr, false, size)
          else ReadEeprom(d.eeprom, d.currAddr, size);
      (d.(currAddr := a), bytes)
    else if kind == MEMORY_FLASH then
      var (f, a, _) := WriteFlash(cfg.chip, Apply(cfg.chip, d.f, Erase(d.currAddr)), d.currAddr, p3, false, 0, size);
      (d.(f := Apply(cfg.chip, f, Write(d.currAddr)), currAddr := a), [CARRIAGE_RETURN])
    else
      var (eeprom, a, _) := WriteEeprom(d.eeprom, d.currAddr, p3, size);
      (d.(eeprom := eeprom, currAddr := a), [CARRIAGE_RETURN])
  }

  // -- Commands ----------------------------------------------------------------------------------------------

  predicate Is(command: byte, c: char)
    requires c as int < 256
  {
    command == c as int
  }

  /** CDC_Task up to its tail: the command byte has been fetched. */
  function Respond(cfg: Config, d: Cdc, command: byte, p: OutPipe): (r: (Cdc, seq<byte>))
    requires cfg.Valid() && d.Fits(cfg)
    ensures r.0.Fits(cfg)
  {
    if Is(command, 'E') then (d.(running := false), [CARRIAGE_RETURN])
    else if Is(command, 'x') || Is(command, 'y') || Is(command, 'T') then (d, [CARRIAGE_RETURN])
    else if Is(command, 'P') || Is(command, 'L') then (d, [CARRIAGE_RETURN])
    else if Is(command, 't') then (d, [0x44, 0x00])
    else if Is(command, 'a') then (d, ['Y' as int])
    else if Is(command, 'A') then
      var (hi, p1) := Fetch(p);
      var (lo, _) := Fetch(p1);
      (d.(currAddr := Or(hi * 512, lo * 2)), [CARRIAGE_RETURN])
    else if Is(command, 'p') then (d, ['S' as int])
    else if Is(command, 'S') then (d, [0x4C, 0x55, 0x46, 0x41, 0x43, 0x44, 0x43])  // "LUFACDC"
    else if Is(command, 'V') then (d, ['0' as int + 1, '0' as int])
    else if Is(command, 's') then (d, [cfg.signature[2], cfg.signature[1], cfg.signature[0]])
    else if Is(command, 'e') then (d.(f := EraseFrom(cfg.chip, d.f, 0)), [CARRIAGE_RETURN])
    else if Is(command, 'l') then (d, [CARRIAGE_RETURN])
    else if Is(command, 'r') then (d, [cfg.lock])
    else if Is(command, 'F') then (d, [cfg.low])
    else if Is(command, 'N') then (d, [cfg.high])
    else if Is(command, 'Q') then (d, [cfg.extended])
    else if Is(command, 'b') then (d, ['Y' as int, cfg.chip.pageSize / 256 % 256, cfg.chip.pageSize % 256])
    else if Is(command, 'B') || Is(command, 'g') then MemoryBlock(cfg, d, command, p)
    else if Is(command, 'C') then (d.(f := Apply(cfg.chip, d.f, Fill(d.currAddr, Fetch(p).0))), [CARRIAGE_RETURN])
    else if Is(command, 'c') then
      (d.(f := Apply(cfg.chip, d.f, Fill(Or(d.currAddr, 1), Fetch(p).0)), currAddr := Next(d.currAddr)),
       [CARRIAGE_RETURN])
    else if Is(command, 'm') then (d.(f := Apply(cfg.chip, d.f, Write(d.currAddr))), [CARRIAGE_RETURN])
    else if Is(command, 'R') then
      (d, [FlashByte(cfg.chip, d.f, d.currAddr + 1), FlashByte(cfg.chip, d.f, d.currAddr)])
    else if Is(command, 'D') then
      var i := EepromIndex(d.eeprom, d.currAddr / 2 % 0x1_0000);
      (d.(eeprom := d.eeprom[i := Fetch(p).0], currAddr := Next(d.currAddr)), [CARRIAGE_RETURN])
    else if Is(command, 'd') then
      (d.(currAddr := Next(d.currAddr)), [d.eeprom[EepromIndex(d.eeprom, d.currAddr / 2 % 0x1_0000)]])
    else if command != 27 then (d, [QUESTION_MARK])
    else (d, [])
  }

  // -- Output ------------------------------------------------------------------------------------------------

  datatype InPipe = InPipe(bank: packet, sent: seq<packet>)

  /** WriteNextResponseByte, with the device attached. */
  function Emit(o: InPipe, b: byte): (r: InPipe) {
    if |o.bank| == ENDPOINT_SIZE then InPipe([b], o.sent + [o.bank]) else o.(bank := o.bank + [b])
  }

  function EmitAll(o: InPipe, bs: seq<byte>): (r: InPipe) {
    if bs == [] then o else Emit(EmitAll(o, bs[..|bs| - 1]), bs[|bs| - 1])
  }

  /** The tail of CDC_Task: send the bank, and an empty packet after it if it was full. */
  function Finish(o: InPipe): (r: seq<packet>) {
    if |o.bank| == ENDPOINT_SIZE then o.sent + [o.bank] + [[]] else o.sent + [o.bank]
  }

  /** One command: what CDC_Task does with a packet in the OUT endpoint. */
  function Task(cfg: Config, d: Cdc, p: OutPipe): (r: (Cdc, seq<packet>))
    requires cfg.Valid() && d.Fits(cfg)
    ensures r.0.Fits(cfg)
  {
    var (command, p1) := Fetch(p);
    var (d1, response) := Respond(cfg, d, command, p1);
    (d1, Finish(EmitAll(InPipe([], []), response)))
  }

  // -- Framing -----------------------------------------------------------------------------------------------

  ghost predicate FullPackets(ps: seq<packet>) {
    forall i :: 0 <= i < |ps| ==> |ps[i]| == ENDPOINT_SIZE
  }

  lemma {:induction false} EmitFrames(o: InPipe, bs: seq<byte>, b: byte)
    requires FullPackets(o.sent) && |o.bank| <= ENDPOINT_SIZE && Concat(o.sent) + o.bank == bs
    ensures var r := Emit(o, b);
            FullPackets(r.sent) && |r.bank| <= ENDPOINT_SIZE && Concat(r.sent) + r.bank == bs + [b]
  {
    hide Concat;
    ConcatLast(o.sent, o.bank);
  }

  lemma {:induction false} NoFrames()
    ensures FullPackets([]) && Concat([]) + [] == []
  {
  }

  lemma {:induction false} EmitAllFrames(bs: seq<byte>)
    ensures var o := EmitAll(InPipe([], []), bs);
            FullPackets(o.sent) && |o.bank| <= ENDPOINT_SIZE && Concat(o.sent) + o.bank == bs
    decreases |bs|
  {
    hide Emit, FullPackets;
    if bs == [] {
      NoFrames();
    } else {
      var n := |bs| - 1;
      EmitAllFrames(bs[..n]);
      EmitFrames(EmitAll(InPipe([], []), bs[..n]), bs[..n], bs[n]);
      assert bs == bs[..n] + [bs[n]];
    }
  }

  /**
   The packets of a response carry exactly its bytes, all full but the last, which is short and so ends the transfer.
   */
  lemma {:induction false} ResponseFraming(bs: seq<byte>)
    ensures var ps := Finish(EmitAll(InPipe([], []), bs));
            && Concat(ps) == bs && ps != []
            && FullPackets(ps[..|ps| - 1]) && |ps[|ps| - 1]| < ENDPOINT_SIZE
  {
    hide EmitAll;
    var o := EmitAll(InPipe([], []), bs);
    EmitAllFrames(bs);
    ConcatLast(o.sent, o.bank);
    ConcatLast(o.sent + [o.bank], []);
    var ps := Finish(o);
    if |o.bank| == ENDPOINT_SIZE {
      assert ps[..|ps| - 1] == o.sent + [o.bank];
    } else {
      assert ps[..|ps| - 1] == o.sent;
    }
  }

  /** So whatever the command, the host receives its response, whole and terminated. */
  lemma {:induction false} TaskFraming(cfg: Config, d: Cdc, p: OutPipe)
    requires cfg.Valid() && d.Fits(cfg)
    ensures var sent := Task(cfg, d, p).1;
            var (command, rest) := Fetch(p);
            && Concat(sent) == Respond(cfg, d, command, rest).1 && sent != []
            && FullPackets(sent[..|sent| - 1]) && |sent[|sent| - 1]| < ENDPOINT_SIZE
  {
    hide Respond, Fetch, EmitAll, Finish, Concat, FullPackets;
    var (command, rest) := Fetch(p);
    ResponseFraming(Respond(cfg, d, command, rest).1);
  }
}
