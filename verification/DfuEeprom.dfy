/** Downloads to the EEPROM and uploads from it through the DFU bootloader. */
module DfuEeprom {
  import opened Bits
  import opened FlashMachine
  import opened Endpoint
  import opened Dfu
  import opened DfuFiller
  import opened DfuTransfer

  // -- Download ------------------------------------------------------------------------------------------------

  ghost predicate NoEmptyPacket(ps: seq<packet>) {
    forall i :: 0 <= i < |ps| ==> ps[i] != []
  }

  lemma {:induction false} RefillReadsByte(p: OutPipe)
    requires NoEmptyPacket(p.pending) && Rest(p) != []
    ensures p.bank != [] || p.pending != []
    ensures var (b, q) := Read8(Refill(p));
            b == Rest(p)[0] && Rest(q) == Rest(p)[1..] && NoEmptyPacket(q.pending)
  {
    if p.bank == [] {
      assert Rest(p) == p.pending[0] + Concat(p.pending[1..]);
    }
  }

  /** The download loop lays the bytes of the stream in consecutive cells. */
  lemma {:induction false} EepromBytesLay(e0: seq<byte>, e: seq<byte>, a: nat, done: seq<byte>, p: OutPipe, n: nat)
    requires e0 != [] && Laid(e0, e, a, done) && NoEmptyPacket(p.pending)
    requires n <= |Rest(p)| && a + |done| + n <= 0x1_0000
    ensures |e| == |e0|
    ensures var (r, last) := EepromBytes(e, (a + |done|) % 0x1_0000, p, n);
            Laid(e0, r, a, done + Rest(p)[..n]) && last as int == (a + |done| + n) % 0x1_0000
    decreases n
  {
    hide Read8, Refill, Laid, Rest, EepromIndex;
    assert |e| == |e0| by { LaidLength(e0, e, a, done); }
    if n == 0 {
      assert done + Rest(p)[..0] == done;
    } else {
      RefillReadsByte(p);
      var (b, q) := Read8(Refill(p));
      LaidGrows(e0, e, a, done, b);
      EepromBytesLay(e0, e[EepromIndex(e, a + |done|) := b], a, done + [b], q, n - 1);
      assert done + [b] + Rest(p)[1..][..n - 1] == done + Rest(p)[..n];
    }
  }

  lemma {:induction false} LaidLength(e0: seq<byte>, e: seq<byte>, a: nat, done: seq<byte>)
    requires e0 != [] && Laid(e0, e, a, done)
    ensures |e| == |e0|
  {
  }

  function EepromHead(start: word, end: word): (r: seq<byte>)
    ensures |r| == 6
  {
    [0x01, 0x01, start / 256, start % 256, end / 256, end % 256]
  }

  /** The data stage of an EEPROM download; `align` fills up the first packet of data to the start address. */
  function EepromStage(start: word, end: word, filler: seq<byte>, align: seq<byte>, payload: seq<byte>,
                       suffix: seq<byte>): (r: seq<byte>) {
    EepromHead(start, end) + filler + (align + (payload + suffix))
  }

  function EepromRequest(start: word, end: word, filler: seq<byte>, align: seq<byte>, payload: seq<byte>,
                         suffix: seq<byte>): (r: Request)
    requires |EepromStage(start, end, filler, align, payload, suffix)| < 65536
  {
    var stage := EepromStage(start, end, filler, align, payload, suffix);
    Request(true, REQ_DNLOAD, |stage|, Packets(stage, CONTROL_SIZE), 0)
  }

  lemma {:induction false} EepromStageLength(start: word, end: word, filler: seq<byte>, align: seq<byte>,
                                             payload: seq<byte>, suffix: seq<byte>)
    ensures |EepromStage(start, end, filler, align, payload, suffix)| ==
            6 + |filler| + |align| + |payload| + |suffix|
  {
  }

  /** The device after a memory program command for the EEPROM. */
  function EepromProgramming(cfg: Config, d: Dfu, start: word, end: word): (r: Dfu)
    requires cfg.Valid() && d.Fits(cfg) && d.dataSize >= 6
    ensures r.Fits(cfg)
  {
    d.(command := 0x01, dataSize := d.dataSize - 6,
       data := [0x01, start / 256, start % 256, end / 256, end % 256],
       startAddr := start, endAddr := end, state := DnloadIdle)
  }

  lemma {:induction false} EepromCommandIs(cfg: Config, d: Dfu, start: word, end: word, rest: packet,
                                           pending: seq<packet>, credits: nat)
    requires cfg.Valid() && d.Fits(cfg) && !d.secure && !d.waitForExit && d.dataSize >= 6
    ensures var out := [EepromHead(start, end) + rest] + pending;
            Dnload(cfg, d, Request(true, REQ_DNLOAD, d.dataSize, out, credits)) ==
            Download(cfg, EepromProgramming(cfg, d, start, end), OutPipe(rest, pending))
  {
    hide Rem, ReadCommandData, Download, ProcessCommand;
    var c: seq<byte> := [0x01, start / 256, start % 256, end / 256, end % 256];
    var head: packet := EepromHead(start, end) + rest;
    assert ([head] + pending)[1..] == pending;
    var d1 := d.(command := 0x01, dataSize := d.dataSize - 1);
    assert (d.dataSize + 65535) % 65536 == d.dataSize - 1;
    assert head[1..][5..] == rest;
    CommandBytes(d1, c, head[1..], rest, pending, 0);
    EepromProcessed(cfg, d1.(data := c, dataSize := d.dataSize - 6), start, end);
  }

  lemma {:induction false} EepromProcessed(cfg: Config, d: Dfu, start: word, end: word)
    requires cfg.Valid() && d.Fits(cfg) && !d.secure && d.command == 0x01
    requires d.data == [0x01, start / 256, start % 256, end / 256, end % 256]
    ensures ProcessCommand(cfg, d) == d.(startAddr := start, endAddr := end, state := DnloadIdle)
  {
    hide Apply, MemRead, WriteCommand, ReadCommand;
    assert LE16(start % 256, start / 256) == start && LE16(end % 256, end / 256) == end;
  }

  /**
   The alignment filler is discarded but for its last byte, because fetching the packet uses up a count.
   */
  lemma {:induction false} AlignmentLeft(filler: packet, pending: seq<packet>, align: seq<byte>, body: seq<byte>)
    requires |filler| == FILLER_SIZE && |align| < CONTROL_SIZE && body != []
    requires pending == Packets(align + body, CONTROL_SIZE)
    ensures var p := Discard(Discard(OutPipe(filler, pending), FILLER_SIZE), |align|);
            && NoEmptyPacket(p.pending)
            && Rest(p) == (if align == [] then body else [align[|align| - 1]] + body)
  {
    hide Discard, Packets, Rest, NoEmptyPacket;
    var k, all := |align|, align + body;
    DiscardInBank(OutPipe(filler, pending), FILLER_SIZE);
    assert filler[FILLER_SIZE..] == [];
    AllPackets(all);
    if k == 0 {
      DiscardInBank(OutPipe([], pending), 0);
      assert all == body;
    } else {
      FirstPacket(all);
      DiscardStep(OutPipe([], pending), k);
      DiscardInBank(OutPipe(pending[0], pending[1..]), k - 1);
      RestBehind(pending, k - 1, all);
      assert all[k - 1..] == [align[k - 1]] + body;
    }
  }

  lemma {:induction false} AllPackets(data: seq<byte>)
    ensures var ps := Packets(data, CONTROL_SIZE);
            Concat(ps) == data && NoEmptyPacket(ps) && Rest(OutPipe([], ps)) == data
  {
    hide Packets, Concat;
    PacketsConcat(data, CONTROL_SIZE);
  }

  /** What is left of packets when j bytes of the first have been read. */
  lemma {:induction false} RestBehind(ps: seq<packet>, j: nat, data: seq<byte>)
    requires ps != [] && Concat(ps) == data && j <= |ps[0]| && NoEmptyPacket(ps)
    ensures j <= |data| && Rest(OutPipe(ps[0][j..], ps[1..])) == data[j..] && NoEmptyPacket(ps[1..])
  {
    assert data == ps[0] + Concat(ps[1..]);
  }

  lemma {:induction false} FirstPacket(data: seq<byte>)
    requires data != []
    ensures var ps := Packets(data, CONTROL_SIZE);
            ps != [] && |ps[0]| == if |data| < CONTROL_SIZE then |data| else CONTROL_SIZE
  {
  }

  /** What the loop is given to store: the payload, or the last alignment byte and the payload without its last byte. */
  function Kept(align: seq<byte>, payload: seq<byte>): (r: seq<byte>)
    requires payload != []
    ensures |r| == |payload|
  {
    if align == [] then payload else [align[|align| - 1]] + payload[..|payload| - 1]
  }

  /** A download request that carries the EEPROM range it announces. */
  ghost predicate EepromDownloadable(cfg: Config, d: Dfu, start: word, end: word, filler: seq<byte>, align: seq<byte>,
                                     payload: seq<byte>, suffix: seq<byte>) {
    && cfg.Valid() && d.Fits(cfg) && !d.secure && !d.waitForExit
    && |filler| == FILLER_SIZE && |align| == start as int % CONTROL_SIZE && payload != []
    && |EepromStage(start, end, filler, align, payload, suffix)| < 65536
    && end as int + 1 == start as int + |payload|
  }

  /** An EEPROM download lays what it keeps of the payload in consecutive cells and touches nothing else. */
  lemma {:induction false} EepromDownload(cfg: Config, d: Dfu, start: word, end: word, filler: seq<byte>,
                                          align: seq<byte>, payload: seq<byte>, suffix: seq<byte>)
    requires EepromDownloadable(cfg, d, start, end, filler, align, payload, suffix)
    ensures var q := Step(cfg, d, EepromRequest(start, end, filler, align, payload, suffix)).0;
            && Laid(d.eeprom, q.eeprom, start, Kept(align, payload)) && q.f == d.f
            && q.state == DnloadIdle && !q.secure && !q.waitForExit
  {
    hide Download, Dnload, Upload, StatusRequest, Packets, Laid, Kept;
    var head, body := EepromHead(start, end) + filler, align + (payload + suffix);
    var stage := EepromStage(start, end, filler, align, payload, suffix);
    var pending := Packets(body, CONTROL_SIZE);
    assert stage == head + body;
    StageSplits(stage, head, body);
    var d0 := d.(dataSize := |stage|);
    EepromCommandIs(cfg, d0, start, end, filler, pending, 0);
    EepromData(cfg, EepromProgramming(cfg, d0, start, end), filler, align, payload, suffix);
  }

  lemma {:induction false} EepromData(cfg: Config, d: Dfu, filler: seq<byte>, align: seq<byte>, payload: seq<byte>,
                                      suffix: seq<byte>)
    requires cfg.Valid() && d.Fits(cfg) && d.dataSize != 0 && d.data[0] == 0x01 && payload != []
    requires |filler| == FILLER_SIZE && |align| == d.startAddr as int % CONTROL_SIZE
    requires d.endAddr as int + 1 == d.startAddr as int + |payload| && |payload| < 65536
    ensures var q := Download(cfg, d, OutPipe(filler, Packets(align + (payload + suffix), CONTROL_SIZE)));
            && Laid(d.eeprom, q.eeprom, d.startAddr, Kept(align, payload))
            && q == d.(eeprom := q.eeprom, startAddr := q.startAddr)
  {
    hide FlashWords, EepromBytes, Discard, Packets, Laid, Kept, Rest, NoEmptyPacket;
    var n, body := |payload|, payload + suffix;
    var pending := Packets(align + body, CONTROL_SIZE);
    AlignmentLeft(filler, pending, align, body);
    var p := Discard(Discard(OutPipe(filler, pending), FILLER_SIZE), |align|);
    assert BytesRemaining(d) as int == n;
    NothingLaid(d.eeprom, d.startAddr);
    KeptIs(align, payload, suffix, Rest(p));
    EepromBytesLay(d.eeprom, d.eeprom, d.startAddr, [], p, n);
  }

  lemma {:induction false} KeptIs(align: seq<byte>, payload: seq<byte>, suffix: seq<byte>, rest: seq<byte>)
    requires payload != []
    requires rest == (if align == [] then payload + suffix else [align[|align| - 1]] + (payload + suffix))
    ensures |rest| >= |payload| && [] + rest[..|payload|] == Kept(align, payload)
  {
  }

  // -- Upload --------------------------------------------------------------------------------------------------

  /** The n cells from address a on. */
  function EepromRange(e: seq<byte>, a: nat, n: nat): (r: seq<byte>)
    requires e != []
    ensures |r| == n
  {
    if n == 0 then [] else EepromRange(e, a, n - 1) + [e[EepromCell(|e|, a, n - 1)]]
  }

  lemma {:induction false} RangeAt(e: seq<byte>, a: nat, n: nat, k: nat)
    requires e != [] && k < n
    ensures EepromRange(e, a, n)[k] == e[EepromCell(|e|, a, k)]
  {
    hide EepromCell;
    if k < n - 1 {
      RangeAt(e, a, n - 1, k);
    }
  }

  lemma {:induction false} RangeFirst(e: seq<byte>, a: nat, n: nat)
    requires e != [] && n > 0
    ensures EepromRange(e, a, n) == [e[EepromIndex(e, a)]] + EepromRange(e, a + 1, n - 1)
    decreases n
  {
    hide Rem;
    if n > 1 {
      RangeFirst(e, a, n - 1);
      assert EepromCell(|e|, a + 1, n - 2) == EepromCell(|e|, a, n - 1);
    } else {
      assert EepromRange(e, a, 0) == [] && EepromCell(|e|, a, 0) == EepromIndex(e, a);
    }
  }

  lemma {:induction false} ByteOff(bank: packet, b: byte, rest: seq<byte>)
    ensures (bank + [b]) + rest == bank + ([b] + rest)
  {
  }

  lemma {:induction false} UploadByte(e: seq<byte>, a: nat, remaining: nat, bank: packet, sent: seq<packet>,
                                      credits: nat)
    requires e != [] && remaining > 0 && a < 0x1_0000
    ensures var b := [e[EepromIndex(e, a)]];
            var next := (a + 1) % 0x1_0000;
            UploadEeprom(e, a, remaining, bank, sent, credits) ==
            if |bank| != CONTROL_SIZE then UploadEeprom(e, next, remaining - 1, bank + b, sent, credits)
            else if credits == 0 then ([], sent + [bank], a, false)
            else UploadEeprom(e, next, remaining - 1, b, sent + [bank], credits - 1)
  {
    hide EepromIndex;
  }

  /** The upload loop cuts the cells it reads into full packets, the last one as long as what is left. */
  lemma {:induction false} UploadEepromSend(e: seq<byte>, a: nat, remaining: nat, bank: packet, sent: seq<packet>,
                                            credits: nat)
    requires e != [] && a + remaining <= 0x1_0000 && |bank| <= CONTROL_SIZE && (bank != [] || remaining > 0)
    requires |Packets(bank + EepromRange(e, a, remaining), CONTROL_SIZE)| <= credits + 1
    ensures var (b, s, last, finished) := UploadEeprom(e, a % 0x1_0000, remaining, bank, sent, credits);
            finished && s + [b] == sent + Packets(bank + EepromRange(e, a, remaining), CONTROL_SIZE)
    decreases remaining
  {
    hide UploadEeprom, Packets, EepromRange, EepromIndex;
    var data := EepromRange(e, a, remaining);
    if remaining == 0 {
      assert bank + data == bank;
      PacketsOne(bank);
      NoBytesLeft(e, a % 0x1_0000, bank, sent, credits);
    } else {
      var b := e[EepromIndex(e, a)];
      UploadByte(e, a, remaining, bank, sent, credits);
      RangeFirst(e, a, remaining);
      if |bank| == CONTROL_SIZE {
        StageSplits(bank + data, bank, data);
        PacketsOne(data);
        UploadEepromSend(e, a + 1, remaining - 1, [b], sent + [bank], credits - 1);
        Regroup(sent, bank, Packets(data, CONTROL_SIZE));
      } else {
        ByteOff(bank, b, EepromRange(e, a + 1, remaining - 1));
        UploadEepromSend(e, a + 1, remaining - 1, bank + [b], sent, credits);
      }
    }
  }

  lemma {:induction false} NoBytesLeft(e: seq<byte>, a: word, bank: packet, sent: seq<packet>, credits: nat)
    requires e != []
    ensures UploadEeprom(e, a, 0, bank, sent, credits) == (bank, sent, a, true)
  {
  }

  function EepromDisplay(start: word, end: word): (r: Request) {
    Request(true, REQ_DNLOAD, 6, [[0x03, 0x02, start / 256, start % 256, end / 256, end % 256]], 0)
  }

  lemma {:induction false} EepromDisplayStep(cfg: Config, d: Dfu, start: word, end: word)
    requires cfg.Valid() && d.Fits(cfg) && !d.secure && !d.waitForExit
    ensures var q := Step(cfg, d, EepromDisplay(start, end)).0;
            && q.state == UploadIdle && q.startAddr == start && q.endAddr == end && q.data[0] == 0x02
            && q.f == d.f && q.eeprom == d.eeprom
  {
    hide ProcessCommand, Step;
    var c: seq<byte> := [0x02, start / 256, start % 256, end / 256, end % 256];
    assert [0x03, 0x02, start / 256, start % 256, end / 256, end % 256] == [0x03] + c;
    CommandStep(cfg, d, 0x03, c);
    EepromDisplayed(cfg, d.(command := 0x03, dataSize := 0, data := c), start, end);
  }

  lemma {:induction false} EepromDisplayed(cfg: Config, d: Dfu, start: word, end: word)
    requires cfg.Valid() && d.Fits(cfg) && !d.secure && d.command == 0x03
    requires d.data == [0x02, start / 256, start % 256, end / 256, end % 256]
    ensures ProcessCommand(cfg, d) == d.(startAddr := start, endAddr := end, state := UploadIdle)
  {
    hide MemProg, WriteCommand, ReadCommand, FirstNonBlank;
    assert LE16(start % 256, start / 256) == start && LE16(end % 256, end / 256) == end;
  }

  /** Uploading an EEPROM range sends its cells in order. */
  lemma {:induction false} EepromUploadStep(cfg: Config, d: Dfu, n: nat, credits: nat)
    requires cfg.Valid() && d.Fits(cfg) && d.state == UploadIdle && d.data[0] == 0x02
    requires 0 < n < 65536 && d.endAddr as int + 1 == d.startAddr as int + n && n <= CONTROL_SIZE * credits
    ensures var (q, sent) := Step(cfg, d, Request(true, REQ_UPLOAD, n, [], credits));
            && Concat(sent) == EepromRange(d.eeprom, d.startAddr, n) && q.state == Idle
            && q.f == d.f && q.eeprom == d.eeprom
  {
    hide UploadWords, UploadEeprom, Packets, StateCode, Concat, EepromRange;
    var data := EepromRange(d.eeprom, d.startAddr, n);
    assert BytesRemaining(d) as int == n;
    PacketsCount(data);
    PacketsConcat(data, CONTROL_SIZE);
    assert [] + data == data && [] + Packets(data, CONTROL_SIZE) == Packets(data, CONTROL_SIZE);
    UploadEepromSend(d.eeprom, d.startAddr, n, [], [], credits - 1);
  }

  // -- Round trip ----------------------------------------------------------------------------------------------

  /**
   Downloading to an EEPROM range and uploading it returns what was kept: the payload if and only if no alignment is
   needed, or the whole payload repeats the last alignment byte.
   */
  lemma {:induction false} EepromDownloadThenUpload(cfg: Config, d: Dfu, start: word, end: word, filler: seq<byte>,
                                                    align: seq<byte>, payload: seq<byte>, suffix: seq<byte>,
                                                    credits: nat)
    requires EepromDownloadable(cfg, d, start, end, filler, align, payload, suffix)
    requires |payload| <= cfg.eepromSize && |payload| <= CONTROL_SIZE * credits
    ensures |payload| < 65536
    ensures var d1 := Step(cfg, d, EepromRequest(start, end, filler, align, payload, suffix)).0;
            var d2 := Step(cfg, d1, ZERO_LENGTH).0;
            var d3 := Step(cfg, d2, EepromDisplay(start, end)).0;
            var (q, sent) := Step(cfg, d3, Request(true, REQ_UPLOAD, |payload|, [], credits));
            && q.f == d.f && Laid(d.eeprom, q.eeprom, start, Kept(align, payload))
            && Concat(sent) == Kept(align, payload)
            && (Concat(sent) == payload <==> align == [] || forall b <- payload :: b == align[|align| - 1])
  {
    hide Step, EepromStage, Concat, Packets, Kept, Laid, EepromRange;
    var n, kept := |payload|, Kept(align, payload);
    EepromStageLength(start, end, filler, align, payload, suffix);
    EepromDownload(cfg, d, start, end, filler, align, payload, suffix);
    var d1 := Step(cfg, d, EepromRequest(start, end, filler, align, payload, suffix)).0;
    ZeroLengthStep(cfg, d1);
    var d2 := Step(cfg, d1, ZERO_LENGTH).0;
    EepromDisplayStep(cfg, d2, start, end);
    var d3 := Step(cfg, d2, EepromDisplay(start, end)).0;
    EepromUploadStep(cfg, d3, n, credits);
    RangeIsLaid(d.eeprom, d1.eeprom, start, kept);
    KeptIff(align, payload);
  }

  lemma {:induction false} RangeIsLaid(before: seq<byte>, after: seq<byte>, a: nat, data: seq<byte>)
    requires before != [] && Laid(before, after, a, data) && |data| <= |before|
    ensures after != [] && EepromRange(after, a, |data|) == data
  {
    hide EepromRange;
    forall k | 0 <= k < |data|
      ensures EepromRange(after, a, |data|)[k] == data[k]
    {
      RangeAt(after, a, |data|, k);
      assert after[EepromCell(|before|, a, k)] == data[k];
    }
  }

  lemma {:induction false} KeptIff(align: seq<byte>, payload: seq<byte>)
    requires payload != []
    ensures Kept(align, payload) == payload <==> align == [] || forall b <- payload :: b == align[|align| - 1]
  {
    if align != [] {
      var x, kept := align[|align| - 1], Kept(align, payload);
      if kept == payload {
        var i := 0;
        while i < |payload|
          invariant i <= |payload| && forall j :: 0 <= j < i ==> payload[j] == x
        {
          assert kept[i] == if i == 0 then x else payload[i - 1];
          i := i + 1;
        }
      }
      if forall b <- payload :: b == x {
        assert forall i :: 0 <= i < |payload| ==> payload[i] in payload;
        assert kept == payload;
      }
    }
  }
}
