/** Downloads to flash and uploads from it through the DFU bootloader. */
module DfuTransfer {
  import opened Bits
  import opened FlashMachine
  import opened Endpoint
  import opened Dfu
  import opened DfuFiller

  /** Committing a full page and erasing the next one. */
  lemma {:induction false} TurnPage(chip: Chip, f: Flash, mem0: seq<byte>, base: nat, done: seq<byte>, tail: seq<byte>)
    requires chip.Valid() && Open(chip, f, mem0, base, done, tail) && |tail| == chip.pageSize
    requires base + |done| + |tail| < chip.bootStart
    ensures var f2 := Apply(chip, f, Write(base + |done|));
            Open(chip, Apply(chip, f2, Erase(base + |done| + |tail|)), mem0, base, done + tail, [])
  {
    hide Apply;
    var f2 := Apply(chip, f, Write(base + |done|));
    CommitOpenPage(chip, f, mem0, base, done, tail);
    assert Page(chip, tail) == tail;
    RemSum(|done|, |tail|, chip.pageSize);
    RemIsModulo(|tail|, chip.pageSize);
    OpenPage(chip, f2, mem0, base, done + tail);
  }

  /** The part of some data at address `a` that lies below the boot section. */
  function Cut(chip: Chip, a: nat, data: seq<byte>): (r: seq<byte>)
    requires a <= chip.bootStart
    ensures a + |r| <= chip.bootStart && r <= data
  {
    if a + |data| <= chip.bootStart then data else data[..chip.bootStart - a]
  }

  /**
   The download loop over whole-word packets: a page is committed when it is full or the data ends,
   and the next one erased, so that flash ends up holding the data padded to whole pages, as far as the
   boot section.
   */
  lemma {:induction false} FlashWordsStore(chip: Chip, f: Flash, p: OutPipe, mem0: seq<byte>, base: nat,
                                           done: seq<byte>, tail: seq<byte>, remaining: nat)
    requires chip.Valid() && chip.pageSize <= 256
    requires Open(chip, f, mem0, base, done, tail) && |tail| % 2 == 0 && |tail| < chip.pageSize
    requires WordPipe(p) && remaining > 0 && |Rest(p)| >= 2 * remaining && remaining < 65536
    ensures base <= chip.bootStart
    ensures var data := done + tail + Rest(p)[..2 * remaining];
            var (r, finished) := FlashWords(chip, f, p, base + |done| + |tail|, base + |done|, |tail| / 2, remaining);
            finished && r.mem == Overwrite(mem0, base, Cut(chip, base, Padded(chip, data)))
    decreases remaining
  {
    hide Apply, Rem, Rest, Refill, Read16, WordPipe, FlashWords, Overwrite, Padded, Page, Cut, Guarded;
    var rest := Rest(p);
    var lo, hi := rest[0], rest[1];
    var a, tail1 := base + |done| + |tail|, tail + [lo, hi];
    RefillReadsWord(p);
    var (w, p1) := Read16(Refill(p));
    FillOpenPage(chip, f, mem0, base, done, tail, lo, hi);
    FlashWordsTurn(chip, f, p, a, base + |done|, |tail| / 2, remaining);
    var f1 := Apply(chip, f, Fill(a, w));
    var more := rest[2..][..2 * (remaining - 1)];
    assert done + tail + rest[..2 * remaining] == done + tail1 + more;
    if remaining == 1 {
      assert more == [] && done + tail1 + more == done + tail1;
      LastPage(chip, f1, mem0, base, done, tail1);
    } else if |tail1| < chip.pageSize {
      FlashWordsStore(chip, f1, p1, mem0, base, done, tail1, remaining - 1);
    } else if a + 2 < chip.bootStart {
      TurnPage(chip, f1, mem0, base, done, tail1);
      var f3 := Apply(chip, Apply(chip, f1, Write(base + |done|)), Erase(a + 2));
      FlashWordsStore(chip, f3, p1, mem0, base, done + tail1, [], remaining - 1);
      assert done + tail1 + [] + more == done + tail1 + more;
    } else {
      LastFullPage(chip, f1, mem0, base, done, tail1, more);
      var f2 := Apply(chip, f1, Write(base + |done|));
      RefusedWords(chip, f2, p1, a + 2, a + 2, 0, remaining - 1);
      LoopFinishes(chip, f2, p1, a + 2, a + 2, 0, remaining - 1);
    }
  }

  /** The end of the data in a page below the boot section. */
  lemma {:induction false} LastPage(chip: Chip, f: Flash, mem0: seq<byte>, base: nat, done: seq<byte>,
                                    tail: seq<byte>)
    requires chip.Valid() && Open(chip, f, mem0, base, done, tail) && tail != []
    ensures base <= chip.bootStart
    ensures Apply(chip, f, Write(base + |done|)).mem ==
            Overwrite(mem0, base, Cut(chip, base, Padded(chip, done + tail)))
  {
    hide Apply, Rem, Overwrite, Page;
    CommitOpenPage(chip, f, mem0, base, done, tail);
    PaddedIs(chip, done, tail);
  }

  /** The last page below the boot section is full: the erase that follows is refused. */
  lemma {:induction false} LastFullPage(chip: Chip, f: Flash, mem0: seq<byte>, base: nat, done: seq<byte>,
                                        tail: seq<byte>, more: seq<byte>)
    requires chip.Valid() && Open(chip, f, mem0, base, done, tail) && |tail| == chip.pageSize
    requires base + |done| + |tail| >= chip.bootStart
    ensures base <= chip.bootStart && Guarded(chip, base + |done| + |tail|)
    ensures var f2 := Apply(chip, f, Write(base + |done|));
            && Apply(chip, f2, Erase(base + |done| + |tail|)) == f2
            && f2.mem == Overwrite(mem0, base, Cut(chip, base, Padded(chip, done + tail + more)))
  {
    hide Apply, Rem, Overwrite, Page;
    CommitOpenPage(chip, f, mem0, base, done, tail);
    assert Page(chip, tail) == tail by { FullPage(chip, tail); }
    GuardRefuses(chip, Apply(chip, f, Write(base + |done|)), base + |done| + |tail|);
    var all := Padded(chip, done + tail + more);
    assert done + tail <= done + tail + more <= all;
    assert Cut(chip, base, all) == done + tail;
  }

  /** The memory program command for a flash range. */
  function ProgramHead(start: word, end: word): (r: seq<byte>)
    ensures |r| == 6
  {
    [COMMAND_PROG_START, 0x00, start / 256, start % 256, end / 256, end % 256]
  }

  /** The data stage of a flash download: command, addresses, filler, firmware and file suffix. */
  function ProgramStage(start: word, end: word, filler: seq<byte>, payload: seq<byte>,
                        suffix: seq<byte>): (r: seq<byte>) {
    ProgramHead(start, end) + filler + (payload + suffix)
  }

  function ProgramRequest(start: word, end: word, filler: seq<byte>, payload: seq<byte>,
                          suffix: seq<byte>): (r: Request)
    requires |ProgramStage(start, end, filler, payload, suffix)| < 65536
  {
    var stage := ProgramStage(start, end, filler, payload, suffix);
    Request(true, REQ_DNLOAD, |stage|, Packets(stage, CONTROL_SIZE), 0)
  }

  /** The five bytes after the command code become its data; the rest of the packet stays in the bank. */
  lemma {:induction false} CommandBytes(d: Dfu, c: seq<byte>, bank: packet, rest: packet, pending: seq<packet>, k: nat)
    requires |d.data| == 5 && |c| == 5 && k <= 5 && d.dataSize >= 5 - k && |bank| >= 5 - k && rest == bank[5 - k..]
    requires forall i :: 0 <= i < k ==> d.data[i] == c[i]
    requires forall i :: k <= i < 5 ==> bank[i - k] == c[i]
    ensures ReadCommandData(d, OutPipe(bank, pending), k) ==
            (d.(data := c, dataSize := d.dataSize - (5 - k)), OutPipe(rest, pending))
    decreases 5 - k
  {
    hide ReadCommandData;
    if k == 5 {
      assert d.data == c && rest == bank;
      ReadNoMore(d, OutPipe(bank, pending));
    } else {
      assert bank[0] == c[k];
      ReadOneMore(d, bank, pending, k);
      var d1 := d.(data := d.data[k := c[k]], dataSize := d.dataSize - 1);
      CommandBytes(d1, c, bank[1..], rest, pending, k + 1);
    }
  }

  lemma {:induction false} ReadNoMore(d: Dfu, p: OutPipe)
    requires |d.data| == 5
    ensures ReadCommandData(d, p, 5) == (d, p)
  {
  }

  lemma {:induction false} ReadOneMore(d: Dfu, bank: packet, pending: seq<packet>, k: nat)
    requires |d.data| == 5 && k < 5 && d.dataSize > 0 && bank != []
    ensures ReadCommandData(d, OutPipe(bank, pending), k) ==
            ReadCommandData(d.(data := d.data[k := bank[0]], dataSize := d.dataSize - 1),
                            OutPipe(bank[1..], pending), k + 1)
  {
    assert (d.dataSize + 65535) % 65536 == d.dataSize - 1;
  }

  lemma {:induction false} StageSplits(stage: seq<byte>, head: seq<byte>, body: seq<byte>)
    requires stage == head + body && |head| == CONTROL_SIZE && body != []
    ensures Packets(stage, CONTROL_SIZE) == [head] + Packets(body, CONTROL_SIZE)
  {
    assert stage[..CONTROL_SIZE] == head && stage[CONTROL_SIZE..] == body;
  }

  /** A page-aligned address is aligned to the control endpoint, so no alignment filler is expected. */
  lemma {:induction false} NoAlignmentFiller(chip: Chip, d: Dfu)
    requires chip.Valid() && chip.pageSize >= CONTROL_SIZE && Rem(FlashAddress(d), chip.pageSize) == 0
    ensures d.startAddr % CONTROL_SIZE == 0
  {
    hide Rem;
    var k: nat :| chip.pageSize == Pow2(k);
    assert Pow2(4) == 16 && Pow2(5) == CONTROL_SIZE;
    if k < 5 {
      Pow2Mono(k, 4);
    }
    Pow2Divides(5, k);
    RemTrans(FlashAddress(d), chip.pageSize, CONTROL_SIZE);
    RemIsModulo(FlashAddress(d), CONTROL_SIZE);
  }

  /** The whole words of some data: the loops count words, so an odd last byte is never transferred. */
  function Whole(data: seq<byte>): (r: seq<byte>)
    ensures |r| % 2 == 0 && |data| - 1 <= |r| <= |data| && (|r| == |data| <==> |data| % 2 == 0)
  {
    data[..|data| - |data| % 2]
  }

  /**
   What a download leaves from its start on: its words padded to whole pages, or the first page erased if it has none.
   */
  function Stored(chip: Chip, payload: seq<byte>): (r: seq<byte>)
    requires chip.pageSize > 0
  {
    if |payload| < 2 then Blank(chip.pageSize) else Padded(chip, Whole(payload))
  }

  function Base(d: Dfu, start: word): (a: nat) {
    start + 0x1_0000 * (d.flash64 as int)
  }

  /** The bytes from a start to an end address; a range may run over the end of a 64 KB page. */
  function RangeLength(start: word, end: word): (n: nat) {
    if start as int <= end as int + 1 then end as int + 1 - start as int else end as int + 1 + 65536 - start as int
  }

  /** How many of n bytes at address `a` a download replaces: those below the boot section, if it starts on a page. */
  function Written(chip: Chip, a: nat, n: nat): (k: nat)
    requires chip.pageSize > 0
    ensures k <= n
  {
    if Rem(a, chip.pageSize) != 0 || a >= chip.bootStart then 0
    else if a + n <= chip.bootStart then n
    else chip.bootStart - a
  }

  /** A download request that carries the range it announces, anywhere in the address range. */
  ghost predicate Downloadable(cfg: Config, d: Dfu, start: word, end: word, filler: seq<byte>, payload: seq<byte>,
                               suffix: seq<byte>) {
    && cfg.Valid() && d.Fits(cfg) && !d.secure && !d.waitForExit
    && CONTROL_SIZE <= cfg.chip.pageSize <= 256 && |filler| == FILLER_SIZE && payload != []
    && |ProgramStage(start, end, filler, payload, suffix)| < 65536 && RangeLength(start, end) == |payload|
  }

  /**
   A download to a page of the application: flash then holds the words of the payload, padded to whole pages, as far as
   the boot section, and is otherwise unchanged.
   */
  lemma {:induction false} DownloadStores(cfg: Config, d: Dfu, start: word, end: word, filler: seq<byte>,
                                          payload: seq<byte>, suffix: seq<byte>)
    requires Downloadable(cfg, d, start, end, filler, payload, suffix)
    requires Rem(Base(d, start), cfg.chip.pageSize) == 0 && Base(d, start) < cfg.chip.bootStart
    ensures var a, q := Base(d, start), Step(cfg, d, ProgramRequest(start, end, filler, payload, suffix)).0;
            && q.f.mem == Overwrite(d.f.mem, a, Cut(cfg.chip, a, Stored(cfg.chip, payload)))
            && q == d.(f := q.f, state := DnloadIdle, command := q.command, data := q.data, dataSize := q.dataSize,
                       startAddr := end, endAddr := end)
  {
    hide Apply, Rem, Stored, Overwrite, Download, Dnload, Upload, StateCode, Packets, Open, WholeWords, Concat, Blank;
    hide Cut;
    var n := |ProgramStage(start, end, filler, payload, suffix)|;
    StageLength(start, end, filler, payload, suffix);
    var d3 := Programming(cfg, d.(dataSize := n), start, end);
    var body := payload + suffix;
    var head := ProgramHead(start, end) + filler;
    StageSplits(head + body, head, body);
    ProgramCommand(cfg, d.(dataSize := n), start, end, filler, Packets(body, CONTROL_SIZE), 0);
    OpenFirst(cfg.chip, d.f, Base(d, start));
    PacketsConcat(body, CONTROL_SIZE);
    DownloadWords(cfg, d3, d.f.mem, filler, Packets(body, CONTROL_SIZE), payload);
  }

  /**
   A flash download that does not start on a page boundary, or starts in the boot section, changes no flash byte, in
   whatever packets it comes.
   */
  lemma {:induction false} RefusedDownload(cfg: Config, d: Dfu, start: word, end: word, rest: packet,
                                           pending: seq<packet>, length: word, credits: nat)
    requires cfg.Valid() && d.Fits(cfg) && !d.secure && !d.waitForExit && length > 6
    requires Guarded(cfg.chip, Base(d, start))
    ensures var out := [ProgramHead(start, end) + rest] + pending;
            var q := Step(cfg, d, Request(true, REQ_DNLOAD, length, out, credits)).0;
            && q.f.mem == d.f.mem
            && q == d.(f := q.f, state := DnloadIdle, command := q.command, data := q.data, dataSize := q.dataSize,
                       startAddr := q.startAddr, endAddr := end)
  {
    hide Apply, Rem, FlashWords, Discard, Dnload, Upload, StateCode, Guarded;
    var d3 := Programming(cfg, d.(dataSize := length), start, end);
    ProgramCommand(cfg, d.(dataSize := length), start, end, rest, pending, credits);
    GuardRefuses(cfg.chip, d.f, Base(d, start));
    var p1 := Discard(Discard(OutPipe(rest, pending), FILLER_SIZE), start % CONTROL_SIZE);
    RefusedWords(cfg.chip, d.f, p1, Base(d, start), Base(d, start), 0, BytesRemaining(d3) / 2);
  }

  /**
   What the range holds afterwards: the words of the payload as far as they were written, and the old bytes from there
   on. So it holds all the words if and only if the rest of them was there already.
   */
  lemma {:induction false} DownloadIff(cfg: Config, d: Dfu, start: word, end: word, filler: seq<byte>,
                                       payload: seq<byte>, suffix: seq<byte>)
    requires Downloadable(cfg, d, start, end, filler, payload, suffix)
    requires Base(d, start) + |payload| <= cfg.chip.flashSize
    ensures var a, w := Base(d, start), Whole(payload);
            var k, mem0 := Written(cfg.chip, a, |w|), d.f.mem;
            var q := Step(cfg, d, ProgramRequest(start, end, filler, payload, suffix)).0;
            && q.f.mem[a..a + |w|] == w[..k] + mem0[a + k..a + |w|]
            && (q.f.mem[a..a + |w|] == w <==> mem0[a + k..a + |w|] == w[k..])
            && (Guarded(cfg.chip, a) ==> q.f.mem == mem0)
            && q.state == DnloadIdle && !q.secure && !q.waitForExit && q.flash64 == d.flash64
  {
    hide Step, Rem, Packets, ProgramStage;
    var a, w := Base(d, start), Whole(payload);
    var k := Written(cfg.chip, a, |w|);
    StageLength(start, end, filler, payload, suffix);
    SplitsAt(w, k, d.f.mem[a + k..a + |w|]);
    if Guarded(cfg.chip, a) {
      RequestSplits(start, end, filler, payload, suffix);
      RefusedDownload(cfg, d, start, end, filler, Packets(payload + suffix, CONTROL_SIZE),
                      |ProgramStage(start, end, filler, payload, suffix)|, 0);
      assert w[..0] + d.f.mem[a..a + |w|] == d.f.mem[a..a + |w|];
    } else {
      DownloadStores(cfg, d, start, end, filler, payload, suffix);
      StoredHoldsWords(cfg.chip, d.f.mem, a, payload);
    }
  }

  lemma {:induction false} SplitsAt(w: seq<byte>, k: nat, rest: seq<byte>)
    requires k <= |w| && |rest| == |w| - k
    ensures w[..k] + rest == w <==> rest == w[k..]
  {
    assert w[..k] + w[k..] == w;
    if w[..k] + rest == w {
      assert (w[..k] + rest)[k..] == rest;
    }
  }

  lemma {:induction false} StoredHoldsWords(chip: Chip, mem: seq<byte>, a: nat, payload: seq<byte>)
    requires chip.Valid() && chip.flashSize == |mem| && a + |payload| <= |mem|
    requires Rem(a, chip.pageSize) == 0 && a < chip.bootStart
    ensures var w := Whole(payload);
            var k := Written(chip, a, |w|);
            Overwrite(mem, a, Cut(chip, a, Stored(chip, payload)))[a..a + |w|] == w[..k] + mem[a + k..a + |w|]
  {
    hide Rem;
    var w, all := Whole(payload), Stored(chip, payload);
    var cut, k := Cut(chip, a, all), Written(chip, a, |w|);
    if |payload| < 2 {
      assert w == [];
    } else {
      assert w <= all && w[..k] <= cut;
    }
  }

  lemma {:induction false} RequestSplits(start: word, end: word, filler: seq<byte>, payload: seq<byte>,
                                         suffix: seq<byte>)
    requires |filler| == FILLER_SIZE && payload != [] && |ProgramStage(start, end, filler, payload, suffix)| < 65536
    ensures ProgramRequest(start, end, filler, payload, suffix) ==
            Request(true, REQ_DNLOAD, |ProgramStage(start, end, filler, payload, suffix)|,
                    [ProgramHead(start, end) + filler] + Packets(payload + suffix, CONTROL_SIZE), 0)
  {
    hide Packets;
    var head := ProgramHead(start, end) + filler;
    StageSplits(head + (payload + suffix), head, payload + suffix);
  }

  lemma {:induction false} StageLength(start: word, end: word, filler: seq<byte>, payload: seq<byte>, suffix: seq<byte>)
    ensures |ProgramStage(start, end, filler, payload, suffix)| == 6 + |filler| + |payload + suffix|
  {
  }

  /** The device after a memory program command for flash. */
  function Programming(cfg: Config, d: Dfu, start: word, end: word): (r: Dfu)
    requires cfg.Valid() && d.Fits(cfg) && d.dataSize >= 6
    ensures r.Fits(cfg)
  {
    d.(command := COMMAND_PROG_START, dataSize := d.dataSize - 6,
       data := [0x00, start / 256, start % 256, end / 256, end % 256],
       startAddr := start, endAddr := end, state := DnloadIdle,
       f := Apply(cfg.chip, d.f, Erase(start + 0x1_0000 * (d.flash64 as int))))
  }

  /** The first packet of the data stage carries the command. */
  lemma {:induction false} ProgramCommand(cfg: Config, d: Dfu, start: word, end: word, rest: packet,
                                          pending: seq<packet>, credits: nat)
    requires cfg.Valid() && d.Fits(cfg) && !d.secure && !d.waitForExit && d.dataSize >= 6
    ensures var out := [ProgramHead(start, end) + rest] + pending;
            Dnload(cfg, d, Request(true, REQ_DNLOAD, d.dataSize, out, credits)) ==
            Download(cfg, Programming(cfg, d, start, end), OutPipe(rest, pending))
  {
    hide Apply, Rem, ReadCommandData, Download, ProcessCommand;
    var c: seq<byte> := [0x00, start / 256, start % 256, end / 256, end % 256];
    var head: packet := ProgramHead(start, end) + rest;
    assert ([head] + pending)[1..] == pending;
    var d1 := d.(command := COMMAND_PROG_START, dataSize := d.dataSize - 1);
    assert (d.dataSize + 65535) % 65536 == d.dataSize - 1;
    assert head[1..][5..] == rest;
    CommandBytes(d1, c, head[1..], rest, pending, 0);
    var d2 := d1.(data := c, dataSize := d.dataSize - 6);
    ProgramProcessed(cfg, d2, start, end);
  }

  lemma {:induction false} ProgramProcessed(cfg: Config, d: Dfu, start: word, end: word)
    requires cfg.Valid() && d.Fits(cfg) && !d.secure && d.command == COMMAND_PROG_START
    requires d.data == [0x00, start / 256, start % 256, end / 256, end % 256]
    ensures ProcessCommand(cfg, d) ==
            d.(startAddr := start, endAddr := end, state := DnloadIdle,
               f := Apply(cfg.chip, d.f, Erase(start + 0x1_0000 * (d.flash64 as int))))
  {
    hide Apply, MemRead, WriteCommand, ReadCommand;
    assert LE16(start % 256, start / 256) == start && LE16(end % 256, end / 256) == end;
  }

  /** The packets after it hold the firmware. */
  lemma {:induction false} DownloadWords(cfg: Config, d: Dfu, mem0: seq<byte>, filler: packet,
                                         pending: seq<packet>, payload: seq<byte>)
    requires cfg.Valid() && d.Fits(cfg) && CONTROL_SIZE <= cfg.chip.pageSize <= 256
    requires |mem0| == cfg.chip.flashSize
    requires d.dataSize != 0 && d.data[0] == 0x00 && |filler| == FILLER_SIZE
    requires 0 < |payload| < 65536 && RangeLength(d.startAddr, d.endAddr) == |payload|
    requires WholeWords(pending) && payload <= Concat(pending)
    requires Open(cfg.chip, d.f, mem0, FlashAddress(d), [], [])
    ensures FlashAddress(d) <= cfg.chip.bootStart
    ensures var a, q := FlashAddress(d), Download(cfg, d, OutPipe(filler, pending));
            && q.f.mem == Overwrite(mem0, a, Cut(cfg.chip, a, Stored(cfg.chip, payload)))
            && q == d.(f := q.f, startAddr := d.endAddr)
  {
    hide Rem, FlashWords, Discard, Overwrite, Open, Blank, Cut, Stored, Concat, Rest, WordPipe;
    var chip, a, p := cfg.chip, FlashAddress(d), OutPipe([], pending);
    DiscardInBank(OutPipe(filler, pending), FILLER_SIZE);
    assert filler[FILLER_SIZE..] == [];
    OpenFacts(chip, d.f, mem0, a);
    NoAlignmentFiller(chip, d);
    DiscardInBank(p, 0);
    RestOfPending(pending, Concat(pending));
    assert BytesRemaining(d) == |payload|;
    LoopStores(chip, d.f, p, mem0, a, payload);
  }

  /** The whole download loop over a payload and whatever follows it. */
  lemma {:induction false} LoopStores(chip: Chip, f: Flash, p: OutPipe, mem0: seq<byte>, a: nat, payload: seq<byte>)
    requires chip.Valid() && chip.pageSize <= 256 && |mem0| == chip.flashSize && Open(chip, f, mem0, a, [], [])
    requires WordPipe(p) && payload <= Rest(p) && 0 < |payload| < 65536
    ensures f.Fits(chip) && a <= chip.bootStart
    ensures var (r, finished) := FlashWords(chip, f, p, a, a, 0, |payload| / 2);
            finished && r.mem == Overwrite(mem0, a, Cut(chip, a, Stored(chip, payload)))
  {
    hide Rem, FlashWords, Padded, Overwrite, Open, Blank, Rest, WordPipe;
    OpenFacts(chip, f, mem0, a);
    if |payload| < 2 {
      NoWords(chip, f, p, a);
    } else {
      FlashWordsStore(chip, f, p, mem0, a, [], [], |payload| / 2);
      assert [] + [] + Rest(p)[..2 * (|payload| / 2)] == Whole(payload);
    }
  }

  lemma {:induction false} OpenFacts(chip: Chip, f: Flash, mem0: seq<byte>, a: nat)
    requires chip.Valid() && Open(chip, f, mem0, a, [], [])
    ensures Rem(a, chip.pageSize) == 0 && a + chip.pageSize <= chip.bootStart && |mem0| == chip.flashSize
    ensures f.Fits(chip) && f.mem == Overwrite(mem0, a, Blank(chip.pageSize))
  {
    FirstPageOpen(chip, f, mem0, a, [], []);
  }

  lemma {:induction false} NoWords(chip: Chip, f: Flash, p: OutPipe, a: nat)
    requires chip.Valid() && f.Fits(chip)
    ensures FlashWords(chip, f, p, a, a, 0, 0) == (f, true)
  {
  }

  lemma {:induction false} RestOfPending(pending: seq<packet>, body: seq<byte>)
    requires Concat(pending) == body && WholeWords(pending)
    ensures Rest(OutPipe([], pending)) == body && WordPipe(OutPipe([], pending))
  {
  }

  /** One turn of the upload loop. */
  lemma {:induction false} UploadTurn(cfg: Config, f: Flash, a: nat, remaining: nat, bank: packet,
                                      sent: seq<packet>, credits: nat)
    requires cfg.Valid() && f.Fits(cfg.chip) && remaining > 0 && a + 2 <= cfg.chip.flashSize
    ensures var w := f.mem[a..a + 2];
            UploadWords(cfg, f, a, remaining, bank, sent, credits) ==
            if |bank| != CONTROL_SIZE then UploadWords(cfg, f, a + 2, remaining - 1, bank + w, sent, credits)
            else if credits == 0 then ([], sent + [bank], false)
            else UploadWords(cfg, f, a + 2, remaining - 1, w, sent + [bank], credits - 1)
  {
    hide FlashByte;
    FlashByteIs(cfg.chip, f, a);
    FlashByteIs(cfg.chip, f, a + 1);
    assert f.mem[a..a + 2] == [f.mem[a], f.mem[a + 1]];
  }

  lemma {:induction false} PacketsOne(data: seq<byte>)
    requires data != []
    ensures |Packets(data, CONTROL_SIZE)| >= 1
    ensures |data| <= CONTROL_SIZE ==> Packets(data, CONTROL_SIZE) == [data]
  {
  }

  lemma {:induction false} WordOff(bank: packet, mem: seq<byte>, a: nat, end: nat)
    requires a + 2 <= end <= |mem|
    ensures mem[a..a + 2] + mem[a + 2..end] == mem[a..end]
    ensures (bank + mem[a..a + 2]) + mem[a + 2..end] == bank + mem[a..end]
  {
  }

  lemma {:induction false} Regroup(sent: seq<packet>, bank: packet, more: seq<packet>)
    ensures (sent + [bank]) + more == sent + ([bank] + more)
  {
  }

  /** The upload loop cuts the bytes it reads into full packets, the last one as long as what is left. */
  lemma {:induction false} UploadWordsSend(cfg: Config, f: Flash, a: nat, remaining: nat, bank: packet,
                                           sent: seq<packet>, credits: nat)
    requires cfg.Valid() && f.Fits(cfg.chip) && a + 2 * remaining <= cfg.chip.flashSize
    requires |bank| % 2 == 0 && |bank| <= CONTROL_SIZE && (bank != [] || remaining > 0)
    requires |Packets(bank + f.mem[a..a + 2 * remaining], CONTROL_SIZE)| <= credits + 1
    ensures var (b, s, finished) := UploadWords(cfg, f, a, remaining, bank, sent, credits);
            finished && s + [b] == sent + Packets(bank + f.mem[a..a + 2 * remaining], CONTROL_SIZE)
    decreases remaining
  {
    hide UploadWords, Packets;
    var end := a + 2 * remaining;
    var data := f.mem[a..end];
    if remaining == 0 {
      assert bank + data == bank;
      PacketsOne(bank);
      NoWordsLeft(cfg, f, a, bank, sent, credits);
    } else {
      UploadTurn(cfg, f, a, remaining, bank, sent, credits);
      WordOff(bank, f.mem, a, end);
      if |bank| == CONTROL_SIZE {
        StageSplits(bank + data, bank, data);
        PacketsOne(data);
        UploadWordsSend(cfg, f, a + 2, remaining - 1, f.mem[a..a + 2], sent + [bank], credits - 1);
        Regroup(sent, bank, Packets(data, CONTROL_SIZE));
      } else {
        UploadWordsSend(cfg, f, a + 2, remaining - 1, bank + f.mem[a..a + 2], sent, credits);
      }
    }
  }

  lemma {:induction false} NoWordsLeft(cfg: Config, f: Flash, a: nat, bank: packet, sent: seq<packet>, credits: nat)
    ensures UploadWords(cfg, f, a, 0, bank, sent, credits) == (bank, sent, true)
  {
  }

  function DisplayRequest(start: word, end: word): (r: Request) {
    Request(true, REQ_DNLOAD, 6, [[COMMAND_DISP_DATA, 0x00, start / 256, start % 256, end / 256, end % 256]], 0)
  }

  const ZERO_LENGTH := Request(true, REQ_DNLOAD, 0, [], 0)

  lemma {:induction false} DisplayCommand(cfg: Config, d: Dfu, start: word, end: word)
    requires cfg.Valid() && d.Fits(cfg) && !d.secure && d.command == COMMAND_DISP_DATA
    requires d.data == [0x00, start / 256, start % 256, end / 256, end % 256]
    ensures ProcessCommand(cfg, d) == d.(startAddr := start, endAddr := end, state := UploadIdle)
  {
    hide MemProg, WriteCommand, ReadCommand, FirstNonBlank;
    assert LE16(start % 256, start / 256) == start && LE16(end % 256, end / 256) == end;
  }

  lemma {:induction false} DisplayStep(cfg: Config, d: Dfu, start: word, end: word)
    requires cfg.Valid() && d.Fits(cfg) && !d.secure && !d.waitForExit
    ensures var q := Step(cfg, d, DisplayRequest(start, end)).0;
            && q.state == UploadIdle && q.startAddr == start && q.endAddr == end && q.data[0] == 0x00
            && q.f == d.f && q.flash64 == d.flash64 && q.secure == d.secure && q.waitForExit == d.waitForExit
  {
    hide ProcessCommand, Step;
    var c: seq<byte> := [0x00, start / 256, start % 256, end / 256, end % 256];
    assert [COMMAND_DISP_DATA, 0x00, start / 256, start % 256, end / 256, end % 256] == [COMMAND_DISP_DATA] + c;
    CommandStep(cfg, d, COMMAND_DISP_DATA, c);
    DisplayCommand(cfg, d.(command := COMMAND_DISP_DATA, dataSize := 0, data := c), start, end);
  }

  /** A request that carries one six-byte command and no firmware. */
  lemma {:induction false} CommandStep(cfg: Config, d: Dfu, command: byte, c: seq<byte>)
    requires cfg.Valid() && d.Fits(cfg) && !d.waitForExit && |c| == 5
    ensures var q := ProcessCommand(cfg, d.(command := command, dataSize := 0, data := c));
            q.state != DnloadIdle ==> Step(cfg, d, Request(true, REQ_DNLOAD, 6, [[command] + c], 0)).0 == q
  {
    hide ReceiveCommand, ProcessCommand, Download, Upload, StatusRequest;
    CommandReceived(cfg, d.(dataSize := 6), command, c);
  }

  lemma {:induction false} CommandReceived(cfg: Config, d: Dfu, command: byte, c: seq<byte>)
    requires cfg.Valid() && d.Fits(cfg) && d.dataSize == 6 && |c| == 5
    ensures ReceiveCommand(cfg, d, OutPipe([], [[command] + c])) ==
            (ProcessCommand(cfg, d.(command := command, dataSize := 0, data := c)), OutPipe([], []))
  {
    hide ReadCommandData, ProcessCommand, Read8, NextPacket;
    FirstByte(command, c);
    AllDataRead(d.(command := command, dataSize := 5), c);
  }

  lemma {:induction false} FirstByte(b: byte, c: packet)
    ensures Read8(NextPacket(OutPipe([], [[b] + c]))) == (b, OutPipe(c, []))
  {
    assert ([b] + c)[1..] == c && [[b] + c][1..] == [];
  }

  lemma {:induction false} AllDataRead(d: Dfu, c: seq<byte>)
    requires |d.data| == 5 && |c| == 5 && d.dataSize == 5
    ensures ReadCommandData(d, OutPipe(c, []), 0) == (d.(data := c, dataSize := 0), OutPipe([], []))
  {
    hide ReadCommandData;
    assert c[5..] == [];
    CommandBytes(d, c, c, [], [], 0);
  }

  lemma {:induction false} PacketsCount(data: seq<byte>)
    ensures CONTROL_SIZE * |Packets(data, CONTROL_SIZE)| < |data| + CONTROL_SIZE
    decreases |data|
  {
    if |data| > CONTROL_SIZE {
      PacketsCount(data[CONTROL_SIZE..]);
    }
  }

  /** The packets of an upload: full ones and the rest, or an empty one if there is no whole word. */
  function SentRange(bytes: seq<byte>): (r: seq<packet>) {
    if |bytes| < 2 then [[]] else Packets(Whole(bytes), CONTROL_SIZE)
  }

  /** Uploading a range sends its words byte for byte, cut into packets. */
  lemma {:induction false} UploadStep(cfg: Config, d: Dfu, n: nat, credits: nat)
    requires cfg.Valid() && d.Fits(cfg) && d.state == UploadIdle && d.data[0] == 0x00
    requires 0 < n < 65536 && RangeLength(d.startAddr, d.endAddr) == n && FlashAddress(d) + n <= cfg.chip.flashSize
    requires n <= CONTROL_SIZE * credits
    ensures var a := FlashAddress(d);
            var sent := SentRange(d.f.mem[a..a + n]);
            && Step(cfg, d, Request(true, REQ_UPLOAD, n, [], credits)) ==
               (d.(dataSize := n, startAddr := d.endAddr, state := Idle), sent)
            && Concat(sent) == Whole(d.f.mem[a..a + n])
  {
    hide UploadWords, Packets, StateCode, Concat, Whole, SentRange;
    assert BytesRemaining(d) == n;
    RangeSent(cfg, d.f, FlashAddress(d), n, credits);
  }

  lemma {:induction false} RangeSent(cfg: Config, f: Flash, a: nat, n: nat, credits: nat)
    requires cfg.Valid() && f.Fits(cfg.chip) && 0 < n && a + n <= cfg.chip.flashSize && n <= CONTROL_SIZE * credits
    ensures var sent := SentRange(f.mem[a..a + n]);
            var (bank, packets, finished) := UploadWords(cfg, f, a, n / 2, [], [], credits - 1);
            finished && packets + [bank] == sent && Concat(sent) == Whole(f.mem[a..a + n])
  {
    hide UploadWords, Packets;
    var bytes := Whole(f.mem[a..a + n]);
    if n < 2 {
      NoWordsLeft(cfg, f, a, [], [], credits - 1);
      var one: seq<packet> := [[]];
      assert one[1..] == [] && Concat(one) == [] + Concat([]);
    } else {
      PacketsConcat(bytes, CONTROL_SIZE);
      assert [] + f.mem[a..a + 2 * (n / 2)] == bytes;
      PacketsCount(bytes);
      UploadWordsSend(cfg, f, a, n / 2, [], [], credits - 1);
      assert [] + Packets(bytes, CONTROL_SIZE) == Packets(bytes, CONTROL_SIZE);
    }
  }

  /**
   Downloading to a range and then uploading it returns the words that were written and the old contents after them:
   the payload if and only if its length is even and what was not written was there already.
   */
  lemma {:induction false} DownloadThenUpload(cfg: Config, d: Dfu, start: word, end: word, filler: seq<byte>,
                                              payload: seq<byte>, suffix: seq<byte>, credits: nat)
    requires Downloadable(cfg, d, start, end, filler, payload, suffix) && |payload| <= CONTROL_SIZE * credits
    requires Base(d, start) + |payload| <= cfg.chip.flashSize
    ensures var a, n, w := Base(d, start), |payload|, Whole(payload);
            var k := Written(cfg.chip, a, |w|);
            var d1 := Step(cfg, d, ProgramRequest(start, end, filler, payload, suffix)).0;
            var d2 := Step(cfg, d1, ZERO_LENGTH).0;
            var d3 := Step(cfg, d2, DisplayRequest(start, end)).0;
            var sent := Step(cfg, d3, Request(true, REQ_UPLOAD, n, [], credits)).1;
            && Concat(sent) == w[..k] + d.f.mem[a + k..a + |w|]
            && (Concat(sent) == payload <==> n % 2 == 0 && d.f.mem[a + k..a + |w|] == w[k..])
  {
    hide Step, Rem, ProgramStage, Concat, Packets, Whole, Written, Guarded;
    StageLength(start, end, filler, payload, suffix);
    DownloadIff(cfg, d, start, end, filler, payload, suffix);
    var a, n := Base(d, start), |payload|;
    var d1 := Step(cfg, d, ProgramRequest(start, end, filler, payload, suffix)).0;
    ZeroLengthStep(cfg, d1);
    var d2 := Step(cfg, d1, ZERO_LENGTH).0;
    DisplayStep(cfg, d2, start, end);
    var d3 := Step(cfg, d2, DisplayRequest(start, end)).0;
    UploadStep(cfg, d3, n, credits);
    WholeSlice(d3.f.mem, a, n);
    WholePayload(payload);
  }

  lemma {:induction false} WholeSlice(mem: seq<byte>, a: nat, n: nat)
    requires a + n <= |mem|
    ensures Whole(mem[a..a + n]) == mem[a..a + n - n % 2]
  {
  }

  lemma {:induction false} WholePayload(payload: seq<byte>)
    ensures |Whole(payload)| == |payload| - |payload| % 2 && (|payload| % 2 == 0 ==> Whole(payload) == payload)
  {
  }

  lemma {:induction false} ZeroLengthStep(cfg: Config, d: Dfu)
    requires cfg.Valid() && d.Fits(cfg) && d.state == DnloadIdle && !d.waitForExit
    ensures Step(cfg, d, ZERO_LENGTH).0 == d.(dataSize := 0, state := Idle)
  {
    hide ProcessCommand;
  }
}
