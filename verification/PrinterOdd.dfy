/** Records of any length, one after the other: what an odd byte count does to the records that follow it. */
module PrinterOdd {
  import opened Bits
  import opened FlashMachine
  import opened HexText
  import opened Printer
  import opened PrinterImage

  // -- A record at an odd address works like one at the even address below it ---------------------------------

  /** The parser one address further on. */
  function Skewed(p: Parser): (q: Parser) {
    p.(currAddr := p.currAddr + 1)
  }

  function SkewedMachine(m: Machine): (r: Machine) {
    m.(p := Skewed(m.p))
  }

  lemma {:induction false} SkewRem(chip: Chip, a: nat)
    requires chip.Valid() && a % 2 == 0
    ensures Rem(a + 1, chip.pageSize) == Rem(a, chip.pageSize) + 1 && Rem(a, chip.pageSize) % 2 == 0
  {
    hide Rem;
    var p := chip.pageSize;
    var t := Rem(a, p);
    RemEven(a, p);
    RemBase(a, p);
    RemSum(a - t, t + 1, p);
    RemSmall(t + 1, p);
  }

  lemma {:induction false} BelowSpace(chip: Chip, a: nat)
    requires chip.Valid() && a <= chip.bootStart + 1
    ensures a < AddressSpace(chip) && a % AddressSpace(chip) == a && chip.pageSize <= AddressSpace(chip)
  {
    hide Rem;
    RemEven(chip.bootStart, chip.pageSize);
    RemEven(chip.flashSize, chip.pageSize);
  }

  lemma {:induction false} SkewFlush(chip: Chip, p: Parser)
    requires chip.Valid() && p.currAddr % 2 == 0 && p.currAddr <= chip.bootStart
    ensures var (q, ops) := Flush(chip, p);
            Flush(chip, Skewed(p)) == (Skewed(q), ops) && q.currAddr == p.currAddr
  {
    hide And, Rem, AddressSpace;
    var a := p.currAddr;
    BelowSpace(chip, a + 1);
    SkewRem(chip, a);
    PageOfAddress(chip, a);
    PageOfAddress(chip, a + 1);
  }

  lemma {:induction false} SkewFill(chip: Chip, f: Flash, a: nat, w: word)
    requires chip.Valid() && f.Fits(chip) && a % 2 == 0
    ensures Apply(chip, f, Fill(a + 1, w)) == Apply(chip, f, Fill(a, w))
  {
    hide Rem;
    SkewRem(chip, a);
  }

  lemma {:induction false} SkewWord(chip: Chip, f: Flash, p: Parser, w: word)
    requires chip.Valid() && f.Fits(chip) && p.currAddr % 2 == 0 && p.currAddr < chip.bootStart
    ensures var (q, ops) := DataWord(chip, p, w);
            var (q1, ops1) := DataWord(chip, Skewed(p), w);
            && q1 == Skewed(q) && Run(chip, f, ops1) == Run(chip, f, ops)
            && q.currAddr == p.currAddr + 2 && q == p.(currAddr := q.currAddr, pageStart := q.pageStart,
                                                      pageDirty := q.pageDirty)
  {
    hide Apply, Rem, AddressSpace, Flush, Run, DataWord;
    var a := p.currAddr;
    RemEven(chip.bootStart, chip.pageSize);
    BelowSpace(chip, a + 2);
    BelowSpace(chip, a + 3);
    var p1 := p.(pageDirty := true, currAddr := a + 2);
    SkewFlush(chip, p1);
    FlushIs(chip, p1);
    DataWordSplits(chip, p, w);
    DataWordSplits(chip, Skewed(p), w);
    RunSkewed(chip, f, Opening(p), a, w, Flush(chip, p1).1);
  }

  /** The erase that a word requests before it is filled, if its page is not in use. */
  function Opening(p: Parser): (ops: seq<FlashOp>) {
    if p.pageDirty then [] else [Erase(p.pageStart)]
  }

  lemma {:induction false} DataWordSplits(chip: Chip, p: Parser, w: word)
    requires chip.Valid() && p.currAddr + 2 < AddressSpace(chip)
    ensures chip.pageSize <= AddressSpace(chip)
    ensures var (q, flushed) := Flush(chip, p.(pageDirty := true, currAddr := p.currAddr + 2));
            DataWord(chip, p, w) == (q, Opening(p) + [Fill(p.currAddr, w)] + flushed)
  {
    hide Flush;
    assert [] + [Fill(p.currAddr, w)] == [Fill(p.currAddr, w)];
    assert [Erase(p.pageStart)] + [Fill(p.currAddr, w)] == [Erase(p.pageStart), Fill(p.currAddr, w)];
  }

  lemma {:induction false} FlushIs(chip: Chip, p: Parser)
    requires chip.pageSize <= AddressSpace(chip)
    ensures var q := Flush(chip, p).0;
            q == p.(pageStart := q.pageStart, pageDirty := q.pageDirty)
  {
    hide And, AddressSpace;
  }

  lemma {:induction false} RunSkewed(chip: Chip, f: Flash, before: seq<FlashOp>, a: nat, w: word, after: seq<FlashOp>)
    requires chip.Valid() && f.Fits(chip) && a % 2 == 0
    ensures Run(chip, f, before + [Fill(a + 1, w)] + after) == Run(chip, f, before + [Fill(a, w)] + after)
  {
    hide Apply, Run;
    var f1 := Run(chip, f, before);
    RunConcat(chip, f, before + [Fill(a + 1, w)], after);
    RunConcat(chip, f, before + [Fill(a, w)], after);
    RunConcat(chip, f, before, [Fill(a + 1, w)]);
    RunConcat(chip, f, before, [Fill(a, w)]);
    RunTwo(chip, f1, Fill(a, w), Fill(a, w));
    RunTwo(chip, f1, Fill(a + 1, w), Fill(a, w));
    SkewFill(chip, f1, a, w);
  }

  /** One data byte of such a record. */
  lemma {:induction false} SkewByte(chip: Chip, m: Machine, b: byte)
    requires chip.Valid() && m.f.Fits(chip) && m.p.state == ReadData && m.p.dataRem > 0 && !m.p.readMSB
    requires m.p.recordType == TYPE_DATA && m.p.currAddr % 2 == 0 && m.p.currAddr < chip.bootStart
    ensures var r := Print(chip, m, HexByte(b));
            && Print(chip, SkewedMachine(m), HexByte(b)) == SkewedMachine(r)
            && r.p.recordType == TYPE_DATA && !r.p.readMSB && r.p.dataRem == m.p.dataRem - 1
            && r.p.currAddr == m.p.currAddr + (if m.p.dataRem % 2 == 0 then 0 else 2)
            && (r.p.dataRem > 0 ==> r.p.state == ReadData)
  {
    hide Apply, HexByte, ByteDone, Print, DataWord, Run, Plus, LE16, Rem;
    PrintByte(chip, m, b);
    PrintByte(chip, SkewedMachine(m), b);
    RemEven(chip.bootStart, chip.pageSize);
    RunNothing(chip, m.f);
    if m.p.dataRem % 2 == 0 {
      LowByte(chip, m.p, b);
      LowByte(chip, Skewed(m.p), b);
    } else {
      HighByte(chip, m.p, b);
      HighByte(chip, Skewed(m.p), b);
      var p1 := m.p.(data := b, dataRem := m.p.dataRem - 1, checksum := Plus(m.p.checksum, b));
      SkewWord(chip, m.f, p1, LE16(m.p.prevData, b));
    }
  }

  lemma {:induction false} SkewData(chip: Chip, m: Machine, d: seq<byte>)
    requires chip.Valid() && m.f.Fits(chip) && m.p.dataRem as int == |d| && (d != [] ==> m.p.state == ReadData)
    requires m.p.recordType == TYPE_DATA && !m.p.readMSB && m.p.currAddr % 2 == 0
    requires m.p.currAddr + |d| <= chip.bootStart
    ensures Print(chip, SkewedMachine(m), HexBytes(d)) == SkewedMachine(Print(chip, m, HexBytes(d)))
    decreases |d|
  {
    hide HexByte, HexBytes, Print, Skewed, Rem;
    if d == [] {
      NoBytes();
      PrintNothing(chip, m);
      PrintNothing(chip, SkewedMachine(m));
    } else {
      RemEven(chip.bootStart, chip.pageSize);
      OddFirst([], 0, d);
      SkewByte(chip, m, d[0]);
      PrintConcat(chip, m, HexByte(d[0]), HexBytes(d[1..]));
      PrintConcat(chip, SkewedMachine(m), HexByte(d[0]), HexBytes(d[1..]));
      SkewData(chip, Print(chip, m, HexByte(d[0])), d[1..]);
    }
  }

  lemma {:induction false} SkewChecksum(chip: Chip, m: Machine, ck: byte)
    requires chip.Valid() && m.f.Fits(chip) && m.p.state == Checksum && !m.p.readMSB
    requires (m.p.checksum + ck) % 256 == 0 && m.p.currAddr % 2 == 0 && m.p.currAddr <= chip.bootStart
    ensures Print(chip, SkewedMachine(m), HexByte(ck)) == SkewedMachine(Print(chip, m, HexByte(ck)))
  {
    hide Apply, HexByte, ByteDone, Print, Flush, Run;
    PrintByte(chip, m, ck);
    PrintByte(chip, SkewedMachine(m), ck);
    RightChecksum(chip, m.p, ck);
    RightChecksum(chip, Skewed(m.p), ck);
    SkewFlush(chip, m.p.(data := ck));
  }

  // -- The last word of the image a second time -----------------------------------------------------------------

  /** A record that starts one word before the end of the image, in an open page, replaces that word. */
  lemma {:induction false} FillAgain(chip: Chip, f: Flash, mem0: seq<byte>, start: nat, done: seq<byte>,
                                     tail: seq<byte>, lo: byte, hi: byte)
    requires chip.Valid() && Open(chip, f, mem0, start, done, tail) && |tail| % 2 == 0 && tail != []
    ensures Open(chip, Apply(chip, f, Fill(start + |done| + |tail| - 2, LE16(lo, hi))), mem0, start, done,
                 tail[..|tail| - 2] + [lo, hi])
  {
    hide Rem, Overwrite;
    var p, n := chip.pageSize, |tail| - 2;
    RemSum(start, |done|, p);
    RemSum(start + |done|, n, p);
    RemSmall(n, p);
    assert LE16(lo, hi) % 256 == lo && LE16(lo, hi) / 256 == hi;
    PageAgain(chip, tail, lo, hi);
  }

  lemma {:induction false} PageAgain(chip: Chip, tail: seq<byte>, lo: byte, hi: byte)
    requires 2 <= |tail| <= chip.pageSize
    ensures var n := |tail| - 2;
            Page(chip, tail)[n := lo][n + 1 := hi] == Page(chip, tail[..n] + [lo, hi])
  {
  }

  /** The image but for its last word, which starts anew with `lo` and `hi`. */
  function Renewed(img: seq<byte>, more: seq<byte>): (r: seq<byte>)
    requires |img| >= 2
    ensures |r| == |img| - 2 + |more|
  {
    img[..|img| - 2] + more
  }

  /** The page of the image's last word is open, so that the word is still in the buffer. */
  ghost predicate LastWordOpen(chip: Chip, o: Origin, img: seq<byte>)
    requires chip.Valid()
  {
    |img| >= 2 && Rem(o.offset + |img|, chip.pageSize) != 0
  }

  lemma {:induction false} PartialAgain(chip: Chip, f: Flash, mem0: seq<byte>, start: nat, data: seq<byte>, lo: byte,
                                        hi: byte)
    requires chip.Valid() && Partial(chip, f, mem0, start, data) && Rem(|data|, chip.pageSize) != 0
    ensures |data| >= 2
    ensures Partial(chip, Apply(chip, f, Fill(start + |data| - 2, LE16(lo, hi))), mem0, start,
                    data[..|data| - 2] + [lo, hi])
  {
    hide Apply, Rem, Open;
    var n, t := |data|, Rem(|data|, chip.pageSize);
    RemEven(n, chip.pageSize);
    var done, tail, again := data[..n - t], data[n - t..], data[..n - 2] + [lo, hi];
    FillAgain(chip, f, mem0, start, done, tail, lo, hi);
    assert again[..n - t] == done && again[n - t..] == tail[..t - 2] + [lo, hi];
  }

  lemma {:induction false} ReloadWord(chip: Chip, m: Machine, o: Origin, img: seq<byte>, lo: byte, hi: byte)
    requires chip.Valid() && Loaded(chip, m, o, img) && LastWordOpen(chip, o, img)
    requires m.p.currAddr == o.Address() + |img| - 2 < chip.bootStart
    ensures var (q, ops) := DataWord(chip, m.p, LE16(lo, hi));
            && Loaded(chip, Machine(q, Run(chip, m.f, ops)), o, Renewed(img, [lo, hi]))
            && q == m.p.(currAddr := o.Address() + |img|)
  {
    hide Apply, Run, Rem, Partial, Overwrite, Blank, DataWord, PageBase, Flush, AddressSpace, LE16;
    var a, w, data := o.Address() + |img|, LE16(lo, hi), o.Shifted(img);
    RemEven(chip.bootStart, chip.pageSize);
    RemEven(o.page, chip.pageSize);
    BelowSpace(chip, a);
    DataWordSplits(chip, m.p, w);
    SamePage(chip, m.p.(currAddr := a), o, img);
    PartialAgain(chip, m.f, o.mem0, o.page, data, lo, hi);
    assert data[..|data| - 2] + [lo, hi] == o.Shifted(Renewed(img, [lo, hi]));
    assert [] + [Fill(a - 2, w)] + [] == [Fill(a - 2, w)];
    RunTwo(chip, m.f, Fill(a - 2, w), Fill(a - 2, w));
  }

  lemma {:induction false} SamePage(chip: Chip, p: Parser, o: Origin, img: seq<byte>)
    requires chip.Valid() && o.Valid(chip) && p.currAddr == o.Address() + |img| <= chip.bootStart
    requires p.pageStart == o.page + PageBase(chip, o.offset + |img|)
    ensures chip.pageSize <= AddressSpace(chip) && Flush(chip, p) == (p, [])
  {
    hide And, Rem, AddressSpace;
    BelowSpace(chip, p.currAddr);
    PageOfAddress(chip, p.currAddr);
    RemSum(o.page, o.offset + |img|, chip.pageSize);
  }

  /** The parser is about to read `rem` data bytes at the address of the image's last word. */
  ghost predicate InDataBack(chip: Chip, m: Machine, o: Origin, img: seq<byte>, rem: nat)
    requires chip.Valid()
  {
    && Ready(chip, m, o, img) && LastWordOpen(chip, o, img) && rem > 0
    && m.p.state == ReadData && m.p.recordType == TYPE_DATA && !m.p.readMSB
    && m.p.dataRem == rem && m.p.currAddr == o.Address() + |img| - 2
  }

  lemma {:induction false} ReloadOdd(chip: Chip, m: Machine, o: Origin, img: seq<byte>, rem: nat, b: byte)
    requires chip.Valid() && InDataBack(chip, m, o, img, rem) && rem % 2 == 1
    requires o.Address() + |img| <= chip.bootStart
    ensures var r := Print(chip, m, HexByte(b));
            && InData(chip, r, o, Renewed(img, [Stale(o, img), b]), rem - 1)
            && r.p.checksum == (m.p.checksum + b) % 256
  {
    hide Apply, Loaded, Rem, DataWord, ByteDone, Print, HexByte, LE16;
    LoadedSame(chip, m, m.p, o, img);
    PrintByte(chip, m, b);
    HighByte(chip, m.p, b);
    var p1 := m.p.(data := b, dataRem := rem - 1, checksum := (m.p.checksum + b) % 256);
    LoadedSame(chip, m, p1, o, img);
    ReloadWord(chip, m.(p := p1), o, img, Stale(o, img), b);
    var (q, ops) := DataWord(chip, p1, LE16(m.p.prevData, b));
    LoadedSame(chip, Machine(q, Run(chip, m.f, ops)), q.(state := if rem == 1 then Checksum else ReadData), o,
               Renewed(img, [Stale(o, img), b]));
  }

  lemma {:induction false} ReloadPair(chip: Chip, m: Machine, o: Origin, img: seq<byte>, rem: nat, lo: byte, hi: byte)
    requires chip.Valid() && InDataBack(chip, m, o, img, rem) && rem % 2 == 0
    requires o.Address() + |img| <= chip.bootStart
    ensures var r := Print(chip, m, HexByte(lo) + HexByte(hi));
            && InData(chip, r, o, Renewed(img, [lo, hi]), rem - 2)
            && r.p.checksum == (m.p.checksum + lo + hi) % 256
  {
    hide Apply, Loaded, Rem, DataWord, ByteDone, Print, HexByte, Plus, LE16;
    PlusTwo(m.p.checksum, lo, hi);
    LoadedSame(chip, m, m.p, o, img);
    PrintConcat(chip, m, HexByte(lo), HexByte(hi));
    PrintByte(chip, m, lo);
    LowByte(chip, m.p, lo);
    RunNothing(chip, m.f);
    var p1 := m.p.(data := lo, prevData := lo, dataRem := rem - 1, checksum := Plus(m.p.checksum, lo));
    var m1 := m.(p := p1);
    assert Print(chip, m, HexByte(lo)) == m1;
    PrintByte(chip, m1, hi);
    HighByte(chip, p1, hi);
    var p2 := p1.(data := hi, dataRem := rem - 2, checksum := Plus(p1.checksum, hi));
    LoadedSame(chip, m, p2, o, img);
    ReloadWord(chip, m.(p := p2), o, img, lo, hi);
    var (q, ops) := DataWord(chip, p2, LE16(lo, hi));
    LoadedSame(chip, Machine(q, Run(chip, m.f, ops)), q.(state := if rem == 2 then Checksum else ReadData), o,
               Renewed(img, [lo, hi]));
  }

  lemma {:induction false} ReloadData(chip: Chip, m: Machine, o: Origin, img: seq<byte>, d: seq<byte>)
    requires chip.Valid() && InDataBack(chip, m, o, img, |d|) && m.f.Fits(chip)
    requires o.Address() + |img| - 2 + |Effective(o, img, d)| <= chip.bootStart
    ensures var r := Print(chip, m, HexBytes(d));
            && InData(chip, r, o, Renewed(img, Effective(o, img, d)), 0)
            && r.p.checksum == (m.p.checksum + Sum(d)) % 256
  {
    hide InData, InDataBack, Print, HexByte, HexBytes, Sum, Stale, Renewed;
    BackFits(chip, m, o, img, |d|);
    if |d| % 2 == 0 {
      var lo, hi, rest := d[0], d[1], d[2..];
      assert d == [lo, hi] + rest;
      PairFirst(lo, hi, rest);
      ReloadPair(chip, m, o, img, |d|, lo, hi);
      ReloadRest(chip, m, o, img, HexByte(lo) + HexByte(hi), [lo, hi], rest, lo as int + hi as int);
    } else {
      var st, b, rest := Stale(o, img), d[0], d[1..];
      ReloadOdd(chip, m, o, img, |d|, b);
      OddFirst([], st, d);
      ReloadRest(chip, m, o, img, HexByte(b), [st, b], rest, b as int);
      assert [st, b] + rest == [st] + d;
    }
  }

  /** The words after the first one. */
  lemma {:induction false} ReloadRest(chip: Chip, m: Machine, o: Origin, img: seq<byte>, text: string, w: seq<byte>,
                                      rest: seq<byte>, sum: nat)
    requires chip.Valid() && m.f.Fits(chip) && |img| >= 2 && |w| == 2 && |rest| % 2 == 0
    requires InData(chip, Print(chip, m, text), o, Renewed(img, w), |rest|)
    requires Print(chip, m, text).p.checksum as int == (m.p.checksum as int + sum) % 256
    requires o.Address() + |img| + |rest| <= chip.bootStart
    ensures var r := Print(chip, m, text + HexBytes(rest));
            && InData(chip, r, o, Renewed(img, w + rest), 0)
            && r.p.checksum as int == (m.p.checksum as int + sum + Sum(rest)) % 256
  {
    hide InData, Print, HexBytes, Sum;
    PrintConcat(chip, m, text, HexBytes(rest));
    PrintData(chip, Print(chip, m, text), o, Renewed(img, w), rest);
    ModSum(m.p.checksum as int + sum, Sum(rest));
    assert Renewed(img, w) + rest == Renewed(img, w + rest);
  }

  lemma {:induction false} BackFits(chip: Chip, m: Machine, o: Origin, img: seq<byte>, rem: nat)
    requires chip.Valid() && InDataBack(chip, m, o, img, rem)
    ensures |img| >= 2 && rem > 0 && m.f.Fits(chip) && m.p.checksum % 256 == m.p.checksum
  {
  }

  // -- Records of any length ------------------------------------------------------------------------------------

  lemma {:induction false} ReadySkewed(chip: Chip, m: Machine, o: Origin, img: seq<byte>)
    requires chip.Valid() && Ready(chip, m, o, img)
    ensures Ready(chip, SkewedMachine(m), o, img)
  {
    hide Loaded;
    LoadedSame(chip, m, Skewed(m.p), o, img);
  }

  /** Start code, count, address and type of a data record. */
  function HeaderOf(count: byte, addr: nat): (s: string)
    requires addr < 65536
  {
    ":" + HexBytes([count, addr / 256, addr % 256, TYPE_DATA])
  }

  function HeaderSum(count: byte, addr: nat): (n: nat)
    requires addr < 65536
  {
    count + addr / 256 + addr % 256 + TYPE_DATA
  }

  /**
   The header of a record at the odd address behind `at`, which is the end of the image or its last word. It leaves the
   parser where a record at `at` would, but for one address.
   */
  lemma {:induction false} OddHeader(chip: Chip, m: Machine, o: Origin, img: seq<byte>, at: nat, d: seq<byte>)
    requires chip.Valid() && Ready(chip, m, o, img) && 0 < |d| < 256 && o.Address() + at + 1 < 65536
    requires at == |img| || (at + 2 == |img| && LastWordOpen(chip, o, img))
    ensures m.f.Fits(chip)
    ensures var addr := o.Address() + at + 1;
            var m0 := Print(chip, m, HeaderOf(|d|, addr));
            var m1 := m0.(p := m0.p.(currAddr := o.Address() + at));
            && m0 == SkewedMachine(m1) && m1.f == m.f && m1.p.currAddr == o.Address() + at
            && (if at == |img| then InData(chip, m1, o, img, |d|) else InDataBack(chip, m1, o, img, |d|))
            && m1.p.checksum as int == HeaderSum(|d|, addr) % 256
            && m1.p.state == ReadData && m1.p.recordType == TYPE_DATA && !m1.p.readMSB && m1.p.dataRem as int == |d|
  {
    hide Partial, HexBytes, Print, Rem, PageBase, Blank;
    PrintHeader(chip, m, |d|, o.Address() + at + 1, TYPE_DATA);
  }

  /** A record at such an odd address is loaded as if it stood at the even address below. */
  lemma {:induction false} OddAddressRecord(chip: Chip, m: Machine, o: Origin, img: seq<byte>, at: nat, d: seq<byte>)
    requires chip.Valid() && Ready(chip, m, o, img) && 0 < |d| < 256 && o.Address() + at + 1 < 65536
    requires at == |img| || (at + 2 == |img| && LastWordOpen(chip, o, img))
    requires o.Address() + at + |Effective(o, img, d)| <= chip.bootStart && o.Address() % 2 == 0 && |img| % 2 == 0
    ensures m.f.Fits(chip)
    ensures var r := Print(chip, m, RecordText(o.Address() + at + 1, TYPE_DATA, d));
            Ready(chip, r, o, img[..at] + Effective(o, img, d)) && r.p.state == Checksum && !r.p.readMSB
  {
    hide Apply, InData, InDataBack, Ready, HexByte, HexBytes, Print, Sum, RecordText, RecordBody, ChecksumOf, Stale;
    hide LastWordOpen, Skewed, HeaderOf, HeaderSum, Effective;
    var addr := o.Address() + at + 1;
    var body := RecordBody(addr, TYPE_DATA, d);
    var ck := ChecksumOf(body);
    var t0, t1, t2 := HeaderOf(|d|, addr), HexBytes(d), HexByte(ck);
    OddHeader(chip, m, o, img, at, d);
    DataParts(addr, d);
    PrintConcat(chip, m, t0 + t1, t2);
    PrintConcat(chip, m, t0, t1);
    var m0 := Print(chip, m, t0);
    var m1 := m0.(p := m0.p.(currAddr := o.Address() + at));
    var loaded := img[..at] + Effective(o, img, d);
    if at == |img| {
      assert img[..at] == img;
      PrintAnyData(chip, m1, o, img, d);
    } else {
      ReloadData(chip, m1, o, img, d);
    }
    SkewData(chip, m1, d);
    var m2 := Print(chip, m1, t1);
    OddEnd(chip, m2, o, loaded, ck, Sum(body), HeaderSum(|d|, addr), Sum(d));
  }

  lemma {:induction false} DataParts(addr: nat, d: seq<byte>)
    requires |d| < 256 && addr < 65536
    ensures var ck := ChecksumOf(RecordBody(addr, TYPE_DATA, d));
            && RecordText(addr, TYPE_DATA, d) == HeaderOf(|d|, addr) + HexBytes(d) + HexByte(ck)
            && Sum(RecordBody(addr, TYPE_DATA, d)) == HeaderSum(|d|, addr) + Sum(d)
            && (Sum(RecordBody(addr, TYPE_DATA, d)) + ck) % 256 == 0
  {
    hide HexByte, HexBytes, Sum, ChecksumOf, RecordText;
    RecordParts(addr, TYPE_DATA, d);
  }

  lemma {:induction false} OddEnd(chip: Chip, m: Machine, o: Origin, img: seq<byte>, ck: byte, sum: nat, head: nat,
                                  more: nat)
    requires chip.Valid() && m.f.Fits(chip) && InData(chip, m, o, img, 0) && o.Address() + |img| <= chip.bootStart
    requires o.Address() % 2 == 0 && sum == head + more && (sum + ck) % 256 == 0
    requires m.p.checksum as int == (head % 256 + more) % 256
    ensures var r := Print(chip, SkewedMachine(m), HexByte(ck));
            Ready(chip, r, o, img) && r.p.state == Checksum && !r.p.readMSB
  {
    hide Apply, HexByte, Print, Loaded;
    ModSum(head, more);
    ModSum(sum, ck);
    EvenImage(chip, m, o, img);
    SkewChecksum(chip, m, ck);
    PrintChecksum(chip, m, o, img, ck, sum);
    ReadySkewed(chip, Print(chip, m, HexByte(ck)), o, img);
  }

  lemma {:induction false} EvenImage(chip: Chip, m: Machine, o: Origin, img: seq<byte>)
    requires chip.Valid() && Loaded(chip, m, o, img)
    ensures |img| % 2 == 0
  {
  }

  /** Where the words of a record go that is announced for address n of an image at 0. */
  function WordAddress(n: nat): (a: nat) {
    n - n % 2
  }

  /**
   What records for consecutive addresses from 0 load, the next one being announced for address n: each lays its words
   over the image from the even address on.
   */
  function Merged(img: seq<byte>, n: nat, chunks: seq<seq<byte>>): (r: seq<byte>)
    requires WordAddress(n) <= |img|
    decreases |chunks|
  {
    if chunks == [] then img else
      var c := chunks[0];
      Merged(img[..WordAddress(n)] + Dragged(img, c), n + |c|, chunks[1..])
  }

  /** The words of a record: a record of odd length drags in the low byte of the word before it. */
  function Dragged(img: seq<byte>, d: seq<byte>): (r: seq<byte>)
    ensures |r| == |d| + |d| % 2
  {
    if |d| % 2 == 0 then d else [LastLow(img)] + d
  }

  /** An odd record that goes on with another does not end in the last word of a page. */
  ghost predicate Apart(chip: Chip, n: nat, chunks: seq<seq<byte>>)
    requires chip.Valid()
    decreases |chunks|
  {
    chunks != [] ==>
      var c := chunks[0];
      && (|chunks| > 1 && n % 2 == 0 && |c| % 2 == 1 ==> Rem(n + |c| + 1, chip.pageSize) != 0)
      && Apart(chip, n + |c|, chunks[1..])
  }

  /** The image is at address n, or a word ahead of an odd n. */
  ghost predicate Reached(chip: Chip, img: seq<byte>, n: nat, more: bool)
    requires chip.Valid()
  {
    && |img| % 2 == 0
    && (|img| == WordAddress(n)
        || (n % 2 == 1 && |img| == n + 1 && (more ==> Rem(|img|, chip.pageSize) != 0)))
  }

  lemma {:induction false} ReachedBelow(chip: Chip, img: seq<byte>, n: nat, more: bool)
    requires chip.Valid() && Reached(chip, img, n, more)
    ensures WordAddress(n) <= |img|
  {
  }

  lemma {:induction false} ReachedNext(chip: Chip, img: seq<byte>, n: nat, chunks: seq<seq<byte>>)
    requires chip.Valid() && Reached(chip, img, n, true) && chunks != [] && Apart(chip, n, chunks)
    ensures var c := chunks[0];
            WordAddress(n) <= |img|
            && Reached(chip, img[..WordAddress(n)] + Dragged(img, c), n + |c|, chunks[1..] != [])
  {
    hide Rem;
  }

  lemma {:induction false} DraggedIs(f0: Flash, img: seq<byte>, d: seq<byte>)
    ensures Dragged(img, d) == Effective(FromReset(f0, 0), img, d)
  {
  }

  lemma {:induction false} AnyRecord(chip: Chip, m: Machine, f0: Flash, img: seq<byte>, n: nat, d: seq<byte>)
    requires chip.Valid() && Ready(chip, m, FromReset(f0, 0), img) && Reached(chip, img, n, true)
    requires 0 < |d| < 256 && n + |d| <= chip.bootStart && n + |d| <= 65536
    ensures m.f.Fits(chip) && WordAddress(n) <= |img|
    ensures var r := Print(chip, m, RecordText(n, TYPE_DATA, d));
            Ready(chip, r, FromReset(f0, 0), img[..WordAddress(n)] + Dragged(img, d))
            && r.p.state == Checksum && !r.p.readMSB
  {
    hide Ready, Print, RecordText, Rem, Dragged, Effective;
    var o, at := FromReset(f0, 0), WordAddress(n);
    RemEven(chip.bootStart, chip.pageSize);
    ReadyFits(chip, m, o, img);
    DraggedIs(f0, img, d);
    if n % 2 == 0 {
      assert img[..at] == img;
      PrintRecord(chip, m, o, img, d);
    } else {
      OddAddressRecord(chip, m, o, img, at, d);
    }
  }

  lemma {:induction false} AnyLines(chip: Chip, m: Machine, f0: Flash, img: seq<byte>, n: nat, chunks: seq<seq<byte>>,
                                    eol: string)
    requires chip.Valid() && Ready(chip, m, FromReset(f0, 0), img) && Reached(chip, img, n, chunks != [])
    requires (forall c <- chunks :: 0 < |c| < 256) && Ignorable(eol) && Apart(chip, n, chunks)
    requires n + |Concat(chunks)| <= chip.bootStart && n + |Concat(chunks)| <= 65536
    ensures m.f.Fits(chip) && WordAddress(n) <= |img|
    ensures Ready(chip, Print(chip, m, DataLines(n, chunks, eol)), FromReset(f0, 0), Merged(img, n, chunks))
    decreases |chunks|
  {
    hide Ready, Print, RecordText, Rem, Dragged, Reached;
    var o := FromReset(f0, 0);
    ReachedBelow(chip, img, n, chunks != []);
    ReadyFits(chip, m, o, img);
    PrintNothing(chip, m);
    if chunks != [] {
      var d, rest := chunks[0], chunks[1..];
      assert d in chunks && forall c <- rest :: c in chunks;
      var t0, t1 := RecordText(n, TYPE_DATA, d), DataLines(n + |d|, rest, eol);
      PrintConcat(chip, m, t0 + eol, t1);
      PrintConcat(chip, m, t0, eol);
      AnyRecord(chip, m, f0, img, n, d);
      var m1 := Print(chip, m, t0);
      PrintIgnorable(chip, m1, eol);
      ReachedNext(chip, img, n, chunks);
      AnyLines(chip, m1, f0, img[..WordAddress(n)] + Dragged(img, d), n + |d|, rest, eol);
    }
  }

  /**
   Printing a file of records of any length for consecutive addresses from 0 leaves the merged records in flash, if no
   odd record that goes on with another ends in the last word of a page.
   */
  lemma {:induction false} PrintedRecords(chip: Chip, f0: Flash, chunks: seq<seq<byte>>, eol: string)
    requires chip.Valid() && f0.Fits(chip) && (forall c <- chunks :: 0 < |c| < 256) && Ignorable(eol)
    requires |Concat(chunks)| <= chip.bootStart && |Concat(chunks)| <= 65536 && Apart(chip, 0, chunks)
    ensures var img := Merged([], 0, chunks);
            var r := Printed(chip, f0, HexFile(chunks, eol));
            && !r.p.running
            && |img| + Padding(chip, |img|) <= chip.bootStart
            && r.f.mem == (if |img| == 0 || |img| >= chip.pageSize
                           then Overwrite(f0.mem, 0, Padded(chip, img))
                           else Overwrite(f0.mem, 0, Blank(chip.pageSize)))
  {
    hide Ready, Print, RecordText, Merged, Apart;
    var m, img, o := Machine(INITIAL, f0), Merged([], 0, chunks), FromReset(f0, 0);
    InitiallyReady(chip, f0, 0);
    AnyLines(chip, m, f0, [], 0, chunks, eol);
    PrintConcat(chip, m, DataLines(0, chunks, eol), RecordText(0, TYPE_EOF, []));
    PrintEnd(chip, Print(chip, m, DataLines(0, chunks, eol)), o, img);
    assert o.Shifted(img) == img;
    if img == [] {
      NothingLoaded(chip, f0.mem);
    }
  }

  /** Records of even length follow one another, at even addresses and at odd ones. */
  lemma {:induction false} MergedEven(img: seq<byte>, n: nat, chunks: seq<seq<byte>>, more: seq<seq<byte>>)
    requires |img| == WordAddress(n) && EvenRecords(chunks)
    ensures WordAddress(n + |Concat(chunks)|) == |img + Concat(chunks)|
    ensures Merged(img, n, chunks + more) == Merged(img + Concat(chunks), n + |Concat(chunks)|, more)
    decreases |chunks|
  {
    hide Merged, Dragged, WordAddress;
    if chunks == [] {
      assert chunks + more == more && img + Concat(chunks) == img;
    } else {
      var c, rest := chunks[0], chunks[1..];
      assert c in chunks && forall x <- rest :: x in chunks;
      assert chunks + more == [c] + (rest + more);
      MergedNext(img, n, c, rest + more);
      MergedEven(img + c, n + |c|, rest, more);
      assert img + Concat(chunks) == (img + c) + Concat(rest);
    }
  }

  lemma {:induction false} MergedNext(img: seq<byte>, n: nat, c: seq<byte>, more: seq<seq<byte>>)
    requires |img| == WordAddress(n) && |c| % 2 == 0
    ensures WordAddress(n + |c|) == |img + c|
    ensures Merged(img, n, [c] + more) == Merged(img + c, n + |c|, more)
  {
    assert img[..WordAddress(n)] == img && ([c] + more)[1..] == more;
    assert Dragged(img, c) == c;
  }

  /** The two bytes of an odd record's last word go to the record after it, and with it everything moves down by one. */
  lemma {:induction false} MergedOdd(chunks: seq<seq<byte>>, d: seq<byte>, next: seq<byte>, rest: seq<seq<byte>>)
    requires EvenRecords(chunks) && |d| % 2 == 1 && EvenRecords([next] + rest)
    ensures var img := Concat(chunks);
            Merged([], 0, chunks + [d, next] + rest) ==
            img + ([LastLow(img)] + d)[..|d| - 1] + (next + Concat(rest))
  {
    hide Merged, LastLow, Concat;
    var img := Concat(chunks);
    var head := img + ([LastLow(img)] + d)[..|d| - 1];
    assert next in [next] + rest && forall c <- rest :: c in [next] + rest;
    MergedEven([], 0, chunks, [d, next] + rest);
    assert [] + img == img && chunks + [d, next] + rest == chunks + ([d, next] + rest);
    MergedTwo(img, d, next, rest);
    MergedTail(head + next, |img| + |d| + |next|, rest);
    assert head + next + Concat(rest) == head + (next + Concat(rest));
  }

  lemma {:induction false} MergedTail(img: seq<byte>, n: nat, chunks: seq<seq<byte>>)
    requires |img| == WordAddress(n) && EvenRecords(chunks)
    ensures Merged(img, n, chunks) == img + Concat(chunks)
  {
    hide Merged, Concat;
    MergedEven(img, n, chunks, []);
    assert chunks + [] == chunks;
    MergedDone(img + Concat(chunks), n + |Concat(chunks)|);
  }

  lemma {:induction false} MergedDone(img: seq<byte>, n: nat)
    requires WordAddress(n) <= |img|
    ensures Merged(img, n, []) == img
  {
  }

  lemma {:induction false} MergedTwo(img: seq<byte>, d: seq<byte>, next: seq<byte>, rest: seq<seq<byte>>)
    requires |img| % 2 == 0 && |d| % 2 == 1 && |next| % 2 == 0
    ensures var x := img + ([LastLow(img)] + d)[..|d| - 1] + next;
            && |x| == WordAddress(|img| + |d| + |next|)
            && Merged(img, |img|, [d, next] + rest) == Merged(x, |img| + |d| + |next|, rest)
  {
    hide LastLow;
    var all, n := [d, next] + rest, |img|;
    var y := img + ([LastLow(img)] + d);
    assert img[..n] == img && all[0] == d && all[1..][0] == next && all[1..][1..] == rest;
    assert Merged(img, n, all) == Merged(y, n + |d|, all[1..]);
    assert y[..n + |d| - 1] == img + ([LastLow(img)] + d)[..|d| - 1];
  }

  lemma {:induction false} ApartOdd(chip: Chip, n: nat, chunks: seq<seq<byte>>, d: seq<byte>, more: seq<seq<byte>>)
    requires chip.Valid() && n % 2 == 0 && EvenRecords(chunks) && |d| % 2 == 1 && EvenRecords(more)
    requires Rem(n + |Concat(chunks)| + |d| + 1, chip.pageSize) != 0
    ensures Apart(chip, n, chunks + ([d] + more))
    decreases |chunks|
  {
    hide Rem, Apart;
    if chunks == [] {
      assert chunks + ([d] + more) == [d] + more;
      ApartEven(chip, n + |d|, more);
      ApartFirst(chip, n, d, more);
    } else {
      var c, rest := chunks[0], chunks[1..];
      assert c in chunks && forall x <- rest :: x in chunks;
      assert chunks + ([d] + more) == [c] + (rest + ([d] + more));
      ApartOdd(chip, n + |c|, rest, d, more);
      ApartFirst(chip, n, c, rest + ([d] + more));
    }
  }

  lemma {:induction false} ApartFirst(chip: Chip, n: nat, c: seq<byte>, more: seq<seq<byte>>)
    requires chip.Valid() && Apart(chip, n + |c|, more)
    requires more != [] && n % 2 == 0 && |c| % 2 == 1 ==> Rem(n + |c| + 1, chip.pageSize) != 0
    ensures Apart(chip, n, [c] + more)
  {
    hide Rem;
    assert ([c] + more)[1..] == more;
  }

  lemma {:induction false} ApartEven(chip: Chip, n: nat, chunks: seq<seq<byte>>)
    requires chip.Valid() && EvenRecords(chunks)
    ensures Apart(chip, n, chunks)
    decreases |chunks|
  {
    hide Rem;
    if chunks != [] {
      assert chunks[0] in chunks && forall x <- chunks[1..] :: x in chunks;
      ApartEven(chip, n + |chunks[0]|, chunks[1..]);
    }
  }

  /**
   A record of odd length between records of even length, not ending a page: it is loaded behind a stale byte, loses
   its last two bytes, and all records after it are loaded one address too low.
   */
  lemma {:induction false} PrintedOddInside(chip: Chip, f0: Flash, chunks: seq<seq<byte>>, d: seq<byte>,
                                            next: seq<byte>, rest: seq<seq<byte>>, eol: string)
    requires chip.Valid() && f0.Fits(chip) && EvenRecords(chunks) && Ignorable(eol) && EvenRecords([next] + rest)
    requires |d| < 256 && |d| % 2 == 1 && Rem(|Concat(chunks)| + |d| + 1, chip.pageSize) != 0
    requires var all := chunks + [d, next] + rest;
             |Concat(all)| <= chip.bootStart && |Concat(all)| <= 65536
    ensures forall c <- chunks + [d, next] + rest :: 0 < |c| < 256
    ensures var img := Concat(chunks);
            var loaded := img + ([LastLow(img)] + d)[..|d| - 1] + (next + Concat(rest));
            && |loaded| + Padding(chip, |loaded|) <= chip.bootStart
            && Printed(chip, f0, HexFile(chunks + [d, next] + rest, eol)).f.mem ==
               (if |loaded| >= chip.pageSize
                then Overwrite(f0.mem, 0, Padded(chip, loaded))
                else Overwrite(f0.mem, 0, Blank(chip.pageSize)))
  {
    hide Printed, HexFile, Merged, Apart, Rem, LastLow, Padded, Padding, Overwrite, Blank;
    var all := chunks + [d, next] + rest;
    assert next in [next] + rest && forall c <- rest :: c in [next] + rest;
    assert all == chunks + ([d] + ([next] + rest));
    ApartOdd(chip, 0, chunks, d, [next] + rest);
    MergedOdd(chunks, d, next, rest);
    PrintedRecords(chip, f0, all, eol);
  }

  /**
   Where the condition fails, the first word of the next record misses its page: that page has been committed, and the
   word is filled into the last word of the page after it.
   */
  lemma {:induction false} WordMissesPage(chip: Chip, m: Machine, f0: Flash, img: seq<byte>, w: word)
    requires chip.Valid() && Loaded(chip, m, FromReset(f0, 0), img) && |img| >= 2 && |img| < chip.bootStart
    requires Rem(|img|, chip.pageSize) == 0 && m.p.currAddr == |img| - 1
    ensures DataWord(chip, m.p, w) ==
            (m.p.(pageDirty := true, currAddr := |img| + 1), [Erase(|img|), Fill(|img| - 1, w)])
    ensures |img| + chip.pageSize <= chip.flashSize
    ensures var f1 := Run(chip, m.f, DataWord(chip, m.p, w).1);
            && f1.mem == Overwrite(m.f.mem, |img|, Blank(chip.pageSize))
            && f1.buf == Blank(chip.pageSize)[chip.pageSize - 2 := w % 256][chip.pageSize - 1 := w / 256]
  {
    hide Apply, Run, Rem, Overwrite, Blank, AddressSpace, Flush, DataWord, Partial;
    var p, n := chip.pageSize, |img|;
    RemGap(n, chip.bootStart, p);
    RemEven(chip.bootStart, p);
    BelowSpace(chip, n + 1);
    DataWordSplits(chip, m.p, w);
    assert FromReset(f0, 0).Shifted(img) == img;
    SkewFlush(chip, m.p.(pageDirty := true, currAddr := n));
    SamePage(chip, m.p.(pageDirty := true, currAddr := n), FromReset(f0, 0), img);
    assert Opening(m.p) == [Erase(n)];
    assert [Erase(n)] + [Fill(n - 1, w)] + [] == [Erase(n), Fill(n - 1, w)];
    RunTwo(chip, m.f, Erase(n), Fill(n - 1, w));
    EraseIs(chip, m.f, n);
    LastSlot(chip, Apply(chip, m.f, Erase(n)), n, w);
  }

  lemma {:induction false} LastSlot(chip: Chip, f: Flash, n: nat, w: word)
    requires chip.Valid() && f.Fits(chip) && n > 0 && Rem(n, chip.pageSize) == 0
    ensures Apply(chip, f, Fill(n - 1, w)) ==
            f.(buf := f.buf[chip.pageSize - 2 := w % 256][chip.pageSize - 1 := w / 256])
  {
    var p := chip.pageSize;
    RemSmall(0, p);
    RemGap(0, n, p);
    RemSum(n - p, p - 1, p);
    RemSmall(p - 1, p);
  }
}
