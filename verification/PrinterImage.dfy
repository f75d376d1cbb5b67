/** What printing a whole HEX file leaves in flash. */
module PrinterImage {
  import opened Bits
  import opened FlashMachine
  import opened HexText
  import opened Printer

  lemma {:induction false} PageOfAddress(chip: Chip, a: nat)
    requires chip.Valid() && a < AddressSpace(chip)
    ensures And(a, AddressSpace(chip) - chip.pageSize) == PageBase(chip, a)
  {
    hide And, Rem;
    var k: nat :| chip.pageSize == Pow2(k);
    assert Pow2(10) == 1024;
    if k > 9 {
      Pow2Mono(10, k);
    }
    var w := if chip.Far() then 32 else 16;
    assert Pow2(16) == 0x1_0000;
    assert Pow2(24) == 0x100_0000;
    assert Pow2(32) == 0x1_0000_0000;
    AndNotMask(a, k, w, chip.pageSize, AddressSpace(chip));
  }

  /** A record byte in two digits makes the parser process exactly that byte. */
  lemma {:induction false} PrintByte(chip: Chip, m: Machine, b: byte)
    requires chip.Valid() && m.f.Fits(chip) && !m.p.state.WaitLine? && !m.p.readMSB
    ensures var (q, ops) := ByteDone(chip, m.p.(data := b));
            Print(chip, m, HexByte(b)) == Machine(q, Run(chip, m.f, ops))
  {
    hide Apply, ByteDone;
    var s := HexByte(b);
    assert HexToDecimal(s[0]) == b / 16 && HexToDecimal(s[1]) == b % 16;
    var m1 := Advance(chip, m, s[0]);
    assert m1 == m.(p := m.p.(data := m.p.data * 16 % 256 + b / 16, readMSB := true));
    NibblePair(m.p.data, b / 16, b % 16);
    assert m1.p.(data := b, readMSB := false) == m.p.(data := b);
    assert s[1..] == [s[1]];
    assert Print(chip, m1, [s[1]]) == Advance(chip, m1, s[1]);
  }

  /**
   Where an image is loaded: the memory before, the page it starts in, its offset in that page, and the byte that an
   odd record would drag in first.
   */
  datatype Origin = Origin(mem0: seq<byte>, page: nat, offset: nat, stale: byte) {
    ghost predicate Valid(chip: Chip)
      requires chip.Valid()
    {
      && |mem0| == chip.flashSize && Rem(page, chip.pageSize) == 0
      && offset % 2 == 0 && offset < chip.pageSize && page <= chip.bootStart
    }

    function Address(): nat {
      page + offset
    }

    /** The image from the start of its page on. */
    function Shifted(img: seq<byte>): (r: seq<byte>)
      ensures |r| == offset + |img|
    {
      Blank(offset) + img
    }
  }

  /** The memory the device has at reset, for an image that starts in page 0. */
  function FromReset(f0: Flash, offset: nat): (o: Origin) {
    Origin(f0.mem, 0, offset, 0)
  }

  /**
   The image `img` has been received: its whole pages are in flash, and what is left over waits in the buffer over an
   erased page. Before the first word nothing has been touched.
   */
  ghost predicate Loaded(chip: Chip, m: Machine, o: Origin, img: seq<byte>)
    requires chip.Valid()
  {
    var n := |o.Shifted(img)|;
    && m.f.Fits(chip) && o.Valid(chip) && m.p.baseAddr == 0 && m.p.running && |img| % 2 == 0
    && if img == [] then m.f.mem == o.mem0 && m.p.pageStart == o.page && !m.p.pageDirty
       else
         && Partial(chip, m.f, o.mem0, o.page, o.Shifted(img))
         && m.p.pageStart == o.page + PageBase(chip, n)
         && (m.p.pageDirty <==> Rem(n, chip.pageSize) != 0)
  }

  /** PrevData as the words of `img` leave it: the low byte of the last one. */
  function Stale(o: Origin, img: seq<byte>): (b: byte) {
    if |img| < 2 then o.stale else img[|img| - 2]
  }

  ghost predicate Ready(chip: Chip, m: Machine, o: Origin, img: seq<byte>)
    requires chip.Valid()
  {
    Loaded(chip, m, o, img) && m.p.prevData == Stale(o, img)
  }

  /** One more word of the image, whether or not it opens or completes a page. */
  lemma {:induction false} LoadWord(chip: Chip, m: Machine, o: Origin, img: seq<byte>, lo: byte, hi: byte)
    requires chip.Valid() && Loaded(chip, m, o, img)
    requires m.p.currAddr == o.Address() + |img| < chip.bootStart
    ensures var (q, ops) := DataWord(chip, m.p, LE16(lo, hi));
            && Loaded(chip, Machine(q, Run(chip, m.f, ops)), o, img + [lo, hi])
            && q == m.p.(pageStart := q.pageStart, pageDirty := q.pageDirty, currAddr := o.Address() + |img| + 2)
  {
    hide Apply, Open, Run, Rem, ProgramWord, Partial, Overwrite, Blank, DataWord, PageBase;
    var p, a, w, n := chip.pageSize, o.Address() + |img|, LE16(lo, hi), o.offset + |img|;
    var t := Rem(n, p);
    var (q, ops) := DataWord(chip, m.p, w);
    assert o.Shifted(img + [lo, hi]) == o.Shifted(img) + [lo, hi];
    if img == [] {
      RemSmall(o.offset, p);
      FirstPageBase(chip, o.offset);
      DataWordIs(chip, m.p, o.page, n, w);
      FirstWordGrows(chip, m.f, o, lo, hi);
      RunFirstWord(chip, m.f, ops, o, w);
    } else {
      DataWordIs(chip, m.p, o.page, n, w);
      ProgramWordGrows(chip, m.f, o.mem0, o.page, o.Shifted(img), t, lo, hi);
      RunWord(chip, m.f, ops, a, t, w);
    }
  }

  lemma {:induction false} FirstPageBase(chip: Chip, offset: nat)
    requires chip.Valid() && offset < chip.pageSize
    ensures PageBase(chip, offset) == 0
  {
    RemSmall(offset, chip.pageSize);
  }

  /** The operations and the page cache after a word n bytes behind a page-aligned address. */
  lemma {:induction false} DataWordIs(chip: Chip, p: Parser, page: nat, n: nat, w: word)
    requires chip.Valid() && Rem(page, chip.pageSize) == 0 && n % 2 == 0
    requires p.currAddr == page + n < chip.bootStart && p.pageStart == page + PageBase(chip, n)
    ensures var t := Rem(n, chip.pageSize);
            && p.pageStart == p.currAddr - t
            && DataWord(chip, p, w) ==
               (p.(pageStart := page + PageBase(chip, n + 2), pageDirty := Rem(n + 2, chip.pageSize) != 0,
                   currAddr := page + n + 2),
                (if p.pageDirty then [Fill(p.currAddr, w)] else [Erase(p.pageStart), Fill(p.currAddr, w)])
                + (if t + 2 == chip.pageSize then [Write(p.pageStart)] else []))
  {
    hide And, Rem, AddressSpace;
    var m, a := chip.pageSize, page + n;
    RemNextWord(n, m);
    RemSum(page, n + 2, m);
    RemEven(chip.bootStart, m);
    RemEven(page, m);
    AddressFits(chip, a + 2);
    PageOfAddress(chip, a + 2);
  }

  /** The first word of an image, at an offset in its page. */
  function FirstWord(chip: Chip, f: Flash, o: Origin, w: word): (r: Flash)
    requires chip.Valid() && f.Fits(chip)
    ensures r.Fits(chip)
  {
    var f1 := Apply(chip, Apply(chip, f, Erase(o.page)), Fill(o.Address(), w));
    if o.offset + 2 == chip.pageSize then Apply(chip, f1, Write(o.page)) else f1
  }

  lemma {:induction false} RunFirstWord(chip: Chip, f: Flash, ops: seq<FlashOp>, o: Origin, w: word)
    requires chip.Valid() && f.Fits(chip)
    requires ops == [Erase(o.page), Fill(o.Address(),
                                         w)] + (if o.offset + 2 == chip.pageSize then [Write(o.page)] else [])
    ensures Run(chip, f, ops) == FirstWord(chip, f, o, w)
  {
    hide Apply;
    var o1 := [Erase(o.page), Fill(o.Address(), w)];
    var o2 := if o.offset + 2 == chip.pageSize then [Write(o.page)] else [];
    RunConcat(chip, f, o1, o2);
    RunTwo(chip, f, o1[0], o1[1]);
    RunTwo(chip, Run(chip, f, o1), Write(o.page), Write(o.page));
  }

  lemma {:induction false} FirstWordGrows(chip: Chip, f: Flash, o: Origin, lo: byte, hi: byte)
    requires chip.Valid() && f.Fits(chip) && o.Valid(chip) && f.mem == o.mem0 && o.page < chip.bootStart
    ensures Partial(chip, FirstWord(chip, f, o, LE16(lo, hi)), o.mem0, o.page, o.Shifted([]) + [lo, hi])
  {
    hide Apply, Overwrite, Blank, Rem, Open, Page;
    var p, gap := chip.pageSize, Blank(o.offset);
    var data := gap + [lo, hi];
    assert o.Shifted([]) + [lo, hi] == data;
    OpenFirst(chip, f, o.page);
    var f0 := Apply(chip, f, Erase(o.page));
    OpenGap(chip, f0, o.mem0, o.page, o.offset);
    OpenBounds(chip, f0, o.mem0, o.page, [], gap);
    FillOpenPage(chip, f0, o.mem0, o.page, [], gap, lo, hi);
    var f1 := Apply(chip, f0, Fill(o.Address(), LE16(lo, hi)));
    if o.offset + 2 == p {
      CommitOpenPage(chip, f1, o.mem0, o.page, [], data);
      FullPage(chip, data);
      assert [] + data == data;
      RemIsModulo(p, p);
    } else {
      RemSmall(o.offset + 2, p);
      assert data[..0] == [] && data[0..] == data;
    }
  }

  /** An erased page is one that holds erased bytes. */
  lemma {:induction false} OpenGap(chip: Chip, f: Flash, mem0: seq<byte>, page: nat, n: nat)
    requires chip.Valid() && Open(chip, f, mem0, page, [], []) && n <= chip.pageSize
    ensures Open(chip, f, mem0, page, [], Blank(n))
  {
    assert Page(chip, Blank(n)) == Page(chip, []);
  }

  lemma {:induction false} OpenBounds(chip: Chip, f: Flash, mem0: seq<byte>, page: nat, done: seq<byte>,
                                      tail: seq<byte>)
    requires chip.Valid() && Open(chip, f, mem0, page, done, tail)
    ensures page + |done| + chip.pageSize <= chip.bootStart && f.Fits(chip)
  {
  }

  lemma {:induction false} RunWord(chip: Chip, f: Flash, ops: seq<FlashOp>, a: nat, t: nat, w: word)
    requires chip.Valid() && f.Fits(chip) && t <= a
    requires ops == (if t == 0 then [Erase(a), Fill(a, w)] else [Fill(a, w)])
                    + (if t + 2 == chip.pageSize then [Write(a - t)] else [])
    ensures Run(chip, f, ops) == ProgramWord(chip, f, a, t, w)
  {
    hide Apply;
    var o1 := if t == 0 then [Erase(a), Fill(a, w)] else [Fill(a, w)];
    var o2 := if t + 2 == chip.pageSize then [Write(a - t)] else [];
    RunConcat(chip, f, o1, o2);
    RunTwo(chip, f, o1[0], Fill(a, w));
    RunTwo(chip, Run(chip, f, o1), Write(a - t), Fill(a, w));
  }

  /** The parser is `rem` bytes before the end of a data record that so far filled the image up to `img`. */
  ghost predicate InData(chip: Chip, m: Machine, o: Origin, img: seq<byte>, rem: nat)
    requires chip.Valid()
  {
    && Ready(chip, m, o, img)
    && m.p.state == (if rem == 0 then Checksum else ReadData)
    && m.p.recordType == TYPE_DATA && !m.p.readMSB
    && m.p.dataRem == rem && m.p.currAddr == o.Address() + |img|
  }

  /** The running checksum. */
  function Plus(sum: byte, b: byte): (r: byte) {
    (sum + b) % 256
  }

  lemma {:induction false} PlusFour(count: byte, hi: byte, lo: byte, kind: byte)
    ensures Plus(Plus(Plus(Plus(0, count), hi), lo), kind) == (count + hi + lo + kind) % 256
  {
    hide Plus;
    PlusMod(0, count);
    PlusMod(count, hi);
    PlusMod(count + hi, lo);
    PlusMod(count + hi + lo, kind);
  }

  lemma {:induction false} PlusMod(sum: nat, b: byte)
    ensures Plus(sum % 256, b) == (sum + b) % 256
  {
    ModSum(sum, b);
  }

  lemma {:induction false} PlusTwo(sum: byte, a: byte, b: byte)
    ensures Plus(Plus(sum, a), b) == (sum as int + a as int + b as int) % 256
  {
    PlusMod(sum as int + a as int, b);
  }

  lemma {:induction false} LowByte(chip: Chip, p: Parser, b: byte)
    requires chip.Valid() && p.state.ReadData? && p.dataRem % 2 == 0 && p.dataRem != 0 && p.currAddr < chip.bootStart
    ensures ByteDone(chip, p.(data := b)) ==
            (p.(data := b, prevData := b, dataRem := p.dataRem - 1, checksum := Plus(p.checksum, b)), [])
  {
    hide DataWord, Flush, LE16;
    assert (p.dataRem + 255) % 256 == p.dataRem - 1;
  }

  lemma {:induction false} HighByte(chip: Chip, p: Parser, b: byte)
    requires chip.Valid() && p.state.ReadData? && p.dataRem % 2 == 1 && p.currAddr < chip.bootStart
    requires p.recordType == TYPE_DATA
    ensures var p1 := p.(data := b, dataRem := p.dataRem - 1, checksum := Plus(p.checksum, b));
            var (q, ops) := DataWord(chip, p1, LE16(p.prevData, b));
            ByteDone(chip, p.(data := b)) == (q.(state := if p.dataRem == 1 then Checksum else ReadData), ops)
  {
    hide And, LE16;
    assert (p.dataRem + 255) % 256 == p.dataRem - 1;
  }

  lemma {:induction false} PrintPair(chip: Chip, m: Machine, o: Origin, img: seq<byte>, rem: nat, lo: byte, hi: byte)
    requires chip.Valid() && InData(chip, m, o, img, rem) && rem >= 2 && rem % 2 == 0
    requires o.Address() + |img| < chip.bootStart
    ensures var r := Print(chip, m, HexByte(lo) + HexByte(hi));
            && InData(chip, r, o, img + [lo, hi], rem - 2)
            && r.p.checksum == (m.p.checksum + lo + hi) % 256
  {
    hide Apply, Loaded, DataWord, ByteDone, Print, HexByte, Plus, LE16;
    PlusTwo(m.p.checksum, lo, hi);
    LoadedSame(chip, m, m.p, o, img);
    PrintConcat(chip, m, HexByte(lo), HexByte(hi));
    PrintByte(chip, m, lo);
    LowByte(chip, m.p, lo);
    var p1 := m.p.(data := lo, prevData := lo, dataRem := rem - 1, checksum := Plus(m.p.checksum, lo));
    var m1 := m.(p := p1);
    assert Print(chip, m, HexByte(lo)) == m1;
    PrintByte(chip, m1, hi);
    HighByte(chip, p1, hi);
    var p2 := p1.(data := hi, dataRem := rem - 2, checksum := Plus(p1.checksum, hi));
    LoadedSame(chip, m, p2, o, img);
    LoadWord(chip, m.(p := p2), o, img, lo, hi);
    var (q, ops) := DataWord(chip, p2, LE16(lo, hi));
    LoadedSame(chip, Machine(q, Run(chip, m.f, ops)), q.(state := if rem == 2 then Checksum else ReadData), o,
               img + [lo, hi]);
  }

  /** Loading does not depend on what the parser has read of the current record. */
  lemma {:induction false} LoadedSame(chip: Chip, m: Machine, q: Parser, o: Origin, img: seq<byte>)
    requires chip.Valid() && Loaded(chip, m, o, img)
    requires q.baseAddr == m.p.baseAddr && q.running == m.p.running
    requires q.pageStart == m.p.pageStart && q.pageDirty == m.p.pageDirty
    ensures Loaded(chip, m.(p := q), o, img) && m.f.Fits(chip)
  {
    hide Partial, Rem, PageBase;
  }

  lemma {:induction false} PrintData(chip: Chip, m: Machine, o: Origin, img: seq<byte>, d: seq<byte>)
    requires chip.Valid() && InData(chip, m, o, img, |d|) && |d| % 2 == 0
    requires o.Address() + |img| + |d| <= chip.bootStart
    ensures var r := Print(chip, m, HexBytes(d));
            && InData(chip, r, o, img + d, 0)
            && r.p.checksum == (m.p.checksum + Sum(d)) % 256
    decreases |d|, 0
  {
    hide Apply, HexByte, HexBytes, Print, InData, Sum;
    if d == [] {
      assert img + d == img;
      InDataFits(chip, m, o, img, 0);
      PrintNothing(chip, m);
      NoBytes();
    } else {
      var lo, hi, rest := d[0], d[1], d[2..];
      assert d == [lo, hi] + rest;
      PairFirst(lo, hi, rest);
      PrintStep(chip, m, o, img, lo, hi, rest);
      assert img + d == img + [lo, hi] + rest;
    }
  }

  lemma {:induction false} NoBytes()
    ensures HexBytes([]) == "" && Sum([]) == 0
  {
  }

  lemma {:induction false} InDataFits(chip: Chip, m: Machine, o: Origin, img: seq<byte>, rem: nat)
    requires chip.Valid() && InData(chip, m, o, img, rem)
    ensures m.f.Fits(chip) && m.p.checksum % 256 == m.p.checksum
  {
  }

  lemma {:induction false} PrintStep(chip: Chip, m: Machine, o: Origin, img: seq<byte>, lo: byte, hi: byte,
                                     rest: seq<byte>)
    requires chip.Valid() && InData(chip, m, o, img, 2 + |rest|) && |rest| % 2 == 0
    requires o.Address() + |img| + 2 + |rest| <= chip.bootStart
    ensures var r := Print(chip, m, HexByte(lo) + HexByte(hi) + HexBytes(rest));
            && InData(chip, r, o, img + [lo, hi] + rest, 0)
            && r.p.checksum == (m.p.checksum + lo + hi + Sum(rest)) % 256
    decreases |rest|, 1
  {
    hide InData, Print, HexByte, HexBytes, Sum;
    InDataFits(chip, m, o, img, 2 + |rest|);
    ModSum(m.p.checksum as int + lo as int + hi as int, Sum(rest));
    PrintPair(chip, m, o, img, 2 + |rest|, lo, hi);
    PrintConcat(chip, m, HexByte(lo) + HexByte(hi), HexBytes(rest));
    PrintData(chip, Print(chip, m, HexByte(lo) + HexByte(hi)), o, img + [lo, hi], rest);
  }

  /** The bytes that a data record adds to the image: a record of odd length drags a stale byte in before them. */
  function Effective(o: Origin, img: seq<byte>, d: seq<byte>): (r: seq<byte>)
    ensures |r| == |d| + |d| % 2
  {
    if |d| % 2 == 0 then d else [Stale(o, img)] + d
  }

  lemma {:induction false} PrintOddFirst(chip: Chip, m: Machine, o: Origin, img: seq<byte>, rem: nat, b: byte)
    requires chip.Valid() && InData(chip, m, o, img, rem) && rem % 2 == 1
    requires o.Address() + |img| < chip.bootStart
    ensures var r := Print(chip, m, HexByte(b));
            && InData(chip, r, o, img + [Stale(o, img), b], rem - 1)
            && r.p.checksum == (m.p.checksum + b) % 256
  {
    hide Apply, Partial, DataWord, ByteDone, Print, HexByte;
    PrintByte(chip, m, b);
    HighByte(chip, m.p, b);
    var p1 := m.p.(data := b, dataRem := rem - 1, checksum := (m.p.checksum + b) % 256);
    LoadWord(chip, m.(p := p1), o, img, Stale(o, img), b);
  }

  lemma {:induction false} PrintAnyData(chip: Chip, m: Machine, o: Origin, img: seq<byte>, d: seq<byte>)
    requires chip.Valid() && InData(chip, m, o, img, |d|) && m.f.Fits(chip)
    requires o.Address() + |img| + |Effective(o, img, d)| <= chip.bootStart
    ensures var r := Print(chip, m, HexBytes(d));
            && InData(chip, r, o, img + Effective(o, img, d), 0)
            && r.p.checksum == (m.p.checksum + Sum(d)) % 256
  {
    hide InData, Print, HexByte, HexBytes, Sum, Stale;
    if |d| % 2 == 0 {
      PrintData(chip, m, o, img, d);
    } else {
      var st, b, rest := Stale(o, img), d[0], d[1..];
      PrintOddFirst(chip, m, o, img, |d|, b);
      var m1 := Print(chip, m, HexByte(b));
      PrintConcat(chip, m, HexByte(b), HexBytes(rest));
      PrintData(chip, m1, o, img + [st, b], rest);
      OddFirst(img, st, d);
      ModSum(m.p.checksum + b, Sum(rest));
    }
  }

  lemma {:induction false} OddFirst(img: seq<byte>, st: byte, d: seq<byte>)
    requires d != []
    ensures HexBytes(d) == HexByte(d[0]) + HexBytes(d[1..]) && Sum(d) == d[0] + Sum(d[1..])
    ensures (img + [st, d[0]]) + d[1..] == img + ([st] + d)
  {
    hide HexByte;
    assert d == [d[0]] + d[1..] && Sum([d[0]]) == d[0];
    SumConcat([d[0]], d[1..]);
  }

  /** Start code, count, address and type of a record leave the flash alone and set the parser up for its data. */
  lemma {:induction false} PrintHeaderAt(chip: Chip, m: Machine, count: byte, addr: nat, kind: byte)
    requires chip.Valid() && m.f.Fits(chip) && addr < 65536
    ensures Print(chip, m, ":" + HexBytes([count, addr / 256, addr % 256, kind])) ==
            m.(p := m.p.(state := if count != 0 then ReadData else Checksum, data := kind, readMSB := false,
                         recordType := kind, dataRem := count, currAddr := (m.p.baseAddr + addr) % AddressSpace(chip),
                         checksum := (count + addr / 256 + addr % 256 + kind) % 256))
  {
    hide Apply, HexByte, HexBytes, ByteDone, Print, Step, AddressSpace, Plus;
    var hi, lo, base, space := addr / 256, addr % 256, m.p.baseAddr, AddressSpace(chip);
    TwoSteps(chip, base, addr);
    var p0 := m.p.(checksum := 0, currAddr := base, readMSB := false, state := ByteCount);
    var p1 := p0.(data := count, checksum := Plus(0, count), dataRem := count, state := AddressHigh);
    var p2 := p1.(data := hi, checksum := Plus(p1.checksum, hi), currAddr := (base + hi * 256) % space,
                  state := AddressLow);
    var p3 := p2.(data := lo, checksum := Plus(p2.checksum, lo), currAddr := (base + addr) % space,
                  state := RecordType);
    PlusFour(count, hi, lo, kind);
    HeaderByte(chip, p0, count);
    HeaderByte(chip, p1, hi);
    HeaderByte2(chip, p2, lo);
    HeaderByte2(chip, p3, kind);
    StartOfRecord(chip, m, HexBytes([count, hi, lo, kind]));
    HexFour(count, hi, lo, kind);
    PrintPlainByte(chip, m.(p := p0), p1, count, HexByte(hi) + (HexByte(lo) + HexByte(kind)));
    PrintPlainByte(chip, m.(p := p1), p2, hi, HexByte(lo) + HexByte(kind));
    PrintPlainByte(chip, m.(p := p2), p3, lo, HexByte(kind));
    PrintByte(chip, m.(p := p3), kind);
    assert Run(chip, m.f, []) == m.f;
  }

  /** The two bytes of an address are added one after the other, each time in the width of an address. */
  lemma {:induction false} TwoSteps(chip: Chip, base: nat, addr: nat)
    requires addr < 65536
    ensures AddressSpace(chip) > 0
    ensures ((base + addr / 256 * 256) % AddressSpace(chip) + addr % 256) % AddressSpace(chip) ==
            (base + addr) % AddressSpace(chip)
  {
    ModAdd(base + addr / 256 * 256, addr % 256, AddressSpace(chip));
  }

  /** With no base in force the record's address is taken as it is. */
  lemma {:induction false} PrintHeader(chip: Chip, m: Machine, count: byte, addr: nat, kind: byte)
    requires chip.Valid() && m.f.Fits(chip) && m.p.baseAddr == 0 && addr < 65536
    ensures Print(chip, m, ":" + HexBytes([count, addr / 256, addr % 256, kind])) ==
            m.(p := m.p.(state := if count != 0 then ReadData else Checksum, data := kind, readMSB := false,
                         recordType := kind, dataRem := count, currAddr := addr,
                         checksum := (count + addr / 256 + addr % 256 + kind) % 256))
  {
    hide Print, HexBytes, AddressSpace;
    AddressFits(chip, addr);
    PrintHeaderAt(chip, m, count, addr, kind);
  }

  lemma {:induction false} StartOfRecord(chip: Chip, m: Machine, s: string)
    requires chip.Valid() && m.f.Fits(chip)
    ensures Print(chip, m, ":" + s) ==
            Print(chip, m.(p := m.p.(checksum := 0, currAddr := m.p.baseAddr, readMSB := false, state := ByteCount)), s)
  {
    hide Apply;
    assert (":" + s)[0] == ':' && (":" + s)[1..] == s;
  }

  /** A byte that requests no flash operation. */
  lemma {:induction false} PrintPlainByte(chip: Chip, m: Machine, q: Parser, b: byte, rest: string)
    requires chip.Valid() && m.f.Fits(chip) && !m.p.state.WaitLine? && !m.p.readMSB
    requires ByteDone(chip, m.p.(data := b)) == (q, [])
    ensures Print(chip, m, HexByte(b) + rest) == Print(chip, m.(p := q), rest)
  {
    hide Apply, HexByte, ByteDone, Print;
    PrintByte(chip, m, b);
    PrintConcat(chip, m, HexByte(b), rest);
  }

  lemma {:induction false} HeaderByte(chip: Chip, p: Parser, b: byte)
    requires chip.Valid()
    ensures var q := p.(data := b, checksum := Plus(p.checksum, b));
            && (p.state == ByteCount ==> ByteDone(chip, p.(data := b)) == (q.(dataRem := b, state := AddressHigh), []))
            && (p.state == AddressHigh ==>
                ByteDone(chip, p.(data := b)) ==
                (q.(currAddr := (p.currAddr + b * 256) % AddressSpace(chip), state := AddressLow), []))
  {
    hide Flush, DataByte;
  }

  lemma {:induction false} HeaderByte2(chip: Chip, p: Parser, b: byte)
    requires chip.Valid()
    ensures var q := p.(data := b, checksum := Plus(p.checksum, b));
            && (p.state == AddressLow ==>
                ByteDone(chip, p.(data := b)) ==
                (q.(currAddr := (p.currAddr + b) % AddressSpace(chip), state := RecordType), []))
            && (p.state == RecordType ==>
                ByteDone(chip, p.(data := b)) ==
                (q.(recordType := b, state := if p.dataRem != 0 then ReadData else Checksum), []))
  {
    hide Flush, DataByte;
  }

  /** A right checksum byte flushes, and ends the session after an end-of-file record. */
  lemma {:induction false} RightChecksum(chip: Chip, p: Parser, b: byte)
    requires chip.Valid() && p.state == Checksum && (p.checksum + b) % 256 == 0
    ensures var (q, ops) := Flush(chip, p.(data := b));
            ByteDone(chip, p.(data := b)) == (q.(running := q.running && p.recordType != TYPE_EOF), ops)
  {
    hide And, DataByte, AddressSpace;
    assert b == (255 - p.checksum + 1) % 256;
  }

  /** One data record, in whatever parser state it starts. */
  lemma {:induction false} PrintRecord(chip: Chip, m: Machine, o: Origin, img: seq<byte>, d: seq<byte>)
    requires chip.Valid() && Ready(chip, m, o, img)
    requires 0 < |d| < 256 && o.Address() + |img| + |Effective(o, img, d)| <= chip.bootStart
             && o.Address() + |img| < 65536
    ensures var r := Print(chip, m, RecordText(o.Address() + |img|, TYPE_DATA, d));
            Ready(chip, r, o, img + Effective(o, img, d)) && r.p.state == Checksum && !r.p.readMSB
  {
    hide Apply, InData, Ready, HexByte, HexBytes, Print, Sum, RecordText, RecordBody, ChecksumOf;
    var addr := o.Address() + |img|;
    var body := RecordBody(addr, TYPE_DATA, d);
    var ck := ChecksumOf(body);
    var t0, t1, t2 := ":" + HexBytes([|d|, addr / 256, addr % 256, TYPE_DATA]), HexBytes(d), HexByte(ck);
    ReadyFits(chip, m, o, img);
    RecordParts(addr, TYPE_DATA, d);
    PrintConcat(chip, m, t0 + t1, t2);
    PrintConcat(chip, m, t0, t1);
    AfterHeader(chip, m, o, img, d);
    var m1 := Print(chip, m, t0);
    PrintAnyData(chip, m1, o, img, d);
    ModSum(|d| + addr / 256 + addr % 256 + TYPE_DATA, Sum(d));
    PrintChecksum(chip, Print(chip, m1, t1), o, img + Effective(o, img, d), ck, Sum(body));
  }

  lemma {:induction false} RecordParts(addr: nat, kind: byte, d: seq<byte>)
    requires |d| < 256 && addr < 65536
    ensures var ck := ChecksumOf(RecordBody(addr, kind, d));
            && RecordText(addr, kind, d) == (":" + HexBytes([|d|, addr / 256, addr % 256,
              kind])) + HexBytes(d) + HexByte(ck)
            && Sum(RecordBody(addr, kind, d)) == |d| + addr / 256 + addr % 256 + kind + Sum(d)
            && (Sum(RecordBody(addr, kind, d)) + ck) % 256 == 0
  {
    hide HexByte, HexBytes, Sum;
    HexBytesConcat([|d|, addr / 256, addr % 256, kind], d);
    SumHeader(addr, kind, d);
  }

  lemma {:induction false} AfterHeader(chip: Chip, m: Machine, o: Origin, img: seq<byte>, d: seq<byte>)
    requires chip.Valid() && Ready(chip, m, o, img) && 0 < |d| < 256 && o.Address() + |img| < 65536
    ensures var addr := o.Address() + |img|;
            var m1 := Print(chip, m, ":" + HexBytes([|d|, addr / 256, addr % 256, TYPE_DATA]));
            && m1.f.Fits(chip) && InData(chip, m1, o, img, |d|)
            && m1.p.checksum == (|d| + addr / 256 + addr % 256 + TYPE_DATA) % 256
  {
    hide Partial, HexBytes, Print, Rem;
    PrintHeader(chip, m, |d|, o.Address() + |img|, TYPE_DATA);
  }

  lemma {:induction false} PrintChecksum(chip: Chip, m: Machine, o: Origin, img: seq<byte>, ck: byte, sum: nat)
    requires chip.Valid() && InData(chip, m, o, img, 0) && o.Address() + |img| <= chip.bootStart
    requires m.p.checksum == sum % 256 && (sum + ck) % 256 == 0
    ensures var r := Print(chip, m, HexByte(ck));
            Ready(chip, r, o, img) && r.p.state == Checksum && !r.p.readMSB
  {
    hide Apply, Partial, HexByte, ByteDone, Print, AddressSpace, Rem, And;
    ModSum(sum, ck);
    PrintByte(chip, m, ck);
    RightChecksum(chip, m.p, ck);
    var a := o.Address() + |img|;
    AddressFits(chip, a);
    PageOfAddress(chip, a);
    RemSum(o.page, o.offset + |img|, chip.pageSize);
    assert Run(chip, m.f, []) == m.f;
  }

  ghost predicate Ignorable(s: string) {
    forall c <- s :: c != ':' && HexToDecimal(c) < 0
  }

  /** Outside the wait state, characters that are neither digits nor colons change nothing at all. */
  lemma {:induction false} PrintIgnorable(chip: Chip, m: Machine, s: string)
    requires chip.Valid() && m.f.Fits(chip) && !m.p.state.WaitLine? && Ignorable(s)
    ensures Print(chip, m, s) == m
    decreases |s|
  {
    hide Apply;
    if s != [] {
      assert s[0] in s && forall c <- s[1..] :: c in s;
      assert Advance(chip, m, s[0]) == m;
      PrintIgnorable(chip, m, s[1..]);
    }
  }

  lemma {:induction false} ReadyFits(chip: Chip, m: Machine, o: Origin, img: seq<byte>)
    requires chip.Valid() && Ready(chip, m, o, img)
    ensures m.f.Fits(chip)
  {
  }

  lemma {:induction false} PrintNothing(chip: Chip, m: Machine)
    requires chip.Valid() && m.f.Fits(chip)
    ensures Print(chip, m, "") == m
  {
  }

  ghost predicate EvenRecords(chunks: seq<seq<byte>>) {
    forall c <- chunks :: 0 < |c| < 256 && |c| % 2 == 0
  }

  lemma {:induction false} PrintLines(chip: Chip, m: Machine, o: Origin, img: seq<byte>,
                                      chunks: seq<seq<byte>>, eol: string)
    requires chip.Valid() && Ready(chip, m, o, img) && EvenRecords(chunks) && Ignorable(eol)
    requires var n := o.Address() + |img| + |Concat(chunks)|; n <= chip.bootStart && n <= 65536
    ensures Ready(chip, Print(chip, m, DataLines(o.Address() + |img|, chunks, eol)), o, img + Concat(chunks))
    decreases |chunks|
  {
    hide Ready, Print, RecordText;
    ReadyFits(chip, m, o, img);
    PrintNothing(chip, m);
    if chunks == [] {
      assert img + Concat(chunks) == img;
    } else {
      var d, rest := chunks[0], chunks[1..];
      assert d in chunks && forall c <- rest :: c in chunks;
      var a := o.Address() + |img|;
      var t0, t1 := RecordText(a, TYPE_DATA, d), DataLines(a + |d|, rest, eol);
      PrintConcat(chip, m, t0 + eol, t1);
      PrintConcat(chip, m, t0, eol);
      PrintRecord(chip, m, o, img, d);
      var m1 := Print(chip, m, t0);
      PrintIgnorable(chip, m1, eol);
      PrintLines(chip, m1, o, img + d, rest, eol);
      assert img + Concat(chunks) == img + d + Concat(rest);
    }
  }

  /**
   The end-of-file record commits a page that is still open, unless that page is page 0: its
   own address field says 0, so the parser sees no page boundary crossed.
   */
  lemma {:induction false} PrintEnd(chip: Chip, m: Machine, o: Origin, img: seq<byte>)
    requires chip.Valid() && Ready(chip, m, o, img)
    ensures |o.mem0| == chip.flashSize && chip.pageSize <= chip.bootStart
    ensures var data := o.Shifted(img);
            var r := Print(chip, m, RecordText(0, TYPE_EOF, []));
            && !r.p.running
            && if img == [] then r.f.mem == o.mem0
               else
                 && o.page + |data| + Padding(chip, |data|) <= chip.bootStart
                 && r.f.mem == if o.page > 0 || |data| >= chip.pageSize
                               then Overwrite(o.mem0, o.page, Padded(chip, data))
                               else Overwrite(o.mem0, o.page, Blank(chip.pageSize))
  {
    hide Apply, HexByte, HexBytes, ByteDone, Print, AddressSpace, Partial, And, Rem, Overwrite, Blank, Padding, Padded;
    EndOfFileText();
    PrintConcat(chip, m, ":" + HexBytes([0, 0, 0, TYPE_EOF]), HexByte(0xFF));
    PrintHeader(chip, m, 0, 0, TYPE_EOF);
    var m1 := Print(chip, m, ":" + HexBytes([0, 0, 0, TYPE_EOF]));
    PrintByte(chip, m1, 0xFF);
    RightChecksum(chip, m1.p, 0xFF);
    AddressFits(chip, 0);
    PageOfAddress(chip, 0);
    RemSmall(0, chip.pageSize);
    RemGap(0, chip.bootStart, chip.pageSize);
    RunTwo(chip, m.f, Write(m.p.pageStart), Write(0));
    assert Run(chip, m.f, []) == m.f;
    if img != [] {
      var data := o.Shifted(img);
      CommitLast(chip, m.f, o.mem0, data, o.page);
      if |data| < chip.pageSize {
        RemSmall(|data|, chip.pageSize);
      } else {
        PageBaseLarge(chip, |data|);
      }
    }
  }

  lemma {:induction false} PageBaseLarge(chip: Chip, n: nat)
    requires chip.Valid() && n >= chip.pageSize
    ensures PageBase(chip, n) > 0
  {
  }

  lemma {:induction false} EndOfFileText()
    ensures RecordText(0, TYPE_EOF, []) == ":" + HexBytes([0, 0, 0, TYPE_EOF]) + HexByte(0xFF)
  {
    SumHeader(0, TYPE_EOF, []);
    assert RecordBody(0, TYPE_EOF, []) == [0, 0, 0, TYPE_EOF];
  }

  /** The state of the device once the whole file has been printed to it after reset. */
  function Printed(chip: Chip, f0: Flash, file: string): (r: Machine)
    requires chip.Valid() && f0.Fits(chip)
    ensures r.f.Fits(chip)
  {
    Print(chip, Machine(INITIAL, f0), file)
  }

  /**
   Printing a file of even-length data records for consecutive addresses from 0 leaves exactly the
   image in flash, its last page padded with erased bytes and every other page as it was -- except
   that an image shorter than one page is never committed and page 0 stays erased.
   */
  lemma {:induction false} PrintedImage(chip: Chip, f0: Flash, chunks: seq<seq<byte>>, eol: string)
    requires chip.Valid() && f0.Fits(chip) && EvenRecords(chunks) && Ignorable(eol)
    requires |Concat(chunks)| <= chip.bootStart && |Concat(chunks)| <= 65536
    ensures var img := Concat(chunks);
            var r := Printed(chip, f0, HexFile(chunks, eol));
            && !r.p.running
            && |img| + Padding(chip, |img|) <= chip.bootStart
            && r.f.mem == (if |img| == 0 || |img| >= chip.pageSize
                           then Overwrite(f0.mem, 0, Padded(chip, img))
                           else Overwrite(f0.mem, 0, Blank(chip.pageSize)))
  {
    hide Ready, Print, RecordText;
    var m, img := Machine(INITIAL, f0), Concat(chunks);
    InitiallyReady(chip, f0, 0);
    assert [] + img == img;
    var o := FromReset(f0, 0);
    PrintLines(chip, m, o, [], chunks, eol);
    PrintConcat(chip, m, DataLines(0, chunks, eol), RecordText(0, TYPE_EOF, []));
    PrintEnd(chip, Print(chip, m, DataLines(0, chunks, eol)), o, img);
    assert o.Shifted(img) == img;
    if img == [] {
      NothingLoaded(chip, f0.mem);
    }
  }

  lemma {:induction false} NothingLoaded(chip: Chip, mem: seq<byte>)
    requires chip.Valid()
    ensures Padding(chip, 0) == 0 && Overwrite(mem, 0, Padded(chip, [])) == mem
  {
    RemSmall(0, chip.pageSize);
    NothingToPad(chip, []);
  }

  /** The flash holds the image if and only if the image fills a page or happens to be blank. */
  lemma {:induction false} PrintedImageIff(chip: Chip, f0: Flash, chunks: seq<seq<byte>>, eol: string)
    requires chip.Valid() && f0.Fits(chip) && EvenRecords(chunks) && Ignorable(eol)
    requires |Concat(chunks)| <= chip.bootStart && |Concat(chunks)| <= 65536
    ensures var img := Concat(chunks);
            Printed(chip, f0, HexFile(chunks, eol)).f.mem[..|img|] == img
            <==> |img| >= chip.pageSize || forall b <- img :: b == ERASED
  {
    hide Printed, Rem, HexFile;
    var img := Concat(chunks);
    PrintedImage(chip, f0, chunks, eol);
    var mem := Printed(chip, f0, HexFile(chunks, eol)).f.mem;
    if |img| >= chip.pageSize || |img| == 0 {
      assert mem[..|img|] == img;
    } else {
      assert mem[..|img|] == Blank(|img|);
      assert forall i :: 0 <= i < |img| ==> mem[..|img|][i] == ERASED;
      assert forall i :: 0 <= i < |img| ==> img[i] in img;
      if forall b <- img :: b == ERASED {
        assert mem[..|img|] == img;
      }
    }
  }

  /**
   A last record of odd length is shifted up by one: the parser pairs bytes by what is left of the
   record, so the first of them is taken as the high byte of a word whose low byte is left over.
   */
  lemma {:induction false} PrintedOddTail(chip: Chip, f0: Flash, chunks: seq<seq<byte>>, d: seq<byte>, eol: string)
    requires chip.Valid() && f0.Fits(chip) && EvenRecords(chunks) && Ignorable(eol)
    requires |d| < 256 && |d| % 2 == 1
    requires |Concat(chunks)| + |d| + 1 <= chip.bootStart && |Concat(chunks)| + |d| < 65536
    ensures var img := Concat(chunks);
            var loaded := img + [LastLow(img)] + d;
            var file := DataLines(0, chunks, eol) + RecordText(|img|, TYPE_DATA, d) + eol + RecordText(0, TYPE_EOF, []);
            && |loaded| + Padding(chip, |loaded|) <= chip.bootStart
            && Printed(chip, f0, file).f.mem ==
               (if |loaded| >= chip.pageSize
                then Overwrite(f0.mem, 0, Padded(chip, loaded))
                else Overwrite(f0.mem, 0, Blank(chip.pageSize)))
  {
    hide Ready, Print, RecordText;
    var m, img, o := Machine(INITIAL, f0), Concat(chunks), FromReset(f0, 0);
    var t0, t1, t2 := DataLines(0, chunks, eol), RecordText(|img|, TYPE_DATA, d), RecordText(0, TYPE_EOF, []);
    InitiallyReady(chip, f0, 0);
    assert [] + img == img;
    PrintLines(chip, m, o, [], chunks, eol);
    PrintConcat(chip, m, t0 + t1 + eol, t2);
    PrintConcat(chip, m, t0 + t1, eol);
    PrintConcat(chip, m, t0, t1);
    var m1 := Print(chip, m, t0);
    PrintRecord(chip, m1, o, img, d);
    var m2 := Print(chip, m1, t1);
    PrintIgnorable(chip, m2, eol);
    var loaded := img + [LastLow(img)] + d;
    assert img + Effective(o, img, d) == loaded && o.Shifted(loaded) == loaded;
    PrintEnd(chip, m2, o, loaded);
  }

  /** The byte an odd record drags in from reset on: the low byte of the last word before it, 0 if there is none. */
  function LastLow(img: seq<byte>): (b: byte) {
    Stale(Origin([], 0, 0, 0), img)
  }

  /** Such a file loads correctly only when the whole odd record repeats the stale byte, or nothing is loaded at all. */
  lemma {:induction false} PrintedOddTailIff(chip: Chip, f0: Flash, chunks: seq<seq<byte>>, d: seq<byte>, eol: string)
    requires chip.Valid() && f0.Fits(chip) && EvenRecords(chunks) && Ignorable(eol)
    requires |d| < 256 && |d| % 2 == 1
    requires |Concat(chunks)| + |d| + 1 <= chip.bootStart && |Concat(chunks)| + |d| < 65536
    ensures var img := Concat(chunks);
            var file := DataLines(0, chunks, eol) + RecordText(|img|, TYPE_DATA, d) + eol + RecordText(0, TYPE_EOF, []);
            Printed(chip, f0, file).f.mem[..|img| + |d|] == img + d
            <==> if |img| + |d| < chip.pageSize - 1 then forall b <- img + d :: b == ERASED
                 else forall b <- d :: b == LastLow(img)
  {
    hide Printed, Rem, DataLines, RecordText, LastLow, Padded, Padding, Overwrite, Blank, Concat;
    var img := Concat(chunks);
    PrintedOddTail(chip, f0, chunks, d, eol);
    var file := DataLines(0, chunks, eol) + RecordText(|img|, TYPE_DATA, d) + eol + RecordText(0, TYPE_EOF, []);
    var low := Printed(chip, f0, file).f.mem[..|img| + |d|];
    var all := img + d;
    if |all| < chip.pageSize - 1 {
      assert forall i :: 0 <= i < |all| ==> low[i] == ERASED;
      assert forall i :: 0 <= i < |all| ==> all[i] in all;
      if forall b <- all :: b == ERASED {
        assert low == all;
      }
    } else {
      var loaded := img + [LastLow(img)] + d;
      assert loaded <= Padded(chip, loaded);
      assert low == loaded[..|all|];
      ShiftedIff(img, LastLow(img), d);
    }
  }

  lemma {:induction false} ShiftedIff(img: seq<byte>, st: byte, d: seq<byte>)
    ensures (img + [st] + d)[..|img| + |d|] == img + d <==> forall b <- d :: b == st
  {
    var x, y := (img + [st] + d)[..|img| + |d|], img + d;
    if x == y {
      var i := 0;
      while i < |d|
        invariant i <= |d|
        invariant forall j :: 0 <= j < i ==> d[j] == st
      {
        assert x[|img| + i] == y[|img| + i] == d[i];
        assert x[|img| + i] == if i == 0 then st else d[i - 1];
        i := i + 1;
      }
    }
    if forall b <- d :: b == st {
      assert forall i :: 0 <= i < |d| ==> d[i] in d;
      assert x == y;
    }
  }

  lemma {:induction false} InitiallyReady(chip: Chip, f0: Flash, offset: nat)
    requires chip.Valid() && f0.Fits(chip) && offset < chip.pageSize && offset % 2 == 0
    ensures Ready(chip, Machine(INITIAL, f0), FromReset(f0, offset), [])
  {
  }
}
