/** What printing a HEX file leaves in flash that does not start at address 0. */
module PrinterStart {
  import opened Bits
  import opened FlashMachine
  import opened HexText
  import opened Printer
  import opened PrinterImage

  /** A HEX file for an image loaded at address `a`. */
  function FileAt(a: nat, chunks: seq<seq<byte>>, eol: string): (s: string)
    requires forall c <- chunks :: 0 < |c| < 256
    requires a + |Concat(chunks)| <= 65536
  {
    DataLines(a, chunks, eol) + RecordText(0, TYPE_EOF, [])
  }

  /** An even address for an image that ends below the boot section and in the reach of a record. */
  ghost predicate Placeable(chip: Chip, a: nat, chunks: seq<seq<byte>>) {
    && EvenRecords(chunks) && chunks != [] && a % 2 == 0
    && a + |Concat(chunks)| <= chip.bootStart && a + |Concat(chunks)| <= 65536
  }

  lemma {:induction false} NotEmpty(chip: Chip, a: nat, chunks: seq<seq<byte>>)
    requires Placeable(chip, a, chunks)
    ensures |chunks[0]| >= 2 && |Concat(chunks)| >= |chunks[0]| && chunks[0] <= Concat(chunks)
    ensures EvenRecords(chunks[1..])
  {
    assert chunks[0] in chunks && forall c <- chunks[1..] :: c in chunks;
  }

  /** An image that starts inside page 0 is loaded with the rest of that page erased. */
  lemma {:induction false} PrintedInFirstPage(chip: Chip, f0: Flash, a: nat, chunks: seq<seq<byte>>, eol: string)
    requires chip.Valid() && f0.Fits(chip) && Ignorable(eol) && Placeable(chip, a, chunks) && a < chip.pageSize
    ensures var img := Blank(a) + Concat(chunks);
            var r := Printed(chip, f0, FileAt(a, chunks, eol));
            && !r.p.running && |img| + Padding(chip, |img|) <= chip.bootStart && chip.pageSize <= chip.bootStart
            && r.f.mem == if |img| >= chip.pageSize then Overwrite(f0.mem, 0, Padded(chip, img))
                          else Overwrite(f0.mem, 0, Blank(chip.pageSize))
  {
    hide Ready, Print, RecordText, Padded, Padding, Overwrite, DataLines;
    var m, o, img := Machine(INITIAL, f0), FromReset(f0, a), Concat(chunks);
    NotEmpty(chip, a, chunks);
    InitiallyReady(chip, f0, a);
    assert [] + img == img;
    PrintLines(chip, m, o, [], chunks, eol);
    PrintConcat(chip, m, DataLines(a, chunks, eol), RecordText(0, TYPE_EOF, []));
    PrintEnd(chip, Print(chip, m, DataLines(a, chunks, eol)), o, img);
  }

  // -- Images behind page 0 ----------------------------------------------------------------------------

  /**
   Where loading goes on after the first word: page 0 holds that word, and the parser has moved to the word's page.
   */
  function Astray(chip: Chip, mem: seq<byte>, a: nat, lo: byte, hi: byte): (o: Origin)
    requires chip.Valid() && |mem| == chip.flashSize && a % 2 == 0
  {
    RemEven(a, chip.pageSize);
    Origin(Overwrite(mem, 0, Page(chip, Blank(Rem(a, chip.pageSize)) + [lo, hi])),
           PageBase(chip, a + 2), Rem(a + 2, chip.pageSize), lo)
  }

  lemma {:induction false} AstrayIs(chip: Chip, mem: seq<byte>, a: nat, lo: byte, hi: byte)
    requires chip.Valid() && |mem| == chip.flashSize && a % 2 == 0 && a < chip.bootStart
    ensures Astray(chip, mem, a, lo, hi).Valid(chip) && Astray(chip, mem, a, lo, hi).Address() == a + 2
  {
    hide Rem, Overwrite, Page, Blank;
    RemEven(a + 2, chip.pageSize);
    RemEven(chip.bootStart, chip.pageSize);
    RemBase(a + 2, chip.pageSize);
  }

  /** A fill reaches the same word of the buffer from every page. */
  lemma {:induction false} FillAnyPage(chip: Chip, f: Flash, a: nat, w: word)
    requires chip.Valid() && f.Fits(chip)
    ensures Apply(chip, f, Fill(a, w)) == Apply(chip, f, Fill(Rem(a, chip.pageSize), w))
  {
    RemSmall(Rem(a, chip.pageSize), chip.pageSize);
  }

  /** Erasing page 0, filling a word of some other page and committing page 0. */
  lemma {:induction false} StrayFlash(chip: Chip, f: Flash, a: nat, lo: byte, hi: byte)
    requires chip.Valid() && f.Fits(chip) && a % 2 == 0 && a < chip.bootStart
    ensures Run(chip, f, [Erase(0), Fill(a, LE16(lo, hi))] + [Write(0)]).mem == Astray(chip, f.mem, a, lo, hi).mem0
  {
    hide Apply, Run, Rem, Overwrite, Page, Blank, Open, LE16;
    var p, t, w := chip.pageSize, Rem(a, chip.pageSize), LE16(lo, hi);
    RemEven(a, p);
    RemSmall(0, p);
    RunConcat(chip, f, [Erase(0), Fill(a, w)], [Write(0)]);
    RunTwo(chip, f, Erase(0), Fill(a, w));
    OpenFirst(chip, f, 0);
    var f0 := Apply(chip, f, Erase(0));
    OpenGap(chip, f0, f.mem, 0, t);
    FillAnyPage(chip, f0, a, w);
    FillOpenPage(chip, f0, f.mem, 0, [], Blank(t), lo, hi);
    var f1 := Apply(chip, f0, Fill(a, w));
    RunTwo(chip, f1, Write(0), Write(0));
    CommitOpenPage(chip, f1, f.mem, 0, [], Blank(t) + [lo, hi]);
    assert [] + Page(chip, Blank(t) + [lo, hi]) == Page(chip, Blank(t) + [lo, hi]);
  }

  /** The parser inside a data record, with no page in use yet. */
  ghost predicate Unplaced(chip: Chip, m: Machine, a: nat, rem: nat) {
    && m.f.Fits(chip) && m.p.state == ReadData && m.p.recordType == TYPE_DATA && !m.p.readMSB
    && m.p.dataRem == rem && m.p.currAddr == a && m.p.baseAddr == 0 && m.p.running
    && m.p.pageStart == 0 && !m.p.pageDirty
  }

  /** The first word goes to page 0, wherever it belongs. */
  lemma {:induction false} StrayWord(chip: Chip, m: Machine, a: nat, rem: nat, lo: byte, hi: byte)
    requires chip.Valid() && Unplaced(chip, m, a, rem) && a % 2 == 0 && chip.pageSize <= a < chip.bootStart
    ensures var (q, ops) := DataWord(chip, m.p, LE16(lo, hi));
            && ops == [Erase(0), Fill(a, LE16(lo, hi))] + [Write(0)]
            && q == m.p.(pageStart := PageBase(chip, a + 2), currAddr := a + 2)
  {
    hide And, Rem, AddressSpace, LE16;
    RemEven(chip.bootStart, chip.pageSize);
    AddressFits(chip, a + 2);
    PageOfAddress(chip, a + 2);
    PageBaseLarge(chip, a + 2);
  }

  lemma {:induction false} StrayPair(chip: Chip, m: Machine, a: nat, rem: nat, lo: byte, hi: byte)
    requires chip.Valid() && Unplaced(chip, m, a, rem) && rem >= 2 && rem % 2 == 0
    requires a % 2 == 0 && chip.pageSize <= a < chip.bootStart
    ensures var r := Print(chip, m, HexByte(lo) + HexByte(hi));
            && InData(chip, r, Astray(chip, m.f.mem, a, lo, hi), [], rem - 2)
            && r.p.checksum == (m.p.checksum + lo + hi) % 256
  {
    hide Apply, DataWord, ByteDone, Print, HexByte, Astray, LE16, InData, PageBase, Run, Unplaced, Plus;
    PlusTwo(m.p.checksum, lo, hi);
    UnplacedParts(chip, m, a, rem);
    PrintConcat(chip, m, HexByte(lo), HexByte(hi));
    PrintByte(chip, m, lo);
    LowByte(chip, m.p, lo);
    var p1 := m.p.(data := lo, prevData := lo, dataRem := rem - 1, checksum := Plus(m.p.checksum, lo));
    var m1 := m.(p := p1);
    RunNothing(chip, m.f);
    assert Print(chip, m, HexByte(lo)) == m1;
    PrintByte(chip, m1, hi);
    HighByte(chip, p1, hi);
    var p2 := p1.(data := hi, dataRem := rem - 2, checksum := Plus(p1.checksum, hi));
    UnplacedStays(chip, m, p2, a, rem);
    StrayWord(chip, m.(p := p2), a, rem - 2, lo, hi);
    StrayFlash(chip, m.f, a, lo, hi);
    AstrayIs(chip, m.f.mem, a, lo, hi);
    AstrayParts(chip, m.f.mem, a, lo, hi);
    Enters(chip, Print(chip, m, HexByte(lo) + HexByte(hi)), Astray(chip, m.f.mem, a, lo, hi), rem - 2);
  }

  lemma {:induction false} UnplacedParts(chip: Chip, m: Machine, a: nat, rem: nat)
    requires Unplaced(chip, m, a, rem)
    ensures m.f.Fits(chip) && m.p.state == ReadData && m.p.recordType == TYPE_DATA && !m.p.readMSB
    ensures m.p.dataRem == rem && m.p.currAddr == a && m.p.baseAddr == 0 && m.p.running && !m.p.pageDirty
  {
  }

  lemma {:induction false} UnplacedStays(chip: Chip, m: Machine, q: Parser, a: nat, rem: nat)
    requires Unplaced(chip, m, a, rem) && rem >= 2
    requires q == m.p.(data := q.data, prevData := q.prevData, dataRem := rem - 2, checksum := q.checksum)
    ensures Unplaced(chip, m.(p := q), a, rem - 2)
  {
  }

  /** The state from which an image is loaded at an origin. */
  lemma {:induction false} Enters(chip: Chip, r: Machine, o: Origin, rem: nat)
    requires chip.Valid() && r.f.Fits(chip) && o.Valid(chip) && r.f.mem == o.mem0
    requires r.p.baseAddr == 0 && r.p.running && r.p.pageStart == o.page && !r.p.pageDirty && r.p.prevData == o.stale
    requires r.p.state == (if rem == 0 then Checksum else ReadData) && r.p.recordType == TYPE_DATA && !r.p.readMSB
    requires r.p.dataRem == rem && r.p.currAddr == o.Address()
    ensures InData(chip, r, o, [], rem)
  {
    hide Partial, Rem;
  }

  lemma {:induction false} AstrayParts(chip: Chip, mem: seq<byte>, a: nat, lo: byte, hi: byte)
    requires chip.Valid() && |mem| == chip.flashSize && a % 2 == 0
    ensures Astray(chip, mem, a, lo, hi).page == PageBase(chip, a + 2) && Astray(chip, mem, a, lo, hi).stale == lo
  {
  }

  lemma {:induction false} StrayRecord(chip: Chip, f0: Flash, a: nat, d: seq<byte>)
    requires chip.Valid() && f0.Fits(chip) && 2 <= |d| < 256 && |d| % 2 == 0 && a % 2 == 0
    requires chip.pageSize <= a && a + |d| <= chip.bootStart && a < 65536
    ensures var r := Print(chip, Machine(INITIAL, f0), RecordText(a, TYPE_DATA, d));
            Ready(chip, r, Astray(chip, f0.mem, a, d[0], d[1]), d[2..]) && r.p.state == Checksum && !r.p.readMSB
  {
    hide Apply, InData, Ready, HexByte, HexBytes, Print, Sum, RecordText, RecordBody, ChecksumOf, Astray, Unplaced;
    var m, body := Machine(INITIAL, f0), RecordBody(a, TYPE_DATA, d);
    var ck, o := ChecksumOf(body), Astray(chip, f0.mem, a, d[0], d[1]);
    var t0, t1, t2 := ":" + HexBytes([|d|, a / 256, a % 256, TYPE_DATA]), HexBytes(d), HexByte(ck);
    RecordParts(a, TYPE_DATA, d);
    PrintConcat(chip, m, t0 + t1, t2);
    PrintConcat(chip, m, t0, t1);
    StrayHeader(chip, f0, a, d);
    var m1 := Print(chip, m, t0);
    StrayData(chip, m1, a, d);
    AstrayIs(chip, f0.mem, a, d[0], d[1]);
    ModSum(|d| + a / 256 + a % 256 + TYPE_DATA, Sum(d));
    PrintChecksum(chip, Print(chip, m1, t1), o, d[2..], ck, Sum(body));
  }

  lemma {:induction false} StrayHeader(chip: Chip, f0: Flash, a: nat, d: seq<byte>)
    requires chip.Valid() && f0.Fits(chip) && 0 < |d| < 256 && a < 65536
    ensures var m1 := Print(chip, Machine(INITIAL, f0), ":" + HexBytes([|d|, a / 256, a % 256, TYPE_DATA]));
            && Unplaced(chip, m1, a, |d|) && m1.f == f0
            && m1.p.checksum == (|d| + a / 256 + a % 256 + TYPE_DATA) % 256
  {
    hide HexBytes, Print;
    PrintHeader(chip, Machine(INITIAL, f0), |d|, a, TYPE_DATA);
  }

  lemma {:induction false} StrayData(chip: Chip, m: Machine, a: nat, d: seq<byte>)
    requires chip.Valid() && m.f.Fits(chip) && Unplaced(chip, m, a, |d|) && 2 <= |d| < 256 && |d| % 2 == 0
    requires a % 2 == 0 && chip.pageSize <= a && a + |d| <= chip.bootStart
    ensures var r := Print(chip, m, HexBytes(d));
            && InData(chip, r, Astray(chip, m.f.mem, a, d[0], d[1]), d[2..], 0)
            && r.p.checksum == (m.p.checksum + Sum(d)) % 256
  {
    hide Apply, InData, HexByte, HexBytes, Print, Sum, Astray, Unplaced;
    var lo, hi, rest := d[0], d[1], d[2..];
    assert d == [lo, hi] + rest;
    PairFirst(lo, hi, rest);
    StrayPair(chip, m, a, |d|, lo, hi);
    PrintConcat(chip, m, HexByte(lo) + HexByte(hi), HexBytes(rest));
    AstrayIs(chip, m.f.mem, a, lo, hi);
    PrintData(chip, Print(chip, m, HexByte(lo) + HexByte(hi)), Astray(chip, m.f.mem, a, lo, hi), [], rest);
    assert [] + rest == rest;
    ModSum(m.p.checksum as int + lo as int + hi as int, Sum(rest));
  }

  /**
   An image that starts behind page 0: page 0 is erased and given the first word of the image, and the rest is loaded
   where it belongs, with the start of its page erased.
   */
  lemma {:induction false} PrintedBeyond(chip: Chip, f0: Flash, a: nat, chunks: seq<seq<byte>>, eol: string)
    requires chip.Valid() && f0.Fits(chip) && Ignorable(eol) && Placeable(chip, a, chunks) && chip.pageSize <= a
    ensures |Concat(chunks)| >= 2
    ensures var img := Concat(chunks);
            var o := Astray(chip, f0.mem, a, img[0], img[1]);
            var data := o.Shifted(img[2..]);
            var r := Printed(chip, f0, FileAt(a, chunks, eol));
            && !r.p.running && |o.mem0| == chip.flashSize
            && if |img| == 2 then r.f.mem == o.mem0
               else
                 && o.page + |data| + Padding(chip, |data|) <= chip.bootStart
                 && r.f.mem == Overwrite(o.mem0, o.page, Padded(chip, data))
  {
    hide Ready, Print, RecordText, Padded, Padding, Overwrite, Astray;
    var m, img, d := Machine(INITIAL, f0), Concat(chunks), chunks[0];
    NotEmpty(chip, a, chunks);
    assert d in chunks;
    var o, rest := Astray(chip, f0.mem, a, img[0], img[1]), chunks[1..];
    AstrayIs(chip, f0.mem, a, img[0], img[1]);
    var t0, t1, t2 := RecordText(a, TYPE_DATA, d), DataLines(a + |d|, rest, eol), RecordText(0, TYPE_EOF, []);
    StrayRecord(chip, f0, a, d);
    var m1 := Print(chip, m, t0);
    PrintConcat(chip, m, t0 + eol + t1, t2);
    PrintConcat(chip, m, t0 + eol, t1);
    PrintConcat(chip, m, t0, eol);
    PrintIgnorable(chip, m1, eol);
    PrintLines(chip, m1, o, d[2..], rest, eol);
    assert d[2..] + Concat(rest) == img[2..];
    PrintEnd(chip, Print(chip, m1, t1), o, img[2..]);
    AstrayPage(chip, f0.mem, a, img[0], img[1]);
  }

  lemma {:induction false} AstrayPage(chip: Chip, mem: seq<byte>, a: nat, lo: byte, hi: byte)
    requires chip.Valid() && |mem| == chip.flashSize && a % 2 == 0 && chip.pageSize <= a
    ensures Astray(chip, mem, a, lo, hi).page > 0
  {
    hide Rem, Overwrite, Page, Blank;
    PageBaseLarge(chip, a + 2);
  }

  /** What flash holds at the first word of an image behind page 0, once the rest is loaded. */
  function FirstWordThen(chip: Chip, mem: seq<byte>, a: nat, n: nat): (r: seq<byte>)
    requires chip.Valid() && a + 2 <= |mem|
  {
    if n > 2 && Rem(a, chip.pageSize) + 2 < chip.pageSize then [ERASED, ERASED] else mem[a..a + 2]
  }

  /**
   A file is in flash afterwards if and only if it starts in page 0 and fills it up, or its unprogrammed part happens to
   hold the right bytes: the whole image if it stays inside page 0, its first word if it starts behind page 0.
   */
  lemma {:induction false} PrintedAtIff(chip: Chip, f0: Flash, a: nat, chunks: seq<seq<byte>>, eol: string)
    requires chip.Valid() && f0.Fits(chip) && Ignorable(eol) && Placeable(chip, a, chunks)
    ensures |Concat(chunks)| >= 2
    ensures var img := Concat(chunks);
            Printed(chip, f0, FileAt(a, chunks, eol)).f.mem[a..a + |img|] == img
            <==> if a < chip.pageSize then a + |img| >= chip.pageSize || forall b <- img :: b == ERASED
                 else img[..2] == FirstWordThen(chip, f0.mem, a, |img|)
  {
    hide Printed, Rem, FileAt, Astray, Overwrite, Padded, Padding, FirstWordThen, Blank, Concat, EvenRecords;
    NotEmpty(chip, a, chunks);
    var img := Concat(chunks);
    if a < chip.pageSize {
      PrintedInFirstPage(chip, f0, a, chunks, eol);
      FirstPageIff(chip, f0.mem, a, img);
    } else {
      PrintedBeyond(chip, f0, a, chunks, eol);
      var o := Astray(chip, f0.mem, a, img[0], img[1]);
      AstrayKeeps(chip, f0.mem, a, img[0], img[1]);
      if |img| == 2 {
        BeyondShort(chip, f0.mem, o, a, img);
      } else {
        BeyondIff(chip, f0.mem, o, a, img);
      }
    }
  }

  lemma {:induction false} FirstPageIff(chip: Chip, mem: seq<byte>, a: nat, img: seq<byte>)
    requires chip.Valid() && |mem| == chip.flashSize && a + |img| <= |mem| && chip.pageSize <= |mem|
    requires var data := Blank(a) + img; |data| + Padding(chip, |data|) <= |mem|
    ensures var data := Blank(a) + img;
            var r := if |data| >= chip.pageSize then Overwrite(mem, 0, Padded(chip, data))
                     else Overwrite(mem, 0, Blank(chip.pageSize));
            r[a..a + |img|] == img <==> a + |img| >= chip.pageSize || forall b <- img :: b == ERASED
  {
    hide Rem, Padded, Padding, Overwrite, Blank;
    var data := Blank(a) + img;
    if |data| >= chip.pageSize {
      var padded := Padded(chip, data);
      var r := Overwrite(mem, 0, padded);
      forall i | 0 <= i < |img|
        ensures r[a..a + |img|][i] == img[i]
      {
        assert r[a..a + |img|][i] == r[a + i] == padded[a + i] == data[a + i];
      }
      assert r[a..a + |img|] == img;
    } else {
      var got := Overwrite(mem, 0, Blank(chip.pageSize))[a..a + |img|];
      assert forall i :: 0 <= i < |img| ==> got[i] == ERASED;
      assert forall i :: 0 <= i < |img| ==> img[i] in img;
      if forall b <- img :: b == ERASED {
        assert got == img;
      }
    }
  }

  /** Loading goes on from a page and a memory that still holds everything behind page 0. */
  lemma {:induction false} AstrayKeeps(chip: Chip, mem: seq<byte>, a: nat, lo: byte, hi: byte)
    requires chip.Valid() && |mem| == chip.flashSize && a % 2 == 0 && chip.pageSize <= a && a + 2 <= |mem|
    ensures var o := Astray(chip, mem, a, lo, hi);
            && |o.mem0| == |mem| && o.mem0[a..a + 2] == mem[a..a + 2]
            && o.page + o.offset == a + 2
            && (o.offset == 0 <==> Rem(a, chip.pageSize) + 2 == chip.pageSize)
            && (o.offset != 0 ==> o.page <= a)
  {
    hide Rem, Page, Blank;
    RemNextWord(a, chip.pageSize);
  }

  lemma {:induction false} BeyondShort(chip: Chip, mem: seq<byte>, o: Origin, a: nat, img: seq<byte>)
    requires chip.Valid() && |img| == 2 && a + 2 <= |mem| == |o.mem0| && o.mem0[a..a + 2] == mem[a..a + 2]
    ensures o.mem0[a..a + |img|] == img <==> img[..2] == FirstWordThen(chip, mem, a, |img|)
  {
    assert img[..2] == img;
  }

  lemma {:induction false} BeyondIff(chip: Chip, mem: seq<byte>, o: Origin, a: nat, img: seq<byte>)
    requires chip.Valid() && |img| > 2 && a % 2 == 0 && a + |img| <= |mem| == |o.mem0|
    requires o.mem0[a..a + 2] == mem[a..a + 2]
    requires o.page + o.offset == a + 2 && (o.offset == 0 <==> Rem(a, chip.pageSize) + 2 == chip.pageSize)
    requires o.offset != 0 ==> o.page <= a
    requires var data := o.Shifted(img[2..]); o.page + |data| + Padding(chip, |data|) <= |mem|
    ensures Overwrite(o.mem0, o.page, Padded(chip, o.Shifted(img[2..])))[a..a + |img|] == img
            <==> img[..2] == FirstWordThen(chip, mem, a, |img|)
  {
    hide Rem, Padded, Padding, Overwrite, Blank;
    var data := Padded(chip, o.Shifted(img[2..]));
    assert o.Shifted(img[2..]) <= data;
    var r := Overwrite(o.mem0, o.page, data);
    var got, n := r[a..a + |img|], |img|;
    assert |got| == n;
    forall i | 2 <= i < n
      ensures got[i] == img[i]
    {
      assert got[i] == r[a + i] == data[o.offset + i - 2] == img[2..][i - 2];
    }
    RemNextWord(a, chip.pageSize);
    forall i | 0 <= i < 2
      ensures got[i] == FirstWordThen(chip, mem, a, n)[i]
    {
      if o.offset == 0 {
        assert got[i] == r[a + i] == o.mem0[a + i] == o.mem0[a..a + 2][i];
      } else {
        assert got[i] == r[a + i] == data[a + i - o.page] == ERASED;
      }
    }
    assert got == img <==> got[0] == img[0] && got[1] == img[1];
  }
}
