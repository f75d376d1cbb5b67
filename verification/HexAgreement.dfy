/** The printer bootloader and the HID host loader read the same HEX file alike. */
module HexAgreement {
  import opened Bits
  import opened FlashMachine
  import opened HexText
  import opened Printer
  import opened PrinterImage
  import Host = HostLoader

  /** The records of a file for an image at address 0, cut into chunks. */
  function Records(addr: nat, chunks: seq<seq<byte>>): (r: seq<Host.Record>)
    decreases |chunks|
  {
    if chunks == [] then [Host.Record(0, TYPE_EOF, [])]
    else [Host.Record(addr, TYPE_DATA, chunks[0])] + Records(addr + |chunks[0]|, chunks[1..])
  }

  function Text(lines: seq<string>): (s: string) {
    if lines == [] then [] else lines[0] + Text(lines[1..])
  }

  ghost predicate RecordSizes(chunks: seq<seq<byte>>) {
    forall c <- chunks :: 0 < |c| < 256
  }

  lemma {:induction false} RecordsValid(addr: nat, chunks: seq<seq<byte>>)
    requires RecordSizes(chunks) && addr + |Concat(chunks)| <= 65536
    ensures forall x <- Records(addr, chunks) :: x.Valid()
    decreases |chunks|
  {
    if chunks != [] {
      assert chunks[0] in chunks && forall c <- chunks[1..] :: c in chunks;
      RecordsValid(addr + |chunks[0]|, chunks[1..]);
    }
  }

  /** Line by line, the host reads the characters that the printer is sent. */
  lemma {:induction false} SameText(addr: nat, chunks: seq<seq<byte>>, eol: string)
    requires RecordSizes(chunks) && addr + |Concat(chunks)| <= 65536
    ensures forall x <- Records(addr, chunks) :: x.Valid()
    ensures Text(Host.LinesOf(Records(addr, chunks), eol)) ==
            DataLines(addr, chunks, eol) + RecordText(0, TYPE_EOF, []) + eol
    decreases |chunks|
  {
    hide RecordText, Text, Host.LinesOf;
    RecordsValid(addr, chunks);
    var rs := Records(addr, chunks);
    if chunks == [] {
      assert rs[1..] == [] && rs[0] in rs;
      TextFirst(rs, eol);
      NoText(eol);
    } else {
      assert chunks[0] in chunks && forall c <- chunks[1..] :: c in chunks;
      SameText(addr + |chunks[0]|, chunks[1..], eol);
      assert rs[1..] == Records(addr + |chunks[0]|, chunks[1..]);
      assert rs[0] in rs;
      TextFirst(rs, eol);
      Reassociate(RecordText(addr, TYPE_DATA, chunks[0]) + eol, DataLines(addr + |chunks[0]|, chunks[1..], eol),
                  RecordText(0, TYPE_EOF, []), eol);
    }
  }

  lemma {:induction false} TextFirst(rs: seq<Host.Record>, eol: string)
    requires rs != [] && rs[0].Valid() && forall x <- rs :: x.Valid()
    ensures forall x <- rs[1..] :: x.Valid()
    ensures Text(Host.LinesOf(rs, eol)) ==
            RecordText(rs[0].addr, rs[0].kind, rs[0].data) + eol + Text(Host.LinesOf(rs[1..], eol))
  {
    hide RecordText;
    assert rs[0] in rs && forall x <- rs[1..] :: x in rs;
    assert Host.LinesOf(rs, eol)[1..] == Host.LinesOf(rs[1..], eol);
  }

  lemma {:induction false} NoText(eol: string)
    ensures Text(Host.LinesOf([], eol)) == []
  {
  }

  lemma {:induction false} Reassociate(a: string, b: string, c: string, d: string)
    ensures a + (b + c + d) == a + b + c + d
  {
  }

  lemma {:induction false} HostLoads(h: Host.Hex, target: Host.Target, img: seq<byte>, chunks: seq<seq<byte>>)
    requires RecordSizes(chunks) && |img| + |Concat(chunks)| <= 65536
    requires h == Host.Hex(Host.Placed(0, img), false, |img|, 0)
    ensures Host.InBounds(h, target, Records(|img|, chunks))
    ensures var all := img + Concat(chunks);
            Host.Overlay(h, target, Records(|img|, chunks)) == Host.Hex(Host.Placed(0, all), true, |all|, 0)
    decreases |chunks|
  {
    hide Host.Placed, Host.Wrapped, Records;
    var rs := Records(|img|, chunks);
    RecordsFirst(|img|, chunks);
    if chunks == [] {
      assert rs[1..] == [] && img + Concat(chunks) == img;
    } else {
      var c := chunks[0];
      assert c in chunks && forall x <- chunks[1..] :: x in chunks;
      PlacedAppend(img, c);
      var h1 := Host.Hex(Host.Placed(0, img + c), false, |img + c|, 0);
      Host.WrappedIsPlaced(|img|, c);
      assert Host.Loaded(h, target, rs[0]) == h1;
      assert rs[1..] == Records(|img + c|, chunks[1..]);
      HostLoads(h1, target, img + c, chunks[1..]);
      assert img + c + Concat(chunks[1..]) == img + Concat(chunks);
    }
  }

  lemma {:induction false} RecordsFirst(addr: nat, chunks: seq<seq<byte>>)
    ensures var rs := Records(addr, chunks);
            && rs != []
            && if chunks == [] then rs == [Host.Record(0, TYPE_EOF, [])]
               else
                 && rs[0] == Host.Record(addr, TYPE_DATA, chunks[0])
                 && rs[1..] == Records(addr + |chunks[0]|, chunks[1..])
  {
  }

  lemma {:induction false} PlacedAppend(a: seq<byte>, b: seq<byte>)
    ensures Host.Placed(0, a) + Host.Placed(|a|, b) == Host.Placed(0, a + b)
  {
  }

  /** Reading such a file with the host loader masks exactly the image's addresses and loads the image there. */
  lemma {:induction false} HostReadsImage(target: Host.Target, chunks: seq<seq<byte>>, eol: string)
    requires RecordSizes(chunks) && |Concat(chunks)| <= 65536
    ensures forall x <- Records(0, chunks) :: x.Valid()
    ensures var img := Concat(chunks);
            Host.ReadLines(Host.EMPTY, target, Host.LinesOf(Records(0, chunks), eol)) ==
            (Host.Hex(Host.Placed(0, img), true, |img|, 0), |img|)
  {
    hide Host.ReadLines, Host.Overlay, Host.LinesOf;
    RecordsValid(0, chunks);
    var img := Concat(chunks);
    assert Host.Placed(0, []) == map[] && [] + img == img;
    HostLoads(Host.EMPTY, target, [], chunks);
    Host.ReadFileLoads(Host.EMPTY, target, Records(0, chunks), eol);
  }

  /**
   On every file of even-length records for consecutive addresses from 0, the flash that the printer
   bootloader leaves equals the image the host loader holds at every address the loader has masked, if
   and only if the image fills a page or is blank.
   */
  lemma {:induction false} ReadersAgree(chip: Chip, f0: Flash, target: Host.Target, chunks: seq<seq<byte>>, eol: string)
    requires chip.Valid() && f0.Fits(chip) && EvenRecords(chunks) && Ignorable(eol)
    requires |Concat(chunks)| <= chip.bootStart && |Concat(chunks)| <= 65536
    ensures forall x <- Records(0, chunks) :: x.Valid()
    ensures var lines := Host.LinesOf(Records(0, chunks), eol);
            var printed := Printed(chip, f0, Text(lines)).f.mem;
            var cells := Host.ReadLines(Host.EMPTY, target, lines).0.cells;
            && (forall i <- cells :: i < |printed|)
            && ((forall i <- cells :: printed[i] == cells[i])
                <==> |Concat(chunks)| >= chip.pageSize || forall b <- Concat(chunks) :: b == ERASED)
  {
    hide Host.ReadLines, Host.LinesOf, Printed, Concat, Records, HexFile;
    var img := Concat(chunks);
    assert RecordSizes(chunks);
    HostReadsImage(target, chunks, eol);
    PrintedText(chip, f0, chunks, eol);
    PrintedImageIff(chip, f0, chunks, eol);
    var mem := Printed(chip, f0, HexFile(chunks, eol)).f.mem;
    var cells := Host.Placed(0, img);
    CellsAgree(mem, img);
  }

  lemma {:induction false} CellsAgree(mem: seq<byte>, img: seq<byte>)
    requires |img| <= |mem|
    ensures (forall i <- Host.Placed(0, img) :: i < |mem|)
    ensures (forall i <- Host.Placed(0, img) :: mem[i] == Host.Placed(0, img)[i]) <==> mem[..|img|] == img
  {
    var cells := Host.Placed(0, img);
    if forall i <- cells :: mem[i] == cells[i] {
      forall i | 0 <= i < |img|
        ensures mem[..|img|][i] == img[i]
      {
        assert i in cells;
      }
    }
    if mem[..|img|] == img {
      forall i | i in cells
        ensures mem[i] == cells[i]
      {
        assert mem[i] == mem[..|img|][i];
      }
    }
  }

  lemma {:induction false} PrintedText(chip: Chip, f0: Flash, chunks: seq<seq<byte>>, eol: string)
    requires chip.Valid() && f0.Fits(chip) && EvenRecords(chunks) && Ignorable(eol)
    requires |Concat(chunks)| <= chip.bootStart && |Concat(chunks)| <= 65536
    ensures forall x <- Records(0, chunks) :: x.Valid()
    ensures Printed(chip, f0, Text(Host.LinesOf(Records(0, chunks), eol))).f.mem ==
            Printed(chip, f0, HexFile(chunks, eol)).f.mem
  {
    hide Print, RecordText;
    assert RecordSizes(chunks);
    SameText(0, chunks, eol);
    var m := Machine(INITIAL, f0);
    PrintConcat(chip, m, HexFile(chunks, eol), eol);
    IgnorableKeepsFlash(chip, Print(chip, m, HexFile(chunks, eol)), eol);
  }

  /** In any state, ignorable characters leave the flash alone. */
  lemma {:induction false} IgnorableKeepsFlash(chip: Chip, m: Machine, s: string)
    requires chip.Valid() && m.f.Fits(chip) && Ignorable(s)
    ensures Print(chip, m, s).f == m.f
    decreases |s|
  {
    hide ByteDone, Apply;
    if s != [] {
      assert s[0] in s && forall c <- s[1..] :: c in s;
      assert Advance(chip, m, s[0]).f == m.f;
      IgnorableKeepsFlash(chip, Advance(chip, m, s[0]), s[1..]);
    }
  }
}
