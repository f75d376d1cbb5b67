/** AVR109 block transfers: what is written to flash and what is read back. */
module CdcBlocks {
  import opened Bits
  import opened FlashMachine
  import opened Endpoint
  import opened Cdc

  // -- The address counter ---------------------------------------------------------------------------------

  lemma {:induction false} SetAddressIs(hi: byte, lo: byte)
    ensures Or(hi * 512, lo * 2) == 2 * LE16(lo, hi)
  {
    hide Or, Rem;
    assert Pow2(9) == 512;
    RemIsModulo(hi * 512, 512);
    OrIsSum(hi * 512, lo * 2, 9);
  }

  lemma {:induction false} HighByteAddress(a: nat, high: bool)
    requires a % 2 == 0
    ensures Or(a, if high then 1 else 0) == a + if high then 1 else 0
  {
    hide Or, Rem;
    assert Pow2(1) == 2;
    RemIsModulo(a, 2);
    OrIsSum(a, if high then 1 else 0, 1);
  }

  lemma {:induction false} NextIs(a: nat)
    requires a + 2 < 0x1_0000_0000
    ensures Next(a) == a + 2
  {
  }

  lemma {:induction false} NextEven(a: nat)
    requires a % 2 == 0
    ensures Next(a) % 2 == 0
  {
  }

  lemma {:induction false} BlocksStayEven(chip: Chip, f: Flash, eeprom: seq<byte>, a: nat, p: OutPipe,
                                          high: bool, low: byte, n: nat)
    requires chip.Valid() && f.Fits(chip) && eeprom != [] && a % 2 == 0
    ensures ReadFlash(chip, f, a, high, n).1 % 2 == 0 && ReadEeprom(eeprom, a, n).1 % 2 == 0
    ensures WriteFlash(chip, f, a, p, high, low, n).1 % 2 == 0 && WriteEeprom(eeprom, a, p, n).1 % 2 == 0
    decreases n
  {
    hide Fetch, Apply, Or, Next, Rem;
    if n > 0 {
      NextEven(a);
      var (b, p1) := Fetch(p);
      var f1 := if high then Apply(chip, f, Fill(a, LE16(low, b))) else f;
      var e1 := eeprom[EepromIndex(eeprom, a / 2 % 0x1_0000) := b];
      BlocksStayEven(chip, f, eeprom, if high then Next(a) else a, p1, !high, if high then low else b, n - 1);
      BlocksStayEven(chip, f1, e1, if high then Next(a) else a, p1, !high, if high then low else b, n - 1);
      BlocksStayEven(chip, f, eeprom, Next(a), p1, high, low, n - 1);
      BlocksStayEven(chip, f, e1, Next(a), p1, high, low, n - 1);
    }
  }

  /** The address counter is even after every command, whatever the host sends. */
  lemma {:induction false} AddressStaysEven(cfg: Config, d: Cdc, p: OutPipe)
    requires cfg.Valid() && d.Fits(cfg) && d.currAddr % 2 == 0
    ensures Task(cfg, d, p).0.currAddr % 2 == 0
  {
    hide Fetch, Apply, Or, Next, Rem, ReadFlash, ReadEeprom, WriteFlash, WriteEeprom, EraseFrom, FlashByte, EmitAll;
    NextEven(d.currAddr);
    var (command, p1) := Fetch(p);
    var (b1, p2) := Fetch(p1);
    var (b2, p3) := Fetch(p2);
    var (b3, p4) := Fetch(p3);
    SetAddressIs(b1, b2);
    BlocksStayEven(cfg.chip, d.f, d.eeprom, d.currAddr, p4, false, 0, LE16(b2, b1));
    BlocksStayEven(cfg.chip, Apply(cfg.chip, d.f, Erase(d.currAddr)), d.eeprom, d.currAddr, p4, false, 0, LE16(b2, b1));
  }

  /** A run of commands. */
  function RunTasks(cfg: Config, d: Cdc, ps: seq<OutPipe>): (r: Cdc)
    requires cfg.Valid() && d.Fits(cfg)
    ensures r.Fits(cfg)
    decreases |ps|
  {
    if ps == [] then d else RunTasks(cfg, Task(cfg, d, ps[0]).0, ps[1..])
  }

  lemma {:induction false} AddressAlwaysEven(cfg: Config, d: Cdc, ps: seq<OutPipe>)
    requires cfg.Valid() && d.Fits(cfg) && d.currAddr % 2 == 0
    ensures RunTasks(cfg, d, ps).currAddr % 2 == 0
    decreases |ps|
  {
    hide Task;
    if ps != [] {
      AddressStaysEven(cfg, d, ps[0]);
      AddressAlwaysEven(cfg, Task(cfg, d, ps[0]).0, ps[1..]);
    }
  }

  // -- The boot section --------------------------------------------------------------------------------------

  lemma {:induction false} WriteFlashKeepsBoot(chip: Chip, f: Flash, a: nat, p: OutPipe, high: bool, low: byte, n: nat)
    requires chip.Valid() && f.Fits(chip)
    ensures WriteFlash(chip, f, a, p, high, low, n).0.mem[chip.bootStart..] == f.mem[chip.bootStart..]
    decreases n
  {
    hide Fetch, Apply, Next, Rem;
    if n > 0 {
      var (b, p1) := Fetch(p);
      if high {
        ApplyKeepsBoot(chip, f, Fill(a, LE16(low, b)));
        WriteFlashKeepsBoot(chip, Apply(chip, f, Fill(a, LE16(low, b))), Next(a), p1, false, low, n - 1);
      } else {
        WriteFlashKeepsBoot(chip, f, a, p1, true, b, n - 1);
      }
    }
  }

  lemma {:induction false} BlockKeepsBoot(cfg: Config, d: Cdc, command: byte, p: OutPipe)
    requires cfg.Valid() && d.Fits(cfg)
    ensures MemoryBlock(cfg, d, command, p).0.f.mem[cfg.chip.bootStart..] == d.f.mem[cfg.chip.bootStart..]
  {
    hide Fetch, Apply, Next, Rem, ReadFlash, ReadEeprom, WriteFlash, WriteEeprom;
    var (hi, p1) := Fetch(p);
    var (lo, p2) := Fetch(p1);
    var (_, p3) := Fetch(p2);
    var f0 := Apply(cfg.chip, d.f, Erase(d.currAddr));
    var f1 := WriteFlash(cfg.chip, f0, d.currAddr, p3, false, 0, LE16(lo, hi)).0;
    ApplyKeepsBoot(cfg.chip, d.f, Erase(d.currAddr));
    WriteFlashKeepsBoot(cfg.chip, f0, d.currAddr, p3, false, 0, LE16(lo, hi));
    ApplyKeepsBoot(cfg.chip, f1, Write(d.currAddr));
  }

  lemma {:induction false} TaskKeepsBoot(cfg: Config, d: Cdc, p: OutPipe)
    requires cfg.Valid() && d.Fits(cfg)
    ensures Task(cfg, d, p).0.f.mem[cfg.chip.bootStart..] == d.f.mem[cfg.chip.bootStart..]
  {
    hide Fetch, Apply, Or, Next, Rem, MemoryBlock, EraseFrom, FlashByte, EmitAll;
    var (command, p1) := Fetch(p);
    BlockKeepsBoot(cfg, d, command, p1);
    EraseAll(cfg.chip, d.f);
    var b := Fetch(p1).0;
    ApplyKeepsBoot(cfg.chip, d.f, Fill(d.currAddr, b));
    ApplyKeepsBoot(cfg.chip, d.f, Fill(Or(d.currAddr, 1), b));
    ApplyKeepsBoot(cfg.chip, d.f, Write(d.currAddr));
  }

  /** Whatever commands arrive, in whatever packets, the boot section keeps its contents. */
  lemma {:induction false} RunKeepsBoot(cfg: Config, d: Cdc, ps: seq<OutPipe>)
    requires cfg.Valid() && d.Fits(cfg)
    ensures RunTasks(cfg, d, ps).f.mem[cfg.chip.bootStart..] == d.f.mem[cfg.chip.bootStart..]
    decreases |ps|
  {
    hide Task;
    if ps != [] {
      TaskKeepsBoot(cfg, d, ps[0]);
      RunKeepsBoot(cfg, Task(cfg, d, ps[0]).0, ps[1..]);
    }
  }

  // -- Block transfers -----------------------------------------------------------------------------------------

  lemma {:induction false} SliceHead(s: seq<byte>, at: nat, n: nat)
    requires n > 0 && at + n <= |s|
    ensures s[at..at + n] == [s[at]] + s[at + 1..at + n]
  {
  }

  /** With an even counter, the read loop walks consecutive bytes. */
  lemma {:induction false} ReadFlashIs(chip: Chip, f: Flash, a: nat, high: bool, n: nat)
    requires chip.Valid() && f.Fits(chip) && a % 2 == 0
    requires a + (if high then 1 else 0) + n <= chip.flashSize
    ensures var at := a + if high then 1 else 0;
            ReadFlash(chip, f, a, high, n).0 == f.mem[at..at + n]
    decreases n
  {
    hide Or, FlashByte, Rem, Next;
    if n > 0 {
      var at := a + if high then 1 else 0;
      HighByteAddress(a, high);
      FlashByteIs(chip, f, at);
      NextIs(a);
      ReadFlashIs(chip, f, if high then Next(a) else a, !high, n - 1);
      SliceHead(f.mem, at, n);
    }
  }

  /** One turn of the write loop over a whole word, whatever the packets. */
  lemma {:induction false} WriteFlashWord(chip: Chip, f: Flash, a: nat, p: OutPipe, low: byte, n: nat)
    requires chip.Valid() && f.Fits(chip) && n >= 2 && |Rest(p)| >= 2
    ensures var q := Fetch(Fetch(p).1).1;
            var data := Rest(p);
            && Rest(q) == data[2..]
            && WriteFlash(chip, f, a, p, false, low, n) ==
               WriteFlash(chip, Apply(chip, f, Fill(a, LE16(data[0], data[1]))), Next(a), q, false, data[0], n - 2)
  {
    hide Fetch, Apply, Next, Rem;
    var (lo, p1) := Fetch(p);
    FetchNext(p);
    FetchNext(p1);
    var (hi, q) := Fetch(p1);
    assert Rest(p)[1..][0] == Rest(p)[1] && Rest(p)[1..][1..] == Rest(p)[2..];
    assert WriteFlash(chip, f, a, p1, true, lo, n - 1) ==
           WriteFlash(chip, Apply(chip, f, Fill(a, LE16(lo, hi))), Next(a), q, false, lo, n - 2);
  }

  /**
   The page buffer after the whole words of a stream have been filled in from address a on, however long the stream is.
   */
  function Fold(chip: Chip, buf: seq<byte>, a: nat, data: seq<byte>): (r: seq<byte>)
    requires chip.Valid() && |buf| == chip.pageSize
    ensures |r| == chip.pageSize
    decreases |data|
  {
    if |data| < 2 then buf else Fold(chip, Put(chip, buf, a, data[0], data[1]), a + 2, data[2..])
  }

  /** One word in the buffer. */
  function Put(chip: Chip, buf: seq<byte>, a: nat, lo: byte, hi: byte): (r: seq<byte>)
    requires chip.Valid() && |buf| == chip.pageSize
    ensures |r| == chip.pageSize
  {
    var i := Rem(a, chip.pageSize) / 2 * 2;
    buf[i := lo][i + 1 := hi]
  }

  lemma {:induction false} FillPuts(chip: Chip, f: Flash, a: nat, lo: byte, hi: byte)
    requires chip.Valid() && f.Fits(chip)
    ensures Apply(chip, f, Fill(a, LE16(lo, hi))) == f.(buf := Put(chip, f.buf, a, lo, hi))
  {
    hide Rem;
    assert LE16(lo, hi) % 256 == lo && LE16(lo, hi) / 256 == hi;
  }

  /** The write loop puts the whole words of the stream in the page buffer; an odd last byte is fetched and dropped. */
  lemma {:induction false} WriteFlashFolds(chip: Chip, f: Flash, a: nat, p: OutPipe, low: byte, n: nat)
    requires chip.Valid() && f.Fits(chip) && n <= |Rest(p)| && a + n < 0x1_0000_0000
    ensures WriteFlash(chip, f, a, p, false, low, n).0 == f.(buf := Fold(chip, f.buf, a, Rest(p)[..n]))
    decreases n
  {
    hide Fetch, Apply, WriteFlash, Rest, Next, LE16, Put;
    var data := Rest(p);
    if n >= 2 {
      NextIs(a);
      WriteFlashWord(chip, f, a, p, low, n);
      FillPuts(chip, f, a, data[0], data[1]);
      var f1 := Apply(chip, f, Fill(a, LE16(data[0], data[1])));
      var q := Fetch(Fetch(p).1).1;
      WriteFlashFolds(chip, f1, a + 2, q, data[0], n - 2);
      assert data[..n][2..] == data[2..][..n - 2];
    } else {
      WriteFlashShort(chip, f, a, p, low, n);
    }
  }

  // -- What a stream leaves in the buffer ----------------------------------------------------------------------

  lemma {:induction false} FoldLastWord(chip: Chip, buf: seq<byte>, a: nat, data: seq<byte>, lo: byte, hi: byte)
    requires chip.Valid() && |buf| == chip.pageSize && |data| % 2 == 0
    ensures Fold(chip, buf, a, data + [lo, hi]) == Put(chip, Fold(chip, buf, a, data), a + |data|, lo, hi)
    decreases |data|
  {
    hide Put;
    var all := data + [lo, hi];
    if data == [] {
      assert all[2..] == [] && all[0] == lo && all[1] == hi;
      assert Fold(chip, Put(chip, buf, a, lo, hi), a + 2, []) == Put(chip, buf, a, lo, hi);
    } else {
      assert all[2..] == data[2..] + [lo, hi] && all[0] == data[0] && all[1] == data[1];
      FoldLastWord(chip, Put(chip, buf, a, data[0], data[1]), a + 2, data[2..], lo, hi);
    }
  }

  /**
   Byte k of a stream is in the buffer, unless a later one fell on its place; places that were not reached are as
   before.
   */
  ghost predicate Folded(chip: Chip, buf: seq<byte>, data: seq<byte>, r: seq<byte>)
    requires chip.Valid() && |buf| == |r| == chip.pageSize
  {
    && (forall k :: 0 <= k < |data| < k + 1 + chip.pageSize ==> r[Rem(k, chip.pageSize)] == data[k])
    && (forall i :: |data| <= i < chip.pageSize ==> r[i] == buf[i])
  }

  lemma {:induction false} PutFolds(chip: Chip, buf: seq<byte>, a: nat, data: seq<byte>, r: seq<byte>, lo: byte,
                                    hi: byte)
    requires chip.Valid() && |buf| == |r| == chip.pageSize && Rem(a, chip.pageSize) == 0 && |data| % 2 == 0
    requires Folded(chip, buf, data, r)
    ensures Folded(chip, buf, data + [lo, hi], Put(chip, r, a + |data|, lo, hi))
  {
    hide Rem;
    var p, n, all := chip.pageSize, |data|, data + [lo, hi];
    var q := Put(chip, r, a + n, lo, hi);
    RemSum(a, n, p);
    RemNextWord(n, p);
    var t := Rem(n, p);
    RemOdd(n, p);
    assert q == r[t := lo][t + 1 := hi];
    forall k | 0 <= k < |all| < k + 1 + p
      ensures q[Rem(k, p)] == all[k]
    {
      if k < n {
        RemDiffers(k, n, p);
        RemDiffers(k, n + 1, p);
        assert r[Rem(k, p)] == data[k];
      }
    }
    forall i | |all| <= i < p
      ensures q[i] == buf[i]
    {
      RemSmall(n, p);
    }
  }

  lemma {:induction false} RemOdd(n: nat, m: nat)
    requires m > 0 && m % 2 == 0 && n % 2 == 0
    ensures Rem(n + 1, m) == Rem(n, m) + 1
  {
    RemNextWord(n, m);
    RemBase(n, m);
    RemSum(n - Rem(n, m), Rem(n, m) + 1, m);
    RemSmall(Rem(n, m) + 1, m);
  }

  lemma {:induction false} FoldIs(chip: Chip, buf: seq<byte>, a: nat, data: seq<byte>)
    requires chip.Valid() && |buf| == chip.pageSize && Rem(a, chip.pageSize) == 0 && |data| % 2 == 0
    ensures Folded(chip, buf, data, Fold(chip, buf, a, data))
    decreases |data|
  {
    hide Rem, Put, Fold, Folded;
    if data == [] {
      FoldsNothing(chip, buf, a);
    } else {
      var n := |data| - 2;
      var most, lo, hi := data[..n], data[n], data[n + 1];
      assert data == most + [lo, hi];
      FoldIs(chip, buf, a, most);
      FoldLastWord(chip, buf, a, most, lo, hi);
      PutFolds(chip, buf, a, most, Fold(chip, buf, a, most), lo, hi);
    }
  }

  lemma {:induction false} FoldsNothing(chip: Chip, buf: seq<byte>, a: nat)
    requires chip.Valid() && |buf| == chip.pageSize
    ensures Fold(chip, buf, a, []) == buf && Folded(chip, buf, [], buf)
  {
  }

  lemma {:induction false} FoldWords(chip: Chip, buf: seq<byte>, a: nat, data: seq<byte>)
    requires chip.Valid() && |buf| == chip.pageSize
    ensures Fold(chip, buf, a, data) == Fold(chip, buf, a, data[..|data| - |data| % 2])
    decreases |data|
  {
    hide Put;
    var whole := data[..|data| - |data| % 2];
    if |data| >= 2 {
      FoldWords(chip, Put(chip, buf, a, data[0], data[1]), a + 2, data[2..]);
      assert whole[2..] == data[2..][..|data| - 2 - (|data| - 2) % 2];
    }
  }

  /** A stream that fits the page leaves it as it is sent, but for an odd last byte. */
  lemma {:induction false} FoldFits(chip: Chip, a: nat, data: seq<byte>)
    requires chip.Valid() && Rem(a, chip.pageSize) == 0 && |data| <= chip.pageSize
    ensures Fold(chip, Blank(chip.pageSize), a, data) == Page(chip, data[..|data| - |data| % 2])
  {
    hide Rem, Fold;
    var p, blank, whole := chip.pageSize, Blank(chip.pageSize), data[..|data| - |data| % 2];
    FoldWords(chip, blank, a, data);
    FoldIs(chip, blank, a, whole);
    var r := Fold(chip, blank, a, whole);
    forall i | 0 <= i < p
      ensures r[i] == Page(chip, whole)[i]
    {
      if i < |whole| {
        RemSmall(i, p);
        assert r[Rem(i, p)] == whole[i];
      }
    }
  }

  lemma {:induction false} WriteFlashShort(chip: Chip, f: Flash, a: nat, p: OutPipe, low: byte, n: nat)
    requires chip.Valid() && f.Fits(chip) && n < 2
    ensures WriteFlash(chip, f, a, p, false, low, n).0 == f
  {
    hide Fetch, Apply, Rem;
    if n == 1 {
      var (b, p1) := Fetch(p);
      assert WriteFlash(chip, f, a, p1, true, b, 0).0 == f;
    }
  }

  // -- Whole commands ------------------------------------------------------------------------------------------

  /** The byte streams of the three commands, as a host sends them. */
  function SetAddress(a: nat): (c: seq<byte>)
    requires a < 0x2_0000
  {
    ['A' as int, a / 2 / 256, a / 2 % 256]
  }

  function BlockCommand(letter: char, n: nat): (c: seq<byte>)
    requires n < 0x1_0000 && letter as int < 256
  {
    [letter as int, n / 256, n % 256, MEMORY_FLASH]
  }

  /** Fetching four times takes the first four bytes of the stream. */
  lemma {:induction false} FetchFour(p: OutPipe)
    requires |Rest(p)| >= 4
    ensures var (b0, p0) := Fetch(p);
            var (b1, p1) := Fetch(p0);
            var (b2, p2) := Fetch(p1);
            var (b3, p3) := Fetch(p2);
            var s := Rest(p);
            b0 == s[0] && b1 == s[1] && b2 == s[2] && b3 == s[3] && Rest(p3) == s[4..]
  {
    hide Fetch, Rest;
    var s := Rest(p);
    var p0 := Fetch(p).1;
    FetchNext(p);
    FetchNext(p0);
    var p1 := Fetch(p0).1;
    assert Rest(p1) == s[2..];
    FetchNext(p1);
    var p2 := Fetch(p1).1;
    assert Rest(p2) == s[3..];
    FetchNext(p2);
    assert s[3..][1..] == s[4..];
  }

  lemma {:induction false} AddressBytes(a: nat)
    requires a < 0x2_0000 && a % 2 == 0
    ensures 2 * LE16(a / 2 % 256, a / 2 / 256) == a
  {
    var w := a / 2;
    assert a == 2 * w;
  }

  lemma {:induction false} SetAddressTask(cfg: Config, d: Cdc, p: OutPipe, a: nat)
    requires cfg.Valid() && d.Fits(cfg) && a < 0x2_0000 && a % 2 == 0
    requires Rest(p) == SetAddress(a)
    ensures Task(cfg, d, p).0 == d.(currAddr := a)
  {
    hide Fetch, Rest, Or, EmitAll, Apply, Next, MemoryBlock, EraseFrom, FlashByte, EepromIndex, LE16;
    var (_, p1) := Fetch(p);
    FetchNext(p);
    FetchNext(p1);
    var (hi, p2) := Fetch(p1);
    FetchNext(p2);
    var lo := Fetch(p2).0;
    assert hi == a / 2 / 256 && lo == a / 2 % 256;
    SetAddressIs(hi, lo);
    AddressBytes(a);
  }

  /** What a block write leaves in flash: the page at the address counter, if there is one that may be written. */
  function Written(chip: Chip, mem: seq<byte>, a: nat, data: seq<byte>): (r: seq<byte>)
    requires chip.Valid() && |mem| == chip.flashSize
    ensures |r| == |mem|
  {
    if Rem(a, chip.pageSize) == 0 && a < chip.bootStart then
      RemGap(a, chip.bootStart, chip.pageSize);
      Overwrite(mem, a, Fold(chip, Blank(chip.pageSize), a, data))
    else mem
  }

  lemma {:induction false} WrittenIs(chip: Chip, f: Flash, a: nat, data: seq<byte>)
    requires chip.Valid() && f.Fits(chip)
    ensures var f0 := Apply(chip, f, Erase(a));
            Apply(chip, f0.(buf := Fold(chip, f0.buf, a, data)), Write(a)).mem == Written(chip, f.mem, a, data)
  {
    hide Apply, Rem, Fold, Overwrite, Blank;
    if Rem(a, chip.pageSize) == 0 && a < chip.bootStart {
      EraseIs(chip, f, a);
      var f0 := Apply(chip, f, Erase(a));
      var buf := Fold(chip, Blank(chip.pageSize), a, data);
      WriteIs(chip, f0.(buf := buf), a);
      OverwriteTwice(f.mem, a, Blank(chip.pageSize), buf);
    } else {
      Refused(chip, f, a);
      Refused(chip, f.(buf := Fold(chip, f.buf, a, data)), a);
    }
  }

  lemma {:induction false} OverwriteTwice(mem: seq<byte>, a: nat, x: seq<byte>, y: seq<byte>)
    requires |x| == |y| && a + |x| <= |mem|
    ensures Overwrite(Overwrite(mem, a, x), a, y) == Overwrite(mem, a, y)
  {
  }

  /** What a block-write command does, for every address and every block size. */
  lemma {:induction false} WriteBlockTask(cfg: Config, d: Cdc, p: OutPipe, data: seq<byte>)
    requires cfg.Valid() && d.Fits(cfg) && |data| < 0x1_0000 && d.currAddr < 0x1000_0000
    requires Rest(p) == BlockCommand('B', |data|) + data
    ensures var d1 := Task(cfg, d, p).0;
            d1.f.mem == Written(cfg.chip, d.f.mem, d.currAddr, data) && d1.eeprom == d.eeprom
  {
    hide Fetch, Rest, Or, Apply, WriteFlash, WriteEeprom, ReadFlash, ReadEeprom, EmitAll, Written, Fold;
    var chip, a, n := cfg.chip, d.currAddr, |data|;
    FetchFour(p);
    var p3 := Fetch(Fetch(Fetch(Fetch(p).1).1).1).1;
    assert Rest(p)[4..] == data;
    WriteFlashFolds(chip, Apply(chip, d.f, Erase(a)), a, p3, 0, n);
    assert data[..n] == data;
    WrittenIs(chip, d.f, a, data);
    assert LE16(n % 256, n / 256) == n;
  }

  lemma {:induction false} ReadBlockTask(cfg: Config, d: Cdc, p: OutPipe, n: nat)
    requires cfg.Valid() && d.Fits(cfg) && d.currAddr % 2 == 0 && n < 0x1_0000
    requires d.currAddr + n <= cfg.chip.flashSize && Rest(p) == BlockCommand('g', n)
    ensures var (d1, sent) := Task(cfg, d, p);
            Concat(sent) == d.f.mem[d.currAddr..d.currAddr + n] && d1.f == d.f
  {
    hide Fetch, Rest, Or, WriteFlash, WriteEeprom, ReadFlash, ReadEeprom, Rem, EmitAll, Finish, Concat;
    FetchFour(p);
    assert LE16(n % 256, n / 256) == n;
    ReadFlashIs(cfg.chip, d.f, d.currAddr, false, n);
    ResponseFraming(ReadFlash(cfg.chip, d.f, d.currAddr, false, n).0);
  }

  /** When flash holds a block after it has been written to it. */
  ghost predicate Holds(chip: Chip, mem: seq<byte>, a: nat, data: seq<byte>)
    requires chip.Valid() && |mem| == chip.flashSize && a + |data| <= |mem|
  {
    var p, n := chip.pageSize, |data|;
    if Rem(a, p) != 0 || a >= chip.bootStart then mem[a..a + n] == data
    else if n <= p then n % 2 == 0 || data[n - 1] == ERASED
    else data[..p] == Fold(chip, Blank(p), a, data) && data[p..] == mem[a + p..a + n]
  }

  /**
   Set the address, write a block, set the address again and read the block, over any packets. At a page of the
   application section the host reads back a block of at most a page if and only if it has no odd last byte that
   differs from erased flash. Of a longer block only the page is written, each byte of it the last one that falls
   there. Anywhere else nothing is written.
   */
  lemma {:induction false} BlockRoundTrip(cfg: Config, d: Cdc, a: nat, data: seq<byte>, p: seq<OutPipe>)
    requires cfg.Valid() && d.Fits(cfg) && a % 2 == 0 && a < 0x2_0000
    requires |data| < 0x1_0000 && a + |data| <= cfg.chip.flashSize && |p| == 4
    requires Rest(p[0]) == SetAddress(a) && Rest(p[1]) == BlockCommand('B', |data|) + data
    requires Rest(p[2]) == SetAddress(a) && Rest(p[3]) == BlockCommand('g', |data|)
    ensures var d3 := RunTasks(cfg, d, p[..3]);
            var (d4, sent) := Task(cfg, d3, p[3]);
            && d4.f.mem == Written(cfg.chip, d.f.mem, a, data)
            && Concat(sent) == Written(cfg.chip, d.f.mem, a, data)[a..a + |data|]
            && (Concat(sent) == data <==> Holds(cfg.chip, d.f.mem, a, data))
  {
    hide Task, Rest, Rem, Concat, Written, Holds;
    SetAddressTask(cfg, d, p[0], a);
    var d1 := Task(cfg, d, p[0]).0;
    WriteBlockTask(cfg, d1, p[1], data);
    var d2 := Task(cfg, d1, p[1]).0;
    SetAddressTask(cfg, d2, p[2], a);
    var d3 := Task(cfg, d2, p[2]).0;
    RunThree(cfg, d, p[..3]);
    ReadBlockTask(cfg, d3, p[3], |data|);
    WrittenIff(cfg.chip, d.f.mem, a, data);
  }

  lemma {:induction false} WrittenIff(chip: Chip, mem: seq<byte>, a: nat, data: seq<byte>)
    requires chip.Valid() && |mem| == chip.flashSize && a + |data| <= |mem|
    ensures Written(chip, mem, a, data)[a..a + |data|] == data <==> Holds(chip, mem, a, data)
  {
    hide Rem, Fold, Overwrite;
    var p, n := chip.pageSize, |data|;
    if Rem(a, p) == 0 && a < chip.bootStart {
      RemGap(a, chip.bootStart, p);
      if n <= p {
        FoldFits(chip, a, data);
        WrittenPage(chip, mem, a, data);
      } else {
        LongBlock(mem, a, Fold(chip, Blank(p), a, data), data);
      }
    }
  }

  lemma {:induction false} LongBlock(mem: seq<byte>, a: nat, page: seq<byte>, data: seq<byte>)
    requires |page| < |data| && a + |data| <= |mem|
    ensures Overwrite(mem, a, page)[a..a + |data|] == data <==>
            data[..|page|] == page && data[|page|..] == mem[a + |page|..a + |data|]
  {
    var p, n := |page|, |data|;
    var got := Overwrite(mem, a, page)[a..a + n];
    assert got == page + mem[a + p..a + n];
    assert data == data[..p] + data[p..];
  }

  lemma {:induction false} RunThree(cfg: Config, d: Cdc, p: seq<OutPipe>)
    requires cfg.Valid() && d.Fits(cfg) && |p| == 3
    ensures RunTasks(cfg, d, p) == Task(cfg, Task(cfg, Task(cfg, d, p[0]).0, p[1]).0, p[2]).0
  {
    hide Task;
    assert p[1..][1..] == [p[2]] && [p[2]][1..] == [];
    var d2 := Task(cfg, Task(cfg, d, p[0]).0, p[1]).0;
    assert RunTasks(cfg, d2, [p[2]]) == RunTasks(cfg, Task(cfg, d2, p[2]).0, []);
    assert RunTasks(cfg, d, p) == RunTasks(cfg, Task(cfg, d, p[0]).0, p[1..]);
  }

  lemma {:induction false} WrittenPage(chip: Chip, mem: seq<byte>, a: nat, data: seq<byte>)
    requires |data| <= chip.pageSize && a + chip.pageSize <= |mem|
    ensures var n := |data|;
            Overwrite(mem, a, Page(chip, data[..n - n % 2]))[a..a + n] == data <==> n % 2 == 0 || data[n - 1] == ERASED
  {
    hide Page;
    var n := |data|;
    var page := Page(chip, data[..n - n % 2]);
    var got := Overwrite(mem, a, page)[a..a + n];
    assert |got| == n;
    forall i | 0 <= i < n
      ensures got[i] == if i < n - n % 2 then data[i] else ERASED
    {
      PageByte(chip, data[..n - n % 2], i);
      assert got[i] == page[i];
    }
    if n % 2 == 1 {
      assert got[n - 1] == ERASED;
    }
    if n % 2 == 0 || data[n - 1] == ERASED {
      assert forall i :: 0 <= i < n ==> got[i] == data[i];
    }
  }

  lemma {:induction false} PageByte(chip: Chip, data: seq<byte>, i: nat)
    requires |data| <= chip.pageSize && i < chip.pageSize
    ensures Page(chip, data)[i] == if i < |data| then data[i] else ERASED
  {
  }
}
