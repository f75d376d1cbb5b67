/**
 The self-programming flash of a USB AVR, and the guarded page operations of BootloaderAPI.c
 that every bootloader drives it with.

 The page machine itself (erase, fill, write, RWW enable) is hardware; its rules are an
 assumption of this model. The guard around it is the source's own code.
 */
module FlashMachine {
  import opened Bits

  const ERASED: byte := 0xFF

  /** Build-time constants: SPM_PAGESIZE, BOOT_START_ADDR and FLASHEND + 1. */
  datatype Chip = Chip(pageSize: nat, bootStart: nat, flashSize: nat) {

    ghost predicate Valid() {
      && 2 <= pageSize <= 512 && pageSize % 2 == 0
      && PowerOfTwo(pageSize)
      && 0 < bootStart < flashSize <= 0x100_0000
      && Rem(bootStart, pageSize) == 0
      && Rem(flashSize, pageSize) == 0
    }

    /** FLASHEND > 0xFFFF: addresses then take 32 bits instead of 16. */
    predicate Far() {
      flashSize > 0x1_0000
    }
  }

  /** Number of values of a flash address in the source: flashaddr_t is 32 or 16 bits wide. */
  function AddressSpace(chip: Chip): nat {
    if chip.Far() then 0x1_0000_0000 else 0x1_0000
  }

  lemma {:induction false} PageSizes(chip: Chip)
    requires chip.Valid()
    ensures chip.pageSize <= 256 || chip.pageSize == 512
  {
    var k: nat :| chip.pageSize == Pow2(k);
    assert Pow2(8) == 256 && Pow2(9) == 512 && Pow2(10) == 1024;
    if k <= 8 {
      Pow2Mono(k, 8);
    } else if k >= 10 {
      Pow2Mono(10, k);
    }
  }

  /** Flash contents and the one-page temporary buffer. */
  datatype Flash = Flash(mem: seq<byte>, buf: seq<byte>) {
    ghost predicate Fits(chip: Chip) {
      && |mem| == chip.flashSize
      && |buf| == chip.pageSize
    }
  }

  lemma {:induction false} AddressFits(chip: Chip, a: nat)
    requires chip.Valid() && (a <= chip.bootStart || a < 65536)
    ensures a < AddressSpace(chip) && a % AddressSpace(chip) == a
  {
  }

  ghost predicate PowerOfTwo(n: nat) {
    exists k: nat :: n == Pow2(k)
  }

  function Blank(n: nat): (s: seq<byte>)
    ensures |s| == n
    ensures forall i :: 0 <= i < n ==> s[i] == ERASED
  {
    if n == 0 then [] else Blank(n - 1) + [ERASED]
  }

  /** The memory in which `data` replaces what was at `at`. */
  function Overwrite(mem: seq<byte>, at: nat, data: seq<byte>): (r: seq<byte>)
    requires at + |data| <= |mem|
    ensures |r| == |mem|
    ensures forall i {:trigger r[i]} :: 0 <= i < |mem| ==>
            r[i] == if at <= i < at + |data| then data[i - at] else mem[i]
    decreases |data|
  {
    if data == [] then mem else Overwrite(mem[at := data[0]], at + 1, data[1..])
  }

  /** Overwriting the same stretch again leaves the later data; overwriting what follows appends it. */
  lemma {:induction false} OverwriteAgain(mem: seq<byte>, at: nat, a: seq<byte>, x: seq<byte>, b: seq<byte>)
    requires |x| <= |b| && at + |a| + |b| <= |mem|
    ensures Overwrite(Overwrite(Overwrite(mem, at, a), at + |a|, x), at + |a|, b) == Overwrite(mem, at, a + b)
  {
  }

  /** One page that holds `data` and is erased after it. */
  function Page(chip: Chip, data: seq<byte>): (r: seq<byte>)
    requires |data| <= chip.pageSize
    ensures |r| == chip.pageSize
  {
    Overwrite(Blank(chip.pageSize), 0, data)
  }

  lemma {:induction false} PageGrows(chip: Chip, data: seq<byte>, lo: byte, hi: byte)
    requires |data| + 2 <= chip.pageSize
    ensures Page(chip, data)[|data| := lo][|data| + 1 := hi] == Page(chip, data + [lo, hi])
    ensures Page(chip, []) == Blank(chip.pageSize)
  {
  }

  lemma {:induction false} FullPage(chip: Chip, data: seq<byte>)
    requires |data| == chip.pageSize
    ensures Page(chip, data) == data
  {
  }

  function PageBase(chip: Chip, a: nat): (r: nat)
    requires chip.pageSize > 0
  {
    a - Rem(a, chip.pageSize)
  }

  // -- Hardware page operations --------------------------------------------------------------

  function PageErase(chip: Chip, f: Flash, a: nat): (r: Flash)
    requires f.Fits(chip) && a + chip.pageSize <= chip.flashSize
    ensures r.Fits(chip)
  {
    f.(mem := Overwrite(f.mem, a, Blank(chip.pageSize)))
  }

  /** Bit 0 of a fill address is not decoded: a fill always sets one whole buffer word. */
  function PageFill(chip: Chip, f: Flash, a: nat, w: word): (r: Flash)
    requires f.Fits(chip) && chip.pageSize >= 2 && chip.pageSize % 2 == 0
    ensures r.Fits(chip)
  {
    var i := Rem(a, chip.pageSize) / 2 * 2;
    f.(buf := f.buf[i := w % 256][i + 1 := w / 256])
  }

  function RwwEnable(chip: Chip, f: Flash): (r: Flash)
    requires f.Fits(chip)
    ensures r.Fits(chip)
  {
    f.(buf := Blank(chip.pageSize))
  }

  function AndAll(x: seq<byte>, y: seq<byte>): (r: seq<byte>)
    requires |x| == |y|
    ensures |r| == |x|
    ensures forall i :: 0 <= i < |r| ==> r[i] == And(x[i], y[i])
  {
    if x == [] then [] else [And(x[0], y[0])] + AndAll(x[1..], y[1..])
  }

  /** Programming can only clear bits. */
  function PageWrite(chip: Chip, f: Flash, a: nat): (r: Flash)
    requires f.Fits(chip) && a + chip.pageSize <= chip.flashSize
    ensures r.Fits(chip)
  {
    var page := AndAll(f.mem[a..a + chip.pageSize], f.buf);
    RwwEnable(chip, f.(mem := Overwrite(f.mem, a, page)))
  }

  /** pgm_read_byte, which on small devices decodes 16 address bits; cells beyond the array read as erased. */
  function FlashByte(chip: Chip, f: Flash, a: nat): (b: byte) {
    var i := if chip.Far() then a else a % 0x1_0000;
    if i < |f.mem| then f.mem[i] else ERASED
  }

  lemma {:induction false} FlashByteIs(chip: Chip, f: Flash, a: nat)
    requires chip.Valid() && f.Fits(chip) && a < chip.flashSize
    ensures FlashByte(chip, f, a) == f.mem[a]
  {
  }

  /** The EEPROM cell an address selects: address bits beyond its size are not decoded. */
  function EepromIndex(eeprom: seq<byte>, a: nat): (i: nat)
    requires eeprom != []
    ensures i < |eeprom|
  {
    Rem(a, |eeprom|)
  }

  /** The cell of byte k of a transfer from EEPROM address `a` on. */
  function EepromCell(size: nat, a: nat, k: nat): (i: nat)
    requires size > 0
    ensures i < size
  {
    Rem(a + k, size)
  }

  /** A transfer of n bytes reaches cell j. */
  ghost predicate Reaches(size: nat, a: nat, n: nat, j: nat)
    requires size > 0
  {
    exists k :: 0 <= k < n && EepromCell(size, a, k) == j
  }

  /**
   An EEPROM after bytes have been written to it from address `a` on: each cell that was reached holds the last byte
   that fell on it, every other one what it held before.
   */
  ghost predicate Laid(before: seq<byte>, after: seq<byte>, a: nat, data: seq<byte>)
    requires before != []
  {
    && |after| == |before|
    && (forall k :: 0 <= k < |data| < k + 1 + |before| ==> after[EepromCell(|before|, a, k)] == data[k])
    && (forall j :: 0 <= j < |before| && !Reaches(|before|, a, |data|, j) ==> after[j] == before[j])
  }

  lemma {:induction false} NothingLaid(before: seq<byte>, a: nat)
    requires before != []
    ensures Laid(before, before, a, [])
  {
  }

  lemma {:induction false} LaidGrows(before: seq<byte>, after: seq<byte>, a: nat, data: seq<byte>, b: byte)
    requires before != [] && Laid(before, after, a, data)
    ensures Laid(before, after[EepromIndex(after, a + |data|) := b], a, data + [b])
  {
    hide Rem;
    var n, size, more := |data|, |before|, data + [b];
    var i := EepromIndex(after, a + n);
    var r := after[i := b];
    assert i == EepromCell(size, a, n);
    forall k | 0 <= k < |more| < k + 1 + size
      ensures r[EepromCell(size, a, k)] == more[k]
    {
      if k < n {
        RemDiffers(a + k, a + n, size);
        assert after[EepromCell(size, a, k)] == data[k];
      }
    }
    forall j | 0 <= j < size && !Reaches(size, a, |more|, j)
      ensures r[j] == before[j]
    {
      assert j != EepromCell(size, a, n);
    }
  }

  /** A transfer back reads what was laid, if it all fits. */
  lemma {:induction false} LaidReads(before: seq<byte>, after: seq<byte>, a: nat, data: seq<byte>, k: nat)
    requires before != [] && Laid(before, after, a, data) && k < |data| <= |before|
    ensures after[EepromIndex(after, a + k)] == data[k]
  {
    assert after[EepromCell(|before|, a, k)] == data[k];
  }

  // -- BootloaderAPI.c -------------------------------------------------------------------------

  predicate IsPageAddressValid(chip: Chip, a: nat)
    requires chip.pageSize > 0
  {
    a < chip.bootStart && And(a, chip.pageSize - 1) == 0
  }

  datatype FlashOp = Erase(addr: nat) | Fill(addr: nat, w: word) | Write(addr: nat)

  function Apply(chip: Chip, f: Flash, op: FlashOp): (r: Flash)
    requires chip.Valid() && f.Fits(chip)
    ensures r.Fits(chip)
  {
    match op
    case Erase(a) =>
      if IsPageAddressValid(chip, a) then
        PageInBounds(chip, a);
        RwwEnable(chip, PageErase(chip, f, a))
      else f
    case Fill(a, w) => PageFill(chip, f, a, w)
    case Write(a) =>
      if IsPageAddressValid(chip, a) then
        PageInBounds(chip, a);
        RwwEnable(chip, PageWrite(chip, f, a))
      else f
  }

  function Run(chip: Chip, f: Flash, ops: seq<FlashOp>): (r: Flash)
    requires chip.Valid() && f.Fits(chip)
    ensures r.Fits(chip)
    decreases |ops|
  {
    if ops == [] then f else Run(chip, Apply(chip, f, ops[0]), ops[1..])
  }

  /** The bit-mask test is divisibility by the page size. */
  lemma {:induction false} MaskIsAlignment(chip: Chip, a: nat)
    requires chip.Valid()
    ensures And(a, chip.pageSize - 1) == 0 <==> Rem(a, chip.pageSize) == 0
  {
    var k: nat :| chip.pageSize == Pow2(k);
    AndMask(a, k);
  }

  /** A page whose start passes the guard ends no later than the boot section starts. */
  lemma {:induction false} PageInBounds(chip: Chip, a: nat)
    requires chip.Valid() && IsPageAddressValid(chip, a)
    ensures Rem(a, chip.pageSize) == 0
    ensures a + chip.pageSize <= chip.bootStart
  {
    MaskIsAlignment(chip, a);
    RemGap(a, chip.bootStart, chip.pageSize);
  }

  /** What an erase request does to a page below the boot section. */
  lemma {:induction false} EraseIs(chip: Chip, f: Flash, a: nat)
    requires chip.Valid() && f.Fits(chip) && Rem(a, chip.pageSize) == 0 && a < chip.bootStart
    ensures IsPageAddressValid(chip, a) && a + chip.pageSize <= chip.bootStart
    ensures Apply(chip, f, Erase(a)) == Flash(Overwrite(f.mem, a, Blank(chip.pageSize)), Blank(chip.pageSize))
  {
    MaskIsAlignment(chip, a);
    PageInBounds(chip, a);
  }

  /** Writing an erased page programs exactly the buffer. */
  lemma {:induction false} WriteIs(chip: Chip, f: Flash, a: nat)
    requires chip.Valid() && f.Fits(chip) && Rem(a, chip.pageSize) == 0 && a + chip.pageSize <= chip.bootStart
    requires forall i :: a <= i < a + chip.pageSize ==> f.mem[i] == ERASED
    ensures Apply(chip, f, Write(a)) == Flash(Overwrite(f.mem, a, f.buf), Blank(chip.pageSize))
  {
    MaskIsAlignment(chip, a);
    AndErased(f.mem[a..a + chip.pageSize], f.buf);
  }

  /** Off the page boundaries and in the boot section the guard lets nothing through. */
  lemma {:induction false} Refused(chip: Chip, f: Flash, a: nat)
    requires chip.Valid() && f.Fits(chip) && (Rem(a, chip.pageSize) != 0 || a >= chip.bootStart)
    ensures Apply(chip, f, Erase(a)) == f && Apply(chip, f, Write(a)) == f
  {
    MaskIsAlignment(chip, a);
  }

  lemma {:induction false} AndErased(x: seq<byte>, y: seq<byte>)
    requires |x| == |y| && forall i :: 0 <= i < |x| ==> x[i] == ERASED
    ensures AndAll(x, y) == y
  {
    forall i | 0 <= i < |y|
      ensures And(x[i], y[i]) == y[i]
    {
      assert Pow2(8) == 256;
      AndMask(y[i], 8);
    }
  }

  /** Whatever operations are requested, at whatever addresses, the boot section keeps its contents. */
  lemma {:induction false} BootSectionUntouched(chip: Chip, f: Flash, ops: seq<FlashOp>)
    requires chip.Valid() && f.Fits(chip)
    ensures Run(chip, f, ops).mem[chip.bootStart..] == f.mem[chip.bootStart..]
    decreases |ops|
  {
    if ops != [] {
      if !ops[0].Fill? && IsPageAddressValid(chip, ops[0].addr) {
        PageInBounds(chip, ops[0].addr);
      }
      BootSectionUntouched(chip, Apply(chip, f, ops[0]), ops[1..]);
    }
  }

  lemma {:induction false} ApplyKeepsBoot(chip: Chip, f: Flash, op: FlashOp)
    requires chip.Valid() && f.Fits(chip)
    ensures Apply(chip, f, op).mem[chip.bootStart..] == f.mem[chip.bootStart..]
  {
    hide Apply;
    RunTwo(chip, f, op, op);
    BootSectionUntouched(chip, f, [op]);
  }

  lemma {:induction false} RunConcat(chip: Chip, f: Flash, a: seq<FlashOp>, b: seq<FlashOp>)
    requires chip.Valid() && f.Fits(chip)
    ensures Run(chip, f, a + b) == Run(chip, Run(chip, f, a), b)
    decreases |a|
  {
    if a == [] {
      assert a + b == b;
    } else {
      assert (a + b)[0] == a[0] && (a + b)[1..] == a[1..] + b;
      RunConcat(chip, Apply(chip, f, a[0]), a[1..], b);
    }
  }

  lemma {:induction false} RunNothing(chip: Chip, f: Flash)
    requires chip.Valid() && f.Fits(chip)
    ensures Run(chip, f, []) == f
  {
  }

  lemma {:induction false} RunTwo(chip: Chip, f: Flash, a: FlashOp, b: FlashOp)
    requires chip.Valid() && f.Fits(chip)
    ensures Run(chip, f, [a]) == Apply(chip, f, a)
    ensures Run(chip, f, [a, b]) == Apply(chip, Apply(chip, f, a), b)
  {
    assert [a][1..] == [] && [a, b][1..] == [b];
    assert Run(chip, Apply(chip, f, a), [b]) == Apply(chip, Apply(chip, f, a), b);
  }

  // -- Sequential programming ------------------------------------------------------------------

  /**
   Mid-page state of a sequential download to the page-aligned address `start` of a memory that
   held `mem0`: the pages of `done` are committed, the page after them is erased, and `tail` waits
   in the buffer.
   */
  ghost predicate Open(chip: Chip, f: Flash, mem0: seq<byte>, start: nat, done: seq<byte>, tail: seq<byte>)
    requires chip.Valid()
  {
    var p := chip.pageSize;
    && f.Fits(chip) && |mem0| == chip.flashSize
    && Rem(start, p) == 0 && Rem(|done|, p) == 0 && |tail| <= p
    && start + |done| + p <= chip.bootStart
    && f.mem == Overwrite(Overwrite(mem0, start, done), start + |done|, Blank(p))
    && f.buf == Page(chip, tail)
  }

  lemma {:induction false} OpenPage(chip: Chip, f: Flash, mem0: seq<byte>, start: nat, done: seq<byte>)
    requires chip.Valid() && f.Fits(chip) && |mem0| == chip.flashSize
    requires Rem(start, chip.pageSize) == 0 && Rem(|done|, chip.pageSize) == 0
    requires start + |done| < chip.bootStart
    requires f.mem == Overwrite(mem0, start, done)
    ensures Open(chip, Apply(chip, f, Erase(start + |done|)), mem0, start, done, [])
  {
    var a := start + |done|;
    RemSum(start, |done|, chip.pageSize);
    EraseIs(chip, f, a);
    assert |Blank(chip.pageSize)| == chip.pageSize;
    PageGrows(chip, [], 0, 0);
  }

  lemma {:induction false} OpenFirst(chip: Chip, f: Flash, base: nat)
    requires chip.Valid() && f.Fits(chip) && Rem(base, chip.pageSize) == 0 && base < chip.bootStart
    ensures Open(chip, Apply(chip, f, Erase(base)), f.mem, base, [], [])
  {
    hide Apply;
    assert Overwrite(f.mem, base, []) == f.mem;
    OpenPage(chip, f, f.mem, base, []);
  }

  lemma {:induction false} FillOpenPage(chip: Chip, f: Flash, mem0: seq<byte>, start: nat, done: seq<byte>,
                                        tail: seq<byte>,
                     lo: byte, hi: byte)
    requires chip.Valid() && Open(chip, f, mem0, start, done, tail)
    requires |tail| % 2 == 0 && |tail| < chip.pageSize
    ensures |tail| + 2 <= chip.pageSize
    ensures Open(chip, Apply(chip, f, Fill(start + |done| + |tail|, LE16(lo, hi))), mem0, start, done, tail + [lo, hi])
  {
    var p := chip.pageSize;
    RemSum(start, |done|, p);
    RemSum(start + |done|, |tail|, p);
    assert LE16(lo, hi) % 256 == lo && LE16(lo, hi) / 256 == hi;
    PageGrows(chip, tail, lo, hi);
  }

  lemma {:induction false} CommitOpenPage(chip: Chip, f: Flash, mem0: seq<byte>, start: nat, done: seq<byte>,
                                          tail: seq<byte>)
    requires chip.Valid() && Open(chip, f, mem0, start, done, tail)
    ensures Apply(chip, f, Write(start + |done|)).mem == Overwrite(mem0, start, done + Page(chip, tail))
  {
    hide Apply, Rem, Page, Overwrite, Blank;
    var a := start + |done|;
    RemSum(start, |done|, chip.pageSize);
    WriteIs(chip, f, a);
    OverwriteAgain(mem0, start, done, Blank(chip.pageSize), f.buf);
  }

  /** The same download between words: at a page boundary nothing is open. */
  ghost predicate Partial(chip: Chip, f: Flash, mem0: seq<byte>, start: nat, data: seq<byte>)
    requires chip.Valid()
  {
    var t := Rem(|data|, chip.pageSize);
    && f.Fits(chip) && |mem0| == chip.flashSize && |data| % 2 == 0
    && Rem(start, chip.pageSize) == 0 && start + |data| <= chip.bootStart
    && if t == 0 then f.mem == Overwrite(mem0, start, data)
       else Open(chip, f, mem0, start, data[..|data| - t], data[|data| - t..])
  }

  /** One word at offset t of its page: the first opens the page, the last commits it. */
  function ProgramWord(chip: Chip, f: Flash, a: nat, t: nat, w: word): (r: Flash)
    requires chip.Valid() && f.Fits(chip) && t <= a
    ensures r.Fits(chip)
  {
    var f1 := if t == 0 then Apply(chip, f, Erase(a)) else f;
    var f2 := Apply(chip, f1, Fill(a, w));
    if t + 2 == chip.pageSize then Apply(chip, f2, Write(a - t)) else f2
  }

  lemma {:induction false} RemNextWord(n: nat, m: nat)
    requires m >= 2 && m % 2 == 0 && n % 2 == 0
    ensures Rem(n, m) % 2 == 0 && Rem(n, m) + 2 <= m
    ensures Rem(n + 2, m) == if Rem(n, m) + 2 == m then 0 else Rem(n, m) + 2
  {
    var t := Rem(n, m);
    RemEven(n, m);
    RemBase(n, m);
    RemSum(n - t, t + 2, m);
  }

  lemma {:induction false} FillPartial(chip: Chip, f: Flash, mem0: seq<byte>, start: nat, data: seq<byte>,
                                       t: nat, lo: byte, hi: byte)
    requires chip.Valid() && Partial(chip, f, mem0, start, data) && start + |data| < chip.bootStart
    requires t == Rem(|data|, chip.pageSize)
    ensures t <= |data|
    ensures var f1 := if t == 0 then Apply(chip, f, Erase(start + |data|)) else f;
            Open(chip, Apply(chip, f1, Fill(start + |data|, LE16(lo, hi))), mem0, start,
                 data[..|data| - t], data[|data| - t..] + [lo, hi])
  {
    hide Apply, Rem, Page, Overwrite, Blank;
    RemEven(|data|, chip.pageSize);
    var done, tail := data[..|data| - t], data[|data| - t..];
    if t == 0 {
      assert done == data && tail == [];
      OpenPage(chip, f, mem0, start, done);
      FillOpenPage(chip, Apply(chip, f, Erase(start + |data|)), mem0, start, done, tail, lo, hi);
    } else {
      FillOpenPage(chip, f, mem0, start, done, tail, lo, hi);
    }
  }

  lemma {:induction false} ProgramWordGrows(chip: Chip, f: Flash, mem0: seq<byte>, start: nat, data: seq<byte>,
                                            t: nat, lo: byte, hi: byte)
    requires chip.Valid() && Partial(chip, f, mem0, start, data) && start + |data| < chip.bootStart
    requires t == Rem(|data|, chip.pageSize)
    ensures Partial(chip, ProgramWord(chip, f, start + |data|, t, LE16(lo, hi)), mem0, start, data + [lo, hi])
  {
    hide Apply, Rem, Page, Overwrite, Blank;
    var n, longer := |data|, data + [lo, hi];
    FillPartial(chip, f, mem0, start, data, t, lo, hi);
    RemNextWord(n, chip.pageSize);
    var done, tail := data[..n - t], data[n - t..] + [lo, hi];
    assert longer[..n - t] == done && longer[n - t..] == tail;
    if t + 2 == chip.pageSize {
      var f1 := if t == 0 then Apply(chip, f, Erase(start + n)) else f;
      CommitOpenPage(chip, Apply(chip, f1, Fill(start + n, LE16(lo, hi))), mem0, start, done, tail);
      assert Page(chip, tail) == tail by { FullPage(chip, tail); }
      assert done + tail == longer;
    }
  }

  /** Erased bytes that fill up the last page of n bytes of data. */
  function Padding(chip: Chip, n: nat): (r: nat)
    requires chip.pageSize > 0
    ensures r < chip.pageSize
  {
    if Rem(n, chip.pageSize) == 0 then 0 else chip.pageSize - Rem(n, chip.pageSize)
  }

  /** Data rounded up to whole pages. */
  function Padded(chip: Chip, data: seq<byte>): (r: seq<byte>)
    requires chip.pageSize > 0
    ensures |r| == |data| + Padding(chip, |data|) && data <= r
  {
    data + Blank(Padding(chip, |data|))
  }

  lemma {:induction false} PaddedIs(chip: Chip, done: seq<byte>, tail: seq<byte>)
    requires chip.Valid() && Rem(|done|, chip.pageSize) == 0 && 0 < |tail| <= chip.pageSize
    ensures Padded(chip, done + tail) == done + Page(chip, tail)
  {
    RemSum(|done|, |tail|, chip.pageSize);
  }

  /** What is in flash when a download stops, with and without a final commit. */
  lemma {:induction false} CommitLast(chip: Chip, f: Flash, mem0: seq<byte>, data: seq<byte>, start: nat := 0)
    requires chip.Valid() && Partial(chip, f, mem0, start, data)
    ensures start + |data| + Padding(chip, |data|) <= chip.bootStart
    ensures var t := Rem(|data|, chip.pageSize);
            if t == 0 then f.mem == Overwrite(mem0, start, Padded(chip, data)) else
              && Apply(chip, f, Write(start + |data| - t)).mem == Overwrite(mem0, start, Padded(chip, data))
              && (|data| < chip.pageSize ==> f.mem == Overwrite(mem0, start, Blank(chip.pageSize)))
  {
    hide Apply, Rem, Page, Overwrite, Blank, Padded;
    var t := Rem(|data|, chip.pageSize);
    if t == 0 {
      NothingToPad(chip, data);
    } else {
      var done, tail := data[..|data| - t], data[|data| - t..];
      CommitOpenPage(chip, f, mem0, start, done, tail);
      DonePages(chip, |data|);
      assert done + tail == data;
      PaddedIs(chip, done, tail);
      if |data| < chip.pageSize {
        RemSmall(|data|, chip.pageSize);
        FirstPageOpen(chip, f, mem0, start, done, tail);
      }
    }
  }

  lemma {:induction false} NothingToPad(chip: Chip, data: seq<byte>)
    requires chip.Valid() && Rem(|data|, chip.pageSize) == 0
    ensures Padded(chip, data) == data
  {
  }

  lemma {:induction false} DonePages(chip: Chip, n: nat)
    requires chip.Valid()
    ensures Rem(n - Rem(n, chip.pageSize), chip.pageSize) == 0
  {
    RemBase(n, chip.pageSize);
  }

  lemma {:induction false} FirstPageOpen(chip: Chip, f: Flash, mem0: seq<byte>, start: nat, done: seq<byte>,
                                         tail: seq<byte>)
    requires chip.Valid() && Open(chip, f, mem0, start, done, tail) && done == []
    ensures f.mem == Overwrite(mem0, start, Blank(chip.pageSize))
  {
  }

  /** Erasing every application page, in the order of the loop. */
  function EraseFrom(chip: Chip, f: Flash, a: nat): (r: Flash)
    requires chip.Valid() && f.Fits(chip)
    ensures r.Fits(chip)
    decreases chip.bootStart - a
  {
    if a >= chip.bootStart then f else EraseFrom(chip, Apply(chip, f, Erase(a)), a + chip.pageSize)
  }

  /** The erase loop blanks the whole application section and nothing else. */
  lemma {:induction false} EraseFromIs(chip: Chip, f: Flash, a: nat)
    requires chip.Valid() && f.Fits(chip) && Rem(a, chip.pageSize) == 0 && a <= chip.bootStart
    ensures var r := EraseFrom(chip, f, a);
            && r.mem == Overwrite(f.mem, a, Blank(chip.bootStart - a))
            && (a < chip.bootStart ==> r.buf == Blank(chip.pageSize))
    decreases chip.bootStart - a
  {
    hide Apply, Rem;
    var p := chip.pageSize;
    if a < chip.bootStart {
      EraseIs(chip, f, a);
      var f1 := Apply(chip, f, Erase(a));
      RemSum(a, p, p);
      RemIsModulo(p, p);
      EraseFromIs(chip, f1, a + p);
      assert Overwrite(Overwrite(f.mem, a, Blank(p)), a + p, Blank(chip.bootStart - a - p)) ==
             Overwrite(f.mem, a, Blank(chip.bootStart - a));
    } else {
      assert Overwrite(f.mem, a, []) == f.mem;
    }
  }

  lemma {:induction false} EraseAll(chip: Chip, f: Flash)
    requires chip.Valid() && f.Fits(chip)
    ensures EraseFrom(chip, f, 0) == Flash(Blank(chip.bootStart) + f.mem[chip.bootStart..], Blank(chip.pageSize))
  {
    hide Rem;
    RemIsModulo(0, chip.pageSize);
    EraseFromIs(chip, f, 0);
  }

  /** The device's flash as the bootloader's code sees it. */
  class FlashMemory {
    const chip: Chip
    var mem: seq<byte>
    var buf: seq<byte>

    constructor (chip: Chip, mem: seq<byte>)
      requires chip.Valid() && |mem| == chip.flashSize
      ensures this.chip == chip && Valid()
      ensures State() == Flash(mem, Blank(chip.pageSize))
    {
      this.chip := chip;
      this.mem := mem;
      this.buf := Blank(chip.pageSize);
    }

    ghost predicate Valid()
      reads this
    {
      chip.Valid() && State().Fits(chip)
    }

    ghost function State(): Flash
      reads this
    {
      Flash(mem, buf)
    }

    // Hardware operations, as avr/boot.h names them.

    method BootPageErase(a: nat)
      requires Valid() && a + chip.pageSize <= chip.flashSize
      modifies this
      ensures Valid() && State() == PageErase(chip, old(State()), a)
    {
      mem := Overwrite(mem, a, Blank(chip.pageSize));
    }

    method BootPageFill(a: nat, w: word)
      requires Valid()
      modifies this`buf
      ensures Valid() && State() == PageFill(chip, old(State()), a, w)
    {
      var i := Rem(a, chip.pageSize) / 2 * 2;
      buf := buf[i := w % 256][i + 1 := w / 256];
    }

    method BootPageWrite(a: nat)
      requires Valid() && a + chip.pageSize <= chip.flashSize
      modifies this
      ensures Valid() && State() == PageWrite(chip, old(State()), a)
    {
      hide And, Overwrite;
      for i := 0 to chip.pageSize
        invariant Valid() && buf == old(buf)
        invariant forall k :: 0 <= k < |mem| ==>
                    mem[k] == if a <= k < a + i then And(old(mem)[k], buf[k - a]) else old(mem)[k]
      {
        mem := mem[a + i := And(mem[a + i], buf[i])];
      }
      assert mem == Overwrite(old(mem), a, AndAll(old(mem)[a..a + chip.pageSize], buf));
      buf := Blank(chip.pageSize);
    }

    method BootRwwEnable()
      requires Valid()
      modifies this
      ensures Valid() && State() == RwwEnable(chip, old(State()))
    {
      buf := Blank(chip.pageSize);
    }

    // BootloaderAPI.c

    method ErasePage(a: nat)
      requires Valid()
      modifies this
      ensures Valid() && State() == Apply(chip, old(State()), Erase(a))
    {
      if !IsPageAddressValid(chip, a) {
        return;
      }
      PageInBounds(chip, a);
      BootPageErase(a);
      BootRwwEnable();
    }

    method WritePage(a: nat)
      requires Valid()
      modifies this
      ensures Valid() && State() == Apply(chip, old(State()), Write(a))
    {
      if !IsPageAddressValid(chip, a) {
        return;
      }
      PageInBounds(chip, a);
      BootPageWrite(a);
      BootRwwEnable();
    }

    /** Flash keeps its contents; the addressed word of the buffer becomes w and no other word changes. */
    method FillWord(a: nat, w: word)
      requires Valid()
      modifies this`buf
      ensures Valid() && State() == Apply(chip, old(State()), Fill(a, w))
      ensures var i := Rem(a, chip.pageSize) / 2 * 2;
              && i + 1 < chip.pageSize && LE16(buf[i], buf[i + 1]) == w
              && forall k :: 0 <= k < chip.pageSize && k != i && k != i + 1 ==> buf[k] == old(buf)[k]
    {
      BootPageFill(a, w);
    }

    /** The erase loop of the DFU and CDC bootloaders. */
    method EraseApplication()
      requires Valid()
      modifies this
      ensures Valid() && State() == EraseFrom(chip, old(State()), 0)
    {
      hide Apply;
      var currFlashAddress := 0;
      while currFlashAddress < chip.bootStart
        invariant Valid()
        invariant EraseFrom(chip, State(), currFlashAddress) == EraseFrom(chip, old(State()), 0)
      {
        ErasePage(currFlashAddress);
        currFlashAddress := currFlashAddress + chip.pageSize;
      }
    }
  }
}
