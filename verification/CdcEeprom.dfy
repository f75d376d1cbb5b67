/** AVR109 EEPROM blocks: what is written and what is read back. */
module CdcEeprom {
  import opened Bits
  import opened FlashMachine
  import opened Endpoint
  import opened Cdc
  import opened CdcBlocks

  /**
   The 16-bit EEPROM addresses of n bytes from word address w on do not wrap, or wrap at a multiple of the EEPROM's
   size, as they do for every size that is a power of two.
   */
  ghost predicate Linear(size: nat, w: nat, n: nat)
    requires size > 0
  {
    w + n <= 0x1_0000 || Rem(0x1_0000, size) == 0
  }

  lemma {:induction false} CounterCell(e: seq<byte>, w: nat, n: nat, k: nat)
    requires e != [] && w < 0x1_0000 && k < n <= 0x1_0000 && Linear(|e|, w, n)
    ensures EepromIndex(e, 2 * (w + k) / 2 % 0x1_0000) == EepromIndex(e, w + k)
    ensures Next(2 * (w + k)) == 2 * (w + k + 1)
  {
    hide Rem;
    if w + k >= 0x1_0000 {
      RemSum(0x1_0000, w + k - 0x1_0000, |e|);
    }
  }

  /** The write loop lays the bytes of the stream in consecutive cells. */
  lemma {:induction false} WriteEepromLays(e0: seq<byte>, e: seq<byte>, w: nat, done: seq<byte>, p: OutPipe, n: nat)
    requires e0 != [] && Laid(e0, e, w, done) && n <= |Rest(p)|
    requires w < 0x1_0000 && |done| + n <= 0x1_0000 && Linear(|e0|, w, |done| + n)
    ensures var (r, a, _) := WriteEeprom(e, 2 * (w + |done|), p, n);
            Laid(e0, r, w, done + Rest(p)[..n]) && a == 2 * (w + |done| + n)
    decreases n
  {
    hide Fetch, Next, Laid, Rest, Linear, EepromIndex;
    LaidSize(e0, e, w, done);
    if n == 0 {
      assert done + Rest(p)[..0] == done;
    } else {
      var (b, p1) := Fetch(p);
      FetchNext(p);
      CounterCell(e, w, |done| + n, |done|);
      LaidGrows(e0, e, w, done, b);
      WriteEepromLays(e0, e[EepromIndex(e, w + |done|) := b], w, done + [b], p1, n - 1);
      assert done + [b] + Rest(p)[1..][..n - 1] == done + Rest(p)[..n];
    }
  }

  lemma {:induction false} LaidSize(e0: seq<byte>, e: seq<byte>, w: nat, done: seq<byte>)
    requires e0 != [] && Laid(e0, e, w, done)
    ensures |e| == |e0|
  {
  }

  /** The read loop returns consecutive cells. */
  lemma {:induction false} ReadEepromIs(e: seq<byte>, w: nat, k: nat, n: nat)
    requires e != [] && w < 0x1_0000 && k + n <= 0x1_0000 && Linear(|e|, w, k + n)
    ensures var r := ReadEeprom(e, 2 * (w + k), n).0;
            |r| == n && forall i :: 0 <= i < n ==> r[i] == e[EepromCell(|e|, w, k + i)]
    decreases n
  {
    hide Next, Linear, Rem;
    if n > 0 {
      CounterCell(e, w, k + n, k);
      ReadEepromIs(e, w, k + 1, n - 1);
      var r, rest := ReadEeprom(e, 2 * (w + k), n).0, ReadEeprom(e, 2 * (w + k + 1), n - 1).0;
      assert r == [e[EepromCell(|e|, w, k)]] + rest;
      forall i | 0 <= i < n
        ensures r[i] == e[EepromCell(|e|, w, k + i)]
      {
        if i > 0 {
          assert r[i] == rest[i - 1] == e[EepromCell(|e|, w, k + 1 + (i - 1))];
        }
      }
    }
  }

  function EepromCommand(letter: char, n: nat): (c: seq<byte>)
    requires n < 0x1_0000 && letter as int < 256
  {
    [letter as int, n / 256, n % 256, 'E' as int]
  }

  /** A block write to the EEPROM, over any packets. */
  lemma {:induction false} WriteEepromTask(cfg: Config, d: Cdc, p: OutPipe, w: nat, data: seq<byte>)
    requires cfg.Valid() && d.Fits(cfg) && |data| < 0x1_0000 && w < 0x1_0000 && d.currAddr == 2 * w
    requires Rest(p) == EepromCommand('B', |data|) + data && Linear(cfg.eepromSize, w, |data|)
    ensures var (d1, sent) := Task(cfg, d, p);
            && Laid(d.eeprom, d1.eeprom, w, data) && d1.f == d.f && d1.running == d.running
            && Concat(sent) == [13]
  {
    hide Fetch, Rest, Or, Apply, WriteFlash, WriteEeprom, ReadFlash, ReadEeprom, EmitAll, Finish, Concat, Laid, Linear;
    var n := |data|;
    FetchFour(p);
    var p3 := Fetch(Fetch(Fetch(Fetch(p).1).1).1).1;
    assert Rest(p)[4..] == data && data[..n] == data && [] + data == data;
    NothingLaid(d.eeprom, w);
    WriteEepromLays(d.eeprom, d.eeprom, w, [], p3, n);
    assert LE16(n % 256, n / 256) == n;
    ResponseFraming([13]);
  }

  lemma {:induction false} ReadEepromTask(cfg: Config, d: Cdc, p: OutPipe, w: nat, n: nat)
    requires cfg.Valid() && d.Fits(cfg) && n < 0x1_0000 && w < 0x1_0000 && d.currAddr == 2 * w
    requires Rest(p) == EepromCommand('g', n) && Linear(cfg.eepromSize, w, n)
    ensures var (d1, sent) := Task(cfg, d, p);
            && d1.eeprom == d.eeprom && d1.f == d.f && |Concat(sent)| == n
            && forall i :: 0 <= i < n ==> Concat(sent)[i] == d.eeprom[EepromCell(cfg.eepromSize, w, i)]
  {
    hide Fetch, Rest, Or, WriteFlash, WriteEeprom, ReadFlash, ReadEeprom, Rem, EmitAll, Finish, Concat, Linear;
    FetchFour(p);
    assert LE16(n % 256, n / 256) == n;
    ReadEepromIs(d.eeprom, w, 0, n);
    ResponseFraming(ReadEeprom(d.eeprom, d.currAddr, n).0);
  }

  /**
   Set the address, write an EEPROM block, set the address again and read the block, over any packets: every cell
   reached holds the last byte that fell on it, the others and flash are unchanged, and a block no larger than the
   EEPROM comes back as it was sent.
   */
  lemma {:induction false} EepromRoundTrip(cfg: Config, d: Cdc, w: nat, data: seq<byte>, p: seq<OutPipe>)
    requires cfg.Valid() && d.Fits(cfg) && w < 0x1_0000 && |data| < 0x1_0000 && |p| == 4
    requires Rest(p[0]) == SetAddress(2 * w) && Rest(p[1]) == EepromCommand('B', |data|) + data
    requires Rest(p[2]) == SetAddress(2 * w) && Rest(p[3]) == EepromCommand('g', |data|)
    requires Linear(cfg.eepromSize, w, |data|)
    ensures var d3 := RunTasks(cfg, d, p[..3]);
            var (d4, sent) := Task(cfg, d3, p[3]);
            && Laid(d.eeprom, d4.eeprom, w, data) && d4.f == d.f
            && (|data| <= cfg.eepromSize ==> Concat(sent) == data)
  {
    hide Task, Rest, Concat, Laid, Linear, EepromCell;
    SetAddressTask(cfg, d, p[0], 2 * w);
    var d1 := Task(cfg, d, p[0]).0;
    WriteEepromTask(cfg, d1, p[1], w, data);
    var d2 := Task(cfg, d1, p[1]).0;
    SetAddressTask(cfg, d2, p[2], 2 * w);
    var d3 := Task(cfg, d2, p[2]).0;
    RunThree(cfg, d, p[..3]);
    ReadEepromTask(cfg, d3, p[3], w, |data|);
    if |data| <= cfg.eepromSize {
      LaidBack(d.eeprom, d2.eeprom, w, data, Concat(Task(cfg, d3, p[3]).1));
    }
  }

  lemma {:induction false} LaidBack(before: seq<byte>, after: seq<byte>, w: nat, data: seq<byte>, got: seq<byte>)
    requires before != [] && Laid(before, after, w, data) && |got| == |data| <= |before| == |after|
    requires forall i :: 0 <= i < |data| ==> got[i] == after[EepromCell(|before|, w, i)]
    ensures got == data
  {
    forall i | 0 <= i < |data|
      ensures got[i] == data[i]
    {
      assert after[EepromCell(|before|, w, i)] == data[i];
    }
  }
}
