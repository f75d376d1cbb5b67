/** What the DFU bootloader skips and what it refuses: filler bytes, and downloads off the application pages. */
module DfuFiller {
  import opened Bits
  import opened FlashMachine
  import opened Endpoint
  import opened Dfu

  // -- Filler ----------------------------------------------------------------------------------------

  /** Inside one packet, discarding takes exactly the bytes asked for. */
  lemma {:induction false} DiscardInBank(p: OutPipe, n: nat)
    requires n <= |p.bank|
    ensures Discard(p, n) == p.(bank := p.bank[n..])
    decreases n
  {
    if n == 0 {
      assert p.bank[0..] == p.bank;
    } else {
      DiscardInBank(p.(bank := p.bank[1..]), n - 1);
    }
  }

  /** Discarding never takes more bytes than asked for. */
  lemma {:induction false} DiscardAtMost(p: OutPipe, n: nat)
    ensures |Rest(Discard(p, n))| >= |Rest(p)| - n
    decreases n
  {
    if n > 0 {
      if p.bank != [] {
        DiscardAtMost(p.(bank := p.bank[1..]), n - 1);
      } else if p.pending != [] {
        assert Rest(NextPacket(p)) == Rest(p);
        DiscardAtMost(NextPacket(p), n - 1);
      }
    }
  }

  /** Beyond the packet in the bank it takes fewer: fetching the next packet uses up a count. */
  lemma {:induction false} DiscardTooFew(p: OutPipe, n: nat)
    requires n > |p.bank| && p.pending != []
    ensures |Rest(Discard(p, n))| > |Rest(p)| - n
    decreases n
  {
    if p.bank == [] {
      assert Rest(NextPacket(p)) == Rest(p);
      DiscardAtMost(NextPacket(p), n - 1);
    } else {
      DiscardTooFew(p.(bank := p.bank[1..]), n - 1);
    }
  }

  /** Discarding removes the next n bytes of the stream if and only if they all are in the packet at hand. */
  lemma {:induction false} DiscardIff(p: OutPipe, n: nat)
    requires n <= |Rest(p)|
    ensures Rest(Discard(p, n)) == Rest(p)[n..] <==> n <= |p.bank|
  {
    hide Discard;
    if n <= |p.bank| {
      DiscardInBank(p, n);
      assert Rest(p)[n..] == p.bank[n..] + Concat(p.pending);
    } else {
      DiscardTooFew(p, n);
    }
  }

  /** Two bytes in two packets: one fetch spends the second count, and the second byte stays. */
  lemma {:induction false} DiscardFails()
    ensures var p := OutPipe([1], [[2]]);
            Rest(p) == [1, 2] && Rest(Discard(p, 2)) == [2]
  {
    hide Discard;
    var p := OutPipe([1], [[2]]);
    assert Concat([[2]]) == [2] + Concat([]) && [[2]][1..] == [];
    assert Discard(p, 2) == Discard(OutPipe([], [[2]]), 1) == Discard(OutPipe([2], []), 0) by {
      assert [1][1..] == [];
      DiscardStep(p, 2);
      DiscardStep(OutPipe([], [[2]]), 1);
    }
    DiscardInBank(OutPipe([2], []), 0);
  }

  lemma {:induction false} DiscardStep(p: OutPipe, n: nat)
    requires n > 0
    ensures Discard(p, n) ==
            if p.bank != [] then Discard(OutPipe(p.bank[1..], p.pending), n - 1)
            else if p.pending == [] then p
            else Discard(OutPipe(p.pending[0], p.pending[1..]), n - 1)
  {
  }

  // -- Refused downloads -----------------------------------------------------------------------------

  lemma {:induction false} FillKeepsFlash(chip: Chip, f: Flash, a: nat, w: word)
    requires chip.Valid() && f.Fits(chip)
    ensures Apply(chip, f, Fill(a, w)).mem == f.mem
  {
  }

  /** One turn of the download loop. */
  lemma {:induction false} FlashWordsTurn(chip: Chip, f: Flash, p: OutPipe, a: nat, pageStart: nat, inPage: byte,
                                          remaining: nat)
    requires chip.Valid() && f.Fits(chip) && remaining > 0 && a + 2 < 0x1_0000_0000
    requires p.bank != [] || p.pending != []
    ensures var (w, p1) := Read16(Refill(p));
            var f1 := Apply(chip, f, Fill(a, w));
            var f2 := Apply(chip, f1, Write(pageStart));
            var inPage1 := (inPage as int + 1) % 256;
            FlashWords(chip, f, p, a, pageStart, inPage, remaining) ==
            if remaining == 1 then (f2, true)
            else if inPage1 == chip.pageSize / 2
            then FlashWords(chip, Apply(chip, f2, Erase(a + 2)), p1, a + 2, a + 2, 0, remaining - 1)
            else FlashWords(chip, f1, p1, a + 2, pageStart, inPage1, remaining - 1)
  {
    hide Apply, Read16, Refill;
    assert (a + 2) % 0x1_0000_0000 == a + 2;
  }

  /** Off the page boundaries, or in the boot section. */
  ghost predicate Guarded(chip: Chip, a: nat)
    requires chip.Valid()
  {
    Rem(a, chip.pageSize) != 0 || a >= chip.bootStart
  }

  /** A loop that starts at such an address stays at such addresses, and the guard refuses every page. */
  lemma {:induction false} RefusedWords(chip: Chip, f: Flash, p: OutPipe, addr: nat, pageStart: nat,
                                        inPage: byte, remaining: nat)
    requires chip.Valid() && f.Fits(chip) && Guarded(chip, pageStart)
    requires chip.pageSize <= 256 ==> addr == pageStart + 2 * inPage as int && 2 * inPage as int < chip.pageSize
    requires addr + 2 * remaining < 0x1_0000_0000
    ensures FlashWords(chip, f, p, addr, pageStart, inPage, remaining).0.mem == f.mem
    decreases remaining
  {
    hide Apply, Rem, Read16, Refill, FlashWords, Guarded;
    if remaining == 0 || (p.bank == [] && p.pending == []) {
      LoopStops(chip, f, p, addr, pageStart, inPage, remaining);
    } else {
      var (w, p1) := Read16(Refill(p));
      var f1 := Apply(chip, f, Fill(addr, w));
      FlashWordsTurn(chip, f, p, addr, pageStart, inPage, remaining);
      FillKeepsFlash(chip, f, addr, w);
      GuardRefuses(chip, f1, pageStart);
      var inPage1 := (inPage as int + 1) % 256;
      PageSizes(chip);
      if remaining > 1 {
        if inPage1 == chip.pageSize / 2 {
          NextPageGuarded(chip, pageStart);
          GuardRefuses(chip, f1, addr + 2);
          RefusedWords(chip, f1, p1, addr + 2, addr + 2, 0, remaining - 1);
        } else {
          RefusedWords(chip, f1, p1, addr + 2, pageStart, inPage1, remaining - 1);
        }
      }
    }
  }

  lemma {:induction false} LoopStops(chip: Chip, f: Flash, p: OutPipe, addr: nat, pageStart: nat, inPage: byte,
                                     remaining: nat)
    requires chip.Valid() && f.Fits(chip) && (remaining == 0 || (p.bank == [] && p.pending == []))
    ensures FlashWords(chip, f, p, addr, pageStart, inPage, remaining) == (f, remaining == 0)
  {
    hide Apply, Read16, Refill;
  }

  lemma {:induction false} GuardRefuses(chip: Chip, f: Flash, a: nat)
    requires chip.Valid() && f.Fits(chip) && Guarded(chip, a)
    ensures Apply(chip, f, Erase(a)) == f && Apply(chip, f, Write(a)) == f
  {
    hide Apply, Rem;
    Refused(chip, f, a);
  }

  lemma {:induction false} NextPageGuarded(chip: Chip, a: nat)
    requires chip.Valid() && Guarded(chip, a)
    ensures Guarded(chip, a + chip.pageSize)
  {
    hide Rem;
    NextPageUnaligned(a, chip.pageSize);
  }

  /** The loop runs to its end if the host sends all the words, whatever the guard refuses. */
  lemma {:induction false} LoopFinishes(chip: Chip, f: Flash, p: OutPipe, addr: nat, pageStart: nat, inPage: byte,
                                        remaining: nat)
    requires chip.Valid() && f.Fits(chip) && WordPipe(p) && |Rest(p)| >= 2 * remaining
    requires addr + 2 * remaining < 0x1_0000_0000
    ensures FlashWords(chip, f, p, addr, pageStart, inPage, remaining).1
    decreases remaining
  {
    hide Apply, Read16, Refill, FlashWords, WordPipe, Rest;
    if remaining == 0 {
      LoopStops(chip, f, p, addr, pageStart, inPage, remaining);
    } else {
      RefillReadsWord(p);
      var (w, p1) := Read16(Refill(p));
      var f1 := Apply(chip, f, Fill(addr, w));
      FlashWordsTurn(chip, f, p, addr, pageStart, inPage, remaining);
      if remaining > 1 {
        var inPage1 := (inPage as int + 1) % 256;
        if inPage1 == chip.pageSize / 2 {
          var f3 := Apply(chip, Apply(chip, f1, Write(pageStart)), Erase(addr + 2));
          LoopFinishes(chip, f3, p1, addr + 2, addr + 2, 0, remaining - 1);
        } else {
          LoopFinishes(chip, f1, p1, addr + 2, pageStart, inPage1, remaining - 1);
        }
      }
    }
  }

  lemma {:induction false} NextPageUnaligned(a: nat, m: nat)
    requires m > 0
    ensures Rem(a + m, m) == Rem(a, m)
  {
  }
}
