/** Secure mode of the DFU bootloader: what a session that starts locked can reveal. */
module DfuSecure {
  import opened Bits
  import opened FlashMachine
  import opened Endpoint
  import opened Dfu

  /** While the device is locked it is neither uploading nor downloading, nor about to exit. */
  ghost predicate Locked(d: Dfu) {
    d.secure ==> (d.state == Idle || d.state == Error) && !d.waitForExit
  }

  /** Two devices that differ at most in the application section, and only as long as they are locked. */
  ghost predicate Alike(cfg: Config, d: Dfu, e: Dfu)
    requires cfg.Valid()
  {
    && d.Fits(cfg) && e.Fits(cfg) && Locked(d)
    && (!d.secure ==> d == e)
    && e == d.(f := e.f) && d.f.buf == e.f.buf
    && d.f.mem[cfg.chip.bootStart..] == e.f.mem[cfg.chip.bootStart..]
  }

  /** The three outcomes of a command on a locked device. */
  lemma {:induction false} LockedCommand(cfg: Config, d: Dfu)
    requires cfg.Valid() && d.Fits(cfg) && d.secure
    ensures ProcessCommand(cfg, d) ==
            if d.command == COMMAND_READ then ReadCommand(cfg, d)
            else if Allowed(d) then d.(f := EraseFrom(cfg.chip, d.f, 0), secure := false)
            else d.(state := Error, status := ERR_WRITE)
  {
    hide EraseFrom, MemProg, MemRead, ReadCommand;
  }

  lemma {:induction false} ReadCommandAlike(cfg: Config, d: Dfu, f: Flash)
    requires cfg.Valid() && d.Fits(cfg) && f.Fits(cfg.chip)
    ensures var r := ReadCommand(cfg, d);
            && r == d.(response := r.response, state := r.state, status := r.status)
            && (r.state == d.state || r.state == Error)
            && ReadCommand(cfg, d.(f := f)) == r.(f := f)
  {
    hide Information;
  }

  lemma {:induction false} AlikeCommand(cfg: Config, d: Dfu, e: Dfu)
    requires cfg.Valid() && Alike(cfg, d, e)
    ensures Alike(cfg, ProcessCommand(cfg, d), ProcessCommand(cfg, e))
  {
    hide EraseFrom, ProcessCommand, ReadCommand;
    if d.secure {
      EraseAll(cfg.chip, d.f);
      EraseAll(cfg.chip, e.f);
      LockedCommand(cfg, d);
      LockedCommand(cfg, e);
      ReadCommandAlike(cfg, d, e.f);
    }
  }

  lemma {:induction false} AlikeCommandData(cfg: Config, d: Dfu, e: Dfu, p: OutPipe, k: nat)
    requires cfg.Valid() && Alike(cfg, d, e) && k <= 5
    ensures var (d1, p1) := ReadCommandData(d, p, k);
            var (e1, q1) := ReadCommandData(e, p, k);
            Alike(cfg, d1, e1) && p1 == q1
    decreases 5 - k
  {
    if k < 5 && p.bank != [] {
      var (b, p1) := Read8(p);
      var n := (d.dataSize + 65535) % 65536;
      AlikeCommandData(cfg, d.(data := d.data[k := b], dataSize := n), e.(data := e.data[k := b], dataSize := n), p1,
                       k + 1);
    }
  }

  lemma {:induction false} AlikeDnload(cfg: Config, d: Dfu, e: Dfu, r: Request)
    requires cfg.Valid() && Alike(cfg, d, e)
    ensures Alike(cfg, Dnload(cfg, d, r), Dnload(cfg, e, r))
  {
    hide ProcessCommand, Download, ReadCommandData;
    if d.secure && d.dataSize != 0 && r.out != [] {
      var (b, p1) := Read8(NextPacket(OutPipe([], r.out)));
      var n := (d.dataSize + 65535) % 65536;
      AlikeCommandData(cfg, d.(command := b, dataSize := n), e.(command := b, dataSize := n), p1, 0);
      var d2 := ReadCommandData(d.(command := b, dataSize := n), p1, 0).0;
      var e2 := ReadCommandData(e.(command := b, dataSize := n), p1, 0).0;
      AlikeCommand(cfg, d2, e2);
    }
  }

  lemma {:induction false} AlikeStep(cfg: Config, d: Dfu, e: Dfu, r: Request)
    requires cfg.Valid() && Alike(cfg, d, e)
    ensures Alike(cfg, Step(cfg, d, r).0, Step(cfg, e, r).0)
    ensures Step(cfg, d, r).1 == Step(cfg, e, r).1
  {
    hide Dnload, UploadWords, UploadEeprom;
    if r.toInterface {
      AlikeDnload(cfg, d.(dataSize := r.length), e.(dataSize := r.length), r);
    }
  }

  /**
   Whatever requests follow, two locked devices that differ only in their application flash send the
   host exactly the same packets: a locked session reveals nothing of the application.
   */
  lemma {:induction false} LockedSessionRevealsNothing(cfg: Config, d: Dfu, e: Dfu, rs: seq<Request>)
    requires cfg.Valid() && Alike(cfg, d, e)
    ensures Session(cfg, d, rs).1 == Session(cfg, e, rs).1
    decreases |rs|
  {
    hide Step, Alike;
    if rs != [] {
      AlikeFits(cfg, d, e);
      AlikeStep(cfg, d, e, rs[0]);
      LockedSessionRevealsNothing(cfg, Step(cfg, d, rs[0]).0, Step(cfg, e, rs[0]).0, rs[1..]);
    }
  }

  lemma {:induction false} AlikeFits(cfg: Config, d: Dfu, e: Dfu)
    requires cfg.Valid() && Alike(cfg, d, e)
    ensures d.Fits(cfg) && e.Fits(cfg)
  {
  }

  /** One request leaves a locked device locked with its flash untouched, or blanks the whole application section. */
  lemma {:induction false} UnlockErases(cfg: Config, d: Dfu, r: Request)
    requires cfg.Valid() && d.Fits(cfg) && d.secure && Locked(d)
    ensures var q := Step(cfg, d, r).0;
            if q.secure then q.f == d.f && Locked(q)
            else q.f.mem == Blank(cfg.chip.bootStart) + d.f.mem[cfg.chip.bootStart..]
  {
    hide ProcessCommand, ReadCommandData, EraseFrom, Download;
    if r.toInterface && r.request == REQ_DNLOAD && r.length != 0 && r.out != [] {
      var (b, p1) := Read8(NextPacket(OutPipe([], r.out)));
      var d1 := d.(dataSize := (r.length + 65535) % 65536, command := b);
      var d2 := ReadCommandData(d1, p1, 0).0;
      LockedCommand(cfg, d2);
      ReadCommandAlike(cfg, d2, d2.f);
      EraseAll(cfg.chip, d2.f);
    }
  }

  /**
   A session leaves a device locked only if every request on the way kept it locked, idle or in error, and left its
   flash alone.
   */
  lemma {:induction false} LockedSessionKeepsFlash(cfg: Config, d: Dfu, rs: seq<Request>)
    requires cfg.Valid() && d.Fits(cfg) && d.secure && Locked(d) && Session(cfg, d, rs).0.secure
    ensures forall k :: 0 <= k <= |rs| ==>
              var q := Session(cfg, d, rs[..k]).0;
              q.secure && q.f == d.f && q.state in {Idle, Error}
    decreases |rs|
  {
    hide Step;
    assert rs[..0] == [];
    if rs != [] {
      var d1 := Step(cfg, d, rs[0]).0;
      if !d1.secure {
        NeverLocks(cfg, d1, rs[1..]);
      }
      UnlockErases(cfg, d, rs[0]);
      LockedSessionKeepsFlash(cfg, d1, rs[1..]);
      forall k | 0 < k <= |rs|
        ensures var q := Session(cfg, d, rs[..k]).0;
                q.secure && q.f == d.f && q.state in {Idle, Error}
      {
        LaterRequest(cfg, d, rs, k - 1);
      }
    }
  }

  lemma {:induction false} NeverLocks(cfg: Config, d: Dfu, rs: seq<Request>)
    requires cfg.Valid() && d.Fits(cfg) && !d.secure
    ensures !Session(cfg, d, rs).0.secure
    decreases |rs|
  {
    hide Step;
    if rs != [] {
      NeverLocks(cfg, Step(cfg, d, rs[0]).0, rs[1..]);
    }
  }

  // -- The boot section -------------------------------------------------------------------------------

  ghost predicate SameBoot(chip: Chip, f: Flash, g: Flash)
    requires f.Fits(chip) && g.Fits(chip) && chip.bootStart <= chip.flashSize
  {
    f.mem[chip.bootStart..] == g.mem[chip.bootStart..]
  }

  lemma {:induction false} FlashWordsKeepBoot(chip: Chip, f: Flash, p: OutPipe, addr: nat, pageStart: nat, inPage: byte,
                                              remaining: nat)
    requires chip.Valid() && f.Fits(chip)
    ensures SameBoot(chip, FlashWords(chip, f, p, addr, pageStart, inPage, remaining).0, f)
    decreases remaining
  {
    hide Apply, Read16, Refill;
    if remaining > 0 && (p.bank != [] || p.pending != []) {
      var (w, p1) := Read16(Refill(p));
      var addr1 := (addr + 2) % 0x1_0000_0000;
      var f1 := Apply(chip, f, Fill(addr, w));
      ApplyKeepsBoot(chip, f, Fill(addr, w));
      var f2 := Apply(chip, f1, Write(pageStart));
      ApplyKeepsBoot(chip, f1, Write(pageStart));
      ApplyKeepsBoot(chip, f2, Erase(addr1));
      FlashWordsKeepBoot(chip, Apply(chip, f2, Erase(addr1)), p1, addr1, addr1, 0, remaining - 1);
      FlashWordsKeepBoot(chip, f1, p1, addr1, pageStart, (inPage + 1) % 256, remaining - 1);
    }
  }

  lemma {:induction false} CommandKeepsBoot(cfg: Config, d: Dfu)
    requires cfg.Valid() && d.Fits(cfg)
    ensures SameBoot(cfg.chip, ProcessCommand(cfg, d).f, d.f)
  {
    hide Apply, EraseFrom, FirstNonBlank;
    EraseAll(cfg.chip, d.f);
    ApplyKeepsBoot(cfg.chip, d.f, Erase(FlashAddress(LoadAddresses(d))));
  }

  lemma {:induction false} DownloadKeepsBoot(cfg: Config, d: Dfu, p: OutPipe)
    requires cfg.Valid() && d.Fits(cfg)
    ensures SameBoot(cfg.chip, Download(cfg, d, p).f, d.f)
  {
    hide FlashWords, Discard;
    var a := FlashAddress(d);
    FlashWordsKeepBoot(cfg.chip, d.f, Discard(Discard(p, FILLER_SIZE), d.startAddr % CONTROL_SIZE), a, a, 0,
                       BytesRemaining(d) / 2);
  }

  lemma {:induction false} DnloadKeepsBoot(cfg: Config, d: Dfu, r: Request)
    requires cfg.Valid() && d.Fits(cfg)
    ensures SameBoot(cfg.chip, Dnload(cfg, d, r).f, d.f)
  {
    hide ProcessCommand, Download, ReadCommandData;
    CommandKeepsBoot(cfg, d);
    var d1 := if d.waitForExit then ProcessCommand(cfg, d).(waitForExit := false) else d;
    if d1.dataSize == 0 {
      DownloadKeepsBoot(cfg, d1, OutPipe([], r.out));
    } else if r.out != [] {
      var (b, p1) := Read8(NextPacket(OutPipe([], r.out)));
      var (d2, p2) := ReadCommandData(d1.(command := b, dataSize := (d1.dataSize + 65535) % 65536), p1, 0);
      CommandKeepsBoot(cfg, d2);
      DownloadKeepsBoot(cfg, ProcessCommand(cfg, d2), p2);
    }
  }

  /** No session, locked or not, changes the boot section. */
  lemma {:induction false} SessionKeepsBoot(cfg: Config, d: Dfu, rs: seq<Request>)
    requires cfg.Valid() && d.Fits(cfg)
    ensures Session(cfg, d, rs).0.f.mem[cfg.chip.bootStart..] == d.f.mem[cfg.chip.bootStart..]
    decreases |rs|
  {
    hide Dnload, UploadWords, UploadEeprom;
    if rs != [] {
      var d1 := Step(cfg, d, rs[0]).0;
      DnloadKeepsBoot(cfg, d.(dataSize := rs[0].length), rs[0]);
      assert SameBoot(cfg.chip, d1.f, d.f);
      SessionKeepsBoot(cfg, d1, rs[1..]);
    }
  }
}
