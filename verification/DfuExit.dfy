/** How a DFU session ends, and how it recovers from an error. */
module DfuExit {
  import opened Bits
  import opened FlashMachine
  import opened Endpoint
  import opened Dfu
  import opened DfuTransfer

  // -- Commands that requests execute ------------------------------------------------------------------

  /** The device as it is when the command of the first packet has been read and is about to be executed. */
  ghost function CommandRead(cfg: Config, d: Dfu, p: OutPipe): (e: Dfu)
    requires cfg.Valid() && d.Fits(cfg) && p.pending != []
    ensures e.Fits(cfg) && e == d.(command := e.command, data := e.data, dataSize := e.dataSize)
  {
    var (b, p1) := Read8(NextPacket(p));
    ReadCommandData(d.(command := b, dataSize := (d.dataSize + 65535) % 65536), p1, 0).0
  }

  /** A command that waits for its exit request is executed first. */
  ghost function Resumed(cfg: Config, d: Dfu): (e: Dfu)
    requires cfg.Valid() && d.Fits(cfg)
    ensures e.Fits(cfg)
  {
    if d.waitForExit then ProcessCommand(cfg, d).(waitForExit := false) else d
  }

  /** The states of the device in which a request executes a command: none, one or two. */
  ghost function Executed(cfg: Config, d: Dfu, r: Request): (es: seq<Dfu>)
    requires cfg.Valid() && d.Fits(cfg)
    ensures |es| <= 2 && forall i :: 0 <= i < |es| ==> es[i].Fits(cfg)
  {
    if !r.toInterface || r.request != REQ_DNLOAD then [] else
      var d0 := d.(dataSize := r.length);
      var d1 := Resumed(cfg, d0);
      (if d.waitForExit then [d0] else [])
      + (if d1.dataSize == 0 || r.out == [] then [] else [CommandRead(cfg, d1, OutPipe([], r.out))])
  }

  lemma {:induction false} DnloadExecutes(cfg: Config, d: Dfu, r: Request)
    requires cfg.Valid() && d.Fits(cfg)
    ensures var d1 := Resumed(cfg, d);
            var p := OutPipe([], r.out);
            Dnload(cfg, d, r) ==
            if d1.dataSize == 0 then (if d1.state == DnloadIdle then Download(cfg, d1, p) else d1)
            else if r.out == [] then d1
            else
              var d2 := ProcessCommand(cfg, CommandRead(cfg, d1, p));
              if d2.state == DnloadIdle then Download(cfg, d2, ReceiveCommand(cfg, d1, p).1) else d2
  {
    hide ProcessCommand, ReadCommandData, Download;
  }

  // -- Leaving the bootloader ----------------------------------------------------------------------------

  /** A start command by jump, with no data left, over a blank first word of flash. */
  ghost predicate StartsByJump(cfg: Config, e: Dfu)
    requires cfg.Valid() && e.Fits(cfg)
  {
    && !e.secure && e.command == COMMAND_WRITE && e.data[0] == 0x03 && e.data[1] != 0x00 && e.dataSize == 0
    && FlashByte(cfg.chip, e.f, 0) == ERASED && FlashByte(cfg.chip, e.f, 1) == ERASED
  }

  lemma {:induction false} CommandClears(cfg: Config, e: Dfu)
    requires cfg.Valid() && e.Fits(cfg)
    ensures ProcessCommand(cfg, e).running <==> e.running && !StartsByJump(cfg, e)
  {
    hide Information, EraseFrom, FirstNonBlank, Apply, LE16, FlashByte;
  }

  lemma {:induction false} DownloadKeepsRunning(cfg: Config, d: Dfu, p: OutPipe)
    requires cfg.Valid() && d.Fits(cfg)
    ensures var q := Download(cfg, d, p);
            q.running == d.running && q.state == if d.dataSize == 0 then Idle else d.state
  {
    hide FlashWords, EepromBytes, Discard;
  }

  /** A request ends the bootloader if and only if it executes a start by jump while the first flash word is blank. */
  lemma {:induction false} ExitsIff(cfg: Config, d: Dfu, r: Request)
    requires cfg.Valid() && d.Fits(cfg)
    ensures Step(cfg, d, r).0.running <==>
            d.running && forall i :: 0 <= i < |Executed(cfg, d, r)| ==> !StartsByJump(cfg, Executed(cfg, d, r)[i])
  {
    hide ProcessCommand, Download, Dnload, StartsByJump, CommandRead, Upload, StateCode, ReceiveCommand;
    if r.toInterface && r.request == REQ_DNLOAD {
      var d0 := d.(dataSize := r.length);
      var d1 := Resumed(cfg, d0);
      CommandClears(cfg, d0);
      DnloadExecutes(cfg, d0, r);
      DownloadKeepsRunning(cfg, d1, OutPipe([], r.out));
      if d1.dataSize != 0 && r.out != [] {
        var e := CommandRead(cfg, d1, OutPipe([], r.out));
        CommandClears(cfg, e);
        DownloadKeepsRunning(cfg, ProcessCommand(cfg, e), ReceiveCommand(cfg, d1, OutPipe([], r.out)).1);
        var es := Executed(cfg, d, r);
        assert es == (if d.waitForExit then [d0, e] else [e]) && es[|es| - 1] == e;
      }
      if d.waitForExit {
        assert Executed(cfg, d, r)[0] == d0;
      }
    } else {
      assert Executed(cfg, d, r) == [];
      UploadKeepsRunning(cfg, d.(dataSize := r.length), r.credits);
    }
  }

  lemma {:induction false} UploadKeepsRunning(cfg: Config, d: Dfu, credits: nat)
    requires cfg.Valid() && d.Fits(cfg)
    ensures Upload(cfg, d, credits).0.running == d.running
  {
    hide UploadWords, UploadEeprom;
  }

  /** Request k of the session executes a start by jump over a blank first word. */
  ghost predicate ExitsAt(cfg: Config, d: Dfu, rs: seq<Request>, k: nat)
    requires cfg.Valid() && d.Fits(cfg) && k < |rs|
  {
    var es := Executed(cfg, Session(cfg, d, rs[..k]).0, rs[k]);
    exists i :: 0 <= i < |es| && StartsByJump(cfg, es[i])
  }

  /** A session that leaves the bootloader has at some point started by jump over a blank first word, and conversely. */
  lemma {:induction false} SessionExitsIff(cfg: Config, d: Dfu, rs: seq<Request>)
    requires cfg.Valid() && d.Fits(cfg) && d.running
    ensures !Session(cfg, d, rs).0.running <==> exists k :: 0 <= k < |rs| && ExitsAt(cfg, d, rs, k)
    decreases |rs|
  {
    hide Step, Executed, StartsByJump;
    if rs != [] {
      var d1 := Step(cfg, d, rs[0]).0;
      assert rs[..0] == [];
      ExitsIff(cfg, d, rs[0]);
      if d1.running {
        assert !ExitsAt(cfg, d, rs, 0);
        SessionExitsIff(cfg, d1, rs[1..]);
        forall k | 0 <= k < |rs| - 1
          ensures ExitsAt(cfg, d1, rs[1..], k) == ExitsAt(cfg, d, rs, k + 1)
        {
          LaterRequest(cfg, d, rs, k);
        }
        if exists k :: 0 <= k < |rs| && ExitsAt(cfg, d, rs, k) {
          var k :| 0 <= k < |rs| && ExitsAt(cfg, d, rs, k);
          assert ExitsAt(cfg, d1, rs[1..], k - 1);
        }
      } else {
        assert ExitsAt(cfg, d, rs, 0);
        StaysOut(cfg, d1, rs[1..]);
      }
    }
  }

  lemma {:induction false} StaysOut(cfg: Config, d: Dfu, rs: seq<Request>)
    requires cfg.Valid() && d.Fits(cfg) && !d.running
    ensures !Session(cfg, d, rs).0.running
    decreases |rs|
  {
    hide Step, Executed, StartsByJump;
    if rs != [] {
      ExitsIff(cfg, d, rs[0]);
      StaysOut(cfg, Step(cfg, d, rs[0]).0, rs[1..]);
    }
  }

  /** With an application in flash, the start request does not leave the bootloader; with none, it does. */
  lemma {:induction false} StartRequest(cfg: Config, d: Dfu, hi: byte, lo: byte, last: byte)
    requires cfg.Valid() && d.Fits(cfg) && !d.secure && !d.waitForExit && d.running && d.state != DnloadIdle
    ensures Step(cfg, d, Request(true, REQ_DNLOAD, 6, [[COMMAND_WRITE, 0x03, 0x01, hi, lo, last]], 0)).0.running
            <==> d.f.mem[0] != ERASED || d.f.mem[1] != ERASED
  {
    hide Step, ProcessCommand, FlashByte;
    var c: seq<byte> := [0x03, 0x01, hi, lo, last];
    assert [COMMAND_WRITE, 0x03, 0x01, hi, lo, last] == [COMMAND_WRITE] + c;
    var e := d.(command := COMMAND_WRITE, dataSize := 0, data := c);
    StartKeepsState(cfg, e);
    CommandStep(cfg, d, COMMAND_WRITE, c);
    CommandClears(cfg, e);
    FlashByteIs(cfg.chip, d.f, 0);
    FlashByteIs(cfg.chip, d.f, 1);
  }

  lemma {:induction false} StartKeepsState(cfg: Config, e: Dfu)
    requires cfg.Valid() && e.Fits(cfg) && !e.secure && e.command == COMMAND_WRITE
    ensures ProcessCommand(cfg, e).state == e.state
  {
    hide EraseFrom, FlashByte;
  }

  // -- Errors --------------------------------------------------------------------------------------------

  /** Clearing the status leaves the state alone: the device is idle afterwards if and only if it was. */
  lemma {:induction false} ClearStatusIff(cfg: Config, d: Dfu, r: Request)
    requires cfg.Valid() && d.Fits(cfg) && r.toInterface && r.request == REQ_CLRSTATUS
    ensures var q := Step(cfg, d, r).0;
            q.status == STATUS_OK && q.state == d.state && (q.state == Idle <==> d.state == Idle)
  {
    hide Dnload, Upload;
  }

  /** A command that opens a memory for programming or display. */
  predicate Opens(e: Dfu)
    requires |e.data| == 5
  {
    && !e.secure
    && ((e.command == COMMAND_PROG_START && (e.data[0] == 0x00 || e.data[0] == 0x01))
        || (e.command == COMMAND_DISP_DATA && (e.data[0] == 0x00 || e.data[0] == 0x02)))
  }

  lemma {:induction false} CommandLeavesError(cfg: Config, e: Dfu)
    requires cfg.Valid() && e.Fits(cfg) && e.state == Error
    ensures ProcessCommand(cfg, e).state != Error <==> Opens(e)
  {
    hide Information, EraseFrom, FirstNonBlank, Apply, LE16, FlashByte;
  }

  /** What a pending exit says of the command in force: it is a start command, accepted on an open device. */
  ghost predicate Pending(d: Dfu) {
    d.waitForExit ==> |d.data| == 5 && d.command == COMMAND_WRITE && d.data[0] == 0x03 && !d.secure
  }

  lemma {:induction false} CommandPends(cfg: Config, e: Dfu)
    requires cfg.Valid() && e.Fits(cfg) && !e.waitForExit
    ensures Pending(ProcessCommand(cfg, e))
  {
    hide Information, EraseFrom, FirstNonBlank, Apply, LE16, FlashByte;
  }

  lemma {:induction false} DownloadPends(cfg: Config, d: Dfu, p: OutPipe)
    requires cfg.Valid() && d.Fits(cfg) && Pending(d)
    ensures Pending(Download(cfg, d, p))
  {
    hide FlashWords, EepromBytes, Discard;
  }

  lemma {:induction false} UploadPends(cfg: Config, d: Dfu, credits: nat)
    requires cfg.Valid() && d.Fits(cfg) && Pending(d)
    ensures Pending(Upload(cfg, d, credits).0)
  {
    hide UploadWords, UploadEeprom;
  }

  /** Every request keeps that, so it holds in every state that a session reaches from reset. */
  lemma {:induction false} StepPends(cfg: Config, d: Dfu, r: Request)
    requires cfg.Valid() && d.Fits(cfg) && Pending(d)
    ensures Pending(Step(cfg, d, r).0)
  {
    hide ProcessCommand, Download, Dnload, CommandRead, Upload, StateCode, ReceiveCommand;
    var d0, p := d.(dataSize := r.length), OutPipe([], r.out);
    if r.toInterface && r.request == REQ_DNLOAD {
      var d1 := Resumed(cfg, d0);
      DnloadExecutes(cfg, d0, r);
      DownloadPends(cfg, d1, p);
      if d1.dataSize != 0 && r.out != [] {
        var e := CommandRead(cfg, d1, p);
        CommandPends(cfg, e);
        DownloadPends(cfg, ProcessCommand(cfg, e), ReceiveCommand(cfg, d1, p).1);
      }
    } else {
      UploadPends(cfg, d0, r.credits);
    }
  }

  lemma {:induction false} SessionPends(cfg: Config, d: Dfu, rs: seq<Request>)
    requires cfg.Valid() && d.Fits(cfg) && Pending(d)
    ensures Pending(Session(cfg, d, rs).0)
    decreases |rs|
  {
    hide Step, Pending;
    if rs != [] {
      StepPends(cfg, d, rs[0]);
      SessionPends(cfg, Step(cfg, d, rs[0]).0, rs[1..]);
    }
  }

  /** A request that ends the error state: an abort, or one whose last command opens a memory. */
  ghost predicate Recovers(cfg: Config, d: Dfu, r: Request)
    requires cfg.Valid() && d.Fits(cfg)
  {
    var es := Executed(cfg, d, r);
    if es == [] then r.toInterface && r.request == REQ_ABORT else Opens(es[|es| - 1])
  }

  /** A request leaves the error state if and only if it is an abort or its last command opens a memory. */
  lemma {:induction false} LeavesErrorIff(cfg: Config, d: Dfu, r: Request)
    requires cfg.Valid() && d.Fits(cfg) && d.state == Error && Pending(d)
    ensures Step(cfg, d, r).0.state != Error <==> Recovers(cfg, d, r)
  {
    hide ProcessCommand, Download, Dnload, CommandRead, UploadMemory, StateCode, ReceiveCommand, Opens;
    if r.toInterface && r.request == REQ_DNLOAD {
      var d0 := d.(dataSize := r.length);
      var d1 := Resumed(cfg, d0);
      DnloadExecutes(cfg, d0, r);
      if d.waitForExit {
        StartKeepsState(cfg, d0);
      }
      CommandLeavesError(cfg, d0);
      DownloadKeepsRunning(cfg, d1, OutPipe([], r.out));
      if d1.dataSize != 0 && r.out != [] {
        var e := CommandRead(cfg, d1, OutPipe([], r.out));
        DownloadKeepsRunning(cfg, ProcessCommand(cfg, e), ReceiveCommand(cfg, d1, OutPipe([], r.out)).1);
        CommandLeavesError(cfg, e);
      }
    } else {
      assert Executed(cfg, d, r) == [];
    }
  }

  /** Request k of a session recovers, from the state it meets. */
  ghost predicate RecoversAt(cfg: Config, d: Dfu, rs: seq<Request>, k: nat)
    requires cfg.Valid() && d.Fits(cfg) && k < |rs|
  {
    Recovers(cfg, Session(cfg, d, rs[..k]).0, rs[k])
  }

  ghost predicate ErrorAfter(cfg: Config, d: Dfu, rs: seq<Request>, k: nat)
    requires cfg.Valid() && d.Fits(cfg) && k <= |rs|
  {
    Session(cfg, d, rs[..k]).0.state == Error
  }

  /**
   Over a session the device is in error all the way if and only if no request recovers: clearing the status, reading
   it, uploading and all other commands stay in error.
   */
  lemma {:induction false} ErrorPersistsIff(cfg: Config, d: Dfu, rs: seq<Request>)
    requires cfg.Valid() && d.Fits(cfg) && d.state == Error && Pending(d)
    ensures (forall k :: 0 <= k <= |rs| ==> ErrorAfter(cfg, d, rs, k)) <==>
            (forall k :: 0 <= k < |rs| ==> !RecoversAt(cfg, d, rs, k))
    decreases |rs|
  {
    hide Step, Recovers, Pending;
    assert rs[..0] == [] && ErrorAfter(cfg, d, rs, 0);
    if rs != [] {
      var d1, tail := Step(cfg, d, rs[0]).0, rs[1..];
      StepPends(cfg, d, rs[0]);
      LeavesErrorIff(cfg, d, rs[0]);
      forall k | 0 <= k < |rs|
        ensures ErrorAfter(cfg, d1, tail, k) == ErrorAfter(cfg, d, rs, k + 1)
        ensures k + 1 < |rs| ==> RecoversAt(cfg, d1, tail, k) == RecoversAt(cfg, d, rs, k + 1)
      {
        LaterRequest(cfg, d, rs, k);
      }
      assert ErrorAfter(cfg, d1, tail, 0) == ErrorAfter(cfg, d, rs, 1);
      assert RecoversAt(cfg, d, rs, 0) == Recovers(cfg, d, rs[0]);
      assert tail[..0] == [];
      if d1.state == Error {
        ErrorPersistsIff(cfg, d1, tail);
        assert forall k :: 0 < k <= |rs| ==> ErrorAfter(cfg, d, rs, k) == ErrorAfter(cfg, d1, tail, k - 1);
        assert forall k :: 0 < k < |rs| ==> RecoversAt(cfg, d, rs, k) == RecoversAt(cfg, d1, tail, k - 1);
      }
    }
  }
}
