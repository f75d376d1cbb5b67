/** What holds of the printer's HEX parser for every character stream whatsoever. */
module PrinterStream {
  import opened Bits
  import opened FlashMachine
  import opened HexText
  import opened Printer
  import opened PrinterImage

  // -- Characters that do not matter ---------------------------------------------------------------

  predicate Relevant(c: char) {
    c == ':' || '0' <= c <= '9' || 'A' <= c <= 'F'
  }

  function Filtered(s: string): (r: string) {
    if s == [] then [] else if Relevant(s[0]) then [s[0]] + Filtered(s[1..]) else Filtered(s[1..])
  }

  /** Equal, up to the three fields that any character resets while the parser waits for a line. */
  ghost predicate Similar(p: Parser, q: Parser) {
    p == q || (p.state.WaitLine? && q == p.(checksum := q.checksum, currAddr := q.currAddr, readMSB := q.readMSB))
  }

  lemma {:induction false} SimilarStep(chip: Chip, p: Parser, q: Parser, c: char)
    requires chip.Valid() && Similar(p, q)
    ensures Step(chip, p, c).1 == Step(chip, q, c).1
    ensures Similar(Step(chip, p, c).0, Step(chip, q, c).0)
    ensures !Relevant(c) ==> Step(chip, p, c).1 == [] && Similar(Step(chip, p, c).0, q)
  {
    hide ByteDone;
  }

  lemma {:induction false} SimilarFeed(chip: Chip, p: Parser, q: Parser, s: string)
    requires chip.Valid() && Similar(p, q)
    ensures FeedOps(chip, p, s) == FeedOps(chip, q, Filtered(s))
    ensures Similar(Feed(chip, p, s), Feed(chip, q, Filtered(s)))
    decreases |s|
  {
    hide Step;
    if s != [] {
      var p1, q1 := Step(chip, p, s[0]).0, Step(chip, q, s[0]).0;
      SimilarStep(chip, p, q, s[0]);
      if Relevant(s[0]) {
        SimilarFeed(chip, p1, q1, s[1..]);
        assert Filtered(s)[0] == s[0] && Filtered(s)[1..] == Filtered(s[1..]);
      } else {
        SimilarFeed(chip, p1, q, s[1..]);
      }
    }
  }

  /** Deleting every character outside 0-9, A-F and the colon changes no flash operation and not the exit. */
  lemma {:induction false} JunkIsIgnored(chip: Chip, p: Parser, s: string)
    requires chip.Valid()
    ensures FeedOps(chip, p, s) == FeedOps(chip, p, Filtered(s))
    ensures Feed(chip, p, s).running == Feed(chip, p, Filtered(s)).running
  {
    SimilarFeed(chip, p, p, s);
  }

  /** No stream changes the boot section. */
  lemma {:induction false} BootSectionKept(chip: Chip, m: Machine, s: string)
    requires chip.Valid() && m.f.Fits(chip)
    ensures Print(chip, m, s).f.mem[chip.bootStart..] == m.f.mem[chip.bootStart..]
  {
    hide Print, FeedOps, Feed;
    PrintIsFeed(chip, m, s);
    BootSectionUntouched(chip, m.f, FeedOps(chip, m.p, s));
  }

  // -- Page discipline -----------------------------------------------------------------------------

  /** The page erased last, if nothing was committed since; -1 if none is open. */
  function OpenedPage(ops: seq<FlashOp>): (r: int)
    decreases |ops|
  {
    if ops == [] then -1 else
      match ops[|ops| - 1]
      case Erase(a) => a
      case Write(_) => -1
      case Fill(_, _) => OpenedPage(ops[..|ops| - 1])
  }

  ghost predicate WritesFollowErases(ops: seq<FlashOp>) {
    forall i :: 0 <= i < |ops| && ops[i].Write? ==> OpenedPage(ops[..i]) == ops[i].addr
  }

  lemma {:induction false} OpenedPageIs(ops: seq<FlashOp>, a: nat)
    requires OpenedPage(ops) == a
    ensures exists j :: 0 <= j < |ops| && ops[j] == Erase(a) && forall k :: j < k < |ops| ==> ops[k].Fill?
    decreases |ops|
  {
    var n := |ops| - 1;
    if ops[n].Fill? {
      OpenedPageIs(ops[..n], a);
      var j :| 0 <= j < n && ops[..n][j] == Erase(a) && forall k :: j < k < n ==> ops[..n][k].Fill?;
      assert forall k :: j < k < n ==> ops[k] == ops[..n][k];
      assert ops[j] == Erase(a);
    }
  }

  ghost predicate Aligned(chip: Chip, p: Parser)
    requires chip.Valid()
  {
    && p.currAddr < AddressSpace(chip) && p.baseAddr < AddressSpace(chip)
    && Rem(p.pageStart, chip.pageSize) == 0
  }

  /** What every reachable parser state satisfies. */
  ghost predicate Sound(chip: Chip, p: Parser)
    requires chip.Valid()
  {
    Aligned(chip, p) && (p.state == ReadData ==> p.dataRem > 0)
  }

  /** The state and the operations so far agree on which page is open. */
  ghost predicate Tidy(p: Parser, ops: seq<FlashOp>) {
    && (p.pageDirty ==> OpenedPage(ops) == p.pageStart)
    && WritesFollowErases(ops)
  }

  lemma {:induction false} Append(ops: seq<FlashOp>, op: FlashOp)
    requires WritesFollowErases(ops)
    requires op.Write? ==> OpenedPage(ops) == op.addr
    ensures WritesFollowErases(ops + [op])
    ensures OpenedPage(ops + [op]) == if op.Erase? then op.addr else if op.Write? then -1 else OpenedPage(ops)
  {
    var r := ops + [op];
    assert r[..|ops|] == ops;
    forall i | 0 <= i < |r| && r[i].Write?
      ensures OpenedPage(r[..i]) == r[i].addr
    {
      if i < |ops| {
        assert r[..i] == ops[..i];
      }
    }
  }

  lemma {:induction false} FlushTidy(chip: Chip, p: Parser, ops: seq<FlashOp>)
    requires chip.Valid() && Aligned(chip, p) && Tidy(p, ops)
    ensures var (q, o) := Flush(chip, p);
            Aligned(chip, q) && Tidy(q, ops + o) && q == p.(pageStart := q.pageStart, pageDirty := q.pageDirty)
  {
    hide And, Rem, OpenedPage, WritesFollowErases;
    PageOfAddress(chip, p.currAddr);
    RemBase(p.currAddr, chip.pageSize);
    if p.pageDirty {
      Append(ops, Write(p.pageStart));
    }
    assert ops + [] == ops;
  }

  lemma {:induction false} DataWordTidy(chip: Chip, p: Parser, w: word, ops: seq<FlashOp>)
    requires chip.Valid() && Aligned(chip, p) && Tidy(p, ops)
    ensures var (q, o) := DataWord(chip, p, w);
            && Aligned(chip, q) && Tidy(q, ops + o)
            && q == p.(pageStart := q.pageStart, pageDirty := q.pageDirty, currAddr := q.currAddr)
  {
    hide And, Rem, OpenedPage, WritesFollowErases, Flush;
    var e, f := Erase(p.pageStart), Fill(p.currAddr, w);
    var p1 := p.(pageDirty := true, currAddr := (p.currAddr + 2) % AddressSpace(chip));
    var o1 := if p.pageDirty then ops + [f] else ops + [e] + [f];
    Append(ops, e);
    Append(ops, f);
    Append(ops + [e], f);
    FlushTidy(chip, p1, o1);
    var o2 := Flush(chip, p1).1;
    assert ops + ([f] + o2) == ops + [f] + o2;
    assert ops + ([e, f] + o2) == ops + [e] + [f] + o2;
  }

  lemma {:induction false} ByteDoneTidy(chip: Chip, p: Parser, ops: seq<FlashOp>)
    requires chip.Valid() && Sound(chip, p) && Tidy(p, ops)
    ensures var (q, o) := ByteDone(chip, p);
            Sound(chip, q) && Tidy(q, ops + o)
  {
    hide And, Rem, OpenedPage, WritesFollowErases, Flush, DataWord;
    var p1 := p.(checksum := (p.checksum + p.data) % 256);
    if p.state == ReadData {
      DataByteTidy(chip, p1, ops);
    } else if p.state == Checksum {
      FlushTidy(chip, p, ops);
    }
    assert ops + [] == ops;
  }

  lemma {:induction false} DataByteTidy(chip: Chip, p: Parser, ops: seq<FlashOp>)
    requires chip.Valid() && Sound(chip, p) && Tidy(p, ops) && p.state == ReadData
    ensures var (q, o) := DataByte(chip, p);
            Sound(chip, q) && Tidy(q, ops + o)
  {
    hide And, Rem, OpenedPage, WritesFollowErases, DataWord;
    DataWordTidy(chip, p.(dataRem := p.dataRem - 1), LE16(p.prevData, p.data), ops);
    assert ops + [] == ops;
  }

  lemma {:induction false} StepTidy(chip: Chip, p: Parser, c: char, ops: seq<FlashOp>)
    requires chip.Valid() && Sound(chip, p) && Tidy(p, ops)
    ensures var (q, o) := Step(chip, p, c);
            Sound(chip, q) && Tidy(q, ops + o)
  {
    hide And, Rem, OpenedPage, WritesFollowErases, ByteDone;
    var d := HexToDecimal(c);
    assert ops + [] == ops;
    if p.state != WaitLine && c != ':' && d >= 0 && p.readMSB {
      ByteDoneTidy(chip, p.(data := p.data * 16 % 256 + d, readMSB := false), ops);
    }
  }

  lemma {:induction false} FeedTidy(chip: Chip, p: Parser, s: string, ops: seq<FlashOp>)
    requires chip.Valid() && Sound(chip, p) && Tidy(p, ops)
    ensures Sound(chip, Feed(chip, p, s)) && Tidy(Feed(chip, p, s), ops + FeedOps(chip, p, s))
    decreases |s|
  {
    hide Step, Sound, Tidy;
    if s == [] {
      assert ops + [] == ops;
    } else {
      var (p1, o) := Step(chip, p, s[0]);
      StepTidy(chip, p, s[0], ops);
      FeedTidy(chip, p1, s[1..], ops + o);
      assert ops + (o + FeedOps(chip, p1, s[1..])) == ops + o + FeedOps(chip, p1, s[1..]);
    }
  }

  /**
   In every run from reset, a page is only committed right after an erase request for that same page
   with nothing but fills in between; the cached page address is page-aligned; the count of
   remaining data bytes never underflows.
   */
  lemma {:induction false} PageDiscipline(chip: Chip, s: string)
    requires chip.Valid()
    ensures Rem(Feed(chip, INITIAL, s).pageStart, chip.pageSize) == 0
    ensures Feed(chip, INITIAL, s).state == ReadData ==> Feed(chip, INITIAL, s).dataRem > 0
    ensures var ops := FeedOps(chip, INITIAL, s);
            forall i :: 0 <= i < |ops| && ops[i].Write? ==>
              exists j :: 0 <= j < i && ops[j] == Erase(ops[i].addr) && forall k :: j < k < i ==> ops[k].Fill?
  {
    hide Feed, FeedOps, OpenedPage;
    var ops := FeedOps(chip, INITIAL, s);
    assert Tidy(INITIAL, []);
    FeedTidy(chip, INITIAL, s, []);
    assert [] + ops == ops;
    forall i | 0 <= i < |ops| && ops[i].Write?
      ensures exists j :: 0 <= j < i && ops[j] == Erase(ops[i].addr) && forall k :: j < k < i ==> ops[k].Fill?
    {
      OpenedPageIs(ops[..i], ops[i].addr);
      var j :| 0 <= j < i && ops[..i][j] == Erase(ops[i].addr) && forall k :: j < k < i ==> ops[..i][k].Fill?;
      assert forall k :: j < k < i ==> ops[k] == ops[..i][k];
      assert ops[j] == ops[..i][j];
    }
  }
}
