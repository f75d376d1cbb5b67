/** The printer's parser state, read off the text of the record it is in. */
module PrinterRecord {
  import opened Bits
  import opened FlashMachine
  import opened HexText
  import opened Printer

  type nibble = x: int | 0 <= x < 16

  function WithDigit(n: seq<nibble>, c: char): (r: seq<nibble>) {
    if c == ':' then [] else if HexToDecimal(c) < 0 then n else n + [HexToDecimal(c)]
  }

  /** The hexadecimal digits after the last colon. */
  function Digits(s: string): (n: seq<nibble>) {
    if s == [] then [] else WithDigit(Digits(s[..|s| - 1]), s[|s| - 1])
  }

  function Byte(hi: nibble, lo: nibble): (b: byte) {
    16 * (hi as int) + lo
  }

  /** Those digits two by two; an odd one at the end is not a byte yet. */
  function Pairs(n: seq<nibble>): (b: seq<byte>)
    ensures |b| == |n| / 2
  {
    if |n| < 2 then []
    else if |n| % 2 == 1 then Pairs(n[..|n| - 1])
    else Pairs(n[..|n| - 2]) + [Byte(n[|n| - 2], n[|n| - 1])]
  }

  function RecordBytes(s: string): (b: seq<byte>) {
    Pairs(Digits(s))
  }

  /** The length of a record up to its checksum, announced by its first byte. */
  function BodyLength(b: seq<byte>): (r: nat)
    requires |b| > 0
  {
    4 + (b[0] as int)
  }

  /** Where a parser must be after the bytes `b` of a record. */
  function Expected(b: seq<byte>): (r: ParseState) {
    if |b| == 0 then ByteCount else if |b| == 1 then AddressHigh else if |b| == 2 then AddressLow
    else if |b| == 3 then RecordType else if |b| < BodyLength(b) then ReadData else Checksum
  }

  /** The bytes that the record's checksum covers: count, address, type and data received so far. */
  function Covered(b: seq<byte>): (r: seq<byte>) {
    if |b| == 0 || |b| <= BodyLength(b) then b else b[..BodyLength(b)]
  }

  ghost predicate InRecord(p: Parser, b: seq<byte>) {
    && p.state == Expected(b)
    && p.checksum == Sum(Covered(b)) % 256
    && (|b| >= 4 ==> p.recordType == b[3])
    && (1 <= |b| <= 4 ==> p.dataRem == b[0])
    && (4 <= |b| <= BodyLength(b) ==> p.dataRem == BodyLength(b) - |b|)
  }

  ghost predicate Tracks(p: Parser, n: seq<nibble>) {
    p.state != WaitLine ==>
      && p.readMSB == (|n| % 2 == 1)
      && (p.readMSB ==> p.data % 16 == n[|n| - 1])
      && InRecord(p, Pairs(n))
  }

  /** Processing one more byte either abandons the record or moves one byte further in it. */
  lemma {:induction false} ByteTracks(chip: Chip, p: Parser, b: seq<byte>)
    requires chip.Valid() && InRecord(p, b)
    ensures var q := ByteDone(chip, p).0;
            q.state == WaitLine || (InRecord(q, b + [p.data]) && q.readMSB == p.readMSB)
  {
    hide And, Sum, Flush, DataByte;
    CoveredNext(b, p.data);
    if |b| >= 4 && |b| >= BodyLength(b) {
      FlushKeeps(chip, p);
    } else if |b| >= 4 {
      DataByteKeeps(chip, p.(checksum := (p.checksum + p.data) % 256));
    }
  }

  lemma {:induction false} DataByteKeeps(chip: Chip, p: Parser)
    requires chip.Valid() && p.state == ReadData && p.dataRem > 0
    ensures var q := DataByte(chip, p).0;
            || q.state == WaitLine
            || (&& q.state == (if p.dataRem == 1 then Checksum else ReadData)
                && q.dataRem == p.dataRem - 1 && q.checksum == p.checksum
                && q.recordType == p.recordType && q.readMSB == p.readMSB)
  {
    hide DataWord;
    DataWordKeeps(chip, p.(dataRem := p.dataRem - 1), LE16(p.prevData, p.data));
  }

  lemma {:induction false} CoveredNext(b: seq<byte>, x: byte)
    ensures var c := b + [x];
            if |b| > 0 && |b| >= BodyLength(b) then Covered(c) == Covered(b)
            else Covered(b) == b && Sum(Covered(c)) % 256 == (Sum(b) % 256 + x) % 256
  {
    var c := b + [x];
    if |b| > 0 && |b| >= BodyLength(b) {
      assert c[..BodyLength(b)] == Covered(b);
    } else {
      assert c[..|b|] == b && Covered(c) == c;
      ModSum(Sum(b), x);
    }
  }

  lemma {:induction false} FlushKeeps(chip: Chip, p: Parser)
    requires chip.Valid()
    ensures var q := Flush(chip, p).0;
            q == p.(pageStart := q.pageStart, pageDirty := q.pageDirty)
  {
    hide And;
  }

  lemma {:induction false} DataWordKeeps(chip: Chip, p: Parser, w: word)
    requires chip.Valid()
    ensures var q := DataWord(chip, p, w).0;
            q == p.(pageStart := q.pageStart, pageDirty := q.pageDirty, currAddr := q.currAddr)
  {
    hide And;
  }

  lemma {:induction false} PairsNext(n: seq<nibble>, d: nibble)
    ensures Pairs(n + [d]) == if |n| % 2 == 0 then Pairs(n) else Pairs(n) + [Byte(n[|n| - 1], d)]
  {
    var m := n + [d];
    if |n| % 2 == 0 {
      assert m[..|m| - 1] == n;
    } else {
      assert m[..|m| - 2] == n[..|n| - 1];
    }
  }

  lemma {:induction false} StepTracks(chip: Chip, p: Parser, n: seq<nibble>, c: char)
    requires chip.Valid() && Tracks(p, n)
    ensures Tracks(Step(chip, p, c).0, WithDigit(n, c))
  {
    hide ByteDone, Pairs, InRecord;
    if p.state != WaitLine && c != ':' && HexToDecimal(c) >= 0 {
      var d := HexToDecimal(c);
      var p1 := p.(data := p.data * 16 % 256 + d, readMSB := !p.readMSB);
      PairsNext(n, d);
      SameRecord(p, p1, Pairs(n));
      NibbleShift(p.data, d);
      if p.readMSB {
        assert p1.data == Byte(n[|n| - 1], d);
        ByteTracks(chip, p1, Pairs(n));
      }
    } else if c == ':' {
      EmptyRecord(Step(chip, p, c).0);
    }
  }

  lemma {:induction false} SameRecord(p: Parser, q: Parser, b: seq<byte>)
    requires InRecord(p, b) && q == p.(data := q.data, readMSB := q.readMSB)
    ensures InRecord(q, b)
  {
  }

  lemma {:induction false} EmptyRecord(p: Parser)
    requires p.state == ByteCount && p.checksum == 0
    ensures InRecord(p, Pairs([]))
  {
  }

  lemma {:induction false} FeedTracks(chip: Chip, s: string)
    requires chip.Valid()
    ensures Tracks(Feed(chip, INITIAL, s), Digits(s))
    decreases |s|
  {
    hide Step, Pairs;
    if s != [] {
      var t, c := s[..|s| - 1], s[|s| - 1];
      FeedTracks(chip, t);
      FeedLast(chip, t, c);
      StepTracks(chip, Feed(chip, INITIAL, t), Digits(t), c);
      assert s == t + [c];
    }
  }

  lemma {:induction false} FeedLast(chip: Chip, t: string, c: char)
    requires chip.Valid()
    ensures Feed(chip, INITIAL, t + [c]) == Step(chip, Feed(chip, INITIAL, t), c).0
  {
    hide Step;
    FeedConcat(chip, INITIAL, t, [c]);
    assert [c][1..] == [];
  }

  /**
   For every character stream: unless the parser is waiting for a line, its state, checksum, record
   type and remaining count are those of the bytes printed since the last colon.
   */
  lemma {:induction false} ParserReadsRecord(chip: Chip, s: string)
    requires chip.Valid()
    ensures var p, b := Feed(chip, INITIAL, s), RecordBytes(s);
            p.state != WaitLine ==>
              && p.state == Expected(b)
              && p.checksum == Sum(Covered(b)) % 256
              && (|b| >= 4 ==> p.recordType == b[3])
              && (p.state == ReadData ==> p.dataRem == BodyLength(b) - |b| > 0)
  {
    hide Feed, Pairs, Digits;
    FeedTracks(chip, s);
  }

  /** The bytes of a record of type 01 that just summed to 0 modulo 256 with its checksum byte. */
  ghost predicate EndsFile(b: seq<byte>) {
    |b| >= 4 && |b| > BodyLength(b) && b[3] == TYPE_EOF && (Sum(Covered(b)) + b[|b| - 1]) % 256 == 0
  }

  /** The bootloader stops running exactly at the character that completes such a record. */
  lemma {:induction false} ExitExactly(chip: Chip, s: string, c: char)
    requires chip.Valid()
    ensures var p := Feed(chip, INITIAL, s);
            Feed(chip, INITIAL, s + [c]).running <==>
            p.running && !(p.state == Checksum && |Digits(s)| % 2 == 1 && HexToDecimal(c) >= 0
                           && EndsFile(RecordBytes(s + [c])))
  {
    hide Feed, Pairs, Step, Digits, Sum;
    var p, n := Feed(chip, INITIAL, s), Digits(s);
    FeedTracks(chip, s);
    FeedLast(chip, s, c);
    DigitsLast(s, c);
    if p.state == Checksum && p.readMSB && HexToDecimal(c) >= 0 {
      var d := HexToDecimal(c);
      PairsNext(n, d);
      var b, x := Pairs(n), Byte(n[|n| - 1], d);
      NibbleShift(p.data, d);
      CoveredNext(b, x);
      ModSum(Sum(Covered(b)), x);
      ChecksumRunning(chip, p, c);
      assert BodyLength(b + [x]) == BodyLength(b);
    } else {
      StepKeepsRunning(chip, p, c);
    }
  }

  lemma {:induction false} DigitsLast(s: string, c: char)
    ensures Digits(s + [c]) == WithDigit(Digits(s), c)
  {
    assert (s + [c])[..|s + [c]| - 1] == s;
  }

  lemma {:induction false} ChecksumRunning(chip: Chip, p: Parser, c: char)
    requires chip.Valid() && p.state == Checksum && p.readMSB && HexToDecimal(c) >= 0
    ensures var x := p.data * 16 % 256 + HexToDecimal(c);
            Step(chip, p, c).0.running == (p.running && !(p.recordType == TYPE_EOF && (p.checksum + x) % 256 == 0))
  {
    hide Flush, And, DataByte;
    var x := p.data * 16 % 256 + HexToDecimal(c);
    Negation(p.checksum, x);
    FlushKeeps(chip, p.(data := x, readMSB := false));
  }

  lemma {:induction false} StepKeepsRunning(chip: Chip, p: Parser, c: char)
    requires chip.Valid() && !(p.state == Checksum && p.readMSB && c != ':' && HexToDecimal(c) >= 0)
    ensures Step(chip, p, c).0.running == p.running
  {
    hide Flush, And, DataWord;
    if p.state == ReadData && c != ':' && HexToDecimal(c) >= 0 {
      var x := p.data * 16 % 256 + HexToDecimal(c);
      var p1 := p.(data := x, readMSB := false, checksum := (p.checksum + x) % 256, dataRem := (p.dataRem + 255) % 256);
      DataWordKeeps(chip, p1, LE16(p.prevData, x));
    }
  }
}
