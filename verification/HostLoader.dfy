/**
 The HID host loader's HEX reader and block selection (hid_bootloader_cli.c), as functions of the memory it has loaded.
 */
module HostLoader {
  import opened Bits
  import opened HexText

  const MAX_MEMORY_SIZE := 0x10_0000

  /** The loader adds addresses as 32-bit unsigned numbers, so a sum is taken modulo this. */
  const ADDRESS_WRAP := 0x1_0000_0000

  /** The largest base that a type 02 or 04 record sets. */
  const LAST_BASE := 0xFFFF_0000

  /**
   The loader's statics: firmware_image where firmware_mask is set, as a map (elsewhere the image
   holds 0xFF), end_record_seen, byte_count and extended_addr. A key at or above MAX_MEMORY_SIZE is an
   element the loader stored outside its two arrays.
   */
  datatype Hex = Hex(cells: map<nat, byte>, endSeen: bool, byteCount: nat, extAddr: nat)

  const EMPTY := Hex(map[], false, 0, 0)

  datatype Target = Target(codeSize: nat, blockSize: nat)

  /** Value of a hexadecimal digit of either case, -1 for any other character. */
  function DigitValue(c: char): (d: int)
    ensures -1 <= d < 16
  {
    if '0' <= c <= '9' then c as int - '0' as int
    else if 'A' <= c <= 'F' then c as int - 'A' as int + 10
    else if 'a' <= c <= 'f' then c as int - 'a' as int + 10
    else -1
  }

  /** sscanf with %02x or %04x: as many digits as there are, at most `width`; -1 if there is none. */
  function Scan(line: string, at: nat, width: nat): (v: int)
    ensures v >= -1
    decreases width
  {
    if width == 0 || at >= |line| || DigitValue(line[at]) < 0 then -1
      else ScanMore(line, at + 1, width - 1, DigitValue(line[at]))
  }

  function ScanMore(line: string, at: nat, width: nat, value: nat): (v: nat)
    ensures v >= value
    decreases width
  {
    if width == 0 || at >= |line| || DigitValue(line[at]) < 0 then value
    else ScanMore(line, at + 1, width - 1, 16 * value + DigitValue(line[at]))
  }

  /** The base that an extended linear address sets, with the loader's special case for Teensy 4 images. */
  function LinearBase(target: Target, v: nat): (r: nat) {
    var base := v * 65536;
    if target.codeSize > 1048576 && target.blockSize >= 1024 && 0x6000_0000 <= base < 0x6000_0000 + target.codeSize
    then base - 0x6000_0000 else base
  }

  /** One element of firmware_image and firmware_mask, at an unsigned index. */
  function Store(h: Hex, at: nat, b: byte): (q: Hex) {
    h.(cells := h.cells[at % ADDRESS_WRAP := b])
  }

  /** The bound test of parse_hex_line, on the sum as it wraps. */
  predicate Refuses(h: Hex, addr: nat, len: nat) {
    (addr + h.extAddr + len) % ADDRESS_WRAP >= MAX_MEMORY_SIZE
  }

  /** The data loop of parse_hex_line, and the checksum test after it. */
  function ParseData(h: Hex, line: string, base: nat, len: nat, num: nat, sum: nat): (r: (Hex, bool))
    requires num <= len
    decreases len - num
  {
    if num == len then
      var cksum := Scan(line, 9 + 2 * len, 2);
      (h, cksum >= 0 && (sum + cksum) % 256 == 0)
    else
      var i := Scan(line, 9 + 2 * num, 2);
      if i < 0 then (h, false)
      else ParseData(Store(h, base + num, i % 256), line, base, len, num + 1, sum + i % 256)
  }

  /** A record of type 02 or 04: the new base, if it is well formed and its sum is right. */
  function ParseBase(h: Hex, target: Target, line: string, code: nat, sum: nat): (r: Hex) {
    var i := Scan(line, 9, 4);
    var cksum := Scan(line, 13, 2);
    if i < 0 || cksum < 0 || (sum + i / 256 % 256 + i % 256 + cksum) % 256 != 0 then h
    else h.(extAddr := if code == 2 then i * 16 else LinearBase(target, i))
  }

  /** parse_hex_line */
  function ParseLine(h: Hex, target: Target, line: string): (r: (Hex, bool)) {
    if |line| < 11 || line[0] != ':' then (h, false) else
      var len := Scan(line, 1, 2);
      if len < 0 || |line| < 11 + 2 * len then (h, false) else
        var addr := Scan(line, 3, 4);
        if addr < 0 then (h, false) else
          var code := Scan(line, 7, 2);
          if code < 0 || Refuses(h, addr, len) then (h, false) else
            var sum := len % 256 + addr / 256 % 256 + addr % 256 + code % 256;
            if code == 1 then (h.(endSeen := true), true)
            else if (code == 2 || code == 4) && len == 2 then (ParseBase(h, target, line, code, sum), true)
            else if code != 0 then (h, true)
            else ParseData(h.(byteCount := h.byteCount + len), line, addr + h.extAddr, len, 0, sum)
  }

  /** read_intel_hex from some line on: the byte count, or -2 at the first bad line. */
  function ReadLines(h: Hex, target: Target, lines: seq<string>): (r: (Hex, int))
    decreases |lines|
  {
    if lines == [] then (h, h.byteCount)
    else if lines[0] == [] then ReadLines(h, target, lines[1..])
    else
      var (h1, ok) := ParseLine(h, target, lines[0]);
      if !ok then (h1, -2)
      else if h1.endSeen then (h1, h1.byteCount)
      else ReadLines(h1, target, lines[1..])
  }

  // -- What a file of records means ---------------------------------------------------------------------

  datatype Record = Record(addr: nat, kind: byte, data: seq<byte>) {
    ghost predicate Valid() {
      addr < 65536 && |data| < 256
    }
  }

  function Body(r: Record): (b: seq<byte>)
    requires r.Valid()
  {
    RecordBody(r.addr, r.kind, r.data)
  }

  /** The line that prints a record with some checksum byte, right or wrong. */
  function LineWith(r: Record, c: byte, eol: string): (s: string)
    requires r.Valid()
  {
    ":" + HexBytes(Body(r)) + HexByte(c) + eol
  }

  function LineOf(r: Record, eol: string): (s: string)
    requires r.Valid()
  {
    RecordText(r.addr, r.kind, r.data) + eol
  }

  lemma {:induction false} LineOfIs(r: Record, eol: string)
    requires r.Valid()
    ensures LineOf(r, eol) == LineWith(r, ChecksumOf(Body(r)), eol)
  {
  }

  /** The cells at `at` and after it, set to the bytes of `data`. */
  function Placed(at: nat, data: seq<byte>): (m: map<nat, byte>)
    ensures forall i :: i in m <==> at <= i < at + |data|
    ensures forall i :: i in m ==> m[i] == data[i - at]
  {
    if data == [] then map[] else
      var n := |data| - 1;
      Placed(at, data[..n])[at + n := data[n]]
  }

  /** How far index i lies behind `at`, going round at the end of the 32-bit range. */
  function Offset(i: nat, at: nat): (k: nat)
    ensures k < ADDRESS_WRAP
    ensures i < ADDRESS_WRAP ==> i == (at + k) % ADDRESS_WRAP
  {
    (i - at) % ADDRESS_WRAP
  }

  /** The elements that a record's data goes to when its addresses go round. */
  function Wrapped(at: nat, data: seq<byte>): (m: map<nat, byte>) {
    map i: nat | i < ADDRESS_WRAP && Offset(i, at) < |data| :: data[Offset(i, at)]
  }

  /** Below the end of the 32-bit range they are simply the ones at `at` and after it. */
  lemma {:induction false} WrappedIsPlaced(at: nat, data: seq<byte>)
    requires at + |data| <= ADDRESS_WRAP
    ensures Wrapped(at, data) == Placed(at, data)
  {
    hide Placed, Offset;
    forall i: nat | i < ADDRESS_WRAP
      ensures Offset(i, at) < |data| <==> at <= i < at + |data|
      ensures Offset(i, at) < |data| ==> Offset(i, at) == i - at
    {
      OffsetFrom(i, at, |data|);
    }
  }

  lemma {:induction false} OffsetFrom(i: nat, at: nat, n: nat)
    requires i < ADDRESS_WRAP && at + n <= ADDRESS_WRAP
    ensures Offset(i, at) < n <==> at <= i < at + n
    ensures Offset(i, at) < n ==> Offset(i, at) == i - at
  {
  }

  /** What one record adds: data over what was there, or a new base for the records after it. */
  function Loaded(h: Hex, target: Target, r: Record): (q: Hex) {
    if r.kind == TYPE_DATA then
      h.(cells := h.cells + Wrapped(h.extAddr + r.addr, r.data), byteCount := h.byteCount + |r.data|)
    else if r.kind == TYPE_EOF then h.(endSeen := true)
    else if r.kind == TYPE_SEGMENT && |r.data| == 2 then h.(extAddr := LE16(r.data[1], r.data[0]) * 16)
    else if r.kind == TYPE_LINEAR && |r.data| == 2 then h.(extAddr := LinearBase(target, LE16(r.data[1], r.data[0])))
    else h
  }

  lemma {:induction false} DigitReads(n: nat)
    requires n < 16
    ensures DigitValue(Digit(n)) == n
  {
  }

  /** Two printed digits are read back as the byte they stand for. */
  lemma {:induction false} ScanByte(line: string, at: nat, b: byte)
    requires at + 2 <= |line| && line[at] == Digit(b / 16) && line[at + 1] == Digit(b % 16)
    ensures Scan(line, at, 2) == b
  {
    DigitReads(b / 16);
    DigitReads(b % 16);
    assert ScanMore(line, at + 2, 0, b) == b;
    assert ScanMore(line, at + 1, 1, b / 16) == b;
  }

  lemma {:induction false} ScanWord(line: string, at: nat, hi: byte, lo: byte)
    requires at + 4 <= |line| && line[at] == Digit(hi / 16) && line[at + 1] == Digit(hi % 16)
    requires line[at + 2] == Digit(lo / 16) && line[at + 3] == Digit(lo % 16)
    ensures Scan(line, at, 4) == LE16(lo, hi)
  {
    DigitReads(hi / 16);
    DigitReads(hi % 16);
    DigitReads(lo / 16);
    DigitReads(lo % 16);
    assert ScanMore(line, at + 4, 0, LE16(lo, hi)) == LE16(lo, hi);
    assert ScanMore(line, at + 3, 1, 16 * (hi as int) + lo / 16) == LE16(lo, hi);
    assert ScanMore(line, at + 2, 2, hi) == LE16(lo, hi);
    assert ScanMore(line, at + 1, 3, hi / 16) == LE16(lo, hi);
  }

  lemma {:induction false} HexBytesAt(bs: seq<byte>, i: nat)
    requires i < |bs|
    ensures HexBytes(bs)[2 * i] == Digit(bs[i] / 16) && HexBytes(bs)[2 * i + 1] == Digit(bs[i] % 16)
    decreases |bs|
  {
    if i > 0 {
      HexBytesAt(bs[1..], i - 1);
    }
  }

  /** Byte i of the record, in the line that prints it. */
  function LineByte(r: Record, c: byte, i: nat): (b: byte)
    requires r.Valid() && i < 5 + |r.data|
  {
    if i < 4 + |r.data| then Body(r)[i] else c
  }

  lemma {:induction false} LineDigits(r: Record, c: byte, eol: string, i: nat)
    requires r.Valid() && i < 5 + |r.data|
    ensures var line := LineWith(r, c, eol);
            && |line| == 11 + 2 * |r.data| + |eol| && line[0] == ':'
            && line[1 + 2 * i] == Digit(LineByte(r, c, i) / 16) && line[2 + 2 * i] == Digit(LineByte(r, c, i) % 16)
  {
    hide HexBytes, RecordBody;
    if i < |Body(r)| {
      HexBytesAt(Body(r), i);
    }
  }

  lemma {:induction false} ScanLineByte(r: Record, c: byte, eol: string, i: nat)
    requires r.Valid() && i < 5 + |r.data|
    ensures Scan(LineWith(r, c, eol), 1 + 2 * i, 2) == LineByte(r, c, i)
  {
    hide LineWith, LineByte, Scan;
    LineDigits(r, c, eol, i);
    ScanByte(LineWith(r, c, eol), 1 + 2 * i, LineByte(r, c, i));
  }

  lemma {:induction false} ScanLineWord(r: Record, c: byte, eol: string, i: nat)
    requires r.Valid() && i + 1 < 5 + |r.data|
    ensures Scan(LineWith(r, c, eol), 1 + 2 * i, 4) == LE16(LineByte(r, c, i + 1), LineByte(r, c, i))
  {
    hide LineWith, LineByte, Scan;
    LineDigits(r, c, eol, i);
    LineDigits(r, c, eol, i + 1);
    ScanWord(LineWith(r, c, eol), 1 + 2 * i, LineByte(r, c, i), LineByte(r, c, i + 1));
  }

  lemma {:induction false} DataByteOf(r: Record, c: byte, i: nat)
    requires r.Valid()
    ensures LineByte(r, c, 0) == |r.data| && LineByte(r, c, 1) == r.addr / 256 && LineByte(r, c, 2) == r.addr % 256
    ensures LineByte(r, c, 3) == r.kind && LineByte(r, c, 4 + |r.data|) == c
    ensures i < |r.data| ==> LineByte(r, c, 4 + i) == r.data[i]
  {
  }

  lemma {:induction false} ParseDataStep(h: Hex, line: string, base: nat, len: nat, num: nat, sum: nat, b: byte)
    requires num < len && Scan(line, 9 + 2 * num, 2) == b
    ensures ParseData(h, line, base, len, num, sum) ==
            ParseData(Store(h, base + num, b), line, base, len, num + 1, sum + b)
  {
    hide Scan;
  }

  lemma {:induction false} ParseDataEnd(h: Hex, line: string, base: nat, len: nat, sum: nat, b: byte)
    requires Scan(line, 9 + 2 * len, 2) == b
    ensures ParseData(h, line, base, len, len, sum) == (h, (sum + b) % 256 == 0)
  {
    hide Scan;
  }

  lemma {:induction false} WrappedGrows(m: map<nat, byte>, base: nat, data: seq<byte>, num: nat)
    requires num < |data| <= ADDRESS_WRAP
    ensures (m + Wrapped(base, data[..num]))[(base + num) % ADDRESS_WRAP := data[num]] ==
            m + Wrapped(base, data[..num + 1])
  {
    hide Offset;
    var at := (base + num) % ADDRESS_WRAP;
    OffsetBack(base, num);
    assert data[..num + 1][num] == data[num];
    assert forall i: nat :: i < ADDRESS_WRAP && Offset(i, base) == num ==> i == at;
  }

  lemma {:induction false} OffsetBack(at: nat, k: nat)
    requires k < ADDRESS_WRAP
    ensures Offset((at + k) % ADDRESS_WRAP, at) == k
  {
  }

  lemma {:induction false} SumGrows(data: seq<byte>, num: nat)
    requires num < |data|
    ensures Sum(data[..num + 1]) == Sum(data[..num]) + data[num]
  {
    assert data[..num + 1][..num] == data[..num];
  }

  lemma {:induction false} ParseDataLoads(h: Hex, r: Record, c: byte, eol: string, base: nat, num: nat, sum: nat)
    requires r.Valid() && num <= |r.data|
    requires sum == |r.data| + r.addr / 256 + r.addr % 256 + r.kind + Sum(r.data[..num])
    ensures var hn := h.(cells := h.cells + Wrapped(base, r.data[..num]));
            ParseData(hn, LineWith(r, c, eol), base, |r.data|, num, sum) ==
            (h.(cells := h.cells + Wrapped(base, r.data)), c == ChecksumOf(Body(r)))
    decreases |r.data| - num
  {
    hide Scan, LineWith, LineByte, Sum, RecordBody, ChecksumOf, ParseData, Wrapped, Offset;
    var len, line := |r.data|, LineWith(r, c, eol);
    var hn := h.(cells := h.cells + Wrapped(base, r.data[..num]));
    DataByteOf(r, c, num);
    ScanLineByte(r, c, eol, 4 + num);
    if num == len {
      assert r.data[..num] == r.data;
      SumHeader(r.addr, r.kind, r.data);
      ChecksumIff(Body(r), c);
      ParseDataEnd(hn, line, base, len, sum, c);
    } else {
      ParseDataStep(hn, line, base, len, num, sum, r.data[num]);
      WrappedGrows(h.cells, base, r.data, num);
      SumGrows(r.data, num);
      ParseDataLoads(h, r, c, eol, base, num + 1, sum + r.data[num]);
    }
  }

  lemma {:induction false} ParseBaseLoads(h: Hex, target: Target, r: Record, c: byte, eol: string)
    requires r.Valid() && |r.data| == 2 && (r.kind == TYPE_SEGMENT || r.kind == TYPE_LINEAR)
    ensures ParseBase(h, target, LineWith(r, c, eol), r.kind, 2 + r.addr / 256 + r.addr % 256 + r.kind) ==
            if c == ChecksumOf(Body(r)) then Loaded(h, target, r) else h
  {
    hide Scan, LineWith, LineByte, Sum, RecordBody, ChecksumOf, LinearBase, LE16;
    ScanLineWord(r, c, eol, 4);
    ScanLineByte(r, c, eol, 6);
    DataByteOf(r, c, 0);
    DataByteOf(r, c, 1);
    BaseSum(r, c);
  }

  lemma {:induction false} WordBytes(lo: byte, hi: byte)
    ensures LE16(lo, hi) / 256 % 256 == hi && LE16(lo, hi) % 256 == lo
  {
  }

  lemma {:induction false} BaseSum(r: Record, c: byte)
    requires r.Valid() && |r.data| == 2
    ensures var v: nat := LE16(r.data[1], r.data[0]);
            (2 + r.addr / 256 + r.addr % 256 + r.kind + v / 256 % 256 + v % 256 + c) % 256 == 0
            <==> c == ChecksumOf(Body(r))
  {
    hide Sum, RecordBody, ChecksumOf, LE16;
    WordBytes(r.data[1], r.data[0]);
    SumHeader(r.addr, r.kind, r.data);
    SumPair(r.data);
    ChecksumIff(Body(r), c);
  }

  /** The fields that parse_hex_line reads before it looks at the record type. */
  lemma {:induction false} ParseHeader(h: Hex, target: Target, line: string, len: nat, addr: nat, code: byte)
    requires |line| >= 11 + 2 * len && line[0] == ':'
    requires Scan(line, 1, 2) == len && Scan(line, 3, 4) == addr && Scan(line, 7, 2) == code
    requires len < 256 && addr < 65536 && !Refuses(h, addr, len)
    ensures var sum := len + addr / 256 + addr % 256 + code;
            ParseLine(h, target, line) ==
            if code == TYPE_DATA then ParseData(h.(byteCount := h.byteCount + len), line, addr + h.extAddr, len, 0, sum)
            else if code == TYPE_EOF then (h.(endSeen := true), true)
            else if (code == TYPE_SEGMENT || code == TYPE_LINEAR) && len == 2
            then (ParseBase(h, target, line, code, sum), true)
            else (h, true)
  {
    hide Scan, ParseBase, ParseData, Refuses;
  }

  /**
   What a line does whose checksum byte is wrong: data is stored all the same, an end of file counts, a base does not.
   */
  function Misloaded(h: Hex, r: Record): (q: Hex) {
    if r.kind == TYPE_DATA then
      h.(cells := h.cells + Wrapped(h.extAddr + r.addr, r.data), byteCount := h.byteCount + |r.data|)
    else if r.kind == TYPE_EOF then h.(endSeen := true)
    else h
  }

  /**
   What the line of a record does, for every checksum byte and every base: it is refused if and only if the wrapped sum
   is out of bounds or it is bad data.
   */
  lemma {:induction false} ParseLineIs(h: Hex, target: Target, r: Record, c: byte, eol: string)
    requires r.Valid()
    ensures var right := c == ChecksumOf(Body(r));
            ParseLine(h, target, LineWith(r, c, eol)) ==
            if Refuses(h, r.addr, |r.data|) then (h, false)
            else if right then (Loaded(h, target, r), true)
            else (Misloaded(h, r), r.kind != TYPE_DATA)
  {
    hide Scan, LineWith, Sum, ParseBase, ParseData, Wrapped, ParseLine, RecordBody, ChecksumOf, LinearBase, Refuses;
    var line, len := LineWith(r, c, eol), |r.data|;
    LineFields(r, c, eol);
    if Refuses(h, r.addr, len) {
      OutOfBounds(h, target, line, len, r.addr, r.kind);
    } else {
      ParseHeader(h, target, line, len, r.addr, r.kind);
      if r.kind == TYPE_DATA {
        ParseAllData(h.(byteCount := h.byteCount + len), r, c, eol, r.addr + h.extAddr);
      } else if (r.kind == TYPE_SEGMENT || r.kind == TYPE_LINEAR) && len == 2 {
        ParseBaseLoads(h, target, r, c, eol);
      }
    }
  }

  lemma {:induction false} LineFields(r: Record, c: byte, eol: string)
    requires r.Valid()
    ensures var line := LineWith(r, c, eol);
            && |line| >= 11 + 2 * |r.data| && line[0] == ':'
            && Scan(line, 1, 2) == |r.data| && Scan(line, 3, 4) == r.addr && Scan(line, 7, 2) == r.kind
  {
    hide Scan, LineWith, LineByte, RecordBody;
    LineDigits(r, c, eol, 0);
    ScanLineByte(r, c, eol, 0);
    ScanLineWord(r, c, eol, 1);
    ScanLineByte(r, c, eol, 3);
    DataByteOf(r, c, 0);
  }

  lemma {:induction false} ParseAllData(h: Hex, r: Record, c: byte, eol: string, base: nat)
    requires r.Valid()
    ensures ParseData(h, LineWith(r, c, eol), base, |r.data|, 0, |r.data| + r.addr / 256 + r.addr % 256 + r.kind) ==
            (h.(cells := h.cells + Wrapped(base, r.data)), c == ChecksumOf(Body(r)))
  {
    hide LineWith, Sum, ParseData, Wrapped, RecordBody, ChecksumOf;
    assert r.data[..0] == [];
    NothingStored(h.cells, base);
    SumNone();
    ParseDataLoads(h, r, c, eol, base, 0, |r.data| + r.addr / 256 + r.addr % 256 + r.kind);
    assert h.(cells := h.cells + Wrapped(base, r.data[..0])) == h;
  }

  lemma {:induction false} OutOfBounds(h: Hex, target: Target, line: string, len: nat, addr: nat, code: byte)
    requires |line| >= 11 + 2 * len && line[0] == ':'
    requires Scan(line, 1, 2) == len && Scan(line, 3, 4) == addr && Scan(line, 7, 2) == code
    requires Refuses(h, addr, len)
    ensures ParseLine(h, target, line) == (h, false)
  {
    hide Scan, ParseBase, ParseData, Refuses;
  }

  /** A line printed for a record loads exactly that record. */
  lemma {:induction false} ParseLineLoads(h: Hex, target: Target, r: Record, eol: string)
    requires r.Valid() && h.extAddr + r.addr + |r.data| < MAX_MEMORY_SIZE
    ensures ParseLine(h, target, LineOf(r, eol)) == (Loaded(h, target, r), true)
  {
    hide ParseLine, Loaded, LineOf, LineWith, Body, ChecksumOf;
    LineOfIs(r, eol);
    ParseLineIs(h, target, r, ChecksumOf(Body(r)), eol);
  }

  /** A wrong checksum is noticed in data records only, and there only after the data has been stored. */
  lemma {:induction false} WrongChecksum(h: Hex, target: Target, r: Record, c: byte, eol: string)
    requires r.Valid() && !Refuses(h, r.addr, |r.data|) && c != ChecksumOf(Body(r))
    ensures var (q, ok) := ParseLine(h, target, LineWith(r, c, eol));
            && (!ok <==> r.kind == TYPE_DATA)
            && (q.endSeen <==> h.endSeen || r.kind == TYPE_EOF)
            && q.extAddr == h.extAddr
            && (forall i: nat :: i in q.cells <==> i in h.cells || (r.kind == TYPE_DATA && Covers(h, r, i)))
            && (forall i: nat :: i in q.cells ==>
                  q.cells[i] == if r.kind == TYPE_DATA && Covers(h, r, i) then Carried(h, r, i) else h.cells[i])
  {
    hide ParseLine, LineWith, Body, ChecksumOf, Refuses, Offset;
    ParseLineIs(h, target, r, c, eol);
  }

  /** The elements a data record goes to. */
  predicate Covers(h: Hex, r: Record, i: nat) {
    i < ADDRESS_WRAP && Offset(i, h.extAddr + r.addr) < |r.data|
  }

  /** The byte a data record carries for one of them. */
  function Carried(h: Hex, r: Record, i: nat): (b: byte)
    requires Covers(h, r, i)
  {
    r.data[Offset(i, h.extAddr + r.addr)]
  }

  /** The end-of-file record with FE for FF: read as the end of the file. */
  lemma {:induction false} BadEndAccepted(target: Target)
    ensures ParseLine(EMPTY, target, ":00000001FE") == (EMPTY.(endSeen := true), true)
  {
    hide ParseLine, LineWith;
    var r := Record(0, TYPE_EOF, []);
    BadEndLine();
    SumHeader(0, TYPE_EOF, []);
    assert Sum(Body(r)) == 1;
    assert ChecksumOf(Body(r)) == 0xFF;
    ParseLineIs(EMPTY, target, r, 0xFE, "");
  }

  lemma {:induction false} BadEndLine()
    ensures LineWith(Record(0, TYPE_EOF, []), 0xFE, "") == ":00000001FE"
  {
    assert RecordBody(0, TYPE_EOF, []) == [0, 0, 0, 1];
    HexFour(0, 0, 0, 1);
  }

  lemma {:induction false} NothingStored(m: map<nat, byte>, at: nat)
    ensures m + Wrapped(at, []) == m
  {
  }

  lemma {:induction false} SumNone()
    ensures Sum([]) == 0
  {
  }

  lemma {:induction false} SumPair(d: seq<byte>)
    requires |d| == 2
    ensures Sum(d) == d[0] as int + d[1] as int
  {
    assert d == [d[0]] + [d[1]];
    SumConcat([d[0]], [d[1]]);
  }

  // -- Whole files ------------------------------------------------------------------------------------------

  /** The lines of a file: every record on its own line. */
  function LinesOf(rs: seq<Record>, eol: string): (r: seq<string>)
    requires forall x <- rs :: x.Valid()
    ensures |r| == |rs|
  {
    if rs == [] then [] else
      assert rs[0] in rs && forall x <- rs[1..] :: x in rs;
      [LineOf(rs[0], eol)] + LinesOf(rs[1..], eol)
  }

  /** The records up to the first end-of-file record, loaded one over the other. */
  function Overlay(h: Hex, target: Target, rs: seq<Record>): (q: Hex)
    decreases |rs|
  {
    if rs == [] || h.endSeen then h else Overlay(Loaded(h, target, rs[0]), target, rs[1..])
  }

  /** Every record reached stays below the end of the image, at the base then in force. */
  ghost predicate InBounds(h: Hex, target: Target, rs: seq<Record>)
    decreases |rs|
  {
    rs == [] || h.endSeen ||
    (h.extAddr + rs[0].addr + |rs[0].data| < MAX_MEMORY_SIZE && InBounds(Loaded(h, target, rs[0]), target, rs[1..]))
  }

  /**
   Reading a file of valid records gives the overlay of its data records, later ones winning, each at
   the base in force plus its own address, and returns the number of data bytes.
   */
  lemma {:induction false} ReadFileLoads(h: Hex, target: Target, rs: seq<Record>, eol: string)
    requires (forall x <- rs :: x.Valid()) && !h.endSeen && InBounds(h, target, rs)
    ensures var q := Overlay(h, target, rs);
            ReadLines(h, target, LinesOf(rs, eol)) == (q, q.byteCount)
    decreases |rs|
  {
    hide ParseLine, LineOf, Loaded;
    if rs != [] {
      var r := rs[0];
      assert r in rs && forall x <- rs[1..] :: x in rs;
      ParseLineLoads(h, target, r, eol);
      LineOfIs(r, eol);
      LineDigits(r, ChecksumOf(Body(r)), eol, 0);
      var h1 := Loaded(h, target, r);
      assert LinesOf(rs, eol)[1..] == LinesOf(rs[1..], eol);
      if !h1.endSeen {
        ReadFileLoads(h1, target, rs[1..], eol);
      }
    }
  }

  lemma {:induction false} ReadsOn(h: Hex, target: Target, rs: seq<Record>, eol: string, more: seq<string>)
    requires (forall x <- rs :: x.Valid()) && InBounds(h, target, rs) && !Overlay(h, target, rs).endSeen
    ensures ReadLines(h, target, LinesOf(rs, eol) + more) == ReadLines(Overlay(h, target, rs), target, more)
    decreases |rs|
  {
    hide ParseLine, LineOf, Loaded;
    var lines := LinesOf(rs, eol) + more;
    if rs == [] {
      assert lines == more;
    } else {
      var r := rs[0];
      assert r in rs && forall x <- rs[1..] :: x in rs;
      EndStays(h, target, rs);
      ParseLineLoads(h, target, r, eol);
      LineOfIs(r, eol);
      LineDigits(r, ChecksumOf(Body(r)), eol, 0);
      EndStays(Loaded(h, target, r), target, rs[1..]);
      assert lines[1..] == LinesOf(rs[1..], eol) + more;
      ReadsOn(Loaded(h, target, r), target, rs[1..], eol, more);
    }
  }

  lemma {:induction false} EndStays(h: Hex, target: Target, rs: seq<Record>)
    ensures h.endSeen ==> Overlay(h, target, rs).endSeen
  {
  }

  /**
   Reading stops with an error at the first data line with a wrong checksum, and what that line says is in the image by
   then.
   */
  lemma {:induction false} ReadingStops(h: Hex, target: Target, rs: seq<Record>, r: Record, c: byte, eol: string,
                                        more: seq<string>)
    requires (forall x <- rs :: x.Valid()) && InBounds(h, target, rs) && !Overlay(h, target, rs).endSeen
    requires r.Valid() && r.kind == TYPE_DATA && c != ChecksumOf(Body(r))
    requires Overlay(h, target, rs).extAddr + r.addr + |r.data| < MAX_MEMORY_SIZE
    ensures ReadLines(h, target, LinesOf(rs, eol) + ([LineWith(r, c, eol)] + more)) ==
            (Misloaded(Overlay(h, target, rs), r), -2)
  {
    hide ParseLine, LineWith, Overlay, InBounds, LinesOf, Body, ChecksumOf;
    var q := Overlay(h, target, rs);
    ReadsOn(h, target, rs, eol, [LineWith(r, c, eol)] + more);
    ParseLineIs(q, target, r, c, eol);
    LineDigits(r, c, eol, 0);
  }

  // -- Lines as they come -----------------------------------------------------------------------------------

  /** A line of some other shape than a record is refused and changes nothing. */
  lemma {:induction false} ShapeRefused(h: Hex, target: Target, line: string)
    requires |line| < 11 || line[0] != ':' || DigitValue(line[1]) < 0 || DigitValue(line[3]) < 0
             || DigitValue(line[7]) < 0 || |line| < 11 + 2 * Scan(line, 1, 2)
    ensures ParseLine(h, target, line) == (h, false)
  {
    hide ScanMore;
  }

  /** Empty lines are skipped, and so is everything behind an end-of-file record. */
  lemma {:induction false} LinesSkipped(h: Hex, target: Target, lines: seq<string>)
    ensures ReadLines(h, target, [""] + lines) == ReadLines(h, target, lines)
    ensures lines != [] && lines[0] != "" && ParseLine(h, target, lines[0]).1 &&
            ParseLine(h, target, lines[0]).0.endSeen ==>
              ReadLines(h, target, lines) == ReadLines(h, target, lines[..1])
  {
    hide ParseLine;
    assert ([""] + lines)[1..] == lines;
  }

  /** Two lines whose digits have the same values. */
  ghost predicate SameDigits(a: string, b: string) {
    |a| == |b| && forall i :: 0 <= i < |a| ==> DigitValue(a[i]) == DigitValue(b[i]) && (a[i] == ':' <==> b[i] == ':')
  }

  lemma {:induction false} ScanMoreSame(a: string, b: string, at: nat, width: nat, value: nat)
    requires SameDigits(a, b)
    ensures ScanMore(a, at, width, value) == ScanMore(b, at, width, value)
    decreases width
  {
    hide DigitValue;
    if width > 0 && at < |a| && DigitValue(a[at]) >= 0 {
      ScanMoreSame(a, b, at + 1, width - 1, 16 * value + DigitValue(a[at]));
    }
  }

  lemma {:induction false} ScanSame(a: string, b: string, at: nat, width: nat)
    requires SameDigits(a, b)
    ensures Scan(a, at, width) == Scan(b, at, width)
  {
    hide DigitValue, ScanMore;
    if width > 0 && at < |a| && DigitValue(a[at]) >= 0 {
      ScanMoreSame(a, b, at + 1, width - 1, DigitValue(a[at]));
    }
  }

  lemma {:induction false} DataSame(h: Hex, a: string, b: string, base: nat, len: nat, num: nat, sum: nat)
    requires SameDigits(a, b) && num <= len
    ensures ParseData(h, a, base, len, num, sum) == ParseData(h, b, base, len, num, sum)
    decreases len - num
  {
    hide Scan, SameDigits;
    ScanSame(a, b, 9 + 2 * num, 2);
    var i := Scan(a, 9 + 2 * num, 2);
    if num < len && i >= 0 {
      DataSame(Store(h, base + num, i % 256), a, b, base, len, num + 1, sum + i % 256);
    }
  }

  /** Such lines are read alike. */
  lemma {:induction false} SameLines(h: Hex, target: Target, a: string, b: string)
    requires SameDigits(a, b)
    ensures ParseLine(h, target, a) == ParseLine(h, target, b)
  {
    hide Scan, ParseData, Refuses, DigitValue;
    ScanSame(a, b, 1, 2);
    ScanSame(a, b, 3, 4);
    ScanSame(a, b, 7, 2);
    ScanSame(a, b, 9, 4);
    ScanSame(a, b, 13, 2);
    var len, addr, code := Scan(a, 1, 2), Scan(a, 3, 4), Scan(a, 7, 2);
    if len >= 0 && addr >= 0 && code == 0 {
      var sum := len % 256 + addr / 256 % 256 + addr % 256 + code % 256;
      DataSame(h.(byteCount := h.byteCount + len), a, b, addr + h.extAddr, len, 0, sum);
    }
  }

  function Lower(c: char): (r: char) {
    if 'A' <= c <= 'F' then (c as int - 'A' as int + 'a' as int) as char else c
  }

  function Lowered(line: string): (r: string)
    ensures |r| == |line| && forall i :: 0 <= i < |line| ==> r[i] == Lower(line[i])
  {
    if line == [] then [] else Lowered(line[..|line| - 1]) + [Lower(line[|line| - 1])]
  }

  /** In particular digits may be written in lower case. */
  lemma {:induction false} LowerCaseRead(h: Hex, target: Target, line: string)
    ensures ParseLine(h, target, Lowered(line)) == ParseLine(h, target, line)
  {
    hide ParseLine, Lowered;
    SameLines(h, target, Lowered(line), line);
  }

  // -- Stores outside the image -----------------------------------------------------------------------------

  /** Every element stored lies inside firmware_image. */
  ghost predicate Inside(h: Hex) {
    forall i <- h.cells :: i < MAX_MEMORY_SIZE
  }

  lemma {:induction false} ScanMoreBound(line: string, at: nat, width: nat, value: nat, bound: nat)
    requires value < bound
    ensures width == 0 ==> ScanMore(line, at, width, value) < bound
    ensures width == 1 ==> ScanMore(line, at, width, value) < 16 * bound
    ensures width == 2 ==> ScanMore(line, at, width, value) < 256 * bound
    ensures width == 3 ==> ScanMore(line, at, width, value) < 4096 * bound
    decreases width
  {
    if 0 < width <= 3 && at < |line| && DigitValue(line[at]) >= 0 {
      ScanMoreBound(line, at + 1, width - 1, 16 * value + DigitValue(line[at]), 16 * bound);
    }
  }

  /**
   The base that a type 04 record sets is its value times 64 KiB, except on large devices with large blocks, whose
   images are linked at 0x60000000 and loaded from 0 on.
   */
  lemma {:induction false} LinearBaseIs(target: Target, v: nat)
    ensures target.codeSize <= 1048576 || target.blockSize < 1024 ==> LinearBase(target, v) == 65536 * v
    ensures target.codeSize > 1048576 && target.blockSize >= 1024 ==>
              LinearBase(target, v) ==
              if v >= 0x6000 && 65536 * (v - 0x6000) < target.codeSize then 65536 * (v - 0x6000) else 65536 * v
  {
  }

  /** No line makes the base larger than a type 04 record can. */
  lemma {:induction false} LineKeepsBase(h: Hex, target: Target, line: string)
    requires h.extAddr <= LAST_BASE
    ensures ParseLine(h, target, line).0.extAddr <= LAST_BASE
  {
    hide ScanMore, Refuses;
    if 9 < |line| && DigitValue(line[9]) >= 0 {
      ScanMoreBound(line, 10, 3, DigitValue(line[9]), 16);
    }
    var len, addr, code := Scan(line, 1, 2), Scan(line, 3, 4), Scan(line, 7, 2);
    if |line| >= 11 && len >= 0 && addr >= 0 && code == 0 && !Refuses(h, addr, len) {
      var sum := len % 256 + addr / 256 % 256 + addr % 256 + code % 256;
      DataKeepsBase(h.(byteCount := h.byteCount + len), line, addr + h.extAddr, len, 0, sum);
    }
  }

  lemma {:induction false} DataKeepsBase(h: Hex, line: string, base: nat, len: nat, num: nat, sum: nat)
    requires num <= len
    ensures ParseData(h, line, base, len, num, sum).0.extAddr == h.extAddr
    decreases len - num
  {
    hide Scan;
    var i := Scan(line, 9 + 2 * num, 2);
    if num < len && i >= 0 {
      DataKeepsBase(Store(h, base + num, i % 256), line, base, len, num + 1, sum + i % 256);
    }
  }

  /** So every base that reading a file reaches is at most that, whatever the file holds. */
  lemma {:induction false} FileKeepsBase(h: Hex, target: Target, lines: seq<string>)
    requires h.extAddr <= LAST_BASE
    ensures ReadLines(h, target, lines).0.extAddr <= LAST_BASE
    decreases |lines|
  {
    hide ParseLine;
    if lines != [] {
      LineKeepsBase(h, target, lines[0]);
      FileKeepsBase(h, target, lines[1..]);
      FileKeepsBase(ParseLine(h, target, lines[0]).0, target, lines[1..]);
    }
  }

  lemma {:induction false} WrappedInside(at: nat, data: seq<byte>)
    requires at < ADDRESS_WRAP && |data| < 256
    requires (at + |data|) % ADDRESS_WRAP < MAX_MEMORY_SIZE
    ensures (exists i :: i in Wrapped(at, data) && i >= MAX_MEMORY_SIZE) <==> at + |data| >= ADDRESS_WRAP
  {
    if at + |data| >= ADDRESS_WRAP {
      assert Offset(at, at) == 0;
      assert at in Wrapped(at, data);
    } else {
      WrappedIsPlaced(at, data);
    }
  }

  /**
   A line stores outside the image if and only if it is a data record that reaches the end of the 32-bit range: the sum
   then wraps to a small number and passes the bound test.
   */
  lemma {:induction false} StoresOutsideIff(h: Hex, target: Target, r: Record, c: byte, eol: string)
    requires r.Valid() && h.extAddr <= LAST_BASE && Inside(h)
    ensures !Inside(ParseLine(h, target, LineWith(r, c, eol)).0) <==>
            r.kind == TYPE_DATA && h.extAddr + r.addr + |r.data| >= ADDRESS_WRAP
  {
    hide ParseLine, LineWith, Body, ChecksumOf, Wrapped, LinearBase;
    ParseLineIs(h, target, r, c, eol);
    var at, q := h.extAddr + r.addr, ParseLine(h, target, LineWith(r, c, eol)).0;
    if r.kind == TYPE_DATA && !Refuses(h, r.addr, |r.data|) {
      WrappedInside(at, r.data);
      assert q.cells == h.cells + Wrapped(at, r.data);
      assert forall i :: i in q.cells <==> i in h.cells || i in Wrapped(at, r.data);
    }
  }

  /** Some data record, reached while the file is read, runs to the end of the 32-bit range. */
  ghost predicate RunsOver(h: Hex, target: Target, rs: seq<Record>)
    decreases |rs|
  {
    && rs != [] && !h.endSeen && !Refuses(h, rs[0].addr, |rs[0].data|)
    && (|| (rs[0].kind == TYPE_DATA && h.extAddr + rs[0].addr + |rs[0].data| >= ADDRESS_WRAP)
        || RunsOver(Loaded(h, target, rs[0]), target, rs[1..]))
  }

  /** The same for whole files of records, in bounds or not: they are read inside the image unless one runs over. */
  lemma {:induction false} FileStoresOutsideIff(h: Hex, target: Target, rs: seq<Record>, eol: string)
    requires (forall x <- rs :: x.Valid()) && h.extAddr <= LAST_BASE && Inside(h) && !h.endSeen
    ensures !Inside(ReadLines(h, target, LinesOf(rs, eol)).0) <==> RunsOver(h, target, rs)
    decreases |rs|
  {
    hide ParseLine, LineOf, LineWith, Loaded, Refuses, Inside, ChecksumOf, Body;
    if rs != [] {
      var r, lines := rs[0], LinesOf(rs, eol);
      assert r in rs && forall x <- rs[1..] :: x in rs;
      LineOfIs(r, eol);
      LineDigits(r, ChecksumOf(Body(r)), eol, 0);
      ParseLineIs(h, target, r, ChecksumOf(Body(r)), eol);
      StoresOutsideIff(h, target, r, ChecksumOf(Body(r)), eol);
      LineKeepsBase(h, target, lines[0]);
      assert lines[1..] == LinesOf(rs[1..], eol);
      var h1 := ParseLine(h, target, lines[0]).0;
      if !Refuses(h, r.addr, |r.data|) {
        if !Inside(h1) {
          OutsideStays(h1, target, lines[1..]);
        } else if !h1.endSeen {
          FileStoresOutsideIff(h1, target, rs[1..], eol);
        }
      }
    }
  }

  lemma {:induction false} OutsideStays(h: Hex, target: Target, lines: seq<string>)
    requires !Inside(h)
    ensures !Inside(ReadLines(h, target, lines).0)
    decreases |lines|
  {
    hide ParseLine;
    if lines != [] {
      LineKeepsCells(h, target, lines[0]);
      var h1 := ParseLine(h, target, lines[0]).0;
      var i :| i in h.cells && i >= MAX_MEMORY_SIZE;
      assert i in h1.cells;
      OutsideStays(h, target, lines[1..]);
      OutsideStays(h1, target, lines[1..]);
    }
  }

  lemma {:induction false} LineKeepsCells(h: Hex, target: Target, line: string)
    ensures h.cells.Keys <= ParseLine(h, target, line).0.cells.Keys
  {
    hide Scan, Refuses;
    var len, addr, code := Scan(line, 1, 2), Scan(line, 3, 4), Scan(line, 7, 2);
    if |line| >= 11 && len >= 0 && addr >= 0 && code == 0 && !Refuses(h, addr, len) {
      var sum := len % 256 + addr / 256 % 256 + addr % 256 + code % 256;
      DataKeepsCells(h.(byteCount := h.byteCount + len), line, addr + h.extAddr, len, 0, sum);
    }
  }

  lemma {:induction false} DataKeepsCells(h: Hex, line: string, base: nat, len: nat, num: nat, sum: nat)
    requires num <= len
    ensures h.cells.Keys <= ParseData(h, line, base, len, num, sum).0.cells.Keys
    decreases len - num
  {
    hide Scan;
    var i := Scan(line, 9 + 2 * num, 2);
    if num < len && i >= 0 {
      DataKeepsCells(Store(h, base + num, i % 256), line, base, len, num + 1, sum + i % 256);
    }
  }

  lemma {:induction false} LastBaseLine()
    ensures LineOf(Record(0, TYPE_LINEAR, [0xFF, 0xFF]), "") == ":02000004FFFFFC"
  {
    hide HexBytes, Sum, ChecksumOf;
    var data: seq<byte> := [0xFF, 0xFF];
    HexBytesConcat([2, 0, 0, 4], data);
    HexFour(2, 0, 0, 4);
    HexTwo(0xFF, 0xFF);
    LastBaseSum();
    assert RecordBody(0, TYPE_LINEAR, data) == [2, 0, 0, 4] + data;
  }

  lemma {:induction false} LastBaseSum()
    ensures ChecksumOf(RecordBody(0, TYPE_LINEAR, [0xFF, 0xFF])) == 0xFC
  {
    hide Sum, RecordBody;
    SumHeader(0, TYPE_LINEAR, [0xFF, 0xFF]);
    SumPair([0xFF, 0xFF]);
  }

  lemma {:induction false} LastByteLine()
    ensures LineOf(Record(0xFFFF, TYPE_DATA, [0]), "") == ":01FFFF000001"
  {
    hide HexBytes, Sum, ChecksumOf;
    HexBytesConcat([1, 0xFF], [0xFF, 0, 0]);
    HexBytesConcat([0xFF], [0, 0]);
    HexTwo(1, 0xFF);
    HexTwo(0, 0);
    HexOne(0xFF);
    LastByteSum();
    assert [0xFF, 0, 0] == [0xFF] + [0, 0];
    assert RecordBody(0xFFFF, TYPE_DATA, [0]) == [1, 0xFF] + [0xFF, 0, 0];
  }

  lemma {:induction false} HexOne(b: byte)
    ensures HexBytes([b]) == HexByte(b)
  {
  }

  lemma {:induction false} LastByteSum()
    ensures ChecksumOf(RecordBody(0xFFFF, TYPE_DATA, [0])) == 1
  {
    SumHeader(0xFFFF, TYPE_DATA, [0]);
    assert Sum([0]) == 0;
  }

  /** Two lines that store one byte far outside the image: a base of 0xFFFF0000, then a byte at 0xFFFF. */
  lemma {:induction false} LastByteStored(target: Target)
    requires target.codeSize <= 0x9FFF_0000
    ensures ReadLines(EMPTY, target, [":02000004FFFFFC", ":01FFFF000001"]) ==
            (Hex(map[0xFFFF_FFFF := 0], false, 1, LAST_BASE), 1)
  {
    hide ParseLine, LineOf, LineWith, Body, ChecksumOf;
    var base, last := Record(0, TYPE_LINEAR, [0xFF, 0xFF]), Record(0xFFFF, TYPE_DATA, [0]);
    var lines := [":02000004FFFFFC", ":01FFFF000001"];
    LastBaseLine();
    LastByteLine();
    LineOfIs(base, "");
    LineOfIs(last, "");
    var h1 := EMPTY.(extAddr := LAST_BASE);
    ParseLineIs(EMPTY, target, base, ChecksumOf(Body(base)), "");
    assert ParseLine(EMPTY, target, lines[0]) == (h1, true);
    ParseLineIs(h1, target, last, ChecksumOf(Body(last)), "");
    WrappedIsPlaced(0xFFFF_FFFF, [0]);
    assert h1.cells + Placed(0xFFFF_FFFF, [0]) == map[0xFFFF_FFFF := 0];
    var h2 := Hex(map[0xFFFF_FFFF := 0], false, 1, LAST_BASE);
    assert ParseLine(h1, target, lines[1]) == (h2, true);
    assert lines[1..][0] == lines[1] && lines[1..][1..] == [];
    assert ReadLines(h2, target, []) == (h2, 1);
    assert ReadLines(h1, target, lines[1..]) == (h2, 1);
  }
}
