/** Intel HEX text: digits, bytes and records as a conforming writer prints them. */
module HexText {
  import opened Bits

  const TYPE_DATA: byte := 0
  const TYPE_EOF: byte := 1
  const TYPE_SEGMENT: byte := 2
  const TYPE_LINEAR: byte := 4

  function Digit(n: nat): (c: char)
    requires n < 16
    ensures c != ':'
  {
    if n < 10 then ('0' as int + n) as char else ('A' as int + n - 10) as char
  }

  function HexByte(b: byte): (s: string)
    ensures |s| == 2
  {
    [Digit(b / 16), Digit(b % 16)]
  }

  function HexBytes(bs: seq<byte>): (s: string)
    ensures |s| == 2 * |bs|
  {
    if bs == [] then [] else HexByte(bs[0]) + HexBytes(bs[1..])
  }

  function Sum(bs: seq<byte>): nat {
    if bs == [] then 0 else Sum(bs[..|bs| - 1]) + bs[|bs| - 1]
  }

  lemma {:induction false} HexBytesConcat(a: seq<byte>, b: seq<byte>)
    ensures HexBytes(a + b) == HexBytes(a) + HexBytes(b)
    decreases |a|
  {
    if a == [] {
      assert a + b == b;
    } else {
      assert (a + b)[0] == a[0] && (a + b)[1..] == a[1..] + b;
      HexBytesConcat(a[1..], b);
    }
  }

  lemma {:induction false} SumConcat(a: seq<byte>, b: seq<byte>)
    ensures Sum(a + b) == Sum(a) + Sum(b)
    decreases |b|
  {
    if b == [] {
      assert a + b == a;
    } else {
      var n := |b| - 1;
      assert (a + b)[..|a + b| - 1] == a + b[..n];
      SumConcat(a, b[..n]);
    }
  }

  lemma {:induction false} PairFirst(lo: byte, hi: byte, rest: seq<byte>)
    ensures HexBytes([lo, hi] + rest) == HexByte(lo) + HexByte(hi) + HexBytes(rest)
    ensures Sum([lo, hi] + rest) == lo + hi + Sum(rest)
  {
    HexBytesConcat([lo, hi], rest);
    HexBytesConcat([lo], [hi]);
    SumConcat([lo, hi], rest);
    SumConcat([lo], [hi]);
    assert [lo, hi] == [lo] + [hi];
    assert [lo][..0] == [] && [hi][..0] == [];
  }

  lemma {:induction false} HexTwo(a: byte, b: byte)
    ensures HexBytes([a, b]) == HexByte(a) + HexByte(b)
  {
    assert [a, b][1..] == [b] && [b][1..] == [];
    assert HexBytes([b]) == HexByte(b);
  }

  lemma {:induction false} HexFour(a: byte, b: byte, c: byte, d: byte)
    ensures HexBytes([a, b, c, d]) == HexByte(a) + (HexByte(b) + (HexByte(c) + HexByte(d)))
  {
    assert [a, b, c, d][1..] == [b, c, d] && [b, c, d][1..] == [c, d] && [c, d][1..] == [d] && [d][1..] == [];
    assert HexBytes([d]) == HexByte(d);
    assert HexBytes([c, d]) == HexByte(c) + HexBytes([d]);
    assert HexBytes([b, c, d]) == HexByte(b) + HexBytes([c, d]);
  }

  /** Count, address, type and data of a record: everything its checksum covers. */
  function RecordBody(addr: nat, kind: byte, data: seq<byte>): (r: seq<byte>)
    requires |data| < 256 && addr < 65536
    ensures |r| == 4 + |data|
  {
    [|data|, addr / 256, addr % 256, kind] + data
  }

  lemma {:induction false} SumHeader(addr: nat, kind: byte, data: seq<byte>)
    requires |data| < 256 && addr < 65536
    ensures Sum(RecordBody(addr, kind, data)) == |data| + addr / 256 + addr % 256 + kind + Sum(data)
  {
    SumConcat([|data|, addr / 256, addr % 256, kind], data);
    PairFirst(|data|, addr / 256, [addr % 256, kind]);
    PairFirst(addr % 256, kind, []);
    assert [|data|, addr / 256, addr % 256, kind] == [|data|, addr / 256] + [addr % 256, kind];
    assert [addr % 256, kind] == [addr % 256, kind] + [];
  }

  /** The two's complement of the sum, so that a whole record sums to 0 modulo 256. */
  function ChecksumOf(body: seq<byte>): (c: byte)
    ensures (Sum(body) + c) % 256 == 0
  {
    ComplementSums(Sum(body));
    (256 - Sum(body) % 256) % 256
  }

  lemma {:induction false} ComplementSums(s: nat)
    ensures (s + (256 - s % 256) % 256) % 256 == 0
  {
    if s % 256 != 0 {
      DivModUnique(s + 256 - s % 256, 256, s / 256 + 1, 0);
    }
  }

  /** Only one byte makes a record sum to 0. */
  lemma {:induction false} ChecksumIff(body: seq<byte>, c: byte)
    ensures (Sum(body) + c) % 256 == 0 <==> c == ChecksumOf(body)
  {
    ModSum(Sum(body), c);
  }

  function RecordText(addr: nat, kind: byte, data: seq<byte>): (s: string)
    requires |data| < 256 && addr < 65536
  {
    var body := RecordBody(addr, kind, data);
    ":" + HexBytes(body) + HexByte(ChecksumOf(body))
  }

  /** Data records for consecutive addresses from `addr`, each on a line closed by `eol`. */
  function DataLines(addr: nat, chunks: seq<seq<byte>>, eol: string): (s: string)
    requires forall c <- chunks :: 0 < |c| < 256
    requires addr + |Concat(chunks)| <= 65536
    decreases |chunks|
  {
    if chunks == [] then [] else
      RecordText(addr, TYPE_DATA, chunks[0]) + eol + DataLines(addr + |chunks[0]|, chunks[1..], eol)
  }

  /** A complete HEX file for an image loaded at address 0. */
  function HexFile(chunks: seq<seq<byte>>, eol: string): (s: string)
    requires forall c <- chunks :: 0 < |c| < 256
    requires |Concat(chunks)| <= 65536
  {
    DataLines(0, chunks, eol) + RecordText(0, TYPE_EOF, [])
  }
}
