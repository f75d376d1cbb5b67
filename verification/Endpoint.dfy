/**
 USB endpoints as the bootloaders' code sees them: an OUT bank that is read byte by byte and then
 released for the next packet, and an IN bank that is filled and then sent.
 */
module Endpoint {
  import opened Bits

  type packet = seq<byte>

  /**
   The OUT side: what is left of the current packet, and the packets the host has yet to send. When
   nothing is pending the host has gone: a wait for the next packet ends with the device unattached.
   */
  datatype OutPipe = OutPipe(bank: packet, pending: seq<packet>)

  /** ClearOUT and wait for the next packet. */
  function NextPacket(p: OutPipe): (r: OutPipe)
    requires p.pending != []
  {
    OutPipe(p.pending[0], p.pending[1..])
  }

  /** Endpoint_Read_8; reading an empty bank yields 0, an assumption about the hardware. */
  function Read8(p: OutPipe): (r: (byte, OutPipe)) {
    if p.bank == [] then (0, p) else (p.bank[0], p.(bank := p.bank[1..]))
  }

  /** Endpoint_Read_16_LE */
  function Read16(p: OutPipe): (r: (word, OutPipe)) {
    var (lo, p1) := Read8(p);
    var (hi, p2) := Read8(p1);
    (LE16(lo, hi), p2)
  }

  lemma {:induction false} ConcatLast(ps: seq<packet>, p: packet)
    ensures Concat(ps + [p]) == Concat(ps) + p
    decreases |ps|
  {
    if ps == [] {
      assert ps + [p] == [p] && [p][1..] == [];
      assert Concat([]) == [];
    } else {
      assert (ps + [p])[1..] == ps[1..] + [p];
      ConcatLast(ps[1..], p);
    }
  }

  /** The bytes a pipe will still deliver. */
  function Rest(p: OutPipe): (r: seq<byte>) {
    p.bank + Concat(p.pending)
  }

  /** Packets none of which is empty and none but the last ends in the middle of a word. */
  ghost predicate WholeWords(ps: seq<packet>) {
    forall i :: 0 <= i < |ps| ==> ps[i] != [] && (i + 1 < |ps| ==> |ps[i]| % 2 == 0)
  }

  ghost predicate WordPipe(p: OutPipe) {
    (p.pending != [] ==> |p.bank| % 2 == 0) && WholeWords(p.pending)
  }

  /** The code's "if the bank is empty, fetch the next packet", for a host that is still there. */
  function Refill(p: OutPipe): (r: OutPipe)
    requires p.bank != [] || p.pending != []
  {
    if p.bank == [] then NextPacket(p) else p
  }

  /** Over whole-word packets, refilling and reading a word takes the next two bytes of the stream. */
  lemma {:induction false} RefillReadsWord(p: OutPipe)
    requires WordPipe(p) && |Rest(p)| >= 2
    ensures p.bank != [] || p.pending != []
    ensures var q := Refill(p);
            var (w, r) := Read16(q);
            && w == LE16(Rest(p)[0], Rest(p)[1])
            && WordPipe(r) && Rest(r) == Rest(p)[2..]
  {
    hide Read16, Concat, LE16;
    RefillKeeps(p);
    BankReadsWord(Refill(p));
  }

  lemma {:induction false} RefillKeeps(p: OutPipe)
    requires WordPipe(p) && |Rest(p)| >= 2
    ensures p.bank != [] || p.pending != []
    ensures Rest(Refill(p)) == Rest(p) && WordPipe(Refill(p)) && |Refill(p).bank| >= 2
  {
    var q := Refill(p);
    if q.pending == [] {
      assert Rest(q) == q.bank;
    }
  }

  lemma {:induction false} BankReadsWord(q: OutPipe)
    requires WordPipe(q) && |q.bank| >= 2
    ensures var (w, r) := Read16(q);
            w == LE16(Rest(q)[0], Rest(q)[1]) && WordPipe(r) && Rest(r) == Rest(q)[2..]
  {
    hide Concat, LE16;
    var r := Read16(q).1;
    assert r.bank == q.bank[2..];
    assert Rest(q)[2..] == q.bank[2..] + Concat(q.pending);
  }

  /** A stream cut into packets of n bytes, the last one shorter if need be. */
  function Packets(data: seq<byte>, n: nat): (r: seq<packet>)
    requires n > 0
    decreases |data|
  {
    if |data| <= n then (if data == [] then [] else [data]) else [data[..n]] + Packets(data[n..], n)
  }

  lemma {:induction false} PacketsConcat(data: seq<byte>, n: nat)
    requires n > 0
    ensures Concat(Packets(data, n)) == data
    ensures n % 2 == 0 ==> WholeWords(Packets(data, n))
    decreases |data|
  {
    if |data| > n {
      PacketsConcat(data[n..], n);
      assert Packets(data, n)[1..] == Packets(data[n..], n);
      assert data == data[..n] + data[n..];
    } else if data != [] {
      assert [data][1..] == [];
      assert Concat([data]) == data + Concat([]);
    }
  }
}
