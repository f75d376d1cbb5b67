/** The packed 12-bit allocation table of the virtual disk (VirtualFAT.c), and FAT12's own reading of it. */
module Fat12 {
  import opened Bits

  const SECTOR_SIZE := 512
  const END_OF_CHAIN := 0xFFF
  /** Clusters whose entry fits whole into a one-sector table. */
  const TABLE_ENTRIES := 341

  /** UpdateFAT12ClusterEntry: the entry's byte offset is kept in eight bits. */
  function UpdateEntry(t: seq<byte>, index: word, entry: word): (r: seq<byte>)
    requires |t| == SECTOR_SIZE
    ensures |r| == SECTOR_SIZE
  {
    var o := (index + index / 2) % 256;
    if index % 2 == 1 then
      t[o := Or(And(t[o], 0x0F), And(entry, 0x0F) * 16) % 256][o + 1 := entry / 16 % 256]
    else
      t[o := entry % 256][o + 1 := Or(And(t[o + 1], 0xF0), entry / 256) % 256]
  }

  /** UpdateFAT12ClusterChain from its i-th iteration on. */
  function UpdateChainFrom(t: seq<byte>, index: word, length: byte, i: nat): (r: seq<byte>)
    requires |t| == SECTOR_SIZE && i <= length
    ensures |r| == SECTOR_SIZE
    decreases length - i
  {
    if i == length then t else
      var current := (index + i) % 65536;
      var next := if i == length - 1 then END_OF_CHAIN else (current + 1) % 65536;
      UpdateChainFrom(UpdateEntry(t, current, next), index, length, i + 1)
  }

  function UpdateChain(t: seq<byte>, index: word, length: byte): (r: seq<byte>)
    requires |t| == SECTOR_SIZE
    ensures |r| == SECTOR_SIZE
  {
    UpdateChainFrom(t, index, length, 0)
  }

  /** Entry i of a FAT12 table, by the FAT specification: one and a half bytes per entry. */
  function Entry(t: seq<byte>, i: nat): (r: nat)
    requires |t| == SECTOR_SIZE && i < TABLE_ENTRIES
    ensures r < 4096
  {
    var o := i + i / 2;
    if i % 2 == 1 then t[o] / 16 + 16 * (t[o + 1] as int) else t[o] + 256 * ((t[o + 1] as int) % 16)
  }

  lemma {:induction false} LowNibble(x: nat)
    ensures And(x, 0x0F) == x % 16
  {
    hide And, Rem;
    assert Pow2(4) == 16;
    AndMask(x, 4);
    RemIsModulo(x, 16);
  }

  lemma {:induction false} HighNibble(x: byte)
    ensures And(x, 0xF0) == x / 16 * 16
  {
    hide And, Rem;
    assert Pow2(4) == 16 && Pow2(8) == 256;
    AndNotMask(x, 4, 8, 16, 256);
    RemIsModulo(x, 16);
  }

  lemma {:induction false} OrNibbles(hi: nat, lo: nat)
    requires hi % 16 == 0 && lo < 16
    ensures Or(hi, lo) == hi + lo && Or(lo, hi) == hi + lo
  {
    hide Or, Rem;
    assert Pow2(4) == 16;
    RemIsModulo(hi, 16);
    OrIsSum(hi, lo, 4);
    OrCommutes(hi, lo);
  }

  lemma {:induction false} OrCommutes(x: nat, y: nat)
    ensures Or(x, y) == Or(y, x)
    decreases x
  {
    if x != 0 && y != 0 {
      OrCommutes(x / 2, y / 2);
    }
  }

  /** The masks and ORs of an update are the nibble arithmetic they stand for. */
  lemma {:induction false} UpdateEntryIs(t: seq<byte>, index: word, entry: word)
    requires |t| == SECTOR_SIZE && index <= 170 && entry < 4096
    ensures var o := index + index / 2;
            UpdateEntry(t, index, entry) ==
            if index % 2 == 1 then t[o := t[o] % 16 + entry % 16 * 16][o + 1 := entry / 16]
            else t[o := entry % 256][o + 1 := t[o + 1] / 16 * 16 + entry / 256]
  {
    hide And, Or;
    var o := index + index / 2;
    Offset(index);
    if index % 2 == 1 {
      OddCell(t[o], entry);
    } else {
      EvenCell(t[o + 1], entry);
    }
  }

  lemma {:induction false} Offset(index: word)
    requires index <= 170
    ensures (index + index / 2) % 256 == index + index / 2
  {
    assert index + index / 2 < 256;
  }

  lemma {:induction false} OddCell(cell: byte, entry: word)
    requires entry < 4096
    ensures Or(And(cell, 0x0F), And(entry, 0x0F) * 16) % 256 == cell % 16 + entry % 16 * 16
    ensures entry / 16 % 256 == entry / 16
  {
    hide And, Or;
    LowNibble(cell);
    LowNibble(entry);
    OrNibbles(entry % 16 * 16, cell % 16);
  }

  lemma {:induction false} EvenCell(cell: byte, entry: word)
    requires entry < 4096
    ensures Or(And(cell, 0xF0), entry / 256) % 256 == cell / 16 * 16 + entry / 256
  {
    hide And, Or;
    HighNibble(cell);
    OrNibbles(cell / 16 * 16, entry / 256);
  }

  /** For indices up to 170 an update sets its own entry and no other. */
  lemma {:induction false} UpdateEntryDecodes(t: seq<byte>, index: word, entry: word, j: nat)
    requires |t| == SECTOR_SIZE && index <= 170 && entry < 4096 && j < TABLE_ENTRIES
    ensures Entry(UpdateEntry(t, index, entry), j) == if j == index then entry else Entry(t, j)
  {
    hide UpdateEntry;
    UpdateEntryIs(t, index, entry);
    var k, m := index / 2, j / 2;
    var r := UpdateEntry(t, index, entry);
    if index % 2 == 1 {
      assert index + index / 2 == 3 * k + 1;
      assert r[3 * k + 1] % 16 == t[3 * k + 1] % 16 && r[3 * k + 1] / 16 == entry % 16;
    } else {
      assert index + index / 2 == 3 * k;
      assert r[3 * k + 1] / 16 == t[3 * k + 1] / 16 && r[3 * k + 1] % 16 == entry / 256;
    }
    if j % 2 == 1 {
      assert j + j / 2 == 3 * m + 1;
    } else {
      assert j + j / 2 == 3 * m;
    }
  }

  /** Beyond that the offset wraps, and the entry asked for is not changed at all. */
  lemma {:induction false} UpdateEntryMisses(t: seq<byte>, index: word, entry: word)
    requires |t| == SECTOR_SIZE && 171 <= index < TABLE_ENTRIES
    ensures Entry(UpdateEntry(t, index, entry), index) == Entry(t, index)
  {
    hide Or, And;
  }

  /** So updates work for an index, whatever the table and the value, if and only if it is at most 170. */
  lemma {:induction false} UpdateEntryIff(index: word)
    requires index < TABLE_ENTRIES
    ensures (forall t: seq<byte>, entry: word :: |t| == SECTOR_SIZE && entry < 4096 ==>
               Entry(UpdateEntry(t, index, entry), index) == entry)
            <==> index <= 170
  {
    hide UpdateEntry, Entry;
    if index <= 170 {
      forall t: seq<byte>, entry: word | |t| == SECTOR_SIZE && entry < 4096
        ensures Entry(UpdateEntry(t, index, entry), index) == entry
      {
        UpdateEntryDecodes(t, index, entry, index);
      }
    } else {
      var t: seq<byte> := seq(SECTOR_SIZE, _ => 0);
      UpdateEntryMisses(t, index, 1);
      UpdateEntryMisses(t, index, 2);
      assert Entry(UpdateEntry(t, index, 1), index) == Entry(UpdateEntry(t, index, 2), index);
    }
  }

  /** What a linear chain of clusters [s, s + n) says at table entry j. */
  function ChainValue(s: nat, n: nat, j: nat): (r: nat) {
    if j + 1 == s + n then END_OF_CHAIN else j + 1
  }

  lemma {:induction false} UpdateChainDecodes(t: seq<byte>, s: word, n: byte, i: nat, j: nat)
    requires |t| == SECTOR_SIZE && i <= n && s + n <= 171 && j < TABLE_ENTRIES
    ensures Entry(UpdateChainFrom(t, s, n, i), j) ==
            if s + i <= j < s + n then ChainValue(s, n, j) else Entry(t, j)
    decreases n - i
  {
    hide Entry, UpdateEntry;
    if i < n {
      var next := if i == n - 1 then END_OF_CHAIN else s + i + 1;
      UpdateEntryDecodes(t, s + i, next, j);
      UpdateChainDecodes(UpdateEntry(t, s + i, next), s, n, i + 1, j);
    }
  }

  /** The clusters a FAT12 reader visits from cluster c; no chain in a table has more than its entries. */
  function Follow(t: seq<byte>, c: nat, fuel: nat): (r: seq<nat>)
    requires |t| == SECTOR_SIZE
    decreases fuel
  {
    if fuel == 0 || c < 2 || c >= TABLE_ENTRIES then []
    else if Entry(t, c) >= 0xFF8 then [c]
    else [c] + Follow(t, Entry(t, c), fuel - 1)
  }

  function Range(s: nat, n: nat): (r: seq<nat>)
    ensures |r| == n && forall i :: 0 <= i < n ==> r[i] == s + i
    decreases n
  {
    if n == 0 then [] else [s] + Range(s + 1, n - 1)
  }

  /** A reader that follows the chain meets its clusters one after the other, and then stops. */
  lemma {:induction false} FollowChain(t: seq<byte>, s: nat, n: nat, c: nat, fuel: nat)
    requires |t| == SECTOR_SIZE && 2 <= s <= c < s + n <= TABLE_ENTRIES && fuel >= s + n - c
    requires forall j :: s <= j < s + n ==> Entry(t, j) == ChainValue(s, n, j)
    ensures Follow(t, c, fuel) == Range(c, s + n - c)
    decreases s + n - c
  {
    hide Entry;
    assert Entry(t, c) == ChainValue(s, n, c);
    if c + 1 < s + n {
      FollowChain(t, s, n, c + 1, fuel - 1);
    } else {
      assert Range(c, 1) == [c] + Range(c + 1, 0);
    }
  }
}
