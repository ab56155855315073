/** The packed 12-bit file allocation table of src/fs/fat12.c: three nibbles an
    entry, two nibbles a byte, low nibble first. */
module Fat12Table {
  import opened Bytes

  function EntryOffset(c: nat): nat {
    c + c / 2
  }

  /** fat12_get_entry. */
  function Entry(fat: seq<byte>, c: nat): (v: nat)
    requires EntryOffset(c) + 1 < |fat|
    ensures v < 0x1000
  {
    var pair := Word16(fat, EntryOffset(c));
    if c % 2 == 1 then pair / 16 else pair % 0x1000
  }

  /** fat12_set_entry: one byte is owned, the other is shared with a neighbour. */
  function SetEntry(fat: seq<byte>, c: nat, v: nat): (r: seq<byte>)
    requires EntryOffset(c) + 1 < |fat|
    ensures |r| == |fat|
  {
    var o := EntryOffset(c);
    if c % 2 == 1 then
      fat[o := fat[o] % 16 + v % 16 * 16][o + 1 := v / 16 % 256]
    else
      fat[o := v % 256][o + 1 := fat[o + 1] / 16 * 16 + v / 256 % 16]
  }

  function Nibble(fat: seq<byte>, k: nat): int
    requires k < 2 * |fat|
  {
    if k % 2 == 0 then fat[k / 2] % 16 else fat[k / 2] / 16
  }

  lemma EntryNibbles(fat: seq<byte>, c: nat)
    requires EntryOffset(c) + 1 < |fat|
    ensures Entry(fat, c) == Nibble(fat, 3 * c) + 16 * Nibble(fat, 3 * c + 1) + 256 * Nibble(fat, 3 * c + 2)
  {
    var o := EntryOffset(c);
    var x: int, y: int := fat[o], fat[o + 1];
    if c % 2 == 1 {
      assert 3 * c / 2 == o && (3 * c + 1) / 2 == o + 1 && (3 * c + 2) / 2 == o + 1;
      assert x + 256 * y == x % 16 + 16 * (x / 16 + 16 * y);
    } else {
      assert 3 * c / 2 == o && (3 * c + 1) / 2 == o && (3 * c + 2) / 2 == o + 1;
      assert x + 256 * y == x + 256 * (y % 16) + 0x1000 * (y / 16);
    }
  }

  /** The nibbles of the odd and the even form of the two stored bytes. */
  lemma OddBytes(x: byte, v: nat)
    ensures var b := x % 16 + v % 16 * 16; 0 <= b < 256 && b % 16 == x % 16 && b / 16 == v % 16
    ensures var b := v / 16 % 256; b % 16 == v / 16 % 16 && b / 16 == v / 256 % 16
  {
    ByteHalves(v / 16);
  }

  lemma EvenBytes(y: byte, v: nat)
    ensures var b := v % 256; b % 16 == v % 16 && b / 16 == v / 16 % 16
    ensures var b := y / 16 * 16 + v / 256 % 16; 0 <= b < 256 && b % 16 == v / 256 % 16 && b / 16 == y / 16
  {
    ByteHalves(v);
  }

  /** The two bytes a store writes, split into nibbles. */
  lemma StoredNibbles(fat: seq<byte>, c: nat, v: nat)
    requires EntryOffset(c) + 1 < |fat|
    ensures var r := SetEntry(fat, c, v); var o := EntryOffset(c);
            if c % 2 == 1 then
              r[o] % 16 == fat[o] % 16 && r[o] / 16 == v % 16 && r[o + 1] % 16 == v / 16 % 16 &&
                r[o + 1] / 16 == v / 256 % 16
            else
              r[o] % 16 == v % 16 && r[o] / 16 == v / 16 % 16 && r[o + 1] % 16 == v / 256 % 16 &&
                r[o + 1] / 16 == fat[o + 1] / 16
  {
    if c % 2 == 1 { OddBytes(fat[EntryOffset(c)], v); } else { EvenBytes(fat[EntryOffset(c) + 1], v); }
  }

  lemma OtherBytesKept(fat: seq<byte>, c: nat, v: nat, i: nat)
    requires EntryOffset(c) + 1 < |fat| && i < |fat| && i != EntryOffset(c) && i != EntryOffset(c) + 1
    ensures SetEntry(fat, c, v)[i] == fat[i]
  {
  }

  /** A store changes the entry's own three nibbles and no other. */
  lemma SetEntryNibbles(fat: seq<byte>, c: nat, v: nat, k: nat)
    requires EntryOffset(c) + 1 < |fat| && k < 2 * |fat|
    ensures Nibble(SetEntry(fat, c, v), k) ==
            if k == 3 * c then v % 16 else if k == 3 * c + 1 then v / 16 % 16
            else if k == 3 * c + 2 then v / 256 % 16 else Nibble(fat, k)
  {
    hide SetEntry;
    var o := EntryOffset(c);
    assert if c % 2 == 1 then 2 * o + 1 == 3 * c else 2 * o == 3 * c;
    if k / 2 == o || k / 2 == o + 1 {
      StoredNibbles(fat, c, v);
    } else {
      OtherBytesKept(fat, c, v, k / 2);
    }
  }

  lemma ByteHalves(n: nat)
    ensures n % 256 / 16 == n / 16 % 16
  {
    assert n == n / 256 * 256 + n % 256;
    assert n / 16 == n / 256 * 16 + n % 256 / 16;
  }

  lemma ThreeNibbles(v: nat)
    requires v < 0x1000
    ensures v == v % 16 + 16 * (v / 16 % 16) + 256 * (v / 256 % 16)
  {
  }

  /** Reading back: the entry written, and every other entry untouched. */
  lemma EntryAfterSet(fat: seq<byte>, c: nat, v: nat, d: nat)
    requires EntryOffset(c) + 1 < |fat| && EntryOffset(d) + 1 < |fat| && v < 0x1000
    ensures Entry(SetEntry(fat, c, v), d) == if d == c then v else Entry(fat, d)
  {
    hide Nibble, Entry, SetEntry;
    var t := SetEntry(fat, c, v);
    EntryNibbles(t, d);
    EntryNibbles(fat, d);
    SetEntryNibbles(fat, c, v, 3 * d);
    SetEntryNibbles(fat, c, v, 3 * d + 1);
    SetEntryNibbles(fat, c, v, 3 * d + 2);
    ThreeNibbles(v);
  }

  ghost predicate Holds(fat: seq<byte>, n: nat) {
    3 * n <= 2 * |fat|
  }

  /** The first `n` entries as numbers. */
  ghost function TableOf(fat: seq<byte>, n: nat): (t: seq<nat>)
    requires Holds(fat, n)
    ensures |t| == n
    ensures forall c :: 0 <= c < n ==> t[c] == Entry(fat, c)
  {
    seq(n, c requires 0 <= c < n => Entry(fat, c))
  }

  /** Everything in the table's bytes that belongs to none of its first `n` entries. */
  ghost predicate SameTail(f: seq<byte>, g: seq<byte>, n: nat) {
    |f| == |g| && forall k :: 3 * n <= k < 2 * |f| ==> Nibble(f, k) == Nibble(g, k)
  }

  lemma TableAfterSet(fat: seq<byte>, n: nat, c: nat, v: nat)
    requires Holds(fat, n) && c < n && v < 0x1000
    ensures EntryOffset(c) + 1 < |fat|
    ensures Holds(SetEntry(fat, c, v), n)
    ensures TableOf(SetEntry(fat, c, v), n) == TableOf(fat, n)[c := v]
    ensures SameTail(SetEntry(fat, c, v), fat, n)
  {
    hide Entry, SetEntry, Nibble;
    forall d | 0 <= d < n
      ensures Entry(SetEntry(fat, c, v), d) == if d == c then v else Entry(fat, d)
    {
      EntryAfterSet(fat, c, v, d);
    }
    forall k | 3 * n <= k < 2 * |fat|
      ensures Nibble(SetEntry(fat, c, v), k) == Nibble(fat, k)
    {
      SetEntryNibbles(fat, c, v, k);
    }
  }

  /** Equal entries and equal tails leave no room for a different byte. */
  lemma TableDetermines(f: seq<byte>, g: seq<byte>, n: nat)
    requires Holds(f, n) && SameTail(f, g, n) && TableOf(f, n) == TableOf(g, n)
    ensures f == g
  {
    forall k | 0 <= k < 2 * |f|
      ensures Nibble(f, k) == Nibble(g, k)
    {
      if k < 3 * n {
        var c := k / 3;
        assert TableOf(f, n)[c] == TableOf(g, n)[c];
        EntryNibbles(f, c);
        EntryNibbles(g, c);
        NibblesUnique(f, g, c);
      }
    }
    forall i | 0 <= i < |f|
      ensures f[i] == g[i]
    {
      assert Nibble(f, 2 * i) == Nibble(g, 2 * i) && Nibble(f, 2 * i + 1) == Nibble(g, 2 * i + 1);
    }
  }

  lemma HexUnique(a: int, b: int, c: int, a': int, b': int, c': int)
    requires 0 <= a < 16 && 0 <= b < 16 && 0 <= c < 16
    requires 0 <= a' < 16 && 0 <= b' < 16 && 0 <= c' < 16
    requires a + 16 * b + 256 * c == a' + 16 * b' + 256 * c'
    ensures a == a' && b == b' && c == c'
  {
  }

  lemma NibblesUnique(f: seq<byte>, g: seq<byte>, c: nat)
    requires |f| == |g| && EntryOffset(c) + 1 < |f|
    requires Entry(f, c) == Entry(g, c)
    ensures Nibble(f, 3 * c) == Nibble(g, 3 * c)
    ensures Nibble(f, 3 * c + 1) == Nibble(g, 3 * c + 1)
    ensures Nibble(f, 3 * c + 2) == Nibble(g, 3 * c + 2)
  {
    hide Entry, Nibble;
    EntryNibbles(f, c);
    EntryNibbles(g, c);
    NibbleRange(f, 3 * c);
    NibbleRange(g, 3 * c);
    HexUnique(Nibble(f, 3 * c), Nibble(f, 3 * c + 1), Nibble(f, 3 * c + 2),
              Nibble(g, 3 * c), Nibble(g, 3 * c + 1), Nibble(g, 3 * c + 2));
  }

  lemma NibbleRange(f: seq<byte>, k: nat)
    requires k + 2 < 2 * |f|
    ensures 0 <= Nibble(f, k) < 16 && 0 <= Nibble(f, k + 1) < 16 && 0 <= Nibble(f, k + 2) < 16
  {
  }
}
