/** Bytes, machine words and their little- and big-endian encodings. */
module Bytes {
  type byte = b: int | 0 <= b < 256
  type u16 = n: int | 0 <= n < 0x1_0000
  type u32 = n: int | 0 <= n < 0x1_0000_0000

  type u64 = n: int | 0 <= n < 0x1_0000_0000_0000_0000

  const U32_LIMIT := 0x1_0000_0000

  /** The two-byte little-endian word at offset `i`. */
  function Word16(s: seq<byte>, i: nat): u16
    requires i + 2 <= |s|
  {
    s[i] as int + 0x100 * (s[i + 1] as int)
  }

  /** The four-byte little-endian word at offset `i`. */
  function Word32(s: seq<byte>, i: nat): u32
    requires i + 4 <= |s|
  {
    s[i] as int + 0x100 * (s[i + 1] as int) + 0x1_0000 * (s[i + 2] as int) + 0x100_0000 * (s[i + 3] as int)
  }

  /** The eight-byte little-endian word at offset `i`. */
  function Word64(s: seq<byte>, i: nat): u64
    requires i + 8 <= |s|
  {
    Word32(s, i) as int + U32_LIMIT * (Word32(s, i + 4) as int)
  }

  /** The two-byte big-endian word with the given bytes. */
  function BigEndian(hi: byte, lo: byte): u16
  {
    0x100 * (hi as int) + lo as int
  }

  function Bytes16(v: u16): (s: seq<byte>)
    ensures |s| == 2
  {
    [v % 256, v / 256]
  }

  function Bytes32(v: u32): (s: seq<byte>)
    ensures |s| == 4
  {
    [v % 256, v / 0x100 % 256, v / 0x1_0000 % 256, v / 0x100_0000]
  }

  lemma RoundTrip16(v: u16)
    ensures Word16(Bytes16(v), 0) == v
  {
  }

  lemma RoundTrip32(v: u32)
    ensures Word32(Bytes32(v), 0) == v
  {
    assert v == v % 256 + 0x100 * (v / 0x100);
    assert v / 0x100 == v / 0x100 % 256 + 0x100 * (v / 0x1_0000);
    assert v / 0x1_0000 == v / 0x1_0000 % 256 + 0x100 * (v / 0x100_0000);
  }

  function Bytes64(v: u64): (s: seq<byte>)
    ensures |s| == 8
  {
    Bytes32(v % U32_LIMIT) + Bytes32(v / U32_LIMIT)
  }

  /** A word depends on its own bytes only. */
  lemma Word32Local(s: seq<byte>, i: nat, t: seq<byte>, j: nat)
    requires i + 4 <= |s| && j + 4 <= |t| && s[i..i + 4] == t[j..j + 4]
    ensures Word32(s, i) == Word32(t, j)
  {
    var x, y := s[i..i + 4], t[j..j + 4];
    assert x[0] == s[i] && x[1] == s[i + 1] && x[2] == s[i + 2] && x[3] == s[i + 3];
    assert y[0] == t[j] && y[1] == t[j + 1] && y[2] == t[j + 2] && y[3] == t[j + 3];
  }

  lemma Word16Local(s: seq<byte>, i: nat, t: seq<byte>, j: nat)
    requires i + 2 <= |s| && j + 2 <= |t| && s[i..i + 2] == t[j..j + 2]
    ensures Word16(s, i) == Word16(t, j)
  {
    var x, y := s[i..i + 2], t[j..j + 2];
    assert x[0] == s[i] && x[1] == s[i + 1] && y[0] == t[j] && y[1] == t[j + 1];
  }

  /** Reading back a word found among other bytes. */
  lemma ReadsWord32(s: seq<byte>, i: nat, v: u32)
    requires i + 4 <= |s| && s[i..i + 4] == Bytes32(v)
    ensures Word32(s, i) == v
  {
    hide Word32, Bytes32;
    RoundTrip32(v);
    assert Bytes32(v)[0..4] == Bytes32(v);
    Word32Local(s, i, Bytes32(v), 0);
  }

  lemma ReadsWord64(s: seq<byte>, i: nat, v: u64)
    requires i + 8 <= |s| && s[i..i + 8] == Bytes64(v)
    ensures Word64(s, i) == v
  {
    hide Word32, Bytes32;
    assert s[i..i + 4] == s[i..i + 8][..4] == Bytes32(v % U32_LIMIT);
    assert s[i + 4..i + 8] == s[i..i + 8][4..] == Bytes32(v / U32_LIMIT);
    ReadsWord32(s, i, v % U32_LIMIT);
    ReadsWord32(s, i + 4, v / U32_LIMIT);
  }
}
