/** The Internet checksum of src/user/icmp.h (RFC 1071), and the law it is
    there for: a message that carries its own checksum sums to zero. */
module Checksum {
  import opened Bytes

  /** Big-endian 16-bit word sum; an odd last byte is padded on the right with zero. */
  function WordSum(s: seq<byte>): nat
  {
    if |s| == 0 then 0
    else if |s| == 1 then BigEndian(s[0], 0)
    else BigEndian(s[0], s[1]) + WordSum(s[2..])
  }

  /** Adds the carries back into the low 16 bits until none is left. */
  function Fold(n: nat): nat
    decreases n
  {
    if n < 0x1_0000 then n else Fold(n % 0x1_0000 + n / 0x1_0000)
  }

  function InternetChecksum(s: seq<byte>): int
  {
    0xFFFF - Fold(WordSum(s))
  }

  /** Sections 1 and 2 of RFC 1071: one's complement addition, with the
      end-around carry taken at every step. */
  function OnesAdd(a: u16, b: u16): u16
  {
    if a + b < 0x1_0000 then a + b else a + b - 0xFFFF
  }

  function OnesSum(s: seq<byte>): u16
  {
    if |s| == 0 then 0
    else if |s| == 1 then BigEndian(s[0], 0)
    else OnesAdd(BigEndian(s[0], s[1]), OnesSum(s[2..]))
  }

  lemma CarryResidue(n: nat)
    ensures (n % 0x1_0000 + n / 0x1_0000) % 0xFFFF == n % 0xFFFF
  {
    var k := n / 0x1_0000;
    assert n == n % 0x1_0000 + k + 0xFFFF * k;
  }

  /** Folding keeps the value modulo 0xFFFF and tells zero from 0xFFFF. */
  lemma {:induction false} FoldResidue(n: nat)
    ensures 0 <= Fold(n) <= 0xFFFF
    ensures Fold(n) % 0xFFFF == n % 0xFFFF
    ensures Fold(n) == 0 <==> n == 0
    decreases n
  {
    if n >= 0x1_0000 {
      var m := n % 0x1_0000 + n / 0x1_0000;
      CarryResidue(n);
      FoldResidue(m);
    }
  }

  lemma AddCongruent(a: nat, b: nat, c: nat)
    requires a % 0xFFFF == b % 0xFFFF
    ensures (a + c) % 0xFFFF == (b + c) % 0xFFFF
  {
  }

  lemma OnesAddResidue(w: u16, o: u16, r: nat)
    requires o % 0xFFFF == r % 0xFFFF && (o == 0 <==> r == 0)
    ensures OnesAdd(w, o) as int % 0xFFFF == (w as int + r) % 0xFFFF
    ensures OnesAdd(w, o) == 0 <==> w as int + r == 0
  {
    AddCongruent(o, r, w);
  }

  lemma {:induction false} OnesSumResidue(s: seq<byte>)
    ensures OnesSum(s) % 0xFFFF == WordSum(s) % 0xFFFF
    ensures OnesSum(s) == 0 <==> WordSum(s) == 0
  {
    if |s| > 1 {
      OnesSumResidue(s[2..]);
      OnesAddResidue(BigEndian(s[0], s[1]), OnesSum(s[2..]), WordSum(s[2..]));
    }
  }

  /** The deferred-carry sum of the loop is the one's complement sum of RFC 1071. */
  lemma DeferredCarries(s: seq<byte>)
    ensures InternetChecksum(s) == 0xFFFF - OnesSum(s)
  {
    FoldResidue(WordSum(s));
    OnesSumResidue(s);
    ResidueUnique(Fold(WordSum(s)), OnesSum(s));
  }

  lemma ResidueUnique(x: int, y: int)
    requires 0 <= x <= 0xFFFF && 0 <= y <= 0xFFFF
    requires x % 0xFFFF == y % 0xFFFF && (x == 0 <==> y == 0)
    ensures x == y
  {
  }

  /** Writing `hi, lo` over a zero field at an even offset adds that word to the sum. */
  lemma {:induction false} FieldAddsToSum(s: seq<byte>, k: nat, hi: byte, lo: byte)
    requires k % 2 == 0 && k + 2 <= |s| && s[k] == 0 && s[k + 1] == 0
    ensures WordSum(s[k := hi][k + 1 := lo]) == WordSum(s) + BigEndian(hi, lo)
  {
    var t := s[k := hi][k + 1 := lo];
    if k == 0 {
      assert t[2..] == s[2..];
    } else {
      FieldAddsToSum(s[2..], k - 2, hi, lo);
      assert t[2..] == s[2..][k - 2 := hi][k - 1 := lo];
    }
  }

  lemma ComplementSum(n: nat, f: int)
    requires n % 0xFFFF == f % 0xFFFF && 0 <= f <= 0xFFFF
    ensures (n + (0xFFFF - f)) % 0xFFFF == 0
  {
    AddCongruent(n, f, 0xFFFF - f);
  }

  /** A message whose zeroed checksum field at an even offset receives the
      checksum, high byte first, has checksum zero. Odd lengths included. */
  lemma StoredChecksumVerifies(s: seq<byte>, k: nat)
    requires k % 2 == 0 && k + 2 <= |s| && s[k] == 0 && s[k + 1] == 0
    ensures 0 <= InternetChecksum(s) <= 0xFFFF
    ensures InternetChecksum(s[k := InternetChecksum(s) / 256][k + 1 := InternetChecksum(s) % 256]) == 0
  {
    hide Fold, WordSum;
    var sum := WordSum(s);
    FoldResidue(sum);
    var c := InternetChecksum(s);
    FieldAddsToSum(s, k, c / 256, c % 256);
    ComplementSum(sum, Fold(sum));
    FoldResidue(sum + c);
    ResidueUnique(Fold(sum + c), 0xFFFF);
  }

  lemma {:induction false} WordSumBound(s: seq<byte>)
    ensures 2 * WordSum(s) <= 0xFFFF * (|s| + 1)
  {
    if |s| > 1 { WordSumBound(s[2..]); }
  }

  /** The accumulator loop of ip_checksum over `len` bytes at `p`. Up to 128 KB
      the sum does not wrap even where unsigned long has 32 bits. */
  method IpChecksum(data: array<byte>, p: nat, len: nat) returns (sum16: u16)
    requires p + len <= data.Length && len <= 0x2_0000
    ensures sum16 == InternetChecksum(data[p..p + len])
  {
    ghost var s := data[p..p + len];
    var sum: nat, i := 0, 0;
    WordSumBound(s);
    while len - i > 1
      invariant 0 <= i <= len
      invariant i % 2 == 0
      invariant sum + WordSum(s[i..]) == WordSum(s)
    {
      sum := sum + BigEndian(data[p + i], data[p + i + 1]);
      assert s[i..][2..] == s[i + 2..];
      i := i + 2;
    }
    if len - i == 1 {
      sum := sum + BigEndian(data[p + i], 0);
    }
    assert sum == WordSum(s) <= 0xFFFF_FFFF;
    while sum / 0x1_0000 != 0
      invariant Fold(sum) == Fold(WordSum(s))
      decreases sum
    {
      sum := sum % 0x1_0000 + sum / 0x1_0000;
    }
    sum16 := 0xFFFF - sum;
  }
}
