/** Byte memories as sequences: stores, and what they leave alone. */
module Memory {
  import opened Bytes

  /** Storing `s` at `a`. */
  function Put(m: seq<byte>, a: nat, s: seq<byte>): (r: seq<byte>)
    requires a + |s| <= |m|
    ensures |r| == |m|
    ensures forall k :: 0 <= k < |m| ==> r[k] == if a <= k < a + |s| then s[k - a] else m[k]
  {
    m[..a] + s + m[a + |s|..]
  }

  function ZeroBytes(n: nat): (s: seq<byte>)
    ensures |s| == n && forall k :: 0 <= k < n ==> s[k] == 0
  {
    seq(n, _ => 0)
  }

  /** The two memories differ at most in [lo, hi). */
  ghost predicate SameOutside(m: seq<byte>, m': seq<byte>, lo: nat, hi: nat) {
    |m| == |m'| && forall k :: 0 <= k < |m| && (k < lo || hi <= k) ==> m[k] == m'[k]
  }

  lemma SameLength(m: seq<byte>, m': seq<byte>, lo: nat, hi: nat)
    requires SameOutside(m, m', lo, hi)
    ensures |m| == |m'|
  {
  }

  lemma PutFacts(m: seq<byte>, a: nat, s: seq<byte>)
    requires a + |s| <= |m|
    ensures SameOutside(m, Put(m, a, s), a, a + |s|)
    ensures Put(m, a, s)[a..a + |s|] == s
  {
  }

  /** A stretch that a change left alone. */
  lemma SliceSame(m: seq<byte>, m': seq<byte>, lo: nat, hi: nat, i: nat, j: nat)
    requires SameOutside(m, m', lo, hi) && i <= j <= |m| && (j <= lo || hi <= i)
    ensures m'[i..j] == m[i..j]
  {
  }

  lemma SameOutsideJoin(m: seq<byte>, m': seq<byte>, m'': seq<byte>, lo: nat, hi: nat, lo': nat, hi': nat, lo'': nat,
        hi'': nat)
    requires SameOutside(m, m', lo', hi') && SameOutside(m', m'', lo'', hi'')
    requires lo <= lo' && lo <= lo'' && hi' <= hi && hi'' <= hi
    ensures SameOutside(m, m'', lo, hi)
  {
  }

  lemma Subslice(m: seq<byte>, a: nat, n: nat, i: nat, j: nat)
    requires a + n <= |m| && i <= j <= n
    ensures m[a..a + n][i..j] == m[a + i..a + j]
  {
    var x := m[a..a + n];
    assert forall k :: 0 <= k < n ==> x[k] == m[a + k];
    assert forall k :: 0 <= k < j - i ==> x[i..j][k] == x[i + k] == m[a + i..a + j][k];
  }
}
