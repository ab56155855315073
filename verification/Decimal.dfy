/** Digit strings, most significant digit first, and the numbers they stand for. */
module Decimal {
  import opened Arith

  type digit = d: int | 0 <= d < 10

  function Pow10(n: nat): (p: nat)
    ensures p >= 1
  {
    if n == 0 then 1 else 10 * Pow10(n - 1)
  }

  function Num(s: seq<digit>): nat
  {
    if s == [] then 0 else 10 * Num(s[..|s| - 1]) + s[|s| - 1]
  }

  function Zeros(n: nat): (s: seq<digit>)
    ensures |s| == n && forall k :: 0 <= k < n ==> s[k] == 0
  {
    seq(n, _ => 0)
  }

  lemma Pow10Unfold(n: nat)
    ensures Pow10(0) == 1 && Pow10(n + 1) == 10 * Pow10(n)
  {
  }

  lemma {:induction false} Pow10Add(m: nat, n: nat)
    ensures Pow10(m + n) == Pow10(m) * Pow10(n)
  {
    if n > 0 {
      Pow10Add(m, n - 1);
      assert Pow10(m) * (10 * Pow10(n - 1)) == 10 * (Pow10(m) * Pow10(n - 1));
    }
  }

  lemma {:induction false} Pow10Monotone(m: nat, n: nat)
    requires m <= n
    ensures Pow10(m) <= Pow10(n)
  {
    if m < n { Pow10Monotone(m, n - 1); }
  }

  lemma {:induction false} NumConcat(s: seq<digit>, t: seq<digit>)
    ensures Num(s + t) == Num(s) * Pow10(|t|) + Num(t)
  {
    if t == [] {
      assert s + t == s;
    } else {
      var k := |t| - 1;
      NumConcat(s, t[..k]);
      assert (s + t)[..|s + t| - 1] == s + t[..k];
      assert Num(s) * Pow10(k) * 10 == Num(s) * Pow10(k + 1);
    }
  }

  lemma NumEmpty()
    ensures Num([]) == 0
  {
  }

  lemma NumSingle(d: digit)
    ensures Num([d]) == d
  {
    assert [d][..0] == [];
  }

  lemma NumPrepend(d: digit, t: seq<digit>)
    ensures Num([d] + t) == d * Pow10(|t|) + Num(t)
  {
    NumSingle(d);
    NumConcat([d], t);
  }

  lemma {:induction false} NumBound(s: seq<digit>)
    ensures Num(s) < Pow10(|s|)
  {
    if s != [] { NumBound(s[..|s| - 1]); }
  }

  lemma {:induction false} NumZeros(n: nat)
    ensures Num(Zeros(n)) == 0
  {
    if n > 0 {
      NumZeros(n - 1);
      assert Zeros(n)[..n - 1] == Zeros(n - 1);
    }
  }

  /** A digit string is zero exactly when every digit is. */
  lemma {:induction false} NumZeroIff(s: seq<digit>)
    ensures Num(s) == 0 <==> forall k :: 0 <= k < |s| ==> s[k] == 0
  {
    if s != [] {
      var t := s[..|s| - 1];
      NumZeroIff(t);
      assert forall k :: 0 <= k < |t| ==> t[k] == s[k];
    }
  }

  lemma NumPadded(lead: nat, s: seq<digit>, trail: nat)
    ensures Num(Zeros(lead) + s + Zeros(trail)) == Num(s) * Pow10(trail)
  {
    NumConcat(Zeros(lead), s);
    NumZeros(lead);
    NumConcat(Zeros(lead) + s, Zeros(trail));
    NumZeros(trail);
  }

  /** Dropping leading zeros does not change the number. */
  lemma NumDropZeros(s: seq<digit>, i: nat)
    requires i <= |s| && forall k :: 0 <= k < i ==> s[k] == 0
    ensures Num(s[i..]) == Num(s)
  {
    NumConcat(s[..i], s[i..]);
    assert s == s[..i] + s[i..];
    NumZeroIff(s[..i]);
  }

  /** Dropping `k` trailing digits divides by 10^k, truncating. */
  lemma {:induction false} NumDropLast(s: seq<digit>, k: nat)
    requires k <= |s|
    ensures Num(s[..|s| - k]) == Num(s) / Pow10(k)
  {
    hide Num, Pow10;
    var h, t := s[..|s| - k], s[|s| - k..];
    assert s == h + t;
    NumConcat(h, t);
    NumBound(t);
    QuotientUnique(Num(s), Pow10(k), Num(h), Num(t));
  }

  /** Changing one digit changes the number by that digit's weight. */
  lemma {:induction false} NumUpdate(s: seq<digit>, p: nat, v: digit)
    requires p < |s|
    ensures Num(s[p := v]) == Num(s) + (v as int - s[p]) * Pow10(|s| - 1 - p)
  {
    hide Num, Pow10;
    var h, t := s[..p], s[p + 1..];
    assert s == h + ([s[p]] + t) && s[p := v] == h + ([v] + t);
    NumConcat(h, [s[p]] + t);
    NumConcat(h, [v] + t);
    NumPrepend(s[p], t);
    NumPrepend(v, t);
    MulDistribute(v, s[p], Pow10(|t|));
  }

  /** Without a leading zero, the length of a digit string orders its number. */
  lemma NumLowerBound(s: seq<digit>)
    requires s != [] && s[0] != 0
    ensures Num(s) >= Pow10(|s| - 1)
  {
    assert s == [s[0]] + s[1..];
    NumPrepend(s[0], s[1..]);
    MulMonotone(1, s[0], Pow10(|s| - 1));
  }

  lemma LongerIsLarger(s: seq<digit>, t: seq<digit>)
    requires |s| > |t| && s[0] != 0
    ensures Num(s) > Num(t)
  {
    NumLowerBound(s);
    NumBound(t);
    Pow10Monotone(|t|, |s| - 1);
  }

  /** Strings of one length compare as their first differing digit does. */
  lemma FirstDifference(s: seq<digit>, t: seq<digit>, i: nat)
    requires |s| == |t| && i < |s| && s[..i] == t[..i] && s[i] > t[i]
    ensures Num(s) > Num(t)
  {
    hide Num, Pow10;
    var a, b := s[i + 1..], t[i + 1..];
    assert s == s[..i] + ([s[i]] + a) && t == s[..i] + ([t[i]] + b);
    NumConcat(s[..i], [s[i]] + a);
    NumConcat(s[..i], [t[i]] + b);
    NumPrepend(s[i], a);
    NumPrepend(t[i], b);
    NumBound(b);
    MulMonotone(t[i] as int + 1, s[i], Pow10(|a|));
    MulDistribute(t[i], 1, Pow10(|a|));
  }
}
