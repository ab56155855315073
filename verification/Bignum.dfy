/** The arbitrary-length decimal arithmetic of AxCalc (src/kernel/gfx_shell.c). */
module Bignum {
  import opened Arith
  import opened Decimal

  /** Fractional digits kept by a product or a quotient. */
  const FRAC_DIGITS: nat := 20

  class Number {
    var digits: array<digit>  // most significant first; only the first `len` count
    var len: nat
    var scale: nat            // how many of them stand after the decimal point
    var sign: int             // 1 for negative

    constructor (digits: array<digit>, len: nat, scale: nat, sign: int)
      ensures this.digits == digits && this.len == len && this.scale == scale && this.sign == sign
    {
      this.digits, this.len, this.scale, this.sign := digits, len, scale, sign;
    }

    ghost predicate Valid()
      reads this
    {
      scale < len <= digits.Length && 0 <= sign <= 1
    }

    ghost function Str(): seq<digit>
      requires Valid()
      reads this, digits
    {
      digits[..len]
    }

    /** The magnitude in units of 10^-scale. */
    ghost function Mag(): nat
      requires Valid()
      reads this, digits
    {
      Num(Str())
    }

    ghost function Signed(): int
      requires Valid()
      reads this, digits
    {
      if sign == 1 then -(Mag() as int) else Mag()
    }

    /** The exact value in units of 10^-s. */
    ghost function At(s: nat): int
      requires Valid() && scale <= s
      reads this, digits
    {
      Signed() * Pow10(s - scale)
    }

    /** Zero is not negative, and no integer digit is a redundant leading zero. */
    ghost predicate Canonical()
      requires Valid()
      reads this, digits
    {
      (Mag() == 0 ==> sign == 0) && (len > scale + 1 ==> digits[0] != 0)
    }

    method IsZero() returns (zero: bool)
      requires Valid()
      ensures zero <==> Mag() == 0
    {
      NumZeroIff(Str());
      var i := 0;
      while i < len
        invariant 0 <= i <= len
        invariant forall k :: 0 <= k < i ==> digits[k] == 0
      {
        if digits[i] != 0 {
          assert Str()[i] != 0;
          return false;
        }
        i := i + 1;
      }
      return true;
    }

    method Trim()
      requires Valid()
      modifies this`len, this`sign, digits
      ensures Valid() && Canonical()
      ensures len <= old(len) && Mag() == old(Mag())
      ensures sign == if Mag() == 0 then 0 else old(sign)
      ensures Signed() == old(Signed())
    {
      hide Num;
      len := StripZeros(digits, len, scale + 1);
      var zero := IsZero();
      if zero { sign := 0; }
    }
  }

  /** Shifts the digits left over leading zeros, keeping at least `minLen`. */
  method StripZeros(d: array<digit>, len: nat, minLen: nat) returns (newLen: nat)
    requires 1 <= minLen <= len <= d.Length
    modifies d
    ensures minLen <= newLen <= len
    ensures Num(d[..newLen]) == Num(old(d[..len]))
    ensures newLen == minLen || d[0] != 0
  {
    hide Num;
    ghost var was := d[..len];
    var i := 0;
    while len - i > minLen && d[i] == 0
      invariant 0 <= i <= len - minLen
      invariant forall k :: 0 <= k < i ==> was[k] == 0
    {
      i := i + 1;
    }
    NumDropZeros(was, i);
    if i > 0 { ShiftDown(d, i, len); }
    newLen := len - i;
  }

  method ShiftDown(d: array<digit>, i: nat, n: nat)
    requires i <= n <= d.Length
    modifies d
    ensures d[..n - i] == old(d[..n])[i..]
  {
    for j := i to n
      invariant forall k :: 0 <= k < j - i ==> d[k] == old(d[k + i])
      invariant forall k :: j - i <= k < d.Length ==> d[k] == old(d[k])
    {
      d[j - i] := d[j];
    }
  }

  method FromDigit(d: digit) returns (n: Number)
    ensures fresh(n) && fresh(n.digits) && n.Valid()
    ensures n.scale == 0 && n.sign == 0 && n.Mag() == d
  {
    var a := new digit[1];
    a[0] := d;
    n := new Number(a, 1, 0, 0);
    assert n.Str() == [d];
    NumSingle(d);
  }

  /** A copy of `n` with `intLen` integer digits and `scale` fractional ones. */
  method Pad(n: Number, intLen: nat, scale: nat) returns (p: Number)
    requires n.Valid() && intLen >= n.len - n.scale && scale >= n.scale
    ensures fresh(p) && fresh(p.digits) && p.Valid()
    ensures p.len == intLen + scale && p.scale == scale && p.sign == n.sign
    ensures p.Mag() == n.Mag() * Pow10(scale - n.scale)
  {
    hide Num, Pow10;
    var lead := intLen - (n.len - n.scale);
    var d := new digit[intLen + scale];
    for i := 0 to lead
      invariant forall k :: 0 <= k < i ==> d[k] == 0
    {
      d[i] := 0;
    }
    for i := 0 to n.len
      invariant forall k :: 0 <= k < lead ==> d[k] == 0
      invariant forall k :: lead <= k < lead + i ==> d[k] == n.digits[k - lead]
    {
      d[lead + i] := n.digits[i];
    }
    for i := 0 to scale - n.scale
      invariant forall k :: 0 <= k < lead ==> d[k] == 0
      invariant forall k :: lead <= k < lead + n.len ==> d[k] == n.digits[k - lead]
      invariant forall k :: lead + n.len <= k < lead + n.len + i ==> d[k] == 0
    {
      d[lead + n.len + i] := 0;
    }
    PaddedValue(d[..], n.Str(), lead, scale - n.scale);
    p := new Number(d, intLen + scale, scale, n.sign);
    assert p.Str() == d[..];
  }

  lemma PaddedValue(d: seq<digit>, s: seq<digit>, lead: nat, trail: nat)
    requires |d| == lead + |s| + trail
    requires forall k :: 0 <= k < lead ==> d[k] == 0
    requires forall k :: lead <= k < lead + |s| ==> d[k] == s[k - lead]
    requires forall k :: lead + |s| <= k < |d| ==> d[k] == 0
    ensures Num(d) == Num(s) * Pow10(trail)
  {
    hide Num, Pow10;
    assert d == Zeros(lead) + s + Zeros(trail);
    NumPadded(lead, s, trail);
  }

  lemma NegateProduct(x: int, y: int)
    ensures (-x) * y == -(x * y)
  {
  }

  lemma AtMagnitude(n: Number, s: nat)
    requires n.Valid() && n.scale <= s
    ensures n.At(s) == if n.sign == 1 then -(n.Mag() * Pow10(s - n.scale)) else n.Mag() * Pow10(s - n.scale)
  {
    hide Num, Pow10;
    NegateProduct(n.Mag(), Pow10(s - n.scale));
  }

  /** Copies of both operands at one scale and one length. */
  method Align(a: Number, b: Number) returns (pa: Number, pb: Number)
    requires a.Valid() && b.Valid()
    ensures fresh(pa) && fresh(pa.digits) && pa.Valid()
    ensures fresh(pb) && fresh(pb.digits) && pb.Valid() && pa.digits != pb.digits && pa != pb
    ensures pa.scale == pb.scale == Max(a.scale, b.scale) && pa.len == pb.len
    ensures pa.Mag() == a.Mag() * Pow10(pa.scale - a.scale) && pa.sign == a.sign
    ensures pb.Mag() == b.Mag() * Pow10(pb.scale - b.scale) && pb.sign == b.sign
    ensures pa.Signed() == a.At(pa.scale) && pb.Signed() == b.At(pb.scale)
  {
    hide Num, Pow10;
    var scale := Max(a.scale, b.scale);
    var intLen := Max(a.len - a.scale, b.len - b.scale);
    pa := Pad(a, intLen, scale);
    pb := Pad(b, intLen, scale);
    AtMagnitude(a, scale);
    AtMagnitude(b, scale);
  }

  method CmpAbs(a: Number, b: Number) returns (c: int)
    requires a.Valid() && b.Valid() && a.len == b.len
    ensures c == if a.Mag() > b.Mag() then 1 else if a.Mag() < b.Mag() then -1 else 0
  {
    hide Num, Pow10;
    var i := 0;
    while i < a.len
      invariant 0 <= i <= a.len
      invariant a.Str()[..i] == b.Str()[..i]
    {
      if a.digits[i] != b.digits[i] {
        if a.digits[i] > b.digits[i] {
          FirstDifference(a.Str(), b.Str(), i);
          return 1;
        } else {
          FirstDifference(b.Str(), a.Str(), i);
          return -1;
        }
      }
      i := i + 1;
    }
    assert a.Str() == b.Str();
    return 0;
  }

  lemma ColumnAlgebra(x: int, y: int, c: int, z: int, c': int, p: int)
    requires x + y + c == z + 10 * c'
    ensures x * p + y * p + c * p == z * p + c' * (10 * p)
  {
    MulDistribute(x, y, p);
    MulDistribute(x + y, c, p);
    MulDistribute(z, 10 * c', p);
    MulAssociate(c', 10, p);
  }

  /** One column of an addition. */
  lemma CarryStep(x: digit, xs: seq<digit>, y: digit, ys: seq<digit>, c: int, z: digit, zs: seq<digit>, c': int)
    requires |xs| == |ys| == |zs|
    requires x + y + c == z + 10 * c'
    requires Num(zs) + c * Pow10(|zs|) == Num(xs) + Num(ys)
    ensures Num([z] + zs) + c' * Pow10(|zs| + 1) == Num([x] + xs) + Num([y] + ys)
  {
    hide Num, Pow10;
    Pow10Unfold(|zs|);
    NumPrepend(x, xs);
    NumPrepend(y, ys);
    NumPrepend(z, zs);
    ColumnAlgebra(x, y, c, z, c', Pow10(|zs|));
  }

  method AddAbs(a: Number, b: Number) returns (out: Number)
    requires a.Valid() && b.Valid() && a.len == b.len
    ensures fresh(out) && fresh(out.digits) && out.Valid()
    ensures out.len == a.len + 1 && out.scale == a.scale && out.sign == 0
    ensures out.Mag() == a.Mag() + b.Mag()
  {
    hide Num, Pow10;
    NumEmpty();
    var n := a.len;
    var d := new digit[n + 1];
    var carry := 0;
    assert d[n + 1..] == [] && a.digits[n..n] == [] && b.digits[n..n] == [];
    for i := 0 to n
      invariant 0 <= carry <= 1
      invariant Num(d[n + 1 - i..]) + carry * Pow10(i) == Num(a.digits[n - i..n]) + Num(b.digits[n - i..n])
    {
      var sum := a.digits[n - 1 - i] as int + b.digits[n - 1 - i] as int + carry;
      ghost var zs, c := d[n + 1 - i..], carry;
      ghost var xs, ys := a.digits[n - i..n], b.digits[n - i..n];
      carry := sum / 10;
      d[n - i] := sum % 10;
      assert d[n + 1 - i..] == zs;
      assert d[n - i..] == [d[n - i]] + zs;
      assert a.digits[n - 1 - i..n] == [a.digits[n - 1 - i]] + xs;
      assert b.digits[n - 1 - i..n] == [b.digits[n - 1 - i]] + ys;
      CarryStep(a.digits[n - 1 - i], xs, b.digits[n - 1 - i], ys, c, d[n - i], zs, carry);
    }
    ghost var low := d[1..];
    d[0] := carry;
    assert d[..] == [carry] + low;
    NumPrepend(carry, low);
    out := new Number(d, n + 1, a.scale, 0);
    assert out.Str() == d[..] && a.digits[0..n] == a.Str() && b.digits[0..n] == b.Str();
  }

  method SubAbs(a: Number, b: Number) returns (out: Number)
    requires a.Valid() && b.Valid() && a.len == b.len && a.Mag() >= b.Mag()
    ensures fresh(out) && fresh(out.digits) && out.Valid()
    ensures out.len == a.len && out.scale == a.scale && out.sign == 0
    ensures out.Mag() == a.Mag() - b.Mag()
  {
    hide Num, Pow10;
    NumEmpty();
    var n := a.len;
    var d := new digit[n];
    var borrow := 0;
    assert d[n..] == [] && a.digits[n..n] == [] && b.digits[n..n] == [];
    for i := 0 to n
      invariant 0 <= borrow <= 1
      invariant Num(a.digits[n - i..n]) + borrow * Pow10(i) == Num(b.digits[n - i..n]) + Num(d[n - i..])
    {
      var idx := n - 1 - i;
      var v := a.digits[idx] as int - b.digits[idx] as int - borrow;
      ghost var zs, c := d[n - i..], borrow;
      ghost var xs, ys := a.digits[n - i..n], b.digits[n - i..n];
      if v < 0 { v := v + 10; borrow := 1; } else { borrow := 0; }
      d[idx] := v;
      assert d[n - i..] == zs;
      assert d[idx..] == [d[idx]] + zs;
      assert a.digits[idx..n] == [a.digits[idx]] + xs;
      assert b.digits[idx..n] == [b.digits[idx]] + ys;
      CarryStep(b.digits[idx], ys, d[idx], zs, c, a.digits[idx], xs, borrow);
    }
    out := new Number(d, n, a.scale, 0);
    assert out.Str() == d[0..] && a.digits[0..n] == a.Str() && b.digits[0..n] == b.Str();
    NumBound(out.Str());
  }

  /** The signed sum of two aligned numbers, before trimming. */
  method AddAligned(pa: Number, pb: Number) returns (out: Number)
    requires pa.Valid() && pb.Valid() && pa.len == pb.len && pa.scale == pb.scale
    ensures fresh(out) && fresh(out.digits) && out.Valid() && out.scale == pa.scale
    ensures out.Signed() == pa.Signed() + pb.Signed()
  {
    hide Num, Pow10;
    if pa.sign == pb.sign {
      out := AddAbs(pa, pb);
      out.sign := pa.sign;
    } else {
      var cmp := CmpAbs(pa, pb);
      if cmp >= 0 {
        out := SubAbs(pa, pb);
        out.sign := pa.sign;
      } else {
        out := SubAbs(pb, pa);
        out.sign := pb.sign;
      }
    }
  }

  /** The exact signed sum at the larger of the two scales. */
  method Add(a: Number, b: Number) returns (out: Number)
    requires a.Valid() && b.Valid()
    ensures fresh(out) && fresh(out.digits) && out.Valid() && out.Canonical()
    ensures out.scale == Max(a.scale, b.scale)
    ensures out.Signed() == a.At(out.scale) + b.At(out.scale)
  {
    hide Num, Pow10;
    var pa, pb := Align(a, b);
    out := AddAligned(pa, pb);
    out.Trim();
  }

  method Sub(a: Number, b: Number) returns (out: Number)
    requires a.Valid() && b.Valid()
    ensures fresh(out) && fresh(out.digits) && out.Valid() && out.Canonical()
    ensures out.scale == Max(a.scale, b.scale)
    ensures out.Signed() == a.At(out.scale) - b.At(out.scale)
  {
    hide Num, Pow10;
    var negB := new Number(b.digits, b.len, b.scale, if b.sign == 1 then 0 else 1);
    var zero := b.IsZero();
    if zero { negB.sign := 0; }
    ghost var scale := Max(a.scale, b.scale);
    assert negB.At(scale) == -b.At(scale) by {
      assert negB.Str() == b.Str();
      AtMagnitude(b, scale);
      AtMagnitude(negB, scale);
    }
    out := Add(a, negB);
  }

  lemma ProductColumn(n0: int, n1: int, x: int, y: int, t: int, c: int, z: int, c': int, o: int, b: int, q: int,
        k: int, p: int)
    requires x * y + t + c == z + 10 * c'
    requires p == q * k
    requires n1 == n0 + (z - t) * p
    requires n0 + c * p == o + x * b * k
    ensures n1 + c' * (10 * p) == o + x * (y * q + b) * k
  {
    calc {
      n1 + c' * (10 * p);
      n0 + (z - t) * p + c' * (10 * p);
      { MulAssociate(c', 10, p); MulDistribute(z - t, 10 * c', p); }
      n0 + (z - t + 10 * c') * p;
      n0 + (x * y + c) * p;
      { MulDistribute(x * y, c, p); }
      n0 + c * p + (x * y) * p;
      o + x * b * k + (x * y) * (q * k);
      { MulAssociate(x * y, q, k); MulAssociate(x, y, q); }
      o + x * b * k + (x * (y * q)) * k;
      { MulDistribute(x * (y * q), x * b, k); }
      o + (x * (y * q) + x * b) * k;
      { MulDistribute(y * q, b, x); }
      o + x * (y * q + b) * k;
    }
  }

  /** What a carry into the column with `k` columns behind it is worth. */
  ghost function CarryValue(c: int, k: nat): int {
    c * Pow10(k)
  }

  /** `x` times the digits `bs`, with `zeros` columns behind them. */
  ghost function RowPart(x: int, bs: seq<digit>, zeros: nat): int {
    x * Num(bs) * Pow10(zeros)
  }

  /** One column of a product row, on the array's contents. */
  lemma RowColumn(was: seq<digit>, pos: nat, z: digit, x: int, y: digit, bs: seq<digit>, c: int, c': int, o: int,
        zeros: nat)
    requires pos < |was| && |was| - 1 - pos == |bs| + zeros
    requires x * y + was[pos] + c == z + 10 * c'
    requires Num(was) + CarryValue(c, |was| - 1 - pos) == o + RowPart(x, bs, zeros)
    ensures Num(was[pos := z]) + CarryValue(c', |was| - pos) == o + RowPart(x, [y] + bs, zeros)
  {
    Pow10Add(|bs|, zeros);
    NumUpdate(was, pos, z);
    NumPrepend(y, bs);
    ProductColumn(Num(was), Num(was[pos := z]), x, y, was[pos], c, z, c', o, Num(bs), Pow10(|bs|), Pow10(zeros),
      Pow10(|was| - 1 - pos));
  }

  lemma RowEnds(x: int, b: Number, zeros: nat)
    requires b.Valid()
    ensures CarryValue(0, zeros) == 0 && RowPart(x, [], zeros) == 0 &&
            RowPart(x, b.Str(), zeros) == RowValue(x, b.Mag(), zeros)
  {
    hide Num;
    NumEmpty();
  }

  /** The row's last carry goes into a column no earlier row has reached. */
  method PropagateCarry(tmp: array<digit>, i: nat, c: int)
    requires i < tmp.Length && tmp[i] == 0 && 0 <= c <= 9
    modifies tmp
    ensures Num(tmp[..]) == Num(old(tmp[..])) + CarryValue(c, tmp.Length - 1 - i)
    ensures forall k :: 0 <= k < i ==> tmp[k] == old(tmp[k])
  {
    hide Num, Pow10;
    var carry, pos := c, i;
    while carry != 0 && pos >= 0
      invariant -1 <= pos <= i
      invariant pos == i ==> carry == c && tmp[..] == old(tmp[..])
      invariant pos < i ==> carry == 0 && tmp[..] == old(tmp[..])[i := c]
    {
      var sum := tmp[pos] as int + carry;
      tmp[pos] := sum % 10;
      carry := sum / 10;
      pos := pos - 1;
    }
    NumUpdate(old(tmp[..]), i, c);
    assert c == 0 ==> old(tmp[..])[i := c] == old(tmp[..]);
  }

  method MulColumn(tmp: array<digit>, pos: nat, x: digit, y: digit, c: int) returns (carry: int)
    requires pos < tmp.Length && 0 <= c <= 9
    modifies tmp
    ensures 0 <= carry <= 9
    ensures x as int * y as int + old(tmp[pos]) as int + c == tmp[pos] as int + 10 * carry
    ensures tmp[..] == old(tmp[..])[pos := tmp[pos]]
  {
    MulMonotone(x, 9, y);
    var prod := x as int * y as int + tmp[pos] as int + c;
    tmp[pos] := prod % 10;
    carry := prod / 10;
  }

  /** One row of the schoolbook product, and the rows below it. */
  ghost function RowValue(x: int, b: int, zeros: nat): int {
    x * b * Pow10(zeros)
  }

  ghost function PartialProduct(xs: seq<digit>, b: int): int {
    Num(xs) * b
  }

  /** Adds `x * b`, shifted to end at column `i + b.len`, into the product array. */
  method AddProductRow(tmp: array<digit>, x: digit, b: Number, i: nat)
    requires b.Valid() && tmp != b.digits && i + b.len < tmp.Length
    requires forall k :: 0 <= k <= i ==> tmp[k] == 0
    modifies tmp
    ensures Num(tmp[..]) == Num(old(tmp[..])) + RowValue(x, b.Mag(), tmp.Length - 1 - i - b.len)
    ensures forall k :: 0 <= k < i ==> tmp[k] == 0
  {
    hide Num, Pow10, CarryValue, RowPart, RowValue;
    ghost var old0 := Num(tmp[..]);
    ghost var zeros := tmp.Length - 1 - i - b.len;
    RowEnds(x, b, zeros);
    var m := b.len;
    var carry := 0;
    var j := m - 1;
    assert b.digits[m..m] == [];
    while j >= 0
      invariant -1 <= j < m && 0 <= carry <= 9
      invariant forall k :: 0 <= k <= i ==> tmp[k] == 0
      invariant Num(tmp[..]) + CarryValue(carry, tmp.Length - 2 - i - j) == old0 + RowPart(x, b.digits[j + 1..m], zeros)
    {
      var pos := i + j + 1;
      var y := b.digits[j];
      ghost var was, bs, c := tmp[..], b.digits[j + 1..m], carry;
      carry := MulColumn(tmp, pos, x, y, carry);
      RowColumn(was, pos, tmp[pos], x, y, bs, c, carry, old0, zeros);
      assert b.digits[j..m] == [y] + bs;
      j := j - 1;
    }
    assert b.digits[0..m] == b.Str();
    PropagateCarry(tmp, i, carry);
  }

  lemma RowAlgebra(x: int, b: int, p: int, r: int)
    ensures r * b + x * b * p == (x * p + r) * b
  {
    MulDistribute(x * p, r, b);
    MulAssociate(x, p, b);
    MulAssociate(x, b, p);
  }

  lemma RowStep(xs: seq<digit>, i: nat, b: int)
    requires i < |xs|
    ensures PartialProduct(xs[|xs|..], b) == 0 && PartialProduct(xs[0..], b) == PartialProduct(xs, b)
    ensures PartialProduct(xs[i..], b) == PartialProduct(xs[i + 1..], b) + RowValue(xs[i], b, |xs| - 1 - i)
  {
    hide Num, Pow10;
    NumEmpty();
    var t := xs[i + 1..];
    assert xs[i..] == [xs[i]] + t && xs[0..] == xs && xs[|xs|..] == [];
    NumPrepend(xs[i], t);
    RowAlgebra(xs[i], b, Pow10(|t|), Num(t));
  }

  method ZeroDigits(n: nat) returns (d: array<digit>)
    ensures fresh(d) && d.Length == n && Num(d[..]) == 0
    ensures forall k :: 0 <= k < n ==> d[k] == 0
  {
    hide Num;
    d := new digit[n];
    for i := 0 to n
      invariant forall k :: 0 <= k < i ==> d[k] == 0
    {
      d[i] := 0;
    }
    NumZeroIff(d[..]);
  }

  /** All digits of the product, before its scale is cut back. */
  method Product(a: Number, b: Number) returns (tmp: array<digit>)
    requires a.Valid() && b.Valid()
    ensures fresh(tmp) && tmp.Length == a.len + b.len
    ensures Num(tmp[..]) == PartialProduct(a.Str(), b.Mag())
  {
    hide Num, Pow10, RowValue, PartialProduct;
    ghost var xs, bv := a.Str(), b.Mag();
    RowStep(xs, 0, bv);
    tmp := ZeroDigits(a.len + b.len);
    var i := a.len - 1;
    while i >= 0
      invariant -1 <= i < a.len
      invariant forall k :: 0 <= k <= i ==> tmp[k] == 0
      invariant Num(tmp[..]) == PartialProduct(xs[i + 1..], bv)
    {
      RowStep(xs, i, bv);
      AddProductRow(tmp, a.digits[i], b, i);
      i := i - 1;
    }
  }

  /** The product, truncated toward zero to at most FRAC_DIGITS fractional digits. */
  method Mul(a: Number, b: Number) returns (out: Number)
    requires a.Valid() && b.Valid()
    ensures fresh(out) && fresh(out.digits) && out.Valid() && out.Canonical()
    ensures out.scale == if a.scale + b.scale > FRAC_DIGITS then FRAC_DIGITS else a.scale + b.scale
    ensures out.Mag() == a.Mag() * b.Mag() / Pow10(a.scale + b.scale - out.scale)
    ensures out.sign == if out.Mag() == 0 || a.sign == b.sign then 0 else 1
  {
    hide Num, Pow10;
    Pow10Unfold(0);
    var tmp := Product(a, b);
    out := new Number(tmp, a.len + b.len, a.scale + b.scale, if a.sign != b.sign then 1 else 0);
    if out.scale > FRAC_DIGITS {
      NumDropLast(tmp[..], out.scale - FRAC_DIGITS);
      out.len := out.len - (out.scale - FRAC_DIGITS);
      out.scale := FRAC_DIGITS;
      assert out.Str() == tmp[..][..out.len];
    } else {
      assert tmp[..] == out.Str();
    }
    out.Trim();
  }
}
