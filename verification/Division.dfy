/** Schoolbook long division of AxCalc (src/kernel/gfx_shell.c). */
module Division {
  import opened Arith
  import opened Decimal
  import opened Bignum

  ghost predicate Stripped(s: seq<digit>) {
    |s| >= 1 && (|s| == 1 || s[0] != 0)
  }

  /** A stripped string is only as long as its number needs. */
  lemma StrippedFits(s: seq<digit>, t: seq<digit>)
    requires Stripped(s) && Stripped(t) && Num(s) < Num(t)
    ensures |s| <= |t|
  {
    if |s| > |t| { LongerIsLarger(s, t); }
  }

  method CompareStripped(r: array<digit>, rLen: nat, d: array<digit>, dLen: nat) returns (cmp: int)
    requires rLen <= r.Length && dLen <= d.Length
    requires Stripped(r[..rLen]) && Stripped(d[..dLen]) && Num(d[..dLen]) > 0
    ensures cmp < 0 <==> Num(r[..rLen]) < Num(d[..dLen])
  {
    hide Num, Pow10;
    ghost var rs, ds := r[..rLen], d[..dLen];
    if rLen != dLen {
      if rLen > dLen {
        LongerIsLarger(rs, ds);
        return 1;
      } else {
        LongerIsLarger(ds, rs);
        return -1;
      }
    }
    var k := 0;
    while k < rLen
      invariant 0 <= k <= rLen
      invariant rs[..k] == ds[..k]
    {
      if r[k] != d[k] {
        if r[k] > d[k] {
          FirstDifference(rs, ds, k);
          return 1;
        } else {
          FirstDifference(ds, rs, k);
          return -1;
        }
      }
      k := k + 1;
    }
    assert rs == ds;
    return 0;
  }

  method BorrowColumn(rem: array<digit>, k: nat, dd: digit, c: int) returns (borrow: int)
    requires k < rem.Length && 0 <= c <= 1
    modifies rem
    ensures 0 <= borrow <= 1
    ensures dd as int + rem[k] as int + c == old(rem[k]) as int + 10 * borrow
    ensures rem[..] == old(rem[..])[k := rem[k]]
  {
    var v := rem[k] as int - dd as int - c;
    if v < 0 { v := v + 10; borrow := 1; } else { borrow := 0; }
    rem[k] := v;
  }

  /** One column of a subtraction of `ys` from `xs`; `was` holds the result so far. */
  lemma BorrowStep(xs: seq<digit>, ys: seq<digit>, was: seq<digit>, k: nat, z: digit, c: int, c': int)
    requires |xs| == |ys| == |was| && k < |xs|
    requires ys[k] as int + z as int + c == xs[k] as int + 10 * c'
    requires Num(xs[k + 1..]) + c * Pow10(|xs| - 1 - k) == Num(ys[k + 1..]) + Num(was[k + 1..])
    ensures Num(xs[k..]) + c' * Pow10(|xs| - k) == Num(ys[k..]) + Num(was[k := z][k..])
  {
    hide Num, Pow10;
    CarryStep(ys[k], ys[k + 1..], z, was[k + 1..], c, xs[k], xs[k + 1..], c');
    assert xs[k..] == [xs[k]] + xs[k + 1..];
    assert ys[k..] == [ys[k]] + ys[k + 1..];
    assert was[k := z][k..] == [z] + was[k + 1..];
  }

  /** Subtracts the divisor from the remainder in place, with borrows. */
  method SubtractInPlace(rem: array<digit>, len: nat, d: array<digit>, dLen: nat)
    requires dLen <= len <= rem.Length && dLen <= d.Length && rem != d
    requires Num(rem[..len]) >= Num(d[..dLen])
    modifies rem
    ensures Num(rem[..len]) == Num(old(rem[..len])) - Num(d[..dLen])
  {
    hide Num, Pow10;
    var borrow := 0;
    var shift := len - dLen;
    ghost var xs := rem[..len];
    ghost var ys := Zeros(shift) + d[..dLen];
    NumDropZeros(ys, shift);
    assert ys[shift..] == d[..dLen];
    assert xs[len..] == [] && ys[len..] == [] && rem[..len][len..] == [];
    NumEmpty();
    var k := len - 1;
    while k >= 0
      invariant -1 <= k < len && 0 <= borrow <= 1
      invariant rem[..k + 1] == xs[..k + 1]
      invariant Num(xs[k + 1..]) + borrow * Pow10(len - 1 - k) == Num(ys[k + 1..]) + Num(rem[..len][k + 1..])
    {
      var dd := if k < shift then 0 else d[k - shift];
      ghost var was, c := rem[..len], borrow;
      assert was[k] == rem[..k + 1][k] == xs[k];
      borrow := BorrowColumn(rem, k, dd, borrow);
      assert rem[..len] == was[k := rem[k]];
      BorrowStep(xs, ys, was, k, rem[k], c, borrow);
      assert rem[..k] == was[..k] == xs[..k + 1][..k];
      k := k - 1;
    }
    assert xs[0..] == xs && ys[0..] == ys && rem[..len][0..] == rem[..len];
    NumBound(rem[..len]);
  }

  /** One quotient digit by repeated subtraction: never more than nine. */
  method QuotientDigit(rem: array<digit>, len: nat, d: array<digit>, dLen: nat) returns (qd: digit, newLen: nat)
    requires len <= rem.Length && dLen <= d.Length && rem != d
    requires Stripped(rem[..len]) && Stripped(d[..dLen]) && Num(d[..dLen]) > 0
    requires Num(rem[..len]) < 10 * Num(d[..dLen])
    modifies rem
    ensures newLen <= dLen && newLen <= len && Stripped(rem[..newLen])
    ensures Num(old(rem[..len])) == qd * Num(d[..dLen]) + Num(rem[..newLen])
    ensures Num(rem[..newLen]) < Num(d[..dLen])
  {
    hide Num, Pow10;
    ghost var r0, dv := Num(rem[..len]), Num(d[..dLen]);
    var q := 0;
    newLen := len;
    while true
      invariant newLen <= len && Stripped(rem[..newLen]) && 0 <= q
      invariant r0 == q * dv + Num(rem[..newLen])
      decreases Num(rem[..newLen])
    {
      var cmp := CompareStripped(rem, newLen, d, dLen);
      if cmp < 0 { break; }
      if newLen < dLen { LongerIsLarger(d[..dLen], rem[..newLen]); }
      SubtractInPlace(rem, newLen, d, dLen);
      newLen := StripZeros(rem, newLen, 1);
      MulDistribute(q, 1, dv);
      q := q + 1;
    }
    if q >= 10 { MulMonotone(10, q, dv); }
    qd := q;
    StrippedFits(rem[..newLen], d[..dLen]);
  }

  /** The invariant of one long-division step, as arithmetic. */
  lemma StepAlgebra(q: int, b: int, r: int, m: int, next: int, qd: int, r': int)
    requires q * b + r == m && 10 * r + next == qd * b + r'
    ensures (10 * q + qd) * b + r' == 10 * m + next
  {
    MulDistribute(10 * q, qd, b);
    MulAssociate(10, q, b);
  }

  /** Brings the next dividend digit down to the end of the remainder. */
  method BringDown(rem: array<digit>, remLen: nat, next: digit) returns (newLen: nat)
    requires remLen < rem.Length
    requires remLen > 0 ==> Stripped(rem[..remLen])
    modifies rem
    ensures newLen <= remLen + 1 && Stripped(rem[..newLen])
    ensures Num(rem[..newLen]) == 10 * Num(old(rem[..remLen])) + next
  {
    hide Num, Pow10;
    rem[remLen] := next;
    NumLast(old(rem[..remLen]), next);
    assert rem[..remLen + 1] == old(rem[..remLen]) + [next];
    newLen := StripZeros(rem, remLen + 1, 1);
  }

  /** Long division of the digits `n[..nLen]`, followed by FRAC_DIGITS zeros, by
      the stripped divisor `d[..dLen]`. */
  method LongDivide(n: array<digit>, nLen: nat, d: array<digit>, dLen: nat) returns (q: array<digit>)
    requires nLen <= n.Length && dLen <= d.Length && Stripped(d[..dLen]) && Num(d[..dLen]) > 0
    ensures fresh(q) && q.Length == nLen + FRAC_DIGITS
    ensures Num(q[..]) == Num(n[..nLen]) * Pow10(FRAC_DIGITS) / Num(d[..dLen])
  {
    hide Num, Pow10;
    NumEmpty();
    var total := nLen + FRAC_DIGITS;
    q := new digit[total];
    var remCap := dLen + 1;
    var rem := new digit[remCap];
    var remLen := 0;
    ghost var dividend := n[..nLen] + Zeros(FRAC_DIGITS);
    ghost var dv := Num(d[..dLen]);
    for step := 0 to total
      invariant remLen <= dLen && (remLen > 0 ==> Stripped(rem[..remLen]))
      invariant Num(rem[..remLen]) < dv
      invariant Num(q[..step]) * dv + Num(rem[..remLen]) == Num(dividend[..step])
    {
      var next: digit := if step < nLen then n[step] else 0;
      ghost var qs, r := q[..step], Num(rem[..remLen]);
      if remLen < remCap {
        remLen := BringDown(rem, remLen, next);
      } else {
        assert false;  // the shifting branch is never needed
      }
      var qd, newLen := QuotientDigit(rem, remLen, d, dLen);
      remLen := newLen;
      q[step] := qd;
      assert q[..step + 1] == qs + [qd];
      NumLast(qs, qd);
      assert dividend[..step + 1] == dividend[..step] + [next];
      NumLast(dividend[..step], next);
      StepAlgebra(Num(qs), dv, r, Num(dividend[..step]), next, qd, Num(rem[..remLen]));
    }
    assert dividend[..total] == dividend && q[..total] == q[..];
    DividendValue(n[..nLen]);
    QuotientUnique(Num(dividend), dv, Num(q[..]), Num(rem[..remLen]));
  }

  lemma DividendValue(s: seq<digit>)
    ensures Num(s + Zeros(FRAC_DIGITS)) == Num(s) * Pow10(FRAC_DIGITS)
  {
    assert Zeros(0) + s + Zeros(FRAC_DIGITS) == s + Zeros(FRAC_DIGITS);
    NumPadded(0, s, FRAC_DIGITS);
  }

  lemma NumLast(s: seq<digit>, d: digit)
    ensures Num(s + [d]) == 10 * Num(s) + d
  {
    assert (s + [d])[..|s|] == s;
  }

  datatype Status = Done | DivideByZero

  lemma MulPositive(x: int, y: int)
    requires x > 0 && y > 0
    ensures x * y > 0
  {
  }

  /** The long division of the aligned magnitudes. */
  method DivideMagnitudes(pa: Number, pb: Number) returns (q: array<digit>)
    requires pa.Valid() && pb.Valid() && pa.digits != pb.digits && pb.Mag() > 0
    modifies pb.digits
    ensures fresh(q) && q.Length == pa.len + FRAC_DIGITS
    ensures Num(q[..]) == old(pa.Mag()) * Pow10(FRAC_DIGITS) / old(pb.Mag())
  {
    hide Num, Pow10;
    var dLen := StripZeros(pb.digits, pb.len, 1);
    q := LongDivide(pa.digits, pa.len, pb.digits, dLen);
  }

  /** `x * 10^-sx` over `y * 10^-sy`, truncated, in units of 10^-FRAC_DIGITS. */
  ghost function Quotient(x: nat, sx: nat, y: nat, sy: nat): int
    requires y != 0
  {
    var s := Max(sx, sy);
    MulPositive(y, Pow10(s - sy));
    x * Pow10(s - sx) * Pow10(FRAC_DIGITS) / (y * Pow10(s - sy))
  }

  lemma QuotientAligned(x: nat, sx: nat, y: nat, sy: nat)
    requires y != 0
    ensures var s := Max(sx, sy);
            y * Pow10(s - sy) > 0 && Quotient(x, sx, y, sy) ==
              x * Pow10(s - sx) * Pow10(FRAC_DIGITS) / (y * Pow10(s - sy))
  {
    hide Pow10;
    MulPositive(y, Pow10(Max(sx, sy) - sy));
  }

  method Div(a: Number, b: Number) returns (status: Status, out: Number?)
    requires a.Valid() && b.Valid()
    ensures status == DivideByZero <==> b.Mag() == 0
    ensures status == Done ==> out != null && fresh(out) && fresh(out.digits) && out.Valid() && out.Canonical()
    ensures status == Done ==> out.scale == FRAC_DIGITS && out.Mag() == Quotient(a.Mag(), a.scale, b.Mag(), b.scale)
    ensures status == Done ==> out.sign == if out.Mag() == 0 || a.sign == b.sign then 0 else 1
  {
    hide Num, Pow10, Quotient;
    var zero := b.IsZero();
    if zero { return DivideByZero, null; }
    var pa, pb := Align(a, b);
    QuotientAligned(a.Mag(), a.scale, b.Mag(), b.scale);
    var q := DivideMagnitudes(pa, pb);
    var n := new Number(q, pa.len + FRAC_DIGITS, FRAC_DIGITS, if a.sign != b.sign then 1 else 0);
    assert n.Str() == q[..];
    n.Trim();
    return Done, n;
  }
}
