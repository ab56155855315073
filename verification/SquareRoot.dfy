/** The sixty Newton steps of calc_sqrt (src/kernel/gfx_shell.c): on integers in
    units of 10^-20 they are Newton's iteration for the floor of a square root. */
module SquareRoot {
  import opened Arith
  import opened Decimal
  import opened Bignum
  import opened Division

  /** The floor of the square root, by its definition. */
  ghost function FloorRoot(n: nat): (r: nat)
    ensures r * r <= n < (r + 1) * (r + 1)
  {
    if n == 0 then 0 else
      var r := FloorRoot(n - 1);
      if (r + 1) * (r + 1) <= n then r + 1 else r
  }

  lemma RootIsLargest(n: nat, t: nat)
    requires t * t <= n
    ensures t <= FloorRoot(n)
  {
    var r := FloorRoot(n);
    if t > r {
      MulMonotone(r + 1, t, t);
      MulMonotone(r + 1, t, r + 1);
    }
  }

  ghost function NewtonStep(n: nat, x: nat): nat
    requires x > 0
  {
    (x + n / x) / 2
  }

  lemma StepPositive(n: nat, x: nat)
    requires n > 0 && x > 0
    ensures NewtonStep(n, x) > 0
  {
    if x == 1 { assert n / x == n; }
  }

  ghost function Newton(n: nat, x: nat, k: nat): (y: nat)
    requires n > 0 && x > 0
    ensures y > 0
  {
    if k == 0 then x else
      var y := Newton(n, x, k - 1);
      StepPositive(n, y);
      NewtonStep(n, y)
  }

  /** No step goes below the root: x + n/x is at least twice the root. */
  lemma StepAbove(n: nat, x: nat)
    requires x > 0
    ensures NewtonStep(n, x) >= FloorRoot(n)
  {
    var r, q := FloorRoot(n), n / x;
    QuotientBounds(n, x);
    assert n < (q + 1) * x by { MulDistribute(q, 1, x); }
    if x + q < 2 * r {
      MulMonotone(q + 1, 2 * r - x, x);
      SquareOfDifference(r, x);
    }
  }

  lemma SquareOfDifference(r: int, x: int)
    ensures (2 * r - x) * x == r * r - (r - x) * (r - x) <= r * r
    ensures (r - x) * (r - x) == r * r - 2 * r * x + x * x
  {
  }

  lemma NextSquare(r: int)
    ensures (r + 1) * (r + 1) == r * (r + 2) + 1 == r * r + 2 * r + 1
  {
  }

  lemma QuotientAtRoot(n: nat, r: nat)
    requires r > 0 && n < (r + 1) * (r + 1)
    ensures n / r <= r + 2
    ensures n != r * (r + 2) ==> n / r <= r + 1
  {
    NextSquare(r);
    MulDistribute(r + 2, 1, r);
    QuotientBelow(n, r, r + 3);
    if n != r * (r + 2) { QuotientBelow(n, r, r + 2); }
  }

  lemma QuotientAboveRoot(n: nat, r: nat, x: nat)
    requires x > r && n < (r + 1) * (r + 1)
    ensures n / x <= r
  {
    MulMonotone(r + 1, x, r + 1);
    QuotientBelow(n, x, r + 1);
  }

  /** From above, a step at least halves the distance, down to one. */
  lemma StepHalves(n: nat, x: nat)
    requires x > 0 && x >= FloorRoot(n)
    ensures NewtonStep(n, x) <= FloorRoot(n) + if x - FloorRoot(n) <= 2 then 1 else (x - FloorRoot(n)) / 2
    ensures x == FloorRoot(n) + 1 ==> NewtonStep(n, x) == FloorRoot(n)
  {
    var r, q := FloorRoot(n), n / x;
    StepAbove(n, x);
    if x > r {
      QuotientAboveRoot(n, r, x);
    } else {
      QuotientAtRoot(n, r);
    }
  }

  /** At the root itself the iteration stays, unless n is one short of a square. */
  lemma RootIsFixed(n: nat, x: nat)
    requires x > 0 && x == FloorRoot(n) && n != x * (x + 2)
    ensures NewtonStep(n, x) == x
  {
    QuotientAtRoot(n, x);
    StepAbove(n, x);
  }

  lemma StepSquare(n: nat, x: nat)
    requires x > 0 && x >= FloorRoot(n)
    ensures var r := FloorRoot(n); 2 * r * (NewtonStep(n, x) - r - 1) <= (x - r) * (x - r)
  {
    QuotientBounds(n, x);
    NextSquare(FloorRoot(n));
    StepAbove(n, x);
    SquareStepAlgebra(FloorRoot(n), x, NewtonStep(n, x), n, n / x);
  }

  lemma SquareStepAlgebra(r: int, x: int, y: int, n: int, q: int)
    requires 0 <= r <= x && r <= y && 2 * y <= x + q && q * x <= n <= r * r + 2 * r
    ensures 2 * r * (y - r - 1) <= (x - r) * (x - r)
  {
    MulMonotone(2 * y, x + q, x);
    MulDistribute(x, q, x);
    assert 2 * x * (y - r) == 2 * y * x - 2 * x * r;
    SquareOfDifference(x, r);
    MulMonotone(2 * r, 2 * x, y - r);
    assert 2 * r * (y - r - 1) == 2 * r * (y - r) - 2 * r;
  }

  /** Quadratic convergence: being within r/k + 2 of the root r becomes being
      within r/k^2 + 2 after one step. */
  lemma StepQuadratic(n: nat, x: nat, k: nat)
    requires x > 0 && x >= FloorRoot(n) >= 6 && k >= 2
    requires (x - FloorRoot(n)) * k <= FloorRoot(n) + 2 * k
    ensures (NewtonStep(n, x) - FloorRoot(n)) * (k * k) <= FloorRoot(n) + 2 * (k * k)
  {
    StepSquare(n, x);
    StepAbove(n, x);
    QuadraticAlgebra(FloorRoot(n), x - FloorRoot(n), NewtonStep(n, x) - FloorRoot(n), k);
  }

  lemma QuadraticAlgebra(r: int, e: int, e': int, k: int)
    requires r >= 6 && k >= 2 && e >= 0 && e' >= 0
    requires 2 * r * (e' - 1) <= e * e
    requires e * k <= r + 2 * k
    ensures e' * (k * k) <= r + 2 * (k * k)
  {
    var kk, g := k * k, r + 2 * k;
    // scale the first bound by k^2 and bound (e k)^2 by g^2
    assert (e * k) * (e * k) <= g * g by {
      MulMonotone(e * k, g, e * k);
      MulMonotone(e * k, g, g);
    }
    assert (e * k) * (e * k) == (e * e) * kk;
    MulMonotone(2 * r * (e' - 1), e * e, kk);
    assert g * g == r * r + 4 * (r * k) + 4 * kk;
    SlackBound(r, k);
    var left := e' * kk - 2 * kk;
    assert 2 * r * (e' - 1) * kk == 2 * r * left + 2 * r * kk by { ScaleAlgebra(r, e', kk); }
    assert 2 * r * left <= 2 * r * r;
    if left > r { MulMonotone(r + 1, left, 2 * r); MulDistribute(r, 1, 2 * r); }
  }

  lemma ScaleAlgebra(r: int, e: int, kk: int)
    ensures 2 * r * (e - 1) * kk == 2 * r * (e * kk - 2 * kk) + 2 * r * kk
  {
    assert e * kk - 2 * kk == (e - 2) * kk;
    MulAssociate(2 * r, e - 2, kk);
    MulAssociate(2 * r, e - 1, kk);
    MulDistribute(e - 2, 1, kk);
    MulDistribute((e - 2) * kk, kk, 2 * r);
  }

  lemma SlackBound(r: int, k: int)
    requires r >= 6 && k >= 2
    ensures r * r + 4 * (r * k) + 4 * (k * k) - 2 * r * (k * k) <= 2 * r * r
  {
    var rk, kk := r * k, k * k;
    assert 2 * r * kk == 2 * (rk * k) by { MulAssociate(r, k, k); }
    if k >= 4 {
      MulMonotone(4, k, rk);
      MulMonotone(4, r, kk);
      assert r * kk == rk * k by { MulAssociate(r, k, k); }
      assert 4 * rk <= rk * k && 4 * kk <= rk * k;
    } else {
      MulMonotone(2, k, rk);
      MulMonotone(6, r, r);
      assert kk <= 9 by { MulMonotone(k, 3, k); }
    }
  }

  function Pow2(k: nat): (p: nat)
    ensures p >= 1
  {
    if k == 0 then 1 else 2 * Pow2(k - 1)
  }

  lemma NewtonUnfold(n: nat, x: nat, k: nat)
    requires n > 0 && x > 0
    ensures Newton(n, x, 0) == x && Newton(n, x, k) > 0
    ensures Newton(n, x, k + 1) == NewtonStep(n, Newton(n, x, k)) > 0
  {
  }

  /** How far above the root the k-th iterate is. */
  ghost function Excess(n: nat, x: nat, k: nat): int
    requires n > 0 && x > 0
  {
    Newton(n, x, k) - FloorRoot(n)
  }

  lemma HalfQuotient(a: nat, b: nat)
    requires b > 0
    ensures a / b / 2 == a / (2 * b)
  {
    QuotientBounds(a, b);
    var q, h := a / b, a / b / 2;
    MulMonotone(2 * h, q, b);
    MulMonotone(q + 1, 2 * h + 2, b);
    MulDistribute(q, 1, b);
    MulDistribute(2 * h, 2, b);
    MulAssociate(h, 2, b);
    QuotientUnique(a, 2 * b, h, a - h * (2 * b));
  }

  /** Started above the root, the iteration stays there and closes in by halves. */
  lemma {:induction false} NewtonBounds(n: nat, x: nat, k: nat)
    requires n > 0 && x > 0 && x >= FloorRoot(n)
    ensures 0 <= Excess(n, x, k)
    ensures Excess(n, x, k) <= 1 || Excess(n, x, k) <= (x - FloorRoot(n)) / Pow2(k)
  {
    if k > 0 {
      hide FloorRoot;
      NewtonBounds(n, x, k - 1);
      var y := Newton(n, x, k - 1);
      StepAbove(n, y);
      StepHalves(n, y);
      HalfQuotient(x - FloorRoot(n), Pow2(k - 1));
    }
  }

  function RepeatedSquare(k: nat, j: nat): nat {
    if j == 0 then k else RepeatedSquare(k, j - 1) * RepeatedSquare(k, j - 1)
  }

  lemma RepeatedSquareGrows(k: nat, j: nat)
    requires k >= 2
    ensures RepeatedSquare(k, j) >= 2
  {
    if j > 0 {
      RepeatedSquareGrows(k, j - 1);
      MulMonotone(1, RepeatedSquare(k, j - 1), RepeatedSquare(k, j - 1));
    }
  }

  lemma {:induction false} NewtonQuadratic(n: nat, x: nat, i: nat, k: nat, j: nat)
    requires n > 0 && x > 0 && x >= FloorRoot(n) >= 6 && k >= 2
    requires Excess(n, x, i) * k <= FloorRoot(n) + 2 * k
    ensures Excess(n, x, i + j) * RepeatedSquare(k, j) <= FloorRoot(n) + 2 * RepeatedSquare(k, j)
  {
    if j > 0 {
      NewtonQuadratic(n, x, i, k, j - 1);
      NewtonBounds(n, x, i + j - 1);
      RepeatedSquareGrows(k, j - 1);
      StepQuadratic(n, Newton(n, x, i + j - 1), RepeatedSquare(k, j - 1));
    }
  }

  /** The excess after the quadratic phase is at most two; one more step leaves
      at most one, and one more leaves none unless n is one short of a square. */
  lemma LastSteps(n: nat, x: nat, k: nat)
    requires n > 0 && x > 0 && x >= FloorRoot(n)
    requires 0 <= Excess(n, x, k) <= 2
    ensures 0 <= Excess(n, x, k + 2) <= 1
    ensures n != FloorRoot(n) * (FloorRoot(n) + 2) ==> Excess(n, x, k + 2) == 0
  {
    hide FloorRoot, Newton, NewtonStep;
    NewtonUnfold(n, x, k);
    NewtonUnfold(n, x, k + 1);
    var y, z := Newton(n, x, k), Newton(n, x, k + 1);
    StepAbove(n, y);
    StepHalves(n, y);
    StepAbove(n, z);
    StepHalves(n, z);
    if n != FloorRoot(n) * (FloorRoot(n) + 2) && z == FloorRoot(n) { RootIsFixed(n, z); }
  }

  const UNIT: nat := 100_000_000_000_000_000_000                                  // 10^20
  const LIMIT: nat := 10_000_000_000_000_000_000_000_000_000_000_000_000_000_000_000_000  // 10^49

  /** After 51 halvings the distance is at most half the root. */
  lemma HalvingPhase(v: nat)
    requires 0 < v < LIMIT
    ensures v * UNIT > 0
    ensures 6 <= FloorRoot(v * UNIT) < 0x1_0000_0000_0000_0000_0000_0000_0000_0000
    ensures (v + UNIT) / 0x4_0000_0000_0000 <= FloorRoot(v * UNIT)
  {
    hide FloorRoot;
    var n := v * UNIT;
    RootIsLargest(n, 6);
    RootBelow(n, 0x1_0000_0000_0000_0000_0000_0000_0000_0000);
    QuarterSquare(v);
    RootIsLargest(n, (v + UNIT) / 0x4_0000_0000_0000);
  }

  lemma RootBelow(n: nat, b: nat)
    requires n < b * b
    ensures FloorRoot(n) < b
  {
    var r := FloorRoot(n);
    if r >= b {
      MulMonotone(b, r, r);
      MulMonotone(b, r, b);
    }
  }

  lemma QuarterSquare(v: nat)
    requires 0 < v < LIMIT
    ensures var t := (v + UNIT) / 0x4_0000_0000_0000; t * t <= v * UNIT
  {
    var t := (v + UNIT) / 0x4_0000_0000_0000;
    if v >= UNIT {
      var w := 0x2_0000_0000_0000 * t;
      assert w <= v;
      MulMonotone(w, v, w);
      MulMonotone(w, v, v);
      MulMonotone(v, LIMIT, v);
      assert w * w == 0x2_0000_0000_0000 * 0x2_0000_0000_0000 * (t * t);
    } else {
      assert t <= 200_000;
      MulMonotone(t, 200_000, t);
    }
  }

  /** Sixty steps from v + UNIT, for a radicand n = v * UNIT, always bound the
      result between the root and the root plus the remaining half-distance. */
  lemma SixtyStepsBound(v: nat)
    requires v > 0
    ensures v * UNIT > 0
    ensures var n := v * UNIT; var r := FloorRoot(n); var y := Newton(n, v + UNIT, 60);
            r <= y && (y <= r + 1 || y <= r + (v + UNIT) / Pow2(60))
  {
    var n, x := v * UNIT, v + UNIT;
    StartsAbove(v);
    NewtonBounds(n, x, 60);
    var d := Pow2(60);
    QuotientBounds(x - FloorRoot(n), d);
    QuotientAtLeast(x, d, (x - FloorRoot(n)) / d);
  }

  /** The start value a + 1 is not below the root: v * u < (v + u + 1)^2. */
  lemma StartsAbove(v: nat)
    requires v > 0
    ensures v * UNIT > 0 && FloorRoot(v * UNIT) <= v + UNIT
  {
    hide FloorRoot;
    var x := v + UNIT;
    MulDistribute(v, UNIT, x);
    MulMonotone(UNIT, x, v);
    assert v * UNIT < x * x;
    RootBelow(v * UNIT, x);
  }

  /** The halving phase: 51 steps bring the distance to half the root, and two. */
  lemma HalvingLeaves(v: nat)
    requires 0 < v < LIMIT
    ensures v * UNIT > 0
    ensures var n := v * UNIT; 0 <= Excess(n, v + UNIT, 51) && Excess(n, v + UNIT, 51) * 2 <= FloorRoot(n) + 4
  {
    hide FloorRoot, Excess;
    StartsAbove(v);
    HalvingPhase(v);
    NewtonBounds(v * UNIT, v + UNIT, 51);
    HalvedDistance(v + UNIT, FloorRoot(v * UNIT));
  }

  /** The quadratic phase: from there seven steps leave a distance of at most two. */
  lemma SquaringLeaves(n: nat, x: nat)
    requires n > 0 && x > 0 && x >= FloorRoot(n) >= 6 && FloorRoot(n) < RepeatedSquare(2, 7)
    requires Excess(n, x, 51) * 2 <= FloorRoot(n) + 4
    ensures 0 <= Excess(n, x, 58) <= 2
  {
    hide FloorRoot, Excess, RepeatedSquare;
    var r, e, m := FloorRoot(n), Excess(n, x, 58), RepeatedSquare(2, 7);
    NewtonQuadratic(n, x, 51, 2, 7);
    NewtonBounds(n, x, 58);
    if e > 2 { MulMonotone(3, e, m); }
  }

  /** For every operand below 10^29 sixty steps reach the exact floor of the
      root, or, only when n + 1 is a perfect square, possibly one unit more. */
  lemma SixtyStepsExact(v: nat)
    requires 0 < v < LIMIT
    ensures v * UNIT > 0
    ensures var n := v * UNIT; var r := FloorRoot(n); var y := Newton(n, v + UNIT, 60);
            r <= y <= r + 1 && (n != r * (r + 2) ==> y == r)
  {
    hide FloorRoot, Newton, RepeatedSquare;
    StartsAbove(v);
    HalvingPhase(v);
    HalvingLeaves(v);
    SevenSquarings();
    SquaringLeaves(v * UNIT, v + UNIT);
    LastSteps(v * UNIT, v + UNIT, 58);
  }

  ghost predicate OneShortOfSquare(n: nat) {
    n == FloorRoot(n) * (FloorRoot(n) + 2)
  }

  /** One short of a square the iteration never settles: once at most one above the
      root, it alternates between the root and one above. So sixty steps end at the
      root exactly when an odd number of them follow an iterate one above it. */
  lemma {:induction false} ShortOfSquare(n: nat, x: nat, k: nat, j: nat)
    requires n > 0 && x > 0 && OneShortOfSquare(n) && Excess(n, x, k) == 1
    ensures Excess(n, x, k + j) == if j % 2 == 0 then 1 else 0
  {
    hide Excess, OneShortOfSquare;
    if j > 0 {
      ShortOfSquare(n, x, k, j - 1);
      Alternation(n, x, k + j - 1);
    }
  }

  lemma Alternation(n: nat, x: nat, k: nat)
    requires n > 0 && x > 0 && OneShortOfSquare(n) && 0 <= Excess(n, x, k) <= 1
    ensures Excess(n, x, k + 1) == 1 - Excess(n, x, k)
  {
    hide FloorRoot, Newton, NewtonStep, OneShortOfSquare;
    NewtonUnfold(n, x, k);
    Alternates(n, Newton(n, x, k));
  }

  lemma Alternates(n: nat, y: nat)
    requires n > 0 && y > 0 && OneShortOfSquare(n)
    requires y == FloorRoot(n) || y == FloorRoot(n) + 1
    ensures NewtonStep(n, y) == if y == FloorRoot(n) then y + 1 else y - 1
  {
    hide FloorRoot, NewtonStep;
    if y == FloorRoot(n) { LeavesRoot(n, y); } else { StepAbove(n, y); StepHalves(n, y); }
  }

  lemma LeavesRoot(n: nat, r: nat)
    requires r > 0 && n == r * (r + 2)
    ensures NewtonStep(n, r) == r + 1
  {
    QuotientUnique(n, r, r + 2, 0);
  }

  lemma RootIs(n: nat, r: nat)
    requires r * r <= n < (r + 1) * (r + 1)
    ensures FloorRoot(n) == r
  {
    RootIsLargest(n, r);
    RootBelow(n, r + 1);
  }

  /** Both ends occur: the root of 0.99999999999999999998 comes out one unit too
      large, that of 8.99999999999999999994 exact. */
  lemma BothEndsOccur()
    ensures var v := 99_999_999_999_999_999_998; v * UNIT > 0 && Excess(v * UNIT, v + UNIT, 60) == 1
    ensures var v := 899_999_999_999_999_999_994; v * UNIT > 0 && Excess(v * UNIT, v + UNIT, 60) == 0
  {
    hide FloorRoot, Excess, Newton;
    TooLargeAt6();
    ShortOfSquare(99_999_999_999_999_999_998 * UNIT, 199_999_999_999_999_999_998, 6, 54);
    ExactAt7();
    ShortOfSquare(899_999_999_999_999_999_994 * UNIT, 999_999_999_999_999_999_994, 7, 53);
  }

  lemma TooLargeAt6()
    ensures 99_999_999_999_999_999_998 * UNIT > 0
    ensures FloorRoot(99_999_999_999_999_999_998 * UNIT) == 99_999_999_999_999_999_998
    ensures OneShortOfSquare(99_999_999_999_999_999_998 * UNIT)
    ensures Excess(99_999_999_999_999_999_998 * UNIT, 199_999_999_999_999_999_998, 6) == 1
  {
    hide FloorRoot, Newton;
    var n, x := 99_999_999_999_999_999_998 * UNIT, 199_999_999_999_999_999_998;
    RootIs(n, 99_999_999_999_999_999_998);
    NewtonUnfold(n, x, 0);
    assert Newton(n, x, 1) == 124_999_999_999_999_999_998 by { NewtonUnfold(n, x, 0); }
    assert Newton(n, x, 2) == 102_499_999_999_999_999_998 by { NewtonUnfold(n, x, 1); }
    assert Newton(n, x, 3) == 100_030_487_804_878_048_779 by { NewtonUnfold(n, x, 2); }
    assert Newton(n, x, 4) == 100_000_004_646_114_733_014 by { NewtonUnfold(n, x, 3); }
    assert Newton(n, x, 5) == 100_000_000_000_000_107_930 by { NewtonUnfold(n, x, 4); }
    assert Newton(n, x, 6) == 99_999_999_999_999_999_999 by { NewtonUnfold(n, x, 5); }
  }

  lemma ExactAt7()
    ensures 899_999_999_999_999_999_994 * UNIT > 0
    ensures FloorRoot(899_999_999_999_999_999_994 * UNIT) == 299_999_999_999_999_999_998
    ensures OneShortOfSquare(899_999_999_999_999_999_994 * UNIT)
    ensures Excess(899_999_999_999_999_999_994 * UNIT, 999_999_999_999_999_999_994, 7) == 1
  {
    hide FloorRoot, Newton;
    var n, x := 899_999_999_999_999_999_994 * UNIT, 999_999_999_999_999_999_994;
    RootIs(n, 299_999_999_999_999_999_998);
    NewtonUnfold(n, x, 0);
    assert Newton(n, x, 1) == 544_999_999_999_999_999_996 by { NewtonUnfold(n, x, 0); }
    assert Newton(n, x, 2) == 355_068_807_339_449_541_282 by { NewtonUnfold(n, x, 1); }
    assert Newton(n, x, 3) == 304_270_402_636_199_804_553 by { NewtonUnfold(n, x, 2); }
    assert Newton(n, x, 4) == 300_029_967_322_679_535_274 by { NewtonUnfold(n, x, 3); }
    assert Newton(n, x, 5) == 300_000_001_496_584_552_190 by { NewtonUnfold(n, x, 4); }
    assert Newton(n, x, 6) == 300_000_000_000_000_003_731 by { NewtonUnfold(n, x, 5); }
    assert Newton(n, x, 7) == 299_999_999_999_999_999_999 by { NewtonUnfold(n, x, 6); }
  }

  lemma HalvedDistance(x: nat, r: nat)
    requires r <= x && x / 0x4_0000_0000_0000 <= r
    ensures (x - r) / Pow2(51) * 2 <= r + 4
  {
    FiftyOneHalvings();
    hide Pow2;
    assert (x - r) / 0x8_0000_0000_0000 <= x / 0x8_0000_0000_0000;
  }

  lemma {:induction false} Pow2Add(j: nat, k: nat)
    ensures Pow2(j + k) == Pow2(j) * Pow2(k)
  {
    if k > 0 {
      Pow2Add(j, k - 1);
      MulAssociate(Pow2(j), 2, Pow2(k - 1));
    }
  }

  lemma FiftyOneHalvings()
    ensures Pow2(51) == 0x8_0000_0000_0000
  {
    assert Pow2(3) == 8;
    assert Pow2(6) == 64 by { Pow2Add(3, 3); }
    assert Pow2(12) == 0x1000 by { Pow2Add(6, 6); }
    assert Pow2(24) == 0x100_0000 by { Pow2Add(12, 12); }
    assert Pow2(48) == 0x1_0000_0000_0000 by { Pow2Add(24, 24); }
    Pow2Add(48, 3);
  }

  lemma SevenSquarings()
    ensures RepeatedSquare(2, 7) == 0x1_0000_0000_0000_0000_0000_0000_0000_0000
  {
    assert RepeatedSquare(2, 4) == 0x1_0000;
    assert RepeatedSquare(2, 5) == 0x1_0000_0000;
    assert RepeatedSquare(2, 6) == 0x1_0000_0000_0000_0000;
  }

  // ----- calc_sqrt itself

  lemma UnitIsPow10()
    ensures Pow10(FRAC_DIGITS) == UNIT
  {
    assert Pow10(10) == 10_000_000_000;
    Pow10Add(10, 10);
  }

  /** A division of two non-negative numbers, read in units of 10^-20. */
  lemma QuotientInUnits(x: nat, sx: nat, y: nat, sy: nat)
    requires sx <= FRAC_DIGITS && sy <= FRAC_DIGITS && y > 0
    ensures y * Pow10(FRAC_DIGITS - sy) > 0
    ensures Quotient(x, sx, y, sy) == x * Pow10(FRAC_DIGITS - sx) * UNIT / (y * Pow10(FRAC_DIGITS - sy))
  {
    hide Pow10;
    UnitIsPow10();
    var s := Max(sx, sy);
    var c := Pow10(FRAC_DIGITS - s);
    Pow10Add(s - sx, FRAC_DIGITS - s);
    Pow10Add(s - sy, FRAC_DIGITS - s);
    var n, d := x * Pow10(s - sx), y * Pow10(s - sy);
    MulPositive(y, Pow10(s - sy));
    MulAssociate(x, Pow10(s - sx), c);
    MulAssociate(y, Pow10(s - sy), c);
    MulPositive(d, c);
    CommonFactor(n * UNIT, d, c);
    assert n * UNIT * c == n * c * UNIT;
  }

  lemma CommonFactor(n: nat, d: nat, c: nat)
    requires d > 0 && c > 0
    ensures d * c > 0 && n * c / (d * c) == n / d
  {
    MulPositive(d, c);
    var q, r := n / d, n % d;
    assert n == q * d + r;
    MulDistribute(q * d, r, c);
    MulAssociate(q, d, c);
    MulMonotone(r + 1, d, c);
    MulDistribute(r, 1, c);
    MulNonNegative(r, c);
    QuotientUnique(n * c, d * c, q, r * c);
  }

  lemma MulNonNegative(x: nat, y: nat)
    ensures x * y >= 0
  {
  }

  /** A number's magnitude in units of 10^-FRAC_DIGITS. */
  ghost function Units(x: Number): int
    requires x.Valid() && x.scale <= FRAC_DIGITS
    reads x, x.digits
  {
    x.Mag() * Pow10(FRAC_DIGITS - x.scale)
  }

  ghost predicate Plain(x: Number)
    reads x, x.digits
  {
    x.Valid() && x.scale <= FRAC_DIGITS && x.sign == 0
  }

  /** x becomes (x + a/x) / 2, both divisions truncated: one step on units. No
      divisor is ever zero. */
  method NewtonOnce(a: Number, x: Number, two: Number) returns (nx: Number)
    requires Plain(a) && Plain(x) && x.Mag() > 0
    requires Plain(two) && two.scale == 0 && two.Mag() == 2
    ensures fresh(nx) && fresh(nx.digits) && Plain(nx) && nx.scale == FRAC_DIGITS
    ensures Units(x) > 0 && Units(a) * UNIT >= 0
    ensures Units(nx) == NewtonStep(Units(a) * UNIT, Units(x))
  {
    hide Num, Pow10, Quotient;
    Pow10Unfold(0);
    UnitIsPow10();
    MulPositive(x.Mag(), Pow10(FRAC_DIGITS - x.scale));
    MulNonNegative(a.Mag(), Pow10(FRAC_DIGITS - a.scale));
    QuotientInUnits(a.Mag(), a.scale, x.Mag(), x.scale);
    var status, q := Div(a, x);
    assert status == Done && Units(q) == q.Mag();
    ghost var qv := q.Mag();
    var s := Add(x, q);
    assert s.Signed() == Units(x) + qv by {
      AtMagnitude(x, FRAC_DIGITS);
      AtMagnitude(q, FRAC_DIGITS);
    }
    assert s.sign == 0 && s.Mag() == Units(x) + qv;
    nx := Halve(s, two);
  }

  method Halve(s: Number, two: Number) returns (half: Number)
    requires Plain(s) && s.scale == FRAC_DIGITS && Plain(two) && two.scale == 0 && two.Mag() == 2
    ensures fresh(half) && fresh(half.digits) && Plain(half) && half.scale == FRAC_DIGITS
    ensures half.Mag() == s.Mag() / 2 && Units(half) == half.Mag()
  {
    hide Num, Pow10, Quotient;
    Pow10Unfold(0);
    UnitIsPow10();
    QuotientInUnits(s.Mag(), FRAC_DIGITS, 2, 0);
    HalveUnits(s.Mag());
    assert s.Mag() * Pow10(0) == s.Mag();
    var status, q := Div(s, two);
    assert status == Done && q.Mag() == s.Mag() / 2;
    half := q;
  }

  lemma HalveUnits(m: nat)
    ensures m * UNIT / (2 * UNIT) == m / 2
  {
    CommonFactor(m, 2, UNIT);
  }

  datatype RootStatus = Rooted | NegativeOperand

  /** a + 1 in units. */
  method StartValue(a: Number) returns (x: Number)
    requires Plain(a)
    ensures fresh(x) && fresh(x.digits) && Plain(x) && x.Mag() > 0
    ensures Units(x) == Units(a) + UNIT
  {
    hide Num, Pow10;
    UnitIsPow10();
    Pow10Unfold(0);
    var one := FromDigit(1);
    x := Add(a, one);
    AtMagnitude(a, a.scale);
    AtMagnitude(one, a.scale);
    assert x.Signed() == a.Mag() + Pow10(a.scale);
    Pow10Add(a.scale, FRAC_DIGITS - a.scale);
    MulDistribute(a.Mag(), Pow10(a.scale), Pow10(FRAC_DIGITS - a.scale));
  }

  /** calc_sqrt on operands with at most FRAC_DIGITS fractional digits. */
  method Sqrt(a: Number) returns (status: RootStatus, out: Number?)
    requires a.Valid() && a.scale <= FRAC_DIGITS
    ensures status == NegativeOperand <==> a.sign == 1
    ensures status == Rooted ==> out != null && fresh(out) && fresh(out.digits) && Plain(out)
    ensures status == Rooted && Units(a) == 0 ==> Units(out) == 0
    ensures status == Rooted && Units(a) > 0 ==>
              Units(a) * UNIT > 0 && Units(out) == Newton(Units(a) * UNIT, Units(a) + UNIT, 60)
  {
    hide Num, Pow10, Newton, Units;
    if a.sign == 1 { UnitsSign(a); return NegativeOperand, null; }
    UnitsSign(a);
    var zero := a.IsZero();
    if zero {
      var nought := FromDigit(0);
      UnitsSign(nought);
      return Rooted, nought;
    }
    var x := StartValue(a);
    out := SixtySteps(a, x);
    return Rooted, out;
  }

  /** The fixed loop of sixty steps. */
  method SixtySteps(a: Number, start: Number) returns (x: Number)
    requires Plain(a) && Units(a) > 0 && Plain(start) && start.Mag() > 0
    requires Units(start) == Units(a) + UNIT
    ensures Plain(x) && (x == start || (fresh(x) && fresh(x.digits)))
    ensures Units(a) * UNIT > 0 && Units(x) == Newton(Units(a) * UNIT, Units(a) + UNIT, 60)
  {
    hide Num, Pow10, Newton, Units;
    ghost var n, s := Units(a) * UNIT, Units(a) + UNIT;
    var two := FromDigit(2);
    x := start;
    NewtonUnfold(n, s, 0);
    for i := 0 to 60
      invariant x == start || (fresh(x) && fresh(x.digits))
      invariant Plain(two) && two.scale == 0 && two.Mag() == 2
      invariant Plain(x) && x.Mag() > 0 && Units(x) == Newton(n, s, i)
    {
      NewtonUnfold(n, s, i);
      x := NewtonOnce(a, x, two);
      UnitsSign(x);
    }
  }

  lemma UnitsSign(x: Number)
    requires x.Valid() && x.scale <= FRAC_DIGITS
    ensures Units(x) >= 0 && (Units(x) == 0 <==> x.Mag() == 0)
  {
    hide Num, Pow10;
    MulNonNegative(x.Mag(), Pow10(FRAC_DIGITS - x.scale));
    if x.Mag() > 0 { MulPositive(x.Mag(), Pow10(FRAC_DIGITS - x.scale)); }
  }

  /** What a caller of Sqrt gets: the truncated root of any operand below 10^29,
      unless the radicand is one short of a perfect square. */
  method SqrtIsExact(a: Number) returns (out: Number)
    requires Plain(a) && 0 < Units(a) < LIMIT
    ensures Plain(out)
    ensures Units(a) * UNIT > 0
    ensures var n := Units(a) * UNIT; var r := FloorRoot(n);
            r <= Units(out) <= r + 1 && (n != r * (r + 2) ==> Units(out) == r)
  {
    hide Num, Pow10, Newton, FloorRoot, Units;
    var status, res := Sqrt(a);
    SixtyStepsExact(Units(a));
    out := res;
  }
}
