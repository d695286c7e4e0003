/**
 * The flags of the unit against IEEE 754-2019: overflow (section 7.4) is the standard's; underflow (section 7.5) and
 * division by zero (section 7.3) are, except on inputs that are characterised here.
 */
module ExceptionFlags {
  import opened Words
  import opened Scaling
  import opened Ieee754
  import Div
  import Mul
  import Convert
  import Theorems

  // ---- Underflow. The standard, with tininess detected after rounding, rounds the exact result to 24 bits with an
  // exponent that has no bound; the unit looks at the delivered result.

  ghost function MinNormal(): real { MagValue(HIDDEN) }

  /** x times 2^j is in the least normal binade, where words have 24 bits. */
  ghost predicate InLeastBinade(x: real, j: int) {
    MinNormal() <= Scale(x, j) < MagValue(2 * HIDDEN)
  }

  /** x rounded to 24 bits: rounded in the least normal binade and moved back. */
  ghost function Unbounded(rm: Mode, negative: bool, x: real, j: int): real
    requires Scale(x, j) >= 0.0
  {
    Scale(MagValue(RoundMagnitude(rm, negative, Scale(x, j))), -j)
  }

  ghost predicate Tiny(rm: Mode, negative: bool, x: real) {
    exists j :: InLeastBinade(x, j) && Scale(x, j) >= 0.0 && Unbounded(rm, negative, x, j) < MinNormal()
  }

  /** The unit misses these: below 2^-126 by q, they round up to it, though not in 24 bits. */
  ghost predicate Missed(rm: Mode, negative: bool, x: real) {
    var q, u := MinNormal() - x, Ulp(HIDDEN - 1);
    match rm
    case Rtz => false
    case Rne => u / 4.0 < q <= u / 2.0
    case Rmm => u / 4.0 < q <= u / 2.0
    case Rdn => negative && u / 2.0 <= q < u
    case Rup => !negative && u / 2.0 <= q < u
  }

  lemma Binades()
    ensures MagValue(2 * HIDDEN) == 2.0 * MinNormal() && MinNormal() > 0.0
    ensures MagValue(HIDDEN - 1) == MinNormal() - Ulp(HIDDEN - 1)
    ensures MagValue(2 * HIDDEN - 1) == 2.0 * MinNormal() - Ulp(HIDDEN - 1)
    ensures 0.0 < Ulp(HIDDEN - 1) && 4.0 * Ulp(HIDDEN - 1) < MinNormal()
    ensures 2.0 * MinNormal() < MagValue(INFINITY)
  {
    MagStep(HIDDEN - 1);
    MagStep(2 * HIDDEN - 1);
    assert Ulp(2 * HIDDEN - 1) == Ulp(HIDDEN - 1);
    ScaleStep(HIDDEN as real, -149);
    UlpPositive(HIDDEN - 1);
    MagMono(2 * HIDDEN, INFINITY);
    ScaleMono(4.0, HIDDEN as real, -149);
    ScaleFour(-149);
    ScaleTwice(HIDDEN as real, -149);
  }

  lemma ScaleFour(u: int)
    ensures Scale(4.0, u) == 4.0 * Scale(1.0, u)
  {
    ScaleAdd(1.0, 1.0, u);
    ScaleAdd(2.0, 2.0, u);
  }

  lemma ScaleTwice(y: real, u: int)
    ensures Scale(2.0 * y, u) == 2.0 * Scale(y, u)
  {
    ScaleAdd(y, y, u);
  }

  lemma ExactMagnitude(rm: Mode, negative: bool, m: nat)
    requires m < INFINITY
    ensures MagValue(m) >= 0.0 && RoundMagnitude(rm, negative, MagValue(m)) == m
  {
    hide MagValue, RoundMagnitude;
    ExactIsFixed(rm, negative, m);
  }

  lemma StaysInBinade(rm: Mode, negative: bool, y: real)
    requires MinNormal() <= y < MagValue(2 * HIDDEN)
    ensures HIDDEN <= RoundMagnitude(rm, negative, y) <= 2 * HIDDEN
    ensures MinNormal() <= MagValue(RoundMagnitude(rm, negative, y)) <= MagValue(2 * HIDDEN)
  {
    Binades();
    ExactMagnitude(rm, negative, HIDDEN);
    ExactMagnitude(rm, negative, 2 * HIDDEN);
    hide MagValue, RoundMagnitude;
    Theorems.MagnitudeMono(rm, negative, MinNormal(), y);
    Theorems.MagnitudeMono(rm, negative, y, MagValue(2 * HIDDEN));
    MagMonoLe(HIDDEN, RoundMagnitude(rm, negative, y));
    MagMonoLe(RoundMagnitude(rm, negative, y), 2 * HIDDEN);
  }

  lemma NormalIsNotTiny(rm: Mode, negative: bool, x: real)
    requires x >= MinNormal()
    ensures !Tiny(rm, negative, x)
  {
    Binades();
    hide MagValue, RoundMagnitude, Scale;
    forall j | InLeastBinade(x, j) && Scale(x, j) >= 0.0
      ensures Unbounded(rm, negative, x, j) >= MinNormal()
    {
      var r := MagValue(RoundMagnitude(rm, negative, Scale(x, j)));
      StaysInBinade(rm, negative, Scale(x, j));
      if j >= 1 {
        ScaleUp(x, 1, j);
        ScaleStep(x, 0);
        ScaleAtZero(x);
      } else {
        ScaleUp(r, 0, -j);
        ScaleAtZero(r);
      }
    }
  }

  /** Every positive number can be scaled past any other. */
  lemma {:induction false} Archimedes(x: real, n: nat)
    requires x > 0.0
    ensures Scale(x, n) >= n as real * x
  {
    if n > 0 {
      Archimedes(x, n - 1);
      ScaleStep(x, n - 1);
      ScaleUp(x, 0, n - 1);
      ScaleAtZero(x);
    }
  }

  lemma {:induction false} FirstPast(x: real, n: nat) returns (j: nat)
    requires 0.0 < x < MinNormal() && Scale(x, n) >= MinNormal()
    ensures 0 < j && InLeastBinade(x, j)
  {
    ScaleAtZero(x);
    Binades();
    if Scale(x, n - 1) < MinNormal() {
      ScaleStep(x, n - 1);
      j := n;
    } else {
      j := FirstPast(x, n - 1);
    }
  }

  lemma Normalise(x: real) returns (j: nat)
    requires 0.0 < x < MinNormal()
    ensures 0 < j && InLeastBinade(x, j)
  {
    var ratio := MinNormal() / x;
    var n := ratio.Floor + 1;
    Quotient(MinNormal(), x, ratio, n);
    Archimedes(x, n);
    j := FirstPast(x, n);
  }

  /** Scaling down from n places passes the least normal binade. */
  lemma {:induction false} FirstBelow(x: real, n: nat) returns (j: int)
    requires x >= MinNormal() && Scale(x, 0 - n) < MinNormal()
    ensures j <= 0 && InLeastBinade(x, j)
  {
    ScaleAtZero(x);
    Binades();
    if Scale(x, 1 - n) >= MinNormal() {
      ScaleStep(x, 0 - n);
      j := 1 - n;
    } else {
      j := FirstBelow(x, n - 1);
    }
  }

  /** Every positive number has a binade. */
  lemma HasBinade(x: real) returns (j: int)
    requires x > 0.0
    ensures InLeastBinade(x, j) && Scale(x, j) >= 0.0
  {
    Binades();
    if x < MinNormal() {
      j := Normalise(x);
    } else {
      var m := MinNormal();
      var n := (x / m).Floor + 2;
      Quotient(x, m, x / m, n - 1);
      Archimedes(m, n);
      Next(n, m);
      ScaleScale(m, n, 0 - n);
      ScaleAtZero(m);
      ScaleCompare(x, Scale(m, n), 0 - n);
      j := FirstBelow(x, n);
    }
  }

  lemma Next(n: int, m: real)
    requires m > 0.0
    ensures n as real * m == (n - 1) as real * m + m
  {
  }

  lemma Quotient(a: real, x: real, ratio: real, n: int)
    requires x > 0.0 && a > 0.0 && ratio == a / x && n == ratio.Floor + 1
    ensures n >= 0 && n as real * x >= a
  {
    assert ratio * x == a;
    assert n as real > ratio;
    assert ratio > 0.0;
    assert n as real * x >= ratio * x;
  }

  lemma SmallIsTiny(rm: Mode, negative: bool, x: real)
    requires 0.0 < x < MinNormal() / 2.0
    ensures Tiny(rm, negative, x)
  {
    Binades();
    hide MagValue, RoundMagnitude, Scale;
    var j := Normalise(x);
    StaysInBinade(rm, negative, Scale(x, j));
    var r := MagValue(RoundMagnitude(rm, negative, Scale(x, j)));
    ScaleStep(x, 0);
    ScaleAtZero(x);
    assert j != 1;
    var back: int := -(j as int);
    ScaleUp(r, back, -2);
    ScaleStep(r, -1);
    ScaleStep(r, -2);
    ScaleAtZero(r);
    assert Unbounded(rm, negative, x, j) <= r / 4.0;
  }

  /** In the binade below 2^-126 one doubling suffices. */
  lemma LastBinade(rm: Mode, negative: bool, x: real)
    requires MinNormal() / 2.0 <= x < MinNormal()
    ensures Tiny(rm, negative, x) <==> RoundMagnitude(rm, negative, 2.0 * x) < 2 * HIDDEN
  {
    Binades();
    hide MagValue, RoundMagnitude, Scale;
    ScaleStep(x, 0);
    ScaleAtZero(x);
    assert InLeastBinade(x, 1);
    forall j | InLeastBinade(x, j)
      ensures j == 1
    {
      if j > 1 {
        ScaleUp(x, 2, j);
        ScaleStep(x, 1);
      } else if j < 1 {
        ScaleUp(x, j, 0);
      }
    }
    var r := RoundMagnitude(rm, negative, 2.0 * x);
    StaysInBinade(rm, negative, 2.0 * x);
    ScaleStep(MagValue(r), -1);
    ScaleAtZero(MagValue(r));
    assert Unbounded(rm, negative, x, 1) == MagValue(r) / 2.0;
    if r < 2 * HIDDEN {
      MagMono(r, 2 * HIDDEN);
    }
  }

  /** Where a number between two neighbours goes. */
  lemma GoesUp(rm: Mode, negative: bool, m: nat, x: real)
    requires m < INFINITY && x >= 0.0 && MagValue(m) <= x < MagValue(m + 1)
    ensures RoundMagnitude(rm, negative, x)
            == if x > MagValue(m) && TakesUpper(rm, negative, m, x - Midpoint(m)) then m + 1 else m
  {
    MagNonNegative(m);
    MagMonoLe(m + 1, INFINITY);
    BracketUnique(x, m, Below(x));
    hide MagValue;
  }

  /** UF, as this unit decides it. */
  lemma UnitUnderflow(rm: Mode, negative: bool, x: real)
    requires x >= 0.0
    ensures Rounded(rm, negative, x).flags & UF != 0
            <==> RoundMagnitude(rm, negative, x) < HIDDEN && x != MagValue(RoundMagnitude(rm, negative, x))
  {
    MagMono(HIDDEN, MAX_FINITE);
    hide MagValue;
    assert (OF | NX) & UF == 0 && (NX | UF) & UF != 0 && NX & UF == 0;
  }

  /** The delivered number differs from the exact one. */
  ghost predicate Inexact(rm: Mode, negative: bool, x: real)
    requires x >= 0.0
  {
    x != MagValue(RoundMagnitude(rm, negative, x))
  }

  /** The gap below 2^-126, on the grid of words and on the grid of 24 bits. */
  lemma AtTheEdge(rm: Mode, negative: bool, x: real)
    requires x >= 0.0 && MagValue(HIDDEN - 1) < x < MinNormal()
    ensures RoundMagnitude(rm, negative, x) >= HIDDEN - 1
    ensures RoundMagnitude(rm, negative, x) == HIDDEN && RoundMagnitude(rm, negative, 2.0 * x) < 2 * HIDDEN
            <==> Missed(rm, negative, x)
    ensures RoundMagnitude(rm, negative, 2.0 * x) >= 2 * HIDDEN ==> RoundMagnitude(rm, negative, x) == HIDDEN
  {
    hide MagValue, RoundMagnitude, Ulp;
    Binades();
    GoesUp(rm, negative, HIDDEN - 1, x);
    StaysInBinade(rm, negative, 2.0 * x);
    if 2.0 * x >= MagValue(2 * HIDDEN - 1) {
      GoesUp(rm, negative, 2 * HIDDEN - 1, 2.0 * x);
    } else {
      BelowTheLast(rm, negative, 2.0 * x);
    }
  }

  lemma BelowTheLast(rm: Mode, negative: bool, y: real)
    requires y >= 0.0 && MinNormal() <= y < MagValue(2 * HIDDEN - 1)
    ensures RoundMagnitude(rm, negative, y) < 2 * HIDDEN
  {
    Binades();
    ExactMagnitude(rm, negative, 2 * HIDDEN - 1);
    hide MagValue, RoundMagnitude;
    Theorems.MagnitudeMono(rm, negative, y, MagValue(2 * HIDDEN - 1));
  }

  /** The unit raises UF as the standard does, exactly when the result is not one of the missed ones. */
  lemma UnderflowIsStandardUnlessMissed(rm: Mode, negative: bool, x: real)
    requires x > 0.0
    ensures (Rounded(rm, negative, x).flags & UF != 0 <==> Tiny(rm, negative, x) && Inexact(rm, negative, x))
            <==> !Missed(rm, negative, x)
  {
    hide MagValue, RoundMagnitude, Ulp, Rounded, Tiny;
    Binades();
    UnitUnderflow(rm, negative, x);
    var r := RoundMagnitude(rm, negative, x);
    if x >= MinNormal() {
      NormalIsNotTiny(rm, negative, x);
      ExactMagnitude(rm, negative, HIDDEN);
      Theorems.MagnitudeMono(rm, negative, MinNormal(), x);
    } else {
      if x < MinNormal() / 2.0 {
        SmallIsTiny(rm, negative, x);
      } else {
        LastBinade(rm, negative, x);
      }
      ExactMagnitude(rm, negative, HIDDEN);
      Theorems.MagnitudeMono(rm, negative, x, MinNormal());
      if x > MagValue(HIDDEN - 1) {
        AtTheEdge(rm, negative, x);
      } else {
        ExactMagnitude(rm, negative, HIDDEN - 1);
        Theorems.MagnitudeMono(rm, negative, x, MagValue(HIDDEN - 1));
        if x >= MinNormal() / 2.0 {
          BelowTheLast(rm, negative, 2.0 * x);
        }
      }
    }
  }

  // ---- Overflow.

  /** The binades are copies of each other, k apart. */
  lemma ShiftBinade(m: nat, k: nat)
    requires m >= HIDDEN
    ensures MagValue(m + k * HIDDEN) == Scale(MagValue(m), k)
  {
    DivModUnique(m + k * HIDDEN, HIDDEN, m / HIDDEN + k, m % HIDDEN);
    ScaleScale(Significand(m) as real, UlpExponent(m), k);
  }

  /** Rounding in the normal range does not depend on the binade. */
  lemma ShiftRounding(rm: Mode, negative: bool, y: real, k: nat)
    requires MinNormal() <= y < MagValue(2 * HIDDEN) && k <= 253 && y >= 0.0 && Scale(y, k) >= 0.0
    ensures RoundMagnitude(rm, negative, Scale(y, k)) == RoundMagnitude(rm, negative, y) + k * HIDDEN
    ensures MagValue(RoundMagnitude(rm, negative, Scale(y, k))) == Scale(MagValue(RoundMagnitude(rm, negative, y)), k)
  {
    hide MagValue, RoundMagnitude, Scale;
    MagMonoLe(2 * HIDDEN, INFINITY);
    var m := Below(y);
    if m < HIDDEN {
      MagMonoLe(m + 1, HIDDEN);
    } else if m >= 2 * HIDDEN {
      MagMonoLe(2 * HIDDEN, m);
    }
    ShiftBinade(m, k);
    ShiftBinade(m + 1, k);
    ScaleCompare(y, MagValue(m + 1), k);
    ScaleCompare(MagValue(m), y, k);
    GoesUp(rm, negative, m, y);
    GoesUp(rm, negative, m + k * HIDDEN, Scale(y, k));
    ShiftGap(m, y, k);
    ShiftParity(m, k);
    StaysInBinade(rm, negative, y);
    ShiftBinade(RoundMagnitude(rm, negative, y), k);
  }

  /** The side of the midpoint is the same in every binade. */
  lemma ShiftGap(m: nat, y: real, k: nat)
    requires m >= HIDDEN
    ensures var g, h := y - Midpoint(m), Scale(y, k) - Midpoint(m + k * HIDDEN);
            (g > 0.0 <==> h > 0.0) && (g == 0.0 <==> h == 0.0)
  {
    hide MagValue, Scale;
    ShiftBinade(m, k);
    ShiftBinade(m + 1, k);
    var lo, hi := MagValue(m), MagValue(m + 1);
    ScaleAdd(lo, hi, k);
    ScaleTwice(y, k);
    ScaleCompare(lo + hi, 2.0 * y, k);
    assert m + 1 + k * HIDDEN == (m + k * HIDDEN) + 1;
    GapSigns(y, lo, hi, Scale(y, k), Scale(lo, k), Scale(hi, k));
  }

  lemma GapSigns(y: real, lo: real, hi: real, y': real, lo': real, hi': real)
    requires lo + hi < 2.0 * y <==> lo' + hi' < 2.0 * y'
    requires lo + hi == 2.0 * y <==> lo' + hi' == 2.0 * y'
    ensures y - (lo + hi) / 2.0 > 0.0 <==> y' - (lo' + hi') / 2.0 > 0.0
    ensures y - (lo + hi) / 2.0 == 0.0 <==> y' - (lo' + hi') / 2.0 == 0.0
  {
  }

  lemma ShiftParity(m: nat, k: nat)
    ensures (m + k * HIDDEN) % 2 == m % 2
  {
    DivModUnique(m + k * HIDDEN, 2, m / 2 + k * 0x40_0000, m % 2);
  }

  /** The result rounded to 24 bits with unbounded exponent is 2^128 or more. */
  ghost predicate TooLarge(rm: Mode, negative: bool, x: real) {
    exists j :: InLeastBinade(x, j) && Scale(x, j) >= 0.0 && Unbounded(rm, negative, x, j) >= MagValue(INFINITY)
  }

  /** OF is raised exactly when the result rounded to 24 bits with unbounded exponent is 2^128 or more. */
  lemma OverflowIsStandard(rm: Mode, negative: bool, x: real)
    requires x > 0.0
    ensures Rounded(rm, negative, x).flags & OF != 0 <==> TooLarge(rm, negative, x)
  {
    hide MagValue, RoundMagnitude, Scale, Rounded, InLeastBinade, Unbounded;
    var k := HasBinade(x);
    OverflowInBinade(rm, negative, x, k);
    forall j | InLeastBinade(x, j) && Scale(x, j) >= 0.0
      ensures Rounded(rm, negative, x).flags & OF != 0 <==> Unbounded(rm, negative, x, j) >= MagValue(INFINITY)
    {
      OverflowInBinade(rm, negative, x, j);
    }
  }

  lemma OverflowInBinade(rm: Mode, negative: bool, x: real, j: int)
    requires x > 0.0 && InLeastBinade(x, j) && Scale(x, j) >= 0.0
    ensures Rounded(rm, negative, x).flags & OF != 0 <==> Unbounded(rm, negative, x, j) >= MagValue(INFINITY)
  {
    hide MagValue, RoundMagnitude, Scale, Rounded;
    UnitOverflow(rm, negative, x);
    var y := Scale(x, j);
    ScaleScale(x, j, -j);
    ScaleAtZero(x);
    if j > 0 {
      SmallDoesNotOverflow(rm, negative, x, j);
    } else if j >= -253 {
      OverflowInRange(rm, negative, y, -j);
    } else {
      LargeOverflows(rm, negative, y, -j);
    }
  }

  lemma SmallDoesNotOverflow(rm: Mode, negative: bool, x: real, j: int)
    requires x > 0.0 && InLeastBinade(x, j) && Scale(x, j) >= 0.0 && j > 0
    ensures InRange(x) && RoundMagnitude(rm, negative, x) < INFINITY
    ensures Unbounded(rm, negative, x, j) < MagValue(INFINITY)
  {
    Binades();
    StaysInBinade(rm, negative, Scale(x, j));
    ExactMagnitude(rm, negative, HIDDEN);
    hide MagValue, RoundMagnitude, Scale;
    var r := MagValue(RoundMagnitude(rm, negative, Scale(x, j)));
    ScaleUp(r, -j, 0);
    ScaleAtZero(r);
    ScaleUp(x, 0, j);
    ScaleUp(x, 1, j);
    ScaleStep(x, 0);
    ScaleAtZero(x);
    Theorems.MagnitudeMono(rm, negative, x, MinNormal());
  }

  lemma OverflowInRange(rm: Mode, negative: bool, y: real, k: nat)
    requires MinNormal() <= y < MagValue(2 * HIDDEN) && y >= 0.0 && k <= 253 && Scale(y, k) >= 0.0
    ensures !InRange(Scale(y, k)) || RoundMagnitude(rm, negative, Scale(y, k)) == INFINITY
            <==> Scale(MagValue(RoundMagnitude(rm, negative, y)), k) >= MagValue(INFINITY)
  {
    ShiftRounding(rm, negative, y, k);
    ShiftBinade(2 * HIDDEN, k);
    hide MagValue, RoundMagnitude, Scale;
    ScaleCompare(y, MagValue(2 * HIDDEN), k);
    MagMonoLe(2 * HIDDEN + k * HIDDEN, INFINITY);
    var w := RoundMagnitude(rm, negative, Scale(y, k));
    if w < INFINITY {
      MagMono(w, INFINITY);
    }
  }

  lemma LargeOverflows(rm: Mode, negative: bool, y: real, k: nat)
    requires MinNormal() <= y < MagValue(2 * HIDDEN) && y >= 0.0 && k >= 254
    ensures Scale(y, k) >= MagValue(INFINITY)
    ensures Scale(MagValue(RoundMagnitude(rm, negative, y)), k) >= MagValue(INFINITY)
  {
    Binades();
    ShiftBinade(HIDDEN, 254);
    StaysInBinade(rm, negative, y);
    hide MagValue, RoundMagnitude, Scale;
    var r := MagValue(RoundMagnitude(rm, negative, y));
    ScaleUp(r, 254, k);
    ScaleUp(y, 254, k);
    ScaleCompare(MinNormal(), r, 254);
    ScaleCompare(MinNormal(), y, 254);
    assert HIDDEN + 254 * HIDDEN == INFINITY;
  }

  lemma UnitOverflow(rm: Mode, negative: bool, x: real)
    requires x >= 0.0
    ensures Rounded(rm, negative, x).flags & OF != 0
            <==> !InRange(x) || RoundMagnitude(rm, negative, x) == INFINITY
  {
    hide MagValue, RoundMagnitude;
    assert (OF | NX) & OF != 0 && (NX | UF) & OF == 0 && NX & OF == 0;
  }

  // ---- A missed underflow.

  const HALF: u32 := 0x3f00_0000
  const UNDER_TWICE: u32 := 0x00ff_ffff

  lemma HalfIsHalf()
    ensures ClassOf(HALF) == Normal && !SignOf(HALF) && ValueOf(HALF) == 0.5
  {
    assert Significand(HALF) == HIDDEN && UlpExponent(HALF) == -24;
    assert Pow2(23) == HIDDEN by { Pow2Values(); }
    Convert.LiftScale(1, 23, -24);
    ScaleStep(1.0, -1);
    ScaleAtZero(1.0);
  }

  /** One of the missed results: a product just below 2^-126 that ties up to it, with NX alone. */
  lemma UnderflowIsMissed()
    ensures Mul.ProductOf(UNDER_TWICE, HALF, Rne) == FpResult(HIDDEN, NX)
    ensures var x := Times(ValueOf(UNDER_TWICE), ValueOf(HALF));
            x > 0.0 && Tiny(Rne, false, x) && Inexact(Rne, false, x)
  {
    Binades();
    HalfIsHalf();
    var x := Times(ValueOf(UNDER_TWICE), ValueOf(HALF));
    assert ValueOf(UNDER_TWICE) == MagValue(2 * HIDDEN - 1);
    hide MagValue, RoundMagnitude, Ulp, Tiny, Scale;
    assert x == MinNormal() - Ulp(HIDDEN - 1) / 2.0;
    GoesUp(Rne, false, HIDDEN - 1, x);
    AtTheEdge(Rne, false, x);
    LastBinade(Rne, false, x);
  }

  // ---- Division by zero. The standard signals it for a finite nonzero dividend, and infinity over zero signals
  // nothing; the unit tests for the zero divisor first.

  predicate StandardDivideByZero(lhs: u32, rhs: u32) {
    ClassOf(rhs).Zero? && ClassOf(lhs).IsFinite() && !ClassOf(lhs).Zero?
  }

  lemma RoundedRaisesNoDz(rm: Mode, v: real)
    ensures RoundedReal(rm, v).flags & DZ == 0
  {
    hide RoundMagnitude, MagValue;
    assert (OF | NX) & DZ == 0 && (NX | UF) & DZ == 0 && NX & DZ == 0;
  }

  /** The flag is the standard's exactly when the operation is not infinity over zero. */
  lemma DivideByZeroIsStandardUnlessInfinite(lhs: u32, rhs: u32, rm: Mode)
    ensures (Div.QuotientOf(lhs, rhs, rm).flags & DZ != 0 <==> StandardDivideByZero(lhs, rhs))
            <==> !(ClassOf(lhs).Infinity? && ClassOf(rhs).Zero?)
  {
    hide MagValue, ValueOf, RoundedReal;
    if ClassOf(lhs).IsFinite() && ClassOf(rhs).IsFinite() && !ClassOf(rhs).Zero? {
      Div.NonzeroValue(rhs);
      RoundedRaisesNoDz(rm, Div.Ratio(ValueOf(lhs), ValueOf(rhs)));
    }
    assert NV & DZ == 0 && DZ & DZ != 0;
    hide ClassOf, SignOf;
  }

  /** The exception, in every mode: infinity over zero raises DZ where the standard raises nothing. */
  lemma InfinityOverZero(rm: Mode)
    ensures Div.QuotientOf(INFINITY, 0, rm) == FpResult(INFINITY, DZ) && !StandardDivideByZero(INFINITY, 0)
  {
  }
}
