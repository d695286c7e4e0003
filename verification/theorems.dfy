/** What the operations of the unit, all rounding exact results, have in common. */
module Theorems {
  import opened Words
  import opened Scaling
  import opened Ieee754
  import opened Compare
  import opened Add
  import opened Mul
  import opened Fma
  import opened Convert
  import opened Pack

  // ---- Rounded is rounding: nearest and directed, against every representable number.

  /** To nearest: no representable magnitude is closer, infinity standing for 2^128, and ties go the stated way. */
  lemma Nearest(rm: Mode, negative: bool, x: real, k: nat)
    requires rm == Rne || rm == Rmm
    requires x >= 0.0 && k <= INFINITY
    ensures var r := RoundMagnitude(rm, negative, x);
            && Abs(MagValue(r) - x) <= Abs(MagValue(k) - x)
            && (k != r && Abs(MagValue(r) - x) == Abs(MagValue(k) - x) ==>
                if rm == Rne then r % 2 == 0 && k % 2 == 1 else r > k)
  {
    if InRange(x) {
      NearestInRange(rm, negative, x, k);
    } else {
      MagMonoLe(k, INFINITY);
      if k < INFINITY { MagMono(k, INFINITY); }
      hide MagValue;
    }
  }

  lemma NearestInRange(rm: Mode, negative: bool, x: real, k: nat)
    requires rm == Rne || rm == Rmm
    requires InRange(x) && k <= INFINITY
    ensures var r := RoundMagnitude(rm, negative, x);
            && Abs(MagValue(r) - x) <= Abs(MagValue(k) - x)
            && (k != r && Abs(MagValue(r) - x) == Abs(MagValue(k) - x) ==>
                if rm == Rne then r % 2 == 0 && k % 2 == 1 else r > k)
  {
    hide MagValue, Abs;
    var m := Below(x);
    var lo, hi, y := MagValue(m), MagValue(m + 1), MagValue(k);
    if k <= m {
      MagMonoLe(k, m);
      if k < m { MagMono(k, m); }
    } else {
      MagMonoLe(m + 1, k);
      if m + 1 < k { MagMono(m + 1, k); }
    }
    var up := x > lo && TakesUpper(rm, negative, m, x - (lo + hi) / 2.0);
    Closest(rm, lo, hi, x, y, up, m % 2 == 1);
    hide RoundMagnitude;
    assert RoundMagnitude(rm, negative, x) == if up then m + 1 else m by { Unfolded(rm, negative, x); }
  }

  lemma Unfolded(rm: Mode, negative: bool, x: real)
    requires InRange(x)
    ensures RoundMagnitude(rm, negative, x) ==
      var m := Below(x);
      if x > MagValue(m) && TakesUpper(rm, negative, m, x - (MagValue(m) + MagValue(m + 1)) / 2.0) then m + 1 else m
  {
  }

  /** Of two neighbours the chosen one is at least as close as anything outside them. */
  lemma Closest(rm: Mode, lo: real, hi: real, x: real, y: real, up: bool, odd: bool)
    requires rm == Rne || rm == Rmm
    requires lo <= x < hi && (y <= lo || y >= hi)
    requires up == (x > lo && (x - (lo + hi) / 2.0 > 0.0 || (x - (lo + hi) / 2.0 == 0.0 && (rm == Rmm || odd))))
    ensures var r := if up then hi else lo;
            && Abs(r - x) <= Abs(y - x)
            && (y != r && Abs(r - x) == Abs(y - x) ==>
                y == (if up then lo else hi) && (rm == Rmm ==> up) && (rm == Rne ==> up == odd))
  {
  }

  /** Toward zero: the greatest representable magnitude not above x. */
  lemma TowardZero(rm: Mode, negative: bool, x: real, k: nat)
    requires rm == Rtz || (rm == Rdn && !negative) || (rm == Rup && negative)
    requires x >= 0.0 && k < INFINITY
    ensures var r := RoundMagnitude(rm, negative, x);
            r < INFINITY && MagValue(r) <= x && (MagValue(k) <= x ==> k <= r)
  {
    MagMonoLe(MAX_FINITE, INFINITY);
    if InRange(x) {
      var m := Below(x);
      if k > m { MagMonoLe(m + 1, k); }
    }
    hide MagValue;
  }

  /** Away from zero: the least representable magnitude not below x, or infinity. */
  lemma AwayFromZero(rm: Mode, negative: bool, x: real, k: nat)
    requires (rm == Rdn && negative) || (rm == Rup && !negative)
    requires x >= 0.0 && k < INFINITY
    ensures var r := RoundMagnitude(rm, negative, x);
            (r == INFINITY || MagValue(r) >= x) && (MagValue(k) >= x ==> r <= k)
  {
    MagMono(k, INFINITY);
    if InRange(x) {
      var m := Below(x);
      if k < m { MagMono(k, m); }
    }
    hide MagValue;
  }

  /** NX is raised exactly when the delivered word is not the exact result, and no flag is raised without it. */
  lemma FlagsTellExactness(rm: Mode, v: real)
    requires v != 0.0
    ensures var r := RoundedReal(rm, v);
            && r.value < B32
            && (r.flags & NX == 0 <==> ClassOf(r.value).IsFinite() && ValueOf(r.value) == v)
            && (r.flags & NX == 0 <==> r.flags == 0)
  {
    var m := RoundMagnitude(rm, v < 0.0, Abs(v));
    PlaceOfRounded(rm, v);
    MagMono(0, INFINITY);
    MagZero();
    if m < INFINITY {
      MagMono(m, INFINITY);
    }
    hide MagValue, RoundMagnitude, MagOf, SignOf;
    assert (OF | NX) & NX != 0 && (NX | UF) & NX != 0 && NX & NX != 0;
  }

  // ---- Rounding is monotone.

  lemma BelowMono(x: real, y: real)
    requires 0.0 <= x <= y && InRange(y)
    ensures Below(x) <= Below(y)
  {
    if Below(x) > Below(y) {
      MagMonoLe(Below(y) + 1, Below(x));
    }
    hide MagValue;
  }

  lemma MagnitudeMono(rm: Mode, negative: bool, x: real, y: real)
    requires 0.0 <= x <= y
    ensures RoundMagnitude(rm, negative, x) <= RoundMagnitude(rm, negative, y)
  {
    if InRange(y) {
      BelowMono(x, y);
    }
    hide MagValue;
  }

  /** Any real result rounded, zero included. */
  ghost function RoundedAny(rm: Mode, v: real): FpResult {
    if v == 0.0 then ZeroResult(false) else RoundedReal(rm, v)
  }

  lemma PlaceOfRounded(rm: Mode, v: real)
    requires v != 0.0
    ensures var r := RoundMagnitude(rm, v < 0.0, Abs(v));
            var w := RoundedReal(rm, v).value;
            && w < B32 && MagOf(w) == r && SignOf(w) == (v < 0.0) && !ClassOf(w).IsNaN()
            && Place(w) == Negate(v < 0.0, MagValue(r)) && MagValue(r) >= 0.0
  {
    MagNonNegative(RoundMagnitude(rm, v < 0.0, Abs(v)));
    hide MagValue, RoundMagnitude;
  }

  /** Rounding preserves order, across signs, zero, underflow and overflow. */
  lemma RoundingIsMonotone(rm: Mode, v: real, w: real)
    requires v <= w
    ensures RoundedAny(rm, v).value < B32 && RoundedAny(rm, w).value < B32
    ensures Place(RoundedAny(rm, v).value) <= Place(RoundedAny(rm, w).value)
    ensures !ClassOf(RoundedAny(rm, v).value).IsNaN() && !ClassOf(RoundedAny(rm, w).value).IsNaN()
  {
    MagZero();
    if v != 0.0 { PlaceOfRounded(rm, v); }
    if w != 0.0 { PlaceOfRounded(rm, w); }
    if v > 0.0 {
      MagnitudeMono(rm, false, v, w);
      MagMonoLe(RoundMagnitude(rm, false, v), RoundMagnitude(rm, false, w));
    } else if w < 0.0 {
      MagnitudeMono(rm, true, -w, -v);
      MagMonoLe(RoundMagnitude(rm, true, -w), RoundMagnitude(rm, true, -v));
    }
    hide MagValue, RoundMagnitude, RoundedReal;
  }

  /** Converting integers of any type to binary32 preserves order, as fle.s sees it. */
  lemma IntegerConversionIsMonotone(t: IntType, m: u64, n: u64, rm: Mode)
    requires IntegerOf(t, m) <= IntegerOf(t, n)
    ensures var v, w := FloatOf(t, m, rm).value, FloatOf(t, n, rm).value;
            v < B32 && w < B32 && Compare.Compare(Le, v, w) == FpResult(1, 0)
  {
    hide IntegerOf, Place, RoundedReal, ClassOf;
    RoundingIsMonotone(rm, IntegerOf(t, m) as real, IntegerOf(t, n) as real);
    ComparesReals(Le, FloatOf(t, m, rm).value, FloatOf(t, n, rm).value);
  }

  // ---- Independent datapaths agree.

  const ONE: u32 := 0x3f80_0000

  lemma OneIsOne()
    ensures ClassOf(ONE) == Normal && !SignOf(ONE) && ValueOf(ONE) == 1.0
  {
    assert Significand(ONE) == HIDDEN && UlpExponent(ONE) == -23;
    assert Pow2(23) == HIDDEN by { Pow2Values(); }
    LiftScale(1, 23, -23);
    ScaleAtZero(1.0);
  }

  /** Multiplying by one inside a fused multiply-add is addition, on all words and modes. */
  lemma FmaByOneIsAdd(a: u32, c: u32, rm: Mode)
    ensures FusedOf(MAdd, a, ONE, c, rm) == SumOf(a, c, false, rm)
  {
    OneIsOne();
    hide MagValue, ClassOf, SignOf, MagOf;
    TimesOne(ValueOf(a));
    hide ValueOf, Times, RoundedSum;
  }

  lemma TimesOne(v: real)
    ensures Times(v, 1.0) == v
  {
  }

  /** Adding a zero of the product's sign makes it multiplication, on all words and modes. */
  lemma FmaWithZeroIsMultiply(a: u32, b: u32, rm: Mode)
    ensures FusedOf(MAdd, a, b, SignWord(SignOf(a) != SignOf(b)), rm) == ProductOf(a, b, rm)
  {
    var z: u32 := SignWord(SignOf(a) != SignOf(b));
    MagZero();
    assert ClassOf(z) == Zero && SignOf(z) == (SignOf(a) != SignOf(b)) && ValueOf(z) == 0.0;
    hide MagValue, ClassOf, SignOf, MagOf, ValueOf, Times, RoundedReal;
  }

  /** Subtraction is addition of the negated operand, and addition commutes. */
  lemma AddCommutes(a: u32, b: u32, rm: Mode)
    ensures SumOf(a, b, false, rm) == SumOf(b, a, false, rm)
    ensures SumOf(a, b, true, rm) == SumOf(a, Flip(b), false, rm)
  {
    FlipFacts(b);
    hide MagValue, ClassOf, SignOf, MagOf, RoundedReal;
    assert ValueOf(a) + ValueOf(b) == ValueOf(b) + ValueOf(a);
    hide ValueOf;
  }

  // ---- Directed rounding is symmetric.

  /** A word with its sign changed. */
  function Flip(raw: u32): (r: u32) {
    if SignOf(raw) then raw - SIGN else raw + SIGN
  }

  function FlipResult(r: FpResult): FpResult
    requires r.value < B32
  {
    r.(value := Flip(r.value))
  }

  lemma FlipFacts(raw: u32)
    ensures SignOf(Flip(raw)) == !SignOf(raw) && MagOf(Flip(raw)) == MagOf(raw)
    ensures ClassOf(Flip(raw)) == ClassOf(raw) && ValueOf(Flip(raw)) == -ValueOf(raw)
  {
    hide MagValue;
  }

  lemma RoundedMirrors(v: real)
    requires v != 0.0
    ensures RoundedReal(Rup, v).value < B32
    ensures RoundedReal(Rdn, -v) == FlipResult(RoundedReal(Rup, v))
  {
    var x := Abs(v);
    assert Abs(-v) == x;
    MagnitudeMirrors(v < 0.0, x);
    hide RoundMagnitude, MagValue;
  }

  lemma MagnitudeMirrors(negative: bool, x: real)
    requires x >= 0.0
    ensures RoundMagnitude(Rdn, !negative, x) == RoundMagnitude(Rup, negative, x)
  {
  }

  lemma InfinityMirrors(s: bool)
    ensures InfinityResult(s).value < B32
    ensures FlipResult(InfinityResult(s)) == InfinityResult(!s)
  {
  }

  lemma SumMirrors(sum: real, sameSign: bool, sign: bool)
    ensures RoundedSum(Rup, sum, sameSign, sign).value < B32
    ensures RoundedSum(Rdn, -sum, sameSign, !sign) == FlipResult(RoundedSum(Rup, sum, sameSign, sign))
  {
    if sum != 0.0 {
      RoundedMirrors(sum);
    }
    hide RoundedReal;
  }

  /** Rounding down the negated operands is negating the sum rounded up, flags included. */
  lemma AddMirrors(a: u32, b: u32, subtract: bool)
    requires var r := SumOf(a, b, subtract, Rup); r.value != CANONICAL_NAN
    ensures SumOf(a, b, subtract, Rup).value < B32
    ensures SumOf(Flip(a), Flip(b), subtract, Rdn) == FlipResult(SumOf(a, b, subtract, Rup))
  {
    FlipFacts(a);
    FlipFacts(b);
    InfinityMirrors(true);
    InfinityMirrors(false);
    hide ClassOf, MagOf, ValueOf, Flip, MagValue, SignOf, InfinityResult, FlipResult;
    var v, w := ValueOf(a), Negate(subtract, ValueOf(b));
    assert Negate(subtract, ValueOf(Flip(b))) == -w;
    SumMirrors(v + w, SignOf(a) == (SignOf(b) != subtract), SignOf(a));
    NegatedSum(v, w, ValueOf(Flip(a)), Negate(subtract, ValueOf(Flip(b))),
               SignOf(a) == (SignOf(b) != subtract), !SignOf(a));
    hide Negate, RoundedSum;
  }

  lemma NegatedSum(v: real, w: real, v': real, w': real, same: bool, sign: bool)
    requires v' == -v && w' == -w
    ensures RoundedSum(Rdn, v' + w', same, sign) == RoundedSum(Rdn, -(v + w), same, sign)
  {
    assert v' + w' == -(v + w);
  }

  /** fnmadd.s rounding down negates fmadd.s rounding up, flags included. */
  lemma FmaMirrors(a: u32, b: u32, c: u32)
    requires FusedOf(MAdd, a, b, c, Rup).value != CANONICAL_NAN
    ensures FusedOf(MAdd, a, b, c, Rup).value < B32
    ensures FusedOf(NmAdd, a, b, c, Rdn) == FlipResult(FusedOf(MAdd, a, b, c, Rup))
  {
    hide ClassOf, MagOf, ValueOf, Times, MagValue;
    hide SignOf, RoundedSum, Flip, InfinityResult, FlipResult;
    InfinityMirrors(true);
    InfinityMirrors(false);
    var p := Times(ValueOf(a), ValueOf(b));
    SumMirrors(p + ValueOf(c), (SignOf(a) != SignOf(b)) == SignOf(c), SignOf(a) != SignOf(b));
    assert -p + -ValueOf(c) == -(p + ValueOf(c));
  }

  // ---- Integers and their registers.

  /** Rounding to an integer: nearest with the stated ties, or the neighbour on the stated side. */
  lemma RoundsToInteger(rm: Mode, v: real, k: int)
    ensures var r := RoundToInteger(rm, v) as real;
            match rm
            case Rne =>
              Abs(r - v) <= Abs(k as real - v)
              && (k as real != r && Abs(r - v) == Abs(k as real - v) ==> RoundToInteger(rm, v) % 2 == 0)
            case Rmm =>
              Abs(r - v) <= Abs(k as real - v)
              && (k as real != r && Abs(r - v) == Abs(k as real - v) ==> Abs(r) > Abs(k as real))
            case Rdn => r <= v && (k as real <= v ==> k as real <= r)
            case Rup => r >= v && (k as real >= v ==> k as real >= r)
            case Rtz =>
              Abs(r) <= Abs(v) && (Abs(k as real) <= Abs(v) ==> Abs(k as real) <= Abs(r))
              && (v >= 0.0 ==> r >= 0.0) && (v <= 0.0 ==> r <= 0.0)
  {
    var f := v.Floor;
    assert f as real <= v < (f + 1) as real;
    NextParity(f);
    if k <= f {
      assert k as real <= f as real;
    } else {
      assert k as real >= (f + 1) as real;
    }
    if -k <= f {
      assert -(k as real) <= f as real;
    } else {
      assert -(k as real) >= (f + 1) as real;
    }
  }

  /** A register written with an integer of type t reads back as that integer. */
  lemma RegisterHolds(t: IntType, i: int)
    requires t.Min() <= i <= t.Max()
    ensures IntegerOf(t, RegisterOf(t, i)) == i
  {
    if t.Width() == 64 {
      if i < 0 {
        DivModUnique(i, B64, -1, i + B64);
      } else {
        DivModUnique(i, B64, 0, i);
      }
    } else {
      if i < 0 {
        DivModUnique(i, B32, -1, i + B32);
      } else {
        DivModUnique(i, B32, 0, i);
      }
      ExtendReads(Wrap32(i));
    }
  }

  lemma {:induction false} BitLength(n: nat) returns (k: nat)
    requires n >= 1
    ensures Pow2(k) <= n < Pow2(k + 1)
  {
    if n == 1 {
      k := 0;
    } else {
      k := BitLength(n / 2);
      k := k + 1;
    }
  }

  /** An integer of at most 24 bits, or 2^24, is representable. */
  lemma IntegerRepresentable(n: nat) returns (m: nat)
    requires 1 <= n <= 0x100_0000
    ensures 0 < m < INFINITY && MagValue(m) == n as real
  {
    if n == 0x100_0000 {
      m := Word(24, HIDDEN);
      WordValue(24, HIDDEN);
      ScaleHalf(n as real, -1);
      ScaleHalf(2.0 * n as real, -2);
      ScaleAtZero(n as real);
    } else {
      var k := BitLength(n);
      SmallLength(n, k);
      var q := n * Pow2(23 - k);
      Normalised(n, k);
      var e: int := k;
      m := Word(e, q);
      WordValue(e, q);
      hide Scale, MagValue, Pow2;
      ScaleEight(q as real, e - 26);
      LiftScale(n, 23 - k, e - 23);
      ScaleAtZero(n as real);
    }
  }

  lemma SmallLength(n: nat, k: nat)
    requires Pow2(k) <= n < 0x100_0000
    ensures k <= 23
  {
    if k > 23 {
      Pow2Mono(24, k);
      Pow2Values();
    }
  }

  lemma Normalised(n: nat, k: nat)
    requires k <= 23 && Pow2(k) <= n < Pow2(k + 1)
    ensures HIDDEN <= n * Pow2(23 - k) < 2 * HIDDEN
  {
    Pow2Values();
    Pow2Add(k, 23 - k);
    Pow2Add(k + 1, 23 - k);
    hide Pow2;
    MulMono(Pow2(k), n, Pow2(23 - k));
    MulStrict(n, Pow2(k + 1), Pow2(23 - k));
  }

  lemma WordFacts(negative: bool, m: nat)
    requires 0 < m < INFINITY
    ensures var w := SignWord(negative) + m;
            && w < B32 && ClassOf(w).IsFinite() && SignOf(w) == negative && MagOf(w) == m
            && !ClassOf(w).IsNaN() && !ClassOf(w).Infinity?
  {
  }

  /** Integers of magnitude at most 2^24 survive the trip to binary32 and back without flags. */
  lemma SmallIntegersSurvive(t: IntType, operand: u64, there: Mode, back: Mode)
    requires -0x100_0000 <= IntegerOf(t, operand) <= 0x100_0000
    ensures var f := FloatOf(t, operand, there);
            && f.flags == 0 && f.value < B32
            && IntegerFrom(t, f.value, back) == FpResult(RegisterOf(t, IntegerOf(t, operand)), 0)
  {
    var i := IntegerOf(t, operand);
    MagZero();
    if i == 0 {
      IntegerIsFixed(back, 0.0, 0);
    } else {
      var m := IntegerRepresentable(if i < 0 then -i else i);
      var w: u32 := SignWord(i < 0) + m;
      hide MagValue, RoundedReal, RegisterOf, IntegerOf;
      RepresentableIsFixed(there, i as real, i < 0, m);
      WordFacts(i < 0, m);
      IntegralOperand(t, w, i, back);
      hide *;
      assert FloatOf(t, operand, there) == FpResult(w, 0) by { FloatOfNonzero(t, operand, there); }
    }
  }

  lemma FloatOfNonzero(t: IntType, operand: u64, rm: Mode)
    requires IntegerOf(t, operand) != 0
    ensures FloatOf(t, operand, rm) == RoundedReal(rm, IntegerOf(t, operand) as real)
  {
  }

  /** An operand that is an integer in range converts to it without flags. */
  lemma IntegralOperand(t: IntType, w: u32, i: int, rm: Mode)
    requires ClassOf(w).IsFinite() && ValueOf(w) == i as real && t.Min() <= i <= t.Max()
    ensures IntegerFrom(t, w, rm) == FpResult(RegisterOf(t, i), 0)
  {
    hide ClassOf, ValueOf, SignOf, RoundToInteger;
    IntegerIsFixed(rm, ValueOf(w), i);
  }
}
