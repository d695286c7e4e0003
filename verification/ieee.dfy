/**
 * What correct rounding to binary32 means, stated over the real numbers and
 * without reference to any algorithm (section 4.3 of IEEE 754-2019).
 *
 * A finite number is a sign and a magnitude word m < INFINITY. The magnitude
 * words enumerate the representable magnitudes in increasing order, so the
 * neighbours of a real number are two consecutive words, and "even" is the
 * parity of the word. The word INFINITY stands, as a neighbour, for 2^128, the
 * next number of an unbounded exponent range.
 */
module Ieee754 {
  import opened Words
  import opened Scaling

  datatype Mode = Rne | Rtz | Rdn | Rup | Rmm

  datatype FpResult = FpResult(value: u64, flags: bv32)

  const NX: bv32 := 1
  const UF: bv32 := 2
  const OF: bv32 := 4
  const DZ: bv32 := 8
  const NV: bv32 := 16

  const HIDDEN: nat := 0x80_0000
  const MAX_FINITE: nat := 0x7f7f_ffff
  const INFINITY: nat := 0x7f80_0000
  const SIGN: nat := 0x8000_0000
  const CANONICAL_NAN: nat := 0x7fc0_0000

  predicate SignOf(raw: u32) { raw >= SIGN }

  function MagOf(raw: u32): (m: nat)
    ensures m < SIGN && raw == m + SignWord(SignOf(raw))
  {
    raw % SIGN
  }

  function SignWord(negative: bool): (w: nat) {
    if negative then SIGN else 0
  }

  datatype FpClass = Zero | Subnormal | Normal | Infinity | SignalingNaN | QuietNaN {

    predicate IsNaN() { SignalingNaN? || QuietNaN? }

    predicate IsFinite() { Zero? || Subnormal? || Normal? }
  }

  /** The class of a word, read off its magnitude. */
  function ClassOf(raw: u32): FpClass {
    var m := MagOf(raw);
    if m == 0 then Zero
    else if m < HIDDEN then Subnormal
    else if m < INFINITY then Normal
    else if m == INFINITY then Infinity
    else if m < CANONICAL_NAN then SignalingNaN
    else QuietNaN
  }

  /** The exponent of the unit in the last place of the binade of m. */
  function UlpExponent(m: nat): int {
    if m / HIDDEN == 0 then -149 else m / HIDDEN - 150
  }

  function Significand(m: nat): (s: nat)
    ensures s < 2 * HIDDEN
  {
    if m / HIDDEN == 0 then m else HIDDEN + m % HIDDEN
  }

  /** The real number a magnitude word encodes. */
  ghost function MagValue(m: nat): real {
    Scale(Significand(m) as real, UlpExponent(m))
  }

  ghost function Negate(negative: bool, y: real): real {
    if negative then -y else y
  }

  /** The real number a finite word encodes. */
  ghost function ValueOf(raw: u32): real {
    Negate(SignOf(raw), MagValue(MagOf(raw)))
  }

  ghost function Times(v: real, w: real): real { v * w }

  ghost function Abs(y: real): real { if y < 0.0 then -y else y }

  /** x lies between the consecutive magnitudes m (included) and m + 1. */
  ghost predicate Brackets(x: real, m: nat) {
    m < INFINITY && MagValue(m) <= x < MagValue(m + 1)
  }

  /** x is below 2^128, so it has a neighbour on both sides. */
  ghost predicate InRange(x: real) { 0.0 <= x < MagValue(INFINITY) }

  /** The magnitude word of the greatest representable number not above x. */
  ghost function Below(x: real): (m: nat)
    requires InRange(x)
    ensures Brackets(x, m)
  {
    BracketExists(x, INFINITY);
    var m :| Brackets(x, m);
    m
  }

  ghost function Midpoint(m: nat): real {
    (MagValue(m) + MagValue(m + 1)) / 2.0
  }

  /**
   * Whether an inexact result between m and m + 1 takes the upper neighbour; gap
   * has the sign of the result minus the midpoint.
   */
  ghost predicate TakesUpper(rm: Mode, negative: bool, m: nat, gap: real) {
    match rm
    case Rne => gap > 0.0 || (gap == 0.0 && m % 2 == 1)
    case Rtz => false
    case Rdn => negative
    case Rup => !negative
    case Rmm => gap >= 0.0
  }

  /** What a result of magnitude 2^128 or more becomes. */
  predicate OverflowsToInfinity(rm: Mode, negative: bool) {
    match rm
    case Rne => true
    case Rtz => false
    case Rdn => negative
    case Rup => !negative
    case Rmm => true
  }

  ghost function RoundMagnitude(rm: Mode, negative: bool, x: real): (r: nat)
    requires x >= 0.0
    ensures r <= INFINITY
  {
    if !InRange(x) then
      if OverflowsToInfinity(rm, negative) then INFINITY else MAX_FINITE
    else
      var m := Below(x);
      if x > MagValue(m) && TakesUpper(rm, negative, m, x - Midpoint(m)) then m + 1 else m
  }

  /**
   * The exact result of magnitude x and the given sign, rounded once. OF is
   * raised when the result rounded with unbounded exponent is 2^128 or more; NX
   * when the delivered number is not the exact one; UF, as this unit decides it,
   * when the delivered number is inexact and below 2^-126.
   */
  ghost function Rounded(rm: Mode, negative: bool, x: real): FpResult
    requires x >= 0.0
  {
    var r := RoundMagnitude(rm, negative, x);
    var flags :=
      if !InRange(x) || r == INFINITY then OF | NX
      else if x == MagValue(r) then 0
      else if r < HIDDEN then NX | UF
      else NX;
    FpResult(SignWord(negative) + r, flags)
  }

  /** A nonzero real result rounded once; the sign is that of the result. */
  ghost function RoundedReal(rm: Mode, v: real): FpResult {
    Rounded(rm, v < 0.0, Abs(v))
  }

  // ---- The magnitudes are strictly increasing, with no gaps in the order.

  ghost function Ulp(m: nat): real { Scale(1.0, UlpExponent(m)) }

  lemma {:induction false} UlpPositive(m: nat)
    ensures Ulp(m) > 0.0
  {
    ScaleZero(UlpExponent(m));
    ScaleMono(0.0, 1.0, UlpExponent(m));
  }

  lemma {:induction false} MagStep(m: nat)
    ensures MagValue(m + 1) == MagValue(m) + Ulp(m)
    ensures MagValue(m) < MagValue(m + 1)
  {
    var e := UlpExponent(m);
    var s := Significand(m);
    UlpPositive(m);
    ScaleAdd(s as real, 1.0, e);
    assert MagValue(m) + Ulp(m) == Scale((s + 1) as real, e);
    if (m + 1) / HIDDEN == m / HIDDEN {
      assert Significand(m + 1) == s + 1 && UlpExponent(m + 1) == e;
    } else {
      assert (m + 1) / HIDDEN == m / HIDDEN + 1 && (m + 1) % HIDDEN == 0;
      assert Significand(m + 1) == HIDDEN;
      if m / HIDDEN == 0 {
        assert s + 1 == HIDDEN && UlpExponent(m + 1) == e;
      } else {
        assert s + 1 == 2 * HIDDEN && UlpExponent(m + 1) == e + 1;
        ScaleStep(HIDDEN as real, e);
        ScaleAdd(HIDDEN as real, HIDDEN as real, e);
      }
    }
  }

  lemma {:induction false} MagMono(m: nat, n: nat)
    requires m < n
    ensures 0.0 <= MagValue(m) < MagValue(n)
    decreases n
  {
    MagNonNegative(m);
    MagStep(n - 1);
    if m < n - 1 {
      MagMono(m, n - 1);
    }
  }

  lemma {:induction false} MagNonNegative(m: nat)
    ensures MagValue(m) >= 0.0
  {
    ScaleUp(Significand(m) as real, UlpExponent(m), UlpExponent(m));
  }

  lemma MagZero()
    ensures MagValue(0) == 0.0
  {
    ScaleZero(-149);
  }

  lemma MagMonoLe(m: nat, n: nat)
    requires m <= n
    ensures MagValue(m) <= MagValue(n)
  {
    if m < n {
      MagMono(m, n);
    }
  }

  lemma {:induction false} BracketExists(x: real, n: nat)
    requires x >= 0.0 && n <= INFINITY
    requires x < MagValue(n)
    ensures exists m :: Brackets(x, m)
  {
    MagZero();
    if x >= MagValue(n - 1) {
      assert Brackets(x, n - 1);
    } else {
      BracketExists(x, n - 1);
    }
  }

  /** The lower neighbour is unique. */
  lemma BracketUnique(x: real, m: nat, n: nat)
    requires Brackets(x, m) && Brackets(x, n)
    ensures m == n
  {
    if m < n {
      MagMonoLe(m + 1, n);
    } else if n < m {
      MagMonoLe(n + 1, m);
    }
  }

  /** A representable magnitude is delivered unchanged and without flags. */
  lemma ExactIsFixed(rm: Mode, negative: bool, m: nat)
    requires m < INFINITY
    ensures MagValue(m) >= 0.0
    ensures Rounded(rm, negative, MagValue(m)) == FpResult(SignWord(negative) + m, 0)
  {
    MagNonNegative(m);
    MagMono(m, m + 1);
    MagMonoLe(m + 1, INFINITY);
    BracketUnique(MagValue(m), m, Below(MagValue(m)));
  }

  lemma ZeroIsFixed(rm: Mode, negative: bool)
    ensures Rounded(rm, negative, 0.0) == FpResult(SignWord(negative), 0)
  {
    MagZero();
    ExactIsFixed(rm, negative, 0);
  }

  // ---- Results shared by the operations.

  function ZeroResult(negative: bool): FpResult { FpResult(SignWord(negative), 0) }

  function InfinityResult(negative: bool): FpResult { FpResult(SignWord(negative) + INFINITY, 0) }

  function InvalidResult(): FpResult { FpResult(CANONICAL_NAN, NV) }

  /** A quiet NaN, with NV when an operand signals. */
  function NaNResult(signaling: bool): FpResult { FpResult(CANONICAL_NAN, if signaling then NV else 0) }

  /**
   * An exact sum rounded once. A sum of zero is the common zero of its operands
   * if they agree in sign, and otherwise negative only when rounding down.
   */
  ghost function RoundedSum(rm: Mode, sum: real, sameSign: bool, sign: bool): FpResult {
    if sum != 0.0 then RoundedReal(rm, sum)
    else ZeroResult(if sameSign then sign else rm == Rdn)
  }

  /** The rounded sum of two nonzero numbers, by the signs of the operands. */
  lemma SumBySigns(rm: Mode, ls: bool, a: real, rs: bool, b: real)
    requires a >= 0.0 && b >= 0.0 && a + b > 0.0
    ensures var r := RoundedSum(rm, Negate(ls, a) + Negate(rs, b), ls == rs, ls);
            if ls == rs then r == Rounded(rm, ls, a + b)
            else if a > b then r == Rounded(rm, ls, a - b)
            else if a < b then r == Rounded(rm, rs, b - a)
            else r == ZeroResult(rm == Rdn)
  {
    hide Rounded;
  }

  lemma PositiveMagnitude(m: nat)
    requires m > 0
    ensures MagValue(m) > 0.0
  {
    MagMono(0, m);
  }

  /** A sum that is a nonzero representable number is its own rounding. */
  lemma RepresentableSum(rm: Mode, sum: real, sameSign: bool, sign: bool, negative: bool, m: nat)
    requires 0 < m < INFINITY && sum == Negate(negative, MagValue(m))
    ensures RoundedSum(rm, sum, sameSign, sign) == FpResult(SignWord(negative) + m, 0)
  {
    PositiveMagnitude(m);
    ExactIsFixed(rm, negative, m);
    assert Abs(sum) == MagValue(m);
  }

  /** A nonzero representable number is its own rounding. */
  lemma RepresentableIsFixed(rm: Mode, v: real, negative: bool, m: nat)
    requires 0 < m < INFINITY && v == Negate(negative, MagValue(m))
    ensures v != 0.0 && RoundedReal(rm, v) == FpResult(SignWord(negative) + m, 0)
  {
    PositiveMagnitude(m);
    RepresentableSum(rm, v, true, true, negative, m);
  }
}
