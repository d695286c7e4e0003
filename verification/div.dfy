/** Division (divide_unsigned and divide of src/fpu.cpp). */
module Div {
  import opened Words
  import opened Scaling
  import opened Ieee754
  import opened Jam
  import opened Pack
  import opened Operands

  ghost function Ratio(v: real, w: real): real
    requires w != 0.0
  {
    v / w
  }

  /** The exact quotient of v by w, rounded once; a zero quotient takes the given sign. */
  ghost function RoundedQuotient(rm: Mode, v: real, w: real, sign: bool): FpResult
    requires w != 0.0
  {
    if v != 0.0 then RoundedReal(rm, Ratio(v, w)) else ZeroResult(sign)
  }

  lemma NonzeroValue(raw: u32)
    requires ClassOf(raw).IsFinite()
    ensures ClassOf(raw).Zero? <==> ValueOf(raw) == 0.0
  {
    MagZero();
    if MagOf(raw) > 0 {
      PositiveMagnitude(MagOf(raw));
    }
  }

  /**
   * lhs / rhs. This unit tests for a zero divisor before it tests for an infinite
   * dividend, so infinity divided by zero also raises DZ.
   */
  ghost function QuotientOf(lhs: u32, rhs: u32, rm: Mode): FpResult {
    var sign := SignOf(lhs) != SignOf(rhs);
    var lc, rc := ClassOf(lhs), ClassOf(rhs);
    if lc.IsNaN() || rc.IsNaN() then NaNResult(lc.SignalingNaN? || rc.SignalingNaN?)
    else if (lc.Zero? && rc.Zero?) || (lc.Infinity? && rc.Infinity?) then InvalidResult()
    else if rc.Zero? then FpResult(SignWord(sign) + INFINITY, DZ)
    else if lc.Infinity? then InfinityResult(sign)
    else if rc.Infinity? then ZeroResult(sign)
    else
      NonzeroValue(rhs);
      RoundedQuotient(rm, ValueOf(lhs), ValueOf(rhs), sign)
  }

  /**
   * Before bit b of the dividend is brought down: the bits above b, divided, give
   * the partial quotient q and the remainder.
   */
  ghost predicate Divided(dividend: nat, divisor: nat, b: int, q: nat, remainder: nat)
    requires b >= -1
  {
    Shr(dividend, b + 1) == q * divisor + remainder
  }

  /** The partial quotient q stands above bit b of the quotient word. */
  ghost predicate InPlace(quotient: nat, q: nat, b: int)
    requires -1 <= b <= 63
  {
    quotient == q * Pow2(b + 1) && q < Pow2(63 - b)
  }

  /** The next prefix of the dividend is twice the last one plus the bit brought down. */
  lemma BringDown(v: nat, b: nat)
    ensures Shr(v, b) == 2 * Shr(v, b + 1) + if Bit(v, b) then 1 else 0
  {
    ShrAdd(v, b, 1);
    ShrOne(Shr(v, b));
  }

  lemma DividedStep(dividend: nat, divisor: nat, b: nat, q: nat, remainder: nat)
    requires Divided(dividend, divisor, b, q, remainder)
    ensures var next := 2 * remainder + if Bit(dividend, b) then 1 else 0;
            && Divided(dividend, divisor, b - 1, 2 * q, next)
            && (next >= divisor ==> Divided(dividend, divisor, b - 1, 2 * q + 1, next - divisor))
  {
    BringDown(dividend, b);
    hide Shr, Bit;
    var t := q * divisor;
    assert (2 * q) * divisor == 2 * t;
    assert (2 * q + 1) * divisor == 2 * t + divisor;
  }

  lemma InPlaceStep(quotient: nat, q: nat, b: nat)
    requires b <= 63 && InPlace(quotient, q, b)
    ensures quotient + Pow2(b) < 0x1_0000_0000_0000_0000
    ensures InPlace(quotient, 2 * q, b - 1) && InPlace(quotient + Pow2(b), 2 * q + 1, b - 1)
  {
    Pow2Values();
    Pow2Add(64 - b, b);
    assert Pow2(b + 1) == 2 * Pow2(b) && Pow2(64 - b) == 2 * Pow2(63 - b);
    hide Pow2;
    QuotientFits(q, Pow2(63 - b), Pow2(b), quotient);
  }

  lemma QuotientFits(q: nat, r: nat, p: nat, quotient: nat)
    requires q < r && p > 0 && (2 * r) * p == 0x1_0000_0000_0000_0000 && quotient == q * (2 * p)
    ensures quotient == (2 * q) * p && quotient + p == (2 * q + 1) * p
    ensures quotient + p < 0x1_0000_0000_0000_0000
  {
    MulMono(2 * q + 2, 2 * r, p);
    assert (2 * q + 2) * p == (2 * q + 1) * p + p;
    assert (2 * q + 1) * p == (2 * q) * p + p;
  }

  lemma DivisionStart(dividend: u64, divisor: nat)
    ensures Divided(dividend, divisor, 63, 0, 0) && InPlace(0, 0, 63)
  {
    Pow2Values();
    ShrSmall(dividend, 64);
  }

  lemma DivisionEnd(dividend: nat, divisor: nat, q: nat, quotient: nat, remainder: nat)
    requires Divided(dividend, divisor, -1, q, remainder) && InPlace(quotient, q, -1)
    ensures dividend == quotient * divisor + remainder
  {
    assert Pow2(0) == 1;
  }

  /** The restoring division loop: the quotient and the remainder of any 64-bit dividend. */
  method DivideUnsigned(dividend: u64, divisor: u64) returns (quotient: u64, remainder: u64)
    requires 1 <= divisor <= 0x8000_0000_0000_0000
    ensures dividend == quotient * divisor + remainder
    ensures remainder < divisor
  {
    hide Divided, InPlace, Bit, Pow2;
    quotient, remainder := 0, 0;
    var bit := 63;
    ghost var q: nat := 0;
    DivisionStart(dividend, divisor);
    while bit >= 0
      invariant -1 <= bit <= 63 && remainder < divisor
      invariant Divided(dividend, divisor, bit, q, remainder) && InPlace(quotient, q, bit)
    {
      DividedStep(dividend, divisor, bit, q, remainder);
      InPlaceStep(quotient, q, bit);
      remainder := remainder * 2 + if Bit(dividend, bit) then 1 else 0;
      q := 2 * q;
      if remainder >= divisor {
        remainder := remainder - divisor;
        quotient := quotient + Pow2(bit);
        q := q + 1;
      }
      bit := bit - 1;
    }
    DivisionEnd(dividend, divisor, q, quotient, remainder);
  }

  // ---- The quotient of two significands, in units of bit 0 of 27 bits.

  /** An integer quotient with a sticky remainder is the real quotient rounded to odd. */
  lemma QuotientToOdd(dividend: nat, divisor: nat, quotient: nat, remainder: nat, y: real)
    requires divisor > 0 && remainder < divisor && dividend == quotient * divisor + remainder
    requires y * divisor as real == dividend as real
    ensures ToOdd(SetLowBit(quotient, remainder != 0), y)
    ensures y >= quotient as real
  {
    var d, q := divisor as real, quotient as real;
    assert dividend as real == q * d + remainder as real;
    Quotients(y, q, d, remainder as real);
  }

  lemma Quotients(y: real, q: real, d: real, rem: real)
    requires d > 0.0 && 0.0 <= rem < d && y * d == q * d + rem
    ensures q <= y < q + 1.0
    ensures y == q <==> rem == 0.0
  {
    assert (q + 1.0) * d == q * d + d;
    if y < q {
      RealScaleStrict(y, q, d);
    } else if y > q {
      RealScaleStrict(q, y, d);
    }
    if y >= q + 1.0 {
      RealScale(q + 1.0, y, d);
    }
  }

  lemma RealScale(a: real, b: real, c: real)
    requires a <= b && c > 0.0
    ensures a * c <= b * c
  {
  }

  lemma RealScaleStrict(a: real, b: real, c: real)
    requires a < b && c > 0.0
    ensures a * c < b * c
  {
  }

  /** The quotient of the pre-shifted significands has exactly 27 bits. */
  lemma QuotientRange(numerator: nat, divisor: nat, quotient: nat, remainder: nat)
    requires HIDDEN <= divisor < 2 * HIDDEN && divisor <= numerator < 2 * divisor
    requires numerator * 0x400_0000 == quotient * divisor + remainder && remainder < divisor
    ensures 0x400_0000 <= quotient < 0x800_0000
  {
    if quotient < 0x400_0000 {
      MulMono(quotient + 1, 0x400_0000, divisor);
    }
    if quotient >= 0x800_0000 {
      MulMono(0x800_0000, quotient, divisor);
    }
  }

  /** The real quotient of two scaled significands. */
  lemma RatioValue(sl: real, el: int, sr: real, er: int, y: real)
    requires sr > 0.0 && y * sr == sl
    ensures Scale(sr, er) > 0.0
    ensures Ratio(Scale(sl, el), Scale(sr, er)) == Scale(y, el - er)
  {
    ScaleNonNegative(sr, er);
    ScaleMul(y, el - er, sr, er);
    ScaleSame(y * sr, sl, el);
    hide Scale;
    DivideBack(Scale(y, el - er), Scale(sr, er), Scale(sl, el));
  }

  lemma DivideBack(t: real, w: real, v: real)
    requires w > 0.0 && t * w == v
    ensures Ratio(v, w) == t
  {
  }

  /** The rounded quotient of two nonzero numbers of magnitude a and b. */
  lemma QuotientBySigns(rm: Mode, v: real, ls: bool, a: real, w: real, rs: bool, b: real)
    requires a > 0.0 && b > 0.0 && v == Negate(ls, a) && w == Negate(rs, b)
    ensures Ratio(a, b) > 0.0
    ensures RoundedQuotient(rm, v, w, ls != rs) == Rounded(rm, ls != rs, Ratio(a, b))
  {
    SignedRatio(v, ls, a, w, rs, b);
    hide Rounded, Ratio;
  }

  lemma SignedRatio(v: real, ls: bool, a: real, w: real, rs: bool, b: real)
    requires a > 0.0 && b > 0.0 && v == Negate(ls, a) && w == Negate(rs, b)
    ensures Ratio(a, b) > 0.0
    ensures Ratio(v, w) == Negate(ls != rs, Ratio(a, b))
  {
    var t := Ratio(a, b);
    assert t * b == a;
    assert Ratio(v, w) * w == v;
  }

  method Divide(lhsRaw: u32, rhsRaw: u32, rm: Mode) returns (r: FpResult)
    ensures r == QuotientOf(lhsRaw, rhsRaw, rm)
  {
    hide MagValue, ClassOf, MagOf, SignOf, RoundedQuotient, Rounded, UnpackedFp32.ToBits, UnpackedFp32.Encodes;
    var lhs := Unpack(lhsRaw);
    var rhs := Unpack(rhsRaw);
    var sign := lhs.sign != rhs.sign;
    var lhsZero, rhsZero := lhs.fpClass == Zero, rhs.fpClass == Zero;
    var lhsInfinity, rhsInfinity := lhs.fpClass == Infinity, rhs.fpClass == Infinity;
    ghost var a, b := MagValue(MagOf(lhsRaw)), MagValue(MagOf(rhsRaw));

    if lhs.fpClass.IsNaN() || rhs.fpClass.IsNaN() {
      return NaNResult(lhs.fpClass == SignalingNaN || rhs.fpClass == SignalingNaN);
    }

    if (lhsZero && rhsZero) || (lhsInfinity && rhsInfinity) {
      return InvalidResult();
    }

    if rhsZero {
      return FpResult(SignWord(sign) + INFINITY, DZ);
    }

    if lhsInfinity {
      return InfinityResult(sign);
    }

    if lhsZero || rhsInfinity {
      if lhsZero && !rhsInfinity {
        NonzeroValue(rhsRaw);
        NonzeroValue(lhsRaw);
        ZeroQuotient(rm, ValueOf(lhsRaw), ValueOf(rhsRaw), sign);
      }
      return ZeroResult(sign);
    }

    r := DivideFinite(lhs, rhs, rm, a, b);
    QuotientBySigns(rm, ValueOf(lhsRaw), lhs.sign, a, ValueOf(rhsRaw), rhs.sign, b);
  }

  lemma ZeroQuotient(rm: Mode, v: real, w: real, sign: bool)
    requires v == 0.0 && w != 0.0
    ensures RoundedQuotient(rm, v, w, sign) == ZeroResult(sign)
  {
  }

  /** The path of divide on two nonzero numbers of magnitude a and b. */
  method DivideFinite(lhs: UnpackedFp32, rhs: UnpackedFp32, rm: Mode, ghost a: real, ghost b: real)
    returns (r: FpResult)
    requires lhs.Encodes(a) && rhs.Encodes(b)
    ensures a > 0.0 && b > 0.0 && Ratio(a, b) >= 0.0
    ensures r == Rounded(rm, lhs.sign != rhs.sign, Ratio(a, b))
  {
    hide Scale, Rounded, Ratio, ToOdd;
    var numerator: u64 := lhs.significand;
    var exponent := lhs.exponent - rhs.exponent;
    if numerator < rhs.significand {
      numerator := numerator * 2;
      exponent := exponent - 1;
    }

    var quotient, remainder := DivideUnsigned(numerator * 0x400_0000, rhs.significand);
    ghost var y := QuotientNumber(lhs, rhs, a, b, numerator, exponent);
    QuotientToOdd(numerator * 0x400_0000, rhs.significand, quotient, remainder, y);
    QuotientRange(numerator, rhs.significand, quotient, remainder);
    quotient := SetLowBit(quotient, remainder != 0);
    r := RoundAndPack(lhs.sign != rhs.sign, exponent, quotient, rm, y);
  }

  /** The real quotient of the operands in units of bit 0 of the 27-bit quotient. */
  lemma QuotientNumber(lhs: UnpackedFp32, rhs: UnpackedFp32, a: real, b: real, numerator: nat, exponent: int)
    returns (y: real)
    requires lhs.Encodes(a) && rhs.Encodes(b)
    requires var borrow := lhs.significand < rhs.significand;
             && numerator == (if borrow then 2 * lhs.significand else lhs.significand)
             && exponent == lhs.exponent - rhs.exponent - if borrow then 1 else 0
    ensures a > 0.0 && b > 0.0
    ensures y * rhs.significand as real == (numerator * 0x400_0000) as real
    ensures y >= 0.0 && Ratio(a, b) == Scale(y, exponent - 26)
  {
    hide Scale, Ratio;
    var sl, sr := lhs.significand as real, rhs.significand as real;
    ScaleNonNegative(sl, lhs.exponent - 23);
    ScaleNonNegative(sr, rhs.exponent - 23);
    var z := DivideReals(sl, sr);
    RatioValue(sl, lhs.exponent - 23, sr, rhs.exponent - 23, z);
    var shift := if lhs.significand < rhs.significand then 27 else 26;
    y := Scale(z, shift);
    ScaleScale(z, shift, exponent - 26);
    ScaleNonNegative(z, shift);
    ScaleTimes(sr, z, shift);
    Commute(y, sr);
    Commute(z, sr);
    ScaleSame(sr * z, sl, shift);
    ShiftLeft26(lhs.significand);
  }

  lemma DivideReals(v: real, w: real) returns (t: real)
    requires v > 0.0 && w > 0.0
    ensures t * w == v && t > 0.0
  {
    t := v / w;
  }
}
