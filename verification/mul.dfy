/** Multiplication (multiply of src/fpu.cpp). */
module Mul {
  import opened Words
  import opened Scaling
  import opened Ieee754
  import opened Jam
  import opened Pack
  import opened Operands

  /** The exact product of v and w rounded once; a zero product takes the given sign. */
  ghost function RoundedProduct(rm: Mode, v: real, w: real, sign: bool): FpResult {
    var product := Times(v, w);
    if product != 0.0 then RoundedReal(rm, product) else ZeroResult(sign)
  }

  /** lhs * rhs, as sections 6 and 7 of IEEE 754-2019 define it. */
  ghost function ProductOf(lhs: u32, rhs: u32, rm: Mode): FpResult {
    var sign := SignOf(lhs) != SignOf(rhs);
    var lc, rc := ClassOf(lhs), ClassOf(rhs);
    if lc.IsNaN() || rc.IsNaN() then NaNResult(lc.SignalingNaN? || rc.SignalingNaN?)
    else if (lc.Zero? && rc.Infinity?) || (lc.Infinity? && rc.Zero?) then InvalidResult()
    else if lc.Infinity? || rc.Infinity? then InfinityResult(sign)
    else RoundedProduct(rm, ValueOf(lhs), ValueOf(rhs), sign)
  }

  /** The signs of a product multiply, the magnitudes multiply. */
  lemma ProductBySigns(rm: Mode, v: real, ls: bool, a: real, w: real, rs: bool, b: real, p: real)
    requires a >= 0.0 && b >= 0.0 && v == Negate(ls, a) && w == Negate(rs, b) && p == Times(a, b)
    ensures p >= 0.0
    ensures RoundedProduct(rm, v, w, ls != rs)
      == if a == 0.0 || b == 0.0 then ZeroResult(ls != rs) else Rounded(rm, ls != rs, p)
  {
    hide Rounded;
    SignedProduct(v, ls, a, w, rs, b, p);
  }

  lemma SignedProduct(v: real, ls: bool, a: real, w: real, rs: bool, b: real, p: real)
    requires a >= 0.0 && b >= 0.0 && v == Negate(ls, a) && w == Negate(rs, b) && p == Times(a, b)
    ensures p >= 0.0
    ensures a > 0.0 && b > 0.0 ==> p > 0.0
    ensures a == 0.0 || b == 0.0 ==> p == 0.0
    ensures Times(v, w) == Negate(ls != rs, p)
  {
  }

  /** The product of two 24-bit significands has 47 or 48 bits. */
  lemma ProductRange(sl: u32, sr: u32)
    requires HIDDEN <= sl < 2 * HIDDEN && HIDDEN <= sr < 2 * HIDDEN
    ensures 0x4000_0000_0000 <= sl * sr < 0x1_0000_0000_0000
    ensures Bit(sl * sr, 47) <==> sl * sr >= 0x8000_0000_0000
  {
    MulMono(HIDDEN, sl, sr);
    MulMono(HIDDEN, sr, HIDDEN);
    MulMono(sl, 2 * HIDDEN - 1, sr);
    MulMono(sr, 2 * HIDDEN - 1, 2 * HIDDEN - 1);
    Pow2Values();
    TopBit(sl * sr, 47);
  }

  /** The real product of two operands, as a scaled integer. */
  lemma ProductValue(lhs: UnpackedFp32, a: real, rhs: UnpackedFp32, b: real)
    requires lhs.Encodes(a) && rhs.Encodes(b)
    ensures a > 0.0 && b > 0.0
    ensures Times(a, b) == Scale((lhs.significand * rhs.significand) as real, lhs.exponent + rhs.exponent - 46)
  {
    var sl, sr := lhs.significand as real, rhs.significand as real;
    ScaleNonNegative(sl, lhs.exponent - 23);
    ScaleNonNegative(sr, rhs.exponent - 23);
    ScaleMul(sl, lhs.exponent - 23, sr, rhs.exponent - 23);
    ProductAsReal(lhs.significand, rhs.significand);
    ScaleSame(sl * sr, (lhs.significand * rhs.significand) as real, lhs.exponent + rhs.exponent - 46);
  }

  lemma ProductAsReal(m: nat, n: nat)
    ensures (m * n) as real == m as real * n as real
  {
  }

  /** The jammed product represents the exact one. */
  lemma JammedProduct(product: u64, shift: nat)
    requires shift == if product >= 0x8000_0000_0000 then 21 else 20
    requires 0x4000_0000_0000 <= product < 0x1_0000_0000_0000
    ensures ShiftRightJam(product, shift) < 0x1000_0000
    ensures Represents(ShiftRightJam(product, shift), Scale(product as real, -(shift as int)))
  {
    Pow2Values();
    if shift == 21 { JamRange(product, 21, 26); } else { JamRange(product, 20, 26); }
    ExactToOdd(product);
    JamToOdd(product, product as real, shift);
    ScaleNonNegative(product as real, -(shift as int));
  }

  method Multiply(lhsRaw: u32, rhsRaw: u32, rm: Mode) returns (r: FpResult)
    ensures r == ProductOf(lhsRaw, rhsRaw, rm)
  {
    hide MagValue, ClassOf, MagOf, SignOf, RoundedProduct, Rounded, Scale, ShiftRightJam,
      UnpackedFp32.ToBits, UnpackedFp32.Encodes;
    var lhs := Unpack(lhsRaw);
    var rhs := Unpack(rhsRaw);
    var sign := lhs.sign != rhs.sign;
    ghost var a, b := MagValue(MagOf(lhsRaw)), MagValue(MagOf(rhsRaw));

    if lhs.fpClass.IsNaN() || rhs.fpClass.IsNaN() {
      return NaNResult(lhs.fpClass == SignalingNaN || rhs.fpClass == SignalingNaN);
    }

    var lhsZero, rhsZero := lhs.fpClass == Zero, rhs.fpClass == Zero;
    var lhsInfinity, rhsInfinity := lhs.fpClass == Infinity, rhs.fpClass == Infinity;

    if (lhsZero && rhsInfinity) || (lhsInfinity && rhsZero) {
      return InvalidResult();
    }

    if lhsInfinity || rhsInfinity {
      return InfinityResult(sign);
    }

    MagNonNegative(MagOf(lhsRaw));
    MagNonNegative(MagOf(rhsRaw));
    ghost var p := Times(a, b);
    ProductBySigns(rm, ValueOf(lhsRaw), lhs.sign, a, ValueOf(rhsRaw), rhs.sign, b, p);
    if lhsZero || rhsZero {
      return ZeroResult(sign);
    }
    r := MultiplyFinite(lhs, rhs, rm, a, b, p);
  }

  /** The path of multiply on two nonzero numbers of magnitude a and b. */
  method MultiplyFinite(lhs: UnpackedFp32, rhs: UnpackedFp32, rm: Mode, ghost a: real, ghost b: real, ghost p: real)
    returns (r: FpResult)
    requires lhs.Encodes(a) && rhs.Encodes(b) && p == Times(a, b)
    ensures a > 0.0 && b > 0.0 && p >= 0.0
    ensures r == Rounded(rm, lhs.sign != rhs.sign, p)
  {
    ProductRange(lhs.significand, rhs.significand);
    ProductValue(lhs, a, rhs, b);
    hide Rounded, Scale, ShiftRightJam;
    var product: u64 := lhs.significand * rhs.significand;
    var productAtLeastTwo := Bit(product, 47);
    var shift := if productAtLeastTwo then 21 else 20;
    var exponent := lhs.exponent + rhs.exponent + if productAtLeastTwo then 1 else 0;

    JammedProduct(product, shift);
    ScaleScale(product as real, -(shift as int), exponent - 26);
    r := RoundAndPack(lhs.sign != rhs.sign, exponent, ShiftRightJam(product, shift), rm,
                      Scale(product as real, -(shift as int)));
  }
}
