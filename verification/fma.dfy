/** Fused multiply-add (compute_fma and Fpu::fma of src/fpu.cpp). */
module Fma {
  import opened Words
  import opened Scaling
  import opened Ieee754
  import opened Jam
  import opened Alignment
  import opened Pack
  import opened Operands
  import opened Mul

  datatype FmaFpType = MAdd | MSub | NmSub | NmAdd

  predicate NegatesProduct(op: FmaFpType) { op.NmSub? || op.NmAdd? }

  predicate NegatesAddend(op: FmaFpType) { op.MSub? || op.NmAdd? }

  /** +-(lhs * rhs) +- addend, rounded once, as IEEE 754-2019 defines it. */
  ghost function FusedOf(op: FmaFpType, lhs: u32, rhs: u32, addend: u32, rm: Mode): FpResult {
    var ps := (SignOf(lhs) != SignOf(rhs)) != NegatesProduct(op);
    var cs := SignOf(addend) != NegatesAddend(op);
    var lc, rc, ac := ClassOf(lhs), ClassOf(rhs), ClassOf(addend);
    var invalidProduct := (lc.Zero? && rc.Infinity?) || (lc.Infinity? && rc.Zero?);
    var productInfinity := lc.Infinity? || rc.Infinity?;
    if lc.IsNaN() || rc.IsNaN() || ac.IsNaN() || invalidProduct then
      NaNResult(lc.SignalingNaN? || rc.SignalingNaN? || ac.SignalingNaN? || invalidProduct)
    else if productInfinity && ac.Infinity? && ps != cs then InvalidResult()
    else if productInfinity then InfinityResult(ps)
    else if ac.Infinity? then InfinityResult(cs)
    else
      RoundedFused(rm, NegatesProduct(op), ValueOf(lhs), ValueOf(rhs), Negate(NegatesAddend(op), ValueOf(addend)),
                   ps, cs)
  }

  /** The exact +-(v * w) + c, rounded once. */
  ghost function RoundedFused(rm: Mode, negate: bool, v: real, w: real, c: real, ps: bool, cs: bool): FpResult {
    RoundedSum(rm, Negate(negate, Times(v, w)) + c, ps == cs, ps)
  }

  datatype UnroundedFp32 = UnroundedFp32(sign: bool, exponent: i32, significand: u64)

  const WIDE: nat := 0x4000_0000_0000_0000   // 2^62

  /** What the normalisation loop keeps: enough leading bits for the bits lost. */
  ghost predicate Wide(s: nat, y: real) {
    Tracks(s, y, WIDE / 2) || (y >= 0.0 && s >= WIDE && ToQuad(s, y))
  }

  lemma WideTopBits(s: u64)
    ensures Bit(s, 62) || Bit(s, 63) <==> s >= WIDE
  {
    Pow2Values();
    TopBit(s, 63);
    if s < 2 * WIDE {
      TopBit(s, 62);
    }
  }

  lemma WideDouble(s: u64, y: real)
    requires 0 < s < WIDE && Wide(s, y)
    ensures Wide(2 * s, 2.0 * y)
  {
    if y == s as real {
      assert 2.0 * y == (2 * s) as real;
    } else {
      ShiftLeftToQuad(s, y);
    }
  }

  /** The jammed top of a normalised wide significand is what round_and_pack needs. */
  lemma WideJams(s: u64, y: real)
    requires s >= WIDE && Wide(s, y)
    ensures 0 < ShiftRightJam(s, 36) < 0x1000_0000
    ensures Represents(ShiftRightJam(s, 36), Scale(y, -36))
  {
    hide Scale, Shr, Discards, Pow2;
    Pow2Values();
    if s >= 2 * WIDE {
      JamRange(s, 36, 27);
    } else {
      JamRange(s, 36, 26);
    }
    if y == s as real {
      ExactToOdd(s);
    }
    JamToOdd(s, y, 36);
    ScaleNonNegative(y, -36);
  }

  // ---- Alignment of the product and the addend at 63 bits.

  /** An even wide operand loses nothing when shifted by at most one place. */
  lemma WideNear(l: u64, r: u64, distance: nat)
    requires distance <= 1 && r % 2 == 0
    ensures Aligned(l, l as real, ShiftRightJam(r, distance), Scale(r as real, -(distance as int)), WIDE / 2)
  {
    JamEven(r);
    ScaleAtZero(r as real);
    ScaleHalf(r as real, 0);
    ExactAligned(l, ShiftRightJam(r, distance), WIDE / 2);
  }

  /** Shifted further it is small enough for one normalisation shift. */
  lemma WideFar(l: u64, r: u64, distance: nat)
    requires WIDE <= l && l % 2 == 0 && r < 2 * WIDE && distance >= 2
    ensures ShiftRightJam(r, distance) <= WIDE / 2
    ensures Aligned(l, l as real, ShiftRightJam(r, distance), Scale(r as real, -(distance as int)), WIDE / 2)
  {
    hide Scale;
    JamHalves(r, WIDE);
    JamHalves(ShiftRightJam(r, 1), WIDE / 2);
    JamStep(r, distance);
    JamStep(ShiftRightJam(r, 1), distance - 1);
    JamShrinks(ShiftRightJam(ShiftRightJam(r, 1), 1), distance - 2);
    ExactToOdd(r);
    JamToOdd(r, r as real, distance);
    ScaleNonNegative(r as real, -(distance as int));
    LossyAligned(l, ShiftRightJam(r, distance), Scale(r as real, -(distance as int)), WIDE / 2);
  }

  lemma WideAligned(l: u64, r: u64, distance: nat)
    requires WIDE <= l < 2 * WIDE && l % 2 == 0 && r < 2 * WIDE && r % 2 == 0
    ensures ShiftRightJam(r, distance) <= r
    ensures Aligned(l, l as real, ShiftRightJam(r, distance), Scale(r as real, -(distance as int)), WIDE / 2)
  {
    JamShrinks(r, distance);
    if distance <= 1 {
      WideNear(l, r, distance);
    } else {
      WideFar(l, r, distance);
    }
  }

  /** A wide significand and the same number in units of another exponent. */
  lemma WideRescale(s: nat, from: int, e: int, a: real)
    requires a == Scale(s as real, from - 62)
    ensures a == Scale(Scale(s as real, from - e), e - 62)
    ensures s > 0 ==> Scale(s as real, from - e) > 0.0
    ensures Scale(s as real, from - e) >= 0.0
  {
    ScaleScale(s as real, from - e, e - 62);
    ScaleNonNegative(s as real, from - e);
  }

  function WidenProduct(product: nat, atLeastTwo: bool): nat {
    if atLeastTwo then product * 0x8000 else product * 0x1_0000
  }

  lemma WidenProductRange(product: nat, atLeastTwo: bool)
    requires 0x4000_0000_0000 <= product < 0x1_0000_0000_0000
    requires atLeastTwo <==> product >= 0x8000_0000_0000
    ensures WIDE <= WidenProduct(product, atLeastTwo) < 2 * WIDE
    ensures WidenProduct(product, atLeastTwo) % 2 == 0
  {
    var half := product * 0x4000;
    if atLeastTwo {
      Doubled(half, product * 0x8000);
    } else {
      Doubled(2 * half, product * 0x1_0000);
    }
  }

  lemma Doubled(h: nat, s: nat)
    requires s == 2 * h
    ensures s % 2 == 0
  {
  }

  /** The 48-bit product moved up to bit 62 has the same value. */
  lemma WidenProductValue(product: nat, atLeastTwo: bool, e: int, p: real)
    requires p == Scale(product as real, e - 46)
    ensures p == Scale(WidenProduct(product, atLeastTwo) as real, e + (if atLeastTwo then 1 else 0) - 62)
  {
    hide Scale;
    if atLeastTwo {
      ShiftLeft15(product, e - 61);
    } else {
      ShiftLeft16(product, e - 62);
    }
  }

  lemma WidenAddendRange(s: nat)
    requires s < 2 * HIDDEN
    ensures s * 0x80_0000_0000 < 2 * WIDE && s * 0x80_0000_0000 % 2 == 0
    ensures s >= HIDDEN ==> s * 0x80_0000_0000 >= WIDE
  {
    Doubled(s * 0x40_0000_0000, s * 0x80_0000_0000);
  }

  /**
   * The sum +-p +- c before rounding: its sign, and a significand that
   * represents its magnitude. A zero significand means an exact zero sum.
   */
  ghost predicate Unrounded(u: UnroundedFp32, ps: bool, p: real, cs: bool, c: real, y: real) {
    var sum := Negate(ps, p) + Negate(cs, c);
    if u.significand == 0 then sum == 0.0 && ps != cs
    else
      && u.significand < 0x1000_0000 && Represents(u.significand, y)
      && sum != 0.0 && u.sign == (sum < 0.0) && Abs(sum) == Scale(y, u.exponent - 26)
  }

  /** What unpacking gives for an addend of magnitude c, zero included. */
  ghost predicate EncodesAddend(u: UnpackedFp32, c: real) {
    u.Encodes(c) || (u.significand == 0 && c == 0.0)
  }

  /** The product and the addend aligned at the larger exponent. */
  method AlignWide(product: u64, productExponent: i32, addend: u64, addendExponent: i32, ghost p: real, ghost c: real)
    returns (l: u64, r: u64, exponent: i32, ghost y: real, ghost z: real)
    requires WIDE <= product < 2 * WIDE && product % 2 == 0
    requires addend < 2 * WIDE && addend % 2 == 0
    requires addend >= WIDE || (addend == 0 && addendExponent == productExponent)
    requires -1000 <= productExponent <= 1000 && -1000 <= addendExponent <= 1000
    requires p == Scale(product as real, productExponent - 62)
    requires c == Scale(addend as real, addendExponent - 62)
    ensures -1000 <= exponent <= 1000 && l + r < 4 * WIDE && l + r > 0
    ensures y > 0.0 && z >= 0.0 && Aligned(l, y, r, z, WIDE / 2)
    ensures p == Scale(y, exponent - 62) && c == Scale(z, exponent - 62)
  {
    hide Scale, ShiftRightJam, ToOdd;
    l, r, exponent := product, addend, productExponent;
    y, z := product as real, addend as real;
    ScaleAtZero(y);
    ScaleAtZero(z);

    if productExponent > addendExponent {
      var distance := productExponent - addendExponent;
      r := ShiftRightJam(r, distance);
      z := Scale(z, -distance);
      WideAligned(product, addend, distance);
    } else if addendExponent > productExponent {
      var distance := addendExponent - productExponent;
      l := ShiftRightJam(l, distance);
      y := Scale(y, -distance);
      exponent := addendExponent;
      WideAligned(addend, product, distance);
      AlignedSwap(r, z, l, y, WIDE / 2);
    } else {
      ExactAligned(l, r, WIDE / 2);
    }
    WideRescale(product, productExponent, exponent, p);
    WideRescale(addend, addendExponent, exponent, c);
  }

  /** Adds or subtracts the aligned significands by the signs. */
  method SignedSum(l: u64, ps: bool, r: u64, cs: bool, ghost u: int, ghost y: real, ghost z: real,
                   ghost p: real, ghost c: real)
    returns (significand: u64, sign: bool, ghost x: real)
    requires l + r < 4 * WIDE && y > 0.0 && z >= 0.0 && Aligned(l, y, r, z, WIDE / 2)
    requires p == Scale(y, u) && c == Scale(z, u)
    ensures Wide(significand, x)
    ensures var sum := Negate(ps, p) + Negate(cs, c);
            if significand == 0 then sum == 0.0 && ps != cs
            else sum != 0.0 && sign == (sum < 0.0) && Abs(sum) == Scale(x, u)
  {
    hide Scale, ToOdd;
    UnscaleSum(y, z, u);
    ScaleNonNegative(y, u);
    ScaleNonNegative(z, u);
    if ps == cs {
      significand, sign, x := l + r, ps, y + z;
    } else if l >= r {
      significand, sign, x := l - r, ps, y - z;
    } else {
      significand, sign, x := r - l, cs, z - y;
    }
  }

  method WideProduct(lhs: UnpackedFp32, rhs: UnpackedFp32, ghost a: real, ghost b: real, ghost p: real)
    returns (significand: u64, exponent: i32)
    requires lhs.Encodes(a) && rhs.Encodes(b) && p == Times(a, b)
    ensures WIDE <= significand < 2 * WIDE && significand % 2 == 0 && -400 <= exponent <= 400
    ensures p == Scale(significand as real, exponent - 62)
  {
    ProductRange(lhs.significand, rhs.significand);
    ProductValue(lhs, a, rhs, b);
    hide Scale;
    var product: u64 := lhs.significand * rhs.significand;
    var productAtLeastTwo := Bit(product, 47);
    WidenProductRange(product, productAtLeastTwo);
    WidenProductValue(product, productAtLeastTwo, lhs.exponent + rhs.exponent, p);
    significand := WidenProduct(product, productAtLeastTwo);
    exponent := lhs.exponent + rhs.exponent + if productAtLeastTwo then 1 else 0;
  }

  method ComputeFma(lhs: UnpackedFp32, rhs: UnpackedFp32, addend: UnpackedFp32, productSign: bool, addendSign: bool,
                    ghost a: real, ghost b: real, ghost p: real, ghost c: real)
    returns (r: UnroundedFp32, ghost y: real)
    requires lhs.Encodes(a) && rhs.Encodes(b) && p == Times(a, b) && EncodesAddend(addend, c)
    ensures -2000 <= r.exponent <= 1000
    ensures r.significand == 0 ==> y == 0.0
    ensures Unrounded(r, productSign, p, addendSign, c, y)
  {
    hide Scale, ShiftRightJam, ToOdd, Tracks;
    var productSignificand, productExponent := WideProduct(lhs, rhs, a, b, p);

    WidenAddendRange(addend.significand);
    var addendSignificand: u64 := addend.significand * 0x80_0000_0000;
    var addendExponent := if addendSignificand == 0 then productExponent else addend.exponent;
    if addendSignificand == 0 {
      ScaleZero(addendExponent - 62);
    } else {
      ShiftLeft39(addend.significand, addend.exponent - 62);
    }

    var l, q, exponent;
    ghost var yl, yr;
    l, q, exponent, yl, yr :=
      AlignWide(productSignificand, productExponent, addendSignificand, addendExponent, p, c);
    var significand, sign;
    ghost var x;
    significand, sign, x := SignedSum(l, productSign, q, addendSign, exponent - 62, yl, yr, p, c);

    if significand == 0 {
      return UnroundedFp32(false, exponent, 0), 0.0;
    }

    significand, exponent, x := NormalizeWide(significand, exponent, x);
    WideJams(significand, x);
    ScaleScale(x, -36, exponent - 26);
    return UnroundedFp32(sign, exponent, ShiftRightJam(significand, 36)), Scale(x, -36);
  }

  /** The normalisation loop: shifts left until bit 62 or 63 is set. */
  method NormalizeWide(significand: u64, exponent: i32, ghost x: real) returns (s: u64, e: i32, ghost z: real)
    requires 0 < significand && Wide(significand, x) && -1000 <= exponent <= 1000
    ensures s >= WIDE && Wide(s, z) && exponent - 63 <= e <= exponent
    ensures Scale(z, e - 62) == Scale(x, exponent - 62)
  {
    hide Scale, Wide;
    s, e, z := significand, exponent, x;
    WideTopBits(s);
    while !(Bit(s, 62) || Bit(s, 63))
      invariant 0 < s && (Bit(s, 62) || Bit(s, 63) <==> s >= WIDE)
      invariant Wide(s, z) && Scale(z, e - 62) == Scale(x, exponent - 62)
      invariant exponent - 63 <= e <= exponent
      invariant Pow2(exponent - e) <= s
      decreases 4 * WIDE - s
    {
      NormalizationBound(s, exponent - e);
      WideDouble(s, z);
      ScaleHalf(z, e - 63);
      s := s * 2;
      e := e - 1;
      z := 2.0 * z;
      WideTopBits(s);
    }
  }

  lemma NormalizationBound(s: nat, k: nat)
    requires Pow2(k) <= s < WIDE
    ensures k < 62
    ensures Pow2(k + 1) <= 2 * s
  {
    Pow2Values();
    if k >= 62 {
      Pow2Mono(62, k);
    }
  }

  /** The exact sum by the signs the unit computes. */
  lemma FusedBySigns(negate: bool, v: real, ls: bool, a: real, w: real, rs: bool, b: real, p: real)
    requires a >= 0.0 && b >= 0.0 && v == Negate(ls, a) && w == Negate(rs, b) && p == Times(a, b)
    ensures p >= 0.0
    ensures a == 0.0 || b == 0.0 ==> p == 0.0
    ensures Negate(negate, Times(v, w)) == Negate((ls != rs) != negate, p)
  {
    SignedProduct(v, ls, a, w, rs, b, p);
    hide Times;
  }

  method FusedMultiplyAdd(op: FmaFpType, lhsRaw: u32, rhsRaw: u32, addendRaw: u32, rm: Mode) returns (r: FpResult)
    ensures r == FusedOf(op, lhsRaw, rhsRaw, addendRaw, rm)
  {
    hide MagValue, ClassOf, MagOf, SignOf, RoundedFused, UnpackedFp32.ToBits, UnpackedFp32.Encodes;
    var negateProduct, negateAddend := NegatesProduct(op), NegatesAddend(op);
    var lhs := Unpack(lhsRaw);
    var rhs := Unpack(rhsRaw);
    var addend := Unpack(addendRaw);
    var productSign := (lhs.sign != rhs.sign) != negateProduct;
    var addendSign := addend.sign != negateAddend;
    var lhsZero, rhsZero := lhs.fpClass == Zero, rhs.fpClass == Zero;
    var lhsInfinity, rhsInfinity := lhs.fpClass == Infinity, rhs.fpClass == Infinity;
    var addendInfinity := addend.fpClass == Infinity;
    var invalidProduct := (lhsZero && rhsInfinity) || (lhsInfinity && rhsZero);
    var anyNan := lhs.fpClass.IsNaN() || rhs.fpClass.IsNaN() || addend.fpClass.IsNaN();
    var signalingNan :=
      lhs.fpClass == SignalingNaN || rhs.fpClass == SignalingNaN || addend.fpClass == SignalingNaN;

    if anyNan || invalidProduct {
      return NaNResult(signalingNan || invalidProduct);
    }

    if lhsInfinity || rhsInfinity {
      if addendInfinity && productSign != addendSign {
        return InvalidResult();
      }
      return InfinityResult(productSign);
    }

    if addendInfinity {
      return InfinityResult(addendSign);
    }

    r := FusedFinite(lhs, lhsRaw, rhs, rhsRaw, addend, addendRaw, negateProduct, negateAddend, rm);
  }

  /** The path of fma on three finite operands. */
  method FusedFinite(lhs: UnpackedFp32, lhsRaw: u32, rhs: UnpackedFp32, rhsRaw: u32,
                     addend: UnpackedFp32, addendRaw: u32, negateProduct: bool, negateAddend: bool, rm: Mode)
    returns (r: FpResult)
    requires lhs.Unpacks(lhsRaw) && lhs.fpClass.IsFinite()
    requires rhs.Unpacks(rhsRaw) && rhs.fpClass.IsFinite()
    requires addend.Unpacks(addendRaw) && addend.fpClass.IsFinite()
    ensures r == RoundedFused(rm, negateProduct, ValueOf(lhsRaw), ValueOf(rhsRaw),
                              Negate(negateAddend, ValueOf(addendRaw)),
                              (lhs.sign != rhs.sign) != negateProduct, addend.sign != negateAddend)
  {
    hide MagValue, Scale, Times, ClassOf, MagOf, SignOf, RoundedReal, Rounded, UnpackedFp32.ToBits;
    var productSign := (lhs.sign != rhs.sign) != negateProduct;
    var addendSign := addend.sign != negateAddend;
    ghost var a, b, c := MagValue(MagOf(lhsRaw)), MagValue(MagOf(rhsRaw)), MagValue(MagOf(addendRaw));
    ghost var p := Times(a, b);
    MagNonNegative(MagOf(lhsRaw));
    MagNonNegative(MagOf(rhsRaw));
    FusedBySigns(negateProduct, ValueOf(lhsRaw), lhs.sign, a, ValueOf(rhsRaw), rhs.sign, b, p);
    ghost var sum := Negate(negateProduct, Times(ValueOf(lhsRaw), ValueOf(rhsRaw)))
                   + Negate(negateAddend, ValueOf(addendRaw));
    assert sum == Negate(productSign, p) + Negate(addendSign, c);

    if lhs.fpClass == Zero || rhs.fpClass == Zero {
      if addend.fpClass == Zero {
        return ZeroResult(if productSign == addendSign then productSign else rm == Rdn);
      }
      ClassIsNonzero(addendRaw);
      RepresentableSum(rm, sum, productSign == addendSign, productSign, addendSign, MagOf(addendRaw));
      return FpResult(MagOf(addendRaw) + SignWord(addendSign), 0);
    }

    r := FusedNonzero(lhs, rhs, addend, productSign, addendSign, rm, a, b, p, c);
  }

  /** The path of fma on a nonzero product; p and c are the exact magnitudes. */
  method FusedNonzero(lhs: UnpackedFp32, rhs: UnpackedFp32, addend: UnpackedFp32, productSign: bool, addendSign: bool,
                      rm: Mode, ghost a: real, ghost b: real, ghost p: real, ghost c: real)
    returns (r: FpResult)
    requires lhs.Encodes(a) && rhs.Encodes(b) && p == Times(a, b) && EncodesAddend(addend, c)
    ensures r == RoundedSum(rm, Negate(productSign, p) + Negate(addendSign, c), productSign == addendSign, productSign)
  {
    hide Scale, Times, Rounded;
    var result;
    ghost var y;
    result, y := ComputeFma(lhs, rhs, addend, productSign, addendSign, a, b, p, c);
    if result.significand == 0 {
      result := result.(sign := rm == Rdn);
      ScaleZero(result.exponent - 26);
      ZeroIsFixed(rm, rm == Rdn);
    }
    r := RoundAndPack(result.sign, result.exponent, result.significand, rm, y);
  }

  lemma ClassIsNonzero(raw: u32)
    requires ClassOf(raw).IsFinite() && ClassOf(raw) != Zero
    ensures 0 < MagOf(raw) < INFINITY
  {
  }
}
