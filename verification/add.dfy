/** Addition and subtraction (add_or_sub of src/fpu.cpp). */
module Add {
  import opened Words
  import opened Scaling
  import opened Ieee754
  import opened Jam
  import opened Alignment
  import opened Pack
  import opened Operands

  /** lhs + rhs, or lhs - rhs, as section 6 and 7 of IEEE 754-2019 define it. */
  ghost function SumOf(lhs: u32, rhs: u32, subtract: bool, rm: Mode): FpResult {
    var ls, rs := SignOf(lhs), SignOf(rhs) != subtract;
    var lc, rc := ClassOf(lhs), ClassOf(rhs);
    if lc.IsNaN() || rc.IsNaN() then NaNResult(lc.SignalingNaN? || rc.SignalingNaN?)
    else if lc.Infinity? && rc.Infinity? && ls != rs then InvalidResult()
    else if lc.Infinity? then InfinityResult(ls)
    else if rc.Infinity? then InfinityResult(rs)
    else RoundedSum(rm, ValueOf(lhs) + Negate(subtract, ValueOf(rhs)), ls == rs, ls)
  }

  /** Up to three places, alignment with three guard bits loses nothing. */
  lemma AlignNear(s: u32, distance: nat)
    requires HIDDEN <= s < 2 * HIDDEN && distance <= 3
    ensures ShiftRightJam(8 * s, distance) as real == Scale((8 * s) as real, -(distance as int))
    ensures distance == 3 ==> ShiftRightJam(8 * s, distance) == s
  {
    var y := (8 * s) as real;
    JamEven(8 * s);
    JamEven(4 * s);
    JamEven(2 * s);
    ScaleHalf(y, 0);
    ScaleHalf(y, -1);
    ScaleHalf(y, -2);
    if distance >= 2 {
      JamComposes(8 * s, 1, 1);
    }
    if distance >= 3 {
      JamComposes(8 * s, 2, 1);
    }
  }

  /** Further away the aligned operand is rounded to odd, and small. */
  lemma AlignFar(s: u32, distance: nat)
    requires HIDDEN <= s < 2 * HIDDEN && distance >= 4
    ensures ToOdd(ShiftRightJam(8 * s, distance), Scale((8 * s) as real, -(distance as int)))
    ensures ShiftRightJam(8 * s, distance) <= HIDDEN
  {
    ExactToOdd(8 * s);
    JamToOdd(8 * s, (8 * s) as real, distance);
    AlignNear(s, 3);
    JamComposes(8 * s, 3, distance - 3);
    JamComposes(s, 1, distance - 4);
    JamHalves(s, HIDDEN);
    JamShrinks(ShiftRightJam(s, 1), distance - 4);
  }

  lemma AlignedNear(sa: u32, sb: u32, distance: nat)
    requires HIDDEN <= sa < 2 * HIDDEN && HIDDEN <= sb < 2 * HIDDEN
    requires distance <= 3
    ensures Aligned(8 * sa, (8 * sa) as real,
                    ShiftRightJam(8 * sb, distance), Scale((8 * sb) as real, -(distance as int)), 0x200_0000)
    ensures 8 * sa + ShiftRightJam(8 * sb, distance) < 32 * HIDDEN
  {
    AlignNear(sb, distance);
    JamShrinks(8 * sb, distance);
    ExactAligned(8 * sa, ShiftRightJam(8 * sb, distance), 0x200_0000);
  }

  lemma AlignedFar(sa: u32, sb: u32, distance: nat)
    requires HIDDEN <= sa < 2 * HIDDEN && HIDDEN <= sb < 2 * HIDDEN
    requires distance >= 4
    ensures Aligned(8 * sa, (8 * sa) as real,
                    ShiftRightJam(8 * sb, distance), Scale((8 * sb) as real, -(distance as int)), 0x200_0000)
    ensures 8 * sa + ShiftRightJam(8 * sb, distance) < 32 * HIDDEN
  {
    hide ShiftRightJam, Scale, ToOdd;
    AlignFar(sb, distance);
    ScaleNonNegative((8 * sb) as real, -(distance as int));
    LossyAligned(8 * sa, ShiftRightJam(8 * sb, distance), Scale((8 * sb) as real, -(distance as int)), 0x200_0000);
  }

  /** Three guard bits are enough. */
  lemma AlignedSum(sa: u32, sb: u32, distance: nat)
    requires HIDDEN <= sa < 2 * HIDDEN && HIDDEN <= sb < 2 * HIDDEN
    ensures Aligned(8 * sa, (8 * sa) as real,
                    ShiftRightJam(8 * sb, distance), Scale((8 * sb) as real, -(distance as int)), 0x200_0000)
    ensures 8 * sa + ShiftRightJam(8 * sb, distance) < 32 * HIDDEN
  {
    if distance <= 3 {
      AlignedNear(sa, sb, distance);
    } else {
      AlignedFar(sa, sb, distance);
    }
  }

  method AddOrSub(lhsRaw: u32, rhsRaw: u32, subtract: bool, rm: Mode) returns (r: FpResult)
    ensures r == SumOf(lhsRaw, rhsRaw, subtract, rm)
  {
    hide MagValue, ClassOf, MagOf, SignOf, RoundedSum, UnpackedFp32.ToBits, UnpackedFp32.Encodes;
    var lhs := Unpack(lhsRaw);
    var rhs := Unpack(rhsRaw);
    var rhsSign := rhs.sign != subtract;

    if lhs.fpClass.IsNaN() || rhs.fpClass.IsNaN() {
      return NaNResult(lhs.fpClass == SignalingNaN || rhs.fpClass == SignalingNaN);
    }

    if lhs.fpClass == Infinity || rhs.fpClass == Infinity {
      if lhs.fpClass == Infinity && rhs.fpClass == Infinity && lhs.sign != rhsSign {
        return InvalidResult();
      }
      return InfinityResult(if lhs.fpClass == Infinity then lhs.sign else rhsSign);
    }

    r := AddFinite(lhs, lhsRaw, rhs, rhsRaw, rhsSign, rm, Negate(subtract, ValueOf(rhsRaw)));
  }

  /** The path of add_or_sub on two finite operands. */
  method AddFinite(lhs: UnpackedFp32, lhsRaw: u32, rhs: UnpackedFp32, rhsRaw: u32, rhsSign: bool, rm: Mode,
                   ghost addend: real)
    returns (r: FpResult)
    requires lhs.Unpacks(lhsRaw) && lhs.fpClass.IsFinite()
    requires rhs.Unpacks(rhsRaw) && rhs.fpClass.IsFinite()
    requires addend == Negate(rhsSign, MagValue(MagOf(rhsRaw)))
    ensures r == RoundedSum(rm, ValueOf(lhsRaw) + addend, lhs.sign == rhsSign, lhs.sign)
  {
    hide MagValue, Scale;
    ghost var a, b := MagValue(MagOf(lhsRaw)), MagValue(MagOf(rhsRaw));
    ghost var sum := Negate(lhs.sign, a) + Negate(rhsSign, b);

    if lhs.fpClass == Zero && rhs.fpClass == Zero {
      assert sum == 0.0;
      return ZeroResult(if lhs.sign == rhsSign then lhs.sign else rm == Rdn);
    }

    if lhs.fpClass == Zero {
      RepresentableSum(rm, sum, lhs.sign == rhsSign, lhs.sign, rhsSign, MagOf(rhsRaw));
      return FpResult(MagOf(rhsRaw) + SignWord(rhsSign), 0);
    }

    if rhs.fpClass == Zero {
      RepresentableSum(rm, sum, lhs.sign == rhsSign, lhs.sign, lhs.sign, MagOf(lhsRaw));
      return FpResult(lhsRaw, 0);
    }

    var lhsSignificand, rhsSignificand, exponent;
    ghost var y, z;
    lhsSignificand, rhsSignificand, exponent, y, z := Align(lhs, rhs, a, b);
    r := AddAligned(lhs.sign, lhsSignificand, rhsSign, rhsSignificand, exponent, rm, y, z, a, b);
  }

  /** Brings both significands to the larger exponent; y and z are a and b in its units. */
  method Align(lhs: UnpackedFp32, rhs: UnpackedFp32, ghost a: real, ghost b: real)
    returns (lhsSignificand: u64, rhsSignificand: u64, exponent: i32, ghost y: real, ghost z: real)
    requires lhs.Encodes(a) && rhs.Encodes(b)
    ensures -149 <= exponent <= 127
    ensures y > 0.0 && z > 0.0 && Aligned(lhsSignificand, y, rhsSignificand, z, 0x200_0000)
    ensures lhsSignificand + rhsSignificand < 32 * HIDDEN
    ensures a == Scale(y, exponent - 26) && b == Scale(z, exponent - 26)
  {
    hide Scale, ShiftRightJam, ToOdd;
    exponent := lhs.exponent;
    lhsSignificand := lhs.significand * 8;
    rhsSignificand := rhs.significand * 8;
    y, z := (8 * lhs.significand) as real, (8 * rhs.significand) as real;

    if lhs.exponent > rhs.exponent {
      z := Scale(z, rhs.exponent - lhs.exponent);
      AlignedSum(lhs.significand, rhs.significand, lhs.exponent - rhs.exponent);
      rhsSignificand := ShiftRightJam(rhsSignificand, lhs.exponent - rhs.exponent);
    } else if rhs.exponent > lhs.exponent {
      y := Scale(y, lhs.exponent - rhs.exponent);
      AlignedSum(rhs.significand, lhs.significand, rhs.exponent - lhs.exponent);
      lhsSignificand := ShiftRightJam(lhsSignificand, rhs.exponent - lhs.exponent);
      AlignedSwap(rhsSignificand, z, lhsSignificand, y, 0x200_0000);
      exponent := rhs.exponent;
    } else {
      ExactAligned(lhsSignificand, rhsSignificand, 0x200_0000);
    }
    ScaleAtZero((8 * lhs.significand) as real);
    ScaleAtZero((8 * rhs.significand) as real);
    Rescale(lhs.significand, lhs.exponent, exponent, a, y);
    Rescale(rhs.significand, rhs.exponent, exponent, b, z);
  }

  /** The end of add_or_sub: the aligned significands are added or subtracted. */
  method AddAligned(lhsSign: bool, lhsSignificand: u64, rhsSign: bool, rhsSignificand: u64,
                    exponent: i32, rm: Mode, ghost y: real, ghost z: real, ghost a: real, ghost b: real)
    returns (r: FpResult)
    requires -200 <= exponent <= 200
    requires y > 0.0 && z > 0.0 && Aligned(lhsSignificand, y, rhsSignificand, z, 0x200_0000)
    requires lhsSignificand + rhsSignificand < 32 * HIDDEN
    requires a == Scale(y, exponent - 26) && b == Scale(z, exponent - 26)
    ensures r == RoundedSum(rm, Negate(lhsSign, a) + Negate(rhsSign, b), lhsSign == rhsSign, lhsSign)
  {
    hide Scale, Rounded, RoundedSum;
    SumInUnits(rm, lhsSign, y, rhsSign, z, exponent - 26, a, b);

    if lhsSign == rhsSign {
      r := RoundAndPack(lhsSign, exponent, lhsSignificand + rhsSignificand, rm, y + z);
      return;
    }

    if lhsSignificand == rhsSignificand {
      return ZeroResult(rm == Rdn);
    }

    if lhsSignificand > rhsSignificand {
      r := RoundAndPack(lhsSign, exponent, lhsSignificand - rhsSignificand, rm, y - z);
    } else {
      r := RoundAndPack(rhsSign, exponent, rhsSignificand - lhsSignificand, rm, z - y);
    }
  }

  /** An operand of magnitude a, in units of the lowest guard bit of exponent e. */
  lemma Rescale(s: nat, from: int, e: int, a: real, y: real)
    requires s > 0 && a == Scale(s as real, from - 23)
    requires y == Scale((8 * s) as real, from - e)
    ensures a == Scale(y, e - 26) && y > 0.0
  {
    ScaleScale((8 * s) as real, from - e, e - 26);
    ScaleEight(s as real, from - 26);
    ScaleNonNegative((8 * s) as real, from - e);
  }
}
