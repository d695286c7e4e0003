/** Conversions between integers and binary32 (integer_to_float and float_to_integer of src/fpu.cpp). */
module Convert {
  import opened Words
  import opened Scaling
  import opened Ieee754
  import opened Jam
  import opened Pack
  import opened Operands

  /** The four integer formats: signed and unsigned words and doublewords. */
  datatype IntType = W | Wu | L | Lu {
    predicate Signed() { W? || L? }

    function Width(): nat { if W? || Wu? then 32 else 64 }

    function Min(): int {
      match this case W => -0x8000_0000 case L => -0x8000_0000_0000_0000 case _ => 0
    }

    function Max(): int {
      match this
      case W => 0x7fff_ffff
      case Wu => 0xffff_ffff
      case L => 0x7fff_ffff_ffff_ffff
      case Lu => 0xffff_ffff_ffff_ffff
    }
  }

  /** The integer a register holds, read as a value of type t. */
  function IntegerOf(t: IntType, operand: u64): (i: int)
    ensures t.Min() <= i <= t.Max()
  {
    match t
    case W => Signed32(operand % B32)
    case Wu => operand % B32
    case L => Signed(operand)
    case Lu => operand
  }

  /** How an integer of type t is kept in a register: 32-bit results are sign-extended. */
  function RegisterOf(t: IntType, i: int): (r: u64) {
    if t.Width() == 64 then Wrap(i) else SignExtendWord(Wrap32(i))
  }

  /** An integer rounded to binary32; zero is positive. */
  ghost function FloatOf(t: IntType, operand: u64, rm: Mode): FpResult {
    var i := IntegerOf(t, operand);
    if i == 0 then ZeroResult(false) else RoundedReal(rm, i as real)
  }

  // ---- integer_to_float

  /** ~v + 1 in a word of the given number of values. */
  function Negated(v: nat, modulus: nat): nat
    requires v < modulus
  {
    (modulus - 1 - v + 1) % modulus
  }

  function Magnitude(t: IntType, operand: u64): (bool, u64) {
    var word := operand % B32;
    match t
    case W => if Bit(word, 31) then (true, Negated(word, B32)) else (false, word)
    case Wu => (false, word)
    case L => if Bit(operand, 63) then (true, Negated(operand, B64)) else (false, operand)
    case Lu => (false, operand)
  }

  lemma MagnitudeIs(t: IntType, operand: u64)
    ensures var (sign, magnitude) := Magnitude(t, operand);
            var i := IntegerOf(t, operand);
            sign == (i < 0) && magnitude == if i < 0 then -i else i
  {
    var word := operand % B32;
    Pow2Values();
    TopBit(word, 31);
    TopBit(operand, 63);
    hide Bit, Pow2;
    if word > 0 {
      NegatedIs(word, B32);
    }
    if operand > 0 {
      NegatedIs(operand, B64);
    }
    hide Negated;
  }

  lemma NegatedIs(v: nat, modulus: nat)
    requires 0 < v < modulus
    ensures Negated(v, modulus) == modulus - v
  {
    DivModUnique(modulus - v, modulus, 0, modulus - v);
  }

  /** A value whose k-fold shift is one has k + 1 bits. */
  lemma {:induction false} LeadingBit(v: nat, k: nat)
    requires Shr(v, k) == 1
    ensures Pow2(k) <= v < Pow2(k + 1)
  {
    if k > 0 {
      LeadingBit(v / 2, k - 1);
    }
  }

  lemma ShrLess(v: nat, k: nat)
    ensures Shr(v, k + 1) == Shr(v, k) / 2
  {
    ShrAdd(v, k, 1);
    ShrOne(Shr(v, k));
  }

  lemma {:induction false} LiftScale(s: nat, n: nat, u: int)
    ensures Scale((s * Pow2(n)) as real, u) == Scale(s as real, u + n)
  {
    if n == 0 {
      assert Pow2(0) == 1;
    } else {
      LiftScale(s, n - 1, u + 1);
      ScaleHalf((s * Pow2(n - 1)) as real, u);
      LiftOnce(s, Pow2(n - 1), Pow2(n));
      ScaleSame((s * Pow2(n)) as real, 2.0 * (s * Pow2(n - 1)) as real, u);
    }
  }

  lemma LiftOnce(s: nat, p: nat, pp: nat)
    requires pp == 2 * p
    ensures (s * pp) as real == 2.0 * (s * p) as real
  {
    assert s * pp == 2 * (s * p);
  }

  /** A long integer brought down to bit 26, as round_and_pack wants it. */
  lemma LongSignificand(magnitude: u64, exponent: nat)
    requires Pow2(exponent) <= magnitude < Pow2(exponent + 1)
    requires exponent > 26
    ensures ShiftRightJam(magnitude, exponent - 26) < 0x800_0000
    ensures Represents(ShiftRightJam(magnitude, exponent - 26), Scale(magnitude as real, 26 - exponent))
  {
    Pow2Values();
    ScaleNonNegative(magnitude as real, 26 - exponent);
    hide Scale, Pow2, ShiftRightJam;
    JamRange(magnitude, exponent - 26, 26);
    ExactToOdd(magnitude);
    JamToOdd(magnitude, magnitude as real, exponent - 26);
    hide ToOdd;
  }

  /** A short integer brought up to bit 26 exactly. */
  lemma ShortSignificand(magnitude: u64, exponent: nat)
    requires Pow2(exponent) <= magnitude < Pow2(exponent + 1)
    requires exponent <= 26
    ensures magnitude * Pow2(26 - exponent) < 0x800_0000
    ensures Represents(magnitude * Pow2(26 - exponent), Scale(magnitude as real, 26 - exponent))
  {
    Pow2Values();
    ScaleNonNegative(magnitude as real, 26 - exponent);
    hide Scale, Pow2;
    LiftScale(magnitude, 26 - exponent, 0);
    ScaleAtZero((magnitude * Pow2(26 - exponent)) as real);
    Pow2Add(exponent + 1, 26 - exponent);
    MulStrict(magnitude, Pow2(exponent + 1), Pow2(26 - exponent));
    hide ToOdd;
  }

  lemma ExponentFits(magnitude: u64, exponent: nat)
    requires Pow2(exponent) <= magnitude
    ensures exponent <= 63
  {
    if exponent > 63 {
      Pow2Mono(64, exponent);
      Pow2Values();
    }
  }

  lemma MulStrict(a: nat, b: nat, c: nat)
    requires a < b && c > 0
    ensures a * c < b * c
  {
  }

  method IntegerToFloat(t: IntType, operand: u64, rm: Mode) returns (r: FpResult)
    ensures r == FloatOf(t, operand, rm)
  {
    hide Scale, Pow2, Shr, Rounded, Magnitude, ToOdd, ShiftRightJam, IntegerOf;
    var (sign, magnitude) := Magnitude(t, operand);
    MagnitudeIs(t, operand);
    if magnitude == 0 {
      return FpResult(0, 0);
    }

    var exponent: nat := 0;
    var value := magnitude;
    ShrZero(magnitude);
    while value > 1
      invariant value >= 1 && value == Shr(magnitude, exponent)
    {
      ShrLess(magnitude, exponent);
      exponent := exponent + 1;
      value := value / 2;
    }
    LeadingBit(magnitude, exponent);
    ExponentFits(magnitude, exponent);
    if exponent > 26 {
      LongSignificand(magnitude, exponent);
    } else {
      ShortSignificand(magnitude, exponent);
    }

    var significand := if exponent > 26 then ShiftRightJam(magnitude, exponent - 26)
                       else magnitude * Pow2(26 - exponent);
    ScaleScale(magnitude as real, 26 - exponent, exponent - 26);
    ScaleAtZero(magnitude as real);
    r := RoundAndPack(sign, exponent, significand, rm, Scale(magnitude as real, 26 - exponent));
  }

  lemma ShrZero(v: nat)
    ensures Shr(v, 0) == v
  {
  }

  // ---- float_to_integer

  /** v rounded to an integer (section 5.9 of IEEE 754-2019). */
  ghost function RoundToInteger(rm: Mode, v: real): int {
    var f := v.Floor;
    var above := v - f as real;
    if above == 0.0 then f
    else match rm
      case Rne => if above < 0.5 || (above == 0.5 && f % 2 == 0) then f else f + 1
      case Rtz => if v >= 0.0 then f else f + 1
      case Rdn => f
      case Rup => f + 1
      case Rmm => if above < 0.5 || (above == 0.5 && v < 0.0) then f else f + 1
  }

  /** The value delivered with NV: the bound the operand lies beyond, the upper one for a NaN. */
  function Saturated(t: IntType, nan: bool, sign: bool): FpResult {
    FpResult(RegisterOf(t, if nan || !sign then t.Max() else t.Min()), NV)
  }

  /** A number converted to an integer of type t. */
  ghost function IntegerResult(t: IntType, rm: Mode, v: real, sign: bool): FpResult {
    var i := RoundToInteger(rm, v);
    if t.Min() <= i <= t.Max() then FpResult(RegisterOf(t, i), if i as real == v then 0 else NX)
    else Saturated(t, false, sign)
  }

  ghost function IntegerFrom(t: IntType, raw: u32, rm: Mode): FpResult {
    var c := ClassOf(raw);
    if c.IsNaN() || c.Infinity? then Saturated(t, c.IsNaN(), SignOf(raw))
    else IntegerResult(t, rm, ValueOf(raw), SignOf(raw))
  }

  /** The rounding decision of float_to_integer on the bits shifted out. */
  function RoundsUp(rm: Mode, sign: bool, magnitude: nat, remainder: nat, halfway: nat, far: bool): bool {
    match rm
    case Rne => !far && (remainder > halfway || (remainder == halfway && magnitude % 2 != 0))
    case Rtz => false
    case Rdn => sign && remainder != 0
    case Rup => !sign && remainder != 0
    case Rmm => !far && remainder >= halfway
  }

  /** The decision in terms of the fraction shifted out. */
  predicate FractionRoundsUp(rm: Mode, sign: bool, odd: bool, fraction: real) {
    match rm
    case Rne => fraction > 0.5 || (fraction == 0.5 && odd)
    case Rtz => false
    case Rdn => sign && fraction != 0.0
    case Rup => !sign && fraction != 0.0
    case Rmm => fraction >= 0.5
  }

  /** Rounding the magnitude by the mode and the sign is rounding the number. */
  lemma RoundsPositive(rm: Mode, a: real, m: nat, fraction: real)
    requires a == m as real + fraction && 0.0 <= fraction < 1.0
    ensures RoundToInteger(rm, a) == m + if FractionRoundsUp(rm, false, m % 2 != 0, fraction) then 1 else 0
  {
    FloorIs(a, m);
  }

  lemma RoundsNegative(rm: Mode, a: real, m: int, fraction: real)
    requires m >= 0 && a == m as real + fraction && 0.0 <= fraction < 1.0 && a > 0.0
    ensures RoundToInteger(rm, -a) == -m - if FractionRoundsUp(rm, true, m % 2 != 0, fraction) then 1 else 0
  {
    if fraction == 0.0 {
      FloorIs(-a, -m);
    } else {
      FloorIs(-a, -m - 1);
      NextParity(m);
    }
  }

  lemma NextParity(m: int)
    ensures (-m - 1) % 2 == 0 <==> m % 2 != 0
  {
  }

  lemma FloorIs(v: real, f: int)
    requires f as real <= v < f as real + 1.0
    ensures v.Floor == f
  {
  }

  // ---- The operand as an integer part and a fraction.

  /** The fraction shifted out, compared with one half. */
  lemma FractionOf(s: nat, shift: nat, a: real, m: nat, rem: nat)
    requires shift >= 1 && a == Scale(s as real, -(shift as int))
    requires s == m * Pow2(shift) + rem && rem < Pow2(shift)
    ensures var fraction := a - m as real;
            && 0.0 <= fraction < 1.0
            && (fraction == 0.0 <==> rem == 0)
            && (fraction > 0.5 <==> rem > Pow2(shift - 1))
            && (fraction == 0.5 <==> rem == Pow2(shift - 1))
  {
    var p, h, u := Pow2(shift), Pow2(shift - 1), -(shift as int);
    ScaleAdd((m * p) as real, rem as real, u);
    LiftScale(m, shift, u);
    ScaleAtZero(m as real);
    UnitPowers(shift);
    ScaleCompare(rem as real, p as real, u);
    ScaleCompare(rem as real, h as real, u);
    ScaleZero(u);
    ScaleCompare(rem as real, 0.0, u);
    hide Pow2, Scale;
    assert s as real == (m * p) as real + rem as real;
    assert a == m as real + Scale(rem as real, u);
  }

  lemma UnitPowers(shift: nat)
    requires shift >= 1
    ensures Scale(Pow2(shift) as real, -(shift as int)) == 1.0
    ensures Scale(Pow2(shift - 1) as real, -(shift as int)) == 0.5
  {
    LiftScale(1, shift, -(shift as int));
    LiftScale(1, shift - 1, -(shift as int));
    assert 1 * Pow2(shift) == Pow2(shift) && 1 * Pow2(shift - 1) == Pow2(shift - 1);
    ScaleAtZero(1.0);
    ScaleHalf(1.0, 0);
    ScaleAtZero(0.5);
  }

  /** The bits shifted out decide as the fraction does, however far the shift. */
  lemma DecisionOf(rm: Mode, sign: bool, s: nat, shift: nat, a: real)
    requires 0 < s < 2 * HIDDEN && shift >= 1 && a == Scale(s as real, -(shift as int))
    ensures var far := shift >= 64;
            var m := if far then 0 else Shr(s, shift);
            var rem := if far then s else LowBits(s, shift);
            var halfway := if far then 0 else Pow2(shift - 1);
            var fraction := a - m as real;
            && 0.0 <= fraction < 1.0
            && (fraction == 0.0 <==> rem == 0) && m <= s
            && RoundsUp(rm, sign, m, rem, halfway, far) == FractionRoundsUp(rm, sign, m % 2 != 0, fraction)
  {
    ShrIsDivision(s, shift);
    if shift >= 64 {
      Pow2Mono(63, shift - 1);
      Pow2Values();
      assert Pow2(shift) == 2 * Pow2(shift - 1);
      hide Pow2;
      assert s == 0 * Pow2(shift) + s;
      FractionOf(s, shift, a, 0, s);
    } else {
      hide Pow2, Shr, LowBits;
      Euclid(s, Pow2(shift));
      FractionOf(s, shift, a, s / Pow2(shift), s % Pow2(shift));
    }
  }

  lemma Euclid(v: nat, d: nat)
    requires d > 0
    ensures v == (v / d) * d + v % d && v % d < d
  {
  }

  // ---- The conversion itself.

  /** What the magnitude computation knows about the rounded operand. */
  ghost predicate RoundedInto(rm: Mode, v: real, sign: bool, magnitude: nat, inexact: bool, overflow: bool) {
    var i := RoundToInteger(rm, v);
    if overflow then (if sign then i + B64 <= 0 else i >= B64)
    else i == (if sign then -(magnitude as int) else magnitude) && (inexact <==> i as real != v)
  }

  lemma IntegerIsFixed(rm: Mode, v: real, i: int)
    requires v == i as real
    ensures RoundToInteger(rm, v) == i
  {
    FloorIs(v, i);
  }

  /** An operand of exponent 23 or more is an integer. */
  lemma LargeOperand(rm: Mode, sign: bool, s: nat, shift: nat, a: real)
    requires a == Scale(s as real, shift)
    ensures RoundToInteger(rm, Negate(sign, a)) == if sign then -((s * Pow2(shift)) as int) else s * Pow2(shift)
    ensures RoundToInteger(rm, Negate(sign, a)) as real == Negate(sign, a)
  {
    LiftScale(s, shift, 0);
    ScaleAtZero((s * Pow2(shift)) as real);
    hide Scale, Pow2;
    var i: int := if sign then -((s * Pow2(shift)) as int) else s * Pow2(shift);
    IntegerIsFixed(rm, Negate(sign, a), i);
  }

  /** The guard that keeps the left shift inside 64 bits. */
  lemma ShiftGuard(s: nat, shift: nat)
    requires s >= HIDDEN
    ensures shift >= 64 || s > Shr(B64 - 1, shift) <==> s * Pow2(shift) >= B64
  {
    if shift >= 64 {
      Pow2Values();
      Pow2Mono(64, shift);
      hide Pow2;
      MulMono(1, s, Pow2(shift));
    } else {
      ShrIsDivision(B64 - 1, shift);
      hide Pow2, Shr;
      ShiftFits(s, Pow2(shift));
    }
  }

  lemma ShiftFits(s: nat, p: nat)
    requires p >= 1
    ensures s > (B64 - 1) / p <==> s * p >= B64
  {
    Euclid(B64 - 1, p);
    var q := (B64 - 1) / p;
    if s > q {
      MulMono(q + 1, s, p);
    } else {
      MulMono(s, q, p);
    }
  }

  method MagnitudeOf(operand: UnpackedFp32, rm: Mode, ghost a: real)
    returns (magnitude: u64, inexact: bool, overflow: bool)
    requires operand.Encodes(a)
    ensures RoundedInto(rm, Negate(operand.sign, a), operand.sign, magnitude, inexact, overflow)
  {
    var sign, significand: u64 := operand.sign, operand.significand;
    if operand.exponent >= 23 {
      magnitude, overflow := LargeMagnitude(sign, significand, operand.exponent - 23, rm, a);
      inexact := false;
    } else {
      ScaleNonNegative(significand as real, operand.exponent - 23);
      magnitude, inexact, overflow := SmallMagnitude(sign, significand, 23 - operand.exponent, rm, a);
    }
  }

  /** An operand without fraction bits: shifted left, unless that leaves 64 bits. */
  method LargeMagnitude(sign: bool, significand: u64, shift: nat, rm: Mode, ghost a: real)
    returns (magnitude: u64, overflow: bool)
    requires significand >= HIDDEN && a == Scale(significand as real, shift)
    ensures RoundedInto(rm, Negate(sign, a), sign, magnitude, false, overflow)
  {
    LargeOperand(rm, sign, significand, shift, a);
    ShiftGuard(significand, shift);
    hide Scale, Pow2, Shr, RoundToInteger;
    magnitude, overflow := 0, false;
    if shift >= 64 || significand > Shr(B64 - 1, shift) {
      overflow := true;
    } else {
      magnitude := significand * Pow2(shift);
    }
  }

  /** An operand with fraction bits: shifted right and rounded. The guard against 2^64 - 1 never fires. */
  method SmallMagnitude(sign: bool, significand: u64, shift: nat, rm: Mode, ghost a: real)
    returns (magnitude: u64, inexact: bool, overflow: bool)
    requires 0 < significand < 2 * HIDDEN && shift >= 1 && a > 0.0
    requires a == Scale(significand as real, -(shift as int))
    ensures RoundedInto(rm, Negate(sign, a), sign, magnitude, inexact, overflow)
  {
    DecisionOf(rm, sign, significand, shift, a);
    hide Scale, Pow2, Shr, LowBits, RoundToInteger, RoundsUp, FractionRoundsUp;
    magnitude, overflow := 0, false;
    var remainder: u64 := significand;
    var halfway: nat := 0;
    if shift < 64 {
      magnitude := Shr(significand, shift);
      remainder := LowBits(significand, shift);
      halfway := Pow2(shift - 1);
    }
    inexact := remainder != 0;
    RoundsBySign(rm, sign, a, magnitude, a - magnitude as real);
    if RoundsUp(rm, sign, magnitude, remainder, halfway, shift >= 64) {
      if magnitude == B64 - 1 {
        overflow := true;
      } else {
        magnitude := magnitude + 1;
      }
    }
  }

  lemma RoundsBySign(rm: Mode, sign: bool, a: real, m: nat, fraction: real)
    requires a == m as real + fraction && 0.0 <= fraction < 1.0 && a > 0.0
    ensures var i := m + if FractionRoundsUp(rm, sign, m % 2 != 0, fraction) then 1 else 0;
            && RoundToInteger(rm, Negate(sign, a)) == (if sign then -i else i)
            && (i as real == a <==> fraction == 0.0)
  {
    if sign {
      RoundsNegative(rm, a, m, fraction);
    } else {
      RoundsPositive(rm, a, m, fraction);
    }
    hide RoundToInteger;
  }

  function EncodeIntegerResult(sign: bool, magnitude: u64, width: nat): u64 {
    var value := if sign then Negated(magnitude, B64) else magnitude;
    if width == 64 then value
    else
      var word := value % B32;
      if Bit(word, 31) then (B64 - B32) + word else word
  }

  lemma EncodesInteger(t: IntType, sign: bool, magnitude: u64)
    ensures EncodeIntegerResult(sign, magnitude, t.Width())
      == RegisterOf(t, if sign then -(magnitude as int) else magnitude)
  {
    hide Negated, Bit, Pow2;
    var i: int := if sign then -(magnitude as int) else magnitude;
    var value := if sign then Negated(magnitude, B64) else magnitude;
    var k := if sign && magnitude > 0 then 1 else 0;
    if sign && magnitude > 0 {
      NegatedIs(magnitude, B64);
    } else if sign {
      NegatedZero();
    }
    WrapsOnce(i, value, k);
    Pow2Values();
    TopBit(value % B32, 31);
  }

  lemma NegatedZero()
    ensures Negated(0, B64) == 0
  {
  }

  lemma WrapsOnce(i: int, value: nat, k: int)
    requires 0 <= value < B64 && value == i + k * B64
    ensures i % B64 == value && i % B32 == value % B32
  {
    DivModUnique(i, B64, -k, value);
    DivModUnique(i, B32, value / B32 - k * B32, value % B32);
  }

  method FloatToInteger(t: IntType, operandRaw: u32, rm: Mode) returns (r: FpResult)
    ensures r == IntegerFrom(t, operandRaw, rm)
  {
    hide MagValue, ClassOf, MagOf, SignOf, RoundToInteger, UnpackedFp32.ToBits, UnpackedFp32.Encodes;
    var operand := Unpack(operandRaw);
    var nan := operand.fpClass.IsNaN();

    if nan || operand.fpClass == Infinity {
      r := InvalidInteger(t, nan, operand.sign);
      return;
    }

    if operand.fpClass == Zero {
      IntegerIsFixed(rm, ValueOf(operandRaw), 0);
      return FpResult(0, 0);
    }

    r := FiniteToInteger(t, operand, rm, MagValue(MagOf(operandRaw)));
  }

  /** The saturated result, by the bounds the source lists for each width. */
  method InvalidInteger(t: IntType, nan: bool, sign: bool) returns (r: FpResult)
    ensures r == Saturated(t, nan, sign)
  {
    var width := t.Width();
    var signedMax: u64 := if width == 32 then 0x7fff_ffff else 0x7fff_ffff_ffff_ffff;
    var signedMinMagnitude: u64 := if width == 32 then 0x8000_0000 else 0x8000_0000_0000_0000;
    var unsignedMax: u64 := if width == 32 then 0xffff_ffff else 0xffff_ffff_ffff_ffff;
    EncodesInteger(t, false, if t.Signed() then signedMax else unsignedMax);
    EncodesInteger(t, true, signedMinMagnitude);
    hide EncodeIntegerResult;
    if nan || !sign {
      return FpResult(EncodeIntegerResult(false, if t.Signed() then signedMax else unsignedMax, width), NV);
    }
    return FpResult(if t.Signed() then EncodeIntegerResult(true, signedMinMagnitude, width) else 0, NV);
  }

  /** The path of float_to_integer on a nonzero number of magnitude a. */
  method FiniteToInteger(t: IntType, operand: UnpackedFp32, rm: Mode, ghost a: real) returns (r: FpResult)
    requires operand.Encodes(a)
    ensures r == IntegerResult(t, rm, Negate(operand.sign, a), operand.sign)
  {
    hide RoundToInteger, EncodeIntegerResult, RegisterOf;
    var sign, width := operand.sign, t.Width();
    var magnitude, inexact, overflow := MagnitudeOf(operand, rm, a);
    if !overflow {
      if t.Signed() {
        var limit: u64 := if sign then (if width == 32 then 0x8000_0000 else 0x8000_0000_0000_0000)
                          else (if width == 32 then 0x7fff_ffff else 0x7fff_ffff_ffff_ffff);
        overflow := magnitude > limit;
      } else {
        overflow := (sign && magnitude != 0) || magnitude > if width == 32 then 0xffff_ffff else 0xffff_ffff_ffff_ffff;
      }
    }

    if overflow {
      r := InvalidInteger(t, false, sign);
      return;
    }
    EncodesInteger(t, sign, magnitude);
    return FpResult(EncodeIntegerResult(sign, magnitude, width), if inexact then NX else 0);
  }
}
