/**
 * What the operations of the unit deliver, in terms of words, signs and real values alone: every operand that is not a
 * number is covered, and every variant is written out.
 */
module Specials {
  import opened Words
  import opened Scaling
  import opened Ieee754
  import opened Theorems
  import Compare
  import Add
  import Mul
  import Div
  import Sqrt
  import Fma
  import Convert
  import FpuUnit
  import ExceptionFlags

  // ---- Words.

  /** The classes by exponent and fraction field (section 3.4 of IEEE 754-2019). */
  lemma ClassByFields(raw: u32)
    ensures var e, f := raw / 0x80_0000 % 256, raw % 0x80_0000;
            && (SignOf(raw) <==> raw / 0x8000_0000 == 1)
            && ClassOf(raw) == (if e == 0 then (if f == 0 then Zero else Subnormal)
                                else if e < 255 then Normal
                                else if f == 0 then Infinity
                                else if f < 0x40_0000 then SignalingNaN else QuietNaN)
  {
    FieldsSplit(raw);
  }

  /** The real value by exponent and fraction field. */
  lemma ValueByFields(raw: u32)
    ensures var e, f := raw / 0x80_0000 % 256, raw % 0x80_0000;
            && (e == 0 ==> Abs(ValueOf(raw)) == Scale(f as real, -149))
            && (0 < e < 255 ==> Abs(ValueOf(raw)) == Scale((0x80_0000 + f) as real, e - 150))
            && (raw >= 0x8000_0000 ==> ValueOf(raw) <= 0.0) && (raw < 0x8000_0000 ==> ValueOf(raw) >= 0.0)
  {
    FieldsSplit(raw);
    MagNonNegative(MagOf(raw));
    hide Scale;
  }

  lemma FieldsSplit(raw: u32)
    ensures raw / 0x80_0000 % 256 == MagOf(raw) / HIDDEN && raw % 0x80_0000 == MagOf(raw) % HIDDEN
    ensures MagOf(raw) == raw % 0x8000_0000
  {
    var m := MagOf(raw);
    DivModUnique(raw, HIDDEN, m / HIDDEN + (if SignOf(raw) then 256 else 0), m % HIDDEN);
    DivModUnique(m / HIDDEN + (if SignOf(raw) then 256 else 0), 256, if SignOf(raw) then 1 else 0, m / HIDDEN);
    DivModUnique(raw, 0x8000_0000, if SignOf(raw) then 1 else 0, m);
  }

  function Infinite(negative: bool): FpResult { FpResult(if negative then 0xff80_0000 else 0x7f80_0000, 0) }

  function Nought(negative: bool): FpResult { FpResult(if negative then 0x8000_0000 else 0, 0) }

  /** The canonical NaN, with NV if the operation is invalid. */
  function NotANumber(invalid: bool): FpResult { FpResult(0x7fc0_0000, if invalid then 0x10 else 0) }

  predicate Signals(raw: u32) { ClassOf(raw) == SignalingNaN }

  predicate IsNaN(raw: u32) { ClassOf(raw) == SignalingNaN || ClassOf(raw) == QuietNaN }

  predicate IsInfinite(raw: u32) { ClassOf(raw) == Infinity }

  predicate IsZero(raw: u32) { ClassOf(raw) == Zero }

  predicate IsNumber(raw: u32) { !IsNaN(raw) && !IsInfinite(raw) }

  // ---- Flags.

  /** The flag word of a rounding: overflow, underflow and inexact are bits 2, 1 and 0. */
  lemma RoundingFlags(rm: Mode, negative: bool, x: real)
    requires x > 0.0
    ensures var r := Rounded(rm, negative, x);
            && r.flags == (if ExceptionFlags.TooLarge(rm, negative, x) then 0x5
                           else if !ExceptionFlags.Inexact(rm, negative, x) then 0x0
                           else if r.value % 0x8000_0000 < 0x80_0000 then 0x3 else 0x1)
            && r.value == RoundMagnitude(rm, negative, x) + if negative then 0x8000_0000 else 0
  {
    ExceptionFlags.OverflowIsStandard(rm, negative, x);
    var m := RoundMagnitude(rm, negative, x);
    MagMono(HIDDEN, MAX_FINITE);
    hide MagValue, RoundMagnitude, ExceptionFlags.TooLarge;
    DivModUnique(SignWord(negative) + m, 0x8000_0000, if negative then 1 else 0, m);
    ExceptionFlags.UnitOverflow(rm, negative, x);
  }

  // ---- Addition and multiplication. Subtraction is addition of the changed sign (AddCommutes).

  /** Sums of two words. */
  lemma Sums(a: u32, b: u32, rm: Mode)
    ensures var r := Add.SumOf(a, b, false, rm);
            && (IsNaN(a) || IsNaN(b) ==> r == NotANumber(Signals(a) || Signals(b)))
            && (IsInfinite(a) && IsInfinite(b) ==>
                r == if SignOf(a) == SignOf(b) then Infinite(SignOf(a)) else NotANumber(true))
            && (IsInfinite(a) && IsNumber(b) ==> r == Infinite(SignOf(a)))
            && (IsNumber(a) && IsInfinite(b) ==> r == Infinite(SignOf(b)))
            && (IsNumber(a) && IsNumber(b) && ValueOf(a) + ValueOf(b) != 0.0
                ==> r == RoundedReal(rm, ValueOf(a) + ValueOf(b)))
            && (IsNumber(a) && IsNumber(b) && ValueOf(a) + ValueOf(b) == 0.0
                ==> r == Nought(if SignOf(a) == SignOf(b) then SignOf(a) else rm == Rdn))
  {
    hide ClassOf, SignOf, MagOf, ValueOf, RoundedReal;
  }

  lemma Products(a: u32, b: u32, rm: Mode)
    ensures var r, negative := Mul.ProductOf(a, b, rm), SignOf(a) != SignOf(b);
            && (IsNaN(a) || IsNaN(b) ==> r == NotANumber(Signals(a) || Signals(b)))
            && ((IsInfinite(a) && IsZero(b)) || (IsZero(a) && IsInfinite(b)) ==> r == NotANumber(true))
            && (IsInfinite(a) && !IsNaN(b) && !IsZero(b) ==> r == Infinite(negative))
            && (IsInfinite(b) && !IsNaN(a) && !IsZero(a) ==> r == Infinite(negative))
            && (IsNumber(a) && IsNumber(b) && ValueOf(a) * ValueOf(b) != 0.0
                ==> r == RoundedReal(rm, ValueOf(a) * ValueOf(b)))
            && (IsNumber(a) && IsNumber(b) && ValueOf(a) * ValueOf(b) == 0.0 ==> r == Nought(negative))
  {
    hide ClassOf, SignOf, MagOf, ValueOf, RoundedReal;
  }

  // ---- Division and square root.

  lemma Quotients(a: u32, b: u32, rm: Mode)
    ensures var r, negative := Div.QuotientOf(a, b, rm), SignOf(a) != SignOf(b);
            && (IsNaN(a) || IsNaN(b) ==> r == NotANumber(Signals(a) || Signals(b)))
            && ((IsInfinite(a) && IsInfinite(b)) || (IsZero(a) && IsZero(b)) ==> r == NotANumber(true))
            && (!IsNaN(a) && !IsZero(a) && IsZero(b) ==> r == Infinite(negative).(flags := 0x8))
            && (IsInfinite(a) && IsNumber(b) && !IsZero(b) ==> r == Infinite(negative))
            && (IsNumber(a) && IsInfinite(b) ==> r == Nought(negative))
            && (IsZero(a) && IsNumber(b) && !IsZero(b) ==> r == Nought(negative))
  {
    hide SignOf, MagOf, RoundedReal;
    if IsZero(a) {
      Div.NonzeroValue(a);
    }
    hide ClassOf, ValueOf;
  }

  /** The quotient of nonzero numbers. */
  lemma NumberQuotients(a: u32, b: u32, rm: Mode)
    requires IsNumber(a) && IsNumber(b) && !IsZero(a) && !IsZero(b)
    ensures ValueOf(b) != 0.0 && Div.QuotientOf(a, b, rm) == RoundedReal(rm, ValueOf(a) / ValueOf(b))
  {
    hide SignOf, MagOf, RoundedReal;
    Div.NonzeroValue(a);
    Div.NonzeroValue(b);
    hide ClassOf, ValueOf;
  }

  /** Square roots; those of positive numbers are Sqrt.RootNeighbours and Sqrt.RootIsRoot. */
  lemma Roots(a: u32, rm: Mode)
    ensures var r := Sqrt.RootOf(a, rm);
            && (IsNaN(a) ==> r == NotANumber(Signals(a)))
            && (IsZero(a) ==> r == FpResult(a, 0))
            && (!IsNaN(a) && !IsZero(a) && SignOf(a) ==> r == NotANumber(true))
            && (IsInfinite(a) && !SignOf(a) ==> r == Infinite(false))
            && (IsNumber(a) && !IsZero(a) && !SignOf(a)
                ==> Sqrt.RootInRange(ValueOf(a)) && r == Sqrt.RoundedRoot(rm, ValueOf(a)))
  {
    if ClassOf(a).IsFinite() && !SignOf(a) {
      Sqrt.RootOfFinite(a);
    }
    hide ClassOf, SignOf, MagOf, ValueOf, Sqrt.RootInRange, Sqrt.RoundedRoot;
  }

  // ---- Fused multiply-add.

  /** The other variants are the plain one on operands with changed signs. */
  lemma FusedVariants(a: u32, b: u32, c: u32, rm: Mode)
    ensures Fma.FusedOf(Fma.MSub, a, b, c, rm) == Fma.FusedOf(Fma.MAdd, a, b, Flip(c), rm)
    ensures Fma.FusedOf(Fma.NmSub, a, b, c, rm) == Fma.FusedOf(Fma.MAdd, Flip(a), b, c, rm)
    ensures Fma.FusedOf(Fma.NmAdd, a, b, c, rm) == Fma.FusedOf(Fma.MAdd, Flip(a), b, Flip(c), rm)
  {
    hide Fma.FusedOf, Flip;
    SubtractsAddend(a, b, c, rm);
    NegatesProduct(a, b, c, rm);
    NegatesBoth(a, b, c, rm);
  }

  lemma SubtractsAddend(a: u32, b: u32, c: u32, rm: Mode)
    ensures Fma.FusedOf(Fma.MSub, a, b, c, rm) == Fma.FusedOf(Fma.MAdd, a, b, Flip(c), rm)
  {
    hide ClassOf, SignOf, MagOf, ValueOf, Flip, Times, RoundedSum, InfinityResult, NaNResult, InvalidResult;
    FlipFacts(c);
  }

  lemma NegatesProduct(a: u32, b: u32, c: u32, rm: Mode)
    ensures Fma.FusedOf(Fma.NmSub, a, b, c, rm) == Fma.FusedOf(Fma.MAdd, Flip(a), b, c, rm)
  {
    hide ClassOf, SignOf, MagOf, ValueOf, Flip, Times, RoundedSum, InfinityResult, NaNResult, InvalidResult;
    FlipFacts(a);
    TimesNegated(ValueOf(a), ValueOf(b));
  }

  lemma NegatesBoth(a: u32, b: u32, c: u32, rm: Mode)
    ensures Fma.FusedOf(Fma.NmAdd, a, b, c, rm) == Fma.FusedOf(Fma.MAdd, Flip(a), b, Flip(c), rm)
  {
    hide ClassOf, SignOf, MagOf, ValueOf, Flip, Times, RoundedSum, InfinityResult, NaNResult, InvalidResult;
    FlipFacts(a);
    FlipFacts(c);
    TimesNegated(ValueOf(a), ValueOf(b));
  }

  lemma TimesNegated(v: real, w: real)
    ensures Times(-v, w) == -Times(v, w)
  {
  }

  /** The exact values of the four variants, each rounded once. */
  lemma FusedValues(a: u32, b: u32, c: u32, rm: Mode)
    requires IsNumber(a) && IsNumber(b) && IsNumber(c)
    ensures var p, x := Times(ValueOf(a), ValueOf(b)), ValueOf(c);
            && p == ValueOf(a) * ValueOf(b)
            && (p + x != 0.0 ==> Fma.FusedOf(Fma.MAdd, a, b, c, rm) == RoundedReal(rm, p + x))
            && (p - x != 0.0 ==> Fma.FusedOf(Fma.MSub, a, b, c, rm) == RoundedReal(rm, p - x))
            && (-p + x != 0.0 ==> Fma.FusedOf(Fma.NmSub, a, b, c, rm) == RoundedReal(rm, -p + x))
            && (-p - x != 0.0 ==> Fma.FusedOf(Fma.NmAdd, a, b, c, rm) == RoundedReal(rm, -p - x))
  {
    TimesIs(ValueOf(a), ValueOf(b));
    hide ClassOf, SignOf, MagOf, ValueOf, RoundedReal, Times;
    SubtractNegated(Times(ValueOf(a), ValueOf(b)), ValueOf(c));
  }

  lemma TimesIs(v: real, w: real)
    ensures Times(v, w) == v * w
  {
  }

  lemma SubtractNegated(p: real, x: real)
    ensures p + -x == p - x && -p + -x == -p - x
  {
  }

  /** Zero sums and operands that are not numbers, of the plain variant. */
  lemma FusedSpecials(a: u32, b: u32, c: u32, rm: Mode)
    ensures var r, negative := Fma.FusedOf(Fma.MAdd, a, b, c, rm), SignOf(a) != SignOf(b);
            var invalid := (IsInfinite(a) && IsZero(b)) || (IsZero(a) && IsInfinite(b));
            var infinite := IsInfinite(a) || IsInfinite(b);
            var anyNaN := IsNaN(a) || IsNaN(b) || IsNaN(c);
            && (anyNaN || invalid ==> r == NotANumber(Signals(a) || Signals(b) || Signals(c) || invalid))
            && (!anyNaN && !invalid && infinite ==>
                r == if IsInfinite(c) && SignOf(c) != negative then NotANumber(true) else Infinite(negative))
            && (!anyNaN && !infinite && IsInfinite(c) ==> r == Infinite(SignOf(c)))
            && (IsNumber(a) && IsNumber(b) && IsNumber(c) && ValueOf(a) * ValueOf(b) + ValueOf(c) == 0.0
                ==> r == Nought(if SignOf(c) == negative then negative else rm == Rdn))
  {
    hide ClassOf, SignOf, MagOf, ValueOf, RoundedReal;
  }

  // ---- Conversions.

  /** The bounds of the integer formats. */
  lemma Bounds(t: Convert.IntType)
    ensures t.Width() == (if t == Convert.W || t == Convert.Wu then 32 else 64)
    ensures t == Convert.W || t == Convert.L
            ==> t.Max() == Pow2(t.Width() - 1) - 1 && t.Min() == 0 - Pow2(t.Width() - 1)
    ensures t == Convert.Wu || t == Convert.Lu ==> t.Max() == Pow2(t.Width()) - 1 && t.Min() == 0
  {
    Pow2Values();
    hide Pow2;
  }

  /** The integer a register holds is the one of the format that agrees with its low bits. */
  lemma IntegerReads(t: Convert.IntType, operand: u64)
    ensures t.Min() <= Convert.IntegerOf(t, operand) <= t.Max()
    ensures (Convert.IntegerOf(t, operand) - operand) % Pow2(t.Width()) == 0
  {
    Pow2Values();
    hide Pow2;
    var v := Convert.IntegerOf(t, operand);
    if t.Width() == 64 {
      DivModUnique(v - operand, B64, if v < 0 then -1 else 0, 0);
    } else {
      DivModUnique(v - operand, B32, -(operand / B32) - (if v < 0 then 1 else 0), 0);
    }
  }

  /** An integer converts to its value rounded once, and zero to positive zero. */
  lemma IntegersToFloat(t: Convert.IntType, operand: u64, rm: Mode)
    ensures var i := Convert.IntegerOf(t, operand);
            Convert.FloatOf(t, operand, rm) == if i == 0 then Nought(false) else RoundedReal(rm, i as real)
  {
    hide Convert.IntegerOf, RoundedReal;
  }

  /** Whether a word is beyond the largest integer of a format once rounded; a NaN counts as that. */
  ghost predicate TooHigh(t: Convert.IntType, raw: u32, rm: Mode) {
    IsNaN(raw) || (IsInfinite(raw) && !SignOf(raw))
    || (IsNumber(raw) && Convert.RoundToInteger(rm, ValueOf(raw)) > t.Max())
  }

  ghost predicate TooLow(t: Convert.IntType, raw: u32, rm: Mode) {
    (IsInfinite(raw) && SignOf(raw)) || (IsNumber(raw) && Convert.RoundToInteger(rm, ValueOf(raw)) < t.Min())
  }

  /** Conversions to integer: the bound with NV alone, or the rounded value with NX alone exactly when it differs. */
  lemma FloatsToInteger(t: Convert.IntType, raw: u32, rm: Mode)
    ensures var r := Convert.IntegerFrom(t, raw, rm);
            && (TooHigh(t, raw, rm) ==> Convert.IntegerOf(t, r.value) == t.Max() && r.flags == 0x10)
            && (TooLow(t, raw, rm) ==> Convert.IntegerOf(t, r.value) == t.Min() && r.flags == 0x10)
            && (!TooHigh(t, raw, rm) && !TooLow(t, raw, rm) ==>
                var i := Convert.RoundToInteger(rm, ValueOf(raw));
                Convert.IntegerOf(t, r.value) == i && r.flags == if i as real == ValueOf(raw) then 0x0 else 0x1)
            && (t.Width() == 32 ==> -0x8000_0000 <= Signed(r.value) < 0x8000_0000)
  {
    hide ClassOf, SignOf, MagOf, ValueOf, Convert.RoundToInteger, Convert.IntegerOf, Convert.RegisterOf;
    BoundsHold(t);
    if IsNumber(raw) {
      var i := Convert.RoundToInteger(rm, ValueOf(raw));
      if t.Min() <= i <= t.Max() {
        RegisterHolds(t, i);
      }
      RoundingKeepsSign(rm, raw);
    }
    if t.Width() == 32 {
      IntegerResultExtends(t, raw, rm);
    }
  }

  /** Results of 32 bits, unsigned ones too, are sign-extended. */
  lemma IntegerResultExtends(t: Convert.IntType, raw: u32, rm: Mode)
    requires t.Width() == 32
    ensures -0x8000_0000 <= Signed(Convert.IntegerFrom(t, raw, rm).value) < 0x8000_0000
  {
    hide ClassOf, SignOf, ValueOf, Convert.RoundToInteger, Signed, SignExtendWord, Signed32;
    WordExtends(t, t.Max());
    WordExtends(t, t.Min());
    WordExtends(t, Convert.RoundToInteger(rm, ValueOf(raw)));
  }

  lemma WordExtends(t: Convert.IntType, i: int)
    requires t.Width() == 32
    ensures -0x8000_0000 <= Signed(Convert.RegisterOf(t, i)) < 0x8000_0000
  {
    hide Signed, SignExtendWord, Signed32;
    ExtendReads(Wrap32(i));
  }

  lemma BoundsHold(t: Convert.IntType)
    ensures Convert.IntegerOf(t, Convert.RegisterOf(t, t.Max())) == t.Max() >= 0
    ensures Convert.IntegerOf(t, Convert.RegisterOf(t, t.Min())) == t.Min() <= 0
  {
    hide Convert.IntegerOf, Convert.RegisterOf;
    RegisterHolds(t, t.Max());
    RegisterHolds(t, t.Min());
  }

  /** A positive number does not round below zero, nor a negative one above. */
  lemma RoundingKeepsSign(rm: Mode, raw: u32)
    requires IsNumber(raw)
    ensures SignOf(raw) ==> Convert.RoundToInteger(rm, ValueOf(raw)) <= 0
    ensures !SignOf(raw) ==> Convert.RoundToInteger(rm, ValueOf(raw)) >= 0
  {
    MagNonNegative(MagOf(raw));
    hide MagValue;
  }

  // ---- The other operations, and the dispatch by name.

  /** Sign injection takes the magnitude of the first operand and touches no flag. */
  lemma SignsInjected(a: u32, b: u32, op: FpuUnit.OpFpType, rm: Mode)
    requires op == FpuUnit.Sgnj || op == FpuUnit.Sgnjn || op == FpuUnit.Sgnjx
    ensures var r := FpuUnit.BinaryOf(op, a, b, rm);
            && r.flags == 0 && r.value < B32 && r.value % 0x8000_0000 == a % 0x8000_0000
            && (r.value >= 0x8000_0000 <==>
                if op == FpuUnit.Sgnj then b >= 0x8000_0000
                else if op == FpuUnit.Sgnjn then b < 0x8000_0000
                else a >= 0x8000_0000 <==> b < 0x8000_0000)
  {
  }

  /** fclass: the one bit that the sign and the class number. */
  lemma ClassBits(raw: u32)
    ensures FpuUnit.ClassMask(raw) ==
            match ClassOf(raw)
            case Infinity => Pow2(if SignOf(raw) then 0 else 7)
            case Normal => Pow2(if SignOf(raw) then 1 else 6)
            case Subnormal => Pow2(if SignOf(raw) then 2 else 5)
            case Zero => Pow2(if SignOf(raw) then 3 else 4)
            case SignalingNaN => Pow2(8)
            case QuietNaN => Pow2(9)
  {
    hide ClassOf, SignOf;
    SmallPowers();
    hide Pow2;
  }

  lemma SmallPowers()
    ensures Pow2(0) == 1 && Pow2(1) == 2 && Pow2(2) == 4 && Pow2(3) == 8 && Pow2(4) == 16
    ensures Pow2(5) == 32 && Pow2(6) == 64 && Pow2(7) == 128 && Pow2(8) == 256 && Pow2(9) == 512
  {
    Pow2Next(0);
    Pow2Next(1);
    Pow2Zero();
    hide Pow2;
  }

  /** Which operation a name is, and in which order it takes its operands. */
  lemma NamedOperations(a: u32, b: u32, rm: Mode)
    requires IsNumber(a) && IsNumber(b)
    ensures var v, w := ValueOf(a), ValueOf(b);
            && (v + w != 0.0 ==> FpuUnit.BinaryOf(FpuUnit.Add, a, b, rm) == RoundedReal(rm, v + w))
            && (v - w != 0.0 ==> FpuUnit.BinaryOf(FpuUnit.Sub, a, b, rm) == RoundedReal(rm, v - w))
            && (v * w != 0.0 ==> FpuUnit.BinaryOf(FpuUnit.Mul, a, b, rm) == RoundedReal(rm, v * w))
            && (v != 0.0 && w != 0.0 ==> FpuUnit.BinaryOf(FpuUnit.Div, a, b, rm) == RoundedReal(rm, v / w))
  {
    hide ClassOf, SignOf, MagOf, ValueOf, RoundedReal, Add.SumOf, Mul.ProductOf, Div.QuotientOf, Flip;
    Products(a, b, rm);
    Sums(a, b, rm);
    Differences(a, b, rm);
    Div.NonzeroValue(a);
    Div.NonzeroValue(b);
    if !IsZero(a) && !IsZero(b) {
      NumberQuotients(a, b, rm);
    }
  }

  lemma Differences(a: u32, b: u32, rm: Mode)
    requires IsNumber(a) && IsNumber(b)
    ensures var d := ValueOf(a) - ValueOf(b); d != 0.0 ==> Add.SumOf(a, b, true, rm) == RoundedReal(rm, d)
  {
    hide ClassOf, SignOf, MagOf, ValueOf, RoundedReal;
    SubtractNegated(ValueOf(a), ValueOf(b));
  }

  lemma NamedComparisons(a: u32, b: u32, rm: Mode)
    requires !IsNaN(a) && !IsNaN(b)
    ensures IsNumber(a) ==> Compare.Place(a) == ValueOf(a)
    ensures var v, w := Compare.Place(a), Compare.Place(b);
            && FpuUnit.BinaryOf(FpuUnit.Eq, a, b, rm) == FpResult(if v == w then 1 else 0, 0)
            && FpuUnit.BinaryOf(FpuUnit.Lt, a, b, rm) == FpResult(if v < w then 1 else 0, 0)
            && FpuUnit.BinaryOf(FpuUnit.Le, a, b, rm) == FpResult(if v <= w then 1 else 0, 0)
    ensures var least, most := FpuUnit.BinaryOf(FpuUnit.Min, a, b, rm), FpuUnit.BinaryOf(FpuUnit.Max, a, b, rm);
            var low, high := least.value, most.value;
            && low in {a, b} && high in {a, b} && least.flags == 0 && most.flags == 0
            && Compare.Place(low) <= Compare.Place(a) <= Compare.Place(high)
            && Compare.Place(low) <= Compare.Place(b) <= Compare.Place(high)
  {
    assert Compare.Place(a) == ValueOf(a);
    hide Compare.Place, Compare.Compare, Compare.MinOrMax, ClassOf, SignOf, MagOf, ValueOf;
    Compare.ComparesReals(Compare.Eq, a, b);
    Compare.ComparesReals(Compare.Lt, a, b);
    Compare.ComparesReals(Compare.Le, a, b);
    Compare.MinOrMaxBounds(a, b, false);
    Compare.MinOrMaxBounds(a, b, true);
  }
}
