/** The operations of the unit by name (class Fpu of src/fpu.cpp). */
module FpuUnit {
  import opened Words
  import opened Scaling
  import opened Ieee754
  import opened Jam
  import opened Pack
  import opened Operands
  import Compare
  import Add
  import Mul
  import Div
  import Sqrt
  import Fma
  import Convert

  datatype OpFpType =
    | Add | Sub | Mul | Div | Sqrt | Min | Max
    | Sgnj | Sgnjn | Sgnjx
    | Eq | Lt | Le | Class
    | MoveToX | MoveFromX
    | CvtWFromS | CvtWuFromS | CvtLFromS | CvtLuFromS
    | CvtSToW | CvtSToWu | CvtSToL | CvtSToLu

  predicate IsBinary(op: OpFpType) {
    op.Add? || op.Sub? || op.Mul? || op.Div? || op.Min? || op.Max?
    || op.Sgnj? || op.Sgnjn? || op.Sgnjx? || IsComparison(op)
  }

  predicate IsComparison(op: OpFpType) { op.Eq? || op.Lt? || op.Le? }

  predicate IsToInteger(op: OpFpType) { op.CvtWFromS? || op.CvtWuFromS? || op.CvtLFromS? || op.CvtLuFromS? }

  predicate IsFromInteger(op: OpFpType) { op.CvtSToW? || op.CvtSToWu? || op.CvtSToL? || op.CvtSToLu? }

  function IntTypeOf(op: OpFpType): Convert.IntType
    requires IsToInteger(op) || IsFromInteger(op)
  {
    match op
    case CvtWFromS => Convert.W
    case CvtSToW => Convert.W
    case CvtWuFromS => Convert.Wu
    case CvtSToWu => Convert.Wu
    case CvtLFromS => Convert.L
    case CvtSToL => Convert.L
    case _ => Convert.Lu
  }

  /** The magnitude of lhs with the sign that rhs asks for. */
  function SignInjected(op: OpFpType, lhs: u32, rhs: u32): FpResult
    requires op.Sgnj? || op.Sgnjn? || op.Sgnjx?
  {
    var sign := if op.Sgnj? then SignOf(rhs) else if op.Sgnjn? then !SignOf(rhs) else SignOf(lhs) != SignOf(rhs);
    FpResult(MagOf(lhs) + SignWord(sign), 0)
  }

  ghost function BinaryOf(op: OpFpType, lhs: u32, rhs: u32, rm: Mode): FpResult
    requires IsBinary(op)
  {
    match op
    case Add => Add.SumOf(lhs, rhs, false, rm)
    case Sub => Add.SumOf(lhs, rhs, true, rm)
    case Mul => Mul.ProductOf(lhs, rhs, rm)
    case Div => Div.QuotientOf(lhs, rhs, rm)
    case Min => Compare.MinOrMax(lhs, rhs, false)
    case Max => Compare.MinOrMax(lhs, rhs, true)
    case Eq => Compare.Compare(Compare.Eq, lhs, rhs)
    case Lt => Compare.Compare(Compare.Lt, lhs, rhs)
    case Le => Compare.Compare(Compare.Le, lhs, rhs)
    case Sgnj => SignInjected(op, lhs, rhs)
    case Sgnjn => SignInjected(op, lhs, rhs)
    case Sgnjx => SignInjected(op, lhs, rhs)
  }

  method Binary(op: OpFpType, lhs: u32, rhs: u32, rm: Mode) returns (r: FpResult)
    requires IsBinary(op)
    ensures r == BinaryOf(op, lhs, rhs, rm)
  {
    match op {
      case Add => r := Add.AddOrSub(lhs, rhs, false, rm);
      case Sub => r := Add.AddOrSub(lhs, rhs, true, rm);
      case Mul => r := Mul.Multiply(lhs, rhs, rm);
      case Div => r := Div.Divide(lhs, rhs, rm);
      case Min => r := Compare.MinOrMax(lhs, rhs, false);
      case Max => r := Compare.MinOrMax(lhs, rhs, true);
      case Eq => r := Compare.Compare(Compare.Eq, lhs, rhs);
      case Lt => r := Compare.Compare(Compare.Lt, lhs, rhs);
      case Le => r := Compare.Compare(Compare.Le, lhs, rhs);
      case Sgnj => r := SignInjected(op, lhs, rhs);
      case Sgnjn => r := SignInjected(op, lhs, rhs);
      case Sgnjx => r := SignInjected(op, lhs, rhs);
    }
  }

  /** fclass.s: one bit of ten. */
  function ClassMask(raw: u32): u64 {
    var sign := SignOf(raw);
    match ClassOf(raw)
    case Infinity => if sign then 0x1 else 0x80
    case Normal => if sign then 0x2 else 0x40
    case Subnormal => if sign then 0x4 else 0x20
    case Zero => if sign then 0x8 else 0x10
    case SignalingNaN => 0x100
    case QuietNaN => 0x200
  }

  /** Packing what was unpacked gives back the word, without flags, in every mode. */
  method Repack(raw: u32, rm: Mode) returns (r: FpResult)
    requires ClassOf(raw).IsFinite()
    ensures r == FpResult(raw, 0)
  {
    hide MagValue, Scale, Rounded, UnpackedFp32.ToBits;
    var u := Unpack(raw);
    MagZero();
    if u.fpClass == Zero {
      ScaleZero(u.exponent - 26);
    } else {
      ScaleEight(u.significand as real, u.exponent - 26);
    }
    ExactToOdd(8 * u.significand);
    FiniteBelow(raw);
    r := RoundAndPack(u.sign, u.exponent, 8 * u.significand, rm, (8 * u.significand) as real);
    ExactIsFixed(rm, u.sign, MagOf(raw));
  }

  lemma FiniteBelow(raw: u32)
    requires ClassOf(raw).IsFinite()
    ensures MagOf(raw) < INFINITY
  {
  }

  // ---- Every result is a 32-bit word with some of the five flags.

  predicate FlagsOk(flags: bv32) { flags & !0x1f == 0 }

  predicate FpOk(r: FpResult) { r.value < B32 && FlagsOk(r.flags) }

  lemma NoFlagsOk()
    ensures FlagsOk(0)
  {
  }

  lemma RoundedOk(rm: Mode, negative: bool, x: real)
    requires x >= 0.0
    ensures FpOk(Rounded(rm, negative, x))
  {
    hide RoundMagnitude, MagValue;
  }

  lemma SumOk(rm: Mode, sum: real, sameSign: bool, sign: bool)
    ensures FpOk(RoundedSum(rm, sum, sameSign, sign))
  {
    RoundedOk(rm, sum < 0.0, Abs(sum));
    hide Rounded, FpOk;
    assert FpOk(ZeroResult(true)) && FpOk(ZeroResult(false)) by { SpecialOk(); }
  }

  lemma SpecialOk()
    ensures FpOk(ZeroResult(true)) && FpOk(ZeroResult(false))
    ensures FpOk(InfinityResult(true)) && FpOk(InfinityResult(false))
    ensures FpOk(InvalidResult()) && FpOk(NaNResult(true)) && FpOk(NaNResult(false))
    ensures FpOk(FpResult(SIGN + INFINITY, DZ)) && FpOk(FpResult(INFINITY, DZ))
  {
  }

  lemma BinaryOk(op: OpFpType, lhs: u32, rhs: u32, rm: Mode)
    requires IsBinary(op)
    ensures FpOk(BinaryOf(op, lhs, rhs, rm))
  {
    hide FpOk, Rounded, RoundedReal, RoundedSum, Mul.RoundedProduct, Div.RoundedQuotient, MagValue, ValueOf,
      ZeroResult, InfinityResult, InvalidResult, NaNResult, SignInjected, Compare.Compare, Compare.MinOrMax;
    SpecialOk();
    if op.Add? || op.Sub? {
      SumOk(rm, ValueOf(lhs) + Negate(op.Sub?, ValueOf(rhs)), SignOf(lhs) == (SignOf(rhs) != op.Sub?), SignOf(lhs));
    } else if op.Mul? {
      ProductOk(rm, ValueOf(lhs), ValueOf(rhs), SignOf(lhs) != SignOf(rhs));
    } else if op.Div? {
      if ClassOf(rhs).IsFinite() && !ClassOf(rhs).Zero? {
        Div.NonzeroValue(rhs);
        QuotientOk(rm, ValueOf(lhs), ValueOf(rhs), SignOf(lhs) != SignOf(rhs));
      }
    } else if IsComparison(op) {
      CompareOk(op, lhs, rhs, rm);
    } else {
      PlainOk(op, lhs, rhs);
    }
  }

  lemma ProductOk(rm: Mode, v: real, w: real, sign: bool)
    ensures FpOk(Mul.RoundedProduct(rm, v, w, sign))
  {
    RoundedOk(rm, Times(v, w) < 0.0, Abs(Times(v, w)));
    SpecialOk();
    hide Rounded, FpOk, Times, ZeroResult;
  }

  lemma QuotientOk(rm: Mode, v: real, w: real, sign: bool)
    requires w != 0.0
    ensures FpOk(Div.RoundedQuotient(rm, v, w, sign))
  {
    RoundedOk(rm, Div.Ratio(v, w) < 0.0, Abs(Div.Ratio(v, w)));
    SpecialOk();
    hide Rounded, FpOk, Div.Ratio, ZeroResult;
  }

  lemma PlainOk(op: OpFpType, lhs: u32, rhs: u32)
    requires op.Min? || op.Max? || op.Sgnj? || op.Sgnjn? || op.Sgnjx?
    ensures FpOk(SignInjected(if op.Min? || op.Max? then Sgnj else op, lhs, rhs))
    ensures FpOk(Compare.MinOrMax(lhs, rhs, op.Max?))
  {
    hide ClassOf;
  }

  lemma CompareOk(op: OpFpType, lhs: u32, rhs: u32, rm: Mode)
    requires IsComparison(op)
    ensures FpOk(BinaryOf(op, lhs, rhs, rm))
  {
    hide ClassOf;
  }

  lemma FusedOk(op: Fma.FmaFpType, lhs: u32, rhs: u32, addend: u32, rm: Mode)
    ensures FpOk(Fma.FusedOf(op, lhs, rhs, addend, rm))
  {
    hide FpOk, RoundedSum, MagValue, ValueOf, Times, ZeroResult, InfinityResult, InvalidResult, NaNResult,
      ClassOf, MagOf, SignOf;
    SpecialOk();
    var ps := (SignOf(lhs) != SignOf(rhs)) != Fma.NegatesProduct(op);
    var cs := SignOf(addend) != Fma.NegatesAddend(op);
    SumOk(rm, Negate(Fma.NegatesProduct(op), Times(ValueOf(lhs), ValueOf(rhs)))
              + Negate(Fma.NegatesAddend(op), ValueOf(addend)), ps == cs, ps);
  }

  lemma RootOk(raw: u32, rm: Mode)
    ensures FpOk(Sqrt.RootOf(raw, rm))
  {
    SpecialOk();
    if ClassOf(raw).IsFinite() && !SignOf(raw) {
      Sqrt.RootOfFinite(raw);
      FiniteRootOk(rm, ValueOf(raw));
    }
    hide FpOk, Sqrt.RoundedRoot, MagValue, ValueOf, ZeroResult, InfinityResult, InvalidResult, NaNResult;
    assert FpOk(FpResult(raw, 0)) by { WordOk(raw); }
  }

  lemma WordOk(raw: u32)
    ensures FpOk(FpResult(raw, 0))
  {
  }

  lemma FiniteRootOk(rm: Mode, v: real)
    requires Sqrt.RootInRange(v)
    ensures FpOk(Sqrt.RoundedRoot(rm, v))
  {
    var m := Sqrt.RootBelow(v);
    hide MagValue, Sqrt.Square;
  }

  lemma FromIntegerOk(t: Convert.IntType, operand: u64, rm: Mode)
    ensures FpOk(Convert.FloatOf(t, operand, rm))
  {
    var v := Convert.IntegerOf(t, operand) as real;
    RoundedOk(rm, v < 0.0, Abs(v));
    SpecialOk();
    hide Rounded, FpOk, Convert.IntegerOf, ZeroResult;
  }

  lemma ToIntegerFlagsOk(t: Convert.IntType, raw: u32, rm: Mode)
    ensures FlagsOk(Convert.IntegerFrom(t, raw, rm).flags)
  {
    hide Convert.RoundToInteger, Convert.RegisterOf, ClassOf, ValueOf, FlagsOk;
    IntegerFlagsOk();
  }

  lemma IntegerFlagsOk()
    ensures FlagsOk(0) && FlagsOk(NX) && FlagsOk(NV)
  {
  }
}
