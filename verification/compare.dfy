/** Comparisons, minimum and maximum (less_than, compare and min_or_max of src/fpu.cpp). */
module Compare {
  import opened Words
  import opened Ieee754

  datatype CompareOp = Eq | Lt | Le

  function LessThan(lhs: u32, rhs: u32): bool {
    if SignOf(lhs) != SignOf(rhs) then SignOf(lhs)
    else if SignOf(lhs) then MagOf(lhs) > MagOf(rhs)
    else MagOf(lhs) < MagOf(rhs)
  }

  function Compare(op: CompareOp, lhs: u32, rhs: u32): FpResult {
    var lc, rc := ClassOf(lhs), ClassOf(rhs);
    if lc.IsNaN() || rc.IsNaN() then
      FpResult(0, if op != Eq || lc.SignalingNaN? || rc.SignalingNaN? then NV else 0)
    else
      var bothZero := lc.Zero? && rc.Zero?;
      var equal := bothZero || lhs == rhs;
      var result :=
        match op
        case Eq => equal
        case Lt => !bothZero && LessThan(lhs, rhs)
        case Le => equal || LessThan(lhs, rhs);
      FpResult(if result then 1 else 0, 0)
  }

  function MinOrMax(lhs: u32, rhs: u32, maximum: bool): FpResult {
    var lc, rc := ClassOf(lhs), ClassOf(rhs);
    var flags: bv32 := if lc.SignalingNaN? || rc.SignalingNaN? then NV else 0;
    if lc.IsNaN() && rc.IsNaN() then FpResult(CANONICAL_NAN, flags)
    else if lc.IsNaN() then FpResult(rhs, flags)
    else if rc.IsNaN() then FpResult(lhs, flags)
    else if lc.Zero? && rc.Zero? then
      // the words differ at most in the sign bit: a conjunction or a disjunction
      var negative := if maximum then SignOf(lhs) && SignOf(rhs) else SignOf(lhs) || SignOf(rhs);
      FpResult(SignWord(negative), flags)
    else
      var less := LessThan(lhs, rhs);
      FpResult(if maximum == less then rhs else lhs, flags)
  }

  /** The place of a non-NaN word on the real line, with 2^128 standing for infinity. */
  ghost function Place(raw: u32): real { Negate(SignOf(raw), MagValue(MagOf(raw))) }

  lemma MagnitudesCompare(m: nat, n: nat)
    ensures m < n <==> MagValue(m) < MagValue(n)
    ensures m == n <==> MagValue(m) == MagValue(n)
    ensures MagValue(m) >= 0.0 && MagValue(n) >= 0.0
    ensures m == 0 <==> MagValue(m) == 0.0
    ensures n == 0 <==> MagValue(n) == 0.0
  {
    MagZero();
    MagNonNegative(m);
    MagNonNegative(n);
    if m < n { MagMono(m, n); }
    if n < m { MagMono(n, m); }
    if 0 < m { MagMono(0, m); }
    if 0 < n { MagMono(0, n); }
  }

  /** The comparisons of words are the comparisons of the numbers they encode. */
  lemma ComparesReals(op: CompareOp, lhs: u32, rhs: u32)
    requires !ClassOf(lhs).IsNaN() && !ClassOf(rhs).IsNaN()
    ensures var v, w := Place(lhs), Place(rhs);
            var holds := match op case Eq => v == w case Lt => v < w case Le => v <= w;
            Compare(op, lhs, rhs) == FpResult(if holds then 1 else 0, 0)
  {
    MagnitudesCompare(MagOf(lhs), MagOf(rhs));
    hide MagValue;
    assert lhs == rhs <==> MagOf(lhs) == MagOf(rhs) && SignOf(lhs) == SignOf(rhs);
  }

  /** A NaN compares false with everything, raising NV, except that Eq is quiet about quiet NaNs. */
  lemma ComparesNaN(op: CompareOp, lhs: u32, rhs: u32)
    requires ClassOf(lhs).IsNaN() || ClassOf(rhs).IsNaN()
    ensures var quiet := op == Eq && !ClassOf(lhs).SignalingNaN? && !ClassOf(rhs).SignalingNaN?;
            Compare(op, lhs, rhs) == FpResult(0, if quiet then 0 else NV)
  {
  }

  /** Of two numbers the chosen one is an operand, bounds both, and prefers the right zero. */
  lemma MinOrMaxBounds(lhs: u32, rhs: u32, maximum: bool)
    requires !ClassOf(lhs).IsNaN() && !ClassOf(rhs).IsNaN()
    ensures var r := MinOrMax(lhs, rhs, maximum);
            && r.flags == 0 && (r.value == lhs || r.value == rhs)
            && (if maximum then Place(r.value) >= Place(lhs) && Place(r.value) >= Place(rhs)
                else Place(r.value) <= Place(lhs) && Place(r.value) <= Place(rhs))
            && (Place(lhs) == Place(rhs) ==>
                SignOf(r.value) == if maximum then SignOf(lhs) && SignOf(rhs) else SignOf(lhs) || SignOf(rhs))
  {
    MagnitudesCompare(MagOf(lhs), MagOf(rhs));
    hide MagValue;
  }

  /**
   * A NaN loses against a number, two NaNs give the canonical one, and a signaling operand raises NV and nothing else.
   * So minimum and maximum agree on NaNs, in either order.
   */
  lemma MinOrMaxNaN(lhs: u32, rhs: u32, maximum: bool)
    requires ClassOf(lhs).IsNaN() || ClassOf(rhs).IsNaN()
    ensures MinOrMax(lhs, rhs, maximum) ==
      FpResult(if !ClassOf(lhs).IsNaN() then lhs else if !ClassOf(rhs).IsNaN() then rhs else CANONICAL_NAN,
               if ClassOf(lhs).SignalingNaN? || ClassOf(rhs).SignalingNaN? then NV else 0)
    ensures MinOrMax(lhs, rhs, maximum) == MinOrMax(rhs, lhs, !maximum)
  {
  }
}
