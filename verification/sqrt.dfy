/** Square root (square_root_unsigned and square_root of src/fpu.cpp). */
module Sqrt {
  import opened Words
  import opened Scaling
  import opened Ieee754
  import opened Jam
  import opened Pack
  import opened Operands

  ghost function Square(q: real): real { q * q }

  // ---- The root of v rounded once, without naming the root: q is below the
  // ---- root of v just when its square is below v.

  ghost predicate RootBrackets(v: real, m: nat) {
    m < INFINITY && Square(MagValue(m)) <= v < Square(MagValue(m + 1))
  }

  ghost predicate RootInRange(v: real) { 0.0 <= v < Square(MagValue(INFINITY)) }

  /** The magnitude word of the greatest representable number not above the root of v. */
  ghost function RootBelow(v: real): (m: nat)
    requires RootInRange(v)
    ensures RootBrackets(v, m)
  {
    RootBracketExists(v, INFINITY);
    var m :| RootBrackets(v, m);
    m
  }

  /** The non-negative square root of v, rounded once. */
  ghost function RoundedRoot(rm: Mode, v: real): FpResult
    requires RootInRange(v)
  {
    var m := RootBelow(v);
    var exact := Square(MagValue(m)) == v;
    var r := if !exact && TakesUpper(rm, false, m, v - Square(Midpoint(m))) then m + 1 else m;
    FpResult(r, if r == INFINITY then OF | NX else if exact then 0 else if r < HIDDEN then NX | UF else NX)
  }

  /** The square root of an operand, as sections 5 and 7 of IEEE 754-2019 define it. */
  ghost function RootOf(raw: u32, rm: Mode): FpResult {
    var c := ClassOf(raw);
    if c.IsNaN() then NaNResult(c.SignalingNaN?)
    else if c.Zero? then FpResult(raw, 0)
    else if SignOf(raw) then InvalidResult()
    else if c.Infinity? then InfinityResult(false)
    else
      RootOfFinite(raw);
      RoundedRoot(rm, ValueOf(raw))
  }

  lemma RootOfFinite(raw: u32)
    requires ClassOf(raw).IsFinite() && !SignOf(raw)
    ensures RootInRange(ValueOf(raw))
  {
    var m := MagOf(raw);
    MagMono(m, INFINITY);
    AboveOne();
    var t := MagValue(INFINITY);
    hide MagValue;
    SquareMonotone(1.0, t);
    SquareAbove(t);
  }

  lemma AboveOne()
    ensures MagValue(INFINITY) > 1.0
  {
    ScaleUp(HIDDEN as real, 0, 105);
    ScaleAtZero(HIDDEN as real);
  }

  lemma SquareAbove(t: real)
    requires t > 1.0
    ensures Square(t) > t
  {
  }

  lemma SquareMonotone(p: real, q: real)
    requires p >= 0.0 && q >= 0.0
    ensures p < q <==> Square(p) < Square(q)
    ensures p == q <==> Square(p) == Square(q)
  {
    if p < q {
      ProductsIncrease(p, q, p, q);
    } else if q < p {
      ProductsIncrease(q, p, q, p);
    }
  }

  lemma ProductsIncrease(a: real, b: real, c: real, d: real)
    requires 0.0 <= a < b && 0.0 <= c < d
    ensures a * c < b * d
  {
    IncreaseLeft(a, b, c);
    IncreaseRight(b, c, d);
  }

  lemma IncreaseLeft(a: real, b: real, c: real)
    requires a <= b && 0.0 <= c
    ensures a * c <= b * c
  {
  }

  lemma IncreaseRight(a: real, b: real, c: real)
    requires 0.0 < a && b < c
    ensures a * b < a * c
  {
  }

  lemma {:induction false} RootBracketExists(v: real, n: nat)
    requires v >= 0.0 && n <= INFINITY
    requires v < Square(MagValue(n))
    ensures exists m :: RootBrackets(v, m)
  {
    MagZero();
    assert Square(0.0) == 0.0;
    hide MagValue, Square;
    if v >= Square(MagValue(n - 1)) {
      assert RootBrackets(v, n - 1);
    } else {
      RootBracketExists(v, n - 1);
    }
  }

  lemma RootBracketUnique(v: real, m: nat, n: nat)
    requires RootBrackets(v, m) && RootBrackets(v, n)
    ensures m == n
  {
    hide MagValue;
    if m < n {
      SquareMagMono(m + 1, n);
    } else if n < m {
      SquareMagMono(n + 1, m);
    }
  }

  lemma SquareMagMono(m: nat, n: nat)
    requires m <= n
    ensures Square(MagValue(m)) <= Square(MagValue(n))
  {
    MagMonoLe(m, n);
    MagNonNegative(m);
    MagNonNegative(n);
    SquareMonotone(MagValue(m), MagValue(n));
  }

  // ---- Numbers that compare with the grid as the root of v does.

  /** x and the root of v are on the same side of q. */
  ghost predicate SameSide(v: real, x: real, q: real) {
    (v < Square(q) <==> x < q) && (v == Square(q) <==> x == q)
  }

  /** Agreeing with the root at the neighbours and between them is enough to round alike. */
  lemma RoundsAlike(rm: Mode, v: real, x: real, m: nat)
    requires v >= 0.0 && Brackets(x, m)
    requires SameSide(v, x, MagValue(m)) && SameSide(v, x, MagValue(m + 1)) && SameSide(v, x, Midpoint(m))
    ensures x >= 0.0 && RootInRange(v)
    ensures RoundedRoot(rm, v) == Rounded(rm, false, x)
  {
    hide MagValue, Square, Midpoint;
    BracketIsBelow(x, m);
    SquareMagMono(m + 1, INFINITY);
    RootBracketUnique(v, m, RootBelow(v));
    assert TakesUpper(rm, false, m, v - Square(Midpoint(m))) == TakesUpper(rm, false, m, x - Midpoint(m));
    var up := x > MagValue(m) && TakesUpper(rm, false, m, x - Midpoint(m));
    assert RoundMagnitude(rm, false, x) == if up then m + 1 else m;
    assert x < MagValue(m + 1);
  }

  /** RoundedRoot rounds the real square root: whatever y has y * y == v. */
  lemma RootIsRoot(rm: Mode, v: real, y: real)
    requires y >= 0.0 && Square(y) == v && RootInRange(v)
    ensures RoundedRoot(rm, v) == Rounded(rm, false, y)
  {
    hide MagValue, Square;
    MagNonNegative(INFINITY);
    SquareMonotone(y, MagValue(INFINITY));
    var m := Below(y);
    MagNonNegative(m);
    MagNonNegative(m + 1);
    SquareMonotone(y, MagValue(m));
    SquareMonotone(y, MagValue(m + 1));
    SquareMonotone(y, Midpoint(m));
    SquareNonNegative(y);
    RoundsAlike(rm, v, y, m);
  }

  ghost function Halfway(k: nat, r: nat): real { (MagValue(k) + MagValue(r)) / 2.0 }

  lemma SquareOrder(p: real, q: real)
    requires 0.0 <= p <= q
    ensures Square(p) <= Square(q)
  {
    SquareMonotone(p, q);
  }

  /**
   * The delivered root against every representable number, by squares alone: to nearest, the root of v is on its side
   * of every halfway point, with the stated ties; otherwise it is the neighbour on the stated side.
   */
  lemma RootNeighbours(rm: Mode, v: real, k: nat)
    requires RootInRange(v) && k <= INFINITY
    ensures var r := RoundedRoot(rm, v).value;
            match rm
            case Rne =>
              (k < r ==> Square(Halfway(k, r)) <= v && (Square(Halfway(k, r)) == v ==> r % 2 == 0))
              && (k > r ==> Square(Halfway(k, r)) >= v && (Square(Halfway(k, r)) == v ==> r % 2 == 0))
            case Rmm => (k < r ==> Square(Halfway(k, r)) <= v) && (k > r ==> Square(Halfway(k, r)) > v)
            case Rtz => Square(MagValue(r)) <= v && (Square(MagValue(k)) <= v ==> k <= r)
            case Rdn => Square(MagValue(r)) <= v && (Square(MagValue(k)) <= v ==> k <= r)
            case Rup => Square(MagValue(r)) >= v && (Square(MagValue(k)) >= v ==> r <= k)
  {
    hide MagValue, Square, Midpoint, Halfway;
    var m := RootBelow(v);
    MagStep(m);
    if k <= m {
      SquareMagMono(k, m);
      HalfwayBelow(k, m);
    } else {
      SquareMagMono(m + 1, k);
      HalfwayAbove(m, k);
    }
    if k < m {
      MagMono(k, m);
      MagNonNegative(k);
      SquareMonotone(MagValue(k), MagValue(m));
    }
    MagNonNegative(m);
    SquareMonotone(MagValue(m), MagValue(m + 1));
  }

  /** Halfway points with numbers up to m are no higher than the midpoint above m, nor than m itself. */
  lemma HalfwayBelow(k: nat, m: nat)
    requires k <= m
    ensures Square(Halfway(k, m + 1)) <= Square(Midpoint(m))
    ensures k < m ==> Square(Halfway(k, m + 1)) < Square(Midpoint(m)) && Square(Halfway(k, m)) < Square(MagValue(m))
  {
    hide MagValue, Square;
    MagNonNegative(k);
    MagNonNegative(m + 1);
    MagNonNegative(m);
    MagMonoLe(k, m);
    SquareOrder(Halfway(k, m + 1), Midpoint(m));
    if k < m {
      MagMono(k, m);
      SquareMonotone(Halfway(k, m + 1), Midpoint(m));
      SquareMonotone(Halfway(k, m), MagValue(m));
    }
  }

  /** Halfway points with numbers above m are no lower than the midpoint above m, nor than the next number. */
  lemma HalfwayAbove(m: nat, k: nat)
    requires k > m
    ensures Square(Halfway(k, m)) >= Square(Midpoint(m)) && Square(Halfway(k, m)) > Square(MagValue(m))
    ensures k > m + 1
            ==> Square(Halfway(k, m)) > Square(Midpoint(m)) && Square(Halfway(k, m + 1)) > Square(MagValue(m + 1))
  {
    hide MagValue, Square;
    MagNonNegative(m);
    MagNonNegative(m + 1);
    MagMonoLe(m + 1, k);
    MagMono(m, k);
    SquareOrder(Midpoint(m), Halfway(k, m));
    SquareMonotone(MagValue(m), Halfway(k, m));
    if k > m + 1 {
      MagMono(m + 1, k);
      SquareMonotone(Midpoint(m), Halfway(k, m));
      SquareMonotone(MagValue(m + 1), Halfway(k, m + 1));
    }
  }

  lemma SquareNonNegative(y: real)
    ensures Square(y) >= 0.0
  {
  }

  // ---- The bit-pair loop.

  /**
   * With p the root found so far and c the weight of its last bit: value is what
   * is left of n after p * p, and the root lies in [p, p + c).
   */
  ghost predicate Rooting(n: nat, p: nat, c: nat, root: nat, value: nat) {
    && root == p * c && n == p * p + value && n < (p + c) * (p + c)
  }

  lemma RootStep(n: nat, p: nat, h: nat, root: nat, value: nat)
    requires Rooting(n, p, 2 * h, root, value)
    ensures root / 2 == p * h
    ensures value >= root + h * h ==> Rooting(n, p + h, h, root / 2 + h * h, value - (root + h * h))
    ensures value < root + h * h ==> Rooting(n, p, h, root / 2, value)
  {
    var t := p * h;
    assert p * (2 * h) == 2 * t;
    assert (p + h) * h == t + h * h;
    assert (p + h) * (p + h) == p * p + 2 * t + h * h;
    assert p + h + h == p + 2 * h;
  }

  lemma RootFits(p: nat, h: nat)
    requires p + 2 * h <= 0x1_0000_0000
    ensures p * (2 * h) + h * h < 0x1_0000_0000_0000_0000
    ensures p * h + h * h < 0x1_0000_0000_0000_0000
  {
    var t := p * h;
    assert p * (2 * h) == 2 * t;
    assert (p + 2 * h) * (p + 2 * h) == p * p + 4 * t + 4 * (h * h);
    MulMono(p + 2 * h, 0x1_0000_0000, p + 2 * h);
    MulMono(p + 2 * h, 0x1_0000_0000, 0x1_0000_0000);
    assert p * p >= 0 && t >= 0;
  }

  /** The square of a power of two, shifted right by two bits. */
  lemma QuarterSquare(j: nat)
    ensures Pow2(j) * Pow2(j) / 4 == if j == 0 then 0 else Pow2(j - 1) * Pow2(j - 1)
  {
    if j > 0 {
      var h := Pow2(j - 1);
      assert Pow2(j) * Pow2(j) == 4 * (h * h);
    } else {
      assert Pow2(0) == 1;
    }
  }

  /** root is the integer square root of n, and remainder what is left. */
  predicate IsRoot(n: nat, root: nat, remainder: nat) { root * root + remainder == n && remainder <= 2 * root }

  /** The integer square root of any 64-bit value, with its remainder. */
  method SquareRootUnsigned(value: u64) returns (root: u64, remainder: u64)
    ensures IsRoot(value, root, remainder)
  {
    hide Pow2, Rooting;
    root, remainder := 0, value;
    var bit: u64 := 0x4000_0000_0000_0000;
    ghost var j: nat := 32;
    ghost var p: nat := 0;
    RootStart(value);

    while bit > remainder
      invariant root == 0 && remainder == value && p == 0 && j <= 32
      invariant bit == Pow2(j) * Pow2(j) / 4
      invariant Pow2(j) <= 0x1_0000_0000
      invariant Rooting(value, 0, Pow2(j), 0, value)
    {
      RootSkip(value, j);
      j := j - 1;
      bit := bit / 4;
    }

    while bit != 0
      invariant bit == Pow2(j) * Pow2(j) / 4
      invariant p + Pow2(j) <= 0x1_0000_0000
      invariant Rooting(value, p, Pow2(j), root, remainder)
      decreases bit
    {
      QuarterSquare(j);
      ghost var h := Pow2(j - 1);
      RootHalf(j);
      RootStep(value, p, h, root, remainder);
      RootFits(p, h);
      RootOf2(value, p, 2 * h, root, remainder);
      QuarterSquare(j - 1);
      if remainder >= root + bit {
        remainder := remainder - (root + bit);
        root := root / 2 + bit;
        p := p + h;
      } else {
        root := root / 2;
      }
      bit := bit / 4;
      j := j - 1;
    }
    QuarterZero(j);
    RootEnd(value, p, root, remainder);
  }

  lemma RootStart(value: u64)
    ensures Pow2(32) == 0x1_0000_0000
    ensures Pow2(32) * Pow2(32) / 4 == 0x4000_0000_0000_0000
    ensures Rooting(value, 0, Pow2(32), 0, value)
  {
    Pow2Values();
  }

  lemma RootHalf(j: nat)
    requires j > 0
    ensures Pow2(j) == 2 * Pow2(j - 1)
  {
  }

  lemma RootOf2(n: nat, p: nat, c: nat, root: nat, value: nat)
    requires Rooting(n, p, c, root, value)
    ensures root == p * c
  {
  }

  /** A bit above the value is skipped: the root is below its square root. */
  lemma RootSkip(value: nat, j: nat)
    requires Pow2(j) * Pow2(j) / 4 > value
    ensures j > 0
    ensures Pow2(j) * Pow2(j) / 4 / 4 == Pow2(j - 1) * Pow2(j - 1) / 4
    ensures Pow2(j - 1) <= Pow2(j)
    ensures Rooting(value, 0, Pow2(j - 1), 0, value)
  {
    QuarterSquare(j);
    RootHalf(j);
  }

  lemma QuarterZero(j: nat)
    requires Pow2(j) * Pow2(j) / 4 == 0
    ensures Pow2(j) == 1
  {
    QuarterSquare(j);
    if j > 0 {
      MulMono(1, Pow2(j - 1), Pow2(j - 1));
    }
  }

  lemma RootEnd(n: nat, p: nat, root: nat, value: nat)
    requires Rooting(n, p, 1, root, value)
    ensures root * root + value == n && value <= 2 * root
  {
    assert (p + 1) * (p + 1) == p * p + 2 * p + 1;
  }

  // ---- The 27-bit root against the grid.

  /** The root as a number: itself when exact, otherwise somewhere before the next integer. */
  function RootNumber(root: nat, remainder: nat): real {
    if remainder == 0 then root as real else root as real + 0.5
  }

  /** An integer k compares with the root of n as it does with RootNumber. */
  lemma RootCompares(n: nat, root: nat, remainder: nat, k: nat)
    requires IsRoot(n, root, remainder)
    ensures n < k * k <==> RootNumber(root, remainder) < k as real
    ensures n == k * k <==> RootNumber(root, remainder) == k as real
  {
    if k < root {
      IntegerSquares(k, root);
    } else if k > root {
      assert (root + 1) * (root + 1) == root * root + 2 * root + 1;
      IntegerSquares(root + 1, k);
    }
  }

  lemma IntegerSquares(a: nat, b: nat)
    requires a <= b
    ensures a * a <= b * b
    ensures a < b ==> a * a < b * b
  {
    MulMono(a, b, a);
    MulMono(a, b, b);
    if a < b {
      MulMono(a + 1, b, b);
    }
  }

  /** The same in units of 2^u, against the real number n * 2^(2u). */
  lemma GridSide(n: nat, root: nat, remainder: nat, k: nat, u: int)
    requires IsRoot(n, root, remainder)
    ensures SameSide(Scale(n as real, u + u), Scale(RootNumber(root, remainder), u), Scale(k as real, u))
  {
    hide IsRoot;
    var y, z := RootNumber(root, remainder), k as real;
    RootCompares(n, root, remainder, k);
    ScaleCompare(y, z, u);
    ScaleCompare(n as real, (k * k) as real, u + u);
    ScaleMul(z, u, z, u);
    IntegerProduct(k, k);
    ScaleSame(z * z, (k * k) as real, u + u);
    hide Scale, RootNumber;
    SquareIsProduct(Scale(z, u), Scale((k * k) as real, u + u));
  }

  lemma IntegerProduct(a: nat, b: nat)
    ensures a as real * b as real == (a * b) as real
  {
  }

  lemma SquareIsProduct(q: real, t: real)
    requires q * q == t
    ensures Square(q) == t
  {
  }

  /** The root of a 53- or 54-bit number has 27 bits, and its sticky form is rounded to odd. */
  lemma RootToOdd(n: nat, root: nat, remainder: nat)
    requires 0x10_0000_0000_0000 <= n < 0x40_0000_0000_0000
    requires IsRoot(n, root, remainder)
    ensures 0x400_0000 <= root < 0x800_0000
    ensures ToOdd(SetLowBit(root, remainder != 0), RootNumber(root, remainder))
    ensures SetLowBit(root, remainder != 0) / 8 == root / 8
    ensures SetLowBit(root, remainder != 0) < 0x800_0000
  {
    if root < 0x400_0000 {
      assert (root + 1) * (root + 1) == root * root + 2 * root + 1;
      IntegerSquares(root + 1, 0x400_0000);
    }
    if root >= 0x800_0000 {
      IntegerSquares(0x800_0000, root);
    }
  }

  /** The rounded root of the operand, in terms of the integer root. */
  lemma RootRounds(rm: Mode, n: nat, root: nat, remainder: nat, e: int, v: real)
    requires 0x10_0000_0000_0000 <= n < 0x40_0000_0000_0000 && -126 <= e <= 127
    requires IsRoot(n, root, remainder)
    requires v == Scale(n as real, 2 * e - 52)
    ensures RootInRange(v) && Scale(RootNumber(root, remainder), e - 26) >= 0.0
    ensures RoundedRoot(rm, v) == Rounded(rm, false, Scale(RootNumber(root, remainder), e - 26))
  {
    hide IsRoot;
    var s, y, u := SetLowBit(root, remainder != 0), RootNumber(root, remainder), e - 26;
    RootToOdd(n, root, remainder);
    hide Scale, MagValue, SetLowBit, RootNumber, Square, ToOdd, ToQuad, RoundedRoot, Rounded;
    Coarsen(s, y);
    var q := s / 8;
    Neighbours(y, e, s);
    WordValue(e, q);
    WordMidpoint(e, q);
    GridSide(n, root, remainder, 8 * q, u);
    GridSide(n, root, remainder, 8 * q + 4, u);
    GridSide(n, root, remainder, 8 * q + 8, u);
    assert u + u == 2 * e - 52;
    ScaleNonNegative(n as real, 2 * e - 52);
    RoundsAlike(rm, v, Scale(y, u), Word(e, q));
  }

  method SquareRoot(raw: u32, rm: Mode) returns (r: FpResult)
    ensures r == RootOf(raw, rm)
  {
    hide MagValue, ClassOf, MagOf, SignOf, RoundedRoot, UnpackedFp32.ToBits, UnpackedFp32.Encodes, RootInRange;
    var operand := Unpack(raw);

    if operand.fpClass.IsNaN() {
      return NaNResult(operand.fpClass == SignalingNaN);
    }

    if operand.fpClass == Zero {
      return FpResult(raw, 0);
    }

    if operand.sign {
      return InvalidResult();
    }

    if operand.fpClass == Infinity {
      return InfinityResult(false);
    }

    assert ValueOf(raw) == MagValue(MagOf(raw));
    r := RootFinite(operand, rm, ValueOf(raw));
  }

  /** The path of square_root on a positive number v. */
  method RootFinite(operand: UnpackedFp32, rm: Mode, ghost v: real) returns (r: FpResult)
    requires operand.Encodes(v)
    ensures RootInRange(v) && r == RoundedRoot(rm, v)
  {
    hide Scale, RootNumber, ToOdd, RoundedRoot, Rounded, RootInRange, IsRoot;
    var significand: u64 := operand.significand;
    var exponent := operand.exponent;
    ScaleHalf(significand as real, exponent - 24);
    if exponent % 2 != 0 {
      significand := significand * 2;
      exponent := exponent - 1;
    }
    ShiftLeft29(significand, exponent - 52);

    var n: u64 := significand * 0x2000_0000;
    var root, remainder := SquareRootUnsigned(n);
    RootToOdd(n, root, remainder);
    RootRounds(rm, n, root, remainder, exponent / 2, v);
    var rounded := SetLowBit(root, remainder != 0);
    NumberPositive(root, remainder);
    r := RoundAndPack(false, exponent / 2, rounded, rm, RootNumber(root, remainder));
  }

  lemma NumberPositive(root: nat, remainder: nat)
    ensures RootNumber(root, remainder) >= 0.0
    ensures SetLowBit(root, remainder != 0) >= root
  {
  }
}
