/** Two significands brought to one exponent, and what their sum and difference keep. */
module Alignment {
  import opened Scaling
  import opened Ieee754
  import opened Jam

  /**
   * The significand s is the number y, or is y rounded to odd with enough leading
   * bits: at least floor.
   */
  ghost predicate Tracks(s: nat, y: real, floor: nat) {
    y >= 0.0 && (y == s as real || (s >= floor && ToOdd(s, y)))
  }

  /**
   * What two operands look like once aligned, in units of the lowest bit kept:
   * the sum and the difference of the significands l and r track those of the
   * exact operands a and b, and l and r compare as a and b do.
   */
  ghost predicate Aligned(l: nat, a: real, r: nat, b: real, floor: nat) {
    && Tracks(l + r, a + b, floor)
    && (l > r ==> a > b && Tracks(l - r, a - b, floor))
    && (l < r ==> a < b && Tracks(r - l, b - a, floor))
    && (l == r ==> a == b)
  }

  lemma AlignedSwap(l: nat, a: real, r: nat, b: real, floor: nat)
    requires Aligned(l, a, r, b, floor)
    ensures Aligned(r, b, l, a, floor)
  {
    assert l + r == r + l && a + b == b + a;
  }

  lemma ExactAligned(l: nat, r: nat, floor: nat)
    ensures Aligned(l, l as real, r, r as real, floor)
  {
    assert (l + r) as real == l as real + r as real;
    assert (l - r) as real == l as real - r as real;
  }

  /** A small operand rounded to odd leaves the sum and the difference rounded to odd. */
  lemma LossyAligned(l: nat, r: nat, y: real, floor: nat)
    requires l % 2 == 0 && l - r >= floor > 0
    requires y >= 0.0 && ToOdd(r, y)
    ensures Aligned(l, l as real, r, y, floor)
  {
    SumToOdd(l, r, y);
    DifferenceToOdd(l, r, y);
    hide ToOdd;
    assert l as real + y >= 0.0;
  }

  /** The rounded sum of two positive numbers a and b given in units of 2^u. */
  lemma SumInUnits(rm: Mode, ls: bool, y: real, rs: bool, z: real, u: int, a: real, b: real)
    requires y >= 0.0 && z >= 0.0 && y + z > 0.0 && a == Scale(y, u) && b == Scale(z, u)
    ensures Scale(y + z, u) >= 0.0
    ensures y >= z ==> Scale(y - z, u) >= 0.0
    ensures y <= z ==> Scale(z - y, u) >= 0.0
    ensures var r := RoundedSum(rm, Negate(ls, a) + Negate(rs, b), ls == rs, ls);
            if ls == rs then r == Rounded(rm, ls, Scale(y + z, u))
            else if y > z then r == Rounded(rm, ls, Scale(y - z, u))
            else if y < z then r == Rounded(rm, rs, Scale(z - y, u))
            else r == ZeroResult(rm == Rdn)
  {
    hide Scale, Rounded;
    UnscaleSum(y, z, u);
    ScaleNonNegative(y, u);
    ScaleNonNegative(z, u);
    SumBySigns(rm, ls, a, rs, b);
  }

  lemma UnscaleSum(y: real, z: real, u: int)
    ensures Scale(y + z, u) == Scale(y, u) + Scale(z, u)
    ensures Scale(y - z, u) == Scale(y, u) - Scale(z, u)
    ensures Scale(z - y, u) == Scale(z, u) - Scale(y, u)
    ensures y < z <==> Scale(y, u) < Scale(z, u)
    ensures y == z <==> Scale(y, u) == Scale(z, u)
  {
    ScaleAdd(y, z, u);
    ScaleAdd(y - z, z, u);
    ScaleAdd(z - y, y, u);
    ScaleCompare(y, z, u);
  }
}
