/**
 * Exact scaling of real numbers by powers of two. Scale(y, u) is y * 2^u for any
 * integer u; it is defined by repeated doubling and halving, so that reasoning
 * about it stays linear.
 */
module Scaling {

  ghost function Scale(y: real, u: int): real
    decreases if u < 0 then -u else u, y
  {
    if u == 0 then y
    else if u > 0 then 2.0 * Scale(y, u - 1)
    else Scale(y, u + 1) / 2.0
  }

  lemma ScaleAtZero(y: real)
    ensures Scale(y, 0) == y
  {
  }

  /** One more power of two doubles the value, whatever the sign of the exponent. */
  lemma ScaleStep(y: real, u: int)
    ensures Scale(y, u + 1) == 2.0 * Scale(y, u)
  {
  }

  lemma {:induction false} ScaleAdd(y: real, z: real, u: int)
    ensures Scale(y + z, u) == Scale(y, u) + Scale(z, u)
    decreases if u < 0 then -u else u
  {
    if u > 0 {
      ScaleAdd(y, z, u - 1);
    } else if u < 0 {
      ScaleAdd(y, z, u + 1);
    }
  }

  lemma {:induction false} ScaleMono(y: real, z: real, u: int)
    requires y < z
    ensures Scale(y, u) < Scale(z, u)
    decreases if u < 0 then -u else u
  {
    if u > 0 {
      ScaleMono(y, z, u - 1);
    } else if u < 0 {
      ScaleMono(y, z, u + 1);
    }
  }

  lemma {:induction false} ScaleZero(u: int)
    ensures Scale(0.0, u) == 0.0
    decreases if u < 0 then -u else u
  {
    if u > 0 {
      ScaleZero(u - 1);
    } else if u < 0 {
      ScaleZero(u + 1);
    }
  }

  lemma {:induction false} ScaleScale(y: real, u: int, w: int)
    ensures Scale(Scale(y, u), w) == Scale(y, u + w)
    decreases if w < 0 then -w else w
  {
    if w > 0 {
      ScaleScale(y, u, w - 1);
      ScaleStep(y, u + w - 1);
    } else if w < 0 {
      ScaleScale(y, u, w + 1);
      ScaleStep(y, u + w);
    }
  }

  /** Halving the number lowers the exponent, doubling it raises the exponent. */
  lemma ScaleHalf(y: real, u: int)
    ensures Scale(y / 2.0, u) == Scale(y, u - 1)
    ensures Scale(2.0 * y, u) == Scale(y, u + 1)
  {
    ScaleScale(y, -1, u);
    ScaleScale(y, 1, u);
    assert Scale(y, -1) == y / 2.0 && Scale(y, 1) == 2.0 * y by {
      assert Scale(y, 0) == y;
    }
  }

  /** Scaling preserves every comparison. */
  lemma ScaleCompare(y: real, z: real, u: int)
    ensures y < z <==> Scale(y, u) < Scale(z, u)
    ensures y == z <==> Scale(y, u) == Scale(z, u)
  {
    if y < z {
      ScaleMono(y, z, u);
    } else if z < y {
      ScaleMono(z, y, u);
    }
  }

  lemma ScaleNonNegative(y: real, u: int)
    ensures y >= 0.0 <==> Scale(y, u) >= 0.0
    ensures y > 0.0 <==> Scale(y, u) > 0.0
  {
    ScaleZero(u);
    ScaleCompare(0.0, y, u);
  }

  lemma {:induction false} ScaleTimes(y: real, z: real, w: int)
    ensures y * Scale(z, w) == Scale(y * z, w)
    decreases if w < 0 then -w else w
  {
    if w > 0 {
      ScaleTimes(y, z, w - 1);
      Halve(y, Scale(z, w - 1));
    } else if w < 0 {
      ScaleTimes(y, z, w + 1);
      Halve(y, Scale(z, w));
    }
  }

  lemma Commute(a: real, b: real)
    ensures a * b == b * a
  {
  }

  lemma Halve(y: real, t: real)
    ensures y * (2.0 * t) == 2.0 * (y * t)
  {
  }

  /** A product of scaled numbers is the scaled product. */
  lemma ScaleMul(y: real, u: int, z: real, w: int)
    ensures Scale(y, u) * Scale(z, w) == Scale(y * z, u + w)
  {
    hide Scale;
    ScaleTimes(Scale(y, u), z, w);
    ScaleTimes(z, y, u);
    ScaleSame(z * y, y * z, u);
    ScaleSame(Scale(y, u) * z, Scale(y * z, u), w);
    ScaleScale(y * z, u, w);
  }

  lemma ScaleSame(a: real, b: real, u: int)
    requires a == b
    ensures Scale(a, u) == Scale(b, u)
  {
  }

  /** Raising the exponent does not shrink a non-negative number. */
  lemma {:induction false} ScaleUp(y: real, u: int, w: int)
    requires y >= 0.0 && u <= w
    ensures 0.0 <= Scale(y, u) <= Scale(y, w)
    decreases w - u
  {
    if u < w {
      ScaleUp(y, u, w - 1);
      ScaleStep(y, w - 1);
    } else {
      ScaleZero(u);
      if y > 0.0 {
        ScaleMono(0.0, y, u);
      }
    }
  }

  /** Shifting an integer left by a few fixed distances. */
  lemma ShiftLeft15(s: nat, u: int)
    ensures Scale((s * 0x8000) as real, u) == Scale(s as real, u + 15)
  {
    hide Scale;
    var y := s as real;
    ScaleSeven(y, 0);
    ScaleSeven(y, 7);
    ScaleStep(y, 14);
    ScaleAtZero(y);
    ShiftedTo(y, (s * 0x8000) as real, 15, u);
  }

  lemma ShiftLeft16(s: nat, u: int)
    ensures Scale((s * 0x1_0000) as real, u) == Scale(s as real, u + 16)
  {
    hide Scale;
    var y := s as real;
    ScaleSeven(y, 0);
    ScaleSeven(y, 7);
    ScaleStep(y, 14);
    ScaleStep(y, 15);
    ScaleAtZero(y);
    ShiftedTo(y, (s * 0x1_0000) as real, 16, u);
  }

  lemma ShiftLeft26(s: nat)
    ensures Scale(s as real, 26) == (s * 0x400_0000) as real
    ensures Scale(s as real, 27) == (2 * s * 0x400_0000) as real
  {
    hide Scale;
    var y := s as real;
    ScaleSeven(y, 0);
    ScaleSeven(y, 7);
    ScaleSeven(y, 14);
    ScaleStep(y, 21);
    ScaleStep(y, 22);
    ScaleStep(y, 23);
    ScaleStep(y, 24);
    ScaleStep(y, 25);
    ScaleStep(y, 26);
    ScaleAtZero(y);
  }

  lemma ShiftLeft29(s: nat, u: int)
    ensures Scale((s * 0x2000_0000) as real, u) == Scale(s as real, u + 29)
  {
    hide Scale;
    var y := s as real;
    ScaleSeven(y, 0);
    ScaleSeven(y, 7);
    ScaleSeven(y, 14);
    ScaleSeven(y, 21);
    ScaleStep(y, 28);
    ScaleAtZero(y);
    ShiftedTo(y, (s * 0x2000_0000) as real, 29, u);
  }

  lemma ShiftLeft39(s: nat, u: int)
    ensures Scale((s * 0x80_0000_0000) as real, u) == Scale(s as real, u + 39)
  {
    hide Scale;
    var y := s as real;
    ScaleSeven(y, 0);
    ScaleSeven(y, 7);
    ScaleSeven(y, 14);
    ScaleSeven(y, 21);
    ScaleSeven(y, 28);
    ScaleStep(y, 35);
    ScaleStep(y, 36);
    ScaleStep(y, 37);
    ScaleStep(y, 38);
    ScaleAtZero(y);
    ShiftedTo(y, (s * 0x80_0000_0000) as real, 39, u);
  }

  lemma ShiftedTo(y: real, z: real, n: int, u: int)
    requires z == Scale(y, n)
    ensures Scale(z, u) == Scale(y, u + n)
  {
    ScaleScale(y, n, u);
  }

  lemma ScaleSeven(y: real, u: int)
    ensures Scale(y, u + 7) == 128.0 * Scale(y, u)
  {
    ScaleStep(y, u);
    ScaleStep(y, u + 1);
    ScaleStep(y, u + 2);
    ScaleStep(y, u + 3);
    ScaleStep(y, u + 4);
    ScaleStep(y, u + 5);
    ScaleStep(y, u + 6);
    hide Scale;
  }
}
