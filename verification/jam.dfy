/**
 * Shifting right with a sticky bit, and what a significand shifted that way
 * still knows about the number it came from.
 */
module Jam {
  import opened Words
  import opened Scaling

  /** value | bit, for the lowest bit. */
  function SetLowBit(value: nat, bit: bool): nat {
    value + if bit && value % 2 == 0 then 1 else 0
  }

  function ShiftRightJam(value: u64, distance: nat): u64 {
    if distance == 0 then value
    else if distance < 64 then SetLowBit(Shr(value, distance), Discards(value, distance))
    else if value != 0 then 1 else 0
  }

  /** Shifting one place further is shifting the jammed half. */
  lemma {:induction false} JamStep(value: u64, distance: nat)
    requires distance > 0
    ensures ShiftRightJam(value, distance) == ShiftRightJam(ShiftRightJam(value, 1), distance - 1)
  {
    ShrOne(value);
    var half := ShiftRightJam(value, 1);
    if distance == 64 {
      Pow2Values();
      ShrSmall(half, 63);
    } else if 1 < distance < 64 {
      assert half / 2 == value / 2 / 2;
      assert Shr(half, distance - 1) == Shr(half / 2, distance - 2);
      assert Shr(value / 2, distance - 1) == Shr(value / 2 / 2, distance - 2);
    }
  }

  /** Jamming in two steps is jamming once: rounding to odd composes. */
  lemma {:induction false} JamComposes(value: u64, a: nat, b: nat)
    ensures ShiftRightJam(ShiftRightJam(value, a), b) == ShiftRightJam(value, a + b)
    decreases a
  {
    if a > 0 {
      JamStep(value, a);
      JamComposes(ShiftRightJam(value, 1), a - 1, b);
      JamStep(value, a + b);
    }
  }

  // ---- The number behind a significand, in units of its lowest bit.

  /** s is y rounded to odd: y itself when even, else the odd integer next to y. */
  ghost predicate ToOdd(s: nat, y: real) {
    if s % 2 == 0 then y == s as real else s as real - 1.0 < y < s as real + 1.0
  }

  /** The weaker relation after one left shift: no multiple of four separates s and y. */
  ghost predicate ToQuad(s: nat, y: real) {
    var r := (s % 4) as real;
    if s % 4 == 0 then y == s as real else s as real - r < y < s as real - r + 4.0
  }

  lemma ExactToOdd(s: nat)
    ensures ToOdd(s, s as real)
  {
  }

  lemma ExactToQuad(s: nat)
    ensures ToQuad(s, s as real)
  {
  }

  lemma Coarsen(s: nat, y: real)
    requires ToOdd(s, y)
    ensures ToQuad(s, y)
  {
    if s % 2 == 0 {
      ExactToQuad(s);
    } else {
      assert s % 4 == 1 || s % 4 == 3;
    }
  }

  lemma ShiftLeftToQuad(s: nat, y: real)
    requires ToOdd(s, y)
    ensures ToQuad(2 * s, 2.0 * y)
  {
    var h := s / 2;
    if s % 2 == 0 {
      assert 2 * s == 4 * h;
    } else {
      assert 2 * s == 4 * h + 2;
    }
  }

  /** Jamming one place restores rounding to odd. */
  lemma JamOneToOdd(s: u64, y: real)
    requires ToQuad(s, y)
    ensures ToOdd(ShiftRightJam(s, 1), y / 2.0)
  {
    ShrOne(s);
    var t, h, r := ShiftRightJam(s, 1), s / 4, s % 4;
    var base := s as real - r as real;
    assert s == 4 * h + r && s / 2 == 2 * h + r / 2;
    assert base == (4 * h) as real;
    if r == 0 {
      assert t == 2 * h;
    } else {
      assert t == 2 * h + 1 && t % 2 == 1;
      assert t as real == base / 2.0 + 1.0;
    }
  }

  /** Jamming any number of places is rounding to odd. */
  lemma {:induction false} JamToOdd(s: u64, y: real, distance: nat)
    requires ToOdd(s, y) || (distance > 0 && ToQuad(s, y))
    ensures ToOdd(ShiftRightJam(s, distance), Scale(y, -(distance as int)))
    decreases distance
  {
    if distance > 0 {
      if ToOdd(s, y) {
        Coarsen(s, y);
      }
      JamOneToOdd(s, y);
      JamStep(s, distance);
      JamToOdd(ShiftRightJam(s, 1), y / 2.0, distance - 1);
      ScaleHalf(y, 1 - distance);
    }
  }

  /** Adding an even number keeps a number rounded to odd. */
  lemma SumToOdd(a: nat, t: nat, y: real)
    requires a % 2 == 0 && ToOdd(t, y)
    ensures ToOdd(a + t, a as real + y)
  {
    assert (a + t) % 2 == t % 2;
  }

  /** So does subtracting it from a larger even number. */
  lemma DifferenceToOdd(a: nat, t: nat, y: real)
    requires a % 2 == 0 && t < a && ToOdd(t, y)
    ensures ToOdd(a - t, a as real - y)
    ensures a as real - y > 0.0
  {
    assert (a - t) % 2 == t % 2;
  }

  /** Jamming out a zero bit loses nothing. */
  lemma JamEven(s: u64)
    requires s % 2 == 0
    ensures ShiftRightJam(s, 1) == s / 2
  {
    ShrOne(s);
  }

  lemma JamHalves(s: u64, m: nat)
    requires s <= 2 * m
    ensures ShiftRightJam(s, 1) <= m
    ensures s > 0 ==> ShiftRightJam(s, 1) > 0
  {
    ShrOne(s);
  }

  lemma {:induction false} JamShrinks(s: u64, distance: nat)
    ensures ShiftRightJam(s, distance) <= s
    ensures s > 0 ==> ShiftRightJam(s, distance) > 0
    decreases distance
  {
    if distance > 0 {
      JamStep(s, distance);
      JamHalves(s, s);
      JamShrinks(ShiftRightJam(s, 1), distance - 1);
    }
  }

  /** Jamming a word of n + k + 1 bits by n places leaves k + 1 bits. */
  lemma {:induction false} JamRange(s: u64, n: nat, k: nat)
    requires Pow2(n + k) <= s < Pow2(n + k + 1)
    ensures Pow2(k) <= ShiftRightJam(s, n) < Pow2(k + 1)
    decreases n
  {
    if n > 0 {
      ShrOne(s);
      HalfRange(s, Pow2(n - 1 + k));
      JamStep(s, n);
      JamRange(ShiftRightJam(s, 1), n - 1, k);
    }
  }

  lemma HalfRange(s: u64, p: nat)
    requires 2 * p <= s < 4 * p
    ensures p <= ShiftRightJam(s, 1) < 2 * p
  {
    ShrOne(s);
  }
}
