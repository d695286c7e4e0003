/** Rounding an unrounded significand and packing it (round_and_pack of src/fpu.cpp). */
module Pack {
  import opened Words
  import opened Scaling
  import opened Ieee754
  import opened Jam
  import opened Alignment

  function ShouldRoundUp(rm: Mode, sign: bool, roundedSignificand: u64, roundBits: nat): bool {
    match rm
    case Rne => roundBits > 4 || (roundBits == 4 && roundedSignificand % 2 != 0)
    case Rtz => false
    case Rdn => sign && roundBits != 0
    case Rup => !sign && roundBits != 0
    case Rmm => roundBits >= 4
  }

  /**
   * What a caller owes: the significand is the number y, or is y rounded to odd
   * with at most one leading zero below bit 26.
   */
  ghost predicate Represents(significand: nat, y: real) {
    Tracks(significand, y, 0x200_0000)
  }

  /** What is left of it while the significand is normalised. */
  ghost predicate Normalizing(s: nat, y: real) {
    Represents(s, y) || (s >= 0x400_0000 && ToQuad(s, y))
  }

  lemma TopBits(s: nat)
    requires s < 0x1000_0000
    ensures Bit(s, 27) <==> s >= 0x800_0000
    ensures s < 0x800_0000 ==> (Bit(s, 26) <==> s >= 0x400_0000)
  {
    Pow2Values();
    TopBit(s, 27);
    if s < 0x800_0000 {
      TopBit(s, 26);
    }
  }

  lemma JamNormalizes(s: u64, y: real)
    requires 0x800_0000 <= s < 0x1000_0000 && Represents(s, y)
    ensures 0x400_0000 <= ShiftRightJam(s, 1) < 0x800_0000
    ensures Represents(ShiftRightJam(s, 1), y / 2.0)
  {
    ShrOne(s);
    if y == s as real {
      ExactToQuad(s);
    } else {
      Coarsen(s, y);
    }
    JamOneToOdd(s, y);
  }

  lemma DoubleNormalizes(s: u64, y: real)
    requires 0 < s < 0x400_0000 && Normalizing(s, y)
    ensures Normalizing(2 * s, 2.0 * y)
  {
    if y == s as real {
      assert 2.0 * y == (2 * s) as real;
    } else {
      ShiftLeftToQuad(s, y);
    }
  }

  lemma NormalizedAgrees(s: nat, y: real)
    requires Normalizing(s, y)
    ensures ToQuad(s, y)
  {
    if y == s as real {
      ExactToQuad(s);
    } else if ToOdd(s, y) {
      Coarsen(s, y);
    }
  }

  // ---- The final significand is a position in the enumeration of magnitudes.

  /** The magnitude word of the 24-bit significand q with exponent e. */
  function Word(e: int, q: nat): nat
    requires e >= -126
  {
    (e + 126) * HIDDEN + q
  }

  ghost predicate Placed(e: int, q: nat) {
    -126 <= e && q < 2 * HIDDEN && (q >= HIDDEN || e == -126)
  }

  lemma WordValue(e: int, q: nat)
    requires Placed(e, q)
    ensures MagValue(Word(e, q)) == Scale((8 * q) as real, e - 26)
    ensures MagValue(Word(e, q) + 1) == Scale((8 * q + 8) as real, e - 26)
  {
    WordFields(e, q);
    ScaleEight(q as real, e - 26);
    MagStep(Word(e, q));
    ScaleEight(1.0, e - 26);
    ScaleAdd((8 * q) as real, 8.0, e - 26);
  }

  lemma ScaleEight(z: real, u: int)
    ensures Scale(8.0 * z, u) == Scale(z, u + 3)
  {
    ScaleHalf(4.0 * z, u);
    ScaleHalf(2.0 * z, u + 1);
    ScaleHalf(z, u + 2);
  }

  lemma WordMidpoint(e: int, q: nat)
    requires Placed(e, q)
    ensures Midpoint(Word(e, q)) == Scale((8 * q + 4) as real, e - 26)
  {
    WordValue(e, q);
    ScaleAdd((8 * q) as real, 4.0, e - 26);
    ScaleAdd((8 * q + 4) as real, 4.0, e - 26);
  }

  lemma WordFields(e: int, q: nat)
    requires Placed(e, q)
    ensures UlpExponent(Word(e, q)) == e - 23 && Significand(Word(e, q)) == q
  {
    var m := Word(e, q);
    if q < HIDDEN {
      assert m == q;
    } else {
      assert m == (e + 127) * HIDDEN + (q - HIDDEN);
      assert m / HIDDEN == e + 127 && m % HIDDEN == q - HIDDEN;
    }
  }

  /** Where x lies between its neighbours can be read from the three low bits. */
  lemma Neighbours(y: real, e: int, s: nat)
    requires Placed(e, s / 8) && e <= 127
    requires ToQuad(s, y)
    ensures var x, m := Scale(y, e - 26), Word(e, s / 8);
            && Brackets(x, m)
            && (x == MagValue(m) <==> s % 8 == 0)
            && (x > Midpoint(m) <==> s % 8 > 4)
            && (x == Midpoint(m) <==> s % 8 == 4)
  {
    var q, u := s / 8, e - 26;
    WordValue(e, q);
    WordMidpoint(e, q);
    GuardBits(s, y);
    ScaleCompare((8 * q) as real, y, u);
    ScaleCompare(y, (8 * q + 8) as real, u);
    ScaleCompare((8 * q + 4) as real, y, u);
  }

  lemma GuardBits(s: nat, y: real)
    requires ToQuad(s, y)
    ensures var q := s / 8;
            && (8 * q) as real <= y < (8 * q + 8) as real
            && (y == (8 * q) as real <==> s % 8 == 0)
            && (y > (8 * q + 4) as real <==> s % 8 > 4)
            && (y == (8 * q + 4) as real <==> s % 8 == 4)
  {
    var q, r, z := s / 8, s % 8, (8 * (s / 8)) as real;
    assert s as real == z + r as real;
    if r < 4 {
      assert s % 4 == r;
      assert z <= y < z + 4.0;
    } else {
      assert s % 4 == r - 4;
      assert z + 4.0 <= y < z + 8.0;
    }
  }

  lemma BracketIsBelow(x: real, m: nat)
    requires Brackets(x, m)
    ensures InRange(x) && Below(x) == m
  {
    MagNonNegative(m);
    MagMonoLe(m + 1, INFINITY);
    BracketUnique(x, m, Below(x));
  }

  /** A normalised significand with an exponent above 127 is at least 2^128. */
  lemma Overflows(y: real, e: int, s: nat)
    requires e > 127 && s >= 0x400_0000
    requires ToQuad(s, y)
    ensures Scale(y, e - 26) >= MagValue(INFINITY)
  {
    assert Word(127, 2 * HIDDEN - 1) + 1 == INFINITY;
    WordValue(127, 2 * HIDDEN - 1);
    ScaleHalf(0x400_0000 as real, 101);
    ScaleUp(0x400_0000 as real, 102, e - 26);
    ScaleCompare(y, 0x400_0000 as real, e - 26);
  }

  /** The bits below the last place choose the neighbour the mode asks for. */
  lemma Chooses(rm: Mode, sign: bool, y: real, e: int, s: nat)
    requires Placed(e, s / 8) && e <= 127
    requires ToQuad(s, y)
    ensures InRange(Scale(y, e - 26))
    ensures RoundMagnitude(rm, sign, Scale(y, e - 26))
      == Word(e, s / 8) + if ShouldRoundUp(rm, sign, s / 8, s % 8) then 1 else 0
  {
    Neighbours(y, e, s);
    BracketIsBelow(Scale(y, e - 26), Word(e, s / 8));
    ParityOfWord(e, s / 8);
  }

  lemma ParityOfWord(e: int, q: nat)
    requires e >= -126
    ensures Word(e, q) % 2 == q % 2
  {
  }

  /** The delivered number is the exact one just when the three low bits are clear. */
  lemma InexactBits(rm: Mode, sign: bool, y: real, e: int, s: nat)
    requires Placed(e, s / 8) && e <= 127
    requires ToQuad(s, y)
    ensures var x := Scale(y, e - 26);
            x >= 0.0 && (x == MagValue(RoundMagnitude(rm, sign, x)) <==> s % 8 == 0)
  {
    Neighbours(y, e, s);
    Chooses(rm, sign, y, e, s);
  }

  /** The word delivered when the rounded significand may carry but not overflow. */
  lemma Delivers(rm: Mode, sign: bool, y: real, e: int, s: nat)
    requires Placed(e, s / 8) && e <= 127
    requires ToQuad(s, y)
    ensures var up := ShouldRoundUp(rm, sign, s / 8, s % 8);
            var m := Word(e, s / 8) + if up then 1 else 0;
            Scale(y, e - 26) >= 0.0 &&
            Rounded(rm, sign, Scale(y, e - 26)) == FpResult(SignWord(sign) + m,
              if m == INFINITY then OF | NX
              else if s % 8 == 0 then 0
              else if m < HIDDEN then NX | UF
              else NX)
  {
    Chooses(rm, sign, y, e, s);
    InexactBits(rm, sign, y, e, s);
  }

  lemma OverflowDelivers(rm: Mode, sign: bool, x: real)
    requires x >= MagValue(INFINITY)
    ensures x >= 0.0
    ensures Rounded(rm, sign, x)
      == FpResult(SignWord(sign) + if OverflowsToInfinity(rm, sign) then INFINITY else MAX_FINITE, OF | NX)
  {
    MagNonNegative(INFINITY);
  }

  /**
   * Rounds and packs (-1)^sign * significand * 2^(exponent - 26). The result is
   * the number behind the significand, y * 2^(exponent - 26), rounded once.
   */
  method RoundAndPack(sign: bool, exponent: i32, significand: u64, rm: Mode, ghost y: real)
    returns (r: FpResult)
    requires significand < 0x1000_0000
    requires -0x4000_0000 <= exponent <= 0x4000_0000
    requires Represents(significand, y)
    ensures Scale(y, exponent - 26) >= 0.0
    ensures r == Rounded(rm, sign, Scale(y, exponent - 26))
  {
    hide Scale, Rounded, ToQuad, ToOdd, Bit, MagValue;
    ScaleNonNegative(y, exponent - 26);
    if significand == 0 {
      ScaleSame(y, 0.0, exponent - 26);
      ScaleZero(exponent - 26);
      MagZero();
      ExactIsFixed(rm, sign, 0);
      return FpResult(SignWord(sign), 0);
    }
    var s, e := significand, exponent;
    ghost var z := y;

    TopBits(s);
    while Bit(s, 27)
      invariant 0 < s < 0x1000_0000 && exponent <= e <= exponent + 1
      invariant s >= 0x800_0000 ==> e == exponent
      invariant Bit(s, 27) <==> s >= 0x800_0000
      invariant Represents(s, z) && Scale(z, e - 26) == Scale(y, exponent - 26)
      decreases s
    {
      JamNormalizes(s, z);
      ScaleHalf(z, e - 25);
      z := z / 2.0;
      s := ShiftRightJam(s, 1);
      e := e + 1;
      TopBits(s);
    }

    TopBits(s);
    while !Bit(s, 26)
      invariant 0 < s < 0x800_0000 && exponent - s <= e <= exponent + 1
      invariant Bit(s, 26) <==> s >= 0x400_0000
      invariant Normalizing(s, z) && Scale(z, e - 26) == Scale(y, exponent - 26)
      decreases 0x800_0000 - s
    {
      DoubleNormalizes(s, z);
      ScaleHalf(z, e - 27);
      z := 2.0 * z;
      s := s * 2;
      e := e - 1;
      TopBits(s);
    }
    NormalizedAgrees(s, z);

    if e < -126 {
      var distance := -126 - e;
      JamToOdd(s, z, distance);
      ScaleScale(z, -(distance as int), -152);
      z := Scale(z, -(distance as int));
      s := ShiftRightJam(s, distance);
      e := -126;
      Coarsen(s, z);
    }

    r := PackNormalized(sign, e, s, rm, z);
  }

  /** Renormalising a carry and packing the fields gives the magnitude word. */
  lemma Fields(e: int, q: nat)
    requires -126 <= e <= 127 && q <= 2 * HIDDEN && (q >= HIDDEN || e == -126)
    ensures var carry := q >= 2 * HIDDEN;
            var e', q' := if carry then e + 1 else e, if carry then q / 2 else q;
            var subnormal := e' == -126 && q' < HIDDEN;
            && (e' > 127 <==> Word(e, q) == INFINITY)
            && (subnormal <==> Word(e, q) < HIDDEN)
            && (if subnormal then 0 else e' + 127) * HIDDEN + q' % HIDDEN == Word(e, q)
            && (q' == 0 <==> Word(e, q) == 0)
  {
    if q >= 2 * HIDDEN {
      assert q / 2 == HIDDEN && q / 2 % HIDDEN == 0;
    } else if q >= HIDDEN {
      assert q % HIDDEN == q - HIDDEN;
    }
  }

  /** The tail of round_and_pack: pick the neighbour, renormalise a carry, pack. */
  method PackNormalized(sign: bool, exponent: i32, significand: u64, rm: Mode, ghost y: real)
    returns (r: FpResult)
    requires -126 <= exponent < 0x7fff_ffff && significand < 0x800_0000
    requires significand >= 0x400_0000 || exponent == -126
    requires ToQuad(significand, y)
    ensures Scale(y, exponent - 26) >= 0.0
    ensures r == Rounded(rm, sign, Scale(y, exponent - 26))
  {
    var s, e := significand, exponent;
    var roundBits := s % 8;
    var inexact := roundBits != 0;
    var rounded: u64 := s / 8;
    if e <= 127 {
      Delivers(rm, sign, y, e, s);
    } else {
      Overflows(y, e, s);
      OverflowDelivers(rm, sign, Scale(y, e - 26));
    }

    if ShouldRoundUp(rm, sign, rounded, roundBits) {
      rounded := rounded + 1;
    }
    if e <= 127 {
      Fields(e, rounded);
    }

    if rounded >= 2 * HIDDEN {
      rounded := rounded / 2;
      e := e + 1;
    }

    if e > 127 {
      var toInfinity := rm == Rne || rm == Rmm || (rm == Rup && !sign) || (rm == Rdn && sign);
      return FpResult(SignWord(sign) + if toInfinity then INFINITY else MAX_FINITE, OF | NX);
    }

    var subnormal := e == -126 && rounded < HIDDEN;
    var flags: bv32 := if inexact then NX else 0;
    if subnormal && inexact {
      flags := flags | UF;
    }
    if rounded == 0 {
      return FpResult(SignWord(sign), flags);
    }
    var fraction := rounded % HIDDEN;
    var rawExponent := if subnormal then 0 else e + 127;
    return FpResult(SignWord(sign) + rawExponent * HIDDEN + fraction, flags);
  }
}
