/** Unpacked binary32 operands (class UnpackedFp32 of src/fpu.cpp). */
module Operands {
  import opened Words
  import opened Scaling
  import opened Ieee754

  datatype UnpackedFp32 = UnpackedFp32(sign: bool, exponent: i32, significand: u32, fpClass: FpClass) {

    /** The exponent ranges the packing shifts and casts rely on. */
    predicate Valid() {
      && (fpClass == Normal ==> -126 <= exponent <= 127)
      && (fpClass == Subnormal ==> exponent <= -126)
    }

    predicate IsNonzeroFinite() { fpClass == Normal || fpClass == Subnormal }

    /** A normalised nonzero operand whose magnitude is the real number y. */
    ghost predicate Encodes(y: real) {
      && HIDDEN <= significand < 2 * HIDDEN && -149 <= exponent <= 127
      && y == Scale(significand as real, exponent - 23)
    }

    /** What unpacking promises about a word. */
    ghost predicate Unpacks(raw: u32) {
      && Valid() && ToBits() == raw
      && sign == SignOf(raw) && fpClass == ClassOf(raw)
      && (IsNonzeroFinite() ==> Encodes(MagValue(MagOf(raw))))
      && (fpClass == Zero ==> significand == 0 && exponent == -126 && MagValue(MagOf(raw)) == 0.0)
    }

    function ToBits(): u32
      requires Valid()
    {
      SignWord(sign) +
      match fpClass
      case Zero => 0
      case Infinity => INFINITY
      case QuietNaN => INFINITY + significand % 0x40_0000 + 0x40_0000
      case SignalingNaN =>
        var fraction := significand % 0x40_0000;
        INFINITY + if fraction == 0 then 1 else fraction
      case Normal => (exponent + 127) * HIDDEN + significand % HIDDEN
      case Subnormal => Shr(significand, -126 - exponent) % HIDDEN
    }
  }

  lemma HiddenBit(s: nat)
    requires s < 0x100_0000
    ensures Bit(s, 23) <==> s >= HIDDEN
  {
    Pow2Values();
    TopBit(s, 23);
  }

  /**
   * Unpacks a word. Finite nonzero operands come out normalised, with the same
   * real value; packing again gives back the word, NaNs and subnormals included.
   */
  method Unpack(raw: u32) returns (u: UnpackedFp32)
    ensures u.Unpacks(raw)
  {
    hide Scale, MagValue, Bit, Shr;
    var sign := Bit(raw, 31);
    var rawExponent := Shr(raw, 23) % 0x100;
    var fraction := raw % HIDDEN;
    FieldsOf(raw);

    if rawExponent == 0xff {
      if fraction == 0 {
        return UnpackedFp32(sign, 0, 0, Infinity);
      }
      var quiet := Bit(fraction, 22);
      QuietBit(fraction);
      NaNPacks(raw, quiet);
      return UnpackedFp32(sign, 0, fraction, if quiet then QuietNaN else SignalingNaN);
    }

    if rawExponent == 0 {
      var exponent := -126;
      if fraction == 0 {
        MagZero();
        return UnpackedFp32(sign, exponent, 0, Zero);
      }
      var significand;
      significand, exponent := NormalizeSubnormal(fraction);
      return UnpackedFp32(sign, exponent, significand, Subnormal);
    }

    NormalPacks(raw);
    NormalValue(MagOf(raw));
    return UnpackedFp32(sign, rawExponent - 127, HIDDEN + fraction, Normal);
  }

  /** The normalisation loop: the subnormal significand is shifted up to bit 23. */
  method NormalizeSubnormal(fraction: u32) returns (significand: u32, exponent: i32)
    requires 0 < fraction < HIDDEN
    ensures HIDDEN <= significand < 2 * HIDDEN && -149 <= exponent <= -126
    ensures Shr(significand, -126 - exponent) == fraction
    ensures MagValue(fraction) == Scale(significand as real, exponent - 23)
  {
    significand, exponent := fraction, -126;
    HiddenBit(significand);
    while !Bit(significand, 23)
      invariant 0 < significand < 2 * HIDDEN
      invariant Bit(significand, 23) <==> significand >= HIDDEN
      invariant -150 <= exponent <= -126
      invariant Pow2(-126 - exponent) <= significand
      invariant Shr(significand, -126 - exponent) == fraction
      invariant MagValue(fraction) == Scale(significand as real, exponent - 23)
      decreases 2 * HIDDEN - significand
    {
      SmallPower(-126 - exponent);
      ScaleHalf(significand as real, exponent - 24);
      assert Shr(significand * 2, -126 - exponent + 1) == Shr(significand, -126 - exponent);
      significand := significand * 2;
      exponent := exponent - 1;
      HiddenBit(significand);
    }
    SmallPower(-126 - exponent);
  }

  lemma NormalPacks(raw: u32)
    requires ClassOf(raw) == Normal
    ensures var u := UnpackedFp32(SignOf(raw), MagOf(raw) / HIDDEN - 127, HIDDEN + MagOf(raw) % HIDDEN, Normal);
            u.Valid() && u.ToBits() == raw
  {
  }

  lemma NaNPacks(raw: u32, quiet: bool)
    requires MagOf(raw) / HIDDEN == 0xff && raw % HIDDEN != 0
    requires quiet == (raw % HIDDEN >= 0x40_0000)
    ensures ClassOf(raw) == if quiet then QuietNaN else SignalingNaN
    ensures UnpackedFp32(SignOf(raw), 0, raw % HIDDEN, ClassOf(raw)).ToBits() == raw
  {
    var f := raw % HIDDEN;
    assert f % 0x40_0000 == if quiet then f - 0x40_0000 else f;
  }

  lemma NormalValue(m: nat)
    requires HIDDEN <= m < INFINITY
    ensures 1 <= m / HIDDEN <= 254
    ensures m == m / HIDDEN * HIDDEN + m % HIDDEN
    ensures MagValue(m) == Scale((HIDDEN + m % HIDDEN) as real, m / HIDDEN - 150)
  {
  }

  lemma FieldsOf(raw: u32)
    ensures Bit(raw, 31) <==> SignOf(raw)
    ensures Shr(raw, 23) % 0x100 == MagOf(raw) / HIDDEN
    ensures raw % HIDDEN == MagOf(raw) % HIDDEN
  {
    Pow2Values();
    TopBit(raw, 31);
    ShrIsDivision(raw, 23);
    Split(raw);
  }

  lemma Split(raw: u32)
    ensures raw / HIDDEN % 0x100 == MagOf(raw) / HIDDEN
    ensures raw % HIDDEN == MagOf(raw) % HIDDEN
  {
    var m := MagOf(raw);
    assert raw == m || raw == m + 0x100 * HIDDEN;
  }

  lemma QuietBit(fraction: nat)
    requires fraction < HIDDEN
    ensures Bit(fraction, 22) <==> fraction >= 0x40_0000
  {
    Pow2Values();
    assert Pow2(23) == 2 * Pow2(22);
    TopBit(fraction, 22);
  }

  lemma SmallPower(k: nat)
    requires Pow2(k) < 2 * HIDDEN
    ensures k < 24
  {
    Pow2Values();
    if k >= 24 {
      Pow2Mono(24, k);
    }
  }
}
