/** The small fields of register values, as remainders and quotients. */
module Fields {
  import opened Words

  /** value & 0x1f and fcsr >> 5 */
  function FlagsOf(fcsr: u64): u64 { fcsr % 32 }

  function ModeOf(fcsr: u64): u64 { fcsr / 32 }

  /** fcsr & ~0x1f | value & 0x1f */
  function WithFlags(fcsr: u64, value: u64): u64 { fcsr - fcsr % 32 + value % 32 }

  /** fcsr & ~0xe0 | (value & 0x7) << 5 */
  function WithMode(fcsr: u64, value: u64): u64 { fcsr - fcsr % 256 + value % 8 * 32 + fcsr % 32 }

  function Byte(value: u64): u64 { value % 256 }

  /** value & ~0b11 */
  function WordAligned(value: u64): u64 { value - value % 4 }

  lemma FlagsWritten(fcsr: u64, value: u64)
    ensures FlagsOf(WithFlags(fcsr, value)) == value % 32
    ensures ModeOf(WithFlags(fcsr, value)) == ModeOf(fcsr)
    ensures WithFlags(fcsr, value) == fcsr / 32 * 32 + value % 32
  {
    DivModUnique(fcsr / 32 * 32 + value % 32, 32, fcsr / 32, value % 32);
  }

  lemma ModeWritten(fcsr: u64, value: u64)
    requires fcsr <= 0xff
    ensures ModeOf(WithMode(fcsr, value)) == value % 8
    ensures FlagsOf(WithMode(fcsr, value)) == FlagsOf(fcsr)
    ensures WithMode(fcsr, value) == value % 8 * 32 + fcsr % 32
  {
    DivModUnique(value % 8 * 32 + fcsr % 32, 32, value % 8, fcsr % 32);
  }

  lemma ReplayFlags(fcsr: u64, value: u64)
    ensures WithFlags(fcsr, FlagsOf(WithFlags(fcsr, value))) == WithFlags(fcsr, value)
  {
    FlagsWritten(fcsr, value);
    FlagsWritten(fcsr, value % 32);
    DivModUnique(value % 32, 32, 0, value % 32);
  }

  lemma ReplayMode(fcsr: u64, value: u64)
    requires fcsr <= 0xff
    ensures WithMode(fcsr, ModeOf(WithMode(fcsr, value)) % 8) == WithMode(fcsr, value)
  {
    ModeWritten(fcsr, value);
    ModeWritten(fcsr, value % 8);
    DivModUnique(value % 8, 8, 0, value % 8);
  }

  lemma ReplayTruncations(value: u64)
    ensures Byte(Byte(value)) == Byte(value)
    ensures WordAligned(WordAligned(value)) == WordAligned(value)
  {
    DivModUnique(value % 256, 256, 0, value % 256);
    DivModUnique(value - value % 4, 4, value / 4, 0);
  }

  lemma FieldsFit(fcsr: u64, value: u64)
    requires fcsr <= 0xff
    ensures WithFlags(fcsr, value) <= 0xff && WithMode(fcsr, value) <= 0xff && Byte(value) <= 0xff
    ensures WordAligned(value) % 4 == 0
  {
    ModeWritten(fcsr, value);
    FlagsWritten(fcsr, value);
    DivModUnique(value - value % 4, 4, value / 4, 0);
  }

  lemma AlignedIsFixed(value: u64)
    ensures WordAligned(value) == value <==> value % 4 == 0
  {
  }

  /** Writing the two halves of a value one after the other is writing its low byte. */
  lemma HalvesMakeByte(fcsr: u64, value: u64)
    requires fcsr <= 0xff
    ensures WithFlags(fcsr, value % 32) <= 0xff
    ensures WithMode(WithFlags(fcsr, value % 32), value / 32 % 8) == Byte(value)
  {
    FieldsFit(fcsr, value % 32);
    FlagsWritten(fcsr, value % 32);
    ModeWritten(WithFlags(fcsr, value % 32), value / 32 % 8);
    DivModUnique(value % 32, 32, 0, value % 32);
    DivModUnique(value / 32 % 8, 8, 0, value / 32 % 8);
    DivDiv(value, 32, 8);
  }
}
