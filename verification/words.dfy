/** Fixed-width machine words as ranges of the unbounded integers, and powers of two. */
module Words {

  const B32: nat := 0x1_0000_0000
  const B64: nat := 0x1_0000_0000_0000_0000
  const MIN64: nat := 0x8000_0000_0000_0000
  const MIN32: nat := 0x8000_0000

  type u8 = x: nat | x < 0x100
  type u32 = x: nat | x < 0x1_0000_0000
  type u64 = x: nat | x < 0x1_0000_0000_0000_0000
  type i32 = x: int | -0x8000_0000 <= x < 0x8000_0000
  type i64 = x: int | -0x8000_0000_0000_0000 <= x < 0x8000_0000_0000_0000

  /** 2^n. Shifting left by n multiplies by it, shifting right divides by it. */
  function Pow2(n: nat): (p: nat)
    ensures p >= 1
  {
    if n == 0 then 1 else 2 * Pow2(n - 1)
  }

  lemma {:induction false} Pow2Add(a: nat, b: nat)
    ensures Pow2(a + b) == Pow2(a) * Pow2(b)
  {
    if a > 0 {
      Pow2Add(a - 1, b);
    }
  }

  lemma {:induction false} Pow2Mono(a: nat, b: nat)
    requires a <= b
    ensures Pow2(a) <= Pow2(b)
  {
    if a < b {
      Pow2Mono(a, b - 1);
    }
  }

  lemma MulMono(a: int, b: int, c: nat)
    requires a <= b
    ensures a * c <= b * c
  {
  }

  /** Only one quotient leaves a remainder in range. */
  lemma EuclidUnique(d: nat, q: int, r: int, q': int, r': int)
    requires 0 <= r < d && 0 <= r' < d
    requires q * d + r == q' * d + r'
    ensures q == q' && r == r'
  {
    if q < q' {
      MulMono(q + 1, q', d);
    } else if q' < q {
      MulMono(q' + 1, q, d);
    }
  }

  /** A quotient and a remainder in range are the quotient and the remainder. */
  lemma DivModUnique(v: int, d: nat, q: int, r: int)
    requires d > 0 && 0 <= r < d
    requires v == q * d + r
    ensures v / d == q && v % d == r
  {
    EuclidUnique(d, q, r, v / d, v % d);
  }

  /** Dividing by m and then by n is dividing by their product. */
  lemma DivDiv(v: nat, m: nat, n: nat)
    requires m > 0 && n > 0
    ensures m * n > 0
    ensures v / (m * n) == (v / m) / n
    ensures v % (m * n) == (v / m) % n * m + v % m
  {
    var a, b := v / m, v % m;
    var q, c := a / n, a % n;
    Regroup(v, m, n, a, b, q, c);
    DivModUnique(v, m * n, q, c * m + b);
  }

  lemma Regroup(v: nat, m: nat, n: nat, a: nat, b: nat, q: nat, c: nat)
    requires v == a * m + b && a == q * n + c && b < m && c < n
    ensures m * n > 0
    ensures v == q * (m * n) + (c * m + b)
    ensures 0 <= c * m + b < m * n
  {
    assert (q * n + c) * m == q * (m * n) + c * m;
    MulMono(c + 1, n, m);
    assert (c + 1) * m == c * m + m;
    assert n * m == m * n;
    MulMono(1, n, m);
  }

  lemma DivBound(v: nat, d: nat)
    requires d > 0
    ensures 0 <= v / d <= v
  {
    EuclidBound(v, d, v / d, v % d);
  }

  lemma EuclidBound(v: nat, d: nat, q: int, r: nat)
    requires d > 0 && v == q * d + r && r < d
    ensures 0 <= q <= v
  {
    if q < 0 {
      MulMono(q, -1, d);
    } else {
      MulMono(1, d, q);
    }
  }

  // ---- Shifts and bit tests on non-negative integers.

  /** v >> n. */
  function Shr(v: nat, n: nat): (q: nat)
    ensures q <= v
  {
    if n == 0 then v else Shr(v / 2, n - 1)
  }

  /** Whether v >> n shifts out a set bit, v & ((1 << n) - 1) != 0. */
  predicate Discards(v: nat, n: nat) {
    n > 0 && (v % 2 != 0 || Discards(v / 2, n - 1))
  }

  /** v & ((1 << n) - 1). */
  function LowBits(v: nat, n: nat): (r: nat)
    ensures r <= v
  {
    if n == 0 then 0 else v % 2 + 2 * LowBits(v / 2, n - 1)
  }

  /** (v >> k) & 1 != 0. */
  predicate Bit(v: nat, k: nat) { Shr(v, k) % 2 != 0 }

  lemma {:induction false} ShrIsDivision(v: nat, n: nat)
    ensures Shr(v, n) == v / Pow2(n)
    ensures LowBits(v, n) == v % Pow2(n)
    ensures Discards(v, n) <==> v % Pow2(n) != 0
  {
    if n > 0 {
      ShrIsDivision(v / 2, n - 1);
      DivDiv(v, 2, Pow2(n - 1));
    }
  }

  lemma {:induction false} ShrAdd(v: nat, m: nat, n: nat)
    ensures Shr(Shr(v, m), n) == Shr(v, m + n)
  {
    if m > 0 {
      ShrAdd(v / 2, m - 1, n);
    }
  }

  lemma {:induction false} ShrSmall(v: nat, n: nat)
    requires v < Pow2(n)
    ensures Shr(v, n) == 0
    ensures Discards(v, n) <==> v != 0
  {
    if n > 0 {
      ShrSmall(v / 2, n - 1);
    }
  }

  lemma Pow2Values()
    ensures Pow2(16) == 0x1_0000 && Pow2(20) == 0x10_0000 && Pow2(21) == 0x20_0000
    ensures Pow2(23) == 0x80_0000 && Pow2(24) == 0x100_0000
    ensures Pow2(26) == 0x400_0000 && Pow2(27) == 0x800_0000 && Pow2(28) == 0x1000_0000
    ensures Pow2(31) == 0x8000_0000 && Pow2(32) == 0x1_0000_0000
    ensures Pow2(36) == 0x10_0000_0000 && Pow2(47) == 0x8000_0000_0000
    ensures Pow2(46) == 0x4000_0000_0000 && Pow2(48) == 0x1_0000_0000_0000
    ensures Pow2(62) == 0x4000_0000_0000_0000
    ensures Pow2(63) == 0x8000_0000_0000_0000
    ensures Pow2(64) == 0x1_0000_0000_0000_0000
  {
    hide Pow2;
    Pow2Next(0);
    Pow2Next(8);
    Pow2Next(16);
    Pow2Next(24);
    Pow2Next(32);
    Pow2Next(40);
    Pow2Next(48);
    Pow2Next(56);
    Pow2Zero();
  }

  lemma Pow2Zero()
    ensures Pow2(0) == 1
  {
  }

  lemma Pow2Next(n: nat)
    ensures Pow2(n + 1) == 2 * Pow2(n) && Pow2(n + 2) == 4 * Pow2(n)
    ensures Pow2(n + 3) == 8 * Pow2(n) && Pow2(n + 4) == 16 * Pow2(n)
    ensures Pow2(n + 5) == 32 * Pow2(n) && Pow2(n + 6) == 64 * Pow2(n)
    ensures Pow2(n + 7) == 128 * Pow2(n) && Pow2(n + 8) == 256 * Pow2(n)
  {
  }

  lemma ShrOne(v: nat)
    ensures Shr(v, 1) == v / 2
    ensures Discards(v, 1) <==> v % 2 != 0
  {
    assert Shr(v / 2, 0) == v / 2;
    assert !Discards(v / 2, 0);
  }

  /** The top bit of a word of k + 1 bits. */
  lemma {:induction false} TopBit(v: nat, k: nat)
    requires v < 2 * Pow2(k)
    ensures Bit(v, k) <==> v >= Pow2(k)
  {
    if k > 0 {
      TopBit(v / 2, k - 1);
    }
  }

  // ---- Two's complement readings of words, and the writing back.

  function Signed(v: u64): (i: int)
    ensures -0x8000_0000_0000_0000 <= i < MIN64
  {
    if v >= MIN64 then v - B64 else v
  }

  function Signed32(v: u32): (i: int)
    ensures -0x8000_0000 <= i < MIN32
  {
    if v >= MIN32 then v - B32 else v
  }

  function Wrap(i: int): u64 { i % B64 }

  function Wrap32(i: int): u32 { i % B32 }

  /** A word as a register keeps it. */
  function SignExtendWord(value: u32): u64 {
    if value >= MIN32 then value + (B64 - B32) else value
  }

  lemma WrapShift(i: int, k: int)
    ensures Wrap(i + k * B64) == Wrap(i)
  {
    DivModUnique(i + k * B64, B64, i / B64 + k, i % B64);
  }

  lemma WrapReads(i: int)
    requires -0x8000_0000_0000_0000 <= i < MIN64
    ensures Signed(Wrap(i)) == i
  {
    if i < 0 {
      DivModUnique(i, B64, -1, i + B64);
    } else {
      DivModUnique(i, B64, 0, i);
    }
  }

  lemma SignedWraps(v: u64)
    ensures Wrap(Signed(v)) == v
  {
    if v >= MIN64 {
      DivModUnique(v - B64, B64, -1, v);
    }
  }

  lemma ExtendReads(v: u32)
    ensures Signed(SignExtendWord(v)) == Signed32(v)
    ensures SignExtendWord(v) % B32 == v
    ensures SignExtendWord(v) == 0 <==> v == 0
  {
    if v >= MIN32 {
      DivModUnique(v + (B64 - B32), B32, B32 - 1, v);
    } else {
      DivModUnique(v, B32, 0, v);
    }
  }

  /** The low word of a wrapped integer is its own wrapping to 32 bits. */
  lemma LowWord(i: int)
    ensures Wrap(i) % B32 == Wrap32(i)
  {
    var w := Wrap(i);
    DivModUnique(i, B32, i / B64 * B32 + w / B32, w % B32);
  }
}
