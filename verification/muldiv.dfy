/** The RV64M unit (src/mul_div.cpp). */
module MulDiv {
  import opened Words

  datatype MulDivOp = Mul | Mulh | Mulhsu | Mulhu | Div | Divu | Rem | Remu

  lemma LimbProduct(a: nat, b: nat)
    requires a < B32 && b < B32
    ensures a * b <= 0xffff_fffe_0000_0001
  {
    MulMono(a, B32 - 1, b);
    MulMono(b, B32 - 1, B32 - 1);
  }

  /** The high 64 bits of the 128-bit product, from 32-bit limbs; no sum overflows. */
  function MultiplyHighUnsigned(lhs: u64, rhs: u64): (high: u64)
    ensures high == lhs * rhs / B64
  {
    var lhsLow: u64, lhsHigh: u64 := lhs % B32, lhs / B32;
    var rhsLow: u64, rhsHigh: u64 := rhs % B32, rhs / B32;
    LimbProduct(lhsLow, rhsLow);
    LimbProduct(lhsLow, rhsHigh);
    LimbProduct(lhsHigh, rhsLow);
    LimbProduct(lhsHigh, rhsHigh);
    var lowLow: u64 := lhsLow * rhsLow;
    var lowHigh: u64 := lhsLow * rhsHigh;
    var highLow: u64 := lhsHigh * rhsLow;
    var highHigh: u64 := lhsHigh * rhsHigh;
    var carry: u64 := lowLow / B32 + lowHigh % B32 + highLow % B32;
    SchoolProduct(lhs, rhs);
    LimbSum(lhs * rhs, lowLow, lowHigh, highLow, highHigh);
    ProductBound(lhs, rhs);
    highHigh + lowHigh / B32 + highLow / B32 + carry / B32
  }

  lemma SchoolProduct(lhs: nat, rhs: nat)
    ensures lhs * rhs == lhs % B32 * (rhs % B32)
      + B32 * (lhs % B32 * (rhs / B32)) + B32 * (lhs / B32 * (rhs % B32))
      + B64 * (lhs / B32 * (rhs / B32))
  {
    Distribute(lhs % B32, lhs / B32, rhs % B32, rhs / B32, lhs, rhs);
  }

  lemma Distribute(a: nat, b: nat, c: nat, d: nat, l: nat, r: nat)
    requires l == a + B32 * b && r == c + B32 * d
    ensures l * r == a * c + B32 * (a * d) + B32 * (b * c) + B64 * (b * d)
  {
    assert l * r == a * r + B32 * (b * r);
    assert a * r == a * c + B32 * (a * d);
    assert b * r == b * c + B32 * (b * d);
  }

  lemma ProductBound(lhs: nat, rhs: nat)
    requires lhs < B64 && rhs < B64
    ensures 0 <= lhs * rhs / B64 < B64
  {
    ProductAtMost(lhs, rhs, 0xffff_ffff_ffff_ffff, 0xffff_ffff_ffff_ffff);
    QuotientBound(lhs * rhs);
  }

  lemma ProductAtMost(a: nat, b: nat, m: nat, n: nat)
    requires a <= m && b <= n
    ensures 0 <= a * b <= m * n
  {
    MulMono(a, m, b);
    MulMono(b, n, m);
  }

  lemma QuotientBound(p: nat)
    requires p <= 0xffff_ffff_ffff_fffe_0000_0000_0000_0001
    ensures p / B64 < B64
  {
  }

  lemma LimbSum(product: nat, ll: nat, lh: nat, hl: nat, hh: nat)
    requires product == ll + B32 * lh + B32 * hl + B64 * hh
    ensures hh + lh / B32 + hl / B32 + (ll / B32 + lh % B32 + hl % B32) / B32 == product / B64
  {
    var carry := ll / B32 + lh % B32 + hl % B32;
    var q := hh + lh / B32 + hl / B32 + carry / B32;
    DivModUnique(product, B64, q, carry % B32 * B32 + ll % B32);
  }

  /** C++ division truncates towards zero; the remainder takes the dividend's sign. */
  function Magnitude(i: int): nat { if i < 0 then -i else i }

  function TruncDiv(a: int, b: int): int
    requires b != 0
  {
    var q := Magnitude(a) / Magnitude(b);
    if (a < 0) == (b < 0) then q else -q
  }

  function TruncMod(a: int, b: int): int
    requires b != 0
  {
    var r := Magnitude(a) % Magnitude(b);
    if a < 0 then -r else r
  }

  function Execute(op: MulDivOp, lhs: u64, rhs: u64): u64 {
    match op
    case Mul => lhs * rhs % B64
    case Mulh =>
      var high := MultiplyHighUnsigned(lhs, rhs);
      var high' := if lhs >= MIN64 then Wrap(high - rhs) else high;
      if rhs >= MIN64 then Wrap(high' - lhs) else high'
    case Mulhsu =>
      var high := MultiplyHighUnsigned(lhs, rhs);
      if lhs >= MIN64 then Wrap(high - rhs) else high
    case Mulhu => MultiplyHighUnsigned(lhs, rhs)
    case Div =>
      if rhs == 0 then B64 - 1
      else if Signed(lhs) == -0x8000_0000_0000_0000 && Signed(rhs) == -1 then lhs
      else Wrap(TruncDiv(Signed(lhs), Signed(rhs)))
    case Divu => if rhs == 0 then B64 - 1 else (DivBound(lhs, rhs); lhs / rhs)
    case Rem =>
      if rhs == 0 then lhs
      else if Signed(lhs) == -0x8000_0000_0000_0000 && Signed(rhs) == -1 then 0
      else Wrap(TruncMod(Signed(lhs), Signed(rhs)))
    case Remu => if rhs == 0 then lhs else lhs % rhs
  }

  /** The word forms; the high products have none. */
  function ExecuteWord(op: MulDivOp, lhs: u64, rhs: u64): u64
    requires op != Mulh && op != Mulhsu && op != Mulhu
  {
    var l: u32, r: u32 := lhs % B32, rhs % B32;
    match op
    case Mul => SignExtendWord(l * r % B32)
    case Div =>
      if r == 0 then B64 - 1
      else if Signed32(l) == -0x8000_0000 && Signed32(r) == -1 then SignExtendWord(l)
      else SignExtendWord(Wrap32(TruncDiv(Signed32(l), Signed32(r))))
    case Divu => SignExtendWord(if r == 0 then B32 - 1 else (DivBound(l, r); l / r))
    case Rem =>
      if r == 0 then SignExtendWord(l)
      else if Signed32(l) == -0x8000_0000 && Signed32(r) == -1 then 0
      else SignExtendWord(Wrap32(TruncMod(Signed32(l), Signed32(r))))
    case Remu => SignExtendWord(if r == 0 then l else l % r)
  }

  // ---- The 128-bit product.

  /** A product moved by a multiple of 2^64 keeps its low word and shifts its high word. */
  lemma HighWord(p: nat, k: int)
    ensures (p / B64 - k) * B64 + p % B64 == p - k * B64
    ensures Wrap(p - k * B64) == p % B64
  {
    WrapShift(p, -k);
  }

  /** What the signs take off the high word: s and t say which operands are negative. */
  function Correction(lhs: nat, rhs: nat, s: bool, t: bool): int {
    (if s then rhs else 0) + (if t then lhs else 0) - if s && t then B64 else 0
  }

  function Read(v: nat, negative: bool): int { if negative then v - B64 else v }

  lemma CorrectedProduct(lhs: nat, rhs: nat, s: bool, t: bool)
    ensures Read(lhs, s) * Read(rhs, t) == lhs * rhs - Correction(lhs, rhs, s, t) * B64
  {
    assert (lhs - B64) * rhs == lhs * rhs - rhs * B64;
    assert lhs * (rhs - B64) == lhs * rhs - lhs * B64;
    assert (lhs - B64) * (rhs - B64) == lhs * rhs - rhs * B64 - lhs * B64 + B64 * B64;
  }

  lemma SignedProductBound(a: int, b: int, m: nat, n: nat)
    requires Magnitude(a) <= m && Magnitude(b) <= n
    ensures Magnitude(a * b) <= m * n
  {
    ProductAtMost(Magnitude(a), Magnitude(b), m, n);
    assert a * b == Magnitude(a) * Magnitude(b) || a * b == -(Magnitude(a) * Magnitude(b));
  }

  lemma HighInRange(high: int, low: nat, q: int)
    requires low < B64 && high * B64 + low == q
    requires Magnitude(q) <= 0x7fff_ffff_ffff_ffff_8000_0000_0000_0000
    ensures -0x8000_0000_0000_0000 <= high < MIN64
  {
  }

  lemma ReadBound(lhs: u64, rhs: u64, t: bool, q: int)
    requires t ==> rhs >= MIN64
    requires q == Read(lhs, lhs >= MIN64) * Read(rhs, t)
    ensures Magnitude(q) <= 0x7fff_ffff_ffff_ffff_8000_0000_0000_0000
  {
    SignedProductBound(Read(lhs, lhs >= MIN64), Read(rhs, t), 0x8000_0000_0000_0000, 0xffff_ffff_ffff_ffff);
  }

  /** The corrected high word is the high word of the signed or mixed product q. */
  lemma CorrectedHigh(p: nat, k: int, q: int)
    requires q == p - k * B64
    requires Magnitude(q) <= 0x7fff_ffff_ffff_ffff_8000_0000_0000_0000
    ensures Signed(Wrap(p / B64 - k)) * B64 + p % B64 == q
  {
    HighWord(p, k);
    HighInRange(p / B64 - k, p % B64, q);
    WrapReads(p / B64 - k);
  }

  /** The two halves the unit computes are those of the product p. */
  lemma Halves(lhs: u64, rhs: u64, p: nat)
    requires p == lhs * rhs
    ensures MultiplyHighUnsigned(lhs, rhs) == p / B64 && Execute(Mul, lhs, rhs) == p % B64
  {
  }

  lemma MulhCorrects(lhs: u64, rhs: u64, h: u64)
    requires h == MultiplyHighUnsigned(lhs, rhs)
    ensures Execute(Mulh, lhs, rhs) == Wrap(h - Correction(lhs, rhs, lhs >= MIN64, rhs >= MIN64))
    ensures Execute(Mulhsu, lhs, rhs) == Wrap(h - Correction(lhs, rhs, lhs >= MIN64, false))
  {
    hide MultiplyHighUnsigned, Wrap;
    WrapTwice(h, rhs, lhs);
    WrapShift(h - rhs - lhs, 1);
    WrapSmall(h);
  }

  lemma SignedProductIs(lhs: u64, rhs: u64, t: bool, p: nat, q: int)
    requires t ==> rhs >= MIN64
    requires p == lhs * rhs && q == Signed(lhs) * Read(rhs, t)
    ensures q == p - Correction(lhs, rhs, lhs >= MIN64, t) * B64
    ensures Magnitude(q) <= 0x7fff_ffff_ffff_ffff_8000_0000_0000_0000
  {
    CorrectedProduct(lhs, rhs, lhs >= MIN64, t);
    ReadIsSigned(lhs);
    SameProduct(Signed(lhs), Read(rhs, t), Read(lhs, lhs >= MIN64), Read(rhs, t));
    ReadBound(lhs, rhs, t, q);
    hide Correction;
  }

  /** Mulh over Mul is the exact signed 128-bit product. */
  lemma MulhIsExact(lhs: u64, rhs: u64)
    ensures Signed(Execute(Mulh, lhs, rhs)) * B64 + Execute(Mul, lhs, rhs) == Signed(lhs) * Signed(rhs)
  {
    ReadIsSigned(rhs);
    MulhExactFor(lhs, rhs, rhs >= MIN64, Mulh, lhs * rhs, Signed(lhs) * Signed(rhs));
    hide Signed, Execute;
  }

  /** Mulhsu over Mul is the exact product of a signed and an unsigned operand. */
  lemma MulhsuIsExact(lhs: u64, rhs: u64)
    ensures Signed(Execute(Mulhsu, lhs, rhs)) * B64 + Execute(Mul, lhs, rhs) == Signed(lhs) * rhs
  {
    MulhExactFor(lhs, rhs, false, Mulhsu, lhs * rhs, Signed(lhs) * rhs);
    hide Signed, Execute;
  }

  lemma MulhExactFor(lhs: u64, rhs: u64, t: bool, op: MulDivOp, p: nat, q: int)
    requires (op == Mulh && t == (rhs >= MIN64)) || (op == Mulhsu && !t)
    requires p == lhs * rhs && q == Signed(lhs) * Read(rhs, t)
    ensures Signed(Execute(op, lhs, rhs)) * B64 + Execute(Mul, lhs, rhs) == q
  {
    hide *;
    Halves(lhs, rhs, p);
    MulhCorrects(lhs, rhs, MultiplyHighUnsigned(lhs, rhs));
    SignedProductIs(lhs, rhs, t, p, q);
    CorrectedHigh(p, Correction(lhs, rhs, lhs >= MIN64, t), q);
  }

  /** Mulhu over Mul is the exact unsigned product. */
  lemma MulhuIsExact(lhs: u64, rhs: u64)
    ensures Execute(Mulhu, lhs, rhs) * B64 + Execute(Mul, lhs, rhs) == lhs * rhs
  {
  }

  lemma WrapSmall(i: int)
    requires 0 <= i < B64
    ensures Wrap(i) == i
  {
    DivModUnique(i, B64, 0, i);
  }

  lemma SameProduct(a: int, b: int, a': int, b': int)
    requires a == a' && b == b'
    ensures a * b == a' * b'
  {
  }

  lemma ReadIsSigned(v: u64)
    ensures Signed(v) == Read(v, v >= MIN64)
  {
  }

  lemma WrapTwice(h: int, a: int, b: int)
    ensures Wrap(Wrap(h - a) - b) == Wrap(h - a - b)
  {
    WrapShift(h - a - b, -((h - a) / B64));
  }

  // ---- Division.

  /** Truncating division: exact, with a smaller remainder of the dividend's sign. */
  lemma TruncDivides(a: int, b: int)
    requires b != 0
    ensures a == TruncDiv(a, b) * b + TruncMod(a, b)
    ensures Magnitude(TruncMod(a, b)) < Magnitude(b)
    ensures TruncMod(a, b) != 0 ==> (TruncMod(a, b) < 0 <==> a < 0)
    ensures Magnitude(TruncDiv(a, b)) <= Magnitude(a)
    ensures Magnitude(b) > 1 ==> TruncDiv(a, b) == 0 || Magnitude(TruncDiv(a, b)) < Magnitude(a)
  {
    TruncParts(a, b);
    Divided(Magnitude(a), Magnitude(b));
    hide TruncDiv, TruncMod;
    TruncCore(a, b, Magnitude(a) / Magnitude(b), Magnitude(a) % Magnitude(b), TruncDiv(a, b), TruncMod(a, b));
  }

  lemma Divided(m: nat, n: nat)
    requires n > 0
    ensures m / n >= 0 && m == (m / n) * n + m % n && m % n < n
  {
  }

  lemma TruncCore(a: int, b: int, q: nat, r: nat, t: int, u: int)
    requires b != 0 && Magnitude(a) == q * Magnitude(b) + r && r < Magnitude(b)
    requires t == (if (a < 0) == (b < 0) then q else 0 - q) && u == if a < 0 then 0 - r else r
    ensures a == t * b + u && Magnitude(u) < Magnitude(b) && (u != 0 ==> (u < 0 <==> a < 0))
    ensures Magnitude(t) <= Magnitude(a)
    ensures Magnitude(b) > 1 ==> t == 0 || Magnitude(t) < Magnitude(a)
  {
    var n := Magnitude(b);
    SignCases(q, n, b, t);
    NatDivides(Magnitude(a), n, q, r);
    EuclidBound(Magnitude(a), n, q, r);
  }

  lemma TruncParts(a: int, b: int)
    requires b != 0
    ensures var q := Magnitude(a) / Magnitude(b);
            TruncDiv(a, b) == if (a < 0) == (b < 0) then q else 0 - q
    ensures var r := Magnitude(a) % Magnitude(b);
            TruncMod(a, b) == if a < 0 then 0 - r else r
  {
  }

  lemma NatDivides(m: nat, n: nat, q: nat, r: nat)
    requires n > 0 && m == q * n + r
    ensures n > 1 ==> q == 0 || q < m
  {
    if n > 1 && q > 0 {
      MulMono(2, n, q);
    }
  }

  lemma SignCases(q: nat, n: nat, b: int, t: int)
    requires (b == n || b + n == 0) && (t == q || t + q == 0)
    ensures t * b == if (t == q) == (b == n) then q * n else -(q * n)
  {
  }

  /** Only the one overflowing quotient does not fit. */
  lemma QuotientFits(a: int, b: int, m: nat)
    requires b != 0 && 0 <= a + m && a < m
    requires !(a + m == 0 && b == -1)
    ensures 0 <= TruncDiv(a, b) + m && TruncDiv(a, b) < m
  {
    TruncDivides(a, b);
    if b == -1 {
      assert TruncDiv(a, b) == -a;
    }
  }

  /** Div and Rem, signed: the RISC-V rules for all operands. */
  lemma SignedDivision(lhs: u64, rhs: u64)
    ensures var (a, b) := (Signed(lhs), Signed(rhs));
            var (q, r) := (Execute(Div, lhs, rhs), Execute(Rem, lhs, rhs));
            && (b == 0 ==> Signed(q) == -1 && r == lhs)
            && (a == -0x8000_0000_0000_0000 && b == -1 ==> q == lhs && r == 0)
            && (b != 0 && !(a == -0x8000_0000_0000_0000 && b == -1) ==> a == Signed(q) * b + Signed(r))
            && (b != 0 ==> Magnitude(Signed(r)) < Magnitude(b) && (r != 0 ==> (Signed(r) < 0 <==> a < 0)))
  {
    var a, b := Signed(lhs), Signed(rhs);
    SignedWraps(rhs);
    if b != 0 && !(a == -0x8000_0000_0000_0000 && b == -1) {
      TruncDivides(a, b);
      QuotientFits(a, b, MIN64);
      WrapReads(TruncDiv(a, b));
      WrapReads(TruncMod(a, b));
      SignedWraps(Execute(Rem, lhs, rhs));
    }
    hide TruncDiv, TruncMod;
  }

  /** Dividend and result agree modulo 2^64 on all operands, zero and overflow included. */
  lemma DivisionRecombines(lhs: u64, rhs: u64)
    ensures Wrap(Signed(Execute(Div, lhs, rhs)) * Signed(rhs) + Signed(Execute(Rem, lhs, rhs))) == lhs
  {
    var a, b := Signed(lhs), Signed(rhs);
    var q, r := Execute(Div, lhs, rhs), Execute(Rem, lhs, rhs);
    SignedDivision(lhs, rhs);
    SignedWraps(lhs);
    if b == 0 {
      Zeroes(Signed(q), b);
    } else if a == -0x8000_0000_0000_0000 && b == -1 {
      WrapShift(a, 1);
      Negates(Signed(q), b);
    }
    hide Execute, Signed, Wrap;
  }

  lemma Zeroes(q: int, b: int)
    requires b == 0
    ensures q * b == 0
  {
  }

  lemma Negates(q: int, b: int)
    requires b == -1
    ensures q * b == -q
  {
  }

  /** Divu and Remu divide, and recombine modulo 2^64 even for a zero divisor. */
  lemma UnsignedDivision(lhs: u64, rhs: u64)
    ensures var (q, r) := (Execute(Divu, lhs, rhs), Execute(Remu, lhs, rhs));
            && (rhs == 0 ==> q == B64 - 1 && r == lhs)
            && lhs == (if rhs == 0 then 0 else q) * rhs + r
            && (rhs != 0 ==> r < rhs)
  {
  }

  // ---- The word forms refine the doubleword forms.

  /** A word product is the low word of the doubleword product of any extensions. */
  lemma WordMul(lhs: u64, rhs: u64)
    ensures ExecuteWord(Mul, lhs, rhs) == SignExtendWord(Execute(Mul, lhs, rhs) % B32)
  {
    var l, r, a, b := lhs % B32, rhs % B32, lhs / B32, rhs / B32;
    var low, k := l * r, l * b + a * r + B32 * (a * b);
    SchoolProduct(lhs, rhs);
    assert lhs * rhs == low + B32 * k;
    hide SignExtendWord;
    DivModUnique(lhs * rhs, B32, low / B32 + k, low % B32);
    LowWord(lhs * rhs);
  }

  /** Signed word division is doubleword division of the sign-extended words. */
  lemma WordDivision(lhs: u64, rhs: u64)
    ensures var (l, r) := (SignExtendWord(lhs % B32), SignExtendWord(rhs % B32));
            && ExecuteWord(Div, lhs, rhs) == SignExtendWord(Execute(Div, l, r) % B32)
            && ExecuteWord(Rem, lhs, rhs) == SignExtendWord(Execute(Rem, l, r) % B32)
  {
    var l, r := lhs % B32, rhs % B32;
    var a, b := Signed32(l), Signed32(r);
    ExtendReads(l);
    ExtendReads(r);
    if b != 0 {
      if a == -0x8000_0000 && b == -1 {
        assert TruncDiv(a, b) == 0x8000_0000 && TruncMod(a, b) == 0;
      }
      LowWord(TruncDiv(a, b));
      LowWord(TruncMod(a, b));
    }
    hide TruncDiv, TruncMod, Signed;
  }

  /** Unsigned word division is doubleword division of the zero-extended words. */
  lemma UnsignedWordDivision(lhs: u64, rhs: u64)
    ensures var (l, r) := (lhs % B32, rhs % B32);
            && ExecuteWord(Divu, lhs, rhs) == SignExtendWord(Execute(Divu, l, r) % B32)
            && ExecuteWord(Remu, lhs, rhs) == SignExtendWord(Execute(Remu, l, r) % B32)
  {
    var l, r := lhs % B32, rhs % B32;
    if r != 0 {
      DivBound(l, r);
      DivModUnique(l / r, B32, 0, l / r);
      DivModUnique(l % r, B32, 0, l % r);
    } else {
      DivModUnique(l, B32, 0, l);
    }
  }
}
