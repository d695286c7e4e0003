/** Byte-addressed little-endian memory (src/ram.cpp). */
module Ram {
  import opened Words

  /** The contents of a memory: where it starts, and its bytes. */
  datatype Image = Image(base: u64, bytes: seq<u8>)

  /** 256^n */
  function Base(n: nat): (p: nat)
    ensures p >= 1
  {
    if n == 0 then 1 else 256 * Base(n - 1)
  }

  /** The n bytes from off on, read as a little-endian number. */
  function Load(bytes: seq<u8>, off: nat, n: nat): (v: nat)
    requires off + n <= |bytes|
    ensures v < Base(n)
    decreases n
  {
    if n == 0 then 0 else bytes[off] + 256 * Load(bytes, off + 1, n - 1)
  }

  /** The n low bytes of v written from off on, lowest first. */
  function Store(bytes: seq<u8>, off: nat, n: nat, v: nat): (r: seq<u8>)
    requires off + n <= |bytes|
    ensures |r| == |bytes|
    decreases n
  {
    if n == 0 then bytes else Store(bytes[off := v % 256], off + 1, n - 1, v / 256)
  }

  /** A store changes only the bytes it names. */
  lemma {:induction false} StoreFrames(bytes: seq<u8>, off: nat, n: nat, v: nat, i: nat)
    requires off + n <= |bytes| && i < |bytes| && (i < off || off + n <= i)
    ensures Store(bytes, off, n, v)[i] == bytes[i]
    decreases n
  {
    if n > 0 {
      StoreFrames(bytes[off := v % 256], off + 1, n - 1, v / 256, i);
    }
  }

  /** Equal bytes read as equal numbers. */
  lemma {:induction false} LoadSame(a: seq<u8>, b: seq<u8>, off: nat, n: nat)
    requires off + n <= |a| && off + n <= |b|
    requires forall i :: off <= i < off + n ==> a[i] == b[i]
    ensures Load(a, off, n) == Load(b, off, n)
    decreases n
  {
    if n > 0 {
      LoadSame(a, b, off + 1, n - 1);
    }
  }

  /** What is stored is what is loaded, up to the width. */
  lemma {:induction false} LoadStored(bytes: seq<u8>, off: nat, n: nat, v: nat)
    requires off + n <= |bytes|
    ensures Load(Store(bytes, off, n, v), off, n) == v % Base(n)
    decreases n
  {
    if n > 0 {
      var next := bytes[off := v % 256];
      StoreFrames(next, off + 1, n - 1, v / 256, off);
      LoadStored(next, off + 1, n - 1, v / 256);
      DivDiv(v, 256, Base(n - 1));
    }
  }

  /** Disjoint accesses do not see each other, whatever their widths. */
  lemma LoadElsewhere(bytes: seq<u8>, off: nat, n: nat, v: nat, at: nat, m: nat)
    requires off + n <= |bytes| && at + m <= |bytes|
    requires at + m <= off || off + n <= at
    ensures Load(Store(bytes, off, n, v), at, m) == Load(bytes, at, m)
  {
    var r := Store(bytes, off, n, v);
    forall i | at <= i < at + m
      ensures r[i] == bytes[i]
    {
      StoreFrames(bytes, off, n, v, i);
    }
    LoadSame(r, bytes, at, m);
  }

  /** An access of one byte is that byte, and an offset is the wrapped distance from the base. */
  lemma ByteAccess(bytes: seq<u8>, off: nat, v: nat, base: u64, addr: u64)
    requires off < |bytes|
    ensures Load(bytes, off, 1) == bytes[off] && Store(bytes, off, 1, v) == bytes[off := v % 256]
    ensures Offset(base, addr) == (addr - base) % B64
  {
    assert Load(bytes, off + 1, 0) == 0;
    assert Store(bytes[off := v % 256], off + 1, 0, v / 256) == bytes[off := v % 256];
    DivModUnique(addr - base, B64, if addr >= base then 0 else -1, Offset(base, addr));
  }

  /** v without its n low bytes. */
  function High(v: nat, n: nat): nat {
    if n == 0 then v else High(v / 256, n - 1)
  }

  /** A wide access is its two narrow halves: widths can be mixed. */
  lemma {:induction false} LoadSplits(bytes: seq<u8>, off: nat, m: nat, n: nat)
    requires off + m + n <= |bytes|
    ensures Load(bytes, off, m + n) == Load(bytes, off, m) + Base(m) * Load(bytes, off + m, n)
    decreases m
  {
    if m > 0 {
      LoadSplits(bytes, off + 1, m - 1, n);
      Regrouped(Base(m - 1), Load(bytes, off + m, n), Base(m));
    }
  }

  lemma Regrouped(p: nat, t: nat, q: nat)
    requires q == 256 * p
    ensures q * t == 256 * (p * t)
  {
  }

  lemma {:induction false} StoreSplits(bytes: seq<u8>, off: nat, m: nat, n: nat, v: nat)
    requires off + m + n <= |bytes|
    ensures Store(bytes, off, m + n, v) == Store(Store(bytes, off, m, v), off + m, n, High(v, m))
    decreases m
  {
    if m > 0 {
      StoreSplits(bytes[off := v % 256], off + 1, m - 1, n, v / 256);
    }
  }

  // ---- Addresses.

  /** addr - base, as the wrapping subtraction of the accessors computes it. */
  function Offset(base: u64, addr: u64): (off: u64) {
    if addr >= base then addr - base else addr + B64 - base
  }

  /** The accesses the accessors assert or rely on: aligned, and inside the data. */
  predicate Accessible(m: Image, addr: u64, n: nat)
    requires n > 0
  {
    addr % n == 0 && Offset(m.base, addr) + n <= |m.bytes|
  }

  predicate Width(n: nat) { n == 1 || n == 2 || n == 4 || n == 8 }

  lemma BaseOfWidth()
    ensures Base(1) == 0x100 && Base(2) == 0x1_0000 && Base(4) == 0x1_0000_0000 && Base(8) == B64
  {
    assert Base(0) == 1;
    assert Base(3) == 256 * Base(2);
    assert Base(5) == 256 * Base(4);
    assert Base(6) == 256 * Base(5);
    assert Base(7) == 256 * Base(6);
    assert Base(8) == 256 * Base(7);
  }

  function Read(m: Image, addr: u64, n: nat): (v: u64)
    requires Width(n) && Accessible(m, addr, n)
    ensures v < Base(n)
  {
    BaseOfWidth();
    Load(m.bytes, Offset(m.base, addr), n)
  }

  function Write(m: Image, addr: u64, n: nat, v: u64): (r: Image)
    requires Width(n) && Accessible(m, addr, n)
    ensures r.base == m.base && |r.bytes| == |m.bytes|
  {
    m.(bytes := Store(m.bytes, Offset(m.base, addr), n, v))
  }

  /** Aligned addresses have aligned offsets, so a typed index names the same bytes. */
  lemma AlignedOffset(base: u64, addr: u64, n: nat)
    requires Width(n) && base % 8 == 0 && addr % n == 0
    ensures Offset(base, addr) / n * n == Offset(base, addr)
  {
    hide Offset;
    if n == 2 {
      OffsetBy2(base, addr);
    } else if n == 4 {
      OffsetBy4(base, addr);
    } else if n == 8 {
      OffsetBy8(base, addr);
    }
  }

  lemma OffsetBy2(base: u64, addr: u64)
    requires base % 8 == 0 && addr % 2 == 0
    ensures Offset(base, addr) / 2 * 2 == Offset(base, addr)
  {
    var q := addr / 2 - base / 8 * 4 + if addr >= base then 0 else 0x8000_0000_0000_0000;
    DivModUnique(Offset(base, addr), 2, q, 0);
  }

  lemma OffsetBy4(base: u64, addr: u64)
    requires base % 8 == 0 && addr % 4 == 0
    ensures Offset(base, addr) / 4 * 4 == Offset(base, addr)
  {
    var q := addr / 4 - base / 8 * 2 + if addr >= base then 0 else 0x4000_0000_0000_0000;
    DivModUnique(Offset(base, addr), 4, q, 0);
  }

  lemma OffsetBy8(base: u64, addr: u64)
    requires base % 8 == 0 && addr % 8 == 0
    ensures Offset(base, addr) / 8 * 8 == Offset(base, addr)
  {
    var q := addr / 8 - base / 8 + if addr >= base then 0 else 0x2000_0000_0000_0000;
    DivModUnique(Offset(base, addr), 8, q, 0);
  }

  /** Bytes that are a segment in one place and the old ones elsewhere. */
  lemma Pasted(before: seq<u8>, after: seq<u8>, off: nat, segment: seq<u8>)
    requires |after| == |before| && off + |segment| <= |before|
    requires forall j :: 0 <= j < off || off + |segment| <= j < |before| ==> after[j] == before[j]
    requires forall j :: off <= j < off + |segment| ==> after[j] == segment[j - off]
    ensures after == before[..off] + segment + before[off + |segment|..]
  {
    assert after[..off] == before[..off];
    assert after[off..off + |segment|] == segment;
    assert after[off + |segment|..] == before[off + |segment|..];
  }

  class Memory {
    const base: u64
    const data: array<u8>

    ghost function Contents(): Image
      reads data
    {
      Image(base, data[..])
    }

    constructor (base: u64, size: nat)
      ensures this.base == base && fresh(data) && data.Length == size
      ensures Contents() == Image(base, seq(size, _ => 0))
    {
      this.base := base;
      this.data := new u8[size](_ => 0);
      new;
      assert data[..] == seq(size, _ => 0);
    }

    /** The bytes of an access, as the typed index of the source selects them. */
    method Get(addr: u64, n: nat) returns (v: u64)
      requires Width(n) && base % 8 == 0 && Accessible(Contents(), addr, n)
      ensures v == Read(Contents(), addr, n)
    {
      var index := Offset(base, addr) / n;
      AlignedOffset(base, addr, n);
      var off := index * n;
      BaseOfWidth();
      var i, value: nat := n, 0;
      while i > 0
        invariant 0 <= i <= n
        invariant value == Load(data[..], off + i, n - i)
      {
        i := i - 1;
        value := data[off + i] + 256 * value;
      }
      v := value;
    }

    method Set(addr: u64, n: nat, v: u64)
      requires Width(n) && base % 8 == 0 && Accessible(Contents(), addr, n)
      modifies data
      ensures Contents() == Write(old(Contents()), addr, n, v)
    {
      var index := Offset(base, addr) / n;
      AlignedOffset(base, addr, n);
      var off := index * n;
      var i, rest := 0, v;
      while i < n
        invariant 0 <= i <= n
        invariant Store(data[..], off + i, n - i, rest) == Store(old(data[..]), off, n, v)
      {
        ghost var before := data[..];
        data[off + i] := rest % 256;
        assert data[..] == before[off + i := rest % 256];
        rest := rest / 256;
        i := i + 1;
      }
    }

    /** Copies a loaded segment into place. */
    method LoadSegment(addr: u64, segment: seq<u8>)
      requires Offset(base, addr) + |segment| <= data.Length
      modifies data
      ensures var off := Offset(base, addr);
              data[..] == old(data[..])[..off] + segment + old(data[..])[off + |segment|..]
    {
      var off := Offset(base, addr);
      for i := 0 to |segment|
        invariant forall j :: 0 <= j < off || off + i <= j < data.Length ==> data[j] == old(data[j])
        invariant forall j :: off <= j < off + i ==> data[j] == segment[j - off]
      {
        data[off + i] := segment[i];
      }
      Pasted(old(data[..]), data[..], off, segment);
    }

    /** Zeroes a range. */
    method Clear(addr: u64, size: nat)
      requires Offset(base, addr) + size <= data.Length
      modifies data
      ensures var off := Offset(base, addr);
              data[..] == old(data[..])[..off] + seq(size, _ => 0) + old(data[..])[off + size..]
    {
      var off := Offset(base, addr);
      for i := 0 to size
        invariant forall j :: 0 <= j < off || off + i <= j < data.Length ==> data[j] == old(data[j])
        invariant forall j :: off <= j < off + i ==> data[j] == 0
      {
        data[off + i] := 0;
      }
      Pasted(old(data[..]), data[..], off, seq(size, _ => 0));
    }
  }
}
