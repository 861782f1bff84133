/** Bytes, sectors and the little-endian words stored in them. */
module Bytes {
  type Byte = b: int | 0 <= b < 256

  const SECTOR_SIZE: nat := 512

  type Sector = s: seq<Byte> | |s| == SECTOR_SIZE witness seq(SECTOR_SIZE, _ => 0)

  function ZeroSector(): (s: Sector)
    ensures forall i | 0 <= i < SECTOR_SIZE :: s[i] == 0
  {
    seq(SECTOR_SIZE, _ => 0)
  }

  const U32: nat := 0x1_0000_0000

  /** The sequence `s` with the bytes from `off` on overwritten by `b`: the effect of a memory copy. */
  function Splice<T>(s: seq<T>, off: nat, b: seq<T>): (r: seq<T>)
    requires off + |b| <= |s|
    ensures |r| == |s|
    ensures forall i {:trigger r[i]} :: 0 <= i < |s| ==> r[i] == if off <= i < off + |b| then b[i - off] else s[i]
  {
    s[..off] + b + s[off + |b|..]
  }

  /** A window apart from the spliced bytes reads as before; the window over them reads the new bytes. */
  lemma SpliceWindow<T>(s: seq<T>, off: nat, b: seq<T>, lo: nat, hi: nat)
    requires off + |b| <= |s| && lo <= hi <= |s|
    ensures hi <= off || off + |b| <= lo ==> Splice(s, off, b)[lo..hi] == s[lo..hi]
    ensures lo == off && hi == off + |b| ==> Splice(s, off, b)[lo..hi] == b
  {
    assert |Splice(s, off, b)| == |s|;
  }

  function Le16(v: nat): (b: seq<Byte>)
    requires v < 0x1_0000
    ensures |b| == 2
  {
    [v % 256, v / 256]
  }

  function Un16(b: seq<Byte>): (v: nat)
    requires |b| == 2
    ensures v < 0x1_0000
  {
    b[0] as int + 256 * (b[1] as int)
  }

  function Le32(v: nat): (b: seq<Byte>)
    requires v < U32
    ensures |b| == 4
  {
    [v % 256, v / 256 % 256, v / 65536 % 256, v / 16777216]
  }

  function Un32(b: seq<Byte>): (v: nat)
    requires |b| == 4
    ensures v < U32
  {
    b[0] as int + 256 * (b[1] as int) + 65536 * (b[2] as int) + 16777216 * (b[3] as int)
  }

  /** The word stored at a byte offset of a sector. */
  function Word(s: Sector, off: nat): (v: nat)
    requires off + 4 <= SECTOR_SIZE
    ensures v < U32
  {
    Un32(s[off..off + 4])
  }

  function StoreWord(s: Sector, off: nat, v: nat): Sector
    requires off + 4 <= SECTOR_SIZE && v < U32
  {
    Splice(s, off, Le32(v))
  }

  /** A stored word reads back, and words apart from it keep their value. */
  lemma WordStored(s: Sector, off: nat, v: nat, at: nat)
    requires off + 4 <= SECTOR_SIZE && v < U32 && at + 4 <= SECTOR_SIZE
    ensures at == off ==> Word(StoreWord(s, off, v), at) == v
    ensures at + 4 <= off || off + 4 <= at ==> Word(StoreWord(s, off, v), at) == Word(s, at)
  {
    Le32RoundTrip(v);
    SpliceWindow(s, off, Le32(v), at, at + 4);
  }

  lemma Le16RoundTrip(v: nat)
    requires v < 0x1_0000
    ensures Un16(Le16(v)) == v
  {
  }

  lemma Le32RoundTrip(v: nat)
    requires v < U32
    ensures Un32(Le32(v)) == v
  {
    assert v / 256 == v / 65536 * 256 + v / 256 % 256;
    assert v / 65536 == v / 16777216 * 256 + v / 65536 % 256;
  }

  /** The number with these bytes, the lowest one first. */
  function Spelt(a: Byte, b: Byte, c: Byte, d: Byte): nat {
    a as int + 0x100 * (b as int) + 0x1_0000 * (c as int) + 0x100_0000 * (d as int)
  }

  /** The low byte comes first. */
  lemma LowByteFirst()
    ensures Le16(0x0201) == [1, 2] && Un16([1, 2]) == 0x0201
    ensures Le32(0x04030201) == [1, 2, 3, 4] && Un32([1, 2, 3, 4]) == Spelt(1, 2, 3, 4) == 0x04030201
  {
  }

  /** The product `a * n` as repeated addition; `MulIsProduct` ties it to `*`.  Addresses are computed with it so
      that proofs about layouts stay linear. */
  function Mul(a: nat, n: nat): nat {
    if a == 0 then 0 else Mul(a - 1, n) + n
  }

  lemma {:induction false} MulIsProduct(a: nat, n: nat)
    ensures Mul(a, n) == a * n
  {
    if a > 0 {
      MulIsProduct(a - 1, n);
      assert a * n == (a - 1) * n + n;
    }
  }

  /** `a * n + r` with `r < n` lies below `b * n` exactly when `a < b`: two-level addresses never collide. */
  lemma {:induction false} Digits(n: nat, a: nat, r: nat, b: nat, t: nat)
    requires r < n && t < n
    ensures a < b ==> Mul(a, n) + r < Mul(b, n)
    ensures b < a ==> Mul(b, n) + t < Mul(a, n)
    ensures Mul(a, n) + r == Mul(b, n) + t ==> a == b && r == t
  {
    if a > 0 && b > 0 {
      Digits(n, a - 1, r, b - 1, t);
    }
  }

  function Quot(x: nat, n: nat): nat
    requires n > 0
  {
    x / n
  }

  function Rem(x: nat, n: nat): nat
    requires n > 0
  {
    x % n
  }

  /** Every number is the two-level address of its quotient and remainder... */
  lemma QuotRem(n: nat, x: nat)
    requires n > 0
    ensures Mul(Quot(x, n), n) + Rem(x, n) == x && Rem(x, n) < n
  {
    MulIsProduct(x / n, n);
  }

  /** ... and of no others. */
  lemma QuotRemUnique(n: nat, a: nat, r: nat)
    requires r < n
    ensures Quot(Mul(a, n) + r, n) == a && Rem(Mul(a, n) + r, n) == r
  {
    var x := Mul(a, n) + r;
    QuotRem(n, x);
    Digits(n, Quot(x, n), Rem(x, n), a, r);
  }

  /** Stepping a two-level index by one. */
  lemma QuotRemNext(n: nat, x: nat)
    requires n > 0
    ensures Rem(x, n) + 1 < n ==> Quot(x + 1, n) == Quot(x, n) && Rem(x + 1, n) == Rem(x, n) + 1
    ensures Rem(x, n) + 1 == n ==> Quot(x + 1, n) == Quot(x, n) + 1 && Rem(x + 1, n) == 0
    ensures Rem(Rem(x, n) + 1, n) == 0 <==> Rem(x, n) + 1 == n
  {
    hide Quot, Rem;
    QuotRem(n, x);
    QuotRemUnique(n, 1, 0);
    if Rem(x, n) + 1 < n {
      QuotRemUnique(n, Quot(x, n), Rem(x, n) + 1);
      QuotRemUnique(n, 0, Rem(x, n) + 1);
    } else {
      QuotRemUnique(n, Quot(x, n) + 1, 0);
    }
  }
}
