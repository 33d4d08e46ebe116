/** Bytes, little-endian integers, fields of a buffer and CRC-32. */
module Bytes {
  type Byte = b: int | 0 <= b < 256

  function Pow256(n: nat): (p: nat)
    ensures p >= 1
  {
    if n == 0 then 1 else 256 * Pow256(n - 1)
  }

  /** The n low bytes of v, least significant first. */
  function Little(v: nat, n: nat): (s: seq<Byte>)
    ensures |s| == n
  {
    if n == 0 then [] else [v % 256] + Little(v / 256, n - 1)
  }

  function FromLittle(s: seq<Byte>): nat {
    if s == [] then 0 else s[0] + 256 * FromLittle(s[1..])
  }

  lemma {:induction false} LittleRoundTrip(v: nat, n: nat)
    requires v < Pow256(n)
    ensures FromLittle(Little(v, n)) == v
  {
    if n > 0 {
      LittleRoundTrip(v / 256, n - 1);
      assert Little(v, n)[1..] == Little(v / 256, n - 1);
    }
  }

  lemma {:induction false} FromLittleBound(s: seq<Byte>)
    ensures FromLittle(s) < Pow256(|s|)
  {
    if s != [] {
      FromLittleBound(s[1..]);
    }
  }

  lemma Powers()
    ensures Pow256(1) == 0x100 && Pow256(2) == 0x1_0000 && Pow256(4) == 0x1_0000_0000 && Pow256(8) == 0x1_0000_0000_0000_0000
  {
    assert Pow256(3) == 256 * Pow256(2);
    assert Pow256(5) == 256 * Pow256(4);
    assert Pow256(7) == 256 * Pow256(6) && Pow256(6) == 256 * Pow256(5);
  }

  const WORD := 0x1_0000_0000_0000_0000  // 2 to the 64

  /** A signed 64-bit number as the unsigned one with the same bits. */
  function Unsigned(x: int): nat {
    x % WORD
  }

  function Signed(u: nat): int {
    if u < WORD / 2 then u else u - WORD
  }

  lemma SignedRoundTrip(x: int)
    ensures Signed(Unsigned(x)) == x <==> -(WORD / 2) <= x < WORD / 2
  {
  }

  /** One char per byte. */
  function ByteOf(c: char): Byte {
    c as int % 256
  }

  function CharOf(b: Byte): char {
    b as char
  }

  function ToBytes(s: string): (r: seq<Byte>)
    ensures |r| == |s|
  {
    seq(|s|, i requires 0 <= i < |s| => ByteOf(s[i]))
  }

  function ToString(b: seq<Byte>): (s: string)
    ensures |s| == |b| && IsBytes(s)
  {
    seq(|b|, i requires 0 <= i < |b| => CharOf(b[i]))
  }

  predicate IsBytes(s: string) {
    forall c :: c in s ==> c as int < 256
  }

  lemma StringRoundTrip(s: string)
    ensures ToString(ToBytes(s)) == s <==> IsBytes(s)
  {
    if IsBytes(s) {
      assert forall i :: 0 <= i < |s| ==> s[i] in s;
    }
  }

  function Zeros(n: nat): (s: seq<Byte>)
    ensures |s| == n
  {
    seq(n, _ => 0)
  }

  /** s with d in place of what was at off. */
  function Splice(s: seq<Byte>, off: nat, d: seq<Byte>): (r: seq<Byte>)
    requires off + |d| <= |s|
    ensures |r| == |s|
  {
    s[..off] + d + s[off + |d|..]
  }

  function Field(s: seq<Byte>, off: nat, n: nat): (d: seq<Byte>)
    requires off + n <= |s|
    ensures |d| == n
  {
    s[off..off + n]
  }

  // ---------------------------------------------------------------- CRC-32 (IEEE)

  /** The low n bits of x, lowest first. */
  function BitsOf(x: nat, n: nat): (bits: seq<bool>)
    ensures |bits| == n
  {
    if n == 0 then [] else [x % 2 == 1] + BitsOf(x / 2, n - 1)
  }

  function NumberOf(bits: seq<bool>): nat {
    if bits == [] then 0 else (if bits[0] then 1 else 0) + 2 * NumberOf(bits[1..])
  }

  function Xor(a: seq<bool>, b: seq<bool>): (c: seq<bool>)
    requires |a| == |b|
    ensures |c| == |a|
  {
    seq(|a|, i requires 0 <= i < |a| => a[i] != b[i])
  }

  /** The polynomial 0xEDB88320, lowest bit first. */
  function Polynomial(): (p: seq<bool>)
    ensures |p| == 32
  {
    [false, false, false, false, false, true, false, false,
     true, true, false, false, false, false, false, true,
     false, false, false, true, true, true, false, true,
     true, false, true, true, false, true, true, true]
  }

  function Ones(): (ones: seq<bool>)
    ensures |ones| == 32
  {
    seq(32, _ => true)
  }

  type Crc = c: seq<bool> | |c| == 32 witness Ones()

  function CrcBit(c: Crc): Crc {
    var shifted := c[1..] + [false];
    if c[0] then Xor(shifted, Polynomial()) else shifted
  }

  function CrcBits(c: Crc, n: nat): Crc
    decreases n
  {
    if n == 0 then c else CrcBits(CrcBit(c), n - 1)
  }

  function ByteBits(x: Byte): Crc {
    BitsOf(x, 8) + seq(24, _ => false)
  }

  function CrcState(s: seq<Byte>): Crc {
    if s == [] then Ones()
    else CrcBits(Xor(CrcState(s[..|s| - 1]), ByteBits(s[|s| - 1])), 8)
  }

  function Checksum(s: seq<Byte>): nat {
    NumberOf(Xor(CrcState(s), Ones()))
  }

  lemma ChecksumFits(s: seq<Byte>)
    ensures Checksum(s) < 0x1_0000_0000
  {
    NumberFits(Xor(CrcState(s), Ones()));
    PowerOfTwo();
  }

  function Pow2(n: nat): nat {
    if n == 0 then 1 else 2 * Pow2(n - 1)
  }

  lemma {:induction false} NumberFits(bits: seq<bool>)
    ensures NumberOf(bits) < Pow2(|bits|)
  {
    if bits != [] {
      NumberFits(bits[1..]);
    }
  }

  lemma PowerOfTwo()
    ensures Pow2(32) == 0x1_0000_0000
  {
    assert Pow2(4) == 16;
    assert Pow2(8) == 16 * Pow2(4);
    assert Pow2(12) == 16 * Pow2(8);
    assert Pow2(16) == 16 * Pow2(12);
    assert Pow2(20) == 16 * Pow2(16);
    assert Pow2(24) == 16 * Pow2(20);
    assert Pow2(28) == 16 * Pow2(24);
    assert Pow2(32) == 16 * Pow2(28);
  }

  // ---------------------------------------------------------------- what a checksum sees

  lemma {:induction false} LittleInjective(a: seq<Byte>, b: seq<Byte>)
    requires |a| == |b| && FromLittle(a) == FromLittle(b)
    ensures a == b
  {
    if a != [] {
      LittleInjective(a[1..], b[1..]);
      assert a == [a[0]] + a[1..] && b == [b[0]] + b[1..];
    }
  }

  lemma {:induction false} NumberInjective(a: seq<bool>, b: seq<bool>)
    requires |a| == |b| && NumberOf(a) == NumberOf(b)
    ensures a == b
  {
    if a != [] {
      NumberInjective(a[1..], b[1..]);
      assert a == [a[0]] + a[1..] && b == [b[0]] + b[1..];
    }
  }

  lemma {:induction false} BitsInjective(x: nat, y: nat, n: nat)
    requires x < Pow2(n) && y < Pow2(n) && BitsOf(x, n) == BitsOf(y, n)
    ensures x == y
  {
    if n > 0 {
      assert BitsOf(x, n)[1..] == BitsOf(x / 2, n - 1) && BitsOf(y, n)[1..] == BitsOf(y / 2, n - 1);
      assert BitsOf(x, n)[0] == (x % 2 == 1) && BitsOf(y, n)[0] == (y % 2 == 1);
      BitsInjective(x / 2, y / 2, n - 1);
    }
  }

  lemma ByteInjective(x: Byte, y: Byte)
    requires ByteBits(x) == ByteBits(y)
    ensures x == y
  {
    assert ByteBits(x)[..8] == BitsOf(x, 8) && ByteBits(y)[..8] == BitsOf(y, 8);
    assert Pow2(4) == 16 && Pow2(8) == 16 * Pow2(4);
    BitsInjective(x, y, 8);
  }

  lemma XorCancels(a: seq<bool>, b: seq<bool>, c: seq<bool>)
    requires |a| == |b| == |c|
    ensures Xor(a, c) == Xor(b, c) ==> a == b
    ensures Xor(c, a) == Xor(c, b) ==> a == b
  {
    if Xor(a, c) == Xor(b, c) {
      forall i | 0 <= i < |a| ensures a[i] == b[i] {
        assert Xor(a, c)[i] == Xor(b, c)[i];
      }
    }
    if Xor(c, a) == Xor(c, b) {
      forall i | 0 <= i < |a| ensures a[i] == b[i] {
        assert Xor(c, a)[i] == Xor(c, b)[i];
      }
    }
  }

  /** No two states become one: the highest bit after a step tells the lowest before it. */
  lemma CrcBitInjective(c: Crc, d: Crc)
    requires CrcBit(c) == CrcBit(d)
    ensures c == d
  {
    var s, t := c[1..] + [false], d[1..] + [false];
    assert Polynomial()[31] && CrcBit(c)[31] == c[0] && CrcBit(d)[31] == d[0];
    XorCancels(s, t, Polynomial());
    assert s == t;
    assert c == [c[0]] + s[..31] && d == [d[0]] + t[..31];
  }

  lemma {:induction false} CrcBitsInjective(c: Crc, d: Crc, n: nat)
    requires CrcBits(c, n) == CrcBits(d, n)
    ensures c == d
    decreases n
  {
    hide CrcBit;
    if n > 0 {
      CrcBitsInjective(CrcBit(c), CrcBit(d), n - 1);
      CrcBitInjective(c, d);
    }
  }

  /** States that differ stay different over the same bytes. */
  lemma {:induction false} CrcStaysApart(a: seq<Byte>, b: seq<Byte>, rest: seq<Byte>)
    requires CrcState(a) != CrcState(b)
    ensures CrcState(a + rest) != CrcState(b + rest)
  {
    hide CrcBits, Xor, ByteBits;
    if rest == [] {
      assert a + rest == a && b + rest == b;
    } else {
      var n := |rest| - 1;
      CrcStaysApart(a, b, rest[..n]);
      assert (a + rest)[..|a| + n] == a + rest[..n] && (b + rest)[..|b| + n] == b + rest[..n];
      NextApart(CrcState(a + rest[..n]), CrcState(b + rest[..n]), ByteBits(rest[n]), ByteBits(rest[n]));
    }
  }

  lemma NextApart(c: Crc, d: Crc, x: Crc, y: Crc)
    requires (c == d && x != y) || (c != d && x == y)
    ensures CrcBits(Xor(c, x), 8) != CrcBits(Xor(d, y), 8)
  {
    hide CrcBits, Xor;
    if CrcBits(Xor(c, x), 8) == CrcBits(Xor(d, y), 8) {
      CrcBitsInjective(Xor(c, x), Xor(d, y), 8);
      if c == d {
        XorCancels(x, y, c);
      } else {
        XorCancels(c, d, x);
      }
    }
  }

  /** A byte changed anywhere changes the checksum. */
  lemma ChecksumSeesByte(s: seq<Byte>, k: nat, x: Byte)
    requires k < |s| && x != s[k]
    ensures Checksum(s[k := x]) != Checksum(s)
  {
    hide CrcBits, Xor, ByteBits, NumberOf;
    var before, rest := s[..k], s[k + 1..];
    var a, b := before + [s[k]], before + [x];
    assert s == a + rest && s[k := x] == b + rest;
    assert a[..k] == before && b[..k] == before;
    if ByteBits(s[k]) == ByteBits(x) {
      ByteInjective(s[k], x);
    }
    NextApart(CrcState(before), CrcState(before), ByteBits(s[k]), ByteBits(x));
    CrcStaysApart(a, b, rest);
    if Checksum(s[k := x]) == Checksum(s) {
      NumberInjective(Xor(CrcState(a + rest), Ones()), Xor(CrcState(b + rest), Ones()));
      XorCancels(CrcState(a + rest), CrcState(b + rest), Ones());
    }
  }

  // ---------------------------------------------------------------- buffers

  /** Copies d into the buffer at off. */
  method CopyInto(b: array<Byte>, off: nat, d: seq<Byte>)
    requires off + |d| <= b.Length
    modifies b
    ensures b[..] == Splice(old(b[..]), off, d)
  {
    hide Splice;
    for i := 0 to |d|
      invariant forall k :: 0 <= k < i ==> b[off + k] == d[k]
      invariant forall k :: 0 <= k < b.Length && !(off <= k < off + i) ==> b[k] == old(b[k])
    {
      b[off + i] := d[i];
    }
    SpliceAt(old(b[..]), off, d, b[..]);
  }

  lemma SpliceAt(s: seq<Byte>, off: nat, d: seq<Byte>, r: seq<Byte>)
    requires off + |d| <= |s| && |r| == |s|
    requires forall k :: 0 <= k < |d| ==> r[off + k] == d[k]
    requires forall k :: 0 <= k < |s| && !(off <= k < off + |d|) ==> r[k] == s[k]
    ensures r == Splice(s, off, d)
  {
    assert forall k :: off <= k < off + |d| ==> r[k] == d[k - off] by {
      forall k | off <= k < off + |d| ensures r[k] == d[k - off] {
        assert r[off + (k - off)] == d[k - off];
      }
    }
  }
}
