/** Bytes and the little-endian integer layouts that `struct.pack`/`unpack`
    produce for the save format. */
module Bytes {

  type byte = bv8

  /** 256^n: one more than the largest unsigned value n bytes hold. */
  function Pow256(n: nat): (p: int)
    ensures p >= 1
  {
    if n == 0 then 1 else 256 * Pow256(n - 1)
  }

  /** The byte whose value is r, assembled from r's bits. */
  function ByteOfNat(r: nat): (b: byte)
    requires r < 256
    ensures b as int == r
  {
    if r == 0 then 0 else (ByteOfNat(r / 2) << 1) | (if r % 2 == 1 then 1 else 0)
  }

  /** A byte is the byte of its own value. */
  lemma ByteOfNatOfByte(x: byte)
    ensures ByteOfNat(x as int) == x
  {
    var y := ByteOfNat(x as int);
    assert y == (y as int) as byte && x == (x as int) as byte;
  }

  /** n zero bytes (Python's `bytes(n)`). */
  function Zeros(n: nat): (s: seq<byte>)
    ensures |s| == n && forall i :: 0 <= i < n ==> s[i] == 0
  {
    seq(n, _ => 0)
  }

  /** Unsigned little-endian reading of a byte string (`<B`, `<H`, `<I`, `<Q`). */
  function FromLE(s: seq<byte>): (v: nat)
    ensures v < Pow256(|s|)
  {
    if |s| == 0 then 0 else s[0] as nat + 256 * FromLE(s[1..])
  }

  /** The low n bytes of v, least significant first. */
  function ToLE(v: nat, n: nat): (s: seq<byte>)
    ensures |s| == n
  {
    if n == 0 then [] else [ByteOfNat(v % 256)] + ToLE(v / 256, n - 1)
  }

  lemma {:induction false} FromToLE(v: nat, n: nat)
    requires v < Pow256(n)
    ensures FromLE(ToLE(v, n)) == v
  {
    if n > 0 {
      var q, r := v / 256, v % 256;
      assert v == 256 * q + r;
      assert q < Pow256(n - 1) by {
        DivBound(v, Pow256(n - 1));
      }
      FromToLE(q, n - 1);
      var s := ToLE(v, n);
      assert s[0] as nat == r;
      assert s[1..] == ToLE(q, n - 1);
    }
  }

  lemma {:induction false} ToFromLE(s: seq<byte>)
    ensures ToLE(FromLE(s), |s|) == s
  {
    if |s| > 0 {
      var v, rest := FromLE(s), FromLE(s[1..]);
      assert v == s[0] as nat + 256 * rest;
      assert v % 256 == s[0] as nat && v / 256 == rest by {
        DivModUnique(v, s[0] as nat, rest);
      }
      ToFromLE(s[1..]);
      ByteOfNatOfByte(s[0]);
      assert ToLE(v, |s|) == [ByteOfNat(v % 256)] + ToLE(v / 256, |s| - 1);
    }
  }

  lemma DivBound(v: nat, p: int)
    requires p >= 1 && v < 256 * p
    ensures v / 256 < p
  {
  }

  lemma DivModUnique(v: int, r: int, q: int)
    requires 0 <= r < 256 && v == r + 256 * q
    ensures v % 256 == r && v / 256 == q
  {
  }

  /** Two's-complement little-endian reading (`<b`, `<h`, `<i`, `<q`). */
  function FromLESigned(s: seq<byte>): (v: int)
    requires |s| > 0
    ensures -Half(|s|) <= v < Half(|s|)
  {
    var u := FromLE(s);
    if u < Half(|s|) then u else u - Pow256(|s|)
  }

  /** 2^(8n-1): the bound of the signed range of an n-byte field. */
  function Half(n: nat): (h: int)
    requires n > 0
    ensures h >= 128 && Pow256(n) == 2 * h
  {
    128 * Pow256(n - 1)
  }

  /** Two's-complement little-endian writing of v into n bytes. */
  function ToLESigned(v: int, n: nat): (s: seq<byte>)
    ensures |s| == n
  {
    ToLE(v % Pow256(n), n)
  }

  lemma SignedRoundTrip(v: int, n: nat)
    requires n > 0 && -Half(n) <= v < Half(n)
    ensures FromLESigned(ToLESigned(v, n)) == v
  {
    var p := Pow256(n);
    if v < 0 {
      ModShift(v, p);
    } else {
      ModSmall(v, p);
    }
    FromToLE(v % p, n);
  }

  /** Reading bytes as two's complement and writing the value back gives the bytes again. */
  lemma SignedOfBytes(s: seq<byte>)
    requires |s| > 0
    ensures ToLESigned(FromLESigned(s), |s|) == s
  {
    var u, p := FromLE(s), Pow256(|s|);
    if u < Half(|s|) {
      ModSmall(u, p);
    } else {
      ModShift(u - p, p);
    }
    ToFromLE(s);
  }

  /** The head and tail of a concatenation whose first part is not empty; an empty first part adds nothing. */
  lemma ConsAppend<T>(p: seq<T>, q: seq<T>)
    ensures |p| > 0 ==> (p + q)[0] == p[0] && (p + q)[1..] == p[1..] + q
    ensures |p| == 0 ==> p + q == q
  {
    if |p| == 0 {
      assert p + q == q;
    }
  }

  /** Concatenation is associative, and the empty sequence is its unit. */
  lemma AppendAssoc<T>(a: seq<T>, b: seq<T>, c: seq<T>)
    ensures a + b + c == a + (b + c) && [] + c == c
  {
  }

  /** A prefix grown by one element, and a sequence cut after position i. */
  lemma SnocSlices<T>(s: seq<T>, i: nat)
    requires i < |s|
    ensures s[..i + 1] == s[..i] + [s[i]] && s[..i + 1] + s[i + 1..] == s
  {
  }

  /** The front and the last element of a sequence grown by one. */
  lemma LastOfSnoc<T>(front: seq<T>, x: T)
    ensures (front + [x])[..|front|] == front && (front + [x])[|front|] == x
  {
  }

  /** A prefix extended by the slice after it is the longer prefix. */
  lemma PrefixJoin<T>(d: seq<T>, a: nat, b: nat)
    requires a <= b <= |d|
    ensures d[..a] + d[a..b] == d[..b]
  {
  }

  /** The first k elements of a slice, as a slice of the whole. */
  lemma SliceOfSlice<T>(d: seq<T>, a: nat, b: nat, k: nat)
    requires a <= b <= |d| && k <= b - a
    ensures d[a..b][..k] == d[a..a + k]
  {
  }

  /** A sequence followed by two adjacent slices is followed by the slice over both. */
  lemma Extend<T>(p: seq<T>, d: seq<T>, a: nat, b: nat, c: nat)
    requires a <= b <= c <= |d|
    ensures p + d[a..b] + d[b..c] == p + d[a..c]
  {
    AppendAssoc(p, d[a..b], d[b..c]);
    SliceJoin(d, a, b, c);
  }

  /** Two adjacent slices joined are the slice over both. */
  lemma SliceJoin<T>(d: seq<T>, a: nat, b: nat, c: nat)
    requires a <= b <= c <= |d|
    ensures d[a..b] + d[b..c] == d[a..c]
  {
  }

  lemma ModSmall(v: int, p: int)
    requires 0 <= v < p
    ensures v % p == v
  {
  }

  lemma ModShift(v: int, p: int)
    requires p > 0 && -p <= v < 0
    ensures v % p == v + p
  {
  }

  /** Python's `struct.pack('<' + fmt, v)` for an unsigned field of n bytes:
      it refuses a value the field cannot hold. */
  function PackUnsigned(v: int, n: nat): (r: seq<byte>)
    requires 0 <= v < Pow256(n)
    ensures |r| == n && FromLE(r) == v
  {
    FromToLE(v, n);
    ToLE(v, n)
  }

  /** Whether `struct.pack` accepts v for an n-byte field. */
  predicate FitsUnsigned(v: int, n: nat) {
    0 <= v < Pow256(n)
  }

  predicate FitsSigned(v: int, n: nat)
    requires n > 0
  {
    -Half(n) <= v < Half(n)
  }

  /** Byte-by-byte exclusive or of two strings of equal length. */
  function Xor(a: seq<byte>, b: seq<byte>): (r: seq<byte>)
    requires |a| == |b|
    ensures |r| == |a|
  {
    seq(|a|, i requires 0 <= i < |a| => a[i] ^ b[i])
  }

  /** Four bytes XORed with four bytes, one by one. */
  lemma Xor4(a: seq<byte>, b: seq<byte>)
    requires |a| == 4 && |b| == 4
    ensures Xor(a, b) == [a[0] ^ b[0], a[1] ^ b[1], a[2] ^ b[2], a[3] ^ b[3]]
  {
    var x := Xor(a, b);
    assert x[0] == a[0] ^ b[0] && x[1] == a[1] ^ b[1] && x[2] == a[2] ^ b[2] && x[3] == a[3] ^ b[3];
  }

  lemma XorInvolution(a: seq<byte>, b: seq<byte>)
    requires |a| == |b|
    ensures Xor(Xor(a, b), b) == a
  {
  }

  /** The four bytes of a 32-bit word, least significant first (`struct.pack('<I', w)`). */
  function LE32(w: bv32): (s: seq<byte>)
    ensures |s| == 4
  {
    [(w & 0xFF) as byte, ((w >> 8) & 0xFF) as byte, ((w >> 16) & 0xFF) as byte, (w >> 24) as byte]
  }

  /** Four bytes combined little-endian into a 32-bit word (`struct.unpack('<I', s)`). */
  function Word32(s: seq<byte>): bv32
    requires |s| == 4
  {
    (s[0] as bv32) | ((s[1] as bv32) << 8) | ((s[2] as bv32) << 16) | ((s[3] as bv32) << 24)
  }

  lemma WordOfLE32(w: bv32)
    ensures Word32(LE32(w)) == w
  {
  }

  lemma LE32OfWord(s: seq<byte>)
    requires |s| == 4
    ensures LE32(Word32(s)) == s
  {
  }
}
