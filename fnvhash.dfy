/** Fowler–Noll–Vo hashing, variant FNV-1a: for each byte, XOR it into the
    hash, then multiply by the prime and keep the low 32 or 64 bits. The
    hash is a Python integer, so it is modelled as a `nat`; the starting
    value may be any natural number, which is what makes chaining work. */
module Fnv {
  import opened Bytes

  const PRIME_64: nat := 0x0000_0100_0000_01B3
  const BASIS_64: nat := 0xCBF2_9CE4_8422_2645
  const PRIME_32: nat := 0x0100_0193
  const BASIS_32: nat := 0x811C_9DC5

  const MOD_32: nat := 0x1_0000_0000
  const MOD_64: nat := 0x1_0000_0000_0000_0000

  /** Python's `h ^ b` for a natural h and a byte b: only the low eight bits change. */
  function XorByte(h: nat, b: byte): (r: nat)
    ensures r / 256 == h / 256
  {
    var q, low := h / 256, ByteOfNat(h % 256);
    256 * q + (low ^ b) as int
  }

  /** One round: XOR in the byte, multiply, keep the bits of the word. */
  function Step(h: nat, b: byte, prime: nat, modulus: nat): (r: nat)
    requires modulus > 0
    ensures r < modulus
  {
    XorByte(h, b) * prime % modulus
  }

  /** The hash of `data` from starting value h: the rounds applied left to right. */
  function Fold(data: seq<byte>, h: nat, prime: nat, modulus: nat): (r: nat)
    requires modulus > 0
    ensures |data| > 0 || h < modulus ==> r < modulus
    ensures |data| == 0 ==> r == h
  {
    if |data| == 0 then h else Fold(data[1..], Step(h, data[0], prime, modulus), prime, modulus)
  }

  /** Hashing a concatenation is hashing the second part from the first part's hash. */
  lemma {:induction false} FoldAppend(a: seq<byte>, b: seq<byte>, h: nat, prime: nat, modulus: nat)
    requires modulus > 0
    ensures Fold(a + b, h, prime, modulus) == Fold(b, Fold(a, h, prime, modulus), prime, modulus)
  {
    if |a| == 0 {
      assert a + b == b;
    } else {
      assert (a + b)[1..] == a[1..] + b;
      FoldAppend(a[1..], b, Step(h, a[0], prime, modulus), prime, modulus);
    }
  }

  /** One more byte is one more round on the hash so far. */
  lemma FoldSnoc(data: seq<byte>, x: byte, h: nat, prime: nat, modulus: nat)
    requires modulus > 0
    ensures Fold(data + [x], h, prime, modulus) == Step(Fold(data, h, prime, modulus), x, prime, modulus)
  {
    FoldAppend(data, [x], h, prime, modulus);
    assert [x][1..] == [];
  }

  /** FNV-1a, 32 bits, from starting value h (0x811C9DC5 by default). */
  function Fnv1a32(data: seq<byte>, h: nat): nat {
    Fold(data, h, PRIME_32, MOD_32)
  }

  /** FNV-1a, 64 bits, from starting value h (0xCBF29CE484222645 by default). */
  function Fnv1a64(data: seq<byte>, h: nat): nat {
    Fold(data, h, PRIME_64, MOD_64)
  }

  /** `hash_fnv1a_32`: the accumulator loop. */
  method HashFnv1a32(data: seq<byte>, hashVal: nat := BASIS_32) returns (h: nat)
    ensures h == Fnv1a32(data, hashVal)
    ensures |data| > 0 || hashVal < MOD_32 ==> h < MOD_32
  {
    h := hashVal;
    for i := 0 to |data|
      invariant h == Fold(data[..i], hashVal, PRIME_32, MOD_32)
    {
      FoldSnoc(data[..i], data[i], hashVal, PRIME_32, MOD_32);
      assert data[..i + 1] == data[..i] + [data[i]];
      h := XorByte(h, data[i]);
      h := h * PRIME_32 % MOD_32;
    }
    assert data[..|data|] == data;
  }

  /** `hash_fnv1a_64`: the same loop with the 64-bit prime and mask. */
  method HashFnv1a64(data: seq<byte>, hashVal: nat := BASIS_64) returns (h: nat)
    ensures h == Fnv1a64(data, hashVal)
    ensures |data| > 0 || hashVal < MOD_64 ==> h < MOD_64
  {
    h := hashVal;
    for i := 0 to |data|
      invariant h == Fold(data[..i], hashVal, PRIME_64, MOD_64)
    {
      FoldSnoc(data[..i], data[i], hashVal, PRIME_64, MOD_64);
      assert data[..i + 1] == data[..i] + [data[i]];
      h := XorByte(h, data[i]);
      h := h * PRIME_64 % MOD_64;
    }
    assert data[..|data|] == data;
  }

  /** Hashing empty input returns the starting value, by default the offset basis. */
  lemma EmptyInput(h: nat)
    ensures Fnv1a32([], h) == h && Fnv1a64([], h) == h
    ensures Fnv1a32([], BASIS_32) == 0x811C_9DC5
  {
  }

  /** 32-bit chaining: hashing a + b is hashing b from the hash of a. */
  lemma Chain32(a: seq<byte>, b: seq<byte>, h: nat)
    ensures Fnv1a32(a + b, h) == Fnv1a32(b, Fnv1a32(a, h))
  {
    FoldAppend(a, b, h, PRIME_32, MOD_32);
  }

  /** 64-bit chaining. */
  lemma Chain64(a: seq<byte>, b: seq<byte>, h: nat)
    ensures Fnv1a64(a + b, h) == Fnv1a64(b, Fnv1a64(a, h))
  {
    FoldAppend(a, b, h, PRIME_64, MOD_64);
  }

  /** The published FNV-1a test vectors for the one-byte input "a". The
      64-bit offset basis above is not the published one (0xCBF29CE484222325);
      from the published basis the 64-bit loop gives the published digest. */
  lemma OneByteVectors()
    ensures Fnv1a32([0x61], BASIS_32) == 0xE40C_292C
    ensures Fnv1a64([0x61], 0xCBF2_9CE4_8422_2325) == 0xAF63_DC4C_8601_EC8C
  {
    ByteOfNatOfByte(0xC5);
    ByteOfNatOfByte(0x25);
    var c5: byte, x25: byte := 0xC5, 0x25;
    assert c5 ^ 0x61 == 0xA4 && x25 ^ 0x61 == 0x44;
    assert BASIS_32 / 256 == 0x81_1C9D && BASIS_32 % 256 == 0xC5;
    assert XorByte(BASIS_32, 0x61) == 0x811C_9DA4;
    assert XorByte(0xCBF2_9CE4_8422_2325, 0x61) == 0xCBF2_9CE4_8422_2344;
    assert [0x61][1..] == [];
  }
}
