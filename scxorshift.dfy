/** The per-block keystream: a 32-bit xorshift generator (shifts 2, 15, 13)
    that hands out the bytes of its state word one at a time, least
    significant first, and steps the word after every fourth byte. */
module XorShift {
  import opened Bytes

  /** One xorshift step; the word width does the masking to 32 bits. */
  function Advance(s: bv32): bv32 {
    var a := s ^ (s << 2);
    var b := a ^ (a >> 15);
    b ^ (b << 13)
  }

  /** The word after k steps. */
  function AdvanceN(s: bv32, k: nat): bv32 {
    if k == 0 then s else Advance(AdvanceN(s, k - 1))
  }

  /** The number of set bits of n (`bin(n).count('1')`). */
  function PopCount(n: nat): (c: nat)
    ensures c == 0 <==> n == 0
    ensures c <= n
  {
    if n == 0 then 0 else n % 2 + PopCount(n / 2)
  }

  /** The state right after construction: the seed stepped once per set bit. */
  function InitialState(seed: bv32): bv32 {
    AdvanceN(seed, PopCount(seed as nat))
  }

  /** Byte number c (0 = least significant) of a word. */
  function ByteOf(w: bv32, c: nat): byte
    requires c < 4
  {
    if c == 0 then (w & 0xFF) as byte
    else if c == 1 then ((w >> 8) & 0xFF) as byte
    else if c == 2 then ((w >> 16) & 0xFF) as byte
    else (w >> 24) as byte
  }

  /** Keystream byte number i of the generator seeded with `seed`. */
  function KeyByte(seed: bv32, i: nat): byte {
    ByteOf(AdvanceN(InitialState(seed), i / 4), i % 4)
  }

  /** The 32-bit value of keystream bytes at, at+1, at+2, at+3, combined little-endian. */
  function KeyWord(seed: bv32, at: nat): bv32 {
    Word32([KeyByte(seed, at), KeyByte(seed, at + 1), KeyByte(seed, at + 2), KeyByte(seed, at + 3)])
  }

  /** s XORed byte by byte with the keystream from position `at` on. */
  function Crypt(s: seq<byte>, seed: bv32, at: nat): (r: seq<byte>)
    ensures |r| == |s|
  {
    seq(|s|, i requires 0 <= i < |s| => s[i] ^ KeyByte(seed, at + i))
  }

  /** XORing with a keystream word, byte for byte, is scrambling at its position. */
  lemma XorKeyWord(s: seq<byte>, seed: bv32, at: nat)
    requires |s| == 4
    ensures Xor(s, LE32(KeyWord(seed, at))) == Crypt(s, seed, at)
  {
    var ks := [KeyByte(seed, at), KeyByte(seed, at + 1), KeyByte(seed, at + 2), KeyByte(seed, at + 3)];
    XorWordBytes(s, ks);
    CryptFour(s, seed, at);
  }

  /** Four scrambled bytes, one by one. */
  lemma CryptFour(s: seq<byte>, seed: bv32, at: nat)
    requires |s| == 4
    ensures Crypt(s, seed, at) ==
      [s[0] ^ KeyByte(seed, at), s[1] ^ KeyByte(seed, at + 1), s[2] ^ KeyByte(seed, at + 2), s[3] ^ KeyByte(seed, at + 3)]
  {
    var c := Crypt(s, seed, at);
    assert c[0] == s[0] ^ KeyByte(seed, at + 0);
    assert c[1] == s[1] ^ KeyByte(seed, at + 1);
    assert c[2] == s[2] ^ KeyByte(seed, at + 2);
    assert c[3] == s[3] ^ KeyByte(seed, at + 3);
  }

  /** XORing with a word made of four bytes is XORing with those bytes. */
  lemma XorWordBytes(s: seq<byte>, ks: seq<byte>)
    requires |s| == 4 && |ks| == 4
    ensures Xor(s, LE32(Word32(ks))) == [s[0] ^ ks[0], s[1] ^ ks[1], s[2] ^ ks[2], s[3] ^ ks[3]]
  {
    LE32OfWord(ks);
    Xor4(s, ks);
  }

  /** Scrambling twice with the same keystream positions restores the bytes. */
  lemma CryptInvolution(s: seq<byte>, seed: bv32, at: nat)
    ensures Crypt(Crypt(s, seed, at), seed, at) == s
  {
  }

  /** Scrambling a concatenation continues the keystream where the first part stopped. */
  lemma CryptAppend(a: seq<byte>, b: seq<byte>, seed: bv32, at: nat)
    ensures Crypt(a + b, seed, at) == Crypt(a, seed, at) + Crypt(b, seed, at + |a|)
  {
  }

  /** Scrambling one more byte appends that byte XORed with the next keystream byte. */
  lemma CryptSnoc(s: seq<byte>, x: byte, seed: bv32, at: nat)
    ensures Crypt(s + [x], seed, at) == Crypt(s, seed, at) + [x ^ KeyByte(seed, at + |s|)]
  {
    CryptAppend(s, [x], seed, at);
  }

  lemma {:induction false} AdvanceNOfZero(k: nat)
    ensures AdvanceN(0, k) == 0
  {
    if k > 0 {
      AdvanceNOfZero(k - 1);
    }
  }

  /** Seed 0 has no set bits and is a fixed point of the step, so its keystream is all zero. */
  lemma ZeroSeedKeystream(i: nat)
    ensures KeyByte(0, i) == 0
  {
    AdvanceNOfZero(i / 4);
  }

  /** A generator object: `state` and `counter` are the fields the Python
      object mutates; `seed` and the number of bytes handed out so far, `pos`,
      are the ghost view that fixes what every call returns. */
  class XorShift32 {
    var state: bv32
    var counter: nat
    ghost const seed: bv32
    ghost var pos: nat

    ghost predicate Valid()
      reads this
    {
      counter == pos % 4 && state == AdvanceN(InitialState(seed), pos / 4)
    }

    constructor (seed: bv32)
      ensures Valid() && this.seed == seed && pos == 0
      ensures counter == 0 && state == InitialState(seed)
    {
      var initial := GetInitialState(seed);
      this.seed := seed;
      pos := 0;
      counter := 0;
      state := initial;
    }

    /** Steps the seed once per set bit, as a counted loop. */
    static method GetInitialState(seed: bv32) returns (state: bv32)
      ensures state == AdvanceN(seed, PopCount(seed as nat))
    {
      state := seed;
      var popCount := PopCount(seed as nat);
      for i := 0 to popCount
        invariant state == AdvanceN(seed, i)
      {
        state := Advance(state);
      }
    }

    /** Hands out byte `counter` of the state; after byte 3 the word steps and the counter wraps to 0. */
    method Next() returns (b: byte)
      requires Valid()
      modifies this
      ensures Valid() && pos == old(pos) + 1
      ensures b == KeyByte(seed, old(pos))
      ensures counter < 4
      ensures old(counter) == 3 ==> counter == 0 && state == Advance(old(state))
      ensures old(counter) != 3 ==> counter == old(counter) + 1 && state == old(state)
    {
      var c := counter;
      b := ByteOf(state, c);
      if c == 3 {
        state := Advance(state);
        counter := 0;
      } else {
        counter := counter + 1;
      }
      pos := pos + 1;
    }

    /** Four successive bytes combined little-endian. */
    method Next32() returns (w: bv32)
      requires Valid()
      modifies this
      ensures Valid() && pos == old(pos) + 4
      ensures w == KeyWord(seed, old(pos))
    {
      var b0 := Next();
      var b1 := Next();
      var b2 := Next();
      var b3 := Next();
      w := Word32([b0, b1, b2, b3]);
    }
  }
}
