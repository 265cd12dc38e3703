/** The bit-flag idiom shared by the save records: a flag word read with
    `word & (1 << k)`, set with `word |= 1 << k` and cleared with
    `word &= ~(1 << k)`. Every flag word in the records is at most 32 bits
    wide, so a `bv32` holds it exactly; bit positions are `bv32` values
    below 32. */
module BitFlags {

  /** `1 << k`. */
  function Bit(k: bv32): bv32
    requires k < 32
  {
    1 << k
  }

  /** An integer bit index below 32 as a bit position. */
  function BitIndex(i: int): (k: bv32)
    requires 0 <= i < 32
    ensures k < 32 && k as int == i
  {
    if i == 0 then 0 else BitIndex(i - 1) + 1
  }

  /** `bool(word & mask)`. */
  function Has(word: bv32, mask: bv32): bool {
    word & mask != 0
  }

  /** `word |= mask` when value holds, `word &= ~mask` otherwise. */
  function With(word: bv32, mask: bv32, value: bool): bv32 {
    if value then word | mask else word & !mask
  }

  /** Distinct bit positions give disjoint, nonzero masks. */
  lemma Apart(k: bv32, j: bv32)
    requires k < 32 && j < 32
    ensures Bit(k) != 0
    ensures j != k ==> Bit(k) & Bit(j) == 0
  {
  }

  /** A set or cleared mask reads back as requested. */
  lemma WithOwn(word: bv32, mask: bv32, value: bool)
    requires mask != 0
    ensures Has(With(word, mask, value), mask) == value
  {
  }

  /** Setting or clearing a mask does not change a disjoint mask's reading. */
  lemma WithOther(word: bv32, mask: bv32, other: bv32, value: bool)
    requires mask & other == 0
    ensures Has(With(word, mask, value), other) == Has(word, other)
  {
    if value {
      SetOther(word, mask, other);
    } else {
      ClearOther(word, mask, other);
    }
  }

  lemma SetOther(word: bv32, mask: bv32, other: bv32)
    requires mask & other == 0
    ensures Has(word | mask, other) == Has(word, other)
  {
    assert (word | mask) & other == word & other;
  }

  lemma ClearOther(word: bv32, mask: bv32, other: bv32)
    requires mask & other == 0
    ensures Has(word & !mask, other) == Has(word, other)
  {
    assert (word & !mask) & other == word & other;
  }

  /** Setting or clearing bit k reads back as requested and leaves every other bit alone. */
  lemma WithBit(word: bv32, k: bv32, value: bool, j: bv32)
    requires k < 32 && j < 32
    ensures Has(With(word, Bit(k), value), Bit(j)) == if j == k then value else Has(word, Bit(j))
  {
    Apart(k, j);
    if j == k {
      WithOwn(word, Bit(k), value);
    } else {
      WithOther(word, Bit(k), Bit(j), value);
    }
  }

  /** Two bytes combined little-endian (`struct.unpack('<H', s)`). */
  function Word16(s: seq<bv8>): (w: bv32)
    requires |s| == 2
    ensures w < 0x1_0000
  {
    (s[0] as bv32) | ((s[1] as bv32) << 8)
  }

  /** The two low bytes of a word, least significant first (`struct.pack('<H', w)`). */
  function LE16(w: bv32): (s: seq<bv8>)
    ensures |s| == 2
  {
    [(w & 0xFF) as bv8, ((w >> 8) & 0xFF) as bv8]
  }

  lemma LE16OfWord(s: seq<bv8>)
    requires |s| == 2
    ensures LE16(Word16(s)) == s
  {
  }

  lemma WordOfLE16(w: bv32)
    requires w < 0x1_0000
    ensures Word16(LE16(w)) == w
  {
  }
}
