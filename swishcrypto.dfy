/** The save container: a stream of keyed blocks, hidden under a static
    XOR pad, followed by a SHA-256 digest of the padded stream framed by two
    fixed 64-byte strings. */
module Swish {
  import opened Wrappers
  import opened Bytes
  import opened Blocks

  /** The size of the digest at the end of the file (`hashlib.sha256().digest_size`). */
  const HASH_SIZE: nat := 32

  /** A SHA-256 digest. */
  type Digest = s: seq<byte> | |s| == HASH_SIZE witness seq(32, _ => 0)

  /** Hashed in front of the padded stream. */
  const INTRO: seq<byte> := [
    0x9E, 0xC9, 0x9C, 0xD7, 0x0E, 0xD3, 0x3C, 0x44, 0xFB, 0x93, 0x03, 0xDC, 0xEB, 0x39, 0xB4, 0x2A,
    0x19, 0x47, 0xE9, 0x63, 0x4B, 0xA2, 0x33, 0x44, 0x16, 0xBF, 0x82, 0xA2, 0xBA, 0x63, 0x55, 0xB6,
    0x3D, 0x9D, 0xF2, 0x4B, 0x5F, 0x7B, 0x6A, 0xB2, 0x62, 0x1D, 0xC2, 0x1B, 0x68, 0xE5, 0xC8, 0xB5,
    0x3A, 0x05, 0x90, 0x00, 0xE8, 0xA8, 0x10, 0x3D, 0xE2, 0xEC, 0xF0, 0x0C, 0xB2, 0xED, 0x4F, 0x6D
  ]

  /** Hashed after the padded stream. */
  const OUTRO: seq<byte> := [
    0xD6, 0xC0, 0x1C, 0x59, 0x8B, 0xC8, 0xB8, 0xCB, 0x46, 0xE1, 0x53, 0xFC, 0x82, 0x8C, 0x75, 0x75,
    0x13, 0xE0, 0x45, 0xDF, 0x32, 0x69, 0x3C, 0x75, 0xF0, 0x59, 0xF8, 0xD9, 0xA2, 0x5F, 0xB2, 0x17,
    0xE0, 0x80, 0x52, 0xDB, 0xEA, 0x89, 0x73, 0x99, 0x75, 0x79, 0xAF, 0xCB, 0x2E, 0x80, 0x07, 0xE6,
    0xF1, 0x26, 0xE0, 0x03, 0x0A, 0xE6, 0x6F, 0xF6, 0x41, 0xBF, 0x7E, 0x59, 0xC2, 0xAE, 0x55, 0xFD
  ]

  /** The static pad: 128 bytes of which the loops use the first 127 as the
      period; the last byte is 0. */
  const PAD: seq<byte> := [
    0xA0, 0x92, 0xD1, 0x06, 0x07, 0xDB, 0x32, 0xA1, 0xAE, 0x01, 0xF5, 0xC5, 0x1E, 0x84, 0x4F, 0xE3,
    0x53, 0xCA, 0x37, 0xF4, 0xA7, 0xB0, 0x4D, 0xA0, 0x18, 0xB7, 0xC2, 0x97, 0xDA, 0x5F, 0x53, 0x2B,
    0x75, 0xFA, 0x48, 0x16, 0xF8, 0xD4, 0x8A, 0x6F, 0x61, 0x05, 0xF4, 0xE2, 0xFD, 0x04, 0xB5, 0xA3,
    0x0F, 0xFC, 0x44, 0x92, 0xCB, 0x32, 0xE6, 0x1B, 0xB9, 0xB1, 0x2E, 0x01, 0xB0, 0x56, 0x53, 0x36,
    0xD2, 0xD1, 0x50, 0x3D, 0xDE, 0x5B, 0x2E, 0x0E, 0x52, 0xFD, 0xDF, 0x2F, 0x7B, 0xCA, 0x63, 0x50,
    0xA4, 0x67, 0x5D, 0x23, 0x17, 0xC0, 0x52, 0xE1, 0xA6, 0x30, 0x7C, 0x2B, 0xB6, 0x70, 0x36, 0x5B,
    0x2A, 0x27, 0x69, 0x33, 0xF5, 0x63, 0x7B, 0x36, 0x3F, 0x26, 0x9B, 0xA3, 0xED, 0x7A, 0x53, 0x00,
    0xA4, 0x48, 0xB3, 0x50, 0x9E, 0x14, 0xA0, 0x52, 0xDE, 0x7E, 0x10, 0x2B, 0x1B, 0x77, 0x6E, 0x00
  ]

  /** The period of the pad (`len(xp) - 1`). */
  const PERIOD: nat := 127

  // ---------------------------------------------------------------------
  // The static pad.

  /** A pad of the static pad's shape: 128 bytes, the last one 0. */
  predicate PadShape(pad: seq<byte>) {
    |pad| == 128 && pad[PERIOD] == 0
  }

  lemma StaticPadShape()
    ensures PadShape(PAD)
  {
  }

  /** Byte j XORed with the pad byte at j modulo the period. */
  function XorPad(s: seq<byte>, pad: seq<byte>): (r: seq<byte>)
    requires |pad| == 128
    ensures |r| == |s|
  {
    seq(|s|, j requires 0 <= j < |s| => s[j] ^ pad[j % PERIOD])
  }

  /** The first n bytes padded, the rest as they were. */
  ghost function Padded(s: seq<byte>, n: nat, pad: seq<byte>): (r: seq<byte>)
    requires |pad| == 128
    ensures |r| == |s|
  {
    seq(|s|, j requires 0 <= j < |s| => if j < n then s[j] ^ pad[j % PERIOD] else s[j])
  }

  /** Padding is its own inverse. */
  lemma XorPadTwice(s: seq<byte>, pad: seq<byte>)
    requires |pad| == 128
    ensures XorPad(XorPad(s, pad), pad) == s
  {
  }

  /** `crypt_static_xorpad_bytes`: pads the buffer in place with the static pad. */
  method CryptStaticXorpad(data: array<byte>)
    modifies data
    ensures data[..] == XorPad(old(data[..]), PAD)
  {
    var xp := PAD;
    StaticPadShape();
    ApplyPad(data, xp);
  }

  /** The loops of `crypt_static_xorpad_bytes`. Every full round XORs all
      128 pad bytes but moves on by 127, so the 128th pad byte lands on the
      first byte of the next round; as that pad byte is 0 the net effect is
      a pad of period 127. */
  method ApplyPad(data: array<byte>, xp: seq<byte>)
    requires PadShape(xp)
    modifies data
    ensures data[..] == XorPad(old(data[..]), xp)
  {
    ghost var src := data[..];
    var size := |xp| - 1;
    var iterations := (data.Length - 1) / size;
    var offset := 0;
    var k := 0;
    while k < iterations
      invariant 0 <= k && (iterations < 0 || k <= iterations)
      invariant offset == PERIOD * k && offset <= data.Length
      invariant data[..] == Padded(src, offset, xp)
    {
      ghost var before := data[..];
      PadRound(data, xp, offset);
      RoundEffect(src, before, data[..], xp, k);
      offset := offset + size;
      k := k + 1;
    }
    assert data.Length - offset <= PERIOD by {
      RoundsCover(data.Length, k, iterations);
    }
    ghost var before := data[..];
    PadTail(data, xp, offset);
    TailEffect(src, before, data[..], xp, k);
  }

  /** The remainder loop: XORs the pad in from `offset` to the end of the buffer. */
  method PadTail(data: array<byte>, xp: seq<byte>, offset: nat)
    requires offset <= data.Length <= offset + |xp|
    modifies data
    ensures forall j :: 0 <= j < data.Length ==>
      data[j] == if offset <= j then old(data[j]) ^ xp[j - offset] else old(data[j])
  {
    var i := 0;
    while i < data.Length - offset
      invariant 0 <= i <= data.Length - offset
      invariant forall j :: 0 <= j < data.Length ==>
        data[j] == if offset <= j < offset + i then old(data[j]) ^ xp[j - offset] else old(data[j])
    {
      data[offset + i] := data[offset + i] ^ xp[i];
      i := i + 1;
    }
  }

  /** One round of the pad loop: XORs pad bytes 0..127 in at offset, as far as the buffer goes. */
  method PadRound(data: array<byte>, xp: seq<byte>, offset: nat)
    requires |xp| == 128
    modifies data
    ensures forall j :: 0 <= j < data.Length ==>
      data[j] == if offset <= j < offset + 128 then old(data[j]) ^ xp[j - offset] else old(data[j])
  {
    var i := 0;
    while i < |xp|
      invariant 0 <= i <= |xp|
      invariant forall j :: 0 <= j < data.Length ==>
        data[j] == if offset <= j < offset + i then old(data[j]) ^ xp[j - offset] else old(data[j])
    {
      if offset + i < data.Length {
        data[offset + i] := data[offset + i] ^ xp[i];
      }
      i := i + 1;
    }
  }

  /** A round at offset 127k of a buffer padded up to 127k pads it 127 bytes
      further: pad bytes 0..126 are the ones the period asks for there, and
      pad byte 127 is 0. */
  lemma RoundEffect(src: seq<byte>, before: seq<byte>, after: seq<byte>, xp: seq<byte>, k: nat)
    requires PadShape(xp) && |before| == |src| && |after| == |src|
    requires before == Padded(src, PERIOD * k, xp)
    requires forall j :: 0 <= j < |after| ==>
      after[j] == if PERIOD * k <= j < PERIOD * k + 128 then before[j] ^ xp[j - PERIOD * k] else before[j]
    ensures after == Padded(src, Min(PERIOD * k + PERIOD, |src|), xp)
  {
    var offset := PERIOD * k;
    forall j | 0 <= j < |src|
      ensures after[j] == Padded(src, Min(offset + PERIOD, |src|), xp)[j]
    {
      if offset <= j < offset + PERIOD {
        PeriodOffset(k, j - offset);
      }
    }
  }

  /** The remainder loop finishes the padding: fewer than 128 bytes are
      left after the last round, and each gets the pad byte of its place. */
  lemma TailEffect(src: seq<byte>, before: seq<byte>, after: seq<byte>, xp: seq<byte>, k: nat)
    requires PadShape(xp) && |before| == |src| && |after| == |src|
    requires PERIOD * k <= |src| <= PERIOD * k + PERIOD
    requires before == Padded(src, PERIOD * k, xp)
    requires forall j :: 0 <= j < |after| ==>
      after[j] == if PERIOD * k <= j then before[j] ^ xp[j - PERIOD * k] else before[j]
    ensures after == XorPad(src, xp)
  {
    var offset := PERIOD * k;
    forall j | 0 <= j < |src|
      ensures after[j] == XorPad(src, xp)[j]
    {
      if offset <= j {
        PeriodOffset(k, j - offset);
      }
    }
  }

  /** Position 127k + i is at place i of the period. */
  lemma PeriodOffset(k: nat, i: nat)
    requires i < PERIOD
    ensures (PERIOD * k + i) % PERIOD == i
  {
  }

  function Min(a: int, b: int): int {
    if a < b then a else b
  }

  /** After (n - 1) / 127 rounds fewer than 128 bytes are left. */
  lemma RoundsCover(n: nat, k: nat, iterations: int)
    requires iterations == (n - 1) / PERIOD
    requires (iterations < 0 && k == 0) || (0 <= iterations && k == iterations)
    ensures n - PERIOD * k <= PERIOD
  {
  }

  // ---------------------------------------------------------------------
  // The digest.

  /** `compute_hash`: SHA-256 over the intro, the data and the outro. SHA-256
      itself is a library call outside the model and comes in as `sha`. */
  function ComputeHash(data: seq<byte>, sha: seq<byte> -> Digest): Digest {
    sha(INTRO + data + OUTRO)
  }

  /** `get_is_hash_valid`: the last 32 bytes are the digest of everything
      before them; a file shorter than a digest is never valid. */
  predicate HashIsValid(data: seq<byte>, sha: seq<byte> -> Digest) {
    |data| >= HASH_SIZE && ComputeHash(data[..|data| - HASH_SIZE], sha) == data[|data| - HASH_SIZE..]
  }

  /** A file is valid exactly when its trailing 32 bytes are the digest of the rest. */
  lemma HashIsValidIff(payload: seq<byte>, stored: seq<byte>, sha: seq<byte> -> Digest)
    requires |stored| == HASH_SIZE
    ensures HashIsValid(payload + stored, sha) <==> stored == ComputeHash(payload, sha)
  {
    var data := payload + stored;
    assert data[..|data| - HASH_SIZE] == payload;
    assert data[|data| - HASH_SIZE..] == stored;
  }

  lemma ShortIsInvalid(data: seq<byte>, sha: seq<byte> -> Digest)
    requires |data| < HASH_SIZE
    ensures !HashIsValid(data, sha)
  {
  }

  // ---------------------------------------------------------------------
  // The block stream.

  /** The blocks written one after another, each with its key in front
      (`write_block()` with its default `write_key=True`); the first block
      that cannot be written fails the whole. */
  function EncodeAll(bs: seq<BlockData>): Result<seq<byte>> {
    if |bs| == 0 then Success([])
    else
      var first :- EncodeBlock(bs[0], true);
      var rest :- EncodeAll(bs[1..]);
      Success(first + rest)
  }

  /** The bytes a block takes in the stream: key, header and payload. */
  function EncodedSize(b: BlockData): nat {
    4 + HeaderLength(b.blockType) + |b.raw|
  }

  function TotalSize(bs: seq<BlockData>): nat {
    if |bs| == 0 then 0 else EncodedSize(bs[0]) + TotalSize(bs[1..])
  }

  /** `get_decrypted_raw_data`: the written blocks and 32 zero bytes where the digest goes. */
  function RawData(bs: seq<BlockData>): Result<seq<byte>> {
    var body :- EncodeAll(bs);
    Success(body + Zeros(HASH_SIZE))
  }

  /** `read_blocks`: blocks read one after another from `offset` until the
      data is used up; the first block that cannot be read fails the whole. */
  function DecodeAll(data: seq<byte>, offset: nat): Result<seq<BlockData>>
    decreases |data| - offset
  {
    if offset >= |data| then Success([])
    else match DecodeAt(data, offset)
      case Failure(e) => Failure(e)
      case Success((b, end)) =>
        var rest :- DecodeAll(data, end);
        Success([b] + rest)
  }

  /** `encrypt`: the written blocks, padded, then the digest of the padded bytes. */
  function Encrypted(bs: seq<BlockData>, sha: seq<byte> -> Digest): Result<seq<byte>> {
    var raw :- RawData(bs);
    var payload := XorPad(raw[..|raw| - HASH_SIZE], PAD);
    Success(payload + ComputeHash(payload, sha))
  }

  /** `decrypt`: everything but the last 32 bytes, unpadded and read as
      blocks. The digest is not checked. */
  function Decrypted(data: seq<byte>): Result<seq<BlockData>> {
    var n := if |data| >= HASH_SIZE then |data| - HASH_SIZE else 0;
    DecodeAll(XorPad(data[..n], PAD), 0)
  }

  /** Every block of the list is well-formed. */
  predicate AllWellFormed(bs: seq<BlockData>) {
    forall i :: 0 <= i < |bs| ==> WellFormed(bs[i])
  }

  lemma AllWellFormedTail(bs: seq<BlockData>)
    requires |bs| > 0 && AllWellFormed(bs)
    ensures WellFormed(bs[0]) && AllWellFormed(bs[1..])
  {
    forall i | 0 <= i < |bs| - 1
      ensures WellFormed(bs[1..][i])
    {
      assert bs[1..][i] == bs[i + 1];
    }
  }

  /** Writing two lists of blocks is writing the first, then the second. */
  lemma {:induction false} EncodeAllAppend(p: seq<BlockData>, q: seq<BlockData>)
    ensures EncodeAll(p + q) ==
      (match EncodeAll(p)
       case Failure(e) => Failure(e)
       case Success(x) => (match EncodeAll(q) case Failure(e) => Failure(e) case Success(y) => Success(x + y)))
  {
    if |p| > 0 {
      ConsAppend(p, q);
      EncodeAllAppend(p[1..], q);
      if EncodeAll(p).Success? && EncodeAll(q).Success? {
        var first, x, y := EncodeBlock(p[0], true).value, EncodeAll(p[1..]).value, EncodeAll(q).value;
        AppendAssoc(first, x, y);
      }
    } else {
      ConsAppend(p, q);
      assert EncodeAll(p) == Success([]);
      if EncodeAll(q).Success? {
        var y := EncodeAll(q).value;
        AppendAssoc([], [], y);
      }
    }
  }

  /** The written stream is as long as the blocks' sizes added up. */
  lemma {:induction false} EncodeAllLength(bs: seq<BlockData>)
    requires EncodeAll(bs).Success?
    ensures |EncodeAll(bs).value| == TotalSize(bs)
  {
    if |bs| > 0 {
      EncodeAllLength(bs[1..]);
    }
  }

  /** A list of well-formed blocks can always be written. */
  lemma {:induction false} WellFormedEncodeAll(bs: seq<BlockData>)
    requires AllWellFormed(bs)
    ensures EncodeAll(bs).Success?
  {
    if |bs| > 0 {
      AllWellFormedTail(bs);
      WellFormedEncodes(bs[0]);
      WellFormedEncodeAll(bs[1..]);
    }
  }

  /** Reading a written stream of well-formed blocks gives the blocks back, in order. */
  lemma {:induction false} DecodeEncodedAll(bs: seq<BlockData>, data: seq<byte>, offset: nat)
    requires AllWellFormed(bs)
    requires offset <= |data| && EncodeAll(bs) == Success(data[offset..])
    ensures DecodeAll(data, offset) == Success(bs)
    decreases |bs|
  {
    if |bs| > 0 {
      var end := FrontDecodes(bs, data, offset);
      DecodeEncodedAll(bs[1..], data, end);
      DecodeAllCons(data, offset, bs[0], end, bs[1..]);
      assert [bs[0]] + bs[1..] == bs;
    } else {
      assert |data[offset..]| == 0;
    }
  }

  /** The first block of a written list reads back from the front, and the
      rest of the list is written where it ends. */
  lemma FrontDecodes(bs: seq<BlockData>, data: seq<byte>, offset: nat) returns (end: nat)
    requires |bs| > 0 && AllWellFormed(bs)
    requires offset <= |data| && EncodeAll(bs) == Success(data[offset..])
    ensures offset < end <= |data| && DecodeAt(data, offset) == Success((bs[0], end))
    ensures AllWellFormed(bs[1..]) && EncodeAll(bs[1..]) == Success(data[end..])
  {
    var first;
    first, end := FrontRest(bs, data, offset);
    BlockInPlace(bs[0], first, data, offset, end);
  }

  /** The first block of a written list sits at the front, and the rest of the list is written after it. */
  lemma FrontRest(bs: seq<BlockData>, data: seq<byte>, offset: nat) returns (first: seq<byte>, end: nat)
    requires |bs| > 0 && AllWellFormed(bs)
    requires offset <= |data| && EncodeAll(bs) == Success(data[offset..])
    ensures WellFormed(bs[0]) && EncodeBlock(bs[0], true) == Success(first)
    ensures end == offset + |first| && end <= |data| && data[offset..end] == first
    ensures AllWellFormed(bs[1..]) && EncodeAll(bs[1..]) == Success(data[end..])
  {
    AllWellFormedTail(bs);
    var rest;
    first, rest := FrontParts(bs);
    end := DropFront(data, offset, first, rest);
  }

  /** A written list is its first block followed by the rest. */
  lemma FrontParts(bs: seq<BlockData>) returns (first: seq<byte>, rest: seq<byte>)
    requires |bs| > 0 && EncodeAll(bs).Success?
    ensures EncodeBlock(bs[0], true) == Success(first) && EncodeAll(bs[1..]) == Success(rest)
    ensures EncodeAll(bs).value == first + rest
  {
    first := EncodeBlock(bs[0], true).value;
    rest := EncodeAll(bs[1..]).value;
  }

  /** A block read at `offset` followed by the blocks read after it. */
  lemma DecodeAllCons(data: seq<byte>, offset: nat, b: BlockData, end: nat, rest: seq<BlockData>)
    requires offset < |data| && DecodeAt(data, offset) == Success((b, end)) && DecodeAll(data, end) == Success(rest)
    ensures DecodeAll(data, offset) == Success([b] + rest)
  {
  }

  lemma DropFront(data: seq<byte>, offset: nat, first: seq<byte>, rest: seq<byte>) returns (end: nat)
    requires offset <= |data| && data[offset..] == first + rest
    ensures end == offset + |first| && end <= |data| && data[offset..end] == first && data[end..] == rest
  {
    end := offset + |first|;
    assert data[end..] == data[offset..][|first|..];
    assert data[offset..end] == data[offset..][..|first|];
  }

  /** A written block found in place is read back. */
  lemma BlockInPlace(b: BlockData, first: seq<byte>, data: seq<byte>, offset: nat, end: nat)
    requires WellFormed(b) && EncodeBlock(b, true) == Success(first)
    requires end == offset + |first| && end <= |data| && data[offset..end] == first
    ensures offset < end && DecodeAt(data, offset) == Success((b, end))
  {
    SliceHolds(data, offset, end, first);
    ReadWrittenBlock(b, first, data, offset, end);
  }

  lemma SliceHolds(data: seq<byte>, offset: nat, end: nat, enc: seq<byte>)
    requires end == offset + |enc| && end <= |data| && data[offset..end] == enc
    ensures Holds(data, offset, enc)
  {
    forall i | 0 <= i < |enc|
      ensures data[offset + i] == enc[i]
    {
      assert data[offset..end][i] == enc[i];
    }
  }

  /** Whatever a stream reads as, writing those blocks gives the stream back:
      reading consumes the data to exactly its end. */
  lemma {:induction false} EncodeDecodedAll(data: seq<byte>, offset: nat)
    requires offset <= |data| && DecodeAll(data, offset).Success?
    ensures var bs := DecodeAll(data, offset).value;
      AllWellFormed(bs) && EncodeAll(bs) == Success(data[offset..])
    decreases |data| - offset
  {
    if offset < |data| {
      var b, end, rest := DecodedFront(data, offset);
      BlockFacts(data, offset, b, end);
      EncodeDecodedAll(data, end);
      EncodeAllCons(b, rest, data[offset..end], data[end..]);
      AllWellFormedCons(b, rest);
      SplitAt(data, offset, end);
    } else {
      assert DecodeAll(data, offset) == Success([]);
      assert data[offset..] == [];
    }
  }

  /** The first block of a stream that reads, and the blocks after it. */
  lemma DecodedFront(data: seq<byte>, offset: nat) returns (b: BlockData, end: nat, rest: seq<BlockData>)
    requires offset < |data| && DecodeAll(data, offset).Success?
    ensures offset < end <= |data| && DecodeAt(data, offset) == Success((b, end))
    ensures DecodeAll(data, end) == Success(rest) && DecodeAll(data, offset).value == [b] + rest
  {
    b, end := DecodeAt(data, offset).value.0, DecodeAt(data, offset).value.1;
    rest := DecodeAll(data, end).value;
  }

  /** A block that reads is well-formed and is written back as the bytes it was read from. */
  lemma BlockFacts(data: seq<byte>, offset: nat, b: BlockData, end: nat)
    requires DecodeAt(data, offset) == Success((b, end))
    ensures offset <= end <= |data| && WellFormed(b) && EncodeBlock(b, true) == Success(data[offset..end])
  {
    WriteReadBlock(data, offset);
  }

  lemma EncodeAllCons(b: BlockData, rest: seq<BlockData>, x: seq<byte>, y: seq<byte>)
    requires EncodeBlock(b, true) == Success(x) && EncodeAll(rest) == Success(y)
    ensures EncodeAll([b] + rest) == Success(x + y)
  {
    assert ([b] + rest)[0] == b && ([b] + rest)[1..] == rest;
  }

  lemma AllWellFormedCons(b: BlockData, rest: seq<BlockData>)
    requires WellFormed(b) && AllWellFormed(rest)
    ensures AllWellFormed([b] + rest)
  {
    forall i | 0 <= i < |rest| + 1
      ensures WellFormed(([b] + rest)[i])
    {
      if i > 0 {
        assert ([b] + rest)[i] == rest[i - 1];
      }
    }
  }

  lemma SplitAt(data: seq<byte>, offset: nat, end: nat)
    requires offset <= end <= |data|
    ensures data[offset..] == data[offset..end] + data[end..]
  {
  }

  // ---------------------------------------------------------------------
  // The whole file.

  /** An encrypted file is the written blocks and a digest. */
  lemma EncryptLength(bs: seq<BlockData>, sha: seq<byte> -> Digest)
    requires Encrypted(bs, sha).Success?
    ensures |Encrypted(bs, sha).value| == TotalSize(bs) + HASH_SIZE
  {
    EncodeAllLength(bs);
  }

  /** Every encrypted file passes the digest check. */
  lemma EncryptHashValid(bs: seq<BlockData>, sha: seq<byte> -> Digest)
    requires Encrypted(bs, sha).Success?
    ensures HashIsValid(Encrypted(bs, sha).value, sha)
  {
    var raw := RawData(bs).value;
    var payload := XorPad(raw[..|raw| - HASH_SIZE], PAD);
    HashIsValidIff(payload, ComputeHash(payload, sha), sha);
  }

  /** Decrypting an encrypted list of well-formed blocks gives the list back. */
  lemma DecryptEncrypt(bs: seq<BlockData>, sha: seq<byte> -> Digest)
    requires AllWellFormed(bs)
    ensures Encrypted(bs, sha).Success? && Decrypted(Encrypted(bs, sha).value) == Success(bs)
  {
    WellFormedEncodeAll(bs);
    var body := EncodeAll(bs).value;
    var raw := body + Zeros(HASH_SIZE);
    assert raw[..|raw| - HASH_SIZE] == body;
    var payload := XorPad(body, PAD);
    var enc := payload + ComputeHash(payload, sha);
    assert Encrypted(bs, sha) == Success(enc);
    assert enc[..|enc| - HASH_SIZE] == payload;
    XorPadTwice(body, PAD);
    assert body[0..] == body;
    DecodeEncodedAll(bs, body, 0);
  }

  /** Encrypting what a file decrypts to gives the file back, with the digest
      recomputed; a file whose digest is valid comes back byte for byte. */
  lemma EncryptDecrypt(data: seq<byte>, sha: seq<byte> -> Digest)
    requires |data| >= HASH_SIZE && Decrypted(data).Success?
    ensures var payload := data[..|data| - HASH_SIZE];
      Encrypted(Decrypted(data).value, sha) == Success(payload + ComputeHash(payload, sha))
    ensures HashIsValid(data, sha) ==> Encrypted(Decrypted(data).value, sha) == Success(data)
  {
    var payload := data[..|data| - HASH_SIZE];
    var body := XorPad(payload, PAD);
    var bs := Decrypted(data).value;
    var raw := RawOfDecoded(body, bs);
    EncryptedOf(bs, raw, sha);
    XorPadTwice(payload, PAD);
    HashSplit(data, payload, sha);
  }

  /** Blocks read from a whole unpadded stream write back to that stream, with room for the digest. */
  lemma RawOfDecoded(body: seq<byte>, bs: seq<BlockData>) returns (raw: seq<byte>)
    requires DecodeAll(body, 0) == Success(bs)
    ensures raw == body + Zeros(HASH_SIZE) && RawData(bs) == Success(raw)
    ensures raw[..|raw| - HASH_SIZE] == body
  {
    EncodeDecodedAll(body, 0);
    assert body[0..] == body;
    raw := body + Zeros(HASH_SIZE);
  }

  /** A file is its payload followed by its stored digest. */
  lemma HashSplit(data: seq<byte>, payload: seq<byte>, sha: seq<byte> -> Digest)
    requires |data| >= HASH_SIZE && payload == data[..|data| - HASH_SIZE]
    ensures HashIsValid(data, sha) ==> data == payload + ComputeHash(payload, sha)
  {
    assert data == payload + data[|data| - HASH_SIZE..];
  }

  /** `decrypt` does not look at the digest. */
  lemma DecryptIgnoresHash(payload: seq<byte>, h1: seq<byte>, h2: seq<byte>)
    requires |h1| == HASH_SIZE && |h2| == HASH_SIZE
    ensures Decrypted(payload + h1) == Decrypted(payload + h2)
  {
    assert (payload + h1)[..|payload|] == payload == (payload + h2)[..|payload|];
  }

  /** A file no longer than a digest holds no blocks. */
  lemma DecryptShort(data: seq<byte>)
    requires |data| <= HASH_SIZE
    ensures Decrypted(data) == Success([])
  {
  }

  // ---------------------------------------------------------------------
  // The methods over block objects.

  /** The values of a list of block objects. */
  function Values(blocks: seq<SCBlock>): (vs: seq<BlockData>)
    reads blocks, set b | b in blocks :: b.raw
    ensures |vs| == |blocks| && forall i :: 0 <= i < |blocks| ==> vs[i] == blocks[i].Value()
  {
    if |blocks| == 0 then [] else [blocks[0].Value()] + Values(blocks[1..])
  }

  /** `read_blocks`: the loop reading blocks until the data is used up. */
  method ReadBlocks(data: seq<byte>) returns (r: Result<seq<SCBlock>>)
    ensures r.Success? <==> DecodeAll(data, 0).Success?
    ensures r.Success? ==> Values(r.value) == DecodeAll(data, 0).value
    ensures r.Failure? ==> r.error == DecodeAll(data, 0).error
  {
    var result: seq<SCBlock> := [];
    var offset := 0;
    assert Prepend([], DecodeAll(data, 0)) == DecodeAll(data, 0) by {
      PrependNothing(DecodeAll(data, 0));
    }
    while offset < |data|
      invariant offset <= |data|
      invariant DecodeAll(data, 0) == Prepend(Values(result), DecodeAll(data, offset))
      decreases |data| - offset
    {
      var next := SCBlock.ReadFromOffset(data, offset);
      DecodeAllStep(data, offset);
      if next.Failure? {
        return Failure(next.error);
      }
      var (block, end) := next.value;
      PrependTwice(Values(result), [block.Value()], DecodeAll(data, end));
      ValuesSnoc(result, block);
      result := result + [block];
      offset := end;
    }
    r := Success(result);
  }

  lemma ValuesSnoc(blocks: seq<SCBlock>, block: SCBlock)
    ensures Values(blocks + [block]) == Values(blocks) + [block.Value()]
  {
    var vs := Values(blocks + [block]);
    assert forall i :: 0 <= i < |blocks| ==> (blocks + [block])[i] == blocks[i];
  }

  /** A list of blocks in front of a result. */
  function Prepend(vs: seq<BlockData>, r: Result<seq<BlockData>>): Result<seq<BlockData>> {
    if r.Success? then Success(vs + r.value) else r
  }

  lemma PrependNothing(r: Result<seq<BlockData>>)
    ensures Prepend([], r) == r
  {
    if r.Success? {
      assert [] + r.value == r.value;
    }
  }

  lemma PrependTwice(a: seq<BlockData>, b: seq<BlockData>, r: Result<seq<BlockData>>)
    ensures Prepend(a, Prepend(b, r)) == Prepend(a + b, r)
  {
    if r.Success? {
      assert a + (b + r.value) == a + b + r.value;
    }
  }

  /** One step of the reading loop: the block at `offset`, then the blocks after it. */
  lemma DecodeAllStep(data: seq<byte>, offset: nat)
    requires offset < |data|
    ensures DecodeAt(data, offset).Failure? ==> DecodeAll(data, offset) == Failure(DecodeAt(data, offset).error)
    ensures DecodeAt(data, offset).Success? ==>
      DecodeAll(data, offset) == Prepend([DecodeAt(data, offset).value.0], DecodeAll(data, DecodeAt(data, offset).value.1))
  {
  }

  /** `decrypt`: strips the digest, removes the pad in place and reads the blocks. */
  method Decrypt(data: seq<byte>) returns (r: Result<seq<SCBlock>>)
    ensures r.Success? <==> Decrypted(data).Success?
    ensures r.Success? ==> Values(r.value) == Decrypted(data).value
    ensures r.Failure? ==> r.error == Decrypted(data).error
  {
    var n := if |data| >= HASH_SIZE then |data| - HASH_SIZE else 0;
    var payload := new byte[n](i requires 0 <= i < n => data[i]);
    assert payload[..] == data[..n];
    CryptStaticXorpad(payload);
    r := ReadBlocks(payload[..]);
  }

  /** `get_decrypted_raw_data`: every block written with its key, then room for the digest. */
  method GetDecryptedRawData(blocks: seq<SCBlock>) returns (r: Result<seq<byte>>)
    ensures r == RawData(Values(blocks))
  {
    var body := WriteBlocks(blocks);
    if body.Failure? {
      return Failure(body.error);
    }
    r := Success(body.value + Zeros(HASH_SIZE));
  }

  /** The loop of `get_decrypted_raw_data`: each block written with its key,
      one after another; the first block that cannot be written fails the whole. */
  method WriteBlocks(blocks: seq<SCBlock>) returns (r: Result<seq<byte>>)
    ensures r == EncodeAll(Values(blocks))
  {
    ghost var vs := Values(blocks);
    var result: seq<byte> := [];
    for i := 0 to |blocks|
      invariant Values(blocks) == vs
      invariant EncodeAll(vs[..i]) == Success(result)
    {
      var enc := blocks[i].WriteBlock(true);
      assert enc == EncodeBlock(vs[i], true);
      EncodeAllSnoc(vs, i, result, enc);
      if enc.Failure? {
        return Failure(enc.error);
      }
      result := result + enc.value;
    }
    assert vs[..|vs|] == vs;
    r := Success(result);
  }

  /** One more block written after the first i: its bytes are appended, or
      its failure is the failure of the whole list. */
  lemma EncodeAllSnoc(vs: seq<BlockData>, i: nat, prefix: seq<byte>, enc: Result<seq<byte>>)
    requires i < |vs| && EncodeAll(vs[..i]) == Success(prefix) && enc == EncodeBlock(vs[i], true)
    ensures enc.Failure? ==> EncodeAll(vs) == Failure(enc.error)
    ensures enc.Success? ==> EncodeAll(vs[..i + 1]) == Success(prefix + enc.value)
  {
    var front := vs[..i + 1];
    SnocSlices(vs, i);
    EncodeAllAppend(vs[..i], [vs[i]]);
    EncodeSingle(vs[i]);
    if enc.Failure? {
      assert EncodeAll(front) == Failure(enc.error);
      EncodeAllAppend(front, vs[i + 1..]);
    }
  }

  /** A list of one block is written as that block alone. */
  lemma EncodeSingle(b: BlockData)
    ensures EncodeAll([b]) == (var e :- EncodeBlock(b, true); Success(e))
  {
    assert [b][1..] == [];
    if EncodeBlock(b, true).Success? {
      var e := EncodeBlock(b, true).value;
      assert e + [] == e;
    }
  }

  /** `encrypt`: writes the blocks, pads all but the digest's room in place,
      and puts the digest of the padded bytes in that room. */
  method Encrypt(blocks: seq<SCBlock>, sha: seq<byte> -> Digest) returns (r: Result<seq<byte>>)
    ensures r == Encrypted(Values(blocks), sha)
  {
    var raw := GetDecryptedRawData(blocks);
    if raw.Failure? {
      return Failure(raw.error);
    }
    var sealed := PadAndSeal(raw.value, sha);
    EncryptedOf(Values(blocks), raw.value, sha);
    r := Success(sealed);
  }

  /** The in-place part of `encrypt`: all but the last 32 bytes padded, and
      the digest of the padded bytes written over the last 32. */
  method PadAndSeal(raw: seq<byte>, sha: seq<byte> -> Digest) returns (sealed: seq<byte>)
    requires |raw| >= HASH_SIZE
    ensures var payload := XorPad(raw[..|raw| - HASH_SIZE], PAD);
      sealed == payload + ComputeHash(payload, sha)
  {
    var n := |raw| - HASH_SIZE;
    var result := new byte[|raw|](i requires 0 <= i < |raw| => raw[i]);
    var payload := new byte[n](i requires 0 <= i < n => raw[i]);
    assert payload[..] == raw[..n];
    CryptStaticXorpad(payload);
    Overwrite(result, 0, payload[..]);
    var hash := ComputeHash(payload[..], sha);
    Overwrite(result, n, hash);
    assert result[..] == payload[..] + hash;
    sealed := result[..];
  }

  /** The file that `encrypt` produces from written blocks and their padded bytes. */
  lemma EncryptedOf(bs: seq<BlockData>, raw: seq<byte>, sha: seq<byte> -> Digest)
    requires RawData(bs) == Success(raw)
    ensures |raw| >= HASH_SIZE
    ensures var payload := XorPad(raw[..|raw| - HASH_SIZE], PAD);
      Encrypted(bs, sha) == Success(payload + ComputeHash(payload, sha))
  {
  }

  /** Slice assignment `dst[at:at + len(src)] = src`. */
  method Overwrite(dst: array<byte>, at: nat, src: seq<byte>)
    requires at + |src| <= dst.Length
    modifies dst
    ensures dst[..] == old(dst[..])[..at] + src + old(dst[..])[at + |src|..]
  {
    forall i | 0 <= i < |src| {
      dst[at + i] := src[i];
    }
  }
}
