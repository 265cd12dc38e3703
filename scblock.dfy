/** One block of the save file: a 32-bit key, a type tag, an optional array
    element type and a payload, stored on disk scrambled by the keystream
    that the key seeds. */
module Blocks {
  import opened Wrappers
  import opened Bytes
  import opened XorShift
  import opened TypeCodes

  const WORD_LIMIT: nat := 0x1_0000_0000

  /** The value of a block: what two blocks must agree on to be the same block. */
  datatype BlockData = BlockData(key: bv32, blockType: TypeCode, subType: TypeCode, raw: seq<byte>)

  /** `change_boolean_type` only switches between the two payload-free booleans. */
  predicate CanChangeBoolean(from: TypeCode, to: TypeCode) {
    (from.Bool1? || from.Bool2?) && (to.Bool1? || to.Bool2?)
  }

  /** The on-disk tag byte: the type's code XORed with a keystream byte. */
  function TagByte(t: TypeCode, k: byte): byte {
    ByteOfNat(Code(t)) ^ k
  }

  /** The scrambled bytes between the key and the payload: the type tag, then
      for OBJECT the payload length, for ARRAY the entry count and the element
      type. The count is the payload length divided (rounding down) by the
      element size, and an element type without a size fails. A length or
      count `struct.pack('<I', ...)` cannot hold fails. Keystream positions
      0, 1-4 and 5 are used in that order. */
  function Header(b: BlockData): (r: Result<seq<byte>>)
    ensures r.Success? ==> |r.value| == HeaderLength(b.blockType)
  {
    var tag := TagByte(b.blockType, KeyByte(b.key, 0));
    match b.blockType
    case Object =>
      if |b.raw| >= WORD_LIMIT then Failure(OutOfRange)
      else Success([tag] + WriteCount(|b.raw|, b.key))
    case Array =>
      (match TypeSize(b.subType)
       case Failure(e) => Failure(e)
       case Success(size) =>
         var entries := |b.raw| / size;
         if entries >= WORD_LIMIT then Failure(OutOfRange)
         else Success([tag] + WriteCount(entries, b.key) + [TagByte(b.subType, KeyByte(b.key, 5))]))
    case _ => Success([tag])
  }

  /** A length or count field as written, `struct.pack('<I', n ^ xk.next32())`:
      the XOR of two little-endian numbers is the byte-wise XOR of their
      layouts, so this is n's four bytes scrambled at keystream positions 1-4. */
  function WriteCount(n: nat, key: bv32): (s: seq<byte>)
    requires n < WORD_LIMIT
    ensures |s| == 4
  {
    Crypt(ToLE(n, 4), key, 1)
  }

  /** A length or count field as read: `struct.unpack('<I', s)[0] ^ xk.next32()`. */
  function ReadCount(s: seq<byte>, key: bv32): (n: nat)
    requires |s| == 4
    ensures n < WORD_LIMIT
  {
    assert Pow256(4) == WORD_LIMIT;
    FromLE(Crypt(s, key, 1))
  }

  function HeaderLength(t: TypeCode): nat {
    if t.Object? then 5 else if t.Array? then 6 else 1
  }

  /** `write_block(write_key=False)`: the header, then the payload scrambled
      with the keystream continuing right after the header. */
  function EncodeBody(b: BlockData): (r: Result<seq<byte>>)
    ensures r.Success? ==> |r.value| == HeaderLength(b.blockType) + |b.raw|
  {
    var header :- Header(b);
    Success(header + Crypt(b.raw, b.key, |header|))
  }

  /** `write_block(write_key)`: with `write_key`, the key in clear as four
      little-endian bytes in front of the body. */
  function EncodeBlock(b: BlockData, writeKey: bool): (r: Result<seq<byte>>)
    ensures r.Success? <==> EncodeBody(b).Success?
    ensures r.Success? ==> r.value == (if writeKey then LE32(b.key) else []) + EncodeBody(b).value
  {
    var body :- EncodeBody(b);
    Success((if writeKey then LE32(b.key) else []) + body)
  }

  /** The blocks that reading gives back unchanged after writing: the payload
      has exactly the size the type implies, and the element type is kept
      only by arrays. */
  predicate WellFormed(b: BlockData) {
    match b.blockType
    case NoType => false
    case Bool1 | Bool2 | Bool3 => b.raw == [] && b.subType == NoType
    case Object => |b.raw| < WORD_LIMIT && b.subType == NoType
    case Array =>
      TypeSize(b.subType).Success? && |b.raw| % TypeSize(b.subType).value == 0
      && |b.raw| / TypeSize(b.subType).value < WORD_LIMIT
    case _ => |b.raw| == TypeSize(b.blockType).value && b.subType == NoType
  }

  /** A scrambled tag byte `data[i]`, unscrambled with keystream byte `at`
      and looked up in the type table. */
  function TagAt(data: seq<byte>, key: bv32, at: nat, i: nat): Result<TypeCode>
    requires i < |data|
  {
    FromCode((data[i] ^ KeyByte(key, at)) as int)
  }

  /** A header cannot be written exactly when the length or count does not
      fit in 32 bits, or the element type of an array has no size. */
  lemma HeaderFails(b: BlockData)
    ensures Header(b).Failure? <==>
      (b.blockType.Object? && |b.raw| >= WORD_LIMIT) ||
      (b.blockType.Array? && (TypeSize(b.subType).Failure? || |b.raw| / TypeSize(b.subType).value >= WORD_LIMIT))
  {
  }

  /** A header that cannot be written makes the whole block unwritable, with the same error. */
  lemma HeaderFailure(b: BlockData, writeKey: bool)
    requires Header(b).Failure?
    ensures EncodeBlock(b, writeKey) == Failure(Header(b).error)
  {
  }

  /** A written block is the optional key, the header and the payload scrambled right after the header. */
  lemma EncodeBlockParts(b: BlockData, writeKey: bool)
    requires Header(b).Success?
    ensures EncodeBlock(b, writeKey) ==
      Success((if writeKey then LE32(b.key) else []) + Header(b).value + Crypt(b.raw, b.key, |Header(b).value|))
  {
    var header := Header(b).value;
    var prefix: seq<byte> := if writeKey then LE32(b.key) else [];
    var payload := Crypt(b.raw, b.key, |header|);
    assert EncodeBody(b) == Success(header + payload);
    assert prefix + (header + payload) == prefix + header + payload;
  }

  /** Every well-formed block can be written. */
  lemma WellFormedEncodes(b: BlockData)
    requires WellFormed(b)
    ensures EncodeBody(b).Success? && EncodeBlock(b, true).Success? && EncodeBlock(b, false).Success?
  {
    if b.blockType.Array? {
      var size := TypeSize(b.subType).value;
      assert |b.raw| / size < WORD_LIMIT;
    }
  }

  /** `_read_from_offset_with_key`: parses one block whose key is already known
      from `offset`, returning it with the offset just past it. Each step
      checks, in order: a byte for the tag, a known tag, four bytes of length
      or count, a byte for the element type, a known element type with a size,
      and enough bytes for the payload. Booleans carry no payload. */
  function DecodeWithKey(data: seq<byte>, key: bv32, offset: nat): (r: Result<(BlockData, nat)>)
    ensures r.Success? ==> offset < r.value.1 <= |data| && r.value.0.key == key
  {
    if offset >= |data| then Failure(Truncated)
    else match TagAt(data, key, 0, offset)
      case Failure(e) => Failure(e)
      case Success(t) => DecodeBody(data, key, t, offset + 1)
  }

  /** What follows a tag of type t at `o`. */
  function DecodeBody(data: seq<byte>, key: bv32, t: TypeCode, o: nat): (r: Result<(BlockData, nat)>)
    requires o <= |data|
    ensures r.Success? ==> o <= r.value.1 <= |data| && r.value.0.key == key && r.value.0.blockType == t
  {
    if IsBoolean(t) then Success((BlockData(key, t, NoType, []), o))
    else if t.Object? then DecodeObject(data, key, o)
    else if t.Array? then DecodeArray(data, key, o)
    else DecodeScalar(data, key, t, o)
  }

  /** OBJECT: the length, then that many payload bytes from keystream position 5. */
  function DecodeObject(data: seq<byte>, key: bv32, o: nat): (r: Result<(BlockData, nat)>)
    ensures r.Success? ==> o + 4 <= r.value.1 <= |data| && r.value.0.key == key && r.value.0.blockType == Object
  {
    if o + 4 > |data| then Failure(Truncated)
    else
      var n := ReadCount(data[o..o + 4], key);
      var p := o + 4;
      if p + n > |data| then Failure(Truncated)
      else Success((BlockData(key, Object, NoType, Crypt(data[p..p + n], key, 5)), p + n))
  }

  /** ARRAY: the entry count, the element type, then count times its size
      payload bytes from keystream position 6. */
  function DecodeArray(data: seq<byte>, key: bv32, o: nat): (r: Result<(BlockData, nat)>)
    ensures r.Success? ==> o + 5 <= r.value.1 <= |data| && r.value.0.key == key && r.value.0.blockType == Array
  {
    match ArrayHeaderAt(data, key, o)
    case Failure(e) => Failure(e)
    case Success((st, n)) =>
      var p := o + 5;
      if p + n > |data| then Failure(Truncated)
      else Success((BlockData(key, Array, st, Crypt(data[p..p + n], key, 6)), p + n))
  }

  /** The element type of an array and the length of its payload: the
      entry count times the element size. */
  function ArrayHeaderAt(data: seq<byte>, key: bv32, o: nat): (r: Result<(TypeCode, nat)>)
    ensures r.Success? ==> o + 5 <= |data|
  {
    if o + 4 > |data| then Failure(Truncated)
    else if o + 4 >= |data| then Failure(Truncated)
    else match TagAt(data, key, 5, o + 4)
      case Failure(e) => Failure(e)
      case Success(st) =>
        match TypeSize(st)
        case Failure(e) => Failure(e)
        case Success(size) => Success((st, ReadCount(data[o..o + 4], key) * size))
  }

  /** A single value: as many payload bytes as its type's size, from keystream position 1. */
  function DecodeScalar(data: seq<byte>, key: bv32, t: TypeCode, o: nat): (r: Result<(BlockData, nat)>)
    ensures r.Success? ==> o <= r.value.1 <= |data| && r.value.0.key == key && r.value.0.blockType == t
  {
    match TypeSize(t)
    case Failure(e) => Failure(e)
    case Success(size) =>
      if o + size > |data| then Failure(Truncated)
      else Success((BlockData(key, t, NoType, Crypt(data[o..o + size], key, 1)), o + size))
  }

  /** `read_from_offset`: the key in clear, then the block it seeds. */
  function DecodeAt(data: seq<byte>, offset: nat): (r: Result<(BlockData, nat)>)
    ensures r.Success? ==> offset + 4 < r.value.1 <= |data|
    ensures r.Success? ==> r.value.0.key == Word32(data[offset..offset + 4])
  {
    if offset + 4 > |data| then Failure(Truncated)
    else DecodeWithKey(data, Word32(data[offset..offset + 4]), offset + 4)
  }

  /** `get_total_length`: where a block ends, computed from its header alone
      (the payload is not checked to be present). Without a key, the key is
      read from the first four bytes and the block starts right after them,
      whatever `offset` says. */
  function GetTotalLength(data: seq<byte>, key: Option<bv32>, offset: nat): Result<nat> {
    match key
    case None => if |data| < 4 then Failure(Truncated) else TotalLengthWithKey(data, Word32(data[..4]), 4)
    case Some(k) => TotalLengthWithKey(data, k, offset)
  }

  /** The end of the block whose body starts at `start`, from its header alone. */
  function TotalLengthWithKey(data: seq<byte>, key: bv32, start: nat): Result<nat> {
    if start >= |data| then Failure(Truncated)
    else
      var t :- TagAt(data, key, 0, start);
      var o := start + 1;
      if IsBoolean(t) then Success(o)
      else if t.Object? then
        if o + 4 > |data| then Failure(Truncated)
        else Success(o + 4 + ReadCount(data[o..o + 4], key))
      else if t.Array? then
        if o + 4 > |data| then Failure(Truncated)
        else
          var count := ReadCount(data[o..o + 4], key);
          if o + 4 >= |data| then Failure(Truncated)
          else
            var st :- TagAt(data, key, 5, o + 4);
            var size :- TypeSize(st);
            Success(o + 5 + size * count)
      else
        var size :- TypeSize(t);
        Success(o + size)
  }

  // ---------------------------------------------------------------------
  // Small facts about the scrambled header fields.

  /** A tag written for t reads back as t. */
  lemma TagAtEncoded(data: seq<byte>, key: bv32, at: nat, i: nat, t: TypeCode)
    requires i < |data| && data[i] == TagByte(t, KeyByte(key, at))
    ensures TagAt(data, key, at, i) == Success(t)
  {
    TagRoundTrip(t, KeyByte(key, at));
  }

  /** A tag that reads as t is the tag written for t. */
  lemma TagAtRepair(data: seq<byte>, key: bv32, at: nat, i: nat, t: TypeCode)
    requires i < |data| && TagAt(data, key, at, i) == Success(t)
    ensures TagByte(t, KeyByte(key, at)) == data[i]
  {
    TagRepair(data[i], KeyByte(key, at), t);
  }

  lemma TagRoundTrip(t: TypeCode, k: byte)
    ensures FromCode((TagByte(t, k) ^ k) as int) == Success(t)
  {
    FromCodeOfCode(t);
  }

  lemma TagRepair(d: byte, k: byte, t: TypeCode)
    requires FromCode((d ^ k) as int) == Success(t)
    ensures TagByte(t, k) == d
  {
    var x := d ^ k;
    var c := Code(t);
    assert c == x as int;
    ByteOfNatOfByte(x);
  }

  lemma CountRoundTrip(n: nat, key: bv32)
    requires n < WORD_LIMIT
    ensures ReadCount(WriteCount(n, key), key) == n
  {
    CryptInvolution(ToLE(n, 4), key, 1);
    assert Pow256(4) == WORD_LIMIT;
    FromToLE(n, 4);
  }

  lemma CountRepair(s: seq<byte>, key: bv32)
    requires |s| == 4
    ensures WriteCount(ReadCount(s, key), key) == s
  {
    ToFromLE(Crypt(s, key, 1));
    CryptInvolution(s, key, 1);
  }

  lemma MulDiv(count: nat, size: nat)
    requires size == 1 || size == 2 || size == 4 || size == 8
    ensures (count * size) / size == count && (count * size) % size == 0
  {
  }

  lemma DivMul(n: nat, size: nat)
    requires (size == 1 || size == 2 || size == 4 || size == 8) && n % size == 0
    ensures (n / size) * size == n
  {
  }

  /** The byte string `data` holds enc at offset. */
  predicate Holds(data: seq<byte>, offset: nat, enc: seq<byte>) {
    offset + |enc| <= |data| && forall i :: 0 <= i < |enc| ==> data[offset + i] == enc[i]
  }

  /** The pieces of a slice taken out of a bigger slice. */
  lemma SliceOfSlice(data: seq<byte>, offset: nat, enc: seq<byte>, i: nat, j: nat)
    requires Holds(data, offset, enc) && i <= j <= |enc|
    ensures data[offset + i..offset + j] == enc[i..j]
  {
    forall m | 0 <= m < j - i
      ensures data[offset + i..offset + j][m] == enc[i..j][m]
    {
      assert enc[i + m] == data[offset + (i + m)];
    }
  }

  // ---------------------------------------------------------------------
  // Reading back what was written, and writing back what was read.

  /** Reading a well-formed block's body, found anywhere in a buffer, gives
      the block back and stops right after the body. */
  lemma DecodeEncodedBody(b: BlockData, enc: seq<byte>, data: seq<byte>, offset: nat, end: nat)
    requires WellFormed(b) && EncodeBody(b) == Success(enc) && Holds(data, offset, enc)
    requires end == offset + |enc|
    ensures DecodeWithKey(data, b.key, offset) == Success((b, end))
  {
    EncodedParts(b, enc, data, offset);
    if b.blockType.Object? {
      DecodeEncodedObject(b, enc, data, offset);
    } else if b.blockType.Array? {
      DecodeEncodedArray(b, enc, data, offset);
    } else if !IsBoolean(b.blockType) {
      DecodeEncodedScalar(b, enc, data, offset);
    }
  }

  /** The tag and the payload of an encoded body, read in place. */
  lemma EncodedParts(b: BlockData, enc: seq<byte>, data: seq<byte>, offset: nat)
    requires EncodeBody(b) == Success(enc) && Holds(data, offset, enc)
    ensures offset < |data| && TagAt(data, b.key, 0, offset) == Success(b.blockType)
    ensures var h := HeaderLength(b.blockType);
      |enc| == h + |b.raw| && Crypt(data[offset + h..offset + |enc|], b.key, h) == b.raw
  {
    BodyParts(b, enc);
    PartsInPlace(data, offset, enc, b.key, HeaderLength(b.blockType), b.blockType, b.raw);
  }

  /** An encoded body starts with the scrambled tag and ends with the scrambled payload. */
  lemma BodyParts(b: BlockData, enc: seq<byte>)
    requires EncodeBody(b) == Success(enc)
    ensures var h := HeaderLength(b.blockType);
      |enc| == h + |b.raw| && enc[0] == TagByte(b.blockType, KeyByte(b.key, 0)) && enc[h..] == Crypt(b.raw, b.key, h)
  {
    var header := Header(b).value;
    assert enc == header + Crypt(b.raw, b.key, |header|);
  }

  /** A tag byte and a scrambled payload, found in place. */
  lemma PartsInPlace(data: seq<byte>, offset: nat, enc: seq<byte>, key: bv32, h: nat, t: TypeCode, raw: seq<byte>)
    requires Holds(data, offset, enc) && 1 <= h && |enc| == h + |raw|
    requires enc[0] == TagByte(t, KeyByte(key, 0)) && enc[h..] == Crypt(raw, key, h)
    ensures offset < |data| && TagAt(data, key, 0, offset) == Success(t)
    ensures Crypt(data[offset + h..offset + |enc|], key, h) == raw
  {
    assert data[offset + 0] == enc[0];
    TagAtEncoded(data, key, 0, offset, t);
    SliceOfSlice(data, offset, enc, h, |enc|);
    CryptInvolution(raw, key, h);
  }

  lemma DecodeEncodedObject(b: BlockData, enc: seq<byte>, data: seq<byte>, offset: nat)
    requires WellFormed(b) && b.blockType.Object? && EncodeBody(b) == Success(enc) && Holds(data, offset, enc)
    ensures DecodeWithKey(data, b.key, offset) == Success((b, offset + |enc|))
  {
    EncodedParts(b, enc, data, offset);
    SliceOfSlice(data, offset, enc, 1, 5);
    assert data[offset + 1..offset + 5] == WriteCount(|b.raw|, b.key);
    CountRoundTrip(|b.raw|, b.key);
    assert DecodeObject(data, b.key, offset + 1) == Success((b, offset + |enc|));
  }

  lemma DecodeEncodedArray(b: BlockData, enc: seq<byte>, data: seq<byte>, offset: nat)
    requires WellFormed(b) && b.blockType.Array? && EncodeBody(b) == Success(enc) && Holds(data, offset, enc)
    ensures DecodeWithKey(data, b.key, offset) == Success((b, offset + |enc|))
  {
    var size := TypeSize(b.subType).value;
    ArrayFacts(b, enc);
    DecodeArrayFromFacts(data, offset, enc, b.key, b.subType, b.raw, |b.raw| / size, size);
  }

  /** The fields of an encoded array, as plain facts about its bytes. */
  lemma ArrayFacts(b: BlockData, enc: seq<byte>)
    requires WellFormed(b) && b.blockType.Array? && EncodeBody(b) == Success(enc)
    ensures TypeSize(b.subType).Success?
    ensures var size := TypeSize(b.subType).value;
      |b.raw| / size < WORD_LIMIT && (|b.raw| / size) * size == |b.raw|
    ensures |enc| == 6 + |b.raw| && enc[0] == TagByte(Array, KeyByte(b.key, 0))
    ensures enc[1..5] == WriteCount(|b.raw| / TypeSize(b.subType).value, b.key)
    ensures enc[5] == TagByte(b.subType, KeyByte(b.key, 5)) && enc[6..] == Crypt(b.raw, b.key, 6)
  {
    ArrayHeaderParts(b, enc);
    BodyParts(b, enc);
  }

  /** An array encoding found in place reads back as that array. */
  lemma DecodeArrayFromFacts(data: seq<byte>, offset: nat, enc: seq<byte>, key: bv32, st: TypeCode,
                             raw: seq<byte>, n: nat, size: nat)
    requires Holds(data, offset, enc) && TypeSize(st) == Success(size)
    requires n < WORD_LIMIT && n * size == |raw|
    requires |enc| == 6 + |raw| && enc[0] == TagByte(Array, KeyByte(key, 0))
    requires enc[1..5] == WriteCount(n, key) && enc[5] == TagByte(st, KeyByte(key, 5)) && enc[6..] == Crypt(raw, key, 6)
    ensures DecodeWithKey(data, key, offset) == Success((BlockData(key, Array, st, raw), offset + |enc|))
  {
    ArrayCountAndType(key, n, st, enc, data, offset);
    PartsInPlace(data, offset, enc, key, 6, Array, raw);
    DecodeArrayAt(data, key, offset, st, raw, n, size);
  }

  /** The count and element type fields, wherever the encoding sits. */
  lemma ArrayCountAndType(key: bv32, entries: nat, st: TypeCode, enc: seq<byte>, data: seq<byte>, offset: nat)
    requires entries < WORD_LIMIT && |enc| >= 6 && Holds(data, offset, enc)
    requires enc[1..5] == WriteCount(entries, key) && enc[5] == TagByte(st, KeyByte(key, 5))
    ensures ReadCount(data[offset + 1..offset + 5], key) == entries
    ensures TagAt(data, key, 5, offset + 5) == Success(st)
  {
    SliceOfSlice(data, offset, enc, 1, 5);
    CountRoundTrip(entries, key);
    SliceOfSlice(data, offset, enc, 5, 6);
    TagAtEncoded(data, key, 5, offset + 5, st);
  }

  /** An array block whose tag, count, element type and payload read as given. */
  lemma DecodeArrayAt(data: seq<byte>, key: bv32, offset: nat, st: TypeCode, raw: seq<byte>, n: nat, size: nat)
    requires offset + 6 + |raw| <= |data| && TagAt(data, key, 0, offset) == Success(Array)
    requires TagAt(data, key, 5, offset + 5) == Success(st) && TypeSize(st) == Success(size)
    requires ReadCount(data[offset + 1..offset + 5], key) == n && n * size == |raw|
    requires Crypt(data[offset + 6..offset + 6 + |raw|], key, 6) == raw
    ensures DecodeWithKey(data, key, offset) == Success((BlockData(key, Array, st, raw), offset + 6 + |raw|))
  {
    assert ArrayHeaderAt(data, key, offset + 1) == Success((st, |raw|));
    assert DecodeArray(data, key, offset + 1) == Success((BlockData(key, Array, st, raw), offset + 6 + |raw|));
  }

  /** The header of an array that can be written. */
  lemma ArrayHeaderValue(b: BlockData)
    requires b.blockType.Array? && TypeSize(b.subType).Success? && |b.raw| / TypeSize(b.subType).value < WORD_LIMIT
    ensures Header(b) == Success([TagByte(Array, KeyByte(b.key, 0))] +
      WriteCount(|b.raw| / TypeSize(b.subType).value, b.key) + [TagByte(b.subType, KeyByte(b.key, 5))])
  {
  }

  /** The entry count and element type fields of an encoded array. */
  lemma ArrayHeaderParts(b: BlockData, enc: seq<byte>)
    requires WellFormed(b) && b.blockType.Array? && EncodeBody(b) == Success(enc)
    ensures TypeSize(b.subType).Success? && |b.raw| / TypeSize(b.subType).value < WORD_LIMIT
    ensures |enc| == 6 + |b.raw| && (|b.raw| / TypeSize(b.subType).value) * TypeSize(b.subType).value == |b.raw|
    ensures enc[1..5] == WriteCount(|b.raw| / TypeSize(b.subType).value, b.key)
    ensures enc[5] == TagByte(b.subType, KeyByte(b.key, 5))
  {
    var size := TypeSize(b.subType).value;
    var entries := |b.raw| / size;
    DivMul(|b.raw|, size);
    var count := WriteCount(entries, b.key);
    var subTag := TagByte(b.subType, KeyByte(b.key, 5));
    var header := [TagByte(Array, KeyByte(b.key, 0))] + count + [subTag];
    ArrayHeaderValue(b);
    assert enc == header + Crypt(b.raw, b.key, 6);
    assert enc[1..5] == header[1..5] == count;
  }

  lemma DecodeEncodedScalar(b: BlockData, enc: seq<byte>, data: seq<byte>, offset: nat)
    requires WellFormed(b) && IsScalar(b.blockType) && EncodeBody(b) == Success(enc) && Holds(data, offset, enc)
    ensures DecodeWithKey(data, b.key, offset) == Success((b, offset + |enc|))
  {
    EncodedParts(b, enc, data, offset);
    assert DecodeScalar(data, b.key, b.blockType, offset + 1) == Success((b, offset + |enc|));
  }

  /** Whatever body reading accepts is exactly what writing the block it
      produced gives back: decoding never loses or invents a byte. */
  lemma EncodeDecodedBody(data: seq<byte>, key: bv32, offset: nat)
    requires DecodeWithKey(data, key, offset).Success?
    ensures var (b, end) := DecodeWithKey(data, key, offset).value;
      WellFormed(b) && EncodeBody(b) == Success(data[offset..end])
  {
    var t := TagAt(data, key, 0, offset).value;
    if t.Object? {
      RewriteObjectBody(data, key, offset);
    } else if t.Array? {
      RewriteArrayBody(data, key, offset);
    } else {
      RewriteOtherBody(data, key, offset, t);
    }
  }

  lemma RewriteObjectBody(data: seq<byte>, key: bv32, offset: nat)
    requires DecodeWithKey(data, key, offset).Success? && TagAt(data, key, 0, offset) == Success(Object)
    ensures var (b, end) := DecodeWithKey(data, key, offset).value;
      WellFormed(b) && EncodeBody(b) == Success(data[offset..end])
  {
    TagAtRepair(data, key, 0, offset, Object);
    var (b, end) := DecodeWithKey(data, key, offset).value;
    EncodeDecodedObject(data, key, offset + 1);
    assert data[offset..offset + 5] == [data[offset]] + data[offset + 1..offset + 5];
    assert Header(b) == Success(data[offset..offset + 5]);
    RejoinBody(data, offset, 5, end, Header(b).value, b.raw, key);
  }

  lemma RewriteArrayBody(data: seq<byte>, key: bv32, offset: nat)
    requires DecodeWithKey(data, key, offset).Success? && TagAt(data, key, 0, offset) == Success(Array)
    ensures var (b, end) := DecodeWithKey(data, key, offset).value;
      WellFormed(b) && EncodeBody(b) == Success(data[offset..end])
  {
    DecodeWithKeyOf(data, key, offset, Array);
    RewriteArrayAt(data, key, offset);
  }

  lemma RewriteArrayAt(data: seq<byte>, key: bv32, offset: nat)
    requires offset < |data| && TagAt(data, key, 0, offset) == Success(Array) && DecodeArray(data, key, offset + 1).Success?
    ensures var (b, end) := DecodeArray(data, key, offset + 1).value;
      WellFormed(b) && EncodeBody(b) == Success(data[offset..end])
  {
    TagAtRepair(data, key, 0, offset, Array);
    var (b, end) := DecodeArray(data, key, offset + 1).value;
    EncodeDecodedArray(data, key, offset + 1);
    ArrayHeaderValue(b);
    ArrayHeaderBytes(data, offset);
    assert Header(b) == Success(data[offset..offset + 6]);
    RejoinBody(data, offset, 6, end, Header(b).value, b.raw, key);
  }

  /** Six header bytes: tag, four count bytes, element type. */
  lemma ArrayHeaderBytes(data: seq<byte>, i: nat)
    requires i + 6 <= |data|
    ensures data[i..i + 6] == [data[i]] + data[i + 1..i + 5] + [data[i + 5]]
  {
    assert data[i..i + 6] == data[i..i + 1] + data[i + 1..i + 5] + data[i + 5..i + 6];
  }

  /** Past a known tag, reading goes on with that tag's body. */
  lemma DecodeWithKeyOf(data: seq<byte>, key: bv32, offset: nat, t: TypeCode)
    requires offset < |data| && TagAt(data, key, 0, offset) == Success(t)
    ensures DecodeWithKey(data, key, offset) == DecodeBody(data, key, t, offset + 1)
  {
  }

  lemma RewriteOtherBody(data: seq<byte>, key: bv32, offset: nat, t: TypeCode)
    requires DecodeWithKey(data, key, offset).Success? && TagAt(data, key, 0, offset) == Success(t)
    requires !t.Object? && !t.Array?
    ensures var (b, end) := DecodeWithKey(data, key, offset).value;
      WellFormed(b) && EncodeBody(b) == Success(data[offset..end])
  {
    TagAtRepair(data, key, 0, offset, t);
    var (b, end) := DecodeWithKey(data, key, offset).value;
    if !IsBoolean(t) {
      EncodeDecodedScalar(data, key, t, offset + 1);
    }
    assert data[offset..offset + 1] == [data[offset]];
    assert Header(b) == Success(data[offset..offset + 1]);
    RejoinBody(data, offset, 1, end, Header(b).value, b.raw, key);
  }

  /** A header and a scrambled payload read from adjacent places rejoin into the bytes they came from. */
  lemma RejoinBody(data: seq<byte>, offset: nat, h: nat, end: nat, header: seq<byte>, raw: seq<byte>, key: bv32)
    requires offset + h <= end <= |data| && |header| == h
    requires header == data[offset..offset + h] && Crypt(raw, key, h) == data[offset + h..end]
    ensures header + Crypt(raw, key, h) == data[offset..end]
  {
    assert data[offset..end] == data[offset..offset + h] + data[offset + h..end];
  }

  lemma EncodeDecodedObject(data: seq<byte>, key: bv32, o: nat)
    requires DecodeObject(data, key, o).Success?
    ensures var (b, end) := DecodeObject(data, key, o).value;
      WellFormed(b) && WriteCount(|b.raw|, key) == data[o..o + 4] && Crypt(b.raw, key, 5) == data[o + 4..end]
  {
    var (b, end) := DecodeObject(data, key, o).value;
    CountRepair(data[o..o + 4], key);
    CryptInvolution(data[o + 4..end], key, 5);
  }

  lemma EncodeDecodedArray(data: seq<byte>, key: bv32, o: nat)
    requires DecodeArray(data, key, o).Success?
    ensures var (b, end) := DecodeArray(data, key, o).value;
      WellFormed(b) &&
      WriteCount(|b.raw| / TypeSize(b.subType).value, key) == data[o..o + 4] &&
      TagByte(b.subType, KeyByte(key, 5)) == data[o + 4] &&
      Crypt(b.raw, key, 6) == data[o + 5..end]
  {
    var (b, end) := DecodeArray(data, key, o).value;
    var st := TagAt(data, key, 5, o + 4).value;
    TagAtRepair(data, key, 5, o + 4, st);
    var count := ReadCount(data[o..o + 4], key);
    var size := TypeSize(st).value;
    assert ArrayHeaderAt(data, key, o) == Success((st, count * size));
    assert |b.raw| == count * size;
    MulDiv(count, size);
    CountRepair(data[o..o + 4], key);
    CryptInvolution(data[o + 5..end], key, 6);
  }

  lemma EncodeDecodedScalar(data: seq<byte>, key: bv32, t: TypeCode, o: nat)
    requires DecodeScalar(data, key, t, o).Success? && !IsBoolean(t) && !t.Object? && !t.Array?
    ensures var (b, end) := DecodeScalar(data, key, t, o).value;
      WellFormed(b) && Crypt(b.raw, key, 1) == data[o..end]
  {
    var (b, end) := DecodeScalar(data, key, t, o).value;
    CryptInvolution(data[o..end], key, 1);
  }

  /** A written block, key included, is read back from wherever it sits. */
  lemma ReadWrittenBlock(b: BlockData, enc: seq<byte>, data: seq<byte>, offset: nat, end: nat)
    requires WellFormed(b) && EncodeBlock(b, true) == Success(enc) && Holds(data, offset, enc)
    requires end == offset + |enc|
    ensures offset < end && DecodeAt(data, offset) == Success((b, end))
  {
    var body := EncodeBody(b).value;
    KeyedParts(b, enc, data, offset);
    DecodeEncodedBody(b, body, data, offset + 4, end);
    DecodeAtKey(data, offset, b.key);
  }

  /** A block written with its key holds the key in clear, then the body. */
  lemma KeyedParts(b: BlockData, enc: seq<byte>, data: seq<byte>, offset: nat)
    requires EncodeBlock(b, true) == Success(enc) && Holds(data, offset, enc)
    ensures EncodeBody(b).Success? && |enc| == 4 + |EncodeBody(b).value| && 4 < |enc|
    ensures Word32(data[offset..offset + 4]) == b.key
    ensures Holds(data, offset + 4, EncodeBody(b).value)
  {
    var body := EncodeBody(b).value;
    assert enc == LE32(b.key) + body;
    SliceOfSlice(data, offset, enc, 0, 4);
    assert enc[..4] == LE32(b.key);
    WordOfLE32(b.key);
    forall i | 0 <= i < |body|
      ensures data[offset + 4 + i] == body[i]
    {
      assert enc[4 + i] == body[i];
    }
  }

  /** Reading with the key found in clear is reading the body with that key. */
  lemma DecodeAtKey(data: seq<byte>, offset: nat, key: bv32)
    requires offset + 4 <= |data| && Word32(data[offset..offset + 4]) == key
    ensures DecodeAt(data, offset) == DecodeWithKey(data, key, offset + 4)
  {
  }

  /** A block read with its key is written back, key included, byte for byte. */
  lemma WriteReadBlock(data: seq<byte>, offset: nat)
    requires DecodeAt(data, offset).Success?
    ensures var (b, end) := DecodeAt(data, offset).value;
      WellFormed(b) && EncodeBlock(b, true) == Success(data[offset..end])
  {
    var (b, end) := DecodeAt(data, offset).value;
    EncodeDecodedBody(data, b.key, offset + 4);
    LE32OfWord(data[offset..offset + 4]);
    assert data[offset..end] == data[offset..offset + 4] + data[offset + 4..end];
  }

  /** Wherever reading succeeds, the length computed from the header alone agrees. */
  lemma TotalLengthOfDecoded(data: seq<byte>, key: bv32, offset: nat)
    requires DecodeWithKey(data, key, offset).Success?
    ensures GetTotalLength(data, Some(key), offset) == Success(DecodeWithKey(data, key, offset).value.1)
  {
    var t := TagAt(data, key, 0, offset).value;
    DecodeWithKeyOf(data, key, offset, t);
    if t.Array? {
      TotalLengthOfArray(data, key, offset);
    }
  }

  lemma TotalLengthOfArray(data: seq<byte>, key: bv32, offset: nat)
    requires offset < |data| && TagAt(data, key, 0, offset) == Success(Array) && DecodeArray(data, key, offset + 1).Success?
    ensures TotalLengthWithKey(data, key, offset) == Success(DecodeArray(data, key, offset + 1).value.1)
  {
    var o := offset + 1;
    var count := ReadCount(data[o..o + 4], key);
    var st := TagAt(data, key, 5, o + 4).value;
    var size := TypeSize(st).value;
    assert ArrayHeaderAt(data, key, o) == Success((st, count * size));
    assert size * count == count * size;
  }

  /** Without a key, the length is that of the block whose key opens the buffer. */
  lemma TotalLengthWithoutKey(data: seq<byte>, offset: nat)
    requires DecodeAt(data, 0).Success?
    ensures GetTotalLength(data, None, offset) == Success(DecodeAt(data, 0).value.1)
  {
    TotalLengthOfDecoded(data, Word32(data[..4]), 4);
    assert data[0..4] == data[..4];
  }

  /** BOOL1 and BOOL2 blocks are one tag byte each after the key. */
  lemma BooleanBlockSize(b: BlockData)
    requires WellFormed(b) && IsBoolean(b.blockType)
    ensures |EncodeBlock(b, true).value| == 5
  {
  }

  // ---------------------------------------------------------------------
  // The block object.

  /** A block as the Python object holds it: the type and the contents of
      `raw` change in place; key, element type and the `raw` buffer itself
      do not. */
  class SCBlock {
    const key: bv32
    var blockType: TypeCode
    const raw: array<byte>
    const subType: TypeCode

    function Value(): BlockData
      reads this, raw
    {
      BlockData(key, blockType, subType, raw[..])
    }

    /** A block over a private copy of `data`. */
    constructor (key: bv32, blockType: TypeCode, data: seq<byte>, subType: TypeCode)
      ensures Value() == BlockData(key, blockType, subType, data)
      ensures fresh(raw)
    {
      this.key := key;
      this.blockType := blockType;
      this.subType := subType;
      raw := new byte[|data|](i requires 0 <= i < |data| => data[i]);
    }

    /** `change_boolean_type`: BOOL1 and BOOL2 switch into each other; anything else is refused. */
    method ChangeBooleanType(value: TypeCode) returns (r: Outcome)
      modifies this
      ensures CanChangeBoolean(old(blockType), value) ==> r == Pass && blockType == value
      ensures !CanChangeBoolean(old(blockType), value) ==> r == Fail(InvalidChange) && blockType == old(blockType)
    {
      if !CanChangeBoolean(blockType, value) {
        return Fail(InvalidChange);
      }
      blockType := value;
      r := Pass;
    }

    /** `change_data`: replaces the contents in place by a string of the same length. */
    method ChangeData(value: seq<byte>) returns (r: Outcome)
      modifies raw
      ensures |value| == raw.Length ==> r == Pass && raw[..] == value
      ensures |value| != raw.Length ==> r == Fail(SizeMismatch) && raw[..] == old(raw[..])
    {
      if |value| != raw.Length {
        return Fail(SizeMismatch);
      }
      forall i | 0 <= i < raw.Length {
        raw[i] := value[i];
      }
      r := Pass;
    }

    /** `has_value`: the block holds one primitive value. */
    predicate HasValue()
      reads this
    {
      IsScalar(blockType)
    }

    /** `get_value`: the primitive the payload holds. */
    function GetValue(): (r: Result<Scalar>)
      reads this, raw
      ensures r.Success? <==> HasValue() && raw.Length >= TypeSize(blockType).value
      ensures r.Success? && IsFloat(blockType) ==> r.value.FloatBits?
      ensures r.Success? && !IsFloat(blockType) ==> r.value.IntValue?
    {
      if !HasValue() then Failure(Unsupported) else TypeCodes.GetValue(blockType, raw[..])
    }

    /** `set_value`: stores a primitive at the front of the payload; a later
        `get_value` returns it (reduced to a byte for BYTE/SBYTE). */
    method SetValue(v: Scalar) returns (r: Outcome)
      modifies raw
      ensures r == Pass <==> Store(blockType, old(raw[..]), v).Success?
      ensures r.Pass? ==> raw[..] == Store(blockType, old(raw[..]), v).value && GetValue() == Success(ReadBack(blockType, v))
      ensures r.Fail? ==> r.error == Store(blockType, old(raw[..]), v).error && raw[..] == Cleared(blockType, old(raw[..]), v)
    {
      if !HasValue() {
        return Fail(Unsupported);
      }
      r := TypeCodes.SetValue(blockType, raw, v);
      if r.Pass? {
        GetAfterStore(blockType, old(raw[..]), v);
      }
    }

    /** `clone`: a new block over a copy of the payload. An empty payload
        is cloned with the two-argument constructor, so the element type of
        an empty array is not carried over. */
    method Clone() returns (c: SCBlock)
      ensures fresh(c) && fresh(c.raw)
      ensures c.Value() == CloneOf(Value())
    {
      if raw.Length == 0 {
        c := new SCBlock(key, blockType, [], NoType);
      } else {
        c := new SCBlock(key, blockType, raw[..], subType);
      }
    }

    /** `copy_from`: a boolean block takes the other's type, any other block its contents. */
    method CopyFrom(other: SCBlock) returns (r: Outcome)
      modifies this, raw
      ensures IsBoolean(old(blockType)) ==> raw[..] == old(raw[..])
      ensures IsBoolean(old(blockType)) && CanChangeBoolean(old(blockType), old(other.blockType)) ==>
        r == Pass && blockType == old(other.blockType)
      ensures IsBoolean(old(blockType)) && !CanChangeBoolean(old(blockType), old(other.blockType)) ==>
        r == Fail(InvalidChange) && blockType == old(blockType)
      ensures !IsBoolean(old(blockType)) ==> blockType == old(blockType)
      ensures !IsBoolean(old(blockType)) && other.raw.Length == raw.Length ==>
        r == Pass && raw[..] == old(other.raw[..])
      ensures !IsBoolean(old(blockType)) && other.raw.Length != raw.Length ==>
        r == Fail(SizeMismatch) && raw[..] == old(raw[..])
    {
      if IsBoolean(blockType) {
        r := ChangeBooleanType(other.blockType);
      } else {
        r := ChangeData(other.raw[..]);
      }
    }

    /** `write_block`: the key (when asked for), the header and the payload,
        scrambled with one fresh keystream in that order. */
    method WriteBlock(writeKey: bool) returns (r: Result<seq<byte>>)
      ensures r == EncodeBlock(Value(), writeKey)
    {
      var xk := new XorShift32(key);
      var prefix: seq<byte> := if writeKey then LE32(key) else [];
      var header := WriteHeader(xk);
      if header.Failure? {
        HeaderFailure(Value(), writeKey);
        return Failure(header.error);
      }
      var payload := Scramble(raw, xk);
      EncodeBlockParts(Value(), writeKey);
      r := Success(prefix + header.value + payload);
    }

    /** The payload scrambled byte by byte with the keystream, leaving the payload itself alone. */
    static method Scramble(src: array<byte>, xk: XorShift32) returns (payload: seq<byte>)
      requires xk.Valid()
      modifies xk
      ensures xk.Valid() && xk.pos == old(xk.pos) + src.Length
      ensures payload == Crypt(src[..], xk.seed, old(xk.pos))
    {
      ghost var start := xk.pos;
      payload := [];
      var i := 0;
      while i < src.Length
        invariant 0 <= i <= src.Length
        invariant xk.Valid() && xk.pos == start + i
        invariant payload == Crypt(src[..i], xk.seed, start)
      {
        var kb := xk.Next();
        assert src[..i + 1] == src[..i] + [src[i]];
        CryptSnoc(src[..i], src[i], xk.seed, start);
        payload := payload + [src[i] ^ kb];
        i := i + 1;
      }
      assert src[..] == src[..i];
    }

    /** The type tag, then the length (OBJECT) or the entry count and element
        type (ARRAY), each scrambled with the next keystream bytes. */
    method WriteHeader(xk: XorShift32) returns (r: Result<seq<byte>>)
      requires xk.Valid() && xk.seed == key && xk.pos == 0
      modifies xk
      ensures r == Header(Value())
      ensures r.Success? ==> xk.Valid() && xk.pos == |r.value|
    {
      ghost var b := Value();
      var length := raw.Length;
      var tag := WriteTag(blockType, xk);
      if blockType.Object? {
        if length >= WORD_LIMIT {
          return Failure(OutOfRange);
        }
        var field := WriteCountField(length, xk);
        r := Success([tag] + field);
      } else if blockType.Array? {
        var size :- TypeSize(subType);
        var entries := length / size;
        if entries >= WORD_LIMIT {
          return Failure(OutOfRange);
        }
        var field := WriteCountField(entries, xk);
        var subTag := WriteTag(subType, xk);
        r := Success([tag] + field + [subTag]);
      } else {
        r := Success([tag]);
      }
      assert r == Header(b);
    }

    /** A type tag scrambled with the next keystream byte. */
    static method WriteTag(t: TypeCode, xk: XorShift32) returns (b: byte)
      requires xk.Valid()
      modifies xk
      ensures xk.Valid() && xk.pos == old(xk.pos) + 1
      ensures b == TagByte(t, KeyByte(xk.seed, old(xk.pos)))
    {
      var k := xk.Next();
      b := TagByte(t, k);
    }

    /** A length or count, `struct.pack('<I', n ^ xk.next32())`, at keystream positions 1-4. */
    static method WriteCountField(n: nat, xk: XorShift32) returns (s: seq<byte>)
      requires xk.Valid() && xk.pos == 1 && n < WORD_LIMIT
      modifies xk
      ensures xk.Valid() && xk.pos == 5
      ensures s == WriteCount(n, xk.seed)
    {
      var k := xk.Next32();
      XorKeyWord(ToLE(n, 4), xk.seed, 1);
      s := Xor(ToLE(n, 4), LE32(k));
    }

    /** Decrypts a payload in place, one keystream byte per payload byte. */
    static method Unscramble(arr: array<byte>, xk: XorShift32)
      requires xk.Valid()
      modifies arr, xk
      ensures xk.Valid() && xk.pos == old(xk.pos) + arr.Length
      ensures arr[..] == Crypt(old(arr[..]), xk.seed, old(xk.pos))
    {
      ghost var start, seed := xk.pos, xk.seed;
      ghost var original := arr[..];
      for i := 0 to arr.Length
        invariant xk.Valid() && xk.seed == seed && xk.pos == start + i
        invariant forall j :: 0 <= j < arr.Length ==>
          arr[j] == if j < i then original[j] ^ KeyByte(seed, start + j) else original[j]
      {
        var k := xk.Next();
        arr[i] := arr[i] ^ k;
      }
      assert arr[..] == Crypt(original, seed, start);
    }

    /** Copies `n` bytes of data from `from` into a new buffer and decrypts it
        with the keystream, ready for a new block. */
    static method ReadPayload(data: seq<byte>, from: nat, n: nat, xk: XorShift32) returns (payload: seq<byte>)
      requires xk.Valid() && from + n <= |data|
      modifies xk
      ensures xk.Valid() && xk.pos == old(xk.pos) + n
      ensures payload == Crypt(data[from..from + n], xk.seed, old(xk.pos))
    {
      var arr := new byte[n](i requires 0 <= i < n => data[from + i]);
      assert arr[..] == data[from..from + n];
      Unscramble(arr, xk);
      payload := arr[..];
    }

    /** `_read_from_offset_with_key`, step by step with one keystream object. */
    static method ReadFromOffsetWithKey(data: seq<byte>, key: bv32, offset: nat) returns (r: Result<(SCBlock, nat)>)
      ensures DecodeWithKey(data, key, offset).Failure? ==> r == Failure(DecodeWithKey(data, key, offset).error)
      ensures DecodeWithKey(data, key, offset).Success? ==>
        r.Success? && fresh(r.value.0) && fresh(r.value.0.raw) &&
        (r.value.0.Value(), r.value.1) == DecodeWithKey(data, key, offset).value
    {
      var xk := new XorShift32(key);
      if offset >= |data| {
        return Failure(Truncated);
      }
      var tag := ReadTag(data, offset, xk);
      if tag.Failure? {
        return Failure(tag.error);
      }
      var t := tag.value;
      var o := offset + 1;
      if IsBoolean(t) {
        var blk := new SCBlock(key, t, [], NoType);
        r := Success((blk, o));
      } else if t.Object? {
        r := ReadObject(data, key, o, xk);
      } else if t.Array? {
        r := ReadArray(data, key, o, xk);
      } else {
        r := ReadScalar(data, key, t, o, xk);
      }
    }

    /** One scrambled tag byte, unscrambled with the next keystream byte and looked up. */
    static method ReadTag(data: seq<byte>, i: nat, xk: XorShift32) returns (tag: Result<TypeCode>)
      requires xk.Valid() && i < |data|
      modifies xk
      ensures xk.Valid() && xk.pos == old(xk.pos) + 1
      ensures tag == TagAt(data, xk.seed, old(xk.pos), i)
    {
      var k := xk.Next();
      tag := FromCode((data[i] ^ k) as int);
    }

    /** A length or count, `struct.unpack('<I', s)[0] ^ xk.next32()`, at keystream positions 1-4. */
    static method ReadCountField(s: seq<byte>, xk: XorShift32) returns (n: nat)
      requires xk.Valid() && xk.pos == 1 && |s| == 4
      modifies xk
      ensures xk.Valid() && xk.pos == 5
      ensures n == ReadCount(s, xk.seed)
    {
      var k := xk.Next32();
      XorKeyWord(s, xk.seed, 1);
      n := FromLE(Xor(s, LE32(k)));
    }

    /** The OBJECT branch: length, then the payload. */
    static method ReadObject(data: seq<byte>, key: bv32, o: nat, xk: XorShift32) returns (r: Result<(SCBlock, nat)>)
      requires xk.Valid() && xk.seed == key && xk.pos == 1
      modifies xk
      ensures DecodeObject(data, key, o).Failure? ==> r == Failure(DecodeObject(data, key, o).error)
      ensures DecodeObject(data, key, o).Success? ==>
        r.Success? && fresh(r.value.0) && fresh(r.value.0.raw) &&
        (r.value.0.Value(), r.value.1) == DecodeObject(data, key, o).value
    {
      if o + 4 > |data| {
        return Failure(Truncated);
      }
      var n := ReadCountField(data[o..o + 4], xk);
      var p := o + 4;
      if p + n > |data| {
        return Failure(Truncated);
      }
      var payload := ReadPayload(data, p, n, xk);
      var blk := new SCBlock(key, Object, payload, NoType);
      r := Success((blk, p + n));
    }

    /** The ARRAY branch: entry count, element type, then the payload. */
    static method ReadArray(data: seq<byte>, key: bv32, o: nat, xk: XorShift32) returns (r: Result<(SCBlock, nat)>)
      requires xk.Valid() && xk.seed == key && xk.pos == 1
      modifies xk
      ensures DecodeArray(data, key, o).Failure? ==> r == Failure(DecodeArray(data, key, o).error)
      ensures DecodeArray(data, key, o).Success? ==>
        r.Success? && fresh(r.value.0) && fresh(r.value.0.raw) &&
        (r.value.0.Value(), r.value.1) == DecodeArray(data, key, o).value
    {
      var header := ReadArrayHeader(data, key, o, xk);
      if header.Failure? {
        return Failure(header.error);
      }
      var (st, n) := header.value;
      var p := o + 5;
      if p + n > |data| {
        return Failure(Truncated);
      }
      var payload := ReadPayload(data, p, n, xk);
      var blk := new SCBlock(key, Array, payload, st);
      r := Success((blk, p + n));
    }

    /** The entry count and the element type, with the payload length they imply. */
    static method ReadArrayHeader(data: seq<byte>, key: bv32, o: nat, xk: XorShift32) returns (r: Result<(TypeCode, nat)>)
      requires xk.Valid() && xk.seed == key && xk.pos == 1
      modifies xk
      ensures r == ArrayHeaderAt(data, key, o)
      ensures r.Success? ==> xk.Valid() && xk.seed == key && xk.pos == 6
    {
      if o + 4 > |data| {
        return Failure(Truncated);
      }
      var count := ReadCountField(data[o..o + 4], xk);
      if o + 4 >= |data| {
        return Failure(Truncated);
      }
      var tag := ReadTag(data, o + 4, xk);
      if tag.Failure? {
        return Failure(tag.error);
      }
      var st := tag.value;
      var size := TypeSize(st);
      if size.Failure? {
        return Failure(size.error);
      }
      r := Success((st, count * size.value));
    }

    /** The single-value branch: as many bytes as the type's size. */
    static method ReadScalar(data: seq<byte>, key: bv32, t: TypeCode, o: nat, xk: XorShift32) returns (r: Result<(SCBlock, nat)>)
      requires xk.Valid() && xk.seed == key && xk.pos == 1
      modifies xk
      ensures DecodeScalar(data, key, t, o).Failure? ==> r == Failure(DecodeScalar(data, key, t, o).error)
      ensures DecodeScalar(data, key, t, o).Success? ==>
        r.Success? && fresh(r.value.0) && fresh(r.value.0.raw) &&
        (r.value.0.Value(), r.value.1) == DecodeScalar(data, key, t, o).value
    {
      var size :- TypeSize(t);
      if o + size > |data| {
        return Failure(Truncated);
      }
      var payload := ReadPayload(data, o, size, xk);
      var blk := new SCBlock(key, t, payload, NoType);
      r := Success((blk, o + size));
    }

    /** `read_from_offset`: reads the key in clear, then the block. */
    static method ReadFromOffset(data: seq<byte>, offset: nat) returns (r: Result<(SCBlock, nat)>)
      ensures DecodeAt(data, offset).Failure? ==> r == Failure(DecodeAt(data, offset).error)
      ensures DecodeAt(data, offset).Success? ==>
        r.Success? && fresh(r.value.0) && fresh(r.value.0.raw) &&
        (r.value.0.Value(), r.value.1) == DecodeAt(data, offset).value
    {
      if offset + 4 > |data| {
        return Failure(Truncated);
      }
      var key := Word32(data[offset..offset + 4]);
      r := ReadFromOffsetWithKey(data, key, offset + 4);
    }
  }

  /** The value `clone` produces. */
  function CloneOf(b: BlockData): BlockData {
    if |b.raw| == 0 then BlockData(b.key, b.blockType, NoType, []) else b
  }

  /** A clone writes the same bytes as its original, except for an empty array. */
  lemma CloneWritesSame(b: BlockData, writeKey: bool)
    requires !(b.blockType.Array? && |b.raw| == 0)
    ensures EncodeBlock(CloneOf(b), writeKey) == EncodeBlock(b, writeKey)
  {
  }

  /** An empty array of 32-bit words writes fine, but its clone has lost the
      element type and cannot be written at all. */
  lemma EmptyArrayCloneNotWritable()
    ensures var b := BlockData(0, Array, UInt32, []);
      WellFormed(b) && EncodeBlock(b, true).Success? && EncodeBlock(CloneOf(b), true) == Failure(Unsupported)
  {
  }
}
