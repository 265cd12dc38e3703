# Plaza save container and records, in Dafny

This project models the save-file layer of the Plaza save editor. That layer reads and writes the
"SwishCrypto" block container and the fixed-layout records stored inside the blocks.

- **Keystream.** A 32-bit xorshift generator (shifts 2, 15, 13) that hands out its state one byte
  at a time. It is seeded by stepping the key once per set bit.
- **Type table.** The closed set of block tags, their fixed sizes, and the little-endian scalar
  codecs.
- **Blocks.** A block is a clear 32-bit key, then a scrambled tag, then for OBJECT a length or for
  ARRAY an entry count and element tag, then the payload scrambled byte by byte. The model has
  the block object with its in-place edits (same-size data replacement, BOOL1/BOOL2 swaps, scalar
  get/set, clone, copy) and the reader and writer.
- **Container.** The whole file is the written blocks, XORed with a static 128-byte pad whose
  effective period is 127, and a SHA-256 digest over a fixed intro, the padded bytes and a fixed
  outro. The model has the pad loops, the block-stream loop, encrypt, decrypt and the digest
  check.
- **Hashing and lookup.** 32- and 64-bit FNV-1a, and the keyed index that files blocks under their
  key written as eight upper-case hex digits.
- **Records.** The bag (3000 sixteen-byte entries, a release-pocket word, a reserve), the Pokédex
  (1210 records of 132 bytes and a reserve), and the 120-byte player record. Each comes with its
  bit-flag and clamping setters.

Every Python class whose fields are updated in place is a Dafny `class`. Every loop is a `method`
with a `while` or `for` loop, proved against a pure function that serves as its specification.
What the source promises is proved about those functions as lemmas. Errors the source raises
become `Failure` values of a `Result`/`Outcome` type, with an error kind naming the cause.

Two places where the code behaves differently from what a reader might expect are modelled as
written:

- `PokedexCoreData.from_bytes` reads the fields after the flags from byte 20, but `to_bytes` writes
  them from byte 18. A record written back is therefore its first 18 bytes, then bytes 20..84
  moved two places down, then 50 zeros (`Pokedex.CoreRoundTrip`).
- The 64-bit FNV offset basis in `fnvhash.py` is `0xCBF29CE484222645`. The published FNV-1a basis
  is `0xCBF29CE484222325`. The model uses the constant the code has.

The crypto files are in `scxorshift.dfy`, `sctypecode.dfy`, `scblock.dfy`, `swishcrypto.dfy`,
`fnvhash.dfy` and `hashdb.dfy`. The records are in `bagsave.dfy`, `pokedex.dfy` and `coredata.dfy`.
Shared definitions are in `wrappers.dfy` (result types), `bytes.dfy` (little-endian codecs over
`bv8` bytes) and `bitflags.dfy` (mask-based bit flags).

## Model

| member | source | states |
|---|---|---|
| Bytes.FromLESigned | plaza/crypto/sctypecode.py:90-97 | the two's-complement reading of n bytes lies in the signed range of an n-byte field |
| Bytes.SignedOfBytes | plaza/crypto/sctypecode.py:90-97 | reading bytes as two's complement and writing the value back gives the same bytes |
| Bytes.FromToLE | plaza/crypto/sctypecode.py:82-89 | a value that fits in n bytes reads back from its n little-endian bytes |
| Bytes.ToFromLE | plaza/crypto/sctypecode.py:82-89 | writing back the unsigned reading of a byte string gives that string |
| Bytes.SignedRoundTrip | plaza/crypto/sctypecode.py:112-122 | a value in the signed range of n bytes is written and then read back unchanged |
| Bytes.PackUnsigned | plaza/crypto/sctypecode.py:109-114 | a value that fits n bytes is written as n bytes that read back as the value |
| Bytes.LE32 | plaza/crypto/scblock.py:67 | the key in clear is its four little-endian bytes; `Bytes.WordOfLE32` and `Bytes.LE32OfWord` make this a bijection with `Word32` |
| Bytes.WordOfLE32 | plaza/crypto/scblock.py:137 | the key read back from its four written bytes is the key |
| Bytes.LE32OfWord | plaza/crypto/scblock.py:137 | four bytes are the little-endian writing of the word they read as |
| BitFlags.WithOwn | plaza/types/bagsave.py:41-45 | after setting or clearing a mask, the mask reads back as requested |
| BitFlags.WithOther | plaza/types/bagsave.py:41-45 | setting or clearing a mask leaves every disjoint mask reading as before |
| BitFlags.Apart | plaza/types/bagsave.py:39 | distinct bit positions give disjoint, nonzero masks |
| BitFlags.WithBit | plaza/types/pokedex.py:164-170 | setting or clearing bit k reads back as requested and leaves every other bit alone |
| BitFlags.LE16OfWord | plaza/types/bagsave.py:69-83 | two bytes are the little-endian writing of the 16-bit word they read as |
| BitFlags.WordOfLE16 | plaza/types/bagsave.py:69-83 | a 16-bit word read back from its two bytes is the word |
| XorShift.PopCount | plaza/crypto/scxorshift.py:14 | the count of set bits is 0 exactly for 0 and never exceeds the number |
| XorShift.XorKeyWord | plaza/crypto/scblock.py:74-79 | XORing a count with the keystream word is XORing its four bytes with four successive keystream bytes |
| XorShift.CryptInvolution | plaza/crypto/scblock.py:83-167 | scrambling twice from the same keystream position restores the bytes, so writing and reading undo each other |
| XorShift.CryptAppend | plaza/crypto/scblock.py:83-84 | scrambling a concatenation scrambles the second part where the keystream of the first part stopped |
| XorShift.CryptSnoc | plaza/crypto/scblock.py:83-84 | one more byte is XORed with the next keystream byte |
| XorShift.AdvanceNOfZero | plaza/crypto/scxorshift.py:34-42 | the zero word is a fixed point of the xorshift step |
| XorShift.ZeroSeedKeystream | plaza/crypto/scxorshift.py:11-42 | seed 0 gives an all-zero keystream |
| XorShift.XorShift32.constructor | plaza/crypto/scxorshift.py:7-9 | the counter starts at 0 and the state is the seed stepped once per set bit |
| XorShift.XorShift32.GetInitialState | plaza/crypto/scxorshift.py:11-17 | the loop leaves the seed advanced exactly popcount(seed) times |
| XorShift.XorShift32.Next | plaza/crypto/scxorshift.py:19-28 | returns byte `counter` of the state; steps the state and wraps the counter exactly after byte 3, otherwise increments it; the byte is keystream byte `pos` of the seed, so two generators with one seed agree |
| XorShift.XorShift32.Next32 | plaza/crypto/scxorshift.py:30-32 | four successive keystream bytes combined little-endian |
| TypeCodes.Code | plaza/crypto/sctypecode.py:5-22 | every tag's value is one of 0-5 and 8-17 |
| TypeCodes.FromCode | plaza/crypto/sctypecode.py:5-22 | a value is recognised as the tag with that code, or rejected as an unknown tag |
| TypeCodes.FromCodeOfCode | plaza/crypto/sctypecode.py:5-22 | every tag is recognised from its own code |
| TypeCodes.FromCodeFails | plaza/crypto/sctypecode.py:5-22 | a value is rejected exactly when it is outside 0-5 and 8-17 |
| TypeCodes.IsBooleanByCode | plaza/crypto/sctypecode.py:24-26 | a tag is boolean exactly when its code is 1, 2 or 3 |
| TypeCodes.TypeSize | plaza/crypto/sctypecode.py:28-41 | the sizes are 1, 2, 4 or 8; NONE, BOOL1, BOOL2, OBJECT and ARRAY, and only those, raise |
| TypeCodes.ScalarIffSizedNonBoolean | plaza/crypto/sctypecode.py:77-103 | the tags `get_value` accepts are exactly the sized non-boolean tags |
| TypeCodes.GetValue | plaza/crypto/sctypecode.py:77-103 | succeeds exactly for a scalar tag and a long enough buffer; a short buffer and an unsized tag raise; unsigned tags read the first `size` bytes little-endian, signed tags as two's complement |
| TypeCodes.Encode | plaza/crypto/sctypecode.py:105-128 | the bytes written for a scalar have the tag's size; an integer for SINGLE or DOUBLE is refused, as Left out says |
| TypeCodes.Store | plaza/crypto/sctypecode.py:105-128 | on success only bytes [0, size) change and the length is kept; non-scalar tags raise |
| TypeCodes.GetAfterStore | plaza/crypto/sctypecode.py:77-128 | reading after writing gives the value written, reduced to a byte for BYTE and SBYTE |
| TypeCodes.ByteRoundTrip | plaza/crypto/sctypecode.py:108-116 | a one-byte field keeps `value & 0xFF` |
| TypeCodes.IntegerRoundTrip | plaza/crypto/sctypecode.py:77-122 | for an integer tag and an in-range value, writing succeeds and reading gives the value back |
| TypeCodes.ReadBackInRange | plaza/crypto/sctypecode.py:108-116 | an in-range value survives the BYTE/SBYTE mask too |
| TypeCodes.SetValue | plaza/crypto/sctypecode.py:105-128 | writes the field in place at offset 0 and leaves every other byte alone; a failure raises the same error as `Store`, and when `pack_into` refuses the value the field is left zeroed |
| TypeCodes.FailedStore | plaza/crypto/sctypecode.py:105-128 | a failure leaves the buffer as it was exactly for a non-scalar tag, a short buffer, or BYTE and SBYTE; otherwise `pack_into` has refused the value (out of range or wrong argument) after clearing the field |
| TypeCodes.ReadAfterClear | plaza/crypto/sctypecode.py:77-128 | after `pack_into` refuses a value, the field reads back as zero and the bytes after it are kept |
| Blocks.Header | plaza/crypto/scblock.py:69-80 | the header is 1, 5 or 6 bytes long depending on the tag |
| Blocks.WriteCount | plaza/crypto/scblock.py:74-79 | a length or count field is four bytes |
| Blocks.ReadCount | plaza/crypto/scblock.py:157-173 | a length or count field read back is below 2^32 |
| Blocks.CountRoundTrip | plaza/crypto/scblock.py:74-173 | a count written with a key reads back with that key |
| Blocks.CountRepair | plaza/crypto/scblock.py:74-173 | four count bytes are rewritten as they were read |
| Blocks.TagRoundTrip | plaza/crypto/scblock.py:70-148 | a tag written with a keystream byte reads back as that tag |
| Blocks.TagRepair | plaza/crypto/scblock.py:70-148 | a tag byte that reads as a tag is the byte written for it |
| Blocks.EncodeBody | plaza/crypto/scblock.py:62-86 | a body is the header length plus the payload length |
| Blocks.EncodeBlock | plaza/crypto/scblock.py:62-86 | with `write_key` the first four bytes are the key little-endian, then the body; total 4 + 1 + (4, 5 or 0) + len(raw) |
| Blocks.HeaderFails | plaza/crypto/scblock.py:74-79 | a header cannot be written exactly when the length or count exceeds 32 bits or the element tag has no size |
| Blocks.HeaderFailure | plaza/crypto/scblock.py:62-86 | an unwritable header makes the whole block fail with the same error |
| Blocks.EncodeBlockParts | plaza/crypto/scblock.py:62-86 | a written block is the optional key, the header, and the payload scrambled right after the header |
| Blocks.WellFormedEncodes | plaza/crypto/scblock.py:62-86 | every well-formed block can be written, with or without its key |
| Blocks.DecodeWithKey | plaza/crypto/scblock.py:141-207 | on success the end offset is past the tag and within the data, and the block has the given key |
| Blocks.DecodeObject | plaza/crypto/scblock.py:153-169 | an OBJECT ends at least four bytes after its tag, within the data |
| Blocks.DecodeArray | plaza/crypto/scblock.py:170-195 | an ARRAY ends at least five bytes after its tag, within the data |
| Blocks.ArrayHeaderAt | plaza/crypto/scblock.py:171-185 | reading a count and element tag needs five bytes |
| Blocks.DecodeScalar | plaza/crypto/scblock.py:196-207 | a single value ends within the data and keeps its tag |
| Blocks.DecodeBody | plaza/crypto/scblock.py:151-207 | whatever follows a tag ends within the data and keeps key and tag |
| Blocks.DecodeAt | plaza/crypto/scblock.py:131-139 | on success the offset returned is at least old + 5 and at most len(data), and the key is read in clear |
| Blocks.TagAtEncoded | plaza/crypto/scblock.py:70-148 | a tag written for t reads back as t, wherever it sits |
| Blocks.TagAtRepair | plaza/crypto/scblock.py:70-148 | a tag that reads as t is the tag written for t |
| Blocks.DecodeEncodedBody | plaza/crypto/scblock.py:62-207 | a well-formed block's body found anywhere reads back as that block, ending right after it |
| Blocks.DecodeEncodedObject | plaza/crypto/scblock.py:72-169 | the OBJECT case of the round trip |
| Blocks.DecodeEncodedArray | plaza/crypto/scblock.py:76-195 | the ARRAY case of the round trip |
| Blocks.DecodeArrayFromFacts | plaza/crypto/scblock.py:170-195 | an array encoding found in place reads back as that array |
| Blocks.DecodeEncodedScalar | plaza/crypto/scblock.py:196-207 | the single-value and boolean cases of the round trip |
| Blocks.EncodeDecodedBody | plaza/crypto/scblock.py:62-207 | whatever the reader accepts is well-formed and is written back to exactly the bytes it was read from |
| Blocks.EncodeDecodedObject | plaza/crypto/scblock.py:153-169 | an OBJECT that reads is rewritten byte for byte |
| Blocks.EncodeDecodedArray | plaza/crypto/scblock.py:170-195 | an ARRAY that reads is rewritten byte for byte |
| Blocks.EncodeDecodedScalar | plaza/crypto/scblock.py:196-207 | a single value that reads is rewritten byte for byte |
| Blocks.ReadWrittenBlock | plaza/crypto/scblock.py:62-207 | a block written with its key, wherever it sits, reads back as the block, ending at its last byte |
| Blocks.WriteReadBlock | plaza/crypto/scblock.py:62-207 | a block that reads is written back, key included, byte for byte |
| Blocks.DecodeAtKey | plaza/crypto/scblock.py:131-139 | reading with the key in clear is reading the body with that key |
| Blocks.TotalLengthOfDecoded | plaza/crypto/scblock.py:88-129 | wherever the reader succeeds, the length computed from the header alone is the reader's end offset |
| Blocks.TotalLengthOfArray | plaza/crypto/scblock.py:112-125 | the same for ARRAY blocks |
| Blocks.TotalLengthWithoutKey | plaza/crypto/scblock.py:93-95 | without a key the length is that of the block at the start of the buffer, whatever offset is passed |
| Blocks.BooleanBlockSize | plaza/crypto/scblock.py:62-86 | BOOL1, BOOL2 and BOOL3 blocks are five bytes with their key |
| Blocks.CloneWritesSame | plaza/crypto/scblock.py:53-60 | a clone writes the same bytes as its original, except for an empty array |
| Blocks.EmptyArrayCloneNotWritable | plaza/crypto/scblock.py:55-56 | an empty array writes fine but its clone has lost its element tag and cannot be written |
| Blocks.SCBlock.constructor | plaza/crypto/scblock.py:13-17 | the block holds the key, tag, element tag and a private copy of the data |
| Blocks.SCBlock.ChangeBooleanType | plaza/crypto/scblock.py:24-29 | succeeds exactly when both the old and the new tag are BOOL1 or BOOL2; otherwise raises and the tag is unchanged |
| Blocks.SCBlock.ChangeData | plaza/crypto/scblock.py:31-35 | with an equal length the payload becomes the value; otherwise raises and the payload is untouched |
| Blocks.SCBlock.GetValue | plaza/crypto/scblock.py:41-45 | succeeds exactly when the tag is above ARRAY with a long enough payload; floats come back as bit patterns, integers as integers |
| Blocks.SCBlock.SetValue | plaza/crypto/scblock.py:47-51 | succeeds exactly when the tag's `set_value` does; then a later read gives the value back, and a failure leaves the payload as `set_value` does, zeroed in the field when `pack_into` refused the value |
| Blocks.SCBlock.Clone | plaza/crypto/scblock.py:53-60 | a new block over a new buffer with equal key, tag and payload; the element tag is kept only for a non-empty payload |
| Blocks.SCBlock.CopyFrom | plaza/crypto/scblock.py:223-228 | a boolean block takes the other's tag, or raises unchanged; any other block takes a same-size payload, or raises unchanged |
| Blocks.SCBlock.WriteBlock | plaza/crypto/scblock.py:62-86 | the loop writes exactly the block's encoding |
| Blocks.SCBlock.Scramble | plaza/crypto/scblock.py:83-84 | the payload loop appends each byte XORed with the next keystream byte |
| Blocks.SCBlock.WriteHeader | plaza/crypto/scblock.py:69-80 | the tag, length or count and element tag, each XORed with the next keystream bytes |
| Blocks.SCBlock.WriteTag | plaza/crypto/scblock.py:70-80 | a tag XORed with the next keystream byte |
| Blocks.SCBlock.WriteCountField | plaza/crypto/scblock.py:74-79 | a count XORed with the next keystream word and written little-endian |
| Blocks.SCBlock.Unscramble | plaza/crypto/scblock.py:166-205 | the in-place loop XORs each payload byte with the next keystream byte |
| Blocks.SCBlock.ReadPayload | plaza/crypto/scblock.py:163-167 | the payload bytes, copied and descrambled |
| Blocks.SCBlock.ReadTag | plaza/crypto/scblock.py:148-179 | a scrambled tag byte descrambled and looked up |
| Blocks.SCBlock.ReadCountField | plaza/crypto/scblock.py:157-173 | a count field descrambled with the next keystream word |
| Blocks.SCBlock.ReadObject | plaza/crypto/scblock.py:153-169 | the OBJECT branch agrees with `DecodeObject`, failing with the same error |
| Blocks.SCBlock.ReadArray | plaza/crypto/scblock.py:170-195 | the ARRAY branch agrees with `DecodeArray`, failing with the same error |
| Blocks.SCBlock.ReadArrayHeader | plaza/crypto/scblock.py:171-183 | the count and element tag agree with `ArrayHeaderAt` |
| Blocks.SCBlock.ReadScalar | plaza/crypto/scblock.py:196-207 | the single-value branch agrees with `DecodeScalar` |
| Blocks.SCBlock.ReadFromOffsetWithKey | plaza/crypto/scblock.py:141-207 | returns a new block with the value `DecodeWithKey` gives and its end offset, or the same error |
| Blocks.SCBlock.ReadFromOffset | plaza/crypto/scblock.py:131-139 | returns a new block with the value `DecodeAt` gives and its end offset, or the same error |
| Swish.StaticPadShape | plaza/crypto/swishcrypto.py:28-37 | the static pad has 128 bytes and its last byte is 0 |
| Swish.XorPad | plaza/crypto/swishcrypto.py:43-61 | the padded buffer has the input's length |
| Swish.XorPadTwice | plaza/crypto/swishcrypto.py:43-61 | padding twice restores the buffer |
| Swish.CryptStaticXorpad | plaza/crypto/swishcrypto.py:43-61 | in place, byte j is XORed with pad byte j mod 127 |
| Swish.ApplyPad | plaza/crypto/swishcrypto.py:45-61 | the round loop and the remainder loop together XOR byte j with pad byte j mod 127, because the 128th pad byte is 0 |
| Swish.PadRound | plaza/crypto/swishcrypto.py:54-56 | one round XORs pad bytes 0..127 in from the offset, as far as the buffer goes |
| Swish.PadTail | plaza/crypto/swishcrypto.py:60-61 | the remainder loop XORs pad byte i into byte offset + i up to the end |
| Swish.RoundEffect | plaza/crypto/swishcrypto.py:52-57 | a round at 127k extends the padded prefix by 127 bytes |
| Swish.TailEffect | plaza/crypto/swishcrypto.py:59-61 | the remainder loop completes the padding |
| Swish.RoundsCover | plaza/crypto/swishcrypto.py:49 | after (n - 1) // 127 rounds at most 127 bytes are left |
| Swish.HashIsValidIff | plaza/crypto/swishcrypto.py:72-80 | a file is valid exactly when its last 32 bytes are the digest of the rest |
| Swish.ShortIsInvalid | plaza/crypto/swishcrypto.py:75-76 | a file shorter than 32 bytes is invalid |
| Swish.EncodeAllAppend | plaza/crypto/swishcrypto.py:125-127 | writing two lists of blocks is writing the first, then the second |
| Swish.EncodeAllLength | plaza/crypto/swishcrypto.py:125-127 | the written blocks are as long as their sizes added up |
| Swish.WellFormedEncodeAll | plaza/crypto/swishcrypto.py:125-127 | a list of well-formed blocks can always be written |
| Swish.DecodeEncodedAll | plaza/crypto/swishcrypto.py:96-127 | reading written well-formed blocks gives them back in order |
| Swish.EncodeDecodedAll | plaza/crypto/swishcrypto.py:96-127 | whatever a stream reads as is written back to exactly that stream, so reading consumes it to its end |
| Swish.DecodeAllStep | plaza/crypto/swishcrypto.py:101-103 | one step of the reading loop: the block at the offset, then the blocks after it, or the block's error |
| Swish.EncryptLength | plaza/crypto/swishcrypto.py:108-120 | an encrypted file is as long as the written blocks plus 32 |
| Swish.EncryptHashValid | plaza/crypto/swishcrypto.py:72-120 | every encrypted file passes the digest check |
| Swish.DecryptEncrypt | plaza/crypto/swishcrypto.py:83-120 | decrypting an encrypted list of well-formed blocks gives the list back |
| Swish.EncryptDecrypt | plaza/crypto/swishcrypto.py:83-120 | encrypting what a file decrypts to gives the file back with its digest recomputed; a file with a valid digest comes back byte for byte |
| Swish.RawOfDecoded | plaza/crypto/swishcrypto.py:123-131 | blocks read from a whole stream write back to that stream followed by 32 zeros |
| Swish.HashSplit | plaza/crypto/swishcrypto.py:72-80 | a valid file is its payload followed by the digest of the payload |
| Swish.DecryptIgnoresHash | plaza/crypto/swishcrypto.py:83-93 | decryption does not depend on the last 32 bytes |
| Swish.DecryptShort | plaza/crypto/swishcrypto.py:90-93 | a file of at most 32 bytes decrypts to no blocks |
| Swish.Values | plaza/crypto/swishcrypto.py:96-105 | one value per block object, in order |
| Swish.ReadBlocks | plaza/crypto/swishcrypto.py:96-105 | the loop succeeds exactly when the stream reads, returns its blocks in file order, or fails with the stream's error |
| Swish.Decrypt | plaza/crypto/swishcrypto.py:83-93 | succeeds exactly when the unpadded stream reads, and returns its blocks |
| Swish.WriteBlocks | plaza/crypto/swishcrypto.py:125-127 | the loop writes every block with its key, one after another; the first block that fails fails the whole |
| Swish.EncodeAllSnoc | plaza/crypto/swishcrypto.py:126-127 | one more block appends its bytes or fails the whole with its error |
| Swish.GetDecryptedRawData | plaza/crypto/swishcrypto.py:122-131 | the written blocks followed by 32 zero bytes |
| Swish.Encrypt | plaza/crypto/swishcrypto.py:107-120 | the written blocks padded, followed by the digest of the padded bytes |
| Swish.PadAndSeal | plaza/crypto/swishcrypto.py:111-118 | all but the last 32 bytes padded in place, and the digest of the padded bytes written over the last 32 |
| Swish.EncryptedOf | plaza/crypto/swishcrypto.py:108-120 | the encrypted file is the padded payload and its digest |
| Swish.Overwrite | plaza/crypto/swishcrypto.py:114-118 | slice assignment replaces exactly the slice and keeps the rest |
| Fnv.XorByte | plaza/crypto/fnvhash.py:21-32 | XOR with a byte changes only the low eight bits |
| Fnv.Step | plaza/crypto/fnvhash.py:21-33 | one round stays below 2^bits |
| Fnv.Fold | plaza/crypto/fnvhash.py:20-33 | empty input leaves the start unchanged; otherwise, or from an in-range start, the hash is below 2^bits |
| Fnv.FoldAppend | plaza/crypto/fnvhash.py:20-33 | hashing a concatenation is hashing the second part from the first part's hash |
| Fnv.FoldSnoc | plaza/crypto/fnvhash.py:31-33 | one more byte is one more round |
| Fnv.HashFnv1a32 | plaza/crypto/fnvhash.py:25-34 | the loop computes the left fold (XOR each byte in, multiply by 0x01000193, keep 32 bits), and the result is below 2^32 |
| Fnv.HashFnv1a64 | plaza/crypto/fnvhash.py:14-23 | the same loop with prime 0x100000001B3, and the result is below 2^64 |
| Fnv.EmptyInput | plaza/crypto/fnvhash.py:15-26 | empty input returns the starting value, by default the offset basis |
| Fnv.Chain32 | plaza/crypto/fnvhash.py:25-34 | hash(a + b, h) == hash(b, hash(a, h)) for the 32-bit variant |
| Fnv.Chain64 | plaza/crypto/fnvhash.py:14-23 | the same for the 64-bit variant |
| Fnv.OneByteVectors | plaza/crypto/fnvhash.py:7-12 | the hash of "a" is the published 0xE40C292C (32-bit) and, from the published basis 0xCBF29CE484222325, 0xAF63DC4C8601EC8C (64-bit) |
| HashDatabase.DigitsValue | plaza/crypto/hashdb.py:11 | the hex digits of a number stand for that number |
| HashDatabase.ZeroPadValue | plaza/crypto/hashdb.py:11 | padding with zeros to eight digits keeps the value |
| HashDatabase.ParseRender | plaza/crypto/hashdb.py:11-15 | the `:08X` rendering is read back exactly |
| HashDatabase.RenderInjective | plaza/crypto/hashdb.py:11-35 | two integers with one rendering are equal |
| HashDatabase.RenderKey | plaza/crypto/hashdb.py:11 | a 32-bit key renders as exactly eight upper-case hex digits |
| HashDatabase.LastBefore | plaza/crypto/hashdb.py:10-11 | the position found has the key and no later block before n has it; nothing is found only when no block has it |
| HashDatabase.IndexAt | plaza/crypto/hashdb.py:6-11 | under the rendering of a key is filed the last block with that key, and nothing when no block has it |
| HashDatabase.IndexKeys | plaza/crypto/hashdb.py:6-11 | every entry is filed under the rendering of some block's key |
| HashDatabase.IndexSize | plaza/crypto/hashdb.py:6-35 | one entry per distinct key |
| HashDatabase.HashDB.constructor | plaza/crypto/hashdb.py:6-11 | the loop files every block under its rendered key, in list order |
| HashDatabase.HashDB.Resolve | plaza/crypto/hashdb.py:13-52 | an integer is rendered as it is and a name is hashed with 32-bit FNV-1a, so a name and its hash resolve alike |
| HashDatabase.HashDB.Get | plaza/crypto/hashdb.py:13-26 | the last block whose key the query stands for, or a missing-key failure, without changing the index |
| HashDatabase.HashDB.Contains | plaza/crypto/hashdb.py:28-29 | true exactly for the rendering of a block's key, without hashing |
| HashDatabase.HashDB.Len | plaza/crypto/hashdb.py:34-35 | the number of distinct keys |
| HashDatabase.HashDB.Set | plaza/crypto/hashdb.py:48-54 | stores into the block the key stands for, succeeding or failing as `set_value` does and leaving that block's payload as `set_value` does; a missing key fails and nothing changes; no other block's payload changes |
| Bag.FlagPositionsDistinct | plaza/types/bagsave.py:5-12 | distinct flags sit at distinct bits |
| Bag.EntryFlagUpdate | plaza/types/bagsave.py:38-45 | after `set_flag(f, v)`, `get_flag(f)` is v and every other flag reads as before |
| Bag.PocketFlagUpdate | plaza/types/bagsave.py:73-80 | the same for the pockets of the release word |
| Bag.DecodeEntry | plaza/types/bagsave.py:28-36 | an entry parses exactly from 16 bytes |
| Bag.EncodeEntry | plaza/types/bagsave.py:47-48 | an entry is written exactly when its fields fit their widths |
| Bag.EncodeEntryShape | plaza/types/bagsave.py:47-48 | a written entry is 12 + len(reserve) bytes and ends with three zeros |
| Bag.EntryBytesRoundTrip | plaza/types/bagsave.py:28-48 | writing a parsed entry gives bytes 0..12 as read and zeros for 13..15 |
| Bag.EntryValueRoundTrip | plaza/types/bagsave.py:28-48 | an entry that is written parses back as itself |
| Bag.DecodeRelease | plaza/types/bagsave.py:63-71 | a release word parses exactly from 4 bytes |
| Bag.EncodeRelease | plaza/types/bagsave.py:82-83 | written exactly when the flags fit 16 bits, as 2 + len(padding) bytes |
| Bag.ReleaseBytesRoundTrip | plaza/types/bagsave.py:63-83 | writing a parsed release word gives its 4 bytes back |
| Bag.ReleaseValueRoundTrip | plaza/types/bagsave.py:63-83 | a written release word parses back as itself |
| Bag.DecodedEntries | plaza/types/bagsave.py:110-115 | n slices parse to n entries |
| Bag.DecodeSave | plaza/types/bagsave.py:102-124 | a bag parses exactly from 48128 bytes |
| Bag.DecodedEntryAt | plaza/types/bagsave.py:111-115 | entry i comes from bytes [16i, 16i + 16) |
| Bag.CanonAt | plaza/types/bagsave.py:47-129 | byte j of the rewritten entries is byte j of the input, except the last three of every entry, which are zero |
| Bag.EntriesRoundTrip | plaza/types/bagsave.py:126-129 | writing the first n parsed entries gives their canonical bytes |
| Bag.SaveRoundTrip | plaza/types/bagsave.py:102-132 | a parsed bag is written as 48128 bytes: the input with bytes 13..15 of every entry zeroed |
| Bag.BagEntry.constructor | plaza/types/bagsave.py:22-26 | category -1, nothing held, no flags, four zero reserve bytes |
| Bag.BagEntry.FromBytes | plaza/types/bagsave.py:28-36 | a new entry exactly for 16 bytes, holding what `DecodeEntry` reads |
| Bag.BagEntry.SetFlag | plaza/types/bagsave.py:41-45 | only the flag's bit of the flag word changes |
| Bag.BagReleaseCategory.constructor | plaza/types/bagsave.py:59-61 | no pocket released, two zero padding bytes |
| Bag.BagReleaseCategory.FromBytes | plaza/types/bagsave.py:63-71 | a new word exactly for 4 bytes, holding what `DecodeRelease` reads |
| Bag.BagReleaseCategory.SetFlag | plaza/types/bagsave.py:76-80 | only the pocket's bit changes |
| Bag.Values | plaza/types/bagsave.py:98 | one value per entry object |
| Bag.BagSave.constructor | plaza/types/bagsave.py:97-100 | no entries, a fresh empty release word, 124 zero reserve bytes |
| Bag.BagSave.Of | plaza/types/bagsave.py:107-122 | a bag over the given entries, release word and reserve |
| Bag.BagSave.FromBytes | plaza/types/bagsave.py:102-124 | a new bag exactly for 48128 bytes, holding what `DecodeSave` reads: 3000 entries, the release word at 48000, the reserve at 48004 |
| Bag.BagSave.ReadEntries | plaza/types/bagsave.py:110-115 | the loop reads the 3000 entries from consecutive slices |
| Bag.BagSave.ReadEntry | plaza/types/bagsave.py:112-115 | one turn appends the entry parsed from slice i |
| Bag.BagSave.ToBytes | plaza/types/bagsave.py:126-132 | the loop writes the bag's encoding, or fails with the first entry that does not fit |
| Bag.BagSave.GetEntry | plaza/types/bagsave.py:134-137 | the entry at the id, and nothing exactly when the id is outside the list |
| Bag.BagSave.SetEntry | plaza/types/bagsave.py:139-141 | replaces the entry at an id inside the list and does nothing otherwise; nothing else changes |
| Bag.BagSave.SetReleaseCategory | plaza/types/bagsave.py:146-147 | only the pocket's bit of the release word changes |
| Bag.FailureSticks | plaza/types/bagsave.py:128-129 | once a prefix of the entries fails, the whole list fails the same way |
| Pokedex.PackByteValues | plaza/types/pokedex.py:105-141 | byte values packed back are the bytes |
| Pokedex.DecodeDraw | plaza/types/pokedex.py:21-34 | display data parses exactly from 8 bytes |
| Pokedex.EncodeDraw | plaza/types/pokedex.py:36-43 | written exactly when its fields are bytes, as 5 + len(reserve) bytes |
| Pokedex.DrawBytesRoundTrip | plaza/types/pokedex.py:21-43 | writing parsed display data gives its 8 bytes back |
| Pokedex.DrawValueRoundTrip | plaza/types/pokedex.py:21-43 | written display data parses back as itself |
| Pokedex.DecodeCore | plaza/types/pokedex.py:83-119 | a record parses exactly from 132 bytes |
| Pokedex.EncodeCore | plaza/types/pokedex.py:121-156 | a record is written exactly when its fields fit their widths |
| Pokedex.CoreLength | plaza/types/pokedex.py:121-156 | with the reserves at their sizes, 82 field bytes then 50 zeros, 132 in all |
| Pokedex.FlagsRoundTrip | plaza/types/pokedex.py:92-134 | the 18 flag bytes are written back as read |
| Pokedex.TailRoundTrip | plaza/types/pokedex.py:101-150 | the fields read from byte 20 are written from byte 18 |
| Pokedex.CoreRoundTrip | plaza/types/pokedex.py:83-156 | a rewritten record is bytes 0..18, bytes 20..84, then 50 zeros; not the input |
| Pokedex.FlagFieldsSurvive | plaza/types/pokedex.py:92-134 | the flag words and flag bytes do survive writing and reading back |
| Pokedex.DecodedCores | plaza/types/pokedex.py:257-261 | n slices parse to n records |
| Pokedex.DecodeDex | plaza/types/pokedex.py:247-267 | a Pokédex parses exactly from 159848 bytes |
| Pokedex.DecodedCoreAt | plaza/types/pokedex.py:257-261 | record i comes from bytes [132i, 132i + 132) |
| Pokedex.CoresRoundTrip | plaza/types/pokedex.py:274-275 | writing the first n parsed records gives each one shifted as `CoreRoundTrip` says |
| Pokedex.DexRoundTrip | plaza/types/pokedex.py:247-280 | a parsed Pokédex is written as 159848 bytes: every record shifted, then the reserve read at 159720 |
| Pokedex.CountCaptured | plaza/types/pokedex.py:293-299 | the captured count is at most the number of records |
| Pokedex.CountShiny | plaza/types/pokedex.py:301-307 | the shiny count is at most the number of records |
| Pokedex.CountCapturedExtremes | plaza/types/pokedex.py:293-299 | the count is 0 exactly when no record is captured and full exactly when all are |
| Pokedex.FormFlagUpdate | plaza/types/pokedex.py:158-198 | setting form i (0 <= i < 32) reads back as set; other forms and out-of-range indices are untouched, and out of range reads false |
| Pokedex.WithFormCount | plaza/types/pokedex.py:206-220 | eight counters remain |
| Pokedex.FormCountUpdate | plaza/types/pokedex.py:200-220 | counter i reads back as min(count, 255), the others unchanged; an index outside 0..7 changes nothing and reads 0 |
| Pokedex.CountKeepsPackable | plaza/types/pokedex.py:140-220 | a non-negative count keeps the record writable |
| Pokedex.NegativeCountBreaksPacking | plaza/types/pokedex.py:140-209 | a negative count is stored as it is and the record no longer writes |
| Pokedex.PokedexCoreData.constructor | plaza/types/pokedex.py:54-81 | a record with everything zero |
| Pokedex.PokedexCoreData.FromCore | plaza/types/pokedex.py:89-117 | a record holding the given fields |
| Pokedex.PokedexCoreData.FromBytes | plaza/types/pokedex.py:83-119 | a new record exactly for 132 bytes, holding what `DecodeCore` reads |
| Pokedex.PokedexCoreData.SetCaptured | plaza/types/pokedex.py:164-170 | only the capture word changes, at bit i |
| Pokedex.PokedexCoreData.SetBattled | plaza/types/pokedex.py:178-184 | only the battle word changes, at bit i |
| Pokedex.PokedexCoreData.SetShiny | plaza/types/pokedex.py:192-198 | only the shiny word changes, at bit i |
| Pokedex.PokedexCoreData.SetCaptureCount | plaza/types/pokedex.py:206-209 | only the capture counters change |
| Pokedex.PokedexCoreData.SetDefeatCount | plaza/types/pokedex.py:217-220 | only the defeat counters change |
| Pokedex.CoreValues | plaza/types/pokedex.py:244 | one value per record object |
| Pokedex.Blank | plaza/types/pokedex.py:244 | n empty records |
| Pokedex.PokedexData.constructor | plaza/types/pokedex.py:243-245 | 1210 empty records and 128 zero reserve bytes |
| Pokedex.PokedexData.Of | plaza/types/pokedex.py:253-265 | a Pokédex over the given records and reserve |
| Pokedex.PokedexData.FromBytes | plaza/types/pokedex.py:247-267 | a new Pokédex exactly for 159848 bytes, holding what `DecodeDex` reads |
| Pokedex.PokedexData.ReadCores | plaza/types/pokedex.py:256-261 | the loop reads the 1210 records from consecutive slices |
| Pokedex.PokedexData.ReadCore | plaza/types/pokedex.py:258-261 | one turn parses record i from its slice |
| Pokedex.PokedexData.ToBytes | plaza/types/pokedex.py:269-280 | the loop writes the Pokédex's encoding, or fails with the first record that does not fit |
| Pokedex.PokedexData.GetPokedexData | plaza/types/pokedex.py:282-286 | the record at the number, and nothing exactly outside the list |
| Pokedex.PokedexData.SetPokedexData | plaza/types/pokedex.py:288-291 | replaces the record inside the list and does nothing otherwise |
| Pokedex.PokedexData.GetCapturedCount | plaza/types/pokedex.py:293-299 | the loop counts the records with a nonzero capture word, at most the number of records |
| Pokedex.PokedexData.GetShinyCount | plaza/types/pokedex.py:301-307 | the loop counts the records with a nonzero shiny word |
| Pokedex.PokedexSaveDataAccessor.constructor | plaza/types/pokedex.py:316-317 | a fresh empty Pokédex |
| Pokedex.PokedexSaveDataAccessor.Of | plaza/types/pokedex.py:322-323 | an accessor over the given Pokédex |
| Pokedex.PokedexSaveDataAccessor.FromBytes | plaza/types/pokedex.py:319-324 | a new accessor exactly for 159848 bytes |
| Pokedex.PokedexSaveDataAccessor.ToBytes | plaza/types/pokedex.py:326-328 | the Pokédex's encoding |
| Pokedex.PokedexSaveDataAccessor.SetPokedexData | plaza/types/pokedex.py:330-333 | replaces record dev_no when 0 <= dev_no < 1210 and does nothing otherwise |
| Pokedex.PokedexSaveDataAccessor.GetPokedexData | plaza/types/pokedex.py:335-339 | record dev_no, or a new empty record out of range |
| Pokedex.PokedexSaveDataAccessor.GetPokedexDataConst | plaza/types/pokedex.py:341-343 | the same as `get_pokedex_data` |
| Pokedex.PokedexSaveDataAccessor.GetDrawData | plaza/types/pokedex.py:345-350 | the record's display data, or empty display data out of range |
| Pokedex.CoreFailureSticks | plaza/types/pokedex.py:274-275 | once a prefix of the records fails, the whole list fails the same way |
| UserData.DecimalParse | plaza/types/coredata.py:140 | `int(str(n)) == n` |
| UserData.ZFillKeepsValue | plaza/types/coredata.py:77 | zero-filling never changes the number a string parses to |
| UserData.IdRoundTrip | plaza/types/coredata.py:268-273 | `str(n).zfill(width)` parses back to n |
| UserData.Unpack16 | plaza/types/coredata.py:83-84 | 2k bytes unpack to k codes |
| UserData.Pack16 | plaza/types/coredata.py:154-155 | k codes pack to 2k bytes |
| UserData.PackUnpack16 | plaza/types/coredata.py:83-155 | packing what was unpacked gives the bytes back |
| UserData.UnpackPack16 | plaza/types/coredata.py:83-155 | unpacking what was packed gives the codes back |
| UserData.LJust | plaza/types/coredata.py:222 | padding gives at least the width |
| UserData.NameCodes | plaza/types/coredata.py:217-234 | a name always becomes exactly 13 codes |
| UserData.NameOfUnits | plaza/types/coredata.py:217-234 | the stored name is the first 13 code units, padded with zero units |
| UserData.LongName | plaza/types/coredata.py:217-234 | a name of 13 units or more keeps its first 13 |
| UserData.ShortName | plaza/types/coredata.py:217-234 | a shorter name is padded with zero units |
| UserData.RankWord | plaza/types/coredata.py:164 | the packed rank word is below 2^32 |
| UserData.RankWordOfFields | plaza/types/coredata.py:94-165 | a word read from the save is repacked unchanged |
| UserData.RankFieldsOfWord | plaza/types/coredata.py:94-164 | rank and experience come back from their word reduced to 8 and 24 bits |
| UserData.CappedRankSurvives | plaza/types/coredata.py:336-343 | capped non-negative rank and experience survive a write and a read |
| UserData.GenderOf | plaza/types/coredata.py:236-238 | 0 and 1 are genders; anything else raises |
| UserData.GenderRoundTrip | plaza/types/coredata.py:236-242 | every gender reads back from its value |
| UserData.DecodeRecord | plaza/types/coredata.py:60-133 | a record parses exactly from 120 bytes |
| UserData.EncodeRecord | plaza/types/coredata.py:135-202 | a record is written exactly when every field fits its width |
| UserData.RecordLength | plaza/types/coredata.py:135-202 | with the raw fields at their sizes a record is 120 bytes |
| UserData.DecodedPackable | plaza/types/coredata.py:60-133 | every field of a parsed record fits its width |
| UserData.RecordRoundTrip | plaza/types/coredata.py:60-202 | a parsed record is written back as its first 118 bytes followed by two zeros, so fields sit at the offsets they were read from |
| UserData.ParsedIdRoundTrip | plaza/types/coredata.py:70-140 | the ten-digit id of a parsed record parses back to the integer read |
| UserData.IdLow | plaza/types/coredata.py:256-258 | below 2^16 whenever the id parses, a failure otherwise |
| UserData.DrawId | plaza/types/coredata.py:260-262 | below 1000000 whenever the id parses, a failure otherwise |
| UserData.IdLowOfParsed | plaza/types/coredata.py:256-258 | the low 16 bits of a parsed id are its first two bytes |
| UserData.NumberIdRoundTrip | plaza/types/coredata.py:268-273 | an id set from an integer reads back as that integer |
| UserData.CoreData.constructor | plaza/types/coredata.py:13-58 | id "0" and every other field zero |
| UserData.CoreData.FromRecord | plaza/types/coredata.py:66-131 | a record holding the given fields |
| UserData.CoreData.FromBytes | plaza/types/coredata.py:60-133 | a new record exactly for 120 bytes, holding what `DecodeRecord` reads |
| UserData.CoreData.ToBytes | plaza/types/coredata.py:135-202 | first stores `int(id)`, raising without change when the id is not a number, then writes the record |
| UserData.CoreData.SetNameString | plaza/types/coredata.py:217-234 | only the name changes, to the 13 codes of the padded bytes |
| UserData.CoreData.ReadNameCodes | plaza/types/coredata.py:225-229 | the loop reads one code per pair among the first 26 bytes |
| UserData.CoreData.SetGender | plaza/types/coredata.py:240-242 | only the sex field changes, and `get_gender` gives the gender back |
| UserData.CoreData.SetId | plaza/types/coredata.py:268-273 | a string is kept verbatim and an integer is zero-filled to 10 digits |
| UserData.UserDataSaveDataAccessor.constructor | plaza/types/coredata.py:282-283 | a fresh empty record |
| UserData.UserDataSaveDataAccessor.Of | plaza/types/coredata.py:287-288 | an accessor over the given record |
| UserData.UserDataSaveDataAccessor.FromBytes | plaza/types/coredata.py:285-289 | a new accessor exactly for 120 bytes |
| UserData.UserDataSaveDataAccessor.ToBytes | plaza/types/coredata.py:291-292 | the record's `to_bytes` |
| UserData.UserDataSaveDataAccessor.SetId | plaza/types/coredata.py:297-298 | the record's `set_id` |
| UserData.UserDataSaveDataAccessor.SetMemberRank | plaza/types/coredata.py:336-337 | only the rank changes, to min(rank, 99) |
| UserData.UserDataSaveDataAccessor.SetMemberRankExp | plaza/types/coredata.py:342-343 | only the experience changes, to min(exp, 99999) |
| UserData.UserDataSaveDataAccessor.SetBirthday | plaza/types/coredata.py:357-360 | month and day, and the birthday marked as set |
| UserData.UserDataSaveDataAccessor.UpdatePartnerWalkCount | plaza/types/coredata.py:365-366 | the count grows by the amount, uncapped |
| UserData.UserDataSaveDataAccessor.ResetPartnerWalkCount | plaza/types/coredata.py:368-369 | the count becomes 0 |
| UserData.UserDataSaveDataAccessor.SetIllegalEggCheckVer120 | plaza/types/coredata.py:392-393 | stores exactly 1 or 0, and the check reads back as the flag |

## Left out

- SHA-256 (`compute_hash`, plaza/crypto/swishcrypto.py:63-70) is a parameter `sha` from bytes to a 32-byte digest. The intro and outro bytes are put around the data before it is passed in.
- SINGLE and DOUBLE values and the record fields `mega_power` and `mega_evo_timer` are kept as their raw IEEE bit patterns. No floating-point conversion is modelled.
- TypeCodes.Encode: an integer stored into a SINGLE or DOUBLE field is refused with WrongArgument. Python's `struct.pack_into('<f'/'<d', ...)` converts it with `float()` and succeeds. The model has no IEEE conversion, so `TypeCodes.Store`, `TypeCodes.SetValue`, `Blocks.SCBlock.SetValue` and `HashDatabase.HashDB.Set` fail, zeroing the field, where the program stores the converted value.
- `get_completion_percentage` returns a float and is not modelled.
- Text encodings are not modelled. FNV-1a hashes bytes: a string key is given as its UTF-8 bytes. `set_name_string` takes the UTF-16-LE bytes of the name, and `get_name_string` (decoding, with its fallback text) is not modelled.
- `int()` on the id accepts an optional sign and ASCII digits. Python also accepts surrounding whitespace, underscores between digits and non-ASCII digits; those forms are not modelled.
- `HashDBKeys` (plaza/types/accessors.py) is not part of this model. An enum key is an integer query.
- A lookup with a non-int, non-str argument raises TypeError in Python. Here the query type admits only integers and names, so that path cannot occur.
- `set_id` accepts any value that `str()` can render. The model takes a string or an integer.
- `HashDB.__iter__`, `__eq__`, `__str__` and `__repr__` are not modelled. The index is a `map`, so iteration order and equality are those of the map.
- `__str__` and `__repr__` of every class, and the warnings `_ensure_array_is_sane` prints, are left out. The warnings never reject anything, so reading is unaffected.
- `get_type` and `get_type_array` return Python type objects and are not modelled. Neither are the unused `BLOCK_DATA_RATIO_ESTIMATE*` constants.
- The `data` property of `SCBlock` is the `raw` array itself.
- main.py (command-line front end), plaza/util/items.py (JSON loading) and plaza/types/__init__.py (re-exports) are not part of this model.
- `from_bytes` in Python first calls the default constructor and then overwrites the fields. Here a constructor takes the parsed values directly. The object built is the same.
- `set_name_string` ends with a loop that appends zeros while fewer than 13 codes exist, then cuts to 13. The padding to 26 bytes already gives exactly 13 codes, so that loop never runs and is not modelled.
- The pass-through getters and setters of `UserDataSaveDataAccessor` that only read or assign one field are not modelled separately. Examples are `get_rom_code` and `set_sex`. The field assignment is the whole of their behaviour.
- `DrawData` is held as a value inside a Pokédex record, not as a separate object. `get_draw_data` therefore returns a copy, while Python returns the object, which a caller could then change.
- Fnv.HashFnv1a32: a negative starting `hash_val` is not modelled. The start is a natural number, which is the only case the callers use.
- Fnv.HashFnv1a64: a negative starting `hash_val` is not modelled either, for the same reason.
- Bag.BagSave.FromBytes: the entries are new objects, but that they are pairwise distinct is not stated.
- Pokedex.PokedexData.FromBytes: the records are new objects, but that they are pairwise distinct is not stated.
- Python integers in record fields may hold any value until `to_bytes` packs them. Most fields are kept as unbounded `int` here, and packing fails for values that do not fit, as `struct.pack` does.
- The flag words are 32-bit words (`bv32`), not unbounded integers:
  - `flags` of `Bag.Entry` and `Bag.BagEntry` (plaza/types/bagsave.py:25);
  - `flags` of `Bag.Release` and `Bag.BagReleaseCategory` (plaza/types/bagsave.py:60);
  - `capture`, `battle` and `rare` of `Pokedex.Core` and `Pokedex.PokedexCoreData` (plaza/types/pokedex.py:56-63).
  A caller who assigns one of these a negative value, or one of 2^32 or more, makes Python's `to_bytes` raise; the model cannot hold such a value. The setters only touch bits 0 to 31, and the form setters check `0 <= form_index < 32`.
- Default arguments are passed explicitly. Examples are `form_index=0` (plaza/types/pokedex.py:158-220), `value=True` (plaza/types/bagsave.py:146) and `captured=True`. Every call is covered, so no behaviour is lost.

