/** The closed table of block type tags, their fixed sizes, and the scalar
    readers and writers over a block's payload. */
module TypeCodes {
  import opened Wrappers
  import opened Bytes

  datatype TypeCode =
    | NoType   // 0
    | Bool1    // 1: boolean false, no payload
    | Bool2    // 2: boolean true, no payload
    | Bool3    // 3: one-byte boolean, legal as an array element type
    | Object   // 4: length-prefixed opaque payload
    | Array    // 5: counted homogeneous payload with an element type
    | Byte     // 8
    | UInt16   // 9
    | UInt32   // 10
    | UInt64   // 11
    | SByte    // 12
    | Int16    // 13
    | Int32    // 14
    | Int64    // 15
    | Single   // 16
    | Double   // 17

  /** The tag's numeric value on the wire. */
  function Code(t: TypeCode): (v: nat)
    ensures v < 18 && v != 6 && v != 7
  {
    match t
    case NoType => 0
    case Bool1 => 1
    case Bool2 => 2
    case Bool3 => 3
    case Object => 4
    case Array => 5
    case Byte => 8
    case UInt16 => 9
    case UInt32 => 10
    case UInt64 => 11
    case SByte => 12
    case Int16 => 13
    case Int32 => 14
    case Int64 => 15
    case Single => 16
    case Double => 17
  }

  /** `SCTypeCode(v)`: the tag with value v, or a failure for a value outside the enum. */
  function FromCode(v: int): (r: Result<TypeCode>)
    ensures r.Success? ==> Code(r.value) == v
    ensures r.Failure? ==> r.error == UnknownTypeCode(v)
  {
    if v == 0 then Success(NoType)
    else if v == 1 then Success(Bool1)
    else if v == 2 then Success(Bool2)
    else if v == 3 then Success(Bool3)
    else if v == 4 then Success(Object)
    else if v == 5 then Success(Array)
    else if v == 8 then Success(Byte)
    else if v == 9 then Success(UInt16)
    else if v == 10 then Success(UInt32)
    else if v == 11 then Success(UInt64)
    else if v == 12 then Success(SByte)
    else if v == 13 then Success(Int16)
    else if v == 14 then Success(Int32)
    else if v == 15 then Success(Int64)
    else if v == 16 then Success(Single)
    else if v == 17 then Success(Double)
    else Failure(UnknownTypeCode(v))
  }

  /** Every tag is recognised from its own code, and exactly the codes 0-5 and 8-17 are tags. */
  lemma FromCodeOfCode(t: TypeCode)
    ensures FromCode(Code(t)) == Success(t)
  {
  }

  lemma FromCodeFails(v: int)
    ensures FromCode(v).Failure? <==> !(0 <= v <= 5 || 8 <= v <= 17)
  {
  }

  /** `is_boolean`: the three boolean tags. */
  predicate IsBoolean(t: TypeCode) {
    t.Bool1? || t.Bool2? || t.Bool3?
  }

  lemma IsBooleanByCode(t: TypeCode)
    ensures IsBoolean(t) <==> Code(t) in {1, 2, 3}
  {
  }

  /** `get_type_size`: the fixed size of a tag, a failure for the tags without one. */
  function TypeSize(t: TypeCode): (r: Result<nat>)
    ensures r.Failure? <==> t.NoType? || t.Bool1? || t.Bool2? || t.Object? || t.Array?
    ensures r.Failure? ==> r.error == Unsupported
    ensures r.Success? ==> r.value == 1 || r.value == 2 || r.value == 4 || r.value == 8
  {
    match t
    case Bool3 | Byte | SByte => Success(1)
    case UInt16 | Int16 => Success(2)
    case UInt32 | Int32 | Single => Success(4)
    case UInt64 | Int64 | Double => Success(8)
    case _ => Failure(Unsupported)
  }

  /** The tags a block can hold one value of (`has_value`: the code is above ARRAY's 5). */
  predicate IsScalar(t: TypeCode) {
    Code(t) > Code(Array)
  }

  /** The scalars are exactly the sized tags that are not booleans. */
  lemma ScalarIffSizedNonBoolean(t: TypeCode)
    ensures IsScalar(t) <==> TypeSize(t).Success? && !IsBoolean(t)
  {
  }

  predicate IsSigned(t: TypeCode) {
    t.SByte? || t.Int16? || t.Int32? || t.Int64?
  }

  predicate IsFloat(t: TypeCode) {
    t.Single? || t.Double?
  }

  /** A boxed scalar value: an integer, or the IEEE-754 bit pattern of a float. */
  datatype Scalar = IntValue(i: int) | FloatBits(bits: seq<byte>)

  /** `get_value`: reads the first `size` bytes of data as the tag's scalar.
      A short buffer fails first; a tag without a size fails inside
      `get_type_size`; BOOL3 has a size but no value. */
  function GetValue(t: TypeCode, data: seq<byte>): (r: Result<Scalar>)
    ensures r.Success? <==> IsScalar(t) && |data| >= TypeSize(t).value
    ensures TypeSize(t).Failure? ==> r == Failure(Unsupported)
    ensures TypeSize(t).Success? && |data| < TypeSize(t).value ==> r == Failure(Truncated)
    ensures r.Success? && !IsFloat(t) && !IsSigned(t) ==>
      r.value.IntValue? && 0 <= r.value.i < Pow256(TypeSize(t).value)
    ensures r.Success? && IsSigned(t) ==>
      r.value.IntValue? && -Half(TypeSize(t).value) <= r.value.i < Half(TypeSize(t).value)
    ensures r.Success? && IsFloat(t) ==> r.value == FloatBits(data[..TypeSize(t).value])
  {
    match TypeSize(t)
    case Failure(e) => Failure(e)
    case Success(size) =>
      if |data| < size then Failure(Truncated)
      else if t.Bool3? then Failure(Unsupported)
      else if IsFloat(t) then Success(FloatBits(data[..size]))
      else if IsSigned(t) then Success(IntValue(FromLESigned(data[..size])))
      else Success(IntValue(FromLE(data[..size])))
  }

  /** The bytes `set_value` puts at the front of the buffer for v, or why it
      refuses. BYTE and SBYTE keep `v & 0xFF`; the wider integer tags go
      through `struct.pack_into`, which refuses a value outside the field's
      range rather than wrapping it. */
  function Encode(t: TypeCode, v: Scalar): (r: Result<seq<byte>>)
    requires IsScalar(t)
    ensures r.Success? ==> |r.value| == TypeSize(t).value
  {
    var size := TypeSize(t).value;
    match v
    case FloatBits(bits) =>
      if IsFloat(t) && |bits| == size then Success(bits) else Failure(WrongArgument)
    case IntValue(i) =>
      if IsFloat(t) then Failure(WrongArgument)
      else if t.Byte? || t.SByte? then Success([ByteOfNat(i % 256)])
      else if IsSigned(t) then (if FitsSigned(i, size) then Success(ToLESigned(i, size)) else Failure(OutOfRange))
      else if FitsUnsigned(i, size) then Success(ToLE(i, size))
      else Failure(OutOfRange)
  }

  /** The buffer `set_value` leaves behind, or the failure it raises (what a
      failure leaves in the buffer is `Cleared`). Non-scalar tags raise before anything else.
      BYTE and SBYTE compute `value & 0xFF` before indexing the buffer, so a
      non-integer fails there first; otherwise a buffer too short for the
      field (index error or `pack_into`'s size check) fails before an
      unacceptable value does. */
  function Store(t: TypeCode, data: seq<byte>, v: Scalar): (r: Result<seq<byte>>)
    ensures r.Success? ==> IsScalar(t) && |data| >= TypeSize(t).value
    ensures r.Success? ==> |r.value| == |data| && r.value[TypeSize(t).value..] == data[TypeSize(t).value..]
    ensures !IsScalar(t) ==> r == Failure(Unsupported)
  {
    if !IsScalar(t) then Failure(Unsupported)
    else if (t.Byte? || t.SByte?) && v.FloatBits? then Failure(WrongArgument)
    else if |data| < TypeSize(t).value then Failure(Truncated)
    else match Encode(t, v)
      case Failure(e) => Failure(e)
      case Success(bytes) => Success(bytes + data[|bytes|..])
  }

  /** Whether a failing `set_value` has already cleared the field: `struct.pack_into`
      checks the buffer's length, then sets the field's bytes to zero, and only
      then converts the value, so a value it refuses leaves zeros behind. */
  predicate ClearsField(t: TypeCode, data: seq<byte>, v: Scalar) {
    IsScalar(t) && !t.Byte? && !t.SByte? && |data| >= TypeSize(t).value && Encode(t, v).Failure?
  }

  /** The buffer a failed `set_value` leaves behind. */
  function Cleared(t: TypeCode, data: seq<byte>, v: Scalar): (r: seq<byte>)
    ensures |r| == |data|
  {
    if ClearsField(t, data, v) then Zeros(TypeSize(t).value) + data[TypeSize(t).value..] else data
  }

  /** A failure leaves the buffer as it was exactly when the tag is not a
      scalar, the buffer is shorter than the field, or the tag is BYTE or SBYTE
      (whose `value & 0xFF` raises before the buffer is touched); a value that
      `pack_into` refuses fails with OutOfRange or WrongArgument. */
  lemma FailedStore(t: TypeCode, data: seq<byte>, v: Scalar)
    requires Store(t, data, v).Failure?
    ensures ClearsField(t, data, v) <==>
      !t.Byte? && !t.SByte? && Store(t, data, v).error in {OutOfRange, WrongArgument}
    ensures !ClearsField(t, data, v) ==> Cleared(t, data, v) == data
  {
  }

  /** After `pack_into` refuses a value, the field reads as zero (a zero
      bit pattern for SINGLE and DOUBLE) and the bytes after it are kept. */
  lemma ReadAfterClear(t: TypeCode, data: seq<byte>, v: Scalar)
    requires ClearsField(t, data, v)
    ensures Store(t, data, v).Failure?
    ensures Cleared(t, data, v)[TypeSize(t).value..] == data[TypeSize(t).value..]
    ensures GetValue(t, Cleared(t, data, v)) ==
      Success(if IsFloat(t) then FloatBits(Zeros(TypeSize(t).value)) else IntValue(0))
  {
    var size := TypeSize(t).value;
    var c := Cleared(t, data, v);
    assert c[..size] == Zeros(size);
    ZerosReadZero(size);
  }

  lemma {:induction false} ZerosReadZero(n: nat)
    ensures FromLE(Zeros(n)) == 0
  {
    if n > 0 {
      assert Zeros(n)[1..] == Zeros(n - 1);
      ZerosReadZero(n - 1);
    }
  }

  /** What a read returns after a successful write: the value itself when it
      is in the field's range; for BYTE and SBYTE, the value reduced to a byte. */
  function ReadBack(t: TypeCode, v: Scalar): Scalar {
    match v
    case FloatBits(_) => v
    case IntValue(i) =>
      if t.Byte? then IntValue(i % 256)
      else if t.SByte? then IntValue(if i % 256 < 128 then i % 256 else i % 256 - 256)
      else v
  }

  /** Reading after writing yields the value written (reduced to a byte for BYTE/SBYTE). */
  lemma GetAfterStore(t: TypeCode, data: seq<byte>, v: Scalar)
    requires Store(t, data, v).Success?
    ensures GetValue(t, Store(t, data, v).value) == Success(ReadBack(t, v))
  {
    var size := TypeSize(t).value;
    var stored := Store(t, data, v).value;
    assert stored[..size] == Encode(t, v).value;
    if v.FloatBits? {
    } else if t.Byte? || t.SByte? {
      GetAfterStoreByte(t, stored, v.i);
    } else {
      GetAfterStoreWide(t, stored, v.i);
    }
  }

  lemma GetAfterStoreByte(t: TypeCode, stored: seq<byte>, i: int)
    requires (t.Byte? || t.SByte?) && |stored| >= 1 && stored[..1] == [ByteOfNat(i % 256)]
    ensures GetValue(t, stored) == Success(ReadBack(t, IntValue(i)))
  {
    ByteRoundTrip(i);
    if t.SByte? {
      assert Half(1) == 128;
    }
  }

  lemma GetAfterStoreWide(t: TypeCode, stored: seq<byte>, i: int)
    requires IsScalar(t) && !IsFloat(t) && !t.Byte? && !t.SByte?
    requires Encode(t, IntValue(i)).Success? && |stored| >= TypeSize(t).value
    requires stored[..TypeSize(t).value] == Encode(t, IntValue(i)).value
    ensures GetValue(t, stored) == Success(IntValue(i))
  {
    var size := TypeSize(t).value;
    if IsSigned(t) {
      SignedRoundTrip(i, size);
    } else {
      FromToLE(i, size);
    }
  }

  /** A one-byte field keeps the value modulo 256. */
  lemma ByteRoundTrip(i: int)
    ensures FromLE([ByteOfNat(i % 256)]) == i % 256
  {
    var b := [ByteOfNat(i % 256)];
    assert b[1..] == [];
  }

  /** For an in-range integer of any integer tag, the value written is the value read. */
  lemma IntegerRoundTrip(t: TypeCode, data: seq<byte>, i: int)
    requires IsScalar(t) && !IsFloat(t) && |data| >= TypeSize(t).value
    requires if IsSigned(t) then FitsSigned(i, TypeSize(t).value) else FitsUnsigned(i, TypeSize(t).value)
    ensures Store(t, data, IntValue(i)).Success?
    ensures GetValue(t, Store(t, data, IntValue(i)).value) == Success(IntValue(i))
  {
    assert Store(t, data, IntValue(i)).Success?;
    GetAfterStore(t, data, IntValue(i));
    ReadBackInRange(t, i);
  }

  /** An in-range integer reads back unchanged, also for BYTE and SBYTE. */
  lemma ReadBackInRange(t: TypeCode, i: int)
    requires IsScalar(t) && !IsFloat(t)
    requires if IsSigned(t) then FitsSigned(i, TypeSize(t).value) else FitsUnsigned(i, TypeSize(t).value)
    ensures ReadBack(t, IntValue(i)) == IntValue(i)
  {
    if t.Byte? {
      assert Pow256(1) == 256;
      ModSmall(i, 256);
    } else if t.SByte? {
      assert Half(1) == 128;
      if i < 0 {
        ModShift(i, 256);
      } else {
        ModSmall(i, 256);
      }
    }
  }

  /** `set_value` on a caller's buffer: writes the field in place at offset 0
      and leaves every other byte alone; a failure leaves the buffer `Cleared`. */
  method SetValue(t: TypeCode, data: array<byte>, v: Scalar) returns (r: Outcome)
    modifies data
    ensures Store(t, old(data[..]), v).Success? ==> r == Pass && data[..] == Store(t, old(data[..]), v).value
    ensures Store(t, old(data[..]), v).Failure? ==> r == Fail(Store(t, old(data[..]), v).error) && data[..] == Cleared(t, old(data[..]), v)
  {
    var stored := Store(t, data[..], v);
    if stored.Failure? {
      if ClearsField(t, data[..], v) {
        var size := TypeSize(t).value;
        forall i | 0 <= i < size {
          data[i] := 0;
        }
        assert data[..] == Cleared(t, old(data[..]), v);
      }
      return Fail(stored.error);
    }
    var bytes := Encode(t, v).value;
    forall i | 0 <= i < |bytes| {
      data[i] := bytes[i];
    }
    assert data[..] == stored.value;
    r := Pass;
  }
}
