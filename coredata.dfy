/** The player's core record (`CoreData`, 120 bytes) and the accessor the
    rest of the program reads it through.

    The record keeps its id twice: as the text `id` (the decimal of the
    leading unsigned 32-bit word, zero-filled to ten digits) and as the
    integer `idInt` that `to_bytes` recomputes from the text. The two
    32-bit floats are kept as their four bytes. */
module UserData {
  import opened Wrappers
  import opened Bytes

  const RECORD_SIZE: nat := 120
  const NAME_LENGTH: nat := 13
  const ID_WIDTH: nat := 10
  const MEMBER_RANK_MAX: int := 99
  const MEMBER_RANK_EXP_MAX: int := 99999

  // ---------------------------------------------------------------------
  // The id as decimal text: `str(n)`, `s.zfill(10)` and `int(s)`.

  predicate IsDigit(c: char) {
    '0' <= c <= '9'
  }

  predicate AllDigits(s: string) {
    forall i :: 0 <= i < |s| ==> IsDigit(s[i])
  }

  function DigitChar(d: nat): (c: char)
    requires d < 10
    ensures IsDigit(c) && c as int - '0' as int == d
  {
    (('0' as int) + d) as char
  }

  function Digits(n: nat): (s: string)
    ensures |s| > 0 && AllDigits(s)
  {
    (if n < 10 then "" else Digits(n / 10)) + [DigitChar(n % 10)]
  }

  function DigitsValue(s: string): (v: nat)
    requires AllDigits(s)
  {
    if |s| == 0 then 0 else 10 * DigitsValue(s[..|s| - 1]) + (s[|s| - 1] as int - '0' as int)
  }

  function Decimal(n: int): string {
    if n < 0 then "-" + Digits(-n) else Digits(n)
  }

  function ZeroText(k: nat): (z: string)
    ensures |z| == k && AllDigits(z)
  {
    seq(k, _ => '0')
  }

  function ZFill(s: string, width: nat): (t: string)
    ensures |t| == if |s| < width then width else |s|
  {
    if |s| >= width then s
    else if |s| > 0 && (s[0] == '-' || s[0] == '+') then [s[0]] + ZeroText(width - |s|) + s[1..]
    else ZeroText(width - |s|) + s
  }

  function ParseInt(s: string): (r: Result<int>) {
    if |s| > 0 && (s[0] == '-' || s[0] == '+') then
      if |s| > 1 && AllDigits(s[1..]) then
        var v: int := DigitsValue(s[1..]);
        Success(if s[0] == '-' then -v else v)
      else Failure(NotANumber)
    else if |s| > 0 && AllDigits(s) then Success(DigitsValue(s))
    else Failure(NotANumber)
  }

  lemma {:induction false} DigitsRoundTrip(n: nat)
    ensures DigitsValue(Digits(n)) == n
  {
    var front := if n < 10 then "" else Digits(n / 10);
    assert Digits(n) == front + [DigitChar(n % 10)];
    assert (front + [DigitChar(n % 10)])[..|front|] == front;
    if n >= 10 {
      DigitsRoundTrip(n / 10);
    }
  }

  lemma {:induction false} ZeroValue(k: nat)
    ensures DigitsValue(ZeroText(k)) == 0
  {
    if k > 0 {
      assert ZeroText(k)[..k - 1] == ZeroText(k - 1);
      ZeroValue(k - 1);
    }
  }

  lemma {:induction false} LeadingZeros(k: nat, s: string)
    requires AllDigits(s)
    ensures AllDigits(ZeroText(k) + s) && DigitsValue(ZeroText(k) + s) == DigitsValue(s)
  {
    var z := ZeroText(k);
    if |s| == 0 {
      assert z + s == z;
      ZeroValue(k);
    } else {
      var front := s[..|s| - 1];
      assert (z + s)[..|z + s| - 1] == z + front;
      LeadingZeros(k, front);
    }
  }

  /** `int(str(n)) == n`. */
  lemma DecimalParse(n: int)
    ensures ParseInt(Decimal(n)) == Success(n)
  {
    if n < 0 {
      var d := Digits(-n);
      DigitsRoundTrip(-n);
      assert ("-" + d)[0] == '-' && ("-" + d)[1..] == d;
      SignedDigitsParse("-" + d);
    } else {
      DigitsRoundTrip(n);
      UnsignedDigitsParse(Digits(n));
    }
  }

  /** Zero-filling never changes the number a string parses to. */
  lemma ZFillKeepsValue(s: string, width: nat)
    requires ParseInt(s).Success?
    ensures ParseInt(ZFill(s, width)) == ParseInt(s)
  {
    if |s| < width {
      var z := ZeroText(width - |s|);
      if s[0] == '-' || s[0] == '+' {
        var t := [s[0]] + z + s[1..];
        assert t[0] == s[0] && t[1..] == z + s[1..];
        LeadingZeros(width - |s|, s[1..]);
        SignedDigitsParse(s);
        SignedDigitsParse(t);
      } else {
        LeadingZeros(width - |s|, s);
        UnsignedDigitsParse(s);
        UnsignedDigitsParse(z + s);
      }
    }
  }

  lemma SignedDigitsParse(t: string)
    requires |t| > 1 && (t[0] == '-' || t[0] == '+') && AllDigits(t[1..])
    ensures ParseInt(t) == Success(if t[0] == '-' then -(DigitsValue(t[1..]) as int) else DigitsValue(t[1..]))
  {
  }

  lemma UnsignedDigitsParse(t: string)
    requires |t| > 0 && t[0] != '-' && t[0] != '+' && AllDigits(t)
    ensures ParseInt(t) == Success(DigitsValue(t))
  {
  }

  /** The id text `str(n).zfill(width)` parses back to n. */
  lemma IdRoundTrip(n: int, width: nat)
    ensures ParseInt(ZFill(Decimal(n), width)) == Success(n)
  {
    DecimalParse(n);
    ZFillKeepsValue(Decimal(n), width);
  }
  // ---------------------------------------------------------------------
  // The name: 13 little-endian 16-bit code units.

  /** `struct.unpack('<' + 'H' * k, s)` for a string of 2k bytes. */
  function Unpack16(s: seq<byte>): (ns: seq<int>)
    requires |s| % 2 == 0
    ensures 2 * |ns| == |s|
  {
    if |s| == 0 then [] else Unpack16(s[..|s| - 2]) + [FromLE(s[|s| - 2..])]
  }

  /** Whether every code fits an unsigned 16-bit field. */
  predicate AllFit16(ns: seq<int>) {
    forall i :: 0 <= i < |ns| ==> 0 <= ns[i] < 0x1_0000
  }

  /** `struct.pack('<' + 'H' * len(ns), *ns)`. */
  function Pack16(ns: seq<int>): (s: seq<byte>)
    requires AllFit16(ns)
    ensures |s| == 2 * |ns|
  {
    if |ns| == 0 then [] else Pack16(ns[..|ns| - 1]) + ToLE(ns[|ns| - 1], 2)
  }

  /** Packing what was unpacked gives the bytes back. */
  lemma {:induction false} PackUnpack16(s: seq<byte>)
    requires |s| % 2 == 0
    ensures AllFit16(Unpack16(s)) && Pack16(Unpack16(s)) == s
  {
    if |s| > 0 {
      var front, last := s[..|s| - 2], s[|s| - 2..];
      PackUnpack16(front);
      ToFromLE(last);
      LastOfSnoc(Unpack16(front), FromLE(last));
      assert front + last == s;
    }
  }

  /** Unpacking what was packed gives the codes back. */
  lemma {:induction false} UnpackPack16(ns: seq<int>)
    requires AllFit16(ns)
    ensures Unpack16(Pack16(ns)) == ns
  {
    if |ns| > 0 {
      var front, last := ns[..|ns| - 1], ns[|ns| - 1];
      var p := Pack16(front);
      UnpackPack16(front);
      FromToLE(last, 2);
      assert (p + ToLE(last, 2))[..|p|] == p && (p + ToLE(last, 2))[|p|..] == ToLE(last, 2);
      assert ns == front + [last];
    }
  }

  /** Packing a concatenation packs each part. */
  lemma {:induction false} Pack16Append(a: seq<int>, b: seq<int>)
    requires AllFit16(a) && AllFit16(b)
    ensures AllFit16(a + b) && Pack16(a + b) == Pack16(a) + Pack16(b)
  {
    if |b| > 0 {
      var front := b[..|b| - 1];
      assert (a + b)[..|a + b| - 1] == a + front;
      Pack16Append(a, front);
    } else {
      assert a + b == a;
    }
  }

  /** k zero codes. */
  function ZeroCodes(k: nat): (ns: seq<int>)
    ensures |ns| == k && AllFit16(ns)
  {
    seq(k, _ => 0)
  }

  /** Zero codes pack to zero bytes. */
  lemma {:induction false} PackZeroCodes(k: nat)
    ensures Pack16(ZeroCodes(k)) == Zeros(2 * k)
  {
    if k > 0 {
      assert ZeroCodes(k)[..k - 1] == ZeroCodes(k - 1);
      PackZeroCodes(k - 1);
      assert ToLE(0, 2) == [0, 0];
    }
  }

  /** `s.ljust(width, b'\x00')`. */
  function LJust(s: seq<byte>, width: nat): (t: seq<byte>)
    ensures |t| >= width
  {
    if |s| >= width then s else s + Zeros(width - |s|)
  }

  /** The 13 codes `set_name_string` stores for the UTF-16-LE bytes of a name:
      the bytes are zero-padded to 26 and read two at a time. */
  function NameCodes(encoded: seq<byte>): (ns: seq<int>)
    ensures |ns| == NAME_LENGTH
  {
    Unpack16(LJust(encoded, 26)[..26])
  }

  /** For a name given as UTF-16 code units, the stored name is its first 13
      units, padded with zero units. */
  lemma NameOfUnits(units: seq<int>)
    requires AllFit16(units)
    ensures NameCodes(Pack16(units)) == (units + ZeroCodes(NAME_LENGTH))[..NAME_LENGTH]
  {
    if |units| >= NAME_LENGTH {
      LongName(units);
      PrefixOfLonger(units, ZeroCodes(NAME_LENGTH), NAME_LENGTH);
    } else {
      var k := NAME_LENGTH - |units|;
      ShortName(units);
      PrefixOfAppend(units, ZeroCodes(NAME_LENGTH), k);
      ZeroCodesPrefix(k, NAME_LENGTH);
    }
  }

  /** A name of 13 units or more keeps its first 13. */
  lemma LongName(units: seq<int>)
    requires AllFit16(units) && |units| >= NAME_LENGTH
    ensures NameCodes(Pack16(units)) == units[..NAME_LENGTH]
  {
    TruncatedPack(units);
    UnpackPack16(units[..NAME_LENGTH]);
  }

  /** The first 26 bytes of a long packed name are its first 13 codes packed. */
  lemma TruncatedPack(units: seq<int>)
    requires AllFit16(units) && |units| >= NAME_LENGTH
    ensures AllFit16(units[..NAME_LENGTH])
    ensures LJust(Pack16(units), 26)[..26] == Pack16(units[..NAME_LENGTH])
  {
    var head, tail := units[..NAME_LENGTH], units[NAME_LENGTH..];
    assert units == head + tail;
    Pack16Append(head, tail);
  }

  /** A shorter name is padded with zero units. */
  lemma ShortName(units: seq<int>)
    requires AllFit16(units) && |units| < NAME_LENGTH
    ensures NameCodes(Pack16(units)) == units + ZeroCodes(NAME_LENGTH - |units|)
  {
    var k := NAME_LENGTH - |units|;
    var padded := units + ZeroCodes(k);
    PaddedPack(units, k);
    assert NameCodes(Pack16(units)) == Unpack16(Pack16(padded));
    UnpackPack16(padded);
  }

  /** The name bytes of a short name, padded to 26, are the packed name with
      zero codes after it. */
  lemma PaddedPack(units: seq<int>, k: nat)
    requires AllFit16(units) && |units| + k == NAME_LENGTH
    ensures AllFit16(units + ZeroCodes(k))
    ensures LJust(Pack16(units), 26)[..26] == Pack16(units + ZeroCodes(k))
  {
    PackZeroCodes(k);
    Pack16Append(units, ZeroCodes(k));
  }

  lemma PrefixOfLonger<T>(a: seq<T>, b: seq<T>, k: nat)
    requires k <= |a|
    ensures (a + b)[..k] == a[..k]
  {
  }

  lemma PrefixOfAppend<T>(a: seq<T>, b: seq<T>, k: nat)
    requires k <= |b|
    ensures (a + b)[..|a| + k] == a + b[..k]
  {
  }

  lemma ZeroCodesPrefix(k: nat, m: nat)
    requires k <= m
    ensures ZeroCodes(m)[..k] == ZeroCodes(k)
  {
  }

  // ---------------------------------------------------------------------
  // The member rank word: rank in the low 8 bits, experience in the high 24.

  /** `(rank & 0xFF) | ((exp & 0xFFFFFF) << 8)`; Python's `&` on a negative
      integer keeps its two's-complement low bits, which `%` gives here. */
  function RankWord(rank: int, exp: int): (p: int)
    ensures 0 <= p < 0x1_0000_0000
  {
    rank % 0x100 + 0x100 * (exp % 0x100_0000)
  }

  /** `packed & 0xFF`. */
  function RankOf(p: int): int {
    p % 0x100
  }

  /** `(packed >> 8) & 0xFFFFFF`. */
  function RankExpOf(p: int): int
    requires p >= 0
  {
    (p / 0x100) % 0x100_0000
  }

  /** A word read from the save is written back unchanged. */
  lemma RankWordOfFields(p: int)
    requires 0 <= p < 0x1_0000_0000
    ensures RankWord(RankOf(p), RankExpOf(p)) == p
  {
  }

  /** The rank and experience come back from their word reduced to their widths. */
  lemma RankFieldsOfWord(rank: int, exp: int)
    ensures RankOf(RankWord(rank, exp)) == rank % 0x100
    ensures RankExpOf(RankWord(rank, exp)) == exp % 0x100_0000
  {
  }

  /** The caps of `set_member_rank` and `set_member_rank_exp` keep a
      non-negative rank and experience inside their widths, so they survive a
      write and a read. */
  lemma CappedRankSurvives(rank: int, exp: int)
    requires rank >= 0 && exp >= 0
    ensures RankOf(RankWord(CapRank(rank), CapRankExp(exp))) == CapRank(rank)
    ensures RankExpOf(RankWord(CapRank(rank), CapRankExp(exp))) == CapRankExp(exp)
  {
    RankFieldsOfWord(CapRank(rank), CapRankExp(exp));
  }

  /** `min(rank, 99)`. */
  function CapRank(rank: int): int {
    if rank < MEMBER_RANK_MAX then rank else MEMBER_RANK_MAX
  }

  /** `min(exp, 99999)`. */
  function CapRankExp(exp: int): int {
    if exp < MEMBER_RANK_EXP_MAX then exp else MEMBER_RANK_EXP_MAX
  }

  // ---------------------------------------------------------------------
  // Gender.

  datatype Gender = Male | Female {
    /** `gender.value`. */
    function Value(): int {
      match this
      case Male => 0
      case Female => 1
    }
  }

  /** `Gender(sex)`: a ValueError for anything but 0 and 1. */
  function GenderOf(sex: int): (r: Result<Gender>)
    ensures r.Success? <==> sex == 0 || sex == 1
    ensures r.Success? ==> r.value.Value() == sex
  {
    if sex == 0 then Success(Male) else if sex == 1 then Success(Female) else Failure(OutOfRange)
  }

  /** Every gender reads back from its value. */
  lemma GenderRoundTrip(g: Gender)
    ensures GenderOf(g.Value()) == Success(g)
  {
  }

  // ---------------------------------------------------------------------
  // The record.

  datatype Record = Record(
    id: string, idInt: int, romCode: int, sex: int, padding1: int, pokeLanguageId: int,
    nexUniqueId: int, name: seq<int>, playerIconId: int, nexPrincipalRomId: int,
    memberRank: int, memberRankExp: int, nplnUserId: seq<byte>, isNplnUserIdValid: int,
    birthdayMonth: int, birthdayDay: int, partnerWalkCount: int, padding2: seq<byte>,
    illegalEggCheckVer120: int, eggHatchCount: int, megaPower: seq<byte>, megaEvoTimer: seq<byte>,
    playerHp: int, isBirthdaySet: int, isBirthdayEventView: int, birthdayEventViewYear: int)

  /** A fresh `CoreData()`: id "0", everything else zero (0.0 as a float is four zero bytes). */
  const EMPTY_RECORD := Record("0", 0, 0, 0, 0, 0, 0, ZeroCodes(NAME_LENGTH), 0, 0, 0, 0, Zeros(29), 0,
                               0, 0, 0, Zeros(5), 0, 0, Zeros(4), Zeros(4), 0, 0, 0, 0)

  /** `CoreData.from_bytes`: the fields at their offsets; bytes 118 and 119 are not read. */
  function DecodeRecord(d: seq<byte>): (r: Result<Record>)
    ensures r.Success? <==> |d| == RECORD_SIZE
  {
    if |d| != RECORD_SIZE then Failure(SizeMismatch)
    else
      var idInt := FromLE(d[0..4]);
      var packed := FromLE(d[54..58]);
      Success(Record(ZFill(Decimal(idInt), ID_WIDTH), idInt, FromLE(d[4..5]), FromLE(d[5..6]),
                     FromLE(d[6..7]), FromLE(d[7..8]), FromLE(d[8..16]), Unpack16(d[16..42]),
                     FromLE(d[42..46]), FromLE(d[46..54]), RankOf(packed), RankExpOf(packed),
                     d[58..87], FromLE(d[87..88]), FromLE(d[88..89]), FromLE(d[89..90]),
                     FromLE(d[90..92]), d[92..97], FromLE(d[97..98]), FromLE(d[98..102]),
                     d[102..106], d[106..110], FromLE(d[110..114]), FromLE(d[114..115]),
                     FromLE(d[115..116]), FromLE(d[116..118])))
  }

  /** Whether `struct.pack` and `bytes([...])` accept every numeric field, and
      the name has exactly 13 codes. */
  predicate Packable(r: Record) {
    FitsUnsigned(r.idInt, 4) && FitsUnsigned(r.romCode, 1) && FitsUnsigned(r.sex, 1)
    && FitsUnsigned(r.padding1, 1) && FitsUnsigned(r.pokeLanguageId, 1) && FitsUnsigned(r.nexUniqueId, 8)
    && |r.name| == NAME_LENGTH && AllFit16(r.name)
    && FitsUnsigned(r.playerIconId, 4) && FitsUnsigned(r.nexPrincipalRomId, 8)
    && FitsUnsigned(r.isNplnUserIdValid, 1) && FitsUnsigned(r.birthdayMonth, 1) && FitsUnsigned(r.birthdayDay, 1)
    && FitsUnsigned(r.partnerWalkCount, 2) && FitsUnsigned(r.illegalEggCheckVer120, 1)
    && FitsUnsigned(r.eggHatchCount, 4) && FitsUnsigned(r.playerHp, 4)
    && FitsUnsigned(r.isBirthdaySet, 1) && FitsUnsigned(r.isBirthdayEventView, 1)
    && FitsUnsigned(r.birthdayEventViewYear, 2)
  }

  /** Bytes 0..16: id, ROM code, sex, padding, language, NEX unique id. */
  function Head(r: Record): seq<byte>
    requires Packable(r)
  {
    ToLE(r.idInt, 4) + ToLE(r.romCode, 1) + ToLE(r.sex, 1) + ToLE(r.padding1, 1)
      + ToLE(r.pokeLanguageId, 1) + ToLE(r.nexUniqueId, 8)
  }

  /** Bytes 42..58: icon, NEX principal ROM id, rank word. */
  function Middle(r: Record): seq<byte>
    requires Packable(r)
  {
    ToLE(r.playerIconId, 4) + ToLE(r.nexPrincipalRomId, 8) + ToLE(RankWord(r.memberRank, r.memberRankExp), 4)
  }

  /** Bytes 58..92: NPLN user id, its validity, birthday, partner walk count. */
  function Network(r: Record): seq<byte>
    requires Packable(r)
  {
    r.nplnUserId + ToLE(r.isNplnUserIdValid, 1) + ToLE(r.birthdayMonth, 1) + ToLE(r.birthdayDay, 1)
      + ToLE(r.partnerWalkCount, 2)
  }

  /** Bytes 92..118: padding, egg check, egg count, the two floats, HP, birthday flags and year. */
  function Tail(r: Record): seq<byte>
    requires Packable(r)
  {
    r.padding2 + ToLE(r.illegalEggCheckVer120, 1) + ToLE(r.eggHatchCount, 4) + r.megaPower + r.megaEvoTimer
      + ToLE(r.playerHp, 4) + ToLE(r.isBirthdaySet, 1) + ToLE(r.isBirthdayEventView, 1)
      + ToLE(r.birthdayEventViewYear, 2)
  }

  /** `CoreData.to_bytes` once `idInt` is set: the fields in the order
      `from_bytes` reads them, then two zero bytes. */
  function EncodeRecord(r: Record): (e: Result<seq<byte>>)
    ensures e.Success? <==> Packable(r)
  {
    if !Packable(r) then Failure(OutOfRange)
    else Success(Head(r) + Pack16(r.name) + Middle(r) + Network(r) + Tail(r) + Zeros(2))
  }

  /** With the raw fields at their sizes a record is written as 120 bytes. */
  lemma RecordLength(r: Record)
    requires Packable(r)
    requires |r.nplnUserId| == 29 && |r.padding2| == 5 && |r.megaPower| == 4 && |r.megaEvoTimer| == 4
    ensures |EncodeRecord(r).value| == RECORD_SIZE
  {
  }

  lemma HeadRoundTrip(d: seq<byte>)
    requires |d| == RECORD_SIZE && Packable(DecodeRecord(d).value)
    ensures Head(DecodeRecord(d).value) == d[..16]
  {
    ToFromLE(d[0..4]);
    ToFromLE(d[4..5]);
    ToFromLE(d[5..6]);
    ToFromLE(d[6..7]);
    ToFromLE(d[7..8]);
    ToFromLE(d[8..16]);
    assert Head(DecodeRecord(d).value) == d[0..4] + d[4..5] + d[5..6] + d[6..7] + d[7..8] + d[8..16];
    SliceJoin(d, 0, 4, 5);
    SliceJoin(d, 0, 5, 6);
    SliceJoin(d, 0, 6, 7);
    SliceJoin(d, 0, 7, 8);
    SliceJoin(d, 0, 8, 16);
  }

  lemma MiddleRoundTrip(d: seq<byte>)
    requires |d| == RECORD_SIZE && Packable(DecodeRecord(d).value)
    ensures Middle(DecodeRecord(d).value) == d[42..58]
  {
    var p := FromLE(d[54..58]);
    assert Pow256(4) == 0x1_0000_0000;
    RankWordOfFields(p);
    ToFromLE(d[42..46]);
    ToFromLE(d[46..54]);
    ToFromLE(d[54..58]);
    assert Middle(DecodeRecord(d).value) == d[42..46] + d[46..54] + d[54..58];
    SliceJoin(d, 42, 46, 54);
    SliceJoin(d, 42, 54, 58);
  }

  lemma NetworkRoundTrip(d: seq<byte>)
    requires |d| == RECORD_SIZE && Packable(DecodeRecord(d).value)
    ensures Network(DecodeRecord(d).value) == d[58..92]
  {
    ToFromLE(d[87..88]);
    ToFromLE(d[88..89]);
    ToFromLE(d[89..90]);
    ToFromLE(d[90..92]);
    assert Network(DecodeRecord(d).value) == d[58..87] + d[87..88] + d[88..89] + d[89..90] + d[90..92];
    SliceJoin(d, 58, 87, 88);
    SliceJoin(d, 58, 88, 89);
    SliceJoin(d, 58, 89, 90);
    SliceJoin(d, 58, 90, 92);
  }

  lemma TailRoundTrip(d: seq<byte>)
    requires |d| == RECORD_SIZE && Packable(DecodeRecord(d).value)
    ensures Tail(DecodeRecord(d).value) == d[92..118]
  {
    ToFromLE(d[97..98]);
    ToFromLE(d[98..102]);
    ToFromLE(d[110..114]);
    ToFromLE(d[114..115]);
    ToFromLE(d[115..116]);
    ToFromLE(d[116..118]);
    assert Tail(DecodeRecord(d).value) == d[92..97] + d[97..98] + d[98..102] + d[102..106] + d[106..110]
                                          + d[110..114] + d[114..115] + d[115..116] + d[116..118];
    SliceJoin(d, 92, 97, 98);
    SliceJoin(d, 92, 98, 102);
    SliceJoin(d, 92, 102, 106);
    SliceJoin(d, 92, 106, 110);
    SliceJoin(d, 92, 110, 114);
    SliceJoin(d, 92, 114, 115);
    SliceJoin(d, 92, 115, 116);
    SliceJoin(d, 92, 116, 118);
  }

  /** Every field of a parsed record packs. */
  lemma DecodedPackable(d: seq<byte>)
    requires |d| == RECORD_SIZE
    ensures Packable(DecodeRecord(d).value)
  {
    PackUnpack16(d[16..42]);
  }

  /** A parsed record is written back as the 118 bytes it was read from and two zero bytes. */
  lemma RecordRoundTrip(d: seq<byte>)
    requires |d| == RECORD_SIZE
    ensures EncodeRecord(DecodeRecord(d).value) == Success(d[..118] + Zeros(2))
  {
    var v := DecodeRecord(d).value;
    DecodedPackable(d);
    HeadRoundTrip(d);
    PackUnpack16(d[16..42]);
    MiddleRoundTrip(d);
    NetworkRoundTrip(d);
    TailRoundTrip(d);
    assert EncodeRecord(v) == Success(d[..16] + d[16..42] + d[42..58] + d[58..92] + d[92..118] + Zeros(2));
    PrefixJoin(d, 16, 42);
    PrefixJoin(d, 42, 58);
    PrefixJoin(d, 58, 92);
    PrefixJoin(d, 92, 118);
  }

  /** The id text of a parsed record parses back to the integer it was made
      from, so `to_bytes` recomputes the same integer. */
  lemma ParsedIdRoundTrip(d: seq<byte>)
    requires |d| == RECORD_SIZE
    ensures ParseInt(DecodeRecord(d).value.id) == Success(DecodeRecord(d).value.idInt)
  {
    IdRoundTrip(FromLE(d[0..4]), ID_WIDTH);
  }

  // ---------------------------------------------------------------------
  // The id helpers.

  /** `int(id) & 0xFFFF`: Python's `&` keeps the low 16 bits of the two's
      complement, which is the non-negative remainder. */
  function IdLow(id: string): (r: Result<int>)
    ensures r.Success? <==> ParseInt(id).Success?
    ensures r.Success? ==> 0 <= r.value < 0x1_0000
  {
    match ParseInt(id)
    case Failure(e) => Failure(e)
    case Success(n) => Success(n % 0x1_0000)
  }

  /** `int(id) % 1000000`: Python's `%` by a positive number is never negative. */
  function DrawId(id: string): (r: Result<int>)
    ensures r.Success? <==> ParseInt(id).Success?
    ensures r.Success? ==> 0 <= r.value < 1_000_000
  {
    match ParseInt(id)
    case Failure(e) => Failure(e)
    case Success(n) => Success(n % 1_000_000)
  }

  /** The low 16 bits of a parsed record's id are its first two bytes. */
  lemma IdLowOfParsed(d: seq<byte>)
    requires |d| == RECORD_SIZE
    ensures IdLow(DecodeRecord(d).value.id) == Success(FromLE(d[0..2]))
  {
    var n := FromLE(d[0..4]);
    IdRoundTrip(n, ID_WIDTH);
    LowHalf(d[0..4]);
    assert d[0..4][..2] == d[0..2];
  }

  /** The value of four bytes modulo 2^16 is the value of the first two. */
  lemma LowHalf(s: seq<byte>)
    requires |s| == 4
    ensures FromLE(s) % 0x1_0000 == FromLE(s[..2])
  {
    var b0, b1, hi := s[0] as int, s[1] as int, FromLE(s[2..]);
    var lo := FromLE(s[..2]);
    assert FromLE(s[1..]) == b1 + 256 * hi by {
      assert s[1..][1..] == s[2..];
    }
    assert FromLE(s[1..2]) == b1 by {
      assert s[1..2][1..] == [];
    }
    assert lo == b0 + 256 * FromLE(s[1..2]) by {
      assert s[..2][1..] == s[1..2];
    }
    assert FromLE(s) == lo + 0x1_0000 * hi;
    LowPart(lo, hi);
  }

  lemma LowPart(lo: int, hi: int)
    requires 0 <= lo < 0x1_0000
    ensures (lo + 0x1_0000 * hi) % 0x1_0000 == lo
  {
  }

  /** What `set_id` stores: text as it is, an integer as `str(n).zfill(10)`. */
  datatype IdValue = Text(text: string) | Number(n: int)

  function IdText(v: IdValue): string {
    match v
    case Text(s) => s
    case Number(n) => ZFill(Decimal(n), ID_WIDTH)
  }

  /** An id set from an integer reads back as that integer. */
  lemma NumberIdRoundTrip(n: int)
    ensures ParseInt(IdText(Number(n))) == Success(n)
  {
    IdRoundTrip(n, ID_WIDTH);
  }

  // ---------------------------------------------------------------------
  // The objects the program works with.

  /** The player's core record. */
  class CoreData {
    var id: string
    var idInt: int
    var romCode: int
    var sex: int
    var padding1: int
    var pokeLanguageId: int
    var nexUniqueId: int
    var name: seq<int>
    var playerIconId: int
    var nexPrincipalRomId: int
    var memberRank: int
    var memberRankExp: int
    var nplnUserId: seq<byte>
    var isNplnUserIdValid: int
    var birthdayMonth: int
    var birthdayDay: int
    var partnerWalkCount: int
    var padding2: seq<byte>
    var illegalEggCheckVer120: int
    var eggHatchCount: int
    var megaPower: seq<byte>
    var megaEvoTimer: seq<byte>
    var playerHp: int
    var isBirthdaySet: int
    var isBirthdayEventView: int
    var birthdayEventViewYear: int

    function Value(): Record
      reads this
    {
      Record(id, idInt, romCode, sex, padding1, pokeLanguageId,
             nexUniqueId, name, playerIconId, nexPrincipalRomId, memberRank, memberRankExp,
             nplnUserId, isNplnUserIdValid, birthdayMonth, birthdayDay, partnerWalkCount, padding2,
             illegalEggCheckVer120, eggHatchCount, megaPower, megaEvoTimer, playerHp, isBirthdaySet,
             isBirthdayEventView, birthdayEventViewYear)
    }

    /** A record with id "0" and everything else zero. */
    constructor ()
      ensures Value() == EMPTY_RECORD
    {
      id, idInt, romCode, sex, padding1, pokeLanguageId := "0", 0, 0, 0, 0, 0;
      nexUniqueId, name, playerIconId, nexPrincipalRomId := 0, ZeroCodes(NAME_LENGTH), 0, 0;
      memberRank, memberRankExp, nplnUserId, isNplnUserIdValid := 0, 0, Zeros(29), 0;
      birthdayMonth, birthdayDay, partnerWalkCount, padding2 := 0, 0, 0, Zeros(5);
      illegalEggCheckVer120, eggHatchCount, megaPower, megaEvoTimer := 0, 0, Zeros(4), Zeros(4);
      playerHp, isBirthdaySet, isBirthdayEventView, birthdayEventViewYear := 0, 0, 0, 0;
    }

    /** A record holding the given field values, as `from_bytes` leaves one
        after setting its fields one by one. */
    constructor FromRecord(r: Record)
      ensures Value() == r
    {
      id := r.id;
      idInt := r.idInt;
      romCode := r.romCode;
      sex := r.sex;
      padding1 := r.padding1;
      pokeLanguageId := r.pokeLanguageId;
      nexUniqueId := r.nexUniqueId;
      name := r.name;
      playerIconId := r.playerIconId;
      nexPrincipalRomId := r.nexPrincipalRomId;
      memberRank := r.memberRank;
      memberRankExp := r.memberRankExp;
      nplnUserId := r.nplnUserId;
      isNplnUserIdValid := r.isNplnUserIdValid;
      birthdayMonth := r.birthdayMonth;
      birthdayDay := r.birthdayDay;
      partnerWalkCount := r.partnerWalkCount;
      padding2 := r.padding2;
      illegalEggCheckVer120 := r.illegalEggCheckVer120;
      eggHatchCount := r.eggHatchCount;
      megaPower := r.megaPower;
      megaEvoTimer := r.megaEvoTimer;
      playerHp := r.playerHp;
      isBirthdaySet := r.isBirthdaySet;
      isBirthdayEventView := r.isBirthdayEventView;
      birthdayEventViewYear := r.birthdayEventViewYear;
    }

    /** `CoreData.from_bytes`: a new record read from exactly 120 bytes. */
    static method FromBytes(data: seq<byte>) returns (r: Result<CoreData>)
      ensures r.Success? <==> |data| == RECORD_SIZE
      ensures r.Success? ==> fresh(r.value) && DecodeRecord(data) == Success(r.value.Value())
    {
      if |data| != RECORD_SIZE {
        return Failure(SizeMismatch);
      }
      var core := new CoreData.FromRecord(DecodeRecord(data).value);
      r := Success(core);
    }

    /** `to_bytes`: first `idInt := int(id)` (a ValueError leaves the record
        as it was), then every field packed. */
    method ToBytes() returns (r: Result<seq<byte>>)
      modifies this
      ensures ParseInt(old(id)).Failure? ==> r == Failure(NotANumber) && Value() == old(Value())
      ensures ParseInt(old(id)).Success? ==> Value() == old(Value()).(idInt := ParseInt(old(id)).value)
      ensures ParseInt(old(id)).Success? ==> r == EncodeRecord(Value())
    {
      var parsed := ParseInt(id);
      if parsed.Failure? {
        return Failure(parsed.error);
      }
      idInt := parsed.value;
      r := EncodeRecord(Value());
    }

    /** `set_name_string` on the UTF-16-LE bytes of the name: zero-padded to
        26 bytes and read back as 13 codes. */
    method SetNameString(encoded: seq<byte>)
      modifies this
      ensures Value() == old(Value()).(name := NameCodes(encoded))
    {
      var codes := ReadNameCodes(LJust(encoded, 26));
      name := codes[..NAME_LENGTH];
    }

    /** The loop of `set_name_string`: a code for each pair of bytes among the
        first 26 of the padded name. */
    static method ReadNameCodes(padded: seq<byte>) returns (codes: seq<int>)
      requires |padded| >= 26
      ensures codes == Unpack16(padded[..26]) && |codes| == NAME_LENGTH
    {
      codes := [];
      var i := 0;
      while i < 26
        invariant 0 <= i <= 26 && i % 2 == 0
        invariant codes == Unpack16(padded[..i])
      {
        if i + 1 < |padded| {
          NextCode(padded, i);
          codes := codes + [FromLE(padded[i..i + 2])];
        }
        i := i + 2;
      }
    }

    /** `get_gender`. */
    function GetGender(): Result<Gender>
      reads this
    {
      GenderOf(sex)
    }

    /** `set_gender`. */
    method SetGender(gender: Gender)
      modifies this
      ensures Value() == old(Value()).(sex := gender.Value())
      ensures GetGender() == Success(gender)
    {
      sex := gender.Value();
    }

    /** `is_valid_nex_unique_id`. */
    function IsValidNexUniqueId(): bool
      reads this
    {
      nexUniqueId != 0
    }

    /** `is_valid_nex_principal_rom_id`. */
    function IsValidNexPrincipalRomId(): bool
      reads this
    {
      nexPrincipalRomId != 0
    }

    /** `is_valid_npln_user_id`. */
    function IsValidNplnUserId(): bool
      reads this
    {
      isNplnUserIdValid != 0
    }

    /** `get_id_low`. */
    function GetIdLow(): Result<int>
      reads this
    {
      IdLow(id)
    }

    /** `get_draw_id`. */
    function GetDrawId(): Result<int>
      reads this
    {
      DrawId(id)
    }

    /** `get_id_int`. */
    function GetIdInt(): Result<int>
      reads this
    {
      ParseInt(id)
    }

    /** `set_id`. */
    method SetId(idValue: IdValue)
      modifies this
      ensures Value() == old(Value()).(id := IdText(idValue))
    {
      id := IdText(idValue);
    }
  }

  /** One more pair of bytes read from a padded name adds one code. */
  lemma NextCode(padded: seq<byte>, i: nat)
    requires i + 2 <= |padded| && i % 2 == 0
    ensures Unpack16(padded[..i + 2]) == Unpack16(padded[..i]) + [FromLE(padded[i..i + 2])]
  {
    var s := padded[..i + 2];
    assert s[..|s| - 2] == padded[..i] && s[|s| - 2..] == padded[i..i + 2];
  }

  /** The accessor the rest of the program goes through. */
  class UserDataSaveDataAccessor {
    var coreData: CoreData

    constructor ()
      ensures fresh(coreData) && coreData.Value() == EMPTY_RECORD
    {
      coreData := new CoreData();
    }

    /** An accessor over the given record. */
    constructor Of(coreData: CoreData)
      ensures this.coreData == coreData
    {
      this.coreData := coreData;
    }

    /** `UserDataSaveDataAccessor.from_bytes`. */
    static method FromBytes(data: seq<byte>) returns (r: Result<UserDataSaveDataAccessor>)
      ensures r.Success? <==> |data| == RECORD_SIZE
      ensures r.Success? ==> fresh(r.value) && DecodeRecord(data) == Success(r.value.coreData.Value())
    {
      var parsed := CoreData.FromBytes(data);
      if parsed.Failure? {
        return Failure(parsed.error);
      }
      var accessor := new UserDataSaveDataAccessor.Of(parsed.value);
      r := Success(accessor);
    }

    /** `to_bytes`. */
    method ToBytes() returns (r: Result<seq<byte>>)
      modifies coreData
      ensures ParseInt(old(coreData.id)).Failure? ==> r == Failure(NotANumber) && coreData.Value() == old(coreData.Value())
      ensures ParseInt(old(coreData.id)).Success? ==>
                coreData.Value() == old(coreData.Value()).(idInt := ParseInt(old(coreData.id)).value)
                && r == EncodeRecord(coreData.Value())
    {
      r := coreData.ToBytes();
    }

    /** `get_id`. */
    function GetId(): string
      reads this, coreData
    {
      coreData.id
    }

    /** `set_id`. */
    method SetId(idValue: IdValue)
      modifies coreData
      ensures coreData.Value() == old(coreData.Value()).(id := IdText(idValue))
    {
      coreData.SetId(idValue);
    }

    /** `set_member_rank`: capped at 99. */
    method SetMemberRank(rank: int)
      modifies coreData
      ensures coreData.Value() == old(coreData.Value()).(memberRank := CapRank(rank))
    {
      coreData.memberRank := CapRank(rank);
    }

    /** `set_member_rank_exp`: capped at 99999. */
    method SetMemberRankExp(exp: int)
      modifies coreData
      ensures coreData.Value() == old(coreData.Value()).(memberRankExp := CapRankExp(exp))
    {
      coreData.memberRankExp := CapRankExp(exp);
    }

    /** `set_birthday`: month and day, and the birthday marked as set. */
    method SetBirthday(month: int, day: int)
      modifies coreData
      ensures coreData.Value() == old(coreData.Value()).(birthdayMonth := month, birthdayDay := day, isBirthdaySet := 1)
    {
      coreData.birthdayMonth := month;
      coreData.birthdayDay := day;
      coreData.isBirthdaySet := 1;
    }

    /** `update_partner_walk_count`: adds to the count, without a cap. */
    method UpdatePartnerWalkCount(count: int)
      modifies coreData
      ensures coreData.Value() == old(coreData.Value()).(partnerWalkCount := old(coreData.partnerWalkCount) + count)
    {
      coreData.partnerWalkCount := coreData.partnerWalkCount + count;
    }

    /** `reset_partner_walk_count`. */
    method ResetPartnerWalkCount()
      modifies coreData
      ensures coreData.Value() == old(coreData.Value()).(partnerWalkCount := 0)
    {
      coreData.partnerWalkCount := 0;
    }

    /** `is_illegal_egg_check_ver120_finished`. */
    function IsIllegalEggCheckVer120Finished(): bool
      reads this, coreData
    {
      coreData.illegalEggCheckVer120 != 0
    }

    /** `set_illegal_egg_check_ver120`: stores exactly 1 or 0. */
    method SetIllegalEggCheckVer120(flag: bool)
      modifies coreData
      ensures coreData.Value() == old(coreData.Value()).(illegalEggCheckVer120 := if flag then 1 else 0)
      ensures IsIllegalEggCheckVer120Finished() == flag
    {
      coreData.illegalEggCheckVer120 := if flag then 1 else 0;
    }
  }
}
