/** The Pokédex save record: 1210 per-species records of 132 bytes (capture,
    battle and shiny flag words, per-form counters, display data) followed by
    a 128-byte reserve, and the accessor the program reads it through.

    The species record is read with two padding bytes after its 18 bytes of
    flags (the reserve byte comes from offset 20) but written without them:
    `to_bytes` puts the reserve byte at offset 18 and pads the end with zeros.
    The model keeps that layout as the program has it, and `CoreRoundTrip`
    states exactly what a read followed by a write gives. */
module Pokedex {
  import opened Wrappers
  import opened Bytes
  import opened BitFlags

  const DRAW_SIZE: nat := 8
  const CORE_SIZE: nat := 132
  const FORM_MAX: nat := 8
  const FLAG_BITS: nat := 32
  const COUNT_MAX: int := 255
  const DEV_NO_MAX: nat := 1210
  const DEX_RESERVE_OFFSET: nat := 159720
  const DEX_SIZE: nat := 159848

  /** The kinds of Pokédex; the program has one. */
  datatype PokedexKind = BaseGame

  // ---------------------------------------------------------------------
  // Byte-sized integer lists (`struct.unpack('<8B', ...)`, `struct.pack('<8B', *ns)`).

  /** The values of a byte string, one integer per byte. */
  function ByteValues(s: seq<byte>): (ns: seq<int>)
    ensures |ns| == |s| && forall i :: 0 <= i < |s| ==> ns[i] == s[i] as int
  {
    seq(|s|, i requires 0 <= i < |s| => s[i] as int)
  }

  /** Whether every integer fits an unsigned byte. */
  predicate AllBytes(ns: seq<int>) {
    forall i :: 0 <= i < |ns| ==> 0 <= ns[i] < 256
  }

  /** The bytes of a list of byte-sized integers. */
  function PackBytes(ns: seq<int>): (s: seq<byte>)
    requires AllBytes(ns)
    ensures |s| == |ns| && forall i :: 0 <= i < |ns| ==> s[i] as int == ns[i]
  {
    seq(|ns|, i requires 0 <= i < |ns| => ByteOfNat(ns[i]))
  }

  lemma PackByteValues(s: seq<byte>)
    ensures AllBytes(ByteValues(s)) && PackBytes(ByteValues(s)) == s
  {
    var t := PackBytes(ByteValues(s));
    forall i | 0 <= i < |s|
      ensures t[i] == s[i]
    {
      ByteOfNatOfByte(s[i]);
    }
  }

  // ---------------------------------------------------------------------
  // Display data: five byte fields and a 3-byte reserve.

  datatype Draw = Draw(form: int, sex: int, rare: int, mega: int, other: int, reserve: seq<byte>)

  const EMPTY_DRAW := Draw(0, 0, 0, 0, 0, Zeros(3))

  /** `DrawData.from_bytes`. */
  function DecodeDraw(d: seq<byte>): (r: Result<Draw>)
    ensures r.Success? <==> |d| == DRAW_SIZE
  {
    if |d| != DRAW_SIZE then Failure(SizeMismatch)
    else Success(Draw(d[0] as int, d[1] as int, d[2] as int, d[3] as int, d[4] as int, d[5..8]))
  }

  predicate DrawPackable(w: Draw) {
    AllBytes([w.form, w.sex, w.rare, w.mega, w.other])
  }

  /** `DrawData.to_bytes`. */
  function EncodeDraw(w: Draw): (r: Result<seq<byte>>)
    ensures r.Success? <==> DrawPackable(w)
    ensures r.Success? ==> |r.value| == 5 + |w.reserve|
  {
    if !DrawPackable(w) then Failure(OutOfRange)
    else Success(PackBytes([w.form, w.sex, w.rare, w.mega, w.other]) + w.reserve)
  }

  lemma DrawBytesRoundTrip(d: seq<byte>)
    requires |d| == DRAW_SIZE
    ensures EncodeDraw(DecodeDraw(d).value) == Success(d)
  {
    var w := DecodeDraw(d).value;
    assert [w.form, w.sex, w.rare, w.mega, w.other] == ByteValues(d[..5]);
    PackByteValues(d[..5]);
    PrefixJoin(d, 5, 8);
    assert d[..8] == d;
  }

  lemma DrawValueRoundTrip(w: Draw)
    requires DrawPackable(w) && |w.reserve| == 3
    ensures DecodeDraw(EncodeDraw(w).value) == Success(w)
  {
    var s := EncodeDraw(w).value;
    var p := PackBytes([w.form, w.sex, w.rare, w.mega, w.other]);
    assert s == p + w.reserve;
    assert s[0] == p[0] && s[1] == p[1] && s[2] == p[2] && s[3] == p[3] && s[4] == p[4];
    assert s[5..8] == w.reserve;
  }

  // ---------------------------------------------------------------------
  // One species record.

  datatype Core = Core(capture: bv32, battle: bv32, language: int, newFlag: int, sex: int,
                       rare: bv32, mega: int, alpha: int, reserve: seq<byte>,
                       captureNum: seq<int>, defeatNum: seq<int>, dlcReserve: seq<byte>,
                       draw: Draw, drawReserve: seq<byte>)

  /** A fresh `PokedexCoreData()`: everything zero. */
  const EMPTY_CORE := Core(0, 0, 0, 0, 0, 0, 0, 0, Zeros(1), [0, 0, 0, 0, 0, 0, 0, 0],
                           [0, 0, 0, 0, 0, 0, 0, 0], Zeros(7), EMPTY_DRAW, Zeros(32))

  /** `PokedexCoreData.from_bytes`: flags from bytes 0..18, the rest from byte 20 on. */
  function DecodeCore(d: seq<byte>): (r: Result<Core>)
    ensures r.Success? <==> |d| == CORE_SIZE
  {
    if |d| != CORE_SIZE then Failure(SizeMismatch)
    else Success(Core(Word32(d[..4]), Word32(d[4..8]), FromLE(d[8..10]), d[10] as int, d[11] as int,
                      Word32(d[12..16]), d[16] as int, d[17] as int, d[20..21],
                      ByteValues(d[21..29]), ByteValues(d[29..37]), d[37..44],
                      DecodeDraw(d[44..52]).value, d[52..84]))
  }

  /** Whether `struct.pack` accepts every numeric field: the u16 language word,
      the four byte flags, exactly eight byte-sized counters of each kind, and
      the display data. */
  predicate CorePackable(c: Core) {
    FitsUnsigned(c.language, 2) && AllBytes([c.newFlag, c.sex]) && AllBytes([c.mega, c.alpha])
    && |c.captureNum| == FORM_MAX && AllBytes(c.captureNum)
    && |c.defeatNum| == FORM_MAX && AllBytes(c.defeatNum)
    && DrawPackable(c.draw)
  }

  /** `struct.pack('<I I H B B I B B', ...)`: the 18 bytes of flags. */
  function EncodeFlags(c: Core): (s: seq<byte>)
    requires CorePackable(c)
  {
    LE32(c.capture) + LE32(c.battle) + ToLE(c.language, 2) + PackBytes([c.newFlag, c.sex])
      + LE32(c.rare) + PackBytes([c.mega, c.alpha])
  }

  /** The fields `to_bytes` writes one after another, before padding. */
  function CoreFields(c: Core): seq<byte>
    requires CorePackable(c)
  {
    EncodeFlags(c) + c.reserve + PackBytes(c.captureNum) + PackBytes(c.defeatNum) + c.dlcReserve
      + EncodeDraw(c.draw).value + c.drawReserve
  }

  /** Zero padding up to n bytes; a longer string is left as it is. */
  function PadTo(s: seq<byte>, n: nat): seq<byte> {
    if |s| < n then s + Zeros(n - |s|) else s
  }

  /** `PokedexCoreData.to_bytes`. */
  function EncodeCore(c: Core): (r: Result<seq<byte>>)
    ensures r.Success? <==> CorePackable(c)
  {
    if !CorePackable(c) then Failure(OutOfRange) else Success(PadTo(CoreFields(c), CORE_SIZE))
  }

  /** With the reserves at their sizes, a record is written as 82 field bytes and 50 zeros. */
  lemma CoreLength(c: Core)
    requires CorePackable(c)
    requires |c.reserve| == 1 && |c.dlcReserve| == 7 && |c.draw.reserve| == 3 && |c.drawReserve| == 32
    ensures |CoreFields(c)| == 82
    ensures EncodeCore(c) == Success(CoreFields(c) + Zeros(50))
    ensures |EncodeCore(c).value| == CORE_SIZE
  {
  }

  /** The 18 flag bytes are written back as they were read. */
  lemma FlagsRoundTrip(d: seq<byte>)
    requires |d| == CORE_SIZE
    ensures CorePackable(DecodeCore(d).value)
    ensures EncodeFlags(DecodeCore(d).value) == d[..18]
  {
    var c := DecodeCore(d).value;
    DrawBytesRoundTrip(d[44..52]);
    LE32OfWord(d[..4]);
    LE32OfWord(d[4..8]);
    LE32OfWord(d[12..16]);
    ToFromLE(d[8..10]);
    assert [c.newFlag, c.sex] == ByteValues(d[10..12]);
    assert [c.mega, c.alpha] == ByteValues(d[16..18]);
    PackByteValues(d[10..12]);
    PackByteValues(d[16..18]);
    PrefixJoin(d, 4, 8);
    PrefixJoin(d, 8, 10);
    PrefixJoin(d, 10, 12);
    PrefixJoin(d, 12, 16);
    PrefixJoin(d, 16, 18);
  }

  /** The fields after the flags are written back from offset 18 although they
      were read from offset 20. */
  lemma TailRoundTrip(d: seq<byte>)
    requires |d| == CORE_SIZE
    ensures CorePackable(DecodeCore(d).value)
    ensures CoreFields(DecodeCore(d).value) == d[..18] + d[20..84]
  {
    var c := DecodeCore(d).value;
    FlagsRoundTrip(d);
    PackByteValues(d[21..29]);
    PackByteValues(d[29..37]);
    DrawBytesRoundTrip(d[44..52]);
    var p := d[..18];
    assert CoreFields(c) == p + d[20..21] + d[21..29] + d[29..37] + d[37..44] + d[44..52] + d[52..84];
    Extend(p, d, 20, 21, 29);
    Extend(p, d, 20, 29, 37);
    Extend(p, d, 20, 37, 44);
    Extend(p, d, 20, 44, 52);
    Extend(p, d, 20, 52, 84);
  }

  /** Reading a record and writing it back gives its first 18 bytes, then bytes
      20..84 moved two places down, then 50 zeros: the two padding bytes after
      the flags are dropped and bytes 84..132 are not kept. */
  lemma CoreRoundTrip(d: seq<byte>)
    requires |d| == CORE_SIZE
    ensures EncodeCore(DecodeCore(d).value) == Success(d[..18] + d[20..84] + Zeros(50))
  {
    TailRoundTrip(d);
  }

  /** What does survive writing and reading back: the flag words and byte flags,
      which sit in the first 18 bytes both ways. */
  lemma FlagFieldsSurvive(c: Core)
    requires CorePackable(c)
    requires |c.reserve| == 1 && |c.dlcReserve| == 7 && |c.draw.reserve| == 3 && |c.drawReserve| == 32
    ensures var r := DecodeCore(EncodeCore(c).value).value;
      r.capture == c.capture && r.battle == c.battle && r.language == c.language
      && r.newFlag == c.newFlag && r.sex == c.sex && r.rare == c.rare && r.mega == c.mega && r.alpha == c.alpha
  {
    CoreLength(c);
    var s := EncodeCore(c).value;
    var f := EncodeFlags(c);
    assert s[..18] == f;
    FlagSlices(c);
    SameFlagBytes(s, f);
  }

  /** Bytes that start with the 18 flag bytes f hold f's fields. */
  lemma SameFlagBytes(s: seq<byte>, f: seq<byte>)
    requires |s| >= 18 && s[..18] == f
    ensures s[..4] == f[..4] && s[4..8] == f[4..8] && s[8..10] == f[8..10] && s[12..16] == f[12..16]
    ensures s[10] == f[10] && s[11] == f[11] && s[16] == f[16] && s[17] == f[17]
  {
  }

  /** Where each flag field sits in the 18 flag bytes. */
  lemma FlagSlices(c: Core)
    requires CorePackable(c)
    ensures var f := EncodeFlags(c);
      Word32(f[..4]) == c.capture && Word32(f[4..8]) == c.battle && FromLE(f[8..10]) == c.language
      && f[10] as int == c.newFlag && f[11] as int == c.sex && Word32(f[12..16]) == c.rare
      && f[16] as int == c.mega && f[17] as int == c.alpha
  {
    var f := EncodeFlags(c);
    var a, b, l, n, r, m := LE32(c.capture), LE32(c.battle), ToLE(c.language, 2),
                            PackBytes([c.newFlag, c.sex]), LE32(c.rare), PackBytes([c.mega, c.alpha]);
    assert f == a + b + l + n + r + m;
    assert f[..4] == a && f[4..8] == b && f[8..10] == l && f[12..16] == r;
    assert f[10] == n[0] && f[11] == n[1] && f[16] == m[0] && f[17] == m[1];
    WordOfLE32(c.capture);
    WordOfLE32(c.battle);
    WordOfLE32(c.rare);
    FromToLE(c.language, 2);
  }

  // ---------------------------------------------------------------------
  // The whole Pokédex: 1210 records, then a 128-byte reserve.

  datatype Dex = Dex(entries: seq<Core>, reserve: seq<byte>)

  /** The records parsed from the first n 132-byte slices. */
  function DecodedCores(d: seq<byte>, n: nat): (cs: seq<Core>)
    requires 132 * n <= |d|
    ensures |cs| == n
  {
    if n == 0 then [] else DecodedCores(d, n - 1) + [DecodeCore(d[132 * (n - 1)..132 * n]).value]
  }

  /** `PokedexData.from_bytes` on a byte string. */
  function DecodeDex(d: seq<byte>): (r: Result<Dex>)
    ensures r.Success? <==> |d| == DEX_SIZE
  {
    if |d| != DEX_SIZE then Failure(SizeMismatch)
    else Success(Dex(DecodedCores(d, DEV_NO_MAX), d[DEX_RESERVE_OFFSET..]))
  }

  /** The records serialised one after another; the first that does not pack fails the lot. */
  function EncodeCores(cs: seq<Core>): Result<seq<byte>> {
    if |cs| == 0 then Success([])
    else
      match EncodeCores(cs[..|cs| - 1])
      case Failure(e) => Failure(e)
      case Success(front) =>
        match EncodeCore(cs[|cs| - 1])
        case Failure(e) => Failure(e)
        case Success(last) => Success(front + last)
  }

  /** `PokedexData.to_bytes` on a Pokédex value. */
  function EncodeDex(x: Dex): Result<seq<byte>> {
    match EncodeCores(x.entries)
    case Failure(e) => Failure(e)
    case Success(body) => Success(body + x.reserve)
  }

  /** What writing back one parsed record gives (see `CoreRoundTrip`). */
  function Shifted(s: seq<byte>): seq<byte>
    requires |s| == CORE_SIZE
  {
    s[..18] + s[20..84] + Zeros(50)
  }

  /** What writing back the first n parsed records gives. */
  function CanonCores(d: seq<byte>, n: nat): (s: seq<byte>)
    requires 132 * n <= |d|
    ensures |s| == 132 * n
  {
    if n == 0 then [] else CanonCores(d, n - 1) + Shifted(d[132 * (n - 1)..132 * n])
  }

  /** Record i of a parsed Pokédex is the record in bytes [132i, 132i + 132). */
  lemma DecodedCoreAt(d: seq<byte>, n: nat, i: nat)
    requires 132 * n <= |d| && i < n
    ensures DecodedCores(d, n)[i] == DecodeCore(d[132 * i..132 * (i + 1)]).value
  {
    CoresPrefix(d, n, i + 1);
    LastCore(d, i);
    assert DecodedCores(d, n)[i] == DecodedCores(d, n)[..i + 1][i];
  }

  /** The last parsed record is the last slice parsed. */
  lemma LastCore(d: seq<byte>, i: nat)
    requires 132 * (i + 1) <= |d|
    ensures DecodedCores(d, i + 1)[i] == DecodeCore(d[132 * i..132 * (i + 1)]).value
  {
  }

  /** Parsing more records leaves the first m as they were. */
  lemma {:induction false} CoresPrefix(d: seq<byte>, n: nat, m: nat)
    requires 132 * n <= |d| && m <= n
    ensures DecodedCores(d, n)[..m] == DecodedCores(d, m)
  {
    if m < n {
      CoresPrefix(d, n - 1, m);
      EarlierCores(d, n, m);
    } else {
      assert DecodedCores(d, n)[..m] == DecodedCores(d, n);
    }
  }

  /** Parsing one more record leaves the earlier ones as they were. */
  lemma EarlierCores(d: seq<byte>, n: nat, m: nat)
    requires 132 * n <= |d| && m < n
    ensures DecodedCores(d, n)[..m] == DecodedCores(d, n - 1)[..m]
  {
  }

  lemma {:induction false} CoresRoundTrip(d: seq<byte>, n: nat)
    requires 132 * n <= |d|
    ensures EncodeCores(DecodedCores(d, n)) == Success(CanonCores(d, n))
  {
    if n > 0 {
      CoresRoundTrip(d, n - 1);
      CoresStep(d, n);
    }
  }

  lemma CoresStep(d: seq<byte>, n: nat)
    requires 0 < n && 132 * n <= |d|
    requires EncodeCores(DecodedCores(d, n - 1)) == Success(CanonCores(d, n - 1))
    ensures EncodeCores(DecodedCores(d, n)) == Success(CanonCores(d, n))
  {
    var slice := d[132 * (n - 1)..132 * n];
    CoreRoundTrip(slice);
    EncodeCoresSnoc(DecodedCores(d, n - 1), DecodeCore(slice).value, CanonCores(d, n - 1), Shifted(slice));
  }

  lemma EncodeCoresSnoc(front: seq<Core>, x: Core, a: seq<byte>, b: seq<byte>)
    requires EncodeCores(front) == Success(a) && EncodeCore(x) == Success(b)
    ensures EncodeCores(front + [x]) == Success(a + b)
  {
    LastOfSnoc(front, x);
  }

  /** A parsed Pokédex is written back as 159848 bytes: every record shifted as
      `CoreRoundTrip` says, then the reserve as read. */
  lemma DexRoundTrip(d: seq<byte>)
    requires |d| == DEX_SIZE
    ensures EncodeDex(DecodeDex(d).value) == Success(CanonCores(d, DEV_NO_MAX) + d[DEX_RESERVE_OFFSET..])
    ensures |CanonCores(d, DEV_NO_MAX) + d[DEX_RESERVE_OFFSET..]| == DEX_SIZE
  {
    CoresRoundTrip(d, DEV_NO_MAX);
  }

  /** The number of records with a nonzero capture word. */
  function CountCaptured(cs: seq<Core>): (n: nat)
    ensures n <= |cs|
  {
    if |cs| == 0 then 0
    else CountCaptured(cs[..|cs| - 1]) + (if cs[|cs| - 1].capture != 0 then 1 else 0)
  }

  /** The number of records with a nonzero shiny word. */
  function CountShiny(cs: seq<Core>): (n: nat)
    ensures n <= |cs|
  {
    if |cs| == 0 then 0
    else CountShiny(cs[..|cs| - 1]) + (if cs[|cs| - 1].rare != 0 then 1 else 0)
  }

  /** A count is zero exactly when no record has the word set, and the full
      count exactly when every record has it. */
  lemma {:induction false} CountCapturedExtremes(cs: seq<Core>)
    ensures CountCaptured(cs) == 0 <==> forall i :: 0 <= i < |cs| ==> cs[i].capture == 0
    ensures CountCaptured(cs) == |cs| <==> forall i :: 0 <= i < |cs| ==> cs[i].capture != 0
  {
    if |cs| > 0 {
      var front := cs[..|cs| - 1];
      CountCapturedExtremes(front);
      assert forall i :: 0 <= i < |front| ==> front[i] == cs[i];
    }
  }

  // ---------------------------------------------------------------------
  // Per-form flags and counters of one record.

  /** `is_captured` / `is_battled` / `is_shiny` on a flag word: bit i, and
      false for an index outside 0..31. */
  function FormFlag(word: bv32, i: int): bool {
    0 <= i < FLAG_BITS && Has(word, Bit(BitIndex(i)))
  }

  /** `set_captured` / `set_battled` / `set_shiny` on a flag word: bit i set or
      cleared; an index outside 0..31 leaves the word as it is. */
  function WithFormFlag(word: bv32, i: int, value: bool): bv32 {
    if 0 <= i < FLAG_BITS then With(word, Bit(BitIndex(i)), value) else word
  }

  /** Setting form i's flag makes it read back as set and leaves every other form's flag alone. */
  lemma FormFlagUpdate(word: bv32, i: int, value: bool, j: int)
    ensures FormFlag(WithFormFlag(word, i, value), j) == if j == i && 0 <= i < FLAG_BITS then value else FormFlag(word, j)
  {
    if 0 <= i < FLAG_BITS && 0 <= j < FLAG_BITS {
      WithBit(word, BitIndex(i), value, BitIndex(j));
    }
  }

  /** `min(count, 255)`: a counter is capped at the byte maximum (but not at zero). */
  function Capped(count: int): int {
    if count < COUNT_MAX then count else COUNT_MAX
  }

  /** `get_capture_count` / `get_defeat_count`: counter i, and 0 outside 0..7. */
  function FormCount(ns: seq<int>, i: int): int
    requires |ns| == FORM_MAX
  {
    if 0 <= i < FORM_MAX then ns[i] else 0
  }

  /** `set_capture_count` / `set_defeat_count`: counter i replaced by the capped
      count; an index outside 0..7 leaves the counters as they are. */
  function WithFormCount(ns: seq<int>, i: int, count: int): (ms: seq<int>)
    requires |ns| == FORM_MAX
    ensures |ms| == FORM_MAX
  {
    if 0 <= i < FORM_MAX then ns[i := Capped(count)] else ns
  }

  /** A counter reads back as the capped count and the other counters are unchanged. */
  lemma FormCountUpdate(ns: seq<int>, i: int, count: int, j: int)
    requires |ns| == FORM_MAX
    ensures FormCount(WithFormCount(ns, i, count), j)
            == if j == i && 0 <= i < FORM_MAX then Capped(count) else FormCount(ns, j)
    ensures 0 <= i < FORM_MAX ==> FormCount(WithFormCount(ns, i, count), i) <= COUNT_MAX
  {
  }

  /** A non-negative count keeps a record writable: the cap keeps it in a byte. */
  lemma CountKeepsPackable(c: Core, i: int, count: int)
    requires CorePackable(c) && count >= 0
    ensures CorePackable(c.(captureNum := WithFormCount(c.captureNum, i, count)))
    ensures CorePackable(c.(defeatNum := WithFormCount(c.defeatNum, i, count)))
  {
  }

  /** A negative count is stored as it is, and the record no longer writes. */
  lemma NegativeCountBreaksPacking(c: Core, i: int, count: int)
    requires |c.captureNum| == FORM_MAX && 0 <= i < FORM_MAX && count < 0
    ensures EncodeCore(c.(captureNum := WithFormCount(c.captureNum, i, count))).Failure?
  {
    assert WithFormCount(c.captureNum, i, count)[i] == count;
  }

  // ---------------------------------------------------------------------
  // The objects the program works with.

  /** One species record. The display data is held as a value. */
  class PokedexCoreData {
    var capture: bv32
    var battle: bv32
    var language: int
    var newFlag: int
    var sex: int
    var rare: bv32
    var mega: int
    var alpha: int
    var reserve: seq<byte>
    var captureNum: seq<int>
    var defeatNum: seq<int>
    var dlcReserve: seq<byte>
    var draw: Draw
    var drawReserve: seq<byte>

    function Value(): Core
      reads this
    {
      Core(capture, battle, language, newFlag, sex, rare, mega, alpha, reserve,
           captureNum, defeatNum, dlcReserve, draw, drawReserve)
    }

    /** Eight counters of each kind, as every record is made. */
    predicate Valid()
      reads this
    {
      |captureNum| == FORM_MAX && |defeatNum| == FORM_MAX
    }

    /** A record with everything zero. */
    constructor ()
      ensures Value() == EMPTY_CORE && Valid()
    {
      capture, battle, language, newFlag, sex, rare, mega, alpha := 0, 0, 0, 0, 0, 0, 0, 0;
      reserve, dlcReserve, drawReserve := Zeros(1), Zeros(7), Zeros(32);
      captureNum, defeatNum := [0, 0, 0, 0, 0, 0, 0, 0], [0, 0, 0, 0, 0, 0, 0, 0];
      draw := EMPTY_DRAW;
    }

    /** A record holding the given field values, as `from_bytes` leaves one
        after setting its fields one by one. */
    constructor FromCore(c: Core)
      ensures Value() == c
    {
      capture, battle, language, newFlag, sex, rare, mega, alpha :=
        c.capture, c.battle, c.language, c.newFlag, c.sex, c.rare, c.mega, c.alpha;
      reserve, captureNum, defeatNum, dlcReserve, draw, drawReserve :=
        c.reserve, c.captureNum, c.defeatNum, c.dlcReserve, c.draw, c.drawReserve;
    }

    /** `PokedexCoreData.from_bytes`: a new record read from exactly 132 bytes. */
    static method FromBytes(data: seq<byte>) returns (r: Result<PokedexCoreData>)
      ensures r.Success? <==> |data| == CORE_SIZE
      ensures r.Success? ==> fresh(r.value) && r.value.Valid() && DecodeCore(data) == Success(r.value.Value())
    {
      if |data| != CORE_SIZE {
        return Failure(SizeMismatch);
      }
      var core := new PokedexCoreData.FromCore(DecodeCore(data).value);
      r := Success(core);
    }

    /** `to_bytes`. */
    function ToBytes(): Result<seq<byte>>
      reads this
    {
      EncodeCore(Value())
    }

    /** `is_captured`. */
    function IsCaptured(formIndex: int): bool
      reads this
    {
      FormFlag(capture, formIndex)
    }

    /** `set_captured` (captured defaults to true): only the capture word changes. */
    method SetCaptured(formIndex: int, captured: bool := true)
      modifies this
      ensures Value() == old(Value()).(capture := WithFormFlag(old(capture), formIndex, captured))
    {
      capture := WithFormFlag(capture, formIndex, captured);
    }

    /** `is_battled`. */
    function IsBattled(formIndex: int): bool
      reads this
    {
      FormFlag(battle, formIndex)
    }

    /** `set_battled` (battled defaults to true): only the battle word changes. */
    method SetBattled(formIndex: int, battled: bool := true)
      modifies this
      ensures Value() == old(Value()).(battle := WithFormFlag(old(battle), formIndex, battled))
    {
      battle := WithFormFlag(battle, formIndex, battled);
    }

    /** `is_shiny`. */
    function IsShiny(formIndex: int): bool
      reads this
    {
      FormFlag(rare, formIndex)
    }

    /** `set_shiny` (shiny defaults to true): only the shiny word changes. */
    method SetShiny(formIndex: int, shiny: bool := true)
      modifies this
      ensures Value() == old(Value()).(rare := WithFormFlag(old(rare), formIndex, shiny))
    {
      rare := WithFormFlag(rare, formIndex, shiny);
    }

    /** `get_capture_count`. */
    function GetCaptureCount(formIndex: int): int
      reads this
      requires Valid()
    {
      FormCount(captureNum, formIndex)
    }

    /** `set_capture_count`: only the capture counters change. */
    method SetCaptureCount(formIndex: int, count: int)
      requires Valid()
      modifies this
      ensures Valid()
      ensures Value() == old(Value()).(captureNum := WithFormCount(old(captureNum), formIndex, count))
    {
      captureNum := WithFormCount(captureNum, formIndex, count);
    }

    /** `get_defeat_count`. */
    function GetDefeatCount(formIndex: int): int
      reads this
      requires Valid()
    {
      FormCount(defeatNum, formIndex)
    }

    /** `set_defeat_count`: only the defeat counters change. */
    method SetDefeatCount(formIndex: int, count: int)
      requires Valid()
      modifies this
      ensures Valid()
      ensures Value() == old(Value()).(defeatNum := WithFormCount(old(defeatNum), formIndex, count))
    {
      defeatNum := WithFormCount(defeatNum, formIndex, count);
    }
  }

  /** The values of a list of records, read from the heap. */
  function CoreValues(es: seq<PokedexCoreData>): (vs: seq<Core>)
    reads es
    ensures |vs| == |es|
  {
    if |es| == 0 then [] else CoreValues(es[..|es| - 1]) + [es[|es| - 1].Value()]
  }

  /** n empty records. */
  function Blank(n: nat): (cs: seq<Core>)
    ensures |cs| == n
  {
    if n == 0 then [] else Blank(n - 1) + [EMPTY_CORE]
  }

  /** The 1210 records and the reserve. */
  class PokedexData {
    var entries: seq<PokedexCoreData>
    var reserve: seq<byte>

    function Value(): Dex
      reads this, entries
    {
      Dex(CoreValues(entries), reserve)
    }

    /** 1210 new empty records and a zero reserve. */
    constructor ()
      ensures Value() == Dex(Blank(DEV_NO_MAX), Zeros(128))
    {
      var es: seq<PokedexCoreData> := [];
      var i := 0;
      while i < DEV_NO_MAX
        invariant i <= DEV_NO_MAX && CoreValues(es) == Blank(i)
      {
        var core := new PokedexCoreData();
        AppendCore(es, core);
        es := es + [core];
        i := i + 1;
      }
      entries := es;
      reserve := Zeros(128);
    }

    /** A Pokédex holding the given records and reserve. */
    constructor Of(entries: seq<PokedexCoreData>, reserve: seq<byte>)
      ensures this.entries == entries && this.reserve == reserve
    {
      this.entries, this.reserve := entries, reserve;
    }

    /** `PokedexData.from_bytes`: 1210 records from consecutive 132-byte
        slices, then the 128-byte reserve. */
    static method FromBytes(data: seq<byte>) returns (r: Result<PokedexData>)
      ensures r.Success? <==> |data| == DEX_SIZE
      ensures r.Success? ==> fresh(r.value) && DecodeDex(data) == Success(r.value.Value())
    {
      if |data| != DEX_SIZE {
        return Failure(SizeMismatch);
      }
      var entries := ReadCores(data);
      var dex := new PokedexData.Of(entries, data[DEX_RESERVE_OFFSET..]);
      r := Success(dex);
    }

    /** The record loop of `from_bytes`. */
    static method ReadCores(data: seq<byte>) returns (entries: seq<PokedexCoreData>)
      requires |data| == DEX_SIZE
      ensures CoreValues(entries) == DecodedCores(data, DEV_NO_MAX)
    {
      entries := [];
      for i := 0 to DEV_NO_MAX
        invariant CoreValues(entries) == DecodedCores(data, i)
      {
        entries := ReadCore(data, i, entries);
      }
    }

    /** One turn of the record loop: parse the record in bytes [132i, 132i + 132). */
    static method ReadCore(data: seq<byte>, i: nat, entries: seq<PokedexCoreData>)
      returns (more: seq<PokedexCoreData>)
      requires 132 * (i + 1) <= |data| && CoreValues(entries) == DecodedCores(data, i)
      ensures |more| == i + 1 && CoreValues(more) == DecodedCores(data, i + 1)
    {
      var parsed := PokedexCoreData.FromBytes(data[132 * i..132 * (i + 1)]);
      ReadCoreStep(data, i, entries, parsed.value);
      more := entries + [parsed.value];
    }

    /** `to_bytes`: the records one after another, then the reserve. */
    method ToBytes() returns (r: Result<seq<byte>>)
      ensures r == EncodeDex(Value())
    {
      ghost var vs := CoreValues(entries);
      var data: seq<byte> := [];
      var i := 0;
      while i < |entries|
        invariant i <= |entries|
        invariant EncodeCores(vs[..i]) == Success(data)
      {
        CoreValueAt(entries, i);
        var piece := entries[i].ToBytes();
        SnocSlices(vs, i);
        if piece.Failure? {
          CoreFailureSticks(vs, i + 1);
          return Failure(piece.error);
        }
        data := data + piece.value;
        i := i + 1;
      }
      assert vs[..i] == vs;
      r := Success(data + reserve);
    }

    /** `get_pokedex_data`: the record at dev_no, or nothing outside the list. */
    function GetPokedexData(devNo: int): (r: Option<PokedexCoreData>)
      reads this
      ensures r.None? <==> devNo < 0 || devNo >= |entries|
      ensures r.Some? ==> r.value == entries[devNo]
    {
      if 0 <= devNo < |entries| then Some(entries[devNo]) else None
    }

    /** `set_pokedex_data`: replaces the record at dev_no; does nothing outside the list. */
    method SetPokedexData(devNo: int, coreData: PokedexCoreData)
      modifies this
      ensures entries == if 0 <= devNo < old(|entries|) then old(entries)[devNo := coreData] else old(entries)
      ensures reserve == old(reserve)
    {
      if 0 <= devNo < |entries| {
        entries := entries[devNo := coreData];
      }
    }

    /** `get_captured_count`: the records with any form captured. */
    method GetCapturedCount() returns (count: nat)
      ensures count == CountCaptured(CoreValues(entries)) && count <= |entries|
    {
      ghost var vs := CoreValues(entries);
      count := 0;
      var i := 0;
      while i < |entries|
        invariant i <= |entries| && count == CountCaptured(vs[..i])
      {
        CoreValueAt(entries, i);
        SnocSlices(vs, i);
        LastOfSnoc(vs[..i], vs[i]);
        if entries[i].capture != 0 {
          count := count + 1;
        }
        i := i + 1;
      }
      assert vs[..i] == vs;
    }

    /** `get_shiny_count`: the records with any form shiny. */
    method GetShinyCount() returns (count: nat)
      ensures count == CountShiny(CoreValues(entries)) && count <= |entries|
    {
      ghost var vs := CoreValues(entries);
      count := 0;
      var i := 0;
      while i < |entries|
        invariant i <= |entries| && count == CountShiny(vs[..i])
      {
        CoreValueAt(entries, i);
        SnocSlices(vs, i);
        LastOfSnoc(vs[..i], vs[i]);
        if entries[i].rare != 0 {
          count := count + 1;
        }
        i := i + 1;
      }
      assert vs[..i] == vs;
    }
  }

  /** `is_pokedex_data_out_of_range`. */
  function IsPokedexDataOutOfRange(devNo: int): bool {
    devNo < 0 || devNo >= DEV_NO_MAX
  }

  /** The accessor the rest of the program goes through; it always holds 1210 records. */
  class PokedexSaveDataAccessor {
    var data: PokedexData

    predicate Valid()
      reads this, data
    {
      |data.entries| == DEV_NO_MAX
    }

    constructor ()
      ensures Valid() && fresh(data) && data.Value() == Dex(Blank(DEV_NO_MAX), Zeros(128))
    {
      data := new PokedexData();
    }

    /** An accessor over the given Pokédex. */
    constructor Of(data: PokedexData)
      ensures this.data == data
    {
      this.data := data;
    }

    /** `PokedexSaveDataAccessor.from_bytes`. */
    static method FromBytes(bytes: seq<byte>) returns (r: Result<PokedexSaveDataAccessor>)
      ensures r.Success? <==> |bytes| == DEX_SIZE
      ensures r.Success? ==> fresh(r.value) && r.value.Valid() && DecodeDex(bytes) == Success(r.value.data.Value())
    {
      var parsed := PokedexData.FromBytes(bytes);
      if parsed.Failure? {
        return Failure(parsed.error);
      }
      var accessor := new PokedexSaveDataAccessor.Of(parsed.value);
      r := Success(accessor);
    }

    /** `to_bytes`. */
    method ToBytes() returns (r: Result<seq<byte>>)
      ensures r == EncodeDex(data.Value())
    {
      r := data.ToBytes();
    }

    /** `set_pokedex_data`: replaces record dev_no when it is in range. */
    method SetPokedexData(devNo: int, coreData: PokedexCoreData)
      requires Valid()
      modifies data
      ensures Valid() && data.reserve == old(data.reserve)
      ensures data.entries == if IsPokedexDataOutOfRange(devNo) then old(data.entries)
                              else old(data.entries)[devNo := coreData]
    {
      if 0 <= devNo < DEV_NO_MAX {
        data.SetPokedexData(devNo, coreData);
      }
    }

    /** `get_pokedex_data`: record dev_no, or a new empty record when out of range. */
    method GetPokedexData(devNo: int) returns (core: PokedexCoreData)
      requires Valid()
      ensures !IsPokedexDataOutOfRange(devNo) ==> core == data.entries[devNo]
      ensures IsPokedexDataOutOfRange(devNo) ==> fresh(core) && core.Value() == EMPTY_CORE
    {
      if 0 <= devNo < DEV_NO_MAX {
        core := data.GetPokedexData(devNo).value;
      } else {
        core := new PokedexCoreData();
      }
    }

    /** `get_pokedex_data_const`: the same as `get_pokedex_data`. */
    method GetPokedexDataConst(devNo: int) returns (core: PokedexCoreData)
      requires Valid()
      ensures !IsPokedexDataOutOfRange(devNo) ==> core == data.entries[devNo]
      ensures IsPokedexDataOutOfRange(devNo) ==> fresh(core) && core.Value() == EMPTY_CORE
    {
      core := GetPokedexData(devNo);
    }

    /** `get_draw_data`: the record's display data; empty display data out of
        range. Only the base game's kind exists. */
    method GetDrawData(devNo: int, kind: PokedexKind := BaseGame) returns (w: Draw)
      requires Valid()
      ensures w == if IsPokedexDataOutOfRange(devNo) then EMPTY_DRAW else data.entries[devNo].draw
    {
      var core := GetPokedexData(devNo);
      w := core.draw;
    }
  }

  /** One more record read from the next slice extends the parsed values by one. */
  lemma ReadCoreStep(data: seq<byte>, i: nat, es: seq<PokedexCoreData>, c: PokedexCoreData)
    requires 132 * (i + 1) <= |data| && CoreValues(es) == DecodedCores(data, i)
    requires DecodeCore(data[132 * i..132 * (i + 1)]) == Success(c.Value())
    ensures CoreValues(es + [c]) == DecodedCores(data, i + 1)
  {
    AppendCore(es, c);
  }

  /** Appending a record object appends its value. */
  lemma AppendCore(es: seq<PokedexCoreData>, c: PokedexCoreData)
    ensures CoreValues(es + [c]) == CoreValues(es) + [c.Value()]
  {
    LastOfSnoc(es, c);
  }

  /** Record i's value is the i-th value. */
  lemma {:induction false} CoreValueAt(es: seq<PokedexCoreData>, i: nat)
    requires i < |es|
    ensures CoreValues(es)[i] == es[i].Value()
  {
    if i < |es| - 1 {
      CoreValueAt(es[..|es| - 1], i);
    }
  }

  /** Once a prefix of the records fails to pack, the whole list fails the same way. */
  lemma {:induction false} CoreFailureSticks(vs: seq<Core>, n: nat)
    requires n <= |vs| && EncodeCores(vs[..n]).Failure?
    ensures EncodeCores(vs) == EncodeCores(vs[..n])
  {
    if n < |vs| {
      assert vs[..|vs| - 1][..n] == vs[..n];
      CoreFailureSticks(vs[..|vs| - 1], n);
    } else {
      assert vs[..n] == vs;
    }
  }
}
