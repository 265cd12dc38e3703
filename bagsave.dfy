/** The bag (inventory) save record: 3000 fixed-size item entries, a word of
    "pocket released" flags and a reserved tail, 48128 bytes in all. */
module Bag {
  import opened Wrappers
  import opened Bytes
  import opened BitFlags

  const ENTRY_SIZE: nat := 16
  const ENTRY_CAPACITY: nat := 3000
  const RELEASE_OFFSET: nat := 48000
  const RESERVE_OFFSET: nat := 48004
  const RESERVE_SIZE: nat := 124
  const TOTAL_SIZE: nat := 48128

  /** Flags of one item entry, by bit position. */
  datatype BagFlagId = IsNew | IsFavorite | IsGet | IsFriendlyShopNew | IsHaveMegaStone | IdCount | Count {
    function Position(): (k: bv32)
      ensures k < 32
    {
      match this
      case IsNew => 0
      case IsFavorite => 1
      case IsGet => 2
      case IsFriendlyShopNew => 3
      case IsHaveMegaStone => 4
      case IdCount => 5
      case Count => 8
    }
  }

  /** Pockets of the release-category word, by bit position. */
  datatype FieldPocket = Recovery | Important | Max {
    function Position(): (k: bv32)
      ensures k < 32
    {
      match this
      case Recovery => 0
      case Important => 1
      case Max => 16
    }
  }

  /** Distinct flags sit at distinct bit positions. */
  lemma FlagPositionsDistinct(f: BagFlagId, g: BagFlagId)
    ensures f != g ==> f.Position() != g.Position()
  {
  }

  lemma PocketPositionsDistinct(p: FieldPocket, q: FieldPocket)
    ensures p != q ==> p.Position() != q.Position()
  {
  }

  /** Setting or clearing one entry flag makes it read back as requested
      and leaves every other flag as it was. */
  lemma EntryFlagUpdate(flags: bv32, f: BagFlagId, value: bool, g: BagFlagId)
    ensures Has(With(flags, Bit(f.Position()), value), Bit(g.Position()))
         == if g == f then value else Has(flags, Bit(g.Position()))
  {
    FlagPositionsDistinct(f, g);
    WithBit(flags, f.Position(), value, g.Position());
  }

  /** The same for the pockets of the release word. */
  lemma PocketFlagUpdate(flags: bv32, p: FieldPocket, value: bool, q: FieldPocket)
    ensures Has(With(flags, Bit(p.Position()), value), Bit(q.Position()))
         == if q == p then value else Has(flags, Bit(q.Position()))
  {
    PocketPositionsDistinct(p, q);
    WithBit(flags, p.Position(), value, q.Position());
  }

  // ---------------------------------------------------------------------
  // One entry: i32 category, u32 quantity, u8 flags, 4 reserve bytes, 3 zero bytes.

  datatype Entry = Entry(category: int, quantity: int, flags: bv32, reserve: seq<byte>)

  /** `BagEntry.from_bytes` on a byte string. */
  function DecodeEntry(d: seq<byte>): (r: Result<Entry>)
    ensures r.Success? <==> |d| == ENTRY_SIZE
  {
    if |d| != ENTRY_SIZE then Failure(SizeMismatch)
    else Success(Entry(FromLESigned(d[..4]), FromLE(d[4..8]), d[8] as bv32, d[9..13]))
  }

  /** Whether `struct.pack('<i I B', ...)` accepts the three numeric fields. */
  predicate Packable(e: Entry) {
    FitsSigned(e.category, 4) && FitsUnsigned(e.quantity, 4) && e.flags < 256
  }

  /** `BagEntry.to_bytes`. */
  function EncodeEntry(e: Entry): (r: Result<seq<byte>>)
    ensures r.Success? <==> Packable(e)
  {
    if !Packable(e) then Failure(OutOfRange)
    else Success(ToLESigned(e.category, 4) + ToLE(e.quantity, 4) + [e.flags as byte] + e.reserve + Zeros(3))
  }

  /** An encoded entry is 16 bytes when its reserve is 4 bytes, and ends in three zero bytes. */
  lemma EncodeEntryShape(e: Entry)
    requires Packable(e)
    ensures |EncodeEntry(e).value| == 12 + |e.reserve|
    ensures EncodeEntry(e).value[9 + |e.reserve|..] == Zeros(3)
  {
    var s := EncodeEntry(e).value;
    var front := ToLESigned(e.category, 4) + ToLE(e.quantity, 4) + [e.flags as byte] + e.reserve;
    assert s == front + Zeros(3);
    assert s[|front|..] == Zeros(3);
  }

  /** The first thirteen bytes of an entry survive a parse and re-serialisation;
      the last three come back as zeros. */
  lemma EntryBytesRoundTrip(d: seq<byte>)
    requires |d| == ENTRY_SIZE
    ensures EncodeEntry(DecodeEntry(d).value) == Success(d[..13] + Zeros(3))
  {
    EntryPieces(d);
    PrefixJoin(d, 4, 8);
    PrefixJoin(d, 8, 9);
    PrefixJoin(d, 9, 13);
  }

  /** Each field re-serialises to the bytes it was read from. */
  lemma EntryPieces(d: seq<byte>)
    requires |d| == ENTRY_SIZE
    ensures EncodeEntry(DecodeEntry(d).value) == Success(d[..4] + d[4..8] + d[8..9] + d[9..13] + Zeros(3))
  {
    var e := DecodeEntry(d).value;
    assert e == Entry(FromLESigned(d[..4]), FromLE(d[4..8]), d[8] as bv32, d[9..13]);
    assert Packable(e);
    SignedOfBytes(d[..4]);
    ToFromLE(d[4..8]);
    assert [e.flags as byte] == d[8..9];
  }

  /** An entry that packs, with a 4-byte reserve, parses back from its bytes. */
  lemma EntryValueRoundTrip(e: Entry)
    requires Packable(e) && |e.reserve| == 4
    ensures DecodeEntry(EncodeEntry(e).value) == Success(e)
  {
    var a, b, c := ToLESigned(e.category, 4), ToLE(e.quantity, 4), [e.flags as byte];
    var s := EncodeEntry(e).value;
    assert s == a + b + c + e.reserve + Zeros(3);
    EntryFields(a, b, c, e.reserve, Zeros(3));
    SignedRoundTrip(e.category, 4);
    FromToLE(e.quantity, 4);
    DecodeEntryOf(s, e);
  }

  /** Bytes whose fields read as e's fields parse as e. */
  lemma DecodeEntryOf(s: seq<byte>, e: Entry)
    requires |s| == ENTRY_SIZE && e.flags < 256
    requires FromLESigned(s[..4]) == e.category && FromLE(s[4..8]) == e.quantity
    requires s[8] == e.flags as byte && s[9..13] == e.reserve
    ensures DecodeEntry(s) == Success(e)
  {
  }

  /** Where the four fields sit in a 16-byte entry. */
  lemma EntryFields(a: seq<byte>, b: seq<byte>, c: seq<byte>, r: seq<byte>, z: seq<byte>)
    requires |a| == 4 && |b| == 4 && |c| == 1 && |r| == 4
    ensures var s := a + b + c + r + z; s[..4] == a && s[4..8] == b && s[8] == c[0] && s[9..13] == r
  {
  }

  // ---------------------------------------------------------------------
  // The release-category word: u16 flags and 2 padding bytes.

  datatype Release = Release(flags: bv32, padding: seq<byte>)

  /** `BagReleaseCategory.from_bytes`. */
  function DecodeRelease(d: seq<byte>): (r: Result<Release>)
    ensures r.Success? <==> |d| == 4
  {
    if |d| != 4 then Failure(SizeMismatch) else Success(Release(Word16(d[..2]), d[2..4]))
  }

  /** `BagReleaseCategory.to_bytes`: `struct.pack('<H', flags)` refuses a word above 16 bits. */
  function EncodeRelease(r: Release): (s: Result<seq<byte>>)
    ensures s.Success? <==> r.flags < 0x1_0000
    ensures s.Success? ==> |s.value| == 2 + |r.padding|
  {
    if r.flags >= 0x1_0000 then Failure(OutOfRange) else Success(LE16(r.flags) + r.padding)
  }

  lemma ReleaseBytesRoundTrip(d: seq<byte>)
    requires |d| == 4
    ensures EncodeRelease(DecodeRelease(d).value) == Success(d)
  {
    LE16OfWord(d[..2]);
    PrefixJoin(d, 2, 4);
    assert d[..4] == d;
  }

  lemma ReleaseValueRoundTrip(r: Release)
    requires r.flags < 0x1_0000 && |r.padding| == 2
    ensures DecodeRelease(EncodeRelease(r).value) == Success(r)
  {
    var s := EncodeRelease(r).value;
    assert s[..2] == LE16(r.flags) && s[2..4] == r.padding;
    WordOfLE16(r.flags);
  }

  // ---------------------------------------------------------------------
  // The whole save: 3000 entries, the release word at 48000, the reserve at 48004.

  datatype Save = Save(entries: seq<Entry>, release: Release, reserve: seq<byte>)

  /** The entries parsed from the first n 16-byte slices. */
  function DecodedEntries(d: seq<byte>, n: nat): (es: seq<Entry>)
    requires 16 * n <= |d|
    ensures |es| == n
  {
    if n == 0 then []
    else DecodedEntries(d, n - 1) + [DecodeEntry(d[16 * (n - 1)..16 * n]).value]
  }

  /** `BagSave.from_bytes` on a byte string. */
  function DecodeSave(d: seq<byte>): (r: Result<Save>)
    ensures r.Success? <==> |d| == TOTAL_SIZE
  {
    if |d| != TOTAL_SIZE then Failure(SizeMismatch)
    else Success(Save(DecodedEntries(d, ENTRY_CAPACITY),
                      DecodeRelease(d[RELEASE_OFFSET..RESERVE_OFFSET]).value,
                      d[RESERVE_OFFSET..]))
  }

  /** The entries serialised one after another; the first that does not pack fails the lot. */
  function EncodeEntries(es: seq<Entry>): (r: Result<seq<byte>>)
  {
    if |es| == 0 then Success([])
    else
      match EncodeEntries(es[..|es| - 1])
      case Failure(e) => Failure(e)
      case Success(front) =>
        match EncodeEntry(es[|es| - 1])
        case Failure(e) => Failure(e)
        case Success(last) => Success(front + last)
  }

  /** `BagSave.to_bytes` on a save value. */
  function EncodeSave(s: Save): (r: Result<seq<byte>>)
  {
    match EncodeEntries(s.entries)
    case Failure(e) => Failure(e)
    case Success(body) =>
      match EncodeRelease(s.release)
      case Failure(e) => Failure(e)
      case Success(rel) => Success(body + rel + s.reserve)
  }

  /** What re-serialising the first n parsed entries gives: each slice with its
      last three bytes zeroed. */
  function CanonEntries(d: seq<byte>, n: nat): seq<byte>
    requires 16 * n <= |d|
  {
    if n == 0 then []
    else CanonEntries(d, n - 1) + (d[16 * (n - 1)..16 * (n - 1) + 13] + Zeros(3))
  }

  /** Entry i of a parsed save is the entry in bytes [16i, 16i + 16). */
  lemma DecodedEntryAt(d: seq<byte>, n: nat, i: nat)
    requires 16 * n <= |d| && i < n
    ensures DecodedEntries(d, n)[i] == DecodeEntry(d[16 * i..16 * (i + 1)]).value
  {
    EntriesPrefix(d, n, i + 1);
    LastEntry(d, i);
    assert DecodedEntries(d, n)[i] == DecodedEntries(d, n)[..i + 1][i];
  }

  /** The last parsed entry is the last slice parsed. */
  lemma LastEntry(d: seq<byte>, i: nat)
    requires 16 * (i + 1) <= |d|
    ensures DecodedEntries(d, i + 1)[i] == DecodeEntry(d[16 * i..16 * (i + 1)]).value
  {
  }

  /** Parsing more entries leaves the first m as they were. */
  lemma {:induction false} EntriesPrefix(d: seq<byte>, n: nat, m: nat)
    requires 16 * n <= |d| && m <= n
    ensures DecodedEntries(d, n)[..m] == DecodedEntries(d, m)
  {
    if m < n {
      EntriesPrefix(d, n - 1, m);
      EarlierEntries(d, n, m);
    } else {
      assert DecodedEntries(d, n)[..m] == DecodedEntries(d, n);
    }
  }

  /** Parsing one more entry leaves the earlier ones as they were. */
  lemma EarlierEntries(d: seq<byte>, n: nat, m: nat)
    requires 16 * n <= |d| && m < n
    ensures DecodedEntries(d, n)[..m] == DecodedEntries(d, n - 1)[..m]
  {
  }

  /** Byte j of the re-serialised entries is byte j of the input, except the
      last three bytes of every entry, which are zero. */
  lemma {:induction false} CanonAt(d: seq<byte>, n: nat, j: nat)
    requires 16 * n <= |d| && j < 16 * n
    ensures |CanonEntries(d, n)| == 16 * n
    ensures CanonEntries(d, n)[j] == if j % ENTRY_SIZE < 13 then d[j] else 0
  {
    CanonLength(d, n - 1);
    var base := 16 * (n - 1);
    if j < base {
      CanonAt(d, n - 1, j);
    } else {
      assert CanonEntries(d, n)[j] == (d[base..base + 13] + Zeros(3))[j - base];
      assert j % ENTRY_SIZE == j - base;
    }
  }

  lemma {:induction false} CanonLength(d: seq<byte>, n: nat)
    requires 16 * n <= |d|
    ensures |CanonEntries(d, n)| == 16 * n
  {
    if n > 0 {
      CanonLength(d, n - 1);
    }
  }

  /** Re-serialising the first n parsed entries gives their canonical bytes. */
  lemma {:induction false} EntriesRoundTrip(d: seq<byte>, n: nat)
    requires 16 * n <= |d|
    ensures EncodeEntries(DecodedEntries(d, n)) == Success(CanonEntries(d, n))
  {
    if n > 0 {
      EntriesRoundTrip(d, n - 1);
      EntriesStep(d, n);
    }
  }

  lemma EntriesStep(d: seq<byte>, n: nat)
    requires 0 < n && 16 * n <= |d|
    requires EncodeEntries(DecodedEntries(d, n - 1)) == Success(CanonEntries(d, n - 1))
    ensures EncodeEntries(DecodedEntries(d, n)) == Success(CanonEntries(d, n))
  {
    var slice := d[16 * (n - 1)..16 * n];
    var piece := d[16 * (n - 1)..16 * (n - 1) + 13] + Zeros(3);
    assert DecodedEntries(d, n) == DecodedEntries(d, n - 1) + [DecodeEntry(slice).value];
    assert CanonEntries(d, n) == CanonEntries(d, n - 1) + piece;
    EntryBytesRoundTrip(slice);
    SliceOfSlice(d, 16 * (n - 1), 16 * n, 13);
    assert slice[..13] + Zeros(3) == piece;
    EncodeEntriesSnoc(DecodedEntries(d, n - 1), DecodeEntry(slice).value,
                      CanonEntries(d, n - 1), piece);
  }

  /** One more entry appends its bytes. */
  lemma EncodeEntriesSnoc(front: seq<Entry>, x: Entry, a: seq<byte>, b: seq<byte>)
    requires EncodeEntries(front) == Success(a) && EncodeEntry(x) == Success(b)
    ensures EncodeEntries(front + [x]) == Success(a + b)
  {
    LastOfSnoc(front, x);
  }

  /** A parsed save serialises to 48128 bytes: the input with bytes 13..15 of
      every entry zeroed, and the release word and reserve as read. */
  lemma SaveRoundTrip(d: seq<byte>)
    requires |d| == TOTAL_SIZE
    ensures EncodeSave(DecodeSave(d).value) == Success(CanonEntries(d, ENTRY_CAPACITY) + d[RELEASE_OFFSET..])
    ensures |CanonEntries(d, ENTRY_CAPACITY) + d[RELEASE_OFFSET..]| == TOTAL_SIZE
  {
    var s := DecodeSave(d).value;
    var body, rel, tail := CanonEntries(d, ENTRY_CAPACITY), d[RELEASE_OFFSET..RESERVE_OFFSET], d[RESERVE_OFFSET..];
    assert s == Save(DecodedEntries(d, ENTRY_CAPACITY), DecodeRelease(rel).value, tail);
    EntriesRoundTrip(d, ENTRY_CAPACITY);
    CanonLength(d, ENTRY_CAPACITY);
    ReleaseBytesRoundTrip(rel);
    EncodeSaveOfParts(s, body, rel);
    AppendAssoc(body, rel, tail);
    assert rel + tail == d[RELEASE_OFFSET..];
  }

  lemma EncodeSaveOfParts(s: Save, body: seq<byte>, rel: seq<byte>)
    requires EncodeEntries(s.entries) == Success(body) && EncodeRelease(s.release) == Success(rel)
    ensures EncodeSave(s) == Success(body + rel + s.reserve)
  {
  }

  // ---------------------------------------------------------------------
  // The objects the program works with.

  /** One item entry. */
  class BagEntry {
    var category: int
    var quantity: int
    var flags: bv32
    var reserve: seq<byte>

    function Value(): Entry
      reads this
    {
      Entry(category, quantity, flags, reserve)
    }

    /** An empty slot: category -1, nothing held, no flags, zero reserve. */
    constructor ()
      ensures Value() == Entry(-1, 0, 0, Zeros(4))
    {
      category, quantity, flags, reserve := -1, 0, 0, Zeros(4);
    }

    /** `BagEntry.from_bytes`: a new entry read from exactly 16 bytes. */
    static method FromBytes(data: seq<byte>) returns (r: Result<BagEntry>)
      ensures r.Success? <==> |data| == ENTRY_SIZE
      ensures r.Success? ==> fresh(r.value) && DecodeEntry(data) == Success(r.value.Value())
    {
      if |data| != ENTRY_SIZE {
        return Failure(SizeMismatch);
      }
      var entry := new BagEntry();
      entry.category, entry.quantity, entry.flags := FromLESigned(data[..4]), FromLE(data[4..8]), data[8] as bv32;
      entry.reserve := data[9..13];
      r := Success(entry);
    }

    /** `get_flag`. */
    function GetFlag(f: BagFlagId): bool
      reads this
    {
      Has(flags, Bit(f.Position()))
    }

    /** `set_flag`: only the flag's bit of the flag word changes. */
    method SetFlag(f: BagFlagId, value: bool)
      modifies this
      ensures flags == With(old(flags), Bit(f.Position()), value)
      ensures category == old(category) && quantity == old(quantity) && reserve == old(reserve)
    {
      flags := With(flags, Bit(f.Position()), value);
    }

    /** `to_bytes`. */
    function ToBytes(): Result<seq<byte>>
      reads this
    {
      EncodeEntry(Value())
    }
  }

  /** The word of released pockets. */
  class BagReleaseCategory {
    var flags: bv32
    var padding: seq<byte>

    function Value(): Release
      reads this
    {
      Release(flags, padding)
    }

    constructor ()
      ensures Value() == Release(0, Zeros(2))
    {
      flags, padding := 0, Zeros(2);
    }

    /** `BagReleaseCategory.from_bytes`: a new word read from exactly 4 bytes. */
    static method FromBytes(data: seq<byte>) returns (r: Result<BagReleaseCategory>)
      ensures r.Success? <==> |data| == 4
      ensures r.Success? ==> fresh(r.value) && DecodeRelease(data) == Success(r.value.Value())
    {
      if |data| != 4 {
        return Failure(SizeMismatch);
      }
      var release := new BagReleaseCategory();
      release.flags, release.padding := Word16(data[..2]), data[2..4];
      r := Success(release);
    }

    /** `get_flag`. */
    function GetFlag(p: FieldPocket): bool
      reads this
    {
      Has(flags, Bit(p.Position()))
    }

    /** `set_flag`: only the pocket's bit changes. */
    method SetFlag(p: FieldPocket, value: bool)
      modifies this
      ensures flags == With(old(flags), Bit(p.Position()), value) && padding == old(padding)
    {
      flags := With(flags, Bit(p.Position()), value);
    }

    /** `to_bytes`. */
    function ToBytes(): Result<seq<byte>>
      reads this
    {
      EncodeRelease(Value())
    }
  }

  /** The values of a list of entries, read from the heap. */
  function Values(es: seq<BagEntry>): (vs: seq<Entry>)
    reads es
    ensures |vs| == |es|
  {
    if |es| == 0 then [] else Values(es[..|es| - 1]) + [es[|es| - 1].Value()]
  }

  /** The whole bag. */
  class BagSave {
    var entries: seq<BagEntry>
    var releaseCategory: BagReleaseCategory
    var reserve: seq<byte>

    function Value(): Save
      reads this, entries, releaseCategory
    {
      Save(Values(entries), releaseCategory.Value(), reserve)
    }

    /** An empty bag: no entries, no pockets released, a zero reserve. */
    constructor ()
      ensures entries == [] && fresh(releaseCategory)
      ensures releaseCategory.Value() == Release(0, Zeros(2)) && reserve == Zeros(RESERVE_SIZE)
    {
      entries := [];
      releaseCategory := new BagReleaseCategory();
      reserve := Zeros(RESERVE_SIZE);
    }

    /** A bag over the given entries, release word and reserve, as `from_bytes`
        leaves one after setting its fields. */
    constructor Of(entries: seq<BagEntry>, releaseCategory: BagReleaseCategory, reserve: seq<byte>)
      ensures this.entries == entries && this.releaseCategory == releaseCategory && this.reserve == reserve
    {
      this.entries, this.releaseCategory, this.reserve := entries, releaseCategory, reserve;
    }

    /** `BagSave.from_bytes`: 3000 entries from consecutive 16-byte slices,
        the release word at 48000 and the reserve at 48004. */
    static method FromBytes(data: seq<byte>) returns (r: Result<BagSave>)
      ensures r.Success? <==> |data| == TOTAL_SIZE
      ensures r.Success? ==> fresh(r.value) && fresh(r.value.releaseCategory)
      ensures r.Success? ==> DecodeSave(data) == Success(r.value.Value())
    {
      if |data| != TOTAL_SIZE {
        return Failure(SizeMismatch);
      }
      var entries := ReadEntries(data);
      var release := BagReleaseCategory.FromBytes(data[RELEASE_OFFSET..RESERVE_OFFSET]);
      var bag := new BagSave.Of(entries, release.value, data[RESERVE_OFFSET..]);
      r := Success(bag);
    }

    /** The entry loop of `from_bytes`. */
    static method ReadEntries(data: seq<byte>) returns (entries: seq<BagEntry>)
      requires |data| == TOTAL_SIZE
      ensures Values(entries) == DecodedEntries(data, ENTRY_CAPACITY)
    {
      entries := [];
      for i := 0 to ENTRY_CAPACITY
        invariant Values(entries) == DecodedEntries(data, i)
      {
        entries := ReadEntry(data, i, entries);
      }
    }

    /** One step of the entry loop: entry i parsed from its 16-byte slice and appended. */
    static method ReadEntry(data: seq<byte>, i: nat, entries: seq<BagEntry>) returns (more: seq<BagEntry>)
      requires 16 * (i + 1) <= |data| && Values(entries) == DecodedEntries(data, i)
      ensures Values(more) == DecodedEntries(data, i + 1)
    {
      var parsed := BagEntry.FromBytes(data[16 * i..16 * (i + 1)]);
      ReadStep(data, i, entries, parsed.value);
      more := entries + [parsed.value];
    }

    /** `to_bytes`: the entries one after another, then the release word and the reserve. */
    method ToBytes() returns (r: Result<seq<byte>>)
      ensures r == EncodeSave(Value())
    {
      ghost var vs := Values(entries);
      var data: seq<byte> := [];
      var i := 0;
      while i < |entries|
        invariant i <= |entries|
        invariant EncodeEntries(vs[..i]) == Success(data)
      {
        ValueAt(entries, i);
        var piece := entries[i].ToBytes();
        SnocSlices(vs, i);
        if piece.Failure? {
          FailureSticks(vs, i + 1);
          return Failure(piece.error);
        }
        data := data + piece.value;
        i := i + 1;
      }
      assert vs[..i] == vs;
      var rel := releaseCategory.ToBytes();
      if rel.Failure? {
        return Failure(rel.error);
      }
      r := Success(data + rel.value + reserve);
    }

    /** `get_entry`: the entry at item_id, or nothing outside the list. */
    function GetEntry(itemId: int): (r: Option<BagEntry>)
      reads this
      ensures r.None? <==> itemId < 0 || itemId >= |entries|
      ensures r.Some? ==> r.value == entries[itemId]
    {
      if 0 <= itemId < |entries| then Some(entries[itemId]) else None
    }

    /** `set_entry`: replaces the entry at item_id; does nothing outside the list. */
    method SetEntry(itemId: int, entry: BagEntry)
      modifies this
      ensures 0 <= itemId < old(|entries|) ==> entries == old(entries)[itemId := entry]
      ensures itemId < 0 || itemId >= old(|entries|) ==> entries == old(entries)
      ensures releaseCategory == old(releaseCategory) && reserve == old(reserve)
    {
      if 0 <= itemId < |entries| {
        entries := entries[itemId := entry];
      }
    }

    /** `is_release_category`. */
    function IsReleaseCategory(p: FieldPocket): bool
      reads this, releaseCategory
    {
      releaseCategory.GetFlag(p)
    }

    /** `set_release_category` (value defaults to true). */
    method SetReleaseCategory(p: FieldPocket, value: bool := true)
      modifies releaseCategory
      ensures releaseCategory.flags == With(old(releaseCategory.flags), Bit(p.Position()), value)
      ensures releaseCategory.padding == old(releaseCategory.padding)
    {
      releaseCategory.SetFlag(p, value);
    }
  }

  /** One more entry read from the next slice extends the parsed values by one. */
  lemma ReadStep(data: seq<byte>, i: nat, es: seq<BagEntry>, e: BagEntry)
    requires 16 * (i + 1) <= |data| && Values(es) == DecodedEntries(data, i)
    requires DecodeEntry(data[16 * i..16 * (i + 1)]) == Success(e.Value())
    ensures Values(es + [e]) == DecodedEntries(data, i + 1)
  {
    AppendEntry(es, e);
  }

  /** Appending an entry object appends its value. */
  lemma AppendEntry(es: seq<BagEntry>, e: BagEntry)
    ensures Values(es + [e]) == Values(es) + [e.Value()]
  {
    LastOfSnoc(es, e);
  }

  /** Entry i's value is the i-th value. */
  lemma {:induction false} ValueAt(es: seq<BagEntry>, i: nat)
    requires i < |es|
    ensures Values(es)[i] == es[i].Value()
  {
    if i < |es| - 1 {
      ValueAt(es[..|es| - 1], i);
    }
  }

  /** Once a prefix of the entries fails to pack, the whole list fails the same way. */
  lemma {:induction false} FailureSticks(vs: seq<Entry>, n: nat)
    requires n <= |vs| && EncodeEntries(vs[..n]).Failure?
    ensures EncodeEntries(vs) == EncodeEntries(vs[..n])
  {
    if n < |vs| {
      assert vs[..|vs| - 1][..n] == vs[..n];
      FailureSticks(vs[..|vs| - 1], n);
    } else {
      assert vs[..n] == vs;
    }
  }
}
