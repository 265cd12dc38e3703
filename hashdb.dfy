/** The keyed index over a save file's blocks: every block is filed under
    its key written as Python's `f"{key:08X}"`, and lookups take either an
    integer key or a name, which is hashed with 32-bit FNV-1a first. */
module HashDatabase {
  import opened Wrappers
  import opened Bytes
  import opened Fnv
  import opened TypeCodes
  import opened Blocks

  // ---------------------------------------------------------------------
  // The `:08X` rendering of an integer.

  const HEX_DIGITS: string := "0123456789ABCDEF"

  predicate IsHexDigit(c: char) {
    '0' <= c <= '9' || 'A' <= c <= 'F'
  }

  function DigitChar(d: nat): (c: char)
    requires d < 16
    ensures IsHexDigit(c) && DigitValue(c) == d
  {
    HEX_DIGITS[d]
  }

  /** The value of an upper-case hexadecimal digit. */
  function DigitValue(c: char): nat {
    if '0' <= c <= '9' then c as nat - '0' as nat
    else if 'A' <= c <= 'F' then c as nat - 'A' as nat + 10
    else 0
  }

  /** The shortest hexadecimal writing of v, most significant digit first. */
  function Digits(v: nat): (s: string)
    ensures |s| >= 1
  {
    if v < 16 then [DigitChar(v)] else Digits(v / 16) + [DigitChar(v % 16)]
  }

  /** s with '0's in front up to `width` characters. */
  function ZeroPad(s: string, width: nat): (r: string)
    ensures |r| == if |s| < width then width else |s|
    decreases width - |s|
  {
    if |s| < width then ZeroPad(['0'] + s, width) else s
  }

  /** Python's `f"{v:08X}"`: at least eight upper-case hex digits, a negative
      number getting its '-' in front of the padding. */
  function Render(v: int): string {
    if v >= 0 then ZeroPad(Digits(v), 8) else "-" + ZeroPad(Digits(-v), 7)
  }

  /** The number a run of hexadecimal digits stands for. */
  function HexValue(s: string): nat {
    if |s| == 0 then 0 else 16 * HexValue(s[..|s| - 1]) + DigitValue(s[|s| - 1])
  }

  /** Reads back a rendered number. */
  function Parse(s: string): int {
    if |s| > 0 && s[0] == '-' then 0 - HexValue(s[1..]) as int else HexValue(s)
  }

  predicate AllHex(s: string) {
    forall i :: 0 <= i < |s| ==> IsHexDigit(s[i])
  }

  lemma HexValueSnoc(s: string, c: char)
    ensures HexValue(s + [c]) == 16 * HexValue(s) + DigitValue(c)
  {
    assert (s + [c])[..|s|] == s;
  }

  /** The digits of v are hex digits and stand for v. */
  lemma {:induction false} DigitsValue(v: nat)
    ensures AllHex(Digits(v)) && HexValue(Digits(v)) == v
  {
    if v >= 16 {
      DigitsValue(v / 16);
      HexValueSnoc(Digits(v / 16), DigitChar(v % 16));
    } else {
      assert [DigitChar(v)][..0] == [];
    }
  }

  /** A leading zero does not change the value. */
  lemma {:induction false} LeadingZero(s: string)
    ensures HexValue(['0'] + s) == HexValue(s)
  {
    if |s| > 0 {
      var front := s[..|s| - 1];
      assert (['0'] + s)[..|s|] == ['0'] + front;
      LeadingZero(front);
    } else {
      assert (['0'] + s)[..0] == [];
    }
  }

  /** Padding keeps the digits hex digits and keeps their value. */
  lemma {:induction false} ZeroPadValue(s: string, width: nat)
    ensures HexValue(ZeroPad(s, width)) == HexValue(s)
    ensures AllHex(s) ==> AllHex(ZeroPad(s, width))
    decreases width - |s|
  {
    if |s| < width {
      LeadingZero(s);
      ZeroPadValue(['0'] + s, width);
    }
  }

  /** The rendering is read back exactly, so no two integers share one. */
  lemma ParseRender(v: int)
    ensures Parse(Render(v)) == v
  {
    var m := if v < 0 then -v else v;
    var w := if v < 0 then 7 else 8;
    DigitsValue(m);
    ZeroPadValue(Digits(m), w);
    var p := ZeroPad(Digits(m), w);
    if v < 0 {
      assert ("-" + p)[1..] == p;
    } else {
      assert IsHexDigit(p[0]);
    }
  }

  lemma RenderInjective(v: int, w: int)
    requires Render(v) == Render(w)
    ensures v == w
  {
    ParseRender(v);
    ParseRender(w);
  }

  /** A 32-bit key renders as exactly eight upper-case hex digits. */
  lemma RenderKey(k: nat)
    requires k < 0x1_0000_0000
    ensures var s := Render(k);
      |s| == 8 && forall i :: 0 <= i < 8 ==> IsHexDigit(s[i])
  {
    assert Pow16(8) == 0x1_0000_0000;
    DigitsLength(k, 8);
    DigitsValue(k);
    ZeroPadValue(Digits(k), 8);
  }

  /** A number below 16^n takes at most n digits. */
  lemma {:induction false} DigitsLength(v: nat, n: nat)
    requires n >= 1 && v < Pow16(n)
    ensures |Digits(v)| <= n
  {
    if v >= 16 {
      DigitsLength(v / 16, n - 1);
    }
  }

  function Pow16(n: nat): (p: nat)
    ensures p >= 1
  {
    if n == 0 then 1 else 16 * Pow16(n - 1)
  }

  // ---------------------------------------------------------------------
  // The index.

  /** The dictionary the constructor builds from the first n blocks: filed
      in list order, a later block replacing an earlier one with the same key. */
  function IndexOf(bs: seq<SCBlock>, n: nat): map<string, SCBlock>
    requires n <= |bs|
  {
    if n == 0 then map[]
    else IndexOf(bs, n - 1)[Render(bs[n - 1].key as int) := bs[n - 1]]
  }

  function Index(bs: seq<SCBlock>): map<string, SCBlock> {
    IndexOf(bs, |bs|)
  }

  /** The position of the last block before n whose key is v, if any. */
  function LastBefore(bs: seq<SCBlock>, v: int, n: nat): (r: Option<nat>)
    requires n <= |bs|
    ensures r.Some? ==> r.value < n && bs[r.value].key as int == v
    ensures r.Some? ==> forall j :: r.value < j < n ==> bs[j].key as int != v
    ensures r.None? ==> forall j :: 0 <= j < n ==> bs[j].key as int != v
  {
    if n == 0 then None
    else if bs[n - 1].key as int == v then Some(n - 1)
    else LastBefore(bs, v, n - 1)
  }

  /** The position of the last block whose key is v, if any. */
  function LastWithKey(bs: seq<SCBlock>, v: int): Option<nat> {
    LastBefore(bs, v, |bs|)
  }

  /** The distinct keys of the first n blocks. */
  function KeysBefore(bs: seq<SCBlock>, n: nat): set<int>
    requires n <= |bs|
  {
    if n == 0 then {} else KeysBefore(bs, n - 1) + {bs[n - 1].key as int}
  }

  function KeySet(bs: seq<SCBlock>): set<int> {
    KeysBefore(bs, |bs|)
  }

  /** Under the rendering of any integer v is filed the last block with key
      v, and nothing when no block has key v. */
  lemma {:induction false} IndexAt(bs: seq<SCBlock>, v: int, n: nat)
    requires n <= |bs|
    ensures Render(v) in IndexOf(bs, n) <==> LastBefore(bs, v, n).Some?
    ensures LastBefore(bs, v, n).Some? ==> IndexOf(bs, n)[Render(v)] == bs[LastBefore(bs, v, n).value]
  {
    if n > 0 {
      IndexAt(bs, v, n - 1);
      var k := bs[n - 1].key as int;
      if k != v {
        assert Render(k) != Render(v) by {
          if Render(k) == Render(v) {
            RenderInjective(k, v);
          }
        }
      }
    }
  }

  /** A key occurs among the first n blocks exactly when it has a last occurrence there. */
  lemma {:induction false} KeysLast(bs: seq<SCBlock>, v: int, n: nat)
    requires n <= |bs|
    ensures v in KeysBefore(bs, n) <==> LastBefore(bs, v, n).Some?
  {
    if n > 0 {
      KeysLast(bs, v, n - 1);
    }
  }

  /** Every entry is filed under the rendering of some block's key. */
  lemma {:induction false} IndexKeys(bs: seq<SCBlock>, n: nat)
    requires n <= |bs|
    ensures IndexOf(bs, n).Keys == set j | 0 <= j < n :: Render(bs[j].key as int)
  {
    if n > 0 {
      IndexKeys(bs, n - 1);
    }
  }

  /** One entry per distinct key. */
  lemma {:induction false} IndexSize(bs: seq<SCBlock>, n: nat)
    requires n <= |bs|
    ensures |IndexOf(bs, n).Keys| == |KeysBefore(bs, n)|
  {
    if n > 0 {
      var m := n - 1;
      IndexSize(bs, m);
      assert |IndexOf(bs, m).Keys| == |KeysBefore(bs, m)|;
      SizeStep(bs, n);
    }
  }

  lemma SizeStep(bs: seq<SCBlock>, n: nat)
    requires 0 < n <= |bs| && |IndexOf(bs, n - 1).Keys| == |KeysBefore(bs, n - 1)|
    ensures |IndexOf(bs, n).Keys| == |KeysBefore(bs, n)|
  {
    var v, name := NextEntry(bs, n);
    GrowsTogether(KeysBefore(bs, n - 1), IndexOf(bs, n - 1).Keys, v, name, KeysBefore(bs, n), IndexOf(bs, n).Keys);
  }

  /** Block n - 1 adds its key to the keys and its rendering to the names,
      both new or both already there. */
  lemma NextEntry(bs: seq<SCBlock>, n: nat) returns (v: int, name: string)
    requires 0 < n <= |bs|
    ensures KeysBefore(bs, n) == KeysBefore(bs, n - 1) + {v}
    ensures IndexOf(bs, n).Keys == IndexOf(bs, n - 1).Keys + {name}
    ensures v in KeysBefore(bs, n - 1) <==> name in IndexOf(bs, n - 1).Keys
  {
    v := bs[n - 1].key as int;
    name := Render(v);
    IndexAt(bs, v, n - 1);
    KeysLast(bs, v, n - 1);
  }

  /** Two sets of equal size, each given one element that is new to one
      exactly when it is new to the other, stay of equal size. */
  lemma GrowsTogether<A, B>(xs: set<A>, ys: set<B>, x: A, y: B, xs': set<A>, ys': set<B>)
    requires |xs| == |ys| && (x in xs <==> y in ys)
    requires xs' == xs + {x} && ys' == ys + {y}
    ensures |xs'| == |ys'|
  {
    if x !in xs {
      assert |xs + {x}| == |xs| + 1;
      assert |ys + {y}| == |ys| + 1;
    } else {
      assert xs + {x} == xs;
      assert ys + {y} == ys;
    }
  }

  /** A lookup argument: an integer key, or a name (its UTF-8 bytes) that is hashed first. */
  datatype Query = Key(value: int) | Name(name: seq<byte>)

  /** The integer a query stands for. */
  function QueryKey(q: Query): int {
    match q
    case Key(v) => v
    case Name(n) => Fnv1a32(n, BASIS_32)
  }

  /** The dictionary over a list of blocks, keyed by the rendered block key. */
  class HashDB {
    const blocks: seq<SCBlock>
    const db: map<string, SCBlock>

    ghost predicate Valid() {
      db == Index(blocks)
    }

    /** Files every block under its rendered key, in list order. */
    constructor (blocks: seq<SCBlock>)
      ensures Valid() && this.blocks == blocks
    {
      this.blocks := blocks;
      var d: map<string, SCBlock> := map[];
      for i := 0 to |blocks|
        invariant d == IndexOf(blocks, i)
      {
        d := d[Render(blocks[i].key as int) := blocks[i]];
      }
      db := d;
    }

    /** The string a query is looked up under: an integer rendered as it
        is, a name hashed with 32-bit FNV-1a and then rendered. */
    static method Resolve(q: Query) returns (s: string)
      ensures s == Render(QueryKey(q))
    {
      match q
      case Key(v) =>
        s := Render(v);
      case Name(n) =>
        var h := HashFnv1a32(n);
        s := Render(h);
    }

    /** `__getitem__`: the last block whose key the query stands for; a
        missing key fails. */
    method Get(q: Query) returns (r: Result<SCBlock>)
      requires Valid()
      ensures match LastWithKey(blocks, QueryKey(q))
        case None => r == Failure(KeyNotFound)
        case Some(j) => r == Success(blocks[j])
    {
      var s := Resolve(q);
      IndexAt(blocks, QueryKey(q), |blocks|);
      if s !in db {
        return Failure(KeyNotFound);
      }
      r := Success(db[s]);
    }

    /** `__contains__`: whether an already rendered string is filed; it is
        not hashed, and only eight upper-case hex digits can be. */
    method Contains(item: string) returns (b: bool)
      requires Valid()
      ensures b <==> exists j :: 0 <= j < |blocks| && item == Render(blocks[j].key as int)
      ensures b ==> |item| == 8 && forall i :: 0 <= i < 8 ==> IsHexDigit(item[i])
    {
      IndexKeys(blocks, |blocks|);
      b := item in db;
      if b {
        var j :| 0 <= j < |blocks| && item == Render(blocks[j].key as int);
        RenderKey(blocks[j].key as int);
      }
    }

    /** `__len__`: one entry per distinct key. */
    method Len() returns (n: nat)
      requires Valid()
      ensures n == |KeySet(blocks)|
    {
      IndexSize(blocks, |blocks|);
      n := |db|;
    }

    /** `__setitem__`: stores a value into the block the key stands for; a
        missing key fails and nothing changes. No other payload changes. */
    method Set(q: Query, value: Scalar) returns (r: Outcome)
      requires Valid()
      modifies set j | 0 <= j < |blocks| :: blocks[j].raw
      ensures LastWithKey(blocks, QueryKey(q)).None? ==>
        r == Fail(KeyNotFound) && forall j :: 0 <= j < |blocks| ==> blocks[j].raw[..] == old(blocks[j].raw[..])
      ensures LastWithKey(blocks, QueryKey(q)).Some? ==>
        var b := blocks[LastWithKey(blocks, QueryKey(q)).value];
        (r == Pass <==> Store(b.blockType, old(b.raw[..]), value).Success?)
        && (r.Pass? ==> b.raw[..] == Store(b.blockType, old(b.raw[..]), value).value)
        && (r.Fail? ==> r.error == Store(b.blockType, old(b.raw[..]), value).error && b.raw[..] == Cleared(b.blockType, old(b.raw[..]), value))
        && forall j :: 0 <= j < |blocks| && blocks[j].raw != b.raw ==> blocks[j].raw[..] == old(blocks[j].raw[..])
    {
      var s := Resolve(q);
      IndexAt(blocks, QueryKey(q), |blocks|);
      if s !in db {
        return Fail(KeyNotFound);
      }
      var b := db[s];
      r := b.SetValue(value);
    }
  }
}
