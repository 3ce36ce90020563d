/**
  Headers of boot images as bytes (native/src/boot/bootimg.hpp, native/src/boot/bootimg.cpp): where each variant has
  its fields, and which variant the parser takes a header for.
 */
module BootHeader {
  import opened Bytes
  import opened BootLayout

  /** The word at an offset; behind the end there is nothing to read. */
  function WordAt(s: bytes, off: nat): u32 { if off + 4 <= |s| then Word(s[off..]) else 0 }

  lemma SameWord(s: bytes, t: bytes, off: nat)
    requires |s| == |t| && off + 4 <= |s|
    ensures WordAt(s, off) == WordAt(t, off) <==> forall i | off <= i < off + 4 :: s[i] == t[i]
  {
    hide Word;
    var x, y := s[off..], t[off..];
    if Word(x) == Word(y) {
      WordIsInjective(x, y);
      forall i | off <= i < off + 4 ensures s[i] == t[i] {
        assert s[i] == x[i - off] && t[i] == y[i - off];
      }
    }
    if forall i | off <= i < off + 4 :: s[i] == t[i] {
      forall k | 0 <= k < 4 ensures x[k] == y[k] {
        assert s[off + k] == t[off + k];
      }
      WordOfFour(x, y);
    }
  }

  lemma WordOfFour(x: bytes, y: bytes)
    requires |x| >= 4 && |y| >= 4 && forall k | 0 <= k < 4 :: x[k] == y[k]
    ensures Word(x) == Word(y)
  {
  }

  lemma OverwriteSets(s: bytes, at: nat, n: u32)
    requires at + 4 <= |s|
    ensures WordAt(Overwrite(s, at, LE32(n)), at) == n
  {
    hide LE32, Word;
    assert Overwrite(s, at, LE32(n))[at..] == LE32(n) + s[at + 4..];
    WordRoundTrip(n, s[at + 4..]);
  }

  lemma OverwriteKeeps(s: bytes, at: nat, x: bytes, off: nat)
    requires at + |x| <= |s| && (off + 4 <= at || at + |x| <= off)
    ensures WordAt(Overwrite(s, at, x), off) == WordAt(s, off)
  {
  }

  lemma PrefixWord(s: bytes, t: bytes, off: nat)
    requires s <= t && off + 4 <= |s|
    ensures WordAt(t, off) == WordAt(s, off)
  {
    assert t[..|s|] == s;
  }

  // ---- fields ----

  /** Where a header has the size of a block. */
  function FieldAt(v: Version, b: Block): nat
    requires HasField(v, b)
  {
    match b
    case 0 => 8
    case 1 => if IsVendor(v) then 24 else if v == V3 || v == V4 then 12 else 16
    case 2 => 24
    case 3 => if v == V0 then 40 else 32
    case 4 => 1632
    case 5 => if v == V2 then 1648 else 2100
    case 6 => 1580
    case 7 => 2112
    case 8 => 2124
  }

  /** Reading a field that the header does not have gives 0. */
  function SizeIn(v: Version, s: bytes, b: Block): u32 { if HasField(v, b) then WordAt(s, FieldAt(v, b)) else 0 }

  function SizesIn(v: Version, s: bytes): (r: Sizes)
    ensures forall b: Block :: r[b] == SizeIn(v, s, b)
  {
    seq(9, b requires 0 <= b < 9 => SizeIn(v, s, b))
  }

  /** The page size: a field of the header, but fixed since version 3 of boot images. */
  function PageIn(v: Version, s: bytes): nat {
    match v
    case V3 | V4 => 4096
    case Pxa => WordAt(s, 44)
    case Vendor3 | Vendor4 => WordAt(s, 12)
    case V0 | V1 | V2 => WordAt(s, 36)
  }

  /** parse_hdr: the variant the parser takes a header for. Version 0 has the size of the extra block where the later
      ones have their version. */
  function SelectVersion(s: bytes, vendor: bool): Version {
    if vendor then (if WordAt(s, 8) == 4 then Vendor4 else Vendor3)
    else if WordAt(s, 36) >= 0x02000000 then Pxa
    else
      match WordAt(s, 40)
      case 1 => V1
      case 2 => V2
      case 3 => V3
      case 4 => V4
      case _ => V0
  }

  const RECOVERY_DTBO_OFFSET_AT := 1636

  function HeaderSizeAt(v: Version): nat {
    match v
    case V3 | V4 => 20
    case Vendor3 | Vendor4 => 2096
    case _ => 1644
  }

  predicate HasHeaderSize(v: Version) { v != V0 && v != Pxa }

  /** The words by which a variant is recognised and its page size is known, as far as no size is kept there. */
  predicate IsSelector(v: Version, off: nat) {
    match v
    case Vendor3 | Vendor4 => off == 8 || off == 12
    case Pxa => off == 36 || off == 44
    case V0 => off == 36
    case _ => off == 36 || off == 40
  }

  /** A store of so many bytes does not touch the word at off. */
  predicate IsApart(at: nat, n: nat, off: nat) { off + 4 <= at || at + n <= off }

  /** Fields lie within the header, apart from each other and from the selecting words. */
  lemma FieldsAreApart(v: Version, b: Block)
    requires HasField(v, b)
    ensures FieldAt(v, b) + 4 <= HdrSize(v)
    ensures forall c: Block | HasField(v, c) && c != b :: IsApart(FieldAt(v, b), 4, FieldAt(v, c))
    ensures forall off: nat | IsSelector(v, off) :: IsApart(FieldAt(v, b), 4, off)
    ensures HasField(v, RECOVERY_DTBO) ==>
              && IsApart(FieldAt(v, b), 4, RECOVERY_DTBO_OFFSET_AT)
              && IsApart(FieldAt(v, b), 4, RECOVERY_DTBO_OFFSET_AT + 4)
  {
  }

  lemma AllApart(v: Version)
    ensures HasField(v, RECOVERY_DTBO) ==> RECOVERY_DTBO_OFFSET_AT + 8 <= HdrSize(v)
    ensures HasHeaderSize(v) ==> HeaderSizeAt(v) + 4 <= HdrSize(v)
    ensures HasField(v, RECOVERY_DTBO) && HasHeaderSize(v) ==>
              && IsApart(HeaderSizeAt(v), 4, RECOVERY_DTBO_OFFSET_AT)
              && IsApart(HeaderSizeAt(v), 4, RECOVERY_DTBO_OFFSET_AT + 4)
    ensures forall c: Block | HasField(v, c) ::
              && (HasField(v, RECOVERY_DTBO) ==> IsApart(RECOVERY_DTBO_OFFSET_AT, 8, FieldAt(v, c)))
              && (HasHeaderSize(v) ==> IsApart(HeaderSizeAt(v), 4, FieldAt(v, c)))
    ensures forall off: nat | IsSelector(v, off) ::
              && (HasField(v, RECOVERY_DTBO) ==> IsApart(RECOVERY_DTBO_OFFSET_AT, 8, off))
              && (HasHeaderSize(v) ==> IsApart(HeaderSizeAt(v), 4, off))
  {
  }

  /** The byte is in none of the fields that repacking writes. */
  predicate IsText(v: Version, i: nat) {
    && (forall b: Block | HasField(v, b) :: IsOutside(FieldAt(v, b), 4, i))
    && (HasField(v, RECOVERY_DTBO) ==> IsOutside(RECOVERY_DTBO_OFFSET_AT, 8, i))
    && (HasHeaderSize(v) ==> IsOutside(HeaderSizeAt(v), 4, i))
  }

  predicate IsOutside(at: nat, n: nat, i: nat) { i < at || at + n <= i }

  ghost predicate KeepsText(v: Version, before: bytes, after: bytes) {
    |after| == |before| == HdrSize(v) && forall i: nat | i < |before| && IsText(v, i) :: after[i] == before[i]
  }

  ghost predicate KeepsSelectors(v: Version, before: bytes, after: bytes) {
    |after| == |before| && forall off: nat | IsSelector(v, off) :: WordAt(after, off) == WordAt(before, off)
  }

  lemma TextHasSelectors(v: Version, before: bytes, after: bytes)
    requires KeepsText(v, before, after)
    ensures KeepsSelectors(v, before, after)
  {
    hide WordAt;
    AllApart(v);
    forall off: nat | IsSelector(v, off) ensures WordAt(after, off) == WordAt(before, off) {
      forall i: nat | off <= i < off + 4 ensures IsText(v, i) {
        forall b: Block | HasField(v, b) ensures IsOutside(FieldAt(v, b), 4, i) {
          FieldsAreApart(v, b);
          assert IsApart(FieldAt(v, b), 4, off);
        }
      }
      SameWord(after, before, off);
    }
  }

  /** A header of one variant is taken for the same variant, unless it is of version 0 and its extra size is a
      version. */
  lemma SelectionStays(v: Version, before: bytes, after: bytes)
    requires KeepsSelectors(v, before, after) && SelectVersion(before, IsVendor(v)) == v
    ensures PageIn(v, after) == PageIn(v, before)
    ensures SelectVersion(after, IsVendor(v)) == v <==> !(v == V0 && 1 <= SizeIn(v, after, EXTRA) <= 4)
    ensures SelectVersion(after, IsVendor(v)) != v ==> !HasField(SelectVersion(after, IsVendor(v)), EXTRA)
  {
    hide WordAt;
    assert forall off: nat | IsSelector(v, off) :: WordAt(after, off) == WordAt(before, off);
  }

  // ---- writing fields ----

  function DtboOffsetIn(v: Version, s: bytes): nat {
    if HasField(v, RECOVERY_DTBO)
    then WordAt(s, RECOVERY_DTBO_OFFSET_AT) + U32 * WordAt(s, RECOVERY_DTBO_OFFSET_AT + 4) else 0
  }

  predicate HasOwnSize(v: Version, s: bytes) { HasHeaderSize(v) ==> WordAt(s, HeaderSizeAt(v)) == HdrSize(v) }

  /** A store of a word changes that word only. */
  lemma StoreWord(s: bytes, at: nat, n: u32)
    requires at + 4 <= |s|
    ensures var r := Overwrite(s, at, LE32(n));
            && WordAt(r, at) == n
            && (forall off: nat | IsApart(at, 4, off) :: WordAt(r, off) == WordAt(s, off))
            && (forall i: nat | i < |s| && IsOutside(at, 4, i) :: r[i] == s[i])
  {
    hide WordAt, LE32;
    OverwriteSets(s, at, n);
    forall off: nat | IsApart(at, 4, off) ensures WordAt(Overwrite(s, at, LE32(n)), off) == WordAt(s, off) {
      OverwriteKeeps(s, at, LE32(n), off);
    }
  }

  /** Writing a field that the header does not have has no effect. */
  function WithSize(v: Version, s: bytes, b: Block, n: nat): bytes
    requires |s| == HdrSize(v)
  {
    if HasField(v, b) then FieldsAreApart(v, b); Overwrite(s, FieldAt(v, b), LE32(Wrap(n))) else s
  }

  lemma WithSizeIs(v: Version, s: bytes, b: Block, n: nat)
    requires |s| == HdrSize(v)
    ensures var r := WithSize(v, s, b, n);
            && KeepsText(v, s, r)
            && DtboOffsetIn(v, r) == DtboOffsetIn(v, s) && (HasOwnSize(v, s) ==> HasOwnSize(v, r))
            && forall c: Block :: SizeIn(v, r, c) == if c == b then SizeOrNone(v, b, n) else SizeIn(v, s, c)
  {
    hide WordAt, HasField, FieldAt, Overwrite, LE32, HasHeaderSize, HeaderSizeAt;
    if HasField(v, b) {
      FieldsAreApart(v, b);
      HeaderSizeIsApart(v, b);
      StoreWord(s, FieldAt(v, b), Wrap(n));
    }
  }

  lemma HeaderSizeIsApart(v: Version, b: Block)
    requires HasField(v, b)
    ensures HasHeaderSize(v) ==> IsApart(FieldAt(v, b), 4, HeaderSizeAt(v))
  {
  }

  function WithDtboOffset(v: Version, s: bytes, n: nat): bytes
    requires |s| == HdrSize(v)
  {
    if HasField(v, RECOVERY_DTBO)
    then Overwrite(Overwrite(s, RECOVERY_DTBO_OFFSET_AT, LE32(n % U32)), RECOVERY_DTBO_OFFSET_AT + 4,
                   LE32(n / U32 % U32))
    else s
  }

  lemma WithDtboOffsetIs(v: Version, s: bytes, n: nat)
    requires |s| == HdrSize(v)
    ensures var r := WithDtboOffset(v, s, n);
            && KeepsText(v, s, r)
            && DtboOffsetIn(v, r) == (if HasField(v, RECOVERY_DTBO) then n % (U32 * U32) else DtboOffsetIn(v, s))
            && (HasOwnSize(v, s) ==> HasOwnSize(v, r))
            && forall c: Block :: SizeIn(v, r, c) == SizeIn(v, s, c)
  {
    if HasField(v, RECOVERY_DTBO) {
      AllApart(v);
      hide WordAt, FieldAt, Overwrite, LE32, HasHeaderSize, HeaderSizeAt;
      StoreWord(s, RECOVERY_DTBO_OFFSET_AT, n % U32);
      StoreWord(Overwrite(s, RECOVERY_DTBO_OFFSET_AT, LE32(n % U32)), RECOVERY_DTBO_OFFSET_AT + 4, n / U32 % U32);
      TwoWords(n);
    }
  }

  lemma TwoWords(n: nat)
    ensures n % U32 + U32 * (n / U32 % U32) == n % (U32 * U32)
  {
    var low, high := n % U32, n / U32 % U32;
    var q := n / U32 / U32;
    assert n == low + U32 * (high + U32 * q);
    assert n == (low + U32 * high) + q * (U32 * U32);
  }

  function WithOwnSize(v: Version, s: bytes): bytes
    requires |s| == HdrSize(v)
  {
    if HasHeaderSize(v) then Overwrite(s, HeaderSizeAt(v), LE32(HdrSize(v))) else s
  }

  lemma WithOwnSizeIs(v: Version, s: bytes)
    requires |s| == HdrSize(v)
    ensures var r := WithOwnSize(v, s);
            && KeepsText(v, s, r)
            && DtboOffsetIn(v, r) == DtboOffsetIn(v, s) && HasOwnSize(v, r)
            && forall c: Block :: SizeIn(v, r, c) == SizeIn(v, s, c)
  {
    if HasHeaderSize(v) {
      AllApart(v);
      hide WordAt, FieldAt, Overwrite, LE32;
      StoreWord(s, HeaderSizeAt(v), HdrSize(v));
    }
  }

  /** A header is determined by the fields that are written and the text that is kept. */
  lemma HeaderIsDetermined(v: Version, first: bytes, s: bytes, t: bytes)
    requires KeepsText(v, first, s) && KeepsText(v, first, t)
    requires forall b: Block :: SizeIn(v, s, b) == SizeIn(v, t, b)
    requires DtboOffsetIn(v, s) == DtboOffsetIn(v, t) && HasOwnSize(v, s) && HasOwnSize(v, t)
    ensures s == t
  {
    hide WordAt, FieldAt;
    AllApart(v);
    forall i: nat | i < |s| ensures s[i] == t[i] {
      if !IsText(v, i) {
        FieldByte(v, s, t, i);
      }
    }
  }

  lemma FieldByte(v: Version, s: bytes, t: bytes, i: nat)
    requires |s| == |t| == HdrSize(v) && i < |s| && !IsText(v, i)
    requires forall b: Block :: SizeIn(v, s, b) == SizeIn(v, t, b)
    requires DtboOffsetIn(v, s) == DtboOffsetIn(v, t) && HasOwnSize(v, s) && HasOwnSize(v, t)
    ensures s[i] == t[i]
  {
    AllApart(v);
    hide WordAt, FieldAt;
    if b: Block :| HasField(v, b) && !IsOutside(FieldAt(v, b), 4, i) {
      FieldsAreApart(v, b);
      assert SizeIn(v, s, b) == SizeIn(v, t, b);
      SameWord(s, t, FieldAt(v, b));
    } else if HasField(v, RECOVERY_DTBO) && !IsOutside(RECOVERY_DTBO_OFFSET_AT, 8, i) {
      SameWord(s, t, RECOVERY_DTBO_OFFSET_AT);
      SameWord(s, t, RECOVERY_DTBO_OFFSET_AT + 4);
    } else {
      SameWord(s, t, HeaderSizeAt(v));
    }
  }

  class Header {
    const version: Version
    var raw: bytes
    ghost const first: bytes

    ghost predicate Valid()
      reads this
    {
      KeepsText(version, first, raw)
    }

    /** clone */
    constructor (version: Version, raw: bytes)
      requires |raw| == HdrSize(version)
      ensures Valid() && this.version == version && this.raw == raw && first == raw
    {
      this.version, this.raw, this.first := version, raw, raw;
    }

    function Size(b: Block): u32
      reads this
    {
      SizeIn(version, raw, b)
    }

    function RecoveryDtboOffset(): nat
      reads this
    {
      DtboOffsetIn(version, raw)
    }

    method SetSize(b: Block, n: nat)
      requires Valid()
      modifies this`raw
      ensures Valid() && RecoveryDtboOffset() == old(RecoveryDtboOffset())
      ensures forall c: Block :: Size(c) == if c == b then SizeOrNone(version, b, n) else old(Size(c))
    {
      hide SizeIn, DtboOffsetIn, WithSize, IsText;
      WithSizeIs(version, raw, b, n);
      raw := WithSize(version, raw, b, n);
    }

    method SetRecoveryDtboOffset(n: nat)
      requires Valid()
      modifies this`raw
      ensures Valid() && forall c: Block :: Size(c) == old(Size(c))
      ensures RecoveryDtboOffset()
              == if HasField(version, RECOVERY_DTBO) then n % (U32 * U32) else old(RecoveryDtboOffset())
    {
      hide SizeIn, DtboOffsetIn, WithDtboOffset, IsText;
      WithDtboOffsetIs(version, raw, n);
      raw := WithDtboOffset(version, raw, n);
    }

    method SetHeaderSize()
      requires Valid()
      modifies this`raw
      ensures Valid() && RecoveryDtboOffset() == old(RecoveryDtboOffset())
      ensures HasOwnSize(version, raw) && forall c: Block :: Size(c) == old(Size(c))
    {
      hide SizeIn, DtboOffsetIn, WithOwnSize, IsText, HasOwnSize;
      WithOwnSizeIs(version, raw);
      raw := WithOwnSize(version, raw);
    }
  }
}
