/**
  The headers of boot images field by field (native/src/boot/bootimg.hpp): the places from which sizes, the page and the
  version are read are those of the fields they are named after.
 */
module BootFields {
  import opened Bytes
  import opened BootLayout
  import opened BootHeader

  datatype FieldName =
    | Magic | KernelSize | KernelAddr | RamdiskSize | RamdiskAddr | SecondSize | SecondAddr | TagsAddr | Unknown
    | PageSize | HeaderVersion | ExtraSize | OsVersion | Name | Cmdline | Id | ExtraCmdline | RecoveryDtboSize
    | RecoveryDtboOffset | HeaderSize | DtbSize | DtbAddr | Reserved | SignatureSize | VendorRamdiskTableSize
    | VendorRamdiskTableEntryNum | VendorRamdiskTableEntrySize | BootconfigSize

  /** A field, or the names of a union, with its place and its width. */
  datatype Field = Field(names: set<FieldName>, at: nat, width: nat)

  /** The fields follow each other without gaps. */
  predicate IsLayout(fields: seq<Field>, size: nat) {
    && fields != [] && fields[0].at == 0
    && (forall i | 0 < i < |fields| :: fields[i].at == fields[i - 1].at + fields[i - 1].width)
    && size == fields[|fields| - 1].at + fields[|fields| - 1].width
  }

  const V0_FIELDS := [
    Field({Magic}, 0, 8), Field({KernelSize}, 8, 4), Field({KernelAddr}, 12, 4), Field({RamdiskSize}, 16, 4),
    Field({RamdiskAddr}, 20, 4), Field({SecondSize}, 24, 4), Field({SecondAddr}, 28, 4),
    Field({TagsAddr}, 32, 4), Field({Unknown, PageSize}, 36, 4), Field({HeaderVersion, ExtraSize}, 40, 4),
    Field({OsVersion}, 44, 4), Field({Name}, 48, 16), Field({Cmdline}, 64, 512), Field({Id}, 576, 32),
    Field({ExtraCmdline}, 608, 1024)]

  const V1_FIELDS := [
    Field({RecoveryDtboSize}, 1632, 4), Field({RecoveryDtboOffset}, 1636, 8), Field({HeaderSize}, 1644, 4)]

  const V2_FIELDS := [Field({DtbSize}, 1648, 4), Field({DtbAddr}, 1652, 8)]

  const PXA_FIELDS := [
    Field({Magic}, 0, 8), Field({KernelSize}, 8, 4), Field({KernelAddr}, 12, 4), Field({RamdiskSize}, 16, 4),
    Field({RamdiskAddr}, 20, 4), Field({SecondSize}, 24, 4), Field({SecondAddr}, 28, 4),
    Field({ExtraSize}, 32, 4), Field({Unknown}, 36, 4), Field({TagsAddr}, 40, 4), Field({PageSize}, 44, 4),
    Field({Name}, 48, 24), Field({Cmdline}, 72, 512), Field({Id}, 584, 32), Field({ExtraCmdline}, 616, 1024)]

  const V3_FIELDS := [
    Field({Magic}, 0, 8), Field({KernelSize}, 8, 4), Field({RamdiskSize}, 12, 4), Field({OsVersion}, 16, 4),
    Field({HeaderSize}, 20, 4), Field({Reserved}, 24, 16), Field({HeaderVersion}, 40, 4),
    Field({Cmdline}, 44, 1536)]

  const V4_FIELDS := [Field({SignatureSize}, 1580, 4)]

  const VENDOR3_FIELDS := [
    Field({Magic}, 0, 8), Field({HeaderVersion}, 8, 4), Field({PageSize}, 12, 4), Field({KernelAddr}, 16, 4),
    Field({RamdiskAddr}, 20, 4), Field({RamdiskSize}, 24, 4), Field({Cmdline}, 28, 2048),
    Field({TagsAddr}, 2076, 4), Field({Name}, 2080, 16), Field({HeaderSize}, 2096, 4),
    Field({DtbSize}, 2100, 4), Field({DtbAddr}, 2104, 8)]

  const VENDOR4_FIELDS := [
    Field({VendorRamdiskTableSize}, 2112, 4), Field({VendorRamdiskTableEntryNum}, 2116, 4),
    Field({VendorRamdiskTableEntrySize}, 2120, 4), Field({BootconfigSize}, 2124, 4)]

  function Fields(v: Version): seq<Field> {
    match v
    case V0 => V0_FIELDS
    case V1 => V0_FIELDS + V1_FIELDS
    case V2 => V0_FIELDS + V1_FIELDS + V2_FIELDS
    case Pxa => PXA_FIELDS
    case V3 => V3_FIELDS
    case V4 => V3_FIELDS + V4_FIELDS
    case Vendor3 => VENDOR3_FIELDS
    case Vendor4 => VENDOR3_FIELDS + VENDOR4_FIELDS
  }

  /** The field that says how long a block is. */
  function SizeName(b: Block): FieldName {
    match b
    case 0 => KernelSize
    case 1 => RamdiskSize
    case 2 => SecondSize
    case 3 => ExtraSize
    case 4 => RecoveryDtboSize
    case 5 => DtbSize
    case 6 => SignatureSize
    case 7 => VendorRamdiskTableSize
    case 8 => BootconfigSize
  }

  predicate HasName(f: Field, name: FieldName) { name in f.names }

  lemma FirstPartsAreLayouts()
    ensures IsLayout(V0_FIELDS, 1632)
  {
  }

  lemma PxaIsLayout()
    ensures IsLayout(PXA_FIELDS, 1640)
  {
  }

  lemma LaterPartsAreLayouts()
    ensures IsLayout(V3_FIELDS, 1580) && IsLayout(VENDOR3_FIELDS, 2112)
  {
  }

  lemma LayoutGoesOn(a: seq<Field>, b: seq<Field>, n: nat, m: nat)
    requires IsLayout(a, n) && b != [] && b[0].at == n
    requires forall i | 0 < i < |b| :: b[i].at == b[i - 1].at + b[i - 1].width
    requires m == b[|b| - 1].at + b[|b| - 1].width
    ensures IsLayout(a + b, m)
  {
    var c := a + b;
    forall i | 0 < i < |c| ensures c[i].at == c[i - 1].at + c[i - 1].width {
      if i > |a| {
        assert c[i] == b[i - |a|] && c[i - 1] == b[i - |a| - 1];
      }
    }
  }

  /** The fields of every variant are contiguous and end where its header ends. */
  lemma HeadersAreLayouts(v: Version)
    ensures IsLayout(Fields(v), HdrSize(v))
  {
    hide IsLayout, V0_FIELDS, V1_FIELDS, V2_FIELDS, PXA_FIELDS, V3_FIELDS, V4_FIELDS, VENDOR3_FIELDS, VENDOR4_FIELDS;
    FirstPartsAreLayouts();
    PxaIsLayout();
    LaterPartsAreLayouts();
    match v
    case V1 => GoesOn1();
    case V2 => GoesOn1(); GoesOn2();
    case V4 => GoesOn4();
    case Vendor4 => GoesOnVendor();
    case _ =>
  }

  lemma GoesOn1()
    ensures IsLayout(V0_FIELDS + V1_FIELDS, 1648)
  {
    FirstPartsAreLayouts();
    LayoutGoesOn(V0_FIELDS, V1_FIELDS, 1632, 1648);
  }

  lemma GoesOn2()
    ensures IsLayout(V0_FIELDS + V1_FIELDS + V2_FIELDS, 1660)
  {
    GoesOn1();
    LayoutGoesOn(V0_FIELDS + V1_FIELDS, V2_FIELDS, 1648, 1660);
  }

  lemma GoesOn4()
    ensures IsLayout(V3_FIELDS + V4_FIELDS, 1584)
  {
    LaterPartsAreLayouts();
    LayoutGoesOn(V3_FIELDS, V4_FIELDS, 1580, 1584);
  }

  lemma GoesOnVendor()
    ensures IsLayout(VENDOR3_FIELDS + VENDOR4_FIELDS, 2128)
  {
    LaterPartsAreLayouts();
    LayoutGoesOn(VENDOR3_FIELDS, VENDOR4_FIELDS, 2112, 2128);
  }

  /** There is a field of that name at that place. */
  predicate Has(v: Version, name: FieldName, at: nat, width: nat) {
    exists f | f in Fields(v) :: HasName(f, name) && f.at == at && f.width == width
  }

  lemma FieldIs(v: Version, f: Field, name: FieldName)
    requires f in Fields(v) && name in f.names
    ensures Has(v, name, f.at, f.width)
  {
    assert HasName(f, name);
  }

  lemma KernelAndRamdisk(v: Version, b: Block)
    requires HasField(v, b) && b <= RAMDISK
    ensures Has(v, SizeName(b), FieldAt(v, b), 4)
  {
    hide Has;
    var fs := Fields(v);
    match b
    case 0 => FieldIs(v, fs[1], KernelSize);
    case 1 => FieldIs(v, if IsVendor(v) then fs[5] else if v == V3 || v == V4 then fs[2] else fs[3], RamdiskSize);
  }

  lemma OtherBlocks(v: Version, b: Block)
    requires HasField(v, b) && RAMDISK < b <= DTB
    ensures Has(v, SizeName(b), FieldAt(v, b), 4)
  {
    hide Has;
    var fs := Fields(v);
    match b
    case 2 => FieldIs(v, fs[5], SecondSize);
    case 3 => FieldIs(v, if v == V0 then fs[9] else fs[7], ExtraSize);
    case 4 => FieldIs(v, fs[15], RecoveryDtboSize);
    case 5 => FieldIs(v, if v == V2 then fs[18] else fs[10], DtbSize);
  }

  lemma LateBlocks(v: Version, b: Block)
    requires HasField(v, b) && DTB < b
    ensures Has(v, SizeName(b), FieldAt(v, b), 4)
  {
    hide Has;
    var fs := Fields(v);
    match b
    case 6 => FieldIs(v, fs[8], SignatureSize);
    case 7 => FieldIs(v, fs[12], VendorRamdiskTableSize);
    case 8 => FieldIs(v, fs[15], BootconfigSize);
  }

  /** A size is read from the field of its name. */
  lemma SizesAreFields(v: Version, b: Block)
    requires HasField(v, b)
    ensures Has(v, SizeName(b), FieldAt(v, b), 4)
  {
    hide Has, Fields, HasField, FieldAt, SizeName;
    if b <= RAMDISK {
      KernelAndRamdisk(v, b);
    } else if b <= DTB {
      OtherBlocks(v, b);
    } else {
      LateBlocks(v, b);
    }
  }

  /** The sizes among the fields of each part. */
  lemma SizesInV0(f: Field, b: Block)
    requires SizeName(b) in f.names && f in V0_FIELDS
    ensures b <= 2 || (b == EXTRA && f == Field({HeaderVersion, ExtraSize}, 40, 4))
  {
  }

  lemma SizesInPxa(f: Field, b: Block)
    requires SizeName(b) in f.names && f in PXA_FIELDS
    ensures b <= EXTRA
  {
  }

  lemma SizesInV3(f: Field, b: Block)
    requires SizeName(b) in f.names && f in V3_FIELDS
    ensures b <= 1
  {
  }

  lemma SizesInVendor3(f: Field, b: Block)
    requires SizeName(b) in f.names && f in VENDOR3_FIELDS
    ensures b == RAMDISK || b == DTB
  {
  }

  lemma SizesInLaterParts(f: Field, b: Block)
    requires SizeName(b) in f.names
    ensures f in V1_FIELDS ==> b == RECOVERY_DTBO
    ensures f in V2_FIELDS ==> b == DTB
    ensures f in V4_FIELDS ==> b == SIGNATURE
    ensures f in VENDOR4_FIELDS ==> b == RAMDISK_TABLE || b == BOOTCONFIG
  {
  }

  /** A block without a size has no field for it; only the union of version and extra size is read one way. */
  lemma NoOtherSizes(v: Version, b: Block, f: Field)
    requires !HasField(v, b) && f in Fields(v) && SizeName(b) in f.names
    ensures b == EXTRA && (v == V1 || v == V2) && f == Field({HeaderVersion, ExtraSize}, 40, 4)
  {
    hide V0_FIELDS, V1_FIELDS, V2_FIELDS, PXA_FIELDS, V3_FIELDS, V4_FIELDS, VENDOR3_FIELDS, VENDOR4_FIELDS, SizeName;
    SizesInLaterParts(f, b);
    if f in V0_FIELDS {
      SizesInV0(f, b);
    }
    if f in PXA_FIELDS {
      SizesInPxa(f, b);
    }
    if f in V3_FIELDS {
      SizesInV3(f, b);
    }
    if f in VENDOR3_FIELDS {
      SizesInVendor3(f, b);
    }
  }

  /** So are the page, the version, the length of the header and the place of recovery_dtbo. */
  lemma OthersAreFields(v: Version, s: bytes)
    ensures v != V3 && v != V4 ==> exists at :: Has(v, PageSize, at, 4) && PageIn(v, s) == WordAt(s, at)
    ensures v == V3 || v == V4 ==> PageIn(v, s) == 4096
    ensures HasHeaderSize(v) ==> Has(v, HeaderSize, HeaderSizeAt(v), 4)
    ensures HasField(v, RECOVERY_DTBO) ==> Has(v, RecoveryDtboOffset, RECOVERY_DTBO_OFFSET_AT, 8)
    ensures v != Pxa ==> Has(v, HeaderVersion, if IsVendor(v) then 8 else 40, 4)
  {
    hide Has, WordAt, Fields;
    PageField(v);
    if v != Pxa {
      VersionField(v);
    }
    SizeOfHeader(v);
  }

  lemma PageField(v: Version)
    ensures v == V0 || v == V1 || v == V2 ==> Has(v, PageSize, 36, 4)
    ensures v == Pxa ==> Has(v, PageSize, 44, 4)
    ensures IsVendor(v) ==> Has(v, PageSize, 12, 4)
  {
    hide Has;
    var fs := Fields(v);
    if IsVendor(v) {
      FieldIs(v, fs[2], PageSize);
    } else if v == Pxa {
      FieldIs(v, fs[10], PageSize);
    } else if v != V3 && v != V4 {
      FieldIs(v, fs[8], PageSize);
    }
  }

  lemma VersionField(v: Version)
    requires v != Pxa
    ensures Has(v, HeaderVersion, if IsVendor(v) then 8 else 40, 4)
  {
    hide Has;
    var fs := Fields(v);
    FieldIs(v, if IsVendor(v) then fs[1] else if v == V3 || v == V4 then fs[6] else fs[9], HeaderVersion);
  }

  lemma SizeOfHeader(v: Version)
    ensures HasHeaderSize(v) ==> Has(v, HeaderSize, HeaderSizeAt(v), 4)
    ensures HasField(v, RECOVERY_DTBO) ==> Has(v, RecoveryDtboOffset, RECOVERY_DTBO_OFFSET_AT, 8)
  {
    hide Has;
    var fs := Fields(v);
    if v == V1 || v == V2 {
      FieldIs(v, fs[17], HeaderSize);
      FieldIs(v, fs[16], RecoveryDtboOffset);
    } else if v == V3 || v == V4 {
      FieldIs(v, fs[4], HeaderSize);
    } else if IsVendor(v) {
      FieldIs(v, fs[9], HeaderSize);
    }
  }

  /** Which header is taken for which variant: by its version, unless its page is too large to be one. */
  lemma VersionsAreSelected(s: bytes)
    ensures WordAt(s, 36) >= 0x2000000 ==> SelectVersion(s, false) == Pxa
    ensures WordAt(s, 36) < 0x2000000 ==>
              var n := WordAt(s, 40);
              && (n == 1 <==> SelectVersion(s, false) == V1) && (n == 2 <==> SelectVersion(s, false) == V2)
              && (n == 3 <==> SelectVersion(s, false) == V3) && (n == 4 <==> SelectVersion(s, false) == V4)
              && (n == 0 || n > 4 <==> SelectVersion(s, false) == V0)
    ensures SelectVersion(s, true) == Vendor4 <==> WordAt(s, 8) == 4
    ensures SelectVersion(s, true) == Vendor3 <==> WordAt(s, 8) != 4
  {
  }
}
