/**
  Writing a new boot image from the parsed old one and the files that replace its parts
  (native/src/boot/bootimg.cpp). The compression of a file, the magic-driven special cases and the checksums are
  not part of the model: a file stands for the bytes that are written for it.
 */
module BootRepack {
  import opened Wrappers
  import opened Bytes
  import opened BootLayout
  import opened BootHeader
  import opened BootAgreement
  import opened BootImage

  const MTK_HDR_SIZE := 512
  const ENTRY_SIZE := 108

  lemma WrapAdd(a: nat, b: nat)
    ensures Wrap(Wrap(a) + b) == Wrap(a + b)
  {
    var q: nat := a / U32;
    assert a + b == Wrap(a) + b + q * U32;
  }

  /** An entry of the table of vendor ramdisks: size and offset, and what is copied unchanged. */
  datatype Entry = Entry(size: u32, offset: u32, rest: bytes)

  function EntryBytes(e: Entry): bytes { LE32(e.size) + LE32(e.offset) + e.rest }

  /** The old image: its header, as bytes and as parsed, and the parts of it that are copied. The prefix is the length
      of what some vendors put in front of the header, the length that of the rest of the image. */
  datatype Source = Source(
    version: Version, page: nat, raw: bytes, entries: seq<Entry>, prefix: nat, header: bytes, kernel: bytes,
    signature: bytes, mtkKernel: Option<bytes>, mtkRamdisk: Option<bytes>, trailer: bytes, length: nat)

  /** What parsing the old image has established. */
  predicate IsParsed(src: Source) {
    && |src.raw| == HdrSize(src.version) <= src.length
    && SelectVersion(src.raw, IsVendor(src.version)) == src.version
    && src.page == PageIn(src.version, src.raw) > 0
    && |src.header| == HdrSpace(src.version, src.page)
    && |src.kernel| == SizeIn(src.version, src.raw, KERNEL)
    && |src.signature| == SizeIn(src.version, src.raw, SIGNATURE)
    && (src.mtkKernel.Some? ==> |src.mtkKernel.value| == MTK_HDR_SIZE)
    && (src.mtkRamdisk.Some? ==> |src.mtkRamdisk.value| == MTK_HDR_SIZE)
    && (forall i | 0 <= i < |src.entries| :: |src.entries[i].rest| == ENTRY_SIZE - 8)
  }

  /** The files that are there, and one ramdisk for each entry of the table. */
  datatype Files = Files(
    kernel: Option<bytes>, kernelDtb: Option<bytes>, ramdisk: Option<bytes>, second: Option<bytes>,
    extra: Option<bytes>,
    recoveryDtbo: Option<bytes>, dtb: Option<bytes>, bootconfig: Option<bytes>, vendor: seq<bytes>)

  // ---- what is written ----

  function Concat(fs: seq<bytes>): bytes { if fs == [] then [] else Concat(fs[..|fs| - 1]) + fs[|fs| - 1] }

  predicate HasTable(src: Source) { SizeIn(src.version, src.raw, RAMDISK_TABLE) != 0 }

  /** A ramdisk is where those before it end. */
  function NewEntry(entries: seq<Entry>, fs: seq<bytes>, i: nat): Entry
    requires i < |entries| == |fs|
  {
    Entry(Wrap(|fs[i]|), Wrap(|Concat(fs[..i])|), entries[i].rest)
  }

  function NewEntries(entries: seq<Entry>, fs: seq<bytes>): seq<Entry>
    requires |fs| == |entries|
  {
    seq(|entries|, i requires 0 <= i < |entries| => NewEntry(entries, fs, i))
  }

  lemma NewEntriesAre(entries: seq<Entry>, fs: seq<bytes>)
    requires |fs| == |entries|
    ensures |NewEntries(entries, fs)| == |entries|
    ensures forall i | 0 <= i < |entries| :: NewEntries(entries, fs)[i] == NewEntry(entries, fs, i)
  {
  }

  function TableBytes(entries: seq<Entry>): bytes {
    if entries == [] then [] else TableBytes(entries[..|entries| - 1]) + EntryBytes(entries[|entries| - 1])
  }

  function KernelData(src: Source, files: Files): bytes { files.kernel.GetOr(src.kernel) + files.kernelDtb.GetOr([]) }

  function RamdiskData(src: Source, files: Files): bytes {
    if HasTable(src) then Concat(files.vendor) else files.ramdisk.GetOr([])
  }

  /** A vendor header in front of a block, with the size of what follows. */
  function Mtk(hdr: Option<bytes>, size: u32): bytes
    requires hdr.Some? ==> |hdr.value| == MTK_HDR_SIZE
  {
    if hdr.Some? then Overwrite(hdr.value, 4, LE32(size)) else []
  }

  function TableData(src: Source, files: Files): bytes
    requires |files.vendor| == |src.entries|
  {
    if HasTable(src) then TableBytes(NewEntries(src.entries, files.vendor)) else []
  }

  function Pieces(src: Source, files: Files, kernelHdr: bytes, ramdiskHdr: bytes): (r: seq<Piece>)
    requires |files.vendor| == |src.entries|
    ensures |r| == 9
  {
    [ Piece(kernelHdr + KernelData(src, files), true),
      Piece(ramdiskHdr + RamdiskData(src, files), HasTable(src) || files.ramdisk.Some?),
      FilePiece(files.second),
      FilePiece(files.extra),
      FilePiece(files.recoveryDtbo),
      FilePiece(files.dtb),
      Piece(src.signature, src.signature != []),
      Piece(TableData(src, files), TableData(src, files) != []),
      FilePiece(files.bootconfig) ]
  }

  /** The blocks of the new image. */
  function NewPieces(src: Source, files: Files): (r: seq<Piece>)
    requires IsParsed(src) && |files.vendor| == |src.entries|
    ensures |r| == 9
  {
    var k := SizeOrNone(src.version, KERNEL, |KernelData(src, files)|);
    var r := SizeOrNone(src.version, RAMDISK, |RamdiskData(src, files)|);
    Pieces(src, files, Mtk(src.mtkKernel, k), Mtk(src.mtkRamdisk, r))
  }

  /** The sizes in the new header: those of extra and recovery_dtbo are not reset, those of the signature and of the
      table are never changed. */
  function Recorded(src: Source, files: Files, b: Block): nat
    requires IsParsed(src)
  {
    var v := src.version;
    match b
    case 0 => SizeOrNone(v, b, |src.mtkKernel.GetOr([])| + |KernelData(src, files)|)
    case 1 => SizeOrNone(v, b, |src.mtkRamdisk.GetOr([])| + |RamdiskData(src, files)|)
    case 2 => SizeOrNone(v, b, |files.second.GetOr([])|)
    case 3 => if files.extra.Some? then SizeOrNone(v, b, |files.extra.value|) else SizeIn(v, src.raw, b)
    case 4 => if files.recoveryDtbo.Some? then SizeOrNone(v, b, |files.recoveryDtbo.value|) else SizeIn(v, src.raw, b)
    case 5 => SizeOrNone(v, b, |files.dtb.GetOr([])|)
    case 6 => SizeIn(v, src.raw, b)
    case 7 => SizeIn(v, src.raw, b)
    case 8 => SizeOrNone(v, b, |files.bootconfig.GetOr([])|)
  }

  /** The place of recovery_dtbo in the new header; it is not reset either. */
  function NewDtboOffset(src: Source, files: Files): nat
    requires IsParsed(src) && |files.vendor| == |src.entries|
  {
    if files.recoveryDtbo.Some? && HasField(src.version, RECOVERY_DTBO)
    then (src.prefix + Position(src.header, FirstPieces(src, files), src.page, RECOVERY_DTBO)) % (U32 * U32)
    else DtboOffsetIn(src.version, src.raw)
  }

  /** The sizes that the new header starts with. */
  function ResetSize(src: Source, b: Block): nat {
    if b == EXTRA || b == RECOVERY_DTBO || b == SIGNATURE || b == RAMDISK_TABLE then SizeIn(src.version, src.raw, b)
    else 0
  }

  /** The sizes before those of the vendor headers are added. */
  function FirstRecorded(src: Source, files: Files, b: Block): nat
    requires IsParsed(src)
  {
    if b == KERNEL then SizeOrNone(src.version, b, |KernelData(src, files)|)
    else if b == RAMDISK then SizeOrNone(src.version, b, |RamdiskData(src, files)|)
    else Recorded(src, files, b)
  }

  /** The pieces as they are first written, with the vendor headers still unchanged. */
  function FirstPieces(src: Source, files: Files): (r: seq<Piece>)
    requires |files.vendor| == |src.entries|
    ensures |r| == 9
  {
    Pieces(src, files, src.mtkKernel.GetOr([]), src.mtkRamdisk.GetOr([]))
  }

  // ---- writing ----

  class Repacker {
    const src: Source
    const files: Files
    const hdr: Header
    var body: bytes

    ghost predicate Valid()
      reads hdr
    {
      && src.page > 0 && IsParsed(src) && |files.vendor| == |src.entries|
      && hdr.version == src.version && hdr.first == src.raw && hdr.Valid()
    }

    /** A copy of the header, with most sizes reset. */
    constructor (src: Source, files: Files)
      requires IsParsed(src) && |files.vendor| == |src.entries|
      ensures Valid() && this.src == src && this.files == files && fresh(hdr) && body == src.header
      ensures hdr.RecoveryDtboOffset() == DtboOffsetIn(src.version, src.raw)
      ensures forall b: Block :: hdr.Size(b) == ResetSize(src, b)
    {
      this.src, this.files := src, files;
      hdr := new Header(src.version, src.raw);
      body := src.header;
      new;
      hide SizeIn, DtboOffsetIn, KeepsText, IsParsed, HasField, SizeOrNone, ResetSize;
      ResetSizes();
    }

    /** The sizes that the files may give anew start from nothing. */
    method ResetSizes()
      requires Valid() && forall b: Block :: hdr.Size(b) == SizeIn(src.version, src.raw, b)
      modifies hdr`raw
      ensures Valid() && hdr.RecoveryDtboOffset() == old(hdr.RecoveryDtboOffset())
      ensures forall b: Block :: hdr.Size(b) == ResetSize(src, b)
    {
      hide SizeIn, DtboOffsetIn, KeepsText, IsParsed, HasField, SizeOrNone;
      NoSize(src.version);
      hdr.SetSize(KERNEL, 0);
      hdr.SetSize(RAMDISK, 0);
      hdr.SetSize(SECOND, 0);
      hdr.SetSize(DTB, 0);
      hdr.SetSize(BOOTCONFIG, 0);
    }

    method Write(data: bytes)
      modifies this`body
      ensures body == old(body) + data
    {
      body := body + data;
    }

    method Align()
      requires Valid()
      modifies this`body
      ensures body == Padded(old(body), src.page)
    {
      body := Padded(body, src.page);
    }

    /** A block that is there if its file is. */
    method WriteFile(b: Block, file: Option<bytes>)
      requires Valid()
      modifies this`body, hdr`raw
      ensures Valid()
      ensures body == Step(old(body), FilePiece(file), src.page)
      ensures hdr.RecoveryDtboOffset() == old(hdr.RecoveryDtboOffset())
      ensures forall c: Block ::
                hdr.Size(c) == if c == b && file.Some? then SizeOrNone(src.version, b, |file.value|)
                               else old(hdr.Size(c))
    {
      hide SizeIn, DtboOffsetIn, KeepsText, IsParsed, HasField;
      if file.Some? {
        Write(file.value);
        hdr.SetSize(b, |file.value|);
        Align();
      } else {
        assert body + [] == body;
      }
    }

    /** The kernel of the file, or the old one. */
    method WriteKernelImage()
      requires Valid() && hdr.Size(KERNEL) == 0
      modifies this`body, hdr`raw
      ensures Valid() && hdr.RecoveryDtboOffset() == old(hdr.RecoveryDtboOffset())
      ensures body == old(body) + files.kernel.GetOr(src.kernel)
      ensures forall c: Block ::
                hdr.Size(c) == if c == KERNEL then SizeOrNone(src.version, KERNEL, |files.kernel.GetOr(src.kernel)|)
                               else old(hdr.Size(c))
    {
      hide DtboOffsetIn, KeepsText;
      if files.kernel.Some? {
        Write(files.kernel.value);
        hdr.SetSize(KERNEL, |files.kernel.value|);
      } else if SizeIn(src.version, src.raw, KERNEL) != 0 {
        Write(src.kernel);
        hdr.SetSize(KERNEL, |src.kernel|);
      }
    }

    method WriteKernelDtb(ghost k: bytes)
      requires Valid() && hdr.Size(KERNEL) == SizeOrNone(src.version, KERNEL, |k|)
      modifies this`body, hdr`raw
      ensures Valid() && hdr.RecoveryDtboOffset() == old(hdr.RecoveryDtboOffset())
      ensures body == old(body) + files.kernelDtb.GetOr([])
      ensures forall c: Block ::
                hdr.Size(c) == if c == KERNEL then SizeOrNone(src.version, KERNEL, |k + files.kernelDtb.GetOr([])|)
                               else old(hdr.Size(c))
    {
      hide SizeIn, DtboOffsetIn, KeepsText, IsParsed, HasField;
      if files.kernelDtb.Some? {
        WrapAdd(|k|, |files.kernelDtb.value|);
        Write(files.kernelDtb.value);
        hdr.SetSize(KERNEL, hdr.Size(KERNEL) + |files.kernelDtb.value|);
      }
    }

    method WriteKernel()
      requires Valid() && hdr.Size(KERNEL) == 0
      modifies this`body, hdr`raw
      ensures Valid() && hdr.RecoveryDtboOffset() == old(hdr.RecoveryDtboOffset())
      ensures var kernel, dtb := files.kernel.GetOr(src.kernel), files.kernelDtb.GetOr([]);
              && body == Step(old(body), Piece(src.mtkKernel.GetOr([]) + (kernel + dtb), true), src.page)
              && forall c: Block ::
                   hdr.Size(c) == if c == KERNEL then SizeOrNone(src.version, KERNEL, |kernel| + |dtb|)
                                  else old(hdr.Size(c))
    {
      hide Padded, IsParsed, SizeOrNone, SizeIn, DtboOffsetIn, KeepsText;
      if src.mtkKernel.Some? {
        Write(src.mtkKernel.value);
      }
      ghost var m, k, d := src.mtkKernel.GetOr([]), files.kernel.GetOr(src.kernel), files.kernelDtb.GetOr([]);
      WriteKernelImage();
      WriteKernelDtb(k);
      assert old(body) + m + k + d == old(body) + (m + (k + d));
      assert old(body) + [] == old(body);
      Align();
    }

    /** One ramdisk for each entry, one after the other; the entries are rewritten on the way. */
    method WriteVendorRamdisks() returns (table: seq<Entry>)
      requires Valid()
      modifies this`body, hdr`raw
      ensures Valid() && hdr.RecoveryDtboOffset() == old(hdr.RecoveryDtboOffset())
      ensures body == old(body) + Concat(files.vendor)
      ensures table == NewEntries(src.entries, files.vendor)
      ensures forall c: Block ::
                hdr.Size(c) == if c == RAMDISK then SizeOrNone(src.version, RAMDISK, |Concat(files.vendor)|)
                               else old(hdr.Size(c))
    {
      hide NewEntries, SizeIn, DtboOffsetIn, KeepsText, IsParsed, HasField;
      NewEntriesAre(src.entries, files.vendor);
      var offset: u32 := 0;
      table := src.entries;
      for i := 0 to |table|
        invariant Valid() && |table| == |src.entries| && forall c: Block :: hdr.Size(c) == old(hdr.Size(c))
        invariant hdr.RecoveryDtboOffset() == old(hdr.RecoveryDtboOffset())
        invariant body == old(body) + Concat(files.vendor[..i])
        invariant offset == Wrap(|Concat(files.vendor[..i])|)
        invariant forall j | i <= j < |table| :: table[j] == src.entries[j]
        invariant forall j | 0 <= j < i :: table[j] == NewEntry(src.entries, files.vendor, j)
      {
        var f := files.vendor[i];
        assert files.vendor[..i + 1][..i] == files.vendor[..i];
        table := table[i := table[i].(offset := offset)];
        Write(f);
        table := table[i := table[i].(size := Wrap(|f|))];
        NextOffset(|Concat(files.vendor[..i])|, |f|);
        offset := Wrap(offset + table[i].size);
      }
      assert files.vendor[..|table|] == files.vendor;
      hdr.SetSize(RAMDISK, offset);
      WrapAdd(|Concat(files.vendor)|, 0);
    }

    method WriteRamdisk() returns (table: seq<Entry>)
      requires Valid() && hdr.Size(RAMDISK) == 0
      modifies this`body, hdr`raw
      ensures Valid() && hdr.RecoveryDtboOffset() == old(hdr.RecoveryDtboOffset())
      ensures var hasTable := SizeIn(src.version, src.raw, RAMDISK_TABLE) != 0;
              var ramdisk := if hasTable then Concat(files.vendor) else files.ramdisk.GetOr([]);
              && body == Step(old(body), Piece(src.mtkRamdisk.GetOr([]) + ramdisk, hasTable || files.ramdisk.Some?),
                              src.page)
              && forall c: Block ::
                   hdr.Size(c) == if c == RAMDISK then SizeOrNone(src.version, RAMDISK, |ramdisk|)
                                  else old(hdr.Size(c))
      ensures table == if HasTable(src) then NewEntries(src.entries, files.vendor) else []
    {
      hide Padded, IsParsed, NewEntries, Concat, SizeIn, DtboOffsetIn, KeepsText;
      ghost var m, r := src.mtkRamdisk.GetOr([]), RamdiskData(src, files);
      table := [];
      if src.mtkRamdisk.Some? {
        Write(src.mtkRamdisk.value);
      }
      assert old(body) + [] == old(body);
      assert old(body) + m + r == old(body) + (m + r);
      if HasTable(src) {
        table := WriteVendorRamdisks();
        Align();
      } else if files.ramdisk.Some? {
        Write(files.ramdisk.value);
        hdr.SetSize(RAMDISK, |files.ramdisk.value|);
        Align();
      } else {
        assert m + [] == m;
      }
    }

    method WriteSignature()
      requires Valid()
      modifies this`body
      ensures body == Step(old(body), Piece(src.signature, src.signature != []), src.page)
    {
      if SizeIn(src.version, src.raw, SIGNATURE) != 0 {
        Write(src.signature);
        Align();
      } else {
        assert body + [] == body;
      }
    }

    method WriteTable(table: seq<Entry>)
      requires Valid() && table == if HasTable(src) then NewEntries(src.entries, files.vendor) else []
      modifies this`body
      ensures body == Step(old(body), Piece(TableData(src, files), TableData(src, files) != []), src.page)
    {
      hide NewEntries;
      TableDataLength(src, files);
      if HasTable(src) {
        TablesMatch(src, files);
      }
      if table != [] {
        Write(TableBytes(table));
        Align();
      } else {
        assert body + [] == body;
      }
    }

    /** The first four blocks; the place of the kernel and of the ramdisk is remembered. */
    method WriteFirstBlocks() returns (kernelAt: nat, ramdiskAt: nat, table: seq<Entry>)
      requires Valid() && body == src.header
      requires forall b: Block :: hdr.Size(b) == ResetSize(src, b)
      modifies this`body, hdr`raw
      ensures Valid() && hdr.RecoveryDtboOffset() == old(hdr.RecoveryDtboOffset())
      ensures body == Body(src.header, FirstPieces(src, files), src.page, 4)
      ensures kernelAt == Position(src.header, FirstPieces(src, files), src.page, KERNEL)
      ensures ramdiskAt == Position(src.header, FirstPieces(src, files), src.page, RAMDISK)
      ensures table == if HasTable(src) then NewEntries(src.entries, files.vendor) else []
      ensures forall b: Block :: hdr.Size(b) == if b < 4 then FirstRecorded(src, files, b) else ResetSize(src, b)
    {
      hide Body, IsParsed, NewEntries, Step, TableData, HasField, SizeOrNone, FirstPieces, FilePiece, Concat;
      hide SizeIn, DtboOffsetIn, KeepsText;
      NoSize(src.version);
      FirstPiecesAre(src, files);
      ghost var h, p, pieces := src.header, src.page, FirstPieces(src, files);
      BodyStarts(h, pieces, p);
      kernelAt := |body|;
      WriteKernel();
      BodyNext(h, pieces, p, 0);
      ramdiskAt := |body|;
      table := WriteRamdisk();
      BodyNext(h, pieces, p, 1);
      WriteFile(SECOND, files.second);
      BodyNext(h, pieces, p, 2);
      WriteFile(EXTRA, files.extra);
      BodyNext(h, pieces, p, 3);
    }

    /** The recovery_dtbo block; its place in the file goes into the header. */
    method WriteRecoveryDtbo()
      requires Valid()
      modifies this`body, hdr`raw
      ensures Valid()
      ensures body == Step(old(body), FilePiece(files.recoveryDtbo), src.page)
      ensures forall c: Block :: hdr.Size(c) ==
                if c == RECOVERY_DTBO && files.recoveryDtbo.Some?
                then SizeOrNone(src.version, c, |files.recoveryDtbo.value|)
                else old(hdr.Size(c))
      ensures hdr.RecoveryDtboOffset() ==
              if files.recoveryDtbo.Some? && HasField(src.version, RECOVERY_DTBO)
              then (src.prefix + |old(body)|) % (U32 * U32) else old(hdr.RecoveryDtboOffset())
    {
      hide SizeIn, DtboOffsetIn, KeepsText, IsParsed, HasField, Step, SizeOrNone, FilePiece;
      if files.recoveryDtbo.Some? {
        hdr.SetRecoveryDtboOffset(src.prefix + |body|);
      }
      WriteFile(RECOVERY_DTBO, files.recoveryDtbo);
    }

    /** The nine blocks in order. */
    method WriteBlocks() returns (kernelAt: nat, ramdiskAt: nat)
      requires Valid() && body == src.header
      requires hdr.RecoveryDtboOffset() == DtboOffsetIn(src.version, src.raw)
      requires forall b: Block :: hdr.Size(b) == ResetSize(src, b)
      modifies this`body, hdr
      ensures Valid()
      ensures body == Body(src.header, FirstPieces(src, files), src.page, 9)
      ensures kernelAt == Position(src.header, FirstPieces(src, files), src.page, KERNEL)
      ensures ramdiskAt == Position(src.header, FirstPieces(src, files), src.page, RAMDISK)
      ensures hdr.RecoveryDtboOffset() == NewDtboOffset(src, files)
      ensures forall b: Block :: hdr.Size(b) == FirstRecorded(src, files, b)
    {
      hide Body, IsParsed, NewEntries, Step, TableData, HasField, SizeOrNone, FirstPieces, FilePiece, Concat;
      hide SizeIn, DtboOffsetIn, KeepsText;
      NoSize(src.version);
      FirstPiecesAre(src, files);
      ghost var h, p, pieces := src.header, src.page, FirstPieces(src, files);
      var table;
      kernelAt, ramdiskAt, table := WriteFirstBlocks();
      WriteRecoveryDtbo();
      BodyNext(h, pieces, p, 4);
      WriteFile(DTB, files.dtb);
      BodyNext(h, pieces, p, 5);
      WriteSignature();
      BodyNext(h, pieces, p, 6);
      WriteTable(table);
      BodyNext(h, pieces, p, 7);
      WriteFile(BOOTCONFIG, files.bootconfig);
      BodyNext(h, pieces, p, 8);
    }
  }

  lemma FirstPiecesAre(src: Source, files: Files)
    requires |files.vendor| == |src.entries|
    ensures var p := FirstPieces(src, files);
            && p[KERNEL] == Piece(src.mtkKernel.GetOr([]) + KernelData(src, files), true)
            && p[RAMDISK]
               == Piece(src.mtkRamdisk.GetOr([]) + RamdiskData(src, files), HasTable(src) || files.ramdisk.Some?)
            && p[SECOND] == FilePiece(files.second)
            && p[EXTRA] == FilePiece(files.extra)
            && p[RECOVERY_DTBO] == FilePiece(files.recoveryDtbo)
            && p[DTB] == FilePiece(files.dtb)
            && p[SIGNATURE] == Piece(src.signature, src.signature != [])
            && p[RAMDISK_TABLE] == Piece(TableData(src, files), TableData(src, files) != [])
            && p[BOOTCONFIG] == FilePiece(files.bootconfig)
  {
  }

  lemma NoSize(v: Version)
    ensures forall b: Block :: SizeOrNone(v, b, 0) == 0
  {
  }

  lemma TablesMatch(src: Source, files: Files)
    requires IsParsed(src) && |files.vendor| == |src.entries| && HasTable(src)
    ensures |NewEntries(src.entries, files.vendor)| == |src.entries|
  {
  }

  lemma {:induction false} TableLength(entries: seq<Entry>)
    requires forall i | 0 <= i < |entries| :: |entries[i].rest| == ENTRY_SIZE - 8
    ensures |TableBytes(entries)| == ENTRY_SIZE * |entries|
  {
    if entries != [] {
      TableLength(entries[..|entries| - 1]);
    }
  }

  lemma TableDataLength(src: Source, files: Files)
    requires IsParsed(src) && |files.vendor| == |src.entries|
    ensures |TableData(src, files)| == if HasTable(src) then ENTRY_SIZE * |src.entries| else 0
  {
    TableLength(NewEntries(src.entries, files.vendor));
  }

  lemma BodyNext(header: bytes, pieces: seq<Piece>, page: nat, n: nat)
    requires page > 0 && n < |pieces|
    ensures Body(header, pieces, page, n + 1) == Step(Body(header, pieces, page, n), pieces[n], page)
  {
  }

  lemma NextOffset(a: nat, b: nat)
    ensures Wrap(Wrap(a) + Wrap(b)) == Wrap(a + b)
  {
    WrapAdd(a, Wrap(b));
    WrapAdd(b, a);
  }

  // ---- the whole image ----

  /** The header can tell the size of a block: it has a field that can hold it, or a size that is kept is that of what
      is written. */
  predicate BlockFits(src: Source, files: Files, b: Block)
    requires IsParsed(src) && |files.vendor| == |src.entries|
  {
    var v := src.version;
    match b
    case 3 => if files.extra.Some? then Fits(v, b, |files.extra.value|) else SizeIn(v, src.raw, b) == 0
    case 4 => if files.recoveryDtbo.Some? then Fits(v, b, |files.recoveryDtbo.value|) else SizeIn(v, src.raw, b) == 0
    case 6 => true
    case 7 => HasTable(src) ==> SizeIn(v, src.raw, b) == ENTRY_SIZE * |src.entries|
    case _ => Fits(v, b, |NewPieces(src, files)[b].data|)
  }

  /** The header of a ramdisk that is not there is harmless if it fills whole pages or no block has to follow it. */
  predicate NoStrayHeader(src: Source, files: Files)
    requires IsParsed(src) && |files.vendor| == |src.entries|
  {
    src.mtkRamdisk.Some? && !HasTable(src) && files.ramdisk.None? ==>
      MTK_HDR_SIZE % src.page == 0 || IsHarmless(NewPieces(src, files), SECOND)
  }

  predicate LayoutFits(src: Source, files: Files)
    requires IsParsed(src) && |files.vendor| == |src.entries|
  {
    NoStrayHeader(src, files) && forall b: Block :: BlockFits(src, files, b)
  }

  /** In version 0 the size of the extra block is where later versions have their number, so it must not be one. */
  predicate KeepsVersion(src: Source, files: Files) {
    src.version == V0 && files.extra.Some? ==> !(1 <= |files.extra.value| <= 4)
  }

  /** What a caller can check before repacking. */
  predicate IsConsistent(src: Source, files: Files)
    requires IsParsed(src) && |files.vendor| == |src.entries|
  {
    LayoutFits(src, files) && KeepsVersion(src, files)
  }

  predicate Fits(v: Version, b: Block, n: nat) { if HasField(v, b) then n < U32 else n == 0 }

  lemma MtkLength(hdr: Option<bytes>, size: u32)
    requires hdr.Some? ==> |hdr.value| == MTK_HDR_SIZE
    ensures |Mtk(hdr, size)| == |hdr.GetOr([])| == if hdr.Some? then MTK_HDR_SIZE else 0
  {
  }

  lemma FitsExactly(v: Version, b: Block, n: nat)
    ensures SizeOrNone(v, b, n) == n <==> Fits(v, b, n)
  {
  }

  function RecordedSizes(src: Source, files: Files): (r: Sizes)
    requires IsParsed(src)
    ensures forall b: Block :: r[b] == Recorded(src, files, b)
  {
    seq(9, b requires 0 <= b < 9 => Recorded(src, files, b))
  }

  lemma BlockFitsExactly(src: Source, files: Files, b: Block)
    requires IsParsed(src) && |files.vendor| == |src.entries|
    ensures Recorded(src, files, b) == |NewPieces(src, files)[b].data| <==> BlockFits(src, files, b)
  {
    hide KernelData, RamdiskData, TableData, Mtk, HasField, SizeOrNone, Fits, SizeIn, SelectVersion, PageIn;
    TableDataLength(src, files);
    FitsExactly(src.version, b, |NewPieces(src, files)[b].data|);
    MtkLength(src.mtkKernel, SizeOrNone(src.version, KERNEL, |KernelData(src, files)|));
    MtkLength(src.mtkRamdisk, SizeOrNone(src.version, RAMDISK, |RamdiskData(src, files)|));
  }

  lemma StrayExactly(src: Source, files: Files)
    requires IsParsed(src) && |files.vendor| == |src.entries|
    ensures IsPlan(NewPieces(src, files))
    ensures StrayIsHarmless(NewPieces(src, files), src.page) <==> NoStrayHeader(src, files)
  {
    hide KernelData, TableData, Mtk, HasField, SizeOrNone, IsHarmless, SizeIn, SelectVersion, PageIn;
    MtkLength(src.mtkRamdisk, SizeOrNone(src.version, RAMDISK, |RamdiskData(src, files)|));
  }

  lemma RightExactly(src: Source, files: Files)
    requires IsParsed(src) && |files.vendor| == |src.entries|
    ensures IsPlan(NewPieces(src, files))
    ensures SizesAreRight(NewPieces(src, files), RecordedSizes(src, files))
            && StrayIsHarmless(NewPieces(src, files), src.page)
            <==> LayoutFits(src, files)
  {
    hide NewPieces, StrayIsHarmless, NoStrayHeader, BlockFits, Recorded, RecordedSizes;
    StrayExactly(src, files);
    forall b: Block ensures Recorded(src, files, b) == |NewPieces(src, files)[b].data| <==> BlockFits(src, files, b) {
      BlockFitsExactly(src, files, b);
    }
  }

  lemma RamdiskPosition(header: bytes, pieces: seq<Piece>, page: nat)
    requires page > 0 && |pieces| == 9 && pieces[KERNEL].isPadded
    ensures Position(header, pieces, page, KERNEL) == |header|
    ensures Position(header, pieces, page, RAMDISK) == AlignTo(|header| + |pieces[KERNEL].data|, page)
  {
    hide AlignTo, Padded;
    BodyStarts(header, pieces, page);
    BodyNext(header, pieces, page, 0);
  }

  /** Storing the size into a vendor header changes that header only. */
  lemma PatchKernel(src: Source, files: Files, kernelHdr: bytes, ramdiskHdr: bytes, x: bytes)
    requires IsParsed(src) && |files.vendor| == |src.entries| && 4 + |x| <= |kernelHdr|
    ensures var before := Pieces(src, files, kernelHdr, ramdiskHdr);
            var after := Pieces(src, files, Overwrite(kernelHdr, 4, x), ramdiskHdr);
            && |src.header| + 4 + |x| <= Position(src.header, before, src.page, 9)
            && Overwrite(Body(src.header, before, src.page, 9), |src.header| + 4, x)
               == Body(src.header, after, src.page, 9)
            && Position(src.header, after, src.page, RAMDISK) == Position(src.header, before, src.page, RAMDISK)
  {
    hide Body, Overwrite, KernelData, RamdiskData, TableData, IsParsed;
    assert src.page > 0 by { IsPaged(src); }
    var before := Pieces(src, files, kernelHdr, ramdiskHdr);
    var after := Pieces(src, files, Overwrite(kernelHdr, 4, x), ramdiskHdr);
    OverwriteLeft(kernelHdr, KernelData(src, files), 4, x);
    OverwritePiece(src.header, before, src.page, 9, KERNEL, 4, x);
    assert before[KERNEL := before[KERNEL].(data := Overwrite(before[KERNEL].data, 4, x))] == after;
    RamdiskPosition(src.header, before, src.page);
    RamdiskPosition(src.header, after, src.page);
  }

  lemma IsPaged(src: Source)
    requires IsParsed(src)
    ensures src.page > 0
  {
  }

  lemma PatchRamdisk(src: Source, files: Files, kernelHdr: bytes, ramdiskHdr: bytes, x: bytes)
    requires IsParsed(src) && |files.vendor| == |src.entries| && 4 + |x| <= |ramdiskHdr|
    ensures var before := Pieces(src, files, kernelHdr, ramdiskHdr);
            var after := Pieces(src, files, kernelHdr, Overwrite(ramdiskHdr, 4, x));
            var at := Position(src.header, before, src.page, RAMDISK);
            && at + 4 + |x| <= Position(src.header, before, src.page, 9)
            && Overwrite(Body(src.header, before, src.page, 9), at + 4, x) == Body(src.header, after, src.page, 9)
  {
    hide Body, Overwrite, KernelData, RamdiskData, TableData, IsParsed;
    assert src.page > 0 by { IsPaged(src); }
    var before := Pieces(src, files, kernelHdr, ramdiskHdr);
    var after := Pieces(src, files, kernelHdr, Overwrite(ramdiskHdr, 4, x));
    OverwriteLeft(ramdiskHdr, RamdiskData(src, files), 4, x);
    OverwritePiece(src.header, before, src.page, 9, RAMDISK, 4, x);
    assert before[RAMDISK := before[RAMDISK].(data := Overwrite(before[RAMDISK].data, 4, x))] == after;
  }

  /** The trailing parts: a vendor's magic, padding, and zeros up to the old length. */
  function Finished(body: bytes, src: Source): (r: bytes)
    requires src.page > 0
    ensures body <= r && AlignTo(|body|, src.page) <= |r| && src.length <= |r|
  {
    AlignMonotone(|body|, |body + src.trailer|, src.page);
    var r := Padded(body + src.trailer, src.page);
    if |r| < src.length then r + Repeat<byte>(0, src.length - |r|) else r
  }

  /** The vendor headers get the sizes of what follows them, and their own size is added to the header's. */
  method PatchMtk(r: Repacker, before: bytes, kernelAt: nat, ramdiskAt: nat, ghost rest: bytes) returns (image: bytes)
    requires r.Valid() && before == Body(r.src.header, FirstPieces(r.src, r.files), r.src.page, 9) + rest
    requires kernelAt == Position(r.src.header, FirstPieces(r.src, r.files), r.src.page, KERNEL)
    requires ramdiskAt == Position(r.src.header, FirstPieces(r.src, r.files), r.src.page, RAMDISK)
    requires forall b: Block :: r.hdr.Size(b) == FirstRecorded(r.src, r.files, b)
    modifies r.hdr`raw
    ensures r.Valid() && r.hdr.RecoveryDtboOffset() == old(r.hdr.RecoveryDtboOffset())
    ensures |image| == |before| && image == Body(r.src.header, NewPieces(r.src, r.files), r.src.page, 9) + rest
    ensures forall b: Block :: r.hdr.Size(b) == Recorded(r.src, r.files, b)
  {
    hide Body, Overwrite, KernelData, RamdiskData, TableData, Pieces, IsParsed, SizeIn, DtboOffsetIn, KeepsText;
    var src, files, hdr := r.src, r.files, r.hdr;
    ghost var kh, rh := src.mtkKernel.GetOr([]), src.mtkRamdisk.GetOr([]);
    image := before;
    KernelStart(src, files);
    if src.mtkKernel.Some? {
      MtkSize(src);
      var x := LE32(hdr.Size(KERNEL));
      PatchKernel(src, files, kh, rh, x);
      OverwriteLeft(Body(src.header, Pieces(src, files, kh, rh), src.page, 9), rest, kernelAt + 4, x);
      image := Overwrite(image, kernelAt + 4, x);
      kh := Overwrite(kh, 4, x);
      WrapAdd(|KernelData(src, files)|, MTK_HDR_SIZE);
      hdr.SetSize(KERNEL, hdr.Size(KERNEL) + MTK_HDR_SIZE);
    }
    if src.mtkRamdisk.Some? {
      MtkSize(src);
      var x := LE32(hdr.Size(RAMDISK));
      PatchRamdisk(src, files, kh, rh, x);
      OverwriteLeft(Body(src.header, Pieces(src, files, kh, rh), src.page, 9), rest, ramdiskAt + 4, x);
      image := Overwrite(image, ramdiskAt + 4, x);
      rh := Overwrite(rh, 4, x);
      WrapAdd(|RamdiskData(src, files)|, MTK_HDR_SIZE);
      hdr.SetSize(RAMDISK, hdr.Size(RAMDISK) + MTK_HDR_SIZE);
    }
  }

  lemma MtkSize(src: Source)
    requires IsParsed(src)
    ensures src.mtkKernel.Some? ==> |src.mtkKernel.value| == MTK_HDR_SIZE
    ensures src.mtkRamdisk.Some? ==> |src.mtkRamdisk.value| == MTK_HDR_SIZE
  {
  }

  lemma KernelStart(src: Source, files: Files)
    requires IsParsed(src) && |files.vendor| == |src.entries|
    ensures Position(src.header, FirstPieces(src, files), src.page, KERNEL) == |src.header|
  {
    hide KernelData, RamdiskData, TableData;
    RamdiskPosition(src.header, FirstPieces(src, files), src.page);
  }

  function StoreSizes(v: Version, s: bytes, sizes: Sizes, n: nat): (r: bytes)
    requires |s| == HdrSize(v) && n <= 9
    ensures |r| == |s|
  {
    if n == 0 then s else WithSize(v, StoreSizes(v, s, sizes, n - 1), n - 1, sizes[n - 1])
  }

  lemma {:induction false} StoredSizes(v: Version, s: bytes, sizes: Sizes, n: nat)
    requires |s| == HdrSize(v) && n <= 9
    ensures var r := StoreSizes(v, s, sizes, n);
            && KeepsText(v, s, r) && DtboOffsetIn(v, r) == DtboOffsetIn(v, s)
            && forall b: Block :: SizeIn(v, r, b) == if b < n then SizeOrNone(v, b, sizes[b]) else SizeIn(v, s, b)
  {
    hide WithSize, SizeIn, DtboOffsetIn, IsText, SizeOrNone, HasOwnSize;
    if n > 0 {
      StoredSizes(v, s, sizes, n - 1);
      WithSizeIs(v, StoreSizes(v, s, sizes, n - 1), n - 1, sizes[n - 1]);
    }
  }

  /** The header of the new image: sizes, the place of recovery_dtbo and its own size are written, all else is kept. */
  function NewRaw(src: Source, files: Files): (r: bytes)
    requires IsParsed(src) && |files.vendor| == |src.entries|
    ensures |r| == HdrSize(src.version)
  {
    var v := src.version;
    var sized := StoreSizes(v, src.raw, RecordedSizes(src, files), 9);
    WithDtboOffsetIs(v, sized, NewDtboOffset(src, files));
    WithOwnSizeIs(v, WithDtboOffset(v, sized, NewDtboOffset(src, files)));
    WithOwnSize(v, WithDtboOffset(v, sized, NewDtboOffset(src, files)))
  }

  lemma RecordedIsWrapped(src: Source, files: Files, b: Block)
    requires IsParsed(src)
    ensures SizeOrNone(src.version, b, Recorded(src, files, b)) == Recorded(src, files, b)
  {
    hide KernelData, RamdiskData, HasField, WordAt, FieldAt;
  }

  lemma DtboOffsetIsWrapped(src: Source, files: Files)
    requires IsParsed(src) && |files.vendor| == |src.entries|
    ensures var n := NewDtboOffset(src, files);
            if HasField(src.version, RECOVERY_DTBO) then n == n % (U32 * U32)
            else n == DtboOffsetIn(src.version, src.raw)
  {
    hide Position, FirstPieces, WordAt, IsParsed;
    var low, high := WordAt(src.raw, RECOVERY_DTBO_OFFSET_AT), WordAt(src.raw, RECOVERY_DTBO_OFFSET_AT + 4);
    assert low + U32 * high < U32 * U32;
  }

  lemma NewRawIs(src: Source, files: Files)
    requires IsParsed(src) && |files.vendor| == |src.entries|
    ensures var v, r := src.version, NewRaw(src, files);
            && KeepsText(v, src.raw, r) && DtboOffsetIn(v, r) == NewDtboOffset(src, files) && HasOwnSize(v, r)
            && forall b: Block :: SizeIn(v, r, b) == Recorded(src, files, b)
  {
    hide WithSize, WithDtboOffset, WithOwnSize, StoreSizes, SizeIn, DtboOffsetIn, IsText, SizeOrNone, HasOwnSize,
         Recorded, NewDtboOffset, HasField;
    var v := src.version;
    var sized := StoreSizes(v, src.raw, RecordedSizes(src, files), 9);
    StoredSizes(v, src.raw, RecordedSizes(src, files), 9);
    forall b: Block ensures SizeOrNone(v, b, Recorded(src, files, b)) == Recorded(src, files, b) {
      RecordedIsWrapped(src, files, b);
    }
    DtboOffsetIsWrapped(src, files);
    WithDtboOffsetIs(v, sized, NewDtboOffset(src, files));
    WithOwnSizeIs(v, WithDtboOffset(v, sized, NewDtboOffset(src, files)));
  }

  lemma SpaceIsPaged(v: Version, page: nat)
    requires page > 0
    ensures HdrSpace(v, page) % page == 0
  {
    Aligned(HdrSize(v), page);
    assert page % page == 0;
  }

  /** The pieces of the new image are where they were first written. */
  lemma PiecesStay(src: Source, files: Files, n: nat)
    requires IsParsed(src) && |files.vendor| == |src.entries| && n <= 9
    ensures Position(src.header, NewPieces(src, files), src.page, n)
            == Position(src.header, FirstPieces(src, files), src.page, n)
  {
    hide Body, KernelData, RamdiskData, TableData, Mtk, SizeOrNone;
    MtkLength(src.mtkKernel, SizeOrNone(src.version, KERNEL, |KernelData(src, files)|));
    MtkLength(src.mtkRamdisk, SizeOrNone(src.version, RAMDISK, |RamdiskData(src, files)|));
    SamePositions(src.header, NewPieces(src, files), src.header, FirstPieces(src, files), src.page, n);
  }

  lemma ImageAgrees(src: Source, files: Files, image: bytes)
    requires IsParsed(src) && |files.vendor| == |src.entries|
    requires Body(src.header, NewPieces(src, files), src.page, 9) <= image
    requires AlignTo(Position(src.header, NewPieces(src, files), src.page, 9), src.page) <= |image|
    ensures Agrees(image, src.header, NewPieces(src, files), RecordedSizes(src, files), src.page)
            <==> LayoutFits(src, files)
    ensures LayoutFits(src, files) ==>
              && (forall b | 0 <= b <= 9 :: Offset(|src.header|, RecordedSizes(src, files), src.page, b) <= |image|)
              && (files.recoveryDtbo.Some? && files.recoveryDtbo.value != [] ==>
                    && HasField(src.version, RECOVERY_DTBO)
                    && Offset(|src.header|, RecordedSizes(src, files), src.page, RECOVERY_DTBO)
                       == Position(src.header, FirstPieces(src, files), src.page, RECOVERY_DTBO))
  {
    hide Body, Offset, AlignTo, LayoutFits, RecordedSizes, StrayIsHarmless, SizesAreRight;
    SpaceIsPaged(src.version, src.page);
    RightExactly(src, files);
    LayoutAgrees(image, src.header, NewPieces(src, files), RecordedSizes(src, files), src.page);
    PiecesStay(src, files, RECOVERY_DTBO);
    if LayoutFits(src, files) {
      DtboHasField(src, files);
      DtboPiece(src, files);
      var sizes := RecordedSizes(src, files);
      assert Reads(image, Offset(|src.header|, sizes, src.page, RECOVERY_DTBO), sizes[RECOVERY_DTBO],
                   NewPieces(src, files)[RECOVERY_DTBO].data);
    }
  }

  lemma DtboHasField(src: Source, files: Files)
    requires IsParsed(src) && |files.vendor| == |src.entries| && LayoutFits(src, files)
    ensures files.recoveryDtbo.Some? && files.recoveryDtbo.value != [] ==> HasField(src.version, RECOVERY_DTBO)
  {
    hide NoStrayHeader, HasField;
    var b: Block := RECOVERY_DTBO;
    assert BlockFits(src, files, b);
  }

  lemma DtboPiece(src: Source, files: Files)
    requires IsParsed(src) && |files.vendor| == |src.entries|
    ensures NewPieces(src, files)[RECOVERY_DTBO].data == files.recoveryDtbo.GetOr([])
    ensures NewPieces(src, files)[EXTRA].data == files.extra.GetOr([])
  {
  }

  // ---- what the parser makes of the bytes ----

  /** The parser, given the bytes of an image and whether they start with the magic of vendor images, derives for each
      block the bytes that were written and where. */
  ghost predicate ParserFinds(image: bytes, vendor: bool, header: bytes, pieces: seq<Piece>, page: nat)
    requires page > 0 && |pieces| == 9
  {
    var v := SelectVersion(image, vendor);
    var p := PageIn(v, image);
    p > 0 && forall b | 0 <= b < 9 ::
      var off := Offset(HdrSpace(v, p), SizesIn(v, image), p, b);
      && Reads(image, off, SizesIn(v, image)[b], pieces[b].data)
      && (pieces[b].data != [] ==> off == Position(header, pieces, page, b))
  }

  /** A header at the front of an image is read there as it was made. */
  lemma HeaderIsRead(v: Version, raw: bytes, image: bytes)
    requires raw <= image && |raw| == HdrSize(v)
    ensures SelectVersion(image, IsVendor(v)) == SelectVersion(raw, IsVendor(v))
    ensures PageIn(v, image) == PageIn(v, raw) && forall b: Block :: SizeIn(v, image, b) == SizeIn(v, raw, b)
  {
    hide WordAt, FieldAt, HasField;
    forall off: nat | off + 4 <= |raw| ensures WordAt(image, off) == WordAt(raw, off) { PrefixWord(raw, image, off); }
    forall b: Block | HasField(v, b) ensures FieldAt(v, b) + 4 <= |raw| { FieldsAreApart(v, b); }
  }

  /** The parser takes the new header for the old variant exactly when the recorded extra size is no version, and
      otherwise for one that has no extra block. */
  lemma VersionIsRead(src: Source, files: Files, raw: bytes, image: bytes)
    requires IsParsed(src) && |files.vendor| == |src.entries|
    requires raw <= image && KeepsSelectors(src.version, src.raw, raw)
    requires forall b: Block :: SizeIn(src.version, raw, b) == Recorded(src, files, b)
    ensures var v, w := src.version, SelectVersion(image, IsVendor(src.version));
            && PageIn(v, image) == src.page && SizesIn(v, image) == RecordedSizes(src, files)
            && (w == v ==> (LayoutFits(src, files) <==> IsConsistent(src, files)))
            && (w != v ==> !IsConsistent(src, files) && !HasField(w, EXTRA) && NewPieces(src, files)[EXTRA].data != [])
  {
    hide WordAt, FieldAt, HasField, SelectVersion, PageIn, NewPieces, NoStrayHeader, SizeIn;
    HeaderIsRead(src.version, raw, image);
    SelectionStays(src.version, src.raw, raw);
    SelectionStays(src.version, src.raw, src.raw);
    DtboPiece(src, files);
    var extra: Block := EXTRA;
    NoSize(src.version);
    FitsExactly(src.version, extra, |files.extra.GetOr([])|);
    assert LayoutFits(src, files) ==> BlockFits(src, files, extra);
  }

  /** The parser finds the blocks in an image whose front is overwritten with a header that has the recorded sizes,
      whatever else that header says, exactly when old image and files are consistent and the header is harmless. */
  lemma ParserFindsExactly(src: Source, files: Files, raw: bytes, before: bytes)
    requires IsParsed(src) && |files.vendor| == |src.entries| && |raw| <= |before|
    requires KeepsSelectors(src.version, src.raw, raw)
    requires forall b: Block :: SizeIn(src.version, raw, b) == Recorded(src, files, b)
    requires Body(src.header, NewPieces(src, files), src.page, 9) <= before
    requires AlignTo(Position(src.header, NewPieces(src, files), src.page, 9), src.page) <= |before|
    ensures ParserFinds(Overwrite(before, 0, raw), IsVendor(src.version), src.header, NewPieces(src, files), src.page)
            <==> IsConsistent(src, files) && IsHarmlessFront(raw, src.header, NewPieces(src, files), src.page)
  {
    hide Body, Offset, AlignTo, LayoutFits, IsConsistent, RecordedSizes, NewPieces, SizesIn, SizeIn, PageIn,
         SelectVersion;
    hide Recorded, HdrSpace, HasField, Overwrite, IsHarmlessFront, Reads;
    var image := Overwrite(before, 0, raw);
    OverwriteFront(before, raw);
    ImageAgrees(src, files, before);
    FrontAgrees(before, raw, src.header, NewPieces(src, files), RecordedSizes(src, files), src.page);
    VersionIsRead(src, files, raw, image);
    var w := SelectVersion(image, IsVendor(src.version));
    if w == src.version {
      SameAsAgrees(src, files, image);
    } else if ParserFinds(image, IsVendor(src.version), src.header, NewPieces(src, files), src.page) {
      var extra: Block := EXTRA;
      NoFieldNoSize(w, image, extra);
      EmptyReads(image, NewPieces(src, files)[EXTRA].data);
    }
  }

  lemma SameAsAgrees(src: Source, files: Files, image: bytes)
    requires IsParsed(src) && |files.vendor| == |src.entries|
    requires SelectVersion(image, IsVendor(src.version)) == src.version
    requires PageIn(src.version, image) == src.page && SizesIn(src.version, image) == RecordedSizes(src, files)
    ensures ParserFinds(image, IsVendor(src.version), src.header, NewPieces(src, files), src.page)
            <==> Agrees(image, src.header, NewPieces(src, files), RecordedSizes(src, files), src.page)
  {
    hide Body, Offset, AlignTo, RecordedSizes, NewPieces, SizesIn, SizeIn, PageIn, SelectVersion, Reads;
    IsPaged(src);
  }

  lemma EmptyReads(image: bytes, d: bytes)
    requires exists at :: Reads(image, at, 0, d)
    ensures d == []
  {
  }

  lemma NoFieldNoSize(v: Version, s: bytes, b: Block)
    requires !HasField(v, b)
    ensures SizesIn(v, s)[b] == 0
  {
  }

  /** repack: behind its header the image holds the files, the kernel followed at once by its device tree, and the
      header has their lengths. The parser, given the bytes of the new image, finds exactly the blocks that were
      written, and where they were written, if and only if the old image and the files are consistent and the header,
      which is copied last and as a whole, does no harm to the blocks; then the parser does not fail, and the offset of
      recovery_dtbo in the header is right. */
  method Repack(src: Source, files: Files) returns (image: bytes, hdr: Header)
    requires IsParsed(src) && |files.vendor| == |src.entries|
    ensures hdr.version == src.version && hdr.raw == NewRaw(src, files) <= image
    ensures HoldsKernel(image, |hdr.raw|, src, files) && HoldsRamdisk(image, |hdr.raw|, src, files)
    ensures HoldsOthers(image, |hdr.raw|, src, files) && HoldsHeads(image, |hdr.raw|, src, files)
    ensures var v := src.version;
            var kernel, dtb := files.kernel.GetOr(src.kernel), files.kernelDtb.GetOr([]);
            var ramdisk := if SizeIn(v, src.raw, RAMDISK_TABLE) != 0 then Concat(files.vendor)
                           else files.ramdisk.GetOr([]);
            && hdr.Size(KERNEL) == SizeOrNone(v, KERNEL, KernelHead(src) + |kernel| + |dtb|)
            && hdr.Size(RAMDISK) == SizeOrNone(v, RAMDISK, RamdiskHead(src) + |ramdisk|)
    ensures forall b: Block :: hdr.Size(b) == Recorded(src, files, b)
    ensures var body := Body(src.header, NewPieces(src, files), src.page, 9);
            |body| <= |image| && forall i | |hdr.raw| <= i < |body| :: image[i] == body[i]
    ensures ParserFinds(image, IsVendor(src.version), src.header, NewPieces(src, files), src.page)
            <==> && IsConsistent(src, files)
                 && IsHarmlessFront(NewRaw(src, files), src.header, NewPieces(src, files), src.page)
    ensures IsConsistent(src, files) ==>
              && (forall b | 0 <= b <= 9 :: Offset(|src.header|, RecordedSizes(src, files), src.page, b) <= |image|)
              && (files.recoveryDtbo.Some? && files.recoveryDtbo.value != [] ==>
                    var at := src.prefix + Offset(|src.header|, RecordedSizes(src, files), src.page, RECOVERY_DTBO);
                    at < U32 * U32 ==> hdr.RecoveryDtboOffset() == at)
  {
    hide Body, Overwrite, NewPieces, FirstPieces, Recorded, RecordedSizes, LayoutFits, Agrees, IsParsed, Offset,
         AlignTo, IsHarmlessFront, NewRaw, NewDtboOffset;
    hide ParserFinds, SizeIn, DtboOffsetIn, KeepsText, HasOwnSize;
    IsPaged(src);
    var r := new Repacker(src, files);
    hdr := r.hdr;
    var kernelAt, ramdiskAt := r.WriteBlocks();
    image := Finished(r.body, src);
    ghost var rest := image[|r.body|..];
    ghost var body := Body(src.header, NewPieces(src, files), src.page, 9);
    PiecesStay(src, files, 9);
    FinishedRest(r.body, body, src);
    image := PatchMtk(r, image, kernelAt, ramdiskAt, rest);
    assert image == Finished(body, src);
    hdr.SetHeaderSize();
    NewRawIs(src, files);
    HeaderIsDetermined(src.version, src.raw, hdr.raw, NewRaw(src, files));
    HasHeader(src);
    ImageAgrees(src, files, image);
    TextHasSelectors(src.version, src.raw, hdr.raw);
    ParserFindsExactly(src, files, hdr.raw, image);
    OverwriteFront(image, hdr.raw);
    image := Overwrite(image, 0, hdr.raw);
    DtboIsRight(src, files);
    AllHolds(image, |hdr.raw|, src, files);
  }

  lemma AllHolds(image: bytes, front: nat, src: Source, files: Files)
    requires IsParsed(src) && |files.vendor| == |src.entries| && IsWritten(image, front, src, files)
    ensures HoldsKernel(image, front, src, files) && HoldsRamdisk(image, front, src, files)
    ensures HoldsOthers(image, front, src, files) && HoldsHeads(image, front, src, files)
    ensures var v := src.version;
            var kernel, dtb := files.kernel.GetOr(src.kernel), files.kernelDtb.GetOr([]);
            var ramdisk := if SizeIn(v, src.raw, RAMDISK_TABLE) != 0 then Concat(files.vendor)
                           else files.ramdisk.GetOr([]);
            && Recorded(src, files, KERNEL) == SizeOrNone(v, KERNEL, KernelHead(src) + |kernel| + |dtb|)
            && Recorded(src, files, RAMDISK) == SizeOrNone(v, RAMDISK, RamdiskHead(src) + |ramdisk|)
  {
    hide HoldsKernel, HoldsRamdisk, HoldsOthers, IsWritten, IsParsed, Concat, HoldsFrom, LE32;
    IsPaged(src);
    KernelHolds(image, front, src, files);
    RamdiskHolds(image, front, src, files);
    OthersHold(image, front, src, files);
  }

  /** The lengths of the vendor headers. */
  function KernelHead(src: Source): nat { |src.mtkKernel.GetOr([])| }

  function RamdiskHead(src: Source): nat { |src.mtkRamdisk.GetOr([])| }

  /** Where the ramdisk and the blocks behind it begin. */
  function RamdiskAt(src: Source, files: Files): nat
    requires src.page > 0
  {
    AlignTo(|src.header| + KernelHead(src) + |files.kernel.GetOr(src.kernel)| + |files.kernelDtb.GetOr([])|, src.page)
  }

  function OthersAt(src: Source, files: Files): nat
    requires src.page > 0
  {
    var at := RamdiskAt(src, files) + RamdiskHead(src);
    if SizeIn(src.version, src.raw, RAMDISK_TABLE) != 0 then AlignTo(at + |Concat(files.vendor)|, src.page)
    else if files.ramdisk.Some? then AlignTo(at + |files.ramdisk.value|, src.page)
    else at
  }

  /** Behind the page of the header, which stays as it was, is the kernel and at once its device tree. */
  ghost predicate HoldsKernel(image: bytes, front: nat, src: Source, files: Files)
    requires src.page > 0
  {
    var kernel, dtb := files.kernel.GetOr(src.kernel), files.kernelDtb.GetOr([]);
    var k := |src.header| + KernelHead(src);
    && HoldsFrom(image, front, 0, src.header)
    && HoldsFrom(image, front, k, kernel) && HoldsFrom(image, front, k + |kernel|, dtb)
    && IsZeroFrom(image, front, k + |kernel| + |dtb|, RamdiskAt(src, files))
  }

  /** Then the ramdisk, or the ramdisks of the table one behind the other. */
  ghost predicate HoldsRamdisk(image: bytes, front: nat, src: Source, files: Files)
    requires src.page > 0
  {
    var ramdisk := if SizeIn(src.version, src.raw, RAMDISK_TABLE) != 0 then Concat(files.vendor)
                   else files.ramdisk.GetOr([]);
    var r := RamdiskAt(src, files) + RamdiskHead(src);
    HoldsFrom(image, front, r, ramdisk) && IsZeroFrom(image, front, r + |ramdisk|, OthersAt(src, files))
  }

  function Others(src: Source, files: Files): seq<Option<bytes>>
    requires |files.vendor| == |src.entries|
  {
    var hasTable := SizeIn(src.version, src.raw, RAMDISK_TABLE) != 0 && src.entries != [];
    [files.second, files.extra, files.recoveryDtbo, files.dtb,
     if src.signature == [] then None else Some(src.signature),
     if hasTable then Some(TableData(src, files)) else None, files.bootconfig, Some(src.trailer)]
  }

  /** Then the other blocks that are there, what some vendors put at the end, and zeros up to the old length. */
  ghost predicate HoldsOthers(image: bytes, front: nat, src: Source, files: Files)
    requires src.page > 0 && |files.vendor| == |src.entries|
  {
    var s, others := OthersAt(src, files), Others(src, files);
    var last := EndOf(src.page, s, others);
    && HoldsInOrder(image, front, src.page, s, others)
    && |image| == (if last < src.length then src.length else last) && IsZeroFrom(image, front, last, |image|)
  }

  /** The vendor headers: as they were, but for the size of what follows them. */
  ghost predicate HoldsHeads(image: bytes, front: nat, src: Source, files: Files)
    requires src.page > 0 && IsParsed(src)
  {
    var v := src.version;
    var k := |files.kernel.GetOr(src.kernel)| + |files.kernelDtb.GetOr([])|;
    var r := if SizeIn(v, src.raw, RAMDISK_TABLE) != 0 then |Concat(files.vendor)| else |files.ramdisk.GetOr([])|;
    && (src.mtkKernel.Some? ==>
          HoldsFrom(image, front, |src.header|,
                    src.mtkKernel.value[..4] + LE32(if HasField(v, KERNEL) then k % 0x1_0000_0000 else 0)
                    + src.mtkKernel.value[8..]))
    && (src.mtkRamdisk.Some? ==>
          HoldsFrom(image, front, RamdiskAt(src, files),
                    src.mtkRamdisk.value[..4] + LE32(r % 0x1_0000_0000) + src.mtkRamdisk.value[8..]))
  }

  lemma FinishedRest(a: bytes, b: bytes, src: Source)
    requires src.page > 0 && |a| == |b|
    ensures Finished(a, src)[|a|..] == Finished(b, src)[|b|..]
  {
    hide AlignTo;
    Aligned(|a + src.trailer|, src.page);
  }

  lemma {:induction false} FinishedPieces(src: Source, pieces: seq<Piece>)
    requires src.page > 0 && |pieces| == 9
    ensures var all := pieces + [Piece(src.trailer, true)];
            var last := Position(src.header, all, src.page, 10);
            Finished(Body(src.header, pieces, src.page, 9), src)
            == Body(src.header, all, src.page, 10)
               + Repeat<byte>(0, if last < src.length then src.length - last else 0)
  {
    hide Padded;
    var all := pieces + [Piece(src.trailer, true)];
    SameBody(src.header, pieces, all, src.page, 9);
    assert Body(src.header, all, src.page, 10) == Step(Body(src.header, all, src.page, 9), all[9], src.page);
  }

  /** The pieces that are written, once more, as files. */
  lemma OtherPieces(src: Source, files: Files, j: nat)
    requires IsParsed(src) && |files.vendor| == |src.entries| && j < 8
    ensures (NewPieces(src, files) + [Piece(src.trailer, true)])[2 + j] == FilePiece(Others(src, files)[j])
  {
    hide KernelData, RamdiskData, Mtk, SizeOrNone, TableBytes, IsParsed, NewEntries;
    assert src.entries == [] ==> TableData(src, files) == [] by {
      TableDataLength(src, files);
    }
    assert HasTable(src) && src.entries != [] ==> TableData(src, files) != [] by {
      TableDataLength(src, files);
    }
  }

  lemma FirstTwo(src: Source, files: Files)
    requires IsParsed(src) && |files.vendor| == |src.entries|
    ensures var v := src.version;
            var kernel, dtb := files.kernel.GetOr(src.kernel), files.kernelDtb.GetOr([]);
            var k := if HasField(v, KERNEL) then (|kernel| + |dtb|) % 0x1_0000_0000 else 0;
            NewPieces(src, files)[KERNEL].data == Mtk(src.mtkKernel, k) + (kernel + dtb)
    ensures var hasTable := SizeIn(src.version, src.raw, RAMDISK_TABLE) != 0;
            var ramdisk := if hasTable then Concat(files.vendor) else files.ramdisk.GetOr([]);
            NewPieces(src, files)[RAMDISK].data == Mtk(src.mtkRamdisk, |ramdisk| % 0x1_0000_0000) + ramdisk
  {
    hide TableData, Mtk, IsParsed, Concat, SizeIn, FilePiece, KernelData, RamdiskData;
    MtkSize(src);
    KernelDataIs(src, files);
    RamdiskDataIs(src, files);
  }

  lemma KernelDataIs(src: Source, files: Files)
    ensures KernelData(src, files) == files.kernel.GetOr(src.kernel) + files.kernelDtb.GetOr([])
    ensures SizeOrNone(src.version, KERNEL, |KernelData(src, files)|)
         == if HasField(src.version, KERNEL)
            then (|files.kernel.GetOr(src.kernel)| + |files.kernelDtb.GetOr([])|) % 0x1_0000_0000 else 0
  {
  }

  lemma RamdiskDataIs(src: Source, files: Files)
    ensures RamdiskData(src, files)
         == if SizeIn(src.version, src.raw, RAMDISK_TABLE) != 0 then Concat(files.vendor) else files.ramdisk.GetOr([])
    ensures SizeOrNone(src.version, RAMDISK, |RamdiskData(src, files)|) == |RamdiskData(src, files)| % 0x1_0000_0000
  {
  }

  lemma MtkIs(hdr: Option<bytes>, size: u32)
    requires hdr.Some? ==> |hdr.value| == MTK_HDR_SIZE
    ensures |Mtk(hdr, size)| == |hdr.GetOr([])|
    ensures hdr.Some? ==> Mtk(hdr, size) == hdr.value[..4] + LE32(size) + hdr.value[8..]
  {
  }

  lemma FirstPositions(src: Source, files: Files, all: seq<Piece>)
    requires IsParsed(src) && |files.vendor| == |src.entries| && NewPieces(src, files) <= all
    ensures Position(src.header, all, src.page, 1) == RamdiskAt(src, files)
    ensures Position(src.header, all, src.page, 2) == OthersAt(src, files)
  {
    hide AlignTo, NewPieces, Mtk, Concat, SizeIn, IsParsed;
    IsPaged(src);
    FirstTwo(src, files);
    MtkSize(src);
    FirstLengths(src, files);
    assert all[0] == NewPieces(src, files)[0] && all[1] == NewPieces(src, files)[1];
    assert Body(src.header, all, src.page, 0) == src.header;
    assert Body(src.header, all, src.page, 1) == Step(src.header, all[0], src.page);
  }

  lemma FirstLengths(src: Source, files: Files)
    requires IsParsed(src) && |files.vendor| == |src.entries|
    ensures var p := NewPieces(src, files);
            && |p[KERNEL].data|
               == KernelHead(src) + |files.kernel.GetOr(src.kernel)| + |files.kernelDtb.GetOr([])|
            && p[KERNEL].isPadded
            && |p[RAMDISK].data|
               == RamdiskHead(src) + (if SizeIn(src.version, src.raw, RAMDISK_TABLE) != 0 then |Concat(files.vendor)|
                                      else |files.ramdisk.GetOr([])|)
            && (p[RAMDISK].isPadded <==> SizeIn(src.version, src.raw, RAMDISK_TABLE) != 0 || files.ramdisk.Some?)
  {
    hide TableData, Mtk, SizeOrNone, Concat;
    MtkIs(src.mtkKernel, SizeOrNone(src.version, KERNEL, |KernelData(src, files)|));
    MtkIs(src.mtkRamdisk, SizeOrNone(src.version, RAMDISK, |RamdiskData(src, files)|));
  }

  /** The image as it was written, but for its front. */
  ghost predicate IsWritten(image: bytes, front: nat, src: Source, files: Files)
    requires IsParsed(src) && |files.vendor| == |src.entries|
  {
    IsBut(image, front, Finished(Body(src.header, NewPieces(src, files), src.page, 9), src))
  }

  lemma KernelHolds(image: bytes, front: nat, src: Source, files: Files)
    requires IsParsed(src) && |files.vendor| == |src.entries| && IsWritten(image, front, src, files)
    ensures HoldsKernel(image, front, src, files)
    ensures src.mtkKernel.Some? ==>
              var v, k := src.version, |files.kernel.GetOr(src.kernel)| + |files.kernelDtb.GetOr([])|;
              HoldsFrom(image, front, |src.header|,
                        src.mtkKernel.value[..4] + LE32(if HasField(v, KERNEL) then k % 0x1_0000_0000 else 0)
                        + src.mtkKernel.value[8..])
  {
    hide Body, AlignTo, HoldsFrom, IsZeroFrom, IsBut, Finished, NewPieces, Mtk, IsParsed, HasField, Concat;
    IsPaged(src);
    var all := NewPieces(src, files) + [Piece(src.trailer, true)];
    var whole := Finished(Body(src.header, NewPieces(src, files), src.page, 9), src);
    FinishedPieces(src, NewPieces(src, files));
    StartHolds(image, front, whole, src.header, all, src.page);
    PieceHolds(image, front, whole, src.header, all, src.page, KERNEL);
    FirstPositions(src, files, all);
    FirstTwo(src, files);
    FirstLengths(src, files);
    MtkSize(src);
    var kernel, dtb := files.kernel.GetOr(src.kernel), files.kernelDtb.GetOr([]);
    var k := if HasField(src.version, KERNEL) then (|kernel| + |dtb|) % 0x1_0000_0000 else 0;
    MtkIs(src.mtkKernel, k);
    HoldsBoth(image, front, |src.header|, Mtk(src.mtkKernel, k), kernel + dtb);
    HoldsBoth(image, front, |src.header| + KernelHead(src), kernel, dtb);
  }

  lemma RamdiskHolds(image: bytes, front: nat, src: Source, files: Files)
    requires IsParsed(src) && |files.vendor| == |src.entries| && IsWritten(image, front, src, files)
    ensures HoldsRamdisk(image, front, src, files)
    ensures src.mtkRamdisk.Some? ==>
              var r := if SizeIn(src.version, src.raw, RAMDISK_TABLE) != 0 then |Concat(files.vendor)|
                       else |files.ramdisk.GetOr([])|;
              HoldsFrom(image, front, RamdiskAt(src, files),
                        src.mtkRamdisk.value[..4] + LE32(r % 0x1_0000_0000) + src.mtkRamdisk.value[8..])
  {
    hide Body, AlignTo, HoldsFrom, IsZeroFrom, IsBut, Finished, NewPieces, Mtk, IsParsed, Concat, SizeIn;
    hide RamdiskAt, OthersAt;
    IsPaged(src);
    var all := NewPieces(src, files) + [Piece(src.trailer, true)];
    var whole := Finished(Body(src.header, NewPieces(src, files), src.page, 9), src);
    FinishedPieces(src, NewPieces(src, files));
    PieceHolds(image, front, whole, src.header, all, src.page, RAMDISK);
    FirstPositions(src, files, all);
    FirstTwo(src, files);
    FirstLengths(src, files);
    MtkSize(src);
    var ramdisk := if SizeIn(src.version, src.raw, RAMDISK_TABLE) != 0 then Concat(files.vendor)
                   else files.ramdisk.GetOr([]);
    MtkIs(src.mtkRamdisk, |ramdisk| % 0x1_0000_0000);
    HoldsBoth(image, front, RamdiskAt(src, files), Mtk(src.mtkRamdisk, |ramdisk| % 0x1_0000_0000), ramdisk);
  }

  lemma OthersHold(image: bytes, front: nat, src: Source, files: Files)
    requires IsParsed(src) && |files.vendor| == |src.entries| && IsWritten(image, front, src, files)
    ensures HoldsOthers(image, front, src, files)
  {
    hide Body, AlignTo, HoldsFrom, IsZeroFrom, IsBut, HoldsInOrder, EndOf, Finished, NewPieces, IsParsed, Others;
    hide OthersAt, RamdiskAt;
    IsPaged(src);
    var all := NewPieces(src, files) + [Piece(src.trailer, true)];
    var body := Body(src.header, all, src.page, 10);
    var whole := Finished(Body(src.header, NewPieces(src, files), src.page, 9), src);
    FinishedPieces(src, NewPieces(src, files));
    FirstPositions(src, files, all);
    EightOthers(src, files);
    forall j: nat | j < 8 ensures all[2 + j] == FilePiece(Others(src, files)[j]) { OtherPieces(src, files, j); }
    PiecesInOrder(image, front, whole, src.header, all, src.page, 2, Others(src, files));
    var zeros := Repeat<byte>(0, |whole| - |body|);
    PrefixHolds(image, front, whole, body, zeros);
    ZerosHold(image, front, |body|, |zeros|);
    SameLength(image, front, whole);
  }

  lemma EightOthers(src: Source, files: Files)
    requires |files.vendor| == |src.entries|
    ensures |Others(src, files)| == 8
  {
  }

  lemma HasHeader(src: Source)
    requires IsParsed(src)
    ensures |src.raw| <= src.length
  {
  }

  lemma DtboIsRight(src: Source, files: Files)
    requires IsParsed(src) && |files.vendor| == |src.entries|
    ensures var at := src.prefix + Position(src.header, FirstPieces(src, files), src.page, RECOVERY_DTBO);
            files.recoveryDtbo.Some? && HasField(src.version, RECOVERY_DTBO) && at < U32 * U32 ==>
              NewDtboOffset(src, files) == at
  {
    hide Position, FirstPieces, HasField;
  }

  lemma OverwriteFront(s: bytes, x: bytes)
    requires |x| <= |s|
    ensures x <= Overwrite(s, 0, x) && forall i | |x| <= i < |s| :: Overwrite(s, 0, x)[i] == s[i]
  {
  }

  // ---- vendor ramdisks ----

  lemma {:induction false} ConcatGrows(fs: seq<bytes>, i: nat)
    requires i < |fs|
    ensures Concat(fs[..i + 1]) == Concat(fs[..i]) + fs[i] <= Concat(fs) && (i == 0 ==> Concat(fs[..i]) == [])
  {
    assert fs[..i + 1][..i] == fs[..i];
    if i + 1 < |fs| {
      var rest := fs[..|fs| - 1];
      ConcatGrows(rest, i);
      assert rest[..i + 1] == fs[..i + 1] && rest[..i] == fs[..i];
    } else {
      assert fs[..i + 1] == fs;
    }
  }

  lemma WrapSmall(n: nat)
    requires n < U32
    ensures Wrap(n) == n
  {
  }

  /** The rewritten entries tile the ramdisk section: each starts where the one before ends, the last ends at its end,
      and each holds its own ramdisk. */
  lemma {:induction false} VendorRamdisksTile(entries: seq<Entry>, fs: seq<bytes>, i: nat)
    requires |fs| == |entries| && i < |fs| && |Concat(fs)| < U32
    ensures var e := NewEntries(entries, fs)[i];
            && Reads(Concat(fs), e.offset, e.size, fs[i])
            && e.rest == entries[i].rest
            && (i == 0 ==> e.offset == 0)
            && e.offset + e.size == if i + 1 < |fs| then NewEntries(entries, fs)[i + 1].offset else |Concat(fs)|
  {
    hide NewEntries, Concat, Reads, Wrap;
    NewEntriesAre(entries, fs);
    ConcatGrows(fs, i);
    forall n: nat | n < U32 ensures Wrap(n) == n { WrapSmall(n); }
    PrefixReads(Concat(fs), Concat(fs), Concat(fs[..i]), fs[i]);
    if i + 1 == |fs| {
      assert fs[..i + 1] == fs;
    } else {
      ConcatGrows(fs, i + 1);
    }
  }

  lemma {:induction false} EntryBytesAt(entries: seq<Entry>, i: nat)
    requires (forall e | e in entries :: |e.rest| == 100) && i < |entries|
    ensures |TableBytes(entries)| == 108 * |entries|
    ensures TableBytes(entries)[108 * i..108 * i + 108] == EntryBytes(entries[i])
  {
    var init, last := entries[..|entries| - 1], entries[|entries| - 1];
    if init == [] {
      assert TableBytes(init) == [];
    } else {
      EntryBytesAt(init, if i < |init| then i else 0);
    }
  }

  /** The table of the new image: for each ramdisk its length, its place in the block, and the rest of its old entry. */
  lemma TableHolds(src: Source, files: Files, i: nat)
    requires IsParsed(src) && |files.vendor| == |src.entries| && SizeIn(src.version, src.raw, RAMDISK_TABLE) != 0
    requires i < |src.entries|
    ensures var table := TableData(src, files);
            && |table| == 108 * |src.entries|
            && table[108 * i..108 * i + 4] == LE32(|files.vendor[i]| % 0x1_0000_0000)
            && table[108 * i + 4..108 * i + 8] == LE32(|Concat(files.vendor[..i])| % 0x1_0000_0000)
            && table[108 * i + 8..108 * i + 108] == src.entries[i].rest
  {
    hide NewEntries, TableBytes, SizeIn, LE32, Concat;
    var entries := NewEntries(src.entries, files.vendor);
    NewEntriesAre(src.entries, files.vendor);
    RestsStay(src, files);
    EntryBytesAt(entries, i);
    var e, at := TableData(src, files)[108 * i..108 * i + 108], 108 * i;
    FourBytes(entries[i].size);
    FourBytes(entries[i].offset);
    assert e[..4] == LE32(entries[i].size) && e[4..8] == LE32(entries[i].offset) && e[8..] == entries[i].rest;
  }

  lemma FourBytes(n: u32)
    ensures |LE32(n)| == 4
  {
  }

  lemma RestsStay(src: Source, files: Files)
    requires IsParsed(src) && |files.vendor| == |src.entries|
    ensures forall e | e in NewEntries(src.entries, files.vendor) :: |e.rest| == 100
  {
  }

  // ---- when the layout is not right ----

  /** The header fits in front of the kernel exactly when its page is not smaller, or it is a vendor header; then it
      does no harm. */
  lemma HeaderFits(src: Source, files: Files)
    requires IsParsed(src) && |files.vendor| == |src.entries|
    ensures HdrSize(src.version) <= |src.header| <==> IsVendor(src.version) || HdrSize(src.version) <= src.page
    ensures IsVendor(src.version) || HdrSize(src.version) <= src.page ==>
              IsHarmlessFront(NewRaw(src, files), src.header, NewPieces(src, files), src.page)
  {
    hide AlignTo, NewRaw, NewPieces, IsHarmlessFront;
    Aligned(HdrSize(src.version), src.page);
    if HdrSize(src.version) <= |src.header| {
      ShortFrontIsHarmless(NewRaw(src, files), src.header, NewPieces(src, files), src.page);
    }
  }

  const NO_FILES := Files(None, None, None, None, None, None, None, None, [])

  /** An image of version 0 with no blocks; its header says only the page size. */
  function EmptyImage(page: u32): Source {
    var raw := Overwrite(Repeat<byte>(0, 1632), 36, LE32(page));
    Source(V0, page, raw, [], 0, Repeat<byte>(0, page), [], [], None, None, [], 2048)
  }

  lemma ZeroWords(off: nat)
    ensures WordAt(Repeat<byte>(0, 1632), off) == 0
  {
  }

  lemma EmptyImageIsParsed(page: u32)
    requires 0 < page < 0x02000000
    ensures IsParsed(EmptyImage(page)) && forall b: Block :: SizeIn(V0, EmptyImage(page).raw, b) == 0
  {
    hide WordAt, Overwrite, LE32;
    OverwriteSets(Repeat<byte>(0, 1632), 36, page);
    forall off: nat | IsApart(36, 4, off) ensures WordAt(EmptyImage(page).raw, off) == 0 {
      OverwriteKeeps(Repeat<byte>(0, 1632), 36, LE32(page), off);
      ZeroWords(off);
    }
  }

  /** A vendor header is copied although there is no ramdisk, and no padding follows it: the second block is written
      where the parser does not look for it. */
  lemma StrayHeaderExample()
    ensures var src := EmptyImage(2048).(mtkRamdisk := Some(Repeat<byte>(0, 512)));
            IsParsed(src) && !IsConsistent(src, NO_FILES.(second := Some([1])))
  {
    hide Overwrite, LE32, SizeIn, SelectVersion, PageIn;
    EmptyImageIsParsed(2048);
    var src, files := EmptyImage(2048).(mtkRamdisk := Some(Repeat<byte>(0, 512))), NO_FILES.(second := Some([1]));
    var table: Block := RAMDISK_TABLE;
    assert SizeIn(V0, EmptyImage(2048).raw, table) == 0;
    assert !IsHarmless(NewPieces(src, files), SECOND);
    assert !NoStrayHeader(src, files);
  }

  /** The size of the extra block of the old image stays in the new header although no extra block is written. */
  lemma StaleSizeExample()
    ensures var src := EmptyImage(2048).(raw := Overwrite(EmptyImage(2048).raw, 40, LE32(7)));
            IsParsed(src) && !IsConsistent(src, NO_FILES)
  {
    hide WordAt, Overwrite, LE32;
    EmptyImageIsParsed(2048);
    var old_raw := EmptyImage(2048).raw;
    var src := EmptyImage(2048).(raw := Overwrite(old_raw, 40, LE32(7)));
    OverwriteSets(old_raw, 40, 7);
    forall off: nat | IsApart(40, 4, off) ensures WordAt(src.raw, off) == WordAt(old_raw, off) {
      OverwriteKeeps(old_raw, 40, LE32(7), off);
    }
    var b: Block := EXTRA;
    assert !BlockFits(src, NO_FILES, b);
  }

  /** An extra block of one byte: everything fits, but the parser takes the new header for one of version 1. */
  lemma ExtraIsVersionExample()
    ensures IsParsed(EmptyImage(2048))
    ensures var files := NO_FILES.(extra := Some([1]));
            Recorded(EmptyImage(2048), files, EXTRA) == 1 && LayoutFits(EmptyImage(2048), files)
            && !IsConsistent(EmptyImage(2048), files)
  {
    hide Overwrite, LE32, SizeIn, SelectVersion, PageIn;
    EmptyImageIsParsed(2048);
    var src, files := EmptyImage(2048), NO_FILES.(extra := Some([1]));
    forall b: Block ensures BlockFits(src, files, b) {
      assert SizeIn(V0, src.raw, b) == 0;
    }
  }

  /** A page smaller than the header: the blocks begin within the header, and the kernel is overwritten by it. */
  lemma SmallPageExample()
    ensures IsParsed(EmptyImage(1024))
    ensures var src, files := EmptyImage(1024), NO_FILES.(kernel := Some([1]));
            && IsConsistent(src, files)
            && !IsHarmlessFront(NewRaw(src, files), src.header, NewPieces(src, files), src.page)
  {
    hide LE32, SizeIn, SelectVersion, PageIn, NewRaw, DtboOffsetIn;
    EmptyImageIsParsed(1024);
    var src, files := EmptyImage(1024), NO_FILES.(kernel := Some([1]));
    forall b: Block ensures BlockFits(src, files, b) {
      assert SizeIn(V0, src.raw, b) == 0;
    }
    NewRawIs(src, files);
    assert IsText(V0, 1024) && src.raw[1024] == 0;
    var pieces := NewPieces(src, files);
    assert Position(src.header, pieces, src.page, KERNEL) == 1024;
    assert pieces[KERNEL].data[0] == 1 && NewRaw(src, files)[1024 + 0] == 0;
  }
}
