/** native/src/boot/cpio.rs, continued: archives that other programs wrote, and the bytes of a record. */
module CpioStream {
  import opened Wrappers
  import opened Bytes
  import opened CpioFormat

  // ---- archives of other programs ----

  type Thirteen = fs: seq<nat> | |fs| == 13 witness seq(13, _ => 0)

  /** A record as any program may write it. */
  datatype Item = Item(fs: Thirteen, name: Name, d: string) {
    function AsEntry(): Entry { Entry(fs[1], fs[2], fs[3], fs[9], fs[10], d) }
  }

  predicate IsSpecial(name: Name) { name == "." || name == ".." || name == "TRAILER!!!" }

  /** Fields and name are well formed; records that are no entries have no data. */
  predicate IsItem(i: Item) {
    AreFields(i.fs, i.name, i.d) && '\0' !in i.name && IsUtf8(i.name) && (IsSpecial(i.name) ==> i.d == "")
  }

  function Stream(items: seq<Item>): string {
    if items == [] then "" else RecordOf(items[0].fs, items[0].name, items[0].d) + Stream(items[1..])
  }

  /** The entry that a name has in the end: that of its last record. */
  function LastEntry(items: seq<Item>, n: Name): Option<Entry>
  {
    if items == [] || IsSpecial(n) then None
    else
      var last := items[|items| - 1];
      if last.name == n then Some(last.AsEntry())
      else LastEntry(items[..|items| - 1], n)
  }

  /** What reading adds to an archive, record by record. */
  function AddedItems(before: Archive, items: seq<Item>): Archive
    decreases |items|
  {
    if items == [] then before else AddedItems(WithItem(before, items[0]), items[1..])
  }

  lemma {:induction false} AddedItemsAre(before: Archive, items: seq<Item>, n: Name)
    ensures var l, r := LastEntry(items, n), AddedItems(before, items);
            if l.Some? then n in r && r[n] == l.value else (n in r <==> n in before) && (n in r ==> r[n] == before[n])
    decreases |items|
  {
    if items != [] {
      AddedItemsAre(WithItem(before, items[0]), items[1..], n);
      LastOfFirst(items, n);
    }
  }

  lemma {:induction false} LastOfFirst(items: seq<Item>, n: Name)
    requires items != []
    ensures LastEntry(items, n)
         == if LastEntry(items[1..], n).Some? || IsSpecial(n) || items[0].name != n then LastEntry(items[1..], n)
            else Some(items[0].AsEntry())
  {
    if |items| > 1 {
      LastOfFirst(items[..|items| - 1], n);
      assert items[1..][..|items| - 2] == items[..|items| - 1][1..];
    }
  }

  function WithItem(before: Archive, i: Item): Archive {
    if IsSpecial(i.name) then before else before[i.name := i.AsEntry()]
  }

  /** One record in front of others. */
  lemma ItemReadsBack(data: string, pos: nat, i: Item, rest: seq<Item>, before: Archive)
    requires IsItem(i) && IsAligned(pos) && Holds(data, pos, RecordOf(i.fs, i.name, i.d))
    requires var next := pos + |RecordOf(i.fs, i.name, i.d)|;
             next + |Stream(rest)| == |data| && Holds(data, next, Stream(rest))
    ensures var next := pos + |RecordOf(i.fs, i.name, i.d)|;
            IsAligned(next) && LoadFrom(data, pos, before) == LoadFrom(data, next, WithItem(before, i))
  {
    hide RecordOf, ReadEntry, Holds, IsAligned, IsUtf8, FindMagic, Stream;
    var next := pos + |RecordOf(i.fs, i.name, i.d)|;
    RecordShape(i.fs, i.name, i.d);
    AlignedSum(pos, |RecordOf(i.fs, i.name, i.d)|);
    if IsDot(i.name) {
      DotIsSkipped(data, pos, i.fs, i.name);
    } else if i.name == TRAILER {
      LoadAtTrailer(data, pos, i.fs, before);
      NextRecord(data, next, rest);
      StreamNothing(rest);
    } else {
      NameLength(i);
      AnyReadsBack(data, pos, i.fs, i.name, i.d);
    }
  }

  lemma {:induction false} StreamNothing(items: seq<Item>)
    ensures items == [] ==> Stream(items) == ""
  {
  }

  lemma {:induction false} StreamReadsBack(data: string, pos: nat, items: seq<Item>, before: Archive)
    requires (forall i | i in items :: IsItem(i)) && IsAligned(pos) && pos + |Stream(items)| == |data|
    requires Holds(data, pos, Stream(items))
    ensures LoadFrom(data, pos, before) == Ok(AddedItems(before, items))
    decreases |items|
  {
    hide RecordOf, ReadEntry, Holds, IsAligned, IsItem, WithItem;
    if items != [] {
      var i, rest := items[0], items[1..];
      var r := RecordOf(i.fs, i.name, i.d);
      HoldsPart(data, pos, r, Stream(rest));
      ItemReadsBack(data, pos, i, rest, before);
      StreamReadsBack(data, pos + |r|, rest, WithItem(before, i));
    }
  }

  lemma NameLength(i: Item)
    requires IsItem(i)
    ensures |i.name| + 1 < U32
  {
  }

  /** Behind a trailer the next record is found where it starts. */
  lemma {:induction false} NextRecord(data: string, pos: nat, items: seq<Item>)
    requires pos + |Stream(items)| == |data| && Holds(data, pos, Stream(items))
    ensures FindMagic(data, pos) == if items == [] then None else Some(pos)
  {
    hide FindMagic, Stream;
    if items == [] {
      StreamNothing(items);
      EndOfData(data);
    } else {
      var s := Stream(items);
      StreamStartsWithMagic(items);
      assert data[pos..pos + |s|][..6] == MAGIC;
      assert IsMagicAt(data, pos);
      var r := FindMagic(data, pos);
    }
  }

  lemma {:induction false} StreamStartsWithMagic(items: seq<Item>)
    requires items != []
    ensures |Stream(items)| >= 6 && Stream(items)[..6] == MAGIC
  {
    hide Fields;
    var r := RecordOf(items[0].fs, items[0].name, items[0].d);
    assert r[..6] == MAGIC;
  }

  /** The archive has the last entry of each name. */
  ghost predicate IsOf(r: Result<Archive, Error>, items: seq<Item>) {
    r.Ok? && forall n :: (n in r.value <==> LastEntry(items, n).Some?)
                         && (n in r.value ==> LastEntry(items, n) == Some(r.value[n]))
  }

  ghost predicate AreItems(items: seq<Item>) { forall i | i in items :: IsItem(i) }

  /** Any well-formed records, in any order: records of the directory itself and trailers are passed over, wherever they
      are, and of each other name the last record counts. */
  lemma {:induction false} LoadStream(items: seq<Item>)
    requires AreItems(items)
    ensures IsOf(Load(Stream(items)), items)
  {
    hide Stream, LoadFrom, IsUtf8, LastEntry;
    var data := Stream(items);
    assert Holds(data, 0, data) by { assert data[0..|data|] == data; }
    AlignedZero();
    StreamReadsBack(data, 0, items, map[]);
    forall n ensures (n in AddedItems(map[], items) <==> LastEntry(items, n).Some?)
                     && (n in AddedItems(map[], items) ==> LastEntry(items, n) == Some(AddedItems(map[], items)[n]))
    {
      AddedItemsAre(map[], items, n);
    }
  }

  /** Whatever well-formed records the data consists of. */
  ghost predicate IsOfAny(r: Result<Archive, Error>, data: string) {
    forall items | AreItems(items) && Stream(items) == data :: IsOf(r, items)
  }

  lemma LoadAny(data: string)
    ensures IsOfAny(Load(data), data)
  {
    hide AreItems, IsOf, Stream, Load;
    forall items | AreItems(items) && Stream(items) == data ensures IsOf(Load(data), items) {
      LoadStream(items);
    }
  }

  // ---- reading goes on as if the data began there ----

  function ShiftedBy(s: Step, n: nat): Step {
    match s
    case Skipped(next) => Skipped(n + next)
    case Found(name, entry, next) => Found(name, entry, n + next)
    case _ => s
  }

  lemma SliceShifts(p: string, d: string, from: nat, to: nat)
    requires from <= to <= |d|
    ensures (p + d)[|p| + from..|p| + to] == d[from..to]
  {
  }

  lemma NameShifts(p: string, d: string, pos: nat, size: nat)
    ensures ReadName(p + d, |p| + pos, size) == ReadName(d, pos, size)
  {
    hide IsUtf8;
    if 0 < size && pos + size <= |d| {
      SliceShifts(p, d, pos, pos + size - 1);
    }
  }

  lemma {:induction false} MagicShifts(p: string, d: string, pos: nat)
    requires pos <= |d|
    ensures var r := FindMagic(d, pos);
            FindMagic(p + d, |p| + pos) == if r.Some? then Some(|p| + r.value) else None
    decreases |d| - pos
  {
    if pos + 6 <= |d| {
      SliceShifts(p, d, pos, pos + 6);
      MagicShifts(p, d, pos + 1);
    }
  }

  lemma BodyShifts(p: string, d: string, hdr: string, name: Name, pos: nat)
    requires IsAligned(|p|) && |hdr| == HEADER_SIZE
    ensures ReadBody(p + d, hdr, name, |p| + pos) == ShiftedBy(ReadBody(d, hdr, name, pos), |p|)
  {
    hide HeaderField, Align4, FindMagic, IsAligned;
    if name == TRAILER {
      if pos <= |d| {
        MagicShifts(p, d, pos);
      }
    } else {
      var size := HeaderField(hdr, 6);
      if size.Some? && pos + size.value <= |d| {
        SliceShifts(p, d, pos, pos + size.value);
        AlignShift(|p|, pos + size.value);
      }
    }
  }

  lemma EntryShifts(p: string, d: string, pos: nat)
    requires IsAligned(|p|) && pos < |d|
    ensures ReadEntry(p + d, |p| + pos) == ShiftedBy(ReadEntry(d, pos), |p|)
  {
    hide HeaderField, Align4, IsAligned, ReadName, ReadBody;
    if pos + HEADER_SIZE <= |d| {
      SliceShifts(p, d, pos, pos + HEADER_SIZE);
      var hdr := d[pos..pos + HEADER_SIZE];
      var size := HeaderField(hdr, 11);
      if size.Some? {
        NameShifts(p, d, pos + HEADER_SIZE, size.value);
        AlignShift(|p|, pos + HEADER_SIZE + size.value);
        var name := ReadName(d, pos + HEADER_SIZE, size.value);
        if name.Ok? {
          BodyShifts(p, d, hdr, name.value, Align4(pos + HEADER_SIZE + size.value));
        }
      }
    }
  }

  lemma {:induction false} LoadShifts(p: string, d: string, pos: nat, before: Archive)
    requires IsAligned(|p|)
    ensures LoadFrom(p + d, |p| + pos, before) == LoadFrom(d, pos, before)
    decreases |d| - pos
  {
    hide ReadEntry, IsAligned;
    if pos < |d| {
      EntryShifts(p, d, pos);
      match ReadEntry(d, pos)
      case Skipped(next) => LoadShifts(p, d, next, before);
      case Found(name, entry, next) => LoadShifts(p, d, next, before[name := entry]);
      case _ =>
    }
  }

  /** Whatever follows a record of an entry or of the directory itself, well formed or not, is read as without it. */
  lemma {:induction false} RecordInFront(i: Item, data: string, before: Archive)
    requires IsItem(i) && i.name != "TRAILER!!!"
    ensures LoadFrom(RecordOf(i.fs, i.name, i.d) + data, 0, before) == LoadFrom(data, 0, WithItem(before, i))
  {
    hide RecordOf, ReadEntry, Holds, IsAligned, IsUtf8, Fields;
    var r := RecordOf(i.fs, i.name, i.d);
    RecordShape(i.fs, i.name, i.d);
    HoldsInFront(r, data);
    AlignedZero();
    if IsDot(i.name) {
      DotIsSkipped(r + data, 0, i.fs, i.name);
    } else {
      NameLength(i);
      AnyReadsBack(r + data, 0, i.fs, i.name, i.d);
    }
    LoadShifts(r, data, 0, WithItem(before, i));
  }

  lemma HoldsInFront(r: string, data: string)
    ensures Holds(r + data, 0, r)
  {
    assert (r + data)[0..|r|] == r;
  }

  /** A record of the directory itself changes nothing, whatever follows it. */
  lemma DotInFront(fs: Thirteen, dot: Name, data: string)
    requires dot in {".", ".."} && AreFields(fs, dot, "")
    ensures Load(RecordOf(fs, dot, "") + data) == Load(data)
  {
    hide RecordOf, LoadFrom, IsUtf8;
    DotsAreNames(dot);
    RecordInFront(Item(fs, dot, ""), data, map[]);
  }

  /** Nor does it between the records of a dump. */
  lemma {:induction false} DotBetween(names: seq<Name>, c: Archive, inode: nat, fs: Thirteen, dot: Name, data: string,
                                      before: Archive)
    requires (forall n | n in names :: n in c) && IsStorable(c) && inode + |names| <= U32
    requires dot in {".", ".."} && AreFields(fs, dot, "")
    ensures LoadFrom(Records(names, c, inode) + RecordOf(fs, dot, "") + data, 0, before)
         == LoadFrom(Records(names, c, inode) + data, 0, before)
    decreases |names|
  {
    hide RecordOf, LoadFrom, IsUtf8;
    var r := RecordOf(fs, dot, "");
    if names == [] {
      DotsAreNames(dot);
      RecordInFront(Item(fs, dot, ""), data, before);
      assert Records(names, c, inode) + r + data == r + data && Records(names, c, inode) + data == data;
    } else {
      var name, e, rest := names[0], c[names[0]], Records(names[1..], c, inode + 1);
      EntryFieldsFit(inode, name, e);
      var i := Item(EntryFields(inode, name, e), name, e.data);
      RecordInFront(i, rest + r + data, before);
      RecordInFront(i, rest + data, before);
      DotBetween(names[1..], c, inode + 1, fs, dot, data, WithItem(before, i));
      assert Records(names, c, inode) + r + data == Record(inode, name, e) + (rest + r + data);
      assert Records(names, c, inode) + data == Record(inode, name, e) + (rest + data);
    }
  }

  // ---- malformed archives ----

  /** A record of an entry that breaks off inside its header, its name or its data is an error. */
  lemma {:induction false} CutRecordFails(i: Item, k: nat, before: Archive)
    requires IsItem(i) && !IsSpecial(i.name)
    requires 0 < k < Align4(HEADER_SIZE + |i.name| + 1) + |i.d| && (i.d == "" ==> k < HEADER_SIZE + |i.name| + 1)
    ensures k <= |RecordOf(i.fs, i.name, i.d)|
    ensures LoadFrom(RecordOf(i.fs, i.name, i.d)[..k], 0, before) == Err(OutOfBounds)
  {
    hide RecordOf, IsUtf8, Fields, HeaderField, Header, Holds;
    var r := RecordOf(i.fs, i.name, i.d);
    RecordShape(i.fs, i.name, i.d);
    var n := HEADER_SIZE + |i.name| + 1;
    AlignShift(0, n);
    var data := r[..k];
    if HEADER_SIZE <= k {
      HoldsInFront(r, "");
      assert r + "" == r;
      AlignedZero();
      RecordParts(r, 0, i.fs, i.name, i.d);
      HoldsSlice(r, 0, Header(i.fs));
      assert data[..HEADER_SIZE] == r[..HEADER_SIZE] == r[0..HEADER_SIZE];
      forall j: nat | j < 13 ensures HeaderField(Header(i.fs), j) == Some(i.fs[j]) { HeaderRoundTrip(i.fs, j); }
      HeaderRoundTrip(i.fs, 0);
      if n <= k {
        HoldsSlice(r, HEADER_SIZE, i.name + "\0");
        assert Holds(data, HEADER_SIZE, i.name + "\0") by {
          HoldsCut(r, k, HEADER_SIZE, i.name + "\0");
        }
        NameReadsBack(data, HEADER_SIZE, i.name);
      }
    }
  }

  lemma HoldsCut(r: string, k: nat, pos: nat, s: string)
    requires Holds(r, pos, s) && pos + |s| <= k <= |r|
    ensures Holds(r[..k], pos, s)
  {
    assert r[..k][pos..pos + |s|] == r[pos..pos + |s|];
  }

  /** What is no header is an error: too few bytes, another magic, or a length of the name that is no number. */
  lemma {:induction false} NoHeaderFails(data: string, before: Archive)
    requires data != ""
    ensures |data| < 110 ==> LoadFrom(data, 0, before) == Err(OutOfBounds)
    ensures |data| >= 110 && data[..6] != "070701" ==> LoadFrom(data, 0, before) == Err(BadMagic)
    ensures |data| >= 110 && data[..6] == "070701" && ParseHex(data[94..102]).None?
            ==> LoadFrom(data, 0, before) == Err(BadHeader)
  {
    hide ParseHex;
    if |data| >= 110 {
      var hdr := data[0..110];
      assert hdr[..6] == data[..6];
      assert hdr[94..102] == data[94..102];
    }
  }

  /** A name is read exactly when it is there, ends with the only NUL, and is UTF-8. */
  lemma {:induction false} NameIsRead(data: string, pos: nat, size: nat, n: Name)
    ensures ReadName(data, pos, size) == Ok(n) <==>
            pos + size <= |data| && data[pos..pos + size] == n + "\0" && '\0' !in n && IsUtf8(n)
    ensures ReadName(data, pos, size).Err? ==>
              ReadName(data, pos, size).error == if pos + size > |data| then OutOfBounds else BadName
  {
    hide IsUtf8;
    if pos + size <= |data| {
      var s := data[pos..pos + size];
      if size > 0 {
        assert s[..size - 1] == data[pos..pos + size - 1] && s[size - 1] == data[pos + size - 1];
        assert s == s[..size - 1] + [s[size - 1]];
      }
      if s == n + "\0" {
        assert size == |n| + 1 && s[..size - 1] == n && s[size - 1] == '\0';
      }
    }
  }

  // ---- the bytes ----

  /** Where the fields of a header are, and how they are written. */
  lemma HeaderBytes(fs: seq<nat>, i: nat)
    requires |fs| == 13 && i < 13 && Are32Bit(fs)
    ensures |Header(fs)| == 110 && Header(fs)[..6] == "070701"
    ensures Header(fs)[6 + 8 * i..14 + 8 * i] == Hex(fs[i], 8)
  {
    FieldAt(fs, i);
    assert Header(fs)[6 + 8 * i..14 + 8 * i] == Fields(fs)[8 * i..8 * i + 8];
  }

  /** Fields are read as hexadecimal numbers, in either case; any other character is an error. */
  lemma {:induction false} ParseDigit(s: string, c: char, d: nat)
    requires d < 16
    ensures ParseHex("") == Some(0)
    ensures c in {"0123456789abcdef"[d], "0123456789ABCDEF"[d]} ==>
              ParseHex(s + [c]) == if ParseHex(s).Some? then Some(ParseHex(s).value * 16 + d) else None
    ensures c !in "0123456789abcdefABCDEF" ==> ParseHex(s + [c]) == None
  {
    hide DigitValue;
    assert (s + [c])[..|s|] == s;
    DigitIs(c, d);
  }

  lemma DigitIs(c: char, d: nat)
    requires d < 16
    ensures c in {"0123456789abcdef"[d], "0123456789ABCDEF"[d]} ==> DigitValue(c) == Some(d)
    ensures c !in "0123456789abcdefABCDEF" ==> DigitValue(c) == None
  {
    var all := "0123456789abcdefABCDEF";
    if '0' <= c <= '9' {
      assert all[c as int - '0' as int] == c;
    } else if 'a' <= c <= 'f' {
      assert all[c as int - 'a' as int + 10] == c;
    } else if 'A' <= c <= 'F' {
      assert all[c as int - 'A' as int + 16] == c;
    }
  }

  /** They are written in lower case; with HexRoundTrip that leaves one way to write a number. */
  lemma {:induction false} HexIsLower(n: nat, digits: nat, i: nat)
    requires i < digits
    ensures |Hex(n, digits)| == digits && Hex(n, digits)[i] in "0123456789abcdef"
  {
    if i < digits - 1 {
      HexIsLower(n / 16, digits - 1, i);
    }
  }

  /** A number that needs more than eight digits gets them. */
  lemma {:induction false} FieldIsNumber(n: nat)
    ensures ParseHex(Field(n)) == Some(n) && |Field(n)| >= 8 && (|Field(n)| == 8 <==> n < 0x1_0000_0000)
  {
    if n < U32 {
      FieldRoundTrip(n);
    } else {
      FieldIsNumber(n / 16);
      hide ParseHex, Hex, DigitValue;
      var d := n % 16;
      ParseDigit(Field(n / 16), Digit(d), d);
      assert n / 16 * 16 + d == n;
      assert Field(n) == Field(n / 16) + [Digit(d)];
    }
  }

  /** What a dump writes for an entry, and at its end. */
  lemma {:induction false} DumpedFields(names: seq<Name>, c: Archive, k: nat)
    requires (forall n | n in names :: n in c) && k < |names|
    ensures var e := c[names[k]];
            EntryFields(300000 + k, names[k], e)
            == [300000 + k, e.mode, e.uid, e.gid, 1, 0, |e.data|, 0, 0, e.rdevmajor, e.rdevminor, |names[k]| + 1, 0]
    ensures Dumped(names, c)
         == Records(names[..k], c, 300000) + Record(300000 + k, names[k], c[names[k]])
            + Records(names[k + 1..], c, 300000 + k + 1)
            + RecordOf([300000 + |names|, 0x1ED, 0, 0, 1, 0, 0, 0, 0, 0, 0, 11, 0], "TRAILER!!!", "")
  {
    hide RecordOf;
    RecordsSplit(names, c, 300000, k);
  }

  lemma {:induction false} RecordsSplit(names: seq<Name>, c: Archive, inode: nat, k: nat)
    requires (forall n | n in names :: n in c) && k < |names|
    ensures Records(names, c, inode)
         == Records(names[..k], c, inode) + Record(inode + k, names[k], c[names[k]])
            + Records(names[k + 1..], c, inode + k + 1)
    decreases |names|
  {
    hide Record;
    if k == 0 {
      assert names[..0] == [];
    } else {
      RecordsSplit(names[1..], c, inode + 1, k - 1);
      assert names[..k][1..] == names[1..][..k - 1] && names[1..][k..] == names[k + 1..];
    }
  }
}
