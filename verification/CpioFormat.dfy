/**
  The ramdisk archive reader and writer (native/src/boot/cpio.rs) for the "New ASCII Format" of
  cpio(5).  A byte is a char.
 */
module CpioFormat {
  import opened Wrappers
  import opened Bytes

  type Name = string

  const MAGIC: string := "070701"
  const TRAILER: Name := "TRAILER!!!"
  const HEADER_SIZE: nat := 110
  const FIRST_INODE: nat := 300000

  datatype Entry = Entry(mode: nat, uid: nat, gid: nat, rdevmajor: nat, rdevminor: nat, data: string)

  type Archive = map<Name, Entry>

  datatype Error =
    | OutOfBounds // slicing past the end of the data panics
    | BadMagic
    | BadHeader   // a field is not hexadecimal
    | BadName     // not terminated by its only NUL, or not UTF-8

  // ---- alignment ----

  function Align4(x: nat): nat { (x + 3) / 4 * 4 }

  function Padding(n: nat): string { Repeat('\0', Align4(n) - n) }

  predicate IsAligned(n: nat) { n % 4 == 0 }

  lemma AlignedSum(a: nat, b: nat)
    requires IsAligned(a) && IsAligned(b)
    ensures IsAligned(a + b)
  {
  }

  lemma AlignedZero()
    ensures IsAligned(0)
  {
  }

  lemma AlignShift(base: nat, x: nat)
    requires IsAligned(base)
    ensures Align4(base + x) == base + Align4(x)
    ensures IsAligned(Align4(x)) && x <= Align4(x)
  {
  }

  // ---- hexadecimal fields ----

  function DigitValue(c: char): Option<nat> {
    if '0' <= c <= '9' then Some(c as int - '0' as int)
    else if 'a' <= c <= 'f' then Some(c as int - 'a' as int + 10)
    else if 'A' <= c <= 'F' then Some(c as int - 'A' as int + 10)
    else None
  }

  function Digit(d: nat): (c: char)
    requires d < 16
    ensures DigitValue(c) == Some(d)
  {
    "0123456789abcdef"[d]
  }

  /** x8u */
  function ParseHex(s: string): Option<nat> {
    if s == "" then Some(0)
    else
      var hi, lo := ParseHex(s[..|s| - 1]), DigitValue(s[|s| - 1]);
      if hi.Some? && lo.Some? then Some(hi.value * 16 + lo.value) else None
  }

  function Hex(n: nat, digits: nat): (s: string)
    ensures |s| == digits
  {
    if digits == 0 then "" else Hex(n / 16, digits - 1) + [Digit(n % 16)]
  }

  /** The format {:08x}: eight digits, more when the value needs them. */
  function Field(n: nat): string {
    if n < U32 then Hex(n, 8) else Field(n / 16) + [Digit(n % 16)]
  }

  function Pow16(k: nat): nat { if k == 0 then 1 else 16 * Pow16(k - 1) }

  lemma {:induction false} HexRoundTrip(n: nat, digits: nat)
    requires n < Pow16(digits)
    ensures ParseHex(Hex(n, digits)) == Some(n)
  {
    if digits > 0 {
      HexRoundTrip(n / 16, digits - 1);
      assert Hex(n, digits)[..digits - 1] == Hex(n / 16, digits - 1);
    }
  }

  lemma {:induction false} ParsedIsBounded(s: string)
    ensures ParseHex(s).Some? ==> ParseHex(s).value < Pow16(|s|)
  {
    if s != "" {
      ParsedIsBounded(s[..|s| - 1]);
    }
  }

  lemma Pow16Of8()
    ensures Pow16(8) == U32
  {
    assert Pow16(2) == 256;
    assert Pow16(4) == 65536;
    assert Pow16(6) == 16777216;
  }

  lemma {:induction false} FieldRoundTrip(n: nat)
    requires n < U32
    ensures |Field(n)| == 8 && ParseHex(Field(n)) == Some(n)
  {
    Pow16Of8();
    HexRoundTrip(n, 8);
  }

  predicate Are32Bit(fs: seq<nat>) {
    forall i | 0 <= i < |fs| :: fs[i] < U32
  }

  function Fields(fs: seq<nat>): string {
    if fs == [] then "" else Field(fs[0]) + Fields(fs[1..])
  }

  lemma {:induction false} FieldAt(fs: seq<nat>, i: nat)
    requires i < |fs| && Are32Bit(fs)
    ensures |Fields(fs)| == 8 * |fs|
    ensures Fields(fs)[8 * i..8 * i + 8] == Field(fs[i])
  {
    FieldRoundTrip(fs[0]);
    if |fs| > 1 {
      FieldAt(fs[1..], if i == 0 then 0 else i - 1);
    }
    if i > 0 {
      assert Fields(fs)[8 * i..8 * i + 8] == Fields(fs[1..])[8 * (i - 1)..8 * (i - 1) + 8];
    } else {
      assert Fields(fs)[..8] == Field(fs[0]);
    }
  }

  /** The i-th of the thirteen fields that follow the magic. */
  function HeaderField(hdr: string, i: nat): Option<nat>
    requires |hdr| == HEADER_SIZE && i < 13
  {
    ParseHex(hdr[6 + 8 * i..14 + 8 * i])
  }

  function Header(fs: seq<nat>): string { MAGIC + Fields(fs) }

  lemma HeaderRoundTrip(fs: seq<nat>, i: nat)
    requires |fs| == 13 && i < 13 && Are32Bit(fs)
    ensures |Header(fs)| == HEADER_SIZE && Header(fs)[..6] == MAGIC
    ensures HeaderField(Header(fs), i) == Some(fs[i])
  {
    FieldAt(fs, i);
    FieldRoundTrip(fs[i]);
    assert Header(fs)[6 + 8 * i..14 + 8 * i] == Fields(fs)[8 * i..8 * i + 8];
  }

  // ---- names ----

  predicate IsContinuation(c: char) { 0x80 <= c as int < 0xC0 }

  /** How many bytes the UTF-8 sequence at the front takes; 0 when there is none. */
  function Utf8Length(s: string): (n: nat)
    requires s != ""
    ensures n <= |s|
  {
    var b := s[0] as int;
    if b < 0x80 then 1
    else if 0xC2 <= b < 0xE0 && |s| >= 2 && IsContinuation(s[1]) then 2
    else if 0xE0 <= b < 0xF0 && |s| >= 3 && IsContinuation(s[1]) && IsContinuation(s[2])
            && (b == 0xE0 ==> s[1] as int >= 0xA0) && (b == 0xED ==> (s[1] as int) < 0xA0) then 3
    else if 0xF0 <= b < 0xF5 && |s| >= 4 && IsContinuation(s[1]) && IsContinuation(s[2]) && IsContinuation(s[3])
            && (b == 0xF0 ==> s[1] as int >= 0x90) && (b == 0xF4 ==> (s[1] as int) < 0x90) then 4
    else 0
  }

  predicate IsUtf8(s: string) {
    s == "" || (Utf8Length(s) > 0 && IsUtf8(s[Utf8Length(s)..]))
  }

  lemma {:induction false} AsciiIsUtf8(s: string)
    requires forall i | 0 <= i < |s| :: s[i] as int < 0x80
    ensures IsUtf8(s)
  {
    if s != "" {
      AsciiIsUtf8(s[1..]);
    }
  }

  /** Utf8CStr::from_bytes */
  function ReadName(data: string, pos: nat, size: nat): Result<Name, Error> {
    if pos + size > |data| then Err(OutOfBounds)
    else if size == 0 || data[pos + size - 1] != '\0' || '\0' in data[pos..pos + size - 1]
            || !IsUtf8(data[pos..pos + size - 1]) then Err(BadName)
    else Ok(data[pos..pos + size - 1])
  }

  // ---- reading ----

  predicate IsMagicAt(data: string, i: nat) {
    i + 6 <= |data| && data[i..i + 6] == MAGIC
  }

  /** memmem for the magic, from a position on. */
  function FindMagic(data: string, pos: nat): (r: Option<nat>)
    requires pos <= |data|
    ensures r.Some? ==> pos <= r.value && IsMagicAt(data, r.value)
    ensures forall i | pos <= i && (r.Some? ==> i < r.value) :: !IsMagicAt(data, i)
    decreases |data| - pos
  {
    if pos + 6 > |data| then None
    else if IsMagicAt(data, pos) then Some(pos)
    else FindMagic(data, pos + 1)
  }

  /** One turn of the loop of load_from_data. */
  datatype Step =
    | Done
    | Failed(error: Error)
    | Skipped(next: nat)
    | Found(name: Name, entry: Entry, next: nat)

  function ReadEntry(data: string, pos: nat): (r: Step)
    requires pos < |data|
    ensures r.Skipped? || r.Found? ==> r.next > pos
  {
    if pos + HEADER_SIZE > |data| then Failed(OutOfBounds)
    else
      var hdr := data[pos..pos + HEADER_SIZE];
      if hdr[..6] != MAGIC then Failed(BadMagic)
      else
        var nameSize := HeaderField(hdr, 11);
        if nameSize.None? then Failed(BadHeader)
        else
          var name := ReadName(data, pos + HEADER_SIZE, nameSize.value);
          if name.Err? then Failed(name.error)
          else ReadBody(data, hdr, name.value, Align4(pos + HEADER_SIZE + nameSize.value))
  }

  function ReadBody(data: string, hdr: string, name: Name, pos: nat): (r: Step)
    requires |hdr| == HEADER_SIZE
    ensures r.Skipped? || r.Found? ==> r.next >= pos
  {
    if name == "." || name == ".." then Skipped(pos)
    else if name == TRAILER then
      if pos > |data| then Failed(OutOfBounds)
      else
        match FindMagic(data, pos)
        case Some(next) => Skipped(next)
        case None => Done
    else
      var size, mode, uid := HeaderField(hdr, 6), HeaderField(hdr, 1), HeaderField(hdr, 2);
      var gid, major, minor := HeaderField(hdr, 3), HeaderField(hdr, 9), HeaderField(hdr, 10);
      if size.None? || mode.None? || uid.None? || gid.None? || major.None? || minor.None? then Failed(BadHeader)
      else if pos + size.value > |data| then Failed(OutOfBounds)
      else
        Found(name, Entry(mode.value, uid.value, gid.value, major.value, minor.value, data[pos..pos + size.value]),
              Align4(pos + size.value))
  }

  function LoadFrom(data: string, pos: nat, entries: Archive): Result<Archive, Error>
    decreases |data| - pos
  {
    if pos >= |data| then Ok(entries)
    else
      match ReadEntry(data, pos)
      case Done => Ok(entries)
      case Failed(e) => Err(e)
      case Skipped(next) => LoadFrom(data, next, entries)
      case Found(name, entry, next) => LoadFrom(data, next, entries[name := entry])
  }

  function Load(data: string): Result<Archive, Error> { LoadFrom(data, 0, map[]) }

  // ---- writing ----

  function EntryFields(inode: nat, name: Name, e: Entry): seq<nat> {
    [inode, e.mode, e.uid, e.gid, 1, 0, |e.data|, 0, 0, e.rdevmajor, e.rdevminor, |name| + 1, 0]
  }

  /** A record with any fields. */
  function RecordOf(fs: seq<nat>, name: Name, d: string): string {
    var head := Header(fs) + name + "\0";
    head + Padding(|head|) + d + Padding(|d|)
  }

  function Record(inode: nat, name: Name, e: Entry): string { RecordOf(EntryFields(inode, name, e), name, e.data) }

  const TrailerEntry := Entry(0x1ED, 0, 0, 0, 0, "") // mode 0o755

  function Records(names: seq<Name>, c: Archive, inode: nat): string
    requires forall n | n in names :: n in c
  {
    if names == [] then "" else Record(inode, names[0], c[names[0]]) + Records(names[1..], c, inode + 1)
  }

  function Dumped(names: seq<Name>, c: Archive): string
    requires forall n | n in names :: n in c
  {
    Records(names, c, FIRST_INODE) + Record(FIRST_INODE + |names|, TRAILER, TrailerEntry)
  }

  // ---- what can be stored ----

  predicate IsLoadableName(name: Name) {
    && name != "." && name != ".." && name != TRAILER
    && '\0' !in name && IsUtf8(name) && |name| + 1 < U32
  }

  predicate Is32BitEntry(e: Entry) {
    e.mode < U32 && e.uid < U32 && e.gid < U32 && e.rdevmajor < U32 && e.rdevminor < U32 && |e.data| < U32
  }

  predicate IsStorable(c: Archive) {
    forall n | n in c :: IsLoadableName(n) && Is32BitEntry(c[n])
  }

  lemma ParsedField(hdr: string, i: nat)
    requires |hdr| == HEADER_SIZE && i < 13
    ensures HeaderField(hdr, i).Some? ==> HeaderField(hdr, i).value < U32
  {
    Pow16Of8();
    ParsedIsBounded(hdr[6 + 8 * i..14 + 8 * i]);
  }

  lemma FoundIsStorable(data: string, pos: nat)
    requires pos < |data|
    ensures var r := ReadEntry(data, pos); r.Found? ==> IsLoadableName(r.name) && Is32BitEntry(r.entry)
  {
    if pos + HEADER_SIZE <= |data| {
      var hdr := data[pos..pos + HEADER_SIZE];
      ParsedField(hdr, 1);
      ParsedField(hdr, 2);
      ParsedField(hdr, 3);
      ParsedField(hdr, 6);
      ParsedField(hdr, 9);
      ParsedField(hdr, 10);
      ParsedField(hdr, 11);
    }
  }

  /** Whatever the bytes are, only storable archives are ever loaded. */
  lemma {:induction false} LoadedIsStorable(data: string, pos: nat, entries: Archive)
    requires IsStorable(entries)
    ensures LoadFrom(data, pos, entries).Ok? ==> IsStorable(LoadFrom(data, pos, entries).value)
    decreases |data| - pos
  {
    if pos < |data| {
      FoundIsStorable(data, pos);
      match ReadEntry(data, pos)
      case Done =>
      case Failed(_) =>
      case Skipped(next) => LoadedIsStorable(data, next, entries);
      case Found(name, entry, next) => LoadedIsStorable(data, next, entries[name := entry]);
    }
  }

  // ---- reading back what was written ----

  /** data holds s at position pos. */
  ghost predicate Holds(data: string, pos: nat, s: string) {
    pos + |s| <= |data| && data[pos..pos + |s|] == s
  }

  lemma HoldsPart(data: string, pos: nat, a: string, b: string)
    requires Holds(data, pos, a + b)
    ensures Holds(data, pos, a) && Holds(data, pos + |a|, b)
  {
    assert data[pos..pos + |a + b|][..|a|] == a;
    assert data[pos..pos + |a + b|][|a|..] == b;
  }

  /** The fields are those of a record: thirteen of 32 bits, with the lengths of its data and of its name. */
  predicate AreFields(fs: seq<nat>, name: Name, d: string) {
    |fs| == 13 && Are32Bit(fs) && fs[6] == |d| && fs[11] == |name| + 1
  }

  lemma EntryFieldsFit(inode: nat, name: Name, e: Entry)
    requires inode < U32 && |name| + 1 < U32 && Is32BitEntry(e)
    ensures AreFields(EntryFields(inode, name, e), name, e.data)
  {
  }

  lemma RecordShape(fs: seq<nat>, name: Name, d: string)
    requires AreFields(fs, name, d)
    ensures var p := Align4(HEADER_SIZE + |name| + 1);
            && |Header(fs)| == HEADER_SIZE
            && RecordOf(fs, name, d)
               == Header(fs) + (name + "\0" + (Repeat('\0', p - (HEADER_SIZE + |name| + 1)) + (d + Padding(|d|))))
            && |RecordOf(fs, name, d)| == p + Align4(|d|)
            && IsAligned(|RecordOf(fs, name, d)|)
  {
    HeaderRoundTrip(fs, 0);
    AlignShift(0, HEADER_SIZE + |name| + 1);
    AlignShift(0, |d|);
  }

  /** The parts of a record, where they lie in the data. */
  lemma RecordParts(data: string, pos: nat, fs: seq<nat>, name: Name, d: string)
    requires AreFields(fs, name, d) && IsAligned(pos) && Holds(data, pos, RecordOf(fs, name, d))
    ensures Holds(data, pos, Header(fs))
    ensures Holds(data, pos + HEADER_SIZE, name + "\0")
    ensures Holds(data, Align4(pos + HEADER_SIZE + |name| + 1), d)
    ensures Align4(Align4(pos + HEADER_SIZE + |name| + 1) + |d|) == pos + |RecordOf(fs, name, d)|
  {
    hide RecordOf, Header, Holds, Align4, IsAligned, AreFields, Padding, Fields;
    RecordShape(fs, name, d);
    var n := HEADER_SIZE + |name| + 1;
    var tail := d + Padding(|d|);
    HoldsPart(data, pos, Header(fs), name + "\0" + (Repeat('\0', Align4(n) - n) + tail));
    HoldsPart(data, pos + HEADER_SIZE, name + "\0", Repeat('\0', Align4(n) - n) + tail);
    HoldsPart(data, pos + n, Repeat('\0', Align4(n) - n), tail);
    AlignShift(pos, n);
    HoldsPart(data, pos + Align4(n), d, Padding(|d|));
    AlignedSum(pos, Align4(n));
    AlignShift(pos + Align4(n), |d|);
  }

  lemma {:induction false} NameReadsBack(data: string, pos: nat, name: Name)
    requires Holds(data, pos, name + "\0") && '\0' !in name && IsUtf8(name)
    ensures ReadName(data, pos, |name| + 1) == Ok(name)
  {
    hide IsUtf8, Holds;
    assert pos + |name| + 1 <= |data| && data[pos..pos + |name|] == name && data[pos + |name|] == '\0' by {
      HoldsPart(data, pos, name, "\0");
      HoldsSlice(data, pos, name);
      HoldsSlice(data, pos + |name|, "\0");
      assert data[pos + |name|] == data[pos + |name|..pos + |name| + 1][0];
    }
  }

  lemma HoldsSlice(data: string, pos: nat, s: string)
    requires Holds(data, pos, s)
    ensures pos + |s| <= |data| && data[pos..pos + |s|] == s
  {
  }

  /** How a turn of the loop goes once header and name are known. */
  lemma {:induction false} ReadEntryBody(data: string, pos: nat, fs: seq<nat>, name: Name, d: string)
    requires AreFields(fs, name, d) && IsAligned(pos) && Holds(data, pos, RecordOf(fs, name, d))
    requires '\0' !in name && IsUtf8(name)
    ensures pos < |data| && |Header(fs)| == HEADER_SIZE
    ensures ReadEntry(data, pos) == ReadBody(data, Header(fs), name, Align4(pos + HEADER_SIZE + (|name| + 1)))
  {
    hide IsUtf8, ParseHex, Fields, RecordOf, ReadBody, ReadName, Align4, Holds, IsAligned;
    RecordParts(data, pos, fs, name, d);
    HeaderRoundTrip(fs, 11);
    NameReadsBack(data, pos + HEADER_SIZE, name);
    HoldsSlice(data, pos, Header(fs));
  }

  /** Any record is read as the entry its fields describe: of the thirteen, mode, uid and gid are the second to fourth,
      the numbers of a device the tenth and eleventh. */
  lemma AnyReadsBack(data: string, pos: nat, fs: seq<nat>, name: Name, d: string)
    requires AreFields(fs, name, d) && IsAligned(pos) && Holds(data, pos, RecordOf(fs, name, d)) && IsLoadableName(name)
    ensures pos < |data|
    ensures ReadEntry(data, pos)
         == Found(name, Entry(fs[1], fs[2], fs[3], fs[9], fs[10], d), pos + |RecordOf(fs, name, d)|)
  {
    hide IsUtf8, Fields, RecordOf, ReadEntry, Align4, Holds, IsAligned, HeaderField, Header;
    ReadEntryBody(data, pos, fs, name, d);
    RecordParts(data, pos, fs, name, d);
    forall i: nat | i < 13 ensures HeaderField(Header(fs), i) == Some(fs[i]) { HeaderRoundTrip(fs, i); }
    HoldsSlice(data, Align4(pos + HEADER_SIZE + |name| + 1), d);
  }

  predicate IsDot(name: Name) { name == "." || name == ".." }

  lemma {:induction false} DotsAreNames(name: Name)
    requires IsDot(name)
    ensures '\0' !in name && IsUtf8(name)
  {
    AsciiIsUtf8(name);
  }

  /** A record for the directory itself is skipped, and reading goes on behind it. */
  lemma DotIsSkipped(data: string, pos: nat, fs: seq<nat>, name: Name)
    requires IsDot(name) && AreFields(fs, name, "") && IsAligned(pos) && Holds(data, pos, RecordOf(fs, name, ""))
    ensures pos < |data| && ReadEntry(data, pos) == Skipped(pos + |RecordOf(fs, name, "")|)
  {
    hide IsUtf8, Fields, RecordOf, ReadEntry, Align4, Holds, IsAligned, Header;
    DotsAreNames(name);
    RecordShape(fs, name, "");
    ReadEntryBody(data, pos, fs, name, "");
    AlignShift(pos, HEADER_SIZE + |name| + 1);
    AlignOfZero();
  }

  lemma RecordReadsBack(data: string, pos: nat, inode: nat, name: Name, e: Entry)
    requires inode < U32 && IsAligned(pos) && Holds(data, pos, Record(inode, name, e))
    requires IsLoadableName(name) && Is32BitEntry(e)
    ensures pos < |data| && ReadEntry(data, pos) == Found(name, e, pos + |Record(inode, name, e)|)
    ensures IsAligned(|Record(inode, name, e)|)
  {
    hide IsUtf8, Fields, RecordOf, ReadEntry, Holds, IsAligned;
    EntryFieldsFit(inode, name, e);
    RecordShape(EntryFields(inode, name, e), name, e.data);
    AnyReadsBack(data, pos, EntryFields(inode, name, e), name, e.data);
  }

  /** At a trailer the reader looks for another archive behind it. */
  lemma {:induction false} TrailerReadsBack(data: string, pos: nat, fs: seq<nat>)
    requires AreFields(fs, TRAILER, "") && IsAligned(pos) && Holds(data, pos, RecordOf(fs, TRAILER, ""))
    ensures pos + |RecordOf(fs, TRAILER, "")| <= |data| && pos < |data| && IsAligned(|RecordOf(fs, TRAILER, "")|)
    ensures ReadEntry(data, pos) == match FindMagic(data, pos + |RecordOf(fs, TRAILER, "")|)
                                    case Some(next) => Skipped(next)
                                    case None => Done
  {
    hide IsUtf8, Fields, RecordOf, ReadEntry, Align4, Holds, IsAligned, FindMagic, Header;
    RecordShape(fs, TRAILER, "");
    AsciiIsUtf8(TRAILER);
    ReadEntryBody(data, pos, fs, TRAILER, "");
    HoldsSlice(data, pos, RecordOf(fs, TRAILER, ""));
    AlignShift(pos, HEADER_SIZE + 11);
    AlignOfZero();
  }

  lemma AlignOfZero()
    ensures Align4(0) == 0
  {
  }

  /** What follows a trailer: the next archive, or the end. */
  function LoadBehind(data: string, pos: nat, entries: Archive): Result<Archive, Error>
    requires pos <= |data|
  {
    match FindMagic(data, pos)
    case Some(next) => LoadFrom(data, next, entries)
    case None => Ok(entries)
  }

  lemma {:induction false} LoadAtTrailer(data: string, pos: nat, fs: seq<nat>, before: Archive)
    requires AreFields(fs, TRAILER, "") && IsAligned(pos) && Holds(data, pos, RecordOf(fs, TRAILER, ""))
    ensures IsAligned(|RecordOf(fs, TRAILER, "")|) && pos + |RecordOf(fs, TRAILER, "")| <= |data|
    ensures LoadFrom(data, pos, before) == LoadBehind(data, pos + |RecordOf(fs, TRAILER, "")|, before)
  {
    hide RecordOf, ReadEntry, FindMagic;
    TrailerReadsBack(data, pos, fs);
  }

  /** The archive restricted to some names, on top of what was loaded before. */
  function Added(before: Archive, names: seq<Name>, c: Archive): Archive
    requires forall n | n in names :: n in c
    decreases |names|
  {
    if names == [] then before else Added(before[names[0] := c[names[0]]], names[1..], c)
  }

  lemma {:induction false} AddedContents(before: Archive, names: seq<Name>, c: Archive)
    requires forall n | n in names :: n in c
    ensures Added(before, names, c) == before + (map n | n in names :: c[n])
    decreases |names|
  {
    if names != [] {
      var n := names[0];
      AddedContents(before[n := c[n]], names[1..], c);
      assert forall k :: k in names <==> k == n || k in names[1..];
    }
  }

  lemma {:induction false} RecordsReadBack(data: string, pos: nat, names: seq<Name>, c: Archive, inode: nat,
                                           before: Archive)
    requires (forall n | n in names :: n in c) && IsStorable(c)
    requires inode + |names| < U32 && IsAligned(pos) && Holds(data, pos, Records(names, c, inode))
    ensures IsAligned(|Records(names, c, inode)|)
    ensures LoadFrom(data, pos, before) == LoadFrom(data, pos + |Records(names, c, inode)|, Added(before, names, c))
    decreases |names|
  {
    hide Record, ReadEntry, IsLoadableName, Is32BitEntry, Holds, IsAligned;
    if names != [] {
      var n := names[0];
      var r := Record(inode, n, c[n]);
      HoldsPart(data, pos, r, Records(names[1..], c, inode + 1));
      RecordReadsBack(data, pos, inode, n, c[n]);
      AlignedSum(pos, |r|);
      RecordsReadBack(data, pos + |r|, names[1..], c, inode + 1, before[n := c[n]]);
      AlignedSum(|r|, |Records(names[1..], c, inode + 1)|);
    } else {
      AlignedZero();
    }
  }

  /** One whole archive inside the data: it is added, and reading goes on behind it. */
  lemma {:induction false} DumpReadsBack(data: string, pos: nat, names: seq<Name>, c: Archive, before: Archive)
    requires (forall n | n in names :: n in c) && IsStorable(c)
    requires FIRST_INODE + |names| < U32 && IsAligned(pos) && Holds(data, pos, Dumped(names, c))
    ensures IsAligned(|Dumped(names, c)|)
    ensures LoadFrom(data, pos, before) == LoadBehind(data, pos + |Dumped(names, c)|, Added(before, names, c))
  {
    hide RecordOf, Records, LoadFrom, Added, IsStorable, LoadBehind, Holds, IsAligned;
    var rs := Records(names, c, FIRST_INODE);
    var t := Record(FIRST_INODE + |names|, TRAILER, TrailerEntry);
    HoldsPart(data, pos, rs, t);
    RecordsReadBack(data, pos, names, c, FIRST_INODE, before);
    AlignedSum(pos, |rs|);
    EntryFieldsFit(FIRST_INODE + |names|, TRAILER, TrailerEntry);
    LoadAtTrailer(data, pos + |rs|, EntryFields(FIRST_INODE + |names|, TRAILER, TrailerEntry), Added(before, names, c));
    AlignedSum(|rs|, |t|);
  }

  /** A listing of the names of an archive. */
  ghost predicate Lists(names: seq<Name>, c: Archive) {
    forall n :: n in names <==> n in c
  }

  lemma {:induction false} EndOfData(data: string)
    ensures FindMagic(data, |data|) == None
  {
  }

  /** Loading a dump gives back the archive exactly when it holds no reserved name, no name with
      a NUL or bad UTF-8, and no value beyond 32 bits. */
  lemma LoadAfterDump(names: seq<Name>, c: Archive)
    requires Lists(names, c) && FIRST_INODE + |names| < U32
    ensures Load(Dumped(names, c)) == Ok(c) <==> IsStorable(c)
  {
    hide Dumped, LoadFrom, IsUtf8, FindMagic;
    var data := Dumped(names, c);
    if IsStorable(c) {
      assert Holds(data, 0, data) by { assert data[0..|data|] == data; }
      DumpReadsBack(data, 0, names, c, map[]);
      EndOfData(data);
      AddedContents(map[], names, c);
      assert map[] + (map n | n in names :: c[n]) == c;
    }
    LoadedIsStorable(data, 0, map[]);
  }

  lemma RecordStartsWithMagic(inode: nat, name: Name, e: Entry)
    ensures |Record(inode, name, e)| >= 6 && Record(inode, name, e)[..6] == MAGIC
  {
    hide Fields;
  }

  lemma DumpStartsWithMagic(names: seq<Name>, c: Archive)
    requires forall n | n in names :: n in c
    ensures |Dumped(names, c)| >= 6 && Dumped(names, c)[..6] == MAGIC
  {
    hide Record;
    if names != [] {
      RecordStartsWithMagic(FIRST_INODE, names[0], c[names[0]]);
    } else {
      RecordStartsWithMagic(FIRST_INODE + |names|, TRAILER, TrailerEntry);
    }
  }

  lemma {:induction false} MagicBehindZeros(data: string, pos: nat, n: nat, names: seq<Name>, c: Archive)
    requires forall n | n in names :: n in c
    requires Holds(data, pos, Repeat('\0', n)) && Holds(data, pos + n, Dumped(names, c))
    ensures FindMagic(data, pos) == Some(pos + n)
  {
    hide Dumped, FindMagic;
    DumpStartsWithMagic(names, c);
    assert IsMagicAt(data, pos + n) by {
      assert data[pos + n..pos + n + |Dumped(names, c)|][..6] == MAGIC;
    }
    forall i | pos <= i < pos + n ensures !IsMagicAt(data, i) {
      assert data[pos..pos + n][i - pos] == Repeat('\0', n)[i - pos];
      if i + 6 <= |data| {
        assert data[i..i + 6][0] == '\0';
      }
    }
    var r := FindMagic(data, pos);
  }

  /** Archives may be concatenated with zeros between them; later entries win. */
  lemma LoadConcatenated(xs: seq<Name>, a: Archive, zeros: nat, ys: seq<Name>, b: Archive)
    requires Lists(xs, a) && IsStorable(a) && FIRST_INODE + |xs| < U32
    requires Lists(ys, b) && IsStorable(b) && FIRST_INODE + |ys| < U32
    requires IsAligned(zeros)
    ensures Load(Dumped(xs, a) + Repeat('\0', zeros) + Dumped(ys, b)) == Ok(a + b)
  {
    hide Dumped, IsStorable, LoadFrom, FindMagic;
    var da, db := Dumped(xs, a), Dumped(ys, b);
    var data := da + Repeat('\0', zeros) + db;
    assert Holds(data, 0, da) && Holds(data, |da|, Repeat('\0', zeros)) && Holds(data, |da| + zeros, db);
    DumpReadsBack(data, 0, xs, a, map[]);
    MagicBehindZeros(data, |da|, zeros, ys, b);
    DumpReadsBack(data, |da| + zeros, ys, b, Added(map[], xs, a));
    EndOfData(data);
    AddedContents(map[], xs, a);
    assert (map n | n in xs :: a[n]) == a && (map n | n in ys :: b[n]) == b;
    assert map[] + a == a;
    AddedContents(a, ys, b);
  }
}
