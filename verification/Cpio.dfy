/**
  The ramdisk archive editor (native/src/boot/cpio.rs): loading, dumping, removing, and the pair of
  backup and restore.
 */
module Cpio {
  import opened Wrappers
  import opened NameOrder
  import opened Text
  import opened CpioFormat
  import CpioStream

  const BACKUP: Name := ".backup"
  const BACKUP_DIR: string := ".backup/"
  const RMLIST: Name := ".backup/.rmlist"
  const MAGISK: Name := ".backup/.magisk"
  const XZ: string := ".xz"

  /** An XZ coder; encoding may fail, decoding undoes encoding. */
  datatype Coder = Coder(encode: string -> Option<string>, decode: string -> Option<string>) {
    ghost predicate IsInvertible() {
      forall d :: encode(d).Some? ==> decode(encode(d).value) == Some(d)
    }
  }

  predicate IsRegular(e: Entry) { e.mode / 0x1000 % 16 == 8 }

  /** CpioEntry::compress and decompress: Some(the new entry) when they succeed. */
  function Compress(e: Entry, xz: Coder): Option<Entry> {
    if IsRegular(e) && xz.encode(e.data).Some? then Some(e.(data := xz.encode(e.data).value)) else None
  }

  function Decompress(e: Entry, xz: Coder): Option<Entry> {
    if IsRegular(e) && xz.decode(e.data).Some? then Some(e.(data := xz.decode(e.data).value)) else None
  }

  // ---- rm ----

  function Removed(c: Archive, path: string, recursive: bool): Archive {
    var p := Norm(path);
    map n | n in c && n != p && !(recursive && StartsWith(n, p + "/")) :: c[n]
  }

  // ---- backup ----

  /** An original entry has to be saved when it is missing or has other data. */
  predicate IsSaved(n: Name, o: Archive, c: Archive) {
    n in o && (n !in c || c[n].data != o[n].data)
  }

  predicate IsNew(n: Name, o: Archive, c: Archive) { n in c && n !in o }

  ghost function SavedNames(names: seq<Name>, o: Archive, c: Archive): seq<Name> {
    if names == [] then [] else (if IsSaved(names[0], o, c) then [names[0]] else []) + SavedNames(names[1..], o, c)
  }

  ghost function NewNames(names: seq<Name>, o: Archive, c: Archive): seq<Name> {
    if names == [] then [] else (if IsNew(names[0], o, c) then [names[0]] else []) + NewNames(names[1..], o, c)
  }

  /** The name and entry under which an original entry is saved. */
  function SavedAs(n: Name, e: Entry, skipCompress: bool, xz: Coder): (Name, Entry) {
    var z := if skipCompress then None else Compress(e, xz);
    match z
    case Some(e') => (BACKUP_DIR + n + XZ, e')
    case None => (BACKUP_DIR + n, e)
  }

  const BackupDirEntry := Entry(0x4000, 0, 0, 0, 0, "")
  function RmListEntry(list: string): Entry { Entry(0x8000, 0, 0, 0, 0, list) }

  ghost function Saved(names: seq<Name>, o: Archive, skipCompress: bool, xz: Coder): Archive
    requires forall n | n in names :: n in o
  {
    if names == [] then map[BACKUP := BackupDirEntry]
    else
      var n := names[|names| - 1];
      var s := SavedAs(n, o[n], skipCompress, xz);
      Saved(names[..|names| - 1], o, skipCompress, xz)[s.0 := s.1]
  }

  ghost function RmList(names: seq<Name>): string {
    if names == [] then "" else RmList(names[..|names| - 1]) + names[|names| - 1] + "\0"
  }

  // ---- restore ----

  lemma XzNameLength(n: Name)
    requires StartsWith(n, BACKUP_DIR) && EndsWith(n, XZ)
    ensures |n| >= 11
  {
    var i := |n| - 3;
    assert n[i..][0] == n[i] && n[i..][1] == n[i + 1] && n[i..][2] == n[i + 2];
    assert n[7] == BACKUP_DIR[7];
  }

  /** What a file in the backup directory is restored as. */
  function RestoredAs(n: Name, e: Entry, xz: Coder): (Name, Entry)
    requires StartsWith(n, BACKUP_DIR)
  {
    var z := if EndsWith(n, XZ) then Decompress(e, xz) else None;
    match z
    case Some(e') => XzNameLength(n); (n[8..|n| - 3], e')
    case None => (n[8..], e)
  }

  function RestoredList(c: Archive): string {
    if RMLIST in c && IsUtf8(c[RMLIST].data) then c[RMLIST].data else ""
  }

  /** The saved files of a backup directory, taken in order. */
  ghost function Unpacked(files: seq<Name>, c: Archive, xz: Coder): Archive
    requires forall n | n in files :: n in c && StartsWith(n, BACKUP_DIR)
  {
    if files == [] then map[]
    else
      var n := files[|files| - 1];
      var before := Unpacked(files[..|files| - 1], c, xz);
      if n == RMLIST || n == MAGISK then before
      else
        var r := RestoredAs(n, c[n], xz);
        before[r.0 := r.1]
  }

  lemma BackupFilesAre(c: Archive)
    ensures forall n :: n in BackupFiles(c) <==> n in c && StartsWith(n, BACKUP_DIR)
  {
  }

  lemma NoListIsEmpty(c: Archive)
    ensures RMLIST !in c ==> RestoredList(c) == ""
  {
  }

  lemma RmListIsBackupFile(c: Archive)
    ensures RMLIST in c <==> RMLIST in BackupFiles(c)
  {
    assert StartsWith(RMLIST, BACKUP_DIR);
  }

  /** What the list of removals has grown to. */
  ghost function ListIn(files: seq<Name>, c: Archive): string
    requires forall n | n in files :: n in c
  {
    if files == [] then ""
    else
      var n := files[|files| - 1];
      var before := ListIn(files[..|files| - 1], c);
      if n == RMLIST && IsUtf8(c[n].data) then before + c[n].data else before
  }

  lemma {:induction false} ListInIsList(files: seq<Name>, c: Archive)
    requires (forall n | n in files :: n in c) && IsAscending(files)
    ensures ListIn(files, c) == if RMLIST in files then RestoredList(c) else ""
  {
    hide Less, IsUtf8;
    if files != [] {
      var n, init := files[|files| - 1], files[..|files| - 1];
      ListInIsList(init, c);
      assert files == init + [n];
      if n in init {
        LessIsStrict(n);
      }
      assert "" + c[n].data == c[n].data;
    }
  }

  lemma {:induction false} UnpackedNone(c: Archive, xz: Coder)
    ensures Unpacked([], c, xz) == map[] && ListIn([], c) == ""
  {
  }

  lemma {:induction false} UnpackedMore(files: seq<Name>, c: Archive, xz: Coder, n: Name)
    requires n in c && StartsWith(n, BACKUP_DIR) && forall k | k in files :: k in c && StartsWith(k, BACKUP_DIR)
    ensures forall k | k in files + [n] :: k in c && StartsWith(k, BACKUP_DIR)
    ensures Unpacked(files + [n], c, xz)
         == if n == RMLIST || n == MAGISK then Unpacked(files, c, xz)
            else Unpacked(files, c, xz)[RestoredAs(n, c[n], xz).0 := RestoredAs(n, c[n], xz).1]
    ensures ListIn(files + [n], c)
         == if n == RMLIST && IsUtf8(c[n].data) then ListIn(files, c) + c[n].data else ListIn(files, c)
  {
    hide RestoredAs, IsUtf8;
    assert (files + [n])[..|files|] == files;
  }

  ghost function BackupFiles(c: Archive): set<Name> {
    set n | n in c && StartsWith(n, BACKUP_DIR)
  }

  predicate IsListed(n: Name, pieces: seq<string>) {
    exists i | 0 <= i < |pieces| :: pieces[i] != "" && Norm(pieces[i]) == n
  }

  function Cleaned(c: Archive, pieces: seq<string>): Archive {
    map n | n in c && !IsListed(n, pieces) :: c[n]
  }

  lemma CleanedMore(c: Archive, pieces: seq<string>, i: nat)
    requires i < |pieces|
    ensures Cleaned(c, pieces[..i + 1])
         == if pieces[i] == "" then Cleaned(c, pieces[..i]) else Removed(Cleaned(c, pieces[..i]), pieces[i], false)
  {
    hide Norm;
    forall n
      ensures IsListed(n, pieces[..i + 1]) <==> IsListed(n, pieces[..i]) || (pieces[i] != "" && Norm(pieces[i]) == n)
    {
      ListedMore(n, pieces, i);
    }
  }

  lemma ListedMore(n: Name, pieces: seq<string>, i: nat)
    requires i < |pieces|
    ensures IsListed(n, pieces[..i + 1]) <==> IsListed(n, pieces[..i]) || (pieces[i] != "" && Norm(pieces[i]) == n)
  {
    hide Norm;
    var a, b := pieces[..i], pieces[..i + 1];
    assert b == a + [pieces[i]];
    if IsListed(n, a) {
      var j :| 0 <= j < |a| && a[j] != "" && Norm(a[j]) == n;
      assert b[j] == a[j];
    }
    if pieces[i] != "" && Norm(pieces[i]) == n {
      assert b[i] == pieces[i];
    }
  }

  // ---- what backup and restore do to an archive ----

  ghost function BackedUp(c: Archive, origin: Archive, skipCompress: bool, xz: Coder): Archive {
    WithBackup(Removed(c, BACKUP, true), Removed(origin, BACKUP, true), skipCompress, xz)
  }

  /** Both archives without earlier backups; s is the one that gets the backup of o. */
  ghost function WithBackup(s: Archive, o: Archive, skipCompress: bool, xz: Coder): Archive {
    SavedAreOriginal(Sorted(o.Keys), o, s);
    var saved := Saved(SavedNames(Sorted(o.Keys), o, s), o, skipCompress, xz);
    var list := RmList(NewNames(Sorted(s.Keys), o, s));
    s + (if list == "" then saved else saved[RMLIST := RmListEntry(list)])
  }

  ghost function Restored(c: Archive, xz: Coder): Archive {
    SortedElements(BackupFiles(c));
    var list := RestoredList(c);
    var backups := Unpacked(Sorted(BackupFiles(c)), c, xz);
    if list == "" && backups == map[] then map[]
    else Cleaned(Removed(c - BackupFiles(c), BACKUP, false), Split(list, '\0')) + backups
  }

  lemma {:induction false} SavedAreOriginal(names: seq<Name>, o: Archive, c: Archive)
    ensures forall n :: n in SavedNames(names, o, c) <==> n in names && IsSaved(n, o, c)
  {
    if names != [] {
      SavedAreOriginal(names[1..], o, c);
      assert forall n :: n in names <==> n == names[0] || n in names[1..];
    }
  }

  // ---- the merge of two sorted listings ----

  /** Where the two-iterator loop of backup stands: `ls` and `rs` are what the iterators still
      hold, everything before has been told apart. */
  ghost predicate MergeInv(o: Archive, c: Archive, ls: set<Name>, rs: set<Name>, saved: seq<Name>, added: seq<Name>) {
    && ls <= o.Keys && rs <= c.Keys
    && (forall n, x | n in c.Keys - rs && x in ls :: Less(n, x))
    && (forall n, x | n in o.Keys - ls && x in rs :: Less(n, x))
    && saved + SavedNames(Sorted(ls), o, c) == SavedNames(Sorted(o.Keys), o, c)
    && added + NewNames(Sorted(rs), o, c) == NewNames(Sorted(c.Keys), o, c)
  }

  lemma {:induction false} MergeLeft(o: Archive, c: Archive, ls: set<Name>, rs: set<Name>, saved: seq<Name>,
                                     added: seq<Name>, n: Name)
    requires MergeInv(o, c, ls, rs, saved, added) && IsLeast(n, ls)
    requires forall x | x in rs :: Less(n, x)
    ensures IsSaved(n, o, c) && n in o && MergeInv(o, c, ls - {n}, rs, saved + [n], added)
  {
    hide Less, NewNames, SavedNames;
    LessIsStrict(n);
    assert n !in c;
    SavedNext(o, c, ls, n);
    assert saved + ([n] + SavedNames(Sorted(ls - {n}), o, c)) == (saved + [n]) + SavedNames(Sorted(ls - {n}), o, c);
  }

  lemma {:induction false} SavedNext(o: Archive, c: Archive, ls: set<Name>, n: Name)
    requires IsLeast(n, ls)
    ensures SavedNames(Sorted(ls), o, c)
         == (if IsSaved(n, o, c) then [n] else []) + SavedNames(Sorted(ls - {n}), o, c)
  {
    hide IsLeast, Sorted;
    SortedNext(ls, n);
    assert ([n] + Sorted(ls - {n}))[1..] == Sorted(ls - {n});
  }

  lemma {:induction false} NewNext(o: Archive, c: Archive, rs: set<Name>, n: Name)
    requires IsLeast(n, rs)
    ensures NewNames(Sorted(rs), o, c)
         == (if IsNew(n, o, c) then [n] else []) + NewNames(Sorted(rs - {n}), o, c)
  {
    hide IsLeast, Sorted;
    SortedNext(rs, n);
    assert ([n] + Sorted(rs - {n}))[1..] == Sorted(rs - {n});
  }

  lemma {:induction false} MergeRight(o: Archive, c: Archive, ls: set<Name>, rs: set<Name>, saved: seq<Name>,
                                      added: seq<Name>, n: Name)
    requires MergeInv(o, c, ls, rs, saved, added) && IsLeast(n, rs)
    requires forall x | x in ls :: Less(n, x)
    ensures IsNew(n, o, c) && MergeInv(o, c, ls, rs - {n}, saved, added + [n])
  {
    hide Less, NewNames, SavedNames;
    LessIsStrict(n);
    assert n !in o;
    NewNext(o, c, rs, n);
    assert added + ([n] + NewNames(Sorted(rs - {n}), o, c)) == (added + [n]) + NewNames(Sorted(rs - {n}), o, c);
  }

  lemma MergeBoth(o: Archive, c: Archive, ls: set<Name>, rs: set<Name>, saved: seq<Name>, added: seq<Name>, n: Name)
    requires MergeInv(o, c, ls, rs, saved, added) && IsLeast(n, ls) && IsLeast(n, rs)
    ensures n in o && n in c
    ensures MergeInv(o, c, ls - {n}, rs - {n}, if c[n].data != o[n].data then saved + [n] else saved, added)
  {
    hide Less, NewNames, SavedNames;
    SavedNext(o, c, ls, n);
    NewNext(o, c, rs, n);
    assert saved + ([n] + SavedNames(Sorted(ls - {n}), o, c)) == (saved + [n]) + SavedNames(Sorted(ls - {n}), o, c);
    assert [] + SavedNames(Sorted(ls - {n}), o, c) == SavedNames(Sorted(ls - {n}), o, c);
    assert [] + NewNames(Sorted(rs - {n}), o, c) == NewNames(Sorted(rs - {n}), o, c);
  }

  lemma {:induction false} LessThanLeast(n: Name, m: Name, s: set<Name>)
    requires IsLeast(m, s) && Less(n, m)
    ensures forall x | x in s :: Less(n, x)
  {
    forall x | x in s && x != m ensures Less(n, x) {
      LessIsTransitive(n, m, x);
    }
  }

  /** A peeked iterator: the entry held back comes before the rest. */
  function Held(h: Option<Name>): set<Name> { if h.Some? then {h.value} else {} }

  predicate IsPeeked(h: Option<Name>, rest: set<Name>) {
    h.Some? ==> h.value !in rest && IsLeast(h.value, rest + {h.value})
  }

  /** Take the next name, unless one is still held back. */
  method Peek(h: Option<Name>, rest: set<Name>) returns (h': Option<Name>, rest': set<Name>)
    requires IsPeeked(h, rest)
    ensures rest' + Held(h') == rest + Held(h) && IsPeeked(h', rest')
    ensures h'.None? ==> rest' == {}
    ensures h'.Some? ==> IsLeast(h'.value, rest + Held(h)) && rest' == rest + Held(h) - {h'.value}
  {
    h', rest' := h, rest;
    if h.None? && rest != {} {
      var n := Next(rest);
      h', rest' := Some(n), rest - {n};
      assert rest - {n} + {n} == rest;
    }
  }

  datatype Turn = Left | Right | Both

  function Compare(lhs: Option<Name>, rhs: Option<Name>): Turn
    requires lhs.Some? || rhs.Some?
  {
    if rhs.None? then Left
    else if lhs.None? then Right
    else if Less(lhs.value, rhs.value) then Left
    else if Less(rhs.value, lhs.value) then Right
    else Both
  }

  lemma MergeTurn(o: Archive, c: Archive, ls: set<Name>, rs: set<Name>, saved: seq<Name>, added: seq<Name>,
                  lhs: Option<Name>, rhs: Option<Name>)
    requires MergeInv(o, c, ls, rs, saved, added) && (lhs.Some? || rhs.Some?)
    requires if lhs.Some? then IsLeast(lhs.value, ls) else ls == {}
    requires if rhs.Some? then IsLeast(rhs.value, rs) else rs == {}
    ensures Compare(lhs, rhs).Left? ==>
              lhs.Some? && lhs.value in o && MergeInv(o, c, ls - {lhs.value}, rs, saved + [lhs.value], added)
    ensures Compare(lhs, rhs).Right? ==>
              rhs.Some? && MergeInv(o, c, ls, rs - {rhs.value}, saved, added + [rhs.value])
    ensures Compare(lhs, rhs).Both? ==>
              && lhs.Some? && lhs == rhs && lhs.value in o && lhs.value in c
              && MergeInv(o, c, ls - {lhs.value}, rs - {lhs.value},
                          if c[lhs.value].data != o[lhs.value].data then saved + [lhs.value] else saved, added)
  {
    hide Less, MergeInv, IsLeast;
    match Compare(lhs, rhs)
    case Left =>
      if rhs.Some? {
        LessThanLeast(lhs.value, rhs.value, rs);
      }
      MergeLeft(o, c, ls, rs, saved, added, lhs.value);
    case Right =>
      if lhs.Some? {
        LessThanLeast(rhs.value, lhs.value, ls);
      }
      MergeRight(o, c, ls, rs, saved, added, rhs.value);
    case Both =>
      LessIsTotal(lhs.value, rhs.value);
      MergeBoth(o, c, ls, rs, saved, added, lhs.value);
  }

  lemma NothingHeld(lefts: set<Name>, rights: set<Name>)
    ensures lefts + Held(None) == lefts && rights + Held(None) == rights
    ensures IsPeeked(None, lefts) && IsPeeked(None, rights)
  {
  }

  lemma {:induction false} MergeStart(o: Archive, c: Archive, skipCompress: bool, xz: Coder)
    ensures MergeInv(o, c, o.Keys + Held(None), c.Keys + Held(None), [], [])
    ensures IsPeeked(None, o.Keys) && IsPeeked(None, c.Keys)
    ensures Saved([], o, skipCompress, xz) == map[BACKUP := BackupDirEntry] && RmList([]) == ""
  {
    assert o.Keys + Held(None) == o.Keys && c.Keys + Held(None) == c.Keys;
  }

  lemma {:induction false} MergeDone(o: Archive, c: Archive, saved: seq<Name>, added: seq<Name>)
    requires MergeInv(o, c, {}, {}, saved, added)
    ensures saved == SavedNames(Sorted(o.Keys), o, c) && added == NewNames(Sorted(c.Keys), o, c)
  {
  }

  lemma {:induction false} SavedAppend(saved: seq<Name>, o: Archive, skipCompress: bool, xz: Coder, n: Name)
    requires n in o && forall k | k in saved :: k in o
    ensures forall k | k in saved + [n] :: k in o
    ensures var s := SavedAs(n, o[n], skipCompress, xz);
            Saved(saved + [n], o, skipCompress, xz) == Saved(saved, o, skipCompress, xz)[s.0 := s.1]
  {
    assert (saved + [n])[..|saved|] == saved;
  }

  lemma {:induction false} RmListAppend(added: seq<Name>, n: Name)
    ensures RmList(added + [n]) == RmList(added) + n + "\0"
  {
    assert (added + [n])[..|added|] == added;
  }

  // ---- the editor ----

  class CpioFile {
    var entries: Archive

    constructor ()
      ensures entries == map[]
    {
      entries := map[];
    }

    /** The last entry of each name, from any well-formed records. */
    static method LoadFromData(data: string) returns (r: Result<Archive, Error>)
      ensures r == Load(data)
      ensures CpioStream.IsOfAny(r, data)
    {
      CpioStream.LoadAny(data);
      hide CpioStream.IsOfAny;
      hide ReadBody, ReadName, HeaderField, Align4;
      var entries: Archive := map[];
      var pos := 0;
      while pos < |data|
        invariant LoadFrom(data, pos, entries) == Load(data)
        decreases |data| - pos
      {
        if pos + HEADER_SIZE > |data| {
          return Err(OutOfBounds);
        }
        var hdr := data[pos..pos + HEADER_SIZE];
        if hdr[..6] != MAGIC {
          return Err(BadMagic);
        }
        var nameSize := HeaderField(hdr, 11);
        if nameSize.None? {
          return Err(BadHeader);
        }
        var name := ReadName(data, pos + HEADER_SIZE, nameSize.value);
        if name.Err? {
          return Err(name.error);
        }
        match ReadBody(data, hdr, name.value, Align4(pos + HEADER_SIZE + nameSize.value))
        case Done => return Ok(entries);
        case Failed(e) => return Err(e);
        case Skipped(next) => pos := next;
        case Found(n, e, next) =>
          entries := entries[n := e];
          pos := next;
      }
      r := Ok(entries);
    }

    method Dump() returns (file: string)
      ensures (SortedElements(entries.Keys); file == Dumped(Sorted(entries.Keys), entries))
    {
      hide Record, Records, IsAligned, IsLeast;
      SortedElements(entries.Keys);
      AlignedZero();
      NoRecords(entries);
      file := "";
      var rest := entries.Keys;
      var inode := FIRST_INODE;
      ghost var done: seq<Name> := [];
      while rest != {}
        invariant rest <= entries.Keys && done + Sorted(rest) == Sorted(entries.Keys)
        invariant (forall n | n in done :: n in entries) && inode == FIRST_INODE + |done|
        invariant file == Records(done, entries, FIRST_INODE) && IsAligned(|file|)
        decreases rest
      {
        var n := Next(rest);
        SortedNext(rest, n);
        file := WriteRecord(file, inode, n, entries[n]);
        RecordsAppend(done, entries, FIRST_INODE, n);
        done := done + [n];
        inode := inode + 1;
        rest := rest - {n};
      }
      assert done == Sorted(entries.Keys);
      file := WriteRecord(file, inode, TRAILER, TrailerEntry);
    }

    method Rm(path: string, recursive: bool)
      modifies this
      ensures entries == Removed(old(entries), path, recursive)
    {
      entries := Remove(entries, path, recursive);
    }

    static method Remove(c: Archive, path: string, recursive: bool) returns (r: Archive)
      ensures r == Removed(c, path, recursive)
    {
      hide Norm;
      var p := Norm(path);
      r := c - {p};
      if recursive {
        r := map n | n in r && !StartsWith(n, p + "/") :: r[n];
      }
    }

    method Backup(origin: Archive, skipCompress: bool, xz: Coder)
      modifies this
      ensures entries == BackedUp(old(entries), origin, skipCompress, xz)
    {
      hide Norm;
      var o := Remove(origin, BACKUP, true);
      Rm(BACKUP, true);
      SavedAreOriginal(Sorted(o.Keys), o, entries);
      var backups, rmList := Merge(o, entries, skipCompress, xz);
      if rmList != "" {
        backups := backups[RMLIST := RmListEntry(rmList)];
      }
      entries := entries + backups;
    }

    /** The two-iterator merge: an entry that is put back is compared again in the next round. */
    static method Merge(o: Archive, c: Archive, skipCompress: bool, xz: Coder)
      returns (backups: Archive, rmList: string)
      ensures (SavedAreOriginal(Sorted(o.Keys), o, c);
               backups == Saved(SavedNames(Sorted(o.Keys), o, c), o, skipCompress, xz))
      ensures rmList == RmList(NewNames(Sorted(c.Keys), o, c))
    {
      hide MergeInv, IsLeast, Less, IsPeeked, SavedAs, Saved, RmList, SavedNames, NewNames, Compare;
      ghost var saved: seq<Name>, added: seq<Name> := [], [];
      backups, rmList := map[BACKUP := BackupDirEntry], "";
      var lefts, rights := o.Keys, c.Keys;
      var lhs: Option<Name>, rhs: Option<Name> := None, None;
      MergeStart(o, c, skipCompress, xz);
      while true
        invariant MergeInv(o, c, lefts + Held(lhs), rights + Held(rhs), saved, added)
        invariant IsPeeked(lhs, lefts) && IsPeeked(rhs, rights)
        invariant (forall n | n in saved :: n in o) && backups == Saved(saved, o, skipCompress, xz)
        invariant rmList == RmList(added)
        decreases lefts + Held(lhs), rights + Held(rhs)
      {
        ghost var ls, rs := lefts + Held(lhs), rights + Held(rhs);
        lhs, lefts := Peek(lhs, lefts);
        rhs, rights := Peek(rhs, rights);
        if lhs.None? && rhs.None? {
          break;
        }
        MergeTurn(o, c, ls, rs, saved, added, lhs, rhs);
        var turn := Compare(lhs, rhs);
        if turn.Left? || (turn.Both? && c[lhs.value].data != o[lhs.value].data) {
          var s := SavedAs(lhs.value, o[lhs.value], skipCompress, xz);
          SavedAppend(saved, o, skipCompress, xz, lhs.value);
          backups := backups[s.0 := s.1];
          saved := saved + [lhs.value];
        }
        if turn.Right? {
          RmListAppend(added, rhs.value);
          rmList := rmList + rhs.value + "\0";
          added := added + [rhs.value];
        }
        if !turn.Right? {
          lhs := None;
        }
        if !turn.Left? {
          rhs := None;
        }
        NothingHeld(lefts, rights);
      }
      assert lefts + Held(lhs) == {} && rights + Held(rhs) == {};
      MergeDone(o, c, saved, added);
    }

    method Restore(xz: Coder)
      modifies this
      ensures entries == Restored(old(entries), xz)
    {
      hide Norm, Split, Unpacked, IsUtf8, IsListed;
      var c := entries;
      var files := set n | n in entries && StartsWith(n, BACKUP_DIR);
      var backups, rmList := Unpack(c, files, xz);
      entries := entries - files;
      Rm(BACKUP, false);
      if rmList == "" && backups == map[] {
        entries := map[];
        return;
      }
      Clean(Split(rmList, '\0'));
      entries := entries + backups;
    }

    static method UnpackOne(n: Name, e: Entry, xz: Coder, backups: Archive, rmList: string)
      returns (b: Archive, l: string)
      requires StartsWith(n, BACKUP_DIR)
      ensures l == if n == RMLIST && IsUtf8(e.data) then rmList + e.data else rmList
      ensures b == if n == RMLIST || n == MAGISK then backups
                   else backups[RestoredAs(n, e, xz).0 := RestoredAs(n, e, xz).1]
    {
      hide IsUtf8, RestoredAs;
      b, l := backups, rmList;
      if n == RMLIST {
        if IsUtf8(e.data) {
          l := l + e.data;
        }
      } else if n != MAGISK {
        var r := RestoredAs(n, e, xz);
        b := b[r.0 := r.1];
      }
    }

    /** extract_if over the backup directory */
    static method Unpack(c: Archive, files: set<Name>, xz: Coder) returns (backups: Archive, rmList: string)
      requires files == BackupFiles(c)
      ensures (SortedElements(files); backups == Unpacked(Sorted(files), c, xz))
      ensures rmList == RestoredList(c)
    {
      hide *;
      SortedElements(files);
      SortedIsAscending(files);
      BackupFilesAre(c);
      UnpackedNone(c, xz);
      backups, rmList := map[], "";
      var rest := files;
      ghost var done: seq<Name> := [];
      while rest != {}
        invariant rest <= files && done + Sorted(rest) == Sorted(files)
        invariant forall n | n in done :: n in c && StartsWith(n, BACKUP_DIR)
        invariant backups == Unpacked(done, c, xz) && rmList == ListIn(done, c)
        decreases rest
      {
        var n := Next(rest);
        assert n in rest by { LeastIsMember(n, rest); }
        SortedNext(rest, n);
        UnpackedMore(done, c, xz, n);
        assert (done + [n]) + Sorted(rest - {n}) == done + Sorted(rest);
        backups, rmList := UnpackOne(n, c[n], xz, backups, rmList);
        done := done + [n];
        rest := rest - {n};
      }
      assert done == Sorted(files) by { SortedNone(); }
      ListInIsList(done, c);
      RmListIsBackupFile(c);
      NoListIsEmpty(c);
    }

    method Clean(pieces: seq<string>)
      modifies this
      ensures entries == Cleaned(old(entries), pieces)
    {
      hide Norm;
      for i := 0 to |pieces|
        invariant entries == Cleaned(old(entries), pieces[..i])
      {
        if pieces[i] != "" {
          Rm(pieces[i], false);
        }
        CleanedMore(old(entries), pieces, i);
      }
      assert pieces[..|pieces|] == pieces;
    }

    /** One entry, padded by the position in the file. */
    static method WriteRecord(file: string, inode: nat, name: Name, e: Entry) returns (r: string)
      requires IsAligned(|file|)
      ensures r == file + Record(inode, name, e) && IsAligned(|r|)
    {
      r := file + Header(EntryFields(inode, name, e));
      r := r + name;
      r := r + "\0";
      ghost var head := Header(EntryFields(inode, name, e)) + name + "\0";
      AlignShift(|file|, |head|);
      r := r + Repeat('\0', Align4(|r|) - |r|);
      AlignedSum(|file|, Align4(|head|));
      AlignShift(|r|, |e.data|);
      AlignedSum(|r|, Align4(|e.data|));
      r := r + e.data;
      r := r + Repeat('\0', Align4(|r|) - |r|);
    }
  }

  lemma {:induction false} NoRecords(c: Archive)
    ensures Records([], c, FIRST_INODE) == ""
  {
  }

  lemma {:induction false} RecordsAppend(names: seq<Name>, c: Archive, inode: nat, n: Name)
    requires n in c && forall k | k in names :: k in c
    ensures forall k | k in names + [n] :: k in c
    ensures Records(names + [n], c, inode) == Records(names, c, inode) + Record(inode + |names|, n, c[n])
    decreases |names|
  {
    hide Record;
    if names == [] {
      assert names + [n] == [n];
    } else {
      assert (names + [n])[1..] == names[1..] + [n];
      RecordsAppend(names[1..], c, inode + 1, n);
    }
  }
}
