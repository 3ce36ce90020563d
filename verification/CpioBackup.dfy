/**
  Restoring a backup (native/src/boot/cpio.rs) brings back the original archive: exactly when, and
  what exactly comes back.
 */
module CpioBackup {
  import opened Wrappers
  import opened NameOrder
  import opened Text
  import opened CpioFormat
  import opened Cpio

  /** No entry belongs to a backup directory. */
  ghost predicate IsStripped(c: Archive) {
    forall n | n in c :: n != BACKUP && !StartsWith(n, BACKUP_DIR)
  }

  lemma BackupIsNormal()
    ensures Norm(BACKUP) == BACKUP && BACKUP + "/" == BACKUP_DIR
  {
    SplitWhole(BACKUP, '/');
    NonEmptyKeeps([BACKUP]);
  }

  lemma StrippedRemoval(c: Archive)
    ensures IsStripped(Removed(c, BACKUP, true))
  {
    hide Norm;
    BackupIsNormal();
  }

  // ---- one saved entry ----

  /** The entry is saved compressed, under a name with the suffix. */
  predicate IsPacked(e: Entry, skip: bool, xz: Coder) { !skip && Compress(e, xz).Some? }

  lemma SavedKeyShape(n: Name, e: Entry, skip: bool, xz: Coder)
    ensures var k := SavedAs(n, e, skip, xz).0;
            && StartsWith(k, BACKUP_DIR)
            && k == (if IsPacked(e, skip, xz) then BACKUP_DIR + n + XZ else BACKUP_DIR + n)
            && (k == RMLIST <==> !IsPacked(e, skip, xz) && n == ".rmlist")
            && (k == MAGISK <==> !IsPacked(e, skip, xz) && n == ".magisk")
  {
    var k := SavedAs(n, e, skip, xz).0;
    if IsPacked(e, skip, xz) {
      assert k[|k| - 1] == 'z';
    } else {
      assert k[8..] == n;
      assert RMLIST[8..] == ".rmlist" && MAGISK[8..] == ".magisk";
    }
  }

  lemma KeySuffix(n: Name)
    ensures EndsWith(BACKUP_DIR + n, XZ) <==> EndsWith(n, XZ)
  {
    var k := BACKUP_DIR + n;
    if |n| >= 3 {
      assert k[|k| - 3..] == n[|n| - 3..];
    }
    if EndsWith(k, XZ) {
      XzNameLength(k);
    }
  }

  /** Kept as it is, under a name that restore takes for a compressed file. */
  predicate IsMisread(n: Name, e: Entry, skip: bool, xz: Coder) {
    !IsPacked(e, skip, xz) && EndsWith(n, XZ) && Decompress(e, xz).Some?
  }

  /** Restoring what was saved gives back the name and the whole entry, unless it is misread. */
  lemma SaveThenRestore(n: Name, e: Entry, skip: bool, xz: Coder)
    requires xz.IsInvertible()
    ensures StartsWith(SavedAs(n, e, skip, xz).0, BACKUP_DIR)
    ensures var k := SavedAs(n, e, skip, xz);
            && (RestoredAs(k.0, k.1, xz) == (n, e) <==> !IsMisread(n, e, skip, xz))
            && (IsMisread(n, e, skip, xz) ==> n == RestoredAs(k.0, k.1, xz).0 + XZ)
  {
    SavedKeyShape(n, e, skip, xz);
    var k := SavedAs(n, e, skip, xz);
    if IsPacked(e, skip, xz) {
      assert k.0[|k.0| - 3..] == XZ;
      assert k.0[8..|k.0| - 3] == n;
    } else {
      KeySuffix(n);
      assert k.0[8..] == n;
      if EndsWith(n, XZ) {
        assert k.0[8..|k.0| - 3] == n[..|n| - 3];
        assert n == n[..|n| - 3] + n[|n| - 3..];
      }
    }
  }

  /** What has to hold of a saved entry for restore to bring it back: it is compressed, or else its name
      is none of the two that restore skips, it is not misread, and the same name is not taken by another
      entry that is compressed. */
  predicate IsSafe(n: Name, o: Archive, s: Archive, skip: bool, xz: Coder)
    requires n in o
  {
    IsPacked(o[n], skip, xz)
    || (&& n != ".rmlist" && n != ".magisk"
        && !(EndsWith(n, XZ) && (Decompress(o[n], xz).Some? || IsTaken(n[..|n| - 3], o, s, skip, xz))))
  }

  predicate IsTaken(m: Name, o: Archive, s: Archive, skip: bool, xz: Coder) {
    IsSaved(m, o, s) && IsPacked(o[m], skip, xz)
  }

  ghost predicate AllSafe(o: Archive, s: Archive, skip: bool, xz: Coder) {
    forall n | IsSaved(n, o, s) :: IsSafe(n, o, s, skip, xz)
  }

  /** Two saved entries have the same key only when a compressed one takes the name of an uncompressed one. */
  lemma SameKey(m: Name, n: Name, d: Entry, e: Entry, skip: bool, xz: Coder)
    requires SavedAs(m, d, skip, xz).0 == SavedAs(n, e, skip, xz).0 && m != n
    requires |m| <= |n|
    ensures IsPacked(d, skip, xz) && !IsPacked(e, skip, xz) && EndsWith(n, XZ) && n[..|n| - 3] == m
  {
    SavedKeyShape(m, d, skip, xz);
    SavedKeyShape(n, e, skip, xz);
    var k := SavedAs(m, d, skip, xz).0;
    assert (BACKUP_DIR + m)[8..] == m && (BACKUP_DIR + n)[8..] == n;
    assert (BACKUP_DIR + m + XZ)[8..8 + |m|] == m && (BACKUP_DIR + n + XZ)[8..8 + |n|] == n;
    assert (BACKUP_DIR + m + XZ)[8 + |m|..] == XZ;
    if IsPacked(d, skip, xz) && !IsPacked(e, skip, xz) {
      assert k[8..] == n;
    }
  }

  lemma SavedKeysDiffer(m: Name, n: Name, o: Archive, s: Archive, skip: bool, xz: Coder)
    requires AllSafe(o, s, skip, xz) && IsSaved(m, o, s) && IsSaved(n, o, s)
    requires SavedAs(m, o[m], skip, xz).0 == SavedAs(n, o[n], skip, xz).0
    ensures m == n
  {
    hide SavedAs, IsPacked;
    assert IsSafe(m, o, s, skip, xz) && IsSafe(n, o, s, skip, xz);
    if m != n {
      if |m| <= |n| {
        SameKey(m, n, o[m], o[n], skip, xz);
      } else {
        SameKey(n, m, o[n], o[m], skip, xz);
      }
    }
  }

  // ---- all saved entries ----

  /** Each entry of a backup directory is what one of the entries was saved as. */
  lemma {:induction false} SavedKeys(names: seq<Name>, o: Archive, skip: bool, xz: Coder)
    requires forall n | n in names :: n in o
    ensures forall k | k in Saved(names, o, skip, xz) ::
              k == BACKUP || exists n | n in names :: SavedAs(n, o[n], skip, xz) == (k, Saved(names, o, skip, xz)[k])
  {
    hide SavedAs;
    if names != [] {
      var init, last := names[..|names| - 1], names[|names| - 1];
      SavedKeys(init, o, skip, xz);
      var c := Saved(names, o, skip, xz);
      forall k | k in c && k != BACKUP
        ensures exists n | n in names :: SavedAs(n, o[n], skip, xz) == (k, c[k])
      {
        if k == SavedAs(last, o[last], skip, xz).0 {
          assert SavedAs(last, o[last], skip, xz) == (k, c[k]);
        } else {
          assert k in Saved(init, o, skip, xz);
          var n :| n in init && SavedAs(n, o[n], skip, xz) == (k, Saved(init, o, skip, xz)[k]);
          assert n in names;
        }
      }
    }
  }

  lemma {:induction false} SavedValue(names: seq<Name>, o: Archive, s: Archive, skip: bool, xz: Coder, n: Name)
    requires AllSafe(o, s, skip, xz) && (forall k | k in names :: IsSaved(k, o, s)) && n in names
    ensures var k := SavedAs(n, o[n], skip, xz);
            k.0 in Saved(names, o, skip, xz) && Saved(names, o, skip, xz)[k.0] == k.1
  {
    hide SavedAs, AllSafe;
    var init, last := names[..|names| - 1], names[|names| - 1];
    assert names == init + [last];
    assert last in names;
    if n in init {
      SavedValue(init, o, s, skip, xz, n);
      if SavedAs(last, o[last], skip, xz).0 == SavedAs(n, o[n], skip, xz).0 {
        SavedKeysDiffer(last, n, o, s, skip, xz);
      }
    }
  }

  lemma {:induction false} BackupEntryStays(names: seq<Name>, o: Archive, skip: bool, xz: Coder)
    requires forall n | n in names :: n in o
    ensures BACKUP in Saved(names, o, skip, xz) && Saved(names, o, skip, xz)[BACKUP] == Entry(0x4000, 0, 0, 0, 0, "")
  {
    if names != [] {
      SavedKeyShape(names[|names| - 1], o[names[|names| - 1]], skip, xz);
      BackupEntryStays(names[..|names| - 1], o, skip, xz);
    }
  }

  /** When every file of a backup directory restores to an entry of t, unpacking yields a part
      of t, and all of it that is mentioned. */
  lemma {:induction false} UnpackedWithin(files: seq<Name>, c: Archive, xz: Coder, t: Archive)
    requires forall k | k in files :: k in c && StartsWith(k, BACKUP_DIR)
    requires forall k | k in files && k != RMLIST && k != MAGISK ::
               var r := RestoredAs(k, c[k], xz); r.0 in t && t[r.0] == r.1
    ensures forall n | n in Unpacked(files, c, xz) :: n in t && Unpacked(files, c, xz)[n] == t[n]
    ensures forall k | k in files && k != RMLIST && k != MAGISK :: RestoredAs(k, c[k], xz).0 in Unpacked(files, c, xz)
  {
    hide RestoredAs;
    if files != [] {
      var init, last := files[..|files| - 1], files[|files| - 1];
      assert files == init + [last];
      UnpackedWithin(init, c, xz, t);
    }
  }

  // ---- the list of new entries ----

  /** Splitting the list at its NULs gives the pieces of the recorded names. */
  lemma {:induction false} RmListPieces(names: seq<Name>, rest: string, p: string)
    ensures p in Split(RmList(names) + rest, '\0')
            <==> p in Split(rest, '\0') || exists n | n in names :: p in Split(n, '\0')
  {
    hide Split;
    if names == [] {
      assert RmList(names) + rest == rest;
    } else {
      var init, last := names[..|names| - 1], names[|names| - 1];
      assert names == init + [last];
      assert RmList(names) + rest == RmList(init) + (last + "\0" + rest);
      RmListPieces(init, last + "\0" + rest, p);
      SplitAt(last, '\0', rest);
    }
  }

  lemma {:induction false} RmListIsUtf8(names: seq<Name>)
    requires forall n | n in names :: IsUtf8(n)
    ensures IsUtf8(RmList(names))
  {
    hide IsUtf8;
    if names == [] {
      AsciiIsUtf8("");
    } else {
      var init, last := names[..|names| - 1], names[|names| - 1];
      RmListIsUtf8(init);
      AsciiIsUtf8("\0");
      Utf8Concat(RmList(init), last);
      Utf8Concat(RmList(init) + last, "\0");
    }
  }

  lemma {:induction false} Utf8Concat(a: string, b: string)
    requires IsUtf8(a) && IsUtf8(b)
    ensures IsUtf8(a + b)
  {
    if a == "" {
      assert a + b == b;
    } else {
      var n := Utf8Length(a);
      assert Utf8Length(a + b) == n;
      assert (a + b)[n..] == a[n..] + b;
      Utf8Concat(a[n..], b);
    }
  }

  /** A recorded name that removing it from the list really removes. */
  predicate IsListable(n: Name) { n != "" && '\0' !in n && Norm(n) == n }

  lemma {:induction false} ListableIsListed(names: seq<Name>, n: Name)
    requires n in names && IsListable(n)
    ensures IsListed(n, Split(RmList(names), '\0'))
  {
    hide Norm, RmList;
    SplitWhole(n, '\0');
    RmListPieces(names, "", n);
    assert RmList(names) + "" == RmList(names);
    var pieces := Split(RmList(names), '\0');
    var i :| 0 <= i < |pieces| && pieces[i] == n;
  }

  /** A listed name is a normal form, and comes from a piece of a recorded name. */
  lemma ListedHasSource(names: seq<Name>, m: Name) returns (n: Name, p: string)
    requires IsListed(m, Split(RmList(names), '\0'))
    ensures n in names && p in Split(n, '\0') && p != "" && Norm(p) == m
    ensures Norm(m) == m && '\0' !in m
  {
    hide Norm, RmList;
    var pieces := Split(RmList(names), '\0');
    var i :| 0 <= i < |pieces| && pieces[i] != "" && Norm(pieces[i]) == m;
    p := pieces[i];
    RmListPieces(names, "", p);
    assert RmList(names) + "" == RmList(names);
    n :| n in names && p in Split(n, '\0');
    SplitPieces(n, '\0', p);
    NormIsNormal(p);
    if '\0' in m {
      NormChars(p, '\0');
    }
  }

  /** The whole list works if each of its names does: otherwise something stays behind. */
  lemma {:induction false} AllListedMeansListable(names: seq<Name>)
    requires forall n | n in names :: IsListed(n, Split(RmList(names), '\0'))
    ensures forall n | n in names :: IsListable(n)
  {
    hide Norm, IsListed, RmList;
    forall m | m in names ensures IsListable(m) {
      var n, p := ListedHasSource(names, m);
      var n', p' := ListedHasSource(names, n);
      SplitWhole(n, '\0');
    }
  }

  // ---- backup, then restore ----

  /** The saved part of the original, which restore brings back entry by entry. */
  ghost function SavedPart(o: Archive, s: Archive): Archive {
    map n | n in o && IsSaved(n, o, s) :: o[n]
  }

  /** Exactly the names and data of the original, and its whole entry wherever the data differed
      or the entry was missing. */
  ghost function Original(o: Archive, s: Archive): Archive {
    map n | n in o :: if IsSaved(n, o, s) then o[n] else s[n]
  }

  lemma OriginalHasOriginalData(o: Archive, s: Archive)
    ensures Original(o, s).Keys == o.Keys
    ensures forall n | n in o :: Original(o, s)[n].data == o[n].data
  {
  }

  lemma {:induction false} NewAreNew(names: seq<Name>, o: Archive, c: Archive)
    ensures forall n :: n in NewNames(names, o, c) <==> n in names && IsNew(n, o, c)
  {
    if names != [] {
      NewAreNew(names[1..], o, c);
      assert forall n :: n in names <==> n == names[0] || n in names[1..];
    }
  }

  /** What is in the archive after backup: its own entries and, in the backup directory, saved entries
      and the list. */
  lemma BackupContents(s: Archive, o: Archive, skip: bool, xz: Coder)
    requires IsStripped(s)
    ensures var b := WithBackup(s, o, skip, xz);
            && BACKUP in b
            && (forall n | n in s :: n in b && b[n] == s[n])
            && (forall k | k in b && k !in s && k != BACKUP :: StartsWith(k, BACKUP_DIR))
            && (forall k | k in b && k !in s && k != BACKUP && k != RMLIST ::
                  exists n | IsSaved(n, o, s) :: SavedAs(n, o[n], skip, xz) == (k, b[k]))
  {
    hide SavedAs, RmList, NewNames, SavedNames, Saved;
    var names := SavedNames(Sorted(o.Keys), o, s);
    SavedAreOriginal(Sorted(o.Keys), o, s);
    SortedElements(o.Keys);
    SavedKeys(names, o, skip, xz);
    BackupEntryStays(names, o, skip, xz);
    assert StartsWith(RMLIST, BACKUP_DIR);
    var saved := Saved(names, o, skip, xz);
    forall k | k in saved && k != BACKUP ensures StartsWith(k, BACKUP_DIR) {
      var n :| n in names && SavedAs(n, o[n], skip, xz) == (k, saved[k]);
      SavedKeyShape(n, o[n], skip, xz);
    }
  }

  /** When all are safe, each saved entry is in the backup directory, and so is the list. */
  lemma {:induction false} SafeContents(s: Archive, o: Archive, skip: bool, xz: Coder)
    requires IsStripped(s) && AllSafe(o, s, skip, xz)
    ensures var b := WithBackup(s, o, skip, xz);
            var list := RmList(NewNames(Sorted(s.Keys), o, s));
            && (forall n | IsSaved(n, o, s) ::
                  var k := SavedAs(n, o[n], skip, xz); k.0 in b && b[k.0] == k.1 && k.0 != RMLIST && k.0 != MAGISK)
            && (RMLIST in b <==> list != "") && (RMLIST in b ==> b[RMLIST].data == list)
  {
    hide SavedAs, RmList, NewNames, SavedNames, Saved, IsSafe;
    var names := SavedNames(Sorted(o.Keys), o, s);
    SavedAreOriginal(Sorted(o.Keys), o, s);
    SortedElements(o.Keys);
    var saved := Saved(names, o, skip, xz);
    SavedKeys(names, o, skip, xz);
    assert StartsWith(RMLIST, BACKUP_DIR);
    forall n | IsSaved(n, o, s)
      ensures var k := SavedAs(n, o[n], skip, xz);
              k.0 in saved && saved[k.0] == k.1 && k.0 != RMLIST && k.0 != MAGISK
    {
      SafeKey(n, o, s, skip, xz);
      SavedValue(names, o, s, skip, xz, n);
    }
  }

  lemma SafeKey(n: Name, o: Archive, s: Archive, skip: bool, xz: Coder)
    requires n in o && IsSafe(n, o, s, skip, xz)
    ensures SavedAs(n, o[n], skip, xz).0 != RMLIST && SavedAs(n, o[n], skip, xz).0 != MAGISK
    ensures !IsMisread(n, o[n], skip, xz)
  {
    SavedKeyShape(n, o[n], skip, xz);
  }

  /** The names and modes in the backup directory: a saved regular file is kept compressed if it can be, with a suffix
      to its name; anything else as it was. */
  lemma BackupHolds(s: Archive, o: Archive, skip: bool, xz: Coder, n: Name)
    requires IsStripped(s) && AllSafe(o, s, skip, xz)
    ensures var b := WithBackup(s, o, skip, xz);
            && ".backup" in b && b[".backup"] == Entry(0x4000, 0, 0, 0, 0, "")
            && (IsSaved(n, o, s) ==>
                  var z := if !skip && o[n].mode / 0x1000 % 16 == 8 then xz.encode(o[n].data) else None;
                  if z.Some? then ".backup/" + n + ".xz" in b && b[".backup/" + n + ".xz"] == o[n].(data := z.value)
                  else ".backup/" + n in b && b[".backup/" + n] == o[n])
  {
    hide WithBackup, IsSafe;
    SafeContents(s, o, skip, xz);
    BackupDirectory(s, o, skip, xz);
  }

  /** The list is there when there is something to remove, and has every new name that can be listed. */
  lemma ListHolds(s: Archive, o: Archive, skip: bool, xz: Coder, n: Name)
    requires IsStripped(s) && AllSafe(o, s, skip, xz) && IsNew(n, o, s) && IsListable(n)
    ensures var b := WithBackup(s, o, skip, xz);
            && ".backup/.rmlist" in b && b[".backup/.rmlist"] == Entry(0x8000, 0, 0, 0, 0, b[".backup/.rmlist"].data)
            && n in Split(b[".backup/.rmlist"].data, '\0')
  {
    hide WithBackup, AllSafe, IsSaved, NewNames, RmList, Split;
    var names := NewNames(Sorted(s.Keys), o, s);
    NewAreNew(Sorted(s.Keys), o, s);
    SortedElements(s.Keys);
    SafeContents(s, o, skip, xz);
    SplitWhole(n, '\0');
    RmListPieces(names, "", n);
    assert RmList(names) + "" == RmList(names);
    if RmList(names) == "" {
      EmptyListIsNothingNew(names);
    }
    ListEntry(s, o, skip, xz);
  }

  lemma BackupDirectory(s: Archive, o: Archive, skip: bool, xz: Coder)
    requires IsStripped(s)
    ensures var b := WithBackup(s, o, skip, xz);
            ".backup" in b && b[".backup"] == Entry(0x4000, 0, 0, 0, 0, "")
  {
    hide SavedAs, RmList, NewNames, SavedNames, Saved;
    var names := SavedNames(Sorted(o.Keys), o, s);
    SavedAreOriginal(Sorted(o.Keys), o, s);
    BackupEntryStays(names, o, skip, xz);
    assert |RMLIST| != |".backup"|;
  }

  lemma {:induction false} ListEntry(s: Archive, o: Archive, skip: bool, xz: Coder)
    ensures var list := RmList(NewNames(Sorted(s.Keys), o, s));
            list != "" ==> var b := WithBackup(s, o, skip, xz);
                           ".backup/.rmlist" in b && b[".backup/.rmlist"] == Entry(0x8000, 0, 0, 0, 0, list)
  {
    hide SavedAs, RmList, NewNames, SavedNames, Saved;
    SavedAreOriginal(Sorted(o.Keys), o, s);
  }

  /** Removing goes by components: slashes in front or behind do not matter, and only what is below the path goes with
      it, not what merely starts with the same characters. */
  lemma {:induction false} RemovedIs(c: Archive, ps: seq<string>, recursive: bool, n: Name)
    requires AreComponents(ps)
    ensures var p := Join(ps, '/');
            n in Removed(c, "/" + p + "/", recursive) <==> n in c && n != p && !(recursive && p + "/" <= n)
  {
    hide Norm, Join;
    var p := Join(ps, '/');
    NormLaws(ps, p + "/", "");
    NormLaws(ps, p, "");
    assert "/" + (p + "/") == "/" + p + "/";
  }

  /** Taking the backup directory away again leaves the archive it was added to. */
  lemma RestLeftOver(s: Archive, o: Archive, skip: bool, xz: Coder)
    requires IsStripped(s)
    ensures var b := WithBackup(s, o, skip, xz);
            Removed(b - BackupFiles(b), BACKUP, false) == s
  {
    hide SavedAs, WithBackup, Norm;
    var b := WithBackup(s, o, skip, xz);
    BackupContents(s, o, skip, xz);
    BackupIsNormal();
    assert !StartsWith(BACKUP, BACKUP_DIR);
    var r := Removed(b - BackupFiles(b), BACKUP, false);
    assert forall n :: n in r <==> n in b && n !in BackupFiles(b) && n != BACKUP;
    assert r.Keys == s.Keys;
  }

  /** What restore finds in the backup directory. */
  ghost function UnpackedBackup(s: Archive, o: Archive, skip: bool, xz: Coder): Archive {
    var b := WithBackup(s, o, skip, xz);
    SortedElements(BackupFiles(b));
    Unpacked(Sorted(BackupFiles(b)), b, xz)
  }

  lemma InBackup(k: Name, s: Archive)
    requires IsStripped(s) && StartsWith(k, BACKUP_DIR)
    ensures k !in s && k != BACKUP
  {
  }

  /** Every saved file restores to a saved entry of the original. */
  lemma FileRestores(s: Archive, o: Archive, skip: bool, xz: Coder, k: Name)
    requires xz.IsInvertible() && IsStripped(s) && AllSafe(o, s, skip, xz)
    requires var b := WithBackup(s, o, skip, xz); k in b && StartsWith(k, BACKUP_DIR) && k != RMLIST
    ensures var r := RestoredAs(k, WithBackup(s, o, skip, xz)[k], xz); IsSaved(r.0, o, s) && o[r.0] == r.1
  {
    hide SavedAs, RestoredAs, WithBackup, Coder.IsInvertible, IsSafe, IsMisread, IsStripped;
    BackupContents(s, o, skip, xz);
    InBackup(k, s);
    var n :| IsSaved(n, o, s) && SavedAs(n, o[n], skip, xz) == (k, WithBackup(s, o, skip, xz)[k]);
    SafeKey(n, o, s, skip, xz);
    SaveThenRestore(n, o[n], skip, xz);
  }

  /** Every saved entry restores from a file. */
  lemma SavedRestores(s: Archive, o: Archive, skip: bool, xz: Coder, n: Name) returns (k: Name)
    requires xz.IsInvertible() && IsStripped(s) && AllSafe(o, s, skip, xz) && IsSaved(n, o, s)
    ensures k in WithBackup(s, o, skip, xz) && StartsWith(k, BACKUP_DIR) && k != RMLIST && k != MAGISK
    ensures RestoredAs(k, WithBackup(s, o, skip, xz)[k], xz).0 == n
  {
    hide SavedAs, RestoredAs, WithBackup, Coder.IsInvertible, IsSafe, IsMisread, IsStripped, RmList, NewNames;
    SafeContents(s, o, skip, xz);
    SafeKey(n, o, s, skip, xz);
    SaveThenRestore(n, o[n], skip, xz);
    k := SavedAs(n, o[n], skip, xz).0;
  }

  /** Unpacking the backup directory gives the saved part of the original. */
  lemma UnpackGivesSaved(s: Archive, o: Archive, skip: bool, xz: Coder)
    requires xz.IsInvertible() && IsStripped(s) && AllSafe(o, s, skip, xz)
    ensures UnpackedBackup(s, o, skip, xz) == SavedPart(o, s)
  {
    hide RestoredAs, WithBackup, Unpacked, Coder.IsInvertible, AllSafe, IsStripped, StartsWith;
    var b := WithBackup(s, o, skip, xz);
    var files := Sorted(BackupFiles(b));
    SortedElements(BackupFiles(b));
    var t := SavedPart(o, s);
    forall k | k in files && k != RMLIST && k != MAGISK
      ensures var r := RestoredAs(k, b[k], xz); r.0 in t && t[r.0] == r.1
    {
      FileRestores(s, o, skip, xz, k);
    }
    UnpackedWithin(files, b, xz, t);
    forall n | n in t ensures n in Unpacked(files, b, xz) {
      var k := SavedRestores(s, o, skip, xz, n);
    }
  }

  lemma {:induction false} ListComesBack(s: Archive, o: Archive, skip: bool, xz: Coder)
    requires IsStripped(s) && AllSafe(o, s, skip, xz) && (forall n | n in s :: IsUtf8(n))
    ensures RestoredList(WithBackup(s, o, skip, xz)) == RmList(NewNames(Sorted(s.Keys), o, s))
  {
    hide SavedAs, AllSafe, WithBackup, IsUtf8, IsSaved, NewNames, RmList;
    SafeContents(s, o, skip, xz);
    NewAreNew(Sorted(s.Keys), o, s);
    SortedElements(s.Keys);
    RmListIsUtf8(NewNames(Sorted(s.Keys), o, s));
  }

  // ---- only what is safe comes back ----

  /** A name is unpacked only when it was saved, or an entry was misread as it. */
  lemma {:induction false} UnpackedFrom(files: seq<Name>, c: Archive, xz: Coder, n: Name) returns (k: Name)
    requires (forall f | f in files :: f in c && StartsWith(f, BACKUP_DIR)) && n in Unpacked(files, c, xz)
    ensures k in files && k != RMLIST && k != MAGISK && RestoredAs(k, c[k], xz).0 == n
  {
    hide RestoredAs;
    var init, last := files[..|files| - 1], files[|files| - 1];
    assert files == init + [last];
    if last != RMLIST && last != MAGISK && RestoredAs(last, c[last], xz).0 == n {
      k := last;
    } else {
      k := UnpackedFrom(init, c, xz, n);
    }
  }

  /** The entry is in the backup directory under its own key, and restored from there. */
  ghost predicate IsOwner(n: Name, s: Archive, o: Archive, skip: bool, xz: Coder)
    requires n in o
  {
    var b := WithBackup(s, o, skip, xz);
    var k := SavedAs(n, o[n], skip, xz);
    && k.0 in b && b[k.0] == k.1 && k.0 != RMLIST && k.0 != MAGISK
    && !IsMisread(n, o[n], skip, xz)
  }

  /** If everything saved is unpacked, then each from its own key: a name could otherwise only come from a
      longer one that was misread, and that one from a longer one still. */
  lemma {:induction false} UnpackedOwn(n: Name, s: Archive, o: Archive, skip: bool, xz: Coder, bound: nat)
    requires xz.IsInvertible() && IsStripped(s) && IsSaved(n, o, s)
    requires forall m | IsSaved(m, o, s) :: |m| < bound && m in UnpackedBackup(s, o, skip, xz)
    ensures IsOwner(n, s, o, skip, xz)
    decreases bound - |n|
  {
    hide SavedAs, RestoredAs, WithBackup, Unpacked, IsMisread, Coder.IsInvertible, IsStripped;
    var b := WithBackup(s, o, skip, xz);
    SortedElements(BackupFiles(b));
    var k := UnpackedFrom(Sorted(BackupFiles(b)), b, xz, n);
    BackupContents(s, o, skip, xz);
    assert k !in s && k != BACKUP by { InBackup(k, s); }
    var m :| IsSaved(m, o, s) && SavedAs(m, o[m], skip, xz) == (k, b[k]);
    SaveThenRestore(m, o[m], skip, xz);
    if IsMisread(m, o[m], skip, xz) {
      UnpackedOwn(m, s, o, skip, xz, bound);
    }
  }

  lemma LongestName(o: Archive) returns (bound: nat)
    ensures forall n | n in o :: |n| < bound
  {
    bound := 0;
    var left := o.Keys;
    while left != {}
      invariant left <= o.Keys && forall n | n in o && n !in left :: |n| < bound
      decreases |left|
    {
      var n :| n in left;
      bound := if |n| < bound then bound else |n| + 1;
      left := left - {n};
    }
  }

  lemma OwnersAreSafe(s: Archive, o: Archive, skip: bool, xz: Coder)
    requires forall n | IsSaved(n, o, s) :: IsOwner(n, s, o, skip, xz)
    requires xz.IsInvertible()
    ensures AllSafe(o, s, skip, xz)
  {
    hide SavedAs, RestoredAs, WithBackup, Coder.IsInvertible;
    forall n | IsSaved(n, o, s) ensures IsSafe(n, o, s, skip, xz) {
      SavedKeyShape(n, o[n], skip, xz);
      if !IsPacked(o[n], skip, xz) && EndsWith(n, XZ) {
        var m := n[..|n| - 3];
        assert n == m + XZ;
        if IsTaken(m, o, s, skip, xz) {
          SavedKeyShape(m, o[m], skip, xz);
          assert BACKUP_DIR + m + XZ == BACKUP_DIR + n;
          SaveThenRestore(n, o[n], skip, xz);
          SaveThenRestore(m, o[m], skip, xz);
        }
      }
    }
  }

  /** When something saved is not safe, the original does not come back. */
  lemma UnsafeIsLost(s: Archive, o: Archive, skip: bool, xz: Coder)
    requires xz.IsInvertible() && IsStripped(s) && !AllSafe(o, s, skip, xz)
    ensures Restored(WithBackup(s, o, skip, xz), xz) != Original(o, s)
  {
    hide WithBackup, Unpacked, IsOwner, AllSafe, Coder.IsInvertible, IsStripped, Split, RestoredList, IsListed,
         BackupFiles, Removed;
    var b := WithBackup(s, o, skip, xz);
    if Restored(b, xz) == Original(o, s) {
      RestLeftOver(s, o, skip, xz);
      var bound := LongestName(o);
      forall n | IsSaved(n, o, s) ensures n in UnpackedBackup(s, o, skip, xz) {
        assert Original(o, s)[n] == o[n];
      }
      forall n | IsSaved(n, o, s) ensures IsOwner(n, s, o, skip, xz) {
        UnpackedOwn(n, s, o, skip, xz, bound);
      }
      OwnersAreSafe(s, o, skip, xz);
      assert false;
    }
  }

  lemma {:induction false} EmptyListIsNothingNew(names: seq<Name>)
    ensures RmList(names) == "" <==> names == []
  {
  }

  /** Some entry has to be saved or recorded. */
  ghost predicate Differ(o: Archive, s: Archive) {
    exists n :: IsSaved(n, o, s) || IsNew(n, o, s)
  }

  /** What restore makes of a backup. */
  lemma {:induction false} RestoredBackup(s: Archive, o: Archive, skip: bool, xz: Coder)
    requires xz.IsInvertible() && IsStripped(s) && AllSafe(o, s, skip, xz) && (forall n | n in s :: IsUtf8(n))
    ensures var list := RmList(NewNames(Sorted(s.Keys), o, s));
            Restored(WithBackup(s, o, skip, xz), xz)
            == if Differ(o, s) then Cleaned(s, Split(list, '\0')) + SavedPart(o, s) else map[]
  {
    hide AllSafe, WithBackup, IsUtf8, NewNames, RmList, Unpacked, Split, Cleaned, Removed, RestoredList, BackupFiles,
         Coder.IsInvertible, IsStripped;
    RestLeftOver(s, o, skip, xz);
    UnpackGivesSaved(s, o, skip, xz);
    ListComesBack(s, o, skip, xz);
    EmptyListIsNothingNew(NewNames(Sorted(s.Keys), o, s));
    NewAreNew(Sorted(s.Keys), o, s);
    SortedElements(s.Keys);
    if SavedPart(o, s) == map[] && NewNames(Sorted(s.Keys), o, s) == [] {
      forall n ensures !IsSaved(n, o, s) && !IsNew(n, o, s) {
        assert n !in SavedPart(o, s) && n !in NewNames(Sorted(s.Keys), o, s);
      }
    } else if SavedPart(o, s) != map[] {
      var n :| n in SavedPart(o, s);
      assert IsSaved(n, o, s);
    } else {
      var n := NewNames(Sorted(s.Keys), o, s)[0];
      assert IsNew(n, o, s);
    }
  }

  /** The list removes just the new entries when all of them are listable. */
  lemma {:induction false} CleanedIsCommon(s: Archive, o: Archive, added: seq<Name>)
    requires forall n :: n in added <==> IsNew(n, o, s)
    requires forall n | n in added :: IsListable(n)
    ensures Cleaned(s, Split(RmList(added), '\0')) == map n | n in s && n in o :: s[n]
  {
    hide Norm, RmList, Split, IsListed;
    var pieces := Split(RmList(added), '\0');
    forall n | n in s ensures IsListed(n, pieces) <==> n !in o {
      if n !in o {
        ListableIsListed(added, n);
      }
      if IsListed(n, pieces) {
        var m, p := ListedHasSource(added, n);
        SplitWhole(m, '\0');
      }
    }
  }

  /** Restoring undoes the change: backup of the original and then restore give exactly the names
      and data of the original -- if and only if there was a difference to record (or nothing to
      lose), each new entry has a name that the list of removals can express, and each saved entry
      is safe in the backup directory. */
  lemma RestoreAfterBackup(c: Archive, origin: Archive, skip: bool, xz: Coder)
    requires xz.IsInvertible() && forall n | n in c :: IsUtf8(n)
    ensures var o, s := Removed(origin, BACKUP, true), Removed(c, BACKUP, true);
            && Original(o, s).Keys == o.Keys
            && (forall n | n in o :: Original(o, s)[n].data == o[n].data)
            && (Restored(BackedUp(c, origin, skip, xz), xz) == Original(o, s)
                <==> && (o == map[] || Differ(o, s))
                     && (forall n | IsNew(n, o, s) :: IsListable(n))
                     && (forall n | IsSaved(n, o, s) :: IsSafe(n, o, s, skip, xz)))
  {
    hide IsSafe, IsListable, IsUtf8, NewNames, RmList, Split, Norm, WithBackup, Restored, Coder.IsInvertible,
         IsStripped, Original;
    var o, s := Removed(origin, BACKUP, true), Removed(c, BACKUP, true);
    StrippedRemoval(c);
    OriginalHasOriginalData(o, s);
    if AllSafe(o, s, skip, xz) {
      RestoredBackup(s, o, skip, xz);
      RestoreUndoes(s, o);
    } else {
      UnsafeIsLost(s, o, skip, xz);
    }
  }

  lemma {:induction false} RestoreUndoes(s: Archive, o: Archive)
    ensures var list := RmList(NewNames(Sorted(s.Keys), o, s));
            (if Differ(o, s) then Cleaned(s, Split(list, '\0')) + SavedPart(o, s) else map[]) == Original(o, s)
            <==> (o == map[] || Differ(o, s)) && forall n | IsNew(n, o, s) :: IsListable(n)
  {
    hide NewNames, RmList, Split, Cleaned, IsListable, SavedPart;
    var added := NewNames(Sorted(s.Keys), o, s);
    NewAreNew(Sorted(s.Keys), o, s);
    SortedElements(s.Keys);
    if Differ(o, s) {
      if forall n | IsNew(n, o, s) :: IsListable(n) {
        ListableComesBack(s, o, added);
      }
      if Cleaned(s, Split(RmList(added), '\0')) + SavedPart(o, s) == Original(o, s) {
        OnlyListableComesBack(s, o, added);
      }
    } else {
      assert Original(o, s).Keys == o.Keys;
    }
  }

  lemma {:induction false} ListableComesBack(s: Archive, o: Archive, added: seq<Name>)
    requires forall n :: n in added <==> IsNew(n, o, s)
    requires forall n | n in added :: IsListable(n)
    ensures Cleaned(s, Split(RmList(added), '\0')) + SavedPart(o, s) == Original(o, s)
  {
    hide RmList, Split, Cleaned, IsListable;
    CleanedIsCommon(s, o, added);
  }

  lemma {:induction false} OnlyListableComesBack(s: Archive, o: Archive, added: seq<Name>)
    requires forall n :: n in added <==> IsNew(n, o, s)
    requires Cleaned(s, Split(RmList(added), '\0')) + SavedPart(o, s) == Original(o, s)
    ensures forall n | n in added :: IsListable(n)
  {
    hide RmList, Split, IsListable, IsListed;
    var pieces := Split(RmList(added), '\0');
    forall n | n in added ensures IsListed(n, pieces) {
      assert n !in Original(o, s);
      assert n !in Cleaned(s, pieces);
    }
    AllListedMeansListable(added);
  }

  /** A coder that leaves the data alone. */
  function Plain(): (xz: Coder)
    ensures xz.IsInvertible()
  {
    Coder(d => Some(d), d => Some(d))
  }

  /** A file kept uncompressed under a name with the suffix, whose data happens to decode: restoring a backup that holds
      it loses the name. */
  lemma MisreadExample()
    ensures var origin: Archive := map["a.xz" := Entry(0x8000, 0, 0, 0, 0, "x")];
            Restored(BackedUp(map[], origin, true, Plain()), Plain()) != origin
  {
    hide Norm, Restored, WithBackup;
    BackupIsNormal();
    var origin: Archive := map["a.xz" := Entry(0x8000, 0, 0, 0, 0, "x")];
    assert Removed(origin, BACKUP, true) == origin && Removed(map[], BACKUP, true) == map[];
    assert IsStripped(map[]) && Original(origin, map[]) == origin;
    assert IsSaved("a.xz", origin, map[]) && "a.xz"[1..] == XZ;
    assert !IsSafe("a.xz", origin, map[], true, Plain());
    UnsafeIsLost(map[], origin, true, Plain());
  }
}
