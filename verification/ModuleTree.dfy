/**
  Step 1 of applying modules (native/src/core/module.rs): the `system` directories of all
  modules are collected into one virtual tree.
 */
module ModuleTree {
  import opened Wrappers

  type Name = string
  type Path = seq<Name>

  /** A file system tree.  A link records what opening it as a directory yields: nothing, or
      the entries of the directory it resolves to. */
  datatype Tree =
    | Dir(entries: map<Name, Tree>)
    | File(content: string)
    | Link(target: string, opens: bool, entries: map<Name, Tree>)
    | WhiteoutDevice

  /** FsNode: what the modules ask for. */
  datatype FsNode =
    | Directory(children: map<Name, FsNode>)
    | FileNode(src: Path)
    | Symlink(target: string)
    | MagiskLink
    | Whiteout

  const NewDir: FsNode := Directory(map[])

  /** One module: whether it asks not to be mounted, where its `system` is mounted, and what it is. */
  datatype Module = Module(skipMount: bool, mnt: Path, system: Option<Tree>) {
    /** Only what is there, not skipped and opens as a directory is collected. */
    predicate IsLoaded() {
      !skipMount && system.Some? && (system.value.Dir? || (system.value.Link? && system.value.opens))
    }

    /** The directory that opening it yields. */
    function Opened(): (t: Tree)
      requires IsLoaded()
      ensures t.Dir?
    {
      Dir(system.value.entries)
    }
  }

  // ---- collect ----

  /** The node recorded for an entry that is not a directory. */
  function Leaf(entry: Tree, at: Path): (r: FsNode)
    requires !entry.Dir?
    ensures !r.Directory?
  {
    match entry
    case Link(target, _, _) => Symlink(target)
    case WhiteoutDevice => Whiteout
    case File(_) => FileNode(at)
  }

  /** collect, entry by entry: an existing node is kept, a directory is merged into it. */
  function MergeEntry(prev: Option<FsNode>, entry: Tree, at: Path): FsNode
    decreases entry, 2
  {
    if entry.Dir? then
      Merge(prev.GetOr(NewDir), entry, at)
    else
      prev.GetOr(Leaf(entry, at))
  }

  /** The children after the entries named in `read` have been read. */
  function MergeEntries(children: map<Name, FsNode>, dir: Tree, at: Path, read: set<Name>): map<Name, FsNode>
    requires dir.Dir? && read <= dir.entries.Keys
    decreases dir, 0
  {
    map n | n in children.Keys + read ::
      if n in read then MergeEntry(Get(children, n), dir.entries[n], at + [n]) else children[n]
  }

  function Merge(node: FsNode, dir: Tree, at: Path): FsNode
    requires dir.Dir?
    decreases dir, 1
  {
    if node.Directory? then Directory(MergeEntries(node.children, dir, at, dir.entries.Keys)) else node
  }

  function Get<V>(m: map<Name, V>, n: Name): Option<V> {
    if n in m then Some(m[n]) else None
  }

  lemma {:induction false} ReadOne(children: map<Name, FsNode>, dir: Tree, at: Path, read: set<Name>, n: Name)
    requires dir.Dir? && read <= dir.entries.Keys && n in dir.entries && n !in read
    ensures Get(MergeEntries(children, dir, at, read), n) == Get(children, n)
    ensures MergeEntries(children, dir, at, read + {n})
         == MergeEntries(children, dir, at, read)[n := MergeEntry(Get(children, n), dir.entries[n], at + [n])]
  {
  }

  /** Loading the modules in list order. */
  function Load(node: FsNode, m: Module): FsNode {
    if m.IsLoaded() then Merge(node, m.Opened(), m.mnt) else node
  }

  function Union(mods: seq<Module>): FsNode {
    if mods == [] then NewDir else Load(Union(mods[..|mods| - 1]), mods[|mods| - 1])
  }

  // ---- what the union says about each path ----

  /** What stands at a path: a directory, or something that is not one. */
  datatype What = IsDir | IsLeaf(node: FsNode)

  function Look(node: FsNode, p: Path): Option<What> {
    if p == [] then
      Some(if node.Directory? then IsDir else IsLeaf(node))
    else if node.Directory? && p[0] in node.children then
      Look(node.children[p[0]], p[1..])
    else
      None
  }

  /** What one tree, mounted at `at`, supplies for a path. */
  function Supply(t: Tree, at: Path, p: Path): Option<What> {
    if p == [] then
      Some(if t.Dir? then IsDir else IsLeaf(Leaf(t, at)))
    else if t.Dir? && p[0] in t.entries then
      Supply(t.entries[p[0]], at + [p[0]], p[1..])
    else
      None
  }

  function SupplyOf(m: Module, p: Path): Option<What> {
    if m.IsLoaded() then Supply(m.Opened(), m.mnt, p) else None
  }

  /** A proper prefix of the path is taken by something that is not a directory. */
  predicate Blocks(node: FsNode, p: Path) {
    p != [] && (!node.Directory? || (p[0] in node.children && Blocks(node.children[p[0]], p[1..])))
  }

  lemma {:induction false} BlocksIsLeafAbove(node: FsNode, p: Path)
    ensures Blocks(node, p) <==> exists k | 0 <= k < |p| :: Look(node, p[..k]).Some? && Look(node, p[..k]).value.IsLeaf?
  {
    if p != [] {
      assert p[..0] == [];
      if node.Directory? && p[0] in node.children {
        BlocksIsLeafAbove(node.children[p[0]], p[1..]);
        forall k | 0 < k < |p| ensures Look(node, p[..k]) == Look(node.children[p[0]], p[1..][..k - 1]) {
          assert p[..k][1..] == p[1..][..k - 1];
        }
        if j :| 0 <= j < |p[1..]| && Look(node.children[p[0]], p[1..][..j]).Some?
                && Look(node.children[p[0]], p[1..][..j]).value.IsLeaf? {
          assert Look(node, p[..j + 1]) == Look(node.children[p[0]], p[1..][..j]);
        }
      } else if node.Directory? {
        forall k | 0 < k < |p| ensures Look(node, p[..k]).None? {
        }
      } else {
        assert Look(node, p[..0]).value.IsLeaf?;
      }
    }
  }

  /** Collecting one directory is a left-biased union, path by path: what was there stays, a
      path below something that is not a directory stays empty, anything else comes from the
      new directory. */
  lemma {:induction false} MergeLook(node: FsNode, dir: Tree, at: Path, p: Path)
    requires dir.Dir?
    ensures Look(Merge(node, dir, at), p)
         == if Look(node, p).Some? then Look(node, p)
            else if Blocks(node, p) then None
            else Supply(dir, at, p)
    decreases |p|
  {
    if p != [] && node.Directory? && p[0] in dir.entries {
      var n := p[0];
      var entry := dir.entries[n];
      assert Look(Merge(node, dir, at), p) == Look(MergeEntry(Get(node.children, n), entry, at + [n]), p[1..]);
      if entry.Dir? {
        MergeLook(Get(node.children, n).GetOr(NewDir), entry, at + [n], p[1..]);
      }
    }
  }

  lemma {:induction false} LoadLook(node: FsNode, m: Module, p: Path)
    requires p != []
    ensures Look(Load(node, m), p)
         == if Look(node, p).Some? then Look(node, p)
            else if Blocks(node, p) then None
            else SupplyOf(m, p)
  {
    if m.IsLoaded() {
      MergeLook(node, m.Opened(), m.mnt, p);
    }
  }

  /** The union is a directory at the top, and holds a path only if a module supplies it. */
  lemma {:induction false} UnionIsSupplied(mods: seq<Module>, p: Path)
    ensures Look(Union(mods), []) == Some(IsDir)
    ensures p != [] && Look(Union(mods), p).Some? ==>
              exists i | 0 <= i < |mods| :: SupplyOf(mods[i], p) == Look(Union(mods), p)
  {
    if mods != [] {
      var init, last := mods[..|mods| - 1], mods[|mods| - 1];
      UnionIsSupplied(init, p);
      if p != [] {
        LoadLook(Union(init), last, p);
        if Look(Union(init), p).Some? {
          var i :| 0 <= i < |init| && SupplyOf(init[i], p) == Look(Union(init), p);
          assert SupplyOf(mods[i], p) == Look(Union(mods), p);
        } else if Look(Union(mods), p).Some? {
          assert SupplyOf(mods[|mods| - 1], p) == Look(Union(mods), p);
        }
      }
    }
  }

  /** What a path shows once is not changed by later modules. */
  lemma {:induction false} EarlierWins(mods: seq<Module>, i: nat, p: Path)
    requires i <= |mods| && p != []
    ensures Look(Union(mods[..i]), p).Some? ==> Look(Union(mods), p) == Look(Union(mods[..i]), p)
    ensures Look(Union(mods[..i]), p).None? && Blocks(Union(mods[..i]), p) ==> Look(Union(mods), p).None?
    decreases |mods|, |p|
  {
    if i == |mods| {
      assert mods[..i] == mods;
    } else {
      var init := mods[..|mods| - 1];
      assert init[..i] == mods[..i];
      EarlierWins(init, i, p);
      LoadLook(Union(init), mods[|mods| - 1], p);
      if Look(Union(mods[..i]), p).None? && Blocks(Union(mods[..i]), p) {
        BlockingStays(init, i, p);
      }
    }
  }

  lemma {:induction false} BlockingStays(mods: seq<Module>, i: nat, p: Path)
    requires i <= |mods| && Blocks(Union(mods[..i]), p)
    ensures Blocks(Union(mods), p)
    decreases |mods|, |p|
  {
    BlocksIsLeafAbove(Union(mods[..i]), p);
    var k :| 0 <= k < |p| && Look(Union(mods[..i]), p[..k]).Some? && Look(Union(mods[..i]), p[..k]).value.IsLeaf?;
    UnionIsSupplied(mods[..i], []);
    EarlierWins(mods, i, p[..k]);
    BlocksIsLeafAbove(Union(mods), p);
  }

  /** The first module that supplies a path decides it, unless the modules before it put something
      other than a directory on the way to that path; then the path stays empty. */
  lemma {:induction false} FirstSupplierWins(mods: seq<Module>, i: nat, p: Path)
    requires i < |mods| && p != [] && SupplyOf(mods[i], p).Some?
    requires forall j | 0 <= j < i :: SupplyOf(mods[j], p).None?
    ensures Look(Union(mods), p) == if Blocks(Union(mods[..i]), p) then None else SupplyOf(mods[i], p)
  {
    hide Union;
    var before := Union(mods[..i]);
    UnionIsSupplied(mods[..i], p);
    EarlierWins(mods, i, p);
    EarlierWins(mods, i + 1, p);
    UnionNext(mods, i);
    LoadLook(before, mods[i], p);
  }

  lemma UnionNext(mods: seq<Module>, i: nat)
    requires i < |mods|
    ensures Union(mods[..i + 1]) == Load(Union(mods[..i]), mods[i])
  {
    assert mods[..i + 1][..i] == mods[..i];
  }

  /** Once something other than a directory stands on a prefix, no later module can fill the path. */
  lemma {:induction false} LeafHidesBelow(mods: seq<Module>, i: nat, p: Path, k: nat)
    requires i < |mods| && 0 < k < |p|
    requires Look(Union(mods[..i]), p[..k]).Some? && Look(Union(mods[..i]), p[..k]).value.IsLeaf?
    ensures Look(Union(mods), p).None?
  {
    var before := Union(mods[..i]);
    BlocksIsLeafAbove(before, p);
    NothingBelowLeaf(before, p, k);
    EarlierWins(mods, i, p);
  }

  lemma {:induction false} NothingBelowLeaf(node: FsNode, p: Path, k: nat)
    requires k < |p| && Look(node, p[..k]).Some? && Look(node, p[..k]).value.IsLeaf?
    ensures Look(node, p).None?
  {
    if k > 0 {
      assert p[..k][1..] == p[1..][..k - 1];
      NothingBelowLeaf(node.children[p[0]], p[1..], k - 1);
    } else {
      assert p[..k] == [];
    }
  }

  // ---- what the modules themselves hold ----

  /** The node at a path, without following links. */
  function Walk(t: Tree, p: Path): Option<Tree> {
    if p == [] then Some(t)
    else if t.Dir? && p[0] in t.entries then Walk(t.entries[p[0]], p[1..])
    else None
  }

  /** The entry a module has at a path, if it is to be mounted and has a directory at all. */
  function EntryOf(m: Module, p: Path): Option<Tree> {
    match m.system
    case Some(Dir(entries)) => if m.skipMount then None else Walk(Dir(entries), p)
    case Some(Link(_, true, entries)) => if m.skipMount then None else Walk(Dir(entries), p)
    case _ => None
  }

  /** This module is the first that has an entry there. */
  predicate IsFirst(mods: seq<Module>, i: nat, p: Path) {
    i < |mods| && EntryOf(mods[i], p).Some? && forall j | 0 <= j < i :: EntryOf(mods[j], p).None?
  }

  /** A module before this one has taken a place on the way to the path for something that is not a directory. */
  ghost predicate IsTaken(mods: seq<Module>, i: nat, p: Path)
    decreases |p|
  {
    exists j: nat, k: nat | j < i && 0 < k < |p| && IsFirst(mods, j, p[..k]) ::
      !EntryOf(mods[j], p[..k]).value.Dir? && !IsTaken(mods, j, p[..k])
  }

  lemma {:induction false} SupplyIsEntry(t: Tree, at: Path, p: Path)
    ensures Supply(t, at, p)
         == match Walk(t, p)
            case None => None
            case Some(Dir(_)) => Some(IsDir)
            case Some(WhiteoutDevice) => Some(IsLeaf(Whiteout))
            case Some(Link(target, _, _)) => Some(IsLeaf(Symlink(target)))
            case Some(File(_)) => Some(IsLeaf(FileNode(at + p)))
  {
    if p == [] {
      assert at + p == at;
    } else if t.Dir? && p[0] in t.entries {
      SupplyIsEntry(t.entries[p[0]], at + [p[0]], p[1..]);
      assert at + [p[0]] + p[1..] == at + p;
    }
  }

  lemma ModuleSupplies(m: Module, p: Path)
    ensures SupplyOf(m, p)
         == match EntryOf(m, p)
            case None => None
            case Some(Dir(_)) => Some(IsDir)
            case Some(WhiteoutDevice) => Some(IsLeaf(Whiteout))
            case Some(Link(target, _, _)) => Some(IsLeaf(Symlink(target)))
            case Some(File(_)) => Some(IsLeaf(FileNode(m.mnt + p)))
  {
    if m.IsLoaded() {
      SupplyIsEntry(m.Opened(), m.mnt, p);
    }
  }

  lemma {:induction false} FirstSupplies(mods: seq<Module>, i: nat, p: Path)
    requires p != [] && IsFirst(mods, i, p)
    ensures Look(Union(mods), p) == if Blocks(Union(mods[..i]), p) then None else SupplyOf(mods[i], p)
  {
    hide Look, Union, SupplyOf;
    forall j | 0 <= j <= i ensures SupplyOf(mods[j], p).Some? <==> EntryOf(mods[j], p).Some? {
      ModuleSupplies(mods[j], p);
    }
    FirstSupplierWins(mods, i, p);
  }

  lemma {:induction false} FirstOf(mods: seq<Module>, i: nat, p: Path) returns (j: nat)
    requires i < |mods| && EntryOf(mods[i], p).Some?
    ensures j <= i && IsFirst(mods, j, p)
  {
    j := i;
    if k :| 0 <= k < i && EntryOf(mods[k], p).Some? {
      j := FirstOf(mods, k, p);
    }
  }

  /** Where a path is blocked, said of the modules' own trees. */
  lemma {:induction false} TakenIsBlocked(mods: seq<Module>, i: nat, p: Path)
    requires i <= |mods|
    ensures IsTaken(mods, i, p) <==> Blocks(Union(mods[..i]), p)
    decreases |p|
  {
    hide Look, Union, SupplyOf, EntryOf;
    var u := Union(mods[..i]);
    BlocksIsLeafAbove(u, p);
    UnionIsSupplied(mods[..i], []);
    if Blocks(u, p) {
      var k :| 0 <= k < |p| && Look(u, p[..k]).Some? && Look(u, p[..k]).value.IsLeaf?;
      assert k > 0 by { assert p[..0] == []; }
      UnionIsSupplied(mods[..i], p[..k]);
      var s :| 0 <= s < i && SupplyOf(mods[s], p[..k]) == Look(u, p[..k]);
      ModuleSupplies(mods[s], p[..k]);
      var j := FirstOf(mods, s, p[..k]);
      TakenLeaf(mods, i, j, p[..k]);
      TakenIsBlocked(mods, j, p[..k]);
    }
    if IsTaken(mods, i, p) {
      var j: nat, k: nat :| j < i && 0 < k < |p| && IsFirst(mods, j, p[..k])
                            && !EntryOf(mods[j], p[..k]).value.Dir? && !IsTaken(mods, j, p[..k]);
      TakenIsBlocked(mods, j, p[..k]);
      TakenLeaf(mods, i, j, p[..k]);
    }
  }

  lemma {:induction false} TakenLeaf(mods: seq<Module>, i: nat, j: nat, p: Path)
    requires j < i <= |mods| && p != [] && IsFirst(mods, j, p)
    ensures Look(Union(mods[..i]), p).Some? && Look(Union(mods[..i]), p).value.IsLeaf?
       <==> !EntryOf(mods[j], p).value.Dir? && !Blocks(Union(mods[..j]), p)
  {
    hide Look, Union, SupplyOf, EntryOf;
    assert mods[..i][..j] == mods[..j];
    FirstSupplies(mods[..i], j, p);
    ModuleSupplies(mods[j], p);
  }

  /** What the entry of a module asks for: a directory, nothing but a mark that hides the path, a link to the same
      target, or the file where the module is mounted -- and nothing where the place is taken on the way. */
  ghost predicate IsDecided(mods: seq<Module>, i: nat, p: Path, w: Option<What>)
    requires IsFirst(mods, i, p)
  {
    w == if IsTaken(mods, i, p) then None
         else match EntryOf(mods[i], p).value
              case Dir(_) => Some(IsDir)
              case WhiteoutDevice => Some(IsLeaf(Whiteout))
              case Link(target, _, _) => Some(IsLeaf(Symlink(target)))
              case File(_) => Some(IsLeaf(FileNode(mods[i].mnt + p)))
  }

  predicate HasNoEntry(mods: seq<Module>, p: Path) { forall m | m in mods :: EntryOf(m, p).None? }

  /** A path of the merged tree: what was there, nothing below what is no directory, or what the directory has. */
  ghost predicate Adds(node: FsNode, dir: Tree, at: Path, r: FsNode, p: Path) {
    Look(r, p) == if Look(node, p).Some? then Look(node, p)
                  else if Blocks(node, p) then None
                  else match Walk(dir, p)
                       case None => None
                       case Some(Dir(_)) => Some(IsDir)
                       case Some(WhiteoutDevice) => Some(IsLeaf(Whiteout))
                       case Some(Link(target, _, _)) => Some(IsLeaf(Symlink(target)))
                       case Some(File(_)) => Some(IsLeaf(FileNode(at + p)))
  }

  lemma {:induction false} MergeAdds(node: FsNode, dir: Tree, at: Path, p: Path)
    requires dir.Dir?
    ensures Adds(node, dir, at, Merge(node, dir, at), p)
  {
    MergeLook(node, dir, at, p);
    SupplyIsEntry(dir, at, p);
  }

  /** The first module that has an entry at a path decides what the union has there. */
  lemma {:induction false} FirstEntryDecides(mods: seq<Module>, i: nat, p: Path)
    requires p != [] && IsFirst(mods, i, p)
    ensures IsDecided(mods, i, p, Look(Union(mods), p))
  {
    TakenIsBlocked(mods, i, p);
    FirstSupplies(mods, i, p);
    ModuleSupplies(mods[i], p);
  }

  lemma {:induction false} NoEntryNothing(mods: seq<Module>, p: Path)
    requires p != [] && HasNoEntry(mods, p)
    ensures Look(Union(mods), p).None?
  {
    UnionIsSupplied(mods, p);
    forall i | 0 <= i < |mods| ensures SupplyOf(mods[i], p).None? {
      ModuleSupplies(mods[i], p);
    }
  }

  // ---- the loops ----

  /** The entries of the directory may come in any order. What was there stays, anything else comes from the directory:
      see Adds. */
  method Collect(node: FsNode, dir: Tree, at: Path) returns (r: FsNode)
    requires dir.Dir?
    ensures r == Merge(node, dir, at)
    ensures forall p: Path :: Adds(node, dir, at, r, p)
    decreases dir, 0
  {
    forall p: Path ensures Adds(node, dir, at, Merge(node, dir, at), p) { MergeAdds(node, dir, at, p); }
    if !node.Directory? {
      return node;
    }
    var children := node.children;
    ghost var read: set<Name> := {};
    var unread := dir.entries.Keys;
    assert children == MergeEntries(node.children, dir, at, {});
    while unread != {}
      invariant read !! unread && read + unread == dir.entries.Keys
      invariant children == MergeEntries(node.children, dir, at, read)
      decreases unread
    {
      var name :| name in unread;
      ReadOne(node.children, dir, at, read, name);
      children := CollectEntry(children, name, dir.entries[name], at + [name]);
      read, unread := read + {name}, unread - {name};
    }
    r := Directory(children);
  }

  method CollectEntry(children: map<Name, FsNode>, name: Name, entry: Tree, at: Path)
    returns (r: map<Name, FsNode>)
    ensures r == children[name := MergeEntry(Get(children, name), entry, at)]
    decreases entry, 1
  {
    if entry.Dir? {
      var node := if name in children then children[name] else NewDir;
      node := Collect(node, entry, at);
      r := children[name := node];
    } else if name !in children {
      r := children[name := Leaf(entry, at)];
    } else {
      r := children;
    }
  }

  /** In the end each path has what the first module that has an entry there asks for. */
  method CollectModules(mods: seq<Module>) returns (system: FsNode)
    ensures system == Union(mods)
    ensures forall p: Path, i: nat | p != [] && IsFirst(mods, i, p) :: IsDecided(mods, i, p, Look(system, p))
    ensures forall p: Path | p != [] && HasNoEntry(mods, p) :: Look(system, p).None?
  {
    forall p: Path, i: nat | p != [] && IsFirst(mods, i, p) ensures IsDecided(mods, i, p, Look(Union(mods), p)) {
      FirstEntryDecides(mods, i, p);
    }
    forall p: Path | p != [] && HasNoEntry(mods, p) ensures Look(Union(mods), p).None? { NoEntryNothing(mods, p); }
    hide Look, IsFirst, IsDecided, HasNoEntry;
    system := NewDir;
    for i := 0 to |mods|
      invariant system == Union(mods[..i])
    {
      assert mods[..i + 1][..i] == mods[..i];
      if mods[i].IsLoaded() {
        system := Collect(system, mods[i].Opened(), mods[i].mnt);
      }
    }
    assert mods[..|mods|] == mods;
  }
}
