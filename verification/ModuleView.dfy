/**
  apply_modules of native/src/core/module.rs from end to end: what is visible at a path after the modules are applied,
  said of the entries the modules themselves have there.
 */
module ModuleView {
  import opened Wrappers
  import opened ModuleTree
  import opened ModuleOverlay
  import opened MountSpace

  /** Every module that is collected is mounted where its files are taken from. */
  ghost predicate AreMounted(ms: seq<Module>, mods: Tree) {
    forall m | m in ms && m.IsLoaded() :: At(Some(mods), m.mnt) == m.system
  }

  lemma {:induction false} LookedIsReached(node: FsNode, p: Path)
    requires Look(node, p).Some? && REPLACE !in p
    ensures Reaches(node, p)
    ensures Look(node, p).value == if NodeAt(node, p).Directory? then IsDir else IsLeaf(NodeAt(node, p))
    decreases |p|
  {
    if p != [] {
      LookedIsReached(node.children[p[0]], p[1..]);
    }
  }

  lemma {:induction false} AtFollows(t: Option<Tree>, p: Path, q: Path)
    ensures At(t, p + q) == At(At(t, p), q)
    decreases |p|
  {
    if p == [] {
      assert p + q == q;
    } else {
      assert (p + q)[1..] == p[1..] + q;
      AtFollows(Get(Entries(t), p[0]), p[1..], q);
    }
  }

  lemma {:induction false} WalkedIsAt(t: Tree, p: Path)
    requires Walk(t, p).Some?
    ensures At(Some(t), p) == Walk(t, p)
    decreases |p|
  {
    if p != [] {
      WalkedIsAt(t.entries[p[0]], p[1..]);
    }
  }

  /** What a module has is found where it is mounted. */
  lemma {:induction false} EntryIsMounted(m: Module, mods: Tree, p: Path)
    requires EntryOf(m, p).Some? && p != [] && At(Some(mods), m.mnt) == m.system
    ensures At(Some(mods), m.mnt + p) == EntryOf(m, p)
  {
    var d := m.Opened();
    AtFollows(Some(mods), m.mnt, p);
    WalkedIsAt(d, p);
    assert Entries(m.system) == Entries(Some(d));
  }

  /** The tree shows what an entry of a module asks for at a path. */
  predicate Shows(t: Option<Tree>, e: Tree) {
    match e
    case Dir(_) => t.Some? && t.value.Dir?
    case WhiteoutDevice => t == None
    case Link(target, _, _) => t == Some(Link(target, false, map[]))
    case File(_) => t == Some(e)
  }

  /** A node that an entry decided shows that entry. */
  lemma {:induction false} NodeShowsEntry(node: FsNode, name: Name, base: Option<Tree>, mods: Tree, p: Path, e: Tree,
                                          src: Path)
    requires p != [] && Reaches(node, p) && (e.File? ==> At(Some(mods), src) == Some(e))
    requires var x := NodeAt(node, p);
             match e
             case Dir(_) => x.Directory?
             case WhiteoutDevice => x == Whiteout
             case Link(target, _, _) => x == Symlink(target)
             case File(_) => x == FileNode(src)
    ensures Shows(WalkIn(Overlay(node, name, base, mods), p), e)
  {
    if e.Dir? {
      OverlayIsLocal(node, name, base, mods, p);
    } else {
      LeavesWin(node, name, base, mods, p);
    }
  }

  /** Of the nodes of the union, the one at the path of a first entry is what the entry asks for. */
  lemma {:induction false} NodeOfEntry(ms: seq<Module>, i: nat, p: Path)
    requires p != [] && REPLACE !in p && IsFirst(ms, i, p) && !IsTaken(ms, i, p)
    ensures Reaches(Union(ms), p)
    ensures var x := NodeAt(Union(ms), p);
            match EntryOf(ms[i], p).value
            case Dir(_) => x.Directory?
            case WhiteoutDevice => x == Whiteout
            case Link(target, _, _) => x == Symlink(target)
            case File(_) => x == FileNode(ms[i].mnt + p)
  {
    FirstEntryDecides(ms, i, p);
    LookedIsReached(Union(ms), p);
  }

  /** The overlay shows the entry of the first module that has one: its file, a link to the same target, a directory, or
      nothing where it has a whiteout. */
  lemma {:induction false} OverlayShowsEntry(ms: seq<Module>, i: nat, p: Path, name: Name, base: Option<Tree>,
                                             mods: Tree)
    requires p != [] && REPLACE !in p && IsFirst(ms, i, p) && !IsTaken(ms, i, p) && AreMounted(ms, mods)
    ensures var t := WalkIn(Overlay(Union(ms), name, base, mods), p);
            match EntryOf(ms[i], p).value
            case Dir(_) => t.Some? && t.value.Dir?
            case WhiteoutDevice => t == None
            case Link(target, _, _) => t == Some(Link(target, false, map[]))
            case File(content) => t == Some(File(content))
  {
    NodeOfEntry(ms, i, p);
    EntryIsMounted(ms[i], mods, p);
    NodeShowsEntry(Union(ms), name, base, mods, p, EntryOf(ms[i], p).value, ms[i].mnt + p);
  }

  /** A link to Magisk itself. */
  lemma {:induction false} MagiskLinkShown(node: FsNode, name: Name, base: Option<Tree>, mods: Tree, p: Path)
    requires p != [] && Reaches(node, p) && NodeAt(node, p) == MagiskLink
    ensures WalkIn(Overlay(node, name, base, mods), p)
         == Some(Link(if Last(p) == "supolicy" then "./magiskpolicy" else "./magisk", false, map[]))
  {
    LeavesWin(node, name, base, mods, p);
  }

  // ---- replaced directories ----

  /** The modules put a file of this name into the directory. */
  ghost predicate IsMarked(ms: seq<Module>, p: Path) {
    exists i: nat | IsFirst(ms, i, p + [".replace"]) ::
      EntryOf(ms[i], p + [".replace"]).value.File? && !IsTaken(ms, i, p + [".replace"])
  }

  lemma {:induction false} LookFurther(node: FsNode, p: Path, n: Name)
    requires Reaches(node, p)
    ensures Look(node, p + [n]) == Look(NodeAt(node, p), [n])
  {
    if p == [] {
      assert p + [n] == [n];
    } else {
      assert (p + [n])[1..] == p[1..] + [n];
      LookFurther(node.children[p[0]], p[1..], n);
    }
  }

  lemma {:induction false} LookChild(node: FsNode, n: Name)
    ensures Look(node, [n])
         == if node.Directory? && n in node.children then
              Some(if node.children[n].Directory? then IsDir else IsLeaf(node.children[n]))
            else None
  {
    assert [n][1..] == [];
    if node.Directory? && n in node.children {
      assert Look(node, [n]) == Look(node.children[n], []);
    }
  }

  lemma {:induction false} ReplacedIsMarked(ms: seq<Module>, p: Path)
    requires Reaches(Union(ms), p)
    ensures IsReplaced(NodeAt(Union(ms), p)) <==> IsMarked(ms, p)
  {
    hide Look, Union, IsTaken, EntryOf, SupplyOf;
    var u, r := Union(ms), p + [".replace"];
    LookFurther(u, p, ".replace");
    LookChild(NodeAt(u, p), ".replace");
    if IsReplaced(NodeAt(u, p)) {
      UnionIsSupplied(ms, r);
      var s :| 0 <= s < |ms| && SupplyOf(ms[s], r) == Look(u, r);
      ModuleSupplies(ms[s], r);
      var i := FirstOf(ms, s, r);
      FirstEntryDecides(ms, i, r);
    }
    if IsMarked(ms, p) {
      var i: nat :| IsFirst(ms, i, r) && EntryOf(ms[i], r).value.File? && !IsTaken(ms, i, r);
      FirstEntryDecides(ms, i, r);
    }
  }

  lemma {:induction false} ReachesFront(node: FsNode, p: Path, k: nat)
    requires Reaches(node, p) && k <= |p|
    ensures Reaches(node, p[..k])
  {
    if k > 0 {
      assert p[..k][1..] == p[1..][..k - 1];
      ReachesFront(node.children[p[0]], p[1..], k - 1);
    }
  }

  /** The node at the front of a path is replaced. */
  predicate IsReplacedAt(node: FsNode, p: Path, k: nat) {
    k <= |p| && Reaches(node, p[..k]) && IsReplaced(NodeAt(node, p[..k]))
  }

  lemma {:induction false} IsReplacedBelow(node: FsNode, p: Path, k: nat)
    requires p != [] && Reaches(node, p) && 0 < k <= |p|
    ensures IsReplacedAt(node, p, k) <==> IsReplacedAt(node.children[p[0]], p[1..], k - 1)
  {
    assert p[..k][1..] == p[1..][..k - 1];
  }

  lemma {:induction false} ReplacedAboveIsSome(node: FsNode, p: Path)
    requires Reaches(node, p)
    ensures IsReplacedAbove(node, p) <==> exists k: nat | k < |p| :: IsReplacedAt(node, p, k)
  {
    if p != [] {
      var child := node.children[p[0]];
      ReplacedAboveIsSome(child, p[1..]);
      assert p[..0] == [];
      assert IsReplacedAt(node, p, 0) <==> IsReplaced(node);
      if k: nat :| k < |p[1..]| && IsReplacedAt(child, p[1..], k) {
        IsReplacedBelow(node, p, k + 1);
      }
      if k: nat :| k < |p| && IsReplacedAt(node, p, k) {
        if k > 0 {
          IsReplacedBelow(node, p, k);
        }
      }
    }
  }

  /** Below a directory of the modules, a name that no module has shows what is really there, or nothing if the modules
      mark the directory, or one above it, as replaced. */
  lemma {:induction false} UnmentionedByModules(ms: seq<Module>, i: nat, p: Path, n: Name, q: Path, base: Option<Tree>,
                                                mods: Tree)
    requires REPLACE !in p && HasNoEntry(ms, p + [n])
    requires p != [] ==> IsFirst(ms, i, p) && !IsTaken(ms, i, p) && EntryOf(ms[i], p).value.Dir?
    ensures WalkIn(Overlay(Union(ms), "", base, mods), p + [n] + q)
         == if exists k: nat | k <= |p| :: IsMarked(ms, p[..k]) then None
            else ShownIn(WalkIn(Get(Entries(At(base, p)), n), q))
  {
    hide IsTaken, EntryOf, Union, Overlay, Look, IsMarked, IsReplaced;
    var u := Union(ms);
    UnionIsSupplied(ms, []);
    RootIsDirectory(u);
    if p != [] {
      NodeOfEntry(ms, i, p);
    }
    NoEntryNothing(ms, p + [n]);
    LookFurther(u, p, n);
    LookChild(NodeAt(u, p), n);
    UnmentionedIsMirrored(u, "", base, mods, p, n, q);
    ReplacedAboveIsSome(u, p);
    forall k: nat | k <= |p| ensures IsReplacedAt(u, p, k) <==> IsMarked(ms, p[..k]) {
      ReachesFront(u, p, k);
      ReplacedIsMarked(ms, p[..k]);
    }
    assert p[..|p|] == p;
    assert IsReplacedAt(u, p, |p|) <==> IsReplaced(NodeAt(u, p));
  }

  lemma {:induction false} RootIsDirectory(u: FsNode)
    requires Look(u, []) == Some(IsDir)
    ensures u.Directory? && NodeAt(u, []) == u
  {
  }

  // ---- the partitions ----

  /** What of the modules' tree is kept at a root: a root is never rebuilt, so only what is there already can be mounted
      over, and links are not. */
  lemma RootKeeps(children: map<Name, FsNode>, base: Tree, n: Name)
    requires base.Dir?
    ensures n in Kept(children, base)
       <==> && n in children && n != ".replace" && (children[n].Directory? || children[n].FileNode?)
            && n in base.entries && !base.entries[n].Link?
  {
    assert [n][1..] == [];
    assert At(Some(base), [n]) == At(Get(Entries(Some(base)), n), []);
  }

  /** The partitions that are mounted on their own, by name. */
  lemma PartitionRoots(system: FsNode, v: Tree, n: Name)
    requires system.Directory? && v.Dir?
    ensures n in Roots(system, v)
       <==> n == "system" || (n in {"vendor", "product", "system_ext"} && n in system.children && n in v.entries
                              && v.entries[n].Dir?)
    ensures n in Roots(system, v) && n != "system" ==> Roots(system, v)[n] == system.children[n]
    ensures Roots(system, v)["system"].Directory?
    ensures var rest := Roots(system, v)["system"].children;
            && (n in rest <==> n in system.children && (n == "system" || n !in Roots(system, v)))
            && (n in rest ==> rest[n] == system.children[n])
  {
    assert |"system"| == 6 && |"vendor"| == 6 && |"product"| == 7 && |"system_ext"| == 10;
    assert "system"[0] == 's' && "vendor"[0] == 'v';
  }

  /** Where a path below a root comes from in the modules. */
  function InModules(n: Name, q: Path): Path { if n == "system" then q else [n] + q }

  /** The path belongs to the root: partitions that are roots themselves are no part of the system. */
  predicate IsBelow(v: Tree, n: Name, q: Path)
    requires v.Dir? && q != []
  {
    if n == "system" then q[0] in {"vendor", "product", "system_ext"} && q[0] in v.entries ==> !v.entries[q[0]].Dir?
    else n in {"vendor", "product", "system_ext"} && n in v.entries && v.entries[n].Dir?
  }

  lemma {:induction false} RootReaches(system: FsNode, v: Tree, n: Name, q: Path)
    requires system.Directory? && v.Dir? && q != [] && IsBelow(v, n, q) && Reaches(system, InModules(n, q))
    ensures n in Roots(system, v)
    ensures var root := Roots(system, v)[n];
            root.Directory? && Reaches(root, q) && NodeAt(root, q) == NodeAt(system, InModules(n, q))
  {
    PartitionRoots(system, v, n);
    if n == "system" {
      PartitionRoots(system, v, q[0]);
    } else {
      assert ([n] + q)[1..] == q;
    }
  }

  /** After the modules are applied, every path below a root shows the entry of the first module that has one there --
      its own file, a link to the same target, a directory, nothing where it has a whiteout -- if what the modules ask
      for there can be mounted: the root need not be rebuilt for it, and kinds and replacements agree. */
  lemma {:induction false} AppliedShowsEntry(ms: seq<Module>, v: Tree, mods: Tree, n: Name, q: Path, i: nat)
    requires v.Dir? && "system" in v.entries && v.entries["system"].Dir? && AreMounted(ms, mods)
    requires q != [] && IsBelow(v, n, q) && REPLACE !in q
    requires IsFirst(ms, i, InModules(n, q)) && !IsTaken(ms, i, InModules(n, q))
    ensures Union(ms).Directory? && n in Roots(Union(ms), v) && Roots(Union(ms), v)[n].Directory?
    ensures var roots := Roots(Union(ms), v);
            var kept := Directory(Kept(roots[n].children, v.entries[n]));
            q[0] in kept.children && KindsAgree(kept, v.entries[n]) && ReplacementsAgree(kept, mods) ==>
              var t := WalkIn(Some(Shown(AppliedRoots(v, roots, mods, roots.Keys).entries[n])), q);
              match EntryOf(ms[i], InModules(n, q)).value
              case Dir(_) => t.Some? && t.value.Dir?
              case WhiteoutDevice => t == None
              case Link(target, _, _) => t == Some(Link(target, false, map[]))
              case File(content) => t == Some(File(content))
  {
    hide IsTaken, EntryOf, KindsAgree, ReplacementsAgree, Overlay, Kept, Union, Roots, Outcome, IsFirst;
    var system, p := Union(ms), InModules(n, q);
    assert REPLACE !in p by { PartitionsAreNoMark(); }
    UnionIsSupplied(ms, []);
    NodeOfEntry(ms, i, p);
    EntryFound(ms, i, p);
    RootReaches(system, v, n, q);
    var roots := Roots(system, v);
    var kept := Directory(Kept(roots[n].children, v.entries[n]));
    if q[0] in kept.children && KindsAgree(kept, v.entries[n]) && ReplacementsAgree(kept, mods) {
      CollectedSourcesExist(ms, mods);
      AppliedIsOverlay(system, v, mods, n);
      KeptReaches(roots[n], v.entries[n], q);
      var e := EntryOf(ms[i], p).value;
      EntryIsMounted(ms[i], mods, p);
      NodeShowsEntry(kept, n, Some(v.entries[n]), mods, q, e, ms[i].mnt + p);
      DirectoryStays(kept, n, Some(v.entries[n]), mods);
      ShowsShown(Overlay(kept, n, Some(v.entries[n]), mods), q, e);
    }
  }

  lemma EntryFound(ms: seq<Module>, i: nat, p: Path)
    requires IsFirst(ms, i, p)
    ensures i < |ms| && EntryOf(ms[i], p).Some? && ms[i].IsLoaded() && ms[i] in ms
  {
  }

  lemma PartitionsAreNoMark()
    ensures REPLACE !in ["vendor", "product", "system_ext"]
  {
    assert REPLACE[0] == '.';
  }

  lemma {:induction false} KeptReaches(root: FsNode, base: Tree, q: Path)
    requires root.Directory? && q != [] && q[0] in Kept(root.children, base) && Reaches(root, q)
    ensures var kept := Directory(Kept(root.children, base));
            Reaches(kept, q) && NodeAt(kept, q) == NodeAt(root, q)
  {
  }

  lemma {:induction false} DirectoryStays(node: FsNode, name: Name, base: Option<Tree>, mods: Tree)
    requires node.Directory?
    ensures Overlay(node, name, base, mods).Some?
  {
  }

  lemma ShowsShown(o: Option<Tree>, q: Path, e: Tree)
    requires o.Some? && Shows(WalkIn(o, q), e)
    ensures Shows(WalkIn(Some(Shown(o.value)), q), e)
  {
    WalkShown(o.value, q);
  }
}
