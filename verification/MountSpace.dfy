/**
  commit and commit_tmpfs of native/src/core/module.rs, run against a visible file system and the
  worker directory in which directories are rebuilt before they are moved into place.
 */
module MountSpace {
  import opened Wrappers
  import opened ModuleTree
  import opened ModuleOverlay

  // ---- paths in trees ----

  /** Neither path lies on the way to the other. */
  ghost predicate Apart(p: Path, q: Path) { !(p <= q) && !(q <= p) }

  ghost predicate Antichain(ps: set<Path>) {
    forall p, q | p in ps && q in ps && p != q :: Apart(p, q)
  }

  /** The tree with the subtree at an existing path exchanged. */
  function Mount(t: Tree, p: Path, sub: Tree): Tree {
    if p == [] then sub
    else if t.Dir? && p[0] in t.entries then
      Dir(t.entries[p[0] := Mount(t.entries[p[0]], p[1..], sub)])
    else t
  }

  /** The tree with a new subtree, missing parents being created. */
  function Place(t: Tree, p: Path, sub: Tree): Tree
    decreases |p|
  {
    if p == [] then sub
    else
      var m := if t.Dir? then t.entries else map[];
      Dir(m[p[0] := Place(if p[0] in m then m[p[0]] else Dir(map[]), p[1..], sub)])
  }

  function PlaceIn(t: Tree, p: Path, sub: Option<Tree>): Tree {
    if sub.Some? then Place(t, p, sub.value) else t
  }

  /** Nothing is at the path yet, and what is on the way is a directory. */
  predicate Clear(t: Tree, p: Path) {
    t.Dir? && p != [] && (p[0] in t.entries ==> Clear(t.entries[p[0]], p[1..]))
  }

  lemma {:induction false} AtAppend(t: Option<Tree>, p: Path, n: Name)
    ensures At(t, p + [n]) == Get(Entries(At(t, p)), n)
    decreases |p|
  {
    if p == [] {
      assert [] + [n] == [n];
      assert At(t, [n]) == At(Get(Entries(t), n), []);
    } else {
      assert (p + [n])[1..] == p[1..] + [n];
      AtAppend(Get(Entries(t), p[0]), p[1..], n);
    }
  }

  /** Where no link is on the way, following links makes no difference. */
  lemma {:induction false} AtIsWalk(t: Tree, p: Path)
    requires Walk(t, p).Some?
    ensures At(Some(t), p) == Walk(t, p)
  {
    if p != [] {
      AtIsWalk(t.entries[p[0]], p[1..]);
    }
  }

  lemma {:induction false} WalkMount(t: Tree, p: Path, sub: Tree, q: Path)
    requires Walk(t, p).Some?
    ensures Walk(Mount(t, p, sub), p + q) == Walk(sub, q)
    ensures forall r | Apart(p, r) :: Walk(Mount(t, p, sub), r) == Walk(t, r)
  {
    if p == [] {
      assert p + q == q;
    } else {
      var n := p[0];
      assert (p + q)[1..] == p[1..] + q;
      WalkMount(t.entries[n], p[1..], sub, q);
      forall r | Apart(p, r) ensures Walk(Mount(t, p, sub), r) == Walk(t, r) {
        assert r != [];
        if r[0] == n {
          assert r == [n] + r[1..] && p == [n] + p[1..];
          assert Apart(p[1..], r[1..]);
        }
      }
    }
  }

  lemma {:induction false} MountTwice(t: Tree, p: Path, mid: Tree, n: Name, sub: Tree)
    requires Walk(t, p).Some? && mid.Dir? && n in mid.entries
    ensures Mount(Mount(t, p, mid), p + [n], sub) == Mount(t, p, Dir(mid.entries[n := sub]))
  {
    if p == [] {
      assert p + [n] == [n];
      assert Mount(mid.entries[n], [], sub) == sub;
    } else {
      assert (p + [n])[1..] == p[1..] + [n];
      MountTwice(t.entries[p[0]], p[1..], mid, n, sub);
      var m := t.entries;
      var k := p[0];
      assert m[k := Mount(m[k], p[1..], mid)][k := Mount(Mount(m[k], p[1..], mid), p[1..] + [n], sub)]
          == m[k := Mount(m[k], p[1..], Dir(mid.entries[n := sub]))];
    }
  }

  lemma {:induction false} MountSame(t: Tree, p: Path)
    requires Walk(t, p).Some?
    ensures Mount(t, p, Walk(t, p).value) == t
  {
    if p != [] {
      MountSame(t.entries[p[0]], p[1..]);
    }
  }

  lemma {:induction false} PlaceTwice(t: Tree, p: Path, m: map<Name, Tree>, n: Name, sub: Tree)
    requires n !in m
    ensures Place(Place(t, p, Dir(m)), p + [n], sub) == Place(t, p, Dir(m[n := sub]))
    decreases |p|
  {
    if p == [] {
      assert p + [n] == [n];
      assert Place(Dir(map[]), [], sub) == sub;
    } else {
      assert (p + [n])[1..] == p[1..] + [n];
      var e := if t.Dir? then t.entries else map[];
      var c := if p[0] in e then e[p[0]] else Dir(map[]);
      PlaceTwice(c, p[1..], m, n, sub);
      var k := p[0];
      assert e[k := Place(c, p[1..], Dir(m))][k := Place(c, p[1..], Dir(m[n := sub]))]
          == e[k := Place(c, p[1..], Dir(m[n := sub]))];
    }
  }

  /** What was just placed is found again; below it only what it holds is taken, and elsewhere
      what was free stays free. */
  lemma {:induction false} ClearPlace(t: Tree, p: Path, sub: Tree)
    requires Clear(t, p)
    ensures Walk(Place(t, p, sub), p) == Some(sub)
    ensures forall n | sub.Dir? && n !in sub.entries :: Clear(Place(t, p, sub), p + [n])
    ensures forall r | Apart(p, r) && Clear(t, r) :: Clear(Place(t, p, sub), r)
    decreases |p|
  {
    var n := p[0];
    var c := if n in t.entries then t.entries[n] else Dir(map[]);
    if p[1..] != [] {
      ClearPlace(c, p[1..], sub);
    }
    forall k | sub.Dir? && k !in sub.entries ensures Clear(Place(t, p, sub), p + [k]) {
      assert (p + [k])[1..] == p[1..] + [k];
      if p[1..] == [] {
        assert Place(c, [], sub) == sub;
        assert p[1..] + [k] == [k];
      }
    }
    forall r | Apart(p, r) && Clear(t, r) ensures Clear(Place(t, p, sub), r) {
      if r[0] == n {
        assert r == [n] + r[1..] && p == [n] + p[1..];
        assert Apart(p[1..], r[1..]);
        assert r[1..] != [];
        assert Clear(c, r[1..]);
      }
    }
  }

  lemma {:induction false} ClearBelow(t: Tree, p: Path, n: Name)
    requires Clear(t, p)
    ensures Clear(t, p + [n])
  {
    assert (p + [n])[1..] == p[1..] + [n];
    if p[0] in t.entries {
      ClearBelow(t.entries[p[0]], p[1..], n);
    }
  }

  lemma ApartBelow(p: Path, r: Path, n: Name)
    requires Apart(p, r)
    ensures Apart(p + [n], r)
  {
    assert p <= p + [n];
    assert |r| <= |p| ==> (r <= p + [n] ==> r <= p);
  }

  /** The path goes through one of the named entries of p. */
  ghost predicate Through(p: Path, names: set<Name>, q: Path) {
    |q| > |p| && p <= q && q[|p|] in names
  }

  lemma ApartSiblings(p: Path, n: Name, names: set<Name>, q: Path)
    requires n !in names && Through(p, names, q)
    ensures Apart(q, p + [n])
  {
    assert (p + [n])[|p|] == n;
  }

  /** One more child committed in place. */
  lemma {:induction false} CommittedMore(node: FsNode, base: Tree, mods: Tree, done: set<Name>, n: Name)
    requires node.Directory? && base.Dir? && done + {n} <= node.children.Keys && n !in done && n in base.entries
    ensures var c := CommittedEntries(node, base, mods, done);
            && c.Dir? && n in c.entries && c.entries[n] == base.entries[n]
            && CommittedEntries(node, base, mods, done + {n})
               == Dir(c.entries[n := Committed(node.children[n], base.entries[n], mods)])
  {
    assert n in {n};
  }

  lemma {:induction false} BuiltMore(node: FsNode, base: Option<Tree>, mods: Tree, done: set<Name>, n: Name)
    requires node.Directory? && n !in done
    ensures n !in BuiltEntries(node, base, mods, done)
    ensures BuiltEntries(node, base, mods, done + {n})
         == match BuiltEntry(node, n, base, mods)
            case Some(t) => BuiltEntries(node, base, mods, done)[n := t]
            case None => BuiltEntries(node, base, mods, done)
  {
  }

  /** One more entry of a directory under construction. */
  lemma {:induction false} PlaceEntry(t: Tree, p: Path, node: FsNode, base: Option<Tree>, mods: Tree, done: set<Name>,
                                      n: Name)
    requires node.Directory? && n !in done
    ensures PlaceIn(Place(t, p, Dir(BuiltEntries(node, base, mods, done))), p + [n], BuiltEntry(node, n, base, mods))
         == Place(t, p, Dir(BuiltEntries(node, base, mods, done + {n})))
  {
    BuiltMore(node, base, mods, done, n);
    var e := BuiltEntry(node, n, base, mods);
    if e.Some? {
      PlaceTwice(t, p, BuiltEntries(node, base, mods, done), n, e.value);
    }
  }

  /** What commit leaves at its path. */
  function Outcome(node: FsNode, base: Tree, mods: Tree, isRoot: bool): Tree {
    if isRoot && node.Directory? then CommittedEntries(node, base, mods, Kept(node.children, base).Keys)
    else Committed(node, base, mods)
  }

  // ---- the mount space ----

  class MountSpace {
    var visible: Tree           // the file system as processes see it
    var worker: Tree            // the tmpfs in which directories are rebuilt
    var unhandled: nat          // how often "parent should be tmpfs" was reported
    ghost var mounted: set<Path>  // the real paths that were mounted over
    const mods: Tree            // the module files

    /** mkdir, create and symlink fail when the parent is missing or the name is taken. */
    method Create(path: Path, t: Tree)
      requires path != [] && Clear(worker, path) && Walk(worker, ParentDir(path)).Some?
      modifies this`worker
      ensures worker == Place(old(worker), path, t)
    {
      worker := Place(worker, path, t);
    }

    /** mount_dummy: an empty placeholder, then the source bound over it. */
    method MountDummy(path: Path, source: Option<Tree>, isDir: bool)
      requires path != [] && Clear(worker, path) && Walk(worker, ParentDir(path)).Some?
      modifies this`worker
      ensures worker == Place(old(worker), path, Bind(if isDir then Dir(map[]) else File(""), source))
    {
      Create(path, Bind(if isDir then Dir(map[]) else File(""), source));
    }

    /** commit_tmpfs of a node that is not a directory. */
    method CommitLeaf(node: FsNode, path: Path)
      requires !node.Directory?
      requires path != [] && Clear(worker, path) && Walk(worker, ParentDir(path)).Some?
      modifies this`worker
      ensures worker == PlaceIn(old(worker), path, Built(node, Last(path), At(Some(visible), path), mods))
    {
      match node
      case FileNode(src) => MountDummy(path, At(Some(mods), src), false);
      case Symlink(target) => Create(path, NewLink(target));
      case MagiskLink =>
        if Last(path) == "supolicy" {
          Create(path, NewLink("./magiskpolicy"));
        } else {
          Create(path, NewLink("./magisk"));
        }
      case Whiteout =>
    }

    /** The mirror of one real entry that no module mentions. */
    method MirrorEntry(path: Path, entry: Tree)
      requires path != [] && Clear(worker, path) && Walk(worker, ParentDir(path)).Some?
      requires At(Some(visible), path) == Some(entry)
      modifies this`worker
      ensures worker == Place(old(worker), path, Shown(entry))
      decreases 0, NewDir, entry, 3
    {
      match entry
      case Dir(_) =>
        CommitTmpfs(NewDir, path);
        RebuildIsIdentity(Last(path), entry, mods);
      case Link(target, _, _) => CommitLeaf(Symlink(target), path);
      case _ => MountDummy(path, Some(entry), false);
    }

    ghost function Rank(node: FsNode): nat {
      if node.Directory? && node.children != map[] then 1 else 0
    }

    ghost function Real(path: Path): Tree
      reads this`visible
    {
      At(Some(visible), path).GetOr(File(""))
    }

    /** One entry of a directory under construction: from a module, or mirrored. */
    method CommitEntry(node: FsNode, path: Path, n: Name, ghost w: Tree, ghost done: set<Name>)
      requires node.Directory? && path != [] && Clear(w, path)
      requires worker == Place(w, path, Dir(BuiltEntries(node, At(Some(visible), path), mods, done)))
      requires n in Names(node, At(Some(visible), path)) && n !in done
      modifies this`worker
      ensures worker == Place(w, path, Dir(BuiltEntries(node, At(Some(visible), path), mods, done + {n})))
      decreases Rank(node), node, Real(path), 0
    {
      ghost var base := At(Some(visible), path);
      ClearPlace(w, path, Dir(BuiltEntries(node, base, mods, done)));
      PlaceEntry(w, path, node, base, mods, done, n);
      AtAppend(Some(visible), path, n);
      assert ParentDir(path + [n]) == path && Last(path + [n]) == n;
      if n in node.children && n != REPLACE {
        var child := node.children[n];
        if child.Directory? {
          if IsReplaced(node) {
            MountDummy(path + [n], At(Some(mods), ParentDir(node.children[REPLACE].src) + [n]), true);
          } else {
            CommitTmpfs(child, path + [n]);
          }
        } else {
          CommitLeaf(child, path + [n]);
        }
      } else {
        MirrorEntry(path + [n], Entries(At(Some(visible), path))[n]);
      }
    }

    /** A loop over directory entries; the order does not matter. */
    method CommitEntries(node: FsNode, path: Path, names: set<Name>, ghost w: Tree, ghost done: set<Name>)
      requires node.Directory? && path != [] && Clear(w, path)
      requires worker == Place(w, path, Dir(BuiltEntries(node, At(Some(visible), path), mods, done)))
      requires names <= Names(node, At(Some(visible), path)) && names !! done
      modifies this`worker
      ensures worker == Place(w, path, Dir(BuiltEntries(node, At(Some(visible), path), mods, done + names)))
      decreases Rank(node), node, Real(path), 1
    {
      var rest := names;
      ghost var ready := done;
      while rest != {}
        invariant rest <= names && ready !! rest && ready + rest == done + names
        invariant worker == Place(w, path, Dir(BuiltEntries(node, At(Some(visible), path), mods, ready)))
        decreases rest
      {
        var n :| n in rest;
        CommitEntry(node, path, n, w, ready);
        ready, rest := ready + {n}, rest - {n};
      }
      assert ready == done + names;
    }

    /** commit_tmpfs of a directory: build the overlay in the worker directory. */
    method CommitTmpfs(node: FsNode, path: Path)
      requires node.Directory? && path != [] && Clear(worker, path)
      modifies this`worker
      ensures worker == PlaceIn(old(worker), path, Built(node, Last(path), At(Some(visible), path), mods))
      decreases Rank(node), node, Real(path), 2
    {
      ghost var w := worker;
      ghost var base := At(Some(visible), path);
      worker := Place(worker, path, Dir(map[]));
      assert BuiltEntries(node, base, mods, {}) == map[];
      var names := node.children.Keys - {REPLACE};
      var mirrored := {};
      if !IsReplaced(node) {
        mirrored := Entries(At(Some(visible), path)).Keys - names;
        CommitEntries(node, path, mirrored, w, {});
        assert {} + mirrored == mirrored;
      }
      CommitEntries(node, path, names, w, mirrored);
      assert mirrored + names == Names(node, base);
    }

    /** A place commit can work on: it exists, nothing was built or mounted there yet. */
    ghost predicate IsFresh(path: Path)
      reads this
    {
      && path != [] && Walk(visible, path).Some? && !Walk(visible, path).value.Link?
      && Clear(worker, path)
      && Antichain(mounted) && (forall q | q in mounted :: Apart(q, path))
    }

    method BindMount(path: Path, source: Option<Tree>)
      requires Walk(visible, path).Some?
      modifies this`visible, this`mounted
      ensures visible == Mount(old(visible), path, Bind(Walk(old(visible), path).value, source))
      ensures mounted == old(mounted) + {path}
    {
      visible := Mount(visible, path, Bind(Walk(visible, path).value, source));
      mounted := mounted + {path};
    }

    /** The first pass: is a rebuild needed? A root drops the children that would need one. */
    method Retain(children: map<Name, FsNode>, path: Path, isRoot: bool)
      returns (kept: set<Name>, isTmpfs: bool)
      requires Walk(visible, path).Some?
      ensures isRoot ==> !isTmpfs && kept == Kept(children, Walk(visible, path).value).Keys
      ensures !isRoot ==> isTmpfs == NeedsTmpfs(children, Walk(visible, path).value) && kept == children.Keys
    {
      kept, isTmpfs := children.Keys, false;
      ghost var base := Walk(visible, path).value;
      AtIsWalk(visible, path);
      var rest := children.Keys;
      while rest != {}
        invariant rest <= children.Keys
        invariant isRoot ==> !isTmpfs
        invariant kept <= children.Keys
        invariant forall n | n in children :: n in kept <==> !isRoot || n in rest || !ForcesTmpfs(children, base, n)
        invariant isTmpfs ==> NeedsTmpfs(children, base)
        invariant !isRoot && !isTmpfs ==> forall n | n in children.Keys - rest :: !ForcesTmpfs(children, base, n)
        decreases rest
      {
        var n :| n in rest;
        AtAppend(Some(visible), path, n);
        AtAppend(Some(base), [], n);
        assert [] + [n] == [n];
        if n == REPLACE || ParentShouldBeTmpfs(children[n], At(Some(visible), path + [n])) {
          if isRoot {
            kept := kept - {n};
          } else {
            isTmpfs := true;
          }
        }
        rest := rest - {n};
      }
    }

    method Commit(node: FsNode, path: Path, isRoot: bool)
      requires IsFresh(path)
      modifies this
      ensures visible == Mount(old(visible), path, Outcome(node, Walk(old(visible), path).value, mods, isRoot))
      ensures Antichain(mounted) && old(mounted) <= mounted
      ensures forall q | q in mounted && q !in old(mounted) :: path <= q
      ensures forall r | Apart(path, r) && Clear(old(worker), r) :: Clear(worker, r)
      ensures unhandled == old(unhandled) + (if node.Directory? || node.FileNode? then 0 else 1)
      decreases node, 1
    {
      ghost var base := Walk(visible, path).value;
      match node
      case Directory(children) =>
        var kept, isTmpfs := Retain(children, path, isRoot);
        if isTmpfs {
          ghost var w := worker;
          CommitTmpfs(node, path);
          AtIsWalk(visible, path);
          ClearPlace(w, path, Built(node, Last(path), Some(base), mods).value);
          BindMount(path, Walk(worker, path));
        } else {
          CommitChildren(node, path, kept);
        }
      case FileNode(src) => BindMount(path, At(Some(mods), src));
      case _ =>
        unhandled := unhandled + 1;
        MountSame(visible, path);
    }

    /** Committing the children of a directory that is not rebuilt. */
    method CommitChildren(node: FsNode, path: Path, kept: set<Name>)
      requires IsFresh(path) && node.Directory? && kept <= node.children.Keys
      requires forall n | n in kept :: !ForcesTmpfs(node.children, Walk(visible, path).value, n)
      modifies this
      ensures visible == Mount(old(visible), path, CommittedEntries(node, Walk(old(visible), path).value, mods, kept))
      ensures Antichain(mounted) && old(mounted) <= mounted
      ensures forall q | q in mounted && q !in old(mounted) :: path <= q
      ensures forall r | Apart(path, r) && Clear(old(worker), r) :: Clear(worker, r)
      ensures unhandled == old(unhandled)
      decreases node, 0, 1
    {
      ghost var base := Walk(visible, path).value;
      var rest := kept;
      ghost var done: set<Name> := {};
      MountSame(visible, path);
      assert CommittedEntries(node, base, mods, {}) == base;
      forall n | n in kept ensures Clear(worker, path + [n]) { ClearBelow(worker, path, n); }
      while rest != {}
        invariant done !! rest && done + rest == kept
        invariant IsMidway(node, path, base, old(visible), old(worker), old(mounted), done, rest)
        invariant unhandled == old(unhandled)
        decreases rest
      {
        var n :| n in rest;
        CommitChild(node, path, n, base, old(visible), old(worker), old(mounted), done, rest);
        done, rest := done + {n}, rest - {n};
      }
      assert done == kept;
    }

    /** The children in `done` are committed, those in `rest` are not, nothing else changed. */
    ghost predicate IsMidway(node: FsNode, path: Path, base: Tree, v: Tree, w: Tree, before: set<Path>,
                             done: set<Name>, rest: set<Name>)
      requires node.Directory? && done <= node.children.Keys
      reads this
    {
      && visible == Mount(v, path, CommittedEntries(node, base, mods, done))
      && Antichain(mounted) && before <= mounted
      && (forall q | q in mounted && q !in before :: Through(path, done, q))
      && (forall n | n in rest :: Clear(worker, path + [n]))
      && (forall r | Apart(path, r) && Clear(w, r) :: Clear(worker, r))
    }

    method CommitChild(node: FsNode, path: Path, n: Name, ghost base: Tree, ghost v: Tree, ghost w: Tree,
                       ghost before: set<Path>, ghost done: set<Name>, ghost rest: set<Name>)
      requires node.Directory? && path != [] && done + rest <= node.children.Keys && n in rest && done !! rest
      requires Walk(v, path) == Some(base) && !base.Link? && !ForcesTmpfs(node.children, base, n)
      requires forall q | q in before :: Apart(q, path)
      requires IsMidway(node, path, base, v, w, before, done, rest)
      modifies this
      ensures IsMidway(node, path, base, v, w, before, done + {n}, rest - {n})
      ensures unhandled == old(unhandled)
      decreases node, 0, 0
    {
      AtAppend(Some(base), [], n);
      assert [] + [n] == [n];
      CommittedMore(node, base, mods, done, n);
      ghost var c := CommittedEntries(node, base, mods, done);
      WalkMount(v, path, c, [n]);
      assert Walk(c, [n]) == Walk(c.entries[n], []);
      forall q | q in mounted ensures Apart(q, path + [n]) {
        if q in before {
          ApartBelow(path, q, n);
        } else {
          ApartSiblings(path, n, done, q);
        }
      }
      Commit(node.children[n], path + [n], false);
      forall q | q in mounted && q !in before ensures Through(path, done + {n}, q) {
        if q !in old(mounted) {
          assert (path + [n])[|path|] == q[|path|];
        }
      }
      MountTwice(v, path, c, n, Committed(node.children[n], base.entries[n], mods));
      forall k | k in rest - {n} ensures Clear(worker, path + [k]) {
        ApartSiblings(path, k, {n}, path + [n]);
      }
      forall r | Apart(path, r) && Clear(w, r) ensures Clear(worker, r) {
        ApartBelow(path, r, n);
      }
    }

    /** Steps 3 and 4 of apply_modules: split off the partitions that are directories of their
        own in the root directory, then commit every root. */
    method ApplyTree(system: FsNode)
      requires system.Directory? && visible.Dir? && worker == Dir(map[]) && mounted == {}
      requires "system" in visible.entries && visible.entries["system"].Dir?
      modifies this
      ensures visible == AppliedRoots(old(visible), Roots(system, old(visible)), mods, Roots(system, old(visible)).Keys)
      ensures Antichain(mounted)
    {
      var children := system.children;
      var roots: map<Name, FsNode> := map[];
      for i := 0 to |SECONDARY_PARTITIONS|
        invariant children == system.children - Extracted(system, visible, SECONDARY_PARTITIONS[..i])
        invariant roots == ExtractedNodes(system, visible, SECONDARY_PARTITIONS[..i])
      {
        var name := SECONDARY_PARTITIONS[i];
        assert SECONDARY_PARTITIONS[..i + 1] == SECONDARY_PARTITIONS[..i] + [name];
        if name in visible.entries && visible.entries[name].Dir? && name in children {
          roots := roots[name := children[name]];
          children := children - {name};
        }
      }
      assert SECONDARY_PARTITIONS[..|SECONDARY_PARTITIONS|] == SECONDARY_PARTITIONS;
      roots := roots["system" := Directory(children)];
      CommitRoots(roots);
    }

    method CommitRoots(roots: map<Name, FsNode>)
      requires visible.Dir? && worker == Dir(map[]) && mounted == {}
      requires forall n | n in roots :: n in visible.entries && visible.entries[n].Dir?
      modifies this
      ensures visible == AppliedRoots(old(visible), roots, mods, roots.Keys)
      ensures Antichain(mounted)
    {
      var rest := roots.Keys;
      ghost var v := visible;
      ghost var done: set<Name> := {};
      NoRootApplied(v, roots, mods);
      while rest != {}
        invariant done !! rest && done + rest == roots.Keys
        invariant AreRootsMidway(roots, v, done, rest)
        decreases rest
      {
        var n :| n in rest;
        CommitOneRoot(roots, n, v, done, rest);
        done, rest := done + {n}, rest - {n};
      }
      assert done == roots.Keys;
    }

    ghost predicate AreRootsMidway(roots: map<Name, FsNode>, v: Tree, done: set<Name>, rest: set<Name>)
      requires v.Dir? && done <= roots.Keys
      reads this
    {
      && visible == AppliedRoots(v, roots, mods, done)
      && Antichain(mounted) && (forall q | q in mounted :: Through([], done, q))
      && (forall n | n in rest :: Clear(worker, [n]))
    }

    method CommitOneRoot(roots: map<Name, FsNode>, n: Name, ghost v: Tree, ghost done: set<Name>, ghost rest: set<Name>)
      requires v.Dir? && done + rest <= roots.Keys && done !! rest && n in rest
      requires forall k | k in roots :: k in v.entries && v.entries[k].Dir?
      requires AreRootsMidway(roots, v, done, rest)
      modifies this
      ensures AreRootsMidway(roots, v, done + {n}, rest - {n})
    {
      assert [] + [n] == [n];
      assert Walk(visible, [n]) == Walk(visible.entries[n], []);
      forall q | q in mounted ensures Apart(q, [n]) { ApartSiblings([], n, done, q); }
      Commit(roots[n], [n], true);
      assert AppliedRoots(v, roots, mods, done + {n})
          == Dir(AppliedRoots(v, roots, mods, done).entries[n := Outcome(roots[n], v.entries[n], mods, true)]);
    }
  }

  /** What the roots look like after those in `done` were committed. */
  function AppliedRoots(v: Tree, roots: map<Name, FsNode>, mods: Tree, done: set<Name>): Tree
    requires v.Dir? && done <= roots.Keys
  {
    Dir(map n | n in v.entries ::
          if n in done then Outcome(roots[n], v.entries[n], mods, true) else v.entries[n])
  }

  lemma NoRootApplied(v: Tree, roots: map<Name, FsNode>, mods: Tree)
    requires v.Dir?
    ensures AppliedRoots(v, roots, mods, {}) == v
  {
  }

  const SECONDARY_PARTITIONS: seq<Name> := ["vendor", "product", "system_ext"]

  /** The listed partitions that the modules touch and that are directories in the root. */
  function Extracted(system: FsNode, root: Tree, names: seq<Name>): set<Name>
    requires system.Directory? && root.Dir?
  {
    set n | n in names && n in system.children && n in root.entries && root.entries[n].Dir?
  }

  function ExtractedNodes(system: FsNode, root: Tree, names: seq<Name>): map<Name, FsNode>
    requires system.Directory? && root.Dir?
  {
    map n | n in Extracted(system, root, names) :: system.children[n]
  }

  function Roots(system: FsNode, root: Tree): map<Name, FsNode>
    requires system.Directory? && root.Dir?
  {
    ExtractedNodes(system, root, SECONDARY_PARTITIONS)
      ["system" := Directory(system.children - Extracted(system, root, SECONDARY_PARTITIONS))]
  }

  /** The end to end statement: after the modules are applied, every partition root shows the
      overlay of its part of the collected tree, less what would need the root rebuilt -- exactly
      when the kinds and the replacements agree -- and every other root entry is as before. */
  lemma {:induction false} AppliedIsOverlay(system: FsNode, v: Tree, mods: Tree, n: Name)
    requires system.Directory? && v.Dir? && "system" in v.entries && v.entries["system"].Dir?
    requires n in v.entries && SourcesExist(system, mods)
    ensures var roots := Roots(system, v);
            var after := AppliedRoots(v, roots, mods, roots.Keys);
            if n in roots && roots[n].Directory? then
              var kept := Directory(Kept(roots[n].children, v.entries[n]));
              (Shown(after.entries[n]) == Shown(Overlay(kept, n, Some(v.entries[n]), mods).value)
               <==> KindsAgree(kept, v.entries[n]) && ReplacementsAgree(kept, mods))
            else
              after.entries[n] == v.entries[n]
  {
    hide KindsAgree, ReplacementsAgree, Overlay, Kept, Committed, Shown;
    var roots := Roots(system, v);
    if n in roots {
      RootNodes(system, v, mods, n);
    }
    if n in roots && roots[n].Directory? {
      RootIsOverlay(roots[n].children, n, v.entries[n], mods);
      KeptOutcome(roots[n], v.entries[n], mods);
    } else if n in roots {
      LeafRoot(roots[n], v.entries[n], mods);
    }
  }

  lemma {:induction false} RootNodes(system: FsNode, v: Tree, mods: Tree, n: Name)
    requires system.Directory? && v.Dir? && "system" in v.entries && v.entries["system"].Dir?
    requires n in v.entries && SourcesExist(system, mods) && n in Roots(system, v)
    ensures v.entries[n].Dir? && SourcesExist(Roots(system, v)[n], mods)
  {
  }

  /** A root that is not a directory of the modules stays as it is. */
  lemma {:induction false} LeafRoot(node: FsNode, base: Tree, mods: Tree)
    requires !node.Directory? && base.Dir? && SourcesExist(node, mods)
    ensures Outcome(node, base, mods, true) == base
  {
  }

  lemma {:induction false} KeptOutcome(node: FsNode, base: Tree, mods: Tree)
    requires node.Directory? && base.Dir?
    ensures Outcome(node, base, mods, true) == Committed(Directory(Kept(node.children, base)), base, mods)
  {
    var kept := Directory(Kept(node.children, base));
    assert forall n | n in kept.children :: ForcesTmpfs(kept.children, base, n) == ForcesTmpfs(node.children, base, n);
    assert !NeedsTmpfs(kept.children, base);
    assert CommittedEntries(kept, base, mods, kept.children.Keys)
           == CommittedEntries(node, base, mods, kept.children.Keys);
  }

  // ---- the files of a collected tree can be mounted ----

  lemma {:induction false} MergedSourcesExist(node: FsNode, dir: Tree, at: Path, mods: Tree)
    requires dir.Dir? && Entries(At(Some(mods), at)) == dir.entries && SourcesExist(node, mods)
    ensures SourcesExist(Merge(node, dir, at), mods)
    decreases dir, 1
  {
    if node.Directory? {
      var children := MergeEntries(node.children, dir, at, dir.entries.Keys);
      forall n | n in children ensures SourcesExist(children[n], mods) {
        if n in dir.entries {
          AtAppend(Some(mods), at, n);
          MergedSourceExists(Get(node.children, n), dir.entries[n], at + [n], mods);
        }
      }
    }
  }

  lemma {:induction false} MergedSourceExists(prev: Option<FsNode>, entry: Tree, at: Path, mods: Tree)
    requires At(Some(mods), at) == Some(entry) && (prev.Some? ==> SourcesExist(prev.value, mods))
    ensures SourcesExist(MergeEntry(prev, entry, at), mods)
    decreases entry, 2
  {
    if entry.Dir? {
      MergedSourcesExist(prev.GetOr(NewDir), entry, at, mods);
    }
  }

  /** Every file node of the union points at a file its module really has. */
  lemma {:induction false} CollectedSourcesExist(ms: seq<Module>, mods: Tree)
    requires forall m | m in ms && m.IsLoaded() :: At(Some(mods), m.mnt) == m.system
    ensures SourcesExist(Union(ms), mods)
  {
    if ms != [] {
      var last := ms[|ms| - 1];
      CollectedSourcesExist(ms[..|ms| - 1], mods);
      if last.IsLoaded() {
        MergedSourcesExist(Union(ms[..|ms| - 1]), last.Opened(), last.mnt, mods);
      }
    }
  }

  // ---- what a replacing module must supply ----

  /** No whiteout and no .replace file anywhere below. */
  predicate IsPlainTree(t: Tree) {
    !t.WhiteoutDevice? && (t.Dir? ==> forall n | n in t.entries :: n != REPLACE && IsPlainTree(t.entries[n]))
  }

  /** A directory that comes wholly from the replacing module is shown as it should be exactly when there is no
      whiteout and no .replace file below it. */
  lemma {:induction false} OwnTreeMirrors(t: Tree, at: Path, name: Name, mods: Tree)
    requires At(Some(mods), at) == Some(t)
    ensures Mirrors(MergeEntry(None, t, at), name, t, mods) <==> IsPlainTree(t)
    decreases t
  {
    if t.Dir? {
      var children := MergeEntries(map[], t, at, t.entries.Keys);
      forall n | n in t.entries
        ensures n in children && (Mirrors(children[n], n, t.entries[n], mods) <==> IsPlainTree(t.entries[n]))
      {
        AtAppend(Some(mods), at, n);
        OwnTreeMirrors(t.entries[n], at + [n], n, mods);
      }
    }
  }

  /** A directory with one entry. */
  function Only(n: Name, t: Tree): Tree { Dir(map[n := t]) }

  lemma {:induction false} MergeOnly(n: Name, t: Tree, at: Path)
    ensures Merge(NewDir, Only(n, t), at) == Directory(map[n := MergeEntry(None, t, at + [n])])
  {
    assert MergeEntries(map[], Only(n, t), at, {n}) == map[n := MergeEntry(None, t, at + [n])];
  }

  lemma {:induction false} AddOnly(node: FsNode, n: Name, t: Tree, at: Path)
    requires node.Directory?
    ensures Merge(node, Only(n, t), at) == Directory(node.children[n := MergeEntry(Get(node.children, n), t, at + [n])])
  {
    assert MergeEntries(node.children, Only(n, t), at, {n})
        == node.children[n := MergeEntry(Get(node.children, n), t, at + [n])];
  }

  /** A module that replaces a directory, and one that puts a file below a directory of it. */
  function Replacing(): Tree { Only("app", Only(REPLACE, File(""))) }

  function Adding(file: Tree): Tree { Only("app", Only("X", Only("x", file))) }

  /** What the two ask for in that directory. */
  function BothAsk(): FsNode {
    Directory(map[REPLACE := FileNode(["a", "app", REPLACE]),
                  "X" := Directory(map["x" := FileNode(["b", "app", "X", "x"])])])
  }

  /** What the first of them asks for alone. */
  function FirstAsks(): FsNode { Directory(map[REPLACE := FileNode(["a", "app", REPLACE])]) }

  lemma OneModule()
    ensures Union([Module(false, ["a"], Some(Replacing()))]) == Directory(map["app" := FirstAsks()])
  {
    hide Merge;
    var a := Module(false, ["a"], Some(Replacing()));
    assert [a][..0] == [];
    MergeOnly(REPLACE, File(""), ["a", "app"]);
    MergeOnly("app", Only(REPLACE, File("")), ["a"]);
    assert ["a"] + ["app"] == ["a", "app"] && ["a", "app"] + [REPLACE] == ["a", "app", REPLACE];
  }

  lemma TwoModules(file: Tree)
    requires file.File?
    ensures Union([Module(false, ["a"], Some(Replacing())), Module(false, ["b"], Some(Adding(file)))])
         == Directory(map["app" := BothAsk()])
  {
    hide Merge;
    var a, b := Module(false, ["a"], Some(Replacing())), Module(false, ["b"], Some(Adding(file)));
    assert [a, b][..1] == [a];
    OneModule();
    MergeOnly("x", file, ["b", "app", "X"]);
    assert ["b", "app", "X"] + ["x"] == ["b", "app", "X", "x"];
    AddOnly(FirstAsks(), "X", Only("x", file), ["b", "app"]);
    assert ["b", "app"] + ["X"] == ["b", "app", "X"];
    AddOnly(Directory(map["app" := FirstAsks()]), "app", Only("X", Only("x", file)), ["b"]);
    assert ["b"] + ["app"] == ["b", "app"];
  }

  /** There the file should be visible and is not: the directory of the replacing module is bound, and it has none. */
  lemma ReplaceHidesOthers(file: Tree)
    requires file.File?
    ensures var mods := Dir(map["a" := Replacing(), "b" := Adding(file)]);
            && WalkIn(Overlay(BothAsk(), "app", None, mods), ["X", "x"]) == Some(file)
            && WalkIn(Built(BothAsk(), "app", None, mods), ["X"]) == Some(Dir(map[]))
  {
    var mods := Dir(map["a" := Replacing(), "b" := Adding(file)]);
    var app := BothAsk();
    SourceOf(file, mods);
    assert app.children["X"].children["x"] == FileNode(["b", "app", "X", "x"]);
    assert ["X", "x"][1..] == ["x"] && ["x"][1..] == [];
    assert Reaches(app, ["X", "x"]) && NodeAt(app, ["X", "x"]) == FileNode(["b", "app", "X", "x"]);
    LeavesWin(app, "app", None, mods, ["X", "x"]);
    BoundInstead(file, mods);
  }

  lemma {:induction false} BoundInstead(file: Tree, mods: Tree)
    requires file.File? && mods == Dir(map["a" := Replacing(), "b" := Adding(file)])
    ensures WalkIn(Built(BothAsk(), "app", None, mods), ["X"]) == Some(Dir(map[]))
  {
    hide Overlay;
    var app := BothAsk();
    SourceOf(file, mods);
    assert |"X"| == 1 && |REPLACE| == 8;
    assert IsReplaced(app) && "X" in Names(app, None) && app.children["X"].Directory?;
    assert ParentDir(app.children[REPLACE].src) + ["X"] == ["a", "app", "X"];
    assert BuiltEntry(app, "X", None, mods) == Some(Dir(map[]));
    BuiltGet(app, None, mods, "X");
    var entries := BuiltEntries(app, None, mods, Names(app, None));
    assert ["X"][1..] == [] && Walk(Dir(entries), ["X"]) == Walk(entries["X"], []);
  }

  lemma {:induction false} SourceOf(file: Tree, mods: Tree)
    requires file.File? && mods == Dir(map["a" := Replacing(), "b" := Adding(file)])
    ensures At(Some(mods), ["b", "app", "X", "x"]) == Some(file)
    ensures At(Some(mods), ["a", "app", "X"]) == None
  {
    assert ["b", "app", "X", "x"][1..] == ["app", "X", "x"] && ["app", "X", "x"][1..] == ["X", "x"]
           && ["X", "x"][1..] == ["x"];
    assert ["a", "app", "X"][1..] == ["app", "X"] && ["app", "X"][1..] == ["X"];
  }
}
