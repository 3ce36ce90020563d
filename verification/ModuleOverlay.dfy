/**
  Steps 3 and 4 of applying modules (native/src/core/module.rs): the virtual tree is turned into
  bind mounts and rebuilt directories.  Overlay says what should be visible afterwards, Built what a
  rebuilt directory holds, and Committed what is visible; they show the same under exact conditions.
 */
module ModuleOverlay {
  import opened Wrappers
  import opened ModuleTree

  const REPLACE: Name := ".replace"

  // ---- file system trees ----

  /** Directory::open: the entries of a directory, or of the directory a link resolves to. */
  function Open(t: Option<Tree>): Option<map<Name, Tree>> {
    match t
    case Some(Dir(m)) => Some(m)
    case Some(Link(_, true, m)) => Some(m)
    case _ => None
  }

  function Entries(t: Option<Tree>): map<Name, Tree> {
    Open(t).GetOr(map[])
  }

  /** The node at a path; links on the way are followed, a link at the end is not. */
  function At(t: Option<Tree>, p: Path): Option<Tree>
    decreases |p|
  {
    if p == [] then t else At(Get(Entries(t), p[0]), p[1..])
  }

  /** What a reader of the tree sees: names, contents and link texts. */
  function Shown(t: Tree): Tree {
    match t
    case Dir(m) => Dir(map n | n in m :: Shown(m[n]))
    case Link(target, _, _) => NewLink(target)
    case _ => t
  }

  function ShownIn(t: Option<Tree>): Option<Tree> {
    if t.Some? then Some(Shown(t.value)) else None
  }

  function NewLink(target: string): Tree { Link(target, false, map[]) }

  /** Bind mounting a source over an existing node: it takes a directory for a directory and
      anything else for anything else; a failure is logged and ignored. */
  function Bind(dest: Tree, source: Option<Tree>): Tree {
    match source
    case Some(s) => if dest.Dir? && Open(source).Some? then Dir(Open(source).value)
                    else if !dest.Dir? && !s.Dir? && !s.Link? then s
                    else dest
    case None => dest
  }

  // ---- the overlay, as one denotation ----

  /** The magisk applets link to the binary that implements them. */
  function AppletTarget(name: Name): string {
    if name == "supolicy" then "./magiskpolicy" else "./magisk"
  }

  predicate IsReplaced(node: FsNode) {
    node.Directory? && REPLACE in node.children && node.children[REPLACE].FileNode?
  }

  function ParentDir(p: Path): Path {
    if p == [] then [] else p[..|p| - 1]
  }

  /** The names a directory node deals with: its own, and unless it replaces the real
      directory also the real ones. */
  function Names(node: FsNode, base: Option<Tree>): set<Name>
    requires node.Directory?
  {
    (node.children.Keys - {REPLACE}) + (if IsReplaced(node) then {} else Entries(base).Keys)
  }

  /** What should stand at `name` when `node` is laid over `base`; None when nothing should.
      `mods` is the tree the module files are mounted from. */
  function Overlay(node: FsNode, name: Name, base: Option<Tree>, mods: Tree): Option<Tree>
    decreases node, 1
  {
    match node
    case Directory(children) => Some(Dir(OverlayEntries(node, base, mods, Names(node, base))))
    case FileNode(src) => Some(Bind(File(""), At(Some(mods), src)))
    case Symlink(target) => Some(NewLink(target))
    case MagiskLink => Some(NewLink(AppletTarget(name)))
    case Whiteout => None
  }

  /** What is below the directory of a node: nothing, if the node replaces it. */
  function Below(node: FsNode, base: Option<Tree>, n: Name): Option<Tree> {
    if IsReplaced(node) then None else Get(Entries(base), n)
  }

  function OverlayEntry(node: FsNode, n: Name, base: Option<Tree>, mods: Tree): Option<Tree>
    requires node.Directory?
    decreases node, 0, 0
  {
    if n in node.children && n != REPLACE then Overlay(node.children[n], n, Below(node, base, n), mods)
    else ShownIn(Below(node, base, n))
  }

  function OverlayEntries(node: FsNode, base: Option<Tree>, mods: Tree, names: set<Name>): map<Name, Tree>
    requires node.Directory?
    decreases node, 0, 1
  {
    map n | n in names && OverlayEntry(node, n, base, mods).Some? :: OverlayEntry(node, n, base, mods).value
  }

  // ---- what commit_tmpfs builds ----

  /** The directory of the replacing module that is bound over a directory child. */
  function RawChild(node: FsNode, n: Name, mods: Tree): Option<Tree>
    requires IsReplaced(node)
  {
    At(Some(mods), ParentDir(node.children[REPLACE].src) + [n])
  }

  function Built(node: FsNode, name: Name, base: Option<Tree>, mods: Tree): Option<Tree>
    decreases node, 1
  {
    if node.Directory? then Some(Dir(BuiltEntries(node, base, mods, Names(node, base))))
    else Overlay(node, name, base, mods)
  }

  function BuiltEntry(node: FsNode, n: Name, base: Option<Tree>, mods: Tree): Option<Tree>
    requires node.Directory?
    decreases node, 0, 0
  {
    if n in node.children && n != REPLACE then
      if IsReplaced(node) && node.children[n].Directory? then Some(Bind(Dir(map[]), RawChild(node, n, mods)))
      else Built(node.children[n], n, Get(Entries(base), n), mods)
    else if !IsReplaced(node) && n in Entries(base) then
      Some(Shown(Entries(base)[n]))
    else
      None
  }

  function BuiltEntries(node: FsNode, base: Option<Tree>, mods: Tree, names: set<Name>): map<Name, Tree>
    requires node.Directory?
    decreases node, 0, 1
  {
    map n | n in names && BuiltEntry(node, n, base, mods).Some? :: BuiltEntry(node, n, base, mods).value
  }

  // ---- what commit decides and leaves behind ----

  /** parent_should_be_tmpfs */
  predicate ParentShouldBeTmpfs(node: FsNode, target: Option<Tree>) {
    if node.Directory? || node.FileNode? then target.None? || target.value.Link? else true
  }

  predicate ForcesTmpfs(children: map<Name, FsNode>, base: Tree, n: Name)
    requires n in children
  {
    n == REPLACE || ParentShouldBeTmpfs(children[n], At(Some(base), [n]))
  }

  predicate NeedsTmpfs(children: map<Name, FsNode>, base: Tree) {
    exists n | n in children :: ForcesTmpfs(children, base, n)
  }

  /** The children a partition root keeps: those that do not need the root rebuilt. */
  function Kept(children: map<Name, FsNode>, base: Tree): map<Name, FsNode> {
    map n | n in children && !ForcesTmpfs(children, base, n) :: children[n]
  }

  function Committed(node: FsNode, base: Tree, mods: Tree): Tree
    decreases node, 1
  {
    match node
    case Directory(children) =>
      if NeedsTmpfs(children, base) then
        Bind(base, Some(Dir(BuiltEntries(node, Some(base), mods, Names(node, Some(base))))))
      else
        CommittedEntries(node, base, mods, children.Keys)
    case FileNode(src) => Bind(base, At(Some(mods), src))
    case _ => base
  }

  /** The directory after the children in `done` were committed in place. */
  function CommittedEntries(node: FsNode, base: Tree, mods: Tree, done: set<Name>): Tree
    requires node.Directory? && done <= node.children.Keys
    decreases node, 0
  {
    if base.Dir? then
      Dir(map n | n in base.entries ::
            if n in done then Committed(node.children[n], base.entries[n], mods) else base.entries[n])
    else
      base
  }

  // ---- committing in place shows the overlay ----

  lemma {:induction false} ShownTwice(t: Tree)
    ensures Shown(Shown(t)) == Shown(t)
  {
    if t.Dir? {
      forall n | n in t.entries ensures Shown(Shown(t.entries[n])) == Shown(t.entries[n]) { ShownTwice(t.entries[n]); }
    }
  }

  /** Every file the modules provide can be mounted. */
  predicate SourcesExist(node: FsNode, mods: Tree) {
    match node
    case Directory(children) => forall n | n in children :: SourcesExist(children[n], mods)
    case FileNode(src) => At(Some(mods), src).Some? && At(Some(mods), src).value.File?
    case _ => true
  }

  // ---- a rebuilt directory shows the overlay ----

  /** A tree of a module shows what the node asks for: the same names, none of them a whiteout or
      .replace, the same files and links. */
  predicate Mirrors(node: FsNode, name: Name, t: Tree, mods: Tree) {
    match node
    case Directory(children) =>
      && t.Dir?
      && (forall n | n in children && n != REPLACE && !children[n].Whiteout? :: n in t.entries)
      && (forall n | n in t.entries :: n in children && n != REPLACE && Mirrors(children[n], n, t.entries[n], mods))
    case FileNode(src) => t.File? && At(Some(mods), src) == Some(t)
    case Symlink(target) => t.Link? && t.target == target
    case MagiskLink => t.Link? && t.target == AppletTarget(name)
    case Whiteout => false
  }

  /** Every directory that is bound into a replaced directory mirrors its node. */
  predicate ReplacementsAgree(node: FsNode, mods: Tree) {
    node.Directory? ==>
      forall n | n in node.children && n != REPLACE && node.children[n].Directory? ::
        if IsReplaced(node) then Mirrors(node.children[n], n, Dir(Entries(RawChild(node, n, mods))), mods)
        else ReplacementsAgree(node.children[n], mods)
  }

  /** Two directories show the same exactly when they show the same under every name. */
  lemma {:induction false} SameShown(c: Tree, o: Tree)
    requires c.Dir? && o.Dir?
    ensures Shown(c) == Shown(o) <==> forall n :: ShownIn(Get(c.entries, n)) == ShownIn(Get(o.entries, n))
  {
    var sc, so := Shown(c), Shown(o);
    assert forall n :: Get(sc.entries, n) == ShownIn(Get(c.entries, n));
    assert forall n :: Get(so.entries, n) == ShownIn(Get(o.entries, n));
    if forall n :: ShownIn(Get(c.entries, n)) == ShownIn(Get(o.entries, n)) {
      forall n ensures n in sc.entries <==> n in so.entries {
        assert Get(sc.entries, n) == Get(so.entries, n);
      }
      forall n | n in sc.entries ensures sc.entries[n] == so.entries[n] {
        assert Get(sc.entries, n) == Get(so.entries, n);
      }
      assert sc.entries == so.entries;
    }
  }

  lemma {:induction false} OverlayGet(node: FsNode, base: Option<Tree>, mods: Tree, n: Name)
    requires node.Directory?
    ensures Get(OverlayEntries(node, base, mods, Names(node, base)), n)
         == if n in Names(node, base) then OverlayEntry(node, n, base, mods) else None
  {
  }

  lemma {:induction false} BuiltGet(node: FsNode, base: Option<Tree>, mods: Tree, n: Name)
    requires node.Directory?
    ensures Get(BuiltEntries(node, base, mods, Names(node, base)), n)
         == if n in Names(node, base) then BuiltEntry(node, n, base, mods) else None
  {
  }

  /** A tree shows what the node would show over nothing exactly when it mirrors the node. */
  lemma {:induction false} MirrorsExactly(node: FsNode, name: Name, t: Tree, mods: Tree)
    requires SourcesExist(node, mods)
    ensures ShownIn(Overlay(node, name, None, mods)) == Some(Shown(t)) <==> Mirrors(node, name, t, mods)
    decreases node
  {
    if node.Directory? && t.Dir? {
      var o := Dir(OverlayEntries(node, None, mods, Names(node, None)));
      SameShown(o, t);
      MirrorsEach(node, name, t, mods);
      forall n ensures ShownIn(Get(o.entries, n)) == ShownIn(Get(t.entries, n)) <==> MirrorsAt(node, n, t, mods) {
        OverlayGet(node, None, mods, n);
        if n in node.children && n != REPLACE && n in t.entries {
          MirrorsExactly(node.children[n], n, t.entries[n], mods);
        }
      }
    }
  }

  /** One name of a directory that mirrors a node. */
  predicate MirrorsAt(node: FsNode, n: Name, t: Tree, mods: Tree)
    requires node.Directory? && t.Dir?
  {
    if n in t.entries then n in node.children && n != REPLACE && Mirrors(node.children[n], n, t.entries[n], mods)
    else !(n in node.children && n != REPLACE && !node.children[n].Whiteout?)
  }

  lemma {:induction false} MirrorsEach(node: FsNode, name: Name, t: Tree, mods: Tree)
    requires node.Directory? && t.Dir?
    ensures Mirrors(node, name, t, mods) <==> forall n :: MirrorsAt(node, n, t, mods)
  {
    if forall n :: MirrorsAt(node, n, t, mods) {
      forall n | n in node.children && n != REPLACE && !node.children[n].Whiteout? ensures n in t.entries {
        assert MirrorsAt(node, n, t, mods);
      }
      forall n | n in t.entries
        ensures n in node.children && n != REPLACE && Mirrors(node.children[n], n, t.entries[n], mods)
      {
        assert MirrorsAt(node, n, t, mods);
      }
    }
  }

  lemma {:induction false} AgreesEach(node: FsNode, mods: Tree)
    requires node.Directory?
    ensures ReplacementsAgree(node, mods) <==> forall n :: AgreesAt(node, n, mods)
  {
    if forall n :: AgreesAt(node, n, mods) {
      forall n | n in node.children && n != REPLACE && node.children[n].Directory?
        ensures if IsReplaced(node) then Mirrors(node.children[n], n, Dir(Entries(RawChild(node, n, mods))), mods)
                else ReplacementsAgree(node.children[n], mods)
      {
        assert AgreesAt(node, n, mods);
      }
    }
  }

  /** What is built shows the overlay exactly when the replacements agree, whatever is below. */
  lemma {:induction false} BuiltIsOverlay(node: FsNode, name: Name, base: Option<Tree>, mods: Tree)
    requires SourcesExist(node, mods)
    ensures ShownIn(Built(node, name, base, mods)) == ShownIn(Overlay(node, name, base, mods))
            <==> ReplacementsAgree(node, mods)
    decreases node
  {
    if node.Directory? {
      var c := Dir(BuiltEntries(node, base, mods, Names(node, base)));
      var o := Dir(OverlayEntries(node, base, mods, Names(node, base)));
      SameShown(c, o);
      AgreesEach(node, mods);
      forall n ensures ShownIn(Get(c.entries, n)) == ShownIn(Get(o.entries, n)) <==> AgreesAt(node, n, mods) {
        BuiltGet(node, base, mods, n);
        OverlayGet(node, base, mods, n);
        EntryAgrees(node, n, base, mods);
      }
    }
  }

  /** One name of a directory whose replacements agree. */
  predicate AgreesAt(node: FsNode, n: Name, mods: Tree)
    requires node.Directory?
  {
    n in node.children && n != REPLACE && node.children[n].Directory? ==>
      if IsReplaced(node) then Mirrors(node.children[n], n, Dir(Entries(RawChild(node, n, mods))), mods)
      else ReplacementsAgree(node.children[n], mods)
  }

  lemma {:induction false} EntryAgrees(node: FsNode, n: Name, base: Option<Tree>, mods: Tree)
    requires node.Directory? && SourcesExist(node, mods)
    ensures ShownIn(BuiltEntry(node, n, base, mods)) == ShownIn(OverlayEntry(node, n, base, mods))
            <==> AgreesAt(node, n, mods)
    decreases node, 0
  {
    if n in node.children && n != REPLACE && node.children[n].Directory? {
      if IsReplaced(node) {
        MirrorsExactly(node.children[n], n, Dir(Entries(RawChild(node, n, mods))), mods);
      } else {
        BuiltIsOverlay(node.children[n], n, Get(Entries(base), n), mods);
      }
    }
  }

  // ---- what is visible after commit ----

  /** Wherever commit works in place, a directory meets a directory and a file meets something
      that is not one.  Below a directory that is rebuilt anything goes. */
  predicate KindsAgree(node: FsNode, base: Tree) {
    match node
    case Directory(children) =>
      base.Dir? && (NeedsTmpfs(children, base) ||
                    forall n | n in children :: n in base.entries && KindsAgree(children[n], base.entries[n]))
    case FileNode(_) => !base.Dir?
    case _ => false
  }

  /** Without a rebuild every child is a directory or file over something that is there and is
      no link: the "parent should be tmpfs" arm cannot be reached from a directory. */
  lemma InPlaceChild(children: map<Name, FsNode>, base: Tree, n: Name)
    requires !NeedsTmpfs(children, base) && n in children
    ensures n != REPLACE && (children[n].Directory? || children[n].FileNode?)
    ensures !base.Link? ==> base.Dir? && n in base.entries && !base.entries[n].Link?
  {
    assert !ForcesTmpfs(children, base, n);
    assert At(Some(base), [n]) == Get(Entries(Some(base)), n);
  }

  /** What is visible after commit is the overlay exactly when the kinds and the replacements agree. */
  lemma {:induction false} CommittedIsOverlay(node: FsNode, name: Name, base: Tree, mods: Tree)
    requires !base.Link? && (node.Directory? || node.FileNode?) && SourcesExist(node, mods)
    ensures Overlay(node, name, Some(base), mods).Some?
    ensures Shown(Committed(node, base, mods)) == Shown(Overlay(node, name, Some(base), mods).value)
            <==> KindsAgree(node, base) && ReplacementsAgree(node, mods)
    decreases node
  {
    if node.Directory? && base.Dir? {
      if NeedsTmpfs(node.children, base) {
        BuiltIsOverlay(node, name, Some(base), mods);
      } else {
        forall n | n in node.children
          ensures n != REPLACE && n in base.entries && OverlayEntry(node, n, Some(base), mods).Some?
          ensures (Shown(Committed(node.children[n], base.entries[n], mods))
                   == Shown(OverlayEntry(node, n, Some(base), mods).value))
                  <==> KindsAgree(node.children[n], base.entries[n]) && ReplacementsAgree(node.children[n], mods)
        {
          InPlaceChild(node.children, base, n);
          CommittedIsOverlay(node.children[n], n, base.entries[n], mods);
        }
        InPlaceDirectory(node, base, mods);
      }
    }
  }

  /** Two directories show the same when they have the same names showing the same. */
  lemma {:induction false} InPlaceDirectory(node: FsNode, base: Tree, mods: Tree)
    requires node.Directory? && base.Dir? && !NeedsTmpfs(node.children, base)
    requires forall n | n in node.children ::
      n in base.entries && OverlayEntry(node, n, Some(base), mods).Some?
    ensures Shown(Committed(node, base, mods))
            == Shown(Dir(OverlayEntries(node, Some(base), mods, Names(node, Some(base)))))
            <==> forall n | n in node.children ::
                   Shown(Committed(node.children[n], base.entries[n], mods))
                   == Shown(OverlayEntry(node, n, Some(base), mods).value)
  {
    var c := CommittedEntries(node, base, mods, node.children.Keys);
    var o := Dir(OverlayEntries(node, Some(base), mods, Names(node, Some(base))));
    assert Committed(node, base, mods) == c;
    assert REPLACE !in node.children by {
      if REPLACE in node.children {
        assert ForcesTmpfs(node.children, base, REPLACE);
      }
    }
    assert Names(node, Some(base)) == base.entries.Keys;
    forall n | n in base.entries && n !in node.children
      ensures OverlayEntry(node, n, Some(base), mods) == Some(Shown(base.entries[n]))
    {
      assert Entries(Some(base)) == base.entries;
    }
    SameShown(c, o);
    forall n ensures ShownIn(Get(c.entries, n)) == ShownIn(Get(o.entries, n)) <==>
                     (n in node.children ==> Shown(Committed(node.children[n], base.entries[n], mods))
                                             == Shown(OverlayEntry(node, n, Some(base), mods).value))
    {
      OverlayGet(node, Some(base), mods, n);
      if n in base.entries && n !in node.children {
        ShownTwice(base.entries[n]);
      }
    }
  }

  /** Nodes that match the kind of whatever stands in their place. */
  predicate AllKindsMatch(node: FsNode, target: Option<Tree>) {
    match node
    case Directory(children) =>
      && (target.Some? ==> target.value.Dir? || target.value.Link?)
      && forall n | n in children :: AllKindsMatch(children[n], Get(Entries(target), n))
    case FileNode(_) => target.Some? ==> !target.value.Dir?
    case _ => true
  }

  lemma {:induction false} MatchingKindsAgree(node: FsNode, base: Tree)
    requires AllKindsMatch(node, Some(base)) && !base.Link? && (node.Directory? || node.FileNode?)
    ensures KindsAgree(node, base)
    decreases node
  {
    if node.Directory? && !NeedsTmpfs(node.children, base) {
      forall n | n in node.children ensures n in base.entries && KindsAgree(node.children[n], base.entries[n]) {
        InPlaceChild(node.children, base, n);
        MatchingKindsAgree(node.children[n], base.entries[n]);
      }
    }
  }

  /** The root of a partition is never rebuilt: what would need that is dropped, and the rest
      becomes visible as an overlay. */
  lemma {:induction false} RootIsOverlay(children: map<Name, FsNode>, name: Name, base: Tree, mods: Tree)
    requires base.Dir? && SourcesExist(Directory(children), mods)
    ensures var kept := Directory(Kept(children, base));
            && !NeedsTmpfs(kept.children, base)
            && (Shown(Committed(kept, base, mods)) == Shown(Overlay(kept, name, Some(base), mods).value)
                <==> KindsAgree(kept, base) && ReplacementsAgree(kept, mods))
            && (AllKindsMatch(Directory(children), Some(base)) ==> KindsAgree(kept, base))
  {
    var kept := Directory(Kept(children, base));
    assert forall n | n in kept.children :: ForcesTmpfs(kept.children, base, n) == ForcesTmpfs(children, base, n);
    CommittedIsOverlay(kept, name, base, mods);
    if AllKindsMatch(Directory(children), Some(base)) {
      MatchingKindsAgree(kept, base);
    }
  }

  // ---- what the overlay shows at each path ----

  function WalkIn(t: Option<Tree>, p: Path): Option<Tree> {
    if t.Some? then Walk(t.value, p) else None
  }

  function Last(p: Path): Name
    requires p != []
  {
    p[|p| - 1]
  }

  /** The path leads to a node of the virtual tree. */
  predicate Reaches(node: FsNode, p: Path) {
    p == [] || (node.Directory? && p[0] in node.children && p[0] != REPLACE && Reaches(node.children[p[0]], p[1..]))
  }

  function NodeAt(node: FsNode, p: Path): FsNode
    requires Reaches(node, p)
  {
    if p == [] then node else NodeAt(node.children[p[0]], p[1..])
  }

  /** A directory on the way to the path is replaced. */
  predicate IsReplacedAbove(node: FsNode, p: Path)
    requires Reaches(node, p)
  {
    p != [] && (IsReplaced(node) || IsReplacedAbove(node.children[p[0]], p[1..]))
  }

  lemma {:induction false} NothingBelowNothing(p: Path)
    ensures At(None, p) == None
  {
    if p != [] {
      NothingBelowNothing(p[1..]);
    }
  }

  /** The overlay is computed locally: at a path the virtual tree reaches, it is the overlay of the
      node found there on whatever the real path leads to, or on nothing if a directory above it is
      replaced. */
  lemma {:induction false} OverlayIsLocal(node: FsNode, name: Name, base: Option<Tree>, mods: Tree, p: Path)
    requires Reaches(node, p)
    ensures WalkIn(Overlay(node, name, base, mods), p)
         == Overlay(NodeAt(node, p), if p == [] then name else Last(p),
                    if IsReplacedAbove(node, p) then None else At(base, p), mods)
    decreases p
  {
    if p != [] {
      var n := p[0];
      NothingBelowNothing(p[1..]);
      OverlayIsLocal(node.children[n], n, Below(node, base, n), mods, p[1..]);
      OverlayGet(node, base, mods, n);
      assert p[1..] != [] ==> Last(p[1..]) == Last(p);
    }
  }

  lemma {:induction false} WalkShown(t: Tree, p: Path)
    ensures Walk(Shown(t), p) == ShownIn(Walk(t, p))
  {
    if p != [] && t.Dir? && p[0] in t.entries {
      WalkShown(t.entries[p[0]], p[1..]);
    }
  }

  lemma {:induction false} WalkFurther(t: Tree, p: Path, q: Path)
    ensures Walk(t, p + q) == WalkIn(Walk(t, p), q)
  {
    if p != [] {
      assert (p + q)[1..] == p[1..] + q;
      if t.Dir? && p[0] in t.entries {
        WalkFurther(t.entries[p[0]], p[1..], q);
      }
    } else {
      assert p + q == q;
    }
  }

  /** Below a reached directory, a name the modules do not mention shows the real subtree unchanged --
      or nothing at all, when the directory or one above it is replaced. */
  lemma {:induction false} UnmentionedIsMirrored(node: FsNode, name: Name, base: Option<Tree>, mods: Tree, p: Path,
                                                 n: Name, q: Path)
    requires Reaches(node, p) && NodeAt(node, p).Directory? && n !in NodeAt(node, p).children
    ensures WalkIn(Overlay(node, name, base, mods), p + [n] + q)
         == if IsReplacedAbove(node, p) || IsReplaced(NodeAt(node, p)) then None
            else ShownIn(WalkIn(Get(Entries(At(base, p)), n), q))
  {
    OverlayIsLocal(node, name, base, mods, p);
    var dir := NodeAt(node, p);
    var here := if IsReplacedAbove(node, p) then None else At(base, p);
    var o := Dir(OverlayEntries(dir, here, mods, Names(dir, here)));
    var top := Overlay(node, name, base, mods);
    assert WalkIn(top, p) == Some(o);
    assert p + [n] + q == p + ([n] + q);
    WalkFurther(top.value, p, [n] + q);
    assert ([n] + q)[1..] == q;
    OverlayGet(dir, here, mods, n);
    if !IsReplaced(dir) && n in Entries(here) {
      WalkShown(Entries(here)[n], q);
    }
  }

  /** A file, link or whiteout of the modules wins over whatever is there. */
  lemma {:induction false} LeavesWin(node: FsNode, name: Name, base: Option<Tree>, mods: Tree, p: Path)
    requires p != [] && Reaches(node, p) && !NodeAt(node, p).Directory? && SourcesExist(NodeAt(node, p), mods)
    ensures WalkIn(Overlay(node, name, base, mods), p)
         == match NodeAt(node, p)
            case FileNode(src) => At(Some(mods), src)
            case Symlink(target) => Some(NewLink(target))
            case MagiskLink => Some(NewLink(AppletTarget(Last(p))))
            case Whiteout => None
  {
    OverlayIsLocal(node, name, base, mods, p);
  }

  /** Rebuilding a directory for which the modules ask nothing reproduces it, as it should. */
  lemma {:induction false} RebuildIsIdentity(name: Name, base: Tree, mods: Tree)
    requires base.Dir?
    ensures Built(NewDir, name, Some(base), mods) == Overlay(NewDir, name, Some(base), mods) == Some(Shown(base))
  {
    var c := BuiltEntries(NewDir, Some(base), mods, Names(NewDir, Some(base)));
    var o := OverlayEntries(NewDir, Some(base), mods, Names(NewDir, Some(base)));
    forall n | n in base.entries
      ensures BuiltEntry(NewDir, n, Some(base), mods) == OverlayEntry(NewDir, n, Some(base), mods)
              == Some(Shown(base.entries[n]))
    {
      assert Entries(Some(base)) == base.entries;
    }
    assert c == Shown(base).entries && o == Shown(base).entries;
  }
}
