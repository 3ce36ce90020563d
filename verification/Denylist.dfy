/**
  The denylist (native/src/core/deny/utils.cpp): a map from packages to process names, an index from
  app ids to packages, and the rows of a database behind them.
 */
module Denylist {

  const ISOLATED: string := "isolated"
  const FIRST_ISOLATED: int := 90000
  const USER_OFFSET: int := 100000

  type Packages = map<string, set<string>>
  type Index = map<int, set<string>>

  /** What the data directories say about a package now: its app id, or 0 when it is not installed. */
  type Installed = string -> nat

  datatype Response = Done | Failed | InvalidPackage | ItemExists | ItemMissing

  function AppId(pkg: string, now: Installed): int {
    if pkg == ISOLATED then -1 else now(pkg)
  }

  // ---- update_app_id ----

  function IndexAdd(index: Index, id: int, pkg: string): Index {
    if id <= 0 then index else index[id := (if id in index then index[id] else {}) + {pkg}]
  }

  function IndexRemove(index: Index, id: int, pkg: string): Index {
    if id <= 0 || id !in index then index
    else if index[id] - {pkg} == {} then index - {id}
    else index[id := index[id] - {pkg}]
  }

  // ---- what the index means ----

  predicate IsIndexed(pkg: string, m: Packages, ids: Installed, id: int) {
    pkg in m && pkg != ISOLATED && ids(pkg) == id && id > 0
  }

  function PackagesOf(m: Packages, ids: Installed, id: int): set<string> {
    set p | p in m && IsIndexed(p, m, ids, id)
  }

  /** The inverse image of the package map. */
  function InverseImage(m: Packages, ids: Installed): Index {
    map id | id in (set p | p in m && p != ISOLATED && ids(p) > 0 :: ids(p)) :: PackagesOf(m, ids, id)
  }

  predicate IsIndexOf(a: Index, m: Packages, ids: Installed) { a == InverseImage(m, ids) }

  /** The index is that of the packages under some app ids. */
  ghost predicate IsIndex(a: Index, m: Packages) { exists ids :: IsIndexOf(a, m, ids) }

  lemma InverseImageOf(m: Packages, ids: Installed, id: int)
    ensures id in InverseImage(m, ids) <==> exists p | p in m :: IsIndexed(p, m, ids, id)
    ensures id in InverseImage(m, ids) ==> InverseImage(m, ids)[id] == PackagesOf(m, ids, id)
  {
    var all := set p | p in m && p != ISOLATED && ids(p) > 0 :: ids(p);
    assert id in InverseImage(m, ids) <==> id in all;
    if p :| p in m && IsIndexed(p, m, ids, id) {
      assert ids(p) in all;
    }
    if id in all {
      var p :| p in m && p != ISOLATED && ids(p) > 0 && ids(p) == id;
      assert IsIndexed(p, m, ids, id);
    }
  }

  lemma SameIndex(a: Index, m: Packages, ids: Installed)
    requires forall id :: id in a <==> exists p | p in m :: IsIndexed(p, m, ids, id)
    requires forall id | id in a :: a[id] == PackagesOf(m, ids, id)
    ensures a == InverseImage(m, ids)
  {
    forall id ensures id in a <==> id in InverseImage(m, ids) {
      InverseImageOf(m, ids, id);
    }
    forall id | id in a ensures a[id] == InverseImage(m, ids)[id] {
      InverseImageOf(m, ids, id);
    }
  }

  /** Adding a process to an installed (or the isolated) package keeps the index the inverse image. */
  lemma AddKeepsIndex(m: Packages, ids: Installed, pkg: string, procs: set<string>)
    requires AppId(pkg, ids) != 0
    ensures IndexAdd(InverseImage(m, ids), AppId(pkg, ids), pkg) == InverseImage(m[pkg := procs], ids)
  {
    var m' := m[pkg := procs];
    var a := IndexAdd(InverseImage(m, ids), AppId(pkg, ids), pkg);
    forall id
      ensures id in a <==> exists p | p in m' :: IsIndexed(p, m', ids, id)
      ensures id in a ==> a[id] == PackagesOf(m', ids, id)
    {
      InverseImageOf(m, ids, id);
      assert forall p ::
               IsIndexed(p, m', ids, id)
               <==> IsIndexed(p, m, ids, id) || (p == pkg && p != ISOLATED && ids(p) == id > 0);
      if p :| p in m && IsIndexed(p, m, ids, id) {
        assert p in m' && IsIndexed(p, m', ids, id);
      }
      if pkg != ISOLATED && id == ids(pkg) {
        assert pkg in m' && IsIndexed(pkg, m', ids, id);
      }
    }
    SameIndex(a, m', ids);
  }

  /** The app ids of packages that are not there do not matter. */
  lemma OnlyListedMatter(m: Packages, a: Installed, b: Installed)
    requires forall p | p in m && p != ISOLATED :: a(p) == b(p)
    ensures InverseImage(m, a) == InverseImage(m, b)
  {
    var i := InverseImage(m, a);
    forall id
      ensures id in i <==> exists p | p in m :: IsIndexed(p, m, b, id)
      ensures id in i ==> i[id] == PackagesOf(m, b, id)
    {
      InverseImageOf(m, a, id);
      assert forall p :: IsIndexed(p, m, a, id) <==> IsIndexed(p, m, b, id);
    }
    SameIndex(i, m, b);
  }

  /** Adding a process to a package that is there leaves an inverse image, under whatever app ids, exactly when the app
      id that is looked up for it now is the one it was indexed under. */
  lemma AddAgainKeepsIndex(m: Packages, ids: Installed, pkg: string, procs: set<string>, id: int)
    requires pkg in m && pkg != ISOLATED && ids(pkg) > 0 && id > 0
    ensures IsIndex(IndexAdd(InverseImage(m, ids), id, pkg), m[pkg := procs]) <==> id == ids(pkg)
  {
    var m', a := m[pkg := procs], IndexAdd(InverseImage(m, ids), id, pkg);
    if id == ids(pkg) {
      AddKeepsIndex(m, ids, pkg, procs);
      assert IsIndexOf(a, m', ids);
    } else {
      InverseImageOf(m, ids, ids(pkg));
      assert IsIndexed(pkg, m, ids, ids(pkg));
      assert pkg in a[id] && pkg in a[ids(pkg)];
      forall other: Installed ensures !IsIndexOf(a, m', other) {
        InverseImageOf(m', other, id);
        InverseImageOf(m', other, ids(pkg));
      }
    }
  }

  /** Removing a package leaves an inverse image, under whatever app ids, exactly when the app id that is looked
      up for it now is the one it was indexed under. */
  lemma RemoveKeepsIndex(m: Packages, ids: Installed, pkg: string, id: int)
    requires pkg in m && pkg != ISOLATED && ids(pkg) > 0
    ensures IndexRemove(InverseImage(m, ids), id, pkg) == InverseImage(m - {pkg}, ids) <==> id == ids(pkg)
    ensures IsIndex(IndexRemove(InverseImage(m, ids), id, pkg), m - {pkg}) <==> id == ids(pkg)
  {
    var m' := m - {pkg};
    var a := IndexRemove(InverseImage(m, ids), id, pkg);
    InverseImageOf(m, ids, ids(pkg));
    assert IsIndexed(pkg, m, ids, ids(pkg));
    if id == ids(pkg) {
      forall k
        ensures k in a <==> exists p | p in m' :: IsIndexed(p, m', ids, k)
        ensures k in a ==> a[k] == PackagesOf(m', ids, k)
      {
        RemovedEntry(m, ids, pkg, k);
      }
      SameIndex(a, m', ids);
      assert IsIndexOf(a, m', ids);
    } else {
      assert pkg in a[ids(pkg)];
      forall other: Installed ensures !IsIndexOf(a, m', other) {
        InverseImageOf(m', other, ids(pkg));
      }
    }
  }

  lemma RemovedEntry(m: Packages, ids: Installed, pkg: string, k: int)
    requires pkg in m && pkg != ISOLATED && ids(pkg) > 0
    ensures var a, m' := IndexRemove(InverseImage(m, ids), ids(pkg), pkg), m - {pkg};
            && (k in a <==> exists p | p in m' :: IsIndexed(p, m', ids, k))
            && (k in a ==> a[k] == PackagesOf(m', ids, k))
  {
    var a, m' := IndexRemove(InverseImage(m, ids), ids(pkg), pkg), m - {pkg};
    InverseImageOf(m, ids, k);
    InverseImageOf(m, ids, ids(pkg));
    assert IsIndexed(pkg, m, ids, ids(pkg));
    assert forall p :: IsIndexed(p, m', ids, k) <==> IsIndexed(p, m, ids, k) && p != pkg;
    if p :| p in m && IsIndexed(p, m, ids, k) && p != pkg {
      assert p in m' && IsIndexed(p, m', ids, k);
      assert k == ids(pkg) ==> p in InverseImage(m, ids)[k] - {pkg};
    }
  }

  // ---- the database rows ----

  type Row = (string, string)

  function RowsOf(m: Packages): set<Row> {
    set p, q | p in m && q in m[p] :: (p, q)
  }

  function ProcsOf(rows: set<Row>, p: string): set<string> {
    set r | r in rows && r.0 == p :: r.1
  }

  function FromRows(rows: set<Row>): Packages {
    map p | p in (set r | r in rows :: r.0) :: ProcsOf(rows, p)
  }

  /** The packages a scan keeps: isolated services and what is installed. */
  function Surviving(m: Packages, now: Installed): Packages {
    map p | p in m && (p == ISOLATED || now(p) > 0) :: m[p]
  }

  /** A package a scan drops. */
  predicate IsGone(p: string, now: Installed) { p != ISOLATED && now(p) == 0 }

  /** Map and rows in the middle of a scan, with the packages in `rest` still to be looked at. */
  function Scanned(m: Packages, rest: set<string>, now: Installed): Packages {
    map p | p in m && (p in rest || !IsGone(p, now)) :: m[p]
  }

  function ScannedRows(rows: set<Row>, m: Packages, rest: set<string>, now: Installed): set<Row> {
    set r | r in rows && !(r.0 in m && r.0 !in rest && IsGone(r.0, now))
  }

  lemma ScanStep(m: Packages, rest: set<string>, now: Installed, p: string)
    requires rest <= m.Keys && p in rest
    ensures Surviving(m - (rest - {p}), now)
         == if IsGone(p, now) then Surviving(m - rest, now) else Surviving(m - rest, now)[p := m[p]]
    ensures Scanned(m, rest - {p}, now) == if IsGone(p, now) then Scanned(m, rest, now) - {p} else Scanned(m, rest, now)
    ensures p in Scanned(m, rest, now)
  {
  }

  lemma ScanStepRows(rows: set<Row>, m: Packages, rest: set<string>, now: Installed, p: string)
    requires rest <= m.Keys && p in rest
    ensures ScannedRows(rows, m, rest - {p}, now)
         == if IsGone(p, now) then set r | r in ScannedRows(rows, m, rest, now) && r.0 != p
            else ScannedRows(rows, m, rest, now)
  {
  }

  lemma ScanEnds(m: Packages, rows: set<Row>, now: Installed)
    ensures Scanned(m, m.Keys, now) == m && Scanned(m, {}, now) == Surviving(m, now) && m - {} == m
    ensures InverseImage(Surviving(m - m.Keys, now), now) == map[]
    ensures ScannedRows(rows, m, m.Keys, now) == rows
    ensures RowsOf(m) == rows ==> ScannedRows(rows, m, {}, now) == RowsOf(Surviving(m, now))
  {
    assert Surviving(m - m.Keys, now) == map[];
    EmptyInverse(now);
    if RowsOf(m) == rows {
      forall r: Row ensures r in ScannedRows(rows, m, {}, now) <==> r in RowsOf(Surviving(m, now)) {
        if r in rows && !IsGone(r.0, now) {
          assert (r.0, r.1) in RowsOf(Surviving(m, now));
        }
      }
    }
  }

  lemma FromRowsOf(rows: set<Row>)
    ensures RowsOf(FromRows(rows)) == rows
    ensures forall p | p in FromRows(rows) :: FromRows(rows)[p] != {}
  {
    var m := FromRows(rows);
    forall r: Row ensures r in RowsOf(m) <==> r in rows {
      if r in rows {
        assert r.0 in m && r.1 in m[r.0];
        assert (r.0, r.1) in RowsOf(m);
      }
    }
    forall p | p in m ensures m[p] != {} {
      var r :| r in rows && r.0 == p;
      assert r.1 in m[p];
    }
  }

  // ---- validate ----

  predicate IsAlnum(c: char) { '0' <= c <= '9' || 'a' <= c <= 'z' || 'A' <= c <= 'Z' }

  predicate IsIsolatedProc(s: string) {
    s == "" || s[0] == ':' || ((IsAlnum(s[0]) || s[0] == '_' || s[0] == '.') && IsIsolatedProc(s[1..]))
  }

  predicate Validate(pkg: string, proc: string) {
    if pkg == ISOLATED then IsIsolatedProc(proc)
    else
      && '.' in pkg && (forall i | 0 <= i < |pkg| :: IsAlnum(pkg[i]) || pkg[i] == '_' || pkg[i] == '.')
      && (forall i | 0 <= i < |proc| :: IsAlnum(proc[i]) || proc[i] == '_' || proc[i] == ':' || proc[i] == '.')
  }

  // ---- the question the denylist answers ----

  /** A process is a target when a plain scan of the package map finds it. */
  predicate IsTarget(m: Packages, ids: Installed, uid: nat, process: string) {
    var id := uid % USER_OFFSET;
    if id >= FIRST_ISOLATED then
      ISOLATED in m && exists s | s in m[ISOLATED] :: s <= process
    else
      exists p | p in m :: IsIndexed(p, m, ids, id) && process in m[p]
  }

  /** For every user alike: an isolated process is a target when a listed name starts its name, any other when it is
      listed for a package with its app id. */
  lemma EveryUser(m: Packages, ids: Installed, user: nat, id: nat, process: string)
    requires id < 100000
    ensures IsTarget(m, ids, user * 100000 + id, process) <==>
            if id >= 90000 then "isolated" in m && exists s | s in m["isolated"] :: s <= process
            else exists p | p in m :: p != "isolated" && ids(p) == id && id > 0 && process in m[p]
  {
    assert (user * 100000 + id) % 100000 == id;
    if id < 90000 {
      forall p | p in m
        ensures IsIndexed(p, m, ids, id) && process in m[p] <==>
                p != "isolated" && ids(p) == id && id > 0 && process in m[p]
      {
      }
    }
  }

  predicate IsNameChar(c: char) { c == '_' || c == '.' || '0' <= c <= '9' || 'a' <= c <= 'z' || 'A' <= c <= 'Z' }

  /** Name characters up to a colon or the end. */
  predicate IsNameUpTo(s: string, k: nat) {
    k <= |s| && (k == |s| || s[k] == ':') && forall i | 0 <= i < k :: IsNameChar(s[i])
  }

  /** A name of an isolated process is checked up to its first colon only. */
  lemma {:induction false} IsolatedProcIs(s: string)
    ensures IsIsolatedProc(s) <==> exists k: nat :: IsNameUpTo(s, k)
  {
    if s == "" || s[0] == ':' {
      assert IsNameUpTo(s, 0);
    } else {
      IsolatedProcIs(s[1..]);
      if k: nat :| IsNameUpTo(s[1..], k) {
        NameGoesOn(s, k);
      }
      if k: nat :| IsNameUpTo(s, k) {
        NameGoesOn(s, k - 1);
      }
    }
  }

  lemma NameGoesOn(s: string, k: nat)
    requires s != ""
    ensures IsNameUpTo(s, k + 1) <==> IsNameChar(s[0]) && IsNameUpTo(s[1..], k)
  {
    var t := s[1..];
    assert forall i | 0 <= i < |t| :: t[i] == s[i + 1];
    if IsNameChar(s[0]) && IsNameUpTo(t, k) {
      forall i | 0 <= i < k + 1 ensures IsNameChar(s[i]) { assert i > 0 ==> s[i] == t[i - 1]; }
    }
  }

  /** Which names can be listed: those of packages have a dot, and colons are for processes only. */
  lemma ValidateIs(pkg: string, proc: string)
    ensures Validate("isolated", proc) <==> exists k: nat :: IsNameUpTo(proc, k)
    ensures pkg != "isolated" ==>
              (Validate(pkg, proc) <==> '.' in pkg && (forall c | c in pkg :: IsNameChar(c))
                                        && (forall c | c in proc :: c == ':' || IsNameChar(c)))
  {
    hide IsIsolatedProc, IsNameUpTo;
    IsolatedProcIs(proc);
    assert (forall c | c in pkg :: IsNameChar(c)) <==> forall i | 0 <= i < |pkg| :: IsNameChar(pkg[i]);
    assert (forall c | c in proc :: c == ':' || IsNameChar(c)) <==>
           forall i | 0 <= i < |proc| :: proc[i] == ':' || IsNameChar(proc[i]);
  }

  // ---- app ids that change ----

  /** What is known: the table only, or the packages and the app ids in force when each was indexed. */
  datatype State = Unread(rows: set<Row>) | Read(packages: Packages, ids: Installed)

  datatype Command =
    | Add(pkg: string, proc: string)
    | Remove(pkg: string, proc: string)
    | Rescan
    | Ask(uid: nat, process: string)

  /** A command, and what is installed when it comes. */
  datatype Step = Step(command: Command, now: Installed)

  function Opened(s: State, now: Installed): State {
    if s.Read? then s else Read(Surviving(FromRows(s.rows), now), now)
  }

  function ProcOf(pkg: string, process: string): string { if process == "" then pkg else process }

  /** The process can be added and is not there yet. */
  predicate IsAdded(m: Packages, pkg: string, process: string, now: Installed) {
    var proc := ProcOf(pkg, process);
    Validate(pkg, proc) && AppId(pkg, now) != 0 && !(pkg in m && proc in m[pkg])
  }

  function Added(m: Packages, pkg: string, process: string): Packages {
    m[pkg := (if pkg in m then m[pkg] else {}) + {ProcOf(pkg, process)}]
  }

  predicate IsRemoved(m: Packages, pkg: string, proc: string) { pkg in m && (proc == "" || proc in m[pkg]) }

  /** The package goes with the process. */
  predicate IsForgotten(m: Packages, pkg: string, proc: string) {
    IsRemoved(m, pkg, proc) && (proc == "" || m[pkg] == {proc})
  }

  function Less(m: Packages, pkg: string, proc: string): Packages
    requires IsRemoved(m, pkg, proc)
  {
    if IsForgotten(m, pkg, proc) then m - {pkg} else m[pkg := m[pkg] - {proc}]
  }

  function Reindexed(ids: Installed, pkg: string, now: Installed): Installed {
    p => if p == pkg then now(p) else ids(p)
  }

  function Next(s: State, step: Step): State {
    var o, now := Opened(s, step.now), step.now;
    match step.command
    case Add(pkg, proc) =>
      if !Validate(pkg, ProcOf(pkg, proc)) then s
      else if !IsAdded(o.packages, pkg, proc, now) then o
      else Read(Added(o.packages, pkg, proc), Reindexed(o.ids, pkg, now))
    case Remove(pkg, proc) =>
      if IsRemoved(o.packages, pkg, proc) then Read(Less(o.packages, pkg, proc), o.ids) else o
    case Rescan => if s.Read? then Read(Surviving(s.packages, now), now) else s
    case Ask(_, _) => o
  }

  // ---- what is listed in the end ----

  /** The process is listed for the package. */
  predicate Lists(s: State, p: string, q: string) {
    match s
    case Unread(rows) => (p, q) in rows
    case Read(m, _) => p in m && q in m[p]
  }

  /** The command reads the table first, and drops packages that are not installed. */
  predicate IsOpening(s: State, step: Step) {
    s.Unread? && match step.command
                 case Add(pkg, proc) => Validate(pkg, if proc == "" then pkg else proc)
                 case Rescan => false
                 case _ => true
  }

  predicate IsThere(p: string, now: Installed) { p == "isolated" || now(p) > 0 }

  /** Each command decides for each package and process alone: it is listed if it was and is not removed, or is added;
      no process means the process of the package when adding, and all of them when removing. */
  lemma ListedNext(s: State, step: Step, p: string, q: string)
    ensures var now := step.now;
            var was := Lists(s, p, q) && (IsOpening(s, step) ==> IsThere(p, now));
            Lists(Next(s, step), p, q) <==>
            match step.command
            case Add(pkg, proc) =>
              was || (p == pkg && q == (if proc == "" then pkg else proc) && Validate(pkg, q) && IsThere(pkg, now))
            case Remove(pkg, proc) => was && !(p == pkg && (proc == "" || proc == q))
            case Rescan => was && (s.Read? ==> IsThere(p, now))
            case Ask(_, _) => was
  {
    hide Validate;
    if s.Unread? {
      FromRowsAt(s.rows, p);
    }
  }

  predicate Adds(x: Command, p: string, q: string) {
    x.Add? && x.pkg == p && q == (if x.proc == "" then p else x.proc) && Validate(p, q)
  }

  predicate Removes(x: Command, p: string, q: string) { x.Remove? && x.pkg == p && (x.proc == "" || x.proc == q) }

  /** No command from this one on removes it. */
  predicate IsKept(steps: seq<Step>, i: nat, p: string, q: string) {
    forall j | i <= j < |steps| :: !Removes(steps[j].command, p, q)
  }

  predicate IsAddedAt(steps: seq<Step>, i: nat, p: string, q: string) {
    i < |steps| && Adds(steps[i].command, p, q) && IsKept(steps, i, p, q)
  }

  lemma InstalledNext(s: State, x: Step, p: string, q: string)
    requires IsThere(p, x.now)
    ensures Lists(Next(s, x), p, q) <==> Adds(x.command, p, q) || (Lists(s, p, q) && !Removes(x.command, p, q))
  {
    hide Next, Validate;
    ListedNext(s, x, p, q);
  }

  lemma KeptNext(steps: seq<Step>, i: nat, p: string, q: string)
    requires i < |steps|
    ensures IsKept(steps, i, p, q) <==>
            IsKept(steps[..|steps| - 1], i, p, q) && !Removes(steps[|steps| - 1].command, p, q)
  {
    hide Removes;
  }

  lemma AddedNext(steps: seq<Step>, p: string, q: string)
    requires steps != []
    ensures var init, x := steps[..|steps| - 1], steps[|steps| - 1].command;
            (exists i: nat :: IsAddedAt(steps, i, p, q)) <==>
            Adds(x, p, q) || ((exists i: nat :: IsAddedAt(init, i, p, q)) && !Removes(x, p, q))
  {
    hide IsKept;
    var n := |steps| - 1;
    var init := steps[..n];
    KeptNext(steps, n, p, q);
    assert IsKept(init, n, p, q) by { NothingBehind(init, p, q); }
    assert IsAddedAt(steps, n, p, q) <==> Adds(steps[n].command, p, q);
    forall i: nat | i < n
      ensures IsAddedAt(steps, i, p, q) <==> IsAddedAt(init, i, p, q) && !Removes(steps[n].command, p, q)
    {
      KeptNext(steps, i, p, q);
    }
    if i: nat :| IsAddedAt(init, i, p, q) {
      assert IsAddedAt(steps, i, p, q) <==> !Removes(steps[n].command, p, q);
    }
  }

  lemma NothingBehind(steps: seq<Step>, p: string, q: string)
    ensures IsKept(steps, |steps|, p, q)
  {
  }

  /** Over a whole run, for a package that is installed throughout, the last word counts: a process is listed in the end
      iff a command added it, or it was listed at first, and no later command removed it. */
  lemma {:induction false} LastWordCounts(s: State, steps: seq<Step>, p: string, q: string, now: Installed)
    requires IsThere(p, now) && forall x | x in steps :: x.now == now
    ensures Lists(After(s, steps), p, q) <==>
            (Lists(s, p, q) && IsKept(steps, 0, p, q)) || exists i: nat :: IsAddedAt(steps, i, p, q)
  {
    if steps != [] {
      var n := |steps| - 1;
      LastWordCounts(s, steps[..n], p, q, now);
      hide Next, Adds, Removes, IsKept, IsAddedAt, Lists;
      InstalledNext(After(s, steps[..n]), steps[n], p, q);
      KeptNext(steps, 0, p, q);
      AddedNext(steps, p, q);
    }
  }

  /** The app id is the one the package was indexed under, if it was. */
  predicate IsSameId(m: Packages, ids: Installed, pkg: string, now: Installed) {
    pkg in m && pkg != ISOLATED ==> now(pkg) == ids(pkg)
  }

  /** A step that changes the index entry of a package that is there has to see the same app id. */
  predicate IsStable(s: State, step: Step) {
    var o, now := Opened(s, step.now), step.now;
    match step.command
    case Add(pkg, proc) => IsAdded(o.packages, pkg, proc, now) ==> IsSameId(o.packages, o.ids, pkg, now)
    case Remove(pkg, proc) => IsForgotten(o.packages, pkg, proc) ==> IsSameId(o.packages, o.ids, pkg, now)
    case _ => true
  }

  function After(s: State, steps: seq<Step>): State {
    if steps == [] then s else Next(After(s, steps[..|steps| - 1]), steps[|steps| - 1])
  }

  predicate AreStable(s: State, steps: seq<Step>) {
    forall i | 0 <= i < |steps| :: IsStable(After(s, steps[..i]), steps[i])
  }

  lemma SameIdsNext(s: State, step: Step)
    requires s.Read? ==> forall p :: s.ids(p) == step.now(p)
    ensures IsStable(s, step)
    ensures Next(s, step).Read? ==> forall p :: Next(s, step).ids(p) == step.now(p)
  {
    hide Validate, Surviving, FromRows;
  }

  /** As long as the app ids stay the same, any commands are stable. */
  lemma {:induction false} SameIdsAreStable(s: State, steps: seq<Step>, now: Installed)
    requires forall i | 0 <= i < |steps| :: steps[i].now == now
    requires s.Read? ==> forall p :: s.ids(p) == now(p)
    ensures AreStable(s, steps)
    ensures After(s, steps).Read? ==> forall p :: After(s, steps).ids(p) == now(p)
  {
    hide Next, IsStable;
    if steps != [] {
      var n := |steps| - 1;
      var init := steps[..n];
      SameIdsAreStable(s, init, now);
      SameIdsNext(After(s, init), steps[n]);
      forall i | 0 <= i < |steps| ensures IsStable(After(s, steps[..i]), steps[i]) {
        if i < n {
          assert init[..i] == steps[..i] && IsStable(After(s, init[..i]), init[i]);
        }
      }
    }
  }

  class DenyList {
    var loaded: bool        // the maps below exist
    var packages: Packages  // pkg_to_procs
    var index: Index        // app_id_to_pkgs
    var rows: set<Row>      // the table in the database

    /** The index is the inverse image, every indexed package is there, and no set is empty. */
    ghost predicate Valid(ids: Installed)
      reads this
    {
      loaded ==>
        && index == InverseImage(packages, ids)
        && (forall p | p in packages :: packages[p] != {} && (p != ISOLATED ==> ids(p) > 0))
    }

    /** Memory and database hold the same. */
    ghost predicate InSync()
      reads this
    {
      loaded ==> rows == RowsOf(packages)
    }

    /** What the maps hold once ensure_data has run. */
    ghost function View(now: Installed): Packages
      reads this
    {
      if loaded then packages else Surviving(FromRows(rows), now)
    }

    /** The app ids the index is about once ensure_data has run. */
    ghost function Base(ids: Installed, now: Installed): Installed
      reads this
    {
      if loaded then ids else now
    }

    ghost predicate Represents(s: State)
      reads this
    {
      match s
      case Unread(table) => !loaded && rows == table
      case Read(m, ids) => loaded && packages == m && Valid(ids) && InSync()
    }

    constructor (table: set<Row>)
      ensures !loaded && rows == table
    {
      loaded, packages, index, rows := false, map[], map[], table;
    }

    method UpdateAppId(id: int, pkg: string, remove: bool)
      modifies this`index
      ensures index == if remove then IndexRemove(old(index), id, pkg) else IndexAdd(old(index), id, pkg)
    {
      if id <= 0 {
        return;
      }
      if remove {
        if id in index {
          var left := index[id] - {pkg};
          if left == {} {
            index := index - {id};
          } else {
            index := index[id := left];
          }
        }
      } else {
        index := index[id := (if id in index then index[id] else {}) + {pkg}];
      }
    }

    /** scan_deny_apps: rebuild the index, dropping packages that are gone. */
    method Scan(now: Installed, dbOk: bool)
      requires loaded && forall p | p in packages :: packages[p] != {}
      modifies this`packages, this`index, this`rows
      ensures packages == Surviving(old(packages), now) && Valid(now)
      ensures rows == if dbOk then ScannedRows(old(rows), old(packages), {}, now) else old(rows)
      ensures old(InSync()) && dbOk ==> InSync()
    {
      hide InverseImage, Surviving, Scanned, ScannedRows, RowsOf, IsGone;
      index := map[];
      var rest := packages.Keys;
      ghost var all := packages;
      ScanEnds(all, rows, now);
      while rest != {}
        invariant rest <= all.Keys && index == InverseImage(Surviving(all - rest, now), now)
        invariant packages == Scanned(all, rest, now)
        invariant rows == if dbOk then ScannedRows(old(rows), all, rest, now) else old(rows)
        decreases rest
      {
        var p :| p in rest;
        ScanStep(all, rest, now, p);
        ScanStepRows(old(rows), all, rest, now, p);
        ScanOne(p, all[p], now, dbOk, Surviving(all - rest, now));
        rest := rest - {p};
      }
      assert forall p | p in packages ::
               packages[p] != {} && (p != ISOLATED ==> now(p) > 0) by { SurvivingAre(all, now); }
    }

    method ScanOne(p: string, ghost procs: set<string>, now: Installed, dbOk: bool, ghost seen: Packages)
      requires index == InverseImage(seen, now)
      modifies this`packages, this`index, this`rows
      ensures packages == if IsGone(p, now) then old(packages) - {p} else old(packages)
      ensures rows == if IsGone(p, now) && dbOk then set r | r in old(rows) && r.0 != p else old(rows)
      ensures index == InverseImage(if IsGone(p, now) then seen else seen[p := procs], now)
    {
      hide InverseImage;
      if p == ISOLATED {
        AddKeepsIndex(seen, now, p, procs);
        return;
      }
      var id := now(p);
      if id == 0 {
        if dbOk {
          rows := set r | r in rows && r.0 != p;
        }
        packages := packages - {p};
      } else {
        AddKeepsIndex(seen, now, p, procs);
        UpdateAppId(id, p, false);
      }
    }

    /** ensure_data: read the table once, then scan. */
    method EnsureData(now: Installed, dbOk: bool, ghost ids: Installed) returns (ok: bool)
      requires Valid(ids) && InSync()
      modifies this
      ensures ok <==> old(loaded) || dbOk
      ensures InSync() && loaded == ok
      ensures ok ==> packages == old(View(now)) && Valid(old(Base(ids, now)))
    {
      hide InverseImage, Surviving, RowsOf, FromRows, ScannedRows;
      if loaded {
        return true;
      }
      if !dbOk {
        return false;
      }
      FromRowsOf(rows);
      packages := ReadRows(rows);
      loaded, index := true, map[];
      Scan(now, dbOk);
      ok := true;
    }

    /** add_hide_set for every row of the table, in whatever order the rows come. */
    static method ReadRows(rows: set<Row>) returns (m: Packages)
      ensures m == FromRows(rows)
    {
      m := map[];
      var rest := rows;
      assert FromRows({}) == map[];
      assert rows - rest == {};
      while rest != {}
        invariant rest <= rows && m == FromRows(rows - rest)
        decreases rest
      {
        var r :| r in rest;
        ReadRow(rows - rest, r);
        m := m[r.0 := (if r.0 in m then m[r.0] else {}) + {r.1}];
        assert rows - (rest - {r}) == (rows - rest) + {r};
        rest := rest - {r};
      }
      assert rows - rest == rows;
    }

    /** add_list: the index stays right, with the package under its app id of now, when a package that is there still
        has the app id it was indexed under. */
    method AddList(pkg: string, process: string, now: Installed, dbOk: bool, ghost ids: Installed) returns (r: Response)
      requires Valid(ids) && InSync()
      modifies this
      ensures dbOk ==> InSync()
      ensures var v := old(View(now));
              if !Validate(pkg, ProcOf(pkg, process)) then
                r == InvalidPackage && packages == old(packages) && loaded == old(loaded) && rows == old(rows)
              else if !old(loaded) && !dbOk then r == Failed && !loaded
              else if AppId(pkg, now) == 0 then r == InvalidPackage && loaded && packages == v
              else if !IsAdded(v, pkg, process, now) then r == ItemExists && loaded && packages == v
              else r == (if dbOk then Done else Failed) && loaded && packages == Added(v, pkg, process)
      ensures var v, base := old(View(now)), old(Base(ids, now));
              && (loaded && !IsAdded(v, pkg, process, now) ==> Valid(base))
              && (IsAdded(v, pkg, process, now) && IsSameId(v, base, pkg, now) ==> Valid(Reindexed(base, pkg, now)))
    {
      hide InverseImage, Surviving, RowsOf, FromRows, Validate;
      var proc := if process == "" then pkg else process;
      if !Validate(pkg, proc) {
        return InvalidPackage;
      }
      var ok := EnsureData(now, dbOk, ids);
      if !ok {
        return Failed;
      }
      var id := AppId(pkg, now);
      if id == 0 {
        return InvalidPackage;
      }
      var procs := if pkg in packages then packages[pkg] else {};
      if proc in procs {
        return ItemExists;
      }
      AddedRow(packages, pkg, proc);
      ghost var base := old(Base(ids, now));
      if IsSameId(packages, base, pkg, now) {
        OnlyListedMatter(packages, base, Reindexed(base, pkg, now));
        AddKeepsIndex(packages, Reindexed(base, pkg, now), pkg, procs + {proc});
      }
      packages := packages[pkg := procs + {proc}];
      UpdateAppId(id, pkg, false);
      if !dbOk {
        return Failed;
      }
      rows := rows + {(pkg, proc)};
      r := Done;
    }

    /** rm_list: the index stays right when a package that goes still has the app id it was indexed under. */
    method RmList(pkg: string, proc: string, now: Installed, dbOk: bool, ghost ids: Installed) returns (r: Response)
      requires Valid(ids) && InSync()
      modifies this
      ensures dbOk ==> InSync()
      ensures var v := old(View(now));
              if !old(loaded) && !dbOk then r == Failed && !loaded
              else if !IsRemoved(v, pkg, proc) then r == ItemMissing && loaded && packages == v
              else r == (if dbOk then Done else Failed) && loaded && packages == Less(v, pkg, proc)
      ensures var v, base := old(View(now)), old(Base(ids, now));
              loaded && (IsForgotten(v, pkg, proc) ==> IsSameId(v, base, pkg, now)) ==> Valid(base)
    {
      hide InverseImage, Surviving, RowsOf, FromRows;
      var ok := EnsureData(now, dbOk, ids);
      if !ok {
        return Failed;
      }
      if pkg !in packages || (proc != "" && proc !in packages[pkg]) {
        return ItemMissing;
      }
      RemovedRows(packages, pkg, proc);
      ghost var base := old(Base(ids, now));
      if proc == "" {
        ForgetPackage(pkg, now, base);
      } else {
        var left := packages[pkg] - {proc};
        if left == {} {
          assert packages[pkg] == {proc};
          ForgetPackage(pkg, now, base);
        } else {
          ShrunkKeepsIndex(packages, base, pkg, left);
          packages := packages[pkg := left];
        }
      }
      if !dbOk {
        return Failed;
      }
      rows := set row | row in rows && !(row.0 == pkg && (proc == "" || row.1 == proc));
      r := Done;
    }

    method ForgetPackage(pkg: string, now: Installed, ghost ids: Installed)
      requires loaded && Valid(ids) && pkg in packages
      modifies this`packages, this`index
      ensures packages == old(packages) - {pkg}
      ensures IsSameId(old(packages), ids, pkg, now) ==> Valid(ids)
    {
      hide InverseImage;
      if pkg == ISOLATED {
        IsolatedIsNotIndexed(packages, ids);
      } else {
        RemoveKeepsIndex(packages, ids, pkg, AppId(pkg, now));
      }
      UpdateAppId(AppId(pkg, now), pkg, true);
      packages := packages - {pkg};
    }

    /** is_deny_target: through the index, yet the answer of a plain scan. */
    method IsDenyTarget(uid: nat, process: string, now: Installed, dbOk: bool, ghost ids: Installed) returns (r: bool)
      requires Valid(ids) && InSync()
      modifies this
      ensures InSync() && loaded == (old(loaded) || dbOk)
      ensures loaded ==> packages == old(View(now)) && Valid(old(Base(ids, now)))
      ensures r == (loaded && IsTarget(old(View(now)), old(Base(ids, now)), uid, process))
    {
      hide InverseImage, Surviving, RowsOf, FromRows;
      ghost var base := Base(ids, now);
      var ok := EnsureData(now, dbOk, ids);
      if !ok {
        return false;
      }
      var id := uid % USER_OFFSET;
      if id >= FIRST_ISOLATED {
        if ISOLATED in packages {
          r := exists s | s in packages[ISOLATED] :: s <= process;
        } else {
          r := false;
        }
      } else {
        InverseImageOf(packages, base, id);
        r := false;
        if id in index {
          var rest := index[id];
          while rest != {}
            invariant rest <= index[id] == PackagesOf(packages, base, id)
            invariant forall p | p in index[id] - rest :: process !in packages[p]
            decreases rest
          {
            var p :| p in rest;
            if process in packages[p] {
              assert IsIndexed(p, packages, base, id);
              return true;
            }
            rest := rest - {p};
          }
        }
      }
    }

    /** One command under a working database. */
    method Perform(step: Step, ghost s: State)
      requires Represents(s) && IsStable(s, step)
      modifies this
      ensures Represents(Next(s, step))
    {
      hide InverseImage, Surviving, RowsOf, FromRows, Validate, ScannedRows;
      var now := step.now;
      ghost var ids := if s.Read? then s.ids else now;
      match step.command
      case Add(pkg, proc) =>
        var _ := AddList(pkg, proc, now, true, ids);
      case Remove(pkg, proc) =>
        var _ := RmList(pkg, proc, now, true, ids);
      case Rescan =>
        if loaded {
          Scan(now, true);
        }
      case Ask(uid, process) =>
        var _ := IsDenyTarget(uid, process, now, true, ids);
    }

    /** Any sequence of commands, whatever is installed when each of them comes: index and table stay right, the index
        being about the app ids in force when each package was indexed. */
    method Run(steps: seq<Step>, ghost s: State)
      requires Represents(s) && AreStable(s, steps)
      modifies this
      ensures Represents(After(s, steps))
    {
      hide Next, IsStable;
      assert steps[..0] == [];
      for i := 0 to |steps|
        invariant Represents(After(s, steps[..i]))
      {
        assert steps[..i + 1][..i] == steps[..i];
        Perform(steps[i], After(s, steps[..i]));
      }
      assert steps[..|steps|] == steps;
    }
  }

  lemma ReadRow(rows: set<Row>, r: Row)
    ensures var m := FromRows(rows);
            FromRows(rows + {r}) == m[r.0 := (if r.0 in m then m[r.0] else {}) + {r.1}]
  {
    var m, m' := FromRows(rows), FromRows(rows + {r});
    var n := m[r.0 := (if r.0 in m then m[r.0] else {}) + {r.1}];
    forall p ensures p in m' <==> p in n {
      FromRowsAt(rows, p);
      FromRowsAt(rows + {r}, p);
    }
    forall p | p in m' ensures m'[p] == n[p] {
      FromRowsAt(rows, p);
      FromRowsAt(rows + {r}, p);
    }
  }

  lemma FromRowsAt(rows: set<Row>, p: string)
    ensures p in FromRows(rows) <==> exists q :: (p, q) in rows
    ensures p in FromRows(rows) ==> forall q :: q in FromRows(rows)[p] <==> (p, q) in rows
  {
    if q :| (p, q) in rows {
      assert (p, q).0 == p;
    }
    if p in FromRows(rows) {
      var x :| x in rows && x.0 == p;
      assert (p, x.1) in rows;
      forall q | (p, q) in rows ensures q in ProcsOf(rows, p) {
        assert (p, q).1 == q;
      }
    }
  }

  lemma AddedRow(m: Packages, pkg: string, proc: string)
    ensures RowsOf(m[pkg := (if pkg in m then m[pkg] else {}) + {proc}]) == RowsOf(m) + {(pkg, proc)}
  {
    var m' := m[pkg := (if pkg in m then m[pkg] else {}) + {proc}];
    forall r: Row ensures r in RowsOf(m') <==> r in RowsOf(m) || r == (pkg, proc) {
      RowIn(m, r);
      RowIn(m', r);
    }
  }

  lemma RowIn(m: Packages, r: Row)
    ensures r in RowsOf(m) <==> r.0 in m && r.1 in m[r.0]
  {
    if r.0 in m && r.1 in m[r.0] {
      assert (r.0, r.1) in RowsOf(m);
    }
  }

  lemma RemovedRows(m: Packages, pkg: string, proc: string)
    requires pkg in m && (proc == "" || proc in m[pkg])
    ensures var m' := if proc == "" || m[pkg] == {proc} then m - {pkg} else m[pkg := m[pkg] - {proc}];
            RowsOf(m') == set row | row in RowsOf(m) && !(row.0 == pkg && (proc == "" || row.1 == proc))
  {
    var m' := if proc == "" || m[pkg] == {proc} then m - {pkg} else m[pkg := m[pkg] - {proc}];
    forall r: Row ensures r in RowsOf(m') <==> r in RowsOf(m) && !(r.0 == pkg && (proc == "" || r.1 == proc)) {
      RowIn(m, r);
      RowIn(m', r);
    }
  }

  lemma ShrunkKeepsIndex(m: Packages, ids: Installed, pkg: string, procs: set<string>)
    requires pkg in m
    ensures InverseImage(m[pkg := procs], ids) == InverseImage(m, ids)
  {
    var m' := m[pkg := procs];
    forall id ensures id in InverseImage(m', ids) <==> id in InverseImage(m, ids) {
      InverseImageOf(m, ids, id);
      InverseImageOf(m', ids, id);
      assert forall p :: IsIndexed(p, m', ids, id) <==> IsIndexed(p, m, ids, id);
    }
    forall id | id in InverseImage(m, ids) ensures InverseImage(m', ids)[id] == InverseImage(m, ids)[id] {
      InverseImageOf(m, ids, id);
      InverseImageOf(m', ids, id);
    }
  }

  lemma IsolatedIsNotIndexed(m: Packages, ids: Installed)
    ensures InverseImage(m - {ISOLATED}, ids) == InverseImage(m, ids)
  {
    var m' := m - {ISOLATED};
    forall id ensures id in InverseImage(m', ids) <==> id in InverseImage(m, ids) {
      InverseImageOf(m, ids, id);
      InverseImageOf(m', ids, id);
      assert forall p :: IsIndexed(p, m', ids, id) <==> IsIndexed(p, m, ids, id);
    }
    forall id | id in InverseImage(m, ids) ensures InverseImage(m', ids)[id] == InverseImage(m, ids)[id] {
      InverseImageOf(m, ids, id);
      InverseImageOf(m', ids, id);
    }
  }

  lemma SurvivingAre(m: Packages, now: Installed)
    ensures forall p | p in Surviving(m, now) ::
              p in m && Surviving(m, now)[p] == m[p] && (p != ISOLATED ==> now(p) > 0)
  {
  }

  lemma EmptyInverse(ids: Installed)
    ensures InverseImage(map[], ids) == map[]
  {
  }
}
