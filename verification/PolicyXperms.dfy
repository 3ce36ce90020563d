/**
  Extended permission rules (native/src/sepolicy/sepolicy.cpp): the ioctl numbers a key allows, as its driver node
  and its function nodes denote them.
 */
module PolicyXperms {
  import opened Wrappers
  import Bytes
  import opened AvTab
  import opened PolicyRules
  import opened StatementParser

  const POLICYDB_VERSION_XPERMS_IOCTL := 30

  type byte = Bytes.byte

  /** The list of nodes has the function nodes by their driver, and the driver node last. */
  const DRIVER_NODE := 256

  const ALL_BYTES: set<byte> := set i: byte | 0 <= i < 256

  function Driver(x: nat): byte { x / 256 % 256 }

  function Func(x: nat): byte { x % 256 }

  function ByteRange(low: byte, high: byte): set<byte> { set i | i in ALL_BYTES && low <= i <= high }

  // ---- what the nodes of a key denote ----

  predicate Denotes(x: Xperms, ioctl: nat) {
    || (x.kind == IoctlDriver && Driver(ioctl) in x.perms)
    || (x.kind == IoctlFunction && x.driver == Driver(ioctl) && Func(ioctl) in x.perms)
  }

  ghost predicate Allows(entries: Entries, key: Key, ioctl: nat) {
    exists p :: Has(entries, p, key) && entries[p].xperms.Some? && Denotes(entries[p].xperms.value, ioctl)
  }

  /** The place of a node in the list, if it has one. */
  function Place(x: Xperms): Option<nat> {
    match x.kind
    case IoctlDriver => Some(DRIVER_NODE)
    case IoctlFunction => Some(x.driver)
    case OtherKind => None
  }

  /** A key has at most one driver node and one function node for each driver. */
  ghost predicate AreIoctls(entries: Entries, key: Key) {
    && (forall p | Has(entries, p, key) :: entries[p].xperms.Some?)
    && (forall p, q | Has(entries, p, key) && Has(entries, q, key) && Place(entries[p].xperms.value).Some?
                      && Place(entries[p].xperms.value) == Place(entries[q].xperms.value) :: p == q)
  }

  type NodeList = l: seq<Option<Ptr>> | |l| == 257 witness seq(257, _ => None)

  ghost predicate IsAt(entries: Entries, key: Key, p: Ptr, i: nat) {
    Has(entries, p, key) && entries[p].xperms.Some? && Place(entries[p].xperms.value) == Some(i)
  }

  /** The list has exactly the driver node and the function nodes of the key. */
  ghost predicate IsList(entries: Entries, key: Key, list: NodeList) {
    && (forall p | Has(entries, p, key) :: entries[p].xperms.Some?)
    && (forall i | 0 <= i <= 256 && list[i].Some? :: IsAt(entries, key, list[i].value, i))
    && (forall p: Ptr, i: nat | i <= 256 && IsAt(entries, key, p, i) :: list[i] == Some(p))
  }

  ghost function Bitmap(entries: Entries, key: Key, list: NodeList, i: nat): set<byte>
    requires IsList(entries, key, list) && i <= 256
  {
    if list[i].Some? then entries[list[i].value].xperms.value.perms else {}
  }

  lemma ListIsUnique(entries: Entries, key: Key, list: NodeList)
    requires IsList(entries, key, list)
    ensures AreIoctls(entries, key)
  {
    forall p, q | Has(entries, p, key) && Has(entries, q, key) && Place(entries[p].xperms.value).Some?
                  && Place(entries[p].xperms.value) == Place(entries[q].xperms.value)
      ensures p == q
    {
      var i := Place(entries[p].xperms.value).value;
      assert IsAt(entries, key, p, i) && IsAt(entries, key, q, i);
    }
  }

  /** The ioctls a key allows, in terms of the bitmaps of the list. */
  lemma AllowsByList(entries: Entries, key: Key, list: NodeList, x: nat)
    requires IsList(entries, key, list)
    ensures Allows(entries, key, x) <==>
            Driver(x) in Bitmap(entries, key, list, 256) || Func(x) in Bitmap(entries, key, list, Driver(x))
  {
    if Driver(x) in Bitmap(entries, key, list, 256) {
      assert IsAt(entries, key, list[256].value, 256);
    }
    if Func(x) in Bitmap(entries, key, list, Driver(x)) {
      assert IsAt(entries, key, list[Driver(x)].value, Driver(x));
    }
    if p :| Has(entries, p, key) && entries[p].xperms.Some? && Denotes(entries[p].xperms.value, x) {
      assert IsAt(entries, key, p, Place(entries[p].xperms.value).value);
    }
  }

  /** Other keys, and nodes of other kinds, are the same before and after. */
  ghost predicate KeepsRest(before: Entries, after: Entries, key: Key) {
    && KeepsOther(before, after, {key})
    && (forall p | Has(before, p, key) && before[p].xperms.Some? && before[p].xperms.value.kind == OtherKind ::
          p in after && after[p] == before[p])
  }

  /** From before, the nodes of the key have come to be those of the list, with the given bitmaps. */
  ghost predicate Holds(before: Entries, after: Entries, key: Key, list: NodeList, maps: seq<set<byte>>) {
    && IsList(after, key, list)
    && KeepsRest(before, after, key)
    && |maps| == 257
    && forall i | 0 <= i <= 256 :: Bitmap(after, key, list, i) == maps[i]
  }

  // ---- finding the nodes ----

  method CollectNodes(te: Table, key: Key) returns (list: NodeList)
    requires te.Valid() && AreIoctls(te.entries, key)
    ensures IsList(te.entries, key, list)
  {
    hide IsTable;
    list := seq(257, _ => None);
    ghost var at;
    var node;
    node, at := te.SearchNode(key);
    while node.Some?
      invariant at <= |te.Chain(key)| && node == At(te.Chain(key), at)
      invariant node.Some? ==> Has(te.entries, node.value, key)
      invariant forall i | 0 <= i <= 256 && list[i].Some? :: IsAt(te.entries, key, list[i].value, i)
      invariant forall k, i | 0 <= k < at && 0 <= i <= 256 && IsAt(te.entries, key, te.Chain(key)[k], i) ::
                  list[i] == Some(te.Chain(key)[k])
      decreases |te.Chain(key)| - at
    {
      var x := te.entries[node.value].xperms.value;
      if x.kind == IoctlDriver {
        list := list[DRIVER_NODE := node];
      } else if x.kind == IoctlFunction {
        list := list[x.driver := node];
      }
      node, at := te.SearchNodeNext(node.value, key, at);
    }
    te.Head(key);
  }

  // ---- changing the nodes ----

  /** A place of the list, as the kind and driver of its node. */
  function NodeFor(i: nat, perms: set<byte>): Xperms
    requires i <= 256
  {
    if i == DRIVER_NODE then Xperms(IoctlDriver, 0, perms) else Xperms(IoctlFunction, i, perms)
  }

  lemma Added(first: Entries, before: Entries, key: Key, was: NodeList, maps: seq<set<byte>>, p: Ptr, i: nat,
              data: Word)
    requires Holds(first, before, key, was, maps) && i <= 256 && was[i].None? && p !in before
    ensures Holds(first, before[p := Entry(key, data, Some(NodeFor(i, {})))], key, was[i := Some(p)], maps)
  {
    var after, list := before[p := Entry(key, data, Some(NodeFor(i, {})))], was[i := Some(p)];
    forall q: Ptr, j: nat | j <= 256 && IsAt(after, key, q, j) ensures list[j] == Some(q) {
      if q != p {
        assert IsAt(before, key, q, j);
      }
    }
    forall j | 0 <= j <= 256 && list[j].Some? ensures IsAt(after, key, list[j].value, j) {
      if j != i {
        assert IsAt(before, key, list[j].value, j);
      }
    }
  }

  lemma Overwritten(first: Entries, before: Entries, key: Key, list: NodeList, maps: seq<set<byte>>, i: nat,
                    perms: set<byte>)
    requires Holds(first, before, key, list, maps) && i <= 256 && list[i].Some?
    ensures var p := list[i].value;
            && IsAt(before, key, p, i)
            && Holds(first, before[p := before[p].(xperms := Some(before[p].xperms.value.(perms := perms)))], key, list,
                     maps[i := perms])
  {
    var p := list[i].value;
    assert IsAt(before, key, p, i);
    var after := before[p := before[p].(xperms := Some(before[p].xperms.value.(perms := perms)))];
    forall q: Ptr, j: nat ensures IsAt(after, key, q, j) <==> IsAt(before, key, q, j) {
    }
    forall j | 0 <= j <= 256 && j != i && list[j].Some? ensures list[j].value != p {
      assert IsAt(before, key, list[j].value, j);
    }
  }

  lemma Removed(first: Entries, before: Entries, key: Key, was: NodeList, maps: seq<set<byte>>, i: nat)
    requires Holds(first, before, key, was, maps) && i <= 256 && was[i].Some?
    ensures was[i].value in before
    ensures Holds(first, before - {was[i].value}, key, was[i := None], maps[i := {}])
  {
    var p := was[i].value;
    var after, list := before - {p}, was[i := None];
    assert IsAt(before, key, p, i);
    forall q: Ptr, j: nat | j <= 256 && IsAt(after, key, q, j) ensures list[j] == Some(q) {
      assert IsAt(before, key, q, j);
    }
    forall j | 0 <= j <= 256 && list[j].Some? ensures IsAt(after, key, list[j].value, j) && list[j].value != p {
      assert IsAt(before, key, list[j].value, j);
    }
  }

  /** new_driver_node and new_func_node: a node with an empty bitmap. */
  method NewNode(te: Table, key: Key, list: NodeList, i: nat, ghost first: Entries, ghost maps: seq<set<byte>>)
    returns (r: NodeList)
    requires te.Valid() && Holds(first, te.entries, key, list, maps) && i <= 256 && list[i].None?
    modifies te
    ensures te.Valid() && Holds(first, te.entries, key, r, maps)
    ensures r[i].Some? && forall j | 0 <= j <= 256 && j != i :: r[j] == list[j]
  {
    hide IsTable, Holds;
    var p := te.InsertNonunique(key, Default(key));
    te.Store(p, Default(key), Some(NodeFor(i, {})));
    r := list[i := Some(p)];
    assert te.entries == old(te.entries)[p := Entry(key, Default(key), Some(NodeFor(i, {})))];
    Added(first, old(te.entries), key, list, maps, p, i, Default(key));
  }

  /** A store of a whole bitmap, as memset does. */
  method SetBitmap(te: Table, key: Key, list: NodeList, i: nat, perms: set<byte>, ghost first: Entries,
                   ghost maps: seq<set<byte>>)
    requires te.Valid() && Holds(first, te.entries, key, list, maps) && i <= 256 && list[i].Some?
    modifies te
    ensures te.Valid() && Holds(first, te.entries, key, list, maps[i := perms])
  {
    Overwritten(first, te.entries, key, list, maps, i, perms);
    hide IsTable, Holds;
    var e := te.entries[list[i].value];
    te.Store(list[i].value, e.data, Some(e.xperms.value.(perms := perms)));
  }

  method DeleteNode(te: Table, key: Key, list: NodeList, i: nat, ghost first: Entries, ghost maps: seq<set<byte>>)
    requires te.Valid() && Holds(first, te.entries, key, list, maps) && i <= 256 && list[i].Some?
    modifies te
    ensures te.Valid() && Holds(first, te.entries, key, list[i := None], maps[i := {}])
  {
    Removed(first, te.entries, key, list, maps, i);
    hide IsTable, Holds;
    ghost var k := te.RemoveNode(list[i].value);
  }

  // ---- one rule ----

  /** The ioctls a range stands for: whole drivers, unless it stays within one. */
  predicate Spans(x: Xperm, ioctl: nat) {
    if Driver(x.low) != Driver(x.high) then Driver(x.low) <= Driver(ioctl) <= Driver(x.high)
    else Driver(ioctl) == Driver(x.low) && Func(x.low) <= Func(ioctl) <= Func(x.high)
  }

  lemma Current(first: Entries, entries: Entries, key: Key, list: NodeList, maps: seq<set<byte>>, i: nat)
    requires Holds(first, entries, key, list, maps) && i <= 256
    ensures |maps| == 257
    ensures list[i].Some? ==> list[i].value in entries && entries[list[i].value].xperms.Some?
                              && entries[list[i].value].xperms.value.perms == maps[i]
    ensures list[i].None? ==> maps[i] == {}
  {
    if list[i].Some? {
      assert IsAt(entries, key, list[i].value, i);
    }
  }

  /** xperm_set, for each bit from low to high */
  method SetBits(te: Table, key: Key, list: NodeList, i: nat, low: byte, high: byte, ghost first: Entries,
                 ghost maps: seq<set<byte>>)
    requires te.Valid() && Holds(first, te.entries, key, list, maps) && i <= 256 && list[i].Some?
    modifies te
    ensures te.Valid() && |maps| == 257
            && Holds(first, te.entries, key, list, maps[i := maps[i] + ByteRange(low, high)])
  {
    hide IsTable, Holds;
    Current(first, te.entries, key, list, maps, i);
    ghost var done: set<byte> := {};
    assert maps[i] + done == maps[i];
    assert maps[i := maps[i] + done] == maps;
    var k: nat := low;
    while k <= high
      invariant low <= k && (k == low || k <= high + 1) && done == set b | b in ALL_BYTES && low <= b < k
      invariant te.Valid() && Holds(first, te.entries, key, list, maps[i := maps[i] + done])
    {
      ghost var now := maps[i := maps[i] + done];
      Current(first, te.entries, key, list, now, i);
      var perms := te.entries[list[i].value].xperms.value.perms;
      SetBitmap(te, key, list, i, perms + {k}, first, now);
      done := done + {k};
      assert perms + {k} == maps[i] + done;
      assert now[i := perms + {k}] == maps[i := maps[i] + done];
      k := k + 1;
    }
    assert done == ByteRange(low, high);
  }

  /** xperm_clear, for each bit from low to high */
  method ClearBits(te: Table, key: Key, list: NodeList, i: nat, low: byte, high: byte, ghost first: Entries,
                   ghost maps: seq<set<byte>>)
    requires te.Valid() && Holds(first, te.entries, key, list, maps) && i <= 256 && list[i].Some?
    modifies te
    ensures te.Valid() && |maps| == 257
            && Holds(first, te.entries, key, list, maps[i := maps[i] - ByteRange(low, high)])
  {
    hide IsTable, Holds;
    Current(first, te.entries, key, list, maps, i);
    ghost var done: set<byte> := {};
    assert maps[i] - done == maps[i];
    assert maps[i := maps[i] - done] == maps;
    var k: nat := low;
    while k <= high
      invariant low <= k && (k == low || k <= high + 1) && done == set b | b in ALL_BYTES && low <= b < k
      invariant te.Valid() && Holds(first, te.entries, key, list, maps[i := maps[i] - done])
    {
      ghost var now := maps[i := maps[i] - done];
      Current(first, te.entries, key, list, now, i);
      var perms := te.entries[list[i].value].xperms.value.perms;
      SetBitmap(te, key, list, i, perms - {k}, first, now);
      done := done + {k};
      assert perms - {k} == maps[i] - done;
      assert now[i := perms - {k}] == maps[i := maps[i] - done];
      k := k + 1;
    }
    assert done == ByteRange(low, high);
  }

  /** The bitmaps after a range is added. */
  ghost function WithRange(maps: seq<set<byte>>, x: Xperm): seq<set<byte>>
    requires |maps| == 257
  {
    var d := Driver(x.low);
    if d != Driver(x.high) then maps[256 := maps[256] + ByteRange(d, Driver(x.high))]
    else maps[d := maps[d] + ByteRange(Func(x.low), Func(x.high))]
  }

  method AddRange(te: Table, key: Key, was: NodeList, x: Xperm, ghost first: Entries, ghost maps: seq<set<byte>>)
    returns (list: NodeList)
    requires te.Valid() && Holds(first, te.entries, key, was, maps)
    modifies te
    ensures te.Valid() && |maps| == 257 && Holds(first, te.entries, key, list, WithRange(maps, x))
  {
    hide IsTable, Holds;
    list := was;
    if Driver(x.low) != Driver(x.high) {
      if list[DRIVER_NODE].None? {
        list := NewNode(te, key, list, DRIVER_NODE, first, maps);
      }
      SetBits(te, key, list, DRIVER_NODE, Driver(x.low), Driver(x.high), first, maps);
    } else {
      var driver := Driver(x.low);
      if list[driver].None? {
        list := NewNode(te, key, list, driver, first, maps);
      }
      SetBits(te, key, list, driver, Func(x.low), Func(x.high), first, maps);
    }
  }

  function NoBits(): (r: seq<set<byte>>)
    ensures |r| == 257 && forall i | 0 <= i < 257 :: r[i] == {}
  {
    seq(257, _ => {})
  }

  /** The bitmaps that leave out a range and nothing else. */
  ghost function AllBut(x: Xperm): seq<set<byte>> {
    var d := Driver(x.low);
    if d != Driver(x.high) then NoBits()[256 := ALL_BYTES - ByteRange(d, Driver(x.high))]
    else NoBits()[256 := ALL_BYTES - {d}][d := ALL_BYTES - ByteRange(Func(x.low), Func(x.high))]
  }

  /** A reset removes the function nodes and clears the driver node. */
  method ClearNodes(te: Table, key: Key, was: NodeList, ghost first: Entries, ghost maps: seq<set<byte>>)
    returns (list: NodeList)
    requires te.Valid() && Holds(first, te.entries, key, was, maps)
    modifies te
    ensures te.Valid() && Holds(first, te.entries, key, list, NoBits())
    ensures forall i | 0 <= i < 256 :: list[i].None?
  {
    hide IsTable, Holds;
    list := was;
    ghost var now := maps;
    Current(first, te.entries, key, list, now, 0);
    for i := 0 to 256
      invariant te.Valid() && Holds(first, te.entries, key, list, now) && |now| == 257
      invariant forall j | 0 <= j < i :: list[j].None? && now[j] == {}
    {
      Current(first, te.entries, key, list, now, i);
      if list[i].Some? {
        DeleteNode(te, key, list, i, first, now);
        list, now := list[i := None], now[i := {}];
      }
    }
    Current(first, te.entries, key, list, now, DRIVER_NODE);
    if list[DRIVER_NODE].Some? {
      SetBitmap(te, key, list, DRIVER_NODE, {}, first, now);
      now := now[DRIVER_NODE := {}];
    }
    assert now == NoBits();
  }

  method ResetRange(te: Table, key: Key, was: NodeList, x: Xperm, ghost first: Entries)
    returns (list: NodeList)
    requires te.Valid() && Holds(first, te.entries, key, was, NoBits())
    requires forall i | 0 <= i < 256 :: was[i].None?
    modifies te
    ensures te.Valid() && Holds(first, te.entries, key, list, AllBut(x))
  {
    hide IsTable, Holds;
    list := was;
    if list[DRIVER_NODE].None? {
      list := NewNode(te, key, list, DRIVER_NODE, first, NoBits());
    }
    SetBitmap(te, key, list, DRIVER_NODE, ALL_BYTES, first, NoBits());
    ghost var maps := NoBits()[256 := ALL_BYTES];
    if Driver(x.low) != Driver(x.high) {
      ClearBits(te, key, list, DRIVER_NODE, Driver(x.low), Driver(x.high), first, maps);
      assert maps[256 := maps[256] - ByteRange(Driver(x.low), Driver(x.high))] == AllBut(x);
    } else {
      var driver := Driver(x.low);
      list := NewNode(te, key, list, driver, first, maps);
      SetBitmap(te, key, list, driver, ALL_BYTES, first, maps);
      maps := maps[driver := ALL_BYTES];
      ClearBits(te, key, list, DRIVER_NODE, driver, driver, first, maps);
      maps := maps[256 := maps[256] - ByteRange(driver, driver)];
      ClearBits(te, key, list, driver, Func(x.low), Func(x.high), first, maps);
      assert ByteRange(driver, driver) == {driver};
      assert maps[driver := maps[driver] - ByteRange(Func(x.low), Func(x.high))] == AllBut(x);
    }
  }

  // ---- sets of ioctls ----

  const ALL_IOCTLS: set<nat> := set n | 0 <= n < 0x10000

  ghost function Ioctls(entries: Entries, key: Key): set<nat> {
    set n | n in ALL_IOCTLS && Allows(entries, key, n)
  }

  function Span(x: Xperm): set<nat> { set n | n in ALL_IOCTLS && Spans(x, n) }

  /** What one rule does to the ioctls of a key. */
  function Apply(a: set<nat>, x: Xperm): set<nat> { if x.reset then ALL_IOCTLS - Span(x) else a + Span(x) }

  lemma RangeAdded(before: Entries, was: NodeList, after: Entries, list: NodeList, key: Key, maps: seq<set<byte>>,
                   x: Xperm)
    requires Holds(before, before, key, was, maps) && Holds(before, after, key, list, WithRange(maps, x))
    ensures Ioctls(after, key) == Ioctls(before, key) + Span(x)
  {
    hide Allows, Driver, Func, ALL_IOCTLS;
    forall n | n in ALL_IOCTLS ensures Allows(after, key, n) <==> Allows(before, key, n) || Spans(x, n) {
      AllowsByList(before, key, was, n);
      AllowsByList(after, key, list, n);
    }
  }

  lemma RangeReset(before: Entries, after: Entries, list: NodeList, key: Key, x: Xperm)
    requires Holds(before, after, key, list, AllBut(x))
    ensures Ioctls(after, key) == ALL_IOCTLS - Span(x)
  {
    hide Allows, Driver, Func, ALL_IOCTLS;
    forall n | n in ALL_IOCTLS ensures Allows(after, key, n) <==> !Spans(x, n) {
      AllowsByList(after, key, list, n);
    }
  }

  lemma HoldsAtFirst(entries: Entries, key: Key, list: NodeList) returns (maps: seq<set<byte>>)
    requires IsList(entries, key, list)
    ensures Holds(entries, entries, key, list, maps)
  {
    maps := seq(257, i requires 0 <= i < 257 => Bitmap(entries, key, list, i));
  }

  /** The end of add_xperm_rule, where the source, the target and the class are known. */
  method SetXperm(te: Table, key: Key, x: Xperm)
    requires te.Valid() && AreIoctls(te.entries, key)
    modifies te
    ensures te.Valid() && AreIoctls(te.entries, key) && KeepsRest(old(te.entries), te.entries, key)
    ensures Ioctls(te.entries, key) == Apply(Ioctls(old(te.entries), key), x)
  {
    hide IsTable, IsList, AllBut, WithRange, Ioctls, Span, AreIoctls, KeepsRest;
    ghost var first := te.entries;
    var list := CollectNodes(te, key);
    ghost var was := list;
    ghost var maps := HoldsAtFirst(first, key, list);
    if x.reset {
      list := ClearNodes(te, key, list, first, maps);
      list := ResetRange(te, key, list, x, first);
      RangeReset(first, te.entries, list, key, x);
    } else {
      list := AddRange(te, key, list, x, first, maps);
      RangeAdded(first, was, te.entries, list, key, maps, x);
    }
    ListIsUnique(te.entries, key, list);
  }

  // ---- wildcards ----

  predicate IsXperm(specified: nat) {
    || specified == AVTAB_XPERMS_ALLOWED
    || specified == AVTAB_XPERMS_AUDITALLOW
    || specified == AVTAB_XPERMS_DONTAUDIT
  }

  /** Every extended permission key has at most one driver node and one function node for each driver. */
  ghost predicate IoctlsAreUnique(entries: Entries) {
    forall key: Key | IsXperm(key.specified) :: AreIoctls(entries, key)
  }

  ghost predicate KeepsOtherKinds(before: Entries, after: Entries) {
    forall p | p in before && before[p].xperms.Some? && before[p].xperms.value.kind == OtherKind ::
      p in after && after[p] == before[p]
  }

  /** The ioctls of the keys are changed by the rule; nothing else changes. */
  ghost predicate AreChanged(before: Entries, after: Entries, keys: set<Key>, x: Xperm) {
    && IoctlsAreUnique(after)
    && KeepsOther(before, after, keys)
    && KeepsOtherKinds(before, after)
    && forall key | key in keys :: Ioctls(after, key) == Apply(Ioctls(before, key), x)
  }

  lemma IoctlsOfOther(before: Entries, after: Entries, keys: set<Key>, key: Key)
    requires KeepsOther(before, after, keys) && key !in keys
    ensures Ioctls(after, key) == Ioctls(before, key)
    ensures AreIoctls(before, key) ==> AreIoctls(after, key)
  {
    hide ALL_IOCTLS, Denotes;
    assert forall p :: Has(after, p, key) ==> Has(before, p, key) && before[p] == after[p];
    assert forall p :: Has(before, p, key) ==> Has(after, p, key) && before[p] == after[p];
  }

  lemma ChangedOne(before: Entries, after: Entries, key: Key, x: Xperm)
    requires IoctlsAreUnique(before) && AreIoctls(after, key) && KeepsRest(before, after, key)
    requires Ioctls(after, key) == Apply(Ioctls(before, key), x)
    ensures AreChanged(before, after, {key}, x)
  {
    hide Ioctls, AreIoctls, Apply;
    forall k: Key | IsXperm(k.specified) ensures AreIoctls(after, k) {
      if k != key {
        IoctlsOfOther(before, after, {key}, k);
      }
    }
    forall p | p in before && before[p].xperms.Some? && before[p].xperms.value.kind == OtherKind
      ensures p in after && after[p] == before[p]
    {
      if before[p].key == key {
        assert Has(before, p, key);
      }
    }
  }

  lemma ChangedTwice(a: Entries, b: Entries, c: Entries, ks: set<Key>, ls: set<Key>, x: Xperm)
    requires AreChanged(a, b, ks, x) && AreChanged(b, c, ls, x)
    ensures AreChanged(a, c, ks + ls, x)
  {
    hide Ioctls, IoctlsAreUnique, Span;
    forall key | key in ks + ls ensures Ioctls(c, key) == Apply(Ioctls(a, key), x) {
      if key !in ls {
        IoctlsOfOther(b, c, ls, key);
      }
      if key !in ks {
        IoctlsOfOther(a, b, ks, key);
      }
    }
  }

  lemma ChangedNothing(a: Entries, x: Xperm)
    requires IoctlsAreUnique(a)
    ensures AreChanged(a, a, {}, x)
  {
  }

  lemma ChangedIsUnique(a: Entries, b: Entries, ks: set<Key>, x: Xperm)
    requires AreChanged(a, b, ks, x)
    ensures IoctlsAreUnique(b)
  {
  }

  /** A rule for all sources or targets goes through the attributes only. */
  ghost function XpermKeys(policy: Policy, r: Resolved, effect: nat): set<Key> {
    Keys(Named(r.src, policy.types, false), Named(r.tgt, policy.types, false), NamedClasses(r.cls, policy.classes),
         effect)
  }

  /** add_xperm_rule: a policy of a version without extended permissions is left alone. */
  method AddXpermRule(policy: Policy, policyvers: nat, src: Option<TypeDatum>, tgt: Option<TypeDatum>,
                      cls: Option<ClassDatum>, x: Xperm, effect: nat)
    requires policy.te.Valid() && IoctlsAreUnique(policy.te.entries) && IsXperm(effect)
    modifies policy.te
    ensures policy.te.Valid()
    ensures policyvers < POLICYDB_VERSION_XPERMS_IOCTL ==> policy.te.entries == old(policy.te.entries)
    ensures policyvers >= POLICYDB_VERSION_XPERMS_IOCTL ==>
              AreChanged(old(policy.te.entries), policy.te.entries,
                         XpermKeys(policy, Resolved(src, tgt, cls, None), effect), x)
    decreases if src.None? then 3 else if tgt.None? then 2 else if cls.None? then 1 else 0, 1
  {
    hide IsTable, AreChanged, Keys, Values, ClassValues, IoctlsAreUnique;
    if policyvers < POLICYDB_VERSION_XPERMS_IOCTL {
      return;
    }
    if src.None? {
      AddXpermSources(policy, policyvers, tgt, cls, x, effect);
    } else if tgt.None? {
      AddXpermTargets(policy, policyvers, src.value, cls, x, effect);
    } else if cls.None? {
      AddXpermClasses(policy, policyvers, src.value, tgt.value, x, effect);
    } else {
      var key := Key(src.value.value, tgt.value.value, cls.value.value, effect);
      UniqueHere(policy.te.entries, key);
      SetXperm(policy.te, key, x);
      ChangedOne(old(policy.te.entries), policy.te.entries, key, x);
      OneKey(key);
    }
  }

  lemma UniqueHere(entries: Entries, key: Key)
    requires IoctlsAreUnique(entries) && IsXperm(key.specified)
    ensures AreIoctls(entries, key)
  {
  }

  method AddXpermSources(policy: Policy, policyvers: nat, tgt: Option<TypeDatum>, cls: Option<ClassDatum>, x: Xperm,
                         effect: nat)
    requires policy.te.Valid() && IoctlsAreUnique(policy.te.entries) && IsXperm(effect)
    requires policyvers >= POLICYDB_VERSION_XPERMS_IOCTL
    modifies policy.te
    ensures policy.te.Valid()
    ensures AreChanged(old(policy.te.entries), policy.te.entries,
                       XpermKeys(policy, Resolved(None, tgt, cls, None), effect), x)
    decreases 3, 0
  {
    hide IsTable, AreChanged, Keys, Values, IoctlsAreUnique;
    var te, types := policy.te, policy.types;
    ghost var ts, cs := Named(tgt, types, false), NamedClasses(cls, policy.classes);
    NoValues(false);
    NoKeys({}, ts, cs, effect);
    ChangedNothing(te.entries, x);
    for i := 0 to |types|
      invariant te.Valid()
                && AreChanged(old(te.entries), te.entries, Keys(Values(types[..i], false), ts, cs, effect), x)
    {
      ghost var so, done := te.entries, Values(types[..i], false);
      ChangedIsUnique(old(te.entries), so, Keys(done, ts, cs, effect), x);
      PolicyRules.ValuesNext(types, false, i);
      if types[i].isAttribute {
        AddXpermRule(policy, policyvers, Some(types[i]), tgt, cls, x, effect);
        ghost var v := {types[i].value};
        ChangedTwice(old(te.entries), so, te.entries, Keys(done, ts, cs, effect), Keys(v, ts, cs, effect), x);
        KeysUnion(done, v, ts, cs, effect);
      }
    }
    assert types[..|types|] == types;
  }

  method AddXpermTargets(policy: Policy, policyvers: nat, src: TypeDatum, cls: Option<ClassDatum>, x: Xperm,
                         effect: nat)
    requires policy.te.Valid() && IoctlsAreUnique(policy.te.entries) && IsXperm(effect)
    requires policyvers >= POLICYDB_VERSION_XPERMS_IOCTL
    modifies policy.te
    ensures policy.te.Valid()
    ensures AreChanged(old(policy.te.entries), policy.te.entries,
                       XpermKeys(policy, Resolved(Some(src), None, cls, None), effect), x)
    decreases 2, 0
  {
    hide IsTable, AreChanged, Keys, Values, IoctlsAreUnique;
    var te, types := policy.te, policy.types;
    ghost var ss, cs := {src.value}, NamedClasses(cls, policy.classes);
    NoValues(false);
    NoKeys(ss, {}, cs, effect);
    ChangedNothing(te.entries, x);
    for i := 0 to |types|
      invariant te.Valid()
                && AreChanged(old(te.entries), te.entries, Keys(ss, Values(types[..i], false), cs, effect), x)
    {
      ghost var so, done := te.entries, Values(types[..i], false);
      ChangedIsUnique(old(te.entries), so, Keys(ss, done, cs, effect), x);
      PolicyRules.ValuesNext(types, false, i);
      if types[i].isAttribute {
        AddXpermRule(policy, policyvers, Some(src), Some(types[i]), cls, x, effect);
        ghost var v := {types[i].value};
        ChangedTwice(old(te.entries), so, te.entries, Keys(ss, done, cs, effect), Keys(ss, v, cs, effect), x);
        KeysUnion(done, v, ss, cs, effect);
      }
    }
    assert types[..|types|] == types;
  }

  method AddXpermClasses(policy: Policy, policyvers: nat, src: TypeDatum, tgt: TypeDatum, x: Xperm, effect: nat)
    requires policy.te.Valid() && IoctlsAreUnique(policy.te.entries) && IsXperm(effect)
    requires policyvers >= POLICYDB_VERSION_XPERMS_IOCTL
    modifies policy.te
    ensures policy.te.Valid()
    ensures AreChanged(old(policy.te.entries), policy.te.entries,
                       XpermKeys(policy, Resolved(Some(src), Some(tgt), None, None), effect), x)
    decreases 1, 0
  {
    hide IsTable, AreChanged, Keys, ClassValues, IoctlsAreUnique;
    var te, classes := policy.te, policy.classes;
    ghost var ss, ts := {src.value}, {tgt.value};
    NoClassValues();
    NoKeys(ss, ts, {}, effect);
    ChangedNothing(te.entries, x);
    for i := 0 to |classes|
      invariant te.Valid()
                && AreChanged(old(te.entries), te.entries, Keys(ss, ts, ClassValues(classes[..i]), effect), x)
    {
      ghost var so, done := te.entries, ClassValues(classes[..i]);
      ChangedIsUnique(old(te.entries), so, Keys(ss, ts, done, effect), x);
      ClassValuesNext(classes, i);
      AddXpermRule(policy, policyvers, Some(src), Some(tgt), Some(classes[i]), x, effect);
      ghost var v := {classes[i].value};
      ChangedTwice(old(te.entries), so, te.entries, Keys(ss, ts, done, effect), Keys(ss, ts, v, effect), x);
      KeysUnion(done, v, ss, ts, effect);
    }
    assert classes[..|classes|] == classes;
  }

  // ---- lists of ranges ----

  /** The ioctls of a key after one rule for each range, in order. */
  function ApplyAll(a: set<nat>, xs: seq<Xperm>): set<nat> {
    if xs == [] then a else Apply(ApplyAll(a, xs[..|xs| - 1]), xs[|xs| - 1])
  }

  function SpanAll(xs: seq<Xperm>): set<nat> {
    if xs == [] then {} else SpanAll(xs[..|xs| - 1]) + Span(xs[|xs| - 1])
  }

  /** A list of ranges adds them all; the complement of a list is the complement of its last range only, so it
      leaves out the whole list exactly when the last range has all the others in it. */
  lemma {:induction false} ListOfRanges(a: set<nat>, xs: seq<Xperm>)
    ensures (forall i | 0 <= i < |xs| :: !xs[i].reset) ==> ApplyAll(a, xs) == a + SpanAll(xs)
    ensures xs != [] && (forall i | 0 <= i < |xs| :: xs[i].reset) ==>
            && ApplyAll(a, xs) == ALL_IOCTLS - Span(xs[|xs| - 1])
            && (ApplyAll(a, xs) == ALL_IOCTLS - SpanAll(xs) <==> SpanAll(xs[..|xs| - 1]) <= Span(xs[|xs| - 1]))
  {
    hide ALL_IOCTLS;
    if xs != [] {
      var ys := xs[..|xs| - 1];
      ListOfRanges(a, ys);
      SpansAreIoctls(ys);
    }
  }

  lemma {:induction false} SpansAreIoctls(xs: seq<Xperm>)
    ensures SpanAll(xs) <= ALL_IOCTLS
  {
    hide ALL_IOCTLS;
    if xs != [] {
      SpansAreIoctls(xs[..|xs| - 1]);
    }
  }

  /** A range stands for the numbers from its low end to its high end exactly when it stays within one driver, has
      whole drivers only, or runs backwards. */
  lemma RangeIsExact(x: Xperm)
    ensures (forall n | 0 <= n < 0x10000 :: Spans(x, n) <==> x.low <= n <= x.high) <==>
            Driver(x.low) == Driver(x.high) || (Func(x.low) == 0 && Func(x.high) == 255) || x.low > x.high
  {
    hide Driver, Func;
    forall n: nat | n < 0x10000 ensures n == 256 * Driver(n) + Func(n) { Parts(n); }
    if Driver(x.low) < Driver(x.high) && Func(x.low) > 0 {
      assert Driver(x.low - 1) == Driver(x.low);
      assert Spans(x, x.low - 1);
    }
    if Driver(x.low) < Driver(x.high) && Func(x.high) < 255 {
      assert Driver(x.high + 1) == Driver(x.high);
      assert Spans(x, x.high + 1);
    }
  }

  lemma Parts(n: nat)
    requires n < 0x10000
    ensures n == 256 * Driver(n) + Func(n)
  {
  }
}
