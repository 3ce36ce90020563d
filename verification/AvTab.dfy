/**
  The access vector table: a hash table of linked nodes (native/src/sepolicy/sepolicy.cpp, with the table of
  libsepol). Memory is explicit: a node lives at an address, and a freed address is in no map any more, so every
  use of a node is proved to be a use of a live one.
 */
module AvTab {
  import opened Wrappers
  import opened Bytes

  type Ptr = nat

  datatype Key = Key(source: nat, target: nat, cls: nat, specified: nat)

  const AVTAB_ALLOWED := 0x1
  const AVTAB_AUDITALLOW := 0x2
  const AVTAB_AUDITDENY := 0x4
  const AVTAB_XPERMS_ALLOWED := 0x100
  const AVTAB_XPERMS_AUDITALLOW := 0x200
  const AVTAB_XPERMS_DONTAUDIT := 0x400

  datatype Kind = IoctlDriver | IoctlFunction | OtherKind

  const ALL_PERMS: set<nat> := set v | 1 <= v <= 32

  /** A 32-bit word, as the set of the permissions (numbered from 1) whose bits are on. */
  type Word = s: set<nat> | s <= ALL_PERMS

  /** The extended permissions of a node: a bitmap of 256 bits, as the set of the bits that are on. */
  datatype Xperms = Xperms(kind: Kind, driver: byte, perms: set<byte>)

  datatype Entry = Entry(key: Key, data: Word, xperms: Option<Xperms>)

  /** What no node at all stands for. */
  function Default(key: Key): Word { if key.specified == AVTAB_AUDITDENY then ALL_PERMS else {} }

  // ---- linked lists ----

  function At(chain: seq<Ptr>, i: nat): Option<Ptr> { if i < |chain| then Some(chain[i]) else None }

  predicate IsDistinct(chain: seq<Ptr>) { forall i, j | 0 <= i < j < |chain| :: chain[i] != chain[j] }

  ghost predicate FollowsChain(chain: seq<Ptr>, next: map<Ptr, Option<Ptr>>) {
    forall i | 0 <= i < |chain| :: chain[i] in next && next[chain[i]] == At(chain, i + 1)
  }

  /** The list that starts at head has the nodes of chain. */
  ghost predicate IsLinked(head: Option<Ptr>, chain: seq<Ptr>, next: map<Ptr, Option<Ptr>>) {
    head == At(chain, 0) && IsDistinct(chain) && FollowsChain(chain, next)
  }

  /** Every node hangs in the slot its key hashes to, and nothing else does. */
  ghost predicate IsHashed(hash: Key -> nat, entries: map<Ptr, Entry>, chains: seq<seq<Ptr>>) {
    && (forall p | p in entries :: hash(entries[p].key) < |chains| && p in chains[hash(entries[p].key)])
    && (forall i, p | 0 <= i < |chains| && p in chains[i] :: p in entries && hash(entries[p].key) == i)
  }

  lemma LinkedStep(head: Option<Ptr>, chain: seq<Ptr>, next: map<Ptr, Option<Ptr>>, i: nat)
    requires IsLinked(head, chain, next) && i < |chain|
    ensures chain[i] in chain && chain[i] in next && next[chain[i]] == At(chain, i + 1)
  {
  }

  lemma LinkedHead(head: Option<Ptr>, chain: seq<Ptr>, next: map<Ptr, Option<Ptr>>)
    requires IsLinked(head, chain, next)
    ensures head == At(chain, 0) && IsDistinct(chain)
  {
  }

  lemma LinkedFrame(head: Option<Ptr>, chain: seq<Ptr>, a: map<Ptr, Option<Ptr>>, b: map<Ptr, Option<Ptr>>)
    requires IsLinked(head, chain, a)
    requires forall p | p in chain :: p in b && p in a && b[p] == a[p]
    ensures IsLinked(head, chain, b)
  {
  }

  function Without(chain: seq<Ptr>, k: nat): (r: seq<Ptr>)
    requires k < |chain|
    ensures |r| == |chain| - 1
    ensures forall i | 0 <= i < |r| :: r[i] == chain[if i < k then i else i + 1]
  {
    chain[..k] + chain[k + 1..]
  }

  function With(chain: seq<Ptr>, k: nat, p: Ptr): (r: seq<Ptr>)
    requires k <= |chain|
    ensures |r| == |chain| + 1
    ensures r[k] == p
    ensures forall i | 0 <= i < k :: r[i] == chain[i]
    ensures forall i | k < i < |r| :: r[i] == chain[i - 1]
  {
    chain[..k] + [p] + chain[k..]
  }

  lemma WithoutHas(chain: seq<Ptr>, k: nat)
    requires k < |chain| && IsDistinct(chain)
    ensures IsDistinct(Without(chain, k))
    ensures forall p :: p in Without(chain, k) <==> p in chain && p != chain[k]
  {
    hide Without;
    var r := Without(chain, k);
    forall p | p in chain && p != chain[k] ensures p in r {
      var i :| 0 <= i < |chain| && chain[i] == p;
      assert r[if i < k then i else i - 1] == p;
    }
  }

  lemma WithHas(chain: seq<Ptr>, k: nat, p: Ptr)
    requires k <= |chain| && IsDistinct(chain) && p !in chain
    ensures IsDistinct(With(chain, k, p))
    ensures forall q :: q in With(chain, k, p) <==> q in chain || q == p
  {
    hide With;
    var r := With(chain, k, p);
    forall q | q in chain || q == p ensures q in r {
      if q == p {
        assert r[k] == p;
      } else {
        var i :| 0 <= i < |chain| && chain[i] == q;
        assert r[if i < k then i else i + 1] == q;
      }
    }
  }

  /** Taking the node at k out of its list. */
  lemma Unlinked(head: Option<Ptr>, chain: seq<Ptr>, next: map<Ptr, Option<Ptr>>, k: nat)
    requires IsLinked(head, chain, next) && k < |chain|
    ensures FollowsChain(Without(chain, k), if k == 0 then next else next[chain[k - 1] := next[chain[k]]])
  {
    hide Without;
  }

  /** Putting a new node in front of the one at k. */
  lemma Linked(head: Option<Ptr>, chain: seq<Ptr>, next: map<Ptr, Option<Ptr>>, k: nat, p: Ptr)
    requires IsLinked(head, chain, next) && k <= |chain| && p !in next
    ensures FollowsChain(With(chain, k, p), LinkedIn(next, chain, k, p))
  {
    hide With, IsLinked;
    var r, after := With(chain, k, p), LinkedIn(next, chain, k, p);
    LinkedHead(head, chain, next);
    if k > 0 {
      LinkedStep(head, chain, next, k - 1);
    }
    forall i | 0 <= i < |r| ensures r[i] in after && after[r[i]] == At(r, i + 1) {
      if i < k {
        LinkedStep(head, chain, next, i);
      } else if i > k {
        LinkedStep(head, chain, next, i - 1);
      }
    }
  }

  // ---- the lists of a hash table ----

  ghost predicate AreLinked(htable: seq<Option<Ptr>>, chains: seq<seq<Ptr>>, next: map<Ptr, Option<Ptr>>) {
    |chains| == |htable| && forall i | 0 <= i < |htable| :: IsLinked(htable[i], chains[i], next)
  }

  /** Changing the links of one list only changes that list. */
  lemma OneListChanges(htable: seq<Option<Ptr>>, chains: seq<seq<Ptr>>, next: map<Ptr, Option<Ptr>>, slot: nat,
                       head: Option<Ptr>, chain: seq<Ptr>, after: map<Ptr, Option<Ptr>>)
    requires AreLinked(htable, chains, next) && slot < |htable|
    requires IsLinked(head, chain, after)
    requires forall p | p in next && p !in chains[slot] :: p in after && after[p] == next[p]
    requires forall i, p | 0 <= i < |chains| && i != slot && p in chains[i] :: p !in chains[slot]
    ensures AreLinked(htable[slot := head], chains[slot := chain], after)
  {
    forall i | 0 <= i < |htable| && i != slot ensures IsLinked(htable[i], chains[i], after) {
      assert IsLinked(htable[i], chains[i], next);
      forall p | p in chains[i] ensures p in next && p in after && after[p] == next[p] {
        var j :| 0 <= j < |chains[i]| && chains[i][j] == p;
      }
      LinkedFrame(htable[i], chains[i], next, after);
    }
  }

  lemma HashedDisjoint(hash: Key -> nat, entries: map<Ptr, Entry>, chains: seq<seq<Ptr>>, slot: nat)
    requires IsHashed(hash, entries, chains) && slot < |chains|
    ensures forall i, p | 0 <= i < |chains| && i != slot && p in chains[i] :: p !in chains[slot]
  {
    forall i, p | 0 <= i < |chains| && i != slot && p in chains[i] ensures p !in chains[slot] {
      assert hash(entries[p].key) == i;
    }
  }

  lemma HashedWith(hash: Key -> nat, entries: map<Ptr, Entry>, chains: seq<seq<Ptr>>, p: Ptr, e: Entry, chain: seq<Ptr>)
    requires IsHashed(hash, entries, chains) && p !in entries && hash(e.key) < |chains|
    requires forall q :: q in chain <==> q in chains[hash(e.key)] || q == p
    ensures IsHashed(hash, entries[p := e], chains[hash(e.key) := chain])
  {
  }

  lemma HashedWithout(hash: Key -> nat, entries: map<Ptr, Entry>, chains: seq<seq<Ptr>>, p: Ptr, chain: seq<Ptr>)
    requires IsHashed(hash, entries, chains) && p in entries
    requires forall q :: q in chain <==> q in chains[hash(entries[p].key)] && q != p
    ensures IsHashed(hash, entries - {p}, chains[hash(entries[p].key) := chain])
  {
  }

  ghost predicate IsTable(hash: Key -> nat, entries: map<Ptr, Entry>, next: map<Ptr, Option<Ptr>>,
                          htable: seq<Option<Ptr>>, nel: int, brk: Ptr, chains: seq<seq<Ptr>>) {
    && |chains| == |htable|
    && AreLinked(htable, chains, next)
    && (forall k :: hash(k) < |htable|)
    && IsHashed(hash, entries, chains)
    && entries.Keys == next.Keys
    && (forall p | p in entries :: p < brk)
    && nel == |entries|
  }

  /** The links after p is put before the node at k. */
  function LinkedIn(next: map<Ptr, Option<Ptr>>, chain: seq<Ptr>, k: nat, p: Ptr): map<Ptr, Option<Ptr>>
    requires k <= |chain|
  {
    var with := next[p := At(chain, k)];
    if k == 0 then with else with[chain[k - 1] := Some(p)]
  }

  /** The links after the node at k is taken out. */
  function LinkedOut(next: map<Ptr, Option<Ptr>>, chain: seq<Ptr>, k: nat): map<Ptr, Option<Ptr>>
    requires k < |chain| && chain[k] in next
  {
    (if k == 0 then next else next[chain[k - 1] := next[chain[k]]]) - {chain[k]}
  }

  lemma InsertLinks(hash: Key -> nat, entries: map<Ptr, Entry>, htable: seq<Option<Ptr>>, chains: seq<seq<Ptr>>,
                    next: map<Ptr, Option<Ptr>>, e: Entry, k: nat, p: Ptr)
    requires AreLinked(htable, chains, next) && IsHashed(hash, entries, chains)
    requires p !in entries && p !in next && hash(e.key) < |chains| && k <= |chains[hash(e.key)]|
    ensures var slot, chain := hash(e.key), chains[hash(e.key)];
            && IsHashed(hash, entries[p := e], chains[slot := With(chain, k, p)])
            && AreLinked(htable[slot := if k == 0 then Some(p) else htable[slot]], chains[slot := With(chain, k, p)],
                         LinkedIn(next, chain, k, p))
  {
    hide IsHashed, FollowsChain, With, IsDistinct;
    var slot, chain := hash(e.key), chains[hash(e.key)];
    assert IsLinked(htable[slot], chain, next);
    OutsideChains(hash, entries, chains, slot, p);
    Linked(htable[slot], chain, next, k, p);
    WithHas(chain, k, p);
    HashedWith(hash, entries, chains, p, e, With(chain, k, p));
    HashedDisjoint(hash, entries, chains, slot);
    OneListChanges(htable, chains, next, slot, if k == 0 then Some(p) else htable[slot], With(chain, k, p),
                   LinkedIn(next, chain, k, p));
  }

  lemma InsertKeeps(hash: Key -> nat, entries: map<Ptr, Entry>, next: map<Ptr, Option<Ptr>>, htable: seq<Option<Ptr>>,
                    nel: int, brk: Ptr, chains: seq<seq<Ptr>>, e: Entry, k: nat)
    requires IsTable(hash, entries, next, htable, nel, brk, chains) && k <= |chains[hash(e.key)]|
    ensures var slot, chain := hash(e.key), chains[hash(e.key)];
            IsTable(hash, entries[brk := e], LinkedIn(next, chain, k, brk),
                    htable[slot := if k == 0 then Some(brk) else htable[slot]], nel + 1, brk + 1,
                    chains[slot := With(chain, k, brk)])
  {
    hide IsHashed, AreLinked, With;
    InsertLinks(hash, entries, htable, chains, next, e, k, brk);
    if k > 0 {
      InTable(hash, entries, next, htable, nel, brk, chains, hash(e.key), k - 1);
    }
  }

  lemma InTable(hash: Key -> nat, entries: map<Ptr, Entry>, next: map<Ptr, Option<Ptr>>, htable: seq<Option<Ptr>>,
                nel: int, brk: Ptr, chains: seq<seq<Ptr>>, slot: nat, i: nat)
    requires IsTable(hash, entries, next, htable, nel, brk, chains) && slot < |chains| && i < |chains[slot]|
    ensures chains[slot][i] in entries && chains[slot][i] in next
    ensures next[chains[slot][i]] == At(chains[slot], i + 1)
  {
    hide IsLinked, IsHashed;
    assert IsLinked(htable[slot], chains[slot], next);
    LinkedStep(htable[slot], chains[slot], next, i);
  }

  lemma OutsideChains(hash: Key -> nat, entries: map<Ptr, Entry>, chains: seq<seq<Ptr>>, slot: nat, p: Ptr)
    requires IsHashed(hash, entries, chains) && p !in entries && slot < |chains|
    ensures p !in chains[slot]
  {
  }

  lemma RemoveLinks(hash: Key -> nat, entries: map<Ptr, Entry>, htable: seq<Option<Ptr>>, chains: seq<seq<Ptr>>,
                    next: map<Ptr, Option<Ptr>>, k: nat, p: Ptr)
    requires AreLinked(htable, chains, next) && IsHashed(hash, entries, chains)
    requires p in entries && hash(entries[p].key) < |chains|
    requires k < |chains[hash(entries[p].key)]| && chains[hash(entries[p].key)][k] == p && p in next
    ensures var slot, chain := hash(entries[p].key), chains[hash(entries[p].key)];
            && IsHashed(hash, entries - {p}, chains[slot := Without(chain, k)])
            && AreLinked(htable[slot := if k == 0 then next[p] else htable[slot]], chains[slot := Without(chain, k)],
                         LinkedOut(next, chain, k))
  {
    hide IsHashed, FollowsChain, Without, IsDistinct;
    var slot, chain := hash(entries[p].key), chains[hash(entries[p].key)];
    assert IsLinked(htable[slot], chain, next);
    LinkedStep(htable[slot], chain, next, k);
    Unlinked(htable[slot], chain, next, k);
    WithoutHas(chain, k);
    HashedWithout(hash, entries, chains, p, Without(chain, k));
    HashedDisjoint(hash, entries, chains, slot);
    var without := if k == 0 then next else next[chain[k - 1] := next[p]];
    FollowsWithout(Without(chain, k), without, p);
    OneListChanges(htable, chains, next, slot, if k == 0 then next[p] else htable[slot], Without(chain, k),
                   LinkedOut(next, chain, k));
  }

  lemma RemoveKeeps(hash: Key -> nat, entries: map<Ptr, Entry>, next: map<Ptr, Option<Ptr>>, htable: seq<Option<Ptr>>,
                    nel: int, brk: Ptr, chains: seq<seq<Ptr>>, p: Ptr, k: nat)
    requires IsTable(hash, entries, next, htable, nel, brk, chains)
    requires p in entries && k < |chains[hash(entries[p].key)]| && chains[hash(entries[p].key)][k] == p
    ensures var slot, chain := hash(entries[p].key), chains[hash(entries[p].key)];
            IsTable(hash, entries - {p}, LinkedOut(next, chain, k),
                    htable[slot := if k == 0 then next[p] else htable[slot]], nel - 1, brk,
                    chains[slot := Without(chain, k)])
  {
    hide IsHashed, AreLinked, Without;
    RemoveLinks(hash, entries, htable, chains, next, k, p);
    OneLess(entries, p);
    if k > 0 {
      InTable(hash, entries, next, htable, nel, brk, chains, hash(entries[p].key), k - 1);
    }
  }

  lemma StoreKeeps(hash: Key -> nat, entries: map<Ptr, Entry>, next: map<Ptr, Option<Ptr>>, htable: seq<Option<Ptr>>,
                   nel: int, brk: Ptr, chains: seq<seq<Ptr>>, p: Ptr, data: Word, xperms: Option<Xperms>)
    requires IsTable(hash, entries, next, htable, nel, brk, chains) && p in entries
    ensures IsTable(hash, entries[p := Entry(entries[p].key, data, xperms)], next, htable, nel, brk, chains)
  {
    hide AreLinked, IsHashed;
    HashedStore(hash, entries, chains, p, Entry(entries[p].key, data, xperms));
    assert entries[p := Entry(entries[p].key, data, xperms)].Keys == entries.Keys;
  }

  lemma HashedStore(hash: Key -> nat, entries: map<Ptr, Entry>, chains: seq<seq<Ptr>>, p: Ptr, e: Entry)
    requires IsHashed(hash, entries, chains) && p in entries && e.key == entries[p].key
    ensures IsHashed(hash, entries[p := e], chains)
  {
  }

  lemma FollowsWithout(chain: seq<Ptr>, next: map<Ptr, Option<Ptr>>, p: Ptr)
    requires FollowsChain(chain, next) && p !in chain
    ensures FollowsChain(chain, next - {p})
  {
  }

  lemma OneLess(entries: map<Ptr, Entry>, p: Ptr)
    requires p in entries
    ensures |entries - {p}| == |entries| - 1
  {
    assert (entries - {p}).Keys == entries.Keys - {p};
  }

  class Table {
    const hash: Key -> nat
    var entries: map<Ptr, Entry>
    var next: map<Ptr, Option<Ptr>>
    var htable: seq<Option<Ptr>>
    var nel: int
    var brk: Ptr
    ghost var chains: seq<seq<Ptr>>

    ghost predicate Valid()
      reads this
    {
      IsTable(hash, entries, next, htable, nel, brk, chains)
    }

    constructor (hash: Key -> nat, nslot: nat)
      requires forall k :: hash(k) < nslot
      ensures Valid() && entries == map[]
    {
      this.hash := hash;
      entries, next := map[], map[];
      htable, chains := seq(nslot, _ => None), seq(nslot, _ => []);
      nel, brk := 0, 0;
    }

    /** The list of the slot of a key. */
    ghost function Chain(key: Key): seq<Ptr>
      requires Valid()
      reads this
    {
      chains[hash(key)]
    }

    lemma Head(key: Key)
      requires Valid()
      ensures hash(key) < |htable| && htable[hash(key)] == At(Chain(key), 0)
      ensures IsLinked(htable[hash(key)], Chain(key), next)
      ensures forall p | p in entries && entries[p].key == key :: p in Chain(key)
    {
      hide IsLinked;
      assert IsLinked(htable[hash(key)], chains[hash(key)], next);
      LinkedHead(htable[hash(key)], chains[hash(key)], next);
    }

    lemma Step(key: Key, i: nat)
      requires Valid() && i < |Chain(key)|
      ensures Chain(key)[i] in entries && Chain(key)[i] in next && next[Chain(key)[i]] == At(Chain(key), i + 1)
    {
      hide AreLinked, IsHashed;
      InTable(hash, entries, next, htable, nel, brk, chains, hash(key), i);
    }

    /** The first node with the key, from a place of its list on. */
    method Find(start: Option<Ptr>, key: Key, ghost from: nat) returns (p: Option<Ptr>, ghost at: nat)
      requires Valid() && from <= |Chain(key)| && start == At(Chain(key), from)
      ensures from <= at <= |Chain(key)| && p == At(Chain(key), at)
      ensures forall i | from <= i < at :: Chain(key)[i] in entries && entries[Chain(key)[i]].key != key
      ensures p.Some? ==> p.value in entries && entries[p.value].key == key
    {
      hide Valid, Chain;
      p, at := start, from;
      while p.Some?
        invariant from <= at <= |Chain(key)| && p == At(Chain(key), at)
        invariant forall i | from <= i < at :: Chain(key)[i] in entries && entries[Chain(key)[i]].key != key
        decreases |Chain(key)| - at
      {
        Step(key, at);
        if entries[p.value].key == key {
          return;
        }
        p, at := next[p.value], at + 1;
      }
    }

    /** avtab_search_node */
    method SearchNode(key: Key) returns (p: Option<Ptr>, ghost at: nat)
      requires Valid()
      ensures at <= |Chain(key)| && p == At(Chain(key), at)
      ensures forall i | 0 <= i < at :: Chain(key)[i] in entries && entries[Chain(key)[i]].key != key
      ensures p.Some? ==> p.value in entries && entries[p.value].key == key
    {
      Head(key);
      hide Valid, Chain;
      p, at := Find(htable[hash(key)], key, 0);
    }

    /** avtab_search_node_next */
    method SearchNodeNext(p: Ptr, key: Key, ghost at: nat) returns (q: Option<Ptr>, ghost to: nat)
      requires Valid() && at < |Chain(key)| && p == Chain(key)[at]
      ensures at < to <= |Chain(key)| && q == At(Chain(key), to)
      ensures forall i | at < i < to :: Chain(key)[i] in entries && entries[Chain(key)[i]].key != key
      ensures q.Some? ==> q.value in entries && entries[q.value].key == key
    {
      Step(key, at);
      hide Valid, Chain;
      q, to := Find(next[p], key, at + 1);
    }

    /** A search that finds nothing has seen every node with the key. */
    lemma NotThere(key: Key)
      requires Valid()
      requires forall i | 0 <= i < |Chain(key)| :: Chain(key)[i] in entries && entries[Chain(key)[i]].key != key
      ensures forall p | p in entries :: entries[p].key != key
    {
      Head(key);
      hide Valid, Chain;
    }

    /** Where a new node goes: somewhere into the list of its slot. */
    method Place(key: Key) returns (prev: Option<Ptr>, cur: Option<Ptr>, ghost k: nat)
      requires Valid()
      ensures k <= |Chain(key)| && cur == At(Chain(key), k)
      ensures prev == if k == 0 then None else Some(Chain(key)[k - 1])
    {
      hide Valid, Chain;
      Head(key);
      k := 0;
      prev, cur := None, htable[hash(key)];
      while cur.Some?
        invariant k <= |Chain(key)| && cur == At(Chain(key), k)
        invariant prev == if k == 0 then None else Some(Chain(key)[k - 1])
        decreases |Chain(key)| - k
      {
        if * {
          break;
        }
        Step(key, k);
        prev, cur, k := cur, next[cur.value], k + 1;
      }
    }

    lemma Attach(e: Entry, k: nat)
      requires Valid() && k <= |Chain(e.key)|
      ensures var slot, chain := hash(e.key), Chain(e.key);
              && slot < |chains| == |htable| && brk !in entries
              && IsTable(hash, entries[brk := e], LinkedIn(next, chain, k, brk),
                         htable[slot := if k == 0 then Some(brk) else htable[slot]], nel + 1, brk + 1,
                         chains[slot := With(chain, k, brk)])
    {
      hide With, AreLinked, IsHashed;
      InsertKeeps(hash, entries, next, htable, nel, brk, chains, e, k);
    }

    /** avtab_insert_nonunique */
    method InsertNonunique(key: Key, data: Word) returns (p: Ptr)
      requires Valid()
      modifies this
      ensures Valid() && p !in old(entries)
      ensures entries == old(entries)[p := Entry(key, data, None)]
    {
      hide With, IsTable, Chain;
      ghost var k;
      var prev, cur;
      prev, cur, k := Place(key);
      var slot := hash(key);
      var e := Entry(key, data, None);
      p := brk;
      Attach(e, k);
      chains := chains[slot := With(Chain(key), k, p)];
      next := next[p := cur];
      if prev.Some? {
        next := next[prev.value := Some(p)];
        assert htable[slot := htable[slot]] == htable;
      } else {
        htable := htable[slot := Some(p)];
      }
      entries, nel, brk := entries[p := e], nel + 1, brk + 1;
    }

    /** Where a node hangs in the list of its slot. */
    method Locate(p: Ptr) returns (prev: Option<Ptr>, ghost k: nat)
      requires Valid() && p in entries
      ensures k < |Chain(entries[p].key)| && Chain(entries[p].key)[k] == p
      ensures prev == if k == 0 then None else Some(Chain(entries[p].key)[k - 1])
    {
      hide Valid, Chain, IsLinked;
      var key := entries[p].key;
      Head(key);
      k := 0;
      prev := None;
      var cur := htable[hash(key)];
      while cur != Some(p)
        invariant k <= |Chain(key)| && cur == At(Chain(key), k)
        invariant prev == if k == 0 then None else Some(Chain(key)[k - 1])
        invariant forall i | 0 <= i < k :: Chain(key)[i] != p
        decreases |Chain(key)| - k
      {
        assert k < |Chain(key)|;
        Step(key, k);
        prev, cur, k := cur, next[cur.value], k + 1;
      }
    }

    lemma Detach(p: Ptr, k: nat)
      requires Valid() && p in entries && k < |Chain(entries[p].key)| && Chain(entries[p].key)[k] == p
      ensures var slot, chain := hash(entries[p].key), Chain(entries[p].key);
              && slot < |chains| == |htable| && p in next
              && IsTable(hash, entries - {p}, LinkedOut(next, chain, k),
                         htable[slot := if k == 0 then next[p] else htable[slot]], nel - 1, brk,
                         chains[slot := Without(chain, k)])
    {
      hide Without, AreLinked, IsHashed;
      RemoveKeeps(hash, entries, next, htable, nel, brk, chains, p, k);
    }

    /** avtab_remove_node: the node is found by its address, taken out of its list and freed. */
    method RemoveNode(p: Ptr) returns (ghost k: nat)
      requires Valid() && p in entries
      modifies this
      ensures Valid() && entries == old(entries) - {p}
      ensures k < |old(Chain(entries[p].key))| && old(Chain(entries[p].key))[k] == p
      ensures chains == old(chains[hash(entries[p].key) := Without(Chain(entries[p].key), k)])
    {
      hide Without, IsTable, Chain;
      var prev;
      prev, k := Locate(p);
      var slot := hash(entries[p].key);
      Detach(p, k);
      ghost var chain := Chain(entries[p].key);
      chains := chains[slot := Without(chain, k)];
      if prev.Some? {
        next := next[prev.value := next[p]];
        assert htable[slot := htable[slot]] == htable;
      } else {
        htable := htable[slot := next[p]];
      }
      nel := nel - 1;
      entries, next := entries - {p}, next - {p};
    }
  
    /** A store into a node, which keeps its key. */
    method Store(p: Ptr, data: Word, xperms: Option<Xperms>)
      requires Valid() && p in entries
      modifies this
      ensures Valid() && entries == old(entries)[p := Entry(old(entries)[p].key, data, xperms)]
    {
      hide IsTable;
      StoreKeeps(hash, entries, next, htable, nel, brk, chains, p, data, xperms);
      entries := entries[p := Entry(entries[p].key, data, xperms)];
    }

    // ---- strip_dontaudit ----

    lemma Slot(i: nat)
      requires Valid() && i < |chains|
      ensures |chains| == |htable| && htable[i] == At(chains[i], 0) && IsDistinct(chains[i])
      ensures forall p | p in chains[i] :: p in entries && p in next && hash(entries[p].key) == i
    {
      hide IsLinked, IsHashed;
      assert IsLinked(htable[i], chains[i], next);
      LinkedHead(htable[i], chains[i], next);
      HashedIn(hash, entries, chains, i);
    }

    lemma SlotStep(i: nat, m: nat)
      requires Valid() && i < |chains| && m < |chains[i]|
      ensures chains[i][m] in entries && chains[i][m] in next && hash(entries[chains[i][m]].key) == i
      ensures next[chains[i][m]] == At(chains[i], m + 1)
    {
      hide IsLinked;
      InTable(hash, entries, next, htable, nel, brk, chains, i, m);
    }

    /** One slot of the walk: the successor of a node is read before the node may be freed. */
    method StripSlot(i: nat)
      requires Valid() && i < |chains|
      modifies this
      ensures Valid() && |chains| == |htable| == |old(htable)|
      ensures forall j | 0 <= j < |chains| && j != i :: chains[j] == old(chains[j])
      ensures KeepsOthers(old(entries), entries)
      ensures forall p | p in chains[i] :: p in entries && !IsDontaudit(entries[p].key)
    {
      hide IsTable, Without;
      Slot(i);
      ghost var m := 0;
      var cur := htable[i];
      while cur.Some?
        invariant Valid() && |chains| == |old(chains)|
        invariant forall j | 0 <= j < |chains| && j != i :: chains[j] == old(chains[j])
        invariant KeepsOthers(old(entries), entries)
        invariant m <= |chains[i]| && cur == At(chains[i], m)
        invariant forall k | 0 <= k < m :: chains[i][k] in entries && !IsDontaudit(entries[chains[i][k]].key)
        decreases |chains[i]| - m
      {
        Slot(i);
        SlotStep(i, m);
        var node := cur.value;
        cur := next[node];
        if IsDontaudit(entries[node].key) {
          ghost var k := RemoveNode(node);
          assert k == m;
        } else {
          m := m + 1;
        }
      }
      Slot(i);
    }

    /** Exactly the dontaudit nodes go, although nodes are freed while the lists are walked. */
    method StripDontaudit()
      requires Valid()
      modifies this
      ensures Valid()
      ensures entries == map p | p in old(entries) && old(entries)[p].key.specified !in {4, 0x400} :: old(entries)[p]
    {
      hide IsTable;
      Covered();
      for i := 0 to |htable|
        invariant Valid() && |chains| == |htable| == |old(htable)|
        invariant KeepsOthers(old(entries), entries)
        invariant forall j, p | 0 <= j < i && p in chains[j] :: p in entries && !IsDontaudit(entries[p].key)
      {
        StripSlot(i);
      }
      Covered();
    }

    lemma Covered()
      requires Valid()
      ensures |chains| == |htable|
      ensures forall p | p in entries :: hash(entries[p].key) < |chains| && p in chains[hash(entries[p].key)]
    {
    }
  }

  lemma HashedIn(hash: Key -> nat, entries: map<Ptr, Entry>, chains: seq<seq<Ptr>>, i: nat)
    requires IsHashed(hash, entries, chains) && i < |chains|
    ensures forall p | p in chains[i] :: p in entries && hash(entries[p].key) == i
  {
  }

  predicate IsDontaudit(key: Key) {
    key.specified == AVTAB_AUDITDENY || key.specified == AVTAB_XPERMS_DONTAUDIT
  }

  /** Nothing but dontaudit nodes is gone, and nothing is new. */
  ghost predicate KeepsOthers(before: map<Ptr, Entry>, after: map<Ptr, Entry>) {
    && (forall p | p in after :: p in before && after[p] == before[p])
    && (forall p | p in before && !IsDontaudit(before[p].key) :: p in after)
  }
}
