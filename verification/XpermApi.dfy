/**
  The extended permission calls of the policy interface (native/src/sepolicy/api.cpp): lists of source, target and class
  names and a list of ioctl ranges.
 */
module XpermApi {
  import opened Wrappers
  import opened AvTab
  import opened StatementLexer
  import opened StatementParser
  import opened PolicyRules
  import opened PolicyXperms
  import opened PolicyApi

  // ---- one rule, by name ----

  predicate IsXpermAction(action: Token) { action == AX || action == AY || action == DX }

  function XpermEffect(action: Token): (effect: nat)
    requires IsXpermAction(action)
    ensures IsXperm(effect)
  {
    match action
    case AX => AVTAB_XPERMS_ALLOWED
    case AY => AVTAB_XPERMS_AUDITALLOW
    case DX => AVTAB_XPERMS_DONTAUDIT
  }

  /** What the names of an extended permission rule stand for, if they all exist. */
  function ResolveNames(types: seq<TypeDatum>, classes: seq<ClassDatum>, s: string, t: string,
                        c: string): Option<Resolved> {
    Resolve(types, classes, RuleCall(s, t, c, "", 0, false))
  }

  /** The keys that the names reach. */
  ghost function NamedKeys(policy: Policy, s: string, t: string, c: string, effect: nat): set<Key> {
    match ResolveNames(policy.types, policy.classes, s, t, c)
    case Some(r) => XpermKeys(policy, r, effect)
    case None => {}
  }

  /** add_xperm_rule by name: nothing happens when one of the names does not exist. */
  method AddNamedXpermRule(policy: Policy, policyvers: nat, s: string, t: string, c: string, x: Xperm, effect: nat)
    returns (ok: bool)
    requires policy.te.Valid() && IoctlsAreUnique(policy.te.entries) && IsXperm(effect)
    modifies policy.te
    ensures policy.te.Valid() && ok == ResolveNames(policy.types, policy.classes, s, t, c).Some?
    ensures policyvers < POLICYDB_VERSION_XPERMS_IOCTL ==> policy.te.entries == old(policy.te.entries)
    ensures policyvers >= POLICYDB_VERSION_XPERMS_IOCTL ==>
              AreChanged(old(policy.te.entries), policy.te.entries, NamedKeys(policy, s, t, c, effect), x)
  {
    hide IsTable, AreChanged, XpermKeys, FindType, FindClass, IoctlsAreUnique;
    ok := false;
    ChangedNothing(policy.te.entries, x);
    var src, tgt, cls := None, None, None;
    if s != "" {
      src := FindType(policy.types, s);
      if src.None? { return; }
    }
    if t != "" {
      tgt := FindType(policy.types, t);
      if tgt.None? { return; }
    }
    if c != "" {
      cls := FindClass(policy.classes, c);
      if cls.None? { return; }
    }
    AddXpermRule(policy, policyvers, src, tgt, cls, x, effect);
    ok := true;
  }

  // ---- a run of rules ----

  /** Three names and a range. */
  predicate IsXpermTuple(t: seq<Arg>) { |t| == 4 && AreThreeNames(t[..3]) && t[3].Range? }

  predicate AreThreeNames(t: seq<Arg>) { |t| == 3 && t[0].Name? && t[1].Name? && t[2].Name? }

  ghost predicate Reaches(policy: Policy, t: seq<Arg>, effect: nat, key: Key) {
    AreThreeNames(t) && key in NamedKeys(policy, t[0].name, t[1].name, t[2].name, effect)
  }

  /** The ioctls of a key after a run of rules. */
  ghost function ReplayXperms(policy: Policy, ts: seq<seq<Arg>>, effect: nat, key: Key, a: set<nat>): set<nat> {
    if ts == [] then a
    else
      var t, b := ts[|ts| - 1], ReplayXperms(policy, ts[..|ts| - 1], effect, key, a);
      if IsXpermTuple(t) && Reaches(policy, t[..3], effect, key) then Apply(b, t[3].xperm) else b
  }

  /** The keys that some choice of names reaches. */
  ghost function ReachedKeys(policy: Policy, ts: seq<seq<Arg>>, effect: nat): set<Key> {
    if ts == [] then {}
    else
      var t := ts[|ts| - 1];
      ReachedKeys(policy, ts[..|ts| - 1], effect)
      + if AreThreeNames(t) then NamedKeys(policy, t[0].name, t[1].name, t[2].name, effect) else {}
  }

  lemma {:induction false} ReachedIs(policy: Policy, ts: seq<seq<Arg>>, effect: nat, key: Key)
    ensures key in ReachedKeys(policy, ts, effect) <==> exists i :: 0 <= i < |ts| && Reaches(policy, ts[i], effect, key)
  {
    hide NamedKeys;
    if ts != [] {
      var n := |ts| - 1;
      var init := ts[..n];
      ReachedIs(policy, init, effect, key);
      assert forall i | 0 <= i < n :: init[i] == ts[i];
      assert Reaches(policy, ts[n], effect, key) ==> key in ReachedKeys(policy, ts, effect);
    }
  }

  // ---- the expansion with the ranges last ----

  /** Each tuple once for each choice, the choice varying fastest. */
  function Extend(ts: seq<seq<Arg>>, choices: seq<Arg>): seq<seq<Arg>> {
    if ts == [] then [] else Extend(ts[..|ts| - 1], choices) + WithEach(ts[|ts| - 1], choices)
  }

  function WithEach(t: seq<Arg>, choices: seq<Arg>): seq<seq<Arg>> {
    if choices == [] then [] else WithEach(t, choices[..|choices| - 1]) + [t + [choices[|choices| - 1]]]
  }

  lemma {:induction false} ExtendNext(ts: seq<seq<Arg>>, t: seq<Arg>, choices: seq<Arg>)
    ensures Extend(ts + [t], choices) == Extend(ts, choices) + WithEach(t, choices)
  {
    hide WithEach;
    assert (ts + [t])[..|ts|] == ts;
  }

  lemma {:induction false} ExtendNothing(choices: seq<Arg>)
    ensures Extend([], choices) == []
  {
  }

  lemma {:induction false} ExtendConcat(a: seq<seq<Arg>>, b: seq<seq<Arg>>, choices: seq<Arg>)
    ensures Extend(a + b, choices) == Extend(a, choices) + Extend(b, choices)
  {
    hide WithEach, Extend;
    if b == [] {
      assert a + b == a;
      ExtendNothing(choices);
    } else {
      var init, last := b[..|b| - 1], b[|b| - 1];
      ExtendConcat(a, init, choices);
      assert a + b == (a + init) + [last] && b == init + [last];
      ExtendNext(a + init, last, choices);
      ExtendNext(init, last, choices);
    }
  }

  /** The last list is the innermost loop. */
  lemma {:induction false} LastVariesFastest(lists: seq<ArgList>, l: ArgList, args: seq<Arg>)
    ensures Product(lists + [l], args) == Extend(Product(lists, args), Choices(l))
    decreases |lists|, 1, 0
  {
    hide Choices;
    var all := lists + [l];
    if lists == [] {
      assert all[0] == l && all[1..] == [];
      EachIsWithEach(all, args, Choices(l));
      assert Extend([args], Choices(l)) == Extend([], Choices(l)) + WithEach(args, Choices(l)) by {
        assert [args][..0] == [];
      }
    } else {
      assert all[0] == lists[0];
      EachVaries(lists, l, args, Choices(lists[0]));
    }
  }

  lemma {:induction false} EachIsWithEach(lists: seq<ArgList>, args: seq<Arg>, choices: seq<Arg>)
    requires |lists| == 1
    ensures Each(lists, args, choices) == WithEach(args, choices)
  {
    if choices != [] {
      EachIsWithEach(lists, args, choices[..|choices| - 1]);
      assert lists[1..] == [];
    }
  }

  lemma {:induction false} EachVaries(lists: seq<ArgList>, l: ArgList, args: seq<Arg>, choices: seq<Arg>)
    requires lists != []
    ensures Each(lists + [l], args, choices) == Extend(Each(lists, args, choices), Choices(l))
    decreases |lists|, 0, |choices|
  {
    hide Choices;
    if choices != [] {
      var init, last := choices[..|choices| - 1], choices[|choices| - 1];
      EachVaries(lists, l, args, init);
      assert (lists + [l])[1..] == lists[1..] + [l];
      LastVariesFastest(lists[1..], l, args + [last]);
      ExtendConcat(Each(lists, args, init), Product(lists[1..], args + [last]), Choices(l));
    }
  }

  // ---- repeating a list of ranges changes nothing ----

  lemma {:induction false} ResetForgets(a: set<nat>, b: set<nat>, xs: seq<Xperm>)
    requires exists i :: 0 <= i < |xs| && xs[i].reset
    ensures ApplyAll(a, xs) == ApplyAll(b, xs)
  {
    hide Span;
    var n := |xs| - 1;
    if !xs[n].reset {
      var i :| 0 <= i < |xs| && xs[i].reset;
      assert xs[..n][i].reset;
      ResetForgets(a, b, xs[..n]);
    }
  }

  lemma {:induction false} ApplyAllAgain(a: set<nat>, xs: seq<Xperm>)
    ensures ApplyAll(ApplyAll(a, xs), xs) == ApplyAll(a, xs)
  {
    hide ApplyAll, SpanAll;
    if exists i :: 0 <= i < |xs| && xs[i].reset {
      ResetForgets(ApplyAll(a, xs), a, xs);
    } else {
      ListOfRanges(a, xs);
      ListOfRanges(ApplyAll(a, xs), xs);
    }
  }

  // ---- what a call does ----

  lemma {:induction false} ReplayNext(policy: Policy, ts: seq<seq<Arg>>, t: seq<Arg>, effect: nat, key: Key,
                                      a: set<nat>)
    ensures var b := ReplayXperms(policy, ts, effect, key, a);
            ReplayXperms(policy, ts + [t], effect, key, a)
            == if IsXpermTuple(t) && Reaches(policy, t[..3], effect, key) then Apply(b, t[3].xperm) else b
  {
    hide Reaches, Apply;
    assert (ts + [t])[..|ts|] == ts;
  }

  /** One choice of names, with all the ranges. */
  lemma {:induction false} ReplayOne(policy: Policy, ts: seq<seq<Arg>>, t: seq<Arg>, xs: seq<Xperm>, effect: nat,
                                     key: Key, a: set<nat>)
    requires AreThreeNames(t)
    ensures var b := ReplayXperms(policy, ts, effect, key, a);
            ReplayXperms(policy, ts + WithEach(t, Choices(Ranges(xs))), effect, key, a)
            == if Reaches(policy, t, effect, key) then ApplyAll(b, xs) else b
  {
    hide Reaches, Apply, ReplayXperms;
    var cs := Choices(Ranges(xs));
    if xs == [] {
      assert ts + WithEach(t, cs) == ts;
    } else {
      var n := |xs| - 1;
      var init := xs[..n];
      ReplayOne(policy, ts, t, init, effect, key, a);
      assert cs[..n] == Choices(Ranges(init)) && cs[n] == Range(xs[n]);
      var last := t + [cs[n]];
      assert ts + WithEach(t, cs) == (ts + WithEach(t, cs[..n])) + [last];
      ReplayNext(policy, ts + WithEach(t, cs[..n]), last, effect, key, a);
      assert last[..3] == t && IsXpermTuple(last);
    }
  }

  /** All choices of names: a key that any of them reaches goes through the list of ranges once. */
  lemma {:induction false} ReplayAll(policy: Policy, ts: seq<seq<Arg>>, xs: seq<Xperm>, effect: nat, key: Key,
                                     a: set<nat>)
    requires forall i | 0 <= i < |ts| :: AreThreeNames(ts[i])
    ensures ReplayXperms(policy, Extend(ts, Choices(Ranges(xs))), effect, key, a)
         == if key in ReachedKeys(policy, ts, effect) then ApplyAll(a, xs) else a
  {
    hide Choices, NamedKeys, ApplyAll, ReplayXperms;
    if ts == [] {
      ReplayNothing(policy, effect, key, a);
    } else {
      var n := |ts| - 1;
      ReplayAll(policy, ts[..n], xs, effect, key, a);
      ReplayOne(policy, Extend(ts[..n], Choices(Ranges(xs))), ts[n], xs, effect, key, a);
      ApplyAllAgain(a, xs);
    }
  }

  lemma {:induction false} ReplayNothing(policy: Policy, effect: nat, key: Key, a: set<nat>)
    ensures ReplayXperms(policy, [], effect, key, a) == a
  {
  }

  function NameLists(call: Call): seq<ArgList>
    requires call.XpermRule?
  {
    [Names(call.source), Names(call.target), Names(call.cls)]
  }

  lemma ChoicesAreThreeNames(call: Call, t: seq<Arg>)
    requires call.XpermRule? && t in Product(NameLists(call), [])
    ensures AreThreeNames(t)
  {
    var ls := NameLists(call);
    ProductHas(ls, [], t);
    assert t[0 + 0] in Choices(ls[0]) && t[0 + 1] in Choices(ls[1]) && t[0 + 2] in Choices(ls[2]);
  }

  /** The keys that a call is about. */
  ghost function AskedKeys(policy: Policy, call: Call): set<Key>
    requires call.XpermRule? && IsXpermAction(call.action)
  {
    ReachedKeys(policy, Product(NameLists(call), []), XpermEffect(call.action))
  }

  /** They are those that some choice of a name from each list reaches. */
  lemma AskedAre(policy: Policy, call: Call, key: Key)
    requires call.XpermRule? && IsXpermAction(call.action)
    ensures key in AskedKeys(policy, call) <==>
            exists s, t, c :: s in OrAny(call.source) && t in OrAny(call.target) && c in OrAny(call.cls)
              && key in NamedKeys(policy, s, t, c, XpermEffect(call.action))
  {
    hide Product, NamedKeys, OrAny, ReachedKeys;
    var ts, effect := Product(NameLists(call), []), XpermEffect(call.action);
    ReachedIs(policy, ts, effect, key);
    if i :| 0 <= i < |ts| && Reaches(policy, ts[i], effect, key) {
      var u := ts[i];
      assert u == [Name(u[0].name), Name(u[1].name), Name(u[2].name)];
      TripleOfNames(call, u[0].name, u[1].name, u[2].name);
    }
    if s, t, c :| && s in OrAny(call.source) && t in OrAny(call.target) && c in OrAny(call.cls)
                  && key in NamedKeys(policy, s, t, c, effect) {
      TripleOfNames(call, s, t, c);
      var i :| 0 <= i < |ts| && ts[i] == [Name(s), Name(t), Name(c)];
      assert Reaches(policy, ts[i], effect, key);
    }
  }

  lemma TripleOfNames(call: Call, s: string, t: string, c: string)
    requires call.XpermRule?
    ensures [Name(s), Name(t), Name(c)] in Product(NameLists(call), []) <==>
            s in OrAny(call.source) && t in OrAny(call.target) && c in OrAny(call.cls)
  {
    hide Product, Choices, OrAny;
    var u, ls := [Name(s), Name(t), Name(c)], NameLists(call);
    ProductHas(ls, [], u);
    ChoicesOf(call.source, Name(s));
    ChoicesOf(call.target, Name(t));
    ChoicesOf(call.cls, Name(c));
    assert IsChoice(ls, [], u) <==> forall i | 0 <= i < 3 :: u[0 + i] in Choices(ls[i]);
    assert (forall i | 0 <= i < 3 :: u[0 + i] in Choices(ls[i])) <==>
           u[0 + 0] in Choices(ls[0]) && u[0 + 1] in Choices(ls[1]) && u[0 + 2] in Choices(ls[2]);
  }

  /** Where a run of rules stands. */
  ghost predicate IsReplayed(before: Entries, after: Entries, policy: Policy, ts: seq<seq<Arg>>, effect: nat,
                             keys: set<Key>) {
    && IoctlsAreUnique(after)
    && KeepsOther(before, after, keys)
    && forall key: Key | IsXperm(key.specified) ::
         Ioctls(after, key) == ReplayXperms(policy, ts, effect, key, Ioctls(before, key))
  }

  lemma ReplayedNothing(before: Entries, policy: Policy, effect: nat, keys: set<Key>)
    requires IoctlsAreUnique(before)
    ensures IsReplayed(before, before, policy, [], effect, keys)
  {
    hide Ioctls, IoctlsAreUnique;
  }

  lemma ReplayedNext(before: Entries, so: Entries, after: Entries, policy: Policy, ts: seq<seq<Arg>>, i: nat,
                     effect: nat, keys: set<Key>)
    requires i < |ts| && IsXpermTuple(ts[i]) && IsReplayed(before, so, policy, ts[..i], effect, keys)
    requires var t := ts[i]; var reached := NamedKeys(policy, t[0].name, t[1].name, t[2].name, effect);
             AreChanged(so, after, reached, t[3].xperm) && reached <= keys
    ensures IsReplayed(before, after, policy, ts[..i + 1], effect, keys)
  {
    hide Ioctls, IoctlsAreUnique, NamedKeys, Apply;
    var t := ts[i];
    assert ts[..i + 1][..i] == ts[..i];
    forall key: Key | IsXperm(key.specified)
      ensures Ioctls(after, key) == ReplayXperms(policy, ts[..i + 1], effect, key, Ioctls(before, key))
    {
      if !Reaches(policy, t[..3], effect, key) {
        IoctlsOfOther(so, after, NamedKeys(policy, t[0].name, t[1].name, t[2].name, effect), key);
      }
    }
  }

  /** allowxperm, auditallowxperm and dontauditxperm: the ioctls of exactly the keys that some choice of names reaches
      go through the list of ranges. */
  method PerformXperm(policy: Policy, policyvers: nat, call: Call)
    requires policy.te.Valid() && IoctlsAreUnique(policy.te.entries) && call.XpermRule? && IsXpermAction(call.action)
    modifies policy.te
    ensures policy.te.Valid() && IoctlsAreUnique(policy.te.entries)
    ensures policyvers < POLICYDB_VERSION_XPERMS_IOCTL ==> policy.te.entries == old(policy.te.entries)
    ensures KeepsOther(old(policy.te.entries), policy.te.entries, AskedKeys(policy, call))
    ensures policyvers >= POLICYDB_VERSION_XPERMS_IOCTL ==>
              forall key: Key | IsXperm(key.specified) ::
                Ioctls(policy.te.entries, key)
                == if key in AskedKeys(policy, call) then ApplyAll(Ioctls(old(policy.te.entries), key), call.xperms)
                   else Ioctls(old(policy.te.entries), key)
  {
    hide IsTable, IoctlsAreUnique, Product, Extend, AskedKeys, AreChanged, Ioctls, ApplyAll, ReplayXperms, IsReplayed,
         NamedKeys, KeepsOther;
    var effect := XpermEffect(call.action);
    ghost var before, keys := policy.te.entries, AskedKeys(policy, call);
    var expander := new Expander();
    expander.Expand(NameLists(call) + [Ranges(call.xperms)], []);
    var ts := expander.emitted;
    ReplayedNothing(before, policy, effect, keys);
    assert ts[..0] == [];
    for i := 0 to |ts|
      invariant policy.te.Valid() && IoctlsAreUnique(policy.te.entries)
      invariant policyvers < POLICYDB_VERSION_XPERMS_IOCTL ==> policy.te.entries == before
      invariant policyvers >= POLICYDB_VERSION_XPERMS_IOCTL ==>
                  IsReplayed(before, policy.te.entries, policy, ts[..i], effect, keys)
    {
      var t := ts[i];
      TupleIs(policy, call, t);
      ghost var so := policy.te.entries;
      var _ := AddNamedXpermRule(policy, policyvers, t[0].name, t[1].name, t[2].name, t[3].xperm, effect);
      if policyvers >= POLICYDB_VERSION_XPERMS_IOCTL {
        ChangedIsUnique(so, policy.te.entries, NamedKeys(policy, t[0].name, t[1].name, t[2].name, effect), t[3].xperm);
        ReplayedNext(before, so, policy.te.entries, policy, ts, i, effect, keys);
      }
    }
    assert ts[..|ts|] == ts;
    CallIsReplayed(before, policy.te.entries, policy, policyvers, call);
  }

  lemma TupleIs(policy: Policy, call: Call, t: seq<Arg>)
    requires call.XpermRule? && IsXpermAction(call.action)
    requires t in Product(NameLists(call) + [Ranges(call.xperms)], [])
    ensures IsXpermTuple(t)
    ensures NamedKeys(policy, t[0].name, t[1].name, t[2].name, XpermEffect(call.action)) <= AskedKeys(policy, call)
  {
    hide Product, NamedKeys, OrAny;
    var ls := NameLists(call);
    var all := ls + [Ranges(call.xperms)];
    ProductHas(all, [], t);
    assert t[0 + 0] in Choices(all[0]) && t[0 + 1] in Choices(all[1]) && t[0 + 2] in Choices(all[2])
           && t[0 + 3] in Choices(all[3]);
    ChoicesOf(call.source, t[0]);
    ChoicesOf(call.target, t[1]);
    ChoicesOf(call.cls, t[2]);
    var effect := XpermEffect(call.action);
    forall key | key in NamedKeys(policy, t[0].name, t[1].name, t[2].name, effect)
      ensures key in AskedKeys(policy, call)
    {
      AskedAre(policy, call, key);
    }
  }

  lemma CallIsReplayed(before: Entries, after: Entries, policy: Policy, policyvers: nat, call: Call)
    requires call.XpermRule? && IsXpermAction(call.action)
    requires policyvers < POLICYDB_VERSION_XPERMS_IOCTL ==> after == before
    requires policyvers >= POLICYDB_VERSION_XPERMS_IOCTL ==>
               IsReplayed(before, after, policy, Product(NameLists(call) + [Ranges(call.xperms)], []),
                          XpermEffect(call.action), AskedKeys(policy, call))
    ensures KeepsOther(before, after, AskedKeys(policy, call))
    ensures policyvers >= POLICYDB_VERSION_XPERMS_IOCTL ==>
              forall key: Key | IsXperm(key.specified) ::
                Ioctls(after, key)
                == if key in AskedKeys(policy, call) then ApplyAll(Ioctls(before, key), call.xperms)
                   else Ioctls(before, key)
  {
    hide Product, Extend, ReachedKeys, Ioctls, ApplyAll, ReplayXperms, IoctlsAreUnique, Choices;
    if policyvers >= POLICYDB_VERSION_XPERMS_IOCTL {
      var ts, effect := Product(NameLists(call), []), XpermEffect(call.action);
      LastVariesFastest(NameLists(call), Ranges(call.xperms), []);
      forall i | 0 <= i < |ts| ensures AreThreeNames(ts[i]) { ChoicesAreThreeNames(call, ts[i]); }
      forall key: Key | IsXperm(key.specified)
        ensures Ioctls(after, key)
                == if key in AskedKeys(policy, call) then ApplyAll(Ioctls(before, key), call.xperms)
                   else Ioctls(before, key)
      {
        ReplayAll(policy, ts, call.xperms, effect, key, Ioctls(before, key));
      }
    }
  }
}
