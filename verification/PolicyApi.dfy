/**
  The policy interface (native/src/sepolicy/api.cpp): a call with lists of names is expanded into one rule for each
  choice of a name from every list.
 */
module PolicyApi {
  import opened Wrappers
  import opened AvTab
  import opened StatementLexer
  import opened StatementParser
  import opened PolicyRules

  datatype Arg = Name(name: string) | Range(xperm: Xperm)

  datatype ArgList = Names(names: seq<string>) | Ranges(xperms: seq<Xperm>)

  /** The choices a list leaves; an empty list of names leaves the empty name, which stands for everything. */
  function Choices(l: ArgList): seq<Arg> {
    match l
    case Names(ns) => if ns == [] then [Name("")] else seq(|ns|, i requires 0 <= i < |ns| => Name(ns[i]))
    case Ranges(xs) => seq(|xs|, i requires 0 <= i < |xs| => Range(xs[i]))
  }

  /** All the ways to extend args by one choice from every list, the last list varying fastest. */
  function Product(lists: seq<ArgList>, args: seq<Arg>): seq<seq<Arg>>
    decreases |lists|, 1, 0
  {
    if lists == [] then [args] else Each(lists, args, Choices(lists[0]))
  }

  function Each(lists: seq<ArgList>, args: seq<Arg>, choices: seq<Arg>): seq<seq<Arg>>
    requires lists != []
    decreases |lists|, 0, |choices|
  {
    if choices == [] then []
    else Each(lists, args, choices[..|choices| - 1]) + Product(lists[1..], args + [choices[|choices| - 1]])
  }

  /** A tuple that extends args by one choice from every list. */
  predicate IsChoice(lists: seq<ArgList>, args: seq<Arg>, t: seq<Arg>) {
    && |t| == |args| + |lists|
    && args <= t
    && forall i | 0 <= i < |lists| :: t[|args| + i] in Choices(lists[i])
  }

  lemma ChoiceNext(lists: seq<ArgList>, args: seq<Arg>, t: seq<Arg>)
    requires lists != [] && |t| > |args|
    ensures IsChoice(lists, args, t) <==>
            args <= t && t[|args|] in Choices(lists[0]) && IsChoice(lists[1..], args + [t[|args|]], t)
  {
    hide Choices;
    var more := args + [t[|args|]];
    if IsChoice(lists, args, t) {
      forall i | 0 <= i < |lists| - 1 ensures t[|more| + i] in Choices(lists[1..][i]) {
        assert t[|args| + (i + 1)] in Choices(lists[i + 1]);
      }
    }
    if args <= t && t[|args|] in Choices(lists[0]) && IsChoice(lists[1..], more, t) {
      forall i | 0 <= i < |lists| ensures t[|args| + i] in Choices(lists[i]) {
        if i > 0 {
          assert t[|more| + (i - 1)] in Choices(lists[1..][i - 1]);
        }
      }
    }
  }

  /** The expansion has every choice, and nothing else. */
  lemma {:induction false} ProductHas(lists: seq<ArgList>, args: seq<Arg>, t: seq<Arg>)
    ensures t in Product(lists, args) <==> IsChoice(lists, args, t)
    decreases |lists|, 1, 0
  {
    hide Choices;
    if lists == [] {
      assert IsChoice(lists, args, t) ==> t == args;
    } else {
      EachHas(lists, args, Choices(lists[0]), t);
      if |t| > |args| {
        ChoiceNext(lists, args, t);
      }
    }
  }

  lemma {:induction false} EachHas(lists: seq<ArgList>, args: seq<Arg>, choices: seq<Arg>, t: seq<Arg>)
    requires lists != []
    ensures t in Each(lists, args, choices) <==>
            |t| > |args| && args <= t && t[|args|] in choices && IsChoice(lists[1..], args + [t[|args|]], t)
    decreases |lists|, 0, |choices|
  {
    if choices != [] {
      var last := choices[|choices| - 1];
      EachHas(lists, args, choices[..|choices| - 1], t);
      ProductHas(lists[1..], args + [last], t);
      assert choices == choices[..|choices| - 1] + [last];
      if IsChoice(lists[1..], args + [last], t) {
        assert t[..|args| + 1] == args + [last];
      }
    }
  }

  class Expander {
    var emitted: seq<seq<Arg>>

    constructor ()
      ensures emitted == []
    {
      emitted := [];
    }

    /** expand: one list is taken off the front, and each of its elements is put behind the arguments. */
    method Expand(lists: seq<ArgList>, args: seq<Arg>)
      modifies this
      ensures emitted == old(emitted) + Product(lists, args)
      decreases |lists|, 1
    {
      hide Choices, Each;
      if lists == [] {
        emitted := emitted + [args];
      } else {
        match lists[0] {
          case Names(ns) => ExpandNames(ns, lists, args);
          case Ranges(xs) => ExpandRanges(xs, lists, args);
        }
      }
    }

    method ExpandNames(ns: seq<string>, lists: seq<ArgList>, args: seq<Arg>)
      requires lists != [] && lists[0] == Names(ns)
      modifies this
      ensures emitted == old(emitted) + Each(lists, args, Choices(lists[0]))
      decreases |lists|, 0
    {
      hide Product;
      ghost var choices := Choices(lists[0]);
      if ns == [] {
        Expand(lists[1..], args + [Name("")]);
        assert choices[..0] == [];
        assert Each(lists, args, []) == [];
      } else {
        for i := 0 to |ns|
          invariant emitted == old(emitted) + Each(lists, args, choices[..i])
        {
          Expand(lists[1..], args + [Name(ns[i])]);
          assert choices[..i + 1][..i] == choices[..i];
        }
        assert choices[..|ns|] == choices;
      }
    }

    method ExpandRanges(xs: seq<Xperm>, lists: seq<ArgList>, args: seq<Arg>)
      requires lists != [] && lists[0] == Ranges(xs)
      modifies this
      ensures emitted == old(emitted) + Each(lists, args, Choices(lists[0]))
      decreases |lists|, 0
    {
      hide Product;
      ghost var choices := Choices(lists[0]);
      for i := 0 to |xs|
        invariant emitted == old(emitted) + Each(lists, args, choices[..i])
      {
        Expand(lists[1..], args + [Range(xs[i])]);
        assert choices[..i + 1][..i] == choices[..i];
      }
      assert choices[..|xs|] == choices;
    }
  }

  // ---- allow, deny, auditallow and dontaudit ----

  predicate IsRule(action: Token) { action == AL || action == DN || action == AA || action == DA }

  function Effect(action: Token): nat
    requires IsRule(action)
  {
    match action
    case AL | DN => AVTAB_ALLOWED
    case AA => AVTAB_AUDITALLOW
    case DA => AVTAB_AUDITDENY
  }

  predicate Invert(action: Token) { action == DN || action == DA }

  predicate AreNames(t: seq<Arg>) { |t| == 4 && t[0].Name? && t[1].Name? && t[2].Name? && t[3].Name? }

  function RuleFor(action: Token, t: seq<Arg>): RuleCall
    requires IsRule(action) && AreNames(t)
  {
    RuleCall(t[0].name, t[1].name, t[2].name, t[3].name, Effect(action), Invert(action))
  }

  function Lists(call: Call): seq<ArgList>
    requires call.Rule?
  {
    [Names(call.source), Names(call.target), Names(call.cls), Names(call.perms)]
  }

  lemma ChoicesAreNames(call: Call, t: seq<Arg>)
    requires call.Rule? && t in Product(Lists(call), [])
    ensures AreNames(t)
  {
    ProductHas(Lists(call), [], t);
    var ls := Lists(call);
    assert t[0 + 0] in Choices(ls[0]) && t[0 + 1] in Choices(ls[1]) && t[0 + 2] in Choices(ls[2])
           && t[0 + 3] in Choices(ls[3]);
  }

  /** The call changes the permission of the key. */
  ghost predicate Touches(types: seq<TypeDatum>, classes: seq<ClassDatum>, call: RuleCall, key: Key, v: Perm) {
    var r := Resolve(types, classes, call);
    r.Some? && key in CallKeys(types, classes, r.value, call.effect, call.invert) && Covers(r.value.perm, v)
  }

  /** A run of calls of one kind: a permission that any of them touches is given or taken, the others stay. */
  lemma {:induction false} ReplayOneKind(types: seq<TypeDatum>, classes: seq<ClassDatum>, calls: seq<RuleCall>,
                                         effect: nat, invert: bool, key: Key, m: Word, v: Perm)
    requires IsAv(effect) && forall i | 0 <= i < |calls| :: calls[i].effect == effect && calls[i].invert == invert
    ensures Gives(key, Replay(types, classes, calls, key, m), v) <==>
            if exists i :: 0 <= i < |calls| && Touches(types, classes, calls[i], key, v) then !StripsAv(effect, invert)
            else Gives(key, m, v)
  {
    hide Resolve, CallKeys;
    if calls != [] {
      var n := |calls| - 1;
      var rest := calls[..n];
      ReplayOneKind(types, classes, rest, effect, invert, key, m, v);
      assert v in ALL_PERMS;
      assert (exists i :: 0 <= i < |rest| && Touches(types, classes, rest[i], key, v))
        <==> exists i :: 0 <= i < n && Touches(types, classes, calls[i], key, v) by {
        assert forall i | 0 <= i < n :: rest[i] == calls[i];
      }
    }
  }

  function OrAny(names: seq<string>): seq<string> { if names == [] then [""] else names }

  /** Some choice of names from the lists of a call touches the permission of the key. */
  ghost predicate Asks(types: seq<TypeDatum>, classes: seq<ClassDatum>, call: Call, key: Key, v: Perm)
    requires call.Rule? && IsRule(call.action)
  {
    exists s, t, c, p ::
      s in OrAny(call.source) && t in OrAny(call.target) && c in OrAny(call.cls) && p in OrAny(call.perms)
      && Touches(types, classes, RuleCall(s, t, c, p, Effect(call.action), Invert(call.action)), key, v)
  }

  lemma ChoicesOf(names: seq<string>, a: Arg)
    ensures a in Choices(Names(names)) <==> a.Name? && a.name in OrAny(names)
  {
    var cs := Choices(Names(names));
    if a in cs && names != [] {
      var i :| 0 <= i < |cs| && cs[i] == a;
    }
    if a.Name? && a.name in OrAny(names) {
      var i :| 0 <= i < |OrAny(names)| && OrAny(names)[i] == a.name;
      assert cs[i] == a;
    }
  }

  lemma ProductOfNames(call: Call, s: string, t: string, c: string, p: string)
    requires call.Rule?
    ensures [Name(s), Name(t), Name(c), Name(p)] in Product(Lists(call), []) <==>
            s in OrAny(call.source) && t in OrAny(call.target) && c in OrAny(call.cls) && p in OrAny(call.perms)
  {
    hide Product, Choices, OrAny;
    var u, ls := [Name(s), Name(t), Name(c), Name(p)], Lists(call);
    ProductHas(ls, [], u);
    ChoicesOf(call.source, Name(s));
    ChoicesOf(call.target, Name(t));
    ChoicesOf(call.cls, Name(c));
    ChoicesOf(call.perms, Name(p));
    assert IsChoice(ls, [], u) <==> forall i | 0 <= i < 4 :: u[0 + i] in Choices(ls[i]);
    assert (forall i | 0 <= i < 4 :: u[0 + i] in Choices(ls[i])) <==>
           u[0 + 0] in Choices(ls[0]) && u[0 + 1] in Choices(ls[1]) && u[0 + 2] in Choices(ls[2])
           && u[0 + 3] in Choices(ls[3]);
  }

  function RulesFor(call: Call): seq<RuleCall>
    requires call.Rule? && IsRule(call.action)
  {
    var ts := Product(Lists(call), []);
    seq(|ts|, i requires 0 <= i < |ts| => ChoicesAreNames(call, ts[i]); RuleFor(call.action, ts[i]))
  }

  lemma RulesTouch(types: seq<TypeDatum>, classes: seq<ClassDatum>, call: Call, key: Key, v: Perm)
    requires call.Rule? && IsRule(call.action)
    ensures (exists i :: 0 <= i < |RulesFor(call)| && Touches(types, classes, RulesFor(call)[i], key, v)) <==>
            Asks(types, classes, call, key, v)
  {
    hide Product, Touches, OrAny;
    var ts, rules := Product(Lists(call), []), RulesFor(call);
    if i :| 0 <= i < |rules| && Touches(types, classes, rules[i], key, v) {
      var u := ts[i];
      ChoicesAreNames(call, u);
      assert u == [Name(u[0].name), Name(u[1].name), Name(u[2].name), Name(u[3].name)];
      ProductOfNames(call, u[0].name, u[1].name, u[2].name, u[3].name);
    }
    if Asks(types, classes, call, key, v) {
      var s, t, c, p :|
        && s in OrAny(call.source) && t in OrAny(call.target) && c in OrAny(call.cls) && p in OrAny(call.perms)
        && Touches(types, classes, RuleCall(s, t, c, p, Effect(call.action), Invert(call.action)), key, v);
      ProductOfNames(call, s, t, c, p);
      var i :| 0 <= i < |ts| && ts[i] == [Name(s), Name(t), Name(c), Name(p)];
      assert Touches(types, classes, rules[i], key, v);
    }
  }

  /** allow, deny, auditallow and dontaudit: exactly the permissions that some choice of names touches are given,
      or taken by deny. */
  method PerformRule(policy: Policy, call: Call)
    requires policy.te.Valid() && AvKeysAreUnique(policy.te.entries) && call.Rule? && IsRule(call.action)
    modifies policy.te
    ensures policy.te.Valid() && AvKeysAreUnique(policy.te.entries)
    ensures IsTight(old(policy.te.entries)) ==> IsTight(policy.te.entries)
    ensures KeepsNonAv(old(policy.te.entries), policy.te.entries)
    ensures forall key: Key, v: Perm | IsAv(key.specified) ::
              IsOn(policy.te.entries, key, v) <==>
              if Asks(policy.types, policy.classes, call, key, v) then call.action != DN
              else IsOn(old(policy.te.entries), key, v)
  {
    hide IsTable, AvKeysAreUnique, Product, Asks, Touches, IsTight, KeepsNonAv, WordOf, RulesFor, Replay;
    var expander := new Expander();
    expander.Expand(Lists(call), []);
    var rules := Rules(call, expander.emitted);
    SameKind(call);
    policy.AddRules(rules);
    forall key: Key, v: Perm | IsAv(key.specified)
      ensures IsOn(policy.te.entries, key, v) <==>
              if Asks(policy.types, policy.classes, call, key, v) then call.action != DN
              else IsOn(old(policy.te.entries), key, v)
    {
      ReplayOneKind(policy.types, policy.classes, rules, Effect(call.action), Invert(call.action), key,
                    WordOf(old(policy.te.entries), key), v);
      RulesTouch(policy.types, policy.classes, call, key, v);
    }
  }

  lemma SameKind(call: Call)
    requires call.Rule? && IsRule(call.action)
    ensures forall i | 0 <= i < |RulesFor(call)| ::
              RulesFor(call)[i].effect == Effect(call.action) && RulesFor(call)[i].invert == Invert(call.action)
  {
  }

  method Rules(call: Call, emitted: seq<seq<Arg>>) returns (rules: seq<RuleCall>)
    requires call.Rule? && IsRule(call.action) && emitted == Product(Lists(call), [])
    ensures rules == RulesFor(call)
  {
    hide Product;
    rules := [];
    for i := 0 to |emitted|
      invariant rules == RulesFor(call)[..i]
    {
      ChoicesAreNames(call, emitted[i]);
      rules := rules + [RuleFor(call.action, emitted[i])];
    }
  }

  /** What a statement with one name in each list asks for: allow and deny are about allowed rules, auditallow and
      dontaudit about the rules named after them. */
  lemma {:induction false} OneOfEach(types: seq<TypeDatum>, classes: seq<ClassDatum>, action: Token, s: TypeDatum,
                                     t: TypeDatum, c: ClassDatum, p: string, v: Perm, key: Key)
    requires IsRule(action) && s.name != "" && t.name != "" && c.name != "" && p != ""
    requires FindType(types, s.name) == Some(s) && FindType(types, t.name) == Some(t)
    requires FindClass(classes, c.name) == Some(c) && FindPerm(c, p).Some?
    ensures Asks(types, classes, Rule(action, [s.name], [t.name], [c.name], [p]), key, v) <==>
            && v == FindPerm(c, p).value
            && key.source == s.value && key.target == t.value && key.cls == c.value
            && key.specified
               == (if action == AA then AVTAB_AUDITALLOW else if action == DA then AVTAB_AUDITDENY else AVTAB_ALLOWED)
  {
    hide FindType, FindClass, FindPerm;
    var call := Rule(action, [s.name], [t.name], [c.name], [p]);
    var r := RuleCall(s.name, t.name, c.name, p, Effect(action), Invert(action));
    OneKey(Key(s.value, t.value, c.value, Effect(action)));
    assert s.name in OrAny([s.name]) && t.name in OrAny([t.name]) && c.name in OrAny([c.name]) && p in OrAny([p]);
    assert Asks(types, classes, call, key, v) <==> Touches(types, classes, r, key, v);
  }
}
