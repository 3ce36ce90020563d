/**
  Access vector rules (native/src/sepolicy/sepolicy.cpp): each call of add_rule changes the words of the keys it
  names and of no other, and leaves no node that says no more than its absence.
 */
module PolicyRules {
  import opened Wrappers
  import opened AvTab

  type Perm = v: nat | 1 <= v <= 32 witness 1

  datatype TypeDatum = TypeDatum(name: string, value: nat, isAttribute: bool)

  /** A class: its value, its own permissions and those it has in common with others. */
  datatype ClassDatum = ClassDatum(name: string, value: nat, perms: map<string, Perm>, common: map<string, Perm>)

  type Entries = map<Ptr, Entry>

  predicate IsAv(specified: nat) {
    specified == AVTAB_ALLOWED || specified == AVTAB_AUDITALLOW || specified == AVTAB_AUDITDENY
  }

  /** strip_av: whether the call takes access away, rather than giving it. */
  predicate StripsAv(effect: nat, invert: bool) { (effect == AVTAB_AUDITDENY) == !invert }

  function Revise(m: Word, perm: Option<Perm>, invert: bool): Word {
    if invert then (if perm.Some? then m - {perm.value} else {})
    else (if perm.Some? then m + {perm.value} else ALL_PERMS)
  }

  // ---- the map that a table stands for ----

  ghost predicate Has(entries: Entries, p: Ptr, key: Key) { p in entries && entries[p].key == key }

  /** The word of a key: that of its node, or the default. */
  ghost function WordOf(entries: Entries, key: Key): Word {
    if p :| Has(entries, p, key) then entries[p].data else Default(key)
  }

  ghost predicate AvKeysAreUnique(entries: Entries) {
    forall p: Ptr, q: Ptr, key: Key | IsAv(key.specified) && Has(entries, p, key) && Has(entries, q, key) :: p == q
  }

  /** Nodes of other keys are the same, before and after. */
  ghost predicate KeepsOther(before: Entries, after: Entries, keys: set<Key>) {
    && (forall p | p in before && before[p].key !in keys :: p in after && after[p] == before[p])
    && (forall p | p in after && after[p].key !in keys :: p in before && before[p] == after[p])
  }

  ghost predicate HasNoRedundant(entries: Entries, keys: set<Key>) {
    forall p | p in entries && entries[p].key in keys :: entries[p].data != Default(entries[p].key)
  }

  ghost predicate WordsRevised(before: Entries, after: Entries, keys: set<Key>, perm: Option<Perm>, invert: bool) {
    forall key | key in keys :: WordOf(after, key) == Revise(WordOf(before, key), perm, invert)
  }

  /** The words of the keys are revised; nothing else changes. */
  ghost predicate IsRevised(before: Entries, after: Entries, keys: set<Key>, perm: Option<Perm>, invert: bool) {
    && AvKeysAreUnique(after)
    && KeepsOther(before, after, keys)
    && HasNoRedundant(after, keys)
    && WordsRevised(before, after, keys, perm, invert)
  }

  lemma WordOfNode(entries: Entries, p: Ptr, key: Key)
    requires AvKeysAreUnique(entries) && IsAv(key.specified) && Has(entries, p, key)
    ensures WordOf(entries, key) == entries[p].data
  {
  }

  /** A key that is not touched keeps its word, and its uniqueness. */
  lemma WordOfOther(before: Entries, after: Entries, keys: set<Key>, key: Key)
    requires AvKeysAreUnique(before) && AvKeysAreUnique(after) && KeepsOther(before, after, keys)
    requires key !in keys && IsAv(key.specified)
    ensures WordOf(after, key) == WordOf(before, key)
  {
    if p :| Has(before, p, key) {
      assert Has(after, p, key);
    }
    if p :| Has(after, p, key) {
      assert Has(before, p, key);
    }
  }

  /** Calls that follow each other, even if they name the same key. */
  lemma RevisedTwice(a: Entries, b: Entries, c: Entries, ks: set<Key>, ls: set<Key>, perm: Option<Perm>, invert: bool)
    requires AvKeysAreUnique(a) && forall k | k in ks || k in ls :: IsAv(k.specified)
    requires IsRevised(a, b, ks, perm, invert) && IsRevised(b, c, ls, perm, invert)
    ensures IsRevised(a, c, ks + ls, perm, invert)
  {
    hide WordOf, AvKeysAreUnique;
    forall key | key in ks + ls ensures WordOf(c, key) == Revise(WordOf(a, key), perm, invert) {
      if key !in ls {
        WordOfOther(b, c, ls, key);
      }
      if key !in ks {
        WordOfOther(a, b, ks, key);
      }
    }
  }

  lemma RevisedNothing(a: Entries, perm: Option<Perm>, invert: bool)
    requires AvKeysAreUnique(a)
    ensures IsRevised(a, a, {}, perm, invert)
  {
  }

  // ---- which keys a call names ----

  /** The values of the types a wildcard goes through. */
  function Values(types: seq<TypeDatum>, all: bool): set<nat> {
    if types == [] then {}
    else
      var t := types[|types| - 1];
      Values(types[..|types| - 1], all) + if all || t.isAttribute then {t.value} else {}
  }

  function Named(t: Option<TypeDatum>, types: seq<TypeDatum>, all: bool): set<nat> {
    if t.Some? then {t.value.value} else Values(types, all)
  }

  function ClassValues(classes: seq<ClassDatum>): set<nat> {
    if classes == [] then {} else ClassValues(classes[..|classes| - 1]) + {classes[|classes| - 1].value}
  }

  function NamedClasses(c: Option<ClassDatum>, classes: seq<ClassDatum>): set<nat> {
    if c.Some? then {c.value.value} else ClassValues(classes)
  }

  function Keys(sources: set<nat>, targets: set<nat>, classes: set<nat>, effect: nat): (r: set<Key>)
    ensures forall k | k in r :: k.specified == effect
  {
    set s, t, c | s in sources && t in targets && c in classes :: Key(s, t, c, effect)
  }

  lemma {:induction false} ValuesNext(types: seq<TypeDatum>, all: bool, i: nat)
    requires i < |types|
    ensures Values(types[..i + 1], all)
            == if all || types[i].isAttribute then Values(types[..i], all) + {types[i].value}
               else Values(types[..i], all)
  {
    assert types[..i + 1][..i] == types[..i];
  }

  lemma ClassValuesNext(classes: seq<ClassDatum>, i: nat)
    requires i < |classes|
    ensures ClassValues(classes[..i + 1]) == ClassValues(classes[..i]) + {classes[i].value}
  {
    assert classes[..i + 1][..i] == classes[..i];
  }

  lemma KeysUnion(a: set<nat>, b: set<nat>, c: set<nat>, d: set<nat>, effect: nat)
    ensures Keys(a, c, d, effect) + Keys(b, c, d, effect) == Keys(a + b, c, d, effect)
    ensures Keys(c, a, d, effect) + Keys(c, b, d, effect) == Keys(c, a + b, d, effect)
    ensures Keys(c, d, a, effect) + Keys(c, d, b, effect) == Keys(c, d, a + b, effect)
  {
  }

  lemma NoKeys(a: set<nat>, b: set<nat>, c: set<nat>, effect: nat)
    ensures Keys({}, b, c, effect) == Keys(a, {}, c, effect) == Keys(a, b, {}, effect) == {}
  {
  }

  // ---- names ----

  /** A name is looked up by its first 255 characters. */
  function Cut(name: string): string { if |name| > 255 then name[..255] else name }

  function FindType(types: seq<TypeDatum>, name: string): Option<TypeDatum> {
    if types == [] then None
    else if types[0].name == Cut(name) then Some(types[0])
    else FindType(types[1..], name)
  }

  function FindClass(classes: seq<ClassDatum>, name: string): Option<ClassDatum> {
    if classes == [] then None
    else if classes[0].name == Cut(name) then Some(classes[0])
    else FindClass(classes[1..], name)
  }

  function FindPerm(c: ClassDatum, name: string): Option<Perm> {
    if Cut(name) in c.perms then Some(c.perms[Cut(name)])
    else if Cut(name) in c.common then Some(c.common[Cut(name)])
    else None
  }

  datatype RuleCall = RuleCall(s: string, t: string, c: string, p: string, effect: nat, invert: bool)

  datatype Resolved = Resolved(src: Option<TypeDatum>, tgt: Option<TypeDatum>, cls: Option<ClassDatum>,
                               perm: Option<Perm>)

  predicate Exists<T>(name: string, found: Option<T>) { name == "" || found.Some? }

  function Given<T>(name: string, found: Option<T>): Option<T> { if name == "" then None else found }

  /** What the names of a call stand for, if they all exist; a permission needs a class. */
  function Resolve(types: seq<TypeDatum>, classes: seq<ClassDatum>, call: RuleCall): Option<Resolved> {
    var src, tgt, cls := FindType(types, call.s), FindType(types, call.t), FindClass(classes, call.c);
    if !Exists(call.s, src) || !Exists(call.t, tgt) || !Exists(call.c, cls) then None
    else if call.p == "" then Some(Resolved(Given(call.s, src), Given(call.t, tgt), Given(call.c, cls), None))
    else if call.c == "" || FindPerm(cls.value, call.p).None? then None
    else Some(Resolved(Given(call.s, src), Given(call.t, tgt), Given(call.c, cls), FindPerm(cls.value, call.p)))
  }

  ghost function CallKeys(types: seq<TypeDatum>, classes: seq<ClassDatum>, r: Resolved, effect: nat,
                          invert: bool): (keys: set<Key>)
    ensures forall k | k in keys :: k.specified == effect
  {
    var all := StripsAv(effect, invert);
    Keys(Named(r.src, types, all), Named(r.tgt, types, all), NamedClasses(r.cls, classes), effect)
  }

  /** The word of a key after a run of calls, from its word before: the map that the table implements. */
  ghost function Replay(types: seq<TypeDatum>, classes: seq<ClassDatum>, calls: seq<RuleCall>, key: Key,
                        m: Word): Word {
    if calls == [] then m
    else
      var call, before := calls[|calls| - 1], Replay(types, classes, calls[..|calls| - 1], key, m);
      var r := Resolve(types, classes, call);
      if r.Some? && key in CallKeys(types, classes, r.value, call.effect, call.invert)
      then Revise(before, r.value.perm, call.invert) else before
  }

  /** No node of an access vector says what its absence would say. */
  ghost predicate IsTight(entries: Entries) {
    forall p | p in entries && IsAv(entries[p].key.specified) :: entries[p].data != Default(entries[p].key)
  }

  ghost predicate KeepsNonAv(before: Entries, after: Entries) {
    && (forall p | p in before && !IsAv(before[p].key.specified) :: p in after && after[p] == before[p])
    && (forall p | p in after && !IsAv(after[p].key.specified) :: p in before && before[p] == after[p])
  }

  class Policy {
    const te: Table
    const types: seq<TypeDatum>
    const classes: seq<ClassDatum>

    constructor (te: Table, types: seq<TypeDatum>, classes: seq<ClassDatum>)
      ensures this.te == te && this.types == types && this.classes == classes
    {
      this.te, this.types, this.classes := te, types, classes;
    }

    /** get_avtab_node */
    method GetNode(key: Key) returns (p: Ptr)
      requires te.Valid() && AvKeysAreUnique(te.entries) && IsAv(key.specified)
      modifies te
      ensures te.Valid() && AvKeysAreUnique(te.entries)
      ensures KeepsOther(old(te.entries), te.entries, {key})
      ensures Has(te.entries, p, key) && te.entries[p].data == WordOf(old(te.entries), key)
    {
      hide IsTable, WordOf, AvKeysAreUnique, KeepsOther;
      ghost var at;
      var found;
      found, at := te.SearchNode(key);
      KeepsAll(te.entries, {key});
      if found.Some? {
        p := found.value;
        WordOfNode(te.entries, p, key);
      } else {
        te.NotThere(key);
        WordOfNone(te.entries, key);
        p := te.InsertNonunique(key, Default(key));
        Inserted(old(te.entries), p, key);
      }
    }

    /** The end of add_rule, where the source, the target and the class are known. */
    method SetRule(key: Key, perm: Option<Perm>, invert: bool)
      requires te.Valid() && AvKeysAreUnique(te.entries) && IsAv(key.specified)
      modifies te
      ensures te.Valid() && IsRevised(old(te.entries), te.entries, {key}, perm, invert)
    {
      hide IsTable, WordOf, AvKeysAreUnique, KeepsOther, IsRevised;
      var p := GetNode(key);
      ghost var got := te.entries;
      var data := Revise(te.entries[p].data, perm, invert);
      te.Store(p, data, te.entries[p].xperms);
      if data == Default(key) {
        ghost var k := te.RemoveNode(p);
        Dropped(old(te.entries), got, te.entries, p, key, perm, invert);
      } else {
        Stored(old(te.entries), got, te.entries, p, key, perm, invert);
      }
    }

    /** add_rule: a missing source, target or class stands for all of them, except that giving access to all
        types goes through the attributes only. */
    method AddRule(src: Option<TypeDatum>, tgt: Option<TypeDatum>, cls: Option<ClassDatum>, perm: Option<Perm>,
                   effect: nat, invert: bool)
      requires te.Valid() && AvKeysAreUnique(te.entries) && IsAv(effect)
      modifies te
      ensures te.Valid()
      ensures IsRevised(old(te.entries), te.entries,
                        CallKeys(types, classes, Resolved(src, tgt, cls, perm), effect, invert), perm, invert)
      decreases if src.None? then 3 else if tgt.None? then 2 else if cls.None? then 1 else 0, 1
    {
      hide IsTable, IsRevised, Keys, Values, ClassValues, AvKeysAreUnique;
      if src.None? {
        AddRuleSources(tgt, cls, perm, effect, invert);
      } else if tgt.None? {
        AddRuleTargets(src.value, cls, perm, effect, invert);
      } else if cls.None? {
        AddRuleClasses(src.value, tgt.value, perm, effect, invert);
      } else {
        var key := Key(src.value.value, tgt.value.value, cls.value.value, effect);
        SetRule(key, perm, invert);
        OneKey(key);
      }
    }

    method AddRuleSources(tgt: Option<TypeDatum>, cls: Option<ClassDatum>, perm: Option<Perm>, effect: nat,
                          invert: bool)
      requires te.Valid() && AvKeysAreUnique(te.entries) && IsAv(effect)
      modifies te
      ensures te.Valid()
      ensures IsRevised(old(te.entries), te.entries,
                        CallKeys(types, classes, Resolved(None, tgt, cls, perm), effect, invert), perm, invert)
      decreases 3, 0
    {
      hide IsTable, IsRevised, Keys, Values, AvKeysAreUnique;
      var all := StripsAv(effect, invert);
      ghost var ts, cs := Named(tgt, types, all), NamedClasses(cls, classes);
      NoValues(all);
      NoKeys({}, ts, cs, effect);
      RevisedNothing(te.entries, perm, invert);
      for i := 0 to |types|
        invariant te.Valid() && AvKeysAreUnique(te.entries)
        invariant IsRevised(old(te.entries), te.entries, Keys(Values(types[..i], all), ts, cs, effect), perm, invert)
      {
        ghost var so, done := te.entries, Values(types[..i], all);
        ValuesNext(types, all, i);
        if all || types[i].isAttribute {
          AddRule(Some(types[i]), tgt, cls, perm, effect, invert);
          ghost var v := {types[i].value};
          RevisedAlso(old(te.entries), so, te.entries, Keys(done, ts, cs, effect), Keys(v, ts, cs, effect), effect,
                      perm, invert);
          KeysUnion(done, v, ts, cs, effect);
        }
      }
      assert types[..|types|] == types;
    }

    method AddRuleTargets(src: TypeDatum, cls: Option<ClassDatum>, perm: Option<Perm>, effect: nat, invert: bool)
      requires te.Valid() && AvKeysAreUnique(te.entries) && IsAv(effect)
      modifies te
      ensures te.Valid()
      ensures IsRevised(old(te.entries), te.entries,
                        CallKeys(types, classes, Resolved(Some(src), None, cls, perm), effect, invert), perm, invert)
      decreases 2, 0
    {
      hide IsTable, IsRevised, Keys, Values, AvKeysAreUnique;
      var all := StripsAv(effect, invert);
      ghost var ss, cs := {src.value}, NamedClasses(cls, classes);
      NoValues(all);
      NoKeys(ss, {}, cs, effect);
      RevisedNothing(te.entries, perm, invert);
      for i := 0 to |types|
        invariant te.Valid() && AvKeysAreUnique(te.entries)
        invariant IsRevised(old(te.entries), te.entries, Keys(ss, Values(types[..i], all), cs, effect), perm, invert)
      {
        ghost var so, done := te.entries, Values(types[..i], all);
        ValuesNext(types, all, i);
        if all || types[i].isAttribute {
          AddRule(Some(src), Some(types[i]), cls, perm, effect, invert);
          ghost var v := {types[i].value};
          RevisedAlso(old(te.entries), so, te.entries, Keys(ss, done, cs, effect), Keys(ss, v, cs, effect), effect,
                      perm, invert);
          KeysUnion(done, v, ss, cs, effect);
        }
      }
      assert types[..|types|] == types;
    }

    method AddRuleClasses(src: TypeDatum, tgt: TypeDatum, perm: Option<Perm>, effect: nat, invert: bool)
      requires te.Valid() && AvKeysAreUnique(te.entries) && IsAv(effect)
      modifies te
      ensures te.Valid()
      ensures IsRevised(old(te.entries), te.entries,
                        CallKeys(types, classes, Resolved(Some(src), Some(tgt), None, perm), effect, invert), perm,
                        invert)
      decreases 1, 0
    {
      hide IsTable, IsRevised, Keys, ClassValues, AvKeysAreUnique;
      ghost var ss, ts := {src.value}, {tgt.value};
      NoClassValues();
      NoKeys(ss, ts, {}, effect);
      RevisedNothing(te.entries, perm, invert);
      for i := 0 to |classes|
        invariant te.Valid() && AvKeysAreUnique(te.entries)
        invariant IsRevised(old(te.entries), te.entries, Keys(ss, ts, ClassValues(classes[..i]), effect), perm, invert)
      {
        ghost var so, done := te.entries, ClassValues(classes[..i]);
        ClassValuesNext(classes, i);
        AddRule(Some(src), Some(tgt), Some(classes[i]), perm, effect, invert);
        ghost var v := {classes[i].value};
        RevisedAlso(old(te.entries), so, te.entries, Keys(ss, ts, done, effect), Keys(ss, ts, v, effect), effect,
                    perm, invert);
        KeysUnion(done, v, ss, ts, effect);
      }
      assert classes[..|classes|] == classes;
    }

    /** add_rule, by names: nothing happens if one of them does not exist. */
    method AddNamedRule(call: RuleCall) returns (ok: bool)
      requires te.Valid() && AvKeysAreUnique(te.entries) && IsAv(call.effect)
      modifies te
      ensures te.Valid() && ok == Resolve(types, classes, call).Some?
      ensures !ok ==> te.entries == old(te.entries)
      ensures ok ==> var r := Resolve(types, classes, call).value;
                     IsRevised(old(te.entries), te.entries, CallKeys(types, classes, r, call.effect, call.invert),
                               r.perm, call.invert)
    {
      hide IsTable, IsRevised, CallKeys, FindType, FindClass, AvKeysAreUnique;
      ok := false;
      var src, tgt, cls, perm := None, None, None, None;
      if call.s != "" {
        src := FindType(types, call.s);
        if src.None? { return; }
      }
      if call.t != "" {
        tgt := FindType(types, call.t);
        if tgt.None? { return; }
      }
      if call.c != "" {
        cls := FindClass(classes, call.c);
        if cls.None? { return; }
      }
      if call.p != "" {
        if call.c == "" { return; }
        perm := FindPerm(cls.value, call.p);
        if perm.None? { return; }
      }
      AddRule(src, tgt, cls, perm, call.effect, call.invert);
      ok := true;
    }

    /** A run of calls does to every word what the replay says, and keeps the table unique and tight. */
    method AddRules(calls: seq<RuleCall>)
      requires te.Valid() && AvKeysAreUnique(te.entries)
      requires forall i | 0 <= i < |calls| :: IsAv(calls[i].effect)
      modifies te
      ensures te.Valid() && AvKeysAreUnique(te.entries)
      ensures IsTight(old(te.entries)) ==> IsTight(te.entries)
      ensures KeepsNonAv(old(te.entries), te.entries)
      ensures forall key: Key | IsAv(key.specified) ::
                WordOf(te.entries, key) == Replay(types, classes, calls, key, WordOf(old(te.entries), key))
    {
      hide IsTable, IsRevised, CallKeys, Resolve, WordOf, AvKeysAreUnique, IsTight, KeepsNonAv;
      NoCalls(te.entries);
      for i := 0 to |calls|
        invariant te.Valid() && AvKeysAreUnique(te.entries)
        invariant IsTight(old(te.entries)) ==> IsTight(te.entries)
        invariant KeepsNonAv(old(te.entries), te.entries)
        invariant forall key: Key | IsAv(key.specified) ::
                    WordOf(te.entries, key) == Replay(types, classes, calls[..i], key, WordOf(old(te.entries), key))
      {
        ghost var so, call := te.entries, calls[i];
        var ok := AddNamedRule(calls[i]);
        assert calls[..i + 1][..i] == calls[..i];
        if ok {
          ghost var r := Resolve(types, classes, call).value;
          OneCall(old(te.entries), so, te.entries, CallKeys(types, classes, r, call.effect, call.invert), call.effect,
                  r.perm, call.invert);
        }
      }
      assert calls[..|calls|] == calls;
    }
  }

  lemma NoCalls(entries: Entries)
    ensures KeepsNonAv(entries, entries)
  {
  }

  lemma OneCall(first: Entries, before: Entries, after: Entries, keys: set<Key>, effect: nat, perm: Option<Perm>,
                invert: bool)
    requires AvKeysAreUnique(before) && IsAv(effect) && forall k | k in keys :: k.specified == effect
    requires IsRevised(before, after, keys, perm, invert)
    ensures AvKeysAreUnique(after) && (IsTight(before) ==> IsTight(after))
    ensures KeepsNonAv(first, before) ==> KeepsNonAv(first, after)
    ensures forall key: Key | IsAv(key.specified) ::
              WordOf(after, key) == if key in keys then Revise(WordOf(before, key), perm, invert)
                                    else WordOf(before, key)
  {
    hide WordOf, AvKeysAreUnique;
    forall key: Key | IsAv(key.specified) && key !in keys ensures WordOf(after, key) == WordOf(before, key) {
      WordOfOther(before, after, keys, key);
    }
  }

  lemma OneKey(key: Key)
    ensures Keys({key.source}, {key.target}, {key.cls}, key.specified) == {key}
  {
  }

  lemma {:induction false} NoValues(all: bool)
    ensures Values([], all) == {}
  {
  }

  lemma NoClassValues()
    ensures ClassValues([]) == {}
  {
  }

  lemma RevisedAlso(a: Entries, b: Entries, c: Entries, ks: set<Key>, ls: set<Key>, effect: nat, perm: Option<Perm>,
                    invert: bool)
    requires AvKeysAreUnique(a) && IsAv(effect)
    requires forall k | k in ks || k in ls :: k.specified == effect
    requires IsRevised(a, b, ks, perm, invert) && IsRevised(b, c, ls, perm, invert)
    ensures IsRevised(a, c, ks + ls, perm, invert) && AvKeysAreUnique(c)
  {
    RevisedTwice(a, b, c, ks, ls, perm, invert);
  }

  lemma KeepsAll(entries: Entries, keys: set<Key>)
    ensures KeepsOther(entries, entries, keys)
  {
  }

  lemma Inserted(entries: Entries, p: Ptr, key: Key)
    requires AvKeysAreUnique(entries) && p !in entries && forall q | q in entries :: entries[q].key != key
    ensures var after := entries[p := Entry(key, Default(key), None)];
            AvKeysAreUnique(after) && KeepsOther(entries, after, {key})
  {
    var after := entries[p := Entry(key, Default(key), None)];
    forall a: Ptr, b: Ptr, k: Key | IsAv(k.specified) && Has(after, a, k) && Has(after, b, k) ensures a == b {
      if k != key {
        assert Has(entries, a, k) && Has(entries, b, k);
      }
    }
  }

  lemma Stored(before: Entries, got: Entries, after: Entries, p: Ptr, key: Key, perm: Option<Perm>, invert: bool)
    requires AvKeysAreUnique(got) && KeepsOther(before, got, {key}) && IsAv(key.specified)
    requires Has(got, p, key) && got[p].data == WordOf(before, key)
    requires after == got[p := Entry(key, Revise(got[p].data, perm, invert), got[p].xperms)]
    requires after[p].data != Default(key)
    ensures IsRevised(before, after, {key}, perm, invert)
  {
    hide WordOf;
    forall a: Ptr, b: Ptr, k: Key | IsAv(k.specified) && Has(after, a, k) && Has(after, b, k) ensures a == b {
      assert Has(got, a, k) && Has(got, b, k);
    }
    forall q | q in after && after[q].key == key ensures q == p {
      assert Has(got, q, key);
    }
    WordOfNode(after, p, key);
  }

  lemma Dropped(before: Entries, got: Entries, after: Entries, p: Ptr, key: Key, perm: Option<Perm>, invert: bool)
    requires AvKeysAreUnique(got) && KeepsOther(before, got, {key}) && IsAv(key.specified)
    requires Has(got, p, key) && Revise(WordOf(before, key), perm, invert) == Default(key)
    requires forall q :: q in after <==> q in got && q != p
    requires forall q | q in after :: after[q] == got[q]
    ensures IsRevised(before, after, {key}, perm, invert)
  {
    hide WordOf;
    forall a: Ptr, b: Ptr, k: Key | IsAv(k.specified) && Has(after, a, k) && Has(after, b, k) ensures a == b {
      assert Has(got, a, k) && Has(got, b, k);
    }
    forall q | q in after ensures after[q].key != key {
      assert Has(got, q, got[q].key);
    }
    WordOfNone(after, key);
  }

  lemma WordOfNone(entries: Entries, key: Key)
    requires forall p | p in entries :: entries[p].key != key
    ensures WordOf(entries, key) == Default(key)
  {
  }

  // ---- effective access ----

  /** The attributes each type carries, by value. */
  type Attributes = nat -> set<nat>

  ghost function Reach(attrs: Attributes, t: nat): set<nat> { {t} + attrs(t) }

  /** Whether a word gives the permission; a dontaudit rule gives it by a bit that is off. */
  predicate Gives(key: Key, m: Word, v: Perm) { if key.specified == AVTAB_AUDITDENY then v !in m else v in m }

  ghost predicate IsOn(entries: Entries, key: Key, v: Perm) { Gives(key, WordOf(entries, key), v) }

  /** Some rule for the types, or for attributes they carry, gives the permission. */
  ghost predicate IsGranted(entries: Entries, attrs: Attributes, s: nat, t: nat, c: nat, effect: nat, v: Perm) {
    exists a, b :: a in Reach(attrs, s) && b in Reach(attrs, t) && IsOn(entries, Key(a, b, c, effect), v)
  }

  predicate Covers(perm: Option<Perm>, v: Perm) { perm.None? || perm.value == v }

  lemma OneKeyOn(before: Entries, after: Entries, keys: set<Key>, key: Key, perm: Option<Perm>, invert: bool, v: Perm)
    requires AvKeysAreUnique(before) && IsRevised(before, after, keys, perm, invert) && IsAv(key.specified)
    ensures IsOn(after, key, v) <==>
            if key in keys && Covers(perm, v) then !StripsAv(key.specified, invert) else IsOn(before, key, v)
  {
    hide WordOf, AvKeysAreUnique;
    if key !in keys {
      WordOfOther(before, after, keys, key);
    } else {
      assert v in ALL_PERMS;
    }
  }

  /** A call that gives access gives it to exactly the types that reach a source and a target it goes through. */
  lemma GivenAccess(before: Entries, after: Entries, ss: set<nat>, ts: set<nat>, cs: set<nat>, effect: nat,
                    perm: Option<Perm>, invert: bool, attrs: Attributes, s: nat, t: nat, c: nat, v: Perm)
    requires AvKeysAreUnique(before) && IsAv(effect) && !StripsAv(effect, invert)
    requires IsRevised(before, after, Keys(ss, ts, cs, effect), perm, invert)
    ensures IsGranted(after, attrs, s, t, c, effect, v) <==>
            || IsGranted(before, attrs, s, t, c, effect, v)
            || (Covers(perm, v) && c in cs && !(Reach(attrs, s) !! ss) && !(Reach(attrs, t) !! ts))
  {
    hide WordOf, AvKeysAreUnique, IsOn, IsRevised;
    var keys := Keys(ss, ts, cs, effect);
    forall a, b ensures IsOn(after, Key(a, b, c, effect), v) <==>
                        || IsOn(before, Key(a, b, c, effect), v)
                        || (Covers(perm, v) && a in ss && b in ts && c in cs)
    {
      OneKeyOn(before, after, keys, Key(a, b, c, effect), perm, invert, v);
    }
    if Covers(perm, v) && c in cs && !(Reach(attrs, s) !! ss) && !(Reach(attrs, t) !! ts) {
      var a :| a in Reach(attrs, s) && a in ss;
      var b :| b in Reach(attrs, t) && b in ts;
      assert IsOn(after, Key(a, b, c, effect), v);
    }
  }

  /** A call that takes access away leaves exactly what is given by rules it does not go through. */
  lemma TakenAccess(before: Entries, after: Entries, ss: set<nat>, ts: set<nat>, cs: set<nat>, effect: nat,
                    perm: Option<Perm>, invert: bool, attrs: Attributes, s: nat, t: nat, c: nat, v: Perm)
    requires AvKeysAreUnique(before) && IsAv(effect) && StripsAv(effect, invert)
    requires IsRevised(before, after, Keys(ss, ts, cs, effect), perm, invert)
    ensures IsGranted(after, attrs, s, t, c, effect, v) <==>
            exists a, b :: a in Reach(attrs, s) && b in Reach(attrs, t) && IsOn(before, Key(a, b, c, effect), v)
                           && !(Covers(perm, v) && a in ss && b in ts && c in cs)
  {
    hide WordOf, AvKeysAreUnique, IsOn, IsRevised;
    var keys := Keys(ss, ts, cs, effect);
    forall a, b ensures IsOn(after, Key(a, b, c, effect), v) <==>
                        && IsOn(before, Key(a, b, c, effect), v)
                        && !(Covers(perm, v) && a in ss && b in ts && c in cs)
    {
      OneKeyOn(before, after, keys, Key(a, b, c, effect), perm, invert, v);
    }
  }

  /** A table with no nodes gives nothing, of any kind. */
  lemma NoNodesGiveNothing(attrs: Attributes, s: nat, t: nat, c: nat, effect: nat, v: Perm)
    ensures !IsGranted(map[], attrs, s, t, c, effect, v)
  {
    forall key ensures !IsOn(map[], key, v) {
      WordOfNone(map[], key);
      assert v in ALL_PERMS;
    }
  }

  /** The types a wildcard goes through. */
  lemma {:induction false} ValuesHas(types: seq<TypeDatum>, all: bool, v: nat)
    ensures v in Values(types, all) <==>
            exists i :: 0 <= i < |types| && types[i].value == v && (all || types[i].isAttribute)
  {
    if types != [] {
      var n := |types| - 1;
      ValuesHas(types[..n], all, v);
      assert forall i | 0 <= i < n :: types[..n][i] == types[i];
    }
  }

  predicate CarriesAttribute(types: seq<TypeDatum>, attrs: Attributes, t: nat) {
    !({t} + attrs(t) !! Values(types, false))
  }

  /** Going through the attributes only, instead of all types, gives two types the access exactly when both carry
      an attribute or they had it before; going through all types would give it to every pair. */
  lemma {:induction false} WildcardOverAttributes(types: seq<TypeDatum>, before: Entries, after: Entries,
                                                  ideal: Entries, cs: set<nat>, effect: nat, perm: Option<Perm>,
                                                  invert: bool, attrs: Attributes, s: nat, t: nat, c: nat, v: Perm)
    requires AvKeysAreUnique(before) && IsAv(effect) && !StripsAv(effect, invert)
    requires IsRevised(before, after, Keys(Values(types, false), Values(types, false), cs, effect), perm, invert)
    requires IsRevised(before, ideal, Keys(Values(types, true), Values(types, true), cs, effect), perm, invert)
    requires s in Values(types, true) && t in Values(types, true) && c in cs && Covers(perm, v)
    ensures IsGranted(ideal, attrs, s, t, c, effect, v)
    ensures IsGranted(after, attrs, s, t, c, effect, v) <==>
            || IsGranted(before, attrs, s, t, c, effect, v)
            || (CarriesAttribute(types, attrs, s) && CarriesAttribute(types, attrs, t))
  {
    hide IsGranted, IsRevised, AvKeysAreUnique, Values;
    var some, all := Values(types, false), Values(types, true);
    GivenAccess(before, after, some, some, cs, effect, perm, invert, attrs, s, t, c, v);
    GivenAccess(before, ideal, all, all, cs, effect, perm, invert, attrs, s, t, c, v);
    assert s in Reach(attrs, s) && t in Reach(attrs, t);
  }

  /** Taking a permission away from everything leaves no pair of types with it. */
  lemma {:induction false} WildcardTakesAll(types: seq<TypeDatum>, before: Entries, after: Entries, cs: set<nat>,
                                            effect: nat, perm: Option<Perm>, invert: bool, attrs: Attributes, s: nat,
                                            t: nat, c: nat, v: Perm)
    requires AvKeysAreUnique(before) && IsAv(effect) && StripsAv(effect, invert)
    requires IsRevised(before, after, Keys(Values(types, true), Values(types, true), cs, effect), perm, invert)
    requires Reach(attrs, s) <= Values(types, true) && Reach(attrs, t) <= Values(types, true)
    requires c in cs && Covers(perm, v)
    ensures !IsGranted(after, attrs, s, t, c, effect, v)
  {
    hide IsRevised, AvKeysAreUnique, Values, IsOn;
    TakenAccess(before, after, Values(types, true), Values(types, true), cs, effect, perm, invert, attrs, s, t, c, v);
  }
}
