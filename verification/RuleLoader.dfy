/**
  From the text of access rules to the policy table (native/src/sepolicy/statement.rs, native/src/sepolicy/api.cpp).
 */
module RuleLoader {
  import opened Wrappers
  import opened AvTab
  import opened StatementLexer
  import opened StatementParser
  import opened PolicyRules
  import opened PolicyXperms
  import opened PolicyApi
  import opened XpermApi
  import Grammar = StatementGrammar

  // ---- what a call means for one permission, and for the ioctls of one key ----

  predicate IsAccessCall(call: Call) {
    (call.Rule? && IsRule(call.action)) || (call.XpermRule? && IsXpermAction(call.action))
  }

  ghost predicate OnAfterCall(policy: Policy, call: Call, key: Key, v: Perm, before: bool) {
    if call.Rule? && IsRule(call.action) && Asks(policy.types, policy.classes, call, key, v) then call.action != DN
    else before
  }

  ghost function IoctlsAfterCall(policy: Policy, policyvers: nat, call: Call, key: Key, before: set<nat>): set<nat> {
    if call.XpermRule? && IsXpermAction(call.action) && policyvers >= POLICYDB_VERSION_XPERMS_IOCTL
       && key in AskedKeys(policy, call)
    then ApplyAll(before, call.xperms)
    else before
  }

  /** The table keeps its shape: one node for each access vector key, and one for each place of the others. */
  ghost predicate IsWellKept(entries: Entries) { AvKeysAreUnique(entries) && IoctlsAreUnique(entries) }

  ghost predicate IsCalled(before: Entries, after: Entries, policy: Policy, policyvers: nat, call: Call) {
    && (forall key: Key, v: Perm | IsAv(key.specified) ::
          IsOn(after, key, v) <==> OnAfterCall(policy, call, key, v, IsOn(before, key, v)))
    && (forall key: Key | IsXperm(key.specified) ::
          Ioctls(after, key) == IoctlsAfterCall(policy, policyvers, call, key, Ioctls(before, key)))
  }

  // ---- the two kinds of rules do not disturb each other ----

  lemma AccessKeepsIoctls(before: Entries, after: Entries, key: Key)
    requires KeepsNonAv(before, after) && IsXperm(key.specified)
    ensures Ioctls(after, key) == Ioctls(before, key) && (AreIoctls(before, key) ==> AreIoctls(after, key))
  {
    hide ALL_IOCTLS, Denotes, Place;
    assert forall p :: Has(after, p, key) ==> Has(before, p, key) && before[p] == after[p];
    assert forall p :: Has(before, p, key) ==> Has(after, p, key) && before[p] == after[p];
  }

  lemma {:induction false} ReachedAreXperms(policy: Policy, ts: seq<seq<Arg>>, effect: nat, key: Key)
    requires key in ReachedKeys(policy, ts, effect)
    ensures key.specified == effect
  {
    hide Named, NamedClasses, Resolve;
    if ts != [] && key in ReachedKeys(policy, ts[..|ts| - 1], effect) {
      ReachedAreXperms(policy, ts[..|ts| - 1], effect, key);
    }
  }

  lemma XpermsKeepAccess(before: Entries, after: Entries, keys: set<Key>)
    requires AvKeysAreUnique(before) && KeepsOther(before, after, keys) && forall k | k in keys :: !IsAv(k.specified)
    ensures AvKeysAreUnique(after)
    ensures forall key: Key | IsAv(key.specified) :: WordOf(after, key) == WordOf(before, key)
    ensures IsTight(before) ==> IsTight(after)
  {
    hide WordOf, Default;
    forall p: Ptr, q: Ptr, key: Key | IsAv(key.specified) && Has(after, p, key) && Has(after, q, key) ensures p == q {
      assert Has(before, p, key) && Has(before, q, key);
    }
    forall key: Key | IsAv(key.specified) ensures WordOf(after, key) == WordOf(before, key) {
      WordOfOther(before, after, keys, key);
    }
  }

  // ---- calls ----

  method PerformAccess(policy: Policy, policyvers: nat, call: Call)
    requires policy.te.Valid() && IsWellKept(policy.te.entries) && call.Rule? && IsRule(call.action)
    modifies policy.te
    ensures policy.te.Valid() && IsWellKept(policy.te.entries)
    ensures IsTight(old(policy.te.entries)) ==> IsTight(policy.te.entries)
    ensures IsCalled(old(policy.te.entries), policy.te.entries, policy, policyvers, call)
  {
    hide IsTable, AvKeysAreUnique, Asks, IsTight, KeepsNonAv, IsOn, Ioctls, AreIoctls;
    ghost var before := policy.te.entries;
    PerformRule(policy, call);
    forall key: Key | IsXperm(key.specified)
      ensures Ioctls(policy.te.entries, key) == Ioctls(before, key) && AreIoctls(policy.te.entries, key)
    {
      AccessKeepsIoctls(before, policy.te.entries, key);
    }
  }

  method PerformExtended(policy: Policy, policyvers: nat, call: Call)
    requires policy.te.Valid() && IsWellKept(policy.te.entries) && call.XpermRule? && IsXpermAction(call.action)
    modifies policy.te
    ensures policy.te.Valid() && IsWellKept(policy.te.entries)
    ensures IsTight(old(policy.te.entries)) ==> IsTight(policy.te.entries)
    ensures IsCalled(old(policy.te.entries), policy.te.entries, policy, policyvers, call)
  {
    hide IsTable, AvKeysAreUnique, IsTight, KeepsOther, Ioctls, IoctlsAreUnique, ApplyAll, ReachedKeys, WordOf, Product;
    ghost var before := policy.te.entries;
    PerformXperm(policy, policyvers, call);
    forall key | key in AskedKeys(policy, call) ensures !IsAv(key.specified) {
      ReachedAreXperms(policy, Product(NameLists(call), []), XpermEffect(call.action), key);
    }
    XpermsKeepAccess(before, policy.te.entries, AskedKeys(policy, call));
  }

  // ---- statements ----

  /** The call that a line makes, if it makes one. */
  function CallOf(line: string): Option<Call> {
    if !Grammar.IsSkipped(line) && Exec(Tokens(line)).Ok? then Some(Exec(Tokens(line)).value) else None
  }

  ghost predicate OnAfter(policy: Policy, lines: seq<string>, key: Key, v: Perm, before: bool) {
    if lines == [] then before
    else
      var so, call := OnAfter(policy, lines[..|lines| - 1], key, v, before), CallOf(lines[|lines| - 1]);
      if call.Some? then OnAfterCall(policy, call.value, key, v, so) else so
  }

  ghost function IoctlsAfter(policy: Policy, policyvers: nat, lines: seq<string>, key: Key, before: set<nat>)
    : set<nat>
  {
    if lines == [] then before
    else
      var so := IoctlsAfter(policy, policyvers, lines[..|lines| - 1], key, before);
      var call := CallOf(lines[|lines| - 1]);
      if call.Some? then IoctlsAfterCall(policy, policyvers, call.value, key, so) else so
  }

  /** Rules of the two kinds come from the parser with their actions. */
  lemma RulesHaveActions(line: string)
    ensures var call := CallOf(line);
            call.Some? && (call.value.Rule? || call.value.XpermRule?) ==> IsAccessCall(call.value)
  {
    var call := CallOf(line);
    if call.Some? {
      hide Exec;
      Grammar.ParserDecidesGrammar(Tokens(line), call.value);
      var x :| Grammar.IsSentence(x) && Grammar.Render(x) == Tokens(line) && Grammar.Meaning(x) == call.value;
    }
  }

  /** parse_statement, down to the table. A call that is no access rule is returned and not performed. */
  method RunStatement(policy: Policy, policyvers: nat, line: string) returns (r: Option<Result<Call, ParseError>>)
    requires policy.te.Valid() && IsWellKept(policy.te.entries)
    modifies policy.te
    ensures policy.te.Valid() && IsWellKept(policy.te.entries)
    ensures IsTight(old(policy.te.entries)) ==> IsTight(policy.te.entries)
    ensures r.None? <==> Grammar.IsSkipped(line)
    ensures CallOf(line).Some? <==> r.Some? && r.value.Ok?
    ensures CallOf(line).Some? ==> r == Some(Ok(CallOf(line).value))
    ensures CallOf(line).None? || !IsAccessCall(CallOf(line).value) ==> policy.te.entries == old(policy.te.entries)
    ensures CallOf(line).Some? ==>
              IsCalled(old(policy.te.entries), policy.te.entries, policy, policyvers, CallOf(line).value)
  {
    hide IsTable, IsWellKept, IsTight, Exec, Tokens, Grammar.IsSkipped;
    r := Grammar.ParseStatement(line);
    RulesHaveActions(line);
    if r.Some? && r.value.Ok? {
      var call := r.value.value;
      hide IsCalled;
      NothingCalled(policy.te.entries, policy, policyvers, call);
      if call.Rule? {
        PerformAccess(policy, policyvers, call);
      } else if call.XpermRule? {
        PerformExtended(policy, policyvers, call);
      }
    }
  }

  lemma NothingCalled(entries: Entries, policy: Policy, policyvers: nat, call: Call)
    ensures !IsAccessCall(call) ==> IsCalled(entries, entries, policy, policyvers, call)
  {
  }

  ghost predicate IsLoaded(before: Entries, after: Entries, policy: Policy, policyvers: nat, lines: seq<string>) {
    && (forall key: Key, v: Perm | IsAv(key.specified) ::
          IsOn(after, key, v) <==> OnAfter(policy, lines, key, v, IsOn(before, key, v)))
    && (forall key: Key | IsXperm(key.specified) ::
          Ioctls(after, key) == IoctlsAfter(policy, policyvers, lines, key, Ioctls(before, key)))
  }

  lemma LoadedNothing(entries: Entries, policy: Policy, policyvers: nat)
    ensures IsLoaded(entries, entries, policy, policyvers, [])
  {
  }

  lemma LoadedNext(before: Entries, so: Entries, after: Entries, policy: Policy, policyvers: nat, lines: seq<string>,
                   i: nat)
    requires i < |lines| && IsLoaded(before, so, policy, policyvers, lines[..i])
    requires if CallOf(lines[i]).Some? then IsCalled(so, after, policy, policyvers, CallOf(lines[i]).value)
             else after == so
    ensures IsLoaded(before, after, policy, policyvers, lines[..i + 1])
  {
    hide IsOn, Ioctls, OnAfterCall, IoctlsAfterCall, CallOf;
    assert lines[..i + 1][..i] == lines[..i];
  }

  /** Any access rules, one in a line, with comments and errors between them: each permission and each set of ioctls is
      what the lines, taken in order, make of it. */
  method LoadRules(policy: Policy, policyvers: nat, lines: seq<string>)
    requires policy.te.Valid() && IsWellKept(policy.te.entries)
    requires forall i | 0 <= i < |lines| && CallOf(lines[i]).Some? :: IsAccessCall(CallOf(lines[i]).value)
    modifies policy.te
    ensures policy.te.Valid() && IsWellKept(policy.te.entries)
    ensures IsTight(old(policy.te.entries)) ==> IsTight(policy.te.entries)
    ensures IsLoaded(old(policy.te.entries), policy.te.entries, policy, policyvers, lines)
  {
    hide IsTable, IsWellKept, IsTight, IsLoaded, IsCalled, CallOf, Grammar.IsSkipped;
    ghost var before := policy.te.entries;
    LoadedNothing(before, policy, policyvers);
    assert lines[..0] == [];
    for i := 0 to |lines|
      invariant policy.te.Valid() && IsWellKept(policy.te.entries) && (IsTight(before) ==> IsTight(policy.te.entries))
      invariant IsLoaded(before, policy.te.entries, policy, policyvers, lines[..i])
    {
      ghost var so := policy.te.entries;
      var _ := RunStatement(policy, policyvers, lines[i]);
      LoadedNext(before, so, policy.te.entries, policy, policyvers, lines, i);
    }
    assert lines[..|lines|] == lines;
  }

  /** One line with one name in each place changes one permission of one key. */
  lemma {:induction false} OneLine(policy: Policy, line: string, action: Token, s: TypeDatum, t: TypeDatum,
                                   c: ClassDatum, p: string, v: Perm, key: Key, before: bool)
    requires IsRule(action) && s.name != "" && t.name != "" && c.name != "" && p != ""
    requires Tokens(line) == [action, ID(s.name), ID(t.name), ID(c.name), ID(p)]
    requires FindType(policy.types, s.name) == Some(s) && FindType(policy.types, t.name) == Some(t)
    requires FindClass(policy.classes, c.name) == Some(c) && FindPerm(c, p).Some?
    ensures var on := OnAfter(policy, [line], key, v, before);
            on <==> if v == FindPerm(c, p).value && key == Key(s.value, t.value, c.value, Effect(action))
                    then action != DN else before
  {
    hide FindType, FindClass, FindPerm, Exec, Tokens, Asks;
    var x := Grammar.Access(action, Grammar.One(s.name), Grammar.One(t.name), Grammar.One(c.name), Grammar.One(p));
    assert Grammar.Render(x) == Tokens(line);
    Grammar.SentencesAreAccepted(x);
    assert !Grammar.IsSkipped(line) by {
      if Grammar.IsSkipped(line) {
        Grammar.SkippedIsNoSentence(line, x);
      }
    }
    OneOfEach(policy.types, policy.classes, action, s, t, c, p, v, key);
    assert [line][..0] == [];
  }
}
