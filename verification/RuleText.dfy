/**
  Statements as they are written (native/src/sepolicy/statement.rs): the words of a line, and what the line does to the
  policy.
 */
module RuleText {
  import opened Wrappers
  import opened AvTab
  import opened StatementLexer
  import opened StatementParser
  import opened PolicyRules
  import opened PolicyXperms
  import opened PolicyApi
  import opened XpermApi
  import opened RuleLoader
  import Grammar = StatementGrammar

  // ---- words ----

  /** A name of printable characters that cannot be taken for anything else. */
  predicate IsPlainName(s: string) {
    && s != "" && s[0] != '~' && !("0x" <= s)
    && (forall i | 0 <= i < |s| :: '!' <= s[i] <= '~' && s[i] !in {'{', '}', ',', '-'})
    && s !in {"allow", "deny", "auditallow", "dontaudit", "allowxperm", "auditallowxperm", "dontauditxperm",
              "permissive", "enforce", "typeattribute", "type", "attribute", "type_transition", "type_change",
              "type_member", "genfscon", "*"}
  }

  lemma NameToken(s: string)
    requires IsPlainName(s)
    ensures Tokens(s) == [ID(s)]
  {
    hide WordTokens, Scan;
    assert Keyword(s).None?;
    PlainWord(s);
    WordCases(s);
  }

  lemma KeywordToken(s: string)
    requires Keyword(s).Some?
    ensures Tokens(s) == [Keyword(s).value]
  {
    hide Keyword, Scan;
    KeywordIsPlain(s);
    PlainWord(s);
    KeywordTokens(s);
  }

  lemma SpaceSeparates(a: string, b: string)
    ensures Tokens(a + " " + b) == Tokens(a) + Tokens(b)
  {
    ScanCut("", a, ' ', b);
  }

  /** The characters of the Unicode property White_Space. */
  const WHITE_SPACE: set<int> := {
    0x9, 0xA, 0xB, 0xC, 0xD, 0x20, 0x85, 0xA0, 0x1680, 0x2000, 0x2001, 0x2002, 0x2003, 0x2004, 0x2005, 0x2006, 0x2007,
    0x2008, 0x2009, 0x200A, 0x2028, 0x2029, 0x202F, 0x205F, 0x3000}

  /** White space before or behind a line does not matter. */
  lemma SpaceAround(line: string, c: char)
    requires c as int in WHITE_SPACE
    ensures CallOf([c] + line) == CallOf(line) == CallOf(line + [c])
  {
    hide Exec, Scan;
    ScanCut("", "", c, line);
    ScanCut("", line, c, "");
    NothingToScan();
    assert "" + [c] + line == [c] + line && line + [c] + "" == line + [c];
    assert Tokens([c] + line) == [] + Tokens(line) == Tokens(line);
    assert Tokens(line + [c]) == Tokens(line) + [] == Tokens(line);
    SkippedAround(line, c);
  }

  /** Any other character that is no symbol makes a word. */
  lemma OthersAreWords(c: char)
    requires c as int !in WHITE_SPACE && c !in {'{', '}', ',', '-', '~', '*'}
    ensures Tokens([c]) == [ID([c])]
  {
    hide WordTokens, Scan;
    assert IsPlain([c]);
    assert Keyword([c]).None? && !("0x" <= [c]);
    PlainWord([c]);
    WordCases([c]);
  }

  lemma {:induction false} SkippedAround(line: string, c: char)
    requires IsSpace(c)
    ensures Grammar.IsSkipped([c] + line) <==> Grammar.IsSkipped(line)
    ensures Grammar.IsSkipped(line + [c]) <==> Grammar.IsSkipped(line)
  {
    assert ([c] + line)[1..] == line;
    if line != "" {
      assert (line + [c])[1..] == line[1..] + [c];
      SkippedAround(line[1..], c);
    } else {
      assert line + [c] == [c] && [c][1..] == "";
    }
  }

  /** Comments and empty lines make no call. */
  lemma CommentLine(s: string)
    ensures CallOf("#" + s) == None && CallOf("") == None
  {
    hide Exec, Tokens;
    assert !IsSpace('#');
  }

  lemma {:induction false} ScanDelimiter(word: string, a: string, d: char, b: string)
    requires IsDelimiter(d)
    ensures Scan(word, a + [d] + b) == Scan(word, a) + [Delimiter(d)] + Tokens(b)
    decreases |a|
  {
    hide WordTokens;
    var s := a + [d] + b;
    assert !IsSpace(d);
    if a == "" {
      assert s[1..] == b;
    } else {
      assert s[1..] == a[1..] + [d] + b;
      ScanDelimiter(if IsSpace(a[0]) || IsDelimiter(a[0]) then "" else word + [a[0]], a[1..], d, b);
    }
  }

  /** Braces and a dash need no white space around them. */
  lemma Glued(a: string, b: string)
    ensures Tokens(a + "{" + b) == Tokens(a + " { " + b) == Tokens(a) + [LB] + Tokens(b)
    ensures Tokens(a + "}" + b) == Tokens(a + " } " + b) == Tokens(a) + [RB] + Tokens(b)
    ensures Tokens(a + "-" + b) == Tokens(a + " - " + b) == Tokens(a) + [HP] + Tokens(b)
  {
    Apart(a, '{', b);
    Apart(a, '}', b);
    Apart(a, '-', b);
    assert " " + ['{'] + " " == " { " && " " + ['}'] + " " == " } " && " " + ['-'] + " " == " - ";
  }

  lemma Apart(a: string, d: char, b: string)
    requires IsDelimiter(d)
    ensures Tokens(a + [d] + b) == Tokens(a + (" " + [d] + " ") + b) == Tokens(a) + [Delimiter(d)] + Tokens(b)
  {
    hide Scan;
    ScanDelimiter("", a, d, b);
    SpaceSeparates(a, [d] + " " + b);
    assert a + (" " + [d] + " ") + b == a + " " + ([d] + " " + b);
    ScanDelimiter("", "", d, " " + b);
    assert "" + [d] + (" " + b) == [d] + " " + b;
    ScanCut("", "", ' ', b);
    NothingToScan();
    assert "" + [' '] + b == " " + b;
  }

  // ---- the keywords ----

  lemma TwoTokens(k: string, a: string)
    requires Keyword(k).Some? && IsPlainName(a)
    ensures Tokens(k + " " + a) == [Keyword(k).value, ID(a)]
  {
    hide Scan, Keyword, IsPlainName;
    KeywordToken(k);
    NameToken(a);
    SpaceSeparates(k, a);
  }

  lemma NextName(line: string, a: string)
    requires IsPlainName(a)
    ensures Tokens(line + " " + a) == Tokens(line) + [ID(a)]
  {
    hide Scan, IsPlainName;
    NameToken(a);
    SpaceSeparates(line, a);
  }

  lemma MakesCall(line: string, x: Grammar.Statement)
    requires Grammar.IsSentence(x) && Tokens(line) == Grammar.Render(x)
    ensures CallOf(line) == Some(Grammar.Meaning(x))
  {
    hide Exec, Tokens;
    Grammar.SentencesAreAccepted(x);
    if Grammar.IsSkipped(line) {
      Grammar.SkippedIsNoSentence(line, x);
    }
  }

  lemma FiveTokens(k: string, s: string, t: string, c: string, p: string)
    requires Keyword(k).Some? && IsPlainName(s) && IsPlainName(t) && IsPlainName(c) && IsPlainName(p)
    ensures Tokens(k + " " + s + " " + t + " " + c + " " + p)
         == [Keyword(k).value, ID(s), ID(t), ID(c), ID(p)]
  {
    hide Scan, Keyword, IsPlainName;
    TwoTokens(k, s);
    NextName(k + " " + s, t);
    NextName(k + " " + s + " " + t, c);
    NextName(k + " " + s + " " + t + " " + c, p);
  }

  function ActionOf(k: string): Token
    requires k in {"allow", "deny", "auditallow", "dontaudit"}
  {
    if k == "allow" then AL else if k == "deny" then DN else if k == "auditallow" then AA else DA
  }

  lemma AccessLine(k: string, s: string, t: string, c: string, p: string)
    requires k in {"allow", "deny", "auditallow", "dontaudit"}
    requires IsPlainName(s) && IsPlainName(t) && IsPlainName(c) && IsPlainName(p)
    ensures CallOf(k + " " + s + " " + t + " " + c + " " + p)
         == Some(Rule(ActionOf(k), [s], [t], [c], [p]))
  {
    hide Tokens, IsPlainName, Grammar.IsSkipped, Exec;
    FiveTokens(k, s, t, c, p);
    var x := Grammar.Access(Keyword(k).value, Grammar.One(s), Grammar.One(t), Grammar.One(c), Grammar.One(p));
    MakesCall(k + " " + s + " " + t + " " + c + " " + p, x);
  }

  /** The statements about types, by their keywords. */
  lemma TypeLines(s: string, t: string, c: string, d: string, o: string)
    requires IsPlainName(s) && IsPlainName(t) && IsPlainName(c) && IsPlainName(d) && IsPlainName(o)
    ensures CallOf("type_transition " + s + " " + t + " " + c + " " + d) == Some(TypeTransition(s, t, c, d, ""))
    ensures CallOf("type_transition " + s + " " + t + " " + c + " " + d + " " + o)
         == Some(TypeTransition(s, t, c, d, o))
    ensures CallOf("type_change " + s + " " + t + " " + c + " " + d) == Some(TypeRule(TC, s, t, c, d))
    ensures CallOf("type_member " + s + " " + t + " " + c + " " + d) == Some(TypeRule(TM, s, t, c, d))
  {
    hide Tokens, IsPlainName, Keyword, CallOf;
    FourWords("type_transition", s, t, c, d);
    FourWords("type_change", s, t, c, d);
    FourWords("type_member", s, t, c, d);
    assert "type_transition" + " " == "type_transition " && "type_change" + " " == "type_change ";
    assert "type_member" + " " == "type_member ";
    NextName("type_transition " + s + " " + t + " " + c + " " + d, o);
    MakesCall("type_transition " + s + " " + t + " " + c + " " + d, Grammar.Transition(s, t, c, d, None));
    MakesCall("type_transition " + s + " " + t + " " + c + " " + d + " " + o, Grammar.Transition(s, t, c, d, Some(o)));
    MakesCall("type_change " + s + " " + t + " " + c + " " + d, Grammar.Default(TC, s, t, c, d));
    MakesCall("type_member " + s + " " + t + " " + c + " " + d, Grammar.Default(TM, s, t, c, d));
  }

  lemma FourWords(k: string, s: string, t: string, c: string, d: string)
    requires k in {"type_transition", "type_change", "type_member"}
    requires IsPlainName(s) && IsPlainName(t) && IsPlainName(c) && IsPlainName(d)
    ensures Tokens(k + " " + s + " " + t + " " + c + " " + d)
         == [if k == "type_transition" then TT else if k == "type_change" then TC else TM, ID(s), ID(t), ID(c), ID(d)]
  {
    hide Tokens, IsPlainName;
    FiveTokens(k, s, t, c, d);
  }

  lemma ShortLines(t: string, a: string)
    requires IsPlainName(t) && IsPlainName(a)
    ensures CallOf("permissive " + t) == Some(TypeState(PM, [t]))
    ensures CallOf("enforce " + t) == Some(TypeState(EF, [t]))
    ensures CallOf("attribute " + a) == Some(NewAttribute(a))
    ensures CallOf("type " + t) == Some(NewType(t, []))
    ensures CallOf("type " + t + " " + a) == Some(NewType(t, [a]))
    ensures CallOf("typeattribute " + t + " " + a) == Some(TypeAttribute([t], [a]))
  {
    hide Tokens, IsPlainName, Keyword, CallOf;
    ShortTokens(t, a);
    MakesCall("permissive " + t, Grammar.State(PM, Grammar.One(t)));
    MakesCall("enforce " + t, Grammar.State(EF, Grammar.One(t)));
    MakesCall("attribute " + a, Grammar.DeclareAttribute(a));
    MakesCall("type " + t, Grammar.Declare(t, None));
    MakesCall("type " + t + " " + a, Grammar.Declare(t, Some(Grammar.One(a))));
    MakesCall("typeattribute " + t + " " + a, Grammar.Attach(Grammar.One(t), Grammar.One(a)));
  }

  lemma ShortTokens(t: string, a: string)
    requires IsPlainName(t) && IsPlainName(a)
    ensures Tokens("permissive " + t) == [PM, ID(t)] && Tokens("enforce " + t) == [EF, ID(t)]
    ensures Tokens("attribute " + a) == [AT, ID(a)] && Tokens("type " + t) == [TY, ID(t)]
    ensures Tokens("type " + t + " " + a) == [TY, ID(t), ID(a)]
    ensures Tokens("typeattribute " + t + " " + a) == [TA, ID(t), ID(a)]
  {
    hide Tokens, IsPlainName;
    TwoTokens("permissive", t);
    TwoTokens("enforce", t);
    TwoTokens("attribute", a);
    TwoTokens("type", t);
    TwoTokens("typeattribute", t);
    assert "permissive" + " " == "permissive " && "enforce" + " " == "enforce " && "attribute" + " " == "attribute ";
    assert "type" + " " == "type " && "typeattribute" + " " == "typeattribute ";
    NextName("type " + t, a);
    NextName("typeattribute " + t, a);
  }

  lemma GenfsLine(s: string, t: string, c: string)
    requires IsPlainName(s) && IsPlainName(t) && IsPlainName(c)
    ensures CallOf("genfscon " + s + " " + t + " " + c) == Some(GenfsCon(s, t, c))
  {
    hide Tokens, IsPlainName;
    TwoTokens("genfscon", s);
    assert "genfscon" + " " == "genfscon ";
    NextName("genfscon " + s, t);
    NextName("genfscon " + s + " " + t, c);
    MakesCall("genfscon " + s + " " + t + " " + c, Grammar.Context(s, t, c));
  }

  /** A group of names, and everything. */
  lemma GroupLine(a: string, b: string, t: string, p: string)
    requires IsPlainName(a) && IsPlainName(b) && IsPlainName(t) && IsPlainName(p)
    ensures CallOf("allow {" + a + " " + b + "} " + t + " * " + p) == Some(Rule(AL, [a, b], [t], [], [p]))
  {
    hide Tokens, IsPlainName, Keyword, CallOf;
    var line := "allow {" + a + " " + b + "} " + t + " * " + p;
    GroupTokens(a, b, t, p);
    var items := [Grammar.Name(a), Grammar.Name(b)];
    TwoItems(a, b);
    var x := Grammar.Access(AL, Grammar.Group(items), Grammar.One(t), Grammar.All, Grammar.One(p));
    assert Grammar.Render(x) == Tokens(line);
    MakesCall(line, x);
  }

  lemma TwoItems(a: string, b: string)
    ensures var items := [Grammar.Name(a), Grammar.Name(b)];
            Grammar.ItemTokens(items) == [ID(a), ID(b)] && Grammar.ItemNames(items) == [a, b]
  {
    var items, last := [Grammar.Name(a), Grammar.Name(b)], [Grammar.Name(b)];
    assert items[1..] == last && last[1..] == [];
    assert Grammar.ItemTokens(last) == [ID(b)] && Grammar.ItemNames(last) == [b];
  }

  lemma GroupTokens(a: string, b: string, t: string, p: string)
    requires IsPlainName(a) && IsPlainName(b) && IsPlainName(t) && IsPlainName(p)
    ensures Tokens("allow {" + a + " " + b + "} " + t + " * " + p)
         == [AL, LB, ID(a), ID(b), RB, ID(t), ST, ID(p)]
  {
    hide Scan, IsPlainName;
    NameToken(a);
    NextName(a, b);
    NameToken(t);
    KeywordToken("allow");
    KeywordToken("*");
    var rest := t + " * " + p;
    SpaceSeparates(t, "*");
    NextName(t + " " + "*", p);
    assert t + " " + "*" + " " + p == rest;
    SpaceSeparates("", rest);
    NothingToScan();
    assert "" + " " + rest == " " + rest;
    Glued(a + " " + b, " " + rest);
    SpaceSeparates("allow", "");
    assert "allow" + " " + "" == "allow ";
    Glued("allow ", a + " " + b + "}" + (" " + rest));
    assert "allow {" + a + " " + b + "} " + t + " * " + p
        == "allow " + "{" + (a + " " + b + "}" + (" " + rest));
  }

  // ---- what a written rule does ----

  /** What of a word counts when it is looked up. */
  function Known(w: string): string { w[..if |w| <= 255 then |w| else 255] }

  lemma {:induction false} TypeFound(types: seq<TypeDatum>, w: string, d: TypeDatum)
    requires d in types && d.name == Known(w) && forall u | u in types && u.name == Known(w) :: u == d
    ensures FindType(types, w) == Some(d)
  {
    if types[0].name != Known(w) {
      TypeFound(types[1..], w, d);
    }
  }

  lemma {:induction false} ClassFound(classes: seq<ClassDatum>, w: string, d: ClassDatum)
    requires d in classes && d.name == Known(w) && forall u | u in classes && u.name == Known(w) :: u == d
    ensures FindClass(classes, w) == Some(d)
  {
    if classes[0].name != Known(w) {
      ClassFound(classes[1..], w, d);
    }
  }

  /** The type is the one, and the only one, that the word names. */
  ghost predicate Names(policy: Policy, w: string, d: TypeDatum) {
    IsPlainName(w) && d in policy.types && d.name == Known(w)
    && forall u | u in policy.types && u.name == Known(w) :: u == d
  }

  ghost predicate NamesClass(policy: Policy, w: string, d: ClassDatum) {
    IsPlainName(w) && d in policy.classes && d.name == Known(w)
    && forall u | u in policy.classes && u.name == Known(w) :: u == d
  }

  /** The permission of the class that the word names: one of its own or, if it has none, one of its common. */
  predicate NamesPerm(c: ClassDatum, w: string, perm: Perm) {
    IsPlainName(w)
    && if Known(w) in c.perms then c.perms[Known(w)] == perm else Known(w) in c.common && c.common[Known(w)] == perm
  }

  /** A written rule turns one permission of one kind of rule on, or off if it is a deny, and changes no other. */
  lemma {:induction false} WrittenRule(policy: Policy, k: string, s: string, t: string, c: string, p: string,
                                       src: TypeDatum, tgt: TypeDatum, cls: ClassDatum, perm: Perm, key: Key, v: Perm,
                                       before: bool)
    requires k in {"allow", "deny", "auditallow", "dontaudit"}
    requires Names(policy, s, src) && Names(policy, t, tgt) && NamesClass(policy, c, cls) && NamesPerm(cls, p, perm)
    ensures OnAfter(policy, [k + " " + s + " " + t + " " + c + " " + p], key, v, before) <==>
            if v == perm && key.source == src.value && key.target == tgt.value && key.cls == cls.value
               && key.specified == (if k == "auditallow" then 2 else if k == "dontaudit" then 4 else 1)
            then k != "deny"
            else before
  {
    hide FindType, FindClass, FindPerm, IsPlainName, Exec, Tokens, Touches, Grammar.IsSkipped;
    var line := k + " " + s + " " + t + " " + c + " " + p;
    AccessLine(k, s, t, c, p);
    NameIsSome(s);
    NameIsSome(t);
    NameIsSome(c);
    NameIsSome(p);
    TypeFound(policy.types, s, src);
    TypeFound(policy.types, t, tgt);
    ClassFound(policy.classes, c, cls);
    PermFound(cls, p, perm);
    OneChoice(policy, CallOf(line).value, s, t, c, p, src, tgt, cls, perm, key, v);
    assert [line][..0] == [];
  }

  lemma PermFound(c: ClassDatum, w: string, perm: Perm)
    requires NamesPerm(c, w, perm)
    ensures FindPerm(c, w) == Some(perm)
  {
    assert w[..|w|] == w;
  }

  lemma NameIsSome(s: string)
    requires IsPlainName(s)
    ensures s != ""
  {
  }

  lemma {:induction false} OneChoice(policy: Policy, call: Call, s: string, t: string, c: string, p: string,
                                     src: TypeDatum, tgt: TypeDatum, cls: ClassDatum, perm: Perm, key: Key, v: Perm)
    requires call.Rule? && call == Rule(call.action, [s], [t], [c], [p]) && IsRule(call.action)
    requires s != "" && t != "" && c != "" && p != ""
    requires FindType(policy.types, s) == Some(src) && FindType(policy.types, t) == Some(tgt)
    requires FindClass(policy.classes, c) == Some(cls) && FindPerm(cls, p) == Some(perm)
    ensures Asks(policy.types, policy.classes, call, key, v) <==>
            v == perm && key == Key(src.value, tgt.value, cls.value, Effect(call.action))
  {
    hide FindType, FindClass, FindPerm;
    var r := RuleCall(s, t, c, p, Effect(call.action), Invert(call.action));
    OneKey(Key(src.value, tgt.value, cls.value, Effect(call.action)));
    assert s in OrAny([s]) && t in OrAny([t]) && c in OrAny([c]) && p in OrAny([p]);
    assert Asks(policy.types, policy.classes, call, key, v) <==> Touches(policy.types, policy.classes, r, key, v);
  }

  /** What a permission that is on means in the table: its bit is set in the node of the key; for what is not to be
      audited, there is a node and its bit is not set. */
  lemma OnIsABit(entries: Entries, key: Key, v: Perm)
    requires AvKeysAreUnique(entries) && key.specified in {1, 2, 4}
    ensures IsOn(entries, key, v) <==>
            exists p | p in entries && entries[p].key == key ::
              if key.specified == 4 then v !in entries[p].data else v in entries[p].data
  {
    if p :| Has(entries, p, key) {
      WordOfNode(entries, p, key);
      forall q | q in entries && entries[q].key == key ensures q == p {
        assert Has(entries, q, key);
      }
    } else {
      assert v in ALL_PERMS;
      forall p | p in entries ensures entries[p].key != key {
        assert !Has(entries, p, key);
      }
      WordOfNone(entries, key);
    }
  }

  /** A rule that names something the policy does not have changes nothing. */
  lemma {:induction false} UnknownName(policy: Policy, k: string, s: string, t: string, c: string, p: string, key: Key,
                                       v: Perm, before: bool)
    requires k in {"allow", "deny", "auditallow", "dontaudit"}
    requires IsPlainName(s) && IsPlainName(t) && IsPlainName(c) && IsPlainName(p)
    requires || (forall u | u in policy.types :: u.name != Known(s))
             || (forall u | u in policy.types :: u.name != Known(t))
             || (forall u | u in policy.classes :: u.name != Known(c))
             || (forall u | u in policy.classes && u.name == Known(c) :: Known(p) !in u.perms && Known(p) !in u.common)
    ensures OnAfter(policy, [k + " " + s + " " + t + " " + c + " " + p], key, v, before) <==> before
  {
    hide FindType, FindClass, FindPerm, IsPlainName, Exec, Tokens, Grammar.IsSkipped;
    var line := k + " " + s + " " + t + " " + c + " " + p;
    AccessLine(k, s, t, c, p);
    NameIsSome(s);
    NameIsSome(t);
    NameIsSome(c);
    NameIsSome(p);
    FoundIsThere(policy.types, s);
    FoundIsThere(policy.types, t);
    FoundClassIsThere(policy.classes, c);
    if FindClass(policy.classes, c).Some? {
      UnknownPerm(FindClass(policy.classes, c).value, p);
    }
    assert [line][..0] == [];
  }

  lemma {:induction false} FoundIsThere(types: seq<TypeDatum>, w: string)
    ensures var r := FindType(types, w);
            r.Some? ==> r.value in types && r.value.name == Known(w)
  {
    assert w[..|w|] == w;
    if types != [] {
      FoundIsThere(types[1..], w);
    }
  }

  lemma {:induction false} FoundClassIsThere(classes: seq<ClassDatum>, w: string)
    ensures var r := FindClass(classes, w);
            r.Some? ==> r.value in classes && r.value.name == Known(w)
  {
    assert w[..|w|] == w;
    if classes != [] {
      FoundClassIsThere(classes[1..], w);
    }
  }

  lemma UnknownPerm(c: ClassDatum, w: string)
    ensures FindPerm(c, w).Some? <==> Known(w) in c.perms || Known(w) in c.common
  {
    assert w[..|w|] == w;
  }

  // ---- rules for everything ----

  lemma StarLine(k: string, t: string, c: string, p: string)
    requires k in {"allow", "deny", "auditallow", "dontaudit"} && IsPlainName(t) && IsPlainName(c) && IsPlainName(p)
    ensures CallOf(k + " * " + t + " " + c + " " + p) == Some(Rule(ActionOf(k), [], [t], [c], [p]))
  {
    hide Tokens, IsPlainName, Grammar.IsSkipped, Exec;
    KeywordToken(k);
    KeywordToken("*");
    SpaceSeparates(k, "*");
    assert k + " " + "*" + " " == k + " * ";
    NextName(k + " " + "*", t);
    NextName(k + " * " + t, c);
    NextName(k + " * " + t + " " + c, p);
    var x := Grammar.Access(Keyword(k).value, Grammar.All, Grammar.One(t), Grammar.One(c), Grammar.One(p));
    MakesCall(k + " * " + t + " " + c + " " + p, x);
  }

  lemma StarPermLine(k: string, s: string, t: string, c: string)
    requires k in {"allow", "deny", "auditallow", "dontaudit"} && IsPlainName(s) && IsPlainName(t) && IsPlainName(c)
    ensures CallOf(k + " " + s + " " + t + " " + c + " *") == Some(Rule(ActionOf(k), [s], [t], [c], []))
  {
    hide Tokens, IsPlainName, Grammar.IsSkipped, Exec;
    TwoTokens(k, s);
    NextName(k + " " + s, t);
    NextName(k + " " + s + " " + t, c);
    KeywordToken("*");
    SpaceSeparates(k + " " + s + " " + t + " " + c, "*");
    assert " " + "*" == " *";
    var x := Grammar.Access(Keyword(k).value, Grammar.One(s), Grammar.One(t), Grammar.One(c), Grammar.All);
    assert k + " " + s + " " + t + " " + c + " " + "*" == k + " " + s + " " + t + " " + c + " *";
    MakesCall(k + " " + s + " " + t + " " + c + " *", x);
  }

  /** With every source, a rule is about every attribute, and a deny about every type too. */
  lemma {:induction false} WrittenForAll(policy: Policy, k: string, t: string, c: string, p: string, tgt: TypeDatum,
                                         cls: ClassDatum, perm: Perm, key: Key, v: Perm, before: bool)
    requires k in {"allow", "deny", "auditallow", "dontaudit"}
    requires Names(policy, t, tgt) && NamesClass(policy, c, cls) && NamesPerm(cls, p, perm)
    ensures OnAfter(policy, [k + " * " + t + " " + c + " " + p], key, v, before) <==>
            if v == perm && key.target == tgt.value && key.cls == cls.value
               && key.specified == (if k == "auditallow" then 2 else if k == "dontaudit" then 4 else 1)
               && exists u | u in policy.types :: u.value == key.source && (u.isAttribute || k == "deny")
            then k != "deny"
            else before
  {
    hide FindType, FindClass, FindPerm, IsPlainName, Exec, Tokens, Grammar.IsSkipped, Values;
    var line, action := k + " * " + t + " " + c + " " + p, ActionOf(k);
    StarLine(k, t, c, p);
    NameIsSome(t);
    NameIsSome(c);
    NameIsSome(p);
    TypeFound(policy.types, t, tgt);
    ClassFound(policy.classes, c, cls);
    PermFound(cls, p, perm);
    ValuesHas(policy.types, k == "deny", key.source);
    var r := RuleCall("", t, c, p, Effect(action), Invert(action));
    assert "" in OrAny([]) && t in OrAny([t]) && c in OrAny([c]) && p in OrAny([p]);
    assert Asks(policy.types, policy.classes, Rule(action, [], [t], [c], [p]), key, v) <==>
           Touches(policy.types, policy.classes, r, key, v);
    assert [line][..0] == [];
  }

  /** With every permission, a rule is about all of them at once. */
  lemma {:induction false} WrittenForAllPerms(policy: Policy, k: string, s: string, t: string, c: string,
                                              src: TypeDatum, tgt: TypeDatum, cls: ClassDatum, key: Key, v: Perm,
                                              before: bool)
    requires k in {"allow", "deny", "auditallow", "dontaudit"}
    requires Names(policy, s, src) && Names(policy, t, tgt) && NamesClass(policy, c, cls)
    ensures OnAfter(policy, [k + " " + s + " " + t + " " + c + " *"], key, v, before) <==>
            if key.source == src.value && key.target == tgt.value && key.cls == cls.value
               && key.specified == (if k == "auditallow" then 2 else if k == "dontaudit" then 4 else 1)
            then k != "deny"
            else before
  {
    hide FindType, FindClass, FindPerm, IsPlainName, Exec, Tokens, Grammar.IsSkipped, Values;
    var line, action := k + " " + s + " " + t + " " + c + " *", ActionOf(k);
    StarPermLine(k, s, t, c);
    NameIsSome(s);
    NameIsSome(t);
    NameIsSome(c);
    TypeFound(policy.types, s, src);
    TypeFound(policy.types, t, tgt);
    ClassFound(policy.classes, c, cls);
    OneKey(Key(src.value, tgt.value, cls.value, Effect(action)));
    var r := RuleCall(s, t, c, "", Effect(action), Invert(action));
    assert s in OrAny([s]) && t in OrAny([t]) && c in OrAny([c]) && "" in OrAny([]);
    assert Asks(policy.types, policy.classes, Rule(action, [s], [t], [c], []), key, v) <==>
           Touches(policy.types, policy.classes, r, key, v);
    assert [line][..0] == [];
  }

  // ---- extended rules ----

  /** A number is written with 0x in front and read as a decimal number. */
  predicate IsWritten(n: u16, d: string) {
    d != "" && IsNumber(d) && Decimal(d) == n
  }

  lemma {:induction false} DecimalNext(s: string, c: char)
    requires IsNumber(s) && '0' <= c <= '9'
    ensures IsNumber(s + [c]) && Decimal(s + [c]) == Decimal(s) * 10 + (c as int - 48) && Decimal("") == 0
  {
    assert (s + [c])[..|s|] == s;
  }

  lemma NumberToken(n: u16, d: string)
    requires IsWritten(n, d)
    ensures Tokens("0x" + d) == [HX(n)]
  {
    hide LexFrom, Scan, Decimal;
    forall i | 0 <= i < |d| ensures IsHex(d[i]) { assert IsDigit(d[i]); }
    assert HasNoSpace("0x" + d) by {
      forall i | 0 <= i < |d| ensures !IsSpace(d[i]) { assert IsDigit(d[i]); }
    }
    LexIsScan("", "0x" + d);
    HexWord(d);
    assert IsDigit(d[0]);
  }

  /** A plus sign in front of the digits does not matter; what is no number, or too large, is read as 0. */
  lemma {:induction false} OddNumber(d: string)
    requires IsPlain(d)
    ensures d != "" && IsNumber(d) && Decimal(d) < 0x10000 ==> Tokens("0x+" + d) == [HX(Decimal(d))]
    ensures d != "" && d[0] != '+' && !(IsNumber(d) && Decimal(d) < 0x10000) ==> Tokens("0x" + d) == [HX(0)]
  {
    hide Scan, Decimal;
    WordOfNumber(d);
    WordOfNumber("+" + d);
    assert ("+" + d)[1..] == d && "0x" + ("+" + d) == "0x+" + d;
  }

  lemma WordOfNumber(s: string)
    requires IsPlain(s)
    ensures Tokens("0x" + s) == [HX(ParseU16(s).GetOr(0))]
  {
    hide Scan, WordTokens, Keyword, ParseU16;
    var w := "0x" + s;
    NotKeyword(w);
    PlainWord(w);
    WordCases(w);
    assert w[2..] == s;
  }

  /** The ioctls from one number to another: within one driver exactly these, else all of the drivers between. */
  function FromTo(a: u16, b: u16): set<nat> {
    set n: nat | n < 0x10000
                 && if a / 256 == b / 256 then a <= n <= b else a / 256 <= n / 256 <= b / 256
  }

  lemma SpanIsFromTo(a: u16, b: u16, reset: bool)
    ensures Span(Xperm(a, b, reset)) == FromTo(a, b)
  {
  }

  /** The ioctls that are written in these ways, and whether everything else is meant. */
  datatype Written = Written(text: string, xs: Grammar.Perms, ioctls: set<nat>, isRest: bool)

  ghost predicate IsWrittenAs(w: Written, a: u16, b: u16, d: string, e: string) {
    || w == Written("*", Grammar.Anything, FromTo(0, 0xFFFF), false)
    || (a > 0 && w == Written("0x" + d, Grammar.Number(a), FromTo(a, a), false))
    || (a == 0 && w == Written("0x" + d, Grammar.Number(0), FromTo(0, 0xFFFF), false))
    || w == Written("{ 0x" + d + " }", Grammar.Intervals(false, [Grammar.Single(a)]), FromTo(a, a), false)
    || w == Written("{ 0x" + d + "-0x" + e + " }", Grammar.Intervals(false, [Grammar.FromTo(a, b)]), FromTo(a, b),
                    false)
    || w == Written("~{ 0x" + d + "-0x" + e + " }", Grammar.Intervals(true, [Grammar.FromTo(a, b)]), FromTo(a, b),
                    true)
  }

  lemma BracedTokens(inner: string)
    ensures Tokens("{ " + inner + " }") == [LB] + Tokens(inner) + [RB]
    ensures Tokens("~{ " + inner + " }") == [TL, LB] + Tokens(inner) + [RB]
  {
    hide Scan;
    Symbols();
    SpaceSeparates(inner, "}");
    SpaceSeparates("{", inner + " }");
    assert inner + " " + "}" == inner + " }" && "{" + " " + (inner + " }") == "{ " + inner + " }";
    Tilde();
    Glued("~", " " + inner + " }");
    NothingToScan();
    SpaceSeparates("", inner + " }");
    assert "" + " " + (inner + " }") == " " + inner + " }";
    assert "~" + "{" + (" " + inner + " }") == "~{ " + inner + " }";
  }

  lemma WrittenTokens(w: Written, a: u16, b: u16, d: string, e: string)
    requires IsWrittenAs(w, a, b, d, e) && IsWritten(a, d) && IsWritten(b, e)
    ensures Tokens(w.text) == Grammar.PermTokens(w.xs) && (w.xs.Intervals? ==> w.xs.list != [])
    ensures |Grammar.PermValues(w.xs)| == 1 && forall before ::
              ApplyAll(before, Grammar.PermValues(w.xs)) == if w.isRest then FromTo(0, 0xFFFF) - w.ioctls
                                                            else before + w.ioctls
  {
    hide Tokens, IsWritten, Span, FromTo;
    NumberToken(a, d);
    NumberToken(b, e);
    KeywordToken("*");
    Glued("0x" + d, "0x" + e);
    var pair := "0x" + d + "-" + ("0x" + e);
    BracedTokens("0x" + d);
    BracedTokens(pair);
    assert "{ " + ("0x" + d) + " }" == "{ 0x" + d + " }";
    assert "{ " + pair + " }" == "{ 0x" + d + "-0x" + e + " }";
    assert "~{ " + pair + " }" == "~{ 0x" + d + "-0x" + e + " }";
    Grammar.ListOfOne(Grammar.Single(a));
    Grammar.ListOfOne(Grammar.FromTo(a, b));
    ValueOf(w);
  }

  lemma ValueOf(w: Written)
    requires exists a: u16, b: u16, d: string, e: string :: IsWrittenAs(w, a, b, d, e)
    ensures |Grammar.PermValues(w.xs)| == 1 && forall before ::
              ApplyAll(before, Grammar.PermValues(w.xs)) == if w.isRest then FromTo(0, 0xFFFF) - w.ioctls
                                                            else before + w.ioctls
  {
    var a: u16, b: u16, d: string, e: string :| IsWrittenAs(w, a, b, d, e);
    SpanIsFromTo(0, 0xFFFF, false);
    SpanIsFromTo(a, a, false);
    SpanIsFromTo(a, b, false);
    SpanIsFromTo(a, b, true);
    var xs := Grammar.PermValues(w.xs);
    assert xs[..0] == [];
    assert ALL_IOCTLS == FromTo(0, 0xFFFF);
  }

  /** A written extended rule adds the ioctls of one key to those it has, or with a tilde makes them all but those; it
      changes no other key, and nothing in a policy that is too old. */
  lemma {:induction false} WrittenXperm(policy: Policy, policyvers: nat, k: string, s: string, t: string, c: string,
                                        w: Written, a: u16, b: u16, d: string, e: string, src: TypeDatum,
                                        tgt: TypeDatum, cls: ClassDatum, key: Key, before: set<nat>)
    requires k in {"allowxperm", "auditallowxperm", "dontauditxperm"}
    requires Names(policy, s, src) && Names(policy, t, tgt) && NamesClass(policy, c, cls)
    requires IsWrittenAs(w, a, b, d, e) && IsWritten(a, d) && IsWritten(b, e)
    ensures IoctlsAfter(policy, policyvers, [k + " " + s + " " + t + " " + c + " ioctl " + w.text], key, before)
         == if policyvers >= 30 && key.source == src.value && key.target == tgt.value && key.cls == cls.value
               && key.specified == (if k == "allowxperm" then 0x100 else if k == "auditallowxperm" then 0x200
                                    else 0x400)
            then if w.isRest then FromTo(0, 0xFFFF) - w.ioctls else before + w.ioctls
            else before
  {
    hide FindType, FindClass, IsPlainName, Exec, Tokens, Grammar.IsSkipped, IsWritten, IsWrittenAs, FromTo, ApplyAll;
    var line := k + " " + s + " " + t + " " + c + " ioctl " + w.text;
    XpermLine(k, s, t, c, w, a, b, d, e);
    WrittenTokens(w, a, b, d, e);
    NameIsSome(s);
    NameIsSome(t);
    NameIsSome(c);
    TypeFound(policy.types, s, src);
    TypeFound(policy.types, t, tgt);
    ClassFound(policy.classes, c, cls);
    OneXpermChoice(policy, CallOf(line).value, s, t, c, src, tgt, cls, key);
    assert [line][..0] == [];
  }

  lemma XpermLine(k: string, s: string, t: string, c: string, w: Written, a: u16, b: u16, d: string, e: string)
    requires k in {"allowxperm", "auditallowxperm", "dontauditxperm"}
    requires IsPlainName(s) && IsPlainName(t) && IsPlainName(c)
    requires IsWrittenAs(w, a, b, d, e) && IsWritten(a, d) && IsWritten(b, e)
    ensures CallOf(k + " " + s + " " + t + " " + c + " ioctl " + w.text)
         == Some(XpermRule(if k == "allowxperm" then AX else if k == "auditallowxperm" then AY else DX, [s], [t], [c],
                           Grammar.PermValues(w.xs)))
  {
    hide Tokens, IsPlainName, Grammar.IsSkipped, Exec, IsWritten, IsWrittenAs, Grammar.PermTokens, Grammar.PermValues;
    IoctlIsName();
    FiveTokens(k, s, t, c, "ioctl");
    WrittenTokens(w, a, b, d, e);
    var front := k + " " + s + " " + t + " " + c + " " + "ioctl";
    SpaceSeparates(front, w.text);
    assert front + " " + w.text == k + " " + s + " " + t + " " + c + " ioctl " + w.text;
    MakesCall(front + " " + w.text,
              Grammar.Extended(Keyword(k).value, Grammar.One(s), Grammar.One(t), Grammar.One(c), w.xs));
  }

  lemma IoctlIsName()
    ensures IsPlainName("ioctl")
  {
    assert "ioctl"[0] == 'i' && "ioctl"[1] == 'o';
  }

  lemma {:induction false} OneXpermChoice(policy: Policy, call: Call, s: string, t: string, c: string, src: TypeDatum,
                                          tgt: TypeDatum, cls: ClassDatum, key: Key)
    requires call.XpermRule? && call == XpermRule(call.action, [s], [t], [c], call.xperms) && IsXpermAction(call.action)
    requires s != "" && t != "" && c != ""
    requires FindType(policy.types, s) == Some(src) && FindType(policy.types, t) == Some(tgt)
    requires FindClass(policy.classes, c) == Some(cls)
    ensures key in AskedKeys(policy, call) <==> key == Key(src.value, tgt.value, cls.value, XpermEffect(call.action))
  {
    hide FindType, FindClass, FindPerm, AskedKeys;
    AskedAre(policy, call, key);
    OneKey(Key(src.value, tgt.value, cls.value, XpermEffect(call.action)));
    assert s in OrAny([s]) && t in OrAny([t]) && c in OrAny([c]);
  }

  /** What an ioctl of a key means in the table: the bit of its driver in a node for drivers, or that of its lower byte
      in the node of its driver. */
  lemma IoctlIsABit(entries: Entries, key: Key, n: nat)
    requires n < 0x10000
    ensures n in Ioctls(entries, key) <==>
            exists p | p in entries && entries[p].key == key && entries[p].xperms.Some? ::
              var x := entries[p].xperms.value;
              || (x.kind == IoctlDriver && n / 256 in x.perms)
              || (x.kind == IoctlFunction && x.driver == n / 256 && n % 256 in x.perms)
  {
    if p :| Has(entries, p, key) && entries[p].xperms.Some? && Denotes(entries[p].xperms.value, n) {
      assert n in ALL_IOCTLS && Allows(entries, key, n);
    }
    if p :| p in entries && entries[p].key == key && entries[p].xperms.Some?
            && var x := entries[p].xperms.value;
               || (x.kind == IoctlDriver && n / 256 in x.perms)
               || (x.kind == IoctlFunction && x.driver == n / 256 && n % 256 in x.perms) {
      assert Has(entries, p, key) && Denotes(entries[p].xperms.value, n);
    }
  }
}
