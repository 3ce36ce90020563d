/**
  The grammar of policy statements, and the proof that the parser accepts exactly its sentences and gives
  each one its meaning (native/src/sepolicy/statement.rs).
 */
module StatementGrammar {
  import opened Wrappers
  import opened StatementLexer
  import opened StatementParser

  // ---- syntax ----

  datatype Item = Name(name: string) | Star

  datatype Terms = One(name: string) | All | Group(items: seq<Item>)

  datatype Interval = Single(low: u16) | FromTo(low: u16, high: u16)

  datatype Perms = Anything | Number(low: u16) | Intervals(tilde: bool, list: seq<Interval>)

  datatype Statement =
    | Access(action: Token, source: Terms, target: Terms, cls: Terms, perms: Terms)
    | Extended(action: Token, source: Terms, target: Terms, cls: Terms, xperms: Perms)
    | State(action: Token, types: Terms)
    | Attach(types: Terms, attrs: Terms)
    | Declare(name: string, with: Option<Terms>)
    | DeclareAttribute(name: string)
    | Default(action: Token, s: string, t: string, c: string, d: string)
    | Transition(s: string, t: string, c: string, d: string, o: Option<string>)
    | Context(s: string, t: string, c: string)

  predicate HasNoStar(t: Terms) { t.One? || (t.Group? && Star !in t.items) }

  predicate IsSentence(x: Statement) {
    match x
    case Access(action, _, _, _, _) => action in {AL, DN, AA, DA}
    case Extended(action, _, _, _, xs) => action in {AX, AY, DX} && (xs.Intervals? ==> xs.list != [])
    case State(action, _) => action in {PM, EF}
    case Attach(types, attrs) => HasNoStar(types) && HasNoStar(attrs)
    case Declare(_, attrs) => attrs.Some? ==> HasNoStar(attrs.value)
    case Default(action, _, _, _, _) => action in {TC, TM}
    case _ => true
  }

  // ---- how a sentence is written ----

  function ItemToken(i: Item): Token { if i.Star? then ST else ID(i.name) }

  function ItemTokens(items: seq<Item>): seq<Token> {
    if items == [] then [] else [ItemToken(items[0])] + ItemTokens(items[1..])
  }

  function TermTokens(t: Terms): seq<Token> {
    match t
    case One(name) => [ID(name)]
    case All => [ST]
    case Group(items) => [LB] + ItemTokens(items) + [RB]
  }

  function IntervalTokens(i: Interval): seq<Token> {
    if i.Single? then [HX(i.low)] else [HX(i.low), HP, HX(i.high)]
  }

  function ListTokens(list: seq<Interval>): seq<Token> {
    if list == [] then [] else IntervalTokens(list[0]) + ListTokens(list[1..])
  }

  function PermTokens(p: Perms): seq<Token> {
    match p
    case Anything => [ST]
    case Number(low) => [HX(low)]
    case Intervals(tilde, list) => (if tilde then [TL] else []) + [LB] + ListTokens(list) + [RB]
  }

  function Render(x: Statement): seq<Token> {
    match x
    case Access(action, s, t, c, p) => [action] + TermTokens(s) + TermTokens(t) + TermTokens(c) + TermTokens(p)
    case Extended(action, s, t, c, xs) =>
      [action] + TermTokens(s) + TermTokens(t) + TermTokens(c) + [ID("ioctl")] + PermTokens(xs)
    case State(action, t) => [action] + TermTokens(t)
    case Attach(t, a) => [TA] + TermTokens(t) + TermTokens(a)
    case Declare(name, attrs) => [TY, ID(name)] + (if attrs.Some? then TermTokens(attrs.value) else [])
    case DeclareAttribute(name) => [AT, ID(name)]
    case Default(action, s, t, c, d) => [action, ID(s), ID(t), ID(c), ID(d)]
    case Transition(s, t, c, d, o) => [TT, ID(s), ID(t), ID(c), ID(d)] + (if o.Some? then [ID(o.value)] else [])
    case Context(s, t, c) => [GF, ID(s), ID(t), ID(c)]
  }

  // ---- what a sentence means ----

  function ItemNames(items: seq<Item>): seq<string> {
    if items == [] then []
    else (if items[0].Star? then [] else [items[0].name]) + ItemNames(items[1..])
  }

  /** The names listed; a star anywhere, or an empty group, makes the list empty, which stands for everything. */
  function TermNames(t: Terms): seq<string> {
    match t
    case One(name) => [name]
    case All => []
    case Group(items) => if Star in items then [] else ItemNames(items)
  }

  function Value(i: Interval, reset: bool): Xperm {
    if i.Single? then Xperm(i.low, i.low, reset) else Xperm(i.low, i.high, reset)
  }

  function Values(list: seq<Interval>, reset: bool): seq<Xperm> {
    seq(|list|, i requires 0 <= i < |list| => Value(list[i], reset))
  }

  /** A bare number 0 stands for the whole range, as a star does. */
  function PermValues(p: Perms): seq<Xperm> {
    match p
    case Anything => [Xperm(0, 0xFFFF, false)]
    case Number(low) => [if low == 0 then Xperm(0, 0xFFFF, false) else Xperm(low, low, false)]
    case Intervals(tilde, list) => Values(list, tilde)
  }

  function Meaning(x: Statement): Call {
    match x
    case Access(action, s, t, c, p) => Rule(action, TermNames(s), TermNames(t), TermNames(c), TermNames(p))
    case Extended(action, s, t, c, xs) => XpermRule(action, TermNames(s), TermNames(t), TermNames(c), PermValues(xs))
    case State(action, t) => TypeState(action, TermNames(t))
    case Attach(t, a) => TypeAttribute(TermNames(t), TermNames(a))
    case Declare(name, attrs) => NewType(name, if attrs.Some? then TermNames(attrs.value) else [])
    case DeclareAttribute(name) => NewAttribute(name)
    case Default(action, s, t, c, d) => TypeRule(action, s, t, c, d)
    case Transition(s, t, c, d, o) => TypeTransition(s, t, c, d, o.GetOr(""))
    case Context(s, t, c) => GenfsCon(s, t, c)
  }

  // ---- every sentence is accepted with its meaning ----

  function Collected(names: Option<seq<string>>, items: seq<Item>): Option<seq<string>> {
    if names.None? || Star in items then None else Some(names.value + ItemNames(items))
  }

  lemma CollectedNone(names: Option<seq<string>>)
    ensures Collected(names, []) == names
  {
    if names.Some? {
      assert names.value + [] == names.value;
    }
  }

  lemma CollectedNext(names: Option<seq<string>>, items: seq<Item>)
    requires items != []
    ensures Collected(names, items)
            == Collected(if items[0].Star? then None else Push(names, items[0].name), items[1..])
  {
    assert items == [items[0]] + items[1..];
    if names.Some? && items[0].Name? {
      var name, more := items[0].name, ItemNames(items[1..]);
      assert names.value + [name] + more == names.value + ([name] + more);
    }
  }

  lemma {:induction false} StarNamesRead(names: Option<seq<string>>, items: seq<Item>, rest: seq<Token>)
    ensures StarNames(names, ItemTokens(items) + [RB] + rest) == Parsed(Collected(names, items).GetOr([]), rest)
    decreases |items|
  {
    hide Collected;
    var ts := ItemTokens(items) + [RB] + rest;
    if items == [] {
      assert ts == [RB] + rest;
      CollectedNone(names);
    } else {
      assert ts[1..] == ItemTokens(items[1..]) + [RB] + rest;
      StarNamesRead(if items[0].Star? then None else Push(names, items[0].name), items[1..], rest);
      CollectedNext(names, items);
    }
  }

  lemma {:induction false} NamesRead(names: seq<string>, items: seq<Item>, rest: seq<Token>)
    requires Star !in items
    ensures Names(names, ItemTokens(items) + [RB] + rest) == Parsed(names + ItemNames(items), rest)
    decreases |items|
  {
    var ts := ItemTokens(items) + [RB] + rest;
    if items == [] {
      assert ts == [RB] + rest;
      assert names + [] == names;
    } else {
      assert ts[1..] == ItemTokens(items[1..]) + [RB] + rest;
      var name, more := items[0].name, ItemNames(items[1..]);
      NamesRead(names + [name], items[1..], rest);
      assert names + [name] + more == names + ([name] + more);
    }
  }

  lemma {:induction false} GroupTokens(items: seq<Item>, rest: seq<Token>)
    ensures (TermTokens(Group(items)) + rest)[1..] == ItemTokens(items) + [RB] + rest
  {
  }

  lemma StermReads(t: Terms, rest: seq<Token>)
    ensures Sterm(TermTokens(t) + rest) == Parsed(TermNames(t), rest)
  {
    hide StarNames, ItemTokens, ItemNames;
    var ts := TermTokens(t) + rest;
    assert ts[0] == TermTokens(t)[0];
    if t.Group? {
      GroupTokens(t.items, rest);
      StarNamesRead(Some([]), t.items, rest);
      assert [] + ItemNames(t.items) == ItemNames(t.items);
    } else {
      assert ts[1..] == rest;
    }
  }

  lemma TermReads(t: Terms, rest: seq<Token>)
    requires HasNoStar(t)
    ensures Term(TermTokens(t) + rest) == Parsed(TermNames(t), rest)
  {
    hide Names, ItemTokens, ItemNames;
    var ts := TermTokens(t) + rest;
    assert ts[0] == TermTokens(t)[0];
    if t.Group? {
      GroupTokens(t.items, rest);
      NamesRead([], t.items, rest);
      assert [] + ItemNames(t.items) == ItemNames(t.items);
    } else {
      assert ts[1..] == rest;
    }
  }

  lemma RangeReads(i: Interval, rest: seq<Token>)
    requires rest != [] && rest[0] != HP
    ensures Range(IntervalTokens(i) + rest) == Parsed(Value(i, false), rest)
  {
    var ts := IntervalTokens(i) + rest;
    assert ts[|IntervalTokens(i)|..] == rest;
    assert ts[|IntervalTokens(i)|] == rest[0];
  }

  lemma {:induction false} ListStartsWithNumber(list: seq<Interval>)
    requires list != []
    ensures ListTokens(list) != [] && ListTokens(list)[0].HX?
  {
    assert ListTokens(list)[0] == IntervalTokens(list[0])[0];
  }

  lemma ValuesNext(list: seq<Interval>, reset: bool)
    requires list != []
    ensures Values(list, reset) == [Value(list[0], reset)] + Values(list[1..], reset)
  {
  }

  lemma {:induction false} RangesRead(xs: seq<Xperm>, reset: bool, list: seq<Interval>, rest: seq<Token>)
    requires list != []
    ensures Ranges(xs, reset, ListTokens(list) + [RB] + rest) == Parsed(xs + Values(list, reset), rest)
    decreases |list|
  {
    hide Range, IntervalTokens, Values;
    var ts := ListTokens(list) + [RB] + rest;
    var after := ListTokens(list[1..]) + [RB] + rest;
    assert ts == IntervalTokens(list[0]) + after;
    if |list| == 1 {
      assert after == [RB] + rest;
    } else {
      ListStartsWithNumber(list[1..]);
      assert after[0] == ListTokens(list[1..])[0];
    }
    RangeReads(list[0], after);
    var x, more := Value(list[0], reset), Values(list[1..], reset);
    ValuesNext(list, reset);
    assert xs + ([x] + more) == xs + [x] + more;
    if |list| == 1 {
      NoValues(list[1..], reset);
      assert xs + [x] + [] == xs + [x];
    } else {
      RangesRead(xs + [x], reset, list[1..], rest);
    }
  }

  lemma NoValues(list: seq<Interval>, reset: bool)
    requires list == []
    ensures Values(list, reset) == []
  {
  }

  lemma {:induction false} IntervalsRead(reset: bool, list: seq<Interval>)
    requires list != []
    ensures XpermsBody(reset, [LB] + ListTokens(list) + [RB]) == Parsed(Values(list, reset), [])
  {
    hide Ranges, ListTokens, Values;
    var ts := [LB] + ListTokens(list) + [RB];
    assert ts[1..] == ListTokens(list) + [RB] + [];
    RangesRead([], reset, list, []);
    assert [] + Values(list, reset) == Values(list, reset);
  }

  lemma XpermsRead(p: Perms)
    requires p.Intervals? ==> p.list != []
    ensures Xperms(PermTokens(p)) == Parsed(PermValues(p), [])
  {
    hide Ranges, ListTokens, Values;
    if p.Intervals? {
      IntervalsRead(p.tilde, p.list);
      var body := [LB] + ListTokens(p.list) + [RB];
      if p.tilde {
        assert PermTokens(p)[1..] == body;
      } else {
        assert PermTokens(p) == body;
      }
    }
  }

  lemma AccessReads(x: Statement)
    requires IsSentence(x) && x.Access?
    ensures Exec(Render(x)) == Ok(Meaning(x))
  {
    hide TermTokens, Sterm, TermNames;
    var s, t, c, p := TermTokens(x.source), TermTokens(x.target), TermTokens(x.cls), TermTokens(x.perms);
    assert Render(x)[1..] == s + (t + (c + (p + [])));
    StermReads(x.source, t + (c + (p + [])));
    StermReads(x.target, c + (p + []));
    StermReads(x.cls, p + []);
    StermReads(x.perms, []);
  }

  lemma ExtendedReads(x: Statement)
    requires IsSentence(x) && x.Extended?
    ensures Exec(Render(x)) == Ok(Meaning(x))
  {
    hide TermTokens, Sterm, TermNames, Xperms, PermTokens, PermValues;
    var s, t, c, p := TermTokens(x.source), TermTokens(x.target), TermTokens(x.cls), PermTokens(x.xperms);
    var i := [ID("ioctl")] + p;
    assert Render(x)[1..] == s + (t + (c + i));
    StermReads(x.source, t + (c + i));
    StermReads(x.target, c + i);
    StermReads(x.cls, i);
    assert i[1..] == p;
    XpermsRead(x.xperms);
  }

  predicate HasTerms(x: Statement) { x.State? || x.Attach? || x.Declare? }

  lemma TermsRead(x: Statement)
    requires IsSentence(x) && HasTerms(x)
    ensures Exec(Render(x)) == Ok(Meaning(x))
  {
    hide TermTokens, Sterm, Term, TermNames;
    match x {
      case State(action, t) =>
        assert Render(x)[1..] == TermTokens(t) + [];
        StermReads(t, []);
      case Attach(t, a) =>
        assert Render(x)[1..] == TermTokens(t) + (TermTokens(a) + []);
        TermReads(t, TermTokens(a) + []);
        TermReads(a, []);
      case Declare(name, attrs) =>
        if attrs.Some? {
          TermIsSomething(attrs.value);
          assert Render(x)[1..][1..] == TermTokens(attrs.value) + [];
          TermReads(attrs.value, []);
        }
    }
  }

  lemma WordsRead(x: Statement)
    requires IsSentence(x) && !x.Access? && !x.Extended? && !HasTerms(x)
    ensures Exec(Render(x)) == Ok(Meaning(x))
  {
    hide TermTokens, Sterm, Term, TermNames, RuleArgs, XpermArgs, StateArgs, AttributeArgs, TypeArgs;
  }

  lemma TermIsSomething(t: Terms)
    ensures TermTokens(t) != []
  {
  }

  /** Every sentence of the grammar makes exactly the call it means. */
  lemma SentencesAreAccepted(x: Statement)
    requires IsSentence(x)
    ensures Exec(Render(x)) == Ok(Meaning(x))
  {
    hide IsSentence, Exec, Render, Meaning;
    if x.Access? {
      AccessReads(x);
    } else if x.Extended? {
      ExtendedReads(x);
    } else if HasTerms(x) {
      TermsRead(x);
    } else {
      WordsRead(x);
    }
  }

  // ---- nothing else is accepted ----

  lemma {:induction false} StarNamesSyntax(names: Option<seq<string>>, ts: seq<Token>) returns (items: seq<Item>)
    requires StarNames(names, ts).Parsed?
    ensures ts == ItemTokens(items) + [RB] + StarNames(names, ts).rest
    decreases |ts|
  {
    if ts[0] == RB {
      items := [];
      assert ts == [RB] + ts[1..];
    } else {
      var i, next := if ts[0].ID? then Name(ts[0].name) else Star, if ts[0].ID? then Push(names, ts[0].name) else None;
      var more := StarNamesSyntax(next, ts[1..]);
      items := [i] + more;
      assert ts == [ItemToken(i)] + ts[1..];
      assert items[1..] == more;
    }
  }

  lemma {:induction false} NamesSyntax(names: seq<string>, ts: seq<Token>) returns (items: seq<Item>)
    requires Names(names, ts).Parsed?
    ensures Star !in items && ts == ItemTokens(items) + [RB] + Names(names, ts).rest
    decreases |ts|
  {
    if ts[0] == RB {
      items := [];
      assert ts == [RB] + ts[1..];
    } else {
      var i := Name(ts[0].name);
      var more := NamesSyntax(names + [ts[0].name], ts[1..]);
      items := [i] + more;
      assert ts == [ItemToken(i)] + ts[1..];
      assert items[1..] == more;
    }
  }

  lemma StermSyntax(ts: seq<Token>) returns (t: Terms)
    requires Sterm(ts).Parsed?
    ensures ts == TermTokens(t) + Sterm(ts).rest
  {
    hide StarNames, ItemTokens;
    assert ts == [ts[0]] + ts[1..];
    if ts[0].ID? {
      t := One(ts[0].name);
    } else if ts[0] == ST {
      t := All;
    } else {
      var items := StarNamesSyntax(Some([]), ts[1..]);
      t := Group(items);
      GroupWhole(items, Sterm(ts).rest);
    }
  }

  lemma TermSyntax(ts: seq<Token>) returns (t: Terms)
    requires Term(ts).Parsed?
    ensures HasNoStar(t) && ts == TermTokens(t) + Term(ts).rest
  {
    hide Names, ItemTokens;
    assert ts == [ts[0]] + ts[1..];
    if ts[0].ID? {
      t := One(ts[0].name);
    } else {
      var items := NamesSyntax([], ts[1..]);
      t := Group(items);
      GroupWhole(items, Term(ts).rest);
    }
  }

  lemma {:induction false} GroupWhole(items: seq<Item>, rest: seq<Token>)
    ensures [LB] + (ItemTokens(items) + [RB] + rest) == TermTokens(Group(items)) + rest
  {
  }

  lemma RangeSyntax(ts: seq<Token>) returns (i: Interval)
    requires Range(ts).Parsed?
    ensures ts == IntervalTokens(i) + Range(ts).rest && |Range(ts).rest| < |ts|
  {
    if |ts| == 1 || ts[1] != HP {
      i := Single(ts[0].value);
      assert ts == [ts[0]] + ts[1..];
    } else {
      i := FromTo(ts[0].value, ts[2].value);
      assert ts == [ts[0], ts[1], ts[2]] + ts[3..];
    }
  }

  lemma {:induction false} RangesSyntax(xs: seq<Xperm>, reset: bool, ts: seq<Token>) returns (list: seq<Interval>)
    requires Ranges(xs, reset, ts).Parsed?
    ensures list != [] && ts == ListTokens(list) + [RB] + Ranges(xs, reset, ts).rest
    decreases |ts|
  {
    hide Range, IntervalTokens;
    var x := Range(ts);
    var i := RangeSyntax(ts);
    if x.rest != [] && x.rest[0] == RB {
      list := [i];
      assert x.rest == [RB] + x.rest[1..];
      ListOfOne(i);
      assert ts == IntervalTokens(i) + [RB] + x.rest[1..];
    } else {
      var more := RangesSyntax(xs + [x.value.(reset := reset)], reset, x.rest);
      list := [i] + more;
      assert list[1..] == more;
      var rest := Ranges(xs, reset, ts).rest;
      assert IntervalTokens(i) + (ListTokens(more) + [RB] + rest) == IntervalTokens(i) + ListTokens(more) + [RB] + rest;
    }
  }

  lemma ListOfOne(i: Interval)
    ensures ListTokens([i]) == IntervalTokens(i)
  {
    assert IntervalTokens(i) + [] == IntervalTokens(i);
  }

  lemma IntervalsSyntax(reset: bool, ts: seq<Token>) returns (list: seq<Interval>)
    requires ts != [] && ts[0] == LB
    requires XpermsBody(reset, ts).Parsed? && XpermsBody(reset, ts).rest == []
    ensures list != [] && ts == [LB] + ListTokens(list) + [RB]
  {
    hide Ranges, ListTokens;
    list := RangesSyntax([], reset, ts[1..]);
    assert ts == [LB] + ts[1..];
  }

  lemma XpermsSyntax(ts: seq<Token>) returns (p: Perms)
    requires Xperms(ts).Parsed? && Xperms(ts).rest == []
    ensures ts == PermTokens(p) && (p.Intervals? ==> p.list != [])
  {
    hide Ranges, ListTokens;
    assert ts == [ts[0]] + ts[1..];
    if ts[0] == TL {
      var list := IntervalsSyntax(true, ts[1..]);
      p := Intervals(true, list);
    } else if ts[0] == LB {
      var list := IntervalsSyntax(false, ts);
      p := Intervals(false, list);
    } else if ts[0] == ST {
      p := Anything;
    } else {
      p := Number(ts[0].value);
    }
  }

  lemma AccessSyntax(ts: seq<Token>) returns (x: Statement)
    requires ts != [] && ts[0] in {AL, DN, AA, DA} && Exec(ts).Ok?
    ensures IsSentence(x) && Render(x) == ts
  {
    hide Sterm, TermTokens;
    var s := StermSyntax(ts[1..]);
    var t := StermSyntax(Sterm(ts[1..]).rest);
    var rest := Sterm(Sterm(ts[1..]).rest).rest;
    var c := StermSyntax(rest);
    var p := StermSyntax(Sterm(rest).rest);
    x := Access(ts[0], s, t, c, p);
    assert ts == [ts[0]] + ts[1..];
  }

  lemma ExtendedSyntax(ts: seq<Token>) returns (x: Statement)
    requires ts != [] && ts[0] in {AX, AY, DX} && Exec(ts).Ok?
    ensures IsSentence(x) && Render(x) == ts
  {
    hide Sterm, TermTokens, Xperms, PermTokens;
    var s := StermSyntax(ts[1..]);
    var t := StermSyntax(Sterm(ts[1..]).rest);
    var rest := Sterm(Sterm(ts[1..]).rest).rest;
    var c := StermSyntax(rest);
    var i := Sterm(rest).rest;
    assert i == [ID("ioctl")] + i[1..];
    var p := XpermsSyntax(i[1..]);
    x := Extended(ts[0], s, t, c, p);
    assert ts == [ts[0]] + ts[1..];
  }

  lemma TermsSyntax(ts: seq<Token>) returns (x: Statement)
    requires ts != [] && ts[0] in {PM, EF, TA, TY} && Exec(ts).Ok?
    ensures IsSentence(x) && Render(x) == ts
  {
    hide Sterm, Term, TermTokens, RuleArgs, XpermArgs, TypeRuleArgs, TransitionArgs, GenfsArgs;
    var args := ts[1..];
    assert ts == [ts[0]] + args;
    match ts[0] {
      case PM | EF =>
        var t := StermSyntax(args);
        x := State(ts[0], t);
      case TA =>
        var t := TermSyntax(args);
        var a := TermSyntax(Term(args).rest);
        x := Attach(t, a);
      case TY =>
        assert args == [args[0]] + args[1..];
        x := Declare(args[0].name, None);
        if args[1..] != [] {
          var a := TermSyntax(args[1..]);
          x := Declare(args[0].name, Some(a));
        }
    }
  }

  lemma WordsSyntax(ts: seq<Token>) returns (x: Statement)
    requires ts != [] && ts[0] !in {AL, DN, AA, DA, AX, AY, DX, PM, EF, TA, TY} && Exec(ts).Ok?
    ensures IsSentence(x) && Render(x) == ts
  {
    hide RuleArgs, XpermArgs, StateArgs, AttributeArgs, TypeArgs, TermTokens;
    var args := ts[1..];
    assert ts == [ts[0]] + args;
    match ts[0] {
      case AT => x := DeclareAttribute(args[0].name);
      case TC | TM => x := Default(ts[0], args[0].name, args[1].name, args[2].name, args[3].name);
      case TT =>
        var name := if |args| == 5 then Some(args[4].name) else None;
        x := Transition(args[0].name, args[1].name, args[2].name, args[3].name, name);
      case GF => x := Context(args[0].name, args[1].name, args[2].name);
    }
  }

  /** Tokens make a call exactly when they are a sentence that means it. */
  lemma ParserDecidesGrammar(ts: seq<Token>, call: Call)
    ensures Exec(ts) == Ok(call) <==> exists x :: IsSentence(x) && Render(x) == ts && Meaning(x) == call
  {
    hide IsSentence, Render, Meaning;
    if Exec(ts) == Ok(call) {
      var x := Syntax(ts);
      SentencesAreAccepted(x);
    }
    forall x | IsSentence(x) && Render(x) == ts ensures Exec(ts) == Ok(Meaning(x)) { SentencesAreAccepted(x); }
  }

  lemma Syntax(ts: seq<Token>) returns (x: Statement)
    requires Exec(ts).Ok?
    ensures IsSentence(x) && Render(x) == ts
  {
    hide IsSentence, Render;
    if ts[0] in {AL, DN, AA, DA} {
      x := AccessSyntax(ts);
    } else if ts[0] in {AX, AY, DX} {
      x := ExtendedSyntax(ts);
    } else if ts[0] in {PM, EF, TA, TY} {
      x := TermsSyntax(ts);
    } else {
      x := WordsSyntax(ts);
    }
  }

  // ---- from text to calls ----

  /** A sentence that is printed, tokenized and executed makes exactly the call it means. */
  lemma PrintedSentence(x: Statement)
    requires IsSentence(x) && forall i | 0 <= i < |Render(x)| :: IsPrintable(Render(x)[i])
    ensures Exec(Tokens(Print(Render(x)))) == Ok(Meaning(x))
  {
    hide *;
    PrintReadsBack(Render(x));
    SentencesAreAccepted(x);
  }

  // ---- one line of a rule file ----

  /** str::trim */
  function Trim(s: string): string {
    if s == "" then ""
    else if IsSpace(s[0]) then Trim(s[1..])
    else if IsSpace(s[|s| - 1]) then Trim(s[..|s| - 1])
    else s
  }

  lemma {:induction false} TrimKeepsTokens(s: string)
    ensures Tokens(Trim(s)) == Tokens(s)
  {
    hide WordTokens;
    if s != "" {
      NoWord();
      if IsSpace(s[0]) {
        TrimKeepsTokens(s[1..]);
      } else if IsSpace(s[|s| - 1]) {
        var init := s[..|s| - 1];
        TrimKeepsTokens(init);
        assert s == init + [s[|s| - 1]] + "";
        ScanCut("", init, s[|s| - 1], "");
      }
    }
  }

  /** The first character that is not white space is a hash, or there is none. */
  predicate IsSkipped(s: string) {
    if s == "" then true else if IsSpace(s[0]) then IsSkipped(s[1..]) else s[0] == '#'
  }

  lemma {:induction false} TrimFindsComment(s: string)
    ensures IsSkipped(s) <==> Trim(s) == "" || Trim(s)[0] == '#'
  {
    if s != "" {
      if IsSpace(s[0]) {
        TrimFindsComment(s[1..]);
      } else if IsSpace(s[|s| - 1]) {
        TrimFindsComment(s[..|s| - 1]);
      }
    }
  }

  lemma {:induction false} HashIsName(w: string)
    requires w != "" && w[0] == '#'
    ensures WordTokens(w) == [ID(w)]
  {
    if Keyword(w).Some? {
      hide Keyword;
      KeywordsAreNoComments(w);
    }
  }

  lemma KeywordsAreNoComments(w: string)
    requires Keyword(w).Some?
    ensures w != "" && w[0] != '#'
  {
  }

  lemma {:induction false} CommentToken(word: string, s: string)
    requires word != "" && word[0] == '#'
    ensures Scan(word, s) != [] && Scan(word, s)[0].ID?
    decreases |s|
  {
    hide WordTokens;
    HashIsName(word);
    if s != "" && !IsSpace(s[0]) && !IsDelimiter(s[0]) {
      CommentToken(word + [s[0]], s[1..]);
    }
  }

  /** No sentence starts like a comment. */
  lemma {:induction false} SkippedIsNoSentence(s: string, x: Statement)
    requires IsSkipped(s) && IsSentence(x)
    ensures Render(x) != Tokens(s)
  {
    hide WordTokens, TermTokens, PermTokens;
    NoWord();
    if s != "" {
      if IsSpace(s[0]) {
        SkippedIsNoSentence(s[1..], x);
      } else {
        assert "" + [s[0]] == "#";
        CommentToken("#", s[1..]);
        assert !IsDelimiter('#');
      }
    }
  }

  /** parse_statement: blank lines and comments make nothing happen; of the others, exactly the sentences make the
      call they mean. */
  method ParseStatement(statement: string) returns (r: Option<Result<Call, ParseError>>)
    ensures r.None? <==> IsSkipped(statement)
    ensures r.Some? ==> r.value == Exec(Tokens(statement))
    ensures forall x | IsSentence(x) && Render(x) == Tokens(statement) :: r == Some(Ok(Meaning(x)))
  {
    hide *;
    var trimmed := Trim(statement);
    TrimFindsComment(statement);
    TrimKeepsTokens(statement);
    if trimmed == "" || trimmed[0] == '#' {
      r := None;
    } else {
      var tokens := TokenizeStatement(trimmed);
      var parser := new Parser(tokens);
      var done := parser.ExecStatement();
      r := Some(if done.Ok? then Ok(parser.calls[0]) else Err(done.error));
    }
    forall x | IsSentence(x) && Render(x) == Tokens(statement) ensures r == Some(Ok(Meaning(x))) {
      if r.None? {
        SkippedIsNoSentence(statement, x);
      } else {
        SentencesAreAccepted(x);
      }
    }
  }
}
