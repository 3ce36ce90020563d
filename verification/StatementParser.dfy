/**
  Parsing the tokens of a policy statement into one call of the policy interface
  (native/src/sepolicy/statement.rs).
 */
module StatementParser {
  import opened Wrappers
  import opened StatementLexer

  datatype Xperm = Xperm(low: u16, high: u16, reset: bool)

  /** A call of the policy interface; the action is the keyword of the statement. An empty list of names in a
      rule stands for everything. */
  datatype Call =
    | Rule(action: Token, source: seq<string>, target: seq<string>, cls: seq<string>, perms: seq<string>)
    | XpermRule(action: Token, source: seq<string>, target: seq<string>, cls: seq<string>, xperms: seq<Xperm>)
    | TypeState(action: Token, types: seq<string>)
    | TypeAttribute(types: seq<string>, attrs: seq<string>)
    | NewType(name: string, attrs: seq<string>)
    | NewAttribute(name: string)
    | TypeRule(action: Token, s: string, t: string, c: string, d: string)
    | TypeTransition(s: string, t: string, c: string, d: string, o: string)
    | GenfsCon(s: string, t: string, c: string)

  datatype ParseError =
    | General
    | AvtabAv(action: Token)
    | AvtabXperms(action: Token)
    | AvtabType(action: Token)
    | BadTypeState(action: Token)
    | TypeAttr
    | TypeTrans
    | BadNewType
    | BadNewAttr
    | BadGenfsCon
    | ShowHelp
    | UnknownAction(action: Token)

  datatype Parsed<T> = Parsed(value: T, rest: seq<Token>) | Failed

  // ---- the parsers, as functions of the tokens ahead ----

  function Id(ts: seq<Token>): Parsed<string> {
    if ts != [] && ts[0].ID? then Parsed(ts[0].name, ts[1..]) else Failed
  }

  function Names(names: seq<string>, ts: seq<Token>): Parsed<seq<string>>
    decreases |ts|
  {
    if ts == [] then Failed
    else match ts[0]
      case ID(name) => Names(names + [name], ts[1..])
      case RB => Parsed(names, ts[1..])
      case _ => Failed
  }

  function Term(ts: seq<Token>): Parsed<seq<string>> {
    if ts == [] then Failed
    else match ts[0]
      case ID(name) => Parsed([name], ts[1..])
      case LB => Names([], ts[1..])
      case _ => Failed
  }

  function Push(names: Option<seq<string>>, name: string): Option<seq<string>> {
    if names.Some? then Some(names.value + [name]) else None
  }

  function StarNames(names: Option<seq<string>>, ts: seq<Token>): Parsed<seq<string>>
    decreases |ts|
  {
    if ts == [] then Failed
    else match ts[0]
      case ID(name) => StarNames(Push(names, name), ts[1..])
      case ST => StarNames(None, ts[1..])
      case RB => Parsed(names.GetOr([]), ts[1..])
      case _ => Failed
  }

  function Sterm(ts: seq<Token>): Parsed<seq<string>> {
    if ts == [] then Failed
    else match ts[0]
      case ID(name) => Parsed([name], ts[1..])
      case ST => Parsed([], ts[1..])
      case LB => StarNames(Some([]), ts[1..])
      case _ => Failed
  }

  function Range(ts: seq<Token>): Parsed<Xperm> {
    if ts == [] || !ts[0].HX? then Failed
    else if |ts| == 1 || ts[1] != HP then Parsed(Xperm(ts[0].value, ts[0].value, false), ts[1..])
    else if |ts| == 2 || !ts[2].HX? then Failed
    else Parsed(Xperm(ts[0].value, ts[2].value, false), ts[3..])
  }

  function Ranges(xs: seq<Xperm>, reset: bool, ts: seq<Token>): Parsed<seq<Xperm>>
    decreases |ts|
  {
    var x := Range(ts);
    if x.Failed? then Failed
    else
      var all := xs + [x.value.(reset := reset)];
      if x.rest != [] && x.rest[0] == RB then Parsed(all, x.rest[1..]) else Ranges(all, reset, x.rest)
  }

  function XpermsBody(reset: bool, ts: seq<Token>): Parsed<seq<Xperm>> {
    if ts == [] then Failed
    else match ts[0]
      case LB => Ranges([], reset, ts[1..])
      case ST => Parsed([Xperm(0, 0xFFFF, reset)], ts[1..])
      case HX(low) => Parsed([if low > 0 then Xperm(low, low, reset) else Xperm(0, 0xFFFF, reset)], ts[1..])
      case _ => Failed
  }

  function Xperms(ts: seq<Token>): Parsed<seq<Xperm>> {
    if ts == [] || ts[0] != TL then XpermsBody(false, ts)
    else if |ts| == 1 || ts[1] != LB then Failed
    else XpermsBody(true, ts[1..])
  }

  function Word(pattern: string, ts: seq<Token>): Parsed<()> {
    if ts != [] && ts[0] == ID(pattern) then Parsed((), ts[1..]) else Failed
  }

  function RuleArgs(action: Token, ts: seq<Token>): Option<Call> {
    var s := Sterm(ts);
    if s.Failed? then None else
    var t := Sterm(s.rest);
    if t.Failed? then None else
    var c := Sterm(t.rest);
    if c.Failed? then None else
    var p := Sterm(c.rest);
    if p.Failed? || p.rest != [] then None else Some(Rule(action, s.value, t.value, c.value, p.value))
  }

  function XpermArgs(action: Token, ts: seq<Token>): Option<Call> {
    var s := Sterm(ts);
    if s.Failed? then None else
    var t := Sterm(s.rest);
    if t.Failed? then None else
    var c := Sterm(t.rest);
    if c.Failed? then None else
    var i := Word("ioctl", c.rest);
    if i.Failed? then None else
    var p := Xperms(i.rest);
    if p.Failed? || p.rest != [] then None else Some(XpermRule(action, s.value, t.value, c.value, p.value))
  }

  function StateArgs(action: Token, ts: seq<Token>): Option<Call> {
    var t := Sterm(ts);
    if t.Failed? || t.rest != [] then None else Some(TypeState(action, t.value))
  }

  function AttributeArgs(ts: seq<Token>): Option<Call> {
    var t := Term(ts);
    if t.Failed? then None else
    var a := Term(t.rest);
    if a.Failed? || a.rest != [] then None else Some(TypeAttribute(t.value, a.value))
  }

  function TypeArgs(ts: seq<Token>): Option<Call> {
    var t := Id(ts);
    if t.Failed? then None
    else if t.rest == [] then Some(NewType(t.value, []))
    else
      var a := Term(t.rest);
      if a.Failed? || a.rest != [] then None else Some(NewType(t.value, a.value))
  }

  function NewAttributeArgs(ts: seq<Token>): Option<Call> {
    var t := Id(ts);
    if t.Failed? || t.rest != [] then None else Some(NewAttribute(t.value))
  }

  predicate AreIds(ts: seq<Token>) { forall i | 0 <= i < |ts| :: ts[i].ID? }

  function TypeRuleArgs(action: Token, ts: seq<Token>): Option<Call> {
    if |ts| != 4 || !AreIds(ts) then None
    else Some(TypeRule(action, ts[0].name, ts[1].name, ts[2].name, ts[3].name))
  }

  function TransitionArgs(ts: seq<Token>): Option<Call> {
    if !(4 <= |ts| <= 5) || !AreIds(ts) then None
    else Some(TypeTransition(ts[0].name, ts[1].name, ts[2].name, ts[3].name, if |ts| == 5 then ts[4].name else ""))
  }

  function GenfsArgs(ts: seq<Token>): Option<Call> {
    if |ts| != 3 || !AreIds(ts) then None else Some(GenfsCon(ts[0].name, ts[1].name, ts[2].name))
  }

  function Or(call: Option<Call>, error: ParseError): Result<Call, ParseError> {
    if call.Some? then Ok(call.value) else Err(error)
  }

  function Exec(ts: seq<Token>): Result<Call, ParseError> {
    if ts == [] then Err(ShowHelp)
    else
      var action, args := ts[0], ts[1..];
      match action
      case AL | DN | AA | DA => Or(RuleArgs(action, args), AvtabAv(action))
      case AX | AY | DX => Or(XpermArgs(action, args), AvtabXperms(action))
      case PM | EF => Or(StateArgs(action, args), BadTypeState(action))
      case TA => Or(AttributeArgs(args), TypeAttr)
      case TY => Or(TypeArgs(args), BadNewType)
      case AT => Or(NewAttributeArgs(args), BadNewAttr)
      case TC | TM => Or(TypeRuleArgs(action, args), AvtabType(action))
      case TT => Or(TransitionArgs(args), TypeTrans)
      case GF => Or(GenfsArgs(args), BadGenfsCon)
      case _ => Err(UnknownAction(action))
  }

  // ---- the parsers of the source ----

  /** What a parser may answer, given the function of the tokens ahead that specifies it. */
  ghost predicate Answers<T>(p: Parsed<T>, r: Result<T, ParseError>, rest: seq<Token>) {
    if p.Failed? then r == Err(General) else r == Ok(p.value) && rest == p.rest
  }

  class Parser {
    var tokens: seq<Token>
    var calls: seq<Call>

    constructor (ts: seq<Token>)
      ensures tokens == ts && calls == []
    {
      tokens, calls := ts, [];
    }

    method Next() returns (t: Option<Token>)
      modifies this`tokens
      ensures old(tokens) == [] ==> t == None && tokens == []
      ensures old(tokens) != [] ==> t == Some(old(tokens)[0]) && tokens == old(tokens)[1..]
    {
      if tokens == [] {
        return None;
      }
      t, tokens := Some(tokens[0]), tokens[1..];
    }

    function Peek(): Option<Token>
      reads this
    {
      if tokens == [] then None else Some(tokens[0])
    }

    method ParseId() returns (r: Result<string, ParseError>)
      modifies this`tokens
      ensures Answers(Id(old(tokens)), r, tokens)
    {
      var t := Next();
      match t {
        case Some(ID(name)) => return Ok(name);
        case _ => return Err(General);
      }
    }

    method ParseTerm() returns (r: Result<seq<string>, ParseError>)
      modifies this`tokens
      ensures Answers(Term(old(tokens)), r, tokens)
    {
      var t := Next();
      match t {
        case Some(ID(name)) => return Ok([name]);
        case Some(LB) =>
          var names := [];
          while true
            invariant Names(names, tokens) == Term(old(tokens))
            decreases |tokens|
          {
            var t := Next();
            match t {
              case Some(ID(name)) => names := names + [name];
              case Some(RB) => return Ok(names);
              case _ => return Err(General);
            }
          }
        case _ => return Err(General);
      }
    }

    method ParseSterm() returns (r: Result<seq<string>, ParseError>)
      modifies this`tokens
      ensures Answers(Sterm(old(tokens)), r, tokens)
    {
      var t := Next();
      match t {
        case Some(ID(name)) => return Ok([name]);
        case Some(ST) => return Ok([]);
        case Some(LB) =>
          var names := Some([]);
          while true
            invariant StarNames(names, tokens) == Sterm(old(tokens))
            decreases |tokens|
          {
            var t := Next();
            match t {
              case Some(ID(name)) =>
                if names.Some? {
                  names := Some(names.value + [name]);
                }
              case Some(ST) => names := None;
              case Some(RB) => return Ok(names.GetOr([]));
              case _ => return Err(General);
            }
          }
        case _ => return Err(General);
      }
    }

    method ParseXperm() returns (r: Result<Xperm, ParseError>)
      modifies this`tokens
      ensures Answers(Range(old(tokens)), r, tokens)
    {
      var t := Next();
      if !(t.Some? && t.value.HX?) {
        return Err(General);
      }
      var low := t.value.value;
      var high := low;
      if Peek() == Some(HP) {
        t := Next();
        t := Next();
        if !(t.Some? && t.value.HX?) {
          return Err(General);
        }
        high := t.value.value;
      }
      r := Ok(Xperm(low, high, false));
    }

    method ParseXperms() returns (r: Result<seq<Xperm>, ParseError>)
      modifies this`tokens
      ensures Answers(Xperms(old(tokens)), r, tokens)
    {
      var reset := false;
      if Peek() == Some(TL) {
        var tilde := Next();
        if Peek() != Some(LB) {
          return Err(General);
        }
        reset := true;
      }
      assert XpermsBody(reset, tokens) == Xperms(old(tokens));
      var t := Next();
      match t {
        case Some(LB) =>
          r := ParseXpermList(reset);
        case Some(ST) =>
          r := Ok([Xperm(0, 0xFFFF, reset)]);
        case Some(HX(low)) =>
          r := Ok([if low > 0 then Xperm(low, low, reset) else Xperm(0, 0xFFFF, reset)]);
        case _ =>
          r := Err(General);
      }
    }

    method ParseXpermList(reset: bool) returns (r: Result<seq<Xperm>, ParseError>)
      modifies this`tokens
      ensures Answers(Ranges([], reset, old(tokens)), r, tokens)
    {
      var xperms := [];
      while true
        invariant Ranges(xperms, reset, tokens) == Ranges([], reset, old(tokens))
        decreases |tokens|
      {
        var x := ParseXperm();
        if x.Err? {
          return Err(General);
        }
        xperms := xperms + [x.value.(reset := reset)];
        if Peek() == Some(RB) {
          var brace := Next();
          return Ok(xperms);
        }
      }
    }

    method MatchString(pattern: string) returns (r: Result<(), ParseError>)
      modifies this`tokens
      ensures Answers(Word(pattern, old(tokens)), r, tokens)
    {
      var t := Next();
      if t.Some? && t.value.ID? && t.value.name == pattern {
        return Ok(());
      }
      r := Err(General);
    }

    method ExecRule(action: Token) returns (ok: bool)
      modifies this
      ensures Made(RuleArgs(action, old(tokens)), ok, old(calls), calls)
    {
      hide Sterm;
      ok := false;
      var s := ParseSterm();
      if s.Err? { return; }
      var t := ParseSterm();
      if t.Err? { return; }
      var c := ParseSterm();
      if c.Err? { return; }
      var p := ParseSterm();
      if p.Err? || Peek().Some? { return; }
      calls := calls + [Rule(action, s.value, t.value, c.value, p.value)];
      ok := true;
    }

    method ExecXpermRule(action: Token) returns (ok: bool)
      modifies this
      ensures Made(XpermArgs(action, old(tokens)), ok, old(calls), calls)
    {
      hide Sterm, Xperms, Word;
      ok := false;
      var s := ParseSterm();
      if s.Err? { return; }
      var t := ParseSterm();
      if t.Err? { return; }
      var c := ParseSterm();
      if c.Err? { return; }
      var i := MatchString("ioctl");
      if i.Err? { return; }
      var p := ParseXperms();
      if p.Err? || Peek().Some? { return; }
      calls := calls + [XpermRule(action, s.value, t.value, c.value, p.value)];
      ok := true;
    }

    method ExecTypeState(action: Token) returns (ok: bool)
      modifies this
      ensures Made(StateArgs(action, old(tokens)), ok, old(calls), calls)
    {
      hide Sterm;
      ok := false;
      var t := ParseSterm();
      if t.Err? || Peek().Some? { return; }
      calls := calls + [TypeState(action, t.value)];
      ok := true;
    }

    method ExecTypeAttribute() returns (ok: bool)
      modifies this
      ensures Made(AttributeArgs(old(tokens)), ok, old(calls), calls)
    {
      hide Term;
      ok := false;
      var t := ParseTerm();
      if t.Err? { return; }
      var a := ParseTerm();
      if a.Err? || Peek().Some? { return; }
      calls := calls + [TypeAttribute(t.value, a.value)];
      ok := true;
    }

    method ExecType() returns (ok: bool)
      modifies this
      ensures Made(TypeArgs(old(tokens)), ok, old(calls), calls)
    {
      hide Term, Id;
      ok := false;
      var t := ParseId();
      if t.Err? { return; }
      var a := Ok([]);
      if Peek().Some? {
        a := ParseTerm();
      }
      if a.Err? || Peek().Some? { return; }
      calls := calls + [NewType(t.value, a.value)];
      ok := true;
    }

    method ExecAttribute() returns (ok: bool)
      modifies this
      ensures Made(NewAttributeArgs(old(tokens)), ok, old(calls), calls)
    {
      ok := false;
      var t := ParseId();
      if t.Err? || Peek().Some? { return; }
      calls := calls + [NewAttribute(t.value)];
      ok := true;
    }

    method ExecTypeRule(action: Token) returns (ok: bool)
      modifies this
      ensures Made(TypeRuleArgs(action, old(tokens)), ok, old(calls), calls)
    {
      ok := false;
      var s := ParseId();
      if s.Err? { return; }
      var t := ParseId();
      if t.Err? { return; }
      var c := ParseId();
      if c.Err? { return; }
      var d := ParseId();
      if d.Err? || Peek().Some? { return; }
      calls := calls + [TypeRule(action, s.value, t.value, c.value, d.value)];
      ok := true;
    }

    method ExecTransition() returns (ok: bool)
      modifies this
      ensures Made(TransitionArgs(old(tokens)), ok, old(calls), calls)
    {
      ok := false;
      var s := ParseId();
      if s.Err? { return; }
      var t := ParseId();
      if t.Err? { return; }
      var c := ParseId();
      if c.Err? { return; }
      var d := ParseId();
      if d.Err? { return; }
      var o := Ok("");
      if Peek().Some? {
        o := ParseId();
      }
      if o.Err? || Peek().Some? { return; }
      calls := calls + [TypeTransition(s.value, t.value, c.value, d.value, o.value)];
      ok := true;
    }

    method ExecGenfsCon() returns (ok: bool)
      modifies this
      ensures Made(GenfsArgs(old(tokens)), ok, old(calls), calls)
    {
      ok := false;
      var s := ParseId();
      if s.Err? { return; }
      var t := ParseId();
      if t.Err? { return; }
      var c := ParseId();
      if c.Err? || Peek().Some? { return; }
      calls := calls + [GenfsCon(s.value, t.value, c.value)];
      ok := true;
    }

    /** exec_statement: at most one call is made, and none if the statement is malformed. */
    method ExecStatement() returns (r: Result<(), ParseError>)
      modifies this
      ensures match Exec(old(tokens))
              case Ok(call) => r == Ok(()) && calls == old(calls) + [call]
              case Err(e) => r == Err(e) && calls == old(calls)
    {
      hide RuleArgs, XpermArgs, StateArgs, AttributeArgs, TypeArgs, NewAttributeArgs;
      hide TypeRuleArgs, TransitionArgs, GenfsArgs;
      var next := Next();
      if next.None? {
        return Err(ShowHelp);
      }
      var action := next.value;
      var ok;
      r := Ok(());
      match action {
        case AL | DN | AA | DA =>
          ok := ExecRule(action);
          if !ok { r := Err(AvtabAv(action)); }
        case AX | AY | DX =>
          ok := ExecXpermRule(action);
          if !ok { r := Err(AvtabXperms(action)); }
        case PM | EF =>
          ok := ExecTypeState(action);
          if !ok { r := Err(BadTypeState(action)); }
        case TA =>
          ok := ExecTypeAttribute();
          if !ok { r := Err(TypeAttr); }
        case TY =>
          ok := ExecType();
          if !ok { r := Err(BadNewType); }
        case AT =>
          ok := ExecAttribute();
          if !ok { r := Err(BadNewAttr); }
        case TC | TM =>
          ok := ExecTypeRule(action);
          if !ok { r := Err(AvtabType(action)); }
        case TT =>
          ok := ExecTransition();
          if !ok { r := Err(TypeTrans); }
        case GF =>
          ok := ExecGenfsCon();
          if !ok { r := Err(BadGenfsCon); }
        case _ =>
          r := Err(UnknownAction(action));
      }
    }
  }

  ghost predicate Made(call: Option<Call>, ok: bool, before: seq<Call>, after: seq<Call>) {
    && ok == call.Some?
    && after == if call.Some? then before + [call.value] else before
  }
}
