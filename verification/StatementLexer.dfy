/**
  Cutting a policy statement into tokens (native/src/sepolicy/statement.rs).
 */
module StatementLexer {
  import opened Wrappers

  datatype Token =
    | AL | DN | AA | DA | AX | AY | DX | PM | EF | TA | TY | AT | TT | TC | TM | GF
    | LB | RB | CM | ST | TL | HP
    | HX(value: u16)
    | ID(name: string)

  type u16 = x: nat | x < 0x10000

  // ---- words ----

  function Keyword(s: string): Option<Token> {
    if s == "allow" then Some(AL)
    else if s == "deny" then Some(DN)
    else if s == "auditallow" then Some(AA)
    else if s == "dontaudit" then Some(DA)
    else if s == "allowxperm" then Some(AX)
    else if s == "auditallowxperm" then Some(AY)
    else if s == "dontauditxperm" then Some(DX)
    else if s == "permissive" then Some(PM)
    else if s == "enforce" then Some(EF)
    else if s == "typeattribute" then Some(TA)
    else if s == "type" then Some(TY)
    else if s == "attribute" then Some(AT)
    else if s == "type_transition" then Some(TT)
    else if s == "type_change" then Some(TC)
    else if s == "type_member" then Some(TM)
    else if s == "genfscon" then Some(GF)
    else if s == "*" then Some(ST)
    else None
  }

  predicate IsDelimiter(c: char) { c == '{' || c == '}' || c == ',' || c == '-' }

  function Delimiter(c: char): Token
    requires IsDelimiter(c)
  {
    if c == '{' then LB else if c == '}' then RB else if c == ',' then CM else HP
  }

  predicate HasNoDelimiter(s: string) { forall i | 0 <= i < |s| :: !IsDelimiter(s[i]) }

  /** char::is_whitespace: the Unicode White_Space property. */
  predicate IsSpace(c: char) {
    var n := c as int;
    || 0x9 <= n <= 0xD || n == 0x20 || n == 0x85 || n == 0xA0 || n == 0x1680 || 0x2000 <= n <= 0x200A
    || n == 0x2028 || n == 0x2029 || n == 0x202F || n == 0x205F || n == 0x3000
  }

  predicate HasNoSpace(s: string) { forall i | 0 <= i < |s| :: !IsSpace(s[i]) }

  predicate IsDigit(c: char) { '0' <= c <= '9' }

  predicate IsNumber(s: string) { forall i | 0 <= i < |s| :: IsDigit(s[i]) }

  function Decimal(s: string): nat
    requires IsNumber(s)
  {
    if s == "" then 0
    else
      assert IsDigit(s[|s| - 1]);
      Decimal(s[..|s| - 1]) * 10 + (s[|s| - 1] as int - '0' as int)
  }

  /** str::parse::<u16>: decimal digits after an optional plus sign, below 2^16. */
  function ParseU16(s: string): Option<u16> {
    var d := if s != "" && s[0] == '+' then s[1..] else s;
    if d == "" || !IsNumber(d) || Decimal(d) > 0xFFFF then None else Some(Decimal(d))
  }

  /** The tokens of a word without delimiters. */
  function WordTokens(w: string): seq<Token> {
    if Keyword(w).Some? then [Keyword(w).value]
    else if w == "" then []
    else if w[0] == '~' then [TL] + WordTokens(w[1..])
    else if "0x" <= w then [HX(ParseU16(w[2..]).GetOr(0))]
    else [ID(w)]
  }

  // ---- the plain lexer ----

  /** One pass from left to right: a delimiter ends the word read so far. */
  function LexFrom(word: string, s: string): seq<Token>
    decreases |s|
  {
    if s == "" then WordTokens(word)
    else if IsDelimiter(s[0]) then WordTokens(word) + [Delimiter(s[0])] + LexFrom("", s[1..])
    else LexFrom(word + [s[0]], s[1..])
  }

  function Lex(s: string): seq<Token> { LexFrom("", s) }

  lemma {:induction false} LexWord(word: string, s: string)
    requires HasNoDelimiter(s)
    ensures LexFrom(word, s) == WordTokens(word + s)
    decreases |s|
  {
    hide WordTokens;
    if s == "" {
      assert word + s == word;
    } else {
      LexWord(word + [s[0]], s[1..]);
      assert word + [s[0]] + s[1..] == word + s;
    }
  }

  /** Cutting at any one delimiter, not only the first, gives the same tokens. */
  lemma {:induction false} LexCut(word: string, a: string, d: char, b: string)
    requires IsDelimiter(d)
    ensures LexFrom(word, a + [d] + b) == LexFrom(word, a) + [Delimiter(d)] + LexFrom("", b)
    decreases |a|
  {
    hide WordTokens;
    var s := a + [d] + b;
    if a == "" {
      assert s[1..] == b;
    } else {
      assert s[1..] == a[1..] + [d] + b;
      if IsDelimiter(a[0]) {
        LexCut("", a[1..], d, b);
      } else {
        LexCut(word + [a[0]], a[1..], d, b);
      }
    }
  }

  // ---- the tokenizer of the source ----

  method Find(s: string, c: char) returns (r: Option<nat>)
    ensures r.Some? ==> r.value < |s| && s[r.value] == c
    ensures r.None? ==> c !in s
  {
    for i := 0 to |s|
      invariant c !in s[..i]
    {
      if s[i] == c {
        return Some(i);
      }
    }
    r := None;
  }

  /** The kinds of delimiters are tried one after the other, each at its first occurrence. */
  method FindDelimiter(s: string) returns (r: Option<nat>)
    ensures r.Some? ==> r.value < |s| && IsDelimiter(s[r.value])
    ensures r.None? ==> HasNoDelimiter(s)
  {
    r := Find(s, '{');
    if r.None? {
      r := Find(s, '}');
      if r.None? {
        r := Find(s, ',');
        if r.None? {
          r := Find(s, '-');
        }
      }
    }
  }

  class Tokenizer {
    var tokens: seq<Token>

    constructor ()
      ensures tokens == []
    {
      tokens := [];
    }

    /** extract_token: the word is cut at a delimiter, and both halves are handled recursively. */
    method ExtractToken(s: string)
      modifies this
      ensures tokens == old(tokens) + Lex(s)
      decreases |s|
    {
      hide WordTokens, Keyword;
      var word := Keyword(s);
      if word.Some? {
        KeywordIsWord(s);
        tokens := tokens + [word.value];
        return;
      }
      if s == "" {
        LexNothing();
        return;
      }
      var idx := FindDelimiter(s);
      if idx.Some? {
        var d := s[idx.value];
        var a, b := s[..idx.value], s[idx.value + 1..];
        assert s == a + [d] + b;
        LexCut("", a, d, b);
        ExtractToken(a);
        tokens := tokens + [Delimiter(d)];
        ExtractToken(b);
        return;
      }
      LexWord("", s);
      assert "" + s == s;
      WordCases(s);
      if s[0] == '~' {
        tokens := tokens + [TL];
        LexWord("", s[1..]);
        assert "" + s[1..] == s[1..];
        ExtractToken(s[1..]);
      } else if "0x" <= s {
        tokens := tokens + [HX(ParseU16(s[2..]).GetOr(0))];
      } else {
        tokens := tokens + [ID(s)];
      }
    }
  }

  lemma {:induction false} WordCases(w: string)
    requires Keyword(w).None? && w != ""
    ensures WordTokens(w) == if w[0] == '~' then [TL] + WordTokens(w[1..])
                             else if "0x" <= w then [HX(ParseU16(w[2..]).GetOr(0))]
                             else [ID(w)]
  {
  }

  lemma LexNothing()
    ensures Lex("") == []
  {
  }

  lemma KeywordIsWord(s: string)
    requires Keyword(s).Some?
    ensures Lex(s) == [Keyword(s).value]
  {
    hide Keyword;
    KeywordIsPlain(s);
    LexWord("", s);
    assert "" + s == s;
    KeywordTokens(s);
  }

  lemma {:induction false} KeywordTokens(s: string)
    requires Keyword(s).Some?
    ensures WordTokens(s) == [Keyword(s).value]
  {
    hide Keyword;
  }

  predicate IsPlain(s: string) { HasNoDelimiter(s) && HasNoSpace(s) }

  predicate HasOnlyLetters(s: string) {
    forall i | 0 <= i < |s| :: 'a' <= s[i] <= 'z' || s[i] == '_' || s[i] == '*'
  }

  lemma KeywordsAreLetters()
    ensures HasOnlyLetters("allow") && HasOnlyLetters("deny") && HasOnlyLetters("auditallow")
    ensures HasOnlyLetters("dontaudit") && HasOnlyLetters("allowxperm")
    ensures HasOnlyLetters("auditallowxperm") && HasOnlyLetters("dontauditxperm")
    ensures HasOnlyLetters("permissive") && HasOnlyLetters("enforce") && HasOnlyLetters("typeattribute")
    ensures HasOnlyLetters("type") && HasOnlyLetters("attribute")
    ensures HasOnlyLetters("type_transition") && HasOnlyLetters("type_change") && HasOnlyLetters("type_member")
    ensures HasOnlyLetters("genfscon") && HasOnlyLetters("*")
  {
  }

  lemma KeywordIsPlain(s: string)
    requires Keyword(s).Some?
    ensures IsPlain(s)
  {
    assert HasOnlyLetters(s) by {
      hide HasOnlyLetters, IsPlain;
      KeywordsAreLetters();
    }
    hide Keyword;
  }

  // ---- whole statements ----

  /** The length of the first run of characters that are not white space. */
  function Run(s: string): (n: nat)
    ensures n <= |s| && HasNoSpace(s[..n])
    ensures n < |s| ==> IsSpace(s[n])
  {
    if s == "" || IsSpace(s[0]) then 0
    else
      var n := Run(s[1..]);
      assert s[..n + 1] == [s[0]] + s[1..][..n];
      n + 1
  }

  /** str::split_whitespace */
  function Words(s: string): seq<string>
    decreases |s|
  {
    if s == "" then []
    else if IsSpace(s[0]) then Words(s[1..])
    else [s[..Run(s)]] + Words(s[Run(s)..])
  }

  function LexAll(ws: seq<string>): seq<Token> {
    if ws == [] then [] else LexAll(ws[..|ws| - 1]) + Lex(ws[|ws| - 1])
  }

  /** The single left-to-right lexer: white space and delimiters both end a word. */
  function Scan(word: string, s: string): seq<Token>
    decreases |s|
  {
    if s == "" then WordTokens(word)
    else if IsSpace(s[0]) then WordTokens(word) + Scan("", s[1..])
    else if IsDelimiter(s[0]) then WordTokens(word) + [Delimiter(s[0])] + Scan("", s[1..])
    else Scan(word + [s[0]], s[1..])
  }

  function Tokens(s: string): seq<Token> { Scan("", s) }

  lemma {:induction false} LexIsScan(word: string, s: string)
    requires HasNoSpace(s)
    ensures LexFrom(word, s) == Scan(word, s)
    decreases |s|
  {
    hide WordTokens;
    if s != "" {
      LexIsScan(if IsDelimiter(s[0]) then "" else word + [s[0]], s[1..]);
    }
  }

  /** White space separates: what stands before it does not change what follows. */
  lemma {:induction false} ScanCut(word: string, a: string, c: char, b: string)
    requires IsSpace(c)
    ensures Scan(word, a + [c] + b) == Scan(word, a) + Tokens(b)
    decreases |a|
  {
    hide WordTokens;
    var s := a + [c] + b;
    if a == "" {
      assert s[1..] == b;
    } else {
      assert s[1..] == a[1..] + [c] + b;
      ScanCut(if IsSpace(a[0]) || IsDelimiter(a[0]) then "" else word + [a[0]], a[1..], c, b);
    }
  }

  lemma NoWord()
    ensures WordTokens("") == []
  {
  }

  lemma {:induction false} LexAllFirst(w: string, ws: seq<string>)
    ensures LexAll([w] + ws) == Lex(w) + LexAll(ws)
  {
    hide Lex;
    var all := [w] + ws;
    if ws == [] {
      assert all[..0] == [];
    } else {
      LexAllFirst(w, ws[..|ws| - 1]);
      assert all[..|all| - 1] == [w] + ws[..|ws| - 1];
    }
  }

  lemma {:induction false} WordsAreScanned(s: string)
    ensures LexAll(Words(s)) == Tokens(s)
    decreases |s|
  {
    hide WordTokens, LexAll;
    NoWord();
    if s == "" {
      LexNoWords();
    } else if IsSpace(s[0]) {
      WordsAreScanned(s[1..]);
    } else {
      var n := Run(s);
      var w, rest := s[..n], s[n..];
      LexAllFirst(w, Words(rest));
      LexIsScan("", w);
      WordsAreScanned(rest);
      if rest == "" {
        assert w == s;
      } else {
        assert s == w + [s[n]] + rest[1..];
        ScanCut("", w, s[n], rest[1..]);
      }
    }
  }

  lemma LexNoWords()
    ensures LexAll([]) == []
  {
  }

  method TokenizeStatement(statement: string) returns (tokens: seq<Token>)
    ensures tokens == Tokens(statement)
  {
    hide Words, Scan, Lex;
    var t := new Tokenizer();
    var words := Words(statement);
    for i := 0 to |words|
      invariant t.tokens == LexAll(words[..i])
    {
      t.ExtractToken(words[i]);
      assert words[..i + 1][..i] == words[..i];
    }
    assert words[..|words|] == words;
    WordsAreScanned(statement);
    tokens := t.tokens;
  }

  // ---- printing ----

  function HexChar(d: nat): char
    requires d < 16
  {
    "0123456789ABCDEF"[d]
  }

  function Display(t: Token): string {
    match t
    case AL => "allow"
    case DN => "deny"
    case AA => "auditallow"
    case DA => "dontaudit"
    case AX => "allowxperm"
    case AY => "auditallowxperm"
    case DX => "dontauditxperm"
    case PM => "permissive"
    case EF => "enforce"
    case TA => "typeattribute"
    case TY => "type"
    case AT => "attribute"
    case TT => "type_transition"
    case TC => "type_change"
    case TM => "type_member"
    case GF => "genfscon"
    case LB => "{"
    case RB => "}"
    case CM => ","
    case ST => "*"
    case TL => "~"
    case HP => "-"
    case HX(n) => ['0', '0', HexChar(n / 4096), HexChar(n / 256 % 16), HexChar(n / 16 % 16), HexChar(n % 16)]
    case ID(s) => s
  }

  /** The tokens of a statement, each followed by a space. */
  function Print(ts: seq<Token>): string {
    if ts == [] then "" else Display(ts[0]) + " " + Print(ts[1..])
  }

  /** A word that is not taken for anything but a name. */
  predicate IsName(s: string) {
    s != "" && IsPlain(s) && Keyword(s).None? && s[0] != '~' && !("0x" <= s)
  }

  predicate IsPrintable(t: Token) { !t.HX? && (t.ID? ==> IsName(t.name)) }

  ghost predicate NamesAreNames(ts: seq<Token>) {
    forall i | 0 <= i < |ts| && ts[i].ID? :: IsName(ts[i].name)
  }

  lemma {:induction false} WordGivesNames(w: string)
    requires IsPlain(w)
    ensures NamesAreNames(WordTokens(w))
  {
    hide Keyword;
    if Keyword(w).Some? {
      KeywordIsNoName(w);
    } else if w != "" && w[0] == '~' {
      WordGivesNames(w[1..]);
    }
  }

  lemma KeywordIsNoName(w: string)
    requires Keyword(w).Some?
    ensures !Keyword(w).value.ID?
  {
  }

  /** Whatever is read, every name in it could be printed and read again. */
  lemma {:induction false} ScanGivesNames(word: string, s: string)
    requires IsPlain(word)
    ensures NamesAreNames(Scan(word, s))
    decreases |s|
  {
    hide WordTokens, IsName;
    WordGivesNames(word);
    if s != "" {
      ScanGivesNames(if IsSpace(s[0]) || IsDelimiter(s[0]) then "" else word + [s[0]], s[1..]);
    }
  }

  lemma {:induction false} PlainWord(s: string)
    requires IsPlain(s)
    ensures Tokens(s) == WordTokens(s)
  {
    hide WordTokens;
    LexIsScan("", s);
    LexWord("", s);
    assert "" + s == s;
  }

  lemma KeywordReadsBack(t: Token)
    requires Keyword(Display(t)) == Some(t)
    ensures Tokens(Display(t)) == [t]
  {
    hide Keyword, Display, IsPlain;
    KeywordIsPlain(Display(t));
    PlainWord(Display(t));
    KeywordTokens(Display(t));
  }

  lemma DisplayReadsBack(t: Token)
    requires IsPrintable(t)
    ensures Tokens(Display(t)) == [t]
  {
    match t {
      case ID(s) => PlainWord(s); WordCases(s);
      case LB | RB | CM | HP => Symbols();
      case TL => Tilde();
      case _ => KeywordReadsBack(t);
    }
  }

  lemma Symbols()
    ensures Tokens("{") == [LB] && Tokens("}") == [RB] && Tokens(",") == [CM] && Tokens("-") == [HP]
  {
  }

  lemma Tilde()
    ensures Tokens("~") == [TL]
  {
    PlainWord("~");
    WordCases("~");
    NoWord();
  }

  /** Hexadecimal numbers are printed without their prefix, so they come back as names. */
  function Reread(t: Token): Token { if t.HX? then ID(Display(t)) else t }

  lemma HexIsPlain(n: u16)
    ensures IsPlain(Display(HX(n)))
  {
    hide HexChar, Keyword;
    forall d: nat | d < 16 ensures !IsSpace(HexChar(d)) && !IsDelimiter(HexChar(d)) { HexCharIsPlain(d); }
  }

  lemma HexCharIsPlain(d: nat)
    requires d < 16
    ensures !IsSpace(HexChar(d)) && !IsDelimiter(HexChar(d))
  {
  }

  lemma HexReadsAsName(t: Token)
    requires t.HX?
    ensures Tokens(Display(t)) == [ID(Display(t))]
  {
    hide IsPlain, Keyword, HexChar, Scan, WordTokens;
    var s := Display(t);
    NotKeyword(s);
    HexIsPlain(t.value);
    PlainWord(s);
    WordCases(s);
    assert s[1] == '0' && "0x"[1] == 'x';
  }

  lemma NotKeyword(s: string)
    requires s != "" && s[0] == '0'
    ensures Keyword(s).None?
  {
  }

  lemma {:induction false} PrintedTokens(ts: seq<Token>)
    requires NamesAreNames(ts)
    ensures |Tokens(Print(ts))| == |ts|
    ensures forall i | 0 <= i < |ts| :: Tokens(Print(ts))[i] == Reread(ts[i])
  {
    hide Display, Scan, IsName;
    if ts == [] {
      NothingToScan();
    } else {
      var t := ts[0];
      ScanCut("", Display(t), ' ', Print(ts[1..]));
      assert Print(ts) == Display(t) + [' '] + Print(ts[1..]);
      assert Tokens(Display(t)) == [Reread(t)] by {
        if t.HX? { HexReadsAsName(t); } else { DisplayReadsBack(t); }
      }
      PrintedTokens(ts[1..]);
    }
  }

  lemma NothingToScan()
    ensures Tokens("") == []
  {
  }

  /** Tokenizing a printed statement gives the statement back exactly when it has no hexadecimal number and
      every name in it is a name. */
  lemma {:induction false} PrintReadsBack(ts: seq<Token>)
    ensures Tokens(Print(ts)) == ts <==> forall i | 0 <= i < |ts| :: IsPrintable(ts[i])
  {
    hide Scan, Print, IsName, Display;
    ScanGivesNames("", Print(ts));
    if Tokens(Print(ts)) == ts || forall i | 0 <= i < |ts| :: IsPrintable(ts[i]) {
      PrintedTokens(ts);
    }
  }

  // ---- hexadecimal numbers ----

  predicate IsHex(c: char) { IsDigit(c) || 'a' <= c <= 'f' || 'A' <= c <= 'F' }

  function HexDigit(c: char): nat
    requires IsHex(c)
  {
    if IsDigit(c) then c as int - '0' as int
    else if 'a' <= c <= 'f' then c as int - 'a' as int + 10
    else c as int - 'A' as int + 10
  }

  function HexValue(s: string): nat
    requires forall i | 0 <= i < |s| :: IsHex(s[i])
  {
    if s == "" then 0
    else
      assert IsHex(s[|s| - 1]);
      HexValue(s[..|s| - 1]) * 16 + HexDigit(s[|s| - 1])
  }

  lemma {:induction false} DecimalBelowHex(s: string)
    requires IsNumber(s)
    ensures Decimal(s) <= HexValue(s)
    ensures Decimal(s) == HexValue(s) <==> HexValue(s) <= 9
  {
    if s != "" {
      DecimalBelowHex(s[..|s| - 1]);
      assert IsDigit(s[|s| - 1]);
    }
  }

  lemma {:induction false} LettersAreLarge(s: string, k: nat)
    requires forall i | 0 <= i < |s| :: IsHex(s[i])
    requires k < |s| && !IsDigit(s[k])
    ensures HexValue(s) > 9
  {
    assert IsHex(s[|s| - 1]);
    if k < |s| - 1 {
      LettersAreLarge(s[..|s| - 1], k);
    }
  }

  /** A literal 0x… is read as a decimal number (and as 0 when it has letters or is too large), so it has the
      value it is written with exactly when that is at most 9. */
  lemma {:induction false} HexLiteral(s: string)
    requires s != "" && forall i | 0 <= i < |s| :: IsHex(s[i])
    ensures |Lex("0x" + s)| == 1 && Lex("0x" + s)[0].HX?
    ensures Lex("0x" + s)[0].value == HexValue(s) <==> HexValue(s) <= 9
  {
    hide LexFrom, WordTokens, Keyword, HexValue, Decimal;
    var w := "0x" + s;
    HexWord(s);
    assert s[0] != '+' by { assert IsHex(s[0]); }
    if IsNumber(s) {
      DecimalBelowHex(s);
    } else {
      var k :| 0 <= k < |s| && !IsDigit(s[k]);
      LettersAreLarge(s, k);
    }
  }

  lemma HexWord(s: string)
    requires forall i | 0 <= i < |s| :: IsHex(s[i])
    ensures Lex("0x" + s) == [HX(ParseU16(s).GetOr(0))]
  {
    hide LexFrom, WordTokens, Keyword, ParseU16;
    var w := "0x" + s;
    NotKeyword(w);
    assert HasNoDelimiter(w) by {
      forall i | 0 <= i < |s| ensures !IsDelimiter(s[i]) { assert IsHex(s[i]); }
    }
    LexWord("", w);
    assert "" + w == w;
    WordCases(w);
    assert w[2..] == s;
  }
}
