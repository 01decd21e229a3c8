/**
 `cfg(...)` expressions of src/cargo/util/cfg.rs: the tokenizer and the recursive-descent
 parser as functions on what is left of their input, the printer, and what they promise
 each other.
 */
module CfgSpec {
  import opened Collections

  datatype Cfg = Name(name: string) | KeyPair(key: string, value: string)

  datatype CfgExpr = Not(e: CfgExpr) | All(es: seq<CfgExpr>) | Any(es: seq<CfgExpr>) | Value(cfg: Cfg)

  datatype Token = LeftParen | RightParen | Ident(name: string) | Comma | Equals | Str(text: string)

  /** What the tokenizer yields: a token, or an error it carries on after. */
  datatype Item = Tok(token: Token) | Bad

  datatype Parse<+T> = Ok(value: T, rest: seq<Item>) | Err

  // ---- tokenizer ----

  predicate IsIdentStart(ch: char) {
    ch == '_' || 'a' <= ch <= 'z' || 'A' <= ch <= 'Z'
  }

  predicate IsIdentRest(ch: char) {
    IsIdentStart(ch) || '0' <= ch <= '9'
  }

  /** Length of the longest prefix whose characters may continue an identifier. */
  function IdentSpan(s: string): (n: nat)
    ensures n <= |s| && (n < |s| ==> !IsIdentRest(s[n])) && forall i :: 0 <= i < n ==> IsIdentRest(s[i])
  {
    if s == "" || !IsIdentRest(s[0]) then 0 else 1 + IdentSpan(s[1..])
  }

  /** Position of the first double quote, or the length if there is none. */
  function QuoteAt(s: string): (n: nat)
    ensures n <= |s| && (n < |s| ==> s[n] == '"') && forall i :: 0 <= i < n ==> s[i] != '"'
  {
    if s == "" || s[0] == '"' then 0 else 1 + QuoteAt(s[1..])
  }

  function NextItem(s: string): (r: Option<(Item, string)>)
    ensures r.Some? ==> |r.value.1| < |s|
  {
    if s == "" then None
    else match s[0]
      case ' ' => NextItem(s[1..])
      case '(' => Some((Tok(LeftParen), s[1..]))
      case ')' => Some((Tok(RightParen), s[1..]))
      case ',' => Some((Tok(Comma), s[1..]))
      case '=' => Some((Tok(Equals), s[1..]))
      case '"' =>
        var n := QuoteAt(s[1..]);
        if n == |s| - 1 then Some((Bad, "")) else Some((Tok(Str(s[1..n + 1])), s[n + 2..]))
      case ch =>
        if IsIdentStart(ch) then
          var n := 1 + IdentSpan(s[1..]);
          Some((Tok(Ident(s[..n])), s[n..]))
        else Some((Bad, s[1..]))
  }

  function Items(s: string): seq<Item>
    decreases |s|
  {
    match NextItem(s)
    case None => []
    case Some((item, rest)) => [item] + Items(rest)
  }

  // ---- parser ----

  predicate Starts(ts: seq<Item>, t: Token) {
    ts != [] && ts[0] == Tok(t)
  }

  function ParseCfg(ts: seq<Item>): (r: Parse<Cfg>)
    ensures r.Ok? ==> |r.rest| < |ts|
  {
    if ts == [] || !ts[0].Tok? || !ts[0].token.Ident? then Err
    else if !Starts(ts[1..], Equals) then Ok(Name(ts[0].token.name), ts[1..])
    else if |ts| > 2 && ts[2].Tok? && ts[2].token.Str? then Ok(KeyPair(ts[0].token.name, ts[2].token.text), ts[3..])
    else Err
  }

  function ParseExpr(ts: seq<Item>): (r: Parse<CfgExpr>)
    ensures r.Ok? ==> |r.rest| < |ts|
    decreases |ts|, 0
  {
    if Starts(ts, Ident("all")) || Starts(ts, Ident("any")) then
      if !Starts(ts[1..], LeftParen) then Err
      else match ParseList(ts[2..])
        case Err => Err
        case Ok(es, rest) => Ok(if ts[0].token.name == "all" then All(es) else Any(es), rest)
    else if Starts(ts, Ident("not")) then
      if !Starts(ts[1..], LeftParen) then Err
      else match ParseExpr(ts[2..])
        case Err => Err
        case Ok(e, rest) => if Starts(rest, RightParen) then Ok(Not(e), rest[1..]) else Err
    else match ParseCfg(ts)
      case Err => Err
      case Ok(cfg, rest) => Ok(Value(cfg), rest)
  }

  /** The loop after `all(` or `any(`, up to and including the closing parenthesis. */
  function ParseList(ts: seq<Item>): (r: Parse<seq<CfgExpr>>)
    ensures r.Ok? ==> |r.rest| < |ts|
    decreases |ts|, 1
  {
    if Starts(ts, RightParen) then Ok([], ts[1..])
    else match ParseExpr(ts)
      case Err => Err
      case Ok(e, rest) =>
        if Starts(rest, Comma) then
          match ParseList(rest[1..])
          case Err => Err
          case Ok(es, rest') => Ok([e] + es, rest')
        else if Starts(rest, RightParen) then Ok([e], rest[1..])
        else Err
  }

  function FromStr(s: string): Option<CfgExpr> {
    match ParseExpr(Items(s))
    case Ok(e, rest) => if rest == [] then Some(e) else None
    case Err => None
  }

  function CfgFromStr(s: string): Option<Cfg> {
    match ParseCfg(Items(s))
    case Ok(c, rest) => if rest == [] then Some(c) else None
    case Err => None
  }

  // ---- printer and meaning ----

  function CfgToString(c: Cfg): string {
    match c
    case Name(n) => n
    case KeyPair(k, v) => k + " = \"" + v + "\""
  }

  function ToString(e: CfgExpr): string
    decreases e, 1
  {
    match e
    case Not(x) => "not(" + ToString(x) + ")"
    case All(es) => "all(" + CommaSep(es) + ")"
    case Any(es) => "any(" + CommaSep(es) + ")"
    case Value(c) => CfgToString(c)
  }

  function CommaSep(es: seq<CfgExpr>): string
    decreases es, 0
  {
    if es == [] then "" else if |es| == 1 then ToString(es[0]) else ToString(es[0]) + ", " + CommaSep(es[1..])
  }

  predicate Matches(e: CfgExpr, cfg: seq<Cfg>) {
    match e
    case Not(x) => !Matches(x, cfg)
    case All(es) => forall i :: 0 <= i < |es| ==> Matches(es[i], cfg)
    case Any(es) => exists i :: 0 <= i < |es| && Matches(es[i], cfg)
    case Value(c) => c in cfg
  }

  predicate MatchesKey(key: string, cfg: seq<Cfg>) {
    |key| >= 5 && key[..4] == "cfg(" && key[|key| - 1] == ')' &&
    match FromStr(key[4..|key| - 1])
    case Some(e) => Matches(e, cfg)
    case None => false
  }

  // ---- the printable expressions ----

  predicate IsIdent(s: string) {
    s != "" && IsIdentStart(s[0]) && forall i :: 0 <= i < |s| ==> IsIdentRest(s[i])
  }

  predicate IsQuotable(s: string) {
    forall i :: 0 <= i < |s| ==> s[i] != '"'
  }

  predicate WellFormedCfg(c: Cfg) {
    match c
    case Name(n) => IsIdent(n)
    case KeyPair(k, v) => IsIdent(k) && IsQuotable(v)
  }

  function HeadName(c: Cfg): string {
    match c case Name(n) => n case KeyPair(k, _) => k
  }

  predicate WellFormed(e: CfgExpr) {
    match e
    case Not(x) => WellFormed(x)
    case All(es) => forall i :: 0 <= i < |es| ==> WellFormed(es[i])
    case Any(es) => forall i :: 0 <= i < |es| ==> WellFormed(es[i])
    case Value(c) => WellFormedCfg(c) && HeadName(c) !in {"all", "any", "not"}
  }

  /** The tokens of a printed expression. */
  function CfgItems(c: Cfg): seq<Item> {
    match c
    case Name(n) => [Tok(Ident(n))]
    case KeyPair(k, v) => [Tok(Ident(k)), Tok(Equals), Tok(Str(v))]
  }

  function ExprItems(e: CfgExpr): seq<Item>
    decreases e, 1
  {
    match e
    case Not(x) => [Tok(Ident("not")), Tok(LeftParen)] + ExprItems(x) + [Tok(RightParen)]
    case All(es) => [Tok(Ident("all")), Tok(LeftParen)] + CommaItems(es) + [Tok(RightParen)]
    case Any(es) => [Tok(Ident("any")), Tok(LeftParen)] + CommaItems(es) + [Tok(RightParen)]
    case Value(c) => CfgItems(c)
  }

  function CommaItems(es: seq<CfgExpr>): seq<Item>
    decreases es, 0
  {
    if es == [] then [] else if |es| == 1 then ExprItems(es[0])
    else ExprItems(es[0]) + [Tok(Comma)] + CommaItems(es[1..])
  }

  // ---- printing then tokenizing ----

  /** An identifier that ends where `tail` begins. */
  predicate Boundary(tail: string) {
    tail == "" || !IsIdentRest(tail[0])
  }

  lemma {:induction false} IdentSpanOf(s: string, tail: string)
    requires Boundary(tail) && forall i :: 0 <= i < |s| ==> IsIdentRest(s[i])
    ensures IdentSpan(s + tail) == |s|
  {
    if s == "" {
      assert s + tail == tail;
    } else {
      assert (s + tail)[1..] == s[1..] + tail;
      IdentSpanOf(s[1..], tail);
    }
  }

  lemma IdentItem(n: string, tail: string)
    requires IsIdent(n) && Boundary(tail)
    ensures Items(n + tail) == [Tok(Ident(n))] + Items(tail)
  {
    var s := n + tail;
    assert s[0] == n[0] && s[1..] == n[1..] + tail;
    IdentSpanOf(n[1..], tail);
    assert s[..|n|] == n && s[|n|..] == tail;
  }

  lemma {:induction false} QuoteAtEnd(v: string, tail: string)
    requires IsQuotable(v)
    ensures QuoteAt(v + "\"" + tail) == |v|
  {
    var s := v + "\"" + tail;
    if v == "" {
      assert s[0] == '"';
    } else {
      assert s[1..] == v[1..] + "\"" + tail && s[0] == v[0];
      QuoteAtEnd(v[1..], tail);
    }
  }

  lemma QuotedText(v: string, tail: string)
    ensures var s := "\"" + v + "\"" + tail;
      s[1..] == v + "\"" + tail && s[1..|v| + 1] == v && s[|v| + 2..] == tail
  {
    var s := "\"" + v + "\"" + tail;
    assert s == "\"" + (v + ("\"" + tail));
  }

  lemma StrItem(v: string, tail: string)
    requires IsQuotable(v)
    ensures Items("\"" + v + "\"" + tail) == [Tok(Str(v))] + Items(tail)
  {
    var s := "\"" + v + "\"" + tail;
    QuotedText(v, tail);
    QuoteAtEnd(v, tail);
    assert s[0] == '"';
  }

  lemma SpaceIsSkipped(tail: string)
    ensures Items(" " + tail) == Items(tail)
  {
    assert (" " + tail)[1..] == tail;
  }

  lemma KeyPairText(k: string, v: string, tail: string)
    ensures CfgToString(KeyPair(k, v)) + tail == k + (" " + ("=" + (" " + ("\"" + v + "\"" + tail))))
  {
    var eq, quoted := " " + ("=" + " "), "\"" + v + "\"";
    assert " = \"" == eq + "\"";
    calc {
      k + " = \"" + v + "\"" + tail;
    == { Associates(k, eq + "\"", v); Associates(eq, "\"", v);
         Associates(k, eq + ("\"" + v), "\""); Associates(eq, "\"" + v, "\""); }
      k + (eq + quoted) + tail;
    == { Associates(k, eq + quoted, tail); Associates(eq, quoted, tail); }
      k + (eq + (quoted + tail));
    == { Associates(" ", "=" + " ", quoted + tail); Associates("=", " ", quoted + tail); }
      k + (" " + ("=" + (" " + (quoted + tail))));
    }
  }

  lemma SeparatorText(a: string, b: string, tail: string)
    ensures a + ", " + b + tail == a + ("," + (" " + (b + tail)))
  {
    assert ", " == "," + " ";
    Associates(a + ", ", b, tail);
    Associates(a, ", ", b + tail);
    Associates(",", " ", b + tail);
  }

  lemma EqualsItem(s: string)
    ensures Items(" " + ("=" + (" " + s))) == [Tok(Equals)] + Items(s)
  {
    SpaceIsSkipped("=" + (" " + s));
    SpaceIsSkipped(s);
  }

  lemma TokenizeKeyPair(k: string, v: string, tail: string)
    requires IsIdent(k) && IsQuotable(v)
    ensures Items(k + (" " + ("=" + (" " + ("\"" + v + "\"" + tail))))) ==
            [Tok(Ident(k)), Tok(Equals), Tok(Str(v))] + Items(tail)
  {
    var s := "\"" + v + "\"" + tail;
    IdentItem(k, " " + ("=" + (" " + s)));
    EqualsItem(s);
    StrItem(v, tail);
  }

  lemma TokenizePrintedCfg(c: Cfg, tail: string)
    requires WellFormedCfg(c) && Boundary(tail)
    ensures Items(CfgToString(c) + tail) == CfgItems(c) + Items(tail)
  {
    match c {
      case Name(n) => IdentItem(n, tail);
      case KeyPair(k, v) =>
        KeyPairText(k, v, tail);
        TokenizeKeyPair(k, v, tail);
    }
  }

  lemma OpenItems(op: string, r: string)
    requires IsIdent(op)
    ensures Items(op + ("(" + r)) == [Tok(Ident(op)), Tok(LeftParen)] + Items(r)
  {
    IdentItem(op, "(" + r);
  }

  /** `op(` followed by `inner`, the closing parenthesis and `tail`. */
  lemma TokenizeCall(text: string, op: string, inner: string, items: seq<Item>, tail: string)
    requires IsIdent(op) && text == op + "(" + inner + ")"
    requires Items(inner + (")" + tail)) == items + Items(")" + tail)
    ensures Items(text + tail) == [Tok(Ident(op)), Tok(LeftParen)] + items + [Tok(RightParen)] + Items(tail)
  {
    var r := inner + (")" + tail);
    CallText(op, inner, tail);
    OpenItems(op, r);
    Associates([Tok(Ident(op)), Tok(LeftParen)] + items, [Tok(RightParen)], Items(tail));
    Associates([Tok(Ident(op)), Tok(LeftParen)], items, [Tok(RightParen)] + Items(tail));
  }

  lemma CallText(op: string, inner: string, tail: string)
    ensures op + "(" + inner + ")" + tail == op + ("(" + (inner + (")" + tail)))
  {
    Associates(op + "(" + inner, ")", tail);
    Associates(op + "(", inner, ")" + tail);
    Associates(op, "(", inner + (")" + tail));
  }

  lemma AllText(inner: string)
    ensures "all(" + inner + ")" == "all" + "(" + inner + ")"
  {
    assert "all(" == "all" + "(";
  }

  lemma AnyText(inner: string)
    ensures "any(" + inner + ")" == "any" + "(" + inner + ")"
  {
    assert "any(" == "any" + "(";
  }

  lemma NotText(inner: string)
    ensures "not(" + inner + ")" == "not" + "(" + inner + ")"
  {
    assert "not(" == "not" + "(";
  }

  lemma {:induction false} TokenizePrinted(e: CfgExpr, tail: string)
    requires WellFormed(e) && Boundary(tail)
    ensures Items(ToString(e) + tail) == ExprItems(e) + Items(tail)
    decreases e, 1
  {
    match e {
      case Not(x) =>
        TokenizePrinted(x, ")" + tail);
        TokenizeNot(x, tail);
      case All(es) =>
        TokenizePrintedList(es, ")" + tail);
        TokenizeAll(es, tail);
      case Any(es) =>
        TokenizePrintedList(es, ")" + tail);
        TokenizeAny(es, tail);
      case Value(c) =>
        TokenizePrintedCfg(c, tail);
    }
  }

  lemma TokenizeNot(x: CfgExpr, tail: string)
    requires Items(ToString(x) + (")" + tail)) == ExprItems(x) + Items(")" + tail)
    ensures Items(ToString(Not(x)) + tail) == ExprItems(Not(x)) + Items(tail)
  {
    NotText(ToString(x));
    TokenizeCall("not(" + ToString(x) + ")", "not", ToString(x), ExprItems(x), tail);
  }

  lemma TokenizeAll(es: seq<CfgExpr>, tail: string)
    requires Items(CommaSep(es) + (")" + tail)) == CommaItems(es) + Items(")" + tail)
    ensures Items(ToString(All(es)) + tail) == ExprItems(All(es)) + Items(tail)
  {
    AllText(CommaSep(es));
    TokenizeCall("all(" + CommaSep(es) + ")", "all", CommaSep(es), CommaItems(es), tail);
  }

  lemma TokenizeAny(es: seq<CfgExpr>, tail: string)
    requires Items(CommaSep(es) + (")" + tail)) == CommaItems(es) + Items(")" + tail)
    ensures Items(ToString(Any(es)) + tail) == ExprItems(Any(es)) + Items(tail)
  {
    AnyText(CommaSep(es));
    TokenizeCall("any(" + CommaSep(es) + ")", "any", CommaSep(es), CommaItems(es), tail);
  }

  lemma TokenizeSeparator(es: seq<CfgExpr>, tail: string)
    requires |es| > 1
    ensures CommaSep(es) + tail == ToString(es[0]) + ("," + (" " + (CommaSep(es[1..]) + tail)))
    ensures Items("," + (" " + (CommaSep(es[1..]) + tail))) == [Tok(Comma)] + Items(CommaSep(es[1..]) + tail)
  {
    var r := CommaSep(es[1..]) + tail;
    SeparatorText(ToString(es[0]), CommaSep(es[1..]), tail);
    SpaceIsSkipped(r);
  }

  lemma {:induction false} TokenizePrintedList(es: seq<CfgExpr>, tail: string)
    requires (forall i :: 0 <= i < |es| ==> WellFormed(es[i])) && Boundary(tail)
    ensures Items(CommaSep(es) + tail) == CommaItems(es) + Items(tail)
    decreases es, 0
  {
    if es == [] {
      TokenizeNothing(tail);
    } else if |es| == 1 {
      TokenizePrinted(es[0], tail);
    } else {
      TokenizePrinted(es[0], "," + (" " + (CommaSep(es[1..]) + tail)));
      TokenizePrintedList(es[1..], tail);
      TokenizeLonger(es, tail);
    }
  }

  lemma TokenizeNothing(tail: string)
    ensures Items(CommaSep([]) + tail) == CommaItems([]) + Items(tail)
  {
    assert "" + tail == tail;
  }

  /** The text of a longer list is that of its first expression, a separator, and that of the rest. */
  lemma TokenizeLonger(es: seq<CfgExpr>, tail: string)
    requires |es| > 1
    requires Items(ToString(es[0]) + ("," + (" " + (CommaSep(es[1..]) + tail)))) ==
             ExprItems(es[0]) + Items("," + (" " + (CommaSep(es[1..]) + tail)))
    requires Items(CommaSep(es[1..]) + tail) == CommaItems(es[1..]) + Items(tail)
    ensures Items(CommaSep(es) + tail) == CommaItems(es) + Items(tail)
  {
    TokenizeSeparator(es, tail);
    var first, rest, end := ExprItems(es[0]), CommaItems(es[1..]), Items(tail);
    Associates([Tok(Comma)], rest, end);
    Associates(first, [Tok(Comma)], rest);
    Associates(first, [Tok(Comma)] + rest, end);
  }

  // ---- then parsing ----

  lemma ParsePrintedCfg(c: Cfg, rest: seq<Item>)
    requires !Starts(rest, Equals)
    ensures ParseCfg(CfgItems(c) + rest) == Ok(c, rest)
  {
    var ts := CfgItems(c) + rest;
    assert ts[|CfgItems(c)|..] == rest;
  }

  lemma ParseListCall(op: string, items: seq<Item>, es: seq<CfgExpr>, rest: seq<Item>)
    requires op in {"all", "any"} && ParseList(items + ([Tok(RightParen)] + rest)) == Ok(es, rest)
    ensures ParseExpr([Tok(Ident(op)), Tok(LeftParen)] + items + [Tok(RightParen)] + rest) ==
            Ok(if op == "all" then All(es) else Any(es), rest)
  {
    var ts := [Tok(Ident(op)), Tok(LeftParen)] + items + [Tok(RightParen)] + rest;
    assert ts[2..] == items + ([Tok(RightParen)] + rest);
  }

  lemma ParseNotCall(items: seq<Item>, x: CfgExpr, rest: seq<Item>)
    requires ParseExpr(items + ([Tok(RightParen)] + rest)) == Ok(x, [Tok(RightParen)] + rest)
    ensures ParseExpr([Tok(Ident("not")), Tok(LeftParen)] + items + [Tok(RightParen)] + rest) == Ok(Not(x), rest)
  {
    var ts := [Tok(Ident("not")), Tok(LeftParen)] + items + [Tok(RightParen)] + rest;
    assert ts[2..] == items + ([Tok(RightParen)] + rest);
  }

  lemma ParseValue(c: Cfg, rest: seq<Item>)
    requires HeadName(c) !in {"all", "any", "not"} && !Starts(rest, Equals)
    ensures ParseExpr(CfgItems(c) + rest) == Ok(Value(c), rest)
  {
    ParsePrintedCfg(c, rest);
  }

  lemma {:induction false} ParsePrinted(e: CfgExpr, rest: seq<Item>)
    requires WellFormed(e) && !Starts(rest, Equals)
    ensures ParseExpr(ExprItems(e) + rest) == Ok(e, rest)
    decreases e, 1
  {
    match e {
      case Not(x) =>
        ParsePrinted(x, [Tok(RightParen)] + rest);
        ParseNotCall(ExprItems(x), x, rest);
      case All(es) =>
        ParsePrintedList(es, rest);
        ParseListCall("all", CommaItems(es), es, rest);
      case Any(es) =>
        ParsePrintedList(es, rest);
        ParseListCall("any", CommaItems(es), es, rest);
      case Value(c) =>
        ParseValue(c, rest);
    }
  }

  lemma ExprItemsStart(e: CfgExpr)
    requires WellFormed(e)
    ensures ExprItems(e) != [] && ExprItems(e)[0].Tok? && ExprItems(e)[0].token.Ident?
  {
  }

  lemma ParseLast(e: CfgExpr, items: seq<Item>, rest: seq<Item>)
    requires items != [] && !Starts(items, RightParen)
    requires ParseExpr(items + ([Tok(RightParen)] + rest)) == Ok(e, [Tok(RightParen)] + rest)
    ensures ParseList(items + ([Tok(RightParen)] + rest)) == Ok([e], rest)
  {
    assert ([Tok(RightParen)] + rest)[1..] == rest;
  }

  lemma ParseLonger(e: CfgExpr, items: seq<Item>, es: seq<CfgExpr>, more: seq<Item>, rest: seq<Item>)
    requires items != [] && !Starts(items, RightParen)
    requires ParseExpr(items + ([Tok(Comma)] + more)) == Ok(e, [Tok(Comma)] + more) && ParseList(more) == Ok(es, rest)
    ensures ParseList(items + ([Tok(Comma)] + more)) == Ok([e] + es, rest)
  {
    assert ([Tok(Comma)] + more)[1..] == more;
  }

  lemma {:induction false} ParsePrintedList(es: seq<CfgExpr>, rest: seq<Item>)
    requires forall i :: 0 <= i < |es| ==> WellFormed(es[i])
    ensures ParseList(CommaItems(es) + ([Tok(RightParen)] + rest)) == Ok(es, rest)
    decreases es, 0
  {
    var close := [Tok(RightParen)] + rest;
    if es == [] {
      assert CommaItems(es) + close == close && close[1..] == rest;
    } else if |es| == 1 {
      ExprItemsStart(es[0]);
      ParsePrinted(es[0], close);
      ParseLast(es[0], ExprItems(es[0]), rest);
      assert [es[0]] == es;
    } else {
      ExprItemsStart(es[0]);
      ParsePrinted(es[0], [Tok(Comma)] + (CommaItems(es[1..]) + close));
      ParsePrintedList(es[1..], rest);
      ParseLonger(es[0], ExprItems(es[0]), es[1..], CommaItems(es[1..]) + close, rest);
      Associates(ExprItems(es[0]) + [Tok(Comma)], CommaItems(es[1..]), close);
      Associates(ExprItems(es[0]), [Tok(Comma)], CommaItems(es[1..]) + close);
      assert [es[0]] + es[1..] == es;
    }
  }

  // ---- what the parser accepts ----

  ghost predicate GoodItem(t: Item) {
    t.Tok? ==> (t.token.Ident? ==> IsIdent(t.token.name)) && (t.token.Str? ==> IsQuotable(t.token.text))
  }

  ghost predicate GoodItems(ts: seq<Item>) {
    forall i :: 0 <= i < |ts| ==> GoodItem(ts[i])
  }

  lemma {:induction false} NextItemIsGood(s: string)
    ensures NextItem(s).Some? ==> GoodItem(NextItem(s).value.0)
    decreases |s|
  {
    if s != "" && s[0] == ' ' {
      NextItemIsGood(s[1..]);
    }
  }

  lemma {:induction false} ItemsAreGood(s: string)
    ensures GoodItems(Items(s))
    decreases |s|
  {
    NextItemIsGood(s);
    if NextItem(s).Some? {
      ItemsAreGood(NextItem(s).value.1);
    }
  }

  lemma {:induction false} ParsedIsWellFormed(ts: seq<Item>)
    requires GoodItems(ts)
    ensures ParseExpr(ts).Ok? ==> WellFormed(ParseExpr(ts).value) && GoodItems(ParseExpr(ts).rest)
    decreases |ts|, 0
  {
    if Starts(ts, Ident("all")) || Starts(ts, Ident("any")) {
      if Starts(ts[1..], LeftParen) {
        ParsedListIsWellFormed(ts[2..]);
      }
    } else if Starts(ts, Ident("not")) {
      if Starts(ts[1..], LeftParen) {
        ParsedIsWellFormed(ts[2..]);
      }
    } else if ParseCfg(ts).Ok? {
      assert GoodItem(ts[0]) && (|ts| > 2 ==> GoodItem(ts[2]));
    }
  }

  lemma {:induction false} ParsedListIsWellFormed(ts: seq<Item>)
    requires GoodItems(ts)
    ensures ParseList(ts).Ok? ==>
      GoodItems(ParseList(ts).rest) && forall i :: 0 <= i < |ParseList(ts).value| ==> WellFormed(ParseList(ts).value[i])
    decreases |ts|, 1
  {
    if !Starts(ts, RightParen) {
      ParsedIsWellFormed(ts);
      if ParseExpr(ts).Ok? && Starts(ParseExpr(ts).rest, Comma) {
        ParsedListIsWellFormed(ParseExpr(ts).rest[1..]);
      }
    }
  }

  // ---- the promises ----

  /** Everything the parser accepts, trailing commas and empty lists included, is printable. */
  lemma AcceptedIsWellFormed(s: string)
    ensures FromStr(s).Some? ==> WellFormed(FromStr(s).value)
  {
    ItemsAreGood(s);
    ParsedIsWellFormed(Items(s));
  }

  /** Parsing a printed expression gives it back exactly when it is well-formed. */
  lemma PrintThenParse(e: CfgExpr)
    ensures FromStr(ToString(e)) == Some(e) <==> WellFormed(e)
  {
    if WellFormed(e) {
      TokenizePrinted(e, "");
      assert ToString(e) + "" == ToString(e) && Items("") == [];
      assert ExprItems(e) + [] == ExprItems(e);
      ParsePrinted(e, []);
    }
    AcceptedIsWellFormed(ToString(e));
  }

  /** So printing is a normal form of every accepted string. */
  lemma ParsePrintParse(s: string)
    requires FromStr(s).Some?
    ensures FromStr(ToString(FromStr(s).value)) == FromStr(s)
  {
    AcceptedIsWellFormed(s);
    PrintThenParse(FromStr(s).value);
  }

  /** A single `Cfg` on its own may also be named `all`, `any` or `not`. */
  lemma CfgPrintThenParse(c: Cfg)
    ensures CfgFromStr(CfgToString(c)) == Some(c) <==> WellFormedCfg(c)
  {
    if WellFormedCfg(c) {
      TokenizePrintedCfg(c, "");
      assert CfgToString(c) + "" == CfgToString(c) && Items("") == [];
      assert CfgItems(c) + [] == CfgItems(c);
      ParsePrintedCfg(c, []);
    }
    ItemsAreGood(CfgToString(c));
    var ts := Items(CfgToString(c));
    if CfgFromStr(CfgToString(c)) == Some(c) {
      assert GoodItem(ts[0]) && (|ts| > 2 ==> GoodItem(ts[2]));
    }
  }

  /** Printing preserves meaning: a printed expression selects the same configurations as a `cfg(..)` key. */
  lemma PrintedKeyMatches(e: CfgExpr, cfg: seq<Cfg>)
    requires WellFormed(e)
    ensures MatchesKey("cfg(" + ToString(e) + ")", cfg) == Matches(e, cfg)
  {
    var key := "cfg(" + ToString(e) + ")";
    PrintThenParse(e);
    assert key[..4] == "cfg(" && key[4..|key| - 1] == ToString(e);
  }
}
