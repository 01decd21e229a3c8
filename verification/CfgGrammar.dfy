/**
 The language of `cfg(...)` expressions of src/cargo/util/cfg.rs as a grammar: which texts
 spell which tokens, which tokens spell which expression, and what `not`, `all` and `any`
 mean for the keys of a manifest as strings. The tokenizer and the parser accept exactly it.
 */
module CfgGrammar {
  import opened Collections
  import opened CfgSpec

  // ---- tokens and expressions ----

  predicate Reserved(name: string) {
    name in {"all", "any", "not"}
  }

  /** `op`, an opening parenthesis, something, and a closing one. */
  predicate IsCall(ts: seq<Item>, op: string) {
    |ts| >= 3 && ts[0] == Tok(Ident(op)) && ts[1] == Tok(LeftParen) && ts[|ts| - 1] == Tok(RightParen)
  }

  function Inside(ts: seq<Item>): seq<Item>
    requires |ts| >= 3
  {
    ts[2..|ts| - 1]
  }

  /** The tokens spell the expression. */
  ghost predicate Spells(ts: seq<Item>, e: CfgExpr)
    decreases e, 1
  {
    match e
    case Not(x) => IsCall(ts, "not") && Spells(Inside(ts), x)
    case All(es) => IsCall(ts, "all") && SpellsList(Inside(ts), es)
    case Any(es) => IsCall(ts, "any") && SpellsList(Inside(ts), es)
    case Value(c) => !Reserved(HeadName(c)) && ts == CfgItems(c)
  }

  /** The tokens spell the expressions, with a comma after each, which may be missing after the last. */
  ghost predicate SpellsList(ts: seq<Item>, es: seq<CfgExpr>)
    decreases es, 0
  {
    if es == [] then ts == [] else exists n :: 0 < n <= |ts| && SpellsFrom(ts, n, es)
  }

  ghost predicate SpellsFrom(ts: seq<Item>, n: nat, es: seq<CfgExpr>)
    requires n <= |ts| && es != []
    decreases es, 0, 0
  {
    && Spells(ts[..n], es[0])
    && if n == |ts| then |es| == 1 else ts[n] == Tok(Comma) && SpellsList(ts[n + 1..], es[1..])
  }

  lemma SpellsStart(ts: seq<Item>, e: CfgExpr)
    requires Spells(ts, e)
    ensures ts != [] && ts[0].Tok? && ts[0].token.Ident?
  {
  }

  lemma CallIs(ts: seq<Item>, op: string)
    requires IsCall(ts, op)
    ensures ts == [Tok(Ident(op)), Tok(LeftParen)] + Inside(ts) + [Tok(RightParen)]
  {
  }

  // ---- what is spelled is parsed ----

  lemma {:induction false} SpelledIsParsed(ts: seq<Item>, e: CfgExpr, rest: seq<Item>)
    requires Spells(ts, e) && !Starts(rest, Equals)
    ensures ParseExpr(ts + rest) == Ok(e, rest)
    decreases e, 1
  {
    match e {
      case Not(x) =>
        CallIs(ts, "not");
        SpelledIsParsed(Inside(ts), x, [Tok(RightParen)] + rest);
        ParseNotCall(Inside(ts), x, rest);
      case All(es) =>
        CallIs(ts, "all");
        SpelledListIsParsed(Inside(ts), es, rest);
        ParseListCall("all", Inside(ts), es, rest);
      case Any(es) =>
        CallIs(ts, "any");
        SpelledListIsParsed(Inside(ts), es, rest);
        ParseListCall("any", Inside(ts), es, rest);
      case Value(c) =>
        ParseValue(c, rest);
    }
  }

  lemma {:induction false} SpelledListIsParsed(ts: seq<Item>, es: seq<CfgExpr>, rest: seq<Item>)
    requires SpellsList(ts, es)
    ensures ParseList(ts + ([Tok(RightParen)] + rest)) == Ok(es, rest)
    decreases es, 0
  {
    var close := [Tok(RightParen)] + rest;
    if es == [] {
      assert ts + close == close && close[1..] == rest;
    } else {
      var n: nat :| 0 < n <= |ts| && SpellsFrom(ts, n, es);
      SpellsStart(ts[..n], es[0]);
      if n == |ts| {
        assert ts[..n] == ts && [es[0]] == es;
        SpelledIsParsed(ts, es[0], close);
        ParseLast(es[0], ts, rest);
      } else {
        SpelledIsParsed(ts[..n], es[0], [Tok(Comma)] + (ts[n + 1..] + close));
        SpelledListIsParsed(ts[n + 1..], es[1..], rest);
        ParseLonger(es[0], ts[..n], es[1..], ts[n + 1..] + close, rest);
        CommaBetween(ts, n, close);
        assert [es[0]] + es[1..] == es;
      }
    }
  }

  lemma CommaBetween(ts: seq<Item>, n: nat, close: seq<Item>)
    requires n < |ts| && ts[n] == Tok(Comma)
    ensures ts + close == ts[..n] + ([Tok(Comma)] + (ts[n + 1..] + close))
  {
  }

  // ---- what is parsed is spelled ----

  /** The tokens in front of what the parser leaves. */
  function Read(ts: seq<Item>, rest: seq<Item>): seq<Item>
    requires |rest| <= |ts|
  {
    ts[..|ts| - |rest|]
  }

  /** The tokens in front of `rest` spell the expression. */
  ghost predicate ReadAs(ts: seq<Item>, e: CfgExpr, rest: seq<Item>) {
    |rest| < |ts| && ts == Read(ts, rest) + rest && Spells(Read(ts, rest), e)
  }

  /** The tokens in front of a closing parenthesis and `rest` spell the expressions. */
  ghost predicate ListReadAs(ts: seq<Item>, es: seq<CfgExpr>, rest: seq<Item>) {
    && |rest| < |ts| && ts == Read(ts, rest) + rest
    && ts[|ts| - |rest| - 1] == Tok(RightParen) && SpellsList(ts[..|ts| - |rest| - 1], es)
  }

  lemma NotIsRead(ts: seq<Item>, x: CfgExpr, rest: seq<Item>)
    requires Starts(ts, Ident("not")) && Starts(ts[1..], LeftParen)
    requires ReadAs(ts[2..], x, rest) && Starts(rest, RightParen)
    ensures ReadAs(ts, Not(x), rest[1..])
  {
    var all := Read(ts, rest[1..]);
    assert all == ts[..2] + Read(ts[2..], rest) + [Tok(RightParen)];
    assert Inside(all) == Read(ts[2..], rest);
  }

  lemma CallIsRead(ts: seq<Item>, es: seq<CfgExpr>, rest: seq<Item>)
    requires (Starts(ts, Ident("all")) || Starts(ts, Ident("any"))) && Starts(ts[1..], LeftParen)
    requires ListReadAs(ts[2..], es, rest)
    ensures ReadAs(ts, if ts[0].token.name == "all" then All(es) else Any(es), rest)
  {
    var all := Read(ts, rest);
    assert all == ts[..2] + Read(ts[2..], rest);
    assert Inside(all) == ts[2..][..|ts[2..]| - |rest| - 1];
  }

  lemma LastIsRead(ts: seq<Item>, e: CfgExpr, rest: seq<Item>)
    requires ReadAs(ts, e, rest) && Starts(rest, RightParen)
    ensures ListReadAs(ts, [e], rest[1..])
  {
    var n: nat := |ts| - |rest|;
    var list := ts[..n];
    assert ts[n] == rest[0] && list[..n] == list;
    assert SpellsFrom(list, n, [e]);
  }

  lemma SpellsLonger(a: seq<Item>, e: CfgExpr, more: seq<Item>, es: seq<CfgExpr>)
    requires Spells(a, e) && SpellsList(more, es)
    ensures SpellsList(a + [Tok(Comma)] + more, [e] + es)
  {
    var ts := a + [Tok(Comma)] + more;
    SpellsStart(a, e);
    assert ts[..|a|] == a && ts[|a| + 1..] == more;
    assert ([e] + es)[1..] == es;
    assert SpellsFrom(ts, |a|, [e] + es);
  }

  /** `a`, a comma, `more`, a token and `rest'` in a row. */
  lemma Sliced(ts: seq<Item>, rest: seq<Item>, rest': seq<Item>)
    requires |rest'| + 1 < |rest| <= |ts| && ts == Read(ts, rest) + rest && Starts(rest, Comma)
    requires rest[1..] == Read(rest[1..], rest') + rest'
    ensures var k := |ts| - |rest'| - 1; var more := rest[1..][..|rest| - |rest'| - 2];
      && ts[..k] == Read(ts, rest) + [Tok(Comma)] + more && ts[k] == rest[1..][|more|]
      && ts == Read(ts, rest') + rest'
  {
    var n := |ts| - |rest|;
    assert ts[n..] == rest && ts[n + 1..] == rest[1..];
    assert forall i :: 0 <= i < |rest'| ==> rest'[i] == ts[|ts| - |rest'| + i];
  }

  lemma LongerIsRead(ts: seq<Item>, e: CfgExpr, rest: seq<Item>, es: seq<CfgExpr>, rest': seq<Item>)
    requires ReadAs(ts, e, rest) && Starts(rest, Comma) && ListReadAs(rest[1..], es, rest')
    ensures ListReadAs(ts, [e] + es, rest')
  {
    Sliced(ts, rest, rest');
    SpellsLonger(Read(ts, rest), e, rest[1..][..|rest| - |rest'| - 2], es);
  }

  lemma CfgIsRead(ts: seq<Item>)
    requires ParseCfg(ts).Ok? && ts[0].Tok? && ts[0].token.Ident? && !Reserved(ts[0].token.name)
    ensures ReadAs(ts, Value(ParseCfg(ts).value), ParseCfg(ts).rest)
  {
    var c, rest := ParseCfg(ts).value, ParseCfg(ts).rest;
    assert Read(ts, rest) == CfgItems(c);
  }

  lemma {:induction false} ParsedIsSpelled(ts: seq<Item>)
    ensures ParseExpr(ts).Ok? ==> ReadAs(ts, ParseExpr(ts).value, ParseExpr(ts).rest)
    decreases |ts|, 0
  {
    if ParseExpr(ts).Ok? {
      if Starts(ts, Ident("all")) || Starts(ts, Ident("any")) {
        ParsedListIsSpelled(ts[2..]);
        CallIsRead(ts, ParseList(ts[2..]).value, ParseList(ts[2..]).rest);
      } else if Starts(ts, Ident("not")) {
        ParsedIsSpelled(ts[2..]);
        NotIsRead(ts, ParseExpr(ts[2..]).value, ParseExpr(ts[2..]).rest);
      } else {
        CfgIsRead(ts);
      }
    }
  }

  lemma {:induction false} ParsedListIsSpelled(ts: seq<Item>)
    ensures ParseList(ts).Ok? ==> ListReadAs(ts, ParseList(ts).value, ParseList(ts).rest)
    decreases |ts|, 1
  {
    if Starts(ts, RightParen) {
      assert Read(ts, ts[1..]) == [Tok(RightParen)];
    } else if ParseList(ts).Ok? {
      ParsedIsSpelled(ts);
      var e, rest := ParseExpr(ts).value, ParseExpr(ts).rest;
      if Starts(rest, Comma) {
        ParsedListIsSpelled(rest[1..]);
        LongerIsRead(ts, e, rest, ParseList(rest[1..]).value, ParseList(rest[1..]).rest);
      } else {
        LastIsRead(ts, e, rest);
      }
    }
  }

  /** The parser accepts exactly the tokens that spell an expression, and yields that one. */
  lemma ParsesExactly(s: string, e: CfgExpr)
    ensures FromStr(s) == Some(e) <==> Spells(Items(s), e)
  {
    var ts := Items(s);
    assert ts + [] == ts;
    if Spells(ts, e) {
      SpelledIsParsed(ts, e, []);
    }
    if FromStr(s) == Some(e) {
      ParsedIsSpelled(ts);
      assert Read(ts, []) == ts;
    }
  }

  // ---- texts and tokens ----

  function Text(t: Token): string {
    match t
    case LeftParen => "("
    case RightParen => ")"
    case Comma => ","
    case Equals => "="
    case Ident(n) => n
    case Str(v) => "\"" + v + "\""
  }

  /** The text is that of the tokens with any spaces around them, and no identifier runs on into what follows. */
  ghost predicate Writes(s: string, ts: seq<Item>) {
    if s != "" && s[0] == ' ' then Writes(s[1..], ts)
    else if ts == [] then s == ""
    else
      && ts[0].Tok? && GoodItem(ts[0]) && Text(ts[0].token) <= s
      && (ts[0].token.Ident? ==> Boundary(s[|Text(ts[0].token)|..]))
      && Text(ts[0].token) != "" && Writes(s[|Text(ts[0].token)|..], ts[1..])
  }

  predicate NoBad(ts: seq<Item>) {
    forall i :: 0 <= i < |ts| ==> ts[i].Tok?
  }

  lemma TokenItem(t: Token, tail: string)
    requires GoodItem(Tok(t)) && (t.Ident? ==> Boundary(tail))
    ensures Items(Text(t) + tail) == [Tok(t)] + Items(tail)
  {
    match t {
      case Ident(n) => IdentItem(n, tail);
      case Str(v) => StrItem(v, tail);
      case _ => assert (Text(t) + tail)[1..] == tail;
    }
  }

  /** The tokens of a written text come first, whatever follows that does not continue its last identifier. */
  lemma {:induction false} WrittenIsTokenized(s: string, ts: seq<Item>, tail: string)
    requires Writes(s, ts) && Boundary(tail)
    ensures NoBad(ts) && Items(s + tail) == ts + Items(tail)
    decreases |s|
  {
    if s != "" && s[0] == ' ' {
      AfterSpace(s, tail);
      WrittenIsTokenized(s[1..], ts, tail);
    } else if ts == [] {
      assert s + tail == tail;
    } else {
      var rest := s[|Text(ts[0].token)|..];
      AfterToken(s, ts[0].token, tail);
      WrittenIsTokenized(rest, ts[1..], tail);
      Associates([ts[0]], ts[1..], Items(tail));
      assert ts == [ts[0]] + ts[1..];
    }
  }

  lemma AfterSpace(s: string, tail: string)
    requires s != "" && s[0] == ' '
    ensures Items(s + tail) == Items(s[1..] + tail)
  {
    assert s + tail == " " + (s[1..] + tail);
    SpaceIsSkipped(s[1..] + tail);
  }

  lemma AfterToken(s: string, t: Token, tail: string)
    requires GoodItem(Tok(t)) && Text(t) <= s && Boundary(tail) && (t.Ident? ==> Boundary(s[|Text(t)|..]))
    ensures Items(s + tail) == [Tok(t)] + Items(s[|Text(t)|..] + tail)
  {
    var x, rest := Text(t), s[|Text(t)|..];
    assert s + tail == x + (rest + tail);
    assert Boundary(rest) ==> Boundary(rest + tail);
    TokenItem(t, rest + tail);
  }

  lemma {:induction false} StringIsWritten(s: string)
    requires s != "" && s[0] == '"' && QuoteAt(s[1..]) < |s| - 1
    ensures var n := QuoteAt(s[1..]); s == Text(Str(s[1..n + 1])) + s[n + 2..]
  {
    var n := QuoteAt(s[1..]);
    assert s[1..][n] == s[n + 1];
    assert s == [s[0]] + s[1..n + 1] + [s[n + 1]] + s[n + 2..];
  }

  lemma {:induction false} IdentIsWritten(s: string)
    requires s != "" && IsIdentStart(s[0])
    ensures var n := 1 + IdentSpan(s[1..]); s == Text(Ident(s[..n])) + s[n..] && Boundary(s[n..])
  {
    var n := 1 + IdentSpan(s[1..]);
    assert n < |s| ==> s[1..][n - 1] == s[n];
  }

  lemma {:induction false} FirstIsWritten(s: string)
    requires s != "" && s[0] != ' ' && NextItem(s).Some? && NextItem(s).value.0.Tok?
    ensures var t := NextItem(s).value.0.token;
      Text(t) != "" && s == Text(t) + NextItem(s).value.1 && (t.Ident? ==> Boundary(NextItem(s).value.1))
  {
    if s[0] == '"' {
      StringIsWritten(s);
    } else if IsIdentStart(s[0]) {
      IdentIsWritten(s);
    } else {
      assert s == [s[0]] + s[1..];
    }
  }

  lemma {:induction false} TokenizedIsWritten(s: string)
    requires NoBad(Items(s))
    ensures Writes(s, Items(s))
    decreases |s|
  {
    if s != "" && s[0] == ' ' {
      assert s == " " + s[1..];
      SpaceIsSkipped(s[1..]);
      TokenizedIsWritten(s[1..]);
    } else if s != "" {
      var first, rest := NextItem(s).value.0, NextItem(s).value.1;
      assert Items(s)[0] == first && Items(s)[1..] == Items(rest);
      NextItemIsGood(s);
      FirstIsWritten(s);
      TokenizedIsWritten(rest);
    }
  }

  /** The tokenizer finds no error exactly in the texts that are written, and yields their tokens. */
  lemma TokenizesExactly(s: string, ts: seq<Item>)
    ensures Writes(s, ts) <==> Items(s) == ts && NoBad(ts)
  {
    if Writes(s, ts) {
      WrittenIsTokenized(s, ts, "");
      assert s + "" == s && ts + [] == ts;
    }
    if Items(s) == ts && NoBad(ts) {
      TokenizedIsWritten(s);
    }
  }

  lemma {:induction false} SpelledHasNoBad(ts: seq<Item>, e: CfgExpr)
    requires Spells(ts, e)
    ensures NoBad(ts)
    decreases e, 1
  {
    match e {
      case Not(x) => SpelledHasNoBad(Inside(ts), x); InsideHasNoBad(ts, "not");
      case All(es) => SpelledListHasNoBad(Inside(ts), es); InsideHasNoBad(ts, "all");
      case Any(es) => SpelledListHasNoBad(Inside(ts), es); InsideHasNoBad(ts, "any");
      case Value(_) =>
    }
  }

  lemma InsideHasNoBad(ts: seq<Item>, op: string)
    requires IsCall(ts, op) && NoBad(Inside(ts))
    ensures NoBad(ts)
  {
    CallIs(ts, op);
  }

  lemma {:induction false} SpelledListHasNoBad(ts: seq<Item>, es: seq<CfgExpr>)
    requires SpellsList(ts, es)
    ensures NoBad(ts)
    decreases es, 0
  {
    if es != [] {
      var n: nat :| 0 < n <= |ts| && SpellsFrom(ts, n, es);
      SpelledHasNoBad(ts[..n], es[0]);
      if n < |ts| {
        SpelledListHasNoBad(ts[n + 1..], es[1..]);
        assert ts == ts[..n] + [ts[n]] + ts[n + 1..];
      }
    }
  }

  /** The texts that are accepted, and the expression each stands for. */
  lemma AcceptsExactly(s: string, e: CfgExpr)
    ensures FromStr(s) == Some(e) <==> exists ts :: Writes(s, ts) && Spells(ts, e)
  {
    ParsesExactly(s, e);
    if Spells(Items(s), e) {
      SpelledHasNoBad(Items(s), e);
      TokenizesExactly(s, Items(s));
    }
    forall ts | Writes(s, ts) && Spells(ts, e) ensures Items(s) == ts {
      TokenizesExactly(s, ts);
    }
  }

  // ---- keys ----

  function Key(s: string): string {
    "cfg(" + s + ")"
  }

  predicate Accepted(s: string) {
    FromStr(s).Some?
  }

  /** Only `cfg(..)` around an accepted text matches anything. */
  lemma KeyMatchesExactly(key: string, cfg: seq<Cfg>)
    ensures MatchesKey(key, cfg) <==> exists s :: key == Key(s) && Accepted(s) && Matches(FromStr(s).value, cfg)
  {
    if MatchesKey(key, cfg) {
      var s := key[4..|key| - 1];
      assert key == key[..4] + s + [key[|key| - 1]];
      assert key == Key(s);
    }
    forall s | key == Key(s) ensures key[..4] == "cfg(" && key[4..|key| - 1] == s {
    }
  }

  lemma KeyOf(s: string, cfg: seq<Cfg>)
    ensures MatchesKey(Key(s), cfg) <==> Accepted(s) && Matches(FromStr(s).value, cfg)
  {
    assert Key(s)[..4] == "cfg(" && Key(s)[4..|Key(s)| - 1] == s;
  }

  /** A name or a key with a value, however it is spaced, matches exactly if it is set. */
  lemma ValueLaw(s: string, c: Cfg, cfg: seq<Cfg>)
    requires Writes(s, CfgItems(c)) && !Reserved(HeadName(c))
    ensures MatchesKey(Key(s), cfg) <==> c in cfg
  {
    TokenizesExactly(s, CfgItems(c));
    ParsesExactly(s, Value(c));
    KeyOf(s, cfg);
  }

  function Call(op: string, inner: string): string {
    op + "(" + inner + ")"
  }

  function CallItems(op: string, inner: seq<Item>): seq<Item> {
    [Tok(Ident(op)), Tok(LeftParen)] + inner + [Tok(RightParen)]
  }

  lemma CallIsTokenized(op: string, inner: string, ts: seq<Item>)
    requires IsIdent(op) && Writes(inner, ts)
    ensures Items(Call(op, inner)) == CallItems(op, ts)
  {
    WrittenIsTokenized(inner, ts, ")" + "");
    TokenizeCall(Call(op, inner), op, inner, ts, "");
    assert Call(op, inner) + "" == Call(op, inner) && CallItems(op, ts) + [] == CallItems(op, ts);
  }

  lemma InsideCall(op: string, ts: seq<Item>)
    ensures IsCall(CallItems(op, ts), op) && Inside(CallItems(op, ts)) == ts
  {
  }

  lemma AcceptedIsWritten(s: string)
    requires Accepted(s)
    ensures Writes(s, Items(s)) && Spells(Items(s), FromStr(s).value)
  {
    ParsesExactly(s, FromStr(s).value);
    SpelledHasNoBad(Items(s), FromStr(s).value);
    TokenizesExactly(s, Items(s));
  }

  /** If a text written with a closing parenthesis at its end is, so is the text without it. */
  lemma {:induction false} ClosingIsLast(s: string, ts: seq<Item>)
    requires Writes(s + ")", ts)
    ensures ts != [] && ts[|ts| - 1] == Tok(RightParen) && Writes(s, ts[..|ts| - 1])
    decreases |s|
  {
    var t := s + ")";
    if s == "" {
      assert t[1..] == "" && ts[1..] == [];
    } else if s[0] == ' ' {
      assert t[1..] == s[1..] + ")";
      ClosingIsLast(s[1..], ts);
    } else {
      var x := Text(ts[0].token);
      TokenEndsBefore(s, ts[0].token);
      assert t[|x|..] == s[|x|..] + ")";
      ClosingIsLast(s[|x|..], ts[1..]);
      assert ts[..|ts| - 1][1..] == ts[1..][..|ts[1..]| - 1];
    }
  }

  lemma TokenEndsBefore(s: string, t: Token)
    requires s != "" && GoodItem(Tok(t)) && Text(t) <= s + ")" && Text(t) != ""
    ensures Text(t) <= s
  {
    var x := Text(t);
    assert t.Ident? ==> IsIdentRest(x[|x| - 1]);
    assert x[|x| - 1] == (s + ")")[|x| - 1];
    assert x == (s + ")")[..|x|];
  }

  /** `not(a)` is accepted exactly if `a` is. */
  lemma NotIsAccepted(a: string)
    ensures Accepted(Call("not", a)) <==> Accepted(a)
    ensures Accepted(a) ==> FromStr(Call("not", a)) == Some(Not(FromStr(a).value))
  {
    if Accepted(a) {
      AcceptedIsWritten(a);
      CallIsTokenized("not", a, Items(a));
      InsideCall("not", Items(a));
      ParsesExactly(Call("not", a), Not(FromStr(a).value));
    } else if Accepted(Call("not", a)) {
      AcceptedIsWritten(Call("not", a));
      NotIsUnwrapped(a, FromStr(Call("not", a)).value);
      assert false;
    }
  }

  lemma {:induction false} OpenedCall(op: string, a: string)
    requires IsIdent(op)
    ensures var ts := Items(Call(op, a));
      |ts| >= 2 && ts[0] == Tok(Ident(op)) && ts[1] == Tok(LeftParen) && ts[2..] == Items(a + ")")
    ensures var ts := Items(Call(op, a)); |ts| >= 3 ==> Inside(ts) == ts[2..][..|ts[2..]| - 1]
  {
    assert Call(op, a) == op + ("(" + (a + ")"));
    OpenItems(op, a + ")");
  }

  lemma {:induction false} NotIsUnwrapped(a: string, e: CfgExpr)
    requires Spells(Items(Call("not", a)), e) && Writes(Call("not", a), Items(Call("not", a)))
    ensures Accepted(a)
  {
    var ts := Items(Call("not", a));
    OpenedCall("not", a);
    TokenizesExactly(Call("not", a), ts);
    TokenizesExactly(a + ")", ts[2..]);
    ClosingIsLast(a, ts[2..]);
    TokenizesExactly(a, Inside(ts));
    ParsesExactly(a, e.e);
  }

  /** `cfg(not(a))` matches exactly if `a` can be read and `cfg(a)` does not match. */
  lemma NotLaw(a: string, cfg: seq<Cfg>)
    ensures MatchesKey(Key(Call("not", a)), cfg) <==> Accepted(a) && !MatchesKey(Key(a), cfg)
  {
    NotIsAccepted(a);
    KeyOf(a, cfg);
    KeyOf(Call("not", a), cfg);
  }

  /** The texts with a comma after each, or after each but the last. */
  function Listed(parts: seq<string>, trailing: bool): string {
    if parts == [] then "" else if |parts| == 1 && !trailing then parts[0]
    else parts[0] + "," + Listed(parts[1..], trailing)
  }

  ghost predicate AllAccepted(parts: seq<string>) {
    forall i :: 0 <= i < |parts| ==> Accepted(parts[i])
  }

  ghost function Exprs(parts: seq<string>): seq<CfgExpr>
    requires AllAccepted(parts)
  {
    seq(|parts|, i requires 0 <= i < |parts| => FromStr(parts[i]).value)
  }

  lemma {:induction false} CommaAfter(a: string, ts: seq<Item>, tail: string)
    requires Writes(a, ts) && NoBad(Items(tail))
    ensures Writes(a + "," + tail, ts + [Tok(Comma)] + Items(tail))
  {
    var all := ts + [Tok(Comma)] + Items(tail);
    assert Items(a + "," + tail) == all by {
      assert a + "," + tail == a + ("," + tail);
      WrittenIsTokenized(a, ts, "," + tail);
      TokenItem(Comma, tail);
      Associates(ts, [Tok(Comma)], Items(tail));
    }
    assert NoBad(all) by {
      TokenizesExactly(a, ts);
    }
    TokenizesExactly(a + "," + tail, all);
  }

  lemma {:induction false} ListedIsSpelled(parts: seq<string>, trailing: bool)
    requires AllAccepted(parts)
    ensures var ts := Items(Listed(parts, trailing));
      Writes(Listed(parts, trailing), ts) && SpellsList(ts, Exprs(parts))
  {
    if parts != [] {
      var e, more := FromStr(parts[0]).value, Listed(parts[1..], trailing);
      AcceptedIsWritten(parts[0]);
      if |parts| == 1 && !trailing {
        OneIsSpelled(Items(parts[0]), e);
        assert Exprs(parts) == [e];
      } else {
        ListedIsSpelled(parts[1..], trailing);
        TokenizesExactly(more, Items(more));
        CommaAfter(parts[0], Items(parts[0]), more);
        TokenizesExactly(Listed(parts, trailing), Items(parts[0]) + [Tok(Comma)] + Items(more));
        SpellsLonger(Items(parts[0]), e, Items(more), Exprs(parts[1..]));
        assert Exprs(parts) == [e] + Exprs(parts[1..]);
      }
    }
  }

  lemma OneIsSpelled(ts: seq<Item>, e: CfgExpr)
    requires Spells(ts, e)
    ensures SpellsList(ts, [e])
  {
    SpellsStart(ts, e);
    assert ts[..|ts|] == ts;
    assert SpellsFrom(ts, |ts|, [e]);
  }

  lemma {:induction false} CallOfListed(op: string, parts: seq<string>, trailing: bool)
    requires AllAccepted(parts) && op in {"all", "any"}
    ensures FromStr(Call(op, Listed(parts, trailing))) ==
      Some(if op == "all" then All(Exprs(parts)) else Any(Exprs(parts)))
  {
    var inner := Listed(parts, trailing);
    ListedIsSpelled(parts, trailing);
    CallIsTokenized(op, inner, Items(inner));
    InsideCall(op, Items(inner));
    ParsesExactly(Call(op, inner), if op == "all" then All(Exprs(parts)) else Any(Exprs(parts)));
  }

  /** `cfg(all(..))` matches exactly if every part does on its own. */
  lemma AllLaw(parts: seq<string>, trailing: bool, cfg: seq<Cfg>)
    requires AllAccepted(parts)
    ensures MatchesKey(Key(Call("all", Listed(parts, trailing))), cfg) <==>
      forall i :: 0 <= i < |parts| ==> MatchesKey(Key(parts[i]), cfg)
  {
    CallOfListed("all", parts, trailing);
    KeyOf(Call("all", Listed(parts, trailing)), cfg);
    forall i | 0 <= i < |parts| ensures MatchesKey(Key(parts[i]), cfg) <==> Matches(Exprs(parts)[i], cfg) {
      KeyOf(parts[i], cfg);
    }
  }

  /** `cfg(any(..))` matches exactly if some part does on its own. */
  lemma AnyLaw(parts: seq<string>, trailing: bool, cfg: seq<Cfg>)
    requires AllAccepted(parts)
    ensures MatchesKey(Key(Call("any", Listed(parts, trailing))), cfg) <==>
      exists i :: 0 <= i < |parts| && MatchesKey(Key(parts[i]), cfg)
  {
    CallOfListed("any", parts, trailing);
    KeyOf(Call("any", Listed(parts, trailing)), cfg);
    forall i | 0 <= i < |parts| ensures MatchesKey(Key(parts[i]), cfg) <==> Matches(Exprs(parts)[i], cfg) {
      KeyOf(parts[i], cfg);
    }
  }
}
