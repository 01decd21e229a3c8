/**
 The tokenizer and parser objects of src/cargo/util/cfg.rs: a position that advances, one
 token of lookahead, and loops that push onto vectors. Each method does what the function
 of the same name in `CfgSpec` says of the input that is left.
 */
module CfgParser {
  import opened Collections
  import opened CfgSpec

  class Tokenizer {
    const orig: string
    var pos: nat

    constructor (s: string)
      ensures orig == s && pos == 0
    {
      orig, pos := s, 0;
    }

    ghost predicate Valid()
      reads this
    {
      pos <= |orig|
    }

    ghost function Left(): string
      requires Valid()
      reads this
    {
      orig[pos..]
    }

    method Next() returns (r: Option<Item>)
      requires Valid()
      modifies this
      ensures Valid()
      ensures match NextItem(old(Left()))
              case None => r.None? && Left() == ""
              case Some((item, rest)) => r == Some(item) && Left() == rest
    {
      while pos < |orig|
        invariant Valid() && NextItem(Left()) == NextItem(old(Left()))
        decreases |orig| - pos
      {
        var start, ch := pos, orig[pos];
        ghost var from := Left();
        pos := pos + 1;
        assert from[1..] == Left();
        if ch == '(' { return Some(Tok(LeftParen)); }
        if ch == ')' { return Some(Tok(RightParen)); }
        if ch == ',' { return Some(Tok(Comma)); }
        if ch == '=' { return Some(Tok(Equals)); }
        if ch == '"' {
          var item := StringRest(start);
          return Some(item);
        }
        if IsIdentStart(ch) {
          var item := IdentRest(start);
          return Some(item);
        }
        if ch != ' ' { return Some(Bad); }
      }
      r := None;
    }

    /** The characters after an opening quote at `start`. */
    method StringRest(start: nat) returns (r: Item)
      requires Valid() && pos == start + 1 && orig[start] == '"'
      modifies this
      ensures Valid() && NextItem(orig[start..]) == Some((r, Left()))
    {
      while pos < |orig|
        invariant start < pos <= |orig|
        invariant forall i :: start < i < pos ==> orig[i] != '"'
      {
        var end := pos;
        pos := pos + 1;
        if orig[end] == '"' {
          ghost var s := orig[start..];
          var n := QuoteAt(s[1..]);
          assert s[1..][n] == orig[start + 1 + n] && s[1..][end - start - 1] == orig[end];
          assert n == end - start - 1;
          assert s[1..n + 1] == orig[start + 1..end] && s[n + 2..] == Left();
          return Tok(Str(orig[start + 1..end]));
        }
      }
      ghost var s := orig[start..];
      assert forall i :: 0 <= i < |s| - 1 ==> s[1..][i] != '"';
      assert Left() == "";
      r := Bad;
    }

    /** The characters after the first one of an identifier at `start`. */
    method IdentRest(start: nat) returns (r: Item)
      requires Valid() && pos == start + 1 && IsIdentStart(orig[start])
      modifies this
      ensures Valid() && NextItem(orig[start..]) == Some((r, Left()))
    {
      while pos < |orig| && IsIdentRest(orig[pos])
        invariant start < pos <= |orig|
        invariant forall i :: start <= i < pos ==> IsIdentRest(orig[i])
      {
        pos := pos + 1;
      }
      IdentAt(orig, start, pos);
      r := Tok(Ident(orig[start..pos]));
    }
  }

  lemma IdentAt(orig: string, start: nat, end: nat)
    requires start < end <= |orig| && IsIdentStart(orig[start])
    requires Boundary(orig[end..]) && forall i :: start <= i < end ==> IsIdentRest(orig[i])
    ensures NextItem(orig[start..]) == Some((Tok(Ident(orig[start..end])), orig[end..]))
  {
    var s, n := orig[start..], end - start;
    assert s[1..] == orig[start + 1..end] + orig[end..];
    IdentSpanOf(orig[start + 1..end], orig[end..]);
    assert s[..n] == orig[start..end] && s[n..] == orig[end..];
  }

  class Parser {
    const t: Tokenizer
    var peeked: Option<Option<Item>>

    constructor (s: string)
      ensures Valid() && fresh(t) && Stream() == Items(s)
    {
      t := new Tokenizer(s);
      peeked := None;
      new;
      assert s[0..] == s;
    }

    ghost predicate Valid()
      reads this, t
    {
      t.Valid() && (peeked == Some(None) ==> t.Left() == "")
    }

    /** Every item not yet consumed. */
    ghost function Stream(): seq<Item>
      requires Valid()
      reads this, t
    {
      match peeked
      case Some(Some(item)) => [item] + Items(t.Left())
      case _ => Items(t.Left())
    }

    method Next() returns (r: Option<Item>)
      requires Valid()
      modifies this, t
      ensures Valid()
      ensures if old(Stream()) == [] then r.None? && Stream() == []
              else r == Some(old(Stream())[0]) && Stream() == old(Stream())[1..]
    {
      if peeked.Some? {
        r := peeked.value;
        peeked := None;
      } else {
        r := t.Next();
      }
    }

    method Peek() returns (r: Option<Item>)
      requires Valid()
      modifies this, t
      ensures Valid() && Stream() == old(Stream())
      ensures r == if Stream() == [] then None else Some(Stream()[0])
    {
      if peeked.None? {
        var next := t.Next();
        peeked := Some(next);
      }
      r := peeked.value;
    }

    method Try(token: Token) returns (r: bool)
      requires Valid()
      modifies this, t
      ensures Valid() && r == Starts(old(Stream()), token)
      ensures Stream() == if r then old(Stream())[1..] else old(Stream())
    {
      var next := Peek();
      r := next == Some(Tok(token));
      if r {
        var _ := Next();
      }
    }

    method Eat(token: Token) returns (ok: bool)
      requires Valid()
      modifies this, t
      ensures Valid() && ok == Starts(old(Stream()), token)
      ensures ok ==> Stream() == old(Stream())[1..]
    {
      var next := Next();
      ok := next == Some(Tok(token));
    }

    method Cfg() returns (r: Option<Cfg>)
      requires Valid()
      modifies this, t
      ensures Valid()
      ensures match ParseCfg(old(Stream()))
              case Ok(c, rest) => r == Some(c) && Stream() == rest
              case Err => r.None?
    {
      ghost var ts := Stream();
      var first := Next();
      if first.None? || !first.value.Tok? || !first.value.token.Ident? {
        return None;
      }
      var name := first.value.token.name;
      var pair := Try(Equals);
      if !pair {
        return Some(Name(name));
      }
      assert ts[1..][1..] == ts[2..];
      var val := Next();
      if val.None? || !val.value.Tok? || !val.value.token.Str? {
        return None;
      }
      assert ts[2..][1..] == ts[3..];
      r := Some(KeyPair(name, val.value.token.text));
    }

    method Expr() returns (r: Option<CfgExpr>)
      requires Valid()
      modifies this, t
      ensures Valid()
      ensures match ParseExpr(old(Stream()))
              case Ok(e, rest) => r == Some(e) && Stream() == rest
              case Err => r.None?
      decreases |Stream()|, 0
    {
      ghost var ts := Stream();
      var first := Peek();
      if first == Some(Tok(Ident("all"))) || first == Some(Tok(Ident("any"))) {
        var _ := Next();
        var open := Eat(LeftParen);
        if !open { return None; }
        assert ts[1..][1..] == ts[2..];
        var es := List();
        if es.None? { return None; }
        r := Some(if first.value.token.name == "all" then All(es.value) else Any(es.value));
      } else if first == Some(Tok(Ident("not"))) {
        var _ := Next();
        var open := Eat(LeftParen);
        if !open { return None; }
        assert ts[1..][1..] == ts[2..];
        var e := Expr();
        if e.None? { return None; }
        var close := Eat(RightParen);
        if !close { return None; }
        r := Some(Not(e.value));
      } else {
        var c := Cfg();
        if c.None? { return None; }
        r := Some(Value(c.value));
      }
    }

    /** The `while` loop of `expr`, which pushes one expression per turn. */
    method List() returns (r: Option<seq<CfgExpr>>)
      requires Valid()
      modifies this, t
      ensures Valid()
      ensures match ParseList(old(Stream()))
              case Ok(es, rest) => r == Some(es) && Stream() == rest
              case Err => r.None?
      decreases |Stream()|, 1
    {
      ghost var ts := Stream();
      var es := [];
      assert ParseList(ts).Ok? ==> [] + ParseList(ts).value == ParseList(ts).value;
      var done := Try(RightParen);
      while !done
        invariant Valid() && |Stream()| <= |ts|
        invariant if done then ParseList(ts) == Ok(es, Stream())
                  else !Starts(Stream(), RightParen) && Continues(ts, es, Stream())
        decreases |Stream()|, !done
      {
        ghost var now := Stream();
        var e := Expr();
        if e.None? { return None; }
        ghost var rest := Stream();
        var comma := Try(Comma);
        if !comma {
          var close := Eat(RightParen);
          if !close { return None; }
          done := true;
        } else {
          ListGoesOn(ts, es, now, e.value, rest);
          done := Try(RightParen);
        }
        es := es + [e.value];
      }
      r := Some(es);
    }
  }

  /** Parsing the list from `ts` is parsing it from `now` with `es` in front. */
  ghost predicate Continues(ts: seq<Item>, es: seq<CfgExpr>, now: seq<Item>) {
    match ParseList(now)
    case Ok(more, rest) => ParseList(ts) == Ok(es + more, rest)
    case Err => ParseList(ts).Err?
  }

  lemma ListGoesOn(ts: seq<Item>, es: seq<CfgExpr>, now: seq<Item>, e: CfgExpr, rest: seq<Item>)
    requires !Starts(now, RightParen) && Continues(ts, es, now)
    requires ParseExpr(now) == Ok(e, rest) && Starts(rest, Comma)
    ensures Continues(ts, es + [e], rest[1..])
    ensures Starts(rest[1..], RightParen) ==> ParseList(ts) == Ok(es + [e], rest[1..][1..])
  {
    if ParseList(rest[1..]).Ok? {
      var more := ParseList(rest[1..]).value;
      assert es + ([e] + more) == es + [e] + more;
      assert more == [] ==> es + [e] + more == es + [e];
    }
  }

  /** `CfgExpr::from_str`. */
  method ParseCfgExpr(s: string) returns (r: Option<CfgExpr>)
    ensures r == FromStr(s)
  {
    var p := new Parser(s);
    r := p.Expr();
    if r.Some? {
      var extra := p.Next();
      if extra.Some? { r := None; }
    }
  }
}
