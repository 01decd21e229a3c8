/**
 `lev_distance` of src/cargo/util/lev_distance.rs: the rolling-row loop computes the least
 number of single-character edits between two strings, which is a metric.
 */
module LevDistance {

  // ---- the reference: chains of single-character edits ----

  /** One insertion, deletion or substitution turns `a` into `b`. */
  ghost predicate OneEdit(a: string, b: string) {
    exists i, c :: 0 <= i <= |a| && EditAt(a, b, i, c)
  }

  ghost predicate EditAt(a: string, b: string, i: nat, c: char)
    requires i <= |a|
  {
    b == Insert(a, i, c) || (i < |a| && (b == Delete(a, i) || b == a[i := c]))
  }

  function Insert(a: string, i: nat, c: char): string
    requires i <= |a|
  {
    a[..i] + [c] + a[i..]
  }

  function Delete(a: string, i: nat): string
    requires i < |a|
  {
    a[..i] + a[i + 1..]
  }

  /** `w` lists the strings along a chain of edits from `a` to `b`. */
  ghost predicate Chain(w: seq<string>, a: string, b: string) {
    && w != [] && w[0] == a && w[|w| - 1] == b
    && forall i, j :: 0 <= i < |w| && j == i + 1 < |w| ==> OneEdit(w[i], w[j])
  }

  /** `d` edits turn `a` into `b`, and fewer do not. */
  ghost predicate IsEditDistance(a: string, b: string, d: nat) {
    && (exists w :: Chain(w, a, b) && |w| == d + 1)
    && (forall w :: Chain(w, a, b) ==> d + 1 <= |w|)
  }

  // ---- the recurrence ----

  function Min(x: nat, y: nat): nat {
    if x < y then x else y
  }

  function Init(a: string): string
    requires a != ""
  {
    a[..|a| - 1]
  }

  function Last(a: string): char
    requires a != ""
  {
    a[|a| - 1]
  }

  function Lev(a: string, b: string): nat
    decreases |a| + |b|
  {
    if a == "" then |b|
    else if b == "" then |a|
    else if Last(a) == Last(b) then Lev(Init(a), Init(b))
    else 1 + Min(Lev(Init(a), Init(b)), Min(Lev(Init(a), b), Lev(a, Init(b))))
  }

  /** Dropping the last character of either string changes the distance by at most one. */
  lemma {:induction false} LevNeighbours(a: string, b: string)
    ensures a != "" ==> Lev(a, b) <= Lev(Init(a), b) + 1 && Lev(Init(a), b) <= Lev(a, b) + 1
    ensures b != "" ==> Lev(a, b) <= Lev(a, Init(b)) + 1 && Lev(a, Init(b)) <= Lev(a, b) + 1
    decreases |a| + |b|
  {
    if a != "" && b != "" {
      LevNeighbours(Init(a), b);
      LevNeighbours(a, Init(b));
      LevNeighbours(Init(a), Init(b));
    }
  }

  function Cost(x: char, y: char): nat {
    if x == y then 0 else 1
  }

  lemma LevDiagonal(a: string, b: string)
    requires a != "" && b != ""
    ensures Lev(a, b) <= Lev(Init(a), Init(b)) + Cost(Last(a), Last(b))
  {
  }

  lemma {:induction false} LevTriangle(a: string, b: string, c: string)
    ensures Lev(a, c) <= Lev(a, b) + Lev(b, c)
    decreases |a| + |b| + |c|
  {
    LevNeighbours(a, c);
    if b == "" {
      LevLong(a, c);
    } else if a == "" {
      LevAtLeastLengthGap(b, c);
    } else if c == "" {
      LevAtLeastLengthGap(b, a);
      LevSymmetric(a, b);
    } else {
      var a', b', c' := Init(a), Init(b), Init(c);
      LevDiagonal(a, c);
      if Lev(a, b) == 1 + Lev(a', b) {
        LevTriangle(a', b, c);
      } else if Lev(b, c) == 1 + Lev(b, c') {
        LevTriangle(a, b, c');
      } else if Lev(a, b) == 1 + Lev(a, b') && Lev(b, c) == 1 + Lev(b', c) {
        LevTriangle(a, b', c);
      } else if Lev(a, b) == 1 + Lev(a, b') {
        LevTriangle(a, b', c');
      } else if Lev(b, c) == 1 + Lev(b', c) {
        LevTriangle(a', b', c);
      } else {
        LevTriangle(a', b', c');
      }
    }
  }

  lemma {:induction false} LevSymmetric(a: string, b: string)
    ensures Lev(a, b) == Lev(b, a)
    decreases |a| + |b|
  {
    if a != "" && b != "" {
      LevSymmetric(Init(a), Init(b));
      LevSymmetric(Init(a), b);
      LevSymmetric(a, Init(b));
    }
  }

  lemma {:induction false} LevAtLeastLengthGap(a: string, b: string)
    ensures |b| <= |a| + Lev(a, b)
    decreases |a| + |b|
  {
    if a != "" && b != "" {
      LevAtLeastLengthGap(Init(a), Init(b));
      LevAtLeastLengthGap(Init(a), b);
      LevAtLeastLengthGap(a, Init(b));
    }
  }

  lemma {:induction false} LevLong(a: string, c: string)
    ensures Lev(a, c) <= |a| + |c|
    decreases |a|
  {
    if a != "" && c != "" {
      LevNeighbours(a, c);
      LevLong(Init(a), c);
    }
  }

  // ---- no chain is shorter than the recurrence says ----

  lemma {:induction false} LevCommonSuffix(a: string, b: string, s: string)
    ensures Lev(a + s, b + s) <= Lev(a, b)
    decreases |s|
  {
    if s == "" {
      assert a + s == a && b + s == b;
    } else {
      assert Init(a + s) == a + Init(s) && Init(b + s) == b + Init(s);
      LevCommonSuffix(a, b, Init(s));
    }
  }

  lemma {:induction false} LevSelf(a: string)
    ensures Lev(a, a) == 0
    decreases |a|
  {
    if a != "" {
      LevSelf(Init(a));
    }
  }

  lemma LevOneEdit(a: string, b: string)
    requires OneEdit(a, b)
    ensures Lev(a, b) <= 1
  {
    var i, c :| 0 <= i <= |a| && EditAt(a, b, i, c);
    LevSelf(a[..i]);
    if b == Insert(a, i, c) {
      var p, q := a[..i], a[..i] + [c];
      assert Init(q) == p && a == p + a[i..];
      LevNeighbours(p, q);
      LevCommonSuffix(p, q, a[i..]);
    } else {
      var p, s := a[..i + 1], a[i + 1..];
      var q := if b == Delete(a, i) then a[..i] else a[..i] + [c];
      assert Init(p) == a[..i] && a == p + s && b == q + s;
      LevNeighbours(p, a[..i]);
      if b != Delete(a, i) {
        assert Init(q) == a[..i];
        LevDiagonal(p, q);
      }
      LevCommonSuffix(p, q, s);
    }
  }

  lemma {:induction false} ChainIsLongEnough(w: seq<string>, a: string, b: string)
    requires Chain(w, a, b)
    ensures Lev(a, b) + 1 <= |w|
    decreases |w|
  {
    if |w| == 1 {
      LevSelf(a);
    } else {
      var init, c := w[..|w| - 1], w[|w| - 2];
      assert Chain(init, a, c);
      ChainIsLongEnough(init, a, c);
      assert OneEdit(c, b);
      LevOneEdit(c, b);
      LevTriangle(a, c, b);
    }
  }

  // ---- and some chain is that short ----

  ghost function Suffixed(w: seq<string>, s: string): seq<string> {
    seq(|w|, i requires 0 <= i < |w| => w[i] + s)
  }

  lemma OneEditBefore(a: string, b: string, s: string)
    requires OneEdit(a, b)
    ensures OneEdit(a + s, b + s)
  {
    var i, c :| 0 <= i <= |a| && EditAt(a, b, i, c);
    if b == Insert(a, i, c) {
      assert b + s == Insert(a + s, i, c) && EditAt(a + s, b + s, i, c);
    } else if b == Delete(a, i) {
      assert b + s == Delete(a + s, i) && EditAt(a + s, b + s, i, c);
    } else {
      assert b + s == (a + s)[i := c] && EditAt(a + s, b + s, i, c);
    }
  }

  lemma ChainBefore(w: seq<string>, a: string, b: string, s: string)
    requires Chain(w, a, b)
    ensures Chain(Suffixed(w, s), a + s, b + s)
  {
    var v := Suffixed(w, s);
    forall i, j | 0 <= i < |v| && j == i + 1 < |v| ensures OneEdit(v[i], v[j]) {
      OneEditBefore(w[i], w[j], s);
    }
  }

  lemma ChainThen(w: seq<string>, a: string, b: string, c: string)
    requires Chain(w, a, b) && OneEdit(b, c)
    ensures Chain(w + [c], a, c)
  {
    var v := w + [c];
    forall i, j | 0 <= i < |v| && j == i + 1 < |v| ensures OneEdit(v[i], v[j]) {
      if j < |w| {
        assert OneEdit(w[i], w[j]);
      }
    }
  }

  lemma EditsOfLast(a: string, x: char, y: char)
    ensures OneEdit(a, a + [x]) && OneEdit(a + [x], a) && OneEdit(a + [x], a + [y])
  {
    assert a + [x] == Insert(a, |a|, x) && EditAt(a, a + [x], |a|, x);
    assert a == Delete(a + [x], |a|) && EditAt(a + [x], a, |a|, x);
    assert a + [y] == (a + [x])[|a| := y] && EditAt(a + [x], a + [y], |a|, y);
  }

  lemma {:induction false} ShortChain(a: string, b: string) returns (w: seq<string>)
    ensures Chain(w, a, b) && |w| == Lev(a, b) + 1
    decreases |a| + |b|
  {
    if a == "" && b == "" {
      w := [a];
    } else if a == "" {
      w := ShortChain(a, Init(b));
      EditsOfLast(Init(b), Last(b), Last(b));
      assert Init(b) + [Last(b)] == b;
      ChainThen(w, a, Init(b), b);
      w := w + [b];
    } else if b == "" {
      w := ShortChain(Init(a), b);
      w := AfterDroppingLast(w, a, b);
    } else {
      assert Init(a) + [Last(a)] == a && Init(b) + [Last(b)] == b;
      EditsOfLast(Init(b), Last(a), Last(b));
      EditsOfLast(Init(b), Last(b), Last(b));
      if Last(a) == Last(b) || Lev(a, b) == 1 + Lev(Init(a), Init(b)) {
        var v := ShortChain(Init(a), Init(b));
        ChainBefore(v, Init(a), Init(b), [Last(a)]);
        w := Suffixed(v, [Last(a)]);
        if Last(a) != Last(b) {
          ChainThen(w, a, Init(b) + [Last(a)], b);
          w := w + [b];
        }
      } else if Lev(a, b) == 1 + Lev(Init(a), b) {
        w := ShortChain(Init(a), b);
        w := AfterDroppingLast(w, a, b);
      } else {
        w := ShortChain(a, Init(b));
        ChainThen(w, a, Init(b), b);
        w := w + [b];
      }
    }
  }

  lemma DropLast(a: string)
    requires a != ""
    ensures OneEdit(a, Init(a))
  {
    assert Init(a) + [Last(a)] == a;
    EditsOfLast(Init(a), Last(a), Last(a));
  }

  lemma AfterDroppingLast(w: seq<string>, a: string, b: string) returns (v: seq<string>)
    requires a != "" && Chain(w, Init(a), b)
    ensures Chain(v, a, b) && |v| == |w| + 1
  {
    DropLast(a);
    v := [a] + w;
  }

  lemma LevIsEditDistance(a: string, b: string)
    ensures IsEditDistance(a, b, Lev(a, b))
  {
    var w := ShortChain(a, b);
    forall w | Chain(w, a, b) ensures Lev(a, b) + 1 <= |w| {
      ChainIsLongEnough(w, a, b);
    }
  }

  /** The edit distance is a metric. */
  lemma EditDistanceIsMetric(a: string, b: string, c: string, ab: nat, ba: nat, bc: nat, ac: nat)
    requires IsEditDistance(a, b, ab) && IsEditDistance(b, a, ba) && IsEditDistance(b, c, bc)
    requires IsEditDistance(a, c, ac)
    ensures ab == ba
    ensures ab == 0 <==> a == b
    ensures ac <= ab + bc
  {
    EditDistanceIsLev(a, b, ab);
    EditDistanceIsLev(b, a, ba);
    EditDistanceIsLev(b, c, bc);
    EditDistanceIsLev(a, c, ac);
    LevSymmetric(a, b);
    LevTriangle(a, b, c);
    LevSelf(a);
    if ab == 0 {
      var w :| Chain(w, a, b) && |w| == 1;
    }
  }

  lemma EditDistanceIsLev(a: string, b: string, d: nat)
    requires IsEditDistance(a, b, d)
    ensures d == Lev(a, b)
  {
    var w :| Chain(w, a, b) && |w| == d + 1;
    ChainIsLongEnough(w, a, b);
    var v := ShortChain(a, b);
  }

  // ---- the loop ----

  /** Bytes of a character in UTF-8. */
  function Utf8Width(c: char): (n: nat)
    ensures 1 <= n <= 4
  {
    var code := c as int;
    if code < 0x80 then 1 else if code < 0x800 then 2 else if code < 0x10000 then 3 else 4
  }

  /** `str::len`, which counts bytes and so is at least the number of characters. */
  function Utf8Len(s: string): (n: nat)
    ensures n >= |s|
  {
    if s == "" then 0 else Utf8Width(s[0]) + Utf8Len(s[1..])
  }

  /** The distance between the first `i` characters of `me` and the first `j` of `t`. */
  ghost function Cell(me: string, t: string, i: nat, j: nat): nat
    requires i <= |me| && j <= |t|
  {
    Lev(me[..i], t[..j])
  }

  lemma CellRecurrence(me: string, t: string, i: nat, j: nat)
    requires i < |me| && j < |t|
    ensures Cell(me, t, i + 1, j + 1) ==
      if me[i] == t[j] then Cell(me, t, i, j)
      else 1 + Min(Cell(me, t, i, j), Min(Cell(me, t, i, j + 1), Cell(me, t, i + 1, j)))
  {
    assert Init(me[..i + 1]) == me[..i] && Init(t[..j + 1]) == t[..j];
  }

  ghost predicate RowIs(row: seq<nat>, me: string, t: string, i: nat, from: nat, to: nat)
    requires i <= |me| && to <= |t| < |row|
  {
    forall k :: from <= k <= to ==> row[k] == Cell(me, t, i, k)
  }

  /** One turn of the outer loop: row `i` becomes row `i + 1` in place. */
  method NextRow(dcol: array<nat>, me: string, t: string, i: nat) returns (tLast: nat)
    requires i < |me| && t != "" && |t| < dcol.Length && RowIs(dcol[..], me, t, i, 0, |t|)
    modifies dcol
    ensures RowIs(dcol[..], me, t, i + 1, 0, |t|) && tLast == |t| - 1
  {
    var current := i;
    assert Cell(me, t, i, 0) == i && Cell(me, t, i + 1, 0) == i + 1;
    dcol[0] := current + 1;
    tLast := 0;
    for j := 0 to |t|
      invariant RowIs(dcol[..], me, t, i + 1, 0, j) && RowIs(dcol[..], me, t, i, j + 1, |t|)
      invariant current == Cell(me, t, i, j)
      invariant j > 0 ==> tLast == j - 1
    {
      var next := dcol[j + 1];
      CellRecurrence(me, t, i, j);
      if me[i] == t[j] {
        dcol[j + 1] := current;
      } else {
        dcol[j + 1] := Min(current, next);
        dcol[j + 1] := Min(dcol[j + 1], dcol[j]) + 1;
      }
      current := next;
      tLast := j;
    }
  }

  method Distance(me: string, t: string) returns (d: nat)
    ensures IsEditDistance(me, t, d)
  {
    LevIsEditDistance(me, t);
    if me == "" {
      return |t|;
    }
    if t == "" {
      return |me|;
    }
    var dcol := new nat[Utf8Len(t) + 1](i => i);
    var tLast := 0;
    for i := 0 to |me|
      invariant RowIs(dcol[..], me, t, i, 0, |t|)
      invariant i > 0 ==> tLast == |t| - 1
    {
      tLast := NextRow(dcol, me, t, i);
    }
    assert me[..|me|] == me && t[..|t|] == t;
    assert dcol[..][tLast + 1] == Cell(me, t, |me|, |t|);
    d := dcol[tLast + 1];
  }
}
