/**
 `build_map` of src/cargo/core/compiler/custom_build.rs: which build scripts' output each
 unit has to be linked with, computed by a recursion over the unit graph that memoises its
 results and removes duplicates as it goes.
 */
module BuildScripts {
  import opened Collections
  import opened Digraph

  datatype Kind = Host | Target

  type UnitId = nat

  /** A build script is known by its package and the kind it runs for. */
  datatype Script = Script(pkg: string, kind: Kind)

  /** What `build` asks of a unit; `deps` is in the order the source sorts them into. */
  datatype Unit = Unit(
    pkg: string,
    kind: Kind,
    isCustomBuild: bool,
    hasCustomBuild: bool,
    forHost: bool,
    linkable: bool,
    overridden: bool,
    deps: seq<UnitId>)

  type Units = map<UnitId, Unit>

  datatype Scripts = Scripts(toLink: seq<Script>, seen: set<Script>, plugins: set<string>)

  // ---- graphs of units ----

  function DepGraph(us: Units): map<UnitId, set<UnitId>> {
    map u | u in us :: set d | d in us[u].deps
  }

  predicate Links(us: Units, d: UnitId) {
    d in us && !us[d].forHost && us[d].linkable
  }

  /** Only these edges carry build-script output upwards. */
  function LinkGraph(us: Units): map<UnitId, set<UnitId>> {
    map u | u in us :: set d | d in us[u].deps && Links(us, d)
  }

  ghost predicate WellFormed(us: Units) {
    && (forall u, d :: u in us && d in us[u].deps ==> d in us)
    && Acyclic(DepGraph(us))
  }

  function Own(unit: Unit): seq<Script> {
    if !unit.isCustomBuild && unit.hasCustomBuild then [Script(unit.pkg, unit.kind)] else []
  }

  // ---- the plain recursive definition ----

  ghost function UnitRank(us: Units, u: UnitId): nat {
    Rank(DepGraph(us), u)
  }

  lemma DepRank(us: Units, u: UnitId, i: nat)
    requires WellFormed(us) && u in us && i < |us[u].deps|
    ensures us[u].deps[i] in us && UnitRank(us, us[u].deps[i]) < UnitRank(us, u)
  {
    assert us[u].deps[i] in Succ(DepGraph(us), u);
    RankDecreases(DepGraph(us), u, us[u].deps[i]);
  }

  /** Every script below `u` along linked dependencies in preorder, repetitions and all, with no memo. */
  ghost function Flatten(us: Units, u: UnitId): seq<Script>
    requires WellFormed(us) && u in us
    decreases UnitRank(us, u), |us[u].deps| + 1
  {
    Own(us[u]) + FlattenDeps(us, u, |us[u].deps|)
  }

  ghost function FlattenDeps(us: Units, u: UnitId, n: nat): seq<Script>
    requires WellFormed(us) && u in us && n <= |us[u].deps|
    decreases UnitRank(us, u), n
  {
    if n == 0 then []
    else
      var d := us[u].deps[n - 1];
      DepRank(us, u, n - 1);
      FlattenDeps(us, u, n - 1) + (if Links(us, d) then Flatten(us, d) else [])
  }

  ghost function Plugins(us: Units, u: UnitId, n: nat): set<string>
    requires WellFormed(us) && u in us && n <= |us[u].deps|
  {
    if n == 0 then {} else Plugins(us, u, n - 1) + HostPackages(us, us[u].deps[n - 1])
  }

  /** The packages whose scripts a dependency built for the host brings along. */
  ghost function HostPackages(us: Units, d: UnitId): set<string>
    requires WellFormed(us) && d in us
  {
    if us[d].forHost then PackagesOf(Flatten(us, d)) else {}
  }

  function PackagesOf(scripts: seq<Script>): set<string> {
    set s | s in scripts :: s.pkg
  }

  // ---- first occurrences ----

  function Dedup(s: seq<Script>): seq<Script> {
    if s == [] then []
    else
      var init, last := s[..|s| - 1], s[|s| - 1];
      Dedup(init) + (if last in init then [] else [last])
  }

  lemma {:induction false} DedupElements(s: seq<Script>)
    ensures forall x :: x in Dedup(s) <==> x in s
  {
    if s != [] {
      DedupElements(s[..|s| - 1]);
      assert s == s[..|s| - 1] + [s[|s| - 1]];
    }
  }

  lemma DedupPackages(s: seq<Script>)
    ensures PackagesOf(Dedup(s)) == PackagesOf(s)
  {
    DedupElements(s);
  }

  lemma DedupElementsAfter(a: seq<Script>, b: seq<Script>)
    ensures Elements(a + Dedup(b)) == Elements(a + b)
  {
    DedupElements(b);
  }

  function FirstIndex(s: seq<Script>, x: Script): (i: nat)
    requires x in s
    ensures i < |s| && s[i] == x && forall j :: 0 <= j < i ==> s[j] != x
  {
    if s[0] == x then 0 else 1 + FirstIndex(s[1..], x)
  }

  lemma FirstIndexUnique(s: seq<Script>, x: Script, i: nat)
    requires i < |s| && s[i] == x && forall j :: 0 <= j < i ==> s[j] != x
    ensures x in s && FirstIndex(s, x) == i
  {
  }

  /** The survivors stand in the order of their first occurrences. */
  lemma {:induction false} DedupKeepsFirstOrder(s: seq<Script>, i: nat, j: nat)
    requires i < j < |Dedup(s)|
    ensures Dedup(s)[i] in s && Dedup(s)[j] in s && FirstIndex(s, Dedup(s)[i]) < FirstIndex(s, Dedup(s)[j])
    decreases |s|
  {
    var init, last := s[..|s| - 1], s[|s| - 1];
    assert s == init + [last];
    DedupElements(init);
    var x, y := Dedup(s)[i], Dedup(s)[j];
    assert x == Dedup(init)[i];
    if j < |Dedup(init)| {
      DedupKeepsFirstOrder(init, i, j);
    }
  }

  lemma {:induction false} DedupAppendsDedup(a: seq<Script>, b: seq<Script>)
    ensures Dedup(a + Dedup(b)) == Dedup(a + b)
    decreases |b|
  {
    if b == [] {
    } else {
      var init, last := b[..|b| - 1], b[|b| - 1];
      DedupAppendsDedup(a, init);
      DedupElements(init);
      assert (a + b)[..|a + b| - 1] == a + init;
      if last in init {
        assert last in a + init;
        assert Dedup(b) == Dedup(init) && Dedup(a + b) == Dedup(a + init);
      } else {
        var c := a + Dedup(b);
        assert Dedup(b) == Dedup(init) + [last];
        assert c[..|c| - 1] == a + Dedup(init) && c[|c| - 1] == last;
        assert last in a + init <==> last in a + Dedup(init);
      }
    }
  }

  // ---- the code ----

  method AddToLink(scripts: Scripts, s: Script, ghost all: seq<Script>) returns (r: Scripts)
    requires scripts.toLink == Dedup(all) && scripts.seen == Elements(all)
    ensures r == Scripts(Dedup(all + [s]), Elements(all + [s]), scripts.plugins)
  {
    r := scripts;
    assert (all + [s])[..|all|] == all;
    assert Elements(all + [s]) == Elements(all) + {s};
    if s !in scripts.seen {
      r := Scripts(r.toLink + [s], r.seen + {s}, r.plugins);
    }
  }

  method AddAllToLink(scripts: Scripts, more: seq<Script>, ghost all: seq<Script>) returns (r: Scripts)
    requires scripts.toLink == Dedup(all) && scripts.seen == Elements(all)
    ensures r == Scripts(Dedup(all + more), Elements(all + more), scripts.plugins)
  {
    r := scripts;
    assert all + more[..0] == all;
    for i := 0 to |more|
      invariant r == Scripts(Dedup(all + more[..i]), Elements(all + more[..i]), scripts.plugins)
    {
      assert all + more[..i] + [more[i]] == all + more[..i + 1];
      r := AddToLink(r, more[i], all + more[..i]);
    }
    assert more[..|more|] == more;
  }

  ghost function Expected(us: Units, u: UnitId): Scripts
    requires WellFormed(us) && u in us
  {
    Scripts(Dedup(Flatten(us, u)), Elements(Flatten(us, u)), Plugins(us, u, |us[u].deps|))
  }

  /** The memo holds the plain definition for a set of units closed under dependencies. */
  ghost predicate Memo(us: Units, out: map<UnitId, Scripts>, overridden: set<Script>)
    requires WellFormed(us)
  {
    && out.Keys <= us.Keys && Closed(DepGraph(us), out.Keys)
    && (forall u :: u in out ==> out[u] == Expected(us, u))
    && overridden == OverriddenIn(us, out.Keys)
  }

  ghost function OverriddenIn(us: Units, keys: set<UnitId>): set<Script> {
    set u | u in keys && u in us && us[u].overridden :: Script(us[u].pkg, us[u].kind)
  }

  lemma DepsDoNotReachBack(us: Units, u: UnitId, d: UnitId)
    requires WellFormed(us) && u in us && d in us[u].deps
    ensures u !in ReachSet(DepGraph(us), d)
  {
    var g := DepGraph(us);
    assert d in Succ(g, u);
    if Reaches(g, d, u) {
      var p :| PathBetween(g, d, u, p);
      PathCons(g, u, p);
      assert false;
    }
  }

  lemma KeysAfterDep(us: Units, u: UnitId, before: set<UnitId>, i: nat, keys: set<UnitId>, keys': set<UnitId>)
    requires WellFormed(us) && u in us && i < |us[u].deps|
    requires Below(us, u, i, before, keys) && keys' == keys + ReachSet(DepGraph(us), us[u].deps[i])
    ensures Below(us, u, i + 1, before, keys')
  {
    var g, d := DepGraph(us), us[u].deps[i];
    DepsDoNotReachBack(us, u, d);
    ReachesSelf(g, d);
    forall x | x in ReachSet(g, d) ensures x in ReachSet(g, u) {
      ReachesStep(g, u, d, x);
    }
  }

  lemma KeysWithUnit(us: Units, u: UnitId, before: set<UnitId>, keys: set<UnitId>)
    requires WellFormed(us) && u in us && before <= keys <= before + ReachSet(DepGraph(us), u)
    requires Closed(DepGraph(us), keys) && forall d :: d in us[u].deps ==> d in keys
    ensures keys + {u} == before + ReachSet(DepGraph(us), u) && Closed(DepGraph(us), keys + {u})
  {
    var g := DepGraph(us);
    ReachesSelf(g, u);
    forall x | x in ReachSet(g, u) ensures x in keys + {u} {
      ClosedHoldsReachable(g, keys + {u}, u, x);
    }
  }

  /**
   `build`. On an acyclic unit graph the recursion ends, the memo it fills agrees with the plain
   definition, and the entry it is about to make is never there already.
   */
  method Build(us: Units, u: UnitId, out: map<UnitId, Scripts>, overridden: set<Script>)
    returns (out': map<UnitId, Scripts>, overridden': set<Script>)
    requires WellFormed(us) && u in us && Memo(us, out, overridden)
    ensures Memo(us, out', overridden')
    ensures out'.Keys == out.Keys + ReachSet(DepGraph(us), u) && u in out'
    decreases UnitRank(us, u)
  {
    if u in out {
      MemoHit(us, out.Keys, u);
      return out, overridden;
    }
    var ret;
    ghost var all;
    ret, all := StartUnit(us, u);
    out', overridden' := out, overridden;
    for i := 0 to |us[u].deps|
      invariant Memo(us, out', overridden') && Below(us, u, i, out.Keys, out'.Keys)
      invariant Partial(us, u, i, ret, all)
    {
      var d := us[u].deps[i];
      DepRank(us, u, i);
      ghost var keys := out'.Keys;
      out', overridden' := Build(us, d, out', overridden');
      KeysAfterDep(us, u, out.Keys, i, keys, out'.Keys);
      ret, all := Absorb(us, u, i, ret, out'[d], all);
    }
    assert u !in out';  // "cyclic dependencies in `build_map`"
    MemoGains(us, u, out.Keys, out', overridden', ret, all);
    out' := out'[u := ret];
    if us[u].overridden {
      overridden' := overridden' + {Script(us[u].pkg, us[u].kind)};
    }
  }

  lemma MemoHit(us: Units, keys: set<UnitId>, u: UnitId)
    requires u in keys && Closed(DepGraph(us), keys)
    ensures keys == keys + ReachSet(DepGraph(us), u)
  {
    forall x | x in ReachSet(DepGraph(us), u) ensures x in keys {
      ClosedHoldsReachable(DepGraph(us), keys, u, x);
    }
  }

  method StartUnit(us: Units, u: UnitId) returns (ret: Scripts, ghost all: seq<Script>)
    requires WellFormed(us) && u in us
    ensures Partial(us, u, 0, ret, all)
  {
    ret := Scripts([], {}, {});
    all := [];
    if !us[u].isCustomBuild && us[u].hasCustomBuild {
      ret := AddToLink(ret, Script(us[u].pkg, us[u].kind), []);
      all := [Script(us[u].pkg, us[u].kind)];
      assert [] + [Script(us[u].pkg, us[u].kind)] == all;
    }
  }

  /** The memo's keys after the first `i` dependencies: those are there, and `u` itself is not. */
  ghost predicate Below(us: Units, u: UnitId, i: nat, before: set<UnitId>, keys: set<UnitId>)
    requires u in us && i <= |us[u].deps|
  {
    && u !in keys && before <= keys <= before + ReachSet(DepGraph(us), u)
    && forall j :: 0 <= j < i ==> us[u].deps[j] in keys
  }

  /** The result under construction after the first `i` dependencies. */
  ghost predicate Partial(us: Units, u: UnitId, i: nat, ret: Scripts, all: seq<Script>)
    requires WellFormed(us) && u in us && i <= |us[u].deps|
  {
    && all == Own(us[u]) + FlattenDeps(us, u, i)
    && ret == Scripts(Dedup(all), Elements(all), Plugins(us, u, i))
  }

  lemma MemoGains(us: Units, u: UnitId, before: set<UnitId>, out: map<UnitId, Scripts>, overridden: set<Script>,
                  ret: Scripts, all: seq<Script>)
    requires WellFormed(us) && u in us && Memo(us, out, overridden) && Below(us, u, |us[u].deps|, before, out.Keys)
    requires Partial(us, u, |us[u].deps|, ret, all)
    ensures Memo(us, out[u := ret],
                 if us[u].overridden then overridden + {Script(us[u].pkg, us[u].kind)} else overridden)
    ensures out[u := ret].Keys == before + ReachSet(DepGraph(us), u)
  {
    KeysWithUnit(us, u, before, out.Keys);
    OneMoreOverridden(us, out.Keys, u);
    EntryIsExpected(us, u, ret, all);
    EntriesGain(us, u, out, ret);
    assert out[u := ret].Keys == out.Keys + {u};
  }

  lemma EntriesGain(us: Units, u: UnitId, out: map<UnitId, Scripts>, ret: Scripts)
    requires WellFormed(us) && u in us && ret == Expected(us, u)
    requires out.Keys <= us.Keys && forall v :: v in out ==> out[v] == Expected(us, v)
    ensures forall v :: v in out[u := ret] ==> v in us && out[u := ret][v] == Expected(us, v)
  {
  }

  lemma EntryIsExpected(us: Units, u: UnitId, ret: Scripts, all: seq<Script>)
    requires WellFormed(us) && u in us && Partial(us, u, |us[u].deps|, ret, all)
    ensures ret == Expected(us, u)
  {
  }

  lemma OneMoreOverridden(us: Units, keys: set<UnitId>, u: UnitId)
    requires u in us
    ensures OverriddenIn(us, keys + {u}) ==
      if us[u].overridden then OverriddenIn(us, keys) + {Script(us[u].pkg, us[u].kind)} else OverriddenIn(us, keys)
  {
  }

  /** What one dependency contributes: plugin packages if it is for the host, links if it is linkable. */
  method Absorb(us: Units, u: UnitId, i: nat, ret: Scripts, dep: Scripts, ghost all: seq<Script>)
    returns (r: Scripts, ghost all': seq<Script>)
    requires WellFormed(us) && u in us && i < |us[u].deps| && dep == Expected(us, us[u].deps[i])
    requires Partial(us, u, i, ret, all)
    ensures Partial(us, u, i + 1, r, all')
  {
    r, all' := ret, all;
    var d := us[u].deps[i];
    if us[d].forHost {
      r := Scripts(r.toLink, r.seen, r.plugins + PackagesOf(dep.toLink));
      HostContributes(us, u, i, ret, all);
    } else if us[d].linkable {
      LinkContributes(us, u, i, ret, all);
      r := AddAllToLink(r, dep.toLink, all);
      all' := all + Flatten(us, d);
    }
  }

  lemma HostContributes(us: Units, u: UnitId, i: nat, ret: Scripts, all: seq<Script>)
    requires WellFormed(us) && u in us && i < |us[u].deps| && us[us[u].deps[i]].forHost && Partial(us, u, i, ret, all)
    ensures Partial(us, u, i + 1,
                    ret.(plugins := ret.plugins + PackagesOf(Dedup(Flatten(us, us[u].deps[i])))), all)
  {
    DedupPackages(Flatten(us, us[u].deps[i]));
  }

  lemma LinkContributes(us: Units, u: UnitId, i: nat, ret: Scripts, all: seq<Script>)
    requires WellFormed(us) && u in us && i < |us[u].deps| && Links(us, us[u].deps[i]) && Partial(us, u, i, ret, all)
    ensures var below := Flatten(us, us[u].deps[i]);
      Partial(us, u, i + 1,
              Scripts(Dedup(all + Dedup(below)), Elements(all + Dedup(below)), ret.plugins), all + below)
  {
    var own, flat, below := Own(us[u]), FlattenDeps(us, u, i), Flatten(us, us[u].deps[i]);
    assert Dedup(all + Dedup(below)) == Dedup(all + below) by { DedupAppendsDedup(all, below); }
    assert Elements(all + Dedup(below)) == Elements(all + below) by { DedupElementsAfter(all, below); }
    assert FlattenDeps(us, u, i + 1) == flat + below by { LinkFlattens(us, u, i); }
    assert Plugins(us, u, i + 1) == ret.plugins by { NoPlugins(us, u, i); }
    assert all + below == own + (flat + below) by { Associates(own, flat, below); }
  }

  lemma LinkFlattens(us: Units, u: UnitId, i: nat)
    requires WellFormed(us) && u in us && i < |us[u].deps| && Links(us, us[u].deps[i])
    ensures FlattenDeps(us, u, i + 1) == FlattenDeps(us, u, i) + Flatten(us, us[u].deps[i])
  {
  }

  lemma NoPlugins(us: Units, u: UnitId, i: nat)
    requires WellFormed(us) && u in us && i < |us[u].deps| && !us[us[u].deps[i]].forHost
    ensures Plugins(us, u, i + 1) == Plugins(us, u, i)
  {
    assert Plugins(us, u, i + 1) == Plugins(us, u, i) + {};
  }

  ghost predicate BelowSome(us: Units, roots: seq<UnitId>, x: UnitId) {
    exists i :: 0 <= i < |roots| && Reaches(DepGraph(us), roots[i], x)
  }

  lemma BelowOneMore(us: Units, roots: seq<UnitId>, i: nat, x: UnitId)
    requires i < |roots|
    ensures BelowSome(us, roots[..i + 1], x) <==> BelowSome(us, roots[..i], x) || Reaches(DepGraph(us), roots[i], x)
  {
    if Reaches(DepGraph(us), roots[i], x) {
      assert roots[..i + 1][i] == roots[i];
    }
    if BelowSome(us, roots[..i], x) {
      var j :| 0 <= j < i && Reaches(DepGraph(us), roots[..i][j], x);
      assert roots[..i + 1][j] == roots[..i][j];
    }
  }

  /** `keys` are exactly the units reachable from `roots`. */
  ghost predicate Covers(us: Units, roots: seq<UnitId>, keys: set<UnitId>) {
    forall x :: x in keys <==> BelowSome(us, roots, x)
  }

  lemma KeysAfterRoot(us: Units, roots: seq<UnitId>, i: nat, before: set<UnitId>, keys: set<UnitId>)
    requires i < |roots| && keys == before + ReachSet(DepGraph(us), roots[i])
    requires Covers(us, roots[..i], before)
    ensures Covers(us, roots[..i + 1], keys)
  {
    forall x ensures x in keys <==> BelowSome(us, roots[..i + 1], x) {
      BelowOneMore(us, roots, i, x);
    }
  }

  /** `build_map`: exactly the units reachable from the given ones get an entry. */
  method BuildMap(us: Units, roots: seq<UnitId>) returns (out: map<UnitId, Scripts>, overridden: set<Script>)
    requires WellFormed(us) && forall i :: 0 <= i < |roots| ==> roots[i] in us
    ensures Memo(us, out, overridden) && Covers(us, roots, out.Keys)
  {
    out, overridden := map[], {};
    for i := 0 to |roots|
      invariant Memo(us, out, overridden) && Covers(us, roots[..i], out.Keys)
    {
      out, overridden := BuildRoot(us, roots, i, out, overridden);
    }
    assert roots[..|roots|] == roots;
  }

  method BuildRoot(us: Units, roots: seq<UnitId>, i: nat, out: map<UnitId, Scripts>, overridden: set<Script>)
    returns (out': map<UnitId, Scripts>, overridden': set<Script>)
    requires WellFormed(us) && i < |roots| && roots[i] in us
    requires Memo(us, out, overridden) && Covers(us, roots[..i], out.Keys)
    ensures Memo(us, out', overridden') && Covers(us, roots[..i + 1], out'.Keys)
  {
    out', overridden' := Build(us, roots[i], out, overridden);
    KeysAfterRoot(us, roots, i, out.Keys, out'.Keys);
  }

  // ---- what the entries mean ----

  /** `x` is the build script of a unit that linked dependencies lead to from `u`. */
  ghost predicate LinkedFrom(us: Units, u: UnitId, x: Script) {
    exists v :: LinkedAt(us, u, v, x)
  }

  ghost predicate LinkedAt(us: Units, u: UnitId, v: UnitId, x: Script) {
    Reaches(LinkGraph(us), u, v) && v in us && x in Own(us[v])
  }

  ghost predicate LinkedVia(us: Units, u: UnitId, n: nat, x: Script)
    requires u in us && n <= |us[u].deps|
  {
    exists i :: 0 <= i < n && Links(us, us[u].deps[i]) && LinkedFrom(us, us[u].deps[i], x)
  }

  lemma LinkedOwnOrVia(us: Units, u: UnitId, x: Script)
    requires u in us
    ensures LinkedFrom(us, u, x) <==> x in Own(us[u]) || LinkedVia(us, u, |us[u].deps|, x)
  {
    var g := LinkGraph(us);
    if x in Own(us[u]) {
      ReachesSelf(g, u);
      assert LinkedAt(us, u, u, x);
    } else if LinkedVia(us, u, |us[u].deps|, x) {
      var i :| 0 <= i < |us[u].deps| && Links(us, us[u].deps[i]) && LinkedFrom(us, us[u].deps[i], x);
      var v :| LinkedAt(us, us[u].deps[i], v, x);
      ReachesStep(g, u, us[u].deps[i], v);
      assert LinkedAt(us, u, v, x);
    } else if LinkedFrom(us, u, x) {
      var v :| LinkedAt(us, u, v, x);
      var d := ReachesFirstEdge(g, u, v);
      var i :| 0 <= i < |us[u].deps| && us[u].deps[i] == d;
      assert LinkedAt(us, us[u].deps[i], v, x);
    }
  }

  /** The scripts linked into a unit are exactly the build scripts of the units its linked dependencies lead to. */
  lemma {:induction false} FlattenIsReachableScripts(us: Units, u: UnitId, x: Script)
    requires WellFormed(us) && u in us
    ensures x in Flatten(us, u) <==> LinkedFrom(us, u, x)
    decreases UnitRank(us, u), |us[u].deps| + 1
  {
    FlattenDepsIsReachableScripts(us, u, |us[u].deps|, x);
    LinkedOwnOrVia(us, u, x);
  }

  lemma {:induction false} FlattenDepsIsReachableScripts(us: Units, u: UnitId, n: nat, x: Script)
    requires WellFormed(us) && u in us && n <= |us[u].deps|
    ensures x in FlattenDeps(us, u, n) <==> LinkedVia(us, u, n, x)
    decreases UnitRank(us, u), n, 1
  {
    if n == 0 {
      assert FlattenDeps(us, u, 0) == [];
    } else {
      var i: nat := n - 1;
      FlattenDepsIsReachableScripts(us, u, i, x);
      FlattenDepIsReachableScripts(us, u, i, x);
      OneMoreReachable(us, u, i, n, x);
    }
  }

  lemma {:induction false} FlattenDepIsReachableScripts(us: Units, u: UnitId, i: nat, x: Script)
    requires WellFormed(us) && u in us && i < |us[u].deps|
    ensures us[u].deps[i] in us && (x in Flatten(us, us[u].deps[i]) <==> LinkedFrom(us, us[u].deps[i], x))
    decreases UnitRank(us, u), i, 0
  {
    DepRank(us, u, i);
    FlattenIsReachableScripts(us, us[u].deps[i], x);
  }

  lemma OneMoreReachable(us: Units, u: UnitId, i: nat, n: nat, x: Script)
    requires WellFormed(us) && u in us && n == i + 1 <= |us[u].deps|
    requires x in FlattenDeps(us, u, i) <==> LinkedVia(us, u, i, x)
    requires x in Flatten(us, us[u].deps[i]) <==> LinkedFrom(us, us[u].deps[i], x)
    ensures x in FlattenDeps(us, u, n) <==> LinkedVia(us, u, n, x)
  {
  }

  /**
   Every entry of the map lists each script once, in the order of first occurrence of the plain
   preorder walk; `seen_to_link` agrees with `to_link`; and the scripts are exactly those of the
   units reachable along linkable dependencies that are not for the host.
   */
  lemma EntriesAreFirstOccurrences(us: Units, out: map<UnitId, Scripts>, overridden: set<Script>, u: UnitId)
    requires WellFormed(us) && Memo(us, out, overridden) && u in out
    ensures forall i, j :: 0 <= i < j < |out[u].toLink| ==>
      var x, y := out[u].toLink[i], out[u].toLink[j];
      x in Flatten(us, u) && y in Flatten(us, u) && FirstIndex(Flatten(us, u), x) < FirstIndex(Flatten(us, u), y)
    ensures forall i, j :: 0 <= i < j < |out[u].toLink| ==> out[u].toLink[i] != out[u].toLink[j]
    ensures forall x :: x in out[u].seen <==> x in out[u].toLink
    ensures forall x :: x in out[u].toLink <==> LinkedFrom(us, u, x)
  {
    var all := Flatten(us, u);
    DedupElements(all);
    forall i, j | 0 <= i < j < |out[u].toLink|
      ensures out[u].toLink[i] in all && out[u].toLink[j] in all
      ensures FirstIndex(all, out[u].toLink[i]) < FirstIndex(all, out[u].toLink[j])
    {
      DedupKeepsFirstOrder(all, i, j);
    }
    forall x ensures x in out[u].toLink <==> LinkedFrom(us, u, x) {
      FlattenIsReachableScripts(us, u, x);
    }
  }
}
