/**
 How far `to_link` of src/cargo/core/compiler/custom_build.rs is "topologically sorted", as the
 comment beside the field asks. It need not be; it is for every unit exactly when no dependency
 brings in a script that belongs before one already listed.
 */
module BuildOrder {
  import opened Collections
  import opened Digraph
  import opened BuildScripts

  /** Some unit with script `x` has, among what it is linked with, a unit with script `y`. */
  ghost predicate Precedes(us: Units, x: Script, y: Script) {
    x != y && exists v :: v in us && x in Own(us[v]) && LinkedFrom(us, v, y)
  }

  /** Nothing stands after a script it belongs before. */
  ghost predicate Sorted(us: Units, scripts: seq<Script>) {
    forall i, j :: 0 <= i < j < |scripts| ==> !Precedes(us, scripts[j], scripts[i])
  }

  /** `x` is already listed for `u` when its first `k` dependencies have been merged. */
  ghost predicate Listed(us: Units, u: UnitId, k: nat, x: Script)
    requires u in us && k <= |us[u].deps|
  {
    x in Own(us[u]) || LinkedVia(us, u, k, x)
  }

  /** Dependency `k` of `u` brings in no script that belongs before one that is listed already. */
  ghost predicate BringsNothingLate(us: Units, u: UnitId, k: nat)
    requires u in us && k < |us[u].deps|
  {
    Links(us, us[u].deps[k]) ==>
      forall x, y :: Listed(us, u, k, y) && LinkedFrom(us, us[u].deps[k], x) && Precedes(us, x, y) ==>
        Listed(us, u, k, x)
  }

  ghost predicate DependenciesInOrder(us: Units) {
    forall u, k :: u in us && 0 <= k < |us[u].deps| ==> BringsNothingLate(us, u, k)
  }

  // ---- the same on walks with repetitions ----

  ghost predicate FirstsSorted(us: Units, s: seq<Script>) {
    forall x, y :: x in s && y in s && Precedes(us, x, y) ==> FirstIndex(s, x) < FirstIndex(s, y)
  }

  lemma SortedDedup(us: Units, s: seq<Script>)
    ensures Sorted(us, Dedup(s)) <==> FirstsSorted(us, s)
  {
    var t := Dedup(s);
    DedupElements(s);
    if FirstsSorted(us, s) {
      forall i, j | 0 <= i < j < |t| ensures !Precedes(us, t[j], t[i]) {
        DedupKeepsFirstOrder(s, i, j);
      }
    }
    if Sorted(us, t) {
      forall x, y | x in s && y in s && Precedes(us, x, y) ensures FirstIndex(s, x) < FirstIndex(s, y) {
        SortedDedupPair(us, s, x, y);
      }
    }
  }

  lemma SortedDedupPair(us: Units, s: seq<Script>, x: Script, y: Script)
    requires Sorted(us, Dedup(s)) && x in s && y in s && Precedes(us, x, y)
    ensures FirstIndex(s, x) < FirstIndex(s, y)
  {
    DedupElements(s);
    var i, j := SortedIndices(us, Dedup(s), x, y);
    DedupKeepsFirstOrder(s, i, j);
  }

  lemma SortedIndices(us: Units, t: seq<Script>, x: Script, y: Script) returns (i: nat, j: nat)
    requires Sorted(us, t) && x in t && y in t && Precedes(us, x, y)
    ensures i < j < |t| && t[i] == x && t[j] == y
  {
    i :| 0 <= i < |t| && t[i] == x;
    j :| 0 <= j < |t| && t[j] == y;
  }

  lemma FirstIndexOfAppend(p: seq<Script>, f: seq<Script>, x: Script)
    requires x in p + f
    ensures FirstIndex(p + f, x) == if x in p then FirstIndex(p, x) else |p| + FirstIndex(f, x)
  {
    FirstIndexUnique(p + f, x, if x in p then FirstIndex(p, x) else |p| + FirstIndex(f, x));
  }

  ghost predicate NoneLate(us: Units, p: seq<Script>, f: seq<Script>) {
    forall x, y :: y in p && x in f && Precedes(us, x, y) ==> x in p
  }

  /** If both are in `s`, `x` is there first. */
  ghost predicate Before(s: seq<Script>, x: Script, y: Script) {
    x in s && y in s ==> FirstIndex(s, x) < FirstIndex(s, y)
  }

  lemma BeforeInAppend(p: seq<Script>, f: seq<Script>, x: Script, y: Script)
    requires Before(p, x, y) && Before(f, x, y) && (y in p && x in f ==> x in p)
    ensures Before(p + f, x, y)
  {
    if x in p + f && y in p + f {
      FirstIndexOfAppend(p, f, x);
      FirstIndexOfAppend(p, f, y);
    }
  }

  lemma SortedHasNoneLate(us: Units, p: seq<Script>, f: seq<Script>, s: seq<Script>)
    requires FirstsSorted(us, s) && p + f <= s
    ensures NoneLate(us, p, f)
  {
    var rest := f + s[|p + f|..];
    assert s == p + rest;
    forall x, y | y in p && x in f && Precedes(us, x, y) ensures x in p {
      assert x in rest;
      FirstIndexOfAppend(p, rest, x);
      FirstIndexOfAppend(p, rest, y);
    }
  }

  // ---- the walk of one unit ----

  ghost function Walk(us: Units, u: UnitId, k: nat): seq<Script>
    requires WellFormed(us) && u in us && k <= |us[u].deps|
  {
    Own(us[u]) + FlattenDeps(us, u, k)
  }

  ghost function Brought(us: Units, u: UnitId, k: nat): seq<Script>
    requires WellFormed(us) && u in us && k < |us[u].deps|
  {
    if Links(us, us[u].deps[k]) then Flatten(us, us[u].deps[k]) else []
  }

  lemma WalkGoesOn(us: Units, u: UnitId, k: nat)
    requires WellFormed(us) && u in us && k < |us[u].deps|
    ensures Walk(us, u, k + 1) == Walk(us, u, k) + Brought(us, u, k)
  {
    Associates(Own(us[u]), FlattenDeps(us, u, k), Brought(us, u, k));
  }

  lemma {:induction false} WalkIsPrefix(us: Units, u: UnitId, k: nat, n: nat)
    requires WellFormed(us) && u in us && k <= n <= |us[u].deps|
    ensures Walk(us, u, k) <= Walk(us, u, n)
    decreases n
  {
    if k < n {
      WalkIsPrefix(us, u, k, n - 1);
      WalkGoesOn(us, u, n - 1);
    }
  }

  lemma ListedIsWalked(us: Units, u: UnitId, k: nat, x: Script)
    requires WellFormed(us) && u in us && k <= |us[u].deps|
    ensures Listed(us, u, k, x) <==> x in Walk(us, u, k)
  {
    FlattenDepsIsReachableScripts(us, u, k, x);
  }

  lemma NothingLateOnWalks(us: Units, u: UnitId, k: nat)
    requires WellFormed(us) && u in us && k < |us[u].deps|
    ensures BringsNothingLate(us, u, k) <==> NoneLate(us, Walk(us, u, k), Brought(us, u, k))
  {
    var d := us[u].deps[k];
    if Links(us, d) {
      forall x ensures Listed(us, u, k, x) <==> x in Walk(us, u, k) {
        ListedIsWalked(us, u, k, x);
      }
      forall x ensures LinkedFrom(us, d, x) <==> x in Brought(us, u, k) {
        FlattenIsReachableScripts(us, d, x);
      }
    }
  }

  lemma {:induction false} InOrderInWalk(us: Units, u: UnitId, k: nat, x: Script, y: Script)
    requires WellFormed(us) && DependenciesInOrder(us) && u in us && k <= |us[u].deps| && Precedes(us, x, y)
    ensures Before(Walk(us, u, k), x, y)
    decreases UnitRank(us, u), k, 1
  {
    if k == 0 {
    } else {
      var j: nat := k - 1;
      InOrderInWalk(us, u, j, x, y);
      InOrderInBrought(us, u, j, x, y);
      InOrderNext(us, u, j, k, x, y);
    }
  }

  lemma {:induction false} InOrderInBrought(us: Units, u: UnitId, k: nat, x: Script, y: Script)
    requires WellFormed(us) && DependenciesInOrder(us) && u in us && k < |us[u].deps| && Precedes(us, x, y)
    ensures Before(Brought(us, u, k), x, y)
    decreases UnitRank(us, u), k, 0
  {
    if Links(us, us[u].deps[k]) {
      DepRank(us, u, k);
      InOrderInWalk(us, us[u].deps[k], |us[us[u].deps[k]].deps|, x, y);
    }
  }

  lemma InOrderNext(us: Units, u: UnitId, k: nat, n: nat, x: Script, y: Script)
    requires WellFormed(us) && DependenciesInOrder(us) && u in us && n == k + 1 <= |us[u].deps| && Precedes(us, x, y)
    requires Before(Walk(us, u, k), x, y) && Before(Brought(us, u, k), x, y)
    ensures Before(Walk(us, u, n), x, y)
  {
    assert BringsNothingLate(us, u, k);
    NothingLateOnWalks(us, u, k);
    BeforeInAppend(Walk(us, u, k), Brought(us, u, k), x, y);
    WalkGoesOn(us, u, k);
  }

  lemma SortedWalkBringsNothingLate(us: Units, u: UnitId, k: nat)
    requires WellFormed(us) && u in us && k < |us[u].deps| && FirstsSorted(us, Walk(us, u, |us[u].deps|))
    ensures BringsNothingLate(us, u, k)
  {
    WalkGoesOn(us, u, k);
    WalkIsPrefix(us, u, k + 1, |us[u].deps|);
    SortedHasNoneLate(us, Walk(us, u, k), Brought(us, u, k), Walk(us, u, |us[u].deps|));
    NothingLateOnWalks(us, u, k);
  }

  lemma InOrderSortsUnit(us: Units, u: UnitId)
    requires WellFormed(us) && DependenciesInOrder(us) && u in us
    ensures FirstsSorted(us, Flatten(us, u))
  {
    var s := Flatten(us, u);
    forall x, y | x in s && y in s && Precedes(us, x, y) ensures FirstIndex(s, x) < FirstIndex(s, y) {
      InOrderInWalk(us, u, |us[u].deps|, x, y);
    }
  }

  /** Every unit's `to_link` is topologically sorted exactly when the dependencies are in order. */
  lemma SortedExactlyWhenInOrder(us: Units)
    requires WellFormed(us)
    ensures (forall u :: u in us ==> Sorted(us, Expected(us, u).toLink)) <==> DependenciesInOrder(us)
  {
    forall u | u in us ensures Sorted(us, Expected(us, u).toLink) <==> FirstsSorted(us, Flatten(us, u)) {
      SortedDedup(us, Flatten(us, u));
    }
    if DependenciesInOrder(us) {
      forall u | u in us ensures FirstsSorted(us, Flatten(us, u)) {
        InOrderSortsUnit(us, u);
      }
    }
    if forall u :: u in us ==> Sorted(us, Expected(us, u).toLink) {
      forall u, k | u in us && 0 <= k < |us[u].deps| ensures BringsNothingLate(us, u, k) {
        assert Sorted(us, Expected(us, u).toLink);
        SortedWalkBringsNothingLate(us, u, k);
      }
    }
  }

  // ---- a graph where it is not ----

  function Plain(pkg: string, deps: seq<UnitId>): Unit {
    Unit(pkg, Target, false, true, false, true, false, deps)
  }

  /** `app` depends on `a` and `b`, and `b` on `a`; each has a build script. */
  function Diamond(): Units {
    map[0 := Plain("app", [1, 2]), 1 := Plain("a", []), 2 := Plain("b", [1])]
  }

  lemma DiamondIsWellFormed()
    ensures WellFormed(Diamond())
  {
    FallingIsAcyclic(DepGraph(Diamond()), (u: UnitId) => if u == 0 then 2 else if u == 2 then 1 else 0);
  }

  lemma DiamondFlattens()
    requires WellFormed(Diamond())
    ensures Flatten(Diamond(), 0) ==
      [Script("app", Target), Script("a", Target), Script("b", Target), Script("a", Target)]
  {
    var us := Diamond();
    LinkFlattens(us, 0, 0);
    LinkFlattens(us, 0, 1);
    assert FlattenDeps(us, 0, 0) == [];
  }

  lemma DedupDropsSecond(x: Script, y: Script, z: Script)
    requires x != y && y != z && x != z
    ensures Dedup([x, y, z, y]) == [x, y, z]
  {
    assert [x, y, z, y][..3] == [x, y, z] && [x, y, z][..2] == [x, y] && [x, y][..1] == [x] && [x][..0] == [];
    assert Dedup([x]) == [x];
    assert Dedup([x, y]) == [x, y];
    assert Dedup([x, y, z]) == [x, y, z];
  }

  /** Here it is app, a, b, although `b` is linked with `a` and so belongs before it. */
  lemma NotTopologicallySorted()
    ensures WellFormed(Diamond())
    ensures Expected(Diamond(), 0).toLink == [Script("app", Target), Script("a", Target), Script("b", Target)]
    ensures !Sorted(Diamond(), Expected(Diamond(), 0).toLink) && !DependenciesInOrder(Diamond())
  {
    var us, a, b := Diamond(), Script("a", Target), Script("b", Target);
    DiamondIsWellFormed();
    DiamondFlattens();
    DedupDropsSecond(Script("app", Target), a, b);
    BBelongsBeforeA();
    assert Expected(us, 0).toLink[1] == a && Expected(us, 0).toLink[2] == b;
    SortedExactlyWhenInOrder(us);
  }

  lemma BBelongsBeforeA()
    ensures Precedes(Diamond(), Script("b", Target), Script("a", Target))
  {
    var us := Diamond();
    var g := LinkGraph(us);
    assert us[2].deps[0] == 1 && 1 in Succ(g, 2);
    ReachesSelf(g, 1);
    ReachesStep(g, 2, 1, 1);
    assert LinkedAt(us, 2, 1, Script("a", Target));
  }
}
