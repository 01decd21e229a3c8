/**
 What the entries of `build_map` of src/cargo/core/compiler/custom_build.rs hold, told by the
 routes that lead from a unit to the units below it instead of by any walk over them.
 */
module BuildRoutes {
  import opened Collections
  import opened Digraph
  import opened BuildScripts

  /** A route says which dependency to follow at each step; only those linked into their dependent count. */
  type Route = seq<nat>

  ghost predicate IsRoute(us: Units, u: UnitId, r: Route)
    decreases |r|
  {
    && u in us
    && (r != [] ==>
        && r[0] < |us[u].deps| && us[u].deps[r[0]] in us
        && !us[us[u].deps[r[0]]].forHost && us[us[u].deps[r[0]]].linkable && IsRoute(us, us[u].deps[r[0]], r[1..]))
  }

  ghost function EndOf(us: Units, u: UnitId, r: Route): UnitId
    requires IsRoute(us, u, r)
    decreases |r|
  {
    if r == [] then u else EndOf(us, us[u].deps[r[0]], r[1..])
  }

  /** The route leads to a unit of a package with a build script, other than that script's own unit. */
  ghost predicate RouteTo(us: Units, u: UnitId, r: Route, x: Script) {
    && IsRoute(us, u, r) && EndOf(us, u, r) in us
    && var v := us[EndOf(us, u, r)]; !v.isCustomBuild && v.hasCustomBuild && x == Script(v.pkg, v.kind)
  }

  /** A route comes before those it begins and before those that turn off to a later dependency. */
  predicate Before(r: Route, s: Route) {
    s != [] && (r == [] || r[0] < s[0] || (r[0] == s[0] && Before(r[1..], s[1..])))
  }

  lemma {:induction false} BeforeIsTotal(r: Route, s: Route)
    ensures r == s || Before(r, s) || Before(s, r)
    decreases |r|
  {
    if r != [] && s != [] {
      BeforeIsTotal(r[1..], s[1..]);
      if r[0] == s[0] && r[1..] == s[1..] {
        assert r == [r[0]] + r[1..] && s == [s[0]] + s[1..];
      }
    }
  }

  // ---- where in the walk a route ends ----

  ghost function Position(us: Units, u: UnitId, r: Route): nat
    requires WellFormed(us) && IsRoute(us, u, r)
    decreases |r|
  {
    if r == [] then 0
    else |Own(us[u])| + |FlattenDeps(us, u, r[0])| + Position(us, us[u].deps[r[0]], r[1..])
  }

  lemma {:induction false} FlattenDepsGrows(us: Units, u: UnitId, i: nat, n: nat)
    requires WellFormed(us) && u in us && i <= n <= |us[u].deps|
    ensures |FlattenDeps(us, u, i)| <= |FlattenDeps(us, u, n)|
    ensures FlattenDeps(us, u, n)[..|FlattenDeps(us, u, i)|] == FlattenDeps(us, u, i)
    decreases n
  {
    if i < n {
      var m: nat := n - 1;
      FlattenDepsGrows(us, u, i, m);
    }
  }

  lemma Middle(own: seq<Script>, before: seq<Script>, below: seq<Script>, all: seq<Script>, k: nat)
    requires |before| + |below| <= |all| && all[..|before| + |below|] == before + below && k < |below|
    ensures (own + all)[|own| + |before| + k] == below[k]
  {
    assert all[|before| + k] == all[..|before| + |below|][|before| + k];
  }

  /** What dependency `i` contributes is found in the walk. */
  lemma {:induction false} PartOfDep(us: Units, u: UnitId, i: nat, k: nat)
    requires WellFormed(us) && u in us && i < |us[u].deps| && Links(us, us[u].deps[i])
    requires k < |Flatten(us, us[u].deps[i])|
    ensures var at := |Own(us[u])| + |FlattenDeps(us, u, i)| + k;
      at < |Flatten(us, u)| && Flatten(us, u)[at] == Flatten(us, us[u].deps[i])[k]
  {
    var n: nat := i + 1;
    var own, before, below := Own(us[u]), FlattenDeps(us, u, i), Flatten(us, us[u].deps[i]);
    var all := FlattenDeps(us, u, |us[u].deps|);
    assert |before| + |below| <= |all| && all[..|before| + |below|] == before + below by {
      LinkFlattens(us, u, i);
      FlattenDepsGrows(us, u, n, |us[u].deps|);
    }
    Middle(own, before, below, all, k);
  }

  lemma NextRoute(us: Units, u: UnitId, r: Route, x: Script)
    requires RouteTo(us, u, r, x) && r != []
    ensures r[0] < |us[u].deps| && Links(us, us[u].deps[r[0]]) && RouteTo(us, us[u].deps[r[0]], r[1..], x)
  {
  }

  lemma {:induction false} PositionHolds(us: Units, u: UnitId, r: Route, x: Script)
    requires WellFormed(us) && RouteTo(us, u, r, x)
    ensures Position(us, u, r) < |Flatten(us, u)| && Flatten(us, u)[Position(us, u, r)] == x
    decreases |r|
  {
    if r == [] {
      OwnIsFirst(us, u, x);
    } else {
      var i: nat := r[0];
      NextRoute(us, u, r, x);
      PositionHolds(us, us[u].deps[i], r[1..], x);
      var k := Position(us, us[u].deps[i], r[1..]);
      PartOfDep(us, u, i, k);
      assert Position(us, u, r) == |Own(us[u])| + |FlattenDeps(us, u, i)| + k;
    }
  }

  lemma {:induction false} OwnIsFirst(us: Units, u: UnitId, x: Script)
    requires WellFormed(us) && u in us && Own(us[u]) == [x]
    ensures Flatten(us, u) != [] && Flatten(us, u)[0] == x
  {
    var rest := FlattenDeps(us, u, |us[u].deps|);
    assert Flatten(us, u) == [x] + rest;
  }

  /** Everything a dependency contributes comes before what a later one does. */
  lemma {:induction false} DepsApart(us: Units, u: UnitId, i: nat, j: nat)
    requires WellFormed(us) && u in us && i < j < |us[u].deps| && Links(us, us[u].deps[i])
    ensures |FlattenDeps(us, u, i)| + |Flatten(us, us[u].deps[i])| <= |FlattenDeps(us, u, j)|
  {
    var n: nat := i + 1;
    var before, below, next := FlattenDeps(us, u, i), Flatten(us, us[u].deps[i]), FlattenDeps(us, u, n);
    assert next == before + below by { LinkFlattens(us, u, i); }
    assert |next| <= |FlattenDeps(us, u, j)| by { FlattenDepsGrows(us, u, n, j); }
  }

  lemma {:induction false} PositionGrows(us: Units, u: UnitId, r: Route, s: Route, x: Script, y: Script)
    requires WellFormed(us) && RouteTo(us, u, r, x) && RouteTo(us, u, s, y) && Before(r, s)
    ensures Position(us, u, r) < Position(us, u, s)
    decreases |r|
  {
    if r == [] {
      assert |Own(us[u])| == 1;
    } else if r[0] == s[0] {
      PositionGrows(us, us[u].deps[r[0]], r[1..], s[1..], x, y);
    } else {
      PositionHolds(us, us[u].deps[r[0]], r[1..], x);
      DepsApart(us, u, r[0], s[0]);
    }
  }

  /** Every position of the walk is that of some route. */
  lemma {:induction false} RouteAt(us: Units, u: UnitId, k: nat) returns (r: Route)
    requires WellFormed(us) && u in us && k < |Flatten(us, u)|
    ensures RouteTo(us, u, r, Flatten(us, u)[k]) && Position(us, u, r) == k
    decreases UnitRank(us, u), |us[u].deps| + 1
  {
    if k < |Own(us[u])| {
      r := [];
    } else {
      r := RouteThroughDeps(us, u, |us[u].deps|, k - |Own(us[u])|);
    }
  }

  lemma {:induction false} RouteThroughDeps(us: Units, u: UnitId, n: nat, k: nat) returns (r: Route)
    requires WellFormed(us) && u in us && n <= |us[u].deps| && k < |FlattenDeps(us, u, n)|
    ensures RouteTo(us, u, r, FlattenDeps(us, u, n)[k]) && Position(us, u, r) == |Own(us[u])| + k
    decreases UnitRank(us, u), n
  {
    var m: nat := n - 1;
    var before := FlattenDeps(us, u, m);
    if k < |before| {
      r := RouteThroughDeps(us, u, m, k);
    } else {
      DepRank(us, u, m);
      var rest := RouteAt(us, us[u].deps[m], k - |before|);
      r := [m] + rest;
      assert r[1..] == rest;
    }
  }

  lemma WalkIsRoutes(us: Units, u: UnitId, x: Script)
    requires WellFormed(us) && u in us
    ensures x in Flatten(us, u) <==> exists r :: RouteTo(us, u, r, x)
  {
    if x in Flatten(us, u) {
      var k :| 0 <= k < |Flatten(us, u)| && Flatten(us, u)[k] == x;
      var r := RouteAt(us, u, k);
    }
    forall r | RouteTo(us, u, r, x) ensures x in Flatten(us, u) {
      PositionHolds(us, u, r, x);
    }
  }

  /** Some route to `x` comes before every route to `y`. */
  ghost predicate ComesFirst(us: Units, u: UnitId, x: Script, y: Script) {
    exists r :: RouteTo(us, u, r, x) && forall s :: RouteTo(us, u, s, y) ==> Before(r, s)
  }

  lemma FirstIsBefore(us: Units, u: UnitId, x: Script, y: Script)
    requires WellFormed(us) && u in us && x in Flatten(us, u) && y in Flatten(us, u)
    requires FirstIndex(Flatten(us, u), x) < FirstIndex(Flatten(us, u), y)
    ensures ComesFirst(us, u, x, y)
  {
    var r := RouteAt(us, u, FirstIndex(Flatten(us, u), x));
    forall s | RouteTo(us, u, s, y) ensures Before(r, s) {
      PositionHolds(us, u, s, y);
      BeforeIsTotal(r, s);
      if Before(s, r) {
        PositionGrows(us, u, s, r, y, x);
      }
    }
  }

  /** A dependency built for the host leads to a build script of the package. */
  ghost predicate PluginNeeds(us: Units, u: UnitId, i: nat, pkg: string)
    requires u in us && i < |us[u].deps|
  {
    var d := us[u].deps[i];
    d in us && us[d].forHost && exists r, x :: RouteTo(us, d, r, x) && x.pkg == pkg
  }

  ghost predicate SomePluginNeeds(us: Units, u: UnitId, n: nat, pkg: string)
    requires u in us && n <= |us[u].deps|
  {
    exists i :: 0 <= i < n && PluginNeeds(us, u, i, pkg)
  }

  lemma {:induction false} PluginsAreNeeded(us: Units, u: UnitId, n: nat, pkg: string)
    requires WellFormed(us) && u in us && n <= |us[u].deps|
    ensures pkg in Plugins(us, u, n) <==> SomePluginNeeds(us, u, n, pkg)
  {
    if n > 0 {
      var m: nat := n - 1;
      PluginsAreNeeded(us, u, m, pkg);
      HostPackagesAreNeeded(us, u, m, pkg);
      assert SomePluginNeeds(us, u, n, pkg) <==> SomePluginNeeds(us, u, m, pkg) || PluginNeeds(us, u, m, pkg);
    }
  }

  lemma HostPackagesAreNeeded(us: Units, u: UnitId, i: nat, pkg: string)
    requires WellFormed(us) && u in us && i < |us[u].deps|
    ensures pkg in HostPackages(us, us[u].deps[i]) <==> PluginNeeds(us, u, i, pkg)
  {
    var d := us[u].deps[i];
    forall x ensures x in Flatten(us, d) <==> exists r :: RouteTo(us, d, r, x) {
      WalkIsRoutes(us, d, x);
    }
  }

  /**
   An entry of the map links each script a route leads to, once, in the order of the first routes to them,
   and has as plugins the packages of the scripts below its dependencies that are built for the host.
   */
  lemma EntriesExactly(us: Units, out: map<UnitId, Scripts>, overridden: set<Script>, u: UnitId)
    requires WellFormed(us) && Memo(us, out, overridden) && u in out
    ensures forall x :: x in out[u].toLink <==> exists r :: RouteTo(us, u, r, x)
    ensures forall i, j :: 0 <= i < j < |out[u].toLink| ==>
      out[u].toLink[i] != out[u].toLink[j] && ComesFirst(us, u, out[u].toLink[i], out[u].toLink[j])
    ensures forall p :: p in out[u].plugins <==> SomePluginNeeds(us, u, |us[u].deps|, p)
  {
    EntriesAreFirstOccurrences(us, out, overridden, u);
    forall x ensures x in out[u].toLink <==> exists r :: RouteTo(us, u, r, x) {
      FlattenIsReachableScripts(us, u, x);
      WalkIsRoutes(us, u, x);
    }
    forall i, j | 0 <= i < j < |out[u].toLink|
      ensures ComesFirst(us, u, out[u].toLink[i], out[u].toLink[j])
    {
      FirstIsBefore(us, u, out[u].toLink[i], out[u].toLink[j]);
    }
    forall p ensures p in out[u].plugins <==> SomePluginNeeds(us, u, |us[u].deps|, p) {
      PluginsAreNeeded(us, u, |us[u].deps|, p);
    }
  }
}
