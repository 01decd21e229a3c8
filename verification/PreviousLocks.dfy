/**
 `register_previous_locks` of src/cargo/ops/resolve.rs: which packages of the previous lock
 file are registered as locked. The sets it builds depend on the order in which the resolve
 graph is iterated, which is that of a hash map; `order` is that order.
 */
module PreviousLocks {
  import opened Collections
  import opened Digraph
  import opened GraphWalk
  import opened Packages

  /** What `ws` and the path sources on disk say: the members, the package at each path source, the manifests. */
  datatype Workspace = Workspace(
    members: seq<PackageKey>,
    pathPkg: map<SourceKey, PackageKey>,
    manifests: map<PackageKey, seq<Dependency>>)

  type Resolve = map<PackageKey, set<PackageKey>>

  function Deps(ws: Workspace, id: PackageKey): seq<Dependency> {
    if id in ws.manifests then ws.manifests[id] else []
  }

  /** Optional and development dependencies count only for workspace members. */
  predicate Considered(ws: Workspace, id: PackageKey, d: Dependency) {
    id in ws.members || (!d.optional && d.transitive)
  }

  /** The path packages among the dependencies `ds` of `id`. */
  ghost function PathDepsIn(ws: Workspace, id: PackageKey, ds: seq<Dependency>): set<PackageKey> {
    set d | d in ds && Considered(ws, id, d) && d.source.key in ws.pathPkg :: ws.pathPkg[d.source.key]
  }

  ghost function PathDeps(ws: Workspace, id: PackageKey): set<PackageKey> {
    PathDepsIn(ws, id, Deps(ws, id))
  }

  ghost function PathGraph(ws: Workspace): map<PackageKey, set<PackageKey>> {
    map id | id in ws.manifests :: PathDeps(ws, id)
  }

  /** `x` is a member or is reached from one along path dependencies. */
  ghost predicate InPlay(ws: Workspace, x: PackageKey) {
    ReachedFrom(PathGraph(ws), Elements(ws.members), x)
  }

  /** The sources of the dependencies `ds` of `id` that nothing in the previous graph could satisfy. */
  ghost function UnmatchedIn(ws: Workspace, resolve: Resolve, id: PackageKey, ds: seq<Dependency>): set<SourceKey> {
    set d | d in ds && Considered(ws, id, d) && d.source.key !in ws.pathPkg && !Satisfied(resolve, d) :: d.source.key
  }

  ghost function UnmatchedSources(ws: Workspace, resolve: Resolve, id: PackageKey): set<SourceKey> {
    UnmatchedIn(ws, resolve, id, Deps(ws, id))
  }

  predicate Satisfied(resolve: Resolve, d: Dependency) {
    exists id | id in resolve :: d.MatchesIgnoringSource(id)
  }

  ghost predicate IsPoisoned(ws: Workspace, resolve: Resolve, src: SourceKey) {
    exists id :: InPlay(ws, id) && src in UnmatchedSources(ws, resolve, id)
  }

  ghost function OfSources(resolve: Resolve, srcs: set<SourceKey>): set<PackageKey> {
    set n | n in resolve && n.source in srcs
  }

  predicate IsChanged(ws: Workspace, keep: PackageKey -> bool, n: PackageKey) {
    keep(n) && n.source in ws.pathPkg && ws.pathPkg[n.source] != n
  }

  /** Kept packages whose manifest on disk is no longer that package; they are inserted without their dependencies. */
  function Changed(ws: Workspace, resolve: Resolve, keep: PackageKey -> bool): set<PackageKey> {
    set n | n in resolve && IsChanged(ws, keep, n)
  }

  /** Packages that are to be updated, or whose source is poisoned; they are inserted with everything they need. */
  ghost function Roots(ws: Workspace, resolve: Resolve, keep: PackageKey -> bool): set<PackageKey> {
    set n | n in resolve && (!keep(n) || IsPoisoned(ws, resolve, n.source))
  }

  // ---- what every order of insertions keeps ----

  /** `avoid` after `roots` were inserted with their dependencies and `changed` without, in any order. */
  ghost predicate Marked(g: Resolve, changed: set<PackageKey>, roots: set<PackageKey>, avoid: set<PackageKey>) {
    && changed <= avoid && roots <= avoid
    && (forall x :: x in avoid && x !in changed ==> Succ(g, x) <= avoid)
    && (forall x :: x in avoid && x !in changed ==> exists r :: r in roots && Reaches(g, r, x))
  }

  ghost predicate ReachedAround(g: Resolve, changed: set<PackageKey>, roots: set<PackageKey>, x: PackageKey) {
    exists r :: r in roots && ReachesAvoiding(g, changed, r, x)
  }

  /** `avoid` holds nothing beyond the changed packages and what the roots reach without passing through one. */
  ghost predicate Tight(g: Resolve, changed: set<PackageKey>, roots: set<PackageKey>, avoid: set<PackageKey>) {
    forall x :: x in avoid && x !in changed ==> ReachedAround(g, changed, roots, x)
  }

  /** `tight` says whether what was inserted so far came in an order that keeps the set tight. */
  ghost predicate MarkedSo(g: Resolve, changed: set<PackageKey>, roots: set<PackageKey>, avoid: set<PackageKey>,
                           tight: bool) {
    Marked(g, changed, roots, avoid) && (tight ==> Tight(g, changed, roots, avoid))
  }

  lemma AddRoot(g: Resolve, changed: set<PackageKey>, roots: set<PackageKey>, avoid: set<PackageKey>, r: PackageKey)
    requires Marked(g, changed, roots, avoid)
    ensures Marked(g, changed, roots + {r}, avoid + NewlyReached(g, avoid, r))
    ensures Tight(g, changed, roots, avoid) ==> Tight(g, changed, roots + {r}, avoid + NewlyReached(g, avoid, r))
  {
    NewlyReachedIsClosed(g, avoid, r);
    AvoidingOrThere(g, avoid, r);
    forall x | x in NewlyReached(g, avoid, r)
      ensures Reaches(g, r, x) && ReachesAvoiding(g, changed, r, x)
    {
      var p :| PathBetween(g, r, x, p) && Avoids(p, avoid);
      assert Avoids(p, changed);
    }
    var avoid' := avoid + NewlyReached(g, avoid, r);
    forall x | x in avoid' && x !in changed ensures exists s :: s in roots + {r} && Reaches(g, s, x) {
      if x in avoid {
        var s :| s in roots && Reaches(g, s, x);
        assert s in roots + {r};
      } else {
        assert r in roots + {r};
      }
    }
    if Tight(g, changed, roots, avoid) {
      forall x | x in avoid' && x !in changed ensures ReachedAround(g, changed, roots + {r}, x) {
        if x in avoid {
          var s :| s in roots && ReachesAvoiding(g, changed, s, x);
          assert s in roots + {r};
        } else {
          assert r in roots + {r};
        }
      }
    }
  }

  // ---- the first loop ----

  ghost predicate ChangedFirst(ws: Workspace, keep: PackageKey -> bool, order: seq<PackageKey>) {
    forall i, j :: 0 <= i < j < |order| && IsChanged(ws, keep, order[j]) ==> IsChanged(ws, keep, order[i])
  }

  ghost function ChangedIn(ws: Workspace, keep: PackageKey -> bool, order: seq<PackageKey>): set<PackageKey> {
    set n | n in order && IsChanged(ws, keep, n)
  }

  ghost function UpdatedIn(keep: PackageKey -> bool, order: seq<PackageKey>): set<PackageKey> {
    set n | n in order && !keep(n)
  }

  lemma OneMoreNode(ws: Workspace, keep: PackageKey -> bool, order: seq<PackageKey>, i: nat)
    requires i < |order|
    ensures ChangedIn(ws, keep, order[..i + 1]) ==
      ChangedIn(ws, keep, order[..i]) + (if IsChanged(ws, keep, order[i]) then {order[i]} else {})
    ensures UpdatedIn(keep, order[..i + 1]) == UpdatedIn(keep, order[..i]) + (if keep(order[i]) then {} else {order[i]})
    ensures ChangedFirst(ws, keep, order) && IsChanged(ws, keep, order[i]) ==> UpdatedIn(keep, order[..i]) == {}
  {
    assert order[..i + 1] == order[..i] + [order[i]];
    if ChangedFirst(ws, keep, order) && IsChanged(ws, keep, order[i]) {
      forall n | n in order[..i] ensures keep(n) {
        var j :| 0 <= j < i && order[j] == n;
        assert IsChanged(ws, keep, order[j]);
      }
    }
  }

  /** `avoid` after the first `i` turns of the first loop. */
  ghost predicate MarkedUpTo(ws: Workspace, resolve: Resolve, keep: PackageKey -> bool, order: seq<PackageKey>, i: nat,
                             avoid: set<PackageKey>)
    requires i <= |order|
  {
    MarkedSo(resolve, ChangedIn(ws, keep, order[..i]), UpdatedIn(keep, order[..i]), avoid,
             ChangedFirst(ws, keep, order))
  }

  /** One turn of the first loop. */
  method MarkOne(ws: Workspace, resolve: Resolve, keep: PackageKey -> bool, order: seq<PackageKey>, i: nat,
                 avoid: set<PackageKey>)
    returns (avoid': set<PackageKey>)
    requires i < |order| && MarkedUpTo(ws, resolve, keep, order, i, avoid)
    ensures MarkedUpTo(ws, resolve, keep, order, i + 1, avoid')
  {
    var node := order[i];
    ghost var changed, roots := ChangedIn(ws, keep, order[..i]), UpdatedIn(keep, order[..i]);
    avoid' := avoid;
    OneMoreNode(ws, keep, order, i);
    assert changed + {} == changed && roots + {} == roots;
    if !keep(node) {
      AddRoot(resolve, changed, roots, avoid, node);
      avoid' := AddDeps(resolve, node, avoid);
    } else if node.source in ws.pathPkg && ws.pathPkg[node.source] != node {
      avoid' := avoid + {node};
    }
  }

  method MarkUpdates(ws: Workspace, resolve: Resolve, keep: PackageKey -> bool, order: seq<PackageKey>)
    returns (avoid: set<PackageKey>)
    ensures MarkedSo(resolve, ChangedIn(ws, keep, order), UpdatedIn(keep, order), avoid, ChangedFirst(ws, keep, order))
  {
    avoid := {};
    for i := 0 to |order|
      invariant MarkedUpTo(ws, resolve, keep, order, i, avoid)
    {
      avoid := MarkOne(ws, resolve, keep, order, i, avoid);
    }
    assert order[..|order|] == order;
  }

  // ---- the worklist of path packages ----

  /** Inserts every package of a poisoned source. */
  method PoisonSource(resolve: Resolve, src: SourceKey, avoid: set<PackageKey>,
                      ghost changed: set<PackageKey>, ghost roots: set<PackageKey>, ghost tight: bool)
    returns (avoid': set<PackageKey>)
    requires MarkedSo(resolve, changed, roots, avoid, tight)
    ensures MarkedSo(resolve, changed, roots + OfSources(resolve, {src}), avoid', tight)
  {
    avoid' := avoid;
    var todo := set n | n in resolve && n.source == src;
    ghost var all, found := todo, roots;
    while todo != {}
      invariant todo <= all == OfSources(resolve, {src}) && found == roots + (all - todo)
      invariant MarkedSo(resolve, changed, found, avoid', tight)
      decreases todo
    {
      var id :| id in todo;
      AddRoot(resolve, changed, found, avoid', id);
      avoid' := AddDeps(resolve, id, avoid');
      todo, found := todo - {id}, found + {id};
    }
  }

  /** The roots found by the time the dependencies `ds` of `id` were looked at. */
  ghost function RootsWith(ws: Workspace, resolve: Resolve, roots: set<PackageKey>, id: PackageKey,
                           ds: seq<Dependency>): set<PackageKey> {
    roots + OfSources(resolve, UnmatchedIn(ws, resolve, id, ds))
  }

  lemma OneMoreDep(ws: Workspace, resolve: Resolve, roots: set<PackageKey>, id: PackageKey, ds: seq<Dependency>,
                   d: Dependency)
    ensures PathDepsIn(ws, id, ds + [d]) == PathDepsIn(ws, id, ds) + PathDepsIn(ws, id, [d])
    ensures RootsWith(ws, resolve, roots, id, ds + [d]) ==
      RootsWith(ws, resolve, RootsWith(ws, resolve, roots, id, ds), id, [d])
  {
    assert UnmatchedIn(ws, resolve, id, ds + [d]) ==
      UnmatchedIn(ws, resolve, id, ds) + UnmatchedIn(ws, resolve, id, [d]);
  }

  /** One dependency of a path package: push a path package, poison the source of what nothing satisfies. */
  method VisitDep(ws: Workspace, resolve: Resolve, member: PackageKey, dep: Dependency, stack: seq<PackageKey>,
                  avoid: set<PackageKey>, ghost changed: set<PackageKey>, ghost roots: set<PackageKey>,
                  ghost tight: bool)
    returns (stack': seq<PackageKey>, avoid': set<PackageKey>)
    requires MarkedSo(resolve, changed, roots, avoid, tight)
    ensures Elements(stack') == Elements(stack) + PathDepsIn(ws, member, [dep])
    ensures MarkedSo(resolve, changed, RootsWith(ws, resolve, roots, member, [dep]), avoid', tight)
  {
    stack', avoid' := stack, avoid;
    assert OfSources(resolve, {}) == {} && roots + {} == roots;
    if member !in ws.members && (dep.optional || !dep.transitive) {
      return;
    }
    if dep.source.key in ws.pathPkg {
      stack' := stack' + [ws.pathPkg[dep.source.key]];
      return;
    }
    if Satisfied(resolve, dep) {
      return;
    }
    avoid' := PoisonSource(resolve, dep.source.key, avoid', changed, roots, tight);
  }

  /** The dependencies of one path package. */
  method VisitMember(ws: Workspace, resolve: Resolve, member: PackageKey, stack: seq<PackageKey>,
                     avoid: set<PackageKey>, ghost changed: set<PackageKey>, ghost roots: set<PackageKey>,
                     ghost tight: bool)
    returns (stack': seq<PackageKey>, avoid': set<PackageKey>)
    requires MarkedSo(resolve, changed, roots, avoid, tight)
    ensures Elements(stack') == Elements(stack) + PathDeps(ws, member)
    ensures MarkedSo(resolve, changed, roots + OfSources(resolve, UnmatchedSources(ws, resolve, member)), avoid', tight)
  {
    stack', avoid' := stack, avoid;
    var deps := Deps(ws, member);
    assert RootsWith(ws, resolve, roots, member, []) == roots;
    for i := 0 to |deps|
      invariant Elements(stack') == Elements(stack) + PathDepsIn(ws, member, deps[..i])
      invariant MarkedSo(resolve, changed, RootsWith(ws, resolve, roots, member, deps[..i]), avoid', tight)
    {
      ghost var found := RootsWith(ws, resolve, roots, member, deps[..i]);
      OneMoreDep(ws, resolve, roots, member, deps[..i], deps[i]);
      assert deps[..i + 1] == deps[..i] + [deps[i]];
      stack', avoid' := VisitDep(ws, resolve, member, deps[i], stack', avoid', changed, found, tight);
    }
    assert deps[..|deps|] == deps;
  }

  ghost function UnmatchedOf(ws: Workspace, resolve: Resolve, ids: set<PackageKey>): set<SourceKey> {
    set id, s | id in ids && s in UnmatchedSources(ws, resolve, id) :: s
  }

  ghost function PoisonedRoots(ws: Workspace, resolve: Resolve, visited: set<PackageKey>): set<PackageKey> {
    OfSources(resolve, UnmatchedOf(ws, resolve, visited))
  }

  method PoisonChanged(ws: Workspace, resolve: Resolve, avoid: set<PackageKey>,
                       ghost changed: set<PackageKey>, ghost roots: set<PackageKey>, ghost tight: bool)
    returns (avoid': set<PackageKey>, visited: set<PackageKey>)
    requires MarkedSo(resolve, changed, roots, avoid, tight)
    ensures forall x :: x in visited <==> InPlay(ws, x)
    ensures MarkedSo(resolve, changed, roots + PoisonedRoots(ws, resolve, visited), avoid', tight)
  {
    avoid' := avoid;
    var stack := ws.members;
    visited := {};
    ghost var g, starts := PathGraph(ws), Elements(ws.members);
    WorklistStarts(g, starts);
    assert roots + PoisonedRoots(ws, resolve, {}) == roots;
    while stack != []
      invariant Worklist(g, starts, visited, Elements(stack))
      invariant MarkedSo(resolve, changed, roots + PoisonedRoots(ws, resolve, visited), avoid', tight)
      decreases Nodes(g) + starts - visited, |stack|
    {
      var member, rest := stack[|stack| - 1], stack[..|stack| - 1];
      if member in visited {
        stack := rest;
        continue;
      }
      var stack';
      ghost var found := roots + PoisonedRoots(ws, resolve, visited);
      stack', avoid' := VisitMember(ws, resolve, member, rest, avoid', changed, found, tight);
      PopUnvisited(ws, visited, stack, stack');
      OneMoreVisited(ws, resolve, roots, visited, member);
      stack, visited := stack', visited + {member};
    }
    assert Elements(stack) == {};
    WorklistEnds(g, starts, visited);
  }

  lemma PopUnvisited(ws: Workspace, visited: set<PackageKey>, stack: seq<PackageKey>, stack': seq<PackageKey>)
    requires stack != [] && Worklist(PathGraph(ws), Elements(ws.members), visited, Elements(stack))
    requires Elements(stack') == Elements(stack[..|stack| - 1]) + PathDeps(ws, stack[|stack| - 1])
    ensures Worklist(PathGraph(ws), Elements(ws.members), visited + {stack[|stack| - 1]}, Elements(stack'))
    ensures stack[|stack| - 1] in Nodes(PathGraph(ws)) + Elements(ws.members)
  {
    var rest, member := stack[..|stack| - 1], stack[|stack| - 1];
    ElementsOfPop(stack);
    WorklistStaysInside(PathGraph(ws), Elements(ws.members), visited, Elements(stack));
    PathGraphEdges(ws, member);
    WorklistVisits(PathGraph(ws), Elements(ws.members), visited, Elements(stack), member, Elements(stack'));
  }

  lemma ElementsOfPop(stack: seq<PackageKey>)
    requires stack != []
    ensures Elements(stack) == Elements(stack[..|stack| - 1]) + {stack[|stack| - 1]}
  {
    assert stack == stack[..|stack| - 1] + [stack[|stack| - 1]];
  }

  lemma PathGraphEdges(ws: Workspace, id: PackageKey)
    ensures Succ(PathGraph(ws), id) == PathDeps(ws, id)
  {
  }

  lemma OneMoreVisited(ws: Workspace, resolve: Resolve, roots: set<PackageKey>, visited: set<PackageKey>,
                       member: PackageKey)
    ensures roots + PoisonedRoots(ws, resolve, visited + {member}) ==
      roots + PoisonedRoots(ws, resolve, visited) + OfSources(resolve, UnmatchedSources(ws, resolve, member))
  {
    assert UnmatchedOf(ws, resolve, visited + {member}) ==
           UnmatchedOf(ws, resolve, visited) + UnmatchedSources(ws, resolve, member);
  }

  // ---- the whole function ----

  /** A lock registered for a package, with those of its dependencies that stay locked. */
  datatype Registered = Registered(id: PackageKey, deps: set<PackageKey>)

  ghost predicate KeepsUnavoided(resolve: Resolve, keep: PackageKey -> bool, avoid: set<PackageKey>, l: Registered) {
    && l.id in resolve && keep(l.id) && l.id !in avoid
    && forall d :: d in l.deps <==> d in resolve[l.id] && keep(d) && d !in avoid
  }

  /** The last loop. */
  method RegisterKept(resolve: Resolve, keep: PackageKey -> bool, order: seq<PackageKey>, avoid: set<PackageKey>)
    returns (locks: seq<Registered>)
    requires forall n :: n in order ==> n in resolve
    ensures forall l :: l in locks ==> KeepsUnavoided(resolve, keep, avoid, l)
    ensures forall n :: n in order && keep(n) && n !in avoid ==> exists l :: l in locks && l.id == n
  {
    locks := [];
    for i := 0 to |order|
      invariant forall l :: l in locks ==> KeepsUnavoided(resolve, keep, avoid, l)
      invariant forall n :: n in order[..i] && keep(n) && n !in avoid ==> exists l :: l in locks && l.id == n
    {
      var node := order[i];
      assert order[..i + 1] == order[..i] + [node];
      if keep(node) && node !in avoid {
        var one := Registered(node, set d | d in resolve[node] && keep(d) && d !in avoid);
        ghost var before := locks;
        locks := locks + [one];
        assert one in locks && forall l :: l in before ==> l in locks;
      }
    }
    assert order[..|order|] == order;
  }

  /** An order in which the hash map of the previous graph may be iterated. */
  ghost predicate IsOrder(resolve: Resolve, order: seq<PackageKey>) {
    (forall n :: n in order <==> n in resolve) && NoRepeats(order)
  }

  ghost predicate NoRepeats(order: seq<PackageKey>) {
    forall i, j :: 0 <= i < j < |order| ==> order[i] != order[j]
  }

  /** What the function may avoid when it iterates in this order. */
  ghost predicate MayAvoid(ws: Workspace, resolve: Resolve, keep: PackageKey -> bool, order: seq<PackageKey>,
                           avoid: set<PackageKey>) {
    MarkedSo(resolve, Changed(ws, resolve, keep), Roots(ws, resolve, keep), avoid, ChangedFirst(ws, keep, order))
  }

  method RegisterPreviousLocks(ws: Workspace, resolve: Resolve, keep: PackageKey -> bool, order: seq<PackageKey>)
    returns (locks: seq<Registered>, avoid: set<PackageKey>)
    requires IsOrder(resolve, order)
    ensures MayAvoid(ws, resolve, keep, order, avoid)
    ensures forall l :: l in locks ==> KeepsUnavoided(resolve, keep, avoid, l)
    ensures forall n :: n in resolve && keep(n) && n !in avoid ==> exists l :: l in locks && l.id == n
  {
    avoid := MarkUpdates(ws, resolve, keep, order);
    ghost var changed, updated := ChangedIn(ws, keep, order), UpdatedIn(keep, order);
    var visited;
    avoid, visited := PoisonChanged(ws, resolve, avoid, changed, updated, ChangedFirst(ws, keep, order));
    RootsAreUpdatedOrPoisoned(ws, resolve, keep, order, visited);
    locks := RegisterKept(resolve, keep, order, avoid);
  }

  lemma RootsAreUpdatedOrPoisoned(ws: Workspace, resolve: Resolve, keep: PackageKey -> bool,
                                  order: seq<PackageKey>, visited: set<PackageKey>)
    requires IsOrder(resolve, order)
    requires forall x :: x in visited <==> InPlay(ws, x)
    ensures ChangedIn(ws, keep, order) == Changed(ws, resolve, keep)
    ensures UpdatedIn(keep, order) + PoisonedRoots(ws, resolve, visited) == Roots(ws, resolve, keep)
  {
    forall n | n in resolve
      ensures n.source in UnmatchedOf(ws, resolve, visited) <==> IsPoisoned(ws, resolve, n.source)
    {
      if IsPoisoned(ws, resolve, n.source) {
        var id :| InPlay(ws, id) && n.source in UnmatchedSources(ws, resolve, id);
        assert id in visited;
      }
    }
  }

  // ---- what the registered locks promise ----

  ghost function Covered(g: Resolve, changed: set<PackageKey>, roots: set<PackageKey>): set<PackageKey> {
    changed + set x | x in Nodes(g) + roots && ReachedAround(g, changed, roots, x)
  }

  /** In any order everything `Covered` is avoided, and with the changed packages first nothing more is. */
  lemma MarkedCovers(g: Resolve, changed: set<PackageKey>, roots: set<PackageKey>, avoid: set<PackageKey>)
    requires Marked(g, changed, roots, avoid)
    ensures Covered(g, changed, roots) <= avoid
    ensures Tight(g, changed, roots, avoid) ==> avoid == Covered(g, changed, roots)
  {
    forall x | ReachedAround(g, changed, roots, x) ensures x in avoid && x in Nodes(g) + roots {
      var r :| r in roots && ReachesAvoiding(g, changed, r, x);
      var p :| PathBetween(g, r, x, p) && Avoids(p, changed);
      PathAvoidingStaysIn(g, changed, avoid, p);
      assert Closed(g, Nodes(g) + roots);
      ClosedHoldsPath(g, Nodes(g) + roots, p);
    }
  }

  /** Without changed path packages, exactly what the roots reach is avoided. */
  lemma NoChangedMeansExactClosure(g: Resolve, roots: set<PackageKey>, avoid: set<PackageKey>)
    requires Marked(g, {}, roots, avoid)
    ensures forall x :: x in avoid <==> ReachedFrom(g, roots, x)
  {
    forall x | ReachedFrom(g, roots, x) ensures x in avoid {
      var r :| r in roots && Reaches(g, r, x);
      ClosedHoldsReachable(g, avoid, r, x);
    }
  }

  /** Every changed package the roots reach has its direct dependencies covered anyway. */
  ghost predicate ChangedAreCovered(g: Resolve, changed: set<PackageKey>, roots: set<PackageKey>) {
    forall c :: c in changed && ReachedFrom(g, roots, c) ==> Succ(g, c) <= Covered(g, changed, roots)
  }

  lemma {:induction false} CoveredPath(g: Resolve, changed: set<PackageKey>, roots: set<PackageKey>, r: PackageKey,
                                       p: seq<PackageKey>)
    requires ChangedAreCovered(g, changed, roots) && r in roots && IsPath(g, p) && p[0] == r
    ensures p[|p| - 1] in Covered(g, changed, roots)
    decreases |p|
  {
    var x := p[|p| - 1];
    if |p| == 1 {
      if r !in changed {
        AvoidingSelf(g, changed, r);
        assert ReachedAround(g, changed, roots, r);
      }
    } else {
      var q, y := p[..|p| - 1], p[|p| - 2];
      PathPrefix(g, p, |p| - 1);
      CoveredPath(g, changed, roots, r, q);
      assert x in Succ(g, y) && PathBetween(g, r, y, q);
      if y in changed {
        assert ReachedFrom(g, roots, y);
      } else if x !in changed {
        var s :| s in roots && ReachesAvoiding(g, changed, s, y);
        AvoidingStep(g, changed, s, y, x);
        assert ReachedAround(g, changed, roots, x);
        assert x in Nodes(g);
      }
    }
  }

  lemma CoveredIsMarked(g: Resolve, changed: set<PackageKey>, roots: set<PackageKey>)
    ensures Marked(g, changed, roots, Covered(g, changed, roots))
  {
    var w := Covered(g, changed, roots);
    forall r | r in roots ensures r in w {
      if r !in changed {
        AvoidingSelf(g, changed, r);
        assert ReachedAround(g, changed, roots, r);
      }
    }
    forall x, d | x in w && x !in changed && d in Succ(g, x) ensures d in w {
      if d !in changed {
        var r :| r in roots && ReachesAvoiding(g, changed, r, x);
        AvoidingStep(g, changed, r, x, d);
        assert ReachedAround(g, changed, roots, d) && d in Nodes(g);
      }
    }
    forall x | x in w && x !in changed ensures exists r :: r in roots && Reaches(g, r, x) {
      var r :| r in roots && ReachesAvoiding(g, changed, r, x);
      assert Reaches(g, r, x);
    }
  }

  lemma CoveredMeansAvoided(g: Resolve, changed: set<PackageKey>, roots: set<PackageKey>, avoid: set<PackageKey>,
                            x: PackageKey)
    requires ChangedAreCovered(g, changed, roots) && Marked(g, changed, roots, avoid) && ReachedFrom(g, roots, x)
    ensures x in avoid
  {
    var r :| r in roots && Reaches(g, r, x);
    var p :| PathBetween(g, r, x, p);
    CoveredPath(g, changed, roots, r, p);
    MarkedCovers(g, changed, roots, avoid);
  }

  lemma UncoveredIsReached(g: Resolve, changed: set<PackageKey>, roots: set<PackageKey>) returns (x: PackageKey)
    requires !ChangedAreCovered(g, changed, roots)
    ensures ReachedFrom(g, roots, x) && x !in Covered(g, changed, roots)
  {
    var c :| c in changed && ReachedFrom(g, roots, c) && !(Succ(g, c) <= Covered(g, changed, roots));
    x :| x in Succ(g, c) && x !in Covered(g, changed, roots);
    ReachedNext(g, roots, c, x);
  }

  /**
   If a changed package that is reached has an uncovered dependency, every result of an order with the
   changed packages first misses something the roots reach, and that stays locked if it is a node.
   */
  lemma ChangedFirstMisses(ws: Workspace, resolve: Resolve, keep: PackageKey -> bool, order: seq<PackageKey>,
                           avoid: set<PackageKey>)
    returns (x: PackageKey)
    requires !ChangedAreCovered(resolve, Changed(ws, resolve, keep), Roots(ws, resolve, keep))
    requires ChangedFirst(ws, keep, order) && MayAvoid(ws, resolve, keep, order, avoid)
    ensures ReachedFrom(resolve, Roots(ws, resolve, keep), x) && x !in avoid && (x in resolve ==> keep(x))
  {
    x := UncoveredIsReached(resolve, Changed(ws, resolve, keep), Roots(ws, resolve, keep));
    MarkedCovers(resolve, Changed(ws, resolve, keep), Roots(ws, resolve, keep), avoid);
  }

  ghost predicate AvoidsAllReached(ws: Workspace, resolve: Resolve, keep: PackageKey -> bool, avoid: set<PackageKey>) {
    forall x :: ReachedFrom(resolve, Roots(ws, resolve, keep), x) ==> x in avoid
  }

  /**
   "Nothing an updated or poisoned package reaches stays locked" holds of every result in every
   iteration order exactly when every changed path package on the way has its direct dependencies
   covered anyway.
   */
  lemma ClosureExactlyWhenChangedAreCovered(ws: Workspace, resolve: Resolve, keep: PackageKey -> bool)
    ensures ChangedAreCovered(resolve, Changed(ws, resolve, keep), Roots(ws, resolve, keep)) <==>
      forall order, avoid :: IsOrder(resolve, order) && MayAvoid(ws, resolve, keep, order, avoid) ==>
        AvoidsAllReached(ws, resolve, keep, avoid)
  {
    var changed, roots := Changed(ws, resolve, keep), Roots(ws, resolve, keep);
    if ChangedAreCovered(resolve, changed, roots) {
      forall order, avoid, x | MayAvoid(ws, resolve, keep, order, avoid) && ReachedFrom(resolve, roots, x)
        ensures x in avoid
      {
        CoveredMeansAvoided(resolve, changed, roots, avoid, x);
      }
    } else {
      var order := ChangedFirstIsPossible(ws, resolve, keep);
      var avoid := Covered(resolve, changed, roots);
      CoveredIsMarked(resolve, changed, roots);
      assert MayAvoid(ws, resolve, keep, order, avoid);
      var x := ChangedFirstMisses(ws, resolve, keep, order, avoid);
      assert !AvoidsAllReached(ws, resolve, keep, avoid);
    }
  }

  /** Then no registered lock, and no dependency recorded with one, is anything such a package reaches. */
  lemma LockedIsOutOfReach(ws: Workspace, resolve: Resolve, keep: PackageKey -> bool, avoid: set<PackageKey>,
                           l: Registered)
    requires Marked(resolve, Changed(ws, resolve, keep), Roots(ws, resolve, keep), avoid)
    requires KeepsUnavoided(resolve, keep, avoid, l)
    requires ChangedAreCovered(resolve, Changed(ws, resolve, keep), Roots(ws, resolve, keep))
    ensures !ReachedFrom(resolve, Roots(ws, resolve, keep), l.id)
    ensures forall d :: d in l.deps ==> !ReachedFrom(resolve, Roots(ws, resolve, keep), d)
  {
    forall x | ReachedFrom(resolve, Roots(ws, resolve, keep), x) ensures x in avoid {
      CoveredMeansAvoided(resolve, Changed(ws, resolve, keep), Roots(ws, resolve, keep), avoid, x);
    }
  }

  lemma Enumerate(s: set<PackageKey>) returns (order: seq<PackageKey>)
    ensures Elements(order) == s && NoRepeats(order)
  {
    order := [];
    var todo := s;
    while todo != {}
      invariant todo <= s && Elements(order) == s - todo && NoRepeats(order)
      decreases todo
    {
      var x :| x in todo;
      assert x !in Elements(order);
      assert Elements(order + [x]) == Elements(order) + {x};
      order, todo := order + [x], todo - {x};
    }
  }

  /** That order is one the hash map may produce, whatever the previous graph is. */
  lemma ChangedFirstIsPossible(ws: Workspace, resolve: Resolve, keep: PackageKey -> bool)
    returns (order: seq<PackageKey>)
    ensures IsOrder(resolve, order) && ChangedFirst(ws, keep, order)
  {
    var changed := Changed(ws, resolve, keep);
    var first := Enumerate(changed);
    var rest := Enumerate(resolve.Keys - changed);
    order := first + rest;
    forall n ensures n in order <==> n in resolve {
      assert n in first <==> n in Elements(first);
      assert n in rest <==> n in Elements(rest);
    }
    forall i, j | 0 <= i < j < |order| ensures order[i] != order[j] {
      assert i < |first| ==> order[i] in Elements(first);
      assert j >= |first| ==> order[j] in Elements(rest);
    }
    forall i, j | 0 <= i < j < |order| && IsChanged(ws, keep, order[j]) ensures IsChanged(ws, keep, order[i]) {
      assert forall k :: |first| <= k < |order| ==> order[k] in Elements(rest);
      assert order[i] in Elements(first);
    }
  }

  // ---- the same in terms of the manifests ----

  /** The manifest of `a` has a dependency, not one left out for being optional or for tests, on the path of `b`. */
  ghost predicate LeadsTo(ws: Workspace, a: PackageKey, b: PackageKey) {
    && a in ws.manifests
    && exists d ::
      && d in ws.manifests[a] && (a in ws.members || (d.transitive && !d.optional))
      && d.source.key in ws.pathPkg && ws.pathPkg[d.source.key] == b
  }

  /** The manifest of `a` has a dependency of source `src` that no package of the previous graph satisfies. */
  ghost predicate AsksForMore(ws: Workspace, resolve: Resolve, a: PackageKey, src: SourceKey) {
    && a in ws.manifests && src !in ws.pathPkg
    && exists d ::
      && d in ws.manifests[a] && (a in ws.members || (d.transitive && !d.optional)) && d.source.key == src
      && forall m :: m in resolve && m.name == d.name ==> !d.req.Matches(m.version)
  }

  /** From a member along path dependencies. */
  ghost predicate Chain(ws: Workspace, p: seq<PackageKey>) {
    p != [] && p[0] in ws.members && forall i, j :: 0 <= i < |p| && j == i + 1 < |p| ==> LeadsTo(ws, p[i], p[j])
  }

  /** Some manifest of the workspace or of its path dependencies asks for more from the source. */
  ghost predicate SourceOutgrown(ws: Workspace, resolve: Resolve, src: SourceKey) {
    exists p :: Chain(ws, p) && AsksForMore(ws, resolve, p[|p| - 1], src)
  }

  lemma LeadsToIsEdge(ws: Workspace, a: PackageKey, b: PackageKey)
    ensures LeadsTo(ws, a, b) <==> b in Succ(PathGraph(ws), a)
  {
    PathGraphEdges(ws, a);
  }

  lemma ChainIsPath(ws: Workspace, p: seq<PackageKey>)
    ensures Chain(ws, p) <==> IsPath(PathGraph(ws), p) && p[0] in Elements(ws.members)
  {
    forall a, b ensures LeadsTo(ws, a, b) <==> b in Succ(PathGraph(ws), a) {
      LeadsToIsEdge(ws, a, b);
    }
  }

  lemma AsksIsUnmatched(ws: Workspace, resolve: Resolve, a: PackageKey, src: SourceKey)
    ensures AsksForMore(ws, resolve, a, src) <==> src in UnmatchedSources(ws, resolve, a)
  {
  }

  lemma PoisonedExactly(ws: Workspace, resolve: Resolve, src: SourceKey)
    ensures IsPoisoned(ws, resolve, src) <==> SourceOutgrown(ws, resolve, src)
  {
    if IsPoisoned(ws, resolve, src) {
      var id :| InPlay(ws, id) && src in UnmatchedSources(ws, resolve, id);
      var r :| r in Elements(ws.members) && Reaches(PathGraph(ws), r, id);
      var p :| PathBetween(PathGraph(ws), r, id, p);
      ChainIsPath(ws, p);
      AsksIsUnmatched(ws, resolve, id, src);
    }
    if SourceOutgrown(ws, resolve, src) {
      var p :| Chain(ws, p) && AsksForMore(ws, resolve, p[|p| - 1], src);
      ChainIsPath(ws, p);
      assert PathBetween(PathGraph(ws), p[0], p[|p| - 1], p);
      AsksIsUnmatched(ws, resolve, p[|p| - 1], src);
      assert InPlay(ws, p[|p| - 1]);
    }
  }

  /** `r` is to be updated, or its source is, and `x` is `r` or something it needs. */
  ghost predicate UpdateReaches(ws: Workspace, resolve: Resolve, keep: PackageKey -> bool, x: PackageKey) {
    exists r :: r in resolve && (!keep(r) || SourceOutgrown(ws, resolve, r.source)) && Reaches(resolve, r, x)
  }

  /**
   If every path package of the previous graph is still what lies at its path, the packages that stay locked
   are exactly those no update reaches.
   */
  lemma LockedExactly(ws: Workspace, resolve: Resolve, keep: PackageKey -> bool, order: seq<PackageKey>,
                      avoid: set<PackageKey>, n: PackageKey)
    requires MayAvoid(ws, resolve, keep, order, avoid) && n in resolve
    requires forall m :: m in resolve && m.source in ws.pathPkg ==> ws.pathPkg[m.source] == m
    ensures keep(n) && n !in avoid <==> !UpdateReaches(ws, resolve, keep, n)
  {
    var roots := Roots(ws, resolve, keep);
    assert Changed(ws, resolve, keep) == {};
    NoChangedMeansExactClosure(resolve, roots, avoid);
    forall r | r in resolve ensures IsPoisoned(ws, resolve, r.source) <==> SourceOutgrown(ws, resolve, r.source) {
      PoisonedExactly(ws, resolve, r.source);
    }
    assert UpdateReaches(ws, resolve, keep, n) <==> ReachedFrom(resolve, roots, n);
    assert n in roots ==> n in avoid;
  }

  const APP := PackageKey("app", "1", "git")
  const LIB := PackageKey("lib", "1", "path")
  const LOG := PackageKey("log", "1", "registry")

  /** `app` depends on `lib` and `lib` on `log`; on disk, `lib` has a new version. */
  function ThreeInARow(): Resolve {
    map[APP := {LIB}, LIB := {LOG}, LOG := {}]
  }

  function NewLibOnDisk(): Workspace {
    Workspace([], map["path" := PackageKey("lib", "2", "path")], map[])
  }

  predicate AllButApp(id: PackageKey) {
    id.name != "app"
  }

  lemma LogIsReachedNotCovered()
    ensures var ws, g := NewLibOnDisk(), ThreeInARow();
      && ReachedFrom(g, Roots(ws, g, AllButApp), LOG)
      && LOG !in Covered(g, Changed(ws, g, AllButApp), Roots(ws, g, AllButApp))
  {
    var ws, g := NewLibOnDisk(), ThreeInARow();
    var roots, changed := Roots(ws, g, AllButApp), Changed(ws, g, AllButApp);
    assert APP in roots && LIB in changed;
    ReachesSelf(g, LOG);
    ReachesStep(g, LIB, LOG, LOG);
    ReachesStep(g, APP, LIB, LOG);
    forall r | r in roots ensures r == APP {
      NothingPoisoned(ws, g, r.source);
    }
    forall p | PathBetween(g, APP, LOG, p) ensures !Avoids(p, changed) {
      assert p[1] in Succ(g, p[0]) && p[1] == LIB;
    }
  }

  lemma NothingPoisoned(ws: Workspace, resolve: Resolve, src: SourceKey)
    requires ws.members == []
    ensures !IsPoisoned(ws, resolve, src)
  {
    assert Elements(ws.members) == {};
  }

  /** Updating `app` while `lib` comes first in the iteration order leaves `log` locked, although `app` reaches it. */
  method ClosureFailsBehindChanged() returns (locks: seq<Registered>)
    ensures exists l :: l in locks && l.id == LOG
    ensures ReachedFrom(ThreeInARow(), Roots(NewLibOnDisk(), ThreeInARow(), AllButApp), LOG)
  {
    var ws, resolve, order := NewLibOnDisk(), ThreeInARow(), [LIB, APP, LOG];
    assert ChangedFirst(ws, AllButApp, order);
    var avoid;
    locks, avoid := RegisterPreviousLocks(ws, resolve, AllButApp, order);
    LogIsReachedNotCovered();
    MarkedCovers(resolve, Changed(ws, resolve, AllButApp), Roots(ws, resolve, AllButApp), avoid);
  }
}
