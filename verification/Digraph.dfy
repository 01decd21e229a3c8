/**
 Finite directed graphs as the components of Cargo use them: a map from a node to
 the set of its direct successors, where a node without an entry has none.

 Reachability is defined by explicit paths, so that the results about the graph
 walks in the other modules are stated against something no walk computes.
 */
module Digraph {

  function Succ<K>(g: map<K, set<K>>, k: K): set<K> {
    if k in g then g[k] else {}
  }

  ghost predicate IsPath<K>(g: map<K, set<K>>, p: seq<K>) {
    && p != []
    && forall i, j :: 0 <= i < |p| && j == i + 1 < |p| ==> p[j] in Succ(g, p[i])
  }

  ghost predicate PathBetween<K>(g: map<K, set<K>>, a: K, b: K, p: seq<K>) {
    IsPath(g, p) && p[0] == a && p[|p| - 1] == b
  }

  ghost predicate Reaches<K(!new)>(g: map<K, set<K>>, a: K, b: K) {
    exists p :: PathBetween(g, a, b, p)
  }

  ghost predicate Avoids<K>(p: seq<K>, avoid: set<K>) {
    forall i :: 0 <= i < |p| ==> p[i] !in avoid
  }

  /** `b` is reachable from `a` along nodes outside `avoid`, both ends included. */
  ghost predicate ReachesAvoiding<K(!new)>(g: map<K, set<K>>, avoid: set<K>, a: K, b: K) {
    exists p :: PathBetween(g, a, b, p) && Avoids(p, avoid)
  }

  ghost predicate Acyclic<K(!new)>(g: map<K, set<K>>) {
    forall p :: IsPath(g, p) && |p| > 1 ==> p[0] != p[|p| - 1]
  }

  ghost predicate Closed<K>(g: map<K, set<K>>, s: set<K>) {
    forall x :: x in s ==> Succ(g, x) <= s
  }

  lemma PathPrefix<K>(g: map<K, set<K>>, p: seq<K>, n: nat)
    requires IsPath(g, p) && 0 < n <= |p|
    ensures IsPath(g, p[..n])
  {
  }

  lemma PathSuffix<K>(g: map<K, set<K>>, p: seq<K>, n: nat)
    requires IsPath(g, p) && n < |p|
    ensures IsPath(g, p[n..])
  {
  }

  lemma PathCons<K>(g: map<K, set<K>>, a: K, p: seq<K>)
    requires IsPath(g, p) && p[0] in Succ(g, a)
    ensures IsPath(g, [a] + p)
  {
    forall i, j | 0 <= i < |p| + 1 && j == i + 1 < |p| + 1
      ensures ([a] + p)[j] in Succ(g, ([a] + p)[i])
    {
      if i > 0 {
        assert ([a] + p)[i] == p[i - 1] && ([a] + p)[j] == p[j - 1];
      }
    }
  }

  lemma PathJoin<K>(g: map<K, set<K>>, p: seq<K>, q: seq<K>)
    requires IsPath(g, p) && IsPath(g, q) && q[0] in Succ(g, p[|p| - 1])
    ensures IsPath(g, p + q)
  {
    var r := p + q;
    forall i, j | 0 <= i < |r| && j == i + 1 < |r|
      ensures r[j] in Succ(g, r[i])
    {
      if i >= |p| {
        assert r[i] == q[i - |p|] && r[j] == q[j - |p|];
      }
    }
  }

  lemma ReachesSelf<K(!new)>(g: map<K, set<K>>, a: K)
    ensures Reaches(g, a, a)
  {
    assert PathBetween(g, a, a, [a]);
  }

  lemma ReachesStep<K(!new)>(g: map<K, set<K>>, a: K, b: K, c: K)
    requires b in Succ(g, a) && Reaches(g, b, c)
    ensures Reaches(g, a, c)
  {
    var p :| PathBetween(g, b, c, p);
    PathCons(g, a, p);
    assert PathBetween(g, a, c, [a] + p);
  }

  lemma ReachesThen<K(!new)>(g: map<K, set<K>>, a: K, b: K, c: K)
    requires Reaches(g, a, b) && c in Succ(g, b)
    ensures Reaches(g, a, c)
  {
    var p :| PathBetween(g, a, b, p);
    PathJoin(g, p, [c]);
    assert PathBetween(g, a, c, p + [c]);
  }

  /** The first edge of a path between two different nodes. */
  lemma ReachesFirstEdge<K(!new)>(g: map<K, set<K>>, a: K, b: K) returns (d: K)
    requires Reaches(g, a, b) && a != b
    ensures d in Succ(g, a) && Reaches(g, d, b)
  {
    var p :| PathBetween(g, a, b, p);
    d := p[1];
    PathSuffix(g, p, 1);
    assert PathBetween(g, d, b, p[1..]);
  }

  /** A set closed under successors holds everything reachable from its members. */
  lemma {:induction false} ClosedHoldsPath<K>(g: map<K, set<K>>, s: set<K>, p: seq<K>)
    requires Closed(g, s) && IsPath(g, p) && p[0] in s
    ensures p[|p| - 1] in s
    decreases |p|
  {
    if |p| > 1 {
      PathSuffix(g, p, 1);
      ClosedHoldsPath(g, s, p[1..]);
    }
  }

  lemma ClosedHoldsReachable<K(!new)>(g: map<K, set<K>>, s: set<K>, a: K, b: K)
    requires Closed(g, s) && a in s && Reaches(g, a, b)
    ensures b in s
  {
    var p :| PathBetween(g, a, b, p);
    ClosedHoldsPath(g, s, p);
  }

  /** The same along paths that stay outside `avoid`. */
  lemma {:induction false} PathAvoidingStaysIn<K>(g: map<K, set<K>>, avoid: set<K>, s: set<K>, p: seq<K>)
    requires forall x :: x in s && x !in avoid ==> Succ(g, x) <= s
    requires IsPath(g, p) && Avoids(p, avoid) && p[0] in s
    ensures p[|p| - 1] in s
    decreases |p|
  {
    if |p| > 1 {
      PathSuffix(g, p, 1);
      assert p[0] in s && p[0] !in avoid;
      assert p[1] in Succ(g, p[0]);
      assert Avoids(p[1..], avoid);
      PathAvoidingStaysIn(g, avoid, s, p[1..]);
    }
  }

  /** Every node of `g`, sources and targets of edges alike. */
  ghost function Nodes<K>(g: map<K, set<K>>): set<K> {
    g.Keys + set k, s | k in g && s in g[k] :: s
  }

  ghost function ReachSet<K(!new)>(g: map<K, set<K>>, a: K): (r: set<K>)
    ensures forall x :: x in r <==> Reaches(g, a, x)
  {
    var s := set x | x in Nodes(g) + {a} && Reaches(g, a, x);
    assert forall x :: Reaches(g, a, x) ==> x in s by {
      forall x | Reaches(g, a, x) ensures x in s {
        assert Closed(g, Nodes(g) + {a});
        ClosedHoldsReachable(g, Nodes(g) + {a}, a, x);
      }
    }
    s
  }

  /** On an acyclic graph the number of reachable nodes shrinks along every edge. */
  ghost function Rank<K(!new)>(g: map<K, set<K>>, a: K): nat {
    |ReachSet(g, a)|
  }

  lemma RankDecreases<K(!new)>(g: map<K, set<K>>, a: K, b: K)
    requires Acyclic(g) && b in Succ(g, a)
    ensures Rank(g, b) < Rank(g, a)
  {
    ReachesSelf(g, a);
    forall x | x in ReachSet(g, b) ensures x in ReachSet(g, a) {
      ReachesStep(g, a, b, x);
    }
    if a in ReachSet(g, b) {
      var p :| PathBetween(g, b, a, p);
      PathCons(g, a, p);
      assert false;
    }
    assert ReachSet(g, b) <= ReachSet(g, a) - {a};
    SubsetSize(ReachSet(g, b), ReachSet(g, a) - {a});
  }

  lemma {:induction false} SubsetSize<K>(a: set<K>, b: set<K>)
    requires a <= b
    ensures |a| <= |b|
  {
    if a != {} {
      var x :| x in a;
      SubsetSize(a - {x}, b - {x});
    }
  }

  lemma {:induction false} PathFalls<K>(g: map<K, set<K>>, f: K -> nat, p: seq<K>)
    requires forall a, b :: a in g && b in g[a] ==> f(b) < f(a)
    requires IsPath(g, p) && |p| > 1
    ensures f(p[|p| - 1]) < f(p[0])
    decreases |p|
  {
    assert p[1] in Succ(g, p[0]);
    if |p| > 2 {
      PathSuffix(g, p, 1);
      PathFalls(g, f, p[1..]);
    }
  }

  lemma FallingIsAcyclic<K(!new)>(g: map<K, set<K>>, f: K -> nat)
    requires forall a, b :: a in g && b in g[a] ==> f(b) < f(a)
    ensures Acyclic(g)
  {
    forall p | IsPath(g, p) && |p| > 1 ensures p[0] != p[|p| - 1] {
      PathFalls(g, f, p);
    }
  }
}
