/**
 The two visited-set walks over a resolve graph: `add_deps` of src/cargo/ops/resolve.rs and
 `fill_with_deps` of src/cargo/ops/cargo_generate_lockfile.rs. Both stop at a node that is
 already in the set, whether or not that node's dependencies are.
 */
module GraphWalk {
  import opened Digraph

  /** Everything reachable from `node` along nodes outside `avoid`. */
  ghost function NewlyReached<K(!new)>(g: map<K, set<K>>, avoid: set<K>, node: K): (r: set<K>)
    ensures forall x :: x in r <==> ReachesAvoiding(g, avoid, node, x)
    ensures r !! avoid
  {
    var s := set x | x in ReachSet(g, node) && ReachesAvoiding(g, avoid, node, x);
    assert forall x :: ReachesAvoiding(g, avoid, node, x) ==> Reaches(g, node, x) && x in s;
    s
  }

  lemma AvoidingStep<K(!new)>(g: map<K, set<K>>, avoid: set<K>, a: K, b: K, c: K)
    requires ReachesAvoiding(g, avoid, a, b) && c in Succ(g, b) && c !in avoid
    ensures ReachesAvoiding(g, avoid, a, c)
  {
    var p :| PathBetween(g, a, b, p) && Avoids(p, avoid);
    PathJoin(g, p, [c]);
    assert PathBetween(g, a, c, p + [c]) && Avoids(p + [c], avoid);
  }

  lemma AvoidingFirst<K(!new)>(g: map<K, set<K>>, avoid: set<K>, more: set<K>, a: K, b: K, c: K)
    requires a !in avoid && b in Succ(g, a) && avoid <= more && ReachesAvoiding(g, more, b, c)
    ensures ReachesAvoiding(g, avoid, a, c)
  {
    var p :| PathBetween(g, b, c, p) && Avoids(p, more);
    PathCons(g, a, p);
    assert PathBetween(g, a, c, [a] + p) && Avoids([a] + p, avoid);
  }

  lemma AvoidingSelf<K(!new)>(g: map<K, set<K>>, avoid: set<K>, a: K)
    requires a !in avoid
    ensures ReachesAvoiding(g, avoid, a, a)
  {
    assert PathBetween(g, a, a, [a]) && Avoids([a], avoid);
  }

  /** The nodes a walk adds have all their successors in the set it ends with. */
  lemma NewlyReachedIsClosed<K(!new)>(g: map<K, set<K>>, avoid: set<K>, node: K)
    ensures forall x :: x in NewlyReached(g, avoid, node) ==> Succ(g, x) <= avoid + NewlyReached(g, avoid, node)
  {
    forall x, d | x in NewlyReached(g, avoid, node) && d in Succ(g, x)
      ensures d in avoid + NewlyReached(g, avoid, node)
    {
      if d !in avoid {
        AvoidingStep(g, avoid, node, x, d);
      }
    }
  }

  /** A set that grew by nodes reached outside the old one, and is closed at all of them, grew by all of them. */
  lemma ClosedGrowthIsComplete<K(!new)>(g: map<K, set<K>>, before: set<K>, node: K, after: set<K>)
    requires before <= after && node in after && node !in before
    requires forall x :: x in after - before ==> ReachesAvoiding(g, before, node, x) && Succ(g, x) <= after
    ensures after == before + NewlyReached(g, before, node)
  {
    forall x | x in NewlyReached(g, before, node) ensures x in after {
      var p :| PathBetween(g, node, x, p) && Avoids(p, before);
      PathAvoidingStaysIn(g, before, after, p);
    }
  }

  /** From a dependency-closed set, the walk adds exactly what is reachable and stays closed. */
  lemma ClosedStart<K(!new)>(g: map<K, set<K>>, before: set<K>, node: K)
    requires Closed(g, before)
    ensures before + NewlyReached(g, before, node) == before + ReachSet(g, node)
    ensures Closed(g, before + ReachSet(g, node))
  {
    forall x | x in ReachSet(g, node) && x !in before ensures x in NewlyReached(g, before, node) {
      var p :| PathBetween(g, node, x, p);
      forall i | 0 <= i < |p| ensures p[i] !in before {
        if p[i] in before {
          PathSuffix(g, p, i);
          ClosedHoldsPath(g, before, p[i..]);
        }
      }
      assert Avoids(p, before);
    }
    forall x | ReachesAvoiding(g, before, node, x) ensures Reaches(g, node, x) {
    }
    forall x, d | x in before + ReachSet(g, node) && d in Succ(g, x) ensures d in before + ReachSet(g, node) {
      if x !in before {
        ReachesThen(g, node, x, d);
      }
    }
  }

  /** `add_deps`: terminates on every graph, cycles included. */
  method AddDeps<K(!new)>(resolve: map<K, set<K>>, node: K, visited: set<K>) returns (visited': set<K>)
    ensures visited' == visited + NewlyReached(resolve, visited, node)
    ensures Closed(resolve, visited) ==> visited' == visited + ReachSet(resolve, node) && Closed(resolve, visited')
    decreases (Nodes(resolve) + {node}) - visited
  {
    if Closed(resolve, visited) {
      ClosedStart(resolve, visited, node);
    }
    if node in visited {
      return visited;
    }
    visited' := visited + {node};
    AvoidingSelf(resolve, visited, node);
    var todo := Succ(resolve, node);
    while todo != {}
      invariant todo <= Succ(resolve, node)
      invariant visited + {node} <= visited' && Succ(resolve, node) - todo <= visited'
      invariant forall x :: x in visited' - visited ==> ReachesAvoiding(resolve, visited, node, x)
      invariant forall x :: x in visited' - visited - {node} ==> Succ(resolve, x) <= visited'
      decreases todo
    {
      var dep :| dep in todo;
      ghost var before := visited';
      NewlyReachedIsClosed(resolve, before, dep);
      visited' := AddDeps(resolve, dep, visited');
      forall x | x in visited' - before ensures ReachesAvoiding(resolve, visited, node, x) {
        AvoidingFirst(resolve, visited, before, node, dep, x);
      }
      AvoidingOrThere(resolve, before, dep);
      todo := todo - {dep};
    }
    ClosedGrowthIsComplete(resolve, visited, node, visited');
  }

  lemma AvoidingOrThere<K(!new)>(g: map<K, set<K>>, avoid: set<K>, node: K)
    ensures node in avoid + NewlyReached(g, avoid, node)
  {
    if node !in avoid {
      AvoidingSelf(g, avoid, node);
    }
  }

  /** `fill_with_deps`: the same walk, recording into a second set what it visits. */
  method FillWithDeps<K(!new)>(resolve: map<K, set<K>>, dep: K, acc: set<K>, visited: set<K>)
    returns (acc': set<K>, visited': set<K>)
    ensures visited' == visited + NewlyReached(resolve, visited, dep)
    ensures acc' == acc + NewlyReached(resolve, visited, dep)
    ensures visited == {} ==> acc' == acc + ReachSet(resolve, dep)
    decreases (Nodes(resolve) + {dep}) - visited
  {
    ClosedStart(resolve, {}, dep);
    if dep in visited {
      return acc, visited;
    }
    visited', acc' := visited + {dep}, acc + {dep};
    AvoidingSelf(resolve, visited, dep);
    var todo := Succ(resolve, dep);
    while todo != {}
      invariant todo <= Succ(resolve, dep) && acc' == acc + (visited' - visited)
      invariant visited + {dep} <= visited' && Succ(resolve, dep) - todo <= visited'
      invariant forall x :: x in visited' - visited ==> ReachesAvoiding(resolve, visited, dep, x)
      invariant forall x :: x in visited' - visited - {dep} ==> Succ(resolve, x) <= visited'
      decreases todo
    {
      var next :| next in todo;
      ghost var before := visited';
      NewlyReachedIsClosed(resolve, before, next);
      acc', visited' := FillWithDeps(resolve, next, acc', visited');
      forall x | x in visited' - before ensures ReachesAvoiding(resolve, visited, dep, x) {
        AvoidingFirst(resolve, visited, before, dep, next, x);
      }
      AvoidingOrThere(resolve, before, next);
      todo := todo - {next};
    }
    ClosedGrowthIsComplete(resolve, visited, dep, visited');
  }

  // ---- worklists ----

  ghost predicate ReachedFrom<K(!new)>(g: map<K, set<K>>, starts: set<K>, x: K) {
    exists r :: r in starts && Reaches(g, r, x)
  }

  /** A worklist: the starts and the successors of what was visited are visited or wait, and nothing else is there. */
  ghost predicate Worklist<K(!new)>(g: map<K, set<K>>, starts: set<K>, visited: set<K>, waiting: set<K>) {
    && starts <= visited + waiting
    && (forall v :: v in visited ==> Succ(g, v) <= visited + waiting)
    && (forall x :: x in visited + waiting ==> ReachedFrom(g, starts, x))
  }

  lemma WorklistStarts<K(!new)>(g: map<K, set<K>>, starts: set<K>)
    ensures Worklist(g, starts, {}, starts)
  {
    forall x | x in starts ensures ReachedFrom(g, starts, x) {
      ReachesSelf(g, x);
    }
  }

  lemma WorklistVisits<K(!new)>(g: map<K, set<K>>, starts: set<K>, visited: set<K>, waiting: set<K>, x: K,
                                waiting': set<K>)
    requires Worklist(g, starts, visited, waiting) && x in waiting
    requires waiting <= waiting' + {x} && waiting' <= waiting + Succ(g, x) && Succ(g, x) <= waiting'
    ensures Worklist(g, starts, visited + {x}, waiting')
  {
    var seen, seen' := visited + waiting, visited + {x} + waiting';
    assert x in seen && seen <= seen' <= seen + Succ(g, x);
    forall v | v in visited + {x} ensures Succ(g, v) <= seen' {
      if v in visited {
        assert Succ(g, v) <= seen;
      }
    }
    forall y | y in seen' ensures ReachedFrom(g, starts, y) {
      if y !in seen {
        ReachedNext(g, starts, x, y);
      }
    }
  }

  lemma ReachedNext<K(!new)>(g: map<K, set<K>>, starts: set<K>, x: K, y: K)
    requires ReachedFrom(g, starts, x) && y in Succ(g, x)
    ensures ReachedFrom(g, starts, y)
  {
    var r :| r in starts && Reaches(g, r, x);
    ReachesThen(g, r, x, y);
  }

  lemma ReachedIsInside<K(!new)>(g: map<K, set<K>>, starts: set<K>, x: K)
    requires ReachedFrom(g, starts, x)
    ensures x in Nodes(g) + starts
  {
    var r :| r in starts && Reaches(g, r, x);
    assert Closed(g, Nodes(g) + starts);
    ClosedHoldsReachable(g, Nodes(g) + starts, r, x);
  }

  lemma WorklistStaysInside<K(!new)>(g: map<K, set<K>>, starts: set<K>, visited: set<K>, waiting: set<K>)
    requires Worklist(g, starts, visited, waiting)
    ensures visited + waiting <= Nodes(g) + starts
  {
    forall x | x in visited + waiting ensures x in Nodes(g) + starts {
      ReachedIsInside(g, starts, x);
    }
  }

  /** When nothing waits, exactly what the starts reach was visited. */
  lemma WorklistEnds<K(!new)>(g: map<K, set<K>>, starts: set<K>, visited: set<K>)
    requires Worklist(g, starts, visited, {})
    ensures forall x :: x in visited <==> ReachedFrom(g, starts, x)
  {
    assert visited + {} == visited;
    forall x | ReachedFrom(g, starts, x) ensures x in visited {
      var r :| r in starts && Reaches(g, r, x);
      assert Closed(g, visited);
      ClosedHoldsReachable(g, visited, r, x);
    }
    forall x | x in visited ensures ReachedFrom(g, starts, x) {
      assert x in visited + {};
    }
  }
}
