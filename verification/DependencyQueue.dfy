/**
 `DependencyQueue` itself: five fields updated in place. Each method is tied to the state
 machine of `DependencyQueueSpec`; iteration over a hash map or set takes its elements in
 an arbitrary order.
 */
module DependencyQueue {
  import opened Collections
  import opened Digraph
  import opened DependencyQueueSpec

  /** The marker `depth` stores for a key whose computation has begun: `!0` as a 64-bit `usize`. */
  const IN_PROGRESS: nat := 0xFFFF_FFFF_FFFF_FFFF

  // ---- the memoised depth computation ----

  predicate IsDone<K>(results: map<K, nat>, k: K) {
    k in results && results[k] != IN_PROGRESS
  }

  ghost function DoneKeys<K>(results: map<K, nat>): set<K> {
    set k | k in results && results[k] != IN_PROGRESS
  }

  /** A memo entry is final: longest chain, dependents final and shallower, and bounded by the entries made. */
  ghost predicate Settled<K(!new)>(m: map<K, set<K>>, results: map<K, nat>, k: K)
    requires k in results
  {
    && IsLongestChain(m, k, results[k])
    && (forall d :: d in Succ(m, k) ==> IsDone(results, d) && results[d] < results[k])
    && results[k] <= |DoneKeys(results)|
  }

  /** The memo while the keys of `stack` are being computed, outermost first. */
  ghost predicate Memo<K(!new)>(m: map<K, set<K>>, results: map<K, nat>, stack: seq<K>) {
    && (forall k :: k in stack <==> k in results && results[k] == IN_PROGRESS)
    && (forall k :: IsDone(results, k) ==> Settled(m, results, k))
  }

  ghost predicate Extends<K>(old': map<K, nat>, new': map<K, nat>) {
    forall k :: k in old' ==> k in new' && new'[k] == old'[k]
  }

  lemma RevisitIsCycle<K(!new)>(m: map<K, set<K>>, stack: seq<K>, key: K)
    requires IsPath(m, stack + [key]) && key in stack
    ensures !Acyclic(m)
  {
    var i :| 0 <= i < |stack| && stack[i] == key;
    PathSuffix(m, stack + [key], i);
    assert (stack + [key])[i..][0] == key;
  }

  lemma MemoMarks<K(!new)>(m: map<K, set<K>>, results: map<K, nat>, stack: seq<K>, key: K)
    requires Memo(m, results, stack) && key !in results
    ensures Memo(m, results[key := IN_PROGRESS], stack + [key])
  {
    var marked := results[key := IN_PROGRESS];
    assert DoneKeys(marked) == DoneKeys(results);
    forall k | IsDone(marked, k) ensures Settled(m, marked, k) {
      assert Settled(m, results, k);
    }
  }

  lemma LongestChainOfMax<K(!new)>(m: map<K, set<K>>, results: map<K, nat>, key: K, best: nat)
    requires forall d :: d in Succ(m, key) ==> d in results && IsLongestChain(m, d, results[d]) && results[d] <= best
    requires best == 0 || exists d :: d in Succ(m, key) && results[d] == best
    ensures IsLongestChain(m, key, best + 1)
  {
    if best == 0 {
      assert ChainFrom(m, key, [key]);
    } else {
      var d :| d in Succ(m, key) && results[d] == best;
      var p :| ChainFrom(m, d, p) && |p| == best;
      PathCons(m, key, p);
      assert ChainFrom(m, key, [key] + p);
    }
    forall p | ChainFrom(m, key, p) ensures |p| <= best + 1 {
      if |p| > 1 {
        PathSuffix(m, p, 1);
        assert p[1] in Succ(m, p[0]);
        assert ChainFrom(m, p[1], p[1..]);
      }
    }
  }

  lemma MemoSettles<K(!new)>(m: map<K, set<K>>, results: map<K, nat>, stack: seq<K>, key: K, best: nat)
    requires Memo(m, results, stack + [key]) && key !in stack
    requires forall d :: d in Succ(m, key) ==> IsDone(results, d) && results[d] <= best
    requires best == 0 || exists d :: d in Succ(m, key) && results[d] == best
    requires best + 1 < IN_PROGRESS
    ensures Memo(m, results[key := best + 1], stack)
  {
    var settled := results[key := best + 1];
    assert key in stack + [key];
    assert DoneKeys(settled) == DoneKeys(results) + {key};
    forall d | d in Succ(m, key) ensures IsLongestChain(m, d, results[d]) && results[d] <= |DoneKeys(results)| {
      assert Settled(m, results, d);
    }
    LongestChainOfMax(m, results, key, best);
    forall k | IsDone(settled, k) ensures Settled(m, settled, k) {
      if k != key {
        assert IsDone(results, k) && Settled(m, results, k);
      }
    }
    forall k ensures k in stack <==> k in settled && settled[k] == IN_PROGRESS {
      assert k in stack + [key] <==> k in stack || k == key;
    }
  }

  /** `best` is the greatest depth in `keys`, all of which are done, or zero if there are none. */
  ghost predicate IsDeepest<K(!new)>(results: map<K, nat>, keys: set<K>, best: nat) {
    && (forall d :: d in keys ==> IsDone(results, d) && results[d] <= best)
    && (best == 0 || exists d :: d in keys && IsDone(results, d) && results[d] == best)
  }

  lemma FewerLeft<K>(universe: set<K>, before: map<K, nat>, after: map<K, nat>, key: K)
    requires key in universe && key !in before && key in after && before.Keys <= after.Keys
    ensures universe - after.Keys < universe - before.Keys
  {
    assert key in universe - before.Keys && key !in universe - after.Keys;
  }

  /**
   `depth`: `ok` is false where the source panics with "cycle in DependencyQueue". It terminates
   on every graph, and it panics only when there is a cycle.
   */
  method Depth<K(!new)>(key: K, m: map<K, set<K>>, results: map<K, nat>,
                        ghost stack: seq<K>, ghost universe: set<K>)
    returns (ok: bool, depth: nat, results': map<K, nat>)
    requires key in universe && Closed(m, universe) && results.Keys <= universe && |universe| < IN_PROGRESS
    requires IsPath(m, stack + [key]) && Memo(m, results, stack)
    ensures !ok ==> !Acyclic(m)
    ensures ok ==> Memo(m, results', stack) && Extends(results, results') && results'.Keys <= universe
    ensures ok ==> IsDone(results', key) && results'[key] == depth
    decreases universe - results.Keys, 0
  {
    if key in results {
      if results[key] == IN_PROGRESS {
        RevisitIsCycle(m, stack, key);
        return false, 0, results;
      }
      return true, results[key], results;
    }
    ghost var inner := stack + [key];
    MemoMarks(m, results, stack, key);
    FewerLeft(universe, results, results[key := IN_PROGRESS], key);
    var best;
    ok, best, results' := DepthOfDependents(key, m, results[key := IN_PROGRESS], inner, universe);
    if !ok {
      return false, 0, results';
    }
    DepthSettles(m, results', stack, key, best, universe);
    depth := best + 1;
    results' := results'[key := depth];
  }

  /** The greatest depth among the dependents of `key`, whose own entry is marked. */
  method DepthOfDependents<K(!new)>(key: K, m: map<K, set<K>>, results: map<K, nat>,
                                    ghost inner: seq<K>, ghost universe: set<K>)
    returns (ok: bool, best: nat, results': map<K, nat>)
    requires key in universe && Closed(m, universe) && results.Keys <= universe && |universe| < IN_PROGRESS
    requires IsPath(m, inner) && inner[|inner| - 1] == key && Memo(m, results, inner)
    ensures !ok ==> !Acyclic(m)
    ensures ok ==> Memo(m, results', inner) && Extends(results, results') && results'.Keys <= universe
    ensures ok ==> IsDeepest(results', Succ(m, key), best)
    decreases universe - results.Keys, 1
  {
    results', best := results, 0;
    var todo := Succ(m, key);
    while todo != {}
      invariant todo <= Succ(m, key)
      invariant Memo(m, results', inner) && Extends(results, results') && results'.Keys <= universe
      invariant IsDeepest(results', Succ(m, key) - todo, best)
      decreases todo
    {
      var dep :| dep in todo;
      PathJoin(m, inner, [dep]);
      var one: nat, results'';
      ok, one, results'' := Depth(dep, m, results', inner, universe);
      if !ok {
        return false, 0, results'';
      }
      assert Succ(m, key) - (todo - {dep}) == Succ(m, key) - todo + {dep};
      best := if one > best then one else best;
      todo, results' := todo - {dep}, results'';
    }
    assert Succ(m, key) - todo == Succ(m, key);
    ok := true;
  }

  /** The number of settled keys bounds every depth, so no depth collides with the marker. */
  lemma DepthIsBounded<K(!new)>(m: map<K, set<K>>, results: map<K, nat>, stack: seq<K>, key: K, best: nat,
                                universe: set<K>)
    requires Memo(m, results, stack) && results.Keys <= universe && key in stack
    requires best == 0 || exists d :: d in Succ(m, key) && IsDone(results, d) && results[d] == best
    ensures best + 1 <= |universe|
  {
    assert key in results && key !in DoneKeys(results);
    SubsetSize(DoneKeys(results) + {key}, universe);
    if best != 0 {
      var d :| d in Succ(m, key) && IsDone(results, d) && results[d] == best;
      assert Settled(m, results, d);
    }
  }

  lemma DepthSettles<K(!new)>(m: map<K, set<K>>, results: map<K, nat>, stack: seq<K>, key: K, best: nat,
                              universe: set<K>)
    requires Memo(m, results, stack + [key]) && key !in stack && results.Keys <= universe && |universe| < IN_PROGRESS
    requires IsDeepest(results, Succ(m, key), best)
    ensures best + 1 < IN_PROGRESS && Memo(m, results[key := best + 1], stack)
  {
    assert key in stack + [key];
    DepthIsBounded(m, results, stack + [key], key, best, universe);
    MemoSettles(m, results, stack, key, best);
  }

  /** Depths that strictly fall along every edge leave no room for a cycle. */
  lemma {:induction false} SettledPathFalls<K(!new)>(m: map<K, set<K>>, results: map<K, nat>, p: seq<K>)
    requires Memo(m, results, []) && IsPath(m, p) && |p| > 1 && IsDone(results, p[0])
    ensures IsDone(results, p[|p| - 1]) && results[p[|p| - 1]] < results[p[0]]
    decreases |p|
  {
    assert Settled(m, results, p[0]) && p[1] in Succ(m, p[0]);
    if |p| > 2 {
      PathSuffix(m, p, 1);
      SettledPathFalls(m, results, p[1..]);
    }
  }

  lemma AddReverseNothing<K>(reverse: map<K, set<K>>, key: K)
    ensures AddReverse(reverse, key, {}) == reverse
  {
    assert forall d :: d in reverse ==> Succ(reverse, d) + {} == reverse[d];
  }

  lemma AddReverseOne<K>(reverse: map<K, set<K>>, key: K, deps: set<K>, dep: K)
    ensures var r := AddReverse(reverse, key, deps);
      r[dep := Succ(r, dep) + {key}] == AddReverse(reverse, key, deps + {dep})
  {
    var r := AddReverse(reverse, key, deps);
    assert Succ(r, dep) + {key} == Succ(reverse, dep) + {key};
  }

  class DependencyQueue<K(==,!new), V> {
    var depMap: map<K, (set<K>, V)>
    var reverseDepMap: map<K, set<K>>
    var dirty: set<K>
    var pending: set<K>
    var depth: map<K, nat>

    ghost function Value(): State<K, V>
      reads this
    {
      State(depMap, reverseDepMap, dirty, pending, depth)
    }

    constructor ()
      ensures Value() == Fill<K, V>([])
    {
      depMap, reverseDepMap, dirty, pending, depth := map[], map[], {}, {}, map[];
    }

    /** Returns the value now stored for `key`, which is the older one when `key` was already queued. */
    method Queue(freshness: Freshness, key: K, value: V, dependencies: seq<K>) returns (slot: V)
      modifies this
      ensures Value() == QueueState(old(Value()), Entry(freshness, key, value, dependencies))
      ensures key in depMap && slot == depMap[key].1
    {
      if key in depMap {
        return depMap[key].1;
      }
      if freshness.Dirty? {
        dirty := dirty + {key};
      }
      var mine := {};
      AddReverseNothing(reverseDepMap, key);
      for i := 0 to |dependencies|
        invariant mine == Elements(dependencies[..i])
        invariant reverseDepMap == AddReverse(old(reverseDepMap), key, mine)
        invariant depMap == old(depMap) && pending == old(pending) && depth == old(depth)
        invariant dirty == old(dirty) + (if freshness.Dirty? then {key} else {})
      {
        var dep := dependencies[i];
        assert Elements(dependencies[..i + 1]) == mine + {dep};
        AddReverseOne(old(reverseDepMap), key, mine, dep);
        mine := mine + {dep};
        reverseDepMap := reverseDepMap[dep := Succ(reverseDepMap, dep) + {key}];
      }
      assert dependencies[..|dependencies|] == dependencies;
      depMap := depMap[key := (mine, value)];
      slot := value;
    }

    /**
     `ok` is false where the source panics. Sealing succeeds exactly when the graph of dependents
     has no cycle, and it then knows the longest chain of dependents of every queued key.
     */
    method QueueFinished() returns (ok: bool)
      requires depth == map[]
      requires forall d :: d in reverseDepMap ==> reverseDepMap[d] <= depMap.Keys
      requires |depMap| < IN_PROGRESS
      modifies this`depth
      ensures ok <==> Acyclic(reverseDepMap)
      ensures ok ==> DepthsComputed(Value())
      ensures ok ==> forall k :: k in depMap ==> depth[k] != IN_PROGRESS
      ensures ok ==> forall d, k :: d in depMap && k in Succ(reverseDepMap, d) ==> depth[k] < depth[d]
    {
      ghost var m, universe := reverseDepMap, depMap.Keys;
      var todo := depMap.Keys;
      while todo != {}
        invariant todo <= universe == depMap.Keys
        invariant Memo(m, depth, []) && depth.Keys <= universe
        invariant forall k :: k in universe - todo ==> IsDone(depth, k)
        decreases todo
      {
        var key :| key in todo;
        assert [] + [key] == [key];
        ghost var before := depth;
        var one, results;
        ok, one, results := Depth(key, reverseDepMap, depth, [], universe);
        if !ok {
          return;
        }
        depth := results;
        forall k | k in universe - todo ensures IsDone(depth, k) {
          assert k in before;
        }
        todo := todo - {key};
      }
      ok := true;
      forall k | k in depMap.Keys ensures k in depth.Keys {
        assert k in universe - todo;
      }
      forall k | k in depth ensures IsDone(depth, k) && Settled(m, depth, k) {
      }
      forall p | IsPath(m, p) && |p| > 1 ensures p[0] != p[|p| - 1] {
        assert p[1] in Succ(m, p[0]);
        if p[0] == p[|p| - 1] {
          assert p[|p| - 1] in Succ(m, p[|p| - 2]);
          SettledPathFalls(m, depth, p);
        }
      }
    }

    method Dequeue() returns (r: Option<(Freshness, K, V)>)
      requires depMap.Keys <= depth.Keys
      modifies this`depMap, this`pending
      ensures r.None? ==> Step(old(Value()), NothingReady, Value())
      ensures r.Some? ==> Step(old(Value()), Dequeued(r.value.0, r.value.1, r.value.2), Value())
    {
      var next: Option<K> := None;
      var todo := depMap.Keys;
      while todo != {}
        invariant todo <= depMap.Keys
        invariant next.Some? ==> Ready(Value(), next.value) && next.value !in todo
        invariant forall o :: Ready(Value(), o) && o !in todo ==> next.Some? && depth[o] <= depth[next.value]
        decreases todo
      {
        var k :| k in todo;
        if depMap[k].0 == {} && (next.None? || depth[next.value] <= depth[k]) {
          next := Some(k);
        }
        todo := todo - {k};
      }
      if next.None? {
        return None;
      }
      var key := next.value;
      var data := depMap[key].1;
      var freshness := if key in dirty then Dirty else Fresh;
      depMap := depMap - {key};
      pending := pending + {key};
      r := Some((freshness, key, data));
    }

    /** The preconditions are the assertions and the `unwrap` of the source. */
    method Finish(key: K, freshness: Freshness)
      requires FinishIsSafe(Value(), key)
      modifies this`depMap, this`pending, this`dirty
      ensures Value() == FinishState(old(Value()), key, freshness)
    {
      pending := pending - {key};
      if key !in reverseDepMap {
        return;
      }
      var reverseDeps := reverseDepMap[key];
      var todo := reverseDeps;
      while todo != {}
        invariant todo <= reverseDeps && pending == old(pending) - {key}
        invariant dirty == old(dirty) + (if freshness.Dirty? then reverseDeps - todo else {})
        invariant depMap == Without(old(depMap), reverseDeps - todo, key)
        decreases todo
      {
        var dep :| dep in todo;
        if freshness.Dirty? {
          dirty := dirty + {dep};
        }
        assert dep in depMap && key in depMap[dep].0;
        depMap := depMap[dep := (depMap[dep].0 - {key}, depMap[dep].1)];
        assert reverseDeps - (todo - {dep}) == reverseDeps - todo + {dep};
        todo := todo - {dep};
      }
      assert reverseDeps - todo == reverseDeps;
    }

    method IsEmpty() returns (r: bool)
      ensures r == DependencyQueueSpec.IsEmpty(Value())
      ensures r <==> DependencyQueueSpec.Len(Value()) == 0
    {
      r := |depMap| == 0 && |pending| == 0;
    }

    method Len() returns (n: nat)
      ensures n == DependencyQueueSpec.Len(Value())
    {
      n := |depMap| + |pending|;
    }
  }
}
