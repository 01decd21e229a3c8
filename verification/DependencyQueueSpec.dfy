/**
 The build scheduler of src/cargo/util/dependency_queue.rs as a state machine, and
 what holds over every run of it: fill with `queue`, seal with `queue_finished`,
 then interleave `dequeue` and `finish` in any order the callers choose.
 */
module DependencyQueueSpec {
  import opened Collections
  import opened Digraph

  datatype Freshness = Fresh | Dirty {
    function Combine(other: Freshness): Freshness {
      if Fresh? then other else Dirty
    }
  }

  datatype State<K, V> = State(
    depMap: map<K, (set<K>, V)>,
    reverse: map<K, set<K>>,
    dirty: set<K>,
    pending: set<K>,
    depth: map<K, nat>)

  /** One call of `queue`. */
  datatype Entry<K, V> = Entry(freshness: Freshness, key: K, value: V, deps: seq<K>)

  datatype Event<K, V> =
    | Dequeued(freshness: Freshness, key: K, value: V)
    | NothingReady
    | Finished(key: K, freshness: Freshness)

  // ---- the operations on states ----

  function AddReverse<K>(reverse: map<K, set<K>>, key: K, deps: set<K>): map<K, set<K>> {
    map d | d in reverse.Keys + deps :: Succ(reverse, d) + (if d in deps then {key} else {})
  }

  function QueueState<K, V>(s: State<K, V>, e: Entry<K, V>): State<K, V> {
    if e.key in s.depMap then s
    else s.(depMap := s.depMap[e.key := (Elements(e.deps), e.value)],
            reverse := AddReverse(s.reverse, e.key, Elements(e.deps)),
            dirty := s.dirty + (if e.freshness.Dirty? then {e.key} else {}))
  }

  function FinishState<K, V>(s: State<K, V>, key: K, freshness: Freshness): State<K, V> {
    var dependents := Succ(s.reverse, key);
    s.(pending := s.pending - {key},
       dirty := s.dirty + (if freshness.Dirty? then dependents else {}),
       depMap := Without(s.depMap, dependents, key))
  }

  /** `key` is no longer something the keys in `dependents` wait for. */
  function Without<K, V>(depMap: map<K, (set<K>, V)>, dependents: set<K>, key: K): map<K, (set<K>, V)> {
    map k | k in depMap :: if k in dependents then (depMap[k].0 - {key}, depMap[k].1) else depMap[k]
  }

  predicate Ready<K, V>(s: State<K, V>, k: K) {
    k in s.depMap && s.depMap[k].0 == {}
  }

  /** What `dequeue` may hand out: a ready key no other ready key is deeper than. */
  ghost predicate DeepestReady<K(!new), V>(s: State<K, V>, k: K)
    requires s.depMap.Keys <= s.depth.Keys
  {
    Ready(s, k) && forall o :: Ready(s, o) ==> s.depth[o] <= s.depth[k]
  }

  function FreshnessOf<K, V>(s: State<K, V>, k: K): Freshness {
    if k in s.dirty then Dirty else Fresh
  }

  function DequeueState<K, V>(s: State<K, V>, k: K): State<K, V> {
    s.(depMap := s.depMap - {k}, pending := s.pending + {k})
  }

  ghost predicate Step<K(!new), V>(s: State<K, V>, e: Event<K, V>, t: State<K, V>) {
    match e
    case Dequeued(freshness, k, v) =>
      && s.depMap.Keys <= s.depth.Keys
      && DeepestReady(s, k) && freshness == FreshnessOf(s, k) && v == s.depMap[k].1
      && t == DequeueState(s, k)
    case NothingReady => (forall k :: !Ready(s, k)) && t == s
    case Finished(k, freshness) => k in s.pending && t == FinishState(s, k, freshness)
  }

  /** The two assertions and the `unwrap` that `finish` makes about a dependent. */
  ghost predicate FinishIsSafe<K(!new), V>(s: State<K, V>, key: K) {
    && key in s.pending
    && forall d :: d in Succ(s.reverse, key) ==> d in s.depMap && key in s.depMap[d].0
  }

  function Len<K, V>(s: State<K, V>): nat {
    |s.depMap| + |s.pending|
  }

  predicate IsEmpty<K, V>(s: State<K, V>) {
    s.depMap == map[] && s.pending == {}
  }

  // ---- filling ----

  function Fill<K, V>(entries: seq<Entry<K, V>>): State<K, V> {
    if entries == [] then State(map[], map[], {}, {}, map[])
    else QueueState(Fill(entries[..|entries| - 1]), entries[|entries| - 1])
  }

  function QueuedKeys<K, V>(entries: seq<Entry<K, V>>): set<K> {
    set i | 0 <= i < |entries| :: entries[i].key
  }

  function FirstEntry<K(==), V>(entries: seq<Entry<K, V>>, k: K): (e: Entry<K, V>)
    requires k in QueuedKeys(entries)
    ensures e.key == k
  {
    if entries[0].key == k then entries[0]
    else
      assert entries == entries[..1] + entries[1..];
      FirstEntry(entries[1..], k)
  }

  function Graph<K, V>(entries: seq<Entry<K, V>>): map<K, set<K>> {
    map k | k in QueuedKeys(entries) :: Elements(FirstEntry(entries, k).deps)
  }

  function QueuedDirty<K, V>(entries: seq<Entry<K, V>>): set<K> {
    set k | k in QueuedKeys(entries) && FirstEntry(entries, k).freshness.Dirty?
  }

  ghost predicate Converse<K(!new)>(g: map<K, set<K>>, reverse: map<K, set<K>>) {
    forall d, k :: k in Succ(reverse, d) <==> d in Succ(g, k)
  }

  lemma {:induction false} FirstEntryOfExtension<K, V>(entries: seq<Entry<K, V>>, e: Entry<K, V>, k: K)
    requires k in QueuedKeys(entries + [e])
    ensures FirstEntry(entries + [e], k) == if k in QueuedKeys(entries) then FirstEntry(entries, k) else e
  {
    if entries != [] && entries[0].key != k {
      assert (entries + [e])[1..] == entries[1..] + [e];
      assert entries == entries[..1] + entries[1..];
      assert k in QueuedKeys(entries[1..] + [e]) by {
        var i :| 0 <= i < |entries + [e]| && (entries + [e])[i].key == k;
        assert (entries[1..] + [e])[i - 1].key == k;
      }
      assert k in QueuedKeys(entries) <==> k in QueuedKeys(entries[1..]) by {
        if k in QueuedKeys(entries) {
          var i :| 0 <= i < |entries| && entries[i].key == k;
          assert entries[1..][i - 1].key == k;
        }
        if k in QueuedKeys(entries[1..]) {
          var i :| 0 <= i < |entries[1..]| && entries[1..][i].key == k;
          assert entries[i + 1].key == k;
        }
      }
      FirstEntryOfExtension(entries[1..], e, k);
    } else if entries != [] {
      assert entries[0].key in QueuedKeys(entries);
    }
  }

  /** What the callers asked for: the dependency graph, the values and the keys queued dirty. */
  datatype Plan<K, V> = Plan(graph: map<K, set<K>>, values: map<K, V>, dirty: set<K>)

  /** Only the first entry of a key counts; re-queuing a key adds nothing. */
  function PlanOf<K, V>(entries: seq<Entry<K, V>>): Plan<K, V> {
    Plan(Graph(entries), map k | k in QueuedKeys(entries) :: FirstEntry(entries, k).value, QueuedDirty(entries))
  }

  /** The queue holds exactly the plan, with nothing handed out yet. */
  ghost predicate Holds<K(!new), V>(s: State<K, V>, plan: Plan<K, V>) {
    && plan.values.Keys == plan.graph.Keys == s.depMap.Keys
    && (forall k :: k in s.depMap ==> s.depMap[k].0 == plan.graph[k] && s.depMap[k].1 == plan.values[k])
    && Converse(plan.graph, s.reverse)
    && s.dirty == plan.dirty && s.pending == {}
  }

  function ExtendPlan<K, V>(plan: Plan<K, V>, e: Entry<K, V>): Plan<K, V> {
    if e.key in plan.graph then plan
    else Plan(plan.graph[e.key := Elements(e.deps)], plan.values[e.key := e.value],
              plan.dirty + (if e.freshness.Dirty? then {e.key} else {}))
  }

  lemma QueueHoldsExtendedPlan<K(!new), V>(s: State<K, V>, plan: Plan<K, V>, e: Entry<K, V>)
    requires Holds(s, plan)
    ensures Holds(QueueState(s, e), ExtendPlan(plan, e))
  {
    if e.key !in s.depMap {
      ConverseExtends(plan.graph, s.reverse, e.key, Elements(e.deps));
    }
  }

  lemma ConverseExtends<K(!new)>(g: map<K, set<K>>, reverse: map<K, set<K>>, key: K, deps: set<K>)
    requires Converse(g, reverse) && key !in g
    ensures Converse(g[key := deps], AddReverse(reverse, key, deps))
  {
    forall d, k ensures k in Succ(AddReverse(reverse, key, deps), d) <==> d in Succ(g[key := deps], k) {
      assert k in Succ(reverse, d) <==> d in Succ(g, k);
    }
  }

  lemma KeysOfEntries<K, V>(entries: seq<Entry<K, V>>, e: Entry<K, V>)
    ensures QueuedKeys(entries + [e]) == QueuedKeys(entries) + {e.key}
  {
    var xs := entries + [e];
    forall k | k in QueuedKeys(entries) ensures k in QueuedKeys(xs) {
      var i :| 0 <= i < |entries| && entries[i].key == k;
      assert xs[i].key == k;
    }
    assert xs[|entries|].key == e.key;
  }

  lemma FirstEntriesOfExtension<K, V>(entries: seq<Entry<K, V>>, e: Entry<K, V>)
    ensures QueuedKeys(entries + [e]) == QueuedKeys(entries) + {e.key}
    ensures forall k :: k in QueuedKeys(entries + [e]) ==>
      FirstEntry(entries + [e], k) == if k in QueuedKeys(entries) then FirstEntry(entries, k) else e
  {
    KeysOfEntries(entries, e);
    forall k | k in QueuedKeys(entries + [e])
      ensures FirstEntry(entries + [e], k) == if k in QueuedKeys(entries) then FirstEntry(entries, k) else e
    {
      FirstEntryOfExtension(entries, e, k);
    }
  }

  lemma GraphOfExtension<K, V>(entries: seq<Entry<K, V>>, e: Entry<K, V>)
    ensures Graph(entries + [e]) == ExtendPlan(PlanOf(entries), e).graph
  {
    FirstEntriesOfExtension(entries, e);
  }

  lemma ValuesOfExtension<K, V>(entries: seq<Entry<K, V>>, e: Entry<K, V>)
    ensures PlanOf(entries + [e]).values == ExtendPlan(PlanOf(entries), e).values
  {
    FirstEntriesOfExtension(entries, e);
  }

  lemma DirtyOfExtension<K, V>(entries: seq<Entry<K, V>>, e: Entry<K, V>)
    ensures QueuedDirty(entries + [e]) == ExtendPlan(PlanOf(entries), e).dirty
  {
    FirstEntriesOfExtension(entries, e);
  }

  lemma PlanOfExtension<K, V>(entries: seq<Entry<K, V>>, e: Entry<K, V>)
    ensures PlanOf(entries + [e]) == ExtendPlan(PlanOf(entries), e)
  {
    GraphOfExtension(entries, e);
    ValuesOfExtension(entries, e);
    DirtyOfExtension(entries, e);
  }

  /** Filling records exactly the first entry of each key, and the converse graph. */
  lemma {:induction false} FillHoldsPlan<K(!new), V>(entries: seq<Entry<K, V>>)
    ensures Holds(Fill(entries), PlanOf(entries)) && Fill(entries).depth == map[]
  {
    if entries != [] {
      var init, e := entries[..|entries| - 1], entries[|entries| - 1];
      assert entries == init + [e];
      FillHoldsPlan(init);
      QueueHoldsExtendedPlan(Fill(init), PlanOf(init), e);
      PlanOfExtension(init, e);
    }
  }

  lemma ReversedPath<K(!new)>(g: map<K, set<K>>, reverse: map<K, set<K>>, p: seq<K>) returns (q: seq<K>)
    requires (forall d, k :: k in Succ(reverse, d) ==> d in Succ(g, k)) && IsPath(reverse, p)
    ensures IsPath(g, q) && |q| == |p| && q[0] == p[|p| - 1] && q[|q| - 1] == p[0]
  {
    q := seq(|p|, i requires 0 <= i < |p| => p[|p| - 1 - i]);
    forall i, j | 0 <= i < |q| && j == i + 1 < |q| ensures q[j] in Succ(g, q[i]) {
      assert p[|p| - 1 - i] in Succ(reverse, p[|p| - 1 - j]);
    }
  }

  /** Sealing looks at dependents; a cycle there is a cycle among dependencies, and conversely. */
  lemma ConverseIsAcyclicToo<K(!new), V>(s: State<K, V>, plan: Plan<K, V>)
    requires Holds(s, plan)
    ensures Acyclic(s.reverse) <==> Acyclic(plan.graph)
    ensures forall d :: d in s.reverse ==> s.reverse[d] <= s.depMap.Keys
  {
    forall p | IsPath(s.reverse, p) && |p| > 1 && Acyclic(plan.graph) ensures p[0] != p[|p| - 1] {
      var q := ReversedPath(plan.graph, s.reverse, p);
    }
    forall p | IsPath(plan.graph, p) && |p| > 1 && Acyclic(s.reverse) ensures p[0] != p[|p| - 1] {
      var q := ReversedPath(s.reverse, plan.graph, p);
    }
    forall d, k | d in s.reverse && k in s.reverse[d] ensures k in s.depMap.Keys {
      assert k in Succ(s.reverse, d) && d in Succ(plan.graph, k);
    }
  }

  // ---- depth ----

  ghost predicate ChainFrom<K>(m: map<K, set<K>>, k: K, p: seq<K>) {
    IsPath(m, p) && p[0] == k
  }

  /** `n` is the length of the longest chain of dependents that starts at `k`. */
  ghost predicate IsLongestChain<K(!new)>(m: map<K, set<K>>, k: K, n: nat) {
    && (exists p :: ChainFrom(m, k, p) && |p| == n)
    && (forall p :: ChainFrom(m, k, p) ==> |p| <= n)
  }

  ghost predicate DepthsComputed<K(!new), V>(s: State<K, V>) {
    && s.depMap.Keys <= s.depth.Keys
    && forall k :: k in s.depth ==> IsLongestChain(s.reverse, k, s.depth[k])
  }

  lemma DependentsAreShallower<K(!new)>(m: map<K, set<K>>, k: K, n: nat, d: K, l: nat)
    requires IsLongestChain(m, k, n) && IsLongestChain(m, d, l) && d in Succ(m, k)
    ensures l < n
  {
    var p :| ChainFrom(m, d, p) && |p| == l;
    PathCons(m, k, p);
    assert ChainFrom(m, k, [k] + p);
  }

  // ---- runs ----

  /** `ss[0]` is a filled and sealed queue, and each event leads from one state to the next. */
  ghost predicate IsRun<K(!new), V>(plan: Plan<K, V>, ss: seq<State<K, V>>, es: seq<Event<K, V>>) {
    && |ss| == |es| + 1
    && Holds(ss[0], plan) && DepthsComputed(ss[0])
    && forall i :: 0 <= i < |es| ==> StepAt(ss, es, i)
  }

  ghost predicate StepAt<K(!new), V>(ss: seq<State<K, V>>, es: seq<Event<K, V>>, i: nat)
    requires i < |es| && |ss| == |es| + 1
  {
    Step(ss[i], es[i], ss[i + 1])
  }

  lemma RunStep<K(!new), V>(plan: Plan<K, V>, ss: seq<State<K, V>>, es: seq<Event<K, V>>, i: nat)
    requires IsRun(plan, ss, es) && i < |es|
    ensures Step(ss[i], es[i], ss[i + 1])
  {
    assert StepAt(ss, es, i);
  }

  ghost function DequeuedKeys<K, V>(es: seq<Event<K, V>>): set<K> {
    set i | 0 <= i < |es| && es[i].Dequeued? :: es[i].key
  }

  ghost function FinishedKeys<K, V>(es: seq<Event<K, V>>): set<K> {
    set i | 0 <= i < |es| && es[i].Finished? :: es[i].key
  }

  lemma KeysOfExtension<K, V>(es: seq<Event<K, V>>, e: Event<K, V>)
    ensures DequeuedKeys(es + [e]) == DequeuedKeys(es) + (if e.Dequeued? then {e.key} else {})
    ensures FinishedKeys(es + [e]) == FinishedKeys(es) + (if e.Finished? then {e.key} else {})
  {
    var xs := es + [e];
    assert xs[|es|] == e;
    assert forall i :: 0 <= i < |es| ==> xs[i] == es[i];
    forall k | k in DequeuedKeys(es) ensures k in DequeuedKeys(xs) {
      var i :| 0 <= i < |es| && es[i].Dequeued? && es[i].key == k;
      assert xs[i].Dequeued? && xs[i].key == k;
    }
    forall k | k in FinishedKeys(es) ensures k in FinishedKeys(xs) {
      var i :| 0 <= i < |es| && es[i].Finished? && es[i].key == k;
      assert xs[i].Finished? && xs[i].key == k;
    }
  }

  /**
   The whole state is determined by the plan and by which keys have been taken and finished,
   and nothing has been taken before its dependencies were finished.
   */
  ghost predicate Explains<K(!new), V>(plan: Plan<K, V>, taken: set<K>, done: set<K>, s: State<K, V>) {
    && done <= taken <= plan.graph.Keys == plan.values.Keys
    && s.depMap.Keys == plan.graph.Keys - taken
    && s.pending == taken - done
    && (forall k :: k in s.depMap ==> s.depMap[k].0 == plan.graph[k] - done && s.depMap[k].1 == plan.values[k])
    && (forall k :: k in taken ==> plan.graph[k] <= done)
    && Converse(plan.graph, s.reverse)
  }

  lemma DequeueKeepsExplanation<K(!new), V>(
    plan: Plan<K, V>, taken: set<K>, done: set<K>, s: State<K, V>, e: Event<K, V>, t: State<K, V>)
    requires Explains(plan, taken, done, s) && e.Dequeued? && Step(s, e, t)
    ensures e.key !in taken && e.key in plan.graph && plan.graph[e.key] <= done && e.value == plan.values[e.key]
    ensures Explains(plan, taken + {e.key}, done, t)
  {
    forall d | d in plan.graph[e.key] ensures d in done {
      assert d !in s.depMap[e.key].0;
    }
  }

  lemma FinishKeepsExplanation<K(!new), V>(
    plan: Plan<K, V>, taken: set<K>, done: set<K>, s: State<K, V>, e: Event<K, V>, t: State<K, V>)
    requires Explains(plan, taken, done, s) && e.Finished? && Step(s, e, t)
    ensures e.key !in done && e.key in taken
    ensures Explains(plan, taken, done + {e.key}, t)
  {
    var g := plan.graph;
    forall k | k in t.depMap ensures t.depMap[k].0 == g[k] - (done + {e.key}) && t.depMap[k].1 == plan.values[k] {
      assert k in Succ(s.reverse, e.key) <==> e.key in Succ(g, k);
    }
  }

  ghost predicate Explained<K(!new), V>(plan: Plan<K, V>, s: State<K, V>, es: seq<Event<K, V>>) {
    Explains(plan, DequeuedKeys(es), FinishedKeys(es), s)
  }

  lemma StepKeepsExplained<K(!new), V>(
    plan: Plan<K, V>, s: State<K, V>, es: seq<Event<K, V>>, e: Event<K, V>, t: State<K, V>)
    requires Explained(plan, s, es) && Step(s, e, t)
    ensures Explained(plan, t, es + [e])
  {
    var taken, done := DequeuedKeys(es), FinishedKeys(es);
    KeysOfExtension(es, e);
    assert taken + {} == taken && done + {} == done;
    StepExplains(plan, taken, done, s, e, t);
  }

  lemma StepExplains<K(!new), V>(plan: Plan<K, V>, taken: set<K>, done: set<K>, s: State<K, V>, e: Event<K, V>,
                                 t: State<K, V>)
    requires Explains(plan, taken, done, s) && Step(s, e, t)
    ensures Explains(plan, if e.Dequeued? then taken + {e.key} else taken,
                     if e.Finished? then done + {e.key} else done, t)
  {
    match e {
      case Dequeued(_, _, _) => DequeueKeepsExplanation(plan, taken, done, s, e, t);
      case Finished(_, _) => FinishKeepsExplanation(plan, taken, done, s, e, t);
      case NothingReady =>
    }
  }

  lemma {:induction false} RunsAreExplained<K(!new), V>(plan: Plan<K, V>, ss: seq<State<K, V>>, es: seq<Event<K, V>>,
                                                        n: nat)
    requires IsRun(plan, ss, es) && n <= |es|
    ensures Explained(plan, ss[n], es[..n])
  {
    if n == 0 {
      assert DequeuedKeys(es[..0]) == {} && FinishedKeys(es[..0]) == {};
    } else {
      RunsAreExplained(plan, ss, es, n - 1);
      assert es[..n - 1] + [es[n - 1]] == es[..n];
      RunStep(plan, ss, es, n - 1);
      StepKeepsExplained(plan, ss[n - 1], es[..n - 1], es[n - 1], ss[n]);
    }
  }

  lemma {:induction false} RunsKeepDepths<K(!new), V>(plan: Plan<K, V>, ss: seq<State<K, V>>, es: seq<Event<K, V>>,
                                                      n: nat)
    requires IsRun(plan, ss, es) && n <= |es|
    ensures ss[n].depth == ss[0].depth && ss[n].reverse == ss[0].reverse
    ensures ss[n].depMap.Keys <= ss[0].depMap.Keys
  {
    if n > 0 {
      RunsKeepDepths(plan, ss, es, n - 1);
      RunStep(plan, ss, es, n - 1);
    }
  }

  /** An event is new: its key has not been taken, or finished, before. */
  lemma EventsAreNew<K(!new), V>(plan: Plan<K, V>, ss: seq<State<K, V>>, es: seq<Event<K, V>>, n: nat)
    requires IsRun(plan, ss, es) && n < |es|
    ensures es[n].Dequeued? ==> es[n].key !in DequeuedKeys(es[..n])
    ensures es[n].Finished? ==> es[n].key !in FinishedKeys(es[..n])
  {
    RunsAreExplained(plan, ss, es, n);
    RunStep(plan, ss, es, n);
  }

  // ---- safety: a key is built once, after everything it depends on ----

  lemma BuiltAfterDependencies<K(!new), V>(
    plan: Plan<K, V>, ss: seq<State<K, V>>, es: seq<Event<K, V>>, i: nat)
    requires IsRun(plan, ss, es) && i < |es| && es[i].Dequeued?
    ensures es[i].key in plan.graph && es[i].key in plan.values && es[i].value == plan.values[es[i].key]
    ensures forall d :: d in plan.graph[es[i].key] ==> exists j :: 0 <= j < i && es[j].Finished? && es[j].key == d
  {
    RunsAreExplained(plan, ss, es, i);
    RunStep(plan, ss, es, i);
    DequeueKeepsExplanation(plan, DequeuedKeys(es[..i]), FinishedKeys(es[..i]), ss[i], es[i], ss[i + 1]);
    forall d | d in plan.graph[es[i].key]
      ensures exists j :: 0 <= j < i && es[j].Finished? && es[j].key == d
    {
      assert d in FinishedKeys(es[..i]);
    }
  }

  lemma BuiltAtMostOnce<K(!new), V>(
    plan: Plan<K, V>, ss: seq<State<K, V>>, es: seq<Event<K, V>>, i: nat, j: nat)
    requires IsRun(plan, ss, es) && i < j < |es| && es[i].Dequeued? && es[j].Dequeued?
    ensures es[i].key != es[j].key
  {
    EventsAreNew(plan, ss, es, j);
    assert es[..j][i].Dequeued?;
    assert es[i].key in DequeuedKeys(es[..j]);
  }

  /** In every state of every run, finishing any key being built trips no assertion. */
  lemma FinishNeverFails<K(!new), V>(
    plan: Plan<K, V>, ss: seq<State<K, V>>, es: seq<Event<K, V>>, n: nat, k: K)
    requires IsRun(plan, ss, es) && n <= |es| && k in ss[n].pending
    ensures FinishIsSafe(ss[n], k)
  {
    RunsAreExplained(plan, ss, es, n);
    forall d | d in Succ(ss[n].reverse, k) ensures d in ss[n].depMap && k in ss[n].depMap[d].0 {
      assert k in Succ(plan.graph, d);
    }
  }

  // ---- progress ----

  ghost predicate NeedsUnqueued<K(!new)>(g: map<K, set<K>>, k: K) {
    exists d :: Reaches(g, k, d) && d !in g
  }

  lemma DeepestOf<K, V>(s: State<K, V>, keys: set<K>) returns (k: K)
    requires keys != {} && keys <= s.depth.Keys
    ensures k in keys && forall o :: o in keys ==> s.depth[o] <= s.depth[k]
  {
    k :| k in keys;
    if keys != {k} {
      var o := DeepestOf(s, keys - {k});
      if s.depth[k] < s.depth[o] { k := o; }
    }
  }

  /** A blocked key that is stuck only on queued keys has a deeper key that is stuck likewise. */
  lemma BlockedBehindDeeper<K(!new), V>(plan: Plan<K, V>, taken: set<K>, done: set<K>, s: State<K, V>, k: K)
    returns (d: K)
    requires Explains(plan, taken, done, s) && DepthsComputed(s) && s.pending == {}
    requires k in s.depMap && !Ready(s, k) && !NeedsUnqueued(plan.graph, k)
    ensures d in s.depMap && !NeedsUnqueued(plan.graph, d) && s.depth[k] < s.depth[d]
  {
    var g := plan.graph;
    d :| d in s.depMap[k].0;
    assert d in Succ(g, k) && d !in done;
    ReachesSelf(g, d);
    ReachesStep(g, k, d, d);
    assert d in g && d !in s.pending;
    if NeedsUnqueued(g, d) {
      var u :| Reaches(g, d, u) && u !in g;
      ReachesStep(g, k, d, u);
      assert false;
    }
    assert k in Succ(s.reverse, d);
    DependentsAreShallower(s.reverse, d, s.depth[d], k, s.depth[k]);
  }

  lemma StuckOnlyOnUnqueued<K(!new), V>(plan: Plan<K, V>, taken: set<K>, done: set<K>, s: State<K, V>)
    requires Explains(plan, taken, done, s) && DepthsComputed(s)
    requires s.pending == {} && forall k :: !Ready(s, k)
    ensures forall k :: k in s.depMap ==> NeedsUnqueued(plan.graph, k)
  {
    var lost := set k | k in s.depMap && !NeedsUnqueued(plan.graph, k);
    if lost != {} {
      var k := DeepestOf(s, lost);
      var d := BlockedBehindDeeper(plan, taken, done, s, k);
      assert false;
    }
    forall k | k in s.depMap ensures NeedsUnqueued(plan.graph, k) {
      assert k !in lost;
    }
  }

  lemma UnqueuedIsNeverReached<K(!new), V>(plan: Plan<K, V>, taken: set<K>, done: set<K>, s: State<K, V>, k: K)
    requires Explains(plan, taken, done, s) && k in plan.graph && NeedsUnqueued(plan.graph, k)
    ensures k !in done
  {
    var u :| Reaches(plan.graph, k, u) && u !in plan.graph;
    if k in done {
      assert Closed(plan.graph, done);
      ClosedHoldsReachable(plan.graph, done, k, u);
    }
  }

  /**
   With nothing being built and nothing ready, the keys left are exactly those that
   transitively depend on something nobody queued.
   */
  lemma StuckExactlyOnUnqueued<K(!new), V>(
    plan: Plan<K, V>, ss: seq<State<K, V>>, es: seq<Event<K, V>>, n: nat)
    requires IsRun(plan, ss, es) && n <= |es|
    requires ss[n].pending == {} && forall k :: !Ready(ss[n], k)
    ensures ss[n].depMap.Keys == set k | k in plan.graph && NeedsUnqueued(plan.graph, k)
  {
    RunsAreExplained(plan, ss, es, n);
    RunsKeepDepths(plan, ss, es, n);
    var s, taken, done := ss[n], DequeuedKeys(es[..n]), FinishedKeys(es[..n]);
    StuckOnlyOnUnqueued(plan, taken, done, s);
    forall k | k in plan.graph && NeedsUnqueued(plan.graph, k) ensures k in s.depMap {
      UnqueuedIsNeverReached(plan, taken, done, s, k);
      assert k !in s.pending;
    }
  }

  /** No deadlock: if every dependency is itself queued, an idle non-empty queue has a ready key. */
  lemma IdleQueueHasReadyKey<K(!new), V>(
    plan: Plan<K, V>, ss: seq<State<K, V>>, es: seq<Event<K, V>>, n: nat)
    requires IsRun(plan, ss, es) && n <= |es|
    requires forall k :: k in plan.graph ==> plan.graph[k] <= plan.graph.Keys
    requires ss[n].pending == {} && !IsEmpty(ss[n])
    ensures exists k :: Ready(ss[n], k)
  {
    if forall k :: !Ready(ss[n], k) {
      StuckExactlyOnUnqueued(plan, ss, es, n);
      var g := plan.graph;
      var k :| k in ss[n].depMap;
      var u :| Reaches(g, k, u) && u !in g;
      ClosedHoldsReachable(g, g.Keys, k, u);
      assert false;
    }
  }

  ghost function DequeueCount<K, V>(es: seq<Event<K, V>>): nat {
    if es == [] then 0
    else DequeueCount(es[..|es| - 1]) + (if es[|es| - 1].Dequeued? then 1 else 0)
  }

  ghost function FinishCount<K, V>(es: seq<Event<K, V>>): nat {
    if es == [] then 0
    else FinishCount(es[..|es| - 1]) + (if es[|es| - 1].Finished? then 1 else 0)
  }

  lemma CountsOfExtension<K, V>(es: seq<Event<K, V>>, e: Event<K, V>)
    requires e.Dequeued? ==> e.key !in DequeuedKeys(es)
    requires e.Finished? ==> e.key !in FinishedKeys(es)
    requires DequeueCount(es) == |DequeuedKeys(es)| && FinishCount(es) == |FinishedKeys(es)|
    ensures DequeueCount(es + [e]) == |DequeuedKeys(es + [e])| && FinishCount(es + [e]) == |FinishedKeys(es + [e])|
  {
    assert (es + [e])[..|es|] == es;
    KeysOfExtension(es, e);
  }

  lemma {:induction false} CountsAreDistinct<K(!new), V>(
    plan: Plan<K, V>, ss: seq<State<K, V>>, es: seq<Event<K, V>>, n: nat)
    requires IsRun(plan, ss, es) && n <= |es|
    ensures DequeueCount(es[..n]) == |DequeuedKeys(es[..n])| && FinishCount(es[..n]) == |FinishedKeys(es[..n])|
  {
    if n > 0 {
      CountsAreDistinct(plan, ss, es, n - 1);
      EventsAreNew(plan, ss, es, n - 1);
      assert es[..n] == es[..n - 1] + [es[n - 1]];
      CountsOfExtension(es[..n - 1], es[n - 1]);
    }
  }

  /** `len` counts the keys not yet finished: each `finish` lowers it by one and nothing else moves it. */
  lemma LenCountsUnfinished<K(!new), V>(
    plan: Plan<K, V>, ss: seq<State<K, V>>, es: seq<Event<K, V>>, n: nat)
    requires IsRun(plan, ss, es) && n <= |es|
    ensures Len(ss[n]) + FinishCount(es[..n]) == |plan.graph|
    ensures FinishCount(es[..n]) <= DequeueCount(es[..n]) <= |plan.graph|
  {
    RunsAreExplained(plan, ss, es, n);
    CountsAreDistinct(plan, ss, es, n);
  }

  /** A complete run dequeues every queued key and does so exactly as often as there are keys. */
  lemma CompleteRunBuildsEverything<K(!new), V>(plan: Plan<K, V>, ss: seq<State<K, V>>, es: seq<Event<K, V>>)
    requires IsRun(plan, ss, es) && IsEmpty(ss[|es|])
    ensures DequeuedKeys(es) == FinishedKeys(es) == plan.graph.Keys
    ensures DequeueCount(es) == FinishCount(es) == |plan.graph|
  {
    assert es[..|es|] == es;
    RunsAreExplained(plan, ss, es, |es|);
    CountsAreDistinct(plan, ss, es, |es|);
    EmptyMeansAllDone(plan, DequeuedKeys(es), FinishedKeys(es), ss[|es|]);
  }

  lemma EmptyMeansAllDone<K(!new), V>(plan: Plan<K, V>, taken: set<K>, done: set<K>, s: State<K, V>)
    requires Explains(plan, taken, done, s) && IsEmpty(s)
    ensures taken == done == plan.graph.Keys && |done| == |plan.graph|
  {
    var keys := plan.graph.Keys;
    assert keys - taken == {} && taken - done == {};
    assert |plan.graph| == |keys|;
  }

  // ---- dirtiness ----

  /**
   Each key is finished with the freshness it was dequeued with, combined with that of its
   own work; `own` holds the keys whose own work is dirty. With `own == {}` a key is finished
   with exactly the freshness it was dequeued with.
   */
  ghost predicate FinishedAsBuilt<K, V>(es: seq<Event<K, V>>, own: set<K>) {
    forall i :: 0 <= i < |es| && es[i].Finished? ==> exists j :: 0 <= j < i && BuiltAs(es[j], es[i], own)
  }

  ghost predicate BuiltAs<K, V>(d: Event<K, V>, f: Event<K, V>, own: set<K>)
    requires f.Finished?
  {
    && d.Dequeued? && d.key == f.key
    && f.freshness == d.freshness.Combine(if f.key in own then Dirty else Fresh)
  }

  /** `k` or something it transitively depends on is in `source`. */
  ghost predicate Tainted<K(!new)>(g: map<K, set<K>>, source: set<K>, k: K) {
    exists d :: Reaches(g, k, d) && d in source
  }

  /** Some dependency of `k` that is in `done` is tainted. */
  ghost predicate Inherits<K(!new)>(g: map<K, set<K>>, source: set<K>, done: set<K>, k: K) {
    exists d :: d in Succ(g, k) && d in done && Tainted(g, source, d)
  }

  /** Dirtiness `k` has at the time it is handed out. */
  ghost predicate MustRebuild<K(!new), V>(plan: Plan<K, V>, own: set<K>, k: K) {
    k in plan.dirty || exists d :: d in Succ(plan.graph, k) && Tainted(plan.graph, plan.dirty + own, d)
  }

  lemma TaintedByEdge<K(!new)>(g: map<K, set<K>>, source: set<K>, k: K)
    ensures Tainted(g, source, k) <==> k in source || exists d :: d in Succ(g, k) && Tainted(g, source, d)
  {
    ReachesSelf(g, k);
    if Tainted(g, source, k) && k !in source {
      var e :| Reaches(g, k, e) && e in source;
      var d := ReachesFirstEdge(g, k, e);
      assert Tainted(g, source, d);
    }
    forall d | d in Succ(g, k) && Tainted(g, source, d) ensures Tainted(g, source, k) {
      var e :| Reaches(g, d, e) && e in source;
      ReachesStep(g, k, d, e);
    }
  }

  ghost predicate DirtySetExplained<K(!new), V>(plan: Plan<K, V>, own: set<K>, done: set<K>, s: State<K, V>) {
    forall k :: k in s.depMap ==>
      (k in s.dirty <==> k in plan.dirty || Inherits(plan.graph, plan.dirty + own, done, k))
  }

  ghost predicate HandedOutRight<K(!new), V>(plan: Plan<K, V>, own: set<K>, es: seq<Event<K, V>>) {
    forall i :: 0 <= i < |es| && es[i].Dequeued? ==>
      (es[i].freshness.Dirty? <==> MustRebuild(plan, own, es[i].key))
  }

  lemma DequeueHandsOutRight<K(!new), V>(plan: Plan<K, V>, own: set<K>, taken: set<K>, done: set<K>,
                                         s: State<K, V>, e: Event<K, V>, t: State<K, V>)
    requires Explains(plan, taken, done, s) && DirtySetExplained(plan, own, done, s)
    requires e.Dequeued? && Step(s, e, t)
    ensures DirtySetExplained(plan, own, done, t)
    ensures e.freshness.Dirty? <==> MustRebuild(plan, own, e.key)
  {
    DequeueKeepsExplanation(plan, taken, done, s, e, t);
    assert Succ(plan.graph, e.key) <= done;
    assert MustRebuild(plan, own, e.key) <==>
           e.key in plan.dirty || Inherits(plan.graph, plan.dirty + own, done, e.key);
  }

  lemma StepHandsOutRight<K(!new), V>(plan: Plan<K, V>, own: set<K>, es: seq<Event<K, V>>,
                                      s: State<K, V>, e: Event<K, V>, t: State<K, V>)
    requires Explained(plan, s, es) && DirtySetExplained(plan, own, FinishedKeys(es), s)
    requires HandedOutRight(plan, own, es) && Step(s, e, t)
    requires e.Finished? ==> exists j :: 0 <= j < |es| && BuiltAs(es[j], e, own)
    ensures DirtySetExplained(plan, own, FinishedKeys(es + [e]), t)
    ensures e.Dequeued? ==> (e.freshness.Dirty? <==> MustRebuild(plan, own, e.key))
  {
    KeysOfExtension(es, e);
    match e {
      case Dequeued(_, _, _) => DequeueHandsOutRight(plan, own, DequeuedKeys(es), FinishedKeys(es), s, e, t);
      case NothingReady =>
      case Finished(key, _) =>
        TaintedByEdge(plan.graph, plan.dirty + own, key);
    }
  }

  lemma {:induction false} RunsHandOutRight<K(!new), V>(
    plan: Plan<K, V>, ss: seq<State<K, V>>, es: seq<Event<K, V>>, own: set<K>, n: nat)
    requires IsRun(plan, ss, es) && FinishedAsBuilt(es, own) && n <= |es|
    ensures DirtySetExplained(plan, own, FinishedKeys(es[..n]), ss[n])
    ensures HandedOutRight(plan, own, es[..n])
  {
    if n == 0 {
      assert FinishedKeys(es[..0]) == {};
    } else {
      var i: nat := n - 1;
      RunsHandOutRight(plan, ss, es, own, i);
      RunStepHandsOutRight(plan, ss, es, own, i);
      assert es[..n] == es[..i] + [es[i]];
    }
  }

  lemma RunStepHandsOutRight<K(!new), V>(
    plan: Plan<K, V>, ss: seq<State<K, V>>, es: seq<Event<K, V>>, own: set<K>, i: nat)
    requires IsRun(plan, ss, es) && FinishedAsBuilt(es, own) && i < |es|
    requires DirtySetExplained(plan, own, FinishedKeys(es[..i]), ss[i]) && HandedOutRight(plan, own, es[..i])
    ensures DirtySetExplained(plan, own, FinishedKeys(es[..i] + [es[i]]), ss[i + 1])
    ensures HandedOutRight(plan, own, es[..i] + [es[i]])
  {
    var init, e := es[..i], es[i];
    RunsAreExplained(plan, ss, es, i);
    if e.Finished? {
      var j :| 0 <= j < i && BuiltAs(es[j], e, own);
      assert BuiltAs(init[j], e, own);
    }
    RunStep(plan, ss, es, i);
    StepHandsOutRight(plan, own, init, ss[i], e, ss[i + 1]);
  }

  /**
   A key comes out dirty exactly when it was first queued dirty or some transitive dependency
   was queued dirty or had dirty work of its own.
   */
  lemma DirtyExactlyWhenTainted<K(!new), V>(
    plan: Plan<K, V>, ss: seq<State<K, V>>, es: seq<Event<K, V>>, own: set<K>, i: nat)
    requires IsRun(plan, ss, es) && FinishedAsBuilt(es, own) && i < |es| && es[i].Dequeued?
    ensures es[i].freshness.Dirty? <==> MustRebuild(plan, own, es[i].key)
    ensures own == {} ==> (es[i].freshness.Dirty? <==> Tainted(plan.graph, plan.dirty, es[i].key))
  {
    RunsHandOutRight(plan, ss, es, own, |es|);
    assert es[..|es|] == es;
    assert plan.dirty + {} == plan.dirty;
    TaintedByEdge(plan.graph, plan.dirty, es[i].key);
  }
}
