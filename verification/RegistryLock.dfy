/**
 Locking a package summary to the previous lock file: the two-level index of
 `PackageRegistry`, the free function `lock` of src/cargo/core/registry.rs, and
 `Dependency::lock_to` of src/cargo/core/dependency.rs. `Err` stands for a failed
 assertion of the source.
 */
module RegistryLock {
  import opened Collections
  import opened Results
  import opened Packages

  /** A package of the previous lock file with the dependencies it was locked to. */
  datatype Entry = Entry(id: PackageId, deps: seq<PackageId>)

  type LockedMap = map<SourceKey, map<string, seq<Entry>>>

  datatype Summary = Summary(id: PackageId, deps: seq<Dependency>)

  /** The two searches `lock` makes: for what a dependency matches, and for one package id. */
  datatype Query = For(dep: Dependency) | Same(key: PackageKey) {
    predicate Hits(k: PackageKey) {
      match this
      case For(dep) => dep.MatchesId(k)
      case Same(key) => k == key
    }
  }

  function FindId(ids: seq<PackageId>, q: Query): Option<PackageId> {
    if ids == [] then None else if q.Hits(ids[0].Key()) then Some(ids[0]) else FindId(ids[1..], q)
  }

  function FindEntry(entries: seq<Entry>, q: Query): Option<Entry> {
    if entries == [] then None else if q.Hits(entries[0].id.Key()) then Some(entries[0]) else FindEntry(entries[1..], q)
  }

  // ---- the index ----

  function Bucket(locked: LockedMap, src: SourceKey, name: string): seq<Entry> {
    if src in locked && name in locked[src] then locked[src][name] else []
  }

  class PackageRegistry {
    var locked: LockedMap
    /** Every registration, in order. */
    ghost var log: seq<Entry>

    ghost predicate Valid()
      reads this
    {
      Indexes(locked, log)
    }

    constructor ()
      ensures Valid() && log == []
    {
      locked, log := map[], [];
    }

    /** Pushes onto the bucket of the id's source and name and leaves every other bucket alone. */
    method RegisterLock(id: PackageId, deps: seq<PackageId>)
      requires Valid()
      modifies this
      ensures Valid() && log == old(log) + [Entry(id, deps)]
      ensures Bucket(locked, id.source.key, id.name) == old(Bucket(locked, id.source.key, id.name)) + [Entry(id, deps)]
      ensures forall src, name :: (src, name) != (id.source.key, id.name) ==>
        Bucket(locked, src, name) == old(Bucket(locked, src, name))
    {
      var subMap := if id.source.key in locked then locked[id.source.key] else map[];
      var subVec := if id.name in subMap then subMap[id.name] else [];
      subMap := subMap[id.name := subVec + [Entry(id, deps)]];
      ghost var before := locked;
      locked := locked[id.source.key := subMap];
      RegisterKeepsIndex(before, locked, log, Entry(id, deps));
      log := log + [Entry(id, deps)];
    }

    /** Looking in a bucket finds what a linear search of everything ever registered would find. */
    lemma FindsWhatSearchFinds(dep: Dependency, key: PackageKey)
      requires Valid()
      ensures !dep.onlyMatchName ==>
        FindEntry(Bucket(locked, dep.source.key, dep.name), For(dep)) == FindEntry(log, For(dep))
      ensures FindEntry(Bucket(locked, key.source, key.name), Same(key)) == FindEntry(log, Same(key))
    {
      IndexFindsWhatSearchFinds(locked, log, dep, key);
    }
  }

  /** The index after some registrations: each bucket lists the entries of its source and name in order. */
  ghost predicate Indexes(locked: LockedMap, log: seq<Entry>) {
    forall src, name :: Bucket(locked, src, name) == Of(log, src, name)
  }

  function Of(log: seq<Entry>, src: SourceKey, name: string): seq<Entry> {
    if log == [] then []
    else
      var init, e := log[..|log| - 1], log[|log| - 1];
      Of(init, src, name) + (if e.id.source.key == src && e.id.name == name then [e] else [])
  }

  /** What `RegisterLock` does to the buckets keeps the index in step with the log. */
  lemma RegisterKeepsIndex(before: LockedMap, after: LockedMap, log: seq<Entry>, e: Entry)
    requires Indexes(before, log)
    requires Bucket(after, e.id.source.key, e.id.name) == Bucket(before, e.id.source.key, e.id.name) + [e]
    requires forall src, name :: (src, name) != (e.id.source.key, e.id.name) ==>
      Bucket(after, src, name) == Bucket(before, src, name)
    ensures Indexes(after, log + [e])
  {
    assert (log + [e])[..|log|] == log;
    forall src, name ensures Bucket(after, src, name) == Of(log + [e], src, name) {
      assert Bucket(before, src, name) == Of(log, src, name);
    }
  }

  lemma {:induction false} FindInExtension(entries: seq<Entry>, e: Entry, q: Query)
    ensures FindEntry(entries + [e], q) ==
      if FindEntry(entries, q).Some? then FindEntry(entries, q) else if q.Hits(e.id.Key()) then Some(e) else None
  {
    if entries == [] {
      assert [] + [e] == [e];
    } else {
      assert (entries + [e])[1..] == entries[1..] + [e];
      FindInExtension(entries[1..], e, q);
    }
  }

  lemma {:induction false} FindInBucket(log: seq<Entry>, src: SourceKey, name: string, q: Query)
    requires forall k :: q.Hits(k) ==> k.source == src && k.name == name
    ensures FindEntry(Of(log, src, name), q) == FindEntry(log, q)
    decreases |log|
  {
    if log != [] {
      var init, e := log[..|log| - 1], log[|log| - 1];
      FindInBucket(init, src, name, q);
      assert log == init + [e];
      FindInExtension(init, e, q);
      FindInExtension(Of(init, src, name), e, q);
      if !(e.id.source.key == src && e.id.name == name) {
        assert Of(log, src, name) == Of(init, src, name);
      }
    }
  }

  /** Looking in the bucket finds what a linear search of every registration in order would find. */
  lemma IndexFindsWhatSearchFinds(locked: LockedMap, log: seq<Entry>, dep: Dependency, key: PackageKey)
    requires Indexes(locked, log)
    ensures !dep.onlyMatchName ==>
      FindEntry(Bucket(locked, dep.source.key, dep.name), For(dep)) == FindEntry(log, For(dep))
    ensures FindEntry(Bucket(locked, key.source, key.name), Same(key)) == FindEntry(log, Same(key))
  {
    if !dep.onlyMatchName {
      FindInBucket(log, dep.source.key, dep.name, For(dep));
    }
    FindInBucket(log, key.source, key.name, Same(key));
  }

  // ---- locking ----

  function LockTo(dep: Dependency, id: PackageId): Result<Dependency> {
    if dep.source.key == id.source.key && dep.req.Matches(id.version)
    then Ok(dep.(req := Exact(id.version), source := id.source))
    else Err
  }

  /** The patches that `dep` matches, in order. */
  function MatchingPatches(ids: seq<PackageId>, dep: Dependency): seq<PackageId> {
    if ids == [] then []
    else (if dep.MatchesIgnoringSource(ids[0].Key()) then [ids[0]] else []) + MatchingPatches(ids[1..], dep)
  }

  function PatchesFor(patches: map<string, seq<PackageId>>, dep: Dependency): seq<PackageId> {
    if dep.source.url in patches then MatchingPatches(patches[dep.source.url], dep) else []
  }

  function IsLocked(locked: LockedMap, id: PackageId): bool {
    FindEntry(Bucket(locked, id.source.key, id.name), Same(id.Key())).Some?
  }

  function LockDep(locked: LockedMap, patches: map<string, seq<PackageId>>, pair: Option<Entry>, dep: Dependency)
    : Result<Dependency>
  {
    var first := if pair.Some? then FindId(pair.value.deps, For(dep)) else None;
    if first.Some? then LockTo(dep, first.value)
    else
      var second := FindEntry(Bucket(locked, dep.source.key, dep.name), For(dep));
      if second.Some? then LockTo(dep, second.value.id)
      else
        var matching := PatchesFor(patches, dep);
        if matching == [] then Ok(dep)
        else if |matching| > 1 then Err
        else if IsLocked(locked, matching[0]) then Ok(dep.(req := Exact(matching[0].version)))
        else Ok(dep)
  }

  function LockDeps(locked: LockedMap, patches: map<string, seq<PackageId>>, pair: Option<Entry>, deps: seq<Dependency>)
    : Result<seq<Dependency>>
  {
    if deps == [] then Ok([])
    else
      match (LockDep(locked, patches, pair, deps[0]), LockDeps(locked, patches, pair, deps[1..]))
      case (Ok(d), Ok(ds)) => Ok([d] + ds)
      case _ => Err
  }

  function PairOf(locked: LockedMap, id: PackageId): Option<Entry> {
    FindEntry(Bucket(locked, id.source.key, id.name), Same(id.Key()))
  }

  function Lock(locked: LockedMap, patches: map<string, seq<PackageId>>, s: Summary): Result<Summary> {
    var pair := PairOf(locked, s.id);
    match LockDeps(locked, patches, pair, s.deps)
    case Err => Err
    case Ok(ds) => Ok(Summary(if pair.Some? then pair.value.id else s.id, ds))
  }

  // ---- what a search finds ----

  lemma {:induction false} FoundIdHits(ids: seq<PackageId>, q: Query)
    ensures FindId(ids, q).Some? ==> q.Hits(FindId(ids, q).value.Key()) && FindId(ids, q).value in ids
    ensures FindId(ids, q).None? ==> forall i :: 0 <= i < |ids| ==> !q.Hits(ids[i].Key())
  {
    if ids != [] && !q.Hits(ids[0].Key()) {
      FoundIdHits(ids[1..], q);
      assert FindId(ids, q).None? ==> forall i :: 0 < i < |ids| ==> ids[i] == ids[1..][i - 1];
    }
  }

  lemma {:induction false} FoundEntryHits(entries: seq<Entry>, q: Query)
    ensures FindEntry(entries, q).Some? ==> q.Hits(FindEntry(entries, q).value.id.Key())
  {
    if entries != [] && !q.Hits(entries[0].id.Key()) {
      FoundEntryHits(entries[1..], q);
    }
  }

  /** A narrower query that still accepts what was found finds the same thing. */
  ghost predicate Narrower(q: Query, r: Query) {
    forall k :: r.Hits(k) ==> q.Hits(k)
  }

  lemma {:induction false} NarrowerFindsId(ids: seq<PackageId>, q: Query, r: Query)
    requires Narrower(q, r)
    ensures FindId(ids, q).None? ==> FindId(ids, r).None?
    ensures FindId(ids, q).Some? && r.Hits(FindId(ids, q).value.Key()) ==> FindId(ids, r) == FindId(ids, q)
  {
    if ids != [] {
      NarrowerFindsId(ids[1..], q, r);
    }
  }

  lemma {:induction false} NarrowerFindsEntry(entries: seq<Entry>, q: Query, r: Query)
    requires Narrower(q, r)
    ensures FindEntry(entries, q).None? ==> FindEntry(entries, r).None?
    ensures FindEntry(entries, q).Some? && r.Hits(FindEntry(entries, q).value.id.Key()) ==>
      FindEntry(entries, r) == FindEntry(entries, q)
  {
    if entries != [] {
      NarrowerFindsEntry(entries[1..], q, r);
    }
  }

  lemma {:induction false} MatchingPatchesMatch(ids: seq<PackageId>, dep: Dependency)
    ensures forall i :: 0 <= i < |MatchingPatches(ids, dep)| ==>
      dep.MatchesIgnoringSource(MatchingPatches(ids, dep)[i].Key())
  {
    if ids != [] {
      MatchingPatchesMatch(ids[1..], dep);
    }
  }

  /** Exactly the one matching patch still matches once the requirement is that patch's version. */
  lemma {:induction false} OnePatchStays(ids: seq<PackageId>, dep: Dependency, v: Version)
    requires dep.req.Matches(v)
    ensures var ms, ns := MatchingPatches(ids, dep), MatchingPatches(ids, dep.(req := Exact(v)));
      && |ns| <= |ms|
      && (|ms| == 1 && ms[0].version == v ==> ns == ms)
      && (ms == [] ==> ns == [])
  {
    if ids != [] {
      OnePatchStays(ids[1..], dep, v);
    }
  }

  // ---- the promises ----

  /** `d` asks for no more than `dep` did, of the same package, from the same source. */
  ghost predicate NarrowedFrom(dep: Dependency, d: Dependency) {
    && d == dep.(req := d.req, source := d.source) && d.source.key == dep.source.key
    && forall v :: d.req.Matches(v) ==> dep.req.Matches(v)
  }

  lemma LockedDepIsNarrower(locked: LockedMap, patches: map<string, seq<PackageId>>, pair: Option<Entry>,
                            dep: Dependency)
    ensures LockDep(locked, patches, pair, dep).Ok? ==> NarrowedFrom(dep, LockDep(locked, patches, pair, dep).value)
  {
    PatchesMatch(patches, dep);
    forall id ensures LockTo(dep, id).Ok? ==> NarrowedFrom(dep, LockTo(dep, id).value) {
    }
    forall v | dep.req.Matches(v) ensures NarrowedFrom(dep, dep.(req := Exact(v))) {
    }
  }

  lemma PatchesMatch(patches: map<string, seq<PackageId>>, dep: Dependency)
    ensures PatchesFor(patches, dep) != [] ==> dep.req.Matches(PatchesFor(patches, dep)[0].version)
  {
    if dep.source.url in patches {
      MatchingPatchesMatch(patches[dep.source.url], dep);
    }
  }

  /** For an ordinary dependency the assertions of `lock_to` hold; only an ambiguous patch panics. */
  lemma OnlyAmbiguousPatchPanics(locked: LockedMap, patches: map<string, seq<PackageId>>, pair: Option<Entry>,
                                 dep: Dependency)
    requires !dep.onlyMatchName
    ensures LockDep(locked, patches, pair, dep).Err? <==>
      && (pair.Some? ==> FindId(pair.value.deps, For(dep)).None?)
      && FindEntry(Bucket(locked, dep.source.key, dep.name), For(dep)).None?
      && |PatchesFor(patches, dep)| > 1
  {
    if pair.Some? {
      FoundIdHits(pair.value.deps, For(dep));
    }
    FoundEntryHits(Bucket(locked, dep.source.key, dep.name), For(dep));
  }

  /** A dependency that has been locked is locked to the same thing again. */
  lemma LockDepIsIdempotent(locked: LockedMap, patches: map<string, seq<PackageId>>, pair: Option<Entry>,
                            dep: Dependency)
    requires LockDep(locked, patches, pair, dep).Ok?
    ensures var d := LockDep(locked, patches, pair, dep).value; LockDep(locked, patches, pair, d) == Ok(d)
  {
    var d := LockDep(locked, patches, pair, dep).value;
    LockedDepIsNarrower(locked, patches, pair, dep);
    assert Narrower(For(dep), For(d));
    if pair.Some? {
      FoundIdHits(pair.value.deps, For(dep));
      NarrowerFindsId(pair.value.deps, For(dep), For(d));
    }
    var bucket := Bucket(locked, dep.source.key, dep.name);
    FoundEntryHits(bucket, For(dep));
    NarrowerFindsEntry(bucket, For(dep), For(d));
    if |PatchesFor(patches, dep)| == 1 {
      PatchStays(patches, dep);
    }
  }

  lemma PatchStays(patches: map<string, seq<PackageId>>, dep: Dependency)
    requires |PatchesFor(patches, dep)| == 1
    ensures PatchesFor(patches, dep.(req := Exact(PatchesFor(patches, dep)[0].version))) == PatchesFor(patches, dep)
  {
    PatchesMatch(patches, dep);
    OnePatchStays(patches[dep.source.url], dep, PatchesFor(patches, dep)[0].version);
  }

  lemma {:induction false} LockDepsPointwise(locked: LockedMap, patches: map<string, seq<PackageId>>,
                                             pair: Option<Entry>, deps: seq<Dependency>)
    ensures LockDeps(locked, patches, pair, deps).Err? <==>
      exists i :: 0 <= i < |deps| && LockDep(locked, patches, pair, deps[i]).Err?
    ensures LockDeps(locked, patches, pair, deps).Ok? ==>
      var ds := LockDeps(locked, patches, pair, deps).value;
      |ds| == |deps| && forall i :: 0 <= i < |deps| ==> LockDep(locked, patches, pair, deps[i]) == Ok(ds[i])
  {
    if deps != [] {
      LockDepsPointwise(locked, patches, pair, deps[1..]);
      assert deps == [deps[0]] + deps[1..];
    }
  }

  lemma {:induction false} LockDepsFromPointwise(locked: LockedMap, patches: map<string, seq<PackageId>>,
                                                 pair: Option<Entry>, ds: seq<Dependency>)
    requires forall i :: 0 <= i < |ds| ==> LockDep(locked, patches, pair, ds[i]) == Ok(ds[i])
    ensures LockDeps(locked, patches, pair, ds) == Ok(ds)
  {
    if ds != [] {
      LockDepsFromPointwise(locked, patches, pair, ds[1..]);
      assert [ds[0]] + ds[1..] == ds;
    }
  }

  /** The pair found for a summary has the summary's own id, so overriding the id keeps its identity. */
  lemma PairHasSameKey(locked: LockedMap, id: PackageId)
    ensures PairOf(locked, id).Some? ==> PairOf(locked, id).value.id.Key() == id.Key()
  {
    FoundEntryHits(Bucket(locked, id.source.key, id.name), Same(id.Key()));
  }

  /**
   Locking keeps the package's identity and its dependencies' names and order, only narrows
   requirements, and locking again changes nothing.
   */
  lemma LockIsStable(locked: LockedMap, patches: map<string, seq<PackageId>>, s: Summary)
    requires Lock(locked, patches, s).Ok?
    ensures var t := Lock(locked, patches, s).value;
      && t.id.Key() == s.id.Key()
      && |t.deps| == |s.deps| && (forall i :: 0 <= i < |s.deps| ==> NarrowedFrom(s.deps[i], t.deps[i]))
      && Lock(locked, patches, t) == Ok(t)
  {
    var pair := PairOf(locked, s.id);
    PairHasSameKey(locked, s.id);
    LockDepsPointwise(locked, patches, pair, s.deps);
    var t := Lock(locked, patches, s).value;
    forall i | 0 <= i < |s.deps|
      ensures NarrowedFrom(s.deps[i], t.deps[i]) && LockDep(locked, patches, pair, t.deps[i]) == Ok(t.deps[i])
    {
      LockedDepIsNarrower(locked, patches, pair, s.deps[i]);
      LockDepIsIdempotent(locked, patches, pair, s.deps[i]);
    }
    LockDepsFromPointwise(locked, patches, pair, t.deps);
  }

  /** `lock` panics on no summary of ordinary dependencies each matching at most one patch. */
  lemma LockDoesNotPanic(locked: LockedMap, patches: map<string, seq<PackageId>>, s: Summary)
    requires forall i :: 0 <= i < |s.deps| ==> !s.deps[i].onlyMatchName && |PatchesFor(patches, s.deps[i])| <= 1
    ensures Lock(locked, patches, s).Ok?
  {
    var pair := PairOf(locked, s.id);
    LockDepsPointwise(locked, patches, pair, s.deps);
    forall i | 0 <= i < |s.deps| ensures LockDep(locked, patches, pair, s.deps[i]).Ok? {
      OnlyAmbiguousPatchPanics(locked, patches, pair, s.deps[i]);
    }
  }

  // ---- what locking answers ----

  /** Position `i` is the first id that `dep` matches. */
  ghost predicate FirstMatch(ids: seq<PackageId>, dep: Dependency, i: int) {
    && 0 <= i < |ids| && dep.MatchesId(ids[i].Key())
    && forall j :: 0 <= j < i ==> !dep.MatchesId(ids[j].Key())
  }

  ghost predicate NoMatch(ids: seq<PackageId>, dep: Dependency) {
    forall j :: 0 <= j < |ids| ==> !dep.MatchesId(ids[j].Key())
  }

  function IdsOf(log: seq<Entry>): seq<PackageId> {
    seq(|log|, i requires 0 <= i < |log| => log[i].id)
  }

  /** `d` is `dep` with exactly that version, from exactly that source. */
  ghost predicate LockedTo(dep: Dependency, id: PackageId, d: Dependency) {
    d == dep.(req := d.req, source := id.source) && forall v :: d.req.Matches(v) <==> v == id.version
  }

  /** `d` is `dep` with exactly that version, from where it came. */
  ghost predicate VersionLockedTo(dep: Dependency, id: PackageId, d: Dependency) {
    d == dep.(req := d.req) && forall v :: d.req.Matches(v) <==> v == id.version
  }

  ghost predicate Registered(log: seq<Entry>, id: PackageId) {
    exists i :: 0 <= i < |log| && log[i].id.Key() == id.Key()
  }

  function PatchesOf(patches: map<string, seq<PackageId>>, dep: Dependency): seq<PackageId> {
    if dep.source.url in patches then patches[dep.source.url] else []
  }

  /** Position `k` is the only id that `dep` matches if sources do not count. */
  ghost predicate OnlyPatch(ids: seq<PackageId>, dep: Dependency, k: int) {
    0 <= k < |ids| && forall j :: 0 <= j < |ids| ==> (dep.MatchesIgnoringSource(ids[j].Key()) <==> j == k)
  }

  ghost predicate NoPatch(ids: seq<PackageId>, dep: Dependency) {
    forall j :: 0 <= j < |ids| ==> !dep.MatchesIgnoringSource(ids[j].Key())
  }

  /** What the one matching patch, if there is one, does to a dependency that nothing registered matches. */
  ghost predicate Patched(log: seq<Entry>, ids: seq<PackageId>, dep: Dependency, d: Dependency) {
    && (NoPatch(ids, dep) ==> d == dep)
    && forall k :: OnlyPatch(ids, dep, k) ==>
      if Registered(log, ids[k]) then VersionLockedTo(dep, ids[k], d) else d == dep
  }

  /**
   What a dependency is locked to: the first match among what the package was locked to before (`mine`); else
   the first among everything registered; else the version of the one patch, if that is registered; else nothing.
   */
  ghost predicate Answers(log: seq<Entry>, patches: map<string, seq<PackageId>>, mine: seq<PackageId>,
                          dep: Dependency, d: Dependency) {
    && (forall i :: FirstMatch(mine, dep, i) ==> LockedTo(dep, mine[i], d))
    && (NoMatch(mine, dep) ==> forall i :: FirstMatch(IdsOf(log), dep, i) ==> LockedTo(dep, log[i].id, d))
    && (NoMatch(mine, dep) && NoMatch(IdsOf(log), dep) ==> Patched(log, PatchesOf(patches, dep), dep, d))
  }

  lemma {:induction false} FoundAt(ids: seq<PackageId>, dep: Dependency, i: int)
    requires FirstMatch(ids, dep, i)
    ensures FindId(ids, For(dep)) == Some(ids[i])
    decreases |ids|
  {
    if i > 0 {
      assert forall j :: 0 < j < |ids| ==> ids[j] == ids[1..][j - 1];
      assert !dep.MatchesId(ids[0].Key());
      FoundAt(ids[1..], dep, i - 1);
    }
  }

  lemma {:induction false} FoundEntryIsFoundId(log: seq<Entry>, q: Query)
    ensures FindEntry(log, q).Some? <==> FindId(IdsOf(log), q).Some?
    ensures FindEntry(log, q).Some? ==> FindEntry(log, q).value.id == FindId(IdsOf(log), q).value
  {
    if log != [] {
      assert IdsOf(log)[1..] == IdsOf(log[1..]);
      FoundEntryIsFoundId(log[1..], q);
    }
  }

  lemma {:induction false} SameEntryAt(log: seq<Entry>, id: PackageId, i: int)
    requires FirstOf(log, id, i)
    ensures FindEntry(log, Same(id.Key())) == Some(log[i])
    decreases |log|
  {
    if i > 0 {
      assert forall j :: 0 < j < |log| ==> log[j] == log[1..][j - 1];
      assert log[0].id.Key() != id.Key();
      SameEntryAt(log[1..], id, i - 1);
    }
  }

  lemma SameEntryIs(log: seq<Entry>, id: PackageId)
    ensures FindEntry(log, Same(id.Key())).Some? <==> Registered(log, id)
  {
    FoundEntryIsFoundId(log, Same(id.Key()));
    FoundIdHits(IdsOf(log), Same(id.Key()));
    if FindEntry(log, Same(id.Key())).Some? {
      var i :| 0 <= i < |log| && IdsOf(log)[i] == FindId(IdsOf(log), Same(id.Key())).value;
      assert log[i].id.Key() == id.Key();
    } else if i :| 0 <= i < |log| && log[i].id.Key() == id.Key() {
      assert IdsOf(log)[i] == log[i].id;
    }
  }

  lemma {:induction false} OneMatchingPatch(ids: seq<PackageId>, dep: Dependency, k: int)
    requires OnlyPatch(ids, dep, k)
    ensures MatchingPatches(ids, dep) == [ids[k]]
    decreases |ids|
  {
    assert forall j :: 0 < j < |ids| ==> ids[j] == ids[1..][j - 1];
    assert dep.MatchesIgnoringSource(ids[0].Key()) <==> k == 0;
    if k == 0 {
      NoMatchingPatch(ids[1..], dep);
    } else {
      OneMatchingPatch(ids[1..], dep, k - 1);
    }
  }

  lemma {:induction false} NoMatchingPatch(ids: seq<PackageId>, dep: Dependency)
    requires NoPatch(ids, dep)
    ensures MatchingPatches(ids, dep) == []
  {
    if ids != [] {
      NoMatchingPatch(ids[1..], dep);
    }
  }

  function Mine(pair: Option<Entry>): seq<PackageId> {
    if pair.Some? then pair.value.deps else []
  }

  /** Every dependency that may be locked gets that answer. */
  lemma LockDepAnswers(locked: LockedMap, log: seq<Entry>, patches: map<string, seq<PackageId>>, pair: Option<Entry>,
                       dep: Dependency)
    requires Indexes(locked, log) && !dep.onlyMatchName && LockDep(locked, patches, pair, dep).Ok?
    ensures Answers(log, patches, Mine(pair), dep, LockDep(locked, patches, pair, dep).value)
  {
    var d := LockDep(locked, patches, pair, dep).value;
    forall i | FirstMatch(Mine(pair), dep, i) ensures LockedTo(dep, Mine(pair)[i], d) {
      FoundAt(Mine(pair), dep, i);
    }
    FoundIdHits(Mine(pair), For(dep));
    if NoMatch(Mine(pair), dep) {
      RegisteredAnswers(locked, log, patches, pair, dep);
    }
  }

  lemma RegisteredAnswers(locked: LockedMap, log: seq<Entry>, patches: map<string, seq<PackageId>>, pair: Option<Entry>,
                          dep: Dependency)
    requires Indexes(locked, log) && !dep.onlyMatchName && LockDep(locked, patches, pair, dep).Ok?
    requires NoMatch(Mine(pair), dep)
    ensures var d := LockDep(locked, patches, pair, dep).value;
      && (forall i :: FirstMatch(IdsOf(log), dep, i) ==> LockedTo(dep, log[i].id, d))
      && (NoMatch(IdsOf(log), dep) ==> Patched(log, PatchesOf(patches, dep), dep, d))
  {
    var d := LockDep(locked, patches, pair, dep).value;
    FoundIdHits(Mine(pair), For(dep));
    FindInBucket(log, dep.source.key, dep.name, For(dep));
    assert Bucket(locked, dep.source.key, dep.name) == Of(log, dep.source.key, dep.name);
    FoundEntryIsFoundId(log, For(dep));
    forall i | FirstMatch(IdsOf(log), dep, i) ensures LockedTo(dep, log[i].id, d) {
      FoundAt(IdsOf(log), dep, i);
    }
    FoundIdHits(IdsOf(log), For(dep));
    if NoMatch(IdsOf(log), dep) {
      PatchAnswers(locked, log, patches, pair, dep);
    }
  }

  lemma PatchAnswers(locked: LockedMap, log: seq<Entry>, patches: map<string, seq<PackageId>>, pair: Option<Entry>,
                     dep: Dependency)
    requires Indexes(locked, log) && LockDep(locked, patches, pair, dep).Ok?
    requires FindId(Mine(pair), For(dep)).None? && FindEntry(Bucket(locked, dep.source.key, dep.name), For(dep)).None?
    ensures Patched(log, PatchesOf(patches, dep), dep, LockDep(locked, patches, pair, dep).value)
  {
    var ids := PatchesOf(patches, dep);
    if NoPatch(ids, dep) {
      NoMatchingPatch(ids, dep);
    }
    forall k | OnlyPatch(ids, dep, k)
      ensures PatchesFor(patches, dep) == [ids[k]] && (IsLocked(locked, ids[k]) <==> Registered(log, ids[k]))
    {
      OneMatchingPatch(ids, dep, k);
      PairIs(locked, log, ids[k]);
    }
  }

  /** Position `i` is the first registration of the package `id`. */
  ghost predicate FirstOf(log: seq<Entry>, id: PackageId, i: int) {
    0 <= i < |log| && log[i].id.Key() == id.Key() && forall j :: 0 <= j < i ==> log[j].id.Key() != id.Key()
  }

  ghost predicate AllAnswer(log: seq<Entry>, patches: map<string, seq<PackageId>>, mine: seq<PackageId>,
                            deps: seq<Dependency>, ds: seq<Dependency>) {
    |ds| == |deps| && forall i :: 0 <= i < |deps| ==> Answers(log, patches, mine, deps[i], ds[i])
  }

  /** `lock`: the id becomes the registered one, and each dependency gets its answer from what was registered. */
  lemma LockAnswers(locked: LockedMap, log: seq<Entry>, patches: map<string, seq<PackageId>>, s: Summary)
    requires Indexes(locked, log) && Lock(locked, patches, s).Ok?
    requires forall i :: 0 <= i < |s.deps| ==> !s.deps[i].onlyMatchName
    ensures var t := Lock(locked, patches, s).value;
      && (forall k :: FirstOf(log, s.id, k) ==> t == Summary(log[k].id, t.deps))
      && (forall k :: FirstOf(log, s.id, k) ==> AllAnswer(log, patches, log[k].deps, s.deps, t.deps))
      && (!Registered(log, s.id) ==> t.id == s.id && AllAnswer(log, patches, [], s.deps, t.deps))
  {
    var pair, t := PairOf(locked, s.id), Lock(locked, patches, s).value;
    PairIs(locked, log, s.id);
    LockDepsPointwise(locked, patches, pair, s.deps);
    forall i | 0 <= i < |s.deps| ensures Answers(log, patches, Mine(pair), s.deps[i], t.deps[i]) {
      LockDepAnswers(locked, log, patches, pair, s.deps[i]);
    }
  }

  lemma PairIs(locked: LockedMap, log: seq<Entry>, id: PackageId)
    requires Indexes(locked, log)
    ensures PairOf(locked, id).Some? <==> Registered(log, id)
    ensures IsLocked(locked, id) <==> Registered(log, id)
    ensures forall k :: FirstOf(log, id, k) ==> PairOf(locked, id) == Some(log[k])
  {
    FindInBucket(log, id.source.key, id.name, Same(id.Key()));
    assert Bucket(locked, id.source.key, id.name) == Of(log, id.source.key, id.name);
    SameEntryIs(log, id);
    forall k | FirstOf(log, id, k) ensures PairOf(locked, id) == Some(log[k]) {
      SameEntryAt(log, id, k);
    }
  }

  /** What matching means, in terms of names, versions and sources. */
  lemma MatchingMeans(dep: Dependency, id: PackageId)
    ensures dep.MatchesIgnoringSource(id.Key()) <==> dep.name == id.name && dep.req.Matches(id.version)
    ensures dep.onlyMatchName ==> (dep.MatchesId(id.Key()) <==> dep.name == id.name)
    ensures !dep.onlyMatchName ==> (dep.MatchesId(id.Key()) <==>
      dep.name == id.name && dep.req.Matches(id.version) && dep.source.key == id.source.key)
    ensures forall v, w :: Exact(v).Matches(w) <==> v == w
  {
  }
}
