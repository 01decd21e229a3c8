/**
 Workspace discovery of src/cargo/core/workspace.rs: finding the root of a manifest, the
 recursive walk that collects the members, and validation. Paths are normalized lists of
 components; patterns in a root's configuration are already joined to its directory, and
 the globs among its members expanded.
 */
module WorkspaceMembers {
  import opened Collections
  import opened Results
  import opened Digraph
  import opened GraphWalk

  type Path = seq<string>

  datatype Config =
    | Root(patterns: Option<seq<Path>>, expanded: seq<Path>, defaults: Option<seq<Path>>, exclude: seq<Path>)
    | Member(root: Option<Path>)

  /** `pathDeps` are the manifests of its path dependencies; a virtual manifest has none. */
  datatype Manifest = Manifest(isVirtual: bool, name: string, config: Config, pathDeps: seq<Path>)

  /** What is on disk: a manifest file that cannot be loaded is `None`. */
  datatype Files = Files(manifests: map<Path, Option<Manifest>>, home: Path) {
    function Load(p: Path): Result<Manifest> {
      if p in manifests && manifests[p].Some? then Ok(manifests[p].value) else Err
    }
  }

  function Parent(p: Path): Path {
    if p == [] then [] else p[..|p| - 1]
  }

  predicate IsBelowOne(paths: seq<Path>, manifest: Path) {
    exists i :: 0 <= i < |paths| && paths[i] <= manifest
  }

  predicate IsExcluded(config: Config, manifest: Path)
    requires config.Root?
  {
    !(config.patterns.Some? && IsBelowOne(config.patterns.value, manifest)) && IsBelowOne(config.exclude, manifest)
  }

  /** Excluded is what lies below an exclude entry, unless it also lies below an explicit member. */
  lemma ExclusionExactly(config: Config, manifest: Path)
    requires config.Root?
    ensures IsExcluded(config, manifest) <==>
      && (exists e :: e in config.exclude && e <= manifest)
      && (config.patterns.Some? ==> forall e :: e in config.patterns.value ==> !(e <= manifest))
  {
    BelowOneExactly(config.exclude, manifest);
    if config.patterns.Some? {
      BelowOneExactly(config.patterns.value, manifest);
    }
  }

  lemma BelowOneExactly(paths: seq<Path>, manifest: Path)
    ensures IsBelowOne(paths, manifest) <==> exists e :: e in paths && e <= manifest
  {
    if IsBelowOne(paths, manifest) {
      var i :| 0 <= i < |paths| && paths[i] <= manifest;
      assert paths[i] in paths;
    }
  }

  ghost predicate IsExplicit(config: Config, manifest: Path)
    requires config.Root?
  {
    config.patterns.Some? && exists e :: e in config.patterns.value && e <= manifest
  }

  // ---- find_root ----

  predicate EndsWithTargetPackage(p: Path) {
    |p| >= 2 && p[|p| - 2..] == ["target", "package"]
  }

  /** What the manifest in `dir` says about the root of `manifest`, if it says anything. */
  function Here(fs: Files, manifest: Path, dir: Path): Option<Result<Option<Path>>> {
    var candidate := dir + ["Cargo.toml"];
    if candidate !in fs.manifests then None
    else match fs.Load(candidate)
      case Err => Some(Err)
      case Ok(m) =>
        match m.config
        case Root(_, _, _, _) => if IsExcluded(m.config, manifest) then None else Some(Ok(Some(candidate)))
        case Member(Some(root)) => Some(Ok(Some(root)))
        case Member(None) => None
  }

  /** The search from directory `dir` upwards for the root of `manifest`. */
  function SearchUp(fs: Files, manifest: Path, dir: Path): Result<Option<Path>>
    decreases |dir|
  {
    if EndsWithTargetPackage(dir) then Ok(None)
    else if Here(fs, manifest, dir).Some? then Here(fs, manifest, dir).value
    else if fs.home == dir || dir == [] then Ok(None)
    else SearchUp(fs, manifest, Parent(dir))
  }

  /** The search goes on past `dir`. */
  predicate Passes(fs: Files, manifest: Path, dir: Path) {
    !EndsWithTargetPackage(dir) && Here(fs, manifest, dir).None? && fs.home != dir
  }

  /**
   Among the directories from `dir` upwards, the one with `k` components is the first to say something, and
   says `r`.
   */
  predicate DecidedAt(fs: Files, manifest: Path, dir: Path, r: Result<Option<Path>>, k: nat)
    requires k <= |dir|
  {
    && !EndsWithTargetPackage(dir[..k]) && Here(fs, manifest, dir[..k]) == Some(r)
    && forall j :: k < j <= |dir| ==> Passes(fs, manifest, dir[..j])
  }

  lemma DecidedAbove(fs: Files, manifest: Path, dir: Path, r: Result<Option<Path>>, k: nat)
    requires k < |dir|
    ensures DecidedAt(fs, manifest, dir, r, k) <==>
      Passes(fs, manifest, dir) && DecidedAt(fs, manifest, Parent(dir), r, k)
  {
    assert dir[..|dir|] == dir;
    assert forall j :: 0 <= j < |dir| ==> Parent(dir)[..j] == dir[..j];
  }

  lemma DecidedHere(fs: Files, manifest: Path, dir: Path, r: Result<Option<Path>>)
    ensures DecidedAt(fs, manifest, dir, r, |dir|) <==>
      !EndsWithTargetPackage(dir) && Here(fs, manifest, dir) == Some(r)
  {
    assert dir[..|dir|] == dir;
  }

  /** A root, or an error, comes from the nearest directory above that has one, with no barrier in between. */
  lemma {:induction false} NearestDecides(fs: Files, manifest: Path, dir: Path, r: Result<Option<Path>>)
    requires r != Ok(None)
    ensures SearchUp(fs, manifest, dir) == r <==> exists k :: 0 <= k <= |dir| && DecidedAt(fs, manifest, dir, r, k)
    decreases |dir|
  {
    DecidedHere(fs, manifest, dir, r);
    if dir != [] {
      NearestDecides(fs, manifest, Parent(dir), r);
      forall k | 0 <= k < |dir|
        ensures DecidedAt(fs, manifest, dir, r, k) <==>
          Passes(fs, manifest, dir) && DecidedAt(fs, manifest, Parent(dir), r, k)
      {
        DecidedAbove(fs, manifest, dir, r, k);
      }
    }
  }

  function FindRoot(fs: Files, manifest: Path): Result<Option<Path>> {
    match fs.Load(manifest)
    case Err => Err
    case Ok(m) =>
      match m.config
      case Root(_, _, _, _) => Ok(Some(manifest))
      case Member(Some(root)) => Ok(Some(root))
      case Member(None) => if |manifest| < 2 then Ok(None) else SearchUp(fs, manifest, Parent(Parent(manifest)))
  }

  /** A manifest that cannot be loaded is an error, a pointer is followed, and a root counts if it does not exclude. */
  lemma HereSays(fs: Files, manifest: Path, dir: Path, r: Result<Option<Path>>)
    ensures Here(fs, manifest, dir) == Some(r) <==>
      var candidate := dir + ["Cargo.toml"];
      candidate in fs.manifests &&
      match fs.Load(candidate)
      case Err => r == Err
      case Ok(m) =>
        || (m.config.Member? && m.config.root.Some? && r == Ok(m.config.root))
        || (m.config.Root? && r == Ok(Some(candidate)) &&
             ((forall e :: e in m.config.exclude ==> !(e <= manifest)) || IsExplicit(m.config, manifest)))
  {
    var candidate := dir + ["Cargo.toml"];
    if candidate in fs.manifests && fs.Load(candidate).Ok? && fs.Load(candidate).value.config.Root? {
      ExclusionExactly(fs.Load(candidate).value.config, manifest);
    }
  }

  /**
   A manifest's own word counts first. One that says nothing has exactly the root, or the error, that the nearest
   directory from two levels up outwards says, if one does before a barrier; else it has none.
   */
  lemma RootIsFound(fs: Files, manifest: Path, r: Result<Option<Path>>)
    ensures match fs.Load(manifest)
      case Err => FindRoot(fs, manifest) == Err
      case Ok(m) =>
        match m.config
        case Root(_, _, _, _) => FindRoot(fs, manifest) == Ok(Some(manifest))
        case Member(Some(root)) => FindRoot(fs, manifest) == Ok(Some(root))
        case Member(None) => r != Ok(None) ==> (FindRoot(fs, manifest) == r <==> DecidedAbovePackage(fs, manifest, r))
  {
    if |manifest| >= 2 && r != Ok(None) {
      assert Parent(Parent(manifest)) == manifest[..|manifest| - 2];
      NearestDecides(fs, manifest, manifest[..|manifest| - 2], r);
    }
  }

  /** `r` is what the nearest directory says, from the one around the package outwards. */
  ghost predicate DecidedAbovePackage(fs: Files, manifest: Path, r: Result<Option<Path>>) {
    |manifest| >= 2 &&
    var dir := manifest[..|manifest| - 2];
    exists k :: 0 <= k <= |dir| && DecidedAt(fs, manifest, dir, r, k)
  }

  /** `find_root`, whose loop stops at a `target/package` directory and at Cargo's home. */
  method LocateRoot(fs: Files, manifest: Path) returns (r: Result<Option<Path>>)
    ensures r == FindRoot(fs, manifest)
  {
    var loaded := fs.Load(manifest);
    if loaded.Err? { return Err; }
    match loaded.value.config {
      case Root(_, _, _, _) => return Ok(Some(manifest));
      case Member(Some(root)) => return Ok(Some(root));
      case Member(None) =>
    }
    if |manifest| < 2 { return Ok(None); }
    var dir := Parent(Parent(manifest));
    while !EndsWithTargetPackage(dir)
      invariant SearchUp(fs, manifest, dir) == SearchUp(fs, manifest, Parent(Parent(manifest)))
      decreases |dir|
    {
      var candidate := dir + ["Cargo.toml"];
      if candidate in fs.manifests {
        var above := fs.Load(candidate);
        if above.Err? { return Err; }
        match above.value.config {
          case Root(_, _, _, _) =>
            if !IsExcluded(above.value.config, manifest) { return Ok(Some(candidate)); }
          case Member(Some(root)) => return Ok(Some(root));
          case Member(None) =>
        }
      }
      if fs.home == dir || dir == [] { return Ok(None); }
      dir := Parent(dir);
    }
    r := Ok(None);
  }

  // ---- which manifests the walk takes ----

  /** Whether the walk passes over `p`: an outside path dependency with another root, or an excluded manifest. */
  function Skips(fs: Files, root: Path, p: Path, isPathDep: bool): Result<bool> {
    if isPathDep && !(Parent(root) <= Parent(p)) && FindRoot(fs, p).Err? then Err
    else if isPathDep && !(Parent(root) <= Parent(p)) && FindRoot(fs, p).value != Some(root) then Ok(true)
    else match fs.Load(root)
      case Err => Err
      case Ok(m) => Ok(m.config.Root? && IsExcluded(m.config, p))
  }

  /** A path dependency is passed over exactly if it is outside under another root, or excluded. */
  lemma PassedOverExactly(fs: Files, root: Path, p: Path)
    requires fs.Load(root).Ok? && fs.Load(root).value.config.Root?
    ensures var outside := !(Parent(root) <= Parent(p));
      Skips(fs, root, p, true) == Ok(true) <==>
        || (outside && FindRoot(fs, p).Ok? && FindRoot(fs, p) != Ok(Some(root)))
        || ((outside ==> FindRoot(fs, p) == Ok(Some(root))) && IsExcluded(fs.Load(root).value.config, p))
    ensures Skips(fs, root, p, true).Err? <==> !(Parent(root) <= Parent(p)) && FindRoot(fs, p).Err?
    ensures Skips(fs, root, p, false) == Ok(IsExcluded(fs.Load(root).value.config, p))
  {
  }

  /** An explicit member is not passed over, whatever is excluded. */
  lemma ExplicitIsTaken(fs: Files, root: Path, p: Path)
    requires fs.Load(root).Ok? && fs.Load(root).value.config.Root? && IsExplicit(fs.Load(root).value.config, p)
    ensures Skips(fs, root, p, false) == Ok(false)
    ensures Parent(root) <= Parent(p) ==> Skips(fs, root, p, true) == Ok(false)
  {
    ExclusionExactly(fs.Load(root).value.config, p);
  }

  /** From a manifest to those of its path dependencies the walk takes. */
  function Taken(fs: Files, root: Path): map<Path, set<Path>> {
    map p | p in fs.manifests ::
      if fs.Load(p).Ok? && !fs.Load(p).value.isVirtual then
        set d | d in fs.Load(p).value.pathDeps && Skips(fs, root, d, true) == Ok(false)
      else {}
  }

  predicate NoRepeats(s: seq<Path>) {
    forall i, j :: 0 <= i < j < |s| ==> s[i] != s[j]
  }

  /** Every path dependency of a member has been looked at: it is a member, or it was passed over. */
  ghost predicate DepsSettled(fs: Files, root: Path, members: set<Path>, m: Path) {
    fs.Load(m).Ok? &&
    (fs.Load(m).value.isVirtual ||
      forall d :: d in fs.Load(m).value.pathDeps ==> d in members || Skips(fs, root, d, true) == Ok(true))
  }

  /** One call of the walk, from `before` to `after`. */
  ghost predicate Walked(fs: Files, root: Path, p: Path, isPathDep: bool, before: seq<Path>, after: seq<Path>) {
    && before <= after && NoRepeats(after)
    && (p in after || Skips(fs, root, p, isPathDep) == Ok(true))
    && (after != before ==> p !in before && p in after && Skips(fs, root, p, isPathDep) == Ok(false))
    && (forall x :: x in after && x !in before ==>
         && ReachesAvoiding(Taken(fs, root), Elements(before), p, x)
         && DepsSettled(fs, root, Elements(after), x))
  }

  /** A manifest that cannot be loaded, or with a path dependency whose root cannot be found out. */
  ghost predicate Blocks(fs: Files, root: Path, x: Path) {
    fs.Load(x).Err? || (!fs.Load(x).value.isVirtual &&
      exists d :: d in fs.Load(x).value.pathDeps && Skips(fs, root, d, true).Err?)
  }

  /** The walk from `p` comes to the blocking manifest `x` past nothing it had visited `before`. */
  ghost predicate BlockedAt(fs: Files, root: Path, p: Path, before: seq<Path>, x: Path) {
    ReachesAvoiding(Taken(fs, root), Elements(before), p, x) && Blocks(fs, root, x)
  }

  /** Why a call of the walk fails. */
  ghost predicate WalkFails(fs: Files, root: Path, p: Path, isPathDep: bool, before: seq<Path>) {
    match Skips(fs, root, p, isPathDep)
    case Err => true
    case Ok(skip) => !skip && exists x :: BlockedAt(fs, root, p, before, x)
  }

  lemma DepFails(fs: Files, root: Path, p: Path, d: Path, before: seq<Path>, so: seq<Path>)
    requires fs.Load(p).Ok? && !fs.Load(p).value.isVirtual && d in fs.Load(p).value.pathDeps && p !in before
    requires before + [p] <= so && WalkFails(fs, root, d, true, so)
    requires ReachesAvoiding(Taken(fs, root), Elements(before), p, p)
    ensures exists x :: BlockedAt(fs, root, p, before, x)
  {
    if Skips(fs, root, d, true).Err? {
      assert BlockedAt(fs, root, p, before, p);
    } else {
      var x :| BlockedAt(fs, root, d, so, x);
      PrefixElements(before + [p], so);
      assert (before + [p])[..|before|] == before;
      assert d in Succ(Taken(fs, root), p);
      AvoidingFirst(Taken(fs, root), Elements(before), Elements(so), p, d, x);
      assert BlockedAt(fs, root, p, before, x);
    }
  }

  /** Why discovery fails: the root, a manifest some starting point leads to, or a default that is no member. */
  ghost predicate DiscoveryFails(fs: Files, root: Path) {
    match fs.Load(root)
    case Err => true
    case Ok(m) =>
      || !m.config.Root?
      || (exists p, x :: p in m.config.expanded + [root] && LeadsToBlock(fs, root, p, x))
      || (m.config.defaults.Some? && exists d :: d in m.config.defaults.value && IsStray(fs, root, m.config, d))
  }

  /** No configured member leads to `d`. */
  ghost predicate IsStray(fs: Files, root: Path, config: Config, d: Path)
    requires config.Root?
  {
    !ReachedFrom(Taken(fs, root), Admitted(fs, root, config.expanded), d)
  }

  ghost predicate LeadsToBlock(fs: Files, root: Path, p: Path, x: Path) {
    Skips(fs, root, p, false) == Ok(false) && Reaches(Taken(fs, root), p, x) && Blocks(fs, root, x)
  }

  lemma StartFails(fs: Files, root: Path, p: Path, before: seq<Path>)
    requires fs.Load(root).Ok? && fs.Load(root).value.config.Root? && WalkFails(fs, root, p, false, before)
    requires p in fs.Load(root).value.config.expanded + [root]
    ensures DiscoveryFails(fs, root)
  {
    var x :| BlockedAt(fs, root, p, before, x);
    assert LeadsToBlock(fs, root, p, x);
  }

  class Workspace {
    const fs: Files
    const current: Path
    const root: Path
    var members: seq<Path>
    var defaultMembers: seq<Path>

    /** A workspace whose root has been found. */
    constructor (fs: Files, current: Path, root: Path)
      ensures this.fs == fs && this.current == current && this.root == root && members == [] && defaultMembers == []
    {
      this.fs, this.current, this.root, members, defaultMembers := fs, current, root, [], [];
    }

    method FindPathDeps(p: Path, isPathDep: bool) returns (ok: bool)
      requires NoRepeats(members)
      modifies this`members
      ensures ok ==> Walked(fs, root, p, isPathDep, old(members), members)
      ensures !ok ==> WalkFails(fs, root, p, isPathDep, old(members))
      decreases fs.manifests.Keys - Elements(members), 2
    {
      if p in members {
        return true;
      }
      if isPathDep && !(Parent(root) <= Parent(p)) {
        var above := LocateRoot(fs, p);
        if above.Err? { return false; }
        if above.value != Some(root) { return true; }
      }
      var rootPackage := fs.Load(root);
      if rootPackage.Err? { return false; }
      var config := rootPackage.value.config;
      if config.Root? && IsExcluded(config, p) { return true; }
      ghost var before := members;
      members := members + [p];
      var loaded := fs.Load(p);
      AvoidingSelf(Taken(fs, root), Elements(before), p);
      if loaded.Err? {
        assert BlockedAt(fs, root, p, before, p);
        return false;
      }
      if loaded.value.isVirtual { return true; }
      ok := FollowDeps(p, before);
    }

    /** The loop over the path dependencies of `p`, which has just been added to `before`. */
    method FollowDeps(p: Path, ghost before: seq<Path>) returns (ok: bool)
      requires fs.Load(p).Ok? && !fs.Load(p).value.isVirtual && p !in before
      requires NoRepeats(members) && members == before + [p]
      requires ReachesAvoiding(Taken(fs, root), Elements(before), p, p)
      modifies this`members
      ensures ok ==> before + [p] <= members && NoRepeats(members) && p in members
      ensures ok ==> NewAreSettled(fs, root, p, before, members) && DepsSettled(fs, root, Elements(members), p)
      ensures !ok ==> exists x :: BlockedAt(fs, root, p, before, x)
      decreases fs.manifests.Keys - Elements(before), 1
    {
      var candidates := fs.Load(p).value.pathDeps;
      for i := 0 to |candidates|
        invariant Followed(fs, root, p, i, before, members)
      {
        ghost var so := members;
        FewerManifests(fs.manifests.Keys, before, p, members);
        ok := FindPathDeps(candidates[i], true);
        if !ok {
          DepFails(fs, root, p, candidates[i], before, so);
          return;
        }
        OneMoreDep(fs, root, p, i, before, so, members);
      }
      AllFollowed(fs, root, p, before, members);
      ok := true;
    }

    /** `find_members` for a workspace with a root. */
    method FindMembers() returns (ok: bool)
      requires members == [] && defaultMembers == []
      modifies this`members, this`defaultMembers
      ensures ok ==> fs.Load(root).Ok? && fs.Load(root).value.config.Root?
      ensures ok ==> Complete(fs, root, fs.Load(root).value.config.expanded + [root], members)
      ensures ok ==> forall m :: m in defaultMembers ==> m in members || m == current
      ensures ok ==> DefaultsChosen(fs, root, current, members, defaultMembers)
      ensures !ok ==> DiscoveryFails(fs, root)
    {
      var loaded := fs.Load(root);
      if loaded.Err? || !loaded.value.config.Root? { return false; }
      var config := loaded.value.config;
      for i := 0 to |config.expanded|
        invariant Complete(fs, root, config.expanded[..i], members) && defaultMembers == []
      {
        ghost var before := members;
        ok := FindPathDeps(config.expanded[i], false);
        if !ok {
          StartFails(fs, root, config.expanded[i], before);
          return;
        }
        assert config.expanded[..i + 1] == config.expanded[..i] + [config.expanded[i]];
        OneMoreStart(fs, root, config.expanded[..i], config.expanded[i], before, members);
      }
      assert config.expanded[..|config.expanded|] == config.expanded;
      ok := ChooseDefaults(config);
      if !ok { return; }
      ghost var before := members;
      ok := FindPathDeps(root, false);
      if !ok {
        StartFails(fs, root, root, before);
        return;
      }
      OneMoreStart(fs, root, config.expanded, root, before, members);
      PrefixElements(before, members);
    }

    /** The configured default members, which have to be members; else all of them or the current manifest. */
    method ChooseDefaults(config: Config) returns (ok: bool)
      requires config.Root? && defaultMembers == []
      modifies this`defaultMembers
      ensures ok <==> (config.defaults.Some? ==> forall m :: m in config.defaults.value ==> m in members)
      ensures ok && config.defaults.Some? ==> defaultMembers == config.defaults.value
      ensures ok && config.defaults.None? ==> defaultMembers == if IsVirtual(fs, current) then members else [current]
    {
      if config.defaults.Some? {
        var defaults := config.defaults.value;
        for i := 0 to |defaults|
          invariant defaultMembers == defaults[..i] && forall m :: m in defaults[..i] ==> m in members
        {
          if defaults[i] !in members { return false; }
          defaultMembers := defaultMembers + [defaults[i]];
        }
        assert defaults[..|defaults|] == defaults;
      } else if IsVirtual(fs, current) {
        defaultMembers := members;
      } else {
        defaultMembers := [current];
      }
      ok := true;
    }

    /** The first loop of `validate`: collects the roots, and fails where two packages share a name. */
    method CollectRoots() returns (roots: Option<seq<Path>>)
      requires forall m :: m in members ==> fs.Load(m).Ok?
      ensures roots.Some? <==> DistinctNames(fs, members)
      ensures roots.Some? ==> |roots.value| == RootCount(fs, members)
    {
      var found: seq<Path> := [];
      var names: map<string, Path> := map[];
      for i := 0 to |members|
        invariant |found| == RootCount(fs, members[..i])
        invariant NamesUpTo(fs, members, i, names)
      {
        assert members[i] in members && members[..i + 1][..i] == members[..i];
        var package := fs.Load(members[i]).value;
        if package.config.Root? {
          found := found + [members[i]];
        }
        if !package.isVirtual {
          if package.name in names {
            DuplicateName(fs, members, i);
            return None;
          }
        }
        OneMoreName(fs, members, i, names);
        names := if package.isVirtual then names else names[package.name := members[i]];
      }
      assert members[..|members|] == members;
      roots := Some(found);
    }

    /** `validate`, for a workspace with a root. */
    method Validate() returns (ok: bool)
      requires forall m :: m in members ==> fs.Load(m).Ok?
      ensures ok <==> IsValid(fs, root, current, members)
    {
      var roots := CollectRoots();
      if roots.None? || |roots.value| != 1 { return false; }
      for i := 0 to |members|
        invariant forall j :: 0 <= j < i ==> FindRoot(fs, members[j]) == Ok(Some(root))
      {
        var found := LocateRoot(fs, members[i]);
        if found != Ok(Some(root)) { return false; }
      }
      ok := current in members;
    }
  }

  /** The names of the first `i` members, which are distinct. */
  ghost predicate NamesUpTo(fs: Files, members: seq<Path>, i: nat, names: map<string, Path>)
    requires i <= |members|
  {
    && DistinctNames(fs, members[..i])
    && forall n :: n in names <==> exists j :: 0 <= j < i && NamedHere(fs, members[j], n)
  }

  lemma OneMoreName(fs: Files, members: seq<Path>, i: nat, names: map<string, Path>)
    requires i < |members| && NamesUpTo(fs, members, i, names) && fs.Load(members[i]).Ok?
    requires fs.Load(members[i]).value.isVirtual || fs.Load(members[i]).value.name !in names
    ensures var m := fs.Load(members[i]).value;
      NamesUpTo(fs, members, i + 1, if m.isVirtual then names else names[m.name := members[i]])
  {
    var m := fs.Load(members[i]).value;
    var names' := if m.isVirtual then names else names[m.name := members[i]];
    forall n ensures n in names' <==> exists j :: 0 <= j < i + 1 && NamedHere(fs, members[j], n) {
      if NamedHere(fs, members[i], n) {
        assert n in names';
      }
    }
    var ms := members[..i + 1];
    forall a, b, n | 0 <= a < b < |ms| && NamedHere(fs, ms[a], n) ensures !NamedHere(fs, ms[b], n) {
      assert ms[a] == members[..i][a];
      if b < i {
        assert ms[b] == members[..i][b];
      } else {
        assert n in names;
      }
    }
  }

  /** The default members were chosen when the configured members had been walked, before the root itself. */
  ghost predicate DefaultsChosen(fs: Files, root: Path, current: Path, members: seq<Path>, defaults: seq<Path>)
    requires fs.Load(root).Ok? && fs.Load(root).value.config.Root?
  {
    var config := fs.Load(root).value.config;
    if config.defaults.Some? then defaults == config.defaults.value
    else if !IsVirtual(fs, current) then defaults == [current]
    else defaults <= members && Complete(fs, root, config.expanded, defaults)
  }

  predicate IsVirtual(fs: Files, manifest: Path) {
    fs.Load(manifest).Ok? && fs.Load(manifest).value.isVirtual
  }

  ghost predicate NamedHere(fs: Files, m: Path, n: string) {
    fs.Load(m).Ok? && !fs.Load(m).value.isVirtual && fs.Load(m).value.name == n
  }

  ghost predicate DistinctNames(fs: Files, members: seq<Path>) {
    forall i, j, n :: 0 <= i < j < |members| && NamedHere(fs, members[i], n) ==> !NamedHere(fs, members[j], n)
  }

  ghost function RootCount(fs: Files, members: seq<Path>): nat {
    if members == [] then 0
    else
      var last := fs.Load(members[|members| - 1]);
      RootCount(fs, members[..|members| - 1]) + (if last.Ok? && last.value.config.Root? then 1 else 0)
  }

  lemma DuplicateName(fs: Files, members: seq<Path>, i: nat)
    requires i < |members| && fs.Load(members[i]).Ok? && !fs.Load(members[i]).value.isVirtual
    requires exists j :: 0 <= j < i && NamedHere(fs, members[j], fs.Load(members[i]).value.name)
    ensures !DistinctNames(fs, members)
  {
    var j :| 0 <= j < i && NamedHere(fs, members[j], fs.Load(members[i]).value.name);
    assert NamedHere(fs, members[i], fs.Load(members[i]).value.name);
  }

  /** What a validated workspace promises. */
  ghost predicate IsValid(fs: Files, root: Path, current: Path, members: seq<Path>) {
    && DistinctNames(fs, members) && RootCount(fs, members) == 1
    && (forall i :: 0 <= i < |members| ==> FindRoot(fs, members[i]) == Ok(Some(root)))
    && current in members
  }

  predicate IsRootAt(fs: Files, members: seq<Path>, i: nat)
    requires i < |members|
  {
    fs.Load(members[i]).Ok? && fs.Load(members[i]).value.config.Root?
  }

  lemma {:induction false} NoRootMeans(fs: Files, members: seq<Path>)
    ensures RootCount(fs, members) == 0 <==> forall i :: 0 <= i < |members| ==> !IsRootAt(fs, members, i)
    decreases |members|
  {
    if members != [] {
      var n: nat := |members| - 1;
      NoRootMeans(fs, members[..n]);
      assert forall i :: 0 <= i < n ==> IsRootAt(fs, members[..n], i) == IsRootAt(fs, members, i);
      assert RootCount(fs, members) == 0 <==> RootCount(fs, members[..n]) == 0 && !IsRootAt(fs, members, n);
    }
  }

  ghost predicate OnlyRootAt(fs: Files, members: seq<Path>, i: nat)
    requires i < |members|
  {
    IsRootAt(fs, members, i) && forall j :: 0 <= j < |members| && IsRootAt(fs, members, j) ==> j == i
  }

  lemma {:induction false} OneRootMeans(fs: Files, members: seq<Path>)
    ensures RootCount(fs, members) == 1 <==> exists i :: 0 <= i < |members| && OnlyRootAt(fs, members, i)
    decreases |members|
  {
    if members != [] {
      var n: nat := |members| - 1;
      var init := members[..n];
      assert forall i :: 0 <= i < n ==> IsRootAt(fs, init, i) == IsRootAt(fs, members, i);
      NoRootMeans(fs, init);
      OneRootMeans(fs, init);
      if IsRootAt(fs, members, n) {
        assert RootCount(fs, init) == 0 <==> OnlyRootAt(fs, members, n);
      } else {
        assert forall i :: 0 <= i < n ==> (OnlyRootAt(fs, init, i) <==> OnlyRootAt(fs, members, i));
      }
    }
  }

  /**
   A workspace is valid exactly if no two of its packages share a name, one member alone is configured as a
   root, the root of every member is this one, and the current manifest is a member.
   */
  lemma ValidExactly(fs: Files, root: Path, current: Path, members: seq<Path>)
    ensures IsValid(fs, root, current, members) <==>
      && (forall i, j :: 0 <= i < j < |members| ==> !NamedAlike(fs, members[i], members[j]))
      && (exists i :: 0 <= i < |members| && OnlyRootAt(fs, members, i))
      && (forall m :: m in members ==> FindRoot(fs, m) == Ok(Some(root)))
      && current in members
  {
    OneRootMeans(fs, members);
    if forall i :: 0 <= i < |members| ==> FindRoot(fs, members[i]) == Ok(Some(root)) {
      forall m | m in members ensures FindRoot(fs, m) == Ok(Some(root)) {
        var i :| 0 <= i < |members| && members[i] == m;
      }
    }
  }

  /** Both are packages, of the same name. */
  ghost predicate NamedAlike(fs: Files, a: Path, b: Path) {
    exists n :: NamedHere(fs, a, n) && NamedHere(fs, b, n)
  }

  /** The members: none twice, every path dependency settled, and exactly what the starting points lead to. */
  ghost predicate Complete(fs: Files, root: Path, starts: seq<Path>, members: seq<Path>) {
    && NoRepeats(members)
    && (forall m :: m in members ==> DepsSettled(fs, root, Elements(members), m))
    && (forall m :: m in members <==> ReachedFrom(Taken(fs, root), Admitted(fs, root, starts), m))
  }

  /** The starting points the walk does not pass over. */
  ghost function Admitted(fs: Files, root: Path, starts: seq<Path>): set<Path> {
    set p | p in starts && Skips(fs, root, p, false) == Ok(false)
  }

  /** So a configured member that lies below a pattern and an exclude entry alike is a member. */
  lemma ExplicitIsMember(fs: Files, root: Path, starts: seq<Path>, members: seq<Path>, p: Path)
    requires fs.Load(root).Ok? && fs.Load(root).value.config.Root? && IsExplicit(fs.Load(root).value.config, p)
    requires Complete(fs, root, starts, members) && p in starts
    ensures p in members
  {
    ExplicitIsTaken(fs, root, p);
    assert p in Admitted(fs, root, starts);
    ReachesSelf(Taken(fs, root), p);
  }

  lemma OneMoreStart(fs: Files, root: Path, starts: seq<Path>, p: Path, before: seq<Path>, members: seq<Path>)
    requires Complete(fs, root, starts, before) && Walked(fs, root, p, false, before, members)
    ensures Complete(fs, root, starts + [p], members)
  {
    var g := Taken(fs, root);
    PrefixElements(before, members);
    forall m | m in members ensures DepsSettled(fs, root, Elements(members), m) {
      if m in before {
        assert DepsSettled(fs, root, Elements(before), m);
      }
    }
    var old', new' := Admitted(fs, root, starts), Admitted(fs, root, starts + [p]);
    assert old' <= new' <= old' + {p};
    forall m | m in members ensures ReachedFrom(g, new', m) {
      if m in before {
        var r :| r in old' && Reaches(g, r, m);
        assert r in new';
      } else {
        assert p in new' && Reaches(g, p, m);
      }
    }
    forall m | ReachedFrom(g, new', m) ensures m in members {
      var r :| r in new' && Reaches(g, r, m);
      if r in old' {
        assert ReachedFrom(g, old', m);
      } else {
        assert r in Elements(members);
        ClosedHoldsReachable(g, Elements(members), r, m);
      }
    }
  }

  lemma {:induction false} SomeRoot(fs: Files, members: seq<Path>) returns (r: Path)
    requires RootCount(fs, members) > 0
    ensures r in members && fs.Load(r).Ok? && fs.Load(r).value.config.Root?
    decreases |members|
  {
    r := members[|members| - 1];
    if !(fs.Load(r).Ok? && fs.Load(r).value.config.Root?) {
      r := SomeRoot(fs, members[..|members| - 1]);
    }
  }

  /**
   After discovery and validation succeed, the root manifest is a member and the only one configured
   as a root, every member agrees that it is the root, and the default members are members.
   */
  lemma ValidatedWorkspace(fs: Files, root: Path, current: Path, members: seq<Path>, defaults: seq<Path>)
    requires IsValid(fs, root, current, members)
    requires forall m :: m in defaults ==> m in members || m == current
    ensures root in members
    ensures forall m :: m in members ==> fs.Load(m).Ok? && (fs.Load(m).value.config.Root? <==> m == root)
    ensures forall m :: m in defaults ==> m in members
  {
    var r := SomeRoot(fs, members);
    forall m | m in members ensures fs.Load(m).Ok? && FindRoot(fs, m) == Ok(Some(root)) {
      var i :| 0 <= i < |members| && members[i] == m;
    }
  }

  lemma PrefixElements(a: seq<Path>, b: seq<Path>)
    requires a <= b
    ensures forall x :: x in a ==> x in b
    ensures Elements(a) <= Elements(b)
    ensures a != [] ==> a[|a| - 1] in b && Elements(a[..|a| - 1]) <= Elements(b) && a[|a| - 1] in Elements(b)
  {
    forall x | x in a ensures x in b {
      var i :| 0 <= i < |a| && a[i] == x;
      assert b[i] == x;
    }
  }

  /** What was added to `before` is reached from `p`, and all of it but `p` itself is settled. */
  ghost predicate NewAreSettled(fs: Files, root: Path, p: Path, before: seq<Path>, members: seq<Path>) {
    forall x :: x in members && x !in before ==>
      && ReachesAvoiding(Taken(fs, root), Elements(before), p, x)
      && (x != p ==> DepsSettled(fs, root, Elements(members), x))
  }

  /** The members when the first `i` path dependencies of `p`, which was added to `before`, have been followed. */
  ghost predicate Followed(fs: Files, root: Path, p: Path, i: nat, before: seq<Path>, members: seq<Path>)
    requires fs.Load(p).Ok? && i <= |fs.Load(p).value.pathDeps|
  {
    && before + [p] <= members && NoRepeats(members) && NewAreSettled(fs, root, p, before, members)
    && forall j :: 0 <= j < i ==> LookedAt(fs, root, Elements(members), fs.Load(p).value.pathDeps[j])
  }

  /** A path dependency is a member, or it was passed over. */
  ghost predicate LookedAt(fs: Files, root: Path, members: set<Path>, d: Path) {
    d in members || Skips(fs, root, d, true) == Ok(true)
  }

  lemma FewerManifests(keys: set<Path>, before: seq<Path>, p: Path, members: seq<Path>)
    requires p in keys && p !in before && before + [p] <= members
    ensures keys - Elements(members) < keys - Elements(before)
  {
    PrefixElements(before + [p], members);
    assert (before + [p])[..|before|] == before;
    assert p in keys - Elements(before) && p !in keys - Elements(members);
  }

  lemma AllFollowed(fs: Files, root: Path, p: Path, before: seq<Path>, members: seq<Path>)
    requires fs.Load(p).Ok? && !fs.Load(p).value.isVirtual
    requires Followed(fs, root, p, |fs.Load(p).value.pathDeps|, before, members)
    ensures p in members && DepsSettled(fs, root, Elements(members), p)
  {
    PrefixElements(before + [p], members);
    forall d | d in fs.Load(p).value.pathDeps ensures d in Elements(members) || Skips(fs, root, d, true) == Ok(true) {
      var j :| 0 <= j < |fs.Load(p).value.pathDeps| && fs.Load(p).value.pathDeps[j] == d;
      assert LookedAt(fs, root, Elements(members), fs.Load(p).value.pathDeps[j]);
    }
  }

  lemma OneMoreDep(fs: Files, root: Path, p: Path, i: nat, before: seq<Path>, so: seq<Path>, members: seq<Path>)
    requires fs.Load(p).Ok? && !fs.Load(p).value.isVirtual && i < |fs.Load(p).value.pathDeps| && p !in before
    requires Followed(fs, root, p, i, before, so) && Walked(fs, root, fs.Load(p).value.pathDeps[i], true, so, members)
    ensures Followed(fs, root, p, i + 1, before, members)
  {
    var deps := fs.Load(p).value.pathDeps;
    PrefixElements(so, members);
    NewStaySettled(fs, root, p, deps[i], before, so, members);
    forall j | 0 <= j < i ensures LookedAt(fs, root, Elements(members), deps[j]) {
      assert LookedAt(fs, root, Elements(so), deps[j]);
    }
  }

  lemma NewStaySettled(fs: Files, root: Path, p: Path, d: Path, before: seq<Path>, so: seq<Path>, members: seq<Path>)
    requires fs.Load(p).Ok? && !fs.Load(p).value.isVirtual && d in fs.Load(p).value.pathDeps && p !in before
    requires before + [p] <= so && Walked(fs, root, d, true, so, members) && NewAreSettled(fs, root, p, before, so)
    ensures NewAreSettled(fs, root, p, before, members)
  {
    var g := Taken(fs, root);
    PrefixElements(so, members);
    PrefixElements(before + [p], so);
    forall x | x in members && x !in before ensures ReachesAvoiding(g, Elements(before), p, x) {
      if x !in so {
        assert (before + [p])[..|before|] == before;
        AvoidingFirst(g, Elements(before), Elements(so), p, d, x);
      }
    }
    forall x | x in members && x !in before && x != p ensures DepsSettled(fs, root, Elements(members), x) {
      if x in so {
        assert DepsSettled(fs, root, Elements(so), x);
      }
    }
  }

}
