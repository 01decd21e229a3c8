/**
 `load_values_from`, `walk_tree` and `load_credentials` of src/cargo/util/config.rs: which
 configuration files are read, in which order they are merged, and so where the value of a
 key comes from. A path is a list of components; a file on `Disk` has been parsed.
 */
module ConfigLoad {
  import opened Collections
  import opened ConfigMerge

  type Dir = seq<string>

  /** The files that exist; a parsed file is a table. */
  type Disk = disk: map<Dir, Value> | forall p :: p in disk ==> disk[p].Table? witness map[]

  // ---- which files, in which order ----

  function ConfigIn(dir: Dir): Dir {
    dir + [".cargo", "config"]
  }

  function HomeConfig(home: Dir): Dir {
    home + ["config"]
  }

  /** The configuration files from `dir` outwards that exist. */
  function Outwards(dir: Dir, disk: set<Dir>): seq<Dir>
    decreases |dir|
  {
    (if ConfigIn(dir) in disk then [ConfigIn(dir)] else []) +
    (if dir == [] then [] else Outwards(dir[..|dir| - 1], disk))
  }

  function WalkOrder(pwd: Dir, home: Dir, disk: set<Dir>): seq<Dir> {
    var found := Outwards(pwd, disk);
    found + (if HomeConfig(home) in disk && HomeConfig(home) !in found then [HomeConfig(home)] else [])
  }

  lemma OutwardsStep(walked: seq<Dir>, dir: Dir, disk: set<Dir>)
    ensures var walked' := if ConfigIn(dir) in disk then walked + [ConfigIn(dir)] else walked;
      walked + Outwards(dir, disk) == if dir == [] then walked' else walked' + Outwards(dir[..|dir| - 1], disk)
  {
    var here := if ConfigIn(dir) in disk then [ConfigIn(dir)] else [];
    var further := if dir == [] then [] else Outwards(dir[..|dir| - 1], disk);
    Associates(walked, here, further);
    assert walked + [] == walked;
  }

  lemma {:induction false} OutwardsShrinks(dir: Dir, disk: set<Dir>)
    ensures forall i :: 0 <= i < |Outwards(dir, disk)| ==>
      |Outwards(dir, disk)[i]| <= |dir| + 2 && Outwards(dir, disk)[i] in disk
    ensures forall i, j :: 0 <= i < j < |Outwards(dir, disk)| ==> |Outwards(dir, disk)[j]| < |Outwards(dir, disk)[i]|
    decreases |dir|
  {
    if dir != [] {
      OutwardsShrinks(dir[..|dir| - 1], disk);
    }
  }

  /** `path` is the configuration file of `pwd` or of a directory that contains it. */
  ghost predicate IsAbove(pwd: Dir, path: Dir) {
    exists k :: 0 <= k <= |pwd| && path == ConfigIn(pwd[..k])
  }

  lemma IsAboveParent(dir: Dir, path: Dir)
    requires dir != []
    ensures IsAbove(dir, path) <==> path == ConfigIn(dir) || IsAbove(dir[..|dir| - 1], path)
  {
    var parent := dir[..|dir| - 1];
    assert dir[..|dir|] == dir;
    assert forall k :: 0 <= k <= |parent| ==> dir[..k] == parent[..k];
    if IsAbove(dir, path) && path != ConfigIn(dir) {
      var k :| 0 <= k <= |dir| && path == ConfigIn(dir[..k]);
      assert path == ConfigIn(parent[..k]);
    }
    if IsAbove(parent, path) {
      var k :| 0 <= k <= |parent| && path == ConfigIn(parent[..k]);
      assert path == ConfigIn(dir[..k]);
    }
  }

  lemma {:induction false} OutwardsHolds(dir: Dir, disk: set<Dir>, path: Dir)
    ensures path in Outwards(dir, disk) <==> path in disk && IsAbove(dir, path)
    decreases |dir|
  {
    assert dir[..|dir|] == dir;
    if dir == [] {
      assert IsAbove(dir, path) <==> path == ConfigIn(dir);
    } else {
      OutwardsHolds(dir[..|dir| - 1], disk, path);
      IsAboveParent(dir, path);
    }
  }

  /** The files read are exactly those of the working directory and the directories around it, and home's. */
  lemma WalkOrderHolds(pwd: Dir, home: Dir, disk: set<Dir>, path: Dir)
    ensures path in WalkOrder(pwd, home, disk) <==> path in disk && (IsAbove(pwd, path) || path == HomeConfig(home))
  {
    OutwardsHolds(pwd, disk, path);
    OutwardsHolds(pwd, disk, HomeConfig(home));
  }

  /**
   No file is read twice; a nearer directory comes before the ones that contain it, and home last unless it is
   one of them.
   */
  lemma WalkOrderHasNoRepeats(pwd: Dir, home: Dir, disk: set<Dir>)
    ensures var w := WalkOrder(pwd, home, disk);
      && (forall i, j :: 0 <= i < j < |w| ==> w[i] != w[j])
      && (forall i, j :: 0 <= i < j < |w| && IsAbove(pwd, w[j]) ==> IsAbove(pwd, w[i]) && |w[j]| < |w[i]|)
  {
    var w, found := WalkOrder(pwd, home, disk), Outwards(pwd, disk);
    OutwardsShrinks(pwd, disk);
    forall i | 0 <= i < |w| ensures IsAbove(pwd, w[i]) <==> i < |found| {
      OutwardsHolds(pwd, disk, w[i]);
    }
  }

  // ---- loading ----

  function Contents(paths: seq<Dir>, disk: Disk): seq<Value>
    requires forall i :: 0 <= i < |paths| ==> paths[i] in disk
  {
    seq(|paths|, i requires 0 <= i < |paths| => disk[paths[i]])
  }

  function Credentials(home: Dir, disk: Disk): Option<Value> {
    if home + ["credentials"] in disk then Some(disk[home + ["credentials"]]) else None
  }

  lemma WalkOrderExists(pwd: Dir, home: Dir, disk: Disk)
    ensures forall i :: 0 <= i < |WalkOrder(pwd, home, disk.Keys)| ==> WalkOrder(pwd, home, disk.Keys)[i] in disk
  {
    forall i | 0 <= i < |WalkOrder(pwd, home, disk.Keys)| ensures WalkOrder(pwd, home, disk.Keys)[i] in disk {
      WalkOrderHolds(pwd, home, disk.Keys, WalkOrder(pwd, home, disk.Keys)[i]);
    }
  }

  /** The merge of every file in walk order under the credentials. */
  function LoadFrom(pwd: Dir, home: Dir, disk: Disk): Option<Value> {
    WalkOrderExists(pwd, home, disk);
    Load(Contents(WalkOrder(pwd, home, disk.Keys), disk), Credentials(home, disk))
  }

  lemma {:induction false} LoadStaysFailed(files: seq<Value>, n: nat)
    requires n <= |files| && LoadFiles(files[..n]).None?
    ensures LoadFiles(files).None?
    decreases |files| - n
  {
    if n == |files| {
      assert files[..n] == files;
    } else {
      assert files[..n + 1][..n] == files[..n];
      LoadStaysFailed(files, n + 1);
    }
  }

  /** `cfg` holds the files read so far. */
  ghost predicate HasRead(disk: Disk, walked: seq<Dir>, cfg: Value) {
    && (forall i :: 0 <= i < |walked| ==> walked[i] in disk)
    && LoadFiles(Contents(walked, disk)) == Some(cfg)
  }

  ghost predicate FilesFail(disk: Disk, order: seq<Dir>) {
    (forall i :: 0 <= i < |order| ==> order[i] in disk) && LoadFiles(Contents(order, disk)).None?
  }

  /** The callback of `load_values_from`: merges one more file. */
  method ReadFile(disk: Disk, path: Dir, cfg: Value, ghost walked: seq<Dir>, ghost order: seq<Dir>)
    returns (r: Option<Value>)
    requires path in disk && HasRead(disk, walked, cfg) && walked + [path] <= order
    requires forall i :: 0 <= i < |order| ==> order[i] in disk
    ensures r.Some? ==> HasRead(disk, walked + [path], r.value)
    ensures r.None? ==> FilesFail(disk, order)
  {
    ghost var files, n := Contents(walked + [path], disk), |walked|;
    assert files[..n] == Contents(walked, disk);
    r := MergeInto(cfg, disk[path]);
    if r.None? {
      assert Contents(order, disk)[..n + 1] == files;
      LoadStaysFailed(Contents(order, disk), n + 1);
    }
  }

  /** The loop of `walk_tree`: files are merged as it finds them. */
  method WalkOut(pwd: Dir, disk: Disk, cfg: Value, ghost order: seq<Dir>) returns (r: Option<Value>, stash: set<Dir>)
    requires HasRead(disk, [], cfg) && Outwards(pwd, disk.Keys) <= order
    requires forall i :: 0 <= i < |order| ==> order[i] in disk
    ensures r.Some? ==> HasRead(disk, Outwards(pwd, disk.Keys), r.value) && stash == Elements(Outwards(pwd, disk.Keys))
    ensures r.None? ==> FilesFail(disk, order)
  {
    r, stash := Some(cfg), {};
    var current := pwd;
    ghost var walked: seq<Dir> := [];
    while true
      invariant walked + Outwards(current, disk.Keys) == Outwards(pwd, disk.Keys)
      invariant r.Some? && stash == Elements(walked) && HasRead(disk, walked, r.value)
      decreases |current|
    {
      var possible := ConfigIn(current);
      OutwardsStep(walked, current, disk.Keys);
      if possible in disk {
        r := ReadFile(disk, possible, r.value, walked, order);
        if r.None? { return; }
        walked, stash := walked + [possible], stash + {possible};
      }
      if current == [] { break; }
      current := current[..|current| - 1];
    }
  }

  /** `walk_tree`: home's file is read last, unless the loop has read it. */
  method WalkTree(pwd: Dir, home: Dir, disk: Disk, cfg: Value) returns (r: Option<Value>)
    requires HasRead(disk, [], cfg)
    ensures r.Some? ==> HasRead(disk, WalkOrder(pwd, home, disk.Keys), r.value)
    ensures r.None? ==> FilesFail(disk, WalkOrder(pwd, home, disk.Keys))
  {
    ghost var found, order := Outwards(pwd, disk.Keys), WalkOrder(pwd, home, disk.Keys);
    WalkOrderExists(pwd, home, disk);
    var stash;
    r, stash := WalkOut(pwd, disk, cfg, order);
    if r.None? { return; }
    if HomeConfig(home) !in stash && HomeConfig(home) in disk {
      assert order == found + [HomeConfig(home)];
      r := ReadFile(disk, HomeConfig(home), r.value, found, order);
    } else {
      assert order == found;
    }
  }

  /** `load_values_from` with `load_credentials`. */
  method LoadValuesFrom(pwd: Dir, home: Dir, disk: Disk) returns (r: Option<Value>)
    ensures r == LoadFrom(pwd, home, disk)
  {
    r := WalkTree(pwd, home, disk, Table(map[], NOWHERE));
    if r.None? || home + ["credentials"] !in disk { return; }
    r := MergeInto(Modernize(disk[home + ["credentials"]]), r.value);
  }

  // ---- where a value comes from ----

  function DefinedAt(disk: Disk, path: Dir, key: seq<string>): Option<Value> {
    if path in disk then Get(disk[path], key) else None
  }

  function CredentialsDefine(home: Dir, disk: Disk, key: seq<string>): Option<Value> {
    match Credentials(home, disk) case Some(c) => Get(Modernize(c), key) case None => None
  }

  /** The directory with the first `k` components of `pwd` is the nearest one whose file defines the key. */
  ghost predicate NearestDefines(pwd: Dir, disk: Disk, key: seq<string>, k: nat)
    requires k <= |pwd|
  {
    && DefinedAt(disk, ConfigIn(pwd[..k]), key).Some?
    && forall j :: k < j <= |pwd| ==> DefinedAt(disk, ConfigIn(pwd[..j]), key).None?
  }

  ghost predicate NoneDefines(pwd: Dir, disk: Disk, key: seq<string>) {
    forall k :: 0 <= k <= |pwd| ==> DefinedAt(disk, ConfigIn(pwd[..k]), key).None?
  }

  lemma {:induction false} DefinitionsAt(sources: seq<Value>, key: seq<string>)
    ensures |Definitions(sources, key)| == |sources|
    ensures forall i :: 0 <= i < |sources| ==> Definitions(sources, key)[i] == Get(sources[i], key)
  {
    if sources != [] {
      DefinitionsAt(sources[1..], key);
    }
  }

  ghost function Says(paths: seq<Dir>, disk: Disk, key: seq<string>): seq<Option<Value>> {
    seq(|paths|, i requires 0 <= i < |paths| => DefinedAt(disk, paths[i], key))
  }

  /** All definitions of a key in the order in which they take precedence. */
  ghost function Precedence(pwd: Dir, home: Dir, disk: Disk, key: seq<string>): seq<Option<Value>> {
    WalkOrderExists(pwd, home, disk);
    (if Credentials(home, disk).Some? then [CredentialsDefine(home, disk, key)] else []) +
    Definitions(Contents(WalkOrder(pwd, home, disk.Keys), disk), key)
  }

  lemma LoadedByPrecedence(pwd: Dir, home: Dir, disk: Disk, key: seq<string>)
    requires LoadFrom(pwd, home, disk).Some? && key != []
    ensures MergeAll(Precedence(pwd, home, disk, key)) == Some(Get(LoadFrom(pwd, home, disk).value, key))
  {
    WalkOrderExists(pwd, home, disk);
    var files, credentials := Contents(WalkOrder(pwd, home, disk.Keys), disk), Credentials(home, disk);
    LoadedByKey(files, credentials, key);
    DefinitionsOfSources(files, credentials, key);
  }

  /** Two of the definitions are neither both tables, nor both lists, nor both scalars. */
  ghost predicate DefinitionsClash(defs: seq<Option<Value>>) {
    exists i, j :: 0 <= i < j < |defs| && defs[i].Some? && defs[j].Some? && Clash(defs[i].value, defs[j].value)
  }

  /** A load fails exactly when two of the files read, credentials included, clash at some key. */
  lemma FailsOnClash(pwd: Dir, home: Dir, disk: Disk)
    ensures LoadFrom(pwd, home, disk).None? <==>
      exists key :: DefinitionsClash(Precedence(pwd, home, disk, key))
  {
    WalkOrderExists(pwd, home, disk);
    LoadFailsOnClash(Contents(WalkOrder(pwd, home, disk.Keys), disk), Credentials(home, disk));
    if SomeClash(SourcesRead(pwd, home, disk)) {
      var key := ClashInPrecedence(pwd, home, disk);
    }
    if key :| DefinitionsClash(Precedence(pwd, home, disk, key)) {
      ClashInSources(pwd, home, disk, key);
    }
  }

  ghost function SourcesRead(pwd: Dir, home: Dir, disk: Disk): seq<Value> {
    WalkOrderExists(pwd, home, disk);
    Sources(Contents(WalkOrder(pwd, home, disk.Keys), disk), Credentials(home, disk))
  }

  lemma ClashInPrecedence(pwd: Dir, home: Dir, disk: Disk) returns (key: seq<string>)
    requires SomeClash(SourcesRead(pwd, home, disk))
    ensures DefinitionsClash(Precedence(pwd, home, disk, key))
  {
    var sources := SourcesRead(pwd, home, disk);
    var i, j :| 0 <= i < j < |sources| && Clashing(sources[i], sources[j]);
    key :| ClashAt(sources[i], sources[j], key);
    PrecedenceOfSources(pwd, home, disk, key);
    var defs := Precedence(pwd, home, disk, key);
    assert defs[i].Some? && defs[j].Some? && Clash(defs[i].value, defs[j].value);
  }

  lemma ClashInSources(pwd: Dir, home: Dir, disk: Disk, key: seq<string>)
    requires DefinitionsClash(Precedence(pwd, home, disk, key))
    ensures SomeClash(SourcesRead(pwd, home, disk))
  {
    var sources, defs := SourcesRead(pwd, home, disk), Precedence(pwd, home, disk, key);
    PrecedenceOfSources(pwd, home, disk, key);
    var i, j :| 0 <= i < j < |defs| && defs[i].Some? && defs[j].Some? && Clash(defs[i].value, defs[j].value);
    assert ClashAt(sources[i], sources[j], key);
    assert Clashing(sources[i], sources[j]);
  }

  lemma PrecedenceOfSources(pwd: Dir, home: Dir, disk: Disk, key: seq<string>)
    ensures |Precedence(pwd, home, disk, key)| == |SourcesRead(pwd, home, disk)|
    ensures forall i :: 0 <= i < |SourcesRead(pwd, home, disk)| ==>
      Precedence(pwd, home, disk, key)[i] == Get(SourcesRead(pwd, home, disk)[i], key)
  {
    WalkOrderExists(pwd, home, disk);
    DefinitionsOfSources(Contents(WalkOrder(pwd, home, disk.Keys), disk), Credentials(home, disk), key);
    DefinitionsAt(SourcesRead(pwd, home, disk), key);
  }

  /** A load fails exactly when, for some key, its definitions do not merge. */
  lemma FailsOnSomeKey(pwd: Dir, home: Dir, disk: Disk)
    ensures LoadFrom(pwd, home, disk).None? <==>
      exists key: seq<string> :: key != [] && MergeAll(Precedence(pwd, home, disk, key)).None?
  {
    if LoadFrom(pwd, home, disk).None? {
      var k := FailsOnKey(pwd, home, disk);
      assert [k] != [] && MergeAll(Precedence(pwd, home, disk, [k])).None?;
    } else {
      forall key: seq<string> | key != [] ensures MergeAll(Precedence(pwd, home, disk, key)).Some? {
        LoadedByPrecedence(pwd, home, disk, key);
      }
    }
  }

  lemma FailsOnKey(pwd: Dir, home: Dir, disk: Disk) returns (k: string)
    requires LoadFrom(pwd, home, disk).None?
    ensures MergeAll(Precedence(pwd, home, disk, [k])).None?
  {
    WalkOrderExists(pwd, home, disk);
    var files, credentials := Contents(WalkOrder(pwd, home, disk.Keys), disk), Credentials(home, disk);
    k := FailedLoadHasKey(files, credentials);
    DefinitionsOfSources(files, credentials, [k]);
  }

  lemma DefinitionsOfSources(files: seq<Value>, credentials: Option<Value>, key: seq<string>)
    requires credentials.Some? ==> credentials.value.Table?
    ensures Definitions(Sources(files, credentials), key) ==
      (if credentials.Some? then [Get(Modernize(credentials.value), key)] else []) + Definitions(files, key)
  {
    if credentials.Some? {
      assert ([Modernize(credentials.value)] + files)[1..] == files;
    } else {
      assert [] + files == files;
    }
  }

  lemma PrecedenceIs(pwd: Dir, home: Dir, disk: Disk, key: seq<string>)
    ensures Precedence(pwd, home, disk, key) ==
      (if Credentials(home, disk).Some? then [CredentialsDefine(home, disk, key)] else []) +
      Says(WalkOrder(pwd, home, disk.Keys), disk, key)
  {
    WalkOrderExists(pwd, home, disk);
    SaysDefinitions(WalkOrder(pwd, home, disk.Keys), disk, key);
  }

  lemma SaysDefinitions(paths: seq<Dir>, disk: Disk, key: seq<string>)
    requires forall i :: 0 <= i < |paths| ==> paths[i] in disk
    ensures Definitions(Contents(paths, disk), key) == Says(paths, disk, key)
  {
    DefinitionsAt(Contents(paths, disk), key);
  }

  /** A scalar in the credentials wins. */
  lemma CredentialsWin(pwd: Dir, home: Dir, disk: Disk, key: seq<string>)
    requires LoadFrom(pwd, home, disk).Some? && key != []
    requires CredentialsDefine(home, disk, key).Some? && CredentialsDefine(home, disk, key).value.IsScalar()
    ensures Get(LoadFrom(pwd, home, disk).value, key) == CredentialsDefine(home, disk, key)
  {
    LoadedByPrecedence(pwd, home, disk, key);
    FirstDefinerWins(Precedence(pwd, home, disk, key), 0);
  }

  lemma PlaceOfDir(pwd: Dir, home: Dir, disk: Disk, k: nat) returns (i: nat)
    requires k <= |pwd| && ConfigIn(pwd[..k]) in disk
    ensures var w := WalkOrder(pwd, home, disk.Keys);
      && i < |w| && w[i] == ConfigIn(pwd[..k])
      && forall j :: 0 <= j < i ==> exists l :: k < l <= |pwd| && w[j] == ConfigIn(pwd[..l])
  {
    var w := WalkOrder(pwd, home, disk.Keys);
    assert IsAbove(pwd, ConfigIn(pwd[..k]));
    WalkOrderHolds(pwd, home, disk.Keys, ConfigIn(pwd[..k]));
    WalkOrderHasNoRepeats(pwd, home, disk.Keys);
    i :| 0 <= i < |w| && w[i] == ConfigIn(pwd[..k]);
    forall j | 0 <= j < i ensures exists l :: k < l <= |pwd| && w[j] == ConfigIn(pwd[..l]) {
      assert IsAbove(pwd, w[j]) && |w[i]| < |w[j]|;
      var l :| 0 <= l <= |pwd| && w[j] == ConfigIn(pwd[..l]);
    }
  }

  /** Else a scalar of the nearest directory that defines the key does. */
  lemma NearestWins(pwd: Dir, home: Dir, disk: Disk, key: seq<string>, k: nat)
    requires LoadFrom(pwd, home, disk).Some? && key != [] && k <= |pwd|
    requires CredentialsDefine(home, disk, key).None? && NearestDefines(pwd, disk, key, k)
    requires DefinedAt(disk, ConfigIn(pwd[..k]), key).value.IsScalar()
    ensures Get(LoadFrom(pwd, home, disk).value, key) == DefinedAt(disk, ConfigIn(pwd[..k]), key)
  {
    LoadedByPrecedence(pwd, home, disk, key);
    PrecedenceIs(pwd, home, disk, key);
    var i := PlaceOfDir(pwd, home, disk, k);
    var o := if Credentials(home, disk).Some? then 1 else 0;
    FirstDefinerWins(Precedence(pwd, home, disk, key), i + o);
  }

  lemma {:induction false} OnlyTheLast(defs: seq<Option<Value>>)
    requires defs != [] && forall i :: 0 <= i < |defs| - 1 ==> defs[i].None?
    ensures MergeAll(defs) == Some(defs[|defs| - 1])
  {
    if |defs| > 1 {
      OnlyTheLast(defs[1..]);
    }
  }

  /** Else the key is what home says, if anything. */
  lemma HomeIsLast(pwd: Dir, home: Dir, disk: Disk, key: seq<string>)
    requires LoadFrom(pwd, home, disk).Some? && key != []
    requires CredentialsDefine(home, disk, key).None? && NoneDefines(pwd, disk, key)
    ensures Get(LoadFrom(pwd, home, disk).value, key) == DefinedAt(disk, HomeConfig(home), key)
  {
    var defs := Precedence(pwd, home, disk, key);
    LoadedByPrecedence(pwd, home, disk, key);
    PrecedenceIs(pwd, home, disk, key);
    OnlyHomeSays(pwd, home, disk, key);
    if defs != [] {
      OnlyTheLast(defs);
    }
  }

  /** If nothing above `pwd` defines the key, only the last file of the walk may, and that is home's. */
  lemma OnlyHomeSays(pwd: Dir, home: Dir, disk: Disk, key: seq<string>)
    requires NoneDefines(pwd, disk, key)
    ensures var w, last := WalkOrder(pwd, home, disk.Keys), DefinedAt(disk, HomeConfig(home), key);
      && (forall i :: 0 <= i < |w| - 1 ==> DefinedAt(disk, w[i], key).None?)
      && (if w == [] then last.None? else DefinedAt(disk, w[|w| - 1], key) == last)
  {
    var w := WalkOrder(pwd, home, disk.Keys);
    WalkOrderHasNoRepeats(pwd, home, disk.Keys);
    forall i | 0 <= i < |w| && w[i] != HomeConfig(home) ensures DefinedAt(disk, w[i], key).None? {
      WalkOrderHolds(pwd, home, disk.Keys, w[i]);
    }
    if DefinedAt(disk, HomeConfig(home), key).Some? {
      HomeInWalk(pwd, home, disk, key);
    }
  }

  lemma HomeInWalk(pwd: Dir, home: Dir, disk: Disk, key: seq<string>)
    requires NoneDefines(pwd, disk, key) && DefinedAt(disk, HomeConfig(home), key).Some?
    ensures var w := WalkOrder(pwd, home, disk.Keys); w != [] && w[|w| - 1] == HomeConfig(home)
  {
    OutwardsHolds(pwd, disk.Keys, HomeConfig(home));
  }

  function ItemsOf(def: Option<Value>): seq<(string, Path)> {
    if def.Some? && def.value.List? then def.value.items else []
  }

  /** The items of a list key in the files from `dir` outwards, nearest first. */
  function ItemsOutwards(dir: Dir, disk: Disk, key: seq<string>): seq<(string, Path)>
    decreases |dir|
  {
    ItemsOf(DefinedAt(disk, ConfigIn(dir), key)) + if dir == [] then [] else ItemsOutwards(dir[..|dir| - 1], disk, key)
  }

  lemma {:induction false} AllItemsOfAppend(a: seq<Option<Value>>, b: seq<Option<Value>>)
    ensures AllItems(a + b) == AllItems(a) + AllItems(b)
  {
    if a == [] {
      assert a + b == b;
    } else {
      assert (a + b)[1..] == a[1..] + b;
      AllItemsOfAppend(a[1..], b);
    }
  }

  lemma SaysOfAppend(a: seq<Dir>, b: seq<Dir>, disk: Disk, key: seq<string>)
    ensures AllItems(Says(a + b, disk, key)) == AllItems(Says(a, disk, key)) + AllItems(Says(b, disk, key))
  {
    assert Says(a + b, disk, key) == Says(a, disk, key) + Says(b, disk, key);
    AllItemsOfAppend(Says(a, disk, key), Says(b, disk, key));
  }

  lemma SaysOfOne(path: Dir, disk: Disk, key: seq<string>)
    ensures AllItems(Says([path], disk, key)) == ItemsOf(DefinedAt(disk, path, key))
    ensures AllItems(Says([], disk, key)) == []
  {
    assert Says([path], disk, key)[1..] == [];
  }

  lemma {:induction false} ItemsOfOutwards(dir: Dir, disk: Disk, key: seq<string>)
    ensures AllItems(Says(Outwards(dir, disk.Keys), disk, key)) == ItemsOutwards(dir, disk, key)
    decreases |dir|
  {
    var here := if ConfigIn(dir) in disk then [ConfigIn(dir)] else [];
    var further := if dir == [] then [] else Outwards(dir[..|dir| - 1], disk.Keys);
    SaysOfAppend(here, further, disk, key);
    SaysOfOne(ConfigIn(dir), disk, key);
    if dir != [] {
      ItemsOfOutwards(dir[..|dir| - 1], disk, key);
    }
  }

  /**
   A list is that of the credentials, then of each directory from the nearest outwards, then of home if it is
   none of them.
   */
  lemma ListsComeInOrder(pwd: Dir, home: Dir, disk: Disk, key: seq<string>)
    requires LoadFrom(pwd, home, disk).Some? && key != []
    requires Get(LoadFrom(pwd, home, disk).value, key).Some? && Get(LoadFrom(pwd, home, disk).value, key).value.List?
    ensures Get(LoadFrom(pwd, home, disk).value, key).value.items ==
      ItemsOf(CredentialsDefine(home, disk, key)) + ItemsOutwards(pwd, disk, key) +
      if IsAbove(pwd, HomeConfig(home)) then [] else ItemsOf(DefinedAt(disk, HomeConfig(home), key))
  {
    LoadedByPrecedence(pwd, home, disk, key);
    ListsAreConcatenated(Precedence(pwd, home, disk, key));
    ItemsOfPrecedence(pwd, home, disk, key);
    ItemsOfWalk(pwd, home, disk, key);
    Associates(ItemsOf(CredentialsDefine(home, disk, key)), ItemsOutwards(pwd, disk, key),
               if IsAbove(pwd, HomeConfig(home)) then [] else ItemsOf(DefinedAt(disk, HomeConfig(home), key)));
  }

  lemma ItemsOfPrecedence(pwd: Dir, home: Dir, disk: Disk, key: seq<string>)
    ensures AllItems(Precedence(pwd, home, disk, key)) ==
      ItemsOf(CredentialsDefine(home, disk, key)) + AllItems(Says(WalkOrder(pwd, home, disk.Keys), disk, key))
  {
    var first := if Credentials(home, disk).Some? then [CredentialsDefine(home, disk, key)] else [];
    PrecedenceIs(pwd, home, disk, key);
    AllItemsOfAppend(first, Says(WalkOrder(pwd, home, disk.Keys), disk, key));
    assert first != [] ==> first[1..] == [];
  }

  lemma ItemsOfWalk(pwd: Dir, home: Dir, disk: Disk, key: seq<string>)
    ensures AllItems(Says(WalkOrder(pwd, home, disk.Keys), disk, key)) == ItemsOutwards(pwd, disk, key) +
      if IsAbove(pwd, HomeConfig(home)) then [] else ItemsOf(DefinedAt(disk, HomeConfig(home), key))
  {
    var found, last := Outwards(pwd, disk.Keys), HomeConfig(home);
    var tail := if last in disk && last !in found then [last] else [];
    ItemsOfOutwards(pwd, disk, key);
    SaysOfAppend(found, tail, disk, key);
    SaysOfOne(last, disk, key);
    OutwardsHolds(pwd, disk.Keys, last);
  }
}
