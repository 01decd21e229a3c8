/**
 Configuration values of src/cargo/util/config.rs: merging them, what a merge of several
 files and the credentials holds, and looking a dotted key up in it.
 */
module ConfigMerge {
  import opened Collections

  type Path = string

  /** Every value remembers the file that defined it. */
  datatype Value =
    | Integer(i: int, def: Path)
    | Text(s: string, def: Path)
    | Boolean(b: bool, def: Path)
    | List(items: seq<(string, Path)>, def: Path)
    | Table(entries: map<string, Value>, def: Path)
  {
    predicate IsScalar() {
      Integer? || Text? || Boolean?
    }
  }

  /**
   `merge`: lists are appended, tables merged entry by entry, scalars kept; a list or table meeting anything
   else fails.
   */
  function Merge(a: Value, b: Value): Option<Value>
    decreases a
  {
    match (a, b)
    case (List(xs, def), List(ys, _)) => Some(List(xs + ys, def))
    case (Table(old', def), Table(new', _)) =>
      if forall k :: k in old' && k in new' ==> Merge(old'[k], new'[k]).Some? then
        Some(Table(map k | k in old'.Keys + new'.Keys ::
          if k !in new' then old'[k] else if k !in old' then new'[k] else Merge(old'[k], new'[k]).value, def))
      else None
    case _ => if a.IsScalar() && b.IsScalar() then Some(a) else None
  }

  /** Merging what two files say, where either may say nothing. */
  function MergeOpt(a: Option<Value>, b: Option<Value>): Option<Option<Value>> {
    if a.None? then Some(b) else if b.None? then Some(a)
    else match Merge(a.value, b.value) case Some(v) => Some(Some(v)) case None => None
  }

  function Entry(t: Value, k: string): Option<Value> {
    if t.Table? && k in t.entries then Some(t.entries[k]) else None
  }

  lemma MergeTables(a: Value, b: Value)
    requires a.Table? && b.Table?
    ensures Merge(a, b).Some? <==> forall k :: MergeOpt(Entry(a, k), Entry(b, k)).Some?
    ensures Merge(a, b).Some? ==> Merge(a, b).value.Table? && Merge(a, b).value.def == a.def
    ensures Merge(a, b).Some? ==> forall k :: Some(Entry(Merge(a, b).value, k)) == MergeOpt(Entry(a, k), Entry(b, k))
  {
    if Merge(a, b).Some? {
      forall k ensures Some(Entry(Merge(a, b).value, k)) == MergeOpt(Entry(a, k), Entry(b, k)) {
        assert k in a.entries && k in b.entries ==> Merge(a.entries[k], b.entries[k]).Some?;
      }
    } else {
      var k :| k in a.entries && k in b.entries && Merge(a.entries[k], b.entries[k]).None?;
      assert MergeOpt(Entry(a, k), Entry(b, k)).None?;
    }
  }

  lemma SameEntriesSameTable(a: Value, b: Value)
    requires a.Table? && b.Table? && a.def == b.def && forall k :: Entry(a, k) == Entry(b, k)
    ensures a == b
  {
    forall k ensures k in a.entries <==> k in b.entries {
      assert Entry(a, k) == Entry(b, k);
    }
    forall k | k in a.entries ensures a.entries[k] == b.entries[k] {
      assert Entry(a, k) == Entry(b, k);
    }
    assert a.entries == b.entries;
  }

  // ---- merging is associative, failures included ----

  function MergeLeft(a: Value, b: Value, c: Value): Option<Value> {
    match Merge(a, b) case Some(ab) => Merge(ab, c) case None => None
  }

  function MergeRight(a: Value, b: Value, c: Value): Option<Value> {
    match Merge(b, c) case Some(bc) => Merge(a, bc) case None => None
  }

  predicate Agrees(a: Option<Value>, b: Option<Value>, c: Option<Value>) {
    MergeOptLeft(a, b, c) == MergeOptRight(a, b, c)
  }

  function MergeOptLeft(a: Option<Value>, b: Option<Value>, c: Option<Value>): Option<Option<Value>> {
    match MergeOpt(a, b) case Some(ab) => MergeOpt(ab, c) case None => None
  }

  function MergeOptRight(a: Option<Value>, b: Option<Value>, c: Option<Value>): Option<Option<Value>> {
    match MergeOpt(b, c) case Some(bc) => MergeOpt(a, bc) case None => None
  }

  /** Left and right agree on three tables if they agree on each key, and otherwise both fail. */
  lemma TablesAssociate(a: Value, b: Value, c: Value)
    requires a.Table? && b.Table? && c.Table?
    requires forall k :: Agrees(Entry(a, k), Entry(b, k), Entry(c, k))
    ensures MergeLeft(a, b, c) == MergeRight(a, b, c)
  {
    MergeTables(a, b);
    MergeTables(b, c);
    LeftByKey(a, b, c);
    RightByKey(a, b, c);
    var l, r := MergeLeft(a, b, c), MergeRight(a, b, c);
    if l.Some? {
      forall k ensures MergeOptRight(Entry(a, k), Entry(b, k), Entry(c, k)).Some? {
        assert MergeOptLeft(Entry(a, k), Entry(b, k), Entry(c, k)).Some?;
      }
      forall k ensures Entry(l.value, k) == Entry(r.value, k) {
        assert Agrees(Entry(a, k), Entry(b, k), Entry(c, k));
      }
      SameEntriesSameTable(l.value, r.value);
    }
  }

  lemma LeftByKey(a: Value, b: Value, c: Value)
    requires a.Table? && b.Table? && c.Table?
    ensures MergeLeft(a, b, c).Some? <==> forall k :: MergeOptLeft(Entry(a, k), Entry(b, k), Entry(c, k)).Some?
    ensures MergeLeft(a, b, c).Some? ==> MergeLeft(a, b, c).value.Table? && MergeLeft(a, b, c).value.def == a.def
    ensures MergeLeft(a, b, c).Some? ==>
      forall k :: Some(Entry(MergeLeft(a, b, c).value, k)) == MergeOptLeft(Entry(a, k), Entry(b, k), Entry(c, k))
  {
    MergeTables(a, b);
    if Merge(a, b).Some? {
      var ab := Merge(a, b).value;
      MergeTables(ab, c);
      forall k ensures MergeOptLeft(Entry(a, k), Entry(b, k), Entry(c, k)) == MergeOpt(Entry(ab, k), Entry(c, k)) {
        assert Some(Entry(ab, k)) == MergeOpt(Entry(a, k), Entry(b, k));
      }
    } else {
      var k :| MergeOpt(Entry(a, k), Entry(b, k)).None?;
      assert MergeOptLeft(Entry(a, k), Entry(b, k), Entry(c, k)).None?;
    }
  }

  lemma RightByKey(a: Value, b: Value, c: Value)
    requires a.Table? && b.Table? && c.Table?
    ensures MergeRight(a, b, c).Some? <==> forall k :: MergeOptRight(Entry(a, k), Entry(b, k), Entry(c, k)).Some?
    ensures MergeRight(a, b, c).Some? ==> MergeRight(a, b, c).value.Table? && MergeRight(a, b, c).value.def == a.def
    ensures MergeRight(a, b, c).Some? ==>
      forall k :: Some(Entry(MergeRight(a, b, c).value, k)) == MergeOptRight(Entry(a, k), Entry(b, k), Entry(c, k))
  {
    MergeTables(b, c);
    if Merge(b, c).Some? {
      var bc := Merge(b, c).value;
      MergeTables(a, bc);
      forall k ensures MergeOptRight(Entry(a, k), Entry(b, k), Entry(c, k)) == MergeOpt(Entry(a, k), Entry(bc, k)) {
        assert Some(Entry(bc, k)) == MergeOpt(Entry(b, k), Entry(c, k));
      }
    } else {
      var k :| MergeOpt(Entry(b, k), Entry(c, k)).None?;
      assert MergeOptRight(Entry(a, k), Entry(b, k), Entry(c, k)).None?;
    }
  }

  lemma {:induction false} MergeAssociates(a: Value, b: Value, c: Value)
    ensures MergeLeft(a, b, c) == MergeRight(a, b, c)
    decreases a
  {
    if a.Table? && b.Table? && c.Table? {
      forall k
        ensures Agrees(Entry(a, k), Entry(b, k), Entry(c, k))
      {
        if k in a.entries && k in b.entries && k in c.entries {
          MergeAssociates(a.entries[k], b.entries[k], c.entries[k]);
        }
      }
      TablesAssociate(a, b, c);
    } else {
      if a.List? && b.List? && c.List? {
        assert a.items + b.items + c.items == a.items + (b.items + c.items);
      }
    }
  }

  lemma MergeOptAssociates(a: Option<Value>, b: Option<Value>, c: Option<Value>)
    ensures MergeOptLeft(a, b, c) == MergeOptRight(a, b, c)
  {
    if a.Some? && b.Some? && c.Some? {
      MergeAssociates(a.value, b.value, c.value);
    }
  }

  // ---- looking up ----

  function Get(v: Value, key: seq<string>): Option<Value> {
    if key == [] then Some(v)
    else match Entry(v, key[0]) case Some(w) => Get(w, key[1..]) case None => None
  }

  /** Looking a key up in a merge is merging what is found in either part. */
  lemma {:induction false} GetOfMerge(a: Value, b: Value, key: seq<string>)
    requires Merge(a, b).Some? && (key == [] || (a.Table? && b.Table?))
    ensures Some(Get(Merge(a, b).value, key)) == MergeOpt(Get(a, key), Get(b, key))
    decreases key
  {
    if key != [] {
      MergeTables(a, b);
      var k, m := key[0], Merge(a, b).value;
      assert Some(Entry(m, k)) == MergeOpt(Entry(a, k), Entry(b, k));
      if Entry(a, k).Some? && Entry(b, k).Some? {
        var x, y := Entry(a, k).value, Entry(b, k).value;
        if key[1..] != [] && !(x.Table? && y.Table?) {
        } else {
          GetOfMerge(x, y, key[1..]);
        }
      }
    }
  }

  // ---- when merging fails ----

  /** Two values are neither both tables, nor both lists, nor both scalars. */
  predicate Clash(a: Value, b: Value) {
    !(a.Table? && b.Table?) && !(a.List? && b.List?) && !(a.IsScalar() && b.IsScalar())
  }

  predicate ClashAt(a: Value, b: Value, key: seq<string>) {
    Get(a, key).Some? && Get(b, key).Some? && Clash(Get(a, key).value, Get(b, key).value)
  }

  ghost predicate Clashing(a: Value, b: Value) {
    exists key :: ClashAt(a, b, key)
  }

  /** Merging fails exactly when some key path leads to values that clash. */
  lemma {:induction false} MergeFailsOnClash(a: Value, b: Value)
    ensures Merge(a, b).None? <==> Clashing(a, b)
    decreases a
  {
    if a.Table? && b.Table? {
      TablesFailOnClash(a, b);
      if Merge(a, b).None? {
        var k :| k in a.entries && k in b.entries && Merge(a.entries[k], b.entries[k]).None?;
        MergeFailsOnClash(a.entries[k], b.entries[k]);
        var key :| ClashAt(a.entries[k], b.entries[k], key);
        ClashBelow(a, b, k, key);
      }
      if key :| ClashAt(a, b, key) {
        assert key != [];
        var k := key[0];
        assert ClashAt(a.entries[k], b.entries[k], key[1..]);
        MergeFailsOnClash(a.entries[k], b.entries[k]);
      }
    } else {
      ShallowClash(a, b);
    }
  }

  lemma ClashBelow(a: Value, b: Value, k: string, key: seq<string>)
    requires a.Table? && b.Table? && k in a.entries && k in b.entries && ClashAt(a.entries[k], b.entries[k], key)
    ensures ClashAt(a, b, [k] + key)
  {
    assert ([k] + key)[1..] == key;
  }

  lemma TablesFailOnClash(a: Value, b: Value)
    requires a.Table? && b.Table?
    ensures Merge(a, b).None? <==>
      exists k :: k in a.entries && k in b.entries && Merge(a.entries[k], b.entries[k]).None?
  {
  }

  lemma ShallowClash(a: Value, b: Value)
    requires !(a.Table? && b.Table?)
    ensures Merge(a, b).None? <==> Clashing(a, b)
  {
    if Merge(a, b).None? {
      assert ClashAt(a, b, []);
    }
    if key :| ClashAt(a, b, key) {
      assert key == [];
    }
  }

  /** The result has the shape of both, and remembers the first as its definition. */
  lemma MergedLooksLikeBoth(a: Value, b: Value)
    requires Merge(a, b).Some?
    ensures var m := Merge(a, b).value; m.def == a.def && !Clash(m, a) && !Clash(m, b) && !Clash(a, b)
  {
  }

  // ---- loading ----

  const NOWHERE: Path := "."

  /** The configuration after merging the given files in order, starting from nothing. */
  function LoadFiles(files: seq<Value>): Option<Value> {
    if files == [] then Some(Table(map[], NOWHERE))
    else match LoadFiles(files[..|files| - 1])
      case Some(cfg) => Merge(cfg, files[|files| - 1])
      case None => None
  }

  /** Old credential files keep a bare `token`, which means `registry.token`. */
  function Modernize(credentials: Value): Value
    requires credentials.Table?
  {
    var t := credentials.entries;
    if "token" !in t then credentials
    else if "registry" in t then credentials.(entries := t - {"token"})
    else credentials.(entries := (t - {"token"})["registry" := Table(map["token" := t["token"]], NOWHERE)])
  }

  /**
   What a credentials file defines: `registry` is what it says, or else a bare `token` under that name; there
   is no `token` at the top; and every other key is what it says.
   */
  lemma ModernizedDefines(credentials: Value, k: string)
    requires credentials.Table?
    ensures Modernize(credentials).Table?
    ensures var m, t := Modernize(credentials), credentials.entries;
      Entry(m, k) ==
        if k == "token" then None
        else if k == "registry" && k !in t && "token" in t then Some(Table(map["token" := t["token"]], NOWHERE))
        else Entry(credentials, k)
  {
  }

  /** So `registry.token` is the file's own, or its bare `token` if it has no `registry`. */
  lemma RegistryToken(credentials: Value)
    requires credentials.Table?
    ensures Get(Modernize(credentials), ["registry", "token"]) ==
      if "registry" in credentials.entries then Get(credentials, ["registry", "token"]) else Get(credentials, ["token"])
  {
    ModernizedDefines(credentials, "registry");
    assert ["registry", "token"][1..] == ["token"] && ["token"][1..] == [];
  }

  /** The files merged in order, then under the credentials, if any. */
  function Load(files: seq<Value>, credentials: Option<Value>): Option<Value>
    requires credentials.Some? ==> credentials.value.Table?
  {
    match LoadFiles(files)
    case None => None
    case Some(cfg) => if credentials.None? then Some(cfg) else Merge(Modernize(credentials.value), cfg)
  }

  /** Everything that is merged, in order of precedence. */
  function Sources(files: seq<Value>, credentials: Option<Value>): seq<Value>
    requires credentials.Some? ==> credentials.value.Table?
  {
    (if credentials.Some? then [Modernize(credentials.value)] else []) + files
  }

  /** What a key is defined as by each source in turn. */
  function Definitions(sources: seq<Value>, key: seq<string>): seq<Option<Value>> {
    if sources == [] then [] else [Get(sources[0], key)] + Definitions(sources[1..], key)
  }

  /** All definitions merged, the first taking precedence. */
  function MergeAll(defs: seq<Option<Value>>): Option<Option<Value>> {
    if defs == [] then Some(None)
    else match MergeAll(defs[1..]) case Some(rest) => MergeOpt(defs[0], rest) case None => None
  }

  lemma {:induction false} MergeAllSnoc(defs: seq<Option<Value>>, d: Option<Value>)
    ensures MergeAll(defs + [d]) == match MergeAll(defs) case Some(m) => MergeOpt(m, d) case None => None
  {
    if defs == [] {
      assert [] + [d] == [d];
      assert [d][1..] == [];
    } else {
      assert (defs + [d])[1..] == defs[1..] + [d];
      MergeAllSnoc(defs[1..], d);
      if MergeAll(defs[1..]).Some? {
        MergeOptAssociates(defs[0], MergeAll(defs[1..]).value, d);
      }
    }
  }

  lemma {:induction false} DefinitionsSnoc(sources: seq<Value>, v: Value, key: seq<string>)
    ensures Definitions(sources + [v], key) == Definitions(sources, key) + [Get(v, key)]
  {
    if sources == [] {
      assert [] + [v] == [v];
      assert [v][1..] == [];
    } else {
      assert (sources + [v])[1..] == sources[1..] + [v];
      DefinitionsSnoc(sources[1..], v, key);
    }
  }

  predicate AllTables(sources: seq<Value>) {
    forall i :: 0 <= i < |sources| ==> sources[i].Table?
  }

  lemma {:induction false} LoadedFilesByKey(files: seq<Value>, key: seq<string>)
    requires AllTables(files) && LoadFiles(files).Some? && key != []
    ensures LoadFiles(files).value.Table?
    ensures MergeAll(Definitions(files, key)) == Some(Get(LoadFiles(files).value, key))
    decreases |files|
  {
    if files != [] {
      var init, last := files[..|files| - 1], files[|files| - 1];
      assert files == init + [last];
      LoadedFilesByKey(init, key);
      var cfg := LoadFiles(init).value;
      MergeTables(cfg, last);
      GetOfMerge(cfg, last, key);
      DefinitionsSnoc(init, last, key);
      MergeAllSnoc(Definitions(init, key), Get(last, key));
    }
  }

  /**
   After a successful load, every key holds the merge of its definitions, those of the credentials
   first and then those of the files in order.
   */
  lemma LoadedByKey(files: seq<Value>, credentials: Option<Value>, key: seq<string>)
    requires AllTables(files) && (credentials.Some? ==> credentials.value.Table?) && key != []
    requires Load(files, credentials).Some?
    ensures var sources := Sources(files, credentials);
      MergeAll(Definitions(sources, key)) == Some(Get(Load(files, credentials).value, key))
  {
    LoadedFilesByKey(files, key);
    if credentials.Some? {
      var c, cfg := Modernize(credentials.value), LoadFiles(files).value;
      GetOfMerge(c, cfg, key);
      assert ([c] + files)[1..] == files;
      assert Definitions([c] + files, key)[1..] == Definitions(files, key);
    } else {
      assert [] + files == files;
    }
  }

  lemma {:induction false} FailedFilesHaveKey(files: seq<Value>) returns (k: string)
    requires AllTables(files) && LoadFiles(files).None?
    ensures MergeAll(Definitions(files, [k])).None?
    decreases |files|
  {
    var init, last := files[..|files| - 1], files[|files| - 1];
    assert files == init + [last];
    if LoadFiles(init).None? {
      k := FailedFilesHaveKey(init);
    } else {
      LoadedFilesByKey(init, [""]);
      var cfg := LoadFiles(init).value;
      MergeTables(cfg, last);
      k :| MergeOpt(Entry(cfg, k), Entry(last, k)).None?;
      LoadedFilesByKey(init, [k]);
      GetOne(cfg, k);
      GetOne(last, k);
    }
    DefinitionsSnoc(init, last, [k]);
    MergeAllSnoc(Definitions(init, [k]), Get(last, [k]));
  }

  lemma GetOne(v: Value, k: string)
    ensures Get(v, [k]) == Entry(v, k)
  {
    assert [k][1..] == [];
  }

  /** A load fails exactly when, for some key, its definitions do not merge. */
  lemma LoadFailsOnSomeKey(files: seq<Value>, credentials: Option<Value>)
    requires AllTables(files) && (credentials.Some? ==> credentials.value.Table?)
    ensures var sources := Sources(files, credentials);
      Load(files, credentials).None? <==>
        exists key: seq<string> :: key != [] && MergeAll(Definitions(sources, key)).None?
  {
    var sources := Sources(files, credentials);
    if Load(files, credentials).Some? {
      forall key: seq<string> | key != [] ensures MergeAll(Definitions(sources, key)).Some? {
        LoadedByKey(files, credentials, key);
      }
    } else {
      var k := FailedLoadHasKey(files, credentials);
      assert [k] != [] && MergeAll(Definitions(sources, [k])).None?;
    }
  }

  lemma FailedLoadHasKey(files: seq<Value>, credentials: Option<Value>) returns (k: string)
    requires AllTables(files) && (credentials.Some? ==> credentials.value.Table?) && Load(files, credentials).None?
    ensures var sources := Sources(files, credentials);
      MergeAll(Definitions(sources, [k])).None?
  {
    if LoadFiles(files).None? {
      k := FailedFilesHaveKey(files);
    } else {
      var c, cfg := Modernize(credentials.value), LoadFiles(files).value;
      LoadedFilesByKey(files, [""]);
      MergeTables(c, cfg);
      k :| MergeOpt(Entry(c, k), Entry(cfg, k)).None?;
      LoadedFilesByKey(files, [k]);
      GetOne(c, k);
      GetOne(cfg, k);
    }
    if credentials.Some? {
      var sources := [Modernize(credentials.value)] + files;
      assert sources[1..] == files;
      assert Definitions(sources, [k])[1..] == Definitions(files, [k]);
    } else {
      assert [] + files == files;
    }
  }

  /** A key holds a value of the kind that every file which defines it gives it. */
  lemma {:induction false} LoadedKind(files: seq<Value>, key: seq<string>)
    requires AllTables(files) && LoadFiles(files).Some? && key != []
    ensures LoadFiles(files).value.Table?
    ensures forall i :: 0 <= i < |files| && Get(files[i], key).Some? ==>
      SameKindAt(LoadFiles(files).value, files[i], key)
    ensures Get(LoadFiles(files).value, key).Some? ==> exists i :: 0 <= i < |files| && Get(files[i], key).Some?
    decreases |files|
  {
    if files != [] {
      var init, last := files[..|files| - 1], files[|files| - 1];
      assert files == init + [last];
      LoadedKind(init, key);
      var cfg := LoadFiles(init).value;
      MergeTables(cfg, last);
      OneMoreKind(cfg, last, key);
      var m := LoadFiles(files).value;
      forall i | 0 <= i < |files| && Get(files[i], key).Some? ensures SameKindAt(m, files[i], key) {
        if i < |init| {
          assert SameKindAt(cfg, init[i], key);
        }
      }
      if Get(m, key).Some? && Get(last, key).None? {
        var i :| 0 <= i < |init| && Get(init[i], key).Some?;
        assert Get(files[i], key).Some?;
      }
    }
  }

  predicate SameKindAt(a: Value, b: Value, key: seq<string>) {
    Get(a, key).Some? && Get(b, key).Some? && !Clash(Get(a, key).value, Get(b, key).value)
  }

  lemma OneMoreKind(cfg: Value, last: Value, key: seq<string>)
    requires cfg.Table? && last.Table? && Merge(cfg, last).Some? && key != []
    ensures var m := Merge(cfg, last).value;
      && (Get(cfg, key).Some? ==> SameKindAt(m, cfg, key)) && (Get(last, key).Some? ==> SameKindAt(m, last, key))
      && (Get(m, key).Some? ==> Get(cfg, key).Some? || Get(last, key).Some?)
  {
    GetOfMerge(cfg, last, key);
    if Get(cfg, key).Some? && Get(last, key).Some? {
      MergedLooksLikeBoth(Get(cfg, key).value, Get(last, key).value);
    }
  }

  ghost predicate SomeClash(sources: seq<Value>) {
    exists i, j :: 0 <= i < j < |sources| && Clashing(sources[i], sources[j])
  }

  ghost predicate SomeClashWith(files: seq<Value>, v: Value) {
    exists i :: 0 <= i < |files| && Clashing(files[i], v)
  }

  /** What is loaded clashes with one more source exactly if some file does. */
  lemma LoadedClashes(files: seq<Value>, v: Value, key: seq<string>)
    requires AllTables(files) && LoadFiles(files).Some? && key != []
    ensures ClashAt(LoadFiles(files).value, v, key) <==> exists i :: 0 <= i < |files| && ClashAt(files[i], v, key)
  {
    LoadedKind(files, key);
    var cfg := LoadFiles(files).value;
    if ClashAt(cfg, v, key) {
      var i :| 0 <= i < |files| && Get(files[i], key).Some?;
      assert SameKindAt(cfg, files[i], key);
      assert ClashAt(files[i], v, key);
    }
  }

  /** Files fail to merge exactly when two of them clash at some key. */
  lemma {:induction false} FilesFailOnClash(files: seq<Value>)
    requires AllTables(files)
    ensures LoadFiles(files).None? <==> SomeClash(files)
    decreases |files|
  {
    if files != [] {
      var init, last := files[..|files| - 1], files[|files| - 1];
      assert files == init + [last];
      FilesFailOnClash(init);
      SomeClashWithLast(init, last);
      if LoadFiles(init).Some? {
        NextFileClashes(init, last);
      }
    }
  }

  lemma SomeClashWithLast(files: seq<Value>, v: Value)
    ensures SomeClash(files + [v]) <==> SomeClash(files) || SomeClashWith(files, v)
  {
    var sources := files + [v];
    assert sources[|files|] == v && forall i :: 0 <= i < |files| ==> sources[i] == files[i];
    if i, j :| 0 <= i < j < |files| && Clashing(files[i], files[j]) {
      assert Clashing(sources[i], sources[j]);
    }
    if i :| 0 <= i < |files| && Clashing(files[i], v) {
      assert Clashing(sources[i], sources[|files|]);
    }
  }

  lemma NextFileClashes(files: seq<Value>, v: Value)
    requires AllTables(files) && v.Table? && LoadFiles(files).Some?
    ensures Merge(LoadFiles(files).value, v).None? <==> SomeClashWith(files, v)
  {
    var cfg := LoadFiles(files).value;
    LoadedKind(files, [""]);
    MergeFailsOnClash(cfg, v);
    if key :| ClashAt(cfg, v, key) {
      LoadedClashes(files, v, key);
    }
    if i :| 0 <= i < |files| && Clashing(files[i], v) {
      var key :| ClashAt(files[i], v, key);
      LoadedClashes(files, v, key);
    }
  }

  lemma ClashIsSymmetric(a: Value, b: Value)
    requires Clashing(a, b)
    ensures Clashing(b, a)
  {
    var key :| ClashAt(a, b, key);
    assert ClashAt(b, a, key);
  }

  /** A load fails exactly when two of its sources, credentials included, clash at some key. */
  lemma LoadFailsOnClash(files: seq<Value>, credentials: Option<Value>)
    requires AllTables(files) && (credentials.Some? ==> credentials.value.Table?)
    ensures var sources := Sources(files, credentials);
      Load(files, credentials).None? <==> SomeClash(sources)
  {
    if credentials.None? {
      FilesFailOnClash(files);
      assert [] + files == files;
    } else {
      CredentialedFailOnClash(Modernize(credentials.value), files);
    }
  }

  lemma CredentialedFailOnClash(c: Value, files: seq<Value>)
    requires AllTables(files) && c.Table?
    ensures SomeClash([c] + files) <==> LoadFiles(files).None? || Merge(c, LoadFiles(files).value).None?
  {
    FilesFailOnClash(files);
    SomeClashWithFirst(c, files);
    if LoadFiles(files).Some? {
      CredentialsClash(c, files);
    }
  }

  lemma CredentialsClash(c: Value, files: seq<Value>)
    requires AllTables(files) && c.Table? && LoadFiles(files).Some?
    ensures Merge(c, LoadFiles(files).value).None? <==> SomeClashWith(files, c)
  {
    var cfg := LoadFiles(files).value;
    NextFileClashes(files, c);
    MergeFailsOnClash(c, cfg);
    MergeFailsOnClash(cfg, c);
    if Clashing(c, cfg) {
      ClashIsSymmetric(c, cfg);
    }
    if Clashing(cfg, c) {
      ClashIsSymmetric(cfg, c);
    }
  }

  lemma SomeClashWithFirst(c: Value, files: seq<Value>)
    ensures SomeClash([c] + files) <==> SomeClash(files) || SomeClashWith(files, c)
  {
    var sources := [c] + files;
    assert forall i :: 0 < i < |sources| ==> sources[i] == files[i - 1];
    if i, j :| 0 <= i < j < |sources| && Clashing(sources[i], sources[j]) {
      if i == 0 {
        ClashIsSymmetric(c, files[j - 1]);
      } else {
        assert Clashing(files[i - 1], files[j - 1]);
      }
    }
    if i, j :| 0 <= i < j < |files| && Clashing(files[i], files[j]) {
      assert Clashing(sources[i + 1], sources[j + 1]);
    }
    if i :| 0 <= i < |files| && Clashing(files[i], c) {
      ClashIsSymmetric(files[i], c);
      assert Clashing(sources[0], sources[i + 1]);
    }
  }

  /** So a scalar comes from the first source that defines the key. */
  lemma {:induction false} FirstDefinerWins(defs: seq<Option<Value>>, i: nat)
    requires MergeAll(defs).Some? && i < |defs| && defs[i].Some? && defs[i].value.IsScalar()
    requires forall j :: 0 <= j < i ==> defs[j].None?
    ensures MergeAll(defs) == Some(defs[i])
  {
    if i > 0 {
      FirstDefinerWins(defs[1..], i - 1);
    }
  }

  function AllItems(defs: seq<Option<Value>>): seq<(string, Path)> {
    if defs == [] then []
    else (if defs[0].Some? && defs[0].value.List? then defs[0].value.items else []) + AllItems(defs[1..])
  }

  /** And a list is the concatenation of all its definitions in that order. */
  lemma {:induction false} ListsAreConcatenated(defs: seq<Option<Value>>)
    requires MergeAll(defs).Some? && MergeAll(defs).value.Some? && MergeAll(defs).value.value.List?
    ensures MergeAll(defs).value.value.items == AllItems(defs)
  {
    var rest := MergeAll(defs[1..]).value;
    if rest.Some? {
      ListsAreConcatenated(defs[1..]);
    } else {
      NothingDefined(defs[1..]);
    }
  }

  lemma {:induction false} NothingDefined(defs: seq<Option<Value>>)
    requires MergeAll(defs) == Some(None)
    ensures AllItems(defs) == []
  {
    if defs != [] {
      NothingDefined(defs[1..]);
    }
  }

  // ---- the loop ----

  /** `merge`: on two tables, entries of the second are folded into the first in whatever order they come. */
  method MergeInto(a: Value, b: Value) returns (r: Option<Value>)
    ensures r == Merge(a, b)
    decreases a
  {
    if a.List? && b.List? {
      return Some(List(a.items + b.items, a.def));
    }
    if !(a.Table? && b.Table?) {
      return if a.List? || a.Table? || b.List? || b.Table? then None else Some(a);
    }
    var merged := a.entries;
    var todo := b.entries.Keys;
    while todo != {}
      invariant todo <= b.entries.Keys && merged.Keys == a.entries.Keys + (b.entries.Keys - todo)
      invariant forall k :: k in b.entries.Keys - todo && k in a.entries ==>
        Merge(a.entries[k], b.entries[k]) == Some(merged[k])
      invariant forall k :: k in b.entries.Keys - todo && k !in a.entries ==> merged[k] == b.entries[k]
      invariant forall k :: k in a.entries && k !in b.entries.Keys - todo ==> merged[k] == a.entries[k]
      decreases todo
    {
      var key :| key in todo;
      todo := todo - {key};
      if key in merged {
        var one := MergeInto(a.entries[key], b.entries[key]);
        if one.None? { return None; }
        merged := merged[key := one.value];
      } else {
        merged := merged[key := b.entries[key]];
      }
    }
    r := Some(Table(merged, a.def));
    assert merged == Merge(a, b).value.entries;
  }

  // ---- dotted keys ----

  function DotAt(s: string): (n: nat)
    ensures n <= |s| && (n < |s| ==> s[n] == '.') && forall i :: 0 <= i < n ==> s[i] != '.'
  {
    if s == "" || s[0] == '.' then 0 else 1 + DotAt(s[1..])
  }

  /** `key.split('.')`. */
  function Split(s: string): (parts: seq<string>)
    ensures parts != []
    decreases |s|
  {
    var n := DotAt(s);
    if n == |s| then [s] else [s[..n]] + Split(s[n + 1..])
  }

  function Join(parts: seq<string>): string
    requires parts != []
  {
    if |parts| == 1 then parts[0] else parts[0] + "." + Join(parts[1..])
  }

  function TotalLength(parts: seq<string>): nat {
    if parts == [] then 0 else |parts[0]| + TotalLength(parts[1..])
  }

  /** Together with `JoinOfSplit`: the parts are what stands between the dots. */
  lemma {:induction false} PartsHaveNoDots(s: string, i: nat)
    requires i < |Split(s)|
    ensures '.' !in Split(s)[i]
    decreases |s|
  {
    var n := DotAt(s);
    if n < |s| && i > 0 {
      PartsHaveNoDots(s[n + 1..], i - 1);
    }
  }

  lemma {:induction false} JoinOfSplit(s: string)
    ensures Join(Split(s)) == s
    decreases |s|
  {
    var n := DotAt(s);
    if n < |s| {
      JoinOfSplit(s[n + 1..]);
      JoinOfMore(s[..n], Split(s[n + 1..]));
      CutAt(s, n);
    }
  }

  lemma JoinOfMore(first: string, more: seq<string>)
    requires more != []
    ensures Join([first] + more) == first + "." + Join(more)
  {
    assert ([first] + more)[1..] == more;
  }

  lemma CutAt(s: string, n: nat)
    requires n < |s| && s[n] == '.'
    ensures s == s[..n] + "." + s[n + 1..]
  {
    assert s[n..n + 1] == ".";
  }

  /** The first `i` parts, joined, are the first `TotalLength + i - 1` characters of the whole. */
  lemma {:induction false} JoinOfPrefix(parts: seq<string>, i: nat)
    requires 0 < i <= |parts|
    ensures |Join(parts[..i])| == TotalLength(parts[..i]) + i - 1
    ensures Join(parts[..i]) <= Join(parts)
    decreases i
  {
    assert parts[..i][1..] == parts[1..][..i - 1];
    if i == 1 {
      assert parts[..1] == [parts[0]];
      assert TotalLength([parts[0]][1..]) == 0;
    } else {
      JoinOfPrefix(parts[1..], i - 1);
    }
  }

  datatype Found = Missing | Here(value: Value) | NotATable(keySoFar: string, def: Path)

  lemma {:induction false} GetFurther(v: Value, parts: seq<string>, i: nat)
    requires i < |parts|
    ensures Get(v, parts[..i + 1]) == match Get(v, parts[..i]) case Some(w) => Entry(w, parts[i]) case None => None
    decreases i
  {
    assert parts[..i + 1][1..] == parts[1..][..i];
    if i == 0 {
      assert parts[..1] == [parts[0]] && parts[..0] == [];
    } else {
      assert parts[..i][1..] == parts[1..][..i - 1];
      if Entry(v, parts[0]).Some? {
        GetFurther(Entry(v, parts[0]).value, parts[1..], i - 1);
      }
    }
  }

  lemma {:induction false} GetStaysMissing(v: Value, parts: seq<string>, i: nat, j: nat)
    requires i <= j <= |parts| && Get(v, parts[..i]).None?
    ensures Get(v, parts[..j]).None?
    decreases j
  {
    if i < j {
      GetStaysMissing(v, parts, i, j - 1);
      GetFurther(v, parts, j - 1);
    }
  }

  /** The first `i` parts lead to a value that is not a table. */
  ghost predicate StopsAt(v: Value, parts: seq<string>, i: nat, def: Path)
    requires i <= |parts|
  {
    var at := Get(v, parts[..i]);
    at.Some? && !at.value.Table? && at.value.def == def
  }

  lemma KeySoFar(key: string, i: nat)
    requires 0 < i <= |Split(key)|
    ensures var parts := Split(key); var idx := TotalLength(parts[..i]) + i - 1;
      idx <= |key| && key[..idx] == Join(parts[..i])
  {
    JoinOfSplit(key);
    JoinOfPrefix(Split(key), i);
  }

  /** The first `i` parts lead nowhere or to a table. */
  ghost predicate GoesOn(v: Value, parts: seq<string>, i: nat)
    requires i <= |parts|
  {
    Get(v, parts[..i]).Some? ==> Get(v, parts[..i]).value.Table?
  }

  lemma MissingGoesOn(v: Value, parts: seq<string>, i: nat)
    requires i <= |parts| && Get(v, parts[..i]).None?
    ensures Get(v, parts).None? && forall j :: i <= j <= |parts| ==> GoesOn(v, parts, j)
  {
    forall j | i <= j <= |parts| ensures GoesOn(v, parts, j) {
      GetStaysMissing(v, parts, i, j);
    }
    GetStaysMissing(v, parts, i, |parts|);
    assert parts[..|parts|] == parts;
  }

  /**
   `get_cv`: the value at a dotted key. The error names exactly the first parts of the key that lead to
   something that is not a table.
   */
  method GetValue(vals: map<string, Value>, key: string) returns (r: Found)
    ensures var v, parts := Table(vals, NOWHERE), Split(key);
      match r
      case Here(w) => Get(v, parts) == Some(w)
      case Missing => Get(v, parts).None? && forall i :: 0 < i < |parts| ==> GoesOn(v, parts, i)
      case NotATable(soFar, def) =>
        Get(v, parts).None? && exists i :: 0 < i < |parts| && StopsAt(v, parts, i, def) && soFar == Join(parts[..i])
  {
    var parts := Split(key);
    ghost var v := Table(vals, NOWHERE);
    GetFurther(v, parts, 0);
    assert parts[..0] == [];
    if parts[0] !in vals {
      MissingGoesOn(v, parts, 1);
      return Missing;
    }
    var val := vals[parts[0]];
    for i := 1 to |parts|
      invariant Get(v, parts[..i]) == Some(val) && forall j :: 0 < j < i ==> GoesOn(v, parts, j)
    {
      GetFurther(v, parts, i);
      if val.Table? {
        if parts[i] !in val.entries {
          MissingGoesOn(v, parts, i + 1);
          return Missing;
        }
        val := val.entries[parts[i]];
      } else {
        MissingGoesOn(v, parts, i + 1);
        KeySoFar(key, i);
        var idx := TotalLength(parts[..i]) + i - 1;
        assert StopsAt(v, parts, i, val.def);
        return NotATable(key[..idx], val.def);
      }
    }
    assert parts[..|parts|] == parts;
    r := Here(val);
  }
}
