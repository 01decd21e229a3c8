/**
 `build_feature_map` and `FeatureValue` of src/cargo/core/summary.rs: the strings of a
 manifest's `[features]` table compiled into references to features, optional dependencies
 and features of dependencies, in both namespacing modes.
 */
module FeatureMap {
  import opened Collections

  datatype FeatureValue = Feature(name: string) | Crate(name: string) | CrateFeature(dep: string, feature: string)

  datatype Dep = Dep(nameInToml: string, optional: bool)

  type Features = map<string, seq<string>>
  type Compiled = map<string, seq<FeatureValue>>

  // ---- one value ----

  function SlashAt(s: string): (n: nat)
    ensures n <= |s| && (n < |s| ==> s[n] == '/') && forall i :: 0 <= i < n ==> s[i] != '/'
  {
    if s == "" || s[0] == '/' then 0 else 1 + SlashAt(s[1..])
  }

  const CRATE_PREFIX: string := "crate:"

  function Build(s: string, known: set<string>, namespaced: bool): FeatureValue {
    var n := SlashAt(s);
    if n < |s| then CrateFeature(s[..n], s[n + 1..])
    else if namespaced then if CRATE_PREFIX <= s then Crate(s[6..]) else Feature(s)
    else if s in known then Feature(s) else Crate(s)
  }

  function ToString(v: FeatureValue, namespaced: bool): string {
    match v
    case Feature(f) => f
    case Crate(c) => if namespaced then CRATE_PREFIX + c else c
    case CrateFeature(d, f) => d + "/" + f
  }

  /** Printing a compiled value gives back the string it was compiled from. */
  lemma PrintOfBuild(s: string, known: set<string>, namespaced: bool)
    ensures ToString(Build(s, known, namespaced), namespaced) == s
  {
    var n := SlashAt(s);
    if n < |s| {
      assert s == s[..n] + "/" + s[n + 1..];
    } else if namespaced && CRATE_PREFIX <= s {
      assert s == s[..6] + s[6..];
    }
  }

  lemma {:induction false} SlashAtAfter(p: string, s: string)
    requires forall i :: 0 <= i < |p| ==> p[i] != '/'
    ensures SlashAt(p + s) == |p| + SlashAt(s)
  {
    if p == "" {
      assert p + s == s;
    } else {
      assert (p + s)[1..] == p[1..] + s;
      SlashAtAfter(p[1..], s);
    }
  }

  predicate NoSlash(s: string) {
    forall i :: 0 <= i < |s| ==> s[i] != '/'
  }

  /** `s` is `d`, a slash and `f`, and the slash is the first one. */
  predicate Splits(s: string, d: string, f: string) {
    NoSlash(d) && s == d + "/" + f
  }

  /** What a string stands for. */
  lemma BuildExactly(s: string, known: set<string>, namespaced: bool, v: FeatureValue)
    ensures Build(s, known, namespaced) == v <==>
      match v
      case CrateFeature(d, f) => Splits(s, d, f)
      case Crate(n) => NoSlash(s) && if namespaced then s == CRATE_PREFIX + n else s == n && s !in known
      case Feature(n) => NoSlash(s) && s == n && if namespaced then !(CRATE_PREFIX <= s) else s in known
  {
    SlashSplits(s);
    if v.CrateFeature? && Splits(s, v.dep, v.feature) {
      SplitIsAtSlash(s, v.dep, v.feature);
    }
    if namespaced && v.Crate? && s == CRATE_PREFIX + v.name {
      assert s[6..] == v.name;
    }
  }

  lemma {:induction false} SlashSplits(s: string)
    ensures var n := SlashAt(s);
      if n < |s| then !NoSlash(s) && Splits(s, s[..n], s[n + 1..]) else NoSlash(s)
  {
    var n := SlashAt(s);
    if n < |s| {
      assert s == s[..n] + "/" + s[n + 1..];
    }
  }

  lemma SplitIsAtSlash(s: string, d: string, f: string)
    requires Splits(s, d, f)
    ensures SlashAt(s) == |d| < |s| && d == s[..|d|] && f == s[|d| + 1..]
  {
    assert s == d + ("/" + f);
    SlashAtAfter(d, "/" + f);
  }

  // ---- what a table has to satisfy ----

  predicate Declared(deps: seq<Dep>, name: string) {
    exists i :: 0 <= i < |deps| && deps[i].nameInToml == name
  }

  predicate HasOptional(deps: seq<Dep>, name: string) {
    exists i :: 0 <= i < |deps| && deps[i].nameInToml == name && deps[i].optional
  }

  predicate ValueOk(known: set<string>, deps: seq<Dep>, namespaced: bool, v: FeatureValue) {
    match v
    case Feature(f) => namespaced ==> f in known || HasOptional(deps, f)
    case Crate(c) => HasOptional(deps, c)
    case CrateFeature(d, _) => Declared(deps, d)
  }

  function Values(list: seq<string>, known: set<string>, namespaced: bool): seq<FeatureValue> {
    seq(|list|, i requires 0 <= i < |list| => Build(list[i], known, namespaced))
  }

  ghost predicate ListOk(known: set<string>, deps: seq<Dep>, namespaced: bool, list: seq<string>) {
    forall i :: 0 <= i < |list| ==> ValueOk(known, deps, namespaced, Build(list[i], known, namespaced))
  }

  /** A namespaced feature named like a dependency has to include that dependency, which has to be optional. */
  ghost predicate NameOk(known: set<string>, deps: seq<Dep>, namespaced: bool, feature: string, list: seq<string>) {
    namespaced && Declared(deps, feature) ==>
      HasOptional(deps, feature) && Crate(feature) in Values(list, known, namespaced)
  }

  ghost predicate Acceptable(features: Features, deps: seq<Dep>, namespaced: bool) {
    forall f :: f in features ==> FeatureOk(features, deps, namespaced, f)
  }

  ghost predicate FeatureOk(features: Features, deps: seq<Dep>, namespaced: bool, f: string)
    requires f in features
  {
    ListOk(features.Keys, deps, namespaced, features[f]) && NameOk(features.Keys, deps, namespaced, f, features[f])
  }

  /** Names that are used as features and exist only as optional dependencies. */
  ghost function ImplicitIn(list: seq<string>, known: set<string>, namespaced: bool): set<string> {
    set i | 0 <= i < |list| && namespaced && Build(list[i], known, namespaced).Feature? && list[i] !in known :: list[i]
  }

  ghost predicate IsImplicit(features: Features, namespaced: bool, g: string) {
    exists f :: f in features && g in ImplicitIn(features[f], features.Keys, namespaced)
  }

  /** The compiled table: an entry per feature, and `g = [crate:g]` for every implicit one. */
  ghost predicate Compiles(features: Features, namespaced: bool, out: Compiled) {
    && (forall f :: f in features ==> f in out && out[f] == Values(features[f], features.Keys, namespaced))
    && (forall g :: g in out && g !in features ==> IsImplicit(features, namespaced, g) && out[g] == [Crate(g)])
    && (forall g :: IsImplicit(features, namespaced, g) ==> g in out)
  }

  // ---- the same on the strings of the table ----

  /** What a string in the table has to name: a dependency before a slash, an optional one, or a feature. */
  ghost predicate StringOk(known: set<string>, deps: seq<Dep>, namespaced: bool, s: string) {
    && (forall d, f :: Splits(s, d, f) ==> Declared(deps, d))
    && (NoSlash(s) && namespaced ==>
        if CRATE_PREFIX <= s then HasOptional(deps, s[6..]) else s in known || HasOptional(deps, s))
    && (NoSlash(s) && !namespaced ==> s in known || HasOptional(deps, s))
  }

  lemma ValueOkIsStringOk(known: set<string>, deps: seq<Dep>, namespaced: bool, s: string)
    ensures ValueOk(known, deps, namespaced, Build(s, known, namespaced)) <==> StringOk(known, deps, namespaced, s)
  {
    SlashSplits(s);
    forall d, f | Splits(s, d, f) ensures Build(s, known, namespaced) == CrateFeature(d, f) {
      SplitIsAtSlash(s, d, f);
    }
  }

  /** `feature` includes the dependency of its name, which is optional. */
  predicate IncludesItself(deps: seq<Dep>, feature: string, list: seq<string>) {
    HasOptional(deps, feature) && NoSlash(feature) && CRATE_PREFIX + feature in list
  }

  lemma CrateAmongStrings(list: seq<string>, known: set<string>, name: string)
    ensures Crate(name) in Values(list, known, true) <==> NoSlash(name) && CRATE_PREFIX + name in list
  {
    var s := CRATE_PREFIX + name;
    assert NoSlash(s) <==> NoSlash(name) by {
      assert forall i :: 0 <= i < |name| ==> s[6 + i] == name[i];
    }
    if Crate(name) in Values(list, known, true) {
      var i := ValueFromList(list, known, true, Crate(name));
      BuildExactly(list[i], known, true, Crate(name));
    }
    if NoSlash(name) && s in list {
      var i :| 0 <= i < |list| && list[i] == s;
      BuildExactly(s, known, true, Crate(name));
      assert Values(list, known, true)[i] == Crate(name);
    }
  }

  /** The acceptable tables, by the strings in them. */
  ghost predicate StringsAcceptable(features: Features, deps: seq<Dep>, namespaced: bool) {
    forall f :: f in features ==>
      && (forall i :: 0 <= i < |features[f]| ==> StringOk(features.Keys, deps, namespaced, features[f][i]))
      && (namespaced && Declared(deps, f) ==> IncludesItself(deps, f, features[f]))
  }

  lemma AcceptableInStrings(features: Features, deps: seq<Dep>, namespaced: bool)
    ensures Acceptable(features, deps, namespaced) <==> StringsAcceptable(features, deps, namespaced)
  {
    forall f | f in features
      ensures FeatureOk(features, deps, namespaced, f) <==>
        && (forall i :: 0 <= i < |features[f]| ==> StringOk(features.Keys, deps, namespaced, features[f][i]))
        && (namespaced && Declared(deps, f) ==> IncludesItself(deps, f, features[f]))
    {
      forall i | 0 <= i < |features[f]|
        ensures ValueOk(features.Keys, deps, namespaced, Build(features[f][i], features.Keys, namespaced)) <==>
          StringOk(features.Keys, deps, namespaced, features[f][i])
      {
        ValueOkIsStringOk(features.Keys, deps, namespaced, features[f][i]);
      }
      CrateAmongStrings(features[f], features.Keys, f);
    }
  }

  /** The names that get an entry without being in the table. */
  lemma ImplicitInStrings(features: Features, namespaced: bool, g: string)
    ensures IsImplicit(features, namespaced, g) <==>
      && namespaced && NoSlash(g) && !(CRATE_PREFIX <= g) && g !in features
      && exists f :: f in features && g in features[f]
  {
    BuildExactly(g, features.Keys, namespaced, Feature(g));
  }

  // ---- the loops ----

  predicate AnyOptional(ds: seq<Dep>) {
    exists i :: 0 <= i < |ds| && ds[i].optional
  }

  /** `depMap` groups the dependencies by the name they have in the manifest. */
  ghost predicate Groups(depMap: map<string, seq<Dep>>, deps: seq<Dep>) {
    && (forall n :: n in depMap <==> Declared(deps, n))
    && (forall n :: n in depMap ==> (AnyOptional(depMap[n]) <==> HasOptional(deps, n)))
  }

  /** The first loop of `build_feature_map`. */
  method GroupDeps(deps: seq<Dep>) returns (depMap: map<string, seq<Dep>>)
    ensures Groups(depMap, deps)
  {
    depMap := map[];
    for i := 0 to |deps|
      invariant Groups(depMap, deps[..i])
    {
      var name := deps[i].nameInToml;
      var group := if name in depMap then depMap[name] else [];
      GroupGrows(depMap, deps, i, group);
      depMap := depMap[name := group + [deps[i]]];
    }
    assert deps[..|deps|] == deps;
  }

  lemma GroupGrows(depMap: map<string, seq<Dep>>, deps: seq<Dep>, i: nat, group: seq<Dep>)
    requires i < |deps| && Groups(depMap, deps[..i])
    requires group == if deps[i].nameInToml in depMap then depMap[deps[i].nameInToml] else []
    ensures Groups(depMap[deps[i].nameInToml := group + [deps[i]]], deps[..i + 1])
  {
    var ds, d := deps[..i], deps[i];
    assert deps[..i + 1] == ds + [d];
    forall n
      ensures Declared(ds + [d], n) <==> Declared(ds, n) || d.nameInToml == n
      ensures HasOptional(ds + [d], n) <==> HasOptional(ds, n) || (d.nameInToml == n && d.optional)
    {
      DeclaredGrows(ds, d, n);
    }
    AnyOptionalGrows(group, d);
  }

  lemma DeclaredGrows(ds: seq<Dep>, d: Dep, n: string)
    ensures Declared(ds + [d], n) <==> Declared(ds, n) || d.nameInToml == n
    ensures HasOptional(ds + [d], n) <==> HasOptional(ds, n) || (d.nameInToml == n && d.optional)
  {
    var xs := ds + [d];
    assert xs[|ds|] == d;
    assert forall j :: 0 <= j < |ds| ==> xs[j] == ds[j];
  }

  lemma AnyOptionalGrows(ds: seq<Dep>, d: Dep)
    ensures AnyOptional(ds + [d]) <==> AnyOptional(ds) || d.optional
  {
    var xs := ds + [d];
    assert xs[|ds|] == d;
    assert forall j :: 0 <= j < |ds| ==> xs[j] == ds[j];
  }

  /** The checks on one value, and the name it defines implicitly, if any. */
  method CheckValue(val: FeatureValue, known: set<string>, ghost deps: seq<Dep>, depMap: map<string, seq<Dep>>,
                    namespaced: bool)
    returns (ok: bool, implicit: set<string>)
    requires Groups(depMap, deps)
    ensures ok <==> ValueOk(known, deps, namespaced, val)
    ensures ok ==> implicit == if val.Feature? && namespaced && val.name !in known then {val.name} else {}
  {
    var name := match val case Feature(n) => n case Crate(n) => n case CrateFeature(n, _) => n;
    var depExists := name in depMap;
    var isOptional := depExists && AnyOptional(depMap[name]);
    assert depExists <==> Declared(deps, name);
    implicit := {};
    match val {
      case Feature(feat) =>
        if isOptional {
          if namespaced && feat !in known {
            implicit := {feat};
          }
        } else if namespaced && feat !in known {
          return false, {};
        }
      case Crate(_) =>
        if !(depExists && isOptional) { return false, {}; }
      case CrateFeature(_, _) =>
        if !depExists { return false, {}; }
    }
    ok := true;
    assert val.Crate? ==> HasOptional(deps, name);
  }

  /** The values of one feature; `implicit` collects the names to be defined implicitly. */
  method CompileOne(feature: string, list: seq<string>, known: set<string>, ghost deps: seq<Dep>,
                    depMap: map<string, seq<Dep>>, namespaced: bool)
    returns (r: Option<seq<FeatureValue>>, implicit: set<string>)
    requires Groups(depMap, deps)
    ensures r.Some? <==> ListOk(known, deps, namespaced, list) && NameOk(known, deps, namespaced, feature, list)
    ensures r.Some? ==> r.value == Values(list, known, namespaced) && implicit == ImplicitIn(list, known, namespaced)
  {
    implicit := {};
    var dependencyFound := true;
    if namespaced && feature in depMap {
      if !AnyOptional(depMap[feature]) { return None, {}; }
      dependencyFound := false;
    }
    ghost var startFound := dependencyFound;
    var values: seq<FeatureValue> := [];
    for i := 0 to |list|
      invariant values == Values(list[..i], known, namespaced)
      invariant implicit == ImplicitIn(list[..i], known, namespaced)
      invariant ListOk(known, deps, namespaced, list[..i])
      invariant dependencyFound <==> startFound || Crate(feature) in values
    {
      var val := Build(list[i], known, namespaced);
      assert list[..i + 1] == list[..i] + [list[i]];
      if val.Crate? && !dependencyFound && feature == val.name {
        dependencyFound := true;
      }
      var ok, more := CheckValue(val, known, deps, depMap, namespaced);
      if !ok {
        return None, {};
      }
      ImplicitGrows(list, i, known, namespaced);
      implicit := implicit + more;
      values := values + [val];
    }
    assert list[..|list|] == list;
    if !dependencyFound { return None, {}; }
    r := Some(values);
  }

  lemma ImplicitGrows(list: seq<string>, i: nat, known: set<string>, namespaced: bool)
    requires i < |list|
    ensures var v := Build(list[i], known, namespaced);
      ImplicitIn(list[..i + 1], known, namespaced) ==
      ImplicitIn(list[..i], known, namespaced) + if v.Feature? && namespaced && v.name !in known then {v.name} else {}
  {
    var a, b := list[..i], list[..i + 1];
    assert forall j :: 0 <= j < i ==> a[j] == b[j];
    assert b[i] == list[i];
    forall g | g in ImplicitIn(a, known, namespaced) ensures g in ImplicitIn(b, known, namespaced) {
      var j :| 0 <= j < |a| && namespaced && Build(a[j], known, namespaced).Feature? && a[j] !in known && a[j] == g;
      assert b[j] == g;
    }
  }

  /** `build_feature_map`: succeeds exactly on the acceptable tables. */
  method BuildFeatureMap(features: Features, deps: seq<Dep>, namespaced: bool) returns (r: Option<Compiled>)
    ensures r.Some? <==> Acceptable(features, deps, namespaced)
    ensures r.Some? ==> Compiles(features, namespaced, r.value)
  {
    var depMap := GroupDeps(deps);
    var out: Compiled := map[];
    var todo := features.Keys;
    while todo != {}
      invariant todo <= features.Keys
      invariant forall f :: f in features && f !in todo ==> FeatureOk(features, deps, namespaced, f)
      invariant Partly(features, namespaced, features.Keys - todo, out)
      decreases todo
    {
      var feature :| feature in todo;
      var values, implicit := CompileOne(feature, features[feature], features.Keys, deps, depMap, namespaced);
      if values.None? {
        assert !FeatureOk(features, deps, namespaced, feature);
        return None;
      }
      AddFeature(features, namespaced, features.Keys - todo, out, feature, values.value, implicit);
      out := (out + ImplicitEntries(implicit))[feature := values.value];
      assert features.Keys - (todo - {feature}) == features.Keys - todo + {feature};
      todo := todo - {feature};
    }
    assert features.Keys - todo == features.Keys;
    PartlyIsAll(features, namespaced, out);
    r := Some(out);
  }

  function ImplicitEntries(implicit: set<string>): Compiled {
    map g | g in implicit :: [Crate(g)]
  }

  ghost predicate ImplicitAmong(features: Features, namespaced: bool, done: set<string>, g: string) {
    exists f :: f in done && f in features && g in ImplicitIn(features[f], features.Keys, namespaced)
  }

  /** The table when the features in `done` have been compiled. */
  ghost predicate Partly(features: Features, namespaced: bool, done: set<string>, out: Compiled) {
    && (forall f :: f in features && f in done ==> f in out && out[f] == Values(features[f], features.Keys, namespaced))
    && (forall g :: g in out && !(g in features && g in done) ==>
         ImplicitAmong(features, namespaced, done, g) && out[g] == [Crate(g)])
    && (forall g :: ImplicitAmong(features, namespaced, done, g) ==> g in out)
  }

  lemma PartlyIsAll(features: Features, namespaced: bool, out: Compiled)
    requires Partly(features, namespaced, features.Keys, out)
    ensures Compiles(features, namespaced, out)
  {
    forall g ensures IsImplicit(features, namespaced, g) <==> ImplicitAmong(features, namespaced, features.Keys, g) {
      if IsImplicit(features, namespaced, g) {
        var f :| f in features && g in ImplicitIn(features[f], features.Keys, namespaced);
        assert f in features.Keys;
      }
    }
  }

  lemma ImplicitAmongGrows(features: Features, namespaced: bool, done: set<string>, feature: string, g: string)
    requires feature in features
    ensures ImplicitAmong(features, namespaced, done + {feature}, g) <==>
      ImplicitAmong(features, namespaced, done, g) || g in ImplicitIn(features[feature], features.Keys, namespaced)
  {
    if ImplicitAmong(features, namespaced, done, g) {
      var f :| f in done && f in features && g in ImplicitIn(features[f], features.Keys, namespaced);
      assert f in done + {feature};
    }
  }

  lemma AddFeature(features: Features, namespaced: bool, done: set<string>, out: Compiled, feature: string,
                   values: seq<FeatureValue>, implicit: set<string>)
    requires Partly(features, namespaced, done, out) && feature in features
    requires values == Values(features[feature], features.Keys, namespaced)
    requires implicit == ImplicitIn(features[feature], features.Keys, namespaced)
    ensures Partly(features, namespaced, done + {feature}, (out + ImplicitEntries(implicit))[feature := values])
  {
    var out' := (out + ImplicitEntries(implicit))[feature := values];
    assert forall g :: g in implicit ==> g !in features;
    forall f | f in features && f in done + {feature}
      ensures f in out' && out'[f] == Values(features[f], features.Keys, namespaced)
    {
    }
    forall g | g in out' && !(g in features && g in done + {feature})
      ensures ImplicitAmong(features, namespaced, done + {feature}, g) && out'[g] == [Crate(g)]
    {
      ImplicitAmongGrows(features, namespaced, done, feature, g);
    }
    forall g | ImplicitAmong(features, namespaced, done + {feature}, g) ensures g in out' {
      ImplicitAmongGrows(features, namespaced, done, feature, g);
    }
  }

  // ---- what a compiled table promises ----

  lemma ValueFromList(list: seq<string>, known: set<string>, namespaced: bool, v: FeatureValue) returns (i: nat)
    requires v in Values(list, known, namespaced)
    ensures i < |list| && v == Build(list[i], known, namespaced)
  {
    i :| 0 <= i < |list| && Values(list, known, namespaced)[i] == v;
  }

  /** Every reference is good: features name entries, crates optional dependencies, crate features dependencies. */
  lemma CompiledRefersWell(features: Features, deps: seq<Dep>, namespaced: bool, out: Compiled, f: string,
                           v: FeatureValue)
    requires Acceptable(features, deps, namespaced) && Compiles(features, namespaced, out) && f in out && v in out[f]
    ensures match v
            case Feature(g) => g in out
            case Crate(c) => HasOptional(deps, c)
            case CrateFeature(d, _) => Declared(deps, d)
  {
    if f in features {
      var i := ValueFromList(features[f], features.Keys, namespaced, v);
      assert FeatureOk(features, deps, namespaced, f) && ValueOk(features.Keys, deps, namespaced, v);
      if v.Feature? && v.name !in features {
        assert v.name in ImplicitIn(features[f], features.Keys, namespaced);
        assert IsImplicit(features, namespaced, v.name);
      }
    } else {
      ImplicitIsOptional(features, deps, namespaced, f);
    }
  }

  lemma ImplicitIsOptional(features: Features, deps: seq<Dep>, namespaced: bool, g: string)
    requires Acceptable(features, deps, namespaced) && IsImplicit(features, namespaced, g)
    ensures namespaced && HasOptional(deps, g) && SlashAt(g) == |g| && g !in features
  {
    var f :| f in features && g in ImplicitIn(features[f], features.Keys, namespaced);
    var i :| 0 <= i < |features[f]| && Build(features[f][i], features.Keys, namespaced).Feature? && features[f][i] == g;
    assert FeatureOk(features, deps, namespaced, f);
    assert ValueOk(features.Keys, deps, namespaced, Build(features[f][i], features.Keys, namespaced));
  }

  /** Rebuilding any value of the table from its printed form, against the table itself, gives that value back. */
  lemma CompiledRoundTrips(features: Features, deps: seq<Dep>, namespaced: bool, out: Compiled, f: string,
                           v: FeatureValue)
    requires Acceptable(features, deps, namespaced) && Compiles(features, namespaced, out) && f in out && v in out[f]
    ensures Build(ToString(v, namespaced), out.Keys, namespaced) == v
  {
    if f in features {
      var i := ValueFromList(features[f], features.Keys, namespaced, v);
      PrintOfBuild(features[f][i], features.Keys, namespaced);
      if !namespaced {
        PlainTableHasNoImplicit(features, deps, out);
      }
    } else {
      ImplicitIsOptional(features, deps, namespaced, f);
      SlashAtAfter(CRATE_PREFIX, f);
      assert (CRATE_PREFIX + f)[6..] == f;
    }
  }

  lemma PlainTableHasNoImplicit(features: Features, deps: seq<Dep>, out: Compiled)
    requires Acceptable(features, deps, false) && Compiles(features, false, out)
    ensures out.Keys == features.Keys
  {
    forall g | g in out ensures g in features {
      if g !in features {
        ImplicitIsOptional(features, deps, false, g);
      }
    }
  }
}
