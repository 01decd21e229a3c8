/**
 `cargo install` and `cargo uninstall` of src/cargo/ops/cargo_install.rs themselves: the bin
 directory and the listing updated step by step. Each method does what `InstallSpec` says
 under the faults it is given.
 */
module InstallLedger {
  import opened Collections
  import opened Packages
  import opened InstallSpec

  class InstallRoot {
    var files: set<Binary>
    var listing: Listing

    constructor (files: set<Binary>, listing: Listing)
      ensures Value() == Root(files, listing)
    {
      this.files, this.listing := files, listing;
    }

    ghost function Value(): Root
      reads this
    {
      Root(files, listing)
    }

    /** `find_duplicates`: the checked names that exist, each with a package that lists it. */
    method FindDuplicates(checked: set<Binary>) returns (duplicates: map<Binary, Option<PackageKey>>)
      ensures duplicates.Keys == checked * files
      ensures OwnersFound(listing, duplicates)
    {
      duplicates := map[];
      var todo := checked;
      while todo != {}
        invariant todo <= checked && duplicates.Keys == (checked - todo) * files
        invariant OwnersFound(listing, duplicates)
        decreases todo
      {
        var name :| name in todo;
        todo := todo - {name};
        if name in files {
          if p :| p in listing && name in listing[p] {
            duplicates := duplicates[name := Some(p)];
          } else {
            duplicates := duplicates[name := None];
          }
        }
      }
    }

    /** Moves new binaries into place; `bins` is what the transaction has to undo. */
    method MoveNew(toInstall: seq<Binary>, faults: Faults) returns (ok: bool, bins: set<Binary>)
      modifies this`files
      ensures files == old(files) + bins && bins == Moved(toInstall, faults)
      ensures ok <==> AllMove(toInstall, faults)
    {
      bins := {};
      for i := 0 to |toInstall|
        invariant files == old(files) + bins && bins == Elements(toInstall[..i])
        invariant AllMove(toInstall[..i], faults)
      {
        assert toInstall[..i + 1] == toInstall[..i] + [toInstall[i]];
        OneMoreMoves(toInstall[..i], toInstall[i], faults);
        if toInstall[i] in faults.renames || toInstall[i] in bins {
          StopsAt(toInstall, i, faults);
          return false, bins;
        }
        files := files + {toInstall[i]};
        bins := bins + {toInstall[i]};
      }
      assert toInstall[..|toInstall|] == toInstall;
      AllMoveMovesAll(toInstall, faults);
      ok := true;
    }

    /** Moves binaries over existing ones until one fails. */
    method Replace(toReplace: seq<Binary>, faults: Faults) returns (ok: bool, replaced: seq<Binary>)
      ensures replaced == toReplace[..MoveCount(toReplace, faults)]
      ensures ok <==> AllMove(toReplace, faults)
    {
      replaced := [];
      for i := 0 to |toReplace|
        invariant replaced == toReplace[..i] && AllMove(replaced, faults)
      {
        assert toReplace[..i + 1] == toReplace[..i] + [toReplace[i]];
        OneMoreMoves(toReplace[..i], toReplace[i], faults);
        if toReplace[i] in faults.renames || toReplace[i] in replaced {
          StopsAt(toReplace, i, faults);
          return false, replaced;
        }
        replaced := replaced + [toReplace[i]];
      }
      assert toReplace[..|toReplace|] == toReplace;
      AllMoveMovesAll(toReplace, faults);
      ok := true;
    }

    /**
     The part of `install_one` after the build: what it does under every fault, when it succeeds, when it
     is recorded, and when it leaves the listing consistent.
     */
    method InstallOne(pkg: PackageKey, binaries: seq<Binary>, checked: set<Binary>, force: bool, faults: Faults)
      returns (ok: bool)
      requires Consistent(Value())
      modifies this
      ensures Value() == AfterInstall(old(Value()), pkg, binaries, checked, force, faults)
      ensures ok <==> Installs(old(Value()), binaries, checked, force, faults)
      ensures ok ==> (Elements(binaries) <= Owned(listing, pkg) <==>
        !faults.write || Elements(binaries) <= Owned(old(listing), pkg))
      ensures ok ==> (Consistent(Value()) <==>
        faults.write || OnlyOwnedBy(old(listing), Elements(NewOnes(binaries, checked * old(files))), pkg))
      ensures !ok && old(Proceeds(Value(), binaries, checked, force)) ==> (Consistent(Value()) <==>
        NobodyLists(old(listing), Moved(NewOnes(binaries, checked * old(files)), faults)))
    {
      ghost var before := Value();
      if binaries == [] { return false; }
      var duplicates := FindDuplicates(checked);
      assert duplicates.Keys == {} <==> duplicates == map[];
      if !force && duplicates != map[] { return false; }
      var toReplace, toInstall := Partition(binaries, duplicates.Keys);
      PicksMove(binaries, duplicates.Keys, faults);
      PartsOfInstall(before, binaries, checked);
      ok := MoveAndRecord(pkg, faults, duplicates, toReplace, toInstall);
      InstallIsConsistent(before, pkg, binaries, checked, force, faults);
      if ok {
        RecordedExactlyWhenWritten(before, pkg, binaries, checked, force, faults);
      }
    }

    /** The transaction: new binaries, then replacements, then the listing. */
    method MoveAndRecord(pkg: PackageKey, faults: Faults, duplicates: map<Binary, Option<PackageKey>>,
                         toReplace: seq<Binary>, toInstall: seq<Binary>)
      returns (ok: bool)
      requires Consistent(Value()) && OwnersFound(listing, duplicates) && toReplace + toInstall != []
      requires forall b :: b in toReplace ==> b in duplicates && b in files
      modifies this
      ensures Value() == AfterMoves(old(Value()), pkg, toInstall, toReplace, faults)
      ensures ok <==> AllMove(toInstall, faults) && AllMove(toReplace, faults)
    {
      ghost var before := Value();
      var movedNew, bins := MoveNew(toInstall, faults);
      if !movedNew {
        files := files - bins;
        assert files == before.files - bins;
        return false;
      }
      AllMoveMovesAll(toInstall, faults);
      AllMoveMovesAll(toReplace, faults);
      var result, replaced := Replace(toReplace, faults);
      assert result ==> replaced == toReplace;
      var list := UpdateListing(before, listing, pkg, replaced, duplicates, result, toInstall);
      if !faults.write { listing := list; }
      if !result {
        files := files - bins;
      }
      ok := result;
      assert result ==> Elements(toReplace) <= before.files;
      assert files == if result then before.files + Elements(toInstall) + Elements(toReplace)
                      else before.files - Elements(toInstall);
    }

    /** `uninstall_pkgid`. */
    method Uninstall(pkg: PackageKey, bins: seq<Binary>, faults: Faults) returns (ok: bool)
      modifies this
      ensures UninstallResult(old(Value()), pkg, bins, faults, Value())
      ensures ok <==> Uninstalls(old(Value()), pkg, bins, faults)
      ensures old(Consistent(Value())) ==> Consistent(Value())
    {
      ghost var before := Value();
      if pkg !in listing { return false; }
      if !(listing[pkg] <= files) { return false; }
      if exists b | b in bins :: b !in listing[pkg] { return false; }
      var toRemove := bins;
      if bins == [] {
        toRemove := InSomeOrder(listing[pkg]);
      }
      var left := listing[pkg] - Elements(toRemove);
      var list := if left == {} then listing - {pkg} else listing[pkg := left];
      if faults.write { return false; }
      assert list == Release(listing, pkg, Elements(toRemove));
      listing := list;
      ok := RemoveFiles(toRemove, faults);
      if Consistent(before) {
        UninstallIsConsistent(before, pkg, bins, faults, Value());
      }
    }

    /** Removing a file that is not there fails, so a name given twice is an error. */
    method RemoveFiles(toRemove: seq<Binary>, faults: Faults) returns (ok: bool)
      requires Elements(toRemove) <= files
      modifies this`files
      ensures old(files) - Elements(toRemove) <= files <= old(files)
      ensures ok <==> Distinct(toRemove) && Elements(toRemove) !! faults.removals
      ensures ok ==> files == old(files) - Elements(toRemove)
    {
      ghost var asRenames := Faults(faults.removals, false, {});
      for i := 0 to |toRemove|
        invariant files == old(files) - Elements(toRemove[..i])
        invariant AllMove(toRemove[..i], asRenames)
      {
        assert toRemove[..i + 1] == toRemove[..i] + [toRemove[i]];
        OneMoreMoves(toRemove[..i], toRemove[i], asRenames);
        assert toRemove[i] in Elements(toRemove);
        if toRemove[i] in faults.removals || toRemove[i] !in files {
          StopsAt(toRemove, i, asRenames);
          assert Elements(toRemove[..i]) <= Elements(toRemove);
          return false;
        }
        files := files - {toRemove[i]};
      }
      assert toRemove[..|toRemove|] == toRemove;
      ok := true;
    }
  }

  lemma StopsAt(names: seq<Binary>, i: nat, faults: Faults)
    requires i < |names| && AllMove(names[..i], faults) && !AllMove(names[..i + 1], faults)
    ensures !AllMove(names, faults) && MoveCount(names, faults) == i
  {
    MoveCountIs(names, faults, i);
    AllMoveMovesAll(names, faults);
  }

  method InSomeOrder(names: set<Binary>) returns (order: seq<Binary>)
    ensures Elements(order) == names && Distinct(order)
  {
    order := [];
    var todo := names;
    while todo != {}
      invariant todo <= names && Elements(order) == names - todo && Distinct(order)
      decreases todo
    {
      var b :| b in todo;
      assert b !in Elements(order);
      assert Elements(order + [b]) == Elements(order) + {b};
      order, todo := order + [b], todo - {b};
    }
  }

  method Partition(binaries: seq<Binary>, existing: set<Binary>)
    returns (toReplace: seq<Binary>, toInstall: seq<Binary>)
    ensures toReplace == OldOnes(binaries, existing) && toInstall == NewOnes(binaries, existing)
    ensures binaries != [] ==> toReplace + toInstall != []
    ensures forall b :: b in toReplace ==> b in existing
  {
    toReplace, toInstall := [], [];
    for i := 0 to |binaries|
      invariant toReplace == OldOnes(binaries[..i], existing) && toInstall == NewOnes(binaries[..i], existing)
      invariant i > 0 ==> toReplace + toInstall != []
      invariant forall b :: b in toReplace ==> b in existing
    {
      assert binaries[..i + 1] == binaries[..i] + [binaries[i]];
      PickOneMore(binaries[..i], binaries[i], existing, true);
      PickOneMore(binaries[..i], binaries[i], existing, false);
      if binaries[i] in existing {
        toReplace := toReplace + [binaries[i]];
      } else {
        toInstall := toInstall + [binaries[i]];
      }
    }
    assert binaries[..|binaries|] == binaries;
  }

  // ---- the listing ----

  ghost predicate OwnersFound(listing: Listing, duplicates: map<Binary, Option<PackageKey>>) {
    forall b :: b in duplicates ==> OwnerFound(listing, b, duplicates[b])
  }

  ghost predicate OwnerFound(listing: Listing, b: Binary, owner: Option<PackageKey>) {
    match owner
    case Some(p) => b in Owned(listing, p)
    case None => forall p :: b !in Owned(listing, p)
  }

  /**
   The listing as it is written back: replaced binaries, then no empty entries, then the new ones if all went
   well.
   */
  method UpdateListing(ghost before: Root, listing: Listing, pkg: PackageKey, replaced: seq<Binary>,
                       duplicates: map<Binary, Option<PackageKey>>, result: bool, toInstall: seq<Binary>)
    returns (list: Listing)
    requires Consistent(before) && before.listing == listing && OwnersFound(listing, duplicates)
    requires forall b :: b in replaced ==> b in duplicates
    requires result ==> replaced + toInstall != []
    ensures list == Recorded(listing, pkg, Elements(replaced), if result then Elements(toInstall) else {})
  {
    var reassigned := Reassign(before, listing, pkg, replaced, duplicates);
    list := map p | p in reassigned && reassigned[p] != {} :: reassigned[p];
    ghost var added := if result then Elements(toInstall) else {};
    assert forall q :: Owned(list, q) == Owned(reassigned, q);
    if result {
      list := list[pkg := Owned(list, pkg) + Elements(toInstall)];
      assert (replaced + toInstall)[0] in OwnedAfter(listing, pkg, Elements(replaced), added, pkg);
    }
    forall q ensures Owned(list, q) == OwnedAfter(listing, pkg, Elements(replaced), added, q) {
      assert Owned(reassigned, q) == OwnedAfter(listing, pkg, Elements(replaced), {}, q);
    }
    OwnersDetermineListing(list, listing, pkg, Elements(replaced), added);
  }

  /** A listing without empty entries is determined by who owns what. */
  lemma OwnersDetermineListing(list: Listing, listing: Listing, pkg: PackageKey, replaced: set<Binary>,
                               added: set<Binary>)
    requires forall p :: p in list ==> list[p] != {}
    requires forall q :: Owned(list, q) == OwnedAfter(listing, pkg, replaced, added, q)
    ensures list == Recorded(listing, pkg, replaced, added)
  {
    var t := Recorded(listing, pkg, replaced, added);
    forall p ensures p in list <==> p in t {
      assert Owned(list, p) == OwnedAfter(listing, pkg, replaced, added, p);
    }
    assert forall p :: p in list ==> list[p] == t[p];
  }

  /** Takes each replaced binary from its owner and gives it to the package. */
  method Reassign(ghost before: Root, listing: Listing, pkg: PackageKey, replaced: seq<Binary>,
                  duplicates: map<Binary, Option<PackageKey>>)
    returns (list: Listing)
    requires Consistent(before) && before.listing == listing
    requires (forall b :: b in replaced ==> b in duplicates) && OwnersFound(listing, duplicates)
    ensures forall q :: Owned(list, q) == OwnedAfter(listing, pkg, Elements(replaced), {}, q)
  {
    list := listing;
    for i := 0 to |replaced|
      invariant forall q :: Owned(list, q) == OwnedAfter(listing, pkg, Elements(replaced[..i]), {}, q)
    {
      var bin := replaced[i];
      ghost var so := list;
      if duplicates[bin].Some? && duplicates[bin].value in list {
        var p := duplicates[bin].value;
        list := list[p := list[p] - {bin}];
      }
      if pkg in list {
        var owned := list[pkg];
        list := list - {pkg};
        list := list[pkg := owned];
      }
      list := list[pkg := Owned(list, pkg) + {bin}];
      assert OwnerFound(listing, bin, duplicates[bin]);
      ReassignOne(before, pkg, replaced, i, duplicates[bin], so, list);
    }
    assert replaced[..|replaced|] == replaced;
  }

  lemma ReassignOne(before: Root, pkg: PackageKey, replaced: seq<Binary>, i: nat, owner: Option<PackageKey>,
                    so: Listing, list: Listing)
    requires Consistent(before) && i < |replaced| && OwnerFound(before.listing, replaced[i], owner)
    requires forall q :: Owned(so, q) == OwnedAfter(before.listing, pkg, Elements(replaced[..i]), {}, q)
    requires Owned(list, pkg) == Owned(so, pkg) + {replaced[i]}
    requires forall q :: q != pkg ==> Owned(list, q) == Owned(so, q) - if owner == Some(q) then {replaced[i]} else {}
    ensures forall q :: Owned(list, q) == OwnedAfter(before.listing, pkg, Elements(replaced[..i + 1]), {}, q)
  {
    assert replaced[..i + 1] == replaced[..i] + [replaced[i]];
    assert Elements(replaced[..i + 1]) == Elements(replaced[..i]) + {replaced[i]};
    forall q ensures Owned(list, q) == OwnedAfter(before.listing, pkg, Elements(replaced[..i + 1]), {}, q) {
      assert Owned(so, q) == OwnedAfter(before.listing, pkg, Elements(replaced[..i]), {}, q);
    }
  }

  // ---- what goes wrong ----

  /** An install that succeeds, puts its binary in place, and leaves no trace in the listing. */
  method InstalledUnrecorded() returns (ok: bool, files: set<Binary>, listing: Listing)
    ensures ok && files == {"rg"} && listing == map[]
  {
    var root := new InstallRoot({}, map[]);
    var faults := Faults({}, true, {});
    ghost var before := root.Value();
    RecordedExactlyWhenWritten(before, PackageKey("ripgrep", "0.8.1", "registry"), ["rg"], {"rg"}, false, faults);
    ok := root.InstallOne(PackageKey("ripgrep", "0.8.1", "registry"), ["rg"], {"rg"}, false, faults);
    files, listing := root.files, root.listing;
  }

  lemma NewOnesOfTwo(a: Binary, b: Binary, existing: set<Binary>)
    requires a !in existing && b !in existing
    ensures NewOnes([a], existing) == [a] && OldOnes([a], existing) == []
    ensures NewOnes([a, b], existing) == [a, b] && OldOnes([a, b], existing) == []
  {
    assert [] + [a] == [a] && [a] + [b] == [a, b];
    PickOneMore([], a, existing, true);
    PickOneMore([], a, existing, false);
    PickOneMore([a], b, existing, true);
    PickOneMore([a], b, existing, false);
  }

  lemma MovedOfTwo(a: Binary, b: Binary, faults: Faults)
    requires a != b && a !in faults.renames && b in faults.renames
    ensures !AllMove([a, b], faults) && Moved([a, b], faults) == {a}
  {
    assert [a, b][..1] == [a] && [a, b][..2] == [a, b] && [a, b][1] in faults.renames;
    MoveCountIs([a, b], faults, 1);
  }

  /**
   Installing for another target: the names checked carry the host's suffix and the built files the
   target's. The rename of the second file fails, and rolling back removes the first one, which another
   package lists.
   */
  method UncheckedIsLost(owner: PackageKey, pkg: PackageKey) returns (ok: bool, files: set<Binary>, listing: Listing)
    ensures !ok && files == {} && listing == map[owner := {"a.exe"}]
    ensures !Consistent(Root(files, listing))
  {
    var faults := Faults({"b.exe"}, false, {});
    var root := new InstallRoot({"a.exe"}, map[owner := {"a.exe"}]);
    NewOnesOfTwo("a.exe", "b.exe", {});
    MovedOfTwo("a.exe", "b.exe", faults);
    assert {"a", "b"} * {"a.exe"} == {};
    ok := root.InstallOne(pkg, ["a.exe", "b.exe"], {"a", "b"}, false, faults);
    files, listing := root.files, root.listing;
    assert "a.exe" in listing[owner];
  }

  /** Likewise, and nothing fails: the file ends up with two owners. */
  method UncheckedIsShared(owner: PackageKey, pkg: PackageKey) returns (ok: bool, files: set<Binary>, listing: Listing)
    requires owner != pkg
    ensures ok && "a.exe" in Owned(listing, owner) && "a.exe" in Owned(listing, pkg)
    ensures !Consistent(Root(files, listing))
  {
    var root := new InstallRoot({"a.exe"}, map[owner := {"a.exe"}]);
    ghost var before := root.Value();
    NewOnesOfTwo("a.exe", "a.exe", {});
    assert {"a"} * {"a.exe"} == {};
    ok := root.InstallOne(pkg, ["a.exe"], {"a"}, false, NO_FAULTS);
    files, listing := root.files, root.listing;
    assert "a.exe" in Elements(["a.exe"]);
    RecordedOwns(before.listing, pkg, {}, {"a.exe"}, owner);
  }
}
