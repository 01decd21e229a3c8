/**
 What an install or an uninstall of src/cargo/ops/cargo_install.rs does to each binary and to
 each owner, told by positions in the list of what was built and by what goes wrong, with no
 mention of how the commands work through that list.
 */
module InstallEffects {
  import opened Collections
  import opened Packages
  import opened InstallSpec

  /** The first `n` binaries that are among the existing names found, or those that are not, can all be renamed. */
  ghost predicate NoneFails(binaries: seq<Binary>, n: nat, existing: set<Binary>, kept: bool, faults: Faults)
    requires n <= |binaries|
  {
    forall j :: 0 <= j < n && (binaries[j] in existing) == kept ==> CanMove(binaries, j, faults)
  }

  /** The rename at position `j` works: it does not fail by itself, and its file was not moved away before. */
  ghost predicate CanMove(binaries: seq<Binary>, j: nat, faults: Faults)
    requires j < |binaries|
  {
    binaries[j] !in faults.renames && forall i :: 0 <= i < j ==> binaries[i] != binaries[j]
  }

  /** The binary is put in place: it is of that kind, and no rename of its kind up to its own fails. */
  ghost predicate PutInPlace(binaries: seq<Binary>, existing: set<Binary>, kept: bool, faults: Faults, b: Binary) {
    PutBefore(binaries, |binaries|, existing, kept, faults, b)
  }

  ghost predicate PutAt(binaries: seq<Binary>, m: nat, existing: set<Binary>, kept: bool, faults: Faults, b: Binary)
    requires m < |binaries|
  {
    binaries[m] == b && ((b in existing) == kept) && NoneFails(binaries, m + 1, existing, kept, faults)
  }

  lemma {:induction false} PickedMove(binaries: seq<Binary>, n: nat, existing: set<Binary>, kept: bool, faults: Faults)
    requires n <= |binaries|
    ensures AllMove(Pick(binaries[..n], existing, kept), faults) <==> NoneFails(binaries, n, existing, kept, faults)
  {
    if n > 0 {
      var m: nat := n - 1;
      PickedMove(binaries, m, existing, kept, faults);
      PickedOneMore(binaries, m, existing, kept, faults);
      assert NoneFails(binaries, n, existing, kept, faults) <==>
        NoneFails(binaries, m, existing, kept, faults) &&
        ((binaries[m] in existing) == kept ==> CanMove(binaries, m, faults));
    }
  }

  lemma PickedOneMore(binaries: seq<Binary>, m: nat, existing: set<Binary>, kept: bool, faults: Faults)
    requires m < |binaries|
    ensures AllMove(Pick(binaries[..m + 1], existing, kept), faults) <==>
      AllMove(Pick(binaries[..m], existing, kept), faults) &&
      ((binaries[m] in existing) == kept ==> CanMove(binaries, m, faults))
  {
    var init, b := binaries[..m], binaries[m];
    assert binaries[..m + 1] == init + [b];
    PickOneMore(init, b, existing, kept);
    OneMoreMoves(Pick(init, existing, kept), b, faults);
    PickHolds(init, existing, kept, b);
    assert b !in init <==> forall i :: 0 <= i < m ==> init[i] != b;
    assert forall i :: 0 <= i < m ==> init[i] == binaries[i];
  }

  ghost predicate PutBefore(binaries: seq<Binary>, n: nat, existing: set<Binary>, kept: bool, faults: Faults, b: Binary)
    requires n <= |binaries|
  {
    exists m :: 0 <= m < n && PutAt(binaries, m, existing, kept, faults, b)
  }

  lemma AllArePut(binaries: seq<Binary>, n: nat, existing: set<Binary>, kept: bool, faults: Faults, b: Binary)
    requires n <= |binaries| && NoneFails(binaries, n, existing, kept, faults)
    ensures b in Pick(binaries[..n], existing, kept) <==> PutBefore(binaries, n, existing, kept, faults, b)
  {
    var init := binaries[..n];
    PickHolds(init, existing, kept, b);
    if b in init && (b in existing) == kept {
      var m: nat :| m < n && init[m] == b;
      assert PutAt(binaries, m, existing, kept, faults, b);
    }
  }

  lemma {:induction false} MovedIsPut(binaries: seq<Binary>, n: nat, existing: set<Binary>, kept: bool, faults: Faults,
                                      b: Binary)
    requires n <= |binaries|
    ensures b in Moved(Pick(binaries[..n], existing, kept), faults) <==>
      PutBefore(binaries, n, existing, kept, faults, b)
  {
    var names := Pick(binaries[..n], existing, kept);
    PickedMove(binaries, n, existing, kept, faults);
    if AllMove(names, faults) {
      AllMoveMovesAll(names, faults);
      AllArePut(binaries, n, existing, kept, faults, b);
    } else {
      var m: nat := n - 1;
      MovedIsPut(binaries, m, existing, kept, faults, b);
      MovedOneMore(binaries, m, existing, kept, faults);
      assert !PutAt(binaries, m, existing, kept, faults, b);
    }
  }

  lemma MovedOneMore(binaries: seq<Binary>, m: nat, existing: set<Binary>, kept: bool, faults: Faults)
    requires m < |binaries| && !AllMove(Pick(binaries[..m + 1], existing, kept), faults)
    ensures Moved(Pick(binaries[..m + 1], existing, kept), faults) == Moved(Pick(binaries[..m], existing, kept), faults)
  {
    assert binaries[..m + 1] == binaries[..m] + [binaries[m]];
    PickOneMore(binaries[..m], binaries[m], existing, kept);
    if (binaries[m] in existing) == kept {
      FailedLast(Pick(binaries[..m], existing, kept), binaries[m], faults);
    }
  }

  lemma FailedLast(names: seq<Binary>, b: Binary, faults: Faults)
    requires !AllMove(names + [b], faults)
    ensures Moved(names + [b], faults) == Moved(names, faults)
  {
    var more := names + [b];
    assert more[..|more| - 1] == names;
    var n := MoveCount(names, faults);
    assert names[..n] == more[..n];
  }

  // ---- an install ----

  /** Nothing was built, or something would be overwritten that must not be. */
  ghost predicate Refused(s: Root, binaries: seq<Binary>, checked: set<Binary>, force: bool) {
    binaries == [] || (!force && exists b :: b in checked && b in s.files)
  }

  ghost predicate EveryMoves(binaries: seq<Binary>, faults: Faults) {
    forall j :: 0 <= j < |binaries| ==> CanMove(binaries, j, faults)
  }

  lemma ProceedsUnlessRefused(s: Root, binaries: seq<Binary>, checked: set<Binary>, force: bool)
    ensures Proceeds(s, binaries, checked, force) <==> !Refused(s, binaries, checked, force)
  {
    if b :| b in checked && b in s.files {
      assert b in checked * s.files;
    } else {
      assert checked * s.files == {};
    }
  }

  lemma EveryMovesIsAllMove(binaries: seq<Binary>, faults: Faults)
    ensures AllMove(binaries, faults) <==> EveryMoves(binaries, faults)
  {
    if EveryMoves(binaries, faults) {
      forall j | 0 <= j < |binaries|
        ensures binaries[j] !in faults.renames && forall i :: 0 <= i < j ==> binaries[i] != binaries[j]
      {
        assert CanMove(binaries, j, faults);
      }
    }
  }

  /** An install succeeds exactly if it is not refused and every rename works; if it is refused nothing changes. */
  lemma InstallsExactly(s: Root, pkg: PackageKey, binaries: seq<Binary>, checked: set<Binary>, force: bool,
                        faults: Faults)
    ensures Installs(s, binaries, checked, force, faults) <==>
      !Refused(s, binaries, checked, force) && EveryMoves(binaries, faults)
    ensures Refused(s, binaries, checked, force) ==> AfterInstall(s, pkg, binaries, checked, force, faults) == s
  {
    ProceedsUnlessRefused(s, binaries, checked, force);
    EveryMovesIsAllMove(binaries, faults);
  }

  /** What the split of the built binaries comes to. */
  lemma SplitExactly(binaries: seq<Binary>, existing: set<Binary>, kept: bool, faults: Faults, b: Binary)
    ensures AllMove(Pick(binaries, existing, kept), faults) <==>
      NoneFails(binaries, |binaries|, existing, kept, faults)
    ensures b in Moved(Pick(binaries, existing, kept), faults) <==> PutInPlace(binaries, existing, kept, faults, b)
    ensures b in Pick(binaries, existing, kept) <==> b in binaries && ((b in existing) == kept)
  {
    assert binaries[..|binaries|] == binaries;
    PickedMove(binaries, |binaries|, existing, kept, faults);
    MovedIsPut(binaries, |binaries|, existing, kept, faults, b);
    PickHolds(binaries, existing, kept, b);
  }

  /** After a failure the new binaries that were put in place are gone; after a success all are there. */
  lemma FilesAfterInstall(s: Root, pkg: PackageKey, binaries: seq<Binary>, checked: set<Binary>, force: bool,
                          faults: Faults, b: Binary)
    requires !Refused(s, binaries, checked, force)
    ensures b in AfterInstall(s, pkg, binaries, checked, force, faults).files <==>
      if EveryMoves(binaries, faults) then b in s.files || b in binaries
      else b in s.files && !PutInPlace(binaries, checked * s.files, false, faults, b)
  {
    var existing := checked * s.files;
    ProceedsUnlessRefused(s, binaries, checked, force);
    EveryMovesIsAllMove(binaries, faults);
    PicksMove(binaries, existing, faults);
    SplitExactly(binaries, existing, false, faults, b);
    SplitExactly(binaries, existing, true, faults, b);
    AllMoveMovesAll(NewOnes(binaries, existing), faults);
  }

  /**
   The listing changes only if it can be written and all new binaries were put in place. Then the package has
   been given what was replaced, from whoever had it, and on success what is new.
   */
  lemma OwnersAfterInstall(s: Root, pkg: PackageKey, binaries: seq<Binary>, checked: set<Binary>, force: bool,
                           faults: Faults, b: Binary, p: PackageKey)
    requires !Refused(s, binaries, checked, force)
    ensures var replaced := PutInPlace(binaries, checked * s.files, true, faults, b);
      b in Owned(AfterInstall(s, pkg, binaries, checked, force, faults).listing, p) <==>
      if faults.write || !NoneFails(binaries, |binaries|, checked * s.files, false, faults)
      then b in Owned(s.listing, p)
      else if p != pkg then b in Owned(s.listing, p) && !replaced
      else b in Owned(s.listing, p) || replaced || (EveryMoves(binaries, faults) && b in binaries)
  {
    var existing := checked * s.files;
    var novel, taken := NewOnes(binaries, existing), OldOnes(binaries, existing);
    ProceedsUnlessRefused(s, binaries, checked, force);
    EveryMovesIsAllMove(binaries, faults);
    PicksMove(binaries, existing, faults);
    SplitExactly(binaries, existing, false, faults, b);
    SplitExactly(binaries, existing, true, faults, b);
    AllMoveMovesAll(taken, faults);
    var added := if AllMove(taken, faults) then Elements(novel) else {};
    RecordedOwns(s.listing, pkg, Moved(taken, faults), added, p);
  }

  // ---- an uninstall ----

  /** The names given, or everything the package owns if none are. */
  predicate Named(s: Root, pkg: PackageKey, bins: seq<Binary>, b: Binary) {
    if bins == [] then pkg in s.listing && b in s.listing[pkg] else b in bins
  }

  /** The package is listed, everything listed for it exists, and it owns every name given. */
  ghost predicate CanRelease(s: Root, pkg: PackageKey, bins: seq<Binary>) {
    && pkg in s.listing && (forall b :: b in s.listing[pkg] ==> b in s.files)
    && forall i :: 0 <= i < |bins| ==> bins[i] in s.listing[pkg]
  }

  /** No name is given twice and no removal of a named one fails. */
  ghost predicate EveryRemoved(s: Root, pkg: PackageKey, bins: seq<Binary>, faults: Faults) {
    && (forall i, j :: 0 <= i < j < |bins| ==> bins[i] != bins[j])
    && forall b :: Named(s, pkg, bins, b) ==> b !in faults.removals
  }

  lemma ReleaseOwns(listing: Listing, pkg: PackageKey, names: set<Binary>, p: PackageKey)
    ensures Owned(Release(listing, pkg, names), p) ==
      if p == pkg then Owned(listing, p) - names else Owned(listing, p)
  {
  }

  /** An uninstall takes the names from the package alone, and removes them and nothing else. */
  lemma UninstallsExactly(s: Root, pkg: PackageKey, bins: seq<Binary>, faults: Faults, t: Root)
    requires UninstallResult(s, pkg, bins, faults, t)
    ensures Uninstalls(s, pkg, bins, faults) <==>
      CanRelease(s, pkg, bins) && !faults.write && EveryRemoved(s, pkg, bins, faults)
    ensures !CanRelease(s, pkg, bins) || faults.write ==> t == s
    ensures CanRelease(s, pkg, bins) && !faults.write ==>
      forall b, p :: b in Owned(t.listing, p) <==> b in Owned(s.listing, p) && !(p == pkg && Named(s, pkg, bins, b))
    ensures forall b :: b in t.files ==> b in s.files
    ensures forall b :: b in s.files && !Named(s, pkg, bins, b) ==> b in t.files
    ensures Uninstalls(s, pkg, bins, faults) ==> forall b :: b in t.files ==> !Named(s, pkg, bins, b)
  {
    assert Releasable(s, pkg, bins) <==> CanRelease(s, pkg, bins) by {
      assert forall i :: 0 <= i < |bins| ==> bins[i] in Elements(bins);
    }
    assert pkg in s.listing ==> forall b :: b in NamesOf(s, pkg, bins) <==> Named(s, pkg, bins, b);
    forall p ensures Owned(Release(s.listing, pkg, NamesOf(s, pkg, bins)), p) ==
      if p == pkg then Owned(s.listing, p) - NamesOf(s, pkg, bins) else Owned(s.listing, p)
    {
      ReleaseOwns(s.listing, pkg, NamesOf(s, pkg, bins), p);
    }
    assert EveryRemoved(s, pkg, bins, faults) && pkg in s.listing ==> NamesOf(s, pkg, bins) !! faults.removals;
  }
}
