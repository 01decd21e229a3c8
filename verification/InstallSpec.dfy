/**
 What `cargo install` and `cargo uninstall` of src/cargo/ops/cargo_install.rs do to a bin
 directory and the listing of which package owns which binary, as a function of what goes
 wrong, and exactly when that keeps the two consistent. A write of the listing replaces it
 or leaves it, and rolling back a transaction removes the files it names.
 */
module InstallSpec {
  import opened Collections
  import opened Packages

  type Binary = string
  type Listing = map<PackageKey, set<Binary>>

  /** What goes wrong: the renames and removals that fail, and whether writing the listing does. */
  datatype Faults = Faults(renames: set<Binary>, write: bool, removals: set<Binary>)

  const NO_FAULTS := Faults({}, false, {})

  datatype Root = Root(files: set<Binary>, listing: Listing)

  function Owned(listing: Listing, p: PackageKey): set<Binary> {
    if p in listing then listing[p] else {}
  }

  /** One owner per binary, no empty entries, and everything listed exists. */
  ghost predicate Consistent(s: Root) {
    && (forall p :: p in s.listing ==> s.listing[p] != {} && s.listing[p] <= s.files)
    && (forall p, q, b :: b in Owned(s.listing, p) && b in Owned(s.listing, q) ==> p == q)
  }

  // ---- the listing ----

  /** `pkg` takes over `replaced` from whoever owns it and is given `added`; nobody is left with nothing. */
  ghost function Recorded(listing: Listing, pkg: PackageKey, replaced: set<Binary>, added: set<Binary>): Listing {
    map p | p in listing.Keys + {pkg} && OwnedAfter(listing, pkg, replaced, added, p) != {} ::
      OwnedAfter(listing, pkg, replaced, added, p)
  }

  function OwnedAfter(listing: Listing, pkg: PackageKey, replaced: set<Binary>, added: set<Binary>, p: PackageKey)
    : set<Binary>
  {
    if p == pkg then Owned(listing, p) + replaced + added else Owned(listing, p) - replaced
  }

  ghost function Release(listing: Listing, pkg: PackageKey, names: set<Binary>): Listing {
    map p | p in listing && (p != pkg || listing[p] - names != {}) ::
      if p == pkg then listing[p] - names else listing[p]
  }

  lemma RecordedOwns(listing: Listing, pkg: PackageKey, replaced: set<Binary>, added: set<Binary>, p: PackageKey)
    ensures Owned(Recorded(listing, pkg, replaced, added), p) == OwnedAfter(listing, pkg, replaced, added, p)
  {
  }

  /** Everything that is still listed exists, and what was added was the package's own or nobody's. */
  ghost predicate StaysStraight(listing: Listing, pkg: PackageKey, replaced: set<Binary>, added: set<Binary>,
                                files: set<Binary>) {
    && (forall p, b :: b in Owned(listing, p) && b !in replaced ==> b in files)
    && (forall p, b :: b in Owned(listing, p) && b in added && b !in replaced ==> p == pkg)
  }

  /** A recorded listing is consistent with a directory exactly when it stays straight; nobody else loses a binary. */
  lemma RecordedIsConsistent(s: Root, pkg: PackageKey, replaced: set<Binary>, added: set<Binary>, files: set<Binary>)
    requires Consistent(s) && replaced + added <= files
    ensures Consistent(Root(files, Recorded(s.listing, pkg, replaced, added))) <==>
      StaysStraight(s.listing, pkg, replaced, added, files)
    ensures forall b, p :: b in Owned(s.listing, p) ==>
      b in Owned(Recorded(s.listing, pkg, replaced, added), if b in replaced then pkg else p)
  {
    var t := Root(files, Recorded(s.listing, pkg, replaced, added));
    forall p ensures Owned(t.listing, p) == OwnedAfter(s.listing, pkg, replaced, added, p) {
      RecordedOwns(s.listing, pkg, replaced, added, p);
    }
    if Consistent(t) {
      forall p, b | b in Owned(s.listing, p) && b !in replaced
        ensures b in files && (b in added ==> p == pkg)
      {
        assert b in Owned(t.listing, p) && p in t.listing;
        assert b in added ==> b in Owned(t.listing, pkg);
      }
    }
    if StaysStraight(s.listing, pkg, replaced, added, files) {
      StraightIsConsistent(s, pkg, replaced, added, files);
    }
  }

  lemma StraightIsConsistent(s: Root, pkg: PackageKey, replaced: set<Binary>, added: set<Binary>, files: set<Binary>)
    requires Consistent(s) && replaced + added <= files && StaysStraight(s.listing, pkg, replaced, added, files)
    ensures Consistent(Root(files, Recorded(s.listing, pkg, replaced, added)))
  {
    var t := Recorded(s.listing, pkg, replaced, added);
    forall p ensures Owned(t, p) == OwnedAfter(s.listing, pkg, replaced, added, p) {
      RecordedOwns(s.listing, pkg, replaced, added, p);
    }
    forall p | p in t ensures t[p] != {} && t[p] <= files {
      assert t[p] == Owned(t, p);
    }
  }

  lemma ReleaseIsConsistent(s: Root, pkg: PackageKey, names: set<Binary>, files: set<Binary>)
    requires Consistent(s) && names <= Owned(s.listing, pkg) && s.files - names <= files
    ensures Consistent(Root(files, Release(s.listing, pkg, names)))
  {
    var t := Release(s.listing, pkg, names);
    forall p, q, b | b in Owned(t, p) && b in Owned(t, q) ensures p == q {
      assert b in Owned(s.listing, p) && b in Owned(s.listing, q);
    }
    forall p | p in t ensures t[p] <= files {
      forall b | b in t[p] ensures b in files {
        assert b in Owned(s.listing, p) && b !in names;
      }
    }
  }

  // ---- renaming one file after the other ----

  predicate Distinct(names: seq<Binary>) {
    forall i, j :: 0 <= i < j < |names| ==> names[i] != names[j]
  }

  /** Every rename works; renaming the same staged file twice does not. */
  predicate AllMove(names: seq<Binary>, faults: Faults) {
    Distinct(names) && forall i :: 0 <= i < |names| ==> names[i] !in faults.renames
  }

  /** How many renames are made before one fails. */
  function MoveCount(names: seq<Binary>, faults: Faults): (n: nat)
    ensures n <= |names| && AllMove(names[..n], faults)
    ensures n < |names| ==> !AllMove(names[..n + 1], faults)
  {
    if AllMove(names, faults) then
      assert names[..|names|] == names;
      |names|
    else
      var init := names[..|names| - 1];
      assert forall i :: 0 <= i <= |init| ==> init[..i] == names[..i];
      assert names[..|names|] == names;
      MoveCount(init, faults)
  }

  /** The names that are in place by then. */
  function Moved(names: seq<Binary>, faults: Faults): set<Binary> {
    Elements(names[..MoveCount(names, faults)])
  }

  lemma MoveCountIs(names: seq<Binary>, faults: Faults, n: nat)
    requires n <= |names| && AllMove(names[..n], faults) && (n < |names| ==> !AllMove(names[..n + 1], faults))
    ensures MoveCount(names, faults) == n
  {
    var m := MoveCount(names, faults);
    if m < n {
      PrefixMoves(names, m + 1, n, faults);
    } else if n < m {
      PrefixMoves(names, n + 1, m, faults);
    }
  }

  lemma PrefixMoves(names: seq<Binary>, i: nat, j: nat, faults: Faults)
    requires i <= j <= |names| && AllMove(names[..j], faults)
    ensures AllMove(names[..i], faults)
  {
    var short, long := names[..i], names[..j];
    assert forall k :: 0 <= k < i ==> short[k] == long[k];
  }

  lemma AllMoveMovesAll(names: seq<Binary>, faults: Faults)
    ensures AllMove(names, faults) <==> MoveCount(names, faults) == |names|
    ensures AllMove(names, faults) ==> Moved(names, faults) == Elements(names)
  {
    assert names[..|names|] == names;
    if AllMove(names, faults) {
      MoveCountIs(names, faults, |names|);
    }
  }

  lemma OneMoreMoves(names: seq<Binary>, b: Binary, faults: Faults)
    ensures AllMove(names + [b], faults) <==> AllMove(names, faults) && b !in names && b !in faults.renames
  {
    var more := names + [b];
    assert more[|names|] == b;
    assert forall i :: 0 <= i < |names| ==> more[i] == names[i];
  }

  // ---- splitting what was built ----

  /** The built binaries that are among the existing names found, or those that are not. */
  function Pick(binaries: seq<Binary>, existing: set<Binary>, kept: bool): seq<Binary> {
    if binaries == [] then []
    else
      var init, last := binaries[..|binaries| - 1], binaries[|binaries| - 1];
      Pick(init, existing, kept) + if (last in existing) == kept then [last] else []
  }

  function NewOnes(binaries: seq<Binary>, existing: set<Binary>): seq<Binary> {
    Pick(binaries, existing, false)
  }

  function OldOnes(binaries: seq<Binary>, existing: set<Binary>): seq<Binary> {
    Pick(binaries, existing, true)
  }

  lemma PickOneMore(binaries: seq<Binary>, b: Binary, existing: set<Binary>, kept: bool)
    ensures Pick(binaries + [b], existing, kept) ==
      if (b in existing) == kept then Pick(binaries, existing, kept) + [b] else Pick(binaries, existing, kept)
  {
    assert (binaries + [b])[..|binaries|] == binaries;
  }

  lemma {:induction false} PickHolds(binaries: seq<Binary>, existing: set<Binary>, kept: bool, b: Binary)
    ensures b in Pick(binaries, existing, kept) <==> b in binaries && ((b in existing) == kept)
    decreases |binaries|
  {
    if binaries != [] {
      var init, last := binaries[..|binaries| - 1], binaries[|binaries| - 1];
      assert binaries == init + [last];
      PickHolds(init, existing, kept, b);
    }
  }

  lemma {:induction false} PicksMove(binaries: seq<Binary>, existing: set<Binary>, faults: Faults)
    ensures AllMove(binaries, faults) <==>
      AllMove(NewOnes(binaries, existing), faults) && AllMove(OldOnes(binaries, existing), faults)
    decreases |binaries|
  {
    if binaries != [] {
      var init, last := binaries[..|binaries| - 1], binaries[|binaries| - 1];
      var kept := last in existing;
      assert binaries == init + [last];
      PicksMove(init, existing, faults);
      PickHolds(init, existing, kept, last);
      PickOneMore(init, last, existing, true);
      PickOneMore(init, last, existing, false);
      OneMoreMoves(init, last, faults);
      OneMoreMoves(Pick(init, existing, kept), last, faults);
    }
  }

  /** The binary that is renamed last if nothing fails: the replacements follow the new ones. */
  predicate MovedLast(binaries: seq<Binary>, existing: set<Binary>, b: Binary) {
    var moves := NewOnes(binaries, existing) + OldOnes(binaries, existing);
    moves != [] && moves[|moves| - 1] == b
  }

  // ---- an install ----

  /** There is something to install, and it may be. */
  predicate Proceeds(s: Root, binaries: seq<Binary>, checked: set<Binary>, force: bool) {
    binaries != [] && (force || checked * s.files == {})
  }

  predicate Installs(s: Root, binaries: seq<Binary>, checked: set<Binary>, force: bool, faults: Faults) {
    Proceeds(s, binaries, checked, force) && AllMove(binaries, faults)
  }

  /**
   New binaries, then replacements; on a failure what was new is removed, but what was replaced stays and is
   recorded.
   */
  ghost function AfterMoves(s: Root, pkg: PackageKey, novel: seq<Binary>, taken: seq<Binary>, faults: Faults): Root {
    if !AllMove(novel, faults) then Root(s.files - Moved(novel, faults), s.listing)
    else
      var done := AllMove(taken, faults);
      var added := if done then Elements(novel) else {};
      Root(if done then s.files + Elements(novel) + Elements(taken) else s.files - Elements(novel),
           if faults.write then s.listing else Recorded(s.listing, pkg, Moved(taken, faults), added))
  }

  ghost function AfterInstall(s: Root, pkg: PackageKey, binaries: seq<Binary>, checked: set<Binary>, force: bool,
                              faults: Faults): Root {
    if !Proceeds(s, binaries, checked, force) then s
    else AfterMoves(s, pkg, NewOnes(binaries, checked * s.files), OldOnes(binaries, checked * s.files), faults)
  }

  ghost predicate OnlyOwnedBy(listing: Listing, names: set<Binary>, pkg: PackageKey) {
    forall b, p :: b in names && b in Owned(listing, p) ==> p == pkg
  }

  ghost predicate NobodyLists(listing: Listing, names: set<Binary>) {
    forall p :: Owned(listing, p) !! names
  }

  lemma ListedExists(s: Root, p: PackageKey)
    requires Consistent(s)
    ensures Owned(s.listing, p) <= s.files
  {
  }

  lemma RemovalIsConsistent(s: Root, gone: set<Binary>)
    requires Consistent(s)
    ensures Consistent(Root(s.files - gone, s.listing)) <==> NobodyLists(s.listing, gone)
  {
    var t := Root(s.files - gone, s.listing);
    if Consistent(t) {
      forall p ensures Owned(s.listing, p) !! gone {
        ListedExists(t, p);
      }
    } else if NobodyLists(s.listing, gone) {
      forall p | p in s.listing ensures s.listing[p] <= t.files {
        assert Owned(s.listing, p) !! gone;
      }
    }
  }

  /** What the renames leave is consistent exactly under these conditions on who listed the new binaries. */
  lemma MovesAreConsistent(s: Root, pkg: PackageKey, novel: seq<Binary>, taken: seq<Binary>, faults: Faults)
    requires Consistent(s) && Elements(taken) <= s.files && Elements(novel) !! Elements(taken)
    ensures var t := AfterMoves(s, pkg, novel, taken, faults);
      if AllMove(novel, faults) && AllMove(taken, faults)
      then Consistent(t) <==> faults.write || OnlyOwnedBy(s.listing, Elements(novel), pkg)
      else Consistent(t) <==> NobodyLists(s.listing, Moved(novel, faults))
  {
    AllMoveMovesAll(novel, faults);
    AllMoveMovesAll(taken, faults);
    if AllMove(novel, faults) && AllMove(taken, faults) {
      SuccessIsConsistent(s, pkg, Elements(novel), Elements(taken), faults);
    } else if AllMove(novel, faults) && !faults.write {
      assert Moved(taken, faults) <= Elements(taken);
      RollbackIsConsistent(s, pkg, Elements(novel), Moved(taken, faults));
    } else {
      RemovalIsConsistent(s, Moved(novel, faults));
    }
  }

  lemma SuccessIsConsistent(s: Root, pkg: PackageKey, novel: set<Binary>, taken: set<Binary>, faults: Faults)
    requires Consistent(s) && taken <= s.files && novel !! taken
    ensures var t := if faults.write then s.listing else Recorded(s.listing, pkg, taken, novel);
      Consistent(Root(s.files + novel + taken, t)) <==> faults.write || OnlyOwnedBy(s.listing, novel, pkg)
  {
    var files := s.files + novel + taken;
    forall p ensures Owned(s.listing, p) <= files {
      ListedExists(s, p);
    }
    if !faults.write {
      RecordedIsConsistent(s, pkg, taken, novel, files);
    }
  }

  lemma RollbackIsConsistent(s: Root, pkg: PackageKey, novel: set<Binary>, replaced: set<Binary>)
    requires Consistent(s) && replaced <= s.files && novel !! replaced
    ensures Consistent(Root(s.files - novel, Recorded(s.listing, pkg, replaced, {}))) <==> NobodyLists(s.listing, novel)
  {
    RecordedIsConsistent(s, pkg, replaced, {}, s.files - novel);
    forall p ensures Owned(s.listing, p) <= s.files {
      ListedExists(s, p);
    }
  }

  lemma PartsOfInstall(s: Root, binaries: seq<Binary>, checked: set<Binary>)
    ensures var novel, taken := NewOnes(binaries, checked * s.files), OldOnes(binaries, checked * s.files);
      && Elements(taken) <= s.files && Elements(novel) !! Elements(taken)
      && Elements(novel) + Elements(taken) == Elements(binaries)
  {
    forall b ensures b in NewOnes(binaries, checked * s.files) <==> b in binaries && b !in checked * s.files {
      PickHolds(binaries, checked * s.files, false, b);
    }
    forall b ensures b in OldOnes(binaries, checked * s.files) <==> b in binaries && b in checked * s.files {
      PickHolds(binaries, checked * s.files, true, b);
    }
  }

  /**
   An install leaves things consistent exactly when nobody else lists a new binary, or on failure nobody one
   it undoes.
   */
  lemma InstallIsConsistent(s: Root, pkg: PackageKey, binaries: seq<Binary>, checked: set<Binary>, force: bool,
                            faults: Faults)
    requires Consistent(s) && Proceeds(s, binaries, checked, force)
    ensures var t := AfterInstall(s, pkg, binaries, checked, force, faults);
      var novel := NewOnes(binaries, checked * s.files);
      if AllMove(binaries, faults)
      then Consistent(t) <==> faults.write || OnlyOwnedBy(s.listing, Elements(novel), pkg)
      else Consistent(t) <==> NobodyLists(s.listing, Moved(novel, faults))
  {
    PartsOfInstall(s, binaries, checked);
    PicksMove(binaries, checked * s.files, faults);
    MovesAreConsistent(s, pkg, NewOnes(binaries, checked * s.files), OldOnes(binaries, checked * s.files), faults);
  }

  /**
   A successful install adds every binary and is recorded exactly if the listing can be written or said so
   already.
   */
  lemma RecordedExactlyWhenWritten(s: Root, pkg: PackageKey, binaries: seq<Binary>, checked: set<Binary>, force: bool,
                                   faults: Faults)
    requires Installs(s, binaries, checked, force, faults)
    ensures var t := AfterInstall(s, pkg, binaries, checked, force, faults);
      && t.files == s.files + Elements(binaries)
      && (Elements(binaries) <= Owned(t.listing, pkg) <==> !faults.write || Elements(binaries) <= Owned(s.listing, pkg))
  {
    var novel, taken := NewOnes(binaries, checked * s.files), OldOnes(binaries, checked * s.files);
    PartsOfInstall(s, binaries, checked);
    PicksMove(binaries, checked * s.files, faults);
    AllMoveMovesAll(taken, faults);
    RecordedOwns(s.listing, pkg, Elements(taken), Elements(novel), pkg);
  }

  // ---- whatever fails ----

  /** Some failure makes an install undo `b`. */
  ghost predicate CanBeUndone(binaries: seq<Binary>, existing: set<Binary>, b: Binary) {
    exists faults :: UndoneUnder(binaries, existing, b, faults)
  }

  predicate UndoneUnder(binaries: seq<Binary>, existing: set<Binary>, b: Binary, faults: Faults) {
    !AllMove(binaries, faults) && b in Moved(NewOnes(binaries, existing), faults)
  }

  /** A new binary that is moved, unless it is the last of distinct ones. */
  predicate IsExposed(binaries: seq<Binary>, existing: set<Binary>, b: Binary) {
    b in Moved(NewOnes(binaries, existing), NO_FAULTS) && !(Distinct(binaries) && MovedLast(binaries, existing, b))
  }

  lemma FewerFaultsMoveMore(names: seq<Binary>, faults: Faults)
    ensures Moved(names, faults) <= Moved(names, NO_FAULTS)
  {
    var n, m := MoveCount(names, faults), MoveCount(names, NO_FAULTS);
    if m < n {
      PrefixMoves(names, m + 1, n, faults);
    }
    assert forall i :: 0 <= i < n ==> names[..n][i] == names[..m][i];
  }

  /** The binaries an install may have to undo are exactly the exposed ones. */
  lemma UndoneExactlyWhenExposed(binaries: seq<Binary>, existing: set<Binary>, b: Binary)
    ensures CanBeUndone(binaries, existing, b) <==> IsExposed(binaries, existing, b)
  {
    if CanBeUndone(binaries, existing, b) {
      var faults :| UndoneUnder(binaries, existing, b, faults);
      FewerFaultsMoveMore(NewOnes(binaries, existing), faults);
      if Distinct(binaries) && MovedLast(binaries, existing, b) {
        LastIsNotUndone(binaries, existing, b, faults);
      }
    }
    if IsExposed(binaries, existing, b) {
      var faults := FaultUndoing(binaries, existing, b);
      assert UndoneUnder(binaries, existing, b, faults);
    }
  }

  lemma NewIsLastAlone(binaries: seq<Binary>, existing: set<Binary>, b: Binary)
    requires b in NewOnes(binaries, existing)
    ensures var novel := NewOnes(binaries, existing);
      MovedLast(binaries, existing, b) <==> OldOnes(binaries, existing) == [] && novel[|novel| - 1] == b
  {
    var novel, taken := NewOnes(binaries, existing), OldOnes(binaries, existing);
    PickHolds(binaries, existing, false, b);
    if taken != [] {
      var last := taken[|taken| - 1];
      PickHolds(binaries, existing, true, last);
      assert (novel + taken)[|novel + taken| - 1] == last;
    } else {
      assert novel + taken == novel;
    }
  }

  lemma LastIsNotUndone(binaries: seq<Binary>, existing: set<Binary>, b: Binary, faults: Faults)
    requires Distinct(binaries) && MovedLast(binaries, existing, b) && b in Moved(NewOnes(binaries, existing), faults)
    ensures AllMove(binaries, faults)
  {
    var novel := NewOnes(binaries, existing);
    var n := MoveCount(novel, faults);
    var i :| 0 <= i < n && novel[..n][i] == b;
    assert novel[i] == b;
    NewIsLastAlone(binaries, existing, b);
    PicksMove(binaries, existing, NO_FAULTS);
    assert AllMove(binaries, NO_FAULTS) && AllMove(novel, NO_FAULTS);
    assert i == |novel| - 1;
    AllMoveMovesAll(novel, faults);
    PicksMove(binaries, existing, faults);
  }

  /** The failure that undoes an exposed binary: none if names repeat, else that of the last rename. */
  lemma FaultUndoing(binaries: seq<Binary>, existing: set<Binary>, b: Binary) returns (faults: Faults)
    requires IsExposed(binaries, existing, b)
    ensures UndoneUnder(binaries, existing, b, faults)
  {
    var novel, taken := NewOnes(binaries, existing), OldOnes(binaries, existing);
    faults := NO_FAULTS;
    if Distinct(binaries) {
      assert AllMove(binaries, NO_FAULTS);
      PicksMove(binaries, existing, NO_FAULTS);
      AllMoveMovesAll(novel, NO_FAULTS);
      NewIsLastAlone(binaries, existing, b);
      var last := if taken != [] then taken[|taken| - 1] else novel[|novel| - 1];
      faults := Faults({last}, false, {});
      LastFails(binaries, existing, last, b, faults);
    }
  }

  lemma LastFails(binaries: seq<Binary>, existing: set<Binary>, last: Binary, b: Binary, faults: Faults)
    requires b in NewOnes(binaries, existing) && b != last && faults.renames == {last}
    requires AllMove(NewOnes(binaries, existing), NO_FAULTS)
    requires var novel, taken := NewOnes(binaries, existing), OldOnes(binaries, existing);
      last == if taken != [] then taken[|taken| - 1] else novel[|novel| - 1]
    ensures UndoneUnder(binaries, existing, b, faults)
  {
    var novel, taken := NewOnes(binaries, existing), OldOnes(binaries, existing);
    PicksMove(binaries, existing, faults);
    PickHolds(binaries, existing, true, last);
    PickHolds(binaries, existing, false, last);
    if taken != [] {
      assert last in taken;
      AllMoveMovesAll(novel, faults);
    } else {
      var n := |novel| - 1;
      assert novel[..n + 1] == novel;
      MoveCountIs(novel, faults, n);
      var i :| 0 <= i < |novel| && novel[i] == b;
      assert novel[..n][i] == b;
    }
  }

  /** Nobody lists a binary that may have to be undone, and nobody else any that is new. */
  ghost predicate Safe(s: Root, pkg: PackageKey, binaries: seq<Binary>, checked: set<Binary>) {
    forall b, p :: b in Moved(NewOnes(binaries, checked * s.files), NO_FAULTS) && b in Owned(s.listing, p) ==>
      p == pkg && Distinct(binaries) && MovedLast(binaries, checked * s.files, b)
  }

  /** For distinct names: no binary outside those checked is listed, apart from one of the package's own moved last. */
  lemma SafeForDistinct(s: Root, pkg: PackageKey, binaries: seq<Binary>, checked: set<Binary>)
    requires Consistent(s) && Distinct(binaries)
    ensures Safe(s, pkg, binaries, checked) <==>
      forall b, p :: b in binaries && b !in checked && b in Owned(s.listing, p) ==>
        p == pkg && MovedLast(binaries, checked * s.files, b)
  {
    var existing, novel := checked * s.files, NewOnes(binaries, checked * s.files);
    PicksMove(binaries, existing, NO_FAULTS);
    AllMoveMovesAll(novel, NO_FAULTS);
    assert AllMove(binaries, NO_FAULTS) && Moved(novel, NO_FAULTS) == Elements(novel);
    forall b, p | b in Owned(s.listing, p) ensures b in Elements(novel) <==> b in binaries && b !in checked {
      ListedExists(s, p);
      PickHolds(binaries, existing, false, b);
    }
  }

  ghost predicate AlwaysConsistent(s: Root, pkg: PackageKey, binaries: seq<Binary>, checked: set<Binary>, force: bool) {
    forall faults :: Consistent(AfterInstall(s, pkg, binaries, checked, force, faults))
  }

  /**
   An install keeps the listing consistent whatever fails, exactly when it is refused or every listed binary
   it moves that was not among the names checked is the package's own and moved last.
   */
  lemma ConsistentExactlyWhenSafe(s: Root, pkg: PackageKey, binaries: seq<Binary>, checked: set<Binary>, force: bool)
    requires Consistent(s)
    ensures AlwaysConsistent(s, pkg, binaries, checked, force) <==>
      !Proceeds(s, binaries, checked, force) || Safe(s, pkg, binaries, checked)
  {
    if Proceeds(s, binaries, checked, force) {
      if Safe(s, pkg, binaries, checked) {
        forall faults ensures Consistent(AfterInstall(s, pkg, binaries, checked, force, faults)) {
          SafeIsConsistent(s, pkg, binaries, checked, force, faults);
        }
      }
      if AlwaysConsistent(s, pkg, binaries, checked, force) {
        ConsistentIsSafe(s, pkg, binaries, checked, force);
      }
    }
  }

  lemma SafeIsConsistent(s: Root, pkg: PackageKey, binaries: seq<Binary>, checked: set<Binary>, force: bool,
                         faults: Faults)
    requires Consistent(s) && Proceeds(s, binaries, checked, force) && Safe(s, pkg, binaries, checked)
    ensures Consistent(AfterInstall(s, pkg, binaries, checked, force, faults))
  {
    InstallIsConsistent(s, pkg, binaries, checked, force, faults);
    if AllMove(binaries, faults) {
      NobodyElseLists(s, pkg, binaries, checked, faults);
    } else {
      NothingListedIsUndone(s, pkg, binaries, checked, faults);
    }
  }

  lemma NobodyElseLists(s: Root, pkg: PackageKey, binaries: seq<Binary>, checked: set<Binary>, faults: Faults)
    requires Safe(s, pkg, binaries, checked) && AllMove(binaries, faults)
    ensures OnlyOwnedBy(s.listing, Elements(NewOnes(binaries, checked * s.files)), pkg)
  {
    var novel := NewOnes(binaries, checked * s.files);
    PicksMove(binaries, checked * s.files, faults);
    assert AllMove(novel, NO_FAULTS);
    AllMoveMovesAll(novel, NO_FAULTS);
  }

  lemma NothingListedIsUndone(s: Root, pkg: PackageKey, binaries: seq<Binary>, checked: set<Binary>, faults: Faults)
    requires Safe(s, pkg, binaries, checked) && !AllMove(binaries, faults)
    ensures NobodyLists(s.listing, Moved(NewOnes(binaries, checked * s.files), faults))
  {
    var existing, novel := checked * s.files, NewOnes(binaries, checked * s.files);
    forall b | b in Moved(novel, faults) ensures IsExposed(binaries, existing, b) {
      assert UndoneUnder(binaries, existing, b, faults);
      UndoneExactlyWhenExposed(binaries, existing, b);
    }
  }

  lemma ExposedBreaks(s: Root, pkg: PackageKey, binaries: seq<Binary>, checked: set<Binary>, force: bool,
                      b: Binary, p: PackageKey)
    requires Consistent(s) && Proceeds(s, binaries, checked, force)
    requires IsExposed(binaries, checked * s.files, b) && b in Owned(s.listing, p)
    ensures !AlwaysConsistent(s, pkg, binaries, checked, force)
  {
    var faults := FaultUndoing(binaries, checked * s.files, b);
    InstallIsConsistent(s, pkg, binaries, checked, force, faults);
    assert !NobodyLists(s.listing, Moved(NewOnes(binaries, checked * s.files), faults));
    assert !Consistent(AfterInstall(s, pkg, binaries, checked, force, faults));
  }

  lemma ConsistentIsSafe(s: Root, pkg: PackageKey, binaries: seq<Binary>, checked: set<Binary>, force: bool)
    requires Consistent(s) && Proceeds(s, binaries, checked, force)
    requires AlwaysConsistent(s, pkg, binaries, checked, force)
    ensures Safe(s, pkg, binaries, checked)
  {
    var existing, novel := checked * s.files, NewOnes(binaries, checked * s.files);
    forall b, p | b in Moved(novel, NO_FAULTS) && b in Owned(s.listing, p)
      ensures p == pkg && Distinct(binaries) && MovedLast(binaries, existing, b)
    {
      if IsExposed(binaries, existing, b) {
        ExposedBreaks(s, pkg, binaries, checked, force, b, p);
      }
      assert AllMove(binaries, NO_FAULTS);
      InstallIsConsistent(s, pkg, binaries, checked, force, NO_FAULTS);
      assert Consistent(AfterInstall(s, pkg, binaries, checked, force, NO_FAULTS));
      assert b in Elements(novel);
    }
  }

  ghost predicate AlwaysRestored(s: Root, pkg: PackageKey, binaries: seq<Binary>, checked: set<Binary>, force: bool) {
    forall faults :: !AllMove(binaries, faults) ==>
      AfterInstall(s, pkg, binaries, checked, force, faults).files == s.files
  }

  /** A failed install leaves the directory as it was, whatever fails, exactly when no exposed binary existed. */
  lemma RestoredExactlyWhenNew(s: Root, pkg: PackageKey, binaries: seq<Binary>, checked: set<Binary>, force: bool)
    ensures AlwaysRestored(s, pkg, binaries, checked, force) <==>
      !Proceeds(s, binaries, checked, force) || forall b :: b in s.files ==> !IsExposed(binaries, checked * s.files, b)
  {
    var existing, novel := checked * s.files, NewOnes(binaries, checked * s.files);
    if Proceeds(s, binaries, checked, force) {
      forall faults | !AllMove(binaries, faults)
        ensures AfterInstall(s, pkg, binaries, checked, force, faults).files == s.files - Moved(novel, faults)
      {
        PicksMove(binaries, existing, faults);
        AllMoveMovesAll(novel, faults);
      }
      if b :| b in s.files && IsExposed(binaries, existing, b) {
        var faults := FaultUndoing(binaries, existing, b);
        assert b !in AfterInstall(s, pkg, binaries, checked, force, faults).files;
        assert !AlwaysRestored(s, pkg, binaries, checked, force);
      } else {
        forall faults | !AllMove(binaries, faults) ensures s.files - Moved(novel, faults) == s.files {
          forall b | b in Moved(novel, faults) ensures b !in s.files {
            assert UndoneUnder(binaries, existing, b, faults);
            UndoneExactlyWhenExposed(binaries, existing, b);
          }
        }
      }
    }
  }

  /** Every built binary is among the names checked or does not exist. */
  ghost predicate Checked(s: Root, binaries: seq<Binary>, checked: set<Binary>) {
    forall b :: b in binaries ==> b in checked || b !in s.files
  }

  /** So an install all of whose binaries were checked is safe, and undone without a trace. */
  lemma CheckedIsSafe(s: Root, pkg: PackageKey, binaries: seq<Binary>, checked: set<Binary>)
    requires Consistent(s) && Checked(s, binaries, checked)
    ensures Safe(s, pkg, binaries, checked)
    ensures forall b :: b in s.files ==> !IsExposed(binaries, checked * s.files, b)
  {
    var existing, novel := checked * s.files, NewOnes(binaries, checked * s.files);
    forall b | b in Moved(novel, NO_FAULTS) ensures b !in s.files {
      assert b in novel;
      PickHolds(binaries, existing, false, b);
    }
    forall p ensures Owned(s.listing, p) <= s.files {
      ListedExists(s, p);
    }
  }

  // ---- an uninstall, and histories ----

  /** The package is listed with all its files there, and the names given are its own. */
  predicate Releasable(s: Root, pkg: PackageKey, bins: seq<Binary>) {
    pkg in s.listing && s.listing[pkg] <= s.files && Elements(bins) <= s.listing[pkg]
  }

  /** With no names given, everything the package owns is removed. */
  function NamesOf(s: Root, pkg: PackageKey, bins: seq<Binary>): set<Binary> {
    if bins == [] then Owned(s.listing, pkg) else Elements(bins)
  }

  predicate Uninstalls(s: Root, pkg: PackageKey, bins: seq<Binary>, faults: Faults) {
    Releasable(s, pkg, bins) && !faults.write && Distinct(bins) && NamesOf(s, pkg, bins) !! faults.removals
  }

  /** The listing is written before any file is removed, and a removal may fail. */
  ghost predicate UninstallResult(s: Root, pkg: PackageKey, bins: seq<Binary>, faults: Faults, t: Root) {
    var names := NamesOf(s, pkg, bins);
    if !Releasable(s, pkg, bins) || faults.write then t == s
    else
      && t.listing == Release(s.listing, pkg, names) && s.files - names <= t.files <= s.files
      && (Uninstalls(s, pkg, bins, faults) ==> t.files == s.files - names)
  }

  lemma UninstallIsConsistent(s: Root, pkg: PackageKey, bins: seq<Binary>, faults: Faults, t: Root)
    requires Consistent(s) && UninstallResult(s, pkg, bins, faults, t)
    ensures Consistent(t)
  {
    if Releasable(s, pkg, bins) && !faults.write {
      ReleaseIsConsistent(s, pkg, NamesOf(s, pkg, bins), t.files);
    }
  }

  datatype Command =
    | Install(pkg: PackageKey, binaries: seq<Binary>, checked: set<Binary>, force: bool, faults: Faults)
    | Uninstall(pkg: PackageKey, bins: seq<Binary>, faults: Faults)

  ghost predicate Step(s: Root, c: Command, t: Root) {
    match c
    case Install(pkg, binaries, checked, force, faults) => t == AfterInstall(s, pkg, binaries, checked, force, faults)
    case Uninstall(pkg, bins, faults) => UninstallResult(s, pkg, bins, faults, t)
  }

  ghost predicate StepAt(ss: seq<Root>, cs: seq<Command>, i: nat)
    requires i < |cs| && |ss| == |cs| + 1
  {
    Step(ss[i], cs[i], ss[i + 1])
  }

  ghost predicate IsHistory(ss: seq<Root>, cs: seq<Command>) {
    && |ss| == |cs| + 1 && Consistent(ss[0])
    && forall i :: 0 <= i < |cs| ==> StepAt(ss, cs, i)
  }

  /** An install is refused or safe where it is made; an uninstall may always be. */
  ghost predicate MayRun(s: Root, c: Command) {
    c.Install? && Proceeds(s, c.binaries, c.checked, c.force) ==> Safe(s, c.pkg, c.binaries, c.checked)
  }

  /**
   Every sequence of safe installs and of uninstalls that starts from a consistent root, whatever fails in it,
   keeps it so; and an install that is not safe can break it, by `ConsistentExactlyWhenSafe`.
   */
  lemma {:induction false} HistoriesAreConsistent(ss: seq<Root>, cs: seq<Command>, n: nat)
    requires IsHistory(ss, cs) && n <= |cs| && forall i :: 0 <= i < n ==> MayRun(ss[i], cs[i])
    ensures Consistent(ss[n])
  {
    if n > 0 {
      var i: nat := n - 1;
      HistoriesAreConsistent(ss, cs, i);
      assert StepAt(ss, cs, i) && MayRun(ss[i], cs[i]);
      StepIsConsistent(ss[i], cs[i], ss[n]);
    }
  }

  lemma StepIsConsistent(s: Root, c: Command, t: Root)
    requires Consistent(s) && Step(s, c, t) && MayRun(s, c)
    ensures Consistent(t)
  {
    match c {
      case Install(pkg, binaries, checked, force, faults) =>
        if Proceeds(s, binaries, checked, force) {
          SafeIsConsistent(s, pkg, binaries, checked, force, faults);
        }
      case Uninstall(pkg, bins, faults) =>
        UninstallIsConsistent(s, pkg, bins, faults, t);
    }
  }
}
