/**
 Parallel package downloads: `PackageSet::get_many` and `Downloads` of
 src/cargo/core/package.rs with `Retry` of src/cargo/util/network.rs. What the network does
 is an input: how each attempt to transfer a package ends, which transfers have completed
 each time curl is asked, and where curl or the unpacking fails.
 */
module Downloads {
  import opened Collections

  type Id = string
  type Package = string
  type Slots = map<Id, Option<Package>>

  /** `Err` is an error handed to the caller, `Panic` a failed assertion. */
  datatype Outcome<+T> = Ok(value: T) | Err | Panic

  /** How a transfer ended. */
  datatype Ending = Done | Spurious | Fatal

  /** One attempt to transfer a package; curl may fail to let go of it, or to take it back for another one. */
  datatype Attempt = Attempt(ending: Ending, detachFails: bool, requeueFails: bool)

  /**
   What the network and the sources do. `attempts(id, k)` is the attempt at `id` after `k` spurious ones,
   `pollFails(n)` whether curl fails when waited for the n-th time, and `report(n, running, must)` the
   transfers that have completed by then, out of the running ones that were not reported before. If `must`
   holds curl is waited for until there is one.
   */
  datatype Network = Network(
    setupFails: Id -> bool,
    attempts: (Id, nat) -> Attempt,
    pollFails: nat -> bool,
    report: (nat, set<nat>, bool) -> seq<nat>,
    unpack: Id -> Option<Package>
  )

  /** No repeats, nothing that does not run, and at least one if there must be one. */
  ghost predicate HonestReport(tokens: seq<nat>, running: set<nat>, must: bool) {
    && (forall i :: 0 <= i < |tokens| ==> tokens[i] in running)
    && (forall i, j :: 0 <= i < j < |tokens| ==> tokens[i] != tokens[j])
    && (must && running != {} ==> tokens != [])
  }

  ghost predicate Honest(network: Network) {
    forall n, running, must :: HonestReport(network.report(n, running, must), running, must)
  }

  /** The first `k` attempts at `id` are spurious and each is followed by another one. */
  ghost predicate SpuriousUpTo(network: Network, id: Id, k: nat) {
    forall j: nat :: j < k ==> Retried(network.attempts(id, j))
  }

  predicate Retried(a: Attempt) {
    a.ending.Spurious? && !a.detachFails && !a.requeueFails
  }

  /** Attempt `k` at `id` makes an operation fail. */
  predicate AttemptFails(network: Network, limit: nat, id: Id, k: nat) {
    var a := network.attempts(id, k);
    a.detachFails || a.ending.Fatal? || (a.ending.Spurious? && (k >= limit || a.requeueFails))
  }

  /** Some attempt within the limit brought the package, so it arrives if it can be unpacked. */
  ghost predicate Transferred(network: Network, limit: nat, id: Id) {
    exists k: nat :: k <= limit && ArrivesAt(network, id, k)
  }

  /** After at most `limit` spurious attempts the package is there. */
  ghost predicate Arrives(network: Network, limit: nat, id: Id) {
    network.unpack(id).Some? && Transferred(network, limit, id)
  }

  ghost predicate ArrivesAt(network: Network, id: Id, k: nat) {
    SpuriousUpTo(network, id, k) && network.attempts(id, k).ending.Done? && !network.attempts(id, k).detachFails
  }

  lemma FailedNeverArrives(network: Network, limit: nat, id: Id, k: nat)
    requires SpuriousUpTo(network, id, k) && AttemptFails(network, limit, id, k)
    ensures !Arrives(network, limit, id)
  {
  }

  lemma OneMoreSpurious(network: Network, limit: nat, id: Id, k: nat)
    requires SpuriousUpTo(network, id, k) && !AttemptFails(network, limit, id, k)
    ensures network.attempts(id, k).ending.Spurious? ==> SpuriousUpTo(network, id, k + 1)
    ensures network.attempts(id, k).ending.Done? ==> ArrivesAt(network, id, k)
  {
  }

  /** What a source answers when asked for a package. */
  datatype Answer = Ready(pkg: Package) | MustDownload | Refused

  datatype Download = Download(token: nat, id: Id, retries: nat)

  ghost function IdsOf(pending: map<nat, Download>): set<Id> {
    set t | t in pending :: pending[t].id
  }

  ghost predicate DistinctIds(pending: map<nat, Download>) {
    forall t, u :: t in pending && u in pending && pending[t].id == pending[u].id ==> t == u
  }

  /** `pending.len() == pending_ids.len()`. */
  lemma {:induction false} AsManyIdsAsTokens(pending: map<nat, Download>)
    requires DistinctIds(pending)
    ensures |IdsOf(pending)| == |pending|
    decreases |pending|
  {
    if pending != map[] {
      var t :| t in pending;
      var rest := pending - {t};
      AsManyIdsAsTokens(rest);
      IdsWithout(pending, t);
      assert pending[t].id in IdsOf(pending);
      assert pending.Keys == rest.Keys + {t};
      assert |pending| == |pending.Keys| && |rest| == |rest.Keys|;
    } else {
      assert IdsOf(pending) == {};
    }
  }

  lemma IdsWithout(pending: map<nat, Download>, t: nat)
    requires DistinctIds(pending) && t in pending
    ensures IdsOf(pending - {t}) == IdsOf(pending) - {pending[t].id}
  {
    forall id | id in IdsOf(pending) && id != pending[t].id ensures id in IdsOf(pending - {t}) {
      var u :| u in pending && pending[u].id == id;
      assert u in pending - {t};
    }
  }

  lemma IdsWith(pending: map<nat, Download>, d: Download)
    requires d.token !in pending
    ensures IdsOf(pending[d.token := d]) == IdsOf(pending) + {d.id}
  {
    var more := pending[d.token := d];
    assert d.token in more && more[d.token].id == d.id;
    forall id | id in IdsOf(pending) ensures id in IdsOf(more) {
      var u :| u in pending && pending[u].id == id;
      assert u in more && more[u].id == id;
    }
  }

  /** The completions the transfers below `n` may still cost: one each, and one per retry left. */
  ghost function Budget(pending: map<nat, Download>, n: nat): nat {
    if n == 0 then 0
    else Budget(pending, n - 1) + (if n - 1 in pending then pending[n - 1].retries + 1 else 0)
  }

  lemma {:induction false} BudgetWithout(pending: map<nat, Download>, t: nat, n: nat)
    requires t in pending
    ensures Budget(pending - {t}, n) + (if t < n then pending[t].retries + 1 else 0) == Budget(pending, n)
  {
    if n > 0 {
      BudgetWithout(pending, t, n - 1);
    }
  }

  /** As often as `n` packages can be tried: once each, and once more per retry. */
  ghost function Tries(n: nat, limit: nat): nat {
    if n == 0 then 0 else Tries(n - 1, limit) + limit + 1
  }

  lemma {:induction false} TriesIsProduct(n: nat, limit: nat)
    ensures Tries(n, limit) == n * (limit + 1)
  {
    if n > 0 {
      TriesIsProduct(n - 1, limit);
    }
  }

  type Counts = map<Id, nat>

  ghost function Count(counts: Counts, id: Id): nat {
    if id in counts then counts[id] else 0
  }

  /** No package has more completions handled than one and one per retry. */
  ghost predicate Bounded(handled: Counts, limit: nat) {
    forall id :: id in handled ==> handled[id] <= 1 + limit
  }

  /** Every transfer in progress is for a known slot and has as many tries left as were not used. */
  ghost predicate TransferOk(slots: Slots, d: Download, limit: nat, handled: Counts) {
    d.id in slots && Count(handled, d.id) + d.retries == limit
  }

  ghost predicate TransfersOk(slots: Slots, pending: map<nat, Download>, next: nat, limit: nat, handled: Counts) {
    && DistinctIds(pending)
    && (forall t :: t in pending ==> pending[t].token == t < next && TransferOk(slots, pending[t], limit, handled))
    && Bounded(handled, limit)
  }

  /** No transfer is for a slot that is filled already. */
  ghost predicate NoneFilled(slots: Slots, ids: set<Id>) {
    forall id :: id in ids ==> id in slots && slots[id].None?
  }

  /** Reports of distinct transfers in progress. */
  ghost predicate ReportsOk(pending: map<nat, Download>, results: seq<(nat, Ending)>) {
    && (forall i :: 0 <= i < |results| ==> results[i].0 in pending)
    && (forall i, j :: 0 <= i < j < |results| ==> results[i].0 != results[j].0)
  }

  /** Every report says how the current attempt at the package ended. */
  ghost predicate EndingsOk(network: Network, limit: nat, pending: map<nat, Download>, results: seq<(nat, Ending)>) {
    forall i :: 0 <= i < |results| && results[i].0 in pending ==>
      results[i].1 == CurrentAttempt(network, limit, pending[results[i].0]).ending
  }

  /** What curl says of the transfers `tokens`. */
  ghost function Messages(network: Network, limit: nat, pending: map<nat, Download>, tokens: seq<nat>):
    (r: seq<(nat, Ending)>)
    ensures |r| == |tokens| && forall i :: 0 <= i < |r| ==> r[i].0 == tokens[i]
  {
    seq(|tokens|, i requires 0 <= i < |tokens| => (tokens[i],
      if tokens[i] in pending then CurrentAttempt(network, limit, pending[tokens[i]]).ending else Done))
  }

  /** Both still hold when running transfers are reported, and when the last report is taken off. */
  lemma MessagesAdded(
    network: Network, limit: nat, pending: map<nat, Download>, results: seq<(nat, Ending)>, tokens: seq<nat>)
    requires ReportsOk(pending, results) && EndingsOk(network, limit, pending, results)
    requires HonestReport(tokens, Running(pending, results), results == [])
    ensures var more := results + Messages(network, limit, pending, tokens);
      ReportsOk(pending, more) && EndingsOk(network, limit, pending, more)
  {
    var more := results + Messages(network, limit, pending, tokens);
    forall i, j | 0 <= i < j < |more| ensures more[i].0 != more[j].0 {
      assert j >= |results| ==> tokens[j - |results|] in Running(pending, results);
    }
  }

  lemma ReportTaken(network: Network, limit: nat, pending: map<nat, Download>, results: seq<(nat, Ending)>)
    requires ReportsOk(pending, results) && EndingsOk(network, limit, pending, results) && results != []
    ensures var k := |results| - 1; var t := results[k].0;
      && t in pending && results[k].1 == CurrentAttempt(network, limit, pending[t]).ending
      && ReportsOk(pending, results[..k]) && EndingsOk(network, limit, pending, results[..k])
      && ReportsOk(pending - {t}, results[..k])
  {
  }

  /** The number of the attempt a download is at. */
  function AttemptNumber(limit: nat, d: Download): nat {
    if d.retries <= limit then limit - d.retries else 0
  }

  function CurrentAttempt(network: Network, limit: nat, d: Download): Attempt {
    network.attempts(d.id, AttemptNumber(limit, d))
  }

  /** All attempts before the current one were spurious. */
  ghost predicate AtAttempt(network: Network, limit: nat, d: Download) {
    d.retries <= limit && SpuriousUpTo(network, d.id, AttemptNumber(limit, d))
  }

  ghost predicate HistoryOk(network: Network, limit: nat, pending: map<nat, Download>) {
    forall t :: t in pending ==> AtAttempt(network, limit, pending[t])
  }

  /** What an attempt shows about its package. */
  lemma Explained(network: Network, limit: nat, d: Download)
    requires AtAttempt(network, limit, d)
    ensures AttemptFails(network, limit, d.id, AttemptNumber(limit, d)) ==> !Arrives(network, limit, d.id)
    ensures CurrentAttempt(network, limit, d).ending.Done? && !CurrentAttempt(network, limit, d).detachFails ==>
      Transferred(network, limit, d.id)
  {
    var k := AttemptNumber(limit, d);
    if AttemptFails(network, limit, d.id, k) {
      FailedNeverArrives(network, limit, d.id, k);
    } else {
      OneMoreSpurious(network, limit, d.id, k);
    }
  }

  lemma TransferAdded(slots: Slots, pending: map<nat, Download>, next: nat, limit: nat, handled: Counts, id: Id)
    requires TransfersOk(slots, pending, next, limit, handled) && id in slots && id !in IdsOf(pending)
    ensures TransfersOk(slots, pending[next := Download(next, id, limit)], next + 1, limit, handled[id := 0])
    ensures IdsOf(pending[next := Download(next, id, limit)]) == IdsOf(pending) + {id}
    ensures Budget(pending[next := Download(next, id, limit)], next + 1) == Budget(pending, next) + limit + 1
  {
    IdsWith(pending, Download(next, id, limit));
    var more := pending[next := Download(next, id, limit)];
    assert more - {next} == pending;
    BudgetWithout(more, next, next);
    forall t | t in pending ensures pending[t].id != id {
      assert pending[t].id in IdsOf(pending);
    }
  }

  lemma TransferRemoved(slots: Slots, pending: map<nat, Download>, next: nat, limit: nat, handled: Counts, t: nat)
    requires TransfersOk(slots, pending, next, limit, handled) && t in pending
    ensures pending[t].id in IdsOf(pending) && IdsOf(pending - {t}) == IdsOf(pending) - {pending[t].id}
    ensures TransfersOk(slots, pending - {t}, next, limit, handled[pending[t].id := Count(handled, pending[t].id) + 1])
    ensures Budget(pending - {t}, next) + pending[t].retries + 1 == Budget(pending, next)
    ensures pending[t].token == t < next && TransferOk(slots, pending[t], limit, handled)
  {
    IdsWithout(pending, t);
    BudgetWithout(pending, t, next);
    assert pending[t].id in IdsOf(pending);
  }

  lemma TransferAgain(slots: Slots, pending: map<nat, Download>, next: nat, limit: nat, handled: Counts, d: Download)
    requires TransfersOk(slots, pending, next, limit, handled) && TransferOk(slots, d, limit, handled)
    requires d.token < next && d.token !in pending && d.id !in IdsOf(pending)
    ensures TransfersOk(slots, pending[d.token := d], next, limit, handled)
    ensures IdsOf(pending[d.token := d]) == IdsOf(pending) + {d.id}
    ensures Budget(pending[d.token := d], next) == Budget(pending, next) + d.retries + 1
  {
    IdsWith(pending, d);
    forall t | t in pending ensures pending[t].id != d.id {
      assert pending[t].id in IdsOf(pending);
    }
    assert pending[d.token := d] - {d.token} == pending;
    BudgetWithout(pending[d.token := d], d.token, next);
  }

  /** The packages returned so far and those being downloaded, each as often as it was asked for. */
  ghost function Asked(pkgs: seq<Id>, ids: set<Id>): multiset<Id> {
    multiset(pkgs) + multiset(ids)
  }

  lemma AskedOneMore(pkgs: seq<Id>, ids: set<Id>, asked: seq<Id>, i: nat)
    requires i < |asked| && Asked(pkgs, ids) == multiset(asked[..i])
    ensures Asked(pkgs + [asked[i]], ids) == multiset(asked[..i + 1])
    ensures asked[i] !in ids ==> Asked(pkgs, ids + {asked[i]}) == multiset(asked[..i + 1])
    ensures asked[i] in ids ==> exists j :: 0 <= j < i && asked[j] == asked[i]
  {
    assert asked[..i + 1] == asked[..i] + [asked[i]];
    if asked[i] in ids {
      assert asked[i] in Asked(pkgs, ids) && asked[i] in asked[..i];
    }
  }

  /** A filled slot is never emptied or refilled. */
  ghost predicate KeepsFilled(slots: Slots, before: Slots) {
    slots.Keys == before.Keys && forall id :: id in before && before[id].Some? ==> slots[id] == before[id]
  }

  /** Every package in `pkgs` has its slot filled. */
  ghost predicate AllFilled(slots: Slots, pkgs: seq<Id>) {
    forall j :: 0 <= j < |pkgs| ==> pkgs[j] in slots && slots[pkgs[j]].Some?
  }

  /** Position `k` is the first that asks for its package. */
  predicate IsFirst(ids: seq<Id>, k: nat)
    requires k < |ids|
  {
    forall j :: 0 <= j < k ==> ids[j] != ids[k]
  }

  /** The source is asked for the package at position `k`, because no earlier position asked and it was not there. */
  predicate Consulted(slots: Slots, ids: seq<Id>, k: nat)
    requires k < |ids|
  {
    IsFirst(ids, k) && ids[k] in slots && slots[ids[k]].None?
  }

  /** The package asked for at position `k` has to be downloaded. */
  predicate Wants(slots: Slots, ids: seq<Id>, answers: seq<Answer>, k: nat)
    requires k < |ids| == |answers|
  {
    Consulted(slots, ids, k) && answers[k].MustDownload?
  }

  /** The package asked for at position `k` is not in the set, its source refuses it, or no transfer can be set up. */
  predicate StartFails(network: Network, slots: Slots, ids: seq<Id>, answers: seq<Answer>, k: nat)
    requires k < |ids| == |answers|
  {
    || ids[k] !in slots
    || (Consulted(slots, ids, k) && answers[k].Refused?)
    || (Wants(slots, ids, answers, k) && network.setupFails(ids[k]))
  }

  ghost predicate NoStartFails(network: Network, slots: Slots, ids: seq<Id>, answers: seq<Answer>, n: nat)
    requires n <= |ids| == |answers|
  {
    forall k :: 0 <= k < n ==> !StartFails(network, slots, ids, answers, k)
  }

  /** Being downloaded are exactly the packages among the first `n` asked for that have to be. */
  ghost predicate AllWanted(slots: Slots, ids: seq<Id>, answers: seq<Answer>, n: nat, pending: set<Id>)
    requires n <= |ids| == |answers|
  {
    && (forall id :: id in pending ==> exists k :: 0 <= k < n && ids[k] == id && Wants(slots, ids, answers, k))
    && (forall k :: 0 <= k < n && Wants(slots, ids, answers, k) ==> ids[k] in pending)
  }

  /** Among the first `n` packages asked for, one that has to be downloaded is asked for again. */
  predicate WantedAgain(slots: Slots, ids: seq<Id>, answers: seq<Answer>, n: nat)
    requires n <= |ids| == |answers|
  {
    exists i, j :: 0 <= i < j < n && ids[i] == ids[j] && Wants(slots, ids, answers, i)
  }

  /** The slot of a package was filled by the first answer for it, and the slots not asked for are as they were. */
  ghost predicate FilledFrom(before: Slots, slots: Slots, ids: seq<Id>, answers: seq<Answer>, n: nat)
    requires n <= |ids| == |answers|
  {
    && (forall k :: 0 <= k < n && Consulted(before, ids, k) && answers[k].Ready? ==>
        ids[k] in slots && slots[ids[k]] == Some(answers[k].pkg))
    && (forall id :: id in before && id in slots && slots[id] != before[id] ==> id in ids[..n])
  }

  /** Some position among the first `n` asks for `id` first. */
  lemma {:induction false} HasFirst(ids: seq<Id>, n: nat, id: Id)
    requires n <= |ids| && id in ids[..n]
    ensures exists k :: 0 <= k < n && ids[k] == id && IsFirst(ids, k)
  {
    var j: nat := n - 1;
    if id in ids[..j] {
      HasFirst(ids, j, id);
    } else {
      assert ids[j] == id;
      assert forall i :: 0 <= i < j ==> ids[..j][i] == ids[i];
      assert IsFirst(ids, j);
    }
  }

  /** The transfers in progress that have not been reported. */
  function Running(pending: map<nat, Download>, results: seq<(nat, Ending)>): set<nat> {
    set t | t in pending && forall i :: 0 <= i < |results| ==> results[i].0 != t
  }

  /** The transfer the next report to be handled is about: the last one curl has reported by turn `n`. */
  ghost function NextToken(network: Network, n: nat, pending: map<nat, Download>, results: seq<(nat, Ending)>): nat {
    var tokens := network.report(n, Running(pending, results), results == []);
    if tokens != [] then tokens[|tokens| - 1] else if results != [] then results[|results| - 1].0 else 0
  }

  ghost function NextDownload(network: Network, n: nat, pending: map<nat, Download>, results: seq<(nat, Ending)>):
    Download
  {
    var t := NextToken(network, n, pending, results);
    if t in pending then pending[t] else Download(0, "", 0)
  }

  /** If something is in progress, curl reports something. */
  lemma SomeReport(network: Network, limit: nat, n: nat, pending: map<nat, Download>, results: seq<(nat, Ending)>)
    requires Honest(network) && pending != map[] && ReportsOk(pending, results)
    ensures NextToken(network, n, pending, results) in pending
    ensures var tokens := network.report(n, Running(pending, results), results == []);
      var all := results + Messages(network, limit, pending, tokens);
      && HonestReport(tokens, Running(pending, results), results == [])
      && all != [] && all[|all| - 1].0 == NextToken(network, n, pending, results)
  {
    var tokens := network.report(n, Running(pending, results), results == []);
    assert HonestReport(tokens, Running(pending, results), results == []);
    var t :| t in pending;
    assert results == [] ==> t in Running(pending, results);
  }

  /** A transfer that is queued again after a spurious attempt. */
  lemma OnceMore(
    network: Network, limit: nat, pending: map<nat, Download>, results: seq<(nat, Ending)>, dl: Download)
    requires HistoryOk(network, limit, pending) && EndingsOk(network, limit, pending, results)
    requires ReportsOk(pending, results) && dl.token !in pending
    requires dl.retries > 0 && AtAttempt(network, limit, dl)
    ensures var more := pending[dl.token := dl.(retries := dl.retries - 1)];
      && ReportsOk(more, results) && EndingsOk(network, limit, more, results)
      && (Retried(CurrentAttempt(network, limit, dl)) ==> HistoryOk(network, limit, more))
  {
    if Retried(CurrentAttempt(network, limit, dl)) {
      OneMoreSpurious(network, limit, dl.id, AttemptNumber(limit, dl));
    }
  }

  /** What `get_many` knows of the slots and the ids being downloaded before position `i`. */
  ghost predicate SoFar(
    network: Network, before: Slots, slots: Slots, ids: seq<Id>, answers: seq<Answer>, i: nat, pending: set<Id>)
    requires i <= |ids| == |answers|
  {
    && KeepsFilled(slots, before) && FilledFrom(before, slots, ids, answers, i)
    && AllWanted(before, ids, answers, i, pending) && NoStartFails(network, before, ids, answers, i)
    && (NoneFilled(slots, pending) <==> !WantedAgain(before, ids, answers, i))
  }

  /** A package being downloaded is asked for again at position `i`. */
  lemma AgainStep(slots: Slots, ids: seq<Id>, answers: seq<Answer>, i: nat, pending: set<Id>)
    requires i < |ids| == |answers| && AllWanted(slots, ids, answers, i, pending)
    ensures WantedAgain(slots, ids, answers, i + 1) <==> WantedAgain(slots, ids, answers, i) || ids[i] in pending
    ensures ids[i] in pending ==> !IsFirst(ids, i)
  {
    if ids[i] in pending {
      var k :| 0 <= k < i && ids[k] == ids[i] && Wants(slots, ids, answers, k);
      assert WantedAgain(slots, ids, answers, i + 1);
    }
  }

  lemma FirstIsUntouched(before: Slots, slots: Slots, ids: seq<Id>, answers: seq<Answer>, i: nat)
    requires i < |ids| == |answers| && FilledFrom(before, slots, ids, answers, i) && IsFirst(ids, i)
    ensures ids[i] in before && ids[i] in slots ==> slots[ids[i]] == before[ids[i]]
  {
    assert forall j :: 0 <= j < i ==> ids[..i][j] == ids[j];
  }

  /** If the source is consulted once more for a package, it is being downloaded. */
  lemma RepeatedIsPending(
    network: Network, before: Slots, slots: Slots, ids: seq<Id>, answers: seq<Answer>, i: nat, pending: set<Id>)
    requires i < |ids| == |answers| && KeepsFilled(slots, before) && FilledFrom(before, slots, ids, answers, i)
    requires AllWanted(before, ids, answers, i, pending) && NoStartFails(network, before, ids, answers, i)
    requires !IsFirst(ids, i) && ids[i] in slots && slots[ids[i]].None?
    ensures ids[i] in pending
  {
    var j :| 0 <= j < i && ids[j] == ids[i];
    assert ids[..i][j] == ids[i];
    HasFirst(ids, i, ids[i]);
    var k: nat :| k < i && ids[k] == ids[i] && IsFirst(ids, k);
    assert Consulted(before, ids, k);
    assert !StartFails(network, before, ids, answers, k);
  }

  /** What position `i` may find. */
  lemma FirstOrNot(
    network: Network, before: Slots, slots: Slots, ids: seq<Id>, answers: seq<Answer>, i: nat, pending: set<Id>)
    requires i < |ids| == |answers| && SoFar(network, before, slots, ids, answers, i, pending)
    ensures ids[i] in slots && slots[ids[i]].None? ==> (Consulted(before, ids, i) <==> ids[i] !in pending)
    ensures ids[i] in slots && slots[ids[i]].Some? ==> !Consulted(before, ids, i)
    ensures WantedAgain(before, ids, answers, i + 1) <==> WantedAgain(before, ids, answers, i) || ids[i] in pending
    ensures ids[i] in slots <==> ids[i] in before
  {
    AgainStep(before, ids, answers, i, pending);
    if IsFirst(ids, i) {
      FirstIsUntouched(before, slots, ids, answers, i);
    } else if ids[i] in slots && slots[ids[i]].None? {
      RepeatedIsPending(network, before, slots, ids, answers, i, pending);
    }
  }

  lemma WantedStep(before: Slots, ids: seq<Id>, answers: seq<Answer>, i: nat, pending: set<Id>)
    requires i < |ids| == |answers| && AllWanted(before, ids, answers, i, pending)
    ensures !Wants(before, ids, answers, i) ==> AllWanted(before, ids, answers, i + 1, pending)
    ensures Wants(before, ids, answers, i) ==> AllWanted(before, ids, answers, i + 1, pending + {ids[i]})
  {
  }

  lemma FilledStep(before: Slots, slots: Slots, ids: seq<Id>, answers: seq<Answer>, i: nat)
    requires i < |ids| == |answers| && FilledFrom(before, slots, ids, answers, i) && ids[i] in slots
    ensures !(Consulted(before, ids, i) && answers[i].Ready?) ==> FilledFrom(before, slots, ids, answers, i + 1)
    ensures slots[ids[i]].None? && answers[i].Ready? ==>
      FilledFrom(before, slots[ids[i] := Some(answers[i].pkg)], ids, answers, i + 1)
  {
    assert ids[..i + 1] == ids[..i] + [ids[i]];
  }

  lemma SlotFilled(before: Slots, slots: Slots, pending: set<Id>, id: Id, pkg: Package)
    requires KeepsFilled(slots, before) && id in slots && slots[id].None?
    ensures KeepsFilled(slots[id := Some(pkg)], before)
    ensures NoneFilled(slots[id := Some(pkg)], pending) <==> NoneFilled(slots, pending) && id !in pending
  {
  }

  lemma NoFailStep(network: Network, slots: Slots, ids: seq<Id>, answers: seq<Answer>, i: nat)
    requires i < |ids| == |answers| && NoStartFails(network, slots, ids, answers, i)
    requires !StartFails(network, slots, ids, answers, i)
    ensures NoStartFails(network, slots, ids, answers, i + 1)
  {
  }

  /** The package at position `i` was there. */
  lemma SoFarThere(
    network: Network, before: Slots, slots: Slots, ids: seq<Id>, answers: seq<Answer>, i: nat, pending: set<Id>)
    requires i < |ids| == |answers| && SoFar(network, before, slots, ids, answers, i, pending)
    requires ids[i] in slots && slots[ids[i]].Some?
    ensures SoFar(network, before, slots, ids, answers, i + 1, pending)
  {
    FirstOrNot(network, before, slots, ids, answers, i, pending);
    assert AllWanted(before, ids, answers, i + 1, pending) by {
      WantedStep(before, ids, answers, i, pending);
    }
    assert FilledFrom(before, slots, ids, answers, i + 1) by {
      FilledStep(before, slots, ids, answers, i);
    }
    NoFailStep(network, before, ids, answers, i);
  }

  /** Its source had it ready. */
  lemma SoFarReady(
    network: Network, before: Slots, slots: Slots, ids: seq<Id>, answers: seq<Answer>, i: nat, pending: set<Id>)
    requires i < |ids| == |answers| && SoFar(network, before, slots, ids, answers, i, pending)
    requires ids[i] in slots && slots[ids[i]].None? && answers[i].Ready?
    ensures SoFar(network, before, slots[ids[i] := Some(answers[i].pkg)], ids, answers, i + 1, pending)
  {
    SlotFilled(before, slots, pending, ids[i], answers[i].pkg);
    FirstOrNot(network, before, slots, ids, answers, i, pending);
    assert AllWanted(before, ids, answers, i + 1, pending) by {
      WantedStep(before, ids, answers, i, pending);
    }
    assert FilledFrom(before, slots[ids[i] := Some(answers[i].pkg)], ids, answers, i + 1) by {
      FilledStep(before, slots, ids, answers, i);
    }
    NoFailStep(network, before, ids, answers, i);
  }

  /** It is going to be downloaded. */
  lemma SoFarQueued(
    network: Network, before: Slots, slots: Slots, ids: seq<Id>, answers: seq<Answer>, i: nat, pending: set<Id>)
    requires i < |ids| == |answers| && SoFar(network, before, slots, ids, answers, i, pending)
    requires ids[i] in slots && slots[ids[i]].None? && answers[i].MustDownload? && ids[i] !in pending
    requires !network.setupFails(ids[i])
    ensures SoFar(network, before, slots, ids, answers, i + 1, pending + {ids[i]})
  {
    FirstOrNot(network, before, slots, ids, answers, i, pending);
    assert AllWanted(before, ids, answers, i + 1, pending + {ids[i]}) by {
      WantedStep(before, ids, answers, i, pending);
    }
    assert FilledFrom(before, slots, ids, answers, i + 1) by {
      FilledStep(before, slots, ids, answers, i);
    }
    NoFailStep(network, before, ids, answers, i);
  }

  lemma SoFarAtFirst(network: Network, slots: Slots, ids: seq<Id>, answers: seq<Answer>)
    requires |ids| == |answers|
    ensures SoFar(network, slots, slots, ids, answers, 0, {})
  {
  }

  lemma AgainInAll(slots: Slots, ids: seq<Id>, answers: seq<Answer>, n: nat)
    requires n <= |ids| == |answers|
    ensures WantedAgain(slots, ids, answers, n) ==> WantedAgain(slots, ids, answers, |ids|)
  {
  }

  /** Curl fails in one of the turns `from` up to `to`. */
  ghost predicate PollFailed(network: Network, from: nat, to: nat) {
    exists n: nat :: from <= n < to && network.pollFails(n)
  }

  lemma OneMorePoll(network: Network, from: nat, n: nat)
    requires from <= n
    ensures PollFailed(network, from, n + 1) <==> PollFailed(network, from, n) || network.pollFails(n)
  {
  }

  /** Some package does not arrive. */
  ghost predicate SomeLost(network: Network, limit: nat, ids: set<Id>) {
    exists id :: id in ids && !Arrives(network, limit, id)
  }

  /** The empty slots of `ids` have been filled with what arrived, and no other slot was touched. */
  ghost predicate Delivered(network: Network, limit: nat, before: Slots, slots: Slots, ids: set<Id>) {
    && slots.Keys == before.Keys
    && (forall id :: id in ids ==> id in before && before[id].None? && Arrives(network, limit, id))
    && (forall id :: id in before ==> slots[id] == if id in ids then network.unpack(id) else before[id])
  }

  lemma DeliveredKeeps(network: Network, limit: nat, before: Slots, slots: Slots, ids: set<Id>)
    requires Delivered(network, limit, before, slots, ids)
    ensures KeepsFilled(slots, before)
    ensures forall id :: id in ids ==> slots[id].Some?
  {
  }

  lemma DeliveredOne(network: Network, limit: nat, before: Slots, slots: Slots, ids: set<Id>, id: Id)
    requires Delivered(network, limit, before, slots, ids) && id in slots && slots[id].None?
    requires Arrives(network, limit, id)
    ensures Delivered(network, limit, before, slots[id := network.unpack(id)], ids + {id})
  {
  }

  lemma FilledOne(slots: Slots, pkgs: seq<Id>, id: Id, pkg: Option<Package>)
    requires AllFilled(slots, pkgs) && pkg.Some?
    ensures AllFilled(slots[id := pkg], pkgs + [id])
  {
  }

  lemma AskedMoved(pkgs: seq<Id>, ids: set<Id>, id: Id)
    requires id in ids
    ensures Asked(pkgs + [id], ids - {id}) == Asked(pkgs, ids)
    ensures |ids - {id}| < |ids|
  {
  }

  /** Every package asked for can be had, and none that has to be downloaded is asked for again. */
  ghost predicate Fetchable(network: Network, limit: nat, slots: Slots, ids: seq<Id>, answers: seq<Answer>)
    requires |ids| == |answers|
  {
    && NoStartFails(network, slots, ids, answers, |ids|) && !WantedAgain(slots, ids, answers, |ids|)
    && forall k :: 0 <= k < |ids| && Wants(slots, ids, answers, k) ==> Arrives(network, limit, ids[k])
  }

  /** An empty slot that was asked for holds what its source had ready or what was downloaded. */
  ghost predicate Fetched(network: Network, before: Slots, slots: Slots, ids: seq<Id>, answers: seq<Answer>)
    requires |ids| == |answers|
  {
    && slots.Keys == before.Keys
    && (forall id :: id in before && (id !in ids || before[id].Some?) ==> slots[id] == before[id])
    && (forall k :: 0 <= k < |ids| ==> ids[k] in slots && slots[ids[k]].Some?)
    && (forall k :: 0 <= k < |ids| && Consulted(before, ids, k) ==>
        slots[ids[k]] == if answers[k].Ready? then Some(answers[k].pkg) else network.unpack(ids[k]))
  }

  lemma LostAmong(
    network: Network, limit: nat, before: Slots, mid: Slots, ids: seq<Id>, answers: seq<Answer>, pending: set<Id>)
    requires |ids| == |answers| && SoFar(network, before, mid, ids, answers, |ids|, pending)
    ensures SomeLost(network, limit, pending) || !NoneFilled(mid, pending) ==>
      !Fetchable(network, limit, before, ids, answers)
  {
  }

  lemma AllFetched(
    network: Network, limit: nat, before: Slots, mid: Slots, slots: Slots, ids: seq<Id>, answers: seq<Answer>,
    pending: set<Id>)
    requires |ids| == |answers| && SoFar(network, before, mid, ids, answers, |ids|, pending)
    requires Delivered(network, limit, mid, slots, pending)
    ensures Fetchable(network, limit, before, ids, answers) && Fetched(network, before, slots, ids, answers)
  {
    assert ids[..|ids|] == ids;
    forall k | 0 <= k < |ids| && Consulted(before, ids, k)
      ensures slots[ids[k]] == if answers[k].Ready? then Some(answers[k].pkg) else network.unpack(ids[k])
    {
      assert !StartFails(network, before, ids, answers, k);
    }
    forall k | 0 <= k < |ids| ensures ids[k] in slots && slots[ids[k]].Some? {
      assert !StartFails(network, before, ids, answers, k);
      HasFirst(ids, |ids|, ids[k]);
      var j: nat :| j < |ids| && ids[j] == ids[k] && IsFirst(ids, j);
      assert !StartFails(network, before, ids, answers, j);
    }
  }

  class Downloads {
    /** The lazily filled slots of the package set. */
    var slots: Slots
    var pending: map<nat, Download>
    var pendingIds: set<Id>
    /** Completions curl has reported that `wait` has not handled yet. */
    var results: seq<(nat, Ending)>
    var next: nat
    /** How often curl was waited for. */
    var turn: nat
    /** `net.retry`. */
    const limit: nat
    const network: Network
    /** Completions handled for each package since its download was started. */
    ghost var handled: Counts

    /** `enable_download` */
    constructor (slots: Slots, limit: nat, network: Network)
      requires Honest(network)
      ensures Valid() && pending == map[] && pendingIds == {} && turn == 0 && next == 0
      ensures this.slots == slots && this.limit == limit && this.network == network
    {
      this.slots, this.limit, this.network := slots, limit, network;
      pending, pendingIds, results, next, turn, handled := map[], {}, [], 0, 0, map[];
    }

    /** At every loop head `pending` and `pending_ids` describe the same downloads. */
    ghost predicate Valid()
      reads this
    {
      && TransfersOk(slots, pending, next, limit, handled)
      && pendingIds == IdsOf(pending)
      && ReportsOk(pending, results) && EndingsOk(network, limit, pending, results)
      && HistoryOk(network, limit, pending) && Honest(network)
    }

    /**
     `Ok(Some(pkg))` if the package is ready, `Ok(None)` if it has been queued up for download. It panics
     exactly if the source wants a package downloaded whose download is in progress.
     */
    method Start(id: Id, answer: Answer) returns (r: Outcome<Option<Package>>)
      requires Valid()
      modifies this
      ensures turn == old(turn) && Bounded(handled, limit)
      ensures r.Ok? ==> Budget(pending, next) <= old(Budget(pending, next)) + limit + 1
      ensures r.Ok? ==> Valid() && id in slots
      ensures r.Err? <==> (id !in old(slots) || (old(Lacks(id)) && (answer.Refused? ||
        (answer.MustDownload? && id !in old(pendingIds) && network.setupFails(id)))))
      ensures r.Panic? <==> old(Lacks(id)) && answer.MustDownload? && id in old(pendingIds)
      ensures slots == if old(Lacks(id)) && answer.Ready? then old(slots)[id := Some(answer.pkg)] else old(slots)
      ensures r.Ok? ==> r.value == slots[id]
      ensures r.Ok? ==> pendingIds == if r.value.Some? then old(pendingIds) else old(pendingIds) + {id}
    {
      if id !in slots { return Err; }
      if slots[id].Some? { return Ok(slots[id]); }
      match answer {
        case Refused => return Err;
        case Ready(pkg) =>
          slots := slots[id := Some(pkg)];
          return Ok(slots[id]);
        case MustDownload =>
      }
      var token := next;
      next := next + 1;
      if id in pendingIds { return Panic; }
      pendingIds := pendingIds + {id};
      if network.setupFails(id) { return Err; }
      Enqueue(token, id);
      r := Ok(None);
    }

    /** The first attempt at a package, whose id was just inserted. */
    method Enqueue(token: nat, id: Id)
      requires TransfersOk(slots, pending, token, limit, handled) && IdsOf(pending) == pendingIds - {id}
      requires ReportsOk(pending, results) && EndingsOk(network, limit, pending, results)
      requires HistoryOk(network, limit, pending) && Honest(network)
      requires next == token + 1 && id in slots && id in pendingIds
      modifies this`pending, this`handled
      ensures Valid() && Budget(pending, next) == old(Budget(pending, token)) + limit + 1
    {
      TransferAdded(slots, pending, token, limit, handled, id);
      handled := handled[id := 0];
      pending := pending[token := Download(token, id, limit)];
    }

    /** The slot of the package is empty. */
    predicate Lacks(id: Id)
      reads this
    {
      id in slots && slots[id].None?
    }

    lemma TransfersKnowTheirSlots()
      requires Valid()
      ensures forall id :: id in pendingIds ==> id in slots
    {
      forall id | id in pendingIds ensures id in slots {
        var t :| t in pending && pending[t].id == id;
        assert TransferOk(slots, pending[t], limit, handled);
      }
    }

    method Remaining() returns (n: nat)
      requires Valid()
      ensures n == |pending| && (n == 0 <==> pendingIds == {})
    {
      n := |pending|;
      AsManyIdsAsTokens(pending);
    }

    /** Pushes a report for each transfer that has completed. */
    method Gather(tokens: seq<nat>)
      requires HonestReport(tokens, Running(pending, results), results == [])
      modifies this`results
      ensures results == old(results) + Messages(network, limit, pending, tokens)
    {
      for n := 0 to |tokens|
        invariant results == old(results) + Messages(network, limit, pending, tokens)[..n]
      {
        var t := tokens[n];
        results := results + [(t, CurrentAttempt(network, limit, pending[t]).ending)];
      }
    }

    /** `wait_for_curl`: some transfers may have completed since; the last one reported is returned. */
    method WaitForCurl() returns (r: Outcome<(nat, Ending)>)
      requires Valid() && pending != map[]
      modifies this`results, this`turn
      ensures Valid() && !r.Panic? && turn == old(turn) + 1
      ensures r.Err? <==> network.pollFails(old(turn))
      ensures r.Ok? ==> r.value.0 in pending && r.value.0 == NextToken(network, old(turn), pending, old(results))
      ensures r.Ok? ==> r.value.1 == CurrentAttempt(network, limit, pending[r.value.0]).ending
      ensures r.Ok? ==> ReportsOk(pending - {r.value.0}, results)
    {
      var tokens := network.report(turn, Running(pending, results), results == []);
      var poll := turn;
      turn := turn + 1;
      if network.pollFails(poll) { return Err; }
      SomeReport(network, limit, poll, pending, results);
      Gather(tokens);
      assert ReportsOk(pending, results) && EndingsOk(network, limit, pending, results) by {
        MessagesAdded(network, limit, pending, old(results), tokens);
      }
      var last := Pop();
      r := Ok(last);
    }

    /** Takes the last report off. */
    method Pop() returns (last: (nat, Ending))
      requires Valid() && results != []
      modifies this`results
      ensures Valid() && last == old(results[|results| - 1]) && last.0 in pending
      ensures last.1 == CurrentAttempt(network, limit, pending[last.0]).ending
      ensures ReportsOk(pending - {last.0}, results)
    {
      ReportTaken(network, limit, pending, results);
      var k: nat := |results| - 1;
      last := results[k];
      results := results[..k];
    }

    /** A transfer that was just taken off, with its completion counted but no try used up for it. */
    ghost predicate TakenOff(dl: Download)
      reads this
    {
      && dl.token < next && dl.token !in pending && dl.id !in pendingIds
      && dl.id in slots && Count(handled, dl.id) + dl.retries == limit + 1
      && AtAttempt(network, limit, dl)
    }

    /** Takes one completed transfer off both `pending` and `pending_ids`. */
    method TakeOne(ghost dl: Download) returns (r: Outcome<(Download, Ending)>)
      requires Valid() && pending != map[] && dl == NextDownload(network, turn, pending, results)
      modifies this
      ensures slots == old(slots) && next == old(next) && turn == old(turn) + 1 && Bounded(handled, limit)
      ensures dl.id in old(pendingIds) && AtAttempt(network, limit, dl) && !r.Panic?
      ensures r.Err? <==> network.pollFails(old(turn)) || CurrentAttempt(network, limit, dl).detachFails
      ensures r.Ok? ==> r.value == (dl, CurrentAttempt(network, limit, dl).ending)
      ensures old(Budget(pending, next)) > 0
      ensures r.Ok? ==> Valid() && TakenOff(dl) && pendingIds == old(pendingIds) - {dl.id}
      ensures r.Ok? ==> Budget(pending, next) + dl.retries + 1 == old(Budget(pending, next))
    {
      NextIsPending(dl);
      assert |pending| == |pendingIds|;
      var report := WaitForCurl();
      if report.Err? { return Err; }
      var token, ending := report.value.0, report.value.1;
      var taken := pending[token];
      var ok := Remove(token, taken);
      r := if ok then Ok((taken, ending)) else Err;
    }

    /** The next report is about one of the transfers in progress, and each of them costs at least one turn. */
    lemma NextIsPending(dl: Download)
      requires Valid() && pending != map[] && dl == NextDownload(network, turn, pending, results)
      ensures dl.id in pendingIds && AtAttempt(network, limit, dl)
      ensures |pending| == |pendingIds| && Budget(pending, next) > 0
    {
      SomeReport(network, limit, turn, pending, results);
      AsManyIdsAsTokens(pending);
      var t := NextToken(network, turn, pending, results);
      assert dl.id in IdsOf(pending) && pending[t] == dl;
      BudgetWithout(pending, t, next);
    }

    /** The transfer `token` has completed. */
    method Remove(token: nat, dl: Download) returns (ok: bool)
      requires Valid() && token in pending && pending[token] == dl && ReportsOk(pending - {token}, results)
      modifies this`pending, this`pendingIds, this`handled
      ensures Bounded(handled, limit)
      ensures ok <==> !CurrentAttempt(network, limit, dl).detachFails
      ensures ok ==> Valid() && TakenOff(dl) && pendingIds == old(pendingIds) - {dl.id}
      ensures ok ==> Budget(pending, next) + dl.retries + 1 == old(Budget(pending, next))
    {
      TransferRemoved(slots, pending, next, limit, handled, token);
      pending := pending - {token};
      handled := handled[dl.id := Count(handled, dl.id) + 1];
      if CurrentAttempt(network, limit, dl).detachFails { return false; }
      pendingIds := pendingIds - {dl.id};
      ok := true;
    }

    /** Queues a transfer again with one try less. */
    method Requeue(dl: Download) returns (ok: bool)
      requires Valid() && TakenOff(dl) && dl.retries > 0
      requires CurrentAttempt(network, limit, dl).ending.Spurious? && !CurrentAttempt(network, limit, dl).detachFails
      modifies this`pending, this`pendingIds
      ensures ok <==> !CurrentAttempt(network, limit, dl).requeueFails
      ensures ok ==> Valid() && pendingIds == old(pendingIds) + {dl.id}
      ensures ok ==> pending == old(pending)[dl.token := dl.(retries := dl.retries - 1)]
      ensures ok ==> Budget(pending, next) == old(Budget(pending, next)) + dl.retries
    {
      var again := dl.(retries := dl.retries - 1);
      TransferAgain(slots, pending, next, limit, handled, again);
      OnceMore(network, limit, pending, results, dl);
      pendingIds := pendingIds + {dl.id};
      if CurrentAttempt(network, limit, dl).requeueFails { return false; }
      pending := pending[again.token := again];
      ok := true;
    }

    /**
     Handles one completion. `Ok(Some(id))` is a finished transfer. `Ok(None)` is one that ended spuriously
     with a try left and was queued again. It fails exactly if curl does, if the transfer ended in any other
     error, or if it ended spuriously with no try left.
     */
    method HandleOne(ghost dl: Download) returns (r: Outcome<Option<Id>>)
      requires Valid() && pending != map[] && dl == NextDownload(network, turn, pending, results)
      modifies this
      ensures slots == old(slots) && turn == old(turn) + 1 && Bounded(handled, limit) && !r.Panic?
      ensures dl.id in old(pendingIds) && AtAttempt(network, limit, dl)
      ensures var a := CurrentAttempt(network, limit, dl);
        && (r.Err? <==> (network.pollFails(old(turn)) || a.detachFails || a.ending.Fatal? ||
          (a.ending.Spurious? && (dl.retries == 0 || a.requeueFails))))
        && (r.Ok? ==> r.value == if a.ending.Done? then Some(dl.id) else None)
      ensures r.Ok? ==> Valid() && next == old(next)
      ensures r.Ok? && r.value.None? ==> pendingIds == old(pendingIds) && pending != map[]
      ensures old(Budget(pending, next)) > 0 && (r.Ok? ==> Budget(pending, next) < old(Budget(pending, next)))
      ensures r.Ok? && r.value.Some? ==> pendingIds == old(pendingIds) - {r.value.value}
    {
      var one := TakeOne(dl);
      if !one.Ok? { return Err; }
      var taken, ending := one.value.0, one.value.1;
      if ending.Done? { return Ok(Some(taken.id)); }
      if ending.Fatal? || taken.retries == 0 { return Err; }
      var ok := Requeue(taken);
      if !ok { return Err; }
      assert old(pendingIds) - {dl.id} + {dl.id} == old(pendingIds);
      r := Ok(None);
    }

    /** The loop of `wait`: the id of a package whose transfer is done. */
    method WaitForDone() returns (r: Outcome<Id>)
      requires Valid() && pending != map[]
      modifies this
      ensures slots == old(slots) && Bounded(handled, limit) && turn > old(turn) && !r.Panic?
      ensures turn + (if r.Ok? then Budget(pending, next) else 0) <= old(turn + Budget(pending, next))
      ensures r.Ok? ==> Valid() && r.value in old(pendingIds) && pendingIds == old(pendingIds) - {r.value}
      ensures r.Ok? ==> !PollFailed(network, old(turn), turn) && Transferred(network, limit, r.value)
      ensures r.Err? ==> PollFailed(network, old(turn), turn) || SomeLost(network, limit, old(pendingIds))
    {
      var id: Option<Id> := None;
      while id.None?
        invariant Valid() && slots == old(slots) && !PollFailed(network, old(turn), turn)
        invariant turn >= old(turn) && turn + Budget(pending, next) <= old(turn + Budget(pending, next))
        invariant id.None? ==> pendingIds == old(pendingIds) && pending != map[]
        invariant id.Some? ==> id.value in old(pendingIds) && pendingIds == old(pendingIds) - {id.value}
        invariant id.Some? ==> turn > old(turn) && Transferred(network, limit, id.value)
        decreases id.None?, Budget(pending, next)
      {
        ghost var dl, n := NextDownload(network, turn, pending, results), turn;
        var one := HandleOne(dl);
        Explained(network, limit, dl);
        OneMorePoll(network, old(turn), n);
        if one.Err? { return Err; }
        id := one.value;
      }
      r := Ok(id.value);
    }

    /**
     `wait`: the id of a package whose slot has just been filled. It fails only if curl does or some package
     in progress does not arrive, and panics only where a slot was filled already.
     */
    method Wait() returns (r: Outcome<Id>)
      requires Valid() && pending != map[]
      modifies this
      ensures Bounded(handled, limit) && turn > old(turn)
      ensures turn + (if r.Ok? then Budget(pending, next) else 0) <= old(turn + Budget(pending, next))
      ensures r.Ok? ==> Valid() && r.value in old(pendingIds) && pendingIds == old(pendingIds) - {r.value}
      ensures r.Ok? ==> r.value in old(slots) && old(slots)[r.value].None? && Arrives(network, limit, r.value)
      ensures slots == if r.Ok? then old(slots)[r.value := network.unpack(r.value)] else old(slots)
      ensures r.Ok? ==> !PollFailed(network, old(turn), turn)
      ensures r.Err? ==> PollFailed(network, old(turn), turn) || SomeLost(network, limit, old(pendingIds))
      ensures r.Panic? ==> !NoneFilled(old(slots), old(pendingIds))
    {
      TransfersKnowTheirSlots();
      var done := WaitForDone();
      if !done.Ok? { return Err; }
      var id := done.value;
      var pkg := network.unpack(id);
      if pkg.None? { return Err; }
      if slots[id].Some? { return Panic; }
      slots := slots[id := pkg];
      r := Ok(id);
    }

    /** What holds after the first `i` turns of the first loop of `get_many`, which found the slots as in `before`. */
    ghost predicate Started(before: Slots, pkgs: seq<Id>, ids: seq<Id>, answers: seq<Answer>, i: nat)
      requires i <= |ids| == |answers|
      reads this
    {
      && Valid() && AllFilled(slots, pkgs)
      && Asked(pkgs, pendingIds) == multiset(ids[..i])
      && SoFar(network, before, slots, ids, answers, i, pendingIds)
    }

    /** One turn of the first loop of `get_many`. */
    method StartOne(pkgs: seq<Id>, ids: seq<Id>, i: nat, answers: seq<Answer>, ghost before: Slots)
      returns (r: Outcome<seq<Id>>)
      requires i < |ids| == |answers| && Started(before, pkgs, ids, answers, i)
      modifies this
      ensures turn == old(turn) && KeepsFilled(slots, before) && Bounded(handled, limit)
      ensures r.Ok? ==> Budget(pending, next) <= old(Budget(pending, next)) + limit + 1
      ensures r.Ok? ==> Started(before, r.value, ids, answers, i + 1)
      ensures r.Err? ==> StartFails(network, before, ids, answers, i) || WantedAgain(before, ids, answers, |ids|)
      ensures r.Panic? ==> WantedAgain(before, ids, answers, |ids|)
    {
      AskedOneMore(pkgs, pendingIds, ids, i);
      AgainInAll(before, ids, answers, i + 1);
      FirstOrNot(network, before, slots, ids, answers, i, pendingIds);
      ghost var was := slots;
      ghost var queued := pendingIds;
      var one := Start(ids[i], answers[i]);
      if !one.Ok? { return if one.Err? then Err else Panic; }
      if was[ids[i]].Some? {
        SoFarThere(network, before, was, ids, answers, i, queued);
      } else if one.value.Some? {
        SoFarReady(network, before, was, ids, answers, i, queued);
      } else {
        SoFarQueued(network, before, was, ids, answers, i, queued);
      }
      r := Ok(if one.value.Some? then pkgs + [ids[i]] else pkgs);
    }

    /** The first loop of `get_many`. */
    method StartAll(ids: seq<Id>, answers: seq<Answer>) returns (r: Outcome<seq<Id>>)
      requires Valid() && pendingIds == {} && |answers| == |ids|
      modifies this
      ensures turn == old(turn) && KeepsFilled(slots, old(slots)) && Bounded(handled, limit)
      ensures r.Ok? ==> Budget(pending, next) <= old(Budget(pending, next)) + Tries(|ids|, limit)
      ensures r.Ok? ==> Started(old(slots), r.value, ids, answers, |ids|)
      ensures r.Err? && NoStartFails(network, old(slots), ids, answers, |ids|) ==>
        WantedAgain(old(slots), ids, answers, |ids|)
      ensures r.Panic? ==> WantedAgain(old(slots), ids, answers, |ids|)
    {
      var pkgs: seq<Id> := [];
      SoFarAtFirst(network, slots, ids, answers);
      for i := 0 to |ids|
        invariant Started(old(slots), pkgs, ids, answers, i) && turn == old(turn)
        invariant Budget(pending, next) <= old(Budget(pending, next)) + Tries(i, limit)
      {
        var one := StartOne(pkgs, ids, i, answers, old(slots));
        if !one.Ok? { return one; }
        pkgs := one.value;
      }
      r := Ok(pkgs);
    }

    /** What holds at the head of the second loop of `get_many`, which found the slots as in `before`. */
    ghost predicate Waiting(before: Slots, ids: set<Id>, started: seq<Id>, pkgs: seq<Id>, from: nat)
      reads this
    {
      && Valid() && AllFilled(slots, pkgs) && turn >= from && !PollFailed(network, from, turn)
      && pendingIds <= ids && Delivered(network, limit, before, slots, ids - pendingIds)
      && Asked(pkgs, pendingIds) == Asked(started, ids)
    }

    lemma WaitingAtFirst(pkgs: seq<Id>)
      requires Valid() && AllFilled(slots, pkgs)
      ensures Waiting(slots, pendingIds, pkgs, pkgs, turn)
    {
      assert pendingIds - pendingIds == {};
    }

    lemma WaitingIsOver(before: Slots, ids: set<Id>, started: seq<Id>, pkgs: seq<Id>, from: nat)
      requires Waiting(before, ids, started, pkgs, from) && pendingIds == {}
      ensures Delivered(network, limit, before, slots, ids) && multiset(pkgs) == Asked(started, ids)
      ensures KeepsFilled(slots, before)
    {
      assert ids - pendingIds == ids;
      DeliveredKeeps(network, limit, before, slots, ids);
    }

    /** One turn of the second loop of `get_many`. */
    method WaitOne(ghost before: Slots, ghost ids: set<Id>, ghost started: seq<Id>, pkgs: seq<Id>, ghost from: nat)
      returns (r: Outcome<seq<Id>>)
      requires Waiting(before, ids, started, pkgs, from) && pending != map[]
      modifies this
      ensures turn >= from && KeepsFilled(slots, before) && Bounded(handled, limit)
      ensures turn + (if r.Ok? then Budget(pending, next) else 0) <= old(turn + Budget(pending, next))
      ensures r.Ok? ==> Waiting(before, ids, started, r.value, from) && |pendingIds| < old(|pendingIds|)
      ensures r.Err? ==> PollFailed(network, from, turn) || SomeLost(network, limit, ids)
      ensures r.Panic? ==> !NoneFilled(before, ids)
    {
      DeliveredKeeps(network, limit, before, slots, ids - pendingIds);
      var one := Wait();
      if !one.Ok? { return if one.Err? then Err else Panic; }
      assert ids - pendingIds == ids - old(pendingIds) + {one.value};
      DeliveredOne(network, limit, before, old(slots), ids - old(pendingIds), one.value);
      DeliveredKeeps(network, limit, before, slots, ids - pendingIds);
      FilledOne(old(slots), pkgs, one.value, network.unpack(one.value));
      AskedMoved(pkgs, old(pendingIds), one.value);
      r := Ok(pkgs + [one.value]);
    }

    /** The second loop of `get_many`. */
    method WaitAll(started: seq<Id>) returns (r: Outcome<seq<Id>>)
      requires Valid() && AllFilled(slots, started)
      modifies this
      ensures turn >= old(turn) && KeepsFilled(slots, old(slots)) && Bounded(handled, limit)
      ensures turn <= old(turn + Budget(pending, next))
      ensures r.Ok? ==> pendingIds == {} && Delivered(network, limit, old(slots), slots, old(pendingIds))
      ensures r.Ok? ==> !PollFailed(network, old(turn), turn)
      ensures r.Ok? ==> multiset(r.value) == Asked(started, old(pendingIds)) && AllFilled(slots, r.value)
      ensures r.Err? ==> PollFailed(network, old(turn), turn) || SomeLost(network, limit, old(pendingIds))
      ensures r.Panic? ==> !NoneFilled(old(slots), old(pendingIds))
    {
      var pkgs := started;
      WaitingAtFirst(pkgs);
      var n := Remaining();
      while n > 0
        invariant Waiting(old(slots), old(pendingIds), started, pkgs, old(turn))
        invariant n == |pending| && (n == 0 <==> pendingIds == {})
        invariant turn + Budget(pending, next) <= old(turn + Budget(pending, next))
        decreases |pendingIds|
      {
        var one := WaitOne(old(slots), old(pendingIds), started, pkgs, old(turn));
        if !one.Ok? { return one; }
        pkgs := one.value;
        n := Remaining();
      }
      WaitingIsOver(old(slots), old(pendingIds), started, pkgs, old(turn));
      r := Ok(pkgs);
    }

    /** What is left of `get_many` once every package is there or being downloaded. */
    method Finish(ghost before: Slots, started: seq<Id>, ghost ids: seq<Id>, ghost answers: seq<Answer>)
      returns (r: Outcome<seq<Id>>)
      requires |answers| == |ids| && Started(before, started, ids, answers, |ids|)
      modifies this
      ensures r.Ok? <==> Fetchable(network, limit, before, ids, answers) && !PollFailed(network, old(turn), turn)
      ensures r.Panic? ==> WantedAgain(before, ids, answers, |ids|)
      ensures r.Ok? ==> multiset(r.value) == multiset(ids) && Fetched(network, before, slots, ids, answers)
      ensures KeepsFilled(slots, before) && Bounded(handled, limit) && turn <= old(turn + Budget(pending, next))
    {
      ghost var mid, queued := slots, pendingIds;
      assert ids[..|ids|] == ids;
      LostAmong(network, limit, before, mid, ids, answers, queued);
      r := WaitAll(started);
      if r.Ok? {
        AllFetched(network, limit, before, mid, slots, ids, answers, queued);
      }
    }
  }

  class PackageSet {
    /** The lazily filled slots, one for each package of the set. */
    var packages: Slots
    /** `net.retry`. */
    const retry: nat

    constructor (packages: Slots, retry: nat)
      ensures this.packages == packages && this.retry == retry
    {
      this.packages, this.retry := packages, retry;
    }

    /**
     `get_many`: it succeeds exactly if every package can be had and curl does not fail while it is waited for,
     whatever the order in which transfers complete. Then it returns each package as often as it was asked for.
     It panics only if some package that has to be downloaded is asked for again. It waits for curl `turns`
     times, at most once for each try of each package.
     */
    method GetMany(ids: seq<Id>, answers: seq<Answer>, network: Network)
      returns (r: Outcome<seq<Id>>, turns: nat, ghost handled: Counts)
      requires Honest(network) && |answers| == |ids|
      modifies this
      ensures r.Ok? <==>
        Fetchable(network, retry, old(packages), ids, answers) && !PollFailed(network, 0, turns)
      ensures r.Panic? ==> WantedAgain(old(packages), ids, answers, |ids|)
      ensures r.Ok? ==> multiset(r.value) == multiset(ids) && Fetched(network, old(packages), packages, ids, answers)
      ensures KeepsFilled(packages, old(packages)) && Bounded(handled, retry) && turns <= |ids| * (retry + 1)
    {
      var downloads := new Downloads(packages, retry, network);
      r := downloads.StartAll(ids, answers);
      if r.Ok? {
        r := downloads.Finish(packages, r.value, ids, answers);
      }
      TriesIsProduct(|ids|, retry);
      packages := downloads.slots;
      turns, handled := downloads.turn, downloads.handled;
    }
  }
}
