/**
 What the named-lock server of src/cargo/util/lockserver.rs promises over all runs: mutual
 exclusion, order of grants, no lost client, no deadlock, and an answer for every queued client.
 */
module LockRuns {
  import opened Collections
  import opened LockServer

  // ---- what holds in every run ----

  ghost predicate HoldsLock(s: State, c: Client, n: string) {
    c in s.grants && c in s.connected && c < |s.accepted| && s.accepted[c] == Some(n)
  }

  /** At most one client per name has been told it has the lock and is still connected. */
  lemma MutualExclusion(ss: seq<State>, steps: seq<Step>, i: nat, c: Client, d: Client, n: string)
    requires IsRun(ss, steps) && i <= |steps|
    requires HoldsLock(ss[i], c, n) && HoldsLock(ss[i], d, n)
    ensures c == d
  {
    RunsKeepInv(ss, steps, i);
    assert GrantInv(ss[i], c) && GrantInv(ss[i], d);
  }

  /** Clients of one name are granted the lock in the order in which the server accepted them, each at most once. */
  lemma GrantedInAcceptOrder(ss: seq<State>, steps: seq<Step>, i: nat, j: nat, k: nat)
    requires IsRun(ss, steps) && i <= |steps| && j < k < |ss[i].grants|
    ensures SameName(ss[i], ss[i].grants[j], ss[i].grants[k]) ==> ss[i].grants[j] < ss[i].grants[k]
    ensures ss[i].grants[j] != ss[i].grants[k]
  {
    RunsKeepInv(ss, steps, i);
    assert GrantInv(ss[i], ss[i].grants[j]) && GrantInv(ss[i], ss[i].grants[k]);
  }

  /**
   No client whose name was read is lost: it was served, or it waits in a queue a live worker drains, or the
   accept loop has it.
   */
  lemma NoClientIsLost(ss: seq<State>, steps: seq<Step>, i: nat, c: Client, n: string)
    requires IsRun(ss, steps) && i <= |steps| && c < |ss[i].accepted| && ss[i].accepted[c] == Some(n)
    ensures var s := ss[i];
      || (n in s.locks && c in s.locks[n].served)
      || (n in s.locks && c in s.locks[n].queue && s.locks[n].running &&
           !s.locks[n].worker.Exiting? && !s.locks[n].worker.Finished?)
      || Hand(s, n) == [c]
  {
    RunsKeepInv(ss, steps, i);
    var s := ss[i];
    assert NameInv(s, n);
    ClientsOfIsComplete(s.accepted, c, n);
    assert c in Served(s, n) || c in Queue(s, n) || c in Hand(s, n);
  }

  ghost predicate WorkerEnabled(s: State, n: string) {
    || Enabled(s, Acquire(n)) || Enabled(s, Take(n)) || Enabled(s, Write(n, true))
    || Enabled(s, Eof(n)) || Enabled(s, Exit(n))
  }

  /** A connected client that has not sent its line; it can, or can hang up. */
  ghost predicate SilentClient(s: State, c: Client) {
    c !in s.sent && Enabled(s, Disconnect(c)) && forall line :: Enabled(s, Send(c, line))
  }

  ghost predicate WaitsForClient(s: State, n: string) {
    n in s.locks && s.locks[n].worker.Granted? && s.locks[n].worker.client in s.connected
  }

  /**
   No deadlock, the join made while holding the mutex included. The accept loop can step, or it waits
   for a connected client to send its line, or for a thread that can step or that itself waits for a
   connected client to go away; and a worker that has not finished can step, or waits for such a client,
   or waits for a mutex the accept loop is about to release.
   */
  lemma NoDeadlock(ss: seq<State>, steps: seq<Step>, i: nat, n: string)
    requires IsRun(ss, steps) && i <= |steps|
    ensures var s := ss[i];
      && (s.server.Reading? ==> (exists line :: Enabled(s, Read(line))) || SilentClient(s, s.server.client))
      && (s.server.Locked? ==> Enabled(s, Decide))
      && (s.server.Joining? ==> Enabled(s, Replace) || Enabled(s, Exit(s.server.name)))
      && (s.server.Named? ==> Enabled(s, Lookup) || Enabled(s, Take(s.server.name)))
      && (s.server.Draining? && n in s.server.left ==>
           Enabled(s, JoinOne(n)) || WorkerEnabled(s, n) || WaitsForClient(s, n))
      && (n in s.locks && !s.locks[n].worker.Finished? ==>
           || WorkerEnabled(s, n) || WaitsForClient(s, n)
           || (s.server.Locked? && s.server.name == n && s.locks[n].running && Enabled(s, Decide)))
  {
    RunsKeepInv(ss, steps, i);
    var s := ss[i];
    assert NameInv(s, n);
    if s.server.Reading? {
      ReadingCanStep(s);
    } else if s.server.Locked? || s.server.Joining? || s.server.Named? {
      assert NameInv(s, s.server.name);
      ServerCanStep(s);
    }
    if n in s.locks && !s.locks[n].worker.Finished? {
      WorkerCanStep(s, n);
    }
  }

  lemma ReadingCanStep(s: State)
    requires s.server.Reading?
    ensures (exists line :: Enabled(s, Read(line))) || SilentClient(s, s.server.client)
  {
    if s.server.client in s.sent {
      assert Enabled(s, Read(s.sent[s.server.client]));
    } else if s.server.client !in s.connected {
      assert Enabled(s, Read(""));
    }
  }

  lemma ServerCanStep(s: State)
    requires (s.server.Locked? || s.server.Joining? || s.server.Named?) && NameInv(s, s.server.name)
    ensures s.server.Locked? ==> Enabled(s, Decide)
    ensures s.server.Joining? ==> Enabled(s, Replace) || Enabled(s, Exit(s.server.name))
    ensures s.server.Named? ==> Enabled(s, Lookup) || Enabled(s, Take(s.server.name))
  {
  }

  lemma WorkerCanStep(s: State, n: string)
    requires NameInv(s, n) && n in s.locks && !s.locks[n].worker.Finished?
    ensures || WorkerEnabled(s, n) || WaitsForClient(s, n)
            || (s.server.Locked? && s.server.name == n && s.locks[n].running && Enabled(s, Decide))
  {
  }

  // ---- what clients did, and what they hold ----

  /** A name the server works with is the line the client sent, unless it hung up before it sent one. */
  ghost predicate NameIsLine(s: State, c: Client) {
    c < |s.accepted| && s.accepted[c].Some? ==>
      if c in s.sent then s.accepted[c].value == s.sent[c] else c !in s.connected
  }

  ghost predicate LinesInv(s: State) {
    && (forall c :: NameIsLine(s, c))
    && (forall c :: c in s.connected || c in s.sent ==> c < |s.accepted|)
  }

  lemma StepKeepsLines(s: State, step: Step)
    requires LinesInv(s) && ReadingLast(s) && Enabled(s, step)
    ensures LinesInv(Apply(s, step))
  {
    var t := Apply(s, step);
    forall c ensures NameIsLine(t, c) {
      assert NameIsLine(s, c);
    }
  }

  /** In every state of every run the server works with the lines that were sent. */
  lemma {:induction false} NamesAreLines(ss: seq<State>, steps: seq<Step>, i: nat)
    requires IsRun(ss, steps) && i <= |steps|
    ensures LinesInv(ss[i])
  {
    if i > 0 {
      var k: nat := i - 1;
      NamesAreLines(ss, steps, k);
      RunsKeepInv(ss, steps, k);
      assert StepAt(ss, steps, k);
      StepKeepsLines(ss[k], steps[k]);
    }
  }

  ghost predicate HasSent(steps: seq<Step>, i: nat, c: Client, line: string)
    requires i <= |steps|
  {
    exists k :: 0 <= k < i && steps[k] == Send(c, line)
  }

  ghost predicate HasLeft(steps: seq<Step>, i: nat, c: Client)
    requires i <= |steps|
  {
    exists k :: 0 <= k < i && steps[k] == Disconnect(c)
  }

  /** The byte was written to `c`. */
  ghost predicate WasTold(ss: seq<State>, steps: seq<Step>, i: nat, c: Client)
    requires i <= |steps| && |ss| == |steps| + 1
  {
    exists k :: 0 <= k < i && ToldAt(ss, steps, k, c)
  }

  ghost predicate ToldAt(ss: seq<State>, steps: seq<Step>, k: nat, c: Client)
    requires k < |steps| && |ss| == |steps| + 1
  {
    && steps[k].Write? && steps[k].ok && steps[k].name in ss[k].locks
    && ss[k].locks[steps[k].name].worker == Writing(c)
  }

  /** What a state says about a client is what the client and its worker did. */
  ghost predicate Recounts(ss: seq<State>, steps: seq<Step>, i: nat, c: Client)
    requires i <= |steps| && |ss| == |steps| + 1
  {
    var s := ss[i];
    && (forall line :: (c in s.sent && s.sent[c] == line) <==> HasSent(steps, i, c, line))
    && (c in s.connected <==> c < |s.accepted| && !HasLeft(steps, i, c))
    && (HasLeft(steps, i, c) ==> c < |s.accepted|)
    && (c in s.grants <==> WasTold(ss, steps, i, c))
  }

  /** In every state of every run. */
  lemma {:induction false} StatesRecountRuns(ss: seq<State>, steps: seq<Step>, i: nat, c: Client)
    requires IsRun(ss, steps) && i <= |steps|
    ensures Recounts(ss, steps, i, c)
  {
    if i > 0 {
      var k: nat := i - 1;
      StatesRecountRuns(ss, steps, k, c);
      NamesAreLines(ss, steps, k);
      assert StepAt(ss, steps, k);
      RecountsLines(ss, steps, k, i, c);
      RecountsConnection(ss, steps, k, i, c);
      RecountsGrant(ss, steps, k, i, c);
    }
  }

  lemma RecountsLines(ss: seq<State>, steps: seq<Step>, k: nat, i: nat, c: Client)
    requires |ss| == |steps| + 1 && i == k + 1 <= |steps| && StepAt(ss, steps, k) && Recounts(ss, steps, k, c)
    ensures forall line :: (c in ss[i].sent && ss[i].sent[c] == line) <==> HasSent(steps, i, c, line)
  {
    forall line ensures HasSent(steps, i, c, line) <==> HasSent(steps, k, c, line) || steps[k] == Send(c, line) {
    }
  }

  lemma RecountsConnection(ss: seq<State>, steps: seq<Step>, k: nat, i: nat, c: Client)
    requires |ss| == |steps| + 1 && i == k + 1 <= |steps| && StepAt(ss, steps, k) && Recounts(ss, steps, k, c)
    requires LinesInv(ss[k])
    ensures c in ss[i].connected <==> c < |ss[i].accepted| && !HasLeft(steps, i, c)
    ensures HasLeft(steps, i, c) ==> c < |ss[i].accepted|
  {
    assert HasLeft(steps, i, c) <==> HasLeft(steps, k, c) || steps[k] == Disconnect(c);
  }

  lemma RecountsGrant(ss: seq<State>, steps: seq<Step>, k: nat, i: nat, c: Client)
    requires |ss| == |steps| + 1 && i == k + 1 <= |steps| && StepAt(ss, steps, k) && Recounts(ss, steps, k, c)
    ensures c in ss[i].grants <==> WasTold(ss, steps, i, c)
  {
    assert WasTold(ss, steps, i, c) <==> WasTold(ss, steps, k, c) || ToldAt(ss, steps, k, c);
  }

  /**
   Mutual exclusion in the clients' own terms: of all clients that sent the same line and have not disconnected,
   at most one has been told that it has the lock.
   */
  lemma OneHolderPerLine(ss: seq<State>, steps: seq<Step>, i: nat, c: Client, d: Client, line: string)
    requires IsRun(ss, steps) && i <= |steps|
    requires HasSent(steps, i, c, line) && !HasLeft(steps, i, c) && WasTold(ss, steps, i, c)
    requires HasSent(steps, i, d, line) && !HasLeft(steps, i, d) && WasTold(ss, steps, i, d)
    ensures c == d
  {
    GrantedKnowsLine(ss, steps, i, c, line);
    GrantedKnowsLine(ss, steps, i, d, line);
    StatesRecountRuns(ss, steps, i, c);
    StatesRecountRuns(ss, steps, i, d);
    MutualExclusion(ss, steps, i, c, d, line);
  }

  lemma GrantedKnowsLine(ss: seq<State>, steps: seq<Step>, i: nat, c: Client, line: string)
    requires IsRun(ss, steps) && i <= |steps| && HasSent(steps, i, c, line) && WasTold(ss, steps, i, c)
    ensures c in ss[i].grants && c < |ss[i].accepted| && ss[i].accepted[c] == Some(line)
  {
    StatesRecountRuns(ss, steps, i, c);
    RunsKeepInv(ss, steps, i);
    NamesAreLines(ss, steps, i);
    assert GrantInv(ss[i], c) && NameIsLine(ss[i], c);
  }

  /** And of two that sent the same line and were told, the one accepted first was told first. */
  lemma ToldInAcceptOrder(ss: seq<State>, steps: seq<Step>, i: nat, c: Client, d: Client, line: string)
    requires IsRun(ss, steps) && i <= |steps| && c < d
    requires HasSent(steps, |steps|, c, line) && WasTold(ss, steps, |steps|, c)
    requires HasSent(steps, |steps|, d, line) && WasTold(ss, steps, i, d)
    ensures WasTold(ss, steps, i, c)
  {
    GrantedKnowsLine(ss, steps, |steps|, c, line);
    assert WasTold(ss, steps, |steps|, d);
    GrantedKnowsLine(ss, steps, |steps|, d, line);
    StatesRecountRuns(ss, steps, i, c);
    StatesRecountRuns(ss, steps, i, d);
    GrantsArePrefix(ss, steps, i, |steps|);
    var s := ss[|steps|];
    var b :| 0 <= b < |ss[i].grants| && ss[i].grants[b] == d;
    assert s.grants[b] == d;
    var a :| 0 <= a < |s.grants| && s.grants[a] == c;
    if b < a {
      GrantedInAcceptOrder(ss, steps, |steps|, b, a);
    }
    assert a < |ss[i].grants| ==> ss[i].grants[a] == c;
  }

  lemma {:induction false} GrantsArePrefix(ss: seq<State>, steps: seq<Step>, i: nat, j: nat)
    requires IsRun(ss, steps) && i <= j <= |steps|
    ensures ss[i].grants <= ss[j].grants
    decreases j
  {
    if i < j {
      var k: nat := j - 1;
      GrantsArePrefix(ss, steps, i, k);
      assert StepAt(ss, steps, k);
    }
  }

  // ---- progress of a queued client ----

  ghost predicate Queued(s: State, c: Client, n: string) {
    n in s.locks && c in s.locks[n].queue
  }

  function Position(q: seq<Client>, c: Client): (p: nat)
    requires c in q
    ensures p < |q| && q[p] == c
  {
    if q[0] == c then 0 else 1 + Position(q[1..], c)
  }

  /** How many steps the worker of `n` is away from taking `c` off the queue: four per client ahead of it. */
  function Distance(s: State, c: Client, n: string): nat
    requires Queued(s, c, n)
  {
    4 * Position(s.locks[n].queue, c) +
    match s.locks[n].worker
    case Writing(_) => 3
    case Granted(_) => 2
    case AtLoop => 1
    case _ => 0
  }

  lemma {:induction false} PositionAfterPush(q: seq<Client>, c: Client, d: Client)
    requires c in q
    ensures Position(q + [d], c) == Position(q, c)
  {
    if q[0] != c {
      assert (q + [d])[1..] == q[1..] + [d];
      PositionAfterPush(q[1..], c, d);
    }
  }

  lemma IncreasingHasNoRepeats(cs: seq<Client>, a: seq<Client>, b: seq<Client>, h: seq<Client>, c: Client)
    requires cs == a + b + h && Increasing(cs)
    ensures c in b ==> c !in a
    ensures b != [] && c == b[0] ==> c !in b[1..]
  {
    forall k, l | 0 <= k < |a| && 0 <= l < |b| ensures a[k] < b[l] {
      assert cs[k] == a[k] && cs[|a| + l] == b[l];
    }
    forall k | 0 < k < |b| ensures b[0] < b[k] {
      assert cs[|a|] == b[0] && cs[|a| + k] == b[k];
    }
  }

  lemma QueuedOnce(s: State, n: string, c: Client)
    requires NameInv(s, n) && n in s.locks
    ensures c in s.locks[n].queue ==> c !in s.locks[n].served
    ensures s.locks[n].queue != [] && c == s.locks[n].queue[0] ==> c !in s.locks[n].queue[1..]
  {
    ClientsOfIsOrdered(s.accepted, n);
    IncreasingHasNoRepeats(ClientsOf(s.accepted, n), s.locks[n].served, s.locks[n].queue, Hand(s, n), c);
  }

  lemma ServedStaysServed(s: State, step: Step, c: Client, n: string)
    requires Inv(s) && Enabled(s, step) && n in s.locks && c in s.locks[n].served
    ensures var t := Apply(s, step); n in t.locks && c in t.locks[n].served && !Queued(t, c, n)
  {
    StepKeepsInv(s, step);
    assert NameInv(Apply(s, step), n);
    QueuedOnce(Apply(s, step), n, c);
  }

  lemma WorkerBringsNearer(s: State, step: Step, c: Client, n: string)
    requires NameInv(s, n) && Enabled(s, step) && Queued(s, c, n) && step.OfWorker(n)
    ensures var t := Apply(s, step);
      if Queued(t, c, n) then Distance(t, c, n) < Distance(s, c, n)
      else step == Take(n) && t.locks[n].worker == Writing(c) && c in t.locks[n].served
  {
    QueuedOnce(s, n, c);
  }

  lemma OthersDoNotDelay(s: State, step: Step, c: Client, n: string)
    requires NameInv(s, n) && Enabled(s, step) && Queued(s, c, n) && !step.OfWorker(n)
    ensures var t := Apply(s, step); Queued(t, c, n) && Distance(t, c, n) == Distance(s, c, n)
  {
    if step.Decide? && s.server.name == n {
      PositionAfterPush(s.locks[n].queue, c, s.server.client);
    }
  }

  /**
   A queued client gets nearer with every step of its worker and is never pushed back by anyone else's.
   Its worker can always step, once the accept loop is out of the way and the client being served has gone.
   */
  lemma QueuedClientAdvances(s: State, step: Step, c: Client, n: string)
    requires Inv(s) && Enabled(s, step) && Queued(s, c, n)
    ensures var t := Apply(s, step);
      if Queued(t, c, n) then Distance(t, c, n) <= Distance(s, c, n) - (if step.OfWorker(n) then 1 else 0)
      else step == Take(n) && t.locks[n].worker == Writing(c) && c in t.locks[n].served
    ensures WorkerEnabled(s, n) || WaitsForClient(s, n) || (ServerHolds(s, n) && Enabled(s, Decide))
  {
    assert NameInv(s, n);
    if step.OfWorker(n) {
      WorkerBringsNearer(s, step, c, n);
    } else {
      OthersDoNotDelay(s, step, c, n);
    }
    WorkerCanStep(s, n);
  }

  ghost predicate EarlierGone(s: State, c: Client, n: string) {
    forall d :: 0 <= d < c && d < |s.accepted| && s.accepted[d] == Some(n) ==> d !in s.connected
  }

  /**
   Once every earlier client of the name has disconnected, nothing outside the server can delay a queued
   client: its worker can step, or it waits only for the accept loop to put down the mutex, which it can do.
   */
  lemma EarlierClientsGone(s: State, c: Client, n: string)
    requires Inv(s) && Queued(s, c, n)
    requires EarlierGone(s, c, n)
    ensures WorkerEnabled(s, n) || (ServerHolds(s, n) && Enabled(s, Decide))
  {
    assert NameInv(s, n);
    if s.locks[n].worker.Granted? {
      ServedIsEarlier(s, c, n);
    }
    WorkerCanStep(s, n);
  }

  /** The client a worker serves was accepted before every client that is queued. */
  lemma ServedIsEarlier(s: State, c: Client, n: string)
    requires NameInv(s, n) && Queued(s, c, n) && s.locks[n].worker.Granted?
    ensures var d := s.locks[n].worker.client; d < c && d < |s.accepted| && s.accepted[d] == Some(n)
  {
    var cs, lock := ClientsOf(s.accepted, n), s.locks[n];
    ClientsOfIsOrdered(s.accepted, n);
    var p, q := |lock.served| - 1, |lock.served| + Position(lock.queue, c);
    assert cs[p] == lock.worker.client && cs[q] == c && cs[p] in cs;
  }

  ghost function WorkerSteps(steps: seq<Step>, n: string): nat {
    if steps == [] then 0
    else WorkerSteps(steps[..|steps| - 1], n) + (if steps[|steps| - 1].OfWorker(n) then 1 else 0)
  }

  /** The worker of `n` has taken `c` off the queue and is about to write to it. */
  predicate Answering(s: State, c: Client, n: string) {
    n in s.locks && s.locks[n].worker == Writing(c)
  }

  /**
   `c` was served, or is still queued and at most `budget - spent` steps of its worker away from it; and
   if it is about to be written to, the next step of its worker is within the budget and one more.
   */
  ghost predicate Within(s: State, c: Client, n: string, budget: nat, spent: nat) {
    && n in s.locks
    && (if Queued(s, c, n) then Distance(s, c, n) + spent <= budget else c in s.locks[n].served)
    && (Answering(s, c, n) ==> spent <= budget + 1)
  }

  lemma StepStaysWithin(s: State, step: Step, c: Client, n: string, budget: nat, spent: nat)
    requires Inv(s) && Enabled(s, step) && Within(s, c, n, budget, spent)
    ensures Within(Apply(s, step), c, n, budget, spent + (if step.OfWorker(n) then 1 else 0))
  {
    if Queued(s, c, n) {
      QueuedClientAdvances(s, step, c, n);
      StepKeepsInv(s, step);
      QueuedIsNotAnswered(Apply(s, step), c, n);
    } else {
      ServedStaysServed(s, step, c, n);
      QueuedIsNotAnswered(s, c, n);
      if Answering(Apply(s, step), c, n) {
        AnsweredOnce(s, step, c, n);
      }
    }
  }

  lemma QueuedIsNotAnswered(s: State, c: Client, n: string)
    requires Inv(s)
    ensures Queued(s, c, n) ==> !Answering(s, c, n)
  {
    assert NameInv(s, n);
    if Queued(s, c, n) {
      QueuedOnce(s, n, c);
    }
  }

  /** A client that is not queued is being answered after a step only if it was before and its worker did not step. */
  lemma AnsweredOnce(s: State, step: Step, c: Client, n: string)
    requires Inv(s) && Enabled(s, step) && !Queued(s, c, n) && Answering(Apply(s, step), c, n)
    ensures Answering(s, c, n) && !step.OfWorker(n)
  {
  }

  lemma RunStepStaysWithin(ss: seq<State>, steps: seq<Step>, j: nat, c: Client, n: string, budget: nat, spent: nat)
    requires IsRun(ss, steps) && j < |steps| && Within(ss[j], c, n, budget, spent)
    ensures Within(ss[j + 1], c, n, budget, spent + (if steps[j].OfWorker(n) then 1 else 0))
  {
    RunsKeepInv(ss, steps, j);
    assert StepAt(ss, steps, j);
    StepStaysWithin(ss[j], steps[j], c, n, budget, spent);
  }

  lemma {:induction false} RunStaysWithin(ss: seq<State>, steps: seq<Step>, i: nat, j: nat, c: Client, n: string)
    requires IsRun(ss, steps) && i <= j <= |steps| && Queued(ss[i], c, n)
    ensures Within(ss[j], c, n, Distance(ss[i], c, n), WorkerSteps(steps[i..j], n))
    decreases j
  {
    if i < j {
      RunStaysWithin(ss, steps, i, j - 1, c, n);
      OneMoreWorkerStep(steps, i, j, n);
      RunStepStaysWithin(ss, steps, j - 1, c, n, Distance(ss[i], c, n), WorkerSteps(steps[i..j - 1], n));
    }
  }

  lemma OneMoreWorkerStep(steps: seq<Step>, i: nat, j: nat, n: string)
    requires i < j <= |steps|
    ensures WorkerSteps(steps[i..j], n) == WorkerSteps(steps[i..j - 1], n) + (if steps[j - 1].OfWorker(n) then 1 else 0)
  {
    assert steps[i..j][..j - 1 - i] == steps[i..j - 1];
    assert steps[i..j][j - 1 - i] == steps[j - 1];
  }

  /**
   In every run, a client that is queued at some point is taken off the queue within `Distance` further steps
   of its worker, whatever the other threads and clients do in between; the byte is then written to it.
   */
  lemma QueuedClientIsServed(ss: seq<State>, steps: seq<Step>, i: nat, j: nat, c: Client, n: string)
    requires IsRun(ss, steps) && i <= j <= |steps| && Queued(ss[i], c, n)
    requires WorkerSteps(steps[i..j], n) > Distance(ss[i], c, n)
    ensures n in ss[j].locks && c in ss[j].locks[n].served
  {
    RunStaysWithin(ss, steps, i, j, c, n);
  }

  // ---- and of its grant ----

  ghost predicate WriteFailed(ss: seq<State>, steps: seq<Step>, k: nat, c: Client, n: string)
    requires k < |steps| && |ss| == |steps| + 1
  {
    Answering(ss[k], c, n) && steps[k] == Write(n, false)
  }

  /** By `j` the byte was written to `c`, or writing it failed. */
  ghost predicate Answered(ss: seq<State>, steps: seq<Step>, j: nat, c: Client, n: string)
    requires j <= |steps| && |ss| == |steps| + 1
  {
    c in ss[j].grants || exists k :: 0 <= k < j && WriteFailed(ss, steps, k, c, n)
  }

  lemma AnsweringEnds(s: State, step: Step, c: Client, n: string)
    requires Enabled(s, step) && Answering(s, c, n) && NameInv(s, n)
    ensures Answering(Apply(s, step), c, n) || c in Apply(s, step).grants || step == Write(n, false)
  {
  }

  lemma GrantsGrow(s: State, step: Step, c: Client)
    requires Enabled(s, step) && c in s.grants
    ensures c in Apply(s, step).grants
  {
  }

  lemma {:induction false} WaitsUntilAnswered(ss: seq<State>, steps: seq<Step>, i: nat, j: nat, c: Client, n: string)
    requires IsRun(ss, steps) && i <= j <= |steps| && Queued(ss[i], c, n)
    ensures Queued(ss[j], c, n) || Answering(ss[j], c, n) || Answered(ss, steps, j, c, n)
    decreases j
  {
    if i < j {
      var k: nat := j - 1;
      WaitsUntilAnswered(ss, steps, i, k, c, n);
      RunsKeepInv(ss, steps, k);
      assert StepAt(ss, steps, k) && NameInv(ss[k], n);
      if Queued(ss[k], c, n) {
        QueuedClientAdvances(ss[k], steps[k], c, n);
      } else if Answering(ss[k], c, n) {
        AnsweringEnds(ss[k], steps[k], c, n);
        assert steps[k] == Write(n, false) ==> WriteFailed(ss, steps, k, c, n);
      } else if c in ss[k].grants {
        GrantsGrow(ss[k], steps[k], c);
      }
    }
  }

  /** Nothing on the server's side can step for `n`. */
  ghost predicate Stalled(s: State, n: string) {
    !WorkerEnabled(s, n) && !(ServerHolds(s, n) && Enabled(s, Decide))
  }

  /**
   In every run, a client that was queued has been granted the lock, or writing to it failed, as soon as
   its worker has made two more steps than its distance, and in any case by the time nothing on the
   server's side can step although all earlier clients of the name are gone.
   */
  lemma QueuedClientIsAnswered(ss: seq<State>, steps: seq<Step>, i: nat, j: nat, c: Client, n: string)
    requires IsRun(ss, steps) && i <= j <= |steps| && Queued(ss[i], c, n)
    requires WorkerSteps(steps[i..j], n) >= Distance(ss[i], c, n) + 2 || (EarlierGone(ss[j], c, n) && Stalled(ss[j], n))
    ensures Answered(ss, steps, j, c, n)
  {
    WaitsUntilAnswered(ss, steps, i, j, c, n);
    RunStaysWithin(ss, steps, i, j, c, n);
    RunsKeepInv(ss, steps, j);
    if Queued(ss[j], c, n) && EarlierGone(ss[j], c, n) {
      EarlierClientsGone(ss[j], c, n);
    }
  }
}
