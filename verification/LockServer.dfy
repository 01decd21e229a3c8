/**
 The named-lock server of src/cargo/util/lockserver.rs as interleaved steps: one accept
 loop, one worker thread per name, and per name a mutex that guards `(running, queue)`.

 Clients are numbered in the order in which the server accepts them. A thread blocks where
 its next step is not enabled: on a mutex, on a join, or on reading a client's line or until
 its socket closes. A thread that has been joined takes no more steps and is dropped from the state.
 */
module LockServer {
  import opened Collections

  type Client = nat

  datatype Mutex = Free | HeldByServer | HeldByWorker

  /** Where a worker thread is in its loop. */
  datatype Worker =
    | AtLoop                    // about to lock the queue
    | InQueue                   // holds the queue's mutex
    | Writing(client: Client)   // took a client, about to send it the byte
    | Granted(client: Client)   // sent the byte, reading until the socket closes
    | Exiting                   // left the loop after clearing `running`
    | Finished

  /** `served` records the clients taken off the queue of this name; no step looks at it. */
  datatype Lock = Lock(running: bool, queue: seq<Client>, mutex: Mutex, worker: Worker, served: seq<Client>)

  /** Where the accept loop is. */
  datatype Server =
    | Accepting
    | Reading(client: Client)                // accepted a connection, reading its line
    | Named(client: Client, name: string)    // read the client's name
    | Locked(client: Client, name: string)   // holds the mutex of that name
    | Joining(client: Client, name: string)  // still holds it, joining the old thread
    | Draining(left: set<string>)            // left the loop, joining every thread

  /**
   `sent` holds the lines clients have sent. `accepted`, which says of each connection the name the server
   read from it, if any, and `grants` record what has happened; no step looks at them.
   */
  datatype State = State(
    server: Server,
    locks: map<string, Lock>,
    connected: set<Client>,
    sent: map<Client, string>,
    accepted: seq<Option<string>>,
    grants: seq<Client>)

  datatype Step =
    | Accept
    | Read(name: string)
    | ReadFails
    | Stop
    | Lookup
    | Decide
    | Replace
    | JoinOne(name: string)
    | Acquire(name: string)
    | Take(name: string)
    | Write(name: string, ok: bool)
    | Eof(name: string)
    | Exit(name: string)
    | Send(client: Client, line: string)
    | Disconnect(client: Client)
  {
    predicate OfWorker(n: string) {
      (Acquire? || Take? || Write? || Eof? || Exit?) && name == n
    }
  }

  function Init(): State {
    State(Accepting, map[], {}, map[], [], [])
  }

  /** The line is there to be read, or the client hung up and what it sent so far is the line. */
  predicate CanRead(s: State, name: string) {
    s.server.Reading? &&
    if s.server.client in s.sent then name == s.sent[s.server.client] else s.server.client !in s.connected
  }

  predicate Enabled(s: State, step: Step) {
    match step
    case Accept => s.server.Accepting?
    case Read(n) => CanRead(s, n)
    case ReadFails => s.server.Reading?
    case Stop => s.server.Accepting?
    case Lookup => s.server.Named? && (s.server.name in s.locks ==> s.locks[s.server.name].mutex.Free?)
    case Decide => s.server.Locked? && s.server.name in s.locks
    case Replace => s.server.Joining? && s.server.name in s.locks && s.locks[s.server.name].worker.Finished?
    case JoinOne(n) => s.server.Draining? && n in s.server.left && n in s.locks && s.locks[n].worker.Finished?
    case Acquire(n) => n in s.locks && s.locks[n].worker.AtLoop? && s.locks[n].mutex.Free?
    case Take(n) => n in s.locks && s.locks[n].worker.InQueue?
    case Write(n, _) => n in s.locks && s.locks[n].worker.Writing?
    case Eof(n) => n in s.locks && s.locks[n].worker.Granted? && s.locks[n].worker.client !in s.connected
    case Exit(n) => n in s.locks && s.locks[n].worker.Exiting?
    case Send(c, _) => c in s.connected && c !in s.sent
    case Disconnect(c) => c in s.connected
  }

  function Served(s: State, n: string): seq<Client> {
    if n in s.locks then s.locks[n].served else []
  }

  /** A new thread with its own mutex, replacing whatever was registered for the name. */
  function Spawn(s: State, c: Client, n: string): State {
    s.(server := Accepting, locks := s.locks[n := Lock(true, [c], Free, AtLoop, Served(s, n))])
  }

  function Apply(s: State, step: Step): State
    requires Enabled(s, step)
  {
    match step
    case Accept =>
      s.(server := Reading(|s.accepted|), accepted := s.accepted + [None], connected := s.connected + {|s.accepted|})
    case Read(n) =>
      var c := s.server.client;
      s.(server := Named(c, n), accepted := if c < |s.accepted| then s.accepted[c := Some(n)] else s.accepted)
    case ReadFails => s.(server := Accepting)
    case Stop => s.(server := Draining(s.locks.Keys))
    case Lookup =>
      var c, n := s.server.client, s.server.name;
      if n !in s.locks then Spawn(s, c, n)
      else s.(locks := s.locks[n := s.locks[n].(mutex := HeldByServer)], server := Locked(c, n))
    case Decide =>
      var c, n := s.server.client, s.server.name;
      var lock := s.locks[n];
      if lock.running then
        s.(locks := s.locks[n := lock.(queue := lock.queue + [c], mutex := Free)], server := Accepting)
      else s.(server := Joining(c, n))
    case Replace => Spawn(s, s.server.client, s.server.name)
    case JoinOne(n) => s.(server := Draining(s.server.left - {n}))
    case Acquire(n) => s.(locks := s.locks[n := s.locks[n].(worker := InQueue, mutex := HeldByWorker)])
    case Take(n) =>
      var lock := s.locks[n];
      var lock' :=
        if lock.queue == [] then lock.(running := false, mutex := Free, worker := Exiting)
        else lock.(queue := lock.queue[1..], mutex := Free, worker := Writing(lock.queue[0]),
                   served := lock.served + [lock.queue[0]]);
      s.(locks := s.locks[n := lock'])
    case Write(n, ok) =>
      var c := s.locks[n].worker.client;
      if ok then s.(locks := s.locks[n := s.locks[n].(worker := Granted(c))], grants := s.grants + [c])
      else s.(locks := s.locks[n := s.locks[n].(worker := AtLoop)])
    case Eof(n) => s.(locks := s.locks[n := s.locks[n].(worker := AtLoop)])
    case Exit(n) => s.(locks := s.locks[n := s.locks[n].(worker := Finished)])
    case Send(c, line) => s.(sent := s.sent[c := line])
    case Disconnect(c) => s.(connected := s.connected - {c})
  }

  ghost predicate IsRun(ss: seq<State>, steps: seq<Step>) {
    && |ss| == |steps| + 1 && ss[0] == Init()
    && forall i :: 0 <= i < |steps| ==> StepAt(ss, steps, i)
  }

  predicate StepAt(ss: seq<State>, steps: seq<Step>, i: nat)
    requires i < |steps| && |ss| == |steps| + 1
  {
    Enabled(ss[i], steps[i]) && ss[i + 1] == Apply(ss[i], steps[i])
  }

  // ---- the invariant ----

  /** The clients that asked for `n`, in the order in which they were accepted. */
  function ClientsOf(accepted: seq<Option<string>>, n: string): seq<Client> {
    if accepted == [] then []
    else
      var last := |accepted| - 1;
      ClientsOf(accepted[..last], n) + (if accepted[last] == Some(n) then [last] else [])
  }

  predicate Increasing(cs: seq<Client>) {
    forall i, j :: 0 <= i < j < |cs| ==> cs[i] < cs[j]
  }

  predicate AllAskedFor(cs: seq<Client>, accepted: seq<Option<string>>, n: string) {
    forall c :: c in cs ==> c < |accepted| && accepted[c] == Some(n)
  }

  lemma {:induction false} ClientsOfIsOrdered(accepted: seq<Option<string>>, n: string)
    ensures Increasing(ClientsOf(accepted, n)) && AllAskedFor(ClientsOf(accepted, n), accepted, n)
  {
    if accepted != [] {
      var init, cs := accepted[..|accepted| - 1], ClientsOf(accepted, n);
      ClientsOfIsOrdered(init, n);
      var before := ClientsOf(init, n);
      forall i | 0 <= i < |before| ensures before[i] < |init| && accepted[before[i]] == Some(n) {
        assert before[i] in before;
        assert init[before[i]] == accepted[before[i]];
      }
      assert Increasing(cs);
      forall c | c in cs ensures c < |accepted| && accepted[c] == Some(n) {
        if c in before {
          assert init[c] == accepted[c];
        }
      }
    }
  }

  lemma {:induction false} ClientsOfIsComplete(accepted: seq<Option<string>>, c: Client, n: string)
    requires c < |accepted| && accepted[c] == Some(n)
    ensures c in ClientsOf(accepted, n)
  {
    var last := |accepted| - 1;
    if c < last {
      ClientsOfIsComplete(accepted[..last], c, n);
    }
  }

  function Queue(s: State, n: string): seq<Client> {
    if n in s.locks then s.locks[n].queue else []
  }

  /** The client the accept loop is dealing with, if it asked for `n`. */
  function Hand(s: State, n: string): seq<Client> {
    if (s.server.Named? || s.server.Locked? || s.server.Joining?) && s.server.name == n then [s.server.client] else []
  }

  predicate ServerHolds(s: State, n: string) {
    (s.server.Locked? || s.server.Joining?) && s.server.name == n
  }

  ghost predicate LockInv(lock: Lock, held: bool) {
    && (lock.running <==> !lock.worker.Exiting? && !lock.worker.Finished?)
    && (!lock.running ==> lock.queue == [])
    && (lock.mutex.HeldByWorker? <==> lock.worker.InQueue?)
    && (lock.mutex.HeldByServer? <==> held)
    && (lock.worker.Writing? || lock.worker.Granted? ==>
         lock.served != [] && lock.worker.client == lock.served[|lock.served| - 1])
  }

  /** Every accepted client of a name was served, or is queued, or is in the accept loop's hand, in that order. */
  ghost predicate NameInv(s: State, n: string) {
    && ClientsOf(s.accepted, n) == Served(s, n) + Queue(s, n) + Hand(s, n)
    && (n in s.locks ==> LockInv(s.locks[n], ServerHolds(s, n)))
    && (ServerHolds(s, n) ==> n in s.locks)
    && (s.server.Joining? && s.server.name == n ==> n in s.locks && !s.locks[n].running)
  }

  /** A grant was made to a served client, and while that client is connected its worker waits for it. */
  ghost predicate GrantInv(s: State, g: Client) {
    && g < |s.accepted| && s.accepted[g].Some? && s.accepted[g].value in s.locks
    && var lock := s.locks[s.accepted[g].value];
    && g in lock.served
    && (g in s.connected ==> lock.worker == Granted(g))
    && (lock.worker.Writing? ==> g < lock.worker.client)
  }

  predicate SameName(s: State, c: Client, d: Client) {
    c < |s.accepted| && d < |s.accepted| && s.accepted[c] == s.accepted[d]
  }

  ghost predicate GrantsInOrder(s: State) {
    forall i, j :: 0 <= i < j < |s.grants| && SameName(s, s.grants[i], s.grants[j]) ==> s.grants[i] < s.grants[j]
  }

  /** The connection whose line is being read is the latest one, and its name is not known yet. */
  predicate ReadingLast(s: State) {
    s.server.Reading? ==> s.accepted != [] && s.server.client == |s.accepted| - 1 && s.accepted[s.server.client].None?
  }

  ghost predicate Inv(s: State) {
    && (forall n :: NameInv(s, n))
    && (forall g :: g in s.grants ==> GrantInv(s, g))
    && GrantsInOrder(s)
    && (s.server.Draining? ==> s.server.left <= s.locks.Keys)
    && ReadingLast(s)
    && (forall c :: c in s.connected ==> c < |s.accepted|)
  }

  lemma ServerStepKeepsInv(s: State, step: Step)
    requires Inv(s) && Enabled(s, step) && (step.Lookup? || step.Decide? || step.Replace?)
    ensures Inv(Apply(s, step))
  {
    var t := Apply(s, step);
    assert NameInv(s, s.server.name);
    forall m ensures NameInv(t, m) {
      assert NameInv(s, m);
      ServerStepKeepsName(s, step, m);
    }
    forall g | g in t.grants ensures GrantInv(t, g) {
      assert GrantInv(s, g);
    }
    SameGrants(s, t);
  }

  lemma ServerStepKeepsName(s: State, step: Step, m: string)
    requires NameInv(s, m) && Enabled(s, step) && (step.Lookup? || step.Decide? || step.Replace?)
    requires NameInv(s, s.server.name)
    ensures NameInv(Apply(s, step), m)
  {
    match step {
      case Lookup => LookupKeepsName(s, m);
      case Decide => DecideKeepsName(s, m);
      case Replace => ReplaceKeepsName(s, m);
    }
  }

  lemma LookupKeepsName(s: State, m: string)
    requires NameInv(s, m) && Enabled(s, Lookup)
    ensures NameInv(Apply(s, Lookup), m)
  {
    if s.server.name !in s.locks {
      SpawnKeepsName(s, m);
    } else {
      LockingKeepsName(s, m);
    }
  }

  lemma SpawnKeepsName(s: State, m: string)
    requires NameInv(s, m) && s.server.Named? && s.server.name !in s.locks
    ensures NameInv(Spawn(s, s.server.client, s.server.name), m)
  {
    if m == s.server.name {
      var c := s.server.client;
      assert [] + [] + [c] == [] + [c] + [];
    }
  }

  lemma LockingKeepsName(s: State, m: string)
    requires NameInv(s, m) && Enabled(s, Lookup) && s.server.name in s.locks
    ensures NameInv(Apply(s, Lookup), m)
  {
    var t := Apply(s, Lookup);
    assert Served(t, m) == Served(s, m) && Queue(t, m) == Queue(s, m) && Hand(t, m) == Hand(s, m);
  }

  lemma DecideKeepsName(s: State, m: string)
    requires NameInv(s, m) && Enabled(s, Decide)
    ensures NameInv(Apply(s, Decide), m)
  {
    var lock, c := s.locks[s.server.name], s.server.client;
    assert lock.served + lock.queue + [c] == lock.served + (lock.queue + [c]) + [];
  }

  lemma ReplaceKeepsName(s: State, m: string)
    requires NameInv(s, m) && Enabled(s, Replace)
    ensures NameInv(Apply(s, Replace), m)
  {
    var lock, c := s.locks[s.server.name], s.server.client;
    assert lock.served + [] + [c] == lock.served + [c] + [];
  }

  lemma SameGrants(s: State, t: State)
    requires GrantsInOrder(s) && t.grants == s.grants && t.accepted == s.accepted
    ensures GrantsInOrder(t)
  {
    forall i, j | 0 <= i < j < |t.grants| && SameName(t, t.grants[i], t.grants[j]) ensures t.grants[i] < t.grants[j] {
      assert SameName(s, s.grants[i], s.grants[j]);
    }
  }

  lemma AcceptKeepsInv(s: State)
    requires Inv(s) && Enabled(s, Accept)
    ensures Inv(Apply(s, Accept))
  {
    var t := Apply(s, Accept);
    assert t.accepted[..|s.accepted|] == s.accepted;
    forall m ensures NameInv(t, m) {
      assert NameInv(s, m);
      AcceptKeepsName(s, m);
    }
    GrantsStay(s, t);
  }

  lemma AcceptKeepsName(s: State, m: string)
    requires NameInv(s, m) && Enabled(s, Accept)
    ensures NameInv(Apply(s, Accept), m)
  {
    var t := Apply(s, Accept);
    assert t.accepted[..|s.accepted|] == s.accepted;
    assert ClientsOf(t.accepted, m) == ClientsOf(s.accepted, m) + [];
  }

  /** Names that were read stay, so what is known about grants stays. */
  lemma GrantsStay(s: State, t: State)
    requires Inv(s) && t.grants == s.grants && t.locks == s.locks && t.connected <= s.connected + {|s.accepted|}
    requires |s.accepted| <= |t.accepted|
    requires forall g :: 0 <= g < |s.accepted| && s.accepted[g].Some? ==> t.accepted[g] == s.accepted[g]
    ensures (forall g :: g in t.grants ==> GrantInv(t, g)) && GrantsInOrder(t)
  {
    forall g | g in t.grants ensures GrantInv(t, g) {
      assert GrantInv(s, g);
    }
    forall i, j | 0 <= i < j < |t.grants| && SameName(t, t.grants[i], t.grants[j]) ensures t.grants[i] < t.grants[j] {
      assert GrantInv(s, s.grants[i]) && GrantInv(s, s.grants[j]);
      assert SameName(s, s.grants[i], s.grants[j]);
    }
  }

  lemma ReadKeepsInv(s: State, n: string)
    requires Inv(s) && Enabled(s, Read(n))
    ensures Inv(Apply(s, Read(n)))
  {
    var t := Apply(s, Read(n));
    forall m ensures NameInv(t, m) {
      assert NameInv(s, m);
      ReadKeepsName(s, n, m);
    }
    GrantsStay(s, t);
  }

  lemma ReadKeepsName(s: State, n: string, m: string)
    requires NameInv(s, m) && ReadingLast(s) && Enabled(s, Read(n))
    ensures NameInv(Apply(s, Read(n)), m)
  {
    var t := Apply(s, Read(n));
    ClientsOfRead(s.accepted, n, m);
    assert Hand(s, m) == [] && Served(s, m) + Queue(s, m) + [] == Served(s, m) + Queue(s, m);
    assert Served(t, m) == Served(s, m) && Queue(t, m) == Queue(s, m);
  }

  lemma ClientsOfRead(accepted: seq<Option<string>>, n: string, m: string)
    requires accepted != [] && accepted[|accepted| - 1].None?
    ensures ClientsOf(accepted[|accepted| - 1 := Some(n)], m) ==
      ClientsOf(accepted, m) + if n == m then [|accepted| - 1] else []
  {
    var last := |accepted| - 1;
    assert accepted[last := Some(n)][..last] == accepted[..last];
    assert ClientsOf(accepted, m) == ClientsOf(accepted[..last], m) + [];
  }

  predicate IsQuiet(step: Step) {
    || step.Acquire? || step.Eof? || step.Exit? || step.Stop? || step.JoinOne?
    || step.ReadFails? || step.Send? || step.Disconnect?
  }

  lemma QuietStepKeepsInv(s: State, step: Step)
    requires Inv(s) && Enabled(s, step) && IsQuiet(step)
    ensures Inv(Apply(s, step))
  {
    var t := Apply(s, step);
    forall m ensures NameInv(t, m) {
      assert NameInv(s, m);
      QuietStepKeepsName(s, step, m);
    }
    forall g | g in t.grants ensures GrantInv(t, g) {
      assert GrantInv(s, g);
    }
    SameGrants(s, t);
  }

  lemma QuietStepKeepsName(s: State, step: Step, m: string)
    requires NameInv(s, m) && Enabled(s, step) && IsQuiet(step)
    ensures NameInv(Apply(s, step), m)
  {
    if step.Acquire? {
      AcquireKeepsName(s, step.name, m);
    } else if step.Eof? {
      EofKeepsName(s, step.name, m);
    } else if step.Exit? {
      ExitKeepsName(s, step.name, m);
    } else {
      SameLocksKeepName(s, Apply(s, step), m);
    }
  }

  /** A step of the accept loop or a client that touches no lock and leaves no client in the loop's hand. */
  lemma SameLocksKeepName(s: State, t: State, m: string)
    requires NameInv(s, m) && t.locks == s.locks && t.accepted == s.accepted
    requires t.server != s.server ==>
      Hand(s, m) == [] && !ServerHolds(s, m) && (t.server.Accepting? || t.server.Draining?)
    ensures NameInv(t, m)
  {
  }

  lemma AcquireKeepsName(s: State, n: string, m: string)
    requires NameInv(s, m) && Enabled(s, Acquire(n))
    ensures NameInv(Apply(s, Acquire(n)), m)
  {
  }

  lemma EofKeepsName(s: State, n: string, m: string)
    requires NameInv(s, m) && Enabled(s, Eof(n))
    ensures NameInv(Apply(s, Eof(n)), m)
  {
  }

  lemma ExitKeepsName(s: State, n: string, m: string)
    requires NameInv(s, m) && Enabled(s, Exit(n))
    ensures NameInv(Apply(s, Exit(n)), m)
  {
  }

  lemma ServedBeforeQueued(s: State, n: string, g: Client)
    requires NameInv(s, n) && n in s.locks && s.locks[n].queue != [] && g in s.locks[n].served
    ensures g < s.locks[n].queue[0]
  {
    var cs, served := ClientsOf(s.accepted, n), s.locks[n].served;
    ClientsOfIsOrdered(s.accepted, n);
    var k :| 0 <= k < |served| && served[k] == g;
    assert cs[k] == g && cs[|served|] == s.locks[n].queue[0];
  }

  lemma TakeKeepsName(s: State, n: string, m: string)
    requires NameInv(s, n) && NameInv(s, m) && Enabled(s, Take(n))
    ensures NameInv(Apply(s, Take(n)), m)
  {
    if m == n {
      var lock, lock' := s.locks[n], Apply(s, Take(n)).locks[n];
      assert lock.served + lock.queue + Hand(s, n) == lock'.served + lock'.queue + Hand(s, n);
    }
  }

  lemma TakeKeepsInv(s: State, n: string)
    requires Inv(s) && Enabled(s, Take(n))
    ensures Inv(Apply(s, Take(n)))
  {
    var t := Apply(s, Take(n));
    var lock := s.locks[n];
    forall m ensures NameInv(t, m) {
      TakeKeepsName(s, n, m);
    }
    forall g | g in t.grants ensures GrantInv(t, g) {
      assert GrantInv(s, g);
      if s.accepted[g] == Some(n) && lock.queue != [] {
        ServedBeforeQueued(s, n, g);
      }
    }
    SameGrants(s, t);
  }

  lemma WriteKeepsName(s: State, n: string, ok: bool, m: string)
    requires NameInv(s, m) && Enabled(s, Write(n, ok))
    ensures NameInv(Apply(s, Write(n, ok)), m)
  {
  }

  lemma WriteKeepsInv(s: State, n: string, ok: bool)
    requires Inv(s) && Enabled(s, Write(n, ok))
    ensures Inv(Apply(s, Write(n, ok)))
  {
    var t := Apply(s, Write(n, ok));
    var lock := s.locks[n];
    var c := lock.worker.client;
    assert NameInv(s, n);
    forall m ensures NameInv(t, m) {
      assert NameInv(s, m);
      WriteKeepsName(s, n, ok, m);
    }
    ClientsOfIsOrdered(s.accepted, n);
    assert ClientsOf(s.accepted, n)[|lock.served| - 1] == c;
    forall g | g in t.grants ensures GrantInv(t, g) {
      if g in s.grants {
        assert GrantInv(s, g);
      }
    }
    forall a, b | 0 <= a < b < |t.grants| && SameName(t, t.grants[a], t.grants[b]) ensures t.grants[a] < t.grants[b] {
      assert GrantInv(s, s.grants[a]);
      if b < |s.grants| {
        assert SameName(s, s.grants[a], s.grants[b]);
      }
    }
  }

  lemma StepKeepsInv(s: State, step: Step)
    requires Inv(s) && Enabled(s, step)
    ensures Inv(Apply(s, step))
  {
    match step {
      case Accept => AcceptKeepsInv(s);
      case Read(n) => ReadKeepsInv(s, n);
      case Lookup => ServerStepKeepsInv(s, step);
      case Decide => ServerStepKeepsInv(s, step);
      case Replace => ServerStepKeepsInv(s, step);
      case Take(n) => TakeKeepsInv(s, n);
      case Write(n, ok) => WriteKeepsInv(s, n, ok);
      case _ => QuietStepKeepsInv(s, step);
    }
  }

  lemma {:induction false} RunsKeepInv(ss: seq<State>, steps: seq<Step>, n: nat)
    requires IsRun(ss, steps) && n <= |steps|
    ensures Inv(ss[n])
  {
    if n > 0 {
      RunsKeepInv(ss, steps, n - 1);
      assert StepAt(ss, steps, n - 1);
      StepKeepsInv(ss[n - 1], steps[n - 1]);
    }
  }
}
