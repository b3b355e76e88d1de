/** Exactly when the replication queue keeps the order of acceptance over working links.

    A node has at most one replica, so a task asks at most one. A DELETE that finds its
    key absent fails, is retried behind whatever was enqueued meanwhile, and then removes
    the key for good: the order is kept in every run exactly when the ordered outcome
    holds no key that such a DELETE names. */
module QueueOrder {
  import opened Bytes
  import opened Identifiers
  import opened KeyTransfer
  import opened ReplicationQueue

  // ---------------------------------------------------------------- one cell

  predicate AsksOne(c: Config, task: Task) {
    Required(c, task) <= 1
  }

  /** The task is sent to replica `id` and is about `key`. */
  predicate Hits(c: Config, task: Task, id: Id, key: Key) {
    && Required(c, task) >= 1 && task.key == key
    && Reachable(task.replicas[0]) && task.replicas[0].value.id == id
  }

  lemma {:induction false} UpMeansUp(stores: Stores, task: Task, i: nat, net: nat -> Link)
    requires i <= |task.replicas| && AllUp(net)
    ensures SendFirst(stores, task, i, net) == SendFirst(stores, task, i, _ => Acknowledged)
  {
    if i > 0 {
      UpMeansUp(stores, task, i - 1, net);
      assert net(i - 1) == Acknowledged;
    }
  }

  lemma AttemptPerforms(c: Config, stores: Stores, task: Task, net: nat -> Link)
    requires AllUp(net)
    ensures Attempt(c, stores, task, net) == (Perform(c, stores, task), Smooth(c, stores, task))
  {
    AttemptSucceedsIff(c, stores, task, net);
    if Required(c, task) > 0 { UpMeansUp(stores, task, Required(c, task), net); }
  }

  /** What a task does, cell by cell. */
  lemma PerformCell(c: Config, stores: Stores, task: Task, id: Id, key: Key)
    requires AsksOne(c, task)
    ensures Cell(Perform(c, stores, task), id, key) ==
              if Hits(c, task, id, key) then Outcome(task) else Cell(stores, id, key)
    ensures Perform(c, stores, task).Keys ==
              stores.Keys +
              if Required(c, task) >= 1 && Reachable(task.replicas[0]) then {task.replicas[0].value.id} else {}
  {
    if Required(c, task) == 1 {
      assert SendFirst(stores, task, 0, _ => Acknowledged) == (stores, 0);
      assert SendFirst(stores, task, 1, _ => Acknowledged).0 ==
               if Reachable(task.replicas[0]) then Apply(stores, task.replicas[0].value.id, task) else stores;
    }
  }

  /** When it fails: its replica has no address, or it is a DELETE of an absent key. */
  lemma SmoothCell(c: Config, stores: Stores, task: Task)
    requires AsksOne(c, task)
    ensures Smooth(c, stores, task) <==>
              (Required(c, task) >= 1 ==>
                 Reachable(task.replicas[0]) &&
                 (task.kind.Delete? ==> Cell(stores, task.replicas[0].value.id, task.key).Some?))
  {
    assert !(Required(c, task) >= 1) || (Welcome(stores, task, 0) <==>
      Reachable(task.replicas[0]) && (task.kind.Delete? ==> Cell(stores, task.replicas[0].value.id, task.key).Some?));
  }

  /** A DELETE of `key` at `id` that finds the key absent when its turn comes in order. */
  predicate Futile(c: Config, stores: Stores, tasks: seq<Task>, i: nat, id: Id, key: Key) {
    && i < |tasks| && tasks[i].kind.Delete? && Hits(c, tasks[i], id, key)
    && Cell(PerformAll(c, stores, tasks[..i]), id, key).None?
  }

  /** A futile DELETE whose key the ordered outcome holds: some later PUT wrote it. */
  ghost predicate Endangered(c: Config, stores: Stores, tasks: seq<Task>, id: Id, key: Key) {
    && (exists i: nat :: Futile(c, stores, tasks, i, id, key))
    && Cell(PerformAll(c, stores, tasks), id, key).Some?
  }

  ghost predicate AllAskOne(c: Config, tasks: seq<Task>) {
    forall i :: 0 <= i < |tasks| ==> AsksOne(c, tasks[i])
  }

  lemma OneMorePerformed(c: Config, stores: Stores, tasks: seq<Task>, i: nat)
    requires i < |tasks|
    ensures PerformAll(c, stores, tasks[..i + 1]) == Perform(c, PerformAll(c, stores, tasks[..i]), tasks[i])
  {
    assert tasks[..i + 1][..i] == tasks[..i];
  }

  /** In order, the last task that hits a cell decides it. */
  lemma {:induction false} LastHit(c: Config, stores: Stores, tasks: seq<Task>, id: Id, key: Key, i: nat)
      returns (last: nat)
    requires AllAskOne(c, tasks) && i < |tasks| && Hits(c, tasks[i], id, key)
    ensures i <= last < |tasks| && Hits(c, tasks[last], id, key)
    ensures forall k :: last < k < |tasks| ==> !Hits(c, tasks[k], id, key)
    ensures Cell(PerformAll(c, stores, tasks), id, key) == Outcome(tasks[last])
  {
    hide Hits, Cell, Perform;
    var k := |tasks| - 1;
    PerformCell(c, PerformAll(c, stores, tasks[..k]), tasks[k], id, key);
    if Hits(c, tasks[k], id, key) {
      last := k;
    } else {
      last := LastHit(c, stores, tasks[..k], id, key, i);
    }
  }

  // ---------------------------------------------------------------- which tasks are still to be tried

  function Fresh(tasks: seq<Task>): seq<Task> {
    if tasks == [] then []
    else Fresh(tasks[..|tasks| - 1]) + (if tasks[|tasks| - 1].retryCount == 0 then [tasks[|tasks| - 1]] else [])
  }

  /** Accepted tasks whose first attempt lies ahead. */
  function Waiting(s: State): seq<Task> {
    (if s.worker.Holding? && s.worker.task.retryCount == 0 then [s.worker.task] else []) + Fresh(s.pending)
  }

  function Begun(s: State): int { |s.accepted| - |Waiting(s)| }

  lemma FreshOfBack(tasks: seq<Task>, task: Task)
    ensures Fresh(tasks + [task]) == Fresh(tasks) + if task.retryCount == 0 then [task] else []
  {
    assert (tasks + [task])[..|tasks|] == tasks;
  }

  lemma {:induction false} FreshOfFront(tasks: seq<Task>)
    requires tasks != []
    ensures Fresh(tasks) == (if tasks[0].retryCount == 0 then [tasks[0]] else []) + Fresh(tasks[1..])
  {
    if |tasks| > 1 {
      hide Fresh;
      var init, last := tasks[..|tasks| - 1], tasks[|tasks| - 1];
      FreshOfFront(init);
      assert tasks == init + [last] && tasks[1..] == init[1..] + [last];
      FreshOfBack(init, last);
      FreshOfBack(init[1..], last);
    } else {
      assert tasks == [] + [tasks[0]] && tasks[1..] == [];
      FreshOfBack([], tasks[0]);
    }
  }

  /** First attempts begin in the order of acceptance. */
  lemma WaitingStep(c: Config, s: State, e: Event)
    requires Enabled(s, e)
    ensures var w, s' := Waiting(s), Do(c, s, e);
            match e
            case Enqueue(_, _, _) => Waiting(s') == w + [s'.accepted[|s.accepted|]]
            case Send(_) =>
              if s.worker.task.retryCount == 0
              then w != [] && w[0] == s.worker.task && Waiting(s') == w[1..]
              else Waiting(s') == w
            case _ => Waiting(s') == w
  {
    hide Attempt;
    match e
    case Enqueue(_, _, _) => FreshOfBack(s.pending, Do(c, s, e).accepted[|s.accepted|]);
    case TakeFront => FreshOfFront(s.pending);
    case Send(_) =>
    case Settle => FreshOfBack(s.pending, s.worker.task.(retryCount := s.worker.task.retryCount + 1));
  }

  ghost predicate InLine(s: State) {
    0 <= Begun(s) && Waiting(s) == s.accepted[Begun(s)..]
  }

  lemma InLineStep(c: Config, s: State, e: Event)
    requires InLine(s) && Enabled(s, e)
    ensures var s' := Do(c, s, e);
            && InLine(s') && s.accepted <= s'.accepted
            && (if e.Send? && s.worker.task.retryCount == 0
                then Begun(s') == Begun(s) + 1 && 0 <= Begun(s) < |s.accepted| && s.worker.task == s.accepted[Begun(s)]
                else Begun(s') == Begun(s))
  {
    WaitingStep(c, s, e);
    AcceptedGrows(c, s, e);
    hide Attempt, Waiting;
  }

  // ---------------------------------------------------------------- what a retry can do

  /** A task that was tried before and, if it does anything, deletes. */
  ghost predicate Harmless(c: Config, s: State, task: Task) {
    task.ticket < Begun(s) && (Required(c, task) >= 1 && Reachable(task.replicas[0]) ==> task.kind.Delete?)
  }

  ghost predicate Tame(c: Config, s: State) {
    && (forall i {:trigger s.pending[i]} :: 0 <= i < |s.pending| && s.pending[i].retryCount > 0 ==>
        Harmless(c, s, s.pending[i]))
    && (s.worker.Holding? && s.worker.task.retryCount > 0 ==> Harmless(c, s, s.worker.task))
    && (s.worker.Tried? && !s.worker.ok ==> Harmless(c, s, s.worker.task))
  }

  lemma HeldAsksOne(c: Config, s: State)
    requires Inv(c, s) && AllAskOne(c, s.accepted) && s.worker.Holding?
    ensures AsksOne(c, s.worker.task) && s.worker.task.ticket < |s.accepted|
    ensures s.worker.task == s.accepted[s.worker.task.ticket].(retryCount := s.worker.task.retryCount)
  {
    hide Conserved, Bounded;
  }

  /** A send over working links. */
  lemma SendIs(c: Config, s: State, e: Event)
    requires Inv(c, s) && AllAskOne(c, s.accepted) && Enabled(s, e) && e.Send? && AllUp(e.net)
    ensures Do(c, s, e).stores == Perform(c, s.stores, s.worker.task)
    ensures Do(c, s, e).worker == Tried(s.worker.task, Smooth(c, s.stores, s.worker.task))
    ensures var task := s.worker.task;
            !Smooth(c, s.stores, task) && Required(c, task) >= 1 && Reachable(task.replicas[0]) ==>
              task.kind.Delete? && Cell(s.stores, task.replicas[0].value.id, task.key).None?
  {
    hide Perform, Smooth, Inv, AllUp, Cell;
    AttemptPerforms(c, s.stores, s.worker.task, e.net);
    HeldAsksOne(c, s);
    SmoothCell(c, s.stores, s.worker.task);
    hide Attempt;
  }

  lemma AcceptedNumbered(c: Config, s: State, task: Task)
    requires Inv(c, s)
    ensures forall i :: 0 <= i < |s.accepted| && s.accepted[i] == task ==> task.ticket == i
  {
    hide Counted, Bounded;
  }

  lemma TameStep(c: Config, s: State, e: Event)
    requires Inv(c, s) && InLine(s) && Tame(c, s) && AllAskOne(c, s.accepted)
    requires Enabled(s, e) && (e.Send? ==> AllUp(e.net))
    ensures Tame(c, Do(c, s, e))
  {
    hide Perform, Smooth, AllUp, Attempt, Cell, InLine, Waiting, Inv, Begun;
    var s' := Do(c, s, e);
    InLineStep(c, s, e);
    if e.Send? {
      SendIs(c, s, e);
      AcceptedNumbered(c, s, s.worker.task);
    }
    if e.TakeFront? { assert s.pending[0].retryCount > 0 ==> Harmless(c, s, s.pending[0]); }
    forall i | 0 <= i < |s'.pending| && s'.pending[i].retryCount > 0 ensures Harmless(c, s', s'.pending[i]) {
      match e
      case TakeFront => assert s'.pending[i] == s.pending[i + 1];
      case _ => assert i < |s.pending| ==> s'.pending[i] == s.pending[i];
    }
  }

  // ---------------------------------------------------------------- cells without futile deletes

  ghost predicate Calm(c: Config, stores: Stores, tasks: seq<Task>, id: Id, key: Key) {
    c.maxRetries <= 0 || forall i: nat :: !Futile(c, stores, tasks, i, id, key)
  }

  /** Nothing about the cell is retried, and it holds what the tasks begun so far leave in it. */
  ghost predicate Quiet(c: Config, stores: Stores, s: State, id: Id, key: Key)
    requires InLine(s)
  {
    && Cell(s.stores, id, key) == Cell(PerformAll(c, stores, s.accepted[..Begun(s)]), id, key)
    && (forall i {:trigger s.pending[i]} :: 0 <= i < |s.pending| && s.pending[i].retryCount > 0 ==>
        !Hits(c, s.pending[i], id, key))
    && (s.worker.Holding? && s.worker.task.retryCount > 0 ==> !Hits(c, s.worker.task, id, key))
    && (s.worker.Tried? && !s.worker.ok && Hits(c, s.worker.task, id, key) ==> c.maxRetries <= 0)
  }

  lemma SamePrefix(tasks: seq<Task>, tasks': seq<Task>, k: nat)
    requires tasks <= tasks' && k <= |tasks|
    ensures tasks'[..k] == tasks[..k]
  {
  }

  lemma QuietSend(c: Config, stores: Stores, tasks: seq<Task>, s: State, e: Event, id: Id, key: Key)
    requires Inv(c, s) && InLine(s) && AllAskOne(c, s.accepted) && Quiet(c, stores, s, id, key)
    requires Enabled(s, e) && e.Send? && AllUp(e.net) && s.accepted <= tasks && Calm(c, stores, tasks, id, key)
    ensures InLine(Do(c, s, e)) && Quiet(c, stores, Do(c, s, e), id, key)
  {
    hide Perform, PerformAll, Smooth, AllUp, Attempt, Inv, Waiting, Begun, Cell, InLine;
    var s', task, k := Do(c, s, e), s.worker.task, Begun(s);
    InLineStep(c, s, e);
    SendIs(c, s, e);
    HeldAsksOne(c, s);
    PerformCell(c, s.stores, task, id, key);
    assert s'.pending == s.pending && s'.accepted == s.accepted;
    if task.retryCount == 0 {
      OneMorePerformed(c, stores, s.accepted, k);
      PerformCell(c, PerformAll(c, stores, s.accepted[..k]), task, id, key);
      SamePrefix(s.accepted, tasks, k);
      if !s'.worker.ok && Hits(c, task, id, key) {
        assert tasks[k] == task;
        assert Futile(c, stores, tasks, k, id, key);
      }
    }
  }

  lemma QuietStep(c: Config, stores: Stores, tasks: seq<Task>, s: State, e: Event, id: Id, key: Key)
    requires Inv(c, s) && InLine(s) && AllAskOne(c, s.accepted) && Quiet(c, stores, s, id, key)
    requires Enabled(s, e) && (e.Send? ==> AllUp(e.net)) && Do(c, s, e).accepted <= tasks
        && Calm(c, stores, tasks, id, key)
    ensures InLine(Do(c, s, e)) && Quiet(c, stores, Do(c, s, e), id, key)
  {
    hide Perform, PerformAll, Smooth, AllUp, Attempt, Inv, Waiting, Begun, Cell, InLine, Calm;
    var s' := Do(c, s, e);
    InLineStep(c, s, e);
    InLineBounds(s);
    if e.Send? {
      QuietSend(c, stores, tasks, s, e, id, key);
    } else {
      SamePrefix(s.accepted, s'.accepted, Begun(s));
      if e.TakeFront? { assert s.pending[0].retryCount > 0 ==> !Hits(c, s.pending[0], id, key); }
      forall i | 0 <= i < |s'.pending| && s'.pending[i].retryCount > 0 ensures !Hits(c, s'.pending[i], id, key) {
        match e
        case TakeFront => assert s'.pending[i] == s.pending[i + 1];
        case _ => assert i < |s.pending| ==> s'.pending[i] == s.pending[i];
      }
    }
  }

  lemma InLineBounds(s: State)
    requires InLine(s)
    ensures 0 <= Begun(s) <= |s.accepted|
  {
  }

  // ---------------------------------------------------------------- cells deleted last

  /** Task `last` is a DELETE and no later one hits the cell. */
  ghost predicate DeletedLast(c: Config, tasks: seq<Task>, id: Id, key: Key, last: nat) {
    && last < |tasks| && tasks[last].kind.Delete? && Hits(c, tasks[last], id, key)
    && forall k :: last < k < |tasks| ==> !Hits(c, tasks[k], id, key)
  }

  lemma BuriedStep(c: Config, tasks: seq<Task>, s: State, e: Event, id: Id, key: Key, last: nat)
    requires Inv(c, s) && InLine(s) && Tame(c, s) && AllAskOne(c, s.accepted) && DeletedLast(c, tasks, id, key, last)
    requires Enabled(s, e) && (e.Send? ==> AllUp(e.net)) && Do(c, s, e).accepted <= tasks
    requires Begun(s) > last ==> Cell(s.stores, id, key).None?
    ensures Begun(Do(c, s, e)) > last ==> Cell(Do(c, s, e).stores, id, key).None?
  {
    hide Perform, Smooth, AllUp, Attempt, Inv, Waiting, Begun, Cell, InLine;
    InLineStep(c, s, e);
    if e.Send? {
      SendIs(c, s, e);
      HeldAsksOne(c, s);
      PerformCell(c, s.stores, s.worker.task, id, key);
      if s.worker.task.retryCount == 0 { assert tasks[Begun(s)] == s.worker.task; }
    }
  }

  // ---------------------------------------------------------------- the replicas known

  lemma {:induction false} TouchedStays(c: Config, stores: Stores, tasks: seq<Task>, t: nat)
    requires AllAskOne(c, tasks) && t < |tasks| && Required(c, tasks[t]) >= 1 && Reachable(tasks[t].replicas[0])
    ensures tasks[t].replicas[0].value.id in PerformAll(c, stores, tasks).Keys
  {
    hide Perform;
    var k := |tasks| - 1;
    PerformCell(c, PerformAll(c, stores, tasks[..k]), tasks[k], 0, tasks[k].key);
    if t < k { TouchedStays(c, stores, tasks[..k], t); }
  }

  ghost predicate SameReplicas(c: Config, stores: Stores, s: State)
    requires InLine(s)
  {
    s.stores.Keys == PerformAll(c, stores, s.accepted[..Begun(s)]).Keys
  }

  lemma SameReplicasStep(c: Config, stores: Stores, s: State, e: Event)
    requires Inv(c, s) && InLine(s) && Tame(c, s) && AllAskOne(c, s.accepted) && SameReplicas(c, stores, s)
    requires Enabled(s, e) && (e.Send? ==> AllUp(e.net))
    ensures InLine(Do(c, s, e)) && SameReplicas(c, stores, Do(c, s, e))
  {
    hide Perform, PerformAll, Smooth, AllUp, Attempt, Inv, Waiting, Begun, InLine;
    InLineStep(c, s, e);
    InLineBounds(s);
    var s', k := Do(c, s, e), Begun(s);
    SamePrefix(s.accepted, s'.accepted, k);
    if e.Send? {
      var task := s.worker.task;
      SendIs(c, s, e);
      HeldAsksOne(c, s);
      PerformCell(c, s.stores, task, 0, task.key);
      assert s'.accepted == s.accepted;
      if task.retryCount == 0 {
        OneMorePerformed(c, stores, s.accepted, k);
        PerformCell(c, PerformAll(c, stores, s.accepted[..k]), task, 0, task.key);
      } else if Required(c, task) >= 1 && Reachable(task.replicas[0]) {
        assert s.accepted[..k][task.ticket] == s.accepted[task.ticket];
        TouchedStays(c, stores, s.accepted[..k], task.ticket);
      }
    }
  }

  // ---------------------------------------------------------------- along a run

  /** A run over working links in which producers enqueued `tasks` and the queue drained. */
  ghost predicate Complete(c: Config, stores: Stores, tasks: seq<Task>, states: seq<State>) {
    && IsWorkingRun(c, states) && states[0] == Initial(stores)
    && Drained(states[|states| - 1]) && states[|states| - 1].accepted == tasks
  }

  ghost predicate Sound(c: Config, stores: Stores, s: State) {
    Inv(c, s) && InLine(s) && Tame(c, s) && SameReplicas(c, stores, s)
  }

  lemma SoundInitially(c: Config, stores: Stores)
    ensures Sound(c, stores, Initial(stores))
  {
    var s := Initial(stores);
    assert Waiting(s) == [] && s.accepted[..0] == [];
    assert PerformAll(c, stores, []) == stores;
  }

  lemma SoundStep(c: Config, stores: Stores, s: State, e: Event)
    requires Sound(c, stores, s) && AllAskOne(c, s.accepted) && Enabled(s, e) && (e.Send? ==> AllUp(e.net))
    ensures Sound(c, stores, Do(c, s, e)) && s.accepted <= Do(c, s, e).accepted
  {
    hide Do, Enabled, Inv, Tame, InLine, SameReplicas, AllUp;
    InvStep(c, s, e);
    InLineStep(c, s, e);
    TameStep(c, s, e);
    SameReplicasStep(c, stores, s, e);
  }

  /** What is known of one cell: `tasks` are all that will ever be accepted. */
  ghost predicate CellKept(c: Config, stores: Stores, tasks: seq<Task>, s: State, id: Id, key: Key)
    requires InLine(s)
  {
    && (Calm(c, stores, tasks, id, key) ==> Quiet(c, stores, s, id, key))
    && (forall last: nat :: DeletedLast(c, tasks, id, key, last) && Begun(s) > last ==> Cell(s.stores, id, key).None?)
  }

  lemma CellKeptStep(c: Config, stores: Stores, tasks: seq<Task>, s: State, e: Event, id: Id, key: Key)
    requires Sound(c, stores, s) && AllAskOne(c, tasks) && CellKept(c, stores, tasks, s, id, key)
    requires Enabled(s, e) && (e.Send? ==> AllUp(e.net)) && Do(c, s, e).accepted <= tasks
    ensures InLine(Do(c, s, e)) && CellKept(c, stores, tasks, Do(c, s, e), id, key)
  {
    hide Do, Enabled, Inv, Tame, InLine, SameReplicas, AllUp, Begun, Cell, DeletedLast, Calm, Quiet;
    InLineStep(c, s, e);
    assert AllAskOne(c, s.accepted);
    if Calm(c, stores, tasks, id, key) { QuietStep(c, stores, tasks, s, e, id, key); }
    forall last: nat | DeletedLast(c, tasks, id, key, last) && Begun(Do(c, s, e)) > last
      ensures Cell(Do(c, s, e).stores, id, key).None?
    {
      BuriedStep(c, tasks, s, e, id, key, last);
    }
  }

  lemma CellKeptInitially(c: Config, stores: Stores, tasks: seq<Task>, id: Id, key: Key)
    ensures InLine(Initial(stores)) && CellKept(c, stores, tasks, Initial(stores), id, key)
  {
    SoundInitially(c, stores);
    var s := Initial(stores);
    assert Begun(s) == 0 && s.accepted[..0] == [];
    assert PerformAll(c, stores, []) == stores;
  }

  lemma {:induction false} KeptAlways(c: Config, stores: Stores, tasks: seq<Task>, states: seq<State>, id: Id, key: Key)
    requires IsWorkingRun(c, states) && states[0] == Initial(stores)
    requires AllAskOne(c, tasks) && states[|states| - 1].accepted <= tasks
    ensures Sound(c, stores, states[|states| - 1])
    ensures CellKept(c, stores, tasks, states[|states| - 1], id, key)
  {
    assert states != [];
    hide *;
    if |states| > 1 {
      var e := LastWorkingStep(c, states);
      var init, s := states[..|states| - 1], states[|states| - 2];
      AcceptedGrows(c, s, e);
      KeptAlways(c, stores, tasks, init, id, key);
      PrefixAsksOne(c, s.accepted, tasks);
      SoundStep(c, stores, s, e);
      SoundInLine(c, stores, s);
      CellKeptStep(c, stores, tasks, s, e, id, key);
    } else {
      SoundInitially(c, stores);
      CellKeptInitially(c, stores, tasks, id, key);
    }
  }

  lemma SoundInLine(c: Config, stores: Stores, s: State)
    requires Sound(c, stores, s)
    ensures InLine(s)
  {
  }

  lemma PrefixAsksOne(c: Config, tasks: seq<Task>, tasks': seq<Task>)
    requires tasks <= tasks' && AllAskOne(c, tasks')
    ensures AllAskOne(c, tasks)
  {
  }

  // ---------------------------------------------------------------- the order is kept

  lemma CellInOrder(c: Config, stores: Stores, tasks: seq<Task>, states: seq<State>, id: Id, key: Key)
    requires Complete(c, stores, tasks, states) && AllAskOne(c, tasks)
    requires c.maxRetries <= 0 || !Endangered(c, stores, tasks, id, key)
    ensures Cell(states[|states| - 1].stores, id, key) == Cell(PerformAll(c, stores, tasks), id, key)
  {
    hide Sound, WorkingStep, Initial, Cell, PerformAll, Futile, DeletedLast;
    KeptAlways(c, stores, tasks, states, id, key);
    var s := states[|states| - 1];
    SoundInLine(c, stores, s);
    assert Begun(s) == |tasks|;
    assert tasks[..|tasks|] == tasks;
    if !Calm(c, stores, tasks, id, key) {
      var i: nat :| Futile(c, stores, tasks, i, id, key);
      FutileHits(c, stores, tasks, i, id, key);
      var last := LastHit(c, stores, tasks, id, key, i);
      LastIsDelete(c, tasks, id, key, last);
    }
  }

  lemma FutileHits(c: Config, stores: Stores, tasks: seq<Task>, i: nat, id: Id, key: Key)
    requires Futile(c, stores, tasks, i, id, key)
    ensures i < |tasks| && Hits(c, tasks[i], id, key)
  {
  }

  lemma LastIsDelete(c: Config, tasks: seq<Task>, id: Id, key: Key, last: nat)
    requires last < |tasks| && Hits(c, tasks[last], id, key) && Outcome(tasks[last]).None?
    requires forall k :: last < k < |tasks| ==> !Hits(c, tasks[k], id, key)
    ensures DeletedLast(c, tasks, id, key, last)
  {
  }

  lemma CellsDecide(stores: Stores, stores': Stores)
    requires stores.Keys == stores'.Keys
    requires forall id, key :: Cell(stores, id, key) == Cell(stores', id, key)
    ensures stores == stores'
  {
    forall id | id in stores ensures stores[id] == stores'[id] {
      forall key ensures key in stores[id] <==> key in stores'[id] {
        assert Cell(stores, id, key) == Cell(stores', id, key);
      }
      forall key | key in stores[id] ensures stores[id][key] == stores'[id][key] {
        assert Cell(stores, id, key) == Cell(stores', id, key);
      }
    }
  }

  /** Without an endangered cell, or without retries, every run ends in the ordered outcome. */
  lemma OrderKept(c: Config, stores: Stores, tasks: seq<Task>, states: seq<State>)
    requires Complete(c, stores, tasks, states) && AllAskOne(c, tasks)
    requires c.maxRetries <= 0 || forall id, key :: !Endangered(c, stores, tasks, id, key)
    ensures states[|states| - 1].stores == PerformAll(c, stores, tasks)
  {
    assert states != [];
    hide Complete, Cell, PerformAll, Endangered, AllAskOne;
    var s := states[|states| - 1];
    SameReplicasAtEnd(c, stores, tasks, states);
    forall id, key ensures Cell(s.stores, id, key) == Cell(PerformAll(c, stores, tasks), id, key) {
      CellInOrder(c, stores, tasks, states, id, key);
    }
    CellsDecide(s.stores, PerformAll(c, stores, tasks));
  }

  lemma SameReplicasAtEnd(c: Config, stores: Stores, tasks: seq<Task>, states: seq<State>)
    requires Complete(c, stores, tasks, states) && AllAskOne(c, tasks)
    ensures states[|states| - 1].stores.Keys == PerformAll(c, stores, tasks).Keys
  {
    hide IsWorkingRun, Initial, PerformAll, CellKept, Inv, Tame;
    KeptAlways(c, stores, tasks, states, 0, []);
    assert tasks[..|tasks|] == tasks;
  }

  // ---------------------------------------------------------------- the order is lost

  /** Tasks as producers enqueue them. */
  ghost predicate Numbered(tasks: seq<Task>) {
    forall i :: 0 <= i < |tasks| ==> tasks[i].ticket == i && tasks[i].retryCount == 0
  }

  /** There is a run over working links from `s` to `s'`. */
  ghost predicate Reaches(c: Config, s: State, s': State) {
    exists states :: IsWorkingRun(c, states) && states[0] == s && states[|states| - 1] == s'
  }

  lemma ReachesFurther(c: Config, s: State, s': State, states: seq<State>)
    requires Reaches(c, s, s') && IsWorkingRun(c, states) && states[0] == s'
    ensures Reaches(c, s, states[|states| - 1])
  {
    hide WorkingStep;
    var first :| IsWorkingRun(c, first) && first[0] == s && first[|first| - 1] == s';
    ExtendWorkingRun(c, first, states);
    var all := first + states[1..];
    assert all[0] == s && all[|all| - 1] == states[|states| - 1];
  }

  /** The state after a turn of the worker. */
  function Turned(c: Config, s: State): State
    requires s.worker.Idle? && s.pending != []
  {
    var task, ok := s.pending[0], Smooth(c, s.stores, s.pending[0]);
    var again := !ok && task.retryCount < c.maxRetries;
    State(s.pending[1..] + (if again then [task.(retryCount := task.retryCount + 1)] else []), Idle,
          Perform(c, s.stores, task), s.accepted, s.tries + multiset{task.ticket},
          s.succeeded + (if ok then multiset{task.ticket} else multiset{}),
          s.abandoned + (if !ok && !again then multiset{task.ticket} else multiset{}))
  }

  lemma TurnIs(c: Config, s: State, up: nat -> Link)
    requires s.worker.Idle? && s.pending != [] && AllUp(up)
    ensures Do(c, Do(c, Do(c, s, TakeFront), Send(up)), Settle) == Turned(c, s)
  {
    hide Perform, Smooth, AllUp;
    AttemptPerforms(c, s.stores, s.pending[0], up);
    hide Attempt;
  }

  lemma TurnReaches(c: Config, s: State, s': State)
    requires Reaches(c, s, s') && s'.worker.Idle? && s'.pending != []
    ensures Reaches(c, s, Turned(c, s')) && Measure(c, Turned(c, s')) < Measure(c, s')
  {
    hide Turned, Measure, IsWorkingRun, IsRun, Reaches;
    var up := (_: nat) => Acknowledged;
    TurnIs(c, s', up);
    ThreeSteps(c, s', up);
    hide Attempt;
    var taken := Do(c, s', TakeFront);
    var sent := Do(c, taken, Send(up));
    ReachesFurther(c, s, s', [s', taken, sent, Do(c, sent, Settle)]);
  }

  lemma {:induction false} EnqueuedFirst(c: Config, stores: Stores, tasks: seq<Task>, k: nat)
    requires Numbered(tasks) && k <= |tasks|
    ensures Reaches(c, Initial(stores), State(tasks[..k], Idle, stores, tasks[..k], multiset{}, multiset{}, multiset{}))
  {
    if k == 0 {
      assert IsWorkingRun(c, [Initial(stores)]);
    } else {
      EnqueuedFirst(c, stores, tasks, k - 1);
      hide Reaches, Attempt;
      var task := tasks[k - 1];
      var s := State(tasks[..k - 1], Idle, stores, tasks[..k - 1], multiset{}, multiset{}, multiset{});
      var s' := Do(c, s, Enqueue(task.kind, task.key, task.replicas));
      assert tasks[..k] == tasks[..k - 1] + [task];
      assert WorkingStep(c, s, s');
      ReachesFurther(c, Initial(stores), s, [s, s']);
    }
  }

  /** A task that asks one replica at most and does nothing but delete. */
  ghost predicate OnlyDeletes(c: Config, task: Task) {
    AsksOne(c, task) && (Required(c, task) >= 1 && Reachable(task.replicas[0]) ==> task.kind.Delete?)
  }

  ghost predicate AllOnlyDelete(c: Config, tasks: seq<Task>) {
    forall i :: 0 <= i < |tasks| ==> OnlyDeletes(c, tasks[i])
  }

  lemma FailedOnlyDeletes(c: Config, stores: Stores, task: Task)
    requires AsksOne(c, task) && !Smooth(c, stores, task)
    ensures OnlyDeletes(c, task.(retryCount := task.retryCount + 1))
  {
    SmoothCell(c, stores, task);
    hide Smooth;
  }

  /** The queue in the middle of the first pass: `k` tasks tried, in order; what failed
      waits behind the others, among it the futile DELETE once tried. */
  ghost predicate MidPass(c: Config, stores: Stores, tasks: seq<Task>, k: nat, i: nat, s: State, retries: seq<Task>)
    requires k <= |tasks| && i < |tasks|
  {
    && s.worker.Idle? && s.accepted == tasks && s.pending == tasks[k..] + retries
    && s.stores == PerformAll(c, stores, tasks[..k])
    && AllOnlyDelete(c, retries) && (i < k ==> tasks[i].(retryCount := 1) in retries)
  }

  lemma PassOn(c: Config, stores: Stores, tasks: seq<Task>, k: nat, i: nat, id: Id, key: Key, s: State,
      retries: seq<Task>)
    returns (retries': seq<Task>)
    requires c.maxRetries >= 1 && Numbered(tasks) && AllAskOne(c, tasks) && Futile(c, stores, tasks, i, id, key)
    requires k < |tasks| && MidPass(c, stores, tasks, k, i, s, retries)
    ensures MidPass(c, stores, tasks, k + 1, i, Turned(c, s), retries')
  {
    hide Perform, PerformAll, Smooth, Cell, OnlyDeletes;
    var task := s.pending[0];
    assert task == tasks[k] && tasks[k..] == [task] + tasks[k + 1..];
    OneMorePerformed(c, stores, tasks, k);
    SmoothCell(c, s.stores, task);
    retries' := retries;
    if !Smooth(c, s.stores, task) {
      FailedOnlyDeletes(c, s.stores, task);
      retries' := retries + [task.(retryCount := 1)];
      assert retries'[|retries|] == task.(retryCount := 1);
    }
    assert Turned(c, s).pending == tasks[k + 1..] + retries';
  }

  lemma {:induction false} FirstPass(c: Config, stores: Stores, tasks: seq<Task>, k: nat, i: nat, id: Id, key: Key)
    returns (s: State, retries: seq<Task>)
    requires c.maxRetries >= 1 && Numbered(tasks) && AllAskOne(c, tasks) && Futile(c, stores, tasks, i, id, key)
    requires k <= |tasks|
    ensures Reaches(c, Initial(stores), s) && MidPass(c, stores, tasks, k, i, s, retries)
  {
    hide Reaches, Numbered, AllAskOne, Perform, Initial, Turned;
    if k == 0 {
      EnqueuedFirst(c, stores, tasks, |tasks|);
      assert tasks[..|tasks|] == tasks && tasks[..0] == [];
      s, retries := State(tasks, Idle, stores, tasks, multiset{}, multiset{}, multiset{}), [];
    } else {
      s, retries := FirstPass(c, stores, tasks, k - 1, i, id, key);
      hide MidPass;
      retries := PassOn(c, stores, tasks, k - 1, i, id, key, s, retries);
      TurnReaches(c, Initial(stores), s);
      s := Turned(c, s);
    }
  }

  /** Only deletions are left, and the cell is empty or one of them will empty it. */
  ghost predicate Doomed(c: Config, s: State, id: Id, key: Key) {
    && s.worker.Idle? && AllOnlyDelete(c, s.pending)
    && (Cell(s.stores, id, key).None? || exists j :: 0 <= j < |s.pending| && Hits(c, s.pending[j], id, key))
  }

  lemma DoomedTurn(c: Config, s: State, id: Id, key: Key)
    requires Doomed(c, s, id, key) && s.pending != []
    ensures Doomed(c, Turned(c, s), id, key) && Turned(c, s).accepted == s.accepted
  {
    hide Perform, Smooth, Cell;
    var s', task := Turned(c, s), s.pending[0];
    assert OnlyDeletes(c, task);
    PerformCell(c, s.stores, task, id, key);
    if !Smooth(c, s.stores, task) { FailedOnlyDeletes(c, s.stores, task); }
    assert AllOnlyDelete(c, s.pending[1..]);
    if Cell(s'.stores, id, key).Some? {
      var j :| 0 <= j < |s.pending| && Hits(c, s.pending[j], id, key);
      assert j > 0 && s'.pending[j - 1] == s.pending[j];
    }
  }

  lemma {:induction false} DoomedEnd(c: Config, start: State, s: State, id: Id, key: Key) returns (end: State)
    requires Reaches(c, start, s) && Doomed(c, s, id, key)
    ensures Reaches(c, start, end) && Drained(end) && end.accepted == s.accepted && Cell(end.stores, id, key).None?
    decreases Measure(c, s)
  {
    hide Reaches, Measure, Cell, Turned, AllOnlyDelete;
    end := s;
    if s.pending != [] {
      DoomedTurn(c, s, id, key);
      TurnReaches(c, start, s);
      end := DoomedEnd(c, start, Turned(c, s), id, key);
    }
  }

  lemma PassEndsDoomed(c: Config, stores: Stores, tasks: seq<Task>, i: nat, id: Id, key: Key, s: State,
      retries: seq<Task>)
    requires Futile(c, stores, tasks, i, id, key) && MidPass(c, stores, tasks, |tasks|, i, s, retries)
    ensures Doomed(c, s, id, key) && s.accepted == tasks
  {
    hide PerformAll, Cell, OnlyDeletes;
    assert s.pending == retries;
    var j :| 0 <= j < |retries| && retries[j] == tasks[i].(retryCount := 1);
    assert Hits(c, s.pending[j], id, key);
  }

  /** With retries, an endangered cell is lost in the run that enqueues everything first. */
  lemma OrderLost(c: Config, stores: Stores, tasks: seq<Task>, id: Id, key: Key) returns (states: seq<State>)
    requires c.maxRetries >= 1 && Numbered(tasks) && AllAskOne(c, tasks) && Endangered(c, stores, tasks, id, key)
    ensures Complete(c, stores, tasks, states)
    ensures Cell(states[|states| - 1].stores, id, key).None? && Cell(PerformAll(c, stores, tasks), id, key).Some?
  {
    hide WorkingStep, Initial, Futile, Cell, PerformAll, MidPass, Doomed, Numbered, AllAskOne;
    var i: nat :| Futile(c, stores, tasks, i, id, key);
    var s, retries := FirstPass(c, stores, tasks, |tasks|, i, id, key);
    PassEndsDoomed(c, stores, tasks, i, id, key, s, retries);
    var end := DoomedEnd(c, Initial(stores), s, id, key);
    states :| IsWorkingRun(c, states) && states[0] == Initial(stores) && states[|states| - 1] == end;
  }

  ghost predicate EndsInOrder(c: Config, stores: Stores, tasks: seq<Task>, states: seq<State>)
    requires Complete(c, stores, tasks, states)
  {
    states[|states| - 1].stores == PerformAll(c, stores, tasks)
  }

  /** Over working links, every run that accepts `tasks` and drains ends with the tasks
      applied in the order of acceptance if and only if there are no retries or no cell
      is endangered. */
  lemma OrderKeptIff(c: Config, stores: Stores, tasks: seq<Task>)
    requires Numbered(tasks) && AllAskOne(c, tasks)
    ensures (forall states :: Complete(c, stores, tasks, states) ==> EndsInOrder(c, stores, tasks, states)) <==>
              (c.maxRetries <= 0 || forall id, key :: !Endangered(c, stores, tasks, id, key))
  {
    hide Numbered, AllAskOne, Endangered, PerformAll, Complete;
    if c.maxRetries <= 0 || forall id, key :: !Endangered(c, stores, tasks, id, key) {
      forall states | Complete(c, stores, tasks, states) ensures EndsInOrder(c, stores, tasks, states) {
        OrderKept(c, stores, tasks, states);
      }
    } else {
      var id, key :| Endangered(c, stores, tasks, id, key);
      var states := OrderLost(c, stores, tasks, id, key);
      assert !EndsInOrder(c, stores, tasks, states);
    }
  }
}
