/** The asynchronous replication queue: producers enqueue tasks at any time; one worker
    takes the front task, sends it, and re-enqueues it behind the others if a send failed. */
module ReplicationQueue {
  import opened Bytes
  import opened Identifiers
  import opened KeyTransfer

  datatype Replica = Replica(id: Id, port: nat)

  datatype Kind = Put(value: Value) | Delete

  /** `ticket` is the position of the task in the order of acceptance. */
  datatype Task = Task(ticket: nat, kind: Kind, key: Key, replicas: seq<Option<Replica>>, retryCount: nat)

  datatype Config = Config(factor: int, maxRetries: int)

  function StoreOf(stores: Stores, id: Id): Store {
    if id in stores then stores[id] else map[]
  }

  // ---------------------------------------------------------------- sending one task

  function Apply(stores: Stores, id: Id, task: Task): Stores {
    var store := StoreOf(stores, id);
    stores[id := match task.kind case Put(value) => store[task.key := value] case Delete => store - {task.key}]
  }

  /** The answer of the replica: a DELETE of a key it does not hold is reported as a failure. */
  predicate Agrees(stores: Stores, id: Id, task: Task) {
    task.kind.Put? || task.key in StoreOf(stores, id)
  }

  predicate Reachable(replica: Option<Replica>) {
    replica.Some? && replica.value.port != 0
  }

  function Required(c: Config, task: Task): int {
    if c.factor - 1 < |task.replicas| then c.factor - 1 else |task.replicas|
  }

  /** Stores and number of successes after the first `i` replicas. */
  function SendFirst(stores: Stores, task: Task, i: nat, net: nat -> Link): (r: (Stores, nat))
    requires i <= |task.replicas|
    ensures r.1 <= i
  {
    if i == 0 then (stores, 0) else
    var (before, n) := SendFirst(stores, task, i - 1, net);
    var replica := task.replicas[i - 1];
    if !Reachable(replica) || net(i - 1) == RequestLost then (before, n)
    else
      (Apply(before, replica.value.id, task),
       if net(i - 1) == Acknowledged && Agrees(before, replica.value.id, task) then n + 1 else n)
  }

  function Attempt(c: Config, stores: Stores, task: Task, net: nat -> Link): (Stores, bool) {
    var required := Required(c, task);
    if required <= 0 then (stores, true) else
    var (after, n) := SendFirst(stores, task, required, net);
    (after, n >= required)
  }

  // ---------------------------------------------------------------- what an attempt does, over any links

  /** The value of `key` at replica `id`. */
  function Cell(stores: Stores, id: Id, key: Key): Option<Value> {
    var store := StoreOf(stores, id);
    if key in store then Some(store[key]) else None
  }

  /** What a task leaves under its key. */
  function Outcome(task: Task): Option<Value> {
    match task.kind case Put(value) => Some(value) case Delete => None
  }

  predicate HasAddress(task: Task, i: nat)
    requires i < |task.replicas|
  {
    task.replicas[i].Some? && task.replicas[i].value.port != 0
  }

  /** A request of the attempt, before number `i`, got to node `id`. */
  predicate GotThrough(task: Task, i: nat, id: Id, net: nat -> Link)
    requires i <= |task.replicas|
  {
    exists j :: 0 <= j < i && HasAddress(task, j) && task.replicas[j].value.id == id && net(j) != RequestLost
  }

  /** Request number `i` succeeds: it is sent, it is acknowledged, and if it is a DELETE the
      key is there, not removed by an earlier request of the same attempt. */
  predicate Taken(stores: Stores, task: Task, i: nat, net: nat -> Link)
    requires i < |task.replicas|
  {
    && HasAddress(task, i) && net(i) == Acknowledged
    && (task.kind.Delete? ==>
          var id := task.replicas[i].value.id;
          Cell(stores, id, task.key).Some? && !GotThrough(task, i, id, net))
  }

  lemma GotThroughOneMore(task: Task, i: nat, id: Id, net: nat -> Link)
    requires i < |task.replicas|
    ensures GotThrough(task, i + 1, id, net) <==>
              GotThrough(task, i, id, net) ||
              (HasAddress(task, i) && task.replicas[i].value.id == id && net(i) != RequestLost)
  {
    if HasAddress(task, i) && task.replicas[i].value.id == id && net(i) != RequestLost {
      assert GotThrough(task, i + 1, id, net);
    }
  }

  lemma ApplyCell(stores: Stores, at: Id, task: Task, id: Id, key: Key)
    ensures Cell(Apply(stores, at, task), id, key) ==
              if id == at && key == task.key then Outcome(task) else Cell(stores, id, key)
  {
  }

  lemma {:induction false} CellSoFar(stores: Stores, task: Task, i: nat, net: nat -> Link, id: Id, key: Key)
    requires i <= |task.replicas|
    ensures Cell(SendFirst(stores, task, i, net).0, id, key) ==
              if key == task.key && GotThrough(task, i, id, net) then Outcome(task) else Cell(stores, id, key)
  {
    if i > 0 {
      hide Apply, Cell, Outcome, Agrees, GotThrough;
      CellSoFar(stores, task, i - 1, net, id, key);
      GotThroughOneMore(task, i - 1, id, net);
      var replica := task.replicas[i - 1];
      if Reachable(replica) {
        ApplyCell(SendFirst(stores, task, i - 1, net).0, replica.value.id, task, id, key);
      }
    } else {
      assert !GotThrough(task, 0, id, net);
    }
  }

  lemma TakenMeansAgrees(stores: Stores, task: Task, i: nat, net: nat -> Link)
    requires i < |task.replicas|
    ensures Taken(stores, task, i, net) <==>
              Reachable(task.replicas[i]) && net(i) == Acknowledged &&
              Agrees(SendFirst(stores, task, i, net).0, task.replicas[i].value.id, task)
  {
    if HasAddress(task, i) { CellSoFar(stores, task, i, net, task.replicas[i].value.id, task.key); }
    hide SendFirst, GotThrough;
  }

  lemma {:induction false} SendsSucceedIff(stores: Stores, task: Task, i: nat, net: nat -> Link)
    requires i <= |task.replicas|
    ensures SendFirst(stores, task, i, net).1 == i <==> forall k :: 0 <= k < i ==> Taken(stores, task, k, net)
  {
    if i > 0 {
      hide Taken, Apply, Agrees;
      SendsSucceedIff(stores, task, i - 1, net);
      TakenMeansAgrees(stores, task, i - 1, net);
    }
  }

  /** An attempt succeeds exactly when each of the first `factor - 1` replicas takes the task;
      a lost reply counts as a failure although the task has taken effect. */
  lemma AttemptOutcome(c: Config, stores: Stores, task: Task, net: nat -> Link)
    ensures Attempt(c, stores, task, net).1 <==>
              forall i: nat :: i < c.factor - 1 && i < |task.replicas| ==> Taken(stores, task, i, net)
  {
    hide Taken, SendFirst;
    var required := Required(c, task);
    if required > 0 { SendsSucceedIff(stores, task, required, net); }
  }

  /** Whether or not it succeeds, it takes effect where a request arrived and nowhere else. */
  lemma AttemptEffect(c: Config, stores: Stores, task: Task, net: nat -> Link, id: Id, key: Key)
    ensures var hit := key == task.key && exists i: nat ::
              && i < c.factor - 1 && i < |task.replicas| && HasAddress(task, i)
              && task.replicas[i].value.id == id && net(i) != RequestLost;
            Cell(Attempt(c, stores, task, net).0, id, key) == if hit then Outcome(task) else Cell(stores, id, key)
  {
    hide SendFirst, Cell, Outcome;
    var required := Required(c, task);
    if required > 0 { CellSoFar(stores, task, required, net, id, key); }
  }

  // ---------------------------------------------------------------- the queue as a state machine

  datatype Worker = Idle | Holding(task: Task) | Tried(task: Task, ok: bool)

  /** `accepted`, `tries`, `succeeded` and `abandoned` record the history: the tasks as
      enqueued by producers, and the tickets attempted, finished and given up so far. */
  datatype State = State(
    pending: seq<Task>,
    worker: Worker,
    stores: Stores,
    accepted: seq<Task>,
    tries: multiset<nat>,
    succeeded: multiset<nat>,
    abandoned: multiset<nat>)

  datatype Event =
    | Enqueue(kind: Kind, key: Key, replicas: seq<Option<Replica>>)
    | TakeFront
    | Send(net: nat -> Link)
    | Settle

  predicate Enabled(s: State, e: Event) {
    match e
    case Enqueue(_, _, _) => true
    case TakeFront => s.worker.Idle? && s.pending != []
    case Send(_) => s.worker.Holding?
    case Settle => s.worker.Tried?
  }

  function Do(c: Config, s: State, e: Event): State
    requires Enabled(s, e)
  {
    match e
    case Enqueue(kind, key, replicas) =>
      var task := Task(|s.accepted|, kind, key, replicas, 0);
      s.(pending := s.pending + [task], accepted := s.accepted + [task])
    case TakeFront =>
      s.(pending := s.pending[1..], worker := Holding(s.pending[0]))
    case Send(net) =>
      var task := s.worker.task;
      var (stores, ok) := Attempt(c, s.stores, task, net);
      s.(stores := stores, worker := Tried(task, ok), tries := s.tries + multiset{task.ticket})
    case Settle =>
      var task := s.worker.task;
      if s.worker.ok then
        s.(worker := Idle, succeeded := s.succeeded + multiset{task.ticket})
      else if task.retryCount < c.maxRetries then
        s.(worker := Idle, pending := s.pending + [task.(retryCount := task.retryCount + 1)])
      else
        s.(worker := Idle, abandoned := s.abandoned + multiset{task.ticket})
  }

  function Initial(stores: Stores): State {
    State([], Idle, stores, [], multiset{}, multiset{}, multiset{})
  }

  ghost predicate Step(c: Config, s: State, s': State) {
    exists e :: Enabled(s, e) && s' == Do(c, s, e)
  }

  ghost predicate IsRun(c: Config, states: seq<State>) {
    states != [] && forall i :: 0 <= i < |states| - 1 ==> Step(c, states[i], states[i + 1])
  }

  // ---------------------------------------------------------------- conservation and attempts

  function MaxAttempts(c: Config): nat {
    if c.maxRetries <= 0 then 1 else c.maxRetries + 1
  }

  function Tickets(tasks: seq<Task>): multiset<nat> {
    if tasks == [] then multiset{} else Tickets(tasks[..|tasks| - 1]) + multiset{tasks[|tasks| - 1].ticket}
  }

  function Held(w: Worker): multiset<nat> {
    if w.Idle? then multiset{} else multiset{w.task.ticket}
  }

  ghost predicate Untampered(s: State, task: Task) {
    task.ticket < |s.accepted| && task == s.accepted[task.ticket].(retryCount := task.retryCount)
  }

  /** Every accepted task is in exactly one place. */
  ghost predicate Conserved(s: State) {
    && Tickets(s.pending) + Held(s.worker) + s.succeeded + s.abandoned == Tickets(s.accepted)
    && forall i :: 0 <= i < |s.accepted| ==> s.accepted[i].ticket == i && s.accepted[i].retryCount == 0
  }

  /** A task counts its attempts (`extra` is 1 between an attempt and its settlement). */
  ghost predicate CountsTries(c: Config, s: State, task: Task, extra: nat) {
    && Untampered(s, task)
    && s.tries[task.ticket] == task.retryCount + extra
    && task.retryCount < MaxAttempts(c)
  }

  ghost predicate Counted(c: Config, s: State) {
    && (forall i {:trigger s.pending[i]} :: 0 <= i < |s.pending| ==> CountsTries(c, s, s.pending[i], 0))
    && (s.worker.Holding? ==> CountsTries(c, s, s.worker.task, 0))
    && (s.worker.Tried? ==> CountsTries(c, s, s.worker.task, 1))
  }

  /** Nobody is tried too often, and only a task tried as often as allowed is given up. */
  ghost predicate Bounded(c: Config, s: State) {
    && (forall t :: s.tries[t] <= MaxAttempts(c))
    && (forall t :: t in s.abandoned ==> s.tries[t] == MaxAttempts(c))
    && (forall t :: t >= |s.accepted| ==> s.tries[t] == 0)
  }

  ghost predicate Inv(c: Config, s: State) {
    Conserved(s) && Counted(c, s) && Bounded(c, s)
  }

  lemma {:induction false} TicketsOfAccepted(tasks: seq<Task>, t: nat)
    requires forall i :: 0 <= i < |tasks| ==> tasks[i].ticket == i
    ensures Tickets(tasks)[t] == if t < |tasks| then 1 else 0
  {
    if tasks != [] { TicketsOfAccepted(tasks[..|tasks| - 1], t); }
  }

  lemma {:induction false} TicketsOfFront(tasks: seq<Task>)
    requires tasks != []
    ensures Tickets(tasks) == multiset{tasks[0].ticket} + Tickets(tasks[1..])
  {
    hide *;
    if |tasks| > 1 {
      var init, last := tasks[..|tasks| - 1], tasks[|tasks| - 1];
      TicketsOfFront(init);
      assert tasks == init + [last] && tasks[1..] == init[1..] + [last];
      TicketsOfBack(init, last);
      TicketsOfBack(init[1..], last);
      SumsAssociate(multiset{tasks[0].ticket}, Tickets(init[1..]), multiset{last.ticket});
    } else {
      assert tasks == [] + [tasks[0]] && tasks[1..] == [];
      TicketsOfBack([], tasks[0]);
      SumsAssociate(multiset{tasks[0].ticket}, Tickets([]), multiset{});
      TicketsOfNone();
    }
  }

  lemma TicketsOfNone()
    ensures Tickets([]) == multiset{}
  {
  }

  lemma SumsAssociate(a: multiset<nat>, b: multiset<nat>, c: multiset<nat>)
    ensures a + b + c == a + (b + c)
  {
  }

  lemma TicketsOfBack(tasks: seq<Task>, task: Task)
    ensures Tickets(tasks + [task]) == Tickets(tasks) + multiset{task.ticket}
  {
    assert (tasks + [task])[..|tasks|] == tasks;
  }

  lemma {:induction false} TicketsContain(tasks: seq<Task>, i: nat)
    requires i < |tasks|
    ensures Tickets(tasks)[tasks[i].ticket] >= 1
  {
    if i < |tasks| - 1 { TicketsContain(tasks[..|tasks| - 1], i); }
  }

  lemma ConservedEnqueue(c: Config, s: State, e: Event)
    requires Conserved(s) && e.Enqueue?
    ensures Conserved(Do(c, s, e))
  {
    hide Tickets, Held;
    var s' := Do(c, s, e);
    var task := s'.accepted[|s.accepted|];
    TicketsOfBack(s.pending, task);
    TicketsOfBack(s.accepted, task);
  }

  lemma ConservedTakeFront(c: Config, s: State)
    requires Conserved(s) && Enabled(s, TakeFront)
    ensures Conserved(Do(c, s, TakeFront))
  {
    hide Tickets;
    TicketsOfFront(s.pending);
  }

  lemma ConservedSettle(c: Config, s: State)
    requires Conserved(s) && Enabled(s, Settle)
    ensures Conserved(Do(c, s, Settle))
  {
    hide Tickets;
    TicketsOfBack(s.pending, s.worker.task.(retryCount := s.worker.task.retryCount + 1));
  }

  lemma ConservedStep(c: Config, s: State, e: Event)
    requires Conserved(s) && Enabled(s, e)
    ensures Conserved(Do(c, s, e))
  {
    hide Tickets, Attempt;
    match e
    case Enqueue(_, _, _) => ConservedEnqueue(c, s, e);
    case TakeFront => ConservedTakeFront(c, s);
    case Send(net) => assert Held(Do(c, s, e).worker) == Held(s.worker);
    case Settle => ConservedSettle(c, s);
  }

  /** The held task is neither waiting nor given up. */
  lemma HeldElsewhere(s: State)
    requires Conserved(s) && !s.worker.Idle?
    ensures s.worker.task.ticket !in s.abandoned
    ensures forall i {:trigger s.pending[i]} :: 0 <= i < |s.pending| ==> s.pending[i].ticket != s.worker.task.ticket
  {
    var t := s.worker.task.ticket;
    TicketsOfAccepted(s.accepted, t);
    assert Held(s.worker)[t] == 1;
    assert (Tickets(s.pending) + Held(s.worker) + s.succeeded + s.abandoned)[t] <= 1;
    forall i | 0 <= i < |s.pending| ensures s.pending[i].ticket != t {
      TicketsContain(s.pending, i);
    }
  }

  lemma CountedStep(c: Config, s: State, e: Event)
    requires Inv(c, s) && Enabled(s, e)
    ensures Counted(c, Do(c, s, e))
  {
    hide Conserved, Attempt;
    var s' := Do(c, s, e);
    if !s.worker.Idle? { HeldElsewhere(s); }
    forall i | 0 <= i < |s'.pending| ensures CountsTries(c, s', s'.pending[i], 0) {
      match e
      case TakeFront => assert s'.pending[i] == s.pending[i + 1];
      case _ => assert i < |s.pending| ==> s'.pending[i] == s.pending[i];
    }
  }

  lemma BoundedStep(c: Config, s: State, e: Event)
    requires Inv(c, s) && Enabled(s, e)
    ensures Bounded(c, Do(c, s, e))
  {
    if !s.worker.Idle? { HeldElsewhere(s); }
    hide Conserved, Attempt;
  }

  lemma {:induction false} InvAlways(c: Config, stores: Stores, states: seq<State>)
    requires IsRun(c, states) && states[0] == Initial(stores)
    ensures Inv(c, states[|states| - 1])
  {
    if |states| > 1 {
      hide Inv, Do, Enabled, Initial;
      var k := |states| - 1;
      InvAlways(c, stores, states[..k]);
      assert Step(c, states[k - 1], states[k - 1 + 1]);
      var s := states[k - 1];
      var e :| Enabled(s, e) && states[k] == Do(c, s, e);
      InvStep(c, s, e);
    }
  }

  lemma InvStep(c: Config, s: State, e: Event)
    requires Inv(c, s) && Enabled(s, e)
    ensures Inv(c, Do(c, s, e))
  {
    hide Conserved, Counted, Bounded, Do, Enabled;
    ConservedStep(c, s, e);
    CountedStep(c, s, e);
    BoundedStep(c, s, e);
  }

  /** For every interleaving: each accepted task is in exactly one of the four places,
      no task is attempted more than `max_retries + 1` times, and a task is given up only
      after that many attempts. */
  lemma NothingLostNothingOverdone(c: Config, stores: Stores, states: seq<State>, t: nat)
    requires IsRun(c, states) && states[0] == Initial(stores)
    ensures var s := states[|states| - 1];
            && Tickets(s.pending)[t] + Held(s.worker)[t] + s.succeeded[t] + s.abandoned[t] ==
                 (if t < |s.accepted| then 1 else 0)
            && s.tries[t] <= MaxAttempts(c)
            && (t in s.abandoned ==> s.tries[t] == MaxAttempts(c))
  {
    InvAlways(c, stores, states);
    var s := states[|states| - 1];
    TicketsOfAccepted(s.accepted, t);
    assert (Tickets(s.pending) + Held(s.worker) + s.succeeded + s.abandoned)[t] == Tickets(s.accepted)[t];
  }

  /** State `i` of the run is the end of an attempt of task `t` with this result. */
  ghost predicate Attempted(states: seq<State>, i: nat, t: nat, ok: bool) {
    i < |states| && states[i].worker.Tried? && states[i].worker.task.ticket == t && states[i].worker.ok == ok
  }

  /** A task counts as succeeded only after an attempt that succeeded, and is given up only
      after one that failed with no retry left. */
  lemma {:induction false} OutcomesAreEarned(c: Config, stores: Stores, states: seq<State>, t: nat)
    requires IsRun(c, states) && states[0] == Initial(stores)
    ensures var s := states[|states| - 1];
            && (t in s.succeeded ==> exists i: nat :: Attempted(states, i, t, true))
            && (t in s.abandoned ==>
                  exists i: nat :: Attempted(states, i, t, false) && states[i].worker.task.retryCount >= c.maxRetries)
  {
    if |states| > 1 {
      hide Attempt;
      var k := |states| - 1;
      var init := states[..k];
      OutcomesAreEarned(c, stores, init, t);
      forall i: nat, ok | Attempted(init, i, t, ok) ensures Attempted(states, i, t, ok) {
      }
      assert Step(c, states[k - 1], states[k - 1 + 1]);
      var e :| Enabled(states[k - 1], e) && states[k] == Do(c, states[k - 1], e);
      if e.Settle? && states[k - 1].worker.task.ticket == t {
        assert Attempted(states, k - 1, t, states[k - 1].worker.ok);
      }
    }
  }

  // ---------------------------------------------------------------- draining

  function Left(c: Config, task: Task): nat {
    3 * (if task.retryCount < MaxAttempts(c) then MaxAttempts(c) - task.retryCount else 1)
  }

  function LeftAll(c: Config, tasks: seq<Task>): nat {
    if tasks == [] then 0 else LeftAll(c, tasks[..|tasks| - 1]) + Left(c, tasks[|tasks| - 1])
  }

  /** Worker steps that can still be made: three for every attempt that remains. */
  function Measure(c: Config, s: State): nat {
    LeftAll(c, s.pending) +
    match s.worker
    case Idle => 0
    case Holding(task) => Left(c, task) - 1
    case Tried(task, _) => Left(c, task) - 2
  }

  lemma {:induction false} LeftOfFront(c: Config, tasks: seq<Task>)
    requires tasks != []
    ensures LeftAll(c, tasks) == Left(c, tasks[0]) + LeftAll(c, tasks[1..])
  {
    if |tasks| > 1 {
      LeftOfFront(c, tasks[..|tasks| - 1]);
      assert tasks[..|tasks| - 1][1..] == tasks[1..][..|tasks| - 2];
    } else {
      assert tasks[1..] == [] && tasks[..0] == [];
    }
  }

  lemma LeftOfBack(c: Config, tasks: seq<Task>, task: Task)
    ensures LeftAll(c, tasks + [task]) == LeftAll(c, tasks) + Left(c, task)
  {
    assert (tasks + [task])[..|tasks|] == tasks;
  }

  /** Every worker step, successful or not, lowers the measure. */
  lemma WorkerStepShrinks(c: Config, s: State, e: Event)
    requires Enabled(s, e) && !e.Enqueue?
    ensures Measure(c, Do(c, s, e)) < Measure(c, s)
  {
    hide LeftAll, Attempt;
    match e
    case TakeFront => LeftOfFront(c, s.pending);
    case Send(_) =>
    case Settle => LeftOfBack(c, s.pending, s.worker.task.(retryCount := s.worker.task.retryCount + 1));
  }

  predicate Drained(s: State) {
    s.pending == [] && s.worker.Idle?
  }

  /** Once producers stop, the worker can always step until the queue is empty, and it
      gets there within `Measure` steps whichever sends fail. */
  lemma {:induction false} QueueDrains(c: Config, states: seq<State>)
    requires IsRun(c, states)
    requires forall i :: 0 <= i < |states| ==> states[i].accepted == states[0].accepted
    ensures |states| - 1 <= Measure(c, states[0])
    ensures var s := states[|states| - 1];
            Drained(s) <==> !exists e: Event :: Enabled(s, e) && !e.Enqueue?
  {
    DrainedIsStuck(states[|states| - 1]);
    StepsAreBounded(c, states);
  }

  lemma {:induction false} StepsAreBounded(c: Config, states: seq<State>)
    requires IsRun(c, states)
    requires forall i :: 0 <= i < |states| ==> states[i].accepted == states[0].accepted
    ensures |states| - 1 + Measure(c, states[|states| - 1]) <= Measure(c, states[0])
  {
    hide Measure, Do, Enabled;
    if |states| > 1 {
      var k := |states| - 1;
      StepsAreBounded(c, states[..k]);
      assert Step(c, states[k - 1], states[k - 1 + 1]);
      var e :| Enabled(states[k - 1], e) && states[k] == Do(c, states[k - 1], e);
      EnqueueAccepts(c, states[k - 1], e);
      WorkerStepShrinks(c, states[k - 1], e);
    }
  }

  lemma EnqueueAccepts(c: Config, s: State, e: Event)
    requires Enabled(s, e)
    ensures e.Enqueue? <==> Do(c, s, e).accepted != s.accepted
  {
    hide Attempt;
  }

  lemma DrainedIsStuck(s: State)
    ensures Drained(s) <==> !exists e: Event :: Enabled(s, e) && !e.Enqueue?
  {
    if !Drained(s) {
      var e := match s.worker
        case Idle => TakeFront
        case Holding(_) => Send(_ => Acknowledged)
        case Tried(_, _) => Settle;
      assert Enabled(s, e) && !e.Enqueue?;
    }
  }

  // ---------------------------------------------------------------- order of effects

  /** The effect of a task at all of its required replicas, when all answer. */
  function Perform(c: Config, stores: Stores, task: Task): Stores {
    Attempt(c, stores, task, _ => Acknowledged).0
  }

  function PerformAll(c: Config, stores: Stores, tasks: seq<Task>): Stores {
    if tasks == [] then stores
    else Perform(c, PerformAll(c, stores, tasks[..|tasks| - 1]), tasks[|tasks| - 1])
  }

  lemma {:induction false} SuccessMeansAcknowledged(stores: Stores, task: Task, i: nat, net: nat -> Link)
    requires i <= |task.replicas| && SendFirst(stores, task, i, net).1 == i
    ensures SendFirst(stores, task, i, _ => Acknowledged).0 == SendFirst(stores, task, i, net).0
  {
    if i > 0 { SuccessMeansAcknowledged(stores, task, i - 1, net); }
  }

  /** Whether the run so far, ending in `s`, saw no attempt fail. */
  ghost predicate NoFailure(states: seq<State>) {
    forall i :: 0 <= i < |states| && states[i].worker.Tried? ==> states[i].worker.ok
  }

  /** Tasks whose attempt lies behind. */
  function Done(s: State): int {
    |s.accepted| - |s.pending| - if s.worker.Holding? then 1 else 0
  }

  ghost predicate InOrder(c: Config, stores: Stores, s: State) {
    && 0 <= Done(s)
    && (s.worker.Holding? ==> s.worker.task == s.accepted[Done(s)])
    && s.pending == s.accepted[|s.accepted| - |s.pending|..]
    && s.stores == PerformAll(c, stores, s.accepted[..Done(s)])
  }

  lemma InOrderStep(c: Config, stores: Stores, s: State, e: Event)
    requires InOrder(c, stores, s) && Enabled(s, e)
    requires s.worker.Tried? ==> s.worker.ok
    requires Do(c, s, e).worker.Tried? ==> Do(c, s, e).worker.ok
    ensures InOrder(c, stores, Do(c, s, e))
  {
    hide Attempt, PerformAll;
    var s' := Do(c, s, e);
    match e
    case Enqueue(_, _, _) =>
      assert s'.accepted[..Done(s)] == s.accepted[..Done(s)];
    case TakeFront =>
    case Send(net) =>
      SendPerforms(c, stores, s, net);
    case Settle =>
  }

  lemma SendPerforms(c: Config, stores: Stores, s: State, net: nat -> Link)
    requires InOrder(c, stores, s) && s.worker.Holding? && Attempt(c, s.stores, s.worker.task, net).1
    ensures Attempt(c, s.stores, s.worker.task, net).0 == PerformAll(c, stores, s.accepted[..Done(s) + 1])
  {
    var task, required := s.worker.task, Required(c, s.worker.task);
    if required > 0 { SuccessMeansAcknowledged(s.stores, task, required, net); }
    assert s.accepted[..Done(s) + 1][..Done(s)] == s.accepted[..Done(s)];
  }

  /** As long as no attempt fails, the replicas hold the effect of the accepted tasks in
      the order of acceptance, up to the last one attempted; when the queue has drained,
      of all of them. */
  lemma OrderedWithoutFailures(c: Config, stores: Stores, states: seq<State>)
    requires IsRun(c, states) && states[0] == Initial(stores) && NoFailure(states)
    ensures InOrder(c, stores, states[|states| - 1])
    ensures var s := states[|states| - 1];
            Drained(s) ==> s.stores == PerformAll(c, stores, s.accepted)
  {
    hide InOrder, PerformAll, Step;
    InOrderAlways(c, stores, states);
    InOrderDrained(c, stores, states[|states| - 1]);
  }

  lemma InOrderDrained(c: Config, stores: Stores, s: State)
    requires InOrder(c, stores, s)
    ensures Drained(s) ==> s.stores == PerformAll(c, stores, s.accepted)
  {
    hide PerformAll;
    if Drained(s) { assert s.accepted[..|s.accepted|] == s.accepted; }
  }

  lemma InOrderInitially(c: Config, stores: Stores)
    ensures InOrder(c, stores, Initial(stores))
  {
    assert PerformAll(c, stores, []) == stores;
  }

  lemma {:induction false} InOrderAlways(c: Config, stores: Stores, states: seq<State>)
    requires IsRun(c, states) && states[0] == Initial(stores) && NoFailure(states)
    ensures InOrder(c, stores, states[|states| - 1])
  {
    hide Do, Enabled, PerformAll, InOrder, Initial;
    if |states| > 1 {
      var k := |states| - 1;
      InOrderAlways(c, stores, states[..k]);
      assert Step(c, states[k - 1], states[k - 1 + 1]);
      var e :| Enabled(states[k - 1], e) && states[k] == Do(c, states[k - 1], e);
      InOrderStep(c, stores, states[k - 1], e);
    } else {
      InOrderInitially(c, stores);
    }
  }

  // ---------------------------------------------------------------- working links

  ghost predicate AllUp(net: nat -> Link) {
    forall i {:trigger net(i)} :: net(i) == Acknowledged
  }

  ghost predicate WorkingStep(c: Config, s: State, s': State) {
    exists e :: Enabled(s, e) && (e.Send? ==> AllUp(e.net)) && s' == Do(c, s, e)
  }

  /** A run in which every request and every reply arrives. */
  ghost predicate IsWorkingRun(c: Config, states: seq<State>) {
    states != [] && forall i :: 0 <= i < |states| - 1 ==> WorkingStep(c, states[i], states[i + 1])
  }

  lemma WorkingIsRun(c: Config, states: seq<State>)
    requires IsWorkingRun(c, states)
    ensures IsRun(c, states)
  {
    hide Do, AllUp;
    forall i | 0 <= i < |states| - 1 ensures Step(c, states[i], states[i + 1]) {
      assert WorkingStep(c, states[i], states[i + 1]);
    }
  }

  /** The replica at position `i` will take the task: it can be contacted and, for a
      DELETE, holds the key and is not listed before. */
  predicate Welcome(stores: Stores, task: Task, i: nat)
    requires i < |task.replicas|
  {
    Taken(stores, task, i, _ => Acknowledged)
  }

  predicate Smooth(c: Config, stores: Stores, task: Task) {
    forall i :: 0 <= i < Required(c, task) ==> Welcome(stores, task, i)
  }

  lemma SameArrivals(task: Task, i: nat, id: Id, net: nat -> Link)
    requires i <= |task.replicas| && AllUp(net)
    ensures GotThrough(task, i, id, net) <==> GotThrough(task, i, id, _ => Acknowledged)
  {
    assert forall j: nat :: net(j) == Acknowledged;
    var up := (_: nat) => Acknowledged;
    if GotThrough(task, i, id, up) {
      var j :| 0 <= j < i && HasAddress(task, j) && task.replicas[j].value.id == id && up(j) != RequestLost;
      assert net(j) != RequestLost;
    }
    if GotThrough(task, i, id, net) {
      var j :| 0 <= j < i && HasAddress(task, j) && task.replicas[j].value.id == id && net(j) != RequestLost;
      assert up(j) != RequestLost;
    }
  }

  /** Over working links an attempt succeeds exactly when every required replica will
      take the task. */
  lemma AttemptSucceedsIff(c: Config, stores: Stores, task: Task, net: nat -> Link)
    requires AllUp(net)
    ensures Attempt(c, stores, task, net).1 <==> Smooth(c, stores, task)
  {
    AttemptOutcome(c, stores, task, net);
    hide Attempt;
    forall i | 0 <= i < Required(c, task) ensures Welcome(stores, task, i) <==> Taken(stores, task, i, net) {
      assert net(i) == Acknowledged;
      forall id ensures GotThrough(task, i, id, net) <==> GotThrough(task, i, id, _ => Acknowledged) {
        SameArrivals(task, i, id, net);
      }
    }
  }

  /** Task `t`, sent after all tasks accepted before it, meets nothing but willing replicas. */
  predicate Orderly(c: Config, stores: Stores, tasks: seq<Task>, t: nat) {
    t < |tasks| && Smooth(c, PerformAll(c, stores, tasks[..t]), tasks[t])
  }

  /** The tasks tried so far are those that lie behind, and each was orderly. */
  ghost predicate TriedOrderly(c: Config, stores: Stores, s: State) {
    && (forall t: nat :: t in s.tries <==> t < Done(s))
    && (forall t: nat :: t < Done(s) ==> Orderly(c, stores, s.accepted, t))
  }

  lemma OrderlyStays(c: Config, stores: Stores, tasks: seq<Task>, tasks': seq<Task>, t: nat)
    requires tasks <= tasks' && t < |tasks|
    ensures Orderly(c, stores, tasks', t) <==> Orderly(c, stores, tasks, t)
  {
    assert tasks'[..t] == tasks[..t];
  }

  lemma AcceptedGrows(c: Config, s: State, e: Event)
    requires Enabled(s, e)
    ensures s.accepted <= Do(c, s, e).accepted && s.tries <= Do(c, s, e).tries
  {
    hide Attempt;
  }

  lemma TriedOrderlyStep(c: Config, stores: Stores, s: State, e: Event)
    requires Inv(c, s) && InOrder(c, stores, s) && TriedOrderly(c, stores, s) && Enabled(s, e)
    requires e.Send? ==> AllUp(e.net)
    requires s.worker.Tried? ==> s.worker.ok
    requires Do(c, s, e).worker.Tried? ==> Do(c, s, e).worker.ok
    ensures TriedOrderly(c, stores, Do(c, s, e))
  {
    hide Attempt, PerformAll, Smooth, Orderly, AllUp, Counted, Bounded;
    var s' := Do(c, s, e);
    if e.Send? { FirstTry(c, stores, s, e); }
    forall t: nat | t < Done(s') ensures Orderly(c, stores, s'.accepted, t) {
      if t < Done(s) { OrderlyStays(c, stores, s.accepted, s'.accepted, t); }
    }
  }

  /** The first attempt of a task, after nothing but successes. */
  lemma FirstTry(c: Config, stores: Stores, s: State, e: Event)
    requires Inv(c, s) && InOrder(c, stores, s) && Enabled(s, e) && e.Send? && AllUp(e.net)
    ensures s.worker.Holding? && s.worker.task.ticket == Done(s) < |s.accepted|
    ensures Do(c, s, e).accepted == s.accepted && Do(c, s, e).tries == s.tries + multiset{s.worker.task.ticket}
    ensures Do(c, s, e).worker.Tried? && (Do(c, s, e).worker.ok <==> Orderly(c, stores, s.accepted, Done(s)))
  {
    hide PerformAll, Smooth, Counted, Bounded, AllUp;
    AttemptSucceedsIff(c, s.stores, s.worker.task, e.net);
    hide Attempt;
  }

  lemma {:induction false} OrderlyAlways(c: Config, stores: Stores, states: seq<State>)
    requires IsWorkingRun(c, states) && states[0] == Initial(stores) && NoFailure(states)
    ensures TriedOrderly(c, stores, states[|states| - 1])
  {
    if |states| > 1 {
      hide Do, Enabled, TriedOrderly, InOrder, Initial, Inv, AllUp, WorkingStep, Step;
      var k := |states| - 1;
      var init := states[..k];
      OrderlyAlways(c, stores, init);
      WorkingIsRun(c, init);
      InvAlways(c, stores, init);
      InOrderAlways(c, stores, init);
      var e := LastWorkingStep(c, states);
      TriedOrderlyStep(c, stores, states[k - 1], e);
    }
  }

  ghost predicate TriedUnruly(c: Config, stores: Stores, s: State) {
    exists t: nat :: t in s.tries && t < |s.accepted| && !Orderly(c, stores, s.accepted, t)
  }

  lemma UnrulyStays(c: Config, stores: Stores, s: State, e: Event)
    requires TriedUnruly(c, stores, s) && Enabled(s, e)
    ensures TriedUnruly(c, stores, Do(c, s, e))
  {
    hide Do, Enabled, Orderly;
    AcceptedGrows(c, s, e);
    var t: nat :| t in s.tries && t < |s.accepted| && !Orderly(c, stores, s.accepted, t);
    OrderlyStays(c, stores, s.accepted, Do(c, s, e).accepted, t);
  }

  /** Only a send can be the first failure of a run. */
  lemma FailureNow(c: Config, states: seq<State>, e: Event)
    requires |states| > 1 && NoFailure(states[..|states| - 1]) && !NoFailure(states)
    requires var s := states[|states| - 2]; Enabled(s, e) && states[|states| - 1] == Do(c, s, e)
    ensures e.Send? && !states[|states| - 1].worker.ok
  {
    hide Attempt;
    var before := states[..|states| - 1];
    assert before[|states| - 2] == states[|states| - 2];
    var i :| 0 <= i < |states| && states[i].worker.Tried? && !states[i].worker.ok;
    assert i < |states| - 1 ==> before[i] == states[i];
  }

  lemma FirstFailure(c: Config, stores: Stores, states: seq<State>, e: Event)
    requires IsWorkingRun(c, states) && states[0] == Initial(stores) && |states| > 1
    requires NoFailure(states[..|states| - 1]) && !NoFailure(states)
    requires var s := states[|states| - 2];
             Enabled(s, e) && (e.Send? ==> AllUp(e.net)) && states[|states| - 1] == Do(c, s, e)
    ensures TriedUnruly(c, stores, states[|states| - 1])
  {
    hide Do, Enabled, InOrder, Initial, Inv, AllUp, Orderly, WorkingStep, NoFailure, Step;
    var init, s := states[..|states| - 1], states[|states| - 2];
    WorkingIsRun(c, init);
    InvAlways(c, stores, init);
    InOrderAlways(c, stores, init);
    FailureNow(c, states, e);
    FirstTry(c, stores, s, e);
    assert s.worker.task.ticket in states[|states| - 1].tries;
  }

  /** The last step of a run over working links. */
  lemma LastWorkingStep(c: Config, states: seq<State>) returns (e: Event)
    requires IsWorkingRun(c, states) && |states| > 1
    ensures IsWorkingRun(c, states[..|states| - 1])
    ensures var s := states[|states| - 2];
            Enabled(s, e) && (e.Send? ==> AllUp(e.net)) && states[|states| - 1] == Do(c, s, e)
  {
    hide Do, AllUp, Enabled;
    var k := |states| - 1;
    assert WorkingStep(c, states[k - 1], states[k - 1 + 1]);
    e :| Enabled(states[k - 1], e) && (e.Send? ==> AllUp(e.net)) && states[k] == Do(c, states[k - 1], e);
  }

  lemma {:induction false} FailureIsUnruly(c: Config, stores: Stores, states: seq<State>)
    requires IsWorkingRun(c, states) && states[0] == Initial(stores) && !NoFailure(states)
    ensures TriedUnruly(c, stores, states[|states| - 1])
  {
    NoFailureAtStart(c, stores, states);
    hide *;
    var e := LastWorkingStep(c, states);
    var init := states[..|states| - 1];
    if NoFailure(init) {
      FirstFailure(c, stores, states, e);
    } else {
      FailureIsUnruly(c, stores, init);
      UnrulyStays(c, stores, init[|init| - 1], e);
    }
  }

  lemma NoFailureAtStart(c: Config, stores: Stores, states: seq<State>)
    requires IsWorkingRun(c, states) && states[0] == Initial(stores) && !NoFailure(states)
    ensures |states| > 1
  {
    hide WorkingStep;
  }

  /** Over working links no attempt of a run fails exactly when every task tried was
      orderly, which the accepted tasks and the initial stores decide. */
  lemma NoFailureIff(c: Config, stores: Stores, states: seq<State>)
    requires IsWorkingRun(c, states) && states[0] == Initial(stores)
    ensures var s := states[|states| - 1];
            NoFailure(states) <==> forall t: nat :: t in s.tries ==> Orderly(c, stores, s.accepted, t)
  {
    hide Orderly, NoFailure, IsWorkingRun, Initial;
    if NoFailure(states) {
      OrderlyAlways(c, stores, states);
    } else {
      FailureIsUnruly(c, stores, states);
    }
  }

  /** When the queue has drained, that is a condition on the accepted tasks alone, and
      it is the guard under which they took effect in the order of acceptance. */
  lemma OrderedOverWorkingLinks(c: Config, stores: Stores, states: seq<State>)
    requires IsWorkingRun(c, states) && states[0] == Initial(stores) && Drained(states[|states| - 1])
    ensures var s := states[|states| - 1];
            && (NoFailure(states) <==> forall t: nat :: t < |s.accepted| ==> Orderly(c, stores, s.accepted, t))
            && ((forall t: nat :: t < |s.accepted| ==> Orderly(c, stores, s.accepted, t)) ==>
                  s.stores == PerformAll(c, stores, s.accepted))
  {
    hide Orderly, NoFailure, IsWorkingRun, Initial, PerformAll, InOrder;
    if NoFailure(states) {
      OrderlyAlways(c, stores, states);
      WorkingIsRun(c, states);
      OrderedWithoutFailures(c, stores, states);
    } else {
      FailureIsUnruly(c, stores, states);
    }
  }

  /** Acknowledged links alone do not give that order. A DELETE the replica answers with
      "not found" counts as failed, is retried behind a later PUT, and then undoes it. */
  lemma RetriedDeleteOvertakes(c: Config, id: Id, key: Key, value: Value) returns (states: seq<State>)
    requires c.factor >= 2 && c.maxRetries >= 1
    ensures IsWorkingRun(c, states) && states[0] == Initial(map[])
    ensures var s := states[|states| - 1];
            && Drained(s) && |s.abandoned| == 0 && key !in StoreOf(s.stores, id)
            && key in StoreOf(PerformAll(c, map[], s.accepted), id)
  {
    var replicas := [Some(Replica(id, 1))];
    var remove, put := Task(0, Delete, key, replicas, 0), Task(1, Put(value), key, replicas, 0);
    states := Begin(c, remove, put);
    hide Do, WorkingStep, PerformAll, Attempt;
    var run := Turn(c, states[2], id);
    ExtendWorkingRun(c, states, run);
    states := states + run[1..];
    run := Turn(c, run[3], id);
    ExtendWorkingRun(c, states, run);
    states := states + run[1..];
    run := Turn(c, run[3], id);
    ExtendWorkingRun(c, states, run);
    states := states + run[1..];
    InTurn(c, remove, put, id);
  }

  lemma Begin(c: Config, first: Task, second: Task) returns (states: seq<State>)
    requires first.ticket == first.retryCount == 0 && second.ticket == 1 && second.retryCount == 0
    ensures IsWorkingRun(c, states) && |states| == 3 && states[0] == Initial(map[])
    ensures states[2] == State([first, second], Idle, map[], [first, second], multiset{}, multiset{}, multiset{})
  {
    hide Attempt;
    var s0 := Initial(map[]);
    var s1 := s0.(pending := [first], accepted := [first]);
    var s2 := s0.(pending := [first, second], accepted := [first, second]);
    assert s1 == Do(c, s0, Enqueue(first.kind, first.key, first.replicas));
    assert s2 == Do(c, s1, Enqueue(second.kind, second.key, second.replicas));
    assert WorkingStep(c, s0, s1) && WorkingStep(c, s1, s2);
    states := [s0, s1, s2];
  }

  lemma InTurn(c: Config, remove: Task, put: Task, id: Id)
    requires c.factor >= 2 && remove.replicas == put.replicas == [Some(Replica(id, 1))] && put.kind.Put?
    ensures PerformAll(c, map[], [remove, put]) == Apply(Apply(map[], id, remove), id, put)
  {
    SendOne(c, map[], remove, id, _ => Acknowledged);
    SendOne(c, Apply(map[], id, remove), put, id, _ => Acknowledged);
    hide Attempt;
    assert [remove, put][..1] == [remove] && [remove][..0] == [];
    assert PerformAll(c, map[], []) == map[];
    assert PerformAll(c, map[], [remove]) == Apply(map[], id, remove);
  }

  /** A turn of the worker over a working link to a single replica. */
  lemma Turn(c: Config, s: State, id: Id) returns (states: seq<State>)
    requires c.factor >= 2 && s.worker.Idle? && s.pending != [] && s.pending[0].replicas == [Some(Replica(id, 1))]
    requires Agrees(s.stores, id, s.pending[0]) || s.pending[0].retryCount < c.maxRetries
    ensures IsWorkingRun(c, states) && |states| == 4 && states[0] == s
    ensures var task, agrees := s.pending[0], Agrees(s.stores, id, s.pending[0]);
            states[3] == State(
              s.pending[1..] + (if agrees then [] else [task.(retryCount := task.retryCount + 1)]), Idle,
              Apply(s.stores, id, task), s.accepted, s.tries + multiset{task.ticket},
              s.succeeded + (if agrees then multiset{task.ticket} else multiset{}), s.abandoned)
  {
    var up := (_: nat) => Acknowledged;
    SendOne(c, s.stores, s.pending[0], id, up);
    ThreeSteps(c, s, up);
    hide Attempt;
    var taken := Do(c, s, TakeFront);
    var sent := Do(c, taken, Send(up));
    states := [s, taken, sent, Do(c, sent, Settle)];
  }

  lemma SendOne(c: Config, stores: Stores, task: Task, id: Id, net: nat -> Link)
    requires c.factor >= 2 && task.replicas == [Some(Replica(id, 1))] && net(0) == Acknowledged
    ensures Attempt(c, stores, task, net) == (Apply(stores, id, task), Agrees(stores, id, task))
  {
    assert SendFirst(stores, task, 0, net) == (stores, 0);
  }

  // ---------------------------------------------------------------- the manager

  class ReplicationManager {
    const config: Config
    var pending: seq<Task>
    var worker: Worker
    var stores: Stores
    ghost var accepted: seq<Task>
    ghost var tries: multiset<nat>
    ghost var succeeded: multiset<nat>
    ghost var abandoned: multiset<nat>
    var nextTicket: nat

    ghost function Now(): State
      reads this
    {
      State(pending, worker, stores, accepted, tries, succeeded, abandoned)
    }

    ghost predicate Valid()
      reads this
    {
      nextTicket == |accepted|
    }

    constructor (c: Config, replicas: Stores)
      ensures config == c && Valid() && Now() == Initial(replicas)
    {
      config := c;
      pending, worker, stores, nextTicket := [], Idle, replicas, 0;
      accepted, tries, succeeded, abandoned := [], multiset{}, multiset{}, multiset{};
    }

    method EnqueueReplicationTask(kind: Kind, key: Key, replicas: seq<Option<Replica>>)
      requires Valid()
      modifies this
      ensures Valid() && Now() == Do(config, old(Now()), Enqueue(kind, key, replicas))
    {
      var task := Task(nextTicket, kind, key, replicas, 0);
      pending := pending + [task];
      accepted := accepted + [task];
      nextTicket := nextTicket + 1;
    }

    /** Sends the task to the required replicas one after the other. */
    method ProcessSingleTask(task: Task, net: nat -> Link) returns (ok: bool)
      modifies this`stores
      ensures (stores, ok) == Attempt(config, old(stores), task, net)
      ensures ok <==> forall i: nat :: i < config.factor - 1 && i < |task.replicas| ==> Taken(old(stores), task, i, net)
    {
      AttemptOutcome(config, stores, task, net);
      hide Taken;
      var successful := 0;
      var required := Required(config, task);
      var i := 0;
      while i < required
        invariant 0 <= i && (required >= 0 ==> i <= required) && (required < 0 ==> i == 0)
        invariant i <= |task.replicas|
        invariant (stores, successful) == SendFirst(old(stores), task, i, net)
      {
        if Reachable(task.replicas[i]) {
          var id := task.replicas[i].value.id;
          var success := false;
          if net(i) != RequestLost {
            success := Agrees(stores, id, task) && net(i) == Acknowledged;
            stores := Apply(stores, id, task);
          }
          if success {
            successful := successful + 1;
          }
        }
        i := i + 1;
      }
      return successful >= required;
    }

    /** One turn of the inner loop of `process_replication_queue`. The lock is free while
        the task is sent, so producers may enqueue `during` it, and again `after` a retry
        was enqueued. */
    method ProcessFront(net: nat -> Link, during: seq<Arrival>, after: seq<Arrival>)
      requires Valid() && worker.Idle? && pending != []
      modifies this
      ensures Valid() && worker.Idle? && Now() == AfterTurn(config, old(Now()), net, during, after)
    {
      hide Do;
      var task := PopFront();
      EnqueueAll(during);
      var success := SendHeld(task, net);
      SettleTask(task, success);
      EnqueueAll(after);
    }

    method EnqueueAll(arrivals: seq<Arrival>)
      requires Valid()
      modifies this
      ensures Valid() && Now() == Arrived(config, old(Now()), arrivals)
    {
      hide Do;
      for i := 0 to |arrivals|
        invariant Valid() && Now() == Arrived(config, old(Now()), arrivals[..i])
      {
        assert arrivals[..i + 1][..i] == arrivals[..i];
        EnqueueReplicationTask(arrivals[i].kind, arrivals[i].key, arrivals[i].replicas);
      }
      assert arrivals[..|arrivals|] == arrivals;
    }

    method PopFront() returns (task: Task)
      requires Valid() && worker.Idle? && pending != []
      modifies this
      ensures Valid() && accepted == old(accepted) && Now() == Do(config, old(Now()), TakeFront)
          && worker == Holding(task)
    {
      task := pending[0];
      pending, worker := pending[1..], Holding(task);
    }

    method SendHeld(task: Task, net: nat -> Link) returns (success: bool)
      requires Valid() && worker == Holding(task)
      modifies this
      ensures Valid() && accepted == old(accepted) && Now() == Do(config, old(Now()), Send(net))
          && worker == Tried(task, success)
    {
      success := ProcessSingleTask(task, net);
      hide Attempt;
      worker, tries := Tried(task, success), tries + multiset{task.ticket};
    }

    /** What follows the attempt: re-enqueue for a retry, give up, or be done. */
    method SettleTask(task: Task, success: bool)
      requires Valid() && worker == Tried(task, success)
      modifies this
      ensures Valid() && accepted == old(accepted) && Now() == Do(config, old(Now()), Settle) && worker.Idle?
    {
      if !success && task.retryCount < config.maxRetries {
        pending := pending + [task.(retryCount := task.retryCount + 1)];
      } else if !success {
        abandoned := abandoned + multiset{task.ticket};
      } else {
        succeeded := succeeded + multiset{task.ticket};
      }
      worker := Idle;
    }

    /** The inner loop, with whatever producers enqueue in its first turns: it is a run of
        the state machine, and it ends with an empty queue whatever the links do. */
    method ProcessReplicationQueue(nets: nat -> nat -> Link, arrivals: seq<(seq<Arrival>, seq<Arrival>)>)
        returns (ghost states: seq<State>)
      requires Valid() && worker.Idle?
      modifies this
      ensures Valid() && Drained(Now())
      ensures IsRun(config, states) && states[0] == old(Now()) && states[|states| - 1] == Now()
    {
      states := [Now()];
      var turn := 0;
      while pending != []
        invariant Valid() && worker.Idle?
        invariant IsRun(config, states) && states[0] == old(Now()) && states[|states| - 1] == Now()
        decreases if turn < |arrivals| then |arrivals| - turn else 0, Measure(config, Now())
      {
        hide IsRun, AfterTurn, Measure;
        ghost var before := Now();
        var (during, after) := if turn < |arrivals| then arrivals[turn] else ([], []);
        ghost var more := TurnIsRun(config, before, nets(turn), during, after);
        ProcessFront(nets(turn), during, after);
        ExtendRun(config, states, more);
        states := states + more[1..];
        turn := turn + 1;
      }
    }
  }

  // ---------------------------------------------------------------- turns of the worker

  datatype Arrival = Arrival(kind: Kind, key: Key, replicas: seq<Option<Replica>>)

  /** The state after producers enqueued `arrivals`. */
  function Arrived(c: Config, s: State, arrivals: seq<Arrival>): (s': State)
    ensures s'.worker == s.worker
  {
    if arrivals == [] then s else
    var a := arrivals[|arrivals| - 1];
    Do(c, Arrived(c, s, arrivals[..|arrivals| - 1]), Enqueue(a.kind, a.key, a.replicas))
  }

  function AfterTurn(c: Config, s: State, net: nat -> Link, during: seq<Arrival>, after: seq<Arrival>): State
    requires s.worker.Idle? && s.pending != []
  {
    var sending := Arrived(c, Do(c, s, TakeFront), during);
    Arrived(c, Do(c, Do(c, sending, Send(net)), Settle), after)
  }

  lemma {:induction false} ArrivalsAreRun(c: Config, s: State, arrivals: seq<Arrival>) returns (states: seq<State>)
    ensures IsRun(c, states) && states[0] == s && states[|states| - 1] == Arrived(c, s, arrivals)
  {
    hide Do;
    states := [s];
    if arrivals != [] {
      var init, a := arrivals[..|arrivals| - 1], arrivals[|arrivals| - 1];
      states := ArrivalsAreRun(c, s, init);
      states := OneMoreStep(c, states, Enqueue(a.kind, a.key, a.replicas));
    }
  }

  lemma OneMoreStep(c: Config, states: seq<State>, e: Event) returns (longer: seq<State>)
    requires IsRun(c, states) && Enabled(states[|states| - 1], e)
    ensures IsRun(c, longer) && longer[0] == states[0] && longer[|longer| - 1] == Do(c, states[|states| - 1], e)
  {
    hide Do;
    var s := states[|states| - 1];
    assert Step(c, s, Do(c, s, e));
    hide Step;
    longer := states + [Do(c, s, e)];
  }

  /** A turn is a run of the state machine; without arrivals it lowers the measure. */
  lemma TurnIsRun(c: Config, s: State, net: nat -> Link, during: seq<Arrival>, after: seq<Arrival>)
      returns (states: seq<State>)
    requires s.worker.Idle? && s.pending != []
    ensures IsRun(c, states) && states[0] == s && states[|states| - 1] == AfterTurn(c, s, net, during, after)
    ensures during == after == [] ==> Measure(c, AfterTurn(c, s, net, during, after)) < Measure(c, s)
  {
    ThreeSteps(c, s, net);
    var taken := Do(c, s, TakeFront);
    var sending := Arrived(c, taken, during);
    var sent := Do(c, sending, Send(net));
    var settled := Do(c, sent, Settle);
    assert taken.worker.Holding? && sent.worker.Tried?;
    assert IsRun(c, [s]);
    hide Do, Step, IsRun, Measure;
    states := OneMoreStep(c, [s], TakeFront);
    var more := ArrivalsAreRun(c, taken, during);
    ExtendRun(c, states, more);
    states := OneMoreStep(c, states + more[1..], Send(net));
    states := OneMoreStep(c, states, Settle);
    more := ArrivalsAreRun(c, settled, after);
    ExtendRun(c, states, more);
    states := states + more[1..];
  }

  lemma ThreeSteps(c: Config, s: State, net: nat -> Link)
    requires s.worker.Idle? && s.pending != []
    ensures var taken := Do(c, s, TakeFront);
            var sent := Do(c, taken, Send(net));
            var settled := Do(c, sent, Settle);
            && IsRun(c, [s, taken, sent, settled]) && Measure(c, settled) < Measure(c, s)
            && (AllUp(net) ==> IsWorkingRun(c, [s, taken, sent, settled]))
  {
    hide Attempt, Measure;
    var taken := Do(c, s, TakeFront);
    var sent := Do(c, taken, Send(net));
    var settled := Do(c, sent, Settle);
    WorkerStepShrinks(c, s, TakeFront);
    WorkerStepShrinks(c, taken, Send(net));
    WorkerStepShrinks(c, sent, Settle);
    assert Step(c, s, taken) && Step(c, taken, sent) && Step(c, sent, settled);
    if AllUp(net) { assert WorkingStep(c, s, taken) && WorkingStep(c, taken, sent) && WorkingStep(c, sent, settled); }
  }

  lemma ExtendWorkingRun(c: Config, states: seq<State>, more: seq<State>)
    requires IsWorkingRun(c, states) && IsWorkingRun(c, more) && more[0] == states[|states| - 1]
    ensures IsWorkingRun(c, states + more[1..])
  {
    hide WorkingStep;
    var all := states + more[1..];
    forall i | 0 <= i < |all| - 1 ensures WorkingStep(c, all[i], all[i + 1]) {
      if i >= |states| - 1 {
        var j := i - (|states| - 1);
        assert WorkingStep(c, more[j], more[j + 1]);
        assert all[i] == more[j] && all[i + 1] == more[j + 1];
      }
    }
  }

  lemma ExtendRun(c: Config, states: seq<State>, more: seq<State>)
    requires IsRun(c, states) && IsRun(c, more) && more[0] == states[|states| - 1]
    ensures IsRun(c, states + more[1..])
    ensures (states + more[1..])[0] == states[0] && (states + more[1..])[|states| + |more| - 2] == more[|more| - 1]
  {
    hide Step;
    var all := states + more[1..];
    forall i | 0 <= i < |all| - 1 ensures Step(c, all[i], all[i + 1]) {
      if i >= |states| - 1 {
        var j := i - (|states| - 1);
        assert Step(c, more[j], more[j + 1]);
        assert all[i] == more[j] && all[i + 1] == more[j + 1];
      }
    }
  }
}
