/** Joins, stabilization rounds and notifications of any number of nodes, interleaved
    at the points where the source releases its lock.

    Remote calls are answered as the request handlers answer them (GET_PREDECESSOR
    replies with the predecessor, NOTIFY calls `notify`). A reply may be used long
    after it was given; a notification may arrive late, repeatedly or never. */
module Stabilization {
  import opened Identifiers
  import opened Ring
  import opened Routing

  type Nodes = map<Id, Node>

  ghost function SuccMap(nodes: Nodes): map<Id, Id> {
    map n | n in nodes :: Succ(nodes[n])
  }

  // ---------------------------------------------------------------- following successors

  /** Following successor pointers from `a` reaches `b` without ever passing it. */
  ghost predicate Leads(succ: map<Id, Id>, a: Id, b: Id)
    decreases Dist(a, b)
  {
    a == b ||
    (a in succ && 0 < Dist(a, succ[a]) <= Dist(a, b) &&
     (DistSplits(a, succ[a], b); Leads(succ, succ[a], b)))
  }

  lemma {:induction false} LeadsTransitive(succ: map<Id, Id>, a: Id, b: Id, c: Id)
    requires Leads(succ, a, b) && Leads(succ, b, c)
    requires Dist(a, b) <= Dist(a, c)
    ensures Leads(succ, a, c)
    decreases Dist(a, b)
  {
    if a != b {
      DistSplits(a, succ[a], b);
      DistSplits(a, succ[a], c);
      LeadsTransitive(succ, succ[a], b, c);
    }
  }

  /** Two points ahead on the same chain: the nearer one leads to the farther one. */
  lemma {:induction false} LeadsForks(succ: map<Id, Id>, a: Id, b: Id, c: Id)
    requires Leads(succ, a, b) && Leads(succ, a, c)
    requires Dist(a, b) <= Dist(a, c)
    ensures Leads(succ, b, c)
    decreases Dist(a, b)
  {
    if a != b {
      DistSplits(a, succ[a], b);
      DistSplits(a, succ[a], c);
      LeadsForks(succ, succ[a], b, c);
    }
  }

  /** Re-aiming `y` at a node `x` in front of its successor that leads to that
      successor keeps every path: nodes once reachable stay reachable. */
  lemma {:induction false} LeadsSurvivesUpdate(succ: map<Id, Id>, y: Id, x: Id, a: Id, b: Id)
    requires y in succ && 0 < Dist(y, x) < Dist(y, succ[y]) && Leads(succ, x, succ[y])
    requires Leads(succ, a, b)
    ensures Leads(succ[y := x], a, b)
    decreases Dist(a, b)
  {
    if a != b {
      var t := succ[a];
      DistSplits(a, t, b);
      if a == y {
        DistSplits(y, x, t);
        DistSplits(y, x, b);
        LeadsTransitive(succ, x, t, b);
        LeadsSurvivesUpdate(succ, y, x, x, b);
      } else {
        LeadsSurvivesUpdate(succ, y, x, t, b);
      }
    }
  }

  lemma {:induction false} LeadsSurvivesJoin(succ: map<Id, Id>, j: Id, e: Id, a: Id, b: Id)
    requires j !in succ && Leads(succ, a, b)
    ensures Leads(succ[j := e], a, b)
    decreases Dist(a, b)
  {
    if a != b {
      DistSplits(a, succ[a], b);
      LeadsSurvivesJoin(succ, j, e, succ[a], b);
    }
  }

  lemma OneStepLeads(succ: map<Id, Id>, a: Id)
    requires a in succ
    ensures Leads(succ, a, succ[a])
  {
  }

  /** The last step of a path. */
  lemma {:induction false} LeadsLast(succ: map<Id, Id>, a: Id, b: Id) returns (z: Id)
    requires Leads(succ, a, b) && a != b
    ensures z in succ && succ[z] == b && Leads(succ, a, z) && Dist(a, z) < Dist(a, b)
    decreases Dist(a, b)
  {
    DistSplits(a, succ[a], b);
    if succ[a] == b {
      z := a;
    } else {
      z := LeadsLast(succ, succ[a], b);
    }
  }

  // ---------------------------------------------------------------- the system

  /** `asked[n]` is the successor `n` contacted and the predecessor it replied;
      a pair `(to, from)` in `notes` is a notification that was sent. */
  datatype System = System(nodes: Nodes, asked: map<Id, (Id, Option<Id>)>, notes: set<(Id, Id)>)

  /** `Contact` is answered; `Miss` is a contact that fails, which the source takes for a
      successor without predecessor. */
  datatype Action =
    | Enter(joiner: Id, via: Id)
    | Contact(n: Id)
    | Miss(n: Id)
    | Update(n: Id)
    | Deliver(to: Id, from: Id)

  ghost predicate Enabled(s: System, a: Action) {
    match a
    case Enter(j, e) => j !in s.nodes && e in s.nodes
    case Contact(n) => n in s.nodes && n !in s.asked && Succ(s.nodes[n]) != n && Succ(s.nodes[n]) in s.nodes
    case Miss(n) => n in s.nodes && n !in s.asked && Succ(s.nodes[n]) != n
    case Update(n) => n in s.nodes && n in s.asked
    case Deliver(to, from) => (to, from) in s.notes && to in s.nodes
  }

  /** Whom a round notifies: the local variable `successor` after the critical section. */
  function Told(node: Node, asked: (Id, Option<Id>)): Id {
    if Adopts(node, asked.0, asked.1) then asked.1.value else asked.0
  }

  ghost function Do(s: System, a: Action): System
    requires Enabled(s, a)
  {
    match a
    case Enter(j, e) =>
      s.(nodes := s.nodes[j := Joined(Alone(j), Some(e))])
    case Contact(n) =>
      var successor := Succ(s.nodes[n]);
      s.(asked := s.asked[n := (successor, s.nodes[successor].predecessor)])
    case Miss(n) =>
      s.(asked := s.asked[n := (Succ(s.nodes[n]), None)])
    case Update(n) =>
      var (asked, reply) := s.asked[n];
      var successor := Told(s.nodes[n], s.asked[n]);
      System(s.nodes[n := Stabilized(s.nodes[n], asked, reply)], s.asked - {n},
             if successor != n then s.notes + {(successor, n)} else s.notes)
    case Deliver(to, from) =>
      s.(nodes := s.nodes[to := Notified(s.nodes[to], Some(from))])
  }

  ghost predicate Step(s: System, s': System) {
    exists a :: Enabled(s, a) && s' == Do(s, a)
  }

  ghost predicate IsRun(states: seq<System>) {
    states != [] && forall i :: 0 <= i < |states| - 1 ==> Step(states[i], states[i + 1])
  }

  /** Every node knows its true neighbours. */
  ghost predicate ConsistentRing(nodes: Nodes) {
    && Plural(nodes.Keys)
    && forall n {:trigger KnowsNeighbours(nodes, n)} :: n in nodes ==> KnowsNeighbours(nodes, n)
  }

  ghost predicate KnowsNeighbours(nodes: Nodes, n: Id)
    requires n in nodes && Plural(nodes.Keys)
  {
    && nodes[n].self == n
    && nodes[n].predecessor == Some(Prev(nodes.Keys, n))
    && Succ(nodes[n]) == Next(nodes.Keys, n)
  }

  // ---------------------------------------------------------------- the invariant

  ghost predicate BackwardClosed(succ: map<Id, Id>, c: set<Id>) {
    forall a :: a in succ && succ[a] in c ==> a in c
  }

  /** From every node, following successors gets to the base ring. */
  ghost predicate Rooted(succ: map<Id, Id>, base: set<Id>) {
    forall c: set<Id> :: base <= c && BackwardClosed(succ, c) ==> succ.Keys <= c
  }

  ghost predicate GoodNode(succ: map<Id, Id>, n: Id, node: Node) {
    && node.self == n
    && Succ(node) in succ && Succ(node) != n
    && (node.predecessor.Some? ==>
          node.predecessor.value in succ && node.predecessor.value != n && Leads(succ, node.predecessor.value, n))
  }

  ghost predicate GoodReply(succ: map<Id, Id>, n: Id, reply: (Id, Option<Id>)) {
    && n in succ && reply.0 == succ[n]
    && (reply.1.Some? ==> reply.1.value in succ && Leads(succ, reply.1.value, reply.0))
  }

  ghost predicate GoodNote(succ: map<Id, Id>, note: (Id, Id)) {
    note.0 in succ && note.1 in succ && note.0 != note.1 && Leads(succ, note.1, note.0)
  }

  ghost predicate BaseIntact(succ: map<Id, Id>, base: set<Id>) {
    && Plural(base) && base <= succ.Keys
    && forall m {:trigger Next(base, m)} :: m in base ==> Leads(succ, m, Next(base, m))
  }

  // Explicit triggers: the pointers named by a good node name good nodes again, and
  // left to itself the solver would follow them for ever.
  ghost predicate GoodNodes(succ: map<Id, Id>, nodes: Nodes) {
    forall n {:trigger GoodNode(succ, n, nodes[n])} :: n in nodes ==> GoodNode(succ, n, nodes[n])
  }

  ghost predicate GoodReplies(succ: map<Id, Id>, asked: map<Id, (Id, Option<Id>)>) {
    forall n {:trigger GoodReply(succ, n, asked[n])} :: n in asked ==> GoodReply(succ, n, asked[n])
  }

  ghost predicate GoodNotes(succ: map<Id, Id>, notes: set<(Id, Id)>) {
    forall note {:trigger GoodNote(succ, note)} :: note in notes ==> GoodNote(succ, note)
  }

  /** Predecessors, pending replies and notifications lead to their targets. */
  ghost predicate Local(s: System) {
    var succ := SuccMap(s.nodes);
    GoodNodes(succ, s.nodes) && GoodReplies(succ, s.asked) && GoodNotes(succ, s.notes)
  }

  ghost predicate Inv(base: set<Id>, s: System) {
    Local(s) && BaseIntact(SuccMap(s.nodes), base) && Rooted(SuccMap(s.nodes), base)
  }

  lemma ConsistentIsGood(nodes: Nodes, n: Id)
    requires ConsistentRing(nodes) && n in nodes
    ensures GoodNode(SuccMap(nodes), n, nodes[n])
    ensures Leads(SuccMap(nodes), n, Next(nodes.Keys, n))
  {
    hide Leads;
    var succ, p := SuccMap(nodes), Prev(nodes.Keys, n);
    NextPrevInverse(nodes.Keys, n);
    assert KnowsNeighbours(nodes, n) && KnowsNeighbours(nodes, p);
    assert succ[p] == n && succ[n] == Next(nodes.Keys, n);
    OneStepLeads(succ, p);
    OneStepLeads(succ, n);
  }

  lemma InvInitially(nodes: Nodes)
    requires ConsistentRing(nodes)
    ensures Inv(nodes.Keys, System(nodes, map[], {}))
  {
    hide Leads, GoodNode;
    var succ := SuccMap(nodes);
    assert succ.Keys == nodes.Keys;
    forall n {:trigger Next(nodes.Keys, n)} | n in nodes.Keys ensures Leads(succ, n, Next(nodes.Keys, n)) {
      ConsistentIsGood(nodes, n);
    }
    forall n {:trigger GoodNode(succ, n, nodes[n])} | n in nodes ensures GoodNode(succ, n, nodes[n]) {
      ConsistentIsGood(nodes, n);
    }
  }

  lemma RootedSurvivesUpdate(succ: map<Id, Id>, base: set<Id>, y: Id, x: Id)
    requires Rooted(succ, base) && y in succ
    requires 0 < Dist(y, x) < Dist(y, succ[y]) && Leads(succ, x, succ[y])
    ensures Rooted(succ[y := x], base)
  {
    var succ' := succ[y := x];
    forall c: set<Id> | base <= c && BackwardClosed(succ', c)
      ensures succ'.Keys <= c
    {
      if succ[y] in c {
        LeadsSurvivesUpdate(succ, y, x, x, succ[y]);
        BackwardClosedLeads(succ', c, x, succ[y]);
        assert succ'[y] == x;
      }
      assert forall a :: a in succ ==> a in succ' && (a != y ==> succ'[a] == succ[a]);
      assert BackwardClosed(succ, c);
      assert succ'.Keys == succ.Keys;
    }
  }

  lemma {:induction false} BackwardClosedLeads(succ: map<Id, Id>, c: set<Id>, a: Id, b: Id)
    requires BackwardClosed(succ, c) && Leads(succ, a, b) && b in c
    ensures a in c
    decreases Dist(a, b)
  {
    if a != b {
      DistSplits(a, succ[a], b);
      BackwardClosedLeads(succ, c, succ[a], b);
    }
  }

  lemma RootedSurvivesJoin(succ: map<Id, Id>, base: set<Id>, j: Id, e: Id)
    requires Rooted(succ, base) && j !in succ && e in succ
    ensures Rooted(succ[j := e], base)
  {
    var succ' := succ[j := e];
    forall c: set<Id> | base <= c && BackwardClosed(succ', c)
      ensures succ'.Keys <= c
    {
      assert forall a :: a in succ ==> a in succ' && succ'[a] == succ[a];
      assert BackwardClosed(succ, c);
      assert succ'[j] == e;
    }
  }

  /** Everything the invariant says about paths moves from `succ` to `succ'`. */
  ghost predicate Keeps(succ: map<Id, Id>, succ': map<Id, Id>) {
    succ.Keys <= succ'.Keys &&
    forall a, b {:trigger Leads(succ', a, b)} :: Leads(succ, a, b) ==> Leads(succ', a, b)
  }

  lemma KeepsUpdate(succ: map<Id, Id>, y: Id, x: Id)
    requires y in succ && 0 < Dist(y, x) < Dist(y, succ[y]) && Leads(succ, x, succ[y])
    ensures Keeps(succ, succ[y := x])
  {
    forall a, b | Leads(succ, a, b) ensures Leads(succ[y := x], a, b) {
      LeadsSurvivesUpdate(succ, y, x, a, b);
    }
  }

  lemma KeepsJoin(succ: map<Id, Id>, j: Id, e: Id)
    requires j !in succ
    ensures Keeps(succ, succ[j := e])
  {
    forall a, b | Leads(succ, a, b) ensures Leads(succ[j := e], a, b) {
      LeadsSurvivesJoin(succ, j, e, a, b);
    }
  }

  lemma BaseKept(succ: map<Id, Id>, succ': map<Id, Id>, base: set<Id>)
    requires BaseIntact(succ, base) && Keeps(succ, succ')
    ensures BaseIntact(succ', base)
  {
    hide Leads;
  }

  /** Nodes and messages not touched by a step stay good. */
  lemma GoodKept(succ: map<Id, Id>, succ': map<Id, Id>, s: System)
    requires Keeps(succ, succ')
    requires GoodNodes(succ, s.nodes) && GoodNotes(succ, s.notes)
    ensures GoodNodes(succ', s.nodes) && GoodNotes(succ', s.notes)
  {
    hide Leads;
    forall n | n in s.nodes ensures GoodNode(succ', n, s.nodes[n]) {
      assert GoodNode(succ, n, s.nodes[n]);
    }
    forall note | note in s.notes ensures GoodNote(succ', note) {
      assert GoodNote(succ, note);
    }
  }

  /** A pending reply stays good as long as its own node is not the one updated. */
  lemma RepliesKept(succ: map<Id, Id>, succ': map<Id, Id>, asked: map<Id, (Id, Option<Id>)>)
    requires Keeps(succ, succ') && GoodReplies(succ, asked)
    requires forall n :: n in asked && n in succ ==> succ'[n] == succ[n]
    ensures GoodReplies(succ', asked)
  {
    hide Leads;
    forall n | n in asked ensures GoodReply(succ', n, asked[n]) {
      assert GoodReply(succ, n, asked[n]);
    }
  }

  lemma LocalJoin(s: System, j: Id, e: Id)
    requires Local(s) && Enabled(s, Enter(j, e))
    ensures Local(Do(s, Enter(j, e)))
    ensures SuccMap(Do(s, Enter(j, e)).nodes) == SuccMap(s.nodes)[j := e]
  {
    var s' := Do(s, Enter(j, e));
    var succ, succ' := SuccMap(s.nodes), SuccMap(s'.nodes);
    assert succ' == succ[j := e];
    KeepsJoin(succ, j, e);
    GoodKept(succ, succ', s);
    RepliesKept(succ, succ', s.asked);
    forall n | n in s'.nodes ensures GoodNode(succ', n, s'.nodes[n]) {
      assert n != j ==> GoodNode(succ', n, s.nodes[n]);
    }
  }

  lemma LocalContact(s: System, n: Id)
    requires Local(s) && Enabled(s, Contact(n))
    ensures Local(Do(s, Contact(n)))
  {
    var s' := Do(s, Contact(n));
    var succ := SuccMap(s.nodes);
    assert GoodNode(succ, succ[n], s.nodes[succ[n]]);
    forall m | m in s'.asked ensures GoodReply(succ, m, s'.asked[m]) {
      assert m != n ==> GoodReply(succ, m, s.asked[m]);
    }
  }

  lemma LocalMiss(s: System, n: Id)
    requires Local(s) && Enabled(s, Miss(n))
    ensures Local(Do(s, Miss(n)))
  {
    hide Leads;
    var s' := Do(s, Miss(n));
    var succ := SuccMap(s.nodes);
    assert GoodNode(succ, n, s.nodes[n]);
    forall m | m in s'.asked ensures GoodReply(succ, m, s'.asked[m]) {
      assert m != n ==> GoodReply(succ, m, s.asked[m]);
    }
  }

  /** What an update does to the successor pointers: nothing, or it re-aims `n` at a node
      in front of its successor that leads to that successor. */
  lemma UpdateReaims(s: System, n: Id)
    requires Local(s) && Enabled(s, Update(n))
    ensures var succ, succ' := SuccMap(s.nodes), SuccMap(Do(s, Update(n)).nodes);
            && n in succ && n in succ' && succ'[n] in succ && succ'[n] != n
            && (succ' == succ ||
                (var x := succ'[n];
                 succ' == succ[n := x] && 0 < Dist(n, x) < Dist(n, succ[n]) && Leads(succ, x, succ[n])))
            && Do(s, Update(n)).notes == s.notes + {(succ'[n], n)}
  {
    hide Leads;
    var succ, succ' := SuccMap(s.nodes), SuccMap(Do(s, Update(n)).nodes);
    var (asked, reply) := s.asked[n];
    assert GoodReply(succ, n, s.asked[n]) && GoodNode(succ, n, s.nodes[n]);
    if Adopts(s.nodes[n], asked, reply) {
      InRangeIsCyclic(reply.value, n, succ[n]);
      assert succ' == succ[n := reply.value];
    } else {
      assert succ' == succ;
    }
  }

  lemma UpdateKeeps(s: System, n: Id)
    requires Local(s) && Enabled(s, Update(n))
    ensures Keeps(SuccMap(s.nodes), SuccMap(Do(s, Update(n)).nodes))
  {
    hide Leads, Local;
    var succ, succ' := SuccMap(s.nodes), SuccMap(Do(s, Update(n)).nodes);
    UpdateReaims(s, n);
    if succ' != succ { KeepsUpdate(succ, n, succ'[n]); }
  }

  /** What an update leaves alone. */
  lemma UpdateSpares(s: System, n: Id)
    requires Enabled(s, Update(n))
    ensures var s' := Do(s, Update(n));
            && s'.nodes.Keys == s.nodes.Keys && s'.asked == s.asked - {n}
            && (forall m :: m in s.nodes ==> s'.nodes[m] == s.nodes[m].(successors := s'.nodes[m].successors))
            && (forall m :: m in s.nodes && m != n ==> s'.nodes[m] == s.nodes[m])
  {
  }

  lemma UpdateNodes(s: System, n: Id)
    requires Local(s) && Enabled(s, Update(n))
    ensures GoodNodes(SuccMap(Do(s, Update(n)).nodes), Do(s, Update(n)).nodes)
    ensures GoodNotes(SuccMap(Do(s, Update(n)).nodes), s.notes)
  {
    hide Leads, Keeps;
    var s' := Do(s, Update(n));
    var succ, succ' := SuccMap(s.nodes), SuccMap(s'.nodes);
    UpdateReaims(s, n);
    UpdateKeeps(s, n);
    UpdateSpares(s, n);
    hide Do;
    GoodKept(succ, succ', s);
    forall m | m in s'.nodes ensures GoodNode(succ', m, s'.nodes[m]) {
      assert GoodNode(succ', m, s.nodes[m]);
      assert m != n ==> s'.nodes[m] == s.nodes[m];
      assert succ'[m] == Succ(s'.nodes[m]);
    }
  }

  lemma UpdateReplies(s: System, n: Id)
    requires Local(s) && Enabled(s, Update(n))
    ensures GoodReplies(SuccMap(Do(s, Update(n)).nodes), Do(s, Update(n)).asked)
  {
    hide Leads, Keeps;
    var s' := Do(s, Update(n));
    var succ, succ' := SuccMap(s.nodes), SuccMap(s'.nodes);
    UpdateReaims(s, n);
    UpdateKeeps(s, n);
    UpdateSpares(s, n);
    hide Do;
    forall m | m in s'.asked ensures GoodReply(succ, m, s'.asked[m]) {
      assert GoodReply(succ, m, s.asked[m]);
    }
    RepliesKept(succ, succ', s'.asked);
  }

  lemma LocalUpdate(s: System, n: Id)
    requires Local(s) && Enabled(s, Update(n))
    ensures Local(Do(s, Update(n)))
  {
    hide Leads, GoodNodes, GoodReplies;
    var s' := Do(s, Update(n));
    var succ' := SuccMap(s'.nodes);
    UpdateNodes(s, n);
    UpdateReplies(s, n);
    UpdateReaims(s, n);
    UpdateSpares(s, n);
    OneStepLeads(succ', n);
    hide Do;
    forall note | note in s'.notes ensures GoodNote(succ', note) {
      assert note in s.notes ==> GoodNote(succ', note);
    }
  }

  lemma LocalDeliver(s: System, to: Id, from: Id)
    requires Local(s) && Enabled(s, Deliver(to, from))
    ensures Local(Do(s, Deliver(to, from))) && SuccMap(Do(s, Deliver(to, from)).nodes) == SuccMap(s.nodes)
  {
    hide Leads;
    var s' := Do(s, Deliver(to, from));
    var succ := SuccMap(s.nodes);
    assert SuccMap(s'.nodes) == succ;
    assert GoodNote(succ, (to, from)) && GoodNode(succ, to, s.nodes[to]);
    forall m | m in s'.nodes ensures GoodNode(succ, m, s'.nodes[m]) {
      assert GoodNode(succ, m, s.nodes[m]);
    }
  }

  lemma LocalStep(s: System, s': System)
    requires Local(s) && Step(s, s')
    ensures Local(s')
  {
    hide Local;
    var a :| Enabled(s, a) && s' == Do(s, a);
    match a
    case Enter(j, e) => LocalJoin(s, j, e);
    case Contact(n) => LocalContact(s, n);
    case Miss(n) => LocalMiss(s, n);
    case Update(n) => LocalUpdate(s, n);
    case Deliver(to, from) => LocalDeliver(s, to, from);
  }

  lemma InvJoin(base: set<Id>, s: System, j: Id, e: Id)
    requires Inv(base, s) && Enabled(s, Enter(j, e))
    ensures Inv(base, Do(s, Enter(j, e)))
  {
    hide Local, Leads, Rooted, BaseIntact;
    var succ, succ' := SuccMap(s.nodes), SuccMap(Do(s, Enter(j, e)).nodes);
    LocalJoin(s, j, e);
    KeepsJoin(succ, j, e);
    BaseKept(succ, succ', base);
    RootedSurvivesJoin(succ, base, j, e);
  }

  lemma InvUpdate(base: set<Id>, s: System, n: Id)
    requires Inv(base, s) && Enabled(s, Update(n))
    ensures Inv(base, Do(s, Update(n)))
  {
    hide Local, Leads, Rooted, BaseIntact;
    var succ, succ' := SuccMap(s.nodes), SuccMap(Do(s, Update(n)).nodes);
    LocalUpdate(s, n);
    UpdateReaims(s, n);
    UpdateKeeps(s, n);
    BaseKept(succ, succ', base);
    if succ' != succ { RootedSurvivesUpdate(succ, base, n, succ'[n]); }
  }

  lemma {:induction false} InvAlways(nodes: Nodes, states: seq<System>)
    requires ConsistentRing(nodes) && IsRun(states) && states[0] == System(nodes, map[], {})
    ensures Inv(nodes.Keys, states[|states| - 1])
  {
    hide ConsistentRing, Inv, Step;
    if |states| == 1 {
      InvInitially(nodes);
    } else {
      InvAlways(nodes, states[..|states| - 1]);
      InvStep(nodes.Keys, states[|states| - 2], states[|states| - 1]);
    }
  }

  lemma InvStep(base: set<Id>, s: System, s': System)
    requires Inv(base, s) && Step(s, s')
    ensures Inv(base, s')
  {
    hide Local, Leads, Rooted, BaseIntact;
    LocalStep(s, s');
    var a :| Enabled(s, a) && s' == Do(s, a);
    match a
    case Enter(j, e) => InvJoin(base, s, j, e);
    case Update(n) => InvUpdate(base, s, n);
    case Deliver(to, from) => LocalDeliver(s, to, from);
    case _ =>
  }

  // ---------------------------------------------------------------- quiescent states

  /** No node would change anything if its successor answered it now and then heard from it. */
  ghost predicate Quiescent(nodes: Nodes) {
    forall n {:trigger Settled(nodes, n)} :: n in nodes ==> Settled(nodes, n)
  }

  ghost predicate Settled(nodes: Nodes, n: Id)
    requires n in nodes
  {
    var s := Succ(nodes[n]);
    && nodes[n].self == n && s in nodes
    && StabilizeRound(nodes[n], nodes[s].predecessor) == nodes[n]
    && (s != n ==> Notified(nodes[s], Some(n)) == nodes[s])
  }

  /** In a quiescent state the successor's predecessor is the node itself. */
  lemma QuiescentMutual(nodes: Nodes, n: Id)
    requires Quiescent(nodes) && n in nodes && Succ(nodes[n]) in nodes && Succ(nodes[n]) != n
    requires nodes[Succ(nodes[n])].predecessor != Some(Succ(nodes[n]))
    ensures nodes[Succ(nodes[n])].predecessor == Some(n)
  {
    assert Settled(nodes, n) && Settled(nodes, Succ(nodes[n]));
    var s := Succ(nodes[n]);
    var p := nodes[s].predecessor;
    if p.Some? && p.value != n {
      InRangeIsCyclic(p.value, n, s);
      InRangeIsCyclic(n, p.value, s);
      DistOrder(n, p.value, s);
    }
  }

  ghost predicate Injective(succ: map<Id, Id>) {
    forall a, b :: a in succ && b in succ && succ[a] == succ[b] ==> a == b
  }

  /** The chain from one member of the base ring visits the whole base ring in order. */
  lemma {:induction false} BaseOnChain(succ: map<Id, Id>, base: set<Id>, r: Id, n: Id)
    requires BaseIntact(succ, base) && r in base && n in base
    ensures Leads(succ, r, n)
    decreases Dist(r, n)
  {
    hide Leads;
    if r == n {
      LeadsSelf(succ, r);
    } else {
      var p := Prev(base, n);
      NextPrevInverse(base, n);
      assert Leads(succ, p, Next(base, p));
      BaseOnChain(succ, base, r, p);
      LeadsTransitive(succ, r, p, n);
    }
  }

  lemma LeadsSelf(succ: map<Id, Id>, a: Id)
    ensures Leads(succ, a, a)
  {
  }

  ghost function Chain(succ: map<Id, Id>, r: Id): set<Id> {
    set c | c in succ.Keys && Leads(succ, r, c)
  }

  lemma ChainBackwardClosed(succ: map<Id, Id>, base: set<Id>, r: Id, a: Id)
    requires BaseIntact(succ, base) && Injective(succ) && r in base
    requires a in succ && Leads(succ, r, succ[a])
    ensures Leads(succ, r, a)
  {
    hide Leads, BaseIntact;
    if succ[a] != r {
      var z := LeadsLast(succ, r, succ[a]);
      assert z == a;
    } else {
      var z := ChainEnd(succ, base, r);
      assert z == a;
    }
  }

  /** The chain from `r` comes back to `r`. */
  lemma ChainEnd(succ: map<Id, Id>, base: set<Id>, r: Id) returns (z: Id)
    requires BaseIntact(succ, base) && r in base
    ensures z in succ && succ[z] == r && Leads(succ, r, z)
  {
    hide Leads;
    var p := Prev(base, r);
    BaseOnChain(succ, base, r, p);
    BaseOnChain(succ, base, p, r);
    z := LeadsLast(succ, p, r);
    DistTurn(p, z, r);
    LeadsTransitive(succ, r, p, z);
  }

  /** With injective successors one chain covers every node. */
  lemma ChainCovers(succ: map<Id, Id>, base: set<Id>, r: Id, n: Id)
    requires BaseIntact(succ, base) && Rooted(succ, base) && Injective(succ)
    requires r in base && n in succ
    ensures Leads(succ, r, n)
  {
    hide Leads;
    var c := Chain(succ, r);
    forall m | m in base ensures m in c {
      BaseOnChain(succ, base, r, m);
    }
    forall a | a in succ && succ[a] in c ensures a in c {
      ChainBackwardClosed(succ, base, r, a);
    }
    assert BackwardClosed(succ, c);
  }

  /** The step of `n` along the chain does not pass the chain's start. */
  lemma NoOvershoot(succ: map<Id, Id>, base: set<Id>, r: Id, n: Id)
    requires BaseIntact(succ, base) && r in base && n in succ && n != r && Leads(succ, r, n)
    ensures Leads(succ, n, r)
        || (n != Prev(base, r) && Leads(succ, n, Prev(base, r)) && Dist(n, Prev(base, r)) < Dist(n, r))
  {
    hide Leads;
    var p := Prev(base, r);
    BaseOnChain(succ, base, r, p);
    BaseOnChain(succ, base, p, r);
    if Dist(r, n) < Dist(r, p) {
      LeadsForks(succ, r, n, p);
    } else {
      LeadsForks(succ, r, p, n);
      LeadsForks(succ, p, n, r);
    }
  }

  lemma FirstStep(succ: map<Id, Id>, a: Id, b: Id)
    requires a in succ && Leads(succ, a, b) && a != b
    ensures 0 < Dist(a, succ[a]) <= Dist(a, b)
  {
  }

  /** Hence every successor pointer is the true one. */
  lemma SuccessorIsNext(succ: map<Id, Id>, base: set<Id>, n: Id, z: Id)
    requires BaseIntact(succ, base) && Rooted(succ, base) && Injective(succ)
    requires n in succ && z in succ && n != z
    ensures Dist(n, succ[n]) <= Dist(n, z)
  {
    hide Leads;
    var r :| r in base;
    ChainCovers(succ, base, r, n);
    ChainCovers(succ, base, r, z);
    if Dist(r, n) <= Dist(r, z) {
      LeadsForks(succ, r, n, z);
      FirstStep(succ, n, z);
    } else {
      var p := Prev(base, r);
      NoOvershoot(succ, base, r, n);
      if Leads(succ, n, r) {
        FirstStep(succ, n, r);
      } else {
        FirstStep(succ, n, p);
      }
    }
  }

  lemma InvMutual(base: set<Id>, s: System, n: Id)
    requires Inv(base, s) && Quiescent(s.nodes) && n in s.nodes
    ensures Succ(s.nodes[n]) in s.nodes && s.nodes[Succ(s.nodes[n])].predecessor == Some(n)
  {
    hide Leads, Rooted, BaseIntact, Quiescent;
    var succ, m := SuccMap(s.nodes), Succ(s.nodes[n]);
    assert GoodNode(succ, n, s.nodes[n]);
    assert GoodNode(succ, m, s.nodes[m]);
    QuiescentMutual(s.nodes, n);
  }

  lemma InvInjective(base: set<Id>, s: System)
    requires Inv(base, s) && Quiescent(s.nodes)
    ensures Injective(SuccMap(s.nodes))
  {
    hide Inv, Quiescent;
    var succ := SuccMap(s.nodes);
    forall a, b | a in succ && b in succ && succ[a] == succ[b] ensures a == b {
      InvMutual(base, s, a);
      InvMutual(base, s, b);
    }
  }

  lemma InvSuccIsNext(base: set<Id>, s: System, n: Id)
    requires Inv(base, s) && Injective(SuccMap(s.nodes)) && n in s.nodes
    ensures s.nodes[n].self == n && Plural(s.nodes.Keys) && Succ(s.nodes[n]) == Next(s.nodes.Keys, n)
  {
    hide Leads, Rooted;
    var succ := SuccMap(s.nodes);
    assert s.nodes.Keys == succ.Keys;
    assert GoodNode(succ, n, s.nodes[n]);
    SuccessorIsNext(succ, base, n, Next(s.nodes.Keys, n));
  }

  lemma InvKnows(base: set<Id>, s: System, n: Id)
    requires Inv(base, s) && Quiescent(s.nodes) && n in s.nodes
    ensures Plural(s.nodes.Keys) && KnowsNeighbours(s.nodes, n)
  {
    hide Inv, Injective, Quiescent;
    InvInjective(base, s);
    InvSuccIsNext(base, s, n);
    var p := Prev(s.nodes.Keys, n);
    InvSuccIsNext(base, s, p);
    NextPrevInverse(s.nodes.Keys, n);
    InvMutual(base, s, p);
  }

  lemma QuiescentIsConsistent(base: set<Id>, s: System)
    requires Inv(base, s) && Quiescent(s.nodes)
    ensures ConsistentRing(s.nodes)
  {
    hide Quiescent;
    var n0 :| n0 in base;
    assert n0 in SuccMap(s.nodes);
    InvKnows(base, s, n0);
    forall n | n in s.nodes ensures KnowsNeighbours(s.nodes, n) {
      InvKnows(base, s, n);
    }
  }
}
