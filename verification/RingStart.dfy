/** Which joins form a ring. `join` contacts nobody, so nodes may start by joining through
    one another in any way. Whether stabilization ever makes a consistent ring of them is
    decided by the successor pointers they start with. */
module RingStart {
  import opened Identifiers
  import opened Ring
  import opened Routing
  import opened Stabilization
  import opened Convergence
  import opened Fairness

  /** Nodes that have joined through one another and done nothing else. */
  ghost predicate JustJoined(nodes: Nodes) {
    forall n {:trigger nodes[n]} :: n in nodes ==>
      nodes[n].self == n && nodes[n].predecessor.None? && Succ(nodes[n]) in nodes
  }

  ghost predicate Closed(succ: map<Id, Id>) {
    forall a :: a in succ ==> succ[a] in succ
  }

  /** The members of `cycle` follow one another once around the ring, so that their
      clockwise distances add up to one turn, and every node leads into them. */
  ghost predicate OneTurnOver(succ: map<Id, Id>, cycle: set<Id>) {
    && Plural(cycle) && cycle <= succ.Keys && Rooted(succ, cycle)
    && forall m {:trigger Next(cycle, m)} :: m in cycle ==> succ[m] == Next(cycle, m)
  }

  ghost predicate OneTurn(succ: map<Id, Id>) {
    exists cycle :: OneTurnOver(succ, cycle)
  }

  // ---------------------------------------------------------------- one turn is enough

  /** A node that is its own successor leads nowhere. */
  lemma NoSelfLoop(succ: map<Id, Id>, cycle: set<Id>, n: Id)
    requires OneTurnOver(succ, cycle) && n in succ
    ensures succ[n] != n
  {
    if succ[n] == n {
      assert n in cycle ==> succ[n] == Next(cycle, n);
      assert BackwardClosed(succ, succ.Keys - {n});
    }
  }

  lemma JoinedIsGood(nodes: Nodes, n: Id)
    requires JustJoined(nodes) && n in nodes && Succ(nodes[n]) != n
    ensures GoodNode(SuccMap(nodes), n, nodes[n])
  {
    hide Leads;
  }

  lemma JoinedIsLocal(nodes: Nodes)
    requires JustJoined(nodes) && forall n :: n in nodes ==> Succ(nodes[n]) != n
    ensures Local(System(nodes, map[], {}))
  {
    hide GoodNode, GoodReply, GoodNote, JustJoined;
    var succ := SuccMap(nodes);
    forall n {:trigger GoodNode(succ, n, nodes[n])} | n in nodes ensures GoodNode(succ, n, nodes[n]) {
      JoinedIsGood(nodes, n);
    }
  }

  lemma CycleCloses(succ: map<Id, Id>, cycle: set<Id>)
    requires OneTurnOver(succ, cycle)
    ensures forall m :: m in cycle ==> m in succ && succ[m] in cycle
  {
    hide Rooted;
    forall m | m in cycle ensures succ[m] in cycle { assert succ[m] == Next(cycle, m); }
  }

  lemma OneTurnIsInv(nodes: Nodes, cycle: set<Id>)
    requires JustJoined(nodes) && OneTurnOver(SuccMap(nodes), cycle)
    ensures Inv(cycle, System(nodes, map[], {}))
  {
    hide Leads, Rooted, Local, JustJoined;
    var succ := SuccMap(nodes);
    forall n | n in nodes ensures Succ(nodes[n]) != n {
      assert n in succ;
      NoSelfLoop(succ, cycle, n);
    }
    JoinedIsLocal(nodes);
    forall m {:trigger Next(cycle, m)} | m in cycle ensures Leads(succ, m, Next(cycle, m)) {
      OneStepLeads(succ, m);
    }
  }

  /** Joins that make one turn, any further joins, then any schedule with enough sweeps:
      the ring over all nodes is consistent. */
  lemma OneTurnConverges(nodes: Nodes, states: seq<System>, sweeps: seq<Trace>)
    requires JustJoined(nodes) && OneTurn(SuccMap(nodes))
    requires IsRun(states) && states[0] == System(nodes, map[], {})
    requires Chained(states[|states| - 1], sweeps) && |sweeps| > Total(states[|states| - 1].nodes)
    ensures var s, e := states[|states| - 1], End(states[|states| - 1], sweeps);
            ConsistentRing(e.nodes) && e.nodes.Keys == s.nodes.Keys
  {
    hide Inv, ConsistentRing, Total, Chained, End, OneTurnOver, Step;
    var cycle :| OneTurnOver(SuccMap(nodes), cycle);
    OneTurnIsInv(nodes, cycle);
    InvFollows(cycle, states);
    SweepsProgress(cycle, states[|states| - 1], sweeps);
  }

  // ---------------------------------------------------------------- an update undone

  lemma {:induction false} ForwardClosedLeads(succ: map<Id, Id>, c: set<Id>, a: Id, b: Id)
    requires Leads(succ, a, b) && a in c && forall m :: m in c && m in succ ==> succ[m] in c
    ensures b in c
    decreases Dist(a, b)
  {
    if a != b {
      DistSplits(a, succ[a], b);
      ForwardClosedLeads(succ, c, succ[a], b);
    }
  }

  /** A path that does not come past `y` does not depend on where `y` points. */
  lemma {:induction false} LeadsAvoids(succ: map<Id, Id>, y: Id, x: Id, a: Id, b: Id)
    requires y in succ && Leads(succ[y := x], a, b) && Dist(a, b) <= Dist(a, y)
    ensures Leads(succ, a, b)
    decreases Dist(a, b)
  {
    if a != b {
      var t := succ[y := x][a];
      DistSplits(a, t, b);
      assert a != y && t == succ[a];
      if t != b { DistSplits(a, t, y); }
      LeadsAvoids(succ, y, x, t, b);
    }
  }

  /** The nodes from which following successors gets to `base`. */
  ghost function Basin(succ: map<Id, Id>, base: set<Id>): set<Id> {
    set a | a in succ.Keys && forall c: set<Id> :: base <= c && BackwardClosed(succ, c) ==> a in c
  }

  lemma BasinIsBackwardClosed(succ: map<Id, Id>, base: set<Id>)
    requires base <= succ.Keys
    ensures base <= Basin(succ, base) && BackwardClosed(succ, Basin(succ, base))
  {
  }

  /** If members of `base` point into it, the basin is closed under successors as well. */
  lemma BasinIsForwardClosed(succ: map<Id, Id>, base: set<Id>, a: Id)
    requires base <= succ.Keys && (forall m :: m in base ==> succ[m] in base)
    requires a in Basin(succ, base)
    ensures succ[a] in Basin(succ, base)
  {
    var c := Basin(succ, base);
    BasinIsBackwardClosed(succ, base);
    if succ[a] !in c {
      assert a !in base;
      assert BackwardClosed(succ, c - {a});
    }
  }

  lemma BasinRoots(succ: map<Id, Id>, base: set<Id>)
    requires succ.Keys <= Basin(succ, base)
    ensures Rooted(succ, base)
  {
  }

  /** The basin of the old pointers is closed for the new ones too. */
  lemma BasinOutlives(succ: map<Id, Id>, y: Id, x: Id, base: set<Id>)
    requires y in succ && Leads(succ, x, succ[y])
    requires base <= succ.Keys && (forall m :: m in base ==> succ[m] in base)
    ensures BackwardClosed(succ[y := x], Basin(succ, base))
  {
    var c := Basin(succ, base);
    BasinIsBackwardClosed(succ, base);
    forall m | m in c ensures m in succ && succ[m] in c { BasinIsForwardClosed(succ, base, m); }
    hide Basin;
    if x in c { ForwardClosedLeads(succ, c, x, succ[y]); }
    hide Leads;
  }

  /** Undoing the update of a node outside the cycle. */
  lemma UndoOutside(succ: map<Id, Id>, y: Id, x: Id, cycle: set<Id>)
    requires y in succ && Leads(succ, x, succ[y])
    requires OneTurnOver(succ[y := x], cycle) && y !in cycle
    ensures OneTurnOver(succ, cycle)
  {
    hide Leads, Basin, BackwardClosed;
    var succ', c := succ[y := x], Basin(succ, cycle);
    forall m {:trigger Next(cycle, m)} | m in cycle ensures succ[m] == Next(cycle, m) {
      assert succ'[m] == Next(cycle, m);
    }
    forall m | m in cycle ensures succ[m] in cycle { assert succ[m] == Next(cycle, m); }
    BasinOutlives(succ, y, x, cycle);
    BasinIsBackwardClosed(succ, cycle);
    assert succ'.Keys == succ.Keys;
    hide Next;
    assert succ'.Keys <= c;
    BasinRoots(succ, cycle);
  }

  /** What is left of the cycle when `y` points to `s` again. */
  ghost function Shortcut(cycle: set<Id>, y: Id, s: Id): set<Id> {
    set m | m in cycle && !(0 < Dist(y, m) < Dist(y, s))
  }

  lemma ShortcutNext(cycle: set<Id>, y: Id, s: Id, m: Id)
    requires Plural(cycle) && y in cycle && s in cycle && y != s && m in Shortcut(cycle, y, s)
    ensures Plural(Shortcut(cycle, y, s))
    ensures Next(Shortcut(cycle, y, s), m) == if m == y then s else Next(cycle, m)
  {
    var b := Shortcut(cycle, y, s);
    assert y in b && s in b;
    var z, t := Next(b, m), Next(cycle, m);
    assert z in cycle;
    if m == y {
      assert Dist(y, z) <= Dist(y, s);
    } else {
      assert Dist(m, t) <= Dist(m, y);
      assert t in b;
    }
  }

  /** Members of the cycle between `y` and `s` lead to `s` without `y`. */
  lemma SkippedLead(succ: map<Id, Id>, y: Id, x: Id, cycle: set<Id>, m: Id)
    requires y in succ && OneTurnOver(succ[y := x], cycle) && y in cycle && succ[y] in cycle
    requires m in cycle && 0 < Dist(y, m) < Dist(y, succ[y])
    ensures Leads(succ, m, succ[y])
  {
    hide Leads, Rooted;
    var succ', s := succ[y := x], succ[y];
    forall n {:trigger Next(cycle, n)} | n in cycle ensures Leads(succ', n, Next(cycle, n)) {
      OneStepLeads(succ', n);
    }
    BaseOnChain(succ', cycle, y, m);
    BaseOnChain(succ', cycle, y, s);
    LeadsForks(succ', y, m, s);
    LeadsAvoids(succ, y, x, m, s);
  }

  lemma ShortcutRoots(succ: map<Id, Id>, y: Id, x: Id, cycle: set<Id>)
    requires y in succ && OneTurnOver(succ[y := x], cycle) && y in cycle && succ[y] in cycle
    ensures Rooted(succ, Shortcut(cycle, y, succ[y]))
  {
    hide Leads;
    var succ', s, b := succ[y := x], succ[y], Shortcut(cycle, y, succ[y]);
    assert y in b && s in b;
    forall c: set<Id> | b <= c && BackwardClosed(succ, c) ensures succ.Keys <= c {
      forall m | m in cycle ensures m in c {
        if m !in b {
          SkippedLead(succ, y, x, cycle, m);
          BackwardClosedLeads(succ, c, m, s);
        }
      }
      assert BackwardClosed(succ', c);
      assert succ'.Keys == succ.Keys;
    }
  }

  /** Undoing the update of a node on the cycle. */
  lemma UndoInside(succ: map<Id, Id>, y: Id, x: Id, cycle: set<Id>)
    requires y in succ && 0 < Dist(y, x) < Dist(y, succ[y]) && Leads(succ, x, succ[y])
    requires OneTurnOver(succ[y := x], cycle) && y in cycle
    ensures OneTurnOver(succ, Shortcut(cycle, y, succ[y]))
  {
    hide Leads, Rooted;
    var succ', s := succ[y := x], succ[y];
    CycleCloses(succ', cycle);
    assert succ'[y] == x;
    LeadsSurvivesUpdate(succ, y, x, x, s);
    ForwardClosedLeads(succ', cycle, x, s);
    ShortcutRoots(succ, y, x, cycle);
    var b := Shortcut(cycle, y, s);
    assert y in b;
    forall m {:trigger Next(b, m)} | m in b ensures Plural(b) && succ[m] == Next(b, m) {
      assert succ'[m] == Next(cycle, m);
      ShortcutNext(cycle, y, s, m);
    }
    ShortcutNext(cycle, y, s, y);
  }

  // ---------------------------------------------------------------- a run undone

  lemma UndoJoin(succ: map<Id, Id>, j: Id, e: Id, cycle: set<Id>)
    requires Closed(succ) && j !in succ && OneTurnOver(succ[j := e], cycle)
    ensures OneTurnOver(succ, cycle)
  {
    var succ' := succ[j := e];
    if j in cycle {
      NextPrevInverse(cycle, j);
      assert false;
    }
    forall m {:trigger Next(cycle, m)} | m in cycle ensures m in succ && succ[m] == Next(cycle, m) {
      assert succ'[m] == Next(cycle, m);
    }
    forall c: set<Id> | cycle <= c && BackwardClosed(succ, c) ensures succ.Keys <= c {
      assert BackwardClosed(succ', c + {j});
      assert succ'.Keys <= c + {j};
    }
  }

  lemma LocalIsClosed(s: System)
    requires Local(s)
    ensures Closed(SuccMap(s.nodes))
  {
    hide Leads;
    forall n | n in s.nodes ensures Succ(s.nodes[n]) in s.nodes {
      assert GoodNode(SuccMap(s.nodes), n, s.nodes[n]);
    }
  }

  /** No step makes one turn of pointers that did not make one. */
  lemma UndoStep(s: System, s': System)
    requires Local(s) && Step(s, s') && OneTurn(SuccMap(s'.nodes))
    ensures OneTurn(SuccMap(s.nodes))
  {
    hide Local, Leads, OneTurnOver;
    var a :| Enabled(s, a) && s' == Do(s, a);
    var succ, cycle :| succ == SuccMap(s.nodes) && OneTurnOver(SuccMap(s'.nodes), cycle);
    match a
    case Enter(j, e) =>
      LocalJoin(s, j, e);
      LocalIsClosed(s);
      UndoJoin(succ, j, e, cycle);
    case Update(n) =>
      UpdateReaims(s, n);
      var x := SuccMap(s'.nodes)[n];
      if SuccMap(s'.nodes) != succ {
        if n in cycle { UndoInside(succ, n, x, cycle); } else { UndoOutside(succ, n, x, cycle); }
      }
    case Deliver(to, from) => LocalDeliver(s, to, from);
    case _ =>
  }

  lemma {:induction false} UndoRun(states: seq<System>)
    requires IsRun(states) && Local(states[0]) && OneTurn(SuccMap(states[|states| - 1].nodes))
    ensures OneTurn(SuccMap(states[0].nodes))
  {
    hide Local, OneTurn, Step;
    if |states| > 1 {
      assert Step(states[0], states[0 + 1]);
      LocalStep(states[0], states[1]);
      UndoRun(states[1..]);
      UndoStep(states[0], states[1]);
    }
  }

  lemma RingIsOneTurn(nodes: Nodes)
    requires ConsistentRing(nodes)
    ensures OneTurn(SuccMap(nodes))
  {
    var succ := SuccMap(nodes);
    assert succ.Keys == nodes.Keys;
    forall m {:trigger Next(nodes.Keys, m)} | m in nodes.Keys ensures succ[m] == Next(nodes.Keys, m) {
      assert KnowsNeighbours(nodes, m);
    }
    assert OneTurnOver(succ, nodes.Keys);
  }

  /** Joins that do not make one turn never become a ring, whoever joins later and
      whatever is scheduled: a lone seed, two separate circles, a circle that goes around
      more than once. */
  lemma NoTurnNoRing(nodes: Nodes, states: seq<System>)
    requires JustJoined(nodes) && IsRun(states) && states[0] == System(nodes, map[], {})
    requires ConsistentRing(states[|states| - 1].nodes)
    ensures OneTurn(SuccMap(nodes))
  {
    hide Step, OneTurn, ConsistentRing, JustJoined, Local;
    var last := states[|states| - 1];
    forall n | n in nodes ensures Succ(nodes[n]) != n {
      if Succ(nodes[n]) == n {
        SelfLoopStays(states, n);
        RingHasNoSelfLoop(last.nodes, n);
      }
    }
    JoinedIsLocal(nodes);
    RingIsOneTurn(last.nodes);
    UndoRun(states);
  }

  /** Nodes that joined through one another can become a consistent ring if and only if
      their successor pointers make one turn; then every fair schedule makes them one. */
  lemma RingFormsIff(nodes: Nodes)
    requires JustJoined(nodes)
    ensures (exists s :: Follows(System(nodes, map[], {}), s) && ConsistentRing(s.nodes)) <==> OneTurn(SuccMap(nodes))
  {
    hide Inv, Step, ConsistentRing, OneTurnOver, JustJoined;
    var start := System(nodes, map[], {});
    if OneTurn(SuccMap(nodes)) {
      var cycle :| OneTurnOver(SuccMap(nodes), cycle);
      OneTurnIsInv(nodes, cycle);
      var s := ConvergesFrom(cycle, start);
    }
    if s :| Follows(start, s) && ConsistentRing(s.nodes) {
      var states :| IsRun(states) && states[0] == start && states[|states| - 1] == s;
      NoTurnNoRing(nodes, states);
    }
  }

  // ---------------------------------------------------------------- examples

  /** Two nodes that join through each other become a ring. */
  lemma MutualJoiners(a: Id, b: Id)
    requires a != b
    ensures var nodes: Nodes := map[a := Joined(Alone(a), Some(b)), b := Joined(Alone(b), Some(a))];
            JustJoined(nodes) && OneTurn(SuccMap(nodes))
  {
    var nodes: Nodes := map[a := Joined(Alone(a), Some(b)), b := Joined(Alone(b), Some(a))];
    var succ, cycle := SuccMap(nodes), {a, b};
    assert a in cycle && b in cycle;
    assert succ == map[a := b, b := a];
    assert Next(cycle, a) == b && Next(cycle, b) == a;
    assert OneTurnOver(succ, cycle);
  }

  lemma AllOnCycle(succ: map<Id, Id>, cycle: set<Id>, m: Id)
    requires succ == map[0 := 2, 1 := 0, 2 := 1] && m in cycle && cycle <= succ.Keys
    requires forall n :: n in cycle ==> succ[n] in cycle
    ensures 0 in cycle && 1 in cycle
  {
    assert succ[m] in cycle && succ[succ[m]] in cycle;
  }

  lemma OneFollowsZero(cycle: set<Id>)
    requires 0 in cycle && 1 in cycle
    ensures Plural(cycle) && Next(cycle, 0) == 1
  {
    assert Dist(0, Next(cycle, 0)) <= Dist(0, 1);
  }

  lemma TwiceAround(succ: map<Id, Id>, cycle: set<Id>)
    requires succ == map[0 := 2, 1 := 0, 2 := 1]
    ensures !OneTurnOver(succ, cycle)
  {
    hide Rooted, Next;
    if OneTurnOver(succ, cycle) {
      CycleCloses(succ, cycle);
      var m :| m in cycle;
      AllOnCycle(succ, cycle, m);
      OneFollowsZero(cycle);
      hide Dist, Plural;
      assert false;
    }
  }

  /** Three nodes that join the wrong way round, so that the circle goes around twice, do not. */
  lemma WrongWayRound()
    ensures var nodes: Nodes := map[0 := Joined(Alone(0), Some(2)), 1 := Joined(Alone(1), Some(0)),
        2 := Joined(Alone(2), Some(1))];
            JustJoined(nodes) && !OneTurn(SuccMap(nodes))
  {
    var nodes: Nodes := map[0 := Joined(Alone(0), Some(2)), 1 := Joined(Alone(1), Some(0)),
        2 := Joined(Alone(2), Some(1))];
    var succ := SuccMap(nodes);
    assert succ == map[0 := 2, 1 := 0, 2 := 1];
    hide OneTurnOver, SuccMap;
    forall cycle ensures !OneTurnOver(succ, cycle) {
      TwiceAround(succ, cycle);
    }
  }
}
