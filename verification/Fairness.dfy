/** Every fair schedule converges. A sweep is a stretch of a run in which nobody joins and
    every node completes a round: its successor answers it, it uses the answer, and the
    notification it then sends is delivered. Anything else may happen in between, failed
    contacts included. */
module Fairness {
  import opened Identifiers
  import opened Ring
  import opened Routing
  import opened Stabilization
  import opened Convergence

  /** A run with its actions: `states[i + 1]` is what `actions[i]` made of `states[i]`. */
  datatype Trace = Trace(states: seq<System>, actions: seq<Action>)

  ghost predicate IsTrace(t: Trace) {
    && |t.states| == |t.actions| + 1
    && forall i :: 0 <= i < |t.actions| ==> Takes(t.states[i], t.actions[i], t.states[i + 1])
  }

  ghost predicate Takes(s: System, a: Action, s': System) {
    !a.Enter? && Enabled(s, a) && s' == Do(s, a)
  }

  ghost function First(t: Trace): System
    requires IsTrace(t)
  {
    t.states[0]
  }

  ghost function Last(t: Trace): System
    requires IsTrace(t)
  {
    t.states[|t.actions|]
  }

  /** A round of `n`: an answered contact, the update that uses the answer, and delivery of
      the notification of that update. */
  ghost predicate Round(t: Trace, n: Id, i: nat, j: nat, k: nat)
    requires IsTrace(t)
  {
    && i < j < k < |t.actions|
    && t.actions[i] == Contact(n) && t.actions[j] == Update(n)
    && (forall l :: i < l < j ==> t.actions[l] != Update(n))
    && Takes(t.states[j], t.actions[j], t.states[j + 1])
    && t.actions[k] == Deliver(Told(t.states[j].nodes[n], t.states[j].asked[n]), n)
  }

  ghost predicate Sweep(t: Trace) {
    IsTrace(t) && forall n :: n in First(t).nodes ==> exists i, j, k :: Round(t, n, i, j, k)
  }

  // ---------------------------------------------------------------- the ring stays

  lemma PointersOfRing(nodes: Nodes, n: Id, x: Id)
    requires ConsistentRing(nodes) && n in nodes && x in nodes
    ensures nodes[n].self == n && StabilizeRound(nodes[n], Some(x)) == nodes[n]
        && Notified(nodes[n], Some(x)) == nodes[n]
  {
    assert KnowsNeighbours(nodes, n);
    InRangeIsCyclic(x, n, Succ(nodes[n]));
    InRangeIsCyclic(x, Prev(nodes.Keys, n), n);
    if x != n && 0 < Dist(Prev(nodes.Keys, n), x) < Dist(Prev(nodes.Keys, n), n) {
      DistSplits(Prev(nodes.Keys, n), x, n);
    }
  }

  /** Once the ring is consistent, late replies, repeated notifications and further
      rounds change nothing: only a join can. */
  lemma RingStays(base: set<Id>, s: System, a: Action)
    requires Inv(base, s) && ConsistentRing(s.nodes) && Enabled(s, a) && !a.Enter?
    ensures Do(s, a).nodes == s.nodes
  {
    hide Leads, Rooted, BaseIntact, ConsistentRing;
    var succ := SuccMap(s.nodes);
    match a
    case Contact(n) =>
    case Miss(n) =>
    case Update(n) =>
      UpdateShrinks(base, s, n);
      assert GoodReply(succ, n, s.asked[n]);
      if s.asked[n].1.Some? { PointersOfRing(s.nodes, n, s.asked[n].1.value); }
    case Deliver(to, from) =>
      assert GoodNote(succ, (to, from));
      PointersOfRing(s.nodes, to, from);
  }

  // ---------------------------------------------------------------- along a trace

  lemma TraceIsRun(t: Trace)
    requires IsTrace(t)
    ensures IsRun(t.states)
  {
    forall i | 0 <= i < |t.states| - 1 ensures Step(t.states[i], t.states[i + 1]) {
      assert Takes(t.states[i], t.actions[i], t.states[i + 1]);
    }
  }

  lemma InvAlong(base: set<Id>, t: Trace, i: nat)
    requires IsTrace(t) && Inv(base, First(t)) && i <= |t.actions|
    ensures Inv(base, t.states[i])
  {
    hide Inv, Takes, Step;
    TraceIsRun(t);
    InvFollows(base, t.states[..i + 1]);
  }

  lemma ActionShrinks(base: set<Id>, s: System, a: Action, s': System)
    requires Inv(base, s) && Takes(s, a, s')
    ensures s'.nodes.Keys == s.nodes.Keys
    ensures s'.nodes == s.nodes || (Total(s'.nodes) < Total(s.nodes) && !ConsistentRing(s.nodes))
  {
    hide Inv, Total, ConsistentRing;
    assert Step(s, s');
    StepIsPoke(base, s, s');
    PokeShrinks(s.nodes, s'.nodes);
    if ConsistentRing(s.nodes) { RingStays(base, s, a); }
  }

  /** Up to any point of a trace the pointers are untouched, or the potential is lower
      and the start was not the consistent ring. */
  lemma {:induction false} Descends(base: set<Id>, t: Trace, i: nat)
    requires IsTrace(t) && Inv(base, First(t)) && i <= |t.actions|
    ensures t.states[i].nodes.Keys == First(t).nodes.Keys
    ensures Total(t.states[i].nodes) <= Total(First(t).nodes)
    ensures Total(t.states[i].nodes) == Total(First(t).nodes) || ConsistentRing(First(t).nodes) ==>
              forall j :: 0 <= j <= i ==> t.states[j].nodes == First(t).nodes
  {
    hide Inv, Total, ConsistentRing, Takes;
    if i > 0 {
      Descends(base, t, i - 1);
      InvAlong(base, t, i - 1);
      assert Takes(t.states[i - 1], t.actions[i - 1], t.states[i - 1 + 1]);
      ActionShrinks(base, t.states[i - 1], t.actions[i - 1], t.states[i]);
    }
  }

  /** Over whole runs: a consistent ring once reached is left only by a join. */
  lemma OnlyJoinsDisturb(nodes: Nodes, states: seq<System>, t: Trace, i: nat)
    requires ConsistentRing(nodes) && IsRun(states) && states[0] == System(nodes, map[], {})
    requires ConsistentRing(states[|states| - 1].nodes)
    requires IsTrace(t) && First(t) == states[|states| - 1] && i <= |t.actions|
    ensures t.states[i].nodes == states[|states| - 1].nodes
  {
    hide Inv, ConsistentRing, Takes;
    InvAlways(nodes, states);
    Descends(nodes.Keys, t, i);
  }

  // ---------------------------------------------------------------- a sweep without changes

  ghost predicate Still(t: Trace, nodes: Nodes)
    requires IsTrace(t)
  {
    forall i :: 0 <= i < |t.states| ==> t.states[i].nodes == nodes
  }

  /** While no pointer changes, a reply asked for after the start is what the successor
      would still answer. */
  lemma {:induction false} ReplyIsCurrent(t: Trace, nodes: Nodes, n: Id, i: nat, j: nat)
    requires IsTrace(t) && Still(t, nodes) && i < j <= |t.actions| && t.actions[i] == Contact(n)
    requires forall l :: i < l < j ==> t.actions[l] != Update(n)
    ensures n in nodes && Succ(nodes[n]) in nodes
    ensures n in t.states[j].asked && t.states[j].asked[n] == (Succ(nodes[n]), nodes[Succ(nodes[n])].predecessor)
  {
    assert Takes(t.states[j - 1], t.actions[j - 1], t.states[j - 1 + 1]);
    assert t.states[j - 1].nodes == nodes;
    if i < j - 1 { ReplyIsCurrent(t, nodes, n, i, j - 1); }
  }

  lemma SettledByRound(base: set<Id>, t: Trace, nodes: Nodes, n: Id, i: nat, j: nat, k: nat)
    requires IsTrace(t) && Inv(base, First(t)) && Still(t, nodes) && Round(t, n, i, j, k)
    ensures n in nodes && Settled(nodes, n)
  {
    ReplyIsCurrent(t, nodes, n, i, j);
    assert t.states[j].nodes == nodes && t.states[j + 1].nodes == nodes;
    assert t.states[k].nodes == nodes && t.states[k + 1].nodes == nodes;
    InvAlong(base, t, j);
    hide Leads, Rooted, BaseIntact, InRange;
    UpdateShrinks(base, t.states[j], n);
    var m := Succ(nodes[n]);
    assert GoodNode(SuccMap(nodes), n, nodes[n]);
    assert Takes(t.states[k], t.actions[k], t.states[k + 1]);
    NoAdoption(nodes[n], nodes[m].predecessor);
    assert t.actions[k] == Deliver(m, n);
  }

  lemma NoAdoption(node: Node, x: Option<Id>)
    requires StabilizeRound(node, x) == node && Succ(node) != node.self
    ensures Told(node, (Succ(node), x)) == Succ(node)
  {
  }

  /** A sweep in which no pointer changes happens only in the consistent ring. */
  lemma StillSweepIsRing(base: set<Id>, t: Trace, nodes: Nodes)
    requires Sweep(t) && Inv(base, First(t)) && Still(t, nodes)
    ensures ConsistentRing(nodes)
  {
    hide Inv, ConsistentRing, Settled, Round;
    assert First(t).nodes == nodes;
    forall n | n in nodes ensures Settled(nodes, n) {
      var i, j, k :| Round(t, n, i, j, k);
      SettledByRound(base, t, nodes, n, i, j, k);
    }
    QuiescentIsConsistent(base, First(t));
  }

  /** Every sweep ends in the consistent ring or lowers the potential, and never leaves
      the ring. */
  lemma SweepProgresses(base: set<Id>, t: Trace)
    requires Sweep(t) && Inv(base, First(t))
    ensures IsTrace(t) && Inv(base, Last(t)) && Last(t).nodes.Keys == First(t).nodes.Keys
    ensures ConsistentRing(Last(t).nodes) || Total(Last(t).nodes) < Total(First(t).nodes)
    ensures ConsistentRing(First(t).nodes) ==> Last(t).nodes == First(t).nodes
  {
    hide Inv, ConsistentRing, Total, Round;
    InvAlong(base, t, |t.actions|);
    Descends(base, t, |t.actions|);
    if Total(Last(t).nodes) == Total(First(t).nodes) {
      StillSweepIsRing(base, t, First(t).nodes);
    }
  }

  // ---------------------------------------------------------------- sweeps exist

  ghost function Then(t: Trace, a: Action): (r: Trace)
    requires IsTrace(t) && !a.Enter? && Enabled(Last(t), a)
    ensures IsTrace(r) && First(r) == First(t) && Last(r) == Do(Last(t), a)
    ensures |r.actions| == |t.actions| + 1 && r.actions[|t.actions|] == a && Extends(t, r)
  {
    Trace(t.states + [Do(Last(t), a)], t.actions + [a])
  }

  ghost predicate Extends(t: Trace, r: Trace) {
    t.states <= r.states && t.actions <= r.actions
  }

  lemma RoundExtends(t: Trace, r: Trace, n: Id, i: nat, j: nat, k: nat)
    requires IsTrace(t) && IsTrace(r) && Extends(t, r) && Round(t, n, i, j, k)
    ensures Round(r, n, i, j, k)
  {
    hide Takes;
  }

  lemma CanContact(base: set<Id>, s: System, n: Id)
    requires Inv(base, s) && n in s.nodes && n !in s.asked
    ensures Enabled(s, Contact(n)) && Inv(base, Do(s, Contact(n)))
  {
    hide Leads, Rooted, BaseIntact;
    assert GoodNode(SuccMap(s.nodes), n, s.nodes[n]);
    LocalContact(s, n);
  }

  lemma CanDeliver(base: set<Id>, s: System, n: Id)
    requires Inv(base, s) && Enabled(s, Update(n))
    ensures Inv(base, Do(s, Update(n)))
    ensures Enabled(Do(s, Update(n)), Deliver(Told(s.nodes[n], s.asked[n]), n))
  {
    hide Leads, Rooted, BaseIntact, Keeps;
    assert GoodReply(SuccMap(s.nodes), n, s.asked[n]);
    UpdateReaims(s, n);
    InvUpdate(base, s, n);
  }

  lemma RoundWhenIdle(base: set<Id>, t: Trace, n: Id) returns (r: Trace)
    requires IsTrace(t) && Inv(base, Last(t)) && n in Last(t).nodes && n !in Last(t).asked
    ensures IsTrace(r) && Extends(t, r) && exists i, j, k :: Round(r, n, i, j, k)
  {
    hide Inv, IsTrace;
    CanContact(base, Last(t), n);
    var asked := Then(t, Contact(n));
    CanDeliver(base, Last(asked), n);
    var told := Then(asked, Update(n));
    r := Then(told, Deliver(Told(Last(asked).nodes[n], Last(asked).asked[n]), n));
    assert Takes(Last(asked), Update(n), Last(told));
    hide Takes, Told;
    assert Round(r, n, |t.actions|, |t.actions| + 1, |t.actions| + 2);
  }

  /** From every reachable state every node can make a whole round. */
  lemma RoundFrom(base: set<Id>, t: Trace, n: Id) returns (r: Trace)
    requires IsTrace(t) && Inv(base, First(t)) && n in Last(t).nodes
    ensures IsTrace(r) && Extends(t, r) && exists i, j, k :: Round(r, n, i, j, k)
  {
    hide Inv, Takes, Round;
    InvAlong(base, t, |t.actions|);
    var idle := t;
    if n in Last(t).asked {
      CanDeliver(base, Last(t), n);
      idle := Then(t, Update(n));
    }
    r := RoundWhenIdle(base, idle, n);
  }

  lemma {:induction false} RoundsFrom(base: set<Id>, s: System, ids: set<Id>) returns (t: Trace)
    requires Inv(base, s) && ids <= s.nodes.Keys
    ensures IsTrace(t) && First(t) == s
    ensures forall n :: n in ids ==> exists i, j, k :: Round(t, n, i, j, k)
  {
    hide Inv, Round, Takes;
    if ids == {} {
      t := Trace([s], []);
    } else {
      var n :| n in ids;
      var before := RoundsFrom(base, s, ids - {n});
      hide Total;
      Descends(base, before, |before.actions|);
      t := RoundFrom(base, before, n);
      forall m | m in ids ensures exists i, j, k :: Round(t, m, i, j, k) {
        if m != n {
          assert m in ids - {n};
          var i, j, k :| Round(before, m, i, j, k);
          RoundExtends(before, t, m, i, j, k);
        }
      }
    }
  }

  /** From every reachable state a sweep can be made. */
  lemma SweepExists(base: set<Id>, s: System) returns (t: Trace)
    requires Inv(base, s)
    ensures Sweep(t) && First(t) == s
  {
    hide Inv, Round, Takes;
    t := RoundsFrom(base, s, s.nodes.Keys);
  }

  // ---------------------------------------------------------------- fair schedules

  /** `sweeps` follow one another, the first one starting in `s`. */
  ghost predicate Chained(s: System, sweeps: seq<Trace>)
    decreases |sweeps|
  {
    sweeps == [] || (Sweep(sweeps[0]) && First(sweeps[0]) == s && Chained(Last(sweeps[0]), sweeps[1..]))
  }

  ghost function End(s: System, sweeps: seq<Trace>): System
    requires Chained(s, sweeps)
    decreases |sweeps|
  {
    if sweeps == [] then s else End(Last(sweeps[0]), sweeps[1..])
  }

  lemma {:induction false} SweepsProgress(base: set<Id>, s: System, sweeps: seq<Trace>)
    requires Inv(base, s) && Chained(s, sweeps)
    ensures var e := End(s, sweeps);
            && Inv(base, e) && e.nodes.Keys == s.nodes.Keys
            && (ConsistentRing(e.nodes) || Total(e.nodes) + |sweeps| <= Total(s.nodes))
            && (ConsistentRing(s.nodes) ==> e.nodes == s.nodes)
    decreases |sweeps|
  {
    hide Inv, ConsistentRing, Total, Sweep;
    if sweeps != [] {
      SweepProgresses(base, sweeps[0]);
      SweepsProgress(base, Last(sweeps[0]), sweeps[1..]);
    }
  }

  /** Sweeps never run out: from every reachable state any number of them can be made. */
  lemma {:induction false} SweepsExist(base: set<Id>, s: System, count: nat) returns (sweeps: seq<Trace>)
    requires Inv(base, s)
    ensures Chained(s, sweeps) && |sweeps| == count
    decreases count
  {
    hide Inv, Sweep, ConsistentRing, Total;
    sweeps := [];
    if count > 0 {
      var t := SweepExists(base, s);
      SweepProgresses(base, t);
      var rest := SweepsExist(base, Last(t), count - 1);
      sweeps := [t] + rest;
      assert sweeps[1..] == rest;
    }
  }

  /** Any nodes join a consistent ring, through any members, while everything interleaves.
      From then on let nobody join: after more sweeps than the potential says, the ring
      over all nodes present is consistent, whichever schedule was taken. */
  lemma FairSchedulesConverge(nodes: Nodes, states: seq<System>, sweeps: seq<Trace>)
    requires ConsistentRing(nodes) && IsRun(states) && states[0] == System(nodes, map[], {})
    requires Chained(states[|states| - 1], sweeps) && |sweeps| > Total(states[|states| - 1].nodes)
    ensures var s, e := states[|states| - 1], End(states[|states| - 1], sweeps);
            ConsistentRing(e.nodes) && e.nodes.Keys == s.nodes.Keys
  {
    hide Inv, ConsistentRing, Total, Chained, End;
    InvAlways(nodes, states);
    SweepsProgress(nodes.Keys, states[|states| - 1], sweeps);
  }
}
