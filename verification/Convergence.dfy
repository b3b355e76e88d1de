/** What stabilization achieves: pointers change finitely often whatever replies arrive,
    and with the handlers' replies the only place a run can come to rest is the ideal
    ring over all nodes that ever joined. */
module Convergence {
  import opened Identifiers
  import opened Ring
  import opened Routing
  import opened Stabilization

  // ---------------------------------------------------------------- the potential

  /** How far the two pointers of a node are from it; an unset predecessor counts a full turn. */
  function Slack(node: Node): nat {
    Dist(node.self, Succ(node)) +
    if node.predecessor.None? then RING_SIZE else Dist(node.predecessor.value, node.self)
  }

  ghost function TotalOver(nodes: Nodes, ids: set<Id>): nat
    requires ids <= nodes.Keys
  {
    if ids == {} then 0 else
    var n :| n in ids;
    Slack(nodes[n]) + TotalOver(nodes, ids - {n})
  }

  ghost function Total(nodes: Nodes): nat {
    TotalOver(nodes, nodes.Keys)
  }

  lemma {:induction false} TotalOverPick(nodes: Nodes, ids: set<Id>, n: Id)
    requires ids <= nodes.Keys && n in ids
    ensures TotalOver(nodes, ids) == Slack(nodes[n]) + TotalOver(nodes, ids - {n})
  {
    var m :| m in ids && TotalOver(nodes, ids) == Slack(nodes[m]) + TotalOver(nodes, ids - {m});
    if m != n {
      TotalOverPick(nodes, ids - {m}, n);
      TotalOverPick(nodes, ids - {n}, m);
      assert ids - {m} - {n} == ids - {n} - {m};
    }
  }

  lemma {:induction false} TotalOverUntouched(nodes: Nodes, nodes': Nodes, ids: set<Id>)
    requires ids <= nodes.Keys && ids <= nodes'.Keys
    requires forall n :: n in ids ==> nodes'[n] == nodes[n]
    ensures TotalOver(nodes', ids) == TotalOver(nodes, ids)
  {
    if ids != {} {
      var n :| n in ids;
      TotalOverPick(nodes, ids, n);
      TotalOverPick(nodes', ids, n);
      TotalOverUntouched(nodes, nodes', ids - {n});
    }
  }

  lemma TotalAfterChange(nodes: Nodes, n: Id, node: Node)
    requires n in nodes
    ensures Total(nodes[n := node]) == Total(nodes) - Slack(nodes[n]) + Slack(node)
  {
    var nodes' := nodes[n := node];
    assert nodes'.Keys == nodes.Keys;
    TotalOverPick(nodes, nodes.Keys, n);
    TotalOverPick(nodes', nodes.Keys, n);
    TotalOverUntouched(nodes, nodes', nodes.Keys - {n});
  }

  // ---------------------------------------------------------------- arbitrary replies

  /** A stabilization round of `n` that got reply `x`, or a notification of `n` by `x`. */
  datatype Poke = Round(n: Id, x: Option<Id>) | Note(n: Id, x: Option<Id>)

  function Poked(node: Node, p: Poke): Node {
    if p.Round? then StabilizeRound(node, p.x) else Notified(node, p.x)
  }

  lemma SlackShrinks(node: Node, p: Poke)
    ensures var r := Poked(node, p); r == node || (r.self == node.self && Slack(r) < Slack(node))
  {
    if p.x.Some? {
      InRangeIsCyclic(p.x.value, node.self, Succ(node));
      if node.predecessor.Some? { InRangeIsCyclic(p.x.value, node.predecessor.value, node.self); }
    }
  }

  /** All states of a run of pokes, and how many of them changed something. */
  ghost predicate IsPoking(states: seq<Nodes>) {
    states != [] && forall i :: 0 <= i < |states| - 1 ==> PokeStep(states[i], states[i + 1])
  }

  ghost predicate PokeStep(nodes: Nodes, nodes': Nodes) {
    exists p: Poke :: p.n in nodes && nodes' == nodes[p.n := Poked(nodes[p.n], p)]
  }

  ghost function Changes(states: seq<Nodes>): nat {
    if |states| <= 1 then 0
    else Changes(states[..|states| - 1]) + if states[|states| - 2] == states[|states| - 1] then 0 else 1
  }

  lemma PokeShrinks(nodes: Nodes, nodes': Nodes)
    requires PokeStep(nodes, nodes')
    ensures nodes' == nodes || Total(nodes') < Total(nodes)
  {
    var p: Poke :| p.n in nodes && nodes' == nodes[p.n := Poked(nodes[p.n], p)];
    SlackShrinks(nodes[p.n], p);
    TotalAfterChange(nodes, p.n, nodes'[p.n]);
  }

  /** Whatever the replies and notifications say, in whatever order, the number of
      pointer changes of a run is bounded by the potential it starts with. */
  lemma {:induction false} ChangesAreBounded(states: seq<Nodes>)
    requires IsPoking(states)
    ensures Changes(states) + Total(states[|states| - 1]) <= Total(states[0])
  {
    if |states| > 1 {
      var k := |states| - 1;
      ChangesAreBounded(states[..k]);
      assert PokeStep(states[k - 1], states[k - 1 + 1]);
      PokeShrinks(states[k - 1], states[k]);
    }
  }

  // ---------------------------------------------------------------- truthful replies

  lemma ConsistentIsQuiescent(nodes: Nodes)
    requires ConsistentRing(nodes)
    ensures Quiescent(nodes)
  {
    forall n | n in nodes ensures Settled(nodes, n) {
      var s := Next(nodes.Keys, n);
      assert KnowsNeighbours(nodes, n) && KnowsNeighbours(nodes, s);
      NextPrevInverse(nodes.Keys, n);
    }
  }

  /** Start from any consistent ring of at least two nodes; let any nodes join, through
      any member, at any time, while rounds, replies and notifications interleave. A
      state of the run is at rest exactly when it is the consistent ring over all
      nodes present. */
  lemma RestIsConsistentRing(nodes: Nodes, states: seq<System>)
    requires ConsistentRing(nodes) && IsRun(states) && states[0] == System(nodes, map[], {})
    ensures var last := states[|states| - 1].nodes; Quiescent(last) <==> ConsistentRing(last)
  {
    var last := states[|states| - 1];
    InvAlways(nodes, states);
    if Quiescent(last.nodes) { QuiescentIsConsistent(nodes.Keys, last); }
    if ConsistentRing(last.nodes) { ConsistentIsQuiescent(last.nodes); }
  }

  // ---------------------------------------------------------------- rest can always be reached

  /** `s'` comes after `s` in a run in which nobody joins. */
  ghost predicate Follows(s: System, s': System) {
    s'.nodes.Keys == s.nodes.Keys && exists states :: IsRun(states) && states[0] == s && states[|states| - 1] == s'
  }

  lemma FollowsItself(s: System)
    ensures Follows(s, s)
  {
    assert IsRun([s]);
  }

  lemma FollowsStep(s: System, s': System, a: Action)
    requires Follows(s, s') && Enabled(s', a) && Do(s', a).nodes.Keys == s'.nodes.Keys
    ensures Follows(s, Do(s', a))
  {
    assert Step(s', Do(s', a));
    hide Step;
    var states :| IsRun(states) && states[0] == s && states[|states| - 1] == s';
    var longer := states + [Do(s', a)];
    forall i | 0 <= i < |longer| - 1 ensures Step(longer[i], longer[i + 1]) {
      assert i < |states| - 1 ==> Step(states[i], states[i + 1]);
    }
    assert IsRun(longer);
  }

  lemma {:induction false} FollowsTransitive(s: System, s': System, states: seq<System>)
    requires Follows(s, s') && IsRun(states) && states[0] == s'
    requires states[|states| - 1].nodes.Keys == s.nodes.Keys
    ensures Follows(s, states[|states| - 1])
  {
    hide Step;
    var first :| IsRun(first) && first[0] == s && first[|first| - 1] == s';
    var all := first + states[1..];
    forall i | 0 <= i < |all| - 1 ensures Step(all[i], all[i + 1]) {
      if i < |first| - 1 {
        assert Step(first[i], first[i + 1]);
      } else {
        var j := i - (|first| - 1);
        assert all[i] == states[j] && all[i + 1] == states[j + 1];
      }
    }
    assert IsRun(all);
  }

  lemma {:induction false} InvFollows(base: set<Id>, states: seq<System>)
    requires IsRun(states) && Inv(base, states[0])
    ensures Inv(base, states[|states| - 1])
  {
    hide Inv, Step;
    if |states| > 1 {
      var k := |states| - 1;
      InvFollows(base, states[..k]);
      assert Step(states[k - 1], states[k - 1 + 1]);
      InvStep(base, states[k - 1], states[k]);
    }
  }

  /** Finishing a pending round either changes nothing or lowers the potential. */
  lemma UpdateShrinks(base: set<Id>, s: System, n: Id)
    requires Inv(base, s) && Enabled(s, Update(n))
    ensures var s' := Do(s, Update(n));
            && s'.nodes.Keys == s.nodes.Keys && n !in s'.asked
            && (s'.nodes == s.nodes || Total(s'.nodes) < Total(s.nodes))
            && s'.nodes == s.nodes[n := StabilizeRound(s.nodes[n], s.asked[n].1)]
            && (s'.nodes == s.nodes ==> (Succ(s.nodes[n]), n) in s'.notes)
  {
    hide Leads, Rooted, BaseIntact, InRange;
    var s' := Do(s, Update(n));
    var succ := SuccMap(s.nodes);
    assert GoodReply(succ, n, s.asked[n]) && GoodNode(succ, n, s.nodes[n]);
    var p := Round(n, s.asked[n].1);
    assert s'.nodes == s.nodes[p.n := Poked(s.nodes[p.n], p)];
    PokeShrinks(s.nodes, s'.nodes);
    if s'.nodes == s.nodes {
      assert Stabilized(s.nodes[n], s.asked[n].0, s.asked[n].1) == s'.nodes[n];
    }
  }

  /** One undisturbed round of an unsettled node lowers the potential. */
  lemma RoundShrinks(base: set<Id>, s: System, n: Id) returns (s': System)
    requires Inv(base, s) && n in s.nodes && n !in s.asked && !Settled(s.nodes, n)
    ensures Follows(s, s') && Total(s'.nodes) < Total(s.nodes)
  {
    hide Leads, Rooted, BaseIntact, InRange, Total, Follows;
    FollowsItself(s);
    var succ, m := SuccMap(s.nodes), Succ(s.nodes[n]);
    assert GoodNode(succ, n, s.nodes[n]);
    assert GoodNode(succ, m, s.nodes[m]);
    var s1 := Do(s, Contact(n));
    FollowsStep(s, s, Contact(n));
    LocalContact(s, n);
    var s2 := Do(s1, Update(n));
    UpdateShrinks(base, s1, n);
    FollowsStep(s, s1, Update(n));
    if s2.nodes == s.nodes {
      s' := Do(s2, Deliver(m, n));
      FollowsStep(s, s2, Deliver(m, n));
      var p := Note(m, Some(n));
      assert s'.nodes == s.nodes[p.n := Poked(s.nodes[p.n], p)];
      PokeShrinks(s.nodes, s'.nodes);
    } else {
      s' := s2;
    }
  }

  lemma Progress(base: set<Id>, s: System) returns (s': System)
    requires Inv(base, s) && !Quiescent(s.nodes)
    ensures Follows(s, s') && Total(s'.nodes) < Total(s.nodes)
  {
    hide Inv, Total, Follows;
    var n :| n in s.nodes && !Settled(s.nodes, n);
    if n in s.asked {
      var s1 := Do(s, Update(n));
      UpdateShrinks(base, s, n);
      FollowsItself(s);
      FollowsStep(s, s, Update(n));
      InvUpdate(base, s, n);
      if s1.nodes == s.nodes {
        s' := RoundShrinks(base, s1, n);
        FollowsJoin(s, s1, s');
      } else {
        s' := s1;
      }
    } else {
      s' := RoundShrinks(base, s, n);
    }
  }

  lemma FollowsJoin(s: System, s': System, s'': System)
    requires Follows(s, s') && Follows(s', s'')
    ensures Follows(s, s'')
  {
    var states :| IsRun(states) && states[0] == s' && states[|states| - 1] == s'';
    FollowsTransitive(s, s', states);
  }

  lemma InvAfter(base: set<Id>, s: System, s': System)
    requires Inv(base, s) && Follows(s, s')
    ensures Inv(base, s')
  {
    hide Inv;
    var states :| IsRun(states) && states[0] == s && states[|states| - 1] == s';
    InvFollows(base, states);
  }

  /** From every reachable state, some rounds lead to the consistent ring over the nodes
      present. */
  lemma {:induction false} ConvergesFrom(base: set<Id>, s: System) returns (s': System)
    requires Inv(base, s)
    ensures Follows(s, s') && ConsistentRing(s'.nodes)
    decreases Total(s.nodes)
  {
    hide Inv, Total, Follows, Quiescent, ConsistentRing;
    if Quiescent(s.nodes) {
      QuiescentIsConsistent(base, s);
      FollowsItself(s);
      s' := s;
    } else {
      var s1 := Progress(base, s);
      InvAfter(base, s, s1);
      s' := ConvergesFrom(base, s1);
      FollowsJoin(s, s1, s');
    }
  }

  /** A step in which nobody joins is, for the pointers, a round or a notification. */
  lemma StepIsPoke(base: set<Id>, s: System, s': System)
    requires Inv(base, s) && Step(s, s') && s'.nodes.Keys == s.nodes.Keys
    ensures PokeStep(s.nodes, s'.nodes)
  {
    hide Leads, Rooted, InRange, Total;
    var a :| Enabled(s, a) && s' == Do(s, a);
    match a
    case Enter(j, e) => assert false;
    case Contact(n) =>
      var p := Note(n, None);
      assert s'.nodes == s.nodes[p.n := Poked(s.nodes[p.n], p)];
    case Miss(n) =>
      var p := Note(n, None);
      assert s'.nodes == s.nodes[p.n := Poked(s.nodes[p.n], p)];
    case Update(n) =>
      var p := Round(n, s.asked[n].1);
      UpdateShrinks(base, s, n);
      assert s'.nodes == s.nodes[p.n := Poked(s.nodes[p.n], p)];
    case Deliver(to, from) =>
      var p := Note(to, Some(from));
      assert s'.nodes == s.nodes[p.n := Poked(s.nodes[p.n], p)];
  }

  ghost function NodesOf(states: seq<System>): (r: seq<Nodes>)
    ensures |r| == |states| && forall i :: 0 <= i < |r| ==> r[i] == states[i].nodes
  {
    seq(|states|, i requires 0 <= i < |states| => states[i].nodes)
  }

  /** Between joins, a run changes pointers at most as often as its potential says. */
  lemma RunsSettle(base: set<Id>, states: seq<System>)
    requires IsRun(states) && Inv(base, states[0])
    requires forall i :: 0 <= i < |states| ==> states[i].nodes.Keys == states[0].nodes.Keys
    ensures Changes(NodesOf(states)) <= Total(states[0].nodes)
  {
    hide Inv, Total, PokeStep, Step;
    var nodes := NodesOf(states);
    forall i | 0 <= i < |nodes| - 1 ensures PokeStep(nodes[i], nodes[i + 1]) {
      assert Step(states[i], states[i + 1]);
      InvFollows(base, states[..i + 1]);
      StepIsPoke(base, states[i], states[i + 1]);
    }
    ChangesAreBounded(nodes);
  }

  lemma JoinsConverge(nodes: Nodes, states: seq<System>)
    requires ConsistentRing(nodes) && IsRun(states) && states[0] == System(nodes, map[], {})
    ensures exists s' :: Follows(states[|states| - 1], s') && ConsistentRing(s'.nodes)
  {
    hide Inv, Follows, ConsistentRing;
    InvAlways(nodes, states);
    var s' := ConvergesFrom(nodes.Keys, states[|states| - 1]);
  }

  /** In every quiescent state, reachable or not, two nodes that share a successor are
      the same, or one of them is that successor: a lone seed, its own successor, can be
      shared with the node that joined it. */
  lemma QuiescentInjective(nodes: Nodes, a: Id, b: Id)
    requires Quiescent(nodes) && a in nodes && b in nodes
    requires forall n :: n in nodes ==> nodes[n].predecessor != Some(n)
    requires Succ(nodes[a]) == Succ(nodes[b])
    ensures a == b || Succ(nodes[a]) == a || Succ(nodes[b]) == b
  {
    assert Settled(nodes, a) && Settled(nodes, b);
    if a != b && Succ(nodes[a]) != a && Succ(nodes[b]) != b {
      QuiescentMutual(nodes, a);
      QuiescentMutual(nodes, b);
    }
  }

  /** The exception occurs: a node that joined a lone seed and has notified it. */
  lemma SeedSharesSuccessor(seed: Id, n: Id) returns (states: seq<System>)
    requires n != seed
    ensures IsRun(states) && states[0] == System(map[seed := Alone(seed)], map[], {})
    ensures var nodes := states[|states| - 1].nodes;
            && Quiescent(nodes) && n in nodes && seed in nodes
            && (forall m :: m in nodes ==> nodes[m].predecessor != Some(m))
            && Succ(nodes[n]) == seed && Succ(nodes[seed]) == seed
  {
    var s0 := System(map[seed := Alone(seed)], map[], {});
    var s1 := Do(s0, Enter(n, seed));
    var s2 := Do(s1, Contact(n));
    var s3 := Do(s2, Update(n));
    assert (seed, n) in s3.notes;
    var s4 := Do(s3, Deliver(seed, n));
    assert Step(s0, s1) && Step(s1, s2) && Step(s2, s3) && Step(s3, s4);
    states := [s0, s1, s2, s3, s4];
    InRangeIsCyclic(n, n, seed);
    assert Settled(s4.nodes, n) && Settled(s4.nodes, seed);
  }

  /** A node that is its own successor stays so: it never contacts anybody. */
  lemma {:induction false} SelfLoopStays(states: seq<System>, n: Id)
    requires IsRun(states) && n in states[0].nodes && Succ(states[0].nodes[n]) == n && n !in states[0].asked
    ensures var last := states[|states| - 1]; n in last.nodes && Succ(last.nodes[n]) == n && n !in last.asked
  {
    if |states| > 1 {
      var k := |states| - 1;
      SelfLoopStays(states[..k], n);
      assert Step(states[k - 1], states[k - 1 + 1]);
      var a :| Enabled(states[k - 1], a) && states[k] == Do(states[k - 1], a);
    }
  }

  lemma RingHasNoSelfLoop(nodes: Nodes, n: Id)
    requires ConsistentRing(nodes) && n in nodes
    ensures Succ(nodes[n]) != n
  {
    assert KnowsNeighbours(nodes, n);
  }

  /** A seed that is alone keeps itself as successor whoever joins it, so the ring never
      closes. */
  lemma SeedNeverCloses(seed: Id, states: seq<System>)
    requires IsRun(states) && states[0] == System(map[seed := Alone(seed)], map[], {})
    ensures var last := states[|states| - 1];
            seed in last.nodes && Succ(last.nodes[seed]) == seed && seed !in last.asked && !ConsistentRing(last.nodes)
  {
    hide Step, ConsistentRing;
    var last := states[|states| - 1].nodes;
    SelfLoopStays(states, seed);
    if ConsistentRing(last) { RingHasNoSelfLoop(last, seed); }
  }
}
