/** The life of a ring put together: nodes join, stabilization settles, the finger
    tables are refreshed, and lookups become exact and short. */
module RingLife {
  import opened Identifiers
  import opened Ring
  import opened Routing
  import opened Stabilization
  import opened Convergence
  import opened Fairness
  import opened Lookup

  ghost predicate AllFingersLive(nodes: Nodes) {
    forall n {:trigger FingersLive(nodes, n)} :: n in nodes ==> FingersLive(nodes, n)
  }

  // ---------------------------------------------------------------- joins and stabilization

  lemma StepKeepsFingersLive(s: System, s': System)
    requires AllFingersLive(s.nodes) && Step(s, s')
    ensures AllFingersLive(s'.nodes)
  {
    var a :| Enabled(s, a) && s' == Do(s, a);
    forall n | n in s'.nodes ensures FingersLive(s'.nodes, n) {
      if n in s.nodes {
        assert FingersLive(s.nodes, n);
        assert s'.nodes[n].fingers == s.nodes[n].fingers;
      }
    }
  }

  lemma {:induction false} RunKeepsFingersLive(states: seq<System>)
    requires IsRun(states) && AllFingersLive(states[0].nodes)
    ensures AllFingersLive(states[|states| - 1].nodes)
  {
    hide Step, AllFingersLive;
    if |states| > 1 {
      var k := |states| - 1;
      RunKeepsFingersLive(states[..k]);
      assert Step(states[k - 1], states[k - 1 + 1]);
      StepKeepsFingersLive(states[k - 1], states[k]);
    }
  }

  // ---------------------------------------------------------------- warming up

  /** `fix_fingers` at a node of a ring whose fingers may not yet route: a remote answer,
      if one is needed, may be any live node or none. */
  function FixWith(nodes: Nodes, n: Id, reply: Option<Id>): Nodes
    requires n in nodes
  {
    var found := match FindStep(nodes[n], FingerStart(nodes[n], FixedIndex(nodes[n])))
      case Answer(m) => Some(m)
      case Ask(_) => reply;
    nodes[n := FingerFixed(nodes[n], found)]
  }

  ghost predicate Warm(nodes: Nodes) {
    ConsistentRing(nodes) && AllFingersLive(nodes)
  }

  ghost predicate FirstTrue(nodes: Nodes, n: Id)
    requires n in nodes && Plural(nodes.Keys)
  {
    nodes[n].fingers[0] == Next(nodes.Keys, n)
  }

  lemma AnswersAreLive(nodes: Nodes, n: Id, id: Id)
    requires Warm(nodes) && n in nodes
    ensures FindStep(nodes[n], id).node in nodes
  {
    assert KnowsNeighbours(nodes, n) && FingersLive(nodes, n);
  }

  lemma FixWithKeepsWarm(nodes: Nodes, n: Id, reply: Option<Id>)
    requires Warm(nodes) && n in nodes && (reply.Some? ==> reply.value in nodes)
    ensures var nodes' := FixWith(nodes, n, reply);
            && Warm(nodes') && nodes'.Keys == nodes.Keys
            && (forall m :: m in nodes ==>
                  && nodes'[m].nextFinger == (if m == n then FixedIndex(nodes[n]) else nodes[m].nextFinger)
                  && (FirstTrue(nodes, m) || (m == n && FixedIndex(nodes[n]) == 0) ==> FirstTrue(nodes', m)))
  {
    var nodes', i := FixWith(nodes, n, reply), FixedIndex(nodes[n]);
    var start := FingerStart(nodes[n], i);
    AnswersAreLive(nodes, n, start);
    FirstFingerIsLocal(nodes, n);
    var v := FindStep(nodes[n], start);
    FingersDoNotMatter(nodes, n, if v.Answer? then Some(v.node) else reply);
    hide FindStep, FingerStart, ConsistentRing;
    assert nodes'.Keys == nodes.Keys;
    forall m | m in nodes' ensures FingersLive(nodes', m) {
      assert FingersLive(nodes, m);
    }
  }

  /** A sequence of such refreshes by various nodes. */
  ghost predicate Replies(nodes: Nodes, steps: seq<(Id, Option<Id>)>) {
    forall s :: s in steps ==> s.0 in nodes && (s.1.Some? ==> s.1.value in nodes)
  }

  ghost function WarmUp(nodes: Nodes, steps: seq<(Id, Option<Id>)>): (r: Nodes)
    requires Warm(nodes) && Replies(nodes, steps)
    ensures Warm(r) && r.Keys == nodes.Keys
  {
    if steps == [] then nodes else
    var before, s := WarmUp(nodes, steps[..|steps| - 1]), steps[|steps| - 1];
    FixWithKeepsWarm(before, s.0, s.1);
    FixWith(before, s.0, s.1)
  }

  /** Who refreshes, in order. */
  function Refreshers(steps: seq<(Id, Option<Id>)>): (order: seq<Id>)
    ensures |order| == |steps| && forall i :: 0 <= i < |steps| ==> order[i] == steps[i].0
  {
    seq(|steps|, i requires 0 <= i < |steps| => steps[i].0)
  }

  lemma {:induction false} WarmUpProgress(nodes: Nodes, steps: seq<(Id, Option<Id>)>, n: Id)
    requires Warm(nodes) && Replies(nodes, steps) && n in nodes
    ensures var r, k := WarmUp(nodes, steps), nodes[n].nextFinger + Count(Refreshers(steps), n);
            n in r && (if k < FINGER_TABLE_SIZE then r[n].nextFinger == k else FirstTrue(r, n))
  {
    if steps != [] {
      var init, s := steps[..|steps| - 1], steps[|steps| - 1];
      WarmUpProgress(nodes, init, n);
      assert Refreshers(steps)[..|init|] == Refreshers(init);
      FixWithKeepsWarm(WarmUp(nodes, init), s.0, s.1);
      hide FixWith, Warm;
    }
  }

  /** After 160 refreshes of every node, in any interleaving and with any live answers,
      every first finger is true, which is all that exact lookups need. */
  lemma WarmUpRoutes(nodes: Nodes, steps: seq<(Id, Option<Id>)>)
    requires Warm(nodes) && Replies(nodes, steps)
    requires forall n :: n in nodes ==> Count(Refreshers(steps), n) >= FINGER_TABLE_SIZE
    ensures FirstFingerTrue(WarmUp(nodes, steps))
  {
    hide WarmUp, Count;
    var r := WarmUp(nodes, steps);
    forall n {:trigger FingersLive(r, n)} | n in r ensures FingersLive(r, n) && r[n].fingers[0] == Next(r.Keys, n) {
      hide ConsistentRing;
      WarmUpProgress(nodes, steps, n);
      assert FirstTrue(r, n);
    }
    hide Next, FingersLive;
  }

  // ---------------------------------------------------------------- all together

  /** In `steps` and again in `order`, every node runs `fix_fingers` at least 160 times. */
  ghost predicate Refreshed(nodes: Nodes, steps: seq<(Id, Option<Id>)>, order: seq<Id>) {
    && Replies(nodes, steps) && (forall m :: m in nodes ==> Count(Refreshers(steps), m) >= FINGER_TABLE_SIZE)
    && (forall m :: m in order ==> m in nodes) && (forall m :: m in nodes ==> Count(order, m) >= FINGER_TABLE_SIZE)
  }

  /** Any joins into a consistent ring, however interleaved: whenever the run comes to
      rest, 160 refreshes of every node followed by 160 more make every lookup from
      every node return the true owner within 160 hops. */
  lemma LookupsAfterJoins(nodes: Nodes, states: seq<System>, steps: seq<(Id, Option<Id>)>, order: seq<Id>, n: Id,
      id: Id)
    requires Warm(nodes) && IsRun(states) && states[0] == System(nodes, map[], {})
    requires var last := states[|states| - 1].nodes;
             Quiescent(last) && Refreshed(last, steps, order) && n in last
    ensures var last := states[|states| - 1].nodes;
            Warm(last) && ShortLookup(last, steps, order, n, id)
  {
    hide Quiescent, ConsistentRing, Refreshed, ShortLookup;
    RestIsConsistentRing(nodes, states);
    RunKeepsFingersLive(states);
    LookupsShort(states[|states| - 1].nodes, steps, order, n, id);
  }

  lemma {:induction false} SweepsKeepFingersLive(s: System, sweeps: seq<Trace>)
    requires AllFingersLive(s.nodes) && Chained(s, sweeps)
    ensures AllFingersLive(End(s, sweeps).nodes)
    decreases |sweeps|
  {
    hide AllFingersLive, Takes;
    if sweeps != [] {
      TraceIsRun(sweeps[0]);
      RunKeepsFingersLive(sweeps[0].states);
      SweepsKeepFingersLive(Last(sweeps[0]), sweeps[1..]);
    }
  }

  /** The same without supposing rest: joins, then any schedule with enough sweeps, then
      the refreshes. */
  lemma LookupsAfterSweeps(nodes: Nodes, states: seq<System>, sweeps: seq<Trace>, steps: seq<(Id, Option<Id>)>,
      order: seq<Id>, n: Id, id: Id)
    requires Warm(nodes) && IsRun(states) && states[0] == System(nodes, map[], {})
    requires Chained(states[|states| - 1], sweeps) && |sweeps| > Total(states[|states| - 1].nodes)
    requires var settled := End(states[|states| - 1], sweeps).nodes;
             Refreshed(settled, steps, order) && n in settled
    ensures var settled := End(states[|states| - 1], sweeps).nodes;
            && settled.Keys == states[|states| - 1].nodes.Keys
            && Warm(settled) && ShortLookup(settled, steps, order, n, id)
  {
    hide Chained, End, Total, ConsistentRing, Refreshed, ShortLookup;
    FairSchedulesConverge(nodes, states, sweeps);
    RunKeepsFingersLive(states);
    SweepsKeepFingersLive(states[|states| - 1], sweeps);
    LookupsShort(End(states[|states| - 1], sweeps).nodes, steps, order, n, id);
  }

  ghost predicate ShortLookup(nodes: Nodes, steps: seq<(Id, Option<Id>)>, order: seq<Id>, n: Id, id: Id)
    requires Warm(nodes) && n in nodes
  {
    && Replies(nodes, steps) && FirstFingerTrue(WarmUp(nodes, steps))
        && (forall m :: m in order ==> m in WarmUp(nodes, steps))
    && var refreshed := FixAll(WarmUp(nodes, steps), order);
       && Routable(refreshed) && n in refreshed
       && Find(refreshed, n, id).node == Successor(nodes.Keys, id) && Find(refreshed, n, id).hops <= 160
  }

  lemma LookupsShort(nodes: Nodes, steps: seq<(Id, Option<Id>)>, order: seq<Id>, n: Id, id: Id)
    requires Warm(nodes) && n in nodes && Refreshed(nodes, steps, order)
    ensures ShortLookup(nodes, steps, order, n, id)
  {
    WarmUpRoutes(nodes, steps);
    var warm := WarmUp(nodes, steps);
    RefreshMakesPerfect(warm, order);
    LookupIn160Hops(FixAll(warm, order), n, id);
  }
}
