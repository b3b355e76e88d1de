/** Key lookup across nodes. A remote `find_successor` is answered the way the
    FIND_SUCCESSOR handler answers it: by the contacted node's own `find_successor`. */
module Lookup {
  import opened Identifiers
  import opened Ring
  import opened Routing
  import opened Stabilization

  // ---------------------------------------------------------------- what lookup needs

  ghost predicate FingersLive(nodes: Nodes, n: Id)
    requires n in nodes
  {
    forall i :: 0 <= i < FINGER_TABLE_SIZE ==> nodes[n].fingers[i] in nodes
  }

  /** True neighbours, live fingers, and the true successor somewhere among the
      fingers; every other finger may be as stale as it likes. */
  ghost predicate Routable(nodes: Nodes) {
    && ConsistentRing(nodes)
    && forall n {:trigger FingersLive(nodes, n)} :: n in nodes ==>
         FingersLive(nodes, n) && Next(nodes.Keys, n) in nodes[n].fingers
  }

  /** One remote call, and what it leaves to do. */
  lemma HopAdvances(nodes: Nodes, n: Id, id: Id)
    requires Routable(nodes) && n in nodes
    ensures var v := FindStep(nodes[n], id);
            && v.node in nodes
            && (v.Answer? ==> v.node == Successor(nodes.Keys, id))
            && (v.Ask? ==> 0 < Dist(n, v.node) < Dist(n, id) && Dist(v.node, id) < Dist(n, id))
  {
    var node, v, s := nodes[n], FindStep(nodes[n], id), Next(nodes.Keys, n);
    assert KnowsNeighbours(nodes, n) && FingersLive(nodes, n);
    ResponsibilityPartition(nodes.Keys, n, id);
    NextOwns(nodes.Keys, n, id);
    InRangeIsCyclic(id, n, s);
    if v.Ask? {
      InRangeIsCyclic(v.node, n, id);
      DistSplits(n, v.node, id);
    } else if v.node != n {
      // the true successor, a finger, is usable unless the key lies before it
      InRangeIsCyclic(s, n, id);
      var i :| 0 <= i < FINGER_TABLE_SIZE && node.fingers[i] == s;
      assert !Responsible(node, id) && n != id;
      assert InRange(id, n, s, true) || Usable(node, s, id);
    }
  }

  /** With true neighbours, however bad the fingers: a node that is not responsible and has
      no finger on the way to the key answers with its true successor, and that answer is
      right exactly when the key lies no farther than the successor. */
  lemma WithoutFingers(nodes: Nodes, n: Id, id: Id)
    requires ConsistentRing(nodes) && n in nodes && !Responsible(nodes[n], id)
    requires forall f :: f in nodes[n].fingers ==> !(0 < Dist(n, f) < Dist(n, id))
    ensures FindStep(nodes[n], id) == Answer(Next(nodes.Keys, n))
    ensures Next(nodes.Keys, n) == Successor(nodes.Keys, id) <==> 0 < Dist(n, id) <= Dist(n, Next(nodes.Keys, n))
  {
    assert KnowsNeighbours(nodes, n);
    EveryLookupStep(nodes[n], id);
    NextOwns(nodes.Keys, n, id);
    InRangeIsCyclic(id, n, Next(nodes.Keys, n));
  }

  datatype Found = Found(node: Id, hops: nat)

  /** The whole lookup, with the number of remote calls it made. It terminates because
      every hop gets closer to the key, however stale the fingers. */
  function Find(nodes: Nodes, n: Id, id: Id): (r: Found)
    requires Routable(nodes) && n in nodes
    ensures r.node == Successor(nodes.Keys, id)
    decreases Dist(n, id)
  {
    HopAdvances(nodes, n, id);
    match FindStep(nodes[n], id)
    case Answer(node) => Found(node, 0)
    case Ask(node) => var r := Find(nodes, node, id); Found(r.node, r.hops + 1)
  }

  /** The nodes a lookup visits: each asks the next one, the last one answers. */
  ghost predicate Visits(nodes: Nodes, path: seq<Id>, id: Id, answer: Id) {
    && path != [] && (forall i :: 0 <= i < |path| ==> path[i] in nodes)
    && (forall i :: 0 <= i < |path| - 1 ==> FindStep(nodes[path[i]], id) == Ask(path[i + 1]))
    && FindStep(nodes[path[|path| - 1]], id) == Answer(answer)
  }

  /** `hops` counts the remote calls: one for every node visited after the first. */
  lemma {:induction false} FindVisits(nodes: Nodes, n: Id, id: Id) returns (path: seq<Id>)
    requires Routable(nodes) && n in nodes
    ensures Visits(nodes, path, id, Find(nodes, n, id).node) && path[0] == n && |path| == Find(nodes, n, id).hops + 1
    decreases Dist(n, id)
  {
    HopAdvances(nodes, n, id);
    hide Routable, FindStep;
    path := [n];
    if FindStep(nodes[n], id).Ask? {
      var rest := FindVisits(nodes, FindStep(nodes[n], id).node, id);
      path := [n] + rest;
    }
  }

  // ---------------------------------------------------------------- exact fingers: 160 hops

  ghost predicate ExactFinger(nodes: Nodes, n: Id, i: nat)
    requires n in nodes && i < FINGER_TABLE_SIZE
  {
    nodes[n].fingers[i] == Successor(nodes.Keys, FingerStart(nodes[n], i))
  }

  ghost predicate Perfect(nodes: Nodes) {
    && ConsistentRing(nodes)
    && forall n, i {:trigger ExactFinger(nodes, n, i)} ::
         n in nodes && 0 <= i < FINGER_TABLE_SIZE ==> ExactFinger(nodes, n, i)
  }

  /** The first finger is the true successor. */
  lemma FirstFingerIsNext(nodes: set<Id>, n: Id)
    requires Plural(nodes) && n in nodes
    ensures Successor(nodes, Advance(n, 1)) == Next(nodes, n)
  {
    var s, t := Successor(nodes, Advance(n, 1)), Next(nodes, n);
    assert Dist(Advance(n, 1), s) <= Dist(Advance(n, 1), t);
    assert Dist(Advance(n, 1), s) <= Dist(Advance(n, 1), n);
    assert s != n ==> Dist(n, t) <= Dist(n, s);
  }

  lemma PerfectIsRoutable(nodes: Nodes)
    requires Perfect(nodes)
    ensures Routable(nodes)
  {
    forall n | n in nodes ensures FingersLive(nodes, n) && Next(nodes.Keys, n) in nodes[n].fingers {
      assert KnowsNeighbours(nodes, n);
      forall i | 0 <= i < FINGER_TABLE_SIZE ensures nodes[n].fingers[i] in nodes {
        assert ExactFinger(nodes, n, i);
      }
      assert ExactFinger(nodes, n, 0);
      FirstFingerIsNext(nodes.Keys, n);
      assert nodes[n].fingers[0] in nodes[n].fingers;
    }
  }

  lemma {:induction false} Log2(d: nat, k: nat) returns (i: nat)
    requires 0 < d < Pow2(k)
    ensures i < k && Pow2(i) <= d < Pow2(i + 1)
  {
    if Pow2(k - 1) <= d { i := k - 1; } else { i := Log2(d, k - 1); }
  }

  /** Finger i lies at least 2^i ahead, or is the node itself. */
  lemma FingerReach(nodes: set<Id>, n: Id, step: Id, f: Id)
    requires n in nodes && step > 0 && f == Successor(nodes, Advance(n, step))
    ensures f == n || Dist(n, f) == step + Dist(Advance(n, step), f)
    ensures forall p :: p in nodes && step <= Dist(n, p) ==> Dist(n, f) <= Dist(n, p)
  {
    assert Dist(Advance(n, step), f) <= Dist(Advance(n, step), n);
  }

  /** The member just before a key. */
  ghost function Before(nodes: set<Id>, id: Id): Id
    requires Plural(nodes)
  {
    Prev(nodes, Successor(nodes, id))
  }

  /** No member lies strictly between `Before` and the key. */
  lemma NothingBetween(nodes: set<Id>, id: Id, c: Id)
    requires Plural(nodes) && c in nodes
    ensures var p := Before(nodes, id);
            0 < Dist(p, id) <= Dist(p, Successor(nodes, id)) && (c == p || Dist(p, id) <= Dist(p, c))
  {
    var o, p := Successor(nodes, id), Before(nodes, id);
    NextPrevInverse(nodes, o);
    ResponsibilityPartition(nodes, o, id);
    InRangeIsCyclic(id, p, o);
  }

  /** For a node that must ask on, `Before` is on the way to the key and no member
      that precedes the key lies past it. */
  lemma BeforeOnTheWay(nodes: set<Id>, n: Id, id: Id, c: Id)
    requires Plural(nodes) && n in nodes && c in nodes
    requires !InRange(id, Prev(nodes, n), n, true) && !InRange(id, n, Next(nodes, n), true)
    ensures var p := Before(nodes, id);
            0 < Dist(n, p) < Dist(n, id) && (Dist(n, c) < Dist(n, id) ==> Dist(n, c) <= Dist(n, p))
  {
    hide InRange;
    var o, p := Successor(nodes, id), Before(nodes, id);
    ResponsibilityPartition(nodes, n, id);
    NextOwns(nodes, n, id);
    NextPrevInverse(nodes, o);
    NothingBetween(nodes, id, n);
    NothingBetween(nodes, id, c);
    assert n != p && n != o;
  }

  /** Every hop at least halves the clockwise distance left to the key's predecessor. */
  lemma HopHalves(nodes: Nodes, n: Id, id: Id)
    requires Perfect(nodes) && n in nodes && FindStep(nodes[n], id).Ask?
    ensures var c, p := FindStep(nodes[n], id).node, Before(nodes.Keys, id);
            c in nodes && 2 * Dist(c, p) < Dist(n, p)
  {
    var node, c, p := nodes[n], FindStep(nodes[n], id).node, Before(nodes.Keys, id);
    assert KnowsNeighbours(nodes, n);
    var j :| 0 <= j < FINGER_TABLE_SIZE && node.fingers[j] == c && forall k :: j < k < FINGER_TABLE_SIZE ==>
        !Usable(node, node.fingers[k], id);
    assert ExactFinger(nodes, n, j);
    BeforeOnTheWay(nodes.Keys, n, id, c);
    RingSizeIsPow2(160);
    var i := Log2(Dist(n, p), 160);
    assert ExactFinger(nodes, n, i);
    Pow2Monotonic(i + 1, 160);
    Pow2Monotonic(j + 1, 160);
    FingerReach(nodes.Keys, n, Pow2(i), node.fingers[i]);
    FingerReach(nodes.Keys, n, Pow2(j), c);
    UsableIffAhead(node, node.fingers[i], id);
    UsableIffAhead(node, c, id);
    if j < i {
      FingerNotSelf(nodes.Keys, n, Pow2(i), p);
      assert false;
    }
    Pow2Monotonic(i, j);
    DistSplits(n, c, p);
  }

  lemma UsableIffAhead(node: Node, f: Id, id: Id)
    ensures Usable(node, f, id) <==> 0 < Dist(node.self, f) < Dist(node.self, id)
  {
    InRangeIsCyclic(f, node.self, id);
  }

  lemma FingerNotSelf(nodes: set<Id>, n: Id, step: Id, p: Id)
    requires n in nodes && p in nodes && 0 < step <= Dist(n, p)
    ensures Successor(nodes, Advance(n, step)) != n
  {
    assert Dist(Advance(n, step), Successor(nodes, Advance(n, step))) <= Dist(Advance(n, step), p);
  }

  lemma {:induction false} HopsWithin(nodes: Nodes, n: Id, id: Id, k: nat)
    requires Perfect(nodes) && n in nodes && Dist(n, Before(nodes.Keys, id)) < Pow2(k)
    ensures Routable(nodes) && Find(nodes, n, id).hops <= k
    decreases k
  {
    hide Perfect;
    PerfectIsRoutable(nodes);
    HopAdvances(nodes, n, id);
    if FindStep(nodes[n], id).Ask? {
      HopHalves(nodes, n, id);
      HopsWithin(nodes, FindStep(nodes[n], id).node, id, k - 1);
    }
  }

  /** Every lookup from every node finds the owner within 160 remote calls. */
  lemma LookupIn160Hops(nodes: Nodes, n: Id, id: Id)
    requires Perfect(nodes) && n in nodes
    ensures Routable(nodes)
    ensures Find(nodes, n, id).node == Successor(nodes.Keys, id) && Find(nodes, n, id).hops <= 160
  {
    hide Perfect;
    RingSizeIsPow2(160);
    HopsWithin(nodes, n, id, 160);
  }

  // ---------------------------------------------------------------- fix_fingers

  ghost predicate FirstFingerTrue(nodes: Nodes) {
    && ConsistentRing(nodes)
    && forall n {:trigger FingersLive(nodes, n)} :: n in nodes ==>
         FingersLive(nodes, n) && nodes[n].fingers[0] == Next(nodes.Keys, n)
  }

  lemma FirstFingerSuffices(nodes: Nodes)
    requires FirstFingerTrue(nodes)
    ensures Routable(nodes)
  {
    forall n | n in nodes ensures FingersLive(nodes, n) && Next(nodes.Keys, n) in nodes[n].fingers {
      assert FingersLive(nodes, n);
      assert nodes[n].fingers[0] in nodes[n].fingers;
    }
  }

  function FixedIndex(node: Node): (i: nat)
    ensures i == if node.nextFinger == FINGER_TABLE_SIZE - 1 then 0 else node.nextFinger + 1
  {
    (node.nextFinger + 1) % FINGER_TABLE_SIZE
  }

  /** `fix_fingers` at `n`, with its lookup carried out across the ring. */
  ghost function FixAt(nodes: Nodes, n: Id): Nodes
    requires Routable(nodes) && n in nodes
  {
    nodes[n := FingerFixed(nodes[n], Some(Find(nodes, n, FingerStart(nodes[n], FixedIndex(nodes[n]))).node))]
  }

  /** Fingers are not part of what makes a ring consistent. */
  lemma FingersDoNotMatter(nodes: Nodes, n: Id, found: Option<Id>)
    requires ConsistentRing(nodes) && n in nodes
    ensures ConsistentRing(nodes[n := FingerFixed(nodes[n], found)])
  {
    var nodes' := nodes[n := FingerFixed(nodes[n], found)];
    assert nodes'.Keys == nodes.Keys;
    forall m | m in nodes' ensures KnowsNeighbours(nodes', m) {
      assert KnowsNeighbours(nodes, m);
    }
  }

  lemma FixAtExact(nodes: Nodes, n: Id)
    requires Routable(nodes) && n in nodes
    ensures var nodes', i := FixAt(nodes, n), FixedIndex(nodes[n]);
            && ConsistentRing(nodes') && nodes'.Keys == nodes.Keys
            && ExactFinger(nodes', n, i)
            && (forall m, k :: m in nodes && 0 <= k < FINGER_TABLE_SIZE && (m, k) != (n, i) ==>
                  nodes'[m].fingers[k] == nodes[m].fingers[k])
            && (forall m :: m in nodes ==>
                  && nodes'[m].self == nodes[m].self
                  && nodes'[m].nextFinger == if m == n then i else nodes[m].nextFinger)
  {
    var node := nodes[n];
    FingersDoNotMatter(nodes, n, Some(Find(nodes, n, FingerStart(node, FixedIndex(node))).node));
    assert FixAt(nodes, n).Keys == nodes.Keys;
  }

  /** A refresh keeps every finger live and the first finger true. */
  lemma FixAtKeepsFirstFinger(nodes: Nodes, n: Id)
    requires FirstFingerTrue(nodes) && n in nodes
    ensures Routable(nodes) && FirstFingerTrue(FixAt(nodes, n))
  {
    FirstFingerSuffices(nodes);
    FixAtExact(nodes, n);
    var nodes', i := FixAt(nodes, n), FixedIndex(nodes[n]);
    forall m | m in nodes' ensures FingersLive(nodes', m) && nodes'[m].fingers[0] == Next(nodes'.Keys, m) {
      assert FingersLive(nodes, m) && KnowsNeighbours(nodes, m);
      FirstFingerIsNext(nodes.Keys, m);
      assert ExactFinger(nodes', n, i);
      forall k | 0 <= k < FINGER_TABLE_SIZE ensures nodes'[m].fingers[k] in nodes' {
        assert (m, k) != (n, i) ==> nodes'[m].fingers[k] == nodes[m].fingers[k];
      }
    }
  }

  /** The weaker hypothesis `Routable` is not kept in general: it survives a refresh
      exactly when the true successor is found, or is listed at another index too. */
  lemma FixAtKeepsRoutableIff(nodes: Nodes, n: Id)
    requires Routable(nodes) && n in nodes
    ensures var node, i, s := nodes[n], FixedIndex(nodes[n]), Next(nodes.Keys, n);
            Routable(FixAt(nodes, n)) <==>
              (Successor(nodes.Keys, FingerStart(node, i)) == s ||
               exists k :: 0 <= k < FINGER_TABLE_SIZE && k != i && node.fingers[k] == s)
  {
    hide Find;
    var node, i, s := nodes[n], FixedIndex(nodes[n]), Next(nodes.Keys, n);
    RoutableAfterFix(nodes, n);
    InAfterUpdate(node.fingers, i, Successor(nodes.Keys, FingerStart(node, i)), s);
  }

  lemma InAfterUpdate(list: seq<Id>, i: nat, v: Id, s: Id)
    requires i < |list|
    ensures s in list[i := v] <==> (v == s || exists k :: 0 <= k < |list| && k != i && list[k] == s)
  {
    assert list[i := v][i] == v;
    assert forall k :: 0 <= k < |list| && k != i ==> list[i := v][k] == list[k];
  }

  lemma RoutableAfterFix(nodes: Nodes, n: Id)
    requires Routable(nodes) && n in nodes
    ensures Routable(FixAt(nodes, n)) <==> Next(nodes.Keys, n) in FixAt(nodes, n)[n].fingers
  {
    FixAtExact(nodes, n);
    var nodes', i := FixAt(nodes, n), FixedIndex(nodes[n]);
    assert ExactFinger(nodes', n, i);
    forall m | m in nodes' ensures FingersLive(nodes', m) && (m != n ==> Next(nodes'.Keys, m) in nodes'[m].fingers) {
      assert FingersLive(nodes, m);
      assert m != n ==> nodes'[m] == nodes[m];
    }
    assert Routable(nodes') ==> FingersLive(nodes', n);
  }

  /** The refresh of finger 0 needs no other node, so a joiner whose fingers all name
      its contact gets a true first finger as soon as its successor is right. */
  lemma FirstFingerIsLocal(nodes: Nodes, n: Id)
    requires ConsistentRing(nodes) && n in nodes
    ensures FindStep(nodes[n], FingerStart(nodes[n], 0)) == Answer(Next(nodes.Keys, n))
  {
    var start := FingerStart(nodes[n], 0);
    assert KnowsNeighbours(nodes, n);
    assert start == Advance(n, 1);
    FirstFingerIsNext(nodes.Keys, n);
    ResponsibilityPartition(nodes.Keys, n, start);
    NextOwns(nodes.Keys, n, start);
  }

  // ---------------------------------------------------------------- a full round of refreshes

  /** The nodes named in `order` run `fix_fingers` one after the other. */
  ghost function FixAll(nodes: Nodes, order: seq<Id>): (r: Nodes)
    requires FirstFingerTrue(nodes) && forall n :: n in order ==> n in nodes
    ensures FirstFingerTrue(r) && r.Keys == nodes.Keys
  {
    if order == [] then nodes else
    var before := FixAll(nodes, order[..|order| - 1]);
    FixAtKeepsFirstFinger(before, order[|order| - 1]);
    FixAtExact(before, order[|order| - 1]);
    FixAt(before, order[|order| - 1])
  }

  function Count(order: seq<Id>, n: Id): nat {
    if order == [] then 0
    else Count(order[..|order| - 1], n) + if order[|order| - 1] == n then 1 else 0
  }

  /** Finger index `k` refreshes ago. */
  function Recent(node: Node, k: nat): (i: nat)
    requires k < FINGER_TABLE_SIZE
    ensures i < FINGER_TABLE_SIZE
  {
    if k <= node.nextFinger then node.nextFinger - k else node.nextFinger + FINGER_TABLE_SIZE - k
  }

  ghost predicate RecentExact(nodes: Nodes, n: Id, count: nat)
    requires n in nodes
  {
    forall k {:trigger Recent(nodes[n], k)} ::
      0 <= k < FINGER_TABLE_SIZE && k < count ==> ExactFinger(nodes, n, Recent(nodes[n], k))
  }

  lemma RecentShiftsAt(nodes: Nodes, n: Id, m: Id, count: nat, k: nat)
    requires Routable(nodes) && n in nodes && m in nodes && RecentExact(nodes, m, count)
    requires k < FINGER_TABLE_SIZE && k < count + if m == n then 1 else 0
    ensures var nodes' := FixAt(nodes, n); m in nodes' && ExactFinger(nodes', m, Recent(nodes'[m], k))
  {
    FixAtExact(nodes, n);
    hide Routable, FixAt, FixedIndex;
    var nodes', i := FixAt(nodes, n), FixedIndex(nodes[n]);
    var j := Recent(nodes'[m], k);
    if m == n && k == 0 {
      assert j == i;
    } else {
      var earlier := if m == n then k - 1 else k;
      assert Recent(nodes[m], earlier) == j;
      assert ExactFinger(nodes, m, Recent(nodes[m], earlier));
      assert (m, j) != (n, i);
    }
  }

  lemma RecentShifts(nodes: Nodes, n: Id, m: Id, count: nat)
    requires Routable(nodes) && n in nodes && m in nodes && RecentExact(nodes, m, count)
    ensures m in FixAt(nodes, n) && RecentExact(FixAt(nodes, n), m, count + if m == n then 1 else 0)
  {
    FixAtExact(nodes, n);
    hide Routable, FixAt, ExactFinger;
    forall k {:trigger Recent(FixAt(nodes, n)[m], k)} |
      0 <= k < FINGER_TABLE_SIZE && k < count + if m == n then 1 else 0
      ensures ExactFinger(FixAt(nodes, n), m, Recent(FixAt(nodes, n)[m], k))
    {
      RecentShiftsAt(nodes, n, m, count, k);
    }
  }

  lemma {:induction false} FixAllRecent(nodes: Nodes, order: seq<Id>, m: Id)
    requires FirstFingerTrue(nodes) && (forall n :: n in order ==> n in nodes) && m in nodes
    ensures m in FixAll(nodes, order) && RecentExact(FixAll(nodes, order), m, Count(order, m))
  {
    if order != [] {
      var init, last := order[..|order| - 1], order[|order| - 1];
      FixAllRecent(nodes, init, m);
      FirstFingerSuffices(FixAll(nodes, init));
      RecentShifts(FixAll(nodes, init), last, m, Count(init, m));
    }
  }

  /** Once every node has run `fix_fingers` 160 times, in whatever interleaving, every
      finger of every node is exact, and lookups take at most 160 hops. */
  lemma RefreshMakesPerfect(nodes: Nodes, order: seq<Id>)
    requires FirstFingerTrue(nodes) && forall n :: n in order ==> n in nodes
    requires forall n :: n in nodes ==> Count(order, n) >= FINGER_TABLE_SIZE
    ensures Perfect(FixAll(nodes, order))
  {
    hide FixAll, Count, ExactFinger;
    var after := FixAll(nodes, order);
    forall n, i | n in after && 0 <= i < FINGER_TABLE_SIZE ensures ExactFinger(after, n, i) {
      FixAllRecent(nodes, order, n);
      var next := after[n].nextFinger;
      var k := if i <= next then next - i else next + FINGER_TABLE_SIZE - i;
      assert Recent(after[n], k) == i;
    }
  }

  // ---------------------------------------------------------------- the counterexample

  /** A refresh that needs no other node stores what the node answers itself. */
  predicate Candid(s: Node, e: Event) {
    e.FixFingers? ==>
      var v := FindStep(s, FingerStart(s, FixedIndex(s)));
      v.Answer? ==> e.found == Some(v.node)
  }

  ghost predicate CandidLife(self: Id, events: seq<Event>) {
    forall i :: 0 <= i < |events| ==> Candid(Life(Alone(self), events[..i]), events[i])
  }

  /** A state that a node gets into by a sequence of operations. */
  ghost predicate Lived(s: Node) {
    exists events :: CandidLife(s.self, events) && Life(Alone(s.self), events) == s
  }

  lemma LivesOn(s: Node, e: Event)
    requires Lived(s) && Candid(s, e)
    ensures Lived(After(s, e))
  {
    hide Candid, After;
    var events :| CandidLife(s.self, events) && Life(Alone(s.self), events) == s;
    LifeGoesOn(Alone(s.self), events, e);
    SameSelf(s, e);
    var longer := events + [e];
    assert longer[..|events|] == events;
    forall i | 0 <= i < |longer| ensures Candid(Life(Alone(s.self), longer[..i]), longer[i]) {
      if i < |events| {
        assert longer[..i] == events[..i];
        assert Candid(Life(Alone(s.self), events[..i]), events[i]);
      }
    }
  }

  lemma SameSelf(s: Node, e: Event)
    ensures After(s, e).self == s.self
  {
  }

  lemma AloneLived(n: Id)
    ensures Lived(Alone(n))
  {
    assert CandidLife(n, []) && Life(Alone(n), []) == Alone(n);
  }

  lemma OwnRefresh(s: Node)
    requires Lived(s) && Responsible(s, FingerStart(s, FixedIndex(s)))
    ensures Lived(FingerFixed(s, Some(s.self)))
  {
    LivesOn(s, FixFingers(Some(s.self)));
  }

  lemma OtherEvent(s: Node, e: Event)
    requires Lived(s) && !e.FixFingers?
    ensures Lived(After(s, e))
  {
    LivesOn(s, e);
  }

  /** `k` refreshes of indices the node is itself responsible for. */
  lemma {:induction false} RefreshOwn(s: Node, k: nat)
    requires Lived(s) && s.nextFinger + k < FINGER_TABLE_SIZE
    requires forall i {:trigger FingerStart(s, i)} :: s.nextFinger < i <= s.nextFinger + k ==>
        Responsible(s, FingerStart(s, i))
    ensures Lived(s.(nextFinger := s.nextFinger + k,
                     fingers := s.fingers[..s.nextFinger + 1] + Fill(k, s.self) + s.fingers[s.nextFinger + k + 1..]))
  {
    hide Lived, FingerStart, Responsible;
    var i := s.nextFinger;
    var after := s.(nextFinger := i + k, fingers := s.fingers[..i + 1] + Fill(k, s.self) + s.fingers[i + k + 1..]);
    if k == 0 {
      assert after == s;
    } else {
      RefreshOwn(s, k - 1);
      var before := s.(nextFinger := i + k - 1,
                       fingers := s.fingers[..i + 1] + Fill(k - 1, s.self) + s.fingers[i + k..]);
      assert FixedIndex(before) == i + k;
      SameStart(s, before, i + k);
      OwnRefresh(before);
      FillOneMore(s.fingers, i + 1, k, s.self);
    }
  }

  lemma FillOneMore(list: seq<Id>, i: nat, k: nat, x: Id)
    requires 0 < k && i + k <= |list|
    ensures (list[..i] + Fill(k - 1, x) + list[i + k - 1..])[i + k - 1 := x] == list[..i] + Fill(k, x) + list[i + k..]
  {
  }

  lemma SameStart(s: Node, s': Node, i: nat)
    requires s'.self == s.self && s'.predecessor == s.predecessor && i < FINGER_TABLE_SIZE
    ensures FingerStart(s', i) == FingerStart(s, i)
        && (Responsible(s', FingerStart(s', i)) <==> Responsible(s, FingerStart(s, i)))
  {
  }

  /** Nodes 0, 1 and 4. Node 0 lists its true successor, 1, only at the last index. */
  function Sparse(): (nodes: Nodes)
    ensures nodes.Keys == {0, 1, 4}
  {
    map[0 := NodeState(0, Some(4), Fill(8, 0)[0 := 1], [0, 4, 4] + Fill(156, 0) + [1], 158),
        1 := NodeState(1, Some(0), Fill(8, 1)[0 := 4], Fill(160, 4), 0),
        4 := NodeState(4, Some(1), Fill(8, 4)[0 := 0], Fill(160, 1)[1 := 0], 1)]
  }

  /** Alone for a while, then joined through 1; index 0 is refreshed before anybody has
      notified the node, so it names the node itself. */
  lemma ZeroJoined()
    ensures Lived(NodeState(0, Some(4), Fill(8, 0)[0 := 1], [0] + Fill(159, 1), 0))
  {
    hide Lived, FingerStart;
    AloneLived(0);
    RefreshOwn(Alone(0), 159);
    var s := Alone(0).(nextFinger := 159);
    assert Fill(160, 0)[..1] + Fill(159, 0) + Fill(160, 0)[160..] == s.fingers;
    OtherEvent(s, Join(Some(1)));
    s := After(s, Join(Some(1)));
    OwnRefresh(s);
    s := FingerFixed(s, Some(0));
    OtherEvent(s, Notify(Some(4)));
    assert s.fingers == [0] + Fill(159, 1);
  }

  lemma LastFingerFirst(s: Node, id: Id)
    requires Usable(s, s.fingers[FINGER_TABLE_SIZE - 1], id)
    ensures ClosestPreceding(s, id) == s.fingers[FINGER_TABLE_SIZE - 1]
  {
  }

  lemma MustAsk(s: Node, id: Id)
    requires s.self == 0 && s.predecessor == Some(4) && Succ(s) == 1 && s.fingers[159] == 1 && 2 <= id <= 4
    ensures FindStep(s, id).Ask?
  {
    LastFingerFirst(s, id);
    hide Scan, ClosestPreceding;
  }

  lemma MayBeTold(s: Node, found: Id)
    requires Lived(s) && FindStep(s, FingerStart(s, FixedIndex(s))).Ask?
    ensures Lived(FingerFixed(s, Some(found)))
  {
    hide Lived, FindStep, FingerStart;
    LivesOn(s, FixFingers(Some(found)));
  }

  /** A refresh that must ask another node may be told anything, here node 4. */
  lemma AskedRefresh(s: Node, i: nat)
    requires Lived(s) && s.self == 0 && s.predecessor == Some(4) && Succ(s) == 1 && s.fingers[159] == 1
    requires s.nextFinger + 1 == i && 1 <= i <= 2
    ensures Lived(s.(nextFinger := i, fingers := s.fingers[i := 4]))
  {
    hide Lived, FingerStart, FindStep;
    assert FixedIndex(s) == i;
    SmallStart(s, i);
    MustAsk(s, FingerStart(s, i));
    MayBeTold(s, 4);
    assert FingerFixed(s, Some(4)) == s.(nextFinger := i, fingers := s.fingers[i := 4]);
  }

  lemma SmallStart(s: Node, i: nat)
    requires s.self == 0 && 1 <= i <= 2
    ensures 2 <= FingerStart(s, i) <= 4
  {
    assert Pow2(1) == 2 && Pow2(2) == 4;
  }

  /** Then 4 notified it, and it went on refreshing up to the last index but one. */
  lemma SparseZeroLived()
    ensures Lived(Sparse()[0])
  {
    hide Lived, FingerStart;
    ZeroJoined();
    var s := NodeState(0, Some(4), Fill(8, 0)[0 := 1], [0] + Fill(159, 1), 0);
    AskedRefresh(s, 1);
    AskedRefresh(s.(nextFinger := 1, fingers := s.fingers[1 := 4]), 2);
    s := s.(nextFinger := 2, fingers := s.fingers[1 := 4][2 := 4]);
    forall i {:trigger FingerStart(s, i)} | 2 < i <= 158 ensures Responsible(s, FingerStart(s, i)) {
      ZeroOwns(s, i);
    }
    RefreshOwn(s, 156);
    assert s.fingers[..3] == [0, 4, 4] && s.fingers[159..] == [1];
  }

  lemma ZeroOwns(s: Node, i: nat)
    requires s.self == 0 && s.predecessor == Some(4) && 3 <= i < FINGER_TABLE_SIZE
    ensures Responsible(s, FingerStart(s, i))
  {
    Pow2Monotonic(3, i);
    RingSizeIsPow2(160);
    Pow2Monotonic(i + 1, 160);
    assert Pow2(3) == 8;
    hide Pow2;
  }

  /** Nodes 1 and 4 joined through each other and were notified. */
  lemma SparseOthersLived()
    ensures Lived(Sparse()[1]) && Lived(Sparse()[4])
  {
    hide Lived, FingerStart;
    AloneLived(1);
    OtherEvent(Alone(1), Join(Some(4)));
    OtherEvent(After(Alone(1), Join(Some(4))), Notify(Some(0)));
    AloneLived(4);
    OtherEvent(Alone(4), Join(Some(1)));
    var s := After(Alone(4), Join(Some(1)));
    OtherEvent(s, Stabilize(1, Some(0)));
    s := After(s, Stabilize(1, Some(0)));
    OtherEvent(s, Notify(Some(1)));
    s := After(s, Notify(Some(1)));
    FourRefreshes(s);
    assert Fill(8, 4)[0 := 1][0 := 0] == Fill(8, 4)[0 := 0];
    assert FingerFixed(s, Some(0)) == Sparse()[4];
  }

  lemma FourRefreshes(s: Node)
    requires Lived(s) && s.self == 4 && s.predecessor == Some(1) && Succ(s) == 0 && s.nextFinger == 0
    ensures Lived(FingerFixed(s, Some(0)))
  {
    assert Pow2(1) == 2 && FingerStart(s, FixedIndex(s)) == 6;
    hide Lived, FingerStart, Scan;
    LivesOn(s, FixFingers(Some(0)));
  }

  lemma SparseNeighbours(ids: set<Id>)
    requires ids == {0, 1, 4}
    ensures Plural(ids)
    ensures Next(ids, 0) == 1 && Next(ids, 1) == 4 && Next(ids, 4) == 0
    ensures Prev(ids, 0) == 4 && Prev(ids, 1) == 0 && Prev(ids, 4) == 1
    ensures forall id: Id :: id > 4 ==> Successor(ids, id) == 0
  {
    assert 0 in ids && 1 in ids && 4 in ids;
  }

  lemma SparseIsRoutable()
    ensures Routable(Sparse())
  {
    var nodes := Sparse();
    SparseNeighbours(nodes.Keys);
    hide Next, Prev;
    assert KnowsNeighbours(nodes, 0) && KnowsNeighbours(nodes, 1) && KnowsNeighbours(nodes, 4);
    assert nodes[0].fingers[159] == 1 && nodes[1].fingers[0] == 4 && nodes[4].fingers[1] == 0;
    assert FingersLive(nodes, 0) && FingersLive(nodes, 1) && FingersLive(nodes, 4);
  }

  lemma SparseLone(n: Id)
    requires n in Sparse()
    ensures LoneTail(Sparse()[n])
  {
  }

  lemma SparseLosesSuccessor()
    ensures Routable(Sparse()) && !Routable(FixAt(Sparse(), 0))
  {
    var nodes := Sparse();
    SparseIsRoutable();
    SparseNeighbours(nodes.Keys);
    var node := nodes[0];
    assert node.self == 0 && node.nextFinger == 158;
    assert forall k :: 0 <= k < FINGER_TABLE_SIZE && k != 159 ==> node.fingers[k] != 1;
    hide Routable, FixAt, Sparse, Next, Prev;
    RingSizeIsPow2(160);
    assert FixedIndex(node) == 159 && Pow2(160) == 2 * Pow2(159);
    assert FingerStart(node, 159) == Pow2(159) > 4;
    FixAtKeepsRoutableIff(nodes, 0);
  }

  /** Refreshing the last index (its start is owned by 0) overwrites the only finger to the
      true successor. Every node of this ring is in a state that operations lead to. */
  lemma FixAtCanLoseSuccessor()
    ensures forall n :: n in Sparse() ==> Lived(Sparse()[n]) && LoneTail(Sparse()[n])
    ensures Routable(Sparse()) && !Routable(FixAt(Sparse(), 0))
  {
    hide Routable, FixAt, Sparse, Lived, LoneTail;
    SparseLosesSuccessor();
    SparseZeroLived();
    SparseOthersLived();
    forall n | n in Sparse() ensures Lived(Sparse()[n]) && LoneTail(Sparse()[n]) {
      assert n == 0 || n == 1 || n == 4;
      SparseLone(n);
    }
  }
}
