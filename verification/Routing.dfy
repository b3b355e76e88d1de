/** The routing state of one Chord node and what each maintenance operation does to it.

    A node is named by its identifier: the source compares NodeInfo values by `id`
    alone. List entries are identifiers rather than nullable pointers, so every write
    below carries the proof that what is written is not null. */
module Routing {
  import opened Identifiers

  const FINGER_TABLE_SIZE: nat := 160
  const SUCCESSOR_LIST_SIZE: nat := 8

  datatype NodeState = NodeState(
    self: Id,
    predecessor: Option<Id>,
    successors: seq<Id>,
    fingers: seq<Id>,
    nextFinger: nat)
  {
    predicate WellShaped() {
      |successors| == SUCCESSOR_LIST_SIZE && |fingers| == FINGER_TABLE_SIZE && nextFinger < FINGER_TABLE_SIZE
    }
  }

  type Node = s: NodeState | s.WellShaped() witness Alone(0)

  function Fill(n: nat, id: Id): (s: seq<Id>)
    ensures |s| == n && forall i :: 0 <= i < n ==> s[i] == id
  {
    seq(n, _ => id)
  }

  function Alone(self: Id): (s: NodeState)
    ensures s.WellShaped()
  {
    NodeState(self, None, Fill(SUCCESSOR_LIST_SIZE, self), Fill(FINGER_TABLE_SIZE, self), 0)
  }

  function Succ(s: Node): Id { s.successors[0] }

  predicate Responsible(s: Node, key: Id) {
    s.predecessor.None? || InRange(key, s.predecessor.value, s.self, true)
  }

  // ---------------------------------------------------------------- lookup

  predicate Usable(s: Node, finger: Id, id: Id) {
    finger != s.self && InRange(finger, s.self, id, false)
  }

  /** The scan of `closest_preceding_node` below index `hi`. */
  function Scan(s: Node, id: Id, hi: nat): (c: Id)
    requires hi <= FINGER_TABLE_SIZE
    ensures c == s.self ==> forall i :: 0 <= i < hi ==> !Usable(s, s.fingers[i], id)
    ensures c != s.self ==> Usable(s, c, id) &&
                            exists j :: 0 <= j < hi && s.fingers[j] == c &&
                                        forall i :: j < i < hi ==> !Usable(s, s.fingers[i], id)
  {
    if hi == 0 then s.self
    else if Usable(s, s.fingers[hi - 1], id) then s.fingers[hi - 1]
    else Scan(s, id, hi - 1)
  }

  function ClosestPreceding(s: Node, id: Id): Id {
    Scan(s, id, FINGER_TABLE_SIZE)
  }

  /** What a node does with a lookup before any remote call: answer, or ask another node. */
  datatype Verdict = Answer(node: Id) | Ask(node: Id)

  function FindStep(s: Node, id: Id): Verdict {
    if Responsible(s, id) then Answer(s.self)
    else if InRange(id, s.self, Succ(s), true) then Answer(Succ(s))
    else
      var closest := ClosestPreceding(s, id);
      if closest != s.self then Ask(closest) else Answer(Succ(s))
  }

  /** Finger `f` lies strictly between the node and the key. */
  predicate Precedes(s: Node, f: Id, id: Id) {
    0 < Dist(s.self, f) < Dist(s.self, id)
  }

  /** What every node does with a lookup, whatever its tables hold: it names itself only
      for keys it is responsible for or when it is its own successor; it passes the lookup
      to a finger on the way to the key; and without such a finger the answer is its first
      successor, even for keys beyond that one. */
  lemma EveryLookupStep(s: Node, id: Id)
    ensures var v, local := FindStep(s, id), Responsible(s, id) || InRange(id, s.self, Succ(s), true);
            && (Responsible(s, id) ==> v == Answer(s.self))
            && (v == Answer(s.self) ==> Responsible(s, id) || Succ(s) == s.self)
            && (!Responsible(s, id) && InRange(id, s.self, Succ(s), true) ==> v == Answer(Succ(s)))
            && (!local && (forall f :: f in s.fingers ==> !Precedes(s, f, id)) ==> v == Answer(Succ(s)))
            && (!local && (exists f :: f in s.fingers && Precedes(s, f, id)) ==>
                  v.Ask? && v.node in s.fingers && Precedes(s, v.node, id))
  {
    forall f ensures Usable(s, f, id) <==> Precedes(s, f, id) {
      InRangeIsCyclic(f, s.self, id);
    }
    var c := ClosestPreceding(s, id);
    assert c == s.self ==> forall i :: 0 <= i < FINGER_TABLE_SIZE ==> !Usable(s, s.fingers[i], id);
  }

  /** A joiner that knows its predecessor but has refreshed nothing: keys that are neither
      its own nor its contact's all go to the contact. */
  lemma JoinerAsksContact(n: Id, contact: Id, p: Id, id: Id)
    requires contact != n && p != n && !InRange(id, p, n, true)
    ensures var s := Notified(Joined(Alone(n), Some(contact)), Some(p));
            FindStep(s, id) == if InRange(id, n, contact, true) then Answer(contact) else Ask(contact)
  {
    var s := Notified(Joined(Alone(n), Some(contact)), Some(p));
    EveryLookupStep(s, id);
    InRangeIsCyclic(id, n, contact);
    InRangeIsCyclic(n, p, n);
    assert s.fingers[0] in s.fingers && s.fingers[0] == contact;
  }

  function FingerStart(s: Node, i: nat): (start: Id)
    requires i < FINGER_TABLE_SIZE
  {
    RingSizeIsPow2(160);
    Pow2Monotonic(i + 1, 160);
    Advance(s.self, Pow2(i))
  }

  // ---------------------------------------------------------------- maintenance

  function Isolated(s: Node): Node {
    s.(predecessor := None,
       successors := Fill(SUCCESSOR_LIST_SIZE, s.self),
       fingers := Fill(FINGER_TABLE_SIZE, s.self))
  }

  function Joined(s: Node, existing: Option<Id>): Node {
    if existing.None? || existing.value == s.self then
      Isolated(s)
    else
      s.(predecessor := None,
         successors := s.successors[0 := existing.value],
         fingers := Fill(FINGER_TABLE_SIZE, existing.value))
  }

  /** The critical section of `stabilize`: `asked` is the successor read before the
      remote call, `x` the predecessor it reported. */
  function Stabilized(s: Node, asked: Id, x: Option<Id>): Node {
    if Adopts(s, asked, x) then s.(successors := s.successors[0 := x.value]) else s
  }

  predicate Adopts(s: Node, asked: Id, x: Option<Id>) {
    x.Some? && x.value != s.self && InRange(x.value, s.self, asked, false)
  }

  /** A whole `stabilize` whose remote call returned `x`. */
  function StabilizeRound(s: Node, x: Option<Id>): Node {
    if Succ(s) == s.self then s else Stabilized(s, Succ(s), x)
  }

  predicate Accepts(s: Node, candidate: Option<Id>) {
    && candidate.Some? && candidate.value != s.self
    && (s.predecessor.None? || InRange(candidate.value, s.predecessor.value, s.self, false))
  }

  function Notified(s: Node, candidate: Option<Id>): Node {
    if Accepts(s, candidate) then s.(predecessor := candidate) else s
  }

  function FingerFixed(s: Node, found: Option<Id>): Node {
    var i := (s.nextFinger + 1) % FINGER_TABLE_SIZE;
    s.(nextFinger := i,
       fingers := if found.Some? then s.fingers[i := found.value] else s.fingers)
  }

  /** `list` without its first entry equal to `failed`, refilled at the end. */
  function DropFirst(list: seq<Id>, failed: Id, filler: Id): (r: seq<Id>)
    ensures |r| == |list|
  {
    if list == [] then []
    else if list[0] == failed then list[1..] + [filler]
    else [list[0]] + DropFirst(list[1..], failed, filler)
  }

  function Redirected(list: seq<Id>, failed: Id, to: Id): (r: seq<Id>)
    ensures |r| == |list|
    ensures forall i :: 0 <= i < |list| ==> r[i] == if list[i] == failed then to else list[i]
  {
    seq(|list|, i requires 0 <= i < |list| => if list[i] == failed then to else list[i])
  }

  function Repaired(s: Node, failed: Id): Node {
    var successors := DropFirst(s.successors, failed, s.self);
    s.(successors := successors,
       predecessor := if s.predecessor == Some(failed) then None else s.predecessor,
       fingers := Redirected(s.fingers, failed, successors[0]))
  }

  // ---------------------------------------------------------------- one node over its life

  /** `asked` is the successor a stabilization read before its remote call; other events
      may have changed the successor by the time the reply is used. */
  datatype Event =
    | Create
    | Join(existing: Option<Id>)
    | Stabilize(asked: Id, reply: Option<Id>)
    | Notify(candidate: Option<Id>)
    | FixFingers(found: Option<Id>)
    | Failure(failed: Id)
    | Leave

  function After(s: Node, e: Event): Node {
    match e
    case Create => Isolated(s)
    case Join(existing) => Joined(s, existing)
    case Stabilize(asked, reply) => if asked == s.self then s else Stabilized(s, asked, reply)
    case Notify(candidate) => Notified(s, candidate)
    case FixFingers(found) => FingerFixed(s, found)
    case Failure(failed) => Repaired(s, failed)
    case Leave => Isolated(s)
  }

  function Life(s: Node, events: seq<Event>): Node {
    if events == [] then s else After(Life(s, events[..|events| - 1]), events[|events| - 1])
  }

  lemma LifeGoesOn(s: Node, events: seq<Event>, e: Event)
    ensures Life(s, events + [e]) == After(Life(s, events), e)
  {
    assert (events + [e])[..|events|] == events;
  }

  predicate LoneTail(s: Node) {
    && (forall i :: 1 <= i < SUCCESSOR_LIST_SIZE ==> s.successors[i] == s.self)
    && s.predecessor != Some(s.self)
  }

  lemma {:induction false} DropFirstAt(list: seq<Id>, failed: Id, filler: Id)
    requires list != [] && forall i :: 1 <= i < |list| ==> list[i] == filler
    ensures var r := DropFirst(list, failed, filler);
            && (forall i :: 1 <= i < |r| ==> r[i] == filler)
            && r[0] == (if list[0] == failed then filler else list[0])
  {
    if list[0] != failed && |list| > 1 { DropFirstAt(list[1..], failed, filler); }
  }

  /** Whatever replies arrive and in whatever order operations run, only the first
      entry of the successor list ever names another node. */
  lemma {:induction false} TailStaysLone(self: Id, events: seq<Event>)
    ensures var s := Life(Alone(self), events);
            s.self == self && LoneTail(s) && |s.successors| == 8 && |s.fingers| == 160
  {
    if events != [] {
      TailStaysLone(self, events[..|events| - 1]);
      var s := Life(Alone(self), events[..|events| - 1]);
      match events[|events| - 1]
      case Failure(failed) => DropFirstAt(s.successors, failed, s.self);
      case _ =>
    }
  }

  // ---------------------------------------------------------------- consequences

  /** `get_replica_nodes`: the named successors among the first `factor - 1` entries. */
  function Others(list: seq<Id>, self: Id): (r: seq<Id>) {
    if list == [] then []
    else Others(list[..|list| - 1], self) + (if list[|list| - 1] != self then [list[|list| - 1]] else [])
  }

  function ReplicaCount(factor: int): nat {
    if factor <= 1 then 0 else if factor - 1 <= SUCCESSOR_LIST_SIZE then factor - 1 else SUCCESSOR_LIST_SIZE
  }

  function Replicas(s: Node, factor: int): seq<Id> {
    Others(s.successors[..ReplicaCount(factor)], s.self)
  }

  lemma {:induction false} OthersOfLone(list: seq<Id>, self: Id)
    requires list != [] && forall i :: 1 <= i < |list| ==> list[i] == self
    ensures Others(list, self) == if list[0] != self then [list[0]] else []
  {
    if |list| > 1 { OthersOfLone(list[..|list| - 1], self); }
    else { assert Others(list[..0], self) == []; }
  }

  /** However large the replication factor, a node replicates to its first successor
      and to nobody else. */
  lemma AtMostOneReplica(self: Id, events: seq<Event>, factor: int)
    ensures var s := Life(Alone(self), events);
            Replicas(s, factor) == if factor >= 2 && Succ(s) != self then [Succ(s)] else []
  {
    TailStaysLone(self, events);
    var s := Life(Alone(self), events);
    if factor >= 2 { OthersOfLone(s.successors[..ReplicaCount(factor)], self); }
  }

  lemma {:induction false} DropFirstErases(list: seq<Id>, failed: Id, filler: Id)
    requires failed != filler
    ensures failed in DropFirst(list, failed, filler) <==> multiset(list)[failed] >= 2
  {
    if list != [] {
      assert list == [list[0]] + list[1..];
      if list[0] != failed { DropFirstErases(list[1..], failed, filler); }
      else { assert failed in list[1..] <==> multiset(list[1..])[failed] >= 1; }
    }
  }

  predicate Names(s: Node, other: Id) {
    other in s.successors || other in s.fingers || s.predecessor == Some(other)
  }

  /** `handle_node_failure` removes one entry of the successor list, so in an arbitrary
      state it forgets the failed node exactly when that node was listed at most once. */
  lemma FailureForgetsIff(s: Node, failed: Id)
    requires failed != s.self
    ensures Names(Repaired(s, failed), failed) <==> multiset(s.successors)[failed] >= 2
  {
    DropFirstErases(s.successors, failed, s.self);
    var r := Repaired(s, failed);
    if failed in r.fingers {
      var i :| 0 <= i < |r.fingers| && r.fingers[i] == failed;
      assert r.successors[0] in r.successors;
    }
  }

  /** In every reachable state the failed node is forgotten completely. */
  lemma FailureForgets(self: Id, events: seq<Event>, failed: Id)
    requires failed != self
    ensures !Names(Life(Alone(self), events + [Failure(failed)]), failed)
  {
    TailStaysLone(self, events);
    var s := Life(Alone(self), events);
    var all := events + [Failure(failed)];
    assert all[..|all| - 1] == events;
    assert s.successors == [Succ(s)] + s.successors[1..];
    assert failed !in s.successors[1..];
    FailureForgetsIff(s, failed);
  }

  /** After `create` and after `leave` a node names nobody but itself, whatever it knew. */
  lemma StartsOver(s: Node, e: Event, other: Id)
    requires (e.Create? || e.Leave? || e == Join(None) || e == Join(Some(s.self))) && other != s.self
    ensures !Names(After(s, e), other) && After(s, e).predecessor.None? && Succ(After(s, e)) == s.self
  {
  }

  /** After a join the contact is the first successor and every finger; nobody is the predecessor. */
  lemma JoinerNamesContact(s: Node, contact: Id, other: Id)
    requires contact != s.self && LoneTail(s)
    ensures var r := After(s, Join(Some(contact)));
            && (forall i :: 0 <= i < 160 ==> r.fingers[i] == contact) && Succ(r) == contact && r.predecessor.None?
            && (Names(r, other) ==> other == contact || other == s.self)
  {
  }

  /** Handling a failure aims every finger that named the failed node at the first
      successor of the repaired list, and leaves the others and a live predecessor alone. */
  lemma FailureRedirects(s: Node, failed: Id, i: nat)
    requires i < 160
    ensures var r := Repaired(s, failed);
            && r.fingers[i] == (if s.fingers[i] == failed then Succ(r) else s.fingers[i])
            && r.predecessor == (if s.predecessor == Some(failed) then None else s.predecessor)
            && (Succ(r) == if Succ(s) == failed then s.successors[1] else Succ(s))
  {
    var first, rest := s.successors[0], s.successors[1..];
  }

  /** Refreshes whose lookups all fail move the counter and lose no finger. */
  lemma {:induction false} FailedRefreshes(s: Node, k: nat)
    ensures Life(s, seq(k, _ => FixFingers(None))) == s.(nextFinger := (s.nextFinger + k) % 160)
  {
    var events := seq(k, _ => FixFingers(None));
    if k > 0 {
      FailedRefreshes(s, k - 1);
      assert events[..|events| - 1] == seq(k - 1, _ => FixFingers(None));
    }
  }

  /** With enough other nodes in the list, a node and its replicas are `factor` copies, and
      nine at most. */
  lemma FullListGivesFactor(s: Node, factor: int)
    requires factor >= 1
    requires forall i :: 0 <= i < 8 && i < factor - 1 ==> s.successors[i] != s.self
    ensures factor <= 9 ==> Replicas(s, factor) == s.successors[..factor - 1] && 1 + |Replicas(s, factor)| == factor
    ensures factor >= 9 ==> Replicas(s, factor) == s.successors
  {
    var list := s.successors[..if factor <= 9 then factor - 1 else 8];
    assert s.self !in list;
    OthersOfNamed(list, s.self);
    assert s.successors[..8] == s.successors;
  }

  lemma {:induction false} OthersOfNamed(list: seq<Id>, self: Id)
    requires self !in list
    ensures Others(list, self) == list
  {
    if list != [] { OthersOfNamed(list[..|list| - 1], self); }
  }

  // ---------------------------------------------------------------- notify

  function NotifyAll(s: Node, candidates: seq<Option<Id>>): Node {
    if candidates == [] then s
    else Notified(NotifyAll(s, candidates[..|candidates| - 1]), candidates[|candidates| - 1])
  }

  /** After any notifications in any order the predecessor is the notifier closest
      behind the node; null and the node itself never count. */
  lemma {:induction false} NotifyKeepsClosest(s: Node, candidates: seq<Option<Id>>)
    requires s.predecessor.None?
    ensures var r := NotifyAll(s, candidates);
            && r == s.(predecessor := r.predecessor)
            && (r.predecessor.None? <==> forall c :: c in candidates ==> c == None || c == Some(s.self))
            && (r.predecessor.Some? ==>
                  && r.predecessor in candidates && r.predecessor.value != s.self
                  && forall c :: c in candidates && c.Some? && c.value != s.self ==>
                       Dist(r.predecessor.value, s.self) <= Dist(c.value, s.self))
  {
    if candidates != [] {
      var init, last := candidates[..|candidates| - 1], candidates[|candidates| - 1];
      NotifyKeepsClosest(s, init);
      assert candidates == init + [last];
      assert last in candidates;
      assert forall c :: c in init ==> c in candidates;
    }
  }
}
