/** The methods of one Chord node. Results of remote calls are parameters, so what a
    method promises holds for every reply. */
module ChordNode {
  import opened Bytes
  import opened Identifiers
  import opened Routing
  import opened KeyTransfer

  class ChordNode {
    const self: Id
    var predecessor: Option<Id>
    var successorList: seq<Id>
    var fingerTable: seq<Id>
    var nextFingerToFix: nat
    var running: bool
    var storage: Store

    ghost function State(): NodeState
      reads this
    {
      NodeState(self, predecessor, successorList, fingerTable, nextFingerToFix)
    }

    ghost predicate Valid()
      reads this
    {
      State().WellShaped()
    }

    constructor (id: Id)
      ensures Valid() && State() == Alone(id) && storage == map[] && !running
    {
      self := id;
      predecessor := None;
      successorList := Fill(SUCCESSOR_LIST_SIZE, id);
      fingerTable := Fill(FINGER_TABLE_SIZE, id);
      nextFingerToFix := 0;
      running := false;
      storage := map[];
    }

    method Create()
      requires Valid()
      modifies this`predecessor, this`successorList, this`fingerTable
      ensures Valid() && State() == Isolated(old(State()))
    {
      predecessor := None;
      successorList := Fill(SUCCESSOR_LIST_SIZE, self);
      fingerTable := Fill(FINGER_TABLE_SIZE, self);
    }

    method Join(existing: Option<Id>)
      requires Valid()
      modifies this`predecessor, this`successorList, this`fingerTable
      ensures Valid() && State() == Joined(old(State()), existing)
    {
      if existing.None? || existing.value == self {
        Create();
        return;
      }
      predecessor := None;
      successorList := successorList[0 := existing.value];
      fingerTable := Fill(FINGER_TABLE_SIZE, successorList[0]);
    }

    method IsResponsibleForKey(key: Id) returns (r: bool)
      requires Valid()
      ensures r <==> Responsible(State(), key)
    {
      if predecessor.None? {
        return true;
      }
      return InRange(key, predecessor.value, self, true);
    }

    method ClosestPrecedingNode(id: Id) returns (c: Id)
      requires Valid()
      ensures c == ClosestPreceding(State(), id)
    {
      var i: int := FINGER_TABLE_SIZE - 1;
      while i >= 0
        invariant -1 <= i < FINGER_TABLE_SIZE
        invariant ClosestPreceding(State(), id) == Scan(State(), id, i + 1)
      {
        var finger := fingerTable[i];
        if finger != self && InRange(finger, self, id, false) {
          return finger;
        }
        i := i - 1;
      }
      return self;
    }

    /** `reply` is what the remote `find_successor` returned, if one is made; null when
        the node could not be reached. */
    method FindSuccessor(id: Id, reply: Option<Id>) returns (r: Option<Id>)
      requires Valid()
      ensures r == match FindStep(State(), id) { case Answer(n) => Some(n) case Ask(_) => reply }
      ensures Responsible(State(), id) ==> r == Some(self)
      ensures !Responsible(State(), id) && (forall f :: f in fingerTable ==> !(0 < Dist(self, f) < Dist(self, id))) ==>
                r == Some(successorList[0])
    {
      EveryLookupStep(State(), id);
      var mine := IsResponsibleForKey(id);
      if mine {
        return Some(self);
      }
      var successor := successorList[0];
      if InRange(id, self, successor, true) {
        return Some(successor);
      }
      var closest := ClosestPrecedingNode(id);
      if closest != self {
        return reply;
      }
      return Some(successor);
    }

    /** `reply` is the successor's predecessor as reported; the result is the node that
        is notified, if any. */
    method Stabilize(reply: Option<Id>) returns (notified: Option<Id>)
      requires Valid()
      modifies this`successorList
      ensures Valid()
      ensures State() == if running then StabilizeRound(old(State()), reply) else old(State())
      ensures notified == if running && Succ(old(State())) != self then Some(Succ(State())) else None
    {
      if !running {
        return None;
      }
      var successor := successorList[0];
      if successor == self {
        return None;
      }
      if reply.Some? && reply.value != self && InRange(reply.value, self, successor, false) {
        successorList := successorList[0 := reply.value];
        successor := reply.value;
      }
      return if successor != self then Some(successor) else None;
    }

    /** `candidate` is the notifying node, or null. */
    method Notify(candidate: ChordNode?, keyId: Key -> Id, net: Key -> Link)
      requires Valid() && (candidate != null && candidate.self != self ==> candidate.Valid())
      modifies this`predecessor, this`storage, if candidate == null then {} else {candidate}
      ensures Valid()
      ensures var c := if candidate == null then None else Some(candidate.self);
              && State() == Notified(old(State()), c)
              && (Accepts(old(State()), c) ==>
                    var offered := Offered(State(), candidate.self, old(storage), keyId);
                    && storage == SourceAfter(old(storage), offered, net)
                    && candidate.storage == TargetAfter(old(candidate.storage), old(storage), offered, net))
              && (!Accepts(old(State()), c) ==>
                    storage == old(storage) && (candidate != null ==> candidate.storage == old(candidate.storage)))
      ensures running == old(running)
      ensures candidate != null && candidate != this ==>
                candidate.State() == old(candidate.State()) && candidate.running == old(candidate.running)
    {
      if candidate == null || candidate.self == self {
        return;
      }
      if predecessor.None? || InRange(candidate.self, predecessor.value, self, false) {
        predecessor := Some(candidate.self);
        TransferKeysTo(candidate, keyId, net);
      }
    }

    /** Offers the keys in the interval (predecessor, target] to `target`, in any order,
        and drops those whose transfer was acknowledged. */
    method TransferKeysTo(target: ChordNode, keyId: Key -> Id, net: Key -> Link)
      requires Valid()
      modifies this`storage, target`storage
      ensures target.self == self || old(predecessor).None? ==>
                storage == old(storage) && target.storage == old(target.storage)
      ensures target.self != self ==>
                var offered := Offered(State(), target.self, old(storage), keyId);
                && storage == SourceAfter(old(storage), offered, net)
                && target.storage == TargetAfter(old(target.storage), old(storage), offered, net)
    {
      if target.self == self {
        return;
      }
      var toTransfer := map k | k in storage && predecessor.Some?
          && InRange(keyId(k), predecessor.value, target.self, true) :: storage[k];
      ghost var offered := Offered(State(), target.self, storage, keyId);
      ghost var source, there := storage, target.storage;
      assert toTransfer.Keys == offered;
      var pending := toTransfer.Keys;
      assert offered - pending == {};
      while pending != {}
        invariant pending <= offered
        invariant storage == SourceAfter(source, offered - pending, net)
        invariant target.storage == TargetAfter(there, source, offered - pending, net)
      {
        var k :| k in pending;
        OneMoreAtSource(source, offered - pending, net, k);
        OneMoreAtTarget(source, there, offered - pending, net, k);
        assert offered - (pending - {k}) == offered - pending + {k};
        var sent := SendKeyTransfer(target, k, toTransfer[k], net(k));
        if sent {
          storage := storage - {k};
        }
        pending := pending - {k};
      }
      assert offered - pending == offered;
    }

    /** The exchange, together with `receive_transferred_key` at the other end. */
    method SendKeyTransfer(target: ChordNode, key: Key, value: Value, link: Link) returns (ok: bool)
      requires target.self != self
      modifies target`storage
      ensures ok <==> link == Acknowledged
      ensures target.storage == if link == RequestLost then old(target.storage) else old(target.storage)[key := value]
    {
      if link == RequestLost {
        return false;
      }
      target.storage := target.storage[key := value];
      return link == Acknowledged;
    }

    /** `successor` is the node reached under the identifier of the first successor. */
    method Leave(successor: ChordNode, keyId: Key -> Id, net: Key -> Link)
      requires Valid() && successor.self == successorList[0]
      modifies this`running, this`predecessor, this`successorList, this`fingerTable, this`storage, successor`storage
      ensures Valid() && State() == Isolated(old(State())) && !running
      ensures old(Succ(State())) == self ==> storage == old(storage)
      ensures old(predecessor).None? ==> storage == old(storage) && successor.storage == old(successor.storage)
      ensures old(Succ(State())) != self ==>
                var offered := Offered(old(State()), successor.self, old(storage), keyId);
                && storage == SourceAfter(old(storage), offered, net)
                && successor.storage == TargetAfter(old(successor.storage), old(storage), offered, net)
    {
      running := false;
      if successorList[0] != self {
        TransferKeysTo(successor, keyId, net);
      }
      Create();
    }

    method FixFingers(reply: Option<Id>)
      requires Valid()
      modifies this`nextFingerToFix, this`fingerTable
      ensures Valid()
      ensures State() == if !running then old(State()) else
        var start := FingerStart(old(State()), (old(nextFingerToFix) + 1) % FINGER_TABLE_SIZE);
        FingerFixed(old(State()),
            match FindStep(old(State()), start) { case Answer(n) => Some(n) case Ask(_) => reply })
    {
      if !running {
        return;
      }
      ghost var before := State();
      hide Scan, Pow2, InRange, FindStep, Fill;
      nextFingerToFix := (nextFingerToFix + 1) % FINGER_TABLE_SIZE;
      var fingerIndex := nextFingerToFix;
      var fingerStart := FingerStart(NodeState(self, predecessor, successorList, fingerTable, nextFingerToFix),
          fingerIndex);
      FindIgnoresCounter(before, State(), fingerStart);
      var successor := FindSuccessor(fingerStart, reply);
      if successor.Some? {
        fingerTable := fingerTable[fingerIndex := successor.value];
      }
    }

    method HandleNodeFailure(failed: Id, reply: Option<Id>)
      requires Valid()
      modifies this`predecessor, this`successorList, this`fingerTable
      ensures Valid() && State() == Repaired(old(State()), failed)
    {
      RemoveSuccessor(failed, reply);
      if predecessor == Some(failed) {
        predecessor := None;
      }
      ghost var fingers := fingerTable;
      for i := 0 to |fingerTable|
        modifies this`fingerTable
        invariant |fingerTable| == |fingers|
        invariant forall k :: 0 <= k < i ==>
            fingerTable[k] == if fingers[k] == failed then successorList[0] else fingers[k]
        invariant forall k :: i <= k < |fingers| ==> fingerTable[k] == fingers[k]
      {
        if fingerTable[i] == failed {
          fingerTable := fingerTable[i := successorList[0]];
        }
      }
      assert fingerTable == Redirected(fingers, failed, successorList[0]);
    }

    /** Moves every entry behind index `i` one place forward. */
    method ShiftDown(i: nat)
      requires i < |successorList|
      modifies this`successorList
      ensures successorList == old(successorList)[..i] + old(successorList)[i + 1..]
          + old(successorList)[|old(successorList)| - 1..]
    {
      ghost var before := successorList;
      var j := i;
      while j < |successorList| - 1
        invariant i <= j <= |before| - 1 && |successorList| == |before|
        invariant forall k :: 0 <= k < i || j <= k < |before| ==> successorList[k] == before[k]
        invariant forall k :: i <= k < j ==> successorList[k] == before[k + 1]
      {
        successorList := successorList[j := successorList[j + 1]];
        j := j + 1;
      }
    }

    /** The first loop of `handle_node_failure`. The refill looks up the node's own
        identifier, which every node answers with itself, whatever the network does. */
    method RemoveSuccessor(failed: Id, reply: Option<Id>)
      requires Valid()
      modifies this`successorList
      ensures Valid() && successorList == DropFirst(old(successorList), failed, self)
    {
      ghost var before := successorList;
      var i := 0;
      while i < |successorList|
        invariant i <= |before| && successorList == before
        invariant failed !in before[..i]
      {
        if successorList[i] == failed {
          ShiftDown(i);
          InRangeIsCyclic(self, if predecessor.Some? then predecessor.value else self, self);
          var filler := FindSuccessor(self, reply);
          assert filler == Some(self);
          successorList := successorList[|successorList| - 1 := filler.value];
          assert successorList == before[..i] + before[i + 1..] + [self];
          DropFirstSplits(before, i, failed, self);
          return;
        }
        i := i + 1;
      }
      DropFirstAbsent(before, failed, self);
    }

    method GetReplicaNodes(factor: int) returns (replicas: seq<Id>)
      requires Valid()
      ensures replicas == Replicas(State(), factor)
    {
      replicas := [];
      var i := 0;
      while i < factor - 1 && i < SUCCESSOR_LIST_SIZE
        invariant 0 <= i <= ReplicaCount(factor)
        invariant replicas == Others(successorList[..i], self)
      {
        assert successorList[..i + 1][..i] == successorList[..i];
        if successorList[i] != self {
          replicas := replicas + [successorList[i]];
        }
        i := i + 1;
      }
    }
  }

  lemma FindIgnoresCounter(s: Node, s': Node, id: Id)
    requires s' == s.(nextFinger := s'.nextFinger)
    ensures FindStep(s', id) == FindStep(s, id)
  {
    hide Scan;
    ScanIgnoresCounter(s, s', id, FINGER_TABLE_SIZE);
  }

  lemma {:induction false} ScanIgnoresCounter(s: Node, s': Node, id: Id, hi: nat)
    requires s' == s.(nextFinger := s'.nextFinger) && hi <= FINGER_TABLE_SIZE
    ensures Scan(s', id, hi) == Scan(s, id, hi)
  {
    if hi > 0 { ScanIgnoresCounter(s, s', id, hi - 1); }
  }

  lemma {:induction false} DropFirstSplits(list: seq<Id>, i: nat, failed: Id, filler: Id)
    requires i < |list| && list[i] == failed && failed !in list[..i]
    ensures DropFirst(list, failed, filler) == list[..i] + list[i + 1..] + [filler]
  {
    if i > 0 {
      assert list[1..][..i - 1] == list[..i][1..];
      DropFirstSplits(list[1..], i - 1, failed, filler);
    }
  }

  lemma {:induction false} DropFirstAbsent(list: seq<Id>, failed: Id, filler: Id)
    requires failed !in list
    ensures DropFirst(list, failed, filler) == list
  {
    if list != [] { DropFirstAbsent(list[1..], failed, filler); }
  }
}
