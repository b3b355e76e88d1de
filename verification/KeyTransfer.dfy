/** Hand-off of stored keys: which keys a node offers to another one, and where every
    key is afterwards, for every pattern of lost requests and lost replies. */
module KeyTransfer {
  import opened Bytes
  import opened Identifiers
  import opened Ring
  import opened Routing
  import opened Stabilization

  /** The stores of several nodes. */
  type Stores = map<Id, Store>

  /** What happens to one TRANSFER_KEY exchange. */
  datatype Link = Acknowledged | RequestLost | ReplyLost

  /** The filter of `transfer_keys_to_node`, reading the predecessor of the moment. */
  predicate Offers(s: Node, target: Id, key: Id) {
    s.predecessor.Some? && InRange(key, s.predecessor.value, target, true)
  }

  ghost function Offered(s: Node, target: Id, store: Store, keyId: Key -> Id): set<Key> {
    set k | k in store && Offers(s, target, keyId(k))
  }

  ghost function SourceAfter(store: Store, offered: set<Key>, net: Key -> Link): Store {
    map k | k in store && !(k in offered && net(k) == Acknowledged) :: store[k]
  }

  ghost function TargetAfter(target: Store, store: Store, offered: set<Key>, net: Key -> Link): Store
    requires offered <= store.Keys
  {
    target + map k | k in offered && net(k) != RequestLost :: store[k]
  }

  lemma OneMoreAtSource(store: Store, done: set<Key>, net: Key -> Link, key: Key)
    requires done <= store.Keys && key in store && key !in done
    ensures var source := SourceAfter(store, done, net);
            SourceAfter(store, done + {key}, net) == if net(key) == Acknowledged then source - {key} else source
  {
  }

  lemma OneMoreAtTarget(store: Store, target: Store, done: set<Key>, net: Key -> Link, key: Key)
    requires done <= store.Keys && key in store && key !in done
    ensures var there := TargetAfter(target, store, done, net);
            TargetAfter(target, store, done + {key}, net) ==
              if net(key) == RequestLost then there else there[key := store[key]]
  {
  }

  /** Every pair the source held is afterwards at the source or at the target, and a key
      is dropped only when the target has it. The target keeps its other keys; its own
      value under a delivered key is replaced. */
  lemma TransferLosesNothing(store: Store, target: Store, offered: set<Key>, net: Key -> Link, key: Key)
    requires offered <= store.Keys
    ensures var s', t' := SourceAfter(store, offered, net), TargetAfter(target, store, offered, net);
            && (key in store ==> (key in s' && s'[key] == store[key]) || (key in t' && t'[key] == store[key]))
            && (key in s' <==> key in store && !(key in offered && net(key) == Acknowledged))
            && (key in s' ==> s'[key] == store[key])
            && (key in t' <==> key in target || (key in offered && net(key) != RequestLost))
            && (key in target ==>
                  key in t' && t'[key] == if key in offered && net(key) != RequestLost then store[key] else target[key])
            && (key in t' ==> (key in target && t'[key] == target[key]) || (key in offered && t'[key] == store[key]))
  {
  }

  // ---------------------------------------------------------------- leaving

  /** Both stores after a transfer to `target`, at which `there` is stored. */
  ghost function HandOff(s: Node, target: Id, store: Store, there: Store, keyId: Key -> Id, net: Key -> Link)
    : (Store, Store)
  {
    var offered := Offered(s, target, store, keyId);
    (SourceAfter(store, offered, net), TargetAfter(there, store, offered, net))
  }

  /** A node without predecessor hands over nothing, to anybody, whatever it holds. */
  lemma NoPredecessorNoHandOff(s: Node, target: Id, store: Store, there: Store, keyId: Key -> Id, net: Key -> Link)
    requires s.predecessor.None?
    ensures HandOff(s, target, store, there, keyId, net) == (store, there)
  {
    assert Offered(s, target, store, keyId) == {};
    assert SourceAfter(store, {}, net) == store;
    assert TargetAfter(there, store, {}, net) == there;
  }

  lemma RestIsPlural(nodes: set<Id>, n: Id)
    requires Plural(nodes) && n in nodes && Prev(nodes, n) != Next(nodes, n)
    ensures Plural(nodes - {n}) && Prev(nodes - {n}, Next(nodes, n)) == Prev(nodes, n)
  {
    var p, s := Prev(nodes, n), Next(nodes, n);
    assert p in nodes - {n} && s in nodes - {n};
    NextPrevInverse(nodes, n);
    var q := Prev(nodes - {n}, s);
    assert q in nodes && Dist(p, n) <= Dist(q, n) && Dist(q, s) <= Dist(p, s) && Dist(n, s) <= Dist(n, q);
  }

  /** In a ring of three or more a leaving node offers its successor exactly the keys
      that the successor owns in the ring that remains. */
  lemma LeaveOffersSuccessorsKeys(nodes: Nodes, n: Id, key: Id)
    requires ConsistentRing(nodes) && n in nodes && Prev(nodes.Keys, n) != Next(nodes.Keys, n)
    ensures Plural(nodes.Keys - {n})
    ensures Offers(nodes[n], Succ(nodes[n]), key) <==> Successor(nodes.Keys - {n}, key) == Succ(nodes[n])
  {
    assert KnowsNeighbours(nodes, n);
    RestIsPlural(nodes.Keys, n);
    ResponsibilityPartition(nodes.Keys - {n}, Succ(nodes[n]), key);
  }

  /** A leaving node offers all keys it is responsible for exactly when its predecessor
      and its successor differ. With two nodes it offers none of them. */
  lemma LeaveOffersOwnKeysIff(nodes: Nodes, n: Id)
    requires ConsistentRing(nodes) && n in nodes
    ensures (forall key: Id :: Responsible(nodes[n], key) ==> Offers(nodes[n], Succ(nodes[n]), key))
            <==> Prev(nodes.Keys, n) != Next(nodes.Keys, n)
    ensures Prev(nodes.Keys, n) == Next(nodes.Keys, n) ==>
              forall key: Id :: Responsible(nodes[n], key) ==> !Offers(nodes[n], Succ(nodes[n]), key)
  {
    assert KnowsNeighbours(nodes, n);
    var p, s := Prev(nodes.Keys, n), Next(nodes.Keys, n);
    assert Responsible(nodes[n], n);
    forall key: Id | Responsible(nodes[n], key)
      ensures Offers(nodes[n], s, key) <==> p != s
    {
      InRangeIsCyclic(key, p, n);
      InRangeIsCyclic(key, p, s);
      if p != s { assert Dist(p, n) <= Dist(p, s); }
    }
  }

  // ---------------------------------------------------------------- notify

  /** By the time the filter runs, the predecessor is already the notifier itself, so
      all that is offered to it are keys hashing exactly to its identifier. */
  lemma NotifyOffersOnlyExactHits(s: Node, m: Id, key: Id)
    requires Accepts(s, Some(m))
    ensures Offers(Notified(s, Some(m)), m, key) <==> key == m
  {
    InRangeIsCyclic(key, m, m);
  }

  /** Keys the node stops being responsible for stay behind unless they hit exactly. */
  lemma NotifyStrands(s: Node, m: Id, store: Store, target: Store, keyId: Key -> Id, net: Key -> Link, key: Key)
    requires Accepts(s, Some(m)) && key in store
    requires Responsible(s, keyId(key)) && !Responsible(Notified(s, Some(m)), keyId(key)) && keyId(key) != m
    ensures var offered := Offered(Notified(s, Some(m)), m, store, keyId);
            && key in SourceAfter(store, offered, net)
            && (key in TargetAfter(target, store, offered, net) <==> key in target)
  {
    NotifyOffersOnlyExactHits(s, m, keyId(key));
  }

  /** The condition of the pointer comparison after an accepted notification always
      holds: an accepted notifier is never the previous predecessor. */
  lemma AcceptedIsNew(s: Node, m: Id)
    requires Accepts(s, Some(m))
    ensures s.predecessor != Some(m)
  {
  }
}
