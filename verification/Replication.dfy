/** Replicated PUT, GET and DELETE in the cluster shape that joins produce: nobody has a
    predecessor, so every node handles every key itself, and the only replica of a node
    is the node it joined through. Requests therefore nest along the path to the root. */
module Replication {
  import opened Bytes
  import opened Identifiers
  import opened Routing
  import opened KeyTransfer

  /** Who joined through whom. `rank` is any numbering in which a node comes after the
      node it joined through; `factor` is the configured replication factor. */
  datatype Forest = Forest(routes: map<Id, Node>, rank: Id -> nat, factor: int)

  ghost predicate Planted(f: Forest, n: Id)
    requires n in f.routes
  {
    var s := f.routes[n];
    && s.self == n && s.predecessor.None? && LoneTail(s)
    && Succ(s) in f.routes && (Succ(s) != n ==> f.rank(Succ(s)) < f.rank(n))
  }

  ghost predicate Grown(f: Forest) {
    forall n {:trigger Planted(f, n)} :: n in f.routes ==> Planted(f, n)
  }

  /** One node starting up: it joins through `via`, or creates a ring if that is itself. */
  datatype Startup = Startup(node: Id, via: Id)

  /** Every node starts once, and joins through one that started before it. */
  predicate History(starts: seq<Startup>)
    decreases |starts|
  {
    starts == [] ||
    (var init, a := starts[..|starts| - 1], starts[|starts| - 1];
     History(init) && !Started(init, a.node) && (a.via == a.node || Started(init, a.via)))
  }

  predicate Started(starts: seq<Startup>, n: Id) {
    exists i :: 0 <= i < |starts| && starts[i].node == n
  }

  function Routes(starts: seq<Startup>): (routes: map<Id, Node>)
    ensures forall n :: n in routes <==> Started(starts, n)
    decreases |starts|
  {
    if starts == [] then map[] else
    var init, a := starts[..|starts| - 1], starts[|starts| - 1];
    assert forall n :: Started(starts, n) <==> Started(init, n) || n == a.node by {
      assert starts == init + [a] && starts[|starts| - 1].node == a.node;
    }
    Routes(init)[a.node := Joined(Alone(a.node), Some(a.via))]
  }

  /** Every history of joins, each through a node already there, gives such a forest:
      the order of starting is a rank. */
  lemma {:induction false} JoinsGrow(starts: seq<Startup>, factor: int) returns (rank: Id -> nat)
    requires History(starts)
    ensures Grown(Forest(Routes(starts), rank, factor))
    ensures forall n :: n in Routes(starts) ==> rank(n) < |starts|
    decreases |starts|
  {
    rank := _ => 0;
    if starts != [] {
      var init, a := starts[..|starts| - 1], starts[|starts| - 1];
      var before := JoinsGrow(init, factor);
      rank := n => if n == a.node then |init| else before(n);
      var f, g := Forest(Routes(init), before, factor), Forest(Routes(starts), rank, factor);
      forall m | m in g.routes ensures Planted(g, m) && rank(m) < |starts| {
        assert m != a.node ==> m in f.routes && Planted(f, m);
      }
    }
  }

  /** As joins leave a node: no predecessor, at most one other successor, which exists. */
  ghost predicate Joiner(routes: map<Id, Node>, n: Id)
    requires n in routes
  {
    var s := routes[n];
    s.self == n && s.predecessor.None? && LoneTail(s) && Succ(s) in routes
  }

  ghost predicate AllJoiners(routes: map<Id, Node>) {
    forall n {:trigger Joiner(routes, n)} :: n in routes ==> Joiner(routes, n)
  }

  /** Somebody in `group` did not join through another member of it. */
  ghost predicate HasRoot(routes: map<Id, Node>, group: set<Id>) {
    exists n :: IsRoot(routes, group, n)
  }

  ghost predicate IsRoot(routes: map<Id, Node>, group: set<Id>, n: Id) {
    n in group && n in routes && (Succ(routes[n]) == n || Succ(routes[n]) !in group)
  }

  /** No group of nodes joined only through one another. */
  ghost predicate Acyclic(routes: map<Id, Node>) {
    forall group: set<Id> {:trigger HasRoot(routes, group)} :: group != {} && group <= routes.Keys ==>
        HasRoot(routes, group)
  }

  lemma RootOf(routes: map<Id, Node>, group: set<Id>) returns (n: Id)
    requires Acyclic(routes) && group != {} && group <= routes.Keys
    ensures n in group && n in routes && (Succ(routes[n]) == n || Succ(routes[n]) !in group)
  {
    assert HasRoot(routes, group);
    n :| IsRoot(routes, group, n);
  }

  /** With a rank, the member of least rank is such a node. */
  lemma {:induction false} RankedHasRoot(f: Forest, group: set<Id>, n: Id)
    requires Grown(f) && group <= f.routes.Keys && n in group
    ensures HasRoot(f.routes, group)
    decreases f.rank(n)
  {
    assert Planted(f, n);
    var p := Succ(f.routes[n]);
    if p != n && p in group { RankedHasRoot(f, group, p); } else { assert IsRoot(f.routes, group, n); }
  }

  /** `n` has a rank below `k`, and the node it joined through, if any, is not in `rest`
      and has a smaller one. */
  ghost predicate Ranked(routes: map<Id, Node>, rest: set<Id>, k: nat, rank: Id -> nat, n: Id)
    requires n in routes
  {
    rank(n) < k && (Succ(routes[n]) != n ==> Succ(routes[n]) !in rest && rank(Succ(routes[n])) < rank(n))
  }

  ghost predicate AllRanked(routes: map<Id, Node>, rest: set<Id>, k: nat, rank: Id -> nat) {
    forall n {:trigger Ranked(routes, rest, k, rank, n)} ::
      n in routes && n !in rest ==> Ranked(routes, rest, k, rank, n)
  }

  lemma RankedIsGrown(routes: map<Id, Node>, factor: int, k: nat, rank: Id -> nat)
    requires AllJoiners(routes) && AllRanked(routes, {}, k, rank)
    ensures Grown(Forest(routes, rank, factor))
  {
    forall n | n in routes ensures Planted(Forest(routes, rank, factor), n) {
      assert Joiner(routes, n) && Ranked(routes, {}, k, rank, n);
    }
  }

  /** A node that joined through nobody in `rest` comes next. */
  lemma RankOneMore(routes: map<Id, Node>, rest: set<Id>, k: nat, rank: Id -> nat, n: Id) returns (rank': Id -> nat)
    requires AllJoiners(routes) && AllRanked(routes, rest, k, rank) && n in rest && n in routes
    requires Succ(routes[n]) == n || Succ(routes[n]) !in rest
    ensures AllRanked(routes, rest - {n}, k + 1, rank')
  {
    hide LoneTail;
    var p := Succ(routes[n]);
    assert Joiner(routes, n);
    assert p != n ==> Ranked(routes, rest, k, rank, p);
    rank' := (m: Id) => if m == n then k else rank(m);
    forall m {:trigger Ranked(routes, rest - {n}, k + 1, rank', m)} | m in routes && m !in rest - {n}
      ensures Ranked(routes, rest - {n}, k + 1, rank', m)
    {
      if m != n { assert Ranked(routes, rest, k, rank, m); }
    }
  }

  lemma {:induction false} RankRest(routes: map<Id, Node>, factor: int, rest: set<Id>, k: nat, before: Id -> nat)
    returns (rank: Id -> nat)
    requires AllJoiners(routes) && Acyclic(routes) && AllRanked(routes, rest, k, before) && rest <= routes.Keys
    ensures Grown(Forest(routes, rank, factor))
    decreases rest
  {
    hide AllRanked, AllJoiners, Grown, Acyclic;
    if rest == {} {
      RankedIsGrown(routes, factor, k, before);
      rank := before;
    } else {
      var n := RootOf(routes, rest);
      rank := RankOneMore(routes, rest, k, before, n);
      rank := RankRest(routes, factor, rest - {n}, k + 1, rank);
    }
  }

  /** Joins, in whatever order the nodes start, give a forest if and only if no group of
      nodes joined only through one another. */
  lemma GrowsIff(routes: map<Id, Node>, factor: int)
    requires AllJoiners(routes)
    ensures (exists rank: Id -> nat :: Grown(Forest(routes, rank, factor))) <==> Acyclic(routes)
  {
    hide HasRoot, AllJoiners, Grown;
    if rank: Id -> nat :| Grown(Forest(routes, rank, factor)) {
      forall group: set<Id> | group != {} && group <= routes.Keys ensures HasRoot(routes, group) {
        var n :| n in group;
        RankedHasRoot(Forest(routes, rank, factor), group, n);
      }
    }
    if Acyclic(routes) {
      var rank := RankRest(routes, factor, routes.Keys, 0, _ => 0);
    }
  }

  /** The one replica of a node, if it has any. */
  function Parent(f: Forest, n: Id): Option<Id>
    requires n in f.routes
  {
    if f.factor >= 2 && Succ(f.routes[n]) != n then Some(Succ(f.routes[n])) else None
  }

  lemma ParentIsReplica(f: Forest, n: Id)
    requires Grown(f) && n in f.routes
    ensures Replicas(f.routes[n], f.factor) == match Parent(f, n) { case None => [] case Some(p) => [p] }
    ensures forall key :: Responsible(f.routes[n], key)
    ensures Parent(f, n).Some? ==>
              Parent(f, n).value in f.routes && Parent(f, n).value != n && f.rank(Parent(f, n).value) < f.rank(n)
  {
    assert Planted(f, n);
    if f.factor >= 2 { OthersOfLone(f.routes[n].successors[..ReplicaCount(f.factor)], n); }
  }

  /** In the forest a leaving node takes all its keys with it: nothing moves to the node it
      joined through, over any links. */
  lemma LeaversKeepTheirKeys(f: Forest, stores: Stores, n: Id, keyId: Key -> Id, net: Key -> Link)
    requires Grown(f) && n in f.routes && stores.Keys == f.routes.Keys
    ensures Succ(f.routes[n]) in stores
    ensures var p := Succ(f.routes[n]);
            HandOff(f.routes[n], p, stores[n], stores[p], keyId, net) == (stores[n], stores[p])
  {
    assert Planted(f, n);
    NoPredecessorNoHandOff(f.routes[n], Succ(f.routes[n]), stores[n], stores[Succ(f.routes[n])], keyId, net);
  }

  /** From a node up to its root. */
  ghost function Path(f: Forest, n: Id): (path: seq<Id>)
    requires Grown(f) && n in f.routes
    ensures path != [] && path[0] == n
    ensures forall m :: m in path ==> m in f.routes && f.rank(m) <= f.rank(n)
    decreases f.rank(n)
  {
    ParentIsReplica(f, n);
    match Parent(f, n)
    case None => [n]
    case Some(p) => [n] + Path(f, p)
  }

  // ---------------------------------------------------------------- what the calls compute

  type Net = Id -> Link  // the fate of the request a node sends to its replica

  function Write(stores: Stores, n: Id, key: Key, value: Value): (r: Stores)
    requires n in stores
    ensures r.Keys == stores.Keys && r[n] == stores[n][key := value] && forall m :: m in stores && m != n ==>
        r[m] == stores[m]
  {
    stores[n := stores[n][key := value]]
  }

  function Erase(stores: Stores, n: Id, key: Key): (r: Stores)
    requires n in stores
    ensures r.Keys == stores.Keys && r[n] == stores[n] - {key} && forall m :: m in stores && m != n ==>
        r[m] == stores[m]
  {
    stores[n := stores[n] - {key}]
  }

  lemma WrittenThenErased(store: Store, key: Key, value: Value)
    ensures store[key := value] - {key} == store - {key}
  {
  }

  ghost function PutResult(f: Forest, stores: Stores, n: Id, key: Key, value: Value, net: Net): (r: (Stores, bool))
    requires Grown(f) && n in f.routes && stores.Keys == f.routes.Keys
    ensures r.0.Keys == stores.Keys
    decreases f.rank(n)
  {
    ParentIsReplica(f, n);
    var kept := Write(stores, n, key, value);
    match Parent(f, n)
    case None => (kept, true)
    case Some(p) =>
      if net(n) == RequestLost then (Erase(kept, n, key), false)
      else
        var (after, ok) := PutResult(f, kept, p, key, value, net);
        if ok && net(n) == Acknowledged then (after, true) else (Erase(after, n, key), false)
  }

  ghost function GetResult(f: Forest, stores: Stores, n: Id, key: Key, net: Net): Option<Value>
    requires Grown(f) && n in f.routes && stores.Keys == f.routes.Keys
    decreases f.rank(n)
  {
    ParentIsReplica(f, n);
    if key in stores[n] then Some(stores[n][key])
    else match Parent(f, n)
      case None => None
      case Some(p) => if net(n) == Acknowledged then GetResult(f, stores, p, key, net) else None
  }

  /** `gets(m)` are the links while node `m` checks whether the key exists. */
  ghost function DeleteResult(f: Forest, stores: Stores, n: Id, key: Key, gets: Id -> Net,
      net: Net): (r: (Stores, bool))
    requires Grown(f) && n in f.routes && stores.Keys == f.routes.Keys
    ensures r.0.Keys == stores.Keys
    decreases f.rank(n)
  {
    ParentIsReplica(f, n);
    if GetResult(f, stores, n, key, gets(n)).None? then (stores, false)
    else
      var without := Erase(stores, n, key);
      match Parent(f, n)
      case None => (without, true)
      case Some(p) =>
        if net(n) == RequestLost then (without, true)
        else (DeleteResult(f, without, p, key, gets, net).0, true)
  }

  // ---------------------------------------------------------------- any list of replicas

  /** Replicas of smaller rank, as all replicas in the forest are. */
  ghost predicate Above(f: Forest, n: Id, replicas: seq<Id>)
    requires n in f.routes
  {
    forall i {:trigger replicas[i]} :: 0 <= i < |replicas| ==>
      replicas[i] in f.routes && f.rank(replicas[i]) < f.rank(n)
  }

  function RequiredCopies(f: Forest, replicas: seq<Id>): int {
    if f.factor - 1 < |replicas| then f.factor - 1 else |replicas|
  }

  /** One replication request: what it does to the stores, and whether it is seen to succeed. */
  ghost function PutCopy(f: Forest, stores: Stores, replica: Id, key: Key, value: Value, link: Link,
      net: Net): (r: (Stores, bool))
    requires Grown(f) && stores.Keys == f.routes.Keys && replica in f.routes
    ensures r.0.Keys == stores.Keys
  {
    if link == RequestLost then (stores, false) else
    var (after, ok) := PutResult(f, stores, replica, key, value, net);
    (after, ok && link == Acknowledged)
  }

  ghost function DeleteCopy(f: Forest, stores: Stores, replica: Id, key: Key, link: Link, gets: Id -> Net,
      net: Net): (r: (Stores, bool))
    requires Grown(f) && stores.Keys == f.routes.Keys && replica in f.routes
    ensures r.0.Keys == stores.Keys
  {
    if link == RequestLost then (stores, false) else
    var (after, ok) := DeleteResult(f, stores, replica, key, gets, net);
    (after, ok && link == Acknowledged)
  }

  /** Stores and number of successes after a PUT went to the first `i` replicas;
      `links(j)` is the fate of the exchange with replica `j`. */
  ghost function PutCopies(f: Forest, stores: Stores, n: Id, key: Key, value: Value, replicas: seq<Id>, i: nat,
      links: nat -> Link, net: Net): (r: (Stores, nat))
    requires Grown(f) && stores.Keys == f.routes.Keys && n in f.routes && Above(f, n, replicas) && i <= |replicas|
    ensures r.0.Keys == stores.Keys && r.1 <= i
  {
    if i == 0 then (stores, 0) else
    var (before, copies) := PutCopies(f, stores, n, key, value, replicas, i - 1, links, net);
    var (after, ok) := PutCopy(f, before, replicas[i - 1], key, value, links(i - 1), net);
    (after, if ok then copies + 1 else copies)
  }

  ghost function DeleteCopies(f: Forest, stores: Stores, n: Id, key: Key, replicas: seq<Id>, i: nat,
      links: nat -> Link, gets: Id -> Net, net: Net): (r: (Stores, nat))
    requires Grown(f) && stores.Keys == f.routes.Keys && n in f.routes && Above(f, n, replicas) && i <= |replicas|
    ensures r.0.Keys == stores.Keys && r.1 <= i
  {
    if i == 0 then (stores, 0) else
    var (before, copies) := DeleteCopies(f, stores, n, key, replicas, i - 1, links, gets, net);
    var (after, ok) := DeleteCopy(f, before, replicas[i - 1], key, links(i - 1), gets, net);
    (after, if ok then copies + 1 else copies)
  }

  lemma NoPutYet(f: Forest, stores: Stores, n: Id, key: Key, value: Value, replicas: seq<Id>, links: nat -> Link,
      net: Net)
    requires Grown(f) && stores.Keys == f.routes.Keys && n in f.routes && Above(f, n, replicas)
    ensures PutCopies(f, stores, n, key, value, replicas, 0, links, net) == (stores, 0)
  {
  }

  lemma NoDeleteYet(f: Forest, stores: Stores, n: Id, key: Key, replicas: seq<Id>, links: nat -> Link,
      gets: Id -> Net, net: Net)
    requires Grown(f) && stores.Keys == f.routes.Keys && n in f.routes && Above(f, n, replicas)
    ensures DeleteCopies(f, stores, n, key, replicas, 0, links, gets, net) == (stores, 0)
  {
  }

  lemma OneMorePut(f: Forest, stores: Stores, n: Id, key: Key, value: Value, replicas: seq<Id>, i: nat,
      links: nat -> Link, net: Net)
    requires Grown(f) && stores.Keys == f.routes.Keys && n in f.routes && Above(f, n, replicas) && i < |replicas|
    ensures replicas[i] in f.routes && f.rank(replicas[i]) < f.rank(n)
    ensures var (before, copies) := PutCopies(f, stores, n, key, value, replicas, i, links, net);
            var (after, ok) := PutCopy(f, before, replicas[i], key, value, links(i), net);
            PutCopies(f, stores, n, key, value, replicas, i + 1, links, net) ==
              (after, if ok then copies + 1 else copies)
  {
    hide Grown, PutCopy;
  }

  lemma OneMoreDelete(f: Forest, stores: Stores, n: Id, key: Key, replicas: seq<Id>, i: nat, links: nat -> Link,
      gets: Id -> Net, net: Net)
    requires Grown(f) && stores.Keys == f.routes.Keys && n in f.routes && Above(f, n, replicas) && i < |replicas|
    ensures replicas[i] in f.routes && f.rank(replicas[i]) < f.rank(n)
    ensures var (before, copies) := DeleteCopies(f, stores, n, key, replicas, i, links, gets, net);
            var (after, ok) := DeleteCopy(f, before, replicas[i], key, links(i), gets, net);
            DeleteCopies(f, stores, n, key, replicas, i + 1, links, gets, net) ==
              (after, if ok then copies + 1 else copies)
  {
    hide Grown, DeleteCopy;
  }

  /** What replica `i` answers to a GET, if it answers and has an answer. */
  ghost function CopyAt(f: Forest, stores: Stores, n: Id, key: Key, replicas: seq<Id>, i: nat, links: nat -> Link,
      net: Net): Option<Value>
    requires Grown(f) && stores.Keys == f.routes.Keys && n in f.routes && Above(f, n, replicas) && i < |replicas|
  {
    if links(i) == Acknowledged then GetResult(f, stores, replicas[i], key, net) else None
  }

  // ---------------------------------------------------------------- the calls themselves

  class Cluster {
    const f: Forest
    var stores: Stores

    ghost predicate Valid()
      reads this
    {
      Grown(f) && stores.Keys == f.routes.Keys
    }

    constructor (forest: Forest)
      requires Grown(forest)
      ensures f == forest && Valid() && forall n :: n in stores ==> stores[n] == map[]
    {
      f := forest;
      stores := map n | n in forest.routes :: map[];
    }

    method StoreKey(n: Id, key: Key, value: Value, net: Net) returns (ok: bool)
      requires Valid() && n in f.routes
      modifies this
      ensures Valid() && (stores, ok) == PutResult(f, old(stores), n, key, value, net)
      decreases f.rank(n), 2
    {
      ParentIsReplica(f, n);
      stores := Write(stores, n, key, value);
      var replicas := Replicas(f.routes[n], f.factor);
      if replicas != [] {
        ghost var before := stores;
        var replicated := ReplicatePut(n, key, value, replicas, _ => net(n), net);
        assert PutCopies(f, before, n, key, value, replicas, 0, _ => net(n), net) == (before, 0);
        if !replicated {
          stores := Erase(stores, n, key);
          return false;
        }
      }
      return true;
    }

    /** The synchronous branch of `replicate_put`: every required send must succeed. */
    method ReplicatePut(n: Id, key: Key, value: Value, replicas: seq<Id>, links: nat -> Link, net: Net)
        returns (ok: bool)
      requires Valid() && n in f.routes && Above(f, n, replicas)
      modifies this
      ensures Valid()
      ensures var required := RequiredCopies(f, replicas);
              var sends := if required < 0 then 0 else required;
              var (after, copies) := PutCopies(f, old(stores), n, key, value, replicas, sends, links, net);
              stores == after && (ok <==> copies == required)
      decreases f.rank(n), 1
    {
      hide PutCopies, PutCopy, Above, Grown;
      NoPutYet(f, stores, n, key, value, replicas, links, net);
      var successful := 0;
      var required := RequiredCopies(f, replicas);
      var i := 0;
      while i < required
        invariant Valid() && 0 <= i <= |replicas| && (i <= required || i == 0)
        invariant (stores, successful) == PutCopies(f, old(stores), n, key, value, replicas, i, links, net)
      {
        OneMorePut(f, old(stores), n, key, value, replicas, i, links, net);
        var success := SendPut(replicas[i], key, value, links(i), net);
        if success {
          successful := successful + 1;
        }
        i := i + 1;
      }
      return successful == required;
    }

    /** `send_replication_request`: an ordinary PUT at the replica. */
    method SendPut(replica: Id, key: Key, value: Value, link: Link, net: Net) returns (ok: bool)
      requires Valid() && replica in f.routes
      modifies this
      ensures Valid() && (stores, ok) == PutCopy(f, old(stores), replica, key, value, link, net)
      decreases f.rank(replica), 3
    {
      if link == RequestLost {
        return false;
      }
      var stored := StoreKey(replica, key, value, net);
      return stored && link == Acknowledged;
    }

    method RetrieveKey(n: Id, key: Key, net: Net) returns (value: Option<Value>)
      requires Valid() && n in f.routes
      ensures value == GetResult(f, stores, n, key, net)
      decreases f.rank(n), 2
    {
      ParentIsReplica(f, n);
      if key in stores[n] {
        return Some(stores[n][key]);
      }
      var replicas := Replicas(f.routes[n], f.factor);
      if replicas != [] {
        value := GetFromReplicas(n, key, replicas, _ => net(n), net);
        assert CopyAt(f, stores, n, key, replicas, 0, _ => net(n), net) == value;
      } else {
        value := None;
      }
    }

    /** The answer of the first replica that has one. */
    method GetFromReplicas(n: Id, key: Key, replicas: seq<Id>, links: nat -> Link, net: Net)
        returns (value: Option<Value>)
      requires Valid() && n in f.routes && Above(f, n, replicas)
      ensures value.None? ==> forall i :: 0 <= i < |replicas| ==>
          CopyAt(f, stores, n, key, replicas, i, links, net).None?
      ensures value.Some? ==>
                exists i :: 0 <= i < |replicas| && CopyAt(f, stores, n, key, replicas, i, links, net) == value
                         && forall j :: 0 <= j < i ==> CopyAt(f, stores, n, key, replicas, j, links, net).None?
      decreases f.rank(n), 1
    {
      for i := 0 to |replicas|
        invariant forall j :: 0 <= j < i ==> CopyAt(f, stores, n, key, replicas, j, links, net).None?
      {
        if links(i) == Acknowledged {
          value := RetrieveKey(replicas[i], key, net);
          if value.Some? {
            assert CopyAt(f, stores, n, key, replicas, i, links, net) == value;
            return value;
          }
        }
      }
      return None;
    }

    method RemoveKey(n: Id, key: Key, gets: Id -> Net, net: Net) returns (ok: bool)
      requires Valid() && n in f.routes
      modifies this
      ensures Valid() && (stores, ok) == DeleteResult(f, old(stores), n, key, gets, net)
      decreases f.rank(n), 2
    {
      ParentIsReplica(f, n);
      var keyExists := key in stores[n];
      var replicas := Replicas(f.routes[n], f.factor);
      if !keyExists {
        if replicas != [] {
          var found := GetFromReplicas(n, key, replicas, _ => gets(n)(n), gets(n));
          assert CopyAt(f, stores, n, key, replicas, 0, _ => gets(n)(n), gets(n)) == found;
          keyExists := found.Some?;
        }
        if !keyExists {
          return false;
        }
      }
      stores := Erase(stores, n, key);
      if replicas != [] {
        // a failed replicated delete is logged and otherwise ignored
        ghost var before := stores;
        var _ := ReplicateDelete(n, key, replicas, _ => net(n), gets, net);
        assert DeleteCopies(f, before, n, key, replicas, 0, _ => net(n), gets, net) == (before, 0);
      }
      return true;
    }

    /** The synchronous branch of `replicate_delete`. */
    method ReplicateDelete(n: Id, key: Key, replicas: seq<Id>, links: nat -> Link, gets: Id -> Net, net: Net)
        returns (ok: bool)
      requires Valid() && n in f.routes && Above(f, n, replicas)
      modifies this
      ensures Valid()
      ensures var required := RequiredCopies(f, replicas);
              var sends := if required < 0 then 0 else required;
              var (after, copies) := DeleteCopies(f, old(stores), n, key, replicas, sends, links, gets, net);
              stores == after && (ok <==> copies == required)
      decreases f.rank(n), 1
    {
      hide DeleteCopies, DeleteCopy, Above, Grown;
      NoDeleteYet(f, stores, n, key, replicas, links, gets, net);
      var successful := 0;
      var required := RequiredCopies(f, replicas);
      var i := 0;
      while i < required
        invariant Valid() && 0 <= i <= |replicas| && (i <= required || i == 0)
        invariant (stores, successful) == DeleteCopies(f, old(stores), n, key, replicas, i, links, gets, net)
      {
        OneMoreDelete(f, old(stores), n, key, replicas, i, links, gets, net);
        var success := SendDelete(replicas[i], key, links(i), gets, net);
        if success {
          successful := successful + 1;
        }
        i := i + 1;
      }
      return successful == required;
    }

    method SendDelete(replica: Id, key: Key, link: Link, gets: Id -> Net, net: Net) returns (ok: bool)
      requires Valid() && replica in f.routes
      modifies this
      ensures Valid() && (stores, ok) == DeleteCopy(f, old(stores), replica, key, link, gets, net)
      decreases f.rank(replica), 3
    {
      if link == RequestLost {
        return false;
      }
      var removed := RemoveKey(replica, key, gets, net);
      return removed && link == Acknowledged;
    }
  }

  // ---------------------------------------------------------------- one PUT, any links

  /** Every link from position `i` of the path up to the root works. */
  ghost predicate ClearFrom(path: seq<Id>, net: Net, i: nat) {
    forall j :: i <= j < |path| - 1 ==> net(path[j]) == Acknowledged
  }

  /** A request was lost before position `i` was reached. */
  ghost predicate LostBefore(path: seq<Id>, net: Net, i: nat) {
    exists j :: 0 <= j < i && j < |path| - 1 && net(path[j]) == RequestLost
  }

  lemma PathAbove(f: Forest, n: Id)
    requires Grown(f) && n in f.routes && Parent(f, n).Some?
    ensures var p := Parent(f, n).value;
            p in f.routes && Path(f, n) == [n] + Path(f, p) && n !in Path(f, p) && f.rank(p) < f.rank(n)
  {
    ParentIsReplica(f, n);
    assert forall m :: m in Path(f, Parent(f, n).value) ==> f.rank(m) < f.rank(n);
  }

  /** What is left of `key` at position `i` of the path after a PUT. */
  ghost function Expected(path: seq<Id>, net: Net, i: nat, before: Store, key: Key, value: Value): Store {
    if LostBefore(path, net, i) then before
    else if ClearFrom(path, net, i) then before[key := value]
    else before - {key}
  }

  lemma {:induction false} PutSucceedsIff(f: Forest, stores: Stores, n: Id, key: Key, value: Value, net: Net)
    requires Grown(f) && n in f.routes && stores.Keys == f.routes.Keys
    ensures PutResult(f, stores, n, key, value, net).1 <==> ClearFrom(Path(f, n), net, 0)
    ensures forall m :: m in stores && m !in Path(f, n) ==> PutResult(f, stores, n, key, value, net).0[m] == stores[m]
    decreases f.rank(n)
  {
    if Parent(f, n).Some? {
      var p := Parent(f, n).value;
      PathAbove(f, n);
      if net(n) == RequestLost {
        assert net(Path(f, n)[0]) == RequestLost;
      } else {
        PutSucceedsIff(f, Write(stores, n, key, value), p, key, value, net);
        PathStart(Path(f, p), n, net);
      }
    }
  }

  /** One level of the nested calls. */
  lemma PutUnfolds(f: Forest, stores: Stores, n: Id, key: Key, value: Value, net: Net)
    requires Grown(f) && n in f.routes && stores.Keys == f.routes.Keys && Parent(f, n).Some?
    ensures var p, kept := Parent(f, n).value, Write(stores, n, key, value);
            && p in f.routes && p != n && f.rank(p) < f.rank(n)
            && PutResult(f, stores, n, key, value, net) ==
               if net(n) == RequestLost then (Erase(kept, n, key), false)
               else
                 var (after, ok) := PutResult(f, kept, p, key, value, net);
                 if ok && net(n) == Acknowledged then (after, true) else (Erase(after, n, key), false)
  {
    ParentIsReplica(f, n);
  }

  lemma {:induction false} PutOutcomeAt(f: Forest, stores: Stores, n: Id, key: Key, value: Value, net: Net, i: nat)
    requires Grown(f) && n in f.routes && stores.Keys == f.routes.Keys && i < |Path(f, n)|
    ensures var m := Path(f, n)[i];
            PutResult(f, stores, n, key, value, net).0[m] == Expected(Path(f, n), net, i, stores[m], key, value)
    decreases f.rank(n)
  {
    hide *;
    if i == 0 {
      PathStartsHere(f, n);
      PutOutcomeHere(f, stores, n, key, value, net);
    } else {
      PathHasParent(f, n, i);
      PathAbove(f, n);
      PutUnfolds(f, stores, n, key, value, net);
      var p, up := Parent(f, n).value, Path(f, Parent(f, n).value);
      var m, kept := up[i - 1], Write(stores, n, key, value);
      assert m in up && m in f.routes && m != n && Path(f, n)[i] == m;
      if net(n) == RequestLost {
        ExpectedPastLoss(up, n, net, i, stores[m], key, value);
      } else {
        ExpectedShifts(up, n, net, i - 1, stores[m], key, value);
        PutOutcomeAt(f, kept, p, key, value, net, i - 1);
        assert kept[m] == stores[m];
      }
    }
  }

  lemma PathStartsHere(f: Forest, n: Id)
    requires Grown(f) && n in f.routes
    ensures Path(f, n)[0] == n
  {
  }

  lemma PathHasParent(f: Forest, n: Id, i: nat)
    requires Grown(f) && n in f.routes && 0 < i < |Path(f, n)|
    ensures Parent(f, n).Some?
  {
  }

  lemma ExpectedPastLoss(up: seq<Id>, n: Id, net: Net, i: nat, before: Store, key: Key, value: Value)
    requires up != [] && net(n) == RequestLost && 0 < i <= |up|
    ensures Expected([n] + up, net, i, before, key, value) == before
  {
    LostAtOnce(up, n, net, i);
  }

  lemma ExpectedShifts(up: seq<Id>, n: Id, net: Net, i: nat, before: Store, key: Key, value: Value)
    requires i < |up| && net(n) != RequestLost
    ensures Expected([n] + up, net, i + 1, before, key, value) == Expected(up, net, i, before, key, value)
  {
    PathShift(up, n, net, i);
  }

  lemma PutOutcomeHere(f: Forest, stores: Stores, n: Id, key: Key, value: Value, net: Net)
    requires Grown(f) && n in f.routes && stores.Keys == f.routes.Keys
    ensures PutResult(f, stores, n, key, value, net).0[n] == Expected(Path(f, n), net, 0, stores[n], key, value)
  {
    if Parent(f, n).Some? {
      var p := Parent(f, n).value;
      PathAbove(f, n);
      PutUnfolds(f, stores, n, key, value, net);
      PathStart(Path(f, p), n, net);
      PutSucceedsIff(f, Write(stores, n, key, value), p, key, value, net);
      WrittenThenErased(stores[n], key, value);
      hide LostBefore, ClearFrom, Path, PutResult, Write, Erase;
    } else {
      SinglePath(f, n, net);
    }
  }

  lemma SinglePath(f: Forest, n: Id, net: Net)
    requires Grown(f) && n in f.routes && Parent(f, n).None?
    ensures Path(f, n) == [n] && !LostBefore([n], net, 0) && ClearFrom([n], net, 0)
  {
  }

  lemma LostAtOnce(up: seq<Id>, n: Id, net: Net, i: nat)
    requires up != [] && net(n) == RequestLost && i <= |up|
    ensures LostBefore([n] + up, net, i) <==> i > 0
    ensures !ClearFrom([n] + up, net, 0)
  {
    assert net(([n] + up)[0]) == RequestLost;
  }

  /** The exact outcome of a PUT for every path length and every pattern of lost
      requests and replies: nodes past a lost request are untouched, nodes with a clear
      way to the root hold the value, and every other node on the path has dropped the
      key, older value included. It succeeds exactly when all links work. */
  lemma PutOutcome(f: Forest, stores: Stores, n: Id, key: Key, value: Value, net: Net)
    requires Grown(f) && n in f.routes && stores.Keys == f.routes.Keys
    ensures var path := Path(f, n);
            var (after, ok) := PutResult(f, stores, n, key, value, net);
            && (ok <==> ClearFrom(path, net, 0))
            && (forall i :: 0 <= i < |path| ==> after[path[i]] == Expected(path, net, i, stores[path[i]], key, value))
            && (forall m :: m in stores && m !in path ==> after[m] == stores[m])
  {
    PutSucceedsIff(f, stores, n, key, value, net);
    forall i | 0 <= i < |Path(f, n)|
      ensures PutResult(f, stores, n, key, value, net).0[Path(f, n)[i]] ==
                Expected(Path(f, n), net, i, stores[Path(f, n)[i]], key, value)
    {
      PutOutcomeAt(f, stores, n, key, value, net, i);
    }
  }

  lemma PathStart(up: seq<Id>, n: Id, net: Net)
    requires up != []
    ensures ClearFrom([n] + up, net, 0) <==> (net(n) == Acknowledged && ClearFrom(up, net, 0))
    ensures !LostBefore([n] + up, net, 0)
  {
    var path := [n] + up;
    assert net(path[0]) == net(n);
    assert forall j :: 0 <= j < |up| ==> path[j + 1] == up[j];
    if net(n) == Acknowledged && ClearFrom(up, net, 0) {
      forall j | 0 <= j < |path| - 1 ensures net(path[j]) == Acknowledged {
        assert j > 0 ==> net(up[j - 1]) == Acknowledged;
      }
    }
    if ClearFrom(path, net, 0) {
      forall j | 0 <= j < |up| - 1 ensures net(up[j]) == Acknowledged { assert net(path[j + 1]) == Acknowledged; }
    }
  }

  lemma PathShift(up: seq<Id>, n: Id, net: Net, i: nat)
    requires i < |up| && net(n) != RequestLost
    ensures LostBefore([n] + up, net, i + 1) <==> LostBefore(up, net, i)
    ensures ClearFrom([n] + up, net, i + 1) <==> ClearFrom(up, net, i)
  {
    var path := [n] + up;
    if LostBefore(path, net, i + 1) {
      var j :| 0 <= j < i + 1 && j < |path| - 1 && net(path[j]) == RequestLost;
      assert net(up[j - 1]) == RequestLost;
    }
    if LostBefore(up, net, i) {
      var j :| 0 <= j < i && j < |up| - 1 && net(up[j]) == RequestLost;
      assert net(path[j + 1]) == RequestLost;
    }
    if ClearFrom(path, net, i + 1) {
      forall j | i <= j < |up| - 1 ensures net(up[j]) == Acknowledged { assert net(path[j + 1]) == Acknowledged; }
    }
    if ClearFrom(up, net, i) {
      forall j | i + 1 <= j < |path| - 1 ensures net(path[j]) == Acknowledged { assert net(up[j - 1]) == Acknowledged; }
    }
  }

  /** A PUT that succeeds leaves its value on every node of the path and touches no other. */
  lemma CopiesAgree(f: Forest, stores: Stores, n: Id, key: Key, value: Value, net: Net)
    requires Grown(f) && n in f.routes && stores.Keys == f.routes.Keys && PutResult(f, stores, n, key, value, net).1
    ensures var after := PutResult(f, stores, n, key, value, net).0;
            && after[n] == stores[n][key := value]
            && forall m :: m in stores ==> after[m] == stores[m][key := value] || after[m] == stores[m]
  {
    hide PutResult;
    PutOutcome(f, stores, n, key, value, net);
    var path, after := Path(f, n), PutResult(f, stores, n, key, value, net).0;
    hide Path;
    forall i | 0 <= i < |path| ensures after[path[i]] == stores[path[i]][key := value] {
      assert !LostBefore(path, net, i) && ClearFrom(path, net, i);
    }
  }

  ghost predicate Holds(stores: Stores, m: Id, key: Key, value: Value) {
    m in stores && key in stores[m] && stores[m][key] == value
  }

  lemma PutCopyHolds(f: Forest, stores: Stores, replica: Id, key: Key, value: Value, link: Link, net: Net, m: Id)
    requires Grown(f) && stores.Keys == f.routes.Keys && replica in f.routes
    requires PutCopy(f, stores, replica, key, value, link, net).1
    ensures var after := PutCopy(f, stores, replica, key, value, link, net).0;
            && link == Acknowledged && Holds(after, replica, key, value)
            && (Holds(stores, m, key, value) ==> Holds(after, m, key, value))
  {
    hide PutResult, Grown;
    CopiesAgree(f, stores, replica, key, value, net);
  }

  lemma {:induction false} CopiesSoFar(f: Forest, stores: Stores, n: Id, key: Key, value: Value,
      replicas: seq<Id>, i: nat, links: nat -> Link, net: Net, k: nat)
    requires Grown(f) && stores.Keys == f.routes.Keys && n in f.routes && Above(f, n, replicas) && k < i <= |replicas|
    requires PutCopies(f, stores, n, key, value, replicas, i, links, net).1 == i
    ensures links(k) == Acknowledged
    ensures Holds(PutCopies(f, stores, n, key, value, replicas, i, links, net).0, replicas[k], key, value)
    decreases i
  {
    hide PutCopies, PutCopy, Grown, Above, Holds;
    OneMorePut(f, stores, n, key, value, replicas, i - 1, links, net);
    var before := PutCopies(f, stores, n, key, value, replicas, i - 1, links, net).0;
    PutCopyHolds(f, before, replicas[i - 1], key, value, links(i - 1), net, replicas[k]);
    if k < i - 1 {
      CopiesSoFar(f, stores, n, key, value, replicas, i - 1, links, net, k);
    }
  }

  /** A replicated PUT that counts as many successes as it requires has put the value on
      each of the first `factor - 1` replicas, or on all of them if there are fewer. */
  lemma SuccessMeansCopies(f: Forest, stores: Stores, n: Id, key: Key, value: Value,
      replicas: seq<Id>, links: nat -> Link, net: Net, k: nat)
    requires Grown(f) && stores.Keys == f.routes.Keys && n in f.routes && Above(f, n, replicas)
    requires k < f.factor - 1 && k < |replicas|
    requires var required := RequiredCopies(f, replicas);
             required >= 0 ==> PutCopies(f, stores, n, key, value, replicas, required, links, net).1 == required
    ensures 0 < RequiredCopies(f, replicas) <= f.factor - 1
    ensures var after := PutCopies(f, stores, n, key, value, replicas, RequiredCopies(f, replicas), links, net).0;
            links(k) == Acknowledged && Holds(after, replicas[k], key, value)
  {
    hide PutCopies, Grown, Above, Holds;
    CopiesSoFar(f, stores, n, key, value, replicas, RequiredCopies(f, replicas), links, net, k);
  }

  // ---------------------------------------------------------------- one GET or DELETE

  /** The copy held by the first node of `path` that has one. */
  ghost function Nearest(stores: Stores, path: seq<Id>, key: Key): Option<Value>
    requires forall m :: m in path ==> m in stores
  {
    if path == [] then None
    else if key in stores[path[0]] then Some(stores[path[0]][key])
    else Nearest(stores, path[1..], key)
  }

  ghost predicate Up(net: Net) {
    forall n {:trigger net(n)} :: net(n) == Acknowledged
  }

  lemma {:induction false} GetIsNearest(f: Forest, stores: Stores, n: Id, key: Key, net: Net)
    requires Grown(f) && n in f.routes && stores.Keys == f.routes.Keys && Up(net)
    ensures GetResult(f, stores, n, key, net) == Nearest(stores, Path(f, n), key)
    decreases f.rank(n)
  {
    ParentIsReplica(f, n);
    if Parent(f, n).Some? {
      PathAbove(f, n);
      assert Path(f, n)[1..] == Path(f, Parent(f, n).value);
      GetIsNearest(f, stores, Parent(f, n).value, key, net);
    } else {
      assert Path(f, n)[1..] == [];
    }
  }

  lemma {:induction false} NearestExists(stores: Stores, path: seq<Id>, key: Key)
    requires forall m :: m in path ==> m in stores
    ensures Nearest(stores, path, key).Some? <==> exists m :: m in path && key in stores[m]
  {
    if path != [] {
      assert path == [path[0]] + path[1..];
      NearestExists(stores, path[1..], key);
    }
  }

  lemma DeleteSucceedsIff(f: Forest, stores: Stores, n: Id, key: Key, gets: Id -> Net, net: Net)
    requires Grown(f) && n in f.routes && stores.Keys == f.routes.Keys && Up(gets(n))
    ensures DeleteResult(f, stores, n, key, gets, net).1 <==> exists m :: m in Path(f, n) && key in stores[m]
  {
    GetIsNearest(f, stores, n, key, gets(n));
    NearestExists(stores, Path(f, n), key);
    hide Path, GetResult, Nearest;
  }

  /** Over any links a GET returns the nearest copy if its own links get that far, else nothing. */
  lemma {:induction false} GetUnderLosses(f: Forest, stores: Stores, n: Id, key: Key, net: Net)
    requires Grown(f) && n in f.routes && stores.Keys == f.routes.Keys
    ensures GetResult(f, stores, n, key, net) ==
              if Sees(stores, Path(f, n), key, net, 0) then Nearest(stores, Path(f, n), key) else None
    decreases f.rank(n)
  {
    if Parent(f, n).Some? {
      PathAbove(f, n);
      var up := Path(f, Parent(f, n).value);
      assert Path(f, n)[1..] == up;
      SeesHere(stores, up, n, key, net);
      GetUnderLosses(f, stores, Parent(f, n).value, key, net);
      hide Path, Sees;
    } else {
      assert Path(f, n) == [n] + [];
      SeesHere(stores, [], n, key, net);
    }
  }

  lemma DeleteUnfolds(f: Forest, stores: Stores, n: Id, key: Key, gets: Id -> Net, net: Net)
    requires Grown(f) && n in f.routes && stores.Keys == f.routes.Keys && Parent(f, n).Some?
    requires DeleteResult(f, stores, n, key, gets, net).1
    ensures var p, without := Parent(f, n).value, Erase(stores, n, key);
            && p in f.routes
            && DeleteResult(f, stores, n, key, gets, net).0 ==
               if net(n) == RequestLost then without else DeleteResult(f, without, p, key, gets, net).0
  {
    ParentIsReplica(f, n);
  }

  lemma {:induction false} DeleteAt(f: Forest, stores: Stores, n: Id, key: Key, gets: Id -> Net, net: Net, m: Id)
    requires Grown(f) && n in f.routes && stores.Keys == f.routes.Keys && m in stores
    requires Up(net) && forall a {:trigger gets(a)} :: Up(gets(a))
    ensures DeleteResult(f, stores, n, key, gets, net).0[m] == if m in Path(f, n) then stores[m] - {key} else stores[m]
    decreases f.rank(n)
  {
    assert Up(gets(n));
    if !DeleteResult(f, stores, n, key, gets, net).1 {
      DeleteSucceedsIff(f, stores, n, key, gets, net);
    } else if Parent(f, n).Some? {
      PathAbove(f, n);
      assert net(n) == Acknowledged;
      DeleteUnfolds(f, stores, n, key, gets, net);
      DeleteAt(f, Erase(stores, n, key), Parent(f, n).value, key, gets, net, m);
      hide Path, GetResult, DeleteResult, Erase;
    }
  }

  /** With working links a DELETE leaves the key nowhere on the path to the root, and
      succeeds exactly when some node of the path held it. */
  lemma DeleteOutcome(f: Forest, stores: Stores, n: Id, key: Key, gets: Id -> Net, net: Net)
    requires Grown(f) && n in f.routes && stores.Keys == f.routes.Keys
    requires Up(net) && forall m {:trigger gets(m)} :: Up(gets(m))
    ensures var (after, ok) := DeleteResult(f, stores, n, key, gets, net);
            && (ok <==> exists m :: m in Path(f, n) && key in stores[m])
            && (forall m :: m in stores ==> after[m] == if m in Path(f, n) then stores[m] - {key} else stores[m])
  {
    assert Up(gets(n));
    DeleteSucceedsIff(f, stores, n, key, gets, net);
    forall m | m in stores
      ensures DeleteResult(f, stores, n, key, gets, net).0[m] ==
                if m in Path(f, n) then stores[m] - {key} else stores[m]
    {
      DeleteAt(f, stores, n, key, gets, net, m);
    }
  }

  /** The check of position `i` finds the key: it is held there or further up, behind
      links that work during that check. */
  ghost predicate Sees(stores: Stores, path: seq<Id>, key: Key, net: Net, i: nat)
    requires forall m :: m in path ==> m in stores
  {
    exists k :: i <= k < |path| && key in stores[path[k]] && forall j :: i <= j < k ==> net(path[j]) == Acknowledged
  }

  /** Position `i` drops the key: up to it every node sees the key and passes the request on. */
  ghost predicate Drops(stores: Stores, path: seq<Id>, key: Key, gets: Id -> Net, net: Net, i: nat)
    requires i < |path| && forall m :: m in path ==> m in stores
  {
    !LostBefore(path, net, i) && forall j :: 0 <= j <= i ==> Sees(stores, path, key, gets(path[j]), j)
  }

  lemma SeesShifts(stores: Stores, up: seq<Id>, n: Id, key: Key, net: Net, i: nat)
    requires n in stores && forall m :: m in up ==> m in stores
    ensures Sees(stores, [n] + up, key, net, i + 1) <==> Sees(stores, up, key, net, i)
  {
    var path := [n] + up;
    if Sees(stores, up, key, net, i) {
      var k :| i <= k < |up| && key in stores[up[k]] && forall j :: i <= j < k ==> net(up[j]) == Acknowledged;
      forall j | i + 1 <= j < k + 1 ensures net(path[j]) == Acknowledged { assert net(up[j - 1]) == Acknowledged; }
      assert key in stores[path[k + 1]];
    }
    if Sees(stores, path, key, net, i + 1) {
      var k :| i + 1 <= k < |path| && key in stores[path[k]] && forall j :: i + 1 <= j < k ==>
          net(path[j]) == Acknowledged;
      forall j | i <= j < k - 1 ensures net(up[j]) == Acknowledged { assert net(path[j + 1]) == Acknowledged; }
      assert key in stores[up[k - 1]];
    }
  }

  lemma SeesHere(stores: Stores, up: seq<Id>, n: Id, key: Key, net: Net)
    requires n in stores && forall m :: m in up ==> m in stores
    ensures Sees(stores, [n] + up, key, net, 0) <==>
              key in stores[n] || (net(n) == Acknowledged && Sees(stores, up, key, net, 0))
  {
    var path := [n] + up;
    if key in stores[n] { assert key in stores[path[0]]; }
    if net(n) == Acknowledged { SeesFromHere(stores, up, n, key, net); }
    if Sees(stores, path, key, net, 0) && key !in stores[n] {
      var k :| 0 <= k < |path| && key in stores[path[k]] && forall j :: 0 <= j < k ==> net(path[j]) == Acknowledged;
      assert k > 0 && net(path[0]) == Acknowledged;
      assert Sees(stores, path, key, net, 1);
      SeesShifts(stores, up, n, key, net, 0);
    }
  }

  lemma SeesFromHere(stores: Stores, up: seq<Id>, n: Id, key: Key, net: Net)
    requires n in stores && (forall m :: m in up ==> m in stores) && net(n) == Acknowledged
    ensures Sees(stores, up, key, net, 0) ==> Sees(stores, [n] + up, key, net, 0)
  {
    var path := [n] + up;
    if Sees(stores, up, key, net, 0) {
      var k :| 0 <= k < |up| && key in stores[up[k]] && forall j :: 0 <= j < k ==> net(up[j]) == Acknowledged;
      forall j | 0 <= j < k + 1 ensures net(path[j]) == Acknowledged {
        assert j > 0 ==> net(up[j - 1]) == Acknowledged;
      }
      assert key in stores[path[k + 1]];
    }
  }

  lemma {:induction false} GetSees(f: Forest, stores: Stores, n: Id, key: Key, net: Net)
    requires Grown(f) && n in f.routes && stores.Keys == f.routes.Keys
    ensures GetResult(f, stores, n, key, net).Some? <==> Sees(stores, Path(f, n), key, net, 0)
    decreases f.rank(n)
  {
    if Parent(f, n).Some? {
      PathAbove(f, n);
      SeesHere(stores, Path(f, Parent(f, n).value), n, key, net);
      GetSees(f, stores, Parent(f, n).value, key, net);
      hide Path, Sees;
    } else {
      assert Path(f, n) == [n] + [];
      SeesHere(stores, [], n, key, net);
    }
  }

  /** A node below the path does not matter to what the path sees. */
  lemma SeesElsewhere(stores: Stores, path: seq<Id>, key: Key, net: Net, n: Id, i: nat)
    requires n in stores && n !in path && forall m :: m in path ==> m in stores
    ensures Sees(Erase(stores, n, key), path, key, net, i) <==> Sees(stores, path, key, net, i)
  {
    var without := Erase(stores, n, key);
    assert forall k :: 0 <= k < |path| ==> path[k] in path && without[path[k]] == stores[path[k]];
  }

  lemma DropsShifts(stores: Stores, up: seq<Id>, n: Id, key: Key, gets: Id -> Net, net: Net, i: nat)
    requires n in stores && n !in up && i < |up| && (forall m :: m in up ==> m in stores)
    requires net(n) != RequestLost && Sees(stores, [n] + up, key, gets(n), 0)
    ensures Drops(stores, [n] + up, key, gets, net, i + 1) <==> Drops(Erase(stores, n, key), up, key, gets, net, i)
  {
    hide Sees, LostBefore;
    var path := [n] + up;
    PathShift(up, n, net, i);
    forall j | 0 <= j <= i
      ensures Sees(stores, path, key, gets(path[j + 1]), j + 1) <==>
          Sees(Erase(stores, n, key), up, key, gets(up[j]), j)
    {
      SeesElsewhere(stores, up, key, gets(up[j]), n, j);
      SeesShifts(stores, up, n, key, gets(up[j]), j);
    }
    if Drops(Erase(stores, n, key), up, key, gets, net, i) {
      forall j | 0 <= j <= i + 1 ensures Sees(stores, path, key, gets(path[j]), j) {
        if j > 0 { assert Sees(Erase(stores, n, key), up, key, gets(up[j - 1]), j - 1); }
      }
    }
    if Drops(stores, path, key, gets, net, i + 1) {
      forall j | 0 <= j <= i ensures Sees(Erase(stores, n, key), up, key, gets(up[j]), j) {
        assert Sees(stores, path, key, gets(path[j + 1]), j + 1);
      }
    }
  }

  lemma DropsHere(stores: Stores, path: seq<Id>, key: Key, gets: Id -> Net, net: Net)
    requires path != [] && forall m :: m in path ==> m in stores
    ensures Drops(stores, path, key, gets, net, 0) <==> Sees(stores, path, key, gets(path[0]), 0)
  {
    hide Sees;
  }

  lemma NothingDropped(stores: Stores, path: seq<Id>, key: Key, gets: Id -> Net, net: Net, i: nat)
    requires i < |path| && forall m :: m in path ==> m in stores
    requires !Sees(stores, path, key, gets(path[0]), 0) || (i > 0 && net(path[0]) == RequestLost)
    ensures !Drops(stores, path, key, gets, net, i)
  {
    hide Sees;
  }

  lemma {:induction false} DeleteElsewhere(f: Forest, stores: Stores, n: Id, key: Key, gets: Id -> Net, net: Net, m: Id)
    requires Grown(f) && n in f.routes && stores.Keys == f.routes.Keys && m in stores && m !in Path(f, n)
    ensures DeleteResult(f, stores, n, key, gets, net).0[m] == stores[m]
    decreases f.rank(n)
  {
    if Parent(f, n).Some? && DeleteResult(f, stores, n, key, gets, net).1 {
      PathAbove(f, n);
      DeleteUnfolds(f, stores, n, key, gets, net);
      DeleteElsewhere(f, Erase(stores, n, key), Parent(f, n).value, key, gets, net, m);
      hide Path, GetResult, DeleteResult, Erase;
    }
  }

  lemma {:induction false} DeleteOutcomeAt(f: Forest, stores: Stores, n: Id, key: Key, gets: Id -> Net, net: Net,
      i: nat)
    requires Grown(f) && n in f.routes && stores.Keys == f.routes.Keys && i < |Path(f, n)|
    ensures var path := Path(f, n);
            DeleteResult(f, stores, n, key, gets, net).0[path[i]] ==
              if Drops(stores, path, key, gets, net, i) then stores[path[i]] - {key} else stores[path[i]]
    decreases f.rank(n)
  {
    hide *;
    var path := Path(f, n);
    PathStartsHere(f, n);
    DeleteBegins(f, stores, n, key, gets, net);
    if !Sees(stores, path, key, gets(n), 0) {
      NothingDropped(stores, path, key, gets, net, i);
    } else if i == 0 {
      DropsHere(stores, path, key, gets, net);
      DeleteHere(f, stores, n, key, gets, net);
    } else {
      PathHasParent(f, n, i);
      PathAbove(f, n);
      DeleteUnfolds(f, stores, n, key, gets, net);
      var p, up := Parent(f, n).value, Path(f, Parent(f, n).value);
      assert up[i - 1] in up && path[i] == up[i - 1];
      if net(n) == RequestLost {
        NothingDropped(stores, path, key, gets, net, i);
      } else {
        DropsShifts(stores, up, n, key, gets, net, i - 1);
        DeleteOutcomeAt(f, Erase(stores, n, key), p, key, gets, net, i - 1);
      }
    }
  }

  lemma DeleteBegins(f: Forest, stores: Stores, n: Id, key: Key, gets: Id -> Net, net: Net)
    requires Grown(f) && n in f.routes && stores.Keys == f.routes.Keys
    ensures DeleteResult(f, stores, n, key, gets, net).1 <==> Sees(stores, Path(f, n), key, gets(n), 0)
    ensures !DeleteResult(f, stores, n, key, gets, net).1 ==> DeleteResult(f, stores, n, key, gets, net).0 == stores
  {
    GetSees(f, stores, n, key, gets(n));
    hide Path, Sees, GetResult;
  }

  lemma DeleteHere(f: Forest, stores: Stores, n: Id, key: Key, gets: Id -> Net, net: Net)
    requires Grown(f) && n in f.routes && stores.Keys == f.routes.Keys && DeleteResult(f, stores, n, key, gets, net).1
    ensures DeleteResult(f, stores, n, key, gets, net).0[n] == stores[n] - {key}
  {
    if Parent(f, n).Some? {
      PathAbove(f, n);
      DeleteUnfolds(f, stores, n, key, gets, net);
      DeleteElsewhere(f, Erase(stores, n, key), Parent(f, n).value, key, gets, net, n);
      hide Path, GetResult, DeleteResult;
    }
  }

  /** The exact outcome of a DELETE for every path length, every pattern of losses in the
      requests and in the checks: a node of the path drops the key exactly when it and
      everybody before it sees the key and no request to it was lost; nothing else
      changes; the DELETE succeeds exactly when the node asked sees the key. */
  lemma DeleteUnderLosses(f: Forest, stores: Stores, n: Id, key: Key, gets: Id -> Net, net: Net)
    requires Grown(f) && n in f.routes && stores.Keys == f.routes.Keys
    ensures var path := Path(f, n);
            var (after, ok) := DeleteResult(f, stores, n, key, gets, net);
            && (ok <==> Sees(stores, path, key, gets(n), 0))
            && (forall i :: 0 <= i < |path| ==>
                  after[path[i]] ==
                    if Drops(stores, path, key, gets, net, i) then stores[path[i]] - {key} else stores[path[i]])
            && (forall m :: m in stores && m !in path ==> after[m] == stores[m])
  {
    hide GetResult, DeleteResult, Path, Sees, Drops;
    DeleteBegins(f, stores, n, key, gets, net);
    var path := Path(f, n);
    forall i | 0 <= i < |path|
      ensures DeleteResult(f, stores, n, key, gets, net).0[path[i]] ==
                if Drops(stores, path, key, gets, net, i) then stores[path[i]] - {key} else stores[path[i]]
    {
      DeleteOutcomeAt(f, stores, n, key, gets, net, i);
    }
    forall m | m in stores && m !in path ensures DeleteResult(f, stores, n, key, gets, net).0[m] == stores[m] {
      DeleteElsewhere(f, stores, n, key, gets, net, m);
    }
  }

  /** A replicated DELETE counts a success exactly when the exchange is acknowledged and
      the replica sees the key; its failure is not an error, but it is reported. */
  lemma DeleteCopySucceedsIff(f: Forest, stores: Stores, replica: Id, key: Key, link: Link, gets: Id -> Net, net: Net)
    requires Grown(f) && stores.Keys == f.routes.Keys && replica in f.routes
    ensures DeleteCopy(f, stores, replica, key, link, gets, net).1 <==>
              link == Acknowledged && Sees(stores, Path(f, replica), key, gets(replica), 0)
    ensures DeleteCopy(f, stores, replica, key, link, gets, net).1 ==>
              key !in DeleteCopy(f, stores, replica, key, link, gets, net).0[replica]
    ensures forall m :: m in stores ==>
              DeleteCopy(f, stores, replica, key, link, gets, net).0[m] == stores[m] ||
              DeleteCopy(f, stores, replica, key, link, gets, net).0[m] == stores[m] - {key}
  {
    hide DeleteResult, Sees, Drops;
    DeleteUnderLosses(f, stores, replica, key, gets, net);
    var path := Path(f, replica);
    assert path[0] == replica;
    DropsHere(stores, path, key, gets, net);
    hide Path;
    forall m | m in stores
      ensures DeleteResult(f, stores, replica, key, gets, net).0[m] == stores[m] ||
              DeleteResult(f, stores, replica, key, gets, net).0[m] == stores[m] - {key}
    {
      if m in path { var i :| 0 <= i < |path| && path[i] == m; }
    }
  }

  /** When all counted removals succeed, the key is at none of the replicas asked. */
  lemma {:induction false} DeletedFromCopies(f: Forest, stores: Stores, n: Id, key: Key, replicas: seq<Id>, i: nat,
      links: nat -> Link, gets: Id -> Net, net: Net, k: nat)
    requires Grown(f) && stores.Keys == f.routes.Keys && n in f.routes && Above(f, n, replicas) && k < i <= |replicas|
    requires DeleteCopies(f, stores, n, key, replicas, i, links, gets, net).1 == i
    ensures links(k) == Acknowledged && replicas[k] in f.routes
    ensures key !in DeleteCopies(f, stores, n, key, replicas, i, links, gets, net).0[replicas[k]]
    decreases i
  {
    hide DeleteCopies, DeleteCopy, Grown, Above, Sees, Path;
    OneMoreDelete(f, stores, n, key, replicas, i - 1, links, gets, net);
    var before := DeleteCopies(f, stores, n, key, replicas, i - 1, links, gets, net).0;
    DeleteCopySucceedsIff(f, before, replicas[i - 1], key, links(i - 1), gets, net);
    if k < i - 1 {
      DeletedFromCopies(f, stores, n, key, replicas, i - 1, links, gets, net, k);
    }
  }
}
