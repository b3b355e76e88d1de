/** Whole runs of PUT, GET and DELETE commands issued at any nodes of the join forest. */
module ReplicationRuns {
  import opened Bytes
  import opened Identifiers
  import opened Routing
  import opened KeyTransfer
  import opened Replication

  // ---------------------------------------------------------------- commands and their links

  datatype Command =
    | Put(node: Id, key: Key, value: Value)
    | Get(node: Id, key: Key)
    | Delete(node: Id, key: Key)

  function Works(n: Id): Link { Acknowledged }

  ghost predicate Issued(f: Forest, cs: seq<Command>) {
    forall c :: c in cs ==> c.node in f.routes
  }

  /** The links while command `i` of a run is carried out: `nets(i)` for its requests,
      `gets(i)` for the checks a DELETE makes. */
  datatype Links = Links(gets: nat -> Id -> Net, nets: nat -> Net)

  function Reliable(): Links { Links(_ => _ => Works, _ => Works) }

  /** The stores after a run of commands, each issued at any node. */
  ghost function Execute(f: Forest, stores: Stores, cs: seq<Command>, links: Links): (r: Stores)
    requires Grown(f) && stores.Keys == f.routes.Keys && Issued(f, cs)
    ensures r.Keys == stores.Keys
  {
    if cs == [] then stores else
    var i := |cs| - 1;
    var before := Execute(f, stores, cs[..i], links);
    match cs[i]
    case Put(n, key, value) => PutResult(f, before, n, key, value, links.nets(i)).0
    case Get(_, _) => before
    case Delete(n, key) => DeleteResult(f, before, n, key, links.gets(i), links.nets(i)).0
  }

  // ---------------------------------------------------------------- runs over any links

  ghost function Position(path: seq<Id>, m: Id): (i: nat)
    requires m in path
    ensures i < |path| && path[i] == m
  {
    var i :| 0 <= i < |path| && path[i] == m;
    i
  }

  /** What command `c` leaves at node `m`, by the exact outcome of a single command. */
  ghost function Effect(f: Forest, stores: Stores, c: Command, gets: Id -> Net, net: Net, m: Id): Store
    requires Grown(f) && stores.Keys == f.routes.Keys && c.node in f.routes && m in f.routes
  {
    var path := Path(f, c.node);
    if m !in path then stores[m] else
    match c
    case Put(_, key, value) => Expected(path, net, Position(path, m), stores[m], key, value)
    case Get(_, _) => stores[m]
    case Delete(_, key) =>
      if Drops(stores, path, key, gets, net, Position(path, m)) then stores[m] - {key} else stores[m]
  }

  /** All stores, replayed command by command. */
  ghost function ReplayOver(f: Forest, cs: seq<Command>, links: Links): (r: Stores)
    requires Grown(f) && Issued(f, cs)
    ensures r.Keys == f.routes.Keys
  {
    if cs == [] then Empty(f) else
    var i := |cs| - 1;
    var before := ReplayOver(f, cs[..i], links);
    map m | m in f.routes :: Effect(f, before, cs[i], links.gets(i), links.nets(i), m)
  }

  lemma EffectIsOutcome(f: Forest, stores: Stores, c: Command, gets: Id -> Net, net: Net, m: Id)
    requires Grown(f) && stores.Keys == f.routes.Keys && c.node in f.routes && m in f.routes
    ensures c.Put? ==> PutResult(f, stores, c.node, c.key, c.value, net).0[m] == Effect(f, stores, c, gets, net, m)
    ensures c.Get? ==> stores[m] == Effect(f, stores, c, gets, net, m)
    ensures c.Delete? ==> DeleteResult(f, stores, c.node, c.key, gets, net).0[m] == Effect(f, stores, c, gets, net, m)
  {
    hide PutResult, DeleteResult, Path, Expected, Drops;
    if c.Put? { PutOutcome(f, stores, c.node, c.key, c.value, net); }
    if c.Delete? { DeleteUnderLosses(f, stores, c.node, c.key, gets, net); }
  }

  /** Over any run of commands, whichever requests, replies and checks are lost, the
      stores are those of the replay. */
  lemma {:induction false} LossyRunIsReplay(f: Forest, cs: seq<Command>, links: Links)
    requires Grown(f) && Issued(f, cs)
    ensures Execute(f, Empty(f), cs, links) == ReplayOver(f, cs, links)
  {
    if cs != [] {
      hide PutResult, DeleteResult, Path, Effect, Grown;
      var i := |cs| - 1;
      LossyRunIsReplay(f, cs[..i], links);
      var before, after := Execute(f, Empty(f), cs[..i], links), Execute(f, Empty(f), cs, links);
      assert cs[i] in cs;
      forall m | m in f.routes ensures after[m] == ReplayOver(f, cs, links)[m] {
        EffectIsOutcome(f, before, cs[i], links.gets(i), links.nets(i), m);
      }
    }
  }

  /** Command `i` of the run put `value` under `key`, at `m` or below it. */
  ghost predicate PutBy(f: Forest, cs: seq<Command>, i: nat, m: Id, key: Key, value: Value)
    requires Grown(f) && Issued(f, cs)
  {
    i < |cs| && cs[i].node in f.routes && cs[i] == Put(cs[i].node, key, value) && m in Path(f, cs[i].node)
  }

  lemma EffectOrigin(f: Forest, stores: Stores, c: Command, gets: Id -> Net, net: Net, m: Id, key: Key)
    requires Grown(f) && stores.Keys == f.routes.Keys && c.node in f.routes && m in f.routes
    requires key in Effect(f, stores, c, gets, net, m)
    ensures var value := Effect(f, stores, c, gets, net, m)[key];
            || (key in stores[m] && stores[m][key] == value)
            || (c == Put(c.node, key, value) && m in Path(f, c.node))
  {
    hide Path, Drops, LostBefore, ClearFrom;
  }

  /** Nothing is invented: whatever is lost, a value held by a node was put there by a
      command issued at the node or below it. */
  lemma {:induction false} NothingInvented(f: Forest, cs: seq<Command>, links: Links, m: Id, key: Key)
    requires Grown(f) && Issued(f, cs) && m in f.routes && key in ReplayOver(f, cs, links)[m]
    ensures exists i: nat :: PutBy(f, cs, i, m, key, ReplayOver(f, cs, links)[m][key])
  {
    if cs != [] {
      hide Path, Effect, Grown;
      var k := |cs| - 1;
      var init, before, value := cs[..k], ReplayOver(f, cs[..k], links), ReplayOver(f, cs, links)[m][key];
      assert cs[k] in cs;
      EffectOrigin(f, before, cs[k], links.gets(k), links.nets(k), m, key);
      if key in before[m] && before[m][key] == value {
        NothingInvented(f, init, links, m, key);
        var i: nat :| PutBy(f, init, i, m, key, value);
        assert PutBy(f, cs, i, m, key, value);
      } else {
        assert PutBy(f, cs, k, m, key, value);
      }
    }
  }

  lemma {:induction false} GetFindsCopy(f: Forest, stores: Stores, n: Id, key: Key, net: Net) returns (m: Id)
    requires Grown(f) && n in f.routes && stores.Keys == f.routes.Keys && GetResult(f, stores, n, key, net).Some?
    ensures m in Path(f, n) && key in stores[m] && GetResult(f, stores, n, key, net) == Some(stores[m][key])
    decreases f.rank(n)
  {
    m := n;
    if key !in stores[n] {
      PathAbove(f, n);
      m := GetFindsCopy(f, stores, Parent(f, n).value, key, net);
    }
  }

  /** So a GET, over any links and after any run, returns nothing or a value that was put
      under the key at or below a node of its path. */
  lemma GetInventsNothing(f: Forest, cs: seq<Command>, links: Links, n: Id, key: Key, net: Net)
    requires Grown(f) && Issued(f, cs) && n in f.routes
    ensures var r := GetResult(f, Execute(f, Empty(f), cs, links), n, key, net);
            r.Some? ==> exists m, i: nat :: m in Path(f, n) && PutBy(f, cs, i, m, key, r.value)
  {
    hide Path, GetResult, Grown, PutBy;
    var stores := Execute(f, Empty(f), cs, links);
    if GetResult(f, stores, n, key, net).Some? {
      LossyRunIsReplay(f, cs, links);
      var m := GetFindsCopy(f, stores, n, key, net);
      NothingInvented(f, cs, links, m, key);
    }
  }

  // ---------------------------------------------------------------- runs over working links

  /** The sequential map of the commands issued in the subtree of `m`. */
  ghost function Replay(f: Forest, cs: seq<Command>, m: Id): Store
    requires Grown(f) && Issued(f, cs)
  {
    if cs == [] then map[] else
    var before, c := Replay(f, cs[..|cs| - 1], m), cs[|cs| - 1];
    if m !in Path(f, c.node) then before else
    match c
    case Put(_, key, value) => before[key := value]
    case Get(_, _) => before
    case Delete(_, key) => before - {key}
  }

  ghost function Empty(f: Forest): (stores: Stores)
    ensures stores.Keys == f.routes.Keys
  {
    map n | n in f.routes :: map[]
  }

  /** Every node, not only the root, holds exactly what a single map would hold after the
      commands issued at it or below it. For a root that is all commands of its tree. */
  lemma {:induction false} StoreIsReplay(f: Forest, cs: seq<Command>, m: Id)
    requires Grown(f) && Issued(f, cs) && m in f.routes
    ensures Execute(f, Empty(f), cs, Reliable())[m] == Replay(f, cs, m)
  {
    if cs != [] {
      var init, c := cs[..|cs| - 1], cs[|cs| - 1];
      StoreIsReplay(f, init, m);
      var before := Execute(f, Empty(f), init, Reliable());
      match c
      case Put(n, key, value) =>
        PutEverywhere(f, before, n, key, value, m);
      case Get(_, _) =>
      case Delete(n, key) =>
        DeleteOutcome(f, before, n, key, _ => Works, Works);
    }
  }

  lemma PutEverywhere(f: Forest, stores: Stores, n: Id, key: Key, value: Value, m: Id)
    requires Grown(f) && n in f.routes && m in f.routes && stores.Keys == f.routes.Keys
    ensures var (after, ok) := PutResult(f, stores, n, key, value, Works);
            ok && after[m] == if m in Path(f, n) then stores[m][key := value] else stores[m]
  {
    PutSucceedsIff(f, stores, n, key, value, Works);
    if m in Path(f, n) {
      var i :| 0 <= i < |Path(f, n)| && Path(f, n)[i] == m;
      PutOutcomeAt(f, stores, n, key, value, Works, i);
    }
  }

  ghost function ReplayStores(f: Forest, cs: seq<Command>): (stores: Stores)
    requires Grown(f) && Issued(f, cs)
    ensures stores.Keys == f.routes.Keys && forall m :: m in f.routes ==> stores[m] == Replay(f, cs, m)
  {
    map m | m in f.routes :: Replay(f, cs, m)
  }

  /** A GET answers with the copy of the nearest node on the way to the root. */
  lemma GetAfterRun(f: Forest, cs: seq<Command>, n: Id, key: Key)
    requires Grown(f) && Issued(f, cs) && n in f.routes
    ensures GetResult(f, Execute(f, Empty(f), cs, Reliable()), n, key, Works) ==
              Nearest(ReplayStores(f, cs), Path(f, n), key)
  {
    var stores := Execute(f, Empty(f), cs, Reliable());
    forall m | m in f.routes ensures stores[m] == ReplayStores(f, cs)[m] {
      StoreIsReplay(f, cs, m);
    }
    assert stores == ReplayStores(f, cs);
    GetIsNearest(f, stores, n, key, Works);
  }

  ghost function Root(f: Forest, n: Id): (r: Id)
    requires Grown(f) && n in f.routes
    ensures r in f.routes && r in Path(f, n)
  {
    Path(f, n)[|Path(f, n)| - 1]
  }

  lemma RootIsLast(f: Forest, n: Id)
    requires Grown(f) && n in f.routes
    ensures Root(f, n) == Path(f, n)[|Path(f, n)| - 1]
  {
    hide Path, Grown;
  }

  function CopyIn(store: Store, key: Key): Option<Value> {
    if key in store then Some(store[key]) else None
  }

  lemma {:induction false} NearestOfLast(stores: Stores, path: seq<Id>, key: Key)
    requires path != [] && forall m :: m in path ==> m in stores
    requires forall i :: 0 <= i < |path| - 1 ==> key !in stores[path[i]]
    ensures Nearest(stores, path, key) == CopyIn(stores[path[|path| - 1]], key)
  {
    if |path| > 1 { NearestOfLast(stores, path[1..], key); }
  }

  /** A stale answer needs a copy below the root: a GET that differs from the root's
      sequential map found one at a node of its path other than the root. */
  lemma StaleNeedsLocalCopy(f: Forest, cs: seq<Command>, n: Id, key: Key)
    requires Grown(f) && Issued(f, cs) && n in f.routes
    requires GetResult(f, Execute(f, Empty(f), cs, Reliable()), n, key, Works) != CopyIn(Replay(f, cs, Root(f, n)), key)
    ensures exists i :: 0 <= i < |Path(f, n)| - 1 && key in Replay(f, cs, Path(f, n)[i])
  {
    hide *;
    GetAfterRun(f, cs, n, key);
    RootIsLast(f, n);
    var path, stores := Path(f, n), ReplayStores(f, cs);
    assert forall i :: 0 <= i < |path| ==> path[i] in path;
    if forall i :: 0 <= i < |path| - 1 ==> key !in Replay(f, cs, path[i]) {
      NearestOfLast(stores, path, key);
    }
  }

  // ---------------------------------------------------------------- fresh reads, exactly

  /** The last PUT or DELETE of the key issued at `m` or below it. */
  ghost function LastWrite(f: Forest, cs: seq<Command>, m: Id, key: Key): Option<Command>
    requires Grown(f) && Issued(f, cs)
  {
    if cs == [] then None else
    var c := cs[|cs| - 1];
    if !c.Get? && c.key == key && m in Path(f, c.node) then Some(c) else LastWrite(f, cs[..|cs| - 1], m, key)
  }

  /** What that command wrote: a value, or nothing. */
  ghost function Written(f: Forest, cs: seq<Command>, m: Id, key: Key): Option<Value>
    requires Grown(f) && Issued(f, cs)
  {
    match LastWrite(f, cs, m, key)
    case Some(Put(_, _, value)) => Some(value)
    case _ => None
  }

  lemma {:induction false} ReplayIsLastWrite(f: Forest, cs: seq<Command>, m: Id, key: Key)
    requires Grown(f) && Issued(f, cs)
    ensures CopyIn(Replay(f, cs, m), key) == Written(f, cs, m, key)
  {
    if cs != [] {
      ReplayIsLastWrite(f, cs[..|cs| - 1], m, key);
      hide Path;
    }
  }

  /** Position `i`, below the root, is the first of the path whose last write was a PUT. */
  ghost predicate AnswersBelowRoot(f: Forest, cs: seq<Command>, path: seq<Id>, key: Key, i: nat)
    requires Grown(f) && Issued(f, cs)
  {
    i < |path| - 1 && Written(f, cs, path[i], key).Some? && forall j :: 0 <= j < i ==>
        Written(f, cs, path[j], key).None?
  }

  lemma {:induction false} NearestAt(stores: Stores, path: seq<Id>, key: Key, i: nat)
    requires i < |path| && (forall m :: m in path ==> m in stores)
    requires key in stores[path[i]] && forall j :: 0 <= j < i ==> key !in stores[path[j]]
    ensures Nearest(stores, path, key) == Some(stores[path[i]][key])
  {
    if i > 0 { NearestAt(stores, path[1..], key, i - 1); }
  }

  lemma {:induction false} FirstAnswer(f: Forest, cs: seq<Command>, path: seq<Id>, key: Key, k: nat) returns (i: nat)
    requires Grown(f) && Issued(f, cs) && k < |path| - 1 && Written(f, cs, path[k], key).Some?
    ensures AnswersBelowRoot(f, cs, path, key, i)
  {
    hide Written;
    if j :| 0 <= j < k && Written(f, cs, path[j], key).Some? {
      i := FirstAnswer(f, cs, path, key, j);
    } else {
      i := k;
    }
  }

  /** A GET returns what the last write in the whole tree left exactly when the first
      node below the root on its path whose own last write was a PUT, if there is one,
      was last written with that same value. */
  lemma FreshIff(f: Forest, cs: seq<Command>, n: Id, key: Key)
    requires Grown(f) && Issued(f, cs) && n in f.routes
    ensures var path, latest := Path(f, n), Written(f, cs, Root(f, n), key);
            GetResult(f, Execute(f, Empty(f), cs, Reliable()), n, key, Works) == latest <==>
              forall i: nat :: AnswersBelowRoot(f, cs, path, key, i) ==> Written(f, cs, path[i], key) == latest
  {
    hide *;
    var path := Path(f, n);
    if i: nat :| AnswersBelowRoot(f, cs, path, key, i) {
      AnsweredBelow(f, cs, n, key, i);
      forall k: nat | AnswersBelowRoot(f, cs, path, key, k) ensures k == i {
        OneAnswers(f, cs, path, key, i, k);
      }
    } else {
      AnsweredAtRoot(f, cs, n, key);
    }
  }

  lemma OneAnswers(f: Forest, cs: seq<Command>, path: seq<Id>, key: Key, i: nat, k: nat)
    requires Grown(f) && Issued(f, cs)
    requires AnswersBelowRoot(f, cs, path, key, i) && AnswersBelowRoot(f, cs, path, key, k)
    ensures i == k
  {
    hide Written;
  }

  lemma AnsweredBelow(f: Forest, cs: seq<Command>, n: Id, key: Key, i: nat)
    requires Grown(f) && Issued(f, cs) && n in f.routes && AnswersBelowRoot(f, cs, Path(f, n), key, i)
    ensures i < |Path(f, n)|
    ensures GetResult(f, Execute(f, Empty(f), cs, Reliable()), n, key, Works) == Written(f, cs, Path(f, n)[i], key)
  {
    hide Path, Replay, Written, Execute, GetResult, Nearest, Empty;
    GetAfterRun(f, cs, n, key);
    var path, stores := Path(f, n), ReplayStores(f, cs);
    forall j | 0 <= j <= i ensures CopyIn(stores[path[j]], key) == Written(f, cs, path[j], key) {
      assert path[j] in path;
      ReplayIsLastWrite(f, cs, path[j], key);
    }
    NearestAt(stores, path, key, i);
  }

  lemma AnsweredAtRoot(f: Forest, cs: seq<Command>, n: Id, key: Key)
    requires Grown(f) && Issued(f, cs) && n in f.routes
    requires forall i: nat :: !AnswersBelowRoot(f, cs, Path(f, n), key, i)
    ensures GetResult(f, Execute(f, Empty(f), cs, Reliable()), n, key, Works) == Written(f, cs, Root(f, n), key)
  {
    hide Path, Replay, Written, Execute, GetResult, Nearest, Empty;
    GetAfterRun(f, cs, n, key);
    RootIsLast(f, n);
    var path, stores := Path(f, n), ReplayStores(f, cs);
    ReplayIsLastWrite(f, cs, Root(f, n), key);
    forall j | 0 <= j < |path| - 1 ensures key !in stores[path[j]] {
      assert path[j] in path;
      ReplayIsLastWrite(f, cs, path[j], key);
      if Written(f, cs, path[j], key).Some? { var i := FirstAnswer(f, cs, path, key, j); }
    }
    NearestOfLast(stores, path, key);
  }

  /** A node reads its own writes until the key is written again at it or below it. */
  lemma ReadsOwnWrites(f: Forest, cs: seq<Command>, n: Id, key: Key, value: Value, rest: seq<Command>)
    requires Grown(f) && Issued(f, cs) && Issued(f, rest) && n in f.routes
    requires forall c :: c in rest && !c.Get? && c.key == key ==> n !in Path(f, c.node)
    ensures var all := cs + [Put(n, key, value)] + rest;
            Issued(f, all) && GetResult(f, Execute(f, Empty(f), all, Reliable()), n, key, Works) == Some(value)
  {
    var all := cs + [Put(n, key, value)] + rest;
    WriteStays(f, cs, n, key, value, rest);
    StoreIsReplay(f, all, n);
  }

  lemma {:induction false} WriteStays(f: Forest, cs: seq<Command>, n: Id, key: Key, value: Value, rest: seq<Command>)
    requires Grown(f) && Issued(f, cs) && Issued(f, rest) && n in f.routes
    requires forall c :: c in rest && !c.Get? && c.key == key ==> n !in Path(f, c.node)
    ensures var all := cs + [Put(n, key, value)] + rest;
            Issued(f, all) && CopyIn(Replay(f, all, n), key) == Some(value)
  {
    var all := cs + [Put(n, key, value)] + rest;
    if rest == [] {
      assert all[..|all| - 1] == cs;
    } else {
      var init, c := rest[..|rest| - 1], rest[|rest| - 1];
      assert c in rest && forall d :: d in init ==> d in rest;
      WriteStays(f, cs, n, key, value, init);
      assert all[..|all| - 1] == cs + [Put(n, key, value)] + init;
    }
  }

  lemma RootAbove(f: Forest, n: Id)
    requires Grown(f) && n in f.routes && Parent(f, n).Some?
    ensures Parent(f, n).value in f.routes && Root(f, n) == Root(f, Parent(f, n).value)
  {
    PathAbove(f, n);
  }

  /** Stale reads do happen: at every node that has a replica, a write there followed by
      another one at its replica. */
  lemma StaleReadsHappen(f: Forest, n: Id, key: Key, mine: Value, theirs: Value)
    requires Grown(f) && n in f.routes && Parent(f, n).Some? && mine != theirs
    ensures var p := Parent(f, n).value;
            var cs := [Put(n, key, mine), Put(p, key, theirs)];
            && Issued(f, cs)
            && GetResult(f, Execute(f, Empty(f), cs, Reliable()), n, key, Works) == Some(mine)
            && CopyIn(Replay(f, cs, Root(f, n)), key) == Some(theirs)
  {
    var p := Parent(f, n).value;
    PathAbove(f, n);
    RootAbove(f, n);
    var last := Put(p, key, theirs);
    ReadsOwnWrites(f, [], n, key, mine, [last]);
    assert [] + [Put(n, key, mine)] + [last] == [Put(n, key, mine), last];
    StaleAtRoot(f, [Put(n, key, mine)], p, key, theirs);
    assert [Put(n, key, mine)] + [last] == [Put(n, key, mine), last];
  }

  lemma StaleAtRoot(f: Forest, cs: seq<Command>, p: Id, key: Key, value: Value)
    requires Grown(f) && Issued(f, cs) && p in f.routes
    ensures var all := cs + [Put(p, key, value)];
            Issued(f, all) && CopyIn(Replay(f, all, Root(f, p)), key) == Some(value)
  {
    var all := cs + [Put(p, key, value)];
    assert all[..|all| - 1] == cs;
  }
}
