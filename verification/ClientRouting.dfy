/** Client operations against a ring: the responsibility check and redirect of the
    server, and the client that follows at most one redirect. */
module ClientRouting {
  import opened Identifiers
  import opened Ring
  import opened Routing
  import opened Stabilization
  import opened Lookup
  import opened NodeAddress

  /** A ring and its endpoints: where every node listens, and who answers where. */
  datatype Network = Network(nodes: Nodes, book: Id -> Endpoint, listeners: map<Endpoint, Id>)

  ghost predicate Listed(net: Network) {
    && (forall n {:trigger net.book(n)} :: n in net.nodes ==>
          net.book(n).port < 65536 && net.book(n) in net.listeners && net.listeners[net.book(n)] == n)
    && (forall e :: e in net.listeners ==> net.listeners[e] in net.nodes && net.book(net.listeners[e]) == e)
  }

  datatype Reply = Handled | Redirect(to: Text)

  /** GET, PUT and DELETE at a node: handle the key here, or name the node that should.
      `found` is the result of its `find_successor`, null if that failed. */
  function Decide(s: Node, key: Id, found: Option<Id>, book: Id -> Endpoint): Reply {
    if !Responsible(s, key) && found.Some? && found.value != s.self
    then Redirect(Format(book(found.value)))
    else Handled
  }

  /** The same at node `n` of a ring. */
  function Dispatch(net: Network, n: Id, key: Id): Reply
    requires Routable(net.nodes) && n in net.nodes
  {
    Decide(net.nodes[n], key, Some(Find(net.nodes, n, key).node), net.book)
  }

  /** Only the owner handles a key; every other node redirects to it. */
  lemma DispatchToOwner(net: Network, n: Id, key: Id)
    requires Routable(net.nodes) && n in net.nodes
    ensures var owner := Successor(net.nodes.Keys, key);
            Dispatch(net, n, key) == if n == owner then Handled else Redirect(Format(net.book(owner)))
  {
    assert KnowsNeighbours(net.nodes, n);
    ResponsibilityPartition(net.nodes.Keys, n, key);
  }

  /** Which node ends up handling the operation a client sends to `n`, whatever the servers
      answer: the client follows one redirect and takes a second one for a failure. */
  function Followed(listeners: map<Endpoint, Id>, serve: Id -> Reply, n: Id): Option<Id> {
    match serve(n)
    case Handled => Some(n)
    case Redirect(to) =>
      if to == [] then None else
      match Parse(to)
      case None => None
      case Some(e) =>
        if e !in listeners then None
        else if serve(listeners[e]).Handled? then Some(listeners[e]) else None
  }

  /** The same with the servers of a ring. */
  function HandledBy(net: Network, n: Id, key: Id): Option<Id>
    requires Routable(net.nodes) && Listed(net) && n in net.nodes
  {
    Followed(net.listeners, (m: Id) => if m in net.nodes then Dispatch(net, m, key) else Handled, n)
  }

  /** The key operations of `handle_chord_operation`, for every result of the lookup. */
  method HandleKeyOperation(s: Node, key: Id, found: Option<Id>, book: Id -> Endpoint) returns (reply: Reply)
    ensures reply == Decide(s, key, found, book)
    ensures reply.Handled? <==> Responsible(s, key) || found.None? || found == Some(s.self)
    ensures reply.Redirect? ==>
              found.Some? && reply.to == book(found.value).host + [58] + Decimal(book(found.value).port)
  {
    if !Responsible(s, key) {
      if found.Some? && found.value != s.self {
        var e := book(found.value);
        var text := e.host + [COLON] + Decimal(e.port);
        return Redirect(text);
      }
    }
    return Handled;
  }

  /** With the lookups of a ring, the owner handles and every other node names the owner. */
  method OperationAt(net: Network, n: Id, key: Id) returns (reply: Reply)
    requires Routable(net.nodes) && n in net.nodes
    ensures reply == Dispatch(net, n, key)
    ensures var owner := Successor(net.nodes.Keys, key);
            reply == if n == owner then Handled else Redirect(Format(net.book(owner)))
  {
    DispatchToOwner(net, n, key);
    var found := Find(net.nodes, n, key).node;
    reply := HandleKeyOperation(net.nodes[n], key, Some(found), net.book);
  }

  /** The redirect logic shared by `put`, `get` and `remove` of the client. Only a node that
      handles the operation itself counts, and only the node asked or the one it named. */
  method ClientOperation(listeners: map<Endpoint, Id>, serve: Id -> Reply, n: Id) returns (handler: Option<Id>)
    ensures handler == Followed(listeners, serve, n)
    ensures handler.Some? ==> serve(handler.value).Handled?
    ensures serve(n).Handled? ==> handler == Some(n)
    ensures serve(n).Redirect? && handler.Some? ==>
              Parse(serve(n).to).Some? && Parse(serve(n).to).value in listeners &&
              handler.value == listeners[Parse(serve(n).to).value]
    ensures forall host: Text, port: nat ::
              (serve(n) == Redirect(host + [58] + Decimal(port)) && 58 !in host && port < 65536 &&
               Endpoint(host, port) in listeners && serve(listeners[Endpoint(host, port)]).Handled?) ==>
                handler == Some(listeners[Endpoint(host, port)])
  {
    forall host: Text, port: nat | 58 !in host && port < 65536
      ensures Parse(host + [58] + Decimal(port)) == Some(Endpoint(host, port))
    {
      ParseWraps(host, port);
    }
    var reply := serve(n);
    if reply.Redirect? && reply.to != [] {
      var colon := FindColon(reply.to);
      if colon != |reply.to| {
        var host := reply.to[..colon];
        var port := Stoi(reply.to[colon + 1..]);
        if port.Some? {
          var endpoint := Endpoint(host, port.value % 65536);
          if endpoint in listeners {
            var second := serve(listeners[endpoint]);
            if second.Handled? {
              return Some(listeners[endpoint]);
            }
          }
        }
      }
      return None;
    }
    return if reply.Handled? then Some(n) else None;
  }

  /** An operation sent to any node is handled by the key's owner, with at most one
      redirect, exactly when the node asked is the owner or the owner's address has no
      colon; otherwise it fails. It is never handled by any other node. */
  lemma OneRedirectSuffices(net: Network, n: Id, key: Id)
    requires Routable(net.nodes) && Listed(net) && n in net.nodes
    ensures var owner := Successor(net.nodes.Keys, key);
            HandledBy(net, n, key) == if n == owner || COLON !in net.book(owner).host then Some(owner) else None
  {
    var owner := Successor(net.nodes.Keys, key);
    DispatchToOwner(net, n, key);
    hide Routable, Dispatch;
    if n != owner {
      var e := net.book(owner);
      FormatRoundTrip(e);
      assert Format(e) != [];
      var found := Parse(Format(e));
      if found.Some? && found.value in net.listeners {
        DispatchToOwner(net, net.listeners[found.value], key);
      }
    }
  }

  // ---------------------------------------------------------------- replication inside a ring

  /** Whether a PUT that `n` handles itself returns within `depth` nested requests: a
      node replicates by sending an ordinary PUT to its first replica and waiting. */
  ghost predicate PutReturns(net: Network, factor: int, n: Id, key: Id, depth: nat)
    requires Routable(net.nodes) && Listed(net) && n in net.nodes
    decreases depth
  {
    var replicas := Replicas(net.nodes[n], factor);
    replicas == [] ||
    (depth > 0 && replicas[0] in net.nodes &&
     match HandledBy(net, replicas[0], key)
     case None => true
     case Some(m) => m in net.nodes && PutReturns(net, factor, m, key, depth - 1))
  }

  lemma {:induction false} FirstReplica(list: seq<Id>, self: Id)
    requires list != [] && list[0] != self
    ensures Others(list, self) != [] && Others(list, self)[0] == list[0]
  {
    if |list| > 1 { FirstReplica(list[..|list| - 1], self); }
    else { assert Others(list[..0], self) == []; }
  }

  /** In a ring with predecessors the replica redirects the copy back to the owner, who
      replicates again: but for time-outs the owner's PUT returns exactly when the
      replication factor asks for no replica at all, or the first copy fails because the
      owner's address cannot be parsed. */
  lemma {:induction false} PutReturnsIff(net: Network, factor: int, key: Id, depth: nat)
    requires Routable(net.nodes) && Listed(net)
    ensures var owner := Successor(net.nodes.Keys, key);
            PutReturns(net, factor, owner, key, depth) <==> factor <= 1 || (depth > 0 && COLON in net.book(owner).host)
    decreases depth
  {
    var owner := Successor(net.nodes.Keys, key);
    assert KnowsNeighbours(net.nodes, owner);
    var s, replicas := Succ(net.nodes[owner]), Replicas(net.nodes[owner], factor);
    if factor > 1 {
      FirstReplica(net.nodes[owner].successors[..ReplicaCount(factor)], owner);
      OneRedirectSuffices(net, s, key);
      hide Routable, HandledBy;
      if depth > 0 { PutReturnsIff(net, factor, key, depth - 1); }
    }
  }
}
