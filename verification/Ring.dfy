/** The ideal ring over a finite set of node identifiers: which member comes first
    clockwise from a point, and how the responsibility intervals tile the ring. */
module Ring {
  import opened Identifiers

  ghost predicate IsFirst(nodes: set<Id>, x: Id, s: Id) {
    s in nodes && forall m :: m in nodes ==> Dist(x, s) <= Dist(x, m)
  }

  ghost predicate IsLast(nodes: set<Id>, x: Id, p: Id) {
    p in nodes && forall m :: m in nodes ==> Dist(p, x) <= Dist(m, x)
  }

  lemma {:induction false} EndpointsExist(nodes: set<Id>, x: Id)
    requires nodes != {}
    ensures exists s :: IsFirst(nodes, x, s)
    ensures exists p :: IsLast(nodes, x, p)
  {
    var n :| n in nodes;
    var rest := nodes - {n};
    if rest == {} {
      assert nodes == {n};
      assert IsFirst(nodes, x, n) && IsLast(nodes, x, n);
    } else {
      EndpointsExist(rest, x);
      var s :| IsFirst(rest, x, s);
      var p :| IsLast(rest, x, p);
      assert IsFirst(nodes, x, if Dist(x, n) < Dist(x, s) then n else s);
      assert IsLast(nodes, x, if Dist(n, x) < Dist(p, x) then n else p);
    }
  }

  /** successor(x): the first member at or after `x`. */
  ghost function Successor(nodes: set<Id>, x: Id): (s: Id)
    requires nodes != {}
    ensures IsFirst(nodes, x, s)
  {
    EndpointsExist(nodes, x);
    var s :| IsFirst(nodes, x, s);
    s
  }

  /** At least two members. */
  ghost predicate Plural(nodes: set<Id>) {
    exists a, b :: a in nodes && b in nodes && a != b
  }

  lemma HasOther(nodes: set<Id>, n: Id)
    requires Plural(nodes)
    ensures nodes - {n} != {}
  {
    var a, b :| a in nodes && b in nodes && a != b;
    assert (if a == n then b else a) in nodes - {n};
  }

  /** The member after `n`, other than `n`. */
  ghost function Next(nodes: set<Id>, n: Id): (s: Id)
    requires Plural(nodes)
    ensures s != n && s in nodes && forall m :: m in nodes && m != n ==> Dist(n, s) <= Dist(n, m)
  {
    HasOther(nodes, n);
    Successor(nodes - {n}, n)
  }

  /** The member before `n`, other than `n`. */
  ghost function Prev(nodes: set<Id>, n: Id): (p: Id)
    requires Plural(nodes)
    ensures p != n && p in nodes && forall m :: m in nodes && m != n ==> Dist(p, n) <= Dist(m, n)
  {
    HasOther(nodes, n);
    EndpointsExist(nodes - {n}, n);
    var p :| IsLast(nodes - {n}, n, p);
    p
  }

  lemma NextPrevInverse(nodes: set<Id>, n: Id)
    requires n in nodes && Plural(nodes)
    ensures Prev(nodes, Next(nodes, n)) == n
    ensures Next(nodes, Prev(nodes, n)) == n
  {
    var s, p := Next(nodes, n), Prev(nodes, n);
    var b, f := Prev(nodes, s), Next(nodes, p);
    assert Dist(b, s) <= Dist(n, s) && Dist(p, f) <= Dist(p, n);
  }

  /** The intervals (predecessor, self] tile the identifier space: a key lies in the
      interval of a member exactly when that member is the key's successor. */
  lemma ResponsibilityPartition(nodes: set<Id>, n: Id, key: Id)
    requires n in nodes && Plural(nodes)
    ensures InRange(key, Prev(nodes, n), n, true) <==> n == Successor(nodes, key)
  {
    var p, s := Prev(nodes, n), Successor(nodes, key);
    InRangeIsCyclic(key, p, n);
  }

  lemma ExactlyOneResponsible(nodes: set<Id>, key: Id)
    requires Plural(nodes)
    ensures exists n :: n in nodes && InRange(key, Prev(nodes, n), n, true)
                     && forall m :: m in nodes && InRange(key, Prev(nodes, m), m, true) ==> m == n
  {
    var s := Successor(nodes, key);
    forall m | m in nodes
      ensures InRange(key, Prev(nodes, m), m, true) <==> m == s
    {
      ResponsibilityPartition(nodes, m, key);
    }
    assert s in nodes && InRange(key, Prev(nodes, s), s, true);
  }

  /** A key in (n, next(n)] is owned by next(n). */
  lemma NextOwns(nodes: set<Id>, n: Id, key: Id)
    requires n in nodes && Plural(nodes)
    ensures InRange(key, n, Next(nodes, n), true) <==> Next(nodes, n) == Successor(nodes, key)
  {
    var s := Next(nodes, n);
    NextPrevInverse(nodes, n);
    ResponsibilityPartition(nodes, s, key);
  }
}
