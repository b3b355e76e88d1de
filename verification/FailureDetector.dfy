/** The failure detector: per-node miss counters, marks, and age-based cleanup. Times
    are readings of a steady clock; the epoch, 0, stands for "never seen". */
module FailureDetector {
  import opened Identifiers

  /** A node is named by its "address:port" key; here, by the identifier that determines it. */
  datatype Status = Status(lastSeen: nat, failures: int, suspected: bool, failed: bool)

  type Statuses = map<Id, Status>

  datatype Event =
    | Ping(node: Id, up: bool, now: nat)
    | MarkResponsive(node: Id, now: nat)
    | MarkFailed(node: Id)
    | Cleanup(now: nat)

  datatype Config = Config(threshold: int, maxAge: nat)

  const Fresh := Status(0, 0, false, false)

  function Entry(m: Statuses, n: Id): Status {
    if n in m then m[n] else Fresh
  }

  /** Division that truncates towards zero. */
  function Half(x: int): int {
    if x >= 0 then x / 2 else -((-x) / 2)
  }

  function Missed(c: Config, s: Status): Status {
    var failures := s.failures + 1;
    if failures >= c.threshold then s.(failures := failures, failed := true)
    else if failures >= Half(c.threshold) then s.(failures := failures, suspected := true)
    else s.(failures := failures)
  }

  function Seen(s: Status, now: nat): Status { Status(now, 0, false, false) }

  function Handle(c: Config, m: Statuses, e: Event): Statuses {
    match e
    case Ping(n, up, now) => m[n := if up then Seen(Entry(m, n), now) else Missed(c, Entry(m, n))]
    case MarkResponsive(n, now) => m[n := Seen(Entry(m, n), now)]
    case MarkFailed(n) => m[n := Entry(m, n).(failed := true, failures := c.threshold)]
    case Cleanup(now) => map n | n in m && m[n].lastSeen >= now - c.maxAge :: m[n]
  }

  function After(c: Config, history: seq<Event>): Statuses {
    if history == [] then map[] else Handle(c, After(c, history[..|history| - 1]), history[|history| - 1])
  }

  predicate ReportedFailed(m: Statuses, n: Id) {
    n in m && m[n].failed
  }

  predicate ReportedSuspected(m: Statuses, n: Id) {
    n in m && m[n].suspected
  }

  // ---------------------------------------------------------------- reading the history

  predicate Responds(e: Event, n: Id) {
    match e
    case Ping(m, up, _) => m == n && up
    case MarkResponsive(m, _) => m == n
    case _ => false
  }

  /** When `n` last responded; 0 if never. */
  function LastUp(h: seq<Event>, n: Id): nat {
    if h == [] then 0
    else if Responds(h[|h| - 1], n) then h[|h| - 1].now
    else LastUp(h[..|h| - 1], n)
  }

  /** The last event of `h` wipes the record of `n`: a response, or a cleanup more than
      `maxAge` after the last response. */
  predicate Wipes(c: Config, h: seq<Event>, n: Id)
    requires h != []
  {
    var e := h[|h| - 1];
    Responds(e, n) || (e.Cleanup? && LastUp(h, n) < e.now - c.maxAge)
  }

  /** Missed pings of `n` since its record was last wiped. */
  function Misses(c: Config, h: seq<Event>, n: Id): nat {
    if h == [] || Wipes(c, h, n) then 0
    else Misses(c, h[..|h| - 1], n) + if h[|h| - 1].Ping? && h[|h| - 1].node == n then 1 else 0
  }

  /** Whether `n` was marked failed since its record was last wiped. */
  predicate Marked(c: Config, h: seq<Event>, n: Id) {
    h != [] && !Wipes(c, h, n) && (h[|h| - 1] == MarkFailed(n) || Marked(c, h[..|h| - 1], n))
  }

  /** Missed pings since the last wipe, up to the first mark. */
  function EarlyMisses(c: Config, h: seq<Event>, n: Id): nat {
    if h == [] || Wipes(c, h, n) then 0
    else
      var init := h[..|h| - 1];
      EarlyMisses(c, init, n) + if h[|h| - 1].Ping? && h[|h| - 1].node == n && !Marked(c, init, n) then 1 else 0
  }

  /** The miss that raises suspicion: the first one at half the threshold or beyond. */
  function FirstSuspicion(c: Config): nat {
    if Half(c.threshold) < 1 then 1 else Half(c.threshold)
  }

  predicate Suspicious(c: Config, h: seq<Event>, n: Id) {
    EarlyMisses(c, h, n) >= FirstSuspicion(c) && FirstSuspicion(c) < c.threshold
  }

  /** The latest clock reading. */
  function Clock(h: seq<Event>): nat {
    if h == [] then 0
    else if h[|h| - 1].MarkFailed? then Clock(h[..|h| - 1])
    else h[|h| - 1].now
  }

  /** The clock never runs backwards. */
  predicate Steady(h: seq<Event>) {
    h == [] || (Steady(h[..|h| - 1]) && Clock(h[..|h| - 1]) <= Clock(h))
  }

  predicate Deserves(c: Config, h: seq<Event>, n: Id) {
    Marked(c, h, n) || (Misses(c, h, n) >= 1 && Misses(c, h, n) >= c.threshold)
  }

  ghost predicate Mirrors(c: Config, h: seq<Event>, n: Id) {
    var m, entry := After(c, h), Entry(After(c, h), n);
    && (entry.failed <==> Deserves(c, h, n))
    && (entry.suspected <==> Suspicious(c, h, n))
    && (!Marked(c, h, n) ==> entry.failures == Misses(c, h, n) == EarlyMisses(c, h, n))
    && (Marked(c, h, n) ==> entry.failures >= c.threshold)
    && (n !in m ==> Misses(c, h, n) == EarlyMisses(c, h, n) == 0 && !Marked(c, h, n))
    && LastUp(h, n) <= Clock(h)
    && ((n in m && entry.lastSeen == LastUp(h, n)) || LastUp(h, n) == entry.lastSeen == 0
        || (entry.lastSeen == 0 && LastUp(h, n) < Clock(h) - c.maxAge))
  }

  lemma {:induction false} HistoryMirrored(c: Config, h: seq<Event>, n: Id)
    requires Steady(h)
    ensures Mirrors(c, h, n)
  {
    if h != [] {
      var init, e := h[..|h| - 1], h[|h| - 1];
      HistoryMirrored(c, init, n);
      var before := After(c, init);
      assert After(c, h) == Handle(c, before, e);
      hide After, Steady;
      match e
      case Ping(m, up, now) =>
      case MarkResponsive(m, now) =>
      case MarkFailed(m) =>
      case Cleanup(now) =>
    }
  }

  /** For every history: a node is reported failed exactly when, since its record was
      last wiped, it was marked failed or missed at least `threshold` pings (and at least one). */
  lemma FailedIff(c: Config, h: seq<Event>, n: Id)
    requires Steady(h)
    ensures ReportedFailed(After(c, h), n) <==>
              (Marked(c, h, n) || (Misses(c, h, n) >= 1 && Misses(c, h, n) >= c.threshold))
  {
    HistoryMirrored(c, h, n);
  }

  /** Half the threshold is rounded down: at threshold 3 the first miss raises suspicion. */
  lemma FirstSuspicionIs(c: Config, misses: nat)
    ensures misses >= FirstSuspicion(c) && FirstSuspicion(c) < c.threshold <==>
              c.threshold >= 2 && misses >= 1 && 2 * misses + 1 >= c.threshold
  {
  }

  /** A node is suspected exactly when, since its record was last wiped and before any
      mark, it missed enough pings to reach half the threshold while still below it. */
  lemma SuspectedIff(c: Config, h: seq<Event>, n: Id)
    requires Steady(h)
    ensures ReportedSuspected(After(c, h), n) <==>
              (EarlyMisses(c, h, n) >= FirstSuspicion(c) && FirstSuspicion(c) < c.threshold)
    ensures ReportedSuspected(After(c, h), n) <==>
              (c.threshold >= 2 && EarlyMisses(c, h, n) >= 1 && 2 * EarlyMisses(c, h, n) + 1 >= c.threshold)
  {
    HistoryMirrored(c, h, n);
    FirstSuspicionIs(c, EarlyMisses(c, h, n));
  }

  // ---------------------------------------------------------------- consequences

  function CountMissed(rest: seq<Event>, n: Id): nat {
    if rest == [] then 0
    else CountMissed(rest[..|rest| - 1], n) +
         match rest[|rest| - 1] { case Ping(m, up, _) => if m == n && !up then 1 else 0 case _ => 0 }
  }

  /** No response of `n`, and no cleanup later than `maxAge` after `last`. */
  predicate Undisturbed(c: Config, rest: seq<Event>, n: Id, last: nat) {
    forall e :: e in rest ==> !Responds(e, n) && (e.Cleanup? ==> e.now <= last + c.maxAge)
  }

  lemma {:induction false} MissesAccumulate(c: Config, h: seq<Event>, rest: seq<Event>, n: Id)
    requires Undisturbed(c, rest, n, LastUp(h, n))
    ensures Misses(c, h + rest, n) >= CountMissed(rest, n) && LastUp(h + rest, n) == LastUp(h, n)
  {
    if rest == [] {
      assert h + rest == h;
    } else {
      var init, e := rest[..|rest| - 1], rest[|rest| - 1];
      assert e in rest && forall d :: d in init ==> d in rest;
      MissesAccumulate(c, h, init, n);
      assert (h + rest)[..|h + rest| - 1] == h + init;
    }
  }

  /** `threshold` misses in a row, with no cleanup later than `maxAge` after the last
      response, are enough: such cleanups cannot delay the report. */
  lemma DetectedInTime(c: Config, h: seq<Event>, rest: seq<Event>, n: Id)
    requires Steady(h + rest) && Undisturbed(c, rest, n, LastUp(h, n))
    requires CountMissed(rest, n) >= 1 && CountMissed(rest, n) >= c.threshold
    ensures ReportedFailed(After(c, h + rest), n)
  {
    MissesAccumulate(c, h, rest, n);
    FailedIff(c, h + rest, n);
  }

  /** `k` unanswered pings in one round: a node is pinged once for every place among the
      successors and the predecessor that names it. */
  function Pings(n: Id, now: nat, k: nat): seq<Event> {
    if k == 0 then [] else Pings(n, now, k - 1) + [Ping(n, false, now)]
  }

  /** The failure-detection loop, seen by a node that never answered: each round, a time
      and a number of pings, ends with a cleanup. */
  function Rounds(n: Id, rounds: seq<(nat, nat)>): seq<Event> {
    if rounds == [] then [] else
    var (now, k) := rounds[|rounds| - 1];
    Rounds(n, rounds[..|rounds| - 1]) + Pings(n, now, k) + [Cleanup(now)]
  }

  lemma {:induction false} PingsCount(c: Config, h: seq<Event>, n: Id, now: nat, k: nat)
    requires n !in After(c, h)
    ensures var m := After(c, h + Pings(n, now, k));
            && (n in m <==> k > 0)
            && (k > 0 ==> m[n].lastSeen == 0 && m[n].failures == k && (m[n].failed <==> k >= c.threshold))
  {
    hide After;
    if k == 0 {
      assert h + Pings(n, now, k) == h;
    } else {
      PingsCount(c, h, n, now, k - 1);
      AfterOneMore(c, h + Pings(n, now, k - 1), Ping(n, false, now));
      assert h + Pings(n, now, k) == h + Pings(n, now, k - 1) + [Ping(n, false, now)];
    }
  }

  /** Once the clock has passed `maxAge`, the cleanup of every round forgets the misses of
      a node never seen: it is reported exactly when a single round pings it `threshold`
      times, however many rounds went before. */
  lemma {:induction false} NeverSeenReportedIff(c: Config, n: Id, rounds: seq<(nat, nat)>, now: nat, k: nat)
    requires forall r :: r in rounds ==> r.0 > c.maxAge
    ensures n !in After(c, Rounds(n, rounds))
    ensures ReportedFailed(After(c, Rounds(n, rounds) + Pings(n, now, k)), n) <==> k >= 1 && k >= c.threshold
  {
    hide After;
    if rounds == [] {
      NothingYet(c);
    } else {
      var init := rounds[..|rounds| - 1];
      var (t, j) := rounds[|rounds| - 1];
      assert (t, j) in rounds && forall r :: r in init ==> r in rounds;
      NeverSeenReportedIff(c, n, init, t, j);
      PingsCount(c, Rounds(n, init), n, t, j);
      AfterOneMore(c, Rounds(n, init) + Pings(n, t, j), Cleanup(t));
    }
    PingsCount(c, Rounds(n, rounds), n, now, k);
  }

  lemma NothingYet(c: Config)
    ensures After(c, []) == map[]
  {
  }

  lemma AfterOneMore(c: Config, h: seq<Event>, e: Event)
    ensures After(c, h + [e]) == Handle(c, After(c, h), e)
  {
    assert (h + [e])[..|h|] == h;
  }

  // ---------------------------------------------------------------- the detector

  class Detector {
    const config: Config
    var statuses: Statuses

    constructor (c: Config)
      ensures config == c && statuses == map[]
    {
      config := c;
      statuses := map[];
    }

    method PingNode(node: Option<Id>, responsive: bool, now: nat)
      modifies this
      ensures statuses == if node.None? then old(statuses)
          else Handle(config, old(statuses), Ping(node.value, responsive, now))
    {
      if node.None? {
        return;
      }
      var status := Entry(statuses, node.value);
      if responsive {
        status := Status(now, 0, false, false);
      } else {
        status := status.(failures := status.failures + 1);
        if status.failures >= config.threshold {
          status := status.(failed := true);
        } else if status.failures >= Half(config.threshold) {
          status := status.(suspected := true);
        }
      }
      statuses := statuses[node.value := status];
    }

    method MarkNodeResponsive(node: Option<Id>, now: nat)
      modifies this
      ensures statuses == if node.None? then old(statuses)
          else Handle(config, old(statuses), MarkResponsive(node.value, now))
    {
      if node.Some? {
        statuses := statuses[node.value := Status(now, 0, false, false)];
      }
    }

    method MarkNodeFailed(node: Option<Id>)
      modifies this
      ensures statuses == if node.None? then old(statuses) else Handle(config, old(statuses), MarkFailed(node.value))
    {
      if node.Some? {
        var status := Entry(statuses, node.value);
        statuses := statuses[node.value := status.(failed := true, failures := config.threshold)];
      }
    }

    method IsNodeFailed(node: Option<Id>) returns (failed: bool)
      ensures failed <==> (node.None? || ReportedFailed(statuses, node.value))
    {
      return node.None? || (node.value in statuses && statuses[node.value].failed);
    }

    method IsNodeSuspected(node: Option<Id>) returns (suspected: bool)
      ensures suspected <==> (node.None? || ReportedSuspected(statuses, node.value))
    {
      return node.None? || (node.value in statuses && statuses[node.value].suspected);
    }

    /** Walks over the entries in any order and erases the old ones. */
    method CleanupOldEntries(now: nat)
      modifies this
      ensures statuses == Handle(config, old(statuses), Cleanup(now))
    {
      var cutoff: int := now - config.maxAge;
      var unvisited := statuses.Keys;
      ghost var before := statuses;
      while unvisited != {}
        invariant unvisited <= statuses.Keys <= before.Keys
        invariant forall n :: n in statuses ==> statuses[n] == before[n]
        invariant forall n :: n in before && n !in unvisited ==> (n in statuses <==> before[n].lastSeen >= cutoff)
      {
        var n :| n in unvisited;
        if statuses[n].lastSeen < cutoff {
          statuses := statuses - {n};
        }
        unvisited := unvisited - {n};
      }
    }
  }
}
