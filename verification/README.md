# FunnelKVS: a verified model of the Chord key-value store

FunnelKVS is a key-value store on a Chord ring. This project models its hard parts in
Dafny and proves what they achieve over all inputs, all interleavings and any number of nodes.

| file | what it models |
|---|---|
| `Identifiers.dfy`, `Ring.dfy` | 160-bit ring arithmetic, cyclic intervals, the ideal ring over a finite set of nodes |
| `HashBytes.dfy`, `Sha1.dfy`, `Sha1Example.dfy` | identifiers as 20 bytes with carry and borrow loops; SHA-1 against FIPS 180-4 and its example |
| `Routing.dfy`, `ChordNode.dfy` | the routing state of one node, and the class whose methods change it |
| `Stabilization.dfy`, `Convergence.dfy`, `Fairness.dfy`, `RingStart.dfy` | joins, stabilization rounds and notifications as an interleaved system; convergence under every fair schedule; which joins form a ring at all |
| `Lookup.dfy`, `RingLife.dfy` | lookups across nodes, finger refresh, and the whole life of a ring put together |
| `KeyTransfer.dfy` | key hand-off on leave and on notify |
| `NodeAddress.dfy`, `ClientRouting.dfy` | "address:port" text, server redirect, the client's single redirect |
| `Replication.dfy`, `ReplicationRuns.dfy` | replicated PUT, GET, DELETE in a join forest, with lost requests and replies; whole runs of them |
| `ReplicationQueue.dfy`, `QueueOrder.dfy`, `FailureDetector.dfy` | the asynchronous queue with retries, and exactly when it keeps the order; miss counters, marks and cleanups |
| `Protocol.dfy`, `Framing.dfy` | the wire format and stream framing |

## How the system is read

- **Nodes are identifiers.** NodeInfo values are compared by `id` only, so a node is named by
  its identifier; distinct nodes are assumed to have distinct identifiers. List entries are
  identifiers, not nullable pointers: each write carries the proof that it stores a node.
- **Remote calls.** `contact_node` returns the contacted node itself as a placeholder
  (src/chord.cpp:588-603). Methods of `ChordNode` take the reply as a parameter and are proved for
  every reply. The ring-wide results (modules Stabilization, Convergence, Fairness, RingStart, Lookup, RingLife, ClientRouting) use the reply
  the request handlers give (src/chord_server.cpp:120-178). With the placeholder the
  ring results do not describe the shipped program.
- **Two cluster shapes.** Since nothing sends NOTIFY (src/chord_server.cpp:292-307), running nodes
  have no predecessor, handle every key themselves and replicate to the node they joined
  through: the join forest of modules Replication and ReplicationRuns. Rings with predecessors are what the
  protocol is designed for; there, replication by ordinary PUT never returns (`PutReturnsIff`).
- **Locks** are left out except for the atomic steps they create; `routing_mutex` is in fact
  taken twice at src/chord.cpp:166 and 210, and at 633 and 447.
- **SHA-1 in the ring.** Results that need the hash of a key take it as an arbitrary function.

## Properties of the design that the code does not have

- `distance` ignores `from` when it wraps: exact condition in `DistanceIsClockwiseIff`.
- A seed that is alone never closes the ring (`SeedNeverCloses`), and comes to rest sharing its successor
  with a joiner (`SeedSharesSuccessor`). From a consistent ring of two or more nodes, joins converge; nodes
  that join through one another become a ring exactly under the condition of `RingFormsIff`, so two mutual
  joiners do (`MutualJoiners`) and a circle that goes around twice does not (`WrongWayRound`).
- `fix_fingers` can overwrite the only finger naming the true successor (`FixAtCanLoseSuccessor`);
  exact condition in `FixAtKeepsRoutableIff`. A true first finger is kept.
- Leaving a ring of two offers none of the node's keys (`LeaveOffersOwnKeysIff`); an accepted
  notification offers only keys hashing exactly to the notifier (`NotifyOffersOnlyExactHits`).
- Reads can be stale (`StaleReadsHappen`), only from a local copy (`StaleNeedsLocalCopy`); exact condition on
  the commands issued in `FreshIff`.
- The queue can reorder a DELETE behind a later PUT even if every link works (`RetriedDeleteOvertakes`); over
  working links no attempt fails exactly under the condition of `OrderedOverWorkingLinks`, and the order of
  acceptance is kept in every run exactly under that of `OrderKeptIff`.
- A node never seen is not reported by pings once the clock exceeds the cleanup age, unless one round pings it
  threshold times (`NeverSeenReportedIff`).

## Model

| member | source | states |
|---|---|---|
| `Convergence.RestIsConsistentRing` | src/chord.cpp:225-287 | start from any consistent ring of two or more nodes and let any nodes join through any members while rounds, replies and notifications interleave, fail, arrive late or repeatedly: a state is at rest if and only if it is the consistent ring over all nodes present |
| `Convergence.JoinsConverge` | src/chord.cpp:61-85 | from every state of such a run some continuation without joins reaches the consistent ring over the nodes present |
| `Convergence.RunsSettle` | src/chord.cpp:225-261 | between joins a run changes pointers at most as often as the sum of clockwise distances it starts with |
| `Convergence.ChangesAreBounded` | src/chord.cpp:225-287 | the same bound for every possible reply and notification, truthful or not |
| `Convergence.QuiescentInjective` | src/chord.cpp:235-260 | in every quiescent state without self-predecessors, two nodes sharing a successor are the same node, or one of them is its own successor |
| `Convergence.SeedSharesSuccessor` | src/chord.cpp:235-237 | that exception is reached: a lone seed and the node that joined and notified it, at rest |
| `Fairness.FairSchedulesConverge` | src/chord.cpp:225-287 | after any joins, every join-free schedule with more sweeps than the sum of clockwise distances ends in the consistent ring over the nodes present; a sweep is a stretch in which every node completes an answered contact, update and delivery, with anything in between, failed contacts included |
| `Fairness.StillSweepIsRing` | src/chord.cpp:225-287 | a sweep that changes no pointer happens only in the consistent ring |
| `Fairness.SweepProgresses` | src/chord.cpp:225-287 | every sweep ends in the consistent ring or lowers the sum of distances, and never leaves the ring |
| `Fairness.SweepsExist` | src/chord.cpp:225-261 | from every reachable state any number of sweeps can be made |
| `Fairness.RingStays` | src/chord.cpp:242-281 | in a consistent ring no action other than a join changes a pointer, late replies and repeated notifications included |
| `Fairness.OnlyJoinsDisturb` | src/chord.cpp:225-287 | the same over whole runs: a consistent ring once reached is left only by a join |
| `Convergence.SeedNeverCloses` | src/chord.cpp:235-237 | a lone seed keeps itself as successor whoever joins, so no such state is a consistent ring |
| `Convergence.SelfLoopStays` | src/chord.cpp:235-237 | a node that is its own successor stays so over every run |
| `RingStart.RingFormsIff` | src/chord.cpp:61-85 | nodes that joined through one another, in any way, can become a consistent ring if and only if their successor pointers lead into a single cycle of two or more nodes that goes around the ring once |
| `RingStart.OneTurnConverges` | src/chord.cpp:225-287 | then, whoever joins later, every schedule with enough sweeps makes them one |
| `RingStart.NoTurnNoRing` | src/chord.cpp:225-287 | otherwise no state of any run, later joins included, is a consistent ring: not with a self-loop, a second cycle or a cycle of more than one turn |
| `RingStart.MutualJoiners` | src/chord.cpp:74-78 | two nodes that join through each other meet the condition |
| `RingStart.WrongWayRound` | src/chord.cpp:74-78 | three nodes whose joins go around twice do not |
| `Stabilization.QuiescentMutual` | src/chord.cpp:242-260 | in a quiescent state the predecessor of the successor of a node is the node |
| `Stabilization.LeadsSurvivesUpdate` | src/chord.cpp:245-252 | a stabilization update keeps every successor path: nodes once reachable stay reachable |
| `Stabilization.InvAlways` | src/chord.cpp:225-287 | the invariant of all such runs: predecessors, pending replies and notifications lead to their targets without overshooting, and everyone reaches the original ring |
| `Stabilization.QuiescentIsConsistent` | src/chord.cpp:225-287 | invariant and rest together give true neighbours for every node |
| `Routing.EveryLookupStep` | src/chord.cpp:161-223 | for every state of a node: it names itself only for keys it is responsible for or when it is its own successor; it passes a lookup on if and only if some finger lies strictly between it and the key, to such a finger; otherwise it answers its first successor |
| `Routing.JoinerAsksContact` | src/chord.cpp:61-85 | a joiner that has refreshed nothing sends every key that is neither its own nor its contact's to the contact |
| `Lookup.WithoutFingers` | src/chord.cpp:168-181 | with true neighbours and no finger on the way, the answer is the true successor of the node, which owns the key if and only if the key lies no farther than it |
| `Lookup.LookupIn160Hops` | src/chord.cpp:161-182 | with exact fingers every lookup from every node returns the true owner within 160 remote calls |
| `Lookup.FindVisits` | src/chord_server.cpp:120-139 | the remote calls counted are those of the nodes the lookup visits, each asking the next and the last answering |
| `Lookup.HopHalves` | src/chord.cpp:209-223 | every hop of the high-to-low finger scan more than halves the clockwise distance to the key's predecessor |
| `Lookup.Find` | src/chord_server.cpp:120-139 | with true neighbours, live fingers and the true successor among them, lookup terminates and returns the owner however stale the other fingers are |
| `Lookup.HopAdvances` | src/chord.cpp:174-182 | a node either answers with the owner or asks a live node strictly closer to the key |
| `Lookup.FixAtKeepsFirstFinger` | src/chord.cpp:289-313 | a refresh keeps all fingers live and the first finger true |
| `Lookup.FixAtKeepsRoutableIff` | src/chord.cpp:309-312 | the weaker hypothesis survives a refresh if and only if the true successor is found or listed elsewhere |
| `Lookup.FixAtCanLoseSuccessor` | src/chord.cpp:309-312 | a concrete ring in which it does not, every node in a state that a sequence of its operations leads to |
| `Lookup.FirstFingerIsLocal` | src/chord.cpp:168-172 | the refresh of finger 0 is answered locally with the true successor |
| `Lookup.RefreshMakesPerfect` | src/chord.cpp:296-301 | once every node has refreshed 160 times, in any interleaving, every finger of every node is exact |
| `RingLife.WarmUpRoutes` | src/chord.cpp:289-313 | from live fingers and true neighbours, 160 refreshes per node with arbitrary live answers make every first finger true |
| `RingLife.LookupsAfterJoins` | src/chord.cpp:61-85 | joins and refreshes composed: in every run, whenever it comes to rest, 160 and again 160 refreshes per node in any order make every lookup find the owner among all nodes within 160 hops |
| `RingLife.LookupsAfterSweeps` | src/chord.cpp:161-182 | the same after joins and any schedule with enough sweeps, without supposing rest |
| `Ring.ResponsibilityPartition` | src/chord.cpp:446-456 | with true predecessors, a node is responsible for a key if and only if it is the key's successor |
| `Ring.ExactlyOneResponsible` | src/chord.cpp:446-456 | for two or more nodes every key has exactly one responsible node |
| `Routing.NotifyKeepsClosest` | src/chord.cpp:263-281 | from a null predecessor, after any notifications in any order it is the closest notifier behind the node, never the node; null if and only if nobody else notified |
| `Routing.TailStaysLone` | src/chord.cpp:39-113 | over every life of a node, a stabilization being completed with whatever successor it read earlier, successor entries 1 to 7 name the node itself |
| `Routing.AtMostOneReplica` | src/chord.cpp:616-630 | so the replicas are the first successor or nobody, for every replication factor |
| `Routing.FullListGivesFactor` | src/chord.cpp:616-630 | with enough other nodes in the list, a node and its replicas are exactly factor copies |
| `Routing.StartsOver` | src/chord.cpp:49-59 | after create, leave, or a join through nobody or itself, a node names nobody else, whatever it knew |
| `Routing.JoinerNamesContact` | src/chord.cpp:61-78 | after a join the contact is the first successor and every finger, and the predecessor is null |
| `Routing.FailedRefreshes` | src/chord.cpp:289-313 | any number of refreshes whose lookups fail move the counter and lose no finger |
| `Routing.FailureRedirects` | src/chord.cpp:632-662 | fingers to the failed node are aimed at the new first successor, all others and a live predecessor are kept |
| `Routing.FailureForgetsIff` | src/chord.cpp:632-662 | handling a failure leaves no entry naming the failed node if and only if it was listed at most once |
| `Routing.FailureForgets` | src/chord.cpp:632-662 | which holds in every reachable state |
| `ChordNode.ChordNode.constructor` | src/chord.cpp:25-43 | a new node is alone, with nothing stored |
| `ChordNode.ChordNode.Create` | src/chord.cpp:49-59 | resets pointers to the single-node ring and nothing else |
| `ChordNode.ChordNode.Join` | src/chord.cpp:61-85 | takes the given node as first successor and all fingers, or creates |
| `ChordNode.ChordNode.ClosestPrecedingNode` | src/chord.cpp:209-223 | the downward loop returns the highest usable finger, or the node if there is none |
| `ChordNode.ChordNode.FindSuccessor` | src/chord.cpp:161-182 | the local decision of a lookup, for every remote reply including failure |
| `ChordNode.ChordNode.Stabilize` | src/chord.cpp:225-261 | the new successor for every reply, and whom it notifies |
| `ChordNode.ChordNode.Notify` | src/chord.cpp:263-287 | the new predecessor, and both stores after the transfer it triggers |
| `ChordNode.ChordNode.FixFingers` | src/chord.cpp:289-313 | advances the counter and stores what the lookup found, if anything |
| `ChordNode.ChordNode.HandleNodeFailure` | src/chord.cpp:632-666 | the nested shifting loops and the finger loop compute the repaired state |
| `ChordNode.ChordNode.RemoveSuccessor` | src/chord.cpp:637-649 | drops the first entry of the failed node and refills with the node itself, whatever the network does |
| `ChordNode.ChordNode.GetReplicaNodes` | src/chord.cpp:616-630 | the loop collects the named successors among the first factor - 1 |
| `ChordNode.ChordNode.TransferKeysTo` | src/chord.cpp:763-797 | in any order of keys, exactly the acknowledged offered keys are dropped and the delivered ones stored |
| `ChordNode.ChordNode.SendKeyTransfer` | src/chord.cpp:806-870 | one exchange under lost request, lost reply or acknowledgement |
| `ChordNode.ChordNode.Leave` | src/chord.cpp:87-113 | transfers to another successor, then resets to a single node |
| `KeyTransfer.TransferLosesNothing` | src/chord.cpp:783-796 | for every pattern of losses each pair the source held is afterwards at the source or the target; acknowledged keys are dropped at the source and no others; the target keeps its other keys, gets exactly what was delivered, and its own value under a delivered key is replaced |
| `KeyTransfer.NoPredecessorNoHandOff` | src/chord.cpp:777-781 | a node without predecessor hands over nothing, to anybody, over any links |
| `Replication.LeaversKeepTheirKeys` | src/chord.cpp:87-113 | so in the join forest a leaving node takes all its keys with it |
| `KeyTransfer.LeaveOffersSuccessorsKeys` | src/chord.cpp:772-781 | in a ring of three or more, the keys offered on leave are exactly those the successor owns in the remaining ring |
| `KeyTransfer.LeaveOffersOwnKeysIff` | src/chord.cpp:772-781 | all keys the leaving node is responsible for are offered if and only if predecessor and successor differ; with two nodes none is |
| `KeyTransfer.NotifyOffersOnlyExactHits` | src/chord.cpp:274-286 | after an accepted notification only keys hashing exactly to the notifier are offered |
| `KeyTransfer.NotifyStrands` | src/chord.cpp:274-286 | every other key the node gave up stays behind and does not reach the notifier |
| `KeyTransfer.AcceptedIsNew` | src/chord.cpp:283-286 | the guard before the transfer always holds after a change |
| `ClientRouting.OneRedirectSuffices` | src/client.cpp:231-262 | in a routable ring an operation sent to any node is handled by the owner with at most one redirect if and only if it went to the owner or the owner's address has no colon; nobody else ever handles it |
| `ClientRouting.DispatchToOwner` | src/chord_server.cpp:208-224 | the owner handles, every other node redirects to the owner |
| `ClientRouting.HandleKeyOperation` | src/chord_server.cpp:208-224 | the handler itself, for every result of the lookup: it handles the key if and only if it is responsible or the lookup names nobody or itself, else it redirects to the node named, as "host:port" |
| `ClientRouting.OperationAt` | src/chord_server.cpp:208-224 | with the lookups of a ring: handled at the owner, at every other node redirected to the owner |
| `ClientRouting.ClientOperation` | src/client.cpp:199-229 | whatever the servers answer: the operation counts as done only at the node asked or at the one node its redirect names, and only if that node handles it itself |
| `ClientRouting.PutReturnsIff` | src/replication.cpp:165-187 | in a ring with predecessors the owner's replicated PUT is redirected back for ever, and returns if and only if the factor asks for no replica, or the first copy fails because the owner's host has a colon |
| `NodeAddress.FormatRoundTrip` | src/chord.cpp:19-23 | parsing the text gives the endpoint back if and only if the host has no colon |
| `NodeAddress.FormatExample` | src/chord.cpp:19-23 | the text of 127.0.0.1 and port 8001 is "127.0.0.1:8001" |
| `NodeAddress.StoiReads` | src/client.cpp:211-214 | white space and a sign before a number and any text after it are accepted, values outside 32 bits refused |
| `NodeAddress.ParseWraps` | src/client.cpp:211-217 | the port is cut to 16 bits, a text without colon is refused |
| `ReplicationRuns.StoreIsReplay` | src/chord.cpp:315-444 | over any run of PUT, GET and DELETE at any nodes, every node, the root included, holds exactly the sequential map of the commands issued at it or below it |
| `ReplicationRuns.LossyRunIsReplay` | src/chord.cpp:315-444 | over any run, whichever requests, replies and existence checks are lost, all stores equal the replay that applies to each command its exact outcome |
| `ReplicationRuns.NothingInvented` | src/chord.cpp:315-427 | whatever is lost, a value held by a node was put under that key by a command issued at the node or below it |
| `ReplicationRuns.GetInventsNothing` | src/replication.cpp:110-133 | so a GET over any links returns nothing or a value that was put at or below a node of its path |
| `ReplicationRuns.GetAfterRun` | src/replication.cpp:110-133 | a GET returns the copy of the nearest node on its path to the root |
| `ReplicationRuns.StaleNeedsLocalCopy` | src/chord.cpp:358-373 | an answer that differs from the root's map needs a copy on the path below the root |
| `ReplicationRuns.FreshIff` | src/chord.cpp:358-373 | a GET returns what the last write in the tree left if and only if the first node below the root on the path whose own subtree was last written by a PUT, if any, was last written with that value |
| `ReplicationRuns.ReplayIsLastWrite` | src/chord.cpp:315-444 | what a node holds under a key is what the last PUT or DELETE of it at or below the node wrote |
| `ReplicationRuns.StaleReadsHappen` | src/chord.cpp:358-373 | at every node with a replica a stale read can be produced |
| `ReplicationRuns.ReadsOwnWrites` | src/chord.cpp:315-373 | a node reads its own write until the key is written again at it or below it |
| `Replication.PutOutcome` | src/chord.cpp:315-338 | for every path length and pattern of losses: nodes past a lost request unchanged, nodes with a clear way to the root hold the value, all others on the path dropped the key; success if and only if all links work |
| `Replication.DeleteOutcome` | src/chord.cpp:392-427 | with working links the key is left on no node of the path, and success means some node held it |
| `Replication.DeleteUnderLosses` | src/chord.cpp:392-427 | for every path length and every pattern of losses, in the requests and in the existence checks: a node of the path drops the key if and only if it and every node before it sees the key and no request before it was lost; nothing else changes; success if and only if the node asked sees the key |
| `Replication.GetUnderLosses` | src/replication.cpp:110-133 | over any links a GET returns the nearest copy if its links get that far, else nothing |
| `Replication.SuccessMeansCopies` | src/replication.cpp:35-68 | a replicated PUT that counts its required successes has put the value on each of the first factor - 1 replicas, or on all if there are fewer |
| `Replication.JoinsGrow` | src/chord.cpp:61-78 | every history of nodes creating a ring or joining through a node already started gives such a forest |
| `Replication.GrowsIff` | src/chord.cpp:61-78 | joins in whatever order the nodes start give such a forest if and only if no group of nodes joined only through one another |
| `Replication.ParentIsReplica` | src/chord.cpp:616-630 | in it everyone is responsible for every key and has at most one replica, of smaller rank |
| `Replication.Cluster.constructor` | src/chord.cpp:25-43 | all stores start empty |
| `Replication.Cluster.StoreKey` | src/chord.cpp:315-338 | store, replicate, roll back: computes `PutResult` and terminates along the path |
| `Replication.Cluster.ReplicatePut` | src/replication.cpp:35-68 | for any list of replicas of smaller rank: the sends of the counting loop, and success if and only if every required one succeeds |
| `Replication.Cluster.RetrieveKey` | src/chord.cpp:358-373 | local copy first, then the replica |
| `Replication.Cluster.GetFromReplicas` | src/replication.cpp:110-133 | for any such list: the answer of the first replica that has one, none if and only if none has |
| `Replication.Cluster.RemoveKey` | src/chord.cpp:392-427 | existence check with fallback, local removal, replicated removal whose failure is ignored |
| `Replication.Cluster.ReplicateDelete` | src/replication.cpp:85-108 | for any such list: the removals of the counting loop, and success if and only if every required one succeeds |
| `Replication.DeleteCopySucceedsIff` | src/replication.cpp:85-108 | a removal counts as success if and only if it is acknowledged and the replica sees the key; the key is then gone from the replica |
| `Replication.DeletedFromCopies` | src/replication.cpp:85-108 | when all counted removals succeed, none of the replicas asked holds the key |
| `Replication.Cluster.SendPut` | src/replication.cpp:165-187 | one replication request: an ordinary PUT at the replica unless lost, success only if acknowledged |
| `Replication.Cluster.SendDelete` | src/replication.cpp:165-187 | the same for DELETE |
| `ReplicationQueue.NothingLostNothingOverdone` | src/replication.cpp:220-262 | for every interleaving each accepted task is in exactly one of pending, in flight, succeeded, abandoned; at most max_retries + 1 attempts; abandoned only after that many |
| `ReplicationQueue.OutcomesAreEarned` | src/replication.cpp:245-256 | a task counts as succeeded only after an attempt that succeeded, and is given up only after one that failed with no retry left |
| `ReplicationQueue.QueueDrains` | src/replication.cpp:237-260 | without producers every run ends within the measure, and the worker is stuck if and only if the queue is drained |
| `ReplicationQueue.OrderedWithoutFailures` | src/replication.cpp:237-288 | if no attempt fails, the replicas hold the accepted tasks applied in order |
| `ReplicationQueue.RetriedDeleteOvertakes` | src/replication.cpp:247-252 | for every factor from 2 and at least one retry, a run in which every request and reply arrives and whose outcome differs from that order |
| `ReplicationQueue.AttemptOutcome` | src/replication.cpp:264-288 | over any links an attempt succeeds if and only if each of the first factor - 1 replicas has an address, acknowledges, and for a DELETE holds the key, not removed by an earlier request of the attempt; a lost reply is a failure |
| `ReplicationQueue.AttemptEffect` | src/replication.cpp:264-288 | succeed or not, it changes the key at the replicas a request reached and nothing else |
| `ReplicationQueue.AttemptSucceedsIff` | src/replication.cpp:264-288 | over working links an attempt succeeds if and only if every required replica has an address and, for a DELETE, holds the key and is listed once |
| `ReplicationQueue.NoFailureIff` | src/replication.cpp:237-288 | over working links no attempt of a run fails if and only if every task tried meets that condition after the tasks accepted before it |
| `ReplicationQueue.OrderedOverWorkingLinks` | src/replication.cpp:237-288 | for a drained queue that is a condition on the accepted tasks alone; under it the replicas hold their effects in the order of acceptance |
| `QueueOrder.OrderKeptIff` | src/replication.cpp:228-288 | for tasks that ask at most one replica, as every node's do: every drained run over working links that accepted exactly these tasks ends with them applied in the order of acceptance, if and only if there are no retries or no key that the ordered outcome holds is named by a DELETE that finds it absent in order |
| `QueueOrder.OrderKept` | src/replication.cpp:228-288 | the one half, over every interleaving of producers and worker |
| `QueueOrder.OrderLost` | src/replication.cpp:247-252 | the other half: the run that enqueues everything first loses such a key |
| `QueueOrder.LastHit` | src/replication.cpp:264-288 | in order, the last task sent to a replica about a key decides what it holds |
| `ReplicationQueue.ReplicationManager.constructor` | src/replication.cpp:9-14 | an empty queue with an idle worker |
| `ReplicationQueue.ReplicationManager.EnqueueReplicationTask` | src/replication.cpp:220-226 | appends to the queue |
| `ReplicationQueue.ReplicationManager.ProcessSingleTask` | src/replication.cpp:264-288 | the loop over the required replicas, null and port-0 entries skipped; true exactly under the condition of `AttemptOutcome` |
| `ReplicationQueue.ReplicationManager.ProcessFront` | src/replication.cpp:237-256 | one turn is exactly take, send and settle, with whatever producers enqueue while the lock is free |
| `ReplicationQueue.ReplicationManager.SettleTask` | src/replication.cpp:247-256 | done, retry at the back, or give up |
| `ReplicationQueue.ReplicationManager.ProcessReplicationQueue` | src/replication.cpp:228-262 | the inner loop, with tasks enqueued during any number of its turns, is a run of the state machine and ends with the queue drained |
| `FailureDetector.FailedIff` | src/replication.cpp:294-360 | for every steady-clock history: reported failed if and only if, since the record was last wiped, marked failed or at least threshold (and one) misses |
| `FailureDetector.SuspectedIff` | src/replication.cpp:313-372 | suspected if and only if, since the last wipe and before any mark, the misses reached half the threshold, rounded down, while still below it |
| `FailureDetector.DetectedInTime` | src/replication.cpp:396-409 | cleanups within the age limit of the last response cannot delay the report |
| `FailureDetector.NeverSeenReportedIff` | src/chord.cpp:541-559 | once the clock exceeds the limit, the ping-then-cleanup loop reports a node never seen if and only if a single round pings it threshold times, however many rounds went before |
| `FailureDetector.Detector.constructor` | src/replication.cpp:291-292 | nothing is known at the start |
| `FailureDetector.Detector.PingNode` | src/replication.cpp:294-320 | a ping updates the entry as specified; null is ignored |
| `FailureDetector.Detector.MarkNodeResponsive` | src/replication.cpp:322-335 | clears the entry |
| `FailureDetector.Detector.MarkNodeFailed` | src/replication.cpp:337-348 | marks the entry |
| `FailureDetector.Detector.IsNodeFailed` | src/replication.cpp:350-360 | null counts as failed |
| `FailureDetector.Detector.IsNodeSuspected` | src/replication.cpp:362-372 | null counts as suspected |
| `FailureDetector.Detector.CleanupOldEntries` | src/replication.cpp:396-409 | the erasing loop keeps exactly the entries seen recently enough |
| `Protocol.DecodeRequest` | src/protocol.cpp:39-75 | accepts exactly the byte strings that start with an encoding, and returns the request encoded there |
| `Protocol.DecodeResponse` | src/protocol.cpp:88-113 | the same for responses |
| `Protocol.EncodeRequest` | src/protocol.cpp:25-37 | the pushes build the specified bytes, lengths cast to 32 bits |
| `Protocol.EncodeResponse` | src/protocol.cpp:77-86 | the same for responses |
| `Protocol.ReadUint32` | src/protocol.cpp:13-23 | reads a word and advances, or fails when bytes are missing |
| `Protocol.WriteUint32` | src/protocol.cpp:6-11 | appends the four bytes, most significant first |
| `Protocol.WordRoundTrip` | src/protocol.cpp:6-23 | reading a written word gives it back |
| `Protocol.WordIsBigEndian` | src/protocol.cpp:6-11 | the four bytes of a word have its value, most significant first, as identifiers do |
| `Protocol.ReadWordIsValue` | src/protocol.cpp:13-23 | and four bytes are read as that value |
| `Protocol.EncodingLaysOut` | src/protocol.cpp:25-37 | where opcode, key length, key, value length and value lie, lengths modulo 2^32 |
| `Protocol.ResponseLaysOut` | src/protocol.cpp:77-86 | the same for status, length and value |
| `Protocol.RequestRoundTrip` | src/protocol.cpp:25-75 | decoding an encoding, whatever follows, gives the request if and only if both lengths are below 2^32 |
| `Protocol.ResponseRoundTrip` | src/protocol.cpp:77-113 | the same for responses |
| `Protocol.RequestUnique` | src/protocol.cpp:39-75 | at most one request is encoded at the start of a byte string |
| `Protocol.RequestsPrefixFree` | src/protocol.cpp:25-37 | an encoding that is a prefix of another one is the same |
| `Protocol.RequestPrefixFails` | src/protocol.cpp:39-75 | no proper prefix of an encoding decodes |
| `Protocol.ResponsePrefixFails` | src/protocol.cpp:88-113 | the same for responses |
| `Framing.HandleClient` | src/server.cpp:182-228 | for every chunking the loop hands on exactly the requests of the chunk-free cutting of the stream, and never sends the error response |
| `Framing.ReadRequest` | src/server.cpp:182-228 | one turn: the next frame, which decodes and re-encodes to itself, or the end |
| `Framing.ReceiveData` | src/server.cpp:142-155 | exactly the next bytes, however recv splits them |
| `Framing.CutOfStream` | src/server.cpp:182-228 | a concatenation of encoded requests is cut back into that list, and what follows as if it came first |
| `Framing.FramesAreEncodings` | src/server.cpp:214-222 | every frame of every stream is the encoding of a request, and the frames joined begin the stream |
| `Framing.ReceiveResponse` | src/client.cpp:169-196 | the client gets the response if and only if the stream starts with one, and consumes exactly that |
| `HashBytes.AddPowerOfTwo` | src/hash.cpp:172-198 | the carry loop computes (n + 2^p) mod 2^160 for 0 <= p < 160 and returns n otherwise |
| `HashBytes.CompareIsNumeric` | src/hash.cpp:147-169 | lexicographic byte order is numeric order |
| `HashBytes.InRangeBytesIsCyclic` | src/hash.cpp:200-212 | the byte-level interval test is the cyclic interval, except for equal end points |
| `HashBytes.Subtract` | src/hash.cpp:215-230 | the borrow loop is exact subtraction |
| `HashBytes.Distance` | src/hash.cpp:214-240 | both branches: exact difference, or `to` plus one |
| `HashBytes.DistanceIsClockwiseIff` | src/hash.cpp:231-239 | it is the clockwise distance if and only if nothing wraps or `from` is the last identifier |
| `HashBytes.AdvanceIsSum` | src/chord.cpp:479-484 | finger starts are these sums |
| `Identifiers.InRangeIsCyclic` | src/hash.cpp:200-212 | the numeric interval test in terms of clockwise distance |
| `Sha1.ProcessBlock` | src/hash.cpp:66-121 | the in-place rounds equal the compression function of section 6.1.2 of FIPS 180-4 |
| `Sha1.BuildSchedule` | src/hash.cpp:69-80 | the message schedule |
| `Sha1.OrForms` | src/hash.cpp:93-105 | the OR forms equal Ch and Maj of section 4.1.1 |
| `Sha1.PadMessage` | src/hash.cpp:30-47 | the padding loops build the padded message |
| `Sha1.PadIsMinimal` | src/hash.cpp:34-37 | block-aligned, with as few zeros as possible |
| `Sha1.PadInjective` | src/hash.cpp:30-47 | padding is injective on all messages, the 64-bit length field notwithstanding |
| `Sha1.Hash` | src/hash.cpp:20-64 | the whole computation equals the specified hash for any number of blocks |
| `Sha1.BigEndianIsValue` | src/hash.cpp:44-47 | the length field has the value of the length, most significant byte first |
| `Sha1Example.HashOfAbc` | src/hash.cpp:20-121 | the specified hash of "abc" is the one FIPS 180 gives, followed through all schedule words and rounds |
| `Sha1Example.ChainGrows` | src/hash.cpp:50-53 | further blocks are chained on the value after the ones before |
| `Sha1Example.WordBytesInverse` | src/hash.cpp:55-63 | for every word: its digest bytes, read as a block word, are the word |

## Left out

- Sockets, time-outs, poll, connect and socket options: a request is acknowledged, lost, or its reply is lost; recv returns an arbitrary non-empty chunk.
- Threads, sleeps, condition variables and the thread pool; a shutdown flag that flips during a call is the same as a lost message.
- Deadlock on `routing_mutex`: the state change is modelled, the lock is not.
- `find_predecessor`: it needs remote replies that no handler gives.
- Re-replication and replica repair after a failure: their sends are empty in the source.
- Joins, leaves and failures during lookups; leaves and failures during stabilization.
- Concurrent operations in the runs of module ReplicationRuns: commands follow one another.
- ReplicatePut: does not model null replicas and replicas with port 0; skipping one is the same as losing the request to it.
- ReplicateDelete: the same.
- GetFromReplicas: the same.
- The timestamps kept per replicated key, and the asynchronous branch of a replicated write, which only enqueues a task.
- QueueOrder.OrderKeptIff: does not cover tasks that ask two or more replicas, which no node creates (`AtMostOneReplica`).
- TransferLosesNothing: does not model a PUT that reaches the source between the snapshot of the keys (src/chord.cpp:772) and the removal of its key (src/chord.cpp:791); its value is lost with the removal.
- Replicas of a replica in module ReplicationQueue: each is a plain store.
- PutReturnsIff: does not model time-outs, which end the wait in practice by failing the operation.
- HandleClient: stops where the 32-bit sum of key length and 4 wraps around; the source then reads out of bounds.
- SHA-1 messages of 2^64 bytes or more, and collision resistance.
- Hexadecimal text of hashes, logging, printing, command-line programs, admin shutdown: easy members only.
