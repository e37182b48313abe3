# DIYnamo: replication protocol, proved

DIYnamo is a Dynamo-style key-value store. Each key is replicated on the first n nodes of its ring order. A put writes
to all n in parallel, parks a hint on a further ring node for each that failed, and succeeds with w acknowledgements of
either kind. A get asks all n, needs r responses, returns the newest and repairs stale responders. A handoff task
delivers parked hints and refills nodes that come back with a new startup UUID.

The project models that protocol twice and proves both:

- **As a transition system** (`Cluster.dfy`): any number of nodes, keys, puts and gets; 19 kinds of step interleaved in
  any way; requests that are lost, delayed, repeated, or land after their sender gave up; nodes wiped at any time.
  `ClusterInvariants.dfy` holds what every step keeps, `ClusterTheorems.dfy`, `ReplicaHistory.dfy` and `HintSafety.dfy`
  the guarantees over all runs. `Provenance.dfy` tells everything in a reachable state from the steps of the run and the
  ring order alone, in both directions; `Moves.dfy` says what can happen next from any state, and what it brings about. `QuorumExact.dfy` proves that the quorum condition is exact, `Witnesses.dfy` that the
  conditions on hints are needed, and `Ties.dfy` that data agreement needs timestamps that determine values, by runs
  built with `Runs.dfy`.
- **As the imperative code that implements it**: the local store (`RocksDbStore.dfy`), the hint store over one flat
  ordered database (`HintStore.dfy`, `ByteOrder.dfy`), the coordinator's put and get (`Coordinator.dfy`, `HintLoop.dfy`),
  the handoff event loop (`EventLoop.dfy`), hint delivery and reconciliation (`Handoff.dfy`), and what the handoff tasks
  of all nodes together do for a wiped one (`Recovery.dfy`).

`Lww.dfy` is the last-write-wins merge that both use. The contracts of put, get, reconciliation, hint delivery and the
event loop tell the outcome from the ring order or the events, from how each request ends and from what each store held
before, beside or instead of naming the functions that their loops are proved with.
`HintPhase.dfy` proves that the protocol's hint steps place the
same hints as the coordinator's cursor loop; gets share one winner selection and one repair rule; pushes share one
designated-sender rule.

## What the guarantees rest on

- A versioned write (`put_if_newer`) is one atomic step. The code checks and then writes without a transaction and says
  so (src/store/rocksdb_store.rs:45-47). `TornWrites.dfy` models the two halves apart: a key's timestamp then drops if and
  only if a newer version lands between some writer's check and its write, and `TornWrites.OlderWritesLast` is such a run.
- The ring gives every key each roster node once, in an order that all nodes share, and the roster has at least n
  members. `ValidConfig` and `ValidRing` say this.
- Timestamps are arbitrary. Nothing is assumed about clocks. Equal timestamps with different data are possible (also
  admitted at ARCHITECTURE.md:141), so statements about data, as opposed to timestamps, name the hypothesis that
  timestamps determine values, or give the exact condition.
- Node ids have no slash. The transition system keeps hints by target and key, as `Hints.FlatRefinesMap` allows; a
  delivery for an id with a slash would send another target's hints under wrong keys, and no step of a run does that.
- A scan of a store reads a snapshot of it, as an iterator of the embedded database does.
- A wipe of a node removes its replica and, as with `--wipe-data` and unlike `clear_all`, possibly its parked hints.

## Where the code does not do what one might expect

- "No acknowledged hint is lost" is false. `store_hint` overwrites without looking at timestamps and a delivery deletes
  whatever is parked at its key by then. `Witnesses.HintOrderMatters` and `Witnesses.StoreDuringDeliveryMatters` are runs
  without any wipe in which a put that returned Ok is gone for good; `HintSafety.CoverKeptIff` names exactly the steps
  that lose a parked version, and `HintSafety.NoHintIsLost` is the guarantee where they are kept out.
- Replicas that hold different data at the same timestamp stay different: the merge keeps the first, a read returns the
  last, and repair ignores equal timestamps. `Ties.TiesStay` is a run in which two puts with one timestamp are acknowledged
  by all replicas and a full read with all its repairs leaves them divided; by `ClusterInvariants.EntryChangesIff` only a
  newer write or a wipe can change that. `Lww.OrderIndependent` and `Coordinator.RepairConvergesIffNoTie` give the exact
  conditions.
- Reconciliation never checks that the returning node is on a key's preference list, although the comment at
  src/store/rocksdb_store.rs:74-76 says that it does. `Handoff.OnlyOwnedKeysPushedIff` says when that makes no difference.
- Only `store_hint` refuses a target id with a slash; scans and deletes under such an id reach into another target's
  hints. `Hints.ScanExactIffNoSlash` and `Hints.DeleteExactIffNoSlash`. In a put, a failed node with such an id uses up
  every remaining candidate (`Coordinator.SlashUsesUpCandidates`), so that the cursor loop need not be optimal
  (`HintLoop.OptimalIffTargetIgnored`).
- ARCHITECTURE.md:68 and :102-103 describe a put that consults the online set and writes without versions. The code does
  neither, and hint values carry a timestamp (ARCHITECTURE.md:14 says raw bytes). The model follows the code.

## Model

| member | source | states |
|---|---|---|
| ClusterTheorems.QuorumVisibility | src/coordinator/mod.rs:133-153 | In every run: a get that starts after some moment, and whose responders are too many to miss all nodes that acknowledged a put before that moment and were not wiped since carrying it out, returns at least the put's timestamp, whatever writes, hints, repairs, pushes and wipes of other nodes come between |
| ClusterTheorems.ReadSeesQuorum | src/coordinator/mod.rs:105-153 | The quorum argument behind it, for any set of preferred nodes that hold a timestamp, however they came by it |
| ClusterTheorems.SloppyBecomesStrict | src/coordinator/mod.rs:234-290 | A put that returned Ok on any mix of acknowledgements and hints is visible to every later successful get once its hinted targets hold it or something newer, if w + r > n and no node that it counts is wiped after it has the write; earlier wipes and wipes of other nodes do no harm |
| HintSafety.DrainedPutIsVisible | src/coordinator/handoff.rs:134-164 | From the put to the read: the same once the put's hint slots are merely empty, if those slots saw only orderly steps; hint storage, delivery, deletion, wipes and quorum together |
| QuorumExact.QuorumConditionIsExact | src/coordinator/mod.rs:141-146 | For every configuration that can route a key: every put that returned Ok is visible to every later successful get, in all runs in which its hints were drained in order and no node that it counts was wiped, if and only if w + r > n; the only-if by a run of failed writes and refused hints built for any n, w and r |
| HintSafety.NoHintIsLost | src/coordinator/handoff.rs:134-164 | In a run whose steps are orderly for a slot, every version ever parked there is still parked, or superseded there, or covered at the target. Orderly steps include wipes of the target while the parked hint covers all that was parked and is not about to be deleted, and of the holder's hints while the target covers it all |
| HintSafety.OkPutIsDurable | src/coordinator/mod.rs:236-282 | Wherever a put returned Ok, its acknowledging nodes were not wiped since and its slots saw only orderly steps: each of at least w distinct nodes holds the write or something newer, or holds or has delivered a hint that covers it |
| HintSafety.CoverLostIff | src/store/hints.rs:66-71 | One step loses a parked version exactly if it overwrites the hint with an older one, deletes it or wipes it away while the target does not hold it |
| HintSafety.CoverKeptIff | src/coordinator/handoff.rs:155-163 | A parked version stays covered throughout a stretch of a run if and only if none of those steps occurs in it |
| HintSafety.SlotInvStep | src/coordinator/handoff.rs:155-163 | What every orderly step keeps: parked versions are covered, no delivery under way is older than the parked hint, carried-out writes stand |
| Witnesses.HintOrderMatters | src/store/hints.rs:66-71 | For any two timestamps, a run without wipes in which an older hint overwrites a newer one and an acknowledged put is lost to a read of all replicas, though w + r > n |
| Witnesses.StoreDuringDeliveryMatters | src/coordinator/handoff.rs:155-163 | The same loss with hints arriving in order, when a newer hint is stored between a delivery's snapshot and its delete |
| ClusterTheorems.PutAccounting | src/coordinator/mod.rs:197-290 | In every run: acknowledging nodes, hint holders and hinted targets are pairwise apart as they should be and at most n with panicked tasks; the result is Ok exactly if at least w distinct nodes count; a failed node stays unhinted only after every candidate was asked; each acknowledgement, of a write or of a hint, was earned by a request carried out, and an unwiped acknowledging node still covers the write |
| ClusterTheorems.GetAccounting | src/coordinator/mod.rs:132-153 | In every run: at most one response a preferred node, success exactly with r responses, and the value returned is the last of the newest responses |
| ClusterTheorems.SystemAgreement | src/coordinator/mod.rs:163-231 | In every reachable state each version anywhere (replica entry, hint, request in flight, snapshot, read, result) was written by a put of its key; where timestamps determine values, equal timestamps mean equal data in any two of these places |
| ClusterTheorems.RepairConvergence | src/coordinator/mod.rs:163-186 | After a get and the delivery of its repairs every responder covers the winner |
| ClusterTheorems.FullReadConverges | src/coordinator/mod.rs:149-186 | If all n responded and timestamps determine values, all n replicas then hold exactly the winner, if and only if no newer write has reached one of them |
| Ties.TiesStay | src/coordinator/mod.rs:168-172 | For every configuration with two preferred nodes and any two versions with one timestamp: a run in which both puts are acknowledged by both nodes and a full read with all repairs delivered leaves the replicas different |
| ClusterTheorems.MonotonicReads | src/coordinator/mod.rs:140-188 | Once a get's repairs are in, a later get never returns anything older, if their responders must overlap or 2r > n |
| ClusterTheorems.ReadsStand | src/coordinator/mod.rs:112-138 | What a get read at a node not wiped since it started is still covered there |
| ClusterTheorems.ServedStands | src/store/rocksdb_store.rs:57-69 | A versioned write carried out on a node never wiped is covered there for good |
| ClusterTheorems.EntryIsNewestWrite | src/store/rocksdb_store.rs:48-70 | In every run a replica entry is the newest of the writes carried out there since the node's last wipe, however they came, and absent exactly if there was none |
| ClusterTheorems.SameWritesSameEntry | src/store/rocksdb_store.rs:48-70 | Confluence over runs: two replicas, of one run or of two, to which the same versions were brought hold the same entry, where timestamps determine values, whatever the interleaving, repetition and route |
| ReplicaHistory.EntryIsFirstGreatest | src/store/rocksdb_store.rs:48-70 | In every run, ties included: a replica holds v if and only if v is the first carried out among the newest of the writes carried out there since the node's last wipe |
| ReplicaHistory.NewestHeldIffBrought | src/store/rocksdb_store.rs:48-70 | In every run where timestamps determine values: a replica, wiped before or not, holds the newest version ever put to a key if and only if that version was brought there since its last wipe |
| ReplicaHistory.PushRecovers | src/coordinator/handoff.rs:201-229 | In every run: the sender of a push was the first of the first n nodes of the ring order that was online and not the destination; carried out since the node's last wipe, the push leaves it with what the sender held then or something newer, and with exactly that while no newer version was put |
| Provenance.WritesExact | src/coordinator/mod.rs:168-231 | In every run the requests sent to replicas are exactly these: a put's to the first n nodes of the order, the repairs of a get with r responses to those that lack the last of the newest, the parked hint of a delivery to its target, and the pushes of designated senders |
| Provenance.OnlySenderPushes | src/coordinator/handoff.rs:201-229 | In every run: each push was sent at a step at which its sender held that version and was the first of the first n nodes of the key's ring order that was online and not the destination |
| Moves.WipedNodeIsRefilled | src/coordinator/handoff.rs:177-230 | Conversely, from any state in which the first eligible node of a key's ring order holds it: a run that wipes the returner, pushes the key and carries the push out, after which the returner holds that node's entry, and nothing else |
| Provenance.ServedExact | src/store/rocksdb_store.rs:48-70 | A request counts as carried out exactly if a step of the run did so |
| Provenance.StandingExact | src/store/rocksdb_store.rs:48-70 | A request counts as carried out since its node's last wipe exactly if a step did so and no later one wiped the node |
| Provenance.HintMsgsExact | src/coordinator/mod.rs:253-276 | In every run the hint requests are exactly those that a put sends to the node after its cursor, none of the first n, for its first failed node without a hint |
| Provenance.HintServedExact | src/store/hints.rs:52-72 | A hint request counts as carried out exactly if a step of the run did so |
| Provenance.ParkedWasStored | src/store/hints.rs:59-71 | A parked hint was asked for by a put, stored by a step of the run, and is for a node whose id has no slash |
| Provenance.SlotStep | src/store/hints.rs:66-104 | What each kind of step does to a slot; only these store, delete or wipe a hint, and no step changes another |
| Provenance.DeliveryEndsOnce | src/coordinator/handoff.rs:155-163 | A delivery deletes its hint or gives it up once |
| Provenance.TasksExact | src/coordinator/mod.rs:234-243 | The books of a put list exactly the ends of its write tasks that the run took |
| Provenance.PhasesAreApart | src/coordinator/mod.rs:234-262 | In every run a put moves its cursor or ends only when the write tasks of all of the first n nodes have ended |
| Provenance.SeenWasHeld | src/coordinator/mod.rs:105-131 | What a get has read at one of the first n nodes is what that node held when a step of the run read it |
| Provenance.AnswersExact | src/coordinator/mod.rs:132-138 | The responses of a get come from exactly the nodes whose answer has arrived |
| Moves.TaskEnds | src/coordinator/mod.rs:203-243 | A write task that has not ended can fail or panic whether its request was carried out or not, and be acknowledged once it was |
| Moves.CursorMoves | src/coordinator/mod.rs:253-262 | With all write tasks ended, the cursor can move on while failed nodes are without a hint and candidates are left, and waits for the node it passes unless that is one of the first n |
| Moves.HintTaskEnds | src/coordinator/mod.rs:264-276 | The node asked can refuse at any time and accept once the request was carried out |
| Moves.PutEnds | src/coordinator/mod.rs:282-290 | With every failed node hinted, or no candidate left, the put can end, and ends by its counts |
| Moves.RequestLands | src/store/rocksdb_store.rs:48-70 | A request, once sent, can be carried out at any later moment and again, and changes only its entry, and that only if it was missing or older |
| Moves.HintLands | src/store/hints.rs:52-72 | So can a hint request for an id without a slash, which replaces whatever is parked in its slot |
| Moves.HintIsDeleted | src/coordinator/handoff.rs:155-163 | A delivery can delete whatever is parked in its slot by then once its request was carried out |
| Moves.AnswerArrives | src/coordinator/mod.rs:132-138 | The answer of a node that was read can arrive once, and comes last in the responses |
| Moves.GetEnds | src/coordinator/mod.rs:140-147 | A get can end with whatever responses it has; fewer than r are a failure |
| ClusterInvariants.ReplicaMonotone | src/store/rocksdb_store.rs:57-69 | No step other than a wipe of the node lowers a replica's timestamp |
| ClusterInvariants.EntryChangesIff | src/store/rocksdb_store.rs:57-69 | A step changes an entry exactly if it carries out a strictly newer write to it or wipes its node |
| ClusterInvariants.SourcesInvStep | src/store/rocksdb_store.rs:48-70 | Every step keeps: each replica entry is one of the writes carried out there since its last wipe, and delivery requests belong to deliveries that have begun |
| ClusterInvariants.WritesInvStep | src/store/rocksdb_store.rs:48-70 | Every step keeps: a write carried out since the last wipe of its node is covered by what the node holds |
| ClusterInvariants.PutsInvStep | src/coordinator/mod.rs:197-290 | Every step keeps the books of every put, across both phases and any interleaving |
| ClusterInvariants.GetsInvStep | src/coordinator/mod.rs:105-188 | Every step keeps the books of every get, and a finished get has sent all its repairs |
| ClusterInvariants.AllGenuineStep | src/coordinator/mod.rs:163-231 | Every step keeps that all versions anywhere come from puts of their key |
| ClusterInvariants.RunKeepsInv | src/coordinator/mod.rs:101-292 | All of these hold in every state of every run |
| HintPhase.HintPhaseIsCursorLoop | src/coordinator/mod.rs:250-280 | The hint steps of the protocol, whatever the candidates answer, place exactly the hints of the cursor loop and leave the put ready to finish |
| HintPhase.FinishedHintsAreCursorLoop | src/coordinator/mod.rs:250-280 | In every run, under any interleaving: the hints of a finished put are exactly those of the cursor loop for the answers that the run gave |
| HintPhase.FinishedPutInClosedForm | src/coordinator/mod.rs:250-290 | In every run whose candidates answered as their own willingness says: the put hints min(failed, willing) nodes, the i-th failed on the i-th willing; it returned Ok if and only if these and the acknowledgements reach w; no other placement would have earned more |
| HintLoop.ClosedForm | src/coordinator/mod.rs:250-280 | Where these candidates answer the same for all of these targets, the i-th failed target is hinted on the i-th willing candidate, min(failed, willing) hints in all |
| HintLoop.GreedyIsOptimal | src/coordinator/mod.rs:245-280 | Under the same condition no other assignment of distinct failed targets to distinct candidates earns more acknowledgements |
| HintLoop.OptimalIffTargetIgnored | src/coordinator/mod.rs:245-280 | For all lists drawn from given target and candidate ids it is optimal if and only if acceptance among these ids depends on the candidate alone |
| HintLoop.AttemptsDistinct | src/coordinator/mod.rs:248-262 | Only candidates outside the preference list are asked, each at most once, and only for failed targets |
| HintLoop.AttemptsExact | src/coordinator/mod.rs:245-280 | Over candidates outside the preference list: the k-th attempt asks the k-th candidate for the target after those already accepted, and the loop stops exactly when all are hinted or no candidate is left |
| HintLoop.PlacementsInOrder | src/coordinator/mod.rs:253-276 | The i-th acknowledged hint is for the i-th failed target |
| Coordinator.ReplicatedStore.Put | src/coordinator/mod.rs:191-291 | Told from the ring order and the outcome of each request: who acknowledged and who failed, in the order in which the tasks ended; which nodes after the first n were asked to hold which hint, and who took it; the result by the number of these; nobody counts twice and at most n count; every entry of every replica and of every hint store afterwards, changed or not; where a candidate's answer does not depend on the target, the hints are min(failed, takers) |
| Coordinator.ReplicatedStore.WritePhase | src/coordinator/mod.rs:203-243 | Who acknowledged and who failed, and every entry of every replica after the parallel writes, panicked tasks included: only the key's, only where the write landed on a missing or older entry |
| Coordinator.ReplicatedStore.HintPhase | src/coordinator/mod.rs:245-280 | The nested loop sends exactly the attempts of its specification; afterwards each hint store holds the new version at the compound keys of the attempts that were carried out there, and at every other key what it held before |
| Coordinator.HintsAfterAt | src/store/hints.rs:52-72 | The same for any series of hint writes: exactly what is at each compound key afterwards |
| Coordinator.AttemptsAreWalk | src/coordinator/mod.rs:245-280 | The k-th node after the first n is asked to hold the hint of the failed node whose index is the number of earlier acceptances, until all failed nodes are hinted or the order ends |
| Coordinator.ReplicatedStore.PutCounts | src/coordinator/mod.rs:234-282 | Whom a put counts: the acknowledged and failed of the first n, each once and in order, the walk of its hints, all different and at most n |
| Coordinator.ReplicatedStore.FillSlot | src/coordinator/mod.rs:254-278 | One slot consumes candidates up to and including the first that accepts, or all of them |
| Coordinator.ReplicatedStore.SendHint | src/coordinator/mod.rs:264-273 | One hint request: what the candidate's store holds after it and what the coordinator learns |
| Coordinator.ReplicatedStore.PutAccounting | src/coordinator/mod.rs:234-282 | Acknowledged nodes are exactly the preferred ones whose task succeeded; with hint holders and with hinted targets they are all distinct; at most n |
| Coordinator.PutSucceedsIff | src/coordinator/mod.rs:282-290 | For slash-free preferred ids and candidates whose answers ignore the target, whichever preferred nodes failed: acknowledgements and hints reach w if and only if acknowledged + min(failed, willing) does, and no other placement of the hints earns more |
| Coordinator.TakersAreWilling | src/store/hints.rs:59-61 | There the store's refusal of ids with a slash plays no part: the candidates that take hints are the willing ones |
| Coordinator.SlashUsesUpCandidates | src/coordinator/mod.rs:254-278 | A failed node whose id has a slash uses up all candidates that are left: no hint is placed for it or for the failed nodes after it |
| Coordinator.HintIsKept | src/coordinator/mod.rs:264-276 | A hint stored for a put is still there when the put ends |
| Coordinator.JoinsSplit | src/coordinator/mod.rs:237-243 | Ended tasks split into acknowledged and failed nodes, each once and in the order in which they ended; panicked ones are in neither |
| Coordinator.ReplicatedStore.Get | src/coordinator/mod.rs:102-189 | Told from the ring order, from who answers in which order and from what the replicas hold: too few reached nodes are a failure with their number; otherwise v is returned if and only if a reached node holds it, none reached holds anything newer, and none that answers later anything as new; nothing if and only if no reached node holds the key; repaired are exactly the reached nodes with nothing or something older, each once and in order |
| Coordinator.ReplicatedStore.ReadPhase | src/coordinator/mod.rs:105-138 | The responses are those of the reachable nodes, in order of arrival, with what each holds |
| Coordinator.ReachedMembers | src/coordinator/mod.rs:134-138 | Reached nodes are exactly the reachable preferred ones, each once, in the order in which they answer |
| Coordinator.WinnerTold | src/coordinator/mod.rs:134-153 | From answers in any order to the value returned: the last of the newest versions that reached nodes hold |
| Coordinator.RepairsTold | src/coordinator/mod.rs:168-185 | Repaired are exactly the reached nodes that hold nothing or something older than the winner |
| Coordinator.WinnerIsLastGreatest | src/coordinator/mod.rs:149-153 | A read returns v if and only if v is the last response among those of greatest timestamp |
| Coordinator.WinnerAbsent | src/coordinator/mod.rs:149-153 | A read returns nothing if and only if every responder lacks the key |
| Coordinator.RepairsMembers | src/coordinator/mod.rs:168-185 | Repaired are exactly the responders that lack the key or hold an older version |
| Coordinator.RepairConvergesIffNoTie | src/coordinator/mod.rs:163-186 | Repair makes all responders equal to the winner if and only if none holds other data at the winner's timestamp |
| Lww.LastWriteWins | src/store/rocksdb_store.rs:48-70 | After any writes a key holds v if and only if v is the first-applied entry among those of greatest timestamp |
| Lww.OrderIndependent | src/store/rocksdb_store.rs:48-70 | Every order and repetition of the same writes ends in the same entry if and only if the entries of greatest timestamp are one value |
| Lww.Convergence | src/store/rocksdb_store.rs:48-70 | From any store, any two sequences of the same versioned writes leave the same store, where timestamps determine values |
| Lww.ApplyAllPerKey | src/store/rocksdb_store.rs:48-70 | Writes to different keys do not interact |
| LocalStore.RocksDbStore.PutIfNewer | src/store/rocksdb_store.rs:48-70 | Writes the key's entry exactly where it is missing or strictly older; every other entry stays |
| TornWrites.MonotoneIffNoneOvertaken | src/store/rocksdb_store.rs:45-69 | With check and write apart, over any run of any writers a key's timestamp never drops if and only if no newer version lands between a writer's check and its write |
| TornWrites.OlderWritesLast | src/store/rocksdb_store.rs:45-69 | For any two timestamps, a run in which the older version replaces the newer |
| TornWrites.UndisturbedIsMerge | src/store/rocksdb_store.rs:54-69 | Undisturbed, the two halves are the merge |
| LocalStore.RocksDbStore.Get | src/store/rocksdb_store.rs:111-128 | The entry, or nothing exactly where the key is absent |
| LocalStore.RocksDbStore.IterAll | src/store/rocksdb_store.rs:77-92 | Every key with its entry exactly once, in byte order |
| LocalStore.RocksDbStore.ClearAll | src/store/rocksdb_store.rs:95-107 | The loop of deletes leaves nothing |
| Hints.HintStore.StoreHint | src/store/hints.rs:52-72 | Refuses exactly the ids with a slash; otherwise the hint map gets this entry, whatever was there |
| Hints.HintStore.HintsForNode | src/store/hints.rs:75-95 | Seek and early exit yield each hint of the target exactly once, in key order, and nothing else |
| Hints.HintStore.DeleteHint | src/store/hints.rs:98-104 | The hint map loses exactly one entry: the one asked for, or under an id with a slash the one its compound key stands for |
| Hints.ScanIsComplete | src/store/hints.rs:79-88 | Everything with the prefix lies before the point where the scan stops |
| Hints.SplitHintKey | src/store/hints.rs:32-38 | Splitting a compound key gives back target and key, for arbitrary key bytes |
| Hints.HintKeyInjective | src/store/hints.rs:32-38 | Two slash-free hints share a compound key only if they are the same hint |
| Hints.ContentsOfStore | src/store/hints.rs:66-71 | Writing a compound key changes exactly one entry of the map that the flat database stands for |
| Hints.ContentsOfDelete | src/store/hints.rs:98-104 | Deleting a compound key removes exactly one entry of that map, under any id |
| Hints.FlatRefinesMap | src/store/hints.rs:25-104 | Over any sequence of stores and deletes, under any ids, the flat database stands for the map keyed by target and key |
| Hints.ScanExactIffNoSlash | src/store/hints.rs:59-95 | Scans for an id are right on all databases if and only if it has no slash |
| Hints.DeleteExactIffNoSlash | src/store/hints.rs:97-104 | Deletes for an id are right on all databases if and only if it has no slash |
| ByteOrder.PrefixRunIsContiguous | src/store/hints.rs:84-88 | In byte order the keys with a prefix form one run from the seek point |
| ByteOrder.LessIsLexicographic | src/store/hints.rs:79-92 | The key order of the database: the first byte in which two strings differ decides, and a proper prefix comes first |
| ByteOrder.LessUnderPrefix | src/store/hints.rs:79-92 | Below a common prefix compound keys are ordered as the original keys are |
| EventLoop.HandoffTask.Handle | src/coordinator/handoff.rs:66-125 | One turn of the loop changes its maps and the spawned tasks as specified |
| EventLoop.HandoffTask.Run | src/coordinator/handoff.rs:50-126 | The whole loop, over any event sequence and any moments at which tasks end, told from the events: which reconciliations are spawned for each node, for which nodes hints are delivered, and which reconciliations run at the end: those not superseded and not reported as over |
| EventLoop.RunningIffLatest | src/coordinator/handoff.rs:105-124 | After any events a reconciliation runs if and only if it is the latest spawned for its node and no turn has reported its end |
| EventLoop.EndedIffNamed | src/coordinator/handoff.rs:61-66 | A reconciliation counts as over exactly if some turn reported its end when it existed |
| EventLoop.NewsSpawns | src/coordinator/handoff.rs:104-121 | A valid event with a UUID other than the node's last spawns one reconciliation, which runs after the turn unless it ended in it, and aborts the running one of that node; any other event spawns and aborts none |
| EventLoop.LoopInvHolds | src/coordinator/handoff.rs:61-124 | After any events: a running reconciliation is in the map under its node, so at most one a node, and it is for the node's latest UUID |
| EventLoop.ActiveIsRunning | src/coordinator/handoff.rs:123-124 | After a valid event the map holds exactly the nodes with a running reconciliation |
| EventLoop.KnownIsLatest | src/coordinator/handoff.rs:104-121 | The remembered UUID is the latest valid one, across Leaves |
| EventLoop.OneSpawnPerRun | src/coordinator/handoff.rs:105-119 | The reconciliations spawned for a node are one for each maximal run of equal UUIDs it showed, in order |
| EventLoop.OneDeliveryPerEvent | src/coordinator/handoff.rs:89-98 | Each valid event spawns one hint delivery, for its node |
| EventLoop.AbortMeansRespawn | src/coordinator/handoff.rs:105-119 | A reconciliation is aborted only in the turn that spawns its successor for the same node and another UUID |
| EventLoop.AbortedIsSuperseded | src/coordinator/handoff.rs:105-119 | An aborted reconciliation, over or still on its way to its next await point, has a later one for the same node |
| EventLoop.OnlyAbortOrEndStops | src/coordinator/handoff.rs:105-119 | A reconciliation that was neither aborted nor over is still so after a turn exactly if it did not end and its node showed no new UUID |
| Handoff.DeliverHints | src/coordinator/handoff.rs:134-164 | Entry by entry: gone are exactly the acknowledged hints of the node, the target has exactly those that reached it where they were newer or the first, and a hint is gone only where the target covers it |
| Handoff.DeliverEach | src/coordinator/handoff.rs:155-163 | The delivery loop, hint by hint: the hint database and the target after any number of turns |
| Handoff.UndeliveredContents | src/coordinator/handoff.rs:155-163 | In terms of the hint map: other targets' hints are untouched |
| Handoff.ReconcileKeys | src/coordinator/handoff.rs:177-230 | Entry by entry, told from the ring order: the returning node has this node's entry exactly where this node is the first of the first n that is online and not the returner, its push was carried out, and the entry is newer or the first; also when a node sees itself return |
| Handoff.MergedInAnyOrder | src/coordinator/handoff.rs:201-229 | Merging a store's entries for some keys is receiving each as a versioned write, in any order and any number of times |
| Handoff.NewestOfArrived | src/store/rocksdb_store.rs:48-70 | Whatever arrives at a wiped node, in any order and number, each key ends with the newest of its versions |
| Handoff.DesignatedIsFirst | src/coordinator/handoff.rs:215-220 | The sender is the first preferred node that is online and not the returner; none exactly if there is no such node |
| Handoff.SenderIsDesignated | src/coordinator/handoff.rs:205-224 | The designated sender told from the ring order: there is an i < n with this node at i, online and not the returner, and every node before it offline or the returner |
| Types.ListsFollowRing | src/coordinator/mod.rs:191-201 | The preference list and the hint candidates of a key are its ring order, cut after n nodes |
| Handoff.OneSender | src/coordinator/handoff.rs:205-224 | With a common ring and online snapshot exactly one node pushes a key if the designated sender holds it, and nobody otherwise |
| Handoff.OnlyOwnedKeysPushedIff | src/coordinator/handoff.rs:201-229 | A node is pushed only keys it owns, on all stores and snapshots, if and only if it is on every preference list |
| Handoff.WipeRecovery | src/coordinator/handoff.rs:177-230 | A wiped node ends, key by key, with the newest of its sender's entry and its hints, in whatever order and number they arrive |
| Handoff.RecoveredEntry | src/coordinator/handoff.rs:177-230 | Without hints it ends with exactly the designated sender's entry |
| Recovery.RecoverNode | src/coordinator/handoff.rs:134-230 | From the stores to the outcome: the reconciliations and deliveries of all nodes, in any order, whatever requests are lost and whomever each node finds online, leave a wiped node, key by key, with the newest of the versions that arrive; of the hints exactly those acknowledged are gone. If no request is lost and all find the same nodes online, that is the newest of the designated sender's entry and the hints; without hints exactly the sender's entry, and the node's old entries where the others agreed with them |
| Recovery.HandleReturn | src/coordinator/handoff.rs:85-119 | One node's part: exactly those of its pushes and parked hints arrive, as versioned writes, whose requests are carried out |
| Handoff.RegainsOldEntries | src/coordinator/handoff.rs:177-230 | It regains exactly its old entries for the keys it owns if the preferred replicas agreed and another is online |
| Handoff.WritesDominate | src/store/rocksdb_store.rs:57-69 | Versioned writes leave every entry unchanged or strictly newer |
| Handoff.AbortThenRespawnIff | src/coordinator/handoff.rs:105-119 | A reconciliation cut short anywhere and run again in full, each over its own scan and its own snapshot of who is online, leaves the node as the full run alone, on all its states and cuts, if and only if the later scan dominates the first and its sender still pushes all that the first would |
| Handoff.LatePushesIff | src/coordinator/handoff.rs:105-119 | The same for every mix: pushes of the aborted task that land before, among or after those of its successor, in any order and number, leave the node as the full run alone, if and only if the same condition holds |
| Handoff.MixedKeyByKey | src/coordinator/handoff.rs:105-119 | And key by key without the second half of it: what the successor pushes ends as its run alone would leave it; any other key is as it was or has received the first scan's entry |
| Handoff.SameSnapshotCovered | src/coordinator/handoff.rs:215-220 | If both found the same nodes online, domination alone is the condition |
| Handoff.AbortIsHarmless | src/coordinator/handoff.rs:105-119 | So abort and respawn is harmless in every such mix under any versioned writes between the two scans: for all keys that the successor pushes, and for all keys if both found the same nodes online |

## Left out

- HTTP routes, client, JSON, timeouts: a request has one of three outcomes, acknowledged, failed but carried out, failed and lost; a read distinguishes an absent key from an unreachable node.
- The unversioned write route (src/server/mod.rs:133-147) and `RocksDbStore::put`: an overwrite regardless of timestamps that the coordinator never uses. It is not a step, and every guarantee excludes it.
- Database errors inside a store: a local failure is one of the request outcomes.
- The hash ring: an arbitrary function from keys to node orders; a lookup that fails is its None.
- Gossip: events, online snapshots and the moments at which tasks end are arbitrary inputs. The loop's exit when the ring cannot be built is not modelled.
- Serialization of stored values and hints: the identity.
- Clocks: a put's timestamp is an input.
- Configuration, command line, metadata encoding, live-set printer, test harness and plots.
- Coordinator.ReplicatedStore.Put: runs its requests one after the other and to their end; requests that land after the put returned, and interleaving with other operations, are in the transition system.
- Handoff.ReconcileKeys: the scan is one snapshot; writes that reach the scanned store later are not in it. Interleaved pushes of arbitrary entries are steps of the transition system.
- Recovery.RecoverNode: one task after the other, over stores that only the recovery changes; for tasks that interleave, and scans at different moments, Handoff.WipeRecovery and Handoff.NewestOfArrived allow any order of arrival and any snapshot for each sender.
- TornWrites.MonotoneIffNoneOvertaken: one key of one store; everything else takes a versioned write as one step.
