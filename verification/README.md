# Verified models of the Wayfinder mesh

Wayfinder is a mesh-networking stack: a routing engine, a provider that
certifies nodes, flash storage for a node's state, command-line tools, and
scripts and scenarios around them. This project models the parts of it whose
correctness depends on many steps together, and proves what they promise for all
inputs and over all runs. `dafny verify dfyconfig.toml` checks everything.

* **The hero mesh router** (`MeshGraph`, `MeshRoute`, `MeshRouter`, `MeshFailures`,
  `MeshBound`, `MeshCarry`, `MeshHero`).
  A shortest-path search on arrays is proved optimal and complete; a forwarder
  that searches again at every hop is proved safe over every interleaving with
  link failures, bounded in its hops by the failures it meets, and to deliver over
  exactly the shortest distance when links are left alone.
* **Greedy relay placement** (`Coverage`). Submodularity, the classical bound
  `1 - (1 - 1/k)^k`, the 63 percent the docstring claims, and the knee rule.
* **The certificate authority and enrollment** (`Identifiers`, `Credentials`,
  `Authority`, `AuthorityRuns`, `AuthorityGates`, `AuthorityStore`, `Enrollment`, `RequestRelay`,
  `FleetEnrollment`, `FleetRuns`). The provider's queue and log as a state machine; who can
  ever be certified, what a revocation ends and an approval starts; a client that
  may crash between any two writes; and a fleet script run again and again.
* **The routing engine** (`Seqno`, `SeqnoHealing`, `BroadcastDedup`, `BroadcastRuns`,
  `Multicast`, `MulticastRuns`, `Originators`, `OriginatorRuns`). Sequence numbers on a
  wrapping counter and the self-correction of a wrong mark, duplicate suppression,
  multicast forwarding and the driver's shared transmissions, which conserve
  destinations, and path selection.
* **Flash storage** (`FlashPage`, `CrcWords`, `FlashCrc`, `FlashStore`, `FlashErase`,
  `FlashRuns`). Two pages, a checksum and what it detects, and a generation counter;
  saves cut off in the erase and at any byte of the write, one after another.
* **Worklists and digests** (`CrateGraph`, `CrateClosure`, `LinkedCrates`,
  `InputStreams`, `Ordering`), **satellite wiring and walks** (`NextHopWalk`,
  `Constellation`), and three smaller tools (`Topology`, `Ping`, `StackBudget`).

Code that mutates is modelled by classes and methods with loops, each proved
against a function or predicate whose own properties are the lemmas.
Cryptography is a parameter: `Credentials.Scheme` holds functions for keys,
addresses and signatures, and `Sound` says only that sizes are right, a derived
address is a local unicast one, and a signature verifies under its signer's key.

Where the code and what is said of it differ, the model follows the code:

* `www/mesh.js:359-378`: a frame part of the way along a leg keeps its progress when
  a link elsewhere goes down, even where the next hop it is counted towards has
  changed. `MustCarryIff` and `MayCarryIff` say when, `HalfWayElsewhere` shows it.
* `libs/batman/src/lib.rs:101-165` says any wrong high-water is corrected within
  a bounded time. That is false of a sender faster than a window of frames per
  reset period (`TooFastNeverHeals`, `TwentyNineMilliseconds`); `SteadyHealsIff` is
  the exact line. A watch left open for half the stamp range suppresses again (`WatchTripsIff`).
* `libs/batman/src/engine.rs:1876-1892` says the destination list shrinks along
  any path; `PassedOnWhole` is when it does not, `PassedOnWholeOnce` an instance.
  Termination and at-most-once
  delivery hold all the same.
* `libs/batman/src/engine.rs:3382-3387` asserts that the selected next hop is a
  known path. A fifth, better neighbour breaks it (`FiveNeighbours`,
  `SelectedKnownIff`), and so does revoking the selected one (`RevokeIff`); the
  periodic purge restores it (`Purge`).
* `libs/wayfinder-storage/src/flash.rs:339-409`: the generation wraps, so after
  its limit saves are never seen (`SaveThenLoadIff`, `StuckAtLimit`); and it is
  not covered by the checksum (`CutEraseRevivesOlder`; `EraseHarmlessIff` and `AtomicIff`
  are the exact conditions), which a scrub before the save makes harmless
  (`ScrubbedSaveIsAtomic`).
* `libs/wayfinder-server/src/authority.rs:2649-2652` says a revocation outlives
  any certificate issued. With lifetimes chosen per approval it may not
  (`RevocationCoversIff`, `RevocationLapsesFirst`).
* `libs/wayfinder-server/src/authority.rs:2525-2544`: a denial does not keep an address
  out that has a live unrevoked certificate, or any under automatic approval: such a
  request is issued although its tombstone is in force (`DenialStands`,
  `DeniedYetIssued`).
* `scripts/topology.py:670-676` calls re-running idempotent. A member enrolled out of
  the queue after its address was revoked is pending again once the queue has let go
  (`EnrolledThenPending`, `EnrolledAgainIff`).

## Model

| member | source | states |
|---|---|---|
| `MeshGraph.PotentialBound` | www/mesh.js:74-105 | labels that no usable leg undercuts bound every walk from below: why a search that has relaxed every link has found shortest distances |
| `MeshGraph.ShortestTail` | www/mesh.js:187-194 | dropping the first node of a shortest path leaves a shortest path, so the second node of a route is a sound next hop |
| `MeshRoute.PickNearest` | www/mesh.js:81-86 | the unsettled reached node of least tentative distance, or -1 exactly when none is left |
| `MeshRoute.SettleKeeps` | www/mesh.js:81-86 | settling the nearest node keeps the search invariant: settled labels are final and rank below all others |
| `MeshRoute.ImproveKeeps` | www/mesh.js:88-97 | lowering a label through a usable link keeps the invariant and the links already relaxed |
| `MeshRoute.RelaxLinks` | www/mesh.js:88-97 | one pass over the links leaves none out of the settled node that could still improve a label, skipping down and excluded links |
| `MeshRoute.FinishedBounds` | www/mesh.js:74-98 | after the search no walk to any node is shorter than its label, and every reachable node is labelled |
| `MeshRoute.TraceBack` | www/mesh.js:100-105 | the prev chain is acyclic: it reads back a walk from the start to the destination that repeats no node and costs the label |
| `MeshRoute.Route` | www/mesh.js:74-105 | null exactly when the destination is unreachable over usable links; otherwise a shortest walk, with no node twice |
| `MeshHero.TwoFailuresSurvived` | www/mesh.js:43-63 | in the ten-node diagram the drone reaches the operator whichever two links are down |
| `MeshHero.OneFailureLeavesTwo` | www/mesh.js:43-63 | without any one link two routes with no link in common are left, as the comment on the link list promises |
| `MeshRouter.NeverStranded` | www/mesh.js:286-313 | under the invariant a next hop is missing only at the destination, so the give-up branches are dead |
| `MeshRouter.NextHopNearer` | www/mesh.js:187-194 | the next hop is one usable leg away and nearer to the destination by exactly that leg |
| `MeshRouter.MoveKeeps` | www/mesh.js:270-385 | every step, emission and link failure keeps the invariant: source and holder still reach the destination, the next hop is the one the current links give, at most two distinct links are down |
| `MeshRouter.EveryRunSafe` | www/mesh.js:270-385 | the invariant holds in every state of every interleaving of step, emit and dropLink |
| `MeshRouter.HopsConserveDistance` | www/mesh.js:286-313 | with links left alone, distance travelled plus distance remaining is constant, and each hop strictly lowers the remainder |
| `MeshRouter.HoldersDiffer` | www/mesh.js:286-313 | no node holds the frame twice although every holder searches afresh |
| `MeshRouter.Delivery` | www/mesh.js:286-313 | fewer hops than nodes; at the destination exactly when the hops add up to the starting distance; until then there is a next hop |
| `MeshRouter.Diagram.NextHop` | www/mesh.js:187-194 | none at the destination or when cut off, otherwise the second node of a shortest path |
| `MeshRouter.Diagram.Step` | www/mesh.js:270-323 | one animation frame: dwell, travel, or arrive and decide again; never gives up |
| `MeshRouter.Diagram.Emit` | www/mesh.js:325-334 | a new frame starts at the source with its next hop decided |
| `MeshRouter.Diagram.FindLink` | www/mesh.js:350-353 | the first link joining two nodes, or -1 exactly when there is none |
| `MeshRouter.Diagram.Candidates` | www/mesh.js:347-357 | exactly the links ahead that are up and whose loss leaves source and holder connected |
| `MeshRouter.Diagram.DropLink` | www/mesh.js:342-385 | takes down one such link, which joins the links down and heals the older of two, resets the leg in flight if it was that one, re-decides the next hop; changes nothing when no link can be spared |
| `MeshRouter.LossFails` | www/mesh.js:359-360 | the lost link is down after it; with fewer than two down before, it is added to them, and with two it takes the place of the older |
| `MeshFailures.DownAreLastTwo` | www/mesh.js:342-385 | at every moment of every run the links down are the two that failed last, or as many as there have been |
| `MeshFailures.DownForTwo` | www/mesh.js:342-385 | a link that fails stays down through exactly the next failure and is up again after the one following |
| `MeshRouter.Diagram.Deliver` | www/mesh.js:286-313 | left alone the frame is carried to the destination over distinct nodes, its legs summing to the starting distance |
| `MeshBound.HopsBounded` | www/mesh.js:270-385 | with f link failures between two emissions the frame takes at most (f + 1) * (n - 1) hops |
| `MeshCarry.MustCarryIff` | www/mesh.js:359-378 | losing a link carries the progress made on one leg over to another, whatever the search answers, exactly when the frame is under way on another link and no shortest path now starts with the hop it was heading for |
| `MeshCarry.MayCarryIff` | www/mesh.js:359-378 | where shortest paths tie it may, exactly when some shortest path starts otherwise |
| `MeshCarry.HalfWayElsewhere` | www/mesh.js:359-378 | a four-node instance in which nothing heals: half way to one hop becomes half way to another |
| `Coverage.GainShrinks` | sim/scenarios/coverage_per_relay.py:143-168 | a site adds no more late than early |
| `Coverage.RivalBound` | sim/scenarios/coverage_per_relay.py:143-168 | any rival layout covers at most what is covered plus, per rival site, the best gain now, although used sites are skipped |
| `Coverage.GapStep` | sim/scenarios/coverage_per_relay.py:143-168 | one greedy relay closes at least a k-th of the gap to any k-site layout |
| `Coverage.GapShrinks` | sim/scenarios/coverage_per_relay.py:143-168 | the gap to any k-site layout shrinks by the factor 1 - 1/k per relay |
| `Coverage.GreedyGuarantee` | sim/scenarios/coverage_per_relay.py:143-168 | k greedy relays cover at least 1 - (1 - 1/k)^k of what any k sites cover |
| `Coverage.UncoveredShare` | sim/scenarios/coverage_per_relay.py:146-149 | (1 - 1/k)^k is at most 0.37 for every k |
| `Coverage.SixtyThreePercent` | sim/scenarios/coverage_per_relay.py:146-149 | greedy covers at least 63 percent of any layout of as many sites, as the docstring claims |
| `Coverage.MarginalsFall` | sim/scenarios/coverage_per_relay.py:155-168 | coverage never falls, and each relay adds no more than the one before |
| `Coverage.CountGain` | sim/scenarios/coverage_per_relay.py:158-161 | the number of samples a row adds to those covered |
| `Coverage.PickSite` | sim/scenarios/coverage_per_relay.py:155-164 | the first unused site of greatest gain, zero gains included; -1 exactly when all are used |
| `Coverage.GreedyLayouts` | sim/scenarios/coverage_per_relay.py:143-168 | nested prefixes of one greedy order, each with the samples it covers; fewer than asked only when sites run out |
| `Coverage.Knee` | sim/scenarios/coverage_per_relay.py:286-291 | the first layout after which one more relay adds under KNEE_GAIN, else the last; an error on an empty list |
| `Coverage.KneeIsFinal` | sim/scenarios/coverage_per_relay.py:286-291 | on planned shares every relay after the knee adds less than KNEE_GAIN |
| `CrateGraph.SearchStep` | scripts/ci-input-hash.py:73-85 | taking a crate off the worklist and adding its dependencies keeps: all seen or waiting are reachable, and nothing reachable is lost |
| `CrateGraph.SearchDone` | scripts/ci-input-hash.py:73-86 | an empty worklist means the crates seen are exactly the reachable ones, whatever the order they were taken in |
| `CrateClosure.Walk.Load` | scripts/ci-input-hash.py:57-72 | takes in one whole workspace, keeping entries already held; fails exactly when there is no metadata |
| `CrateClosure.WorkspacesMatch` | scripts/ci-input-hash.py:57-86 | the workspaces loaded on demand are those of the crates found, and no others |
| `CrateClosure.Walk.CrateClosure` | scripts/ci-input-hash.py:57-86 | terminates on any finite, possibly cyclic graph with exactly the crates reachable through path dependencies and their workspaces; every error names a reachable directory that is not a package |
| `LinkedCrates.ReadLinks` | scripts/sim-inputs-hash.py:66-88 | exactly the directories a manifest leads to by path or by an inherited workspace entry |
| `LinkedCrates.LinksIff` | scripts/sim-inputs-hash.py:66-88 | a manifest links a directory exactly if an entry of its dependencies, its build dependencies or either table of a target names it |
| `LinkedCrates.Linked` | scripts/sim-inputs-hash.py:66-88 | exactly the crates reachable from the extension, or the reachable directory without a manifest that stopped it |
| `InputStreams.DecodeEncode` | scripts/sim-inputs-hash.py:112-116 | path, NUL and 32-byte hash per file can be read back: the byte stream is uniquely decodable |
| `InputStreams.StreamsDetermineFiles` | scripts/sim-inputs-hash.py:112-116 | two byte streams are equal if and only if the file lists are |
| `Ordering.SortedUnique` | scripts/sim-inputs-hash.py:113-113 | a sorted list depends only on what is in it |
| `InputStreams.OrderIrrelevant` | scripts/sim-inputs-hash.py:112-116 | so the digest stream depends on which paths there are and not on the order they were listed in |
| `InputStreams.Feed` | scripts/sim-inputs-hash.py:112-116 | the digest loop feeds exactly that encoding |
| `InputStreams.LinesDetermined` | scripts/ci-input-hash.py:118-122 | newline-separated lines determine the list they were made from |
| `NextHopWalk.LoopNeverArrives` | sim/scenarios/satellite_relay.py:352-379 | a walk that returns to a node before the destination never arrives |
| `NextHopWalk.StopNeverArrives` | sim/scenarios/satellite_relay.py:352-379 | a walk whose next hop runs out before the destination never arrives |
| `NextHopWalk.OtherEnd` | sim/scenarios/satellite_relay.py:370-376 | whichever end of a link is named first, the next hop is the other one |
| `NextHopWalk.FirstArrivalDistinct` | sim/scenarios/satellite_relay.py:352-379 | up to its first arrival a walk repeats no node |
| `NextHopWalk.RoutePath` | sim/scenarios/satellite_relay.py:352-379 | the whole path, without repeats, exactly when following next hops ever arrives; the bound of one iteration per node never cuts off a real path |
| `Constellation.IslPairs` | sim/scenarios/satellite_relay.py:259-274 | exactly the ring links of every plane and the rungs between neighbouring planes, no unordered pair twice |
| `Constellation.NoSelfLink` | sim/scenarios/satellite_relay.py:259-274 | no satellite is linked to itself |
| `Constellation.ShellConnected` | sim/scenarios/satellite_relay.py:259-274 | every satellite reaches every other over inter-satellite links |
| `Constellation.RingSurvives` | sim/scenarios/satellite_relay.py:259-274 | in a plane of three or more any two satellites still reach each other after losing any one ring link |
| `Constellation.AllLinks` | sim/scenarios/satellite_relay.py:329-341 | all links wired by the simulation: terminals to each other and to every satellite, satellites among themselves, none twice |
| `Constellation.SatelliteInterfaces` | sim/scenarios/satellite_relay.py:238-274 | no satellite has more than six links, within the limit of eight |
| `Constellation.TerminalInterfaces` | sim/scenarios/satellite_relay.py:225-257 | each terminal has exactly one link per satellite and one more, so it keeps within eight interfaces exactly in the accepted geometries |
| `Constellation.NamesDiffer` | sim/scenarios/satellite_relay.py:216-222 | accepted geometries give satellites distinct names |
| `Constellation.NamesCouldClash` | sim/scenarios/satellite_relay.py:216-222 | without the size limit two satellites could share a name |
| `Seqno.AdmitKeepsWatchJustified` | libs/batman/src/engine.rs:3369-3388 | a watch always holds a number that is implausible against the mark it is evidence against |
| `Seqno.ElapsedTrue` | libs/interfaces/src/time.rs:82-128 | elapsed time is exact under half the stamp range and reads zero for the half after that |
| `Seqno.CountedAll` | libs/batman/src/engine.rs:1703-1818 | a counter counts every event up to the end of its range and stays there |
| `SeqnoHealing.OnceAdmittedAlways` | libs/batman/src/lib.rs:452-506 | once one of an originator's consecutive frames is admitted, all later ones are |
| `SeqnoHealing.Heals` | libs/batman/src/lib.rs:138-165 | whatever mark and watch hold, a paced originator's own frames correct them, and from some bounded frame on every one is admitted |
| `SeqnoHealing.SteadyHeals` | libs/batman/src/lib.rs:138-165 | a steady sender slow enough for the window is heard again within two windows of frames, whatever mark and foreign watch are held, and then for good |
| `SeqnoHealing.TooFastNeverHeals` | libs/batman/src/lib.rs:138-165 | an originator that sends more than a window of frames per reset period against a poisoned mark is not heard once in up to 2^31 frames |
| `SeqnoHealing.SteadyHealsIff` | libs/batman/src/lib.rs:138-165 | a steady sender against a poisoned mark is heard again if and only if period times window is at least the reset protection |
| `SeqnoHealing.TwentyNineMilliseconds` | libs/batman/src/lib.rs:138-165 | an instance: against a mark forged far ahead, not one frame of a 29 ms broadcaster is admitted in most of a year |
| `SeqnoHealing.BroadcastPace` | libs/batman/src/lib.rs:121-207 | with the constants of the code that line is 30 ms for broadcasts and 118 ms for OGMs |
| `SeqnoHealing.WatchTripsIff` | libs/batman/src/lib.rs:452-506 | an open watch trips exactly while its age is between the reset protection and half the stamp range |
| `SeqnoHealing.MarkMovesForward` | libs/batman/src/lib.rs:452-506 | between resynchronisations the mark only moves forward, by at most a window per frame |
| `SeqnoHealing.AdmittedOnce` | libs/batman/src/lib.rs:452-506 | between resynchronisations no number is admitted twice until the counter has gone right round |
| `BroadcastDedup.Dedup.FindVictim` | libs/batman/src/engine.rs:1703-1818 | the entry whose mark has gone longest without being written |
| `BroadcastDedup.Dedup.HandleBroadcast` | libs/batman/src/engine.rs:1703-1818 | delivers exactly what is new to the table, with the whole new table and every counter, oversize re-floods included, within the capacity |
| `BroadcastDedup.NewByNumber` | libs/batman/src/engine.rs:1703-1818 | up to 1024 ahead of the mark is new, up to 64 behind is a copy that changes nothing, and anything else opens a watch that decides nothing for 30 seconds |
| `BroadcastRuns.FloodedOnce` | libs/batman/src/engine.rs:1703-1818 | over every run of receptions a number of an originator is delivered and flooded once, until the originator is evicted, its mark is corrected or its counter has gone right round |
| `BroadcastRuns.StampIsLastWrite` | libs/batman/src/engine.rs:1703-1818 | over every run an entry's stamp is the time of the last reception that wrote its mark |
| `BroadcastRuns.EvictsOldest` | libs/batman/src/engine.rs:1703-1818 | so an originator is evicted only for a new one in a full table, and only if no other's mark has gone longer without being written |
| `BroadcastRuns.NewcomerKept` | libs/batman/src/engine.rs:1703-1818 | every other originator gets its place, and below capacity nobody loses one |
| `Multicast.ResolveAccounts` | libs/batman/src/engine.rs:1893-2040 | the destinations named are exactly this node's own, the unroutable and the routed, counted with repeats |
| `Multicast.HandleMcast` | libs/batman/src/engine.rs:1876-2040 | delivers exactly when named; one group per next hop that can be emitted, holding every destination behind that hop; every destination accounted for; forwards nothing when over-long, signed or out of hops |
| `Multicast.PassedOnWhole` | libs/batman/src/engine.rs:1876-1892 | the list handed on is shorter unless this node is not named, routes every destination through one next hop and can emit that frame: exactly then it is passed on whole |
| `Multicast.PassedOnWholeOnce` | libs/batman/src/engine.rs:1876-1892 | an instance with two destinations behind one hop |
| `MulticastRuns.HopSpends` | libs/batman/src/engine.rs:1893-2040 | one hop never makes a destination and spends the one it delivers |
| `MulticastRuns.Gather` | libs/wayfinder-driver-core/src/lib.rs:721-820 | the groups one turn of the collapse puts on a shared transmission: all whose only destination is their next hop on that interface, when that is where the interface is first met, they reach its threshold and the transmission is taken |
| `MulticastRuns.Collapse` | libs/wayfinder-driver-core/src/lib.rs:721-850 | a group leaves on a shared transmission if and only if its next hop is its only destination and its interface has enough of those and takes them; each transmission is the whole of its interface, names no one twice and loses no one |
| `MulticastRuns.Flush` | libs/wayfinder-driver-core/src/lib.rs:698-885 | every destination of every group leaves in exactly one way, collapsed, in a directed frame of its own or dropped; directed are exactly the emitted groups that did not collapse, and nothing is dropped when every frame is taken |
| `MulticastRuns.ReachesAllIff` | libs/wayfinder-driver-core/src/lib.rs:692-695 | a transmission claims all its destinations if and only if the medium reaches every one: over-claiming loses the others |
| `MulticastRuns.OutNames` | libs/wayfinder-driver-core/src/lib.rs:698-885 | whatever the driver collapses and whoever hears it, what it sends claims no more than the groups it was given |
| `MulticastRuns.DeliveredAtMostAsNamed` | libs/batman/src/engine.rs:1876-2040 | over every run, any routes and any collapsing of groups onto shared transmissions, no node is delivered a frame more often than the sender named it |
| `MulticastRuns.RunsEnd` | libs/batman/src/engine.rs:1876-2040 | every run of receptions is finite, routing loops and shared transmissions included, within a bound known at the start |
| `Originators.LearnKeepsSane` | libs/batman/src/engine.rs:1213-1624 | absorbing an OGM keeps the path table bounded, its neighbours distinct and any open watch justified |
| `Originators.SelectedKnownIff` | libs/batman/src/engine.rs:3382-3387 | the selected next hop stays one of the known paths if and only if the OGM does not come from a better neighbour there is no room for |
| `Originators.FiveNeighbours` | libs/batman/src/engine.rs:1213-1624 | a run of ever better neighbours: the selection is a known path up to the fourth and is not from the fifth on |
| `Originators.RecomputeBest` | libs/batman/src/engine.rs:667-690 | the best selectable path, later ones winning ties, or nothing when none is selectable |
| `Originators.Purge` | libs/batman/src/engine.rs:621-639 | whatever the selection was, pruning aged paths and recomputing puts it back among the known paths |
| `Originators.Engine.PurgeStale` | libs/batman/src/engine.rs:621-641 | every record keeps exactly its live paths and selects among them, records without one go, and a loss is latched exactly when there was one |
| `Originators.RevokeIff` | libs/batman/src/engine.rs:1173-1188 | revoking a neighbour leaves the selection among known paths if and only if it was not the selected one |
| `Originators.NextHop` | libs/batman/src/engine.rs:140-154 | a live path of greatest effective quality, later ones winning ties; none exactly when no path is live; a neighbour that is heard from is never passed over for a silent one or a worse path |
| `Originators.HeldAtLeast` | libs/batman/src/engine.rs:600-609 | the blended interval is at least the first one decayed once per later gap |
| `Originators.BurstsKeepPath` | libs/batman/src/engine.rs:492-523 | bursts of eight OGMs per round, or nine where rounds are 600 ms apart, never make a path read as stale within a doubled round |
| `Originators.NineGapsLosePath` | libs/batman/src/engine.rs:492-523 | one more does, for every gap |
| `Originators.Absorb` | libs/batman/src/engine.rs:1213-1624 | the step-by-step update of a record is the function the properties are proved of |
| `Originators.Engine.MakeRoom` | libs/batman/src/engine.rs:1213-1624 | a new originator evicts the longest unheard record when the table is full, and only then |
| `Originators.Engine.HandleOgm` | libs/batman/src/engine.rs:1213-1624 | the whole new table and counters for own, echoed, known and unknown originators; an OGM is sent on exactly when its number is news and its TTL above one, with one hop less and the quality of one hop more; a latched topology change is taken back and restarts the timers |
| `OriginatorRuns.ChainEnds` | libs/batman/src/engine.rs:1540-1624 | along any chain of nodes, loops included, an OGM is sent on fewer times than its TTL, loses at least ten of its quality each time, and never claims more than the worst link behind it |
| `OriginatorRuns.SentOnOnce` | libs/batman/src/engine.rs:1213-1624 | over every run one node sends each number of an originator on once, until the record is dropped, its mark corrected or its counter has gone right round |
| `OriginatorRuns.EvictsLongestUnheard` | libs/batman/src/engine.rs:1213-1624 | a record is evicted only for an unknown originator in a full table, and only if none has gone unheard for longer |
| `OriginatorRuns.OwnRecordOnly` | libs/batman/src/engine.rs:1213-1624 | nothing but its own OGM changes a record, and no OGM is refused a place |
| `OriginatorRuns.PurgePrunes` | libs/batman/src/engine.rs:621-641 | the purge leaves the marks of the records it keeps alone |
| `Originators.LearnStores` | libs/batman/src/engine.rs:1213-1624 | an OGM up to 16 behind the mark changes nothing; any other leaves the path it came over with its number, time, quality and cadence, and every other path alone |
| `Originators.LearnSelects` | libs/batman/src/engine.rs:1213-1624 | a proven relay is selected if it was, if nothing was or if its path is better, an unproven one is deselected, and any other leaves the selection alone |
| `Originators.CadenceWithin` | libs/batman/src/engine.rs:600-609 | the blended interval is at least the last gap and at most the longest seen |
| `Originators.StaleIff` | libs/batman/src/engine.rs:492-523 | a path is dropped exactly after a silence of more than six of its intervals, or of the configured one while it has none |
| `FlashPage.LeRoundTrip` | libs/wayfinder-storage/src/flash.rs:189-252 | a header field reads back what was written |
| `FlashPage.PageLayout` | libs/wayfinder-storage/src/flash.rs:22-32 | magic, generation, length and checksum at their places, least significant byte first, then payload and blanks |
| `FlashPage.PageRoundTrip` | libs/wayfinder-storage/src/flash.rs:189-252 | a written page is valid and holds the generation and blob it was made of |
| `FlashPage.TornHeaderInvalid` | libs/wayfinder-storage/src/flash.rs:189-252 | a write cut off before the length has landed leaves an invalid page |
| `FlashPage.TornValidIff` | libs/wayfinder-storage/src/flash.rs:189-252 | a later cut is accepted exactly when the checksum of what is there coincides |
| `FlashStore.OtherPageHolds` | libs/wayfinder-storage/src/flash.rs:254-281 | whatever ends up on the page being written, the old blob is loaded exactly when that page is not valid or not newer |
| `FlashStore.SaveThenLoadIff` | libs/wayfinder-storage/src/flash.rs:318-409 | a load returns the last save if and only if the generation counter was below its limit |
| `FlashStore.StuckAtLimit` | libs/wayfinder-storage/src/flash.rs:339-409 | at the limit no number of saves changes what is loaded |
| `FlashStore.SaveIsAtomicIff` | libs/wayfinder-storage/src/flash.rs:339-409 | wherever the writing of an erased page is cut off, a load returns the old or the new blob unless a checksum coincidence makes torn bytes pass, and with the generation at its limit always the old |
| `FlashStore.CoincidenceIsCollision` | libs/wayfinder-storage/src/flash.rs:122-145 | once the checksum has landed such a coincidence needs two different payloads with one CRC |
| `FlashStore.CoincidenceInChecksum` | libs/wayfinder-storage/src/flash.rs:122-145 | for a cut inside the checksum it needs blanks whose CRC is the part that landed |
| `FlashCrc.FourBytesDetected` | libs/wayfinder-storage/src/flash.rs:122-145 | payloads of one length that differ only within four consecutive bytes have different checksums |
| `FlashCrc.OneByteDetected` | libs/wayfinder-storage/src/flash.rs:122-145 | so do payloads that differ in one byte |
| `FlashCrc.NearlyWhole` | libs/wayfinder-storage/src/flash.rs:339-409 | so a save cut off with at most its last four bytes missing is never a coincidence: a load returns the old or the new blob |
| `FlashCrc.KnownValue` | libs/wayfinder-storage/src/flash.rs:122-145 | the polynomial, start and end are those of CRC-32: the checksum of the letter a |
| `FlashStore.CutEraseRevivesOlder` | libs/wayfinder-storage/src/flash.rs:339-409 | the CRC does not cover the generation, so from any store with two valid copies an erase cut off part-way can bring the older blob back, unless page zero is newest with its generation at the limit |
| `FlashErase.EraseHarmlessIff` | libs/wayfinder-storage/src/flash.rs:339-409 | an erase cut off anywhere is harmless if and only if raising bits of the page cannot complete it to a third blob, or page zero is newest with its generation at the limit; a page that has lost its magic cannot be completed, one that holds a third blob can |
| `FlashErase.AtomicIff` | libs/wayfinder-storage/src/flash.rs:339-409 | a save is atomic, in its erase and at every byte of its write, exactly under that condition and none of its torn pages passing for a third blob |
| `FlashRuns.LoadsCandidate` | libs/wayfinder-storage/src/flash.rs:321-409 | after any run of saves, each complete or cut off at any byte of its write, short of the counter limit and a checksum coincidence, a load returns what the last save in full or one cut off after it was writing |
| `FlashRuns.CandidateNoOlder` | libs/wayfinder-storage/src/flash.rs:321-409 | each such blob was written by the save in full or a later one |
| `FlashRuns.NothingCompleteIsLost` | libs/wayfinder-storage/src/flash.rs:321-409 | so no sequence of power cuts brings back a blob older than a save written in full |
| `FlashRuns.CompletedIsInFull` | libs/wayfinder-storage/src/flash.rs:339-409 | a completed save is one of those written in full |
| `FlashErase.ScrubbedSaveIsAtomic` | libs/wayfinder-storage/src/flash.rs:339-419 | into a scrubbed store a save is atomic wherever it is cut off, in the erase or in the write, up to a checksum coincidence; a cut erase changes nothing |
| `FlashStore.StreamCrc` | libs/wayfinder-storage/src/flash.rs:122-145 | checksumming in bounded chunks equals checksumming the payload whole |
| `FlashStore.WholeWords` | libs/wayfinder-storage/src/flash.rs:339-409 | how much of a payload is whole write words, and that the padded last word still fits the page |
| `FlashStore.Program` | libs/wayfinder-storage/src/flash.rs:339-409 | erase, header, whole words, padded tail: a failing operation leaves a prefix of the page, success leaves all of it |
| `FlashStore.Store.ReadValidHeader` | libs/wayfinder-storage/src/flash.rs:189-252 | a header exactly for a valid page, with its generation and length |
| `FlashStore.Store.NewestValid` | libs/wayfinder-storage/src/flash.rs:254-281 | the valid page of greatest generation, page zero on a tie |
| `FlashStore.Store.Load` | libs/wayfinder-storage/src/flash.rs:321-337 | the newest blob, nothing, or the size needed when the buffer is too small |
| `FlashStore.Store.Save` | libs/wayfinder-storage/src/flash.rs:339-409 | too large changes nothing; success is the saved state; a flash failure is a save cut off at some byte |
| `FlashStore.Store.Scrub` | libs/wayfinder-storage/src/flash.rs:411-419 | keeps what a load returns, leaves the newest page as it is and blanks every other |
| `FlashStore.Store.Erase` | libs/wayfinder-storage/src/flash.rs:421-427 | blanks both pages |
| `Identifiers.ParseUndoesHex` | bins/wayfinder-ctl/src/lib.rs:755-771 | parsing undoes hex printing for every byte sequence |
| `Identifiers.ParseUndoesColons` | bins/wayfinder-ctl/src/lib.rs:755-771 | the colon-joined two-digit form parses to the same bytes, for every length |
| `Identifiers.TwoCharsExact` | bins/wayfinder-ctl/src/lib.rs:755-771 | two characters read as a byte exactly if they are its digits in either case, or a plus sign and its one digit |
| `Identifiers.BareIdIff` | bins/wayfinder-ctl/src/lib.rs:755-771 | without colons an identifier is read exactly pair by pair, and one of odd length is refused |
| `Identifiers.DurationExact` | bins/wayfinder-ctl/src/lib.rs:798-831 | any printed count with any unit parses to the exact product when it is positive and fits in 64 bits, and to the right error otherwise |
| `Identifiers.BareDurationExact` | bins/wayfinder-ctl/src/lib.rs:798-831 | the same for a count without a unit |
| `Identifiers.UnitLengths` | bins/wayfinder-ctl/src/lib.rs:798-831 | the six units: 1, 60, 3600, 86400, 604800 and 31536000 seconds |
| `Identifiers.OtherUnitRefused` | bins/wayfinder-ctl/src/lib.rs:798-831 | any other letter is an unknown unit |
| `Identifiers.PaddingIgnored` | bins/wayfinder-ctl/src/lib.rs:798-831 | white space around a duration is ignored |
| `Credentials.GenuineVerifies` | libs/wayfinder-auth/src/cert.rs:382-433 | an authority's own certificate for a derived address fails verification only when the verifier's clock, exact, lower bound or unknown, proves it outside its window |
| `Credentials.VerifiesIff` | libs/wayfinder-auth/src/cert.rs:382-433 | a node that knows the time admits a certificate if and only if version, mesh, signature, address and key binding are right and its window is open |
| `Credentials.ClockOnlyWindow` | libs/wayfinder-auth/src/cert.rs:382-433 | knowing less about the time changes the answer about the window alone |
| `Credentials.RequestForIff` | bins/wayfinder-ctl/src/csr.rs:290-384 | a request is built exactly for a node that is no provider and runs under the address its 32-byte key derives, and it names that node's own keys |
| `Credentials.RequestRefused` | bins/wayfinder-ctl/src/csr.rs:290-384 | each refusal exactly where it is the first reason that applies |
| `Credentials.ApproveMatchesIssue` | bins/wayfinder-ctl/src/cert.rs:285-331 | approving the request a node makes gives the same certificate or the same refusal as issuing from its seed |
| `Credentials.NamedMacOnlyChecks` | bins/wayfinder-ctl/src/cert.rs:301-318 | naming an address only ever turns the answer into a refusal, and never when it is the derived one |
| `Credentials.WrongMacRefused` | bins/wayfinder-ctl/src/cert.rs:301-318 | for every six-byte address: the derived one is accepted, any other is a mismatch, and a spelling of none is refused as such |
| `Credentials.IssueExact` | bins/wayfinder-ctl/src/cert.rs:285-331 | signing from a seed succeeds exactly with a non-empty window, at most one capability and a sound agreement key; every field of the certificate is then determined |
| `Credentials.NoSeedNoCert` | bins/wayfinder-ctl/src/cert.rs:285-331 | without both seed files nothing is signed |
| `Credentials.ApproveExact` | bins/wayfinder-ctl/src/cert.rs:416-475 | a request is signed exactly if besides that it has the right lengths and the address its key derives |
| `Credentials.Workbench.IssueCert` | bins/wayfinder-ctl/src/cert.rs:285-331 | a certificate written has the derived address, a non-empty window and never both capabilities; a refusal writes nothing |
| `Credentials.Workbench.ApproveRequest` | bins/wayfinder-ctl/src/cert.rs:416-475 | the same for a request file |
| `Credentials.Workbench.WriteRequest` | bins/wayfinder-ctl/src/csr.rs:152-168 | a request file is written only once every field has been accepted |
| `Authority.StepKeeps` | libs/wayfinder-server/src/authority.rs:2198-2544 | every request, renewal, approval, denial, revocation and eviction keeps the queue within 128 and all rows under the address their key derives |
| `Authority.EveryRunSound` | libs/wayfinder-server/src/authority.rs:2198-2544 | over every run each certificate handed out is this authority's own, a device's, for a well-formed key and its address |
| `AuthorityRuns.OnlyApproved` | libs/wayfinder-server/src/authority.rs:2198-2441 | without automatic approval no key is ever certified that an operator has not approved under that address |
| `AuthorityRuns.RevokedStaysOut` | libs/wayfinder-server/src/authority.rs:2639-2666 | after a revocation, until the next approval of that address and while approval is manual or the revoked row is live, whatever is handed out for it is a certificate the revocation names |
| `AuthorityRuns.ReadmittedIff` | libs/wayfinder-server/src/authority.rs:2366-2374 | a barred holder is signed for anew if and only if approval is automatic and its revoked row has lapsed |
| `AuthorityRuns.RevocationCoversIff` | libs/wayfinder-server/src/authority.rs:2649-2652 | a revocation is in force at every instant its certificate still verifies if and only if the default lifetime exceeds what remains of that certificate's and it ends before 64-bit time does |
| `AuthorityRuns.RevocationLapsesFirst` | libs/wayfinder-server/src/authority.rs:2649-2652 | an instance: approved for 120 s under a default of 60 s and revoked at once, the certificate verifies when the record has lapsed |
| `AuthorityRuns.RowRun` | libs/wayfinder-server/src/authority.rs:2326-2351 | while a row is live and no operator decides about it, nothing anyone asks changes its key or whether it is revoked |
| `AuthorityRuns.CertifiedRun` | libs/wayfinder-server/src/authority.rs:2333-2350 | renewals and re-submissions never change the lifetime a device was approved for, with a clock that holds |
| `AuthorityRuns.LifetimeKeptIff` | libs/wayfinder-server/src/authority.rs:2333-2350 | a renewal keeps the approved lifetime if and only if the clock was not set back behind the last signing where that lifetime passes the end of 64-bit time |
| `AuthorityRuns.ApprovalCollected` | libs/wayfinder-server/src/authority.rs:2457-2523 | after an approval the identical request collects, at any later time inside the window, a certificate of exactly the approved lifetime that verifies |
| `AuthorityRuns.RenewAgrees` | libs/wayfinder-server/src/authority.rs:841-927 | renewal succeeds exactly for the live unrevoked holder, agrees with submission there, and never queues |
| `AuthorityRuns.ReviewedIsSigned` | libs/wayfinder-server/src/authority.rs:2376-2401 | what an operator reviewed is what an approval signs: no submission replaces or displaces a waiting request |
| `AuthorityRuns.StaleMakesRoom` | libs/wayfinder-server/src/authority.rs:2216-2219 | a timed-out request frees its address: the next request for it is parked, even if the queue was full, if and only if its live row is its own and revoked, or it has none and approval is manual |
| `AuthorityRuns.DenialStands` | libs/wayfinder-server/src/authority.rs:2525-2544 | until its tombstone times out, whatever happens meanwhile, a denied address cannot be approved, and a presentable request for it is rejected if and only if its live row is revoked or another key's, or it has none and approval is manual; otherwise it is issued |
| `AuthorityRuns.DeniedYetIssued` | libs/wayfinder-server/src/authority.rs:579-613 | an instance: parked, signed for while approval was automatic, denied, and issued again under manual approval |
| `AuthorityGates.WrongTokenRejected` | libs/wayfinder-server/src/authority.rs:2227-2233 | with a token configured and another presented the reply is a rejection, the log stays as it was and the queue is only swept |
| `AuthorityGates.RightTokenIsNoToken` | libs/wayfinder-server/src/authority.rs:2227-2233 | with the right token, or none configured, reply, queue and log are those of an authority without one |
| `AuthorityGates.EveryoneShowedToken` | libs/wayfinder-server/src/authority.rs:2198-2441 | over every run under one token nobody is in the queue or the log whose key was not submitted with it |
| `AuthorityGates.ApprovalExact` | libs/wayfinder-server/src/authority.rs:2457-2523 | an approval succeeds exactly for a waiting request and a lifetime from one second to ten years, or more where that is allowed; it certifies that request's keys from now for exactly that lifetime, or the default, in log and queue |
| `AuthorityGates.DenialExact` | libs/wayfinder-server/src/authority.rs:2525-2544 | a denial succeeds exactly for a waiting request and leaves its keys denied from now, and everything else as it was but for timed-out requests |
| `AuthorityGates.RevocationExact` | libs/wayfinder-server/src/authority.rs:2639-2666 | a revocation needs a clock and an address, known or not; it signs a record from now for the default lifetime, marks that address's row if there is one, and changes nothing else |
| `AuthorityGates.ReapprovalEscapesIff` | libs/wayfinder-server/src/authority.rs:2639-2666 | a certificate approved after a revocation escapes its record exactly if the clock has moved on since, and one of another address always does |
| `AuthorityGates.DecisionKept` | libs/wayfinder-server/src/authority.rs:1885-1913 | an approval or a denial is kept for the whole pending lifetime from when it was taken, and no longer |
| `AuthorityGates.ParkedIffRoom` | libs/wayfinder-server/src/authority.rs:2376-2441 | a request the queue does not know and is to decide is parked, waiting from now, if and only if it holds fewer than 128 |
| `AuthorityGates.RenewableWhileValid` | libs/wayfinder-server/src/authority.rs:841-927 | the holder of an approved certificate can renew it exactly as long as it verifies |
| `AuthorityGates.ErrorsAre` | libs/wayfinder-server/src/authority.rs:2198-2260 | a submission or renewal is an error, and not an answer, exactly without a clock or with keys or addresses of the wrong length, a submission also with a degenerate agreement key |
| `AuthorityGates.OtherAddressRejected` | libs/wayfinder-server/src/authority.rs:2234-2256 | a key that does not derive the address is rejected by both and changes nothing |
| `AuthorityStore.Position` | libs/wayfinder-server/src/authority.rs:2379-2379 | a scan finds the row of an address exactly when there is one |
| `AuthorityStore.Retain` | libs/wayfinder-server/src/authority.rs:1895-1913 | exactly the requests that have not timed out |
| `AuthorityStore.CertAuthority.EvictExpired` | libs/wayfinder-server/src/authority.rs:1895-1913 | removes timed-out requests, and nothing while there is no clock |
| `AuthorityStore.CertAuthority.SubmitCsr` | libs/wayfinder-server/src/authority.rs:2198-2441 | the list scans and updates do what the authority model says of a submission, reply and new state |
| `AuthorityStore.CertAuthority.RenewHolder` | libs/wayfinder-server/src/authority.rs:841-927 | the same for a renewal |
| `AuthorityStore.CertAuthority.Approve` | libs/wayfinder-server/src/authority.rs:2457-2523 | the same for an approval: log and queue change together or not at all |
| `AuthorityStore.CertAuthority.Deny` | libs/wayfinder-server/src/authority.rs:2525-2544 | the same for a denial |
| `AuthorityStore.CertAuthority.RevokeNode` | libs/wayfinder-server/src/authority.rs:2639-2666 | the same for a revocation, with the record it signs |
| `AuthorityStore.CertAuthority.SetClock` | libs/wayfinder-server/src/authority.rs:621-628 | the clock reading every later act is judged by |
| `AuthorityStore.CertAuthority.TakeAll` | libs/wayfinder-server/src/authority.rs:2198-2666 | any sequence of requests, decisions and clock readings on the lists is the run the theorems are about |
| `Enrollment.IssuedForAsker` | libs/wayfinder-server/src/authority.rs:2198-2441 | what a submission is issued is for the keys it presented, with this authority's anchor |
| `Enrollment.MoveKeeps` | bins/wayfinder-ctl/src/auth.rs:198-269 | every step of an attempt, every crash and every act of the provider keeps the files consistent |
| `Enrollment.EveryRunConsistent` | bins/wayfinder-ctl/src/auth.rs:198-269 | over every run a seed once written never changes, every request is that seed's, and certificate and anchor on disk are the provider's for that seed |
| `Enrollment.SameRequest` | bins/wayfinder-ctl/src/auth.rs:198-269 | any two requests of a run differ at most in the token |
| `Enrollment.OnlyCollectedWritten` | bins/wayfinder-ctl/src/auth.rs:236-269 | certificate and anchor change only at a write taken with a collected reply, each to what was collected, and only an issued reply is collected |
| `Enrollment.UnwrittenStays` | bins/wayfinder-ctl/src/auth.rs:198-269 | so however attempts end, also between an issued reply and its write, they stay as they were |
| `Enrollment.RefusedWritesNothing` | bins/wayfinder-ctl/src/auth.rs:310-332 | pending and rejected attempts write nothing, over any run of them |
| `Enrollment.PairVerifies` | bins/wayfinder-ctl/src/auth.rs:198-269 | whenever both files exist they verify together throughout the certificate's window, whichever attempts wrote them |
| `Enrollment.AttemptWith` | bins/wayfinder-ctl/src/auth.rs:198-269 | an uninterrupted attempt with a usable seed: refused before asking on a wrong --mac, otherwise both files from one reply, or neither |
| `Enrollment.NamedAddress` | bins/wayfinder-ctl/src/auth.rs:229-241 | for every six-byte address spelled with colons: another than the seed's stops the attempt before it asks and changes nothing, its own changes nothing about the attempt; so does a spelling of no address stop it |
| `Enrollment.AttemptWithout` | bins/wayfinder-ctl/src/auth.rs:198-234 | with no seed file one is written first; a file that is no seed stops the attempt |
| `Enrollment.EnrollmentCompletes` | bins/wayfinder-ctl/src/auth.rs:310-332 | parked, reviewed, approved, collected: the next attempt leaves seed, certificate of the approved lifetime and anchor, which verify |
| `Enrollment.FreshNodeEnrolls` | bins/wayfinder-ctl/src/auth.rs:198-269 | a fresh node's first attempt is parked and writes nothing; after an approval its second completes |
| `Enrollment.Machine.Enroll` | bins/wayfinder-ctl/src/auth.rs:198-269 | the command run to its end is exactly that sequence of steps against the running authority; it complains of the address exactly when one is named that the seed does not derive or that is none |
| `RequestRelay.Courier.SubmitRequest` | bins/wayfinder-ctl/src/csr.rs:168-230 | an issued reply writes certificate and anchor for the keys in the request file; pending, refused or failed writes nothing, and each is told apart |
| `RequestRelay.InstallableIff` | bins/wayfinder-ctl/src/cert.rs:637-657 | what a submission wrote passes the pair check before installation if and only if the two files were different ones |
| `RequestRelay.OtherMeshIff` | bins/wayfinder-ctl/src/cert.rs:637-657 | the pair check refuses a certificate of another mesh exactly where a node under that anchor would |
| `FleetEnrollment.EnrollMembers` | scripts/topology.py:647-731 | the loop is the fold of turns, and reports success exactly when no member stopped it |
| `FleetEnrollment.CompletedMerges` | scripts/topology.py:683-731 | a completed run puts every member, in order, on the enrolled or the pending list |
| `FleetEnrollment.ExactlyOne` | scripts/topology.py:683-731 | with distinct names each member is on exactly one of the two |
| `FleetEnrollment.TurnLists` | scripts/topology.py:687-731 | a turn puts the name on the enrolled list exactly when the provider issued, on the pending list exactly when it parked, and otherwise stops the run with both lists as they were |
| `FleetEnrollment.TurnInstallsOwn` | scripts/topology.py:687-731 | a turn installs at most the provider's certificate for that member's own seed, and touches no other node |
| `FleetEnrollment.InstallsOwn` | scripts/topology.py:687-731 | over a whole run only what the provider issued for a member's own seed is installed on it, and nothing else changes |
| `FleetRuns.EnrolledIffIssued` | scripts/topology.py:687-731 | in a completed run a member is enrolled exactly when the provider issued to it at its turn |
| `FleetRuns.AllApprovedAllEnrolled` | scripts/topology.py:670-676 | approvals given before a run survive the other members' turns and whatever happens between them: if each certificate lasts until its own member's turn the run enrolls all members in order |
| `FleetRuns.ScriptIsRun` | scripts/topology.py:647-731 | to the provider a run of the script is a sequence of submissions among whatever else it does |
| `FleetRuns.EnrolledAgainIff` | scripts/topology.py:670-676 | a member enrolled in one completed run, its row live and undecided since, is enrolled in the next if and only if that row was not left revoked or the queue still holds its approved certificate |
| `FleetRuns.EnrolledNeverShrinks` | scripts/topology.py:670-676 | so the enrolled of one run are among the enrolled of the next while their certificates survive |
| `FleetRuns.EnrolledThenPending` | scripts/topology.py:670-676 | without that: enrolled out of the queue after a revocation, and pending in the next run when only time has passed |
| `FleetRuns.ReachesLeftBehind` | libs/wayfinder-server/src/authority.rs:2457-2523 | the state that starts from is reached by a submission, an approval and a revocation |
| `Topology.DedupLinks` | scripts/topology.py:824-834 | an error exactly when some link has fewer than two distinct members; otherwise the deduplicated list |
| `Topology.DedupKeys` | scripts/topology.py:824-834 | deduplication loses no member set |
| `Topology.DedupKeysDiffer` | scripts/topology.py:824-834 | no two kept links have the same members |
| `Topology.DedupKeepsFirst` | scripts/topology.py:824-834 | what is kept is exactly the first link of each member set |
| `Topology.DedupIdempotent` | scripts/topology.py:824-834 | deduplicating twice changes nothing more |
| `Topology.NameGivesMembers` | scripts/topology.py:819-821 | with no underscore in node names a network's name determines its members |
| `Topology.NamesDiffer` | scripts/topology.py:819-834 | kept links then get pairwise different network names |
| `Topology.UnderscoreClash` | scripts/topology.py:819-821 | with an underscore in a name two links may share a network |
| `Topology.AdjacentIffShared` | scripts/topology.py:908-912 | two nodes are joined by a link exactly when their attached lists share a network |
| `Topology.Adjacency` | scripts/topology.py:1322-1329 | the neighbour sets are exactly the nodes some link joins |
| `Ping.PrintProbes` | bins/wayfinder-ctl/src/ping.rs:139-153 | one poll prints each newly settled probe once and no pending one |
| `Ping.SeenSettledIff` | bins/wayfinder-ctl/src/ping.rs:139-153 | a probe counts as seen settled exactly if some poll reported it so |
| `Ping.BudgetIs` | bins/wayfinder-ctl/src/ping.rs:82-98 | the budget is every probe with its interval and timeout and half a minute, capped at 64 bits; polls come at twice the cadence and 50 ms apart at least |
| `Ping.Follow` | bins/wayfinder-ctl/src/ping.rs:82-175 | polls bounded by budget over period; every probe seen settled printed exactly once; success only on an inactive session or an interrupt; each failure names its cause |
| `StackBudget.ParseFrames` | scripts/stack-budget.py:288-301 | each symbol once with the sum of every reservation under all its headings; totals add up to all matches; largest first |
| `StackBudget.BlockCounts` | scripts/stack-budget.py:288-301 | what is reserved under a heading is counted for its symbol, all of it and for no other |
| `StackBudget.UnknownCounts` | scripts/stack-budget.py:288-301 | what stands before any heading is counted as unknown |
| `StackBudget.ReservedConcat` | scripts/stack-budget.py:288-301 | the total of a listing is the sum of its parts' totals |
| `StackBudget.ReservedOne` | scripts/stack-budget.py:288-301 | and of a single line what it reserves |
| `StackBudget.RankedStable` | scripts/stack-budget.py:301-301 | frames of equal size keep the order they were found in |
| `StackBudget.CheckMap` | scripts/stack-budget.py:333-352 | accepts exactly when every region of the part is declared inside it and the stack top is in its RAM |
| `StackBudget.MapFitsIff` | scripts/stack-budget.py:333-352 | the map fits exactly if every region is declared with only addresses of the part, and the stack starts just past one of its RAM |
| `StackBudget.Gate` | scripts/stack-budget.py:304-383 | OK if and only if the map fits, some task poll reserves stack and all are within budget; the size printed is their true maximum |

## Left out

- Originator messages' authentication, Trickle timers, keep-alives and next-hop
  proofs of the routing engine: `proven` and `silent` are parameters.
- The provider's user accounts, invitations, sessions and VPN credentials, and
  its persistence: a failed write rolls back, which is a step that changes nothing.
- Signed revocations kept for re-flooding: only the record a revocation signs.
- Bytes of certificates, anchors and request files, TLS and the client
  transport: files hold decoded values, and a lost reply is a submission followed
  by a crash.
- File writes other than as single steps; two attempts at once on one seed path.
- The node's own checks when a certificate is installed, and the renewal address
  and clock that travel with it.
- `describe`, `show`, the keygen and anchor commands and printed text of the tools.
- Drawing, timers and status texts of the diagram: timers become steps that may
  happen at any time, and how far an animation frame advances is a parameter.
- Floating point: distances are exact positive reals, shares exact sample counts.
- Orbits, terrain, radio and the other simulation scenarios: physics and charts.
- Output of cargo, git, docker, objdump and regular expressions: inputs.
- CrateClosure.Walk.CrateClosure: returns sets, not sorted lists, and takes cargo's answers to be consistent with each other (a member of a workspace reports that workspace), because sorting adds nothing to which crates there are.
- AuthorityRuns.RevokedStaysOut: leaves out automatic approval once the revoked row has lapsed, where ReadmittedIff shows the holder is signed for anew; and assumes the clock had not read later than the revocation before it, because a certificate stamped from a clock since set back is not named by the record.
- AuthorityRuns.ApprovalCollected: assumes the clock has not been set back behind the last signing where a certificate's end saturates at the end of 64-bit time, because its lifetime then shrinks, as LifetimeKeptIff says.
- AuthorityRuns.CertifiedRun: makes the same assumption, for the same reason.
- Enrollment.EveryRunConsistent: takes the seed, certificate and anchor paths as three different files, because the command writes each where it is told and an output naming the seed file overwrites the seed.
- LinkedCrates.Linked: returns a set, not a list in path order.
- Originators.Engine.HandleOgm: has no malformed type-length-value tails and no reply buffer, so an OGM to re-flood is always written.
- FlashRuns.LoadsCandidate: has no erase cut off among its saves, because AtomicIff says when one is harmless and CutEraseRevivesOlder that it need not be.
- MulticastRuns.Collapse: which interface reaches a next hop, what a link carries at once and whether a frame is taken are parameters, because they are the router's and the link's.
- MeshCarry.MustCarryIff: is about every answer the search may give among equally short paths, because the model does not fix its choice between them.
- SeqnoHealing.Heals: is about one originator sending consecutive numbers with nobody else using its name, because a continuous forger can keep moving the mark.
- Topology.NameGivesMembers: is one-way, because node names with underscores may still happen not to clash.
- Identifiers.ParseUndoesHex: characters are ASCII, because slicing other strings by byte may stop the original.
- FleetEnrollment.EnrollMembers: a member's node answers for the identity of its seed, and installation of what the provider issued is accepted.
- Ping.Follow: a poll and its reply are one event, and time passes at least one period between polls.
