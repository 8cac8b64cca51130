# Verified models of the PI platform's algorithmic cores

A Dafny model of the parts of the platform whose behaviour has an exact mathematical meaning, with proofs of what they
guarantee: the console's composition check, topology and blast-radius metrics, drift propagation, the breadth-first
blast-radius animation, the schemaless protobuf probe, the audit log and its backwards reader, three hash-chained
ledgers, the human-approval handshake, the rate limiter and the risk gate. `dafny verify dfyconfig.toml` checks
everything.

| file | models |
|---|---|
| `Graphs.dfy` | walks, cycles, reachability and distances, the common yardstick of the graph analyses |
| `Composition.dfy` | `CoreAdapter.simulate`: endpoint check, cycle search, depth walk, verdict |
| `Topology.dfy` | `TopologyGraph` and `BlastRadiusEngine.compute_score` |
| `Drift.dfy` | `DriftPropagationEngine.simulate` |
| `HopReveal.dfy` | the queue search in `render_blast_radius_propagation` |
| `ProtobufProbe.dfy` | `PayloadNormalizer._probe_protobuf_wire` and a wire-format encoder to judge it by |
| `Splitting.dfy`, `AuditStore.dfy` | `ConsoleAuditStore` |
| `Hashing.dfy`, `ReplayLedger.dfy`, `ExecutionEngine.dfy` | `ReplayLedger` and `ExecutionEngine` |
| `WalLedger.dfy` | `WALLedger.log_event` under concurrent callers, as a state machine |
| `Provenance.dfy` | `ExtensionProvenanceLedger` with reload from disk |
| `Approval.dfy` | `dispatch_human_approval` / `receive_human_review`, as a state machine |
| `RateLimiter.dfy` | `_RateLimiter` |
| `RiskGate.dfy` | cosine similarity, drift, entropy, `RiskEngine.compute` and the gate bands |

How the source is represented:

- Dictionaries are maps, lists are sequences, and objects that are updated in place are classes. Where the source
  iterates over a dictionary or a set, the model takes the elements in an arbitrary order.
- SHA-256 is any function from strings to 64-character strings, passed as a parameter. Collision freedom is never
  assumed: tamper evidence reads "equal contents, or here are two texts with the same hash". Canonical JSON is a function
  that determines the object it was made from.
- The clock, the file system, the SQLite table and the JSON codec are parameters, maps or sequences. A JSON line codec is
  assumed to do what RFC 8259 gives: escaped control characters, braces at both ends, and parsing back.
- Scores, times and similarities are real numbers; `math.sqrt` is any function with the defining property of a square
  root, and `round` to two decimals is modelled with ties to even.
- Bit operations of the probe are integer arithmetic; `acc |= x << shift` is an addition because `acc < 2^shift` holds
  throughout, which the contract of `OrShifted` demands.

Points where the code does not do what a reader might expect, each stated by a member below:

- An unknown edge source never reaches the report of `simulate`: building the adjacency dictionary raises `KeyError` first
  (`Composition.Simulate`).
- The depth figure of `simulate` follows first successors only. It is the length of the longest path over the first-listed
  edge of every node, so a graph with longer paths can be accepted (`Composition.DepthFigureCanFallShort`); it is the
  longest path exactly when the first-listed edges alone contain one as long (`Composition.DepthFigureIsLongestIff`), and
  `max_depth` bounds exactly the paths of first-listed edges (`Composition.AcceptedIff`).
- A default-constructed `ReplayLedger` fails verification after one append; a ledger stays verifiable exactly when
  `last_sequence + 1 == first_sequence + len(events)` (`ReplayLedgers.AppendVerifiesIff`, `ReplayLedgers.DefaultLedgerFails`).
- A replay upper bound of 0 replays to the end; explicit bounds are honoured exactly when the upper one is not 0 or nothing
  lies at or above the lower one (`ReplayLedgers.ReplayHonoursBoundsIff`). A query limit below 1 still returns one record
  (`AuditStore.LimitBelowOne`).
- A closed ledger shares its event list with the handle it was opened with. Appends through that handle lengthen the
  completed ledger's list; it still verifies, and they show in a replay exactly when an explicit upper bound selects them
  (`ReplayLedgers.OutgrownReplay`, `ExecutionEngines.AppendAfterClose`).
- `log_event` reads the last hash and inserts in two steps, so overlapping calls can fork the chain or drop an event
  (`WalLedger.OverlapForksOrDrops`). The rows form one chain exactly when no call had rows added between its read and the
  insert of its row (`WalLedger.ChainIffNoneOvertaken`); an event is lost exactly when another call recorded the same
  payload on the same previous hash in between (`WalLedger.LostOnlyByOverlap`).
- Request type, risk score and status of an audit row are not covered by its trace hash (`WalLedger.LabelsAreNotProtected`).
- Receipt timestamps and durations are not covered by the receipt hash (`Provenance.MetadataIsNotProtected`), and a reload
  reproduces the list, and still verifies, exactly when ids are distinct and the list is ordered by timestamp, ties by
  file name (`Provenance.RunReloadsIff`, `Provenance.ReloadVerifiesIff`).
- The rate limiter reads the clock before it takes its lock, so readings can arrive out of order. The limit then holds in
  intervals shorter than the window by the largest delay and in no longer ones; only with `max_events = 1` does it hold for
  the whole window whatever the order (`RateLimiter.SafeIff`).
- A risk strictly between 70 and 71 would be forwarded without review; completion requests and the command analyser never
  produce one (`RiskGate.RequestBands`, `RiskGate.CommandBands`, `RiskGate.AnalyzeCommand`).
- An edge is marked as carrying drift by its downstream end alone (`Drift.Simulate`).

## Model

| member | source | states |
|---|---|---|
| Composition.CycleSearch.HasCycle | src/pi_console/services.py:456-466 | the recursive search over the shared `visited` and `rec_stack`: True only if the relation is cyclic; False leaves the path as it was and everything else visited closed under edges and free of cycles; terminates because unvisited vertices shrink |
| Composition.DetectCycle | src/pi_console/services.py:453-472 | reports a cycle if and only if the edge relation contains a directed cycle |
| Composition.BuildAdjacency | src/pi_console/services.py:450-452 | the adjacency lists are each node's targets in request order, or the first unknown source ends the call |
| Composition.AdjacencyRelation | src/pi_console/services.py:450-452 | with known sources, the adjacency dictionary represents exactly the request's edges |
| Composition.ValidateEndpoints | src/pi_console/services.py:440-447 | lists exactly the unknown edge ends, edge by edge, source before target |
| Composition.WalkDepth | src/pi_console/services.py:481-491 | the walk over first successors stops at a sink or a repeat and terminates on every graph |
| Composition.MaxWalkDepth | src/pi_console/services.py:480-491 | the depth figure is the largest of these walks over the listed nodes |
| Composition.DepthFigureMeaning | src/pi_console/services.py:480-491 | on every composition the figure is the length of a longest walk over first-listed edges whose vertices before the last are distinct |
| Composition.DepthFigureOverFirst | src/pi_console/services.py:480-491 | without a cycle it is the longest walk over first-listed edges |
| Composition.DepthFigureIsAttained | src/pi_console/services.py:480-491 | it is the length of a walk of the composition, so it never exceeds the longest one |
| Composition.DepthFigureIsLongestIff | src/pi_console/services.py:480-491 | on acyclic compositions it is the longest path if and only if some walk over first-listed edges is at least as long as every walk |
| Composition.DepthFigureIsLongest | src/pi_console/services.py:480-491 | in particular with at most one successor per node |
| Composition.AcceptedIff | src/pi_console/services.py:474-540 | accepted exactly when both ends of all edges are known, there is no cycle, the node count is at most `max_total_nodes` (64 if unset) and no walk over first-listed edges has more than `max_depth` (8 if unset) edges |
| Composition.DefaultBounds | src/pi_console/services.py:474-493 | empty bounds mean 64 nodes and depth 8; each key sets its own limit alone |
| Composition.DepthFigureCanFallShort | src/pi_console/services.py:480-493 | a branching graph with a path of two edges passes `max_depth = 1` |
| Composition.CheckBounds | src/pi_console/services.py:474-493 | lists exactly the violated bounds, against the defaults 64 and 8 when unset |
| Composition.Simulate | src/pi_console/services.py:435-540 | KeyError exactly for unknown sources; cycle error exactly for cyclic relations; `can_execute` exactly under the conditions of `AcceptedIff`; risk level and plan |
| Topology.ReachableNodes | src/pi_interoperability_layer/blast_radius.py:81-94 | the worklist returns exactly the nodes other than the start that a directed walk reaches, also on cyclic graphs |
| Topology.DepthFromAttained | src/pi_interoperability_layer/blast_radius.py:67-79 | `depth_from` is the length of a walk whose vertices before the last are distinct and unvisited |
| Topology.DepthFromBounds | src/pi_interoperability_layer/blast_radius.py:67-79 | no such walk is longer |
| Topology.DepthFromIsLongestPath | src/pi_interoperability_layer/blast_radius.py:67-79 | on acyclic graphs it is the longest path |
| Topology.DepthFromMonotone | src/pi_interoperability_layer/blast_radius.py:67-79 | more edges never make it smaller, although the recursion works on copied visited sets |
| Topology.FanoutMonotone | src/pi_interoperability_layer/blast_radius.py:63-65 | fanout and edge count grow with the edge multiset |
| Topology.FanoutCounts | src/pi_interoperability_layer/blast_radius.py:63-65 | fanout is the number of listed edges that leave the node |
| Topology.ComputeMetrics | src/pi_interoperability_layer/blast_radius.py:187-211 | maximal fanout and depth over the nodes, complexity, auth fields and side-effect-bound nodes of one graph |
| Topology.ComputeScore | src/pi_interoperability_layer/blast_radius.py:175-247 | every delta is the difference of the two graphs' metrics, the expansions count newly reachable nodes |
| Topology.ScoreMeaning | src/pi_interoperability_layer/blast_radius.py:175-247 | the score from the two graphs: differences of greatest fanout and depth, complexity as nodes plus edges plus both squares, auth fields, side-effect-bound nodes; the propagation depth is the modified graph's |
| Topology.ExpansionMeaning | src/pi_interoperability_layer/blast_radius.py:184-200 | both expansions count the nodes reachable in the modified graph alone |
| Topology.AuthCountIsSize | src/pi_interoperability_layer/blast_radius.py:202-205 | one for every auth field of every node |
| Topology.GrowthNeverNegative | src/pi_interoperability_layer/blast_radius.py:175-247 | if nodes and edges (with multiplicity) are only added, no delta is negative, the reachable set grows and the expansion is its growth |
| Topology.SameTopologyScoresZero | src/pi_interoperability_layer/blast_radius.py:175-247 | listings of the same topology in any edge order score zero against each other |
| Drift.MapDeltasToNodes | src/pi_interoperability_layer/drift_propagation.py:230-252 | each node gets, in report order, the deltas whose path names it or that are topology-wide |
| Drift.SectionPathHits | src/pi_interoperability_layer/drift_propagation.py:238-243 | a path `nodes.x`, `trust_zones.x` or `capabilities.x`, with or without more parts, books the delta on x alone |
| Drift.OtherPathHits | src/pi_interoperability_layer/drift_propagation.py:244-251 | any other path books it on all nodes if the delta is topology-wide, on none otherwise |
| Drift.DirectIdsMembers | src/pi_interoperability_layer/drift_propagation.py:236-252 | a node lists an id exactly when a delta with that id hits it |
| Drift.DirectIdsConcat | src/pi_interoperability_layer/drift_propagation.py:236-252 | in report order |
| Drift.DeltaRiskLevelIsFirst | src/pi_interoperability_layer/drift_propagation.py:254-258 | an id stands for the severity of the first delta that carries it, INFO if none does |
| Drift.RankLaws | src/pi_interoperability_layer/drift_propagation.py:261-262 | the severities in order, and ranks read back |
| Drift.MaxRiskLevel | src/pi_interoperability_layer/drift_propagation.py:260-263 | a worst element of the list |
| Drift.PlainDecay | src/pi_interoperability_layer/drift_propagation.py:275-287 | over a plain edge the level starts at the base and drops exactly one rank per step of depth, down to INFO |
| Drift.CarrierDecay | src/pi_interoperability_layer/drift_propagation.py:275-287 | an auth or state edge decays like a plain one at a depth lessened by its multiplier, with both flags by the sum |
| Drift.PropagationFrontier | src/pi_interoperability_layer/drift_propagation.py:289-306 | exactly the edges from nodes at risk before this depth to nodes not at risk, with the upstream deltas |
| Drift.ApplyFrontier | src/pi_interoperability_layer/drift_propagation.py:177-197 | merges all arrivals of one depth: union of deltas, worst level, the depth itself; direct nodes keep theirs |
| Drift.LayerStep | src/pi_interoperability_layer/drift_propagation.py:174-197 | one round carries the meaning of the annotations from distance k to distance k + 1 |
| Drift.Simulate | src/pi_interoperability_layer/drift_propagation.py:121-205 | at risk exactly within `max_propagation_depth` of a directly hit node; `propagation_depth` is the exact distance; deltas and level are those arriving over shortest walks; edges are marked by their downstream end; the total counts the nodes at risk |
| Drift.DirectRank | src/pi_interoperability_layer/drift_propagation.py:157-171 | a directly hit node has the worst severity that strikes it |
| Drift.ReachedRank | src/pi_interoperability_layer/drift_propagation.py:174-197 | a node reached at distance k has the greatest rank of severity minus (k minus relief of the last edge), kept between INFO and the severity, over all deltas that strike a node k - 1 steps before a last edge |
| Drift.CarriedFromSources | src/pi_interoperability_layer/drift_propagation.py:174-197 | what arrives over k steps is the direct deltas of the sources k steps upstream |
| Drift.PropagatedFromNearest | src/pi_interoperability_layer/drift_propagation.py:184-197 | a reached node lists exactly the direct deltas of its nearest sources |
| Drift.PropagatedRiskBounds | src/pi_interoperability_layer/drift_propagation.py:265-287 | its level lies between INFO and the worst severity it lists |
| Drift.EdgeOrderIrrelevant | src/pi_interoperability_layer/drift_propagation.py:121-197 | annotations depend on the edge list only as a set |
| Graphs.HopIsWalk | src/pi_interoperability_layer/drift_propagation.py:289-306 | the step count used for distances is the existence of a walk with that many edges |
| HopReveal.ExpandNode | src/pi_connector_fabric/hyperframes_infra.py:347-351 | the inner loop discovers the unvisited neighbours in list order |
| HopReveal.Reveal | src/pi_connector_fabric/hyperframes_infra.py:335-351 | visits exactly the nodes within `max_hops`, each with its exact distance; queue and hop lists agree with `visited` |
| HopReveal.HopListsAreLayers | src/pi_connector_fabric/hyperframes_infra.py:339-354 | each hop list holds exactly the nodes at that distance, without repeats |
| HopReveal.CumulativeReached | src/pi_connector_fabric/hyperframes_infra.py:353-359 | the displayed cumulative count is the size of the ball minus the origin, on the last frame the number of visited nodes minus one |
| ProtobufProbe.OrShifted | src/pi_agent_chain/payload_normalizer.py:376 | the accumulated bits stay below the next shift, which makes the bitwise or an addition |
| ProtobufProbe.ParseTag | src/pi_agent_chain/payload_normalizer.py:368-385 | the tag loop reads a varint of at most five bytes, in bounds, or reports that the bytes ran out |
| ProtobufProbe.SkipVarint | src/pi_agent_chain/payload_normalizer.py:397-400 | skips to just after the first byte without continuation bit |
| ProtobufProbe.SkipLengthDelimited | src/pi_agent_chain/payload_normalizer.py:403-413 | skips a length varint and as many bytes as it says |
| ProtobufProbe.Probe | src/pi_agent_chain/payload_normalizer.py:350-424 | the probe equals the specification scan on the first 4096 bytes, in bounds and terminating on arbitrary bytes |
| ProtobufProbe.EveryVarintIsEncoded | src/pi_agent_chain/payload_normalizer.py:371-382 | the encoder covers every varint, padded ones included: any bytes with continuation bits on all but the last encode a number |
| ProtobufProbe.ScanEncoded | src/pi_agent_chain/payload_normalizer.py:367-420 | on any prefix of an encoded message the scan returns exactly the tags that fit |
| ProtobufProbe.FitMeaning | src/pi_agent_chain/payload_normalizer.py:365-367 | a field counts exactly when its tag ends within the probed bytes |
| ProtobufProbe.ProbeInvertsEncode | src/pi_agent_chain/payload_normalizer.py:350-424 | every nonempty valid message, with varints in shortest or padded form, is recognised; all tags are counted up to 4096 bytes, those that fit beyond; the list is capped at 64, the count is not |
| ProtobufProbe.DamagedMessage | src/pi_agent_chain/payload_normalizer.py:387-417 | whole fields followed by a bad tag and any bytes are recovered; number 0 or above 2^29-1 ends the scan unlisted, wire types 3, 4, 6 and 7 are listed and end it |
| ProtobufProbe.FifthByteEndsTag | src/pi_agent_chain/payload_normalizer.py:373-383 | a tag ends with its fifth byte, whose continuation bit is ignored |
| ProtobufProbe.NotAMessage | src/pi_agent_chain/payload_normalizer.py:360-366 | fewer than two bytes, or no first field, give None |
| ProtobufProbe.ScanIsPlausible | src/pi_agent_chain/payload_normalizer.py:387-417 | on arbitrary bytes reported numbers are in 1..2^29-1 and only the last wire type can be unknown |
| Splitting.SplitInvertsJoin | src/pi_console/services.py:113 | splitting inverts joining parts without the separator |
| Splitting.SplitConcat | src/pi_console/services.py:112-113 | splitting a concatenation fuses the parts at the border |
| AuditStore.DrainTail | src/pi_console/services.py:119-143 | the lines held in `tail` yield exactly the records that parse and match, in order |
| AuditStore.IterMatching | src/pi_console/services.py:97-143 | for every file and every chunk size of at least 1 the reader yields the newline-split lines, reversed, parsed and filtered |
| AuditStore.StripMeans | src/pi_console/services.py:120 | stripping removes blanks from either end and nothing else |
| AuditStore.JunkIsSkipped | src/pi_console/services.py:119-126 | a blank or damaged line between records is passed over and costs no record |
| AuditStore.PaddedLine | src/pi_console/services.py:119-126 | blanks around a record do not matter |
| AuditStore.ReadBack | src/pi_console/services.py:74-77 | reading a log written by appends gives its matching records, newest first |
| AuditStore.SelectedMembers | src/pi_console/services.py:128-143 | which records are selected, condition by condition: empty filters do not count, time bounds are inclusive, records without a usable time pass |
| AuditStore.SelectedAll | src/pi_console/services.py:128-143 | without filters everything is selected, in order |
| AuditStore.TenantIds | src/pi_console/services.py:32-39 | safe ids are 1 to 64 safe characters, with or without one final newline |
| AuditStore.SafeChars | src/pi_console/services.py:32-39 | the 64 safe characters |
| AuditStore.ConsoleAuditStore.Append | src/pi_console/services.py:74-77 | adds one line to the tenant's file and leaves the others alone; unsafe tenant ids raise ValueError |
| AuditStore.ConsoleAuditStore.Query | src/pi_console/services.py:145-164 | after any run of appends, for every offset from 0 and limit from 1, the slice from offset to offset + limit of the tenant's matching records, newest first, cut off at their number |
| AuditStore.ConsoleAuditStore.Count | src/pi_console/services.py:166-176 | the number of the tenant's matching records |
| AuditStore.TakePage | src/pi_console/services.py:155-164 | the consuming loop computes the page; a negative offset skips nothing |
| AuditStore.PagesConcatenate | src/pi_console/services.py:155-164 | consecutive pages of any size concatenate to the whole listing |
| AuditStore.LimitBelowOne | src/pi_console/services.py:157-163 | a limit below 1 acts as 1, so it returns a record exactly when one lies at the offset |
| AuditStore.SelectedReverse | src/pi_console/services.py:87-92 | filtering commutes with reversal, so order is the only difference to the log |
| ReplayLedgers.AppendVerifiesIff | src/pi_interoperability_layer/execution.py:103-147 | appending keeps a verifying ledger verifying exactly when its counters are in step |
| ReplayLedgers.DefaultLedgerFails | src/pi_interoperability_layer/execution.py:94-127 | a default-constructed ledger fails after one append |
| ReplayLedgers.ReplayLedger.Append | src/pi_interoperability_layer/execution.py:103-132 | links, numbers and hashes the event, updates counters and ledger hash |
| ReplayLedgers.ReplayLedger.VerifyIntegrity | src/pi_interoperability_layer/execution.py:134-147 | True exactly when numbers run from `first_sequence`, links match and hashes recompute |
| ReplayLedgers.VerifiesMeans | src/pi_interoperability_layer/execution.py:134-147 | the same, event by event and field by field, with the hashed object spelled out |
| ReplayLedgers.ReplayLedger.Replay | src/pi_interoperability_layer/execution.py:149-157 | the events within the effective bounds, in order |
| ReplayLedgers.ReplaySlices | src/pi_interoperability_layer/execution.py:149-157 | positive bounds give contiguous slices and adjacent slices concatenate |
| ReplayLedgers.ReplayHonoursBoundsIff | src/pi_interoperability_layer/execution.py:155-157 | explicit bounds select the events they name if and only if the upper one is not 0, the ledger is empty or the lower one lies beyond its end; an upper bound of 0 replays to the end |
| ReplayLedgers.ReplayWhole | src/pi_interoperability_layer/execution.py:155-157 | without a lower bound, no upper bound or one of 0 replays everything |
| ReplayLedgers.OutgrownReplay | src/pi_interoperability_layer/execution.py:149-157 | over a list that has grown since closing, a replay differs exactly when its bounds select one of the later numbers; without bounds it never does |
| ReplayLedgers.TamperEvidence | src/pi_interoperability_layer/execution.py:61-77 | verifying ledgers with the same last hash start at the same number and have equal contents, or a collision is exhibited |
| ReplayLedgers.EditIsDetected | src/pi_interoperability_layer/execution.py:61-77 | changing content, number or link of an event while keeping its hash fails verification, or a collision is exhibited |
| ReplayLedgers.JoinedAt | src/pi_interoperability_layer/execution.py:129-132 | the ledger hash is taken of the event hashes in order |
| ReplayLedgers.LedgerHashPinsContents | src/pi_interoperability_layer/execution.py:129-132 | the ledger hash alone pins all contents, or a collision is exhibited |
| ExecutionEngines.StepGood | src/pi_interoperability_layer/execution.py:181-222 | every call keeps all ledgers verifying and within the event and ledger limits |
| ExecutionEngines.StepRefines | src/pi_interoperability_layer/execution.py:181-222 | every call does on the ledgers what it does on plain lists of contents |
| ExecutionEngines.RunRefines | src/pi_interoperability_layer/execution.py:171-222 | over every run all ledgers verify, respect the limits and hold exactly the emitted events in order |
| ExecutionEngines.SessionIsRecorded | src/pi_interoperability_layer/execution.py:181-222 | in any run, opening, emitting and closing leaves a completed ledger with the contents emitted up to the event limit, replaces an earlier one of that id and changes nothing else |
| ExecutionEngines.OpensFill | src/pi_interoperability_layer/execution.py:181-189 | opening distinct ledgers succeeds exactly up to the ledger limit |
| ExecutionEngines.RunNamed | src/pi_interoperability_layer/execution.py:206-207 | event ids name the ledger and count up from 1 |
| ExecutionEngines.OpenOnlyGrows | src/pi_interoperability_layer/execution.py:191-213 | an open ledger's events only grow at the end |
| ExecutionEngines.ExecutionEngine.OpenLedger | src/pi_interoperability_layer/execution.py:181-189 | opens a fresh ledger numbered from 1, or rejects a duplicate or one too many |
| ExecutionEngines.ExecutionEngine.EmitEvent | src/pi_interoperability_layer/execution.py:191-213 | appends to the open ledger, or rejects an unknown or full one |
| ExecutionEngines.ExecutionEngine.CloseLedger | src/pi_interoperability_layer/execution.py:215-222 | the completed ledger is a new object with the same field values over the same list object as the open one |
| ExecutionEngines.AppendAfterClose | src/pi_interoperability_layer/execution.py:103-132 | an append through the handle of a closed ledger reaches the list of the completed one and leaves the engine valid, so it still verifies and replays what was emitted |
| ExecutionEngines.ExecutionEngine.VerifyLedger | src/pi_interoperability_layer/execution.py:236-241 | True exactly for completed ledgers, whatever calls were made and however their lists have grown |
| ExecutionEngines.ExecutionEngine.ReplayCompleted | src/pi_interoperability_layer/execution.py:224-234 | replays a completed ledger; without bounds its contents are those emitted while it was open |
| WalLedger.StepKeepsInv | src/pi_agent_interceptor/proxy.py:315-348 | each step of a call keeps rows linked to genesis or earlier rows, hashes unique and returned hashes recorded |
| WalLedger.EveryRunKeepsInv | src/pi_agent_interceptor/proxy.py:315-348 | the same after every interleaving of calls |
| WalLedger.AcceptedSteps | src/pi_agent_interceptor/proxy.py:323-348 | from the steps alone: a caller reads once, then inserts once |
| WalLedger.CallEffect | src/pi_agent_interceptor/proxy.py:323-348 | a call returns the hash of the last hash it read followed by its payload, and adds a row of just these and its labels unless that hash is recorded |
| WalLedger.ChainMeans | src/pi_agent_interceptor/proxy.py:315-348 | a chain row by row: the first points at sixty-four zeros, each other one at its predecessor |
| WalLedger.RowsOnlyGrow | src/pi_agent_interceptor/proxy.py:295-311 | the table is append-only |
| WalLedger.ChainIffNoneOvertaken | src/pi_agent_interceptor/proxy.py:323-348 | after every interleaving the rows form a single chain if and only if no call had rows added between its read and the insert of its own row, or a text hashing to the genesis string is named |
| WalLedger.EventLostIff | src/pi_agent_interceptor/proxy.py:335-348 | an insert adds no row if a row with the same previous hash and payload exists, and only then unless a collision is named; labels do not matter |
| WalLedger.LostOnlyByOverlap | src/pi_agent_interceptor/proxy.py:323-348 | in every run a call's event is lost exactly when such a row was added between its read and its insert, or a collision or a preimage of the genesis string is named |
| WalLedger.LabelsAreNotProtected | src/pi_agent_interceptor/proxy.py:327-342 | rewriting request types, risk scores and statuses leaves all hashes and the chain intact |
| WalLedger.ChainPinsPayloads | src/pi_agent_interceptor/proxy.py:323-331 | two chains with the same last hash record the same payloads, or a collision or a preimage of the genesis string is exhibited |
| WalLedger.SequentialIsChain | src/pi_agent_interceptor/proxy.py:323-348 | calls that do not overlap form a single chain |
| WalLedger.OverlapForksOrDrops | src/pi_agent_interceptor/proxy.py:335-348 | a schedule of two calls that forks the chain, or with equal payloads records one event for two, whatever their labels |
| Provenance.ProvenanceLedger.AppendReceipt | src/pi_extension_governor/provenance.py:58-67 | links and hashes the receipt, keeps a verifying chain verifying, writes the file |
| Provenance.ProvenanceLedger.VerifyChain | src/pi_extension_governor/provenance.py:69-77 | True exactly for a chain, which `ChainMeans` spells out |
| Provenance.ChainMeans | src/pi_extension_governor/provenance.py:69-77 | each receipt points at its predecessor's hash, the first at nothing, and carries the hash of its id, details and link |
| Provenance.EditIsDetected | src/pi_extension_governor/provenance.py:34-77 | changing the id or details of a receipt while keeping its hash breaks the chain, or a collision is exhibited |
| Provenance.ReadDirectory | src/pi_extension_governor/provenance.py:82-88 | every stored receipt once, by timestamp, ties by file name |
| Provenance.ProvenanceLedger.LoadAll | src/pi_extension_governor/provenance.py:82-88 | gives back everything appended exactly for distinct ids in that order |
| Provenance.ReloadIff | src/pi_extension_governor/provenance.py:58-88 | the same for any list of receipts written to the directory |
| Provenance.RunReloadsIff | src/pi_extension_governor/provenance.py:58-88 | from an empty ledger, in terms of the receipts passed in; the reloaded chain then verifies |
| Provenance.IncreasingReloads | src/pi_extension_governor/provenance.py:58-88 | distinct ids with strictly increasing timestamps reload exactly, and the chain verifies |
| Provenance.LoadedOrder | src/pi_extension_governor/provenance.py:82-88 | by timestamp, equal timestamps by file name |
| Provenance.LessMeans | src/pi_extension_governor/provenance.py:84 | file names are compared lexicographically |
| Provenance.LastWriteStays | src/pi_extension_governor/provenance.py:64-66 | the file of an id holds the last receipt written with it |
| Provenance.ReloadVerifiesIff | src/pi_extension_governor/provenance.py:58-88 | the reloaded chain verifies if and only if the receipts passed in have distinct ids in order, or a collision is exhibited |
| Provenance.RunVerifies | src/pi_extension_governor/provenance.py:58-77 | any run of appends verifies |
| Provenance.MetadataIsNotProtected | src/pi_extension_governor/provenance.py:34-47 | rewriting timestamps and durations is invisible to the chain check |
| Provenance.TamperEvidence | src/pi_extension_governor/provenance.py:34-77 | verifying chains with the same last hash agree in length and in id, details, link and hash of every receipt, or a collision is exhibited |
| Approval.EveryRunKeepsTask | src/pi_agent_interceptor/proxy.py:505-534 | after every interleaving the books of a task agree with its history |
| Approval.AcceptedSteps | src/pi_agent_interceptor/proxy.py:505-534 | which steps take effect, from the earlier steps alone; a review of either kind from registration to cleanup |
| Approval.ReviewIsReturned | src/pi_agent_interceptor/proxy.py:509-513 | from every run in which a task waits, a review makes its dispatcher return that verdict |
| Approval.LaterReviewOverrides | src/pi_agent_interceptor/proxy.py:792-802 | of two reviews before the waking the second counts |
| Approval.ReviewAfterWaking | src/pi_agent_interceptor/proxy.py:505-513 | so does one between the waking and the locked read |
| Approval.NoLeftovers | src/pi_agent_interceptor/proxy.py:531-534 | verdicts exist only for pending tasks; nothing of a finished task remains |
| Approval.TrueOnlyByReview | src/pi_agent_interceptor/proxy.py:509-513 | a dispatcher returns True exactly when it finished and the last review between its registration and its locked read approved that task |
| Approval.TimeoutDenies | src/pi_agent_interceptor/proxy.py:514-530 | after a timeout it returns False, whatever arrives before the cleanup |
| Approval.WokenHasVerdict | src/pi_agent_interceptor/proxy.py:792-802 | a woken dispatcher always finds a verdict, so the default of the read is never used |
| RateLimiter.Configure | src/pi_agent_interceptor/proxy.py:101-103 | at least one event and a positive window |
| RateLimiter.PopExpired | src/pi_agent_interceptor/proxy.py:112-114 | drops the leading entries older than the cutoff |
| RateLimiter.WithinIsSize | src/pi_agent_interceptor/proxy.py:112-115 | the counts are numbers of admissions in a closed interval |
| RateLimiter.EvictedCount | src/pi_agent_interceptor/proxy.py:112-115 | with readings at most d out of order, what is left after eviction lies between the admissions in the window shortened and lengthened by d |
| RateLimiter.AllowsIff | src/pi_agent_interceptor/proxy.py:112-118 | with readings in order a call is admitted exactly when fewer than `max_events` admissions lie in its window |
| RateLimiter.Limiter.Hit | src/pi_agent_interceptor/proxy.py:107-118 | for any clock reading, the deque decides as the run of calls in lock order says; when the key's readings are in order, it admits exactly when fewer than `max_events` of its admissions lie in the closed window before now |
| RateLimiter.SkewedWindow | src/pi_agent_interceptor/proxy.py:107-118 | with readings at most d out of order, no closed interval of length window - d holds more than `max_events` admissions |
| RateLimiter.SafeIff | src/pi_agent_interceptor/proxy.py:107-118 | the lengths of intervals in which the limit holds for all such runs: exactly up to window - d, or up to the window if `max_events` is 1 |
| RateLimiter.RunNeverExceedsWindow | src/pi_agent_interceptor/proxy.py:107-118 | over every run of calls, a key whose readings arrive in order stays within the limit in every closed interval of window length |
| RateLimiter.KeysAreIndependent | src/pi_agent_interceptor/proxy.py:107-118 | a key's deque and admissions depend on its own calls alone |
| RiskGate.NormIsUnit | src/pi_agent_interceptor/proxy.py:243-254 | a normalised vector has length at most one and no negative entry |
| RiskGate.CosineInUnitInterval | src/pi_agent_interceptor/proxy.py:257-263 | similarity lies in [0, 1] for all texts |
| RiskGate.CountsMeans | src/pi_agent_interceptor/proxy.py:247-249 | a word counts as often as it occurs |
| RiskGate.NormPositive | src/pi_agent_interceptor/proxy.py:251-254 | the norm of a text with words is positive and its square the sum of squared counts |
| RiskGate.CosineMeaning | src/pi_agent_interceptor/proxy.py:257-263 | similarity times both norms is the dot product of the counts |
| RiskGate.SameCountsSimilar | src/pi_agent_interceptor/proxy.py:257-263 | equal word counts give 1 |
| RiskGate.NothingShared | src/pi_agent_interceptor/proxy.py:257-263 | no shared word gives 0 |
| RiskGate.DriftInRange | src/pi_agent_interceptor/proxy.py:359-368 | drift lies in [0, 100] |
| RiskGate.DriftMeaning | src/pi_agent_interceptor/proxy.py:359-368 | the missing similarity in per cent to two decimals, symmetric, 0 without messages or goal |
| RiskGate.DriftExtremes | src/pi_agent_interceptor/proxy.py:359-368 | 100 without a shared word, 0 for the same words equally often |
| RiskGate.EntropyInRange | src/pi_agent_interceptor/proxy.py:370-382 | entropy lies in [0, 100] |
| RiskGate.EntropyValues | src/pi_agent_interceptor/proxy.py:370-382 | a third of 100 for every repeat among the last four messages, from three messages on |
| RiskGate.Compute | src/pi_agent_interceptor/proxy.py:465-473 | the weighted total, escalated by the three overriding scores, rounded and capped |
| RiskGate.RiskFromScores | src/pi_agent_interceptor/proxy.py:465-473 | without a score of 71 among ast, command and injection: a quarter drift, 15 % entropy, 20 % ast, 15 % command and a quarter injection, to two decimals |
| RiskGate.RiskWithOverride | src/pi_agent_interceptor/proxy.py:465-473 | with one: the greatest of that sum and the overriding scores, to two decimals |
| RiskGate.QuietCompletion | src/pi_agent_interceptor/proxy.py:588-614 | without injection a completion has risk at most 40 and is forwarded |
| RiskGate.Escalate | src/pi_agent_interceptor/proxy.py:469-472 | a score of 71 or more lifts the total at least to itself, otherwise it is unchanged |
| RiskGate.RoundKeepsSide | src/pi_agent_interceptor/proxy.py:473 | rounding does not cross values with two decimals |
| RiskGate.CompletionBands | src/pi_agent_interceptor/proxy.py:588-614 | completion risk never falls between 70 and 71; blocked exactly from injection score 71 |
| RiskGate.RequestBands | src/pi_agent_interceptor/proxy.py:572-614 | the same from the messages and the goal, with the three bands exhaustive |
| RiskGate.CommandBands | src/pi_agent_interceptor/proxy.py:721-751 | the decision for every danger score: unreviewed exactly below 41 or strictly between 70 and 71 |
| RiskGate.AnalyzeCommand | src/pi_agent_interceptor/proxy.py:433-454 | the worst trigger contained in the normalised command, at least 60 when a chaining operator occurs; never between 70 and 71 |
| RiskGate.DangerFromText | src/pi_agent_interceptor/proxy.py:433-454 | the score read off the text: 95, 80, 60, 50, 40, 30 or 0 |
| RiskGate.ChainedMeans | src/pi_agent_interceptor/proxy.py:451-453 | the six chaining operators |
| RiskGate.GateCommand | src/pi_agent_interceptor/proxy.py:721-751 | blocked exactly for commands with `sudo` or `rm -rf`, otherwise reviewed exactly for `chmod`, `chown` or chaining; anything else runs |

## Left out

- Appends through a handle while its ledger is still open, or through the object returned by `close_ledger`: they bypass the engine's event limit; its guarantees cover its own calls and handles used after closing.
- Event metadata (`emitted_at`, `replay_evidence`), ledger creation times and `get_event`: stored but not part of any hash or decision.
- `critical_nodes`, `high_nodes`, node types, edge counts and hashes of the drift report: plain projections of the annotations.
- Drift.ListOfSet: the order of `list(set(...))` is left open, so propagated deltas are characterised as a set without repeats.
- `evaluate_report` and the limit fields of the blast-radius engine: one comparison each.
- RiskPropagationTopology's own search and `critical_path`: the same loop without the hop lists.
- Compression, JSON, XML and form handling of the payload normalizer: library calls around the probe.
- Validation errors of `AuditLogEntry` and JSON lines that are not objects: the codec yields a record or nothing.
- SQLite itself, its triggers and timestamps, webhooks, HTTP handling and the spend, surplus and shadow agents of the interceptor; the stored payload text, which orders its keys differently from the hashed one.
- RiskGate.AnalyzeCommand: collapsing blanks and lower-casing are any function on strings, because Unicode case folding is not modelled.
- Tokenisation, stripping and lower-casing of messages and the injection scanner's patterns: their results are parameters.
- The file-edit gate and its AST scanner: a fixed score for any violation.
- Receipt files are assumed to parse back to the receipt written, with ids that are plain file names.
- Floating-point rounding and integer widths: exact reals and unbounded integers are used throughout.
- Orchestration (`PipelineDriver`, `GovernanceKernel`, `submit`), policies, trust zones, sessions, quotas, the Rust crates and all user interfaces: glue without an algorithm of its own.
