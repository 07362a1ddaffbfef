# Cluster scheduler and health monitor: a Dafny model

This project models the scheduling and health-monitoring core of a small
cluster simulator's API server (`Miniproject/api_server/server.py`).
Nodes register with a number of CPU cores. Pods are placed on nodes by one of
three strategies: first-fit, best-fit or worst-fit. A monitor marks a node
failed when its heartbeat is older than 20 seconds. It then moves the failed
node's pods to the first healthy node with room, and it brings a node back
when its heartbeat is fresh again.

The server's state is a `ClusterState.Cluster`:

- `nodes`: a sequence of (id, record) pairs. It keeps the insertion order of
  the Python dict, which the strategies depend on.
- `pods`: a map from pod name to record.
- `podCounter`: the pod counter.
- `lastHeartbeat`: a map from node id to time.

Every handler is a pure function from a state to a new state, or to an error
(`Wrappers.Result`). One pass of the monitor loop is `HealthMonitor.Tick`,
which takes the current time as an integer.

Modules, one per component of the server:

- `Wrappers` (wrappers.dfy): `Option` and `Result`.
- `ClusterState` (cluster.dfy): the records, the capacity invariant, the
  consistency between nodes and pods, and placing a pod on a node.
- `Scheduler` (scheduler.dfy): `schedule_pod` and its three scans. Each scan
  is proved against a declarative description of the node it must pick.
- `Registry` (registry.dfy): `add_node`, `launch_pod` and `heartbeat`.
- `RegistryInvariants` (registry_invariants.dfy): the handlers preserve the
  invariant. Also holds the counterexamples for the as-written CPU checks.
- `HealthMonitor` (health_monitor.dfy): eviction, rescheduling and recovery
  in one pass, with the invariant and per-node outcome lemmas.
- `Scenarios` (scenarios.dfy): concrete runs. These include the best-fit and
  worst-fit example and a failure and recovery cycle.

The invariant `ClusterState.Inv` has three parts:

- Capacity: for every node, free CPU plus the CPU of its listed pods equals
  its cores, and free CPU is never negative.
- Node-to-pod consistency: each listed pod appears once, has a record, and
  its record names that node. Node ids are distinct.
- Pod records: each has a positive request, a name below the counter, and a
  node that exists.

The converse direction, that every pod is listed by the node it names, is
deliberately not part of `Inv`. An evicted pod that finds no new node is
listed nowhere but still names its old node (`ClusterState.Orphan`). The
lemmas show that only a monitor pass creates such pods. The handlers keep the
set of orphans as it was.

A second invariant, `ClusterState.FailedEmpty`, says that a failed node
holds no pods and has all its cores free. Every handler and every monitor
step keep it. Under it, a node that recovers comes back empty. It does not
regain the pods that were moved off it. Later evictions in the same pass may
place other pods on it, because it is healthy again.

The model follows the code, with these notes:

- The main handlers `AddNode` and `LaunchPod` reject every non-positive CPU
  value. The code's own check, which rejects only zero, is modelled beside
  them as `AddNodeAsWritten` and `LaunchPodAsWritten` (see Findings).
- A node without a heartbeat entry counts as last seen at time 0
  (`last_heartbeat.get(node_id, 0)`), not at its registration time. Since
  `add_node` always stores a heartbeat, the two readings agree on every state
  the handlers can produce.
- A node's pods form a list, not a set. The model proves the list has no
  duplicates.

## Model

| member | source | states |
|---|---|---|
| Scheduler.ParseStrategy | Miniproject/api_server/server.py:105-129 | exactly the names `first-fit`, `best-fit` and `worst-fit` select a strategy; any other name selects none |
| Scheduler.ScanFirstFit | Miniproject/api_server/server.py:105-108 | the result is the earliest healthy node with enough free CPU; None exactly when no node qualifies |
| Scheduler.BestFitFrom | Miniproject/api_server/server.py:111-118 | the loop with a running best keeps "least leftover among the nodes seen so far, earliest on a tie" and ends with the tightest qualifying node |
| Scheduler.ScanBestFit | Miniproject/api_server/server.py:110-118 | the result qualifies and has the least `available_cpu - cpu_required` of all qualifying nodes; no earlier qualifying node has the same leftover; None exactly when no node qualifies |
| Scheduler.WorstFitFrom | Miniproject/api_server/server.py:121-127 | the loop with the integer sentinel -1 keeps "most free CPU among the nodes seen so far, earliest on a tie" |
| Scheduler.ScanWorstFit | Miniproject/api_server/server.py:120-127 | the result qualifies and has the most free CPU of all qualifying nodes; no earlier qualifying node has as much; None only when no qualifying node has non-negative free CPU |
| Scheduler.ScheduleIndex | Miniproject/api_server/server.py:102-129 | a chosen node is healthy with enough free CPU; an unknown strategy chooses nothing; for a non-negative request, nothing is chosen only when no node qualifies |
| Scheduler.SchedulePod | Miniproject/api_server/server.py:102-129 | returns the id of a healthy node with enough free CPU, or None; None for an unknown strategy; for a non-negative request, None exactly when no node qualifies; it is a function of the node list, so it changes no state |
| Scheduler.FirstFitChoice | Miniproject/api_server/server.py:105-108 | first-fit returns node i if and only if i is the earliest qualifying node |
| Scheduler.BestFitChoice | Miniproject/api_server/server.py:110-118 | best-fit returns node i if and only if i has the least leftover and is the earliest such node (the strict `<`) |
| Scheduler.WorstFitChoice | Miniproject/api_server/server.py:120-127 | worst-fit returns node i if and only if i has the most free CPU and is the earliest such node (the strict `>`) |
| Scheduler.WorstFitSentinelHarmless | Miniproject/api_server/server.py:121-124 | for a non-negative request the -1 sentinel never decides: worst-fit fails exactly when no node qualifies |
| Registry.AddNode | Miniproject/api_server/server.py:17-42 | fails with an invalid-CPU error exactly when the value is missing, not an int, or not positive; otherwise appends node `id` with all cores free, healthy, no pods, and a heartbeat at `now`; existing nodes, pods and the counter are unchanged |
| Registry.AddNodeAsWritten | Miniproject/api_server/server.py:21-22 | as written: only a missing, non-int or zero value fails, so a negative capacity is stored |
| Registry.Launch | Miniproject/api_server/server.py:61-82 | succeeds exactly when `schedule_pod` returns a node; on success only that node changes (free CPU down by the request, `pod_<counter>` appended), the pod record names it, the counter grows by one; otherwise the error is "no suitable node" |
| Registry.LaunchPod | Miniproject/api_server/server.py:55-82 | an invalid-CPU error exactly for a missing, non-int or non-positive request; "no suitable node" exactly when the chosen strategy (default `first-fit`) finds none; on success the effect of `Launch` |
| Registry.LaunchPodAsWritten | Miniproject/api_server/server.py:58-59 | as written: only a missing, non-int or zero request fails, so a negative request reaches the scheduler |
| Registry.Heartbeat | Miniproject/api_server/server.py:89-93 | fails exactly for an unregistered id; otherwise only the heartbeat entry of `id` changes, to `now` |
| ClusterState.InvBoundsAvailable | Miniproject/api_server/server.py:31-37 | under the invariant every node's free CPU lies between 0 and its cores |
| ClusterState.PlacePreservesInv | Miniproject/api_server/server.py:67-74 | reserving CPU for an unlisted pod on a node with room keeps the invariant and lists exactly that one pod more |
| RegistryInvariants.EmptyClusterInv | Miniproject/api_server/server.py:9-13 | the starting state, with empty node and pod tables and the counter at 0, satisfies the invariant, full two-way consistency, and "failed nodes hold nothing" |
| RegistryInvariants.HandlersKeepFailedEmpty | Miniproject/api_server/server.py:17-93 | registering a node, launching a pod and recording a heartbeat each keep every failed node empty with all its cores free |
| RegistryInvariants.OneNodeFromAddNode | Miniproject/api_server/server.py:17-42 | registering a 4-core node on the empty server yields exactly one healthy node with all 4 cores free and no pods, which satisfies the invariant |
| RegistryInvariants.AddNodePreservesInv | Miniproject/api_server/server.py:31-40 | a registration keeps the invariant and the set of orphaned pods |
| RegistryInvariants.LaunchPodPreservesInv | Miniproject/api_server/server.py:63-74 | a successful launch keeps the invariant and the set of orphaned pods |
| RegistryInvariants.HeartbeatPreservesInv | Miniproject/api_server/server.py:89-93 | a heartbeat keeps the invariant |
| RegistryInvariants.HandlersKeepFullConsistency | Miniproject/api_server/server.py:63-74 | registrations and launches keep full two-way consistency between nodes and pods |
| RegistryInvariants.AddNodeAsWrittenAcceptsNegative | Miniproject/api_server/server.py:21-22 | as written, `cpu_cores = -2` is accepted and breaks the capacity invariant; the corrected check rejects it |
| RegistryInvariants.LaunchPodAsWrittenOverfills | Miniproject/api_server/server.py:58-68 | as written, `cpu_required = -3` on a free 4-core node is accepted and leaves it 7 free CPUs, breaking the invariant; the corrected check rejects it |
| HealthMonitor.Relocate | Miniproject/api_server/server.py:152-167 | rescheduling one pod keeps every node's id, capacity and status; failed nodes are never touched; pod requests are kept |
| HealthMonitor.RelocateToFirstFit | Miniproject/api_server/server.py:157-161 | an evicted pod goes to the first healthy node with room: that node's free CPU drops by the request, its list gains the pod at the end, the pod's record names it, and every other node is unchanged |
| HealthMonitor.RelocateNowhere | Miniproject/api_server/server.py:157-167 | when no healthy node has room for the pod, rescheduling it changes nothing |
| HealthMonitor.RelocateFrame | Miniproject/api_server/server.py:157-166 | relocating a pod changes no other pod's listing or record; a pod left unplaced leaves the state unchanged |
| HealthMonitor.Reschedule | Miniproject/api_server/server.py:152-167 | rescheduling the evicted pods keeps ids, capacities and statuses; failed nodes, including the one just evicted, receive nothing |
| HealthMonitor.ReschedulePreservesInv | Miniproject/api_server/server.py:152-164 | rescheduling distinct unlisted pods keeps the invariant |
| HealthMonitor.RescheduleFrame | Miniproject/api_server/server.py:152-167 | pods outside the batch keep listing and record; a pod of the batch that found no node keeps its old record, so it still names the node it was evicted from |
| HealthMonitor.Evict | Miniproject/api_server/server.py:144-150 | the evicted node is failed, has no pods and all its cores free; every other node, the pods, the counter and the heartbeats are unchanged |
| HealthMonitor.FailNode | Miniproject/api_server/server.py:144-164 | after failing a node and rescheduling its pods, that node is still failed, empty and fully free (none of its pods comes back to it), and the skeleton of the state is kept |
| HealthMonitor.Recover | Miniproject/api_server/server.py:170-173 | the recovered node is healthy with its pods, free CPU and capacity as they were; every other node, the pods, the counter and the heartbeats are unchanged |
| HealthMonitor.EvictPreservesInv | Miniproject/api_server/server.py:144-150 | marking a node failed, emptying its list and resetting its free CPU keeps the invariant and un-lists exactly that node's pods |
| HealthMonitor.FailNodePreservesInv | Miniproject/api_server/server.py:144-164 | failing a node and rescheduling its pods keeps the invariant |
| HealthMonitor.FailNodeOrphans | Miniproject/api_server/server.py:144-167 | failing a node keeps existing orphans untouched; a pod that ends up unlisted was on that node and keeps its record naming it |
| HealthMonitor.RecoverPreservesInv | Miniproject/api_server/server.py:170-173 | marking a failed node healthy keeps the invariant and every pod's listing |
| HealthMonitor.Step | Miniproject/api_server/server.py:136-174 | after one node's step its status is failed exactly when its heartbeat timed out; every other node keeps its status, and failed ones keep their whole record |
| HealthMonitor.StepOutcome | Miniproject/api_server/server.py:142-174 | a healthy node that timed out becomes failed and empty with all cores free; a failed node with a fresh heartbeat becomes healthy with pods and free CPU unchanged and nothing else changes; any other node leaves the state untouched |
| HealthMonitor.StepPreservesInv | Miniproject/api_server/server.py:142-174 | one node's step, whichever branch it takes, keeps the invariant |
| HealthMonitor.StepOrphans | Miniproject/api_server/server.py:144-167 | across one node's step an orphan stays an orphan with its record; a pod that loses its listing came from that node, which is now failed, and keeps its record, so it still names that node |
| HealthMonitor.TickFrom | Miniproject/api_server/server.py:135-174 | the rest of a pass keeps node order, ids and capacities, pod names and requests, the counter and the heartbeats |
| HealthMonitor.Tick | Miniproject/api_server/server.py:134-174 | a pass neither adds nor removes nodes or pods and changes no capacity, request, counter or heartbeat |
| HealthMonitor.TickFromPreservesInv | Miniproject/api_server/server.py:142-174 | the rest of a pass keeps the invariant |
| HealthMonitor.OrphanKeptByPass | Miniproject/api_server/server.py:144-174 | an orphan stays an orphan with its record untouched for the rest of a pass: nothing reschedules it later |
| HealthMonitor.TickFromKeepsOrphans | Miniproject/api_server/server.py:144-174 | the rest of a pass keeps every orphan unlisted with its record untouched |
| HealthMonitor.TickPreservesInv | Miniproject/api_server/server.py:142-174 | a full pass keeps the capacity invariant and consistency, and keeps every orphan unlisted with its record untouched |
| HealthMonitor.PassStatus | Miniproject/api_server/server.py:142-173 | during a pass the nodes already visited keep their status and every later node ends with the status its heartbeat dictates |
| HealthMonitor.TickStatus | Miniproject/api_server/server.py:142-173 | after a pass every node is failed exactly when its heartbeat timed out, and healthy otherwise: the detector is level-triggered |
| HealthMonitor.PassEvicts | Miniproject/api_server/server.py:142-164 | a node that fails during the pass ends it empty with all cores free: no later rescheduling puts a pod on it |
| HealthMonitor.PassKeepsFailed | Miniproject/api_server/server.py:142-170 | a failed node that is already visited or still timed out is not touched by the rest of the pass |
| HealthMonitor.FailedAfterOwnStep | Miniproject/api_server/server.py:142-164 | once a node's own step leaves it failed, the rest of the pass leaves it as it is |
| HealthMonitor.TickNodeOutcome | Miniproject/api_server/server.py:142-170 | after a pass a node that failed in it is empty with all cores free, and a node still failed is unchanged |
| HealthMonitor.StepKeepsFailedEmpty | Miniproject/api_server/server.py:142-173 | one node's step keeps every failed node empty with all its cores free |
| HealthMonitor.StepRecoversEmpty | Miniproject/api_server/server.py:170-173 | a failed node with a fresh heartbeat comes back healthy, with no pods and all its cores free |
| HealthMonitor.TickFromKeepsFailedEmpty | Miniproject/api_server/server.py:135-174 | the rest of a pass keeps every failed node empty with all its cores free |
| HealthMonitor.TickKeepsFailedEmpty | Miniproject/api_server/server.py:134-174 | a full pass keeps every failed node empty with all its cores free |
| Scenarios.BestFitPrefersTighterNode | Miniproject/api_server/server.py:110-118 | with A (4 cores) and B (2 cores) free, best-fit for 2 CPUs picks B, first-fit picks A, an unknown strategy and a request of 5 pick nothing |
| Scenarios.WorstFitPrefersLooserNode | Miniproject/api_server/server.py:120-127 | with A at 2 free and B at 0 free, worst-fit for 2 CPUs picks A |
| Scenarios.TiesGoToEarlierNode | Miniproject/api_server/server.py:115-125 | on equal leftover or equal free CPU, best-fit and worst-fit pick the node registered first |
| Scenarios.LoadedByLaunch | Miniproject/api_server/server.py:61-74 | launching 2 CPUs on a free 4-core node records `pod_0` on it with 2 CPUs left |
| Scenarios.FailureOrphansPod | Miniproject/api_server/server.py:142-167 | with no heartbeat for 21 seconds the node fails and empties; its pod has nowhere to go and still names it |
| Scenarios.FailureMovesPod | Miniproject/api_server/server.py:152-164 | with a second healthy node the evicted pod moves there and now names it |
| Scenarios.RecoveryStartsEmpty | Miniproject/api_server/server.py:170-173 | after a fresh heartbeat the failed node recovers empty with all cores free; it does not regain the pod |

## Left out

- HTTP routing, `request.get_json`, `jsonify` and status codes: each handler takes its fields as parameters and returns a `Result`.
- `list_nodes` (lines 46-48): it only returns the state, which is the `Cluster` value itself.
- `uuid.uuid4()`, the container name and the `docker run` call (lines 24-28): the new node id is a parameter with a freshness precondition; the container name is not stored.
- `time.time()`: the clock is an integer parameter `now`; floating-point seconds are not modelled.
- The monitor thread, the `while True` loop and `time.sleep(5)` (lines 132-180), and races between the request thread and the monitor: one pass is a sequential function, with no interleaving.
- `print` logging throughout, including the "could NOT be rescheduled" report, which has no effect on the state.
- `Miniproject/node_simulation/heartbeat.py`: a client loop that posts heartbeats; it is not part of this model.
- Pod names: `pod_<n>` is `PodId(n)`; rendering the number as a decimal string is not modelled.
- JSON typing: a CPU field is an `Option<int>`, where None stands for a missing key or a non-int value. A Python bool arrives as the int it equals.
- Registry.Launch: requires distinct node ids, which a Python dict guarantees by construction.
- HealthMonitor.TickPreservesInv: does not restate at the level of a whole pass that a pod orphaned during it names a node that is failed at its end; `StepOrphans` states this for the step that orphans the pod.
- HealthMonitor.Tick: requires every listed pod to have a record. The source raises `KeyError` at line 153 only when the node that lists a pod without a record fails in the pass; no handler produces such a state, since `Inv` implies `AllKnown` (`InvAllKnown`).
- Registry.LaunchPod: the strategy field is a string or absent. A present value that is not a string, such as JSON `null`, reaches line 129 in the source and gets "No suitable node"; the model cannot express that input.
- Scheduler.SchedulePod: for a negative request with worst-fit, a None result promises only that every qualifying node has negative free CPU, not that none qualifies. This is because the source's -1 sentinel passes over such nodes.
- Node ids are UUID strings and are never empty, so `if node_id:` (line 63) is modelled as the scheduler returning a node; the model does not give an empty id the "no suitable node" answer Python would.

## Findings

| source | as written | input that shows it | evidently intended | confidence | as-written member | corrected member |
|---|---|---|---|---|---|---|
| Miniproject/api_server/server.py:21 | `not cpu_cores or not isinstance(cpu_cores, int)` rejects only missing, non-int and zero values | `cpu_cores = -2` registers a node with -2 free CPU | reject every non-positive capacity, keeping free CPU at or above 0 | medium, not executed | RegistryInvariants.AddNodeAsWrittenAcceptsNegative | RegistryInvariants.AddNodePreservesInv |
| Miniproject/api_server/server.py:58 | `not cpu_required or not isinstance(cpu_required, int)` rejects only missing, non-int and zero values | `cpu_required = -3` with first-fit on a free 4-core node leaves it with 7 free CPUs, more than its cores | reject every non-positive request, keeping free CPU at most the node's cores | medium, not executed | RegistryInvariants.LaunchPodAsWrittenOverfills | RegistryInvariants.LaunchPodPreservesInv |
