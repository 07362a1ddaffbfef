/**
  The request handlers that change state: `add_node`, `launch_pod` and
  `heartbeat`. HTTP parsing and replies are reduced to the handler's inputs
  and a `Result`; the UUID of a new node and the clock are parameters.
 */
module Registry {
  import opened Wrappers
  import opened ClusterState
  import opened Scheduler

  /** The error replies of the handlers (HTTP 400, 503 and 400). */
  datatype Error = InvalidCpuValue | NoSuitableNode | NodeNotRegistered

  /** A successful launch: the new state, the new pod's name and the node it was placed on. */
  datatype Launched = Launched(cluster: Cluster, pod: PodId, node: NodeId)

  /**
    A CPU field of a request. `None` stands for a missing key or a value
    that is not an int; a Python bool arrives as the int it equals.
   */
  type CpuField = Option<int>

  /** The check the handlers evidently intend: a positive int. */
  predicate ValidCpu(v: CpuField)
  {
    v.Some? && v.value > 0
  }

  /** The check as written, `not v or not isinstance(v, int)`: only missing, non-int and zero values fail it. */
  predicate AcceptedAsWritten(v: CpuField)
  {
    v.Some? && v.value != 0
  }

  // ----- add_node -----

  /** Store a new node record and its first heartbeat. */
  function Register(c: Cluster, id: NodeId, cores: int, now: int): Cluster
  {
    c.(nodes := c.nodes + [(id, Node(cores, cores, Healthy, []))], lastHeartbeat := c.lastHeartbeat[id := now])
  }

  /** `r` is `c` with node `id` appended: full capacity free, healthy, no pods, heartbeat at `now`; nothing else changes. */
  ghost predicate NodeAdded(c: Cluster, r: Cluster, id: NodeId, cores: int, now: int)
  {
    && |r.nodes| == |c.nodes| + 1
    && r.nodes[..|c.nodes|] == c.nodes
    && r.nodes[|c.nodes|].0 == id
    && r.nodes[|c.nodes|].1 == Node(cores, cores, Healthy, [])
    && r.pods == c.pods
    && r.podCounter == c.podCounter
    && id in r.lastHeartbeat && r.lastHeartbeat[id] == now
    && (forall k :: k in c.lastHeartbeat && k != id ==> k in r.lastHeartbeat && r.lastHeartbeat[k] == c.lastHeartbeat[k])
    && r.lastHeartbeat.Keys == c.lastHeartbeat.Keys + {id}
  }

  /** `add_node` with the positive-capacity check; `id` is the fresh UUID. */
  function AddNode(c: Cluster, id: NodeId, cpuCores: CpuField, now: int): (r: Result<Cluster, Error>)
    requires !Registered(c.nodes, id)
    ensures r.Failure? <==> cpuCores.None? || cpuCores.value <= 0
    ensures r.Failure? ==> r.error == InvalidCpuValue
    ensures r.Success? ==> NodeAdded(c, r.value, id, cpuCores.value, now)
  {
    if !ValidCpu(cpuCores) then Failure(InvalidCpuValue)
    else Success(Register(c, id, cpuCores.value, now))
  }

  /** `add_node` as written: a negative capacity is accepted. */
  function AddNodeAsWritten(c: Cluster, id: NodeId, cpuCores: CpuField, now: int): (r: Result<Cluster, Error>)
    requires !Registered(c.nodes, id)
    ensures r.Failure? <==> cpuCores.None? || cpuCores.value == 0
    ensures r.Failure? ==> r.error == InvalidCpuValue
    ensures r.Success? ==> NodeAdded(c, r.value, id, cpuCores.value, now)
  {
    if !AcceptedAsWritten(cpuCores) then Failure(InvalidCpuValue)
    else Success(Register(c, id, cpuCores.value, now))
  }

  // ----- launch_pod -----

  /**
    `r` records pod `pod_<counter>` of `cpu` on node `r.node`: exactly that
    node's free CPU drops by `cpu` and its list gains the pod at the end, the
    pod record names the node, the counter moves on, nothing else changes.
   */
  ghost predicate PodLaunched(c: Cluster, r: Launched, cpu: int)
  {
    && r.pod == PodId(c.podCounter)
    && r.cluster.podCounter == c.podCounter + 1
    && r.cluster.pods == c.pods[r.pod := Pod(cpu, r.node)]
    && r.cluster.lastHeartbeat == c.lastHeartbeat
    && |r.cluster.nodes| == |c.nodes|
    && forall k :: 0 <= k < |c.nodes| ==>
         && r.cluster.nodes[k].0 == c.nodes[k].0
         && (c.nodes[k].0 == r.node ==>
               r.cluster.nodes[k].1 == c.nodes[k].1.(availableCpu := c.nodes[k].1.availableCpu - cpu,
                                                     pods := c.nodes[k].1.pods + [r.pod]))
         && (c.nodes[k].0 != r.node ==> r.cluster.nodes[k] == c.nodes[k])
  }

  /** The part of `launch_pod` after validation: schedule, then reserve and record. */
  function Launch(c: Cluster, cpu: int, name: string): (r: Result<Launched, Error>)
    requires DistinctIds(c.nodes)
    ensures r.Success? <==> SchedulePod(c.nodes, cpu, name).Some?
    ensures r.Success? ==> SchedulePod(c.nodes, cpu, name) == Some(r.value.node) && PodLaunched(c, r.value, cpu)
    ensures r.Failure? ==> r.error == NoSuitableNode
  {
    match ScheduleIndex(c.nodes, cpu, name)
    case None => Failure(NoSuitableNode)
    case Some(j) =>
      var p := PodId(c.podCounter);
      Success(Launched(Place(c, j, p, cpu, c.podCounter + 1), p, c.nodes[j].0))
  }

  /** The strategy field, `'first-fit'` when absent. */
  function StrategyName(strategy: Option<string>): string
  {
    if strategy.Some? then strategy.value else "first-fit"
  }

  /** `launch_pod` with the positive-request check. */
  function LaunchPod(c: Cluster, cpuRequired: CpuField, strategy: Option<string>): (r: Result<Launched, Error>)
    requires DistinctIds(c.nodes)
    ensures r == Failure(InvalidCpuValue) <==> cpuRequired.None? || cpuRequired.value <= 0
    ensures r.Success? ==>
      && cpuRequired.Some? && cpuRequired.value > 0
      && SchedulePod(c.nodes, cpuRequired.value, StrategyName(strategy)) == Some(r.value.node)
      && PodLaunched(c, r.value, cpuRequired.value)
    ensures r == Failure(NoSuitableNode) <==>
      cpuRequired.Some? && cpuRequired.value > 0 && SchedulePod(c.nodes, cpuRequired.value, StrategyName(strategy)).None?
  {
    if !ValidCpu(cpuRequired) then Failure(InvalidCpuValue)
    else Launch(c, cpuRequired.value, StrategyName(strategy))
  }

  /** `launch_pod` as written: a negative request is accepted. */
  function LaunchPodAsWritten(c: Cluster, cpuRequired: CpuField, strategy: Option<string>): (r: Result<Launched, Error>)
    requires DistinctIds(c.nodes)
    ensures r == Failure(InvalidCpuValue) <==> cpuRequired.None? || cpuRequired.value == 0
    ensures r.Success? ==>
      && cpuRequired.Some? && cpuRequired.value != 0
      && SchedulePod(c.nodes, cpuRequired.value, StrategyName(strategy)) == Some(r.value.node)
      && PodLaunched(c, r.value, cpuRequired.value)
  {
    if !AcceptedAsWritten(cpuRequired) then Failure(InvalidCpuValue)
    else Launch(c, cpuRequired.value, StrategyName(strategy))
  }

  // ----- heartbeat -----

  /** `heartbeat`: unknown ids are refused; otherwise only the heartbeat table changes, and only at `id`. */
  function Heartbeat(c: Cluster, id: NodeId, now: int): (r: Result<Cluster, Error>)
    ensures r.Failure? <==> !Registered(c.nodes, id)
    ensures r.Failure? ==> r.error == NodeNotRegistered
    ensures r.Success? ==>
      && r.value.nodes == c.nodes && r.value.pods == c.pods && r.value.podCounter == c.podCounter
      && id in r.value.lastHeartbeat && r.value.lastHeartbeat[id] == now
      && r.value.lastHeartbeat.Keys == c.lastHeartbeat.Keys + {id}
      && forall k :: k in c.lastHeartbeat && k != id ==> r.value.lastHeartbeat[k] == c.lastHeartbeat[k]
  {
    if !Registered(c.nodes, id) then Failure(NodeNotRegistered)
    else Success(c.(lastHeartbeat := c.lastHeartbeat[id := now]))
  }
}
