/**
  The request handlers keep the cluster invariant, and they never create an
  orphaned pod. The as-written CPU checks do not keep it.
 */
module RegistryInvariants {
  import opened Wrappers
  import opened ClusterState
  import opened Scheduler
  import opened Registry

  /** A node registered with a positive capacity keeps the invariant and the set of orphans. */
  lemma AddNodePreservesInv(c: Cluster, id: NodeId, cpuCores: CpuField, now: int)
    requires Inv(c) && !Registered(c.nodes, id)
    requires AddNode(c, id, cpuCores, now).Success?
    ensures Inv(AddNode(c, id, cpuCores, now).value)
    ensures forall p :: Orphan(AddNode(c, id, cpuCores, now).value, p) <==> Orphan(c, p)
  {
    var r := AddNode(c, id, cpuCores, now).value;
    var n := |c.nodes|;
    assert forall k :: 0 <= k < n ==> r.nodes[k] == c.nodes[k];
    assert SumCpu(r.pods, r.nodes[n].1.pods) == 0;
    forall p | p in r.pods
      ensures Registered(r.nodes, r.pods[p].assignedNode)
    {
      var i :| 0 <= i < n && c.nodes[i].0 == c.pods[p].assignedNode;
      assert r.nodes[i].0 == r.pods[p].assignedNode;
    }
    forall p
      ensures Listed(r.nodes, p) <==> Listed(c.nodes, p)
    {
      if Listed(r.nodes, p) {
        var i :| 0 <= i < |r.nodes| && p in r.nodes[i].1.pods;
        assert i < n;
      }
      if Listed(c.nodes, p) {
        var i :| 0 <= i < n && p in c.nodes[i].1.pods;
        assert p in r.nodes[i].1.pods;
      }
    }
  }

  /** A successful launch keeps the invariant; the new pod is listed, so no orphan appears or disappears. */
  lemma LaunchPodPreservesInv(c: Cluster, cpuRequired: CpuField, strategy: Option<string>)
    requires Inv(c)
    requires LaunchPod(c, cpuRequired, strategy).Success?
    ensures Inv(LaunchPod(c, cpuRequired, strategy).value.cluster)
    ensures forall p :: Orphan(LaunchPod(c, cpuRequired, strategy).value.cluster, p) <==> Orphan(c, p)
  {
    var cpu := cpuRequired.value;
    var j := ScheduleIndex(c.nodes, cpu, StrategyName(strategy)).value;
    var p := PodId(c.podCounter);
    assert LaunchPod(c, cpuRequired, strategy).value.cluster == Place(c, j, p, cpu, c.podCounter + 1);
    assert p !in c.pods;
    assert !Listed(c.nodes, p);
    PlacePreservesInv(c, j, p, cpu, c.podCounter + 1);
  }

  /** A heartbeat touches neither nodes nor pods, so it keeps the invariant. */
  lemma HeartbeatPreservesInv(c: Cluster, id: NodeId, now: int)
    requires Inv(c)
    requires Heartbeat(c, id, now).Success?
    ensures Inv(Heartbeat(c, id, now).value)
  {
  }

  /**
    One registration or launch from a state with full two-way consistency
    keeps it; with `EmptyClusterInv` as the base case, every state the
    handlers alone reach from the empty server is fully consistent.
   */
  lemma HandlersKeepFullConsistency(c: Cluster, id: NodeId, cpuCores: CpuField, cpuRequired: CpuField, strategy: Option<string>, now: int)
    requires Inv(c) && FullyConsistent(c)
    ensures !Registered(c.nodes, id) && AddNode(c, id, cpuCores, now).Success? ==>
      FullyConsistent(AddNode(c, id, cpuCores, now).value)
    ensures LaunchPod(c, cpuRequired, strategy).Success? ==>
      FullyConsistent(LaunchPod(c, cpuRequired, strategy).value.cluster)
  {
    if !Registered(c.nodes, id) && AddNode(c, id, cpuCores, now).Success? {
      AddNodePreservesInv(c, id, cpuCores, now);
    }
    if LaunchPod(c, cpuRequired, strategy).Success? {
      LaunchPodPreservesInv(c, cpuRequired, strategy);
    }
  }

  /** The handlers keep every failed node empty: a new node is healthy, a launch only uses a healthy node, a heartbeat touches no node. */
  lemma HandlersKeepFailedEmpty(c: Cluster, id: NodeId, cpuCores: CpuField, cpuRequired: CpuField, strategy: Option<string>, now: int)
    requires FailedEmpty(c) && DistinctIds(c.nodes)
    ensures !Registered(c.nodes, id) && AddNode(c, id, cpuCores, now).Success? ==>
      FailedEmpty(AddNode(c, id, cpuCores, now).value)
    ensures LaunchPod(c, cpuRequired, strategy).Success? ==>
      FailedEmpty(LaunchPod(c, cpuRequired, strategy).value.cluster)
    ensures Heartbeat(c, id, now).Success? ==> FailedEmpty(Heartbeat(c, id, now).value)
  {
  }

  /** The server starts with no nodes, no pods and the counter at 0, which satisfies the invariant. */
  lemma EmptyClusterInv()
    ensures Inv(EmptyCluster) && FullyConsistent(EmptyCluster) && FailedEmpty(EmptyCluster)
  {
  }

  // ----- the as-written CPU checks -----

  /** As written, `add_node` accepts `cpu_cores = -2` and stores a node with negative free CPU. */
  lemma AddNodeAsWrittenAcceptsNegative()
    ensures AddNodeAsWritten(EmptyCluster, "n1", Some(-2), 0).Success?
    ensures !CapacityInvariant(AddNodeAsWritten(EmptyCluster, "n1", Some(-2), 0).value)
    ensures AddNode(EmptyCluster, "n1", Some(-2), 0) == Failure(InvalidCpuValue)
  {
    var r := AddNodeAsWritten(EmptyCluster, "n1", Some(-2), 0).value;
    assert !Balanced(r.pods, r.nodes[0].1);
  }

  /** One healthy node "a" with 4 cores, as `add_node` leaves the empty server at time 0. */
  const OneNode: Cluster := Cluster([("a", Node(4, 4, Healthy, []))], map[], 0, map["a" := 0])

  lemma OneNodeFromAddNode()
    ensures AddNode(EmptyCluster, "a", Some(4), 0) == Success(OneNode)
    ensures Inv(OneNode)
  {
    AddNodePreservesInv(EmptyCluster, "a", Some(4), 0);
  }

  /**
    As written, `launch_pod` accepts `cpu_required = -3`: first-fit picks the
    4-core node and its free CPU rises to 7, above its capacity.
   */
  lemma LaunchPodAsWrittenOverfills()
    ensures LaunchPodAsWritten(OneNode, Some(-3), None).Success?
    ensures LaunchPodAsWritten(OneNode, Some(-3), None).value.cluster.nodes[0].1.availableCpu == 7
    ensures LaunchPodAsWritten(OneNode, Some(-3), None).value.cluster.nodes[0].1.cpuCores == 4
    ensures !Inv(LaunchPodAsWritten(OneNode, Some(-3), None).value.cluster)
    ensures LaunchPod(OneNode, Some(-3), None) == Failure(InvalidCpuValue)
  {
    var c := OneNode;
    assert Qualifies(c.nodes[0].1, -3);
    assert ScanFirstFit(c.nodes, -3) == Some(0);
    var r := Place(c, 0, PodId(0), -3, 1);
    assert LaunchPodAsWritten(c, Some(-3), None) == Success(Launched(r, PodId(0), "a"));
    assert PodId(0) in r.pods && r.pods[PodId(0)].cpuRequired == -3;
  }
}
