/**
  The in-memory state of the API server: the node registry (a dict, iterated
  in insertion order), the pod registry, the pod counter and the heartbeat
  table, together with the invariants every operation is meant to keep.
 */
module ClusterState {
  import opened Wrappers

  /** Node identifiers are opaque strings (a fresh UUID in the server). */
  type NodeId = string

  /** The pod named `pod_<index>`; the server takes `index` from its pod counter. */
  datatype PodId = PodId(index: nat)

  datatype Status = Healthy | Failed

  /** One value of the `nodes` dict (the container name is not modelled). */
  datatype Node = Node(cpuCores: int, availableCpu: int, status: Status, pods: seq<PodId>)

  /** One value of the `pods` dict. */
  datatype Pod = Pod(cpuRequired: int, assignedNode: NodeId)

  /** The server's global state; `nodes` keeps the dict's insertion order. */
  datatype Cluster = Cluster(
    nodes: seq<(NodeId, Node)>,
    pods: map<PodId, Pod>,
    podCounter: nat,
    lastHeartbeat: map<NodeId, int>)

  /** Seconds without a heartbeat after which a node counts as failed. */
  const HeartbeatTimeout: int := 20

  /** The state the server starts in. */
  const EmptyCluster: Cluster := Cluster([], map[], 0, map[])

  /** `id` is a key of the `nodes` dict. */
  predicate Registered(nodes: seq<(NodeId, Node)>, id: NodeId)
  {
    exists i :: 0 <= i < |nodes| && nodes[i].0 == id
  }

  /** Dict keys are unique. */
  ghost predicate DistinctIds(nodes: seq<(NodeId, Node)>)
  {
    forall i, j :: 0 <= i < j < |nodes| ==> nodes[i].0 != nodes[j].0
  }

  /** `last_heartbeat.get(node_id, 0)`. */
  function LastSeen(c: Cluster, id: NodeId): int
  {
    if id in c.lastHeartbeat then c.lastHeartbeat[id] else 0
  }

  /** The health monitor's failure guard: more than the timeout has elapsed since the last heartbeat. */
  predicate TimedOut(c: Cluster, id: NodeId, now: int)
  {
    now - LastSeen(c, id) > HeartbeatTimeout
  }

  /** The total CPU the pods named in `ps` require (names without a record count 0). */
  function SumCpu(pods: map<PodId, Pod>, ps: seq<PodId>): int
  {
    if |ps| == 0 then 0
    else SumCpu(pods, ps[..|ps| - 1]) + (if ps[|ps| - 1] in pods then pods[ps[|ps| - 1]].cpuRequired else 0)
  }

  /** Every failed node is empty with its whole capacity free: a failed node holds nothing. */
  ghost predicate FailedEmpty(c: Cluster)
  {
    forall k :: 0 <= k < |c.nodes| && c.nodes[k].1.status == Failed ==>
      c.nodes[k].1.pods == [] && c.nodes[k].1.availableCpu == c.nodes[k].1.cpuCores
  }

  /** `p` appears in some node's pod list. */
  ghost predicate Listed(nodes: seq<(NodeId, Node)>, p: PodId)
  {
    exists i :: 0 <= i < |nodes| && p in nodes[i].1.pods
  }

  /** Every pod a node lists has a record (the monitor reads `pods[pod_id]` for each). */
  ghost predicate Known(pods: map<PodId, Pod>, n: Node)
  {
    forall p :: p in n.pods ==> p in pods
  }

  ghost predicate AllKnown(c: Cluster)
  {
    forall i :: 0 <= i < |c.nodes| ==> Known(c.pods, c.nodes[i].1)
  }

  /** The capacity invariant of one node: free CPU plus the CPU of its pods is its capacity, and free CPU is never negative. */
  ghost predicate Balanced(pods: map<PodId, Pod>, n: Node)
  {
    n.availableCpu + SumCpu(pods, n.pods) == n.cpuCores && 0 <= n.availableCpu
  }

  ghost predicate CapacityInvariant(c: Cluster)
  {
    forall i :: 0 <= i < |c.nodes| ==> Balanced(c.pods, c.nodes[i].1)
  }

  ghost predicate NoDup(ps: seq<PodId>)
  {
    forall a, b :: 0 <= a < b < |ps| ==> ps[a] != ps[b]
  }

  /** Node `id` lists each of its pods once, and each of those pods names `id` as its node. */
  ghost predicate Hosts(pods: map<PodId, Pod>, id: NodeId, n: Node)
  {
    NoDup(n.pods) && forall p :: p in n.pods ==> p in pods && pods[p].assignedNode == id
  }

  /**
    Node-to-pod consistency. The converse direction (a pod is listed by the
    node it names) is NOT part of it: an evicted pod that found no new node
    is listed nowhere while still naming its old node (see `Orphan`).
   */
  ghost predicate Consistent(c: Cluster)
  {
    DistinctIds(c.nodes) && forall i :: 0 <= i < |c.nodes| ==> Hosts(c.pods, c.nodes[i].0, c.nodes[i].1)
  }

  /** Pod records: named below the counter, a positive request, and a node that exists. */
  ghost predicate PodsWellFormed(c: Cluster)
  {
    forall p :: p in c.pods ==>
      p.index < c.podCounter && c.pods[p].cpuRequired > 0 && Registered(c.nodes, c.pods[p].assignedNode)
  }

  /** The invariant every operation of the server preserves. */
  ghost predicate Inv(c: Cluster)
  {
    CapacityInvariant(c) && Consistent(c) && PodsWellFormed(c)
  }

  /** A pod that has a record but that no node lists: the one allowed break of pod-to-node consistency. */
  ghost predicate Orphan(c: Cluster, p: PodId)
  {
    p in c.pods && !Listed(c.nodes, p)
  }

  /** Full bidirectional consistency: every pod is listed by exactly the node it names. */
  ghost predicate FullyConsistent(c: Cluster)
  {
    Consistent(c) && forall p :: p in c.pods ==> !Orphan(c, p)
  }

  /** Replace node `j`'s record after reserving `cpu` for pod `p` on it (shared by launching and rescheduling). */
  function Reserve(nodes: seq<(NodeId, Node)>, j: nat, p: PodId, cpu: int): seq<(NodeId, Node)>
    requires j < |nodes|
  {
    nodes[j := (nodes[j].0, nodes[j].1.(availableCpu := nodes[j].1.availableCpu - cpu, pods := nodes[j].1.pods + [p]))]
  }

  lemma SumCpuAppend(pods: map<PodId, Pod>, ps: seq<PodId>, p: PodId)
    requires p in pods
    ensures SumCpu(pods, ps + [p]) == SumCpu(pods, ps) + pods[p].cpuRequired
  {
    assert (ps + [p])[..|ps|] == ps;
  }

  /** The CPU total of a list depends only on the requests of the pods in it. */
  lemma {:induction false} SumCpuFrame(pods: map<PodId, Pod>, pods': map<PodId, Pod>, ps: seq<PodId>)
    requires forall q :: q in ps ==> (q in pods <==> q in pods')
    requires forall q :: q in ps && q in pods ==> pods[q].cpuRequired == pods'[q].cpuRequired
    ensures SumCpu(pods, ps) == SumCpu(pods', ps)
  {
    if |ps| > 0 {
      var init := ps[..|ps| - 1];
      assert forall q :: q in init ==> q in ps;
      SumCpuFrame(pods, pods', init);
    }
  }

  lemma {:induction false} SumCpuNonNegative(pods: map<PodId, Pod>, ps: seq<PodId>)
    requires forall q :: q in pods ==> pods[q].cpuRequired > 0
    ensures SumCpu(pods, ps) >= 0
  {
    if |ps| > 0 {
      SumCpuNonNegative(pods, ps[..|ps| - 1]);
    }
  }

  /** Under the invariant free CPU lies between 0 and the node's capacity. */
  lemma InvBoundsAvailable(c: Cluster, i: nat)
    requires Inv(c) && i < |c.nodes|
    ensures 0 <= c.nodes[i].1.availableCpu <= c.nodes[i].1.cpuCores
  {
    SumCpuNonNegative(c.pods, c.nodes[i].1.pods);
  }

  /**
    Replacing node `i`'s record by one that balances and hosts its pods
    under the same id keeps the invariant.
   */
  lemma ReplaceNodeKeepsInv(c: Cluster, i: nat, n: Node)
    requires Inv(c) && i < |c.nodes|
    requires Balanced(c.pods, n) && Hosts(c.pods, c.nodes[i].0, n)
    ensures Inv(c.(nodes := c.nodes[i := (c.nodes[i].0, n)]))
  {
    var r := c.(nodes := c.nodes[i := (c.nodes[i].0, n)]);
    forall p | p in r.pods
      ensures Registered(r.nodes, r.pods[p].assignedNode)
    {
      SameIdsRegistered(c.nodes, r.nodes, r.pods[p].assignedNode);
    }
  }

  /** Under the invariant a pod is listed only by the node it names. */
  lemma ListedOnlyAtAssigned(c: Cluster, p: PodId, i: nat)
    requires Consistent(c) && i < |c.nodes| && p in c.nodes[i].1.pods
    ensures p in c.pods && c.pods[p].assignedNode == c.nodes[i].0
    ensures forall k :: 0 <= k < |c.nodes| && k != i ==> p !in c.nodes[k].1.pods
  {
  }

  /** Keeping the key sequence keeps the set of registered ids. */
  lemma SameIdsRegistered(nodes: seq<(NodeId, Node)>, nodes': seq<(NodeId, Node)>, id: NodeId)
    requires |nodes'| == |nodes|
    requires forall k :: 0 <= k < |nodes| ==> nodes'[k].0 == nodes[k].0
    ensures Registered(nodes', id) <==> Registered(nodes, id)
  {
    if Registered(nodes, id) {
      var i :| 0 <= i < |nodes| && nodes[i].0 == id;
      assert nodes'[i].0 == id;
    }
    if Registered(nodes', id) {
      var i :| 0 <= i < |nodes'| && nodes'[i].0 == id;
      assert nodes[i].0 == id;
    }
  }

  // ----- placing a pod on a node (launching and rescheduling) -----

  /** The state after pod `p` of `cpu` is put on node `j`: node `j` reserved, the record of `p` names node `j`. */
  function Place(c: Cluster, j: nat, p: PodId, cpu: int, counter: nat): Cluster
    requires j < |c.nodes|
  {
    Cluster(Reserve(c.nodes, j, p, cpu), c.pods[p := Pod(cpu, c.nodes[j].0)], counter, c.lastHeartbeat)
  }

  /** What placing a pod demands: room on the node, a positive request, and a pod no node lists yet. */
  ghost predicate CanPlace(c: Cluster, j: nat, p: PodId, cpu: int, counter: nat)
  {
    && j < |c.nodes|
    && c.nodes[j].1.availableCpu >= cpu
    && cpu > 0
    && !Listed(c.nodes, p)
    && p.index < counter
    && c.podCounter <= counter
    && (p in c.pods ==> c.pods[p].cpuRequired == cpu)
  }

  lemma PlaceKeepsCapacity(c: Cluster, j: nat, p: PodId, cpu: int, counter: nat)
    requires CapacityInvariant(c) && CanPlace(c, j, p, cpu, counter)
    ensures CapacityInvariant(Place(c, j, p, cpu, counter))
  {
    var r := Place(c, j, p, cpu, counter);
    forall k | 0 <= k < |c.nodes|
      ensures Balanced(r.pods, r.nodes[k].1)
    {
      var n := c.nodes[k].1;
      assert p !in n.pods;
      SumCpuFrame(c.pods, r.pods, n.pods);
      if k == j {
        SumCpuAppend(r.pods, n.pods, p);
      }
    }
  }

  lemma PlaceKeepsConsistency(c: Cluster, j: nat, p: PodId, cpu: int, counter: nat)
    requires Consistent(c) && CanPlace(c, j, p, cpu, counter)
    ensures Consistent(Place(c, j, p, cpu, counter))
  {
    var r := Place(c, j, p, cpu, counter);
    forall k | 0 <= k < |c.nodes|
      ensures Hosts(r.pods, r.nodes[k].0, r.nodes[k].1)
    {
      assert p !in c.nodes[k].1.pods;
      assert Hosts(c.pods, c.nodes[k].0, c.nodes[k].1);
    }
  }

  lemma PlaceKeepsPodsWellFormed(c: Cluster, j: nat, p: PodId, cpu: int, counter: nat)
    requires PodsWellFormed(c) && CanPlace(c, j, p, cpu, counter)
    ensures PodsWellFormed(Place(c, j, p, cpu, counter))
  {
    var r := Place(c, j, p, cpu, counter);
    forall q | q in r.pods
      ensures Registered(r.nodes, r.pods[q].assignedNode)
    {
      SameIdsRegistered(c.nodes, r.nodes, r.pods[q].assignedNode);
      if q == p {
        assert r.nodes[j].0 == r.pods[q].assignedNode;
      }
    }
  }

  /** Placing keeps the invariant, and the only newly listed pod is the placed one. */
  lemma PlacePreservesInv(c: Cluster, j: nat, p: PodId, cpu: int, counter: nat)
    requires Inv(c) && CanPlace(c, j, p, cpu, counter)
    ensures Inv(Place(c, j, p, cpu, counter))
    ensures forall q :: Listed(Place(c, j, p, cpu, counter).nodes, q) <==> Listed(c.nodes, q) || q == p
  {
    PlaceKeepsCapacity(c, j, p, cpu, counter);
    PlaceKeepsConsistency(c, j, p, cpu, counter);
    PlaceKeepsPodsWellFormed(c, j, p, cpu, counter);
    PlaceListing(c, j, p, cpu, counter);
  }

  lemma PlaceListing(c: Cluster, j: nat, p: PodId, cpu: int, counter: nat)
    requires j < |c.nodes|
    ensures forall q :: Listed(Place(c, j, p, cpu, counter).nodes, q) <==> Listed(c.nodes, q) || q == p
  {
    var r := Place(c, j, p, cpu, counter);
    forall q
      ensures Listed(r.nodes, q) <==> Listed(c.nodes, q) || q == p
    {
      if Listed(c.nodes, q) {
        var i :| 0 <= i < |c.nodes| && q in c.nodes[i].1.pods;
        assert q in r.nodes[i].1.pods;
      }
      if Listed(r.nodes, q) && q != p {
        var i :| 0 <= i < |r.nodes| && q in r.nodes[i].1.pods;
        assert q in c.nodes[i].1.pods;
      }
      if q == p {
        assert p in r.nodes[j].1.pods;
      }
    }
  }
}
