/**
  One pass of `health_monitor`'s `while True` body, at time `now`: every
  node in registration order is checked against its last heartbeat. A
  healthy node that timed out fails, is emptied, and each of its pods is
  moved to the first healthy node with room; a failed node with a fresh
  heartbeat recovers. The sleep between passes is not part of a pass.
 */
module HealthMonitor {
  import opened Wrappers
  import opened ClusterState
  import opened Scheduler

  /** Node order, ids and capacities, pod names and requests, counter and heartbeats are all kept. */
  ghost predicate SameSkeleton(c: Cluster, r: Cluster)
  {
    && |r.nodes| == |c.nodes|
    && (forall k {:trigger r.nodes[k]} :: 0 <= k < |c.nodes| ==> r.nodes[k].0 == c.nodes[k].0 && r.nodes[k].1.cpuCores == c.nodes[k].1.cpuCores)
    && (forall q :: q in r.pods <==> q in c.pods)
    && (forall q {:trigger r.pods[q]} :: q in c.pods ==> r.pods[q].cpuRequired == c.pods[q].cpuRequired)
    && r.podCounter == c.podCounter
    && r.lastHeartbeat == c.lastHeartbeat
  }

  /** The status the failure detector gives a node: failed exactly when its heartbeat timed out. */
  function DetectedStatus(c: Cluster, id: NodeId, now: int): Status
  {
    if TimedOut(c, id, now) then Failed else Healthy
  }

  /**
    Reschedule one evicted pod: the scan of lines 157-164 is the first-fit
    scan, so the pod goes to the first-fit node for its request, or stays
    unplaced with its record untouched.
   */
  function Relocate(c: Cluster, p: PodId): (r: Cluster)
    requires p in c.pods
    ensures SameSkeleton(c, r)
    ensures AllKnown(c) ==> AllKnown(r)
    ensures forall k {:trigger r.nodes[k]} :: 0 <= k < |c.nodes| ==> r.nodes[k].1.status == c.nodes[k].1.status
    ensures forall k {:trigger r.nodes[k]} :: 0 <= k < |c.nodes| && c.nodes[k].1.status == Failed ==> r.nodes[k] == c.nodes[k]
  {
    var cpu := c.pods[p].cpuRequired;
    match ScanFirstFit(c.nodes, cpu)
    case None => c
    case Some(j) => Place(c, j, p, cpu, c.podCounter)
  }

  /** Reschedule the evicted pods one after another, in list order. */
  function Reschedule(c: Cluster, ps: seq<PodId>): (r: Cluster)
    requires forall p :: p in ps ==> p in c.pods
    ensures SameSkeleton(c, r)
    ensures AllKnown(c) ==> AllKnown(r)
    ensures forall k {:trigger r.nodes[k]} :: 0 <= k < |c.nodes| ==> r.nodes[k].1.status == c.nodes[k].1.status
    ensures forall k {:trigger r.nodes[k]} :: 0 <= k < |c.nodes| && c.nodes[k].1.status == Failed ==> r.nodes[k] == c.nodes[k]
    decreases |ps|
  {
    if |ps| == 0 then c
    else Reschedule(Relocate(c, ps[0]), ps[1..])
  }

  /** Mark node `i` failed, empty its pod list and give back its whole capacity. */
  function Evict(c: Cluster, i: nat): (r: Cluster)
    requires i < |c.nodes|
    ensures |r.nodes| == |c.nodes| && r.nodes[i].0 == c.nodes[i].0
    ensures r.nodes[i].1 == Node(c.nodes[i].1.cpuCores, c.nodes[i].1.cpuCores, Failed, [])
    ensures forall k :: 0 <= k < |c.nodes| && k != i ==> r.nodes[k] == c.nodes[k]
    ensures r.pods == c.pods && r.podCounter == c.podCounter && r.lastHeartbeat == c.lastHeartbeat
  {
    var (id, n) := c.nodes[i];
    c.(nodes := c.nodes[i := (id, n.(status := Failed, pods := [], availableCpu := n.cpuCores))])
  }

  /** Lines 144-164: fail node `i`, then reschedule the pods it held, in list order. */
  function FailNode(c: Cluster, i: nat): (r: Cluster)
    requires i < |c.nodes| && AllKnown(c)
    ensures SameSkeleton(c, r)
    ensures r.nodes[i].1 == Node(c.nodes[i].1.cpuCores, c.nodes[i].1.cpuCores, Failed, [])
  {
    Reschedule(Evict(c, i), c.nodes[i].1.pods)
  }

  /** Line 173: node `i` is healthy again, with its pods and free CPU as they are. */
  function Recover(c: Cluster, i: nat): (r: Cluster)
    requires i < |c.nodes|
    ensures |r.nodes| == |c.nodes| && r.nodes[i].0 == c.nodes[i].0
    ensures r.nodes[i].1.status == Healthy
    ensures r.nodes[i].1.pods == c.nodes[i].1.pods && r.nodes[i].1.availableCpu == c.nodes[i].1.availableCpu
    ensures r.nodes[i].1.cpuCores == c.nodes[i].1.cpuCores
    ensures forall k :: 0 <= k < |c.nodes| && k != i ==> r.nodes[k] == c.nodes[k]
    ensures r.pods == c.pods && r.podCounter == c.podCounter && r.lastHeartbeat == c.lastHeartbeat
  {
    c.(nodes := c.nodes[i := (c.nodes[i].0, c.nodes[i].1.(status := Healthy))])
  }

  /** The loop body for node `i`: fail and evict, recover, or leave alone. */
  function Step(c: Cluster, now: int, i: nat): (r: Cluster)
    requires i < |c.nodes| && AllKnown(c)
    ensures SameSkeleton(c, r) && AllKnown(r)
    ensures r.nodes[i].1.status == DetectedStatus(c, c.nodes[i].0, now)
    ensures forall k {:trigger r.nodes[k]} :: 0 <= k < |c.nodes| && k != i ==> r.nodes[k].1.status == c.nodes[k].1.status
    ensures forall k {:trigger r.nodes[k]} :: 0 <= k < |c.nodes| && k != i && c.nodes[k].1.status == Failed ==> r.nodes[k] == c.nodes[k]
    ensures c.nodes[i].1.status == Failed && TimedOut(c, c.nodes[i].0, now) ==> r == c
    ensures c.nodes[i].1.status == Healthy && TimedOut(c, c.nodes[i].0, now) ==>
      r.nodes[i].1 == Node(c.nodes[i].1.cpuCores, c.nodes[i].1.cpuCores, Failed, [])
  {
    var id := c.nodes[i].0;
    var n := c.nodes[i].1;
    if n.status == Healthy && TimedOut(c, id, now) then
      FailNode(c, i)
    else if n.status == Failed && !TimedOut(c, id, now) then
      Recover(c, i)
    else
      assert n.status == DetectedStatus(c, id, now);
      c
  }

  /** The `for node_id in list(nodes.keys())` loop from node `i` on. */
  function TickFrom(c: Cluster, now: int, i: nat): (r: Cluster)
    requires i <= |c.nodes| && AllKnown(c)
    ensures SameSkeleton(c, r) && AllKnown(r)
    decreases |c.nodes| - i
  {
    if i == |c.nodes| then c
    else TickFrom(Step(c, now, i), now, i + 1)
  }

  /** One pass of the health monitor; `TickStatus` and `TickNodeOutcome` say where it leaves each node. */
  function Tick(c: Cluster, now: int): (r: Cluster)
    requires AllKnown(c)
    ensures SameSkeleton(c, r) && AllKnown(r)
  {
    TickFrom(c, now, 0)
  }

  // ----- invariant preservation -----

  lemma InvAllKnown(c: Cluster)
    requires Inv(c)
    ensures AllKnown(c)
  {
    forall i | 0 <= i < |c.nodes|
      ensures Known(c.pods, c.nodes[i].1)
    {
      assert Hosts(c.pods, c.nodes[i].0, c.nodes[i].1);
    }
  }

  /** Relocating a pod changes neither the listing nor the record of any other pod. */
  lemma RelocateFrame(c: Cluster, p: PodId)
    requires p in c.pods
    ensures forall q :: q != p ==> (Listed(Relocate(c, p).nodes, q) <==> Listed(c.nodes, q))
    ensures forall q :: q in c.pods && q != p ==> Relocate(c, p).pods[q] == c.pods[q]
    ensures !Listed(Relocate(c, p).nodes, p) ==> Relocate(c, p) == c
  {
    var cpu := c.pods[p].cpuRequired;
    var r := Relocate(c, p);
    match ScanFirstFit(c.nodes, cpu)
    case None =>
    case Some(j) =>
      assert p in r.nodes[j].1.pods;
      forall q | q != p
        ensures Listed(r.nodes, q) <==> Listed(c.nodes, q)
      {
        if Listed(c.nodes, q) {
          var i :| 0 <= i < |c.nodes| && q in c.nodes[i].1.pods;
          assert q in r.nodes[i].1.pods;
        }
        if Listed(r.nodes, q) {
          var i :| 0 <= i < |r.nodes| && q in r.nodes[i].1.pods;
          assert q in c.nodes[i].1.pods;
        }
      }
  }

  /**
    Where the rescheduling scan of lines 157-161 puts a pod: on the first
    healthy node with room, whose free CPU drops by the pod's request and
    whose list gains the pod at the end; the pod's record then names that
    node, and every other node is as it was.
   */
  lemma RelocateToFirstFit(c: Cluster, p: PodId, j: nat)
    requires p in c.pods && IsFirstFit(c.nodes, c.pods[p].cpuRequired, j)
    ensures var r := Relocate(c, p); var n := c.nodes[j].1;
      && r.nodes[j] == (c.nodes[j].0, n.(availableCpu := n.availableCpu - c.pods[p].cpuRequired, pods := n.pods + [p]))
      && r.pods == c.pods[p := c.pods[p].(assignedNode := c.nodes[j].0)]
      && (forall k :: 0 <= k < |c.nodes| && k != j ==> r.nodes[k] == c.nodes[k])
  {
    FirstFitChoice(c.nodes, c.pods[p].cpuRequired, j);
  }

  /** With no healthy node that has room for the pod, rescheduling it changes nothing (lines 166-167 only report). */
  lemma RelocateNowhere(c: Cluster, p: PodId)
    requires p in c.pods && NoneQualifies(c.nodes, c.pods[p].cpuRequired)
    ensures Relocate(c, p) == c
  {
  }

  /** Relocating an unlisted pod keeps the invariant. */
  lemma RelocatePreservesInv(c: Cluster, p: PodId)
    requires Inv(c) && p in c.pods && !Listed(c.nodes, p)
    ensures Inv(Relocate(c, p))
  {
    var cpu := c.pods[p].cpuRequired;
    match ScanFirstFit(c.nodes, cpu)
    case None =>
    case Some(j) =>
      assert Relocate(c, p) == Place(c, j, p, cpu, c.podCounter);
      PlacePreservesInv(c, j, p, cpu, c.podCounter);
  }

  /** Splitting a duplicate-free batch into its head and tail. */
  lemma NoDupTail(ps: seq<PodId>)
    requires |ps| > 0 && NoDup(ps)
    ensures NoDup(ps[1..])
    ensures forall q :: q in ps[1..] ==> q in ps && q != ps[0]
    ensures forall q :: q in ps ==> q == ps[0] || q in ps[1..]
  {
    var rest := ps[1..];
    forall q | q in rest
      ensures q in ps && q != ps[0]
    {
      var b :| 0 <= b < |rest| && rest[b] == q;
      assert ps[b + 1] == q;
    }
    forall q | q in ps
      ensures q == ps[0] || q in rest
    {
      var b :| 0 <= b < |ps| && ps[b] == q;
      if b > 0 {
        assert rest[b - 1] == q;
      }
    }
  }

  /** A batch of distinct pods that have records and that no node lists. */
  ghost predicate Evicted(c: Cluster, ps: seq<PodId>)
  {
    NoDup(ps) && forall p :: p in ps ==> p in c.pods && !Listed(c.nodes, p)
  }

  /** After relocating the head of an evicted batch, its tail is still an evicted batch. */
  lemma EvictedTail(c: Cluster, ps: seq<PodId>)
    requires Evicted(c, ps) && |ps| > 0
    ensures Evicted(Relocate(c, ps[0]), ps[1..])
    ensures Reschedule(c, ps) == Reschedule(Relocate(c, ps[0]), ps[1..])
  {
    NoDupTail(ps);
    RelocateFrame(c, ps[0]);
  }

  /** Rescheduling an evicted batch keeps the invariant. */
  lemma {:induction false} ReschedulePreservesInv(c: Cluster, ps: seq<PodId>)
    requires Inv(c) && Evicted(c, ps)
    ensures Inv(Reschedule(c, ps))
    decreases |ps|
  {
    if |ps| > 0 {
      RelocatePreservesInv(c, ps[0]);
      EvictedTail(c, ps);
      ReschedulePreservesInv(Relocate(c, ps[0]), ps[1..]);
    } else {
      assert Reschedule(c, ps) == c;
    }
  }

  /**
    Rescheduling an evicted batch leaves every other pod as it was, listing
    and record; a pod of the batch that found no node keeps its old record,
    so it still names the node it was evicted from.
   */
  lemma {:induction false} RescheduleFrame(c: Cluster, ps: seq<PodId>)
    requires Evicted(c, ps)
    ensures forall q :: q !in ps ==> (Listed(Reschedule(c, ps).nodes, q) <==> Listed(c.nodes, q))
    ensures forall q :: q in c.pods && q !in ps ==> Reschedule(c, ps).pods[q] == c.pods[q]
    ensures forall p :: p in ps && !Listed(Reschedule(c, ps).nodes, p) ==> Reschedule(c, ps).pods[p] == c.pods[p]
    decreases |ps|
  {
    if |ps| > 0 {
      var p := ps[0];
      var rest := ps[1..];
      var c1 := Relocate(c, p);
      RelocateFrame(c, p);
      EvictedTail(c, ps);
      NoDupTail(ps);
      RescheduleFrame(c1, rest);
      var r := Reschedule(c1, rest);
      forall q | q in ps && !Listed(r.nodes, q)
        ensures r.pods[q] == c.pods[q]
      {
        if q == p {
          assert p !in rest;
          assert c1 == c;
        } else {
          assert q in rest;
        }
      }
    } else {
      assert Reschedule(c, ps) == c;
    }
  }

  /** Evicting node `i` un-lists exactly the pods it held. */
  lemma EvictListing(c: Cluster, i: nat)
    requires Consistent(c) && i < |c.nodes|
    ensures forall q :: Listed(Evict(c, i).nodes, q) <==> Listed(c.nodes, q) && q !in c.nodes[i].1.pods
  {
    var r := Evict(c, i);
    var n := c.nodes[i].1;
    forall q
      ensures Listed(r.nodes, q) <==> Listed(c.nodes, q) && q !in n.pods
    {
      if Listed(c.nodes, q) && q !in n.pods {
        var k :| 0 <= k < |c.nodes| && q in c.nodes[k].1.pods;
        assert q in r.nodes[k].1.pods;
      }
      if Listed(r.nodes, q) {
        var k :| 0 <= k < |r.nodes| && q in r.nodes[k].1.pods;
        assert k != i && q in c.nodes[k].1.pods;
        ListedOnlyAtAssigned(c, q, k);
      }
    }
  }

  /** Evicting node `i` keeps the invariant and un-lists exactly the pods it held. */
  lemma EvictPreservesInv(c: Cluster, i: nat)
    requires Inv(c) && i < |c.nodes|
    ensures Inv(Evict(c, i))
    ensures forall q :: Listed(Evict(c, i).nodes, q) <==> Listed(c.nodes, q) && q !in c.nodes[i].1.pods
  {
    var n := c.nodes[i].1;
    InvBoundsAvailable(c, i);
    ReplaceNodeKeepsInv(c, i, n.(status := Failed, pods := [], availableCpu := n.cpuCores));
    EvictListing(c, i);
  }

  /** Failing a node and rescheduling its pods keeps the invariant. */
  lemma FailNodePreservesInv(c: Cluster, i: nat)
    requires Inv(c) && i < |c.nodes|
    ensures AllKnown(c)
    ensures Inv(FailNode(c, i))
  {
    InvAllKnown(c);
    var c1 := Evict(c, i);
    EvictPreservesInv(c, i);
    assert Hosts(c.pods, c.nodes[i].0, c.nodes[i].1);
    assert Evicted(c1, c.nodes[i].1.pods);
    ReschedulePreservesInv(c1, c.nodes[i].1.pods);
  }

  /**
    Failing a node: orphans stay orphans untouched, and a pod that becomes an
    orphan was on this node and keeps its record, so it still names it.
   */
  lemma FailNodeOrphans(c: Cluster, i: nat)
    requires Inv(c) && i < |c.nodes|
    ensures AllKnown(c)
    ensures forall q :: Orphan(c, q) ==> Orphan(FailNode(c, i), q) && FailNode(c, i).pods[q] == c.pods[q]
    ensures forall q :: q in c.pods && Listed(c.nodes, q) && !Listed(FailNode(c, i).nodes, q) ==>
      FailNode(c, i).pods[q] == c.pods[q] && c.pods[q].assignedNode == c.nodes[i].0
  {
    InvAllKnown(c);
    var n := c.nodes[i].1;
    var c1 := Evict(c, i);
    var r := FailNode(c, i);
    EvictPreservesInv(c, i);
    assert Hosts(c.pods, c.nodes[i].0, n);
    assert Evicted(c1, n.pods);
    RescheduleFrame(c1, n.pods);
    forall q | q in c.pods && Listed(c.nodes, q) && !Listed(r.nodes, q)
      ensures r.pods[q] == c.pods[q] && c.pods[q].assignedNode == c.nodes[i].0
    {
      assert q in n.pods;
    }
  }

  /** Recovering a node keeps every pod's listing. */
  lemma RecoverListing(c: Cluster, i: nat)
    requires i < |c.nodes|
    ensures forall q :: Listed(Recover(c, i).nodes, q) <==> Listed(c.nodes, q)
  {
    var r := Recover(c, i);
    forall q
      ensures Listed(r.nodes, q) <==> Listed(c.nodes, q)
    {
      if Listed(c.nodes, q) {
        var k :| 0 <= k < |c.nodes| && q in c.nodes[k].1.pods;
        assert q in r.nodes[k].1.pods;
      }
      if Listed(r.nodes, q) {
        var k :| 0 <= k < |r.nodes| && q in r.nodes[k].1.pods;
        assert q in c.nodes[k].1.pods;
      }
    }
  }

  /** Recovering a node keeps the invariant and every pod's listing. */
  lemma RecoverPreservesInv(c: Cluster, i: nat)
    requires Inv(c) && i < |c.nodes|
    ensures Inv(Recover(c, i))
    ensures forall q :: Listed(Recover(c, i).nodes, q) <==> Listed(c.nodes, q)
  {
    var n := c.nodes[i].1;
    assert Balanced(c.pods, n) && Hosts(c.pods, c.nodes[i].0, n);
    ReplaceNodeKeepsInv(c, i, n.(status := Healthy));
    RecoverListing(c, i);
  }

  /** One node's step keeps the invariant. */
  lemma StepPreservesInv(c: Cluster, now: int, i: nat)
    requires Inv(c) && i < |c.nodes|
    ensures AllKnown(c)
    ensures Inv(Step(c, now, i))
  {
    InvAllKnown(c);
    var n := c.nodes[i].1;
    if n.status == Healthy && TimedOut(c, c.nodes[i].0, now) {
      FailNodePreservesInv(c, i);
    } else if n.status == Failed && !TimedOut(c, c.nodes[i].0, now) {
      RecoverPreservesInv(c, i);
    }
  }

  /**
    One node's step: an orphan stays an orphan with its record untouched; a
    pod that becomes an orphan came from node `i`, which is now failed, and
    keeps its record (so it still names node `i`).
   */
  lemma StepOrphans(c: Cluster, now: int, i: nat)
    requires Inv(c) && i < |c.nodes|
    ensures AllKnown(c)
    ensures forall q :: Orphan(c, q) ==> Orphan(Step(c, now, i), q) && Step(c, now, i).pods[q] == c.pods[q]
    ensures forall q :: q in c.pods && Listed(c.nodes, q) && !Listed(Step(c, now, i).nodes, q) ==>
      && Step(c, now, i).pods[q] == c.pods[q]
      && c.pods[q].assignedNode == c.nodes[i].0
      && Step(c, now, i).nodes[i].1.status == Failed
  {
    InvAllKnown(c);
    var n := c.nodes[i].1;
    if n.status == Healthy && TimedOut(c, c.nodes[i].0, now) {
      FailNodeOrphans(c, i);
      assert Step(c, now, i).nodes[i].1.status == Failed;
    } else if n.status == Failed && !TimedOut(c, c.nodes[i].0, now) {
      RecoverPreservesInv(c, i);
    }
  }

  // ----- one node's step -----

  /**
    The per-node state machine. A healthy node that timed out becomes failed,
    empty, with its whole capacity free. A failed node with a fresh heartbeat
    becomes healthy with its pods and free CPU as they were, and nothing else
    changes. Any other node is left alone and so is the rest of the state.
   */
  lemma StepOutcome(c: Cluster, now: int, i: nat)
    requires AllKnown(c) && i < |c.nodes|
    ensures var n := c.nodes[i].1; var r := Step(c, now, i);
      && (n.status == Healthy && TimedOut(c, c.nodes[i].0, now) ==>
            r.nodes[i].1 == Node(n.cpuCores, n.cpuCores, Failed, []))
      && (n.status == Failed && !TimedOut(c, c.nodes[i].0, now) ==>
            && r.nodes[i].1 == n.(status := Healthy)
            && r.pods == c.pods
            && forall k :: 0 <= k < |c.nodes| && k != i ==> r.nodes[k] == c.nodes[k])
      && (n.status == DetectedStatus(c, c.nodes[i].0, now) ==> r == c)
  {
    var n := c.nodes[i].1;
    if n.status == Healthy && TimedOut(c, c.nodes[i].0, now) {
      var c1 := Evict(c, i);
      assert c1.nodes[i].1.status == Failed;
    }
  }

  // ----- a whole pass -----

  /** The pass from node `i` on keeps the invariant. */
  lemma {:induction false} TickFromPreservesInv(c: Cluster, now: int, i: nat)
    requires Inv(c) && i <= |c.nodes|
    ensures AllKnown(c)
    ensures Inv(TickFrom(c, now, i))
    decreases |c.nodes| - i
  {
    InvAllKnown(c);
    if i < |c.nodes| {
      StepPreservesInv(c, now, i);
      TickFromPreservesInv(Step(c, now, i), now, i + 1);
      assert TickFrom(c, now, i) == TickFrom(Step(c, now, i), now, i + 1);
    } else {
      assert TickFrom(c, now, i) == c;
    }
  }

  /** A failed node stays as it is for the rest of the pass once its own step is over. */
  lemma FailedAfterOwnStep(c: Cluster, now: int, i: nat)
    requires AllKnown(c) && i < |c.nodes|
    requires Step(c, now, i).nodes[i].1.status == Failed
    ensures TickFrom(c, now, i).nodes[i] == Step(c, now, i).nodes[i]
  {
    PassKeepsFailed(Step(c, now, i), now, i + 1, i);
    TickFromUnfold(c, now, i);
  }

  /** Every orphan of `c` is still an orphan in `r`, with the same record. */
  ghost predicate KeepsOrphans(c: Cluster, r: Cluster)
  {
    forall q :: Orphan(c, q) ==> Orphan(r, q) && r.pods[q] == c.pods[q]
  }

  /** The pass from node `i` is node `i`'s step followed by the pass from node `i + 1`. */
  lemma TickFromUnfold(c: Cluster, now: int, i: nat)
    requires AllKnown(c) && i < |c.nodes|
    ensures TickFrom(c, now, i) == TickFrom(Step(c, now, i), now, i + 1)
  {
  }

  /** One orphan stays an orphan, with its record untouched, across node `i`'s step. */
  lemma StepKeepsOrphan(c: Cluster, now: int, i: nat, q: PodId)
    requires Inv(c) && i < |c.nodes| && Orphan(c, q)
    ensures AllKnown(c)
    ensures Orphan(Step(c, now, i), q) && Step(c, now, i).pods[q] == c.pods[q]
  {
    StepOrphans(c, now, i);
  }

  /** One orphan stays an orphan, with its record untouched, across the pass from node `i` on. */
  lemma {:induction false} OrphanKeptByPass(c: Cluster, now: int, i: nat, q: PodId)
    requires Inv(c) && i <= |c.nodes| && Orphan(c, q)
    ensures AllKnown(c)
    ensures Orphan(TickFrom(c, now, i), q) && TickFrom(c, now, i).pods[q] == c.pods[q]
    decreases |c.nodes| - i
  {
    InvAllKnown(c);
    if i < |c.nodes| {
      StepPreservesInv(c, now, i);
      StepKeepsOrphan(c, now, i, q);
      OrphanKeptByPass(Step(c, now, i), now, i + 1, q);
      TickFromUnfold(c, now, i);
    } else {
      assert TickFrom(c, now, i) == c;
    }
  }

  /** The pass from node `i` on: orphans stay orphans with their records untouched. */
  lemma TickFromKeepsOrphans(c: Cluster, now: int, i: nat)
    requires Inv(c) && i <= |c.nodes|
    ensures AllKnown(c)
    ensures KeepsOrphans(c, TickFrom(c, now, i))
  {
    InvAllKnown(c);
    forall q | Orphan(c, q)
      ensures Orphan(TickFrom(c, now, i), q) && TickFrom(c, now, i).pods[q] == c.pods[q]
    {
      OrphanKeptByPass(c, now, i, q);
    }
  }

  /** A full pass keeps the invariant, and orphans stay orphans with their records untouched. */
  lemma TickPreservesInv(c: Cluster, now: int)
    requires Inv(c)
    ensures AllKnown(c)
    ensures Inv(Tick(c, now))
    ensures forall q :: Orphan(c, q) ==> Orphan(Tick(c, now), q) && Tick(c, now).pods[q] == c.pods[q]
  {
    TickFromPreservesInv(c, now, 0);
    TickFromKeepsOrphans(c, now, 0);
  }

  // ----- where a pass leaves each node -----

  /** Node `i`'s step: node `k`'s id and heartbeat verdict are kept, and its status is the detected one if `k == i`. */
  lemma StepStatusAt(c: Cluster, now: int, i: nat, k: nat)
    requires AllKnown(c) && i < |c.nodes| && k < |c.nodes|
    ensures var r := Step(c, now, i);
      && r.nodes[k].0 == c.nodes[k].0
      && (TimedOut(r, c.nodes[k].0, now) <==> TimedOut(c, c.nodes[k].0, now))
      && r.nodes[k].1.status == (if k == i then DetectedStatus(c, c.nodes[k].0, now) else c.nodes[k].1.status)
  {
  }

  /** After the pass from node `i`, a node before `i` has the status it had, and every later one has its detected status. */
  lemma {:induction false} PassStatus(c: Cluster, now: int, i: nat, k: nat)
    requires AllKnown(c) && i <= |c.nodes| && k < |c.nodes|
    ensures TickFrom(c, now, i).nodes[k].1.status == (if k < i then c.nodes[k].1.status else DetectedStatus(c, c.nodes[k].0, now))
    decreases |c.nodes| - i
  {
    if i < |c.nodes| {
      StepStatusAt(c, now, i, k);
      PassStatus(Step(c, now, i), now, i + 1, k);
      TickFromUnfold(c, now, i);
    } else {
      assert TickFrom(c, now, i) == c;
    }
  }

  /**
    Node `i`'s step leaves alone a failed node that is before `i` or still
    timed out, and it stays so for the rest of the pass.
   */
  lemma StepKeepsFailedAt(c: Cluster, now: int, i: nat, k: nat)
    requires AllKnown(c) && i < |c.nodes| && k < |c.nodes|
    requires c.nodes[k].1.status == Failed && (k < i || TimedOut(c, c.nodes[k].0, now))
    ensures Step(c, now, i).nodes[k] == c.nodes[k]
    ensures k < i + 1 || TimedOut(Step(c, now, i), c.nodes[k].0, now)
  {
  }

  /** The pass from node `i` leaves alone a failed node that is before `i` or still timed out. */
  lemma {:induction false} PassKeepsFailed(c: Cluster, now: int, i: nat, k: nat)
    requires AllKnown(c) && i <= |c.nodes| && k < |c.nodes|
    requires c.nodes[k].1.status == Failed && (k < i || TimedOut(c, c.nodes[k].0, now))
    ensures TickFrom(c, now, i).nodes[k] == c.nodes[k]
    decreases |c.nodes| - i
  {
    if i < |c.nodes| {
      StepKeepsFailedAt(c, now, i, k);
      PassKeepsFailed(Step(c, now, i), now, i + 1, k);
      TickFromUnfold(c, now, i);
    } else {
      assert TickFrom(c, now, i) == c;
    }
  }

  /** A node that fails at its own step keeps its emptied record to the end of the pass. */
  lemma EvictedAtOwnStep(c: Cluster, now: int, i: nat)
    requires AllKnown(c) && i < |c.nodes|
    requires c.nodes[i].1.status == Healthy && TimedOut(c, c.nodes[i].0, now)
    ensures TickFrom(c, now, i).nodes[i].1 == Node(c.nodes[i].1.cpuCores, c.nodes[i].1.cpuCores, Failed, [])
  {
    FailedAfterOwnStep(c, now, i);
  }

  /** A node that fails in the pass from node `i` ends it empty with its whole capacity free. */
  lemma {:induction false} PassEvicts(c: Cluster, now: int, i: nat, k: nat)
    requires AllKnown(c) && i <= k < |c.nodes|
    requires c.nodes[k].1.status == Healthy && TimedOut(c, c.nodes[k].0, now)
    ensures TickFrom(c, now, i).nodes[k].1 == Node(c.nodes[k].1.cpuCores, c.nodes[k].1.cpuCores, Failed, [])
    decreases |c.nodes| - i
  {
    if k == i {
      EvictedAtOwnStep(c, now, i);
    } else {
      var c1 := Step(c, now, i);
      TickFromUnfold(c, now, i);
      assert c1.nodes[k].0 == c.nodes[k].0 && c1.nodes[k].1.cpuCores == c.nodes[k].1.cpuCores;
      PassEvicts(c1, now, i + 1, k);
      assert TickFrom(c, now, i).nodes[k] == TickFrom(c1, now, i + 1).nodes[k];
    }
  }

  /**
    After a pass every node has the status its heartbeat dictates: the
    detector is level-triggered, so a node is failed after the pass exactly
    when its heartbeat has timed out.
   */
  lemma TickStatus(c: Cluster, now: int)
    requires AllKnown(c)
    ensures forall k :: 0 <= k < |c.nodes| ==> Tick(c, now).nodes[k].1.status == DetectedStatus(c, c.nodes[k].0, now)
  {
    forall k | 0 <= k < |c.nodes|
      ensures Tick(c, now).nodes[k].1.status == DetectedStatus(c, c.nodes[k].0, now)
    {
      PassStatus(c, now, 0, k);
    }
  }

  /**
    Where each node ends a pass: one that failed in it is empty with its
    whole capacity free (nothing is placed on a failed node), and one that
    was already failed and is still timed out is not touched at all.
   */
  lemma TickNodeOutcome(c: Cluster, now: int, k: nat)
    requires AllKnown(c) && k < |c.nodes|
    ensures var n := c.nodes[k].1; var r := Tick(c, now);
      && (n.status == Healthy && TimedOut(c, c.nodes[k].0, now) ==> r.nodes[k].1 == Node(n.cpuCores, n.cpuCores, Failed, []))
      && (n.status == Failed && TimedOut(c, c.nodes[k].0, now) ==> r.nodes[k] == c.nodes[k])
  {
    var n := c.nodes[k].1;
    if n.status == Healthy && TimedOut(c, c.nodes[k].0, now) {
      PassEvicts(c, now, 0, k);
    } else if n.status == Failed && TimedOut(c, c.nodes[k].0, now) {
      PassKeepsFailed(c, now, 0, k);
    }
  }

  // ----- failed nodes hold nothing -----

  /** One node's step keeps every failed node empty with its whole capacity free. */
  lemma StepKeepsFailedEmpty(c: Cluster, now: int, i: nat)
    requires AllKnown(c) && i < |c.nodes| && FailedEmpty(c)
    ensures FailedEmpty(Step(c, now, i))
  {
    if c.nodes[i].1.status == Healthy && TimedOut(c, c.nodes[i].0, now) {
      assert FailedEmpty(Evict(c, i));
    }
  }

  /**
    A failed node whose heartbeat is fresh again comes back healthy, empty and
    with all its cores free (line 173): the pods moved off it when it failed
    do not return.
   */
  lemma StepRecoversEmpty(c: Cluster, now: int, i: nat)
    requires AllKnown(c) && i < |c.nodes| && FailedEmpty(c)
    requires c.nodes[i].1.status == Failed && !TimedOut(c, c.nodes[i].0, now)
    ensures Step(c, now, i).nodes[i].1 == Node(c.nodes[i].1.cpuCores, c.nodes[i].1.cpuCores, Healthy, [])
  {
  }

  /** The pass from node `i` on keeps every failed node empty with its whole capacity free. */
  lemma {:induction false} TickFromKeepsFailedEmpty(c: Cluster, now: int, i: nat)
    requires AllKnown(c) && i <= |c.nodes| && FailedEmpty(c)
    ensures FailedEmpty(TickFrom(c, now, i))
    decreases |c.nodes| - i
  {
    if i < |c.nodes| {
      StepKeepsFailedEmpty(c, now, i);
      TickFromKeepsFailedEmpty(Step(c, now, i), now, i + 1);
      TickFromUnfold(c, now, i);
    } else {
      assert TickFrom(c, now, i) == c;
    }
  }

  /** A full pass keeps every failed node empty with its whole capacity free. */
  lemma TickKeepsFailedEmpty(c: Cluster, now: int)
    requires AllKnown(c) && FailedEmpty(c)
    ensures FailedEmpty(Tick(c, now))
  {
    TickFromKeepsFailedEmpty(c, now, 0);
  }
}
