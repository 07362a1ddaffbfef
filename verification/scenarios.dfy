/** Concrete runs of the model: the placement example and the failure/recovery cycle. */
module Scenarios {
  import opened Wrappers
  import opened ClusterState
  import opened Scheduler
  import opened Registry
  import opened HealthMonitor

  /** Nodes A (4 cores) and B (2 cores), registered in that order, all free and healthy. */
  const AB: seq<(NodeId, Node)> := [("A", Node(4, 4, Healthy, [])), ("B", Node(2, 2, Healthy, []))]

  /** Best-fit for 2 CPUs takes B (leftover 0) over A (leftover 2); first-fit takes A. */
  lemma BestFitPrefersTighterNode()
    ensures SchedulePod(AB, 2, "best-fit") == Some("B")
    ensures SchedulePod(AB, 2, "first-fit") == Some("A")
    ensures SchedulePod(AB, 2, "round-robin") == None
    ensures SchedulePod(AB, 5, "best-fit") == None
  {
    assert TightestAmong(AB, 2, 1, 2);
    BestFitChoice(AB, 2, 1);
    assert IsFirstFit(AB, 2, 0);
    FirstFitChoice(AB, 2, 0);
  }

  /** With A at 2 free and B at 0 free, worst-fit for 2 CPUs takes A. */
  lemma WorstFitPrefersLooserNode()
    ensures SchedulePod([("A", Node(4, 2, Healthy, [])), ("B", Node(2, 0, Healthy, []))], 2, "worst-fit") == Some("A")
  {
    var nodes := [("A", Node(4, 2, Healthy, [])), ("B", Node(2, 0, Healthy, []))];
    assert LoosestAmong(nodes, 2, 0, 2);
    WorstFitChoice(nodes, 2, 0);
  }

  /** Two nodes with the same leftover: best-fit and worst-fit both take the one registered first. */
  lemma TiesGoToEarlierNode()
    ensures SchedulePod([("A", Node(4, 3, Healthy, [])), ("B", Node(8, 3, Healthy, []))], 1, "best-fit") == Some("A")
    ensures SchedulePod([("A", Node(4, 3, Healthy, [])), ("B", Node(8, 3, Healthy, []))], 1, "worst-fit") == Some("A")
  {
    var nodes := [("A", Node(4, 3, Healthy, [])), ("B", Node(8, 3, Healthy, []))];
    assert TightestAmong(nodes, 1, 0, 2);
    BestFitChoice(nodes, 1, 0);
    assert LoosestAmong(nodes, 1, 0, 2);
    WorstFitChoice(nodes, 1, 0);
  }

  /** Node A (4 cores) registered at time 0 with pod `pod_0` of 2 CPUs on it. */
  const Loaded: Cluster :=
    Cluster([("A", Node(4, 2, Healthy, [PodId(0)]))], map[PodId(0) := Pod(2, "A")], 1, map["A" := 0])

  lemma LoadedByLaunch()
    ensures LaunchPod(Cluster([("A", Node(4, 4, Healthy, []))], map[], 0, map["A" := 0]), Some(2), None)
      == Success(Launched(Loaded, PodId(0), "A"))
  {
    var c := Cluster([("A", Node(4, 4, Healthy, []))], map[], 0, map["A" := 0]);
    assert IsFirstFit(c.nodes, 2, 0);
    FirstFitChoice(c.nodes, 2, 0);
    assert [] + [PodId(0)] == [PodId(0)];
    assert Place(c, 0, PodId(0), 2, 1) == Loaded;
  }

  /**
    No heartbeat for more than the timeout: at time 21 A fails, is emptied,
    and its pod, with no other node to go to, is orphaned while still naming A.
   */
  lemma FailureOrphansPod()
    ensures Tick(Loaded, 21).nodes == [("A", Node(4, 4, Failed, []))]
    ensures Tick(Loaded, 21).pods == map[PodId(0) := Pod(2, "A")]
  {
    var c1 := Evict(Loaded, 0);
    assert NoneQualifies(c1.nodes, 2);
    assert Relocate(c1, PodId(0)) == c1;
    assert Reschedule(c1, [PodId(0)]) == c1;
    assert Step(Loaded, 21, 0) == c1;
    assert Tick(Loaded, 21) == TickFrom(c1, 21, 1);
  }

  /** A fresh heartbeat at time 30 and a pass at 31: A recovers, empty, with all 4 cores free. */
  lemma RecoveryStartsEmpty()
    ensures Heartbeat(Tick(Loaded, 21), "A", 30).Success?
    ensures Tick(Heartbeat(Tick(Loaded, 21), "A", 30).value, 31).nodes == [("A", Node(4, 4, Healthy, []))]
  {
    FailureOrphansPod();
    var c := Tick(Loaded, 21);
    assert c.nodes[0].0 == "A";
    var h := Heartbeat(c, "A", 30).value;
    assert !TimedOut(h, "A", 31);
    var r := Step(h, 31, 0);
    assert r.nodes == [("A", Node(4, 4, Healthy, []))];
    assert Tick(h, 31) == TickFrom(r, 31, 1) == r;
  }

  /** A (4 cores, heartbeat at 0) holding `pod_0` of 2 CPUs, and B (4 cores, heartbeat at 15), free. */
  const TwoNodes: Cluster :=
    Cluster([("A", Node(4, 2, Healthy, [PodId(0)])), ("B", Node(4, 4, Healthy, []))],
            map[PodId(0) := Pod(2, "A")], 1, map["A" := 0, "B" := 15])

  /** `TwoNodes` after A has failed and `pod_0` has moved to B. */
  const MovedToB: Cluster :=
    Cluster([("A", Node(4, 4, Failed, [])), ("B", Node(4, 2, Healthy, [PodId(0)]))],
            map[PodId(0) := Pod(2, "B")], 1, map["A" := 0, "B" := 15])

  /**
    The same failure with a second node B: at time 21 A fails, the evicted
    pod moves to B, whose free CPU drops by 2, and now names B.
   */
  lemma FailureMovesPod()
    ensures Tick(TwoNodes, 21).nodes == [("A", Node(4, 4, Failed, [])), ("B", Node(4, 2, Healthy, [PodId(0)]))]
    ensures Tick(TwoNodes, 21).pods == map[PodId(0) := Pod(2, "B")]
  {
    FailureMovesPodFirstStep();
    assert !TimedOut(MovedToB, "B", 21);
    assert Step(MovedToB, 21, 1) == MovedToB;
    assert Tick(TwoNodes, 21) == TickFrom(MovedToB, 21, 1) == TickFrom(MovedToB, 21, 2) == MovedToB;
  }

  /** Node A's step in that scenario: A is emptied and its pod is placed on B. */
  lemma FailureMovesPodFirstStep()
    ensures Step(TwoNodes, 21, 0) == MovedToB
  {
    var c1 := Evict(TwoNodes, 0);
    assert IsFirstFit(c1.nodes, 2, 1);
    RelocateToFirstFit(c1, PodId(0), 1);
    assert [] + [PodId(0)] == [PodId(0)];
    assert Relocate(c1, PodId(0)) == MovedToB;
    assert Reschedule(c1, [PodId(0)]) == MovedToB;
  }
}
