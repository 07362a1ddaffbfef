/**
  `schedule_pod`: choose a node for a request of `cpu` under one of three
  placement strategies, scanning the nodes in registration order. Each scan
  is written as the source's loop (a running best carried left to right)
  and proved against a declarative description of the node it should pick.
 */
module Scheduler {
  import opened Wrappers
  import opened ClusterState

  datatype Strategy = FirstFit | BestFit | WorstFit

  /** Strategy names are compared as strings; anything else is unknown. */
  function ParseStrategy(name: string): (r: Option<Strategy>)
    ensures r == Some(FirstFit) <==> name == "first-fit"
    ensures r == Some(BestFit) <==> name == "best-fit"
    ensures r == Some(WorstFit) <==> name == "worst-fit"
  {
    if name == "first-fit" then Some(FirstFit)
    else if name == "best-fit" then Some(BestFit)
    else if name == "worst-fit" then Some(WorstFit)
    else None
  }

  /** The filter all strategies share: healthy, with enough free CPU. */
  predicate Qualifies(n: Node, cpu: int)
  {
    n.status == Healthy && n.availableCpu >= cpu
  }

  ghost predicate NoneQualifies(nodes: seq<(NodeId, Node)>, cpu: int)
  {
    forall j :: 0 <= j < |nodes| ==> !Qualifies(nodes[j].1, cpu)
  }

  // ----- first-fit -----

  /** `i` is the earliest qualifying node. */
  ghost predicate IsFirstFit(nodes: seq<(NodeId, Node)>, cpu: int, i: nat)
  {
    i < |nodes| && Qualifies(nodes[i].1, cpu) && forall j :: 0 <= j < i ==> !Qualifies(nodes[j].1, cpu)
  }

  function FirstFitFrom(nodes: seq<(NodeId, Node)>, cpu: int, k: nat): (r: Option<nat>)
    requires k <= |nodes|
    requires forall j :: 0 <= j < k ==> !Qualifies(nodes[j].1, cpu)
    ensures r.Some? ==> IsFirstFit(nodes, cpu, r.value)
    ensures r.None? ==> NoneQualifies(nodes, cpu)
    decreases |nodes| - k
  {
    if k == |nodes| then None
    else if Qualifies(nodes[k].1, cpu) then Some(k)
    else FirstFitFrom(nodes, cpu, k + 1)
  }

  /** The first-fit loop: return the first qualifying node. */
  function ScanFirstFit(nodes: seq<(NodeId, Node)>, cpu: int): (r: Option<nat>)
    ensures r.Some? ==> IsFirstFit(nodes, cpu, r.value)
    ensures r.None? <==> NoneQualifies(nodes, cpu)
  {
    FirstFitFrom(nodes, cpu, 0)
  }

  // ----- best-fit -----

  /** Free CPU left on `n` after placing `cpu` on it. */
  function Leftover(n: Node, cpu: int): int
  {
    n.availableCpu - cpu
  }

  /**
    Among the first `k` nodes, `i` qualifies with the least leftover, and no
    earlier qualifying node has that same leftover.
   */
  ghost predicate TightestAmong(nodes: seq<(NodeId, Node)>, cpu: int, i: nat, k: nat)
  {
    && i < k <= |nodes|
    && Qualifies(nodes[i].1, cpu)
    && (forall j :: 0 <= j < k && Qualifies(nodes[j].1, cpu) ==> Leftover(nodes[i].1, cpu) <= Leftover(nodes[j].1, cpu))
    && (forall j :: 0 <= j < i && Qualifies(nodes[j].1, cpu) ==> Leftover(nodes[i].1, cpu) < Leftover(nodes[j].1, cpu))
  }

  /** The best-fit loop from node `k` on; `best` is the running choice (None plays `float('inf')`). */
  function BestFitFrom(nodes: seq<(NodeId, Node)>, cpu: int, k: nat, best: Option<nat>): (r: Option<nat>)
    requires k <= |nodes|
    requires best.Some? ==> TightestAmong(nodes, cpu, best.value, k)
    requires best.None? ==> forall j :: 0 <= j < k ==> !Qualifies(nodes[j].1, cpu)
    ensures r.Some? ==> TightestAmong(nodes, cpu, r.value, |nodes|)
    ensures r.None? ==> NoneQualifies(nodes, cpu)
    decreases |nodes| - k
  {
    if k == |nodes| then best
    else if Qualifies(nodes[k].1, cpu) && (best.None? || Leftover(nodes[k].1, cpu) < Leftover(nodes[best.value].1, cpu)) then
      BestFitFrom(nodes, cpu, k + 1, Some(k))
    else
      BestFitFrom(nodes, cpu, k + 1, best)
  }

  function ScanBestFit(nodes: seq<(NodeId, Node)>, cpu: int): (r: Option<nat>)
    ensures r.Some? ==> TightestAmong(nodes, cpu, r.value, |nodes|)
    ensures r.None? <==> NoneQualifies(nodes, cpu)
  {
    BestFitFrom(nodes, cpu, 0, None)
  }

  // ----- worst-fit -----

  /**
    Among the first `k` nodes, `i` qualifies with the most free CPU, and no
    earlier qualifying node has that much. The running maximum starts at -1,
    so the chosen node also has non-negative free CPU.
   */
  ghost predicate LoosestAmong(nodes: seq<(NodeId, Node)>, cpu: int, i: nat, k: nat)
  {
    && i < k <= |nodes|
    && Qualifies(nodes[i].1, cpu)
    && nodes[i].1.availableCpu >= 0
    && (forall j :: 0 <= j < k && Qualifies(nodes[j].1, cpu) ==> nodes[j].1.availableCpu <= nodes[i].1.availableCpu)
    && (forall j :: 0 <= j < i && Qualifies(nodes[j].1, cpu) ==> nodes[j].1.availableCpu < nodes[i].1.availableCpu)
  }

  /** The worst-fit loop from node `k` on, with the source's integer sentinel `max_available = -1`. */
  function WorstFitFrom(nodes: seq<(NodeId, Node)>, cpu: int, k: nat, maxAvailable: int, selected: Option<nat>): (r: Option<nat>)
    requires k <= |nodes|
    requires selected.Some? ==>
      LoosestAmong(nodes, cpu, selected.value, k) && maxAvailable == nodes[selected.value].1.availableCpu
    requires selected.None? ==>
      maxAvailable == -1 && forall j :: 0 <= j < k && Qualifies(nodes[j].1, cpu) ==> nodes[j].1.availableCpu < 0
    ensures r.Some? ==> LoosestAmong(nodes, cpu, r.value, |nodes|)
    ensures r.None? ==> forall j :: 0 <= j < |nodes| && Qualifies(nodes[j].1, cpu) ==> nodes[j].1.availableCpu < 0
    decreases |nodes| - k
  {
    if k == |nodes| then selected
    else if Qualifies(nodes[k].1, cpu) && nodes[k].1.availableCpu > maxAvailable then
      WorstFitFrom(nodes, cpu, k + 1, nodes[k].1.availableCpu, Some(k))
    else
      WorstFitFrom(nodes, cpu, k + 1, maxAvailable, selected)
  }

  function ScanWorstFit(nodes: seq<(NodeId, Node)>, cpu: int): (r: Option<nat>)
    ensures r.Some? ==> LoosestAmong(nodes, cpu, r.value, |nodes|)
    ensures r.None? ==> forall j :: 0 <= j < |nodes| && Qualifies(nodes[j].1, cpu) ==> nodes[j].1.availableCpu < 0
  {
    WorstFitFrom(nodes, cpu, 0, -1, None)
  }

  // ----- schedule_pod -----

  /** The index of the node `schedule_pod` picks. */
  function ScheduleIndex(nodes: seq<(NodeId, Node)>, cpu: int, name: string): (r: Option<nat>)
    ensures r.Some? ==> r.value < |nodes| && Qualifies(nodes[r.value].1, cpu)
    ensures ParseStrategy(name).None? ==> r.None?
    ensures r.None? && ParseStrategy(name).Some? && (name != "worst-fit" || cpu >= 0) ==> NoneQualifies(nodes, cpu)
    ensures r.None? && name == "worst-fit" ==>
      forall j :: 0 <= j < |nodes| && Qualifies(nodes[j].1, cpu) ==> nodes[j].1.availableCpu < 0
  {
    match ParseStrategy(name)
    case None => None
    case Some(FirstFit) => ScanFirstFit(nodes, cpu)
    case Some(BestFit) => ScanBestFit(nodes, cpu)
    case Some(WorstFit) => ScanWorstFit(nodes, cpu)
  }

  /**
    `schedule_pod(cpu_required, strategy)`: the id of a healthy node with
    enough free CPU, or None for an unknown strategy or when no node
    qualifies. Being a function of the node list, it changes nothing.
   */
  function SchedulePod(nodes: seq<(NodeId, Node)>, cpu: int, name: string): (r: Option<NodeId>)
    ensures r.Some? ==> exists i :: 0 <= i < |nodes| && nodes[i].0 == r.value && Qualifies(nodes[i].1, cpu)
    ensures ParseStrategy(name).None? ==> r.None?
    ensures ParseStrategy(name).Some? && (name != "worst-fit" || cpu >= 0) ==> (r.None? <==> NoneQualifies(nodes, cpu))
    ensures r.None? && name == "worst-fit" ==>
      forall j :: 0 <= j < |nodes| && Qualifies(nodes[j].1, cpu) ==> nodes[j].1.availableCpu < 0
  {
    match ScheduleIndex(nodes, cpu, name)
    case None => None
    case Some(i) => Some(nodes[i].0)
  }

  // ----- the scans pick exactly the node their description names -----

  lemma FirstFitChoice(nodes: seq<(NodeId, Node)>, cpu: int, i: nat)
    ensures ScanFirstFit(nodes, cpu) == Some(i) <==> IsFirstFit(nodes, cpu, i)
  {
  }

  /** Best-fit picks the qualifying node of least leftover, the earliest one on a tie. */
  lemma BestFitChoice(nodes: seq<(NodeId, Node)>, cpu: int, i: nat)
    ensures ScanBestFit(nodes, cpu) == Some(i) <==> TightestAmong(nodes, cpu, i, |nodes|)
  {
  }

  /** Worst-fit picks the qualifying node of most free CPU, the earliest one on a tie. */
  lemma WorstFitChoice(nodes: seq<(NodeId, Node)>, cpu: int, i: nat)
    ensures ScanWorstFit(nodes, cpu) == Some(i) <==> LoosestAmong(nodes, cpu, i, |nodes|)
  {
  }

  /** For a non-negative request the -1 sentinel never decides: worst-fit fails only when no node qualifies. */
  lemma WorstFitSentinelHarmless(nodes: seq<(NodeId, Node)>, cpu: int)
    requires cpu >= 0
    ensures ScanWorstFit(nodes, cpu).None? <==> NoneQualifies(nodes, cpu)
  {
  }
}
