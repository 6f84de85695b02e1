/** Requests and limits seen from the nodes and seen from the containers. Quantities are integers. */
module NodeView {

  /** Requests or limits of a container; a resource it does not name is absent. */
  type ResourceList = map<string, int>

  datatype Container = Container(name: string, requests: ResourceList, limits: ResourceList)

  datatype Pod = Pod(namespaceName: string, name: string, nodeName: string, phase: string, containers: seq<Container>)

  /** Which of the two lists is added up. */
  datatype Source = Requests | Limits

  /** The series of a container. */
  datatype ContainerKey = ContainerKey(
    namespaceName: string, podName: string, containerName: string, nodeName: string)

  predicate Completed(p: Pod) {
    p.phase == "Succeeded" || p.phase == "Failed"
  }

  function ListOf(src: Source, c: Container): ResourceList {
    match src case Requests => c.requests case Limits => c.limits
  }

  /** The quantity of a resource, zero when absent. */
  function Quantity(l: ResourceList, resource: string): int {
    if resource in l then l[resource] else 0
  }

  // ---------------------------------------------------------------- specification

  /** What the containers of a list add up to. */
  function Containers(src: Source, resource: string, cs: seq<Container>): int {
    if cs == [] then 0
    else Containers(src, resource, cs[..|cs| - 1]) + Quantity(ListOf(src, cs[|cs| - 1]), resource)
  }

  /** What a pod counts for. */
  function PodTotal(src: Source, resource: string, p: Pod): int {
    if Completed(p) then 0 else Containers(src, resource, p.containers)
  }

  /** What the pods on the given nodes count for. */
  function PodsOn(src: Source, resource: string, pods: seq<Pod>, nodes: set<string>): int {
    if pods == [] then 0
    else
      var p := pods[|pods| - 1];
      PodsOn(src, resource, pods[..|pods| - 1], nodes) + if p.nodeName in nodes then PodTotal(src, resource, p) else 0
  }

  /** The pods placed on one node, in list order. */
  function Placed(pods: seq<Pod>, node: string): seq<Pod> {
    if pods == [] then []
    else
      var p := pods[|pods| - 1];
      Placed(pods[..|pods| - 1], node) + if p.nodeName == node then [p] else []
  }

  /** The sum of all values of a metric. */
  ghost function Total<K>(m: map<K, int>): int
    decreases |m|
  {
    if |m| == 0 then 0
    else
      var k :| k in m;
      m[k] + Total(m - {k})
  }

  lemma {:induction false} TotalRemove<K>(m: map<K, int>, k: K)
    requires k in m
    ensures Total(m) == m[k] + Total(m - {k})
    decreases |m|
  {
    var k0 := FirstSummed(m);
    if k0 != k {
      var m0, m1 := m - {k0}, m - {k};
      TotalRemove(m0, k);
      TotalRemove(m1, k0);
      assert m0 - {k} == m1 - {k0};
      assert m0[k] == m[k] && m1[k0] == m[k0];
    }
  }

  lemma FirstSummed<K>(m: map<K, int>) returns (k: K)
    requires |m| > 0
    ensures k in m && Total(m) == m[k] + Total(m - {k})
  {
    k :| k in m && Total(m) == m[k] + Total(m - {k});
  }

  lemma TotalAdd<K>(m: map<K, int>, k: K, v: int)
    requires k !in m
    ensures Total(m[k := v]) == Total(m) + v
  {
    TotalRemove(m[k := v], k);
    assert m[k := v] - {k} == m;
  }

  // ---------------------------------------------------------------- the node side

  /** The pods indexed under a node, none if it has no entry. */
  function PodsOf(byNode: map<string, seq<Pod>>, n: string): seq<Pod> {
    if n in byNode then byNode[n] else []
  }

  /** The pods of a list and one more. */
  lemma PlacedGrows(pods: seq<Pod>, p: Pod, node: string)
    ensures Placed(pods + [p], node) == Placed(pods, node) + if p.nodeName == node then [p] else []
  {
    assert (pods + [p])[..|pods|] == pods;
  }

  /** Each node's entry holds exactly the pods placed on it, in list order. */
  ghost predicate IndexedByNode(byNode: map<string, seq<Pod>>, pods: seq<Pod>) {
    forall n :: PodsOf(byNode, n) == Placed(pods, n)
  }

  lemma IndexGrows(byNode: map<string, seq<Pod>>, pods: seq<Pod>, p: Pod)
    requires IndexedByNode(byNode, pods)
    ensures IndexedByNode(byNode[p.nodeName := PodsOf(byNode, p.nodeName) + [p]], pods + [p])
  {
    var after := byNode[p.nodeName := PodsOf(byNode, p.nodeName) + [p]];
    forall n ensures PodsOf(after, n) == Placed(pods + [p], n) {
      PlacedGrows(pods, p, n);
      assert PodsOf(byNode, n) == Placed(pods, n);
    }
  }

  /** Indexes the pods by the node they are placed on. */
  method IndexPods(pods: seq<Pod>) returns (byNode: map<string, seq<Pod>>)
    ensures IndexedByNode(byNode, pods)
  {
    byNode := map[];
    for i := 0 to |pods|
      invariant IndexedByNode(byNode, pods[..i])
    {
      var p := pods[i];
      IndexGrows(byNode, pods[..i], p);
      assert pods[..i + 1] == pods[..i] + [p];
      byNode := byNode[p.nodeName := PodsOf(byNode, p.nodeName) + [p]];
    }
    assert pods[..|pods|] == pods;
  }

  /** Adds up the requests or limits of the pods of one node, skipping completed pods. */
  method NodeRequestsLimits(src: Source, resource: string, pods: seq<Pod>) returns (total: int)
    ensures total == SumPods(src, resource, pods)
  {
    total := 0;
    for i := 0 to |pods|
      invariant total == SumPods(src, resource, pods[..i])
    {
      assert pods[..i + 1][..i] == pods[..i];
      if Completed(pods[i]) {
        continue;
      }
      var cs := pods[i].containers;
      ghost var before := total;
      for j := 0 to |cs|
        invariant total == before + Containers(src, resource, cs[..j])
      {
        assert cs[..j + 1][..j] == cs[..j];
        total := total + Quantity(ListOf(src, cs[j]), resource);
      }
      assert cs[..|cs|] == cs;
    }
    assert pods[..|pods|] == pods;
  }

  function SumPods(src: Source, resource: string, pods: seq<Pod>): int {
    if pods == [] then 0
    else SumPods(src, resource, pods[..|pods| - 1]) + PodTotal(src, resource, pods[|pods| - 1])
  }

  lemma {:induction false} SumOfPlaced(src: Source, resource: string, pods: seq<Pod>, node: string)
    ensures SumPods(src, resource, Placed(pods, node)) == PodsOn(src, resource, pods, {node})
  {
    if pods != [] {
      var n := |pods| - 1;
      SumOfPlaced(src, resource, pods[..n], node);
      var placed := Placed(pods, node);
      if pods[n].nodeName == node {
        assert placed[..|placed| - 1] == Placed(pods[..n], node);
      } else {
        assert placed == Placed(pods[..n], node);
      }
    }
  }

  /** Disjoint sets of nodes count separately. */
  lemma {:induction false} PodsOnSplit(src: Source, resource: string, pods: seq<Pod>, nodes: set<string>, node: string)
    requires node !in nodes
    ensures PodsOn(src, resource, pods, nodes + {node}) ==
            PodsOn(src, resource, pods, nodes) + PodsOn(src, resource, pods, {node})
  {
    if pods != [] {
      PodsOnSplit(src, resource, pods[..|pods| - 1], nodes, node);
    }
  }

  predicate Distinct(names: seq<string>) {
    forall i, j :: 0 <= i < j < |names| ==> names[i] != names[j]
  }

  /** The node metric: for each listed node what its pods add up to. */
  function NodeMetric(src: Source, resource: string, nodes: seq<string>, pods: seq<Pod>): map<string, int> {
    map n | n in nodes :: SumPods(src, resource, Placed(pods, n))
  }

  lemma NodeMetricGrows(src: Source, resource: string, nodes: seq<string>, n: string, pods: seq<Pod>)
    ensures NodeMetric(src, resource, nodes + [n], pods) ==
            NodeMetric(src, resource, nodes, pods)[n := SumPods(src, resource, Placed(pods, n))]
    ensures Names(nodes + [n]) == Names(nodes) + {n}
  {
  }

  method CollectNodes(src: Source, resource: string, nodes: seq<string>, pods: seq<Pod>)
      returns (metric: map<string, int>)
    ensures metric == NodeMetric(src, resource, nodes, pods)
  {
    var byNode := IndexPods(pods);
    metric := map[];
    for i := 0 to |nodes|
      invariant metric == NodeMetric(src, resource, nodes[..i], pods)
    {
      var n := nodes[i];
      var total := NodeRequestsLimits(src, resource, PodsOf(byNode, n));
      assert nodes[..i + 1] == nodes[..i] + [n];
      NodeMetricGrows(src, resource, nodes[..i], n, pods);
      metric := metric[n := total];
    }
    assert nodes[..|nodes|] == nodes;
  }

  lemma {:induction false} NoNodes(src: Source, resource: string, pods: seq<Pod>)
    ensures PodsOn(src, resource, pods, {}) == 0
  {
    if pods != [] {
      NoNodes(src, resource, pods[..|pods| - 1]);
    }
  }

  function Names(nodes: seq<string>): set<string> {
    set n | n in nodes
  }

  /** The node metric adds up to what the pods on the listed nodes count for. */
  lemma {:induction false} NodeTotal(src: Source, resource: string, nodes: seq<string>, pods: seq<Pod>)
    requires Distinct(nodes)
    ensures Total(NodeMetric(src, resource, nodes, pods)) == PodsOn(src, resource, pods, Names(nodes))
  {
    if nodes == [] {
      assert Names(nodes) == {};
      NoNodes(src, resource, pods);
    } else {
      var i := |nodes| - 1;
      var n, before := nodes[i], nodes[..i];
      assert nodes == before + [n];
      NodeTotal(src, resource, before, pods);
      SumOfPlaced(src, resource, pods, n);
      var m := NodeMetric(src, resource, before, pods);
      var total := SumPods(src, resource, Placed(pods, n));
      NodeMetricGrows(src, resource, before, n, pods);
      TotalAdd(m, n, total);
      PodsOnSplit(src, resource, pods, Names(before), n);
    }
  }

  // ---------------------------------------------------------------- the container side

  function KeyOf(p: Pod, c: Container): ContainerKey {
    ContainerKey(p.namespaceName, p.name, c.name, p.nodeName)
  }

  /** Pods have distinct names in their namespace, and containers in their pod. */
  predicate DistinctObjects(pods: seq<Pod>) {
    && (forall i, j :: 0 <= i < j < |pods| ==>
          pods[i].namespaceName != pods[j].namespaceName || pods[i].name != pods[j].name)
    && (forall i :: 0 <= i < |pods| ==> DistinctContainers(pods[i].containers))
  }

  predicate DistinctContainers(cs: seq<Container>) {
    forall i, j :: 0 <= i < j < |cs| ==> cs[i].name != cs[j].name
  }

  type ContainerMetric = map<ContainerKey, int>

  /** `m` with the series of some containers of pod `p`; a container that does not name the resource has none. */
  function AddContainers(src: Source, resource: string, p: Pod, cs: seq<Container>, m: ContainerMetric): ContainerMetric {
    if cs == [] then m
    else
      var n := |cs| - 1;
      var m' := AddContainers(src, resource, p, cs[..n], m);
      var l := ListOf(src, cs[n]);
      if resource in l then m'[KeyOf(p, cs[n]) := l[resource]] else m'
  }

  /** The container metric: the containers of all pods that are not completed. */
  function AllContainers(src: Source, resource: string, pods: seq<Pod>): ContainerMetric {
    if pods == [] then map[]
    else
      var p := pods[|pods| - 1];
      var m := AllContainers(src, resource, pods[..|pods| - 1]);
      if Completed(p) then m else AddContainers(src, resource, p, p.containers, m)
  }

  method CollectContainers(src: Source, resource: string, pods: seq<Pod>) returns (metric: ContainerMetric)
    ensures metric == AllContainers(src, resource, pods)
  {
    metric := map[];
    for i := 0 to |pods|
      invariant metric == AllContainers(src, resource, pods[..i])
    {
      assert pods[..i + 1][..i] == pods[..i];
      var p := pods[i];
      ghost var before := metric;
      for j := 0 to |p.containers|
        invariant metric == if Completed(p) then before else AddContainers(src, resource, p, p.containers[..j], before)
      {
        assert p.containers[..j + 1][..j] == p.containers[..j];
        if !Completed(p) {
          var l := ListOf(src, p.containers[j]);
          if resource in l {
            metric := metric[KeyOf(p, p.containers[j]) := l[resource]];
          }
        }
      }
      assert p.containers[..|p.containers|] == p.containers;
    }
    assert pods[..|pods|] == pods;
  }

  /** The series whose node label is one of `nodes`. */
  function OnNodes(m: ContainerMetric, nodes: set<string>): ContainerMetric {
    map k | k in m && k.nodeName in nodes :: m[k]
  }

  lemma OnNodesAdd(m: ContainerMetric, nodes: set<string>, k: ContainerKey, v: int)
    requires k !in m
    ensures Total(OnNodes(m[k := v], nodes)) == Total(OnNodes(m, nodes)) + if k.nodeName in nodes then v else 0
  {
    if k.nodeName in nodes {
      assert OnNodes(m[k := v], nodes) == OnNodes(m, nodes)[k := v];
      TotalAdd(OnNodes(m, nodes), k, v);
    } else {
      assert OnNodes(m[k := v], nodes) == OnNodes(m, nodes);
    }
  }

  /** No series of `m` belongs to pod `p`. */
  ghost predicate Without(m: ContainerMetric, p: Pod) {
    forall k :: k in m ==> k.namespaceName != p.namespaceName || k.podName != p.name
  }

  lemma {:induction false} PodAdds(
      src: Source, resource: string, p: Pod, cs: seq<Container>, m: ContainerMetric, nodes: set<string>)
    requires DistinctContainers(cs) && Without(m, p)
    ensures var m' := AddContainers(src, resource, p, cs, m);
            && (forall k :: k in m' ==> k in m || exists c :: c in cs && k == KeyOf(p, c))
            && Total(OnNodes(m', nodes)) ==
               Total(OnNodes(m, nodes)) + if p.nodeName in nodes then Containers(src, resource, cs) else 0
  {
    if cs != [] {
      var n := |cs| - 1;
      PodAdds(src, resource, p, cs[..n], m, nodes);
      var m' := AddContainers(src, resource, p, cs[..n], m);
      var k, l := KeyOf(p, cs[n]), ListOf(src, cs[n]);
      assert k !in m' by {
        assert forall c :: c in cs[..n] ==> c.name != cs[n].name;
      }
      if resource in l {
        OnNodesAdd(m', nodes, k, l[resource]);
      }
      assert cs[n] in cs && forall c :: c in cs[..n] ==> c in cs;
    }
  }

  /** Every series belongs to one of the pods. */
  lemma {:induction false} SeriesHavePods(src: Source, resource: string, pods: seq<Pod>, k: ContainerKey)
    requires DistinctObjects(pods) && k in AllContainers(src, resource, pods)
    ensures exists i :: 0 <= i < |pods| && k.namespaceName == pods[i].namespaceName && k.podName == pods[i].name
  {
    var n := |pods| - 1;
    var m := AllContainers(src, resource, pods[..n]);
    if k in m {
      SeriesHavePods(src, resource, pods[..n], k);
      var i :| 0 <= i < n && k.namespaceName == pods[..n][i].namespaceName && k.podName == pods[..n][i].name;
      assert pods[..n][i] == pods[i];
    } else {
      OwnSeries(src, resource, pods[n], pods[n].containers, m, k);
    }
  }

  lemma {:induction false} OwnSeries(
      src: Source, resource: string, p: Pod, cs: seq<Container>, m: ContainerMetric, k: ContainerKey)
    requires k in AddContainers(src, resource, p, cs, m) && k !in m
    ensures k.namespaceName == p.namespaceName && k.podName == p.name
  {
    var n := |cs| - 1;
    if k in AddContainers(src, resource, p, cs[..n], m) {
      OwnSeries(src, resource, p, cs[..n], m, k);
    }
  }

  lemma {:induction false} ContainerTotal(src: Source, resource: string, pods: seq<Pod>, nodes: set<string>)
    requires DistinctObjects(pods)
    ensures Total(OnNodes(AllContainers(src, resource, pods), nodes)) == PodsOn(src, resource, pods, nodes)
  {
    if pods != [] {
      var n := |pods| - 1;
      var p, before := pods[n], pods[..n];
      ContainerTotal(src, resource, before, nodes);
      NewPodHasNoSeries(src, resource, pods);
      PodAdds(src, resource, p, p.containers, AllContainers(src, resource, before), nodes);
    }
  }

  lemma NewPodHasNoSeries(src: Source, resource: string, pods: seq<Pod>)
    requires DistinctObjects(pods) && pods != []
    ensures Without(AllContainers(src, resource, pods[..|pods| - 1]), pods[|pods| - 1])
  {
    var before, p := pods[..|pods| - 1], pods[|pods| - 1];
    forall k | k in AllContainers(src, resource, before)
      ensures k.namespaceName != p.namespaceName || k.podName != p.name
    {
      SeriesHavePods(src, resource, before, k);
    }
  }

  /** NODE VIEW EQUALS CONTAINER VIEW: over any nodes and pods with distinct names, what the nodes report
      adds up to what the containers placed on a listed node report. */
  lemma NodeViewEqualsContainerView(src: Source, resource: string, nodes: seq<string>, pods: seq<Pod>)
    requires Distinct(nodes) && DistinctObjects(pods)
    ensures Total(NodeMetric(src, resource, nodes, pods)) ==
            Total(OnNodes(AllContainers(src, resource, pods), Names(nodes)))
  {
    NodeTotal(src, resource, nodes, pods);
    ContainerTotal(src, resource, pods, Names(nodes));
  }

  // ---------------------------------------------------------------- what is added up

  /** A container counts for what it requests, or for what it is limited to; a resource it does not name is zero. */
  lemma ContainerCounts(resource: string, cs: seq<Container>, c: Container)
    ensures Containers(Requests, resource, cs + [c]) ==
            Containers(Requests, resource, cs) + if resource in c.requests then c.requests[resource] else 0
    ensures Containers(Limits, resource, cs + [c]) ==
            Containers(Limits, resource, cs) + if resource in c.limits then c.limits[resource] else 0
    ensures Containers(Requests, resource, []) == Containers(Limits, resource, []) == 0
  {
    assert (cs + [c])[..|cs|] == cs;
  }

  /** A pod counts for its containers on its node, unless it has succeeded or failed. */
  lemma PodCounts(src: Source, resource: string, pods: seq<Pod>, p: Pod, node: string)
    ensures SumPods(src, resource, Placed(pods + [p], node)) ==
            SumPods(src, resource, Placed(pods, node)) +
            if p.nodeName == node && p.phase != "Succeeded" && p.phase != "Failed"
            then Containers(src, resource, p.containers) else 0
    ensures SumPods(src, resource, Placed([], node)) == 0
  {
    PlacedGrows(pods, p, node);
    if p.nodeName == node {
      assert (Placed(pods, node) + [p])[..|Placed(pods, node)|] == Placed(pods, node);
    } else {
      assert Placed(pods, node) + [] == Placed(pods, node);
    }
  }

  /** Key `k` is that of a container `c` of pod `p`, which is still running and names the resource. */
  ghost predicate SeriesOf(src: Source, resource: string, p: Pod, c: Container, k: ContainerKey) {
    && k == ContainerKey(p.namespaceName, p.name, c.name, p.nodeName)
    && p.phase != "Succeeded" && p.phase != "Failed"
    && resource in match src case Requests => c.requests case Limits => c.limits
  }

  lemma {:induction false} PodSeries(
      src: Source, resource: string, p: Pod, cs: seq<Container>, m: ContainerMetric, k: ContainerKey)
    requires !Completed(p)
    ensures k in AddContainers(src, resource, p, cs, m) <==>
            k in m || exists j :: 0 <= j < |cs| && SeriesOf(src, resource, p, cs[j], k)
  {
    if cs != [] {
      var n := |cs| - 1;
      PodSeries(src, resource, p, cs[..n], m, k);
      assert forall j :: 0 <= j < n ==> cs[..n][j] == cs[j];
    }
  }

  /** The container metric has a series exactly for every container that names the resource in a pod that is still
      running. */
  lemma {:induction false} ContainerSeriesIff(src: Source, resource: string, pods: seq<Pod>, k: ContainerKey)
    ensures k in AllContainers(src, resource, pods) <==>
            exists i, j :: 0 <= i < |pods| && 0 <= j < |pods[i].containers|
                           && SeriesOf(src, resource, pods[i], pods[i].containers[j], k)
  {
    if pods != [] {
      var n := |pods| - 1;
      ContainerSeriesIff(src, resource, pods[..n], k);
      assert forall i :: 0 <= i < n ==> pods[..n][i] == pods[i];
      if !Completed(pods[n]) {
        PodSeries(src, resource, pods[n], pods[n].containers, AllContainers(src, resource, pods[..n]), k);
      }
    }
  }

  lemma {:induction false} PodSeriesValue(
      src: Source, resource: string, p: Pod, cs: seq<Container>, m: ContainerMetric, j: nat, k: ContainerKey)
    requires DistinctContainers(cs) && j < |cs| && SeriesOf(src, resource, p, cs[j], k)
    ensures var m' := AddContainers(src, resource, p, cs, m);
            k in m'
            && m'[k] == match src case Requests => cs[j].requests[resource] case Limits => cs[j].limits[resource]
  {
    var n := |cs| - 1;
    if j < n {
      PodSeriesValue(src, resource, p, cs[..n], m, j, k);
      assert cs[j].name != cs[n].name;
    }
  }

  lemma {:induction false} OtherPod(
      src: Source, resource: string, p: Pod, cs: seq<Container>, m: ContainerMetric, k: ContainerKey)
    requires k in m && (k.namespaceName != p.namespaceName || k.podName != p.name)
    ensures k in AddContainers(src, resource, p, cs, m) && AddContainers(src, resource, p, cs, m)[k] == m[k]
  {
    if cs != [] {
      OtherPod(src, resource, p, cs[..|cs| - 1], m, k);
    }
  }

  /** With distinct names each series holds what its container requests, or is limited to. */
  lemma {:induction false} ContainerSeriesValue(
      src: Source, resource: string, pods: seq<Pod>, i: nat, j: nat, k: ContainerKey)
    requires DistinctObjects(pods) && i < |pods| && j < |pods[i].containers|
    requires SeriesOf(src, resource, pods[i], pods[i].containers[j], k)
    ensures var m, c := AllContainers(src, resource, pods), pods[i].containers[j];
            k in m && m[k] == match src case Requests => c.requests[resource] case Limits => c.limits[resource]
  {
    var n := |pods| - 1;
    var p, before := pods[n], AllContainers(src, resource, pods[..n]);
    if i == n {
      PodSeriesValue(src, resource, p, p.containers, before, j, k);
    } else {
      ContainerSeriesValue(src, resource, pods[..n], i, j, k);
      OtherPod(src, resource, p, p.containers, before, k);
    }
  }
}
