/** Admission: the filter plugins of the scheduler extender and the chain that runs them. */
module Filtering {
  import opened Common
  import opened Api
  import opened Apportionment
  import opened Shares
  import opened NodeIndex
  import opened Placement
  import opened Lookups

  /** What API validation guarantees of the stored objects. */
  ghost predicate ValidStore(store: Snapshot) {
    && (forall p :: p in store.policies ==> ValidWeights(p.weights))
    && (forall k :: k in store.deployments ==> 0 <= store.deployments[k].replicas < TWO_31)
    && (forall g :: g in store.groups ==> g.name != "")
  }

  /* ---------- what the plugins keep ---------- */

  function Keep(nodes: seq<Node>, p: Node -> bool): seq<Node> {
    if nodes == [] then [] else
      Keep(nodes[..|nodes| - 1], p) + (if p(nodes[|nodes| - 1]) then [nodes[|nodes| - 1]] else [])
  }

  /** Go reads a missing node as group "". */
  function BelowShare(current: map<string, int>, desired: map<string, int>, index: Index): Node -> bool {
    (x: Node) => var g := if x.name in index then index[x.name] else "";
      Lookup(current, g) < Lookup(desired, g)
  }

  function Targeted(index: Index): Node -> bool {
    (x: Node) => x.name in index
  }

  /** The one predicate the chain amounts to: the node is in a target group whose int32 pod counter
      is below its share. */
  ghost function AdmissibleInt32(pods: seq<Pod>, desired: map<string, int>, index: Index): Node -> bool {
    (x: Node) => x.name in index && Counter(Count(pods, index, index[x.name])) < Lookup(desired, index[x.name])
  }

  /** The node is in a target group that runs fewer pods than its share. */
  ghost function Admissible(pods: seq<Pod>, desired: map<string, int>, index: Index): Node -> bool {
    (x: Node) => x.name in index && Count(pods, index, index[x.name]) < Lookup(desired, index[x.name])
  }

  lemma {:induction false} KeepKeep(nodes: seq<Node>, p: Node -> bool, q: Node -> bool, both: Node -> bool)
    requires forall x :: both(x) <==> p(x) && q(x)
    ensures Keep(Keep(nodes, p), q) == Keep(nodes, both)
  {
    if nodes != [] {
      var n := |nodes| - 1;
      KeepKeep(nodes[..n], p, q, both);
      if p(nodes[n]) {
        assert Keep(nodes, p)[..|Keep(nodes, p)| - 1] == Keep(nodes[..n], p);
      } else {
        assert Keep(nodes, p) == Keep(nodes[..n], p);
      }
    }
  }

  lemma {:induction false} KeepMembers(nodes: seq<Node>, p: Node -> bool, x: Node)
    ensures x in Keep(nodes, p) <==> x in nodes && p(x)
  {
    if nodes != [] {
      var n := |nodes| - 1;
      KeepMembers(nodes[..n], p, x);
      assert nodes == nodes[..n] + [nodes[n]];
    }
  }

  /** Filtering distributes over concatenation, so the order of the nodes is kept. */
  lemma {:induction false} KeepConcat(a: seq<Node>, b: seq<Node>, p: Node -> bool)
    ensures Keep(a + b, p) == Keep(a, p) + Keep(b, p)
    ensures |b| == 1 ==> Keep(b, p) == if p(b[0]) then b else []
  {
    if b == [] {
      assert a + b == a;
    } else {
      var init, x := b[..|b| - 1], b[|b| - 1];
      KeepConcat(a, init, p);
      LastOfConcat(a, b);
      Associative(Keep(a, p), Keep(init, p), if p(x) then [x] else []);
      if |b| == 1 { assert init == [] && b == [x]; }
    }
  }

  lemma KeepStep(nodes: seq<Node>, i: nat, p: Node -> bool)
    requires i < |nodes|
    ensures Keep(nodes[..i + 1], p) == Keep(nodes[..i], p) + (if p(nodes[i]) then [nodes[i]] else [])
  {
    assert nodes[..i + 1][..i] == nodes[..i];
  }

  /** The int32 test is the true one while counts fit int32. */
  lemma AdmissibleSame(pods: seq<Pod>, desired: map<string, int>, index: Index, nodes: seq<Node>)
    requires CountsFit(pods, index)
    ensures Keep(nodes, AdmissibleInt32(pods, desired, index)) == Keep(nodes, Admissible(pods, desired, index))
  {
    forall g { CounterBounds(Count(pods, index, g)); }
    KeepSame(nodes, AdmissibleInt32(pods, desired, index), Admissible(pods, desired, index));
  }

  /** The index names no group "". */
  lemma NoEmptyCount(store: Snapshot, ws: seq<Weight>, pods: seq<Pod>)
    requires (forall g :: g in store.groups ==> g.name != "") && PolicyIndexed(store, ws)
    ensures Count(pods, PolicyIndex(store, ws), "") == 0
  {
    var index := PolicyIndex(store, ws);
    FetchedIs(store.groups, TargetNames(ws));
    if Count(pods, index, "") > 0 {
      var i := CountIfWitness(pods, OnGroup(index, ""));
      var g := FetchedSelector(store.nodes, store.groups, TargetNames(ws), Fetched(store.groups, TargetNames(ws)),
                               pods[i].nodeName);
    }
  }

  /** The empty group name reads as share 0. */
  lemma NoEmptyGroup(store: Snapshot, ws: seq<Weight>, r: int, rnd: Rounding, share: map<string, int>)
    requires (forall g :: g in store.groups ==> g.name != "") && PolicyIndexed(store, ws)
    requires (forall e :: e in ws ==> e.names != []) && IsShare(ws, r, rnd, share)
    ensures Lookup(share, "") == 0
  {
    if "" in share {
      ShareKeys(ws, r, rnd, share, "");
      WrittenAreTargets(ws, "");
      var i :| 0 <= i < |TargetNames(ws)| && TargetNames(ws)[i] == "";
      FindGroupSound(store.groups, TargetNames(ws)[i]);
    }
  }

  lemma {:induction false} WrittenAreTargets(ws: seq<Weight>, g: string)
    requires g in AllWritten(ws)
    ensures g in TargetNames(ws)
  {
    var n := |ws| - 1;
    if g in AllWritten(ws[..n]) { WrittenAreTargets(ws[..n], g); }
  }

  /** On one snapshot with one share map the chain is one predicate: the first plugin already does
      all the work, the second removes nothing, and swapping them gives the same list. */
  lemma ChainIsOnePredicate(store: Snapshot, ws: seq<Weight>, r: int, rnd: Rounding, share: map<string, int>,
                            pods: seq<Pod>, current: map<string, int>, nodes: seq<Node>)
    requires (forall g :: g in store.groups ==> g.name != "") && PolicyIndexed(store, ws)
    requires (forall e :: e in ws ==> e.names != []) && IsShare(ws, r, rnd, share)
    requires IsCount(pods, PolicyIndex(store, ws), current)
    ensures var index := PolicyIndex(store, ws);
      var below, target := BelowShare(current, share, index), Targeted(index);
      && Keep(nodes, below) == Keep(nodes, AdmissibleInt32(pods, share, index))
      && Keep(Keep(nodes, below), target) == Keep(nodes, below)
      && Keep(Keep(nodes, target), below) == Keep(nodes, below)
  {
    var index := PolicyIndex(store, ws);
    var below, target := BelowShare(current, share, index), Targeted(index);
    var one := AdmissibleInt32(pods, share, index);
    NoEmptyGroup(store, ws, r, rnd, share);
    NoEmptyCount(store, ws, pods);
    forall x ensures one(x) <==> below(x) && target(x)
             ensures below(x) ==> target(x)
    {
    }
    KeepKeep(nodes, below, target, one);
    KeepKeep(nodes, target, below, one);
    KeepKeep(nodes, below, below, below);
    KeepSame(nodes, below, one);
  }

  lemma {:induction false} KeepSame(nodes: seq<Node>, p: Node -> bool, q: Node -> bool)
    requires forall x :: p(x) <==> q(x)
    ensures Keep(nodes, p) == Keep(nodes, q)
  {
    if nodes != [] { KeepSame(nodes[..|nodes| - 1], p, q); }
  }

  /* ---------- the plugins ---------- */

  lemma {:induction false} StrictSearchMembers(deploys: seq<Deployment>, labels: map<string, string>)
    ensures StrictSearch(deploys, labels).Found? ==>
              StrictSearch(deploys, labels).deploy in deploys
              && StrictSearch(deploys, labels).deploy.selector.Matches(labels)
  {
    if deploys != [] { StrictSearchMembers(deploys[1..], labels); }
  }

  /** The deployment the plugin works on: the first strict match of the policy. */
  function PolicySearch(store: Snapshot, pod: Pod, policy: Policy): Search {
    StrictSearch(StoredDeploys(store, policy.resources), pod.labels)
  }

  /** The nodes the first plugin keeps are those of target groups that run fewer pods than their share. */
  lemma BelowShareMembers(store: Snapshot, d: Deployment, policy: Policy, rnd: Rounding, share: map<string, int>,
                          current: map<string, int>, nodes: seq<Node>)
    requires (forall g :: g in store.groups ==> g.name != "") && PolicyIndexed(store, policy.weights)
    requires (forall e :: e in policy.weights ==> e.names != []) && IsShare(policy.weights, d.replicas, rnd, share)
    requires IsCount(PodsOf(store.pods, d.selector), PolicyIndex(store, policy.weights), current)
    ensures var index := PolicyIndex(store, policy.weights);
      forall x :: x in Keep(nodes, BelowShare(current, share, index)) <==>
        x in nodes && BelowItsShare(PodsOf(store.pods, d.selector), share, index, x)
  {
    var index := PolicyIndex(store, policy.weights);
    var pods := PodsOf(store.pods, d.selector);
    ChainIsOnePredicate(store, policy.weights, d.replicas, rnd, share, pods, current, nodes);
    forall x ensures x in Keep(nodes, BelowShare(current, share, index)) <==>
                       x in nodes && BelowItsShare(pods, share, index, x)
    {
      KeepMembers(nodes, AdmissibleInt32(pods, share, index), x);
    }
  }

  ghost predicate BelowItsShare(pods: seq<Pod>, share: map<string, int>, index: Index, x: Node) {
    x.name in index && Counter(Count(pods, index, index[x.name])) < Lookup(share, index[x.name])
  }

  /** Keeps nodes whose group runs fewer pods than its share. The deployment pointer is
      dereferenced without a nil check, so a nil without an error must be impossible. */
  method EnoughPodsFilterNodes(store: Snapshot, pod: Pod, nodes: seq<Node>, policy: Policy, rnd: Rounding)
    returns (r: Result<seq<Node>>, ghost share: map<string, int>, ghost current: map<string, int>)
    requires ValidStore(store) && TolerableForPolicy(store, policy, rnd) && policy in store.policies
    requires Complete(store, policy.resources) && !PolicySearch(store, pod, policy).NotFound?
    ensures r.Ok? <==> PolicySearch(store, pod, policy).Found? && PolicyIndexed(store, policy.weights)
    ensures r.Ok? ==> var d := PolicySearch(store, pod, policy).deploy;
      && IsShare(policy.weights, d.replicas, rnd, share)
      && IsCount(PodsOf(store.pods, d.selector), PolicyIndex(store, policy.weights), current)
      && r.value == Keep(nodes, BelowShare(current, share, PolicyIndex(store, policy.weights)))
      && (forall x :: x in r.value <==>
            x in nodes && BelowItsShare(PodsOf(store.pods, d.selector), share, PolicyIndex(store, policy.weights), x))
  {
    share, current := map[], map[];
    var relativeDeploy, failed := GetRelativeDeployment(store, pod, policy);
    if failed {
      return Err, share, current;
    }
    var deploy := relativeDeploy.value;
    StrictSearchMembers(StoredDeploys(store, policy.resources), pod.labels);
    StoredDeploysMembers(store, policy.resources, deploy);
    var desiredPods := DesiredPodsNumInTargetNodeGroups(policy.weights, deploy.replicas, rnd);
    var counted := CurrentPodsNumInTargetNodeGroups(store, deploy, policy.weights);
    if counted.Err? {
      return Err, share, current;
    }
    var (currentPods, nodesInNodeGroup) := counted.value;
    share, current := desiredPods, currentPods;
    var filteredNodes: seq<Node> := [];
    for i := 0 to |nodes|
      invariant filteredNodes == Keep(nodes[..i], BelowShare(currentPods, desiredPods, nodesInNodeGroup))
    {
      KeepStep(nodes, i, BelowShare(currentPods, desiredPods, nodesInNodeGroup));
      var nodegroup := if nodes[i].name in nodesInNodeGroup then nodesInNodeGroup[nodes[i].name] else "";
      if Lookup(currentPods, nodegroup) < Lookup(desiredPods, nodegroup) {
        filteredNodes := filteredNodes + [nodes[i]];
      }
    }
    assert nodes[..|nodes|] == nodes;
    BelowShareMembers(store, deploy, policy, rnd, share, current, nodes);
    r := Ok(filteredNodes);
  }

  /** Keeps nodes of the policy's groups. */
  method NotInNodeGroupsFilterNodes(store: Snapshot, nodes: seq<Node>, policy: Policy) returns (r: Result<seq<Node>>)
    ensures r.Ok? <==> PolicyIndexed(store, policy.weights)
    ensures !AllStored(store.groups, policy.weights) ==> r.Err?
    ensures r.Ok? ==> r.value == Keep(nodes, Targeted(PolicyIndex(store, policy.weights)))
    ensures r.Ok? ==> forall x :: x in r.value <==> x in nodes && x.name in PolicyIndex(store, policy.weights)
  {
    var nodeGroupNames := [];
    for i := 0 to |policy.weights|
      invariant nodeGroupNames == TargetNames(policy.weights[..i])
    {
      assert policy.weights[..i + 1][..i] == policy.weights[..i];
      nodeGroupNames := nodeGroupNames + policy.weights[i].names;
    }
    assert policy.weights[..|policy.weights|] == policy.weights;
    ResolvesExactly(store.groups, policy.weights);
    var nodegroups := GetNodeGroupsWithName(store.groups, nodeGroupNames);
    if nodegroups.Err? {
      return Err;
    }
    var nodesInGroups := GetNodesInGroups(store.nodes, nodegroups.value);
    if nodesInGroups.Err? {
      return Err;
    }
    var filteredNodes: seq<Node> := [];
    for i := 0 to |nodes|
      invariant filteredNodes == Keep(nodes[..i], Targeted(nodesInGroups.value))
    {
      KeepStep(nodes, i, Targeted(nodesInGroups.value));
      if nodes[i].name in nodesInGroups.value {
        filteredNodes := filteredNodes + [nodes[i]];
      }
    }
    assert nodes[..|nodes|] == nodes;
    forall x ensures x in filteredNodes <==> x in nodes && x.name in nodesInGroups.value {
      KeepMembers(nodes, Targeted(nodesInGroups.value), x);
    }
    r := Ok(filteredNodes);
  }

  /* ---------- the chain ---------- */

  datatype FilterPlugin = EnoughPodsFilter | NotInNodeGroupsFilter

  /** `None` is a nil node list. */
  datatype FilterResult = FilterResult(nodes: Option<seq<Node>>, nodeNames: Option<seq<string>>)

  function NodeNames(nodes: seq<Node>): seq<string> {
    seq(|nodes|, i requires 0 <= i < |nodes| => nodes[i].name)
  }

  function ResultOf(nodes: Option<seq<Node>>): FilterResult {
    if nodes.None? then FilterResult(None, None) else FilterResult(nodes, Some(NodeNames(nodes.value)))
  }

  /** A result without nodes carries no names; otherwise the names are the nodes', in order. */
  ghost predicate NamesFollow(r: FilterResult) {
    match r.nodes
    case None => r.nodeNames.None?
    case Some(nodes) =>
      && r.nodeNames.Some? && |r.nodeNames.value| == |nodes|
      && forall i :: 0 <= i < |nodes| ==> r.nodeNames.value[i] == nodes[i].name
  }

  method ConstructFilterResult(nodes: Option<seq<Node>>) returns (r: FilterResult)
    ensures r == ResultOf(nodes)
    ensures r.nodes == nodes && NamesFollow(r)
  {
    if nodes.None? {
      return FilterResult(None, None);
    }
    var filteredNodeNames := new string[|nodes.value|];
    for i := 0 to |nodes.value|
      invariant filteredNodeNames[..i] == NodeNames(nodes.value)[..i]
    {
      filteredNodeNames[i] := nodes.value[i].name;
    }
    assert filteredNodeNames[..] == NodeNames(nodes.value);
    r := FilterResult(nodes, Some(filteredNodeNames[..]));
  }

  /** What a request comes to on one snapshot. `share` matters only when a policy is found and no
      plugin fails. */
  ghost predicate FilterSpec(store: Snapshot, pod: Pod, items: Option<seq<Node>>, rnd: Rounding,
                             r: FilterResult, failed: bool, share: map<string, int>) {
    match FirstPolicy(store, store.policies, pod)
    case Err => r == ResultOf(items) && failed
    case Ok(None) => r == ResultOf(items) && !failed
    case Ok(Some((d, p))) =>
      if !PolicyIndexed(store, p.weights) then r == ResultOf(None) && failed
      else if PolicySearch(store, pod, p).BadSelector? then r == ResultOf(Some([])) && failed
      else
        && !failed
        && (forall e :: e in p.weights ==> e.names != [])
        && IsShare(p.weights, d.replicas, rnd, share)
        && var one := AdmissibleInt32(PodsOf(store.pods, d.selector), share, PolicyIndex(store, p.weights));
           r == ResultOf(Some(Keep(items.GetOr([]), one)))
  }

  /** What the caller sees. A pod without a policy, or whose lookup fails, may go to every candidate. For
      a pod with a policy only candidates come back, in order, and none at all when a plugin fails: when
      a listed group is missing, a group's selector does not convert, or an unconvertible selector comes
      before the pod's deployment. */
  lemma FilterOutcome(store: Snapshot, pod: Pod, items: Option<seq<Node>>, rnd: Rounding,
                      r: FilterResult, failed: bool, share: map<string, int>)
    requires FilterSpec(store, pod, items, rnd, r, failed, share)
    ensures NamesFollow(r)
    ensures var found := FirstPolicy(store, store.policies, pod);
      && (found.Err? || found == Ok(None) ==> r.nodes == items && (failed <==> found.Err?))
      && (found.Ok? && found.value.Some? ==>
           && (forall x :: x in r.nodes.GetOr([]) ==> x in items.GetOr([]))
           && (failed ==> r.nodes == if PolicyIndexed(store, found.value.value.1.weights) then Some([]) else None)
           && (!AllStored(store.groups, found.value.value.1.weights) ==> failed)
           && (failed <==> !PolicyIndexed(store, found.value.value.1.weights)
                           || PolicySearch(store, pod, found.value.value.1).BadSelector?))
  {
    match FirstPolicy(store, store.policies, pod)
    case Ok(Some((d, p))) =>
      ResolvesExactly(store.groups, p.weights);
      if !failed {
        var one := AdmissibleInt32(PodsOf(store.pods, d.selector), share, PolicyIndex(store, p.weights));
        forall x | x in r.nodes.value ensures x in items.GetOr([]) { KeepMembers(items.GetOr([]), one, x); }
      }
    case _ =>
  }

  /** A scheduling request: the pod, and the candidate nodes (`None` is a nil list). */
  datatype ExtenderArgs = ExtenderArgs(pod: Pod, nodes: Option<seq<Node>>)

  /** A filter request; a nil request is an error. Without a policy the nodes pass through, otherwise
      every plugin runs on what the previous one kept; a failing plugin leaves a nil list and the chain
      goes on. */
  method Filter(store: Snapshot, extenderArgs: Option<ExtenderArgs>, rnd: Rounding)
    returns (result: Option<FilterResult>, failed: bool)
    requires ValidStore(store) && forall p :: p in store.policies ==> TolerableForPolicy(store, p, rnd)
    ensures extenderArgs.None? ==> result.None? && failed
    ensures extenderArgs.Some? ==> result.Some? && exists share ::
      FilterSpec(store, extenderArgs.value.pod, extenderArgs.value.nodes, rnd, result.value, failed, share)
    ensures extenderArgs.Some? ==> NamesFollow(result.value)
  {
    if extenderArgs.None? {
      return None, true;
    }
    var pod, items := extenderArgs.value.pod, extenderArgs.value.nodes;
    var r;
    ghost var share: map<string, int> := map[];
    var found := GetRelativeDeployAndPolicy(store, pod);
    if found.Err? {
      r := ConstructFilterResult(items);
      assert FilterSpec(store, pod, items, rnd, r, true, share);
      return Some(r), true;
    }
    if found.value.None? {
      r := ConstructFilterResult(items);
      assert FilterSpec(store, pod, items, rnd, r, false, share);
      return Some(r), false;
    }
    var (deploy, policy) := found.value.value;
    FirstPolicySound(store, store.policies, pod, deploy, policy);
    LookupAgreement(store, pod, deploy, policy);
    var filterPlugins := [EnoughPodsFilter, NotInNodeGroupsFilter];
    var nodes: Option<seq<Node>> := if items.GetOr([]) == [] then None else items;
    failed := false;
    ghost var current: map<string, int> := map[];
    ghost var search, indexed := PolicySearch(store, pod, policy), PolicyIndexed(store, policy.weights);
    for i := 0 to |filterPlugins|
      invariant i == 0 ==> !failed && nodes.GetOr([]) == items.GetOr([])
      invariant i > 0 && !(search.Found? && indexed) ==> failed && nodes == if i == 2 && indexed then Some([]) else None
      invariant i > 0 && search.Found? && indexed ==>
        && !failed && nodes.Some?
        && IsShare(policy.weights, deploy.replicas, rnd, share)
        && IsCount(PodsOf(store.pods, deploy.selector), PolicyIndex(store, policy.weights), current)
        && nodes.value == Keep(items.GetOr([]),
                               AdmissibleInt32(PodsOf(store.pods, deploy.selector), share,
                                          PolicyIndex(store, policy.weights)))
    {
      var out;
      match filterPlugins[i] {
        case EnoughPodsFilter =>
          out, share, current := EnoughPodsFilterNodes(store, pod, nodes.GetOr([]), policy, rnd);
        case NotInNodeGroupsFilter =>
          out := NotInNodeGroupsFilterNodes(store, nodes.GetOr([]), policy);
      }
      if search.Found? && indexed {
        ChainIsOnePredicate(store, policy.weights, deploy.replicas, rnd, share,
                            PodsOf(store.pods, deploy.selector), current, items.GetOr([]));
      }
      if out.Err? {
        nodes := None;
        failed := true;
      } else {
        nodes := Some(out.value);
      }
    }
    r := ConstructFilterResult(nodes);
    assert FilterSpec(store, pod, items, rnd, r, failed, share);
    result := Some(r);
  }
}
