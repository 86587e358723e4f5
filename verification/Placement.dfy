/** Observed placement (how many pods run in each group) and the correction that deletes the
    pods beyond a group's share. */
module Placement {
  import opened Common
  import opened Api
  import opened NodeIndex

  /** The group a pod runs in: none while unscheduled or on a node outside the index. */
  function GroupOf(p: Pod, index: Index): Option<string> {
    if p.nodeName != "" && p.nodeName in index then Some(index[p.nodeName]) else None
  }

  function OnGroup(index: Index, g: string): Pod -> bool {
    p => GroupOf(p, index) == Some(g)
  }

  ghost function Count(pods: seq<Pod>, index: Index, g: string): nat {
    CountIf(pods, OnGroup(index, g))
  }

  /** `m` holds an int32 counter for every group that runs pods. */
  ghost predicate IsCount(pods: seq<Pod>, index: Index, m: map<string, int>) {
    forall g :: Lookup(m, g) == Counter(Count(pods, index, g)) && (g in m <==> Count(pods, index, g) > 0)
  }

  /** No group runs more pods than an int32 counter can show. */
  ghost predicate CountsFit(pods: seq<Pod>, index: Index) {
    forall g :: Count(pods, index, g) < TWO_31
  }

  /** The counters show the true numbers of pods exactly when these fit int32. */
  lemma CountersExactly(pods: seq<Pod>, index: Index, m: map<string, int>)
    requires IsCount(pods, index, m)
    ensures (forall g :: Lookup(m, g) == Count(pods, index, g)) <==> CountsFit(pods, index)
  {
    forall g { CounterExactly(Count(pods, index, g)); }
  }

  lemma CountStep(pods: seq<Pod>, i: nat, index: Index, g: string)
    requires i < |pods|
    ensures Count(pods[..i + 1], index, g) ==
              Count(pods[..i], index, g) + (if GroupOf(pods[i], index) == Some(g) then 1 else 0)
  {
    assert pods[..i + 1][..i] == pods[..i];
  }

  /** Counting one more pod increments its group's counter, if it runs in a group. */
  lemma CountOne(pods: seq<Pod>, i: nat, index: Index, m: map<string, int>)
    requires i < |pods| && IsCount(pods[..i], index, m)
    ensures var o := GroupOf(pods[i], index);
      if o.None? then IsCount(pods[..i + 1], index, m)
      else Increment(Lookup(m, o.value)) == Counter(Count(pods[..i], index, o.value) + 1)
           && IsCount(pods[..i + 1], index, m[o.value := Increment(Lookup(m, o.value))])
  {
    forall g { CountStep(pods, i, index, g); }
  }

  /** The pod is scheduled, on a node of the group. */
  ghost predicate RunsIn(p: Pod, index: Index, g: string) {
    p.nodeName != "" && p.nodeName in index && index[p.nodeName] == g
  }

  /** A group has a counter exactly when some scheduled pod runs in it. */
  lemma {:induction false} CountPositiveExactly(pods: seq<Pod>, index: Index, g: string)
    ensures Count(pods, index, g) > 0 <==> exists p :: p in pods && RunsIn(p, index, g)
  {
    if pods != [] {
      var n := |pods| - 1;
      CountPositiveExactly(pods[..n], index, g);
      assert pods == pods[..n] + [pods[n]];
      assert RunsIn(pods[n], index, g) <==> OnGroup(index, g)(pods[n]);
      if p :| p in pods && RunsIn(p, index, g) { assert p in pods[..n] || p == pods[n]; }
    }
  }

  /** The counting loop of the scheduler extender. */
  method CountPods(pods: seq<Pod>, nodesInGroups: Index) returns (m: map<string, int>)
    ensures IsCount(pods, nodesInGroups, m)
    ensures forall g :: g in m <==> exists p :: p in pods && RunsIn(p, nodesInGroups, g)
  {
    m := map[];
    for i := 0 to |pods|
      invariant IsCount(pods[..i], nodesInGroups, m)
    {
      var pod := pods[i];
      CountOne(pods, i, nodesInGroups, m);
      if pod.nodeName == "" || pod.nodeName !in nodesInGroups {
        continue;
      }
      var group := nodesInGroups[pod.nodeName];
      m := m[group := Increment(Lookup(m, group))];
    }
    assert pods[..|pods|] == pods;
    forall g ensures g in m <==> exists p :: p in pods && RunsIn(p, nodesInGroups, g) {
      CountPositiveExactly(pods, nodesInGroups, g);
    }
  }

  /** All names of a weight list, in order. */
  function TargetNames(ws: seq<Weight>): seq<string> {
    if ws == [] then [] else TargetNames(ws[..|ws| - 1]) + ws[|ws| - 1].names
  }

  /** An entry adds all its names. */
  lemma TargetNamesStep(ws: seq<Weight>, e: Weight)
    ensures TargetNames(ws + [e]) == TargetNames(ws) + e.names
  {
    assert (ws + [e])[..|ws|] == ws;
  }

  /** The names are listed in the order of the entries. */
  lemma {:induction false} TargetNamesConcat(a: seq<Weight>, b: seq<Weight>)
    ensures TargetNames(a + b) == TargetNames(a) + TargetNames(b)
  {
    if b == [] {
      assert a + b == a;
    } else {
      var init, e := b[..|b| - 1], b[|b| - 1];
      TargetNamesConcat(a, init);
      LastOfConcat(a, b);
      Associative(TargetNames(a), TargetNames(init), e.names);
    }
  }

  ghost predicate Listed(ws: seq<Weight>, g: string) {
    exists e :: e in ws && g in e.names
  }

  lemma {:induction false} TargetNamesMembers(ws: seq<Weight>, g: string)
    ensures g in TargetNames(ws) <==> Listed(ws, g)
  {
    if ws != [] {
      var n := |ws| - 1;
      TargetNamesMembers(ws[..n], g);
      assert ws == ws[..n] + [ws[n]];
    }
  }

  /** Every listed name has a group in the namespace "default". */
  ghost predicate AllStored(groups: seq<NodeGroup>, ws: seq<Weight>) {
    forall n :: Listed(ws, n) ==> Stored(groups, n)
  }

  lemma ResolvesExactly(groups: seq<NodeGroup>, ws: seq<Weight>)
    ensures Resolves(groups, TargetNames(ws)) <==> AllStored(groups, ws)
  {
    var names := TargetNames(ws);
    forall n ensures Stored(groups, n) <==> FindGroup(groups, n).Some? { FindGroupSound(groups, n); }
    forall n ensures n in names <==> Listed(ws, n) { TargetNamesMembers(ws, n); }
    if AllStored(groups, ws) {
      forall i | 0 <= i < |names| ensures FindGroup(groups, names[i]).Some? { assert Listed(ws, names[i]); }
    }
  }

  /** The policy's groups all exist and their selectors convert. */
  ghost predicate PolicyIndexed(store: Snapshot, ws: seq<Weight>) {
    && Resolves(store.groups, TargetNames(ws))
    && forall g :: g in Fetched(store.groups, TargetNames(ws)) ==> !g.matchLabels.Malformed?
  }

  /** The scheduler's index: the policy's groups only, in the order the policy lists them. */
  ghost function PolicyIndex(store: Snapshot, ws: seq<Weight>): map<string, string>
    requires Resolves(store.groups, TargetNames(ws))
  {
    IndexOf(store.nodes, Fetched(store.groups, TargetNames(ws)))
  }

  /** The scheduler's index holds exactly the nodes that a listed group of the namespace "default"
      selects, each mapped to such a group. */
  lemma PolicyIndexExact(store: Snapshot, ws: seq<Weight>, n: string)
    requires UniqueGroups(store.groups) && Resolves(store.groups, TargetNames(ws))
    ensures n in PolicyIndex(store, ws) <==> exists g :: SelectedBy(store, ws, n, g)
    ensures n in PolicyIndex(store, ws) ==>
              exists g :: SelectedBy(store, ws, n, g) && g.name == PolicyIndex(store, ws)[n]
  {
    var fetched := Fetched(store.groups, TargetNames(ws));
    FetchedIs(store.groups, TargetNames(ws));
    LastGroupIsInIndex(store.nodes, fetched, n);
    if n in PolicyIndex(store, ws) {
      var g := LastGroupSound(store.nodes, fetched, n);
      TargetNamesMembers(ws, g.name);
      assert SelectedBy(store, ws, n, g);
    }
    if g :| SelectedBy(store, ws, n, g) {
      TargetNamesMembers(ws, g.name);
      var i :| 0 <= i < |TargetNames(ws)| && TargetNames(ws)[i] == g.name;
      assert fetched[i] == g;
      LastGroupComplete(store.nodes, fetched, n, g);
    }
  }

  ghost predicate SelectedBy(store: Snapshot, ws: seq<Weight>, n: string, g: NodeGroup) {
    g in store.groups && g.namespace == "default" && Listed(ws, g.name) && InGroup(store.nodes, g, n)
  }

  /** Current pods per target group, and the index of the policy's groups they are counted with. */
  method CurrentPodsNumInTargetNodeGroups(store: Snapshot, deploy: Deployment, weights: seq<Weight>)
    returns (r: Result<(map<string, int>, map<string, string>)>)
    ensures r.Ok? <==> PolicyIndexed(store, weights) && !deploy.selector.Malformed?
    ensures !AllStored(store.groups, weights) ==> r.Err?
    ensures r.Ok? ==> r.value.1 == PolicyIndex(store, weights)
    ensures r.Ok? ==> IsCount(PodsOf(store.pods, deploy.selector), r.value.1, r.value.0)
  {
    var targetNodeGroupNames := [];
    for i := 0 to |weights|
      invariant targetNodeGroupNames == TargetNames(weights[..i])
    {
      assert weights[..i + 1][..i] == weights[..i];
      targetNodeGroupNames := targetNodeGroupNames + weights[i].names;
    }
    assert weights[..|weights|] == weights;
    ResolvesExactly(store.groups, weights);
    var groups := GetNodeGroupsWithName(store.groups, targetNodeGroupNames);
    if groups.Err? {
      return Err;
    }
    var nodesInGroups := GetNodesInGroups(store.nodes, groups.value);
    if nodesInGroups.Err? {
      return Err;
    }
    if deploy.selector.Malformed? {
      return Err;
    }
    var counts := CountPods(PodsOf(store.pods, deploy.selector), nodesInGroups.value);
    return Ok((counts, nodesInGroups.value));
  }
}
