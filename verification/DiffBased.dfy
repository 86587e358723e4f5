/** The diff-based prioritizer: what a request comes to as the source is written, and the ranking it
    was meant to compute, with a sort that really sorts in place of the failing type assertion. */
module DiffBased {
  import opened Common
  import opened Api
  import opened Apportionment
  import opened Placement
  import opened Lookups
  import opened Filtering
  import opened Scoring

  /* ---------- as written ---------- */

  /** `list` is `None` for a nil pointer. */
  datatype Outcome = Returns(list: Option<seq<HostPriority>>, failed: bool) | Panics

  /** As many blank entries as nodes, then one entry of score 0 per node. */
  function NotScored(items: seq<Node>): seq<HostPriority> {
    seq(2 * |items|, i requires 0 <= i < 2 * |items| =>
      HostPriority(if i < |items| then "" else items[i - |items|].name, 0))
  }

  ghost predicate IsUnscored(list: seq<HostPriority>, items: seq<Node>) {
    && |list| == 2 * |items|
    && forall i :: 0 <= i < |items| ==>
         list[i] == HostPriority("", 0) && list[|items| + i] == HostPriority(items[i].name, 0)
  }

  method NotScore(items: Option<seq<Node>>) returns (list: seq<HostPriority>)
    ensures list == NotScored(items.GetOr([]))
    ensures IsUnscored(list, items.GetOr([]))
  {
    if items.None? {
      return [];
    }
    var nodes := items.value;
    list := seq(|nodes|, _ => HostPriority("", 0));
    for i := 0 to |nodes|
      invariant list == NotScored(nodes)[..|nodes| + i]
    {
      list := list + [HostPriority(nodes[i].name, 0)];
    }
  }

  /** The plugin gets as far as its type assertion, which no value passes. */
  ghost predicate ReachesAssertion(store: Snapshot, pod: Pod, policy: Policy) {
    PolicySearch(store, pod, policy).Found? && PolicyIndexed(store, policy.weights)
  }

  method PrioritizeNodes(store: Snapshot, pod: Pod, policy: Policy, rnd: Rounding) returns (outcome: Outcome)
    requires ValidStore(store) && TolerableForPolicy(store, policy, rnd) && policy in store.policies
    requires Complete(store, policy.resources) && !PolicySearch(store, pod, policy).NotFound?
    ensures outcome == if ReachesAssertion(store, pod, policy) then Panics else Returns(None, true)
  {
    var relativeDeploy, failed := GetRelativeDeployment(store, pod, policy);
    if failed {
      return Returns(None, true);
    }
    StrictSearchMembers(StoredDeploys(store, policy.resources), pod.labels);
    StoredDeploysMembers(store, policy.resources, relativeDeploy.value);
    var _ := DesiredPodsNumInTargetNodeGroups(policy.weights, relativeDeploy.value.replicas, rnd);
    var counted := CurrentPodsNumInTargetNodeGroups(store, relativeDeploy.value, policy.weights);
    outcome := if counted.Err? then Returns(None, true) else Panics;
  }

  /** The pod's policy is found and the plugin does not fail on it. */
  ghost predicate RequestPanics(store: Snapshot, pod: Pod) {
    var found := FirstPolicy(store, store.policies, pod);
    found.Ok? && found.value.Some? && ReachesAssertion(store, pod, found.value.value.1)
  }

  /** A prioritize request with the one plugin the source registers. A lookup error is not reported. */
  method PrioritizeRequest(store: Snapshot, extenderArgs: Option<ExtenderArgs>, rnd: Rounding)
    returns (outcome: Outcome)
    requires ValidStore(store) && forall p :: p in store.policies ==> TolerableForPolicy(store, p, rnd)
    ensures outcome == match extenderArgs
      case None => Returns(None, true)
      case Some(args) =>
        if RequestPanics(store, args.pod) then Panics
        else match FirstPolicy(store, store.policies, args.pod)
          case Ok(Some(_)) => Returns(Some([]), true)
          case _ => Returns(Some(NotScored(args.nodes.GetOr([]))), false)
    ensures extenderArgs.Some? && outcome.Returns? && !outcome.failed ==>
      outcome.list.Some? && IsUnscored(outcome.list.value, extenderArgs.value.nodes.GetOr([]))
  {
    if extenderArgs.None? {
      return Returns(None, true);
    }
    var pod, items := extenderArgs.value.pod, extenderArgs.value.nodes;
    var found := GetRelativeDeployAndPolicy(store, pod);
    if found.Err? || found.value.None? {
      var list := NotScore(items);
      return Returns(Some(list), false);
    }
    var (deploy, policy) := found.value.value;
    FirstPolicySound(store, store.policies, pod, deploy, policy);
    LookupAgreement(store, pod, deploy, policy);
    outcome := PrioritizeNodes(store, pod, policy, rnd);
    outcome := if outcome.Panics? then Panics else Returns(Some([]), outcome.failed);
  }

  /** A prioritize request panics exactly when the filter request for the same pod finds a policy and
      succeeds: the two plugins' lookups fail together. */
  lemma PanicsWhereFilterSucceeds(store: Snapshot, pod: Pod, items: Option<seq<Node>>, rnd: Rounding,
                                  r: FilterResult, failed: bool, share: map<string, int>)
    requires FilterSpec(store, pod, items, rnd, r, failed, share)
    ensures RequestPanics(store, pod) <==> FirstPolicy(store, store.policies, pod) != Ok(None) && !failed
  {
    match FirstPolicy(store, store.policies, pod)
    case Ok(Some((d, p))) =>
      LookupAgreement(store, pod, d, p);
    case _ =>
  }

  /* ---------- as intended ---------- */

  datatype NodeGroupItem = NodeGroupItem(nodeGroupName: string, podsNum: int, rank: int)

  ghost predicate Descending(items: seq<NodeGroupItem>) {
    forall i, j :: 0 <= i < j < |items| ==> items[i].podsNum >= items[j].podsNum
  }

  ghost predicate DistinctGroups(items: seq<NodeGroupItem>) {
    forall i, j :: 0 <= i < j < |items| ==> items[i].nodeGroupName != items[j].nodeGroupName
  }

  /** The rank of a group: its last position in the list, from 1; 0 if it is not listed. */
  function RankOf(items: seq<NodeGroupItem>, g: string): nat {
    if items == [] then 0
    else if items[|items| - 1].nodeGroupName == g then |items|
    else RankOf(items[..|items| - 1], g)
  }

  /** `int64(10 - 10*ratio)`, over exact reals; the value is never negative. */
  function ScoreOf(rank: nat, n: nat): int
    requires rank <= n && 0 < n
  {
    (10.0 - 10.0 * (rank as real / n as real)).Floor
  }

  lemma {:induction false} RankRange(items: seq<NodeGroupItem>, g: string)
    ensures RankOf(items, g) <= |items|
    ensures RankOf(items, g) > 0 ==> items[RankOf(items, g) - 1].nodeGroupName == g
    ensures RankOf(items, g) == 0 <==> forall item :: item in items ==> item.nodeGroupName != g
  {
    if items != [] {
      var n := |items| - 1;
      RankRange(items[..n], g);
      assert items == items[..n] + [items[n]];
    }
  }

  /** The score of a group in a list of ranked groups. */
  function GroupScore(items: seq<NodeGroupItem>, g: string): int
    requires items != []
  {
    RankRange(items, g);
    ScoreOf(RankOf(items, g), |items|)
  }

  function Scored(items: seq<NodeGroupItem>, index: Index, nodeNames: seq<string>): seq<HostPriority>
    requires items != []
  {
    if nodeNames == [] then [] else
      var name := nodeNames[|nodeNames| - 1];
      Scored(items, index, nodeNames[..|nodeNames| - 1])
      + (if name in index then [HostPriority(name, GroupScore(items, index[name]))] else [])
  }

  lemma ScoredOne(items: seq<NodeGroupItem>, index: Index, name: string)
    requires items != []
    ensures Scored(items, index, [name]) ==
              (if name in index then [HostPriority(name, GroupScore(items, index[name]))] else [])
  {
    assert [name][..0] == [];
    assert Scored(items, index, []) == [];
  }

  /** Every node of an indexed group gets one entry, with its group's score, in the order of the nodes. */
  lemma {:induction false} ScoredConcat(items: seq<NodeGroupItem>, index: Index, a: seq<string>, b: seq<string>)
    requires items != []
    ensures Scored(items, index, a + b) == Scored(items, index, a) + Scored(items, index, b)
    decreases |b|
  {
    if b == [] {
      assert a + b == a;
    } else {
      var init, name := b[..|b| - 1], b[|b| - 1];
      ScoredConcat(items, index, a, init);
      ScoredStep(items, index, a + init, name);
      ScoredStep(items, index, init, name);
      LastOfConcat(a, b);
      assert a + b == a + init + [name] && b == init + [name];
      Associative(Scored(items, index, a), Scored(items, index, init), Scored(items, index, [name]));
    }
  }

  lemma ScoredStep(items: seq<NodeGroupItem>, index: Index, names: seq<string>, name: string)
    requires items != []
    ensures Scored(items, index, names + [name]) == Scored(items, index, names) + Scored(items, index, [name])
  {
    ScoredOne(items, index, name);
    assert (names + [name])[..|names|] == names;
  }

  /** Numbers the sorted groups in place and scores the nodes by their group's rank. */
  method RankAndScore(diffList: array<NodeGroupItem>, nodesInNodeGroup: Index, nodeNames: seq<string>)
    returns (priorityList: seq<HostPriority>)
    requires 0 < diffList.Length
    modifies diffList
    ensures forall i :: 0 <= i < diffList.Length ==> diffList[i] == old(diffList[..])[i].(rank := i + 1)
    ensures priorityList == Scored(old(diffList[..]), nodesInNodeGroup, nodeNames)
  {
    ghost var before := diffList[..];
    var n := diffList.Length;
    var ranks: map<string, int> := map[];
    for i := 0 to n
      invariant forall j :: 0 <= j < i ==> diffList[j] == before[j].(rank := j + 1)
      invariant forall j :: i <= j < n ==> diffList[j] == before[j]
      invariant forall g :: Lookup(ranks, g) == RankOf(before[..i], g)
    {
      assert before[..i + 1][..i] == before[..i];
      diffList[i] := diffList[i].(rank := i + 1);
      ranks := ranks[diffList[i].nodeGroupName := diffList[i].rank];
    }
    assert before[..n] == before;
    priorityList := [];
    for i := 0 to |nodeNames|
      invariant forall j :: 0 <= j < n ==> diffList[j] == before[j].(rank := j + 1)
      invariant priorityList == Scored(before, nodesInNodeGroup, nodeNames[..i])
    {
      assert nodeNames[..i + 1][..i] == nodeNames[..i];
      if nodeNames[i] !in nodesInNodeGroup {
        continue;
      }
      RankRange(before, nodesInNodeGroup[nodeNames[i]]);
      var score := ScoreOf(Lookup(ranks, nodesInNodeGroup[nodeNames[i]]), n);
      priorityList := priorityList + [HostPriority(nodeNames[i], score)];
    }
    assert nodeNames[..|nodeNames|] == nodeNames;
  }

  /** A score is ten less the tenths of the list up to the rank, rounded up. */
  lemma ScoreExact(rank: nat, n: nat)
    requires rank <= n && 0 < n
    ensures n * (10 - ScoreOf(rank, n)) - n < 10 * rank <= n * (10 - ScoreOf(rank, n))
  {
    var q, d := rank as real / n as real, ScoreOf(rank, n);
    assert q * n as real == rank as real;
    ScaledBetween(10 * rank, n, 10.0 * q, 10 - d);
  }

  lemma ScaledBetween(x: int, n: int, q: real, c: int)
    requires 0 < n && q * n as real == x as real && (c - 1) as real < q <= c as real
    ensures n * c - n < x <= n * c
  {
    RealScale(q, c as real, n as real);
    RealProduct(c, n);
    RealScaleStrict((c - 1) as real, q, n as real);
    RealProduct(c - 1, n);
    assert (c - 1) * n == n * c - n;
  }

  lemma ScoreOrder(i: nat, j: nat, n: nat)
    requires i < j <= n
    ensures ScoreOf(i, n) >= ScoreOf(j, n)
    ensures n <= 10 ==> ScoreOf(i, n) > ScoreOf(j, n)
  {
    ScoreExact(i, n);
    ScoreExact(j, n);
    var a, b := 10 - ScoreOf(i, n), 10 - ScoreOf(j, n);
    if a > b { MulLe(n, b, a - 1); }
    if n <= 10 && a >= b { MulLe(n, b, a); }
  }

  /** A listed group scores 0 to 9, and a group the share map has no key for scores 10: a group whose
      only listing is second in an entry is preferred to every group with a share. */
  lemma ScoreRange(items: seq<NodeGroupItem>, g: string)
    requires items != []
    ensures 0 <= GroupScore(items, g) <= 10
    ensures GroupScore(items, g) == 10 <==> forall item :: item in items ==> item.nodeGroupName != g
  {
    var n, rank := |items|, RankOf(items, g);
    RankRange(items, g);
    ScoreExact(rank, n);
    var c := 10 - ScoreOf(rank, n);
    if c < 0 { MulLe(n, c, -1); } else if c > 10 { MulLe(n, 11, c); }
    assert c == 0 ==> n * c == 0;
  }

  /** Whatever order the sort leaves equal deficits in, a larger deficit never scores lower, and with
      at most ten groups it scores higher. */
  lemma LargerDeficitNeverScoresLower(items: seq<NodeGroupItem>, i: nat, j: nat)
    requires Descending(items) && DistinctGroups(items) && i < |items| && j < |items|
    requires items[i].podsNum > items[j].podsNum
    ensures GroupScore(items, items[i].nodeGroupName) >= GroupScore(items, items[j].nodeGroupName)
    ensures |items| <= 10 ==> GroupScore(items, items[i].nodeGroupName) > GroupScore(items, items[j].nodeGroupName)
  {
    RankRange(items, items[i].nodeGroupName);
    RankRange(items, items[j].nodeGroupName);
    assert i < j;
    ScoreOrder(i + 1, j + 1, |items|);
  }
}
