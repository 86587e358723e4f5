/** The node-to-group index, and when the scheduler's copy agrees with the controller's. */
module NodeIndex {
  import opened Common
  import opened Api

  /** Nodes the API server lists for a selector, in list order. */
  function ListNodes(nodes: seq<Node>, selector: Selector): seq<Node> {
    if nodes == [] then [] else
      var x := nodes[|nodes| - 1];
      ListNodes(nodes[..|nodes| - 1], selector) + (if selector.Matches(x.labels) then [x] else [])
  }

  ghost predicate InGroup(nodes: seq<Node>, group: NodeGroup, name: string) {
    exists x :: x in nodes && x.name == name && group.matchLabels.Matches(x.labels)
  }

  /** The last listed group that selects the node. */
  ghost function LastGroup(nodes: seq<Node>, groups: seq<NodeGroup>, name: string): Option<string> {
    if groups == [] then None
    else
      var g := groups[|groups| - 1];
      if InGroup(nodes, g, name) then Some(g.name) else LastGroup(nodes, groups[..|groups| - 1], name)
  }

  ghost function Names(nodes: seq<Node>): set<string> {
    set x | x in nodes :: x.name
  }

  /** The index: every selected node mapped to the last listed group selecting it. */
  ghost function IndexOf(nodes: seq<Node>, groups: seq<NodeGroup>): map<string, string> {
    map n | n in Names(nodes) && LastGroup(nodes, groups, n).Some? :: LastGroup(nodes, groups, n).value
  }

  lemma {:induction false} ListNodesMembers(nodes: seq<Node>, selector: Selector, x: Node)
    ensures x in ListNodes(nodes, selector) <==> x in nodes && selector.Matches(x.labels)
  {
    if nodes != [] {
      var n := |nodes| - 1;
      ListNodesMembers(nodes[..n], selector, x);
      assert nodes == nodes[..n] + [nodes[n]];
    }
  }

  lemma LastGroupIsInIndex(nodes: seq<Node>, groups: seq<NodeGroup>, n: string)
    ensures LastGroup(nodes, groups, n).Some? <==> n in IndexOf(nodes, groups)
  {
    if LastGroup(nodes, groups, n).Some? {
      var g := LastGroupSound(nodes, groups, n);
    }
  }

  /** The indexed group is one that selects the node; an unindexed node is selected by none. */
  lemma {:induction false} LastGroupSound(nodes: seq<Node>, groups: seq<NodeGroup>, n: string)
    returns (g: NodeGroup)
    requires LastGroup(nodes, groups, n).Some?
    ensures g in groups && InGroup(nodes, g, n) && LastGroup(nodes, groups, n) == Some(g.name)
    ensures n in Names(nodes)
  {
    var i := |groups| - 1;
    if InGroup(nodes, groups[i], n) { g := groups[i]; } else { g := LastGroupSound(nodes, groups[..i], n); }
  }

  lemma {:induction false} LastGroupComplete(nodes: seq<Node>, groups: seq<NodeGroup>, n: string, g: NodeGroup)
    requires g in groups && InGroup(nodes, g, n)
    ensures LastGroup(nodes, groups, n).Some?
  {
    var i := |groups| - 1;
    if !InGroup(nodes, groups[i], n) {
      assert groups == groups[..i] + [groups[i]];
      LastGroupComplete(nodes, groups[..i], n, g);
    }
  }

  /** The index names the last listed group selecting the node. */
  lemma {:induction false} LastGroupExact(nodes: seq<Node>, groups: seq<NodeGroup>, n: string, i: nat)
    requires i < |groups| && InGroup(nodes, groups[i], n)
    requires forall j :: i < j < |groups| ==> !InGroup(nodes, groups[j], n)
    ensures n in IndexOf(nodes, groups) && IndexOf(nodes, groups)[n] == groups[i].name
  {
    var last := |groups| - 1;
    if i < last { LastGroupExact(nodes, groups[..last], n, i); }
    LastGroupIsInIndex(nodes, groups, n);
    LastGroupIsInIndex(nodes, groups[..last], n);
  }

  /** Nested loops over groups and listed nodes; a later group overwrites an earlier one. A group
      whose selector cannot be converted fails the call. */
  method GetNodesInGroups(nodes: seq<Node>, groups: seq<NodeGroup>) returns (r: Result<map<string, string>>)
    ensures r.Err? <==> exists g :: g in groups && g.matchLabels.Malformed?
    ensures r.Ok? ==> r.value == IndexOf(nodes, groups)
  {
    var nodesInGroups: map<string, string> := map[];
    for i := 0 to |groups|
      invariant nodesInGroups == IndexOf(nodes, groups[..i])
      invariant forall k :: 0 <= k < i ==> !groups[k].matchLabels.Malformed?
    {
      var group := groups[i];
      if group.matchLabels.Malformed? {
        return Err;
      }
      var nodeList := ListNodes(nodes, group.matchLabels);
      ghost var before := nodesInGroups;
      for j := 0 to |nodeList|
        invariant Overwritten(before, nodeList[..j], group.name, nodesInGroups)
      {
        nodesInGroups := nodesInGroups[nodeList[j].name := group.name];
      }
      assert nodeList[..|nodeList|] == nodeList;
      IndexStep(nodes, groups, i, nodesInGroups);
    }
    assert groups[..|groups|] == groups;
    r := Ok(nodesInGroups);
  }

  /** `after` is `before` with every listed node mapped to `group`. */
  ghost predicate Overwritten(before: Index, listed: seq<Node>, group: string, after: Index) {
    forall n :: if exists x :: x in listed && x.name == n then n in after && after[n] == group
                else if n in before then n in after && after[n] == before[n]
                else n !in after
  }

  lemma IndexStep(nodes: seq<Node>, groups: seq<NodeGroup>, i: nat, m: map<string, string>)
    requires i < |groups|
    requires Overwritten(IndexOf(nodes, groups[..i]), ListNodes(nodes, groups[i].matchLabels), groups[i].name, m)
    ensures m == IndexOf(nodes, groups[..i + 1])
  {
    var listed := ListNodes(nodes, groups[i].matchLabels);
    assert groups[..i + 1][..i] == groups[..i];
    forall n ensures InGroup(nodes, groups[i], n) <==> exists x :: x in listed && x.name == n {
      if InGroup(nodes, groups[i], n) {
        var x :| x in nodes && x.name == n && groups[i].matchLabels.Matches(x.labels);
        ListNodesMembers(nodes, groups[i].matchLabels, x);
      }
      if x :| x in listed && x.name == n {
        ListNodesMembers(nodes, groups[i].matchLabels, x);
      }
    }
    forall n ensures n in m <==> n in IndexOf(nodes, groups[..i + 1])
             ensures n in m ==> m[n] == IndexOf(nodes, groups[..i + 1])[n]
    {
      LastGroupIsInIndex(nodes, groups[..i + 1], n);
      LastGroupIsInIndex(nodes, groups[..i], n);
    }
  }

  /* ---------- fetching a policy's groups ---------- */

  /** Policies name groups of the namespace "default". */
  predicate IsTarget(g: NodeGroup, name: string) {
    g.namespace == "default" && g.name == name
  }

  function FindGroup(groups: seq<NodeGroup>, name: string): Option<NodeGroup> {
    if groups == [] then None
    else if IsTarget(groups[0], name) then Some(groups[0])
    else FindGroup(groups[1..], name)
  }

  ghost predicate UniqueGroups(groups: seq<NodeGroup>) {
    forall g, h :: g in groups && h in groups && g.namespace == h.namespace && g.name == h.name ==> g == h
  }

  lemma FindGroupSound(groups: seq<NodeGroup>, name: string)
    ensures FindGroup(groups, name).Some? ==>
              FindGroup(groups, name).value in groups && IsTarget(FindGroup(groups, name).value, name)
    ensures FindGroup(groups, name).None? <==> forall g :: g in groups ==> !IsTarget(g, name)
  {
  }

  /** Every name denotes a stored group. */
  predicate Resolves(groups: seq<NodeGroup>, names: seq<string>) {
    forall i :: 0 <= i < |names| ==> FindGroup(groups, names[i]).Some?
  }

  /** The stored groups of a list of names, in the order of the names. */
  function Fetched(groups: seq<NodeGroup>, names: seq<string>): seq<NodeGroup>
    requires Resolves(groups, names)
  {
    seq(|names|, i requires 0 <= i < |names| => FindGroup(groups, names[i]).value)
  }

  lemma FetchedIs(groups: seq<NodeGroup>, names: seq<string>)
    requires Resolves(groups, names)
    ensures IsFetched(groups, names, Fetched(groups, names))
  {
    forall i | 0 <= i < |names| { FindGroupSound(groups, names[i]); }
  }

  /** The namespace "default" has a group of that name. */
  ghost predicate Stored(groups: seq<NodeGroup>, n: string) {
    exists g :: g in groups && g.namespace == "default" && g.name == n
  }

  /** One GET per name, in order; the first missing group fails the call. */
  method GetNodeGroupsWithName(groups: seq<NodeGroup>, names: seq<string>) returns (r: Result<seq<NodeGroup>>)
    ensures r.Ok? <==> Resolves(groups, names)
    ensures r.Ok? ==> r.value == Fetched(groups, names)
    ensures r.Ok? <==> forall n :: n in names ==> Stored(groups, n)
    ensures r.Ok? ==> |r.value| == |names| && forall i :: 0 <= i < |names| ==>
      r.value[i] in groups && r.value[i].namespace == "default" && r.value[i].name == names[i]
  {
    var nodegroup: seq<NodeGroup> := [];
    for i := 0 to |names|
      invariant Resolves(groups, names[..i])
      invariant nodegroup == Fetched(groups, names[..i])
    {
      FindGroupSound(groups, names[i]);
      match FindGroup(groups, names[i]) {
        case None => assert !Stored(groups, names[i]); return Err;
        case Some(group) => nodegroup := nodegroup + [group];
      }
    }
    assert names[..|names|] == names;
    FetchedIs(groups, names);
    r := Ok(nodegroup);
  }

  /** `fetched` holds, name by name, the stored group of that name. */
  ghost predicate IsFetched(groups: seq<NodeGroup>, names: seq<string>, fetched: seq<NodeGroup>) {
    |fetched| == |names| && forall i :: 0 <= i < |names| ==> fetched[i] in groups && IsTarget(fetched[i], names[i])
  }

  /* ---------- agreement of the two indexes ---------- */

  /** The part of an index that points into the named groups. */
  ghost function Restrict(index: Index, names: seq<string>): map<string, string> {
    map n | n in index && index[n] in names :: index[n]
  }

  /** No node of a target group is selected by a group of another name. */
  ghost predicate NoOverlap(nodes: seq<Node>, groups: seq<NodeGroup>, names: seq<string>) {
    forall n, g, h :: (g in groups && h in groups && g.name in names && IsTarget(g, g.name)
      && InGroup(nodes, g, n) && InGroup(nodes, h, n)) ==> g.name == h.name
  }

  /** A group of another namespace that bears a target's name selects no node the target does not. */
  ghost predicate NoImpostor(nodes: seq<Node>, groups: seq<NodeGroup>, names: seq<string>) {
    forall n, h :: h in groups && h.name in names && InGroup(nodes, h, n) ==>
      exists g :: g in groups && IsTarget(g, h.name) && InGroup(nodes, g, n)
  }

  ghost predicate TargetsDisjoint(nodes: seq<Node>, groups: seq<NodeGroup>, names: seq<string>) {
    NoOverlap(nodes, groups, names) && NoImpostor(nodes, groups, names)
  }

  /** The scheduler's index, built from the policy's groups only, is the controller's index of all
      groups restricted to the policy's groups. */
  lemma IndexesAgree(nodes: seq<Node>, groups: seq<NodeGroup>, names: seq<string>, fetched: seq<NodeGroup>)
    requires IsFetched(groups, names, fetched) && UniqueGroups(groups)
    requires TargetsDisjoint(nodes, groups, names)
    ensures IndexOf(nodes, fetched) == Restrict(IndexOf(nodes, groups), names)
  {
    var small, large := IndexOf(nodes, fetched), Restrict(IndexOf(nodes, groups), names);
    forall n ensures n in small ==> n in large && large[n] == small[n]
             ensures n in large ==> n in small
    {
      LastGroupIsInIndex(nodes, fetched, n);
      LastGroupIsInIndex(nodes, groups, n);
      if n in small {
        var g := FetchedSelector(nodes, groups, names, fetched, n);
        LastGroupComplete(nodes, groups, n, g);
        var h := LastGroupSound(nodes, groups, n);
      }
      if n in large {
        var h := LastGroupSound(nodes, groups, n);
        var g :| g in groups && IsTarget(g, h.name) && InGroup(nodes, g, n);
        TargetIsFetched(groups, names, fetched, g);
        LastGroupComplete(nodes, fetched, n, g);
      }
    }
  }

  /** The scheduler's entry for a node is a target group selecting it. */
  lemma FetchedSelector(nodes: seq<Node>, groups: seq<NodeGroup>, names: seq<string>,
                        fetched: seq<NodeGroup>, n: string)
    returns (g: NodeGroup)
    requires IsFetched(groups, names, fetched) && n in IndexOf(nodes, fetched)
    ensures g in groups && g.name in names && IsTarget(g, g.name) && InGroup(nodes, g, n)
    ensures IndexOf(nodes, fetched)[n] == g.name
  {
    LastGroupIsInIndex(nodes, fetched, n);
    g := LastGroupSound(nodes, fetched, n);
    var i :| 0 <= i < |fetched| && fetched[i] == g;
  }

  lemma TargetIsFetched(groups: seq<NodeGroup>, names: seq<string>, fetched: seq<NodeGroup>, g: NodeGroup)
    requires IsFetched(groups, names, fetched) && UniqueGroups(groups)
    requires g in groups && g.name in names && IsTarget(g, g.name)
    ensures g in fetched
  {
    var i :| 0 <= i < |names| && names[i] == g.name;
    assert fetched[i] == g;
  }

  /** The list with its i-th group moved to the end. */
  function MoveLast(groups: seq<NodeGroup>, i: nat): seq<NodeGroup>
    requires i < |groups|
  {
    groups[..i] + groups[i + 1..] + [groups[i]]
  }

  lemma MoveLastIsPermutation(groups: seq<NodeGroup>, i: nat)
    requires i < |groups|
    ensures multiset(MoveLast(groups, i)) == multiset(groups)
  {
    assert groups == groups[..i] + [groups[i]] + groups[i + 1..];
  }

  /** Every listing order of the same groups gives an index that agrees with the scheduler's. */
  ghost predicate AgreeInEveryOrder(nodes: seq<Node>, groups: seq<NodeGroup>, names: seq<string>,
                                    fetched: seq<NodeGroup>) {
    forall order: seq<NodeGroup> :: multiset(order) == multiset(groups) ==>
      IndexOf(nodes, fetched) == Restrict(IndexOf(nodes, order), names)
  }

  lemma SameMembers(a: seq<NodeGroup>, b: seq<NodeGroup>)
    requires multiset(a) == multiset(b)
    ensures forall g :: g in a <==> g in b
  {
    forall g ensures g in a <==> g in b { assert g in multiset(a) <==> g in multiset(b); }
  }

  /** The list order of the API server is not fixed, and the two indexes agree in every order
      exactly when no node of a target group is selected by a group of another name, and no group of
      another namespace selects further nodes under a target's name. */
  lemma IndexesAgreeExactly(nodes: seq<Node>, groups: seq<NodeGroup>, names: seq<string>, fetched: seq<NodeGroup>)
    requires IsFetched(groups, names, fetched) && UniqueGroups(groups)
    ensures AgreeInEveryOrder(nodes, groups, names, fetched) <==> TargetsDisjoint(nodes, groups, names)
  {
    if TargetsDisjoint(nodes, groups, names) {
      forall order: seq<NodeGroup> | multiset(order) == multiset(groups)
        ensures IndexOf(nodes, fetched) == Restrict(IndexOf(nodes, order), names)
      {
        SameMembers(order, groups);
        IndexesAgree(nodes, order, names, fetched);
      }
    } else if !NoOverlap(nodes, groups, names) {
      var n, g, h :| g in groups && h in groups && g.name in names && IsTarget(g, g.name)
        && InGroup(nodes, g, n) && InGroup(nodes, h, n) && g.name != h.name;
      TargetIsFetched(groups, names, fetched, g);
      LastGroupComplete(nodes, fetched, n, g);
      LastGroupIsInIndex(nodes, fetched, n);
      DisagreeWithLast(nodes, groups, names, fetched, n, if IndexOf(nodes, fetched)[n] == g.name then h else g);
    } else {
      var n, h :| h in groups && h.name in names && InGroup(nodes, h, n)
        && !exists g :: g in groups && IsTarget(g, h.name) && InGroup(nodes, g, n);
      if n in IndexOf(nodes, fetched) {
        var g := FetchedSelector(nodes, groups, names, fetched, n);
      }
      DisagreeWithLast(nodes, groups, names, fetched, n, h);
    }
  }

  /** Listing `last` at the end makes the controller's index name it; if the scheduler's entry for
      the node is another, or there is none although `last` bears a target's name, they disagree. */
  lemma DisagreeWithLast(nodes: seq<Node>, groups: seq<NodeGroup>, names: seq<string>, fetched: seq<NodeGroup>,
                         n: string, last: NodeGroup)
    requires last in groups && InGroup(nodes, last, n)
    requires if n in IndexOf(nodes, fetched) then IndexOf(nodes, fetched)[n] != last.name else last.name in names
    ensures !AgreeInEveryOrder(nodes, groups, names, fetched)
  {
    var k :| 0 <= k < |groups| && groups[k] == last;
    var order := MoveLast(groups, k);
    MoveLastIsPermutation(groups, k);
    assert LastGroup(nodes, order, n) == Some(last.name);
    LastGroupIsInIndex(nodes, order, n);
    assert n in Restrict(IndexOf(nodes, order), names) <==> last.name in names;
  }

  /** When no node is selected by two groups the index does not depend on the list order. */
  lemma IndexOrderFree(nodes: seq<Node>, groups: seq<NodeGroup>, order: seq<NodeGroup>)
    requires multiset(groups) == multiset(order)
    requires forall n, g, h :: (g in groups && h in groups && InGroup(nodes, g, n) && InGroup(nodes, h, n))
               ==> g.name == h.name
    ensures IndexOf(nodes, groups) == IndexOf(nodes, order)
  {
    SameMembers(groups, order);
    forall n ensures LastGroup(nodes, groups, n) == LastGroup(nodes, order, n) {
      if LastGroup(nodes, groups, n).Some? {
        var g := LastGroupSound(nodes, groups, n);
        LastGroupComplete(nodes, order, n, g);
      }
      if LastGroup(nodes, order, n).Some? {
        var h := LastGroupSound(nodes, order, n);
        LastGroupComplete(nodes, groups, n, h);
        var g := LastGroupSound(nodes, groups, n);
      }
    }
  }
}
