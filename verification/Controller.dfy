/** The policy controller: one reconcile corrects every deployment of a policy in turn, deleting
    pods from the API server as it goes. */
module Controller {
  import opened Common
  import opened Api
  import opened Apportionment
  import opened Shares
  import opened NodeIndex
  import opened Placement
  import opened Correction
  import opened Lookups

  ghost predicate HasKey(pods: seq<Pod>, k: Key) {
    exists p :: p in pods && p.key == k
  }

  /** Pod identities are unique. */
  ghost predicate UniqueKeys(pods: seq<Pod>) {
    forall i, j :: 0 <= i < j < |pods| ==> pods[i].key != pods[j].key
  }

  /** The list without the pods named in `gone`. */
  ghost function Removing(pods: seq<Pod>, gone: seq<Pod>): seq<Pod> {
    if pods == [] then [] else
      var n := |pods| - 1;
      Removing(pods[..n], gone) + (if HasKey(gone, pods[n].key) then [] else [pods[n]])
  }

  function Without(pods: seq<Pod>, k: Key): seq<Pod> {
    if pods == [] then [] else
      var n := |pods| - 1;
      Without(pods[..n], k) + (if pods[n].key == k then [] else [pods[n]])
  }

  lemma {:induction false} RemovingOneMore(pods: seq<Pod>, gone: seq<Pod>, p: Pod)
    ensures Without(Removing(pods, gone), p.key) == Removing(pods, gone + [p])
  {
    if pods != [] {
      var n := |pods| - 1;
      RemovingOneMore(pods[..n], gone, p);
      assert HasKey(gone + [p], pods[n].key) <==> HasKey(gone, pods[n].key) || pods[n].key == p.key by {
        assert p in gone + [p];
        if q :| q in gone && q.key == pods[n].key { assert q in gone + [p]; }
      }
      var r := Removing(pods[..n], gone);
      assert (r + [pods[n]])[..|r|] == r;
      assert Removing(pods, gone) == if HasKey(gone, pods[n].key) then r else r + [pods[n]];
    }
  }

  lemma {:induction false} RemovingNothing(pods: seq<Pod>)
    ensures Removing(pods, []) == pods
  {
    if pods != [] { RemovingNothing(pods[..|pods| - 1]); }
  }

  /** One deployment's correction: its excess pods leave the cluster, unless their deletion is
      refused. A deployment whose selector cannot be converted is skipped. */
  ghost function CorrectOne(pods: seq<Pod>, d: Deployment, share: map<string, int>, index: Index, refused: set<Key>)
    : seq<Pod>
  {
    if d.selector.Malformed? then pods
    else Removing(pods, Granted(DeletedInt32(PodsOf(pods, d.selector), share, index), refused))
  }

  ghost function CorrectAll(pods: seq<Pod>, ds: seq<Deployment>, shares: seq<map<string, int>>, index: Index,
                            refused: set<Key>): seq<Pod>
    requires |ds| == |shares|
  {
    if ds == [] then pods else
      var n := |ds| - 1;
      CorrectOne(CorrectAll(pods, ds[..n], shares[..n], index, refused), ds[n], shares[n], index, refused)
  }

  function FindPolicy(policies: seq<Policy>, k: Key): Option<Policy> {
    if policies == [] then None
    else if policies[0].key == k then Some(policies[0])
    else FindPolicy(policies[1..], k)
  }

  /** The search is by namespace and name: it finds a policy of that key if there is one. */
  lemma {:induction false} FindPolicyExact(policies: seq<Policy>, k: Key)
    ensures FindPolicy(policies, k).Some? ==>
              FindPolicy(policies, k).value in policies && FindPolicy(policies, k).value.key == k
    ensures FindPolicy(policies, k).None? <==> forall p :: p in policies ==> p.key != k
  {
    if policies != [] {
      FindPolicyExact(policies[1..], k);
      assert policies == [policies[0]] + policies[1..];
    }
  }

  /** Each deployment's share map is one its own allocator call may return. */
  ghost predicate AreShares(ws: seq<Weight>, ds: seq<Deployment>, rnd: Rounding, shares: seq<map<string, int>>)
    requires forall e :: e in ws ==> e.names != []
  {
    |ds| == |shares| && forall i :: 0 <= i < |ds| ==> IsShare(ws, ds[i].replicas, rnd, shares[i])
  }

  lemma ShareExists(ws: seq<Weight>, r: int, rnd: Rounding) returns (m: map<string, int>)
    requires forall e :: e in ws ==> e.names != []
    ensures IsShare(ws, r, rnd, m)
  {
    m := Base(ws, SumWeights(ws), r, rnd);
    if ws != [] {
      var g := ws[|ws| - 1].names[0];
      WrittenAt(ws[|ws| - 1].names, g);
      BaseKeys(ws, SumWeights(ws), r, rnd, g);
      RecipientIsShare(ws, r, rnd, g);
      m := ShareFor(ws, r, rnd, g);
    }
  }

  datatype DeleteOutcome = Done | Missing | Refused

  lemma {:induction false} WithoutAbsent(pods: seq<Pod>, k: Key)
    ensures |Without(pods, k)| <= |pods|
    ensures |Without(pods, k)| == |pods| <==> !HasKey(pods, k)
  {
    if pods != [] {
      var n := |pods| - 1;
      WithoutAbsent(pods[..n], k);
      assert pods == pods[..n] + [pods[n]];
      assert HasKey(pods, k) <==> HasKey(pods[..n], k) || pods[n].key == k by {
        assert pods[n] in pods;
        if p :| p in pods[..n] && p.key == k { assert p in pods; }
      }
    }
  }

  /** Some deletion is not refused and finds no pod. */
  ghost predicate SomeMissing(pods: seq<Pod>, gone: seq<Pod>, refused: set<Key>) {
    gone != [] &&
    var n := |gone| - 1;
    || SomeMissing(pods, gone[..n], refused)
    || (gone[n].key !in refused && !HasKey(Removing(pods, Granted(gone[..n], refused)), gone[n].key))
  }

  /** The i-th deletion is not refused, and its pod never existed or an earlier deletion took it. */
  ghost predicate FindsNoPod(pods: seq<Pod>, gone: seq<Pod>, i: nat, refused: set<Key>)
    requires i < |gone|
  {
    gone[i].key !in refused && (!HasKey(pods, gone[i].key) || exists j :: 0 <= j < i && gone[j].key == gone[i].key)
  }

  lemma StillThere(pods: seq<Pod>, gone: seq<Pod>, refused: set<Key>)
    requires gone != []
    ensures var n := |gone| - 1;
      gone[n].key !in refused ==>
        (HasKey(Removing(pods, Granted(gone[..n], refused)), gone[n].key) <==> !FindsNoPod(pods, gone, n, refused))
  {
    var n := |gone| - 1;
    var k, earlier := gone[n].key, Granted(gone[..n], refused);
    if k !in refused {
      assert HasKey(earlier, k) <==> exists j :: 0 <= j < n && gone[j].key == k by {
        if p :| p in earlier && p.key == k { GrantedMembers(gone[..n], refused, p); }
        if j :| 0 <= j < n && gone[j].key == k {
          assert gone[..n][j] == gone[j];
          GrantedMembers(gone[..n], refused, gone[j]);
        }
      }
      if p :| p in pods && p.key == k { RemovingMembers(pods, earlier, p); }
      if p :| p in Removing(pods, earlier) && p.key == k { RemovingMembers(pods, earlier, p); }
    }
  }

  lemma {:induction false} SomeMissingExactly(pods: seq<Pod>, gone: seq<Pod>, refused: set<Key>)
    ensures SomeMissing(pods, gone, refused) <==>
      exists i :: 0 <= i < |gone| && FindsNoPod(pods, gone, i, refused)
  {
    if gone != [] {
      var n := |gone| - 1;
      SomeMissingExactly(pods, gone[..n], refused);
      StillThere(pods, gone, refused);
      assert forall i :: 0 <= i < n ==> FindsNoPod(pods, gone[..n], i, refused) == FindsNoPod(pods, gone, i, refused);
    }
  }

  /** Deletions of distinct existing pods all find their pod. */
  lemma NoneMissing(pods: seq<Pod>, gone: seq<Pod>, refused: set<Key>)
    requires UniqueKeys(gone) && forall p :: p in gone ==> p in pods
    ensures !SomeMissing(pods, gone, refused)
  {
    SomeMissingExactly(pods, gone, refused);
  }

  lemma {:induction false} DeletedUnique(pods: seq<Pod>, share: map<string, int>, index: Index)
    requires UniqueKeys(pods)
    ensures UniqueKeys(DeletedInt32(pods, share, index))
  {
    if pods != [] {
      var n := |pods| - 1;
      DeletedUnique(pods[..n], share, index);
      forall p | p in DeletedInt32(pods[..n], share, index) ensures p.key != pods[n].key {
        DeletedInt32Members(pods[..n], share, index, p);
      }
    }
  }

  lemma DeletedAreListed(pods: seq<Pod>, sel: Selector, share: map<string, int>, index: Index)
    requires UniqueKeys(pods)
    ensures UniqueKeys(DeletedInt32(PodsOf(pods, sel), share, index))
    ensures forall p :: p in DeletedInt32(PodsOf(pods, sel), share, index) ==> p in pods
  {
    PodsOfUnique(pods, sel);
    DeletedUnique(PodsOf(pods, sel), share, index);
    forall p | p in DeletedInt32(PodsOf(pods, sel), share, index) ensures p in pods {
      DeletedInt32Members(PodsOf(pods, sel), share, index, p);
      PodsOfMembers(pods, sel, p);
    }
  }

  /** The API server's store. Reconciling changes only the pods. */
  class ApiServer {
    const nodes: seq<Node>
    const groups: seq<NodeGroup>
    const deployments: map<Key, Deployment>
    const policies: seq<Policy>
    var pods: seq<Pod>

    constructor (store: Snapshot)
      ensures Store() == store
    {
      nodes, groups, deployments, policies := store.nodes, store.groups, store.deployments, store.policies;
      pods := store.pods;
    }

    function Store(): Snapshot
      reads this
    {
      Snapshot(nodes, groups, deployments, policies, pods)
    }

    /** A refused deletion changes nothing; deleting a pod that does not exist is an error too. */
    method Delete(pod: Pod, refused: set<Key>) returns (outcome: DeleteOutcome)
      modifies this`pods
      ensures outcome.Refused? <==> pod.key in refused
      ensures outcome.Missing? <==> pod.key !in refused && !HasKey(old(pods), pod.key)
      ensures pods == if outcome.Refused? then old(pods) else Without(old(pods), pod.key)
    {
      if pod.key in refused {
        return Refused;
      }
      WithoutAbsent(pods, pod.key);
      var rest := Without(pods, pod.key);
      outcome := if |rest| == |pods| then Missing else Done;
      pods := rest;
    }

    /** Deletes the listed pods one by one. The source reports the deletions that found no pod and
        drops every other error. */
    method DeleteAll(deletePods: seq<Pod>, refused: set<Key>) returns (failed: bool)
      modifies this`pods
      ensures pods == Removing(old(pods), Granted(deletePods, refused))
      ensures failed <==> exists i :: 0 <= i < |deletePods| && FindsNoPod(old(pods), deletePods, i, refused)
    {
      RemovingNothing(pods);
      failed := false;
      for i := 0 to |deletePods|
        invariant pods == Removing(old(pods), Granted(deletePods[..i], refused))
        invariant failed <==> SomeMissing(old(pods), deletePods[..i], refused)
      {
        ghost var gone := Granted(deletePods[..i], refused);
        RemovingOneMore(old(pods), gone, deletePods[i]);
        assert deletePods[..i + 1][..i] == deletePods[..i];
        assert Granted(deletePods[..i + 1], refused) ==
          if deletePods[i].key in refused then gone else gone + [deletePods[i]];
        var outcome := Delete(deletePods[i], refused);
        if outcome.Missing? {
          failed := true;
        }
      }
      assert deletePods[..|deletePods|] == deletePods;
      SomeMissingExactly(old(pods), deletePods, refused);
    }

    /** The loop body of a reconcile: list the deployment's pods, compute its shares, delete the
        excess. A selector that cannot be converted or an empty list skips the deployment. */
    method CorrectDeployment(deploy: Deployment, weights: seq<Weight>, index: Index, rnd: Rounding, refused: set<Key>)
      returns (failed: bool, ghost share: map<string, int>)
      requires ValidWeights(weights) && Tolerable(weights, deploy.replicas, rnd) && 0 <= deploy.replicas < TWO_31
      modifies this`pods
      ensures IsShare(weights, deploy.replicas, rnd, share)
      ensures pods == CorrectOne(old(pods), deploy, share, index, refused)
      ensures UniqueKeys(old(pods)) ==> !failed
    {
      share := ShareExists(weights, deploy.replicas, rnd);
      failed := false;
      if deploy.selector.Malformed? {
        return;
      }
      var podList := PodsOf(pods, deploy.selector);
      if |podList| == 0 {
        RemovingNothing(pods);
        return;
      }
      var desiredPods := DesiredPodsNumInTargetNodeGroups(weights, deploy.replicas, rnd);
      var deletePods := GetPodsNeedToDelete(podList, desiredPods, index);
      if UniqueKeys(pods) {
        DeletedAreListed(pods, deploy.selector, desiredPods, index);
        NoneMissing(pods, deletePods, refused);
        SomeMissingExactly(pods, deletePods, refused);
      }
      failed := DeleteAll(deletePods, refused);
      share := desiredPods;
    }

    /** The loop over a policy's deployments. */
    method CorrectDeployments(deploys: seq<Deployment>, weights: seq<Weight>, index: Index, rnd: Rounding,
                              refused: set<Key>)
      returns (failed: bool, ghost shares: seq<map<string, int>>)
      requires ValidWeights(weights)
      requires forall d :: d in deploys ==> 0 <= d.replicas < TWO_31 && Tolerable(weights, d.replicas, rnd)
      modifies this`pods
      ensures AreShares(weights, deploys, rnd, shares)
      ensures pods == CorrectAll(old(pods), deploys, shares, index, refused)
      ensures UniqueKeys(old(pods)) ==> !failed
    {
      shares, failed := [], false;
      for i := 0 to |deploys|
        invariant AreShares(weights, deploys[..i], rnd, shares)
        invariant pods == CorrectAll(old(pods), deploys[..i], shares, index, refused)
        invariant UniqueKeys(old(pods)) ==> !failed
      {
        ghost var before := shares;
        if UniqueKeys(old(pods)) { CorrectAllShrinks(old(pods), deploys[..i], shares, index, refused); }
        var error;
        ghost var share;
        error, share := CorrectDeployment(deploys[i], weights, index, rnd, refused);
        failed := failed || error;
        shares := shares + [share];
        assert deploys[..i + 1][..i] == deploys[..i] && shares[..i] == before;
      }
      assert deploys[..|deploys|] == deploys;
    }

    /** One run of the controller's work queue item. `refused` are the pods that the API server will
        not let the controller delete. No error is returned, whatever is refused. */
    method Reconcile(key: Key, rnd: Rounding, refused: set<Key>)
      returns (requeue: bool, failed: bool, ghost shares: seq<map<string, int>>)
      requires forall p :: p in policies ==> ValidWeights(p.weights)
      requires forall k :: k in deployments ==> 0 <= deployments[k].replicas < TWO_31
      requires FindPolicy(policies, key).Some? ==> TolerableForPolicy(Store(), FindPolicy(policies, key).value, rnd)
      modifies this`pods
      ensures UniqueKeys(old(pods)) ==> !failed
      ensures (forall p :: p in policies ==> p.key != key) ==> !requeue && !failed && pods == old(pods)
      ensures var policy := FindPolicy(policies, key);
        var badGroup := exists g :: g in groups && g.matchLabels.Malformed?;
        if policy.None? || badGroup then !requeue && pods == old(pods)
        else if exists k :: k in policy.value.resources && k !in deployments then requeue && pods == old(pods)
        else
          var ds := StoredDeploys(old(Store()), policy.value.resources);
          && !requeue
          && policy.value in policies && policy.value.key == key
          && IsManifested(old(Store()), policy.value.resources, ds)
          && (forall e :: e in policy.value.weights ==> e.names != [])
          && AreShares(policy.value.weights, ds, rnd, shares)
          && pods == CorrectAll(old(pods), ds, shares, IndexOf(nodes, groups), refused)
    {
      shares := [];
      FindPolicyExact(policies, key);
      var found := FindPolicy(policies, key);
      if found.None? {
        return false, false, shares;
      }
      var policy := found.value;
      var nodesInNodeGroups := GetNodesInGroups(nodes, groups);
      if nodesInNodeGroups.Err? {
        return false, false, shares;
      }
      var index := nodesInNodeGroups.value;
      var deploys, missing := GetManifestsDeploys(Store(), policy);
      forall d | d in deploys ensures 0 <= d.replicas < TWO_31 {
        StoredDeploysMembers(Store(), policy.resources, d);
      }
      if missing {
        return true, false, shares;
      }
      requeue := false;
      failed, shares := CorrectDeployments(deploys, policy.weights, index, rnd, refused);
    }
  }

  /* ---------- what a reconcile does to the cluster ---------- */

  lemma {:induction false} RemovingMembers(pods: seq<Pod>, gone: seq<Pod>, p: Pod)
    ensures p in Removing(pods, gone) <==> p in pods && !HasKey(gone, p.key)
  {
    if pods != [] {
      var n := |pods| - 1;
      RemovingMembers(pods[..n], gone, p);
      assert pods == pods[..n] + [pods[n]];
    }
  }

  /** Listing and removing commute. */
  lemma {:induction false} PodsOfRemoving(pods: seq<Pod>, gone: seq<Pod>, sel: Selector)
    ensures PodsOf(Removing(pods, gone), sel) == Removing(PodsOf(pods, sel), gone)
  {
    if pods != [] {
      var n := |pods| - 1;
      var r, l := Removing(pods[..n], gone), PodsOf(pods[..n], sel);
      PodsOfRemoving(pods[..n], gone, sel);
      assert (r + [pods[n]])[..|r|] == r && (l + [pods[n]])[..|l|] == l;
      assert Removing(pods, gone) == if HasKey(gone, pods[n].key) then r else r + [pods[n]];
      assert PodsOf(pods, sel) == if sel.Matches(pods[n].labels) then l + [pods[n]] else l;
    }
  }

  lemma {:induction false} PodsOfUnique(pods: seq<Pod>, sel: Selector)
    requires UniqueKeys(pods)
    ensures UniqueKeys(PodsOf(pods, sel))
  {
    if pods != [] {
      var n := |pods| - 1;
      PodsOfUnique(pods[..n], sel);
      forall p | p in PodsOf(pods[..n], sel) ensures p.key != pods[n].key {
        PodsOfMembers(pods[..n], sel, p);
      }
    }
  }

  lemma {:induction false} RemovingStranger(pods: seq<Pod>, gone: seq<Pod>, p: Pod)
    requires !HasKey(pods, p.key)
    ensures Removing(pods, gone + [p]) == Removing(pods, gone)
  {
    if pods != [] {
      var n := |pods| - 1;
      assert pods[n] in pods;
      assert forall q :: q in pods[..n] ==> q in pods;
      RemovingStranger(pods[..n], gone, p);
      assert HasKey(gone + [p], pods[n].key) <==> HasKey(gone, pods[n].key) by {
        if q :| q in gone && q.key == pods[n].key { assert q in gone + [p]; }
      }
    }
  }

  lemma {:induction false} DeletedMembers(pods: seq<Pod>, share: map<string, int>, index: Index, p: Pod)
    requires p in Deleted(pods, share, index)
    ensures p in pods && p.nodeName != "" && p.nodeName in index && GroupOf(p, index).Some?
  {
    var n := |pods| - 1;
    if p in Deleted(pods[..n], share, index) { DeletedMembers(pods[..n], share, index, p); }
  }

  lemma {:induction false} DeletedInt32Members(pods: seq<Pod>, share: map<string, int>, index: Index, p: Pod)
    requires p in DeletedInt32(pods, share, index)
    ensures p in pods && p.nodeName != "" && p.nodeName in index && GroupOf(p, index).Some?
  {
    var n := |pods| - 1;
    if p in DeletedInt32(pods[..n], share, index) { DeletedInt32Members(pods[..n], share, index, p); }
  }

  /** Deleting the excess pods by identity leaves exactly the pods within the share and those whose
      deletion is refused. */
  lemma {:induction false} RemovingDeletedIsKept(pods: seq<Pod>, share: map<string, int>, index: Index,
                                                 refused: set<Key>)
    requires UniqueKeys(pods)
    ensures Removing(pods, Granted(Deleted(pods, share, index), refused)) == KeptOrRefused(pods, share, index, refused)
    ensures refused == {} ==> KeptOrRefused(pods, share, index, refused) == Kept(pods, share, index)
  {
    if pods != [] {
      var n := |pods| - 1;
      var gone := Granted(Deleted(pods[..n], share, index), refused);
      RemovingDeletedIsKept(pods[..n], share, index, refused);
      assert !HasKey(pods[..n], pods[n].key);
      assert !HasKey(gone, pods[n].key) by {
        if q :| q in gone && q.key == pods[n].key {
          GrantedMembers(Deleted(pods[..n], share, index), refused, q);
          DeletedMembers(pods[..n], share, index, q);
        }
      }
      GrantedStep(pods, share, index, refused);
      if ExcessAt(pods, n, share, index) && pods[n].key !in refused {
        RemovingStranger(pods[..n], gone, pods[n]);
        assert HasKey(gone + [pods[n]], pods[n].key) by { assert pods[n] in gone + [pods[n]]; }
      } else {
        assert Granted(Deleted(pods, share, index), refused) == gone;
      }
    }
    if refused == {} { NoneRefused(pods, share, index); }
  }

  lemma {:induction false} RemovingUnique(pods: seq<Pod>, gone: seq<Pod>)
    requires UniqueKeys(pods)
    ensures UniqueKeys(Removing(pods, gone))
  {
    if pods != [] {
      var n := |pods| - 1;
      RemovingUnique(pods[..n], gone);
      forall p | p in Removing(pods[..n], gone) ensures p.key != pods[n].key {
        RemovingMembers(pods[..n], gone, p);
      }
    }
  }

  lemma {:induction false} RemovingStrangers(pods: seq<Pod>, gone: seq<Pod>)
    requires forall i :: 0 <= i < |pods| ==> !HasKey(gone, pods[i].key)
    ensures Removing(pods, gone) == pods
  {
    if pods != [] {
      var n := |pods| - 1;
      RemovingStrangers(pods[..n], gone);
      assert pods == pods[..n] + [pods[n]];
    }
  }

  /** No pod is selected by both. */
  ghost predicate NoCommonPod(pods: seq<Pod>, a: Selector, b: Selector) {
    forall p :: p in pods && a.Matches(p.labels) ==> !b.Matches(p.labels)
  }

  /** Correcting one deployment turns its pod list into the kept pods, touches no pod of any other
      deployment and keeps identities unique. */
  lemma CorrectOneExact(pods: seq<Pod>, d: Deployment, share: map<string, int>, index: Index,
                        refused: set<Key>, sel: Selector)
    requires UniqueKeys(pods)
    ensures UniqueKeys(CorrectOne(pods, d, share, index, refused))
    ensures !d.selector.Malformed? && CountsFit(PodsOf(pods, d.selector), index) ==>
              PodsOf(CorrectOne(pods, d, share, index, refused), d.selector)
                == KeptOrRefused(PodsOf(pods, d.selector), share, index, refused)
    ensures NoCommonPod(pods, sel, d.selector) ==>
              PodsOf(CorrectOne(pods, d, share, index, refused), sel) == PodsOf(pods, sel)
    ensures forall p :: p in CorrectOne(pods, d, share, index, refused) ==> p in pods
  {
    if !d.selector.Malformed? {
      var listed := PodsOf(pods, d.selector);
      var gone := Granted(DeletedInt32(listed, share, index), refused);
      RemovingUnique(pods, gone);
      PodsOfRemoving(pods, gone, d.selector);
      PodsOfUnique(pods, d.selector);
      if CountsFit(listed, index) {
        SameDeletion(listed, share, index);
        RemovingDeletedIsKept(listed, share, index, refused);
      }
      forall p | p in CorrectOne(pods, d, share, index, refused) ensures p in pods { RemovingMembers(pods, gone, p); }
      if NoCommonPod(pods, sel, d.selector) {
        OthersUntouched(pods, d, share, index, refused, sel);
      }
    }
  }

  lemma OthersUntouched(pods: seq<Pod>, d: Deployment, share: map<string, int>, index: Index,
                        refused: set<Key>, sel: Selector)
    requires UniqueKeys(pods) && !d.selector.Malformed?
    requires NoCommonPod(pods, sel, d.selector)
    ensures PodsOf(CorrectOne(pods, d, share, index, refused), sel) == PodsOf(pods, sel)
  {
    var listed := PodsOf(pods, d.selector);
    var gone := Granted(DeletedInt32(listed, share, index), refused);
    PodsOfRemoving(pods, gone, sel);
    forall i | 0 <= i < |PodsOf(pods, sel)| ensures !HasKey(gone, PodsOf(pods, sel)[i].key) {
      var p := PodsOf(pods, sel)[i];
      PodsOfMembers(pods, sel, p);
      if q :| q in gone && q.key == p.key {
        GrantedMembers(DeletedInt32(listed, share, index), refused, q);
        DeletedInt32Members(listed, share, index, q);
        PodsOfMembers(pods, d.selector, q);
      }
    }
    RemovingStrangers(PodsOf(pods, sel), gone);
  }

  /** A whole reconcile: when no pod belongs to two of the policy's deployments, every deployment
      ends with exactly the pods its own correction keeps, as if it had been corrected alone. */
  lemma {:induction false} ReconcileExact(pods: seq<Pod>, ds: seq<Deployment>, shares: seq<map<string, int>>,
                                          index: Index, refused: set<Key>, k: nat)
    requires UniqueKeys(pods) && |ds| == |shares| && k < |ds| && !ds[k].selector.Malformed?
    requires CountsFit(PodsOf(pods, ds[k].selector), index)
    requires forall i, j :: 0 <= i < j < |ds| ==> NoCommonPod(pods, ds[i].selector, ds[j].selector)
    ensures PodsOf(CorrectAll(pods, ds, shares, index, refused), ds[k].selector)
              == KeptOrRefused(PodsOf(pods, ds[k].selector), shares[k], index, refused)
  {
    var n := |ds| - 1;
    if k < n {
      ReconcileExact(pods, ds[..n], shares[..n], index, refused, k);
      EarlierUntouched(pods, ds, shares, index, refused, ds[k].selector);
    } else {
      LastExact(pods, ds, shares, index, refused);
    }
  }

  /** A policy's deployments are corrected one after another, each on what the earlier ones left. */
  lemma {:induction false} CorrectAllConcat(pods: seq<Pod>, a: seq<Deployment>, b: seq<Deployment>,
                                            x: seq<map<string, int>>, y: seq<map<string, int>>,
                                            index: Index, refused: set<Key>)
    requires |a| == |x| && |b| == |y|
    ensures CorrectAll(pods, a + b, x + y, index, refused)
              == CorrectAll(CorrectAll(pods, a, x, index, refused), b, y, index, refused)
  {
    if b == [] {
      assert a + b == a && x + y == x;
    } else {
      var n := |b| - 1;
      CorrectAllConcat(pods, a, b[..n], x, y[..n], index, refused);
      LastOfConcat(a, b);
      LastOfConcat(x, y);
    }
  }

  /** A reconcile spares every pod that no deployment of the policy selects, that is not scheduled on a
      grouped node, or whose deletion is refused. */
  lemma {:induction false} CorrectAllSpares(pods: seq<Pod>, ds: seq<Deployment>, shares: seq<map<string, int>>,
                                            index: Index, refused: set<Key>, p: Pod)
    requires UniqueKeys(pods) && |ds| == |shares| && p in pods
    requires p.nodeName == "" || p.nodeName !in index || p.key in refused
             || forall d :: d in ds ==> !d.selector.Matches(p.labels)
    ensures p in CorrectAll(pods, ds, shares, index, refused)
  {
    if ds != [] {
      var n := |ds| - 1;
      var before := CorrectAll(pods, ds[..n], shares[..n], index, refused);
      assert ds[n] in ds;
      assert forall d :: d in ds[..n] ==> d in ds;
      CorrectAllSpares(pods, ds[..n], shares[..n], index, refused, p);
      CorrectAllShrinks(pods, ds[..n], shares[..n], index, refused);
      CorrectOneSpares(before, ds[n], shares[n], index, refused, p);
    }
  }

  lemma CorrectOneSpares(pods: seq<Pod>, d: Deployment, share: map<string, int>, index: Index,
                         refused: set<Key>, p: Pod)
    requires UniqueKeys(pods) && p in pods
    requires p.nodeName == "" || p.nodeName !in index || p.key in refused || !d.selector.Matches(p.labels)
    ensures p in CorrectOne(pods, d, share, index, refused)
  {
    if !d.selector.Malformed? {
      var listed := PodsOf(pods, d.selector);
      var gone := Granted(DeletedInt32(listed, share, index), refused);
      if q :| q in gone && q.key == p.key {
        GrantedMembers(DeletedInt32(listed, share, index), refused, q);
        DeletedInt32Members(listed, share, index, q);
        PodsOfMembers(pods, d.selector, q);
      }
      RemovingMembers(pods, gone, p);
    }
  }

  lemma EarlierUntouched(pods: seq<Pod>, ds: seq<Deployment>, shares: seq<map<string, int>>,
                         index: Index, refused: set<Key>, sel: Selector)
    requires UniqueKeys(pods) && |ds| == |shares| && ds != []
    requires NoCommonPod(pods, sel, ds[|ds| - 1].selector)
    ensures PodsOf(CorrectAll(pods, ds, shares, index, refused), sel)
              == PodsOf(CorrectAll(pods, ds[..|ds| - 1], shares[..|ds| - 1], index, refused), sel)
  {
    var n := |ds| - 1;
    var before := CorrectAll(pods, ds[..n], shares[..n], index, refused);
    CorrectAllShrinks(pods, ds[..n], shares[..n], index, refused);
    CorrectOneExact(before, ds[n], shares[n], index, refused, sel);
  }

  lemma LastExact(pods: seq<Pod>, ds: seq<Deployment>, shares: seq<map<string, int>>, index: Index,
                  refused: set<Key>)
    requires UniqueKeys(pods) && |ds| == |shares| && ds != [] && !ds[|ds| - 1].selector.Malformed?
    requires CountsFit(PodsOf(pods, ds[|ds| - 1].selector), index)
    requires forall i :: 0 <= i < |ds| - 1 ==> NoCommonPod(pods, ds[i].selector, ds[|ds| - 1].selector)
    ensures PodsOf(CorrectAll(pods, ds, shares, index, refused), ds[|ds| - 1].selector)
              == KeptOrRefused(PodsOf(pods, ds[|ds| - 1].selector), shares[|ds| - 1], index, refused)
  {
    var n := |ds| - 1;
    var before := CorrectAll(pods, ds[..n], shares[..n], index, refused);
    CorrectAllShrinks(pods, ds[..n], shares[..n], index, refused);
    UntouchedByAll(pods, ds[..n], shares[..n], index, refused, ds[n].selector);
    CorrectOneExact(before, ds[n], shares[n], index, refused, Nothing);
  }

  lemma {:induction false} CorrectAllShrinks(pods: seq<Pod>, ds: seq<Deployment>,
                                             shares: seq<map<string, int>>, index: Index,
                                             refused: set<Key>)
    requires UniqueKeys(pods) && |ds| == |shares|
    ensures UniqueKeys(CorrectAll(pods, ds, shares, index, refused))
    ensures forall p :: p in CorrectAll(pods, ds, shares, index, refused) ==> p in pods
  {
    if ds != [] {
      var n := |ds| - 1;
      CorrectAllShrinks(pods, ds[..n], shares[..n], index, refused);
      var before := CorrectAll(pods, ds[..n], shares[..n], index, refused);
      CorrectOneExact(before, ds[n], shares[n], index, refused, Nothing);
    }
  }

  lemma {:induction false} UntouchedByAll(pods: seq<Pod>, ds: seq<Deployment>, shares: seq<map<string, int>>,
                                          index: Index, refused: set<Key>, sel: Selector)
    requires UniqueKeys(pods) && |ds| == |shares|
    requires forall i :: 0 <= i < |ds| ==> NoCommonPod(pods, ds[i].selector, sel)
    ensures PodsOf(CorrectAll(pods, ds, shares, index, refused), sel) == PodsOf(pods, sel)
  {
    if ds != [] {
      var n := |ds| - 1;
      UntouchedByAll(pods, ds[..n], shares[..n], index, refused, sel);
      CorrectAllShrinks(pods, ds[..n], shares[..n], index, refused);
      CorrectOneExact(CorrectAll(pods, ds[..n], shares[..n], index, refused), ds[n], shares[n], index, refused, sel);
    }
  }
}
