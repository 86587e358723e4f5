/** Finding the deployment and the policy of a pod. The scheduler looks them up twice, by two
    different searches, and relies on the second finding what the first found. */
module Lookups {
  import opened Common
  import opened Api
  import opened Apportionment

  /** The stored deployments among the selected keys, in order. */
  function StoredDeploys(store: Snapshot, resources: seq<Key>): seq<Deployment> {
    if resources == [] then [] else
      var k := resources[|resources| - 1];
      StoredDeploys(store, resources[..|resources| - 1])
      + (if k in store.deployments then [store.deployments[k]] else [])
  }

  lemma {:induction false} StoredDeploysMembers(store: Snapshot, resources: seq<Key>, d: Deployment)
    requires d in StoredDeploys(store, resources)
    ensures exists k :: k in resources && k in store.deployments && store.deployments[k] == d
  {
    var n := |resources| - 1;
    assert resources == resources[..n] + [resources[n]];
    if d in StoredDeploys(store, resources[..n]) { StoredDeploysMembers(store, resources[..n], d); }
  }

  /** A stored resource is listed with its deployment, any other is skipped. */
  lemma StoredDeploysStep(store: Snapshot, resources: seq<Key>, k: Key)
    ensures StoredDeploys(store, resources + [k]) ==
              StoredDeploys(store, resources) + (if k in store.deployments then [store.deployments[k]] else [])
  {
    assert (resources + [k])[..|resources|] == resources;
  }

  /** The deployments are listed in the order of the resources. */
  lemma {:induction false} StoredDeploysConcat(store: Snapshot, a: seq<Key>, b: seq<Key>)
    ensures StoredDeploys(store, a + b) == StoredDeploys(store, a) + StoredDeploys(store, b)
  {
    if b == [] {
      assert a + b == a;
    } else {
      var init, k := b[..|b| - 1], b[|b| - 1];
      StoredDeploysConcat(store, a, init);
      LastOfConcat(a, b);
      Associative(StoredDeploys(store, a), StoredDeploys(store, init),
                  if k in store.deployments then [store.deployments[k]] else []);
    }
  }

  /** `deploys` are the deployments of the resources, one by one. */
  ghost predicate IsManifested(store: Snapshot, resources: seq<Key>, deploys: seq<Deployment>) {
    |deploys| == |resources| && forall i :: 0 <= i < |resources| ==>
      resources[i] in store.deployments && deploys[i] == store.deployments[resources[i]]
  }

  lemma {:induction false} StoredDeploysAll(store: Snapshot, resources: seq<Key>)
    requires forall k :: k in resources ==> k in store.deployments
    ensures IsManifested(store, resources, StoredDeploys(store, resources))
  {
    if resources != [] {
      var n := |resources| - 1;
      assert resources[n] in resources;
      StoredDeploysAll(store, resources[..n]);
    }
  }

  /** The rounding is tolerable wherever the policy's deployments make the allocator use it. */
  ghost predicate TolerableForPolicy(store: Snapshot, p: Policy, rnd: Rounding) {
    forall d :: d in StoredDeploys(store, p.resources) ==> Tolerable(p.weights, d.replicas, rnd)
  }

  /** Missing deployments are skipped and reported. */
  method GetManifestsDeploys(store: Snapshot, policy: Policy) returns (deploys: seq<Deployment>, failed: bool)
    ensures deploys == StoredDeploys(store, policy.resources)
    ensures failed <==> exists k :: k in policy.resources && k !in store.deployments
    ensures !failed ==> IsManifested(store, policy.resources, deploys)
  {
    deploys, failed := [], false;
    var rs := policy.resources;
    for i := 0 to |rs|
      invariant deploys == StoredDeploys(store, rs[..i])
      invariant failed <==> exists k :: k in rs[..i] && k !in store.deployments
    {
      assert rs[..i + 1][..i] == rs[..i];
      assert rs[..i + 1] == rs[..i] + [rs[i]];
      if rs[i] !in store.deployments {
        failed := true;
        continue;
      }
      deploys := deploys + [store.deployments[rs[i]]];
    }
    assert rs[..|rs|] == rs;
    if !failed { StoredDeploysAll(store, rs); }
  }

  /** Outcome of searching deployments for one whose selector matches. */
  datatype Search = Found(deploy: Deployment) | NotFound | BadSelector

  /** The first matching deployment, unless a selector that cannot be converted comes before it. */
  function StrictSearch(deploys: seq<Deployment>, labels: map<string, string>): Search {
    if deploys == [] then NotFound
    else if deploys[0].selector.Malformed? then BadSelector
    else if deploys[0].selector.Matches(labels) then Found(deploys[0])
    else StrictSearch(deploys[1..], labels)
  }

  /** The first matching deployment, skipping selectors that cannot be converted. */
  function LenientSearch(deploys: seq<Deployment>, labels: map<string, string>): Option<Deployment> {
    if deploys == [] then None
    else if deploys[0].selector.Matches(labels) then Some(deploys[0])
    else LenientSearch(deploys[1..], labels)
  }

  predicate NoneBefore(deploys: seq<Deployment>, i: nat, labels: map<string, string>)
    requires i <= |deploys|
  {
    forall j :: 0 <= j < i ==> !deploys[j].selector.Malformed? && !deploys[j].selector.Matches(labels)
  }

  /** What a strict search finds: the first deployment that matches or cannot be converted decides. */
  lemma {:induction false} StrictExact(deploys: seq<Deployment>, labels: map<string, string>)
    ensures match StrictSearch(deploys, labels)
      case NotFound => NoneBefore(deploys, |deploys|, labels)
      case BadSelector =>
        exists i :: 0 <= i < |deploys| && deploys[i].selector.Malformed? && NoneBefore(deploys, i, labels)
      case Found(d) =>
        && d.selector.Matches(labels)
        && exists i :: 0 <= i < |deploys| && deploys[i] == d && NoneBefore(deploys, i, labels)
  {
    if deploys != [] {
      if deploys[0].selector.Malformed? || deploys[0].selector.Matches(labels) {
        assert NoneBefore(deploys, 0, labels);
      } else {
        var tail := deploys[1..];
        StrictExact(tail, labels);
        assert forall i :: 1 <= i < |deploys| ==> deploys[i] == tail[i - 1];
        if i :| 0 <= i < |tail| && NoneBefore(tail, i, labels)
                && (tail[i].selector.Malformed? || StrictSearch(tail, labels) == Found(tail[i])) {
          assert deploys[i + 1] == tail[i] && NoneBefore(deploys, i + 1, labels);
        }
      }
    }
  }

  /** The result pair of the source: a deployment pointer that may be nil, and an error flag. */
  method GetRelativeDeployment(store: Snapshot, pod: Pod, policy: Policy)
    returns (relativeDeploy: Option<Deployment>, failed: bool)
    ensures var search := StrictSearch(StoredDeploys(store, policy.resources), pod.labels);
      var missing := exists k :: k in policy.resources && k !in store.deployments;
      && relativeDeploy == (if search.Found? then Some(search.deploy) else None)
      && (failed <==> search.BadSelector? || missing)
  {
    var deploys;
    deploys, failed := GetManifestsDeploys(store, policy);
    relativeDeploy := None;
    for i := 0 to |deploys|
      invariant StrictSearch(deploys[i..], pod.labels) == StrictSearch(deploys, pod.labels)
      invariant relativeDeploy == None
    {
      assert deploys[i..][1..] == deploys[i + 1..];
      var selector := deploys[i].selector;
      if selector.Malformed? {
        return None, true;
      }
      if selector.Matches(pod.labels) {
        relativeDeploy := Some(deploys[i]);
        break;
      }
    }
  }

  /** All of a policy's resources are fully named and stored. */
  predicate Complete(store: Snapshot, resources: seq<Key>) {
    forall i :: 0 <= i < |resources| ==>
      resources[i].namespace != "" && resources[i].name != "" && resources[i] in store.deployments
  }

  /** The first policy with a matching deployment; an incomplete policy met before that fails the
      search. */
  function FirstPolicy(store: Snapshot, policies: seq<Policy>, pod: Pod): Result<Option<(Deployment, Policy)>> {
    if policies == [] then Ok(None)
    else
      var p := policies[0];
      if p.key.namespace != pod.key.namespace then FirstPolicy(store, policies[1..], pod)
      else if !Complete(store, p.resources) then Err
      else match LenientSearch(StoredDeploys(store, p.resources), pod.labels)
        case Some(d) => Ok(Some((d, p)))
        case None => FirstPolicy(store, policies[1..], pod)
  }

  method GetRelativeDeployAndPolicy(store: Snapshot, pod: Pod) returns (r: Result<Option<(Deployment, Policy)>>)
    ensures r == FirstPolicy(store, store.policies, pod)
  {
    var policies := store.policies;
    for i := 0 to |policies|
      invariant FirstPolicy(store, policies[i..], pod) == FirstPolicy(store, policies, pod)
    {
      assert policies[i..][1..] == policies[i + 1..];
      var policy := policies[i];
      if policy.key.namespace != pod.key.namespace {
        continue;
      }
      var deploys: seq<Deployment> := [];
      var rs := policy.resources;
      for j := 0 to |rs|
        invariant Complete(store, rs[..j])
        invariant deploys == StoredDeploys(store, rs[..j])
      {
        assert rs[..j + 1][..j] == rs[..j];
        var selector := rs[j];
        if selector.namespace != "" && selector.name != "" {
          if selector !in store.deployments {
            assert !Complete(store, rs);
            return Err;
          }
          deploys := deploys + [store.deployments[selector]];
        } else {
          assert !Complete(store, rs);
          return Err;
        }
      }
      assert rs[..|rs|] == rs;
      for j := 0 to |deploys|
        invariant LenientSearch(deploys[j..], pod.labels) == LenientSearch(deploys, pod.labels)
      {
        assert deploys[j..][1..] == deploys[j + 1..];
        if deploys[j].selector.Matches(pod.labels) {
          return Ok(Some((deploys[j], policy)));
        }
      }
    }
    return Ok(None);
  }

  predicate NoMatchBefore(deploys: seq<Deployment>, i: nat, labels: map<string, string>)
    requires i <= |deploys|
  {
    forall j :: 0 <= j < i ==> !deploys[j].selector.Matches(labels)
  }

  /** What a lenient search finds: the first match, or no match at all. */
  lemma {:induction false} LenientExact(deploys: seq<Deployment>, labels: map<string, string>)
    ensures match LenientSearch(deploys, labels)
      case None => forall i :: 0 <= i < |deploys| ==> !deploys[i].selector.Matches(labels)
      case Some(d) =>
        && d.selector.Matches(labels)
        && exists i :: 0 <= i < |deploys| && deploys[i] == d && NoMatchBefore(deploys, i, labels)
  {
    if deploys != [] && !deploys[0].selector.Matches(labels) {
      var tail := deploys[1..];
      LenientExact(tail, labels);
      assert forall i :: 1 <= i < |deploys| ==> deploys[i] == tail[i - 1];
      if LenientSearch(tail, labels).Some? {
        var d := LenientSearch(tail, labels).value;
        var i :| 0 <= i < |tail| && tail[i] == d && NoMatchBefore(tail, i, labels);
        assert deploys[i + 1] == d && NoMatchBefore(deploys, i + 1, labels);
      }
    }
  }

  /** A policy of the pod's namespace whose resources are complete but match nothing. */
  predicate PassedOver(store: Snapshot, p: Policy, pod: Pod) {
    p.key.namespace != pod.key.namespace
    || (Complete(store, p.resources) && LenientSearch(StoredDeploys(store, p.resources), pod.labels).None?)
  }

  /** A resource the lookup cannot fetch. */
  ghost predicate Unusable(store: Snapshot, k: Key) {
    k.namespace == "" || k.name == "" || k !in store.deployments
  }

  lemma CompleteExactly(store: Snapshot, resources: seq<Key>)
    ensures Complete(store, resources) <==> forall k :: k in resources ==> !Unusable(store, k)
    ensures Complete(store, resources) ==> IsManifested(store, resources, StoredDeploys(store, resources))
  {
    forall k | k in resources && Complete(store, resources) ensures !Unusable(store, k) {
      var i :| 0 <= i < |resources| && resources[i] == k;
    }
    if forall k :: k in resources ==> !Unusable(store, k) {
      forall i | 0 <= i < |resources| ensures !Unusable(store, resources[i]) { assert resources[i] in resources; }
      StoredDeploysAll(store, resources);
    }
  }

  /** The policy's j-th resource is stored and matches, and no earlier one does. */
  ghost predicate IsFirstMatch(store: Snapshot, p: Policy, pod: Pod, j: nat) {
    && j < |p.resources| && (forall k :: k in p.resources ==> k in store.deployments)
    && store.deployments[p.resources[j]].selector.Matches(pod.labels)
    && forall h :: 0 <= h < j ==> !store.deployments[p.resources[h]].selector.Matches(pod.labels)
  }

  /** What the lookup comes to at policy `p`: an error if one of its resources is unusable, otherwise the
      first deployment of its resources that matches. */
  ghost predicate DecidedBy(store: Snapshot, p: Policy, pod: Pod, r: Result<Option<(Deployment, Policy)>>) {
    if exists k :: k in p.resources && Unusable(store, k) then r == Err
    else exists j: nat :: IsFirstMatch(store, p, pod, j) && r == Ok(Some((store.deployments[p.resources[j]], p)))
  }

  /** The search stops at the first policy that is not passed over, one of the pod's namespace. */
  lemma {:induction false} FirstPolicyExact(store: Snapshot, policies: seq<Policy>, pod: Pod, i: nat)
    requires i <= |policies| && forall j :: 0 <= j < i ==> PassedOver(store, policies[j], pod)
    requires i < |policies| ==> !PassedOver(store, policies[i], pod)
    ensures i == |policies| ==> FirstPolicy(store, policies, pod) == Ok(None)
    ensures i < |policies| ==> policies[i].key.namespace == pod.key.namespace
    ensures i < |policies| ==> DecidedBy(store, policies[i], pod, FirstPolicy(store, policies, pod))
  {
    if i > 0 {
      assert forall j :: 0 <= j < i - 1 ==> policies[1..][j] == policies[j + 1];
      FirstPolicyExact(store, policies[1..], pod, i - 1);
    } else if policies != [] {
      FirstPolicyHere(store, policies, pod);
    }
  }

  lemma FirstPolicyHere(store: Snapshot, policies: seq<Policy>, pod: Pod)
    requires policies != [] && !PassedOver(store, policies[0], pod)
    ensures DecidedBy(store, policies[0], pod, FirstPolicy(store, policies, pod))
  {
    var p := policies[0];
    var deploys := StoredDeploys(store, p.resources);
    CompleteExactly(store, p.resources);
    if Complete(store, p.resources) {
      LenientExact(deploys, pod.labels);
      var d := LenientSearch(deploys, pod.labels).value;
      var j :| 0 <= j < |deploys| && deploys[j] == d && NoMatchBefore(deploys, j, pod.labels);
      assert IsFirstMatch(store, p, pod, j);
    }
  }

  /** A policy is passed over when it is of another namespace, or all its resources can be fetched and
      none of them matches the pod. */
  lemma PassedOverExactly(store: Snapshot, p: Policy, pod: Pod)
    ensures PassedOver(store, p, pod) <==>
      (p.key.namespace != pod.key.namespace
       || forall k :: k in p.resources ==>
            !Unusable(store, k) && !store.deployments[k].selector.Matches(pod.labels))
  {
    var deploys := StoredDeploys(store, p.resources);
    CompleteExactly(store, p.resources);
    LenientExact(deploys, pod.labels);
    if Complete(store, p.resources) {
      forall k | k in p.resources && PassedOver(store, p, pod) && p.key.namespace == pod.key.namespace
        ensures !store.deployments[k].selector.Matches(pod.labels)
      {
        var i :| 0 <= i < |p.resources| && p.resources[i] == k;
        assert deploys[i] == store.deployments[k];
      }
    }
  }

  /** A found policy is stored and complete, and the deployment is its first match. */
  lemma {:induction false} FirstPolicySound(store: Snapshot, policies: seq<Policy>, pod: Pod, d: Deployment, p: Policy)
    requires FirstPolicy(store, policies, pod) == Ok(Some((d, p)))
    ensures p in policies && Complete(store, p.resources) && p.key.namespace == pod.key.namespace
    ensures LenientSearch(StoredDeploys(store, p.resources), pod.labels) == Some(d)
  {
    if policies[0] != p || policies[0].key.namespace != pod.key.namespace
       || LenientSearch(StoredDeploys(store, policies[0].resources), pod.labels).None? {
      FirstPolicySound(store, policies[1..], pod, d, p);
    }
  }

  /** The lenient match is what the strict search finds, unless an unconvertible selector is listed
      before it. */
  lemma {:induction false} SearchesAgree(deploys: seq<Deployment>, labels: map<string, string>)
    ensures LenientSearch(deploys, labels).Some? ==>
              (StrictSearch(deploys, labels) == Found(LenientSearch(deploys, labels).value)
               || StrictSearch(deploys, labels).BadSelector?)
    ensures LenientSearch(deploys, labels).Some? ==>
              (StrictSearch(deploys, labels).BadSelector? <==>
               exists i :: 0 <= i < |deploys| && deploys[i].selector.Malformed? && NoMatchBefore(deploys, i, labels))
  {
    if deploys != [] && !deploys[0].selector.Malformed? && !deploys[0].selector.Matches(labels) {
      SearchesAgree(deploys[1..], labels);
      var tail := deploys[1..];
      if i :| 0 <= i < |tail| && tail[i].selector.Malformed? && NoMatchBefore(tail, i, labels) {
        assert deploys[i + 1].selector.Malformed? && NoMatchBefore(deploys, i + 1, labels);
      }
      if i :| 0 <= i < |deploys| && deploys[i].selector.Malformed? && NoMatchBefore(deploys, i, labels) {
        assert tail[i - 1].selector.Malformed? && NoMatchBefore(tail, i - 1, labels);
      }
    }
  }

  /** On one snapshot the second lookup returns the first one's deployment or an error, never a nil
      deployment without an error; it fails exactly when an unconvertible selector precedes the
      match. */
  lemma LookupAgreement(store: Snapshot, pod: Pod, d: Deployment, p: Policy)
    requires FirstPolicy(store, store.policies, pod) == Ok(Some((d, p)))
    ensures !(exists k :: k in p.resources && k !in store.deployments)
    ensures var deploys := StoredDeploys(store, p.resources);
      && (StrictSearch(deploys, pod.labels) == Found(d) || StrictSearch(deploys, pod.labels).BadSelector?)
      && (StrictSearch(deploys, pod.labels).BadSelector? <==>
            exists i :: 0 <= i < |deploys| && deploys[i].selector.Malformed? && NoMatchBefore(deploys, i, pod.labels))
  {
    FirstPolicySound(store, store.policies, pod, d, p);
    SearchesAgree(StoredDeploys(store, p.resources), pod.labels);
  }
}
