/** The state machine's admission and correction events are what the filter and the controller do. */
module Refinement {
  import opened Common
  import opened Api
  import opened Apportionment
  import opened NodeIndex
  import opened Placement
  import opened Lookups
  import opened Filtering
  import opened Controller
  import opened Machine

  /** The environment of one deployment `d` placed by one policy `p`. */
  function EnvOf(store: Snapshot, d: Deployment, p: Policy, rnd: Rounding): Env {
    Env(store.nodes, store.groups, p.weights, d.replicas, rnd)
  }

  /** Every node a successful filter request returns, for a pod placed by a policy, is one the
      machine may admit the pod to, with the share map of the request's own allocator call. */
  lemma FilterIsAdmit(store: Snapshot, pod: Pod, items: seq<Node>, rnd: Rounding,
                      r: FilterResult, share: map<string, int>, d: Deployment, p: Policy, k: nat, i: nat, x: Node)
    requires FilterSpec(store, pod, Some(items), rnd, r, false, share)
    requires FirstPolicy(store, store.policies, pod) == Ok(Some((d, p)))
    requires EnvOf(store, d, p, rnd).Valid()
    requires CountsFit(PodsOf(store.pods, d.selector), EnvOf(store, d, p, rnd).SchedulerIndex())
    requires var s := PodsOf(store.pods, d.selector); i < |s| && Pending()(s[i]) && InFlight(s) < k
    ensures r.nodes.Some? && (x in r.nodes.value <==>
      x in items && Enabled(EnvOf(store, d, p, rnd), k, PodsOf(store.pods, d.selector), Admit(i, items, x, share)))
  {
    var s, env := PodsOf(store.pods, d.selector), EnvOf(store, d, p, rnd);
    assert env.SchedulerIndex() == PolicyIndex(store, p.weights);
    AdmissibleSame(s, share, env.SchedulerIndex(), items);
    KeepMembers(items, Admissible(s, share, env.SchedulerIndex()), x);
  }

  /** A reconcile of a policy is, for each of its deployments, one correction event of that
      deployment's machine, provided no pod belongs to two of them. */
  lemma ReconcileIsCorrection(store: Snapshot, p: Policy, ds: seq<Deployment>, shares: seq<map<string, int>>,
                              rnd: Rounding, refused: set<Key>, j: nat, k: nat)
    requires UniqueKeys(store.pods) && j < |ds| && !ds[j].selector.Malformed?
    requires (forall e :: e in p.weights ==> e.names != []) && AreShares(p.weights, ds, rnd, shares)
    requires forall a, b :: 0 <= a < b < |ds| ==> NoCommonPod(store.pods, ds[a].selector, ds[b].selector)
    requires EnvOf(store, ds[j], p, rnd).Valid()
    requires CountsFit(PodsOf(store.pods, ds[j].selector), IndexOf(store.nodes, store.groups))
    ensures var env := EnvOf(store, ds[j], p, rnd); var s := PodsOf(store.pods, ds[j].selector);
      && Enabled(env, k, s, Reconcile(shares[j], refused))
      && PodsOf(CorrectAll(store.pods, ds, shares, IndexOf(store.nodes, store.groups), refused), ds[j].selector)
           == Apply(env, k, s, Reconcile(shares[j], refused))
  {
    ReconcileExact(store.pods, ds, shares, IndexOf(store.nodes, store.groups), refused, j);
  }
}
