/** The Kubernetes objects the placement engine reads, as plain values, and the
    API-server snapshot that stands for the client. */
module Api {
  import opened Common

  /** A converted label selector. An absent selector selects nothing, an empty one everything;
      `Malformed` is one whose conversion fails. */
  datatype Selector = Nothing | Labels(pairs: map<string, string>) | Malformed {
    predicate Matches(labels: map<string, string>) {
      Labels? && forall k :: k in pairs ==> k in labels && labels[k] == pairs[k]
    }
  }

  datatype Key = Key(namespace: string, name: string)

  datatype Node = Node(name: string, labels: map<string, string>)

  datatype NodeGroup = NodeGroup(namespace: string, name: string, matchLabels: Selector)

  /** `nodeName` is "" until the binding is written to the API server. `assumed` is not an API field:
      it is the node kube-scheduler has already chosen for a pod whose binding is still in flight
      ("" if none). No function modelled from the source reads it. */
  datatype Pod = Pod(key: Key, labels: map<string, string>, nodeName: string, assumed: string)

  datatype Deployment = Deployment(key: Key, selector: Selector, replicas: int)

  /** One entry of a policy's static weight list. */
  datatype Weight = Weight(names: seq<string>, weight: int)

  datatype Policy = Policy(key: Key, resources: seq<Key>, weights: seq<Weight>)

  datatype Snapshot = Snapshot(
    nodes: seq<Node>,
    groups: seq<NodeGroup>,
    deployments: map<Key, Deployment>,
    policies: seq<Policy>,
    pods: seq<Pod>)

  /** From node names to group names. */
  type Index = map<string, string>

  /** Pods listed through a deployment's selector, in list order. */
  function PodsOf(pods: seq<Pod>, selector: Selector): seq<Pod> {
    if pods == [] then [] else
      var p := pods[|pods| - 1];
      PodsOf(pods[..|pods| - 1], selector) + (if selector.Matches(p.labels) then [p] else [])
  }

  /** A selector of label pairs selects the label sets that contain them all: the empty one selects
      everything, and one more pair never selects more. The other two kinds select nothing. */
  lemma MatchesExactly(selector: Selector, labels: map<string, string>)
    ensures selector.Matches(labels) <==> selector.Labels? && selector.pairs.Items <= labels.Items
  {
    if selector.Labels? {
      if selector.Matches(labels) {
        forall item | item in selector.pairs.Items ensures item in labels.Items {
          assert item.0 in selector.pairs && labels[item.0] == item.1;
        }
      }
      if selector.pairs.Items <= labels.Items {
        forall k | k in selector.pairs ensures k in labels && labels[k] == selector.pairs[k] {
          assert (k, selector.pairs[k]) in selector.pairs.Items;
        }
      }
    }
  }

  lemma {:induction false} PodsOfMembers(pods: seq<Pod>, sel: Selector, p: Pod)
    ensures p in PodsOf(pods, sel) <==> p in pods && sel.Matches(p.labels)
  {
    if pods != [] {
      var n := |pods| - 1;
      PodsOfMembers(pods[..n], sel, p);
      assert pods == pods[..n] + [pods[n]];
    }
  }

  /** Listing goes pod by pod, in order. */
  lemma PodsOfStep(pods: seq<Pod>, p: Pod, sel: Selector)
    ensures PodsOf(pods + [p], sel) == PodsOf(pods, sel) + (if sel.Matches(p.labels) then [p] else [])
  {
    assert (pods + [p])[..|pods|] == pods;
  }

  /** Listing distributes over concatenation, so it keeps the order of the pods and each pod once. */
  lemma {:induction false} PodsOfConcat(a: seq<Pod>, b: seq<Pod>, sel: Selector)
    ensures PodsOf(a + b, sel) == PodsOf(a, sel) + PodsOf(b, sel)
  {
    if b == [] {
      assert a + b == a;
    } else {
      var init, p := b[..|b| - 1], b[|b| - 1];
      PodsOfConcat(a, init, sel);
      LastOfConcat(a, b);
      Associative(PodsOf(a, sel), PodsOf(init, sel), if sel.Matches(p.labels) then [p] else []);
    }
  }
}
