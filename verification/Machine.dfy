/** The cluster as a state machine over the pods of one deployment. The scheduler admits a pod with
    the filter, binds it later; pods come and go; the API server may list pods in any order; the
    controller corrects. Every admission and every correction brings a share map from its own
    allocator call. */
module Machine {
  import opened Common
  import opened Api
  import opened Apportionment
  import opened Shares
  import opened NodeIndex
  import opened Placement
  import opened Correction
  import opened Filtering

  /** What stays fixed during a run. */
  datatype Env = Env(nodes: seq<Node>, groups: seq<NodeGroup>, weights: seq<Weight>, replicas: int, rnd: Rounding) {
    ghost predicate Valid() {
      && ValidWeights(weights) && Simple(weights) && weights != []
      && Nearest(weights, replicas, rnd) && 0 <= replicas < TWO_31
      && Resolves(groups, TargetNames(weights)) && UniqueGroups(groups)
      && TargetsDisjoint(nodes, groups, TargetNames(weights))
      && (forall x :: x in nodes ==> x.name != "")
    }

    /** The scheduler's index, of the policy's groups. */
    ghost function SchedulerIndex(): map<string, string>
      requires Valid()
    {
      IndexOf(nodes, Fetched(groups, TargetNames(weights)))
    }

    /** The controller's index, of all groups. */
    ghost function ControllerIndex(): map<string, string> {
      IndexOf(nodes, groups)
    }

    ghost predicate Share(m: map<string, int>)
      requires Valid()
    {
      IsShare(weights, replicas, rnd, m)
    }

    ghost function BaseShare(): map<string, int>
      requires Valid()
    {
      Base(weights, SumWeights(weights), replicas, rnd)
    }

    ghost function Remainder(): int {
      Left(weights, replicas, rnd)
    }
  }

  datatype Event =
    | Create(pod: Pod)
    | Admit(i: nat, candidates: seq<Node>, node: Node, share: map<string, int>)
    | Bind(i: nat)
    | Abort(i: nat)
    | Exit(i: nat)
    | Relist(order: seq<Pod>)
    | Reconcile(share: map<string, int>, refused: set<Key>)

  function Assumed(): Pod -> bool {
    (p: Pod) => p.nodeName == "" && p.assumed != ""
  }

  function Pending(): Pod -> bool {
    (p: Pod) => p.nodeName == "" && p.assumed == ""
  }

  /** Admitted pods whose binding is not yet visible. */
  ghost function InFlight(s: seq<Pod>): nat {
    CountIf(s, Assumed())
  }

  ghost predicate Enabled(env: Env, k: nat, s: seq<Pod>, e: Event)
    requires env.Valid()
  {
    match e
    case Create(p) => p.nodeName == "" && p.assumed == ""
    case Admit(i, candidates, x, m) =>
      && i < |s| && Pending()(s[i]) && InFlight(s) < k && env.Share(m)
      && x in Keep(candidates, Admissible(s, m, env.SchedulerIndex()))
    case Bind(i) => i < |s| && Assumed()(s[i])
    case Abort(i) => i < |s| && Assumed()(s[i])
    case Exit(i) => i < |s|
    case Relist(order) => multiset(order) == multiset(s)
    case Reconcile(m, _) => env.Share(m)
  }

  ghost function Apply(env: Env, k: nat, s: seq<Pod>, e: Event): seq<Pod>
    requires env.Valid() && Enabled(env, k, s, e)
  {
    match e
    case Create(p) => s + [p]
    case Admit(i, _, x, _) => s[i := s[i].(assumed := x.name)]
    case Bind(i) => s[i := s[i].(nodeName := s[i].assumed, assumed := "")]
    case Abort(i) => s[i := s[i].(assumed := "")]
    case Exit(i) => s[..i] + s[i + 1..]
    case Relist(order) => order
    case Reconcile(m, refused) => KeptOrRefused(s, m, env.ControllerIndex(), refused)
  }

  /** The state a list of events leads to, if each is enabled when its turn comes. */
  ghost function Outcome(env: Env, k: nat, s: seq<Pod>, es: seq<Event>): Option<seq<Pod>>
    requires env.Valid()
  {
    if es == [] then Some(s) else
      match Outcome(env, k, s, es[..|es| - 1])
      case None => None
      case Some(t) => if Enabled(env, k, t, es[|es| - 1]) then Some(Apply(env, k, t, es[|es| - 1])) else None
  }

  ghost predicate Run(env: Env, k: nat, s: seq<Pod>, es: seq<Event>)
    requires env.Valid()
  {
    Outcome(env, k, s, es).Some?
  }

  ghost function After(env: Env, k: nat, s: seq<Pod>, es: seq<Event>): seq<Pod>
    requires env.Valid() && Run(env, k, s, es)
  {
    Outcome(env, k, s, es).value
  }

  lemma {:induction false} RunConcat(env: Env, k: nat, s: seq<Pod>, a: seq<Event>, b: seq<Event>)
    requires env.Valid() && Run(env, k, s, a) && Run(env, k, After(env, k, s, a), b)
    ensures Run(env, k, s, a + b) && After(env, k, s, a + b) == After(env, k, After(env, k, s, a), b)
  {
    if b == [] {
      assert a + b == a;
    } else {
      RunConcat(env, k, s, a, b[..|b| - 1]);
      assert (a + b)[..|a + b| - 1] == a + b[..|b| - 1];
    }
  }

  /** A run stays one when more pods may be in flight. */
  lemma {:induction false} MoreInFlight(env: Env, j: nat, k: nat, s: seq<Pod>, es: seq<Event>)
    requires env.Valid() && j <= k && Run(env, j, s, es)
    ensures Run(env, k, s, es) && After(env, k, s, es) == After(env, j, s, es)
  {
    if es != [] { MoreInFlight(env, j, k, s, es[..|es| - 1]); }
  }

  lemma RunOne(env: Env, k: nat, s: seq<Pod>, e: Event)
    requires env.Valid() && Enabled(env, k, s, e)
    ensures Run(env, k, s, [e]) && After(env, k, s, [e]) == Apply(env, k, s, e)
  {
    assert [e][..0] == [];
    assert Outcome(env, k, s, []) == Some(s);
  }

  /* ---------- the two indexes on target groups ---------- */

  lemma {:induction false} SimpleTargets(ws: seq<Weight>, g: string)
    requires forall e :: e in ws ==> |e.names| == 1
    ensures g in TargetNames(ws) <==> g in WeightMap(ws)
  {
    if ws != [] {
      var n := |ws| - 1;
      assert ws[n] in ws && ws[n].names == [ws[n].names[0]];
      SimpleTargets(ws[..n], g);
    }
  }

  /** Scheduler and controller count the pods of a target group alike. */
  lemma SameCount(env: Env, s: seq<Pod>, g: string)
    requires env.Valid() && g in WeightMap(env.weights)
    ensures Count(s, env.SchedulerIndex(), g) == Count(s, env.ControllerIndex(), g)
  {
    IndexRelation(env);
    SimpleTargets(env.weights, g);
    CountIfEq(s, OnGroup(env.SchedulerIndex(), g), OnGroup(env.ControllerIndex(), g));
  }

  lemma IndexRelation(env: Env)
    requires env.Valid()
    ensures env.SchedulerIndex() == Restrict(env.ControllerIndex(), TargetNames(env.weights))
  {
    FetchedIs(env.groups, TargetNames(env.weights));
    IndexesAgree(env.nodes, env.groups, TargetNames(env.weights), Fetched(env.groups, TargetNames(env.weights)));
  }

  /** The scheduler's index maps named nodes to target groups. */
  lemma SchedulerIndexSound(env: Env, n: string)
    requires env.Valid() && n in env.SchedulerIndex()
    ensures n != "" && env.SchedulerIndex()[n] in WeightMap(env.weights)
  {
    IndexRelation(env);
    SimpleTargets(env.weights, env.SchedulerIndex()[n]);
  }

  /* ---------- load: bound and in-flight pods ---------- */

  /** The node a pod runs on or is about to be bound to. */
  function Where(p: Pod): string {
    if p.nodeName != "" then p.nodeName else p.assumed
  }

  function LoadsOn(index: Index, g: string): Pod -> bool {
    (p: Pod) => Where(p) != "" && Where(p) in index && index[Where(p)] == g
  }

  /** Bound plus in-flight pods of a group. */
  ghost function Load(env: Env, s: seq<Pod>, g: string): nat
    requires env.Valid()
  {
    CountIf(s, LoadsOn(env.SchedulerIndex(), g))
  }

  lemma {:induction false} LoadBounds(env: Env, s: seq<Pod>, g: string)
    requires env.Valid()
    ensures Count(s, env.SchedulerIndex(), g) <= Load(env, s, g) <= Count(s, env.SchedulerIndex(), g) + InFlight(s)
  {
    if s != [] { LoadBounds(env, s[..|s| - 1], g); }
  }

  lemma AppendOne(s: seq<Pod>, x: Pod, p: Pod -> bool)
    ensures CountIf(s + [x], p) == CountIf(s, p) + if p(x) then 1 else 0
  {
    assert (s + [x])[..|s|] == s;
  }

  /** A correction raises no count, whatever deletions are refused. */
  lemma {:induction false} KeptShrinks(s: seq<Pod>, m: map<string, int>, index: Index, refused: set<Key>,
                                       p: Pod -> bool)
    ensures CountIf(KeptOrRefused(s, m, index, refused), p) <= CountIf(s, p)
  {
    if s != [] {
      var n := |s| - 1;
      var rest := KeptOrRefused(s[..n], m, index, refused);
      KeptShrinks(s[..n], m, index, refused, p);
      AppendOne(rest, s[n], p);
      assert KeptOrRefused(s, m, index, refused) == rest || KeptOrRefused(s, m, index, refused) == rest + [s[n]];
    }
  }

  /* ---------- one step ---------- */

  /** An admission adds one in-flight pod to a group whose bound pods are below the share used. */
  lemma AdmitEffect(env: Env, k: nat, s: seq<Pod>, e: Event, g: string)
    requires env.Valid() && Enabled(env, k, s, e) && e.Admit?
    ensures InFlight(Apply(env, k, s, e)) == InFlight(s) + 1 <= k
    ensures var index := env.SchedulerIndex();
      && e.node.name in index
      && Load(env, Apply(env, k, s, e), g) == Load(env, s, g) + (if index[e.node.name] == g then 1 else 0)
      && (index[e.node.name] == g ==> Count(s, index, g) < Lookup(e.share, g) && g in WeightMap(env.weights))
  {
    var p := s[e.i].(assumed := e.node.name);
    KeepMembers(e.candidates, Admissible(s, e.share, env.SchedulerIndex()), e.node);
    SchedulerIndexSound(env, e.node.name);
    CountIfUpdate(s, e.i, p, LoadsOn(env.SchedulerIndex(), g));
    CountIfUpdate(s, e.i, p, Assumed());
  }

  /** Giving up undoes an admission. */
  lemma AbortUndoesAdmit(env: Env, k: nat, s: seq<Pod>, e: Event)
    requires env.Valid() && Enabled(env, k, s, e) && e.Admit?
    ensures Run(env, k, s, [e, Abort(e.i)]) && After(env, k, s, [e, Abort(e.i)]) == s
  {
    KeepMembers(e.candidates, Admissible(s, e.share, env.SchedulerIndex()), e.node);
    SchedulerIndexSound(env, e.node.name);
    RunOne(env, k, s, e);
    RunOne(env, k, Apply(env, k, s, e), Abort(e.i));
    RunConcat(env, k, s, [e], [Abort(e.i)]);
    assert [e] + [Abort(e.i)] == [e, Abort(e.i)];
    assert s[e.i].(assumed := "") == s[e.i];
  }

  /** No other event raises a group's load or the number of in-flight pods. */
  lemma OtherEffect(env: Env, k: nat, s: seq<Pod>, e: Event, p: Pod -> bool)
    requires env.Valid() && Enabled(env, k, s, e) && !e.Admit?
    requires p == Assumed() || exists g :: p == LoadsOn(env.SchedulerIndex(), g)
    ensures CountIf(Apply(env, k, s, e), p) <= CountIf(s, p)
  {
    match e
    case Create(x) => AppendOne(s, x, p);
    case Bind(i) => CountIfUpdate(s, i, s[i].(nodeName := s[i].assumed, assumed := ""), p);
    case Abort(i) => CountIfUpdate(s, i, s[i].(assumed := ""), p);
    case Exit(i) => CountIfRemove(s, i, p);
    case Relist(order) => CountIfPermutation(s, order, p);
    case Reconcile(m, refused) => KeptShrinks(s, m, env.ControllerIndex(), refused, p);
  }
}
