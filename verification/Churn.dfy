/** Whole runs from a cluster that meets its shares: either no reconcile ever deletes a pod, or there
    is no bound on the pods that reconciles delete although the wanted shares never change. */
module Churn {
  import opened Common
  import opened Api
  import opened Shares
  import opened Placement
  import opened Correction
  import opened Machine
  import opened Safety
  import opened Convergence
  import opened Stability

  /** The pods one event deletes. */
  ghost function Cost(env: Env, s: seq<Pod>, e: Event): nat {
    if e.Reconcile? then |Granted(Deleted(s, e.share, env.ControllerIndex()), e.refused)| else 0
  }

  /** The pods that the reconciles of a run delete. */
  ghost function DeletedBy(env: Env, k: nat, s: seq<Pod>, es: seq<Event>): nat
    requires env.Valid() && Run(env, k, s, es)
  {
    if es == [] then 0 else
      var n := |es| - 1;
      DeletedBy(env, k, s, es[..n]) + Cost(env, After(env, k, s, es[..n]), es[n])
  }

  lemma {:induction false} DeletedByConcat(env: Env, k: nat, s: seq<Pod>, a: seq<Event>, b: seq<Event>)
    requires env.Valid() && Run(env, k, s, a) && Run(env, k, After(env, k, s, a), b)
    ensures Run(env, k, s, a + b)
    ensures DeletedBy(env, k, s, a + b) == DeletedBy(env, k, s, a) + DeletedBy(env, k, After(env, k, s, a), b)
  {
    RunConcat(env, k, s, a, b);
    if b == [] {
      assert a + b == a;
    } else {
      var init := b[..|b| - 1];
      assert (a + b)[..|a + b| - 1] == a + init;
      DeletedByConcat(env, k, s, a, init);
      RunConcat(env, k, s, a, init);
    }
  }

  lemma OneReconcile(env: Env, k: nat, s: seq<Pod>, m: map<string, int>)
    requires env.Valid() && env.Share(m)
    ensures Run(env, k, s, [Reconcile(m, {})])
    ensures After(env, k, s, [Reconcile(m, {})]) == Kept(s, m, env.ControllerIndex())
    ensures DeletedBy(env, k, s, [Reconcile(m, {})]) == |Deleted(s, m, env.ControllerIndex())|
  {
    RunOne(env, k, s, Reconcile(m, {}));
    NoneRefused(s, m, env.ControllerIndex());
    AllGranted(Deleted(s, m, env.ControllerIndex()));
    assert [Reconcile(m, {})][..0] == [];
    assert Run(env, k, s, []) && After(env, k, s, []) == s;
    assert DeletedBy(env, k, s, []) == 0;
  }

  lemma {:induction false} DeletedByMoreInFlight(env: Env, j: nat, k: nat, s: seq<Pod>, es: seq<Event>)
    requires env.Valid() && j <= k && Run(env, j, s, es)
    ensures Run(env, k, s, es) && DeletedBy(env, k, s, es) == DeletedBy(env, j, s, es)
  {
    MoreInFlight(env, j, k, s, es);
    if es != [] {
      MoreInFlight(env, j, k, s, es[..|es| - 1]);
      DeletedByMoreInFlight(env, j, k, s, es[..|es| - 1]);
    }
  }

  /* ---------- pods stay on target groups ---------- */

  lemma OnTargetsStep(env: Env, k: nat, s: seq<Pod>, e: Event)
    requires env.Valid() && OnTargets(env, s) && Enabled(env, k, s, e)
    ensures OnTargets(env, Apply(env, k, s, e))
  {
    var t := Apply(env, k, s, e);
    forall p | p in t && Where(p) != "" ensures Where(p) in env.SchedulerIndex() {
      match e
      case Create(_) =>
      case Admit(i, _, x, _) =>
        AdmitEffect(env, k, s, e, "");
        if p != t[i] { assert p in s; }
      case Bind(i) =>
        assert s[i] in s;
        if p != t[i] { assert p in s; }
      case Abort(i) =>
        if p != t[i] { assert p in s; }
      case Exit(i) => assert p in s;
      case Relist(order) => assert p in multiset(s);
      case Reconcile(share, refused) => SurvivorsMembers(s, share, env.ControllerIndex(), refused, p);
    }
  }

  lemma {:induction false} OnTargetsRun(env: Env, k: nat, s: seq<Pod>, es: seq<Event>)
    requires env.Valid() && OnTargets(env, s) && Run(env, k, s, es)
    ensures OnTargets(env, After(env, k, s, es))
  {
    if es != [] {
      var n := |es| - 1;
      OnTargetsRun(env, k, s, es[..n]);
      OnTargetsStep(env, k, After(env, k, s, es[..n]), es[n]);
    }
  }

  lemma SettledPods(env: Env, m: map<string, int>, s: seq<Pod>)
    requires env.Valid() && env.Share(m) && |s| == env.replicas && Settled(env, m, s)
    ensures OnTargets(env, s) && InFlight(s) == 0
  {
    UnscheduledSplit(s);
    forall p | p in s ensures Where(p) in env.SchedulerIndex() { SettledPlacement(env, m, s, p); }
  }

  /* ---------- at rest ---------- */

  /** No group holds more than the share that admissions use allows, and all pods are on target groups. */
  ghost predicate Quiet(env: Env, k: nat, m: map<string, int>, s: seq<Pod>)
    requires env.Valid()
  {
    Invariant(env, k, m, s) && OnTargets(env, s)
  }

  lemma SettledIsQuiet(env: Env, k: nat, m: map<string, int>, s: seq<Pod>)
    requires env.Valid() && 1 <= k && env.Share(m) && |s| == env.replicas && Settled(env, m, s)
    ensures Quiet(env, k, m, s)
  {
    SettledPods(env, m, s);
    forall g | g in WeightMap(env.weights) ensures Load(env, s, g) <= Limit(k, Lookup(m, g)) { LoadBounds(env, s, g); }
  }

  lemma QuietDeletesNothing(env: Env, k: nat, m: map<string, int>, s: seq<Pod>)
    requires env.Valid() && env.Share(m) && Quiet(env, k, m, s)
    requires forall g :: Limit(k, Lookup(m, g)) <= Max(0, Lookup(m, g))
    ensures Deleted(s, m, env.ControllerIndex()) == []
  {
    forall g ensures Count(s, env.ControllerIndex(), g) <= Max(0, Lookup(m, g)) {
      if g in WeightMap(env.weights) {
        SameCount(env, s, g);
        LoadBounds(env, s, g);
      } else if Count(s, env.ControllerIndex(), g) > 0 {
        var i := CountIfWitness(s, OnGroup(env.ControllerIndex(), g));
        assert s[i] in s;
        SchedulerIndexSound(env, s[i].nodeName);
        IndexRelation(env);
      }
    }
    NothingDeletedExactly(s, m, env.ControllerIndex());
  }

  /** When every call returns the same share map, and placement is atomic or no pod is wanted, no run
      of a quiet cluster deletes a pod. */
  lemma {:induction false} StaysQuiet(env: Env, k: nat, m: map<string, int>, s: seq<Pod>, es: seq<Event>)
    requires env.Valid() && 1 <= k && env.Share(m) && Quiet(env, k, m, s) && Run(env, k, s, es)
    requires env.Remainder() == 0 || |env.weights| == 1
    requires forall g :: Limit(k, Lookup(m, g)) <= Max(0, Lookup(m, g))
    ensures Quiet(env, k, m, After(env, k, s, es)) && DeletedBy(env, k, s, es) == 0
  {
    if es != [] {
      var n := |es| - 1;
      var t, e := After(env, k, s, es[..n]), es[n];
      StaysQuiet(env, k, m, s, es[..n]);
      if e.Admit? || e.Reconcile? { OneShareMap(env, m, e.share); }
      StepSafe(env, k, m, t, e);
      OnTargetsStep(env, k, t, e);
      QuietDeletesNothing(env, k, m, t);
    }
  }

  lemma BaseZero(env: Env, m: map<string, int>)
    requires env.Valid() && env.Share(m) && env.replicas == 0
    ensures forall g :: g in env.BaseShare().Keys ==> Of(env.BaseShare())(g) == 0
  {
    forall g | g in env.BaseShare().Keys ensures Of(env.BaseShare())(g) == 0 { ShareBetween(env, m, g); }
  }

  /** Without replicas every share is 0, whoever is the recipient. */
  lemma NoReplicas(env: Env, m: map<string, int>)
    requires env.Valid() && env.Share(m) && env.replicas == 0
    ensures env.Remainder() == 0 && forall g :: Lookup(m, g) <= 0
  {
    BaseZero(env, m);
    SimpleFacts(env.weights, 0, env.rnd);
    SumBound(env.BaseShare().Keys, Of(env.BaseShare()), 0);
    forall g ensures Lookup(m, g) <= 0 { ShareBetween(env, m, g); }
  }

  /** A cluster exactly at its shares rests for good - no run whatever, of creations, admissions,
      bindings, exits, relistings and reconciles, deletes a pod - exactly when no pod is wanted, or
      placement is atomic and rounding leaves no remainder or there is only one group. */
  lemma RestsExactly(env: Env, k: nat, m: map<string, int>, s: seq<Pod>)
    requires env.Valid() && env.Share(m) && |s| == env.replicas && Settled(env, m, s)
    ensures (forall es :: Run(env, k, s, es) ==> DeletedBy(env, k, s, es) == 0)
        <==> env.replicas == 0 || (k <= 1 && (env.Remainder() == 0 || |env.weights| == 1))
  {
    if env.replicas == 0 || (k <= 1 && (env.Remainder() == 0 || |env.weights| == 1)) {
      if env.replicas == 0 { NoReplicas(env, m); }
      SettledIsQuiet(env, Max(1, k), m, s);
      forall es | Run(env, k, s, es) ensures DeletedBy(env, k, s, es) == 0 {
        DeletedByMoreInFlight(env, k, Max(1, k), s, es);
        StaysQuiet(env, Max(1, k), m, s, es);
      }
    } else {
      var es := Disturb(env, k, m, s);
    }
  }

  /* ---------- never at rest ---------- */

  /** No group is above its share, nothing is in flight and there are at most R pods. */
  ghost predicate Recoverable(env: Env, m: map<string, int>, s: seq<Pod>)
    requires env.Valid()
  {
    && InFlight(s) == 0 && |s| <= env.replicas && OnTargets(env, s)
    && forall g :: g in WeightMap(env.weights) ==> Count(s, env.SchedulerIndex(), g) <= Lookup(m, g)
  }

  /** A reconcile that picks another recipient deletes pods of a settled cluster. */
  lemma DisturbByRecipient(env: Env, k: nat, m: map<string, int>, s: seq<Pod>) returns (es: seq<Event>)
    requires env.Valid() && env.Share(m) && |s| == env.replicas && Settled(env, m, s)
    requires env.Remainder() != 0 && |env.weights| > 1
    ensures Run(env, k, s, es) && 1 <= DeletedBy(env, k, s, es) && Recoverable(env, m, After(env, k, s, es))
  {
    var index := env.ControllerIndex();
    var m' := AnotherRecipientDeletes(env, m, s);
    es := [Reconcile(m', {})];
    SettledPods(env, m, s);
    OneReconcile(env, k, s, m');
    OnTargetsRun(env, k, s, es);
    SplitLengths(s, m', index);
    NoneRefused(s, m', index);
    KeptShrinks(s, m', index, {}, Assumed());
    forall g | g in WeightMap(env.weights) ensures Count(Kept(s, m', index), env.SchedulerIndex(), g) <= Lookup(m, g) {
      KeptShrinks(s, m', index, {}, OnGroup(env.SchedulerIndex(), g));
    }
  }

  lemma RemoveHead(s: seq<Pod>, p: Pod -> bool)
    requires s != []
    ensures CountIf(s[1..], p) == CountIf(s, p) - (if p(s[0]) then 1 else 0)
  {
    CountIfRemove(s, 0, p);
    assert s[..0] + s[1..] == s[1..];
  }

  /** In a settled cluster the first pod runs in a target group, which is at its share. */
  lemma HeadGroup(env: Env, m: map<string, int>, s: seq<Pod>) returns (g: string)
    requires env.Valid() && env.Share(m) && 1 <= env.replicas == |s| && Settled(env, m, s)
    ensures InFlight(s) == 0 && !Assumed()(s[0]) && OnGroup(env.SchedulerIndex(), g)(s[0])
    ensures s[0].nodeName in env.SchedulerIndex() && g == env.SchedulerIndex()[s[0].nodeName]
    ensures Count(s, env.SchedulerIndex(), g) == Lookup(m, g)
  {
    assert s[0] in s;
    SettledPods(env, m, s);
    SettledPlacement(env, m, s, s[0]);
    SchedulerIndexSound(env, s[0].nodeName);
    g := env.SchedulerIndex()[s[0].nodeName];
  }

  /** When it goes away the group is one below its share. */
  lemma VacateOne(env: Env, k: nat, m: map<string, int>, s: seq<Pod>) returns (g: string)
    requires env.Valid() && env.Share(m) && 1 <= env.replicas == |s| && Settled(env, m, s)
    ensures Run(env, k, s, [Exit(0)]) && After(env, k, s, [Exit(0)]) == s[1..] && InFlight(s[1..]) == 0
    ensures s[0].nodeName in env.SchedulerIndex() && g == env.SchedulerIndex()[s[0].nodeName]
    ensures 1 <= Lookup(m, g) && Count(s[1..], env.SchedulerIndex(), g) == Lookup(m, g) - 1
  {
    g := HeadGroup(env, m, s);
    RunOne(env, k, s, Exit(0));
    assert s[..0] + s[1..] == s[1..];
    RemoveHead(s, OnGroup(env.SchedulerIndex(), g));
    RemoveHead(s, Assumed());
  }

  /** A pod goes away and k are created: its group is one below its share, with k pods waiting. */
  lemma Vacate(env: Env, k: nat, m: map<string, int>, s: seq<Pod>) returns (es: seq<Event>, x: Node)
    requires env.Valid() && env.Share(m) && 1 <= env.replicas == |s| && Settled(env, m, s)
    ensures Run(env, k, s, es) && x.name in env.SchedulerIndex()
    ensures var t, g := After(env, k, s, es), env.SchedulerIndex()[x.name];
      && |t| == env.replicas - 1 + k && InFlight(t) == 0 && k <= CountIf(t, Pending())
      && 1 <= Lookup(m, g) && Count(t, env.SchedulerIndex(), g) == Lookup(m, g) - 1
  {
    var p := s[0];
    x := Node(p.nodeName, map[]);
    var added := seq(k, _ => p.(nodeName := "", assumed := ""));
    var g := VacateOne(env, k, m, s);
    CreateAll(env, k, s[1..], added);
    RunConcat(env, k, s, [Exit(0)], Creates(added));
    es := [Exit(0)] + Creates(added);
    CreatedCounts(env, s[1..], added, g);
  }

  lemma CreatedCounts(env: Env, s: seq<Pod>, added: seq<Pod>, g: string)
    requires env.Valid() && forall p :: p in added ==> Pending()(p)
    ensures Count(s + added, env.SchedulerIndex(), g) == Count(s, env.SchedulerIndex(), g)
    ensures InFlight(s + added) == InFlight(s) && CountIf(s + added, Pending()) >= |added|
  {
    CountIfConcat(s, added, OnGroup(env.SchedulerIndex(), g));
    CountIfConcat(s, added, Assumed());
    CountIfConcat(s, added, Pending());
    NoneOnGroup(added, env.SchedulerIndex(), g);
    NoneAssumed(added);
    AllCounted(added, Pending());
  }

  lemma {:induction false} AllCounted(s: seq<Pod>, p: Pod -> bool)
    requires forall x :: x in s ==> p(x)
    ensures CountIf(s, p) == |s|
  {
    if s != [] {
      assert s[|s| - 1] in s;
      AllCounted(s[..|s| - 1], p);
    }
  }

  /** The k waiting pods are all admitted to that group on the same stale count, and bound. */
  lemma Overfill(env: Env, k: nat, m: map<string, int>, s: seq<Pod>) returns (es: seq<Event>, g: string)
    requires env.Valid() && 1 <= k && env.Share(m) && 1 <= env.replicas == |s| && Settled(env, m, s)
    ensures Run(env, k, s, es) && g in WeightMap(env.weights)
    ensures var t := After(env, k, s, es);
      && |t| == env.replicas - 1 + k && InFlight(t) == 0 && OnTargets(env, t)
      && 0 <= Lookup(m, g) && Count(t, env.SchedulerIndex(), g) == Lookup(m, g) + k - 1
  {
    var first, x := Vacate(env, k, m, s);
    var mid := After(env, k, s, first);
    SchedulerIndexSound(env, x.name);
    g := env.SchedulerIndex()[x.name];
    var placing := OvershootAttained(env, k, m, mid, x);
    PlacingLength(env, k, mid, placing);
    RunConcat(env, k, s, first, placing);
    es := first + placing;
    SettledPods(env, m, s);
    OnTargetsRun(env, k, s, es);
  }

  /** With several pods in flight stale counts alone make a reconcile delete pods. */
  lemma DisturbByOverfill(env: Env, k: nat, m: map<string, int>, s: seq<Pod>) returns (es: seq<Event>)
    requires env.Valid() && 2 <= k && env.Share(m) && 1 <= env.replicas == |s| && Settled(env, m, s)
    ensures Run(env, k, s, es) && 1 <= DeletedBy(env, k, s, es) && Recoverable(env, m, After(env, k, s, es))
  {
    var first, g := Overfill(env, k, m, s);
    var t := After(env, k, s, first);
    OneReconcile(env, k, t, m);
    DeletedByConcat(env, k, s, first, [Reconcile(m, {})]);
    RunConcat(env, k, s, first, [Reconcile(m, {})]);
    es := first + [Reconcile(m, {})];
    OverfullIsCut(env, k, m, t, g);
    OnTargetsRun(env, k, t, [Reconcile(m, {})]);
    assert forall h :: h in WeightMap(env.weights) ==> Count(s, env.SchedulerIndex(), h) == Lookup(m, h);
    forall h | h in WeightMap(env.weights)
      ensures Count(Kept(t, m, env.ControllerIndex()), env.SchedulerIndex(), h) <= Lookup(m, h)
    {
      KeptCount(t, m, env.ControllerIndex(), h);
      SameCount(env, Kept(t, m, env.ControllerIndex()), h);
    }
  }

  lemma OverfullIsCut(env: Env, k: nat, m: map<string, int>, t: seq<Pod>, g: string)
    requires env.Valid() && 2 <= k && env.Share(m) && |t| == env.replicas - 1 + k && InFlight(t) == 0
    requires g in WeightMap(env.weights) && 0 <= Lookup(m, g)
    requires Count(t, env.SchedulerIndex(), g) == Lookup(m, g) + k - 1
    ensures k - 1 <= |Deleted(t, m, env.ControllerIndex())|
    ensures |Kept(t, m, env.ControllerIndex())| <= env.replicas && InFlight(Kept(t, m, env.ControllerIndex())) == 0
  {
    var index := env.ControllerIndex();
    SameCount(env, t, g);
    KeptCount(t, m, index, g);
    CountIfAtMost(Deleted(t, m, index), OnGroup(index, g));
    SplitLengths(t, m, index);
    NoneRefused(t, m, index);
    KeptShrinks(t, m, index, {}, Assumed());
  }

  lemma Disturb(env: Env, k: nat, m: map<string, int>, s: seq<Pod>) returns (es: seq<Event>)
    requires env.Valid() && env.Share(m) && |s| == env.replicas && Settled(env, m, s)
    requires env.replicas > 0 && (k > 1 || (env.Remainder() != 0 && |env.weights| > 1))
    ensures Run(env, k, s, es) && 1 <= DeletedBy(env, k, s, es) && Recoverable(env, m, After(env, k, s, es))
  {
    if k > 1 {
      es := DisturbByOverfill(env, k, m, s);
    } else {
      es := DisturbByRecipient(env, k, m, s);
    }
  }

  /** The missing pods are created and placed with the share map `m` again. */
  lemma Recover(env: Env, m: map<string, int>, s: seq<Pod>, candidates: seq<Node>) returns (es: seq<Event>)
    requires env.Valid() && env.Share(m) && (forall g :: g in m ==> 0 <= m[g])
    requires Recoverable(env, m, s) && Covers(env, candidates)
    ensures Run(env, 1, s, es) && |After(env, 1, s, es)| == env.replicas && Settled(env, m, After(env, 1, s, es))
  {
    var added := seq(env.replicas - |s|, _ => Pod(Key("", ""), map[], "", ""));
    var t := s + added;
    CreateAll(env, 1, s, added);
    OnTargetsRun(env, 1, s, Creates(added));
    forall g | g in WeightMap(env.weights) ensures Load(env, t, g) <= Limit(1, Lookup(m, g)) {
      CreatedCounts(env, s, added, g);
      LoadBounds(env, t, g);
    }
    CreatedCounts(env, s, added, "");
    var placing := PlaceAll(env, m, t, candidates);
    PlacingRun(env, m, t, placing);
    RunConcat(env, 1, s, Creates(added), placing);
    es := Creates(added) + placing;
  }

  /** One round from a settled cluster back to a settled one. */
  lemma Round(env: Env, k: nat, m: map<string, int>, s: seq<Pod>, candidates: seq<Node>) returns (es: seq<Event>)
    requires env.Valid() && 1 <= k && env.Share(m) && |s| == env.replicas && Settled(env, m, s)
    requires Covers(env, candidates)
    requires env.replicas > 0 && (k > 1 || (env.Remainder() != 0 && |env.weights| > 1))
    ensures Run(env, k, s, es) && 1 <= DeletedBy(env, k, s, es)
    ensures |After(env, k, s, es)| == env.replicas && Settled(env, m, After(env, k, s, es))
  {
    var first := Disturb(env, k, m, s);
    var t := After(env, k, s, first);
    ShareBetween(env, m, "");
    forall g | g in m ensures 0 <= m[g] { assert Count(s, env.SchedulerIndex(), g) == m[g]; }
    var rest := Recover(env, m, t, candidates);
    MoreInFlight(env, 1, k, t, rest);
    RunConcat(env, k, s, first, rest);
    DeletedByConcat(env, k, s, first, rest);
    es := first + rest;
  }

  /** In all other cases a settled cluster never comes to rest: for every n some run leads from it back
      to the same shares and its reconciles delete at least n pods on the way. */
  lemma {:induction false} NeverRests(env: Env, k: nat, m: map<string, int>, s: seq<Pod>, candidates: seq<Node>, n: nat)
    returns (es: seq<Event>)
    requires env.Valid() && 1 <= k && env.Share(m) && |s| == env.replicas && Settled(env, m, s)
    requires Covers(env, candidates)
    requires env.replicas > 0 && (k > 1 || (env.Remainder() != 0 && |env.weights| > 1))
    ensures Run(env, k, s, es) && n <= DeletedBy(env, k, s, es)
    ensures |After(env, k, s, es)| == env.replicas && Settled(env, m, After(env, k, s, es))
    decreases n
  {
    if n == 0 {
      es := [];
    } else {
      var first := Round(env, k, m, s, candidates);
      var rest := NeverRests(env, k, m, After(env, k, s, first), candidates, n - 1);
      RunConcat(env, k, s, first, rest);
      DeletedByConcat(env, k, s, first, rest);
      es := first + rest;
    }
  }
}
