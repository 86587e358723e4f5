/** Progress and convergence: a waiting pod can always be placed, one correction followed by
    placements reaches the shares exactly, and when the result stays put. */
module Convergence {
  import opened Common
  import opened Api
  import opened Shares
  import opened Placement
  import opened Correction
  import opened Filtering
  import opened Machine
  import opened Safety

  function Unscheduled(): Pod -> bool {
    (p: Pod) => p.nodeName == ""
  }

  /* ---------- progress ---------- */

  lemma {:induction false} GroupedAndUnscheduled(s: seq<Pod>, index: Index)
    ensures CountIf(s, Grouped(index)) + CountIf(s, Unscheduled()) <= |s|
  {
    if s != [] { GroupedAndUnscheduled(s[..|s| - 1], index); }
  }

  /** The counts of the target groups add up to the pods on target-group nodes. */
  lemma TargetSum(env: Env, s: seq<Pod>)
    requires env.Valid()
    ensures CountIf(s, Grouped(env.SchedulerIndex()))
              == Sum(WeightMap(env.weights).Keys, CountOf(s, env.SchedulerIndex()))
  {
    forall p | p in s && GroupOf(p, env.SchedulerIndex()).Some?
      ensures GroupOf(p, env.SchedulerIndex()).value in WeightMap(env.weights).Keys
    {
      SchedulerIndexSound(env, p.nodeName);
    }
    GroupedSum(s, env.SchedulerIndex(), WeightMap(env.weights).Keys);
  }

  lemma ShareTotal(env: Env, m: map<string, int>)
    requires env.Valid() && env.Share(m)
    ensures m.Keys == WeightMap(env.weights).Keys && Sum(WeightMap(env.weights).Keys, Of(m)) == env.replicas
  {
    ShareBetween(env, m, "");
    SimpleFacts(env.weights, env.replicas, env.rnd);
    ConservationExact(env.weights, env.replicas, env.rnd, m);
  }

  /** Pigeonhole: while a pod of at most R is unscheduled, some group runs fewer pods than its
      share, whatever the signs of the shares and wherever the other pods run. */
  lemma SomeGroupBelowShare(env: Env, m: map<string, int>, s: seq<Pod>) returns (g: string)
    requires env.Valid() && env.Share(m) && |s| <= env.replicas && CountIf(s, Unscheduled()) > 0
    ensures g in WeightMap(env.weights) && Count(s, env.SchedulerIndex(), g) < Lookup(m, g)
  {
    var ks := WeightMap(env.weights).Keys;
    ShareTotal(env, m);
    TargetSum(env, s);
    GroupedAndUnscheduled(s, env.SchedulerIndex());
    if forall h :: h in ks ==> Of(m)(h) <= CountOf(s, env.SchedulerIndex())(h) {
      SumLe(ks, Of(m), CountOf(s, env.SchedulerIndex()));
      assert false;
    }
    g :| g in ks && CountOf(s, env.SchedulerIndex())(g) < Of(m)(g);
  }

  /** The candidates include a node of every target group. */
  ghost predicate Covers(env: Env, candidates: seq<Node>)
    requires env.Valid()
  {
    forall g :: g in WeightMap(env.weights) ==>
      exists x :: x in candidates && x.name in env.SchedulerIndex() && env.SchedulerIndex()[x.name] == g
  }

  /** With R pods in all, the filter never turns every node away from a waiting pod, for any share
      map its allocator call may return. */
  lemma Progress(env: Env, m: map<string, int>, s: seq<Pod>, candidates: seq<Node>) returns (x: Node)
    requires env.Valid() && env.Share(m) && |s| <= env.replicas && CountIf(s, Unscheduled()) > 0
    requires Covers(env, candidates)
    ensures x in Keep(candidates, Admissible(s, m, env.SchedulerIndex()))
  {
    var g := SomeGroupBelowShare(env, m, s);
    x :| x in candidates && x.name in env.SchedulerIndex() && env.SchedulerIndex()[x.name] == g;
    KeepMembers(candidates, Admissible(s, m, env.SchedulerIndex()), x);
  }

  /* ---------- convergence ---------- */

  /** Every placed pod, in flight included, is on a target-group node. */
  ghost predicate OnTargets(env: Env, s: seq<Pod>)
    requires env.Valid()
  {
    forall p :: p in s && Where(p) != "" ==> Where(p) in env.SchedulerIndex()
  }

  /** All R pods exist, every placed one is on a target-group node, and no group is above its share. */
  ghost predicate Settling(env: Env, m: map<string, int>, s: seq<Pod>)
    requires env.Valid()
  {
    && |s| == env.replicas
    && OnTargets(env, s)
    && Invariant(env, 1, m, s)
  }

  /** Every target group runs exactly its share, and no pod is waiting. */
  ghost predicate Settled(env: Env, m: map<string, int>, s: seq<Pod>)
    requires env.Valid()
  {
    CountIf(s, Unscheduled()) == 0
    && forall g :: g in WeightMap(env.weights) ==> Count(s, env.SchedulerIndex(), g) == Lookup(m, g)
  }

  lemma {:induction false} AllGrouped(s: seq<Pod>, index: Index)
    requires forall p :: p in s && Where(p) != "" ==> Where(p) in index
    ensures CountIf(s, Grouped(index)) + CountIf(s, Unscheduled()) == |s|
  {
    if s != [] {
      var n := |s| - 1;
      AllGrouped(s[..n], index);
      assert s[n] in s;
    }
  }

  /** When nothing is left waiting the shares are met exactly. */
  lemma NoSlackLeft(env: Env, m: map<string, int>, s: seq<Pod>)
    requires env.Valid() && env.Share(m) && (forall g :: g in m ==> 0 <= m[g])
    requires Settling(env, m, s) && CountIf(s, Unscheduled()) == 0
    ensures Settled(env, m, s)
  {
    var ks := WeightMap(env.weights).Keys;
    AllGrouped(s, env.SchedulerIndex());
    TargetSum(env, s);
    ShareTotal(env, m);
    forall g | g in ks ensures CountOf(s, env.SchedulerIndex())(g) <= Of(m)(g) {
      LoadBounds(env, s, g);
    }
    forall g | g in ks ensures Count(s, env.SchedulerIndex(), g) == Lookup(m, g) {
      SumTight(ks, CountOf(s, env.SchedulerIndex()), Of(m), g);
    }
  }

  lemma PlacingStep(env: Env, m: map<string, int>, s: seq<Pod>, e: Event)
    requires env.Valid() && Settling(env, m, s) && Enabled(env, 1, s, e) && Placing(m, [e])
    ensures Settling(env, m, Apply(env, 1, s, e))
  {
    assert e in [e];
    StepSafe(env, 1, m, s, e);
    var t := Apply(env, 1, s, e);
    assert forall p :: p in t ==> p in s || p == t[e.i];
    assert s[e.i] in s;
    if e.Admit? { KeepMembers(e.candidates, Admissible(s, m, env.SchedulerIndex()), e.node); }
  }

  lemma {:induction false} PlacingRun(env: Env, m: map<string, int>, s: seq<Pod>, es: seq<Event>)
    requires env.Valid() && Settling(env, m, s) && Run(env, 1, s, es) && Placing(m, es)
    ensures Settling(env, m, After(env, 1, s, es))
  {
    if es != [] {
      var n := |es| - 1;
      assert es == es[..n] + [es[n]];
      PlacingRun(env, m, s, es[..n]);
      PlacingStep(env, m, After(env, 1, s, es[..n]), es[n]);
    }
  }

  /** The placements still to come: two for a waiting pod, one for a pod in flight. */
  ghost function Remaining(s: seq<Pod>): nat {
    2 * CountIf(s, Pending()) + InFlight(s)
  }

  /** Admissions, with share maps of any recipients, and bindings. */
  ghost predicate Placements(es: seq<Event>) {
    forall e :: e in es ==> e.Admit? || e.Bind?
  }

  /** Every placement brings the end one step nearer. */
  lemma {:induction false} PlacingLength(env: Env, k: nat, s: seq<Pod>, es: seq<Event>)
    requires env.Valid() && Run(env, k, s, es) && Placements(es)
    ensures |es| + Remaining(After(env, k, s, es)) == Remaining(s)
    ensures |After(env, k, s, es)| == |s|
  {
    if es != [] {
      var n := |es| - 1;
      var e, t := es[n], After(env, k, s, es[..n]);
      assert es == es[..n] + [e];
      assert e in es;
      PlacingLength(env, k, s, es[..n]);
      var p := Apply(env, k, t, e)[e.i];
      CountIfUpdate(t, e.i, p, Pending());
      CountIfUpdate(t, e.i, p, Assumed());
      if e.Admit? {
        AdmitEffect(env, k, t, e, "");
        SchedulerIndexSound(env, e.node.name);
      }
    }
  }

  lemma {:induction false} UnscheduledSplit(s: seq<Pod>)
    ensures CountIf(s, Unscheduled()) == CountIf(s, Pending()) + InFlight(s)
  {
    if s != [] { UnscheduledSplit(s[..|s| - 1]); }
  }

  /** However placements are chosen: a run of them has a length fixed in advance, two for each
      waiting pod and one for each in flight, less what is still to come; while a pod waits another
      placement is possible; and a run that cannot go on ends with every group exactly at its share. */
  lemma EveryPlacingRun(env: Env, m: map<string, int>, s: seq<Pod>, es: seq<Event>, candidates: seq<Node>)
    requires env.Valid() && env.Share(m) && (forall g :: g in m ==> 0 <= m[g])
    requires Settling(env, m, s) && Run(env, 1, s, es) && Placing(m, es) && Covers(env, candidates)
    ensures var t := After(env, 1, s, es);
      && |es| + Remaining(t) == Remaining(s)
      && (Remaining(t) > 0 <==> exists e :: Placing(m, [e]) && Enabled(env, 1, t, e))
      && (Remaining(t) == 0 ==> Settled(env, m, t))
  {
    PlacingRun(env, m, s, es);
    PlacingLength(env, 1, s, es);
    var t := After(env, 1, s, es);
    UnscheduledSplit(t);
    if Remaining(t) == 0 {
      NoSlackLeft(env, m, t);
      NothingToPlace(env, 1, t);
      assert forall e :: Placing(m, [e]) ==> Placements([e]);
    } else {
      var e := NextPlacement(env, 1, m, t, candidates);
    }
  }

  lemma NothingToPlace(env: Env, k: nat, t: seq<Pod>)
    requires env.Valid() && Remaining(t) == 0
    ensures forall e :: Placements([e]) ==> !Enabled(env, k, t, e)
  {
    forall e | Placements([e]) && Enabled(env, k, t, e) ensures false {
      RunOne(env, k, t, e);
      PlacingLength(env, k, t, [e]);
    }
  }

  /** While a pod waits or is in flight, and there are at most R, a binding is possible or an
      admission, whichever recipient its share map favours. */
  lemma NextPlacement(env: Env, k: nat, m: map<string, int>, t: seq<Pod>, candidates: seq<Node>) returns (e: Event)
    requires env.Valid() && 1 <= k && env.Share(m) && |t| <= env.replicas && Covers(env, candidates)
    requires Remaining(t) > 0
    ensures Placing(m, [e]) && Enabled(env, k, t, e)
  {
    UnscheduledSplit(t);
    if InFlight(t) > 0 {
      var i := CountIfWitness(t, Assumed());
      e := Bind(i);
    } else {
      var x := Progress(env, m, t, candidates);
      var i := WaitingPod(t);
      e := Admit(i, candidates, x, m);
    }
  }

  /** The same when every admission's call picks its own recipient and up to k pods are in flight: the
      length of a placing run is fixed in advance, it can go on exactly until no pod waits, with any
      share map for the next admission, and no group ends above the largest share a call may give it
      by more than k - 1. */
  lemma EveryPlacingRunAnyRecipient(env: Env, k: nat, s: seq<Pod>, es: seq<Event>, candidates: seq<Node>)
    requires env.Valid() && 1 <= k && Start(env, s) && |s| <= env.replicas
    requires Run(env, k, s, es) && Placements(es) && Covers(env, candidates)
    ensures var t := After(env, k, s, es);
      && |es| + Remaining(t) == Remaining(s)
      && (Remaining(t) > 0 ==> forall m :: env.Share(m) ==>
            exists e :: Placing(m, [e]) && Enabled(env, k, t, e))
      && (Remaining(t) == 0 ==>
            CountIf(t, Unscheduled()) == 0 && forall e :: Placements([e]) ==> !Enabled(env, k, t, e))
      && (forall g :: g in WeightMap(env.weights) ==>
            Load(env, t, g) <= Limit(k, Lookup(env.BaseShare(), g) + Max(0, env.Remainder())))
  {
    var t := After(env, k, s, es);
    PlacingLength(env, k, s, es);
    UnscheduledSplit(t);
    if Remaining(t) == 0 { NothingToPlace(env, k, t); }
    forall m | Remaining(t) > 0 && env.Share(m)
      ensures exists e :: Placing(m, [e]) && Enabled(env, k, t, e)
    {
      var e := NextPlacement(env, k, m, t, candidates);
    }
    forall g | g in WeightMap(env.weights)
      ensures Load(env, t, g) <= Limit(k, Lookup(env.BaseShare(), g) + Max(0, env.Remainder()))
    {
      ChoiceRobustSafety(env, k, s, es, g);
    }
  }

  lemma {:induction false} WaitingPod(t: seq<Pod>) returns (i: nat)
    requires CountIf(t, Unscheduled()) > 0 && InFlight(t) == 0
    ensures i < |t| && Pending()(t[i])
  {
    var n := |t| - 1;
    if Pending()(t[n]) { i := n; } else { i := WaitingPod(t[..n]); }
  }

  /** Two events per waiting pod reach the shares. */
  lemma {:induction false} PlaceAll(env: Env, m: map<string, int>, s: seq<Pod>, candidates: seq<Node>)
    returns (es: seq<Event>)
    requires env.Valid() && env.Share(m) && (forall g :: g in m ==> 0 <= m[g])
    requires Settling(env, m, s) && InFlight(s) == 0 && Covers(env, candidates)
    ensures Run(env, 1, s, es) && Placing(m, es) && |es| == 2 * CountIf(s, Unscheduled())
    ensures Settled(env, m, After(env, 1, s, es))
    decreases CountIf(s, Unscheduled())
  {
    if CountIf(s, Unscheduled()) == 0 {
      es := [];
      NoSlackLeft(env, m, s);
    } else {
      var x := Progress(env, m, s, candidates);
      var i := WaitingPod(s);
      var t := PlaceOne(env, m, s, i, candidates, x);
      var rest := PlaceAll(env, m, t, candidates);
      RunConcat(env, 1, s, [Admit(i, candidates, x, m), Bind(i)], rest);
      es := [Admit(i, candidates, x, m), Bind(i)] + rest;
    }
  }

  lemma PlaceOne(env: Env, m: map<string, int>, s: seq<Pod>, i: nat, candidates: seq<Node>, x: Node)
    returns (t: seq<Pod>)
    requires env.Valid() && env.Share(m) && Settling(env, m, s) && InFlight(s) == 0
    requires i < |s| && Pending()(s[i]) && x in Keep(candidates, Admissible(s, m, env.SchedulerIndex()))
    ensures var es := [Admit(i, candidates, x, m), Bind(i)];
      Run(env, 1, s, es) && Placing(m, es) && t == After(env, 1, s, es)
    ensures Settling(env, m, t) && InFlight(t) == 0
    ensures CountIf(t, Unscheduled()) == CountIf(s, Unscheduled()) - 1
  {
    var a, b := Admit(i, candidates, x, m), Bind(i);
    KeepMembers(candidates, Admissible(s, m, env.SchedulerIndex()), x);
    SchedulerIndexSound(env, x.name);
    var mid := s[i := s[i].(assumed := x.name)];
    t := mid[i := mid[i].(nodeName := x.name, assumed := "")];
    RunOne(env, 1, s, a);
    RunOne(env, 1, mid, b);
    RunConcat(env, 1, s, [a], [b]);
    assert [a] + [b] == [a, b];
    PlacingStep(env, m, s, a);
    PlacingStep(env, m, mid, b);
    CountIfUpdate(s, i, mid[i], Assumed());
    CountIfUpdate(mid, i, t[i], Assumed());
    CountIfUpdate(s, i, mid[i], Unscheduled());
    CountIfUpdate(mid, i, t[i], Unscheduled());
  }

  /** The deployment controller recreates pods, waiting for a node. */
  function Creates(pods: seq<Pod>): seq<Event> {
    seq(|pods|, i requires 0 <= i < |pods| => Create(pods[i]))
  }

  lemma {:induction false} CreateAll(env: Env, k: nat, s: seq<Pod>, added: seq<Pod>)
    requires env.Valid() && forall p :: p in added ==> Pending()(p)
    ensures Run(env, k, s, Creates(added)) && After(env, k, s, Creates(added)) == s + added
  {
    if added == [] {
      assert s + added == s;
    } else {
      var n := |added| - 1;
      assert added[n] in added;
      CreateAll(env, k, s, added[..n]);
      assert Creates(added)[..n] == Creates(added[..n]);
      assert s + added[..n] + [added[n]] == s + added;
    }
  }

  /** After a correction and the recreation of what it deleted, no group is above its share. */
  lemma CorrectedIsSettling(env: Env, m: map<string, int>, s: seq<Pod>, added: seq<Pod>)
    requires env.Valid() && env.Share(m) && |s| == env.replicas && InFlight(s) == 0
    requires forall p :: p in s && p.nodeName != "" ==> p.nodeName in env.ControllerIndex()
    requires (forall p :: p in added ==> Pending()(p)) && |added| == |Deleted(s, m, env.ControllerIndex())|
    ensures var t := Kept(s, m, env.ControllerIndex()) + added; Settling(env, m, t) && InFlight(t) == 0
  {
    var kept := Kept(s, m, env.ControllerIndex());
    var t := kept + added;
    CountIfConcat(kept, added, Assumed());
    NoneAssumed(added);
    NoneRefused(s, m, env.ControllerIndex());
    KeptShrinks(s, m, env.ControllerIndex(), {}, Assumed());
    SplitLengths(s, m, env.ControllerIndex());
    forall g | g in WeightMap(env.weights) ensures Load(env, t, g) <= Limit(1, Lookup(m, g)) {
      CorrectedLoad(env, m, s, added, g);
    }
    forall p | p in t && Where(p) != "" ensures Where(p) in env.SchedulerIndex() {
      if p in kept { KeptOnTargets(env, m, s, p); }
    }
  }

  lemma CorrectedLoad(env: Env, m: map<string, int>, s: seq<Pod>, added: seq<Pod>, g: string)
    requires env.Valid() && InFlight(Kept(s, m, env.ControllerIndex()) + added) == 0
    requires (forall p :: p in added ==> Pending()(p)) && g in WeightMap(env.weights)
    ensures Load(env, Kept(s, m, env.ControllerIndex()) + added, g) <= Limit(1, Lookup(m, g))
  {
    var kept := Kept(s, m, env.ControllerIndex());
    LoadBounds(env, kept + added, g);
    CountIfConcat(kept, added, OnGroup(env.SchedulerIndex(), g));
    NoneOnGroup(added, env.SchedulerIndex(), g);
    KeptCount(s, m, env.ControllerIndex(), g);
    SameCount(env, kept, g);
  }

  lemma {:induction false} NoneAssumed(added: seq<Pod>)
    requires forall p :: p in added ==> Pending()(p)
    ensures InFlight(added) == 0
  {
    if added != [] {
      assert added[|added| - 1] in added;
      NoneAssumed(added[..|added| - 1]);
    }
  }

  lemma {:induction false} NoneOnGroup(added: seq<Pod>, index: Index, g: string)
    requires forall p :: p in added ==> Pending()(p)
    ensures Count(added, index, g) == 0
  {
    if added != [] {
      assert added[|added| - 1] in added;
      NoneOnGroup(added[..|added| - 1], index, g);
    }
  }

  lemma {:induction false} AssumedCounted(s: seq<Pod>, p: Pod)
    requires p in s && Assumed()(p)
    ensures InFlight(s) > 0
  {
    var n := |s| - 1;
    if p != s[n] {
      assert s == s[..n] + [s[n]];
      AssumedCounted(s[..n], p);
    }
  }

  /** A correction leaves pods only on nodes of target groups, if all were on grouped nodes. */
  lemma KeptOnTargets(env: Env, m: map<string, int>, s: seq<Pod>, p: Pod)
    requires env.Valid() && env.Share(m) && InFlight(s) == 0
    requires forall q :: q in s && q.nodeName != "" ==> q.nodeName in env.ControllerIndex()
    requires p in Kept(s, m, env.ControllerIndex()) && Where(p) != ""
    ensures Where(p) in env.SchedulerIndex()
  {
    var index := env.ControllerIndex();
    var kept := Kept(s, m, index);
    Partition(s, m, index);
    assert p in multiset(s);
    assert p.nodeName != "" by {
      if p.nodeName == "" { AssumedCounted(s, p); }
    }
    var g := index[p.nodeName];
    CountPositive(kept, index, p);
    KeptCount(s, m, index, g);
    ShareBetween(env, m, g);
    SimpleTargets(env.weights, g);
    IndexRelation(env);
  }

  /** Convergence: with R pods on grouped nodes and one fixed non-negative share map, one
      correction, the recreation of the pods it deleted, and one admission and binding per waiting
      pod end with every group exactly at its share. */
  lemma Converges(env: Env, m: map<string, int>, s: seq<Pod>, added: seq<Pod>, candidates: seq<Node>)
    returns (es: seq<Event>)
    requires env.Valid() && env.Share(m) && (forall g :: g in m ==> 0 <= m[g])
    requires |s| == env.replicas && InFlight(s) == 0 && Covers(env, candidates)
    requires forall p :: p in s && p.nodeName != "" ==> p.nodeName in env.ControllerIndex()
    requires (forall p :: p in added ==> Pending()(p)) && |added| == |Deleted(s, m, env.ControllerIndex())|
    ensures Placing(m, es) && Run(env, 1, s, [Reconcile(m, {})] + Creates(added) + es)
    ensures |es| == 2 * CountIf(Kept(s, m, env.ControllerIndex()) + added, Unscheduled())
    ensures var t := After(env, 1, s, [Reconcile(m, {})] + Creates(added) + es);
      Settled(env, m, t) && |t| == env.replicas
  {
    var kept := Kept(s, m, env.ControllerIndex());
    NoneRefused(s, m, env.ControllerIndex());
    RunOne(env, 1, s, Reconcile(m, {}));
    CreateAll(env, 1, kept, added);
    RunConcat(env, 1, s, [Reconcile(m, {})], Creates(added));
    CorrectedIsSettling(env, m, s, added);
    es := PlaceAll(env, m, kept + added, candidates);
    PlacingRun(env, m, kept + added, es);
    RunConcat(env, 1, s, [Reconcile(m, {})] + Creates(added), es);
  }
}
