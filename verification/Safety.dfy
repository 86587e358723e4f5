/** Safety over whole runs: how many pods a group can run or have in flight, whatever leftover
    recipient each allocator call picks and however stale the counts are. */
module Safety {
  import opened Common
  import opened Api
  import opened Shares
  import opened Placement
  import opened Correction
  import opened Filtering
  import opened Machine

  /** The most a group may hold when admissions use shares of at most `c` and at most `k` pods are
      in flight. */
  function Limit(k: nat, c: int): int {
    if c <= 0 then 0 else c + k - 1
  }

  ghost predicate Invariant(env: Env, k: nat, cap: map<string, int>, s: seq<Pod>)
    requires env.Valid()
  {
    InFlight(s) <= k && forall g :: g in WeightMap(env.weights) ==> Load(env, s, g) <= Limit(k, Lookup(cap, g))
  }

  /** Every admission uses a share map below `cap`. */
  ghost predicate SharesUnder(env: Env, es: seq<Event>, cap: map<string, int>)
    requires env.Valid()
  {
    forall e, g :: e in es && e.Admit? && g in WeightMap(env.weights) ==> Lookup(e.share, g) <= Lookup(cap, g)
  }

  lemma StepSafe(env: Env, k: nat, cap: map<string, int>, s: seq<Pod>, e: Event)
    requires env.Valid() && 1 <= k && Invariant(env, k, cap, s) && Enabled(env, k, s, e)
    requires SharesUnder(env, [e], cap)
    ensures Invariant(env, k, cap, Apply(env, k, s, e))
  {
    var t := Apply(env, k, s, e);
    if !e.Admit? { OtherEffect(env, k, s, e, Assumed()); }
    forall g | g in WeightMap(env.weights) ensures Load(env, t, g) <= Limit(k, Lookup(cap, g)) {
      if e.Admit? {
        assert e in [e];
        AdmitEffect(env, k, s, e, g);
        LoadBounds(env, s, g);
      } else {
        OtherEffect(env, k, s, e, LoadsOn(env.SchedulerIndex(), g));
      }
    }
    if e.Admit? { AdmitEffect(env, k, s, e, ""); }
  }

  /** The invariant holds after every run. */
  lemma {:induction false} RunSafe(env: Env, k: nat, cap: map<string, int>, s: seq<Pod>, es: seq<Event>)
    requires env.Valid() && 1 <= k && Invariant(env, k, cap, s) && Run(env, k, s, es)
    requires SharesUnder(env, es, cap)
    ensures Invariant(env, k, cap, After(env, k, s, es))
  {
    if es != [] {
      var n := |es| - 1;
      assert es == es[..n] + [es[n]];
      RunSafe(env, k, cap, s, es[..n]);
      StepSafe(env, k, cap, After(env, k, s, es[..n]), es[n]);
    }
  }

  lemma {:induction false} RunShares(env: Env, k: nat, s: seq<Pod>, es: seq<Event>)
    requires env.Valid() && Run(env, k, s, es)
    ensures forall e :: e in es && e.Admit? ==> env.Share(e.share)
    ensures forall e :: e in es && e.Reconcile? ==> env.Share(e.share)
  {
    if es != [] {
      var n := |es| - 1;
      assert es == es[..n] + [es[n]];
      RunShares(env, k, s, es[..n]);
    }
  }

  lemma {:induction false} RunPrefix(env: Env, k: nat, s: seq<Pod>, es: seq<Event>, j: nat)
    requires env.Valid() && Run(env, k, s, es) && j < |es|
    ensures Run(env, k, s, es[..j]) && Enabled(env, k, After(env, k, s, es[..j]), es[j])
  {
    var n := |es| - 1;
    if j < n {
      RunPrefix(env, k, s, es[..n], j);
      assert es[..n][..j] == es[..j];
    }
  }

  /* ---------- any recipient ---------- */

  /** The largest share any call may give each group. */
  ghost function Highest(env: Env): map<string, int>
    requires env.Valid()
  {
    map g | g in env.BaseShare() :: env.BaseShare()[g] + Max(0, env.Remainder())
  }

  lemma ShareBetween(env: Env, m: map<string, int>, g: string)
    requires env.Valid() && env.Share(m)
    ensures m.Keys == WeightMap(env.weights).Keys == env.BaseShare().Keys
    ensures g in m ==> env.BaseShare()[g] + Min(0, env.Remainder()) <= m[g] <= Lookup(Highest(env), g)
    ensures g in m ==> 0 <= env.BaseShare()[g] <= env.replicas
  {
    var recipient := FindRecipient(env.weights, env.replicas, env.rnd, m);
    SimpleFacts(env.weights, env.replicas, env.rnd);
    if g in m { BaseWithin(env.weights, env.replicas, env.rnd, g); }
  }

  /** A state a run may start from: nothing in flight, every target group at or below the largest
      share a call may give it. */
  ghost predicate Start(env: Env, s: seq<Pod>)
    requires env.Valid()
  {
    InFlight(s) == 0 && forall g :: g in WeightMap(env.weights) ==>
      Count(s, env.SchedulerIndex(), g) <= Max(0, Lookup(Highest(env), g))
  }

  lemma StartInvariant(env: Env, k: nat, s: seq<Pod>)
    requires env.Valid() && 1 <= k && Start(env, s)
    ensures Invariant(env, k, Highest(env), s)
  {
    forall g | g in WeightMap(env.weights) ensures Load(env, s, g) <= Limit(k, Lookup(Highest(env), g)) {
      LoadBounds(env, s, g);
    }
  }

  /** Safety whatever recipient each call picks and with up to k admissions in flight on stale
      counts: a target group never holds more than max(0, base + max(0, left)) pods, plus k - 1 if
      that is positive. With k == 1 admission and binding are atomic. */
  lemma ChoiceRobustSafety(env: Env, k: nat, s: seq<Pod>, es: seq<Event>, g: string)
    requires env.Valid() && 1 <= k && Start(env, s) && Run(env, k, s, es)
    requires g in WeightMap(env.weights)
    ensures var t := After(env, k, s, es); var cap := Lookup(env.BaseShare(), g) + Max(0, env.Remainder());
      && Count(t, env.ControllerIndex(), g) <= Load(env, t, g) <= Limit(k, cap)
      && InFlight(t) <= k
  {
    RunSafeForAnyShare(env, k, s, es);
    var t := After(env, k, s, es);
    LoadBounds(env, t, g);
    SameCount(env, t, g);
  }

  lemma RunSafeForAnyShare(env: Env, k: nat, s: seq<Pod>, es: seq<Event>)
    requires env.Valid() && 1 <= k && Start(env, s) && Run(env, k, s, es)
    ensures Invariant(env, k, Highest(env), After(env, k, s, es))
    ensures WeightMap(env.weights).Keys == env.BaseShare().Keys
  {
    SimpleFacts(env.weights, env.replicas, env.rnd);
    StartInvariant(env, k, s);
    RunShares(env, k, s, es);
    forall e, g | e in es && e.Admit? && g in WeightMap(env.weights)
      ensures Lookup(e.share, g) <= Lookup(Highest(env), g)
    {
      ShareBetween(env, e.share, g);
    }
    RunSafe(env, k, Highest(env), s, es);
  }

  /** Each reconcile of such a run deletes at most |left| + k - 1 pods of any one target group;
      at most |left| when admission and binding are atomic. */
  lemma DeletionBound(env: Env, k: nat, s: seq<Pod>, es: seq<Event>, j: nat, g: string)
    requires env.Valid() && 1 <= k && Start(env, s) && Run(env, k, s, es)
    requires j < |es| && es[j].Reconcile? && g in WeightMap(env.weights)
    ensures Run(env, k, s, es[..j])
    ensures Count(Deleted(After(env, k, s, es[..j]), es[j].share, env.ControllerIndex()), env.ControllerIndex(), g)
              <= Abs(env.Remainder()) + k - 1
  {
    RunPrefix(env, k, s, es, j);
    var t := After(env, k, s, es[..j]);
    ChoiceRobustSafety(env, k, s, es[..j], g);
    KeptCount(t, es[j].share, env.ControllerIndex(), g);
    ShareBetween(env, es[j].share, g);
  }

  /* ---------- one fixed share map ---------- */

  /** Overshoot under stale counts: when every admission of a run uses the same share map `m`, the
      bound and in-flight pods of a group never exceed its share by more than k - 1, a group whose
      share is not positive takes none, and one reconcile with `m` brings every count back to its
      share. */
  lemma BoundedOvershoot(env: Env, k: nat, m: map<string, int>, s: seq<Pod>, es: seq<Event>, g: string)
    requires env.Valid() && 1 <= k && env.Share(m) && Run(env, k, s, es)
    requires InFlight(s) == 0
    requires forall h :: h in WeightMap(env.weights) ==> Count(s, env.SchedulerIndex(), h) <= Max(0, Lookup(m, h))
    requires forall e :: e in es && e.Admit? ==> e.share == m
    requires g in WeightMap(env.weights)
    ensures var t := After(env, k, s, es);
      && Count(t, env.SchedulerIndex(), g) <= Load(env, t, g) <= Limit(k, Lookup(m, g))
      && Count(Kept(t, m, env.ControllerIndex()), env.SchedulerIndex(), g) <= Max(0, Lookup(m, g))
  {
    forall h | h in WeightMap(env.weights) ensures Load(env, s, h) <= Limit(k, Lookup(m, h)) {
      LoadBounds(env, s, h);
    }
    RunSafe(env, k, m, s, es);
    var t := After(env, k, s, es);
    LoadBounds(env, t, g);
    KeptCount(t, m, env.ControllerIndex(), g);
    SameCount(env, Kept(t, m, env.ControllerIndex()), g);
  }

  /** Admissions with the share map `m`, and bindings. */
  ghost predicate Placing(m: map<string, int>, es: seq<Event>) {
    forall e :: e in es ==> (e.Admit? && e.share == m) || e.Bind?
  }

  /** Admits `j` pending pods to one node of a group below its share, on the same stale count. */
  lemma {:induction false} AdmitMany(env: Env, k: nat, m: map<string, int>, s: seq<Pod>, x: Node, j: nat)
    returns (es: seq<Event>)
    requires env.Valid() && env.Share(m) && x.name in env.SchedulerIndex()
    requires var g := env.SchedulerIndex()[x.name]; Count(s, env.SchedulerIndex(), g) < Lookup(m, g)
    requires j <= CountIf(s, Pending()) && InFlight(s) + j <= k
    ensures Run(env, k, s, es) && forall e :: e in es ==> e.Admit? && e.share == m
    ensures var t, g := After(env, k, s, es), env.SchedulerIndex()[x.name];
      && Load(env, t, g) == Load(env, s, g) + j && InFlight(t) == InFlight(s) + j
    decreases j
  {
    if j == 0 {
      es := [];
    } else {
      var g := env.SchedulerIndex()[x.name];
      var i := CountIfWitness(s, Pending());
      var e := Admit(i, [x], x, m);
      KeepMembers([x], Admissible(s, m, env.SchedulerIndex()), x);
      AdmitEffect(env, k, s, e, g);
      var p := s[i].(assumed := x.name);
      SchedulerIndexSound(env, x.name);
      CountIfUpdate(s, i, p, Pending());
      CountIfUpdate(s, i, p, OnGroup(env.SchedulerIndex(), g));
      RunOne(env, k, s, e);
      var rest := AdmitMany(env, k, m, Apply(env, k, s, e), x, j - 1);
      RunConcat(env, k, s, [e], rest);
      es := [e] + rest;
    }
  }

  /** Binds every in-flight pod. */
  lemma {:induction false} BindAll(env: Env, k: nat, s: seq<Pod>, g: string) returns (es: seq<Event>)
    requires env.Valid()
    ensures Run(env, k, s, es) && forall e :: e in es ==> e.Bind?
    ensures InFlight(After(env, k, s, es)) == 0 && Load(env, After(env, k, s, es), g) == Load(env, s, g)
    decreases InFlight(s)
  {
    if InFlight(s) == 0 {
      es := [];
    } else {
      var i := CountIfWitness(s, Assumed());
      var p := s[i].(nodeName := s[i].assumed, assumed := "");
      CountIfUpdate(s, i, p, Assumed());
      CountIfUpdate(s, i, p, LoadsOn(env.SchedulerIndex(), g));
      RunOne(env, k, s, Bind(i));
      var rest := BindAll(env, k, Apply(env, k, s, Bind(i)), g);
      RunConcat(env, k, s, [Bind(i)], rest);
      es := [Bind(i)] + rest;
    }
  }

  /** The overshoot bound is attained: from a group one below its share d, with k pods waiting, a
      run ends with d + k - 1 pods bound in it. */
  lemma OvershootAttained(env: Env, k: nat, m: map<string, int>, s: seq<Pod>, x: Node) returns (es: seq<Event>)
    requires env.Valid() && 1 <= k && env.Share(m) && x.name in env.SchedulerIndex()
    requires var g := env.SchedulerIndex()[x.name];
      1 <= Lookup(m, g) && Count(s, env.SchedulerIndex(), g) == Lookup(m, g) - 1
    requires InFlight(s) == 0 && k <= CountIf(s, Pending())
    ensures Run(env, k, s, es) && Placing(m, es) && InFlight(After(env, k, s, es)) == 0
    ensures var g := env.SchedulerIndex()[x.name];
      Count(After(env, k, s, es), env.SchedulerIndex(), g) == Lookup(m, g) + k - 1
  {
    var g := env.SchedulerIndex()[x.name];
    LoadBounds(env, s, g);
    var admits := AdmitMany(env, k, m, s, x, k);
    var t := After(env, k, s, admits);
    var binds := BindAll(env, k, t, g);
    RunConcat(env, k, s, admits, binds);
    es := admits + binds;
    LoadBounds(env, After(env, k, s, es), g);
  }

  /* ---------- admission agrees with correction ---------- */

  /** With one share map, binding a pod to a node the filter returned never makes the controller
      delete: from a state in which it would delete nothing, it still deletes nothing. */
  lemma AdmissionAgreesWithCorrection(env: Env, m: map<string, int>, s: seq<Pod>, i: nat,
                                      candidates: seq<Node>, x: Node)
    requires env.Valid() && env.Share(m) && i < |s| && s[i].nodeName == ""
    requires Deleted(s, m, env.ControllerIndex()) == []
    requires x in Keep(candidates, Admissible(s, m, env.SchedulerIndex()))
    ensures Deleted(s[i := s[i].(nodeName := x.name)], m, env.ControllerIndex()) == []
  {
    var index := env.ControllerIndex();
    var t := s[i := s[i].(nodeName := x.name)];
    NothingDeletedExactly(s, m, index);
    KeepMembers(candidates, Admissible(s, m, env.SchedulerIndex()), x);
    SchedulerIndexSound(env, x.name);
    IndexRelation(env);
    SameCount(env, s, env.SchedulerIndex()[x.name]);
    forall g ensures Count(t, index, g) <= Max(0, Lookup(m, g)) {
      CountIfUpdate(s, i, t[i], OnGroup(index, g));
    }
    NothingDeletedExactly(t, m, index);
  }
}
