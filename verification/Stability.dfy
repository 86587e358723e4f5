/** Whether a placement that meets its shares is left alone by later corrections. */
module Stability {
  import opened Common
  import opened Api
  import opened Apportionment
  import opened Shares
  import opened NodeIndex
  import opened Placement
  import opened Correction
  import opened Machine
  import opened Safety
  import opened Convergence

  lemma {:induction false} CountIfAll(s: seq<Pod>, p: Pod -> bool, x: Pod)
    requires CountIf(s, p) == |s| && x in s
    ensures p(x)
  {
    var n := |s| - 1;
    CountIfAtMost(s[..n], p);
    if x != s[n] {
      assert s == s[..n] + [s[n]];
      CountIfAll(s[..n], p, x);
    }
  }

  /** In a settled cluster of R pods every pod is bound to a node of a target group. */
  lemma SettledPlacement(env: Env, m: map<string, int>, s: seq<Pod>, p: Pod)
    requires env.Valid() && env.Share(m) && |s| == env.replicas && Settled(env, m, s) && p in s
    ensures p.nodeName != "" && p.nodeName in env.SchedulerIndex() && p.nodeName in env.ControllerIndex()
  {
    ShareTotal(env, m);
    TargetSum(env, s);
    SumEq(m.Keys, CountOf(s, env.SchedulerIndex()), Of(m));
    CountIfAll(s, Grouped(env.SchedulerIndex()), p);
    IndexRelation(env);
  }

  /** In a settled cluster of R pods no pod runs outside the target groups. */
  lemma SettledOnTargets(env: Env, m: map<string, int>, s: seq<Pod>, g: string)
    requires env.Valid() && env.Share(m) && |s| == env.replicas && Settled(env, m, s)
    ensures Count(s, env.ControllerIndex(), g) == Lookup(m, g)
  {
    ShareTotal(env, m);
    if g in WeightMap(env.weights) {
      SameCount(env, s, g);
    } else if Count(s, env.ControllerIndex(), g) > 0 {
      var i := CountIfWitness(s, OnGroup(env.ControllerIndex(), g));
      SettledPlacement(env, m, s, s[i]);
      SchedulerIndexSound(env, s[i].nodeName);
      IndexRelation(env);
    }
  }

  /** A recipient other than `a`, if there is more than one group. */
  lemma AnotherKey(m: map<string, int>, a: string) returns (b: string)
    requires a in m && |m| > 1
    ensures b in m && b != a
  {
    assert |m.Keys| > 1;
    assert m.Keys - {a} != {} by {
      assert |m.Keys - {a}| == |m.Keys| - 1;
    }
    b :| b in m.Keys - {a};
  }

  /** If one group holds at most R of a total above R, another group holds some. */
  lemma AnotherPositive(m: map<string, int>, a: string, r: int) returns (b: string)
    requires a in m && m[a] <= r < Total(m)
    ensures b in m && b != a && 0 < m[b]
  {
    SumSplit(m.Keys, Of(m), a);
    if forall b :: b in m.Keys - {a} ==> Of(m)(b) <= 0 {
      SumLe(m.Keys - {a}, Of(m), g => 0);
      SumBound(m.Keys - {a}, g => 0, 0);
      assert false;
    }
    b :| b in m.Keys - {a} && Of(m)(b) > 0;
  }

  /** With a remainder to hand out and two groups to choose from, some call gives some group less
      than it was given before, down to what the correction can see. */
  lemma AnotherRecipient(env: Env, m: map<string, int>) returns (m': map<string, int>, loser: string)
    requires env.Valid() && env.Share(m) && env.Remainder() != 0 && |env.weights| > 1
    ensures env.Share(m') && Lookup(m, loser) > Max(0, Lookup(m', loser))
  {
    var base, left := env.BaseShare(), env.Remainder();
    var a := FindRecipient(env.weights, env.replicas, env.rnd, m);
    SimpleFacts(env.weights, env.replicas, env.rnd);
    ShareBetween(env, m, a);
    var b;
    if left > 0 {
      b := AnotherKey(base, a);
      loser := a;
    } else {
      b := AnotherPositive(base, a, env.replicas);
      loser := b;
    }
    m' := ShareFor(env.weights, env.replicas, env.rnd, b);
    RecipientIsShare(env.weights, env.replicas, env.rnd, b);
  }

  /** Such a call makes the controller delete pods of a settled cluster. */
  lemma AnotherRecipientDeletes(env: Env, m: map<string, int>, s: seq<Pod>) returns (m': map<string, int>)
    requires env.Valid() && env.Share(m) && |s| == env.replicas && Settled(env, m, s)
    requires env.Remainder() != 0 && |env.weights| > 1
    ensures env.Share(m') && Deleted(s, m', env.ControllerIndex()) != []
  {
    var loser;
    m', loser := AnotherRecipient(env, m);
    SettledOnTargets(env, m, s, loser);
    NothingDeletedExactly(s, m', env.ControllerIndex());
  }

  /** With no remainder, or one group, every call returns the same share map. */
  lemma OneShareMap(env: Env, m: map<string, int>, m': map<string, int>)
    requires env.Valid() && env.Share(m) && env.Share(m')
    requires env.Remainder() == 0 || |env.weights| == 1
    ensures m == m'
  {
    var a := FindRecipient(env.weights, env.replicas, env.rnd, m);
    var b := FindRecipient(env.weights, env.replicas, env.rnd, m');
    SimpleFacts(env.weights, env.replicas, env.rnd);
    if |env.weights| == 1 { SingleKey(env.BaseShare(), a, b); }
  }

  lemma SingleKey(m: map<string, int>, a: string, b: string)
    requires |m| == 1 && a in m && b in m
    ensures a == b
  {
    assert |m.Keys - {a}| == 0;
  }

  /** A cluster that meets its shares exactly is left alone by every later correction exactly when
      rounding leaves no remainder or there is only one group to give it to. Otherwise a correction
      whose call picks another recipient deletes running pods, although nothing changed. */
  lemma StableExactly(env: Env, m: map<string, int>, s: seq<Pod>)
    requires env.Valid() && env.Share(m) && |s| == env.replicas && Settled(env, m, s)
    ensures (forall m' :: env.Share(m') ==> Deleted(s, m', env.ControllerIndex()) == [])
        <==> (env.Remainder() == 0 || |env.weights| == 1)
  {
    if env.Remainder() == 0 || |env.weights| == 1 {
      forall m' | env.Share(m') ensures Deleted(s, m', env.ControllerIndex()) == [] {
        OneShareMap(env, m, m');
        forall g ensures Count(s, env.ControllerIndex(), g) <= Max(0, Lookup(m, g)) {
          SettledOnTargets(env, m, s, g);
        }
        NothingDeletedExactly(s, m', env.ControllerIndex());
      }
    } else {
      var m' := AnotherRecipientDeletes(env, m, s);
    }
  }

  /* ---------- the smallest unstable cluster ---------- */

  const TWO_NODES := [Node("n1", map["zone" := "a"]), Node("n2", map["zone" := "b"])]
  const TWO_GROUPS := [NodeGroup("default", "a", Labels(map["zone" := "a"])),
                       NodeGroup("default", "b", Labels(map["zone" := "b"]))]
  const ONE_TO_ONE := [Weight(["a"], 1), Weight(["b"], 1)]

  function TwoGroups(replicas: int): Env {
    Env(TWO_NODES, TWO_GROUPS, ONE_TO_ONE, replicas, HalfUp)
  }

  lemma OneToOneFacts()
    ensures SumWeights(ONE_TO_ONE) == 2 && TargetNames(ONE_TO_ONE) == ["a", "b"]
    ensures WeightMap(ONE_TO_ONE) == map["a" := 1, "b" := 1]
  {
    var first := [Weight(["a"], 1)];
    assert ONE_TO_ONE[..1] == first && first[..0] == [];
    assert SumWeights(first) == 1 && TargetNames(first) == ["a"] && WeightMap(first) == map["a" := 1];
  }

  lemma TwoGroupsIndex(group: NodeGroup, n: string)
    requires group in TWO_GROUPS
    ensures InGroup(TWO_NODES, group, n) <==> n == if group.name == "a" then "n1" else "n2"
  {
    assert TWO_NODES[0] in TWO_NODES && TWO_NODES[1] in TWO_NODES;
    assert "zone" in group.matchLabels.pairs;
    if InGroup(TWO_NODES, group, n) {
      var x :| x in TWO_NODES && x.name == n && group.matchLabels.Matches(x.labels);
      assert x.labels["zone"] == group.matchLabels.pairs["zone"];
    }
  }

  lemma TwoGroupsValid(replicas: int)
    requires 0 <= replicas < TWO_31
    ensures TwoGroups(replicas).Valid()
  {
    OneToOneFacts();
    HalfUpIsNearest(ONE_TO_ONE, replicas);
    assert FindGroup(TWO_GROUPS, "a") == Some(TWO_GROUPS[0]);
    assert TWO_GROUPS[1..][0] == TWO_GROUPS[1];
    assert FindGroup(TWO_GROUPS, "b") == Some(TWO_GROUPS[1]);
    assert Resolves(TWO_GROUPS, TargetNames(ONE_TO_ONE));
    forall n, g, h | g in TWO_GROUPS && h in TWO_GROUPS && InGroup(TWO_NODES, g, n) && InGroup(TWO_NODES, h, n)
      ensures g.name == h.name
    {
      TwoGroupsIndex(g, n);
      TwoGroupsIndex(h, n);
    }
  }

  lemma ShareOfA() returns (m: map<string, int>)
    ensures TwoGroups(1).Valid() && TwoGroups(1).Share(m) && TwoGroups(1).Remainder() == -1
    ensures m == map["a" := 1, "b" := 0]
  {
    TwoGroupsValid(1);
    OneToOneFacts();
    EqualWeights(ONE_TO_ONE, 1, 2, 1, HalfUp);
    SimpleBase(ONE_TO_ONE, 2, 1, HalfUp);
    assert HalfUp(1, 2, 1) == 1;
    RecipientIsShare(ONE_TO_ONE, 1, HalfUp, "b");
    m := ShareFor(ONE_TO_ONE, 1, HalfUp, "b");
  }

  /** Two groups of equal weight, one replica, and its pod running where one call's share map wants
      it: another call's share map makes the controller delete the pod. */
  lemma ConvergedPodIsDeleted() returns (m: map<string, int>, m': map<string, int>)
    ensures TwoGroups(1).Valid() && TwoGroups(1).Share(m) && TwoGroups(1).Share(m')
    ensures var s := [Pod(Key("default", "p"), map[], "n1", "")];
      Settled(TwoGroups(1), m, s) && Deleted(s, m', TwoGroups(1).ControllerIndex()) == s
  {
    var env := TwoGroups(1);
    var s := [Pod(Key("default", "p"), map[], "n1", "")];
    m := ShareOfA();
    OneToOneFacts();
    FirstNodeIsInA(env);
    OnePod(s, env.SchedulerIndex(), "a");
    OnePod(s, env.SchedulerIndex(), "b");
    assert Settled(env, m, s);
    m' := AnotherRecipientDeletes(env, m, s);
    OneDeleted(s, m', env.ControllerIndex());
  }

  lemma FirstNodeIsInA(env: Env)
    requires env == TwoGroups(1) && env.Valid()
    ensures "n1" in env.SchedulerIndex() && env.SchedulerIndex()["n1"] == "a"
  {
    IndexRelation(env);
    OneToOneFacts();
    var a := TWO_GROUPS[0];
    assert a in TWO_GROUPS;
    TwoGroupsIndex(a, "n1");
    LastGroupComplete(TWO_NODES, TWO_GROUPS, "n1", a);
    var g := LastGroupSound(TWO_NODES, TWO_GROUPS, "n1");
    TwoGroupsIndex(g, "n1");
    LastGroupIsInIndex(TWO_NODES, TWO_GROUPS, "n1");
  }

  lemma OnePod(s: seq<Pod>, index: Index, g: string)
    requires |s| == 1
    ensures Count(s, index, g) == if GroupOf(s[0], index) == Some(g) then 1 else 0
    ensures CountIf(s, Unscheduled()) == if s[0].nodeName == "" then 1 else 0
  {
    CountIfAt(s, 0, OnGroup(index, g));
    CountIfAt(s, 0, Unscheduled());
    assert s[..0] == [] && s[1..] == [];
  }

  lemma OneDeleted(s: seq<Pod>, m: map<string, int>, index: Index)
    requires |s| == 1 && Deleted(s, m, index) != []
    ensures Deleted(s, m, index) == s
  {
    assert s[..|s| - 1] == [];
    assert s == [s[0]];
  }
}
