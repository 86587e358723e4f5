/** The correction step: one pass over the pods deletes those beyond their group's share. */
module Correction {
  import opened Common
  import opened Api
  import opened Apportionment
  import opened Shares
  import opened Placement

  /** The pod at `i` is one more than its group's share allows, counting from the front. */
  ghost predicate ExcessAt(pods: seq<Pod>, i: nat, desired: map<string, int>, index: Index)
    requires i < |pods|
  {
    var g := GroupOf(pods[i], index);
    g.Some? && Count(pods[..i], index, g.value) + 1 > Lookup(desired, g.value)
  }

  ghost function Deleted(pods: seq<Pod>, desired: map<string, int>, index: Index): seq<Pod> {
    if pods == [] then [] else
      var n := |pods| - 1;
      Deleted(pods[..n], desired, index) + (if ExcessAt(pods, n, desired, index) then [pods[n]] else [])
  }

  ghost function Kept(pods: seq<Pod>, desired: map<string, int>, index: Index): seq<Pod> {
    if pods == [] then [] else
      var n := |pods| - 1;
      Kept(pods[..n], desired, index) + (if ExcessAt(pods, n, desired, index) then [] else [pods[n]])
  }

  /** The same test on an int32 counter. */
  ghost predicate ExcessInt32(pods: seq<Pod>, i: nat, desired: map<string, int>, index: Index)
    requires i < |pods|
  {
    var g := GroupOf(pods[i], index);
    g.Some? && Counter(Count(pods[..i], index, g.value) + 1) > Lookup(desired, g.value)
  }

  /** What the loop deletes, counting in int32. */
  ghost function DeletedInt32(pods: seq<Pod>, desired: map<string, int>, index: Index): seq<Pod> {
    if pods == [] then [] else
      var n := |pods| - 1;
      DeletedInt32(pods[..n], desired, index) + (if ExcessInt32(pods, n, desired, index) then [pods[n]] else [])
  }

  lemma DeletedStep(pods: seq<Pod>, i: nat, desired: map<string, int>, index: Index)
    requires i < |pods|
    ensures DeletedInt32(pods[..i + 1], desired, index) ==
              DeletedInt32(pods[..i], desired, index) + (if ExcessInt32(pods, i, desired, index) then [pods[i]] else [])
  {
    assert pods[..i + 1][..i] == pods[..i];
  }

  method GetPodsNeedToDelete(pods: seq<Pod>, desiredPods: map<string, int>, nodesInNodeGroups: Index)
    returns (deletePod: seq<Pod>)
    ensures deletePod == DeletedInt32(pods, desiredPods, nodesInNodeGroups)
  {
    deletePod := [];
    var count: map<string, int> := map[];
    for i := 0 to |pods|
      invariant IsCount(pods[..i], nodesInNodeGroups, count)
      invariant deletePod == DeletedInt32(pods[..i], desiredPods, nodesInNodeGroups)
    {
      var pod := pods[i];
      CountOne(pods, i, nodesInNodeGroups, count);
      DeletedStep(pods, i, desiredPods, nodesInNodeGroups);
      if pod.nodeName == "" {
        continue;
      }
      if pod.nodeName in nodesInNodeGroups {
        var groupname := nodesInNodeGroups[pod.nodeName];
        count := count[groupname := Increment(Lookup(count, groupname))];
        if count[groupname] > Lookup(desiredPods, groupname) {
          deletePod := deletePod + [pod];
        }
      }
    }
    assert pods[..|pods|] == pods;
  }

  /* ---------- counting in int32 ---------- */

  lemma {:induction false} CountPrefix(pods: seq<Pod>, i: nat, index: Index, g: string)
    requires i <= |pods|
    ensures Count(pods[..i], index, g) <= Count(pods, index, g)
  {
    assert pods == pods[..i] + pods[i..];
    CountIfConcat(pods[..i], pods[i..], OnGroup(index, g));
  }

  lemma {:induction false} SameDeletion(pods: seq<Pod>, desired: map<string, int>, index: Index)
    requires CountsFit(pods, index)
    ensures DeletedInt32(pods, desired, index) == Deleted(pods, desired, index)
  {
    if pods != [] {
      var n := |pods| - 1;
      forall g ensures Count(pods[..n], index, g) < TWO_31 { CountPrefix(pods, n, index, g); }
      SameDeletion(pods[..n], desired, index);
      var g := GroupOf(pods[n], index);
      if g.Some? { CounterBounds(Count(pods, index, g.value)); }
    }
  }

  /** The int32 loop deletes no pod more, and one less if a counter has wrapped at that pod. */
  lemma {:induction false} ShorterDeletion(pods: seq<Pod>, desired: map<string, int>, index: Index)
    ensures |DeletedInt32(pods, desired, index)| <= |Deleted(pods, desired, index)|
    ensures (exists i :: 0 <= i < |pods| && ExcessAt(pods, i, desired, index) && !ExcessInt32(pods, i, desired, index))
              ==> |DeletedInt32(pods, desired, index)| < |Deleted(pods, desired, index)|
  {
    if pods != [] {
      var n := |pods| - 1;
      ShorterDeletion(pods[..n], desired, index);
      var g := GroupOf(pods[n], index);
      if g.Some? { CounterBounds(Count(pods[..n], index, g.value) + 1); }
      if i :| 0 <= i < |pods| && ExcessAt(pods, i, desired, index) && !ExcessInt32(pods, i, desired, index) {
        if i < n {
          assert pods[..n][..i] == pods[..i];
          assert ExcessAt(pods[..n], i, desired, index) && !ExcessInt32(pods[..n], i, desired, index);
        }
      }
    }
  }

  /** The pod at which a group's count reaches `n`. */
  lemma {:induction false} NthOfGroup(pods: seq<Pod>, index: Index, g: string, n: nat) returns (i: nat)
    requires 0 < n <= Count(pods, index, g)
    ensures i < |pods| && GroupOf(pods[i], index) == Some(g) && Count(pods[..i], index, g) == n - 1
  {
    var last := |pods| - 1;
    if Count(pods[..last], index, g) >= n {
      i := NthOfGroup(pods[..last], index, g, n);
      assert pods[..last][..i] == pods[..i];
    } else {
      i := last;
    }
  }

  /** The int32 loop deletes what unbounded counters would delete if and only if every group runs
      fewer than 2^31 pods. */
  lemma DeletedInt32Exactly(pods: seq<Pod>, desired: map<string, int>, index: Index)
    requires forall g :: -TWO_31 <= Lookup(desired, g) < TWO_31
    ensures DeletedInt32(pods, desired, index) == Deleted(pods, desired, index) <==> CountsFit(pods, index)
  {
    if CountsFit(pods, index) {
      SameDeletion(pods, desired, index);
    } else {
      var g :| Count(pods, index, g) >= TWO_31;
      var i := NthOfGroup(pods, index, g, TWO_31);
      CounterBounds(TWO_31);
      assert ExcessAt(pods, i, desired, index) && !ExcessInt32(pods, i, desired, index);
      ShorterDeletion(pods, desired, index);
    }
  }

  /* ---------- what is deleted and what is kept ---------- */

  /** The pods of one group (None: unscheduled or on no grouped node), in list order. */
  ghost function OfGroup(pods: seq<Pod>, index: Index, o: Option<string>): seq<Pod> {
    if pods == [] then [] else
      var n := |pods| - 1;
      OfGroup(pods[..n], index, o) + (if GroupOf(pods[n], index) == o then [pods[n]] else [])
  }

  lemma {:induction false} OfGroupCount(pods: seq<Pod>, index: Index, g: string)
    ensures |OfGroup(pods, index, Some(g))| == Count(pods, index, g)
  {
    if pods != [] { OfGroupCount(pods[..|pods| - 1], index, g); }
  }

  lemma OfGroupAppend(pods: seq<Pod>, p: Pod, index: Index, o: Option<string>)
    ensures OfGroup(pods + [p], index, o) == OfGroup(pods, index, o) + (if GroupOf(p, index) == o then [p] else [])
  {
    assert (pods + [p])[..|pods|] == pods;
  }

  /** How many pods of a group survive. */
  function Quota(c: nat, d: int): nat { Min(c, Max(0, d)) }

  /** The group's kept and deleted pods are the two sides of the cut at min(c, max(0, d)). */
  ghost predicate CutAt(all: seq<Pod>, kept: seq<Pod>, gone: seq<Pod>, d: int) {
    kept == all[..Quota(|all|, d)] && gone == all[Quota(|all|, d)..]
  }

  /** One more pod of a group lands behind the cut if the group is full, before it otherwise. */
  lemma CutExtend(all: seq<Pod>, kept: seq<Pod>, gone: seq<Pod>, p: Pod, d: int)
    requires CutAt(all, kept, gone, d)
    ensures if |all| + 1 > d then CutAt(all + [p], kept, gone + [p], d) else CutAt(all + [p], kept + [p], gone, d)
  {
  }

  /** In each group the first min(c, max(0, d)) pods in list order are kept and all later ones
      deleted. */
  lemma {:induction false} DeletionExact(pods: seq<Pod>, desired: map<string, int>, index: Index, g: string)
    ensures CutAt(OfGroup(pods, index, Some(g)), OfGroup(Kept(pods, desired, index), index, Some(g)),
                  OfGroup(Deleted(pods, desired, index), index, Some(g)), Lookup(desired, g))
  {
    if pods != [] {
      var n := |pods| - 1;
      DeletionExact(pods[..n], desired, index, g);
      DeletionStep(pods[..n], pods[n], desired, index, g);
      assert pods == pods[..n] + [pods[n]];
    }
  }

  lemma DeletionStep(init: seq<Pod>, p: Pod, desired: map<string, int>, index: Index, g: string)
    requires CutAt(OfGroup(init, index, Some(g)), OfGroup(Kept(init, desired, index), index, Some(g)),
                   OfGroup(Deleted(init, desired, index), index, Some(g)), Lookup(desired, g))
    ensures CutAt(OfGroup(init + [p], index, Some(g)), OfGroup(Kept(init + [p], desired, index), index, Some(g)),
                  OfGroup(Deleted(init + [p], desired, index), index, Some(g)), Lookup(desired, g))
  {
    var pods := init + [p];
    assert pods[..|init|] == init;
    var all, kept, gone := OfGroup(init, index, Some(g)), OfGroup(Kept(init, desired, index), index, Some(g)),
                           OfGroup(Deleted(init, desired, index), index, Some(g));
    OfGroupAppend(init, p, index, Some(g));
    OfGroupAppend(Deleted(init, desired, index), p, index, Some(g));
    OfGroupAppend(Kept(init, desired, index), p, index, Some(g));
    DeletedOrKept(pods, desired, index);
    if GroupOf(p, index) == Some(g) {
      OfGroupCount(init, index, g);
      CutExtend(all, kept, gone, p, Lookup(desired, g));
    } else {
      assert OfGroup(pods, index, Some(g)) == all;
    }
  }

  lemma DeletedOrKept(pods: seq<Pod>, desired: map<string, int>, index: Index)
    requires pods != []
    ensures var n := |pods| - 1;
      if ExcessAt(pods, n, desired, index)
      then Deleted(pods, desired, index) == Deleted(pods[..n], desired, index) + [pods[n]]
           && Kept(pods, desired, index) == Kept(pods[..n], desired, index)
      else Deleted(pods, desired, index) == Deleted(pods[..n], desired, index)
           && Kept(pods, desired, index) == Kept(pods[..n], desired, index) + [pods[n]]
  {
  }

  /** Pods with no node or on an ungrouped node are all kept, in order. */
  lemma {:induction false} UngroupedKept(pods: seq<Pod>, desired: map<string, int>, index: Index)
    ensures OfGroup(Kept(pods, desired, index), index, None) == OfGroup(pods, index, None)
    ensures OfGroup(Deleted(pods, desired, index), index, None) == []
  {
    if pods != [] {
      var n := |pods| - 1;
      UngroupedKept(pods[..n], desired, index);
      DeletedOrKept(pods, desired, index);
      OfGroupAppend(Deleted(pods[..n], desired, index), pods[n], index, None);
      OfGroupAppend(Kept(pods[..n], desired, index), pods[n], index, None);
    }
  }

  /** After the correction a group runs min(c, max(0, d)) pods. */
  lemma KeptCount(pods: seq<Pod>, desired: map<string, int>, index: Index, g: string)
    ensures Count(Kept(pods, desired, index), index, g) == Quota(Count(pods, index, g), Lookup(desired, g))
    ensures Count(Deleted(pods, desired, index), index, g)
              == Count(pods, index, g) - Quota(Count(pods, index, g), Lookup(desired, g))
  {
    DeletionExact(pods, desired, index, g);
    OfGroupCount(pods, index, g);
    OfGroupCount(Kept(pods, desired, index), index, g);
    OfGroupCount(Deleted(pods, desired, index), index, g);
  }

  /** `a` is `b` with some elements left out. */
  ghost predicate Subsequence(a: seq<Pod>, b: seq<Pod>) {
    a == [] || (b != [] &&
      (Subsequence(a, b[..|b| - 1])
       || (a[|a| - 1] == b[|b| - 1] && Subsequence(a[..|a| - 1], b[..|b| - 1]))))
  }

  lemma SubsequenceStep(a: seq<Pod>, b: seq<Pod>, p: Pod)
    requires Subsequence(a, b)
    ensures Subsequence(a, b + [p]) && Subsequence(a + [p], b + [p])
  {
    assert (b + [p])[..|b|] == b && (a + [p])[..|a|] == a;
  }

  /** Every listed pod is in exactly one of the two parts, as often as it is listed. */
  ghost predicate Splits(all: seq<Pod>, kept: seq<Pod>, gone: seq<Pod>) {
    multiset(all) == multiset(kept) + multiset(gone)
  }

  /** Every listed pod is either kept or deleted, never both. */
  lemma {:induction false} Partition(pods: seq<Pod>, desired: map<string, int>, index: Index)
    ensures Splits(pods, Kept(pods, desired, index), Deleted(pods, desired, index))
  {
    if pods != [] {
      var n := |pods| - 1;
      var init, p := pods[..n], pods[n];
      var kept, gone := Kept(init, desired, index), Deleted(init, desired, index);
      Partition(init, desired, index);
      OneMore(init, kept, gone, p);
      SamePods(init + [p], pods);
      if ExcessAt(pods, n, desired, index) {
        SameSplit(pods, kept, gone + [p], Kept(pods, desired, index), Deleted(pods, desired, index));
      } else {
        SameSplit(pods, kept + [p], gone, Kept(pods, desired, index), Deleted(pods, desired, index));
      }
    }
  }

  lemma SamePods(a: seq<Pod>, b: seq<Pod>)
    requires |a| == |b| && forall i :: 0 <= i < |a| ==> a[i] == b[i]
    ensures a == b
  {
  }

  lemma SameSplit(all: seq<Pod>, kept: seq<Pod>, gone: seq<Pod>, kept': seq<Pod>, gone': seq<Pod>)
    requires Splits(all, kept, gone) && |kept| == |kept'| && |gone| == |gone'|
    requires forall i :: 0 <= i < |kept| ==> kept[i] == kept'[i]
    requires forall i :: 0 <= i < |gone| ==> gone[i] == gone'[i]
    ensures Splits(all, kept', gone')
  {
    SamePods(kept, kept');
    SamePods(gone, gone');
  }

  lemma OneMore(all: seq<Pod>, kept: seq<Pod>, gone: seq<Pod>, p: Pod)
    requires Splits(all, kept, gone)
    ensures Splits(all + [p], kept + [p], gone) && Splits(all + [p], kept, gone + [p])
  {
  }

  /** Both halves keep the list order. */
  lemma {:induction false} InListOrder(pods: seq<Pod>, desired: map<string, int>, index: Index)
    ensures Subsequence(Kept(pods, desired, index), pods)
    ensures Subsequence(Deleted(pods, desired, index), pods)
  {
    if pods != [] {
      var n := |pods| - 1;
      InListOrder(pods[..n], desired, index);
      DeletedOrKept(pods, desired, index);
      assert pods == pods[..n] + [pods[n]];
      SubsequenceStep(Kept(pods[..n], desired, index), pods[..n], pods[n]);
      SubsequenceStep(Deleted(pods[..n], desired, index), pods[..n], pods[n]);
    }
  }

  lemma {:induction false} DeletedAreGrouped(pods: seq<Pod>, desired: map<string, int>, index: Index)
    ensures forall p :: p in Deleted(pods, desired, index) ==> GroupOf(p, index).Some?
  {
    if pods != [] { DeletedAreGrouped(pods[..|pods| - 1], desired, index); }
  }

  /** Nothing is deleted exactly when every group is within its share. */
  lemma {:induction false} NothingDeletedExactly(pods: seq<Pod>, desired: map<string, int>, index: Index)
    ensures Deleted(pods, desired, index) == []
        <==> forall g :: Count(pods, index, g) <= Max(0, Lookup(desired, g))
  {
    var gone := Deleted(pods, desired, index);
    if gone == [] {
      forall g ensures Count(pods, index, g) <= Max(0, Lookup(desired, g)) {
        KeptCount(pods, desired, index, g);
        assert Count([], index, g) == 0;
      }
    } else {
      DeletedAreGrouped(pods, desired, index);
      var p := gone[|gone| - 1];
      var g := GroupOf(p, index).value;
      KeptCount(pods, desired, index, g);
      assert Count(gone, index, g) > 0;
    }
  }

  /** The correction is idempotent: with the same shares it deletes none of the survivors. */
  lemma Idempotent(pods: seq<Pod>, desired: map<string, int>, index: Index)
    ensures Deleted(Kept(pods, desired, index), desired, index) == []
  {
    forall g ensures Count(Kept(pods, desired, index), index, g) <= Max(0, Lookup(desired, g)) {
      KeptCount(pods, desired, index, g);
    }
    NothingDeletedExactly(Kept(pods, desired, index), desired, index);
  }

  /** Raising shares only shrinks the deletion. */
  lemma {:induction false} Monotone(pods: seq<Pod>, low: map<string, int>, high: map<string, int>, index: Index)
    requires forall g :: Lookup(low, g) <= Lookup(high, g)
    ensures forall i :: 0 <= i < |pods| && ExcessAt(pods, i, high, index) ==> ExcessAt(pods, i, low, index)
    ensures Subsequence(Deleted(pods, high, index), Deleted(pods, low, index))
  {
    if pods != [] {
      var n := |pods| - 1;
      Monotone(pods[..n], low, high, index);
      DeletedOrKept(pods, low, index);
      DeletedOrKept(pods, high, index);
      SubsequenceStep(Deleted(pods[..n], high, index), Deleted(pods[..n], low, index), pods[n]);
    }
  }

  /* ---------- pods left on grouped nodes ---------- */

  function Grouped(index: Index): Pod -> bool {
    p => GroupOf(p, index).Some?
  }

  ghost function CountOf(pods: seq<Pod>, index: Index): string -> int {
    g => Count(pods, index, g)
  }

  /** Pods on grouped nodes are counted once each by the per-group counts. */
  lemma {:induction false} GroupedSum(pods: seq<Pod>, index: Index, ks: set<string>)
    requires forall p :: p in pods && GroupOf(p, index).Some? ==> GroupOf(p, index).value in ks
    ensures CountIf(pods, Grouped(index)) == Sum(ks, CountOf(pods, index))
  {
    if pods == [] {
      SumBound(ks, CountOf(pods, index), 0);
    } else {
      var n := |pods| - 1;
      var init, p := pods[..n], pods[n];
      GroupedSum(init, index, ks);
      var o := GroupOf(p, index);
      if o.Some? {
        SumSplit(ks, CountOf(pods, index), o.value);
        SumSplit(ks, CountOf(init, index), o.value);
        SumEq(ks - {o.value}, CountOf(pods, index), CountOf(init, index));
      } else {
        SumEq(ks, CountOf(pods, index), CountOf(init, index));
      }
    }
  }

  lemma {:induction false} CountPositive(pods: seq<Pod>, index: Index, p: Pod)
    requires p in pods && GroupOf(p, index).Some?
    ensures Count(pods, index, GroupOf(p, index).value) > 0
  {
    var n := |pods| - 1;
    if p != pods[n] {
      assert pods == pods[..n] + [pods[n]];
      CountPositive(pods[..n], index, p);
    }
  }

  /** Survivors on grouped nodes number at most the sum of the positive shares, hence at most
      (n-1)/2 more than the replicas, and at most the replicas when no share is negative. */
  lemma SurvivorBound(ws: seq<Weight>, r: int, rnd: Rounding, m: map<string, int>,
                      pods: seq<Pod>, index: Index)
    requires ValidWeights(ws) && Simple(ws) && Nearest(ws, r, rnd) && 0 <= r && ws != []
    requires IsShare(ws, r, rnd, m)
    ensures var left := CountIf(Kept(pods, m, index), Grouped(index));
      && left <= Sum(m.Keys, Positive(m))
      && 2 * left <= 2 * r + |ws| - 1
      && (|ws| <= 3 && (forall e :: e in ws ==> 1 <= e.weight) ==> left <= r)
  {
    var kept := Kept(pods, m, index);
    forall p | p in kept && GroupOf(p, index).Some? ensures GroupOf(p, index).value in m.Keys {
      CountPositive(kept, index, p);
      KeptCount(pods, m, index, GroupOf(p, index).value);
    }
    GroupedSum(kept, index, m.Keys);
    forall g | g in m.Keys ensures CountOf(kept, index)(g) <= Positive(m)(g) {
      KeptCount(pods, m, index, g);
    }
    SumLe(m.Keys, CountOf(kept, index), Positive(m));
    PositiveTotal(ws, r, rnd, m);
    if |ws| <= 3 && forall e :: e in ws ==> 1 <= e.weight {
      forall g | g in m ensures 0 <= m[g] { SmallPolicyNonNegative(ws, r, rnd, m, g); }
    }
  }

  lemma SplitLengths(s: seq<Pod>, m: map<string, int>, index: Index)
    ensures |Kept(s, m, index)| + |Deleted(s, m, index)| == |s|
  {
    Partition(s, m, index);
    assert |multiset(s)| == |multiset(Kept(s, m, index))| + |multiset(Deleted(s, m, index))|;
  }

  /* ---------- refused deletions ---------- */

  /** The deletions that the API server does not refuse. */
  function Granted(gone: seq<Pod>, refused: set<Key>): seq<Pod> {
    if gone == [] then [] else
      var n := |gone| - 1;
      Granted(gone[..n], refused) + (if gone[n].key in refused then [] else [gone[n]])
  }

  lemma {:induction false} GrantedMembers(gone: seq<Pod>, refused: set<Key>, p: Pod)
    ensures p in Granted(gone, refused) <==> p in gone && p.key !in refused
  {
    if gone != [] {
      var n := |gone| - 1;
      GrantedMembers(gone[..n], refused, p);
      assert gone == gone[..n] + [gone[n]];
    }
  }

  /** The pods left when some deletions are refused: those within the share and the refused ones. */
  ghost function KeptOrRefused(pods: seq<Pod>, share: map<string, int>, index: Index, refused: set<Key>): seq<Pod> {
    if pods == [] then [] else
      var n := |pods| - 1;
      KeptOrRefused(pods[..n], share, index, refused)
      + (if ExcessAt(pods, n, share, index) && pods[n].key !in refused then [] else [pods[n]])
  }

  lemma {:induction false} NoneRefused(pods: seq<Pod>, share: map<string, int>, index: Index)
    ensures KeptOrRefused(pods, share, index, {}) == Kept(pods, share, index)
  {
    if pods != [] { NoneRefused(pods[..|pods| - 1], share, index); }
  }

  lemma {:induction false} AllGranted(gone: seq<Pod>)
    ensures Granted(gone, {}) == gone
  {
    if gone != [] { AllGranted(gone[..|gone| - 1]); }
  }

  lemma GrantedStep(pods: seq<Pod>, share: map<string, int>, index: Index, refused: set<Key>)
    requires pods != []
    ensures var n := |pods| - 1;
      Granted(Deleted(pods, share, index), refused) ==
        Granted(Deleted(pods[..n], share, index), refused)
        + (if ExcessAt(pods, n, share, index) && pods[n].key !in refused then [pods[n]] else [])
  {
    var n := |pods| - 1;
    var before := Deleted(pods[..n], share, index);
    assert (before + [pods[n]])[..|before|] == before;
    assert Deleted(pods, share, index) == if ExcessAt(pods, n, share, index) then before + [pods[n]] else before;
  }

  lemma {:induction false} SurvivorsMembers(pods: seq<Pod>, share: map<string, int>, index: Index,
                                            refused: set<Key>, p: Pod)
    requires p in KeptOrRefused(pods, share, index, refused)
    ensures p in pods
  {
    var n := |pods| - 1;
    if p in KeptOrRefused(pods[..n], share, index, refused) {
      SurvivorsMembers(pods[..n], share, index, refused, p);
    }
  }
}
