/** Accumulation of plugin scores, in place in the first plugin's list. The only plugin the source
    registers panics (see README.md), so the fold runs only with other plugins. */
module Scoring {
  import opened Common

  datatype HostPriority = HostPriority(host: string, score: int)

  /** The score a list gives a host: its last entry for the host, 0 if there is none. */
  function ScoreIn(list: seq<HostPriority>, host: string): int {
    if list == [] then 0
    else if list[|list| - 1].host == host then list[|list| - 1].score
    else ScoreIn(list[..|list| - 1], host)
  }

  /** The last entry of a host counts; a host that is not listed has score 0. */
  lemma {:induction false} ScoreInExact(list: seq<HostPriority>, host: string, i: nat)
    requires i <= |list| && forall j :: i <= j < |list| ==> list[j].host != host
    requires i > 0 ==> list[i - 1].host == host
    ensures ScoreIn(list, host) == if i == 0 then 0 else list[i - 1].score
  {
    if i < |list| { ScoreInExact(list[..|list| - 1], host, i); }
  }

  function Combined(a: seq<HostPriority>, b: seq<HostPriority>): seq<HostPriority> {
    if a == [] then b
    else seq(|a|, i requires 0 <= i < |a| => HostPriority(a[i].host, Wrap64(a[i].score + ScoreIn(b, a[i].host))))
  }

  /** Adds the second list's scores to the first list, entry by entry, writing into the first
      list; an empty first list is replaced by the second. */
  method CombineScores(first: array<HostPriority>, second: array<HostPriority>) returns (r: array<HostPriority>)
    modifies first
    ensures r == if first.Length == 0 then second else first
    ensures r[..] == Combined(old(first[..]), old(second[..]))
  {
    if first.Length == 0 {
      return second;
    }
    ghost var before := first[..];
    ghost var added := second[..];
    var newscores: map<string, int> := map[];
    for i := 0 to second.Length
      invariant forall h :: Lookup(newscores, h) == ScoreIn(added[..i], h)
    {
      assert added[..i + 1][..i] == added[..i];
      newscores := newscores[second[i].host := second[i].score];
    }
    assert added[..|added|] == added;
    for i := 0 to first.Length
      invariant forall j :: 0 <= j < i ==>
        first[j] == HostPriority(before[j].host, Wrap64(before[j].score + ScoreIn(added, before[j].host)))
      invariant forall j :: i <= j < first.Length ==> first[j] == before[j]
    {
      var score;
      ghost var turns;
      score, turns := AddInt64(first[i].score, Lookup(newscores, first[i].host));
      Wrap64Is(score, first[i].score + Lookup(newscores, first[i].host), turns);
      first[i] := HostPriority(first[i].host, score);
    }
    r := first;
  }

  /** The fold over the successful plugins' lists. */
  function FoldScores(outs: seq<seq<HostPriority>>): seq<HostPriority> {
    if outs == [] then [] else Combined(FoldScores(outs[..|outs| - 1]), outs[|outs| - 1])
  }

  /** Contents of the lists of the plugins that did not fail. */
  ghost function Contents(outputs: seq<Option<array<HostPriority>>>): seq<seq<HostPriority>>
    reads set o | o in outputs && o.Some? :: o.value
  {
    if outputs == [] then [] else
      var o := outputs[|outputs| - 1];
      Contents(outputs[..|outputs| - 1]) + (if o.Some? then [o.value[..]] else [])
  }

  /** A plugin that did not fail adds its list, one that failed adds nothing. */
  lemma ContentsStep(outputs: seq<Option<array<HostPriority>>>, o: Option<array<HostPriority>>)
    ensures Contents(outputs + [o]) == Contents(outputs) + (if o.Some? then [o.value[..]] else [])
  {
    assert (outputs + [o])[..|outputs|] == outputs;
  }

  /** The lists are in the order of the plugins. */
  lemma {:induction false} ContentsConcat(a: seq<Option<array<HostPriority>>>, b: seq<Option<array<HostPriority>>>)
    ensures Contents(a + b) == Contents(a) + Contents(b)
  {
    if b == [] {
      assert a + b == a;
    } else {
      var init, o := b[..|b| - 1], b[|b| - 1];
      ContentsConcat(a, init);
      LastOfConcat(a, b);
      Associative(Contents(a), Contents(init), if o.Some? then [o.value[..]] else []);
    }
  }

  /** Runs over the plugins' results (`None` is an error) and accumulates the rest. Each plugin
      returns a list of its own. */
  method Prioritize(outputs: seq<Option<array<HostPriority>>>) returns (priorityList: array<HostPriority>, failed: bool)
    requires forall i, j :: 0 <= i < j < |outputs| && outputs[i].Some? && outputs[j].Some?
               ==> outputs[i].value != outputs[j].value
    modifies set o | o in outputs && o.Some? :: o.value
    ensures priorityList[..] == FoldScores(old(Contents(outputs)))
    ensures failed <==> None in outputs
  {
    priorityList := new HostPriority[0];
    failed := false;
    ghost var outs := Contents(outputs[..0]);
    for i := 0 to |outputs|
      invariant outs == old(Contents(outputs[..i]))
      invariant priorityList[..] == FoldScores(outs)
      invariant failed <==> None in outputs[..i]
      invariant forall j :: i <= j < |outputs| && outputs[j].Some? ==>
        outputs[j].value != priorityList && outputs[j].value[..] == old(outputs[j].value[..])
      invariant fresh(priorityList) || exists j :: 0 <= j < i && outputs[j] == Some(priorityList)
    {
      assert outputs[..i + 1][..i] == outputs[..i];
      assert outputs[..i + 1] == outputs[..i] + [outputs[i]];
      if outputs[i].None? {
        failed := true;
        continue;
      }
      ghost var added := outputs[i].value[..];
      priorityList := CombineScores(priorityList, outputs[i].value);
      outs := outs + [added];
      assert outs[..|outs| - 1] == old(Contents(outputs[..i]));
    }
    assert outputs[..|outputs|] == outputs;
  }

  function SumScores(outs: seq<seq<HostPriority>>, host: string): int {
    if outs == [] then 0 else SumScores(outs[..|outs| - 1], host) + ScoreIn(outs[|outs| - 1], host)
  }

  predicate DistinctHosts(list: seq<HostPriority>) {
    forall i, j :: 0 <= i < j < |list| ==> list[i].host != list[j].host
  }

  lemma {:induction false} OwnScore(list: seq<HostPriority>, i: nat)
    requires DistinctHosts(list) && i < |list|
    ensures ScoreIn(list, list[i].host) == list[i].score
  {
    if i < |list| - 1 { OwnScore(list[..|list| - 1], i); }
  }

  /** The fold keeps the first list's hosts in order and gives each the int64 sum of its scores
      over all lists; hosts only later lists mention are dropped. */
  lemma {:induction false} FoldIsSum(outs: seq<seq<HostPriority>>, i: nat)
    requires outs != [] && DistinctHosts(outs[0]) && i < |outs[0]|
    requires -TWO_63 <= outs[0][i].score < TWO_63
    ensures |FoldScores(outs)| == |outs[0]|
    ensures FoldScores(outs)[i] == HostPriority(outs[0][i].host, Wrap64(SumScores(outs, outs[0][i].host)))
  {
    var n := |outs| - 1;
    if n == 0 {
      OwnScore(outs[0], i);
      assert FoldScores(outs[..0]) == [];
      assert SumScores(outs[..0], outs[0][i].host) == 0;
      Wrap64Is(outs[0][i].score, outs[0][i].score, 0);
    } else {
      FoldIsSum(outs[..n], i);
      Wrap64Add(SumScores(outs[..n], outs[0][i].host), ScoreIn(outs[n], outs[0][i].host));
    }
  }

  /** Plugins that return nothing before the first list with entries change nothing. */
  lemma {:induction false} FoldSkipsEmpty(outs: seq<seq<HostPriority>>)
    ensures FoldScores([[]] + outs) == FoldScores(outs)
  {
    if outs == [] {
      assert [[]] + outs == [[]];
      assert FoldScores([[]][..0]) == [];
    } else {
      FoldSkipsEmpty(outs[..|outs| - 1]);
      assert ([[]] + outs)[..|outs|] == [[]] + outs[..|outs| - 1];
    }
  }
}
