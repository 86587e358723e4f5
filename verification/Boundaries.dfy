/** Exact boundaries: when a share can be negative, when the int32 running total can leave its
    range, and that the error bound is attained, each for every number of groups. */
module Boundaries {
  import opened Common
  import opened Api
  import opened Apportionment
  import opened Shares

  /* ---------- building policies ---------- */

  function Name(i: nat): string { seq(i + 1, _ => 'g') }

  /** `count` entries of weight `w`, named from `start` on. */
  function Block(w: int, start: nat, count: nat): seq<Weight> {
    seq(count, i requires 0 <= i < count => Weight([Name(start + i)], w))
  }

  ghost predicate Numbered(ws: seq<Weight>) {
    forall i :: 0 <= i < |ws| ==> ws[i].names == [Name(i)]
  }

  lemma NumberedIsSimple(ws: seq<Weight>)
    requires Numbered(ws)
    ensures Simple(ws) && forall e :: e in ws ==> e.names != []
  {
    forall i, j | 0 <= i < j < |ws| ensures ws[i].names[0] != ws[j].names[0] {
      assert |Name(i)| == i + 1 && |Name(j)| == j + 1;
    }
  }

  lemma {:induction false} Concatenated(a: seq<Weight>, b: seq<Weight>, s: int, r: int, rnd: Rounding)
    ensures SumWeights(a + b) == SumWeights(a) + SumWeights(b)
    ensures Allocated(a + b, s, r, rnd) == Allocated(a, s, r, rnd) + Allocated(b, s, r, rnd)
  {
    if b == [] {
      assert a + b == a;
    } else {
      Concatenated(a, b[..|b| - 1], s, r, rnd);
      assert (a + b)[..|a + b| - 1] == a + b[..|b| - 1];
    }
  }

  /** Appending a block adds its length times its weight and its rounded share. */
  lemma BlockTotals(a: seq<Weight>, w: int, start: nat, count: nat, s: int, r: int, rnd: Rounding, d: int)
    requires d == Desired(w, s, r, rnd)
    ensures SumWeights(a + Block(w, start, count)) == SumWeights(a) + count * w
    ensures Allocated(a + Block(w, start, count), s, r, rnd) == Allocated(a, s, r, rnd) + count * d
  {
    Concatenated(a, Block(w, start, count), s, r, rnd);
    EqualWeights(Block(w, start, count), w, s, r, rnd);
  }

  /* ---------- negative shares ---------- */

  /** A nearest integer is pinned by a quota strictly closer to it than one half. */
  lemma NearestIs(s: int, d: int, x: int, v: int)
    requires 0 < s && -s <= 2 * (s * d) - 2 * x <= s
    requires -s < 2 * x - 2 * (s * v) < s
    ensures d == v
  {
    if d > v { MulLe(s, v + 1, d); } else if d < v { MulLe(s, d, v - 1); }
  }

  /** Three entries of weight n and n - 3 of weight 1. */
  function TopHeavy(n: nat): seq<Weight>
    requires 4 <= n
  {
    Block(n, 0, 3) + Block(1, 3, n - 3)
  }

  lemma TopHeavyFacts(n: nat)
    requires 4 <= n < TWO_32
    ensures ValidWeights(TopHeavy(n)) && Simple(TopHeavy(n)) && |TopHeavy(n)| == n
    ensures SumWeights(TopHeavy(n)) == 4 * n - 3
    ensures forall e :: e in TopHeavy(n) ==> 1 <= e.weight
    ensures Name(3) in WeightMap(TopHeavy(n)) && WeightMap(TopHeavy(n))[Name(3)] == 1
  {
    var ws := TopHeavy(n);
    assert [] + Block(n, 0, 3) == Block(n, 0, 3);
    BlockTotals([], n, 0, 3, 0, 0, HalfUp, 0);
    BlockTotals(Block(n, 0, 3), 1, 3, n - 3, 0, 0, HalfUp, 0);
    assert Numbered(ws);
    NumberedIsSimple(ws);
    assert ws[3] in ws && ws[3] == Weight([Name(3)], 1);
    WeightMapEntries(ws, Name(3));
  }

  /** Two replicas over this policy: each heavy entry rounds up to 1, each light one down to 0. */
  lemma TopHeavyRounds(n: nat, rnd: Rounding)
    requires 4 <= n < TWO_32 && Nearest(TopHeavy(n), 2, rnd)
    ensures rnd(n, 4 * n - 3, 2) == 1 && rnd(1, 4 * n - 3, 2) == 0
  {
    var ws, s := TopHeavy(n), 4 * n - 3;
    TopHeavyFacts(n);
    assert ws[0] in ws && ws[0].weight == n && NearestAt(rnd, n, s, 2);
    assert ws[3] in ws && ws[3].weight == 1 && NearestAt(rnd, 1, s, 2);
    NearestIs(s, rnd(n, s, 2), n * 2, 1);
    NearestIs(s, rnd(1, s, 2), 1 * 2, 0);
  }

  lemma TopHeavyAllocates(n: nat, rnd: Rounding)
    requires 4 <= n < TWO_32 && rnd(n, 4 * n - 3, 2) == 1 && rnd(1, 4 * n - 3, 2) == 0
    ensures Allocated(TopHeavy(n), 4 * n - 3, 2, rnd) == 3
  {
    assert [] + Block(n, 0, 3) == Block(n, 0, 3);
    BlockTotals([], n, 0, 3, 4 * n - 3, 2, rnd, 1);
    BlockTotals(Block(n, 0, 3), 1, 3, n - 3, 4 * n - 3, 2, rnd, 0);
  }

  /** So one pod too many is allocated, and a light group may be asked for -1. No quota is a tie. */
  lemma TopHeavyGoesNegative(n: nat, rnd: Rounding) returns (m: map<string, int>)
    requires 4 <= n < TWO_32 && Nearest(TopHeavy(n), 2, rnd)
    ensures ValidWeights(TopHeavy(n)) && IsShare(TopHeavy(n), 2, rnd, m)
    ensures Name(3) in m && m[Name(3)] == -1
  {
    TopHeavyFacts(n);
    TopHeavyRounds(n, rnd);
    TopHeavyAllocates(n, rnd);
    SimpleBase(TopHeavy(n), 4 * n - 3, 2, rnd);
    m := ShareFor(TopHeavy(n), 2, rnd, Name(3));
    RecipientIsShare(TopHeavy(n), 2, rnd, Name(3));
  }

  ghost predicate Positive(ws: seq<Weight>) {
    forall e :: e in ws ==> 1 <= e.weight
  }

  /** No policy of n distinct groups with the weights the API admits ever asks a group for a negative
      number of pods, whatever the weights, replicas and recipient, exactly when n is at most 3. */
  lemma NonNegativeExactly(n: nat, rnd: Rounding)
    requires 1 <= n < TWO_32
    requires n >= 4 ==> Nearest(TopHeavy(n), 2, rnd)
    ensures (forall ws, r, m, g :: (ValidWeights(ws) && Simple(ws) && Positive(ws) && |ws| == n && 0 <= r < TWO_31
                && Nearest(ws, r, rnd) && IsShare(ws, r, rnd, m) && g in m) ==> 0 <= m[g])
        <==> n <= 3
  {
    if n <= 3 {
      forall ws, r, m, g | ValidWeights(ws) && Simple(ws) && Positive(ws) && |ws| == n && 0 <= r < TWO_31
        && Nearest(ws, r, rnd) && IsShare(ws, r, rnd, m) && g in m
        ensures 0 <= m[g]
      {
        SmallPolicyNonNegative(ws, r, rnd, m, g);
      }
    } else {
      var m := TopHeavyGoesNegative(n, rnd);
      TopHeavyFacts(n);
    }
  }

  /** Two entries of weight 1 and n - 2 of weight 0. */
  function WithZeros(n: nat): seq<Weight>
    requires 3 <= n
  {
    Block(1, 0, 2) + Block(0, 2, n - 2)
  }

  lemma WithZerosFacts(n: nat)
    requires 3 <= n < TWO_32
    ensures ValidWeights(WithZeros(n)) && Simple(WithZeros(n)) && |WithZeros(n)| == n
    ensures SumWeights(WithZeros(n)) == 2
    ensures Allocated(WithZeros(n), 2, 1, HalfUp) == 2
    ensures Name(2) in WeightMap(WithZeros(n)) && WeightMap(WithZeros(n))[Name(2)] == 0
  {
    var ws := WithZeros(n);
    HalfQuota(1, 0);
    HalfUpExact(0, 2, 1);
    WithZerosBlocks(n);
    assert Numbered(ws);
    NumberedIsSimple(ws);
    assert ws[2] in ws && ws[2] == Weight([Name(2)], 0);
    WeightMapEntries(ws, Name(2));
  }

  lemma WithZerosBlocks(n: nat)
    requires 3 <= n && HalfUp(1, 2, 1) == 1 && HalfUp(0, 2, 1) == 0
    ensures SumWeights(WithZeros(n)) == 2 && Allocated(WithZeros(n), 2, 1, HalfUp) == 2
  {
    assert [] + Block(1, 0, 2) == Block(1, 0, 2);
    BlockTotals([], 1, 0, 2, 2, 1, HalfUp, 1);
    BlockTotals(Block(1, 0, 2), 0, 2, n - 2, 2, 1, HalfUp, 0);
  }

  /** With weight 0 admitted as well the boundary is two groups. */
  lemma NonNegativeWithZerosExactly(n: nat)
    requires 1 <= n < TWO_32
    ensures (forall ws, r, m, g :: (ValidWeights(ws) && Simple(ws) && |ws| == n && 0 <= r < TWO_31
                && IsShare(ws, r, HalfUp, m) && g in m) ==> 0 <= m[g])
        <==> n <= 2
  {
    if n <= 2 {
      forall ws, r, m, g | ValidWeights(ws) && Simple(ws) && |ws| == n && 0 <= r < TWO_31
        && IsShare(ws, r, HalfUp, m) && g in m
        ensures 0 <= m[g]
      {
        HalfUpIsNearest(ws, r);
        var recipient := ShareLow(ws, r, HalfUp, m);
      }
    } else {
      WithZerosFacts(n);
      SimpleBase(WithZeros(n), 2, 1, HalfUp);
      RecipientIsShare(WithZeros(n), 1, HalfUp, Name(2));
      var m := ShareFor(WithZeros(n), 1, HalfUp, Name(2));
      assert m[Name(2)] == -1;
    }
  }

  /* ---------- which policy goes negative ---------- */

  lemma NearestMonotone(s: int, x: int, y: int, d: int, e: int)
    requires 0 < s && x <= y
    requires 2 * (s * d) - 2 * x <= s && -s < 2 * (s * e) - 2 * y
    ensures d <= e
  {
    assert s * (e + 1) == s * e + s;
    if d > e { MulLe(s, e + 1, d); }
  }

  lemma HalfUpMonotone(w: int, v: int, s: int, r: int)
    requires 0 < s && 0 <= r && w <= v
    ensures HalfUp(w, s, r) <= HalfUp(v, s, r)
  {
    HalfUpExact(w, s, r);
    HalfUpExact(v, s, r);
    MulLe(r, w, v);
    NearestMonotone(s, w * r, v * r, HalfUp(w, s, r), HalfUp(v, s, r));
  }

  function MinWeight(ws: seq<Weight>): int
    requires ws != []
  {
    if |ws| == 1 then ws[0].weight else Min(MinWeight(ws[..|ws| - 1]), ws[|ws| - 1].weight)
  }

  lemma {:induction false} MinWeightIsLeast(ws: seq<Weight>) returns (least: Weight)
    requires ws != []
    ensures least in ws && least.weight == MinWeight(ws)
    ensures forall i :: 0 <= i < |ws| ==> least.weight <= ws[i].weight
  {
    var n := |ws| - 1;
    least := ws[n];
    if n > 0 {
      var rest := MinWeightIsLeast(ws[..n]);
      if rest.weight <= least.weight { least := rest; }
    }
  }

  /** For a given policy only the smallest weight matters: no call returns a negative share exactly
      when rounding over-allocates by no more than the rounded quota of the smallest weight. */
  lemma NeverNegativeBySmallest(ws: seq<Weight>, r: int)
    requires ValidWeights(ws) && Simple(ws) && 0 <= r && ws != []
    ensures (forall m, g :: IsShare(ws, r, HalfUp, m) && g in m ==> 0 <= m[g])
        <==> Allocated(ws, SumWeights(ws), r, HalfUp) - r <= Desired(MinWeight(ws), SumWeights(ws), r, HalfUp)
  {
    var s, base := SumWeights(ws), Base(ws, SumWeights(ws), r, HalfUp);
    HalfUpIsNearest(ws, r);
    NeverNegativeExactly(ws, r, HalfUp);
    SimpleBase(ws, s, r, HalfUp);
    AllocationBounds(ws, r, HalfUp, 0);
    var least := MinWeightIsLeast(ws);
    WeightMapEntries(ws, least.names[0]);
    forall g | g in base ensures base[g] >= Desired(MinWeight(ws), s, r, HalfUp) {
      WeightMapEntries(ws, g);
      if s > 0 { HalfUpMonotone(MinWeight(ws), WeightMap(ws)[g], s, r); }
    }
    assert least.names[0] in base && base[least.names[0]] == Desired(MinWeight(ws), s, r, HalfUp);
  }

  /* ---------- the error bound is attained ---------- */

  /** Weights n-1, 1, ..., 1. */
  function OneHeavy(n: nat): seq<Weight>
    requires 2 <= n
  {
    Block(n - 1, 0, 1) + Block(1, 1, n - 1)
  }

  lemma OneHeavyFacts(n: nat)
    requires 2 <= n < TWO_32
    ensures ValidWeights(OneHeavy(n)) && Simple(OneHeavy(n)) && |OneHeavy(n)| == n
    ensures SumWeights(OneHeavy(n)) == 2 * (n - 1)
    ensures Name(0) in WeightMap(OneHeavy(n)) && WeightMap(OneHeavy(n))[Name(0)] == n - 1
    ensures Allocated(OneHeavy(n), 2 * (n - 1), n - 1, HalfUp)
              == HalfUp(n - 1, 2 * (n - 1), n - 1) + n - 1
  {
    var r, ws := n - 1, OneHeavy(n);
    assert [] + Block(r, 0, 1) == Block(r, 0, 1);
    HalfQuota(r, 0);
    BlockTotals([], r, 0, 1, 2 * r, r, HalfUp, HalfUp(r, 2 * r, r));
    BlockTotals(Block(r, 0, 1), 1, 1, r, 2 * r, r, HalfUp, 1);
    assert Numbered(ws);
    NumberedIsSimple(ws);
    assert ws[0] in ws && ws[0] == Weight([Name(0)], r);
    WeightMapEntries(ws, Name(0));
  }

  /** For every number of groups n >= 2 some policy and replica count make a call miss a group's quota
      by exactly (n-1)/2: weights n-1, 1, ..., 1 and n-1 replicas can leave the first group with 0. */
  lemma QuotaErrorAttained(n: nat) returns (m: map<string, int>)
    requires 2 <= n < TWO_32
    ensures ValidWeights(OneHeavy(n)) && Simple(OneHeavy(n)) && |OneHeavy(n)| == n
    ensures IsShare(OneHeavy(n), n - 1, HalfUp, m)
    ensures Name(0) in m && m[Name(0)] == 0 && Name(0) in WeightMap(OneHeavy(n))
    ensures var s := SumWeights(OneHeavy(n));
      0 < s && 2 * (s * m[Name(0)]) - 2 * (WeightMap(OneHeavy(n))[Name(0)] * (n - 1)) == -((n - 1) * s)
  {
    var r := n - 1;
    OneHeavyFacts(n);
    SimpleBase(OneHeavy(n), 2 * r, r, HalfUp);
    m := ShareFor(OneHeavy(n), r, HalfUp, Name(0));
    RecipientIsShare(OneHeavy(n), r, HalfUp, Name(0));
    MissedBy(r, 2 * r, m[Name(0)]);
  }

  lemma MissedBy(r: int, s: int, v: int)
    requires s == 2 * r && v == 0
    ensures 2 * (s * v) - 2 * (r * r) == -(r * s)
  {
    assert r * s == 2 * (r * r);
  }

  /** A quota of j + 1/2 rounds up. */
  lemma HalfQuota(r: int, j: int)
    requires 0 < r
    ensures HalfUp(2 * j + 1, 2 * r, r) == j + 1
  {
    var d := HalfUp(2 * j + 1, 2 * r, r);
    HalfUpExact(2 * j + 1, 2 * r, r);
    assert (2 * r) * d == r * (2 * d);
    assert (2 * j + 1) * r == r * (2 * j) + r;
    assert r * (2 * j + 4) == r * (2 * j) + 4 * r;
    if d <= j { MulLe(r, 2 * d, 2 * j); } else if d >= j + 2 { MulLe(r, 2 * j + 4, 2 * d); }
  }

  /* ---------- the int32 running total ---------- */

  /** No running total of the allocation loop leaves int32. */
  ghost predicate TotalsFit(ws: seq<Weight>, r: int, rnd: Rounding) {
    forall k :: 0 <= k <= |ws| ==> Allocated(ws[..k], SumWeights(ws), r, rnd) < TWO_31
  }

  lemma DoubleStep(s: int, a: int, d: int, w: int, t: int, r: int)
    requires 0 < s && 0 <= d && 0 <= w * r && s * a <= 2 * (t * r) && 2 * (s * d) - 2 * (w * r) <= s
    ensures s * (a + d) <= 2 * ((t + w) * r)
  {
    if d > 0 { MulLe(s, 1, d); }
    assert s * (a + d) == s * a + s * d;
    assert (t + w) * r == t * r + w * r;
  }

  /** A rounded share is at most twice its quota, so a total is at most twice the sum of quotas. */
  lemma {:induction false} AllocatedDouble(ws: seq<Weight>, s: int, r: int, rnd: Rounding)
    requires NearestFor(ws, s, r, rnd) && 0 <= r && 0 < s
    requires forall e :: e in ws ==> 0 <= e.weight <= s
    ensures s * Allocated(ws, s, r, rnd) <= 2 * (SumWeights(ws) * r)
  {
    if ws != [] {
      var n := |ws| - 1;
      AllocatedDouble(ws[..n], s, r, rnd);
      assert ws[n] in ws;
      DesiredRange(ws[n].weight, s, r, rnd);
      MulLe(r, 0, ws[n].weight);
      var a, d := Allocated(ws[..n], s, r, rnd), Desired(ws[n].weight, s, r, rnd);
      DoubleStep(s, a, d, ws[n].weight, SumWeights(ws[..n]), r);
    } else {
      assert s * Allocated(ws, s, r, rnd) == 0 && SumWeights(ws) * r == 0;
    }
  }

  lemma AtMostTwice(s: int, a: int, t: int, r: int)
    requires 0 < s && 0 <= r && t <= s && s * a <= 2 * (t * r)
    ensures a <= 2 * r
  {
    MulLe(r, t, s);
    assert s * (2 * r) == 2 * (s * r);
    Cancel(s, a, 2 * r);
  }

  lemma TotalAtMostTwice(ws: seq<Weight>, r: int, rnd: Rounding, k: nat)
    requires ValidWeights(ws) && Nearest(ws, r, rnd) && 0 <= r && k <= |ws|
    ensures Allocated(ws[..k], SumWeights(ws), r, rnd) <= 2 * r
  {
    var s := SumWeights(ws);
    SumWeightsPrefix(ws, k);
    WeightsWithinSum(ws);
    if s > 0 {
      AllocatedDouble(ws[..k], s, r, rnd);
      AtMostTwice(s, Allocated(ws[..k], s, r, rnd), SumWeights(ws[..k]), r);
    } else {
      AllocatedZero(ws[..k], r, rnd);
    }
  }

  /** Two ways to be safe, for every nearest rounding. */
  lemma TotalsFitBelow(ws: seq<Weight>, r: int, rnd: Rounding)
    requires ValidWeights(ws) && Nearest(ws, r, rnd) && 0 <= r
    requires r + |ws| / 2 < TWO_31 || r < TWO_31 / 2
    ensures TotalsFit(ws, r, rnd)
  {
    forall k | 0 <= k <= |ws| ensures Allocated(ws[..k], SumWeights(ws), r, rnd) < TWO_31 {
      AllocationBounds(ws, r, rnd, k);
      TotalAtMostTwice(ws, r, rnd, k);
    }
  }

  function ThreeBlocks(v: int, ones: nat, zeros: nat): seq<Weight> {
    Block(v, 0, 1) + Block(1, 1, ones) + Block(0, ones + 1, zeros)
  }

  lemma ThreeBlocksTotals(v: int, ones: nat, zeros: nat, s: int, r: int, rnd: Rounding, d: int)
    requires d == Desired(v, s, r, rnd) && Desired(1, s, r, rnd) == 1 && Desired(0, s, r, rnd) == 0
    ensures SumWeights(ThreeBlocks(v, ones, zeros)) == v + ones
    ensures Allocated(ThreeBlocks(v, ones, zeros), s, r, rnd) == d + ones
  {
    var a := Block(v, 0, 1);
    assert [] + a == a;
    BlockTotals([], v, 0, 1, s, r, rnd, d);
    BlockTotals(a, 1, 1, ones, s, r, rnd, 1);
    BlockTotals(a + Block(1, 1, ones), 0, ones + 1, zeros, s, r, rnd, 0);
  }

  lemma ThreeBlocksShape(v: nat, ones: nat, zeros: nat)
    ensures |ThreeBlocks(v, ones, zeros)| == 1 + ones + zeros && Simple(ThreeBlocks(v, ones, zeros))
    ensures forall e :: e in ThreeBlocks(v, ones, zeros) ==> 0 <= e.weight && e.names != []
  {
    assert Numbered(ThreeBlocks(v, ones, zeros));
    NumberedIsSimple(ThreeBlocks(v, ones, zeros));
  }

  lemma WrappingRounds(i: nat, r: int)
    requires 1 <= i <= r
    ensures HalfUp(2 * (r - i) + 1, 2 * r, r) == r - i + 1
    ensures HalfUp(1, 2 * r, r) == 1 && HalfUp(0, 2 * r, r) == 0
  {
    HalfQuota(r, r - i);
    HalfQuota(r, 0);
    HalfUpExact(0, 2 * r, r);
    NearestIs(2 * r, HalfUp(0, 2 * r, r), 0, 0);
  }

  /** 2^31 - r halves are rounded up: one large entry, 2i-1 entries of weight 1, the rest 0. */
  lemma Wrapping(n: nat, r: int) returns (ws: seq<Weight>)
    requires TWO_31 / 2 <= r < TWO_31 && 2 * (TWO_31 - r) <= n < TWO_32
    ensures ValidWeights(ws) && Simple(ws) && |ws| == n
    ensures Allocated(ws, SumWeights(ws), r, HalfUp) == TWO_31
  {
    var i := TWO_31 - r;
    var large, ones, zeros := 2 * (r - i) + 1, 2 * i - 1, n - 2 * i;
    ws := ThreeBlocks(large, ones, zeros);
    WrappingRounds(i, r);
    ThreeBlocksTotals(large, ones, zeros, 2 * r, r, HalfUp, r - i + 1);
    ThreeBlocksShape(large, ones, zeros);
  }

  /** The int32 running total stays in range for all policies of n entries exactly when the replicas
      plus half the entries fit int32 or the replicas are below 2^30; distinct single names make no
      difference. */
  lemma OverflowExactly(n: nat, r: int)
    requires 1 <= n < TWO_32 && 0 <= r < TWO_31
    ensures (forall ws :: ValidWeights(ws) && |ws| == n ==> TotalsFit(ws, r, HalfUp))
        <==> (r + n / 2 < TWO_31 || r < TWO_31 / 2)
    ensures (forall ws :: ValidWeights(ws) && Simple(ws) && |ws| == n ==> TotalsFit(ws, r, HalfUp))
        <==> (r + n / 2 < TWO_31 || r < TWO_31 / 2)
  {
    if r + n / 2 < TWO_31 || r < TWO_31 / 2 {
      forall ws | ValidWeights(ws) && |ws| == n ensures TotalsFit(ws, r, HalfUp) {
        HalfUpIsNearest(ws, r);
        TotalsFitBelow(ws, r, HalfUp);
      }
    } else {
      var ws := Wrapping(n, r);
      assert ws[..n] == ws;
      assert !TotalsFit(ws, r, HalfUp);
    }
  }

  /** For one policy it is enough to look at the last running total: they never decrease. */
  lemma LastTotalDecides(ws: seq<Weight>, r: int, rnd: Rounding)
    requires ValidWeights(ws) && Nearest(ws, r, rnd) && 0 <= r
    ensures TotalsFit(ws, r, rnd) <==> Allocated(ws, SumWeights(ws), r, rnd) < TWO_31
  {
    assert ws[..|ws|] == ws;
    WeightsWithinSum(ws);
    var s := SumWeights(ws);
    forall k | 0 <= k <= |ws| ensures Allocated(ws[..k], s, r, rnd) <= Allocated(ws, s, r, rnd) {
      assert ws == ws[..k] + ws[k..];
      Concatenated(ws[..k], ws[k..], SumWeights(ws), r, rnd);
      assert forall e :: e in ws[k..] ==> e in ws;
      AllocatedError(ws[k..], SumWeights(ws), r, rnd);
    }
  }
}
