/** What the share maps mean: conservation, distance from the exact quota, sign, dependence on
    the recipient and on the order and scale of the weights. */
module Shares {
  import opened Common
  import opened Api
  import opened Apportionment

  ghost function Total(m: map<string, int>): int {
    Sum(m.Keys, Of(m))
  }

  lemma TotalWrite(m: map<string, int>, k: string, v: int)
    ensures Total(m[k := v]) == Total(m) - Lookup(m, k) + v
  {
    var m' := m[k := v];
    SumSplit(m'.Keys, Of(m'), k);
    SumEq(m.Keys - {k}, Of(m'), Of(m));
    assert m'.Keys - {k} == m.Keys - {k};
    if k in m { SumSplit(m.Keys, Of(m), k); } else { assert m.Keys - {k} == m.Keys; }
  }

  /* ---------- conservation ---------- */

  function LostZeros(m: map<string, int>, names: seq<string>, k: nat): int
    decreases |names| - k
  {
    if k >= |names| then 0 else Lookup(m, names[k]) + LostZeros(m[names[k] := 0], names, k + 1)
  }

  /** The amounts that writing the whole weight list overwrites, because a name is written twice. */
  function Lost(ws: seq<Weight>, s: int, r: int, rnd: Rounding): int
    requires forall e :: e in ws ==> e.names != []
  {
    if ws == [] then 0 else
      var n := |ws| - 1;
      var m := Base(ws[..n], s, r, rnd);
      var names := ws[n].names;
      Lost(ws[..n], s, r, rnd) + Lookup(m, names[0])
      + LostZeros(m[names[0] := Desired(ws[n].weight, s, r, rnd)], names, 2)
  }

  lemma WriteZerosTotal(m: map<string, int>, names: seq<string>, k: nat)
    ensures Total(WriteZeros(m, names, k)) == Total(m) - LostZeros(m, names, k)
    decreases |names| - k
  {
    if k < |names| {
      TotalWrite(m, names[k], 0);
      WriteZerosTotal(m[names[k] := 0], names, k + 1);
    }
  }

  lemma {:induction false} BaseTotal(ws: seq<Weight>, s: int, r: int, rnd: Rounding)
    requires forall e :: e in ws ==> e.names != []
    ensures Total(Base(ws, s, r, rnd)) == Allocated(ws, s, r, rnd) - Lost(ws, s, r, rnd)
  {
    if ws != [] {
      var n := |ws| - 1;
      var m, names := Base(ws[..n], s, r, rnd), ws[n].names;
      var d := Desired(ws[n].weight, s, r, rnd);
      BaseTotal(ws[..n], s, r, rnd);
      TotalWrite(m, names[0], d);
      WriteZerosTotal(m[names[0] := d], names, 2);
    }
  }

  /** Whatever the recipient, the shares add up to the replicas less what repeated names
      overwrote. */
  lemma Conservation(ws: seq<Weight>, r: int, rnd: Rounding, m: map<string, int>)
    requires ws != [] && forall e :: e in ws ==> e.names != []
    requires IsShare(ws, r, rnd, m)
    ensures Total(m) == r - Lost(ws, SumWeights(ws), r, rnd)
  {
    BaseTotal(ws, SumWeights(ws), r, rnd);
    var g := FindRecipient(ws, r, rnd, m);
    TotalWrite(Base(ws, SumWeights(ws), r, rnd), g, m[g]);
  }

  predicate NoDup(s: seq<string>) {
    forall i, j :: 0 <= i < j < |s| ==> s[i] != s[j]
  }

  lemma NoDupConcat(a: seq<string>, b: seq<string>)
    requires NoDup(a + b)
    ensures NoDup(a) && NoDup(b)
    ensures forall x :: x in b ==> x !in a
  {
    var c := a + b;
    assert forall i :: 0 <= i < |a| ==> c[i] == a[i];
    assert forall i :: 0 <= i < |b| ==> c[|a| + i] == b[i];
  }

  lemma {:induction false} BaseKeys(ws: seq<Weight>, s: int, r: int, rnd: Rounding, g: string)
    requires forall e :: e in ws ==> e.names != []
    ensures g in Base(ws, s, r, rnd) <==> g in AllWritten(ws)
  {
    if ws != [] {
      var n := |ws| - 1;
      var m, names := Base(ws[..n], s, r, rnd), ws[n].names;
      BaseKeys(ws[..n], s, r, rnd, g);
      WriteZerosAt(m[names[0] := Desired(ws[n].weight, s, r, rnd)], names, 2, g);
      WrittenAt(names, g);
    }
  }

  lemma WrittenAt(names: seq<string>, g: string)
    requires names != []
    ensures g in WrittenNames(names) <==> g == names[0] || exists i :: 2 <= i < |names| && names[i] == g
  {
    if i :| 2 <= i < |names| && names[i] == g {
      assert names[2..][i - 2] == g;
    }
    if |names| >= 2 && g in names[2..] {
      var i :| 0 <= i < |names[2..]| && names[2..][i] == g;
      assert names[i + 2] == g;
    }
  }

  /** Every share map has exactly the written names as keys: the first name of an entry and its
      third and later ones, never a name listed only second. */
  lemma ShareKeys(ws: seq<Weight>, r: int, rnd: Rounding, m: map<string, int>, g: string)
    requires forall e :: e in ws ==> e.names != []
    requires IsShare(ws, r, rnd, m)
    ensures g in m <==> g in AllWritten(ws)
    ensures g !in AllWritten(ws) ==> Lookup(m, g) == 0
  {
    BaseKeys(ws, SumWeights(ws), r, rnd, g);
  }

  lemma LostZerosDistinct(m: map<string, int>, names: seq<string>, k: nat)
    requires forall i :: k <= i < |names| ==> names[i] !in m
    requires forall i, j :: k <= i < j < |names| ==> names[i] != names[j]
    ensures LostZeros(m, names, k) == 0
    decreases |names| - k
  {
    if k < |names| { LostZerosDistinct(m[names[k] := 0], names, k + 1); }
  }

  /** Nothing is lost when no name is written twice. */
  lemma {:induction false} NothingLost(ws: seq<Weight>, s: int, r: int, rnd: Rounding)
    requires forall e :: e in ws ==> e.names != []
    requires NoDup(AllWritten(ws))
    ensures Lost(ws, s, r, rnd) == 0
  {
    if ws != [] {
      var n := |ws| - 1;
      var m, names := Base(ws[..n], s, r, rnd), ws[n].names;
      NoDupConcat(AllWritten(ws[..n]), WrittenNames(names));
      NothingLost(ws[..n], s, r, rnd);
      forall x | x in WrittenNames(names) ensures x !in m {
        BaseKeys(ws[..n], s, r, rnd, x);
      }
      EntryLosesNothing(m, names, Desired(ws[n].weight, s, r, rnd));
    }
  }

  lemma EntryLosesNothing(m: map<string, int>, names: seq<string>, d: int)
    requires names != [] && NoDup(WrittenNames(names)) && forall x :: x in WrittenNames(names) ==> x !in m
    ensures Lookup(m, names[0]) == 0 && LostZeros(m[names[0] := d], names, 2) == 0
  {
    var written := WrittenNames(names);
    assert names[0] == written[0];
    assert forall i :: 2 <= i < |names| ==> names[i] == written[i - 1];
    LostZerosDistinct(m[names[0] := d], names, 2);
  }

  /** With distinct written names the shares add up to exactly the replicas, zero weights included. */
  lemma ConservationExact(ws: seq<Weight>, r: int, rnd: Rounding, m: map<string, int>)
    requires ws != [] && forall e :: e in ws ==> e.names != []
    requires NoDup(AllWritten(ws))
    requires IsShare(ws, r, rnd, m)
    ensures Total(m) == r
  {
    Conservation(ws, r, rnd, m);
    NothingLost(ws, SumWeights(ws), r, rnd);
  }

  /* ---------- policies with one distinct name per entry ---------- */

  /** The supported form of a policy: every entry names exactly one group, no group twice. */
  predicate Simple(ws: seq<Weight>) {
    && (forall e :: e in ws ==> |e.names| == 1)
    && (forall i, j :: 0 <= i < j < |ws| ==> ws[i].names[0] != ws[j].names[0])
  }

  /** The policy as a map from group to weight. */
  function WeightMap(ws: seq<Weight>): map<string, int>
    requires forall e :: e in ws ==> e.names != []
  {
    if ws == [] then map[] else
      WeightMap(ws[..|ws| - 1])[ws[|ws| - 1].names[0] := ws[|ws| - 1].weight]
  }

  lemma {:induction false} WeightMapEntries(ws: seq<Weight>, g: string)
    requires Simple(ws)
    ensures g in WeightMap(ws) <==> exists e :: e in ws && e.names[0] == g
    ensures forall e :: e in ws && e.names[0] == g ==> g in WeightMap(ws) && WeightMap(ws)[g] == e.weight
  {
    if ws != [] {
      var n := |ws| - 1;
      WeightMapEntries(ws[..n], g);
      assert ws[n] in ws;
      assert forall e :: e in ws <==> e in ws[..n] || e == ws[n] by { assert ws == ws[..n] + [ws[n]]; }
      forall e | e in ws[..n] ensures e.names[0] != ws[n].names[0] {
        var i :| 0 <= i < n && ws[i] == e;
      }
    }
  }

  lemma {:induction false} SimpleWritten(ws: seq<Weight>)
    requires forall e :: e in ws ==> |e.names| == 1
    ensures |AllWritten(ws)| == |ws|
    ensures forall i :: 0 <= i < |ws| ==> AllWritten(ws)[i] == ws[i].names[0]
  {
    if ws != [] { SimpleWritten(ws[..|ws| - 1]); }
  }

  lemma {:induction false} SimpleBase(ws: seq<Weight>, s: int, r: int, rnd: Rounding)
    requires forall e :: e in ws ==> |e.names| == 1
    ensures Base(ws, s, r, rnd) == map g | g in WeightMap(ws) :: Desired(WeightMap(ws)[g], s, r, rnd)
  {
    if ws != [] { SimpleBase(ws[..|ws| - 1], s, r, rnd); }
  }

  lemma {:induction false} SimpleTotal(ws: seq<Weight>)
    requires Simple(ws)
    ensures Total(WeightMap(ws)) == SumWeights(ws)
    ensures |WeightMap(ws)| == |ws|
  {
    if ws != [] {
      var n := |ws| - 1;
      var e := ws[n];
      var w := WeightMap(ws[..n]);
      SimpleTotal(ws[..n]);
      WeightMapEntries(ws[..n], e.names[0]);
      assert e.names[0] !in w;
      TotalWrite(w, e.names[0], e.weight);
    }
  }

  /** For a supported policy the list-based definitions are sums and maps over the group set, free
      of list order. */
  lemma SimpleFacts(ws: seq<Weight>, r: int, rnd: Rounding)
    requires Simple(ws)
    ensures Base(ws, SumWeights(ws), r, rnd)
              == map g | g in WeightMap(ws) :: Desired(WeightMap(ws)[g], SumWeights(ws), r, rnd)
    ensures Total(WeightMap(ws)) == SumWeights(ws)
    ensures Left(ws, r, rnd) == r - Total(Base(ws, SumWeights(ws), r, rnd))
    ensures |WeightMap(ws)| == |ws|
    ensures NoDup(AllWritten(ws))
  {
    SimpleBase(ws, SumWeights(ws), r, rnd);
    SimpleTotal(ws);
    SimpleWritten(ws);
    NothingLost(ws, SumWeights(ws), r, rnd);
    BaseTotal(ws, SumWeights(ws), r, rnd);
  }

  /* ---------- distance from the exact quota ---------- */

  /** `share` is within `halves` halves of the exact quota `w * r / s`. */
  predicate Within(s: int, r: int, w: int, share: int, halves: int) {
    -(halves * s) <= 2 * (s * share) - 2 * (w * r) <= halves * s
  }

  /** The signed error of one share, scaled by twice the weight sum. */
  function ErrorAt(s: int, r: int, w: map<string, int>, m: map<string, int>): string -> int {
    g => 2 * (s * Lookup(m, g)) - 2 * (Lookup(w, g) * r)
  }

  lemma ErrorTerm(s: int, r: int, x: int, w: int)
    ensures 2 * (s * x) - 2 * (w * r) == (2 * s) * x + (-2 * r) * w
  {
  }

  lemma ErrorsCancel(s: int, r: int, w: map<string, int>, m: map<string, int>)
    requires w.Keys == m.Keys && Total(w) == s && Total(m) == r
    ensures Sum(m.Keys, ErrorAt(s, r, w, m)) == 0
  {
    forall g | g in m.Keys
      ensures ErrorAt(s, r, w, m)(g) == (2 * s) * Of(m)(g) + (-2 * r) * Of(w)(g)
    {
      ErrorTerm(s, r, Of(m)(g), Of(w)(g));
    }
    SumLinear(m.Keys, ErrorAt(s, r, w, m), 2 * s, Of(m), -2 * r, Of(w));
    ErrorTerm(s, r, r, s);
  }

  /** Before the remainder every group is within one half of its exact quota. */
  lemma BaseWithin(ws: seq<Weight>, r: int, rnd: Rounding, g: string)
    requires ValidWeights(ws) && Simple(ws) && Nearest(ws, r, rnd) && 0 <= r
    requires g in WeightMap(ws)
    ensures g in Base(ws, SumWeights(ws), r, rnd)
    ensures 0 <= WeightMap(ws)[g] <= SumWeights(ws)
    ensures 0 <= Base(ws, SumWeights(ws), r, rnd)[g] <= r
    ensures Within(SumWeights(ws), r, WeightMap(ws)[g], Base(ws, SumWeights(ws), r, rnd)[g], 1)
  {
    SimpleBase(ws, SumWeights(ws), r, rnd);
    WeightMapEntries(ws, g);
    WeightsWithinSum(ws);
    DesiredRange(WeightMap(ws)[g], SumWeights(ws), r, rnd);
  }

  /** Every share map differs from the base map in at most the recipient. */
  lemma FindRecipient(ws: seq<Weight>, r: int, rnd: Rounding, m: map<string, int>) returns (recipient: string)
    requires ws != [] && forall e :: e in ws ==> e.names != []
    requires IsShare(ws, r, rnd, m)
    ensures recipient in m && m == ShareFor(ws, r, rnd, recipient)
  {
    var base := Base(ws, SumWeights(ws), r, rnd);
    var e := ws[|ws| - 1];
    recipient := e.names[0];
    WrittenAt(e.names, recipient);
    BaseKeys(ws, SumWeights(ws), r, rnd, recipient);
    if Left(ws, r, rnd) == 0 {
      assert ShareFor(ws, r, rnd, recipient) == base;
    } else {
      recipient :| recipient in base && m == base[recipient := base[recipient] + Left(ws, r, rnd)];
    }
  }

  /** If all errors but one are at most `s`, and they cancel, the last one is at most (n-1)*s. */
  lemma LastError(s: int, r: int, w: map<string, int>, m: map<string, int>, last: string)
    requires w.Keys == m.Keys && Total(w) == s && Total(m) == r && last in m
    requires forall g :: g in m && g != last ==> Within(s, r, w[g], m[g], 1)
    ensures Within(s, r, w[last], m[last], |m| - 1)
  {
    var err := ErrorAt(s, r, w, m);
    ErrorsCancel(s, r, w, m);
    SumSplit(m.Keys, err, last);
    SumBound(m.Keys - {last}, err, s);
    assert |m.Keys - {last}| == |m| - 1;
  }

  lemma OthersWithin(ws: seq<Weight>, r: int, rnd: Rounding, recipient: string)
    requires ValidWeights(ws) && Simple(ws) && Nearest(ws, r, rnd) && 0 <= r
    requires recipient in Base(ws, SumWeights(ws), r, rnd)
    ensures Base(ws, SumWeights(ws), r, rnd).Keys == WeightMap(ws).Keys
    ensures var m := ShareFor(ws, r, rnd, recipient);
      forall g :: g in m && g != recipient ==>
        g in WeightMap(ws) && Within(SumWeights(ws), r, WeightMap(ws)[g], m[g], 1)
  {
    SimpleBase(ws, SumWeights(ws), r, rnd);
    forall g | g in WeightMap(ws) { BaseWithin(ws, r, rnd, g); }
  }

  /** Apportionment error: at most one group, the recipient, is further than one half from its
      exact quota, and it is within (n-1)/2; the remainder is at most n/2 in size. */
  lemma QuotaError(ws: seq<Weight>, r: int, rnd: Rounding, m: map<string, int>) returns (recipient: string)
    requires ValidWeights(ws) && Simple(ws) && Nearest(ws, r, rnd) && 0 <= r
    requires SumWeights(ws) > 0 && IsShare(ws, r, rnd, m)
    ensures m.Keys == WeightMap(ws).Keys && recipient in m && m == ShareFor(ws, r, rnd, recipient)
    ensures forall g :: g in m && g != recipient ==> Within(SumWeights(ws), r, WeightMap(ws)[g], m[g], 1)
    ensures Within(SumWeights(ws), r, WeightMap(ws)[recipient], m[recipient], |ws| - 1)
    ensures -|ws| <= 2 * Left(ws, r, rnd) <= |ws|
  {
    recipient := FindRecipient(ws, r, rnd, m);
    SimpleFacts(ws, r, rnd);
    ConservationExact(ws, r, rnd, m);
    AllocationBounds(ws, r, rnd, 0);
    OthersWithin(ws, r, rnd, recipient);
    LastError(SumWeights(ws), r, WeightMap(ws), m, recipient);
  }

  /* ---------- sign ---------- */

  /** Dividing the recipient's error bound by the weight sum. */
  lemma WithinLow(s: int, r: int, w: int, share: int, halves: int)
    requires 0 < s && 0 <= w && 0 <= r && Within(s, r, w, share, halves)
    ensures -halves <= 2 * share
    ensures 1 <= w && 1 <= r && halves <= 2 ==> 0 <= share
  {
    MulLe(r, 0, w);
    assert s * (2 * share) == 2 * (s * share);
    assert s * -halves == -(halves * s);
    Cancel(s, -halves, 2 * share);
    if 1 <= w && 1 <= r && halves <= 2 && share < 0 {
      MulLe(s, share, -1);
      MulLe(r, 1, w);
      MulLe(s, halves, 2);
    }
  }

  /** Only the recipient can fall below zero, and by at most (n-1)/2. */
  lemma ShareLow(ws: seq<Weight>, r: int, rnd: Rounding, m: map<string, int>) returns (recipient: string)
    requires ValidWeights(ws) && Simple(ws) && Nearest(ws, r, rnd) && 0 <= r && ws != []
    requires IsShare(ws, r, rnd, m)
    ensures m.Keys == WeightMap(ws).Keys && recipient in m
    ensures forall g :: g in m && g != recipient ==> 0 <= m[g]
    ensures -(|ws| - 1) <= 2 * m[recipient]
  {
    recipient := FindRecipient(ws, r, rnd, m);
    SimpleFacts(ws, r, rnd);
    forall g | g in m ensures 0 <= Base(ws, SumWeights(ws), r, rnd)[g] {
      BaseWithin(ws, r, rnd, g);
    }
    AllocationBounds(ws, r, rnd, 0);
    if SumWeights(ws) > 0 {
      recipient := QuotaError(ws, r, rnd, m);
      BaseWithin(ws, r, rnd, recipient);
      WithinLow(SumWeights(ws), r, WeightMap(ws)[recipient], m[recipient], |ws| - 1);
    }
  }

  /** The positive part of a share, as the correction step sees it. */
  function Positive(m: map<string, int>): string -> int {
    g => Max(0, Lookup(m, g))
  }

  /** The positive shares add up to at most (n-1)/2 more than the replicas. */
  lemma PositiveTotal(ws: seq<Weight>, r: int, rnd: Rounding, m: map<string, int>)
    requires ValidWeights(ws) && Simple(ws) && Nearest(ws, r, rnd) && 0 <= r && ws != []
    requires IsShare(ws, r, rnd, m)
    ensures r <= Sum(m.Keys, Positive(m))
    ensures 2 * Sum(m.Keys, Positive(m)) <= 2 * r + |ws| - 1
    ensures (forall g :: g in m ==> 0 <= m[g]) ==> Sum(m.Keys, Positive(m)) == r
  {
    var recipient := ShareLow(ws, r, rnd, m);
    SimpleFacts(ws, r, rnd);
    ConservationExact(ws, r, rnd, m);
    SumSplit(m.Keys, Positive(m), recipient);
    SumSplit(m.Keys, Of(m), recipient);
    SumEq(m.Keys - {recipient}, Positive(m), Of(m));
  }

  /** With no replicas every share is zero. */
  lemma AllZero(ws: seq<Weight>, rnd: Rounding)
    requires ValidWeights(ws) && Simple(ws) && Nearest(ws, 0, rnd)
    ensures Left(ws, 0, rnd) == 0
    ensures forall g :: g in Base(ws, SumWeights(ws), 0, rnd) ==> Base(ws, SumWeights(ws), 0, rnd)[g] == 0
  {
    SimpleFacts(ws, 0, rnd);
    var base := Base(ws, SumWeights(ws), 0, rnd);
    forall g | g in base ensures base[g] == 0 { BaseWithin(ws, 0, rnd, g); }
    SumBound(base.Keys, Of(base), 0);
  }

  lemma RecipientNonNegative(ws: seq<Weight>, r: int, rnd: Rounding, m: map<string, int>, g: string)
    requires Simple(ws) && 0 < r && |ws| <= 3 && 0 < SumWeights(ws)
    requires forall e :: e in ws ==> 1 <= e.weight
    requires g in m && g in WeightMap(ws)
    requires Within(SumWeights(ws), r, WeightMap(ws)[g], m[g], |ws| - 1)
    ensures 0 <= m[g]
  {
    WeightMapEntries(ws, g);
    WithinLow(SumWeights(ws), r, WeightMap(ws)[g], m[g], |ws| - 1);
  }

  /** With at most three groups of positive weight no share is ever negative. */
  lemma SmallPolicyNonNegative(ws: seq<Weight>, r: int, rnd: Rounding, m: map<string, int>, g: string)
    requires ValidWeights(ws) && Simple(ws) && Nearest(ws, r, rnd) && 0 <= r
    requires |ws| <= 3 && forall e :: e in ws ==> 1 <= e.weight
    requires IsShare(ws, r, rnd, m) && g in m
    ensures 0 <= m[g]
  {
    assert ws != [];
    if r == 0 {
      var recipient := FindRecipient(ws, r, rnd, m);
      AllZero(ws, rnd);
    } else {
      assert 0 < SumWeights(ws) by {
        assert 1 <= ws[0].weight && ws[0] in ws;
        WeightWithinSum(ws, 0);
      }
      var recipient := QuotaError(ws, r, rnd, m);
      if g == recipient {
        RecipientNonNegative(ws, r, rnd, m, g);
      } else {
        BaseWithin(ws, r, rnd, g);
      }
    }
  }

  /** Exactly when no call can return a negative share: no base share is outweighed by a negative
      remainder. */
  lemma NeverNegativeExactly(ws: seq<Weight>, r: int, rnd: Rounding)
    requires ValidWeights(ws) && Simple(ws) && Nearest(ws, r, rnd) && 0 <= r && ws != []
    ensures (forall m, g :: IsShare(ws, r, rnd, m) && g in m ==> 0 <= m[g])
        <==> (forall g :: g in Base(ws, SumWeights(ws), r, rnd) ==>
                0 <= Base(ws, SumWeights(ws), r, rnd)[g] + Left(ws, r, rnd))
  {
    var base, left := Base(ws, SumWeights(ws), r, rnd), Left(ws, r, rnd);
    SimpleFacts(ws, r, rnd);
    if forall m, g :: IsShare(ws, r, rnd, m) && g in m ==> 0 <= m[g] {
      forall g | g in base ensures 0 <= base[g] + left {
        RecipientIsShare(ws, r, rnd, g);
        assert g in ShareFor(ws, r, rnd, g);
      }
    }
    if forall g :: g in base ==> 0 <= base[g] + left {
      forall m, g | IsShare(ws, r, rnd, m) && g in m ensures 0 <= m[g] {
        var recipient := FindRecipient(ws, r, rnd, m);
        BaseWithin(ws, r, rnd, g);
      }
    }
  }

  lemma {:induction false} EqualWeights(ws: seq<Weight>, w: int, s: int, r: int, rnd: Rounding)
    requires forall e :: e in ws ==> |e.names| == 1 && e.weight == w
    ensures SumWeights(ws) == |ws| * w
    ensures Allocated(ws, s, r, rnd) == |ws| * Desired(w, s, r, rnd)
    ensures forall g :: g in Base(ws, s, r, rnd) ==> Base(ws, s, r, rnd)[g] == Desired(w, s, r, rnd)
  {
    if ws != [] {
      var n := |ws| - 1;
      EqualWeights(ws[..n], w, s, r, rnd);
      assert |ws| * w == n * w + w;
      assert |ws| * Desired(w, s, r, rnd) == n * Desired(w, s, r, rnd) + Desired(w, s, r, rnd);
      assert ws[n] in ws;
    }
  }

  /** A quota of exactly one half is rounded up. */
  lemma HalfRoundsUp(w: int, j: int)
    requires 0 < w && 0 < j
    ensures 0 < w * (2 * j) && HalfUp(w, w * (2 * j), j) == 1
  {
    HalfUpScales(w, 1, 2 * j, j);
    var q := 1.0 / (2 * j) as real;
    assert q * (2 * j) as real == 1.0;
    assert q * j as real == 0.5;
    assert w * 1 == w;
  }

  /** The error bound is attained: with an even number 2j of equal weights and j replicas every
      group rounds up to 1, and any group may be asked for 1 - j pods, (n-1)/2 below its quota.
      From four groups on that is negative. */
  lemma NegativeShare(ws: seq<Weight>, w: int, j: int, g: string) returns (m: map<string, int>)
    requires Simple(ws) && 0 < w && 0 < j && |ws| == 2 * j
    requires (forall e :: e in ws ==> e.weight == w) && g in AllWritten(ws)
    ensures IsShare(ws, j, HalfUp, m) && g in m && m[g] == 1 - j
  {
    var s := SumWeights(ws);
    EqualWeights(ws, w, s, j, HalfUp);
    assert |ws| * w == w * (2 * j);
    HalfRoundsUp(w, j);
    BaseKeys(ws, s, j, HalfUp, g);
    assert Left(ws, j, HalfUp) == -j;
    m := ShareFor(ws, j, HalfUp, g);
    RecipientIsShare(ws, j, HalfUp, g);
  }

  /* ---------- dependence on the recipient, the order and the scale ---------- */

  /** `m'` is `m` with `left` taken from `a` and given to `b`. */
  predicate Moved(m: map<string, int>, m': map<string, int>, a: string, b: string, left: int) {
    a in m && b in m && m' == m[a := m[a] - left][b := m[b] + left]
  }

  /** Two calls with the same inputs agree on the keys and differ on no key or on exactly two, by
      the size of the remainder. */
  lemma Spread(ws: seq<Weight>, r: int, rnd: Rounding, m: map<string, int>, m': map<string, int>)
    requires forall e :: e in ws ==> e.names != []
    requires IsShare(ws, r, rnd, m) && IsShare(ws, r, rnd, m')
    ensures m.Keys == m'.Keys
    ensures m == m' || (exists a, b :: a != b && Moved(m, m', a, b, Left(ws, r, rnd)))
    ensures Left(ws, r, rnd) == 0 ==> m == m'
  {
    if ws != [] {
      var a := FindRecipient(ws, r, rnd, m);
      var b := FindRecipient(ws, r, rnd, m');
      if m != m' {
        assert a != b && Moved(m, m', a, b, Left(ws, r, rnd));
      }
    }
  }

  lemma SameWeightMap(ws: seq<Weight>, ws': seq<Weight>)
    requires Simple(ws) && Simple(ws') && multiset(ws) == multiset(ws')
    ensures WeightMap(ws) == WeightMap(ws')
  {
    forall e ensures e in ws <==> e in ws' {
      assert e in multiset(ws) <==> e in multiset(ws');
    }
    forall g ensures g in WeightMap(ws) <==> g in WeightMap(ws')
             ensures g in WeightMap(ws) ==> WeightMap(ws)[g] == WeightMap(ws')[g]
    {
      WeightMapEntries(ws, g);
      WeightMapEntries(ws', g);
    }
  }

  lemma SameParts(ws: seq<Weight>, ws': seq<Weight>, r: int, rnd: Rounding)
    requires Simple(ws) && Simple(ws') && WeightMap(ws) == WeightMap(ws')
    ensures SumWeights(ws) == SumWeights(ws')
    ensures Base(ws, SumWeights(ws), r, rnd) == Base(ws', SumWeights(ws'), r, rnd)
    ensures Left(ws, r, rnd) == Left(ws', r, rnd)
  {
    SimpleFacts(ws, r, rnd);
    SimpleFacts(ws', r, rnd);
  }

  /** The possible share maps do not depend on the order of the weight list. */
  lemma OrderFree(ws: seq<Weight>, ws': seq<Weight>, r: int, rnd: Rounding, m: map<string, int>)
    requires Simple(ws) && Simple(ws') && multiset(ws) == multiset(ws')
    ensures IsShare(ws, r, rnd, m) <==> IsShare(ws', r, rnd, m)
  {
    SameWeightMap(ws, ws');
    SameParts(ws, ws', r, rnd);
  }

  /** The weight list with every weight multiplied by `c`. */
  function Scaled(ws: seq<Weight>, c: int): seq<Weight> {
    if ws == [] then [] else
      Scaled(ws[..|ws| - 1], c) + [Weight(ws[|ws| - 1].names, c * ws[|ws| - 1].weight)]
  }

  lemma HalfUpScales(c: int, w: int, s: int, r: int)
    requires 0 < c && s != 0
    ensures HalfUp(c * w, c * s, r) == HalfUp(w, s, r)
  {
    var q := w as real / s as real;
    assert q * s as real == w as real;
    var cr := c as real;
    assert cr * (s as real) == (c * s) as real && cr * (w as real) == (c * w) as real;
    assert q * (cr * (s as real)) == cr * (w as real);
    assert c * s != 0;
    assert (c * w) as real / (c * s) as real == q;
  }

  lemma {:induction false} ScaledSum(ws: seq<Weight>, c: int)
    ensures |Scaled(ws, c)| == |ws|
    ensures SumWeights(Scaled(ws, c)) == c * SumWeights(ws)
  {
    if ws != [] {
      var n := |ws| - 1;
      ScaledSum(ws[..n], c);
      assert Scaled(ws, c)[..n] == Scaled(ws[..n], c);
      Distribute(c, SumWeights(ws[..n]), ws[n].weight);
    } else {
      assert c * SumWeights(ws) == 0;
    }
  }

  lemma {:induction false} ScaledFacts(ws: seq<Weight>, c: int, s: int, t: int, r: int)
    requires 0 < c && t == c * s && forall e :: e in ws ==> e.names != []
    ensures |Scaled(ws, c)| == |ws| && forall e :: e in Scaled(ws, c) ==> e.names != []
    ensures Base(Scaled(ws, c), t, r, HalfUp) == Base(ws, s, r, HalfUp)
    ensures Allocated(Scaled(ws, c), t, r, HalfUp) == Allocated(ws, s, r, HalfUp)
  {
    if ws != [] {
      var n := |ws| - 1;
      ScaledFacts(ws[..n], c, s, t, r);
      assert Scaled(ws, c)[..n] == Scaled(ws[..n], c);
      DesiredScales(c, ws[n].weight, s, t, r);
    }
  }

  lemma DesiredScales(c: int, w: int, s: int, t: int, r: int)
    requires 0 < c && t == c * s
    ensures Desired(c * w, t, r, HalfUp) == Desired(w, s, r, HalfUp)
  {
    if s != 0 { HalfUpScales(c, w, s, r); } else { assert t == 0; }
  }

  lemma ScaledParts(ws: seq<Weight>, c: int, r: int)
    requires 0 < c && forall e :: e in ws ==> e.names != []
    ensures forall e :: e in Scaled(ws, c) ==> e.names != []
    ensures Base(Scaled(ws, c), SumWeights(Scaled(ws, c)), r, HalfUp) == Base(ws, SumWeights(ws), r, HalfUp)
    ensures Left(Scaled(ws, c), r, HalfUp) == Left(ws, r, HalfUp)
  {
    ScaledSum(ws, c);
    ScaledFacts(ws, c, SumWeights(ws), SumWeights(Scaled(ws, c)), r);
  }

  /** Multiplying every weight by the same positive constant changes no possible share map. */
  lemma ScaleFree(ws: seq<Weight>, c: int, r: int, m: map<string, int>)
    requires 0 < c && forall e :: e in ws ==> e.names != []
    ensures forall e :: e in Scaled(ws, c) ==> e.names != []
    ensures IsShare(Scaled(ws, c), r, HalfUp, m) <==> IsShare(ws, r, HalfUp, m)
  {
    ScaledParts(ws, c, r);
  }

  /* ---------- exact quotas ---------- */

  lemma NearestToWhole(s: int, d: int, q: int)
    requires 0 < s && -s <= 2 * (s * d) - 2 * (s * q) <= s
    ensures d == q
  {
    if d > q { MulLe(s, q + 1, d); } else if d < q { MulLe(s, d, q - 1); }
  }

  lemma WholeStep(s: int, r: int, a: int, t: int, d: int, w: int)
    requires s * a == t * r && s * d == w * r
    ensures s * (a + d) == (t + w) * r
  {
    Distribute(s, a, d);
    Distribute(r, t, w);
  }

  lemma {:induction false} WholeQuotas(ws: seq<Weight>, s: int, r: int, rnd: Rounding)
    requires NearestFor(ws, s, r, rnd) && 0 <= r && 0 < s
    requires forall e :: e in ws ==> 0 <= e.weight <= s && (e.weight * r) % s == 0
    ensures s * Allocated(ws, s, r, rnd) == SumWeights(ws) * r
    ensures forall e :: e in ws ==> s * Desired(e.weight, s, r, rnd) == e.weight * r
  {
    if ws != [] {
      var n := |ws| - 1;
      WholeQuotas(ws[..n], s, r, rnd);
      DesiredIsQuota(ws[n].weight, s, r, rnd);
      WholeStep(s, r, Allocated(ws[..n], s, r, rnd), SumWeights(ws[..n]),
                Desired(ws[n].weight, s, r, rnd), ws[n].weight);
      assert ws == ws[..n] + [ws[n]];
    } else {
      assert s * Allocated(ws, s, r, rnd) == 0 && SumWeights(ws) * r == 0;
    }
  }

  lemma DesiredIsQuota(w: int, s: int, r: int, rnd: Rounding)
    requires NearestAt(rnd, w, s, r) && 0 <= r && 0 < s && 0 <= w <= s && (w * r) % s == 0
    ensures s * Desired(w, s, r, rnd) == w * r
  {
    DesiredRange(w, s, r, rnd);
    var q := (w * r) / s;
    assert w * r == s * q;
    NearestToWhole(s, Desired(w, s, r, rnd), q);
  }

  /** When every quota is a whole number the shares are the quotas and every call agrees. */
  lemma WholeQuotasAreMet(ws: seq<Weight>, r: int, rnd: Rounding, m: map<string, int>, g: string)
    requires ValidWeights(ws) && Simple(ws) && Nearest(ws, r, rnd) && 0 <= r && SumWeights(ws) > 0
    requires forall e :: e in ws ==> (e.weight * r) % SumWeights(ws) == 0
    requires IsShare(ws, r, rnd, m)
    ensures Left(ws, r, rnd) == 0
    ensures g in m <==> g in WeightMap(ws)
    ensures g in m ==> SumWeights(ws) * m[g] == WeightMap(ws)[g] * r
  {
    var s := SumWeights(ws);
    WeightsWithinSum(ws);
    WholeQuotas(ws, s, r, rnd);
    NearestToWhole(s, Allocated(ws, s, r, rnd), r);
    SimpleFacts(ws, r, rnd);
    WeightMapEntries(ws, g);
  }

  /** Equal weights leave no remainder exactly when the number of groups divides the replicas. */
  lemma EqualWeightsRemainder(ws: seq<Weight>, w: int, r: int, rnd: Rounding)
    requires ValidWeights(ws) && Nearest(ws, r, rnd) && 0 <= r && ws != []
    requires 0 < w && forall e :: e in ws ==> |e.names| == 1 && e.weight == w
    ensures Left(ws, r, rnd) == 0 <==> r % |ws| == 0
  {
    var n, s := |ws|, SumWeights(ws);
    EqualWeights(ws, w, s, r, rnd);
    assert n * w >= w by { MulLe(w, 1, n); }
    if r % n == 0 {
      var q := r / n;
      assert w * r == s * q by {
        assert r == n * q;
        assert w * (n * q) == (n * w) * q;
      }
      DesiredRange(w, s, r, rnd);
      NearestToWhole(s, Desired(w, s, r, rnd), q);
    } else if Left(ws, r, rnd) == 0 {
      DivisibleByFactor(r, n, Desired(w, s, r, rnd));
    }
  }

  lemma DivisibleByFactor(r: int, n: int, d: int)
    requires 0 < n && r == n * d
    ensures r % n == 0
  {
    var q, m := r / n, r % n;
    assert n * (d - q) == m by {
      assert r == n * q + m;
      assert n * (d - q) == n * d - n * q;
    }
    if d - q >= 1 { MulLe(n, 1, d - q); } else { MulLe(n, d - q, 0); }
  }

  /* ---------- machine arithmetic ---------- */

  /** When the replicas plus half the number of entries fit int32, no running total, remainder or
      final share leaves int32. */
  lemma NoOverflow(ws: seq<Weight>, r: int, rnd: Rounding, k: nat, g: string)
    requires ValidWeights(ws) && Nearest(ws, r, rnd) && 0 <= r && 2 * r + |ws| < 2 * TWO_31
    requires k <= |ws| && g in Base(ws, SumWeights(ws), r, rnd)
    ensures 0 <= Allocated(ws[..k], SumWeights(ws), r, rnd) < TWO_31
    ensures -TWO_31 <= Left(ws, r, rnd) < TWO_31
    ensures -TWO_31 <= Base(ws, SumWeights(ws), r, rnd)[g] + Left(ws, r, rnd) < TWO_31
  {
    AllocationBounds(ws, r, rnd, k);
    NearestIsTolerable(ws, r, rnd);
    ShareFits(ws, r, rnd, g);
  }

  /** At the top of the int32 range the running total does leave int32: two equal weights and
      2^31 - 1 replicas allocate 2^31. */
  lemma RunningTotalMayWrap(ws: seq<Weight>, w: int)
    requires |ws| == 2 && 0 < w && forall e :: e in ws ==> |e.names| == 1 && e.weight == w
    ensures Allocated(ws, SumWeights(ws), TWO_31 - 1, HalfUp) == TWO_31
  {
    EqualWeights(ws, w, SumWeights(ws), TWO_31 - 1, HalfUp);
    HalfUpScales(w, 1, 2, TWO_31 - 1);
    assert w * 1 == w && w * 2 == SumWeights(ws);
    assert HalfUp(1, 2, TWO_31 - 1) == TWO_31 / 2;
  }

  /* ---------- which entry decides a value ---------- */

  /** What one entry does to the map: its third and later names become 0, its first name its share
      unless it is repeated there, and nothing else changes. */
  lemma WriteEntryAt(m: map<string, int>, names: seq<string>, d: int, g: string)
    requires names != []
    ensures var after := WriteEntry(m, names, d);
      if exists i :: 2 <= i < |names| && names[i] == g then g in after && after[g] == 0
      else if g == names[0] then g in after && after[g] == d
      else (g in after <==> g in m) && (g in m ==> after[g] == m[g])
  {
    WriteZerosAt(m[names[0] := d], names, 2, g);
  }

  /** The last entry that writes a name decides its base value: its share for its first name, 0 for a
      third or later one. */
  lemma {:induction false} LastEntryDecides(ws: seq<Weight>, s: int, r: int, rnd: Rounding, i: nat, g: string)
    requires forall e :: e in ws ==> e.names != []
    requires i < |ws| && g in WrittenNames(ws[i].names)
    requires forall j :: i < j < |ws| ==> g !in WrittenNames(ws[j].names)
    ensures g in Base(ws, s, r, rnd)
    ensures Base(ws, s, r, rnd)[g] ==
      if exists j :: 2 <= j < |ws[i].names| && ws[i].names[j] == g then 0 else Desired(ws[i].weight, s, r, rnd)
  {
    var n := |ws| - 1;
    assert ws[n] in ws;
    WriteEntryAt(Base(ws[..n], s, r, rnd), ws[n].names, Desired(ws[n].weight, s, r, rnd), g);
    WrittenAt(ws[i].names, g);
    WrittenAt(ws[n].names, g);
    if i < n { LastEntryDecides(ws[..n], s, r, rnd, i, g); }
  }

  /* ---------- names after the first ---------- */

  /** A name that is written, but never as the first name of an entry. */
  ghost predicate Extra(ws: seq<Weight>, g: string)
    requires forall e :: e in ws ==> e.names != []
  {
    g in AllWritten(ws) && forall e :: e in ws ==> e.names[0] != g
  }

  lemma {:induction false} ExtraBase(ws: seq<Weight>, s: int, r: int, rnd: Rounding, g: string)
    requires forall e :: e in ws ==> e.names != [] && e.names[0] != g
    ensures Lookup(Base(ws, s, r, rnd), g) == 0
  {
    if ws != [] {
      var n := |ws| - 1;
      assert ws[n] in ws;
      ExtraBase(ws[..n], s, r, rnd, g);
      WriteZerosAt(Base(ws[..n], s, r, rnd)[ws[n].names[0] := Desired(ws[n].weight, s, r, rnd)], ws[n].names, 2, g);
    }
  }

  /** The log message promises weight 0 to every name after the first. It holds for all calls
      exactly when there is no remainder or no entry has an extra name that is written; otherwise
      the whole remainder may go to such a name. */
  lemma ExtraNamesGetNothingExactly(ws: seq<Weight>, r: int, rnd: Rounding)
    requires forall e :: e in ws ==> e.names != []
    ensures (forall m, g :: IsShare(ws, r, rnd, m) && Extra(ws, g) ==> Lookup(m, g) == 0)
        <==> (Left(ws, r, rnd) == 0 || forall g :: !Extra(ws, g))
  {
    if Left(ws, r, rnd) != 0 && exists g :: Extra(ws, g) {
      var g :| Extra(ws, g);
      ExtraBase(ws, SumWeights(ws), r, rnd, g);
      BaseKeys(ws, SumWeights(ws), r, rnd, g);
      RecipientIsShare(ws, r, rnd, g);
      assert Lookup(ShareFor(ws, r, rnd, g), g) == Left(ws, r, rnd);
    } else {
      forall m, g | IsShare(ws, r, rnd, m) && Extra(ws, g) ensures Lookup(m, g) == 0 {
        ExtraBase(ws, SumWeights(ws), r, rnd, g);
      }
    }
  }

  /** The smallest counterexample: one entry of three names, another of one, equal weights and one
      replica. The third name may be asked for -1 pods. */
  lemma ThirdNameGetsRemainder() returns (m: map<string, int>)
    ensures var ws := [Weight(["a", "b", "c"], 1), Weight(["d"], 1)];
      && ValidWeights(ws) && SumWeights(ws) == 2
      && Extra(ws, "c") && IsShare(ws, 1, HalfUp, m) && m == map["a" := 1, "c" := -1, "d" := 1]
  {
    var ws := [Weight(["a", "b", "c"], 1), Weight(["d"], 1)];
    var first := [Weight(["a", "b", "c"], 1)];
    assert ws[..1] == first && first[..0] == [];
    assert SumWeights(first) == 1 && SumWeights(ws) == 2;
    assert HalfUp(1, 2, 1) == 1;
    assert Allocated(first, 2, 1, HalfUp) == 1 && Allocated(ws, 2, 1, HalfUp) == 2;
    var names := ["a", "b", "c"];
    assert WriteZeros(map["a" := 1], names, 2) == map["a" := 1, "c" := 0];
    assert Base(first, 2, 1, HalfUp) == map["a" := 1, "c" := 0];
    assert Base(ws, 2, 1, HalfUp) == map["a" := 1, "c" := 0, "d" := 1];
    BaseKeys(ws, 2, 1, HalfUp, "c");
    RecipientIsShare(ws, 1, HalfUp, "c");
    m := ShareFor(ws, 1, HalfUp, "c");
  }
}
