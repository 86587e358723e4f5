/** Division of a deployment's replicas over weighted node groups. */
module Apportionment {
  import opened Common
  import opened Api

  /** `int32(float64(weight)/float64(sum)*float64(replicas) + 0.5)` as a function of its inputs. */
  type Rounding = (int, int, int) -> int

  /** For every entry of the list the rounding returns an integer within one half of the exact
      quota; either neighbour of a tie is allowed. Nothing is asked of the rounding elsewhere. */
  ghost predicate Nearest(ws: seq<Weight>, r: int, rnd: Rounding) {
    NearestFor(ws, SumWeights(ws), r, rnd)
  }

  ghost predicate NearestFor(ws: seq<Weight>, s: int, r: int, rnd: Rounding) {
    forall e :: e in ws ==> NearestAt(rnd, e.weight, s, r)
  }

  ghost predicate NearestAt(rnd: Rounding, w: int, s: int, r: int) {
    0 <= w <= s && 0 < s && 0 <= r ==> -s <= 2 * (s * rnd(w, s, r)) - 2 * (w * r) <= s
  }

  /** All that the fixed-width arithmetic needs of the rounding: every rounded share is between 0 and
      the replicas, and no entry of a list of n is rounded up by more than 2^31 / n. */
  ghost predicate Tolerable(ws: seq<Weight>, r: int, rnd: Rounding) {
    TolerableFor(ws, |ws|, SumWeights(ws), r, rnd)
  }

  ghost predicate TolerableFor(ws: seq<Weight>, n: nat, s: int, r: int, rnd: Rounding) {
    forall e :: e in ws ==> TolerableAt(rnd, n, e.weight, s, r)
  }

  ghost predicate TolerableAt(rnd: Rounding, n: nat, w: int, s: int, r: int) {
    0 <= w <= s && 0 < s && 0 <= r ==> 0 <= rnd(w, s, r) <= r && n * (s * rnd(w, s, r) - w * r) <= TWO_31 * s
  }

  /** The rounding the source writes, over exact reals. */
  function HalfUp(w: int, s: int, r: int): int {
    if s == 0 then 0 else ((w as real / s as real) * (r as real) + 0.5).Floor
  }

  function SumWeights(ws: seq<Weight>): int {
    if ws == [] then 0 else SumWeights(ws[..|ws| - 1]) + ws[|ws| - 1].weight
  }

  /** What API validation and object size limits guarantee of a weight list. */
  ghost predicate ValidWeights(ws: seq<Weight>) {
    && |ws| < TWO_32
    && SumWeights(ws) < TWO_63
    && (forall e :: e in ws ==> 0 <= e.weight && e.names != [])
  }

  /** The rounded share of one entry of weight `w` out of `s`. */
  function Desired(w: int, s: int, r: int, rnd: Rounding): int {
    if s != 0 then rnd(w, s, r) else 0
  }

  /** The sum of all rounded shares. */
  function Allocated(ws: seq<Weight>, s: int, r: int, rnd: Rounding): int {
    if ws == [] then 0 else
      Allocated(ws[..|ws| - 1], s, r, rnd) + Desired(ws[|ws| - 1].weight, s, r, rnd)
  }

  function WriteZeros(m: map<string, int>, names: seq<string>, k: nat): map<string, int>
    decreases |names| - k
  {
    if k >= |names| then m else WriteZeros(m[names[k] := 0], names, k + 1)
  }

  /** The writes one entry makes: its share to the first name, 0 to the third and later names. */
  function WriteEntry(m: map<string, int>, names: seq<string>, d: int): map<string, int>
    requires names != []
  {
    WriteZeros(m[names[0] := d], names, 2)
  }

  /** The share map before the remainder is handed out. */
  function Base(ws: seq<Weight>, s: int, r: int, rnd: Rounding): map<string, int>
    requires forall e :: e in ws ==> e.names != []
  {
    if ws == [] then map[] else
      var e := ws[|ws| - 1];
      WriteEntry(Base(ws[..|ws| - 1], s, r, rnd), e.names, Desired(e.weight, s, r, rnd))
  }

  /** The remainder: what rounding left unallocated, negative when it allocated too much. */
  function Left(ws: seq<Weight>, r: int, rnd: Rounding): int {
    r - Allocated(ws, SumWeights(ws), r, rnd)
  }

  /** `m` is one of the share maps a call may return: Go's map iteration picks any key as the
      recipient of the remainder. */
  ghost predicate IsShare(ws: seq<Weight>, r: int, rnd: Rounding, m: map<string, int>)
    requires forall e :: e in ws ==> e.names != []
  {
    Handout(Base(ws, SumWeights(ws), r, rnd), Left(ws, r, rnd), m)
  }

  /** `m` is `base` with the whole remainder added to one of its keys, if it has any. */
  ghost predicate Handout(base: map<string, int>, left: int, m: map<string, int>) {
    if left == 0 || base == map[] then m == base
    else exists g :: g in base && m == base[g := base[g] + left]
  }

  /* ---------- bounds on the parts ---------- */

  /** The rounding is to the nearest integer, ties upwards: the exact quota lies in the half-open
      interval of width one around the result. */
  lemma HalfUpExact(w: int, s: int, r: int)
    requires 0 < s
    ensures -s < 2 * (s * HalfUp(w, s, r)) - 2 * (w * r) <= s
  {
    var q := (w as real / s as real) * (r as real);
    assert q * s as real == w as real * r as real;
    var d := HalfUp(w, s, r);
    var scaled := HalfBounds(d as real - q, s as real);
    var e := ScaledGap(q, d as real - q, s, w * r, d);
    HalvesToInts(s, e, scaled);
  }

  lemma HalfUpIsNearest(ws: seq<Weight>, r: int)
    ensures Nearest(ws, r, HalfUp)
  {
    forall e | e in ws ensures NearestAt(HalfUp, e.weight, SumWeights(ws), r) {
      if SumWeights(ws) > 0 { HalfUpExact(e.weight, SumWeights(ws), r); }
    }
  }

  lemma RealNonNegative(x: real, a: real)
    requires 0.0 <= x && 0.0 < a
    ensures 0.0 <= x * a
    ensures 0.0 < x ==> 0.0 < x * a
  {
  }

  lemma HalfBounds(g: real, a: real) returns (scaled: real)
    requires 0.0 < a && -0.5 < g <= 0.5
    ensures scaled == g * a && -a < 2.0 * scaled <= a
  {
    scaled := g * a;
    RealNonNegative(g + 0.5, a);
    RealNonNegative(0.5 - g, a);
    assert (g + 0.5) * a == scaled + 0.5 * a;
    assert (0.5 - g) * a == 0.5 * a - scaled;
  }

  lemma ScaledGap(q: real, gap: real, s: int, p: int, d: int) returns (e: int)
    requires gap == d as real - q && q * s as real == p as real
    ensures e == s * d - p && gap * s as real == e as real
  {
    e := s * d - p;
    assert d as real * s as real == (s * d) as real;
    assert gap * s as real == d as real * s as real - q * s as real;
  }

  lemma HalvesToInts(s: int, e: int, scaled: real)
    requires scaled == e as real && -(s as real) < 2.0 * scaled <= s as real
    ensures -s < 2 * e <= s
  {
  }

  lemma SumWeightsPrefix(ws: seq<Weight>, k: nat)
    requires k <= |ws| && forall e :: e in ws ==> 0 <= e.weight
    ensures 0 <= SumWeights(ws[..k]) <= SumWeights(ws)
    decreases |ws|
  {
    if k < |ws| {
      SumWeightsPrefix(ws[..|ws| - 1], k);
      assert ws[..|ws| - 1][..k] == ws[..k];
    } else {
      assert ws[..k] == ws;
      if ws != [] { SumWeightsPrefix(ws[..|ws| - 1], |ws| - 1); assert ws[..|ws|-1][..|ws|-1] == ws[..|ws|-1]; }
    }
  }

  lemma WeightWithinSum(ws: seq<Weight>, i: nat)
    requires i < |ws| && forall e :: e in ws ==> 0 <= e.weight
    ensures 0 <= ws[i].weight <= SumWeights(ws)
  {
    SumWeightsPrefix(ws, i);
    SumWeightsPrefix(ws, i + 1);
    assert ws[..i + 1][..i] == ws[..i];
  }

  lemma MulLe(a: int, x: int, y: int)
    requires 0 <= a && x <= y
    ensures a * x <= a * y
  {
  }

  lemma RealScale(x: real, y: real, a: real)
    requires 0.0 <= a && x <= y
    ensures x * a <= y * a
  {
  }

  lemma RealScaleStrict(x: real, y: real, a: real)
    requires 0.0 < a && x < y
    ensures x * a < y * a
  {
    assert (y - x) * a > 0.0;
  }

  lemma RealProduct(x: int, y: int)
    ensures x as real * y as real == (x * y) as real
  {
  }

  /** An integer within one half of a number between 0 and `r` is itself between 0 and `r`. */
  lemma NearestRange(w: int, s: int, r: int, d: int)
    requires 0 <= w <= s && 0 < s && 0 <= r
    requires -s <= 2 * (s * d) - 2 * (w * r) <= s
    ensures 0 <= d <= r
  {
    MulLe(r, w, s);
    MulLe(r, 0, w);
    assert s * (r + 1) == s * r + s;
    if d < 0 { MulLe(s, d, -1); }
    if d > r { MulLe(s, r + 1, d); }
  }

  lemma DesiredRange(w: int, s: int, r: int, rnd: Rounding)
    requires NearestAt(rnd, w, s, r) && 0 <= w <= s && 0 <= r
    ensures 0 <= Desired(w, s, r, rnd) <= r
    ensures -s <= 2 * (s * Desired(w, s, r, rnd)) - 2 * (w * r) <= s
  {
    if s != 0 {
      NearestRange(w, s, r, rnd(w, s, r));
    } else {
      assert w * r == 0;
    }
  }

  lemma Cancel(s: int, a: int, b: int)
    requires 0 < s && s * a <= s * b
    ensures a <= b
  {
    if b < a { MulLe(s, b + 1, a); }
  }

  /** One more entry adds at most one more half entry of rounding error. */
  lemma ErrorStep(s: int, r: int, n: int, a: int, t: int, d: int, w: int)
    requires -(n * s) <= 2 * (s * a) - 2 * (r * t) <= n * s
    requires -s <= 2 * (s * d) - 2 * (w * r) <= s
    ensures -((n + 1) * s) <= 2 * (s * (a + d)) - 2 * (r * (t + w)) <= (n + 1) * s
  {
    assert s * (a + d) == s * a + s * d;
    assert r * (t + w) == r * t + w * r;
    assert (n + 1) * s == n * s + s;
  }

  /** The rounding errors of all entries add up to at most half an entry each. */
  lemma {:induction false} AllocatedError(ws: seq<Weight>, s: int, r: int, rnd: Rounding)
    requires NearestFor(ws, s, r, rnd) && 0 <= r
    requires forall e :: e in ws ==> 0 <= e.weight <= s
    ensures -(|ws| * s) <= 2 * (s * Allocated(ws, s, r, rnd)) - 2 * (r * SumWeights(ws)) <= |ws| * s
    ensures 0 <= Allocated(ws, s, r, rnd)
  {
    if ws != [] {
      var n := |ws| - 1;
      AllocatedError(ws[..n], s, r, rnd);
      assert ws[n] in ws;
      DesiredRange(ws[n].weight, s, r, rnd);
      ErrorStep(s, r, n, Allocated(ws[..n], s, r, rnd), SumWeights(ws[..n]),
                Desired(ws[n].weight, s, r, rnd), ws[n].weight);
    }
  }

  /** Dividing the scaled error bound by the weight sum. */
  lemma ErrorBound(s: int, r: int, k: int, a: int, t: int)
    requires 0 < s && 0 <= r && t <= s
    requires -(k * s) <= 2 * (s * a) - 2 * (r * t) <= k * s
    ensures 2 * a <= 2 * r + k
    ensures t == s ==> 2 * r - k <= 2 * a
  {
    MulLe(r, t, s);
    assert s * (2 * a) == 2 * (s * a);
    assert s * (2 * r + k) == 2 * (r * s) + k * s;
    Cancel(s, 2 * a, 2 * r + k);
    if t == s {
      assert s * (2 * r - k) == 2 * (r * s) - k * s;
      Cancel(s, 2 * r - k, 2 * a);
    }
  }

  lemma WeightsWithinSum(ws: seq<Weight>)
    requires forall e :: e in ws ==> 0 <= e.weight
    ensures forall e :: e in ws ==> 0 <= e.weight <= SumWeights(ws)
  {
    forall e | e in ws ensures 0 <= e.weight <= SumWeights(ws) {
      var i :| 0 <= i < |ws| && ws[i] == e;
      WeightWithinSum(ws, i);
    }
  }

  /** No running total of the allocation loop exceeds the replicas by more than half an entry
      each, and the remainder is at most half the number of entries. */
  lemma AllocationBounds(ws: seq<Weight>, r: int, rnd: Rounding, k: nat)
    requires ValidWeights(ws) && Nearest(ws, r, rnd) && 0 <= r && k <= |ws|
    ensures 0 <= 2 * Allocated(ws[..k], SumWeights(ws), r, rnd) <= 2 * r + k
    ensures SumWeights(ws) > 0 ==> -|ws| <= 2 * Left(ws, r, rnd) <= |ws|
    ensures SumWeights(ws) == 0 ==> Left(ws, r, rnd) == r
    ensures 0 <= SumWeights(ws)
  {
    var s := SumWeights(ws);
    SumWeightsPrefix(ws, k);
    WeightsWithinSum(ws);
    if s > 0 {
      AllocatedError(ws[..k], s, r, rnd);
      ErrorBound(s, r, k, Allocated(ws[..k], s, r, rnd), SumWeights(ws[..k]));
      AllocatedError(ws, s, r, rnd);
      ErrorBound(s, r, |ws|, Allocated(ws, s, r, rnd), s);
    } else {
      AllocatedZero(ws, r, rnd);
      AllocatedZero(ws[..k], r, rnd);
    }
  }

  lemma AllocatedZero(ws: seq<Weight>, r: int, rnd: Rounding)
    ensures Allocated(ws, 0, r, rnd) == 0
  {
  }

  /* ---------- keys and values of the map ---------- */

  /** The names one entry writes: the first, then the third and later ones. */
  function WrittenNames(names: seq<string>): seq<string> {
    if |names| < 2 then names else [names[0]] + names[2..]
  }

  function AllWritten(ws: seq<Weight>): seq<string> {
    if ws == [] then [] else AllWritten(ws[..|ws| - 1]) + WrittenNames(ws[|ws| - 1].names)
  }

  lemma WriteZerosAt(m: map<string, int>, names: seq<string>, k: nat, g: string)
    ensures g in WriteZeros(m, names, k) <==> g in m || exists i :: k <= i < |names| && names[i] == g
    ensures g in WriteZeros(m, names, k) ==>
              WriteZeros(m, names, k)[g] == if exists i :: k <= i < |names| && names[i] == g then 0 else m[g]
    decreases |names| - k
  {
    if k < |names| { WriteZerosAt(m[names[k] := 0], names, k + 1, g); }
  }

  /** Every nearest rounding is tolerable, up to 2^32 entries. */
  lemma NearestIsTolerable(ws: seq<Weight>, r: int, rnd: Rounding)
    requires ValidWeights(ws) && Nearest(ws, r, rnd) && 0 <= r
    ensures Tolerable(ws, r, rnd)
  {
    var n, s := |ws|, SumWeights(ws);
    forall e | e in ws ensures TolerableAt(rnd, n, e.weight, s, r) {
      if 0 <= e.weight <= s && 0 < s {
        DesiredRange(e.weight, s, r, rnd);
        HalfIsTolerable(n, s * rnd(e.weight, s, r) - e.weight * r, s);
      }
    }
  }

  lemma HalfIsTolerable(n: nat, x: int, s: int)
    requires n <= TWO_32 && 0 < s && 2 * x <= s
    ensures n * x <= TWO_31 * s
  {
    if x <= 0 { MulLe(n, x, 0); } else { MulLe(x, n, TWO_32); }
  }

  lemma ToleranceStep(n: nat, k: int, s: int, r: int, a: int, t: int, d: int, w: int)
    requires n * (s * a - r * t) <= k * (TWO_31 * s) && n * (s * d - w * r) <= TWO_31 * s
    ensures n * (s * (a + d) - r * (t + w)) <= (k + 1) * (TWO_31 * s)
  {
    assert s * (a + d) - r * (t + w) == (s * a - r * t) + (s * d - w * r);
    assert n * ((s * a - r * t) + (s * d - w * r)) == n * (s * a - r * t) + n * (s * d - w * r);
    assert (k + 1) * (TWO_31 * s) == k * (TWO_31 * s) + TWO_31 * s;
  }

  /** The tolerances of all entries add up. */
  lemma {:induction false} AllocatedTolerance(ws: seq<Weight>, n: nat, s: int, r: int, rnd: Rounding)
    requires TolerableFor(ws, n, s, r, rnd) && 0 <= r && 0 < s
    requires forall e :: e in ws ==> 0 <= e.weight <= s
    ensures 0 <= Allocated(ws, s, r, rnd)
    ensures n * (s * Allocated(ws, s, r, rnd) - r * SumWeights(ws)) <= |ws| * (TWO_31 * s)
  {
    if ws != [] {
      var m := |ws| - 1;
      AllocatedTolerance(ws[..m], n, s, r, rnd);
      assert ws[m] in ws && TolerableAt(rnd, n, ws[m].weight, s, r);
      ToleranceStep(n, m, s, r, Allocated(ws[..m], s, r, rnd), SumWeights(ws[..m]),
                    Desired(ws[m].weight, s, r, rnd), ws[m].weight);
    } else {
      assert s * Allocated(ws, s, r, rnd) == 0 && r * SumWeights(ws) == 0;
    }
  }

  lemma TolerableTotal(n: nat, s: int, r: int, a: int)
    requires 0 < n && 0 < s && n * (s * a - r * s) <= n * (TWO_31 * s)
    ensures a <= r + TWO_31
  {
    Cancel(n, s * a - r * s, TWO_31 * s);
    assert s * (r + TWO_31) == r * s + TWO_31 * s;
    Cancel(s, a, r + TWO_31);
  }

  /** Every value before the remainder is between 0 and the replicas, and below the sum of all. */
  lemma {:induction false} BaseRange(ws: seq<Weight>, n: nat, s: int, r: int, rnd: Rounding, g: string)
    requires TolerableFor(ws, n, s, r, rnd) && 0 <= r
    requires forall e :: e in ws ==> 0 <= e.weight <= s && e.names != []
    requires g in Base(ws, s, r, rnd)
    ensures 0 <= Base(ws, s, r, rnd)[g] <= Min(r, Allocated(ws, s, r, rnd))
  {
    var m := |ws| - 1;
    var e := ws[m];
    var before := Base(ws[..m], s, r, rnd);
    var d := Desired(e.weight, s, r, rnd);
    assert e in ws && TolerableAt(rnd, n, e.weight, s, r);
    if s > 0 { AllocatedTolerance(ws[..m], n, s, r, rnd); } else { AllocatedZero(ws[..m], r, rnd); }
    WriteZerosAt(before[e.names[0] := d], e.names, 2, g);
    if g in before { BaseRange(ws[..m], n, s, r, rnd, g); }
  }

  /** Every share that a call can return fits int32, whatever the recipient. */
  lemma ShareFits(ws: seq<Weight>, r: int, rnd: Rounding, g: string)
    requires ValidWeights(ws) && Tolerable(ws, r, rnd) && 0 <= r < TWO_31
    requires g in Base(ws, SumWeights(ws), r, rnd)
    ensures 0 <= Base(ws, SumWeights(ws), r, rnd)[g] <= r
    ensures -TWO_31 <= Left(ws, r, rnd) < TWO_31
    ensures -TWO_31 <= Base(ws, SumWeights(ws), r, rnd)[g] + Left(ws, r, rnd) <= r
  {
    var n, s := |ws|, SumWeights(ws);
    SumWeightsPrefix(ws, 0);
    WeightsWithinSum(ws);
    BaseRange(ws, n, s, r, rnd, g);
    if s > 0 {
      AllocatedTolerance(ws, n, s, r, rnd);
      TolerableTotal(n, s, r, Allocated(ws, s, r, rnd));
    } else {
      AllocatedZero(ws, r, rnd);
    }
  }

  /** The share map whose remainder goes to `g`. */
  function ShareFor(ws: seq<Weight>, r: int, rnd: Rounding, g: string): map<string, int>
    requires forall e :: e in ws ==> e.names != []
    requires g in Base(ws, SumWeights(ws), r, rnd)
  {
    var base := Base(ws, SumWeights(ws), r, rnd);
    base[g := base[g] + Left(ws, r, rnd)]
  }

  lemma RecipientIsShare(ws: seq<Weight>, r: int, rnd: Rounding, g: string)
    requires forall e :: e in ws ==> e.names != []
    requires g in Base(ws, SumWeights(ws), r, rnd)
    ensures IsShare(ws, r, rnd, ShareFor(ws, r, rnd, g))
  {
    if Left(ws, r, rnd) == 0 {
      assert ShareFor(ws, r, rnd, g) == Base(ws, SumWeights(ws), r, rnd);
    }
  }

  /* ---------- the method ---------- */

  lemma EntryStep(ws: seq<Weight>, i: nat, s: int, r: int, rnd: Rounding)
    requires i < |ws| && forall e :: e in ws ==> e.names != []
    ensures Base(ws[..i + 1], s, r, rnd) ==
              WriteEntry(Base(ws[..i], s, r, rnd), ws[i].names, Desired(ws[i].weight, s, r, rnd))
    ensures Allocated(ws[..i + 1], s, r, rnd) ==
              Allocated(ws[..i], s, r, rnd) + Desired(ws[i].weight, s, r, rnd)
  {
    assert ws[..i + 1][..i] == ws[..i];
  }

  /** The int64 running sum stays in range. */
  lemma SumStep(ws: seq<Weight>, i: nat)
    requires ValidWeights(ws) && i < |ws|
    ensures 0 <= SumWeights(ws[..i]) + ws[i].weight == SumWeights(ws[..i + 1]) < TWO_63
  {
    assert ws[..i + 1][..i] == ws[..i];
    SumWeightsPrefix(ws, i + 1);
  }

  /** The int32 remainder is exact whatever the running total did, and so is the recipient's sum. */
  lemma RemainderIsExact(ws: seq<Weight>, r: int, rnd: Rounding, g: string, left: int, turns: int)
    requires ValidWeights(ws) && Tolerable(ws, r, rnd) && 0 <= r < TWO_31
    requires g in Base(ws, SumWeights(ws), r, rnd)
    requires -TWO_31 <= left < TWO_31 && left == Left(ws, r, rnd) + turns * TWO_32
    ensures left == Left(ws, r, rnd)
    ensures -TWO_31 <= Base(ws, SumWeights(ws), r, rnd)[g] + left < TWO_31
  {
    ShareFits(ws, r, rnd, g);
    SameTurn(left, Left(ws, r, rnd), turns);
  }

  /** Adding the remainder to any key gives a share map; with no remainder the base map is one. */
  lemma HandoutIsShare(ws: seq<Weight>, r: int, rnd: Rounding, g: string)
    requires forall e :: e in ws ==> e.names != []
    requires g in Base(ws, SumWeights(ws), r, rnd)
    ensures var base, left := Base(ws, SumWeights(ws), r, rnd), Left(ws, r, rnd);
      IsShare(ws, r, rnd, if left != 0 then base[g := base[g] + left] else base)
  {
    RecipientIsShare(ws, r, rnd, g);
  }

  /** The map writes of one entry; the inner loop starts at the third name. */
  method AssignEntry(before: map<string, int>, names: seq<string>, desiredNum: int) returns (results: map<string, int>)
    requires names != []
    ensures results == WriteEntry(before, names, desiredNum) && names[0] in results
  {
    results := before[names[0] := desiredNum];
    if |names| > 1 {
      for i := 2 to |names|
        invariant names[0] in results
        invariant WriteEntry(before, names, desiredNum) == WriteZeros(results, names, i)
      {
        results := results[names[i] := 0];
      }
    }
  }

  /** The second loop: every entry's share is written and added to the int32 running total, which
      may wrap round. */
  method AllocateShares(weights: seq<Weight>, sum: int, replicaNum: int, rnd: Rounding)
    returns (results: map<string, int>, allocatedPodNum: int, ghost turns: int)
    requires forall e :: e in weights ==> e.names != []
    ensures results == Base(weights, sum, replicaNum, rnd)
    ensures allocatedPodNum == Allocated(weights, sum, replicaNum, rnd) - turns * TWO_32
    ensures weights != [] ==> results.Keys != {}
  {
    ghost var q;
    results, allocatedPodNum, turns := map[], 0, 0;
    for i := 0 to |weights|
      invariant results == Base(weights[..i], sum, replicaNum, rnd)
      invariant allocatedPodNum == Allocated(weights[..i], sum, replicaNum, rnd) - turns * TWO_32
      invariant i > 0 ==> results.Keys != {}
    {
      EntryStep(weights, i, sum, replicaNum, rnd);
      var desiredNum := if sum != 0 then rnd(weights[i].weight, sum, replicaNum) else 0;
      results := AssignEntry(results, weights[i].names, desiredNum);
      allocatedPodNum, q := AddInt32(allocatedPodNum, desiredNum);
      turns := turns + q;
    }
    assert weights[..|weights|] == weights;
  }

  /** Every sum, the running total, the remainder and the final addition use fixed-width
      arithmetic; the result is exact for every non-negative int32 replica count even when the
      running total wraps round. */
  method DesiredPodsNumInTargetNodeGroups(weights: seq<Weight>, replicaNum: int, rnd: Rounding)
    returns (results: map<string, int>)
    requires ValidWeights(weights) && Tolerable(weights, replicaNum, rnd) && 0 <= replicaNum < TWO_31
    ensures IsShare(weights, replicaNum, rnd, results)
  {
    results := map[];
    if |weights| == 0 {
      return;
    }
    ghost var q;
    var sum := 0;
    for i := 0 to |weights|
      invariant sum == SumWeights(weights[..i])
    {
      SumStep(weights, i);
      sum, q := AddInt64(sum, weights[i].weight);
    }
    assert weights[..|weights|] == weights;
    var allocatedPodNum;
    ghost var turns;  // how often allocatedPodNum has wrapped round
    results, allocatedPodNum, turns := AllocateShares(weights, sum, replicaNum, rnd);
    var leftPodNum;
    leftPodNum, q := AddInt32(replicaNum, -allocatedPodNum);
    var nodegroup :| nodegroup in results;
    RemainderIsExact(weights, replicaNum, rnd, nodegroup, leftPodNum, turns - q);
    HandoutIsShare(weights, replicaNum, rnd, nodegroup);
    if leftPodNum != 0 {
      var num;
      num, q := AddInt32(results[nodegroup], leftPodNum);
      SameTurn(num, results[nodegroup] + leftPodNum, -q);
      results := results[nodegroup := num];
    }
  }
}
