/** The source's rounding is float64 arithmetic. In the standard model of floating point every
    operation returns its exact result up to a relative error of 2^-53; that is enough to round to
    the nearest integer while weight sum times replicas stays within 2^50. */
module Floats {
  import opened Common
  import opened Api
  import opened Apportionment

  const TWO_50 := 0x4_0000_0000_0000

  /** `x` is the non-negative `y` up to a relative error of 2^-53. */
  predicate Close(x: real, y: real) {
    -y <= 9007199254740992.0 * (x - y) <= y
  }

  /** The conversion of a non-negative integer, exact up to 2^53. */
  predicate Converted(f: real, i: int) {
    Close(f, i as real) && (i <= 0x20_0000_0000_0000 ==> f == i as real)
  }

  /** The values the formula passes through. */
  datatype Steps = Steps(weight: real, sum: real, ratio: real, product: real, total: real)

  /** Two conversions, a quotient, a product with the exact int32 `r`, and the addition of one half. */
  ghost predicate IsFloat(w: int, s: int, r: int, f: Steps) {
    && Converted(f.weight, w) && Converted(f.sum, s) && f.sum != 0.0
    && Close(f.ratio, f.weight / f.sum)
    && Close(f.product, f.ratio * r as real)
    && Close(f.total, f.product + 0.5)
  }

  /** `d` is a value the float64 formula may return. */
  ghost predicate FloatAt(w: int, s: int, r: int, d: int) {
    exists f :: IsFloat(w, s, r, f) && d == f.total.Floor
  }

  ghost predicate IsFloat64(ws: seq<Weight>, r: int, rnd: Rounding) {
    var s := SumWeights(ws);
    s != 0 ==> forall e :: e in ws ==> FloatAt(e.weight, s, r, rnd(e.weight, s, r))
  }

  /** Scaling keeps the relative error. */
  lemma CloseScaled(x: real, y: real, a: real)
    requires 0.0 <= a && Close(x, y)
    ensures Close(x * a, y * a)
  {
    RealScale(-y, 9007199254740992.0 * (x - y), a);
    RealScale(9007199254740992.0 * (x - y), y, a);
    assert 9007199254740992.0 * (x - y) * a == 9007199254740992.0 * (x * a - y * a);
    assert -y * a == -(y * a);
  }

  /** A value within 0.47 of `x + s/2`, where everything else is an integer, truncates to a nearest
      integer. */
  lemma TruncatesToNearest(s: int, x: int, y: int, t: real)
    requires y as real <= t <= (y + s) as real
    requires -0.47 <= t - (x as real + 0.5 * s as real) <= 0.47
    ensures -s <= 2 * y - 2 * x <= s
  {
    assert (2 * y) as real <= (2 * x + s) as real + 0.94;
    assert (2 * x + s) as real - 0.94 <= (2 * y + 2 * s) as real;
  }

  lemma FloorScaled(d: real, t: real, s: real, y: real)
    requires 0.0 < s && d <= t <= d + 1.0 && y == d * s
    ensures y <= t * s <= y + s
  {
    var e := t - d;
    RealNonNegative(e, s);
    RealNonNegative(1.0 - e, s);
    assert e * s == t * s - y;
    assert (1.0 - e) * s == s - e * s;
  }

  lemma FloatFloor(s: int, t: real)
    requires 0 < s
    ensures (s * t.Floor) as real <= t * s as real <= (s * t.Floor + s) as real
  {
    var d := t.Floor;
    RealProduct(s, d);
    FloorScaled(d as real, t, s as real, (s * d) as real);
  }

  /** Three errors in a row. */
  lemma ErrorsAddUp(x: real, v: real, p: real, t: real)
    requires 0.0 <= x && Close(v, x) && Close(p, v) && Close(t, p + 0.5)
    ensures -(3.1 * x + 0.6) <= 9007199254740992.0 * (t - x - 0.5) <= 3.1 * x + 0.6
  {
  }

  lemma ExactQuota(w: int, s: int, r: int)
    requires s != 0
    ensures w as real / s as real * r as real * s as real == (w * r) as real
  {
    assert w as real / s as real * s as real == w as real;
    RealProduct(w, r);
  }

  /** The total's distance from the exact quota `x` plus one half. */
  lemma FloatError(w: int, s: int, r: int, f: Steps) returns (x: real)
    requires 0 <= w <= s <= TWO_50 && 0 < s && 0 <= r && IsFloat(w, s, r, f)
    ensures 0.0 <= x && x * s as real == (w * r) as real
    ensures -(3.1 * x + 0.6) <= 9007199254740992.0 * (f.total - x - 0.5) <= 3.1 * x + 0.6
  {
    var y := w as real / s as real;
    x := y * r as real;
    CloseScaled(f.ratio, y, r as real);
    ErrorsAddUp(x, f.ratio * r as real, f.product, f.total);
    ExactQuota(w, s, r);
  }

  lemma ScaledError(x: real, wr: real, s: real, sr: real, t: real)
    requires x * s == wr && 0.0 <= wr <= sr <= 1125899906842624.0 && 0.0 < s <= sr
    requires -(3.1 * x + 0.6) <= 9007199254740992.0 * (t - x - 0.5) <= 3.1 * x + 0.6
    ensures -0.47 <= t * s - (wr + 0.5 * s) <= 0.47
  {
    var e := 9007199254740992.0 * (t - x - 0.5);
    RealScale(e, 3.1 * x + 0.6, s);
    RealScale(-(3.1 * x + 0.6), e, s);
    assert e * s == 9007199254740992.0 * (t * s - wr - 0.5 * s);
    assert (3.1 * x + 0.6) * s == 3.1 * wr + 0.6 * s;
    assert -(3.1 * x + 0.6) * s == -(3.1 * wr + 0.6 * s);
  }

  lemma QuotaError(x: real, wr: int, s: int, sr: int, t: real)
    requires x * s as real == wr as real && 0 <= wr <= sr <= TWO_50 && 0 < s <= sr
    requires -(3.1 * x + 0.6) <= 9007199254740992.0 * (t - x - 0.5) <= 3.1 * x + 0.6
    ensures -0.47 <= t * s as real - (wr as real + 0.5 * s as real) <= 0.47
  {
    ScaledError(x, wr as real, s as real, sr as real, t);
  }

  lemma FloatWithZero(w: int, s: int, f: Steps)
    requires IsFloat(w, s, 0, f)
    ensures f.total.Floor == 0
  {
    assert f.ratio * 0.0 == 0.0;
  }

  lemma Sizes(w: int, s: int, r: int)
    requires 0 <= w <= s && 0 < s && 1 <= r
    ensures 0 <= w * r <= s * r && s <= s * r
  {
    MulLe(r, w, s);
    MulLe(r, 0, w);
    MulLe(s, 1, r);
  }

  lemma FloatNear(w: int, s: int, r: int, wr: int, f: Steps)
    requires 0 <= w <= s && 0 < s && 1 <= r && s * r <= TWO_50 && wr == w * r && IsFloat(w, s, r, f)
    ensures -0.47 <= f.total * s as real - (wr as real + 0.5 * s as real) <= 0.47
  {
    Sizes(w, s, r);
    var x := FloatError(w, s, r, f);
    QuotaError(x, wr, s, s * r, f.total);
  }

  lemma FloorToNearest(s: int, x: int, t: real)
    requires 0 < s && -0.47 <= t * s as real - (x as real + 0.5 * s as real) <= 0.47
    ensures -s <= 2 * (s * t.Floor) - 2 * x <= s
  {
    FloatFloor(s, t);
    TruncatesToNearest(s, x, s * t.Floor, t * s as real);
  }

  lemma FloatRoundsToNearest(w: int, s: int, r: int, wr: int, f: Steps)
    requires 0 <= w <= s && 0 < s && 1 <= r && s * r <= TWO_50 && wr == w * r && IsFloat(w, s, r, f)
    ensures -s <= 2 * (s * f.total.Floor) - 2 * wr <= s
  {
    FloatNear(w, s, r, wr, f);
    FloorToNearest(s, wr, f.total);
  }

  lemma FloatAtIsNearest(w: int, s: int, r: int, d: int)
    requires 0 <= w <= s && 0 < s && 0 <= r && s * r <= TWO_50
    ensures FloatAt(w, s, r, d) ==> -s <= 2 * (s * d) - 2 * (w * r) <= s
  {
    if f :| IsFloat(w, s, r, f) && d == f.total.Floor {
      if r == 0 {
        FloatWithZero(w, s, f);
        assert s * d == 0;
      } else {
        FloatRoundsToNearest(w, s, r, w * r, f);
      }
    }
  }

  /** The source's float64 formula is a nearest rounding for every policy and replica count with
      weight sum times replicas at most 2^50. */
  lemma FloatIsNearest(ws: seq<Weight>, r: int, rnd: Rounding)
    requires ValidWeights(ws) && 0 <= r && SumWeights(ws) * r <= TWO_50 && IsFloat64(ws, r, rnd)
    ensures Nearest(ws, r, rnd)
  {
    var s := SumWeights(ws);
    WeightsWithinSum(ws);
    forall e | e in ws ensures NearestAt(rnd, e.weight, s, r) {
      if s > 0 { FloatAtIsNearest(e.weight, s, r, rnd(e.weight, s, r)); }
    }
  }

  /* ---------- every valid policy ---------- */

  /** Both conversions and the quotient together are off by a relative error of at most 5 * 2^-53. */
  lemma RoughRatio(fw: real, fs: real, q: real, w: real, s: real) returns (y: real)
    requires 0.0 <= w <= s && 0.0 < s && Close(fw, w) && Close(fs, s)
    requires fs != 0.0 && Close(q, fw / fs)
    ensures 0.0 <= y <= 1.0 && y * s == w && 0.0 <= q && 9007199254740992.0 * (q - y) <= 5.0 * y
  {
    y := w / s;
    assert y * s == w;
    UnitRange(y, s, w);
    var z := fw / fs;
    assert z * fs == fw;
    if z < 0.0 { RealScaleStrict(z, 0.0, fs); }
    RatioError(fw, fs, w, s, y, z);
  }

  lemma UnitRange(y: real, s: real, w: real)
    requires 0.0 < s && 0.0 <= w <= s && y * s == w
    ensures 0.0 <= y <= 1.0
  {
    if y < 0.0 { RealScaleStrict(y, 0.0, s); }
    assert 1.0 * s == s;
    if y > 1.0 { RealScaleStrict(1.0, y, s); }
  }

  lemma RatioError(fw: real, fs: real, w: real, s: real, y: real, z: real)
    requires 0.0 < s && Close(fw, w) && Close(fs, s)
    requires y * s == w && z * fs == fw && 0.0 <= y && 0.0 <= z
    ensures 9007199254740992.0 * (z - y) <= 3.0 * y
  {
    RealScale(9007199254740991.0 * s, 9007199254740992.0 * fs, z);
    assert 9007199254740992.0 * fs * z == 9007199254740992.0 * fw;
    assert 9007199254740991.0 * s * z == (9007199254740991.0 * z) * s;
    assert (9007199254740993.0 * y) * s == 9007199254740993.0 * w;
    if 9007199254740991.0 * z > 9007199254740993.0 * y {
      RealScaleStrict(9007199254740993.0 * y, 9007199254740991.0 * z, s);
    }
  }

  lemma RoughProduct(q: real, y: real, r: real) returns (x: real, v: real)
    requires 0.0 <= y <= 1.0 && 0.0 <= q && 0.0 <= r && 9007199254740992.0 * (q - y) <= 5.0 * y
    ensures x == y * r && v == q * r
    ensures 0.0 <= x <= r && 0.0 <= v && 9007199254740992.0 * (v - x) <= 5.0 * x
  {
    x, v := y * r, q * r;
    RealScale(0.0, y, r);
    RealScale(y, 1.0, r);
    RealScale(0.0, q, r);
    RealScale(9007199254740992.0 * (q - y), 5.0 * y, r);
    assert 9007199254740992.0 * (q - y) * r == 9007199254740992.0 * (v - x);
    assert 5.0 * y * r == 5.0 * x;
  }

  lemma RoughSum(x: real, v: real, p: real, t: real)
    requires 0.0 <= x <= 2147483648.0 && 0.0 <= v && 9007199254740992.0 * (v - x) <= 5.0 * x
    requires Close(p, v) && Close(t, p + 0.5)
    ensures 0.0 <= t <= x + 0.6
  {
  }

  lemma RoughTotal(q: real, y: real, r: real, p: real, t: real) returns (x: real)
    requires 0.0 <= y <= 1.0 && 0.0 <= q && 0.0 <= r <= 2147483648.0 && 9007199254740992.0 * (q - y) <= 5.0 * y
    requires Close(p, q * r) && Close(t, p + 0.5)
    ensures x == y * r && 0.0 <= x <= r && 0.0 <= t <= x + 0.6
  {
    var v;
    x, v := RoughProduct(q, y, r);
    RoughSum(x, v, p, t);
  }

  lemma QuotaOf(x: real, y: real, s: real, w: real, r: real)
    requires y * s == w && x == y * r
    ensures x * s == w * r
  {
  }

  lemma QuotaAbove(y: real, q: real, w: int, s: int, r: int, p: real, t: real) returns (x: real)
    requires 0.0 <= y <= 1.0 && y * s as real == w as real && 0 <= r < TWO_31
    requires 0.0 <= q && 9007199254740992.0 * (q - y) <= 5.0 * y
    requires Close(p, q * r as real) && Close(t, p + 0.5)
    ensures x * s as real == (w * r) as real && x <= r as real && 0.0 <= t <= x + 0.6
  {
    x := RoughTotal(q, y, r as real, p, t);
    QuotaOf(x, y, s as real, w as real, r as real);
    RealProduct(w, r);
  }

  /** The total exceeds the exact quota `x` by at most 0.6, at every valid policy. */
  lemma FloatAbove(w: int, s: int, r: int, f: Steps) returns (x: real)
    requires 0 <= w <= s && 0 < s && 0 <= r < TWO_31 && IsFloat(w, s, r, f)
    ensures x * s as real == (w * r) as real && x <= r as real && 0.0 <= f.total <= x + 0.6
  {
    var y := RoughRatio(f.weight, f.sum, f.ratio, w as real, s as real);
    x := QuotaAbove(y, f.ratio, w, s, r, f.product, f.total);
  }

  lemma ScaledAbove(x: real, t: real, s: real, wr: real)
    requires 0.0 < s && x * s == wr && t <= x + 0.6
    ensures t * s <= wr + 0.6 * s
  {
    RealScale(t, x + 0.6, s);
    assert (x + 0.6) * s == x * s + 0.6 * s;
  }

  lemma FloorAbove(s: int, wr: int, r: int, x: real, t: real)
    requires 0 < s && x * s as real == wr as real && x <= r as real && 0.0 <= t <= x + 0.6
    ensures 0 <= t.Floor <= r && s * t.Floor - wr <= s
  {
    FloatFloor(s, t);
    ScaledAbove(x, t, s as real, wr as real);
  }

  lemma FloatAtIsTolerable(n: nat, w: int, s: int, r: int, d: int)
    requires n <= TWO_31 && 0 <= w <= s && 0 < s && 0 <= r < TWO_31
    ensures FloatAt(w, s, r, d) ==> 0 <= d <= r && n * (s * d - w * r) <= TWO_31 * s
  {
    if f :| IsFloat(w, s, r, f) && d == f.total.Floor {
      var x := FloatAbove(w, s, r, f);
      FloorAbove(s, w * r, r, x, f.total);
      OneIsTolerable(n, s * d - w * r, s);
    }
  }

  lemma OneIsTolerable(n: nat, x: int, s: int)
    requires n <= TWO_31 && x <= s
    ensures 0 < s ==> n * x <= TWO_31 * s
  {
    if x <= 0 { MulLe(n, x, 0); } else { MulLe(x, n, TWO_31); }
  }

  /** Whatever the weights and replicas, the float64 formula is exact enough for the allocator's
      fixed-width arithmetic, for lists of up to 2^31 entries. */
  lemma FloatIsTolerable(ws: seq<Weight>, r: int, rnd: Rounding)
    requires ValidWeights(ws) && |ws| <= TWO_31 && 0 <= r < TWO_31 && IsFloat64(ws, r, rnd)
    ensures Tolerable(ws, r, rnd)
  {
    var s := SumWeights(ws);
    forall e | e in ws ensures TolerableAt(rnd, |ws|, e.weight, s, r) {
      if 0 <= e.weight <= s && 0 < s {
        FloatAtIsTolerable(|ws|, e.weight, s, r, rnd(e.weight, s, r));
      }
    }
  }

  /** Just above 2^53 it need not be nearest: with weights 2^52 and 2^52+1 and one
      replica the formula gives the first entry, whose quota is below one half, a pod. */
  lemma FloatMayMiss(rnd: Rounding)
    requires rnd(0x10_0000_0000_0000, 0x20_0000_0000_0001, 1) == 1
    ensures FloatAt(0x10_0000_0000_0000, 0x20_0000_0000_0001, 1, 1)
    ensures var ws := [Weight(["a"], 0x10_0000_0000_0000), Weight(["b"], 0x10_0000_0000_0001)];
      ValidWeights(ws) && SumWeights(ws) == 0x20_0000_0000_0001 && !Nearest(ws, 1, rnd)
  {
    var w, s := 0x10_0000_0000_0000, 0x20_0000_0000_0001;
    assert IsFloat(w, s, 1, Steps(w as real, 0x20_0000_0000_0000 as real, 0.5, 0.5, 1.0));
    var ws := [Weight(["a"], w), Weight(["b"], 0x10_0000_0000_0001)];
    assert ws[..1] == [ws[0]] && [ws[0]][..0] == [];
    assert SumWeights([ws[0]]) == w;
    assert SumWeights(ws) == s;
    assert ws[0] in ws && !NearestAt(rnd, w, s, 1);
  }
}
