/** Vocabulary shared by every module: optional values, Go's zero-valued map reads,
    fixed-width wrap-around, finite sums and counting. */
module Common {

  datatype Option<+T> = None | Some(value: T) {
    function GetOr(default: T): T { if Some? then value else default }
  }

  /** A Go `(value, error)` pair in which exactly one half is meaningful. */
  datatype Result<+T> = Ok(value: T) | Err

  /** Reading a Go map: a missing key yields the zero value. */
  function Lookup(m: map<string, int>, k: string): int {
    if k in m then m[k] else 0
  }

  /** The same read as a function value. */
  function Of(m: map<string, int>): string -> int {
    k => Lookup(m, k)
  }

  function Max(a: int, b: int): int { if a < b then b else a }

  function Min(a: int, b: int): int { if a < b then a else b }

  function Abs(a: int): int { if a < 0 then -a else a }

  /* ---------- int32 and int64 ---------- */

  const TWO_31 := 0x8000_0000
  const TWO_32 := 0x1_0000_0000
  const TWO_63 := 0x8000_0000_0000_0000
  const TWO_64 := 0x1_0000_0000_0000_0000

  /** int32 addition: the exact sum less some number of whole turns of 2^32, within range. */
  method AddInt32(a: int, b: int) returns (c: int, ghost turns: int)
    ensures -TWO_31 <= c < TWO_31
    ensures c == a + b - turns * TWO_32
  {
    c := (a + b + TWO_31) % TWO_32 - TWO_31;
    turns := (a + b + TWO_31) / TWO_32;
  }

  /** int64 addition. */
  method AddInt64(a: int, b: int) returns (c: int, ghost turns: int)
    ensures -TWO_63 <= c < TWO_63
    ensures c == a + b - turns * TWO_64
  {
    c := (a + b + TWO_63) % TWO_64 - TWO_63;
    turns := (a + b + TWO_63) / TWO_64;
  }

  /** Two int32 values a whole number of turns apart are equal. */
  lemma SameTurn(x: int, y: int, t: int)
    requires -TWO_31 <= x < TWO_31 && -TWO_31 <= y < TWO_31
    requires x == y + t * TWO_32
    ensures x == y
  {
    if t >= 1 {
    } else if t <= -1 {
    }
  }

  /** `c++` on an int32. */
  function Increment(c: int): int {
    if c == TWO_31 - 1 then -TWO_31 else c + 1
  }

  /** An int32 counter incremented `n` times from zero. */
  function Counter(n: nat): int {
    if n == 0 then 0 else Increment(Counter(n - 1))
  }

  lemma {:induction false} CounterBounds(n: nat)
    ensures -TWO_31 <= Counter(n) < TWO_31 && Counter(n) <= n
    ensures n < TWO_31 ==> Counter(n) == n
    ensures n == TWO_31 ==> Counter(n) == -TWO_31
  {
    if n > 0 { CounterBounds(n - 1); }
  }

  /** An int32 counter shows the number counted exactly below 2^31. */
  lemma CounterExactly(n: nat)
    ensures Counter(n) == n <==> n < TWO_31
  {
    CounterBounds(n);
  }

  /** Every int32 counter shows the number counted up to whole turns of 2^32. */
  lemma {:induction false} CounterTurns(n: nat)
    ensures Counter(n) == (n + TWO_31) % TWO_32 - TWO_31
  {
    if n > 0 { CounterTurns(n - 1); }
  }

  /** Two's-complement truncation to 64 bits. */
  function Wrap64(x: int): int { (x + TWO_63) % TWO_64 - TWO_63 }

  /** The only int64 value a whole number of turns away. */
  lemma Wrap64Is(c: int, x: int, turns: int)
    requires -TWO_63 <= c < TWO_63 && c == x - turns * TWO_64
    ensures c == Wrap64(x)
  {
    assert (x + TWO_63) / TWO_64 == turns;
  }

  /** Truncating an intermediate sum never changes the truncated final sum. */
  lemma Wrap64Add(x: int, y: int)
    ensures Wrap64(Wrap64(x) + y) == Wrap64(x + y)
  {
    var q := (x + TWO_63) / TWO_64;
    var p := (Wrap64(x) + y + TWO_63) / TWO_64;
    assert Wrap64(x) == x - q * TWO_64;
    Wrap64Is(Wrap64(Wrap64(x) + y), x + y, p + q);
  }

  lemma CountIfAtMost<T(!new)>(s: seq<T>, p: T -> bool)
    ensures CountIf(s, p) <= |s|
  {
  }

  /** Taking the last element of the second list off a concatenation. */
  lemma LastOfConcat<T>(a: seq<T>, b: seq<T>)
    requires b != []
    ensures a + b != [] && (a + b)[..|a + b| - 1] == a + b[..|b| - 1] && (a + b)[|a + b| - 1] == b[|b| - 1]
  {
  }

  lemma Associative<T>(a: seq<T>, b: seq<T>, c: seq<T>)
    ensures (a + b) + c == a + (b + c)
  {
  }

  /* ---------- sums over a finite set of keys ---------- */

  ghost function Sum(ks: set<string>, f: string -> int): int {
    if ks == {} then 0 else
      var k :| k in ks;
      f(k) + Sum(ks - {k}, f)
  }

  /** The sum does not depend on which key is taken out first. */
  lemma {:induction false} SumSplit(ks: set<string>, f: string -> int, k: string)
    requires k in ks
    ensures Sum(ks, f) == f(k) + Sum(ks - {k}, f)
  {
    var j :| j in ks && Sum(ks, f) == f(j) + Sum(ks - {j}, f);
    if j != k {
      SumSplit(ks - {j}, f, k);
      SumSplit(ks - {k}, f, j);
      assert ks - {j} - {k} == ks - {k} - {j};
    }
  }

  lemma {:induction false} SumLe(ks: set<string>, f: string -> int, h: string -> int)
    requires forall k :: k in ks ==> f(k) <= h(k)
    ensures Sum(ks, f) <= Sum(ks, h)
  {
    if ks != {} {
      var k :| k in ks;
      SumSplit(ks, f, k);
      SumSplit(ks, h, k);
      SumLe(ks - {k}, f, h);
    }
  }

  lemma SumEq(ks: set<string>, f: string -> int, h: string -> int)
    requires forall k :: k in ks ==> f(k) == h(k)
    ensures Sum(ks, f) == Sum(ks, h)
  {
    SumLe(ks, f, h);
    SumLe(ks, h, f);
  }

  /** Pointwise below with equal totals leaves no slack anywhere. */
  lemma SumTight(ks: set<string>, f: string -> int, h: string -> int, k: string)
    requires forall j :: j in ks ==> f(j) <= h(j)
    requires Sum(ks, f) >= Sum(ks, h)
    requires k in ks
    ensures f(k) == h(k)
  {
    SumSplit(ks, f, k);
    SumSplit(ks, h, k);
    SumLe(ks - {k}, f, h);
  }

  /** Sums are linear. */
  lemma {:induction false} SumLinear(ks: set<string>, e: string -> int,
                                     a: int, f: string -> int, b: int, h: string -> int)
    requires forall k :: k in ks ==> e(k) == a * f(k) + b * h(k)
    ensures Sum(ks, e) == a * Sum(ks, f) + b * Sum(ks, h)
  {
    if ks != {} {
      var k :| k in ks;
      SumSplit(ks, e, k);
      SumSplit(ks, f, k);
      SumSplit(ks, h, k);
      SumLinear(ks - {k}, e, a, f, b, h);
      Distribute(a, f(k), Sum(ks - {k}, f));
      Distribute(b, h(k), Sum(ks - {k}, h));
    }
  }

  lemma Distribute(a: int, x: int, y: int)
    ensures a * (x + y) == a * x + a * y
  {
  }

  /** A sum of terms that are each at most `c` in size is at most `c` times their number. */
  lemma {:induction false} SumBound(ks: set<string>, f: string -> int, c: int)
    requires forall k :: k in ks ==> -c <= f(k) <= c
    ensures -(|ks| * c) <= Sum(ks, f) <= |ks| * c
  {
    if ks != {} {
      var k :| k in ks;
      SumSplit(ks, f, k);
      SumBound(ks - {k}, f, c);
      var n := |ks - {k}|;
      assert |ks| == n + 1;
      assert (n + 1) * c == n * c + c;
    } else {
      assert |ks| * c == 0;
    }
  }

  /* ---------- counting list elements ---------- */

  ghost function CountIf<T(!new)>(s: seq<T>, p: T -> bool): nat {
    if s == [] then 0 else
      CountIf(s[..|s| - 1], p) + (if p(s[|s| - 1]) then 1 else 0)
  }

  lemma {:induction false} CountIfConcat<T(!new)>(a: seq<T>, b: seq<T>, p: T -> bool)
    ensures CountIf(a + b, p) == CountIf(a, p) + CountIf(b, p)
  {
    if b == [] {
      assert a + b == a;
    } else {
      CountIfConcat(a, b[..|b| - 1], p);
      assert (a + b)[..|a + b| - 1] == a + b[..|b| - 1];
    }
  }

  /** Counting splits at any position. */
  lemma CountIfAt<T(!new)>(s: seq<T>, i: nat, p: T -> bool)
    requires i < |s|
    ensures CountIf(s, p) == CountIf(s[..i], p) + (if p(s[i]) then 1 else 0) + CountIf(s[i + 1..], p)
  {
    assert s == s[..i] + [s[i]] + s[i + 1..];
    CountIfConcat(s[..i] + [s[i]], s[i + 1..], p);
    CountIfConcat(s[..i], [s[i]], p);
    assert CountIf([s[i]], p) == CountIf([], p) + (if p(s[i]) then 1 else 0) by {
      assert [s[i]][..0] == [];
    }
  }

  lemma CountIfUpdate<T(!new)>(s: seq<T>, i: nat, x: T, p: T -> bool)
    requires i < |s|
    ensures CountIf(s[i := x], p) == CountIf(s, p) - (if p(s[i]) then 1 else 0) + (if p(x) then 1 else 0)
  {
    CountIfAt(s, i, p);
    CountIfAt(s[i := x], i, p);
    assert s[i := x][..i] == s[..i];
    assert s[i := x][i + 1..] == s[i + 1..];
  }

  lemma CountIfRemove<T(!new)>(s: seq<T>, i: nat, p: T -> bool)
    requires i < |s|
    ensures CountIf(s[..i] + s[i + 1..], p) == CountIf(s, p) - (if p(s[i]) then 1 else 0)
  {
    CountIfAt(s, i, p);
    CountIfConcat(s[..i], s[i + 1..], p);
  }

  /** The count does not depend on the order of the list. */
  lemma {:induction false} CountIfPermutation<T(!new)>(a: seq<T>, b: seq<T>, p: T -> bool)
    requires multiset(a) == multiset(b)
    ensures CountIf(a, p) == CountIf(b, p)
  {
    if a == [] {
      assert |b| == |multiset(b)|;
    } else {
      var n := |a| - 1;
      var j := SameElement(a, b);
      CountIfPermutation(a[..n], b[..j] + b[j + 1..], p);
      CountIfRemove(b, j, p);
    }
  }

  /** The last element of a list occurs in every permutation of it; taking both occurrences away
      leaves permutations. */
  lemma SameElement<T(!new)>(a: seq<T>, b: seq<T>) returns (j: nat)
    requires a != [] && multiset(a) == multiset(b)
    ensures j < |b| && b[j] == a[|a| - 1]
    ensures multiset(a[..|a| - 1]) == multiset(b[..j] + b[j + 1..])
  {
    var n := |a| - 1;
    var x := a[n];
    assert a == a[..n] + [x];
    assert x in multiset(b);
    j :| 0 <= j < |b| && b[j] == x;
    assert b == b[..j] + [x] + b[j + 1..];
    assert multiset(b) == multiset(b[..j] + b[j + 1..]) + multiset{x};
    assert multiset(a[..n]) == multiset(a) - multiset{x};
  }

  lemma {:induction false} CountIfLe<T(!new)>(s: seq<T>, p: T -> bool, q: T -> bool)
    requires forall x :: x in s && p(x) ==> q(x)
    ensures CountIf(s, p) <= CountIf(s, q)
  {
    if s != [] {
      CountIfLe(s[..|s| - 1], p, q);
    }
  }

  lemma CountIfEq<T(!new)>(s: seq<T>, p: T -> bool, q: T -> bool)
    requires forall x :: x in s ==> p(x) == q(x)
    ensures CountIf(s, p) == CountIf(s, q)
  {
    CountIfLe(s, p, q);
    CountIfLe(s, q, p);
  }

  /** A non-zero count is attained somewhere. */
  lemma {:induction false} CountIfWitness<T(!new)>(s: seq<T>, p: T -> bool) returns (i: nat)
    requires CountIf(s, p) > 0
    ensures i < |s| && p(s[i])
  {
    var n := |s| - 1;
    if p(s[n]) { i := n; } else { i := CountIfWitness(s[..n], p); }
  }
}
