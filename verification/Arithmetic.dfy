/** Division, products and permutations of index ranges: the facts about integers that the
    other modules share. */
module Arithmetic {

  lemma MulAtLeast(d: int, n: int)
    requires n > 0
    ensures d >= 1 ==> d * n >= n
    ensures d <= -1 ==> d * n <= -n
  {
    if d >= 1 {
      assert (d - 1) * n >= 0;
    } else if d <= -1 {
      assert (-d - 1) * n >= 0;
    }
  }

  lemma MultipleMod(q: int, n: int)
    requires n > 0
    ensures (q * n) % n == 0 && (q * n) / n == q
  {
    DivModUnique(q * n, n, q, 0);
  }

  /** The only quotient and remainder of x by n are x / n and x % n. */
  lemma DivModUnique(x: int, n: int, q: int, r: int)
    requires n > 0 && 0 <= r < n && x == q * n + r
    ensures x / n == q && x % n == r
  {
    var q', r' := x / n, x % n;
    assert x == q' * n + r';
    assert (q - q') * n == r' - r;
    MulAtLeast(q - q', n);
  }

  /** Counting up by one: the remainder wraps exactly where the quotient steps. */
  lemma DivModSucc(x: nat, n: nat)
    requires n > 0
    ensures x % n + 1 == n ==> (x + 1) % n == 0 && (x + 1) / n == x / n + 1
    ensures x % n + 1 < n ==> (x + 1) % n == x % n + 1 && (x + 1) / n == x / n
  {
    if x % n + 1 == n {
      assert x + 1 == (x / n + 1) * n + 0;
      DivModUnique(x + 1, n, x / n + 1, 0);
    } else {
      assert x + 1 == (x / n) * n + (x % n + 1);
      DivModUnique(x + 1, n, x / n, x % n + 1);
    }
  }

  lemma MulMono(a: nat, b: nat, c: nat)
    requires a <= b
    ensures a * c <= b * c
  {
    assert (b - a) * c >= 0;
  }

  lemma MulSucc(k: nat, n: nat)
    ensures (k + 1) * n == k * n + n
  {}

  /** Different multiples of c are at least c apart. */
  lemma MulSpaced(a: nat, b: nat, c: nat)
    requires a < b
    ensures a * c + c <= b * c
  {
    MulMono(a + 1, b, c);
  }

  /** The position that follows k on a ring of n positions. */
  function Succ(k: nat, n: nat): (r: nat)
    requires k < n
    ensures r < n
  {
    if k + 1 == n then 0 else k + 1
  }

  /** The position k places further round the ring than i. */
  ghost function Advance(i: nat, n: nat, k: nat): (r: nat)
    requires i < n
    ensures r < n
  {
    if k == 0 then i else Succ(Advance(i, n, k - 1), n)
  }

  lemma {:induction false} AdvanceWithinTurn(i: nat, n: nat, k: nat)
    requires i < n && k <= n
    ensures Advance(i, n, k) == if i + k < n then i + k else i + k - n
  {
    if k > 0 {
      AdvanceWithinTurn(i, n, k - 1);
    }
  }

  function One(b: bool): nat { if b then 1 else 0 }

  ghost function Sum(v: seq<nat>): nat {
    if v == [] then 0 else v[0] + Sum(v[1..])
  }

  /** Changing one entry changes the sum by as much. */
  lemma {:induction false} SumUpdate(v: seq<nat>, i: nat, x: nat)
    requires i < |v|
    ensures Sum(v[i := x]) == Sum(v) - v[i] + x
  {
    if i == 0 {
      assert v[i := x][1..] == v[1..];
    } else {
      SumUpdate(v[1..], i - 1, x);
      assert v[i := x][1..] == v[1..][i - 1 := x];
    }
  }

  /** If no entry grows by more than d, neither does the sum by more than |v| * d. */
  lemma {:induction false} SumGrowth(v: seq<nat>, w: seq<nat>, d: nat)
    requires |v| == |w| && forall i :: 0 <= i < |v| ==> w[i] <= v[i] + d
    ensures Sum(w) <= Sum(v) + |v| * d
  {
    if v != [] {
      SumGrowth(v[1..], w[1..], d);
      MulSucc(|v| - 1, d);
    }
  }

  // ---------------------------------------------------------------- permutations

  ghost predicate Distinct<T>(s: seq<T>) {
    forall i, j :: 0 <= i < j < |s| ==> s[i] != s[j]
  }

  /** p lists each of 0, ..., n - 1 once. */
  ghost predicate IsPermutation(p: seq<nat>, n: nat) {
    |p| == n && Distinct(p) && forall k :: 0 <= k < n ==> p[k] < n
  }

  ghost function Elements<T>(s: seq<T>): set<T> {
    set x | x in s
  }

  lemma {:induction false} DistinctCardinality<T>(s: seq<T>)
    requires Distinct(s)
    ensures |Elements(s)| == |s|
  {
    if s == [] {
      assert Elements(s) == {};
    } else {
      var t := s[..|s| - 1];
      DistinctCardinality(t);
      assert s == t + [s[|s| - 1]];
      assert Elements(s) == Elements(t) + {s[|s| - 1]};
    }
  }

  ghost function Range(n: nat): (r: set<nat>)
    ensures forall x: nat :: x in r <==> x < n
  {
    if n == 0 then {} else Range(n - 1) + {n - 1}
  }

  lemma {:induction false} RangeCardinality(n: nat)
    ensures |Range(n)| == n
  {
    if n == 0 {
      assert Range(0) == {};
    } else {
      RangeCardinality(n - 1);
      assert Range(n) == Range(n - 1) + {n - 1};
    }
  }

  lemma SubsetCardinality<T>(a: set<T>, b: set<T>)
    requires a <= b
    ensures |a| <= |b|
    ensures |a| == |b| ==> a == b
  {
    assert b == a + (b - a);
    if |a| == |b| {
      assert |b - a| == 0;
    }
  }

  /** Pigeonhole: a permutation misses no value. */
  lemma PermutationOnto(p: seq<nat>, n: nat, v: nat)
    requires IsPermutation(p, n) && v < n
    ensures exists k :: 0 <= k < n && p[k] == v
  {
    DistinctCardinality(p);
    RangeCardinality(n);
    assert Elements(p) <= Range(n);
    SubsetCardinality(Elements(p), Range(n));
    assert v in Elements(p);
  }

  /** The integers lo, ..., hi - 1, and how many there are. */
  ghost function Interval(lo: nat, hi: nat): (r: set<nat>)
    ensures forall x: nat :: x in r <==> lo <= x < hi
    decreases hi
  {
    if hi <= lo then {} else Interval(lo, hi - 1) + {hi - 1}
  }

  lemma {:induction false} IntervalCardinality(lo: nat, hi: nat)
    requires lo <= hi
    ensures |Interval(lo, hi)| == hi - lo
    decreases hi
  {
    if lo == hi {
      assert Interval(lo, hi) == {};
    } else {
      IntervalCardinality(lo, hi - 1);
      assert Interval(lo, hi) == Interval(lo, hi - 1) + {hi - 1};
    }
  }
}
