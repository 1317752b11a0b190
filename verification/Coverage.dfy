/** Which lines one piece of work of thread_rmw visits, and how often. */
module Coverage {
  import opened Arithmetic
  import opened Orders
  import opened ReadModifyWrite

  /** Position i is one of the k positions that start at h and go round a ring of n. */
  predicate InArc(i: nat, h: nat, k: nat, n: nat) {
    h <= i < h + k || h <= i + n < h + k
  }

  lemma {:induction false} TallySingle(n: nat, h: nat, k: nat, i: nat)
    requires h < n && i < n && k <= n
    ensures Tally(SingleStream, n, h, k)[i] == One(i < k)
    ensures Tally(ReadOnly, n, h, k)[i] == 0
  {
    if k > 0 {
      TallySingle(n, h, k - 1, i);
      AdvanceWithinTurn(0, n, k - 1);
    }
  }

  /** One position more reaches one place more. */
  lemma ArcStep(i: nat, h: nat, k: nat, n: nat)
    requires h < n && i < n && 0 < k <= n
    ensures One(InArc(i, h, k, n)) == One(InArc(i, h, k - 1, n)) + One(i == Advance(h, n, k - 1))
    ensures One(i < k) == One(i < k - 1) + One(i == Advance(0, n, k - 1))
  {
    AdvanceWithinTurn(0, n, k - 1);
    AdvanceWithinTurn(h, n, k - 1);
  }

  lemma {:induction false} TallyDual(n: nat, h: nat, k: nat, i: nat)
    requires h < n && i < n && k <= n
    ensures Tally(DualStream, n, h, k)[i] == One(i < k) + One(InArc(i, h, k, n))
  {
    if k > 0 {
      TallyDual(n, h, k - 1, i);
      ArcStep(i, h, k, n);
      IncTwice(Tally(DualStream, n, h, k - 1), Advance(0, n, k - 1), Advance(h, n, k - 1), i);
    }
  }

  lemma IncTwice(v: seq<nat>, a: nat, b: nat, i: nat)
    requires a < |v| && b < |v| && i < |v|
    ensures Inc(Inc(v, a), b)[i] == v[i] + One(i == a) + One(i == b)
  {}

  lemma {:induction false} SumInc(v: seq<nat>, i: nat)
    requires i < |v|
    ensures Sum(Inc(v, i)) == Sum(v) + 1
  {
    if i > 0 {
      SumInc(v[1..], i - 1);
      assert Inc(v, i)[1..] == Inc(v[1..], i - 1);
    } else {
      assert Inc(v, i)[1..] == v[1..];
    }
  }

  lemma {:induction false} SumZeros(n: nat)
    ensures Sum(Zeros(n)) == 0
  {
    if n > 0 {
      SumZeros(n - 1);
      assert Zeros(n)[1..] == Zeros(n - 1);
    }
  }

  /** Every turn of the dual stream updates two counters. */
  lemma {:induction false} SumTally(n: nat, h: nat, k: nat)
    requires h < n
    ensures Sum(Tally(DualStream, n, h, k)) == 2 * k
  {
    if k == 0 {
      SumZeros(n);
    } else {
      SumTally(n, h, k - 1);
      var v := Tally(DualStream, n, h, k - 1);
      SumInc(v, Advance(0, n, k - 1));
      SumInc(Inc(v, Advance(0, n, k - 1)), Advance(h, n, k - 1));
    }
  }

  /** The visits of one whole piece of work on a list of n lines. */
  ghost function PassTally(mode: Mode, n: nat, h: nat): (v: seq<nat>)
    requires h < n
    ensures |v| == n
  {
    Tally(mode, n, h, Turns(mode, n))
  }

  /** The positions visited exactly t times. */
  ghost function Visited(v: seq<nat>, t: nat): (s: set<nat>)
    ensures forall i: nat :: i in s <==> i < |v| && v[i] == t
  {
    set i: nat | 0 <= i < |v| && v[i] == t
  }

  /** v counts the visits of two streams of q turns each, the second starting at h. */
  ghost predicate TwoStreams(v: seq<nat>, n: nat, q: nat, h: nat) {
    |v| == n && forall i :: 0 <= i < n ==> v[i] == One(i < q) + One(InArc(i, h, q, n))
  }

  lemma PassIsTwoStreams(n: nat, h: nat)
    requires h < n
    ensures TwoStreams(PassTally(DualStream, n, h), n, n / 2, h)
  {
    forall i | 0 <= i < n
      ensures PassTally(DualStream, n, h)[i] == One(i < n / 2) + One(InArc(i, h, n / 2, n))
    {
      TallyDual(n, h, n / 2, i);
    }
  }

  lemma EarlyVisits(v: seq<nat>, q: nat, h: nat, i: nat)
    requires TwoStreams(v, 2 * q, q, h) && h <= q && i < 2 * q
    ensures v[i] == 2 <==> h <= i < q
    ensures v[i] == 0 <==> q + h <= i
  {}

  lemma VisitedCount(v: seq<nat>, t: nat, lo: nat, hi: nat)
    requires lo <= hi <= |v| && forall i :: 0 <= i < |v| ==> (v[i] == t <==> lo <= i < hi)
    ensures |Visited(v, t)| == hi - lo
  {
    assert Visited(v, t) == Interval(lo, hi);
    IntervalCardinality(lo, hi);
  }

  lemma EarlyHalfPoint(v: seq<nat>, q: nat, h: nat)
    requires TwoStreams(v, 2 * q, q, h) && h <= q
    ensures |Visited(v, 2)| == |Visited(v, 0)| == q - h
  {
    forall i | 0 <= i < 2 * q ensures (v[i] == 2 <==> h <= i < q) && (v[i] == 0 <==> q + h <= i) {
      EarlyVisits(v, q, h, i);
    }
    VisitedCount(v, 2, h, q);
    VisitedCount(v, 0, q + h, 2 * q);
  }

  lemma LateHalfPoint(v: seq<nat>, q: nat, h: nat)
    requires TwoStreams(v, 2 * q, q, h) && q < h < 2 * q
    ensures |Visited(v, 2)| == |Visited(v, 0)| == h - q
  {
    VisitedCount(v, 2, 0, h - q);
    VisitedCount(v, 0, q, h);
  }

  /** Dual-stream coverage for any half point h of a list of even length: no line is updated
      more than twice, there are n updates, and as many lines are updated twice as are
      missed, namely the distance of h from the middle. */
  lemma DualCoverage(n: nat, h: nat)
    requires h < n && n % 2 == 0
    ensures var v := PassTally(DualStream, n, h);
      && (forall i :: 0 <= i < n ==> v[i] <= 2)
      && Sum(v) == n
      && |Visited(v, 2)| == |Visited(v, 0)| == if h <= n / 2 then n / 2 - h else h - n / 2
  {
    var q, v := n / 2, PassTally(DualStream, n, h);
    SumTally(n, h, q);
    PassIsTwoStreams(n, h);
    if h <= q {
      EarlyHalfPoint(v, q, h);
    } else {
      LateHalfPoint(v, q, h);
    }
  }

  /** The two streams together update every line exactly once if and only if the list has
      even length and the half point is its middle. */
  lemma DualExact(n: nat, h: nat)
    requires h < n
    ensures (forall i :: 0 <= i < n ==> PassTally(DualStream, n, h)[i] == 1) <==> n % 2 == 0 && h == n / 2
  {
    var q, v := n / 2, PassTally(DualStream, n, h);
    PassIsTwoStreams(n, h);
    if n % 2 == 1 {
      assert v[if h <= q then n - 1 else q] != 1;
    } else if h != q {
      assert v[if h < q then n - 1 else q] != 1;
    }
  }

  /** A single stream updates every line exactly once, whatever the list. */
  lemma SingleExact(n: nat, h: nat, i: nat)
    requires h < n && i < n
    ensures PassTally(SingleStream, n, h)[i] == 1
    ensures PassTally(ReadOnly, n, h)[i] == 0
  {
    TallySingle(n, h, n, i);
  }

  /** A single stream of m turns, no more than there are lines, updates every line exactly once
      if and only if m is the number of lines; otherwise it leaves the rest alone. */
  lemma ShortSingleStream(n: nat, h: nat, m: nat)
    requires h < n && m <= n
    ensures (forall i :: 0 <= i < n ==> Tally(SingleStream, n, h, m)[i] == 1) <==> m == n
    ensures forall i :: m <= i < n ==> Tally(SingleStream, n, h, m)[i] == 0
  {
    forall i | 0 <= i < n ensures Tally(SingleStream, n, h, m)[i] == One(i < m) {
      TallySingle(n, h, m, i);
    }
    if m < n {
      assert Tally(SingleStream, n, h, m)[m] != 1;
    }
  }

  // ---------------------------------------------------------------- half points

  /** On a stride list of even length, half the active size is the middle of the list exactly
      when the lines fill the active size. */
  lemma StrideHalfPoint(active: nat, line: nat)
    requires 1 < line && 0 < active && StrideCount(active, line) % 2 == 0
    ensures (StrideCount(active, line) / 2) * line == active / 2 <==> active % line == 0
  {
    var n := StrideCount(active, line);
    var q := n / 2;
    StrideCountBounds(active, line);
    assert n * line == (q * line) * 2;
    if q * line == active / 2 {
      assert active == n * line || active == n * line + 1;
      MultipleMod(n, line);
    }
    if active % line == 0 {
      var c := active / line;
      assert active == c * line;
      DivModUnique(active + line - 1, line, c, line - 1);
    }
  }

  /** On a page-ordered list of an even number of pages that fill the active size, half the
      active size is the start of the middle page, which is the middle of the list. */
  lemma PageHalfPoint(r: seq<nat>, active: nat, page: nat, count: nat, line: nat)
    requires 0 < line && 0 < page && 0 < count && 0 < active && active % page == 0 && (active / page) % 2 == 0
    requires AnyOrderInPage(r, active / page, page, count, line)
    ensures |r| % 2 == 0 && |r| > 0 && r[|r| / 2] == active / 2
  {
    hide AnyOrderInPage;
    var pages := active / page;
    assert active == pages * page;
    assert pages == 0 ==> pages * page == 0;
    MiddlePage(r, pages, pages / 2, page, count, line);
  }

  lemma MiddlePage(r: seq<nat>, pages: nat, q: nat, page: nat, count: nat, line: nat)
    requires 0 < line && 0 < count && pages == 2 * q && 0 < q && AnyOrderInPage(r, pages, page, count, line)
    ensures |r| % 2 == 0 && |r| > 0 && r[|r| / 2] == (pages * page) / 2
  {
    hide AnyOrderInPage;
    PageOrderCovers(r, pages, page, count, line, q, 0);
    DoubleProduct(pages, q, count);
    DoubleProduct(pages, q, page);
    MulMono(1, q, count);
  }

  lemma DoubleProduct(a: nat, q: nat, b: nat)
    requires a == 2 * q
    ensures a * b == 2 * (q * b)
  {}
}
