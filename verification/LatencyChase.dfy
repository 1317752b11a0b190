/** benchmark_loads of src/lat_bw/lat_mem_rd: a pointer chase unrolled 256 times. */
module LatencyChase {
  import opened Arithmetic
  import opened Words
  import opened MemLayout
  import opened Chase
  import opened Orders
  import opened RandomStream
  import opened Region
  import opened Patterns

  const UNROLL: nat := 256

  /** The addresses that the first k loads of a chase from a read, whatever memory holds. */
  ghost function Loads(l: Layout, m: seq<byte>, a: nat, k: nat): (t: seq<nat>)
    ensures |t| == k
  {
    if k == 0 then [] else Loads(l, m, a, k - 1) + [Hops(l, m, a, k - 1)]
  }

  /** Each of them is the address of a word. */
  ghost predicate Loadable(l: Layout, m: seq<byte>, a: nat, k: nat) {
    forall j :: 0 <= j < k ==> l.WordAt(Hops(l, m, a, j))
  }

  /** The addresses that the first k loads of a chase round a circular list read, in order. */
  ghost function Trace(l: Layout, order: seq<nat>, k: nat): (t: seq<nat>)
    requires Ring(l, order)
    ensures |t| == k
  {
    if k == 0 then [] else Trace(l, order, k - 1) + [l.AddrOf(order[(k - 1) % |order|])]
  }

  lemma {:induction false} TraceAt(l: Layout, order: seq<nat>, k: nat, j: nat)
    requires Ring(l, order) && j < k
    ensures Trace(l, order, k)[j] == l.AddrOf(order[j % |order|])
  {
    if j < k - 1 {
      TraceAt(l, order, k - 1, j);
    }
  }

  /** A trace of |order| loads is one lap: it reads every line of the list exactly once. */
  lemma LapReadsEachLineOnce(l: Layout, order: seq<nat>)
    requires Ring(l, order)
    ensures var t := Trace(l, order, |order|);
      && (forall k :: 0 <= k < |order| ==> t[k] == l.AddrOf(order[k]))
      && (forall j, k :: 0 <= j < k < |order| ==> t[j] != t[k])
  {
    var n, t := |order|, Trace(l, order, |order|);
    forall k | 0 <= k < n ensures t[k] == l.AddrOf(order[k]) {
      TraceAt(l, order, n, k);
      DivModUnique(k, n, 0, k);
    }
    forall j, k | 0 <= j < k < n ensures t[j] != t[k] {
      assert order[j] + WORD <= order[k] || order[k] + WORD <= order[j];
      ObjectsDisjoint(l, order[j], WORD, order[k], WORD);
    }
  }

  /** On a circular list a chase from its first place faults nowhere and goes round it. */
  lemma {:induction false} LoadsOnCycle(l: Layout, m: seq<byte>, order: seq<nat>, k: nat)
    requires IsCycle(l, m, order)
    ensures Loadable(l, m, l.AddrOf(order[0]), k)
    ensures Loads(l, m, l.AddrOf(order[0]), k) == Trace(l, order, k)
  {
    if k > 0 {
      LoadsOnCycle(l, m, order, k - 1);
      HopsOnCycle(l, m, order, 0, k - 1);
      LoadOnCycle(l, m, order, (k - 1) % |order|);
    }
  }

  /** p1 is where a chase from `start` stands after the loads listed, none of which faulted. */
  ghost predicate Chasing(l: Layout, m: seq<byte>, start: nat, p1: nat, loads: seq<nat>) {
    && loads == Loads(l, m, start, |loads|) && Loadable(l, m, start, |loads|)
    && p1 == Hops(l, m, start, |loads|)
  }

  /** LOOP1: p1 = (char **)*p1. It faults where p1 is the address of no word. */
  method Loop1(region: MemRegion, ghost start: nat, p: nat, ghost before: seq<nat>)
    returns (fault: bool, p1: nat, ghost loads: seq<nat>)
    requires region.Valid() && Chasing(region.layout, region.Bytes(), start, p, before)
    ensures fault == !Loadable(region.layout, region.Bytes(), start, |before| + 1)
    ensures !fault ==> Chasing(region.layout, region.Bytes(), start, p1, loads) && |loads| == |before| + 1
  {
    fault, p1, loads := !region.layout.WordAt(p), p, before;
    if !fault {
      p1 := region.LoadWord(p);
      loads := before + [p];
    }
  }

  method Loop4(region: MemRegion, ghost start: nat, p: nat, ghost before: seq<nat>)
    returns (fault: bool, p1: nat, ghost loads: seq<nat>)
    requires region.Valid() && Chasing(region.layout, region.Bytes(), start, p, before)
    ensures fault == !Loadable(region.layout, region.Bytes(), start, |before| + 4)
    ensures !fault ==> Chasing(region.layout, region.Bytes(), start, p1, loads) && |loads| == |before| + 4
  {
    hide Loads, Hops;
    fault, p1, loads := Loop1(region, start, p, before);
    if fault { return; }
    fault, p1, loads := Loop1(region, start, p1, loads);
    if fault { return; }
    fault, p1, loads := Loop1(region, start, p1, loads);
    if fault { return; }
    fault, p1, loads := Loop1(region, start, p1, loads);
  }

  method Loop16(region: MemRegion, ghost start: nat, p: nat, ghost before: seq<nat>)
    returns (fault: bool, p1: nat, ghost loads: seq<nat>)
    requires region.Valid() && Chasing(region.layout, region.Bytes(), start, p, before)
    ensures fault == !Loadable(region.layout, region.Bytes(), start, |before| + 16)
    ensures !fault ==> Chasing(region.layout, region.Bytes(), start, p1, loads) && |loads| == |before| + 16
  {
    hide Loads, Hops;
    fault, p1, loads := Loop4(region, start, p, before);
    if fault { return; }
    fault, p1, loads := Loop4(region, start, p1, loads);
    if fault { return; }
    fault, p1, loads := Loop4(region, start, p1, loads);
    if fault { return; }
    fault, p1, loads := Loop4(region, start, p1, loads);
  }

  method Loop64(region: MemRegion, ghost start: nat, p: nat, ghost before: seq<nat>)
    returns (fault: bool, p1: nat, ghost loads: seq<nat>)
    requires region.Valid() && Chasing(region.layout, region.Bytes(), start, p, before)
    ensures fault == !Loadable(region.layout, region.Bytes(), start, |before| + 64)
    ensures !fault ==> Chasing(region.layout, region.Bytes(), start, p1, loads) && |loads| == |before| + 64
  {
    hide Loads, Hops;
    fault, p1, loads := Loop16(region, start, p, before);
    if fault { return; }
    fault, p1, loads := Loop16(region, start, p1, loads);
    if fault { return; }
    fault, p1, loads := Loop16(region, start, p1, loads);
    if fault { return; }
    fault, p1, loads := Loop16(region, start, p1, loads);
  }

  method Loop256(region: MemRegion, ghost start: nat, p: nat, ghost before: seq<nat>)
    returns (fault: bool, p1: nat, ghost loads: seq<nat>)
    requires region.Valid() && Chasing(region.layout, region.Bytes(), start, p, before)
    ensures fault == !Loadable(region.layout, region.Bytes(), start, |before| + UNROLL)
    ensures !fault ==> Chasing(region.layout, region.Bytes(), start, p1, loads) && |loads| == |before| + UNROLL
  {
    hide Loads, Hops;
    fault, p1, loads := Loop64(region, start, p, before);
    if fault { return; }
    fault, p1, loads := Loop64(region, start, p1, loads);
    if fault { return; }
    fault, p1, loads := Loop64(region, start, p1, loads);
    if fault { return; }
    fault, p1, loads := Loop64(region, start, p1, loads);
  }

  /** Every pass starts at the start pointer and makes the same UNROLL * loopCount loads as a
      chase written as a plain loop; the final pointer is where such a chase ends, and it is an
      error if that is null. The first pass faults exactly when such a chase would. */
  method BenchmarkLoads(region: MemRegion, loopCount: nat, numIter: nat)
    returns (fault: bool, error: bool, p1: nat, ghost passes: seq<seq<nat>>)
    requires region.Valid() && region.size > 0
    ensures fault <==>
            numIter > 0 && !Loadable(region.layout, region.Bytes(), region.StartPoint(), UNROLL * loopCount)
    ensures !fault ==> |passes| == numIter
    ensures !fault ==> forall k :: 0 <= k < numIter ==>
              passes[k] == Loads(region.layout, region.Bytes(), region.StartPoint(), UNROLL * loopCount)
    ensures !fault ==> p1 == Hops(region.layout, region.Bytes(), region.StartPoint(),
                                  if numIter == 0 then 0 else UNROLL * loopCount)
    ensures !fault ==> error == (p1 == 0)
  {
    hide Loads;
    var start := region.StartPoint();
    fault, error, p1 := false, false, start;
    passes := [];
    var left := numIter;
    while left > 0
      invariant 0 <= left <= numIter && |passes| == numIter - left && !fault
      invariant forall k :: 0 <= k < |passes| ==>
                  passes[k] == Loads(region.layout, region.Bytes(), start, UNROLL * loopCount)
      invariant left < numIter ==> Loadable(region.layout, region.Bytes(), start, UNROLL * loopCount)
      invariant p1 == Hops(region.layout, region.Bytes(), start, if left == numIter then 0 else UNROLL * loopCount)
    {
      p1 := start;
      left := left - 1;
      ghost var loads;
      fault, p1, loads := OnePass(region, start, loopCount);
      if fault {
        return;
      }
      passes := passes + [loads];
    }
    error := p1 == 0;
  }

  /** The inner loop. */
  method OnePass(region: MemRegion, start: nat, loopCount: nat)
    returns (fault: bool, p1: nat, ghost loads: seq<nat>)
    requires region.Valid()
    ensures fault == !Loadable(region.layout, region.Bytes(), start, UNROLL * loopCount)
    ensures !fault ==> Chasing(region.layout, region.Bytes(), start, p1, loads) && |loads| == UNROLL * loopCount
  {
    fault, p1, loads := false, start, [];
    var i := 0;
    while i < loopCount
      invariant 0 <= i <= loopCount && |loads| == UNROLL * i && !fault
      invariant Chasing(region.layout, region.Bytes(), start, p1, loads)
    {
      fault, p1, loads := Loop256(region, start, p1, loads);
      if fault {
        return;
      }
      i := i + 1;
    }
  }

  /** When the unrolled loop divides the list into whole laps, as the set-up asserts, each
      pass ends where it started; it does so for no other loop count. */
  lemma PassEndsAtStart(l: Layout, m: seq<byte>, order: seq<nat>, loopCount: nat)
    requires IsCycle(l, m, order)
    ensures Hops(l, m, l.AddrOf(order[0]), UNROLL * loopCount) == l.AddrOf(order[0])
       <==> (UNROLL * loopCount) % |order| == 0
    ensures |order| % UNROLL == 0 && loopCount == |order| / UNROLL ==> UNROLL * loopCount == |order|
  {
    var x := (UNROLL * loopCount) % |order|;
    HopsOnCycle(l, m, order, 0, UNROLL * loopCount);
    if x != 0 {
      assert order[0] + WORD <= order[x] || order[x] + WORD <= order[0];
      ObjectsDisjoint(l, order[0], WORD, order[x], WORD);
    }
  }

  /** A pass that loads every line of the list, in its order, and none twice. */
  ghost predicate IsLap(l: Layout, order: seq<nat>, pass: seq<nat>)
    requires Ring(l, order)
  {
    && |pass| == |order|
    && (forall k :: 0 <= k < |order| ==> pass[k] == l.AddrOf(order[k]))
    && (forall j, k :: 0 <= j < k < |order| ==> pass[j] != pass[k])
  }

  /** A chase of fewer loads than the list is long leaves the lines after that unread. */
  lemma ShortPassMissesLines(l: Layout, order: seq<nat>, m: nat, k: nat)
    requires Ring(l, order) && m <= k < |order|
    ensures l.AddrOf(order[k]) !in Trace(l, order, m)
  {
    var t := Trace(l, order, m);
    forall j | 0 <= j < m ensures t[j] != l.AddrOf(order[k]) {
      TraceAt(l, order, m, j);
      DivModUnique(j, |order|, 0, j);
      assert order[j] + WORD <= order[k] || order[k] + WORD <= order[j];
      ObjectsDisjoint(l, order[j], WORD, order[k], WORD);
    }
  }

  /** The program from the choice of the pattern on: it threads the region, checks that the
      unrolled loop divides the lines, and measures. Every pass makes numActiveLines() loads.
      Where lines hold a pointer, they are those of the chase round the list: each line exactly
      once, and back to the start, if and only if the list has numActiveLines() lines. With
      narrower lines the loads are whatever the overlapping stores have left, and may fault. */
  method Measure(region: MemRegion, pattern: Pattern, rnd: Random, numIter: nat)
    returns (known: bool, fault: bool, error: bool, p1: nat, ghost passes: seq<seq<nat>>)
    requires region.Valid() && Storable(region, pattern) && region.size > 0
    requires region.NumActiveLines() % UNROLL == 0
    modifies region`order, region.region1, region.region2
    ensures known <==> !pattern.Unknown?
    ensures known ==> region.Valid() && OrderFor(region, pattern, region.order)
    ensures known ==> region.LinkedFrom(old(region.Bytes())) && |region.order| > 0
    ensures known ==>
              (fault <==> numIter > 0
                          && !Loadable(region.layout, region.Bytes(), region.StartPoint(), region.NumActiveLines()))
    ensures known && !fault ==> |passes| == numIter && forall k :: 0 <= k < numIter ==>
              passes[k] == Loads(region.layout, region.Bytes(), region.StartPoint(), region.NumActiveLines())
    ensures known && WORD <= region.lineSize ==>
              IsCycle(region.layout, region.Bytes(), region.order) && !fault && !error
    ensures known && WORD <= region.lineSize ==> forall k :: 0 <= k < numIter ==>
              && passes[k] == Trace(region.layout, region.order, region.NumActiveLines())
              && (IsLap(region.layout, region.order, passes[k]) <==>
                  LinesOf(region, pattern) == region.NumActiveLines())
    ensures known && WORD <= region.lineSize && LinesOf(region, pattern) == region.NumActiveLines() ==>
              p1 == region.StartPoint()
  {
    hide Loadable, MemRegion.LinkedFrom, IsCycle, Hops, Loads, OrderFor;
    known := Initialise(region, pattern, rnd);
    if !known {
      return false, false, true, 0, [];
    }
    var loopCount := region.NumActiveLines() / UNROLL;
    fault, error, p1, passes := BenchmarkLoads(region, loopCount, numIter);
    if WORD <= region.lineSize {
      WidePasses(region, pattern, old(region.Bytes()), if numIter == 0 then 0 else region.NumActiveLines());
    }
  }

  lemma WidePasses(region: MemRegion, pattern: Pattern, m0: seq<byte>, k: nat)
    requires region.Valid() && region.size > 0 && OrderFor(region, pattern, region.order) && |region.order| > 0
    requires region.LinkedFrom(m0) && WORD <= region.lineSize && k in {0, region.NumActiveLines()}
    requires region.activeSize > 0
    ensures IsCycle(region.layout, region.Bytes(), region.order)
    ensures var start, n := region.StartPoint(), region.NumActiveLines();
      && Loadable(region.layout, region.Bytes(), start, n)
      && Loads(region.layout, region.Bytes(), start, n) == Trace(region.layout, region.order, n)
      && (IsLap(region.layout, region.order, Trace(region.layout, region.order, n)) <==> LinesOf(region, pattern) == n)
      && Hops(region.layout, region.Bytes(), start, k) != 0
      && (LinesOf(region, pattern) == n ==> Hops(region.layout, region.Bytes(), start, k) == start)
  {
    hide IsCycle, OrderFor, Stored, Slots, Trace, Loads, Loadable;
    ListShape(region, pattern, region.order);
    LoadsOnCycle(region.layout, region.Bytes(), region.order, region.NumActiveLines());
    LapIff(region.layout, region.Bytes(), region.order, region.NumActiveLines());
    EndOfPass(region.layout, region.Bytes(), region.order, region.NumActiveLines(), k);
  }

  lemma LapIff(l: Layout, m: seq<byte>, order: seq<nat>, n: nat)
    requires IsCycle(l, m, order)
    ensures IsLap(l, order, Trace(l, order, n)) <==> |order| == n
  {
    LapReadsEachLineOnce(l, order);
  }

  lemma EndOfPass(l: Layout, m: seq<byte>, order: seq<nat>, n: nat, k: nat)
    requires IsCycle(l, m, order) && k in {0, n}
    ensures Hops(l, m, l.AddrOf(order[0]), k) != 0
    ensures |order| == n ==> Hops(l, m, l.AddrOf(order[0]), k) == l.AddrOf(order[0])
  {
    hide LinkedUpTo;
    HopsOnCycle(l, m, order, 0, k);
    LoadOnCycle(l, m, order, k % |order|);
    if |order| == n {
      HopsWithinTurn(l, m, order, 0, k);
    }
  }

  /** The list has numActiveLines() lines for both random patterns, and in stride order if and
      only if the stride divides the page and the page the active size; otherwise more. */
  lemma LengthIsActiveLines(region: MemRegion, pattern: Pattern)
    requires region.Valid() && 0 < region.activeSize
    ensures region.NumActiveLines() <= LinesOf(region, pattern)
    ensures LinesOf(region, pattern) == region.NumActiveLines() <==>
            (pattern.Stride? ==> region.pageSize % region.lineSize == 0 && region.activeSize % region.pageSize == 0)
  {
    StrideCountIsLineCount(region.activeSize, region.pageSize, region.lineSize,
                           region.numActivePages, region.numLinesInPage);
  }

  /** So strides of 96 bytes over 128 pages of 4 KB: 5376 loads, a number that the unrolled
      loop divides, and 5462 lines, the last 86 of which no pass reads. */
  lemma NinetySixByteStrides(region: MemRegion, k: nat)
    requires region.Valid() && Ring(region.layout, region.order) && OrderFor(region, Stride, region.order)
    requires region.activeSize == 128 * 4096 && region.pageSize == 4096 && region.lineSize == 96
    requires 5376 <= k < 5462
    ensures region.NumActiveLines() == 5376 == 21 * UNROLL && |region.order| == 5462
    ensures region.layout.AddrOf(region.order[k]) !in Trace(region.layout, region.order, region.NumActiveLines())
  {
    hide Trace;
    assert region.numActivePages == 128 && region.numLinesInPage == 42;
    ShortPassMissesLines(region.layout, region.order, 5376, k);
  }
}
