/** The set-up of src/coherence/multiple_rdwr.hh, and what the whole program does to the
    partitions it sets up. */
module MultipleRdwr {
  import opened Arithmetic
  import opened Words
  import opened Wrappers
  import opened MemLayout
  import opened Chase
  import opened Orders
  import opened RandomStream
  import opened Shuffle
  import opened Region
  import opened Patterns
  import opened ReadModifyWrite
  import opened Coverage
  import opened RmwWork
  import opened HalfPoints
  import opened TurnProtocol
  import Pipeline

  /** A partition as the set-up leaves it: one allocation with one circular list from offset 0
      with room for counters, all of which, and all other bytes outside the links, are 0. */
  ghost predicate Threaded(region: MemRegion, pattern: Pattern)
    reads region, region.region1, region.region2
  {
    && region.Valid() && region.size == region.activeSize && region.layout.size2 == 0
    && IsCycle(region.layout, region.Bytes(), region.order)
    && CountedRing(region.layout, region.order)
    && OrderFor(region, pattern, region.order) && ClearOutside(region.Bytes(), region.order)
    && forall k :: 0 <= k < |region.order| ==> Word(region.Bytes(), region.order[k] + COUNTER) == 0
  }

  /** Cleared memory. */
  function Cleared(n: nat): (m: seq<byte>)
    ensures |m| == n && forall j :: 0 <= j < n ==> m[j] == 0
  {
    seq(n, _ => 0)
  }

  /** A partition made to measure: one allocation, linked from cleared memory. */
  ghost predicate MadeAs(region: MemRegion, pattern: Pattern, bytes: nat, page: nat, stride: nat)
    reads region, region.region1, region.region2
  {
    && region.Valid() && region.size == region.activeSize == bytes && region.layout.size2 == 0
    && region.pageSize == page && region.lineSize == stride
    && OrderFor(region, pattern, region.order) && |region.order| > 0 && region.LinkedFrom(Cleared(bytes))
  }

  /** Sizes with which each pointer is stored inside a partition of `bytes` bytes. */
  predicate StoresInside(bytes: nat, page: nat, stride: nat, pattern: Pattern) {
    && 0 < stride && 0 < page && 0 < bytes
    && match pattern
       case Stride => (StrideCount(bytes, stride) - 1) * stride + WORD <= bytes
       case PageRand =>
         stride <= page <= bytes && (bytes / page - 1) * page + (page / stride - 1) * stride + WORD <= bytes
       case AllRand =>
         stride <= page <= bytes && ((bytes / page) * (page / stride) - 1) * stride + WORD <= bytes
       case Unknown => true
  }

  /** Sizes with which moreover every line of a partition holds a link and a counter. */
  predicate SizesFit(bytes: nat, page: nat, stride: nat, pattern: Pattern) {
    && LINE_MIN <= stride && 0 < page
    && if pattern.Stride? then 0 < bytes && (StrideCount(bytes, stride) - 1) * stride + LINE_MIN <= bytes
       else stride <= page <= bytes
  }

  lemma WideStoresInside(bytes: nat, page: nat, stride: nat, pattern: Pattern)
    requires SizesFit(bytes, page, stride, pattern)
    ensures StoresInside(bytes, page, stride, pattern)
  {
    if !pattern.Stride? {
      LastStore(bytes, page, stride, bytes / page, page / stride);
    }
  }

  /** The last line in whole pages, a link in it, and the last line of the last page. */
  lemma LastStore(bytes: nat, page: nat, stride: nat, p: nat, n: nat)
    requires WORD <= stride <= page <= bytes && p == bytes / page && n == page / stride
    ensures (p * n - 1) * stride + WORD <= bytes
    ensures (p - 1) * page + (n - 1) * stride + WORD <= bytes
  {
    assert bytes == p * page + bytes % page && page == n * stride + page % stride;
    assert p == 0 ==> p * page == 0;
    assert n == 0 ==> n * stride == 0;
    assert (p - 1) * page == p * page - page && (n - 1) * stride == n * stride - stride;
    assert (p * n - 1) * stride == (p * n) * stride - stride;
    assert (p * n) * stride == p * (n * stride);
    MulMono(n * stride, page, p);
  }

  lemma StoresAreInside(region: MemRegion, pattern: Pattern)
    requires region.Valid() && region.layout.size2 == 0 && region.size == region.activeSize < TWO32
    requires StoresInside(region.size, region.pageSize, region.lineSize, pattern)
    ensures Storable(region, pattern)
  {
    var l, line := region.layout, region.lineSize;
    match pattern
    case Stride =>
      var n := StrideCount(region.activeSize, line);
      StrideCountBounds(region.activeSize, line);
      forall k | 0 <= k < n ensures l.Fits(k * line, WORD) {
        MulMono(k, n - 1, line);
      }
    case PageRand =>
      LinesBelow(region);
      PageStoresAreInside(region);
    case AllRand =>
      LinesBelow(region);
      var n := region.NumActiveLines();
      forall k | 0 <= k < n ensures l.Fits(k * line, WORD) {
        MulMono(k, n - 1, line);
      }
    case Unknown =>
  }

  lemma PageStoresAreInside(region: MemRegion)
    requires region.Valid() && region.layout.size2 == 0 && region.size == region.activeSize
    requires StoresInside(region.size, region.pageSize, region.lineSize, PageRand)
    ensures region.PageStoresFit()
  {
    var pages, lines := region.numActivePages, Scaled(Identity(region.numLinesInPage), region.lineSize);
    var r := PageOrder(pages, lines, region.pageSize);
    forall x | 0 <= x < |r| ensures region.layout.Fits(r[x], WORD) {
      var i, j := PageOrderSplit(pages, lines, region.pageSize, x);
      MulMono(i, pages - 1, region.pageSize);
      MulMono(j, region.numLinesInPage - 1, region.lineSize);
    }
  }

  /** Line counts stay below the size in bytes. */
  lemma LinesBelow(region: MemRegion)
    requires region.HasLines()
    ensures region.numLinesInPage <= region.NumActiveLines() <= region.activeSize
  {
    var p, n := region.numActivePages, region.numLinesInPage;
    region.LinesExist();
    assert region.activeSize == p * region.pageSize + region.activeSize % region.pageSize;
    assert region.pageSize == n * region.lineSize + region.pageSize % region.lineSize;
    MulMono(1, region.lineSize, n);
    MulMono(n, region.pageSize, p);
    MulMono(1, p, n);
  }

  /** The slots of each pattern are wide enough for counters. */
  lemma RoomForCounters(region: MemRegion, pattern: Pattern, order: seq<nat>)
    requires region.Valid() && region.layout.size2 == 0 && region.size == region.activeSize
    requires SizesFit(region.size, region.pageSize, region.lineSize, pattern)
    requires OrderFor(region, pattern, order)
    ensures CountedRing(region.layout, order)
  {
    var l, line := region.layout, region.lineSize;
    if !pattern.Stride? {
      region.LinesFit();
    }
    match pattern
    case Stride =>
      var n := StrideCount(region.activeSize, line);
      StrideCountBounds(region.activeSize, line);
      ScaledSpaced(Identity(n), line);
      forall k | 0 <= k < n ensures k * line + LINE_MIN <= l.Size() {
        MulMono(k, n - 1, line);
      }
      ScaledSlots(l, Identity(n), line, LINE_MIN);
      SpacedWider(order, LINE_MIN, line);
      WideLinesAreClear(order);
    case PageRand =>
      var perm :| FromZero(perm, region.numLinesInPage)
                  && order == PageOrder(region.numActivePages, Scaled(perm, line), region.pageSize);
      ScaledInPage(perm, region.pageSize, line);
      PageOrderSpaced(region.numActivePages, Scaled(perm, line), region.pageSize, line);
      PageOrderSlots(l, region.numActivePages, perm, region.pageSize, line, LINE_MIN);
      SpacedWider(order, LINE_MIN, line);
      WideLinesAreClear(order);
      MulMono(1, region.numActivePages, region.numLinesInPage);
    case AllRand =>
      var perm :| FromZero(perm, region.NumActiveLines()) && order == Scaled(perm, line);
      ScaledSpaced(perm, line);
      forall k | 0 <= k < |perm| ensures perm[k] * line + LINE_MIN <= l.Size() {
        MulSpaced(perm[k], region.NumActiveLines(), line);
      }
      ScaledSlots(l, perm, line, LINE_MIN);
      SpacedWider(order, LINE_MIN, line);
      WideLinesAreClear(order);
  }

  /** Linking writes no counter, so in cleared memory the counters stay 0. */
  lemma CountersStayClear(l: Layout, m0: seq<byte>, m: seq<byte>, order: seq<nat>, k: nat)
    requires CountedRing(l, order) && |m0| == l.Size() && SameOutside(m0, m, order, 0, WORD)
    requires forall j :: 0 <= j < |m0| ==> m0[j] == 0
    requires k < |order|
    ensures Word(m, order[k] + COUNTER) == 0
  {
    var o := order[k] + COUNTER;
    forall j | o <= j < o + WORD ensures m[j] == 0 {
      CounterBytesAreNotLinks(l, order, k, j);
    }
    DecodeZero(m[o..o + WORD]);
  }

  lemma CounterBytesAreNotLinks(l: Layout, order: seq<nat>, k: nat, j: nat)
    requires CountedRing(l, order) && k < |order| && order[k] + COUNTER <= j < order[k] + LINE_MIN
    ensures !InField(order, 0, WORD, j)
  {
    forall i | 0 <= i < |order| ensures !(order[i] + 0 <= j < order[i] + 0 + WORD) {
      assert order[k] + COUNTER + WORD <= order[i] || order[i] + WORD <= order[k] + COUNTER;
    }
  }

  /** The addresses of the region lie between these two. */
  ghost predicate Inside(region: MemRegion, first: nat, limit: nat) {
    first <= region.layout.addr1 && region.layout.addr1 + region.layout.size1 <= limit
  }

  /** The region starts at the page boundary next after what malloc answered. */
  ghost predicate AtPage(region: MemRegion, raw: nat, osPage: pos) {
    region.layout.addr1 % osPage == 0 && raw < region.layout.addr1 <= raw + osPage
  }

  /** The address ranges of two partitions do not overlap. */
  ghost predicate Apart(a: MemRegion, b: MemRegion) {
    || a.layout.addr1 + a.layout.size1 <= b.layout.addr1
    || b.layout.addr1 + b.layout.size1 <= a.layout.addr1
  }

  lemma InsideApart(a: MemRegion, first: nat, limit: nat, b: MemRegion, first': nat, limit': nat)
    requires Inside(a, first, limit) && Inside(b, first', limit') && (limit <= first' || limit' <= first)
    ensures Apart(a, b)
  {}

  /** MemRegionExt with the pattern chosen for it; an unknown pattern ends the program. */
  method NewPartition(bytes: nat, page: pos, stride: pos, pattern: Pattern, osPage: pos, raw: nat, rnd: Random)
    returns (r: Option<MemRegion>)
    requires StoresInside(bytes, page, stride, pattern) && bytes < TWO32
    requires 0 < raw && raw + bytes + osPage <= TWO64
    ensures r.None? <==> pattern.Unknown?
    ensures r.Some? ==> fresh(r.value) && fresh(r.value.region1) && fresh(r.value.region2)
    ensures r.Some? ==> MadeAs(r.value, pattern, bytes, page, stride) && DrawnAs(r.value, pattern, rnd)
    ensures r.Some? ==> Inside(r.value, raw, raw + bytes + osPage) && AtPage(r.value, raw, osPage)
  {
    assert 0 < bytes;
    hide StoresInside, Storable, OrderFor, DrawnAs, Inside, AtPage;
    hide MemRegion.LinkedFrom, MemRegion.Valid, MemRegion.Bytes;
    if pattern.Unknown? {
      return None;
    }
    var region := ClearPartition(bytes, page, stride, osPage, raw);
    StoresAreInside(region, pattern);
    var known := Initialise(region, pattern, rnd);
    return Some(region);
  }

  /** The allocation alone. */
  method ClearPartition(bytes: nat, page: pos, stride: pos, osPage: pos, raw: nat) returns (region: MemRegion)
    requires 0 < bytes && 0 < raw && raw + bytes + osPage <= TWO64
    ensures fresh(region) && fresh(region.region1) && fresh(region.region2)
    ensures region.Valid() && region.size == region.activeSize == bytes && region.layout.size2 == 0
    ensures region.pageSize == page && region.lineSize == stride && region.Bytes() == Cleared(bytes)
    ensures Inside(region, raw, raw + bytes + osPage) && AtPage(region, raw, osPage)
  {
    hide AlignedAddr, Layout.Valid, MemRegion.Valid, LayoutFor;
    PartitionLayout(bytes, osPage, raw);
    region := new MemRegion(bytes, page, stride, LayoutFor(Padded(raw), bytes, Padded(0), 0, osPage));
  }

  lemma PartitionLayout(bytes: nat, osPage: pos, raw: nat)
    requires 0 < bytes && 0 < raw && raw + bytes + osPage <= TWO64
    ensures var l := LayoutFor(Padded(raw), bytes, Padded(0), 0, osPage);
      && l.Valid() && l.size1 == bytes && l.size2 == 0 && l.addr1 + bytes <= raw + bytes + osPage
      && l.addr1 % osPage == 0 && raw < l.addr1 <= raw + osPage
  {
    hide AlignedAddr;
    LayoutForValid(Padded(raw), bytes, Padded(0), 0, osPage);
    AlignedAddrFits(raw, osPage, bytes);
  }

  /** Lines of five words or more make a threaded partition. */
  lemma IsThreaded(region: MemRegion, pattern: Pattern, bytes: nat, page: nat, stride: nat)
    requires MadeAs(region, pattern, bytes, page, stride) && SizesFit(bytes, page, stride, pattern)
    ensures Threaded(region, pattern)
  {
    RoomForCounters(region, pattern, region.order);
    forall k | 0 <= k < |region.order| ensures Word(region.Bytes(), region.order[k] + COUNTER) == 0 {
      CountersStayClear(region.layout, Cleared(bytes), region.Bytes(), region.order, k);
    }
  }

  /** The partitions so far, alike except for where they are and what is drawn for them. */
  ghost predicate AllMade(regions: seq<MemRegion>, pattern: Pattern, bytes: nat, page: nat, stride: nat,
                          osPage: pos, raw: nat -> nat, rnds: nat -> Random)
    reads regions, Arrays(regions)
  {
    && (forall k :: 0 <= k < |regions| ==>
          && MadeAs(regions[k], pattern, bytes, page, stride) && DrawnAs(regions[k], pattern, rnds(k))
          && Inside(regions[k], raw(k), raw(k) + bytes + osPage) && AtPage(regions[k], raw(k), osPage))
    && forall j, k :: 0 <= j < k < |regions| ==> regions[j].region1 != regions[k].region1
  }

  /** One turn of the loop of MemSetup. */
  method NextPartition(regions: seq<MemRegion>, bytes: nat, page: pos, stride: pos, pattern: Pattern, osPage: pos,
                       raw: nat -> nat, rnds: nat -> Random)
    returns (r: Option<MemRegion>)
    requires StoresInside(bytes, page, stride, pattern) && bytes < TWO32
    requires 0 < raw(|regions|) && raw(|regions|) + bytes + osPage <= TWO64
    requires AllMade(regions, pattern, bytes, page, stride, osPage, raw, rnds)
    ensures r.None? <==> pattern.Unknown?
    ensures r.Some? ==> AllMade(regions + [r.value], pattern, bytes, page, stride, osPage, raw, rnds)
  {
    hide MadeAs, DrawnAs, Inside, AtPage, StoresInside;
    r := NewPartition(bytes, page, stride, pattern, osPage, raw(|regions|), rnds(|regions|));
  }

  /** The constructor of MemSetup: region_size / partition_size partitions, alike except for
      where they are and what is drawn for them. raw(i) is what malloc answers for the i-th. */
  method MemSetup(regionSize: nat, pageSize: pos, stride: pos, pattern: Pattern, partitionSize: pos, osPage: pos,
                  raw: nat -> nat, rnds: nat -> Random)
    returns (r: Option<seq<MemRegion>>)
    requires StoresInside(1024 * partitionSize, 1024 * pageSize, stride, pattern) && 1024 * partitionSize < TWO32
    requires forall i: nat :: i < regionSize / partitionSize ==>
               0 < raw(i) && raw(i) + 1024 * partitionSize + osPage <= TWO64
    requires forall i: nat, j: nat :: i < j < regionSize / partitionSize ==>
               || raw(i) + 1024 * partitionSize + osPage <= raw(j)
               || raw(j) + 1024 * partitionSize + osPage <= raw(i)
    ensures r.None? <==> pattern.Unknown? && regionSize >= partitionSize
    ensures r.Some? ==> |r.value| == regionSize / partitionSize
    ensures r.Some? ==> forall i :: 0 <= i < |r.value| ==>
              && MadeAs(r.value[i], pattern, 1024 * partitionSize, 1024 * pageSize, stride)
              && DrawnAs(r.value[i], pattern, rnds(i)) && AtPage(r.value[i], raw(i), osPage)
    ensures r.Some? ==> forall i, j :: 0 <= i < j < |r.value| ==>
              r.value[i].region1 != r.value[j].region1 && Apart(r.value[i], r.value[j])
  {
    hide MadeAs, DrawnAs, Inside, AtPage, Apart, StoresInside, AllMade;
    var numPartitions := regionSize / partitionSize;
    Quotient(regionSize, partitionSize);
    var bytes: nat, page: pos := 1024 * partitionSize, 1024 * pageSize;
    var regions: seq<MemRegion> := [];
    NoneMade(pattern, bytes, page, stride, osPage, raw, rnds);
    var i := 0;
    while i < numPartitions
      invariant 0 <= i <= numPartitions && |regions| == i
      invariant i > 0 ==> !pattern.Unknown?
      invariant AllMade(regions, pattern, bytes, page, stride, osPage, raw, rnds)
    {
      assert 0 < raw(i) && raw(i) + bytes + osPage <= TWO64;
      var p := NextPartition(regions, bytes, page, stride, pattern, osPage, raw, rnds);
      if p.None? {
        return None;
      }
      regions := regions + [p.value];
      i := i + 1;
    }
    AllApart(regions, pattern, bytes, page, stride, osPage, raw, rnds);
    return Some(regions);
  }

  lemma Quotient(x: nat, d: pos)
    ensures x / d > 0 <==> x >= d
  {}

  lemma NoneMade(pattern: Pattern, bytes: nat, page: nat, stride: nat,
                 osPage: pos, raw: nat -> nat, rnds: nat -> Random)
    ensures AllMade([], pattern, bytes, page, stride, osPage, raw, rnds)
  {}

  lemma AllApart(regions: seq<MemRegion>, pattern: Pattern, bytes: nat, page: nat, stride: nat,
                 osPage: pos, raw: nat -> nat, rnds: nat -> Random)
    requires AllMade(regions, pattern, bytes, page, stride, osPage, raw, rnds)
    requires forall i: nat, j: nat :: i < j < |regions| ==>
               raw(i) + bytes + osPage <= raw(j) || raw(j) + bytes + osPage <= raw(i)
    ensures forall i :: 0 <= i < |regions| ==>
              && MadeAs(regions[i], pattern, bytes, page, stride) && DrawnAs(regions[i], pattern, rnds(i))
              && AtPage(regions[i], raw(i), osPage)
    ensures forall i, j :: 0 <= i < j < |regions| ==>
              regions[i].region1 != regions[j].region1 && Apart(regions[i], regions[j])
  {
    hide MadeAs, DrawnAs, Inside, AtPage, Apart;
    forall j, k | 0 <= j < k < |regions| ensures Apart(regions[j], regions[k]) {
      InsideApart(regions[j], raw(j), raw(j) + bytes + osPage, regions[k], raw(k), raw(k) + bytes + osPage);
    }
  }

  // ---------------------------------------------------------------- the partitions at work

  /** A dual stream that covers every line once: an even number of lines that fill the
      partition in stride order, or an even number of pages that do in page order. */
  predicate Balanced(region: MemRegion, pattern: Pattern) {
    match pattern
    case Stride =>
      region.activeSize % region.lineSize == 0 && StrideCount(region.activeSize, region.lineSize) % 2 == 0
    case PageRand => region.activeSize % region.pageSize == 0 && region.numActivePages % 2 == 0
    case _ => false
  }

  /** Then half the partition is the middle line of the list. */
  lemma HalfIsMiddle(region: MemRegion, pattern: Pattern)
    requires Threaded(region, pattern) && 1 < region.lineSize && 0 < region.activeSize && Balanced(region, pattern)
    ensures |region.order| % 2 == 0 && region.order[|region.order| / 2] == region.activeSize / 2
  {
    ListShape(region, pattern, region.order);
    if pattern.Stride? {
      StrideHalfPoint(region.activeSize, region.lineSize);
    } else {
      var pages: int, lines: int := region.numActivePages, region.numLinesInPage;
      assert lines == 0 ==> pages * lines == 0;
      PageHalfPoint(region.order, region.activeSize, region.pageSize, region.numLinesInPage, region.lineSize);
    }
  }

  // ---------------------------------------------------------------- end to end

  /** The arrays of the partitions. */
  ghost function Arrays(regions: seq<MemRegion>): set<object> {
    (set i | 0 <= i < |regions| :: regions[i].region1) + (set i | 0 <= i < |regions| :: regions[i].region2)
  }

  /** The contents of the partitions. */
  ghost function Contents(regions: seq<MemRegion>): (m: seq<seq<byte>>)
    requires forall i :: 0 <= i < |regions| ==> regions[i].Valid()
    reads regions, Arrays(regions)
    ensures |m| == |regions| && forall i :: 0 <= i < |regions| ==> m[i] == regions[i].Bytes()
  {
    seq(|regions|, i requires 0 <= i < |regions| && regions[i].Valid()
                     reads regions, Arrays(regions)
                     => regions[i].Bytes())
  }

  /** Which line of the list an offset is, if it is one. */
  ghost function PositionOf(order: seq<nat>, o: nat): (h: nat)
    ensures if o in order then h < |order| && order[h] == o else h == 0
  {
    if o in order then
      var h :| 0 <= h < |order| && order[h] == o;
      h
    else 0
  }

  /** N threads for I iterations over the partitions; getNumLines asks the first of them, and
      getHalfPoint answers half the active size of each. */
  ghost function SetupOf(regions: seq<MemRegion>, mode: Mode, threads: nat, iters: nat): (st: Pipeline.Setup)
    requires |regions| > 0
    reads regions
    ensures |st.parts| == |regions|
  {
    var lines := regions[0].NumActiveLines();
    Pipeline.Setup(Config(threads, |regions|, iters, Turns(mode, lines), true), mode, lines,
      seq(|regions|, i requires 0 <= i < |regions| reads regions =>
        Pipeline.Partition(regions[i].layout, regions[i].order, regions[i].activeSize / 2,
                           PositionOf(regions[i].order, regions[i].activeSize / 2))))
  }

  /** Partitions of one size and pattern whose list is as long as getNumLines says; for the
      dual stream, balanced ones. */
  ghost predicate SetUp(regions: seq<MemRegion>, pattern: Pattern, mode: Mode)
    reads regions, Arrays(regions)
  {
    |regions| > 0 && forall i :: 0 <= i < |regions| ==>
      && Threaded(regions[i], pattern) && LINE_MIN <= regions[i].lineSize
      && 0 < regions[i].activeSize == regions[0].activeSize
      && LinesOf(regions[i], pattern) == regions[0].NumActiveLines()
      && (mode.DualStream? ==> Balanced(regions[i], pattern))
  }

  /** What MemSetup makes is set up, in terms of the sizes on the command line: the stride
      divides the page and the page the partition, and for the dual stream there is an even
      number of lines in stride order or of pages in page order. */
  lemma PartitionsAreSetUp(regions: seq<MemRegion>, pattern: Pattern, mode: Mode, bytes: nat, page: nat, stride: nat)
    requires |regions| > 0 && SizesFit(bytes, page, stride, pattern)
    requires forall i :: 0 <= i < |regions| ==> MadeAs(regions[i], pattern, bytes, page, stride)
    requires page % stride == 0 && bytes % page == 0
    requires mode.DualStream? ==>
               (pattern.Stride? && (bytes / stride) % 2 == 0) || (pattern.PageRand? && (bytes / page) % 2 == 0)
    ensures SetUp(regions, pattern, mode)
  {
    hide Threaded, MadeAs;
    forall i | 0 <= i < |regions|
      ensures Threaded(regions[i], pattern) && LINE_MIN <= regions[i].lineSize
      ensures 0 < regions[i].activeSize == regions[0].activeSize
      ensures LinesOf(regions[i], pattern) == regions[0].NumActiveLines()
      ensures mode.DualStream? ==> Balanced(regions[i], pattern)
    {
      IsThreaded(regions[i], pattern, bytes, page, stride);
      MadeShape(regions[i], pattern, bytes, page, stride);
      MadeShape(regions[0], pattern, bytes, page, stride);
    }
  }

  lemma MadeShape(region: MemRegion, pattern: Pattern, bytes: nat, page: nat, stride: nat)
    requires MadeAs(region, pattern, bytes, page, stride) && 0 < stride && 0 < page && 0 < bytes
    requires page % stride == 0 && bytes % page == 0
    ensures region.activeSize == bytes && region.pageSize == page && region.lineSize == stride
    ensures region.numActivePages == bytes / page && region.numLinesInPage == page / stride
    ensures region.NumActiveLines() == LinesOf(region, pattern)
    ensures bytes % stride == 0 && StrideCount(bytes, stride) == bytes / stride
  {
    hide StrideCount, OrderFor, MemRegion.LinkedFrom;
    var p, n := region.numActivePages, region.numLinesInPage;
    StrideCountIsLineCount(bytes, page, stride, p, n);
    WholeLines(bytes, page, stride, p, n);
  }

  lemma WholeLines(bytes: nat, page: nat, stride: nat, p: nat, n: nat)
    requires 0 < stride && bytes == p * page && page == n * stride
    ensures bytes % stride == 0 && bytes / stride == p * n
  {
    assert p * (n * stride) == (p * n) * stride;
    DivModUnique(bytes, stride, p * n, 0);
  }

  lemma SetUpIsReady(regions: seq<MemRegion>, pattern: Pattern, mode: Mode, threads: nat, iters: nat)
    requires SetUp(regions, pattern, mode) && threads > 0
    ensures Pipeline.Ready(SetupOf(regions, mode, threads, iters), Contents(regions))
    ensures forall i :: 0 <= i < |regions| ==> |regions[i].order| == regions[0].NumActiveLines() > 0
    ensures mode.DualStream? ==> regions[0].NumActiveLines() % 2 == 0
    ensures forall i :: 0 <= i < |regions| && mode.DualStream? ==>
              regions[i].order[regions[0].NumActiveLines() / 2] == regions[i].activeSize / 2
  {
    var st, m0 := SetupOf(regions, mode, threads, iters), Contents(regions);
    forall q | 0 <= q < |regions|
      ensures Pipeline.PartitionReady(st, st.parts[q], m0[q])
      ensures |regions[q].order| == st.lines
      ensures mode.DualStream? ==> st.lines % 2 == 0 && regions[q].order[st.lines / 2] == regions[q].activeSize / 2
    {
      ListShape(regions[q], pattern, regions[q].order);
      if mode.DualStream? {
        HalfIsMiddle(regions[q], pattern);
      }
    }
  }

  /** End to end: whatever the interleaving of the warm-up and of the main run, and whatever
      was drawn for the random patterns, every counter of every line of every partition ends
      at 2 * N * I, modulo the word size, and every link is as it was initialised. */
  lemma EndToEnd(regions: seq<MemRegion>, pattern: Pattern, mode: Mode, threads: nat, iters: nat,
                 warm: seq<Move>, s1: Pipeline.System, main: seq<Move>, s2: Pipeline.System, q: nat, k: nat)
    requires SetUp(regions, pattern, mode) && threads > 0 && !mode.ReadOnly?
    requires var st, m0 := SetupOf(regions, mode, threads, iters), Contents(regions);
      && Pipeline.Finishes(st, m0, Pipeline.SystemInit(st, m0), warm, s1)
      && Pipeline.Finishes(st, s1.mem, Pipeline.Respawn(st, s1), main, s2)
    requires q < |regions| && k < |regions[q].order|
    ensures |s1.mem| == |s2.mem| == |regions|
    ensures var o := regions[q].order[k];
      && o + LINE_MIN <= |s1.mem[q]| == |s2.mem[q]| == regions[q].size
      && Word(s1.mem[q], o + COUNTER) == (threads * iters) % TWO64
      && Word(s2.mem[q], o + COUNTER) == (2 * (threads * iters)) % TWO64
      && Word(s1.mem[q], o) == Word(s2.mem[q], o) == Word(regions[q].Bytes(), o)
  {
    hide Word, Balanced, CountedRing, IsCycle, ClearOutside, OrderFor;
    hide Pipeline.SystemInit, Pipeline.Respawn, Pipeline.SystemLegal, Pipeline.PartitionReady;
    var st, m0 := SetupOf(regions, mode, threads, iters), Contents(regions);
    SetUpIsReady(regions, pattern, mode, threads, iters);
    Pipeline.BothRunsFromZero(st, m0, warm, s1, main, s2, q, k);
  }

  /** The warm-up and, on the state it leaves, the main run, both to the end. */
  ghost predicate BothRuns(regions: seq<MemRegion>, mode: Mode, threads: nat, iters: nat,
                           warm: seq<Move>, s1: Pipeline.System, main: seq<Move>, s2: Pipeline.System)
    requires |regions| > 0 && forall i :: 0 <= i < |regions| ==> regions[i].Valid()
    reads regions, Arrays(regions)
  {
    var st, m0 := SetupOf(regions, mode, threads, iters), Contents(regions);
    && Pipeline.Finishes(st, m0, Pipeline.SystemInit(st, m0), warm, s1)
    && Pipeline.Finishes(st, s1.mem, Pipeline.Respawn(st, s1), main, s2)
  }

  /** All counters stand at twice the number of work items and all links where they were. */
  ghost predicate AllCounted(regions: seq<MemRegion>, threads: nat, iters: nat, m: seq<seq<byte>>)
    requires forall i :: 0 <= i < |regions| ==> regions[i].Valid()
    reads regions, Arrays(regions)
  {
    && |m| == |regions|
    && forall q, k :: 0 <= q < |regions| && 0 <= k < |regions[q].order| ==>
         LineCounted(regions[q], threads, iters, m[q], regions[q].order[k])
  }

  ghost predicate LineCounted(region: MemRegion, threads: nat, iters: nat, m: seq<byte>, o: nat)
    requires region.Valid()
    reads region, region.region1, region.region2
  {
    && o + LINE_MIN <= |m| == region.size && Word(m, o) == Word(region.Bytes(), o)
    && Word(m, o + COUNTER) == (2 * (threads * iters)) % TWO64
  }

  /** Partitions that are ready for the pipeline, and that every pair of complete runs, whatever
      the interleaving, leaves all counted. */
  ghost predicate RunsCount(regions: seq<MemRegion>, pattern: Pattern, mode: Mode, threads: pos, iters: nat)
    reads regions, Arrays(regions)
  {
    && SetUp(regions, pattern, mode)
    && Pipeline.Ready(SetupOf(regions, mode, threads, iters), Contents(regions))
    && forall warm, s1, main, s2 :: BothRuns(regions, mode, threads, iters, warm, s1, main, s2) ==>
         AllCounted(regions, threads, iters, s2.mem)
  }

  /** The whole program, in terms of its command line: MemSetup makes partitions that are ready
      to be worked on, and whatever the interleaving of the warm-up and of the main run, every
      line of every partition ends with its counter at 2 * N * I and its link untouched. */
  method WholeProgram(regionSize: nat, pageSize: pos, stride: pos, pattern: Pattern, partitionSize: pos, osPage: pos,
                      raw: nat -> nat, rnds: nat -> Random, mode: Mode, threads: pos, iters: nat)
    returns (r: Option<seq<MemRegion>>)
    requires SizesFit(1024 * partitionSize, 1024 * pageSize, stride, pattern) && 1024 * partitionSize < TWO32
    requires (1024 * pageSize) % stride == 0 && (1024 * partitionSize) % (1024 * pageSize) == 0
    requires mode.DualStream? ==>
               || (pattern.Stride? && ((1024 * partitionSize) / stride) % 2 == 0)
               || (pattern.PageRand? && ((1024 * partitionSize) / (1024 * pageSize)) % 2 == 0)
    requires !mode.ReadOnly? && partitionSize <= regionSize
    requires forall i: nat :: i < regionSize / partitionSize ==>
               0 < raw(i) && raw(i) + 1024 * partitionSize + osPage <= TWO64
    requires forall i: nat, j: nat :: i < j < regionSize / partitionSize ==>
               || raw(i) + 1024 * partitionSize + osPage <= raw(j)
               || raw(j) + 1024 * partitionSize + osPage <= raw(i)
    ensures r.None? <==> pattern.Unknown?
    ensures r.Some? ==> |r.value| == regionSize / partitionSize > 0
    ensures r.Some? ==> forall i :: 0 <= i < |r.value| ==>
              && MadeAs(r.value[i], pattern, 1024 * partitionSize, 1024 * pageSize, stride)
              && DrawnAs(r.value[i], pattern, rnds(i)) && AtPage(r.value[i], raw(i), osPage)
    ensures r.Some? ==> RunsCount(r.value, pattern, mode, threads, iters)
  {
    hide StoresInside, SizesFit, MadeAs, DrawnAs, AtPage, Apart, RunsCount;
    Quotient(regionSize, partitionSize);
    WideStoresInside(1024 * partitionSize, 1024 * pageSize, stride, pattern);
    r := MemSetup(regionSize, pageSize, stride, pattern, partitionSize, osPage, raw, rnds);
    if r.Some? {
      PartitionsAreSetUp(r.value, pattern, mode, 1024 * partitionSize, 1024 * pageSize, stride);
      AllRunsCount(r.value, pattern, mode, threads, iters);
    }
  }

  lemma AllRunsCount(regions: seq<MemRegion>, pattern: Pattern, mode: Mode, threads: pos, iters: nat)
    requires SetUp(regions, pattern, mode) && !mode.ReadOnly?
    ensures RunsCount(regions, pattern, mode, threads, iters)
  {
    hide Pipeline.Ready, SetupOf, Contents, Word, Balanced, CountedRing, IsCycle, ClearOutside, OrderFor;
    SetUpIsReady(regions, pattern, mode, threads, iters);
    forall warm, s1, main, s2 | BothRuns(regions, mode, threads, iters, warm, s1, main, s2)
      ensures AllCounted(regions, threads, iters, s2.mem)
    {
      EndToEnd(regions, pattern, mode, threads, iters, warm, s1, main, s2, 0, 0);
      forall q, k | 0 <= q < |regions| && 0 <= k < |regions[q].order|
        ensures LineCounted(regions[q], threads, iters, s2.mem[q], regions[q].order[k])
      {
        EndToEnd(regions, pattern, mode, threads, iters, warm, s1, main, s2, q, k);
      }
    }
  }

  // ---------------------------------------------------------------- where lines are missed

  /** Where the stride list is longer than getNumLines says, which is whenever the stride does
      not divide the page or the page the partition, a work item of a single stream does not
      get to its last lines: their counters stay 0. */
  lemma ShortSingleStreamMissesLines(region: MemRegion, bytes: nat, page: nat, stride: nat, k: nat)
    requires MadeAs(region, Stride, bytes, page, stride) && SizesFit(bytes, page, stride, Stride)
    ensures page % stride != 0 || bytes % page != 0 <==> region.NumActiveLines() < |region.order|
    ensures region.NumActiveLines() <= k < |region.order| ==>
              var c := Cursor(region.Bytes(), region.StartPoint(), region.HalfPoint());
              var m := Run(region.layout, SingleStream, c, Turns(SingleStream, region.NumActiveLines())).mem;
              region.order[k] + LINE_MIN <= |m| && Word(m, region.order[k] + COUNTER) == 0
  {
    hide IsCycle, CountedRing, ClearOutside, Word, Tally, Run, StrideCount;
    var n, order := region.NumActiveLines(), region.order;
    IsThreaded(region, Stride, bytes, page, stride);
    StrideCountIsLineCount(bytes, page, stride, region.numActivePages, region.numLinesInPage);
    if n <= k < |order| {
      var c := Cursor(region.Bytes(), region.StartPoint(), region.HalfPoint());
      RunWalks(region.layout, c, order, SingleStream, 0, n);
      ShortSingleStream(|order|, 0, n);
      CounterInside(region.layout, order, k);
    }
  }

  lemma CounterInside(l: Layout, order: seq<nat>, k: nat)
    requires CountedRing(l, order) && k < |order|
    ensures order[k] + LINE_MIN <= l.Size()
  {}

  /** A stride partition with an odd number of lines, three or more: the half point is no line,
      the first turn of the first work item loads null from it, and with more than three lines
      the second turn follows that pointer. */
  lemma OddStridePartitionFaults(region: MemRegion, bytes: nat, page: nat, stride: nat)
    requires MadeAs(region, Stride, bytes, page, stride) && LINE_MIN <= stride && bytes % stride == 0
    requires (bytes / stride) % 2 == 1 && bytes / stride >= 3
    ensures |region.order| == bytes / stride && region.activeSize / 2 !in region.order
    ensures var c := Cursor(region.Bytes(), region.StartPoint(), region.HalfPoint());
      && RmwStep(region.layout, DualStream, c).p2 == 0
      && (SafeRun(region.layout, DualStream, c, Turns(DualStream, |region.order|)) <==> bytes / stride == 3)
  {
    hide IsCycle, CountedRing, RmwStep, SafeRun;
    var n := bytes / stride;
    assert bytes == n * stride;
    DivModUnique(bytes + stride - 1, stride, n, stride - 1);
    StrideHalfIsALine(bytes, stride);
    OddStrideFaults(region.layout, region.Bytes(), n, stride);
  }

  /** For instance a partition of 5 KB with lines of 1 KB. */
  lemma FiveLinesFault(region: MemRegion)
    requires MadeAs(region, Stride, 5 * 1024, 5 * 1024, 1024)
    ensures region.NumActiveLines() == 5
    ensures !SafeRun(region.layout, DualStream, Cursor(region.Bytes(), region.StartPoint(), region.HalfPoint()),
                     Turns(DualStream, region.NumActiveLines()))
  {
    hide SafeRun, MadeAs, RmwStep;
    MadeShape(region, Stride, 5 * 1024, 5 * 1024, 1024);
    OddStridePartitionFaults(region, 5 * 1024, 5 * 1024, 1024);
  }

  /** On a fully random list the half point may be any line. From any seed some values of
      rand() lead to the order 0, 512, 256, 768 of four lines of 256 bytes ... */
  lemma AllRandomHalfPoint(seed: nat) returns (rnd: Random)
    ensures rnd.seed == seed
    ensures forall order :: |order| == 4 && DrawnLines(order, 256, rnd) ==> order == [0, 512, 256, 768]
  {
    hide Drawn;
    var q: seq<nat> := [0, 2, 1, 3];
    rnd := ShuffleReachesEvery(q, seed);
    forall order | |order| == 4 && DrawnLines(order, 256, rnd) ensures order == [0, 512, 256, 768] {
      var perm :| Drawn(perm, rnd) && order == Scaled(perm, 256);
      assert perm == q;
    }
  }

  lemma MissedLine(n: nat, h: nat) returns (i: nat)
    requires h < n && n % 2 == 0 && h != n / 2
    ensures i < n && Tally(DualStream, n, h, n / 2)[i] == 0
  {
    hide Tally;
    DualCoverage(n, h);
    assert Visited(PassTally(DualStream, n, h), 0) != {};
    i :| i in Visited(PassTally(DualStream, n, h), 0);
  }

  /** ... which puts the half point of a partition of 1 KB one place after the start, and the
      two streams then miss a line. */
  lemma AllRandomCanMissALine(region: MemRegion) returns (i: nat)
    requires MadeAs(region, AllRand, 1024, 1024, 256) && region.order == [0, 512, 256, 768]
    ensures i < 4 && region.NumActiveLines() == 4
    ensures var u := Updates(region.layout, Cursor(region.Bytes(), region.StartPoint(), region.HalfPoint()),
                             Turns(DualStream, region.NumActiveLines()));
      Occurrences(u, region.layout.AddrOf(region.order[i])) == 0
  {
    hide IsCycle, CountedRing, ClearOutside, OrderFor, Word, Tally, Updates, Occurrences;
    i := MissedLine(4, 1);
    IsThreaded(region, AllRand, 1024, 1024, 256);
    UpdatesAreTallied(region.layout, Cursor(region.Bytes(), region.StartPoint(), region.HalfPoint()),
                      region.order, 1, 2, i);
  }

  /** The same shuffle in page order, with an odd number of pages: three of 1 KB ... */
  lemma OddPagesHalfPoint(seed: nat) returns (rnd: Random)
    ensures rnd.seed == seed
    ensures forall order :: |order| == 12 && DrawnPages(order, 3, 1024, 256, rnd) ==>
              order == PageOrder(3, [0, 512, 256, 768], 1024)
  {
    hide Drawn, PageOrder;
    var q: seq<nat> := [0, 2, 1, 3];
    rnd := ShuffleReachesEvery(q, seed);
    forall order | |order| == 12 && DrawnPages(order, 3, 1024, 256, rnd)
      ensures order == PageOrder(3, [0, 512, 256, 768], 1024)
    {
      var perm :| Drawn(perm, rnd) && order == PageOrder(3, Scaled(perm, 256), 1024);
      assert perm == q;
      assert Scaled(perm, 256) == [0, 512, 256, 768];
    }
  }

  /** ... where half of the partition is the second line of the second page, one place before
      the middle of the list, and a line is missed as well. */
  lemma OddPagesCanMissALine(region: MemRegion) returns (i: nat)
    requires MadeAs(region, PageRand, 3 * 1024, 1024, 256)
    requires region.order == PageOrder(3, [0, 512, 256, 768], 1024)
    ensures i < 12 && region.NumActiveLines() == 12
    ensures var u := Updates(region.layout, Cursor(region.Bytes(), region.StartPoint(), region.HalfPoint()),
                             Turns(DualStream, region.NumActiveLines()));
      Occurrences(u, region.layout.AddrOf(region.order[i])) == 0
  {
    hide IsCycle, CountedRing, ClearOutside, OrderFor, Word, Tally, Updates, Occurrences;
    i := MissedLine(12, 5);
    IsThreaded(region, PageRand, 3 * 1024, 1024, 256);
    PageOrderAt(3, [0, 512, 256, 768], 1024, 0, 0);
    PageOrderAt(3, [0, 512, 256, 768], 1024, 1, 1);
    UpdatesAreTallied(region.layout, Cursor(region.Bytes(), region.StartPoint(), region.HalfPoint()),
                      region.order, 5, 6, i);
  }
}
