/** The memory region of src/utils/lib_mem_region: allocation, the three ways of threading
    it into a circular list of pointers, and its entry points. */
module Region {
  import opened Arithmetic
  import opened Words
  import opened MemLayout
  import opened Chase
  import opened Orders
  import opened RandomStream
  import opened Shuffle
  import opened Wrappers

  type pos = x: nat | 0 < x witness 1

  /** What the operating system answered: a pointer to size + one page of bytes, inside which
      a page boundary is chosen, or a mapping of exactly the size asked for. */
  datatype Allocation = Padded(raw: nat) | Mapping(start: nat) {
    function Base(osPage: nat): nat
      requires osPage > 0
    {
      match this
      case Padded(raw) => AlignedAddr(raw, osPage)
      case Mapping(start) => start
    }

    function First(): nat { if Padded? then raw else start }

    function Limit(size: nat, osPage: nat): nat {
      First() + size + if Padded? then osPage else 0
    }
  }

  /** Distinct live allocations, in the address space and not at null. */
  ghost predicate Allocated(a: Allocation, sizeA: nat, b: Allocation, sizeB: nat, osPage: nat) {
    && (sizeA > 0 ==> 0 < a.First() && a.Limit(sizeA, osPage) <= TWO64)
    && (sizeB > 0 ==> 0 < b.First() && b.Limit(sizeB, osPage) <= TWO64)
    && (sizeA > 0 && sizeB > 0 ==>
          a.Limit(sizeA, osPage) <= b.First() || b.Limit(sizeB, osPage) <= a.First())
  }

  /** The addresses of the two parts; a part of size 0 is not allocated and stays null. */
  function LayoutFor(a: Allocation, size1: nat, b: Allocation, size2: nat, osPage: nat): Layout
    requires osPage > 0
  {
    Layout(if size1 > 0 then a.Base(osPage) else 0, size1, if size2 > 0 then b.Base(osPage) else 0, size2)
  }

  /** Rounding up to a page inside each padded allocation keeps the whole of both requested
      parts inside what was allocated, so they do not overlap either. */
  lemma LayoutForValid(a: Allocation, size1: nat, b: Allocation, size2: nat, osPage: nat)
    requires osPage > 0 && Allocated(a, size1, b, size2, osPage)
    ensures LayoutFor(a, size1, b, size2, osPage).Valid()
  {
    AlignedAddrFits(a.First(), osPage, size1);
    AlignedAddrFits(b.First(), osPage, size2);
  }

  /** Where a part that has been allocated starts: a malloc'ed one at the first page boundary
      after what malloc answered, a mapped one at the mapping. */
  ghost predicate StartsIn(a: Allocation, addr: nat, osPage: nat)
    requires osPage > 0
  {
    match a
    case Padded(raw) =>
      addr % osPage == 0 && raw < addr <= raw + osPage && forall x :: raw < x < addr ==> x % osPage != 0
    case Mapping(start) => addr == start
  }

  lemma BaseStartsIn(a: Allocation, osPage: nat)
    requires osPage > 0
    ensures StartsIn(a, a.Base(osPage), osPage)
  {
    AlignedAddrFits(a.First(), osPage, 0);
  }

  /** The lines in the very order that the stream leads to. */
  ghost predicate DrawnLines(order: seq<nat>, line: nat, rnd: Random) {
    exists perm :: Drawn(perm, rnd) && order == Scaled(perm, line)
  }

  ghost predicate DrawnPages(order: seq<nat>, pages: nat, page: nat, line: nat, rnd: Random) {
    exists perm :: Drawn(perm, rnd) && order == PageOrder(pages, Scaled(perm, line), page)
  }

  class MemRegion {
    const size: nat
    const activeSize: nat
    const pageSize: pos
    const lineSize: pos
    const layout: Layout
    const numActivePages: nat := activeSize / pageSize
    const numLinesInPage: nat := pageSize / lineSize
    /** The bytes at layout.addr1 and at layout.addr2. */
    const region1: array<byte>
    const region2: array<byte>
    /** The offsets of the circular list, in the order its pointers lead through them. */
    ghost var order: seq<nat>

    ghost predicate Valid()
      reads this
    {
      && layout.Valid() && layout.Size() == size
      && region1 != region2 && region1.Length == layout.size1 && region2.Length == layout.size2
    }

    /** The content of the region, by offset. */
    ghost function Bytes(): (m: seq<byte>)
      requires Valid()
      reads this, region1, region2
      ensures |m| == size
    {
      region1[..] + region2[..]
    }

    /** The fields and the cleared memory, once the parts have been allocated. */
    constructor (activeSize: nat, pageSize: pos, lineSize: pos, layout: Layout)
      requires layout.Valid()
      ensures Valid() && fresh(region1) && fresh(region2)
      ensures size == layout.Size() && this.layout == layout && order == []
      ensures this.activeSize == activeSize && this.pageSize == pageSize && this.lineSize == lineSize
      ensures forall j :: 0 <= j < size ==> Bytes()[j] == 0
    {
      this.size := layout.Size();
      this.activeSize := activeSize;
      this.pageSize := pageSize;
      this.lineSize := lineSize;
      this.layout := layout;
      region1 := new byte[layout.size1](_ => 0);
      region2 := new byte[layout.size2](_ => 0);
      order := [];
    }

    /** The whole construction: a second part larger than the region is an error; otherwise
        both parts are placed inside what the operating system allocated. */
    static method Create(size: nat, activeSize: nat, pageSize: pos, lineSize: pos, sizeRegion2: nat,
                         osPage: pos, alloc1: Allocation, alloc2: Allocation)
      returns (r: Option<MemRegion>)
      requires sizeRegion2 <= size ==>
                 Allocated(alloc1, size - sizeRegion2, alloc2, sizeRegion2, osPage)
      ensures r.None? <==> sizeRegion2 > size
      ensures r.Some? ==> fresh(r.value) && fresh(r.value.region1) && fresh(r.value.region2)
      ensures r.Some? ==> r.value.Valid() && r.value.size == size && r.value.activeSize == activeSize
      ensures r.Some? ==> r.value.pageSize == pageSize && r.value.lineSize == lineSize
      ensures r.Some? ==> r.value.layout.size1 == size - sizeRegion2 && r.value.layout.size2 == sizeRegion2
      ensures r.Some? && r.value.layout.size1 > 0 ==> StartsIn(alloc1, r.value.layout.addr1, osPage)
      ensures r.Some? && r.value.layout.size2 > 0 ==> StartsIn(alloc2, r.value.layout.addr2, osPage)
      ensures r.Some? && size > 0 ==>
                r.value.StartPoint() == if sizeRegion2 < size then r.value.layout.addr1 else r.value.layout.addr2
      ensures r.Some? ==> forall j :: 0 <= j < size ==> r.value.Bytes()[j] == 0
    {
      if sizeRegion2 > size {
        return None;
      }
      hide AlignedAddr;
      LayoutForValid(alloc1, size - sizeRegion2, alloc2, sizeRegion2, osPage);
      BaseStartsIn(alloc1, osPage);
      BaseStartsIn(alloc2, osPage);
      var layout := LayoutFor(alloc1, size - sizeRegion2, alloc2, sizeRegion2, osPage);
      var m := new MemRegion(activeSize, pageSize, lineSize, layout);
      return Some(m);
    }

    function NumActiveLines(): nat { numActivePages * numLinesInPage }

    function OffsetAddr(offset: nat): nat
      requires (layout.size1 > 0 && offset < layout.size1) || layout.size2 > 0
    {
      layout.AddrOf(offset)
    }

    function StartPoint(): nat
      requires layout.Size() > 0
    {
      OffsetAddr(0)
    }

    function HalfPoint(): nat
      requires activeSize / 2 < layout.size1 || layout.size2 > 0
    {
      OffsetAddr(activeSize / 2)
    }

    /** *(char**)a = v */
    method StoreWord(a: nat, v: nat)
      requires Valid() && layout.WordAt(a) && v < TWO64
      modifies region1, region2
      ensures Bytes() == PutWord(old(Bytes()), layout.OffsetOf(a), v)
    {
      ghost var m1, m2 := region1[..], region2[..];
      assert Bytes() == m1 + m2;
      if layout.addr1 <= a < layout.addr1 + layout.size1 {
        Poke(region1, a - layout.addr1, v);
        assert region2[..] == m2;
        PutWordJoined(m1, m2, a - layout.addr1, v);
      } else {
        Poke(region2, a - layout.addr2, v);
        assert region1[..] == m1;
        PutWordJoined(m1, m2, a - layout.addr2, v);
      }
    }

    /** *(char**)a */
    method LoadWord(a: nat) returns (v: nat)
      requires Valid() && layout.WordAt(a)
      ensures v == Load(layout, Bytes(), a) && v < TWO64
    {
      if layout.addr1 <= a < layout.addr1 + layout.size1 {
        var p := a - layout.addr1;
        v := Decode(region1[p..p + WORD]);
        WordJoined(region1[..], region2[..], p);
        assert region1[..][p..p + WORD] == region1[p..p + WORD];
      } else {
        var p := a - layout.addr2;
        v := Decode(region2[p..p + WORD]);
        WordJoined(region1[..], region2[..], p);
        assert region2[..][p..p + WORD] == region2[p..p + WORD];
      }
      WordBound(Bytes(), layout.OffsetOf(a));
    }

    /** The x-th store of a list, whatever it overwrites. */
    method StoreNext(ghost m0: seq<byte>, ghost x: nat, from: nat, to: nat)
      requires Valid() && x < |order| && Slots(layout, order, WORD) && |m0| == size
      requires Bytes() == Stored(layout, m0, order, x)
      requires from == order[x] && to == order[Succ(x, |order|)]
      modifies region1, region2
      ensures Bytes() == Stored(layout, m0, order, x + 1)
    {
      StoreLink(from, to);
    }

    /** *(char**)getOffsetAddr_(from) = getOffsetAddr_(to) */
    method StoreLink(from: nat, to: nat)
      requires Valid() && layout.Fits(from, WORD) && layout.Fits(to, WORD)
      modifies region1, region2
      ensures Bytes() == PutWord(old(Bytes()), from, layout.AddrOf(to))
    {
      AddrRoundTrip(layout, from);
      AddrRoundTrip(layout, to);
      StoreWord(OffsetAddr(from), OffsetAddr(to));
    }

    /** What every initialiser leaves behind: the pointers of the list stored one after the
        other, and, if lines hold a pointer, a circular list with nothing else written. */
    ghost predicate LinkedFrom(m0: seq<byte>)
      requires Valid()
      reads this, region1, region2
    {
      && |m0| == size && Slots(layout, order, WORD) && Bytes() == Stored(layout, m0, order, |order|)
      && (WORD <= lineSize ==> IsCycle(layout, Bytes(), order) && SameOutside(m0, Bytes(), order, 0, WORD))
    }

    lemma WideLinesAreLinked(m0: seq<byte>)
      requires Valid() && |m0| == size && Slots(layout, order, WORD) && Bytes() == Stored(layout, m0, order, |order|)
      requires |order| > 0 && Spaced(order, lineSize)
      ensures LinkedFrom(m0)
    {
      if WORD <= lineSize {
        SpacedWider(order, WORD, lineSize);
        StoredLinks(layout, m0, order, |order|);
      }
    }

    // ------------------------------------------------------------ stride_init

    ghost function StrideOrder(): (r: seq<nat>)
      requires Valid()
      reads this
    {
      Scaled(Identity(StrideCount(activeSize, lineSize)), lineSize)
    }

    /** What a caller of stride_init must supply: links do not overlap, the last one ends
        inside the region, and the joint of two parts is at a line. */
    predicate StrideFits() {
      && WORD <= lineSize && 0 < activeSize <= size
      && (StrideCount(activeSize, lineSize) - 1) * lineSize + WORD <= size
      && (layout.size2 == 0 || layout.size1 % lineSize == 0)
    }

    lemma StrideRing()
      requires Valid() && StrideFits()
      ensures Ring(layout, StrideOrder())
    {
      var n := StrideCount(activeSize, lineSize);
      StrideCountBounds(activeSize, lineSize);
      ScaledSpaced(Identity(n), lineSize);
      forall k | 0 <= k < n ensures k * lineSize + WORD <= layout.Size() {
        MulMono(k, n - 1, lineSize);
      }
      ScaledSlots(layout, Identity(n), lineSize, WORD);
    }

    /** What the stores of stride_init need at least: each inside one of the two parts. */
    ghost predicate StrideStoresFit()
      requires Valid()
      reads this
    {
      0 < activeSize && Slots(layout, StrideOrder(), WORD)
    }

    /** For lines of any size the stores are made in address order, the last one back to the
        start; for lines that hold a pointer the result is a cycle. */
    method StrideInit()
      requires Valid() && StrideStoresFit()
      modifies this`order, region1, region2
      ensures Valid() && order == StrideOrder() && LinkedFrom(old(Bytes()))
    {
      hide Slots, Stored, LinkedFrom;
      StrideCountBounds(activeSize, lineSize);
      order := StrideOrder();
      ghost var m0, k := Bytes(), 1;
      var i := lineSize;
      StoredNothing(layout, m0, order);
      while i < activeSize
        invariant 1 <= k <= |order| && i == k * lineSize
        invariant Bytes() == Stored(layout, m0, order, k - 1)
        decreases activeSize - i
        modifies region1, region2
      {
        StridePosition(activeSize, lineSize, k);
        MulSucc(k - 1, lineSize);
        StoreNext(m0, k - 1, i - lineSize, i);
        MulSucc(k, lineSize);
        k := k + 1;
        i := i + lineSize;
      }
      StridePosition(activeSize, lineSize, k);
      MulSucc(k - 1, lineSize);
      StoreNext(m0, k - 1, i - lineSize, 0);
      ScaledSpaced(Identity(StrideCount(activeSize, lineSize)), lineSize);
      WideLinesAreLinked(m0);
    }

    // ------------------------------------------------------------ all_random_init

    /** What the random initialisers ask of the sizes. */
    predicate PagesFit() {
      WORD <= lineSize <= pageSize <= activeSize <= size
    }

    lemma LinesFit()
      requires Valid() && PagesFit()
      ensures 0 < numActivePages && 0 < numLinesInPage && 0 < NumActiveLines()
      ensures NumActiveLines() * lineSize <= numActivePages * pageSize <= activeSize
    {
      var p, n := numActivePages, numLinesInPage;
      assert activeSize == p * pageSize + activeSize % pageSize;
      assert pageSize == n * lineSize + pageSize % lineSize;
      assert p == 0 ==> p * pageSize == 0;
      assert n == 0 ==> n * lineSize == 0;
      assert (p * n) * lineSize == p * (n * lineSize);
      MulMono(n * lineSize, pageSize, p);
      MulMono(1, p, n);
    }

    /** There is a line to link. */
    predicate HasLines() {
      lineSize <= pageSize <= activeSize
    }

    lemma LinesExist()
      requires HasLines()
      ensures 0 < numActivePages && 0 < numLinesInPage && 0 < NumActiveLines()
    {
      var p, n := numActivePages, numLinesInPage;
      assert activeSize == p * pageSize + activeSize % pageSize;
      assert pageSize == n * lineSize + pageSize % lineSize;
      assert p == 0 ==> p * pageSize == 0;
      assert n == 0 ==> n * lineSize == 0;
      MulMono(1, p, n);
    }

    /** What the stores of all_random_init need at least: each inside one of the two parts. */
    ghost predicate LineStoresFit() {
      HasLines() && Slots(layout, Scaled(Identity(NumActiveLines()), lineSize), WORD)
    }

    lemma AnyLinesFit(perm: seq<nat>)
      requires LineStoresFit() && IsPermutation(perm, NumActiveLines())
      ensures Slots(layout, Scaled(perm, lineSize), WORD)
    {
      var lines := Scaled(Identity(NumActiveLines()), lineSize);
      forall k | 0 <= k < |perm| ensures layout.Fits(Scaled(perm, lineSize)[k], WORD) {
        assert Scaled(perm, lineSize)[k] == lines[perm[k]];
      }
    }

    method AllRandomInit(rnd: Random)
      requires Valid() && LineStoresFit() && NumActiveLines() <= TWO32
      modifies this`order, region1, region2
      ensures Valid() && |order| == NumActiveLines()
      ensures AnyLineOrder(order, NumActiveLines(), lineSize) && DrawnLines(order, lineSize, rnd)
      ensures LinkedFrom(old(Bytes()))
    {
      hide Slots, LinkedFrom;
      LinesExist();
      var numLines := NumActiveLines();
      var lines := new nat[numLines](_ => 0);
      ghost var perm := RandomizeSequence(lines, lineSize, false, rnd);
      order := lines[..];
      assert order == Scaled(perm, lineSize);
      AnyLinesFit(perm);
      ghost var m0 := Bytes();
      LinkLines(lines);
      ScaledSpaced(perm, lineSize);
      WideLinesAreLinked(m0);
    }

    /** The loop of all_random_init. */
    method LinkLines(lines: array<nat>)
      requires Valid()
      requires order == lines[..] && |order| > 0 && Slots(layout, order, WORD)
      modifies region1, region2
      ensures Bytes() == Stored(layout, old(Bytes()), order, |order|)
    {
      hide Slots, Stored;
      ghost var m0 := Bytes();
      var numLines := lines.Length;
      var i := 0;
      StoredNothing(layout, m0, order);
      while i < numLines - 1
        invariant 0 <= i <= numLines - 1
        invariant Bytes() == Stored(layout, m0, order, i)
      {
        StoreNext(m0, i, lines[i], lines[i + 1]);
        i := i + 1;
      }
      StoreNext(m0, numLines - 1, lines[numLines - 1], lines[0]);
    }

    lemma AllRandomRing(perm: seq<nat>)
      requires Valid() && PagesFit() && IsPermutation(perm, NumActiveLines())
      requires layout.size2 == 0 || layout.size1 % lineSize == 0
      ensures Ring(layout, Scaled(perm, lineSize))
    {
      LinesFit();
      ScaledSpaced(perm, lineSize);
      forall k | 0 <= k < |perm| ensures perm[k] * lineSize + WORD <= layout.Size() {
        MulSpaced(perm[k], NumActiveLines(), lineSize);
      }
      ScaledSlots(layout, perm, lineSize, WORD);
    }

    // ------------------------------------------------------------ page_random_init

    lemma PageRing(perm: seq<nat>)
      requires Valid() && PagesFit() && IsPermutation(perm, numLinesInPage)
      requires PagesSplitCleanly(layout, pageSize, lineSize)
      ensures Ring(layout, PageOrder(numActivePages, Scaled(perm, lineSize), pageSize))
    {
      LinesFit();
      ScaledInPage(perm, pageSize, lineSize);
      PageOrderSpaced(numActivePages, Scaled(perm, lineSize), pageSize, lineSize);
      PageOrderSlots(layout, numActivePages, perm, pageSize, lineSize, WORD);
    }

    /** Position of line j of page i, of the line after it, and of the first line of the page
        after it. */
    lemma PagePositions(lines: seq<nat>, i: nat, j: nat)
      requires Valid() && i < numActivePages && j < |lines|
      ensures var r := PageOrder(numActivePages, lines, pageSize);
        var x := i * |lines| + j;
        && x < |r| && r[x] == i * pageSize + lines[j]
        && r[Succ(x, |r|)] == if j + 1 < |lines| then i * pageSize + lines[j + 1]
                              else (if i == numActivePages - 1 then 0 else i + 1) * pageSize + lines[0]
    {
      var n := |lines|;
      PageOrderAt(numActivePages, lines, pageSize, i, j);
      if j + 1 < n {
        PageOrderAt(numActivePages, lines, pageSize, i, j + 1);
      } else if i + 1 < numActivePages {
        PageOrderAt(numActivePages, lines, pageSize, i + 1, 0);
        assert i * n + j + 1 == (i + 1) * n;
      } else {
        PageOrderAt(numActivePages, lines, pageSize, 0, 0);
        assert i * n + j + 1 == numActivePages * n;
      }
    }

    /** What the stores of page_random_init need at least: each inside one of the two parts. */
    ghost predicate PageStoresFit() {
      HasLines()
      && Slots(layout, PageOrder(numActivePages, Scaled(Identity(numLinesInPage), lineSize), pageSize), WORD)
    }

    lemma AnyPagesFit(perm: seq<nat>)
      requires PageStoresFit() && IsPermutation(perm, numLinesInPage)
      ensures Slots(layout, PageOrder(numActivePages, Scaled(perm, lineSize), pageSize), WORD)
    {
      var inOrder := Scaled(Identity(numLinesInPage), lineSize);
      var r := PageOrder(numActivePages, Scaled(perm, lineSize), pageSize);
      forall x | 0 <= x < |r| ensures layout.Fits(r[x], WORD) {
        var i, j := PageOrderSplit(numActivePages, Scaled(perm, lineSize), pageSize, x);
        PageOrderAt(numActivePages, inOrder, pageSize, i, perm[j]);
      }
    }

    method PageRandomInit(rnd: Random)
      requires Valid() && PageStoresFit() && numLinesInPage <= TWO32
      modifies this`order, region1, region2
      ensures Valid() && |order| == NumActiveLines()
      ensures AnyOrderInPage(order, numActivePages, pageSize, numLinesInPage, lineSize)
      ensures DrawnPages(order, numActivePages, pageSize, lineSize, rnd)
      ensures LinkedFrom(old(Bytes()))
    {
      hide Slots, LinkedFrom;
      LinesExist();
      var pages := new nat[numActivePages](_ => 0);
      var linesInPage := new nat[numLinesInPage](_ => 0);
      ghost var inOrder := RandomizeSequence(pages, pageSize, true, rnd);
      ghost var perm := RandomizeSequence(linesInPage, lineSize, false, rnd);
      ghost var lines := linesInPage[..];
      assert lines == Scaled(perm, lineSize);
      order := PageOrder(numActivePages, lines, pageSize);
      AnyPagesFit(perm);
      ghost var m0 := Bytes();
      LinkPages(pages, linesInPage);
      ScaledInPage(perm, pageSize, lineSize);
      PageOrderSpaced(numActivePages, lines, pageSize, lineSize);
      WideLinesAreLinked(m0);
    }

    /** The outer loop of page_random_init. */
    method LinkPages(pages: array<nat>, linesInPage: array<nat>)
      requires Valid()
      requires pages.Length == numActivePages > 0 && linesInPage.Length == numLinesInPage > 0
      requires Multiples(pages[..], Identity(numActivePages), pageSize)
      requires order == PageOrder(numActivePages, linesInPage[..], pageSize) && Slots(layout, order, WORD)
      requires linesInPage[0] == 0
      modifies region1, region2
      ensures Bytes() == Stored(layout, old(Bytes()), order, |order|)
    {
      hide Slots, Stored;
      ghost var m0 := Bytes();
      var i := 0;
      StoredNothing(layout, m0, order);
      while i < numActivePages
        invariant 0 <= i <= numActivePages && i * numLinesInPage <= |order|
        invariant Bytes() == Stored(layout, m0, order, i * numLinesInPage)
      {
        var nextPage := if i == numActivePages - 1 then 0 else i + 1;
        assert pages[..][i] == Identity(numActivePages)[i] * pageSize;
        assert pages[..][nextPage] == Identity(numActivePages)[nextPage] * pageSize;
        LinkPage(m0, linesInPage, i, pages[i], pages[nextPage]);
        i := i + 1;
      }
    }

    /** One turn of that loop: the lines of page i, then on to the next page. */
    method LinkPage(ghost m0: seq<byte>, linesInPage: array<nat>, ghost i: nat, pageStart: nat, nextStart: nat)
      requires Valid() && |m0| == size
      requires linesInPage.Length == numLinesInPage > 0 && i < numActivePages
      requires order == PageOrder(numActivePages, linesInPage[..], pageSize) && Slots(layout, order, WORD)
      requires pageStart == i * pageSize && i * numLinesInPage <= |order|
      requires nextStart == (if i == numActivePages - 1 then 0 else i + 1) * pageSize
      requires Bytes() == Stored(layout, m0, order, i * numLinesInPage)
      modifies region1, region2
      ensures (i + 1) * numLinesInPage <= |order|
      ensures Bytes() == Stored(layout, m0, order, (i + 1) * numLinesInPage)
    {
      hide Slots, Stored;
      ghost var lines, x := linesInPage[..], i * numLinesInPage;
      var j := 0;
      while j < numLinesInPage - 1
        invariant 0 <= j <= numLinesInPage - 1 && x + j <= |order|
        invariant Bytes() == Stored(layout, m0, order, x + j)
      {
        PagePositions(lines, i, j);
        StoreNext(m0, x + j, pageStart + linesInPage[j], pageStart + linesInPage[j + 1]);
        j := j + 1;
      }
      PagePositions(lines, i, j);
      StoreNext(m0, x + j, pageStart + linesInPage[numLinesInPage - 1], nextStart + linesInPage[0]);
      MulSucc(i, numLinesInPage);
    }
  }
}
