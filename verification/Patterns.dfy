/** The pattern argument of the programs, which chooses how a region is threaded. */
module Patterns {
  import opened Words
  import opened MemLayout
  import opened Chase
  import opened Orders
  import opened RandomStream
  import opened Shuffle
  import opened Region

  datatype Pattern = Stride | PageRand | AllRand | Unknown

  /** The order in which a freshly initialised region is linked. */
  ghost predicate OrderFor(region: MemRegion, pattern: Pattern, order: seq<nat>)
    requires region.Valid()
    reads region
  {
    match pattern
    case Stride => order == region.StrideOrder()
    case PageRand =>
      AnyOrderInPage(order, region.numActivePages, region.pageSize, region.numLinesInPage, region.lineSize)
    case AllRand => AnyLineOrder(order, region.NumActiveLines(), region.lineSize)
    case Unknown => false
  }

  /** The order that the values of rand() lead to. */
  ghost predicate DrawnAs(region: MemRegion, pattern: Pattern, rnd: Random)
    reads region
  {
    && (pattern.PageRand? ==>
          DrawnPages(region.order, region.numActivePages, region.pageSize, region.lineSize, rnd))
    && (pattern.AllRand? ==> DrawnLines(region.order, region.lineSize, rnd))
  }

  /** What the initialiser of the pattern needs: that there is a line, and that each of its
      stores is inside one of the two parts of the region. */
  ghost predicate Storable(region: MemRegion, pattern: Pattern)
    requires region.Valid()
    reads region
  {
    match pattern
    case Stride => region.StrideStoresFit()
    case PageRand => region.PageStoresFit() && region.numLinesInPage <= TWO32
    case AllRand => region.LineStoresFit() && region.NumActiveLines() <= TWO32
    case Unknown => true
  }

  /** Sizes with which they are: lines hold a pointer, pages and lines do not straddle the
      joint of the two parts, and the active part is inside the region. */
  ghost predicate Fitting(region: MemRegion, pattern: Pattern)
    requires region.Valid()
    reads region
  {
    match pattern
    case Stride => region.StrideFits()
    case PageRand =>
      region.PagesFit() && region.numLinesInPage <= TWO32
      && PagesSplitCleanly(region.layout, region.pageSize, region.lineSize)
    case AllRand =>
      region.PagesFit() && region.NumActiveLines() <= TWO32
      && (region.layout.size2 == 0 || region.layout.size1 % region.lineSize == 0)
    case Unknown => true
  }

  lemma FittingIsStorable(region: MemRegion, pattern: Pattern)
    requires region.Valid() && Fitting(region, pattern)
    ensures Storable(region, pattern)
  {
    match pattern
    case Stride => region.StrideRing();
    case PageRand =>
      IdentityIsPermutation(region.numLinesInPage);
      region.PageRing(Identity(region.numLinesInPage));
    case AllRand =>
      IdentityIsPermutation(region.NumActiveLines());
      region.AllRandomRing(Identity(region.NumActiveLines()));
    case Unknown =>
  }

  /** The choice; an unknown pattern leaves the region alone and ends the program. */
  method Initialise(region: MemRegion, pattern: Pattern, rnd: Random) returns (known: bool)
    requires region.Valid() && Storable(region, pattern)
    modifies region`order, region.region1, region.region2
    ensures region.Valid() && (known <==> !pattern.Unknown?)
    ensures known ==> OrderFor(region, pattern, region.order) && DrawnAs(region, pattern, rnd)
    ensures known ==> |region.order| > 0 && region.LinkedFrom(old(region.Bytes()))
    ensures !known ==> region.Bytes() == old(region.Bytes())
  {
    hide MemRegion.LinkedFrom, Slots, Identity;
    known := true;
    match pattern {
      case Stride =>
        StrideCountBounds(region.activeSize, region.lineSize);
        region.StrideInit();
      case PageRand =>
        region.LinesExist();
        region.PageRandomInit(rnd);
      case AllRand =>
        region.LinesExist();
        region.AllRandomInit(rnd);
      case Unknown => known := false;
    }
  }

  /** How many lines the list has, by pattern: numActiveLines for the random patterns, and for
      strides that divide the page where pages divide the active size. */
  ghost function LinesOf(region: MemRegion, pattern: Pattern): nat {
    if pattern.Stride? then StrideCount(region.activeSize, region.lineSize) else region.NumActiveLines()
  }

  lemma ListShape(region: MemRegion, pattern: Pattern, order: seq<nat>)
    requires region.Valid() && OrderFor(region, pattern, order) && 0 < |order| && 0 < region.activeSize
    ensures |order| == LinesOf(region, pattern) && order[0] == 0
    ensures pattern.Stride? ==> forall k :: 0 <= k < |order| ==> order[k] == k * region.lineSize
  {
    match pattern
    case Stride => StrideCountBounds(region.activeSize, region.lineSize);
    case PageRand =>
      var pages: int, lines: int := region.numActivePages, region.numLinesInPage;
      assert |order| == pages * lines;
      assert pages == 0 ==> pages * lines == 0;
      assert lines == 0 ==> pages * lines == 0;
      PageOrderCovers(order, region.numActivePages, region.pageSize, region.numLinesInPage, region.lineSize, 0, 0);
    case AllRand => LineOrderCovers(order, region.NumActiveLines(), region.lineSize);
  }
}
