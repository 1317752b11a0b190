/** The three orders in which the lines of a region are linked, and why their slots never
    overlap and stay inside the allocations. */
module Orders {
  import opened Arithmetic
  import opened MemLayout
  import opened Chase

  /** 0, unit, 2 * unit, ... taken in the order `perm`. */
  ghost function Scaled(perm: seq<nat>, unit: nat): (r: seq<nat>)
    ensures |r| == |perm|
    ensures forall k :: 0 <= k < |r| ==> r[k] == perm[k] * unit
  {
    seq(|perm|, k requires 0 <= k < |perm| => perm[k] * unit)
  }

  /** Pages 0, ..., pages - 1 one after the other, each through the same line offsets. */
  ghost function PageOrder(pages: nat, lines: seq<nat>, page: nat): (r: seq<nat>)
    ensures |r| == pages * |lines|
  {
    if pages == 0 then [] else
      PageOrder(pages - 1, lines, page) + seq(|lines|, j requires 0 <= j < |lines| => (pages - 1) * page + lines[j])
  }

  /** A permutation of 0, ..., n - 1 that starts with 0. */
  ghost predicate FromZero(perm: seq<nat>, n: nat) {
    IsPermutation(perm, n) && n > 0 && perm[0] == 0
  }

  /** All `count` lines in some order that starts at offset 0. */
  ghost predicate AnyLineOrder(r: seq<nat>, count: nat, line: nat) {
    exists perm :: FromZero(perm, count) && r == Scaled(perm, line)
  }

  /** Page after page, the `count` lines of each in the same order, which starts at the first. */
  ghost predicate AnyOrderInPage(r: seq<nat>, pages: nat, page: nat, count: nat, line: nat) {
    exists perm :: FromZero(perm, count) && r == PageOrder(pages, Scaled(perm, line), page)
  }

  /** The number of lines that stride_init links: the multiples of the line size below the
      active size. */
  function StrideCount(active: nat, line: nat): nat
    requires line > 0
  {
    (active + line - 1) / line
  }

  lemma StrideCountBounds(active: nat, line: nat)
    requires 0 < line && 0 < active
    ensures StrideCount(active, line) > 0
    ensures (StrideCount(active, line) - 1) * line < active <= StrideCount(active, line) * line
  {
    var n := StrideCount(active, line);
    assert active + line - 1 == n * line + (active + line - 1) % line;
    assert n * line == (n - 1) * line + line;
    assert n == 0 ==> n * line == 0;
  }

  /** Below n, k * line < active exactly when k is a stride position. */
  lemma StridePosition(active: nat, line: nat, k: nat)
    requires 0 < line && 0 < active
    ensures k * line < active <==> k < StrideCount(active, line)
  {
    StrideCountBounds(active, line);
    var n := StrideCount(active, line);
    if k < n { MulMono(k, n - 1, line); } else { MulMono(n, k, line); }
  }

  lemma ScaledSpaced(perm: seq<nat>, unit: nat)
    requires Distinct(perm)
    ensures Spaced(Scaled(perm, unit), unit)
  {
    var r := Scaled(perm, unit);
    forall i, j | 0 <= i < j < |r| ensures r[i] + unit <= r[j] || r[j] + unit <= r[i] {
      if perm[i] < perm[j] {
        MulSpaced(perm[i], perm[j], unit);
      } else {
        MulSpaced(perm[j], perm[i], unit);
      }
    }
  }

  /** A slot at a multiple of `unit` does not straddle a boundary that is a multiple of it. */
  lemma MultipleFits(l: Layout, k: nat, unit: nat, w: nat)
    requires 0 < unit && w <= unit && k * unit + w <= l.Size()
    requires l.size2 == 0 || l.size1 % unit == 0
    ensures l.Fits(k * unit, w)
  {
    if l.size2 > 0 {
      var b := l.size1 / unit;
      assert l.size1 == b * unit;
      if k < b { MulSpaced(k, b, unit); } else { MulMono(b, k, unit); }
    }
  }

  lemma ScaledSlots(l: Layout, perm: seq<nat>, unit: nat, w: nat)
    requires 0 < unit && w <= unit
    requires l.size2 == 0 || l.size1 % unit == 0
    requires forall k :: 0 <= k < |perm| ==> perm[k] * unit + w <= l.Size()
    ensures Slots(l, Scaled(perm, unit), w)
  {
    forall k | 0 <= k < |perm| ensures l.Fits(perm[k] * unit, w) {
      MultipleFits(l, perm[k], unit, w);
    }
  }

  // ---------------------------------------------------------------- page order

  /** The j-th line of page i is at position i * L + j. */
  lemma {:induction false} PageOrderAt(pages: nat, lines: seq<nat>, page: nat, i: nat, j: nat)
    requires i < pages && j < |lines|
    ensures 0 <= i * |lines| + j < pages * |lines|
    ensures PageOrder(pages, lines, page)[i * |lines| + j] == i * page + lines[j]
  {
    MulSpaced(i, pages, |lines|);
    if i < pages - 1 {
      PageOrderAt(pages - 1, lines, page, i, j);
    }
  }

  /** Every position belongs to one page and one line of it. */
  lemma PageOrderSplit(pages: nat, lines: seq<nat>, page: nat, x: nat) returns (i: nat, j: nat)
    requires x < pages * |lines|
    ensures i < pages && j < |lines| && x == i * |lines| + j
    ensures PageOrder(pages, lines, page)[x] == i * page + lines[j]
  {
    assert |lines| == 0 ==> pages * |lines| == 0;
    i, j := x / |lines|, x % |lines|;
    assert x == i * |lines| + j;
    if i >= pages {
      MulMono(pages, i, |lines|);
    }
    PageOrderAt(pages, lines, page, i, j);
  }

  /** The lines of a page that starts at a multiple of the page size stay in that page. */
  ghost predicate LinesInPage(lines: seq<nat>, page: nat, line: nat) {
    Spaced(lines, line) && forall j :: 0 <= j < |lines| ==> lines[j] + line <= page
  }

  lemma ScaledInPage(perm: seq<nat>, page: nat, line: nat)
    requires 0 < line && IsPermutation(perm, page / line)
    ensures LinesInPage(Scaled(perm, line), page, line)
  {
    ScaledSpaced(perm, line);
    var n := page / line;
    assert page == n * line + page % line;
    forall j | 0 <= j < |perm| ensures perm[j] * line + line <= page {
      MulSpaced(perm[j], n, line);
    }
  }

  lemma PageOrderSpaced(pages: nat, lines: seq<nat>, page: nat, line: nat)
    requires LinesInPage(lines, page, line)
    ensures Spaced(PageOrder(pages, lines, page), line)
  {
    var r := PageOrder(pages, lines, page);
    forall x, y | 0 <= x < y < |r| ensures r[x] + line <= r[y] || r[y] + line <= r[x] {
      var i, j := PageOrderSplit(pages, lines, page, x);
      var u, v := PageOrderSplit(pages, lines, page, y);
      SamePlace(i, j, u, v, |lines|);
      if i < u {
        MulSpaced(i, u, page);
      }
    }
  }

  lemma SamePlace(i: nat, j: nat, u: nat, v: nat, n: nat)
    requires j < n && v < n && i * n + j < u * n + v
    ensures i < u || (i == u && j < v)
  {
    if i > u {
      MulSpaced(u, i, n);
    }
  }

  /** Sizes under which no line of a page-ordered region straddles the two allocations. */
  predicate PagesSplitCleanly(l: Layout, page: nat, line: nat)
    requires page > 0 && line > 0
  {
    l.size2 == 0 || l.size1 % page == 0 || (page % line == 0 && l.size1 % line == 0)
  }

  lemma PageOrderSlots(l: Layout, pages: nat, perm: seq<nat>, page: nat, line: nat, w: nat)
    requires 0 < line && 0 < page && w <= line && IsPermutation(perm, page / line)
    requires pages * page <= l.Size() && PagesSplitCleanly(l, page, line)
    ensures Slots(l, PageOrder(pages, Scaled(perm, line), page), w)
  {
    var lines := Scaled(perm, line);
    var r := PageOrder(pages, lines, page);
    ScaledInPage(perm, page, line);
    forall x | 0 <= x < |r| ensures l.Fits(r[x], w) {
      var i, j := PageOrderSplit(pages, lines, page, x);
      MulSpaced(i, pages, page);
      PageLineFits(l, i, perm[j], page, line, w);
    }
  }

  lemma OffsetFits(l: Layout, o: nat, k: nat, unit: nat, w: nat)
    requires 0 < unit && w <= unit && o == k * unit && o + w <= l.Size()
    requires l.size2 == 0 || l.size1 % unit == 0
    ensures l.Fits(o, w)
  {
    MultipleFits(l, k, unit, w);
  }

  lemma WholePage(l: Layout, i: nat, page: nat)
    requires i * page + page <= l.Size()
    ensures l.size2 == 0 ==> l.Fits(i * page, page)
  {}

  lemma PageLineFits(l: Layout, i: nat, k: nat, page: nat, line: nat, w: nat)
    requires 0 < line && 0 < page && w <= line && k * line + line <= page
    requires i * page + page <= l.Size() && PagesSplitCleanly(l, page, line)
    ensures l.Fits(i * page + k * line, w)
  {
    hide Layout.Fits;
    WholePage(l, i, page);
    if l.size2 == 0 {
      InnerSlotFits(l, i * page, page, k * line, w);
    } else {
      if l.size1 % page == 0 {
        MultipleFits(l, i, page, page);
        InnerSlotFits(l, i * page, page, k * line, w);
      } else {
        var c := page / line;
        RegroupLines(i, c, k, line);
        OffsetFits(l, i * page + k * line, i * c + k, line, w);
      }
    }
  }

  lemma InnerSlotFits(l: Layout, o: nat, page: nat, d: nat, w: nat)
    requires l.Fits(o, page) && d + w <= page
    ensures l.Fits(o + d, w)
  {}

  lemma RegroupLines(i: nat, c: nat, k: nat, line: nat)
    ensures i * (c * line) + k * line == (i * c + k) * line
  {
    assert i * (c * line) == (i * c) * line;
  }

  // ---------------------------------------------------------------- coverage

  /** Every one of the `count` lines is in the list, nothing else is, and it starts at 0. */
  lemma LineOrderCovers(r: seq<nat>, count: nat, line: nat)
    requires 0 < line && AnyLineOrder(r, count, line)
    ensures |r| == count && r[0] == 0 && Distinct(r)
    ensures forall o: nat :: o in r <==> o % line == 0 && o / line < count
  {
    var perm :| FromZero(perm, count) && r == Scaled(perm, line);
    assert forall i, j :: 0 <= i < j < |r| ==> r[i] != r[j] by {
      ScaledSpaced(perm, line);
    }
    forall o: nat ensures o in r <==> o % line == 0 && o / line < count {
      ScaledMember(perm, count, line, o);
    }
  }

  lemma ScaledMember(perm: seq<nat>, count: nat, line: nat, o: nat)
    requires 0 < line && IsPermutation(perm, count)
    ensures o in Scaled(perm, line) <==> o % line == 0 && o / line < count
  {
    if o in Scaled(perm, line) {
      var k :| 0 <= k < count && Scaled(perm, line)[k] == o;
      MultipleMod(perm[k], line);
    }
    if o % line == 0 && o / line < count {
      PermutationOnto(perm, count, o / line);
      var k :| 0 <= k < count && perm[k] == o / line;
      assert Scaled(perm, line)[k] == o;
    }
  }

  /** Page i starts at position i * count, at its first line, and its other lines follow
      before the next page is entered; every line of every page is in the list. */
  lemma PageOrderCovers(r: seq<nat>, pages: nat, page: nat, count: nat, line: nat, i: nat, j: nat)
    requires 0 < line && AnyOrderInPage(r, pages, page, count, line)
    requires i < pages && j < count
    ensures |r| == pages * count && i * count + j < |r|
    ensures r[i * count] == i * page
    ensures exists k :: 0 <= k < count && r[i * count + j] == i * page + k * line
    ensures i * page + j * line in r[i * count..(i + 1) * count]
  {
    hide PageOrder;
    var perm :| FromZero(perm, count) && r == PageOrder(pages, Scaled(perm, line), page);
    var lines := Scaled(perm, line);
    PageOrderAt(pages, lines, page, i, 0);
    PageOrderAt(pages, lines, page, i, j);
    PermutationOnto(perm, count, j);
    var v :| 0 <= v < count && perm[v] == j;
    PageOrderAt(pages, lines, page, i, v);
    MulSucc(i, count);
    MulMono(i + 1, pages, count);
    assert r[i * count..(i + 1) * count][v] == i * page + j * line;
  }

  /** c lines in whole pages end where the active size does only if lines divide pages and
      pages the active size. */
  lemma LinesOfPages(active: nat, page: nat, line: nat, p: nat, n: nat, c: nat)
    requires 0 < line && 0 < page && p == active / page && n == page / line && c == p * n
    ensures c * line <= active
    ensures 0 < c && c * line == active ==> page % line == 0 && active % page == 0
  {
    assert active == p * page + active % page && page == n * line + page % line;
    assert p * (n * line) == c * line;
    MulMono(n * line, page, p);
    assert p == 0 ==> c == 0;
    if 0 < p && page % line != 0 {
      LessEach(n * line, page, p);
    }
  }

  lemma LessEach(a: nat, b: nat, p: nat)
    requires a < b && 0 < p
    ensures p * a < p * b
  {
    MulMono(1, p, b - a);
    assert p * (b - a) == p * b - p * a;
  }

  lemma LinesDividing(active: nat, page: nat, line: nat, p: nat, n: nat, c: nat)
    requires 0 < line && 0 < page && p == active / page && n == page / line && c == p * n
    requires page % line == 0 && active % page == 0
    ensures StrideCount(active, line) == c
  {
    assert active == p * page && page == n * line;
    assert p * (n * line) == c * line;
    DivModUnique(active + line - 1, line, c, line - 1);
  }

  lemma CountsCompare(active: nat, line: nat, c: nat, s: nat)
    requires 0 < s && c * line <= active && (s - 1) * line < active <= s * line
    ensures c <= s && (c == s ==> c * line == active)
  {
    if s < c {
      MulSpaced(s, c, line);
    }
  }

  /** stride_init links as many lines as there are in n lines of each of p pages, which the
      other two initialisers link, if and only if lines divide pages and pages the active size;
      otherwise it links more. */
  lemma StrideCountIsLineCount(active: nat, page: nat, line: nat, p: nat, n: nat)
    requires 0 < line && 0 < page && 0 < active && p == active / page && n == page / line
    ensures p * n <= StrideCount(active, line)
    ensures StrideCount(active, line) == p * n <==> page % line == 0 && active % page == 0
  {
    hide StrideCount;
    var c: nat, s := p * n, StrideCount(active, line);
    StrideCountBounds(active, line);
    LinesOfPages(active, page, line, p, n, c);
    CountsCompare(active, line, c, s);
    if page % line == 0 && active % page == 0 {
      LinesDividing(active, page, line, p, n, c);
    }
  }
}
