/** The group-picking loop of src/misc/contiguous_mem_alloc.cc: pages that are physically
    contiguous and aligned, found in a pool sorted by physical address. */
module PagePicker {
  import opened Arithmetic

  datatype PageInfo = PageInfo(vaddr: nat, paddr: nat)

  /** The pool after sorting: distinct page-aligned physical addresses in ascending order. */
  ghost predicate SortedPool(pool: seq<PageInfo>, page: nat)
    requires page > 0
  {
    && (forall i, j :: 0 <= i < j < |pool| ==> pool[i].paddr < pool[j].paddr)
    && (forall i :: 0 <= i < |pool| ==> pool[i].paddr % page == 0)
  }

  /** What the loop tests: an aligned page, and the right page group - 1 places further. */
  predicate Window(pool: seq<PageInfo>, idx: nat, group: nat, page: nat)
    requires group > 0 && page > 0
  {
    && idx + group <= |pool|
    && (group * page > 0 && pool[idx].paddr % (group * page) == 0)
    && pool[idx + group - 1].paddr == pool[idx].paddr + group * page - page
  }

  /** All pages of an aligned group are in the pool, wherever they stand. */
  ghost predicate CompleteGroup(pool: seq<PageInfo>, base: nat, group: nat, page: nat)
    requires group > 0 && page > 0
  {
    && (group * page > 0 && base % (group * page) == 0)
    && forall j :: 0 <= j < group ==> InPool(pool, base + j * page)
  }

  ghost predicate InPool(pool: seq<PageInfo>, a: nat) {
    exists i :: 0 <= i < |pool| && pool[i].paddr == a
  }

  // ---------------------------------------------------------------- endpoints suffice

  lemma NextMultiple(a: nat, b: nat, page: nat)
    requires page > 0 && a % page == 0 && b % page == 0 && a < b
    ensures a + page <= b
  {
    assert a == (a / page) * page && b == (b / page) * page;
    if a / page >= b / page {
      MulMono(b / page, a / page, page);
    }
    MulSpaced(a / page, b / page, page);
  }

  /** j places further in the pool, the address is at least j pages higher. */
  lemma {:induction false} PoolSpread(pool: seq<PageInfo>, page: nat, i: nat, j: nat)
    requires page > 0 && SortedPool(pool, page) && i + j < |pool|
    ensures pool[i].paddr + j * page <= pool[i + j].paddr
    decreases j
  {
    if j > 0 {
      PoolSpread(pool, page, i, j - 1);
      NextMultiple(pool[i + j - 1].paddr, pool[i + j].paddr, page);
      MulSucc(j - 1, page);
    }
  }

  /** Soundness: the test of the two ends implies that every page in between is there, in
      order and without a gap. */
  lemma WindowIsContiguous(pool: seq<PageInfo>, page: nat, group: nat, idx: nat, j: nat)
    requires page > 0 && group > 0 && SortedPool(pool, page) && Window(pool, idx, group, page) && j < group
    ensures pool[idx + j].paddr == pool[idx].paddr + j * page
  {
    PoolSpread(pool, page, idx, j);
    PoolSpread(pool, page, idx + j, group - 1 - j);
    assert (group - 1 - j) * page + j * page == group * page - page by {
      MulSucc(group - 1, page);
      assert (group - 1 - j) * page + j * page == (group - 1) * page;
    }
  }

  lemma WindowIsComplete(pool: seq<PageInfo>, page: nat, group: nat, idx: nat)
    requires page > 0 && group > 0 && SortedPool(pool, page) && Window(pool, idx, group, page)
    ensures CompleteGroup(pool, pool[idx].paddr, group, page)
  {
    forall j | 0 <= j < group ensures InPool(pool, pool[idx].paddr + j * page) {
      WindowIsContiguous(pool, page, group, idx, j);
    }
  }

  lemma AddressOrder(pool: seq<PageInfo>, page: nat, i: nat, j: nat)
    requires page > 0 && SortedPool(pool, page) && i < |pool| && j < |pool|
    ensures pool[i].paddr < pool[j].paddr <==> i < j
  {}

  /** The pages of a complete group stand next to each other in the pool. */
  lemma {:induction false} GroupIsAdjacent(pool: seq<PageInfo>, page: nat, group: nat, base: nat, i: nat, j: nat)
    requires page > 0 && group > 0 && SortedPool(pool, page) && CompleteGroup(pool, base, group, page)
    requires i < |pool| && pool[i].paddr == base && j < group
    ensures i + j < |pool| && pool[i + j].paddr == base + j * page
    decreases j
  {
    if j > 0 {
      GroupIsAdjacent(pool, page, group, base, i, j - 1);
      MulSucc(j - 1, page);
      assert InPool(pool, base + j * page);
      var k :| 0 <= k < |pool| && pool[k].paddr == base + j * page;
      AddressOrder(pool, page, i + j - 1, k);
      NextMultiple(pool[i + j - 1].paddr, pool[i + j].paddr, page);
      AddressOrder(pool, page, i + j, k);
    }
  }

  /** Completeness: the page at the base of a complete group passes the test. */
  lemma CompleteHasWindow(pool: seq<PageInfo>, page: nat, group: nat, i: nat)
    requires page > 0 && group > 0 && SortedPool(pool, page) && i < |pool|
    requires CompleteGroup(pool, pool[i].paddr, group, page)
    ensures Window(pool, i, group, page)
  {
    GroupIsAdjacent(pool, page, group, pool[i].paddr, i, group - 1);
    MulSucc(group - 1, page);
  }

  // ---------------------------------------------------------------- the picks

  /** The places below n at which the test succeeds, in order. */
  function Starts(pool: seq<PageInfo>, group: nat, page: nat, n: nat): (s: seq<nat>)
    requires group > 0 && page > 0
    ensures forall k :: 0 <= k < |s| ==> s[k] < n && Window(pool, s[k], group, page)
    ensures forall j, k :: 0 <= j < k < |s| ==> s[j] < s[k]
  {
    if n == 0 then []
    else if Window(pool, n - 1, group, page) then Starts(pool, group, page, n - 1) + [n - 1]
    else Starts(pool, group, page, n - 1)
  }

  lemma {:induction false} StartsComplete(pool: seq<PageInfo>, group: nat, page: nat, n: nat, i: nat)
    requires group > 0 && page > 0 && i < n && Window(pool, i, group, page)
    ensures i in Starts(pool, group, page, n)
  {
    if i < n - 1 {
      StartsComplete(pool, group, page, n - 1, i);
    }
  }

  lemma {:induction false} StartsPrefix(pool: seq<PageInfo>, group: nat, page: nat, n: nat, m: nat)
    requires group > 0 && page > 0 && n <= m
    ensures Starts(pool, group, page, n) <= Starts(pool, group, page, m)
    decreases m
  {
    if n < m {
      StartsPrefix(pool, group, page, n, m - 1);
    }
  }

  lemma {:induction false} NoStartsAtTheEnd(pool: seq<PageInfo>, group: nat, page: nat, n: nat, m: nat)
    requires group > 0 && page > 0 && n <= m && |pool| < n + group
    ensures Starts(pool, group, page, m) == Starts(pool, group, page, n)
    decreases m
  {
    if n < m {
      NoStartsAtTheEnd(pool, group, page, n, m - 1);
    }
  }

  /** The pages of the groups that start at these places. */
  function Flatten(pool: seq<PageInfo>, starts: seq<nat>, group: nat): (r: seq<PageInfo>)
    requires forall k :: 0 <= k < |starts| ==> starts[k] + group <= |pool|
    ensures |r| == |starts| * group
  {
    if starts == [] then [] else
      MulSucc(|starts| - 1, group);
      var last := starts[|starts| - 1];
      Flatten(pool, starts[..|starts| - 1], group) + pool[last..last + group]
  }

  function Take(s: seq<nat>, k: nat): seq<nat> {
    if |s| <= k then s else s[..k]
  }

  /** The picks: the groups that start at the first places where the test succeeds. */
  function Picks(pool: seq<PageInfo>, group: nat, page: nat, groups: nat): (r: seq<PageInfo>)
    requires group > 0 && page > 0
  {
    Flatten(pool, Take(Starts(pool, group, page, |pool|), groups), group)
  }

  lemma FlattenSnoc(pool: seq<PageInfo>, starts: seq<nat>, group: nat, i: nat)
    requires forall k :: 0 <= k < |starts| ==> starts[k] + group <= |pool|
    requires i + group <= |pool|
    ensures Flatten(pool, starts + [i], group) == Flatten(pool, starts, group) + pool[i..i + group]
  {
    assert (starts + [i])[..|starts|] == starts;
  }

  /** A successful test adds a group, for which there is room; the array is full exactly
      when all wanted groups are in it. */
  lemma GroupFound(pool: seq<PageInfo>, group: nat, page: nat, groups: nat, idx: nat)
    requires group > 0 && page > 0 && Window(pool, idx, group, page)
    requires |Starts(pool, group, page, idx)| < groups
    ensures var s, s' := Starts(pool, group, page, idx), Starts(pool, group, page, idx + 1);
      && |s'| * group == |s| * group + group <= groups * group
      && Flatten(pool, s', group) == Flatten(pool, s, group) + pool[idx..idx + group]
      && (|s'| * group >= groups * group <==> |s'| == groups)
  {
    var s := Starts(pool, group, page, idx);
    MulMono(|s| + 1, groups, group);
    MulSucc(|s|, group);
    FlattenSnoc(pool, s, group, idx);
    if |s| + 1 < groups {
      MulSpaced(|s| + 1, groups, group);
    }
  }

  lemma PicksWhenFull(pool: seq<PageInfo>, group: nat, page: nat, groups: nat, idx: nat)
    requires group > 0 && page > 0 && idx < |pool| && |Starts(pool, group, page, idx + 1)| == groups
    ensures Picks(pool, group, page, groups) == Flatten(pool, Starts(pool, group, page, idx + 1), group)
  {
    StartsPrefix(pool, group, page, idx + 1, |pool|);
    TakePrefix(Starts(pool, group, page, idx + 1), Starts(pool, group, page, |pool|));
  }

  lemma TakePrefix(t: seq<nat>, s: seq<nat>)
    requires t <= s
    ensures Take(s, |t|) == t
  {}

  lemma PicksAtTheEnd(pool: seq<PageInfo>, group: nat, page: nat, groups: nat, idx: nat)
    requires group > 0 && page > 0 && |pool| < idx + group && |Starts(pool, group, page, idx)| < groups
    requires idx <= |pool|
    ensures Picks(pool, group, page, groups) == Flatten(pool, Starts(pool, group, page, idx), group)
  {
    NoStartsAtTheEnd(pool, group, page, idx, |pool|);
  }

  /** The loop: the array has room for a whole number of groups and is never overrun. */
  method PickGroups(pool: array<PageInfo>, group: nat, page: nat, groups: nat, picks: array<PageInfo>)
    returns (numPicks: nat)
    requires group > 0 && page > 0 && groups > 0 && picks.Length == groups * group && pool != picks
    modifies picks
    ensures numPicks <= picks.Length && picks[..numPicks] == Picks(pool[..], group, page, groups)
  {
    ghost var all := pool[..];
    ghost var s := [];
    numPicks := 0;
    var idx := 0;
    while idx + group - 1 < pool.Length
      invariant 0 <= idx <= pool.Length && pool[..] == all
      invariant s == Starts(all, group, page, idx) && |s| < groups
      invariant numPicks == |s| * group <= picks.Length
      invariant picks[..numPicks] == Flatten(all, s, group)
    {
      var chunk := group * page;
      ChunkPositive(group, page);
      if pool[idx].paddr % chunk == 0 {
        if pool[idx + group - 1].paddr == pool[idx].paddr + chunk - page {
          GroupFound(all, group, page, groups, idx);
          numPicks := CopyGroup(pool, idx, group, picks, numPicks);
          if numPicks >= picks.Length {
            PicksWhenFull(all, group, page, groups, idx);
            return;
          }
        }
      }
      idx := idx + 1;
      s := Starts(all, group, page, idx);
    }
    PicksAtTheEnd(all, group, page, groups, idx);
  }

  lemma ChunkPositive(group: nat, page: nat)
    requires group > 0 && page > 0
    ensures group * page > 0
  {
    MulMono(1, group, page);
  }

  /** The inner loop. */
  method CopyGroup(pool: array<PageInfo>, idx: nat, group: nat, picks: array<PageInfo>, numPicks: nat)
    returns (n: nat)
    requires pool != picks && idx + group <= pool.Length && numPicks + group <= picks.Length
    modifies picks
    ensures n == numPicks + group
    ensures picks[..n] == old(picks[..numPicks]) + pool[idx..idx + group]
  {
    n := numPicks;
    var j := 0;
    while j < group
      invariant 0 <= j <= group && n == numPicks + j
      invariant picks[..n] == old(picks[..numPicks]) + pool[idx..idx + j]
    {
      picks[n] := pool[idx + j];
      n := n + 1;
      j := j + 1;
    }
  }

  // ---------------------------------------------------------------- what the picks are

  /** Where complete groups start. */
  ghost function GroupBases(pool: seq<PageInfo>, group: nat, page: nat): (s: set<nat>)
    requires group > 0 && page > 0
    ensures forall i: nat :: i in s <==> i < |pool| && CompleteGroup(pool, pool[i].paddr, group, page)
  {
    set i: nat | 0 <= i < |pool| && CompleteGroup(pool, pool[i].paddr, group, page)
  }

  /** The places where the test succeeds are exactly those at which complete groups start, so
      there are as many as there are complete groups in the pool. */
  lemma StartsAreGroupBases(pool: seq<PageInfo>, group: nat, page: nat)
    requires group > 0 && page > 0 && SortedPool(pool, page)
    ensures Elements(Starts(pool, group, page, |pool|)) == GroupBases(pool, group, page)
    ensures |Starts(pool, group, page, |pool|)| == |GroupBases(pool, group, page)|
  {
    var s := Starts(pool, group, page, |pool|);
    forall i: nat ensures i in Elements(s) <==> i in GroupBases(pool, group, page) {
      if i in s {
        WindowIsComplete(pool, page, group, i);
      }
      if i in GroupBases(pool, group, page) {
        CompleteHasWindow(pool, page, group, i);
        StartsComplete(pool, group, page, |pool|, i);
      }
    }
    DistinctCardinality(s);
  }

  lemma {:induction false} FlattenAt(pool: seq<PageInfo>, starts: seq<nat>, group: nat, k: nat, j: nat)
    requires forall x :: 0 <= x < |starts| ==> starts[x] + group <= |pool|
    requires k < |starts| && j < group
    ensures 0 <= k * group + j < |starts| * group
    ensures Flatten(pool, starts, group)[k * group + j] == pool[starts[k] + j]
    decreases |starts|
  {
    MulSpaced(k, |starts|, group);
    if k < |starts| - 1 {
      FlattenAt(pool, starts[..|starts| - 1], group, k, j);
      MulSpaced(k, |starts| - 1, group);
    }
  }

  /** Canonical picking: the picks are the pages of as many groups as there are complete
      ones, K, or as were wanted if K is larger ... */
  lemma PicksCount(pool: seq<PageInfo>, group: nat, page: nat, groups: nat)
    requires group > 0 && page > 0 && SortedPool(pool, page)
    ensures var n := |GroupBases(pool, group, page)|;
      |Picks(pool, group, page, groups)| == (if n <= groups then n else groups) * group
  {
    StartsAreGroupBases(pool, group, page);
  }

  ghost function Below(s: set<nat>, i: nat): set<nat> {
    set b | b in s && b < i
  }

  /** ... and the k-th group picked is a complete one, page for page, which exactly k complete
      groups of lower addresses precede. */
  lemma PicksAreCanonical(pool: seq<PageInfo>, group: nat, page: nat, groups: nat, k: nat, j: nat)
    returns (base: nat, x: nat)
    requires group > 0 && page > 0 && SortedPool(pool, page)
    requires k < groups && k < |GroupBases(pool, group, page)| && j < group
    ensures base in GroupBases(pool, group, page) && |Below(GroupBases(pool, group, page), base)| == k
    ensures x == k * group + j && x < |Picks(pool, group, page, groups)| && base + j < |pool|
    ensures Picks(pool, group, page, groups)[x] == pool[base + j]
    ensures pool[base + j].paddr == pool[base].paddr + j * page
  {
    StartsAreGroupBases(pool, group, page);
    base, x := PickAt(pool, group, page, groups, k, j);
    WindowIsContiguous(pool, page, group, base, j);
    BelowStart(Starts(pool, group, page, |pool|), k);
  }

  lemma PickAt(pool: seq<PageInfo>, group: nat, page: nat, groups: nat, k: nat, j: nat) returns (base: nat, x: nat)
    requires group > 0 && page > 0 && k < groups && k < |Starts(pool, group, page, |pool|)| && j < group
    ensures base == Starts(pool, group, page, |pool|)[k] && base in Elements(Starts(pool, group, page, |pool|))
    ensures Window(pool, base, group, page) && base + j < |pool|
    ensures x == k * group + j && x < |Picks(pool, group, page, groups)|
    ensures Picks(pool, group, page, groups)[x] == pool[base + j]
  {
    hide Flatten, Starts;
    var s := Starts(pool, group, page, |pool|);
    base, x := s[k], k * group + j;
    FlattenAt(pool, Take(s, groups), group, k, j);
  }

  lemma BelowStart(s: seq<nat>, k: nat)
    requires k < |s| && forall i, j :: 0 <= i < j < |s| ==> s[i] < s[j]
    ensures |Below(Elements(s), s[k])| == k
  {
    forall b ensures b in Below(Elements(s), s[k]) <==> b in Elements(s[..k]) {
      if b in Elements(s) && b < s[k] {
        var x :| 0 <= x < |s| && s[x] == b;
        assert x < k;
        assert s[..k][x] == b;
      }
    }
    assert Below(Elements(s), s[k]) == Elements(s[..k]);
    DistinctCardinality(s[..k]);
  }

  /** Groups never overlap, although the loop moves on by one page only. */
  lemma GroupsDoNotOverlap(pool: seq<PageInfo>, group: nat, page: nat, i: nat, j: nat)
    requires group > 0 && page > 0 && SortedPool(pool, page) && i < j
    requires Window(pool, i, group, page) && Window(pool, j, group, page)
    ensures i + group <= j
  {
    NextMultiple(pool[i].paddr, pool[j].paddr, group * page);
    var d := if j - i < group then j - i else 0;
    WindowIsContiguous(pool, page, group, i, d);
    MulMono(d + 1, group, page);
    MulSucc(d, page);
  }

  /** So no page is picked twice: the picks ascend strictly. */
  lemma PicksAscend(pool: seq<PageInfo>, group: nat, page: nat, groups: nat, x: nat, y: nat)
    requires group > 0 && page > 0 && SortedPool(pool, page)
    requires x < y < |Picks(pool, group, page, groups)|
    ensures Picks(pool, group, page, groups)[x].paddr < Picks(pool, group, page, groups)[y].paddr
  {
    var s := Take(Starts(pool, group, page, |pool|), groups);
    var a, i := PickPosition(pool, s, group, x);
    var b, j := PickPosition(pool, s, group, y);
    PositionsAscend(a, i, b, j, group);
    if a < b {
      GroupsDoNotOverlap(pool, group, page, s[a], s[b]);
    }
    assert s[a] + i < s[b] + j;
  }

  lemma PositionsAscend(a: nat, i: nat, b: nat, j: nat, group: nat)
    requires i < group && j < group && a * group + i < b * group + j
    ensures a < b || (a == b && i < j)
  {
    if a > b {
      MulSpaced(b, a, group);
    }
  }

  lemma PickPosition(pool: seq<PageInfo>, s: seq<nat>, group: nat, x: nat) returns (k: nat, j: nat)
    requires group > 0 && forall k :: 0 <= k < |s| ==> s[k] + group <= |pool|
    requires x < |s| * group
    ensures k < |s| && j < group && x == k * group + j
    ensures Flatten(pool, s, group)[x] == pool[s[k] + j]
  {
    k, j := x / group, x % group;
    assert x == k * group + j;
    if k >= |s| {
      MulMono(|s|, k, group);
    }
    FlattenAt(pool, s, group, k, j);
  }
}
