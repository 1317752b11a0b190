/** The page histogram of src/misc/perf_sample_cpu.cc: how often each process touched each
    page, in 32-bit counters, and the per-process totals printed from it. */
module PageHistogram {

  const WRAP: nat := 0x1_0000_0000

  /** The value a uint32_t holds. */
  function Wrap(n: nat): (r: nat)
    ensures r < WRAP && (n < WRAP ==> r == n)
  {
    n % WRAP
  }

  lemma WrapAdd(a: nat, b: nat)
    ensures Wrap(Wrap(a) + b) == Wrap(a + b) && Wrap(Wrap(a) + Wrap(b)) == Wrap(a + b)
  {
    var q, s := a / WRAP, b / WRAP;
    assert a + b == Wrap(a) + b + q * WRAP;
    assert a + b == Wrap(a) + Wrap(b) + (q + s) * WRAP;
  }

  lemma WrapSum(x: nat, a: nat, y: nat, b: nat)
    requires x == Wrap(a) && y == Wrap(b)
    ensures Wrap(x + y) == Wrap(a + b)
  {
    WrapAdd(a, b);
  }

  datatype Access = Access(pid: nat, page: nat)

  type Counts = map<nat, map<nat, nat>>

  /** There is a counter for every pair that occurs and for no other, and no empty inner map. */
  ghost predicate SameKeys(counts: Counts, accesses: multiset<Access>) {
    && (forall a: Access :: a in accesses <==> a.pid in counts && a.page in counts[a.pid])
    && (forall pid :: pid in counts ==> counts[pid] != map[])
  }

  /** The histogram of a multiset of accesses: besides, every counter holds the number of
      occurrences as far as 32 bits go. */
  ghost predicate Represents(counts: Counts, accesses: multiset<Access>) {
    && SameKeys(counts, accesses)
    && (forall a: Access :: a in accesses ==> counts[a.pid][a.page] == Wrap(accesses[a]))
  }

  /** The histogram with one more access. */
  function Bump(counts: Counts, a: Access): Counts {
    var pages := if a.pid in counts then counts[a.pid] else map[];
    counts[a.pid := pages[a.page := Wrap((if a.page in pages then pages[a.page] else 0) + 1)]]
  }

  lemma BumpKeys(counts: Counts, accesses: multiset<Access>, a: Access)
    requires SameKeys(counts, accesses)
    ensures SameKeys(Bump(counts, a), accesses + multiset{a})
  {
    var counts' := Bump(counts, a);
    forall b: Access ensures b in accesses + multiset{a} <==> b.pid in counts' && b.page in counts'[b.pid] {
      if b.pid == a.pid && b.page == a.page {
        assert b == a;
      }
      assert b in accesses <==> b.pid in counts && b.page in counts[b.pid];
    }
    assert a.page in counts'[a.pid];
  }

  lemma BumpRepresents(counts: Counts, accesses: multiset<Access>, a: Access)
    requires Represents(counts, accesses)
    ensures Represents(Bump(counts, a), accesses + multiset{a})
  {
    var counts', accesses' := Bump(counts, a), accesses + multiset{a};
    BumpKeys(counts, accesses, a);
    forall b: Access | b in accesses' ensures counts'[b.pid][b.page] == Wrap(accesses'[b]) {
      if b == a {
        WrapAdd(accesses[a], 1);
      } else {
        assert b in accesses;
      }
    }
  }

  /** The accesses of one process. */
  ghost function OfPid(accesses: multiset<Access>, pid: nat): (mine: multiset<Access>)
    ensures forall a: Access :: mine[a] == if a.pid == pid then accesses[a] else 0
    decreases |accesses|
  {
    if accesses == multiset{} then multiset{} else
      var k :| k in accesses;
      var rest := OfPid(accesses[k := 0], pid);
      if k.pid == pid then rest[k := accesses[k]] else rest
  }

  /** The pages one process touched. */
  ghost predicate PagesOf(pages: set<nat>, accesses: multiset<Access>, pid: nat) {
    forall page: nat :: page in pages <==> Access(pid, page) in accesses
  }

  class PageCount {
    var counts: Counts
    /** Everything counted so far. */
    ghost var accesses: multiset<Access>

    ghost predicate Valid()
      reads this
    {
      Represents(counts, accesses)
    }

    constructor ()
      ensures Valid() && counts == map[] && accesses == multiset{}
    {
      counts := map[];
      accesses := multiset{};
    }

    /** Count one access, starting an inner map for a process not seen before. */
    method Add(pid: nat, page: nat)
      requires Valid()
      modifies this
      ensures Valid() && accesses == old(accesses) + multiset{Access(pid, page)}
    {
      hide Represents, Wrap;
      BumpRepresents(counts, accesses, Access(pid, page));
      ghost var bumped := Bump(counts, Access(pid, page));
      if pid !in counts {
        counts := counts[pid := map[]];
      }
      var pages: map<nat, nat> := counts[pid];
      pages := pages[page := Wrap((if page in pages then pages[page] else 0) + 1)];
      counts := counts[pid := pages];
      assert counts == bumped;
      accesses := accesses + multiset{Access(pid, page)};
    }
  }

  datatype Stats = Stats(pid: nat, numPages: nat, numAccesses: nat)

  /** What is printed of one process. */
  ghost predicate StatsOf(s: Stats, accesses: multiset<Access>) {
    && s.numAccesses == Wrap(|OfPid(accesses, s.pid)|)
    && exists pages: set<nat> :: PagesOf(pages, accesses, s.pid) && s.numPages == Wrap(|pages|)
  }

  ghost function Total(stats: seq<Stats>): nat {
    if stats == [] then 0 else Total(stats[..|stats| - 1]) + stats[|stats| - 1].numAccesses
  }

  lemma EmptyMultiset(m: multiset<Access>)
    requires forall a: Access :: m[a] == 0
    ensures m == multiset{}
  {}

  /** The accesses not yet added up, once `done` of them, on some pages of one process, are. */
  ghost predicate PagesLeft(rest: multiset<Access>, mine: multiset<Access>, pages: set<nat>, done: nat) {
    |rest| + done == |mine| && forall a: Access :: rest[a] == if a.page in pages then mine[a] else 0
  }

  lemma PagesLeftStep(rest: multiset<Access>, mine: multiset<Access>, pages: set<nat>, done: nat, a: Access)
    requires PagesLeft(rest, mine, pages, done) && forall b: Access :: b in mine ==> b.pid == a.pid
    ensures PagesLeft(rest[a := 0], mine, pages - {a.page}, done + rest[a])
  {
    assert rest == rest[a := 0] + multiset{}[a := rest[a]];
    forall b: Access ensures rest[a := 0][b] == if b.page in pages - {a.page} then mine[b] else 0 {
      if b in mine && b.page == a.page {
        assert b == a;
      }
    }
  }

  /** Inside processStats: `pages` of process `pid` are still to be added up. */
  ghost predicate Adding(counts: Counts, accesses: multiset<Access>, pid: nat, pages: set<nat>,
                         numPages: nat, numAccesses: nat, rest: multiset<Access>, done: nat) {
    && pid in counts && pages <= counts[pid].Keys
    && numPages == Wrap(|counts[pid].Keys - pages|)
    && PagesLeft(rest, OfPid(accesses, pid), pages, done) && numAccesses == Wrap(done)
  }

  lemma AddPage(counts: Counts, accesses: multiset<Access>, pid: nat, pages: set<nat>,
                numPages: nat, numAccesses: nat, rest: multiset<Access>, done: nat, page: nat)
    requires Represents(counts, accesses) && Adding(counts, accesses, pid, pages, numPages, numAccesses, rest, done)
    requires page in pages
    ensures var a := Access(pid, page);
      Adding(counts, accesses, pid, pages - {page}, Wrap(numPages + 1), Wrap(numAccesses + counts[pid][page]),
             rest[a := 0], done + rest[a])
  {
    var a := Access(pid, page);
    assert a in accesses && rest[a] == accesses[a];
    PagesLeftStep(rest, OfPid(accesses, pid), pages, done, a);
    WrapSum(numAccesses, done, counts[pid][page], rest[a]);
    var seen := counts[pid].Keys - pages;
    assert counts[pid].Keys - (pages - {page}) == seen + {page};
    WrapSum(numPages, |seen|, 1, 1);
  }

  lemma AllAdded(counts: Counts, accesses: multiset<Access>, pid: nat,
                 numPages: nat, numAccesses: nat, rest: multiset<Access>, done: nat)
    requires Represents(counts, accesses) && Adding(counts, accesses, pid, {}, numPages, numAccesses, rest, done)
    ensures StatsOf(Stats(pid, numPages, numAccesses), accesses)
  {
    EmptyMultiset(rest);
    var pages := counts[pid].Keys;
    assert pages - {} == pages;
    forall page: nat ensures page in pages <==> Access(pid, page) in accesses {
      assert Access(pid, page).page == page;
    }
    assert PagesOf(pages, accesses, pid);
  }

  /** The inner loop of processStats: the pages of one process and the sum of their counters. */
  method ProcessOne(counts: Counts, pid: nat, ghost accesses: multiset<Access>) returns (s: Stats)
    requires Represents(counts, accesses) && pid in counts
    ensures s.pid == pid && StatsOf(s, accesses)
  {
    var pages := counts[pid].Keys;
    var numPages, numAccesses := 0, 0;
    ghost var rest := OfPid(accesses, pid);
    ghost var done: nat := 0;
    assert counts[pid].Keys - pages == {};
    assert PagesLeft(rest, rest, pages, 0) by {
      forall a: Access ensures rest[a] == if a.page in pages then rest[a] else 0 {
        assert a in accesses <==> a.pid in counts && a.page in counts[a.pid];
      }
    }
    while pages != {}
      invariant Adding(counts, accesses, pid, pages, numPages, numAccesses, rest, done)
      decreases |pages|
    {
      var page :| page in pages;
      ghost var a := Access(pid, page);
      AddPage(counts, accesses, pid, pages, numPages, numAccesses, rest, done, page);
      numPages := Wrap(numPages + 1);
      numAccesses := Wrap(numAccesses + counts[pid][page]);
      rest, done := rest[a := 0], done + rest[a];
      pages := pages - {page};
    }
    AllAdded(counts, accesses, pid, numPages, numAccesses, rest, done);
    s := Stats(pid, numPages, numAccesses);
  }

  /** The processes in `pids` are yet to be reported; every other one has been, once. */
  ghost predicate Reported(stats: seq<Stats>, counts: Counts, pids: set<nat>) {
    && (forall pid :: pid in counts ==> (pid in pids || exists i :: 0 <= i < |stats| && stats[i].pid == pid))
    && (forall i :: 0 <= i < |stats| ==> stats[i].pid in counts && stats[i].pid !in pids)
    && (forall i, j :: 0 <= i < j < |stats| ==> stats[i].pid != stats[j].pid)
  }

  lemma ReportedStep(stats: seq<Stats>, counts: Counts, pids: set<nat>, s: Stats)
    requires Reported(stats, counts, pids) && s.pid in pids && s.pid in counts
    ensures Reported(stats + [s], counts, pids - {s.pid})
  {
    forall pid | pid in counts
      ensures pid in pids - {s.pid} || exists i :: 0 <= i < |stats + [s]| && (stats + [s])[i].pid == pid
    {
      if pid == s.pid {
        assert (stats + [s])[|stats|].pid == pid;
      } else if pid !in pids {
        var i :| 0 <= i < |stats| && stats[i].pid == pid;
        assert (stats + [s])[i].pid == pid;
      }
    }
  }

  /** The accesses of the processes yet to be reported; `done` is the number of the others. */
  ghost predicate PidsLeft(rest: multiset<Access>, accesses: multiset<Access>, pids: set<nat>, done: nat) {
    |rest| + done == |accesses| && forall a: Access :: rest[a] == if a.pid in pids then accesses[a] else 0
  }

  lemma PidsLeftStep(rest: multiset<Access>, accesses: multiset<Access>, pids: set<nat>, done: nat, pid: nat)
    requires PidsLeft(rest, accesses, pids, done) && pid in pids
    ensures var mine := OfPid(accesses, pid);
      PidsLeft(rest - mine, accesses, pids - {pid}, done + |mine|)
  {
    assert rest == (rest - OfPid(accesses, pid)) + OfPid(accesses, pid);
  }

  lemma TotalAppend(stats: seq<Stats>, s: Stats)
    ensures Total(stats + [s]) == Total(stats) + s.numAccesses
  {
    assert (stats + [s])[..|stats|] == stats;
  }

  lemma WrapMultiple(a: nat, q: nat, b: nat)
    requires b == a + q * WRAP
    ensures Wrap(a) == Wrap(b)
  {}

  /** Between two processes: those in `pids` are still to be reported. */
  ghost predicate Reporting(counts: Counts, accesses: multiset<Access>, pids: set<nat>, stats: seq<Stats>,
                            rest: multiset<Access>, done: nat, wraps: nat) {
    && pids <= counts.Keys && Reported(stats, counts, pids)
    && (forall i :: 0 <= i < |stats| ==> StatsOf(stats[i], accesses))
    && PidsLeft(rest, accesses, pids, done) && done == Total(stats) + wraps * WRAP
  }

  lemma ReportOne(counts: Counts, accesses: multiset<Access>, pids: set<nat>, stats: seq<Stats>,
                  rest: multiset<Access>, done: nat, wraps: nat, s: Stats)
    requires Reporting(counts, accesses, pids, stats, rest, done, wraps)
    requires s.pid in pids && StatsOf(s, accesses)
    ensures var mine := OfPid(accesses, s.pid);
      Reporting(counts, accesses, pids - {s.pid}, stats + [s], rest - mine, done + |mine|, wraps + |mine| / WRAP)
  {
    ReportedStep(stats, counts, pids, s);
    PidsLeftStep(rest, accesses, pids, done, s.pid);
    TotalAppend(stats, s);
  }

  /** processStats, in whatever order the table is walked: every process seen is reported once,
      with its pages and its accesses, and the totals reported add up to all accesses. */
  method ProcessStats(pageCount: PageCount) returns (stats: seq<Stats>)
    requires pageCount.Valid()
    ensures forall i :: 0 <= i < |stats| ==> StatsOf(stats[i], pageCount.accesses)
    ensures forall i, j :: 0 <= i < j < |stats| ==> stats[i].pid != stats[j].pid
    ensures forall a: Access :: a in pageCount.accesses ==> exists i :: 0 <= i < |stats| && stats[i].pid == a.pid
    ensures Wrap(Total(stats)) == Wrap(|pageCount.accesses|)
  {
    var counts := pageCount.counts;
    ghost var accesses := pageCount.accesses;
    var pids := counts.Keys;
    ghost var rest := accesses;
    ghost var done: nat, wraps: nat := 0, 0;
    stats := [];
    while pids != {}
      invariant Reporting(counts, accesses, pids, stats, rest, done, wraps)
      decreases |pids|
    {
      var pid :| pid in pids;
      var s := ProcessOne(counts, pid, accesses);
      ghost var mine := OfPid(accesses, pid);
      ReportOne(counts, accesses, pids, stats, rest, done, wraps, s);
      stats, pids := stats + [s], pids - {pid};
      rest, done, wraps := rest - mine, done + |mine|, wraps + |mine| / WRAP;
    }
    EmptyMultiset(rest);
    WrapMultiple(Total(stats), wraps, |accesses|);
  }
}
