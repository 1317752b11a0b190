/** The work of thread_rmw in src/coherence/multiple_rdwr.cc: walking the circular list and
    counting each visit in the fifth word of the line. */
module ReadModifyWrite {
  import opened Arithmetic
  import opened Words
  import opened MemLayout
  import opened Chase

  datatype Mode = ReadOnly | DualStream | SingleStream

  /** Memory and the two pointers of the walk. */
  datatype Cursor = Cursor(mem: seq<byte>, p: nat, p2: nat)

  /** The counter is four words after the link, so a line holds at least five words. */
  const COUNTER: nat := 32
  const LINE_MIN: nat := 40

  /** *(a + 4) += 1 on eight-byte words. */
  function Bump(l: Layout, m: seq<byte>, a: nat): seq<byte> {
    if l.WordAt(a + COUNTER) && |m| == l.Size() then
      var o := l.OffsetOf(a + COUNTER);
      PutWord(m, o, AddWord(Word(m, o), 1))
    else m
  }

  /** One turn of the inner loop. */
  function RmwStep(l: Layout, mode: Mode, c: Cursor): Cursor {
    match mode
    case ReadOnly => c.(p := Load(l, c.mem, c.p))
    case SingleStream =>
      var m := Bump(l, c.mem, c.p);
      c.(mem := m, p := Load(l, m, c.p))
    case DualStream =>
      var m := Bump(l, Bump(l, c.mem, c.p), c.p2);
      Cursor(m, Load(l, m, c.p), Load(l, m, c.p2))
  }

  /** How often the inner loop turns. */
  function Turns(mode: Mode, numChases: nat): nat {
    if mode.DualStream? then numChases / 2 else numChases
  }

  ghost function Run(l: Layout, mode: Mode, c: Cursor, k: nat): Cursor {
    if k == 0 then c else RmwStep(l, mode, Run(l, mode, c, k - 1))
  }

  // ---------------------------------------------------------------- counting visits

  /** No counter shares a byte with a link. */
  ghost predicate CountersClear(order: seq<nat>) {
    forall i, j :: 0 <= i < |order| && 0 <= j < |order| ==>
      order[i] + COUNTER + WORD <= order[j] || order[j] + WORD <= order[i] + COUNTER
  }

  /** A list whose links do not overlap, with a counter in reach of each that is inside the
      region and touches no link. */
  ghost predicate CountedRing(l: Layout, order: seq<nat>) {
    && l.Valid() && |order| > 0
    && Slots(l, order, LINE_MIN) && Spaced(order, WORD) && CountersClear(order)
  }

  /** Lines of five words or more have that. */
  lemma WideLinesAreClear(order: seq<nat>)
    requires Spaced(order, LINE_MIN)
    ensures Spaced(order, WORD) && CountersClear(order)
  {
    forall i, j | 0 <= i < |order| && 0 <= j < |order|
      ensures order[i] + COUNTER + WORD <= order[j] || order[j] + WORD <= order[i] + COUNTER
    {
      if i != j {
        assert order[i] + LINE_MIN <= order[j] || order[j] + LINE_MIN <= order[i];
      }
    }
  }

  /** Memory m is m0 with v[k] added, modulo the word size, to the counter of each line
      order[k], and not one other byte different. */
  ghost predicate Counted(l: Layout, m0: seq<byte>, m: seq<byte>, order: seq<nat>, v: seq<nat>)
    requires CountedRing(l, order)
  {
    && |m0| == |m| == l.Size() && |v| == |order|
    && SameOutside(m0, m, order, COUNTER, WORD)
    && forall k :: 0 <= k < |order| ==>
         Word(m, order[k] + COUNTER) == AddWord(Word(m0, order[k] + COUNTER), v[k])
  }

  function Inc(v: seq<nat>, i: nat): (r: seq<nat>)
    requires i < |v|
  {
    v[i := v[i] + 1]
  }

  /** Bumping at the i-th line of the list counts one visit of it. */
  lemma BumpCounts(l: Layout, m0: seq<byte>, m: seq<byte>, order: seq<nat>, v: seq<nat>, i: nat)
    requires CountedRing(l, order) && Counted(l, m0, m, order, v) && i < |order|
    ensures Counted(l, m0, Bump(l, m, l.AddrOf(order[i])), order, Inc(v, i))
  {
    var o := order[i] + COUNTER;
    CounterAddress(l, order, i);
    AddWordTwice(Word(m0, o), v[i], 1);
    var b := AddWord(Word(m, o), 1);
    CounterCounted(l, m0, m, order, v, i, b);
  }

  lemma CounterCounted(l: Layout, m0: seq<byte>, m: seq<byte>, order: seq<nat>, v: seq<nat>, i: nat, b: nat)
    requires CountedRing(l, order) && Counted(l, m0, m, order, v) && i < |order| && b < TWO64
    requires b == AddWord(Word(m0, order[i] + COUNTER), Inc(v, i)[i])
    ensures Counted(l, m0, PutWord(m, order[i] + COUNTER, b), order, Inc(v, i))
  {
    CounterStored(l, m, order, i, b);
  }

  /** Storing in one counter changes that counter only. */
  lemma CounterStored(l: Layout, m: seq<byte>, order: seq<nat>, i: nat, b: nat)
    requires CountedRing(l, order) && |m| == l.Size() && i < |order| && b < TWO64
    ensures var m' := PutWord(m, order[i] + COUNTER, b);
      && SameOutside(m, m', order, COUNTER, WORD)
      && forall k :: 0 <= k < |order| ==>
           Word(m', order[k] + COUNTER) == if k == i then b else Word(m, order[k] + COUNTER)
  {
    var o := order[i] + COUNTER;
    GetPut(m, o, b);
    forall k | 0 <= k < |order| && k != i
      ensures Word(PutWord(m, o, b), order[k] + COUNTER) == Word(m, order[k] + COUNTER)
    {
      assert order[k] + WORD <= order[i] || order[i] + WORD <= order[k];
      GetPutOther(m, o, b, order[k] + COUNTER);
    }
    forall j | 0 <= j < |m| && !InField(order, COUNTER, WORD, j)
      ensures PutWord(m, o, b)[j] == m[j]
    {
      assert !(order[i] + COUNTER <= j < order[i] + COUNTER + WORD);
    }
  }

  lemma CounterAddress(l: Layout, order: seq<nat>, i: nat)
    requires CountedRing(l, order) && i < |order|
    ensures l.WordAt(l.AddrOf(order[i]) + COUNTER)
    ensures l.OffsetOf(l.AddrOf(order[i]) + COUNTER) == order[i] + COUNTER
  {
    AddrRoundTrip(l, order[i]);
  }

  /** Counting never touches a link: the list is still there, word for word. */
  lemma CountedKeepsCycle(l: Layout, m0: seq<byte>, m: seq<byte>, order: seq<nat>, v: seq<nat>)
    requires CountedRing(l, order) && IsCycle(l, m0, order) && Counted(l, m0, m, order, v)
    ensures IsCycle(l, m, order)
    ensures forall k :: 0 <= k < |order| ==> Word(m, order[k]) == Word(m0, order[k])
  {
    forall k | 0 <= k < |order| ensures Word(m, order[k]) == Word(m0, order[k]) {
      forall j | order[k] <= j < order[k] + WORD ensures m[j] == m0[j] {
        LinkBytesAreNotCounters(l, order, k, j);
      }
      assert m[order[k]..order[k] + WORD] == m0[order[k]..order[k] + WORD];
    }
  }

  lemma LinkBytesAreNotCounters(l: Layout, order: seq<nat>, k: nat, j: nat)
    requires CountedRing(l, order) && k < |order| && order[k] <= j < order[k] + WORD
    ensures !InField(order, COUNTER, WORD, j)
  {
    forall i | 0 <= i < |order| ensures !(order[i] + COUNTER <= j < order[i] + COUNTER + WORD) {
      assert order[i] + COUNTER + WORD <= order[k] || order[k] + WORD <= order[i] + COUNTER;
    }
  }

  ghost function Plus(v: seq<nat>, w: seq<nat>): (r: seq<nat>)
    requires |v| == |w|
    ensures |r| == |v| && forall i :: 0 <= i < |v| ==> r[i] == v[i] + w[i]
  {
    seq(|v|, i requires 0 <= i < |v| => v[i] + w[i])
  }

  /** Visits add up from one piece of work to the next. */
  lemma CountedCompose(l: Layout, m0: seq<byte>, m1: seq<byte>, m2: seq<byte>, order: seq<nat>,
                       v: seq<nat>, w: seq<nat>)
    requires CountedRing(l, order) && Counted(l, m0, m1, order, v) && Counted(l, m1, m2, order, w)
    ensures Counted(l, m0, m2, order, Plus(v, w))
  {
    forall k | 0 <= k < |order|
      ensures Word(m2, order[k] + COUNTER) == AddWord(Word(m0, order[k] + COUNTER), v[k] + w[k])
    {
      AddWordTwice(Word(m0, order[k] + COUNTER), v[k], w[k]);
    }
  }

  lemma CountedNothing(l: Layout, m: seq<byte>, order: seq<nat>)
    requires CountedRing(l, order) && |m| == l.Size()
    ensures Counted(l, m, m, order, Zeros(|order|))
  {
    forall k | 0 <= k < |order|
      ensures Word(m, order[k] + COUNTER) == AddWord(Word(m, order[k] + COUNTER), 0)
    {
      WordBound(m, order[k] + COUNTER);
    }
  }

  function Zeros(n: nat): (v: seq<nat>)
    ensures |v| == n && forall i :: 0 <= i < n ==> v[i] == 0
  {
    seq(n, _ => 0)
  }

  /** The visits of the first k turns, with the second stream starting h lines ahead. */
  ghost function Tally(mode: Mode, n: nat, h: nat, k: nat): (v: seq<nat>)
    requires h < n
    ensures |v| == n
  {
    if k == 0 then Zeros(n) else
      var v := Tally(mode, n, h, k - 1);
      match mode
      case ReadOnly => v
      case SingleStream => Inc(v, Advance(0, n, k - 1))
      case DualStream => Inc(Inc(v, Advance(0, n, k - 1)), Advance(h, n, k - 1))
  }

  /** The walk after k turns: where the pointers are and what has been counted. */
  ghost predicate Walked(l: Layout, m0: seq<byte>, order: seq<nat>, mode: Mode, h: nat, k: nat, c: Cursor)
    requires CountedRing(l, order) && h < |order|
  {
    && Counted(l, m0, c.mem, order, Tally(mode, |order|, h, k))
    && c.p == l.AddrOf(order[Advance(0, |order|, k)])
    && (mode.DualStream? ==> c.p2 == l.AddrOf(order[Advance(h, |order|, k)]))
  }

  lemma WalkStart(l: Layout, m0: seq<byte>, order: seq<nat>, mode: Mode, h: nat, p2: nat)
    requires CountedRing(l, order) && |m0| == l.Size() && h < |order|
    requires mode.DualStream? ==> p2 == l.AddrOf(order[h])
    ensures Walked(l, m0, order, mode, h, 0, Cursor(m0, l.AddrOf(order[0]), p2))
  {
    CountedNothing(l, m0, order);
  }

  lemma PointerAdvances(l: Layout, m0: seq<byte>, m: seq<byte>, order: seq<nat>, v: seq<nat>, i: nat)
    requires CountedRing(l, order) && IsCycle(l, m0, order) && Counted(l, m0, m, order, v)
    requires i < |order|
    ensures Load(l, m, l.AddrOf(order[i])) == l.AddrOf(order[Succ(i, |order|)])
  {
    CountedKeepsCycle(l, m0, m, order, v);
    LoadOnCycle(l, m, order, i);
  }

  lemma TallyStep(mode: Mode, n: nat, h: nat, k: nat)
    requires h < n
    ensures mode.ReadOnly? ==> Tally(mode, n, h, k + 1) == Tally(mode, n, h, k)
    ensures mode.SingleStream? ==> Tally(mode, n, h, k + 1) == Inc(Tally(mode, n, h, k), Advance(0, n, k))
    ensures mode.DualStream? ==>
              Tally(mode, n, h, k + 1) == Inc(Inc(Tally(mode, n, h, k), Advance(0, n, k)), Advance(h, n, k))
  {}

  /** The memory after one more turn of the inner loop. */
  lemma WalkCounts(l: Layout, m0: seq<byte>, order: seq<nat>, mode: Mode, h: nat, k: nat, c: Cursor)
    requires CountedRing(l, order) && h < |order|
    requires Walked(l, m0, order, mode, h, k, c)
    ensures Counted(l, m0, RmwStep(l, mode, c).mem, order, Tally(mode, |order|, h, k + 1))
  {
    var n, v := |order|, Tally(mode, |order|, h, k);
    var i, j := Advance(0, n, k), Advance(h, n, k);
    TallyStep(mode, n, h, k);
    match mode
    case ReadOnly =>
    case SingleStream => BumpCounts(l, m0, c.mem, order, v, i);
    case DualStream =>
      BumpCounts(l, m0, c.mem, order, v, i);
      BumpCounts(l, m0, Bump(l, c.mem, c.p), order, Inc(v, i), j);
  }

  /** One more turn of the inner loop. */
  lemma WalkStep(l: Layout, m0: seq<byte>, order: seq<nat>, mode: Mode, h: nat, k: nat, c: Cursor)
    requires CountedRing(l, order) && IsCycle(l, m0, order) && h < |order|
    requires Walked(l, m0, order, mode, h, k, c)
    ensures Walked(l, m0, order, mode, h, k + 1, RmwStep(l, mode, c))
  {
    hide Counted, Tally, Bump, Load, IsCycle;
    var m, v := RmwStep(l, mode, c).mem, Tally(mode, |order|, h, k + 1);
    WalkCounts(l, m0, order, mode, h, k, c);
    PointerAdvances(l, m0, m, order, v, Advance(0, |order|, k));
    PointerAdvances(l, m0, m, order, v, Advance(h, |order|, k));
  }

  lemma {:induction false} RunKeeps(l: Layout, mode: Mode, c0: Cursor, k: nat, inv: (nat, Cursor) -> bool)
    requires inv(0, c0)
    requires forall j: nat, c :: inv(j, c) ==> inv(j + 1, RmwStep(l, mode, c))
    ensures inv(k, Run(l, mode, c0, k))
  {
    if k > 0 {
      RunKeeps(l, mode, c0, k - 1, inv);
    }
  }

  /** k turns of the inner loop, from the start of the list. */
  lemma RunWalks(l: Layout, c0: Cursor, order: seq<nat>, mode: Mode, h: nat, k: nat)
    requires CountedRing(l, order) && IsCycle(l, c0.mem, order) && h < |order|
    requires c0.p == l.AddrOf(order[0]) && (mode.DualStream? ==> c0.p2 == l.AddrOf(order[h]))
    ensures Walked(l, c0.mem, order, mode, h, k, Run(l, mode, c0, k))
  {
    hide Walked, RmwStep, Run;
    var inv := (j: nat, c: Cursor) => Walked(l, c0.mem, order, mode, h, j, c);
    forall j: nat, c: Cursor | inv(j, c) ensures inv(j + 1, RmwStep(l, mode, c)) {
      WalkStep(l, c0.mem, order, mode, h, j, c);
    }
    WalkStart(l, c0.mem, order, mode, h, c0.p2);
    assert c0 == Cursor(c0.mem, l.AddrOf(order[0]), c0.p2);
    RunKeeps(l, mode, c0, k, inv);
  }

  lemma {:induction false} ReaderHops(l: Layout, c: Cursor, k: nat)
    ensures Run(l, ReadOnly, c, k).mem == c.mem && Run(l, ReadOnly, c, k).p == Hops(l, c.mem, c.p, k)
  {
    if k > 0 {
      ReaderHops(l, c, k - 1);
    }
  }

  /** One of the first n turns of a reader is at address a. */
  ghost predicate ReadsAt(l: Layout, c: Cursor, n: nat, a: nat) {
    exists k :: 0 <= k < n && Run(l, ReadOnly, c, k).p == a
  }

  /** The work item of a reader follows the list once round: it reads every line, none twice,
      ends at the start, and writes nothing. */
  lemma ReaderLap(l: Layout, c: Cursor, order: seq<nat>)
    requires IsCycle(l, c.mem, order) && c.p == l.AddrOf(order[0])
    ensures var n := Turns(ReadOnly, |order|);
      && (forall i :: 0 <= i < |order| ==> ReadsAt(l, c, n, l.AddrOf(order[i])))
      && (forall j, k :: 0 <= j < k < n ==> Run(l, ReadOnly, c, j).p != Run(l, ReadOnly, c, k).p)
      && Run(l, ReadOnly, c, n).p == c.p && Run(l, ReadOnly, c, n).mem == c.mem
  {
    hide LinkedUpTo, Hops, Run;
    var n := |order|;
    CycleVisitsEachOnce(l, c.mem, order, 0);
    forall k: nat ensures Run(l, ReadOnly, c, k).p == Hops(l, c.mem, c.p, k) && Run(l, ReadOnly, c, k).mem == c.mem {
      ReaderHops(l, c, k);
    }
    forall i | 0 <= i < n ensures ReadsAt(l, c, n, l.AddrOf(order[i])) {
      assert Visits(l, c.mem, l.AddrOf(order[0]), n, l.AddrOf(order[i]));
      var k :| 0 <= k < n && Hops(l, c.mem, l.AddrOf(order[0]), k) == l.AddrOf(order[i]);
      assert Run(l, ReadOnly, c, k).p == l.AddrOf(order[i]);
    }
  }
}
