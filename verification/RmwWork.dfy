/** The three work loops of thread_rmw, on a memory region. */
module RmwWork {
  import opened Arithmetic
  import opened Words
  import opened MemLayout
  import opened Chase
  import opened Region
  import opened ReadModifyWrite

  /** A region whose list starts at offset 0 and whose lines have room for a counter; for the
      dual stream, half the active size is a line of the list, the h-th. */
  ghost predicate Ready(region: MemRegion, mode: Mode, h: nat)
    reads region, region.region1, region.region2
  {
    && region.Valid()
    && IsCycle(region.layout, region.Bytes(), region.order)
    && CountedRing(region.layout, region.order)
    && region.order[0] == 0 && h < |region.order|
    && (mode.DualStream? ==> region.order[h] == region.activeSize / 2)
  }

  /** *(a + 4) += 1 */
  method BumpAt(region: MemRegion, a: nat)
    requires region.Valid() && region.layout.WordAt(a + COUNTER)
    modifies region.region1, region.region2
    ensures region.Bytes() == Bump(region.layout, old(region.Bytes()), a)
  {
    var v := region.LoadWord(a + COUNTER);
    region.StoreWord(a + COUNTER, AddWord(v, 1));
  }

  /** The pointers of a turn can be followed and, if it counts, counted at. */
  predicate Safe(l: Layout, mode: Mode, p: nat, p2: nat) {
    && l.WordAt(p)
    && (!mode.ReadOnly? ==> l.WordAt(p + COUNTER))
    && (mode.DualStream? ==> l.WordAt(p2) && l.WordAt(p2 + COUNTER))
  }

  /** So can those of each of the first k turns. */
  ghost predicate SafeRun(l: Layout, mode: Mode, c: Cursor, k: nat) {
    forall j: nat :: j < k ==> Safe(l, mode, Run(l, mode, c, j).p, Run(l, mode, c, j).p2)
  }

  /** One turn of whichever inner loop runs. */
  method Turn(region: MemRegion, mode: Mode, p: nat, p2: nat) returns (q: nat, q2: nat)
    requires region.Valid() && Safe(region.layout, mode, p, p2)
    modifies region.region1, region.region2
    ensures Cursor(region.Bytes(), q, q2) == RmwStep(region.layout, mode, Cursor(old(region.Bytes()), p, p2))
  {
    q2 := p2;
    if mode.ReadOnly? {
      q := region.LoadWord(p);
    } else if mode.DualStream? {
      BumpAt(region, p);
      BumpAt(region, p2);
      q := region.LoadWord(p);
      q2 := region.LoadWord(p2);
    } else {
      BumpAt(region, p);
      q := region.LoadWord(p);
    }
  }

  /** The inner loop. A turn whose pointers cannot be followed ends the program: a fault. */
  method Walk(region: MemRegion, mode: Mode, turns: nat, start: nat, half: nat)
    returns (p: nat, p2: nat, fault: bool)
    requires region.Valid()
    modifies region.region1, region.region2
    ensures fault <==> !SafeRun(region.layout, mode, Cursor(old(region.Bytes()), start, half), turns)
    ensures !fault ==> Cursor(region.Bytes(), p, p2) ==
                       Run(region.layout, mode, Cursor(old(region.Bytes()), start, half), turns)
  {
    hide RmwStep, Safe;
    ghost var c0 := Cursor(region.Bytes(), start, half);
    p, p2 := start, half;
    var k := 0;
    while k < turns
      invariant 0 <= k <= turns && SafeRun(region.layout, mode, c0, k)
      invariant Cursor(region.Bytes(), p, p2) == Run(region.layout, mode, c0, k)
    {
      if !Safe(region.layout, mode, p, p2) {
        return p, p2, true;
      }
      p, p2 := Turn(region, mode, p, p2);
      k := k + 1;
    }
    fault := false;
  }

  /** The whole work of one turn, from the entry points that the region answers with. On a
      list with room for counters and a half point on it there is no fault, memory is left as
      the visits of the walk make it, and the pointer returned is not null. */
  method Work(region: MemRegion, mode: Mode, numChases: nat, ghost h: nat) returns (p: nat, fault: bool)
    requires region.Valid() && 0 < region.layout.Size()
    requires mode.DualStream? ==> region.activeSize / 2 < region.layout.size1 || region.layout.size2 > 0
    modifies region.region1, region.region2
    ensures var c0 := Cursor(old(region.Bytes()), region.StartPoint(),
                             if mode.DualStream? then region.HalfPoint() else 0);
      && (fault <==> !SafeRun(region.layout, mode, c0, Turns(mode, numChases)))
      && (!fault ==> region.Bytes() == Run(region.layout, mode, c0, Turns(mode, numChases)).mem
                     && p == Run(region.layout, mode, c0, Turns(mode, numChases)).p)
    ensures old(Ready(region, mode, h)) ==> !fault && Ready(region, mode, h) && p != 0
    ensures old(Ready(region, mode, h)) ==>
              Counted(region.layout, old(region.Bytes()), region.Bytes(), region.order,
                      Tally(mode, |region.order|, h, Turns(mode, numChases)))
  {
    hide RmwStep, Run, SafeRun, Counted, IsCycle, CountedRing;
    ghost var l, order, m0 := region.layout, region.order, region.Bytes();
    var start := region.StartPoint();
    var p2 := 0;
    if mode.DualStream? {
      p2 := region.HalfPoint();
    }
    ghost var c0 := Cursor(m0, start, p2);
    if Ready(region, mode, h) {
      RunIsSafe(l, c0, order, mode, h, Turns(mode, numChases));
    }
    p, p2, fault := Walk(region, mode, if mode.DualStream? then numChases / 2 else numChases, start, p2);
  }

  /** On such a list no turn faults, and the list is still there after any number of them. */
  lemma RunIsSafe(l: Layout, c0: Cursor, order: seq<nat>, mode: Mode, h: nat, k: nat)
    requires CountedRing(l, order) && IsCycle(l, c0.mem, order) && h < |order|
    requires c0.p == l.AddrOf(order[0]) && (mode.DualStream? ==> c0.p2 == l.AddrOf(order[h]))
    ensures SafeRun(l, mode, c0, k)
    ensures var c := Run(l, mode, c0, k);
      Counted(l, c0.mem, c.mem, order, Tally(mode, |order|, h, k)) && IsCycle(l, c.mem, order) && c.p != 0
  {
    hide RmwStep, Run, IsCycle, Counted, CountedRing;
    forall j: nat | j < k ensures Safe(l, mode, Run(l, mode, c0, j).p, Run(l, mode, c0, j).p2) {
      RunWalks(l, c0, order, mode, h, j);
      LineAddress(l, order, Advance(0, |order|, j));
      LineAddress(l, order, Advance(h, |order|, j));
    }
    RunWalks(l, c0, order, mode, h, k);
    LineAddress(l, order, Advance(0, |order|, k));
    CountedKeepsCycle(l, c0.mem, Run(l, mode, c0, k).mem, order, Tally(mode, |order|, h, k));
  }

  lemma LineAddress(l: Layout, order: seq<nat>, i: nat)
    requires CountedRing(l, order) && i < |order|
    ensures 0 < l.AddrOf(order[i]) && l.WordAt(l.AddrOf(order[i])) && l.WordAt(l.AddrOf(order[i]) + COUNTER)
  {
    AddrRoundTrip(l, order[i]);
    CounterAddress(l, order, i);
  }

  /** That says what every byte is: two memories with the same visits are the same. */
  lemma CountedDetermines(l: Layout, m0: seq<byte>, m: seq<byte>, m': seq<byte>, order: seq<nat>, v: seq<nat>)
    requires CountedRing(l, order) && Counted(l, m0, m, order, v) && Counted(l, m0, m', order, v)
    ensures m == m'
  {
    forall j | 0 <= j < |m| ensures m[j] == m'[j] {
      if InField(order, COUNTER, WORD, j) {
        var k :| 0 <= k < |order| && order[k] + COUNTER <= j < order[k] + COUNTER + WORD;
        SameCounterSameBytes(m, m', order[k] + COUNTER, j);
      }
    }
  }

  lemma SameCounterSameBytes(m: seq<byte>, m': seq<byte>, o: nat, j: nat)
    requires o + WORD <= |m| == |m'| && Word(m, o) == Word(m', o) && o <= j < o + WORD
    ensures m[j] == m'[j]
  {
    SameWord(m[o..o + WORD], m'[o..o + WORD]);
    assert m[o..o + WORD][j - o] == m'[o..o + WORD][j - o];
  }
}
