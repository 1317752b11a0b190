/** Circular lists of pointers in memory, and what following the pointers does. */
module Chase {
  import opened Arithmetic
  import opened Words
  import opened MemLayout

  /** Dereferencing a pointer. An address that holds no word has no successor: 0. */
  function Load(l: Layout, m: seq<byte>, a: nat): nat {
    if l.WordAt(a) && |m| == l.Size() then Word(m, l.OffsetOf(a)) else 0
  }

  /** The pointer reached from a by k dereferences. */
  ghost function Hops(l: Layout, m: seq<byte>, a: nat, k: nat): nat {
    if k == 0 then a else Load(l, m, Hops(l, m, a, k - 1))
  }

  /** The slots of `gap` bytes at these offsets do not overlap. */
  ghost predicate Spaced(order: seq<nat>, gap: nat) {
    forall i, j :: 0 <= i < j < |order| ==> order[i] + gap <= order[j] || order[j] + gap <= order[i]
  }

  lemma SpacedWider(order: seq<nat>, gap: nat, wider: nat)
    requires Spaced(order, wider) && gap <= wider
    ensures Spaced(order, gap)
  {}

  /** Each offset starts `w` bytes that lie inside one allocation. */
  ghost predicate Slots(l: Layout, order: seq<nat>, w: nat) {
    forall k :: 0 <= k < |order| ==> l.Fits(order[k], w)
  }

  /** The places a circular list goes through, before any pointer is written. */
  ghost predicate Ring(l: Layout, order: seq<nat>) {
    l.Valid() && |order| > 0 && Slots(l, order, WORD) && Spaced(order, WORD)
  }

  /** The first x places already point to the place that follows them. */
  ghost predicate LinkedUpTo(l: Layout, m: seq<byte>, order: seq<nat>, x: nat)
    requires Ring(l, order)
  {
    |m| == l.Size() &&
    forall k :: 0 <= k < x && k < |order| ==>
      Word(m, order[k]) == l.AddrOf(order[Succ(k, |order|)])
  }

  /** Memory holds one circular list that goes through `order`. */
  ghost predicate IsCycle(l: Layout, m: seq<byte>, order: seq<nat>) {
    Ring(l, order) && LinkedUpTo(l, m, order, |order|)
  }

  /** Writing the next pointer of the list keeps the ones already written. */
  lemma LinkNext(l: Layout, m: seq<byte>, order: seq<nat>, x: nat)
    requires Ring(l, order) && LinkedUpTo(l, m, order, x) && x < |order|
    ensures LinkedUpTo(l, PutWord(m, order[x], l.AddrOf(order[Succ(x, |order|)])), order, x + 1)
  {
    var v := l.AddrOf(order[Succ(x, |order|)]);
    AddrRoundTrip(l, order[Succ(x, |order|)]);
    GetPut(m, order[x], v);
    forall k | 0 <= k < x
      ensures Word(PutWord(m, order[x], v), order[k]) == Word(m, order[k])
    {
      GetPutOther(m, order[x], v, order[k]);
    }
  }

  lemma LoadOnCycle(l: Layout, m: seq<byte>, order: seq<nat>, k: nat)
    requires IsCycle(l, m, order) && k < |order|
    ensures l.WordAt(l.AddrOf(order[k])) && 0 < l.AddrOf(order[k]) < TWO64
    ensures Load(l, m, l.AddrOf(order[k])) == l.AddrOf(order[Succ(k, |order|)])
  {
    AddrRoundTrip(l, order[k]);
  }

  /** k hops from the i-th place of the list lead to the (i + k)-th, counted round the ring. */
  lemma {:induction false} HopsOnCycle(l: Layout, m: seq<byte>, order: seq<nat>, i: nat, k: nat)
    requires IsCycle(l, m, order) && i < |order|
    ensures Hops(l, m, l.AddrOf(order[i]), k) == l.AddrOf(order[(i + k) % |order|])
  {
    var n := |order|;
    if k == 0 {
      DivModUnique(i, n, 0, i);
    } else {
      HopsOnCycle(l, m, order, i, k - 1);
      DivModSucc(i + k - 1, n);
      LoadOnCycle(l, m, order, (i + k - 1) % n);
      assert (i + k) % n == Succ((i + k - 1) % n, n);
    }
  }

  /** i + k counted round a ring of n places, for one turn at most. */
  lemma RingPosition(i: nat, k: nat, n: nat)
    requires i < n && k <= n
    ensures (i + k) % n == if i + k < n then i + k else i + k - n
  {
    DivModUnique(i + k, n, if i + k < n then 0 else 1, if i + k < n then i + k else i + k - n);
  }

  /** Within one turn the position needs no remainder. */
  lemma HopsWithinTurn(l: Layout, m: seq<byte>, order: seq<nat>, i: nat, k: nat)
    requires IsCycle(l, m, order) && i < |order| && k <= |order|
    ensures Hops(l, m, l.AddrOf(order[i]), k) ==
            l.AddrOf(order[if i + k < |order| then i + k else i + k - |order|])
  {
    HopsOnCycle(l, m, order, i, k);
    RingPosition(i, k, |order|);
  }

  lemma HopsDiffer(l: Layout, m: seq<byte>, order: seq<nat>, i: nat, j: nat, k: nat)
    requires IsCycle(l, m, order) && i < |order| && j < k < |order|
    ensures Hops(l, m, l.AddrOf(order[i]), j) != Hops(l, m, l.AddrOf(order[i]), k)
  {
    var n := |order|;
    HopsWithinTurn(l, m, order, i, j);
    HopsWithinTurn(l, m, order, i, k);
    var x, y := if i + j < n then i + j else i + j - n, if i + k < n then i + k else i + k - n;
    assert order[x] + WORD <= order[y] || order[y] + WORD <= order[x];
    ObjectsDisjoint(l, order[x], WORD, order[y], WORD);
  }

  lemma HopsReach(l: Layout, m: seq<byte>, order: seq<nat>, i: nat, p: nat) returns (k: nat)
    requires IsCycle(l, m, order) && i < |order| && p < |order|
    ensures k < |order| && Hops(l, m, l.AddrOf(order[i]), k) == l.AddrOf(order[p])
  {
    k := if p >= i then p - i else p + |order| - i;
    HopsWithinTurn(l, m, order, i, k);
  }

  /** One of the first n pointers met from a is b. */
  ghost predicate Visits(l: Layout, m: seq<byte>, a: nat, n: nat, b: nat) {
    exists k :: 0 <= k < n && Hops(l, m, a, k) == b
  }

  /** The circular list is a Hamiltonian cycle of its places: from any place, the first
      |order| hops visit each place exactly once, and then, no earlier, return. */
  lemma CycleVisitsEachOnce(l: Layout, m: seq<byte>, order: seq<nat>, i: nat)
    requires IsCycle(l, m, order) && i < |order|
    ensures forall p :: 0 <= p < |order| ==>
              Visits(l, m, l.AddrOf(order[i]), |order|, l.AddrOf(order[p]))
    ensures forall j, k :: 0 <= j < k < |order| ==>
              Hops(l, m, l.AddrOf(order[i]), j) != Hops(l, m, l.AddrOf(order[i]), k)
    ensures Hops(l, m, l.AddrOf(order[i]), |order|) == l.AddrOf(order[i])
  {
    forall p | 0 <= p < |order|
      ensures Visits(l, m, l.AddrOf(order[i]), |order|, l.AddrOf(order[p]))
    {
      var k := HopsReach(l, m, order, i, p);
    }
    forall j, k | 0 <= j < k < |order|
      ensures Hops(l, m, l.AddrOf(order[i]), j) != Hops(l, m, l.AddrOf(order[i]), k)
    {
      HopsDiffer(l, m, order, i, j, k);
    }
    HopsWithinTurn(l, m, order, i, |order|);
  }

  // ---------------------------------------------------------------- frames

  /** Byte j lies in one of the w-byte fields that start `off` bytes into the slots. */
  ghost predicate InField(order: seq<nat>, off: nat, w: nat, j: nat) {
    exists k :: 0 <= k < |order| && order[k] + off <= j < order[k] + off + w
  }

  /** The two memories agree outside those fields. */
  ghost predicate SameOutside(m: seq<byte>, m': seq<byte>, order: seq<nat>, off: nat, w: nat) {
    && |m| == |m'|
    && forall j {:trigger InField(order, off, w, j)} :: 0 <= j < |m| && !InField(order, off, w, j) ==> m[j] == m'[j]
  }

  /** Memory m is m0 with the first x pointers of the list written, and nothing else. */
  ghost predicate Linking(l: Layout, m0: seq<byte>, m: seq<byte>, order: seq<nat>, x: nat) {
    Ring(l, order) && LinkedUpTo(l, m, order, x) && SameOutside(m0, m, order, 0, WORD)
  }

  lemma LinkingStep(l: Layout, m0: seq<byte>, m: seq<byte>, order: seq<nat>, x: nat)
    requires Linking(l, m0, m, order, x) && x < |order|
    ensures Linking(l, m0, PutWord(m, order[x], l.AddrOf(order[Succ(x, |order|)])), order, x + 1)
  {
    LinkNext(l, m, order, x);
    forall j | 0 <= j < |m| && !InField(order, 0, WORD, j)
      ensures PutWord(m, order[x], l.AddrOf(order[Succ(x, |order|)]))[j] == m[j]
    {
      assert !(order[x] + 0 <= j < order[x] + 0 + WORD);
    }
  }

  /** The memory after the first x pointers have been stored one after the other, whether or
      not the places overlap. */
  ghost function Stored(l: Layout, m0: seq<byte>, order: seq<nat>, x: nat): (m: seq<byte>)
    requires |m0| == l.Size() && Slots(l, order, WORD) && x <= |order|
    ensures |m| == |m0|
  {
    if x == 0 then m0
    else PutWord(Stored(l, m0, order, x - 1), order[x - 1], l.AddrOf(order[Succ(x - 1, |order|)]))
  }

  lemma StoredNothing(l: Layout, m0: seq<byte>, order: seq<nat>)
    requires |m0| == l.Size() && Slots(l, order, WORD)
    ensures Stored(l, m0, order, 0) == m0
  {}

  lemma NothingLinked(l: Layout, m0: seq<byte>, order: seq<nat>)
    requires Ring(l, order) && |m0| == l.Size()
    ensures Linking(l, m0, m0, order, 0)
  {}

  /** If they do not, each pointer stays as it was stored. */
  lemma {:induction false} StoredLinks(l: Layout, m0: seq<byte>, order: seq<nat>, x: nat)
    requires Ring(l, order) && |m0| == l.Size() && x <= |order|
    ensures Linking(l, m0, Stored(l, m0, order, x), order, x)
  {
    hide PutWord, Linking, Succ, Layout.AddrOf, Layout.Fits;
    if x == 0 {
      NothingLinked(l, m0, order);
    } else {
      StoredLinks(l, m0, order, x - 1);
      LinkingStep(l, m0, Stored(l, m0, order, x - 1), order, x - 1);
    }
  }

  /** Every pointer of the list leads to the place that follows. */
  ghost predicate Intact(l: Layout, m: seq<byte>, order: seq<nat>)
    requires |m| == l.Size() && Slots(l, order, WORD)
  {
    forall k :: 0 <= k < |order| ==> Word(m, order[k]) == l.AddrOf(order[Succ(k, |order|)])
  }
}
