/** The in-place shuffle of src/utils/lib_mem_region (randomizeSequence_), which
    src/misc/contiguous_mem_alloc repeats. The values of rand() are arbitrary. */
module Shuffle {
  import opened Arithmetic
  import opened Words
  import opened RandomStream

  function Swap(s: seq<nat>, i: nat, j: nat): (r: seq<nat>)
    requires i < |s| && j < |s|
  {
    s[i := s[j]][j := s[i]]
  }

  function Identity(n: nat): (s: seq<nat>)
    ensures |s| == n && forall k :: 0 <= k < n ==> s[k] == k
  {
    seq(n, k => k)
  }

  /** What the swaps at positions i, i - 1, ..., 1 make of s; draw(i) selects the partner of
      position i. */
  ghost function ShuffleDown(s: seq<nat>, i: nat, draw: nat -> nat): (r: seq<nat>)
    requires i < |s|
    ensures |r| == |s|
    decreases i
  {
    if i == 0 then s else ShuffleDown(Swap(s, draw(i) % (i + 1), i), i - 1, draw)
  }

  /** s with its zero moved to the front, where it trades places. */
  ghost predicate ZeroFirst(s: seq<nat>, r: seq<nat>) {
    |r| == |s| > 0 && exists k :: 0 <= k < |s| && s[k] == 0 && r == Swap(s, 0, k)
  }

  lemma IdentityIsPermutation(n: nat)
    ensures IsPermutation(Identity(n), n)
  {}

  lemma SwapKeepsPermutation(s: seq<nat>, i: nat, j: nat)
    requires IsPermutation(s, |s|) && i < |s| && j < |s|
    ensures IsPermutation(Swap(s, i, j), |s|)
  {}

  lemma {:induction false} ShuffleKeepsPermutation(s: seq<nat>, i: nat, draw: nat -> nat)
    requires i < |s| && IsPermutation(s, |s|)
    ensures IsPermutation(ShuffleDown(s, i, draw), |s|)
    decreases i
  {
    if i > 0 {
      var r := draw(i) % (i + 1);
      SwapKeepsPermutation(s, r, i);
      ShuffleKeepsPermutation(Swap(s, r, i), i - 1, draw);
    }
  }

  /** Where a value not yet placed above i stands in s: at or below i. */
  lemma PartnerOf(s: seq<nat>, i: nat, q: seq<nat>) returns (k: nat)
    requires i < |s| && IsPermutation(s, |s|) && IsPermutation(q, |s|)
    requires forall j :: i < j < |s| ==> s[j] == q[j]
    ensures k <= i && s[k] == q[i]
  {
    PermutationOnto(s, |s|, q[i]);
    k :| 0 <= k < |s| && s[k] == q[i];
  }

  /** The draws select these partners. */
  ghost predicate Selects(draw: nat -> nat, want: seq<nat>) {
    forall j :: 0 <= j < |want| ==> draw(j) % (j + 1) == want[j]
  }

  /** No permutation is out of reach of the swaps: some choice of partners produces it. */
  lemma {:induction false} SwapsReachEvery(s: seq<nat>, i: nat, q: seq<nat>) returns (want: seq<nat>)
    requires i < |s| && IsPermutation(s, |s|) && IsPermutation(q, |s|)
    requires forall k :: i < k < |s| ==> s[k] == q[k]
    ensures |want| == i + 1 && forall j :: 0 <= j < |want| ==> want[j] <= j
    ensures forall draw: nat -> nat :: Selects(draw, want) ==> ShuffleDown(s, i, draw) == q
    decreases i
  {
    var k := PartnerOf(s, i, q);
    if i == 0 {
      want := [0];
      assert s == q;
    } else {
      SwapKeepsPermutation(s, k, i);
      var below := SwapsReachEvery(Swap(s, k, i), i - 1, q);
      want := below + [k];
      forall draw: nat -> nat | Selects(draw, want) ensures ShuffleDown(s, i, draw) == q {
        assert draw(i) % (i + 1) == want[i] == k;
        assert Selects(draw, below) by {
          forall j | 0 <= j < |below| ensures draw(j) % (j + 1) == below[j] {
            assert want[j] == below[j];
          }
        }
      }
    }
  }

  /** The order in which the shuffled sequence ends up: shuffled by the stream, zero first. */
  ghost predicate Drawn(perm: seq<nat>, rnd: Random) {
    |perm| > 0 && ZeroFirst(ShuffleDown(Identity(|perm|), |perm| - 1, Draws(rnd, |perm| - 1)), perm)
  }

  /** Where the entry that stands at place x ends up, followed through the swaps at positions i,
      i - 1, ..., 1: the one drawn for a position stays there, the one it drives out takes its
      place, and the others do not move. */
  ghost function Landing(x: nat, i: nat, draw: nat -> nat): nat
    decreases i
  {
    if i == 0 || x > i then x
    else if draw(i) % (i + 1) == x then i
    else if x == i then Landing(draw(i) % (i + 1), i - 1, draw)
    else Landing(x, i - 1, draw)
  }

  lemma {:induction false} ShuffleAbove(s: seq<nat>, i: nat, draw: nat -> nat, k: nat)
    requires i < k < |s|
    ensures ShuffleDown(s, i, draw)[k] == s[k]
    decreases i
  {
    if i > 0 {
      ShuffleAbove(Swap(s, draw(i) % (i + 1), i), i - 1, draw, k);
    }
  }

  /** The swaps take every entry there. */
  lemma {:induction false} ShuffleLands(s: seq<nat>, i: nat, draw: nat -> nat, x: nat)
    requires i < |s| && x < |s|
    ensures Landing(x, i, draw) < |s| && ShuffleDown(s, i, draw)[Landing(x, i, draw)] == s[x]
    decreases i
  {
    if x > i {
      ShuffleAbove(s, i, draw, x);
    } else if i > 0 {
      var p := draw(i) % (i + 1);
      if x == p {
        ShuffleAbove(Swap(s, p, i), i - 1, draw, i);
      } else {
        ShuffleLands(Swap(s, p, i), i - 1, draw, if x == i then p else x);
      }
    }
  }

  /** Which order a stream leads to: x stands where it lands, except that the one that lands
      first trades places with zero. */
  lemma StreamOrder(perm: seq<nat>, rnd: Random, x: nat)
    requires Drawn(perm, rnd) && 0 < x < |perm|
    ensures var draw, top := Draws(rnd, |perm| - 1), |perm| - 1;
      var home := if Landing(x, top, draw) == 0 then Landing(0, top, draw) else Landing(x, top, draw);
      perm[0] == 0 && home < |perm| && perm[home] == x
  {
    hide ShuffleDown;
    var n, draw := |perm|, Draws(rnd, |perm| - 1);
    var s := ShuffleDown(Identity(n), n - 1, draw);
    var k :| 0 <= k < n && s[k] == 0 && perm == Swap(s, 0, k);
    IdentityIsPermutation(n);
    ShuffleKeepsPermutation(Identity(n), n - 1, draw);
    ShuffleLands(Identity(n), n - 1, draw, 0);
    ShuffleLands(Identity(n), n - 1, draw, x);
  }

  /** No order that starts with zero is out of reach: from any seed, some values of rand()
      lead to it and to no other. For as many entries as rand() has values. */
  lemma ShuffleReachesEvery(q: seq<nat>, seed: nat) returns (rnd: Random)
    requires 0 < |q| <= RAND_LIMIT && IsPermutation(q, |q|) && q[0] == 0
    ensures rnd.seed == seed
    ensures forall perm :: |perm| == |q| ==> (Drawn(perm, rnd) <==> perm == q)
  {
    var n := |q|;
    var want := SwapsReachEvery(Identity(n), n - 1, q);
    rnd := Random(seed, Stream(seed, want));
    forall j | 0 <= j < n ensures Draws(rnd, n - 1)(j) % (j + 1) == want[j] {
      StreamAims(seed, want, j);
    }
    assert Selects(Draws(rnd, n - 1), want);
    assert q == Swap(q, 0, 0);
  }

  /** The entries of `sequence` are the multiples of `unit` that `perm` lists. */
  ghost predicate Multiples(sequence: seq<nat>, perm: seq<nat>, unit: nat) {
    |sequence| == |perm| && forall k :: 0 <= k < |perm| ==> sequence[k] == perm[k] * unit
  }

  lemma ShuffleUnfold(s: seq<nat>, i: nat, draw: nat -> nat)
    requires 0 < i < |s|
    ensures ShuffleDown(s, i, draw) == ShuffleDown(Swap(s, draw(i) % (i + 1), i), i - 1, draw)
  {}

  lemma ShuffleEnd(s: seq<nat>, draw: nat -> nat)
    requires |s| > 0
    ensures ShuffleDown(s, 0, draw) == s
  {}

  lemma SwapKeepsMultiples(sequence: seq<nat>, perm: seq<nat>, unit: nat, i: nat, j: nat)
    requires Multiples(sequence, perm, unit) && i < |perm| && j < |perm|
    ensures Multiples(Swap(sequence, i, j), Swap(perm, i, j), unit)
  {}

  /** randomizeSequence_: the sequence becomes 0, unit, 2 * unit, ... and, unless asked for
      in order, is shuffled and has its zero traded to the front. `perm` is the order the
      multiples end up in. */
  method RandomizeSequence(sequence: array<nat>, unit: nat, inOrder: bool, rnd: Random)
    returns (ghost perm: seq<nat>)
    requires unit > 0
    requires inOrder || 0 < sequence.Length <= TWO32
    modifies sequence
    ensures IsPermutation(perm, sequence.Length) && Multiples(sequence[..], perm, unit)
    ensures inOrder ==> perm == Identity(sequence.Length)
    ensures !inOrder ==> perm[0] == 0
    ensures !inOrder ==> Drawn(perm, rnd)
  {
    hide ShuffleDown, ZeroFirst, IsPermutation;
    var size := sequence.Length;
    var i := 0;
    while i < size
      invariant i <= size
      invariant forall k :: 0 <= k < i ==> sequence[k] == k * unit
    {
      sequence[i] := i * unit;
      i := i + 1;
    }
    perm := Identity(size);
    IdentityIsPermutation(size);
    if inOrder {
      return;
    }
    perm := SwapAtRandom(sequence, perm, unit, rnd);
    perm := StartWithZero(sequence, perm, unit);
  }

  method Exchange(sequence: array<nat>, i: nat, j: nat)
    requires i < sequence.Length && j < sequence.Length
    modifies sequence
    ensures sequence[..] == Swap(old(sequence[..]), i, j)
  {
    var tmp := sequence[i];
    sequence[i] := sequence[j];
    sequence[j] := tmp;
  }

  /** The swapping loop of randomizeSequence_. */
  method SwapAtRandom(sequence: array<nat>, ghost before: seq<nat>, unit: nat, rnd: Random)
    returns (ghost perm: seq<nat>)
    requires 0 < sequence.Length == |before| && IsPermutation(before, sequence.Length)
    requires Multiples(sequence[..], before, unit)
    modifies sequence
    ensures perm == ShuffleDown(before, sequence.Length - 1, Draws(rnd, sequence.Length - 1))
    ensures IsPermutation(perm, sequence.Length) && Multiples(sequence[..], perm, unit)
  {
    hide Multiples, ShuffleDown, IsPermutation, Mix;
    perm := before;
    var i := sequence.Length - 1;
    ghost var top, draw := i, Draws(rnd, i);
    ShuffleKeepsPermutation(before, i, draw);
    ghost var goal := ShuffleDown(before, i, draw);
    var r := rnd.seed;
    while i > 0
      invariant 0 <= i <= top && |perm| == sequence.Length == top + 1
      invariant r == if i == top then rnd.seed else Draw(rnd, top, i + 1)
      invariant Multiples(sequence[..], perm, unit)
      invariant ShuffleDown(perm, i, draw) == goal
    {
      r := Mix(r, rnd.rand(i));
      var k := r % (i + 1);
      assert draw(i) == r;
      SwapKeepsMultiples(sequence[..], perm, unit, k, i);
      ShuffleUnfold(perm, i, draw);
      Exchange(sequence, k, i);
      perm := Swap(perm, k, i);
      i := i - 1;
    }
    ShuffleEnd(perm, draw);
  }

  /** The last scan of randomizeSequence_. Its index has 32 bits: with 2^32 entries it wraps
      to 0, and then finds the zero there. */
  method StartWithZero(sequence: array<nat>, ghost before: seq<nat>, unit: nat)
    returns (ghost perm: seq<nat>)
    requires unit > 0 && 0 < sequence.Length <= TWO32 && IsPermutation(before, sequence.Length)
    requires Multiples(sequence[..], before, unit)
    modifies sequence
    ensures ZeroFirst(before, perm) && perm[0] == 0
    ensures IsPermutation(perm, sequence.Length) && Multiples(sequence[..], perm, unit)
  {
    hide IsPermutation;
    var size := sequence.Length;
    PermutationOnto(before, size, 0);
    ghost var zero :| 0 <= zero < size && before[zero] == 0;
    var i := 1;
    while i < size
      invariant 0 <= i <= size
      invariant i <= zero || zero == 0
      invariant i == 0 ==> zero == 0
      invariant sequence[..] == old(sequence[..])
      decreases i != 0, size - i
    {
      ZeroProduct(before[i], unit);
      if sequence[i] == 0 {
        sequence[i] := sequence[0];
        sequence[0] := 0;
        perm := Swap(before, 0, i);
        SwapKeepsPermutation(before, 0, i);
        SwapKeepsMultiples(old(sequence[..]), before, unit, 0, i);
        assert sequence[..] == Swap(old(sequence[..]), 0, i);
        return;
      }
      i := (i + 1) % TWO32;
    }
    perm := Swap(before, 0, 0);
    SwapKeepsPermutation(before, 0, 0);
    SwapKeepsMultiples(sequence[..], before, unit, 0, 0);
  }

  lemma ZeroProduct(x: nat, unit: nat)
    requires unit > 0
    ensures x * unit == 0 <==> x == 0
  {
    if x > 0 {
      MulMono(1, x, unit);
    }
  }

  lemma FourDraws(rnd: Random)
    requires rnd.seed == 0 && rnd.rand(3) == 1 && rnd.rand(2) == 0 && rnd.rand(1) == 0
    ensures Draws(rnd, 3)(3) == 1 && Draws(rnd, 3)(2) == 2 && Draws(rnd, 3)(1) == 4
  {
    assert Mix(0, 1) == 1;
    assert Mix(1, 0) == 2;
    assert Mix(2, 0) == 4;
  }

  /** Four lines of 64 bytes, seed 0, and the values 1, 0, 0: the one bit drawn is carried over,
      and the order is 0, 3, 2, 1. */
  method FourLines(rnd: Random) returns (lines: array<nat>)
    requires rnd.seed == 0 && rnd.rand(3) == 1 && rnd.rand(2) == 0 && rnd.rand(1) == 0
    ensures fresh(lines) && lines[..] == [0, 3 * 64, 2 * 64, 1 * 64]
  {
    hide Drawn, IsPermutation, Mix;
    lines := new nat[4](_ => 0);
    ghost var perm := RandomizeSequence(lines, 64, false, rnd);
    FourDraws(rnd);
    StreamOrder(perm, rnd, 1);
    StreamOrder(perm, rnd, 2);
    StreamOrder(perm, rnd, 3);
    assert perm == [0, 3, 2, 1];
  }
}
