/** The unrolled bandwidth kernels of src/lat_bw/bw_mem.cc, over the 64-bit words of one
    contiguous allocation. */
module BandwidthKernels {
  import opened Arithmetic
  import opened Words
  import opened MemLayout

  type Memory = array<nat>

  /** Words per turn of the unrolled loop: 16 lines of 64 bytes. */
  const ROW: nat := 128

  /** The loop count that main passes for a size that is a multiple of 1024 bytes. */
  function LoopCount(activeSize: nat): nat {
    activeSize / (16 * 64)
  }

  ghost predicate AllWords(m: seq<nat>) {
    forall i :: 0 <= i < |m| ==> m[i] < TWO64
  }

  /** When the size is a multiple of the unrolled 1024 bytes, as main asserts, the loops go over
      exactly its words; with the size doubled for a copy, the half point is the first word
      after them. */
  lemma LoopsCoverActiveSize(activeSize: nat)
    requires activeSize % (16 * 64) == 0
    ensures WORD * (ROW * LoopCount(activeSize)) == activeSize
    ensures (2 * activeSize) / 2 == WORD * (ROW * LoopCount(activeSize))
  {}

  /** The byte o after the start point is that of offset o. */
  predicate InStep(l: Layout, o: nat) {
    l.size1 + l.size2 > 0 && l.Mapped(l.AddrOf(0) + o) && l.OffsetOf(l.AddrOf(0) + o) == o
  }

  /** A kernel walks the addresses that follow the start point. In a region of two parts they
      are those of its first `active` bytes, offset by offset, if and only if the first part
      holds them all, or there is no first part, or the second directly follows it; otherwise
      the kernel leaves the region where the first part ends. */
  lemma RunsInside(l: Layout, active: nat)
    requires l.Valid() && 0 < active <= l.Size()
    ensures (forall o: nat :: o < active ==> InStep(l, o))
       <==> active <= l.size1 || l.size1 == 0 || l.addr2 == l.addr1 + l.size1
    ensures l.size1 < active && l.size1 > 0 && l.addr2 != l.addr1 + l.size1 ==> !l.Mapped(l.AddrOf(0) + l.size1)
  {
    if l.size1 > 0 && l.size1 < active && l.addr2 != l.addr1 + l.size1 {
      assert !InStep(l, l.size1);
    }
  }

  // ---------------------------------------------------------------- read-modify-write

  /** The simple loop's effect: the words at multiples of four have been incremented `passes`
      times, those below `upTo` once more. */
  function Incremented(m: seq<nat>, i: nat, n: nat, passes: nat, upTo: nat): nat
    requires i < |m|
  {
    if i % 4 != 0 || i >= n then m[i]
    else if i < upTo then AddWord(m[i], passes + 1)
    else AddWord(m[i], passes)
  }

  ghost predicate Rmw(m: seq<nat>, m': seq<nat>, n: nat, passes: nat, upTo: nat) {
    |m'| == |m| && forall i :: 0 <= i < |m| ==> m'[i] == Incremented(m, i, n, passes, upTo)
  }

  /** Four DOITs: p[at] += 1; p[at + 4] += 1; ... */
  method Rmw4(a: Memory, at: nat)
    requires at + 12 < a.Length && at % 4 == 0
    modifies a
    ensures forall i :: 0 <= i < a.Length ==>
      a[i] == if i % 4 == 0 && at <= i < at + 16 then AddWord(old(a[i]), 1) else old(a[i])
  {
    hide AddWord;
    a[at + 0] := AddWord(a[at + 0], 1);
    a[at + 4] := AddWord(a[at + 4], 1);
    a[at + 8] := AddWord(a[at + 8], 1);
    a[at + 12] := AddWord(a[at + 12], 1);
  }

  method Rmw8(a: Memory, at: nat)
    requires at + 28 < a.Length && at % 4 == 0
    modifies a
    ensures forall i :: 0 <= i < a.Length ==>
      a[i] == if i % 4 == 0 && at <= i < at + 32 then AddWord(old(a[i]), 1) else old(a[i])
  {
    hide AddWord;
    Rmw4(a, at);
    Rmw4(a, at + 16);
  }

  method RmwRow(a: Memory, p: nat)
    requires p + 124 < a.Length && p % 4 == 0
    modifies a
    ensures forall i :: 0 <= i < a.Length ==>
      a[i] == if i % 4 == 0 && p <= i < p + ROW then AddWord(old(a[i]), 1) else old(a[i])
  {
    Rmw8(a, p);
    Rmw8(a, p + 32);
    Rmw8(a, p + 64);
    Rmw8(a, p + 96);
  }

  lemma RmwNext(m: seq<nat>, m': seq<nat>, m'': seq<nat>, n: nat, passes: nat, p: nat)
    requires Rmw(m, m', n, passes, p) && |m''| == |m| && p + ROW <= n
    requires forall i :: 0 <= i < |m| ==>
      m''[i] == if i % 4 == 0 && p <= i < p + ROW then AddWord(m'[i], 1) else m'[i]
    ensures Rmw(m, m'', n, passes, p + ROW)
  {
    forall i | 0 <= i < |m| ensures m''[i] == Incremented(m, i, n, passes, p + ROW) {
      AddWordTwice(m[i], passes, 1);
    }
  }

  lemma RmwNone(m: seq<nat>, n: nat)
    requires AllWords(m)
    ensures Rmw(m, m, n, 0, 0)
  {}

  /** A finished pass is one more pass. */
  lemma RmwPass(m: seq<nat>, m': seq<nat>, n: nat, passes: nat)
    requires Rmw(m, m', n, passes, n)
    ensures Rmw(m, m', n, passes + 1, 0)
  {}

  lemma RmwAll(m: seq<nat>, m': seq<nat>, n: nat, passes: nat)
    requires Rmw(m, m', n, passes, 0)
    ensures |m'| == |m|
    ensures forall i :: 0 <= i < |m| ==> m'[i] == if i % 4 == 0 && i < n then (m[i] + passes) % TWO64 else m[i]
  {}

  /** benchmark_prmw: every fourth word of the active size grows by the number of iterations,
      modulo 2^64, and no other word changes. */
  method BenchmarkPrmw(a: Memory, loopCount: nat, numIter: nat)
    requires ROW * loopCount <= a.Length && AllWords(a[..])
    modifies a
    ensures forall i :: 0 <= i < a.Length ==>
      a[i] == if i % 4 == 0 && i < 128 * loopCount then (old(a[i]) + numIter) % TWO64 else old(a[i])
  {
    hide Rmw, Incremented, AddWord;
    ghost var m := a[..];
    ghost var n := ROW * loopCount;
    var left: nat := numIter;
    RmwNone(m, n);
    while left > 0
      invariant left <= numIter && Rmw(m, a[..], n, numIter - left, 0)
    {
      var p := 0;
      left := left - 1;
      ghost var passes := numIter - left - 1;
      for i := 0 to loopCount
        invariant p == ROW * i && Rmw(m, a[..], n, passes, p)
      {
        ghost var m' := a[..];
        RmwRow(a, p);
        RmwNext(m, m', a[..], n, passes, p);
        p := p + ROW;
      }
      RmwPass(m, a[..], n, passes);
    }
    RmwAll(m, a[..], n, numIter);
  }

  // ---------------------------------------------------------------- copy

  /** Word i after the words at multiples of four in p .. p + len have been copied to q. */
  function Moved(m: seq<nat>, i: nat, p: nat, q: nat, len: nat): nat
    requires i < |m| && p <= q
  {
    if i % 4 == 0 && q <= i < q + len then m[i - q + p] else m[i]
  }

  /** Four DOITs: q[at] = p[at]; q[at + 4] = p[at + 4]; ... */
  method Copy4(a: Memory, p: nat, q: nat)
    requires p + 12 < q && q + 12 < a.Length && p % 4 == 0 && q % 4 == 0
    modifies a
    ensures forall i :: 0 <= i < a.Length ==> a[i] == Moved(old(a[..]), i, p, q, 16)
  {
    a[q + 0] := a[p + 0];
    a[q + 4] := a[p + 4];
    a[q + 8] := a[p + 8];
    a[q + 12] := a[p + 12];
  }

  method Copy8(a: Memory, p: nat, q: nat)
    requires p + 28 < q && q + 28 < a.Length && p % 4 == 0 && q % 4 == 0
    modifies a
    ensures forall i :: 0 <= i < a.Length ==> a[i] == Moved(old(a[..]), i, p, q, 32)
  {
    Copy4(a, p, q);
    Copy4(a, p + 16, q + 16);
  }

  /** The words at multiples of four in dst .. dst + upTo are those at 0 .. upTo. */
  ghost predicate Copied(m: seq<nat>, m': seq<nat>, dst: nat, upTo: nat) {
    && |m'| == |m| && upTo <= dst
    && forall i :: 0 <= i < |m| ==> m'[i] == Moved(m, i, 0, dst, upTo)
  }

  method CopyRow(a: Memory, p: nat, q: nat)
    requires p + 124 < q && q + 124 < a.Length && p % 4 == 0 && q % 4 == 0
    modifies a
    ensures forall i :: 0 <= i < a.Length ==> a[i] == Moved(old(a[..]), i, p, q, ROW)
  {
    Copy8(a, p, q);
    Copy8(a, p + 32, q + 32);
    Copy8(a, p + 64, q + 64);
    Copy8(a, p + 96, q + 96);
  }

  lemma CopyNext(m: seq<nat>, m': seq<nat>, m'': seq<nat>, dst: nat, upTo: nat, p: nat)
    requires Copied(m, m', dst, upTo) && |m''| == |m| && p + ROW <= dst && dst % 4 == 0
    requires upTo == p || upTo == dst
    requires forall i :: 0 <= i < |m| ==> m''[i] == Moved(m', i, p, dst + p, ROW)
    ensures Copied(m, m'', dst, if upTo == dst then dst else p + ROW)
  {
    forall i | 0 <= i < |m| ensures m''[i] == Moved(m, i, 0, dst, if upTo == dst then dst else p + ROW) {
      if dst + p <= i < dst + p + ROW {
        assert m'[i - dst] == m[i - dst];
      }
    }
  }

  lemma CopyNone(m: seq<nat>, dst: nat)
    ensures Copied(m, m, dst, 0)
  {}

  lemma RowFits(i: nat, loopCount: nat)
    requires i < loopCount
    ensures ROW * i + ROW <= ROW * loopCount && (ROW * i) % 4 == 0 && (ROW * loopCount) % 4 == 0
  {
    RowAligned(i);
    RowAligned(loopCount);
  }

  lemma RowAligned(i: nat)
    ensures (ROW * i) % 4 == 0
  {
    DivModUnique(ROW * i, 4, 32 * i, 0);
  }

  /** One pass of the copy, the first or a later one. */
  method CopyPass(a: Memory, loopCount: nat, ghost m: seq<nat>, ghost before: nat)
    requires 2 * (ROW * loopCount) <= a.Length
    requires |m| == a.Length && (before == 0 || before == ROW * loopCount)
    requires Copied(m, a[..], ROW * loopCount, before)
    modifies a
    ensures Copied(m, a[..], ROW * loopCount, ROW * loopCount)
  {
    hide Copied, Moved;
    var dst := ROW * loopCount;
    var p, q := 0, dst;
    for i := 0 to loopCount
      invariant p == ROW * i && q == dst + p
      invariant Copied(m, a[..], dst, if before == dst then dst else p)
    {
      ghost var m' := a[..];
      RowFits(i, loopCount);
      CopyRow(a, p, q);
      CopyNext(m, m', a[..], dst, if before == dst then dst else p, p);
      p, q := p + ROW, q + ROW;
    }
  }

  /** Every fourth word of the second half is that of the first, if there was a copy; all other
      words are the same. */
  ghost predicate HalfCopied(m: seq<nat>, m': seq<nat>, half: nat, copied: bool) {
    |m'| == |m| && forall i :: 0 <= i < |m| ==>
      m'[i] == if copied && i % 4 == 0 && half <= i < 2 * half then m[i - half] else m[i]
  }

  /** benchmark_pcp, with the second half of the active size as destination: unless there are no
      iterations, every fourth word of it becomes its source; no other word changes. */
  method BenchmarkPcp(a: Memory, loopCount: nat, numIter: nat)
    requires 2 * (ROW * loopCount) <= a.Length
    modifies a
    ensures HalfCopied(old(a[..]), a[..], 128 * loopCount, numIter > 0)
  {
    hide Copied, HalfCopied;
    ghost var m := a[..];
    CopyNone(m, ROW * loopCount);
    var left: nat := numIter;
    while left > 0
      invariant left <= numIter
      invariant Copied(m, a[..], ROW * loopCount, if left < numIter then ROW * loopCount else 0)
    {
      CopyPass(a, loopCount, m, if left < numIter then ROW * loopCount else 0);
      left := left - 1;
    }
    CopiedAt(m, a[..], ROW * loopCount, numIter > 0);
  }

  lemma CopiedAt(m: seq<nat>, m': seq<nat>, half: nat, copied: bool)
    requires Copied(m, m', half, if copied then half else 0)
    ensures HalfCopied(m, m', half, copied)
  {}

  // ---------------------------------------------------------------- read

  /** The sum of the words at multiples of four below n. */
  ghost function FourthSum(m: seq<nat>, n: nat): nat
    requires n <= |m|
  {
    if n == 0 then 0 else FourthSum(m, n - 1) + if (n - 1) % 4 == 0 then m[n - 1] else 0
  }

  /** Every fourth word of the first k rows of four. */
  ghost function Fourths(m: seq<nat>, k: nat): (s: seq<nat>)
    requires 4 * k <= |m|
    ensures |s| == k && forall i :: 0 <= i < k ==> s[i] == m[4 * i]
  {
    seq(k, i requires 0 <= i < k => m[4 * i])
  }

  lemma {:induction false} FourthsSum(m: seq<nat>, k: nat)
    requires 4 * k <= |m|
    ensures FourthSum(m, 4 * k) == Sum(Fourths(m, k))
  {
    if k > 0 {
      FourthsSum(m, k - 1);
      Read4(m, 4 * (k - 1));
      assert Fourths(m, k) == Fourths(m, k - 1) + [m[4 * (k - 1)]];
      SumAppend(Fourths(m, k - 1), m[4 * (k - 1)]);
    }
  }

  lemma {:induction false} SumAppend(s: seq<nat>, x: nat)
    ensures Sum(s + [x]) == Sum(s) + x
  {
    if s == [] {
      assert s + [x] == [x];
    } else {
      assert (s + [x])[1..] == s[1..] + [x];
      SumAppend(s[1..], x);
    }
  }

  lemma ToIntIs(total: nat)
    ensures var r := ToInt(total % TWO64); -0x8000_0000 <= r < 0x8000_0000 && (r - total) % 0x1_0000_0000 == 0
  {
    hide ToInt;
    var x, q := total % TWO64, total / TWO64;
    var r := ToInt(x);
    var k := (r - x) / TWO32;
    assert total == q * TWO64 + x && r - x == k * TWO32;
    MultipleMod(k - q * TWO32, TWO32);
  }

  /** What a uint64_t becomes when returned as an int. */
  function ToInt(x: nat): (r: int)
    ensures -0x8000_0000 <= r < 0x8000_0000 && (r - x) % TWO32 == 0
  {
    var y := x % TWO32;
    assert x == (x / TWO32) * TWO32 + y;
    if y >= 0x8000_0000 then y - TWO32 else y
  }

  function Read8(m: seq<nat>, at: nat): nat
    requires at + 28 < |m|
  {
    m[at] + m[at + 4] + m[at + 8] + m[at + 12] + m[at + 16] + m[at + 20] + m[at + 24] + m[at + 28]
  }

  lemma Read8Sum(m: seq<nat>, at: nat)
    requires at + 32 <= |m| && at % 4 == 0
    ensures FourthSum(m, at + 32) == FourthSum(m, at) + Read8(m, at)
  {
    Read4(m, at);
    Read4(m, at + 4);
    Read4(m, at + 8);
    Read4(m, at + 12);
    Read4(m, at + 16);
    Read4(m, at + 20);
    Read4(m, at + 24);
    Read4(m, at + 28);
  }

  lemma Read4(m: seq<nat>, at: nat)
    requires at + 4 <= |m| && at % 4 == 0
    ensures FourthSum(m, at + 4) == FourthSum(m, at) + m[at]
  {
    assert FourthSum(m, at + 2) == FourthSum(m, at + 1);
    assert FourthSum(m, at + 4) == FourthSum(m, at + 3);
  }

  lemma RowSum(m: seq<nat>, p: nat)
    requires p + ROW <= |m| && p % 4 == 0
    ensures FourthSum(m, p + ROW) == FourthSum(m, p) + Row(m, p)
  {
    hide FourthSum, Read8;
    Read8Sum(m, p);
    Read8Sum(m, p + 32);
    Read8Sum(m, p + 64);
    Read8Sum(m, p + 96);
  }

  function Row(m: seq<nat>, p: nat): nat
    requires p + 124 < |m|
  {
    Read8(m, p) + Read8(m, p + 32) + Read8(m, p + 64) + Read8(m, p + 96)
  }

  lemma SumWraps(sum: nat, exact: nat, row: nat)
    requires sum == exact % TWO64
    ensures (sum + row) % TWO64 == (exact + row) % TWO64
  {
    assert exact + row == sum + row + (exact / TWO64) * TWO64;
  }

  /** One turn of the loop: the 32 words of a row are added to the running sum. */
  method ReadRow(a: Memory, p: nat, sum: nat, ghost exact: nat) returns (sum': nat)
    requires p + ROW <= a.Length && p % 4 == 0 && sum == exact % TWO64 && FourthSum(a[..], p) <= exact
    ensures sum' == (exact - FourthSum(a[..], p) + FourthSum(a[..], p + ROW)) % TWO64
  {
    hide FourthSum, Row;
    RowSum(a[..], p);
    SumWraps(sum, exact, Row(a[..], p));
    sum' := (sum + Row(a[..], p)) % TWO64;
  }

  /** One pass over the rows. */
  method ReadPass(a: Memory, loopCount: nat, sum: nat, ghost exact: nat) returns (sum': nat)
    requires ROW * loopCount <= a.Length && sum == exact % TWO64
    ensures sum' == (exact + FourthSum(a[..], ROW * loopCount)) % TWO64
  {
    hide FourthSum;
    ghost var m := a[..];
    NothingSummed(m);
    sum' := sum;
    var p := 0;
    for i := 0 to loopCount
      invariant p == ROW * i && sum' == (exact + FourthSum(m, p)) % TWO64
    {
      sum' := ReadRow(a, p, sum', exact + FourthSum(m, p));
      p := p + ROW;
    }
  }

  lemma NothingSummed(m: seq<nat>)
    ensures FourthSum(m, 0) == 0
  {}

  /** benchmark_prd: the sum of every fourth word, once per iteration, as an int. */
  method BenchmarkPrd(a: Memory, loopCount: nat, numIter: nat) returns (r: int)
    requires ROW * loopCount <= a.Length
    ensures -0x8000_0000 <= r < 0x8000_0000
    ensures 4 * (32 * loopCount) <= |a[..]|
    ensures (r - numIter * Sum(Fourths(a[..], 32 * loopCount))) % 0x1_0000_0000 == 0
  {
    hide ToInt, Fourths, Sum, FourthSum;
    var sum, left: nat := 0, numIter;
    ghost var m := a[..];
    ghost var total := FourthSum(m, ROW * loopCount);
    ghost var exact: nat := 0;
    while left > 0
      invariant left <= numIter && exact == (numIter - left) * total && sum == exact % TWO64
    {
      left := left - 1;
      sum := ReadPass(a, loopCount, sum, exact);
      exact := exact + total;
      MulSucc(numIter - left - 1, total);
    }
    r := ToInt(sum);
    FourthsSum(m, 32 * loopCount);
    ToIntIs(exact);
  }
}
