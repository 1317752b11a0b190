/** The thread-to-core mapping of ThreadHelper in src/utils/lib_threading.hh. */
module ThreadMap {
  import opened Arithmetic
  import opened Wrappers

  datatype Packet = Packet(threadId: nat, coreId: nat, numThreads: nat)

  /** A machine and a mapping that the constructor accepts: the step divides the cores. */
  ghost predicate Accepted(step: nat, cores: nat) {
    step > 0 && cores > 0 && cores % step == 0
  }

  lemma GroupSize(step: nat, cores: nat)
    requires Accepted(step, cores)
    ensures cores / step > 0 && cores == (cores / step) * step && cores == step * (cores / step)
  {}

  /** The core of thread i: threads take every step-th core first, then the ones next to those. */
  ghost function Core(i: nat, start: nat, step: nat, cores: nat): nat
    requires Accepted(step, cores)
  {
    GroupSize(step, cores);
    (start + i / (cores / step) + (i % (cores / step)) * step) % cores
  }

  /** Thread 0 is on the start core; the next thread of a group is `step` cores on; the first of
      the next group is next to the first of this one, counted round the machine. */
  lemma CoreWalk(i: nat, start: nat, step: nat, cores: nat)
    requires Accepted(step, cores)
    ensures cores / step > 0 && Core(0, start, step, cores) == start % cores
    ensures (i + 1) % (cores / step) != 0 ==>
              Core(i + 1, start, step, cores) == (Core(i, start, step, cores) + step) % cores
    ensures Core(i + cores / step, start, step, cores) == (Core(i, start, step, cores) + 1) % cores
  {
    GroupSize(step, cores);
    var group := cores / step;
    var row, column := i / group, i % group;
    assert i == row * group + column;
    DivModUnique(0, group, 0, 0);
    DivModUnique(i + group, group, row + 1, column);
    Around(start + row + column * step, 1, cores);
    if (i + 1) % group != 0 {
      DivModSucc(i, group);
      MulSucc(column, step);
      Around(start + row + column * step, step, cores);
    }
  }

  lemma Around(x: nat, d: nat, n: nat)
    requires n > 0
    ensures (x % n + d) % n == (x + d) % n
  {
    var y := x % n + d;
    assert x + d == (x / n) * n + y && y == (y / n) * n + y % n;
    DivModUnique(x + d, n, x / n + y / n, y % n);
  }

  /** Where thread j of a block lands relative to the block's first core: rows become columns. */
  ghost function Place(j: nat, step: nat, group: nat): nat
    requires group > 0
  {
    j / group + (j % group) * step
  }

  lemma PlaceInjective(j: nat, k: nat, step: nat, group: nat)
    requires group > 0 && j < step * group && k < step * group && j != k
    ensures Place(j, step, group) < step * group && Place(j, step, group) != Place(k, step, group)
  {
    PlaceInverse(j, step, group);
    PlaceInverse(k, step, group);
  }

  /** The row and the column can be read back from the place. */
  lemma PlaceInverse(j: nat, step: nat, group: nat)
    requires group > 0 && j < step * group
    ensures step > 0 && Place(j, step, group) < step * group
    ensures Place(j, step, group) / step == j % group && Place(j, step, group) % step == j / group
  {
    var row, column := j / group, j % group;
    assert j == row * group + column;
    assert row < step by {
      if row >= step {
        MulMono(step, row, group);
      }
    }
    DivModUnique(Place(j, step, group), step, column, row);
    MulMono(column + 1, group, step);
    MulSucc(column, step);
  }

  lemma BlockPlace(b: nat, j: nat, start: nat, step: nat, cores: nat)
    requires Accepted(step, cores) && j < cores
    ensures Core(b * cores + j, start, step, cores) == (start + b * step + Place(j, step, cores / step)) % cores
  {
    GroupSize(step, cores);
    var group := cores / step;
    var row, column := j / group, j % group;
    assert j == row * group + column;
    assert b * cores + j == (b * step + row) * group + column by {
      assert b * cores == (b * step) * group;
      assert (b * step + row) * group == (b * step) * group + row * group;
    }
    DivModUnique(b * cores + j, group, b * step + row, column);
  }

  /** Adding the same to two numbers less than n apart keeps their remainders different. */
  lemma ShiftInjective(base: nat, x: nat, y: nat, n: nat)
    requires x < n && y < n && x != y
    ensures (base + x) % n != (base + y) % n
  {
    var p, q := (base + x) / n, (base + y) / n;
    assert base + x == p * n + (base + x) % n && base + y == q * n + (base + y) % n;
    var d := p - q;
    MulAtLeast(d, n);
    assert d == 0 ==> d * n == 0;
    assert x - y == d * n + ((base + x) % n - (base + y) % n);
  }

  /** Thread j of block b. */
  ghost function InBlock(b: nat, j: nat, start: nat, step: nat, cores: nat): nat
    requires Accepted(step, cores)
  {
    Core(b * cores + j, start, step, cores)
  }

  /** The cores of the threads of one block, cores threads long. */
  ghost function Block(b: nat, start: nat, step: nat, cores: nat): (s: seq<nat>)
    requires Accepted(step, cores)
    ensures |s| == cores && forall j :: 0 <= j < cores ==> s[j] == InBlock(b, j, start, step, cores)
  {
    seq(cores, j requires 0 <= j => InBlock(b, j, start, step, cores))
  }

  /** Every block of as many threads as there are cores covers each core once. */
  lemma BlockIsPermutation(b: nat, start: nat, step: nat, cores: nat)
    requires Accepted(step, cores)
    ensures IsPermutation(Block(b, start, step, cores), cores)
  {
    var s := Block(b, start, step, cores);
    GroupSize(step, cores);
    forall j, k | 0 <= j < k < cores ensures s[j] != s[k] {
      BlockPlace(b, j, start, step, cores);
      BlockPlace(b, k, start, step, cores);
      PlaceInjective(j, k, step, cores / step);
      PlaceInjective(k, j, step, cores / step);
      ShiftInjective(start + b * step, Place(j, step, cores / step), Place(k, step, cores / step), cores);
    }
    forall k | 0 <= k < cores ensures s[k] < cores {}
  }

  /** How many of the first n threads core c gets. */
  ghost function Load(n: nat, c: nat, start: nat, step: nat, cores: nat): nat
    requires Accepted(step, cores)
  {
    if n == 0 then 0
    else Load(n - 1, c, start, step, cores) + if Core(n - 1, start, step, cores) == c then 1 else 0
  }

  /** Core c is among those of the first r threads of block b. */
  ghost predicate Served(b: nat, r: nat, c: nat, start: nat, step: nat, cores: nat)
    requires Accepted(step, cores)
  {
    exists j :: 0 <= j < r && InBlock(b, j, start, step, cores) == c
  }

  lemma ServedAll(b: nat, c: nat, start: nat, step: nat, cores: nat)
    requires Accepted(step, cores) && c < cores
    ensures Served(b, cores, c, start, step, cores)
  {
    BlockIsPermutation(b, start, step, cores);
    PermutationOnto(Block(b, start, step, cores), cores, c);
  }

  lemma ServedNext(b: nat, r: nat, c: nat, start: nat, step: nat, cores: nat)
    requires Accepted(step, cores) && r < cores
    ensures Served(b, r + 1, c, start, step, cores) <==>
            Served(b, r, c, start, step, cores) || InBlock(b, r, start, step, cores) == c
    ensures !(Served(b, r, c, start, step, cores) && InBlock(b, r, start, step, cores) == c)
  {
    BlockIsPermutation(b, start, step, cores);
    var s := Block(b, start, step, cores);
    if Served(b, r, c, start, step, cores) {
      var j :| 0 <= j < r && InBlock(b, j, start, step, cores) == c;
      assert s[j] != s[r];
    }
  }

  /** A core gets one thread of every whole block, and one more if the last, incomplete block
      has come to it. */
  lemma {:induction false} LoadIs(b: nat, r: nat, c: nat, start: nat, step: nat, cores: nat)
    requires Accepted(step, cores) && c < cores && r <= cores
    ensures Load(b * cores + r, c, start, step, cores) == b + if Served(b, r, c, start, step, cores) then 1 else 0
    decreases b, r
  {
    if r > 0 {
      LoadIs(b, r - 1, c, start, step, cores);
      ServedNext(b, r - 1, c, start, step, cores);
    } else if b > 0 {
      LoadIs(b - 1, cores, c, start, step, cores);
      ServedAll(b - 1, c, start, step, cores);
      MulSucc(b - 1, cores);
    }
  }

  lemma LoadOf(n: nat, b: nat, r: nat, c: nat, start: nat, step: nat, cores: nat)
    requires Accepted(step, cores) && c < cores && r <= cores && n == b * cores + r
    ensures b <= Load(n, c, start, step, cores) <= b + if r > 0 then 1 else 0
  {
    LoadIs(b, r, c, start, step, cores);
  }

  /** The mapping is balanced: every core gets the floor or the ceiling of its share. */
  lemma Balanced(n: nat, c: nat, start: nat, step: nat, cores: nat)
    requires Accepted(step, cores) && c < cores
    ensures n / cores <= Load(n, c, start, step, cores) <= n / cores + if n % cores > 0 then 1 else 0
  {
    var b, r := n / cores, n % cores;
    LoadOf(n, b, r, c, start, step, cores);
  }

  class ThreadHelper {
    const numThreads: nat
    const packets: array<Packet>

    /** The packet of every thread carries its id and the core it is bound to. */
    constructor (numThreads: nat, numCores: nat, step: nat, start: nat)
      requires Accepted(step, numCores)
      ensures fresh(packets) && packets.Length == numThreads && this.numThreads == numThreads
      ensures forall i :: 0 <= i < numThreads ==>
                && packets[i].threadId == i && packets[i].coreId == Core(i, start, step, numCores)
                && packets[i].numThreads == numThreads
    {
      this.numThreads := numThreads;
      packets := new Packet[numThreads](_ => Packet(0, 0, 0));
      new;
      GroupSize(step, numCores);
      var groupSize := numCores / step;
      for i := 0 to numThreads
        invariant forall j :: 0 <= j < i ==> packets[j] == Packet(j, Core(j, start, step, numCores), numThreads)
      {
        var groupId, groupOffset := i / groupSize, i % groupSize;
        packets[i] := Packet(i, (start + groupId + groupOffset * step) % numCores, numThreads);
      }
    }
  }

  /** The constructor with the check it starts with; None is the exit it takes. */
  method Create(numThreads: nat, numCores: nat, step: nat, start: nat) returns (r: Option<ThreadHelper>)
    requires step > 0 && numCores > 0
    ensures r.None? <==> !Accepted(step, numCores)
    ensures r.Some? ==>
              var packets := r.value.packets;
              packets.Length == numThreads &&
              forall i :: 0 <= i < numThreads ==>
                && packets[i].threadId == i && packets[i].coreId == Core(i, start, step, numCores)
                && packets[i].numThreads == numThreads
  {
    if numCores % step > 0 {
      return None;
    }
    var helper := new ThreadHelper(numThreads, numCores, step, start);
    r := Some(helper);
  }

  /** For instance four threads on four cores with step 2: cores 0, 2, 1 and 3. */
  method FourCores() returns (cores: seq<nat>)
    ensures cores == [0, 2, 1, 3]
  {
    var r := Create(4, 4, 2, 0);
    var p := r.value.packets;
    cores := [p[0].coreId, p[1].coreId, p[2].coreId, p[3].coreId];
  }
}
