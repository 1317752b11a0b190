/** The numbers that the shuffles of src/utils/lib_mem_region and
    src/misc/contiguous_mem_alloc draw: r = (r << 1) ^ rand(), in 64 bits. */
module RandomStream {
  import opened Arithmetic
  import opened Words

  /** What rand() returns: RAND_MAX is 2^31 - 1. */
  const RAND_LIMIT: nat := 0x8000_0000

  type rand31 = x: int | 0 <= x < 0x8000_0000

  /** Bitwise exclusive or. */
  function Xor(a: nat, b: nat): nat
    decreases a + b
  {
    if a == 0 && b == 0 then 0 else (a % 2 + b % 2) % 2 + 2 * Xor(a / 2, b / 2)
  }

  function Pow2(n: nat): nat {
    if n == 0 then 1 else 2 * Pow2(n - 1)
  }

  lemma XorBits(a: nat, b: nat)
    ensures Xor(a, b) / 2 == Xor(a / 2, b / 2) && Xor(a, b) % 2 == (a % 2 + b % 2) % 2
  {}

  lemma {:induction false} XorNothing(a: nat)
    ensures Xor(a, a) == 0
    decreases a
  {
    if a != 0 {
      XorNothing(a / 2);
    }
  }

  lemma {:induction false} XorCancels(a: nat, b: nat)
    ensures Xor(a, Xor(a, b)) == b
    decreases a + b
  {
    hide Xor;
    XorNothing(0);
    if a != 0 || b != 0 {
      XorCancels(a / 2, b / 2);
      XorBits(a, b);
      XorBits(a, Xor(a, b));
      SameBits(Xor(a, Xor(a, b)), b);
    }
  }

  lemma SameBits(x: nat, y: nat)
    requires x / 2 == y / 2 && x % 2 == y % 2
    ensures x == y
  {}

  /** Numbers that agree above their n low-order bits differ by n bits only. */
  lemma {:induction false} XorLow(h: nat, a: nat, b: nat, n: nat)
    requires a < Pow2(n) && b < Pow2(n)
    ensures Xor(h * Pow2(n) + a, h * Pow2(n) + b) < Pow2(n)
    decreases n
  {
    hide Xor;
    if n == 0 {
      XorNothing(h);
    } else {
      var d := h * Pow2(n - 1);
      XorLow(h, a / 2, b / 2, n - 1);
      Doubled(h, Pow2(n - 1));
      XorHalves(h * Pow2(n) + a, h * Pow2(n) + b, d, a, b);
    }
  }

  lemma Doubled(h: nat, p: nat)
    ensures h * (2 * p) == 2 * (h * p)
  {}

  lemma XorHalves(x: nat, y: nat, d: nat, a: nat, b: nat)
    requires x == 2 * d + a && y == 2 * d + b
    ensures Xor(x, y) <= 1 + 2 * Xor(d + a / 2, d + b / 2)
  {
    hide Xor;
    XorBits(x, y);
  }

  /** r = (r << 1) ^ rand() */
  function Mix(r: nat, x: rand31): nat {
    Xor((2 * r) % TWO64, x)
  }

  /** The first value of r, which the code computes from two calls of rand(), and what the
      later calls return; rand(i) is the value drawn when position i is swapped. */
  datatype Random = Random(seed: nat, rand: nat -> rand31)

  /** The value of r when position j is swapped, counting down from position top. */
  function Draw(rnd: Random, top: nat, j: nat): nat
    decreases top - j
  {
    Mix(if j >= top then rnd.seed else Draw(rnd, top, j + 1), rnd.rand(j))
  }

  function Draws(rnd: Random, top: nat): nat -> nat {
    (j: nat) => Draw(rnd, top, j)
  }

  // ---------------------------------------------------------------- what a stream leads to

  /** Binary digit k. */
  ghost function Bit(n: nat, k: nat): (b: nat)
    ensures b < 2
  {
    if k == 0 then n % 2 else Bit(n / 2, k - 1)
  }

  lemma {:induction false} BitXor(a: nat, b: nat, k: nat)
    ensures Bit(Xor(a, b), k) == (Bit(a, k) + Bit(b, k)) % 2
    decreases k
  {
    hide Xor;
    XorBits(a, b);
    if k > 0 {
      BitXor(a / 2, b / 2, k - 1);
    }
  }

  lemma HalfOfRemainder(r: nat, p: nat)
    requires p > 0
    ensures (r % (2 * p)) / 2 == (r / 2) % p && (r % (2 * p)) % 2 == r % 2
  {
    var h, q := r / 2, (r / 2) / p;
    assert h == q * p + h % p;
    DivModUnique(r, 2 * p, q, 2 * (h % p) + r % 2);
  }

  /** The n low-order digits are those of the remainder. */
  lemma {:induction false} BitLow(r: nat, n: nat, k: nat)
    requires k < n
    ensures Pow2(n) > 0 && Bit(r % Pow2(n), k) == Bit(r, k)
    decreases n
  {
    Pow2Positive(n - 1);
    HalfOfRemainder(r, Pow2(n - 1));
    if k > 0 {
      BitLow(r / 2, n - 1, k - 1);
    }
  }

  lemma {:induction false} Pow2Positive(n: nat)
    ensures Pow2(n) > 0
  {
    if n > 0 {
      Pow2Positive(n - 1);
    }
  }

  lemma Pow2Word()
    ensures Pow2(64) == TWO64
  {
    assert Pow2(10) == 0x400;
    assert Pow2(20) == 0x400 * 0x400;
    assert Pow2(30) == 0x400 * 0x400 * 0x400;
    assert Pow2(40) == 0x400 * 0x400 * 0x400 * 0x400;
    assert Pow2(50) == 0x400 * 0x400 * 0x400 * 0x400 * 0x400;
    assert Pow2(60) == 0x400 * 0x400 * 0x400 * 0x400 * 0x400 * 0x400;
  }

  /** Shifting left by one. */
  lemma BitShift(r: nat, k: nat)
    requires k < 64
    ensures Bit((2 * r) % TWO64, k) == if k == 0 then 0 else Bit(r, k - 1)
  {
    Pow2Word();
    BitLow(2 * r, 64, k);
    assert (2 * r) / 2 == r;
  }

  /** Digit b of v shifted left by d. */
  ghost function Shifted(v: nat, d: nat, b: nat): nat {
    if b < d then 0 else Bit(v, b - d)
  }

  /** How many ones meet in digit b at position j: of the seed shifted left by top - j + 1, and
      of each rand(k), for k from i to top, shifted left by k - j. */
  ghost function Ones(rnd: Random, top: nat, j: nat, i: nat, b: nat): nat
    requires j <= i <= top + 1 && j <= top
    decreases top + 1 - i
  {
    if i == top + 1 then Shifted(rnd.seed, top + 1 - j, b)
    else Shifted(rnd.rand(i), i - j, b) + Ones(rnd, top, j, i + 1, b)
  }

  lemma {:induction false} OnesShift(rnd: Random, top: nat, j: nat, i: nat, b: nat)
    requires j < i <= top + 1 && j < top
    ensures Ones(rnd, top, j, i, b) == if b == 0 then 0 else Ones(rnd, top, j + 1, i, b - 1)
    decreases top + 1 - i
  {
    if i <= top {
      OnesShift(rnd, top, j, i + 1, b);
    }
  }

  /** Closed form: the value of r at position j is the exclusive or of the seed shifted left
      once for each draw down to there, and of every value of rand() drawn since, shifted left
      once for each draw after it, in 64 binary digits. */
  lemma {:induction false} DrawBits(rnd: Random, top: nat, j: nat, b: nat)
    requires j <= top && b < 64
    ensures Bit(Draw(rnd, top, j), b) == Ones(rnd, top, j, j, b) % 2
    decreases top - j
  {
    hide Xor, Bit;
    var before := if j == top then rnd.seed else Draw(rnd, top, j + 1);
    BitXor((2 * before) % TWO64, rnd.rand(j), b);
    BitShift(before, b);
    if j < top {
      OnesShift(rnd, top, j, j + 1, b);
      if b > 0 {
        DrawBits(rnd, top, j + 1, b - 1);
      }
    } else {
      assert Ones(rnd, top, j, j + 1, b) == Shifted(rnd.seed, 1, b);
    }
  }

  /** There are no other digits, so these determine the value. */
  lemma DrawFits(rnd: Random, top: nat, j: nat)
    requires j <= top
    ensures Draw(rnd, top, j) < TWO64
  {
    hide Xor;
    Pow2Word();
    Pow2Limit();
    var before := if j == top then rnd.seed else Draw(rnd, top, j + 1);
    XorLow(0, (2 * before) % TWO64, rnd.rand(j), 64);
  }

  lemma {:induction false} BitsDetermine(x: nat, y: nat, n: nat)
    requires x < Pow2(n) && y < Pow2(n) && forall k :: 0 <= k < n ==> Bit(x, k) == Bit(y, k)
    ensures x == y
  {
    if n > 0 {
      assert Bit(x, 0) == Bit(y, 0);
      forall k | 0 <= k < n - 1 ensures Bit(x / 2, k) == Bit(y / 2, k) {
        assert Bit(x, k + 1) == Bit(y, k + 1);
      }
      BitsDetermine(x / 2, y / 2, n - 1);
    }
  }

  // ---------------------------------------------------------------- aiming a stream

  /** The value of r next to a given one that has remainder t modulo m and that some value of
      rand() leads to. */
  ghost function Target(r: nat, t: nat, m: nat): nat
    requires t < m
  {
    var base := ((2 * r) % TWO64) / RAND_LIMIT * RAND_LIMIT;
    base + (t - base) % m
  }

  ghost function Needed(r: nat, t: nat, m: nat): (x: rand31)
    requires t < m <= RAND_LIMIT
    ensures Mix(r, x) == Target(r, t, m)
  {
    NeededFits(r, t, m);
    Xor((2 * r) % TWO64, Target(r, t, m))
  }

  lemma NeededFits(r: nat, t: nat, m: nat)
    requires t < m <= RAND_LIMIT
    ensures Xor((2 * r) % TWO64, Target(r, t, m)) < RAND_LIMIT
    ensures Xor((2 * r) % TWO64, Xor((2 * r) % TWO64, Target(r, t, m))) == Target(r, t, m)
  {
    var s := (2 * r) % TWO64;
    var h := s / RAND_LIMIT;
    Pow2Limit();
    XorLow(h, s % RAND_LIMIT, (t - h * RAND_LIMIT) % m, 31);
    XorCancels(s, Target(r, t, m));
  }

  lemma Pow2Limit()
    ensures Pow2(31) == RAND_LIMIT
  {
    assert Pow2(10) == 0x400;
    assert Pow2(20) == 0x400 * 0x400;
    assert Pow2(30) == 0x400 * 0x400 * 0x400;
  }

  lemma TargetRemainder(r: nat, t: nat, m: nat)
    requires t < m
    ensures Target(r, t, m) % m == t
  {
    var base := ((2 * r) % TWO64) / RAND_LIMIT * RAND_LIMIT;
    var q := (t - base) / m;
    assert t - base == q * m + (t - base) % m;
    assert Target(r, t, m) == (-q) * m + t;
    DivModUnique(Target(r, t, m), m, -q, t);
  }

  /** The values of r that go through the wanted remainders, and the calls of rand() that lead
      through them. */
  ghost function Aim(seed: nat, want: seq<nat>, j: nat): nat
    requires forall i :: 0 <= i < |want| ==> want[i] <= i
    requires j < |want|
    decreases |want| - j
  {
    Target(Before(seed, want, j), want[j], j + 1)
  }

  ghost function Before(seed: nat, want: seq<nat>, j: nat): nat
    requires forall i :: 0 <= i < |want| ==> want[i] <= i
    requires j < |want|
    decreases |want| - j, 0
  {
    if j + 1 == |want| then seed else Aim(seed, want, j + 1)
  }

  ghost function Stream(seed: nat, want: seq<nat>): nat -> rand31
    requires |want| <= RAND_LIMIT && forall i :: 0 <= i < |want| ==> want[i] <= i
  {
    (j: nat) => if j < |want| then Needed(Before(seed, want, j), want[j], j + 1) else 0
  }

  /** Whatever remainders are wanted at the positions, some stream of rand() values produces
      them, from any seed. */
  lemma {:induction false} StreamAims(seed: nat, want: seq<nat>, j: nat)
    requires |want| <= RAND_LIMIT && forall i :: 0 <= i < |want| ==> want[i] <= i
    requires j < |want|
    ensures var r := Draw(Random(seed, Stream(seed, want)), |want| - 1, j);
      r == Aim(seed, want, j) && r % (j + 1) == want[j]
    decreases |want| - j
  {
    hide Mix, Target, Needed, Xor;
    if j + 1 < |want| {
      StreamAims(seed, want, j + 1);
    }
    TargetRemainder(Before(seed, want, j), want[j], j + 1);
    assert Stream(seed, want)(j) == Needed(Before(seed, want, j), want[j], j + 1);
  }
}
