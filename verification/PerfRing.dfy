/** The perf ring buffer that src/misc/perf_sample_pid.cc and perf_sample_cpu.cc read: a
    producer (the kernel) appends whole records, the consumer reads them in place. */
module PerfRing {
  import opened Arithmetic
  import opened Words

  type Raw = seq<byte>

  /** struct perf_event_header: type, misc, size. */
  const HEADER: nat := 8
  const RECORD_SAMPLE: nat := 9

  function Field(m: seq<byte>, at: nat, w: nat): nat
    requires at + w <= |m|
  {
    Decode(m[at..at + w])
  }

  /** A field that has been written is read back ... */
  lemma FieldWritten(m: seq<byte>, at: nat, w: nat, v: nat)
    requires at + w <= |m| && m[at..at + w] == Encode(v, w) && v < Pow256(w)
    ensures Field(m, at, w) == v
  {
    DecodeEncode(v, w);
  }

  /** ... and whatever bytes are read are those of the value read. */
  lemma FieldRewritten(m: seq<byte>, at: nat, w: nat)
    requires at + w <= |m|
    ensures Field(m, at, w) < Pow256(w) && Encode(Field(m, at, w), w) == m[at..at + w]
  {
    var s := m[at..at + w];
    DecodeBound(s);
    DecodeEncode(Decode(s), w);
    SameWord(Encode(Decode(s), w), s);
  }

  /** struct perf_event_header of a sample record: uint32_t type, which is 9, uint16_t misc,
      uint16_t size. */
  function SampleHeader(misc: nat, size: nat): (h: Raw)
    ensures |h| == 8
  {
    Encode(9, 4) + Encode(misc, 2) + Encode(size, 2)
  }

  lemma NineFits()
    ensures 9 < Pow256(4)
  {
    Pow256Values();
  }

  /** What the consumers rely on in a record: its header gives its size, and a sample record
      is at least as long as the fields they read. */
  predicate WellFormed(raw: Raw, sampleSize: nat) {
    |raw| >= HEADER && Field(raw, 6, 2) == |raw| && (Field(raw, 0, 4) == RECORD_SAMPLE ==> |raw| >= sampleSize)
  }

  /** The data pages and the two positions of the header page, which only grow. `log` is
      every record produced so far and `taken` how many of them are behind the tail. */
  datatype Ring = Ring(bytes: seq<byte>, head: nat, tail: nat, log: seq<Raw>, taken: nat, sampleSize: nat)

  /** Where record k of the log starts, counted from the first byte ever produced. */
  ghost function Start(log: seq<Raw>, k: nat): nat
    requires k <= |log|
  {
    if k == 0 then 0 else Start(log, k - 1) + |log[k - 1]|
  }

  lemma {:induction false} StartGrows(log: seq<Raw>, i: nat, j: nat)
    requires i <= j <= |log|
    requires forall k :: 0 <= k < |log| ==> |log[k]| >= HEADER
    ensures Start(log, i) + HEADER * (j - i) <= Start(log, j)
    decreases j
  {
    if i < j {
      StartGrows(log, i, j - 1);
    }
  }

  lemma {:induction false} StartAppend(log: seq<Raw>, raw: Raw, k: nat)
    requires k <= |log|
    ensures Start(log + [raw], k) == Start(log, k)
  {
    if k > 0 {
      StartAppend(log, raw, k - 1);
    }
  }

  /** Record k lies in the ring at its place, wrapped round the physical end if need be. */
  ghost predicate InPlace(r: Ring, k: nat)
    requires k < |r.log| && |r.bytes| > 0
  {
    forall j :: 0 <= j < |r.log[k]| ==> ByteOf(r, k, j) == r.log[k][j]
  }

  /** What the ring holds where byte j of record k belongs. */
  ghost function ByteOf(r: Ring, k: nat, j: nat): byte
    requires k < |r.log| && |r.bytes| > 0
  {
    r.bytes[(Start(r.log, k) + j) % |r.bytes|]
  }

  ghost predicate Valid(r: Ring) {
    && |r.bytes| > 0 && r.taken <= |r.log|
    && r.tail == Start(r.log, r.taken) && r.head == Start(r.log, |r.log|)
    && r.head <= r.tail + |r.bytes|
    && (forall k :: 0 <= k < |r.log| ==> WellFormed(r.log[k], r.sampleSize))
    && (forall k :: r.taken <= k < |r.log| ==> InPlace(r, k))
  }

  // ---------------------------------------------------------------- the producer

  /** A record is appended only if it fits in what the consumer has freed. */
  predicate Fits(r: Ring, raw: Raw) {
    |r.bytes| > 0 && WellFormed(raw, r.sampleSize) && r.head + |raw| <= r.tail + |r.bytes|
  }

  /** The bytes of a record go to the positions that follow, modulo the size of the ring. */
  function Write(m: seq<byte>, at: nat, raw: Raw): (m': seq<byte>)
    requires |m| > 0
    ensures |m'| == |m|
    decreases |raw|
  {
    if raw == [] then m else Write(m[at % |m| := raw[0]], at + 1, raw[1..])
  }

  function Produce(r: Ring, raw: Raw): Ring
    requires Fits(r, raw)
  {
    r.(bytes := Write(r.bytes, r.head, raw), head := r.head + |raw|, log := r.log + [raw])
  }

  /** Records that do not fit are lost. */
  function Deliver(r: Ring, raws: seq<Raw>): Ring
    decreases |raws|
  {
    if raws == [] then r
    else Deliver(if Fits(r, raws[0]) then Produce(r, raws[0]) else r, raws[1..])
  }

  /** Bytes at logical positions less than a ring apart do not share a physical position. */
  lemma RingApart(x: nat, y: nat, n: nat)
    requires n > 0 && x < y < x + n
    ensures x % n != y % n
  {
    var d := y / n - x / n;
    MulAtLeast(d, n);
    assert d == 0 ==> d * n == 0;
    assert y - x == d * n + (y % n - x % n) by {
      assert x == (x / n) * n + x % n && y == (y / n) * n + y % n;
    }
  }

  /** Writing a record spares every byte less than a ring behind its end. */
  lemma {:induction false} WriteKeeps(m: seq<byte>, at: nat, raw: Raw, x: nat)
    requires |m| > 0 && x < at && at + |raw| <= x + |m|
    ensures Write(m, at, raw)[x % |m|] == m[x % |m|]
    decreases |raw|
  {
    if raw != [] {
      RingApart(x, at, |m|);
      WriteKeeps(m[at % |m| := raw[0]], at + 1, raw[1..], x);
    }
  }

  /** A record no longer than the ring is there to be read back once it has been written. */
  lemma {:induction false} WriteStores(m: seq<byte>, at: nat, raw: Raw, j: nat)
    requires j < |raw| <= |m|
    ensures Write(m, at, raw)[(at + j) % |m|] == raw[j]
    decreases |raw|
  {
    var m' := m[at % |m| := raw[0]];
    if j == 0 {
      WriteKeeps(m', at + 1, raw[1..], at);
    } else {
      WriteStores(m', at + 1, raw[1..], j - 1);
      assert at + 1 + (j - 1) == at + j;
    }
  }

  /** An unread record is at its place, between the tail and the head. */
  lemma Waiting(r: Ring, k: nat)
    requires Valid(r) && r.taken <= k < |r.log|
    ensures |r.bytes| > 0 && InPlace(r, k)
    ensures r.tail <= Start(r.log, k) && Start(r.log, k) + |r.log[k]| <= r.head <= r.tail + |r.bytes|
  {
    hide InPlace, Field;
    StartGrows(r.log, r.taken, k);
    StartGrows(r.log, k + 1, |r.log|);
    assert Start(r.log, k + 1) == Start(r.log, k) + |r.log[k]|;
  }

  lemma ProduceKeepsRecord(r: Ring, raw: Raw, k: nat)
    requires Valid(r) && Fits(r, raw) && r.taken <= k < |r.log|
    ensures InPlace(Produce(r, raw), k)
  {
    hide Valid, Start, Write;
    Waiting(r, k);
    var r' := Produce(r, raw);
    StartAppend(r.log, raw, k);
    var x := Start(r.log, k);
    forall j | 0 <= j < |r.log[k]| ensures ByteOf(r', k, j) == ByteOf(r, k, j) {
      WriteKeeps(r.bytes, r.head, raw, x + j);
    }
  }

  lemma ProduceNewest(r: Ring, raw: Raw)
    requires Valid(r) && Fits(r, raw)
    ensures InPlace(Produce(r, raw), |r.log|)
    ensures Start(r.log + [raw], |r.log| + 1) == r.head + |raw|
  {
    hide Write;
    var r' := Produce(r, raw);
    StartAppend(r.log, raw, |r.log|);
    StartGrows(r.log, r.taken, |r.log|);
    forall j | 0 <= j < |raw| ensures ByteOf(r', |r.log|, j) == raw[j] {
      WriteStores(r.bytes, r.head, raw, j);
    }
  }

  lemma ProduceValid(r: Ring, raw: Raw)
    requires Valid(r) && Fits(r, raw)
    ensures Valid(Produce(r, raw))
  {
    hide WellFormed, InPlace, Start;
    var r' := Produce(r, raw);
    StartAppend(r.log, raw, r.taken);
    ProduceNewest(r, raw);
    forall k | r'.taken <= k < |r'.log| ensures InPlace(r', k) {
      if k < |r.log| {
        ProduceKeepsRecord(r, raw, k);
      }
    }
  }

  /** However much the kernel delivers, the records waiting to be read stay in place, the log
      only grows, and the consumer's side is untouched. */
  lemma {:induction false} DeliverValid(r: Ring, raws: seq<Raw>)
    requires Valid(r)
    ensures var r' := Deliver(r, raws);
      && Valid(r') && r.log <= r'.log && r.head <= r'.head
      && r'.tail == r.tail && r'.taken == r.taken && |r'.bytes| == |r.bytes| && r'.sampleSize == r.sampleSize
    decreases |raws|
  {
    if raws != [] {
      if Fits(r, raws[0]) {
        ProduceValid(r, raws[0]);
      }
      DeliverValid(if Fits(r, raws[0]) then Produce(r, raws[0]) else r, raws[1..]);
    }
  }

  lemma {:induction false} DeliverConcat(r: Ring, a: seq<Raw>, b: seq<Raw>)
    ensures Deliver(r, a + b) == Deliver(Deliver(r, a), b)
    decreases |a|
  {
    if a == [] {
      assert a + b == b;
    } else {
      assert (a + b)[0] == a[0] && (a + b)[1..] == a[1..] + b;
      DeliverConcat(if Fits(r, a[0]) then Produce(r, a[0]) else r, a[1..], b);
    }
  }

  /** Nothing is in the log that the kernel did not bring. */
  lemma {:induction false} DeliverLog(r: Ring, raws: seq<Raw>)
    ensures forall x :: x in Deliver(r, raws).log ==> x in r.log || x in raws
    decreases |raws|
  {
    if raws != [] {
      DeliverLog(if Fits(r, raws[0]) then Produce(r, raws[0]) else r, raws[1..]);
    }
  }

  // ---------------------------------------------------------------- the consumer

  /** Between the tail it has published and the head it has read, the consumer stands at the
      start of a record: the k-th. */
  ghost predicate At(r: Ring, tail: nat, k: nat) {
    Valid(r) && r.taken <= k <= |r.log| && tail == Start(r.log, k)
  }

  /** A field of record k that ends before the end of the ring is read in place. */
  lemma FieldInPlace(r: Ring, k: nat, p: nat, at: nat, w: nat)
    requires k < |r.log| && |r.bytes| > 0 && InPlace(r, k) && p == Start(r.log, k) % |r.bytes|
    requires at + w <= |r.log[k]| && p + at + w <= |r.bytes|
    ensures Field(r.bytes, p + at, w) == Field(r.log[k], at, w)
  {
    hide Decode, Start;
    var read, kept := r.bytes[p + at..p + at + w], r.log[k][at..at + w];
    forall i | 0 <= i < w ensures read[i] == kept[i] {
      assert ByteOf(r, k, at + i) == r.log[k][at + i];
      SamePlace(Start(r.log, k), at + i, |r.bytes|);
    }
    assert read == kept;
  }

  lemma SamePlace(x: nat, d: nat, n: nat)
    requires n > 0 && x % n + d < n
    ensures (x + d) % n == x % n + d
  {
    DivModUnique(x + d, n, x / n, x % n + d);
  }

  /** Reading in place, the consumer gets the k-th record, as far as its fields end before the
      end of the ring. What lies beyond is not the rest of the record, and is not mapped. */
  lemma ReadInPlace(r: Ring, tail: nat, k: nat)
    requires At(r, tail, k) && tail < r.head
    ensures k < |r.log| && WellFormed(r.log[k], r.sampleSize) && tail == Start(r.log, k)
    ensures forall at: nat, w: nat :: at + w <= |r.log[k]| && tail % |r.bytes| + at + w <= |r.bytes| ==>
              Field(r.bytes, tail % |r.bytes| + at, w) == Field(r.log[k], at, w)
    ensures At(r, tail + |r.log[k]|, k + 1) && tail + |r.log[k]| <= r.head
  {
    assert InPlace(r, k);
    var p := tail % |r.bytes|;
    forall at: nat, w: nat | at + w <= |r.log[k]| && p + at + w <= |r.bytes|
      ensures Field(r.bytes, p + at, w) == Field(r.log[k], at, w)
    {
      FieldInPlace(r, k, p, at, w);
    }
    StartGrows(r.log, k + 1, |r.log|);
  }

  /** A head read earlier is a record boundary of the log as it was then. */
  ghost predicate HeadRead(r: Ring, head: nat, n: nat) {
    n <= |r.log| && head == Start(r.log, n)
  }

  lemma {:induction false} StartPrefix(a: seq<Raw>, b: seq<Raw>, k: nat)
    requires a <= b && k <= |a|
    ensures Start(a, k) == Start(b, k)
  {
    if k > 0 {
      StartPrefix(a, b, k - 1);
    }
  }

  /** A read of the first `reach` bytes of record k, where it starts, ends beyond the ring. */
  ghost predicate OverTheEnd(log: seq<Raw>, k: nat, reach: nat, n: nat)
    requires k < |log| && n > 0
  {
    Start(log, k) % n + reach > n
  }

  lemma OverTheEndLater(a: seq<Raw>, b: seq<Raw>, k: nat, reach: nat, n: nat)
    requires a <= b && k < |a| && n > 0
    ensures OverTheEnd(a, k, reach, n) == OverTheEnd(b, k, reach, n)
  {
    StartPrefix(a, b, k);
  }

  /** Where the consumer stands survives whatever the kernel does meanwhile. */
  lemma DeliverKeepsPlace(r: Ring, raws: seq<Raw>, tail: nat, k: nat, head: nat, n: nat)
    requires At(r, tail, k) && HeadRead(r, head, n)
    ensures At(Deliver(r, raws), tail, k) && HeadRead(Deliver(r, raws), head, n)
  {
    DeliverValid(r, raws);
    StartPrefix(r.log, Deliver(r, raws).log, k);
    StartPrefix(r.log, Deliver(r, raws).log, n);
  }

  /** Of two record boundaries, the earlier one is that of the earlier record. */
  lemma Boundaries(log: seq<Raw>, k: nat, n: nat)
    requires k <= |log| && n <= |log| && forall i :: 0 <= i < |log| ==> |log[i]| >= HEADER
    ensures Start(log, k) < Start(log, n) <==> k < n
  {
    if k < n {
      StartGrows(log, k, n);
    } else {
      StartGrows(log, n, k);
    }
  }

  lemma AllRead(r: Ring)
    requires Valid(r) && r.taken == |r.log|
    ensures r.head == r.tail
  {}

  /** Publishing the new tail gives the space of the records read back to the kernel. */
  function Publish(r: Ring, tail: nat, k: nat): Ring {
    r.(tail := tail, taken := k)
  }

  lemma PublishValid(r: Ring, tail: nat, k: nat)
    requires At(r, tail, k)
    ensures Valid(Publish(r, tail, k))
  {
    StartGrows(r.log, r.taken, k);
    StartGrows(r.log, k, |r.log|);
    forall i | k <= i < |r.log| ensures InPlace(Publish(r, tail, k), i) {
      assert InPlace(r, i);
    }
  }

  // ---------------------------------------------------------------- records of one size

  /** Record k of a stream of records of s bytes runs over the physical end of the ring. */
  ghost predicate Straddles(k: nat, s: nat, n: nat)
    requires n > 0
  {
    (k * s) % n + s > n
  }

  /** In a stream of samples of one size, no record ever straddles the end of the ring if and
      only if that size divides the size of the ring. */
  lemma StraddlesUnlessDivides(s: nat, n: nat)
    requires 0 < s <= n
    ensures (forall k: nat :: !Straddles(k, s, n)) <==> n % s == 0
  {
    var m, rest := n / s, n % s;
    assert n == m * s + rest;
    if rest == 0 {
      forall k: nat ensures !Straddles(k, s, n) {
        var j, q := k % m, k / m;
        assert k * s == q * n + j * s by {
          assert k == q * m + j;
          assert (q * m + j) * s == q * (m * s) + j * s;
        }
        MulMono(j + 1, m, s);
        MulSucc(j, s);
        DivModUnique(k * s, n, q, j * s);
      }
    } else {
      assert m * s < n;
      DivModUnique(m * s, n, 0, m * s);
      assert Straddles(m, s, n);
    }
  }

  /** The kernel keeps records and rings in units of eight bytes. */
  predicate WholeUnits(x: nat) {
    x % 8 == 0
  }

  /** Then a read that ends in the last unit of a record of a stream of equal records runs over
      the end of the ring exactly when the record straddles it. */
  lemma ReadsOverTheEnd(log: seq<Raw>, raw: Raw, m: nat, k: nat, n: nat, reach: nat)
    requires log == Copies(raw, m) && k < m
    requires n > 0 && WholeUnits(|raw|) && WholeUnits(n) && reach <= |raw| < reach + 8
    ensures OverTheEnd(log, k, reach, n) <==> Straddles(k, |raw|, n)
  {
    hide WholeUnits;
    CopiesStart(raw, m, k);
    var x := k * |raw|;
    MultipleOfUnits(k, |raw|);
    MultipleOfUnits(x / n, n);
    DifferenceOfUnits(x, (x / n) * n, x % n);
    InLastUnit(x % n, |raw|, n, reach);
  }

  lemma InLastUnit(p: nat, s: nat, n: nat, reach: nat)
    requires WholeUnits(p) && WholeUnits(s) && WholeUnits(n) && reach <= s < reach + 8
    ensures p + reach > n <==> p + s > n
  {}

  lemma MultipleOfUnits(k: nat, s: nat)
    requires WholeUnits(s)
    ensures WholeUnits(k * s)
  {
    var u := s / 8;
    assert k * s == (k * u) * 8 by {
      assert s == u * 8;
    }
    MultipleMod(k * u, 8);
  }

  lemma DifferenceOfUnits(a: nat, b: nat, p: nat)
    requires WholeUnits(a) && WholeUnits(b) && a == b + p
    ensures WholeUnits(p)
  {}

  function Copies<T>(x: T, m: nat): (s: seq<T>)
    ensures |s| == m && forall i :: 0 <= i < m ==> s[i] == x
  {
    seq(m, _ => x)
  }

  lemma {:induction false} CopiesStart(raw: Raw, m: nat, k: nat)
    requires k <= m
    ensures Start(Copies(raw, m), k) == k * |raw|
  {
    if k > 0 {
      CopiesStart(raw, m, k - 1);
      MulSucc(k - 1, |raw|);
    }
  }

  lemma {:induction false} DeliverCopies(r: Ring, raw: Raw, c: nat, m: nat)
    requires Valid(r) && WellFormed(raw, r.sampleSize) && r.log == Copies(raw, c)
    requires r.head + m * |raw| <= r.tail + |r.bytes|
    ensures var r' := Deliver(r, Copies(raw, m)); Valid(r') && r'.log == Copies(raw, c + m) && r'.taken == r.taken
    decreases m
  {
    DeliverValid(r, Copies(raw, m));
    if m == 0 {
      assert Copies(raw, c + m) == Copies(raw, c);
    } else {
      MulSucc(m - 1, |raw|);
      assert Copies(raw, m)[1..] == Copies(raw, m - 1) && Copies(raw, c) + [raw] == Copies(raw, c + 1);
      ProduceValid(r, raw);
      DeliverCopies(Produce(r, raw), raw, c + 1, m - 1);
    }
  }

  function Empty(n: nat, sampleSize: nat): Ring {
    Ring(seq(n, _ => 0), 0, 0, [], 0, sampleSize)
  }

  /** A ring that k copies of one record have gone through, one by one. */
  function Used(n: nat, sampleSize: nat, raw: Raw, k: nat): Ring {
    if k == 0 then Empty(n, sampleSize) else
      var r := Deliver(Used(n, sampleSize, raw, k - 1), [raw]);
      Publish(r, r.head, |r.log|)
  }

  lemma {:induction false} UsedValid(n: nat, sampleSize: nat, raw: Raw, k: nat)
    requires WellFormed(raw, sampleSize) && |raw| <= n
    ensures var r := Used(n, sampleSize, raw, k);
      Valid(r) && r.log == Copies(raw, k) && r.taken == k && |r.bytes| == n && r.sampleSize == sampleSize
  {
    if k > 0 {
      var r := Used(n, sampleSize, raw, k - 1);
      UsedValid(n, sampleSize, raw, k - 1);
      assert Copies(raw, 1) == [raw];
      DeliverValid(r, [raw]);
      DeliverCopies(r, raw, k - 1, 1);
      var r' := Deliver(r, [raw]);
      PublishValid(r', r'.head, |r'.log|);
    }
  }

  /** The same ring with m further copies waiting. */
  function Supplied(n: nat, sampleSize: nat, raw: Raw, k: nat, m: nat): Ring {
    Deliver(Used(n, sampleSize, raw, k), Copies(raw, m))
  }

  lemma SuppliedValid(n: nat, sampleSize: nat, raw: Raw, k: nat, m: nat)
    requires WellFormed(raw, sampleSize) && |raw| <= n && m * |raw| <= n
    ensures var r := Supplied(n, sampleSize, raw, k, m);
      Valid(r) && r.log == Copies(raw, k + m) && r.taken == k && |r.bytes| == n && r.sampleSize == sampleSize
  {
    UsedValid(n, sampleSize, raw, k);
    DeliverValid(Used(n, sampleSize, raw, k), Copies(raw, m));
    DeliverCopies(Used(n, sampleSize, raw, k), raw, k, m);
  }
}
