/** Channel::readPebsData of src/misc/perf_sample_cpu.cc: drain the ring of every core of a
    group, again and again, into one page histogram, while the kernel goes on appending. */
module PebsChannel {
  import opened Words
  import opened PerfRing
  import opened PageHistogram

  const PAGE_SIZE: nat := 4096
  const BUFFER_SIZE: nat := 64 * PAGE_SIZE

  /** sizeof(struct perf_sample) and the places of its fields after the header. */
  const SAMPLE_SIZE: nat := 24
  const PID_AT: nat := 8
  const ADDRESS_AT: nat := 16

  const CORES_IN_GROUP: nat := 4

  /** The loop leaves this much unread. */
  const SLACK: nat := 128

  predicate IsSample(raw: Raw) {
    |raw| >= SAMPLE_SIZE && Field(raw, 0, 4) == RECORD_SAMPLE
  }

  function AccessOf(raw: Raw): Access
    requires IsSample(raw)
  {
    Access(Field(raw, PID_AT, 4), Field(raw, ADDRESS_AT, 8) / PAGE_SIZE)
  }

  /** The specification: the accesses that the sample records of a log report. */
  ghost function Accesses(log: seq<Raw>): multiset<Access> {
    if log == [] then multiset{} else
      var last := log[|log| - 1];
      Accesses(log[..|log| - 1]) + if IsSample(last) then multiset{AccessOf(last)} else multiset{}
  }

  lemma AccessesNext(log: seq<Raw>, k: nat)
    requires k < |log|
    ensures Accesses(log[..k + 1]) ==
            Accesses(log[..k]) + if IsSample(log[k]) then multiset{AccessOf(log[k])} else multiset{}
  {
    assert log[..k + 1][..k] == log[..k];
  }

  // ---------------------------------------------------------------- struct perf_sample

  /** What the kernel puts in a sample record: header, uint32_t pid and tid, uint64_t address;
      `rest` is whatever follows. */
  datatype PebsSample = PebsSample(misc: nat, pid: nat, tid: nat, address: nat, rest: seq<byte>) {
    ghost predicate Fits() {
      && misc < Pow256(2) && pid < Pow256(4) && tid < Pow256(4) && address < Pow256(8)
      && 24 + |rest| < Pow256(2)
    }

    function Bytes(): (raw: Raw)
      ensures |raw| == 24 + |rest|
    {
      SampleHeader(misc, 24 + |rest|) + Encode(pid, 4) + Encode(tid, 4) + Encode(address, 8) + rest
    }
  }

  lemma RecordSlices(x: PebsSample)
    ensures var raw := x.Bytes();
      && raw[0..4] == Encode(9, 4) && raw[6..8] == Encode(24 + |x.rest|, 2)
      && raw[8..12] == Encode(x.pid, 4) && raw[16..24] == Encode(x.address, 8)
  {
    hide Encode;
  }

  /** Page `page` of 4096 bytes holds the address. */
  predicate OnPage(address: nat, page: nat) {
    page * 4096 <= address < (page + 1) * 4096
  }

  /** The reader takes each field from its place: what is counted has the pid of the record and
      the page on which its address lies. For that 24 bytes are read. */
  lemma RecordRead(x: PebsSample)
    requires x.Fits()
    ensures WellFormed(x.Bytes(), SAMPLE_SIZE) && IsSample(x.Bytes())
    ensures AccessOf(x.Bytes()).pid == x.pid && OnPage(x.address, AccessOf(x.Bytes()).page)
    ensures Reach(x.Bytes()) == 24
  {
    hide Encode, Field, Pow256;
    var raw := x.Bytes();
    RecordSlices(x);
    NineFits();
    FieldWritten(raw, 0, 4, 9);
    FieldWritten(raw, 6, 2, 24 + |x.rest|);
    FieldWritten(raw, 8, 4, x.pid);
    FieldWritten(raw, 16, 8, x.address);
  }

  /** And every sample record is one of these. */
  lemma SampleIsRecord(raw: Raw) returns (x: PebsSample)
    requires WellFormed(raw, SAMPLE_SIZE) && IsSample(raw)
    ensures x.Fits() && x.Bytes() == raw
  {
    hide Encode, Field, Pow256;
    x := PebsSample(Field(raw, 4, 2), Field(raw, 8, 4), Field(raw, 12, 4), Field(raw, 16, 8), raw[24..]);
    FieldRewritten(raw, 0, 4);
    FieldRewritten(raw, 4, 2);
    FieldRewritten(raw, 6, 2);
    FieldRewritten(raw, 8, 4);
    FieldRewritten(raw, 12, 4);
    FieldRewritten(raw, 16, 8);
    assert raw == raw[0..4] + raw[4..6] + raw[6..8] + raw[8..12] + raw[12..16] + raw[16..24] + raw[24..];
  }

  /** The record is a sample of that process with an address on that page. */
  ghost predicate Reports(raw: Raw, pid: nat, page: nat) {
    exists x: PebsSample :: x.Fits() && x.Bytes() == raw && x.pid == pid && OnPage(x.address, page)
  }

  /** The reference: how many records of a log do. */
  ghost function Hits(log: seq<Raw>, pid: nat, page: nat): nat {
    if log == [] then 0
    else Hits(log[..|log| - 1], pid, page) + if Reports(log[|log| - 1], pid, page) then 1 else 0
  }

  lemma ReportedOnce(raw: Raw, pid: nat, page: nat)
    requires WellFormed(raw, SAMPLE_SIZE)
    ensures Reports(raw, pid, page) <==> IsSample(raw) && AccessOf(raw) == Access(pid, page)
  {
    hide Field;
    if IsSample(raw) {
      var x := SampleIsRecord(raw);
      RecordRead(x);
    }
    if Reports(raw, pid, page) {
      var x: PebsSample :| x.Fits() && x.Bytes() == raw && x.pid == pid && OnPage(x.address, page);
      RecordRead(x);
    }
  }

  /** What is counted under a process and a page are exactly the samples of that process on
      that page. */
  lemma {:induction false} CountedByName(log: seq<Raw>, pid: nat, page: nat)
    requires forall k :: 0 <= k < |log| ==> WellFormed(log[k], SAMPLE_SIZE)
    ensures Accesses(log)[Access(pid, page)] == Hits(log, pid, page)
  {
    hide WellFormed, Reports, IsSample, AccessOf;
    if log != [] {
      CountedByName(log[..|log| - 1], pid, page);
      ReportedOnce(log[|log| - 1], pid, page);
    }
  }

  /** For instance one sample of process 7 at address 0x1234567: page 0x1234. */
  lemma OneSample(x: PebsSample)
    requires x.Fits() && x.pid == 7 && x.address == 0x1234567
    ensures Accesses([x.Bytes()]) == multiset{Access(7, 0x1234)}
  {
    var raw := x.Bytes();
    RecordRead(x);
    var log: seq<Raw> := [raw];
    assert log[..0] == [];
    assert OnPage(x.address, 0x1234);
    assert Accesses(log) == multiset{} + multiset{AccessOf(raw)};
  }

  // ---------------------------------------------------------------- reading past the ring

  /** How much of a record is read: of anything but a sample only the header. */
  function Reach(raw: Raw): nat {
    if IsSample(raw) then ADDRESS_AT + 8 else HEADER
  }

  /** Reading record k where it starts in the ring runs over the end of the mapping. */
  ghost predicate Overruns(log: seq<Raw>, k: nat, n: nat)
    requires k < |log| && n > 0
  {
    OverTheEnd(log, k, Reach(log[k]), n)
  }

  ghost predicate Clean(log: seq<Raw>, to: nat, n: nat)
    requires to <= |log| && n > 0
  {
    forall j :: 0 <= j < to ==> !Overruns(log, j, n)
  }

  lemma CleanLater(a: seq<Raw>, b: seq<Raw>, to: nat, n: nat)
    requires a <= b && to <= |a| && n > 0 && Clean(a, to, n)
    ensures Clean(b, to, n)
  {
    hide OverTheEnd;
    forall j | 0 <= j < to ensures !Overruns(b, j, n) {
      assert !Overruns(a, j, n);
      OverTheEndLater(a, b, j, Reach(a[j]), n);
    }
  }

  /** A drain up to the head comes to a record that runs over the end of the mapping. */
  ghost predicate DrainFaults(r: Ring)
    requires |r.bytes| > 0
  {
    exists j :: r.taken <= j < |r.log| && Start(r.log, j) + SLACK < r.head && Overruns(r.log, j, |r.bytes|)
  }

  /** On bare samples a drain faults exactly when, of the records more than the slack before
      the head, one straddles the end of the ring. */
  lemma BareDrainFaults(r: Ring, raw: Raw, m: nat)
    requires |raw| == SAMPLE_SIZE && IsSample(raw) && r.log == Copies(raw, m) && r.head == Start(r.log, m)
    requires |r.bytes| > 0 && WholeUnits(|r.bytes|)
    ensures DrainFaults(r) <==> exists j :: r.taken <= j && j + 5 < m && Straddles(j, SAMPLE_SIZE, |r.bytes|)
  {
    hide OverTheEnd, Straddles, IsSample;
    CopiesStart(raw, m, m);
    forall j | 0 <= j < m
      ensures Start(r.log, j) + SLACK < r.head <==> j + 5 < m
      ensures Overruns(r.log, j, |r.bytes|) <==> Straddles(j, SAMPLE_SIZE, |r.bytes|)
    {
      CopiesStart(raw, m, j);
      ReadsOverTheEnd(r.log, raw, m, j, |r.bytes|, ADDRESS_AT + 8);
    }
  }

  /** On a stream of bare samples no drain ever faults if and only if the size of a sample
      divides the size of the ring. */
  lemma NoDrainFaults(n: nat, raw: Raw)
    requires WellFormed(raw, SAMPLE_SIZE) && |raw| == SAMPLE_SIZE && IsSample(raw)
    requires 6 * SAMPLE_SIZE <= n && WholeUnits(n)
    ensures forall k: nat :: |Supplied(n, SAMPLE_SIZE, raw, k, 6).bytes| == n
    ensures (forall k: nat :: !DrainFaults(Supplied(n, SAMPLE_SIZE, raw, k, 6))) <==> n % SAMPLE_SIZE == 0
  {
    hide DrainFaults, Straddles, Supplied, WellFormed, IsSample;
    StraddlesUnlessDivides(SAMPLE_SIZE, n);
    forall k: nat
      ensures |Supplied(n, SAMPLE_SIZE, raw, k, 6).bytes| == n
      ensures DrainFaults(Supplied(n, SAMPLE_SIZE, raw, k, 6)) <==> Straddles(k, SAMPLE_SIZE, n)
    {
      SuppliedValid(n, SAMPLE_SIZE, raw, k, 6);
      BareDrainFaults(Supplied(n, SAMPLE_SIZE, raw, k, 6), raw, k + 6);
    }
  }

  /** The records of a ring that have been consumed. */
  ghost function Consumed(r: Ring): seq<Raw> {
    if r.taken <= |r.log| then r.log[..r.taken] else []
  }

  /** Over all buffers: what the consumed records report, and how many they are. */
  ghost function AllAccesses(rs: seq<Ring>): multiset<Access> {
    if rs == [] then multiset{} else AllAccesses(rs[..|rs| - 1]) + Accesses(Consumed(rs[|rs| - 1]))
  }

  ghost function AllConsumed(rs: seq<Ring>): nat {
    if rs == [] then 0 else AllConsumed(rs[..|rs| - 1]) + |Consumed(rs[|rs| - 1])|
  }

  /** The same, counted by name. */
  ghost function AllHits(rs: seq<Ring>, pid: nat, page: nat): nat {
    if rs == [] then 0 else AllHits(rs[..|rs| - 1], pid, page) + Hits(Consumed(rs[|rs| - 1]), pid, page)
  }

  lemma {:induction false} AllCountedByName(rs: seq<Ring>, pid: nat, page: nat)
    requires AllValid(rs)
    ensures AllAccesses(rs)[Access(pid, page)] == AllHits(rs, pid, page)
  {
    hide WellFormed, Accesses, Hits;
    if rs != [] {
      AllCountedByName(rs[..|rs| - 1], pid, page);
      CountedByName(Consumed(rs[|rs| - 1]), pid, page);
    }
  }

  /** Progress of the histogram, counted by name. */
  lemma ProgressByName(rs: seq<Ring>, before: multiset<Access>, rs': seq<Ring>, after: multiset<Access>,
                       samples: nat, others: nat)
    requires AllValid(rs) && AllValid(rs') && Progress(rs, before, rs', after, samples, others)
    ensures forall pid, page :: after[Access(pid, page)] + AllHits(rs, pid, page) ==
                                before[Access(pid, page)] + AllHits(rs', pid, page)
  {
    hide AllValid, AllHits, AllAccesses, Forward;
    forall pid, page ensures after[Access(pid, page)] + AllHits(rs, pid, page) ==
                             before[Access(pid, page)] + AllHits(rs', pid, page)
    {
      AllCountedByName(rs, pid, page);
      AllCountedByName(rs', pid, page);
      assert (AllAccesses(rs') + before)[Access(pid, page)] == (AllAccesses(rs) + after)[Access(pid, page)];
    }
  }

  ghost predicate SameConsumed(rs: seq<Ring>, rs': seq<Ring>) {
    |rs| == |rs'| && forall j :: 0 <= j < |rs| ==> Consumed(rs[j]) == Consumed(rs'[j])
  }

  /** The consumer's side is the same, and the kernel has taken nothing back. */
  ghost predicate Later(rs: seq<Ring>, rs': seq<Ring>) {
    && SameConsumed(rs, rs')
    && forall j :: 0 <= j < |rs| ==>
         rs[j].tail == rs'[j].tail && rs[j].head <= rs'[j].head && rs[j].log <= rs'[j].log
  }

  /** Neither position of any ring moves back, logs grow, and what has been consumed stays
      consumed. */
  ghost predicate Forward(rs: seq<Ring>, rs': seq<Ring>) {
    |rs| == |rs'| && forall j :: 0 <= j < |rs| ==>
      && rs[j].tail <= rs'[j].tail && rs[j].head <= rs'[j].head
      && Consumed(rs[j]) <= Consumed(rs'[j]) && rs[j].log <= rs'[j].log
  }

  lemma LaterCompose(a: seq<Ring>, b: seq<Ring>, c: seq<Ring>)
    requires Later(a, b) && Later(b, c)
    ensures Later(a, c)
  {
    hide Consumed;
    forall j | 0 <= j < |a| ensures a[j].log <= c[j].log {
      PrefixCompose(a[j].log, b[j].log, c[j].log);
    }
  }

  lemma ForwardCompose(a: seq<Ring>, b: seq<Ring>, c: seq<Ring>)
    requires Forward(a, b) && Forward(b, c)
    ensures Forward(a, c)
  {
    hide Consumed;
    forall j | 0 <= j < |a| ensures Consumed(a[j]) <= Consumed(c[j]) && a[j].log <= c[j].log {
      PrefixCompose(Consumed(a[j]), Consumed(b[j]), Consumed(c[j]));
      PrefixCompose(a[j].log, b[j].log, c[j].log);
    }
  }

  lemma PrefixCompose(a: seq<Raw>, b: seq<Raw>, c: seq<Raw>)
    requires a <= b && b <= c
    ensures a <= c
  {}

  /** Of all buffers only the i-th has been consumed from. */
  ghost predicate Elsewhere(rs: seq<Ring>, rs': seq<Ring>, i: nat) {
    |rs| == |rs'| && forall j :: 0 <= j < |rs| && j != i ==>
      rs'[j].tail == rs[j].tail && Consumed(rs'[j]) == Consumed(rs[j])
  }

  lemma {:induction false} TotalsSame(rs: seq<Ring>, rs': seq<Ring>)
    requires SameConsumed(rs, rs')
    ensures AllAccesses(rs) == AllAccesses(rs') && AllConsumed(rs) == AllConsumed(rs')
  {
    if rs != [] {
      TotalsSame(rs[..|rs| - 1], rs'[..|rs| - 1]);
    }
  }

  lemma SwapParts<T>(a: multiset<T>, b: multiset<T>, x: multiset<T>, y: multiset<T>, c: multiset<T>)
    requires a + x == b + y
    ensures (a + c) + x == (b + c) + y
  {
    assert (a + c) + x == (a + x) + c;
    assert (b + c) + y == (b + y) + c;
  }

  /** Consuming from one buffer adds to the totals what it adds to that buffer. */
  lemma {:induction false} TotalsUpdate(rs: seq<Ring>, i: nat, r: Ring)
    requires i < |rs|
    ensures AllAccesses(rs[i := r]) + Accesses(Consumed(rs[i])) == AllAccesses(rs) + Accesses(Consumed(r))
  {
    hide Consumed, Accesses;
    var n := |rs| - 1;
    if i == n {
      assert rs[i := r][..n] == rs[..n];
      var a := AllAccesses(rs[..n]);
      assert (a + Accesses(Consumed(r))) + Accesses(Consumed(rs[i])) ==
             (a + Accesses(Consumed(rs[i]))) + Accesses(Consumed(r));
    } else {
      assert rs[i := r][..n] == rs[..n][i := r];
      TotalsUpdate(rs[..n], i, r);
      SwapParts(AllAccesses(rs[..n][i := r]), AllAccesses(rs[..n]),
                Accesses(Consumed(rs[i])), Accesses(Consumed(r)), Accesses(Consumed(rs[n])));
    }
  }

  lemma {:induction false} ConsumedUpdate(rs: seq<Ring>, i: nat, r: Ring)
    requires i < |rs|
    ensures AllConsumed(rs[i := r]) + |Consumed(rs[i])| == AllConsumed(rs) + |Consumed(r)|
  {
    var n := |rs| - 1;
    hide Consumed;
    if i == n {
      assert rs[i := r][..n] == rs[..n];
    } else {
      assert rs[i := r][..n] == rs[..n][i := r];
      ConsumedUpdate(rs[..n], i, r);
    }
  }

  ghost predicate AllValid(rs: seq<Ring>) {
    forall j :: 0 <= j < |rs| ==>
      RingValid(rs[j])
  }

  /** None of the records consumed ran over the end of the mapping. */
  ghost predicate RingValid(r: Ring) {
    && PerfRing.Valid(r) && r.sampleSize == SAMPLE_SIZE && |r.bytes| == BUFFER_SIZE
    && Clean(r.log, r.taken, |r.bytes|)
  }

  /** A record waits in buffer i that runs over the end of the mapping, and the next drain of
      that buffer will come to it. */
  ghost predicate Waits(rs: seq<Ring>, i: nat) {
    i < |rs| && |rs[i].bytes| > 0 && DrainFaults(rs[i])
  }

  /** Everything in the logs has come from the kernel. */
  ghost predicate Arrived(rs: seq<Ring>, arrivals: (nat, nat) -> seq<Raw>) {
    forall j, x :: 0 <= j < |rs| && x in rs[j].log ==> Sent(arrivals, j, x)
  }

  ghost predicate Sent(arrivals: (nat, nat) -> seq<Raw>, j: nat, x: Raw) {
    exists t: nat :: x in arrivals(t, j)
  }

  function DeliverAll(rs: seq<Ring>, arrivals: (nat, nat) -> seq<Raw>, now: nat): seq<Ring> {
    seq(|rs|, j requires 0 <= j < |rs| => Deliver(rs[j], arrivals(now, j)))
  }

  lemma DeliverAllValid(rs: seq<Ring>, arrivals: (nat, nat) -> seq<Raw>, now: nat)
    requires AllValid(rs)
    ensures AllValid(DeliverAll(rs, arrivals, now)) && Later(rs, DeliverAll(rs, arrivals, now))
  {
    forall j | 0 <= j < |rs|
      ensures var r' := Deliver(rs[j], arrivals(now, j));
        && RingValid(r')
        && Consumed(rs[j]) == Consumed(r') && rs[j].tail == r'.tail && rs[j].head <= r'.head && rs[j].log <= r'.log
    {
      DeliverValid(rs[j], arrivals(now, j));
      CleanLater(rs[j].log, Deliver(rs[j], arrivals(now, j)).log, rs[j].taken, |rs[j].bytes|);
    }
  }

  lemma DeliverAllArrived(rs: seq<Ring>, arrivals: (nat, nat) -> seq<Raw>, now: nat)
    requires Arrived(rs, arrivals)
    ensures Arrived(DeliverAll(rs, arrivals, now), arrivals)
  {
    forall j, x | 0 <= j < |rs| && x in DeliverAll(rs, arrivals, now)[j].log ensures Sent(arrivals, j, x) {
      DeliverLog(rs[j], arrivals(now, j));
    }
  }

  /** What has been counted between reading `from` and `to`, two prefixes of a log: the
      histogram has gained exactly the accesses of the records between them. */
  ghost predicate Tally(from: seq<Raw>, to: seq<Raw>, before: multiset<Access>, after: multiset<Access>,
                        samples: nat, others: nat) {
    && |to| == |from| + samples + others
    && after + Accesses(from) == before + Accesses(to)
    && |after| == |before| + samples
  }

  lemma TallyNext(from: seq<Raw>, log: seq<Raw>, k: nat, before: multiset<Access>, after: multiset<Access>,
                  samples: nat, others: nat)
    requires k < |log| && Tally(from, log[..k], before, after, samples, others)
    ensures if IsSample(log[k])
            then Tally(from, log[..k + 1], before, after + multiset{AccessOf(log[k])}, samples + 1, others)
            else Tally(from, log[..k + 1], before, after, samples, others + 1)
  {
    AccessesNext(log, k);
    if IsSample(log[k]) {
      SwapParts(after, before, Accesses(from), Accesses(log[..k]), multiset{AccessOf(log[k])});
      assert (before + multiset{AccessOf(log[k])}) + Accesses(log[..k]) == before + Accesses(log[..k + 1]);
    }
  }

  /** Between two moments: positions have only moved forward, and the histogram has gained
      exactly what the records consumed meanwhile report. */
  ghost predicate Progress(rs: seq<Ring>, before: multiset<Access>, rs': seq<Ring>, after: multiset<Access>,
                           samples: nat, others: nat) {
    && Forward(rs, rs')
    && AllAccesses(rs') + before == AllAccesses(rs) + after
    && AllConsumed(rs') == AllConsumed(rs) + samples + others
    && |after| == |before| + samples
  }

  /** Of what the buffers of a group held, at most the slack is left; no other buffer has been
      consumed from. */
  ghost predicate Drained(rs: seq<Ring>, rs': seq<Ring>, coreStart: nat, coreEnd: nat) {
    && |rs| == |rs'|
    && (forall j :: coreStart <= j < coreEnd && j < |rs| ==> rs[j].head <= rs'[j].tail + SLACK)
    && (forall j :: 0 <= j < |rs| && !(coreStart <= j < coreEnd) ==>
          rs'[j].tail == rs[j].tail && Consumed(rs'[j]) == Consumed(rs[j]))
  }

  lemma DrainedNone(rs: seq<Ring>, coreStart: nat)
    ensures Drained(rs, rs, coreStart, coreStart)
  {}

  lemma DrainedWiden(rs: seq<Ring>, rs': seq<Ring>, coreStart: nat, i: nat, coreEnd: nat)
    requires Drained(rs, rs', coreStart, i) && (i == coreEnd || coreEnd <= coreStart == i)
    ensures Drained(rs, rs', coreStart, coreEnd)
  {}

  lemma DrainedNext(rs0: seq<Ring>, rs: seq<Ring>, rs': seq<Ring>, coreStart: nat, i: nat, head: nat)
    requires Forward(rs0, rs) && Forward(rs, rs') && Drained(rs0, rs, coreStart, i) && Elsewhere(rs, rs', i)
    requires coreStart <= i < |rs| && rs[i].head <= head <= rs'[i].tail + SLACK
    ensures Drained(rs0, rs', coreStart, i + 1)
  {
    hide Consumed;
  }

  lemma DrainedCompose(rs0: seq<Ring>, rs: seq<Ring>, rs': seq<Ring>, coreStart: nat, coreEnd: nat)
    requires Forward(rs0, rs) && Drained(rs, rs', coreStart, coreEnd)
    requires rs0 == rs || Drained(rs0, rs, coreStart, coreEnd)
    ensures Drained(rs0, rs', coreStart, coreEnd)
  {
    hide Consumed;
  }

  lemma ProgressForward(rs: seq<Ring>, a: multiset<Access>, rs': seq<Ring>, a': multiset<Access>, s: nat, o: nat)
    requires Progress(rs, a, rs', a', s, o)
    ensures Forward(rs, rs') && |rs| == |rs'|
  {}

  lemma ProgressNone(rs: seq<Ring>, a: multiset<Access>)
    ensures Progress(rs, a, rs, a, 0, 0)
  {}

  lemma ProgressCompose(rs: seq<Ring>, a: multiset<Access>, rs': seq<Ring>, a': multiset<Access>, s: nat, o: nat,
                        rs'': seq<Ring>, a'': multiset<Access>, s': nat, o': nat)
    requires Progress(rs, a, rs', a', s, o) && Progress(rs', a', rs'', a'', s', o')
    ensures Progress(rs, a, rs'', a'', s + s', o + o')
  {
    ForwardCompose(rs, rs', rs'');
    forall t: Access ensures (AllAccesses(rs'') + a)[t] == (AllAccesses(rs) + a'')[t] {
      assert (AllAccesses(rs'') + a')[t] == (AllAccesses(rs') + a'')[t];
      assert (AllAccesses(rs') + a)[t] == (AllAccesses(rs) + a')[t];
    }
  }

  /** A uint32_t that was `from` and has been incremented n times. */
  ghost predicate Counter(c: nat, from: nat, n: nat) {
    c == Wrap(from + n)
  }

  lemma CounterCompose(c: nat, from: nat, n: nat, c': nat, n': nat)
    requires Counter(c, from, n) && Counter(c', c, n')
    ensures Counter(c', from, n + n') && c' < WRAP
  {
    WrapAdd(from + n, n');
  }

  lemma CounterValue(c: nat, n: nat)
    requires Counter(c, 0, n)
    ensures c == Wrap(n) && c < WRAP
  {}

  lemma CountNone(c: nat)
    requires c < WRAP
    ensures Counter(c, c, 0)
  {}

  lemma Count(c: nat, from: nat, n: nat)
    requires Counter(c, from, n)
    ensures Counter(Wrap(c + 1), from, n + 1)
  {
    WrapAdd(from + n, 1);
  }

  class Channel {
    var buffers: seq<Ring>
    /** What the kernel tries to append to which buffer, each time it gets a turn. */
    const arrivals: (nat, nat) -> seq<Raw>
    var now: nat

    ghost predicate Valid()
      reads this
    {
      AllValid(buffers) && Arrived(buffers, arrivals)
    }

    /** A channel as bind leaves it: one empty ring per core. */
    constructor (numCores: nat, arrivals: (nat, nat) -> seq<Raw>)
      ensures Valid() && this.arrivals == arrivals && now == 0
      ensures buffers == Copies(Empty(BUFFER_SIZE, SAMPLE_SIZE), numCores)
      ensures AllAccesses(buffers) == multiset{} && AllConsumed(buffers) == 0
    {
      buffers := Copies(Empty(BUFFER_SIZE, SAMPLE_SIZE), numCores);
      this.arrivals := arrivals;
      now := 0;
      new;
      NothingConsumed(buffers);
    }

    /** The kernel appends to all buffers; that changes nothing that has been consumed. */
    method Kernel()
      requires Valid()
      modifies this`buffers, this`now
      ensures Valid() && Later(old(buffers), buffers)
      ensures buffers == DeliverAll(old(buffers), arrivals, old(now))
    {
      DeliverAllValid(buffers, arrivals, now);
      DeliverAllArrived(buffers, arrivals, now);
      buffers := DeliverAll(buffers, arrivals, now);
      now := now + 1;
    }

    /** The drain of buffer i stands before record k, up to the head that it has read. */
    ghost predicate Draining(i: nat, tail: nat, k: nat, head: nat, n: nat)
      reads this
    {
      && Valid() && i < |buffers| && HeadRead(buffers[i], head, n)
      && buffers[i].taken <= k <= n && tail == Start(buffers[i].log, k) && Clean(buffers[i].log, k, BUFFER_SIZE)
    }

    method KernelDuring(i: nat, ghost tail: nat, ghost k: nat, ghost head: nat, ghost n: nat)
      requires Draining(i, tail, k, head, n)
      modifies this`buffers, this`now
      ensures Draining(i, tail, k, head, n) && Later(old(buffers), buffers)
      ensures buffers[i].taken == old(buffers[i].taken) && old(buffers[i].log) <= buffers[i].log
    {
      DeliverKeepsPlace(buffers[i], arrivals(now, i), tail, k, head, n);
      DeliverValid(buffers[i], arrivals(now, i));
      CleanLater(buffers[i].log, Deliver(buffers[i], arrivals(now, i)).log, k, BUFFER_SIZE);
      Kernel();
    }

    /** One turn of the drain: step over the record at the tail and count it if it is a sample.
        It faults at the first field that lies beyond the end of the ring. */
    method DrainOne(i: nat, tail: nat, ghost k: nat, head: nat, ghost n: nat, pageCount: PageCount)
      returns (fault: bool, next: nat, sample: bool)
      requires Draining(i, tail, k, head, n) && tail < head && pageCount.Valid()
      modifies pageCount
      ensures pageCount.Valid() && k < |buffers[i].log| && fault == Overruns(buffers[i].log, k, BUFFER_SIZE)
      ensures fault ==> pageCount.accesses == old(pageCount.accesses)
      ensures !fault ==> Draining(i, next, k + 1, head, n) && tail < next <= head
      ensures !fault ==> sample == IsSample(buffers[i].log[k])
      ensures !fault ==>
                if sample
                then pageCount.accesses == old(pageCount.accesses) + multiset{AccessOf(buffers[i].log[k])}
                else pageCount.accesses == old(pageCount.accesses)
    {
      hide PageCount.Valid, Accesses, AllAccesses, Later, InPlace, Arrived, Start, Field, PerfRing.Valid;
      var ring := buffers[i];
      AtRecord(ring, tail, k, head, n);
      var position := tail % BUFFER_SIZE;
      fault, next, sample := true, tail, false;
      if position + HEADER > BUFFER_SIZE {
        return;
      }
      next := tail + Field(ring.bytes, position + 6, 2);
      sample := Field(ring.bytes, position + 0, 4) == RECORD_SAMPLE;
      if sample {
        if position + ADDRESS_AT + 8 > BUFFER_SIZE {
          return;
        }
        pageCount.Add(Field(ring.bytes, position + PID_AT, 4), Field(ring.bytes, position + ADDRESS_AT, 8) / PAGE_SIZE);
      }
      fault := false;
    }

    /** Between two turns of the drain of buffer i, which began in rs0. */
    ghost predicate InDrain(i: nat, tail: nat, k: nat, head: nat, n: nat, rs0: seq<Ring>,
                            before: multiset<Access>, after: multiset<Access>, samples: nat, others: nat)
      reads this
    {
      && Draining(i, tail, k, head, n) && tail <= head && Later(rs0, buffers)
      && Tally(buffers[i].log[..buffers[i].taken], buffers[i].log[..k], before, after, samples, others)
    }

    lemma BeforeTheHead(i: nat, tail: nat, k: nat, head: nat, n: nat)
      requires Draining(i, tail, k, head, n) && tail < head
      ensures k < n <= |buffers[i].log|
    {
      Boundaries(buffers[i].log, k, n);
    }

    /** A whole turn of the drain, and whatever the kernel appends after it. */
    method DrainTurn(i: nat, tail: nat, ghost k: nat, head: nat, ghost n: nat, pageCount: PageCount,
                     ghost rs0: seq<Ring>, ghost before: multiset<Access>, ghost samples: nat, ghost others: nat)
      returns (fault: bool, next: nat, sample: bool)
      requires InDrain(i, tail, k, head, n, rs0, before, pageCount.accesses, samples, others)
      requires tail < head && pageCount.Valid()
      modifies this`buffers, this`now, pageCount
      ensures pageCount.Valid()
      ensures i < |buffers| && k < |buffers[i].log| && fault == Overruns(buffers[i].log, k, BUFFER_SIZE)
      ensures fault ==> InDrain(i, tail, k, head, n, rs0, before, pageCount.accesses, samples, others)
      ensures old(buffers[i].log) <= buffers[i].log
      ensures !fault ==> tail < next && InDrain(i, next, k + 1, head, n, rs0, before, pageCount.accesses,
                      if sample then samples + 1 else samples, if sample then others else others + 1)
    {
      hide Tally, Accesses, Later, AllValid, HeadRead, Start, PageHistogram.Represents;
      ghost var k0 := buffers[i].taken;
      BeforeTheHead(i, tail, k, head, n);
      TallyNext(buffers[i].log[..k0], buffers[i].log, k, before, pageCount.accesses, samples, others);
      fault, next, sample := DrainOne(i, tail, k, head, n, pageCount);
      if fault {
        return;
      }
      ghost var log := buffers[i].log;
      KernelLater(i, next, k + 1, head, n, rs0, k0);
      OverTheEndLater(log, buffers[i].log, k, Reach(log[k]), BUFFER_SIZE);
    }

    method KernelLater(i: nat, ghost tail: nat, ghost k: nat, ghost head: nat, ghost n: nat,
                       ghost rs0: seq<Ring>, ghost k0: nat)
      requires Draining(i, tail, k, head, n) && Later(rs0, buffers) && buffers[i].taken == k0
      modifies this`buffers, this`now
      ensures Draining(i, tail, k, head, n) && Later(rs0, buffers) && buffers[i].taken == k0
      ensures buffers[i].log[..k] == old(buffers[i].log[..k]) && buffers[i].log[..k0] == old(buffers[i].log[..k0])
      ensures old(buffers[i].log) <= buffers[i].log
    {
      KernelDuring(i, tail, k, head, n);
    }

    /** The inner loop: count records until no more than the slack is left before the head read. */
    method DrainLoop(i: nat, start: nat, k0: nat, head: nat, ghost n: nat, pageCount: PageCount, ghost rs0: seq<Ring>,
                     ghost before: multiset<Access>, numSamples: nat, numOthers: nat)
      returns (fault: bool, tail: nat, k: nat, numSamples': nat, numOthers': nat,
               ghost samples: nat, ghost others: nat)
      requires InDrain(i, start, k0, head, n, rs0, before, pageCount.accesses, 0, 0) && pageCount.Valid()
      requires numSamples < WRAP && numOthers < WRAP
      modifies this`buffers, this`now, pageCount
      ensures InDrain(i, tail, k, head, n, rs0, before, pageCount.accesses, samples, others) && pageCount.Valid()
      ensures i < |buffers| && old(buffers[i].log) <= buffers[i].log
      ensures fault ==> tail + SLACK < head && k < |buffers[i].log| && Overruns(buffers[i].log, k, BUFFER_SIZE)
      ensures !fault ==> head <= tail + SLACK
      ensures Counter(numSamples', numSamples, samples) && Counter(numOthers', numOthers, others)
    {
      hide InDrain, Counter, Overruns;
      fault, tail, k, samples, others := false, start, k0, 0, 0;
      numSamples', numOthers' := numSamples, numOthers;
      CountNone(numSamples);
      CountNone(numOthers);
      DrainIndex(i, tail, k, head, n, rs0, before, pageCount.accesses, 0, 0);
      while tail + SLACK < head
        invariant InDrain(i, tail, k, head, n, rs0, before, pageCount.accesses, samples, others) && pageCount.Valid()
        invariant i < |buffers| && old(buffers[i].log) <= buffers[i].log
        invariant Counter(numSamples', numSamples, samples) && Counter(numOthers', numOthers, others)
        decreases head - tail
      {
        var over, next, sample := DrainTurn(i, tail, k, head, n, pageCount, rs0, before, samples, others);
        if over {
          fault := true;
          return;
        }
        if sample {
          Count(numSamples', numSamples, samples);
          numSamples', samples := Wrap(numSamples' + 1), samples + 1;
        } else {
          Count(numOthers', numOthers, others);
          numOthers', others := Wrap(numOthers' + 1), others + 1;
        }
        tail, k := next, k + 1;
      }
    }

    lemma DrainIndex(i: nat, tail: nat, k: nat, head: nat, n: nat, rs0: seq<Ring>,
                     before: multiset<Access>, after: multiset<Access>, samples: nat, others: nat)
      requires InDrain(i, tail, k, head, n, rs0, before, after, samples, others)
      ensures i < |buffers|
    {}

    /** The drain of one buffer. The kernel may append before the head is read and after every
        turn. The drain faults exactly when it was bound to as the head was read; then that
        buffer has a record waiting that runs over the end of the mapping. */
    method Drain(i: nat, pageCount: PageCount, numSamples: nat, numOthers: nat)
      returns (fault: bool, numSamples': nat, numOthers': nat,
               ghost samples: nat, ghost others: nat, ghost head: nat)
      requires Valid() && i < |buffers| && pageCount.Valid() && numSamples < WRAP && numOthers < WRAP
      modifies this`buffers, this`now, pageCount
      ensures Valid() && pageCount.Valid() && |buffers| == |old(buffers)|
      ensures |Deliver(old(buffers[i]), arrivals(old(now), i)).bytes| > 0
      ensures fault == DrainFaults(Deliver(old(buffers[i]), arrivals(old(now), i)))
      ensures fault ==> Later(old(buffers), buffers) && Waits(buffers, i)
      ensures !fault ==> Elsewhere(old(buffers), buffers, i)
      ensures head == Deliver(old(buffers[i]), arrivals(old(now), i)).head && old(buffers[i].head) <= head
      ensures !fault ==> buffers[i].tail <= head <= buffers[i].tail + SLACK
      ensures Deliver(old(buffers[i]), arrivals(old(now), i)).log <= buffers[i].log
      ensures !fault ==>
                Progress(old(buffers), old(pageCount.accesses), buffers, pageCount.accesses, samples, others)
      ensures Counter(numSamples', numSamples, samples) && Counter(numOthers', numOthers, others)
    {
      Kernel();
      ghost var rs0, before := buffers, pageCount.accesses;
      var tail, top, k := buffers[i].tail, buffers[i].head, buffers[i].taken;
      ghost var n := |buffers[i].log|;
      DrainBegins(i, tail, k, top, n, before);
      head := top;
      hide InDrain, Later, Progress, Counter, Elsewhere, DrainFaults, Overruns, Waits;
      fault, tail, k, numSamples', numOthers', samples, others :=
        DrainLoop(i, tail, k, top, n, pageCount, rs0, before, numSamples, numOthers);
      FaultsExactly(i, rs0[i], fault, tail, k, top, n, rs0, before, pageCount.accesses, samples, others);
      if fault {
        LaterCompose(old(buffers), rs0, buffers);
        return;
      }
      DrainEnds(i, tail, k, top, n, old(buffers), rs0, before, pageCount.accesses, samples, others);
      buffers := buffers[i := Publish(buffers[i], tail, k)];
    }

    lemma DrainBegins(i: nat, tail: nat, k: nat, head: nat, n: nat, before: multiset<Access>)
      requires Valid() && i < |buffers| && n == |buffers[i].log|
      requires tail == buffers[i].tail && head == buffers[i].head && k == buffers[i].taken
      ensures InDrain(i, tail, k, head, n, buffers, before, before, 0, 0)
    {
      Boundaries(buffers[i].log, n, k);
    }

    /** How the loop ended tells whether it was bound to fault when the head was read. */
    lemma FaultsExactly(i: nat, r: Ring, fault: bool, tail: nat, k: nat, head: nat, n: nat, rs0: seq<Ring>,
                        before: multiset<Access>, after: multiset<Access>, samples: nat, others: nat)
      requires InDrain(i, tail, k, head, n, rs0, before, after, samples, others)
      requires i < |rs0| && r == rs0[i] && RingValid(r) && |r.log| == n && head == r.head
      requires i < |buffers| && r.log <= buffers[i].log
      requires fault ==> tail + SLACK < head && k < |buffers[i].log| && Overruns(buffers[i].log, k, BUFFER_SIZE)
      requires !fault ==> head <= tail + SLACK
      ensures fault == DrainFaults(r) && (fault ==> Waits(buffers, i))
    {
      hide Overruns, Clean, DrainFaults, Tally, PerfRing.Valid, Later;
      SameTaken(rs0, buffers, i);
      if fault {
        BeforeTheHead(i, tail, k, head, n);
        MustFault(r, buffers[i], k);
      } else {
        CannotFault(r, buffers[i], tail, k);
      }
    }

    /** Publishing the tail makes the records stepped over consumed ones. */
    lemma DrainEnds(i: nat, tail: nat, k: nat, head: nat, n: nat, older: seq<Ring>, rs0: seq<Ring>,
                    before: multiset<Access>, after: multiset<Access>, samples: nat, others: nat)
      requires Later(older, rs0) && InDrain(i, tail, k, head, n, rs0, before, after, samples, others)
      ensures i < |buffers| && tail <= head
      ensures var rs := buffers[i := Publish(buffers[i], tail, k)];
        && AllValid(rs) && Arrived(rs, arrivals)
        && Progress(older, before, rs, after, samples, others) && Elsewhere(older, rs, i)
    {
      TotalsSame(older, rs0);
      PublishKeeps(buffers, i, tail, k, older, rs0);
      PublishCounts(buffers, i, tail, k, rs0, before, after, samples, others);
    }

    /** One pass over the group. */
    method Pass(coreStart: nat, coreEnd: nat, pageCount: PageCount, numSamples: nat, numOthers: nat)
      returns (fault: bool, numSamples': nat, numOthers': nat, ghost samples: nat, ghost others: nat)
      requires Valid() && pageCount.Valid() && coreEnd <= |buffers| && numSamples < WRAP && numOthers < WRAP
      modifies this`buffers, this`now, pageCount
      ensures Valid() && pageCount.Valid() && |buffers| == |old(buffers)|
      ensures fault ==> exists i :: coreStart <= i < coreEnd && Waits(buffers, i)
      ensures !fault ==>
                && Progress(old(buffers), old(pageCount.accesses), buffers, pageCount.accesses, samples, others)
                && Counter(numSamples', numSamples, samples) && Counter(numOthers', numOthers, others)
                && numSamples' < WRAP && numOthers' < WRAP && Drained(old(buffers), buffers, coreStart, coreEnd)
    {
      hide Valid, PageCount.Valid, Progress, Counter, Drained, Forward, Elsewhere, Waits, DrainFaults, Later;
      fault, numSamples', numOthers', samples, others := false, numSamples, numOthers, 0, 0;
      CountNone(numSamples);
      CountNone(numOthers);
      ProgressNone(buffers, pageCount.accesses);
      var i := coreStart;
      DrainedNone(buffers, coreStart);
      while i < coreEnd
        invariant !fault && Valid() && pageCount.Valid() && coreStart <= i && (i <= coreEnd || i == coreStart)
        invariant |buffers| == |old(buffers)| && numSamples' < WRAP && numOthers' < WRAP
        invariant Progress(old(buffers), old(pageCount.accesses), buffers, pageCount.accesses, samples, others)
        invariant Counter(numSamples', numSamples, samples) && Counter(numOthers', numOthers, others)
        invariant Drained(old(buffers), buffers, coreStart, i)
      {
        ghost var rs, a := buffers, pageCount.accesses;
        var ns, no;
        ghost var s, o, head;
        fault, ns, no, s, o, head := Drain(i, pageCount, numSamples', numOthers');
        if fault {
          return;
        }
        CounterCompose(numSamples', numSamples, samples, ns, s);
        CounterCompose(numOthers', numOthers, others, no, o);
        ProgressCompose(old(buffers), old(pageCount.accesses), rs, a, samples, others,
                        buffers, pageCount.accesses, s, o);
        ProgressForward(old(buffers), old(pageCount.accesses), rs, a, samples, others);
        ProgressForward(rs, a, buffers, pageCount.accesses, s, o);
        DrainedNext(old(buffers), rs, buffers, coreStart, i, head);
        numSamples', numOthers', samples, others := ns, no, samples + s, others + o;
        i := i + 1;
      }
      DrainedWiden(old(buffers), buffers, coreStart, i, coreEnd);
    }

    /** readPebsData. The clock decides how many passes over the group there are: at least one.
        The histogram gains exactly the accesses of the records consumed, the two counters
        together are the records consumed, and at most the slack is left in each buffer of the
        group of what had been produced before the call; no other buffer is consumed from. That
        is, unless a drain comes to a record that runs over the end of the mapping. By name: under
        each process and page are counted exactly the samples consumed of that process with an
        address on that page. `states` are the buffers before the first pass and after each, and
        every one of the passes drains what it finds. */
    method ReadPebsData(coreStart: nat, coreEnd: nat, pageCount: PageCount, passes: nat)
      returns (fault: bool, numSamples: nat, numOthers: nat, ghost samples: nat, ghost others: nat,
               ghost states: seq<seq<Ring>>)
      requires Valid() && pageCount.Valid() && coreEnd <= |buffers| && passes >= 1
      modifies this`buffers, this`now, pageCount
      ensures Valid() && pageCount.Valid() && |buffers| == |old(buffers)|
      ensures fault ==> exists i :: coreStart <= i < coreEnd && Waits(buffers, i)
      ensures !fault ==>
                && Progress(old(buffers), old(pageCount.accesses), buffers, pageCount.accesses, samples, others)
                && numSamples == Wrap(samples) && numOthers == Wrap(others)
                && Drained(old(buffers), buffers, coreStart, coreEnd)
      ensures !fault ==> forall pid, page ::
                pageCount.accesses[Access(pid, page)] + AllHits(old(buffers), pid, page) ==
                old(pageCount.accesses)[Access(pid, page)] + AllHits(buffers, pid, page)
      ensures !fault ==> |states| == passes + 1 && states[0] == old(buffers) && states[passes] == buffers
      ensures !fault ==> forall p :: 0 <= p < passes ==> Drained(states[p], states[p + 1], coreStart, coreEnd)
    {
      hide Valid, AllValid, PageCount.Valid, Progress, Counter, Drained, Forward, Elsewhere, Waits;
      fault, numSamples, numOthers, samples, others := false, 0, 0, 0, 0;
      states := [buffers];
      RingsValid();
      CountNone(0);
      ProgressNone(buffers, pageCount.accesses);
      for pass := 0 to passes
        invariant !fault && Valid() && pageCount.Valid() && |buffers| == |old(buffers)|
        invariant Progress(old(buffers), old(pageCount.accesses), buffers, pageCount.accesses, samples, others)
        invariant Counter(numSamples, 0, samples) && Counter(numOthers, 0, others)
        invariant numSamples < WRAP && numOthers < WRAP
        invariant if pass == 0 then buffers == old(buffers) else Drained(old(buffers), buffers, coreStart, coreEnd)
        invariant |states| == pass + 1 && states[0] == old(buffers) && states[pass] == buffers
        invariant forall p :: 0 <= p < pass ==> Drained(states[p], states[p + 1], coreStart, coreEnd)
      {
        ghost var rs, a := buffers, pageCount.accesses;
        var ns, no;
        ghost var s, o;
        fault, ns, no, s, o := Pass(coreStart, coreEnd, pageCount, numSamples, numOthers);
        if fault {
          return;
        }
        CounterCompose(numSamples, 0, samples, ns, s);
        CounterCompose(numOthers, 0, others, no, o);
        ProgressCompose(old(buffers), old(pageCount.accesses), rs, a, samples, others,
                        buffers, pageCount.accesses, s, o);
        ProgressForward(old(buffers), old(pageCount.accesses), rs, a, samples, others);
        ProgressForward(rs, a, buffers, pageCount.accesses, s, o);
        DrainedCompose(old(buffers), rs, buffers, coreStart, coreEnd);
        states := states + [buffers];
        numSamples, numOthers, samples, others := ns, no, samples + s, others + o;
      }
      CounterValue(numSamples, samples);
      CounterValue(numOthers, others);
      ByName(old(buffers), old(pageCount.accesses), pageCount.accesses, samples, others);
    }

    lemma RingsValid()
      requires Valid()
      ensures AllValid(buffers)
    {}

    lemma ByName(rs: seq<Ring>, before: multiset<Access>, after: multiset<Access>, samples: nat, others: nat)
      requires Valid() && AllValid(rs) && Progress(rs, before, buffers, after, samples, others)
      ensures forall pid, page :: after[Access(pid, page)] + AllHits(rs, pid, page) ==
                                  before[Access(pid, page)] + AllHits(buffers, pid, page)
    {
      ProgressByName(rs, before, buffers, after, samples, others);
    }

    /** main: four groups of four cores one after the other, from core 0 on and round the cores,
        then the report. passes(i) + 1 is how many passes the clock allows over group i; `rounds`
        are the buffers before the first group and after each. Of what waits in a core below 16
        at most the slack is left, and no other core is touched. What is reported is what all the
        records consumed from all the buffers say, by process and page; no process with a sample
        waiting, more than the slack before the head, in one of those cores is missing. */
    method Monitor(passes: nat -> nat) returns (fault: bool, stats: seq<Stats>, ghost rounds: seq<seq<Ring>>)
      requires Valid() && |buffers| > 0 && |buffers| % CORES_IN_GROUP == 0
      requires AllAccesses(buffers) == multiset{}
      modifies this`buffers, this`now
      ensures Valid() && |buffers| == |old(buffers)|
      ensures fault ==> exists i: nat :: i < |buffers| && Waits(buffers, i)
      ensures !fault ==> |rounds| == 5 && rounds[0] == old(buffers) && rounds[4] == buffers
      ensures !fault ==> forall i :: 0 <= i < 4 ==>
                Drained(rounds[i], rounds[i + 1], (4 * i) % |buffers|, (4 * i) % |buffers| + 4)
      ensures !fault ==> forall j :: 0 <= j < |buffers| && j < 16 ==> old(buffers)[j].head <= buffers[j].tail + 128
      ensures !fault ==> forall j :: 16 <= j < |buffers| ==>
                buffers[j].tail == old(buffers)[j].tail && Consumed(buffers[j]) == Consumed(old(buffers)[j])
      ensures !fault ==>
                && (forall i :: 0 <= i < |stats| ==> StatsOf(stats[i], AllAccesses(buffers)))
                && (forall i, j :: 0 <= i < j < |stats| ==> stats[i].pid != stats[j].pid)
                && (forall a: Access :: a in AllAccesses(buffers) ==>
                      exists i :: 0 <= i < |stats| && stats[i].pid == a.pid)
                && Wrap(Total(stats)) == Wrap(|AllAccesses(buffers)|)
      ensures forall pid, page :: AllAccesses(buffers)[Access(pid, page)] == AllHits(buffers, pid, page)
      ensures !fault ==> forall j :: 0 <= j < |buffers| && j < 16 ==> InReport(old(buffers)[j], stats)
    {
      hide Valid, PageCount.Valid, Progress, Drained, Forward, AllAccesses, StatsOf, Waits, DrainedBelow, InReport;
      hide AllHits, Consumed;
      fault, stats := false, [];
      var pageCount := new PageCount();
      ghost var samples, others := 0, 0;
      ProgressNone(buffers, multiset{});
      rounds := [buffers];
      NoneDrained(buffers);
      for i := 0 to 4
        invariant !fault && Valid() && pageCount.Valid() && |buffers| == |old(buffers)|
        invariant Progress(old(buffers), multiset{}, buffers, pageCount.accesses, samples, others)
        invariant |rounds| == i + 1 && rounds[0] == old(buffers) && rounds[i] == buffers
        invariant forall k :: 0 <= k < i ==>
                    Drained(rounds[k], rounds[k + 1], (4 * k) % |buffers|, (4 * k) % |buffers| + 4)
        invariant DrainedBelow(old(buffers), buffers, 4 * i)
      {
        ghost var rs, a := buffers, pageCount.accesses;
        var c0 := (i * CORES_IN_GROUP) % |buffers|;
        GroupFits(i, |buffers|);
        var numSamples, numOthers;
        ghost var s, o, states;
        fault, numSamples, numOthers, s, o, states := ReadPebsData(c0, c0 + CORES_IN_GROUP, pageCount, passes(i) + 1);
        if fault {
          SomeWaits(c0);
          ByNameNow();
          return;
        }
        ProgressForward(old(buffers), multiset{}, rs, a, samples, others);
        ProgressForward(rs, a, buffers, pageCount.accesses, s, o);
        ProgressCompose(old(buffers), multiset{}, rs, a, samples, others, buffers, pageCount.accesses, s, o);
        RoundDrains(old(buffers), rs, buffers, i, c0);
        rounds := rounds + [buffers];
        samples, others := samples + s, others + o;
      }
      ProgressForward(old(buffers), multiset{}, buffers, pageCount.accesses, samples, others);
      FromNothing(old(buffers), buffers, pageCount.accesses, samples, others);
      stats := ProcessStats(pageCount);
      AllDrained(old(buffers));
      ByNameNow();
      forall j | 0 <= j < |buffers| && j < 16 ensures InReport(old(buffers)[j], stats) {
        NobodyMissing(old(buffers), j, stats);
      }
    }

    lemma ByNameNow()
      requires Valid()
      ensures forall pid, page :: AllAccesses(buffers)[Access(pid, page)] == AllHits(buffers, pid, page)
    {
      forall pid, page ensures AllAccesses(buffers)[Access(pid, page)] == AllHits(buffers, pid, page) {
        AllCountedByName(buffers, pid, page);
      }
    }

    lemma SomeWaits(c0: nat)
      requires exists i :: c0 <= i < c0 + CORES_IN_GROUP && Waits(buffers, i)
      ensures exists i: nat :: i < |buffers| && Waits(buffers, i)
    {}

    /** What the rounds come to. */
    lemma AllDrained(rs: seq<Ring>)
      requires DrainedBelow(rs, buffers, 16)
      ensures |rs| == |buffers|
      ensures forall j :: 0 <= j < |buffers| && j < 16 ==> rs[j].head <= buffers[j].tail + 128
      ensures forall j :: 16 <= j < |buffers| ==>
                buffers[j].tail == rs[j].tail && Consumed(buffers[j]) == Consumed(rs[j])
    {}

    lemma NobodyMissing(rs: seq<Ring>, j: nat, stats: seq<Stats>)
      requires Valid() && |rs| == |buffers| && j < |rs| && Forward(rs, buffers)
      requires rs[j].head <= buffers[j].tail + 128
      requires forall a: Access :: a in AllAccesses(buffers) ==> exists i :: 0 <= i < |stats| && stats[i].pid == a.pid
      ensures InReport(rs[j], stats)
    {
      forall k, x: PebsSample | Presses(rs[j], k, x)
        ensures exists i :: 0 <= i < |stats| && stats[i].pid == x.pid
      {
        ConsumedByNow(rs[j], buffers[j], k);
        RecordRead(x);
        InAllAccesses(buffers, j, k);
      }
    }
  }

  /** Sample x is record k of the ring and starts more than the slack before its head. */
  ghost predicate Presses(r: Ring, k: nat, x: PebsSample) {
    k < |r.log| && x.Fits() && x.Bytes() == r.log[k] && Start(r.log, k) + 128 < r.head
  }

  /** No process with such a sample is missing from the report. */
  ghost predicate InReport(r: Ring, stats: seq<Stats>) {
    forall k, x: PebsSample :: Presses(r, k, x) ==> exists i :: 0 <= i < |stats| && stats[i].pid == x.pid
  }

  lemma ConsumedByNow(r: Ring, r': Ring, k: nat)
    requires RingValid(r') && r.log <= r'.log && k < |r.log|
    requires Start(r.log, k) + 128 < r.head <= r'.tail + 128
    ensures k < r'.taken <= |r'.log| && r'.log[k] == r.log[k]
  {
    StartPrefix(r.log, r'.log, k);
    Boundaries(r'.log, k, r'.taken);
  }

  lemma {:induction false} InAccesses(log: seq<Raw>, k: nat)
    requires k < |log| && IsSample(log[k])
    ensures AccessOf(log[k]) in Accesses(log)
  {
    if k < |log| - 1 {
      InAccesses(log[..|log| - 1], k);
    }
  }

  /** A consumed sample is in the account of all buffers. */
  lemma {:induction false} InAllAccesses(rs: seq<Ring>, j: nat, k: nat)
    requires j < |rs| && k < rs[j].taken <= |rs[j].log| && IsSample(rs[j].log[k])
    ensures AccessOf(rs[j].log[k]) in AllAccesses(rs)
  {
    hide IsSample, AccessOf, Accesses;
    if j < |rs| - 1 {
      InAllAccesses(rs[..|rs| - 1], j, k);
    } else {
      InAccesses(Consumed(rs[j]), k);
    }
  }

  /** The cores below m have been drained of what waited at first, and no other one touched. */
  ghost predicate DrainedBelow(rs: seq<Ring>, rs': seq<Ring>, m: nat) {
    && |rs| == |rs'|
    && (forall j :: 0 <= j < |rs| && j < m ==> rs[j].head <= rs'[j].tail + SLACK)
    && (forall j :: m <= j < |rs| ==> rs'[j].tail == rs[j].tail && Consumed(rs'[j]) == Consumed(rs[j]))
  }

  lemma NoneDrained(rs: seq<Ring>)
    ensures DrainedBelow(rs, rs, 0)
  {}

  /** One more group, the next one or, round the cores, one that has had its turn. */
  lemma RoundDrains(rs0: seq<Ring>, rs: seq<Ring>, rs': seq<Ring>, i: nat, c0: nat)
    requires |rs| > 0 && |rs| % CORES_IN_GROUP == 0 && c0 == (i * CORES_IN_GROUP) % |rs|
    requires DrainedBelow(rs0, rs, 4 * i) && Forward(rs0, rs) && Forward(rs, rs') && Drained(rs, rs', c0, c0 + 4)
    ensures DrainedBelow(rs0, rs', 4 * (i + 1))
  {
    hide Consumed;
    if 4 * i < |rs| {
      SmallRemainder(4 * i, |rs|);
    }
  }

  lemma SmallRemainder(x: nat, n: nat)
    requires x < n
    ensures x % n == x
  {}

  /** Before a head that has been read, the drain stands at a whole record, and reads it. */
  lemma AtRecord(r: Ring, tail: nat, k: nat, head: nat, n: nat)
    requires RingValid(r) && HeadRead(r, head, n) && r.taken <= k <= n && tail == Start(r.log, k) && tail < head
    ensures k < n <= |r.log| && WellFormed(r.log[k], SAMPLE_SIZE)
    ensures forall at: nat, w: nat :: at + w <= |r.log[k]| && tail % BUFFER_SIZE + at + w <= BUFFER_SIZE ==>
              Field(r.bytes, tail % BUFFER_SIZE + at, w) == Field(r.log[k], at, w)
    ensures tail + |r.log[k]| == Start(r.log, k + 1) <= head
  {
    hide Field, InPlace;
    Boundaries(r.log, k, n);
    Boundaries(r.log, n, k + 1);
    Boundaries(r.log, n, |r.log|);
    ReadInPlace(r, tail, k);
  }

  lemma SameTaken(rs: seq<Ring>, rs': seq<Ring>, i: nat)
    requires Later(rs, rs') && i < |rs| && RingValid(rs[i]) && RingValid(rs'[i])
    ensures rs[i].taken == rs'[i].taken
  {
    assert |Consumed(rs[i])| == |Consumed(rs'[i])|;
  }

  /** A record past the slack that runs over the end faults the drain of the head read, and,
      with whatever has come since, the next one. */
  lemma MustFault(r: Ring, r': Ring, k: nat)
    requires RingValid(r) && RingValid(r') && r.log <= r'.log && r.taken == r'.taken <= k < |r.log|
    requires Start(r'.log, k) + SLACK < r.head && Overruns(r'.log, k, BUFFER_SIZE)
    ensures DrainFaults(r) && DrainFaults(r')
  {
    hide OverTheEnd;
    StartPrefix(r.log, r'.log, k);
    StartPrefix(r.log, r'.log, |r.log|);
    StartGrows(r'.log, |r.log|, |r'.log|);
    OverTheEndLater(r.log, r'.log, k, Reach(r.log[k]), BUFFER_SIZE);
  }

  /** None does if all records stepped over are clean and only the slack is left. */
  lemma CannotFault(r: Ring, r': Ring, tail: nat, k: nat)
    requires RingValid(r) && RingValid(r') && r.log <= r'.log && k <= |r.log|
    requires tail == Start(r'.log, k) && Clean(r'.log, k, BUFFER_SIZE) && r.head <= tail + SLACK
    ensures !DrainFaults(r)
  {
    hide OverTheEnd;
    forall j | r.taken <= j < |r.log| && Start(r.log, j) + SLACK < r.head
      ensures !Overruns(r.log, j, BUFFER_SIZE)
    {
      StartPrefix(r.log, r'.log, k);
      Boundaries(r.log, j, k);
      assert !Overruns(r'.log, j, BUFFER_SIZE);
      OverTheEndLater(r.log, r'.log, j, Reach(r.log[j]), BUFFER_SIZE);
    }
  }

  lemma OnlyCopies(log: seq<Raw>, raw: Raw)
    requires forall x :: x in log ==> x == raw
    ensures log == Copies(raw, |log|)
  {
    forall i | 0 <= i < |log| ensures log[i] == raw {
      assert log[i] in log;
    }
  }

  /** The ring of one core whose only input is bare samples, as many as it will take. */
  ghost predicate Flooded(r: Ring, raw: Raw) {
    RingValid(r) && r.log == Copies(raw, |r.log|) && |r.log| >= 10922 && r.taken <= 10922
  }

  lemma FirstDrain(raw: Raw)
    requires WellFormed(raw, SAMPLE_SIZE) && |raw| == SAMPLE_SIZE && IsSample(raw)
    ensures var r := Deliver(Empty(BUFFER_SIZE, SAMPLE_SIZE), Copies(raw, 10922));
      |r.bytes| == BUFFER_SIZE && !DrainFaults(r) && |r.log| == 10922 && r.head == 262128
  {
    hide DrainFaults, WellFormed, IsSample;
    var e := Empty(BUFFER_SIZE, SAMPLE_SIZE);
    DeliverValid(e, Copies(raw, 10922));
    DeliverCopies(e, raw, 0, 10922);
    CopiesStart(raw, 10922, 10922);
    BareDrainFaults(Deliver(e, Copies(raw, 10922)), raw, 10922);
    forall j: nat | j + 5 < 10922 ensures !Straddles(j, SAMPLE_SIZE, BUFFER_SIZE) {}
  }

  lemma NowFlooded(rs: seq<Ring>, arrivals: (nat, nat) -> seq<Raw>, raw: Raw)
    requires |raw| == SAMPLE_SIZE && forall t, j :: arrivals(t, j) == Copies(raw, 10922)
    requires AllValid(rs) && Arrived(rs, arrivals) && |rs| > 0 && |rs[0].log| >= 10922 && rs[0].tail <= 262128
    ensures Flooded(rs[0], raw)
  {
    hide Clean;
    var r := rs[0];
    forall x | x in r.log ensures x == raw {
      assert Sent(arrivals, 0, x);
    }
    OnlyCopies(r.log, raw);
    CopiesStart(raw, |r.log|, r.taken);
  }

  /** With all but the slack of 10922 samples read there is room for six more. */
  lemma SixMore(r: Ring, raw: Raw, m: nat)
    requires WellFormed(raw, SAMPLE_SIZE) && |raw| == SAMPLE_SIZE && m >= 6
    requires Flooded(r, raw) && 262128 <= r.tail + SLACK
    ensures |Deliver(r, Copies(raw, m)).log| >= 10928
  {
    hide WellFormed, Clean, Deliver;
    DeliverValid(r, Copies(raw, m));
    var c := |r.log|;
    if c < 10928 {
      CopiesStart(raw, c, c);
      assert Copies(raw, m) == Copies(raw, 6) + Copies(raw, m - 6);
      DeliverConcat(r, Copies(raw, 6), Copies(raw, m - 6));
      DeliverCopies(r, raw, c, 6);
      DeliverValid(Deliver(r, Copies(raw, 6)), Copies(raw, m - 6));
    }
  }

  lemma SecondDrain(r: Ring, raw: Raw)
    requires WellFormed(raw, SAMPLE_SIZE) && |raw| == SAMPLE_SIZE && IsSample(raw)
    requires Flooded(r, raw) && 262128 <= r.tail + SLACK
    ensures var r' := Deliver(r, Copies(raw, 10922)); |r'.bytes| == BUFFER_SIZE && DrainFaults(r')
  {
    hide DrainFaults, WellFormed, IsSample, Clean, Deliver;
    var r' := Deliver(r, Copies(raw, 10922));
    DeliverValid(r, Copies(raw, 10922));
    DeliverLog(r, Copies(raw, 10922));
    OnlyCopies(r'.log, raw);
    SixMore(r, raw, 10922);
    BareDrainFaults(r', raw, |r'.log|);
    assert Straddles(10922, SAMPLE_SIZE, BUFFER_SIZE);
  }

  /** On a fresh one-core channel flooded with bare samples the first drain reads all but the
      slack of 10922 samples; the second one comes to the 10923rd and faults. */
  method FirstLap(raw: Raw) returns (channel: Channel, first: bool, second: bool)
    requires WellFormed(raw, SAMPLE_SIZE) && |raw| == SAMPLE_SIZE && IsSample(raw)
    ensures fresh(channel) && channel.Valid() && !first && second
    ensures |channel.buffers| == 1 && channel.buffers[0].taken <= 10922
  {
    hide WellFormed, IsSample, DrainFaults, Progress, Clean, PageCount.Valid, Deliver, Waits;
    channel := new Channel(1, (t, j) => Copies(raw, 10922));
    var pageCount := new PageCount();
    FirstDrain(raw);
    var numSamples, numOthers;
    ghost var samples, others, head;
    first, numSamples, numOthers, samples, others, head := channel.Drain(0, pageCount, 0, 0);
    CounterValue(numSamples, samples);
    CounterValue(numOthers, others);
    NowFlooded(channel.buffers, channel.arrivals, raw);
    SecondDrain(channel.buffers[0], raw);
    second, numSamples, numOthers, samples, others, head := channel.Drain(0, pageCount, numSamples, numOthers);
  }

  lemma FromNothing(rs: seq<Ring>, rs': seq<Ring>, a: multiset<Access>, samples: nat, others: nat)
    requires AllAccesses(rs) == multiset{} && Progress(rs, multiset{}, rs', a, samples, others)
    ensures AllAccesses(rs') == a
  {
    assert AllAccesses(rs') + multiset{} == AllAccesses(rs') && multiset{} + a == a;
  }

  lemma GroupFits(i: nat, numCores: nat)
    requires numCores > 0 && numCores % CORES_IN_GROUP == 0
    ensures (i * CORES_IN_GROUP) % numCores + CORES_IN_GROUP <= numCores
  {
    var m, q := numCores / CORES_IN_GROUP, (i * CORES_IN_GROUP) / numCores;
    var c0 := (i * CORES_IN_GROUP) % numCores;
    assert numCores == m * CORES_IN_GROUP && i * CORES_IN_GROUP == q * numCores + c0;
    assert q * numCores == (q * m) * CORES_IN_GROUP;
    assert c0 == (i - q * m) * CORES_IN_GROUP;
  }

  lemma PublishKeeps(rs: seq<Ring>, i: nat, tail: nat, k: nat, older: seq<Ring>, rs0: seq<Ring>)
    requires AllValid(rs) && i < |rs| && At(rs[i], tail, k) && Later(older, rs0) && Later(rs0, rs)
    requires Clean(rs[i].log, k, BUFFER_SIZE)
    ensures var rs' := rs[i := Publish(rs[i], tail, k)];
      AllValid(rs') && Forward(older, rs') && Elsewhere(older, rs', i)
  {
    PublishValid(rs[i], tail, k);
    StartGrows(rs[i].log, rs[i].taken, k);
  }

  /** Publishing the tail of buffer i makes the records stepped over consumed ones. */
  lemma PublishCounts(rs: seq<Ring>, i: nat, tail: nat, k: nat, rs0: seq<Ring>,
                      before: multiset<Access>, after: multiset<Access>, samples: nat, others: nat)
    requires i < |rs| && At(rs[i], tail, k) && Later(rs0, rs)
    requires Tally(rs[i].log[..rs[i].taken], rs[i].log[..k], before, after, samples, others)
    ensures var rs' := rs[i := Publish(rs[i], tail, k)];
      && AllAccesses(rs') + before == AllAccesses(rs0) + after
      && AllConsumed(rs') == AllConsumed(rs0) + samples + others
  {
    var r := Publish(rs[i], tail, k);
    TotalsSame(rs0, rs);
    TotalsUpdate(rs, i, r);
    ConsumedUpdate(rs, i, r);
    Cancel(AllAccesses(rs[i := r]), AllAccesses(rs), Accesses(Consumed(rs[i])), Accesses(Consumed(r)), before, after);
  }

  lemma Cancel<T>(a: multiset<T>, b: multiset<T>, x: multiset<T>, y: multiset<T>, c: multiset<T>, d: multiset<T>)
    requires a + x == b + y && d + x == c + y
    ensures a + c == b + d
  {
    forall t: T ensures (a + c)[t] == (b + d)[t] {
      assert (a + x)[t] == (b + y)[t] && (d + x)[t] == (c + y)[t];
    }
  }

  lemma {:induction false} NothingConsumed(rs: seq<Ring>)
    requires forall j :: 0 <= j < |rs| ==> rs[j].taken == 0
    ensures AllAccesses(rs) == multiset{} && AllConsumed(rs) == 0
  {
    if rs != [] {
      NothingConsumed(rs[..|rs| - 1]);
    }
  }
}
