/** Channel::readSample of src/misc/perf_sample_pid.cc: scan the ring for the next sample of
    one event and one process, while the kernel goes on appending. */
module PidChannel {
  import opened Words
  import opened PerfRing

  const EINVAL: int := 22
  const EAGAIN: int := 11

  const BUFFER_SIZE: nat := 4 * 4096

  /** sizeof(struct perf_sample) and the places of its fields after the header. */
  const SAMPLE_SIZE: nat := 40
  const ID_AT: nat := 8
  const PID_AT: nat := 16
  const TID_AT: nat := 20
  const ADDRESS_AT: nat := 24
  const CPU_AT: nat := 32

  datatype Sample = Sample(kind: nat, cpu: nat, pid: nat, tid: nat, address: nat)

  predicate IsSample(raw: Raw) {
    |raw| >= SAMPLE_SIZE && Field(raw, 0, 4) == RECORD_SAMPLE
  }

  /** A sample record of event `id` and process `pid`. */
  predicate Matches(raw: Raw, id: nat, pid: nat) {
    IsSample(raw) && Field(raw, ID_AT, 8) == id && Field(raw, PID_AT, 4) == pid
  }

  function SampleOf(raw: Raw, kind: nat): Sample
    requires IsSample(raw)
  {
    Sample(kind, Field(raw, CPU_AT, 4), Field(raw, PID_AT, 4), Field(raw, TID_AT, 4), Field(raw, ADDRESS_AT, 8))
  }

  // ---------------------------------------------------------------- struct perf_sample

  /** What the kernel puts in a sample record: header, uint64_t id, uint32_t pid and tid, uint64_t
      address, uint32_t cpu and one more; `rest` is whatever follows. */
  datatype PerfSample = PerfSample(misc: nat, id: nat, pid: nat, tid: nat, address: nat, cpu: nat, res: nat,
                                   rest: seq<byte>) {
    ghost predicate Fits() {
      && misc < Pow256(2) && id < Pow256(8) && pid < Pow256(4) && tid < Pow256(4)
      && address < Pow256(8) && cpu < Pow256(4) && res < Pow256(4) && 40 + |rest| < Pow256(2)
    }

    function Bytes(): (raw: Raw)
      ensures |raw| == 40 + |rest|
    {
      SampleHeader(misc, 40 + |rest|) + Encode(id, 8) + Encode(pid, 4) + Encode(tid, 4) +
      Encode(address, 8) + Encode(cpu, 4) + Encode(res, 4) + rest
    }
  }

  lemma RecordSlices(x: PerfSample)
    ensures var raw := x.Bytes();
      && raw[0..4] == Encode(9, 4) && raw[6..8] == Encode(40 + |x.rest|, 2) && raw[8..16] == Encode(x.id, 8)
      && raw[16..20] == Encode(x.pid, 4) && raw[20..24] == Encode(x.tid, 4)
      && raw[24..32] == Encode(x.address, 8) && raw[32..36] == Encode(x.cpu, 4)
  {
    hide Encode;
  }

  /** The reader takes each field from its place: a record is a match exactly if its id and its
      pid are the channel's, and the sample read from it has its components, each under its own
      name. Up to the field that decides, 16, 20 or 36 bytes are read. */
  lemma RecordRead(x: PerfSample, id: nat, pid: nat, kind: nat)
    requires x.Fits()
    ensures WellFormed(x.Bytes(), SAMPLE_SIZE) && IsSample(x.Bytes())
    ensures Matches(x.Bytes(), id, pid) <==> x.id == id && x.pid == pid
    ensures var s := SampleOf(x.Bytes(), kind);
      s.kind == kind && s.cpu == x.cpu && s.pid == x.pid && s.tid == x.tid && s.address == x.address
    ensures Reach(x.Bytes(), id, pid) == if x.id != id then 16 else if x.pid != pid then 20 else 36
  {
    hide Encode, Field, Pow256;
    var raw := x.Bytes();
    RecordSlices(x);
    NineFits();
    FieldWritten(raw, 0, 4, 9);
    FieldWritten(raw, 6, 2, 40 + |x.rest|);
    FieldWritten(raw, 8, 8, x.id);
    FieldWritten(raw, 16, 4, x.pid);
    FieldWritten(raw, 20, 4, x.tid);
    FieldWritten(raw, 24, 8, x.address);
    FieldWritten(raw, 32, 4, x.cpu);
  }

  /** And every sample record is one of these. */
  lemma SampleIsRecord(raw: Raw) returns (x: PerfSample)
    requires WellFormed(raw, SAMPLE_SIZE) && IsSample(raw)
    ensures x.Fits() && x.Bytes() == raw
  {
    hide Encode, Field, Pow256;
    x := PerfSample(Field(raw, 4, 2), Field(raw, 8, 8), Field(raw, 16, 4), Field(raw, 20, 4), Field(raw, 24, 8),
                    Field(raw, 32, 4), Field(raw, 36, 4), raw[40..]);
    FieldRewritten(raw, 0, 4);
    FieldRewritten(raw, 4, 2);
    FieldRewritten(raw, 6, 2);
    FieldRewritten(raw, 8, 8);
    FieldRewritten(raw, 16, 4);
    FieldRewritten(raw, 20, 4);
    FieldRewritten(raw, 24, 8);
    FieldRewritten(raw, 32, 4);
    FieldRewritten(raw, 36, 4);
    assert raw == raw[0..4] + raw[4..6] + raw[6..8] + raw[8..16] + raw[16..20] + raw[20..24] + raw[24..32] +
                  raw[32..36] + raw[36..40] + raw[40..];
  }

  // ---------------------------------------------------------------- the specification

  /** The specification: the matching records of a log, as samples, in order. */
  ghost function Matching(log: seq<Raw>, id: nat, pid: nat, kind: nat): seq<Sample> {
    if log == [] then [] else
      var last := log[|log| - 1];
      Matching(log[..|log| - 1], id, pid, kind) + (if Matches(last, id, pid) then [SampleOf(last, kind)] else [])
  }

  lemma {:induction false} MatchingConcat(a: seq<Raw>, b: seq<Raw>, id: nat, pid: nat, kind: nat)
    ensures Matching(a + b, id, pid, kind) == Matching(a, id, pid, kind) + Matching(b, id, pid, kind)
    decreases |b|
  {
    if b == [] {
      assert a + b == a;
    } else {
      var c := b[..|b| - 1];
      assert (a + b)[..|a + b| - 1] == a + c;
      MatchingConcat(a, c, id, pid, kind);
    }
  }

  lemma MatchingNext(log: seq<Raw>, k: nat, id: nat, pid: nat, kind: nat)
    requires k < |log|
    ensures Matching(log[..k + 1], id, pid, kind) == Matching(log[..k], id, pid, kind) +
            if Matches(log[k], id, pid) then [SampleOf(log[k], kind)] else []
  {
    assert log[..k + 1][..k] == log[..k];
  }

  ghost predicate NoMatch(log: seq<Raw>, from: nat, to: nat, id: nat, pid: nat)
    requires to <= |log|
  {
    forall j :: from <= j < to ==> !Matches(log[j], id, pid)
  }

  // ---------------------------------------------------------------- reading past the ring

  /** How much of a record is read: the fields of a sample only up to the one that rules it out. */
  function Reach(raw: Raw, id: nat, pid: nat): nat {
    if !IsSample(raw) then HEADER
    else if Field(raw, ID_AT, 8) != id then ID_AT + 8
    else if Field(raw, PID_AT, 4) != pid then PID_AT + 4
    else CPU_AT + 4
  }

  /** Reading record k where it starts in the ring runs over the end of the mapping. */
  ghost predicate Overruns(log: seq<Raw>, k: nat, id: nat, pid: nat, n: nat)
    requires k < |log| && n > 0
  {
    OverTheEnd(log, k, Reach(log[k], id, pid), n)
  }

  ghost predicate Clean(log: seq<Raw>, to: nat, id: nat, pid: nat, n: nat)
    requires to <= |log| && n > 0
  {
    forall j :: 0 <= j < to ==> !Overruns(log, j, id, pid, n)
  }

  lemma CleanLater(a: seq<Raw>, b: seq<Raw>, to: nat, id: nat, pid: nat, n: nat)
    requires a <= b && to <= |a| && n > 0 && Clean(a, to, id, pid, n)
    ensures Clean(b, to, id, pid, n)
  {
    hide OverTheEnd;
    forall j | 0 <= j < to ensures !Overruns(b, j, id, pid, n) {
      assert !Overruns(a, j, id, pid, n);
      OverTheEndLater(a, b, j, Reach(a[j], id, pid), n);
    }
  }

  /** A call comes to a record that runs over the end of the mapping: none before it, from the
      published tail on, matches. */
  ghost predicate Faults(r: Ring, id: nat, pid: nat)
    requires |r.bytes| > 0
  {
    exists j :: r.taken <= j < |r.log| && Overruns(r.log, j, id, pid, |r.bytes|) && NoMatch(r.log, r.taken, j, id, pid)
  }

  /** A call with one matching bare sample waiting, the k-th of its stream, faults exactly when
      that sample straddles the end of the ring. */
  lemma BareSampleFaults(r: Ring, raw: Raw, k: nat, id: nat, pid: nat)
    requires |raw| == SAMPLE_SIZE && Matches(raw, id, pid)
    requires |r.bytes| > 0 && WholeUnits(|r.bytes|) && r.log == Copies(raw, k + 1) && r.taken == k
    ensures Faults(r, id, pid) <==> Straddles(k, SAMPLE_SIZE, |r.bytes|)
  {
    hide Straddles, OverTheEnd;
    ReadsOverTheEnd(r.log, raw, k + 1, k, |r.bytes|, CPU_AT + 4);
    assert Overruns(r.log, k, id, pid, |r.bytes|) == Straddles(k, SAMPLE_SIZE, |r.bytes|);
    assert NoMatch(r.log, k, k, id, pid);
  }

  /** On a stream of matching bare samples no call ever faults if and only if the size of a
      sample divides the size of the ring. */
  lemma NoCallFaults(n: nat, raw: Raw, id: nat, pid: nat)
    requires WellFormed(raw, SAMPLE_SIZE) && |raw| == SAMPLE_SIZE <= n && WholeUnits(n) && Matches(raw, id, pid)
    ensures forall k: nat :: |Supplied(n, SAMPLE_SIZE, raw, k, 1).bytes| == n
    ensures (forall k: nat :: !Faults(Supplied(n, SAMPLE_SIZE, raw, k, 1), id, pid)) <==> n % SAMPLE_SIZE == 0
  {
    hide Faults, Straddles, Supplied;
    StraddlesUnlessDivides(SAMPLE_SIZE, n);
    forall k: nat
      ensures |Supplied(n, SAMPLE_SIZE, raw, k, 1).bytes| == n
      ensures Faults(Supplied(n, SAMPLE_SIZE, raw, k, 1), id, pid) <==> Straddles(k, SAMPLE_SIZE, n)
    {
      SuppliedValid(n, SAMPLE_SIZE, raw, k, 1);
      BareSampleFaults(Supplied(n, SAMPLE_SIZE, raw, k, 1), raw, k, id, pid);
    }
  }

  class Channel {
    const pid: nat
    const kind: nat
    var fd: int
    const id: nat
    var ring: Ring
    /** The samples handed out so far. */
    ghost var returned: seq<Sample>

    /** Between calls: the samples handed out are the matching records behind the tail, and
        none of the records behind the tail ran over the end of the mapping. */
    ghost predicate Valid()
      reads this
    {
      fd >= 0 ==> Settled(ring, returned)
    }

    ghost predicate Settled(r: Ring, returned: seq<Sample>) {
      && PerfRing.Valid(r) && r.sampleSize == SAMPLE_SIZE
      && returned == Matching(r.log[..r.taken], id, pid, kind) && Clean(r.log, r.taken, id, pid, |r.bytes|)
    }

    /** A channel as bind leaves it: the ring is empty, nothing has been handed out. */
    constructor (pid: nat, kind: nat, fd: int, id: nat)
      ensures Valid() && this.fd == fd && this.pid == pid && this.kind == kind && this.id == id
      ensures ring == Empty(BUFFER_SIZE, SAMPLE_SIZE) && returned == []
    {
      this.pid := pid;
      this.kind := kind;
      this.fd := fd;
      this.id := id;
      ring := Empty(BUFFER_SIZE, SAMPLE_SIZE);
      returned := [];
    }

    /** The kernel appends. */
    method Kernel(raws: seq<Raw>)
      requires Valid() && fd >= 0
      modifies this`ring
      ensures Valid() && ring == Deliver(old(ring), raws)
      ensures |ring.bytes| > 0 && SameReader(old(ring), ring) && (raws == [] ==> ring == old(ring))
    {
      DeliverValid(ring, raws);
      CleanLater(ring.log, Deliver(ring, raws).log, ring.taken, id, pid, |ring.bytes|);
      ring := Deliver(ring, raws);
      assert ring.log[..ring.taken] == old(ring.log[..ring.taken]);
    }

    /** The refinement that every operation keeps: the samples handed out, followed by the
        matching records still waiting in the ring, are the matching records produced. */
    lemma Refines()
      requires Valid() && fd >= 0
      ensures ring.taken <= |ring.log|
      ensures returned + Matching(ring.log[ring.taken..], id, pid, kind) == Matching(ring.log, id, pid, kind)
    {
      assert ring.log == ring.log[..ring.taken] + ring.log[ring.taken..];
      MatchingConcat(ring.log[..ring.taken], ring.log[ring.taken..], id, pid, kind);
    }

    /** The scan stands before record k, and nothing from the published tail to there matched. */
    ghost predicate Scanning(tail: nat, k: nat, head: nat, n: nat)
      reads this
    {
      && At(ring, tail, k) && ring.sampleSize == SAMPLE_SIZE && HeadRead(ring, head, n) && k <= n
      && returned == Matching(ring.log[..k], id, pid, kind) && NoMatch(ring.log, ring.taken, k, id, pid)
      && Clean(ring.log, k, id, pid, |ring.bytes|)
    }

    /** What the kernel does during a scan does not disturb it. */
    method KernelDuring(raws: seq<Raw>, ghost tail: nat, ghost k: nat, ghost head: nat, ghost n: nat)
      requires Scanning(tail, k, head, n)
      modifies this`ring
      ensures Scanning(tail, k, head, n)
      ensures ring == Deliver(old(ring), raws) && SameReader(old(ring), ring)
    {
      DeliverKeepsPlace(ring, raws, tail, k, head, n);
      DeliverValid(ring, raws);
      CleanLater(ring.log, Deliver(ring, raws).log, k, id, pid, |ring.bytes|);
      ring := Deliver(ring, raws);
      assert ring.log[..k] == old(ring.log[..k]);
    }

    /** One turn of the scan: the record at the tail, its size and, if it matches, its sample.
        It faults at the first field that lies beyond the end of the ring. */
    method ScanOne(tail: nat, ghost k: nat, head: nat, ghost n: nat)
      returns (fault: bool, next: nat, found: bool, sample: Sample)
      requires Scanning(tail, k, head, n) && tail < head
      ensures k < n && fault == Overruns(ring.log, k, id, pid, |ring.bytes|)
      ensures !fault ==> next == tail + |ring.log[k]| && tail < next <= head && At(ring, next, k + 1)
      ensures !fault ==> found == Matches(ring.log[k], id, pid)
      ensures !fault && found ==> sample == SampleOf(ring.log[k], kind)
    {
      hide Matching, NoMatch, Clean, InPlace, Field;
      Boundaries(ring.log, k, n);
      Boundaries(ring.log, n, k + 1);
      Boundaries(ring.log, |ring.log|, n);
      ReadInPlace(ring, tail, k);
      var n := |ring.bytes|;
      var position := tail % n;
      fault, next, found, sample := true, tail, false, Sample(0, 0, 0, 0, 0);
      if position + HEADER > n {
        return;
      }
      next := tail + Field(ring.bytes, position + 6, 2);
      if Field(ring.bytes, position + 0, 4) == RECORD_SAMPLE {
        if position + ID_AT + 8 > n {
          return;
        }
        if Field(ring.bytes, position + ID_AT, 8) == id {
          if position + PID_AT + 4 > n {
            return;
          }
          if Field(ring.bytes, position + PID_AT, 4) == pid {
            if position + CPU_AT + 4 > n {
              return;
            }
            sample := Sample(kind, Field(ring.bytes, position + CPU_AT, 4), Field(ring.bytes, position + PID_AT, 4),
                             Field(ring.bytes, position + TID_AT, 4), Field(ring.bytes, position + ADDRESS_AT, 8));
            found := true;
          }
        }
      }
      fault := false;
    }

    /** The loop of readSample: up to the first match or the head read. The kernel may append
        after every turn: arrivals(i) is what it then tries to. */
    method Scan(arrivals: nat -> seq<Raw>, from: nat, k0: nat, head: nat, ghost n: nat)
      returns (fault: bool, tail: nat, k: nat, available: bool, sample: Sample)
      requires Scanning(from, k0, head, n) && from <= head
      modifies this`ring
      ensures SameReader(old(ring), ring) && ((forall t :: arrivals(t) == []) ==> ring.log == old(ring.log))
      ensures fault ==> Scanning(tail, k, head, n) && k < n && Overruns(ring.log, k, id, pid, |ring.bytes|)
      ensures !fault && !available ==> Scanning(tail, k, head, n) && k == n && tail <= head
      ensures !fault && available ==> Found(tail, k, head, n, sample)
    {
      hide NoMatch, Clean, Overruns, At, HeadRead, Matches;
      fault, tail, k, available, sample := false, from, k0, false, Sample(0, 0, 0, 0, 0);
      var turn: nat := 1;
      while tail < head
        invariant Scanning(tail, k, head, n) && tail <= head && SameReader(old(ring), ring)
        invariant (forall t :: arrivals(t) == []) ==> ring.log == old(ring.log)
        decreases head - tail
      {
        var over, next, found, s := ScanOne(tail, k, head, n);
        if over {
          return true, tail, k, false, sample;
        }
        StepOver(tail, k, head, n, next);
        tail, k := next, k + 1;
        if found {
          return false, tail, k, true, s;
        }
        KernelDuring(arrivals(turn), tail, k, head, n);
        turn := turn + 1;
      }
      AtTheHead(tail, k, head, n);
    }

    /** The scan has stepped over a matching record, the first from the published tail on. */
    ghost predicate Found(tail: nat, k: nat, head: nat, n: nat, sample: Sample)
      reads this
    {
      && At(ring, tail, k) && tail <= head && HeadRead(ring, head, n) && 0 < k <= n
      && NoMatch(ring.log, ring.taken, k - 1, id, pid) && Matches(ring.log[k - 1], id, pid)
      && ring.taken < k && Clean(ring.log, k, id, pid, |ring.bytes|)
      && ring.sampleSize == SAMPLE_SIZE && Matching(ring.log[..k], id, pid, kind) == returned + [sample]
      && sample == SampleOf(ring.log[k - 1], kind)
    }

    lemma StepOver(tail: nat, k: nat, head: nat, n: nat, next: nat)
      requires Scanning(tail, k, head, n) && k < n && next <= head && At(ring, next, k + 1)
      requires !Overruns(ring.log, k, id, pid, |ring.bytes|)
      ensures k < |ring.log|
      ensures !Matches(ring.log[k], id, pid) ==> Scanning(next, k + 1, head, n)
      ensures Matches(ring.log[k], id, pid) ==> Found(next, k + 1, head, n, SampleOf(ring.log[k], kind))
    {
      hide Matches, Matching, Overruns;
      MatchingNext(ring.log, k, id, pid, kind);
    }

    lemma AtTheHead(tail: nat, k: nat, head: nat, n: nat)
      requires Scanning(tail, k, head, n) && tail == head
      ensures k == n
    {
      Boundaries(ring.log, k, n);
    }

    /** readSample. The kernel may append before the head is read and during the scan. The call
        faults exactly when, of the records there when the head is read, one up to the first
        match runs over the end of the mapping; then nothing has been published or handed out.
        A sample handed out carries the components of the matching record, each by its name. */
    method ReadSample(arrivals: nat -> seq<Raw>) returns (fault: bool, ret: int, sample: Sample)
      requires Valid()
      modifies this`ring, this`returned
      ensures Valid() && (fd < 0 ==> !fault && ret == -EINVAL && ring == old(ring) && returned == old(returned))
      ensures fd >= 0 ==> |Deliver(old(ring), arrivals(0)).bytes| > 0
      ensures fd >= 0 ==> fault == Faults(Deliver(old(ring), arrivals(0)), id, pid)
      ensures fault ==> returned == old(returned) && ring.taken == old(ring.taken)
      ensures fd >= 0 && !fault ==> ret == 0 || ret == -EAGAIN
      ensures fd >= 0 ==> old(ring.log) <= ring.log && |ring.bytes| == |old(ring.bytes)|
      ensures (forall t :: arrivals(t) == []) ==> ring.log == old(ring.log)
      ensures fd >= 0 && !fault ==> returned == old(returned) + if ret == 0 then [sample] else []
      ensures !fault && ret == -EAGAIN ==>
                |old(ring.log)| <= ring.taken <= |ring.log| && NoMatch(ring.log, old(ring.taken), ring.taken, id, pid)
      ensures !fault && ret == 0 ==>
                && old(ring.taken) < ring.taken <= |ring.log| && Matches(ring.log[ring.taken - 1], id, pid)
                && NoMatch(ring.log, old(ring.taken), ring.taken - 1, id, pid)
      ensures !fault && ret == 0 ==>
                exists x: PerfSample :: x.Fits() && x.Bytes() == ring.log[ring.taken - 1]
                  && x.id == id && x.pid == pid && sample.kind == kind && sample.cpu == x.cpu
                  && sample.pid == x.pid && sample.tid == x.tid && sample.address == x.address
    {
      hide Matches, Overruns, Matching, Faults, Clean, Settled, Deliver, PerfRing.Valid, Start;
      fault, sample := false, Sample(0, 0, 0, 0, 0);
      if fd < 0 {
        return false, -EINVAL, sample;
      }
      Kernel(arrivals(0));
      var tail := ring.tail;
      var head := ring.head;
      var k := ring.taken;
      ghost var r := ring;
      BeforeScan(tail, k, head);
      if tail == head {
        return false, -EAGAIN, sample;
      }
      var available;
      fault, tail, k, available, sample := Scan(arrivals, tail, k, head, |r.log|);
      FaultsExactly(r, fault, tail, k, head, available, sample);
      if fault {
        StillSettled(r);
        return true, 0, sample;
      }
      NowSettled(tail, k, head, |r.log|, available, sample);
      if available {
        ghost var x := HandedOut(tail, k, head, |r.log|, sample);
      }
      ring := Publish(ring, tail, k);
      returned := returned + if available then [sample] else [];
      ret := if available then 0 else -EAGAIN;
    }

    lemma BeforeScan(tail: nat, k: nat, head: nat)
      requires Settled(ring, returned) && tail == ring.tail && k == ring.taken && head == ring.head
      ensures tail <= head && Scanning(tail, k, head, |ring.log|)
      ensures tail == head ==> k == |ring.log| && !Faults(ring, id, pid)
    {
      Boundaries(ring.log, k, |ring.log|);
      Boundaries(ring.log, |ring.log|, k);
    }

    lemma StillSettled(r: Ring)
      requires Settled(r, returned) && SameReader(r, ring) && PerfRing.Valid(ring) && ring.sampleSize == SAMPLE_SIZE
      ensures Settled(ring, returned)
    {
      CleanLater(r.log, ring.log, r.taken, id, pid, |r.bytes|);
      assert ring.log[..ring.taken] == r.log[..r.taken];
    }

    /** The sample handed out has the components of the record stepped over, by name. */
    lemma HandedOut(tail: nat, k: nat, head: nat, n: nat, sample: Sample) returns (x: PerfSample)
      requires Found(tail, k, head, n, sample)
      ensures x.Fits() && 0 < k <= |ring.log| && x.Bytes() == ring.log[k - 1] && x.id == id && x.pid == pid
      ensures sample.kind == kind && sample.cpu == x.cpu && sample.pid == x.pid
      ensures sample.tid == x.tid && sample.address == x.address
    {
      hide Clean, Matching, NoMatch, Field;
      x := SampleIsRecord(ring.log[k - 1]);
      RecordRead(x, id, pid, kind);
    }

    lemma NowSettled(tail: nat, k: nat, head: nat, n: nat, available: bool, sample: Sample)
      requires if available then Found(tail, k, head, n, sample) else Scanning(tail, k, head, n)
      ensures Settled(Publish(ring, tail, k), returned + if available then [sample] else [])
    {
      hide Clean, Matching, NoMatch;
      PublishValid(ring, tail, k);
    }

    /** How the scan ended tells whether it was bound to fault when the head was read. */
    lemma FaultsExactly(r: Ring, fault: bool, tail: nat, k: nat, head: nat, available: bool, sample: Sample)
      requires |r.bytes| > 0 && SameReader(r, ring)
      requires if fault then Scanning(tail, k, head, |r.log|) && k < |r.log| &&
                             Overruns(ring.log, k, id, pid, |ring.bytes|)
               else if available then Found(tail, k, head, |r.log|, sample)
               else Scanning(tail, k, head, |r.log|) && k == |r.log|
      ensures fault == Faults(r, id, pid)
    {
      hide OverTheEnd, Matches, Matching, PerfRing.Valid;
      if fault {
        OverTheEndLater(r.log, ring.log, k, Reach(r.log[k], id, pid), |r.bytes|);
        assert NoMatch(r.log, r.taken, k, id, pid);
      } else {
        assert available ==> Matches(r.log[k - 1], id, pid);
        forall j | r.taken <= j < |r.log| && NoMatch(r.log, r.taken, j, id, pid)
          ensures !Overruns(r.log, j, id, pid, |r.bytes|)
        {
          assert !Overruns(ring.log, j, id, pid, |r.bytes|);
          OverTheEndLater(r.log, ring.log, j, Reach(r.log[j], id, pid), |r.bytes|);
        }
      }
    }
  }

  /** The consumer's side of the ring is the same and the log has only grown. */
  ghost predicate SameReader(r: Ring, r': Ring) {
    r.log <= r'.log && r'.taken == r.taken && r'.tail == r.tail && |r'.bytes| == |r.bytes|
  }

  /** One more of its own samples comes to a channel that has read k of them. */
  method NextBareSample(channel: Channel, raw: Raw, ghost k: nat) returns (fault: bool)
    requires WellFormed(raw, SAMPLE_SIZE) && |raw| == SAMPLE_SIZE && Matches(raw, channel.id, channel.pid)
    requires channel.Valid() && channel.fd >= 0 && |channel.ring.bytes| == BUFFER_SIZE
    requires channel.ring.log == Copies(raw, k) && channel.ring.taken == k
    modifies channel`ring, channel`returned
    ensures channel.Valid() && |channel.ring.bytes| == BUFFER_SIZE && channel.ring.log == Copies(raw, k + 1)
    ensures fault == Straddles(k, SAMPLE_SIZE, BUFFER_SIZE)
    ensures channel.ring.taken == if fault then k else k + 1
    ensures channel.returned == old(channel.returned) + if fault then [] else [SampleOf(raw, channel.kind)]
  {
    hide Matches, Overruns, Matching, Faults, Clean, PerfRing.Valid, Straddles, Start;
    assert Copies(raw, 1) == [raw];
    AllRead(channel.ring);
    DeliverCopies(channel.ring, raw, k, 1);
    channel.Kernel([raw]);
    BareSampleFaults(channel.ring, raw, k, channel.id, channel.pid);
    var ret, sample;
    fault, ret, sample := channel.ReadSample(_ => []);
    assert channel.ring.log[k] == raw;
    MatchingNext(channel.ring.log, k, channel.id, channel.pid, channel.kind);
  }

  /** On a fresh channel whose only input is its own matching samples, one before each call, 409
      calls hand out a sample each; the next one faults. */
  method FirstLap(pid: nat, kind: nat, fd: nat, id: nat, raw: Raw) returns (channel: Channel, fault: bool)
    requires WellFormed(raw, SAMPLE_SIZE) && |raw| == SAMPLE_SIZE && Matches(raw, id, pid)
    ensures fresh(channel) && channel.Valid() && fault
    ensures channel.returned == Copies(SampleOf(raw, kind), 409)
    ensures channel.ring.log == Copies(raw, 410) && channel.ring.taken == 409
  {
    channel := new Channel(pid, kind, fd, id);
    fault := false;
    for k := 0 to 409
      invariant fresh(channel) && channel.fd == fd && channel.id == id && channel.pid == pid && channel.kind == kind
      invariant channel.Valid() && |channel.ring.bytes| == BUFFER_SIZE && channel.ring.taken == k
      invariant channel.ring.log == Copies(raw, k) && channel.returned == Copies(SampleOf(raw, kind), k)
    {
      fault := NextBareSample(channel, raw, k);
    }
    fault := NextBareSample(channel, raw, 409);
  }
}
