/** The gate of src/misc/pthread_rdwr.cc: one writer and any number of readers, with a mutex,
    a condition variable, a flow step and a reader-writer lock. The writer releases the mutex
    before the reader-writer lock. */
module WriterGate {
  import opened Arithmetic
  import opened Wrappers

  /** In program order: before the mutex; before the write lock; at work; flow step advanced;
      broadcast done; mutex released; write lock released. */
  datatype WriterPc = WStart | WLocked | WWork | WBumped | WAnnounced | WUnlocked | WDone {
    predicate HasMutex() { WLocked? || WWork? || WBumped? || WAnnounced? }
    predicate HasWriteLock() { WWork? || WBumped? || WAnnounced? || WUnlocked? }
    predicate BeforeStep() { WStart? || WLocked? || WWork? }
  }

  /** Before the mutex; about to test; in the wait; out of the wait; test passed; mutex
      released, before the read lock; at work; read lock released. */
  datatype ReaderPc = RStart | RTest | RAsleep | RWoken | RPassed | RReady | RWork | RDone {
    predicate HasMutex() { RTest? || RPassed? }
    predicate ThroughGate() { RPassed? || RReady? || RWork? || RDone? }
  }

  datatype Holder = Writer | Reader(r: nat)

  datatype Event = WriterWorks | WriterReleases | ReaderWorks(r: nat)

  /** `log` lists when work begins and when the write lock is released. */
  datatype State = State(writer: WriterPc, readers: seq<ReaderPc>, step: nat, mutex: Option<Holder>,
                         writeLocked: bool, readLocks: set<nat>, log: seq<Event>)

  datatype Move = WriterMoves | ReaderMoves(r: nat) | Spurious(r: nat)

  predicate Enabled(s: State, m: Move) {
    match m
    case WriterMoves =>
      !s.writer.WDone? && (s.writer.WStart? ==> s.mutex.None?) &&
      (s.writer.WLocked? ==> !s.writeLocked && s.readLocks == {})
    case ReaderMoves(r) =>
      r < |s.readers| && !s.readers[r].RDone? && !s.readers[r].RAsleep? &&
      ((s.readers[r].RStart? || s.readers[r].RWoken?) ==> s.mutex.None?) &&
      (s.readers[r].RReady? ==> !s.writeLocked)
    case Spurious(r) => r < |s.readers| && s.readers[r].RAsleep?
  }

  function Woken(pc: ReaderPc): ReaderPc {
    if pc.RAsleep? then RWoken else pc
  }

  function WriterNext(s: State): State
    requires Enabled(s, WriterMoves)
  {
    match s.writer
    case WStart => s.(writer := WLocked, mutex := Some(Writer))
    case WLocked => s.(writer := WWork, writeLocked := true, log := s.log + [WriterWorks])
    case WWork => s.(writer := WBumped, step := s.step + 1)
    case WBumped =>
      s.(writer := WAnnounced,
         readers := seq(|s.readers|, r requires 0 <= r < |s.readers| => Woken(s.readers[r])))
    case WAnnounced => s.(writer := WUnlocked, mutex := None)
    case WUnlocked => s.(writer := WDone, writeLocked := false, log := s.log + [WriterReleases])
  }

  function ReaderNext(s: State, r: nat): State
    requires Enabled(s, ReaderMoves(r))
  {
    match s.readers[r]
    case RTest =>
      if s.step == 0 then s.(readers := s.readers[r := RAsleep], mutex := None)
      else s.(readers := s.readers[r := RPassed])
    case RPassed => s.(readers := s.readers[r := RReady], mutex := None)
    case RReady => s.(readers := s.readers[r := RWork], readLocks := s.readLocks + {r}, log := s.log + [ReaderWorks(r)])
    case RWork => s.(readers := s.readers[r := RDone], readLocks := s.readLocks - {r})
    case _ => s.(readers := s.readers[r := RTest], mutex := Some(Reader(r)))
  }

  function Next(s: State, m: Move): State
    requires Enabled(s, m)
  {
    match m
    case WriterMoves => WriterNext(s)
    case ReaderMoves(r) => ReaderNext(s, r)
    case Spurious(r) => s.(readers := s.readers[r := RWoken])
  }

  function Init(readers: nat): State {
    State(WStart, seq(readers, _ => RStart), 0, None, false, {}, [])
  }

  // ---------------------------------------------------------------- invariant

  ghost predicate MutexInv(s: State) {
    && (s.writer.HasMutex() <==> s.mutex == Some(Writer))
    && (forall r :: 0 <= r < |s.readers| ==> (s.readers[r].HasMutex() <==> s.mutex == Some(Reader(r))))
    && (s.mutex.Some? && s.mutex.value.Reader? ==> s.mutex.value.r < |s.readers|)
  }

  ghost predicate GateInv(s: State) {
    && s.step == One(!s.writer.BeforeStep())
    && (s.writeLocked <==> s.writer.HasWriteLock())
    && (forall r :: 0 <= r < |s.readers| && s.readers[r].ThroughGate() ==> s.step > 0)
    && (forall r :: 0 <= r < |s.readers| && (s.readers[r].RWork? || s.readers[r].RDone?) ==> s.writer.WDone?)
    && (forall r: nat :: r in s.readLocks <==> r < |s.readers| && s.readers[r].RWork?)
  }

  /** A reader sleeps only while the flow step is 0, or the writer is about to broadcast. */
  ghost predicate WakeInv(s: State) {
    forall r :: 0 <= r < |s.readers| && s.readers[r].RAsleep? ==> s.step == 0 || s.writer.WBumped?
  }

  /** No reader's work begins before the write lock is released. */
  ghost predicate LogInv(s: State) {
    && (WriterReleases in s.log <==> s.writer.WDone?)
    && (forall i :: 0 <= i < |s.log| && s.log[i].ReaderWorks? ==> WriterReleases in s.log[..i])
  }

  /** How often an event has happened, going by where everyone is. */
  ghost function Happened(s: State, e: Event): nat {
    match e
    case WriterWorks => One(!s.writer.WStart? && !s.writer.WLocked?)
    case WriterReleases => One(s.writer.WDone?)
    case ReaderWorks(r) => One(r < |s.readers| && (s.readers[r].RWork? || s.readers[r].RDone?))
  }

  /** Everyone's work begins once, the writer's before it releases the write lock, and nothing
      else is recorded. */
  ghost predicate CountInv(s: State) {
    && (forall e :: multiset(s.log)[e] == Happened(s, e))
    && (forall i :: 0 <= i < |s.log| && s.log[i].WriterReleases? ==> WriterWorks in s.log[..i])
  }

  ghost predicate Inv(s: State) {
    MutexInv(s) && GateInv(s) && WakeInv(s) && LogInv(s) && CountInv(s)
  }

  lemma StepMutex(s: State, m: Move)
    requires Enabled(s, m) && MutexInv(s)
    ensures MutexInv(Next(s, m))
  {}

  lemma StepGate(s: State, m: Move)
    requires Enabled(s, m) && GateInv(s)
    ensures GateInv(Next(s, m))
  {}

  lemma StepWake(s: State, m: Move)
    requires Enabled(s, m) && MutexInv(s) && GateInv(s) && WakeInv(s)
    ensures WakeInv(Next(s, m))
  {}

  lemma StepLog(s: State, m: Move)
    requires Enabled(s, m) && GateInv(s) && LogInv(s)
    ensures LogInv(Next(s, m))
  {
    var s' := Next(s, m);
    if s'.log != s.log {
      var e := s'.log[|s.log|];
      assert s'.log == s.log + [e];
      forall i | 0 <= i < |s'.log| && s'.log[i].ReaderWorks? ensures WriterReleases in s'.log[..i] {
        assert s'.log[..i] == s.log[..i];
        assert i == |s.log| ==> s.log[..i] == s.log;
      }
    }
  }

  /** A step makes at most one event happen, the one it records. */
  lemma StepHappens(s: State, m: Move, e: Event)
    requires Enabled(s, m)
    ensures s.log <= Next(s, m).log && |Next(s, m).log| <= |s.log| + 1
    ensures Happened(Next(s, m), e) ==
            Happened(s, e) + One(|Next(s, m).log| > |s.log| && Next(s, m).log[|s.log|] == e)
  {}

  lemma StepCount(s: State, m: Move)
    requires Enabled(s, m) && CountInv(s)
    ensures CountInv(Next(s, m))
  {
    hide Next, Happened, Enabled;
    var s' := Next(s, m);
    forall e ensures multiset(s'.log)[e] == Happened(s', e) {
      StepHappens(s, m, e);
      if |s'.log| > |s.log| {
        assert s'.log == s.log + [s'.log[|s.log|]];
      } else {
        assert s'.log == s.log;
      }
    }
    StepReleases(s, m);
  }

  lemma StepReleases(s: State, m: Move)
    requires Enabled(s, m) && CountInv(s)
    ensures var s' := Next(s, m);
      forall i :: 0 <= i < |s'.log| && s'.log[i].WriterReleases? ==> WriterWorks in s'.log[..i]
  {
    hide CountInv;
    var s' := Next(s, m);
    StepHappens(s, m, WriterWorks);
    Recorded(s, WriterWorks);
    forall i | 0 <= i < |s'.log| && s'.log[i].WriterReleases? ensures WriterWorks in s'.log[..i] {
      assert s'.log[..i] == s.log[..i];
      if i < |s.log| {
        EarlierWork(s, i);
      } else {
        assert s.log[..i] == s.log;
      }
    }
  }

  lemma Recorded(s: State, e: Event)
    requires CountInv(s)
    ensures e in s.log <==> Happened(s, e) > 0
  {
    assert e in multiset(s.log) <==> multiset(s.log)[e] > 0;
  }

  lemma EarlierWork(s: State, i: nat)
    requires CountInv(s) && i < |s.log| && s.log[i].WriterReleases?
    ensures WriterWorks in s.log[..i]
  {}

  lemma StepInv(s: State, m: Move)
    requires Inv(s) && Enabled(s, m)
    ensures Inv(Next(s, m))
  {
    StepCount(s, m);
    StepMutex(s, m);
    StepGate(s, m);
    StepWake(s, m);
    StepLog(s, m);
  }

  ghost predicate Legal(s: State, moves: seq<Move>)
    decreases |moves|
  {
    moves == [] || (Enabled(s, moves[0]) && Legal(Next(s, moves[0]), moves[1..]))
  }

  ghost function After(s: State, moves: seq<Move>): State
    requires Legal(s, moves)
    decreases |moves|
  {
    if moves == [] then s else After(Next(s, moves[0]), moves[1..])
  }

  lemma InitInv(readers: nat)
    ensures Inv(Init(readers))
  {}

  lemma {:induction false} RunInv(s: State, moves: seq<Move>)
    requires Inv(s) && Legal(s, moves)
    ensures Inv(After(s, moves))
    decreases |moves|
  {
    if moves != [] {
      StepInv(s, moves[0]);
      RunInv(Next(s, moves[0]), moves[1..]);
    }
  }

  /** In every run, no reader works while the writer does or before it has released the write
      lock, and in the record of the run the release comes before every reader's start. */
  lemma WriterBeforeReaders(readers: nat, moves: seq<Move>, r: nat)
    requires Legal(Init(readers), moves)
    ensures var s := After(Init(readers), moves);
      && (r < |s.readers| && (s.readers[r].RWork? || s.readers[r].RDone?) ==> s.writer.WDone? && !s.writeLocked)
      && (forall i :: 0 <= i < |s.log| && s.log[i].ReaderWorks? ==> WriterReleases in s.log[..i])
  {
    InitInv(readers);
    RunInv(Init(readers), moves);
  }

  ghost predicate AllDone(s: State) {
    s.writer.WDone? && forall r :: 0 <= r < |s.readers| ==> s.readers[r].RDone?
  }

  /** A complete run records the writer's work, then the release of the write lock, then the work
      of each reader, once. */
  lemma CompleteRun(readers: nat, moves: seq<Move>)
    requires Legal(Init(readers), moves) && AllDone(After(Init(readers), moves))
    ensures var s := After(Init(readers), moves);
      && |s.log| >= 2 && s.log[0] == WriterWorks && s.log[1] == WriterReleases
      && forall e :: multiset(s.log)[e] == One(!e.ReaderWorks? || e.r < readers)
  {
    hide MutexInv, GateInv, WakeInv, LogInv, CountInv;
    InitInv(readers);
    RunInv(Init(readers), moves);
    SameReaders(Init(readers), moves);
    var s := After(Init(readers), moves);
    forall e ensures multiset(s.log)[e] == One(!e.ReaderWorks? || e.r < readers) {
      Finally(s, e);
    }
    FirstTwo(s);
  }

  lemma Finally(s: State, e: Event)
    requires CountInv(s) && AllDone(s)
    ensures multiset(s.log)[e] == One(!e.ReaderWorks? || e.r < |s.readers|)
  {}

  lemma FirstTwo(s: State)
    requires CountInv(s) && LogInv(s) && AllDone(s)
    ensures |s.log| >= 2 && s.log[0] == WriterWorks && s.log[1] == WriterReleases
  {
    hide AllDone;
    Finally(s, WriterWorks);
    Finally(s, WriterReleases);
    Recorded(s, WriterReleases);
    var log := s.log;
    var i :| 0 <= i < |log| && log[i] == WriterReleases;
    EarlierWork(s, i);
    assert log[..0] == [];
    assert log[0].WriterWorks?;
    assert log[..1] == [WriterWorks];
    OnlyOnce(log, WriterWorks);
  }

  lemma OnlyOnce(log: seq<Event>, e: Event)
    requires |log| >= 2 && multiset(log)[e] == 1 && log[0] == e
    ensures log[1] != e
  {
    assert log == [log[0]] + log[1..];
    assert multiset(log) == multiset{log[0]} + multiset(log[1..]);
    assert log[1..][0] == log[1];
    assert log[1] in multiset(log[1..]);
  }

  lemma {:induction false} SameReaders(s: State, moves: seq<Move>)
    requires Legal(s, moves)
    ensures |After(s, moves).readers| == |s.readers|
    decreases |moves|
  {
    if moves != [] {
      SameReaders(Next(s, moves[0]), moves[1..]);
    }
  }

  /** Someone is between taking the mutex and letting go of it. */
  ghost predicate MutexTaken(s: State) {
    s.writer.HasMutex() || exists r :: 0 <= r < |s.readers| && s.readers[r].HasMutex()
  }

  /** Nothing but a lock that someone else is inside of, or a wait, keeps anyone from moving. */
  lemma OnlyLocksBlock(s: State, r: nat)
    requires Inv(s) && r < |s.readers|
    ensures Enabled(s, WriterMoves) <==>
            match s.writer
            case WDone => false
            case WStart => !MutexTaken(s)
            case WLocked => forall q :: 0 <= q < |s.readers| ==> !s.readers[q].RWork?
            case _ => true
    ensures Enabled(s, ReaderMoves(r)) <==>
            match s.readers[r]
            case RDone => false
            case RAsleep => false
            case RStart => !MutexTaken(s)
            case RWoken => !MutexTaken(s)
            case RReady => !s.writer.HasWriteLock()
            case _ => true
  {
    if s.mutex.Some? && s.mutex.value.Reader? {
      assert s.readers[s.mutex.value.r].HasMutex();
    }
    assert s.readLocks == {} <==> forall q :: 0 <= q < |s.readers| ==> q !in s.readLocks;
  }

  /** Deadlock freedom: while anyone is unfinished, someone can move without being woken by
      chance, although the writer lets go of the mutex before the write lock. */
  lemma Progress(s: State) returns (m: Move)
    requires Inv(s) && !AllDone(s)
    ensures Enabled(s, m) && !m.Spurious?
  {
    if Enabled(s, WriterMoves) {
      m := WriterMoves;
    } else if s.mutex.Some? && s.mutex.value.Reader? {
      m := ReaderMoves(s.mutex.value.r);
    } else {
      assert s.readLocks == {} || s.writer.WDone?;
      var r :| 0 <= r < |s.readers| && !s.readers[r].RDone?;
      m := ReaderMoves(r);
    }
  }

  // ---------------------------------------------------------------- termination

  function ReaderRank(pc: ReaderPc): nat {
    match pc
    case RStart => 8
    case RWoken => 7
    case RTest => 6
    case RAsleep => 5
    case RPassed => 4
    case RReady => 3
    case RWork => 2
    case RDone => 0
  }

  function WriterRank(pc: WriterPc, readers: nat): nat {
    match pc
    case WStart => 2 * readers + 6
    case WLocked => 2 * readers + 5
    case WWork => 2 * readers + 4
    case WBumped => 2 * readers + 3
    case WAnnounced => 2
    case WUnlocked => 1
    case WDone => 0
  }

  ghost function Ranks(s: State): (v: seq<nat>)
    ensures |v| == |s.readers| && forall r :: 0 <= r < |v| ==> v[r] == ReaderRank(s.readers[r])
  {
    seq(|s.readers|, r requires 0 <= r < |s.readers| => ReaderRank(s.readers[r]))
  }

  ghost function Total(s: State): nat {
    WriterRank(s.writer, |s.readers|) + Sum(Ranks(s))
  }

  lemma WriterTotal(s: State)
    requires Enabled(s, WriterMoves)
    ensures Total(WriterNext(s)) < Total(s)
  {
    var v, w := Ranks(s), Ranks(WriterNext(s));
    if s.writer.WBumped? {
      SumGrowth(v, w, 2);
    } else {
      assert v == w;
    }
  }

  lemma ReaderTotal(s: State, r: nat, pc: ReaderPc)
    requires r < |s.readers|
    ensures Sum(Ranks(s.(readers := s.readers[r := pc]))) ==
            Sum(Ranks(s)) - ReaderRank(s.readers[r]) + ReaderRank(pc)
  {
    var v, w := Ranks(s), Ranks(s.(readers := s.readers[r := pc]));
    assert w == v[r := w[r]];
    SumUpdate(v, r, w[r]);
  }

  /** Every step but a spurious wake-up uses up rank. */
  lemma StepTotal(s: State, m: Move)
    requires Enabled(s, m)
    ensures m.Spurious? ==> Total(Next(s, m)) == Total(s) + 2
    ensures !m.Spurious? ==> Total(Next(s, m)) < Total(s)
  {
    match m
    case WriterMoves => WriterTotal(s);
    case ReaderMoves(r) =>
      ReaderTotal(s, r, Next(s, m).readers[r]);
      assert Ranks(Next(s, m)) == Ranks(s.(readers := s.readers[r := Next(s, m).readers[r]]));
    case Spurious(r) => ReaderTotal(s, r, RWoken);
  }

  ghost function SpuriousCount(moves: seq<Move>): nat {
    if moves == [] then 0 else One(moves[0].Spurious?) + SpuriousCount(moves[1..])
  }

  /** Runs are bounded, but for spurious wake-ups; so by Progress they end with all done. */
  lemma {:induction false} RunBound(s: State, moves: seq<Move>)
    requires Legal(s, moves)
    ensures |moves| + Total(After(s, moves)) <= Total(s) + 3 * SpuriousCount(moves)
    decreases |moves|
  {
    if moves != [] {
      StepTotal(s, moves[0]);
      RunBound(Next(s, moves[0]), moves[1..]);
    }
  }
}
