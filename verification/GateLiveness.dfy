/** Infinite behaviours of the writer-first gate: under a fair scheduler the writer and all
    readers finish, however many spurious wake-ups there are. */
module GateLiveness {
  import opened Arithmetic
  import opened Wrappers
  import opened WriterGate

  function MoveOf(a: Holder): Move {
    match a
    case Writer => WriterMoves
    case Reader(r) => ReaderMoves(r)
  }

  /** An infinite behaviour: at each instant someone makes a move, or nothing happens. */
  ghost predicate Behaviour(readers: nat, r: nat -> State, m: nat -> Option<Move>) {
    r(0) == Init(readers) && forall i: nat :: Instant(r, m, i)
  }

  ghost predicate Instant(r: nat -> State, m: nat -> Option<Move>, i: nat) {
    match m(i)
    case None => r(i + 1) == r(i)
    case Some(x) => Enabled(r(i), x) && r(i + 1) == Next(r(i), x)
  }

  ghost predicate CanAt(r: nat -> State, a: Holder, i: nat) {
    Enabled(r(i), MoveOf(a))
  }

  ghost predicate StepsAt(m: nat -> Option<Move>, a: Holder, i: nat) {
    m(i) == Some(MoveOf(a))
  }

  ghost predicate CanLater(r: nat -> State, a: Holder, j: nat) {
    exists i: nat :: j <= i && CanAt(r, a, i)
  }

  ghost predicate StepsLater(m: nat -> Option<Move>, a: Holder, j: nat) {
    exists i: nat :: j <= i && StepsAt(m, a, i)
  }

  ghost predicate CanAgainAndAgain(r: nat -> State, a: Holder) {
    forall j: nat :: CanLater(r, a, j)
  }

  ghost predicate StepsAgainAndAgain(m: nat -> Option<Move>, a: Holder) {
    forall j: nat :: StepsLater(m, a, j)
  }

  /** A thread that again and again could step again and again does. */
  ghost predicate Fair(r: nat -> State, m: nat -> Option<Move>) {
    forall a: Holder :: CanAgainAndAgain(r, a) ==> StepsAgainAndAgain(m, a)
  }

  // ---------------------------------------------------------------- a coarser rank

  /** Before the gate all places count the same. */
  function Coarse(pc: ReaderPc): nat {
    if pc.ThroughGate() then ReaderRank(pc) else 5
  }

  ghost function Coarses(s: State): (v: seq<nat>)
    ensures |v| == |s.readers| && forall r :: 0 <= r < |v| ==> v[r] == Coarse(s.readers[r])
  {
    seq(|s.readers|, r requires 0 <= r < |s.readers| => Coarse(s.readers[r]))
  }

  ghost function Left(s: State): nat {
    WriterRank(s.writer, 0) + Sum(Coarses(s))
  }

  /** The moves of readers that do not get through the gate. */
  predicate IsIdle(s: State, x: Move)
    requires Enabled(s, x)
  {
    match x
    case WriterMoves => false
    case Spurious(_) => true
    case ReaderMoves(r) => !Next(s, x).readers[r].ThroughGate()
  }

  /** Two states alike up to who waits, sleeps or tests before the gate. */
  ghost predicate Alike(s: State, s': State) {
    s.writer == s'.writer && s.step == s'.step && Coarses(s) == Coarses(s')
  }

  lemma WriterLeft(s: State)
    requires Enabled(s, WriterMoves)
    ensures |WriterNext(s).readers| == |s.readers| && Left(WriterNext(s)) < Left(s)
  {
    assert Coarses(WriterNext(s)) == Coarses(s);
  }

  lemma ReaderLeft(s: State, r: nat)
    requires Enabled(s, ReaderMoves(r))
    ensures |ReaderNext(s, r).readers| == |s.readers|
    ensures ReaderNext(s, r).readers[r].ThroughGate() ==> Left(ReaderNext(s, r)) < Left(s)
    ensures !ReaderNext(s, r).readers[r].ThroughGate() ==> Alike(s, ReaderNext(s, r))
  {
    var v, w := Coarses(s), Coarses(ReaderNext(s, r));
    assert w == v[r := w[r]];
    SumUpdate(v, r, w[r]);
  }

  lemma LeftStep(s: State, x: Move)
    requires Enabled(s, x)
    ensures |Next(s, x).readers| == |s.readers|
    ensures if IsIdle(s, x) then Alike(s, Next(s, x)) else Left(Next(s, x)) < Left(s)
  {
    hide Left, WriterNext, ReaderNext;
    match x
    case WriterMoves => WriterLeft(s);
    case Spurious(r) => assert Coarses(Next(s, x)) == Coarses(s);
    case ReaderMoves(r) => ReaderLeft(s, r);
  }

  lemma {:induction false} BehaviourInv(readers: nat, r: nat -> State, m: nat -> Option<Move>, i: nat)
    requires Behaviour(readers, r, m)
    ensures Inv(r(i)) && |r(i).readers| == readers
  {
    if i == 0 {
      InitInv(readers);
    } else {
      BehaviourInv(readers, r, m, i - 1);
      assert Instant(r, m, i - 1);
      if m(i - 1).Some? {
        StepInv(r(i - 1), m(i - 1).value);
        LeftStep(r(i - 1), m(i - 1).value);
      }
    }
  }

  // ---------------------------------------------------------------- nothing can get stuck

  /** From instant j on the work left never falls. */
  ghost predicate Stuck(r: nat -> State, j: nat) {
    forall i: nat :: j <= i ==> Left(r(i)) >= Left(r(j))
  }

  /** Then every move is idle. */
  lemma {:induction false} StuckAlike(readers: nat, r: nat -> State, m: nat -> Option<Move>, j: nat, i: nat)
    requires Behaviour(readers, r, m) && Stuck(r, j) && j <= i
    ensures Alike(r(j), r(i)) && Inv(r(i)) && |r(i).readers| == readers
    decreases i
  {
    hide Inv, Left, Next, Enabled;
    BehaviourInv(readers, r, m, i);
    if i > j {
      StuckAlike(readers, r, m, j, i - 1);
      assert Instant(r, m, i - 1);
      SameLeft(r(j), r(i - 1));
      if m(i - 1).Some? {
        LeftStep(r(i - 1), m(i - 1).value);
      }
    }
  }

  lemma SameLeft(s: State, s': State)
    requires Alike(s, s')
    ensures Left(s) == Left(s')
  {}

  lemma StuckIdle(readers: nat, r: nat -> State, m: nat -> Option<Move>, j: nat, i: nat)
    requires Behaviour(readers, r, m) && Stuck(r, j) && j <= i
    ensures m(i).Some? ==> Enabled(r(i), m(i).value) && IsIdle(r(i), m(i).value) && r(i + 1) == Next(r(i), m(i).value)
    ensures m(i).None? ==> r(i + 1) == r(i)
  {
    hide Inv, Left, Next, Enabled, IsIdle;
    assert Instant(r, m, i);
    StuckAlike(readers, r, m, j, i);
    StuckAlike(readers, r, m, j, i + 1);
    SameLeft(r(j), r(i));
    SameLeft(r(j), r(i + 1));
    if m(i).Some? {
      LeftStep(r(i), m(i).value);
    }
  }

  /** Fairness gives a step to whoever can again and again make one from j on. */
  lemma FairStep(r: nat -> State, m: nat -> Option<Move>, a: Holder, j: nat) returns (i: nat)
    requires Fair(r, m) && forall k: nat :: j <= k ==> CanLater(r, a, k)
    ensures j <= i && StepsAt(m, a, i)
  {
    forall k: nat ensures CanLater(r, a, k) {
      var later := if k < j then j else k;
      assert CanLater(r, a, later);
      var x: nat :| later <= x && CanAt(r, a, x);
      assert k <= x;
    }
    assert CanAgainAndAgain(r, a);
    assert StepsAgainAndAgain(m, a);
    assert StepsLater(m, a, j);
    i :| j <= i && StepsAt(m, a, i);
  }

  // ---------------------------------------------------------------- at the test

  lemma {:induction false} TestingStays(readers: nat, r: nat -> State, m: nat -> Option<Move>, u: nat, i: nat, k: nat)
    requires Behaviour(readers, r, m) && i <= k && u < readers
    requires |r(i).readers| == readers && r(i).readers[u].RTest?
    requires forall x: nat :: i <= x < k ==> !StepsAt(m, Reader(u), x)
    ensures |r(k).readers| == readers && r(k).readers[u].RTest?
    decreases k
  {
    BehaviourInv(readers, r, m, k);
    if i < k {
      TestingStays(readers, r, m, u, i, k - 1);
      assert Instant(r, m, k - 1);
      assert !StepsAt(m, Reader(u), k - 1);
    }
  }

  lemma {:induction false} FirstStep(m: nat -> Option<Move>, a: Holder, i: nat, k: nat) returns (f: nat)
    requires i <= k && StepsAt(m, a, k)
    ensures i <= f <= k && StepsAt(m, a, f) && forall x: nat :: i <= x < f ==> !StepsAt(m, a, x)
    decreases k - i
  {
    if StepsAt(m, a, i) {
      f := i;
    } else {
      f := FirstStep(m, a, i + 1, k);
    }
  }

  /** A reader that is at its test comes to make it. */
  lemma TestHappens(readers: nat, r: nat -> State, m: nat -> Option<Move>, u: nat, i: nat) returns (k: nat)
    requires Behaviour(readers, r, m) && Fair(r, m) && u < readers
    requires |r(i).readers| == readers && r(i).readers[u].RTest?
    ensures i <= k && StepsAt(m, Reader(u), k) && |r(k).readers| == readers && r(k).readers[u].RTest?
  {
    if forall x: nat :: i <= x ==> !StepsAt(m, Reader(u), x) {
      forall x: nat | i <= x ensures CanLater(r, Reader(u), x) {
        TestingStays(readers, r, m, u, i, x);
        assert CanAt(r, Reader(u), x);
      }
      var never := FairStep(r, m, Reader(u), i);
      assert false;
    }
    var x: nat :| i <= x && StepsAt(m, Reader(u), x);
    k := FirstStep(m, Reader(u), i, x);
    TestingStays(readers, r, m, u, i, k);
  }

  // ---------------------------------------------------------------- the writer

  /** While the flow step is 0, whoever has the mutex of a waiting writer tests, fails and lets
      go of it. */
  lemma WriterCanLater(readers: nat, r: nat -> State, m: nat -> Option<Move>, j: nat, i: nat)
    requires Behaviour(readers, r, m) && Fair(r, m) && Stuck(r, j) && j <= i && !r(j).writer.WDone?
    ensures CanLater(r, Writer, i)
  {
    StuckAlike(readers, r, m, j, i);
    if CanAt(r, Writer, i) {
    } else {
      var u := r(i).mutex.value.r;
      var k := TestHappens(readers, r, m, u, i);
      StuckAlike(readers, r, m, j, k);
      StuckIdle(readers, r, m, j, k);
      assert CanAt(r, Writer, k + 1);
    }
  }

  // ---------------------------------------------------------------- the readers

  /** After the writer no reader is at its test, or would it pass. */
  lemma NobodyTests(readers: nat, r: nat -> State, m: nat -> Option<Move>, j: nat, u: nat, i: nat)
    requires Behaviour(readers, r, m) && Fair(r, m) && Stuck(r, j) && j <= i && r(j).writer.WDone? && u < readers
    ensures |r(i).readers| == readers && !r(i).readers[u].RTest?
  {
    StuckAlike(readers, r, m, j, i);
    if r(i).readers[u].RTest? {
      var k := TestHappens(readers, r, m, u, i);
      StuckAlike(readers, r, m, j, k);
      StuckIdle(readers, r, m, j, k);
      assert false;
    }
  }

  /** Nor is any between the gate and its end: it could go on at every instant. */
  lemma NobodyInside(readers: nat, r: nat -> State, m: nat -> Option<Move>, j: nat, u: nat)
    requires Behaviour(readers, r, m) && Fair(r, m) && Stuck(r, j) && r(j).writer.WDone? && u < readers
    ensures |r(j).readers| == readers && (r(j).readers[u].ThroughGate() ==> r(j).readers[u].RDone?)
  {
    hide CountInv, LogInv, WakeInv;
    BehaviourInv(readers, r, m, j);
    if r(j).readers[u].ThroughGate() && !r(j).readers[u].RDone? {
      forall k: nat | j <= k ensures CanLater(r, Reader(u), k) {
        StuckAlike(readers, r, m, j, k);
        assert Coarses(r(j))[u] == Coarses(r(k))[u];
        assert CanAt(r, Reader(u), k);
      }
      var i := FairStep(r, m, Reader(u), j);
      StuckAlike(readers, r, m, j, i);
      assert Coarses(r(j))[u] == Coarses(r(i))[u];
      StuckIdle(readers, r, m, j, i);
      assert false;
    }
  }

  /** So the mutex is free, and a reader still before the gate can take it at every instant. */
  lemma ReaderCanLater(readers: nat, r: nat -> State, m: nat -> Option<Move>, j: nat, u: nat, i: nat)
    requires Behaviour(readers, r, m) && Fair(r, m) && Stuck(r, j) && j <= i && r(j).writer.WDone? && u < readers
    requires |r(j).readers| == readers && !r(j).readers[u].ThroughGate()
    ensures CanAt(r, Reader(u), i) && !r(i).readers[u].ThroughGate()
  {
    StuckAlike(readers, r, m, j, i);
    assert Coarses(r(j))[u] == Coarses(r(i))[u];
    NobodyTests(readers, r, m, j, u, i);
    if r(i).mutex.Some? {
      var v := r(i).mutex.value.r;
      NobodyInside(readers, r, m, j, v);
      assert Coarses(r(j))[v] == Coarses(r(i))[v];
      NobodyTests(readers, r, m, j, v, i);
      assert false;
    }
  }

  lemma CannotBeStuck(readers: nat, r: nat -> State, m: nat -> Option<Move>, j: nat)
    requires Behaviour(readers, r, m) && Fair(r, m) && !AllDone(r(j))
    ensures !Stuck(r, j)
  {
    hide CountInv, LogInv, WakeInv;
    if Stuck(r, j) {
      BehaviourInv(readers, r, m, j);
      if !r(j).writer.WDone? {
        forall k: nat | j <= k ensures CanLater(r, Writer, k) {
          WriterCanLater(readers, r, m, j, k);
        }
        var i := FairStep(r, m, Writer, j);
        StuckIdle(readers, r, m, j, i);
        assert false;
      } else {
        var u :| 0 <= u < readers && !r(j).readers[u].RDone?;
        NobodyInside(readers, r, m, j, u);
        forall k: nat | j <= k ensures CanLater(r, Reader(u), k) {
          ReaderCanLater(readers, r, m, j, u, k);
        }
        var i := FairStep(r, m, Reader(u), j);
        ReaderCanLater(readers, r, m, j, u, i);
        NobodyTests(readers, r, m, j, u, i);
        StuckIdle(readers, r, m, j, i);
        NobodyTests(readers, r, m, j, u, i + 1);
        assert false;
      }
    }
  }

  /** Liveness: in every fair behaviour there comes an instant at which the writer and all
      readers have finished. */
  lemma {:induction false} EventuallyDone(readers: nat, r: nat -> State, m: nat -> Option<Move>, j: nat)
    returns (i: nat)
    requires Behaviour(readers, r, m) && Fair(r, m)
    ensures j <= i && AllDone(r(i))
    decreases Left(r(j))
  {
    if AllDone(r(j)) {
      i := j;
    } else {
      CannotBeStuck(readers, r, m, j);
      var k: nat :| j <= k && Left(r(k)) < Left(r(j));
      i := EventuallyDone(readers, r, m, k);
    }
  }

  lemma {:induction false} DoneStays(r: nat -> State, m: nat -> Option<Move>, k: nat, i: nat)
    requires (forall x: nat :: Instant(r, m, x)) && AllDone(r(k)) && k <= i
    ensures AllDone(r(i))
    decreases i
  {
    if i > k {
      DoneStays(r, m, k, i - 1);
      assert Instant(r, m, i - 1);
    }
  }

  /** Exactly the fair behaviours come to their end. */
  lemma FairBehavioursFinish(readers: nat, r: nat -> State, m: nat -> Option<Move>)
    requires Behaviour(readers, r, m)
    ensures Fair(r, m) <==> exists i: nat :: AllDone(r(i))
  {
    if Fair(r, m) {
      var i := EventuallyDone(readers, r, m, 0);
    }
    if i: nat :| AllDone(r(i)) {
      forall a: Holder ensures !CanAgainAndAgain(r, a) {
        forall k: nat | i <= k ensures !CanAt(r, a, k) {
          DoneStays(r, m, i, k);
        }
        assert !CanLater(r, a, i);
      }
    }
  }
}
