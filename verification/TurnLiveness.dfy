/** Infinite behaviours of the turn-passing protocol: under a fair scheduler all work gets
    done, however many spurious wake-ups there are. */
module TurnLiveness {
  import opened Arithmetic
  import opened Wrappers
  import opened TurnProtocol
  import opened TurnRuns

  /** An infinite behaviour: at each instant one thread makes a move, or nothing happens. */
  ghost predicate Behaviour(c: Config, r: nat -> State, m: nat -> Option<Move>) {
    c.Valid() && r(0) == Init(c) && forall i: nat :: Instant(c, r, m, i)
  }

  ghost predicate Instant(c: Config, r: nat -> State, m: nat -> Option<Move>, i: nat)
    requires c.Valid()
  {
    match m(i)
    case None => r(i + 1) == r(i)
    case Some(x) => Shape(c, r(i)) && Enabled(c, r(i), x) && r(i + 1) == Next(c, r(i), x)
  }

  ghost predicate CanAt(c: Config, r: nat -> State, t: nat, i: nat) {
    Shape(c, r(i)) && t < c.threads && CanStep(c, r(i), t)
  }

  ghost predicate StepsAt(m: nat -> Option<Move>, t: nat, i: nat) {
    m(i).Some? && m(i).value.t == t && !m(i).value.a.Spurious?
  }

  ghost predicate CanLater(c: Config, r: nat -> State, t: nat, j: nat) {
    exists i: nat :: j <= i && CanAt(c, r, t, i)
  }

  ghost predicate StepsLater(m: nat -> Option<Move>, t: nat, j: nat) {
    exists i: nat :: j <= i && StepsAt(m, t, i)
  }

  /** A thread that again and again could step (could take the mutex it waits for, say) again
      and again does. */
  ghost predicate Fair(c: Config, r: nat -> State, m: nat -> Option<Move>) {
    forall t :: 0 <= t < c.threads && CanAgainAndAgain(c, r, t) ==> StepsAgainAndAgain(m, t)
  }

  ghost predicate CanAgainAndAgain(c: Config, r: nat -> State, t: nat) {
    forall j: nat :: CanLater(c, r, t, j)
  }

  ghost predicate StepsAgainAndAgain(m: nat -> Option<Move>, t: nat) {
    forall j: nat :: StepsLater(m, t, j)
  }

  ghost predicate AllFinished(c: Config, s: State) {
    Shape(c, s) && forall t :: 0 <= t < c.threads ==> Finished(c, s.threads[t])
  }

  // ---------------------------------------------------------------- a coarser rank

  /** Waiting for the turn counts the same however often the thread sleeps and wakes. */
  function CoarseLocal(c: Config, pc: Pc): nat {
    match pc
    case Working(k) => (if k < c.turns then c.turns - k else 0) + 3
    case Bumped => 2
    case Announced => 1
    case _ => c.turns + 4
  }

  function Coarse(c: Config, th: Thread): nat
    requires Placed(c, th)
  {
    if Finished(c, th) then 0 else ItemsAfter(c, th) * (c.turns + 4) + CoarseLocal(c, th.pc)
  }

  ghost function Coarses(c: Config, s: State): (r: seq<nat>)
    requires WellFormed(c, s)
    ensures |r| == c.threads && forall t :: 0 <= t < c.threads ==> r[t] == Coarse(c, s.threads[t])
  {
    seq(c.threads, t requires 0 <= t < c.threads => Coarse(c, s.threads[t]))
  }

  ghost function Total(c: Config, s: State): nat
    requires WellFormed(c, s)
  {
    Sum(Coarses(c, s))
  }

  /** The moves that only take or give back a mutex on the way to a turn. */
  predicate IsIdle(c: Config, s: State, x: Move)
    requires Shape(c, s) && Enabled(c, s, x)
  {
    x.a.Acquire? || x.a.Spurious? || (x.a.Test? && s.flow[s.threads[x.t].part] != x.t)
  }

  lemma CoarseStep(c: Config, s: State, x: Move)
    requires WellFormed(c, s) && Enabled(c, s, x)
    ensures WellFormed(c, Next(c, s, x))
    ensures forall u :: 0 <= u < c.threads && u != x.t ==>
              Coarse(c, Next(c, s, x).threads[u]) == Coarse(c, s.threads[u])
    ensures if IsIdle(c, s, x) then Coarse(c, Next(c, s, x).threads[x.t]) == Coarse(c, s.threads[x.t])
            else Coarse(c, Next(c, s, x).threads[x.t]) < Coarse(c, s.threads[x.t])
  {
    StepWellFormed(c, s, x);
    if x.a.Release? {
      var th := s.threads[x.t];
      NextItemCounts(c, th);
      if !Finished(c, NextItem(c, th)) {
        MulSucc(ItemsAfter(c, th) - 1, c.turns + 4);
      }
    }
  }

  lemma TotalStep(c: Config, s: State, x: Move)
    requires WellFormed(c, s) && Enabled(c, s, x)
    ensures WellFormed(c, Next(c, s, x))
    ensures if IsIdle(c, s, x) then Total(c, Next(c, s, x)) == Total(c, s)
            else Total(c, Next(c, s, x)) < Total(c, s)
  {
    CoarseStep(c, s, x);
    var v, w := Coarses(c, s), Coarses(c, Next(c, s, x));
    assert w == v[x.t := w[x.t]];
    SumUpdate(v, x.t, w[x.t]);
  }

  lemma {:induction false} BehaviourInv(c: Config, r: nat -> State, m: nat -> Option<Move>, i: nat)
    requires Behaviour(c, r, m)
    ensures Inv(c, r(i))
  {
    if i == 0 {
      InitInv(c);
    } else {
      BehaviourInv(c, r, m, i - 1);
      assert Instant(c, r, m, i - 1);
      if m(i - 1).Some? {
        StepInv(c, r(i - 1), m(i - 1).value);
      }
    }
  }

  // ---------------------------------------------------------------- nothing can get stuck

  /** From instant j on the total never falls. */
  ghost predicate Stuck(c: Config, r: nat -> State, j: nat)
  {
    WellFormed(c, r(j)) && forall i: nat :: j <= i ==> WellFormed(c, r(i)) && Total(c, r(i)) >= Total(c, r(j))
  }

  lemma {:induction false} StuckTotal(c: Config, r: nat -> State, m: nat -> Option<Move>, j: nat, i: nat)
    requires Behaviour(c, r, m) && Stuck(c, r, j) && j <= i
    ensures WellFormed(c, r(i)) && Total(c, r(i)) == Total(c, r(j))
    decreases i
  {
    if i > j {
      StuckTotal(c, r, m, j, i - 1);
      assert Instant(c, r, m, i - 1);
      if m(i - 1).Some? {
        TotalStep(c, r(i - 1), m(i - 1).value);
      }
    }
  }

  /** Then every move is idle: it changes neither flow steps nor positions. */
  lemma StuckIdle(c: Config, r: nat -> State, m: nat -> Option<Move>, j: nat, i: nat)
    requires Behaviour(c, r, m) && Stuck(c, r, j) && j <= i
    ensures WellFormed(c, r(i))
    ensures m(i).Some? ==>
              Enabled(c, r(i), m(i).value) && IsIdle(c, r(i), m(i).value) && r(i + 1) == Next(c, r(i), m(i).value)
    ensures m(i).None? ==> r(i + 1) == r(i)
  {
    StuckTotal(c, r, m, j, i);
    StuckTotal(c, r, m, j, i + 1);
    assert Instant(c, r, m, i);
    if m(i).Some? {
      TotalStep(c, r(i), m(i).value);
    }
  }

  predicate Busy(pc: Pc) { pc.Working? || pc.Bumped? || pc.Announced? }

  /** Two states alike up to who waits, sleeps or tests. */
  ghost predicate Alike(c: Config, s: State, s': State) {
    && Shape(c, s) && Shape(c, s') && s.flow == s'.flow
    && forall u :: 0 <= u < c.threads ==>
         && s.threads[u].iter == s'.threads[u].iter && s.threads[u].part == s'.threads[u].part
         && Busy(s.threads[u].pc) == Busy(s'.threads[u].pc)
  }

  lemma IdleAlike(c: Config, s: State, x: Move)
    requires WellFormed(c, s) && Enabled(c, s, x) && IsIdle(c, s, x)
    ensures Alike(c, s, Next(c, s, x))
  {}

  lemma AlikeCompose(c: Config, a: State, b: State, d: State)
    requires Alike(c, a, b) && Alike(c, b, d)
    ensures Alike(c, a, d)
  {}

  lemma {:induction false} StuckAlike(c: Config, r: nat -> State, m: nat -> Option<Move>, j: nat, i: nat)
    requires Behaviour(c, r, m) && Stuck(c, r, j) && j <= i
    ensures Alike(c, r(j), r(i))
    decreases i
  {
    if i > j {
      StuckAlike(c, r, m, j, i - 1);
      StuckIdle(c, r, m, j, i - 1);
      if m(i - 1).Some? {
        IdleAlike(c, r(i - 1), m(i - 1).value);
        AlikeCompose(c, r(j), r(i - 1), r(i));
      }
    }
  }

  /** What fairness gives a thread that can step at every instant from j on. */
  lemma FairStep(c: Config, r: nat -> State, m: nat -> Option<Move>, t: nat, j: nat) returns (i: nat)
    requires Fair(c, r, m) && t < c.threads
    requires forall k: nat :: j <= k ==> CanLater(c, r, t, k)
    ensures j <= i && StepsAt(m, t, i)
  {
    forall k: nat ensures CanLater(c, r, t, k) {
      var later := if k < j then j else k;
      assert CanLater(c, r, t, later);
      var x: nat :| later <= x && CanAt(c, r, t, x);
      assert k <= x;
    }
    assert CanAgainAndAgain(c, r, t);
    assert StepsAgainAndAgain(m, t);
    assert StepsLater(m, t, j);
    i :| j <= i && StepsAt(m, t, i);
  }

  /** No thread is past its test: such a thread can always step, so it would. */
  lemma StuckNotBusy(c: Config, r: nat -> State, m: nat -> Option<Move>, j: nat, u: nat)
    requires Behaviour(c, r, m) && Fair(c, r, m) && Stuck(c, r, j)
    requires u < c.threads
    ensures Shape(c, r(j)) && (!Finished(c, r(j).threads[u]) ==> !Busy(r(j).threads[u].pc))
  {
    StuckTotal(c, r, m, j, j);
    if !Finished(c, r(j).threads[u]) && Busy(r(j).threads[u].pc) {
      forall k: nat | j <= k ensures CanLater(c, r, u, k) {
        StuckAlike(c, r, m, j, k);
        StuckTotal(c, r, m, j, k);
        assert CanAt(c, r, u, k);
      }
      var i := FairStep(c, r, m, u, j);
      StuckAlike(c, r, m, j, i);
      StuckIdle(c, r, m, j, i);
      assert false;
    }
  }

  /** The least unfinished thread has the turn and is awake, at every instant from j on. */
  lemma StuckLeast(c: Config, r: nat -> State, m: nat -> Option<Move>, j: nat, t: nat, i: nat)
    requires Behaviour(c, r, m) && Fair(c, r, m) && Stuck(c, r, j) && j <= i
    requires Shape(c, r(j)) && Least(c, r(j), t) && !Finished(c, r(j).threads[t])
    ensures WellFormed(c, r(i)) && !Finished(c, r(i).threads[t]) && r(i).threads[t].part == r(j).threads[t].part
    ensures r(i).flow[r(i).threads[t].part] == t
    ensures var pc := r(i).threads[t].pc; pc.Locking? || pc.Woken? || pc.Testing?
    ensures var o := r(i).owner[r(i).threads[t].part];
      o.Some? ==> o.value < c.threads && r(i).threads[o.value].pc.Testing?
                  && r(i).threads[o.value].part == r(i).threads[t].part && !Finished(c, r(i).threads[o.value])
  {
    BehaviourInv(c, r, m, j);
    BehaviourInv(c, r, m, i);
    StuckAlike(c, r, m, j, i);
    LeastHasTurn(c, r(j), t);
    StuckNotBusy(c, r, m, j, t);
    var o := r(i).owner[r(i).threads[t].part];
    if o.Some? {
      StuckNotBusy(c, r, m, j, o.value);
    }
  }

  lemma OtherThreadTests(c: Config, s: State, x: Move, u: nat)
    requires WellFormed(c, s) && Enabled(c, s, x) && u < c.threads && s.threads[u].pc.Testing?
    requires x.t != u || x.a.Spurious?
    ensures |Next(c, s, x).threads| == c.threads && Next(c, s, x).threads[u] == s.threads[u]
  {}

  /** A thread that tests keeps testing until it steps. */
  lemma {:induction false} TestingStays(c: Config, r: nat -> State, m: nat -> Option<Move>, u: nat, i: nat, k: nat)
    requires Behaviour(c, r, m) && i <= k && WellFormed(c, r(i)) && u < c.threads && r(i).threads[u].pc.Testing?
    requires forall x: nat :: i <= x < k ==> !StepsAt(m, u, x)
    ensures WellFormed(c, r(k)) && r(k).threads[u] == r(i).threads[u]
    decreases k
  {
    if i < k {
      TestingStays(c, r, m, u, i, k - 1);
      assert Instant(c, r, m, k - 1);
      assert !StepsAt(m, u, k - 1);
      if m(k - 1).Some? {
        StepWellFormed(c, r(k - 1), m(k - 1).value);
        OtherThreadTests(c, r(k - 1), m(k - 1).value, u);
      }
    }
  }

  lemma {:induction false} FirstStep(m: nat -> Option<Move>, t: nat, i: nat, k: nat) returns (f: nat)
    requires i <= k && StepsAt(m, t, k)
    ensures i <= f <= k && StepsAt(m, t, f) && forall x: nat :: i <= x < f ==> !StepsAt(m, t, x)
    decreases k - i
  {
    if StepsAt(m, t, i) {
      f := i;
    } else {
      f := FirstStep(m, t, i + 1, k);
    }
  }

  /** A thread that tests does make its test, with nothing about it changed before. */
  lemma TestHappens(c: Config, r: nat -> State, m: nat -> Option<Move>, u: nat, i: nat) returns (k: nat)
    requires Behaviour(c, r, m) && Fair(c, r, m) && WellFormed(c, r(i)) && u < c.threads
    requires r(i).threads[u].pc.Testing? && !Finished(c, r(i).threads[u])
    ensures i <= k && StepsAt(m, u, k) && WellFormed(c, r(k)) && r(k).threads[u] == r(i).threads[u]
  {
    if forall x: nat :: i <= x ==> !StepsAt(m, u, x) {
      forall x: nat | i <= x ensures CanLater(c, r, u, x) {
        TestingStays(c, r, m, u, i, x);
        assert CanAt(c, r, u, x);
      }
      var never := FairStep(c, r, m, u, i);
      assert false;
    }
    var x: nat :| i <= x && StepsAt(m, u, x);
    k := FirstStep(m, u, i, x);
    TestingStays(c, r, m, u, i, k);
  }

  /** The thread with the turn can step again and again: whoever holds its mutex is testing,
      fails, and lets go of it. */
  lemma LeastCanLater(c: Config, r: nat -> State, m: nat -> Option<Move>, j: nat, t: nat, i: nat)
    requires Behaviour(c, r, m) && Fair(c, r, m) && Stuck(c, r, j) && j <= i
    requires Shape(c, r(j)) && Least(c, r(j), t) && !Finished(c, r(j).threads[t])
    ensures CanLater(c, r, t, i)
  {
    StuckLeast(c, r, m, j, t, i);
    if CanAt(c, r, t, i) {
    } else {
      var u := r(i).owner[r(i).threads[t].part].value;
      var k := TestHappens(c, r, m, u, i);
      StuckIdle(c, r, m, j, k);
      StuckLeast(c, r, m, j, t, k);
      StuckLeast(c, r, m, j, t, k + 1);
      assert CanAt(c, r, t, k + 1);
    }
  }

  /** With the turn, a test succeeds, so the thread with the turn is never at its test. */
  lemma LeastNeverTests(c: Config, r: nat -> State, m: nat -> Option<Move>, j: nat, t: nat, i: nat)
    requires Behaviour(c, r, m) && Fair(c, r, m) && Stuck(c, r, j) && j <= i
    requires Shape(c, r(j)) && Least(c, r(j), t) && !Finished(c, r(j).threads[t])
    ensures Shape(c, r(i)) && !r(i).threads[t].pc.Testing?
  {
    StuckLeast(c, r, m, j, t, i);
    if r(i).threads[t].pc.Testing? {
      var k := TestHappens(c, r, m, t, i);
      StuckLeast(c, r, m, j, t, k);
      StuckIdle(c, r, m, j, k);
      assert false;
    }
  }

  /** But by taking its mutex it gets there. */
  lemma CannotBeStuck(c: Config, r: nat -> State, m: nat -> Option<Move>, j: nat)
    requires Behaviour(c, r, m) && Fair(c, r, m) && WellFormed(c, r(j)) && !AllFinished(c, r(j))
    ensures !Stuck(c, r, j)
  {
    if Stuck(c, r, j) {
      var t := LeastExists(c, r(j), c.threads);
      var v :| 0 <= v < c.threads && !Finished(c, r(j).threads[v]);
      assert Before(r(j).threads[t], t, r(j).threads[v], v);
      forall k: nat | j <= k ensures CanLater(c, r, t, k) {
        LeastCanLater(c, r, m, j, t, k);
      }
      var i := FairStep(c, r, m, t, j);
      LeastNeverTests(c, r, m, j, t, i);
      LeastNeverTests(c, r, m, j, t, i + 1);
      StuckIdle(c, r, m, j, i);
      assert false;
    }
  }

  /** From any instant of a fair behaviour at which work is unfinished, the work left falls:
      nothing the scheduler does, and no number of spurious wake-ups, can go on without that. */
  lemma WorkGoesOn(c: Config, r: nat -> State, m: nat -> Option<Move>, j: nat) returns (k: nat)
    requires Behaviour(c, r, m) && Fair(c, r, m) && WellFormed(c, r(j)) && !AllFinished(c, r(j))
    ensures j < k && WellFormed(c, r(k)) && Total(c, r(k)) < Total(c, r(j))
  {
    CannotBeStuck(c, r, m, j);
    k :| j <= k && !(WellFormed(c, r(k)) && Total(c, r(k)) >= Total(c, r(j)));
    BehaviourInv(c, r, m, k);
  }

  /** Liveness: in every fair behaviour there comes an instant at which all threads have
      returned. Together with the bound on completed work, completed work grows until all
      N * P * I pieces are done. */
  lemma {:induction false} EventuallyFinished(c: Config, r: nat -> State, m: nat -> Option<Move>, j: nat)
    returns (i: nat)
    requires Behaviour(c, r, m) && Fair(c, r, m) && WellFormed(c, r(j))
    ensures j <= i && AllFinished(c, r(i))
    decreases Total(c, r(j))
  {
    if AllFinished(c, r(j)) {
      i := j;
    } else {
      var k := WorkGoesOn(c, r, m, j);
      i := EventuallyFinished(c, r, m, k);
    }
  }

  lemma FairRunsFinish(c: Config, r: nat -> State, m: nat -> Option<Move>)
    requires Behaviour(c, r, m) && Fair(c, r, m)
    ensures exists i: nat :: AllFinished(c, r(i))
  {
    InitInv(c);
    var i := EventuallyFinished(c, r, m, 0);
  }
}
