/** What holds in every run of the turn-passing protocol: turn order, mutual exclusion,
    no lost wake-up, freedom from deadlock, and a bound on the length of runs. */
module TurnRuns {
  import opened Arithmetic
  import opened Wrappers
  import opened TurnProtocol

  /** Every move of the list can be made when its turn comes. */
  ghost predicate Legal(c: Config, s: State, moves: seq<Move>)
    requires c.threads > 0
    decreases |moves|
  {
    moves == [] ||
    (Shape(c, s) && Enabled(c, s, moves[0]) && Legal(c, Next(c, s, moves[0]), moves[1..]))
  }

  ghost function After(c: Config, s: State, moves: seq<Move>): State
    requires c.threads > 0 && Legal(c, s, moves)
    decreases |moves|
  {
    if moves == [] then s else After(c, Next(c, s, moves[0]), moves[1..])
  }

  lemma StepInv(c: Config, s: State, m: Move)
    requires Inv(c, s) && Enabled(c, s, m)
    ensures Inv(c, Next(c, s, m))
  {
    StepLocks(c, s, m);
    StepInTurn(c, s, m);
    StepOrdered(c, s, m);
    StepNoLostWakeup(c, s, m);
  }

  lemma {:induction false} RunInv(c: Config, s: State, moves: seq<Move>)
    requires Inv(c, s) && Legal(c, s, moves)
    ensures Inv(c, After(c, s, moves))
    decreases |moves|
  {
    if moves != [] {
      StepInv(c, s, moves[0]);
      RunInv(c, Next(c, s, moves[0]), moves[1..]);
    }
  }

  predicate WorksOn(th: Thread, q: nat) {
    th.pc.Working? && th.part == q
  }

  /** Turn order, in every reachable state: at most one thread works on a partition at a time
      and it is the one the flow step names; the k-th completed piece of work is thread
      k mod n's; the flow step is the number of completed pieces modulo n; and of two
      threads the one with the smaller id is never behind and never more than one ahead. */
  lemma TurnOrder(c: Config, moves: seq<Move>, q: nat)
    requires c.Valid() && Legal(c, Init(c), moves) && q < c.parts
    ensures var s := After(c, Init(c), moves);
      && Shape(c, s)
      && (forall t, u :: 0 <= t < c.threads && 0 <= u < c.threads
                         && WorksOn(s.threads[t], q) && WorksOn(s.threads[u], q) ==>
            t == u == s.flow[q])
      && (forall k :: 0 <= k < |s.log[q]| ==> s.log[q][k] == k % c.threads)
      && s.flow[q] == FlowAfter(c, |s.log[q]|)
      && (forall a, b :: 0 <= a < b < c.threads ==>
            0 <= Done(s.threads[a], q) - Done(s.threads[b], q) <= 1)
  {
    var s := After(c, Init(c), moves);
    InitInv(c);
    RunInv(c, Init(c), moves);
    assert OrderedOn(c, s, q);
  }

  /** The count of thread t's turns is the number of positions below w that are t modulo n. */
  ghost function TurnsOf(w: nat, n: nat, t: nat): (s: set<nat>)
    requires n > 0
    ensures forall k: nat :: k in s <==> k < w && k % n == t
  {
    set k: nat | 0 <= k < w && k % n == t
  }

  lemma NoShare(n: nat, t: nat)
    requires n > 0
    ensures Share(0, n, t) == 0
  {
    DivModUnique(0, n, 0, 0);
  }

  lemma {:induction false} ShareCounts(w: nat, n: nat, t: nat)
    requires t < n
    ensures |TurnsOf(w, n, t)| == Share(w, n, t)
  {
    hide Share;
    if w == 0 {
      assert TurnsOf(0, n, t) == {};
      NoShare(n, t);
    } else {
      ShareCounts(w - 1, n, t);
      ShareStep(w - 1, n, t);
      if (w - 1) % n == t {
        assert TurnsOf(w, n, t) == TurnsOf(w - 1, n, t) + {w - 1};
      } else {
        assert TurnsOf(w, n, t) == TurnsOf(w - 1, n, t);
      }
    }
  }

  // ---------------------------------------------------------------- progress

  /** A thread that can move without being woken. */
  predicate CanStep(c: Config, s: State, t: nat)
    requires Shape(c, s) && t < c.threads
  {
    var th := s.threads[t];
    Placed(c, th) && !Finished(c, th) && !th.pc.Asleep? &&
    ((th.pc.Locking? || th.pc.Woken?) ==> s.owner[th.part].None?)
  }

  /** What such a thread does next. */
  function Action0(c: Config, pc: Pc): Action
    requires !pc.Asleep?
  {
    match pc
    case Locking => Acquire
    case Woken => Acquire
    case Testing => Test
    case Working(k) => if k < c.turns then Turn else IncrFlow
    case Bumped => Broadcast
    case Announced => Release
  }

  lemma CanStepEnabled(c: Config, s: State, t: nat)
    requires Shape(c, s) && t < c.threads
    ensures CanStep(c, s, t) ==> Enabled(c, s, Move(t, Action0(c, s.threads[t].pc)))
    ensures forall a: Action :: Enabled(c, s, Move(t, a)) && !a.Spurious? ==>
              CanStep(c, s, t) && a == Action0(c, s.threads[t].pc)
  {}

  /** Thread t's next item comes before thread u's: the earlier iteration, then the earlier
      partition, then the smaller id. */
  predicate Before(a: Thread, t: nat, b: Thread, u: nat) {
    a.iter < b.iter || (a.iter == b.iter && (a.part < b.part || (a.part == b.part && t <= u)))
  }

  ghost predicate Least(c: Config, s: State, t: nat)
    requires Shape(c, s)
  {
    t < c.threads && forall u :: 0 <= u < c.threads ==> Before(s.threads[t], t, s.threads[u], u)
  }

  lemma {:induction false} LeastExists(c: Config, s: State, n: nat) returns (t: nat)
    requires Shape(c, s) && 0 < n <= c.threads
    ensures t < n && forall u :: 0 <= u < n ==> Before(s.threads[t], t, s.threads[u], u)
  {
    if n == 1 {
      t := 0;
    } else {
      t := LeastExists(c, s, n - 1);
      if !Before(s.threads[t], t, s.threads[n - 1], n - 1) {
        t := n - 1;
      }
    }
  }

  /** The thread with the least unfinished item has the turn on its partition, unless it has
      already passed it on. */
  lemma LeastHasTurn(c: Config, s: State, t: nat)
    requires Inv(c, s) && Least(c, s, t) && !Finished(c, s.threads[t])
    ensures s.threads[t].pc.Past() || s.flow[s.threads[t].part] == t
  {
    var th := s.threads[t];
    var q, n := th.part, c.threads;
    var w := |s.log[q]|;
    assert OrderedOn(c, s, q);
    if !th.pc.Past() {
      var f := w % n;
      assert f < n;
      var other, rounds, done := s.threads[f], w / n, Done(th, q);
      assert done == th.iter && Done(other, q) == rounds;
      assert Before(th, t, other, f);
      assert t < f ==> done == rounds + 1;
      assert f < t ==> other.iter > th.iter || other.part > q;
      if !c.wraps {
        assert th.iter == 0;
        assert w == (w / n) * n + f;
      }
    }
  }

  /** Nothing but a wait, or a mutex that another thread is inside of, keeps an unfinished
      thread from moving. */
  lemma OnlyTheMutexBlocks(c: Config, s: State, t: nat)
    requires Inv(c, s) && t < c.threads && !Finished(c, s.threads[t])
    ensures (exists a: Action :: !a.Spurious? && Enabled(c, s, Move(t, a))) <==>
            && !s.threads[t].pc.Asleep?
            && (s.threads[t].pc.Locking? || s.threads[t].pc.Woken? ==>
                  forall u :: 0 <= u < c.threads && s.threads[u].part == s.threads[t].part ==>
                    !s.threads[u].pc.Holds())
  {
    CanStepEnabled(c, s, t);
    var o := s.owner[s.threads[t].part];
    if o.Some? {
      assert s.threads[o.value].part == s.threads[t].part && s.threads[o.value].pc.Holds();
    }
    if CanStep(c, s, t) {
      assert Enabled(c, s, Move(t, Action0(c, s.threads[t].pc)));
    }
  }

  /** A step on one partition concerns that partition only: neither the lock, the flow step and
      the record of another one change, nor any thread that is at another one. */
  lemma StepIsLocal(c: Config, s: State, m: Move, q: nat, u: nat)
    requires WellFormed(c, s) && Enabled(c, s, m) && q < c.parts && u < c.threads
    ensures WellFormed(c, Next(c, s, m))
    ensures q != s.threads[m.t].part ==>
              var s' := Next(c, s, m); s'.owner[q] == s.owner[q] && s'.flow[q] == s.flow[q] && s'.log[q] == s.log[q]
    ensures s.threads[u].part != s.threads[m.t].part ==> Next(c, s, m).threads[u] == s.threads[u]
    ensures u != m.t && !m.a.Broadcast? ==> Next(c, s, m).threads[u] == s.threads[u]
  {
    StepWellFormed(c, s, m);
  }

  /** Deadlock freedom: while work is unfinished, the thread with the least unfinished item
      can step, or the holder of the mutex it waits for can. In particular that thread is
      never asleep with nobody left to wake it. */
  lemma Progress(c: Config, s: State) returns (t: nat, u: nat)
    requires Inv(c, s)
    requires exists v :: 0 <= v < c.threads && !Finished(c, s.threads[v])
    ensures Least(c, s, t) && !Finished(c, s.threads[t])
    ensures u < c.threads && CanStep(c, s, u)
    ensures u == t || s.owner[s.threads[t].part] == Some(u)
  {
    t := LeastExists(c, s, c.threads);
    var v :| 0 <= v < c.threads && !Finished(c, s.threads[v]);
    assert Before(s.threads[t], t, s.threads[v], v);
    LeastHasTurn(c, s, t);
    var q := s.threads[t].part;
    u := if s.owner[q].Some? then s.owner[q].value else t;
    var step := s.flow[q];
    assert u != t && s.threads[u].pc.Working? ==> step == u;
  }

  // ---------------------------------------------------------------- the end of a run

  lemma SameShareNoRemainder(w: nat, n: nat, i: nat)
    requires n > 0 && forall t :: 0 <= t < n ==> Share(w, n, t) == i
    ensures w == n * i && w % n == 0
  {
    assert Share(w, n, w % n) == i;
    assert Share(w, n, 0) == i;
  }

  /** When all threads have returned, each has worked once per iteration on each partition,
      no mutex is held, and every flow step is back where it was created: at 0. The second
      run of the program's threads therefore starts from the state the first one did. */
  lemma EndOfRun(c: Config, s: State, q: nat)
    requires Inv(c, s) && q < c.parts
    requires forall t :: 0 <= t < c.threads ==> Finished(c, s.threads[t])
    ensures |s.log[q]| == c.threads * c.iters && s.owner[q].None?
    ensures c.wraps ==> s.flow[q] == 0
    ensures !c.wraps ==> s.flow[q] == c.threads * c.iters
  {
    assert OrderedOn(c, s, q);
    forall t | 0 <= t < c.threads ensures Share(|s.log[q]|, c.threads, t) == c.iters {
      assert Done(s.threads[t], q) == c.iters;
    }
    SameShareNoRemainder(|s.log[q]|, c.threads, c.iters);
  }

  // ---------------------------------------------------------------- termination

  /** How much a thread has before it at one item. */
  function LocalRank(c: Config, pc: Pc): nat {
    match pc
    case Locking => c.turns + 2 * c.threads + 7
    case Woken => c.turns + 2 * c.threads + 6
    case Testing => c.turns + 2 * c.threads + 5
    case Asleep => c.turns + 2 * c.threads + 4
    case Working(k) => (if k < c.turns then c.turns - k else 0) + 2 * c.threads + 3
    case Bumped => 2 * c.threads + 2
    case Announced => 1
  }

  /** Items after the current one. */
  function ItemsAfter(c: Config, th: Thread): nat
    requires !Finished(c, th) && th.part < c.parts
  {
    (c.iters - th.iter - 1) * c.parts + (c.parts - th.part - 1)
  }

  function Rank(c: Config, th: Thread): nat
    requires Placed(c, th)
  {
    if Finished(c, th) then 0 else ItemsAfter(c, th) * LocalRank(c, Locking) + LocalRank(c, th.pc)
  }

  ghost function Ranks(c: Config, s: State): (r: seq<nat>)
    requires WellFormed(c, s)
    ensures |r| == c.threads && forall t :: 0 <= t < c.threads ==> r[t] == Rank(c, s.threads[t])
  {
    seq(c.threads, t requires 0 <= t < c.threads => Rank(c, s.threads[t]))
  }

  lemma NextItemCounts(c: Config, th: Thread)
    requires Placed(c, th) && !Finished(c, th)
    ensures Placed(c, NextItem(c, th))
    ensures if Finished(c, NextItem(c, th)) then ItemsAfter(c, th) == 0
            else ItemsAfter(c, NextItem(c, th)) + 1 == ItemsAfter(c, th)
  {
    if th.part + 1 == c.parts && th.iter + 1 < c.iters {
      MulSucc(c.iters - th.iter - 2, c.parts);
    }
  }

  lemma ReleaseRank(c: Config, th: Thread)
    requires Placed(c, th) && !Finished(c, th) && th.pc.Announced?
    ensures Placed(c, NextItem(c, th)) && Rank(c, NextItem(c, th)) + 1 == Rank(c, th)
  {
    NextItemCounts(c, th);
    if !Finished(c, NextItem(c, th)) {
      MulSucc(ItemsAfter(c, th) - 1, LocalRank(c, Locking));
    }
  }

  /** A step that changes one thread changes the rank by as much as that thread's. */
  lemma OneThreadRank(c: Config, s: State, m: Move)
    requires WellFormed(c, s) && Enabled(c, s, m) && !m.a.Broadcast? && !m.a.Release?
    ensures WellFormed(c, Next(c, s, m))
    ensures var a, b := Rank(c, s.threads[m.t]), Rank(c, Next(c, s, m).threads[m.t]);
      && Sum(Ranks(c, Next(c, s, m))) == Sum(Ranks(c, s)) - a + b
      && (if m.a.Spurious? then b == a + 2 else b < a)
  {
    StepWellFormed(c, s, m);
    var v, w := Ranks(c, s), Ranks(c, Next(c, s, m));
    assert w == v[m.t := w[m.t]];
    SumUpdate(v, m.t, w[m.t]);
  }

  lemma ReleaseSum(c: Config, s: State, m: Move)
    requires WellFormed(c, s) && Enabled(c, s, m) && m.a.Release?
    ensures WellFormed(c, Next(c, s, m)) && Sum(Ranks(c, Next(c, s, m))) + 1 == Sum(Ranks(c, s))
  {
    StepWellFormed(c, s, m);
    ReleaseRank(c, s.threads[m.t]);
    var v, w := Ranks(c, s), Ranks(c, Next(c, s, m));
    assert w == v[m.t := w[m.t]];
    SumUpdate(v, m.t, w[m.t]);
  }

  lemma BroadcastSum(c: Config, s: State, m: Move)
    requires WellFormed(c, s) && Enabled(c, s, m) && m.a.Broadcast?
    ensures WellFormed(c, Next(c, s, m)) && Sum(Ranks(c, Next(c, s, m))) < Sum(Ranks(c, s))
  {
    StepWellFormed(c, s, m);
    var v, w := Ranks(c, s), Ranks(c, Next(c, s, m));
    assert w[m.t] + 2 * c.threads + 1 == v[m.t];
    SumUpdate(v, m.t, w[m.t]);
    SumGrowth(v[m.t := w[m.t]], w, 2);
  }

  /** Every step but a spurious wake-up uses up rank; a spurious wake-up gives back two. */
  lemma StepRank(c: Config, s: State, m: Move)
    requires WellFormed(c, s) && Enabled(c, s, m)
    ensures WellFormed(c, Next(c, s, m))
    ensures m.a.Spurious? ==> Sum(Ranks(c, Next(c, s, m))) == Sum(Ranks(c, s)) + 2
    ensures !m.a.Spurious? ==> Sum(Ranks(c, Next(c, s, m))) < Sum(Ranks(c, s))
  {
    match m.a
    case Release => ReleaseSum(c, s, m);
    case Broadcast => BroadcastSum(c, s, m);
    case _ => OneThreadRank(c, s, m);
  }

  ghost function SpuriousCount(moves: seq<Move>): nat {
    if moves == [] then 0 else One(moves[0].a.Spurious?) + SpuriousCount(moves[1..])
  }

  /** Termination: the length of any run is bounded by the rank of its first state and the
      number of spurious wake-ups in it. With Progress, a run with finitely many spurious
      wake-ups that never stops short of a possible step ends with all work done. */
  lemma {:induction false} RunBound(c: Config, s: State, moves: seq<Move>)
    requires Inv(c, s) && Legal(c, s, moves)
    ensures Inv(c, After(c, s, moves))
    ensures |moves| + Sum(Ranks(c, After(c, s, moves))) <= Sum(Ranks(c, s)) + 3 * SpuriousCount(moves)
    decreases |moves|
  {
    if moves != [] {
      StepInv(c, s, moves[0]);
      StepRank(c, s, moves[0]);
      RunBound(c, Next(c, s, moves[0]), moves[1..]);
    }
  }
}
