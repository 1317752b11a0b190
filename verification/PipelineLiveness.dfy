/** Infinite behaviours of the whole program: under a fair scheduler every run finishes, in
    a state of which the results about finished runs speak; and there are such behaviours. */
module PipelineLiveness {
  import opened Words
  import opened Wrappers
  import opened TurnProtocol
  import opened TurnLiveness
  import opened Pipeline

  /** At each instant one thread makes a move, with its effect on memory, or nothing happens. */
  ghost predicate SystemBehaviour(st: Setup, m0: seq<seq<byte>>, r: nat -> System, m: nat -> Option<Move>) {
    Ready(st, m0) && r(0) == SystemInit(st, m0) && forall i: nat :: SystemInstant(st, m0, r, m, i)
  }

  ghost predicate SystemInstant(st: Setup, m0: seq<seq<byte>>, r: nat -> System, m: nat -> Option<Move>, i: nat)
    requires Ready(st, m0)
  {
    match m(i)
    case None => r(i + 1) == r(i)
    case Some(x) =>
      SystemShape(st, r(i)) && Enabled(st.c, r(i).proto, x) && r(i + 1) == SystemNext(st, m0, r(i), x)
  }

  /** What the protocol sees of a behaviour. */
  ghost function Protocol(r: nat -> System): nat -> State {
    (i: nat) => r(i).proto
  }

  lemma ProtocolBehaves(st: Setup, m0: seq<seq<byte>>, r: nat -> System, m: nat -> Option<Move>)
    requires SystemBehaviour(st, m0, r, m)
    ensures Behaviour(st.c, Protocol(r), m)
  {
    forall i: nat ensures Instant(st.c, Protocol(r), m, i) {
      assert SystemInstant(st, m0, r, m, i);
    }
  }

  /** The moves made between two instants are a run from the one to the other. */
  lemma {:induction false} MovesBetween(st: Setup, m0: seq<seq<byte>>, r: nat -> System, m: nat -> Option<Move>,
                                        j: nat, i: nat)
    returns (moves: seq<Move>)
    requires SystemBehaviour(st, m0, r, m) && j <= i
    ensures SystemLegal(st, m0, r(j), moves) && SystemAfter(st, m0, r(j), moves) == r(i)
    decreases i - j
  {
    if j == i {
      moves := [];
    } else {
      moves := MovesBetween(st, m0, r, m, j + 1, i);
      assert SystemInstant(st, m0, r, m, j);
      if m(j).Some? {
        assert ([m(j).value] + moves)[1..] == moves;
        moves := [m(j).value] + moves;
      }
    }
  }

  /** Every fair behaviour of the whole program, with any number of spurious wake-ups, comes to
      an instant at which a finished run is behind it. */
  lemma FairBehavioursFinish(st: Setup, m0: seq<seq<byte>>, r: nat -> System, m: nat -> Option<Move>)
    returns (i: nat, moves: seq<Move>)
    requires SystemBehaviour(st, m0, r, m) && Fair(st.c, Protocol(r), m)
    ensures Finishes(st, m0, SystemInit(st, m0), moves, r(i))
  {
    ProtocolBehaves(st, m0, r, m);
    FairRunsFinish(st.c, Protocol(r), m);
    i :| AllFinished(st.c, Protocol(r)(i));
    moves := MovesBetween(st, m0, r, m, 0, i);
    SystemInitInv(st, m0);
    SystemRunInv(st, m0, SystemInit(st, m0), moves);
  }

  /** So at that instant every partition shows exactly N * I pieces of work. */
  lemma FairBehavioursCount(st: Setup, m0: seq<seq<byte>>, r: nat -> System, m: nat -> Option<Move>)
    returns (i: nat)
    requires SystemBehaviour(st, m0, r, m) && Fair(st.c, Protocol(r), m)
    ensures SystemShape(st, r(i)) && AllReturned(st, r(i))
    ensures forall q :: 0 <= q < st.c.parts ==>
              PartitionReady(st, st.parts[q], m0[q]) &&
              BaseCounted(st, st.parts[q], m0[q], r(i).mem[q], st.c.threads * st.c.iters)
  {
    var moves;
    i, moves := FairBehavioursFinish(st, m0, r, m);
    forall q | 0 <= q < st.c.parts
      ensures PartitionReady(st, st.parts[q], m0[q])
      ensures BaseCounted(st, st.parts[q], m0[q], r(i).mem[q], st.c.threads * st.c.iters)
    {
      AfterAllWork(st, m0, moves, r(i), q);
    }
  }

  // ---------------------------------------------------------------- a fair behaviour

  /** The state after the first i moves of a run, or after all of them. */
  ghost function StateAt(st: Setup, m0: seq<seq<byte>>, s: System, moves: seq<Move>, i: nat): System
    requires Ready(st, m0) && SystemLegal(st, m0, s, moves)
    decreases |moves|
  {
    if moves == [] || i == 0 then s else StateAt(st, m0, SystemNext(st, m0, s, moves[0]), moves[1..], i - 1)
  }

  lemma {:induction false} StateStep(st: Setup, m0: seq<seq<byte>>, s: System, moves: seq<Move>, i: nat)
    requires Ready(st, m0) && SystemLegal(st, m0, s, moves)
    ensures i >= |moves| ==>
              StateAt(st, m0, s, moves, i) == StateAt(st, m0, s, moves, i + 1) == SystemAfter(st, m0, s, moves)
    ensures i < |moves| ==>
              var d := StateAt(st, m0, s, moves, i);
              SystemShape(st, d) && Enabled(st.c, d.proto, moves[i])
              && StateAt(st, m0, s, moves, i + 1) == SystemNext(st, m0, d, moves[i])
    decreases |moves|
  {
    if moves != [] && i > 0 {
      StateStep(st, m0, SystemNext(st, m0, s, moves[0]), moves[1..], i - 1);
    }
  }

  ghost function MoveAt(moves: seq<Move>): nat -> Option<Move> {
    (i: nat) => if i < |moves| then Some(moves[i]) else None
  }

  ghost function BehaviourOf(st: Setup, m0: seq<seq<byte>>, moves: seq<Move>): nat -> System
    requires Ready(st, m0) && SystemLegal(st, m0, SystemInit(st, m0), moves)
  {
    (i: nat) => StateAt(st, m0, SystemInit(st, m0), moves, i)
  }

  /** A finished run with nothing after it is a fair behaviour: nobody can step any more. */
  lemma FinishedIsFair(st: Setup, m0: seq<seq<byte>>, moves: seq<Move>, s1: System)
    requires Finishes(st, m0, SystemInit(st, m0), moves, s1)
    ensures SystemBehaviour(st, m0, BehaviourOf(st, m0, moves), MoveAt(moves))
    ensures Fair(st.c, Protocol(BehaviourOf(st, m0, moves)), MoveAt(moves))
  {
    var r, m := BehaviourOf(st, m0, moves), MoveAt(moves);
    forall i: nat ensures SystemInstant(st, m0, r, m, i) {
      StateStep(st, m0, SystemInit(st, m0), moves, i);
    }
    forall t | 0 <= t < st.c.threads ensures !CanAgainAndAgain(st.c, Protocol(r), t) {
      forall i: nat | |moves| <= i ensures !CanAt(st.c, Protocol(r), t, i) {
        StateStep(st, m0, SystemInit(st, m0), moves, i);
        assert Finished(st.c, s1.proto.threads[t]);
      }
      assert !CanLater(st.c, Protocol(r), t, |moves|);
    }
  }

  /** So every set-up has a fair behaviour. */
  lemma SomeBehaviourIsFair(st: Setup, m0: seq<seq<byte>>) returns (r: nat -> System, m: nat -> Option<Move>)
    requires Ready(st, m0)
    ensures SystemBehaviour(st, m0, r, m) && Fair(st.c, Protocol(r), m)
  {
    var moves, s1 := SomeRunFinishes(st, m0);
    FinishedIsFair(st, m0, moves, s1);
    r, m := BehaviourOf(st, m0, moves), MoveAt(moves);
  }
}
