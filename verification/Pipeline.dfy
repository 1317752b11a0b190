/** The whole multiple_rdwr program: the turn-passing protocol with the memory its threads
    walk and count in. Each turn of a work loop is a step of its own, so steps of other
    threads come in between. */
module Pipeline {
  import opened Arithmetic
  import opened Words
  import opened MemLayout
  import opened Chase
  import opened ReadModifyWrite
  import opened Coverage
  import opened TurnProtocol
  import opened TurnRuns

  /** One partition: where it is, the list it holds, the offset of its half point, and, if that
      is a line, which one of the list. */
  datatype Partition = Partition(l: Layout, order: seq<nat>, half: nat, h: nat)

  datatype Setup = Setup(c: Config, mode: Mode, lines: nat, parts: seq<Partition>)

  datatype Pointers = Pointers(p: nat, p2: nat)

  /** `mem[q]` is the content of partition q and `ptr[t]` the local pointers of thread t;
      `base[q]` records the content when the last piece of work on q was completed. */
  datatype System = System(proto: State, mem: seq<seq<byte>>, ptr: seq<Pointers>, base: seq<seq<byte>>)

  ghost predicate PartitionReady(st: Setup, p: Partition, m0: seq<byte>) {
    && CountedRing(p.l, p.order) && IsCycle(p.l, m0, p.order)
    && |p.order| == st.lines && p.h < st.lines && p.half < p.l.Size()
    && (st.mode.DualStream? ==> p.order[p.h] == p.half)
  }

  /** All partitions hold circular lists of the same length, with room for the counters; the
      dual stream's half point is a line of its list. */
  ghost predicate Ready(st: Setup, m0: seq<seq<byte>>) {
    && st.c.Valid() && st.c.wraps && |st.parts| == st.c.parts == |m0|
    && st.c.turns == Turns(st.mode, st.lines)
    && forall q :: 0 <= q < st.c.parts ==> PartitionReady(st, st.parts[q], m0[q])
  }

  ghost predicate SystemShape(st: Setup, s: System) {
    Shape(st.c, s.proto) && |s.mem| == |s.base| == |st.parts| == st.c.parts && |s.ptr| == st.c.threads
  }

  /** The pointers with which work on a partition starts. */
  ghost function StartOf(st: Setup, p: Partition): Pointers
    requires CountedRing(p.l, p.order) && p.half < p.l.Size()
  {
    Pointers(p.l.AddrOf(p.order[0]), if st.mode.DualStream? then p.l.AddrOf(p.half) else 0)
  }

  /** A protocol step with its effect on memory and pointers. */
  ghost function SystemNext(st: Setup, m0: seq<seq<byte>>, s: System, m: Move): System
    requires Ready(st, m0) && SystemShape(st, s) && Enabled(st.c, s.proto, m)
  {
    var t := m.t;
    var th := s.proto.threads[t];
    var q := th.part;
    var next := s.(proto := Next(st.c, s.proto, m));
    match m.a
    case Test =>
      assert PartitionReady(st, st.parts[q], m0[q]);
      if s.proto.flow[q] == t then next.(ptr := s.ptr[t := StartOf(st, st.parts[q])]) else next
    case Turn =>
      var w := RmwStep(st.parts[q].l, st.mode, Cursor(s.mem[q], s.ptr[t].p, s.ptr[t].p2));
      next.(mem := s.mem[q := w.mem], ptr := s.ptr[t := Pointers(w.p, w.p2)])
    case IncrFlow => next.(base := s.base[q := s.mem[q]])
    case _ => next
  }

  ghost function SystemInit(st: Setup, m0: seq<seq<byte>>): System {
    System(Init(st.c), m0, seq(st.c.threads, _ => Pointers(0, 0)), m0)
  }

  // ---------------------------------------------------------------- invariant

  ghost function Times(w: nat, v: seq<nat>): (r: seq<nat>)
    ensures |r| == |v| && forall i :: 0 <= i < |v| ==> r[i] == w * v[i]
  {
    seq(|v|, i requires 0 <= i < |v| => w * v[i])
  }

  /** Thread t is at work on partition q. */
  predicate WorksAt(s: State, t: nat, q: nat) {
    t < |s.threads| && s.threads[t].part == q && s.threads[t].pc.Working?
  }

  /** Completed work shows in `base`: each list is intact and each counter has grown by the
      number of completed pieces of work times the visits of one piece. */
  ghost predicate BaseCounted(st: Setup, p: Partition, m0: seq<byte>, base: seq<byte>, w: nat)
    requires PartitionReady(st, p, m0)
  {
    && Counted(p.l, m0, base, p.order, Times(w, PassTally(st.mode, st.lines, p.h)))
    && IsCycle(p.l, base, p.order)
  }

  /** Memory differs from `base` only by what the thread at work has done so far. */
  ghost predicate WorkShows(st: Setup, m0: seq<seq<byte>>, s: System, q: nat)
    requires Ready(st, m0) && SystemShape(st, s) && q < st.c.parts
  {
    var p := st.parts[q];
    assert PartitionReady(st, p, m0[q]);
    && (forall t :: 0 <= t < st.c.threads && WorksAt(s.proto, t, q) ==>
          Walked(p.l, s.base[q], p.order, st.mode, p.h, s.proto.threads[t].pc.k,
                 Cursor(s.mem[q], s.ptr[t].p, s.ptr[t].p2)))
    && ((forall t :: 0 <= t < st.c.threads ==> !WorksAt(s.proto, t, q)) ==> s.mem[q] == s.base[q])
  }

  ghost predicate SystemInv(st: Setup, m0: seq<seq<byte>>, s: System)
    requires Ready(st, m0)
  {
    && SystemShape(st, s) && Inv(st.c, s.proto)
    && (forall q :: 0 <= q < st.c.parts ==>
          && PartitionReady(st, st.parts[q], m0[q])
          && BaseCounted(st, st.parts[q], m0[q], s.base[q], |s.proto.log[q]|))
    && (forall q :: 0 <= q < st.c.parts ==> WorkShows(st, m0, s, q))
  }

  lemma SystemInitInv(st: Setup, m0: seq<seq<byte>>)
    requires Ready(st, m0)
    ensures SystemInv(st, m0, SystemInit(st, m0))
  {
    InitInv(st.c);
    forall q | 0 <= q < st.c.parts
      ensures PartitionReady(st, st.parts[q], m0[q]) && BaseCounted(st, st.parts[q], m0[q], m0[q], 0)
    {
      var p := st.parts[q];
      CountedNothing(p.l, m0[q], p.order);
      assert Times(0, PassTally(st.mode, st.lines, p.h)) == Zeros(st.lines);
    }
  }

  /** One more completed piece of work. */
  lemma BaseStep(st: Setup, p: Partition, m0: seq<byte>, base: seq<byte>, mem: seq<byte>, w: nat)
    requires PartitionReady(st, p, m0) && BaseCounted(st, p, m0, base, w)
    requires Counted(p.l, base, mem, p.order, PassTally(st.mode, st.lines, p.h))
    ensures BaseCounted(st, p, m0, mem, w + 1)
  {
    var v := PassTally(st.mode, st.lines, p.h);
    CountedCompose(p.l, m0, base, mem, p.order, Times(w, v), v);
    CountedKeepsCycle(p.l, base, mem, p.order, v);
    TimesSucc(w, v);
  }

  lemma TimesSucc(w: nat, v: seq<nat>)
    ensures Times(w + 1, v) == Plus(Times(w, v), v)
  {
    forall i | 0 <= i < |v| ensures Times(w + 1, v)[i] == Plus(Times(w, v), v)[i] {
      MulSucc(w, v[i]);
    }
  }

  /** The protocol admits one thread at work on a partition. */
  lemma OneWorker(c: Config, s: State, t: nat, u: nat, q: nat)
    requires Inv(c, s) && q < c.parts && t < c.threads && u < c.threads && WorksAt(s, t, q) && WorksAt(s, u, q)
    ensures t == u && s.flow[q] == t && s.threads[t].pc.k <= c.turns
  {}

  /** What a step does to who is at work where. */
  lemma WorkersAfter(c: Config, s: State, m: Move, u: nat, q: nat)
    requires Inv(c, s) && Enabled(c, s, m) && u < c.threads && q < c.parts
    ensures |Next(c, s, m).threads| == c.threads
    ensures u != m.t ==> WorksAt(Next(c, s, m), u, q) == WorksAt(s, u, q)
    ensures u != m.t && WorksAt(s, u, q) ==> Next(c, s, m).threads[u] == s.threads[u]
    ensures u == m.t && q != s.threads[u].part ==> !WorksAt(Next(c, s, m), u, q) && !WorksAt(s, u, q)
  {}

  /** A step of a thread placed elsewhere leaves partition q alone. */
  lemma StepElsewhere(st: Setup, m0: seq<seq<byte>>, s: System, m: Move, q: nat)
    requires Ready(st, m0) && SystemInv(st, m0, s) && Enabled(st.c, s.proto, m) && q < st.c.parts
    requires s.proto.threads[m.t].part != q
    ensures SystemShape(st, SystemNext(st, m0, s, m)) && WorkShows(st, m0, SystemNext(st, m0, s, m), q)
  {
    var s' := SystemNext(st, m0, s, m);
    forall u | 0 <= u < st.c.threads
      ensures WorksAt(s'.proto, u, q) == WorksAt(s.proto, u, q)
      ensures WorksAt(s.proto, u, q) ==> s'.proto.threads[u] == s.proto.threads[u] && s'.ptr[u] == s.ptr[u]
    {
      WorkersAfter(st.c, s.proto, m, u, q);
    }
    assert WorkShows(st, m0, s, q);
  }

  /** Steps on partition q that neither start, continue nor complete work. */
  lemma StepOutsideWork(st: Setup, m0: seq<seq<byte>>, s: System, m: Move, q: nat)
    requires Ready(st, m0) && SystemInv(st, m0, s) && Enabled(st.c, s.proto, m) && q < st.c.parts
    requires s.proto.threads[m.t].part == q
    requires !m.a.Turn? && !m.a.IncrFlow? && !(m.a.Test? && s.proto.flow[q] == m.t)
    ensures SystemShape(st, SystemNext(st, m0, s, m)) && WorkShows(st, m0, SystemNext(st, m0, s, m), q)
  {
    var s' := SystemNext(st, m0, s, m);
    forall u | 0 <= u < st.c.threads
      ensures WorksAt(s'.proto, u, q) == WorksAt(s.proto, u, q)
      ensures WorksAt(s.proto, u, q) ==> s'.proto.threads[u] == s.proto.threads[u] && s'.ptr[u] == s.ptr[u]
    {
      WorkersAfter(st.c, s.proto, m, u, q);
    }
    assert WorkShows(st, m0, s, q);
  }

  /** The test succeeds: work starts from the entry points of the partition. */
  lemma StepStartsWork(st: Setup, m0: seq<seq<byte>>, s: System, m: Move, q: nat)
    requires Ready(st, m0) && SystemInv(st, m0, s) && Enabled(st.c, s.proto, m) && q < st.c.parts
    requires s.proto.threads[m.t].part == q && m.a.Test? && s.proto.flow[q] == m.t
    ensures SystemShape(st, SystemNext(st, m0, s, m)) && WorkShows(st, m0, SystemNext(st, m0, s, m), q)
  {
    var s' := SystemNext(st, m0, s, m);
    var p := st.parts[q];
    forall u | 0 <= u < st.c.threads ensures WorksAt(s'.proto, u, q) <==> u == m.t {
      WorkersAfter(st.c, s.proto, m, u, q);
    }
    forall u | 0 <= u < st.c.threads ensures !WorksAt(s.proto, u, q) {}
    assert WorkShows(st, m0, s, q);
    assert BaseCounted(st, p, m0[q], s.base[q], |s.proto.log[q]|);
    WalkStart(p.l, s.base[q], p.order, st.mode, p.h, s'.ptr[m.t].p2);
  }

  /** One turn of the work loop. */
  lemma StepWorks(st: Setup, m0: seq<seq<byte>>, s: System, m: Move, q: nat)
    requires Ready(st, m0) && SystemInv(st, m0, s) && Enabled(st.c, s.proto, m) && q < st.c.parts
    requires s.proto.threads[m.t].part == q && m.a.Turn?
    ensures SystemShape(st, SystemNext(st, m0, s, m)) && WorkShows(st, m0, SystemNext(st, m0, s, m), q)
  {
    hide Walked, RmwStep, Counted, IsCycle, CountedRing, Inv;
    var s' := SystemNext(st, m0, s, m);
    var p, t := st.parts[q], m.t;
    forall u | 0 <= u < st.c.threads ensures WorksAt(s'.proto, u, q) <==> u == t {
      WorkersAfter(st.c, s.proto, m, u, q);
      if WorksAt(s.proto, u, q) {
        OneWorker(st.c, s.proto, t, u, q);
      }
    }
    assert WorkShows(st, m0, s, q);
    assert BaseCounted(st, p, m0[q], s.base[q], |s.proto.log[q]|);
    var before := Cursor(s.mem[q], s.ptr[t].p, s.ptr[t].p2);
    var after := RmwStep(p.l, st.mode, before);
    assert after == Cursor(after.mem, after.p, after.p2);
    assert s'.mem[q] == after.mem && s'.ptr[t] == Pointers(after.p, after.p2) && s'.base[q] == s.base[q];
    assert s'.proto.threads[t].pc == Working(s.proto.threads[t].pc.k + 1);
    assert Cursor(s'.mem[q], s'.ptr[t].p, s'.ptr[t].p2) == after;
    WalkStep(p.l, s.base[q], p.order, st.mode, p.h, s.proto.threads[t].pc.k, before);
  }

  /** Work is complete: all its visits are in memory, and count as done. */
  lemma StepCompletes(st: Setup, m0: seq<seq<byte>>, s: System, m: Move, q: nat)
    requires Ready(st, m0) && SystemInv(st, m0, s) && Enabled(st.c, s.proto, m) && q < st.c.parts
    requires s.proto.threads[m.t].part == q && m.a.IncrFlow?
    ensures SystemShape(st, SystemNext(st, m0, s, m)) && WorkShows(st, m0, SystemNext(st, m0, s, m), q)
    ensures PartitionReady(st, st.parts[q], m0[q])
    ensures BaseCounted(st, st.parts[q], m0[q], s.mem[q], |s.proto.log[q]| + 1)
  {
    hide RmwStep, Counted, IsCycle, CountedRing, Inv;
    var s' := SystemNext(st, m0, s, m);
    var p, t := st.parts[q], m.t;
    forall u | 0 <= u < st.c.threads ensures !WorksAt(s'.proto, u, q) {
      WorkersAfter(st.c, s.proto, m, u, q);
      if WorksAt(s.proto, u, q) {
        OneWorker(st.c, s.proto, t, u, q);
      }
    }
    OneWorker(st.c, s.proto, t, t, q);
    assert WorkShows(st, m0, s, q);
    assert BaseCounted(st, p, m0[q], s.base[q], |s.proto.log[q]|);
    BaseStep(st, p, m0[q], s.base[q], s.mem[q], |s.proto.log[q]|);
  }

  lemma StepShows(st: Setup, m0: seq<seq<byte>>, s: System, m: Move, q: nat)
    requires Ready(st, m0) && SystemInv(st, m0, s) && Enabled(st.c, s.proto, m) && q < st.c.parts
    ensures SystemShape(st, SystemNext(st, m0, s, m)) && WorkShows(st, m0, SystemNext(st, m0, s, m), q)
  {
    if s.proto.threads[m.t].part != q {
      StepElsewhere(st, m0, s, m, q);
    } else if m.a.Turn? {
      StepWorks(st, m0, s, m, q);
    } else if m.a.IncrFlow? {
      StepCompletes(st, m0, s, m, q);
    } else if m.a.Test? && s.proto.flow[q] == m.t {
      StepStartsWork(st, m0, s, m, q);
    } else {
      StepOutsideWork(st, m0, s, m, q);
    }
  }

  lemma StepBase(st: Setup, m0: seq<seq<byte>>, s: System, m: Move, q: nat)
    requires Ready(st, m0) && SystemInv(st, m0, s) && Enabled(st.c, s.proto, m) && q < st.c.parts
    ensures SystemShape(st, SystemNext(st, m0, s, m)) && PartitionReady(st, st.parts[q], m0[q])
    ensures var s' := SystemNext(st, m0, s, m);
      BaseCounted(st, st.parts[q], m0[q], s'.base[q], |s'.proto.log[q]|)
  {
    if m.a.IncrFlow? && s.proto.threads[m.t].part == q {
      StepCompletes(st, m0, s, m, q);
    }
    assert BaseCounted(st, st.parts[q], m0[q], s.base[q], |s.proto.log[q]|);
  }

  lemma SystemStepInv(st: Setup, m0: seq<seq<byte>>, s: System, m: Move)
    requires Ready(st, m0) && SystemInv(st, m0, s) && Enabled(st.c, s.proto, m)
    ensures SystemInv(st, m0, SystemNext(st, m0, s, m))
  {
    StepInv(st.c, s.proto, m);
    var s' := SystemNext(st, m0, s, m);
    forall q | 0 <= q < st.c.parts
      ensures SystemShape(st, s') && WorkShows(st, m0, s', q)
      ensures PartitionReady(st, st.parts[q], m0[q])
      ensures BaseCounted(st, st.parts[q], m0[q], s'.base[q], |s'.proto.log[q]|)
    {
      StepShows(st, m0, s, m, q);
      StepBase(st, m0, s, m, q);
    }
  }

  // ---------------------------------------------------------------- whole runs

  ghost predicate SystemLegal(st: Setup, m0: seq<seq<byte>>, s: System, moves: seq<Move>)
    requires Ready(st, m0)
    decreases |moves|
  {
    moves == [] ||
    (SystemShape(st, s) && Enabled(st.c, s.proto, moves[0])
      && SystemLegal(st, m0, SystemNext(st, m0, s, moves[0]), moves[1..]))
  }

  ghost function SystemAfter(st: Setup, m0: seq<seq<byte>>, s: System, moves: seq<Move>): System
    requires Ready(st, m0) && SystemLegal(st, m0, s, moves)
    decreases |moves|
  {
    if moves == [] then s else SystemAfter(st, m0, SystemNext(st, m0, s, moves[0]), moves[1..])
  }

  lemma {:induction false} SystemRunInv(st: Setup, m0: seq<seq<byte>>, s: System, moves: seq<Move>)
    requires Ready(st, m0) && SystemInv(st, m0, s) && SystemLegal(st, m0, s, moves)
    ensures SystemInv(st, m0, SystemAfter(st, m0, s, moves))
    decreases |moves|
  {
    if moves != [] {
      SystemStepInv(st, m0, s, moves[0]);
      SystemRunInv(st, m0, SystemNext(st, m0, s, moves[0]), moves[1..]);
    }
  }

  /** Memory never influences the protocol: a system run is a protocol run. */
  lemma {:induction false} SystemRunIsRun(st: Setup, m0: seq<seq<byte>>, s: System, moves: seq<Move>)
    requires Ready(st, m0) && SystemLegal(st, m0, s, moves)
    ensures Legal(st.c, s.proto, moves)
    ensures SystemAfter(st, m0, s, moves).proto == After(st.c, s.proto, moves)
    decreases |moves|
  {
    if moves != [] {
      SystemRunIsRun(st, m0, SystemNext(st, m0, s, moves[0]), moves[1..]);
    }
  }

  ghost predicate AllReturned(st: Setup, s: System)
    requires SystemShape(st, s)
  {
    forall t :: 0 <= t < st.c.threads ==> Finished(st.c, s.proto.threads[t])
  }

  /** A run of all threads from state s that ends with all of them returned, in state s1. */
  ghost predicate Finishes(st: Setup, m0: seq<seq<byte>>, s: System, moves: seq<Move>, s1: System) {
    Ready(st, m0) && SystemLegal(st, m0, s, moves) && s1 == SystemAfter(st, m0, s, moves) &&
    SystemShape(st, s1) && AllReturned(st, s1)
  }

  /** The next run: main creates the threads anew. Mutexes, flow steps and memory are as the
      last run left them; what is kept for the proof starts afresh. */
  ghost function Respawn(st: Setup, s: System): System
    requires SystemShape(st, s)
  {
    System(State(Init(st.c).threads, s.proto.owner, s.proto.flow, Init(st.c).log),
           s.mem, seq(st.c.threads, _ => Pointers(0, 0)), s.mem)
  }

  /** From every reachable state some run, without spurious wake-ups, brings all threads home. */
  lemma {:induction false} CanFinish(st: Setup, m0: seq<seq<byte>>, s: System) returns (moves: seq<Move>)
    requires Ready(st, m0) && SystemInv(st, m0, s)
    ensures SystemLegal(st, m0, s, moves)
    ensures var s' := SystemAfter(st, m0, s, moves); SystemShape(st, s') && AllReturned(st, s')
    decreases Sum(Ranks(st.c, s.proto))
  {
    hide WorkShows, BaseCounted, PartitionReady, Locks, InTurn, Ordered, NoLostWakeup;
    if AllReturned(st, s) {
      moves := [];
    } else {
      var t, u := Progress(st.c, s.proto);
      var m := Move(u, Action0(st.c, s.proto.threads[u].pc));
      CanStepEnabled(st.c, s.proto, u);
      SystemStepInv(st, m0, s, m);
      StepRank(st.c, s.proto, m);
      var rest := CanFinish(st, m0, SystemNext(st, m0, s, m));
      moves := [m] + rest;
      assert moves[1..] == rest;
    }
  }

  /** So a finished run, of which the results below speak, exists for every set-up. */
  lemma SomeRunFinishes(st: Setup, m0: seq<seq<byte>>) returns (moves: seq<Move>, s1: System)
    requires Ready(st, m0)
    ensures Finishes(st, m0, SystemInit(st, m0), moves, s1)
  {
    SystemInitInv(st, m0);
    moves := CanFinish(st, m0, SystemInit(st, m0));
    s1 := SystemAfter(st, m0, SystemInit(st, m0), moves);
  }

  /** The content of a partition after all threads have returned: each line's counter has
      grown by N * I times its visits in one piece of work, and every other byte, the links
      among them, is as it was. No interleaving matters. */
  lemma AfterAllWork(st: Setup, m0: seq<seq<byte>>, moves: seq<Move>, s1: System, q: nat)
    requires Finishes(st, m0, SystemInit(st, m0), moves, s1) && q < st.c.parts
    ensures PartitionReady(st, st.parts[q], m0[q])
    ensures BaseCounted(st, st.parts[q], m0[q], s1.mem[q], st.c.threads * st.c.iters)
  {
    SystemInitInv(st, m0);
    SystemRunInv(st, m0, SystemInit(st, m0), moves);
    EndOfRun(st.c, s1.proto, q);
    assert BaseCounted(st, st.parts[q], m0[q], s1.base[q], |s1.proto.log[q]|);
    assert WorkShows(st, m0, s1, q);
    forall t | 0 <= t < st.c.threads ensures !WorksAt(s1.proto, t, q) {
      assert Placed(st.c, s1.proto.threads[t]);
    }
  }

  /** What a finished run leaves is ready for the next run: the lists are intact, and with the
      mutexes free and the flow steps back at 0 the threads created anew start where those of
      the first run started. */
  lemma ReadyAgain(st: Setup, m0: seq<seq<byte>>, moves: seq<Move>, s1: System)
    requires Finishes(st, m0, SystemInit(st, m0), moves, s1)
    ensures Ready(st, s1.mem) && Respawn(st, s1) == SystemInit(st, s1.mem)
  {
    forall q | 0 <= q < st.c.parts ensures PartitionReady(st, st.parts[q], s1.mem[q]) {
      AfterAllWork(st, m0, moves, s1, q);
    }
    SystemInitInv(st, m0);
    SystemRunInv(st, m0, SystemInit(st, m0), moves);
    forall q | 0 <= q < st.c.parts ensures s1.proto.owner[q].None? && s1.proto.flow[q] == 0 {
      EndOfRun(st.c, s1.proto, q);
    }
    assert s1.proto.owner == Init(st.c).owner && s1.proto.flow == Init(st.c).flow;
  }

  /** Warm-up and main measurement: the second run starts from the memory, the flow steps and
      the mutexes that the first one leaves, and doubles the counts. */
  lemma AfterBothRuns(st: Setup, m0: seq<seq<byte>>, warm: seq<Move>, s1: System,
                      main: seq<Move>, s2: System, q: nat)
    requires Finishes(st, m0, SystemInit(st, m0), warm, s1)
    requires Finishes(st, s1.mem, Respawn(st, s1), main, s2) && q < st.c.parts
    ensures PartitionReady(st, st.parts[q], m0[q])
    ensures BaseCounted(st, st.parts[q], m0[q], s2.mem[q], 2 * (st.c.threads * st.c.iters))
  {
    hide BaseCounted, PartitionReady, Respawn, SystemInit, SystemLegal;
    var w := st.c.threads * st.c.iters;
    ReadyAgain(st, m0, warm, s1);
    AfterAllWork(st, m0, warm, s1, q);
    AfterAllWork(st, s1.mem, main, s2, q);
    BaseCompose(st, st.parts[q], m0[q], s1.mem[q], s2.mem[q], w, w);
  }

  lemma BaseCompose(st: Setup, p: Partition, m0: seq<byte>, m1: seq<byte>, m2: seq<byte>, a: nat, b: nat)
    requires PartitionReady(st, p, m0) && BaseCounted(st, p, m0, m1, a)
    requires PartitionReady(st, p, m1) && BaseCounted(st, p, m1, m2, b)
    ensures BaseCounted(st, p, m0, m2, a + b)
  {
    var v := PassTally(st.mode, st.lines, p.h);
    CountedCompose(p.l, m0, m1, m2, p.order, Times(a, v), Times(b, v));
    TimesAdd(a, b, v);
  }

  lemma TimesAdd(a: nat, b: nat, v: seq<nat>)
    ensures Times(a + b, v) == Plus(Times(a, v), Times(b, v))
  {
    forall i | 0 <= i < |v| ensures Times(a + b, v)[i] == Plus(Times(a, v), Times(b, v))[i] {
      assert (a + b) * v[i] == a * v[i] + b * v[i];
    }
  }

  /** One piece of work visits every line once. */
  lemma VisitsOnce(mode: Mode, n: nat, h: nat, k: nat)
    requires k < n && h < n
    requires mode.SingleStream? || (mode.DualStream? && n % 2 == 0 && h == n / 2)
    ensures PassTally(mode, n, h)[k] == 1
  {
    if mode.SingleStream? {
      SingleExact(n, h, k);
    } else {
      DualExact(n, h);
    }
  }

  lemma CountAt(l: Layout, m0: seq<byte>, m: seq<byte>, order: seq<nat>, w: nat, v: seq<nat>, k: nat)
    requires CountedRing(l, order) && Counted(l, m0, m, order, Times(w, v)) && k < |order| && v[k] == 1
    ensures order[k] + LINE_MIN <= |m| == |m0|
    ensures Word(m, order[k] + COUNTER) == AddWord(Word(m0, order[k] + COUNTER), w)
  {
    assert Times(w, v)[k] == w;
  }

  /** A line is at one position only: if the half point is the middle line, it is the h-th. */
  lemma MiddleLine(st: Setup, p: Partition, m0: seq<byte>)
    requires PartitionReady(st, p, m0)
    ensures st.mode.DualStream? && p.half == p.order[st.lines / 2] ==> p.h == st.lines / 2
  {
    var k := st.lines / 2;
    assert k < p.h ==> p.order[k] + WORD <= p.order[p.h] || p.order[p.h] + WORD <= p.order[k];
    assert p.h < k ==> p.order[k] + WORD <= p.order[p.h] || p.order[p.h] + WORD <= p.order[k];
  }

  /** Then w pieces add w to every counter, modulo the word size, and leave every link. */
  lemma UniformCounts(st: Setup, p: Partition, m0: seq<byte>, m: seq<byte>, w: nat, k: nat)
    requires PartitionReady(st, p, m0) && BaseCounted(st, p, m0, m, w) && k < st.lines
    requires st.mode.SingleStream? ||
             (st.mode.DualStream? && st.lines % 2 == 0 && p.half == p.order[st.lines / 2])
    ensures p.order[k] + LINE_MIN <= |m| == |m0|
    ensures Word(m, p.order[k] + COUNTER) == AddWord(Word(m0, p.order[k] + COUNTER), w)
    ensures Word(m, p.order[k]) == Word(m0, p.order[k])
  {
    hide Counted, IsCycle, Word, AddWord, PassTally;
    MiddleLine(st, p, m0);
    var v := PassTally(st.mode, st.lines, p.h);
    VisitsOnce(st.mode, st.lines, p.h, k);
    CountAt(p.l, m0, m, p.order, w, v, k);
    CountedKeepsCycle(p.l, m0, m, p.order, Times(w, v));
  }

  /** From cleared counters: after one run every counter is N * I, after two 2 * N * I, modulo
      the word size, and the links are the ones there were before. */
  lemma BothRunsFromZero(st: Setup, m0: seq<seq<byte>>, warm: seq<Move>, s1: System,
                         main: seq<Move>, s2: System, q: nat, k: nat)
    requires Finishes(st, m0, SystemInit(st, m0), warm, s1)
    requires Finishes(st, s1.mem, Respawn(st, s1), main, s2) && q < st.c.parts && k < st.lines
    requires st.mode.SingleStream? ||
             (st.mode.DualStream? && st.lines % 2 == 0 && st.parts[q].half == st.parts[q].order[st.lines / 2])
    requires PartitionReady(st, st.parts[q], m0[q]) && Word(m0[q], st.parts[q].order[k] + COUNTER) == 0
    ensures var o, w := st.parts[q].order[k], st.c.threads * st.c.iters;
      && o + LINE_MIN <= |m0[q]| == |s1.mem[q]| == |s2.mem[q]|
      && Word(s1.mem[q], o + COUNTER) == w % TWO64 && Word(s2.mem[q], o + COUNTER) == (2 * w) % TWO64
      && Word(s1.mem[q], o) == Word(m0[q], o) && Word(s2.mem[q], o) == Word(m0[q], o)
  {
    hide BaseCounted, Word, SystemLegal, SystemInit, Respawn;
    var w := st.c.threads * st.c.iters;
    AfterAllWork(st, m0, warm, s1, q);
    AfterBothRuns(st, m0, warm, s1, main, s2, q);
    UniformCounts(st, st.parts[q], m0[q], s1.mem[q], w, k);
    UniformCounts(st, st.parts[q], m0[q], s2.mem[q], 2 * w, k);
  }
}
