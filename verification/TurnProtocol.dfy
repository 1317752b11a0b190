/** The turn-passing protocol of thread_rmw (src/coherence/multiple_rdwr.cc): every partition
    has a mutex, a condition variable and a flow step that says whose turn it is. Each step
    below is one action of one thread, and any thread may take the next one. With one
    partition, one iteration and a flow step that is never reduced it is the protocol of
    thread_work in src/misc/pthread_mutex.cc. */
module TurnProtocol {
  import opened Arithmetic
  import opened Wrappers

  /** `turns` is how many steps the work under the lock takes; `wraps` says that the flow
      step is counted modulo the number of threads. */
  datatype Config = Config(threads: nat, parts: nat, iters: nat, turns: nat, wraps: bool) {
    ghost predicate Valid() {
      threads > 0 && (!wraps ==> iters <= 1)
    }

    /** incrFlowStep, or the plain increment. */
    function Incr(step: nat): nat
      requires threads > 0
    {
      if wraps then (step + 1) % threads else step + 1
    }
  }

  /** Locking: about to lock the mutex of its partition. Testing: holds it and is about to
      compare the flow step. Asleep: in the wait, without the mutex. Woken: out of the wait,
      about to lock again. Working(k): holds the mutex, k steps done. Bumped: has advanced
      the flow step. Announced: has broadcast. */
  datatype Pc = Locking | Testing | Asleep | Woken | Working(k: nat) | Bumped | Announced {
    predicate Holds() { Testing? || Working? || Bumped? || Announced? }
    predicate Past() { Bumped? || Announced? }
  }

  datatype Thread = Thread(iter: nat, part: nat, pc: Pc)

  /** `log[q]` lists, in order, the threads that have completed their work on partition q. */
  datatype State = State(threads: seq<Thread>, owner: seq<Option<nat>>, flow: seq<nat>, log: seq<seq<nat>>)

  datatype Action = Acquire | Test | Spurious | Turn | IncrFlow | Broadcast | Release
  datatype Move = Move(t: nat, a: Action)

  predicate Finished(c: Config, th: Thread) {
    th.iter >= c.iters || c.parts == 0
  }

  predicate Shape(c: Config, s: State) {
    |s.threads| == c.threads && |s.owner| == |s.flow| == |s.log| == c.parts
  }

  /** A thread is inside the loops it runs. */
  predicate Placed(c: Config, th: Thread) {
    if th.iter < c.iters then (c.parts > 0 ==> th.part < c.parts)
    else th.iter == c.iters && th.part == 0 && th.pc.Locking?
  }

  ghost predicate WellFormed(c: Config, s: State) {
    c.Valid() && Shape(c, s) && forall t :: 0 <= t < c.threads ==> Placed(c, s.threads[t])
  }

  predicate Enabled(c: Config, s: State, m: Move)
    requires Shape(c, s)
  {
    m.t < c.threads && Placed(c, s.threads[m.t]) && !Finished(c, s.threads[m.t]) &&
    var th := s.threads[m.t];
    match m.a
    case Acquire => (th.pc.Locking? || th.pc.Woken?) && s.owner[th.part].None?
    case Test => th.pc.Testing?
    case Spurious => th.pc.Asleep?
    case Turn => th.pc.Working? && th.pc.k < c.turns
    case IncrFlow => th.pc.Working? && th.pc.k >= c.turns
    case Broadcast => th.pc.Bumped?
    case Release => th.pc.Announced?
  }

  /** The next pass of the inner loop over partitions, or of the outer one. */
  function NextItem(c: Config, th: Thread): Thread {
    if th.part + 1 < c.parts then Thread(th.iter, th.part + 1, Locking) else Thread(th.iter + 1, 0, Locking)
  }

  function Wake(th: Thread, q: nat): Thread {
    if th.pc.Asleep? && th.part == q then th.(pc := Woken) else th
  }

  function SetPc(s: State, t: nat, pc: Pc): State
    requires t < |s.threads|
  {
    s.(threads := s.threads[t := s.threads[t].(pc := pc)])
  }

  function Next(c: Config, s: State, m: Move): State
    requires c.threads > 0 && Shape(c, s) && Enabled(c, s, m)
  {
    var t := m.t;
    var th := s.threads[t];
    var q := th.part;
    match m.a
    case Acquire => SetPc(s, t, Testing).(owner := s.owner[q := Some(t)])
    case Test =>
      if s.flow[q] == t then SetPc(s, t, Working(0))
      else SetPc(s, t, Asleep).(owner := s.owner[q := None])
    case Spurious => SetPc(s, t, Woken)
    case Turn => SetPc(s, t, Working(th.pc.k + 1))
    case IncrFlow =>
      SetPc(s, t, Bumped).(flow := s.flow[q := c.Incr(s.flow[q])], log := s.log[q := s.log[q] + [t]])
    case Broadcast =>
      s.(threads := seq(|s.threads|, u requires 0 <= u < |s.threads| =>
        if u == t then th.(pc := Announced) else Wake(s.threads[u], q)))
    case Release => s.(threads := s.threads[t := NextItem(c, th)], owner := s.owner[q := None])
  }

  /** Before the threads are created: nobody has run, all flow steps are 0. */
  function Init(c: Config): State {
    State(seq(c.threads, _ => Thread(0, 0, Locking)),
          seq(c.parts, _ => None), seq(c.parts, _ => 0), seq(c.parts, _ => []))
  }

  // ---------------------------------------------------------------- invariant

  /** How many times a thread has advanced the flow step of partition q. */
  function Done(th: Thread, q: nat): nat {
    th.iter + One(q < th.part) + One(q == th.part && th.pc.Past())
  }

  /** The flow step after w completed pieces of work. */
  function FlowAfter(c: Config, w: nat): nat
    requires c.threads > 0
  {
    if c.wraps then w % c.threads else w
  }

  /** Mutexes are held by exactly the threads that are between lock and unlock. */
  ghost predicate Locks(c: Config, s: State)
    requires WellFormed(c, s)
  {
    && (forall t :: 0 <= t < c.threads && s.threads[t].pc.Holds() && c.parts > 0 ==>
          s.owner[s.threads[t].part] == Some(t))
    && (forall q :: 0 <= q < c.parts && s.owner[q].Some? ==>
          var t := s.owner[q].value;
          t < c.threads && s.threads[t].part == q && s.threads[t].pc.Holds())
  }

  /** Only the thread whose turn it is works. */
  ghost predicate InTurn(c: Config, s: State)
    requires WellFormed(c, s)
  {
    forall t :: 0 <= t < c.threads && s.threads[t].pc.Working? && c.parts > 0 ==>
      s.flow[s.threads[t].part] == t && s.threads[t].pc.k <= c.turns
  }

  /** How many of the first w turns of a ring of n threads are thread t's. */
  function Share(w: nat, n: nat, t: nat): nat
    requires n > 0
  {
    w / n + One(t < w % n)
  }

  /** Work on a partition is completed by threads 0, 1, ..., n - 1, 0, 1, ... */
  ghost predicate OrderedOn(c: Config, s: State, q: nat)
    requires WellFormed(c, s) && q < c.parts
  {
    && s.flow[q] == FlowAfter(c, |s.log[q]|)
    && (forall k :: 0 <= k < |s.log[q]| ==> s.log[q][k] == k % c.threads)
    && (forall t :: 0 <= t < c.threads ==> Done(s.threads[t], q) == Share(|s.log[q]|, c.threads, t))
  }

  ghost predicate Ordered(c: Config, s: State)
    requires WellFormed(c, s)
  {
    forall q :: 0 <= q < c.parts ==> OrderedOn(c, s, q)
  }

  /** No lost wake-up: a thread sleeps through its own turn only while the holder of the
      mutex is between advancing the flow step and broadcasting. */
  ghost predicate NoLostWakeup(c: Config, s: State)
    requires WellFormed(c, s)
  {
    forall t :: 0 <= t < c.threads && s.threads[t].pc.Asleep? && c.parts > 0
                && s.flow[s.threads[t].part] == t ==>
      var o := s.owner[s.threads[t].part];
      o.Some? && o.value < c.threads && s.threads[o.value].pc.Bumped?
  }

  ghost predicate Inv(c: Config, s: State) {
    WellFormed(c, s) && Locks(c, s) && InTurn(c, s) && Ordered(c, s) && NoLostWakeup(c, s)
  }

  lemma InitInv(c: Config)
    requires c.Valid()
    ensures Inv(c, Init(c))
  {
    DivModUnique(0, c.threads, 0, 0);
  }

  lemma StepWellFormed(c: Config, s: State, m: Move)
    requires WellFormed(c, s) && Enabled(c, s, m)
    ensures WellFormed(c, Next(c, s, m))
  {}

  lemma StepLocks(c: Config, s: State, m: Move)
    requires WellFormed(c, s) && Enabled(c, s, m) && Locks(c, s)
    ensures WellFormed(c, Next(c, s, m)) && Locks(c, Next(c, s, m))
  {
    StepWellFormed(c, s, m);
  }

  lemma StepInTurn(c: Config, s: State, m: Move)
    requires WellFormed(c, s) && Enabled(c, s, m) && Locks(c, s) && InTurn(c, s)
    ensures WellFormed(c, Next(c, s, m)) && InTurn(c, Next(c, s, m))
  {
    StepWellFormed(c, s, m);
  }

  lemma StepNoLostWakeup(c: Config, s: State, m: Move)
    requires WellFormed(c, s) && Enabled(c, s, m) && Locks(c, s) && NoLostWakeup(c, s)
    ensures WellFormed(c, Next(c, s, m)) && NoLostWakeup(c, Next(c, s, m))
  {
    StepWellFormed(c, s, m);
  }

  /** Done counts the completed work of one thread on one partition. */
  lemma DoneAfter(c: Config, s: State, m: Move, t: nat, q: nat)
    requires WellFormed(c, s) && Enabled(c, s, m) && t < c.threads && q < c.parts
    ensures |Next(c, s, m).threads| == c.threads
    ensures Done(Next(c, s, m).threads[t], q) ==
            Done(s.threads[t], q) + One(m.a.IncrFlow? && t == m.t && q == s.threads[t].part)
  {}

  lemma ShareStep(w: nat, n: nat, t: nat)
    requires t < n
    ensures Share(w + 1, n, t) == Share(w, n, t) + One(t == w % n)
  {
    DivModSucc(w, n);
  }

  /** The thread that works is the one the count of completed work points at. */
  lemma WorkerIsNext(c: Config, s: State, t: nat)
    requires WellFormed(c, s) && InTurn(c, s) && Ordered(c, s)
    requires t < c.threads && s.threads[t].pc.Working? && c.parts > 0
    ensures var w := |s.log[s.threads[t].part]|;
      w % c.threads == t && c.Incr(s.flow[s.threads[t].part]) == FlowAfter(c, w + 1)
  {
    hide FlowAfter, Share, Done;
    var q := s.threads[t].part;
    assert OrderedOn(c, s, q);
    FlowFollows(c, |s.log[q]|, t);
  }

  lemma FlowFollows(c: Config, w: nat, t: nat)
    requires t < c.threads && FlowAfter(c, w) == t
    ensures w % c.threads == t && c.Incr(t) == FlowAfter(c, w + 1)
  {
    if c.wraps {
      DivModSucc(w, c.threads);
      assert w % c.threads == t;
    } else {
      assert w == t;
      DivModUnique(t, c.threads, 0, t);
      assert c.Incr(t) == FlowAfter(c, w + 1);
    }
  }

  lemma StepOrderedOn(c: Config, s: State, m: Move, q: nat)
    requires WellFormed(c, s) && Enabled(c, s, m) && InTurn(c, s) && Ordered(c, s) && q < c.parts
    ensures WellFormed(c, Next(c, s, m)) && OrderedOn(c, Next(c, s, m), q)
  {
    var s' := Next(c, s, m);
    var w := |s.log[q]|;
    StepWellFormed(c, s, m);
    assert OrderedOn(c, s, q);
    if m.a.IncrFlow? && q == s.threads[m.t].part {
      WorkerIsNext(c, s, m.t);
      assert s'.log[q] == s.log[q] + [m.t];
    } else {
      assert s'.log[q] == s.log[q] && s'.flow[q] == s.flow[q];
    }
    forall t | 0 <= t < c.threads ensures Done(s'.threads[t], q) == Share(|s'.log[q]|, c.threads, t) {
      DoneAfter(c, s, m, t, q);
      ShareStep(w, c.threads, t);
    }
  }

  lemma StepOrdered(c: Config, s: State, m: Move)
    requires WellFormed(c, s) && Enabled(c, s, m) && InTurn(c, s) && Ordered(c, s)
    ensures WellFormed(c, Next(c, s, m)) && Ordered(c, Next(c, s, m))
  {
    StepWellFormed(c, s, m);
    forall q | 0 <= q < c.parts ensures OrderedOn(c, Next(c, s, m), q) {
      StepOrderedOn(c, s, m, q);
    }
  }
}
