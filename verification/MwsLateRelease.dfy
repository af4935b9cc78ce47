/** Releases by a protocol that was preempted in the meantime. */
module MwsLateRelease {
  import opened Mws
  import opened MwsChain

  /** In step i of the run, protocol p loses the transceiver to another one. */
  ghost predicate PreemptedAt(c: Config, trace: seq<System>, ops: seq<Op>, i: nat, p: nat)
    requires i < |ops| && i < |trace| && SystemInv(c, trace[i]) && Callable(c, trace[i], ops[i])
  {
    && trace[i].state.active == p < c.n && ops[i].Acquiring? && ops[i].r.p != p
    && Acquire(c, trace[i].state, ops[i].r).1 == Success
  }

  /**
   * However a run goes on after p was preempted, p's late release is refused and changes nothing if and only if
   * another protocol owns the transceiver by then. The preemption itself leaves no trace in the condition: this is
   * ReleaseRefused at every state such a run reaches, as the arbiter does not record which acquires are unreturned.
   */
  lemma LateReleaseIsNoOp(c: Config, trace: seq<System>, ops: seq<Op>, i: nat, p: nat, replies: seq<Reply>)
    requires Formed(c) && Distinct(c) && IsRun(c, trace, ops) && ValidReplies(c, replies)
    requires forall j :: 0 <= j < |ops| ==> Callable(c, trace[j], ops[j])
    requires i < |ops| && SystemInv(c, trace[i]) && PreemptedAt(c, trace, ops, i, p)
    ensures SystemInv(c, trace[|ops|])
    ensures var sys := trace[|ops|];
            && (ReleaseOwner(c, sys.state, sys.chain, p, replies) == (sys.state, Denied)
                <==> sys.state.active != c.n && sys.state.active != p)
            && (sys.state.active == p ==>
                 sys.state.log + [Returned(p)] <= ReleaseOwner(c, sys.state, sys.chain, p, replies).0.log)
  {
    RunKeepsInv(c, trace, ops);
    var sys := trace[|ops|];
    ReleaseRefused(c, sys.state, sys.chain, p, replies);
    if sys.state.active == p {
      ReleaseReturns(c, sys.state, sys.chain, p, replies);
    }
  }

  /** Two protocols, the first of higher priority; what 0 asks for, how 1 forces its way, and 0's answer to Idle. */
  const PAIR := Config(2, [0, 1])
  const ASK := Request(0, false, 0)
  const FORCE := Request(1, true, 0)
  const ASK_AGAIN := [Reply(0, [ASK]), Reply(0, [])]
  const QUIET := [Reply(0, []), Reply(0, [])]

  lemma PairSteps(s: State)
    requires s.active <= 2
    ensures Known(PAIR, [0, 1]) && ValidReplies(PAIR, ASK_AGAIN) && ValidReplies(PAIR, QUIET)
    ensures s.active == 2 ==> var t := Acquire(PAIR, s, ASK).0; t.active == 0 && t.lockCount == 1
    ensures s.active == 0 ==>
              var (t, status) := Acquire(PAIR, s, FORCE); t.active == 1 && t.lockCount == 1 && status == Success
  {
  }

  /** 1 releases, and 0 acquires when told so. */
  lemma ReacquiredOnIdle(s: State)
    requires s.active == 1 && s.lockCount == 1 && Known(PAIR, [0, 1]) && ValidReplies(PAIR, ASK_AGAIN)
    ensures var idle := State(2, 0, s.log + [Returned(1)] + [Release(1)] + [Idle(0)]);
            ReleaseOwner(PAIR, s, [0, 1], 1, ASK_AGAIN).0 == Seize(idle, 0)
  {
    var ended := State(2, 0, s.log + [Returned(1)] + [Release(1)]);
    var idle := ended.(log := ended.log + [Idle(0)]);
    assert AcquireAll(PAIR, idle, [ASK]) == AcquireAll(PAIR, Seize(idle, 0), []) == Seize(idle, 0);
    assert SignalIdle(PAIR, Seize(idle, 0), [1], 1, ASK_AGAIN).0 == Seize(idle, 0);
    assert [0, 1][1..] == [1];
    assert SignalIdle(PAIR, ended, [0, 1], 1, ASK_AGAIN).0 == Seize(idle, 0);
  }

  /** 0 releases and nobody wants the transceiver. */
  lemma ReleasedForGood(s: State)
    requires s.active == 0 && s.lockCount == 1 && Known(PAIR, [0, 1]) && ValidReplies(PAIR, QUIET)
    ensures ReleaseOwner(PAIR, s, [0, 1], 0, QUIET).0.active == 2
  {
    var ended := State(2, 0, s.log + [Returned(0)] + [Release(0)]);
    assert [0, 1][1..] == [1] && [1][1..] == [];
    assert SignalIdle(PAIR, ended, [1], 0, QUIET).0.active == 2;
  }

  /** One legal step of a run. */
  ghost predicate Goes(sys: System, op: Op, sys': System) {
    SystemInv(PAIR, sys) && Callable(PAIR, sys, op) && sys' == Step(PAIR, sys, op)
  }

  lemma Go(sys: System, op: Op) returns (sys': System)
    requires Distinct(PAIR) && SystemInv(PAIR, sys) && Callable(PAIR, sys, op)
    ensures Goes(sys, op, sys') && SystemInv(PAIR, sys')
  {
    StepKeepsInv(PAIR, sys, op);
    sys' := Step(PAIR, sys, op);
    hide SystemInv, Callable, Step;
  }

  lemma PairCallable(sys: System)
    requires sys.chain == [0, 1]
    ensures Callable(PAIR, sys, Acquiring(ASK)) && Callable(PAIR, sys, Acquiring(FORCE))
    ensures Callable(PAIR, sys, Releasing(1, ASK_AGAIN)) && Callable(PAIR, sys, Releasing(0, QUIET))
  {
    PairSteps(State(2, 0, []));
  }

  lemma Registered(sys: System, sys': System, p: nat)
    requires p < 2 && Goes(sys, Register(p), sys') && sys.chain == (if p == 0 then [] else [0])
    ensures sys'.chain == sys.chain + [p] && sys'.state.active == sys.state.active
  {
    hide SystemInv;
    assert [0][1..] == [];
  }

  lemma Acquired(sys: System, sys': System, r: Request)
    requires Goes(sys, Acquiring(r), sys') && r.p < 2 && sys.state.active <= 2
    ensures sys'.chain == sys.chain && sys'.state == Acquire(PAIR, sys.state, r).0
  {
    hide SystemInv, Acquire;
  }

  lemma Released(sys: System, sys': System, p: nat, replies: seq<Reply>)
    requires Goes(sys, Releasing(p, replies), sys')
    ensures Known(PAIR, sys.chain) && ValidReplies(PAIR, replies) && sys.state.active <= 2
    ensures sys'.chain == sys.chain && sys'.state == ReleaseOwner(PAIR, sys.state, sys.chain, p, replies).0
  {
    hide ReleaseOwner;
  }

  /** Both register; then 0 acquires. */
  lemma Opening() returns (s0: System, s1: System, s2: System, s3: System)
    ensures s0 == System([], State(2, 0, [])) && Distinct(PAIR)
    ensures Goes(s0, Register(0), s1) && Goes(s1, Register(1), s2) && Goes(s2, Acquiring(ASK), s3)
    ensures s3.chain == [0, 1] && s3.state.active == 0 && SystemInv(PAIR, s3)
  {
    hide SystemInv, Goes, Acquire, Distinct;
    s0 := System([], State(2, 0, []));
    NothingYet();
    s1 := Go(s0, Register(0));
    Registered(s0, s1, 0);
    s2 := Go(s1, Register(1));
    Registered(s1, s2, 1);
    PairSteps(s2.state);
    PairCallable(s2);
    s3 := Go(s2, Acquiring(ASK));
    Acquired(s2, s3, ASK);
  }

  /** 1 preempts and releases, 0 acquires again, and its release of before ends that. */
  lemma Ending(s3: System) returns (s4: System, s5: System, s6: System)
    requires s3.chain == [0, 1] && s3.state.active == 0 && SystemInv(PAIR, s3) && Distinct(PAIR)
    ensures Goes(s3, Acquiring(FORCE), s4) && Acquire(PAIR, s3.state, FORCE).1 == Success
    ensures Goes(s4, Releasing(1, ASK_AGAIN), s5) && s5.state.active == 0 && Held(s5.state.log) == 1
    ensures Goes(s5, Releasing(0, QUIET), s6) && s6.state.active == 2
  {
    hide SystemInv, Goes, Acquire, ReleaseOwner, Held, Distinct, Callable, Known, ValidReplies;
    PairCallable(s3);
    PairSteps(s3.state);
    s4 := Go(s3, Acquiring(FORCE));
    Acquired(s3, s4, FORCE);
    PairCallable(s4);
    s5 := Go(s4, Releasing(1, ASK_AGAIN));
    Released(s4, s5, 1, ASK_AGAIN);
    ReacquiredOnIdle(s4.state);
    HeldOnce(s4.state.log + [Returned(1)] + [Release(1)] + [Idle(0)]);
    PairCallable(s5);
    s6 := Go(s5, Releasing(0, QUIET));
    Released(s5, s6, 0, QUIET);
    ReleasedForGood(s5.state);
  }

  /**
   * A run in which the late release does harm: 0 acquires, 1 preempts it and releases, 0 acquires again when told
   * that the transceiver is idle, and the release 0 still owed for its first acquire ends its new session.
   */
  lemma LateReleaseEndsNewSession() returns (trace: seq<System>, ops: seq<Op>)
    ensures Formed(PAIR) && Distinct(PAIR) && IsRun(PAIR, trace, ops) && |ops| == 6
    ensures forall i :: 0 <= i < |ops| ==> SystemInv(PAIR, trace[i]) && Callable(PAIR, trace[i], ops[i])
    ensures PreemptedAt(PAIR, trace, ops, 3, 0)
    ensures trace[5].state.active == 0 && Held(trace[5].state.log) == 1
    ensures ops[5].Releasing? && ops[5].p == 0 && trace[6].state.active == 2
  {
    hide SystemInv, Step, Callable, Held, Acquire;
    NothingYet();
    var s0, s1, s2, s3 := Opening();
    var s4, s5, s6 := Ending(s3);
    ops := [Register(0), Register(1), Acquiring(ASK), Acquiring(FORCE), Releasing(1, ASK_AGAIN), Releasing(0, QUIET)];
    trace := [s0, s1, s2, s3, s4, s5, s6];
  }

  lemma NothingYet()
    ensures Distinct(PAIR) && SystemInv(PAIR, System([], State(2, 0, [])))
  {
  }

  lemma HeldOnce(log: seq<Event>)
    ensures Held(log + [Active(0), Granted(0)]) == 1
  {
    Logged(2, log, Active(0));
    Logged(2, log + [Active(0)], Granted(0));
    assert log + [Active(0), Granted(0)] == log + [Active(0)] + [Granted(0)];
  }
}
