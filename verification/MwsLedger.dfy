/**
 * What callers of MWS.c can rely on, told from the calls they make and the statuses and callback answers they see,
 * without looking at the arbiter's own variables.
 */
module MwsLedger {
  import opened MachineWords
  import opened Arithmetic
  import opened Mws
  import opened MwsChain

  // ----- when a call succeeds

  /** May r take the transceiver from the owner, if the owner lets it go? */
  predicate Entitled(c: Config, owner: nat, r: Request)
    requires Formed(c) && owner < c.n && r.p < c.n
  {
    r.force || c.priority[r.p] < c.priority[owner]
  }

  /** An abort succeeds exactly if nobody owns the transceiver or the owner's callback answers 0; else all stays. */
  lemma AbortExactly(c: Config, s: State, abortStatus: nat)
    ensures var (t, status) := AbortOwner(c, s, abortStatus);
            && (status == Success <==> s.active == c.n || abortStatus == 0)
            && (status == Success ==> t.active == c.n)
            && (status != Success ==> status == Error && t.active == s.active && t.lockCount == s.lockCount)
            && Callbacks(t.log) == Callbacks(s.log) + (if s.active == c.n then [] else [Abort(s.active, abortStatus == 0)])
  {
    hide Callbacks;
    CallbacksLogged(s.log, Abort(s.active, abortStatus == 0));
  }

  /**
   * An acquire succeeds exactly if the transceiver is idle, the caller's own, or the caller is entitled to it and the
   * owner's Abort callback answers 0. The owner is asked exactly if the caller is entitled, and a denied acquire
   * leaves owner and count alone.
   */
  lemma AcquireExactly(c: Config, s: State, r: Request)
    requires Formed(c) && r.p < c.n && s.active <= c.n
    ensures var (t, status) := Acquire(c, s, r);
            var asked := s.active != c.n && s.active != r.p && Entitled(c, s.active, r);
            && (status == Success <==> s.active == c.n || s.active == r.p || (asked && r.abortStatus == 0))
            && (status == Success ==> t.active == r.p)
            && (status != Success ==> status == Denied && t.active == s.active && t.lockCount == s.lockCount)
            && Callbacks(t.log) == Callbacks(s.log)
                 + (if asked then [Abort(s.active, r.abortStatus == 0)] else [])
                 + (if status == Success && s.active != r.p then [Active(r.p)] else [])
  {
    hide Callbacks, Seize, AbortOwner;
    AbortExactly(c, s, r.abortStatus);
    CallbacksOfSeize(s, r.p);
    CallbacksOfSeize(AbortOwner(c, s, r.abortStatus).0, r.p);
    CallbacksLogged(s.log, Granted(r.p));
  }

  predicate IsCallback(e: Event) { !e.Granted? && !e.Returned? }

  /** The callbacks in a log, in order. */
  function Callbacks(log: seq<Event>): seq<Event> {
    if log == [] then []
    else Callbacks(log[..|log| - 1]) + (if IsCallback(log[|log| - 1]) then [log[|log| - 1]] else [])
  }

  lemma CallbacksLogged(log: seq<Event>, e: Event)
    ensures Callbacks(log + [e]) == Callbacks(log) + (if IsCallback(e) then [e] else [])
  {
    assert (log + [e])[..|log|] == log;
  }

  lemma CallbacksOfSeize(s: State, p: nat)
    ensures Callbacks(Seize(s, p).log) == Callbacks(s.log) + [Active(p)] && Seize(s, p).active == p
  {
    CallbacksLogged(s.log, Active(p));
    CallbacksLogged(s.log + [Active(p)], Granted(p));
    assert s.log + [Active(p), Granted(p)] == s.log + [Active(p)] + [Granted(p)];
  }

  /** Which releases tell the others: on an idle transceiver, and the owner's last one. */
  ghost predicate TellsOthers(c: Config, s: State, p: nat) {
    s.active == c.n || (s.active == p && (Held(s.log) - 1) % UINT32_RANGE == 0)
  }

  /**
   * A release that tells the others does so in chain order, up to the first that acquires, and leaves the transceiver
   * idle exactly if nobody wants it; any other release tells nobody.
   */
  lemma ReleaseNotifies(c: Config, s: State, chain: seq<nat>, p: nat, replies: seq<Reply>)
    requires Inv(c, s) && Known(c, chain) && ValidReplies(c, replies)
    ensures forall i :: 0 <= i < |Without(chain, p)| ==> Without(chain, p)[i] < c.n
    ensures var (t, status) := ReleaseOwner(c, s, chain, p, replies);
            var targets := Without(chain, p);
            if TellsOthers(c, s, p) then
              var told := targets[..Reach(targets, replies)];
              && Notified(t.log) == Notified(s.log) + told
              && (t.active == c.n <==> NobodyWants(chain, p, replies))
              && (status == Success <==> AllOk(told, replies))
            else Notified(t.log) == Notified(s.log) && t.active == s.active
  {
    hide Legal, Owner, Held, Notified, SignalIdle, Without, Reach, NobodyWants, AllOk;
    WithoutKnown(chain, p, c.n);
    if s.active == c.n {
      SignalIdleNotifies(c, s, chain, p, replies);
    } else if s.active == p {
      CountedDown(s.lockCount, Held(s.log));
      ReturnKeepsInv(c, s);
      NotifiedLogged(s.log, Returned(p));
      NotifiedLogged(s.log + [Returned(p)], Release(p));
      var ended := State(c.n, 0, s.log + [Returned(p)] + [Release(p)]);
      if TellsOthers(c, s, p) {
        SignalIdleNotifies(c, ended, chain, p, replies);
      }
    }
  }

  // ----- the ledger

  /** A call as its caller sees it; a release tells at once whether it is refused. */
  datatype Call =
    | Acquires(p: nat, granted: bool)
    | Releases(p: nat, refused: bool)
    | Aborts(accepted: bool)

  /** Who should own the transceiver, and how many acquires it has not returned. */
  datatype Ledger = Ledger(owner: nat, held: nat)

  /** What a call means for the ledger; the last release is the one that returns the count to 0 modulo 2^32. */
  function Entered(n: nat, l: Ledger, call: Call): Ledger {
    match call
    case Acquires(p, granted) =>
      if !granted then l else if l.owner == p then Ledger(p, l.held + 1) else Ledger(p, 1)
    case Releases(p, refused) =>
      if refused || p != l.owner || l.held == 0 then l
      else if (l.held - 1) % UINT32_RANGE == 0 then Ledger(n, 0)
      else Ledger(p, l.held - 1)
    case Aborts(accepted) => if accepted then Ledger(n, 0) else l
  }

  function EnteredAll(n: nat, l: Ledger, calls: seq<Call>): Ledger
    decreases calls
  {
    if calls == [] then l else EnteredAll(n, Entered(n, l, calls[0]), calls[1..])
  }

  lemma {:induction false} EnteredAppend(n: nat, l: Ledger, a: seq<Call>, b: seq<Call>)
    ensures EnteredAll(n, l, a + b) == EnteredAll(n, EnteredAll(n, l, a), b)
    decreases a
  {
    hide Entered;
    if a == [] {
      assert a + b == b;
    } else {
      EnteredAppend(n, Entered(n, l, a[0]), a[1..], b);
      assert (a + b)[1..] == a[1..] + b;
    }
  }

  // ----- the calls of a run, with what they return

  /** Acquires made one after the other. */
  function AcquireCalls(c: Config, s: State, rs: seq<Request>): seq<Call>
    requires Formed(c) && s.active <= c.n && forall i :: 0 <= i < |rs| ==> rs[i].p < c.n
    decreases rs
  {
    if rs == [] then []
    else
      AcquireAllFirst(c, s, rs);
      [Acquires(rs[0].p, Acquire(c, s, rs[0]).1 == Success)] + AcquireCalls(c, Acquire(c, s, rs[0]).0, rs[1..])
  }

  lemma AcquireAllFirst(c: Config, s: State, rs: seq<Request>)
    requires Formed(c) && s.active <= c.n && rs != [] && forall i :: 0 <= i < |rs| ==> rs[i].p < c.n
    ensures Acquire(c, s, rs[0]).0.active <= c.n
  {
  }

  /** The acquires that Idle callbacks make while the chain is told. */
  ghost function IdleCalls(c: Config, s: State, rest: seq<nat>, releaser: nat, replies: seq<Reply>): seq<Call>
    requires Known(c, rest) && s.active <= c.n && ValidReplies(c, replies)
    decreases rest
  {
    if rest == [] || s.active != c.n then []
    else if rest[0] == releaser then IdleCalls(c, s, rest[1..], releaser, replies)
    else
      var s0 := s.(log := s.log + [Idle(rest[0])]);
      var rs := replies[rest[0]].requests;
      AcquireCalls(c, s0, rs) + IdleCalls(c, AcquireAll(c, s0, rs), rest[1..], releaser, replies)
  }

  /** The owner's release, before anybody is told about it. */
  ghost function Ended(c: Config, s: State, p: nat): State {
    State(c.n, 0, s.log + [Returned(p)] + [Release(p)])
  }

  /** The calls one operation amounts to, those made from callbacks included. */
  ghost function CallsOf(c: Config, sys: System, op: Op): seq<Call>
    requires SystemInv(c, sys) && Callable(c, sys, op)
  {
    var s := sys.state;
    match op
    case Register(_) => []
    case Acquiring(r) => [Acquires(r.p, Acquire(c, s, r).1 == Success)]
    case Aborting(abortStatus) => [Aborts(AbortOwner(c, s, abortStatus).1 == Success)]
    case Signalling(p, replies) => IdleCalls(c, s, sys.chain, p, replies)
    case Releasing(p, replies) =>
      [Releases(p, ReleaseOwner(c, s, sys.chain, p, replies).1 == Denied)]
      + (if s.active == c.n then IdleCalls(c, s, sys.chain, p, replies)
         else if TellsOthers(c, s, p) then IdleCalls(c, Ended(c, s, p), sys.chain, p, replies)
         else [])
  }

  ghost function CallsOfRun(c: Config, trace: seq<System>, ops: seq<Op>): seq<Call>
    requires |trace| == |ops| + 1
    requires forall i :: 0 <= i < |ops| ==> SystemInv(c, trace[i]) && Callable(c, trace[i], ops[i])
  {
    if ops == [] then []
    else
      var n := |ops| - 1;
      CallsOfRun(c, trace[..n + 1], ops[..n]) + CallsOf(c, trace[n], ops[n])
  }

  // ----- the arbiter keeps the ledger

  /** The ledger tells owner and count. */
  ghost predicate Agrees(c: Config, s: State, l: Ledger) {
    Inv(c, s) && s.active == l.owner && Held(s.log) == l.held
  }

  lemma AgreesMeans(c: Config, s: State, l: Ledger)
    requires Agrees(c, s, l)
    ensures s.active == l.owner && s.lockCount == l.held % UINT32_RANGE
  {
  }

  /** A granted acquire counts one more for its caller, or starts at one; a denied one changes nothing. */
  lemma AcquireCounts(c: Config, s: State, r: Request)
    requires Inv(c, s) && r.p < c.n
    ensures var (t, status) := Acquire(c, s, r);
            && (status == Success ==> Held(t.log) == if s.active == r.p then Held(s.log) + 1 else 1)
            && (status != Success ==> Held(t.log) == Held(s.log))
  {
    hide Held, Legal, Owner, AbortOwner, Seize;
    HeldOfSeize(s, r.p);
    HeldOfSeize(AbortOwner(c, s, r.abortStatus).0, r.p);
    HeldOfAbort(c, s, r.abortStatus);
    Logged(c.n, s.log, Granted(r.p));
  }

  lemma HeldOfSeize(s: State, p: nat)
    ensures Held(Seize(s, p).log) == 1
  {
    hide Held, Legal, Owner;
    Logged(0, s.log, Active(p));
    Logged(0, s.log + [Active(p)], Granted(p));
    assert s.log + [Active(p), Granted(p)] == s.log + [Active(p)] + [Granted(p)];
  }

  lemma HeldOfAbort(c: Config, s: State, abortStatus: nat)
    requires Inv(c, s)
    ensures var (t, status) := AbortOwner(c, s, abortStatus);
            Held(t.log) == if status == Success then 0 else Held(s.log)
  {
    hide Held, Legal, Owner;
    Logged(c.n, s.log, Abort(s.active, true));
    Logged(c.n, s.log, Abort(s.active, false));
  }

  lemma AcquireEntered(c: Config, s: State, r: Request, l: Ledger)
    requires Agrees(c, s, l) && r.p < c.n
    ensures var (t, status) := Acquire(c, s, r); Agrees(c, t, Entered(c.n, l, Acquires(r.p, status == Success)))
  {
    AcquireKeepsInv(c, s, r);
    AcquireCounts(c, s, r);
    AcquireExactly(c, s, r);
    hide Acquire, Inv, Held, Callbacks;
  }

  lemma {:induction false} AcquiresEntered(c: Config, s: State, rs: seq<Request>, l: Ledger)
    requires Agrees(c, s, l) && s.active <= c.n && forall i :: 0 <= i < |rs| ==> rs[i].p < c.n
    ensures Formed(c) && Agrees(c, AcquireAll(c, s, rs), EnteredAll(c.n, l, AcquireCalls(c, s, rs)))
    decreases rs
  {
    if rs != [] {
      AcquireEntered(c, s, rs[0], l);
      AcquireAllFirst(c, s, rs);
      hide Acquire, Entered;
      AcquiresEntered(c, Acquire(c, s, rs[0]).0, rs[1..], Entered(c.n, l, AcquireCalls(c, s, rs)[0]));
    }
  }

  lemma IdleLogged(c: Config, s: State, p: nat, l: Ledger)
    requires Agrees(c, s, l) && s.active == c.n && p < c.n
    ensures Agrees(c, s.(log := s.log + [Idle(p)]), l)
  {
    hide Held, Legal, Owner;
    Logged(c.n, s.log, Idle(p));
  }

  lemma {:induction false} IdleEntered(c: Config, s: State, rest: seq<nat>, releaser: nat, replies: seq<Reply>, l: Ledger)
    requires Agrees(c, s, l) && s.active <= c.n && Known(c, rest) && ValidReplies(c, replies)
    ensures Agrees(c, SignalIdle(c, s, rest, releaser, replies).0,
                   EnteredAll(c.n, l, IdleCalls(c, s, rest, releaser, replies)))
    decreases rest
  {
    hide Agrees, AcquireAll, AcquireCalls;
    if rest != [] && s.active == c.n {
      if rest[0] == releaser {
        IdleEntered(c, s, rest[1..], releaser, replies, l);
      } else {
        var s0 := s.(log := s.log + [Idle(rest[0])]);
        var rs := replies[rest[0]].requests;
        IdleLogged(c, s, rest[0], l);
        AcquiresEntered(c, s0, rs, l);
        var s1, l1 := AcquireAll(c, s0, rs), EnteredAll(c.n, l, AcquireCalls(c, s0, rs));
        IdleEntered(c, s1, rest[1..], releaser, replies, l1);
        EnteredAppend(c.n, l, AcquireCalls(c, s0, rs), IdleCalls(c, s1, rest[1..], releaser, replies));
      }
    }
  }

  /** The owner's own release, before anybody is told. */
  lemma ReturnEntered(c: Config, s: State, l: Ledger)
    requires Agrees(c, s, l) && s.active != c.n
    ensures var left := (s.lockCount + UINT32_RANGE - 1) % UINT32_RANGE;
            var l' := Entered(c.n, l, Releases(s.active, false));
            && (left == 0 <==> TellsOthers(c, s, s.active))
            && (left == 0 ==> Agrees(c, Ended(c, s, s.active), l'))
            && (left != 0 ==> Agrees(c, s.(lockCount := left, log := s.log + [Returned(s.active)]), l'))
  {
    hide Held, Legal, Owner;
    CountedDown(s.lockCount, Held(s.log));
    ReturnKeepsInv(c, s);
    Logged(c.n, s.log, Returned(s.active));
    Logged(c.n, s.log + [Returned(s.active)], Release(s.active));
  }

  lemma ReleaseEntered(c: Config, sys: System, p: nat, replies: seq<Reply>, l: Ledger)
    requires SystemInv(c, sys) && Agrees(c, sys.state, l) && ValidReplies(c, replies)
    ensures Callable(c, sys, Releasing(p, replies))
    ensures Agrees(c, Step(c, sys, Releasing(p, replies)).state,
                   EnteredAll(c.n, l, CallsOf(c, sys, Releasing(p, replies))))
  {
    hide Agrees, Held, Legal, Owner, SignalIdle, IdleCalls;
    var s, chain := sys.state, sys.chain;
    ReleaseRefused(c, s, chain, p, replies);
    var refused := ReleaseOwner(c, s, chain, p, replies).1 == Denied;
    var first := Releases(p, refused);
    var l1 := Entered(c.n, l, first);
    AgreesOwner(c, s, l);
    if s.active == c.n {
      IdleEntered(c, s, chain, p, replies, l);
      FirstEntered(c.n, l, first, IdleCalls(c, s, chain, p, replies));
    } else if s.active == p {
      ReturnEntered(c, s, l);
      if TellsOthers(c, s, p) {
        IdleEntered(c, Ended(c, s, p), chain, p, replies, l1);
        FirstEntered(c.n, l, first, IdleCalls(c, Ended(c, s, p), chain, p, replies));
      } else {
        FirstEntered(c.n, l, first, []);
      }
    } else {
      FirstEntered(c.n, l, first, []);
    }
  }

  lemma AgreesOwner(c: Config, s: State, l: Ledger)
    requires Agrees(c, s, l)
    ensures s.active == l.owner && (l.owner != c.n <==> l.held >= 1)
  {
  }

  lemma FirstEntered(n: nat, l: Ledger, call: Call, calls: seq<Call>)
    ensures EnteredAll(n, l, [call] + calls) == EnteredAll(n, Entered(n, l, call), calls)
  {
    assert ([call] + calls)[1..] == calls;
  }

  lemma AbortEntered(c: Config, s: State, abortStatus: nat, l: Ledger)
    requires Agrees(c, s, l)
    ensures var (t, status) := AbortOwner(c, s, abortStatus); Agrees(c, t, Entered(c.n, l, Aborts(status == Success)))
  {
    AbortKeepsInv(c, s, abortStatus);
    HeldOfAbort(c, s, abortStatus);
    hide Held, Legal, Owner;
  }

  lemma RegisterEntered(c: Config, s: State, p: nat, l: Ledger)
    requires Agrees(c, s, l)
    ensures Agrees(c, s.(log := s.log + [Init(p)]), l)
  {
    hide Held, Legal, Owner;
    Logged(c.n, s.log, Init(p));
  }

  lemma StepEntered(c: Config, sys: System, op: Op, l: Ledger)
    requires SystemInv(c, sys) && Callable(c, sys, op) && Agrees(c, sys.state, l)
    ensures Agrees(c, Step(c, sys, op).state, EnteredAll(c.n, l, CallsOf(c, sys, op)))
  {
    hide Agrees, Legal, Owner, Held, SignalIdle, IdleCalls, ReleaseOwner, Entered, Acquire, AbortOwner;
    match op
    case Register(p) =>
      RegisterEntered(c, sys.state, p, l);
    case Acquiring(r) =>
      AcquireEntered(c, sys.state, r, l);
      FirstEntered(c.n, l, Acquires(r.p, Acquire(c, sys.state, r).1 == Success), []);
    case Aborting(abortStatus) =>
      AbortEntered(c, sys.state, abortStatus, l);
      FirstEntered(c.n, l, Aborts(AbortOwner(c, sys.state, abortStatus).1 == Success), []);
    case Signalling(p, replies) =>
      IdleEntered(c, sys.state, sys.chain, p, replies, l);
    case Releasing(p, replies) =>
      ReleaseEntered(c, sys, p, replies, l);
  }

  /**
   * At every reachable state the owner is the protocol whose calls say so, and the lock count is the number of its
   * acquires that were granted less its releases in this session, modulo 2^32.
   */
  lemma {:induction false} RunKeepsLedger(c: Config, trace: seq<System>, ops: seq<Op>)
    requires Formed(c) && Distinct(c) && IsRun(c, trace, ops)
    requires forall i :: 0 <= i < |ops| ==> SystemInv(c, trace[i]) && Callable(c, trace[i], ops[i])
    ensures var l := EnteredAll(c.n, Ledger(c.n, 0), CallsOfRun(c, trace, ops));
            Agrees(c, trace[|ops|].state, l) && trace[|ops|].state.active == l.owner
            && trace[|ops|].state.lockCount == l.held % UINT32_RANGE
  {
    hide Agrees, SystemInv, CallsOf, Step, Callable, EnteredAll;
    var l := Ledger(c.n, 0);
    if ops == [] {
      StartAgrees(c);
      AgreesMeans(c, trace[0].state, l);
      NothingEntered(c.n, l);
    } else {
      var n := |ops| - 1;
      assert trace[..n + 1][n] == trace[n];
      RunKeepsLedger(c, trace[..n + 1], ops[..n]);
      var calls := CallsOfRun(c, trace[..n + 1], ops[..n]);
      var before := EnteredAll(c.n, l, calls);
      StepEntered(c, trace[n], ops[n], before);
      EnteredAppend(c.n, l, calls, CallsOf(c, trace[n], ops[n]));
      AgreesMeans(c, trace[|ops|].state, EnteredAll(c.n, l, calls + CallsOf(c, trace[n], ops[n])));
    }
  }

  lemma StartAgrees(c: Config)
    requires Formed(c)
    ensures Agrees(c, State(c.n, 0, []), Ledger(c.n, 0))
  {
  }

  lemma NothingEntered(n: nat, l: Ledger)
    ensures EnteredAll(n, l, []) == l
  {
  }

  // ----- registrations

  /** The protocols registered in a run, repetitions included. */
  function Registrations(ops: seq<Op>): seq<nat> {
    if ops == [] then []
    else Registrations(ops[..|ops| - 1]) + (if ops[|ops| - 1].Register? then [ops[|ops| - 1].p] else [])
  }

  /** Each protocol once, in the order of its first registration. */
  function FirstTimes(ps: seq<nat>): seq<nat> {
    if ps == [] then []
    else
      var before, p := FirstTimes(ps[..|ps| - 1]), ps[|ps| - 1];
      if p in ps[..|ps| - 1] then before else before + [p]
  }

  /** The Init callbacks in a log. */
  function Inits(log: seq<Event>): seq<nat> {
    if log == [] then []
    else Inits(log[..|log| - 1]) + (if log[|log| - 1].Init? then [log[|log| - 1].p] else [])
  }

  lemma InitsLogged(log: seq<Event>, e: Event)
    ensures Inits(log + [e]) == Inits(log) + (if e.Init? then [e.p] else [])
  {
    assert (log + [e])[..|log|] == log;
  }

  lemma AcquireInitsNobody(c: Config, s: State, r: Request)
    requires Formed(c) && s.active <= c.n && r.p < c.n
    ensures Inits(Acquire(c, s, r).0.log) == Inits(s.log)
  {
    hide Inits, Seize;
    InitsLogged(s.log, Granted(r.p));
    InitsLogged(s.log, Abort(s.active, false));
    InitsLogged(s.log, Abort(s.active, true));
    SeizeInitsNobody(s, r.p);
    SeizeInitsNobody(AbortOwner(c, s, r.abortStatus).0, r.p);
  }

  lemma SeizeInitsNobody(s: State, p: nat)
    ensures Inits(Seize(s, p).log) == Inits(s.log)
  {
    InitsLogged(s.log, Active(p));
    InitsLogged(s.log + [Active(p)], Granted(p));
    assert s.log + [Active(p), Granted(p)] == s.log + [Active(p)] + [Granted(p)];
  }

  lemma {:induction false} AcquireAllInitsNobody(c: Config, s: State, rs: seq<Request>)
    requires Formed(c) && s.active <= c.n && forall i :: 0 <= i < |rs| ==> rs[i].p < c.n
    ensures Inits(AcquireAll(c, s, rs).log) == Inits(s.log)
    decreases rs
  {
    if rs != [] {
      AcquireInitsNobody(c, s, rs[0]);
      AcquireAllFirst(c, s, rs);
      hide Inits, Acquire;
      AcquireAllInitsNobody(c, Acquire(c, s, rs[0]).0, rs[1..]);
    }
  }

  lemma {:induction false} SignalIdleInitsNobody(c: Config, s: State, rest: seq<nat>, releaser: nat, replies: seq<Reply>)
    requires Known(c, rest) && s.active <= c.n && ValidReplies(c, replies)
    ensures Inits(SignalIdle(c, s, rest, releaser, replies).0.log) == Inits(s.log)
    decreases rest
  {
    hide Inits;
    if rest != [] && s.active == c.n {
      if rest[0] == releaser {
        SignalIdleInitsNobody(c, s, rest[1..], releaser, replies);
      } else {
        InitsLogged(s.log, Idle(rest[0]));
        var s0 := s.(log := s.log + [Idle(rest[0])]);
        AcquireAllInitsNobody(c, s0, replies[rest[0]].requests);
        SignalIdleInitsNobody(c, AcquireAll(c, s0, replies[rest[0]].requests), rest[1..], releaser, replies);
      }
    }
  }

  lemma ReleaseInitsNobody(c: Config, s: State, chain: seq<nat>, p: nat, replies: seq<Reply>)
    requires Known(c, chain) && s.active <= c.n && ValidReplies(c, replies)
    ensures Inits(ReleaseOwner(c, s, chain, p, replies).0.log) == Inits(s.log)
  {
    hide Inits, SignalIdle;
    InitsLogged(s.log, Returned(p));
    InitsLogged(s.log + [Returned(p)], Release(p));
    SignalIdleInitsNobody(c, s, chain, p, replies);
    SignalIdleInitsNobody(c, Ended(c, s, p), chain, p, replies);
  }

  /** What one operation does to the chain and to the Init callbacks made. */
  lemma StepRegisters(c: Config, sys: System, op: Op)
    requires SystemInv(c, sys) && Callable(c, sys, op)
    ensures var t := Step(c, sys, op);
            if op.Register? && op.p !in sys.chain
            then t.chain == Insert(c, sys.chain, op.p) && Inits(t.state.log) == Inits(sys.state.log) + [op.p]
            else t.chain == sys.chain && Inits(t.state.log) == Inits(sys.state.log)
  {
    hide Inits, Legal, Owner, Held, SignalIdle, ReleaseOwner, Acquire, Insert;
    match op
    case Register(p) =>
      InitsLogged(sys.state.log, Init(p));
    case Acquiring(r) =>
      AcquireInitsNobody(c, sys.state, r);
    case Aborting(abortStatus) =>
      InitsLogged(sys.state.log, Abort(sys.state.active, true));
      InitsLogged(sys.state.log, Abort(sys.state.active, false));
    case Signalling(p, replies) =>
      SignalIdleInitsNobody(c, sys.state, sys.chain, p, replies);
    case Releasing(p, replies) =>
      ReleaseInitsNobody(c, sys.state, sys.chain, p, replies);
  }

  lemma InElements(s: seq<nat>, x: nat)
    ensures x in Elements(s) <==> x in s
  {
  }

  /** The registrations so far tell the chain and the Init callbacks. */
  ghost predicate Reflects(c: Config, sys: System, ps: seq<nat>) {
    Elements(sys.chain) == Elements(ps) && Inits(sys.state.log) == FirstTimes(ps)
  }

  lemma StepReflects(c: Config, sys: System, op: Op, ps: seq<nat>)
    requires SystemInv(c, sys) && Callable(c, sys, op) && Reflects(c, sys, ps)
    ensures Reflects(c, Step(c, sys, op), ps + (if op.Register? then [op.p] else []))
  {
    StepRegisters(c, sys, op);
    if op.Register? {
      assert op.p < |c.priority|;
      RegisteredToo(c, sys.chain, ps, op.p);
    } else {
      assert ps + [] == ps;
    }
    hide Step, Callable, Elements, Legal, Owner, Held, Insert, Inits, FirstTimes;
  }

  /**
   * After any run the chain holds exactly the protocols registered in it, by priority, and each got one Init
   * callback, in the order of first registration.
   */
  lemma {:induction false} RunRegisters(c: Config, trace: seq<System>, ops: seq<Op>)
    requires Formed(c) && Distinct(c) && IsRun(c, trace, ops)
    requires forall i :: 0 <= i < |ops| ==> SystemInv(c, trace[i]) && Callable(c, trace[i], ops[i])
    ensures StrictlySorted(c, trace[|ops|].chain)
    ensures Elements(trace[|ops|].chain) == Elements(Registrations(ops))
    ensures Inits(trace[|ops|].state.log) == FirstTimes(Registrations(ops))
  {
    RunKeepsInv(c, trace, ops);
    RunReflects(c, trace, ops);
    hide IsRun, Callable, Elements, Inits;
  }

  lemma {:induction false} RunReflects(c: Config, trace: seq<System>, ops: seq<Op>)
    requires IsRun(c, trace, ops)
    requires forall i :: 0 <= i < |ops| ==> SystemInv(c, trace[i]) && Callable(c, trace[i], ops[i])
    ensures Reflects(c, trace[|ops|], Registrations(ops))
  {
    if ops == [] {
      assert Elements([]) == {};
    } else {
      hide Step, Callable, SystemInv, Reflects;
      var n := |ops| - 1;
      assert trace[..n + 1][n] == trace[n];
      RunReflects(c, trace[..n + 1], ops[..n]);
      StepReflects(c, trace[n], ops[n], Registrations(ops[..n]));
    }
  }

  lemma RegisteredToo(c: Config, chain: seq<nat>, ps: seq<nat>, p: nat)
    requires p < |c.priority| && StrictlySorted(c, chain) && Elements(chain) == Elements(ps)
    ensures p in chain <==> p in ps
    ensures p in chain ==> Elements(chain) == Elements(ps + [p])
    ensures Elements(Insert(c, chain, p)) == Elements(ps + [p])
    ensures FirstTimes(ps + [p]) == if p in ps then FirstTimes(ps) else FirstTimes(ps) + [p]
  {
    InsertElements(c, chain, p);
    InElements(chain, p);
    InElements(ps, p);
    assert (ps + [p])[..|ps|] == ps;
    assert Elements(ps + [p]) == Elements(ps) + {p};
  }
}
