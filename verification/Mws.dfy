/**
 * The radio arbiter of MWS.c on values: who owns the transceiver, how often it was acquired,
 * and the callbacks made so far. Protocols are numbers below n; n itself is gMWS_None_c.
 */
module Mws {
  import opened MachineWords
  import opened Arithmetic

  datatype Status = Success | Denied | InvalidParameter | Error

  /** Callbacks made, and the acquires granted and releases taken from the owner. */
  datatype Event =
    | Init(p: nat)
    | Active(p: nat)
    | Granted(p: nat)
    | Returned(p: nat)
    | Release(p: nat)
    | Abort(p: nat, accepted: bool)
    | Idle(p: nat)

  /** A call of MWS_Acquire, with what the owner's Abort callback would answer. */
  datatype Request = Request(p: nat, force: bool, abortStatus: nat)

  /** What a protocol does when told that the transceiver is idle: acquire zero or more times, return a status. */
  datatype Reply = Reply(status: nat, requests: seq<Request>)

  datatype Config = Config(n: nat, priority: seq<nat>)

  datatype State = State(active: nat, lockCount: nat, log: seq<Event>)

  ghost predicate Formed(c: Config) { |c.priority| == c.n }

  ghost predicate Known(c: Config, chain: seq<nat>) {
    Formed(c) && forall i :: 0 <= i < |chain| ==> chain[i] < c.n
  }

  /** Every re-entrant acquire in the replies is for an existing protocol. */
  ghost predicate ValidReplies(c: Config, replies: seq<Reply>) {
    && |replies| == c.n
    && forall i, j :: 0 <= i < c.n && 0 <= j < |replies[i].requests| ==> replies[i].requests[j].p < c.n
  }

  // ----- the operations

  function Seize(s: State, p: nat): State { State(p, 1, s.log + [Active(p), Granted(p)]) }

  /** MWS_Abort. */
  function AbortOwner(c: Config, s: State, abortStatus: nat): (State, Status) {
    if s.active == c.n then (s, Success)
    else if abortStatus != 0 then (s.(log := s.log + [Abort(s.active, false)]), Error)
    else (State(c.n, 0, s.log + [Abort(s.active, true)]), Success)
  }

  /** MWS_Acquire. */
  function Acquire(c: Config, s: State, r: Request): (State, Status)
    requires Formed(c) && r.p < c.n && s.active <= c.n
  {
    if s.active == c.n then (Seize(s, r.p), Success)
    else if s.active == r.p then
      (s.(lockCount := (s.lockCount + 1) % UINT32_RANGE, log := s.log + [Granted(r.p)]), Success)
    else if r.force || c.priority[s.active] > c.priority[r.p] then
      var (s1, status) := AbortOwner(c, s, r.abortStatus);
      if status == Success then (Seize(s1, r.p), Success) else (s1, Denied)
    else (s, Denied)
  }

  function AcquireAll(c: Config, s: State, rs: seq<Request>): (t: State)
    requires Formed(c) && s.active <= c.n && forall i :: 0 <= i < |rs| ==> rs[i].p < c.n
    ensures t.active <= c.n
    decreases rs
  {
    if rs == [] then s else AcquireAll(c, Acquire(c, s, rs[0]).0, rs[1..])
  }

  /** MWS_SignalIdle over the rest of the priority chain. */
  ghost function SignalIdle(c: Config, s: State, rest: seq<nat>, releaser: nat, replies: seq<Reply>): (r: (State, Status))
    requires Known(c, rest) && s.active <= c.n && ValidReplies(c, replies)
    ensures r.0.active <= c.n
    decreases rest
  {
    if rest == [] || s.active != c.n then (s, Success)
    else if rest[0] == releaser then SignalIdle(c, s, rest[1..], releaser, replies)
    else
      var reply := replies[rest[0]];
      var s1 := AcquireAll(c, s.(log := s.log + [Idle(rest[0])]), reply.requests);
      var (s2, status) := SignalIdle(c, s1, rest[1..], releaser, replies);
      (s2, if reply.status != 0 then Error else status)
  }

  /** MWS_Release. */
  ghost function ReleaseOwner(c: Config, s: State, chain: seq<nat>, p: nat, replies: seq<Reply>): (State, Status)
    requires Known(c, chain) && s.active <= c.n && ValidReplies(c, replies)
  {
    if s.active == c.n then SignalIdle(c, s, chain, p, replies)
    else if p != s.active then (s, Denied)
    else
      var left := (s.lockCount + UINT32_RANGE - 1) % UINT32_RANGE;
      var s1 := s.(lockCount := left, log := s.log + [Returned(p)]);
      if left != 0 then (s1, Success)
      else SignalIdle(c, State(c.n, 0, s1.log + [Release(p)]), chain, p, replies)
  }

  // ----- reading the log on its own

  /** Who owns the transceiver, told from the log alone. */
  function Owner(n: nat, log: seq<Event>): nat {
    if log == [] then n
    else
      match log[|log| - 1]
      case Active(p) => p
      case Release(_) => n
      case Abort(_, true) => n
      case _ => Owner(n, log[..|log| - 1])
  }

  /** Acquires granted in the current session and not yet returned, told from the log alone. */
  function Held(log: seq<Event>): int {
    if log == [] then 0
    else
      var before := Held(log[..|log| - 1]);
      match log[|log| - 1]
      case Granted(_) => before + 1
      case Returned(_) => before - 1
      case Active(_) => 0
      case Release(_) => 0
      case Abort(_, true) => 0
      case _ => before
  }

  /** What may happen next when owner owns the transceiver (n: nobody). */
  predicate LegalNext(n: nat, owner: nat, e: Event) {
    match e
    case Init(_) => true
    case Active(p) => owner == n && p < n
    case Idle(p) => owner == n && p < n
    case Granted(p) => owner == p < n
    case Returned(p) => owner == p < n
    case Release(p) => owner == p < n
    case Abort(p, _) => owner == p < n
  }

  /** Sessions never overlap: every event is legal where it stands. */
  predicate Legal(n: nat, log: seq<Event>) {
    log == [] || (Legal(n, log[..|log| - 1]) && LegalNext(n, Owner(n, log[..|log| - 1]), log[|log| - 1]))
  }

  /** The state agrees with the log. */
  ghost predicate Inv(c: Config, s: State) {
    && Formed(c)
    && Legal(c.n, s.log)
    && s.active == Owner(c.n, s.log) <= c.n
    && 0 <= s.lockCount < UINT32_RANGE
    && s.lockCount == Held(s.log) % UINT32_RANGE
    && Held(s.log) >= 0
    && (s.active == c.n ==> Held(s.log) == 0)
    && (s.active != c.n ==> Held(s.log) >= 1)
  }

  lemma Logged(n: nat, log: seq<Event>, e: Event)
    ensures Legal(n, log + [e]) <==> Legal(n, log) && LegalNext(n, Owner(n, log), e)
    ensures Owner(n, log + [e]) ==
      match e { case Active(p) => p case Release(_) => n case Abort(_, true) => n case _ => Owner(n, log) }
    ensures Held(log + [e]) ==
      match e {
        case Granted(_) => Held(log) + 1
        case Returned(_) => Held(log) - 1
        case Active(_) => 0
        case Release(_) => 0
        case Abort(_, true) => 0
        case _ => Held(log)
      }
  {
    assert (log + [e])[..|log|] == log;
  }

  lemma SeizeKeepsInv(c: Config, s: State, p: nat)
    requires Inv(c, s) && s.active == c.n && p < c.n
    ensures Inv(c, Seize(s, p)) && Seize(s, p).active == p
  {
    Logged(c.n, s.log, Active(p));
    Logged(c.n, s.log + [Active(p)], Granted(p));
    assert s.log + [Active(p), Granted(p)] == s.log + [Active(p)] + [Granted(p)];
  }

  lemma AbortKeepsInv(c: Config, s: State, abortStatus: nat)
    requires Inv(c, s)
    ensures Inv(c, AbortOwner(c, s, abortStatus).0)
    ensures AbortOwner(c, s, abortStatus).1 == Success <==> AbortOwner(c, s, abortStatus).0.active == c.n
    ensures AbortOwner(c, s, abortStatus).1 != Success ==> AbortOwner(c, s, abortStatus).0.active == s.active
  {
    Logged(c.n, s.log, Abort(s.active, true));
    Logged(c.n, s.log, Abort(s.active, false));
  }

  lemma AcquireKeepsInv(c: Config, s: State, r: Request)
    requires Inv(c, s) && r.p < c.n
    ensures Inv(c, Acquire(c, s, r).0)
    ensures Acquire(c, s, r).1 == Success <==> Acquire(c, s, r).0.active == r.p
    ensures s.active != c.n ==> Acquire(c, s, r).0.active != c.n
  {
    hide Legal, Owner, Held, Seize, AbortOwner;
    if s.active == c.n {
      SeizeKeepsInv(c, s, r.p);
    } else if s.active == r.p {
      Logged(c.n, s.log, Granted(r.p));
      CountedUp(s.lockCount, Held(s.log));
    } else {
      var (s1, status) := AbortOwner(c, s, r.abortStatus);
      AbortKeepsInv(c, s, r.abortStatus);
      if status == Success {
        SeizeKeepsInv(c, s1, r.p);
      }
    }
  }

  lemma {:induction false} AcquireAllKeepsInv(c: Config, s: State, rs: seq<Request>)
    requires Inv(c, s) && forall i :: 0 <= i < |rs| ==> rs[i].p < c.n
    ensures Inv(c, AcquireAll(c, s, rs))
    ensures AcquireAll(c, s, rs).active == c.n <==> s.active == c.n && rs == []
    decreases rs
  {
    if rs != [] {
      AcquireKeepsInv(c, s, rs[0]);
      AcquireAllKeepsInv(c, Acquire(c, s, rs[0]).0, rs[1..]);
    }
  }

  lemma {:induction false} SignalIdleKeepsInv(c: Config, s: State, rest: seq<nat>, releaser: nat, replies: seq<Reply>)
    requires Inv(c, s) && Known(c, rest) && ValidReplies(c, replies)
    ensures Inv(c, SignalIdle(c, s, rest, releaser, replies).0)
    decreases rest
  {
    if rest != [] && s.active == c.n {
      if rest[0] == releaser {
        SignalIdleKeepsInv(c, s, rest[1..], releaser, replies);
      } else {
        Logged(c.n, s.log, Idle(rest[0]));
        var s0 := s.(log := s.log + [Idle(rest[0])]);
        AcquireAllKeepsInv(c, s0, replies[rest[0]].requests);
        SignalIdleKeepsInv(c, AcquireAll(c, s0, replies[rest[0]].requests), rest[1..], releaser, replies);
      }
    }
  }

  /** The owner's release, before anybody is told about it. */
  lemma ReturnKeepsInv(c: Config, s: State)
    requires Inv(c, s) && s.active != c.n
    ensures var left := (s.lockCount + UINT32_RANGE - 1) % UINT32_RANGE;
            var log1 := s.log + [Returned(s.active)];
            && (left != 0 ==> Inv(c, s.(lockCount := left, log := log1)))
            && (left == 0 ==> Inv(c, State(c.n, 0, log1 + [Release(s.active)])))
  {
    hide Legal, Owner, Held;
    Logged(c.n, s.log, Returned(s.active));
    Logged(c.n, s.log + [Returned(s.active)], Release(s.active));
    CountedDown(s.lockCount, Held(s.log));
  }

  /** The 32-bit count goes up with what it counts. */
  lemma CountedUp(count: int, held: nat)
    requires 0 <= count < UINT32_RANGE && count == held % UINT32_RANGE
    ensures (count + 1) % UINT32_RANGE == (held + 1) % UINT32_RANGE
  {
    var q := held / UINT32_RANGE;
    if count + 1 < UINT32_RANGE {
      DivUnique(held + 1, UINT32_RANGE, q, count + 1);
    } else {
      DivUnique(held + 1, UINT32_RANGE, q + 1, 0);
    }
  }

  /** The 32-bit count goes down with what it counts. */
  lemma CountedDown(count: int, held: nat)
    requires 0 <= count < UINT32_RANGE && count == held % UINT32_RANGE && held >= 1
    ensures (count + UINT32_RANGE - 1) % UINT32_RANGE == (held - 1) % UINT32_RANGE
  {
    var q := held / UINT32_RANGE;
    if count > 0 {
      DivUnique(count + UINT32_RANGE - 1, UINT32_RANGE, 1, count - 1);
      DivUnique(held - 1, UINT32_RANGE, q, count - 1);
    } else {
      DivUnique(UINT32_RANGE - 1, UINT32_RANGE, 0, UINT32_RANGE - 1);
      DivUnique(held - 1, UINT32_RANGE, q - 1, UINT32_RANGE - 1);
    }
  }

  lemma ReleaseKeepsInv(c: Config, s: State, chain: seq<nat>, p: nat, replies: seq<Reply>)
    requires Inv(c, s) && Known(c, chain) && ValidReplies(c, replies)
    ensures Inv(c, ReleaseOwner(c, s, chain, p, replies).0)
  {
    hide Legal, Owner, Held, SignalIdle;
    if s.active == c.n {
      SignalIdleKeepsInv(c, s, chain, p, replies);
    } else if p == s.active {
      ReturnKeepsInv(c, s);
      if (s.lockCount + UINT32_RANGE - 1) % UINT32_RANGE == 0 {
        SignalIdleKeepsInv(c, State(c.n, 0, s.log + [Returned(p)] + [Release(p)]), chain, p, replies);
      }
    }
  }

  // ----- sessions

  /** The lock count is zero exactly without an owner, unless a multiple of 2^32 acquires is outstanding. */
  lemma LockCountTellsOwner(c: Config, s: State)
    requires Inv(c, s)
    ensures (s.lockCount == 0 <==> s.active == c.n) <==> (Held(s.log) == 0 || Held(s.log) % UINT32_RANGE != 0)
    ensures Held(s.log) < UINT32_RANGE ==> s.lockCount == Held(s.log)
  {
  }

  /** A release by the owner ends the session exactly when it returns the last acquire, counted modulo 2^32. */
  lemma ReleaseEndsSession(c: Config, s: State, chain: seq<nat>, replies: seq<Reply>)
    requires Inv(c, s) && Known(c, chain) && ValidReplies(c, replies) && s.active != c.n
    ensures var t := ReleaseOwner(c, s, chain, s.active, replies).0;
            && (s.log + [Returned(s.active), Release(s.active)] <= t.log <==> (Held(s.log) - 1) % UINT32_RANGE == 0)
            && ((Held(s.log) - 1) % UINT32_RANGE != 0 ==> t.active == s.active && t.log == s.log + [Returned(s.active)])
  {
    hide Legal, Owner, Held;
    var left := (s.lockCount + UINT32_RANGE - 1) % UINT32_RANGE;
    CountedDown(s.lockCount, Held(s.log));
    if left == 0 {
      var ended := State(c.n, 0, s.log + [Returned(s.active)] + [Release(s.active)]);
      assert ended.log == s.log + [Returned(s.active), Release(s.active)];
      SignalIdleAppends(c, ended, chain, s.active, replies);
    }
  }

  lemma {:induction false} AcquireAllAppends(c: Config, s: State, rs: seq<Request>)
    requires Formed(c) && s.active <= c.n && forall i :: 0 <= i < |rs| ==> rs[i].p < c.n
    ensures s.log <= AcquireAll(c, s, rs).log
    decreases rs
  {
    if rs != [] {
      AcquireAllAppends(c, Acquire(c, s, rs[0]).0, rs[1..]);
    }
  }

  lemma {:induction false} SignalIdleAppends(c: Config, s: State, rest: seq<nat>, releaser: nat, replies: seq<Reply>)
    requires Known(c, rest) && s.active <= c.n && ValidReplies(c, replies)
    ensures s.log <= SignalIdle(c, s, rest, releaser, replies).0.log
    decreases rest
  {
    if rest != [] && s.active == c.n {
      if rest[0] == releaser {
        SignalIdleAppends(c, s, rest[1..], releaser, replies);
      } else {
        var s0 := s.(log := s.log + [Idle(rest[0])]);
        AcquireAllAppends(c, s0, replies[rest[0]].requests);
        SignalIdleAppends(c, AcquireAll(c, s0, replies[rest[0]].requests), rest[1..], releaser, replies);
      }
    }
  }

  /**
   * Whatever happened in between, a protocol's release is refused and changes nothing if and only if another
   * protocol owns the transceiver at that moment.
   */
  lemma ReleaseRefused(c: Config, s: State, chain: seq<nat>, p: nat, replies: seq<Reply>)
    requires Formed(c) && s.active <= c.n && Known(c, chain) && ValidReplies(c, replies)
    ensures ReleaseOwner(c, s, chain, p, replies) == (s, Denied) <==> s.active != c.n && s.active != p
    ensures ReleaseOwner(c, s, chain, p, replies).1 == Denied <==> s.active != c.n && s.active != p
  {
    var status := ReleaseOwner(c, s, chain, p, replies).1;
    if s.active == p || s.active == c.n {
      assert status == Denied ==> false by {
        hide SignalIdle;
        if s.active == c.n {
          SignalIdleNeverDenies(c, s, chain, p, replies);
        } else {
          SignalIdleNeverDenies(c, State(c.n, 0, s.log + [Returned(p)] + [Release(p)]), chain, p, replies);
        }
      }
    }
  }

  /** An owner's release always leaves its mark. */
  lemma ReleaseReturns(c: Config, s: State, chain: seq<nat>, p: nat, replies: seq<Reply>)
    requires Formed(c) && s.active == p < c.n && Known(c, chain) && ValidReplies(c, replies)
    ensures s.log + [Returned(p)] <= ReleaseOwner(c, s, chain, p, replies).0.log
  {
    var ended := State(c.n, 0, s.log + [Returned(p)] + [Release(p)]);
    SignalIdleAppends(c, ended, chain, p, replies);
  }

  lemma {:induction false} SignalIdleNeverDenies(c: Config, s: State, rest: seq<nat>, releaser: nat, replies: seq<Reply>)
    requires Formed(c) && s.active <= c.n && Known(c, rest) && ValidReplies(c, replies)
    ensures SignalIdle(c, s, rest, releaser, replies).1 in {Success, Error}
    decreases rest
  {
    if rest != [] && s.active == c.n {
      if rest[0] == releaser {
        SignalIdleNeverDenies(c, s, rest[1..], releaser, replies);
      } else {
        var s0 := s.(log := s.log + [Idle(rest[0])]);
        SignalIdleNeverDenies(c, AcquireAll(c, s0, replies[rest[0]].requests), rest[1..], releaser, replies);
      }
    }
  }

  // ----- preemption

  /** The protocols of strictly higher priority than p, which may preempt it without force. */
  ghost function Above(c: Config, p: nat): set<nat>
    requires Formed(c) && p < c.n
  {
    set q | 0 <= q < c.n && c.priority[q] < c.priority[p]
  }

  /** Successful Abort callbacks in a log. */
  function Preemptions(log: seq<Event>): nat {
    if log == [] then 0
    else (if log[|log| - 1].Abort? && log[|log| - 1].accepted then 1 else 0) + Preemptions(log[..|log| - 1])
  }

  lemma PreemptionsLogged(log: seq<Event>, e: Event)
    ensures Preemptions(log + [e]) == Preemptions(log) + (if e.Abort? && e.accepted then 1 else 0)
  {
    assert (log + [e])[..|log|] == log;
  }

  /** Without force the owner only ever gives way to a strictly higher priority. */
  lemma UnforcedAcquire(c: Config, s: State, r: Request)
    requires Inv(c, s) && s.active != c.n && r.p < c.n && !r.force
    ensures var t := Acquire(c, s, r).0;
            && t.active < c.n
            && (t.active != s.active ==> c.priority[t.active] < c.priority[s.active])
            && Preemptions(t.log) == Preemptions(s.log) + (if t.active != s.active then 1 else 0)
            && Preemptions(t.log) + |Above(c, t.active)| <= Preemptions(s.log) + |Above(c, s.active)|
  {
    hide Preemptions, Legal, Owner, Held, Above;
    AcquireKeepsInv(c, s, r);
    var t := Acquire(c, s, r).0;
    PreemptionsLogged(s.log, Granted(r.p));
    PreemptionsLogged(s.log, Abort(s.active, false));
    if t.active != s.active {
      PreemptionLogged(s.log, s.active, r.p);
      FewerAbove(c, s.active, t.active);
    }
  }

  lemma PreemptionLogged(log: seq<Event>, p: nat, q: nat)
    ensures Preemptions(log + [Abort(p, true)] + [Active(q), Granted(q)]) == Preemptions(log) + 1
  {
    hide Preemptions;
    var log1 := log + [Abort(p, true)];
    PreemptionsLogged(log, Abort(p, true));
    PreemptionsLogged(log1, Active(q));
    PreemptionsLogged(log1 + [Active(q)], Granted(q));
    assert log1 + [Active(q), Granted(q)] == log1 + [Active(q)] + [Granted(q)];
  }

  lemma FewerAbove(c: Config, p: nat, q: nat)
    requires Formed(c) && p < c.n && q < c.n && c.priority[q] < c.priority[p]
    ensures |Above(c, q)| + 1 <= |Above(c, p)|
  {
    assert Above(c, q) <= Above(c, p) - {q};
    SubsetSize(Above(c, q), Above(c, p) - {q});
  }

  lemma {:induction false} SubsetSize(a: set<nat>, b: set<nat>)
    requires a <= b
    ensures |a| <= |b|
    decreases a
  {
    if a != {} {
      var x :| x in a;
      SubsetSize(a - {x}, b - {x});
    }
  }

  lemma {:induction false} BelowSize(s: set<nat>, n: nat)
    requires forall x :: x in s ==> x < n
    ensures |s| <= n
  {
    if n == 0 {
      assert s == {};
    } else {
      BelowSize(s - {n - 1}, n - 1);
    }
  }

  /** So unforced acquires preempt at most n - 1 times in a row, whatever the Abort callbacks answer. */
  lemma {:induction false} PreemptionsBounded(c: Config, s: State, rs: seq<Request>)
    requires Inv(c, s) && s.active != c.n
    requires forall i :: 0 <= i < |rs| ==> rs[i].p < c.n && !rs[i].force
    ensures var t := AcquireAll(c, s, rs);
            && t.active < c.n && c.priority[t.active] <= c.priority[s.active]
            && Preemptions(t.log) + |Above(c, t.active)| <= Preemptions(s.log) + |Above(c, s.active)|
            && Preemptions(t.log) - Preemptions(s.log) <= c.n - 1
    decreases rs
  {
    if rs == [] {
    } else {
      UnforcedAcquire(c, s, rs[0]);
      AcquireKeepsInv(c, s, rs[0]);
      PreemptionsBounded(c, Acquire(c, s, rs[0]).0, rs[1..]);
    }
    var others := Above(c, s.active);
    assert s.active !in others;
    BelowSize(others + {s.active}, c.n);
  }

  // ----- idle notification

  function Without(rest: seq<nat>, p: nat): seq<nat> {
    if rest == [] then []
    else if rest[0] == p then Without(rest[1..], p)
    else [rest[0]] + Without(rest[1..], p)
  }

  /** The protocols told that the transceiver is idle, in order. */
  function Notified(log: seq<Event>): seq<nat> {
    if log == [] then []
    else Notified(log[..|log| - 1]) + (if log[|log| - 1].Idle? then [log[|log| - 1].p] else [])
  }

  lemma NotifiedLogged(log: seq<Event>, e: Event)
    ensures Notified(log + [e]) == Notified(log) + (if e.Idle? then [e.p] else [])
  {
    assert (log + [e])[..|log|] == log;
  }

  /** How many of the targets are told: up to and including the first one that answers by acquiring. */
  function Reach(targets: seq<nat>, replies: seq<Reply>): (k: nat)
    requires forall i :: 0 <= i < |targets| ==> targets[i] < |replies|
    ensures k <= |targets|
  {
    if targets == [] then 0
    else if replies[targets[0]].requests != [] then 1
    else 1 + Reach(targets[1..], replies)
  }

  lemma {:induction false} AcquireAllNotifiesNobody(c: Config, s: State, rs: seq<Request>)
    requires Formed(c) && s.active <= c.n && forall i :: 0 <= i < |rs| ==> rs[i].p < c.n
    ensures Notified(AcquireAll(c, s, rs).log) == Notified(s.log)
    decreases rs
  {
    if rs != [] {
      AcquireNotifiesNobody(c, s, rs[0]);
      hide Notified, Acquire;
      AcquireAllNotifiesNobody(c, Acquire(c, s, rs[0]).0, rs[1..]);
    }
  }

  lemma AcquireNotifiesNobody(c: Config, s: State, r: Request)
    requires Formed(c) && s.active <= c.n && r.p < c.n
    ensures Notified(Acquire(c, s, r).0.log) == Notified(s.log)
  {
    hide Notified, Seize;
    NotifiedLogged(s.log, Granted(r.p));
    NotifiedLogged(s.log, Abort(s.active, false));
    NotifiedLogged(s.log, Abort(s.active, true));
    SeizeNotifiesNobody(s, r.p);
    SeizeNotifiesNobody(AbortOwner(c, s, r.abortStatus).0, r.p);
  }

  lemma SeizeNotifiesNobody(s: State, p: nat)
    ensures Notified(Seize(s, p).log) == Notified(s.log)
  {
    NotifiedLogged(s.log, Active(p));
    NotifiedLogged(s.log + [Active(p)], Granted(p));
    assert s.log + [Active(p), Granted(p)] == s.log + [Active(p)] + [Granted(p)];
  }

  lemma {:induction false} WithoutKnown(rest: seq<nat>, p: nat, n: nat)
    requires forall i :: 0 <= i < |rest| ==> rest[i] < n
    ensures forall i :: 0 <= i < |Without(rest, p)| ==> Without(rest, p)[i] < n && Without(rest, p)[i] != p
  {
    if rest != [] {
      WithoutKnown(rest[1..], p, n);
    }
  }

  /** Who gets told, walking the chain. */
  function Told(rest: seq<nat>, releaser: nat, replies: seq<Reply>): seq<nat>
    requires forall i :: 0 <= i < |rest| ==> rest[i] < |replies|
  {
    if rest == [] then []
    else if rest[0] == releaser then Told(rest[1..], releaser, replies)
    else if replies[rest[0]].requests != [] then [rest[0]]
    else [rest[0]] + Told(rest[1..], releaser, replies)
  }

  lemma {:induction false} ToldIsPrefix(rest: seq<nat>, releaser: nat, replies: seq<Reply>)
    requires forall i :: 0 <= i < |rest| ==> rest[i] < |replies|
    ensures var targets := Without(rest, releaser);
            && (forall i :: 0 <= i < |targets| ==> targets[i] < |replies|)
            && Told(rest, releaser, replies) == targets[..Reach(targets, replies)]
  {
    WithoutKnown(rest, releaser, |replies|);
    if rest != [] {
      ToldIsPrefix(rest[1..], releaser, replies);
      var targets, later := Without(rest, releaser), Without(rest[1..], releaser);
      if rest[0] != releaser {
        assert targets[1..] == later;
        if replies[rest[0]].requests == [] {
          var k := Reach(later, replies);
          assert targets[..1 + k] == [rest[0]] + later[..k];
        } else {
          assert targets[..1] == [rest[0]];
        }
      }
    }
  }

  /** Nobody in the chain except perhaps the releaser wants the transceiver. */
  predicate NobodyWants(rest: seq<nat>, releaser: nat, replies: seq<Reply>)
    requires forall i :: 0 <= i < |rest| ==> rest[i] < |replies|
  {
    forall i :: 0 <= i < |rest| && rest[i] != releaser ==> replies[rest[i]].requests == []
  }

  lemma NobodyWantsSplit(rest: seq<nat>, releaser: nat, replies: seq<Reply>)
    requires rest != [] && forall i :: 0 <= i < |rest| ==> rest[i] < |replies|
    ensures NobodyWants(rest, releaser, replies) <==>
            (rest[0] == releaser || replies[rest[0]].requests == []) && NobodyWants(rest[1..], releaser, replies)
  {
    assert forall i :: 0 <= i < |rest| - 1 ==> rest[1..][i] == rest[i + 1];
    assert forall i :: 1 <= i < |rest| ==> rest[i] == rest[1..][i - 1];
  }

  predicate AllOk(told: seq<nat>, replies: seq<Reply>) {
    forall p :: p in told && p < |replies| ==> replies[p].status == 0
  }

  lemma {:induction false} SignalIdleTells(c: Config, s: State, rest: seq<nat>, releaser: nat, replies: seq<Reply>)
    requires Inv(c, s) && s.active == c.n && Known(c, rest) && ValidReplies(c, replies)
    ensures var (t, status) := SignalIdle(c, s, rest, releaser, replies);
            && Notified(t.log) == Notified(s.log) + Told(rest, releaser, replies)
            && (t.active == c.n <==> NobodyWants(rest, releaser, replies))
            && (status == Success <==> AllOk(Told(rest, releaser, replies), replies))
    decreases rest
  {
    hide NobodyWants, AllOk, Notified, Inv;
    if rest == [] {
      Nobody(releaser, replies);
    } else if rest[0] == releaser {
      NobodyWantsSplit(rest, releaser, replies);
      SignalIdleTells(c, s, rest[1..], releaser, replies);
    } else {
      NobodyWantsSplit(rest, releaser, replies);
      var p, reply := rest[0], replies[rest[0]];
      IdleCallbackKeepsInv(c, s, p, reply);
      if reply.requests == [] {
        var s0 := s.(log := s.log + [Idle(p)]);
        SignalIdleTells(c, s0, rest[1..], releaser, replies);
        var told := Told(rest[1..], releaser, replies);
        AllOkSplit(p, told, replies);
        assert Notified(s.log) + ([p] + told) == Notified(s.log) + [p] + told;
      } else {
        AllOkSplit(p, [], replies);
      }
    }
  }

  lemma Nobody(releaser: nat, replies: seq<Reply>)
    ensures NobodyWants([], releaser, replies) && AllOk([], replies)
  {
  }

  lemma AllOkSplit(p: nat, told: seq<nat>, replies: seq<Reply>)
    requires p < |replies|
    ensures AllOk([p] + told, replies) <==> replies[p].status == 0 && AllOk(told, replies)
    ensures [p] + [] == [p] && AllOk([], replies)
  {
    assert p in [p] + told;
    assert forall q :: q in told ==> q in [p] + told;
  }

  lemma IdleCallbackKeepsInv(c: Config, s: State, p: nat, reply: Reply)
    requires Inv(c, s) && s.active == c.n && p < c.n
    requires forall i :: 0 <= i < |reply.requests| ==> reply.requests[i].p < c.n
    ensures var s0 := s.(log := s.log + [Idle(p)]);
            var s1 := AcquireAll(c, s0, reply.requests);
            && Inv(c, s0) && Inv(c, s1)
            && (s1.active == c.n <==> reply.requests == [])
            && (reply.requests == [] ==> s1 == s0)
            && Notified(s1.log) == Notified(s0.log) == Notified(s.log) + [p]
  {
    var s0 := s.(log := s.log + [Idle(p)]);
    Logged(c.n, s.log, Idle(p));
    NotifiedLogged(s.log, Idle(p));
    AcquireAllKeepsInv(c, s0, reply.requests);
    AcquireAllNotifiesNobody(c, s0, reply.requests);
  }

  /**
   * Starting idle, MWS_SignalIdle tells the other protocols in chain order, stops after the
   * first that acquires, never tells the releaser, and ends with an owner exactly when it was stopped.
   */
  lemma SignalIdleNotifies(c: Config, s: State, chain: seq<nat>, releaser: nat, replies: seq<Reply>)
    requires Inv(c, s) && s.active == c.n && Known(c, chain) && ValidReplies(c, replies)
    ensures forall i :: 0 <= i < |Without(chain, releaser)| ==> Without(chain, releaser)[i] < c.n
    ensures var (t, status) := SignalIdle(c, s, chain, releaser, replies);
            var targets := Without(chain, releaser);
            var told := targets[..Reach(targets, replies)];
            && Inv(c, t)
            && releaser !in told
            && Notified(t.log) == Notified(s.log) + told
            && (t.active == c.n <==> NobodyWants(chain, releaser, replies))
            && (status == Success <==> AllOk(told, replies))
  {
    hide Inv, Notified, SignalIdle;
    SignalIdleKeepsInv(c, s, chain, releaser, replies);
    SignalIdleTells(c, s, chain, releaser, replies);
    ToldIsPrefix(chain, releaser, replies);
    WithoutKnown(chain, releaser, c.n);
  }
}
