/**
 * Messages from the other core, handed from the receive interrupt to the work queue:
 * PLATFORM_FwkSrv_RxCallBack and PLATFORM_RxWorkHandler on top of WORKQ_SubmitToQueue and
 * workq_thread. The interrupt may come between any two steps of the thread.
 */
module RxQueue {
  datatype Message = Message(id: nat)

  /** A message as the interrupt saw it, and whether it could be copied and its work submitted. */
  datatype Arrival = Arrival(msg: Message, expected: bool, immediate: bool, allocOk: bool, submitted: bool)

  /** Where workq_thread stands. */
  datatype Thread =
    | Waiting
    | Popping
    | Popped
    | Fetching
    | Dispatching(msg: Message)
    | Finishing

  /**
   * started, notify and inQueue belong to the work queue, queued and running are the flags of
   * the one work item, pending is its list of copied messages. handled and direct are the
   * messages serviced by the handler and in the interrupt.
   */
  datatype State = State(started: bool, notify: bool, inQueue: bool, queued: bool, running: bool, thread: Thread,
                         pending: seq<Message>, handled: seq<Message>, direct: seq<Message>, log: seq<Arrival>)

  const INITIAL := State(false, false, false, false, false, Waiting, [], [], [], [])

  /** The interrupt: PLATFORM_FwkSrv_RxCallBack with WORKQ_SubmitToQueue inlined. */
  function Receive(s: State, msg: Message, expected: bool, immediate: bool, allocOk: bool): State {
    if !expected then s.(log := s.log + [Arrival(msg, expected, immediate, allocOk, false)])
    else if immediate || !allocOk then
      s.(direct := s.direct + [msg], log := s.log + [Arrival(msg, expected, immediate, allocOk, false)])
    else if s.queued then
      s.(pending := s.pending + [msg], log := s.log + [Arrival(msg, expected, immediate, allocOk, true)])
    else if !s.started then
      s.(pending := s.pending + [msg], direct := s.direct + [msg],
         log := s.log + [Arrival(msg, expected, immediate, allocOk, false)])
    else
      s.(pending := s.pending + [msg], inQueue := true, queued := true, notify := true,
         log := s.log + [Arrival(msg, expected, immediate, allocOk, true)])
  }

  /** The next step of workq_thread, or none while it waits for a notification. */
  predicate CanStep(s: State) { s.started && (s.thread == Waiting ==> s.notify) }

  function ThreadStep(s: State): State
    requires CanStep(s)
  {
    match s.thread
    case Waiting => s.(notify := false, thread := Popping)
    case Popping => if s.inQueue then s.(inQueue := false, thread := Popped) else s.(thread := Waiting)
    case Popped => s.(running := true, queued := false, thread := Fetching)
    case Fetching =>
      if s.pending == [] then s.(thread := Finishing)
      else s.(pending := s.pending[1..], thread := Dispatching(s.pending[0]))
    case Dispatching(m) => s.(handled := s.handled + [m], thread := Fetching)
    case Finishing => s.(running := false, thread := Popping)
  }

  datatype Action =
    | Start
    | Interrupt(msg: Message, expected: bool, immediate: bool, allocOk: bool)
    | Thread

  function Step(s: State, a: Action): State {
    match a
    case Start => s.(started := true)
    case Interrupt(msg, expected, immediate, allocOk) => Receive(s, msg, expected, immediate, allocOk)
    case Thread => if CanStep(s) then ThreadStep(s) else s
  }

  // ----- what should have happened, told from the arrivals alone

  /** Copied for the handler. */
  predicate IsDeferred(a: Arrival) { a.expected && !a.immediate && a.allocOk }

  /** Messages copied for the handler. */
  function Deferred(log: seq<Arrival>): seq<Message> {
    if log == [] then []
    else
      var a := log[|log| - 1];
      Deferred(log[..|log| - 1]) + (if IsDeferred(a) then [a.msg] else [])
  }

  /** Messages serviced in the interrupt: the immediate ones, and those that could not be handed over. */
  function Direct(log: seq<Arrival>): seq<Message> {
    if log == [] then []
    else
      var a := log[|log| - 1];
      Direct(log[..|log| - 1])
      + (if a.expected && (a.immediate || !a.allocOk || !a.submitted) then [a.msg] else [])
  }

  /** The last message copied for the handler was not followed by a successful submission. */
  function Refused(log: seq<Arrival>): bool {
    if log == [] then false
    else
      var a := log[|log| - 1];
      if IsDeferred(a) then !a.submitted else Refused(log[..|log| - 1])
  }

  /** Some message has been handed over to the work queue. */
  function HandedOver(log: seq<Arrival>): bool {
    log != [] && (log[|log| - 1].submitted || HandedOver(log[..|log| - 1]))
  }

  /** How often a message occurs. */
  function Times(s: seq<Message>, m: Message): nat {
    if s == [] then 0 else Times(s[..|s| - 1], m) + if s[|s| - 1] == m then 1 else 0
  }

  lemma Logged(log: seq<Arrival>, a: Arrival)
    ensures Deferred(log + [a]) == Deferred(log) + (if IsDeferred(a) then [a.msg] else [])
    ensures Direct(log + [a])
         == Direct(log) + (if a.expected && (a.immediate || !a.allocOk || !a.submitted) then [a.msg] else [])
    ensures Refused(log + [a])
         == if IsDeferred(a) then !a.submitted else Refused(log)
    ensures HandedOver(log + [a]) == (a.submitted || HandedOver(log))
  {
    assert (log + [a])[..|log|] == log;
  }

  function InFlight(s: State): seq<Message> { if s.thread.Dispatching? then [s.thread.msg] else [] }

  ghost predicate Inv(s: State) {
    && s.handled + InFlight(s) + s.pending == Deferred(s.log)
    && s.direct == Direct(s.log)
    && (s.queued <==> s.inQueue || s.thread == Popped)
    && (s.running <==> s.thread == Fetching || s.thread.Dispatching? || s.thread == Finishing)
    && !(s.inQueue && s.thread == Popped)
    && (s.inQueue && s.thread == Waiting ==> s.notify)
    && (!s.started ==> s.thread == Waiting && !s.queued && !s.notify)
    && (s.pending != [] ==> s.queued || s.thread == Fetching || s.thread.Dispatching? || Refused(s.log))
    && (!s.started ==> !HandedOver(s.log))
    && (!HandedOver(s.log) ==> s.handled == [] && s.thread == Waiting && !s.notify && !s.queued)
    && (Refused(s.log) <==> Deferred(s.log) != [] && !HandedOver(s.log))
  }

  lemma StepKeepsInv(s: State, a: Action)
    requires Inv(s)
    ensures Inv(Step(s, a))
  {
    hide Deferred, Direct, Refused, HandedOver;
    match a
    case Start =>
    case Interrupt(msg, expected, immediate, allocOk) =>
      Logged(s.log, Arrival(msg, expected, immediate, allocOk, false));
      Logged(s.log, Arrival(msg, expected, immediate, allocOk, true));
      assert s.handled + InFlight(s) + (s.pending + [msg]) == s.handled + InFlight(s) + s.pending + [msg];
    case Thread =>
      if s.thread == Fetching && s.pending != [] {
        assert s.handled + [] + s.pending == s.handled + [s.pending[0]] + s.pending[1..];
      } else if s.thread.Dispatching? {
        assert s.handled + [s.thread.msg] + s.pending == s.handled + [s.thread.msg] + [] + s.pending;
      }
  }

  function Run(s: State, actions: seq<Action>): State {
    if actions == [] then s else Step(Run(s, actions[..|actions| - 1]), actions[|actions| - 1])
  }

  /**
   * Over every interleaving: what the handler serviced, what it holds and what is pending make up
   * the deferred messages in arrival order, and the interrupt serviced exactly the others and the refused.
   */
  lemma {:induction false} RunKeepsInv(actions: seq<Action>)
    ensures Inv(Run(INITIAL, actions))
  {
    if actions != [] {
      RunKeepsInv(actions[..|actions| - 1]);
      StepKeepsInv(Run(INITIAL, actions[..|actions| - 1]), actions[|actions| - 1]);
    }
  }

  // ----- nothing is left behind

  /** Steps the thread still has to make when no more interrupts come. */
  function Work(s: State): nat {
    2 * |s.pending| + (if s.inQueue then 4 else 0) + (if s.notify then 2 else 0)
    + match s.thread {
        case Waiting => 0
        case Popping => 1
        case Finishing => 2
        case Fetching => 3
        case Dispatching(_) => 4
        case Popped => 4
      }
  }

  lemma StepWorks(s: State)
    requires CanStep(s)
    ensures Work(ThreadStep(s)) < Work(s)
  {
  }

  /** The thread alone, until it waits with nothing to wake it. */
  function Drain(s: State): (t: State)
    requires s.started
    ensures t.started && !CanStep(t) && t.log == s.log
    decreases Work(s)
  {
    if CanStep(s) then
      StepWorks(s);
      Drain(ThreadStep(s))
    else s
  }

  lemma {:induction false} DrainKeepsInv(s: State)
    requires Inv(s) && s.started
    ensures Inv(Drain(s))
    decreases Work(s)
  {
    if CanStep(s) {
      StepWorks(s);
      StepKeepsInv(s, Thread);
      DrainKeepsInv(ThreadStep(s));
    }
  }

  // ----- what should happen, told from what was done to the service

  /** An arrival that is copied for the handler. */
  predicate Defers(a: Action) { a.Interrupt? && a.expected && !a.immediate && a.allocOk }

  /** Action k is such an arrival and finds the queue started, so WORKQ_Submit does not fail. */
  predicate TakenAt(actions: seq<Action>, k: nat)
    requires k < |actions|
  {
    Defers(actions[k]) && Start in actions[..k]
  }

  /** Some deferred message arrived after the queue was started. */
  ghost predicate SomeTaken(actions: seq<Action>) { exists k :: 0 <= k < |actions| && TakenAt(actions, k) }

  /** The deferred messages, in order of arrival. */
  function DeferredIn(actions: seq<Action>): seq<Message> {
    if actions == [] then []
    else
      var a := actions[|actions| - 1];
      DeferredIn(actions[..|actions| - 1]) + (if Defers(a) then [a.msg] else [])
  }

  /** The messages for the interrupt: expected ones that are immediate, could not be copied, or came before Start. */
  function DirectIn(actions: seq<Action>): seq<Message> {
    if actions == [] then []
    else
      var a, before := actions[|actions| - 1], actions[..|actions| - 1];
      DirectIn(before)
      + (if a.Interrupt? && a.expected && (a.immediate || !a.allocOk || Start !in before) then [a.msg] else [])
  }

  lemma SomeTakenPush(actions: seq<Action>, a: Action)
    ensures SomeTaken(actions + [a]) <==> SomeTaken(actions) || (Defers(a) && Start in actions)
  {
    var more, n := actions + [a], |actions|;
    assert more[..n] == actions;
    forall k | 0 <= k < n ensures TakenAt(more, k) == TakenAt(actions, k) {
      assert more[..k] == actions[..k];
    }
    assert TakenAt(more, n) <==> Defers(a) && Start in actions;
  }

  /** What an interrupt does, as far as the log and the start are concerned. */
  lemma StepLogs(s: State, a: Action)
    requires Inv(s)
    ensures Step(s, a).started <==> s.started || a == Start
    ensures var log := Step(s, a).log;
            if a.Interrupt?
            then log == s.log + [Arrival(a.msg, a.expected, a.immediate, a.allocOk, Defers(a) && s.started)]
            else log == s.log
  {
  }

  /** The run's log says what its actions say. */
  lemma {:induction false} LogTells(actions: seq<Action>)
    ensures var s := Run(INITIAL, actions);
            && (s.started <==> Start in actions)
            && Deferred(s.log) == DeferredIn(actions) && Direct(s.log) == DirectIn(actions)
            && (HandedOver(s.log) <==> SomeTaken(actions))
  {
    if actions != [] {
      var n := |actions| - 1;
      var before, a, s := actions[..n], actions[n], Run(INITIAL, actions[..n]);
      assert actions == before + [a];
      LogTells(before);
      RunKeepsInv(before);
      StepLogs(s, a);
      SomeTakenPush(before, a);
      hide Step, Inv, SomeTaken, Deferred, Direct, HandedOver, Refused;
      if a.Interrupt? {
        Logged(s.log, Arrival(a.msg, a.expected, a.immediate, a.allocOk, Defers(a) && s.started));
      }
    }
  }

  /**
   * No wake-up is lost: once the interrupts stop, the thread comes to rest having serviced every deferred message
   * exactly once and in arrival order, if and only if there was none or one arrived after the queue was started.
   * If all came before, none is serviced.
   */
  lemma DrainServicesAll(actions: seq<Action>)
    requires Start in actions
    ensures Run(INITIAL, actions).started
    ensures var t := Drain(Run(INITIAL, actions));
            && t.direct == DirectIn(actions)
            && t.handled == (if SomeTaken(actions) then DeferredIn(actions) else [])
            && t.pending == (if SomeTaken(actions) then [] else DeferredIn(actions))
            && (t.handled == DeferredIn(actions) <==> DeferredIn(actions) == [] || SomeTaken(actions))
  {
    hide Run, SomeTaken, Deferred, Direct, HandedOver, Refused, DeferredIn, DirectIn;
    RunKeepsInv(actions);
    LogTells(actions);
    var s := Run(INITIAL, actions);
    DrainKeepsInv(s);
    var t := Drain(s);
    hide Drain;
    assert t.handled + [] + t.pending == t.handled + t.pending;
    if t.pending == [] {
      assert t.handled + [] == t.handled;
    }
  }

  // ----- how often a message is serviced

  lemma TimesPush(s: seq<Message>, x: Message, m: Message)
    ensures Times(s + [x], m) == Times(s, m) + (if x == m then 1 else 0) && Times(s + [], m) == Times(s, m)
  {
    assert (s + [x])[..|s|] == s && s + [] == s;
  }

  /** A message that never arrives is in neither list. */
  lemma {:induction false} NeverArrived(actions: seq<Action>, m: Message)
    requires forall j :: 0 <= j < |actions| && actions[j].Interrupt? ==> actions[j].msg != m
    ensures Times(DeferredIn(actions), m) == 0 && Times(DirectIn(actions), m) == 0
  {
    if actions != [] {
      var n := |actions| - 1;
      NeverArrived(actions[..n], m);
      TimesIn(actions, m);
    }
  }

  /** Arrival k brings a deferred message that comes no other time. */
  ghost predicate ArrivesOnce(actions: seq<Action>, k: nat) {
    && k < |actions| && Defers(actions[k])
    && forall j :: 0 <= j < |actions| && j != k && actions[j].Interrupt? ==> actions[j].msg != actions[k].msg
  }

  lemma {:induction false} CountedOnce(actions: seq<Action>, k: nat)
    requires ArrivesOnce(actions, k)
    ensures Times(DeferredIn(actions), actions[k].msg) == 1
    ensures Times(DirectIn(actions), actions[k].msg) == if Start in actions[..k] then 0 else 1
  {
    var n, m := |actions| - 1, actions[k].msg;
    var before := actions[..n];
    if k == n {
      NeverArrived(before, m);
    } else {
      assert before[..k] == actions[..k];
      CountedOnce(before, k);
    }
    TimesIn(actions, m);
    hide DeferredIn, DirectIn, Times;
  }

  /** How the last action adds to the counts. */
  lemma TimesIn(actions: seq<Action>, m: Message)
    requires actions != []
    ensures var a, before := actions[|actions| - 1], actions[..|actions| - 1];
            var isM := a.Interrupt? && a.msg == m;
            && Times(DeferredIn(actions), m) == Times(DeferredIn(before), m) + (if isM && Defers(a) then 1 else 0)
            && Times(DirectIn(actions), m)
               == Times(DirectIn(before), m)
                  + (if isM && a.expected && (a.immediate || !a.allocOk || Start !in before) then 1 else 0)
  {
    var a, before := actions[|actions| - 1], actions[..|actions| - 1];
    hide Times;
    if a.Interrupt? {
      TimesPush(DeferredIn(before), a.msg, m);
      TimesPush(DirectIn(before), a.msg, m);
    }
    assert DeferredIn(before) + [] == DeferredIn(before) && DirectIn(before) + [] == DirectIn(before);
  }

  /**
   * In every run a deferred message is serviced at least once, and twice exactly if it arrived before the queue was
   * started and another deferred one after.
   */
  lemma ServicedHowOften(actions: seq<Action>, k: nat)
    requires Start in actions && ArrivesOnce(actions, k)
    ensures Run(INITIAL, actions).started
    ensures var t, m := Drain(Run(INITIAL, actions)), actions[k].msg;
            Times(t.handled, m) + Times(t.direct, m) == if Start !in actions[..k] && SomeTaken(actions) then 2 else 1
  {
    DrainServicesAll(actions);
    CountedOnce(actions, k);
    if Start in actions[..k] {
      assert TakenAt(actions, k);
    }
    hide Run, Drain, DeferredIn, DirectIn;
  }

  /** A run in which it is: the first message arrives before Start and the second after. */
  lemma RefusedIsServicedTwice(m: Message, later: Message)
    requires m != later
    ensures var actions := [Interrupt(m, true, false, true), Start, Interrupt(later, true, false, true)];
            && Run(INITIAL, actions).started
            && var t := Drain(Run(INITIAL, actions));
               Times(t.handled, m) + Times(t.direct, m) == 2 && Times(t.handled, later) + Times(t.direct, later) == 1
  {
    var actions := [Interrupt(m, true, false, true), Start, Interrupt(later, true, false, true)];
    assert actions[1] == Start;
    assert actions[..0] == [] && actions[..2] == [Interrupt(m, true, false, true), Start];
    assert actions[..2][1] == Start && TakenAt(actions, 2);
    ServicedHowOften(actions, 0);
    ServicedHowOften(actions, 2);
    hide Run, Drain;
  }

  // ----- the code itself

  class RxService {
    var started: bool
    var notify: bool
    var inQueue: bool
    var queued: bool
    var running: bool
    var thread: Thread
    var pending: seq<Message>
    ghost var handled: seq<Message>
    ghost var direct: seq<Message>
    ghost var log: seq<Arrival>

    ghost function View(): State
      reads this
    {
      State(started, notify, inQueue, queued, running, thread, pending, handled, direct, log)
    }

    constructor ()
      ensures View() == INITIAL && Inv(View())
    {
      started, notify, inQueue, queued, running := false, false, false, false, false;
      thread, pending, handled, direct, log := Waiting, [], [], [], [];
    }

    /** WORKQ_SubmitToQueue: 1 when already queued, 2 when running, -1 when the queue is not started. */
    method Submit() returns (ret: int)
      modifies this`inQueue, this`queued, this`notify
      ensures ret < 0 <==> !old(queued) && !started
      ensures if old(queued) || !started then
                inQueue == old(inQueue) && queued == old(queued) && notify == old(notify)
              else inQueue && queued && notify
    {
      ret := 0;
      if queued {
        return 1;
      }
      if running {
        ret := 2;
      }
      if !started {
        return -1;
      }
      inQueue := true;
      queued := true;
      notify := true;
    }

    method RxCallBack(msg: Message, expected: bool, immediate: bool, allocOk: bool)
      requires Inv(View())
      modifies this
      ensures View() == Step(old(View()), Interrupt(msg, expected, immediate, allocOk))
      ensures Inv(View())
    {
      hide Inv;
      StepKeepsInv(View(), Interrupt(msg, expected, immediate, allocOk));
      if expected {
        var processNow := false;
        if !immediate {
          if allocOk {
            pending := pending + [msg];
            var ret := Submit();
            log := log + [Arrival(msg, expected, immediate, allocOk, ret >= 0)];
            if ret < 0 {
              processNow := true;
            }
          } else {
            log := log + [Arrival(msg, expected, immediate, allocOk, false)];
            processNow := true;
          }
        } else {
          log := log + [Arrival(msg, expected, immediate, allocOk, false)];
          processNow := true;
        }
        if processNow {
          direct := direct + [msg];
        }
      } else {
        log := log + [Arrival(msg, expected, immediate, allocOk, false)];
      }
    }

    /** What workq_thread and, inside it, PLATFORM_RxWorkHandler do between two points where an interrupt may come. */
    method ThreadStep()
      requires Inv(View()) && CanStep(View())
      modifies this
      ensures Inv(View()) && View() == Step(old(View()), Thread)
    {
      hide Inv;
      StepKeepsInv(View(), Thread);
      match thread {
        case Waiting =>
          notify := false;
          thread := Popping;
        case Popping =>
          if inQueue {
            inQueue := false;
            thread := Popped;
          } else {
            thread := Waiting;
          }
        case Popped =>
          running := true;
          queued := false;
          thread := Fetching;
        case Fetching =>
          if pending == [] {
            thread := Finishing;
          } else {
            thread := Dispatching(pending[0]);
            pending := pending[1..];
          }
        case Dispatching(m) =>
          handled := handled + [m];
          thread := Fetching;
        case Finishing =>
          running := false;
          thread := Popping;
      }
    }
  }
}
