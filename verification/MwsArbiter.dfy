/** MWS.c with its static variables: the priority list threaded through an array, the owner and the lock count. */
module MwsArbiter {
  import opened MachineWords
  import opened Mws
  import opened MwsChain

  class Arbiter {
    ghost const config: Config
    /** gMWS_None_c. */
    const none: nat
    const mProtocolPriority: array<nat>
    const mProtocolNextPrio: array<nat>
    /** Whether a callback is registered. */
    const mMwsCallbacks: array<bool>
    var mFirstMwsPrio: nat
    var mActiveProtocol: nat
    var mwsLockCount: nat
    /** The callbacks made, the acquires granted and the releases taken so far. */
    ghost var log: seq<Event>
    /** The registered protocols in list order. */
    ghost var chain: seq<nat>

    ghost predicate Valid()
      reads this, mProtocolPriority, mProtocolNextPrio, mMwsCallbacks
    {
      && Formed(config) && config.n == none && Distinct(config)
      && mProtocolPriority.Length == mProtocolNextPrio.Length == mMwsCallbacks.Length == none
      && mProtocolPriority != mProtocolNextPrio
      && mProtocolPriority[..] == config.priority
      && Linked(mProtocolNextPrio[..], none, chain, mFirstMwsPrio)
      && (forall p :: 0 <= p < none ==> (mMwsCallbacks[p] <==> p in chain))
      && SystemInv(config, View())
    }

    ghost function View(): System
      reads this
    {
      System(chain, State(mActiveProtocol, mwsLockCount, log))
    }

    constructor (priority: seq<nat>)
      requires forall p, q :: 0 <= p < q < |priority| ==> priority[p] != priority[q]
      ensures Valid() && config == Config(|priority|, priority)
      ensures View() == System([], State(|priority|, 0, []))
    {
      config := Config(|priority|, priority);
      none := |priority|;
      mProtocolPriority := new nat[|priority|](i requires 0 <= i < |priority| => priority[i]);
      mProtocolNextPrio := new nat[|priority|](_ => |priority|);
      mMwsCallbacks := new bool[|priority|](_ => false);
      mFirstMwsPrio, mActiveProtocol, mwsLockCount := |priority|, |priority|, 0;
      log, chain := [], [];
      new;
      assert mProtocolPriority[..] == priority;
    }

    // ----- registration

    method MWS_Register(protocol: nat, callbackIsNull: bool) returns (status: Status)
      requires Valid()
      modifies this, mProtocolNextPrio, mMwsCallbacks
      ensures Valid()
      ensures status == if protocol >= none || callbackIsNull then InvalidParameter else Success
      ensures View() == if status == Success then Step(config, old(View()), Register(protocol)) else old(View())
    {
      hide Linked, Legal, Owner, Held, Insert, StrictlySorted, Distinct, Elements;
      if protocol >= none || callbackIsNull {
        return InvalidParameter;
      }
      StepKeepsInv(config, View(), Register(protocol));
      if !mMwsCallbacks[protocol] {
        mMwsCallbacks[protocol] := true;
        MWS_SetPriority(protocol, mProtocolPriority[protocol]);
        log := log + [Init(protocol)];
        InsertMembers(config, old(chain), protocol);
      }
      return Success;
    }

    method MWS_SetPriority(protocol: nat, priority: nat)
      requires Formed(config) && config.n == none == mProtocolPriority.Length
      requires mProtocolPriority != mProtocolNextPrio && mProtocolPriority[..] == config.priority
      requires Linked(mProtocolNextPrio[..], none, chain, mFirstMwsPrio) && StrictlySorted(config, chain)
      requires mProtocolNextPrio.Length == none
      requires protocol < none && protocol !in chain && priority == config.priority[protocol]
      modifies this`mFirstMwsPrio, this`chain, mProtocolNextPrio
      ensures chain == Insert(config, old(chain), protocol)
      ensures Linked(mProtocolNextPrio[..], none, chain, mFirstMwsPrio)
    {
      hide Insert, Distinct, StrictlySorted, Linked, AllBefore;
      ghost var next := mProtocolNextPrio[..];
      FirstOf(next, none, chain, mFirstMwsPrio);
      PrioritiesKnown(config, chain);
      if mFirstMwsPrio == none || priority <= mProtocolPriority[mFirstMwsPrio] {
        LinkFirst(next, none, chain, mFirstMwsPrio, protocol);
        InsertFirst(config, chain, protocol);
        mProtocolNextPrio[protocol] := mFirstMwsPrio;
        mFirstMwsPrio := protocol;
        assert mProtocolNextPrio[..] == next[protocol := old(mFirstMwsPrio)];
        chain := [protocol] + chain;
      } else {
        InsertBehindFirst(protocol, priority);
      }
    }

    /** The walk along the list to the last protocol of smaller priority value. */
    method InsertBehindFirst(protocol: nat, priority: nat)
      requires Formed(config) && config.n == none == mProtocolPriority.Length == mProtocolNextPrio.Length
      requires mProtocolPriority != mProtocolNextPrio && mProtocolPriority[..] == config.priority
      requires Linked(mProtocolNextPrio[..], none, chain, mFirstMwsPrio) && StrictlySorted(config, chain)
      requires protocol < none && protocol !in chain && priority == config.priority[protocol]
      requires chain != [] && chain[0] == mFirstMwsPrio < none && config.priority[mFirstMwsPrio] < priority
      modifies this`chain, mProtocolNextPrio
      ensures forall i :: 0 <= i < |old(chain)| ==> old(chain)[i] < |config.priority|
      ensures chain == Insert(config, old(chain), protocol)
      ensures Linked(mProtocolNextPrio[..], none, chain, mFirstMwsPrio)
    {
      PrioritiesKnown(config, chain);
      hide Insert, Distinct, StrictlySorted, Linked, AllBefore;
      ghost var start, next := chain, mProtocolNextPrio[..];
      var i: nat := mFirstMwsPrio;
      ghost var a: seq<nat>, b: seq<nat> := [], chain[1..];
      AllBeforeNone(config, protocol);
      assert start == a + [i] + b;
      while i != none
        invariant i == none ==> chain == Insert(config, start, protocol)
        invariant i == none ==> Linked(mProtocolNextPrio[..], none, chain, mFirstMwsPrio)
        invariant i != none ==> i < none && chain == start && mProtocolNextPrio[..] == next
        invariant i != none ==> start == a + [i] + b && AllBefore(config, a, protocol)
        invariant i != none ==> config.priority[i] < priority
        invariant mProtocolPriority[..] == config.priority
        decreases i != none, |b|
      {
        NextOf(next, none, a, i, b, mFirstMwsPrio);
        if mProtocolNextPrio[i] == none {
          LinkBehind(i, protocol, none, a, b);
          i := none;
        } else if priority <= mProtocolPriority[mProtocolNextPrio[i]] {
          LinkBehind(i, protocol, mProtocolNextPrio[i], a, b);
          i := none;
        } else {
          AllBeforeAppend(config, a, i, protocol);
          Advance(a, i, b);
          a := a + [i];
          i := mProtocolNextPrio[i];
          b := b[1..];
        }
      }
    }

    /** Link protocol between q and its successor. */
    method LinkBehind(q: nat, protocol: nat, successor: nat, ghost a: seq<nat>, ghost b: seq<nat>)
      requires Formed(config) && config.n == none == mProtocolNextPrio.Length
      requires chain == a + [q] + b && StrictlySorted(config, chain)
      requires Linked(mProtocolNextPrio[..], none, chain, mFirstMwsPrio)
      requires protocol < none && protocol !in chain && q < none && successor == mProtocolNextPrio[q]
      requires AllBefore(config, a, protocol) && config.priority[q] < config.priority[protocol]
      requires b != [] ==> b[0] < none && config.priority[protocol] <= config.priority[b[0]]
      modifies this`chain, mProtocolNextPrio
      ensures forall i :: 0 <= i < |old(chain)| ==> old(chain)[i] < |config.priority|
      ensures chain == Insert(config, old(chain), protocol)
      ensures Linked(mProtocolNextPrio[..], none, chain, mFirstMwsPrio)
    {
      hide Insert, Distinct, StrictlySorted, Linked, AllBefore;
      ghost var next := mProtocolNextPrio[..];
      mProtocolNextPrio[protocol] := successor;
      mProtocolNextPrio[q] := protocol;
      NotInParts(a, q, b, protocol);
      SplicedIn(config, next, mProtocolNextPrio[..], a, q, b, protocol, mFirstMwsPrio);
      chain := a + [q] + [protocol] + b;
    }

    // ----- arbitration

    method MWS_Abort(abortStatus: nat) returns (status: Status)
      requires Valid()
      modifies this
      ensures Valid() && chain == old(chain)
      ensures (View().state, status) == AbortOwner(config, old(View().state), abortStatus)
    {
      AbortKeepsInv(config, View().state, abortStatus);
      status := Success;
      if mActiveProtocol != none {
        log := log + [Abort(mActiveProtocol, abortStatus == 0)];
        if abortStatus != 0 {
          status := Error;
        } else {
          mActiveProtocol := none;
          mwsLockCount := 0;
        }
      }
    }

    method MWS_Acquire(protocol: nat, force: bool, abortStatus: nat) returns (status: Status)
      requires Valid() && protocol < none && mMwsCallbacks[protocol]
      modifies this
      ensures Valid() && chain == old(chain)
      ensures (View().state, status) == Acquire(config, old(View().state), Request(protocol, force, abortStatus))
    {
      hide Legal, Owner, Held, Linked, StrictlySorted, Distinct;
      AcquireKeepsInv(config, View().state, Request(protocol, force, abortStatus));
      status := Success;
      if mActiveProtocol == none {
        mActiveProtocol := protocol;
        mwsLockCount := 1;
        log := log + [Active(protocol), Granted(protocol)];
      } else if mActiveProtocol == protocol {
        mwsLockCount := (mwsLockCount + 1) % UINT32_RANGE;
        log := log + [Granted(protocol)];
      } else if force || mProtocolPriority[mActiveProtocol] > mProtocolPriority[protocol] {
        status := MWS_Abort(abortStatus);
        if status == Success {
          mActiveProtocol := protocol;
          mwsLockCount := 1;
          log := log + [Active(protocol), Granted(protocol)];
        } else {
          status := Denied;
        }
      } else {
        status := Denied;
      }
    }

    /** The Idle callback of protocol i, which may acquire on behalf of registered protocols. */
    method IdleCallback(i: nat, reply: Reply) returns (status: nat)
      requires Valid() && i < none && mActiveProtocol == none
      requires forall r :: r in reply.requests ==> r.p < none && mMwsCallbacks[r.p]
      modifies this
      ensures Valid() && chain == old(chain)
      ensures View().state == AcquireAll(config, old(View().state.(log := log + [Idle(i)])), reply.requests)
      ensures status == reply.status
    {
      ghost var s0 := View().state.(log := log + [Idle(i)]);
      Logged(none, log, Idle(i));
      log := log + [Idle(i)];
      var rs := reply.requests;
      while rs != []
        invariant Valid() && chain == old(chain)
        invariant forall r :: r in rs ==> r.p < none && mMwsCallbacks[r.p]
        invariant AcquireAll(config, View().state, rs) == AcquireAll(config, s0, reply.requests)
        decreases rs
      {
        assert rs[0] in rs;
        var _ := MWS_Acquire(rs[0].p, rs[0].force, rs[0].abortStatus);
        rs := rs[1..];
      }
      status := reply.status;
    }

    method MWS_SignalIdle(protocol: nat, replies: seq<Reply>) returns (status: Status)
      requires Valid() && ValidReplies(config, replies)
      requires forall i :: 0 <= i < |replies| ==> FromRegistered(replies[i])
      modifies this
      ensures Valid() && chain == old(chain)
      ensures (View().state, status) == SignalIdle(config, old(View().state), chain, protocol, replies)
    {
      hide Legal, Owner, Held, Distinct, StrictlySorted, AcquireAll;
      status := Success;
      ghost var s, k := View().state, 0;
      var i := mFirstMwsPrio;
      while i != none
        invariant Valid() && chain == old(chain) && k <= |chain|
        invariant i == if k < |chain| then chain[k] else none
        invariant forall i :: 0 <= i < |replies| ==> FromRegistered(replies[i])
        invariant var (t, rest) := SignalIdle(config, View().state, chain[k..], protocol, replies);
                  SignalIdle(config, s, chain, protocol, replies) == (t, if status == Error then Error else rest)
        invariant status == Success || status == Error
        decreases |chain| - k
      {
        if mActiveProtocol != none {
          break;
        }
        if protocol != i {
          assert FromRegistered(replies[i]);
          var answer := IdleCallback(i, replies[i]);
          if answer != 0 {
            status := Error;
          }
        }
        assert mProtocolNextPrio[..][chain[k]] == Successor(chain, k, none);
        i := mProtocolNextPrio[i];
        k := k + 1;
      }
    }

    ghost predicate FromRegistered(reply: Reply)
      reads this, mMwsCallbacks
    {
      forall r :: r in reply.requests ==> r.p < mMwsCallbacks.Length && mMwsCallbacks[r.p]
    }

    method MWS_Release(protocol: nat, replies: seq<Reply>) returns (status: Status)
      requires Valid() && ValidReplies(config, replies)
      requires forall i :: 0 <= i < |replies| ==> FromRegistered(replies[i])
      modifies this
      ensures Valid() && chain == old(chain)
      ensures (View().state, status) == ReleaseOwner(config, old(View().state), chain, protocol, replies)
    {
      hide Legal, Owner, Held, Distinct, StrictlySorted, SignalIdle, Linked, ValidReplies;
      status := Success;
      if mActiveProtocol != none {
        if protocol == mActiveProtocol {
          ReturnKeepsInv(config, View().state);
          mwsLockCount := (mwsLockCount + UINT32_RANGE - 1) % UINT32_RANGE;
          log := log + [Returned(protocol)];
          if mwsLockCount == 0 {
            log := log + [Release(protocol)];
            mActiveProtocol := none;
            status := MWS_SignalIdle(protocol, replies);
          }
        } else {
          status := Denied;
        }
      } else {
        status := MWS_SignalIdle(protocol, replies);
      }
    }
  }
}
