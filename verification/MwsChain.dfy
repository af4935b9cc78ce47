/** The priority chain of MWS.c as a sequence, and what registration makes of it. */
module MwsChain {
  import opened Mws

  /** MWS_SetPriority: before the first protocol whose priority value is not smaller. */
  function Insert(c: Config, chain: seq<nat>, p: nat): (r: seq<nat>)
    requires p < |c.priority| && forall i :: 0 <= i < |chain| ==> chain[i] < |c.priority|
    ensures |r| == |chain| + 1
    ensures forall i :: 0 <= i < |r| ==> r[i] < |c.priority|
  {
    if chain == [] || c.priority[p] <= c.priority[chain[0]] then [p] + chain
    else [chain[0]] + Insert(c, chain[1..], p)
  }

  function Elements(s: seq<nat>): set<nat> { set x | x in s }

  ghost predicate StrictlySorted(c: Config, s: seq<nat>) {
    && (forall i :: 0 <= i < |s| ==> s[i] < |c.priority|)
    && forall i, j :: 0 <= i < j < |s| ==> c.priority[s[i]] < c.priority[s[j]]
  }

  ghost predicate Distinct(c: Config) {
    forall p, q :: 0 <= p < q < |c.priority| ==> c.priority[p] != c.priority[q]
  }

  lemma {:induction false} InsertElements(c: Config, chain: seq<nat>, p: nat)
    requires p < |c.priority| && forall i :: 0 <= i < |chain| ==> chain[i] < |c.priority|
    ensures Elements(Insert(c, chain, p)) == Elements(chain) + {p}
  {
    if chain == [] || c.priority[p] <= c.priority[chain[0]] {
    } else {
      InsertElements(c, chain[1..], p);
      assert chain == [chain[0]] + chain[1..];
      assert Elements(chain) == {chain[0]} + Elements(chain[1..]);
      assert Elements(Insert(c, chain, p)) == {chain[0]} + Elements(Insert(c, chain[1..], p));
    }
  }

  lemma InsertMembers(c: Config, chain: seq<nat>, p: nat)
    requires p < |c.priority| && forall i :: 0 <= i < |chain| ==> chain[i] < |c.priority|
    ensures forall q :: q in Insert(c, chain, p) <==> q == p || q in chain
  {
    InsertElements(c, chain, p);
    hide Insert;
    assert forall q :: q in Insert(c, chain, p) <==> q in Elements(Insert(c, chain, p));
    assert forall q :: q in chain <==> q in Elements(chain);
  }

  lemma SortedCons(c: Config, h: nat, t: seq<nat>)
    requires StrictlySorted(c, t) && h < |c.priority|
    requires forall j :: 0 <= j < |t| ==> c.priority[h] < c.priority[t[j]]
    ensures StrictlySorted(c, [h] + t)
  {
  }

  /** Registering a new protocol keeps the chain in strictly increasing priority value. */
  lemma {:induction false} InsertSorted(c: Config, chain: seq<nat>, p: nat)
    requires Distinct(c) && StrictlySorted(c, chain) && p < |c.priority| && p !in chain
    ensures StrictlySorted(c, Insert(c, chain, p))
  {
    if chain == [] {
    } else if c.priority[p] <= c.priority[chain[0]] {
      assert c.priority[p] != c.priority[chain[0]];
      SortedCons(c, p, chain);
    } else {
      var r := Insert(c, chain[1..], p);
      InsertSorted(c, chain[1..], p);
      InsertElements(c, chain[1..], p);
      hide Insert;
      forall j | 0 <= j < |r| ensures c.priority[chain[0]] < c.priority[r[j]] {
        assert r[j] in Elements(r);
        if r[j] != p {
          var k :| 0 <= k < |chain| - 1 && chain[1..][k] == r[j];
          assert chain[k + 1] == r[j];
        }
      }
      SortedCons(c, chain[0], r);
    }
  }

  /** All of a have a smaller priority value than p. */
  ghost predicate AllBefore(c: Config, a: seq<nat>, p: nat)
    requires p < |c.priority|
  {
    forall i :: 0 <= i < |a| ==> a[i] < |c.priority| && c.priority[a[i]] < c.priority[p]
  }

  lemma AllBeforeNone(c: Config, p: nat)
    requires p < |c.priority|
    ensures AllBefore(c, [], p)
  {
  }

  lemma Advance(a: seq<nat>, q: nat, b: seq<nat>)
    requires b != []
    ensures a + [q] + b == a + [q] + [b[0]] + b[1..]
  {
  }

  lemma AllBeforeAppend(c: Config, a: seq<nat>, q: nat, p: nat)
    requires p < |c.priority| && AllBefore(c, a, p) && q < |c.priority| && c.priority[q] < c.priority[p]
    ensures AllBefore(c, a + [q], p)
  {
  }

  lemma InsertFirst(c: Config, chain: seq<nat>, p: nat)
    requires p < |c.priority| && forall i :: 0 <= i < |chain| ==> chain[i] < |c.priority|
    requires chain == [] || c.priority[p] <= c.priority[chain[0]]
    ensures Insert(c, chain, p) == [p] + chain
  {
  }

  lemma InsertBehind(c: Config, q: nat, rest: seq<nat>, p: nat)
    requires p < |c.priority| && q < |c.priority| && forall i :: 0 <= i < |rest| ==> rest[i] < |c.priority|
    requires c.priority[q] < c.priority[p]
    ensures Insert(c, [q] + rest, p) == [q] + Insert(c, rest, p)
  {
    assert ([q] + rest)[1..] == rest;
  }

  /** Where Insert puts p: behind every protocol of smaller priority value. */
  lemma {:induction false} InsertBetween(c: Config, a: seq<nat>, b: seq<nat>, p: nat)
    requires p < |c.priority| && forall i :: 0 <= i < |a + b| ==> (a + b)[i] < |c.priority|
    requires AllBefore(c, a, p)
    requires b != [] ==> b[0] < |c.priority| && c.priority[p] <= c.priority[b[0]]
    ensures Insert(c, a + b, p) == a + [p] + b
  {
    if a == [] {
      assert a + b == b;
    } else {
      FirstAside(c, a, b, p);
      hide Insert, AllBefore;
      InsertBetween(c, a[1..], b, p);
      InsertBehind(c, a[0], a[1..] + b, p);
    }
  }

  lemma FirstAside(c: Config, a: seq<nat>, b: seq<nat>, p: nat)
    requires p < |c.priority| && forall i :: 0 <= i < |a + b| ==> (a + b)[i] < |c.priority|
    requires AllBefore(c, a, p) && a != []
    ensures AllBefore(c, a[1..], p) && a[0] < |c.priority| && c.priority[a[0]] < c.priority[p]
    ensures a + b == [a[0]] + (a[1..] + b) && a + [p] + b == [a[0]] + (a[1..] + [p] + b)
    ensures forall i :: 0 <= i < |a[1..] + b| ==> (a[1..] + b)[i] < |c.priority|
  {
    forall i | 0 <= i < |a[1..] + b| ensures (a[1..] + b)[i] < |c.priority| {
      assert (a[1..] + b)[i] == (a + b)[i + 1];
    }
  }

  // ----- the list threaded through an index array

  function Successor(chain: seq<nat>, i: nat, none: nat): nat {
    if i + 1 < |chain| then chain[i + 1] else none
  }

  /** Following next from first visits exactly the chain and then ends at none. */
  ghost predicate Linked(next: seq<nat>, none: nat, chain: seq<nat>, first: nat) {
    && first == (if chain == [] then none else chain[0])
    && (forall i :: 0 <= i < |chain| ==> chain[i] < none)
    && |next| == none
    && forall i :: 0 <= i < |chain| ==> next[chain[i]] == Successor(chain, i, none)
  }

  lemma FirstOf(next: seq<nat>, none: nat, chain: seq<nat>, first: nat)
    requires Linked(next, none, chain, first)
    ensures if chain == [] then first == none else first == chain[0] < none
  {
  }

  lemma NextOf(next: seq<nat>, none: nat, a: seq<nat>, q: nat, b: seq<nat>, first: nat)
    requires Linked(next, none, a + [q] + b, first)
    ensures q < none == |next| && next[q] == (if b == [] then none else b[0]) && (b != [] ==> b[0] < none)
  {
    var chain := a + [q] + b;
    assert chain[|a|] == q;
    assert next[chain[|a|]] == Successor(chain, |a|, none);
    assert b != [] ==> chain[|a| + 1] == b[0];
  }

  lemma PrioritiesKnown(c: Config, chain: seq<nat>)
    requires StrictlySorted(c, chain)
    ensures forall i :: 0 <= i < |chain| ==> chain[i] < |c.priority|
  {
  }

  lemma DistinctParts(c: Config, a: seq<nat>, q: nat, b: seq<nat>)
    requires StrictlySorted(c, a + [q] + b)
    ensures q !in a && q !in b
  {
    var s := a + [q] + b;
    assert s[|a|] == q;
    assert forall i :: 0 <= i < |a| ==> s[i] == a[i];
    assert forall i :: 0 <= i < |b| ==> s[|a| + 1 + i] == b[i];
  }

  lemma LinkFirst(next: seq<nat>, none: nat, chain: seq<nat>, first: nat, p: nat)
    requires Linked(next, none, chain, first) && p < none && p !in chain
    ensures Linked(next[p := first], none, [p] + chain, p)
  {
    var longer, next' := [p] + chain, next[p := first];
    forall i | 0 <= i < |longer| ensures longer[i] < none && next'[longer[i]] == Successor(longer, i, none) {
      if i > 0 {
        assert longer[i] == chain[i - 1] && next[chain[i - 1]] == Successor(chain, i - 1, none);
      }
    }
  }

  /** The list a, q, b becomes a, q, p, b. */
  lemma LinkBetween(next: seq<nat>, next': seq<nat>, none: nat, a: seq<nat>, q: nat, b: seq<nat>, p: nat, first: nat)
    requires Linked(next, none, a + [q] + b, first) && p < none && q < none
    requires p !in a && p !in b && p != q && q !in a && q !in b
    requires |next'| == none && next'[p] == next[q] && next'[q] == p
    requires forall x :: 0 <= x < none && x != p && x != q ==> next'[x] == next[x]
    ensures Linked(next', none, a + [q] + [p] + b, first)
  {
    var shorter, longer, k := a + [q] + b, a + [q] + [p] + b, |a|;
    NextOf(next, none, a, q, b, first);
    assert b != [] ==> longer[k + 2] == b[0];
    forall i | 0 <= i < |longer| ensures longer[i] < none && next'[longer[i]] == Successor(longer, i, none) {
      if i < k {
        assert longer[i] == shorter[i] == a[i] && next[shorter[i]] == Successor(shorter, i, none);
      } else if i > k + 1 {
        assert longer[i] == shorter[i - 1] == b[i - k - 2];
        assert next[shorter[i - 1]] == Successor(shorter, i - 1, none);
      }
    }
  }

  /** Linking p behind q keeps the list, and puts p where Insert does. */
  lemma SplicedIn(c: Config, next: seq<nat>, next': seq<nat>, a: seq<nat>, q: nat, b: seq<nat>, p: nat, first: nat)
    requires Formed(c) && StrictlySorted(c, a + [q] + b) && Linked(next, c.n, a + [q] + b, first)
    requires p < c.n && q < c.n && p !in a + [q] + b
    requires |next'| == c.n && next'[p] == next[q] && next'[q] == p
    requires forall x :: 0 <= x < c.n && x != p && x != q ==> next'[x] == next[x]
    requires AllBefore(c, a, p) && c.priority[q] < c.priority[p]
    requires b != [] ==> b[0] < c.n && c.priority[p] <= c.priority[b[0]]
    ensures Linked(next', c.n, a + [q] + [p] + b, first)
    ensures forall i :: 0 <= i < |a + [q] + b| ==> (a + [q] + b)[i] < |c.priority|
    ensures Insert(c, a + [q] + b, p) == a + [q] + [p] + b
  {
    DistinctParts(c, a, q, b);
    PrioritiesKnown(c, a + [q] + b);
    AllBeforeAppend(c, a, q, p);
    NotInParts(a, q, b, p);
    hide StrictlySorted, Linked, AllBefore, Insert;
    LinkBetween(next, next', c.n, a, q, b, p, first);
    InsertBetween(c, a + [q], b, p);
  }

  lemma NotInParts(a: seq<nat>, q: nat, b: seq<nat>, p: nat)
    requires p !in a + [q] + b
    ensures p !in a && p != q && p !in b
  {
    assert forall x :: x in a || x == q || x in b ==> x in a + [q] + b;
  }

  /** A set of protocols has only one strictly sorted chain. */
  lemma {:induction false} SortedUnique(c: Config, s: seq<nat>, t: seq<nat>)
    requires StrictlySorted(c, s) && StrictlySorted(c, t) && Elements(s) == Elements(t)
    ensures s == t
  {
    if s == [] {
      if t != [] {
        SameFirst(c, t, s);
        assert false;
      }
    } else {
      SameFirst(c, s, t);
      TailElements(c, s);
      TailElements(c, t);
      hide StrictlySorted, Elements;
      SortedUnique(c, s[1..], t[1..]);
      assert s == [s[0]] + s[1..] && t == [t[0]] + t[1..];
    }
  }

  lemma SameFirst(c: Config, s: seq<nat>, t: seq<nat>)
    requires StrictlySorted(c, s) && StrictlySorted(c, t) && Elements(s) == Elements(t) && s != []
    ensures t != [] && s[0] == t[0]
  {
    assert s[0] in Elements(t);
    var i :| 0 <= i < |t| && t[i] == s[0];
    assert t[0] in Elements(s);
    var j :| 0 <= j < |s| && s[j] == t[0];
  }

  lemma TailElements(c: Config, s: seq<nat>)
    requires s != [] && StrictlySorted(c, s)
    ensures StrictlySorted(c, s[1..]) && Elements(s[1..]) == Elements(s) - {s[0]}
  {
    assert forall x :: x in s[1..] ==> x != s[0];
    assert forall x :: x in s && x != s[0] ==> x in s[1..];
  }

  /** The chain after registering a sequence of protocols; registering one again only replaces its callback. */
  function ChainAfter(c: Config, ps: seq<nat>): (chain: seq<nat>)
    requires forall i :: 0 <= i < |ps| ==> ps[i] < |c.priority|
    ensures forall i :: 0 <= i < |chain| ==> chain[i] < |c.priority|
  {
    if ps == [] then []
    else
      var chain := ChainAfter(c, ps[..|ps| - 1]);
      if ps[|ps| - 1] in chain then chain else Insert(c, chain, ps[|ps| - 1])
  }

  /** Exactly the registered protocols, in strictly increasing priority value. */
  lemma {:induction false} ChainIsSorted(c: Config, ps: seq<nat>)
    requires Distinct(c) && forall i :: 0 <= i < |ps| ==> ps[i] < |c.priority|
    ensures StrictlySorted(c, ChainAfter(c, ps)) && Elements(ChainAfter(c, ps)) == Elements(ps)
  {
    if ps != [] {
      var n := |ps| - 1;
      ChainIsSorted(c, ps[..n]);
      var chain := ChainAfter(c, ps[..n]);
      assert ps == ps[..n] + [ps[n]];
      assert Elements(ps) == Elements(ps[..n]) + {ps[n]};
      if ps[n] in chain {
        assert ps[n] in Elements(chain);
      } else {
        InsertSorted(c, chain, ps[n]);
        InsertElements(c, chain, ps[n]);
      }
    }
  }

  /** The order of registration does not matter. */
  lemma ChainIgnoresOrder(c: Config, ps: seq<nat>, qs: seq<nat>)
    requires Distinct(c) && Elements(ps) == Elements(qs)
    requires forall i :: 0 <= i < |ps| ==> ps[i] < |c.priority|
    requires forall i :: 0 <= i < |qs| ==> qs[i] < |c.priority|
    ensures ChainAfter(c, ps) == ChainAfter(c, qs)
  {
    ChainIsSorted(c, ps);
    ChainIsSorted(c, qs);
    SortedUnique(c, ChainAfter(c, ps), ChainAfter(c, qs));
  }

  // ----- whole runs

  datatype Op =
    | Register(p: nat)
    | Acquiring(r: Request)
    | Releasing(p: nat, replies: seq<Reply>)
    | Aborting(abortStatus: nat)
    | Signalling(p: nat, replies: seq<Reply>)

  datatype System = System(chain: seq<nat>, state: State)

  /** Callers name existing protocols, and only registered protocols ask for the transceiver. */
  ghost predicate Callable(c: Config, sys: System, op: Op) {
    match op
    case Register(p) => p < c.n
    case Acquiring(r) => r.p < c.n && r.p in sys.chain
    case Releasing(_, replies) => ValidReplies(c, replies)
    case Aborting(_) => true
    case Signalling(_, replies) => ValidReplies(c, replies)
  }

  ghost predicate SystemInv(c: Config, sys: System) {
    Known(c, sys.chain) && Inv(c, sys.state) && StrictlySorted(c, sys.chain)
  }

  ghost function Step(c: Config, sys: System, op: Op): System
    requires SystemInv(c, sys) && Callable(c, sys, op)
  {
    match op
    case Register(p) =>
      if p in sys.chain then sys
      else System(Insert(c, sys.chain, p), sys.state.(log := sys.state.log + [Init(p)]))
    case Acquiring(r) => sys.(state := Acquire(c, sys.state, r).0)
    case Releasing(p, replies) => sys.(state := ReleaseOwner(c, sys.state, sys.chain, p, replies).0)
    case Aborting(abortStatus) => sys.(state := AbortOwner(c, sys.state, abortStatus).0)
    case Signalling(p, replies) => sys.(state := SignalIdle(c, sys.state, sys.chain, p, replies).0)
  }

  lemma StepKeepsInv(c: Config, sys: System, op: Op)
    requires Distinct(c) && SystemInv(c, sys) && Callable(c, sys, op)
    ensures SystemInv(c, Step(c, sys, op))
  {
    hide Legal, Owner, Held;
    match op
    case Register(p) =>
      if p !in sys.chain {
        InsertSorted(c, sys.chain, p);
        Logged(c.n, sys.state.log, Init(p));
      }
    case Acquiring(r) => AcquireKeepsInv(c, sys.state, r);
    case Releasing(p, replies) => ReleaseKeepsInv(c, sys.state, sys.chain, p, replies);
    case Aborting(abortStatus) => AbortKeepsInv(c, sys.state, abortStatus);
    case Signalling(p, replies) => SignalIdleKeepsInv(c, sys.state, sys.chain, p, replies);
  }

  /** Step is only defined where the invariant holds; RunKeepsInv shows that this is everywhere. */
  ghost predicate IsRun(c: Config, trace: seq<System>, ops: seq<Op>) {
    && |trace| == |ops| + 1
    && trace[0] == System([], State(c.n, 0, []))
    && forall i :: 0 <= i < |ops| ==>
         SystemInv(c, trace[i]) && Callable(c, trace[i], ops[i]) ==> trace[i + 1] == Step(c, trace[i], ops[i])
  }

  /** Every reachable state has a legal log that tells the owner and the lock count, and a sorted chain. */
  lemma {:induction false} RunKeepsInv(c: Config, trace: seq<System>, ops: seq<Op>)
    requires Formed(c) && Distinct(c) && IsRun(c, trace, ops)
    requires forall i :: 0 <= i < |ops| ==> Callable(c, trace[i], ops[i])
    ensures SystemInv(c, trace[|ops|])
  {
    if ops != [] {
      var n := |ops| - 1;
      assert trace[..n + 1][n] == trace[n];
      RunKeepsInv(c, trace[..n + 1], ops[..n]);
      StepKeepsInv(c, trace[n], ops[n]);
    }
  }
}
