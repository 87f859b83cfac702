/** The handler-calling half of SelectServer::Run: the three popped sets
    handled in the order error, write, read, then the timeout sweep, with
    the `handled` marks that keep a socket from being called twice for the
    same reason, and the bookkeeping after every call.

    Handlers are not code the reactor can see. A handler's visible effect is
    an `Effect`: what it leaves in its own socket through the SelectSock
    updaters, whether it sets the stop flag, which sockets it offers to
    TryAddSock, and the clock reading taken after it returns. `behaviour(n)`
    is the effect of the n-th call of the turn.
 */
module SelectPass {
  import opened Rpc
  import opened Common
  import opened SelectSock
  import opened SelectServer

  datatype Effect = Effect(handler: Handler, flags: Flags, timeout: Uint32, stop: bool, adds: seq<Sock>, tick: Uint32)

  /** The effect of the n-th call of a turn. */
  function EffectAt(behaviour: nat -> Effect, n: nat): Effect {
    behaviour(n)
  }

  /** Handlers keep TryAddSock's stated assumption: every socket they add
      waits for an event or has a timeout. */
  ghost predicate WellBehaved(behaviour: nat -> Effect) {
    forall n: nat, m :: 0 <= m < |EffectAt(behaviour, n).adds| ==> !Removable(EffectAt(behaviour, n).adds[m])
  }

  /** One handler call: the socket's index and the reason passed. */
  datatype Call = Call(index: nat, reason: PopReason)

  /** HandledState: the mark a call from a popped set leaves in `handled`. */
  function Level(reason: PopReason): (level: nat)
    ensures level <= 2
    ensures level == 0 <==> reason == PopTimeout
  {
    match reason
    case PopTimeout => 0
    case PopRead => 1
    case PopWrite => 1
    case PopError => 2
  }

  /** The position of a reason's phase in a turn: error, write, read, timeout. */
  function Phase(reason: PopReason): (phase: nat)
    ensures phase <= 3
    ensures phase == 3 <==> reason == PopTimeout
  {
    match reason
    case PopError => 0
    case PopWrite => 1
    case PopRead => 2
    case PopTimeout => 3
  }

  /** SetProperties: a popped set's reason, the flag a socket needs to be
      called from it, and the HandledState the call records. */
  datatype SetProperties = SetProperties(reason: PopReason, setFlag: Flags, handled: nat)

  /** setProps, indexed like the three sets (read, write, error). */
  const SET_PROPS: seq<SetProperties> := [
    SetProperties(PopRead, READ, 1),
    SetProperties(PopWrite, WRITE, 1),
    SetProperties(PopError, ERROR_, 2)]

  /** Every row records its reason's level, asks for a flag of its own, and
      the rows run in phase order when taken from index 2 down to 0. */
  lemma SetPropsTable()
    ensures forall k :: 0 <= k < |SET_PROPS| ==> SET_PROPS[k].handled == Level(SET_PROPS[k].reason)
    ensures forall k :: 0 <= k < |SET_PROPS| ==> SET_PROPS[k].reason != PopTimeout
    ensures forall k :: 0 <= k < |SET_PROPS| ==> SET_PROPS[k].setFlag != NONE && SET_PROPS[k].setFlag & ALL == SET_PROPS[k].setFlag
    ensures forall a, b :: 0 <= a < b < |SET_PROPS| ==> Phase(SET_PROPS[b].reason) < Phase(SET_PROPS[a].reason)
  {
  }

  /* ---------------------------------------------------------------------
     What a turn promises about its calls
     --------------------------------------------------------------------- */

  /** The calls come phase by phase. */
  predicate Ordered(calls: seq<Call>) {
    forall a, b :: 0 <= a < b < |calls| ==> Phase(calls[a].reason) <= Phase(calls[b].reason)
  }

  /** Calls on the same socket in one turn: an error call is never joined by
      a read, write or timeout call, and a timeout call is never joined by
      anything. Read and write calls may share a socket. */
  predicate Exclusive(calls: seq<Call>) {
    forall a, b :: 0 <= a < b < |calls| && calls[a].index == calls[b].index ==>
      (calls[a].reason == PopError <==> calls[b].reason == PopError) &&
      calls[a].reason != PopTimeout && calls[b].reason != PopTimeout
  }

  /** No socket is called twice for the same reason. */
  predicate NoRepeats(calls: seq<Call>) {
    forall a, b :: 0 <= a < b < |calls| ==> calls[a] != calls[b]
  }

  /* ---------------------------------------------------------------------
     A handler call
     --------------------------------------------------------------------- */

  /** The state inside a turn: the server, activeSockCount, minSockToRemove,
      the handled marks, and the calls made so far. */
  datatype Pass = Pass(server: Server, active: nat, marker: nat, handled: seq<nat>, calls: seq<Call>)

  /** What the handler itself does to the server: its socket's updaters,
      its TryAddSock calls, and SetStopFlag. */
  function ApplyEffect(s: Server, i: nat, e: Effect): (r: Server)
    requires ValidServer(s) && i < s.reserved
    ensures ValidServer(r) && s.reserved <= r.reserved
    ensures Stopped(r) <==> Stopped(s) || e.stop
    ensures r.socks[i] == UpdateTimeout(UpdateEventFlags(UpdateHandler(s.socks[i], e.handler), e.flags), e.timeout)
    ensures forall j :: 0 <= j < s.reserved && j != i ==> r.socks[j] == s.socks[j]
    ensures forall j :: s.reserved <= j < r.reserved ==> r.socks[j] in e.adds
  {
    var sock := UpdateTimeout(UpdateEventFlags(UpdateHandler(s.socks[i], e.handler), e.flags), e.timeout);
    var (_, added) := AddAll(s.(socks := s.socks[i := sock]), e.adds);
    assert forall j :: s.reserved <= j < added.reserved ==>
      added.socks[j] == added.socks[s.reserved..added.reserved][j - s.reserved];
    if e.stop then SetStopFlag(added) else added
  }

  /** A handler call on socket `i` followed by the reactor's bookkeeping: a
      finite timeout rearms the deadline from the clock reading after the
      call; otherwise a socket left with no event flag lowers the marker to
      its index. */
  function Invoke(p: Pass, i: nat, reason: PopReason, e: Effect): (r: Pass)
    requires ValidServer(p.server) && i < p.active <= p.server.reserved
    ensures ValidServer(r.server) && r.active == p.active && r.handled == p.handled
    ensures r.calls == p.calls + [Call(i, reason)]
    ensures p.server.reserved <= r.server.reserved
    ensures Stopped(r.server) <==> Stopped(p.server) || e.stop
    ensures var sock := r.server.socks[i];
      sock.so == p.server.socks[i].so && sock.handler == e.handler && sock.flags == e.flags && sock.timeout == e.timeout
    ensures e.timeout != INF ==> TicksUntil(r.server.socks[i].deadline, e.tick) == e.timeout
    ensures r.marker == if Removable(r.server.socks[i]) && i < p.marker then i else p.marker
    ensures forall j :: 0 <= j < p.server.reserved && j != i ==> r.server.socks[j] == p.server.socks[j]
    ensures forall j :: p.server.reserved <= j < r.server.reserved ==> r.server.socks[j] in e.adds
  {
    var after := ApplyEffect(p.server, i, e);
    var sock := after.socks[i];
    var calls := p.calls + [Call(i, reason)];
    if sock.timeout != INF then
      p.(server := after.(socks := after.socks[i := Rearm(sock, e.tick)]), calls := calls)
    else if sock.flags & ALL == NONE then
      p.(server := after, marker := if i < p.marker then i else p.marker, calls := calls)
    else
      p.(server := after, calls := calls)
  }

  /** Calling a socket that is not removable, with handlers that add no
      removable socket, keeps the packing invariant. */
  lemma InvokeKeepsTidy(p: Pass, i: nat, reason: PopReason, e: Effect)
    requires Tidy(p.server, p.active, p.marker) && i < p.active
    requires !Removable(p.server.socks[i])
    requires forall m :: 0 <= m < |e.adds| ==> !Removable(e.adds[m])
    ensures Tidy(Invoke(p, i, reason, e).server, p.active, Invoke(p, i, reason, e).marker)
  {
    var r := Invoke(p, i, reason, e);
    forall j | p.server.reserved <= j < r.server.reserved
      ensures !Removable(r.server.socks[j])
    {
      var m :| 0 <= m < |e.adds| && e.adds[m] == r.server.socks[j];
    }
  }

  /** Every call is on one of the first `active` sockets. */
  predicate CallsWithin(calls: seq<Call>, active: nat) {
    forall k :: 0 <= k < |calls| ==> calls[k].index < active
  }

  /** Each call from a popped set still has its mark in `handled`. */
  predicate Marked(handled: seq<nat>, calls: seq<Call>) {
    forall k :: 0 <= k < |calls| && calls[k].reason != PopTimeout ==>
      calls[k].index < |handled| && handled[calls[k].index] == Level(calls[k].reason)
  }

  /** The invariant inside a turn: packing stays correct, every call is on
      an active socket, and each set call's mark is still in `handled`. */
  predicate PassInv(p: Pass) {
    && Tidy(p.server, p.active, p.marker)
    && |p.handled| == p.active
    && CallsWithin(p.calls, p.active) && Marked(p.handled, p.calls)
    && Exclusive(p.calls) && Ordered(p.calls)
  }

  /** The call-sequence half of a set call: a call from a set whose level is
      at least the socket's mark, after calls of no later phase, keeps the
      promises about the calls. */
  lemma SetCallAppend(calls: seq<Call>, handled: seq<nat>, i: nat, reason: PopReason)
    requires Exclusive(calls) && Ordered(calls) && Marked(handled, calls) && CallsWithin(calls, |handled|)
    requires i < |handled| && reason != PopTimeout && handled[i] <= Level(reason)
    requires forall k :: 0 <= k < |calls| ==> Phase(calls[k].reason) <= Phase(reason)
    ensures var next := calls + [Call(i, reason)];
      Exclusive(next) && Ordered(next) && Marked(handled[i := Level(reason)], next) && CallsWithin(next, |handled|)
  {
    var next := calls + [Call(i, reason)];
    forall a | 0 <= a < |calls| && calls[a].index == i
      ensures (calls[a].reason == PopError <==> reason == PopError) && calls[a].reason != PopTimeout
    {
      assert Phase(calls[a].reason) <= Phase(reason);
    }
    AppendOrdered(calls, Call(i, reason));
    forall a, b | 0 <= a < b < |next| && next[a].index == next[b].index
      ensures (next[a].reason == PopError <==> next[b].reason == PopError)
      ensures next[a].reason != PopTimeout && next[b].reason != PopTimeout
    {
      assert next[a] == calls[a];
      if b < |calls| {
        assert next[b] == calls[b];
      }
    }
    forall k | 0 <= k < |next| && next[k].reason != PopTimeout
      ensures next[k].index < |handled| && handled[i := Level(reason)][next[k].index] == Level(next[k].reason)
    {
      if k < |calls| {
        assert next[k] == calls[k];
      }
    }
  }

  /** Appending a call of no earlier phase keeps the calls in phase order. */
  lemma AppendOrdered(calls: seq<Call>, c: Call)
    requires Ordered(calls)
    requires forall k :: 0 <= k < |calls| ==> Phase(calls[k].reason) <= Phase(c.reason)
    ensures Ordered(calls + [c])
  {
    var next := calls + [c];
    forall a, b | 0 <= a < b < |next|
      ensures Phase(next[a].reason) <= Phase(next[b].reason)
    {
      assert next[a] == calls[a];
      if b < |calls| {
        assert next[b] == calls[b];
      }
    }
  }

  /** A flag inside ALL that a socket holds makes it non-removable. */
  lemma FlagWithinAll(flags: Flags, flag: Flags)
    requires flag & ALL == flag && flags & flag != NONE
    ensures flags & ALL != NONE
  {
  }

  /** A set call that passes the `handled` test and the flag test, made
      after the calls of earlier phases only, keeps the invariant once its
      mark is recorded. */
  lemma SetCallKeepsInv(p: Pass, i: nat, props: SetProperties, e: Effect)
    requires PassInv(p) && props in SET_PROPS && i < p.active
    requires p.handled[i] <= props.handled && p.server.socks[i].flags & props.setFlag != NONE
    requires forall k :: 0 <= k < |p.calls| ==> Phase(p.calls[k].reason) <= Phase(props.reason)
    requires forall m :: 0 <= m < |e.adds| ==> !Removable(e.adds[m])
    ensures PassInv(Invoke(p, i, props.reason, e).(handled := p.handled[i := props.handled]))
  {
    SetPropsTable();
    assert props.handled == Level(props.reason);
    FlagWithinAll(p.server.socks[i].flags, props.setFlag);
    InvokeKeepsTidy(p, i, props.reason, e);
    SetCallAppend(p.calls, p.handled, i, props.reason);
  }

  /** The call-sequence half of a timeout call: a socket without a mark,
      after timeout calls on lower indices only. */
  lemma TimeoutCallAppend(calls: seq<Call>, handled: seq<nat>, i: nat)
    requires Exclusive(calls) && Ordered(calls) && Marked(handled, calls) && CallsWithin(calls, |handled|)
    requires i < |handled| && handled[i] == 0
    requires forall k :: 0 <= k < |calls| && calls[k].reason == PopTimeout ==> calls[k].index < i
    ensures var next := calls + [Call(i, PopTimeout)];
      Exclusive(next) && Ordered(next) && Marked(handled, next) && CallsWithin(next, |handled|)
  {
    var next := calls + [Call(i, PopTimeout)];
    assert forall k :: 0 <= k < |calls| ==> next[k] == calls[k];
  }

  /** A timeout call on a socket with no mark, made after every other call
      of the turn has been on a lower index or from a set, keeps the invariant. */
  lemma TimeoutCallKeepsInv(p: Pass, i: nat, e: Effect)
    requires PassInv(p) && i < p.active
    requires p.handled[i] == 0 && p.server.socks[i].timeout != INF
    requires forall k :: 0 <= k < |p.calls| && p.calls[k].reason == PopTimeout ==> p.calls[k].index < i
    requires forall m :: 0 <= m < |e.adds| ==> !Removable(e.adds[m])
    ensures PassInv(Invoke(p, i, PopTimeout, e))
  {
    InvokeKeepsTidy(p, i, PopTimeout, e);
    TimeoutCallAppend(p.calls, p.handled, i);
  }

  /* ---------------------------------------------------------------------
     Replaying the calls
     --------------------------------------------------------------------- */

  /** One recorded call made again on a pass: Invoke with the call's reason;
      a call from a popped set also records its level in `handled`, a
      timeout call leaves the marks alone. */
  function Replay(q: Pass, c: Call, e: Effect): (r: Pass)
    requires ValidServer(q.server) && c.index < q.active <= q.server.reserved && |q.handled| == q.active
    ensures ValidServer(r.server) && r.active == q.active && q.server.reserved <= r.server.reserved
    ensures |r.handled| == q.active && r.calls == q.calls + [c]
    ensures Stopped(r.server) <==> Stopped(q.server) || e.stop
  {
    var r := Invoke(q, c.index, c.reason, e);
    if c.reason == PopTimeout then r else r.(handled := q.handled[c.index := Level(c.reason)])
  }

  /** The pass reached from `p` by making `calls` in order, the n-th call of
      the turn having the effect behaviour(n). */
  function ApplyCalls(p: Pass, calls: seq<Call>, behaviour: nat -> Effect): (r: Pass)
    requires ValidServer(p.server) && p.active <= p.server.reserved && |p.handled| == p.active
    requires CallsWithin(calls, p.active)
    ensures ValidServer(r.server) && r.active == p.active && p.server.reserved <= r.server.reserved
    ensures |r.handled| == p.active && r.calls == p.calls + calls
    decreases |calls|
  {
    if |calls| == 0 then p
    else
      CallsWithinPrefix(calls, |calls| - 1, p.active);
      var q := ApplyCalls(p, calls[..|calls| - 1], behaviour);
      assert calls == calls[..|calls| - 1] + [calls[|calls| - 1]];
      Replay(q, calls[|calls| - 1], EffectAt(behaviour, |q.calls|))
  }

  /** `q` is `p` after the calls recorded since `p`, each with its effect
      and its bookkeeping, and nothing else. */
  predicate Replays(p: Pass, q: Pass, behaviour: nat -> Effect) {
    && ValidServer(p.server) && p.active <= p.server.reserved && |p.handled| == p.active
    && |p.calls| <= |q.calls| && CallsWithin(q.calls[|p.calls|..], p.active)
    && q == ApplyCalls(p, q.calls[|p.calls|..], behaviour)
  }

  /** A pass with no call made since itself replays to itself. */
  lemma ReplaysNothing(p: Pass, behaviour: nat -> Effect)
    requires ValidServer(p.server) && p.active <= p.server.reserved && |p.handled| == p.active
    ensures Replays(p, p, behaviour)
  {
    assert p.calls[|p.calls|..] == [];
  }

  /** Making one more call, with the effect its position in the turn gives,
      keeps `q` a replay of `p`. */
  lemma ReplaysStep(p: Pass, q: Pass, c: Call, behaviour: nat -> Effect)
    requires Replays(p, q, behaviour) && c.index < p.active
    ensures q.active == p.active && |q.handled| == q.active
    ensures Replays(p, Replay(q, c, EffectAt(behaviour, |q.calls|)), behaviour)
  {
    var made := q.calls[|p.calls|..];
    ApplyCallsSnoc(p, made, c, behaviour);
    assert Replay(q, c, EffectAt(behaviour, |q.calls|)).calls[|p.calls|..] == made + [c];
  }

  /** Making one more call after `calls` is replaying it on their pass. */
  lemma ApplyCallsSnoc(p: Pass, calls: seq<Call>, c: Call, behaviour: nat -> Effect)
    requires ValidServer(p.server) && p.active <= p.server.reserved && |p.handled| == p.active
    requires CallsWithin(calls, p.active) && c.index < p.active
    ensures CallsWithin(calls + [c], p.active)
    ensures var q := ApplyCalls(p, calls, behaviour);
      ApplyCalls(p, calls + [c], behaviour) == Replay(q, c, EffectAt(behaviour, |q.calls|))
  {
    CallsWithinSnoc(calls, c, p.active);
    var more := calls + [c];
    assert more[..|more| - 1] == calls && more[|more| - 1] == c;
  }

  /** Appending a call on an active socket keeps the calls within range. */
  lemma CallsWithinSnoc(calls: seq<Call>, c: Call, active: nat)
    requires CallsWithin(calls, active) && c.index < active
    ensures CallsWithin(calls + [c], active)
  {
    forall k | 0 <= k < |calls + [c]|
      ensures (calls + [c])[k].index < active
    {
      if k < |calls| {
        assert (calls + [c])[k] == calls[k];
      }
    }
  }

  /** A prefix of calls within range stays within range. */
  lemma CallsWithinPrefix(calls: seq<Call>, n: nat, active: nat)
    requires CallsWithin(calls, active) && n <= |calls|
    ensures CallsWithin(calls[..n], active)
  {
    forall k | 0 <= k < n
      ensures calls[..n][k].index < active
    {
      assert calls[..n][k] == calls[k];
    }
  }

  /** A replayed call leaves its socket holding what the handler left, with
      the deadline rearmed from the clock reading after the call when the
      timeout is finite. */
  lemma ReplayKeeps(q: Pass, c: Call, e: Effect)
    requires ValidServer(q.server) && c.index < q.active <= q.server.reserved && |q.handled| == q.active
    ensures var sock := Replay(q, c, e).server.socks[c.index];
      && sock.handler == e.handler && sock.flags == e.flags && sock.timeout == e.timeout
      && (e.timeout != INF ==> TicksUntil(sock.deadline, e.tick) == e.timeout)
  {
    assert Replay(q, c, e).server == Invoke(q, c.index, c.reason, e).server;
  }

  /** A replay with at least one call is the replay of its last call on the
      pass the earlier calls left. */
  lemma ReplaysLast(p: Pass, q: Pass, behaviour: nat -> Effect) returns (before: Pass)
    requires Replays(p, q, behaviour) && |p.calls| < |q.calls|
    ensures ValidServer(before.server) && before.active == p.active <= before.server.reserved
    ensures |before.handled| == p.active && |before.calls| == |q.calls| - 1
    ensures q.calls[|q.calls| - 1].index < p.active
    ensures q == Replay(before, q.calls[|q.calls| - 1], EffectAt(behaviour, |before.calls|))
  {
    var made := q.calls[|p.calls|..];
    var init := made[..|made| - 1];
    var c := made[|made| - 1];
    assert made == init + [c] && c == q.calls[|q.calls| - 1];
    CallsWithinPrefix(made, |made| - 1, p.active);
    before := ApplyCalls(p, init, behaviour);
    assert |before.calls| == |q.calls| - 1;
    assert q == Replay(before, c, EffectAt(behaviour, |before.calls|)) by {
      ApplyCallsSnoc(p, init, c, behaviour);
    }
  }

  /** After a replay, the last call's socket holds what its handler left,
      its deadline is rearmed from the clock reading after the call when its
      timeout is finite, and a stop its handler raised is up. */
  lemma LastCallKept(p: Pass, q: Pass, behaviour: nat -> Effect)
    requires Replays(p, q, behaviour) && |p.calls| < |q.calls|
    ensures q.calls[|q.calls| - 1].index < |q.server.socks|
    ensures var i := q.calls[|q.calls| - 1].index;
      var e := EffectAt(behaviour, |q.calls| - 1);
      && q.server.socks[i].handler == e.handler && q.server.socks[i].flags == e.flags
      && q.server.socks[i].timeout == e.timeout
      && (e.timeout != INF ==> TicksUntil(q.server.socks[i].deadline, e.tick) == e.timeout)
      && (e.stop ==> Stopped(q.server))
  {
    var before := ReplaysLast(p, q, behaviour);
    var e := EffectAt(behaviour, |before.calls|);
    assert e == EffectAt(behaviour, |q.calls| - 1);
    ReplayKeeps(before, q.calls[|q.calls| - 1], e);
  }

  /** Making `a` and then `b` is making `a + b`. */
  lemma {:induction false} ApplyCallsAppend(p: Pass, a: seq<Call>, b: seq<Call>, behaviour: nat -> Effect)
    requires ValidServer(p.server) && p.active <= p.server.reserved && |p.handled| == p.active
    requires CallsWithin(a, p.active) && CallsWithin(b, p.active)
    ensures CallsWithin(a + b, p.active)
    ensures ApplyCalls(p, a + b, behaviour) == ApplyCalls(ApplyCalls(p, a, behaviour), b, behaviour)
    decreases |b|
  {
    assert CallsWithin(a + b, p.active) by {
      forall k | 0 <= k < |a + b|
        ensures (a + b)[k].index < p.active
      {
        if k < |a| {
          assert (a + b)[k] == a[k];
        } else {
          assert (a + b)[k] == b[k - |a|];
        }
      }
    }
    if |b| == 0 {
      assert a + b == a;
    } else {
      var init := b[..|b| - 1];
      ApplyCallsAppend(p, a, init, behaviour);
      assert (a + b)[..|a + b| - 1] == a + init;
      assert (a + b)[|a + b| - 1] == b[|b| - 1];
    }
  }

  /** Replays compose: the calls since `p` up to `q`, then those up to `r`. */
  lemma ReplaysTrans(p: Pass, q: Pass, r: Pass, behaviour: nat -> Effect)
    requires Replays(p, q, behaviour) && Replays(q, r, behaviour)
    ensures Replays(p, r, behaviour)
  {
    var a := q.calls[|p.calls|..];
    var b := r.calls[|q.calls|..];
    assert r.calls[|p.calls|..] == a + b;
    ApplyCallsAppend(p, a, b, behaviour);
  }

  /** Some call from position `from` up to `to` of the turn raises the stop flag. */
  predicate StopRaised(behaviour: nat -> Effect, from: nat, to: nat) {
    exists n :: from <= n < to && EffectAt(behaviour, n).stop
  }

  /** The stop flag is up after the calls exactly when it was up before or
      one of their effects raised it. */
  lemma {:induction false} ApplyCallsStopped(p: Pass, calls: seq<Call>, behaviour: nat -> Effect)
    requires ValidServer(p.server) && p.active <= p.server.reserved && |p.handled| == p.active
    requires CallsWithin(calls, p.active)
    ensures Stopped(ApplyCalls(p, calls, behaviour).server) <==>
      Stopped(p.server) || StopRaised(behaviour, |p.calls|, |p.calls| + |calls|)
    decreases |calls|
  {
    if |calls| > 0 {
      var init := calls[..|calls| - 1];
      var q := ApplyCalls(p, init, behaviour);
      ApplyCallsStopped(p, init, behaviour);
      var last := |p.calls| + |init|;
      assert |q.calls| == last;
      assert Stopped(ApplyCalls(p, calls, behaviour).server) <==> Stopped(q.server) || EffectAt(behaviour, last).stop;
      StopRaisedSnoc(behaviour, |p.calls|, last);
    }
  }

  /** Extending the range by one position adds that position's stop. */
  lemma StopRaisedSnoc(behaviour: nat -> Effect, from: nat, to: nat)
    requires from <= to
    ensures StopRaised(behaviour, from, to + 1) <==> StopRaised(behaviour, from, to) || EffectAt(behaviour, to).stop
  {
    if StopRaised(behaviour, from, to + 1) {
      var n :| from <= n < to + 1 && EffectAt(behaviour, n).stop;
      if n < to {
        assert from <= n < to && EffectAt(behaviour, n).stop;
      }
    }
  }

  /* ---------------------------------------------------------------------
     The two kinds of phase
     --------------------------------------------------------------------- */

  /** One popped set: each socket of `ready` is looked up with the hint;
      missing sockets, sockets already marked above this set's level, and
      sockets that no longer hold the set's flag are skipped; the others are
      called and marked. */
  method DispatchSet(p: Pass, ready: seq<Socket>, props: SetProperties, behaviour: nat -> Effect) returns (r: Pass)
    requires PassInv(p) && props in SET_PROPS && WellBehaved(behaviour)
    requires forall k :: 0 <= k < |p.calls| ==> Phase(p.calls[k].reason) < Phase(props.reason)
    ensures PassInv(r) && r.active == p.active
    ensures |p.calls| <= |r.calls| && r.calls[..|p.calls|] == p.calls
    ensures forall k :: |p.calls| <= k < |r.calls| ==> r.calls[k].reason == props.reason
    ensures forall k :: 0 <= k < |r.calls| ==> Phase(r.calls[k].reason) <= Phase(props.reason)
    ensures forall i :: 0 <= i < p.active ==> r.server.socks[i].so == p.server.socks[i].so
    ensures Distinct(ready) && NoRepeats(p.calls) ==> NoRepeats(r.calls)
    ensures SetSpec(p, r, ready, props)
    ensures Replays(p, r, behaviour)
  {
    var q := p;
    ReplaysNothing(p, behaviour);
    var hint: nat := 0;
    var j := 0;
    while j < |ready|
      invariant 0 <= j <= |ready| && hint <= q.active
      invariant SetLoopInv(p, q, ready, j, props)
      invariant SetSpec(p, q, ready[..j], props)
      invariant Replays(p, q, behaviour)
    {
      q, hint := SetOne(p, q, ready, j, hint, props, behaviour);
      j := j + 1;
    }
    assert ready[..j] == ready;
    r := q;
  }

  /** A socket passes a popped set's two tests in `p`: its mark is at most
      the set's level, and it holds the set's flag. */
  predicate Eligible(p: Pass, i: nat, props: SetProperties) {
    && i < |p.handled| && i < |p.server.socks|
    && p.handled[i] <= props.handled && p.server.socks[i].flags & props.setFlag != NONE
  }

  /** No call made after `p`, up to `q`, was on socket i. */
  predicate Untouched(p: Pass, q: Pass, i: nat)
    requires |p.calls| <= |q.calls|
  {
    forall k :: |p.calls| <= k < |q.calls| ==> q.calls[k].index != i
  }

  /** Each call made after `before` carries the set's reason and is on an
      active socket that is in `ready` and passed both tests in `before`. */
  predicate NewCallsEligible(before: Pass, after: Pass, ready: seq<Socket>, props: SetProperties)
    requires |before.calls| <= |after.calls|
  {
    forall k :: |before.calls| <= k < |after.calls| ==>
      && after.calls[k].reason == props.reason && after.calls[k].index < before.active
      && Eligible(before, after.calls[k].index, props)
      && before.server.socks[after.calls[k].index].so in ready
  }

  /** When the active sockets have distinct ids, every active socket in
      `ready` that passed both tests in `before` has been called. */
  predicate EligibleCalled(before: Pass, after: Pass, ready: seq<Socket>, props: SetProperties)
    requires |before.calls| <= |after.calls|
  {
    before.active <= |before.server.socks| && DistinctIds(before.server.socks[..before.active]) ==>
      forall i :: 0 <= i < before.active && Eligible(before, i, props) && before.server.socks[i].so in ready ==>
        Call(i, props.reason) in after.calls[|before.calls|..]
  }

  /** An active socket with no call since `before` is as it was, mark included. */
  predicate UncalledUnchanged(before: Pass, after: Pass)
    requires |before.calls| <= |after.calls|
  {
    forall i :: 0 <= i < before.active && Untouched(before, after, i) ==>
      && i < |after.server.socks| && i < |before.server.socks| && after.server.socks[i] == before.server.socks[i]
      && i < |after.handled| && i < |before.handled| && after.handled[i] == before.handled[i]
  }

  /** What one popped set does, from `before` to `after`: its calls follow
      the earlier ones; each is on an active socket in `ready` that passed
      both tests when the set began; with distinct ids every such socket is
      called; a socket the set does not call is left as it was. */
  predicate SetSpec(before: Pass, after: Pass, ready: seq<Socket>, props: SetProperties) {
    && after.active == before.active
    && |before.calls| <= |after.calls| && after.calls[..|before.calls|] == before.calls
    && SocketsKept(before.server, after.server, before.active)
    && NewCallsEligible(before, after, ready, props)
    && EligibleCalled(before, after, ready, props)
    && UncalledUnchanged(before, after)
  }

  /** With distinct ids, a socket that passed the tests when the set began
      and has not been called since is the one Find returns for its id, and
      it still passes both tests. */
  predicate FindsFirstVisit(p: Pass, q: Pass, ready: seq<Socket>, j: nat, index: nat, props: SetProperties)
    requires j < |ready| && |p.calls| <= |q.calls|
  {
    p.active <= |p.server.socks| && DistinctIds(p.server.socks[..p.active]) ==>
      forall i :: 0 <= i < p.active && Eligible(p, i, props) && p.server.socks[i].so == ready[j] && Untouched(p, q, i) ==>
        index == i && Eligible(q, i, props)
  }

  lemma FindsFirstVisitHolds(p: Pass, q: Pass, ready: seq<Socket>, j: nat, index: nat, props: SetProperties)
    requires j < |ready| && SetLoopInv(p, q, ready, j, props) && SetSpec(p, q, ready[..j], props)
    requires index <= q.active
    requires index < q.active ==> q.server.socks[index].so == ready[j]
    requires index == q.active ==> forall i :: 0 <= i < q.active ==> q.server.socks[i].so != ready[j]
    ensures FindsFirstVisit(p, q, ready, j, index, props)
  {
    if p.active <= |p.server.socks| && DistinctIds(p.server.socks[..p.active]) {
      forall i | 0 <= i < p.active && Eligible(p, i, props) && p.server.socks[i].so == ready[j] && Untouched(p, q, i)
        ensures index == i && Eligible(q, i, props)
      {
        assert q.server.socks[i] == p.server.socks[i];
        assert index < q.active;
        assert p.server.socks[..p.active][i].so == p.server.socks[..p.active][index].so;
      }
    }
  }

  /** A socket called by DispatchSet keeps SetSpec over the visited prefix. */
  lemma SetSpecCall(p: Pass, q: Pass, ready: seq<Socket>, j: nat, index: nat, props: SetProperties, e: Effect)
    requires PassInv(p) && j < |ready| && SetLoopInv(p, q, ready, j, props) && SetSpec(p, q, ready[..j], props)
    requires index < q.active && q.server.socks[index].so == ready[j] && Eligible(q, index, props)
    ensures SetSpec(p, SetCall(q, index, props, e), ready[..j + 1], props)
  {
    var next := SetCall(q, index, props, e);
    CalledWasEligible(p, q, ready[..j], index, props);
    NewCallsEligibleCall(p, q, next, ready, j, index, props);
    EligibleCalledCall(p, q, next, ready, j, index, props);
    UncalledUnchangedCall(p, q, index, props, e);
    assert next.calls[..|p.calls|] == p.calls by {
      assert next.calls[..|q.calls|] == q.calls;
    }
  }

  /** A socket that passes the tests now passed them when the set began:
      either nothing has touched it, or an earlier call on it required it. */
  lemma CalledWasEligible(p: Pass, q: Pass, visited: seq<Socket>, index: nat, props: SetProperties)
    requires |p.calls| <= |q.calls| && index < p.active
    requires NewCallsEligible(p, q, visited, props) && UncalledUnchanged(p, q)
    requires Eligible(q, index, props)
    ensures Eligible(p, index, props)
  {
    if !Untouched(p, q, index) {
      var k :| |p.calls| <= k < |q.calls| && q.calls[k].index == index;
    }
  }

  lemma NewCallsEligibleCall(p: Pass, q: Pass, next: Pass, ready: seq<Socket>, j: nat, index: nat, props: SetProperties)
    requires j < |ready| && |p.calls| <= |q.calls|
    requires NewCallsEligible(p, q, ready[..j], props)
    requires next.calls == q.calls + [Call(index, props.reason)]
    requires index < p.active && Eligible(p, index, props) && p.server.socks[index].so == ready[j]
    ensures NewCallsEligible(p, next, ready[..j + 1], props)
  {
    assert ready[..j + 1] == ready[..j] + [ready[j]];
    forall k | |p.calls| <= k < |next.calls|
      ensures next.calls[k].reason == props.reason && next.calls[k].index < p.active
      ensures Eligible(p, next.calls[k].index, props) && p.server.socks[next.calls[k].index].so in ready[..j + 1]
    {
      if k < |q.calls| {
        assert next.calls[k] == q.calls[k];
      }
    }
  }

  lemma EligibleCalledCall(p: Pass, q: Pass, next: Pass, ready: seq<Socket>, j: nat, index: nat, props: SetProperties)
    requires j < |ready| && |p.calls| <= |q.calls| && index < p.active <= |p.server.socks|
    requires EligibleCalled(p, q, ready[..j], props)
    requires next.calls == q.calls + [Call(index, props.reason)]
    requires p.server.socks[index].so == ready[j]
    ensures EligibleCalled(p, next, ready[..j + 1], props)
  {
    var call := Call(index, props.reason);
    assert ready[..j + 1] == ready[..j] + [ready[j]];
    assert next.calls[|p.calls|..] == q.calls[|p.calls|..] + [call];
    if DistinctIds(p.server.socks[..p.active]) {
      forall i | 0 <= i < p.active && Eligible(p, i, props) && p.server.socks[i].so in ready[..j + 1]
        ensures call == Call(i, props.reason) || Call(i, props.reason) in q.calls[|p.calls|..]
      {
        if p.server.socks[i].so !in ready[..j] {
          assert p.server.socks[..p.active][i].so == p.server.socks[..p.active][index].so;
        }
      }
    }
  }

  lemma UncalledUnchangedCall(p: Pass, q: Pass, index: nat, props: SetProperties, e: Effect)
    requires |p.calls| <= |q.calls| && p.active == q.active && |q.handled| == q.active
    requires ValidServer(q.server) && index < q.active <= q.server.reserved
    requires UncalledUnchanged(p, q)
    ensures UncalledUnchanged(p, SetCall(q, index, props, e))
  {
    var next := SetCall(q, index, props, e);
    forall i | 0 <= i < p.active && Untouched(p, next, i)
      ensures Untouched(p, q, i) && i != index
    {
      assert next.calls[|q.calls|] == Call(index, props.reason);
      forall k | |p.calls| <= k < |q.calls|
        ensures q.calls[k].index != i
      {
        assert next.calls[k] == q.calls[k];
      }
    }
  }

  /** A socket skipped by DispatchSet keeps SetSpec over the visited prefix:
      with distinct ids, a socket that passed the tests when the set began
      and has the skipped id has already been called from this set. */
  lemma SetSpecSkip(p: Pass, q: Pass, ready: seq<Socket>, j: nat, index: nat, props: SetProperties)
    requires j < |ready| && SetLoopInv(p, q, ready, j, props) && SetSpec(p, q, ready[..j], props)
    requires FindsFirstVisit(p, q, ready, j, index, props)
    requires index < q.active ==> !Eligible(q, index, props)
    ensures SetSpec(p, q, ready[..j + 1], props)
  {
    assert ready[..j + 1] == ready[..j] + [ready[j]];
    if p.active <= |p.server.socks| && DistinctIds(p.server.socks[..p.active]) {
      forall i | 0 <= i < p.active && Eligible(p, i, props) && p.server.socks[i].so in ready[..j + 1]
        ensures Call(i, props.reason) in q.calls[|p.calls|..]
      {
        assert !Untouched(p, q, i);
        var k :| |p.calls| <= k < |q.calls| && q.calls[k].index == i;
        assert q.calls[k] == q.calls[|p.calls|..][k - |p.calls|];
      }
    }
  }

  /** A call from a popped set, with its mark recorded in `handled`. */
  function SetCall(q: Pass, i: nat, props: SetProperties, e: Effect): (r: Pass)
    requires ValidServer(q.server) && i < q.active <= q.server.reserved && i < |q.handled|
    ensures r.calls == q.calls + [Call(i, props.reason)] && r.active == q.active
    ensures r.handled == q.handled[i := props.handled]
    ensures ValidServer(r.server)
    ensures forall j :: 0 <= j < q.server.reserved && j != i ==> r.server.socks[j] == q.server.socks[j]
  {
    Invoke(q, i, props.reason, e).(handled := q.handled[i := props.handled])
  }

  /** DispatchSet's loop body for the j-th socket of `ready`: look it up
      from the hint, and call it when it passes both tests. */
  method SetOne(p: Pass, q: Pass, ready: seq<Socket>, j: nat, hint: nat, props: SetProperties, behaviour: nat -> Effect)
    returns (next: Pass, nextHint: nat)
    requires PassInv(p) && props in SET_PROPS && WellBehaved(behaviour)
    requires forall k :: 0 <= k < |p.calls| ==> Phase(p.calls[k].reason) < Phase(props.reason)
    requires j < |ready| && hint <= q.active
    requires SetLoopInv(p, q, ready, j, props) && SetSpec(p, q, ready[..j], props) && Replays(p, q, behaviour)
    ensures nextHint <= next.active
    ensures SetLoopInv(p, next, ready, j + 1, props)
    ensures SetSpec(p, next, ready[..j + 1], props)
    ensures Replays(p, next, behaviour)
  {
    var index;
    index, nextHint := Find(q.active, q.server.socks, ready[j], hint);
    FindsFirstVisitHolds(p, q, ready, j, index, props);
    if index < q.active && q.handled[index] <= props.handled && q.server.socks[index].flags & props.setFlag != NONE {
      var e := EffectAt(behaviour, |q.calls|);
      SetStep(p, q, ready, j, index, props, e);
      SetSpecCall(p, q, ready, j, index, props, e);
      SetCallReplays(p, q, index, props, behaviour);
      next := SetCall(q, index, props, e);
    } else {
      SetSpecSkip(p, q, ready, j, index, props);
      SkipStep(p, q, ready, j, props);
      next := q;
    }
  }

  /** A set call is the replay of its recorded call. */
  lemma SetCallReplays(p: Pass, q: Pass, i: nat, props: SetProperties, behaviour: nat -> Effect)
    requires Replays(p, q, behaviour) && props in SET_PROPS && i < p.active
    ensures q.active == p.active && |q.handled| == q.active
    ensures Replays(p, SetCall(q, i, props, EffectAt(behaviour, |q.calls|)), behaviour)
  {
    SetPropsTable();
    ReplaysStep(p, q, Call(i, props.reason), behaviour);
    assert SetCall(q, i, props, EffectAt(behaviour, |q.calls|)) == Replay(q, Call(i, props.reason), EffectAt(behaviour, |q.calls|));
  }

  /** DispatchSet's loop invariant after `j` sockets of `ready`. */
  predicate SetLoopInv(p: Pass, q: Pass, ready: seq<Socket>, j: nat, props: SetProperties)
    requires j <= |ready|
  {
    && q.active == p.active && PassInv(q)
    && |p.calls| <= |q.calls| && q.calls[..|p.calls|] == p.calls
    && (forall k :: |p.calls| <= k < |q.calls| ==>
         q.calls[k].reason == props.reason && q.calls[k].index < |q.server.socks|
         && q.server.socks[q.calls[k].index].so in ready[..j])
    && (forall k :: 0 <= k < |q.calls| ==> Phase(q.calls[k].reason) <= Phase(props.reason))
    && SocketsKept(p.server, q.server, p.active)
    && (Distinct(ready) && NoRepeats(p.calls) ==> NoRepeats(q.calls))
  }

  /** The first `n` slots hold the same sockets, whatever their state. */
  predicate SocketsKept(a: Server, b: Server, n: nat) {
    forall i :: 0 <= i < n ==> i < |a.socks| && i < |b.socks| && b.socks[i].so == a.socks[i].so
  }

  /** A socket skipped by DispatchSet keeps the loop invariant. */
  lemma SkipStep(p: Pass, q: Pass, ready: seq<Socket>, j: nat, props: SetProperties)
    requires j < |ready| && SetLoopInv(p, q, ready, j, props)
    ensures SetLoopInv(p, q, ready, j + 1, props)
  {
    assert ready[..j + 1] == ready[..j] + [ready[j]];
    assert forall x :: x in ready[..j] ==> x in ready[..j + 1];
  }

  /** A socket called by DispatchSet keeps the loop invariant. */
  lemma SetStep(p: Pass, q: Pass, ready: seq<Socket>, j: nat, index: nat, props: SetProperties, e: Effect)
    requires PassInv(p) && props in SET_PROPS
    requires forall k :: 0 <= k < |p.calls| ==> Phase(p.calls[k].reason) < Phase(props.reason)
    requires j < |ready| && SetLoopInv(p, q, ready, j, props)
    requires index < q.active && q.server.socks[index].so == ready[j]
    requires q.handled[index] <= props.handled && q.server.socks[index].flags & props.setFlag != NONE
    requires forall m :: 0 <= m < |e.adds| ==> !Removable(e.adds[m])
    ensures SetLoopInv(p, SetCall(q, index, props, e), ready, j + 1, props)
  {
    SetCallKeepsInv(q, index, props, e);
    var next := SetCall(q, index, props, e);
    assert next.calls[..|p.calls|] == p.calls by {
      assert next.calls[..|q.calls|] == q.calls;
    }
    NewSetCallIsFresh(p, q, next, ready, j, index, props.reason);
  }

  /** The step of DispatchSet that keeps the calls of the current set
      traceable to the sockets already visited, and distinct when the set is. */
  lemma NewSetCallIsFresh(p: Pass, before: Pass, q: Pass, ready: seq<Socket>, j: nat, index: nat, reason: PopReason)
    requires j < |ready| && index < before.active == p.active
    requires |q.server.socks| == |before.server.socks| == SELECT_THREAD_CAPACITY && before.active <= SELECT_THREAD_CAPACITY
    requires |p.calls| <= |before.calls| && before.calls[..|p.calls|] == p.calls
    requires forall k :: 0 <= k < |before.calls| ==> before.calls[k].index < before.active
    requires forall k :: 0 <= k < |p.calls| ==> Phase(p.calls[k].reason) < Phase(reason)
    requires forall k :: |p.calls| <= k < |before.calls| ==>
      before.calls[k].reason == reason && before.server.socks[before.calls[k].index].so in ready[..j]
    requires before.server.socks[index].so == ready[j]
    requires q.calls == before.calls + [Call(index, reason)]
    requires forall i :: 0 <= i < before.active ==> q.server.socks[i].so == before.server.socks[i].so
    requires Distinct(ready) && NoRepeats(p.calls) ==> NoRepeats(before.calls)
    ensures forall k :: |p.calls| <= k < |q.calls| ==>
      q.calls[k].reason == reason && q.server.socks[q.calls[k].index].so in ready[..j + 1]
    ensures Distinct(ready) && NoRepeats(p.calls) ==> NoRepeats(q.calls)
  {
    assert ready[..j + 1] == ready[..j] + [ready[j]];
    forall k | |p.calls| <= k < |q.calls|
      ensures q.calls[k].reason == reason && q.server.socks[q.calls[k].index].so in ready[..j + 1]
    {
      if k < |before.calls| {
        assert q.calls[k] == before.calls[k];
      }
    }
    if Distinct(ready) && NoRepeats(p.calls) {
      forall a | 0 <= a < |before.calls|
        ensures before.calls[a] != Call(index, reason)
      {
        if a < |p.calls| {
          assert before.calls[a] == p.calls[a];
        }
      }
    }
  }

  /** Whether the timeout sweep calls a socket: a finite timeout, a reached
      deadline, and no call from a popped set this turn. */
  predicate Due(s: Sock, handled: nat, now: Uint32) {
    s.timeout != INF && Expired(s.deadline, now) && handled == 0
  }

  /** The calls the timeout sweep makes over the first `n` sockets, when
      handlers change only their own socket. */
  function TimeoutCalls(socks: seq<Sock>, handled: seq<nat>, now: Uint32, n: nat): (calls: seq<Call>)
    requires n <= |socks| && n <= |handled|
    ensures forall k :: 0 <= k < |calls| ==> calls[k].reason == PopTimeout && calls[k].index < n
  {
    if n == 0 then []
    else
      TimeoutCalls(socks, handled, now, n - 1) +
      (if Due(socks[n - 1], handled[n - 1], now) then [Call(n - 1, PopTimeout)] else [])
  }

  /** Calls on strictly increasing socket indices. */
  predicate Ascending(calls: seq<Call>) {
    forall a, b :: 0 <= a < b < |calls| ==> calls[a].index < calls[b].index
  }

  /** The sweep calls exactly the due sockets, each once, in index order. */
  lemma TimeoutCallsExactly(socks: seq<Sock>, handled: seq<nat>, now: Uint32, n: nat)
    requires n <= |socks| && n <= |handled|
    ensures forall i :: 0 <= i < n ==> (Call(i, PopTimeout) in TimeoutCalls(socks, handled, now, n) <==> Due(socks[i], handled[i], now))
    ensures Ascending(TimeoutCalls(socks, handled, now, n))
  {
    TimeoutCallsDue(socks, handled, now, n);
    TimeoutCallsAscending(socks, handled, now, n);
  }

  lemma {:induction false} TimeoutCallsDue(socks: seq<Sock>, handled: seq<nat>, now: Uint32, n: nat)
    requires n <= |socks| && n <= |handled|
    ensures forall i :: 0 <= i < n ==> (Call(i, PopTimeout) in TimeoutCalls(socks, handled, now, n) <==> Due(socks[i], handled[i], now))
    decreases n
  {
    if n > 0 {
      TimeoutCallsDue(socks, handled, now, n - 1);
      var init := TimeoutCalls(socks, handled, now, n - 1);
      assert forall k :: 0 <= k < |init| ==> init[k].index < n - 1;
      assert Call(n - 1, PopTimeout) !in init;
    }
  }

  lemma {:induction false} TimeoutCallsAscending(socks: seq<Sock>, handled: seq<nat>, now: Uint32, n: nat)
    requires n <= |socks| && n <= |handled|
    ensures Ascending(TimeoutCalls(socks, handled, now, n))
    decreases n
  {
    if n > 0 {
      TimeoutCallsAscending(socks, handled, now, n - 1);
      var init := TimeoutCalls(socks, handled, now, n - 1);
      var calls := TimeoutCalls(socks, handled, now, n);
      forall a, b | 0 <= a < b < |calls|
        ensures calls[a].index < calls[b].index
      {
        assert calls[a] == init[a];
        if b < |init| {
          assert calls[b] == init[b];
        } else {
          assert calls[b] == Call(n - 1, PopTimeout);
        }
      }
    }
  }

  /** One socket of the timeout sweep: a socket with a finite timeout whose
      deadline has been reached and which has no mark is called; any other
      socket is passed over. */
  function SweepStep(q: Pass, i: nat, now: Uint32, e: Effect): (r: Pass)
    requires ValidServer(q.server) && i < q.active <= q.server.reserved && |q.handled| == q.active
    ensures r.active == q.active && r.handled == q.handled
    ensures r.calls == q.calls + (if Due(q.server.socks[i], q.handled[i], now) then [Call(i, PopTimeout)] else [])
  {
    var sock := q.server.socks[i];
    if sock.timeout != INF && TicksUntil(sock.deadline, now) >= EXPIRED_DIFF && q.handled[i] == 0 then
      Invoke(q, i, PopTimeout, e)
    else
      q
  }

  /** TimeoutPhase's loop body for socket `i`: call it when it is due. */
  method SweepOne(p: Pass, q: Pass, i: nat, now: Uint32, behaviour: nat -> Effect) returns (next: Pass)
    requires PassInv(p) && WellBehaved(behaviour)
    requires forall k :: 0 <= k < |p.calls| ==> p.calls[k].reason != PopTimeout
    requires i < p.active == q.active
    requires PassInv(q) && q.handled == p.handled
    requires q.calls == p.calls + TimeoutCalls(p.server.socks, p.handled, now, i)
    requires forall k :: i <= k < p.active ==> q.server.socks[k] == p.server.socks[k]
    requires NoRepeats(p.calls) ==> NoRepeats(q.calls)
    requires Replays(p, q, behaviour)
    ensures next.active == p.active && PassInv(next) && next.handled == p.handled
    ensures next.calls == p.calls + TimeoutCalls(p.server.socks, p.handled, now, i + 1)
    ensures forall k :: i + 1 <= k < p.active ==> next.server.socks[k] == p.server.socks[k]
    ensures NoRepeats(p.calls) ==> NoRepeats(next.calls)
    ensures Replays(p, next, behaviour)
  {
    var e := EffectAt(behaviour, |q.calls|);
    SweepStepKeeps(p, q, i, now, e);
    SweepStepReplays(p, q, i, now, behaviour);
    next := SweepStep(q, i, now, e);
  }

  /** A sweep step is either no call or the replay of its timeout call. */
  lemma SweepStepReplays(p: Pass, q: Pass, i: nat, now: Uint32, behaviour: nat -> Effect)
    requires Replays(p, q, behaviour) && i < p.active
    ensures q.active == p.active && |q.handled| == q.active
    ensures Replays(p, SweepStep(q, i, now, EffectAt(behaviour, |q.calls|)), behaviour)
  {
    var sock := q.server.socks[i];
    if sock.timeout != INF && TicksUntil(sock.deadline, now) >= EXPIRED_DIFF && q.handled[i] == 0 {
      ReplaysStep(p, q, Call(i, PopTimeout), behaviour);
      assert SweepStep(q, i, now, EffectAt(behaviour, |q.calls|)) == Replay(q, Call(i, PopTimeout), EffectAt(behaviour, |q.calls|));
    }
  }

  /** The sweep's loop invariant survives one step. */
  lemma SweepStepKeeps(p: Pass, q: Pass, i: nat, now: Uint32, e: Effect)
    requires PassInv(p)
    requires forall k :: 0 <= k < |p.calls| ==> p.calls[k].reason != PopTimeout
    requires i < p.active == q.active && |p.handled| == p.active
    requires PassInv(q) && q.handled == p.handled
    requires q.calls == p.calls + TimeoutCalls(p.server.socks, p.handled, now, i)
    requires forall k :: i <= k < p.active ==> q.server.socks[k] == p.server.socks[k]
    requires NoRepeats(p.calls) ==> NoRepeats(q.calls)
    requires forall m :: 0 <= m < |e.adds| ==> !Removable(e.adds[m])
    ensures var r := SweepStep(q, i, now, e);
      && PassInv(r) && r.handled == p.handled
      && r.calls == p.calls + TimeoutCalls(p.server.socks, p.handled, now, i + 1)
      && (forall k :: i + 1 <= k < p.active ==> r.server.socks[k] == p.server.socks[k])
      && (NoRepeats(p.calls) ==> NoRepeats(r.calls))
  {
    assert q.server.socks[i] == p.server.socks[i];
    var tail := TimeoutCalls(p.server.socks, p.handled, now, i);
    if Due(q.server.socks[i], q.handled[i], now) {
      SweepDueKeeps(p, q, i, now, e);
    } else {
      assert tail + [] == tail;
    }
  }

  /** The due case of SweepStepKeeps: the timeout call keeps the invariant
      and extends the calls by exactly one timeout call. */
  lemma SweepDueKeeps(p: Pass, q: Pass, i: nat, now: Uint32, e: Effect)
    requires PassInv(p)
    requires forall k :: 0 <= k < |p.calls| ==> p.calls[k].reason != PopTimeout
    requires i < p.active == q.active && |p.handled| == p.active
    requires PassInv(q) && q.handled == p.handled
    requires q.calls == p.calls + TimeoutCalls(p.server.socks, p.handled, now, i)
    requires forall k :: i <= k < p.active ==> q.server.socks[k] == p.server.socks[k]
    requires NoRepeats(p.calls) ==> NoRepeats(q.calls)
    requires forall m :: 0 <= m < |e.adds| ==> !Removable(e.adds[m])
    requires Due(q.server.socks[i], q.handled[i], now)
    ensures var r := Invoke(q, i, PopTimeout, e);
      && PassInv(r) && r.handled == p.handled
      && r.calls == p.calls + TimeoutCalls(p.server.socks, p.handled, now, i + 1)
      && (forall k :: i + 1 <= k < p.active ==> r.server.socks[k] == p.server.socks[k])
      && (NoRepeats(p.calls) ==> NoRepeats(r.calls))
  {
    assert q.server.socks[i] == p.server.socks[i];
    var tail := TimeoutCalls(p.server.socks, p.handled, now, i);
    assert forall k :: 0 <= k < |tail| ==> tail[k].index < i;
    forall k | 0 <= k < |q.calls| && q.calls[k].reason == PopTimeout
      ensures q.calls[k].index < i
    {
      assert q.calls[k] == tail[k - |p.calls|];
    }
    TimeoutCallKeepsInv(q, i, e);
    if NoRepeats(q.calls) {
      TimeoutAppendNoRepeats(q.calls, i);
    }
    assert (p.calls + tail) + [Call(i, PopTimeout)] == p.calls + (tail + [Call(i, PopTimeout)]);
  }

  /** A timeout call on an index above every earlier timeout call repeats
      nothing. */
  lemma TimeoutAppendNoRepeats(calls: seq<Call>, i: nat)
    requires NoRepeats(calls)
    requires forall k :: 0 <= k < |calls| && calls[k].reason == PopTimeout ==> calls[k].index < i
    ensures NoRepeats(calls + [Call(i, PopTimeout)])
  {
    var next := calls + [Call(i, PopTimeout)];
    forall a, b | 0 <= a < b < |next|
      ensures next[a] != next[b]
    {
      assert next[a] == calls[a];
      if b < |calls| {
        assert next[b] == calls[b];
      }
    }
  }

  /** The timeout sweep over the active sockets, in index order. */
  method TimeoutPhase(p: Pass, now: Uint32, behaviour: nat -> Effect) returns (r: Pass)
    requires PassInv(p) && WellBehaved(behaviour)
    requires forall k :: 0 <= k < |p.calls| ==> p.calls[k].reason != PopTimeout
    ensures PassInv(r) && r.active == p.active
    ensures r.calls == p.calls + TimeoutCalls(p.server.socks, p.handled, now, p.active)
    ensures NoRepeats(p.calls) ==> NoRepeats(r.calls)
    ensures Replays(p, r, behaviour)
  {
    var q := p;
    var i := 0;
    ReplaysNothing(p, behaviour);
    assert TimeoutCalls(p.server.socks, p.handled, now, 0) == [];
    while i < p.active
      invariant 0 <= i <= p.active == q.active
      invariant PassInv(q) && q.handled == p.handled
      invariant q.calls == p.calls + TimeoutCalls(p.server.socks, p.handled, now, i)
      invariant forall k :: i <= k < p.active ==> q.server.socks[k] == p.server.socks[k]
      invariant NoRepeats(p.calls) ==> NoRepeats(q.calls)
      invariant Replays(p, q, behaviour)
    {
      q := SweepOne(p, q, i, now, behaviour);
      i := i + 1;
    }
    r := q;
  }

  /* ---------------------------------------------------------------------
     One turn and the loop
     --------------------------------------------------------------------- */

  /** The loop variables that survive from one turn to the next. */
  datatype Loop = Loop(server: Server, active: nat, marker: nat)

  /** What select is asked: the three sets' sockets and the timeout. */
  datatype Query = Query(read: seq<Socket>, write: seq<Socket>, error: seq<Socket>, timeout: Option<Timeval>)

  /** select's answer: failure, or the sockets left in each set. */
  datatype SelectResult = SelectFailed | Ready(read: seq<Socket>, write: seq<Socket>, error: seq<Socket>)

  /** The outside world for one turn: the clock readings of the promotion
      loop (by slot), of the minimum-timeout search and of the timeout sweep,
      select itself, and the handlers. */
  datatype Turn = Turn(ticks: seq<Uint32>, now: Uint32, select: Query -> SelectResult, sweepNow: Uint32,
                       behaviour: nat -> Effect)

  datatype Step = Exit(code: nat) | Continue(next: Loop, calls: seq<Call>)

  /** The SockSet arrays' contents before a turn; the turn resets each count. */
  const UNSET: SockSet := SockSet(0, seq(SELECT_THREAD_CAPACITY, _ => 0))

  /** One iteration of Run's loop. `selected` is the server after the locked
      prologue, on which select is asked `query`. The turn returns 0 on the
      stop flag or an empty server, 1 when select fails, and otherwise
      leaves the loop invariant in place with calls that keep the promises
      of the reactor: phase order, an error call or a timeout call excludes
      other calls on the socket, and no socket is called twice for the same
      reason when select's answer repeats no socket within a set. */
  method RunPass(l: Loop, turn: Turn) returns (step: Step, selected: Server, query: Query, phases: Phases)
    requires Tidy(l.server, l.active, l.marker)
    requires |turn.ticks| == SELECT_THREAD_CAPACITY && WellBehaved(turn.behaviour)
    ensures ValidServer(selected) && selected.flags == l.server.flags
    ensures forall i :: 0 <= i < selected.reserved ==> !Removable(selected.socks[i])
    ensures step == Exit(0) <==> Stopped(l.server) || selected.reserved == 0
    ensures !Stopped(l.server) && selected.reserved > 0 ==>
      && query.read == Wanting(selected.socks[..selected.reserved], READ)
      && query.write == Wanting(selected.socks[..selected.reserved], WRITE)
      && query.error == Wanting(selected.socks[..selected.reserved], ERROR_)
      && (query.timeout.None? <==> forall i :: 0 <= i < selected.reserved ==> selected.socks[i].timeout == INF)
    ensures step == Exit(1) <==> !Stopped(l.server) && selected.reserved > 0 && turn.select(query).SelectFailed?
    ensures step.Exit? ==> step.code <= 1
    ensures step.Continue? ==>
      && Tidy(step.next.server, step.next.active, step.next.marker)
      && step.next.active == selected.reserved
      && Ordered(step.calls) && Exclusive(step.calls)
      && (forall k :: 0 <= k < |step.calls| ==> step.calls[k].index < selected.reserved)
    ensures step.Continue? && turn.select(query).Ready? ==>
      var ready := turn.select(query);
      Distinct(ready.read) && Distinct(ready.write) && Distinct(ready.error) ==> NoRepeats(step.calls)
    ensures step.Continue? ==>
      && turn.select(query).Ready?
      && SetsHandled(StartPass(selected), turn.select(query), phases)
      && PassInv(phases.afterSets) && phases.afterSets.active == selected.reserved
      && step.calls == phases.afterSets.calls +
           if query.timeout.Some? then
             TimeoutCalls(phases.afterSets.server.socks, phases.afterSets.handled, turn.sweepNow, selected.reserved)
           else []
    ensures step.Continue? ==>
      var final := ApplyCalls(StartPass(selected), step.calls, turn.behaviour);
      && step.next == Loop(final.server, final.active, final.marker)
      && PhasesReplay(StartPass(selected), phases, final, turn.behaviour)
    ensures step.Continue? ==> (Stopped(step.next.server) <==> StopRaised(turn.behaviour, 0, |step.calls|))
    ensures query.timeout.Some? ==>
      var wait := query.timeout.value.sec * 1_000_000 + query.timeout.value.usec;
      && (exists i :: 0 <= i < selected.reserved && selected.socks[i].timeout != INF &&
            wait == ClampedDiff(selected.socks[i].deadline, turn.now) * 1000)
      && (forall i :: 0 <= i < selected.reserved && selected.socks[i].timeout != INF ==>
            wait <= ClampedDiff(selected.socks[i].deadline, turn.now) * 1000)
  {
    var promoted;
    promoted, selected := Maintain(l.server, l.active, l.marker, turn.ticks);
    var active := selected.reserved;
    query := Query([], [], [], None);
    phases := Phases(StartPass(selected), StartPass(selected), StartPass(selected));
    if Stopped(selected) || active == 0 {
      return Exit(0), selected, query, phases;
    }
    query := AskSelect(selected, turn.now);
    var result := turn.select(query);
    if result.SelectFailed? {
      return Exit(1), selected, query, phases;
    }
    var p;
    p, phases := HandleReady(selected, result, query.timeout.Some?, turn);
    ApplyCallsStopped(StartPass(selected), p.calls, turn.behaviour);
    step := Continue(Loop(p.server, p.active, p.marker), p.calls);
  }

  /** What a turn asks select: the active sockets wanting each event and,
      when some active socket has a timeout, the smallest time left before
      one expires, in microseconds. */
  method AskSelect(selected: Server, now: Uint32) returns (query: Query)
    requires ValidServer(selected)
    ensures query.read == Wanting(selected.socks[..selected.reserved], READ)
    ensures query.write == Wanting(selected.socks[..selected.reserved], WRITE)
    ensures query.error == Wanting(selected.socks[..selected.reserved], ERROR_)
    ensures query.timeout.None? <==> forall i :: 0 <= i < selected.reserved ==> selected.socks[i].timeout == INF
    ensures query.timeout.Some? ==>
      var wait := query.timeout.value.sec * 1_000_000 + query.timeout.value.usec;
      && (exists i :: 0 <= i < selected.reserved && selected.socks[i].timeout != INF &&
            wait == ClampedDiff(selected.socks[i].deadline, now) * 1000)
      && (forall i :: 0 <= i < selected.reserved && selected.socks[i].timeout != INF ==>
            wait <= ClampedDiff(selected.socks[i].deadline, now) * 1000)
  {
    var readSet, writeSet, errorSet := BuildSets(selected.socks, selected.reserved, UNSET, UNSET, UNSET);
    var minDiff := MinTimeout(selected.socks, selected.reserved, now);
    query := Query(Members(readSet), Members(writeSet), Members(errorSet), SelectTimeout(minDiff));
  }

  /** The passes after each popped set: error, then write, then read. */
  datatype Phases = Phases(afterError: Pass, afterWrite: Pass, afterSets: Pass)

  /** The pass a turn starts from: every reserved socket active, no marker,
      every mark zeroed, no call yet. */
  function StartPass(s: Server): (p: Pass)
    ensures p.server == s && p.active == s.reserved && p.calls == []
    ensures |p.handled| == s.reserved && forall i :: 0 <= i < s.reserved ==> p.handled[i] == 0
  {
    Pass(s, s.reserved, SELECT_THREAD_CAPACITY, seq(s.reserved, _ => 0), [])
  }

  /** The popped sets handled in the order error, write, read, each from the
      pass the one before it left; when select reported nothing, no set is
      handled. */
  predicate SetsHandled(start: Pass, result: SelectResult, phases: Phases)
    requires result.Ready?
  {
    if |result.read| + |result.write| + |result.error| > 0 then
      && SetSpec(start, phases.afterError, result.error, SET_PROPS[2])
      && SetSpec(phases.afterError, phases.afterWrite, result.write, SET_PROPS[1])
      && SetSpec(phases.afterWrite, phases.afterSets, result.read, SET_PROPS[0])
    else
      phases == Phases(start, start, start)
  }

  /** Each pass of a turn is the one before it with the calls made since:
      the error, write and read sets in turn from the start, then the
      timeout sweep from the read set's pass to `final`. */
  predicate PhasesReplay(start: Pass, phases: Phases, final: Pass, behaviour: nat -> Effect) {
    && Replays(start, phases.afterError, behaviour)
    && Replays(phases.afterError, phases.afterWrite, behaviour)
    && Replays(phases.afterWrite, phases.afterSets, behaviour)
    && Replays(phases.afterSets, final, behaviour)
  }

  /** With distinct socket ids, the error set calls exactly the active
      sockets that select put in it and that hold the ERROR_ flag, since
      every mark is zero when the turn starts. */
  lemma ErrorCallsExactly(selected: Server, result: SelectResult, phases: Phases, i: nat)
    requires ValidServer(selected) && result.Ready? && SetsHandled(StartPass(selected), result, phases)
    requires |result.read| + |result.write| + |result.error| > 0
    requires DistinctIds(selected.socks[..selected.reserved]) && i < selected.reserved
    ensures Call(i, PopError) in phases.afterError.calls <==>
      selected.socks[i].so in result.error && selected.socks[i].flags & ERROR_ != NONE
  {
    var start := StartPass(selected);
    SetPropsTable();
    assert phases.afterError.calls[|start.calls|..] == phases.afterError.calls;
    if Call(i, PopError) in phases.afterError.calls {
      var k :| 0 <= k < |phases.afterError.calls| && phases.afterError.calls[k] == Call(i, PopError);
    }
  }

  /** The calls after a successful select: the error, write and read sets
      in that order when select reported anything, then the timeout sweep
      when some socket has a timeout. The sweep calls exactly the due
      sockets of the pass the sets left. */
  method HandleReady(selected: Server, result: SelectResult, sweep: bool, turn: Turn) returns (p: Pass, phases: Phases)
    requires Tidy(selected, selected.reserved, SELECT_THREAD_CAPACITY) && result.Ready?
    requires WellBehaved(turn.behaviour)
    ensures PassInv(p) && p.active == selected.reserved
    ensures Distinct(result.read) && Distinct(result.write) && Distinct(result.error) ==> NoRepeats(p.calls)
    ensures SetsHandled(StartPass(selected), result, phases)
    ensures PassInv(phases.afterSets) && phases.afterSets.active == selected.reserved
    ensures sweep ==>
      p.calls == phases.afterSets.calls + TimeoutCalls(phases.afterSets.server.socks, phases.afterSets.handled, turn.sweepNow, selected.reserved)
    ensures !sweep ==> p == phases.afterSets
    ensures PhasesReplay(StartPass(selected), phases, p, turn.behaviour)
    ensures p == ApplyCalls(StartPass(selected), p.calls, turn.behaviour)
  {
    var start := StartPass(selected);
    phases := DispatchSets(start, result, turn.behaviour);
    p := phases.afterSets;
    if sweep {
      p := TimeoutPhase(p, turn.sweepNow, turn.behaviour);
    } else {
      ReplaysNothing(p, turn.behaviour);
    }
    PhasesReplayWhole(start, phases, p, turn.behaviour);
  }

  /** The three popped sets of a turn, error, write and read, each from the
      pass the one before it left; nothing when select reported nothing. */
  method DispatchSets(start: Pass, result: SelectResult, behaviour: nat -> Effect) returns (phases: Phases)
    requires PassInv(start) && start.calls == [] && result.Ready? && WellBehaved(behaviour)
    ensures PassInv(phases.afterSets) && phases.afterSets.active == start.active
    ensures forall k :: 0 <= k < |phases.afterSets.calls| ==> phases.afterSets.calls[k].reason != PopTimeout
    ensures Distinct(result.read) && Distinct(result.write) && Distinct(result.error) ==> NoRepeats(phases.afterSets.calls)
    ensures SetsHandled(start, result, phases)
    ensures && Replays(start, phases.afterError, behaviour)
            && Replays(phases.afterError, phases.afterWrite, behaviour)
            && Replays(phases.afterWrite, phases.afterSets, behaviour)
  {
    SetPropsTable();
    phases := Phases(start, start, start);
    ReplaysNothing(start, behaviour);
    if |result.read| + |result.write| + |result.error| > 0 {
      var afterError := DispatchSet(start, result.error, SET_PROPS[2], behaviour);
      var afterWrite, afterSets := DispatchWriteRead(afterError, result, behaviour);
      phases := Phases(afterError, afterWrite, afterSets);
    }
  }

  /** The write set, then the read set, after the error set's calls. */
  method DispatchWriteRead(afterError: Pass, result: SelectResult, behaviour: nat -> Effect)
    returns (afterWrite: Pass, afterSets: Pass)
    requires PassInv(afterError) && result.Ready? && WellBehaved(behaviour)
    requires forall k :: 0 <= k < |afterError.calls| ==> afterError.calls[k].reason == PopError
    ensures PassInv(afterSets) && afterSets.active == afterError.active
    ensures forall k :: 0 <= k < |afterSets.calls| ==> afterSets.calls[k].reason != PopTimeout
    ensures Distinct(result.read) && Distinct(result.write) && NoRepeats(afterError.calls) ==> NoRepeats(afterSets.calls)
    ensures SetSpec(afterError, afterWrite, result.write, SET_PROPS[1])
    ensures SetSpec(afterWrite, afterSets, result.read, SET_PROPS[0])
    ensures Replays(afterError, afterWrite, behaviour) && Replays(afterWrite, afterSets, behaviour)
  {
    SetPropsTable();
    afterWrite := DispatchSet(afterError, result.write, SET_PROPS[1], behaviour);
    afterSets := DispatchSet(afterWrite, result.read, SET_PROPS[0], behaviour);
  }

  /** A turn whose passes replay one another is, as a whole, its calls made
      from the start. */
  lemma PhasesReplayWhole(start: Pass, phases: Phases, final: Pass, behaviour: nat -> Effect)
    requires PhasesReplay(start, phases, final, behaviour) && start.calls == []
    ensures Replays(start, final, behaviour)
    ensures CallsWithin(final.calls, start.active)
    ensures final == ApplyCalls(start, final.calls, behaviour)
  {
    ReplaysTrans(start, phases.afterError, phases.afterWrite, behaviour);
    ReplaysTrans(start, phases.afterWrite, phases.afterSets, behaviour);
    ReplaysTrans(start, phases.afterSets, final, behaviour);
    assert final.calls[|start.calls|..] == final.calls;
  }

  /** Adding a turn whose calls keep phase order and exclusivity keeps
      every turn's calls so. */
  lemma PassesAppend(passes: seq<seq<Call>>, calls: seq<Call>)
    requires forall n :: 0 <= n < |passes| ==> Ordered(passes[n]) && Exclusive(passes[n])
    requires Ordered(calls) && Exclusive(calls)
    ensures forall n :: 0 <= n < |passes| + 1 ==> Ordered((passes + [calls])[n]) && Exclusive((passes + [calls])[n])
  {
    forall n | 0 <= n < |passes| + 1
      ensures Ordered((passes + [calls])[n]) && Exclusive((passes + [calls])[n])
    {
      if n < |passes| {
        assert (passes + [calls])[n] == passes[n];
      }
    }
  }

  /** SelectServer::Run from its initial loop state (no active socket, no
      marker) over a finite sequence of turns: it stops at the first turn
      that exits, with that turn's code; every completed turn's calls keep
      the phase order and exclusivity promises. */
  method Run(s: Server, turns: seq<Turn>) returns (exit: Option<nat>, passes: seq<seq<Call>>)
    requires ValidServer(s) && forall i :: 0 <= i < s.reserved ==> !Removable(s.socks[i])
    requires forall k :: 0 <= k < |turns| ==> |turns[k].ticks| == SELECT_THREAD_CAPACITY && WellBehaved(turns[k].behaviour)
    ensures exit.None? ==> |passes| == |turns|
    ensures exit.Some? ==> |passes| < |turns| && exit.value <= 1
    ensures forall k :: 0 <= k < |passes| ==> Ordered(passes[k]) && Exclusive(passes[k])
  {
    var l := Loop(s, 0, SELECT_THREAD_CAPACITY);
    passes := [];
    var k := 0;
    while k < |turns|
      invariant 0 <= k <= |turns| && |passes| == k
      invariant Tidy(l.server, l.active, l.marker)
      invariant forall n :: 0 <= n < k ==> Ordered(passes[n]) && Exclusive(passes[n])
    {
      var step, _, _, _ := RunPass(l, turns[k]);
      if step.Exit? {
        return Some(step.code), passes;
      }
      l := step.next;
      PassesAppend(passes, step.calls);
      passes := passes + [step.calls];
      k := k + 1;
    }
    exit := None;
  }
}
