/** The per-socket record of SelectServer.h and the tick arithmetic the
    reactor does on it.

    Tick counts are 32-bit millisecond counters that wrap (GetTickCount); a
    deadline is compared with the clock through the wrapped difference
    `deadline - now`, which counts as "not yet" below 0x7FFFFFFF.
 */
module SelectSock {
  import opened Rpc

  /** SELECT_THREAD_CAPACITY, the default an application may override. */
  const SELECT_THREAD_CAPACITY: nat := 64

  /** SelectSock::Flags, a BYTE. */
  type Flags = bv8

  const NONE: Flags := 0x00
  const READ: Flags := 0x01
  const WRITE: Flags := 0x02
  const ERROR_: Flags := 0x04
  const ALL: Flags := 0x07

  /** SelectSock::INF: no timeout. */
  const INF: Uint32 := 0xFFFF_FFFF

  /** The wrapped difference from which a deadline counts as reached. */
  const EXPIRED_DIFF: Uint32 := 0x7FFF_FFFF

  /** SOCKET values and handler function pointers are opaque identities. */
  type Socket = nat
  type Handler = nat

  /** Why a handler is called; the enumerators' numeric values are never
      read by the reactor, so only their identity is modelled. */
  datatype PopReason = PopTimeout | PopRead | PopWrite | PopError

  /** A SelectSock; `deadline` is its timeoutTickCount. The `user` pointer is
      not modelled. */
  datatype Sock = Sock(so: Socket, handler: Handler, timeout: Uint32, deadline: Uint32, flags: Flags)

  /** SelectSock::UpdateHandler: the handler changes and nothing else. */
  function UpdateHandler(s: Sock, handler: Handler): (r: Sock)
    ensures r.handler == handler && r.(handler := s.handler) == s
  {
    s.(handler := handler)
  }

  /** SelectSock::UpdateEventFlags: the flags change and nothing else. */
  function UpdateEventFlags(s: Sock, flags: Flags): (r: Sock)
    ensures r.flags == flags && r.(flags := s.flags) == s
  {
    s.(flags := flags)
  }

  /** SelectSock::UpdateTimeout: the timeout changes and nothing else; the
      deadline is recomputed only by the reactor after the handler returns. */
  function UpdateTimeout(s: Sock, millis: Uint32): (r: Sock)
    ensures r.timeout == millis && r.(timeout := s.timeout) == s
  {
    s.(timeout := millis)
  }

  /** The three updaters touch different fields, so their order does not matter. */
  lemma UpdatesCommute(s: Sock, handler: Handler, flags: Flags, millis: Uint32)
    ensures UpdateEventFlags(UpdateHandler(s, handler), flags) == UpdateHandler(UpdateEventFlags(s, flags), handler)
    ensures UpdateTimeout(UpdateHandler(s, handler), millis) == UpdateHandler(UpdateTimeout(s, millis), handler)
    ensures UpdateTimeout(UpdateEventFlags(s, flags), millis) == UpdateEventFlags(UpdateTimeout(s, millis), flags)
  {
  }

  /** A socket the compaction drops: no event flag and no timeout. */
  predicate Removable(s: Sock) {
    s.flags & ALL == NONE && s.timeout == INF
  }

  /** A socket waits in the set of `flag` exactly when that bit is set. */
  predicate Wants(s: Sock, flag: Flags) {
    s.flags & flag != NONE
  }

  /** Removable sockets are in no set; any other socket is in one, or has a timeout. */
  lemma RemovableWaitsForNothing(s: Sock)
    ensures Removable(s) <==> !Wants(s, READ) && !Wants(s, WRITE) && !Wants(s, ERROR_) && s.timeout == INF
  {
  }

  /* ---------------------------------------------------------------------
     Tick arithmetic
     --------------------------------------------------------------------- */

  /** `deadline - now` in DWORD arithmetic: the milliseconds left, modulo
      2^32, i.e. the wrapped amount to add to `now` to reach `deadline`. */
  function TicksUntil(deadline: Uint32, now: Uint32): (diff: Uint32)
    ensures (now + diff) % TWO_32 == deadline
  {
    (deadline - now) % TWO_32
  }

  /** `now + millis` in DWORD arithmetic; the deadline lies exactly `millis`
      ahead of `now` in wrapped time. */
  function AddTicks(now: Uint32, millis: Uint32): (deadline: Uint32)
    ensures TicksUntil(deadline, now) == millis
  {
    (now + millis) % TWO_32
  }

  /** Adding the ticks until a deadline reaches that deadline. */
  lemma AddTicksUntil(deadline: Uint32, now: Uint32)
    ensures AddTicks(now, TicksUntil(deadline, now)) == deadline
  {
  }

  /** The reactor's test for a reached deadline. */
  predicate Expired(deadline: Uint32, now: Uint32) {
    TicksUntil(deadline, now) >= EXPIRED_DIFF
  }

  /** A deadline counts as reached once the clock is past it by 1 to 2^31 + 1
      milliseconds; a deadline equal to the clock has not been reached. */
  lemma ExpiredMeansPassed(deadline: Uint32, now: Uint32)
    ensures Expired(deadline, now) <==> 1 <= TicksUntil(now, deadline) <= 0x8000_0001
    ensures !Expired(now, now)
  {
  }

  /** A diff as the minimum-timeout search uses it: reached deadlines count as 0. */
  function ClampedDiff(deadline: Uint32, now: Uint32): (diff: Uint32)
    ensures diff < EXPIRED_DIFF
    ensures diff == 0 <==> Expired(deadline, now) || deadline == now
    ensures !Expired(deadline, now) ==> AddTicks(now, diff) == deadline
  {
    var diff := TicksUntil(deadline, now);
    if diff >= EXPIRED_DIFF then 0 else diff
  }

  /* ---------------------------------------------------------------------
     SockSet
     --------------------------------------------------------------------- */

  /** The fd_set-compatible SockSet: a count and a fixed array of slots. */
  datatype SockSet = SockSet(count: nat, slots: seq<Socket>)

  predicate ValidSet(s: SockSet) {
    |s.slots| == SELECT_THREAD_CAPACITY && s.count <= SELECT_THREAD_CAPACITY
  }

  /** The sockets the set holds. */
  function Members(s: SockSet): (members: seq<Socket>)
    requires ValidSet(s)
    ensures |members| == s.count
  {
    s.slots[..s.count]
  }

  /** SockSet::Add: the caller keeps `count` below the capacity. */
  function Add(s: SockSet, so: Socket): (r: SockSet)
    requires ValidSet(s) && s.count < SELECT_THREAD_CAPACITY
    ensures ValidSet(r) && r.count == s.count + 1
    ensures Members(r) == Members(s) + [so]
    ensures r.slots[r.count..] == s.slots[r.count..]
  {
    SockSet(s.count + 1, s.slots[s.count := so])
  }
}
