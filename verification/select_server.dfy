/** The reactor's shared state (SelectServer, SynchronizedSelectServer) and
    the steps of one turn of SelectServer::Run that call no handler: adding
    reserved sockets, packing out removed ones, building the three sets and
    computing the select timeout.

    The critical section is not modelled: every operation here is one atomic
    step of a single-threaded model. GetTickCount readings are parameters.
 */
module SelectServer {
  import opened Rpc
  import opened Common
  import opened SelectSock

  /** SelectServer::STOP_FLAG. */
  const STOP_FLAG: bv8 := 0x01

  /** The socket array, socksReserved and the flags byte. */
  datatype Server = Server(socks: seq<Sock>, reserved: nat, flags: bv8)

  predicate ValidServer(s: Server) {
    |s.socks| == SELECT_THREAD_CAPACITY && s.reserved <= SELECT_THREAD_CAPACITY
  }

  /** The constructor: nothing reserved and no flag set; the array keeps
      whatever `slots` holds. */
  function NewServer(slots: seq<Sock>): (s: Server)
    requires |slots| == SELECT_THREAD_CAPACITY
    ensures ValidServer(s) && AvailableSocks(s) == SELECT_THREAD_CAPACITY && !Stopped(s)
  {
    Server(slots, 0, 0)
  }

  /** SynchronizedSelectServer::AvailableSocks: the free slots. */
  function AvailableSocks(s: Server): (n: nat)
    requires ValidServer(s)
    ensures n <= SELECT_THREAD_CAPACITY
    ensures n == 0 <==> s.reserved == SELECT_THREAD_CAPACITY
  {
    SELECT_THREAD_CAPACITY - s.reserved
  }

  predicate Stopped(s: Server) {
    s.flags & STOP_FLAG != 0
  }

  /** SynchronizedSelectServer::SetStopFlag: the stop bit is set and every
      other bit, and every socket, is kept. */
  function SetStopFlag(s: Server): (r: Server)
    ensures Stopped(r)
    ensures r.socks == s.socks && r.reserved == s.reserved
    ensures r.flags & !STOP_FLAG == s.flags & !STOP_FLAG
  {
    s.(flags := s.flags | STOP_FLAG)
  }

  lemma SetStopFlagIdempotent(s: Server)
    ensures SetStopFlag(SetStopFlag(s)) == SetStopFlag(s)
  {
  }

  /** SynchronizedSelectServer::TryAddSock. The result's first component is
      the C return value: true when the server is full, in which case nothing
      changes; otherwise the socket takes the first unreserved slot. */
  function TryAddSock(s: Server, sock: Sock): (r: (bool, Server))
    requires ValidServer(s)
    ensures ValidServer(r.1) && r.1.flags == s.flags
    ensures r.0 <==> AvailableSocks(s) == 0
    ensures r.0 ==> r.1 == s
    ensures !r.0 ==> AvailableSocks(r.1) == AvailableSocks(s) - 1 && r.1.socks[s.reserved] == sock
    ensures forall i :: 0 <= i < SELECT_THREAD_CAPACITY && i != s.reserved ==> r.1.socks[i] == s.socks[i]
  {
    if s.reserved >= SELECT_THREAD_CAPACITY then (true, s)
    else (false, s.(socks := s.socks[s.reserved := sock], reserved := s.reserved + 1))
  }

  function Min(a: nat, b: nat): nat {
    if a <= b then a else b
  }

  /** A handler calling TryAddSock once for each of `adds`, in order; the
      first component counts the calls that returned FALSE. Once the server
      is full every later call fails as well. */
  function AddAll(s: Server, adds: seq<Sock>): (r: (nat, Server))
    requires ValidServer(s)
    ensures ValidServer(r.1) && r.1.flags == s.flags
    ensures r.0 == Min(|adds|, AvailableSocks(s)) && r.1.reserved == s.reserved + r.0
    ensures r.1.socks[s.reserved..r.1.reserved] == adds[..r.0]
    ensures forall i :: 0 <= i < SELECT_THREAD_CAPACITY && !(s.reserved <= i < r.1.reserved) ==> r.1.socks[i] == s.socks[i]
    decreases |adds|
  {
    if |adds| == 0 then (0, s)
    else
      var (full, s1) := TryAddSock(s, adds[0]);
      if full then (0, s)
      else
        var (n, s2) := AddAll(s1, adds[1..]);
        AddAllStep(s, adds[0], adds[1..], s1, n, s2);
        assert [adds[0]] + adds[1..] == adds;
        (n + 1, s2)
  }

  /** The first successful TryAddSock followed by the rest. */
  lemma AddAllStep(s: Server, first: Sock, rest: seq<Sock>, s1: Server, n: nat, s2: Server)
    requires ValidServer(s) && (false, s1) == TryAddSock(s, first)
    requires ValidServer(s2) && n == Min(|rest|, AvailableSocks(s1)) && s2.reserved == s1.reserved + n
    requires s2.socks[s1.reserved..s2.reserved] == rest[..n]
    requires forall i :: 0 <= i < SELECT_THREAD_CAPACITY && !(s1.reserved <= i < s2.reserved) ==> s2.socks[i] == s1.socks[i]
    ensures n + 1 == Min(|rest| + 1, AvailableSocks(s)) && s2.reserved == s.reserved + n + 1
    ensures s2.socks[s.reserved..s2.reserved] == ([first] + rest)[..n + 1]
    ensures forall i :: 0 <= i < SELECT_THREAD_CAPACITY && !(s.reserved <= i < s2.reserved) ==> s2.socks[i] == s.socks[i]
  {
    assert s2.socks[s.reserved] == first;
    assert s2.socks[s.reserved..s2.reserved] == [first] + s2.socks[s1.reserved..s2.reserved];
    assert ([first] + rest)[..n + 1] == [first] + rest[..n];
  }

  /* ---------------------------------------------------------------------
     Find
     --------------------------------------------------------------------- */

  /** Find: the index of the socket `so` among the first `count`, searched
      from `hint` to the end and then from 0 to `hint`; `count` when it is
      missing. On success the hint moves past the found index. */
  method Find(count: nat, socks: seq<Sock>, so: Socket, hint: nat) returns (index: nat, outHint: nat)
    requires count <= |socks| && hint <= count
    ensures index <= count && outHint <= count
    ensures index < count ==> socks[index].so == so && outHint == index + 1
    ensures index == count ==> outHint == hint && forall i :: 0 <= i < count ==> socks[i].so != so
    ensures hint <= index ==> forall i :: hint <= i < index ==> socks[i].so != so
    ensures index < hint ==> (forall i :: hint <= i < count ==> socks[i].so != so) &&
                             (forall i :: 0 <= i < index ==> socks[i].so != so)
  {
    var i := hint;
    while i < count
      invariant hint <= i <= count
      invariant forall k :: hint <= k < i ==> socks[k].so != so
    {
      if so == socks[i].so {
        return i, i + 1;
      }
      i := i + 1;
    }
    i := 0;
    while i < hint
      invariant 0 <= i <= hint
      invariant forall k :: 0 <= k < i ==> socks[k].so != so
    {
      if so == socks[i].so {
        return i, i + 1;
      }
      i := i + 1;
    }
    return count, hint;
  }

  /* ---------------------------------------------------------------------
     Adding reserved sockets
     --------------------------------------------------------------------- */

  /** The timeout bookkeeping for one socket: with a finite timeout its
      deadline becomes `tick + timeout`; nothing else ever changes. */
  function Rearm(s: Sock, tick: Uint32): (r: Sock)
    ensures r.(deadline := s.deadline) == s
    ensures s.timeout != INF ==> TicksUntil(r.deadline, tick) == s.timeout
    ensures s.timeout == INF ==> r == s
  {
    if s.timeout != INF then s.(deadline := AddTicks(tick, s.timeout)) else s
  }

  /** A freshly armed deadline is not yet reached, and the minimum-timeout
      search sees exactly the timeout as the time left. */
  lemma RearmedNotExpired(s: Sock, tick: Uint32)
    requires s.timeout != INF && s.timeout < EXPIRED_DIFF
    ensures !Expired(Rearm(s, tick).deadline, tick)
    ensures ClampedDiff(Rearm(s, tick).deadline, tick) == s.timeout
  {
  }

  /** The loop that makes reserved sockets active: each socket from `active`
      to `reserved` is rearmed with its own GetTickCount reading `ticks[i]`. */
  method Promote(socks: seq<Sock>, active: nat, reserved: nat, ticks: seq<Uint32>) returns (promoted: seq<Sock>)
    requires active <= reserved <= |socks| && |ticks| == |socks|
    ensures |promoted| == |socks|
    ensures forall i :: 0 <= i < |socks| && !(active <= i < reserved) ==> promoted[i] == socks[i]
    ensures forall i :: active <= i < reserved ==> promoted[i] == Rearm(socks[i], ticks[i])
  {
    promoted := socks;
    var i := active;
    while i < reserved
      invariant active <= i <= reserved && |promoted| == |socks|
      invariant forall k :: 0 <= k < |socks| && !(active <= k < i) ==> promoted[k] == socks[k]
      invariant forall k :: active <= k < i ==> promoted[k] == Rearm(socks[k], ticks[k])
    {
      if promoted[i].timeout != INF {
        promoted := promoted[i := promoted[i].(deadline := AddTicks(ticks[i], promoted[i].timeout))];
      }
      i := i + 1;
    }
  }

  /* ---------------------------------------------------------------------
     Removing sockets
     --------------------------------------------------------------------- */

  /** The sockets that survive a packing pass, in their order. */
  function Kept(s: seq<Sock>): (r: seq<Sock>)
    ensures |r| <= |s|
  {
    if |s| == 0 then []
    else Kept(s[..|s| - 1]) + (if Removable(s[|s| - 1]) then [] else [s[|s| - 1]])
  }

  /** Packing keeps exactly the sockets that are not removable. */
  lemma {:induction false} KeptMembers(s: seq<Sock>)
    ensures forall k :: 0 <= k < |Kept(s)| ==> !Removable(Kept(s)[k]) && Kept(s)[k] in s
    ensures forall k :: 0 <= k < |s| && !Removable(s[k]) ==> s[k] in Kept(s)
    decreases |s|
  {
    if |s| > 0 {
      var init := s[..|s| - 1];
      KeptMembers(init);
      assert forall k :: 0 <= k < |init| ==> init[k] == s[k];
      assert forall x :: x in init ==> x in s;
    }
  }

  lemma {:induction false} KeptAppend(a: seq<Sock>, b: seq<Sock>)
    ensures Kept(a + b) == Kept(a) + Kept(b)
    decreases |b|
  {
    if |b| == 0 {
      assert a + b == a;
    } else {
      assert (a + b)[..|a + b| - 1] == a + b[..|b| - 1];
      KeptAppend(a, b[..|b| - 1]);
    }
  }

  /** Packing keeps a sequence with nothing to remove as it is. */
  lemma {:induction false} KeptAll(s: seq<Sock>)
    requires forall k :: 0 <= k < |s| ==> !Removable(s[k])
    ensures Kept(s) == s
    decreases |s|
  {
    if |s| > 0 {
      KeptAll(s[..|s| - 1]);
      assert s[..|s| - 1] + [s[|s| - 1]] == s;
    }
  }

  /** Packing twice is packing once. */
  lemma KeptIdempotent(s: seq<Sock>)
    ensures Kept(Kept(s)) == Kept(s)
  {
    KeptMembers(s);
    KeptAll(Kept(s));
  }

  /** The packing loop: `socks[marker]` is dropped without a test, and every
      later active socket is dropped when Removable and moved down otherwise.
      The slots from the new count on keep what they held. */
  method Compact(socks: seq<Sock>, active: nat, marker: nat) returns (packed: seq<Sock>, count: nat)
    requires marker < active <= |socks|
    ensures |packed| == |socks| && marker <= count < active
    ensures packed[..count] == socks[..marker] + Kept(socks[marker + 1..active])
    ensures packed[count..] == socks[count..]
  {
    packed := socks;
    count := marker;
    var packFrom := marker + 1;
    while packFrom < active
      invariant marker + 1 <= packFrom <= active
      invariant marker <= count < packFrom && |packed| == |socks|
      invariant packed[..count] == socks[..marker] + Kept(socks[marker + 1..packFrom])
      invariant packed[count..] == socks[count..]
    {
      var next := socks[packFrom];
      CompactStep(socks, marker, packFrom, packed, count);
      if !Removable(next) {
        packed := packed[count := next];
        count := count + 1;
      }
      packFrom := packFrom + 1;
    }
  }

  /** One iteration of the packing loop keeps its invariant. */
  lemma CompactStep(socks: seq<Sock>, marker: nat, packFrom: nat, packed: seq<Sock>, count: nat)
    requires marker + 1 <= packFrom < |socks| && marker <= count < packFrom + 1 && |packed| == |socks|
    requires packed[..count] == socks[..marker] + Kept(socks[marker + 1..packFrom])
    requires packed[count..] == socks[count..]
    ensures var next := socks[packFrom];
      var after := if Removable(next) then packed else packed[count := next];
      var n := if Removable(next) then count else count + 1;
      && after[..n] == socks[..marker] + Kept(socks[marker + 1..packFrom + 1])
      && after[n..] == socks[n..]
  {
    var next := socks[packFrom];
    KeptSnoc(socks, marker + 1, packFrom);
    if !Removable(next) {
      var after := packed[count := next];
      assert after[..count + 1] == packed[..count] + [next];
      assert after[count + 1..] == packed[count + 1..];
      assert after[count + 1..] == socks[count + 1..] by {
        assert packed[count + 1..] == packed[count..][1..];
      }
    }
  }

  /** Extending a window by one socket extends its packing by that socket
      unless it is removable. */
  lemma KeptSnoc(s: seq<Sock>, lo: nat, hi: nat)
    requires lo <= hi < |s|
    ensures Kept(s[lo..hi + 1]) == Kept(s[lo..hi]) + (if Removable(s[hi]) then [] else [s[hi]])
  {
    var w := s[lo..hi + 1];
    assert w[..|w| - 1] == s[lo..hi];
    assert w[|w| - 1] == s[hi];
  }

  /** When nothing below `marker` is removable and `socks[marker]` is,
      skipping the marker untested and filtering the rest drops exactly the
      removable sockets. */
  lemma CompactIsFilter(socks: seq<Sock>, active: nat, marker: nat)
    requires marker < active <= |socks|
    requires Removable(socks[marker])
    requires forall i :: 0 <= i < marker ==> !Removable(socks[i])
    ensures socks[..marker] + Kept(socks[marker + 1..active]) == Kept(socks[..active])
  {
    var head := socks[..marker + 1];
    var tail := socks[marker + 1..active];
    assert socks[..active] == head + tail;
    KeptAppend(head, tail);
    assert head[..|head| - 1] == socks[..marker];
    assert Kept(head) == Kept(socks[..marker]);
    KeptAll(socks[..marker]);
  }

  /** The loop state that survives from one turn to the next, and the
      invariant that makes packing correct: the marker (minSockToRemove) is
      SELECT_THREAD_CAPACITY or names a removable active socket, no active
      socket below it is removable, and no reserved socket waiting to become
      active is removable (TryAddSock's stated assumption). */
  predicate Tidy(s: Server, active: nat, marker: nat) {
    && ValidServer(s) && active <= s.reserved
    && (marker == SELECT_THREAD_CAPACITY || (marker < active && Removable(s.socks[marker])))
    && (forall i :: 0 <= i < active && Removable(s.socks[i]) ==> marker <= i)
    && (forall i :: active <= i < s.reserved ==> !Removable(s.socks[i]))
  }

  /** The locked prologue of a turn: activate the reserved sockets, then pack
      when the marker is set. Afterwards every reserved socket is active,
      none is removable, and they are the non-removable ones of the array,
      in order. `promoted` is the array between the two steps. */
  method Maintain(s: Server, active: nat, marker: nat, ticks: seq<Uint32>)
    returns (promoted: seq<Sock>, r: Server)
    requires Tidy(s, active, marker) && |ticks| == SELECT_THREAD_CAPACITY
    ensures |promoted| == SELECT_THREAD_CAPACITY
    ensures forall i :: active <= i < s.reserved ==> promoted[i] == Rearm(s.socks[i], ticks[i])
    ensures forall i :: 0 <= i < active ==> promoted[i] == s.socks[i]
    ensures Tidy(r, r.reserved, SELECT_THREAD_CAPACITY) && r.flags == s.flags
    ensures r.socks[..r.reserved] == Kept(promoted[..s.reserved])
    ensures forall i :: 0 <= i < r.reserved ==> !Removable(r.socks[i])
  {
    promoted := Promote(s.socks, active, s.reserved, ticks);
    forall i | 0 <= i < s.reserved
      ensures Removable(promoted[i]) <==> Removable(s.socks[i])
    {
    }
    if marker == SELECT_THREAD_CAPACITY {
      KeptAll(promoted[..s.reserved]);
      r := s.(socks := promoted);
    } else {
      var packed, count := Compact(promoted, s.reserved, marker);
      CompactIsFilter(promoted, s.reserved, marker);
      r := Server(packed, count, s.flags);
      KeptMembers(promoted[..s.reserved]);
      forall i | 0 <= i < r.reserved
        ensures !Removable(r.socks[i])
      {
        assert r.socks[i] == r.socks[..r.reserved][i];
      }
    }
  }

  /* ---------------------------------------------------------------------
     Select sets and timeout
     --------------------------------------------------------------------- */

  /** The sockets of `socks` that wait for `flag`, in order. */
  function Wanting(socks: seq<Sock>, flag: Flags): (r: seq<Socket>)
    ensures |r| <= |socks|
  {
    if |socks| == 0 then []
    else Wanting(socks[..|socks| - 1], flag) + (if Wants(socks[|socks| - 1], flag) then [socks[|socks| - 1].so] else [])
  }

  /** A socket is in a set exactly when some socket with that id wants the set's flag. */
  lemma {:induction false} WantingMembers(socks: seq<Sock>, flag: Flags, so: Socket)
    ensures so in Wanting(socks, flag) <==> exists i :: 0 <= i < |socks| && socks[i].so == so && Wants(socks[i], flag)
    decreases |socks|
  {
    if |socks| > 0 {
      var init := socks[..|socks| - 1];
      WantingMembers(init, flag, so);
      assert forall i :: 0 <= i < |init| ==> init[i] == socks[i];
    }
  }

  predicate DistinctIds(socks: seq<Sock>) {
    forall i, j :: 0 <= i < j < |socks| ==> socks[i].so != socks[j].so
  }

  predicate Distinct(s: seq<Socket>) {
    forall i, j :: 0 <= i < j < |s| ==> s[i] != s[j]
  }

  /** With distinct socket ids, no socket appears twice in a set. */
  lemma {:induction false} WantingDistinct(socks: seq<Sock>, flag: Flags)
    requires DistinctIds(socks)
    ensures Distinct(Wanting(socks, flag))
    decreases |socks|
  {
    if |socks| > 0 {
      var init := socks[..|socks| - 1];
      var last := socks[|socks| - 1];
      WantingDistinct(init, flag);
      WantingMembers(init, flag, last.so);
      assert forall i :: 0 <= i < |init| ==> init[i].so != last.so by {
        assert forall i :: 0 <= i < |init| ==> init[i] == socks[i];
      }
    }
  }

  /** The set-building loop: each active socket goes into the read, write and
      error set whose flag it holds. The sets' counts never reach the
      capacity, so SockSet::Add never overflows. */
  method BuildSets(socks: seq<Sock>, active: nat, read: SockSet, write: SockSet, error: SockSet)
    returns (readSet: SockSet, writeSet: SockSet, errorSet: SockSet)
    requires active <= |socks| && active <= SELECT_THREAD_CAPACITY
    requires ValidSet(read) && ValidSet(write) && ValidSet(error)
    ensures ValidSet(readSet) && ValidSet(writeSet) && ValidSet(errorSet)
    ensures Members(readSet) == Wanting(socks[..active], READ)
    ensures Members(writeSet) == Wanting(socks[..active], WRITE)
    ensures Members(errorSet) == Wanting(socks[..active], ERROR_)
  {
    readSet := read.(count := 0);
    writeSet := write.(count := 0);
    errorSet := error.(count := 0);
    var i := 0;
    while i < active
      invariant 0 <= i <= active
      invariant ValidSet(readSet) && Members(readSet) == Wanting(socks[..i], READ)
      invariant ValidSet(writeSet) && Members(writeSet) == Wanting(socks[..i], WRITE)
      invariant ValidSet(errorSet) && Members(errorSet) == Wanting(socks[..i], ERROR_)
    {
      assert socks[..i + 1][..i] == socks[..i];
      if socks[i].flags & READ != NONE {
        readSet := Add(readSet, socks[i].so);
      }
      if socks[i].flags & WRITE != NONE {
        writeSet := Add(writeSet, socks[i].so);
      }
      if socks[i].flags & ERROR_ != NONE {
        errorSet := Add(errorSet, socks[i].so);
      }
      i := i + 1;
    }
    assert socks[..active] == socks[..i];
  }

  /** The minimum-timeout search: INF when no active socket has a timeout,
      otherwise the least clamped time left, taken against one clock reading. */
  method MinTimeout(socks: seq<Sock>, active: nat, now: Uint32) returns (minDiff: Uint32)
    requires active <= |socks|
    ensures minDiff == INF <==> forall i :: 0 <= i < active ==> socks[i].timeout == INF
    ensures minDiff != INF ==> minDiff < EXPIRED_DIFF
    ensures minDiff != INF ==>
      exists i :: 0 <= i < active && socks[i].timeout != INF && minDiff == ClampedDiff(socks[i].deadline, now)
    ensures forall i :: 0 <= i < active && socks[i].timeout != INF ==> minDiff <= ClampedDiff(socks[i].deadline, now)
  {
    minDiff := INF;
    var i := 0;
    while i < active
      invariant 0 <= i <= active
      invariant minDiff == INF <==> forall k :: 0 <= k < i ==> socks[k].timeout == INF
      invariant minDiff != INF ==> minDiff < EXPIRED_DIFF
      invariant minDiff != INF ==>
        exists k :: 0 <= k < i && socks[k].timeout != INF && minDiff == ClampedDiff(socks[k].deadline, now)
      invariant forall k :: 0 <= k < i && socks[k].timeout != INF ==> minDiff <= ClampedDiff(socks[k].deadline, now)
    {
      if socks[i].timeout != INF {
        if minDiff == INF {
          minDiff := TicksUntil(socks[i].deadline, now);
          if minDiff >= EXPIRED_DIFF {
            minDiff := 0;
          }
        } else {
          var diff := TicksUntil(socks[i].deadline, now);
          if diff >= EXPIRED_DIFF {
            diff := 0;
          }
          if diff < minDiff {
            minDiff := diff;
          }
        }
      }
      i := i + 1;
    }
  }

  /** struct timeval. */
  datatype Timeval = Timeval(sec: nat, usec: nat)

  /** The timeout handed to select: none (block) for INF, otherwise the
      milliseconds split into seconds and microseconds. */
  function SelectTimeout(minDiff: Uint32): (t: Option<Timeval>)
    ensures t.None? <==> minDiff == INF
    ensures t.Some? ==> t.value.usec < 1_000_000 && t.value.usec % 1000 == 0
    ensures t.Some? ==> t.value.sec * 1_000_000 + t.value.usec == minDiff * 1000
  {
    if minDiff == INF then None
    else if minDiff == 0 then Some(Timeval(0, 0))
    else
      var sec := minDiff / 1000;
      var ms := minDiff % 1000;
      assert minDiff == sec * 1000 + ms;
      assert sec * 1_000_000 + ms * 1000 == (sec * 1000 + ms) * 1000;
      Some(Timeval(sec, ms * 1000))
  }
}
