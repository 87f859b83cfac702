/** The framing half of RpcTcpRecvHandler: after recv fills the shared
    buffer, the first four bytes are read as an RPC record mark (section 11
    of RFC 5531), and a single complete last fragment goes to
    HandleRpcCommand; anything else closes the connection.

    The handler reads the mark through a plain `char` pointer, and `char` is
    signed on the compiler the server targets: each byte is sign-extended
    to int before it is shifted and OR-ed into the length. Both that
    computation and the unsigned one the protocol calls for are modelled.
    The reactor sees the handler only through its effect on the socket: a
    closed connection has its event flags cleared.
 */
module TcpRecv {
  import opened Rpc
  import opened Common
  import opened RpcCall
  import opened NameHandles
  import opened Dispatcher
  import opened SelectSock
  import opened SelectServer
  import opened SelectPass

  /** data[0] >> 7 on a signed char is 0 or -1; the flag is set exactly when
      the mark's top bit is. */
  function LastFragment(mark: seq<Byte>): (last: bool)
    requires |mark| >= 4
    ensures last <==> ParseUint(mark) >= RPC_LAST_FRAGMENT_FLAG
  {
    mark[0] >= 0x80
  }

  /** The fragment length as the handler computes it,
        (data[0] & 0x7F) << 24 | data[1] << 16 | data[2] << 8 | data[3],
      on signed chars. A char of 0x80 or more becomes the int 0xFFFFFF00 | b,
      so after its shift it puts 0xFF into every byte above its own, and OR
      with 0xFF gives 0xFF. The byte sequence below is that 32-bit result,
      most significant byte first. */
  function FragmentLengthAsWritten(mark: seq<Byte>): (length: Uint32)
    requires |mark| >= 4
  {
    var fill2 := mark[3] >= 0x80;
    var fill1 := mark[2] >= 0x80 || fill2;
    var fill0 := mark[1] >= 0x80 || fill1;
    ParseUint([if fill0 then 0xFF else mark[0] % 0x80,
               if fill1 then 0xFF else mark[1],
               if fill2 then 0xFF else mark[2],
               mark[3]])
  }

  /** The fragment length of section 11 of RFC 5531: the mark's low 31 bits. */
  function FragmentLength(mark: seq<Byte>): (length: Uint32)
    requires |mark| >= 4
    ensures length < RPC_LAST_FRAGMENT_FLAG
    ensures LastFragment(mark) ==> RecordMark(length) == ParseUint(mark)
  {
    ParseUint(mark) % RPC_LAST_FRAGMENT_FLAG
  }

  /** Reading back the mark a reply carries gives its length and the
      last-fragment flag. */
  lemma RecordMarkRoundTrip(length: Uint32)
    requires length < RPC_LAST_FRAGMENT_FLAG
    ensures LastFragment(BigEndian(RecordMark(length)))
    ensures FragmentLength(BigEndian(RecordMark(length))) == length
  {
    ParseAfterAppend(RecordMark(length));
  }

  /** When no length byte after the first has its top bit set, sign
      extension changes nothing and the two computations agree. */
  lemma FragmentLengthsAgree(mark: seq<Byte>)
    requires |mark| >= 4 && mark[1] < 0x80 && mark[2] < 0x80 && mark[3] < 0x80
    ensures FragmentLengthAsWritten(mark) == FragmentLength(mark)
  {
    var rest: int := mark[1] as int * 0x1_0000 + mark[2] as int * 0x100 + mark[3] as int;
    var top: int := mark[0] as int * 0x100_0000;
    assert ParseUint(mark) == top + rest;
    assert top == (mark[0] as int / 0x80) * RPC_LAST_FRAGMENT_FLAG + (mark[0] as int % 0x80) * 0x100_0000;
  }

  /** A length byte after the first with its top bit set fills the top byte
      of the computed length with 0xFF. */
  lemma SignExtensionFillsTopByte(mark: seq<Byte>)
    requires |mark| >= 4 && (mark[1] >= 0x80 || mark[2] >= 0x80 || mark[3] >= 0x80)
    ensures FragmentLengthAsWritten(mark) >= 0xFF00_0000
  {
  }

  /** The handler's decision over the buffer after recv returned `size`,
      given the fragment length read from its mark: a non-positive `size`
      (end of stream or an error), a fragment that is not the last, and a
      length that does not match what was received all close; so does a
      call HandleRpcCommand refuses. The length test is in unsigned 32-bit
      arithmetic, as C converts `size` for the comparison. */
  function Receive(t: HandleTable, shared: seq<Byte>, size: int, length: Uint32): (r: (Outcome, HandleTable))
    requires ValidTable(t) && |shared| == SHARED_BUFFER_SIZE && size <= SHARED_BUFFER_SIZE
    ensures ValidTable(r.1) && t <= r.1
    ensures r.0 == Close ==> r.1 == t
    ensures size <= 0 || !LastFragment(shared) || (4 + length) % TWO_32 != size ==> r == (Close, t)
    ensures r.0 != Close ==> 0 < size && LastFragment(shared) && (4 + length) % TWO_32 == size
    ensures 0 < size && LastFragment(shared) && (4 + length) % TWO_32 == size ==> r == HandleRpcCommand(t, shared, size)
  {
    if size <= 0 then (Close, t)
    else if !LastFragment(shared) then (Close, t)
    else if (4 + length) % TWO_32 != size then (Close, t)
    else HandleRpcCommand(t, shared, size)
  }

  /** RpcTcpRecvHandler as written, on signed chars. */
  function RecvHandlerAsWritten(t: HandleTable, shared: seq<Byte>, size: int): (r: (Outcome, HandleTable))
    requires ValidTable(t) && |shared| == SHARED_BUFFER_SIZE && size <= SHARED_BUFFER_SIZE
    ensures ValidTable(r.1) && t <= r.1
    ensures r.0 != Close ==>
      size >= 12 && LastFragment(shared) && (4 + FragmentLengthAsWritten(shared)) % TWO_32 == size
  {
    Receive(t, shared, size, FragmentLengthAsWritten(shared))
  }

  /** RpcTcpRecvHandler with the mark read as unsigned bytes: the
      connection stays open exactly when the buffer holds one complete last
      fragment, as long as its mark says, carrying a call that decodes. */
  function RecvHandler(t: HandleTable, shared: seq<Byte>, size: int): (r: (Outcome, HandleTable))
    requires ValidTable(t) && |shared| == SHARED_BUFFER_SIZE && size <= SHARED_BUFFER_SIZE
    ensures ValidTable(r.1) && t <= r.1
    ensures r.0 != Close <==>
      && size >= 12 && LastFragment(shared) && 4 + FragmentLength(shared) == size
      && ParseCall(shared[4..size]).Some?
    ensures r.0 != Close ==> r == HandleRpcCommand(t, shared, size)
  {
    ReceiveUnsigned(t, shared, size);
    Receive(t, shared, size, FragmentLength(shared))
  }

  lemma ReceiveUnsigned(t: HandleTable, shared: seq<Byte>, size: int)
    requires ValidTable(t) && |shared| == SHARED_BUFFER_SIZE && size <= SHARED_BUFFER_SIZE
    ensures var r := Receive(t, shared, size, FragmentLength(shared));
      if size > 0 && LastFragment(shared) && 4 + FragmentLength(shared) == size
      then r == HandleRpcCommand(t, shared, size)
      else r == (Close, t)
  {
    var length := FragmentLength(shared);
    var r := Receive(t, shared, size, length);
    if size > 0 && LastFragment(shared) {
      assert (4 + length) % TWO_32 == 4 + length;
      if 4 + length == size {
        assert r == HandleRpcCommand(t, shared, size);
      } else {
        assert r == (Close, t);
      }
    } else {
      assert r == (Close, t);
    }
  }

  /** Records whose length has a byte of 0x80 or more after the first are
      always refused by the handler as written: the computed length is at
      least 0xFF000000, which no receive size matches, except sizes of 1 to
      3 bytes that HandleRpcCommand refuses in turn. */
  lemma SignExtensionCloses(t: HandleTable, shared: seq<Byte>, size: int)
    requires ValidTable(t) && |shared| == SHARED_BUFFER_SIZE && size <= SHARED_BUFFER_SIZE
    requires shared[1] >= 0x80 || shared[2] >= 0x80 || shared[3] >= 0x80
    ensures RecvHandlerAsWritten(t, shared, size) == (Close, t)
  {
    SignExtensionFillsTopByte(shared);
    WrapsBelowFour(FragmentLengthAsWritten(shared));
  }

  /** A 32-bit length of 0xFF000000 or more plus the four mark bytes wraps
      to below 4 or stays above any receive size. */
  lemma WrapsBelowFour(length: Uint32)
    requires length >= 0xFF00_0000
    ensures (4 + length) % TWO_32 < 4 || (4 + length) % TWO_32 > SHARED_BUFFER_SIZE
  {
  }

  /** Otherwise the handler as written behaves as the corrected one. */
  lemma FramingAgrees(t: HandleTable, shared: seq<Byte>, size: int)
    requires ValidTable(t) && |shared| == SHARED_BUFFER_SIZE && size <= SHARED_BUFFER_SIZE
    requires shared[1] < 0x80 && shared[2] < 0x80 && shared[3] < 0x80
    ensures RecvHandlerAsWritten(t, shared, size) == RecvHandler(t, shared, size)
  {
    FragmentLengthsAgree(shared);
  }

  /** A record as a client sends it, received in one piece: the mark of its
      length followed by the encoded call. */
  predicate HoldsRecord(shared: seq<Byte>, m: CallMessage)
    requires Encodable(m)
  {
    var call := EncodeCall(m);
    && |call| < RPC_LAST_FRAGMENT_FLAG && 4 + |call| <= |shared|
    && shared[..4] == BigEndian(RecordMark(|call|))
    && shared[4..4 + |call|] == call
  }

  /** The corrected handler answers every well-formed call that arrives as
      one record exactly as the dispatcher directs. */
  lemma RecordServed(t: HandleTable, shared: seq<Byte>, m: CallMessage)
    requires ValidTable(t) && |shared| == SHARED_BUFFER_SIZE && Encodable(m) && WellFormed(m)
    requires HoldsRecord(shared, m)
    ensures var size := 4 + |EncodeCall(m)|;
      var d := Dispatch(t, m.header, m.args, shared[28..60]);
      RecvHandler(t, shared, size) == (Respond(m, d.0), d.1)
  {
    var call := EncodeCall(m);
    RecordMarkRoundTrip(|call|);
    assert shared[..4] == BigEndian(RecordMark(|call|));
    ParseUintReadsFourBytes(shared[..4], shared[4..]);
    assert shared[..4] + shared[4..] == shared;
    EncodedCallOutcome(t, shared, m);
  }

  /** An NFS NULL call with 92 bytes of arguments is a 132-byte fragment,
      whose mark is 80 00 00 84. The handler as written closes the
      connection on it; the corrected one answers. */
  lemma LongNullCallRefused(t: HandleTable, shared: seq<Byte>, xid: Uint32, args: seq<Byte>)
    requires ValidTable(t) && |shared| == SHARED_BUFFER_SIZE && |args| == 92
    requires HoldsRecord(shared, CallMessage(TestHeader(xid, RPC_PROGRAM_NFS, 3, PROC_NULL), args))
    ensures shared[..4] == [0x80, 0x00, 0x00, 0x84]
    ensures RecvHandlerAsWritten(t, shared, 136).0 == Close
    ensures RecvHandler(t, shared, 136).0.Send?
  {
    var m := CallMessage(TestHeader(xid, RPC_PROGRAM_NFS, 3, PROC_NULL), args);
    assert |EncodeCall(m)| == 132;
    assert RecordMark(132) == 0x8000_0084;
    assert BigEndian(0x8000_0084) == [0x80, 0x00, 0x00, 0x84];
    SignExtensionCloses(t, shared, 136);
    RecordServed(t, shared, m);
  }

  /* ---------------------------------------------------------------------
     The handlers as the reactor sees them
     --------------------------------------------------------------------- */

  /** Handler identities. */
  const TCP_ACCEPT_HANDLER: Handler := 0
  const RPC_TCP_RECV_HANDLER: Handler := 1

  /** The effect of a receive on its socket: closing (ERROR_EXIT) clears the
      event flags through UpdateEventFlags; a served call changes nothing. */
  function RecvEffect(sock: Sock, o: Outcome, tick: Uint32): (e: Effect)
    ensures e.handler == sock.handler && e.timeout == sock.timeout && !e.stop && e.adds == []
    ensures e.flags == (if o == Close then NONE else sock.flags)
  {
    Effect(sock.handler, if o == Close then NONE else sock.flags, sock.timeout, false, [], tick)
  }

  /** The socket TcpAcceptHandler offers to TryAddSock for a new connection:
      read events only, no timeout, handled by RpcTcpRecvHandler. Its
      deadline is left as the constructor leaves it, which `deadline` stands for. */
  function AcceptedSock(so: Socket, deadline: Uint32): (s: Sock)
    ensures s.so == so && s.handler == RPC_TCP_RECV_HANDLER && s.timeout == INF
    ensures Wants(s, READ) && !Wants(s, WRITE) && !Wants(s, ERROR_) && !Removable(s)
  {
    Sock(so, RPC_TCP_RECV_HANDLER, INF, deadline, READ)
  }

  /** The effect of an accept on the listening socket: it keeps waiting for
      connections, and the new connection is offered to the server. */
  function AcceptEffect(listener: Sock, so: Socket, deadline: Uint32, tick: Uint32): (e: Effect)
    ensures e.handler == listener.handler && e.flags == listener.flags && e.timeout == listener.timeout
    ensures !e.stop && e.adds == [AcceptedSock(so, deadline)]
    ensures forall m :: 0 <= m < |e.adds| ==> !Removable(e.adds[m])
  {
    Effect(listener.handler, listener.flags, listener.timeout, false, [AcceptedSock(so, deadline)], tick)
  }

  /** A connection socket whose receive closed it is left removable, and
      the reactor's bookkeeping lowers the marker to it, so the next turn's
      packing drops it. */
  lemma ClosedConnectionRemoved(p: Pass, i: nat, reason: PopReason, tick: Uint32)
    requires ValidServer(p.server) && i < p.active <= p.server.reserved
    requires p.server.socks[i].timeout == INF
    ensures var r := Invoke(p, i, reason, RecvEffect(p.server.socks[i], Close, tick));
      Removable(r.server.socks[i]) && r.marker <= i
  {
  }

  /** Accepting a connection reserves a slot for it unless the server is
      full; it becomes active at the next turn's promotion. */
  lemma AcceptReserves(p: Pass, i: nat, reason: PopReason, so: Socket, deadline: Uint32, tick: Uint32)
    requires ValidServer(p.server) && i < p.active <= p.server.reserved
    ensures var r := Invoke(p, i, reason, AcceptEffect(p.server.socks[i], so, deadline, tick));
      && (r.server.reserved == p.server.reserved <==> AvailableSocks(p.server) == 0)
      && (AvailableSocks(p.server) > 0 ==> r.server.socks[p.server.reserved] == AcceptedSock(so, deadline))
      && r.server.socks[i].flags == p.server.socks[i].flags
  {
  }
}
