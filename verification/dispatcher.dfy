/** HandleRpcCommand of NfsServer.cpp: decode one call record, find the
    program, check the version, run the procedure and frame the reply.

    The C function decodes the call in place and writes the reply over the
    same shared buffer, starting at REPLY_OFFSET. Every byte the reply needs
    from the call is read before the first write, so the model decodes first
    and then builds the reply bytes. The one exception is a resolved GETATTR,
    which writes no result at all: its 32 result bytes are whatever the buffer
    already held at offsets 28 to 60, and the model passes them along.
 */
module Dispatcher {
  import opened Rpc
  import opened Common
  import opened RpcCall
  import opened NameHandles
  import opened Programs

  const SHARED_BUFFER_SIZE: nat := 8192
  /** Record mark (4) plus the 20 bytes of SetupReply. */
  const REPLY_OFFSET: nat := 24

  /** What HandleRpcCommand does with the connection: `Close` is a return of
      1; otherwise it returns 0 after sending `bytes`, or after sending
      nothing (`Silent`, a reply size of 0). */
  datatype Outcome = Close | Silent | Send(bytes: seq<Byte>)

  /* ---------------------------------------------------------------------
     Program lookup and version check
     --------------------------------------------------------------------- */

  /** Index of the first program at or after `from` with the given number. */
  function FindProgram(program: Uint32, from: nat): (i: nat)
    requires from <= |PROGRAMS|
    ensures from <= i <= |PROGRAMS|
    ensures i < |PROGRAMS| ==> PROGRAMS[i].program == program
    ensures forall k :: from <= k < i ==> PROGRAMS[k].program != program
    decreases |PROGRAMS| - from
  {
    if from == |PROGRAMS| then |PROGRAMS|
    else if PROGRAMS[from].program == program then from
    else FindProgram(program, from + 1)
  }

  /** The table's program numbers are distinct, so the first match is the only
      one, and exactly NFS, MOUNT and PORTMAP are served. */
  lemma ProgramTable(program: Uint32)
    ensures forall i, j :: 0 <= i < j < |PROGRAMS| ==> PROGRAMS[i].program != PROGRAMS[j].program
    ensures FindProgram(program, 0) < |PROGRAMS| <==>
      program in {RPC_PROGRAM_NFS, RPC_PROGRAM_MOUNT, RPC_PROGRAM_PORTMAP}
    ensures forall i :: 0 <= i < |PROGRAMS| ==> PROGRAMS[i].minVersion == PROGRAMS[i].maxVersion
  {
  }

  /** The version test as written: both comparisons are against minVersion. */
  predicate VersionRejected(p: RpcProgram, version: Uint32) {
    version < p.minVersion || version > p.minVersion
  }

  /** For every program of the table the test is the intended range check,
      since each supports exactly one version. */
  lemma VersionRejectedIsRangeCheck(i: nat, version: Uint32)
    requires i < |PROGRAMS|
    ensures VersionRejected(PROGRAMS[i], version) <==>
      !(PROGRAMS[i].minVersion <= version <= PROGRAMS[i].maxVersion)
  {
  }

  /** The program and version part of HandleRpcCommand, with the procedure's
      reply. */
  function Dispatch(t: HandleTable, h: CallHeader, args: seq<Byte>, stale: seq<Byte>): (r: (ProcReply, HandleTable))
    requires ValidTable(t) && |stale| == 32
    ensures ValidTable(r.1) && t <= r.1
    ensures r.0.Reply? ==> WellFormedPayload(r.0.payload)
    ensures FindProgram(h.program, 0) == |PROGRAMS| ==>
      r == (Reply(Accepted(RPC_REPLY_ACCEPT_STATUS_PROG_UNAVAIL, [])), t)
    ensures var i := FindProgram(h.program, 0);
      i < |PROGRAMS| && VersionRejected(PROGRAMS[i], h.programVersion) ==>
        r == (Reply(Accepted(RPC_REPLY_ACCEPT_STATUS_PROG_MISMATCH,
                             Words([PROGRAMS[i].minVersion, PROGRAMS[i].maxVersion]))), t)
    ensures var i := FindProgram(h.program, 0);
      i < |PROGRAMS| && !VersionRejected(PROGRAMS[i], h.programVersion) ==>
        r == HandleCall(PROGRAMS[i], t, h.procedure, args, stale)
  {
    var i := FindProgram(h.program, 0);
    if i == |PROGRAMS| then
      var r := (Reply(Accepted(RPC_REPLY_ACCEPT_STATUS_PROG_UNAVAIL, [])), t);
      assert WellFormedPayload(r.0.payload) by { AcceptStatusesDistinct(); }
      r
    else if VersionRejected(PROGRAMS[i], h.programVersion) then
      var r := (Reply(Accepted(RPC_REPLY_ACCEPT_STATUS_PROG_MISMATCH,
                               Words([PROGRAMS[i].minVersion, PROGRAMS[i].maxVersion]))), t);
      assert WellFormedPayload(r.0.payload) by { AcceptStatusesDistinct(); }
      r
    else HandleCall(PROGRAMS[i], t, h.procedure, args, stale)
  }

  /* ---------------------------------------------------------------------
     Reply framing
     --------------------------------------------------------------------- */

  /** The 20 bytes SetupReply lays down: xid, REPLY, ACCEPTED, a NULL
      verifier flavor and its zero length. */
  function ReplyHeader(xid: Uint32): (bytes: seq<Byte>)
    ensures |bytes| == 20
  {
    BigEndian(xid) + Words([RPC_MESSAGE_TYPE_REPLY, RPC_REPLY_ACCEPTED, RPC_AUTH_FLAVOR_NULL, 0])
  }

  /** SetupReply as the C code writes it, with native stores of the
      *_NETWORK_ORDER constants. On either byte order it lays down ReplyHeader
      and touches nothing past the 20th byte. */
  function SetupReply(host: Endianness, buffer: seq<Byte>, xid: Uint32): (written: seq<Byte>)
    requires |buffer| >= 20
    ensures |written| == |buffer|
    ensures written[..20] == ReplyHeader(xid)
    ensures written[20..] == buffer[20..]
  {
    SetupReplyLayout(host, buffer, xid);
    ReplyStores(host, buffer, xid)
  }

  /** The five stores SetupReply makes, in order. */
  function ReplyStores(host: Endianness, buffer: seq<Byte>, xid: Uint32): seq<Byte>
    requires |buffer| >= 20
  {
    var b0 := AppendUint(buffer, 0, xid);
    var b1 := SetUint(host, b0, 4, NetworkOrder(host, RPC_MESSAGE_TYPE_REPLY));
    var b2 := SetUint(host, b1, 8, NetworkOrder(host, RPC_REPLY_ACCEPTED));
    var b3 := SetUint(host, b2, 12, NetworkOrder(host, RPC_AUTH_FLAVOR_NULL));
    SetUint(host, b3, 16, 0)
  }

  lemma SetupReplyLayout(host: Endianness, buffer: seq<Byte>, xid: Uint32)
    requires |buffer| >= 20
    ensures |ReplyStores(host, buffer, xid)| == |buffer|
    ensures ReplyStores(host, buffer, xid)[..20] == ReplyHeader(xid)
    ensures ReplyStores(host, buffer, xid)[20..] == buffer[20..]
  {
    assert NetworkOrder(host, 0) == 0 by {
      assert NativeBytes(host, 0) == [0, 0, 0, 0] == BigEndian(0);
      if host.LittleEndian? {
        AppendAfterParse([0, 0, 0, 0]);
      }
    }
    var b0 := AppendUint(buffer, 0, xid);
    StoreExtends(buffer, 0, xid, []);
    SetUintNetworkOrderIsAppendUint(host, b0, 4, RPC_MESSAGE_TYPE_REPLY);
    var b1 := AppendUint(b0, 4, RPC_MESSAGE_TYPE_REPLY);
    StoreExtends(b0, 4, RPC_MESSAGE_TYPE_REPLY, BigEndian(xid));
    SetUintNetworkOrderIsAppendUint(host, b1, 8, RPC_REPLY_ACCEPTED);
    var b2 := AppendUint(b1, 8, RPC_REPLY_ACCEPTED);
    StoreExtends(b1, 8, RPC_REPLY_ACCEPTED, b1[..8]);
    SetUintNetworkOrderIsAppendUint(host, b2, 12, RPC_AUTH_FLAVOR_NULL);
    var b3 := AppendUint(b2, 12, RPC_AUTH_FLAVOR_NULL);
    StoreExtends(b2, 12, RPC_AUTH_FLAVOR_NULL, b2[..12]);
    SetUintNetworkOrderIsAppendUint(host, b3, 16, 0);
    var written := AppendUint(b3, 16, 0);
    StoreExtends(b3, 16, 0, b3[..16]);
    assert written == ReplyStores(host, buffer, xid);
    assert written[..20] == BigEndian(xid) + BigEndian(RPC_MESSAGE_TYPE_REPLY) + BigEndian(RPC_REPLY_ACCEPTED)
      + BigEndian(RPC_AUTH_FLAVOR_NULL) + BigEndian(0);
    FourWords(RPC_MESSAGE_TYPE_REPLY, RPC_REPLY_ACCEPTED, RPC_AUTH_FLAVOR_NULL, 0);
  }

  lemma FourWords(a: Uint32, b: Uint32, c: Uint32, d: Uint32)
    ensures Words([a, b, c, d]) == BigEndian(a) + BigEndian(b) + BigEndian(c) + BigEndian(d)
  {
    assert [a, b, c, d][1..] == [b, c, d];
    assert [b, c, d][1..] == [c, d];
    assert [c, d][1..] == [d];
    assert [d][1..] == [];
    assert Words([d]) == BigEndian(d);
    assert Words([c, d]) == BigEndian(c) + BigEndian(d);
    assert Words([b, c, d]) == BigEndian(b) + BigEndian(c) + BigEndian(d);
  }

  /** A store right after a known prefix extends that prefix by the word and
      leaves what follows it alone. */
  lemma StoreExtends(buffer: seq<Byte>, at: nat, value: Uint32, prefix: seq<Byte>)
    requires at + 4 <= |buffer| && buffer[..at] == prefix
    ensures AppendUint(buffer, at, value)[..at + 4] == prefix + BigEndian(value)
    ensures AppendUint(buffer, at, value)[at + 4..] == buffer[at + 4..]
  {
    var written := AppendUint(buffer, at, value);
    assert written[..at + 4] == written[..at] + written[at..at + 4];
    assert written[..at] == buffer[..at];
    assert written[at + 4..] == buffer[at + 4..];
  }

  /** The bytes sent for a reply: record mark, SetupReply's header, payload. */
  function Frame(xid: Uint32, payload: seq<Byte>): (bytes: seq<Byte>)
    requires |payload| <= 60
    ensures |bytes| == REPLY_OFFSET + |payload|
  {
    BigEndian(RecordMark(REPLY_OFFSET - 4 + |payload|)) + ReplyHeader(xid) + payload
  }

  /** What a client reads back from a frame: a last fragment whose length is
      the rest of the bytes, the echoed xid, an accepted reply with a NULL
      verifier, and the payload. */
  lemma FrameFields(xid: Uint32, payload: seq<Byte>)
    requires |payload| <= 60
    ensures var bytes := Frame(xid, payload);
      && ParseUint(bytes[..4]) / RPC_LAST_FRAGMENT_FLAG == 1
      && ParseUint(bytes[..4]) % RPC_LAST_FRAGMENT_FLAG == |bytes| - 4
      && ParseUint(bytes[4..8]) == xid
      && ParseUint(bytes[8..12]) == RPC_MESSAGE_TYPE_REPLY
      && ParseUint(bytes[12..16]) == RPC_REPLY_ACCEPTED
      && ParseUint(bytes[16..20]) == RPC_AUTH_FLAVOR_NULL
      && ParseUint(bytes[20..24]) == 0
      && bytes[REPLY_OFFSET..] == payload
  {
    var bytes := Frame(xid, payload);
    var header := ReplyHeader(xid);
    var words := [RPC_MESSAGE_TYPE_REPLY, RPC_REPLY_ACCEPTED, RPC_AUTH_FLAVOR_NULL, 0];
    ParseAfterAppend(RecordMark(REPLY_OFFSET - 4 + |payload|));
    ParseAfterAppend(xid);
    assert bytes[..4] == BigEndian(RecordMark(REPLY_OFFSET - 4 + |payload|));
    assert bytes[4..8] == header[0..4] == BigEndian(xid);
    WordsParse(words, 0);
    WordsParse(words, 1);
    WordsParse(words, 2);
    WordsParse(words, 3);
    assert bytes[8..12] == Words(words)[0..4];
    assert bytes[12..16] == Words(words)[4..8];
    assert bytes[16..20] == Words(words)[8..12];
    assert bytes[20..24] == Words(words)[12..16];
  }

  /* ---------------------------------------------------------------------
     HandleRpcCommand
     --------------------------------------------------------------------- */

  /** The outcome for a decoded call and its procedure's reply. */
  function Respond(m: CallMessage, reply: ProcReply): (o: Outcome)
    requires reply.Reply? ==> |reply.payload| <= 60
    ensures o != Close
    ensures o == Silent <==> reply.NoReply?
  {
    match reply
    case NoReply => Silent
    case Reply(payload) => Send(Frame(m.header.xid, payload))
  }

  /** HandleRpcCommand over the shared buffer after a recv of `size` bytes:
      the record mark is shared[..4] and the call is shared[4..size]. The
      connection is closed exactly when the call does not decode; a reply
      echoes the call's xid and its record mark covers the rest of it. */
  function HandleRpcCommand(t: HandleTable, shared: seq<Byte>, size: nat): (r: (Outcome, HandleTable))
    requires ValidTable(t) && |shared| == SHARED_BUFFER_SIZE && size <= SHARED_BUFFER_SIZE
    ensures ValidTable(r.1) && t <= r.1
    ensures r.0 != Close <==> size >= 12 && ParseCall(shared[4..size]).Some?
    ensures r.0 == Close || r.0 == Silent ==> r.1 == t
    ensures r.0.Send? ==>
      && REPLY_OFFSET + 4 <= |r.0.bytes| <= REPLY_OFFSET + 60
      && ParseUint(r.0.bytes[..4]) == RPC_LAST_FRAGMENT_FLAG + (|r.0.bytes| - 4)
      && r.0.bytes[4..8] == shared[4..8]
  {
    if size < 12 then (Close, t)
    else
      match ParseCall(shared[4..size])
      case None => (Close, t)
      case Some(m) =>
        var (reply, t1) := Dispatch(t, m.header, m.args, shared[28..60]);
        var o := Respond(m, reply);
        RespondFields(shared, size, m, reply);
        (o, t1)
  }

  lemma RespondFields(shared: seq<Byte>, size: nat, m: CallMessage, reply: ProcReply)
    requires 12 <= size <= |shared| && ParseCall(shared[4..size]) == Some(m)
    requires reply.Reply? ==> 4 <= |reply.payload| <= 60
    ensures var o := Respond(m, reply);
      o.Send? ==>
        && REPLY_OFFSET + 4 <= |o.bytes| <= REPLY_OFFSET + 60
        && ParseUint(o.bytes[..4]) == RPC_LAST_FRAGMENT_FLAG + (|o.bytes| - 4)
        && o.bytes[4..8] == shared[4..8]
  {
    if reply.Reply? {
      var bytes := Frame(m.header.xid, reply.payload);
      FrameFields(m.header.xid, reply.payload);
      AppendAfterParse(shared[4..8]);
      assert shared[4..size][0..4] == shared[4..8];
      assert bytes[4..8] == BigEndian(m.header.xid);
    }
  }

  /* ---------------------------------------------------------------------
     Calls as clients send them
     --------------------------------------------------------------------- */

  /** A record holding an encoded call is answered as its header and
      arguments direct when the call is well formed, and closes the
      connection otherwise (a wrong rpc version, an auth body over 400 bytes). */
  lemma EncodedCallOutcome(t: HandleTable, shared: seq<Byte>, m: CallMessage)
    requires ValidTable(t) && |shared| == SHARED_BUFFER_SIZE && Encodable(m)
    requires 4 + |EncodeCall(m)| <= SHARED_BUFFER_SIZE
    requires shared[4..4 + |EncodeCall(m)|] == EncodeCall(m)
    ensures var r := HandleRpcCommand(t, shared, 4 + |EncodeCall(m)|);
      var d := Dispatch(t, m.header, m.args, shared[28..60]);
      && (!WellFormed(m) ==> r == (Close, t))
      && (WellFormed(m) ==> r == (Respond(m, d.0), d.1))
  {
    if WellFormed(m) {
      ParseEncodeCall(m);
    } else {
      EncodedCallRefused(m);
    }
  }

  /** The header of a call as the test client builds it: rpc version 2 and
      NULL credential and verifier of length 0. */
  function TestHeader(xid: Uint32, program: Uint32, version: Uint32, procedure: Uint32): (h: CallHeader)
    ensures WellFormed(CallMessage(h, []))
  {
    CallHeader(xid, RPC_VERSION, program, version, procedure, RPC_AUTH_FLAVOR_NULL, [], RPC_AUTH_FLAVOR_NULL, [])
  }

  /** The test client stores its raw program, version and procedure numbers
      (0x819A, 0xF12, 0x4289, 0x9184, 0x4F20) with SET_UINT, a native store,
      so on a little-endian host the server parses them byte-swapped. */
  lemma TestLiteralsAsParsed()
    ensures ParseUint(NativeBytes(LittleEndian, 0x819A)) == 0x9A81_0000
    ensures ParseUint(NativeBytes(LittleEndian, 0xF12)) == 0x120F_0000
    ensures ParseUint(NativeBytes(LittleEndian, 0x4289)) == 0x8942_0000
    ensures ParseUint(NativeBytes(LittleEndian, 0x9184)) == 0x8491_0000
    ensures ParseUint(NativeBytes(LittleEndian, 0x4F20)) == 0x204F_0000
  {
  }

  /** The replies the test client expects: NULL in every program, an
      unknown program, version mismatches for PORTMAP and NFS, unknown
      procedures, and FSINFO on a handle that was never handed out. The
      program, version and procedure numbers are the words the server
      parses from the test client's native stores (TestLiteralsAsParsed);
      the FSINFO argument words go through AppendUint and arrive as written. */
  lemma TestClientExpectations(t: HandleTable, xid: Uint32, stale: seq<Byte>)
    requires ValidTable(t) && |stale| == 32
    ensures Dispatch(t, TestHeader(xid, RPC_PROGRAM_PORTMAP, 2, PROC_NULL), [], stale)
      == (Reply(Words([RPC_REPLY_ACCEPT_STATUS_SUCCESS])), t)
    ensures Dispatch(t, TestHeader(xid, RPC_PROGRAM_MOUNT, 3, PROC_NULL), [], stale)
      == (Reply(Words([RPC_REPLY_ACCEPT_STATUS_SUCCESS])), t)
    ensures Dispatch(t, TestHeader(xid, RPC_PROGRAM_NFS, 3, PROC_NULL), [], stale)
      == (Reply(Words([RPC_REPLY_ACCEPT_STATUS_SUCCESS])), t)
    ensures Dispatch(t, TestHeader(xid, 0x9A81_0000, 0, 0), [], stale)
      == (Reply(Words([RPC_REPLY_ACCEPT_STATUS_PROG_UNAVAIL])), t)
    ensures Dispatch(t, TestHeader(xid, RPC_PROGRAM_PORTMAP, 0x120F_0000, PROC_NULL), [], stale)
      == (Reply(Words([RPC_REPLY_ACCEPT_STATUS_PROG_MISMATCH, 2, 2])), t)
    ensures Dispatch(t, TestHeader(xid, RPC_PROGRAM_NFS, 0x8942_0000, PROC_NULL), [], stale)
      == (Reply(Words([RPC_REPLY_ACCEPT_STATUS_PROG_MISMATCH, 3, 3])), t)
    ensures Dispatch(t, TestHeader(xid, RPC_PROGRAM_PORTMAP, 2, 0x8491_0000), [], stale)
      == (Reply(Words([RPC_REPLY_ACCEPT_STATUS_PROC_UNAVAIL])), t)
    ensures Dispatch(t, TestHeader(xid, RPC_PROGRAM_NFS, 3, 0x204F_0000), [], stale)
      == (Reply(Words([RPC_REPLY_ACCEPT_STATUS_PROC_UNAVAIL])), t)
    ensures Dispatch(t, TestHeader(xid, RPC_PROGRAM_NFS, 3, NFS3_PROC_FSINFO), Words([4, 0x8439_8184]), stale)
      == (Reply(Words([RPC_REPLY_ACCEPT_STATUS_SUCCESS, NFS3_ERROR_BADHANDLE, 0])), t)
  {
    ValidTableFitsArray(t);
    var handle := Words([4, 0x8439_8184]);
    WordsParse([4, 0x8439_8184], 0);
    WordsParse([4, 0x8439_8184], 1);
    assert handle[..4] == handle[0..4];
    assert handle[4..][..4] == handle[4..8];
    assert Words([RPC_REPLY_ACCEPT_STATUS_SUCCESS, NFS3_ERROR_BADHANDLE, 0])
      == BigEndian(RPC_REPLY_ACCEPT_STATUS_SUCCESS) + Words(BAD_HANDLE_RESULT);
  }

  /** A handle is bad before anything is mounted. */
  lemma GetattrBeforeMount(xid: Uint32, stale: seq<Byte>)
    requires |stale| == 32
    ensures Dispatch([], TestHeader(xid, RPC_PROGRAM_NFS, 3, NFS3_PROC_GETATTR), EncodeOpaque(BigEndian(0), []), stale)
      == (Reply(Accepted(RPC_REPLY_ACCEPT_STATUS_SUCCESS, Words(BAD_HANDLE_RESULT))), [])
  {
    OpaqueArgRoundTrip(BigEndian(0), []);
  }

  /** MNT of "/share" on the fresh table hands out handle 0, and GETATTR on
      that handle then succeeds. */
  lemma MountThenGetattr(xid: Uint32, pad: seq<Byte>, stale: seq<Byte>)
    requires |pad| == 2 && |stale| == 32
    ensures var (mounted, t1) := Dispatch([], TestHeader(xid, RPC_PROGRAM_MOUNT, 3, MOUNT3_PROC_MNT),
                                          EncodeOpaque(SHARE_PATH, pad), stale);
      && mounted == Reply(Words([RPC_REPLY_ACCEPT_STATUS_SUCCESS, MOUNT3_STATUS_OK, 4, 0, RPC_AUTH_FLAVOR_NULL]))
      && Dispatch(t1, TestHeader(xid, RPC_PROGRAM_NFS, 3, NFS3_PROC_GETATTR), EncodeOpaque(BigEndian(0), []), stale)
         == (Reply(Accepted(RPC_REPLY_ACCEPT_STATUS_SUCCESS, stale)), t1)
  {
    MountShare(xid, pad, stale);
    var t1 := Dispatch([], TestHeader(xid, RPC_PROGRAM_MOUNT, 3, MOUNT3_PROC_MNT), EncodeOpaque(SHARE_PATH, pad), stale).1;
    GetattrHandleZero(t1, xid, stale);
  }

  /** Once anything is mounted, GETATTR on handle 0 succeeds and reports
      the stale buffer bytes. */
  lemma GetattrHandleZero(t: HandleTable, xid: Uint32, stale: seq<Byte>)
    requires ValidTable(t) && |t| >= 1 && |stale| == 32
    ensures Dispatch(t, TestHeader(xid, RPC_PROGRAM_NFS, 3, NFS3_PROC_GETATTR), EncodeOpaque(BigEndian(0), []), stale)
      == (Reply(Accepted(RPC_REPLY_ACCEPT_STATUS_SUCCESS, stale)), t)
  {
    OpaqueArgRoundTrip(BigEndian(0), []);
    var handle := OpaqueArg(EncodeOpaque(BigEndian(0), [])).value;
    assert Content(handle) == BigEndian(0) == handle.ptr.value[..4];
    ParseAfterAppend(0);
  }

  lemma MountShare(xid: Uint32, pad: seq<Byte>, stale: seq<Byte>)
    requires |pad| == 2 && |stale| == 32
    ensures var (mounted, t1) := Dispatch([], TestHeader(xid, RPC_PROGRAM_MOUNT, 3, MOUNT3_PROC_MNT),
                                          EncodeOpaque(SHARE_PATH, pad), stale);
      && mounted == Reply(Words([RPC_REPLY_ACCEPT_STATUS_SUCCESS, MOUNT3_STATUS_OK, 4, 0, RPC_AUTH_FLAVOR_NULL]))
      && |t1| == 1 && Content(t1[0].localName) == C_DRIVE
  {
    OpaqueArgRoundTrip(SHARE_PATH, pad);
    var path := OpaqueArg(EncodeOpaque(SHARE_PATH, pad)).value;
    assert Equals(path, EXPORTS[0].exportName);
  }
}
