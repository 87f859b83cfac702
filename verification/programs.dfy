/** The three RPC programs of NfsServer.cpp (Portmap, Mount, Nfs), their
    procedure handlers and the static program table.

    A handler's reply is the byte sequence it leaves at REPLY_OFFSET of the
    shared buffer, starting with the accept status; its length is the
    `replySize` the C handler returns. `NoReply` is a return value of 0: the
    argument did not have the expected shape and nothing is sent.
 */
module Programs {
  import opened Rpc
  import opened Common
  import opened NameHandles

  /* Procedure numbers and NFS status codes (RFC 1813); none of them is
     defined in the modelled headers. */
  const MOUNT3_PROC_MNT: Uint32 := 1
  const NFS3_PROC_GETATTR: Uint32 := 1
  const NFS3_PROC_FSINFO: Uint32 := 19
  const NFS3_PROC_PATHCONF: Uint32 := 20

  const NFS3_STATUS_OK: Uint32 := 0
  /** NFS3ERR_BADHANDLE, section 2.6 of RFC 1813. */
  const NFS3_ERROR_BADHANDLE: Uint32 := 10001

  /** Windows' MAX_PATH, reported as name_max by PATHCONF. */
  const MAX_PATH: Uint32 := 260

  /** The port every GETPORT call is answered with. */
  const GETPORT_PORT: Uint32 := 111

  /** FSINFO3resok as FSINFO writes it: status OK, no post_op_attr, rtmax,
      rtpref, rtmult, wtmax, wtpref, wtmult, dtpref, maxfilesize (high, low),
      time_delta (seconds, nanoseconds) and properties. */
  const FSINFO_RESULT: seq<Uint32> := [
    NFS3_STATUS_OK, 0, 0xFFFF_FFFF, 0xFFFF_FFFF, 0, 0xFFFF_FFFF, 0xFFFF_FFFF, 0,
    0xFFFF_FFFF, 0xFFFF_FFFF, 0xFFFF_FFFF, 0, 1_000_000, 0]

  /** PATHCONF3resok as PATHCONF writes it: status OK, no post_op_attr,
      linkmax, name_max, no_trunc, chown_restricted, case_insensitive,
      case_preserving. */
  const PATHCONF_RESULT: seq<Uint32> := [NFS3_STATUS_OK, 0, 0xFFFF_FFFF, MAX_PATH, 1, 0, 1, 0]

  /** The bytes a bad handle leaves after the accept status: BADHANDLE and an
      absent post_op_attr. */
  const BAD_HANDLE_RESULT: seq<Uint32> := [NFS3_ERROR_BADHANDLE, 0]

  /** What a procedure handler leaves for HandleRpcCommand. */
  datatype ProcReply = NoReply | Reply(payload: seq<Byte>)

  /** A reply the dispatcher can frame: whole words, at least the accept
      status, at most the 60 bytes of FSINFO, and led by an accept status. */
  predicate WellFormedPayload(payload: seq<Byte>) {
    && 4 <= |payload| <= 60 && |payload| % 4 == 0
    && ParseUint(payload[..4]) in ACCEPT_STATUSES
  }

  /* ---------------------------------------------------------------------
     Argument shape
     --------------------------------------------------------------------- */

  /** Align4 in 32-bit arithmetic: `mod ? x + 4 - mod : x`, wrapping to 0 for
      the three largest lengths. */
  function Align4(x: Uint32): (r: Uint32)
    ensures r % 4 == 0
    ensures x <= 0xFFFF_FFFC ==> x <= r < x + 4
    ensures x > 0xFFFF_FFFC ==> r == 0
  {
    var mod := x % 4;
    if mod != 0 then (x + 4 - mod) % TWO_32 else x
  }

  /** The single opaque argument MNT, GETATTR, FSINFO and PATHCONF take: a
      length word and the data behind it. The handlers accept it only when
      the aligned length reaches the record's end exactly. */
  function OpaqueArg(args: seq<Byte>): (s: Option<String>)
    ensures |args| < 4 ==> s.None?
    ensures s.Some? ==> |args| >= 4 && s.value.length == ParseUint(args[..4]) && s.value.ptr == Some(args[4..])
    ensures s.Some? && s.value.length <= 0xFFFF_FFFC ==>
      Readable(s.value) && s.value.length <= |args| - 4 < s.value.length + 4
    ensures s.Some? && s.value.length > 0xFFFF_FFFC ==> |args| == 4
  {
    if |args| < 4 then None
    else
      var length := ParseUint(args[..4]);
      if Align4(length) != |args| - 4 then None
      else Some(String(Some(args[4..]), length))
  }

  /** An XDR opaque<> as a client sends it: length, data, padding. */
  function EncodeOpaque(data: seq<Byte>, pad: seq<Byte>): (bytes: seq<Byte>)
    requires |data| < TWO_32
    ensures |bytes| == 4 + |data| + |pad|
  {
    BigEndian(|data|) + data + pad
  }

  /** Every opaque argument with padding to the next multiple of four passes
      the shape check and denotes its data. */
  lemma OpaqueArgRoundTrip(data: seq<Byte>, pad: seq<Byte>)
    requires |data| <= 0xFFFF_FFFC && |data| + |pad| == Align4(|data|)
    ensures var s := OpaqueArg(EncodeOpaque(data, pad));
      s.Some? && s.value.length == |data| && Content(s.value) == data
  {
    var bytes := EncodeOpaque(data, pad);
    assert bytes[..4] == BigEndian(|data|);
    ParseAfterAppend(|data|);
    assert bytes[4..][..|data|] == data;
  }

  /** Conversely, an accepted argument of a representable length is exactly
      such an encoding: length word, data, and fewer than four padding bytes. */
  lemma OpaqueArgIsEncoding(args: seq<Byte>)
    requires OpaqueArg(args).Some? && OpaqueArg(args).value.length <= 0xFFFF_FFFC
    ensures var s := OpaqueArg(args).value;
      var pad := args[4 + s.length..];
      |pad| < 4 && args == EncodeOpaque(Content(s), pad)
  {
    var s := OpaqueArg(args).value;
    AppendAfterParse(args[..4]);
    assert args == args[..4] + args[4..4 + s.length] + args[4 + s.length..];
    if s.length > 0 {
      assert Content(s) == args[4..][..s.length] == args[4..4 + s.length];
    }
  }

  /** A length word of 0xFFFFFFFD or more aligns to 0, so it is accepted with
      no data at all; the string it yields can be compared (its length matches
      no export name) but not read. */
  lemma OpaqueArgWrappedLength(length: Uint32)
    requires length > 0xFFFF_FFFC
    ensures var s := OpaqueArg(BigEndian(length));
      s.Some? && s.value.length == length && !Readable(s.value)
      && forall k :: 0 <= k < |EXPORTS| ==> !Equals(s.value, EXPORTS[k].exportName)
  {
    ParseAfterAppend(length);
    assert BigEndian(length)[..4] == BigEndian(length);
  }

  /* ---------------------------------------------------------------------
     Procedure handlers
     --------------------------------------------------------------------- */

  /** Procedures whose argument goes through the shape check. */
  predicate TakesArgument(kind: ProgramKind, procedure: Uint32) {
    match kind
    case PortmapKind => false
    case MountKind => procedure == MOUNT3_PROC_MNT
    case NfsKind => procedure in {NFS3_PROC_GETATTR, NFS3_PROC_FSINFO, NFS3_PROC_PATHCONF}
  }

  /** Procedures a program implements; every other one is PROC_UNAVAIL. */
  predicate Implements(kind: ProgramKind, procedure: Uint32) {
    procedure == PROC_NULL || TakesArgument(kind, procedure)
    || (kind == PortmapKind && procedure == PORTMAP_PROC_GETPORT)
  }

  /** Reply bytes: the accept status word followed by the procedure's result. */
  function Accepted(status: Uint32, result: seq<Byte>): (payload: seq<Byte>)
    ensures |payload| == 4 + |result|
    ensures ParseUint(payload[..4]) == status && payload[4..] == result
  {
    ParseAfterAppend(status);
    var payload := BigEndian(status) + result;
    assert payload[..4] == BigEndian(status);
    payload
  }

  /** The contract every procedure handler keeps: silent exactly when a
      shape-checked argument is malformed, otherwise a framable reply whose
      status is PROC_UNAVAIL exactly for the procedures the program lacks. */
  predicate HandlerReply(kind: ProgramKind, procedure: Uint32, args: seq<Byte>, r: ProcReply) {
    && (r.NoReply? <==> TakesArgument(kind, procedure) && OpaqueArg(args).None?)
    && (r.Reply? ==> WellFormedPayload(r.payload))
    && (r.Reply? ==>
         (ParseUint(r.payload[..4]) == RPC_REPLY_ACCEPT_STATUS_PROC_UNAVAIL <==> !Implements(kind, procedure)))
  }

  /** PortmapProgram::HandleCall. GETPORT answers port 111 whatever the call asks for. */
  function PortmapCall(procedure: Uint32): (r: ProcReply)
    ensures HandlerReply(PortmapKind, procedure, [], r)
    ensures procedure == PROC_NULL ==> r == Reply(Words([RPC_REPLY_ACCEPT_STATUS_SUCCESS]))
    ensures procedure == PORTMAP_PROC_GETPORT ==> r == Reply(Words([RPC_REPLY_ACCEPT_STATUS_SUCCESS, GETPORT_PORT]))
    ensures !Implements(PortmapKind, procedure) ==> r == Reply(Words([RPC_REPLY_ACCEPT_STATUS_PROC_UNAVAIL]))
  {
    if procedure == PROC_NULL then Reply(Accepted(RPC_REPLY_ACCEPT_STATUS_SUCCESS, []))
    else if procedure == PORTMAP_PROC_GETPORT then
      Reply(Accepted(RPC_REPLY_ACCEPT_STATUS_SUCCESS, BigEndian(GETPORT_PORT)))
    else Reply(Accepted(RPC_REPLY_ACCEPT_STATUS_PROC_UNAVAIL, []))
  }

  /** MountProgram::HandleCall. Only MNT can add a handle. */
  function MountCall(t: HandleTable, procedure: Uint32, args: seq<Byte>): (r: (ProcReply, HandleTable))
    requires ValidTable(t)
    ensures ValidTable(r.1) && t <= r.1
    ensures r.1 != t ==> procedure == MOUNT3_PROC_MNT && r.0.Reply?
    ensures HandlerReply(MountKind, procedure, args, r.0)
    ensures procedure == PROC_NULL ==> r == (Reply(Words([RPC_REPLY_ACCEPT_STATUS_SUCCESS])), t)
    ensures procedure == MOUNT3_PROC_MNT && OpaqueArg(args).Some? ==>
      var m := MNT(t, OpaqueArg(args).value);
      r == (Reply(Words([RPC_REPLY_ACCEPT_STATUS_SUCCESS] + m.0)), m.1)
    ensures !Implements(MountKind, procedure) ==> r == (Reply(Words([RPC_REPLY_ACCEPT_STATUS_PROC_UNAVAIL])), t)
  {
    if procedure == PROC_NULL then (Reply(Accepted(RPC_REPLY_ACCEPT_STATUS_SUCCESS, [])), t)
    else if procedure == MOUNT3_PROC_MNT then
      match OpaqueArg(args)
      case None => (NoReply, t)
      case Some(path) =>
        var (status, t1) := MNT(t, path);
        (Reply(Accepted(RPC_REPLY_ACCEPT_STATUS_SUCCESS, Words(status))), t1)
    else (Reply(Accepted(RPC_REPLY_ACCEPT_STATUS_PROC_UNAVAIL, [])), t)
  }

  /** GETATTR, FSINFO and PATHCONF after the shape check. A handle that does
      not resolve gives BADHANDLE. A resolved GETATTR writes nothing and
      reports 32 bytes, so its result is whatever the shared buffer held
      behind the accept status (`stale`). */
  function NfsHandleProcedure(t: HandleTable, procedure: Uint32, handle: String, stale: seq<Byte>): (result: seq<Byte>)
    requires ValidTable(t) && |stale| == 32
    requires handle.length == 4 ==> Readable(handle)
    requires procedure in {NFS3_PROC_GETATTR, NFS3_PROC_FSINFO, NFS3_PROC_PATHCONF}
    ensures |result| == 8 || |result| == 32 || |result| == 56
    ensures handle.length != 4 || ParseUint(handle.ptr.value) >= |t| ==> result == Words(BAD_HANDLE_RESULT)
    ensures handle.length == 4 && ParseUint(handle.ptr.value) < |t| ==>
      if procedure == NFS3_PROC_GETATTR then result == stale
      else ParseUint(result[..4]) == NFS3_STATUS_OK && |result| == (if procedure == NFS3_PROC_FSINFO then 56 else 32)
    ensures handle.length == 4 && ParseUint(handle.ptr.value) < |t| && procedure == NFS3_PROC_FSINFO ==>
      result == Words(FSINFO_RESULT)
    ensures handle.length == 4 && ParseUint(handle.ptr.value) < |t| && procedure == NFS3_PROC_PATHCONF ==>
      result == Words(PATHCONF_RESULT)
  {
    var name := TryLookupHandle(t, if handle.length == 4 then handle.ptr.value else [], handle.length);
    if name.ptr.None? then Words(BAD_HANDLE_RESULT)
    else if procedure == NFS3_PROC_GETATTR then stale
    else if procedure == NFS3_PROC_FSINFO then Words(FSINFO_RESULT)
    else Words(PATHCONF_RESULT)
  }

  /** NfsProgram::HandleCall. */
  function NfsCall(t: HandleTable, procedure: Uint32, args: seq<Byte>, stale: seq<Byte>): (r: ProcReply)
    requires ValidTable(t) && |stale| == 32
    ensures HandlerReply(NfsKind, procedure, args, r)
    ensures procedure == PROC_NULL ==> r == Reply(Words([RPC_REPLY_ACCEPT_STATUS_SUCCESS]))
    ensures TakesArgument(NfsKind, procedure) && OpaqueArg(args).Some? ==>
      r == Reply(Accepted(RPC_REPLY_ACCEPT_STATUS_SUCCESS, NfsHandleProcedure(t, procedure, OpaqueArg(args).value, stale)))
    ensures !Implements(NfsKind, procedure) ==> r == Reply(Words([RPC_REPLY_ACCEPT_STATUS_PROC_UNAVAIL]))
  {
    if procedure == PROC_NULL then Reply(Accepted(RPC_REPLY_ACCEPT_STATUS_SUCCESS, []))
    else if procedure in {NFS3_PROC_GETATTR, NFS3_PROC_FSINFO, NFS3_PROC_PATHCONF} then
      NfsHandleCall(t, procedure, args, stale)
    else Reply(Accepted(RPC_REPLY_ACCEPT_STATUS_PROC_UNAVAIL, []))
  }

  /** The shape check, then the procedure, for the handle-taking procedures. */
  function NfsHandleCall(t: HandleTable, procedure: Uint32, args: seq<Byte>, stale: seq<Byte>): (r: ProcReply)
    requires ValidTable(t) && |stale| == 32
    requires procedure in {NFS3_PROC_GETATTR, NFS3_PROC_FSINFO, NFS3_PROC_PATHCONF}
    ensures HandlerReply(NfsKind, procedure, args, r)
    ensures OpaqueArg(args).Some? ==>
      r == Reply(Accepted(RPC_REPLY_ACCEPT_STATUS_SUCCESS, NfsHandleProcedure(t, procedure, OpaqueArg(args).value, stale)))
  {
    match OpaqueArg(args)
    case None => NoReply
    case Some(handle) =>
      var result := NfsHandleProcedure(t, procedure, handle, stale);
      var payload := Accepted(RPC_REPLY_ACCEPT_STATUS_SUCCESS, result);
      assert WellFormedPayload(payload);
      Reply(payload)
  }

  /* ---------------------------------------------------------------------
     What a client reads back
     --------------------------------------------------------------------- */

  /** A client decoding an MNT reply reads SUCCESS and then either NOENT, or
      OK with a four-byte handle that resolves, in the table the call left,
      to the exported directory. */
  lemma MountReplyHandleResolves(t: HandleTable, args: seq<Byte>)
    requires ValidTable(t) && OpaqueArg(args).Some?
    ensures var (r, t1) := MountCall(t, MOUNT3_PROC_MNT, args);
      && r.Reply? && (|r.payload| == 8 || |r.payload| == 20)
      && ParseUint(r.payload[..4]) == RPC_REPLY_ACCEPT_STATUS_SUCCESS
      && (|r.payload| == 8 ==> ParseUint(r.payload[4..8]) == MOUNT3_ERROR_NOENT && t1 == t)
      && (|r.payload| == 20 ==>
           && ParseUint(r.payload[4..8]) == MOUNT3_STATUS_OK
           && ParseUint(r.payload[8..12]) == 4
           && var name := TryLookupHandle(t1, r.payload[12..16], 4);
              name.ptr.Some? && Content(name) == Content(EXPORTS[0].localName))
  {
    var (r, t1) := MountCall(t, MOUNT3_PROC_MNT, args);
    var m := MNT(t, OpaqueArg(args).value);
    var words := [RPC_REPLY_ACCEPT_STATUS_SUCCESS] + m.0;
    WordsParse(words, 0);
    WordsParse(words, 1);
    if |m.0| == 4 {
      WordsParse(words, 2);
      WordsParse(words, 3);
      MountedHandleResolves(t, OpaqueArg(args).value);
    }
  }

  /** A handle argument resolves when it is four bytes long and its value
      indexes the table. */
  predicate Resolves(t: HandleTable, handle: String) {
    handle.length == 4 && Readable(handle) && ParseUint(handle.ptr.value) < |t|
  }

  /** An NFS reply depends on the handle only through whether it resolves:
      every resolved handle gets the same answer, and so does every handle
      that does not. */
  lemma NfsReplyDependsOnlyOnResolution(t: HandleTable, procedure: Uint32, a: seq<Byte>, b: seq<Byte>, stale: seq<Byte>)
    requires ValidTable(t) && |stale| == 32
    requires OpaqueArg(a).Some? && OpaqueArg(b).Some?
    requires Resolves(t, OpaqueArg(a).value) == Resolves(t, OpaqueArg(b).value)
    ensures NfsCall(t, procedure, a, stale) == NfsCall(t, procedure, b, stale)
  {
  }

  /* ---------------------------------------------------------------------
     The program table
     --------------------------------------------------------------------- */

  datatype ProgramKind = PortmapKind | MountKind | NfsKind

  datatype RpcProgram = RpcProgram(
    name: string, program: Uint32, minVersion: Uint32, maxVersion: Uint32, kind: ProgramKind)

  /** `Programs[]`, searched in this order. */
  const PROGRAMS: seq<RpcProgram> := [
    RpcProgram("Nfs", RPC_PROGRAM_NFS, 3, 3, NfsKind),
    RpcProgram("Mount", RPC_PROGRAM_MOUNT, 3, 3, MountKind),
    RpcProgram("PortMap", RPC_PROGRAM_PORTMAP, 2, 2, PortmapKind)]

  /** RpcProgram::HandleCall, dispatched on the program. `stale` is the 32
      bytes of the shared buffer behind the accept status. */
  function HandleCall(p: RpcProgram, t: HandleTable, procedure: Uint32, args: seq<Byte>, stale: seq<Byte>): (r: (ProcReply, HandleTable))
    requires ValidTable(t) && |stale| == 32
    ensures ValidTable(r.1) && t <= r.1
    ensures r.1 != t ==> p.kind == MountKind && procedure == MOUNT3_PROC_MNT && r.0.Reply?
    ensures HandlerReply(p.kind, procedure, args, r.0)
  {
    match p.kind
    case PortmapKind => (PortmapCall(procedure), t)
    case MountKind => MountCall(t, procedure, args)
    case NfsKind => (NfsCall(t, procedure, args, stale), t)
  }
}
