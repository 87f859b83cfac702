# WindowsNfs core in Dafny

A model of the core of WindowsNfs, a small NFSv3 server for Windows.
It has two halves, and both are modelled as pure functions over immutable values.

**The RPC side**
- Rpc.cpp and Rpc.h: the XDR word codec and the ONC RPC constants.
- Common.h: the `String` record.
- NfsServer.cpp:
  - the call decoding and program dispatch of `HandleRpcCommand`;
  - the PORTMAP, MOUNT and NFS programs with their GETATTR, FSINFO and PATHCONF procedures;
  - the name-handle table;
  - the record-mark framing of `RpcTcpRecvHandler`.

**The reactor side**
- SelectServer.h and SelectServer.cpp: the single-threaded select loop.
  - Sockets are reserved by `TryAddSock` and promoted into the active range at the start of a turn.
  - Removable sockets are packed away.
  - The three fd sets and the select timeout are built from the active sockets.
  - Popped sockets are handled in the order error, write, read, with `handled` marks.
  - Sockets whose deadline has passed are swept.

**How the model works**
- The shared buffer is a `seq<Byte>`, and a handler's reply is the bytes it leaves there.
- The handle table (`nameHandles`/`nameHandleCount`) is a sequence, threaded through every call.
- Handlers, `select` and `GetTickCount` are outside the reactor. Each turn receives them as inputs:
  - handlers as the effects they have on their socket and on the server;
  - `select` as a function from the query to its answer;
  - `GetTickCount` as the clock readings.
- Within a turn, the state is the turn's calls made in order from its start (`SelectPass.ApplyCalls`). Each call applies the handler's effect, then the reactor's rearm-or-marker bookkeeping, then the set's mark. Every phase states that the pass it returns is this replay of its calls.
- 32-bit arithmetic is written with explicit `% 2^32`.
- `SET_UINT` of a `*_NETWORK_ORDER` constant is a native store on either byte order. The model proves it lays down the same bytes as `AppendUint`.

**Modules and files**
- `Rpc` (rpc.dfy): bytes, the 32-bit codec, record marks, native stores, constants.
- `Common` (common.dfy): `String` and `Equals`.
- `RpcCall` (call.dfy): the call header as `HandleRpcCommand` parses it, and an encoder for it.
- `NameHandles` (name_handles.dfy): the handle table, `GetOrCreateHandle`, the export list, `MNT`, `TryLookupHandle`.
- `Programs` (programs.dfy): `Align4`, the argument shape check, the three programs' `HandleCall`, `Programs[]`.
- `Dispatcher` (dispatcher.dfy): `SetupReply`, `HandleRpcCommand`, and the replies the test client expects.
- `SelectSock` (select_sock.dfy): `SelectSock`, its updaters, `PopReason`, `SockSet`, tick arithmetic.
- `SelectServer` (select_server.dfy): server state, `TryAddSock`, `Find`, promotion, compaction, set building, the minimum timeout.
- `SelectPass` (select_pass.dfy): the handler-calling half of `Run` and the loop itself.
- `TcpRecv` (tcp_recv.dfy): `RpcTcpRecvHandler`'s framing, as written and corrected, and the two TCP handlers as the reactor sees them.

**Where the documented behaviour and the code differ, the model follows the code**
- NFS procedures given a bad handle reply with the accept status, `NFS3ERR_BADHANDLE` and a zero. That is 12 bytes, not the 8 bytes of result alone.
- `NFS3ERR_BADHANDLE` is not defined in the modelled headers, so the model uses the value 10001 from section 2.6 of RFC 1813.
- The version check compares the call's version with `minVersion` twice and never reads `maxVersion`. Every program in `Programs[]` has equal bounds, so this is unobservable, and `Dispatcher.VersionRejectedIsRangeCheck` proves it.
- GETATTR on a good handle writes nothing and reports 32 bytes, so its reply carries 32 stale bytes of the shared buffer (`stale` in the model).

## Model

| member | source | states |
|---|---|---|
| Rpc.AppendUint | Rpc.cpp:13-19 | writes exactly the four bytes at the offset, big-endian, leaving every other byte unchanged; reading them back with ParseUint gives the value |
| Rpc.ParseAfterAppend | Rpc.cpp:5-19 | ParseUint undoes the big-endian encoding for every 32-bit value |
| Rpc.AppendAfterParse | Rpc.cpp:5-19 | the encoding undoes ParseUint for every four bytes |
| Rpc.ParseUintReadsFourBytes | Rpc.cpp:5-11 | ParseUint depends on the first four bytes only |
| Rpc.ParseUintInjective | Rpc.cpp:5-11 | two four-byte words parse equal exactly when they are equal |
| Rpc.RecordMark | Rpc.h:3 | a mark built from a 31-bit length has the last-fragment bit set and the length in its low 31 bits |
| Rpc.SetUint | Rpc.h:31 | SET_UINT writes the value's native bytes at the offset and nothing else |
| Rpc.NetworkOrder | Rpc.h:42-75 | a *_NETWORK_ORDER constant is the native word whose bytes in memory are the big-endian encoding of the value |
| Rpc.SetUintNetworkOrderIsAppendUint | Rpc.h:31-75 | storing a network-order constant natively lays down the same bytes as AppendUint of the value, on either byte order |
| Rpc.NetworkOrderLiterals | Rpc.h:42-75 | the literal network-order constants equal the byte-swapped values on little-endian hosts and the values themselves on big-endian ones |
| Rpc.AcceptStatusesDistinct | Rpc.h:17-21 | the accept statuses SUCCESS to GARBAGE_ARGS are 0 to 4 and pairwise distinct |
| Rpc.WordsParse | Rpc.cpp:5-19 | the k-th four bytes of an encoded run parse back to the k-th word |
| Rpc.WordsAppend | Rpc.cpp:13-19 | encoding distributes over concatenation |
| Common.Content | Common.h:26-35 | a readable String's bytes number its length |
| Common.Equals | Common.h:36-40 | equal exactly when the lengths agree and the first `length` bytes agree; different lengths are never equal and then nothing is read |
| Common.EqualsReflexive | Common.h:36-40 | a readable String equals itself |
| Common.EqualsSymmetric | Common.h:36-40 | Equals does not depend on argument order |
| Common.EqualsTransitive | Common.h:36-40 | Equals is transitive |
| RpcCall.FixedPartLayout | NfsServer.cpp:489-519 | xid, CALL, rpc version, program, version, procedure, credential flavor and length lie at the offsets the parser reads |
| RpcCall.EncodeCallLayout | NfsServer.cpp:514-541 | the verifier and the arguments follow the credential body where the parser looks for them |
| RpcCall.ParseCall | NfsServer.cpp:481-541 | a call that decodes is well formed (CALL, rpc version 2, auth bodies of at most 400 bytes) and accounts for every byte of the record |
| RpcCall.ParseEncodeCall | NfsServer.cpp:481-541 | decoding an encoded well-formed call gives it back |
| RpcCall.EncodedCallRefused | NfsServer.cpp:483-537 | an encoded call is refused exactly when it is not well formed |
| RpcCall.EncodeParseCall | NfsServer.cpp:481-541 | re-encoding a decoded call gives the received bytes back |
| NameHandles.CopyString | NfsServer.cpp:179-183 | the table's copy of a name is readable with the same length and bytes |
| NameHandles.FirstEqual | NfsServer.cpp:171-177 | the index of the first equal name from `from` on, or the table size when none is equal |
| NameHandles.GetOrCreateHandle | NfsServer.cpp:169-187 | a known name gives its first index and leaves the table unchanged; a new name is appended with a copy of its bytes and gets the old table size |
| NameHandles.GetOrCreateHandleIdempotent | NfsServer.cpp:169-187 | asking again for the same name gives the same handle and adds nothing |
| NameHandles.GetOrCreateHandleKeepsValid | NfsServer.cpp:169-198 | adding an export's local name keeps the table one copy per distinct export name |
| NameHandles.ValidTableFitsArray | NfsServer.cpp:167-198 | a valid table never outgrows the exports, and so never the 100-entry array |
| NameHandles.MatchExport | NfsServer.cpp:204-212 | the first export whose name Equals the path, or the export count when none does |
| NameHandles.MNT | NfsServer.cpp:201-231 | no matching export exactly when the reply is [NOENT] and the table is unchanged; otherwise [OK, 4, handle, AUTH_NULL] with a handle naming the export's local name; the table only grows |
| NameHandles.MountTwiceSameHandle | NfsServer.cpp:201-231 | a second MNT of the same path gives the same reply and leaves the table as the first left it |
| NameHandles.TryLookupHandle | NfsServer.cpp:278-292 | NULL exactly when the handle is not 4 bytes or its index is past the table; otherwise the local name stored at that index |
| NameHandles.MountedHandleResolves | NfsServer.cpp:223-292 | the handle MNT hands out resolves to the export's local name in the table MNT returns |
| Programs.Align4 | NfsServer.cpp:154-158 | the next multiple of 4 at or above x, wrapping to 0 above 0xFFFFFFFC |
| Programs.OpaqueArg | NfsServer.cpp:256-264 | accepts the argument exactly when its 4-byte length, rounded up by Align4, covers exactly the remaining bytes; the String points after the length word |
| Programs.OpaqueArgRoundTrip | NfsServer.cpp:256-264 | an XDR opaque with padding to a 4-byte boundary is accepted and gives back its data |
| Programs.OpaqueArgIsEncoding | NfsServer.cpp:411-418 | every accepted argument with a length below the wrap point is such an encoding |
| Programs.OpaqueArgWrappedLength | NfsServer.cpp:154-158 | a length above 0xFFFFFFFC wraps to 0 and is accepted with no data behind it |
| Programs.Accepted | NfsServer.cpp:131-149 | a reply is the accept status word followed by the result |
| Programs.PortmapCall | NfsServer.cpp:125-151 | NULL replies exactly the SUCCESS word, GETPORT exactly SUCCESS and port 111 whatever was asked, anything else exactly PROC_UNAVAIL; it always replies |
| Programs.MountCall | NfsServer.cpp:246-275 | NULL replies SUCCESS and keeps the table; a well-shaped MNT replies SUCCESS followed by MNT's words and takes MNT's table; a malformed MNT path is silent; any other procedure replies PROC_UNAVAIL and keeps the table; only MNT changes the table |
| Programs.NfsHandleProcedure | NfsServer.cpp:306-386 | a handle that is not 4 bytes or is past the table gives BADHANDLE and no attributes; a resolved handle gives GETATTR's 32 unwritten bytes, FSINFO's fixed 14 words (OK, unlimited rtmax/wtmax/maxfilesize, time_delta 1 ms) or PATHCONF's fixed 8 words (OK, name_max 260, no_trunc and case_insensitive set), whichever resolved handle it is |
| Programs.NfsCall | NfsServer.cpp:401-462 | NULL replies SUCCESS; a well-shaped GETATTR, FSINFO or PATHCONF replies SUCCESS followed by that procedure's result; a malformed handle is silent; any other procedure replies PROC_UNAVAIL |
| Programs.NfsHandleCall | NfsServer.cpp:409-456 | silent when the handle fails the shape check, otherwise SUCCESS followed by the procedure's result for that handle |
| Programs.MountReplyHandleResolves | NfsServer.cpp:254-268 | a client decoding an MNT reply reads SUCCESS and then either NOENT with the table unchanged, or OK, handle length 4 and a handle that resolves to the exported directory in the table the call left |
| Programs.NfsReplyDependsOnlyOnResolution | NfsServer.cpp:306-386 | two well-shaped handle arguments that both resolve, or both fail to, get the same NFS reply |
| Programs.HandleCall | NfsServer.cpp:94 | the virtual call: the table only grows, and only through MNT; the handler contract of the program called |
| Dispatcher.FindProgram | NfsServer.cpp:545-566 | the first table entry with the call's program, or the table size |
| Dispatcher.ProgramTable | NfsServer.cpp:469-473 | program numbers are distinct, so a program is found exactly when it is NFS, MOUNT or PORTMAP; each supports one version |
| Dispatcher.VersionRejectedIsRangeCheck | NfsServer.cpp:551-559 | the check as written, against minVersion twice, is the intended range check for every table entry |
| Dispatcher.Dispatch | NfsServer.cpp:545-573 | an unknown program gives PROG_UNAVAIL, a wrong version PROG_MISMATCH with the low and high versions, and otherwise the program's HandleCall |
| Dispatcher.SetupReply | NfsServer.cpp:71-78 | on either byte order, lays down xid, REPLY, ACCEPTED, AUTH_NULL and 0 as big-endian words and leaves the rest of the buffer alone |
| Dispatcher.FrameFields | NfsServer.cpp:575-581 | a client reading the frame finds a last fragment as long as the rest, the xid, an accepted reply with a NULL verifier, and the reply |
| Dispatcher.Respond | NfsServer.cpp:575-583 | silent exactly when the handler returned 0; never closes |
| Dispatcher.HandleRpcCommand | NfsServer.cpp:481-590 | closes exactly when the record is under 12 bytes or the call does not decode; a reply echoes the call's xid with a mark covering the rest; the table changes only on a sent reply |
| Dispatcher.RespondFields | NfsServer.cpp:575-581 | the reply frame's mark covers the rest and its xid bytes are those of the call |
| Dispatcher.EncodedCallOutcome | NfsServer.cpp:481-590 | a record holding an encoded call closes when the call is malformed and is otherwise answered as its header directs |
| Dispatcher.TestLiteralsAsParsed | Test.cpp:65-76 | the raw program, version and procedure numbers the test client stores natively reach the server byte-swapped on a little-endian host |
| Dispatcher.TestClientExpectations | Test.cpp:136-217 | every reply the test client expects: NULL on each program, PROG_UNAVAIL, PROG_MISMATCH 2,2 and 3,3, PROC_UNAVAIL, FSINFO BADHANDLE, for the words the server parses from its calls |
| Dispatcher.GetattrBeforeMount | NfsServer.cpp:306-316 | before anything is mounted, handle 0 is a bad handle |
| Dispatcher.MountShare | NfsServer.cpp:195-231 | mounting /share on a fresh server hands out handle 0 naming C:\ |
| Dispatcher.GetattrHandleZero | NfsServer.cpp:306-325 | once anything is mounted, GETATTR of handle 0 succeeds with 32 stale bytes |
| Dispatcher.MountThenGetattr | NfsServer.cpp:201-325 | mount /share, then GETATTR on the handle returned succeeds |
| SelectSock.UpdateHandler | SelectServer.h:91-94 | sets the handler and nothing else |
| SelectSock.UpdateEventFlags | SelectServer.h:95-98 | sets the flags and nothing else |
| SelectSock.UpdateTimeout | SelectServer.h:99-102 | sets the timeout and nothing else; the deadline is untouched |
| SelectSock.UpdatesCommute | SelectServer.h:91-102 | the updaters commute pairwise |
| SelectSock.RemovableWaitsForNothing | SelectServer.cpp:172-199 | removable exactly when in no set and without timeout |
| SelectSock.TicksUntil | SelectServer.cpp:252-255 | the wrapped DWORD difference, which added to now reaches the deadline |
| SelectSock.AddTicks | SelectServer.cpp:159-164 | a deadline set `millis` ahead is `millis` away in wrapped time |
| SelectSock.AddTicksUntil | SelectServer.cpp:159-255 | adding the ticks until a deadline gives the deadline |
| SelectSock.ExpiredMeansPassed | SelectServer.cpp:252-255 | reached exactly when the clock is 1 to 2^31+1 ms past the deadline; a deadline equal to now is not reached |
| SelectSock.ClampedDiff | SelectServer.cpp:248-262 | 0 exactly for a reached (or present) deadline, otherwise the time left; always below 0x7FFFFFFF |
| SelectSock.Add | SelectServer.h:22-25 | appends the socket and leaves later slots alone |
| SelectServer.NewServer | SelectServer.h:131-134 | a new server has all slots available and is not stopped |
| SelectServer.AvailableSocks | SelectServer.h:156-159 | at most the capacity, and 0 exactly when every slot is reserved |
| SelectServer.SetStopFlag | SelectServer.h:152-155 | sets STOP_FLAG, keeps other flags and the sockets |
| SelectServer.SetStopFlagIdempotent | SelectServer.h:152-155 | setting the stop flag twice is setting it once |
| SelectServer.TryAddSock | SelectServer.cpp:28-36 | fails exactly when the server is full and then changes nothing; otherwise stores the socket in the next reserved slot, one fewer available, no other slot touched |
| SelectServer.AddAll | SelectServer.cpp:28-36 | a handler's adds fill the next free slots in order, as many as fit |
| SelectServer.Find | SelectServer.cpp:40-66 | the index of the socket, searching from the hint and wrapping around, or `count` when it is absent; the returned hint is one past a found index and unchanged otherwise |
| SelectServer.Rearm | SelectServer.cpp:159-164 | a finite timeout sets the deadline `timeout` ms ahead of the tick; nothing else changes |
| SelectServer.RearmedNotExpired | SelectServer.cpp:159-164 | a rearmed deadline has not expired and its clamped diff is the timeout |
| SelectServer.Promote | SelectServer.cpp:152-169 | reserved sockets are rearmed from their tick readings; others untouched |
| SelectServer.KeptMembers | SelectServer.cpp:172-199 | Kept holds exactly the non-removable sockets |
| SelectServer.KeptAppend | SelectServer.cpp:172-199 | Kept distributes over concatenation |
| SelectServer.KeptAll | SelectServer.cpp:172-199 | nothing to remove keeps everything |
| SelectServer.KeptIdempotent | SelectServer.cpp:172-199 | compacting twice is compacting once |
| SelectServer.Compact | SelectServer.cpp:172-199 | packs the sockets after the marker, dropping removable ones in order; the count falls below `active` |
| SelectServer.CompactIsFilter | SelectServer.cpp:172-199 | with a removable socket at the marker and none before, compaction is a filter of the active range |
| SelectServer.Maintain | SelectServer.cpp:148-199 | after promotion and compaction, the reserved sockets are exactly the non-removable ones, in order |
| SelectServer.WantingMembers | SelectServer.cpp:222-244 | a socket is in a set exactly when an active socket with that id wants the flag |
| SelectServer.WantingDistinct | SelectServer.cpp:222-244 | distinct socket ids give a set without repeats |
| SelectServer.BuildSets | SelectServer.cpp:222-244 | the three SockSets hold exactly the active sockets wanting READ, WRITE and ERROR_ |
| SelectServer.MinTimeout | SelectServer.cpp:226-274 | INF exactly when no active socket has a timeout; otherwise the least clamped diff, below 0x7FFFFFFF |
| SelectServer.SelectTimeout | SelectServer.cpp:276-293 | no timeval for INF; otherwise seconds and microseconds totalling the millisecond diff |
| SelectPass.Level | SelectServer.cpp:79-83 | the HandledState marks: 0 only for timeout |
| SelectPass.Phase | SelectServer.cpp:319-447 | the phase order error, write, read, timeout |
| SelectPass.SetPropsTable | SelectServer.cpp:85-97 | each row marks its reason's level and needs a flag of its own; taken from 2 down to 0 the rows run in phase order |
| SelectPass.ApplyEffect | SelectServer.cpp:374 | a handler's updaters touch only its socket, adds go only into new slots, the stop flag only ever gets set |
| SelectPass.Invoke | SelectServer.cpp:373-388 | one call and its bookkeeping: a finite timeout is rearmed from the clock; a socket left with no flags lowers the marker to its index |
| SelectPass.InvokeKeepsTidy | SelectServer.cpp:373-388 | a call on a non-removable socket keeps the packing invariant |
| SelectPass.SetCallKeepsInv | SelectServer.cpp:340-388 | a set call past the handled and flag tests keeps the turn invariant |
| SelectPass.TimeoutCallKeepsInv | SelectServer.cpp:401-447 | an unmarked timeout call in index order keeps the turn invariant |
| SelectPass.DispatchSet | SelectServer.cpp:331-388 | every call the set adds is on an active socket in select's set that passed the `handled` and flag tests when the set began; with distinct socket ids, every such socket is called; a socket it does not call keeps its state and mark; the calls follow earlier phases, keep the invariant, and repeat nothing when the set has no repeats; the pass it returns is the starting pass with exactly its new calls made in order, each handler's effect followed by the rearm or marker bookkeeping and the set's mark (`Replays`) |
| SelectPass.SetSpecCall | SelectServer.cpp:344-375 | a socket found for the current id that passes both tests passed them when the set began, so calling it keeps the set's promise over the ids visited |
| SelectPass.SetSpecSkip | SelectServer.cpp:344-371 | with distinct ids, a socket skipped as missing, marked higher or lacking the flag is either not eligible or already called from this set |
| SelectPass.TimeoutCallsExactly | SelectServer.cpp:401-447 | the sweep calls exactly the due sockets (finite timeout, deadline reached, no mark), in ascending index order |
| SelectPass.SweepStep | SelectServer.cpp:406-445 | a socket is called exactly when it is due |
| SelectPass.SweepStepKeeps | SelectServer.cpp:401-447 | one sweep step keeps the sweep's loop invariant |
| SelectPass.TimeoutPhase | SelectServer.cpp:401-447 | the sweep makes exactly the due calls and keeps the invariant; the pass it returns is the starting pass with those calls made in order, each followed by the rearm or marker bookkeeping and no mark (`Replays`) |
| SelectPass.HandleReady | SelectServer.cpp:314-447 | the error, write and read sets are handled in that order, each as DispatchSet promises from the pass the previous one left, and none when select reported nothing; with a sweep the turn then adds exactly the due calls of the pass the sets left, otherwise nothing; the turn invariant holds and no socket is called twice for one reason; every intermediate pass and the final one are the pass before them with their new calls made (`PhasesReplay`), so the final pass is the turn's calls made in order from the start |
| SelectPass.ErrorCallsExactly | SelectServer.cpp:314-388 | with distinct socket ids, a socket gets an error call exactly when select put it in the error set and it holds ERROR_ |
| SelectPass.RunPass | SelectServer.cpp:119-447 | one turn: exits 0 on stop or no sockets, 1 when select fails; otherwise queries exactly the wanting sockets, handles select's three sets as HandleReady promises, then, when the query had a timeout, calls exactly the due sockets; all in phase order, where an error or timeout call excludes other calls on the socket; the next turn starts from the sockets, active count and marker that the turn's calls leave when made in order from the start; the stop flag is then up exactly when one of the turn's handlers raised it; select's timeout, in microseconds, is 1000 times the least clamped diff among the active sockets with a timeout |
| SelectPass.Replay | SelectServer.cpp:373-388 | one recorded call made on a pass: the handler's effect and its bookkeeping, plus the set's mark for a set call and none for a timeout call; the calls grow by exactly that call and the stop flag is up when it was or the handler raised it |
| SelectPass.ReplaysStep | SelectServer.cpp:373-388 | making one more call, with the effect of its position in the turn, keeps a pass the replay of an earlier one |
| SelectPass.ApplyCallsAppend | SelectServer.cpp:314-447 | making calls `a` and then `b` is making `a + b`, so the phases of a turn compose |
| SelectPass.ReplaysTrans | SelectServer.cpp:314-447 | a replay of a replay is a replay of the first pass |
| SelectPass.ApplyCallsStopped | SelectServer.h:152-155 | after a run of calls the stop flag is up exactly when it was before or one of the handlers raised it |
| SelectPass.SetCallReplays | SelectServer.cpp:373-375 | a set call, with the handled mark it records, is the replay of its recorded call |
| SelectPass.SweepStepReplays | SelectServer.cpp:406-444 | a sweep step is no call, or the replay of its timeout call without a mark |
| SelectPass.ReplayKeeps | SelectServer.cpp:373-388 | after one replayed call the called socket holds the handler, flags and timeout the handler left, and a finite timeout is rearmed from the handler's tick |
| SelectPass.ReplaysLast | SelectServer.cpp:373-388 | a replay with at least one call is the replay of one call fewer followed by its last call, with the effect of that call's position |
| SelectPass.LastCallKept | SelectServer.cpp:373-388 | in any replay the socket of the last call holds what its handler left, rearmed when its timeout is finite, and the server is stopped if that handler stopped it |
| SelectPass.SweepDueKeeps | SelectServer.cpp:428-444 | calling a due socket of the sweep keeps the sweep's invariant, the exact calls so far and the untouched later sockets |
| SelectPass.TimeoutAppendNoRepeats | SelectServer.cpp:406-445 | a timeout call for a socket past every earlier timeout call repeats no call |
| SelectPass.SetOne | SelectServer.cpp:344-388 | one socket of a popped set keeps DispatchSet's loop invariant, the set's promise over the ids visited, and the replay of the calls made |
| SelectPass.SweepOne | SelectServer.cpp:406-445 | one socket of the sweep keeps the sweep's invariant and the replay of the calls made |
| SelectPass.DispatchSets | SelectServer.cpp:314-388 | the error, write and read sets, each from the pass the one before left, each a replay of the one before; nothing when select reported nothing |
| SelectPass.DispatchWriteRead | SelectServer.cpp:314-388 | after the error set, the write set and then the read set, each as DispatchSet promises and each a replay of the pass before |
| SelectPass.PhasesReplayWhole | SelectServer.cpp:314-447 | a turn whose passes replay one another is its calls made in order from the start |
| SelectPass.AskSelect | SelectServer.cpp:222-293 | select is asked for exactly the active sockets wanting each event, and for no timeout exactly when no active socket has one; otherwise for 1000 times the least clamped diff, in microseconds |
| SelectPass.Run | SelectServer.cpp:119-452 | the loop stops at the first exiting turn with code 0 or 1, and every turn's calls keep the phase and exclusivity promises |
| TcpRecv.LastFragment | NfsServer.cpp:612 | the sign-shifted top bit is set exactly when the mark has the last-fragment flag |
| TcpRecv.FragmentLength | NfsServer.cpp:613-617 | the low 31 bits; for a last fragment the mark is RecordMark of it |
| TcpRecv.RecordMarkRoundTrip | NfsServer.cpp:612-617 | a reply's mark reads back as a last fragment of its length |
| TcpRecv.FragmentLengthsAgree | NfsServer.cpp:613-617 | with bytes 1 to 3 below 0x80, the signed computation gives the 31-bit length |
| TcpRecv.SignExtensionFillsTopByte | NfsServer.cpp:613-617 | a high byte 1 to 3 fills the top byte of the computed length |
| TcpRecv.Receive | NfsServer.cpp:593-648 | a non-positive size, a non-last fragment or a length other than size - 4 closes and leaves the table alone; it goes past them only when all three checks pass, and then the outcome and table are HandleRpcCommand's |
| TcpRecv.RecvHandlerAsWritten | NfsServer.cpp:593-648 | the handler as written serves only last fragments of at least 12 bytes whose signed length matches |
| TcpRecv.RecvHandler | NfsServer.cpp:593-648 | stays open exactly for one complete last fragment as long as its mark says, holding a call that decodes; then it is HandleRpcCommand |
| TcpRecv.SignExtensionCloses | NfsServer.cpp:612-631 | a record mark with a byte 1 to 3 of 0x80 or more always closes the connection as written |
| TcpRecv.FramingAgrees | NfsServer.cpp:593-648 | otherwise as written and corrected agree |
| TcpRecv.RecordServed | NfsServer.cpp:593-648 | a well-formed call in one record is answered as dispatched |
| TcpRecv.LongNullCallRefused | NfsServer.cpp:613-624 | the 132-byte NFS NULL call: as written closes, corrected sends |
| TcpRecv.RecvEffect | NfsServer.cpp:636-647 | closing clears the socket's event flags; serving changes nothing |
| TcpRecv.AcceptedSock | NfsServer.cpp:661 | the new connection waits for reads only, without timeout, under RpcTcpRecvHandler |
| TcpRecv.AcceptEffect | NfsServer.cpp:649-669 | the listener keeps its settings and offers the connection to TryAddSock |
| TcpRecv.ClosedConnectionRemoved | NfsServer.cpp:638-647 | a closed connection becomes removable and the marker drops to it |
| TcpRecv.AcceptReserves | NfsServer.cpp:649-669 | accepting reserves a slot holding the new socket unless the server is full |

## Left out

- Winsock I/O:
  - `send`, `recv`, `accept`, `select` and the sockets `RunNfsServer` opens are not modelled as calls.
  - A recv is the buffer contents plus its return value.
  - select is an input function from the query to the ready sockets.
  - A sent reply is the byte sequence of `Outcome.Send`.
- TcpAcceptHandler's accept failure path is not modelled. It still calls `TryAddSock` with `INVALID_SOCKET`; only the successful accept is modelled.
- Concurrency: the critical section, `SynchronizedSelectServer` and `LockedSelectServer` are not modelled. Their locked regions are modelled as single steps of the select thread.
- `GetFileAttributes` is a foreign call, and its result is unused.
- GETATTR's stale 32 bytes are an input (`stale`): the shared buffer's contents before the call.
- Logging, the `sprintsets` debug helpers and `SELECT_THREAD_VERBOSE` only produce text, so they are not modelled.
- `SelectSock.user` and the `delete sock->user` after closing are pointer ownership with no effect on the behaviour modelled here.
- `malloc` failure in `GetOrCreateHandle` is not checked by the code and is not modelled.
- The `fd_set` layout is represented by `SockSet`'s count and slots only.
- `selectCount`, select's return value, is modelled as the total size of the three ready sets.
- `GetTickCount` readings are inputs, one per place the loop reads the clock.
- Handler calls are modelled by their effects on the server (`SelectPass.Effect`), not as code.
- Test.cpp is used only to state the replies its client expects (`Dispatcher.TestClientExpectations`, `Dispatcher.TestLiteralsAsParsed`).
- Main.cpp is not part of this model.
- `SelectPass.Run` runs a finite number of turns; the source loop runs until it exits.
- `SelectPass.Run` promises about each turn's calls only their phase order and exclusivity; which handlers a turn calls, and the state they leave for the next turn, is stated turn by turn by `SelectPass.RunPass`, whose intermediate passes `Run` does not return.
- `SelectPass.DispatchSet` promises that every eligible socket is called only when the active sockets have distinct ids, which the operating system guarantees for open sockets but the model does not track.
- `SelectPass.RunPass` promises no repeated call only when select's answer repeats no socket within a set.

## Findings

| source | as written | input that shows it | evidently intended | confidence | as-written member | corrected member |
|---|---|---|---|---|---|---|
| NfsServer.cpp:612-617 | the fragment length is assembled from `char` bytes, which are signed, so a byte of 0x80 or more at positions 1 to 3 is sign-extended and sets every higher bit | an NFS NULL call with 92 argument bytes: record mark 80 00 00 84, 136 bytes received; the computed length is 0xFFFFFF84 and the connection is closed | the 31-bit fragment length of section 11 of RFC 5531, read from unsigned bytes | not executed | TcpRecv.RecvHandlerAsWritten, TcpRecv.SignExtensionCloses, TcpRecv.LongNullCallRefused | TcpRecv.RecvHandler, TcpRecv.RecordServed |
