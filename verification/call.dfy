/** Decoding of an ONC RPC call message (section 9 of RFC 5531), as
    HandleRpcCommand does it in NfsServer.cpp, and the matching encoder.

    The decoder follows the code rather than the RFC where they differ:
    credential and verifier bodies are skipped without XDR padding, both are
    bounded to 400 bytes, and a wrong rpc version is a framing error.
 */
module RpcCall {
  import opened Rpc
  import opened Common

  /** The opaque_auth body bound (section 8.2 of RFC 5531), enforced for credentials and verifier. */
  const MAX_AUTH_BODY: nat := 400

  /** Everything HandleRpcCommand takes from the header (RpcCallInfo plus the two auth fields). */
  datatype CallHeader = CallHeader(
    xid: Uint32,
    rpcVersion: Uint32,
    program: Uint32,
    programVersion: Uint32,
    procedure: Uint32,
    credFlavor: Uint32,
    cred: seq<Byte>,
    verfFlavor: Uint32,
    verf: seq<Byte>)

  /** A decoded call: the header and the argument bytes up to the record limit. */
  datatype CallMessage = CallMessage(header: CallHeader, args: seq<Byte>)

  /** The calls HandleRpcCommand accepts. */
  predicate WellFormed(m: CallMessage) {
    && m.header.rpcVersion == RPC_VERSION
    && |m.header.cred| <= MAX_AUTH_BODY
    && |m.header.verf| <= MAX_AUTH_BODY
  }

  /** Auth bodies whose length fits the 32-bit length word. */
  predicate Encodable(m: CallMessage) {
    |m.header.cred| < TWO_32 && |m.header.verf| < TWO_32
  }

  /** The first 32 bytes: xid, CALL, rpc version, program, version, procedure,
      credential flavor and credential length. */
  function FixedPart(h: CallHeader): (bytes: seq<Byte>)
    requires |h.cred| < TWO_32
    ensures |bytes| == 32
  {
    BigEndian(h.xid) + BigEndian(RPC_MESSAGE_TYPE_CALL) + BigEndian(h.rpcVersion)
    + BigEndian(h.program) + BigEndian(h.programVersion) + BigEndian(h.procedure)
    + BigEndian(h.credFlavor) + BigEndian(|h.cred|)
  }

  /** The call message as a client lays it out, without XDR padding of the auth bodies. */
  function EncodeCall(m: CallMessage): (msg: seq<Byte>)
    requires Encodable(m)
    ensures |msg| == 40 + |m.header.cred| + |m.header.verf| + |m.args|
  {
    FixedPart(m.header) + m.header.cred
    + BigEndian(m.header.verfFlavor) + BigEndian(|m.header.verf|) + m.header.verf
    + m.args
  }

  /** HandleRpcCommand's header walk over the call message (the bytes after the
      record mark). None is the "return 1" of the code: the connection closes. */
  function ParseCall(msg: seq<Byte>): (r: Option<CallMessage>)
    ensures r.Some? ==> WellFormed(r.value) && Encodable(r.value)
    ensures r.Some? ==> |msg| == 40 + |r.value.header.cred| + |r.value.header.verf| + |r.value.args|
  {
    if |msg| < 8 then None
    else if ParseUint(msg[4..8]) != RPC_MESSAGE_TYPE_CALL then None
    else if |msg| < 8 + 28 then None
    else if ParseUint(msg[8..12]) != RPC_VERSION then None
    else
      var credLength := ParseUint(msg[28..32]);
      if credLength > MAX_AUTH_BODY then None
      else
        var verifier := 32 + credLength;
        if verifier + 8 > |msg| then None
        else
          var verfLength := ParseUint(msg[verifier + 4..verifier + 8]);
          if verfLength > MAX_AUTH_BODY then None
          else
            var argsStart := verifier + 8 + verfLength;
            if argsStart > |msg| then None
            else
              Some(CallMessage(
                CallHeader(
                  ParseUint(msg[0..4]), ParseUint(msg[8..12]), ParseUint(msg[12..16]),
                  ParseUint(msg[16..20]), ParseUint(msg[20..24]), ParseUint(msg[24..28]),
                  msg[32..verifier], ParseUint(msg[verifier..verifier + 4]),
                  msg[verifier + 8..argsStart]),
                msg[argsStart..]))
  }

  /* ---------------------------------------------------------------------
     Layout of an encoded call
     --------------------------------------------------------------------- */

  lemma FixedPartLayout(h: CallHeader)
    requires |h.cred| < TWO_32
    ensures FixedPart(h)[0..4] == BigEndian(h.xid)
    ensures FixedPart(h)[4..8] == BigEndian(RPC_MESSAGE_TYPE_CALL)
    ensures FixedPart(h)[8..12] == BigEndian(h.rpcVersion)
    ensures FixedPart(h)[12..16] == BigEndian(h.program)
    ensures FixedPart(h)[16..20] == BigEndian(h.programVersion)
    ensures FixedPart(h)[20..24] == BigEndian(h.procedure)
    ensures FixedPart(h)[24..28] == BigEndian(h.credFlavor)
    ensures FixedPart(h)[28..32] == BigEndian(|h.cred|)
  {
  }

  lemma EncodeCallLayout(m: CallMessage)
    requires Encodable(m)
    ensures var msg := EncodeCall(m);
      var v := 32 + |m.header.cred|;
      var a := v + 8 + |m.header.verf|;
      && msg[..32] == FixedPart(m.header)
      && msg[32..v] == m.header.cred
      && msg[v..v + 4] == BigEndian(m.header.verfFlavor)
      && msg[v + 4..v + 8] == BigEndian(|m.header.verf|)
      && msg[v + 8..a] == m.header.verf
      && msg[a..] == m.args
  {
  }

  /** Decoding an encoded well-formed call gives it back, every field included. */
  lemma ParseEncodeCall(m: CallMessage)
    requires Encodable(m) && WellFormed(m)
    ensures ParseCall(EncodeCall(m)) == Some(m)
  {
    var msg := EncodeCall(m);
    var h := m.header;
    var v := 32 + |h.cred|;
    EncodeCallLayout(m);
    FixedPartLayout(h);
    assert msg[0..4] == msg[..32][0..4];
    assert msg[4..8] == msg[..32][4..8];
    assert msg[8..12] == msg[..32][8..12];
    assert msg[12..16] == msg[..32][12..16];
    assert msg[16..20] == msg[..32][16..20];
    assert msg[20..24] == msg[..32][20..24];
    assert msg[24..28] == msg[..32][24..28];
    assert msg[28..32] == msg[..32][28..32];
    ParseAfterAppend(h.xid);
    ParseAfterAppend(RPC_MESSAGE_TYPE_CALL);
    ParseAfterAppend(h.rpcVersion);
    ParseAfterAppend(h.program);
    ParseAfterAppend(h.programVersion);
    ParseAfterAppend(h.procedure);
    ParseAfterAppend(h.credFlavor);
    ParseAfterAppend(|h.cred|);
    ParseAfterAppend(h.verfFlavor);
    ParseAfterAppend(|h.verf|);
  }

  /** An encoded call is refused exactly when it is not well formed: a wrong
      rpc version (the tests use 0, 1 and 3) or an auth body over 400 bytes. */
  lemma EncodedCallRefused(m: CallMessage)
    requires Encodable(m)
    ensures ParseCall(EncodeCall(m)).None? <==> !WellFormed(m)
  {
    var msg := EncodeCall(m);
    var h := m.header;
    EncodeCallLayout(m);
    FixedPartLayout(h);
    assert msg[4..8] == msg[..32][4..8];
    assert msg[8..12] == msg[..32][8..12];
    assert msg[28..32] == msg[..32][28..32];
    ParseAfterAppend(RPC_MESSAGE_TYPE_CALL);
    ParseAfterAppend(h.rpcVersion);
    ParseAfterAppend(|h.cred|);
    ParseAfterAppend(|h.verf|);
    if WellFormed(m) {
      ParseEncodeCall(m);
    }
  }

  /** The decoder accounts for every byte: re-encoding a decoded call gives the
      message back. */
  lemma EncodeParseCall(msg: seq<Byte>)
    requires ParseCall(msg).Some?
    ensures EncodeCall(ParseCall(msg).value) == msg
  {
    var m := ParseCall(msg).value;
    var h := m.header;
    var v := 32 + |h.cred|;
    var a := v + 8 + |h.verf|;
    assert msg == msg[0..4] + msg[4..8] + msg[8..12] + msg[12..16] + msg[16..20]
      + msg[20..24] + msg[24..28] + msg[28..32] + msg[32..v] + msg[v..v + 4]
      + msg[v + 4..v + 8] + msg[v + 8..a] + msg[a..];
    AppendAfterParse(msg[0..4]);
    AppendAfterParse(msg[4..8]);
    AppendAfterParse(msg[8..12]);
    AppendAfterParse(msg[12..16]);
    AppendAfterParse(msg[16..20]);
    AppendAfterParse(msg[20..24]);
    AppendAfterParse(msg[24..28]);
    AppendAfterParse(msg[28..32]);
    AppendAfterParse(msg[v..v + 4]);
    AppendAfterParse(msg[v + 4..v + 8]);
  }
}
