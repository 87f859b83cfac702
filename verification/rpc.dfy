/** Big-endian 32-bit codec and the protocol constants shared by every RPC
    program (Rpc.h, Rpc.cpp).

    Bytes are integers in [0, 256) and 32-bit unsigned words are integers in
    [0, 2^32); every wrap-around of the C code is written out with `% TWO_32`.
 */
module Rpc {

  const TWO_32: int := 0x1_0000_0000

  type Byte = x: int | 0 <= x < 0x100
  type Uint32 = x: int | 0 <= x < 0x1_0000_0000

  /* Record marking: the top bit of the 4-byte record mark flags the last fragment. */
  const RPC_LAST_FRAGMENT_FLAG: Uint32 := 0x8000_0000

  const RPC_MESSAGE_TYPE_CALL: Uint32 := 0
  const RPC_MESSAGE_TYPE_REPLY: Uint32 := 1

  /* The header leaves RPC_VERSION commented out; the dispatcher compares with the literal 2. */
  const RPC_VERSION: Uint32 := 2

  const RPC_PROGRAM_PORTMAP: Uint32 := 100000
  const RPC_PROGRAM_NFS: Uint32 := 100003
  /* Not defined in the modelled headers; program number 100005 of RFC 1813, Appendix I. */
  const RPC_PROGRAM_MOUNT: Uint32 := 100005

  const RPC_REPLY_ACCEPTED: Uint32 := 0
  const RPC_REPLY_DENIED: Uint32 := 1

  const RPC_REPLY_ACCEPT_STATUS_SUCCESS: Uint32 := 0
  const RPC_REPLY_ACCEPT_STATUS_PROG_UNAVAIL: Uint32 := 1
  const RPC_REPLY_ACCEPT_STATUS_PROG_MISMATCH: Uint32 := 2
  const RPC_REPLY_ACCEPT_STATUS_PROC_UNAVAIL: Uint32 := 3
  const RPC_REPLY_ACCEPT_STATUS_GARBAGE_ARGS: Uint32 := 4

  const RPC_AUTH_FLAVOR_NULL: Uint32 := 0

  const PROC_NULL: Uint32 := 0
  const PORTMAP_PROC_GETPORT: Uint32 := 3

  /** The accept statuses, in header order. */
  const ACCEPT_STATUSES: seq<Uint32> := [
    RPC_REPLY_ACCEPT_STATUS_SUCCESS, RPC_REPLY_ACCEPT_STATUS_PROG_UNAVAIL,
    RPC_REPLY_ACCEPT_STATUS_PROG_MISMATCH, RPC_REPLY_ACCEPT_STATUS_PROC_UNAVAIL,
    RPC_REPLY_ACCEPT_STATUS_GARBAGE_ARGS]

  /** The four bytes of `value`, most significant first. */
  function BigEndian(value: Uint32): (bytes: seq<Byte>)
    ensures |bytes| == 4
  {
    [value / 0x100_0000, value / 0x1_0000 % 0x100, value / 0x100 % 0x100, value % 0x100]
  }

  /** ParseUint: the first four bytes of `buffer`, read as an unsigned
      big-endian word (each byte taken as unsigned). */
  function ParseUint(buffer: seq<Byte>): (value: Uint32)
    requires |buffer| >= 4
  {
    var high: int := buffer[0] as int * 0x100_0000 + buffer[1] as int * 0x1_0000;
    high + buffer[2] as int * 0x100 + buffer[3] as int
  }

  /** AppendUint: overwrite buffer[at..at+4] with the big-endian image of `value`. */
  function AppendUint(buffer: seq<Byte>, at: nat, value: Uint32): (written: seq<Byte>)
    requires at + 4 <= |buffer|
    ensures |written| == |buffer|
    ensures forall i :: 0 <= i < |buffer| && !(at <= i < at + 4) ==> written[i] == buffer[i]
    ensures written[at..at + 4] == BigEndian(value)
    ensures ParseUint(written[at..at + 4]) == value
  {
    ParseAfterAppend(value);
    var written := buffer[..at] + BigEndian(value) + buffer[at + 4..];
    assert written[at..at + 4] == BigEndian(value);
    written
  }

  /** Parsing what AppendUint wrote gives back the value: the xid echo relies on it. */
  lemma ParseAfterAppend(value: Uint32)
    ensures ParseUint(BigEndian(value)) == value
  {
    var q := value / 0x100;
    var q2 := q / 0x100;
    assert value == q * 0x100 + value % 0x100;
    assert q == q2 * 0x100 + q % 0x100;
    assert q2 == q2 / 0x100 * 0x100 + q2 % 0x100;
    assert value / 0x1_0000 == q2;
    assert value / 0x100_0000 == q2 / 0x100;
  }

  /** Appending a parsed word reproduces the four input bytes exactly. */
  lemma AppendAfterParse(bytes: seq<Byte>)
    requires |bytes| == 4
    ensures BigEndian(ParseUint(bytes)) == bytes
  {
    var v := ParseUint(bytes);
    var a: int := bytes[0] as int * 0x100 + bytes[1] as int;
    var c: int := a * 0x100 + bytes[2] as int;
    assert v == c * 0x100 + bytes[3];
    assert v % 0x100 == bytes[3] && v / 0x100 == c;
    assert c % 0x100 == bytes[2] && c / 0x100 == a;
    assert a % 0x100 == bytes[1] && a / 0x100 == bytes[0];
  }

  /** ParseUint looks at nothing past the fourth byte. */
  lemma ParseUintReadsFourBytes(buffer: seq<Byte>, rest: seq<Byte>)
    requires |buffer| >= 4
    ensures ParseUint(buffer + rest) == ParseUint(buffer[..4])
  {
    assert (buffer + rest)[..4] == buffer[..4];
  }

  /** Two words parse equal exactly when their bytes are equal. */
  lemma ParseUintInjective(a: seq<Byte>, b: seq<Byte>)
    requires |a| == 4 && |b| == 4
    ensures ParseUint(a) == ParseUint(b) <==> a == b
  {
    AppendAfterParse(a);
    AppendAfterParse(b);
  }

  /* ---------------------------------------------------------------------
     Record mark
     --------------------------------------------------------------------- */

  /** RPC_LAST_FRAGMENT_FLAG | length. The length is below 2^31, so the two
      operands have no bit in common and the OR is their sum. */
  function RecordMark(length: Uint32): (mark: Uint32)
    requires length < RPC_LAST_FRAGMENT_FLAG
    ensures mark / RPC_LAST_FRAGMENT_FLAG == 1
    ensures mark % RPC_LAST_FRAGMENT_FLAG == length
  {
    RPC_LAST_FRAGMENT_FLAG + length
  }

  /* ---------------------------------------------------------------------
     Native stores: SET_UINT and the *_NETWORK_ORDER constants
     --------------------------------------------------------------------- */

  /** The two byte orders the header supports (LITTLE_ENDIAN / BIG_ENDIAN). */
  datatype Endianness = LittleEndian | BigEndianHost

  function Reverse4(bytes: seq<Byte>): (reversed: seq<Byte>)
    requires |bytes| == 4
    ensures |reversed| == 4
  {
    [bytes[3], bytes[2], bytes[1], bytes[0]]
  }

  /** The bytes a native store `*(UINT*)p = native` leaves in memory. */
  function NativeBytes(host: Endianness, native: Uint32): (bytes: seq<Byte>)
    ensures |bytes| == 4
  {
    match host
    case LittleEndian => Reverse4(BigEndian(native))
    case BigEndianHost => BigEndian(native)
  }

  /** SET_UINT(buffer + at, native). */
  function SetUint(host: Endianness, buffer: seq<Byte>, at: nat, native: Uint32): (written: seq<Byte>)
    requires at + 4 <= |buffer|
    ensures |written| == |buffer|
    ensures written[at..at + 4] == NativeBytes(host, native)
    ensures forall i :: 0 <= i < |buffer| && !(at <= i < at + 4) ==> written[i] == buffer[i]
  {
    var written := buffer[..at] + NativeBytes(host, native) + buffer[at + 4..];
    assert written[at..at + 4] == NativeBytes(host, native);
    written
  }

  /** X_NETWORK_ORDER: the native word whose in-memory bytes are X's big-endian bytes. */
  function NetworkOrder(host: Endianness, x: Uint32): (native: Uint32)
    ensures NativeBytes(host, native) == BigEndian(x)
  {
    match host
    case LittleEndian =>
      var native := ParseUint(Reverse4(BigEndian(x)));
      AppendAfterParse(Reverse4(BigEndian(x)));
      native
    case BigEndianHost => x
  }

  /** SET_UINT(p, X_NETWORK_ORDER) writes the same bytes as AppendUint(p, X). */
  lemma SetUintNetworkOrderIsAppendUint(host: Endianness, buffer: seq<Byte>, at: nat, x: Uint32)
    requires at + 4 <= |buffer|
    ensures SetUint(host, buffer, at, NetworkOrder(host, x)) == AppendUint(buffer, at, x)
  {
  }

  /** The literal *_NETWORK_ORDER values of the header are the network-order
      images of their values, in both byte-order branches. */
  lemma NetworkOrderLiterals()
    ensures NetworkOrder(LittleEndian, 1) == 0x0100_0000
    ensures NetworkOrder(LittleEndian, 2) == 0x0200_0000
    ensures NetworkOrder(LittleEndian, 3) == 0x0300_0000
    ensures NetworkOrder(LittleEndian, 4) == 0x0400_0000
    ensures NetworkOrder(LittleEndian, RPC_PROGRAM_PORTMAP) == 0xA086_0100
    ensures NetworkOrder(LittleEndian, RPC_PROGRAM_NFS) == 0xA386_0100
    ensures NetworkOrder(LittleEndian, 0) == 0
    ensures NetworkOrder(BigEndianHost, RPC_PROGRAM_PORTMAP) == 0x0001_86A0
    ensures NetworkOrder(BigEndianHost, RPC_PROGRAM_NFS) == 0x0001_86A3
  {
    assert BigEndian(RPC_PROGRAM_PORTMAP) == [0x00, 0x01, 0x86, 0xA0];
    assert BigEndian(RPC_PROGRAM_NFS) == [0x00, 0x01, 0x86, 0xA3];
  }

  /** The accept statuses are pairwise distinct and numbered 0 to 4 in order. */
  lemma AcceptStatusesDistinct()
    ensures forall i, j :: 0 <= i < j < |ACCEPT_STATUSES| ==> ACCEPT_STATUSES[i] != ACCEPT_STATUSES[j]
    ensures forall i :: 0 <= i < |ACCEPT_STATUSES| ==> ACCEPT_STATUSES[i] == i
  {
  }

  /* ---------------------------------------------------------------------
     Big-endian word sequences
     --------------------------------------------------------------------- */

  /** Consecutive big-endian words, as the reply writers lay them out. */
  function Words(words: seq<Uint32>): (bytes: seq<Byte>)
    ensures |bytes| == 4 * |words|
  {
    if |words| == 0 then [] else BigEndian(words[0]) + Words(words[1..])
  }

  /** Word k of Words(ws) parses back to ws[k]. */
  lemma {:induction false} WordsParse(words: seq<Uint32>, k: nat)
    requires k < |words|
    ensures ParseUint(Words(words)[4 * k..4 * k + 4]) == words[k]
    decreases k
  {
    if k == 0 {
      assert Words(words)[..4] == BigEndian(words[0]);
      ParseAfterAppend(words[0]);
    } else {
      WordsParse(words[1..], k - 1);
      assert Words(words)[4 * k..4 * k + 4] == Words(words[1..])[4 * (k - 1)..4 * (k - 1) + 4];
    }
  }

  lemma {:induction false} WordsAppend(a: seq<Uint32>, b: seq<Uint32>)
    ensures Words(a + b) == Words(a) + Words(b)
    decreases |a|
  {
    if |a| == 0 {
      assert a + b == b;
    } else {
      assert (a + b)[1..] == a[1..] + b;
      WordsAppend(a[1..], b);
    }
  }
}
