/** The `String` record of Common.h: a pointer plus a declared 32-bit length,
    compared by length first and then byte by byte.

    A pointer is modelled by the bytes that can be read from it onward, or by
    `None` for NULL. The declared length is not tied to the readable bytes:
    a length word taken off the wire can be far larger than the data behind it.
 */
module Common {
  import opened Rpc

  datatype Option<T> = None | Some(value: T)

  datatype String = String(ptr: Option<seq<Byte>>, length: Uint32)

  /** `String()`: a NULL pointer and length 0, the failure sentinel. */
  const NULL_STRING: String := String(None, 0)

  /** The first `length` bytes can be read from `ptr`. */
  predicate Readable(s: String) {
    s.length == 0 || (s.ptr.Some? && s.length <= |s.ptr.value|)
  }

  /** The bytes the string denotes. */
  function Content(s: String): (bytes: seq<Byte>)
    requires Readable(s)
    ensures |bytes| == s.length
  {
    if s.length == 0 then [] else s.ptr.value[..s.length]
  }

  /** memcmp(a, b, n) == 0: the first n bytes agree. A zero count reads nothing. */
  predicate Memcmp(a: Option<seq<Byte>>, b: Option<seq<Byte>>, n: nat)
    requires n == 0 || (a.Some? && b.Some? && n <= |a.value| && n <= |b.value|)
  {
    n == 0 || forall i :: 0 <= i < n ==> a.value[i] == b.value[i]
  }

  /** String::Equals. The `&&` short-circuits: memcmp runs only when the
      lengths agree, so only then must both strings be readable that far. */
  function Equals(a: String, b: String): (equal: bool)
    requires a.length == b.length ==> Readable(a) && Readable(b)
    ensures equal <==> a.length == b.length && Content(a) == Content(b)
    ensures a.length != b.length ==> !equal
  {
    var equal := a.length == b.length && Memcmp(a.ptr, b.ptr, b.length);
    assert a.length == b.length && b.length > 0 && Content(a) == Content(b) ==>
      forall i :: 0 <= i < b.length ==> a.ptr.value[i] == Content(a)[i] == Content(b)[i] == b.ptr.value[i];
    equal
  }

  lemma EqualsReflexive(s: String)
    requires Readable(s)
    ensures Equals(s, s)
  {
  }

  lemma EqualsSymmetric(a: String, b: String)
    requires a.length == b.length ==> Readable(a) && Readable(b)
    ensures Equals(a, b) == Equals(b, a)
  {
  }

  /** Equality of content is transitive, so Equals is an equivalence on readable strings. */
  lemma EqualsTransitive(a: String, b: String, c: String)
    requires Readable(a) && Readable(b) && Readable(c)
    requires Equals(a, b) && Equals(b, c)
    ensures Equals(a, c)
  {
  }
}
