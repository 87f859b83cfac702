/** The export table and the name-handle table of NfsServer.cpp, and the MNT
    procedure that connects them.

    The C code keeps the handle table in two globals, `nameHandles[100]` and
    `nameHandleCount`; here the table is the sequence of its first
    `nameHandleCount` entries, threaded through every call that may change it.
    A handle is an index into that sequence.
 */
module NameHandles {
  import opened Rpc
  import opened Common

  /** A handle owns a copy of the local path it names. */
  datatype NameHandle = NameHandle(localName: String)

  type HandleTable = seq<NameHandle>

  /** Size of the static `nameHandles` array. */
  const NAME_HANDLE_CAPACITY: nat := 100

  datatype Export = Export(exportName: String, localName: String)

  /** "/share" */
  const SHARE_PATH: seq<Byte> := [0x2F, 0x73, 0x68, 0x61, 0x72, 0x65]
  /** "C:\" */
  const C_DRIVE: seq<Byte> := [0x43, 0x3A, 0x5C]

  /** The static export table: "/share" is served from "C:\". */
  const EXPORTS: seq<Export> := [Export(String(Some(SHARE_PATH), 6), String(Some(C_DRIVE), 3))]

  /** MOUNT status codes (mountstat3, RFC 1813 Appendix I); not defined in the modelled files. */
  const MOUNT3_STATUS_OK: Uint32 := 0
  const MOUNT3_ERROR_NOENT: Uint32 := 2

  /** The table a running server can hold: every entry is a copy of some
      export's local name, and no two entries are Equal. It holds of the empty
      table the server starts with and GetOrCreateHandle keeps it. */
  predicate ValidTable(t: HandleTable) {
    && (forall i :: 0 <= i < |t| ==> IsExportLocalCopy(t[i].localName))
    && (forall i, j :: 0 <= i < j < |t| ==> Content(t[i].localName) != Content(t[j].localName))
  }

  predicate IsExportLocalCopy(s: String) {
    && s.ptr.Some? && Readable(s)
    && exists k :: 0 <= k < |EXPORTS| && Content(s) == Content(EXPORTS[k].localName)
  }

  /** The malloc'd copy GetOrCreateHandle stores: the bytes plus a trailing '\0'. */
  function CopyString(s: String): (copy: String)
    requires Readable(s)
    ensures copy.ptr.Some? && Readable(copy) && copy.length == s.length
    ensures Content(copy) == Content(s)
  {
    String(Some(Content(s) + [0]), s.length)
  }

  /** Index of the first entry at or after `from` whose name Equals `name`, or |t|. */
  function FirstEqual(t: HandleTable, name: String, from: nat): (i: nat)
    requires from <= |t|
    requires Readable(name) && forall k :: 0 <= k < |t| ==> Readable(t[k].localName)
    ensures from <= i <= |t|
    ensures i < |t| ==> Equals(name, t[i].localName)
    ensures forall k :: from <= k < i ==> !Equals(name, t[k].localName)
    decreases |t| - from
  {
    if from == |t| then |t|
    else if Equals(name, t[from].localName) then from
    else FirstEqual(t, name, from + 1)
  }

  /** GetOrCreateHandle: the index of the first entry equal to `localName`;
      otherwise a copy is appended and its index, the old count, is returned. */
  function GetOrCreateHandle(t: HandleTable, localName: String): (r: (nat, HandleTable))
    requires Readable(localName) && forall k :: 0 <= k < |t| ==> Readable(t[k].localName)
    ensures r.0 < |r.1| && forall k :: 0 <= k < |r.1| ==> Readable(r.1[k].localName)
    ensures Content(r.1[r.0].localName) == Content(localName)
    ensures (exists k :: 0 <= k < |t| && Equals(localName, t[k].localName)) ==>
      r.1 == t && (forall k :: 0 <= k < r.0 ==> !Equals(localName, t[k].localName))
    ensures (forall k :: 0 <= k < |t| ==> !Equals(localName, t[k].localName)) ==>
      r.0 == |t| && r.1 == t + [NameHandle(CopyString(localName))]
  {
    var i := FirstEqual(t, localName, 0);
    if i < |t| then (i, t) else (|t|, t + [NameHandle(CopyString(localName))])
  }

  /** Mounting the same name again returns the same handle and leaves the table alone. */
  lemma GetOrCreateHandleIdempotent(t: HandleTable, localName: String)
    requires Readable(localName) && forall k :: 0 <= k < |t| ==> Readable(t[k].localName)
    ensures var (h, t1) := GetOrCreateHandle(t, localName);
      GetOrCreateHandle(t1, localName) == (h, t1)
  {
    var (h, t1) := GetOrCreateHandle(t, localName);
    assert Equals(localName, t1[h].localName);
    assert forall k :: 0 <= k < h ==> t1[k] == t[k];
    assert forall k :: 0 <= k < h ==> !Equals(localName, t1[k].localName);
  }

  /** Handing out an export's local name keeps the table valid, and the table
      only ever grows by one entry. */
  lemma GetOrCreateHandleKeepsValid(t: HandleTable, k: nat)
    requires ValidTable(t) && k < |EXPORTS|
    ensures var (h, t1) := GetOrCreateHandle(t, EXPORTS[k].localName);
      ValidTable(t1) && t <= t1 && |t1| <= |t| + 1
  {
    var name := EXPORTS[k].localName;
    var (h, t1) := GetOrCreateHandle(t, name);
    if |t1| == |t| + 1 {
      var added := t1[|t|].localName;
      assert IsExportLocalCopy(added);
      forall i | 0 <= i < |t|
        ensures Content(t1[i].localName) != Content(added)
      {
        assert !Equals(name, t[i].localName);
      }
    }
  }

  /** A valid table has at most one entry per export, so with one export the
      100-entry array can never overflow. */
  lemma ValidTableFitsArray(t: HandleTable)
    requires ValidTable(t)
    ensures |t| <= |EXPORTS| <= NAME_HANDLE_CAPACITY
  {
    var names := seq(|t|, i requires 0 <= i < |t| => Content(t[i].localName));
    var exported := seq(|EXPORTS|, k requires 0 <= k < |EXPORTS| => Content(EXPORTS[k].localName));
    DistinctElements(names);
    ElementsBound(exported);
    assert (set x | x in names) <= (set x | x in exported) by {
      forall x | x in names
        ensures x in exported
      {
        var i :| 0 <= i < |names| && names[i] == x;
        assert IsExportLocalCopy(t[i].localName);
        var k :| 0 <= k < |EXPORTS| && Content(t[i].localName) == Content(EXPORTS[k].localName);
        assert exported[k] == x;
      }
    }
    SubsetCardinality(set x | x in names, set x | x in exported);
  }

  lemma SubsetCardinality<T>(a: set<T>, b: set<T>)
    requires a <= b
    ensures |a| <= |b|
  {
    assert b == a + (b - a);
    assert a * (b - a) == {};
  }

  /** A sequence without repetitions has as many elements as entries. */
  lemma {:induction false} DistinctElements<T>(s: seq<T>)
    requires forall i, j :: 0 <= i < j < |s| ==> s[i] != s[j]
    ensures |set x | x in s| == |s|
  {
    if |s| > 0 {
      var init := s[..|s| - 1];
      DistinctElements(init);
      assert (set x | x in s) == (set x | x in init) + {s[|s| - 1]};
      assert s[|s| - 1] !in init;
    }
  }

  lemma {:induction false} ElementsBound<T>(s: seq<T>)
    ensures |set x | x in s| <= |s|
  {
    if |s| > 0 {
      var init := s[..|s| - 1];
      ElementsBound(init);
      assert (set x | x in s) == (set x | x in init) + {s[|s| - 1]};
    }
  }

  /* ---------------------------------------------------------------------
     MNT
     --------------------------------------------------------------------- */

  /** Index of the first export whose name Equals `path`, or |EXPORTS|. */
  function MatchExport(path: String, from: nat): (i: nat)
    requires from <= |EXPORTS|
    requires forall k :: 0 <= k < |EXPORTS| && path.length == EXPORTS[k].exportName.length ==> Readable(path)
    ensures from <= i <= |EXPORTS|
    ensures i < |EXPORTS| ==> Equals(path, EXPORTS[i].exportName)
    ensures forall k :: from <= k < i ==> !Equals(path, EXPORTS[k].exportName)
    decreases |EXPORTS| - from
  {
    if from == |EXPORTS| then |EXPORTS|
    else if Equals(path, EXPORTS[from].exportName) then from
    else MatchExport(path, from + 1)
  }

  /** MNT: the reply words after the accept status. A path that is no export
      gives [NOENT]; an export gives [OK, 4, handle, AUTH_NULL] with the handle
      of its local name. The path only has to be readable when its declared
      length could match an export name. */
  function MNT(t: HandleTable, path: String): (r: (seq<Uint32>, HandleTable))
    requires ValidTable(t)
    requires forall k :: 0 <= k < |EXPORTS| && path.length == EXPORTS[k].exportName.length ==> Readable(path)
    ensures ValidTable(r.1) && t <= r.1
    ensures (forall k :: 0 <= k < |EXPORTS| ==> !Equals(path, EXPORTS[k].exportName)) <==>
      r.0 == [MOUNT3_ERROR_NOENT] && r.1 == t
    ensures |r.0| == 1 || |r.0| == 4
    ensures |r.0| == 4 ==>
      && r.0[0] == MOUNT3_STATUS_OK && r.0[1] == 4 && r.0[3] == RPC_AUTH_FLAVOR_NULL
      && r.0[2] < |r.1|
      && (exists k :: 0 <= k < |EXPORTS| && Equals(path, EXPORTS[k].exportName)
           && Content(r.1[r.0[2]].localName) == Content(EXPORTS[k].localName))
  {
    var matched := MatchExport(path, 0);
    if matched == |EXPORTS| then
      ([MOUNT3_ERROR_NOENT], t)
    else
      GetOrCreateHandleKeepsValid(t, matched);
      ValidTableFitsArray(t);
      var (handle, t1) := GetOrCreateHandle(t, EXPORTS[matched].localName);
      ValidTableFitsArray(t1);
      ([MOUNT3_STATUS_OK, 4, handle, RPC_AUTH_FLAVOR_NULL], t1)
  }

  /** Mounting the same export twice gives the same handle and the second
      mount leaves the table unchanged. */
  lemma MountTwiceSameHandle(t: HandleTable, path: String)
    requires ValidTable(t)
    requires forall k :: 0 <= k < |EXPORTS| && path.length == EXPORTS[k].exportName.length ==> Readable(path)
    ensures var (w1, t1) := MNT(t, path);
      var (w2, t2) := MNT(t1, path);
      w2 == w1 && t2 == t1
  {
    var matched := MatchExport(path, 0);
    if matched < |EXPORTS| {
      GetOrCreateHandleIdempotent(t, EXPORTS[matched].localName);
    }
  }

  /* ---------------------------------------------------------------------
     Handle lookup
     --------------------------------------------------------------------- */

  /** TryLookupHandle: the local name stored under a 4-byte handle, or the NULL
      string when the handle is not 4 bytes long or is past the table's end. */
  function TryLookupHandle(t: HandleTable, handle: seq<Byte>, handleLength: Uint32): (name: String)
    requires ValidTable(t)
    requires handleLength == 4 ==> |handle| >= 4
    ensures name.ptr.None? <==> handleLength != 4 || ParseUint(handle) >= |t|
    ensures name.ptr.None? ==> name == NULL_STRING
    ensures name.ptr.Some? ==> name == t[ParseUint(handle)].localName
  {
    if handleLength != 4 then NULL_STRING
    else
      var index := ParseUint(handle);
      if index >= |t| then NULL_STRING
      else t[index].localName
  }

  /** A handle MNT handed out resolves, in the table MNT returned, to the
      local name of the export that was mounted. */
  lemma MountedHandleResolves(t: HandleTable, path: String)
    requires ValidTable(t)
    requires forall k :: 0 <= k < |EXPORTS| && path.length == EXPORTS[k].exportName.length ==> Readable(path)
    requires |MNT(t, path).0| == 4
    ensures var (w, t1) := MNT(t, path);
      var name := TryLookupHandle(t1, BigEndian(w[2]), 4);
      name.ptr.Some? && Content(name) == Content(EXPORTS[0].localName)
  {
    var (w, t1) := MNT(t, path);
    ParseAfterAppend(w[2]);
  }
}
