/** Writing restored files: blobs of a file arrive in any order, more than once and from several workers at
    a time.  The first write creates the file, open files are shared through a reference count, and a
    sparse file is written without its zeros. */
module FilesWriter {
  import opened Common

  /** A partialFile. */
  datatype Handle = Handle(users: nat, sparse: bool)

  /** One path: its entry in the table of open files and its contents on disk. */
  datatype View = View(handle: Option<Handle>, content: Option<seq<byte>>)

  // ---------------------------------------------------------------- contents

  function Zeros(n: nat): (r: seq<byte>) {
    seq(n, _ => 0)
  }

  /** A positioned write: the file grows, with zeros in between, when it is too short. */
  function Patch(c: seq<byte>, p: seq<byte>, offset: nat): (r: seq<byte>) {
    if p == [] then c
    else
      var padded := if |c| < offset then c + Zeros(offset - |c|) else c;
      padded[..offset] + p + (if offset + |p| < |padded| then padded[offset + |p|..] else [])
  }

  function PatchedByte(c: seq<byte>, p: seq<byte>, offset: nat, k: nat): (r: byte) {
    if offset <= k < offset + |p| then p[k - offset] else if k < |c| then c[k] else 0
  }

  lemma PatchAt(c: seq<byte>, p: seq<byte>, offset: nat)
    requires p != []
    ensures var r := Patch(c, p, offset);
      && |r| == (if |c| < offset + |p| then offset + |p| else |c|)
      && forall k :: 0 <= k < |r| ==> r[k] == PatchedByte(c, p, offset, k)
  {
  }

  predicate AllZero(p: seq<byte>) {
    forall k :: 0 <= k < |p| ==> p[k] == 0
  }

  /** The longest prefix of zeros ends at n. */
  predicate IsZeroPrefix(p: seq<byte>, n: nat) {
    n <= |p| && AllZero(p[..n]) && (n < |p| ==> p[n] != 0)
  }

  function ZeroPrefix(p: seq<byte>): (n: nat)
    ensures n <= |p|
  {
    if p == [] || p[0] != 0 then 0 else 1 + ZeroPrefix(p[1..])
  }

  lemma {:induction false} ZeroPrefixIs(p: seq<byte>, n: nat)
    ensures IsZeroPrefix(p, n) <==> n == ZeroPrefix(p)
  {
    if p != [] && p[0] == 0 {
      if n > 0 {
        ZeroPrefixIs(p[1..], n - 1);
        if n <= |p| { assert p[..n] == [p[0]] + p[1..][..n - 1]; }
      }
    } else {
      assert p != [] && 0 < n <= |p| ==> p[..n][0] != 0;
    }
  }

  /** ZeroPrefixLen: blocks of 1024 zeros first, single bytes afterwards. */
  method ZeroPrefixLen(p0: seq<byte>) returns (n: nat)
    ensures IsZeroPrefix(p0, n) && n == ZeroPrefix(p0)
  {
    n := 0;
    var p := p0;
    var zeros := Zeros(1024);
    while |p| >= |zeros| && p[..|zeros|] == zeros
      invariant n <= |p0| && p == p0[n..] && AllZero(p0[..n])
      decreases |p|
    {
      assert p0[..n + 1024] == p0[..n] + p[..1024];
      p := p[|zeros|..];
      n := n + |zeros|;
    }
    while |p| > 0 && p[0] == 0
      invariant n <= |p0| && p == p0[n..] && AllZero(p0[..n])
      decreases |p|
    {
      assert p0[..n + 1] == p0[..n] + [p[0]];
      p := p[1..];
      n := n + 1;
    }
    ZeroPrefixIs(p0, n);
  }

  /** partialFile.WriteAt: what the file holds afterwards. */
  function Put(c: seq<byte>, sparse: bool, p: seq<byte>, offset: nat): (r: seq<byte>) {
    if sparse then Patch(c, p[ZeroPrefix(p)..], offset + ZeroPrefix(p)) else Patch(c, p, offset)
  }

  /** Skipping the zeros makes no difference exactly when the file already has zeros there and the write
      need not make it longer just for zeros. */
  lemma SparseIsPlain(c: seq<byte>, p: seq<byte>, offset: nat)
    ensures Put(c, true, p, offset) == Put(c, false, p, offset) <==>
      && (forall k :: offset <= k < offset + ZeroPrefix(p) && k < |c| ==> c[k] == 0)
      && (p != [] && ZeroPrefix(p) == |p| ==> offset + |p| <= |c|)
  {
    hide Patch, ZeroPrefix, PatchedByte;
    var z := ZeroPrefix(p);
    SkippedZeros(p);
    if p == [] {
      assert p[z..] == p;
    } else {
      PatchAt(c, p, offset);
      var plain := Patch(c, p, offset);
      if z < |p| {
        PatchAt(c, p[z..], offset + z);
        SkipSame(c, p, offset, z, Patch(c, p[z..], offset + z), plain);
      } else {
        EmptyPatch(c, p[z..], offset + z);
        AllSkipped(c, p, offset, plain);
      }
    }
  }

  lemma SkippedZeros(p: seq<byte>)
    ensures forall k :: 0 <= k < ZeroPrefix(p) ==> p[k] == 0
  {
    var z := ZeroPrefix(p);
    ZeroPrefixIs(p, z);
    assert forall k :: 0 <= k < z ==> p[..z][k] == p[k] == 0;
  }

  lemma EmptyPatch(c: seq<byte>, p: seq<byte>, offset: nat)
    requires p == []
    ensures Patch(c, p, offset) == c
  {
  }

  lemma SkipSame(c: seq<byte>, p: seq<byte>, offset: nat, z: nat, sparse: seq<byte>, plain: seq<byte>)
    requires z < |p| && forall k :: 0 <= k < z ==> p[k] == 0
    requires |sparse| == |plain| == if |c| < offset + |p| then offset + |p| else |c|
    requires forall k :: 0 <= k < |sparse| ==> sparse[k] == PatchedByte(c, p[z..], offset + z, k)
    requires forall k :: 0 <= k < |plain| ==> plain[k] == PatchedByte(c, p, offset, k)
    ensures sparse == plain <==> forall k :: offset <= k < offset + z && k < |c| ==> c[k] == 0
  {
    forall k | 0 <= k < |plain|
      ensures sparse[k] == plain[k] <==> (offset <= k < offset + z && k < |c| ==> c[k] == 0)
    {
      if offset + z <= k < offset + |p| { assert p[z..][k - offset - z] == p[k - offset]; }
    }
  }

  lemma AllSkipped(c: seq<byte>, p: seq<byte>, offset: nat, plain: seq<byte>)
    requires p != [] && forall k :: 0 <= k < |p| ==> p[k] == 0
    requires |plain| == if |c| < offset + |p| then offset + |p| else |c|
    requires forall k :: 0 <= k < |plain| ==> plain[k] == PatchedByte(c, p, offset, k)
    ensures c == plain <==>
      && (forall k :: offset <= k < offset + |p| && k < |c| ==> c[k] == 0)
      && offset + |p| <= |c|
  {
  }

  // ---------------------------------------------------------------- open files

  /** acquireWriter: an open file is shared as it is; otherwise the file is created and given its size, or,
      without a size, opened, which fails when it does not exist.  Preallocation may fail without harm. */
  function Acquired(v: View, createSize: int, sparse: bool, prealloc: bool): (r: Option<View>) {
    if v.handle.Some? then
      Some(v.(handle := Some(v.handle.value.(users := v.handle.value.users + 1))))
    else if createSize >= 0 then
      Some(View(Some(Handle(1, sparse)), Some(if sparse || prealloc then Zeros(createSize) else [])))
    else if v.content.Some? then
      Some(v.(handle := Some(Handle(1, sparse))))
    else None
  }

  datatype Attempt = Attempt(ok: bool, view: View)

  /** acquireWriter with its failures. */
  function AcquiredOr(v: View, createSize: int, sparse: bool, prealloc: bool, broken: bool): (r: Attempt) {
    if broken && v.handle.None? && createSize >= 0 &&
      sparse then Attempt(false, View(Some(Handle(1, sparse)), Some([])))
    else
      match Acquired(v, createSize, sparse, prealloc)
      case Some(v') => Attempt(true, v')
      case None => Attempt(false, v)
  }

  /** releaseWriter: the last user closes the file. */
  function Released(v: View): (r: View)
    requires v.handle.Some?
  {
    v.(handle := if v.handle.value.users <= 1 then None
                 else Some(v.handle.value.(users := v.handle.value.users - 1)))
  }

  function Written(v: View, p: seq<byte>, offset: nat): (r: View)
    requires v.handle.Some? && v.content.Some?
  {
    v.(content := Some(Put(v.content.value, v.handle.value.sparse, p, offset)))
  }

  class Writer {
    const hash: string -> nat
    var buckets: seq<map<string, Handle>>
    var disk: map<string, seq<byte>>

    constructor (hash: string -> nat, count: nat, disk: map<string, seq<byte>>)
      requires count > 0
      ensures this.hash == hash && |buckets| == count && this.disk == disk
      ensures forall path :: Of(path).handle.None?
    {
      this.hash, this.disk := hash, disk;
      buckets := seq(count, _ => map[]);
    }

    function Bucket(path: string): (b: nat)
      requires |buckets| > 0
      reads this
      ensures b < |buckets|
    {
      hash(path) % |buckets|
    }

    function Of(path: string): (v: View)
      requires |buckets| > 0
      reads this
    {
      var files := buckets[Bucket(path)];
      View(if path in files then Some(files[path]) else None, if path in disk then Some(disk[path]) else None)
    }

    /** With `broken`, the new sparse file cannot be given its size: the call fails, but its entry in the
        table stays. */
    method AcquireWriter(path: string, createSize: int, sparse: bool, prealloc: bool, broken: bool)
      returns (ok: bool)
      requires |buckets| > 0
      modifies this
      ensures |buckets| == old(|buckets|)
      ensures ok <==> AcquiredOr(old(Of(path)), createSize, sparse, prealloc, broken).ok
      ensures Of(path) == AcquiredOr(old(Of(path)), createSize, sparse, prealloc, broken).view
      ensures forall other :: other != path ==> Of(other) == old(Of(other))
    {
      var b := Bucket(path);
      var files := buckets[b];
      if path in files {
        buckets := buckets[b := files[path := files[path].(users := files[path].users + 1)]];
        return true;
      }
      if createSize < 0 && path !in disk {
        return false;
      }
      if createSize >= 0 {
        disk := disk[path := []];
      }
      buckets := buckets[b := files[path := Handle(1, sparse)]];
      if createSize >= 0 {
        if sparse {
          if broken { return false; }
          disk := disk[path := Zeros(createSize)];
        } else if prealloc {
          disk := disk[path := Zeros(createSize)];
        }
      }
      return true;
    }

    method ReleaseWriter(path: string)
      requires |buckets| > 0 && Of(path).handle.Some?
      modifies this
      ensures |buckets| == old(|buckets|)
      ensures Of(path) == Released(old(Of(path)))
      ensures forall other :: other != path ==> Of(other) == old(Of(other))
    {
      var b := Bucket(path);
      var files := buckets[b];
      if files[path].users <= 1 {
        buckets := buckets[b := files - {path}];
      } else {
        buckets := buckets[b := files[path := files[path].(users := files[path].users - 1)]];
      }
    }

    method WriteAt(path: string, p: seq<byte>, offset: nat)
      requires |buckets| > 0 && Of(path).handle.Some? && Of(path).content.Some?
      modifies this
      ensures |buckets| == old(|buckets|)
      ensures Of(path) == Written(old(Of(path)), p, offset)
      ensures forall other :: other != path ==> Of(other) == old(Of(other))
    {
      hide Patch;
      if !buckets[Bucket(path)][path].sparse {
        disk := disk[path := Patch(disk[path], p, offset)];
        return;
      }
      var skipped := ZeroPrefixLen(p);
      var rest := p[skipped..];
      if |rest| == 0 {
        EmptyPatch(disk[path], rest, offset + skipped);
      } else {
        disk := disk[path := Patch(disk[path], rest, offset + skipped)];
      }
    }

    /** writeToFile, with nobody else in between. */
    method WriteToFile(path: string, blob: seq<byte>, offset: nat, createSize: int, sparse: bool, prealloc: bool,
                       broken: bool)
      returns (ok: bool)
      requires |buckets| > 0
      requires Of(path).handle.Some? ==> Of(path).content.Some? && Of(path).handle.value.users > 0
      modifies this
      ensures |buckets| == old(|buckets|)
      ensures
        var r := AcquiredOr(old(Of(path)), createSize, sparse, prealloc, broken);
        && ok == r.ok
        && Of(path) == if ok then Released(Written(r.view, blob, offset)) else r.view
      ensures !broken ==> Of(path).handle == old(Of(path)).handle
      ensures forall other :: other != path ==> Of(other) == old(Of(other))
    {
      hide Put;
      ok := AcquireWriter(path, createSize, sparse, prealloc, broken);
      if ok {
        WriteAt(path, blob, offset);
        ReleaseWriter(path);
      }
    }
  }
}
