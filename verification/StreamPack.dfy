/** Streaming blobs out of a pack file: the blobs are sorted by offset, split into parts wherever more
    than 4 MiB would be read in vain, and each part is loaded as one range, with retries. */
module StreamPack {
  import opened Common

  datatype Blob = Blob(id: nat, offset: nat, length: nat)

  /** One call of the callback: the blob and the bytes of its ciphertext. */
  datatype Delivery = Delivery(blob: Blob, data: seq<byte>)

  /** The blobs with index lo <= i < hi, loaded as one range of the file. */
  datatype Part = Part(lo: nat, hi: nat)

  const MAX_UNUSED_RANGE: nat := 4 * 1024 * 1024
  const NONCE_SIZE: nat := 16

  function End(b: Blob): (r: nat) {
    b.offset + b.length
  }

  predicate SortedByOffset(bs: seq<Blob>) {
    forall i, j :: 0 <= i < j < |bs| ==> bs[i].offset <= bs[j].offset
  }

  predicate NoOverlap(bs: seq<Blob>) {
    forall i :: 0 < i < |bs| ==> bs[i - 1].offset + bs[i - 1].length <= bs[i].offset
  }

  predicate LongEnough(bs: seq<Blob>) {
    forall i :: 0 <= i < |bs| ==> bs[i].length > 16
  }

  /** The bytes of the blob in the pack file. */
  function Contents(file: seq<byte>, b: Blob): (r: seq<byte>) {
    if b.offset + b.length <= |file| then file[b.offset..b.offset + b.length] else []
  }

  predicate IsBlobData(file: seq<byte>, d: Delivery) {
    d.blob.offset + d.blob.length <= |file| && d.data == Contents(file, d.blob) && d.blob.length > 16
  }

  predicate Delivered(file: seq<byte>, log: seq<Delivery>, b: Blob) {
    b.offset + b.length <= |file| && Delivery(b, Contents(file, b)) in log
  }

  /** What a reader positioned at `start` yields before it ends or fails: some bytes of the file. */
  predicate ReadsFrom(file: seq<byte>, start: nat, data: seq<byte>) {
    data == [] || (start + |data| <= |file| && data == file[start..start + |data|])
  }

  lemma {:induction false} OffsetsIncrease(bs: seq<Blob>, i: nat, j: nat)
    requires NoOverlap(bs) && i < j < |bs|
    ensures End(bs[i]) <= bs[j].offset
  {
    if i + 1 < j { OffsetsIncrease(bs, i, j - 1); }
  }

  /** sort.Slice with an order that only looks at the offset: blobs with equal offsets may come out in any
      order. */
  method SortBlobs(blobs: seq<Blob>) returns (sorted: seq<Blob>)
    ensures multiset(sorted) == multiset(blobs)
    ensures SortedByOffset(sorted)
  {
    sorted := [];
    var rest := blobs;
    while rest != []
      invariant multiset(sorted) + multiset(rest) == multiset(blobs)
      invariant SortedByOffset(sorted) && Below(sorted, rest)
      decreases |rest|
    {
      ghost var least := LeastOffset(rest);
      var k: nat :| k < |rest| && IsLeast(rest, k);
      MoveLeast(sorted, rest, k);
      sorted, rest := sorted + [rest[k]], rest[..k] + rest[k + 1..];
    }
  }

  ghost predicate Below(xs: seq<Blob>, ys: seq<Blob>) {
    forall i, j :: 0 <= i < |xs| && 0 <= j < |ys| ==> xs[i].offset <= ys[j].offset
  }

  lemma MoveLeast(sorted: seq<Blob>, rest: seq<Blob>, k: nat)
    requires SortedByOffset(sorted) && Below(sorted, rest) && IsLeast(rest, k)
    ensures var sorted', rest' := sorted + [rest[k]], rest[..k] + rest[k + 1..];
      && SortedByOffset(sorted') && Below(sorted', rest')
      && multiset(sorted') + multiset(rest') == multiset(sorted) + multiset(rest)
  {
    var sorted', rest' := sorted + [rest[k]], rest[..k] + rest[k + 1..];
    assert rest == rest[..k] + [rest[k]] + rest[k + 1..];
    assert forall j :: 0 <= j < |rest'| ==> rest'[j] == rest[if j < k then j else j + 1];
    forall i, j | 0 <= i < |sorted'| && 0 <= j < |rest'| ensures sorted'[i].offset <= rest'[j].offset {
      var l := if j < k then j else j + 1;
      assert rest[k].offset <= rest[l].offset;
    }
  }

  predicate IsLeast(bs: seq<Blob>, k: nat) {
    k < |bs| && forall j :: 0 <= j < |bs| ==> bs[k].offset <= bs[j].offset
  }

  lemma {:induction false} LeastOffset(bs: seq<Blob>) returns (k: nat)
    requires bs != []
    ensures IsLeast(bs, k)
  {
    k := 0;
    if |bs| > 1 {
      var l := LeastOffset(bs[..|bs| - 1]);
      k := if bs[l].offset <= bs[|bs| - 1].offset then l else |bs| - 1;
      assert forall j :: 0 <= j < |bs| - 1 ==> bs[l].offset <= bs[..|bs| - 1][j].offset == bs[j].offset;
    }
  }

  lemma ReadIsContents(file: seq<byte>, start: nat, data: seq<byte>, b: Blob)
    requires ReadsFrom(file, start, data) && start <= b.offset && End(b) - start <= |data| && b.length > NONCE_SIZE
    ensures IsBlobData(file, Delivery(b, data[b.offset - start..End(b) - start]))
  {
    SliceOfSlice(file, start, |data|, b.offset - start, End(b) - start);
  }

  lemma SliceOfSlice(file: seq<byte>, start: nat, n: nat, lo: nat, hi: nat)
    requires start + n <= |file| && lo <= hi <= n
    ensures file[start..start + n][lo..hi] == file[start + lo..start + hi]
  {
    var all, part := file[start..start + n], file[start + lo..start + hi];
    assert all[lo..hi] == part by {
      forall k | 0 <= k < hi - lo ensures all[lo..hi][k] == part[k] {
        assert all[lo + k] == file[start + (lo + k)] == part[k];
      }
    }
  }

  /** The blob can be read when its turn comes. */
  predicate Good(bs: seq<Blob>, i: nat, avail: nat, accepts: Blob -> bool)
    requires i < |bs|
  {
    && (i > 0 ==> End(bs[i - 1]) <= bs[i].offset)
    && End(bs[i]) - bs[0].offset <= avail
    && bs[i].length > NONCE_SIZE
    && accepts(bs[i])
  }

  lemma GoodNow(bs: seq<Blob>, i: nat, avail: nat, accepts: Blob -> bool, currentBlobEnd: nat)
    requires i < |bs| && currentBlobEnd == if i == 0 then bs[0].offset else End(bs[i - 1])
    ensures Good(bs, i, avail, accepts) <==>
      && currentBlobEnd <= bs[i].offset && End(bs[i]) - bs[0].offset <= avail && bs[i].length > NONCE_SIZE
      && accepts(bs[i])
  {
  }

  lemma AllGood(bs: seq<Blob>, avail: nat, accepts: Blob -> bool)
    requires bs != []
    ensures (forall i :: 0 <= i < |bs| ==> Good(bs, i, avail, accepts)) <==>
      && NoOverlap(bs) && LongEnough(bs)
      && End(bs[|bs| - 1]) - bs[0].offset <= avail
      && (forall i :: 0 <= i < |bs| ==> accepts(bs[i]))
  {
    if NoOverlap(bs) {
      forall i | 0 <= i < |bs| - 1 ensures End(bs[i]) <= End(bs[|bs| - 1]) {
        OffsetsIncrease(bs, i, |bs| - 1);
      }
    }
    if forall i :: 0 <= i < |bs| ==> Good(bs, i, avail, accepts) {
      forall i: nat | i < |bs|
        ensures (i > 0 ==> End(bs[i - 1]) <= bs[i].offset) && bs[i].length > NONCE_SIZE && accepts(bs[i])
      {
        assert Good(bs, i, avail, accepts);
      }
      assert Good(bs, |bs| - 1, avail, accepts);
    }
  }

  /** Skips to the next blob and reads it; fails on an overlap, at the end of the data, and for a blob that
      is too short to hold anything. */
  method ReadOne(file: seq<byte>, start: nat, data: seq<byte>, currentBlobEnd: nat, entry: Blob)
    returns (buf: seq<byte>, ok: bool)
    requires ReadsFrom(file, start, data) && start <= currentBlobEnd
    ensures ok <==>
      currentBlobEnd <= entry.offset && End(entry) - start <= |data| && entry.length > NONCE_SIZE
    ensures ok ==> IsBlobData(file, Delivery(entry, buf))
  {
    if entry.offset < currentBlobEnd {
      return [], false;
    }
    if End(entry) - start > |data| {
      // Discard or ReadFull runs into the end of the data
      return [], false;
    }
    buf := data[entry.offset - start..End(entry) - start];
    if entry.length <= NONCE_SIZE {
      return buf, false;
    }
    ReadIsContents(file, start, data, entry);
    return buf, true;
  }

  /** One pass over the bytes of a range: skip to the next blob, read it, hand it to the callback.  The
      callback is represented by whether it accepts a blob. */
  method ReadBlobs(file: seq<byte>, bs: seq<Blob>, data: seq<byte>, accepts: Blob -> bool)
    returns (log: seq<Delivery>, ok: bool, permanent: bool)
    requires bs != [] && ReadsFrom(file, bs[0].offset, data)
    ensures |log| <= |bs| && forall i :: 0 <= i < |log| ==> log[i].blob == bs[i] && IsBlobData(file, log[i])
    ensures ok <==>
      && NoOverlap(bs) && LongEnough(bs)
      && End(bs[|bs| - 1]) - bs[0].offset <= |data|
      && (forall i :: 0 <= i < |bs| ==> accepts(bs[i]))
    ensures ok ==> |log| == |bs|
    ensures permanent <==> (exists d :: d in log && !accepts(d.blob))
    ensures permanent ==> !ok
  {
    hide NoOverlap, LongEnough, IsBlobData, ReadsFrom, Contents, Good;
    AllGood(bs, |data|, accepts);
    log := [];
    var start := bs[0].offset;
    var currentBlobEnd := start;
    var i := 0;
    while i < |bs|
      invariant 0 <= i == |log| <= |bs|
      invariant forall k :: 0 <= k < i ==> log[k].blob == bs[k] && IsBlobData(file, log[k])
      invariant forall k :: 0 <= k < i ==> Good(bs, k, |data|, accepts)
      invariant forall d :: d in log ==> accepts(d.blob)
      invariant currentBlobEnd == (if i == 0 then start else End(bs[i - 1])) && start <= currentBlobEnd
    {
      GoodNow(bs, i, |data|, accepts, currentBlobEnd);
      var buf, readable := ReadOne(file, start, data, currentBlobEnd, bs[i]);
      if !readable {
        assert !Good(bs, i, |data|, accepts);
        return log, false, false;
      }
      currentBlobEnd := End(bs[i]);
      log := log + [Delivery(bs[i], buf)];
      if !accepts(bs[i]) {
        assert log[i].blob == bs[i] && !Good(bs, i, |data|, accepts);
        return log, false, true;
      }
      i := i + 1;
    }
    return log, true, false;
  }

  /** The parts that have been loaded so far: consecutive, from the first blob on, with a cut exactly
      before each blob that is more than 4 MiB behind its predecessor. */
  predicate CutAtGaps(bs: seq<Blob>, parts: seq<Part>) {
    && (forall k :: 0 <= k < |parts| ==> parts[k].lo < parts[k].hi <= |bs|)
    && (forall k :: 0 <= k < |parts| ==> parts[k].lo == if k == 0 then 0 else parts[k - 1].hi)
    && (forall k :: 0 < k < |parts| ==> Gap(bs, parts[k].lo))
    && (forall k, i :: 0 <= k < |parts| && parts[k].lo < i < parts[k].hi ==> !Gap(bs, i))
  }

  predicate Gap(bs: seq<Blob>, i: int) {
    0 < i < |bs| && bs[i].offset - (bs[i - 1].offset + bs[i - 1].length) > 4 * 1024 * 1024
  }

  function LastHi(parts: seq<Part>): (r: nat) {
    if parts == [] then 0 else parts[|parts| - 1].hi
  }

  /** Only blobs of the list have been handed out, with their bytes. */
  predicate OnlyFrom(file: seq<byte>, log: seq<Delivery>, bs: seq<Blob>) {
    forall d :: d in log ==> d.blob in bs && IsBlobData(file, d)
  }

  /** Every blob of the list has been handed out and accepted. */
  predicate AllFrom(file: seq<byte>, log: seq<Delivery>, bs: seq<Blob>, accepts: Blob -> bool) {
    forall b :: b in bs ==> accepts(b) && Delivered(file, log, b)
  }

  /** What the backend's reader yields on the n-th try for the given start and length. */
  type Loader = (nat, nat, nat) -> seq<byte>

  ghost predicate Faithful(file: seq<byte>, load: Loader) {
    forall n, start, length :: ReadsFrom(file, start, load(n, start, length))
  }

  /** Within the number of tries, every range inside the file is once delivered in full. */
  ghost predicate Reliable(file: seq<byte>, load: Loader, tries: nat) {
    forall start: nat, length: nat :: start + length <= |file| ==> InFull(load, tries, start, length)
  }

  ghost predicate InFull(load: Loader, tries: nat, start: nat, length: nat) {
    exists n: nat :: n < tries && |load(n, start, length)| >= length
  }

  predicate Readable(file: seq<byte>, bs: seq<Blob>, accepts: Blob -> bool) {
    forall b :: b in bs ==> b.length > 16 && b.offset + b.length <= |file| && accepts(b)
  }

  /** streamPackPart: the range from the first blob to the end of the last one is requested from the
      backend, which starts again after an error that is not permanent. */
  method StreamPackPart(file: seq<byte>, bs: seq<Blob>, accepts: Blob -> bool, load: Loader, tries: nat)
    returns (log: seq<Delivery>, ok: bool)
    requires bs != [] && bs[0].offset <= End(bs[|bs| - 1]) && Faithful(file, load)
    ensures OnlyFrom(file, log, bs)
    ensures ok ==> NoOverlap(bs) && AllFrom(file, log, bs, accepts)
    ensures Reliable(file, load, tries) && NoOverlap(bs) && Readable(file, bs, accepts) ==> ok
  {
    hide NoOverlap, Reliable, LongEnough, OnlyFrom, AllFrom, IsBlobData;
    NothingLoaded(file, bs, accepts);
    log, ok := [], false;
    var start := bs[0].offset;
    var length := End(bs[|bs| - 1]) - start;
    var n := 0;
    while n < tries
      invariant n <= tries && OnlyFrom(file, log, bs)
      invariant NoOverlap(bs) && Readable(file, bs, accepts) ==>
        forall k: nat :: k < n ==> |load(k, start, length)| < length
      decreases tries - n
    {
      var data := load(n, start, length);
      var more, done, permanent := ReadBlobs(file, bs, data, accepts);
      LogAdds(file, log, more, bs, accepts);
      log := log + more;
      if done { return log, true; }
      if Readable(file, bs, accepts) { ReadableLong(file, bs, accepts); }
      if permanent { return log, false; }
      n := n + 1;
    }
    if NoOverlap(bs) && Readable(file, bs, accepts) {
      assert bs[|bs| - 1] in bs;
      NotReliable(file, load, tries, start, length);
    }
  }

  lemma NotReliable(file: seq<byte>, load: Loader, tries: nat, start: nat, length: nat)
    requires start + length <= |file|
    requires forall k: nat :: k < tries ==> |load(k, start, length)| < length
    ensures !Reliable(file, load, tries)
  {
    assert !InFull(load, tries, start, length);
  }

  lemma ReadableLong(file: seq<byte>, bs: seq<Blob>, accepts: Blob -> bool)
    requires Readable(file, bs, accepts)
    ensures LongEnough(bs)
  {
  }

  lemma LogAdds(file: seq<byte>, log: seq<Delivery>, more: seq<Delivery>, bs: seq<Blob>, accepts: Blob -> bool)
    requires OnlyFrom(file, log, bs) && |more| <= |bs|
    requires forall i :: 0 <= i < |more| ==> more[i].blob == bs[i] && IsBlobData(file, more[i])
    ensures OnlyFrom(file, log + more, bs)
    ensures |more| == |bs| && (forall i :: 0 <= i < |bs| ==> accepts(bs[i])) ==> AllFrom(file, log + more, bs, accepts)
  {
    if |more| == |bs| && forall i :: 0 <= i < |bs| ==> accepts(bs[i]) {
      forall b | b in bs ensures accepts(b) && Delivered(file, log + more, b) {
        var k :| 0 <= k < |bs| && bs[k] == b;
        assert more[k] == Delivery(b, Contents(file, b));
      }
    }
  }

  /** Loads the blobs lo <= i < hi as one range, after the parts before them. */
  method LoadPart(file: seq<byte>, bs: seq<Blob>, accepts: Blob -> bool, load: Loader, tries: nat, lo: nat, hi: nat,
                  log0: seq<Delivery>, parts0: seq<Part>)
    returns (log: seq<Delivery>, parts: seq<Part>, ok: bool)
    requires Faithful(file, load) && lo < hi <= |bs| && NoOverlap(bs[..hi])
    requires CutAtGaps(bs, parts0) && LastHi(parts0) == lo && (lo > 0 ==> Gap(bs, lo))
    requires forall k :: lo < k < hi ==> !Gap(bs, k)
    requires OnlyFrom(file, log0, bs) && AllFrom(file, log0, bs[..lo], accepts)
    ensures CutAtGaps(bs, parts) && LastHi(parts) == hi && OnlyFrom(file, log, bs)
    ensures ok ==> AllFrom(file, log, bs[..hi], accepts)
    ensures Reliable(file, load, tries) && Readable(file, bs, accepts) ==> ok
  {
    hide CutAtGaps, OnlyFrom, AllFrom, NoOverlap, Readable, Reliable, Faithful, Gap;
    NoOverlapSlice(bs, lo, hi);
    ReadableSlice(file, bs, lo, hi, accepts);
    var more;
    more, ok := StreamPackPart(file, bs[lo..hi], accepts, load, tries);
    PartAdds(file, log0, more, bs, lo, hi, accepts);
    log, parts := log0 + more, Appended(bs, parts0, lo, hi);
  }

  /** StreamPack.  Whatever happens, only blobs from the list are handed out, with exactly their bytes of
      the pack file, and the requested ranges are cut exactly at the gaps of more than 4 MiB.  On success
      every blob of the list has been handed out, the blobs do not overlap and the ranges cover all of
      them. */
  method StreamBlobs(file: seq<byte>, blobs: seq<Blob>, accepts: Blob -> bool, load: Loader, tries: nat)
    returns (sorted: seq<Blob>, log: seq<Delivery>, parts: seq<Part>, ok: bool)
    requires Faithful(file, load)
    ensures multiset(sorted) == multiset(blobs) && SortedByOffset(sorted)
    ensures OnlyFrom(file, log, blobs)
    ensures ok ==> AllFrom(file, log, blobs, accepts)
    ensures ok ==> NoOverlap(sorted) && LastHi(parts) == |blobs|
    ensures ok ==> Readable(file, blobs, accepts)
    ensures Reliable(file, load, tries) && NoOverlap(sorted) && Readable(file, blobs, accepts) ==> ok
    ensures CutAtGaps(sorted, parts)
    ensures blobs == [] ==> ok && log == [] && parts == []
  {
    hide CutAtGaps, OnlyFrom, AllFrom, SortedByOffset, NoOverlap, Readable, Reliable, Faithful;
    log, parts := [], [];
    NothingLoaded(file, blobs, accepts);
    if blobs == [] {
      return [], log, parts, true;
    }
    var bs := SortBlobs(blobs);
    sorted := bs;
    SameBlobs(bs, blobs);
    ReadableSame(file, bs, blobs, accepts);
    NothingLoaded(file, bs, accepts);
    var lowerIdx, lastPos := 0, bs[0].offset;
    var i := 0;
    while i < |bs|
      invariant 0 <= lowerIdx <= i <= |bs| && (i > 0 ==> lowerIdx < i)
      invariant lastPos == if i == 0 then bs[0].offset else End(bs[i - 1])
      invariant NoOverlap(bs[..i])
      invariant CutAtGaps(bs, parts) && LastHi(parts) == lowerIdx
      invariant lowerIdx > 0 ==> Gap(bs, lowerIdx)
      invariant forall k :: lowerIdx < k < i ==> !Gap(bs, k)
      invariant OnlyFrom(file, log, bs) && AllFrom(file, log, bs[..lowerIdx], accepts)
    {
      if bs[i].offset < lastPos {
        OnlySame(file, log, bs, blobs);
        OverlapAt(bs, i);
        return sorted, log, parts, false;
      }
      if bs[i].offset - lastPos > MAX_UNUSED_RANGE {
        var done;
        log, parts, done := LoadPart(file, bs, accepts, load, tries, lowerIdx, i, log, parts);
        if !done {
          OnlySame(file, log, bs, blobs);
          return sorted, log, parts, false;
        }
        lowerIdx := i;
      }
      NoOverlapNext(bs, i);
      lastPos := End(bs[i]);
      i := i + 1;
    }
    var done;
    log, parts, done := LoadPart(file, bs, accepts, load, tries, lowerIdx, |bs|, log, parts);
    assert bs[..|bs|] == bs;
    OnlySame(file, log, bs, blobs);
    if done { AllSame(file, log, bs, blobs, accepts); }
    return sorted, log, parts, done;
  }

  lemma NoOverlapSlice(bs: seq<Blob>, lo: nat, hi: nat)
    requires lo < hi <= |bs| && NoOverlap(bs[..hi])
    ensures NoOverlap(bs[lo..hi])
    ensures bs[lo..hi] != [] && bs[lo..hi][0].offset <= End(bs[lo..hi][hi - lo - 1])
  {
    if lo < hi - 1 { OffsetsIncrease(bs[..hi], lo, hi - 1); }
    forall i | 0 < i < hi - lo ensures End(bs[lo..hi][i - 1]) <= bs[lo..hi][i].offset {
      assert bs[..hi][lo + i - 1] == bs[lo..hi][i - 1] && bs[..hi][lo + i] == bs[lo..hi][i];
    }
  }

  lemma NoOverlapNext(bs: seq<Blob>, i: nat)
    requires i < |bs| && NoOverlap(bs[..i]) && (i > 0 ==> End(bs[i - 1]) <= bs[i].offset)
    ensures NoOverlap(bs[..i + 1])
  {
    var old', new' := bs[..i], bs[..i + 1];
    forall k | 0 < k < |new'| ensures End(new'[k - 1]) <= new'[k].offset {
      if k < i { assert old'[k - 1] == new'[k - 1] && old'[k] == new'[k]; }
    }
  }

  lemma PartAdds(file: seq<byte>, log: seq<Delivery>, more: seq<Delivery>, bs: seq<Blob>, lo: nat, hi: nat,
                 accepts: Blob -> bool)
    requires lo <= hi <= |bs| && OnlyFrom(file, log, bs) && OnlyFrom(file, more, bs[lo..hi])
    requires AllFrom(file, log, bs[..lo], accepts)
    ensures OnlyFrom(file, log + more, bs)
    ensures AllFrom(file, more, bs[lo..hi], accepts) ==> AllFrom(file, log + more, bs[..hi], accepts)
  {
    if AllFrom(file, more, bs[lo..hi], accepts) {
      assert bs[..hi] == bs[..lo] + bs[lo..hi];
    }
  }

  lemma OnlySame(file: seq<byte>, log: seq<Delivery>, bs: seq<Blob>, blobs: seq<Blob>)
    requires OnlyFrom(file, log, bs) && forall b :: b in bs <==> b in blobs
    ensures OnlyFrom(file, log, blobs)
  {
  }

  lemma AllSame(file: seq<byte>, log: seq<Delivery>, bs: seq<Blob>, blobs: seq<Blob>, accepts: Blob -> bool)
    requires AllFrom(file, log, bs, accepts) && OnlyFrom(file, log, bs) && forall b :: b in bs <==> b in blobs
    ensures AllFrom(file, log, blobs, accepts) && Readable(file, blobs, accepts)
  {
  }

  lemma ReadableSame(file: seq<byte>, bs: seq<Blob>, blobs: seq<Blob>, accepts: Blob -> bool)
    requires forall b :: b in bs <==> b in blobs
    ensures Readable(file, bs, accepts) <==> Readable(file, blobs, accepts)
  {
  }

  lemma ReadableSlice(file: seq<byte>, bs: seq<Blob>, lo: nat, hi: nat, accepts: Blob -> bool)
    requires lo <= hi <= |bs|
    ensures Readable(file, bs, accepts) ==> Readable(file, bs[lo..hi], accepts)
  {
  }

  lemma OverlapAt(bs: seq<Blob>, i: nat)
    requires 0 < i < |bs| && bs[i].offset < End(bs[i - 1])
    ensures !NoOverlap(bs)
  {
  }

  lemma NothingLoaded(file: seq<byte>, bs: seq<Blob>, accepts: Blob -> bool)
    ensures CutAtGaps(bs, []) && NoOverlap([]) && SortedByOffset([])
    ensures OnlyFrom(file, [], bs) && AllFrom(file, [], [], accepts) && Readable(file, [], accepts)
  {
  }

  lemma SameBlobs(bs: seq<Blob>, blobs: seq<Blob>)
    requires multiset(bs) == multiset(blobs)
    ensures |bs| == |blobs| && forall b :: b in bs <==> b in blobs
  {
    assert forall b :: b in bs <==> b in multiset(bs);
    assert forall b :: b in blobs <==> b in multiset(blobs);
    assert |bs| == |multiset(bs)| == |multiset(blobs)| == |blobs|;
  }

  function Appended(bs: seq<Blob>, parts: seq<Part>, lo: nat, hi: nat): (r: seq<Part>)
    requires CutAtGaps(bs, parts) && LastHi(parts) == lo < hi <= |bs|
    requires lo > 0 ==> Gap(bs, lo)
    requires forall k :: lo < k < hi ==> !Gap(bs, k)
    ensures CutAtGaps(bs, r) && LastHi(r) == hi
  {
    parts + [Part(lo, hi)]
  }
}
