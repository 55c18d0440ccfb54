/** Filling packs: blobs go into the open pack, which is queued for upload once it is full; blobs as large
    as a pack get one of their own. */
module PackerManager {
  import opened Common
  import opened Pack

  /** What SaveBlob is called with. */
  datatype Saved = Saved(tpe: BlobType, id: seq<byte>, ciphertext: seq<byte>, uncompressedLength: nat)

  /** The blobs of a pack and the bytes written so far. */
  datatype Filled = Filled(blobs: seq<Blob>, data: seq<byte>)

  const NOTHING := Filled([], [])

  /** The blobs lie one after the other and fill the bytes. */
  ghost predicate Laid(q: Filled) {
    Consecutive(q.blobs, 0) && |q.data| == Sum(q.blobs)
  }

  /** The bytes at the place of a blob. */
  function Cut(data: seq<byte>, b: Blob): (r: seq<byte>) {
    if b.offset + b.length <= |data| then data[b.offset..b.offset + b.length] else []
  }

  function Content(data: seq<byte>, b: Blob): (c: Saved) {
    Saved(b.tpe, b.id, Cut(data, b), b.uncompressedLength)
  }

  /** What was saved in a pack, taken from its blobs and bytes. */
  ghost function Contents(q: Filled): (m: multiset<Saved>)
    decreases |q.blobs|
  {
    if q.blobs == [] then multiset{}
    else
      var n := |q.blobs| - 1;
      Contents(Filled(q.blobs[..n], q.data)) + multiset{Content(q.data, q.blobs[n])}
  }

  ghost function QueueContents(queued: seq<Filled>): (m: multiset<Saved>) {
    if queued == [] then multiset{} else QueueContents(queued[..|queued| - 1]) + Contents(queued[|queued| - 1])
  }

  /** The size of a pack file. */
  function FileSize(blobs: seq<Blob>): (n: nat) {
    Sum(blobs) + EntrySizes(blobs) + HEADER_SIZE
  }

  ghost function FileSizes(queued: seq<Filled>): (n: nat) {
    if queued == [] then 0 else FileSizes(queued[..|queued| - 1]) + FileSize(queued[|queued| - 1].blobs)
  }

  lemma QueueSnoc(queued: seq<Filled>, q: Filled)
    ensures QueueContents(queued + [q]) == QueueContents(queued) + Contents(q)
    ensures FileSizes(queued + [q]) == FileSizes(queued) + FileSize(q.blobs)
  {
    assert (queued + [q])[..|queued|] == queued;
  }

  lemma {:induction false} LaidWithin(blobs: seq<Blob>, pos: nat, b: Blob)
    requires Consecutive(blobs, pos) && b in blobs
    ensures pos <= b.offset && b.offset + b.length <= pos + Sum(blobs)
  {
    if b != blobs[0] { LaidWithin(blobs[1..], pos + blobs[0].length, b); }
  }

  lemma CutGrows(data: seq<byte>, more: seq<byte>, b: Blob)
    requires b.offset + b.length <= |data|
    ensures Cut(data + more, b) == Cut(data, b)
  {
  }

  lemma ContentsLast(q: Filled)
    requires q.blobs != []
    ensures var n := |q.blobs| - 1;
      Contents(q) == Contents(Filled(q.blobs[..n], q.data)) + multiset{Content(q.data, q.blobs[n])}
  {
  }

  /** Writing more at the end leaves the blobs as they are. */
  lemma {:induction false} ContentsGrow(q: Filled, more: seq<byte>)
    requires forall b :: b in q.blobs ==> b.offset + b.length <= |q.data|
    ensures Contents(Filled(q.blobs, q.data + more)) == Contents(q)
    decreases |q.blobs|
  {
    if q.blobs != [] {
      hide Contents, Cut;
      var n := |q.blobs| - 1;
      assert q.blobs[n] in q.blobs;
      ContentsLast(q);
      ContentsLast(Filled(q.blobs, q.data + more));
      ContentsGrow(Filled(q.blobs[..n], q.data), more);
      CutGrows(q.data, more, q.blobs[n]);
    }
  }

  /** The pack with one more blob at its end. */
  function With(q: Filled, b: Blob, ciphertext: seq<byte>): (r: Filled) {
    Filled(q.blobs + [b], q.data + ciphertext)
  }

  lemma LaidSnoc(q: Filled, b: Blob, ciphertext: seq<byte>)
    requires Laid(q) && b.offset == |q.data| && b.length == |ciphertext|
    ensures Laid(With(q, b, ciphertext)) && Cut(q.data + ciphertext, b) == ciphertext
    ensures forall x :: x in q.blobs ==> x.offset + x.length <= |q.data|
  {
    hide Sum, Consecutive;
    forall x | x in q.blobs ensures x.offset + x.length <= |q.data| { LaidWithin(q.blobs, 0, x); }
    ConsecutiveSnoc(q.blobs, 0, b);
    SumSnoc(q.blobs, b);
  }

  lemma ContentsSnoc(q: Filled, b: Blob, ciphertext: seq<byte>)
    requires Laid(q) && b.offset == |q.data| && b.length == |ciphertext|
    ensures Laid(With(q, b, ciphertext))
    ensures Contents(With(q, b, ciphertext)) ==
      Contents(q) + multiset{Saved(b.tpe, b.id, ciphertext, b.uncompressedLength)}
  {
    hide Laid, Cut, Contents;
    LaidSnoc(q, b, ciphertext);
    ContentsGrow(q, ciphertext);
    var r := With(q, b, ciphertext);
    ContentsLast(r);
    assert r.blobs[..|q.blobs|] == q.blobs;
  }

  lemma {:induction false} EntrySizesBound(blobs: seq<Blob>)
    ensures EntrySizes(blobs) <= |blobs| * ENTRY_SIZE
  {
    if blobs != [] { EntrySizesBound(blobs[1..]); }
  }

  lemma {:induction false} LengthAtMostSum(blobs: seq<Blob>, b: Blob)
    requires b in blobs
    ensures b.length <= Sum(blobs)
  {
    if b != blobs[0] { LengthAtMostSum(blobs[1..], b); }
  }

  predicate HeaderFits(n: nat) {
    HEADER_SIZE + n * ENTRY_SIZE <= MAX_HEADER_SIZE
  }

  /** A queued pack: its header will be accepted when it is read, and a blob as large as a pack is alone. */
  ghost predicate GoodPack(packSize: nat, q: seq<Blob>) {
    && q != []
    && HeaderFits(|q|)
    && (forall b :: b in q && b.length >= packSize ==> |q| == 1)
  }

  /** The open pack has room for at least one more blob. */
  ghost predicate OpenPack(packSize: nat, q: seq<Blob>) {
    q != [] && Sum(q) < packSize && HeaderFits(|q| + 1)
  }

  /** Every queued pack passes the size check of readRecords. */
  lemma GoodPackReadable(packSize: nat, q: seq<Blob>)
    requires GoodPack(packSize, q)
    ensures HEADER_SIZE + EntrySizes(q) <= MAX_HEADER_SIZE
    ensures CheckLength(EXTENSION + EntrySizes(q), FileSize(q)).None?
  {
    EntrySizesBound(q);
    SomeEntry(q);
  }

  /** A queued pack, once finalized, lists exactly its blobs again, and has their bytes at their offsets. */
  lemma QueuedPackLists(packSize: nat, q: Filled, k: Key, nonce: seq<byte>)
    requires GoodPack(packSize, q.blobs) && Laid(q) && forall b :: b in q.blobs ==> Encodable(b)
    requires Sound(k) && |nonce| == IV_SIZE
    ensures Header(q.blobs).Some?
    ensures var file := PackFile(k, nonce, q.data, Header(q.blobs).value);
      && Entries(k, file) == Ok(q.blobs) && |file| == FileSize(q.blobs)
      && forall b :: b in q.blobs ==> Cut(file, b) == Cut(q.data, b) && |Cut(file, b)| == b.length
  {
    hide Header, Entries, Sound, Consecutive, Sum;
    GoodPackReadable(packSize, q.blobs);
    PackRoundTrip(k, nonce, q.data, q.blobs);
    var file := PackFile(k, nonce, q.data, Header(q.blobs).value);
    forall b | b in q.blobs ensures Cut(file, b) == Cut(q.data, b) && |Cut(file, b)| == b.length {
      LaidWithin(q.blobs, 0, b);
      assert file[..|q.data|] == q.data;
      assert file[b.offset..b.offset + b.length] == file[..|q.data|][b.offset..b.offset + b.length];
    }
  }

  /** A blob added to the open pack, or to a new one: if the pack is not full it stays open, else it is good
      to be queued. */
  lemma AddedPack(packSize: nat, before: seq<Blob>, b: Blob)
    requires before == [] || (OpenPack(packSize, before) && b.length < packSize)
    ensures var q := before + [b];
      if Sum(q) < packSize && HeaderFits(|q| + 1) then OpenPack(packSize, q) else GoodPack(packSize, q)
  {
    var q := before + [b];
    if before != [] {
      forall x | x in q ensures x.length < packSize {
        if x in before { LengthAtMostSum(before, x); }
      }
    } else {
      assert q == [b];
    }
  }

  /** The state of the manager as values: `open` is the open pack, if there is one. */
  ghost predicate Books(packSize: nat, queued: seq<Filled>, open: Filled, saved: multiset<Saved>, returned: nat,
                        flushes: nat) {
    && Laid(open) && (open.blobs != [] ==> OpenPack(packSize, open.blobs))
    && (forall q :: q in queued ==> GoodPack(packSize, q.blobs) && Laid(q))
    && saved == QueueContents(queued) + Contents(open)
    && FileSizes(queued) + Sum(open.blobs) + EntrySizes(open.blobs) == returned + HEADER_SIZE * flushes
  }

  lemma BooksEmpty(packSize: nat)
    ensures Books(packSize, [], NOTHING, multiset{}, 0, 0)
  {
  }

  /** The blob goes into the open pack, or opens one. */
  lemma BooksAdd(packSize: nat, queued: seq<Filled>, open: Filled, saved: multiset<Saved>, returned: nat,
                 flushes: nat, b: Blob, ciphertext: seq<byte>)
    requires Books(packSize, queued, open, saved, returned, flushes)
    requires open.blobs == [] || b.length < packSize
    requires b.offset == |open.data| && b.length == |ciphertext|
    ensures
      var q := With(open, b, ciphertext);
      var saved' := saved + multiset{Saved(b.tpe, b.id, ciphertext, b.uncompressedLength)};
      if Sum(q.blobs) < packSize && HeaderFits(|q.blobs| + 1)
      then Books(packSize, queued, q, saved', returned + b.length + EntrySize(b), flushes)
      else Books(packSize, queued + [q], NOTHING, saved', returned + b.length + EntrySize(b) + HEADER_SIZE, flushes)
  {
    hide Sum, EntrySizes, QueueContents, FileSizes, Contents, GoodPack, OpenPack, HeaderFits, Consecutive;
    AddedPack(packSize, open.blobs, b);
    ContentsSnoc(open, b, ciphertext);
    SumSnoc(open.blobs, b);
    QueueSnoc(queued, With(open, b, ciphertext));
    NothingYet();
  }

  /** The blob gets a pack of its own although there is an open one. */
  lemma BooksAlone(packSize: nat, queued: seq<Filled>, open: Filled, saved: multiset<Saved>, returned: nat,
                   flushes: nat, b: Blob, ciphertext: seq<byte>)
    requires Books(packSize, queued, open, saved, returned, flushes)
    requires b.offset == 0 && b.length == |ciphertext| >= packSize
    ensures Books(packSize, queued + [With(NOTHING, b, ciphertext)], open,
                  saved + multiset{Saved(b.tpe, b.id, ciphertext, b.uncompressedLength)},
                  returned + b.length + EntrySize(b) + HEADER_SIZE, flushes)
  {
    hide Sum, EntrySizes, QueueContents, FileSizes, Contents, GoodPack, OpenPack, HeaderFits, Consecutive;
    NothingYet();
    AddedPack(packSize, [], b);
    AloneIsFull(b);
    assert [] + [b] == [b];
    ContentsSnoc(NOTHING, b, ciphertext);
    SumSnoc([], b);
    QueueSnoc(queued, With(NOTHING, b, ciphertext));
  }

  lemma BooksFlush(packSize: nat, queued: seq<Filled>, open: Filled, saved: multiset<Saved>, returned: nat,
                   flushes: nat)
    requires Books(packSize, queued, open, saved, returned, flushes) && open.blobs != []
    ensures Books(packSize, queued + [open], NOTHING, saved, returned, flushes + 1)
  {
    hide Sum, EntrySizes, QueueContents, FileSizes, Contents, GoodPack, OpenPack, Consecutive;
    OpenIsGood(packSize, open.blobs);
    QueueSnoc(queued, open);
    NothingYet();
  }

  class Manager {
    const key: Key
    const packSize: nat
    var packer: Packer?
    var queued: seq<Filled>          // the packs given to the uploaders
    ghost var saved: multiset<Saved> // what SaveBlob was called with
    ghost var returned: nat          // the sum of the sizes that SaveBlob returned
    ghost var flushes: nat           // packs queued by Flush

    ghost function Open(): (q: Filled) reads this, packer {
      if packer == null then NOTHING else Filled(packer.blobs, packer.wr)
    }

    ghost predicate Valid() reads this, packer {
      && (packer != null ==> packer.Valid() && packer.blobs != [])
      && Books(packSize, queued, Open(), saved, returned, flushes)
    }

    constructor (key: Key, packSize: nat)
      ensures Valid() && this.key == key && this.packSize == packSize
      ensures queued == [] && saved == multiset{} && returned == 0 && flushes == 0
    {
      BooksEmpty(packSize);
      this.key, this.packSize := key, packSize;
      packer, queued := null, [];
      saved, returned, flushes := multiset{}, 0, 0;
    }

    /** Queues the open pack, if any. */
    method Flush()
      requires Valid()
      modifies this
      ensures Valid() && packer == null
      ensures queued == if old(packer) == null then old(queued) else old(queued) + [old(Open())]
      ensures saved == old(saved) && returned == old(returned)
      ensures flushes == if old(packer) == null then old(flushes) else old(flushes) + 1
    {
      hide Books, Consecutive;
      if packer != null {
        BooksFlush(packSize, queued, Open(), saved, returned, flushes);
        queued := queued + [Filled(packer.blobs, packer.wr)];
        packer := null;
        flushes := flushes + 1;
      }
    }

    /** The pack for a blob: the open one, or a new one, which becomes the open one if there is none. */
    method PickPacker(large: bool) returns (p: Packer)
      requires Valid()
      modifies this`packer
      ensures p.Valid() && (old(packer) != null ==> packer == old(packer))
      ensures if large || old(packer) == null then fresh(p) && p.blobs == [] && p.wr == [] else p == packer
      ensures old(packer) == null ==> packer == p
    {
      hide Books, Consecutive, Sum;
      if large || packer == null {
        p := new Packer(key);
        if packer == null { packer := p; }
      } else {
        p := packer;
      }
    }

    /** Adds a blob; a full pack is queued.  The result is what the repository grows by, except for the
        fixed part of the headers of packs that are queued by Flush. */
    method SaveBlob(t: BlobType, id: seq<byte>, ciphertext: seq<byte>, uncompressedLength: nat) returns (size: nat)
      requires Valid()
      modifies this, packer
      ensures Valid() && (packer == old(packer) || packer == null || fresh(packer))
      ensures saved == old(saved) + multiset{Saved(t, id, ciphertext, uncompressedLength)}
      ensures returned == old(returned) + size && flushes == old(flushes)
      ensures
        var target := if |ciphertext| >= packSize || old(packer) == null then NOTHING else old(Open());
        var b := Blob(t, id, |target.data|, |ciphertext|, uncompressedLength);
        var filled := Filled(target.blobs + [b], target.data + ciphertext);
        var full := |filled.data| >= packSize || 36 + (|filled.blobs| + 1) * 41 > 16 * 1024 * 1024 + 4;
        && queued == (if full then old(queued) + [filled] else old(queued))
        && size == |ciphertext| + (if uncompressedLength != 0 then 41 else 37) + (if full then 36 else 0)
    {
      hide Books, Sum, EntrySizes, Consecutive, HeaderFits, Packer.Valid;
      var p := PickPacker(|ciphertext| >= packSize);
      ghost var before, open := Filled(p.blobs, p.wr), old(Open());
      size := AddTo(p, t, id, ciphertext, uncompressedLength);
      ghost var b := p.blobs[|p.blobs| - 1];
      if p == packer {
        BooksAdd(packSize, queued, open, saved, returned, flushes, b, ciphertext);
      } else {
        BooksAlone(packSize, queued, open, saved, returned, flushes, b, ciphertext);
      }
      size := QueueIfFull(p, size, saved + multiset{Saved(t, id, ciphertext, uncompressedLength)});
    }

    /** The pack that a blob was added to is queued, unless it has room for another. */
    method QueueIfFull(p: Packer, added: nat, ghost saved': multiset<Saved>) returns (size: nat)
      requires packer != null && packer.Valid() && packer.blobs != []
      requires
        if p.bytes < packSize && !p.HeaderFull()
        then p == packer && Books(packSize, queued, Open(), saved', returned + added, flushes)
        else Books(packSize, queued + [Filled(p.blobs, p.wr)], if p == packer then NOTHING else Open(), saved',
                   returned + added + HEADER_SIZE, flushes)
      modifies this
      ensures Valid() && saved == saved' && returned == old(returned) + size && flushes == old(flushes)
      ensures packer == old(packer) || packer == null
      ensures size == added + if p.bytes < packSize && !p.HeaderFull() then 0 else 36
      ensures queued ==
        if p.bytes < packSize && !p.HeaderFull() then old(queued) else old(queued) + [Filled(p.blobs, p.wr)]
    {
      hide Books, Consecutive, Sum, Packer.Valid, Packer.HeaderFull;
      size, saved := added, saved';
      if p.bytes < packSize && !p.HeaderFull() {
        returned := returned + size;
        return;
      }
      if p == packer { packer := null; }
      queued := queued + [Filled(p.blobs, p.wr)];
      size := size + HEADER_SIZE;
      returned := returned + size;
    }
  }

  method AddTo(p: Packer, t: BlobType, id: seq<byte>, ciphertext: seq<byte>, uncompressedLength: nat)
    returns (size: nat)
    requires p.Valid()
    modifies p
    ensures p.Valid() && p.blobs != [] && p.bytes == |p.wr| == Sum(p.blobs)
    ensures HeaderFits(|p.blobs| + 1) <==> !p.HeaderFull()
    ensures var b := p.blobs[|p.blobs| - 1];
      && b == Blob(t, id, old(|p.wr|), |ciphertext|, uncompressedLength)
      && Filled(p.blobs, p.wr) == With(old(Filled(p.blobs, p.wr)), b, ciphertext)
      && (old(p.blobs) == [] && old(p.wr) == [] ==> p.blobs == [b] && p.wr == ciphertext && p.bytes == b.length)
      && size == b.length + EntrySize(b)
  {
    hide Sum, Consecutive, HeaderFits, EntrySize;
    ghost var before := Filled(p.blobs, p.wr);
    size := p.Add(t, id, ciphertext, uncompressedLength);
    Appends(before, p.blobs[|p.blobs| - 1], ciphertext, Filled(p.blobs, p.wr));
    HeaderFullIs(p);
  }

  lemma Appends(before: Filled, b: Blob, ciphertext: seq<byte>, q: Filled)
    requires q.blobs == before.blobs + [b] && q.data == before.data + ciphertext
    ensures q == With(before, b, ciphertext)
    ensures before == NOTHING ==> q == Filled([b], ciphertext) && Sum(q.blobs) == b.length
  {
    AloneIsFull(b);
  }

  lemma HeaderFullIs(p: Packer)
    ensures HeaderFits(|p.blobs| + 1) <==> !p.HeaderFull()
  {
  }

  lemma AloneIsFull(b: Blob)
    ensures Sum([b]) == b.length
  {
    assert [] + [b] == [b];
    SumSnoc([], b);
  }

  lemma OpenIsGood(packSize: nat, q: seq<Blob>)
    requires OpenPack(packSize, q)
    ensures GoodPack(packSize, q)
  {
    forall b | b in q ensures b.length < packSize { LengthAtMostSum(q, b); }
  }

  lemma NothingYet()
    ensures Sum([]) == 0 && EntrySizes([]) == 0 && Contents(NOTHING) == multiset{} && Laid(NOTHING)
  {
  }
}
