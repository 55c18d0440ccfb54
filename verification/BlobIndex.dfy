/** The blob index: which pack holds which blob.  `IndexVal` is the value of an index, the class
    `Index` keeps it in hash tables. */
module BlobIndex {
  import IM = IndexMap

  type ID = IM.ID
  type Record = IM.Record

  datatype BlobType = DataBlob | TreeBlob

  datatype BlobHandle = BlobHandle(id: ID, tpe: BlobType)

  datatype Blob = Blob(handle: BlobHandle, offset: nat, length: nat, uncompressedLength: nat)

  datatype PackedBlob = PackedBlob(blob: Blob, pack: ID)

  const MAX_UINT32: nat := 0xFFFF_FFFF

  predicate Fits(b: Blob) {
    b.offset <= MAX_UINT32 && b.length <= MAX_UINT32 && b.uncompressedLength <= MAX_UINT32
  }

  // ---------------------------------------------------------------- the value of an index

  datatype IndexVal = IndexVal(
    packs: seq<ID>,
    data: seq<Record>,
    tree: seq<Record>,
    final: bool,
    ids: seq<ID>,
    supersedes: seq<ID>)
  {
    function Recs(t: BlobType): (recs: seq<Record>) {
      if t.DataBlob? then data else tree
    }

    function WithRecs(t: BlobType, recs: seq<Record>): (v: IndexVal) {
      if t.DataBlob? then this.(data := recs) else this.(tree := recs)
    }

    ghost predicate Valid() {
      InRange(packs, data) && InRange(packs, tree)
    }

    /** The blobs of one type, in the order in which they were added. */
    function Packed(t: BlobType): (r: seq<PackedBlob>)
      requires Valid()
    {
      ToPacked(packs, Recs(t), t)
    }

    predicate Has(h: BlobHandle)
      requires Valid()
    {
      exists p :: p in Packed(h.tpe) && p.blob.handle == h
    }
  }

  const EMPTY_INDEX := IndexVal([], [], [], false, [], [])

  ghost predicate InRange(packs: seq<ID>, recs: seq<Record>) {
    forall i :: 0 <= i < |recs| ==> 0 <= recs[i].packIndex < |packs|
  }

  function ToPackedBlob(packs: seq<ID>, r: Record, t: BlobType): (p: PackedBlob)
    requires 0 <= r.packIndex < |packs|
  {
    PackedBlob(Blob(BlobHandle(r.id, t), r.offset, r.length, r.uncompressedLength), packs[r.packIndex])
  }

  function ToPacked(packs: seq<ID>, recs: seq<Record>, t: BlobType): (r: seq<PackedBlob>)
    requires InRange(packs, recs)
    ensures |r| == |recs|
    ensures forall i :: 0 <= i < |recs| ==> r[i] == ToPackedBlob(packs, recs[i], t)
  {
    seq(|recs|, i requires 0 <= i < |recs| => ToPackedBlob(packs, recs[i], t))
  }

  lemma ToPackedConcat(packs: seq<ID>, a: seq<Record>, b: seq<Record>, t: BlobType)
    requires InRange(packs, a) && InRange(packs, b)
    ensures InRange(packs, a + b)
    ensures ToPacked(packs, a + b, t) == ToPacked(packs, a, t) + ToPacked(packs, b, t)
  {
  }

  /** More packs do not change what is already there. */
  lemma ToPackedGrows(packs: seq<ID>, more: seq<ID>, recs: seq<Record>, t: BlobType)
    requires InRange(packs, recs)
    ensures InRange(packs + more, recs) && ToPacked(packs + more, recs, t) == ToPacked(packs, recs, t)
  {
  }

  // ---------------------------------------------------------------- storing packs

  function NewRecord(packIndex: nat, b: Blob): (r: Record) {
    IM.Record(b.handle.id, packIndex, b.offset, b.length, b.uncompressedLength)
  }

  /** The records for the blobs of one type. */
  function NewRecords(packIndex: nat, blobs: seq<Blob>, t: BlobType): (recs: seq<Record>) {
    if blobs == [] then []
    else
      var ln := |blobs| - 1;
      NewRecords(packIndex, blobs[..ln], t) + (if blobs[ln].handle.tpe ==
        t then [NewRecord(packIndex, blobs[ln])] else [])
  }

  function StorePack(v: IndexVal, pack: ID, blobs: seq<Blob>): (r: IndexVal) {
    var k := |v.packs|;
    v.(packs := v.packs + [pack],
       data := v.data + NewRecords(k, blobs, DataBlob),
       tree := v.tree + NewRecords(k, blobs, TreeBlob))
  }

  ghost function OfPack(pack: ID, blobs: seq<Blob>, t: BlobType): (r: seq<PackedBlob>) {
    if blobs == [] then []
    else
      var ln := |blobs| - 1;
      OfPack(pack, blobs[..ln], t) + (if blobs[ln].handle.tpe == t then [PackedBlob(blobs[ln], pack)] else [])
  }

  lemma {:induction false} NewRecordsPacked(packs: seq<ID>, k: nat, blobs: seq<Blob>, t: BlobType)
    requires k < |packs|
    ensures InRange(packs, NewRecords(k, blobs, t))
    ensures ToPacked(packs, NewRecords(k, blobs, t), t) == OfPack(packs[k], blobs, t)
  {
    if blobs != [] {
      var ln := |blobs| - 1;
      NewRecordsPacked(packs, k, blobs[..ln], t);
      if blobs[ln].handle.tpe == t {
        ToPackedConcat(packs, NewRecords(k, blobs[..ln], t), [NewRecord(k, blobs[ln])], t);
      }
    }
  }

  /** Storing a pack appends exactly its blobs, under its id. */
  lemma StorePackAppends(v: IndexVal, pack: ID, blobs: seq<Blob>, t: BlobType)
    requires v.Valid()
    ensures StorePack(v, pack, blobs).Valid()
    ensures StorePack(v, pack, blobs).Packed(t) == v.Packed(t) + OfPack(pack, blobs, t)
  {
    var packs := v.packs + [pack];
    forall t' ensures InRange(packs, v.Recs(t')) && InRange(packs, NewRecords(|v.packs|, blobs, t')) {
      ToPackedGrows(v.packs, [pack], v.Recs(t'), t');
      NewRecordsPacked(packs, |v.packs|, blobs, t');
    }
    ToPackedGrows(v.packs, [pack], v.Recs(t), t);
    NewRecordsPacked(packs, |v.packs|, blobs, t);
    ToPackedConcat(packs, v.Recs(t), NewRecords(|v.packs|, blobs, t), t);
  }

  lemma {:induction false} OfPackHas(pack: ID, blobs: seq<Blob>, t: BlobType)
    ensures forall p :: p in OfPack(pack, blobs, t) <==> p.pack == pack && p.blob in blobs && p.blob.handle.tpe == t
  {
    if blobs != [] {
      var ln := |blobs| - 1;
      OfPackHas(pack, blobs[..ln], t);
      assert blobs == blobs[..ln] + [blobs[ln]];
    }
  }

  // ---------------------------------------------------------------- merging

  /** `b` appended to `a` without exact duplicates. */
  ghost function Merged(a: seq<PackedBlob>, b: seq<PackedBlob>): (r: seq<PackedBlob>) {
    if b == [] then a
    else
      var m := Merged(a, b[..|b| - 1]);
      var p := b[|b| - 1];
      if p in m then m else m + [p]
  }

  /** Merging is a union: `a` is kept as it is, with its multiplicities, and every blob that only `b`
      has is there exactly once, however often `b` has it. */
  lemma {:induction false} MergedIsUnion(a: seq<PackedBlob>, b: seq<PackedBlob>)
    ensures a <= Merged(a, b)
    ensures forall p :: p in Merged(a, b) <==> p in a || p in b
    ensures forall p :: p in a ==> multiset(Merged(a, b))[p] == multiset(a)[p]
    ensures forall p :: p in b && p !in a ==> multiset(Merged(a, b))[p] == 1
  {
    if b != [] {
      var b', p := b[..|b| - 1], b[|b| - 1];
      MergedIsUnion(a, b');
      assert b == b' + [p];
      if p !in Merged(a, b') {
        assert p !in multiset(Merged(a, b'));
      }
    }
  }

  function Shifted(r: Record, packlen: nat): (r': Record) {
    r.(packIndex := r.packIndex + packlen)
  }

  /** The records of merge: `packs` already has the packs of the second index appended at `packlen`. */
  function MergedRecs(packs: seq<ID>, recs: seq<Record>, packlen: nat, recs2: seq<Record>,
                      t: BlobType): (r: seq<Record>)
    requires InRange(packs, recs)
    requires forall i :: 0 <= i < |recs2| ==> 0 <= recs2[i].packIndex && recs2[i].packIndex + packlen < |packs|
    ensures InRange(packs, r)
  {
    if recs2 == [] then recs
    else
      var m := MergedRecs(packs, recs, packlen, recs2[..|recs2| - 1], t);
      var e := Shifted(recs2[|recs2| - 1], packlen);
      if ToPackedBlob(packs, e, t) in ToPacked(packs, m, t) then m else m + [e]
  }

  function Merge(v: IndexVal, v2: IndexVal): (r: IndexVal)
    requires v.Valid() && v2.Valid()
  {
    var packs := v.packs + v2.packs;
    v.(packs := packs,
       data := MergedRecs(packs, v.data, |v.packs|, v2.data, DataBlob),
       tree := MergedRecs(packs, v.tree, |v.packs|, v2.tree, TreeBlob),
       ids := v.ids + v2.ids,
       supersedes := v.supersedes + v2.supersedes)
  }

  /** Despite the shifted pack numbers the merged records stand for the merged blobs. */
  lemma {:induction false} MergedRecsPacked(packs: seq<ID>, recs: seq<Record>, packs2: seq<ID>, recs2: seq<Record>,
                                            t: BlobType)
    requires InRange(packs, recs) && InRange(packs2, recs2)
    ensures
      var all := packs + packs2;
      && InRange(all, recs)
      && ToPacked(all, MergedRecs(all, recs, |packs|, recs2, t), t) ==
        Merged(ToPacked(packs, recs, t), ToPacked(packs2, recs2, t))
  {
    var all := packs + packs2;
    ToPackedGrows(packs, packs2, recs, t);
    if recs2 != [] {
      var ln := |recs2| - 1;
      MergedRecsPacked(packs, recs, packs2, recs2[..ln], t);
      hide ToPacked;
      assert ToPacked(packs2, recs2, t)[..ln] == ToPacked(packs2, recs2[..ln], t);
      var e := Shifted(recs2[ln], |packs|);
      assert ToPackedBlob(all, e, t) == ToPackedBlob(packs2, recs2[ln], t);
      ToPackedConcat(all, MergedRecs(all, recs, |packs|, recs2[..ln], t), [e], t);
    }
  }

  lemma MergePacked(v: IndexVal, v2: IndexVal, t: BlobType)
    requires v.Valid() && v2.Valid()
    ensures Merge(v, v2).Valid() && Merge(v, v2).Packed(t) == Merged(v.Packed(t), v2.Packed(t))
  {
    MergedRecsPacked(v.packs, v.data, v2.packs, v2.data, DataBlob);
    MergedRecsPacked(v.packs, v.tree, v2.packs, v2.tree, TreeBlob);
  }

  /** Merging loses no answer of Has or Lookup and invents none. */
  lemma MergeAnswers(v: IndexVal, v2: IndexVal, h: BlobHandle)
    requires v.Valid() && v2.Valid()
    ensures Merge(v, v2).Valid()
    ensures Merge(v, v2).Has(h) <==> v.Has(h) || v2.Has(h)
    ensures forall p :: p in Merge(v, v2).Packed(h.tpe) <==> p in v.Packed(h.tpe) || p in v2.Packed(h.tpe)
  {
    MergePacked(v, v2, h.tpe);
    MergedIsUnion(v.Packed(h.tpe), v2.Packed(h.tpe));
  }
}
