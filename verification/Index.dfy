/** The Index object: the value of an index kept in one hash table per blob type. */
module IndexObject {
  import opened BlobIndex
  import IM = IndexMap
  import HAT = HashedArrayTree

  /** The entries for one blob, newest first. */
  ghost function Found(packed: seq<PackedBlob>, id: ID): (r: seq<PackedBlob>) {
    if packed == [] then []
    else
      var ln := |packed| - 1;
      (if packed[ln].blob.handle.id == id then [packed[ln]] else []) + Found(packed[..ln], id)
  }

  lemma {:induction false} NewestInRange(packs: seq<ID>, recs: seq<Record>, id: ID)
    requires InRange(packs, recs)
    ensures InRange(packs, IM.NewestFirst(recs, id))
  {
    if recs != [] { NewestInRange(packs, recs[..|recs| - 1], id); }
  }

  /** What a table finds stands for what the index has. */
  lemma {:induction false} FoundRecords(packs: seq<ID>, recs: seq<Record>, t: BlobType, id: ID)
    requires InRange(packs, recs)
    ensures InRange(packs, IM.NewestFirst(recs, id))
    ensures ToPacked(packs, IM.NewestFirst(recs, id), t) == Found(ToPacked(packs, recs, t), id)
  {
    NewestInRange(packs, recs, id);
    if recs != [] {
      var ln := |recs| - 1;
      FoundRecords(packs, recs[..ln], t, id);
      assert ToPacked(packs, recs, t)[..ln] == ToPacked(packs, recs[..ln], t);
      if recs[ln].id == id {
        ToPackedConcat(packs, [recs[ln]], IM.NewestFirst(recs[..ln], id), t);
        assert ToPacked(packs, [recs[ln]], t) == [ToPackedBlob(packs, recs[ln], t)];
      }
    }
  }

  lemma {:induction false} FoundHas(packed: seq<PackedBlob>, id: ID)
    ensures forall p :: p in Found(packed, id) <==> p in packed && p.blob.handle.id == id
  {
    if packed != [] {
      var ln := |packed| - 1;
      FoundHas(packed[..ln], id);
      assert packed == packed[..ln] + [packed[ln]];
    }
  }

  lemma FoundNonempty(v: IndexVal, h: BlobHandle)
    requires v.Valid()
    ensures Found(v.Packed(h.tpe), h.id) != [] <==> v.Has(h)
  {
    FoundHas(v.Packed(h.tpe), h.id);
    var found := Found(v.Packed(h.tpe), h.id);
    if found != [] { assert found[0] in found; }
  }

  method AppendPacked(packs: seq<ID>, recs: seq<Record>, t: BlobType, pbs: seq<PackedBlob>) returns (r: seq<PackedBlob>)
    requires InRange(packs, recs)
    ensures r == pbs + ToPacked(packs, recs, t)
  {
    r := pbs;
    for i := 0 to |recs|
      invariant r == pbs + ToPacked(packs, recs, t)[..i]
    {
      r := r + [ToPackedBlob(packs, recs[i], t)];
    }
  }

  lemma StoreNone(v: IndexVal, id: ID)
    ensures StorePack(v, id, []) == v.(packs := v.packs + [id])
  {
  }

  /** Storing a pack blob by blob. */
  lemma StoreStep(v: IndexVal, id: ID, blobs: seq<Blob>, i: nat)
    requires i < |blobs|
    ensures
      var t := blobs[i].handle.tpe;
      var before := StorePack(v, id, blobs[..i]);
      StorePack(v, id, blobs[..i + 1]) == before.WithRecs(t, before.Recs(t) + [NewRecord(|v.packs|, blobs[i])])
  {
    assert blobs[..i + 1][..i] == blobs[..i];
  }

  /** Is this very entry in the table already? */
  method HasIdenticalEntry(m: IM.Map, packs: seq<ID>, t: BlobType, b2: PackedBlob) returns (found: bool)
    requires m.Valid() && InRange(packs, m.Records()) && b2.blob.handle.tpe == t
    ensures found <==> b2 in ToPacked(packs, m.Records(), t)
  {
    hide IM.Map.Valid, IM.Map.Records, IM.NewestFirst;
    var recs := m.ForeachWithID(b2.blob.handle.id);
    FoundRecords(packs, m.Records(), t, b2.blob.handle.id);
    FoundHas(ToPacked(packs, m.Records(), t), b2.blob.handle.id);
    var all := AppendPacked(packs, recs, t, []);
    found := b2 in all;
  }

  /** The records with one more, unless this very entry is there already. */
  function WithEntry(packs: seq<ID>, recs: seq<Record>, e: Record, t: BlobType): (r: seq<Record>)
    requires InRange(packs, recs) && 0 <= e.packIndex < |packs|
  {
    if ToPackedBlob(packs, e, t) in ToPacked(packs, recs, t) then recs else recs + [e]
  }

  /** Adds an entry, unless this very entry is in the table already. */
  method MergeEntry(m: IM.Map, packs: seq<ID>, e: Record, t: BlobType)
    requires m.Valid() && InRange(packs, m.Records()) && 0 <= e.packIndex < |packs|
    modifies m.Repr
    ensures m.Valid() && fresh(m.Repr - old(m.Repr))
    ensures m.Records() == WithEntry(packs, old(m.Records()), e, t)
  {
    hide IM.Map.Valid, IM.Map.Records, ToPacked;
    var p := ToPackedBlob(packs, e, t);
    var found := HasIdenticalEntry(m, packs, t, p);
    if !found { m.Add(e); }
  }

  /** Copies the entries of `m2` that `m` does not have, with their pack numbers shifted. */
  method MergeTable(m: IM.Map, m2: IM.Map, packs: seq<ID>, packs2: seq<ID>, t: BlobType)
    requires m.Valid() && m2.Valid() && m.Repr !! m2.Repr
    requires InRange(packs, m.Records()) && InRange(packs2, m2.Records())
    modifies m.Repr
    ensures m.Valid() && fresh(m.Repr - old(m.Repr))
    ensures m2.Valid() && m2.Records() == old(m2.Records())
    ensures InRange(packs + packs2, old(m.Records())) &&
            m.Records() == MergedRecs(packs + packs2, old(m.Records()), |packs|, m2.Records(), t)
  {
    hide IM.Map.Valid, IM.Map.Records, MergedRecs, WithEntry, Shifted;
    var all := packs + packs2;
    ghost var recs := m.Records();
    var recs2 := m2.Foreach(_ => true);
    MergeNone(packs, packs2, recs, t);
    for i := 0 to |recs2|
      invariant m.Valid() && m2.Valid() && m.Repr !! m2.Repr && fresh(m.Repr - old(m.Repr))
      invariant m2.Records() == recs2
      invariant InRange(all, m.Records())
      invariant m.Records() == MergedRecs(all, recs, |packs|, recs2[..i], t)
    {
      MergeStep(all, recs, |packs|, recs2, i, t);
      MergeEntry(m, all, Shifted(recs2[i], |packs|), t);
    }
    assert recs2[..|recs2|] == recs2;
  }

  lemma MergeNone(packs: seq<ID>, packs2: seq<ID>, recs: seq<Record>, t: BlobType)
    requires InRange(packs, recs)
    ensures InRange(packs + packs2, recs) && MergedRecs(packs + packs2, recs, |packs|, [], t) == recs
  {
  }

  lemma MergeStep(all: seq<ID>, recs: seq<Record>, packlen: nat, recs2: seq<Record>, i: nat, t: BlobType)
    requires InRange(all, recs) && i < |recs2|
    requires forall j :: 0 <= j < |recs2| ==> 0 <= recs2[j].packIndex && recs2[j].packIndex + packlen < |all|
    ensures
      var m := MergedRecs(all, recs, packlen, recs2[..i], t);
      var e := Shifted(recs2[i], packlen);
      && InRange(all, m) && 0 <= e.packIndex < |all|
      && MergedRecs(all, recs, packlen, recs2[..i + 1], t) == WithEntry(all, m, e, t)
  {
    assert recs2[..i + 1][..i] == recs2[..i];
  }

  lemma EmptyIsValid()
    ensures EMPTY_INDEX.Valid()
  {
  }

  lemma MergeParts(v: IndexVal, v2: IndexVal)
    requires v.Valid() && v2.Valid()
    ensures InRange(v.packs, v.data) && InRange(v.packs, v.tree)
    ensures
      var packs := v.packs + v2.packs;
      && InRange(packs, v.data) && InRange(packs, v.tree)
      && Merge(v, v2) == v.(packs := packs,
           data := MergedRecs(packs, v.data, |v.packs|, v2.data, DataBlob),
           tree := MergedRecs(packs, v.tree, |v.packs|, v2.tree, TreeBlob),
           ids := v.ids + v2.ids, supersedes := v.supersedes + v2.supersedes)
    ensures Merge(v, v2).Valid()
  {
    MergePacked(v, v2, DataBlob);
  }

  class Index {
    var data: IM.Map
    var tree: IM.Map
    var packs: seq<ID>
    var final: bool
    var ids: seq<ID>
    var supersedes: seq<ID>

    ghost var Repr: set<object>

    ghost predicate TablesValid() reads this, Repr
      ensures TablesValid() ==> this in Repr && data in Repr && tree in Repr && data.Repr <= Repr && tree.Repr <= Repr
      ensures TablesValid() ==> data.Valid() && tree.Valid()
    {
      && this in Repr && data in Repr && tree in Repr
      && data.Repr <= Repr && tree.Repr <= Repr
      && this !in data.Repr && this !in tree.Repr && data.Repr !! tree.Repr
      && data.Valid() && tree.Valid()
    }

    ghost function State(): (v: IndexVal) reads this, Repr
      requires TablesValid()
      ensures v.packs == packs && v.final == final && v.ids == ids && v.supersedes == supersedes
    {
      IndexVal(packs, data.Records(), tree.Records(), final, ids, supersedes)
    }

    ghost predicate Valid() reads this, Repr {
      TablesValid() && State().Valid()
    }

    constructor (mh: ID -> nat)
      ensures Valid() && fresh(Repr) && State() == EMPTY_INDEX
    {
      hide IM.Map.Valid, IM.Map.Records, IndexVal.Valid, HAT.Tree.Valid;
      var d := new IM.Map(mh);
      var t := new IM.Map(mh);
      data, tree := d, t;
      packs, final, ids, supersedes := [], false, [], [];
      new;
      EmptyIsValid();
      Repr := {this} + data.Repr + tree.Repr;
    }

    /** Enters one blob; offset and lengths that need more than 32 bits panic. */
    method Store(packIndex: nat, blob: Blob)
      requires Valid() && packIndex < |packs| && Fits(blob)
      modifies Repr
      ensures Valid() && fresh(Repr - old(Repr)) && packs == old(packs)
      ensures State() == old(State()).WithRecs(blob.handle.tpe, old(State()).Recs(blob.handle.tpe) +
        [NewRecord(packIndex, blob)])
    {
      hide IM.Map.Valid, IM.Map.Records;
      match blob.handle.tpe
      case DataBlob => data.Add(NewRecord(packIndex, blob)); Repr := Repr + data.Repr;
      case TreeBlob => tree.Add(NewRecord(packIndex, blob)); Repr := Repr + tree.Repr;
    }

    /** Remembers all blobs of a pack; a finalized index panics. */
    method StorePack(id: ID, blobs: seq<Blob>)
      requires Valid() && !final
      requires forall b :: b in blobs ==> Fits(b)
      modifies Repr
      ensures Valid() && fresh(Repr - old(Repr))
      ensures State() == BlobIndex.StorePack(old(State()), id, blobs)
    {
      hide TablesValid, BlobIndex.StorePack, IM.Map.Records, IndexVal.Valid;
      ghost var v := State();
      AddToPacks(id);
      StoreNone(v, id);
      var packIndex := |packs| - 1;
      for i := 0 to |blobs|
        invariant Valid() && fresh(Repr - old(Repr)) && |packs| == packIndex + 1 == |v.packs| + 1
        invariant State() == BlobIndex.StorePack(v, id, blobs[..i])
      {
        StoreStep(v, id, blobs, i);
        Store(packIndex, blobs[i]);
      }
      assert blobs[..|blobs|] == blobs;
    }

    method AddToPacks(id: ID)
      requires Valid()
      modifies this
      ensures Valid() && Repr == old(Repr)
      ensures State() == old(State()).(packs := old(packs) + [id])
      ensures packs == old(packs) + [id]
    {
      hide IM.Map.Valid, IM.Map.Records;
      packs := packs + [id];
    }

    /** All entries for a blob, appended to `pbs`. */
    method Lookup(bh: BlobHandle, pbs: seq<PackedBlob>) returns (r: seq<PackedBlob>)
      requires Valid()
      ensures r == pbs + Found(State().Packed(bh.tpe), bh.id)
    {
      hide IM.Map.Valid, IM.Map.Records, IM.NewestFirst;
      var table := if bh.tpe.DataBlob? then data else tree;
      var recs := table.ForeachWithID(bh.id);
      FoundRecords(packs, State().Recs(bh.tpe), bh.tpe, bh.id);
      r := AppendPacked(packs, recs, bh.tpe, pbs);
    }

    method Has(bh: BlobHandle) returns (found: bool)
      requires Valid()
      ensures found <==> State().Has(bh)
    {
      hide IM.Map.Valid, IM.Map.Records, IM.NewestFirst;
      var table := if bh.tpe.DataBlob? then data else tree;
      var e := table.Get(bh.id);
      FoundRecords(packs, State().Recs(bh.tpe), bh.tpe, bh.id);
      FoundNonempty(State(), bh);
      found := e.Some?;
    }

    method Finalize()
      requires Valid()
      modifies this
      ensures Valid() && Repr == old(Repr) && State() == old(State()).(final := true)
    {
      hide IM.Map.Valid, IM.Map.Records;
      final := true;
    }

    /** Sets the ID under which the index was written; only once, and only when it is final. */
    method SetID(id: ID) returns (ok: bool)
      requires Valid()
      modifies this
      ensures Valid() && Repr == old(Repr)
      ensures ok <==> old(final) && old(ids) == []
      ensures State() == if ok then old(State()).(ids := [id]) else old(State())
    {
      hide IM.Map.Valid, IM.Map.Records;
      ok := final && |ids| == 0;
      if ok { ids := ids + [id]; }
    }

    /** Merges the table for data blobs; the records refer to `packs0`, to which the packs of `idx2`
        are appended. */
    method MergeData(idx2: Index, packs0: seq<ID>)
      requires TablesValid() && idx2.Valid() && Repr !! idx2.Repr
      requires InRange(packs0, State().data)
      modifies Repr
      ensures TablesValid() && fresh(Repr - old(Repr))
      ensures idx2.Valid() && idx2.State() == old(idx2.State()) && idx2.Repr == old(idx2.Repr)
      ensures InRange(packs0 + idx2.packs, old(State()).data) &&
              State() == old(State()).(data :=
                MergedRecs(packs0 + idx2.packs, old(State()).data, |packs0|, idx2.State().data, DataBlob))
    {
      hide IM.Map.Valid, IM.Map.Records, MergedRecs, InRange;
      MergeTable(data, idx2.data, packs0, idx2.packs, DataBlob);
      Repr := Repr + data.Repr;
    }

    method MergeTree(idx2: Index, packs0: seq<ID>)
      requires TablesValid() && idx2.Valid() && Repr !! idx2.Repr
      requires InRange(packs0, State().tree)
      modifies Repr
      ensures TablesValid() && fresh(Repr - old(Repr))
      ensures idx2.Valid() && idx2.State() == old(idx2.State()) && idx2.Repr == old(idx2.Repr)
      ensures InRange(packs0 + idx2.packs, old(State()).tree) &&
              State() == old(State()).(tree :=
                MergedRecs(packs0 + idx2.packs, old(State()).tree, |packs0|, idx2.State().tree, TreeBlob))
    {
      hide IM.Map.Valid, IM.Map.Records, MergedRecs, InRange;
      MergeTable(tree, idx2.tree, packs0, idx2.packs, TreeBlob);
      Repr := Repr + tree.Repr;
    }

    method MergeTables(idx2: Index, packs0: seq<ID>)
      requires TablesValid() && idx2.Valid() && Repr !! idx2.Repr
      requires InRange(packs0, State().data) && InRange(packs0, State().tree)
      modifies Repr
      ensures TablesValid() && fresh(Repr - old(Repr))
      ensures idx2.Valid() && idx2.State() == old(idx2.State()) && idx2.Repr == old(idx2.Repr)
      ensures InRange(packs0 + idx2.packs, old(State()).data) && InRange(packs0 + idx2.packs, old(State()).tree) &&
              State() == old(State()).(
                data := MergedRecs(packs0 + idx2.packs, old(State()).data, |packs0|, idx2.State().data, DataBlob),
                tree := MergedRecs(packs0 + idx2.packs, old(State()).tree, |packs0|, idx2.State().tree, TreeBlob))
    {
      hide MergedRecs, TablesValid, State, InRange;
      MergeData(idx2, packs0);
      MergeTree(idx2, packs0);
    }

    method AppendLists(idx2: Index)
      requires TablesValid() && idx2.Valid() && Repr !! idx2.Repr
      modifies this
      ensures TablesValid() && Repr == old(Repr)
      ensures idx2.Valid() && idx2.State() == old(idx2.State())
      ensures State() == old(State()).(
                packs := old(packs) + idx2.packs, ids := old(ids) + idx2.ids, supersedes := old(supersedes) +
                  idx2.supersedes)
    {
      hide IM.Map.Valid, IM.Map.Records;
      packs, ids, supersedes := packs + idx2.packs, ids + idx2.ids, supersedes + idx2.supersedes;
    }

    /** Merges the contents of `idx2`, which has to be final and is not changed. */
    method MergeFrom(idx2: Index) returns (ok: bool)
      requires Valid() && idx2.Valid() && Repr !! idx2.Repr
      modifies Repr
      ensures Valid() && fresh(Repr - old(Repr))
      ensures idx2.Valid() && idx2.State() == old(idx2.State())
      ensures ok <==> idx2.final
      ensures State() == if ok then Merge(old(State()), idx2.State()) else old(State())
    {
      hide MergedRecs, TablesValid, State, InRange, Merge, IndexVal.Valid;
      ok := idx2.final;
      if ok {
        var packs0 := packs;
        MergeParts(State(), idx2.State());
        MergeTables(idx2, packs0);
        AppendLists(idx2);
      }
    }
  }
}
