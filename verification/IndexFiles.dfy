/** Index files: writing an index, reading it back, and rewriting all indexes with Save. */
module IndexFiles {
  import opened BlobIndex

  const NULL_ID: ID := 0

  datatype PackJSON = PackJSON(id: ID, blobs: seq<Blob>)

  datatype IndexJSON = IndexJSON(supersedes: seq<ID>, packs: seq<PackJSON>)

  // ---------------------------------------------------------------- bags of blobs

  /** The blobs of a pack, with multiplicity. */
  ghost function PackBag(pack: ID, blobs: seq<Blob>): (b: multiset<PackedBlob>) {
    if blobs == [] then multiset{}
    else PackBag(pack, blobs[..|blobs| - 1]) + multiset{PackedBlob(blobs[|blobs| - 1], pack)}
  }

  /** The blobs of a list of packs, with multiplicity. */
  ghost function ListBag(packs: seq<PackJSON>): (b: multiset<PackedBlob>) {
    if packs == [] then multiset{}
    else ListBag(packs[..|packs| - 1]) + PackBag(packs[|packs| - 1].id, packs[|packs| - 1].blobs)
  }

  /** The blobs of an index, with multiplicity. */
  ghost function Bag(v: IndexVal): (b: multiset<PackedBlob>)
    requires v.Valid()
  {
    multiset(v.Packed(DataBlob)) + multiset(v.Packed(TreeBlob))
  }

  lemma {:induction false} ListBagUpdate(packs: seq<PackJSON>, i: nat, blob: Blob)
    requires i < |packs|
    ensures ListBag(packs[i := PackJSON(packs[i].id, packs[i].blobs + [blob])]) ==
            ListBag(packs) + multiset{PackedBlob(blob, packs[i].id)}
  {
    var ln := |packs| - 1;
    var packs' := packs[i := PackJSON(packs[i].id, packs[i].blobs + [blob])];
    if i == ln {
      assert packs'[..ln] == packs[..ln];
      assert (packs[i].blobs + [blob])[..|packs[i].blobs|] == packs[i].blobs;
    } else {
      ListBagUpdate(packs[..ln], i, blob);
      assert packs'[..ln] == packs[..ln][i := PackJSON(packs[i].id, packs[i].blobs + [blob])];
    }
  }

  lemma ListBagSnoc(packs: seq<PackJSON>, p: PackJSON)
    ensures ListBag(packs + [p]) == ListBag(packs) + PackBag(p.id, p.blobs)
  {
    assert (packs + [p])[..|packs|] == packs;
  }

  lemma {:induction false} PackBagConcat(pack: ID, a: seq<Blob>, b: seq<Blob>)
    ensures PackBag(pack, a + b) == PackBag(pack, a) + PackBag(pack, b)
  {
    if b == [] {
      assert a + b == a;
    } else {
      var ln := |b| - 1;
      assert (a + b)[..|a| + ln] == a + b[..ln];
      PackBagConcat(pack, a, b[..ln]);
    }
  }

  /** Splitting the blobs of a pack by type loses nothing. */
  lemma {:induction false} PackBagByType(pack: ID, blobs: seq<Blob>)
    ensures PackBag(pack, blobs) == multiset(OfPack(pack, blobs, DataBlob)) + multiset(OfPack(pack, blobs, TreeBlob))
  {
    if blobs != [] { PackBagByType(pack, blobs[..|blobs| - 1]); }
  }

  lemma StorePackBag(v: IndexVal, pack: ID, blobs: seq<Blob>)
    requires v.Valid()
    ensures StorePack(v, pack, blobs).Valid()
    ensures Bag(StorePack(v, pack, blobs)) == Bag(v) + PackBag(pack, blobs)
  {
    hide StorePack, IndexVal.Packed;
    StorePackAppends(v, pack, blobs, DataBlob);
    StorePackAppends(v, pack, blobs, TreeBlob);
    PackBagByType(pack, blobs);
  }

  // ---------------------------------------------------------------- writing and reading an index

  /** `where` finds every pack of the list, and each pack is listed once. */
  ghost predicate Located(list: seq<PackJSON>, where: map<ID, nat>) {
    && (forall id :: id in where ==> where[id] < |list| && list[where[id]].id == id)
    && (forall i :: 0 <= i < |list| ==> list[i].id in where && where[list[i].id] == i)
  }

  /** Adds a blob to its pack, which is listed if it was not. */
  method AddToList(list0: seq<PackJSON>, where0: map<ID, nat>, p: PackedBlob)
    returns (list: seq<PackJSON>, where: map<ID, nat>)
    requires Located(list0, where0)
    ensures Located(list, where)
    ensures ListBag(list) == ListBag(list0) + multiset{p}
  {
    hide ListBag;
    list, where := list0, where0;
    if p.pack !in where {
      where := where[p.pack := |list|];
      EmptyPack(list, p.pack);
      list := list + [PackJSON(p.pack, [])];
    }
    var i := where[p.pack];
    ListBagUpdate(list, i, p.blob);
    list := list[i := PackJSON(p.pack, list[i].blobs + [p.blob])];
  }

  /** Adds the records of one blob type to the list, each under its pack. */
  method ListType(packs: seq<ID>, recs: seq<Record>, t: BlobType, list0: seq<PackJSON>, where0: map<ID, nat>)
    returns (list: seq<PackJSON>, where: map<ID, nat>)
    requires InRange(packs, recs) && NULL_ID !in packs && Located(list0, where0)
    ensures Located(list, where)
    ensures ListBag(list) == ListBag(list0) + multiset(ToPacked(packs, recs, t))
  {
    hide ListBag, Located;
    list, where := list0, where0;
    ghost var all := ToPacked(packs, recs, t);
    for n := 0 to |recs|
      invariant Located(list, where)
      invariant ListBag(list) == ListBag(list0) + multiset(all[..n])
    {
      assert all[..n + 1] == all[..n] + [all[n]];
      list, where := AddToList(list, where, ToPackedBlob(packs, recs[n], t));
    }
    assert all[..|recs|] == all;
  }

  lemma EmptyPack(list: seq<PackJSON>, id: ID)
    ensures ListBag(list + [PackJSON(id, [])]) == ListBag(list)
  {
    ListBagSnoc(list, PackJSON(id, []));
  }

  /** generatePackList: the blobs of an index grouped by pack; a null pack id panics. */
  method GeneratePackList(v: IndexVal) returns (list: seq<PackJSON>)
    requires v.Valid() && NULL_ID !in v.packs
    ensures ListBag(list) == Bag(v)
    ensures forall i, j :: 0 <= i < j < |list| ==> list[i].id != list[j].id
  {
    var where;
    list, where := ListType(v.packs, v.data, DataBlob, [], map[]);
    list, where := ListType(v.packs, v.tree, TreeBlob, list, where);
  }

  function DecodePacks(packs: seq<PackJSON>): (v: IndexVal) {
    if packs == [] then EMPTY_INDEX
    else StorePack(DecodePacks(packs[..|packs| - 1]), packs[|packs| - 1].id, packs[|packs| - 1].blobs)
  }

  function DecodeIndex(json: IndexJSON, id: ID): (v: IndexVal) {
    DecodePacks(json.packs).(supersedes := json.supersedes, ids := [id], final := true)
  }

  lemma {:induction false} DecodePacksBag(packs: seq<PackJSON>)
    ensures DecodePacks(packs).Valid() && Bag(DecodePacks(packs)) == ListBag(packs)
  {
    hide StorePack, Bag;
    if packs == [] {
      EmptyBag();
    } else {
      DecodePacksBag(packs[..|packs| - 1]);
      StorePackBag(DecodePacks(packs[..|packs| - 1]), packs[|packs| - 1].id, packs[|packs| - 1].blobs);
    }
  }

  lemma EmptyBag()
    ensures EMPTY_INDEX.Valid() && Bag(EMPTY_INDEX) == multiset{}
  {
  }

  /** An index file says what it holds: decoding gives back the listed blobs. */
  lemma DecodeIndexBag(json: IndexJSON, id: ID)
    ensures DecodeIndex(json, id).Valid() && Bag(DecodeIndex(json, id)) == ListBag(json.packs)
  {
    DecodePacksBag(json.packs);
  }

  // ---------------------------------------------------------------- rewriting all indexes

  predicate Dropped(final: bool, blacklist: set<ID>, pack: ID) {
    final && pack in blacklist
  }

  /** The blobs that Save takes over from an index: all of them, except for those that a final index
      has in blacklisted packs. */
  ghost function Kept(packed: seq<PackedBlob>, final: bool, blacklist: set<ID>): (b: multiset<PackedBlob>) {
    if packed == [] then multiset{}
    else
      var p := packed[|packed| - 1];
      Kept(packed[..|packed| - 1], final, blacklist) +
        (if Dropped(final, blacklist, p.pack) then multiset{} else multiset{p})
  }

  ghost function KeptOf(v: IndexVal, blacklist: set<ID>): (b: multiset<PackedBlob>)
    requires v.Valid()
  {
    Kept(v.Packed(DataBlob), v.final, blacklist) + Kept(v.Packed(TreeBlob), v.final, blacklist)
  }

  /** Kept is what its name says. */
  lemma {:induction false} KeptCount(packed: seq<PackedBlob>, final: bool, blacklist: set<ID>, p: PackedBlob)
    ensures Kept(packed, final, blacklist)[p] == if final && p.pack in blacklist then 0 else multiset(packed)[p]
  {
    if packed != [] {
      var ln := |packed| - 1;
      KeptCount(packed[..ln], final, blacklist, p);
      assert packed == packed[..ln] + [packed[ln]];
    }
  }

  ghost function AnyKey<T>(m: map<ID, T>): (id: ID)
    requires m != map[]
    ensures id in m
  {
    var id :| id in m; id
  }

  /** The blobs collected under their packs, with multiplicity. */
  ghost function GroupBag(byPack: map<ID, seq<Blob>>): (b: multiset<PackedBlob>) {
    if byPack == map[] then multiset{}
    else GroupBag(byPack - {AnyKey(byPack)}) + PackBag(AnyKey(byPack), byPack[AnyKey(byPack)])
  }

  /** The order in which a map is iterated does not matter. */
  lemma {:induction false} GroupBagTake(byPack: map<ID, seq<Blob>>, id: ID)
    requires id in byPack
    ensures GroupBag(byPack) == GroupBag(byPack - {id}) + PackBag(id, byPack[id])
    decreases |byPack|
  {
    hide PackBag;
    var first := AnyKey(byPack);
    if first != id {
      var rest := byPack - {first} - {id};
      assert rest == byPack - {id} - {first};
      GroupBagTake(byPack - {first}, id);
      GroupBagTake(byPack - {id}, first);
      assert GroupBag(byPack) == GroupBag(rest) + PackBag(id, byPack[id]) + PackBag(first, byPack[first]);
    }
  }

  function Under(byPack: map<ID, seq<Blob>>, id: ID): (blobs: seq<Blob>) {
    if id in byPack then byPack[id] else []
  }

  lemma GroupBagAppend(byPack: map<ID, seq<Blob>>, p: PackedBlob)
    ensures GroupBag(byPack[p.pack := Under(byPack, p.pack) + [p.blob]]) == GroupBag(byPack) + multiset{p}
  {
    hide GroupBag;
    var before := Under(byPack, p.pack);
    var byPack' := byPack[p.pack := before + [p.blob]];
    GroupBagTake(byPack', p.pack);
    assert (before + [p.blob])[..|before|] == before;
    if p.pack in byPack {
      GroupBagTake(byPack, p.pack);
      assert byPack' - {p.pack} == byPack - {p.pack};
    } else {
      assert byPack' - {p.pack} == byPack;
    }
  }

  lemma EmptyGroups()
    ensures GroupBag(map[]) == multiset{}
  {
  }

  lemma KeptNone(final: bool, blacklist: set<ID>)
    ensures Kept([], final, blacklist) == multiset{}
  {
  }

  lemma KeptNext(all: seq<PackedBlob>, n: nat, final: bool, blacklist: set<ID>)
    requires n < |all|
    ensures Kept(all[..n + 1], final, blacklist) ==
      Kept(all[..n], final, blacklist) +
        (if Dropped(final, blacklist, all[n].pack) then multiset{} else multiset{all[n]})
  {
    assert all[..n + 1][..n] == all[..n];
  }

  /** Adds the records of one blob type to the blobs collected under their packs. */
  method CollectType(packs: seq<ID>, recs: seq<Record>, t: BlobType, final: bool, blacklist: set<ID>, byPack0: map<ID,
                     seq<Blob>>)
    returns (byPack: map<ID, seq<Blob>>)
    requires InRange(packs, recs)
    requires forall id :: id in byPack0 ==> id in packs
    ensures GroupBag(byPack) == GroupBag(byPack0) + Kept(ToPacked(packs, recs, t), final, blacklist)
    ensures forall id :: id in byPack ==> id in packs
  {
    hide GroupBag, Kept;
    byPack := byPack0;
    ghost var all := ToPacked(packs, recs, t);
    KeptNone(final, blacklist);
    for n := 0 to |recs|
      invariant GroupBag(byPack) == GroupBag(byPack0) + Kept(all[..n], final, blacklist)
      invariant forall id :: id in byPack ==> id in packs
    {
      var p := ToPackedBlob(packs, recs[n], t);
      KeptNext(all, n, final, blacklist);
      if !Dropped(final, blacklist, p.pack) {
        GroupBagAppend(byPack, p);
        byPack := byPack[p.pack := Under(byPack, p.pack) + [p.blob]];
      }
    }
    assert all[..|recs|] == all;
  }

  method Collect(v: IndexVal, blacklist: set<ID>) returns (byPack: map<ID, seq<Blob>>)
    requires v.Valid()
    ensures GroupBag(byPack) == KeptOf(v, blacklist)
    ensures forall id :: id in byPack ==> id in v.packs
  {
    hide GroupBag, Kept;
    EmptyGroups();
    byPack := CollectType(v.packs, v.data, DataBlob, v.final, blacklist, map[]);
    byPack := CollectType(v.packs, v.tree, TreeBlob, v.final, blacklist, byPack);
  }

  /** EachByPack: the blobs grouped by pack, in the arbitrary order of a map iteration. */
  method EachByPack(v: IndexVal, blacklist: set<ID>) returns (groups: seq<PackJSON>)
    requires v.Valid()
    ensures ListBag(groups) == KeptOf(v, blacklist)
    ensures forall g :: g in groups ==> g.id in v.packs
  {
    hide GroupBag, ListBag, PackBag, Kept, KeptOf;
    EmptyGroups();
    EmptyList();
    var byPack := Collect(v, blacklist);
    groups := [];
    while byPack != map[]
      invariant ListBag(groups) + GroupBag(byPack) == KeptOf(v, blacklist)
      invariant forall id :: id in byPack ==> id in v.packs
      invariant forall g :: g in groups ==> g.id in v.packs
      decreases |byPack|
    {
      var id :| id in byPack;
      GroupBagTake(byPack, id);
      ListBagSnoc(groups, PackJSON(id, byPack[id]));
      groups := groups + [PackJSON(id, byPack[id])];
      byPack := byPack - {id};
    }
  }

  lemma EmptyList()
    ensures ListBag([]) == multiset{}
  {
  }

  /** What the written index files hold once they are read again. */
  ghost function DecodedBag(files: seq<IndexJSON>): (b: multiset<PackedBlob>) {
    if files == [] then multiset{}
    else
      var json := files[|files| - 1];
      DecodeIndexBag(json, NULL_ID);
      DecodedBag(files[..|files| - 1]) + Bag(DecodeIndex(json, NULL_ID))
  }

  ghost function Superseded(files: seq<IndexJSON>): (ids: set<ID>) {
    set f, id | f in files && id in f.supersedes :: id
  }

  /** A new index that is being filled: nothing is lost between it and the files already written. */
  ghost predicate Filling(v: IndexVal) {
    v.Valid() && NULL_ID !in v.packs
  }

  /** Finalizing and saving the new index. */
  method WriteFile(v: IndexVal, files0: seq<IndexJSON>) returns (files: seq<IndexJSON>)
    requires Filling(v)
    ensures DecodedBag(files) == DecodedBag(files0) + Bag(v)
    ensures Superseded(files) == Superseded(files0) + (set id | id in v.supersedes)
  {
    hide Bag, ListBag, DecodeIndex;
    var list := GeneratePackList(v);
    var json := IndexJSON(v.supersedes, list);
    DecodeIndexBag(json, NULL_ID);
    files := files0 + [json];
    assert files[..|files0|] == files0;
  }

  /** Stores the packs of one index; whenever the new index counts as full it is written and a fresh
      one is started.  When that happens depends on sizes and time and is left open. */
  method TakeOver(groups: seq<PackJSON>, v0: IndexVal, files0: seq<IndexJSON>)
    returns (v: IndexVal, files: seq<IndexJSON>)
    requires Filling(v0) && !v0.final
    requires forall g :: g in groups ==> g.id != NULL_ID
    ensures Filling(v) && !v.final
    ensures DecodedBag(files) + Bag(v) == DecodedBag(files0) + Bag(v0) + ListBag(groups)
    ensures Superseded(files) + (set id | id in v.supersedes) == Superseded(files0) + (set id | id in v0.supersedes)
  {
    hide Bag, ListBag, DecodedBag, Superseded, IndexVal.Valid, PackBag;
    v, files := v0, files0;
    EmptyList();
    for n := 0 to |groups|
      invariant Filling(v) && !v.final
      invariant DecodedBag(files) + Bag(v) == DecodedBag(files0) + Bag(v0) + ListBag(groups[..n])
      invariant Superseded(files) + (set id | id in v.supersedes) == Superseded(files0) + (set id | id in v0.supersedes)
    {
      var g := groups[n];
      assert groups[..n + 1] == groups[..n] + [g];
      ListBagSnoc(groups[..n], g);
      StorePackBag(v, g.id, g.blobs);
      ghost var written, before := DecodedBag(files), Bag(v);
      v := StorePack(v, g.id, g.blobs);
      assert written + Bag(v) == (written + before) + PackBag(g.id, g.blobs);
      var full: bool := *;
      if full {
        files := WriteFile(v, files);
        EmptyBag();
        v := EMPTY_INDEX;
      }
    }
    assert groups[..|groups|] == groups;
  }

  ghost function KeptAll(idxs: seq<IndexVal>, blacklist: set<ID>): (b: multiset<PackedBlob>)
    requires forall v :: v in idxs ==> v.Valid()
  {
    if idxs == [] then multiset{}
    else KeptAll(idxs[..|idxs| - 1], blacklist) + KeptOf(idxs[|idxs| - 1], blacklist)
  }

  ghost function FinalIDs(idxs: seq<IndexVal>): (ids: set<ID>) {
    set v, id | v in idxs && v.final && id in v.ids :: id
  }

  // ---------------------------------------------------------------- counting blobs

  /** How often a list of packs names a blob under its pack. */
  ghost function InList(packs: seq<PackJSON>, p: PackedBlob): (n: nat) {
    if packs == [] then 0
    else
      var g := packs[|packs| - 1];
      InList(packs[..|packs| - 1], p) + (if g.id == p.pack then multiset(g.blobs)[p.blob] else 0)
  }

  /** How often the index files name it. */
  ghost function InFiles(files: seq<IndexJSON>, p: PackedBlob): (n: nat) {
    if files == [] then 0 else InFiles(files[..|files| - 1], p) + InList(files[|files| - 1].packs, p)
  }

  /** How often the indexes have it, the final ones only if its pack is not on the blacklist. */
  ghost function InIndexes(idxs: seq<IndexVal>, blacklist: set<ID>, p: PackedBlob): (n: nat)
    requires forall v :: v in idxs ==> v.Valid()
  {
    if idxs == [] then 0
    else
      var v := idxs[|idxs| - 1];
      InIndexes(idxs[..|idxs| - 1], blacklist, p) +
        (if v.final && p.pack in blacklist then 0 else multiset(v.Packed(p.blob.handle.tpe))[p])
  }

  lemma {:induction false} PackBagCount(pack: ID, blobs: seq<Blob>, p: PackedBlob)
    ensures PackBag(pack, blobs)[p] == if pack == p.pack then multiset(blobs)[p.blob] else 0
  {
    if blobs != [] {
      var ln := |blobs| - 1;
      PackBagCount(pack, blobs[..ln], p);
      assert blobs == blobs[..ln] + [blobs[ln]];
    }
  }

  lemma {:induction false} ListBagCount(packs: seq<PackJSON>, p: PackedBlob)
    ensures ListBag(packs)[p] == InList(packs, p)
  {
    if packs != [] {
      ListBagCount(packs[..|packs| - 1], p);
      PackBagCount(packs[|packs| - 1].id, packs[|packs| - 1].blobs, p);
    }
  }

  /** The blobs of an index are in the bag exactly as often as their own type has them. */
  lemma BagCount(v: IndexVal, p: PackedBlob)
    requires v.Valid()
    ensures Bag(v)[p] == multiset(v.Packed(p.blob.handle.tpe))[p]
  {
    var other := if p.blob.handle.tpe.DataBlob? then TreeBlob else DataBlob;
    assert p !in v.Packed(other);
  }

  /** Reading an index file gives each blob as often as the file names it. */
  lemma DecodeCount(json: IndexJSON, id: ID, p: PackedBlob)
    ensures DecodeIndex(json, id).Valid()
    ensures multiset(DecodeIndex(json, id).Packed(p.blob.handle.tpe))[p] == InList(json.packs, p)
  {
    hide Bag, DecodeIndex, IndexVal.Packed;
    DecodeIndexBag(json, id);
    BagCount(DecodeIndex(json, id), p);
    ListBagCount(json.packs, p);
  }

  lemma {:induction false} DecodedCount(files: seq<IndexJSON>, p: PackedBlob)
    ensures DecodedBag(files)[p] == InFiles(files, p)
  {
    hide Bag, DecodeIndex;
    if files != [] {
      var json := files[|files| - 1];
      DecodedCount(files[..|files| - 1], p);
      DecodeIndexBag(json, NULL_ID);
      ListBagCount(json.packs, p);
    }
  }

  lemma KeptOfCount(v: IndexVal, blacklist: set<ID>, p: PackedBlob)
    requires v.Valid()
    ensures KeptOf(v, blacklist)[p] ==
            if v.final && p.pack in blacklist then 0 else multiset(v.Packed(p.blob.handle.tpe))[p]
  {
    hide Kept;
    KeptCount(v.Packed(DataBlob), v.final, blacklist, p);
    KeptCount(v.Packed(TreeBlob), v.final, blacklist, p);
    BagCount(v, p);
  }

  lemma {:induction false} KeptAllCount(idxs: seq<IndexVal>, blacklist: set<ID>, p: PackedBlob)
    requires forall v :: v in idxs ==> v.Valid()
    ensures KeptAll(idxs, blacklist)[p] == InIndexes(idxs, blacklist, p)
  {
    hide KeptOf, IndexVal.Packed, IndexVal.Valid;
    if idxs != [] {
      KeptAllCount(idxs[..|idxs| - 1], blacklist, p);
      KeptOfCount(idxs[|idxs| - 1], blacklist, p);
    }
  }

  // ---------------------------------------------------------------- Save

  /** Save rewrites all indexes.  Wherever the cuts between the new files fall, the files name every
      blob exactly as often as the old indexes had it, not counting what final indexes have in
      blacklisted packs, and reading them back gives the same; the files supersede exactly the indexes
      reported as obsolete, which are the final ones and the extra ones. */
  method Save(idxs: seq<IndexVal>, blacklist: set<ID>, extraObsolete: seq<ID>)
    returns (files: seq<IndexJSON>, obsolete: set<ID>)
    requires forall v :: v in idxs ==> v.Valid() && NULL_ID !in v.packs
    ensures DecodedBag(files) == KeptAll(idxs, blacklist)
    ensures forall p :: InFiles(files, p) == InIndexes(idxs, blacklist, p)
    ensures forall id :: id in obsolete <==> id in extraObsolete || exists v :: v in idxs && v.final && id in v.ids
    ensures forall id :: id in obsolete <==> exists f :: f in files && id in f.supersedes
  {
    files, obsolete := Rewrite(idxs, blacklist, extraObsolete);
    hide KeptAll, DecodedBag, InFiles, InIndexes;
    forall p ensures InFiles(files, p) == InIndexes(idxs, blacklist, p) {
      DecodedCount(files, p);
      KeptAllCount(idxs, blacklist, p);
    }
  }

  method Rewrite(idxs: seq<IndexVal>, blacklist: set<ID>, extraObsolete: seq<ID>)
    returns (files: seq<IndexJSON>, obsolete: set<ID>)
    requires forall v :: v in idxs ==> v.Valid() && NULL_ID !in v.packs
    ensures DecodedBag(files) == KeptAll(idxs, blacklist)
    ensures Superseded(files) == obsolete == FinalIDs(idxs) + (set id | id in extraObsolete)
  {
    hide Bag, ListBag, DecodedBag, Superseded, KeptOf, IndexVal.Valid;
    var newIndex := EMPTY_INDEX;
    files, obsolete := [], {};
    NothingWritten();
    EmptyBag();
    for n := 0 to |idxs|
      invariant Filling(newIndex) && !newIndex.final
      invariant DecodedBag(files) + Bag(newIndex) == KeptAll(idxs[..n], blacklist)
      invariant Superseded(files) + (set id | id in newIndex.supersedes) == obsolete == FinalIDs(idxs[..n])
    {
      var v := idxs[n];
      assert idxs[..n + 1][..n] == idxs[..n];
      FinalIDsSnoc(idxs[..n], v);
      assert idxs[..n + 1] == idxs[..n] + [v];
      if v.final {
        Relabel(newIndex, newIndex.supersedes + v.ids);
        newIndex := newIndex.(supersedes := newIndex.supersedes + v.ids);
        obsolete := obsolete + (set id | id in v.ids);
      }
      var groups := EachByPack(v, blacklist);
      newIndex, files := TakeOver(groups, newIndex, files);
    }
    assert idxs[..|idxs|] == idxs;
    Relabel(newIndex, newIndex.supersedes + extraObsolete);
    newIndex := newIndex.(supersedes := newIndex.supersedes + extraObsolete);
    obsolete := obsolete + (set id | id in extraObsolete);
    files := WriteFile(newIndex, files);
  }

  lemma NothingWritten()
    ensures DecodedBag([]) == multiset{} && Superseded([]) == {}
  {
  }

  /** The supersedes list is no part of the blobs of an index. */
  lemma Relabel(v: IndexVal, supersedes: seq<ID>)
    requires Filling(v)
    ensures Filling(v.(supersedes := supersedes)) && Bag(v.(supersedes := supersedes)) == Bag(v)
  {
  }

  lemma FinalIDsSnoc(idxs: seq<IndexVal>, v: IndexVal)
    ensures FinalIDs(idxs + [v]) == FinalIDs(idxs) + (if v.final then (set id | id in v.ids) else {})
  {
  }
}
