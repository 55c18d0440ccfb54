/** Planning a restore: which packs are needed, and which blobs of which files come from each of them.
    Files with many blobs keep their offsets by pack, the others have them computed again per pack. */
module RestorePlan {

  datatype Blob = Blob(id: nat, length: nat)

  datatype PackedBlob = PackedBlob(pack: nat, blob: Blob)

  /** A blob of a file: its id and its offset in the file. */
  datatype FileBlob = FileBlob(id: nat, offset: nat)

  /** How a file's blobs are kept after planning. */
  datatype FileBlobs = Ids(ids: seq<nat>) | ByPack(packs: map<nat, seq<FileBlob>>)

  type Lookup = nat -> seq<PackedBlob>

  const LARGE_FILE_BLOB_COUNT: nat := 25

  /** The index returns only copies of the blob that was asked for. */
  ghost predicate Answers(idx: Lookup) {
    forall id, k :: 0 <= k < |idx(id)| ==> idx(id)[k].blob.id == id
  }

  predicate Known(idx: Lookup, ids: seq<nat>) {
    forall i :: 0 <= i < |ids| ==> idx(ids[i]) != []
  }

  function Length(idx: Lookup, id: nat): (r: nat) {
    if idx(id) == [] then 0 else idx(id)[0].blob.length
  }

  predicate InPack(idx: Lookup, id: nat, pack: nat) {
    idx(id) != [] && idx(id)[0].pack == pack
  }

  /** The offset of the i-th blob in the file. */
  function Offset(idx: Lookup, ids: seq<nat>, i: nat): (r: nat)
    requires i <= |ids|
  {
    if i == 0 then 0 else Offset(idx, ids, i - 1) + Length(idx, ids[i - 1])
  }

  /** The blobs of a file, up to the n-th, that are taken from a pack, with their offsets. */
  function Entries(idx: Lookup, ids: seq<nat>, pack: nat, n: nat): (r: seq<FileBlob>)
    requires n <= |ids|
  {
    if n == 0 then []
    else Entries(idx, ids, pack, n - 1)
         + (if InPack(idx, ids[n - 1], pack) then [FileBlob(ids[n - 1], Offset(idx, ids, n - 1))] else [])
  }

  function AllEntries(idx: Lookup, ids: seq<nat>, pack: nat): (r: seq<FileBlob>) {
    Entries(idx, ids, pack, |ids|)
  }

  function At(m: map<nat, seq<FileBlob>>, pack: nat): (r: seq<FileBlob>) {
    if pack in m then m[pack] else []
  }

  /** The files, by number, that are to be written from a pack. */
  function Users(packs: map<nat, set<nat>>, pack: nat): (r: set<nat>) {
    if pack in packs then packs[pack] else {}
  }

  /** One of the first n blobs is taken from the pack. */
  predicate Takes(idx: Lookup, ids: seq<nat>, pack: nat, n: nat)
    requires n <= |ids|
  {
    exists i :: 0 <= i < n && InPack(idx, ids[i], pack)
  }

  /** Every pack in the table has users and is in the order exactly once. */
  ghost predicate InOrder(packs: map<nat, set<nat>>, order: seq<nat>) {
    && (forall p :: p in order <==> p in packs)
    && (forall p :: p in packs ==> packs[p] != {})
    && (forall i, j :: 0 <= i < j < |order| ==> order[i] != order[j])
  }

  method AddUser(packs0: map<nat, set<nat>>, order0: seq<nat>, pack: nat, f: nat)
    returns (packs: map<nat, set<nat>>, order: seq<nat>)
    requires InOrder(packs0, order0)
    ensures InOrder(packs, order) && order0 <= order
    ensures forall p :: Users(packs, p) == Users(packs0, p) + if p == pack then {f} else {}
  {
    packs, order := packs0, order0;
    if pack !in packs {
      packs := packs[pack := {}];
      order := order + [pack];
    }
    packs := packs[pack := packs[pack] + {f}];
  }

  function Append(m: map<nat, seq<FileBlob>>, pack: nat, e: FileBlob): (r: map<nat, seq<FileBlob>>)
    ensures forall p :: At(r, p) == At(m, p) + if p == pack then [e] else []
  {
    m[pack := At(m, pack) + [e]]
  }

  /** Going through the blobs of one file: the packs it needs, and, for a large file, its blobs by pack. */
  method PlanFile(idx: Lookup, ids: seq<nat>, f: nat, zeroChunk: nat, sparseOption: bool,
                  packs0: map<nat, set<nat>>, order0: seq<nat>)
    returns (packs: map<nat, set<nat>>, order: seq<nat>, blobs: FileBlobs, sparse: bool, ok: bool)
    requires Answers(idx) && InOrder(packs0, order0)
    ensures ok <==> Known(idx, ids)
    ensures InOrder(packs, order) && order0 <= order
    ensures ok ==> forall p :: Users(packs, p) == Users(packs0, p) + if Takes(idx, ids, p, |ids|) then {f} else {}
    ensures ok ==> Stands(idx, ids, blobs)
    ensures ok ==> (sparse <==> sparseOption && (zeroChunk in ids || |ids| == 1))
  {
    hide InOrder, Users, At;
    packs, order, sparse := packs0, order0, false;
    blobs := Ids(ids);
    var large := |ids| > LARGE_FILE_BLOB_COUNT;
    var packsMap: map<nat, seq<FileBlob>> := map[];
    NoEntries();
    var fileOffset := 0;
    var i := 0;
    while i < |ids|
      invariant i <= |ids| && forall k :: 0 <= k < i ==> idx(ids[k]) != []
      invariant InOrder(packs, order) && order0 <= order
      invariant forall p :: Users(packs, p) == Users(packs0, p) + if Takes(idx, ids, p, i) then {f} else {}
      invariant large ==> fileOffset == Offset(idx, ids, i)
      invariant large ==> forall p :: At(packsMap, p) == Entries(idx, ids, p, i)
      invariant sparse <==> sparseOption && exists k :: 0 <= k < i && ids[k] == zeroChunk
    {
      var found := idx(ids[i]);
      if found == [] {
        if |ids| == 1 { sparse := sparseOption; }
        return packs, order, blobs, sparse, false;
      }
      var pack, blob := found[0].pack, found[0].blob;
      if large {
        packsMap := Append(packsMap, pack, FileBlob(blob.id, fileOffset));
        fileOffset := fileOffset + blob.length;
      }
      packs, order := AddUser(packs, order, pack, f);
      if blob.id == zeroChunk { sparse := sparseOption; }
      TakesNext(idx, ids, i, pack);
      i := i + 1;
    }
    if |ids| == 1 { sparse := sparseOption; }
    if large { blobs := ByPack(packsMap); }
    return packs, order, blobs, sparse, true;
  }

  /** What is kept of a file stands for its blobs. */
  ghost predicate Stands(idx: Lookup, ids: seq<nat>, blobs: FileBlobs) {
    if |ids| > LARGE_FILE_BLOB_COUNT
    then blobs.ByPack? && forall p :: At(blobs.packs, p) == AllEntries(idx, ids, p)
    else blobs == Ids(ids)
  }

  lemma NoEntries()
    ensures forall p :: At(map[], p) == []
  {
  }

  lemma TakesNext(idx: Lookup, ids: seq<nat>, i: nat, pack: nat)
    requires i < |ids| && InPack(idx, ids[i], pack)
    ensures forall p :: Takes(idx, ids, p, i + 1) <==> Takes(idx, ids, p, i) || p == pack
  {
    forall p | Takes(idx, ids, p, i) || p == pack ensures Takes(idx, ids, p, i + 1) {
      if p == pack { assert InPack(idx, ids[i], p); }
    }
  }

  /** Of the first n files, exactly those that take a blob from a pack are its users. */
  ghost predicate UsersAre(idx: Lookup, files: seq<seq<nat>>, packs: map<nat, set<nat>>, n: nat)
    requires n <= |files|
  {
    forall p: nat, g: nat {:trigger g in Users(packs, p)} :: g in Users(packs, p) <==>
      g < n && Takes(idx, files[g], p, |files[g]|)
  }

  /** The first half of restoreFiles: the packs that are needed, each once, with exactly the files that take
      a blob from them. */
  method PlanFiles(idx: Lookup, files: seq<seq<nat>>, zeroChunk: nat, sparseOption: bool)
    returns (packs: map<nat, set<nat>>, order: seq<nat>, blobs: seq<FileBlobs>, sparse: seq<bool>, ok: bool)
    requires Answers(idx)
    ensures ok <==> forall f :: 0 <= f < |files| ==> Known(idx, files[f])
    ensures ok ==> InOrder(packs, order) && |blobs| == |sparse| == |files|
    ensures ok ==> UsersAre(idx, files, packs, |files|)
    ensures ok ==> forall f :: 0 <= f < |files| ==> Stands(idx, files[f], blobs[f])
    ensures ok ==> forall f :: 0 <= f < |files| ==>
      (sparse[f] <==> sparseOption && (zeroChunk in files[f] || |files[f]| == 1))
  {
    hide Known, Takes, Stands;
    packs, order, blobs, sparse := map[], [], [], [];
    assert forall p :: Users(packs, p) == {};
    var f := 0;
    while f < |files|
      invariant f <= |files| && |blobs| == |sparse| == f && InOrder(packs, order)
      invariant forall g :: 0 <= g < f ==> Known(idx, files[g])
      invariant UsersAre(idx, files, packs, f)
      invariant forall g :: 0 <= g < f ==> Stands(idx, files[g], blobs[g])
      invariant forall g :: 0 <= g < f ==>
        (sparse[g] <==> sparseOption && (zeroChunk in files[g] || |files[g]| == 1))
    {
      ghost var before := packs;
      var b, sp, known;
      packs, order, b, sp, known := PlanFile(idx, files[f], f, zeroChunk, sparseOption, packs, order);
      if !known {
        return packs, order, blobs, sparse, false;
      }
      NextUser(idx, files, f, before, packs);
      blobs, sparse := blobs + [b], sparse + [sp];
      f := f + 1;
    }
    return packs, order, blobs, sparse, true;
  }

  lemma NextUser(idx: Lookup, files: seq<seq<nat>>, f: nat, before: map<nat, set<nat>>, packs: map<nat, set<nat>>)
    requires f < |files|
    requires UsersAre(idx, files, before, f)
    requires forall p :: Users(packs, p) == Users(before, p) + if Takes(idx, files[f], p, |files[f]|) then {f} else {}
    ensures UsersAre(idx, files, packs, f + 1)
  {
    hide Takes, Users;
    forall p: nat, g: nat ensures g in Users(packs, p) <==> g < f + 1 && Takes(idx, files[g], p, |files[g]|) {
      assert g in Users(packs, p) <==> g in Users(before, p) || (g == f && Takes(idx, files[f], p, |files[f]|));
    }
  }

  // ---------------------------------------------------------------- one pack

  /** For each blob and file, the offsets to write the blob to. */
  type Table = map<nat, map<nat, seq<nat>>>

  function Spots(t: Table, id: nat, f: nat): (r: seq<nat>) {
    if id in t && f in t[id] then t[id][f] else []
  }

  /** The offsets of a blob among the entries. */
  function Places(entries: seq<FileBlob>, id: nat): (r: seq<nat>) {
    if entries == [] then []
    else Places(entries[..|entries| - 1], id)
         + (if entries[|entries| - 1].id == id then [entries[|entries| - 1].offset] else [])
  }

  /** The blobs to stream: those in the table, each once, as the index has them. */
  ghost predicate Listed(idx: Lookup, pack: nat, t: Table, list: seq<Blob>) {
    && (forall k :: 0 <= k < |list| ==> list[k].id in t && InPack(idx, list[k].id, pack))
    && (forall k :: 0 <= k < |list| && InPack(idx, list[k].id, pack) ==> list[k] == idx(list[k].id)[0].blob)
    && (forall id :: id in t ==> exists k :: 0 <= k < |list| && list[k].id == id)
    && (forall i, j :: 0 <= i < j < |list| ==> list[i].id != list[j].id)
  }

  /** The table is `t0` with the offsets for one file added. */
  ghost predicate Adds(t0: Table, t: Table, f: nat, entries: seq<FileBlob>) {
    forall id, g :: Spots(t, id, g) == Spots(t0, id, g) + if g == f then Places(entries, id) else []
  }

  lemma ListedMore(idx: Lookup, pack: nat, t: Table, list: seq<Blob>, blob: Blob)
    requires Listed(idx, pack, t, list) && InPack(idx, blob.id, pack) && blob == idx(blob.id)[0].blob
    requires blob.id !in t
    ensures Listed(idx, pack, t[blob.id := map[]], list + [blob])
  {
    var t', list' := t[blob.id := map[]], list + [blob];
    assert list'[|list|].id == blob.id;
    forall id | id in t' ensures exists k :: 0 <= k < |list'| && list'[k].id == id {
      if id in t {
        var k :| 0 <= k < |list| && list[k].id == id;
        assert list'[k].id == id;
      }
    }
  }

  lemma ListedSame(idx: Lookup, pack: nat, t: Table, t': Table, list: seq<Blob>)
    requires Listed(idx, pack, t, list) && t'.Keys == t.Keys
    ensures Listed(idx, pack, t', list)
  {
    assert forall id :: id in t' <==> id in t'.Keys;
    assert forall id :: id in t <==> id in t.Keys;
  }

  /** The table with one more offset. */
  function WithSpot(t: Table, id: nat, f: nat, offset: nat): (t': Table)
    ensures t'.Keys == t.Keys + {id}
    ensures forall x, g :: Spots(t', x, g) == Spots(t, x, g) + if x == id && g == f then [offset] else []
  {
    var files: map<nat, seq<nat>> := if id in t then t[id] else map[];
    t[id := files[f := Spots(t, id, f) + [offset]]]
  }

  method AddBlob(idx: Lookup, pack: nat, t0: Table, list0: seq<Blob>, blob: Blob, f: nat, offset: nat)
    returns (t: Table, list: seq<Blob>)
    requires Listed(idx, pack, t0, list0) && InPack(idx, blob.id, pack) && blob == idx(blob.id)[0].blob
    ensures Listed(idx, pack, t, list)
    ensures forall id, g :: Spots(t, id, g) == Spots(t0, id, g) + if id == blob.id && g == f then [offset] else []
  {
    hide Listed, WithSpot;
    t, list := t0, list0;
    if blob.id !in t {
      ListedMore(idx, pack, t, list, blob);
      list := list + [blob];
      t := t[blob.id := map[]];
    }
    assert forall id, g :: Spots(t, id, g) == Spots(t0, id, g);
    ListedSame(idx, pack, t, WithSpot(t, blob.id, f, offset), list);
    t := WithSpot(t, blob.id, f, offset);
  }

  /** A small file: its offsets are computed again, and the blobs of this pack are added. */
  method CollectIds(idx: Lookup, pack: nat, t0: Table, list0: seq<Blob>, ids: seq<nat>, f: nat)
    returns (t: Table, list: seq<Blob>)
    requires Answers(idx) && Known(idx, ids) && Listed(idx, pack, t0, list0)
    ensures Listed(idx, pack, t, list) && Adds(t0, t, f, AllEntries(idx, ids, pack))
  {
    hide Listed, Spots, Adds;
    t, list := t0, list0;
    NothingAdded(t, f);
    var fileOffset := 0;
    var i := 0;
    while i < |ids|
      invariant i <= |ids| && fileOffset == Offset(idx, ids, i)
      invariant Listed(idx, pack, t, list) && Adds(t0, t, f, Entries(idx, ids, pack, i))
    {
      var p := idx(ids[i])[0];
      if p.pack == pack {
        ghost var t1 := t;
        t, list := AddBlob(idx, pack, t, list, p.blob, f, fileOffset);
        AddsNext(t0, t1, t, f, Entries(idx, ids, pack, i), FileBlob(p.blob.id, fileOffset));
      } else {
        assert Entries(idx, ids, pack, i + 1) == Entries(idx, ids, pack, i);
      }
      fileOffset := fileOffset + p.blob.length;
      i := i + 1;
    }
  }

  lemma AddsNext(t0: Table, t1: Table, t: Table, f: nat, entries: seq<FileBlob>, e: FileBlob)
    requires Adds(t0, t1, f, entries)
    requires forall id, g :: Spots(t, id, g) == Spots(t1, id, g) + if id == e.id && g == f then [e.offset] else []
    ensures Adds(t0, t, f, entries + [e])
  {
    hide Spots;
    assert (entries + [e])[..|entries|] == entries;
  }

  lemma NothingAdded(t: Table, f: nat)
    ensures Adds(t, t, f, [])
  {
  }

  method FindPack(found: seq<PackedBlob>, pack: nat) returns (k: nat)
    ensures k <= |found| && (forall j :: 0 <= j < k ==> found[j].pack != pack)
    ensures k < |found| ==> found[k].pack == pack
  {
    k := 0;
    while k < |found| && found[k].pack != pack
      invariant k <= |found| && forall j :: 0 <= j < k ==> found[j].pack != pack
    {
      k := k + 1;
    }
  }

  /** A large file: the blobs kept for this pack are looked up again and added. */
  method CollectByPack(idx: Lookup, pack: nat, t0: Table, list0: seq<Blob>, entries: seq<FileBlob>, f: nat)
    returns (t: Table, list: seq<Blob>)
    requires Answers(idx) && Listed(idx, pack, t0, list0)
    requires forall k :: 0 <= k < |entries| ==> InPack(idx, entries[k].id, pack)
    ensures Listed(idx, pack, t, list) && Adds(t0, t, f, entries)
  {
    hide Listed, Spots, Adds;
    t, list := t0, list0;
    NothingAdded(t, f);
    var i := 0;
    while i < |entries|
      invariant i <= |entries|
      invariant Listed(idx, pack, t, list) && Adds(t0, t, f, entries[..i])
    {
      var found := idx(entries[i].id);
      var k := FindPack(found, pack);
      if k < |found| {
        ghost var t1 := t;
        t, list := AddBlob(idx, pack, t, list, found[k].blob, f, entries[i].offset);
        AddsNext(t0, t1, t, f, entries[..i], entries[i]);
        assert entries[..i + 1] == entries[..i] + [entries[i]];
      }
      i := i + 1;
    }
    assert entries[..i] == entries;
  }

  lemma {:induction false} EntriesInPack(idx: Lookup, ids: seq<nat>, pack: nat, n: nat)
    requires n <= |ids|
    ensures forall k :: 0 <= k < |Entries(idx, ids, pack, n)| ==> InPack(idx, Entries(idx, ids, pack, n)[k].id, pack)
  {
    if n > 0 { EntriesInPack(idx, ids, pack, n - 1); }
  }

  /** The first half of downloadPack: whichever way a file's blobs are kept, and in whatever order the files
      are visited, each blob gets exactly its offsets in each file, and is streamed once. */
  method CollectPack(idx: Lookup, pack: nat, users: set<nat>, files: seq<seq<nat>>, blobs: seq<FileBlobs>)
    returns (t: Table, list: seq<Blob>)
    requires Answers(idx) && |blobs| == |files|
    requires forall f :: f in users ==> f < |files| && Known(idx, files[f]) && Stands(idx, files[f], blobs[f])
    ensures Listed(idx, pack, t, list)
    ensures forall id, f :: f in users ==> Spots(t, id, f) == Places(AllEntries(idx, files[f], pack), id)
    ensures forall id, f :: f !in users ==> Spots(t, id, f) == []
  {
    hide Listed, Known, Places, Entries;
    t, list := map[], [];
    NoneListed(idx, pack);
    var rest := users;
    while rest != {}
      invariant rest <= users && Listed(idx, pack, t, list)
      invariant forall id, f :: f in users - rest ==> Spots(t, id, f) == Places(AllEntries(idx, files[f], pack), id)
      invariant forall id, f :: f !in users - rest ==> Spots(t, id, f) == []
      decreases |rest|
    {
      var f :| f in rest;
      match blobs[f] {
        case Ids(ids) =>
          t, list := CollectIds(idx, pack, t, list, ids, f);
        case ByPack(m) =>
          EntriesInPack(idx, files[f], pack, |files[f]|);
          t, list := CollectByPack(idx, pack, t, list, At(m, pack), f);
      }
      rest := rest - {f};
    }
  }

  lemma NoneListed(idx: Lookup, pack: nat)
    ensures Listed(idx, pack, map[], [])
  {
  }

  // ---------------------------------------------------------------- all packs

  /** The tables of all packs, in their order: each needed pack is there once, and its table has the offsets
      of the blobs that the files take from it. */
  ghost predicate Tabled(idx: Lookup, files: seq<seq<nat>>, order: seq<nat>, tables: seq<Table>) {
    && |tables| == |order| && (forall i, j :: 0 <= i < j < |order| ==> order[i] != order[j])
    && (forall f :: 0 <= f < |files| ==> Known(idx, files[f]) && Reached(idx, files[f], order))
    && (forall k :: 0 <= k < |order| ==> TableOf(idx, files, order[k], tables[k]))
  }

  ghost predicate Reached(idx: Lookup, ids: seq<nat>, order: seq<nat>) {
    forall i :: 0 <= i < |ids| && idx(ids[i]) != [] ==> idx(ids[i])[0].pack in order
  }

  ghost predicate TableOf(idx: Lookup, files: seq<seq<nat>>, pack: nat, t: Table) {
    forall id: nat, f: nat :: f < |files| ==> Spots(t, id, f) == Places(AllEntries(idx, files[f], pack), id)
  }

  lemma {:induction false} NothingTaken(idx: Lookup, ids: seq<nat>, pack: nat, n: nat)
    requires n <= |ids| && !Takes(idx, ids, pack, n)
    ensures Entries(idx, ids, pack, n) == []
  {
    if n > 0 {
      assert !InPack(idx, ids[n - 1], pack);
      NothingTaken(idx, ids, pack, n - 1);
    }
  }

  lemma OrderReaches(idx: Lookup, files: seq<seq<nat>>, packs: map<nat, set<nat>>, order: seq<nat>, f: nat)
    requires InOrder(packs, order) && UsersAre(idx, files, packs, |files|) && f < |files|
    ensures Reached(idx, files[f], order)
  {
    var ids := files[f];
    forall i | 0 <= i < |ids| && idx(ids[i]) != [] ensures idx(ids[i])[0].pack in order {
      var pack := idx(ids[i])[0].pack;
      assert InPack(idx, ids[i], pack);
      assert Takes(idx, ids, pack, |ids|);
      assert f in Users(packs, pack);
    }
  }

  lemma IsTableOf(idx: Lookup, files: seq<seq<nat>>, packs: map<nat, set<nat>>, pack: nat, t: Table)
    requires UsersAre(idx, files, packs, |files|)
    requires forall id, f :: f in Users(packs, pack) && f < |files| ==>
      Spots(t, id, f) == Places(AllEntries(idx, files[f], pack), id)
    requires forall id, f :: f !in Users(packs, pack) ==> Spots(t, id, f) == []
    ensures TableOf(idx, files, pack, t)
  {
    hide Takes, Users, Spots;
    forall id: nat, f: nat | f < |files| ensures Spots(t, id, f) == Places(AllEntries(idx, files[f], pack), id) {
      if f !in Users(packs, pack) { NothingTaken(idx, files[f], pack, |files[f]|); }
    }
  }

  /** Planning and collecting for all packs: restoreFiles up to the downloads. */
  method PlanTables(idx: Lookup, files: seq<seq<nat>>, zeroChunk: nat, sparseOption: bool)
    returns (order: seq<nat>, tables: seq<Table>, sparse: seq<bool>, ok: bool)
    requires Answers(idx)
    ensures ok <==> forall f :: 0 <= f < |files| ==> Known(idx, files[f])
    ensures ok ==> Tabled(idx, files, order, tables)
  {
    hide Known, Stands, TableOf, UsersAre, Listed, Reached, Answers;
    var packs, blobs;
    packs, order, blobs, sparse, ok := PlanFiles(idx, files, zeroChunk, sparseOption);
    tables := [];
    if !ok { return; }
    forall f | 0 <= f < |files| ensures Reached(idx, files[f], order) { OrderReaches(idx, files, packs, order, f); }
    for k := 0 to |order|
      invariant |tables| == k && forall j :: 0 <= j < k ==> TableOf(idx, files, order[j], tables[j])
    {
      var t := CollectUsers(idx, order[k], files, packs, blobs);
      tables := tables + [t];
    }
  }

  lemma UserInRange(idx: Lookup, files: seq<seq<nat>>, packs: map<nat, set<nat>>, pack: nat, f: nat)
    requires UsersAre(idx, files, packs, |files|) && f in Users(packs, pack)
    ensures f < |files|
  {
    hide Users, Takes;
  }

  method CollectUsers(idx: Lookup, pack: nat, files: seq<seq<nat>>, packs: map<nat, set<nat>>, blobs: seq<FileBlobs>)
    returns (t: Table)
    requires Answers(idx) && |blobs| == |files| && UsersAre(idx, files, packs, |files|)
    requires forall f :: 0 <= f < |files| ==> Known(idx, files[f]) && Stands(idx, files[f], blobs[f])
    ensures TableOf(idx, files, pack, t)
  {
    hide Known, Stands, Listed, Takes, Places, Users;
    forall f | f in Users(packs, pack) ensures f < |files| { UserInRange(idx, files, packs, pack, f); }
    var list;
    t, list := CollectPack(idx, pack, Users(packs, pack), files, blobs);
    IsTableOf(idx, files, packs, pack, t);
  }
}
