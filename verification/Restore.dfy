/** From the plan to the file: the writes planned for a file, carried out in any order, by any workers and
    any number of times, leave exactly the concatenation of its blobs on disk. */
module Restore {
  import opened Common
  import opened FilesWriter
  import opened RestoreRun
  import Plan = RestorePlan

  type Data = nat -> seq<byte>

  /** The contents of the first n blobs. */
  function Joined(data: Data, ids: seq<nat>, n: nat): (r: seq<byte>)
    requires n <= |ids|
  {
    if n == 0 then [] else Joined(data, ids, n - 1) + data(ids[n - 1])
  }

  function Whole(data: Data, ids: seq<nat>): (r: seq<byte>) {
    Joined(data, ids, |ids|)
  }

  /** The index knows every blob of the file and its length. */
  ghost predicate Indexed(idx: Plan.Lookup, data: Data, ids: seq<nat>) {
    forall i :: 0 <= i < |ids| ==> idx(ids[i]) != [] && |data(ids[i])| == idx(ids[i])[0].blob.length
  }

  function WriteOf(idx: Plan.Lookup, data: Data, ids: seq<nat>, i: nat): (w: Write)
    requires i < |ids|
  {
    Write(data(ids[i]), Plan.Offset(idx, ids, i))
  }

  /** The write is in the table of one of the packs. */
  ghost predicate Planned(idx: Plan.Lookup, data: Data, ids: seq<nat>, w: Write) {
    exists pack, id :: w.data == data(id) && w.offset in Plan.Places(Plan.AllEntries(idx, ids, pack), id)
  }

  lemma {:induction false} InPlaces(entries: seq<Plan.FileBlob>, id: nat, offset: nat)
    ensures offset in Plan.Places(entries, id) <==> Plan.FileBlob(id, offset) in entries
  {
    if entries != [] {
      var n := |entries| - 1;
      InPlaces(entries[..n], id, offset);
      assert entries == entries[..n] + [entries[n]];
    }
  }

  lemma {:induction false} InEntries(idx: Plan.Lookup, ids: seq<nat>, pack: nat, n: nat, e: Plan.FileBlob)
    requires n <= |ids|
    ensures e in Plan.Entries(idx, ids, pack, n) <==>
      exists i :: 0 <= i < n && Plan.InPack(idx, ids[i], pack) && e == Plan.FileBlob(ids[i], Plan.Offset(idx, ids, i))
  {
    if n > 0 {
      InEntries(idx, ids, pack, n - 1, e);
    }
  }

  /** The tables of all the packs together hold exactly one write for each blob of the file: its data at the
      sum of the lengths before it. */
  lemma PlannedWrites(idx: Plan.Lookup, data: Data, ids: seq<nat>, w: Write)
    requires Plan.Known(idx, ids)
    ensures Planned(idx, data, ids, w) <==> exists i :: 0 <= i < |ids| && w == WriteOf(idx, data, ids, i)
  {
    hide Plan.Places, Plan.Entries, Plan.Offset;
    if Planned(idx, data, ids, w) {
      var pack, id :| w.data == data(id) && w.offset in Plan.Places(Plan.AllEntries(idx, ids, pack), id);
      var e := Plan.FileBlob(id, w.offset);
      InPlaces(Plan.AllEntries(idx, ids, pack), id, w.offset);
      InEntries(idx, ids, pack, |ids|, e);
      var i :| 0 <= i < |ids| && e == Plan.FileBlob(ids[i], Plan.Offset(idx, ids, i));
      assert w == WriteOf(idx, data, ids, i);
    }
    if exists i :: 0 <= i < |ids| && w == WriteOf(idx, data, ids, i) {
      var i :| 0 <= i < |ids| && w == WriteOf(idx, data, ids, i);
      PlannedAt(idx, data, ids, i);
    }
  }

  lemma PlannedAt(idx: Plan.Lookup, data: Data, ids: seq<nat>, i: nat)
    requires Plan.Known(idx, ids) && i < |ids|
    ensures Planned(idx, data, ids, WriteOf(idx, data, ids, i))
    ensures Plan.FileBlob(ids[i], Plan.Offset(idx, ids, i)) in Plan.AllEntries(idx, ids, idx(ids[i])[0].pack)
  {
    hide Plan.Places, Plan.Entries, Plan.Offset;
    var pack := idx(ids[i])[0].pack;
    var e := Plan.FileBlob(ids[i], Plan.Offset(idx, ids, i));
    assert Plan.InPack(idx, ids[i], pack);
    InEntries(idx, ids, pack, |ids|, e);
    InPlaces(Plan.AllEntries(idx, ids, pack), ids[i], e.offset);
  }

  lemma {:induction false} JoinedLength(idx: Plan.Lookup, data: Data, ids: seq<nat>, n: nat)
    requires Indexed(idx, data, ids) && n <= |ids|
    ensures |Joined(data, ids, n)| == Plan.Offset(idx, ids, n)
  {
    if n > 0 { JoinedLength(idx, data, ids, n - 1); }
  }

  lemma {:induction false} JoinedPrefix(data: Data, ids: seq<nat>, m: nat, n: nat)
    requires m <= n <= |ids|
    ensures Joined(data, ids, m) <= Joined(data, ids, n)
    decreases n
  {
    if m < n { JoinedPrefix(data, ids, m, n - 1); }
  }

  lemma IsPiece(idx: Plan.Lookup, data: Data, ids: seq<nat>, i: nat)
    requires Indexed(idx, data, ids) && i < |ids|
    ensures Piece(Whole(data, ids), WriteOf(idx, data, ids, i))
  {
    JoinedLength(idx, data, ids, i);
    JoinedPrefix(data, ids, i + 1, |ids|);
    var a, d := Joined(data, ids, i), data(ids[i]);
    assert (a + d)[|a|..|a| + |d|] == d;
    assert Whole(data, ids)[..|a + d|] == a + d;
    assert Whole(data, ids)[|a|..|a| + |d|] == Whole(data, ids)[..|a + d|][|a|..|a| + |d|];
  }

  lemma {:induction false} WhichBlob(idx: Plan.Lookup, data: Data, ids: seq<nat>, n: nat, k: nat) returns (i: nat)
    requires Indexed(idx, data, ids) && n <= |ids| && k < Plan.Offset(idx, ids, n)
    ensures i < n && Plan.Offset(idx, ids, i) <= k < Plan.Offset(idx, ids, i) + |data(ids[i])|
  {
    if k < Plan.Offset(idx, ids, n - 1) {
      i := WhichBlob(idx, data, ids, n - 1, k);
    } else {
      i := n - 1;
    }
  }

  /** Whatever the order, the interleaving and the repetitions: when the writes begun for the file are
      planned ones and all planned ones are done, the file is the concatenation of its blobs. */
  lemma FileRestored(trace: seq<State>, steps: seq<Step>, f: File, idx: Plan.Lookup, data: Data, ids: seq<nat>)
    requires Indexed(idx, data, ids) && ids != [] && f.size == |Whole(data, ids)|
    requires |trace| == |steps| + 1 && Init(trace[0])
    requires forall i :: 0 <= i < |steps| ==> Next(f, trace[i], steps[i], trace[i + 1])
    requires forall i :: 0 <= i < |steps| && steps[i].Begin? ==> Planned(idx, data, ids, steps[i].w)
    requires trace[|trace| - 1].workers == map[]
    requires forall w :: Planned(idx, data, ids, w) ==> w in trace[|trace| - 1].done
    ensures trace[|trace| - 1].view == View(None, Some(Whole(data, ids)))
    ensures trace[|trace| - 1].created == 1
  {
    hide Next, Planned, Plan.Offset, Piece, Joined;
    var s, whole := trace[|trace| - 1], Whole(data, ids);
    forall i | 0 <= i < |steps| && steps[i].Begin? ensures Piece(whole, steps[i].w) {
      PlannedWrites(idx, data, ids, steps[i].w);
      var j :| 0 <= j < |ids| && steps[i].w == WriteOf(idx, data, ids, j);
      IsPiece(idx, data, ids, j);
    }
    JoinedLength(idx, data, ids, |ids|);
    forall k: nat | k < |whole| ensures Covered(s.done, k) {
      var i := WhichBlob(idx, data, ids, |ids|, k);
      PlannedAt(idx, data, ids, i);
    }
    PlannedAt(idx, data, ids, 0);
    assert Run(trace, steps, f, whole);
    RunKeepsInv(trace, steps, f, whole, |steps|);
    RestoredExactly(trace, steps, f, whole);
  }

  // ---------------------------------------------------------------- from the tables

  /** All blobs of the file with their offsets. */
  function AllBlobs(idx: Plan.Lookup, ids: seq<nat>, n: nat): (r: seq<Plan.FileBlob>)
    requires n <= |ids|
  {
    if n == 0 then [] else AllBlobs(idx, ids, n - 1) + [Plan.FileBlob(ids[n - 1], Plan.Offset(idx, ids, n - 1))]
  }

  /** What the packs hold together of the first n blobs. */
  ghost function Gathered(idx: Plan.Lookup, ids: seq<nat>, packs: seq<nat>, n: nat): (m: multiset<Plan.FileBlob>)
    requires n <= |ids|
  {
    if packs == [] then multiset{}
    else Gathered(idx, ids, packs[1..], n) + multiset(Plan.Entries(idx, ids, packs[0], n))
  }

  lemma {:induction false} GatheredNone(idx: Plan.Lookup, ids: seq<nat>, packs: seq<nat>)
    ensures Gathered(idx, ids, packs, 0) == multiset{}
  {
    if packs != [] { GatheredNone(idx, ids, packs[1..]); }
  }

  /** The n-th blob is in one pack and adds one entry, if this pack is among the packs. */
  lemma {:induction false} GatheredNext(idx: Plan.Lookup, ids: seq<nat>, packs: seq<nat>, n: nat)
    requires 0 < n <= |ids| && idx(ids[n - 1]) != []
    requires forall i, j :: 0 <= i < j < |packs| ==> packs[i] != packs[j]
    ensures Gathered(idx, ids, packs, n) == Gathered(idx, ids, packs, n - 1) +
      if idx(ids[n - 1])[0].pack in packs
      then multiset{Plan.FileBlob(ids[n - 1], Plan.Offset(idx, ids, n - 1))} else multiset{}
  {
    hide Plan.Offset, Plan.Entries;
    if packs != [] {
      GatheredNext(idx, ids, packs[1..], n);
      assert forall p :: p in packs <==> p == packs[0] || p in packs[1..];
      EntriesNext(idx, ids, packs[0], n);
    }
  }

  lemma EntriesNext(idx: Plan.Lookup, ids: seq<nat>, pack: nat, n: nat)
    requires 0 < n <= |ids| && idx(ids[n - 1]) != []
    ensures multiset(Plan.Entries(idx, ids, pack, n)) == multiset(Plan.Entries(idx, ids, pack, n - 1)) +
      if idx(ids[n - 1])[0].pack == pack
      then multiset{Plan.FileBlob(ids[n - 1], Plan.Offset(idx, ids, n - 1))} else multiset{}
  {
  }

  /** The packs together hold every blob of the file, at its offset, once per occurrence. */
  lemma {:induction false} GatheredAll(idx: Plan.Lookup, ids: seq<nat>, packs: seq<nat>, n: nat)
    requires n <= |ids| && Plan.Known(idx, ids) && Plan.Reached(idx, ids, packs)
    requires forall i, j :: 0 <= i < j < |packs| ==> packs[i] != packs[j]
    ensures Gathered(idx, ids, packs, n) == multiset(AllBlobs(idx, ids, n))
  {
    hide Gathered, Plan.Offset;
    if n == 0 {
      GatheredNone(idx, ids, packs);
    } else {
      GatheredAll(idx, ids, packs, n - 1);
      GatheredNext(idx, ids, packs, n);
    }
  }

  lemma {:induction false} PlacesCount(entries: seq<Plan.FileBlob>, id: nat, offset: nat)
    ensures multiset(Plan.Places(entries, id))[offset] == multiset(entries)[Plan.FileBlob(id, offset)]
  {
    if entries != [] {
      var n := |entries| - 1;
      PlacesCount(entries[..n], id, offset);
      assert entries == entries[..n] + [entries[n]];
    }
  }

  /** How often the tables say to write a blob of file f at an offset. */
  ghost function Times(tables: seq<Plan.Table>, f: nat, id: nat, offset: nat): (n: nat) {
    if tables == [] then 0 else Times(tables[1..], f, id, offset) + multiset(Plan.Spots(tables[0], id, f))[offset]
  }

  lemma {:induction false} TimesGathered(idx: Plan.Lookup, files: seq<seq<nat>>, packs: seq<nat>,
                                         tables: seq<Plan.Table>, f: nat, id: nat, offset: nat)
    requires f < |files| && |tables| == |packs|
    requires forall k :: 0 <= k < |packs| ==> Plan.TableOf(idx, files, packs[k], tables[k])
    ensures Times(tables, f, id, offset) ==
      Gathered(idx, files[f], packs, |files[f]|)[Plan.FileBlob(id, offset)]
  {
    hide Plan.Places, Plan.Entries, Plan.Spots;
    if packs != [] {
      TimesGathered(idx, files, packs[1..], tables[1..], f, id, offset);
      assert Plan.TableOf(idx, files, packs[0], tables[0]);
      PlacesCount(Plan.AllEntries(idx, files[f], packs[0]), id, offset);
    }
  }

  /** Each blob is planned to be written at an offset exactly as often as it is at that offset in the file:
      one write for each blob of the file, and no other. */
  lemma PlannedOnce(idx: Plan.Lookup, files: seq<seq<nat>>, order: seq<nat>, tables: seq<Plan.Table>, f: nat,
                    id: nat, offset: nat)
    requires Plan.Tabled(idx, files, order, tables) && f < |files|
    ensures Times(tables, f, id, offset) ==
      multiset(AllBlobs(idx, files[f], |files[f]|))[Plan.FileBlob(id, offset)]
  {
    hide Plan.TableOf, Plan.Known, Plan.Reached, Gathered, AllBlobs, Times;
    TimesGathered(idx, files, order, tables, f, id, offset);
    GatheredAll(idx, files[f], order, |files[f]|);
  }

  /** The write is in one of the tables. */
  ghost predicate InTables(tables: seq<Plan.Table>, data: Data, f: nat, w: Write) {
    exists k, id :: 0 <= k < |tables| && w.data == data(id) && w.offset in Plan.Spots(tables[k], id, f)
  }

  lemma TablesPlan(idx: Plan.Lookup, files: seq<seq<nat>>, order: seq<nat>, tables: seq<Plan.Table>, data: Data,
                   f: nat, w: Write)
    requires Plan.Tabled(idx, files, order, tables) && f < |files|
    ensures InTables(tables, data, f, w) <==> Planned(idx, data, files[f], w)
  {
    hide Plan.Places, Plan.Entries, Plan.Spots, Plan.Offset;
    var ids := files[f];
    if InTables(tables, data, f, w) {
      var k, id :| 0 <= k < |tables| && w.data == data(id) && w.offset in Plan.Spots(tables[k], id, f);
      assert Plan.TableOf(idx, files, order[k], tables[k]);
      assert w.offset in Plan.Places(Plan.AllEntries(idx, ids, order[k]), id);
    }
    if Planned(idx, data, ids, w) {
      PlannedWrites(idx, data, ids, w);
      var i :| 0 <= i < |ids| && w == WriteOf(idx, data, ids, i);
      PlannedAt(idx, data, ids, i);
      var k :| 0 <= k < |order| && order[k] == idx(ids[i])[0].pack;
      assert Plan.TableOf(idx, files, order[k], tables[k]);
      InPlaces(Plan.AllEntries(idx, ids, order[k]), ids[i], w.offset);
      assert w.offset in Plan.Spots(tables[k], ids[i], f);
    }
  }

  /** From the tables to the file: when the writes begun for a file come from the tables of the packs, and
      all writes in the tables are done, the file is the concatenation of its blobs. */
  lemma RestoredFromTables(trace: seq<State>, steps: seq<Step>, file: File, idx: Plan.Lookup, data: Data,
                           files: seq<seq<nat>>, order: seq<nat>, tables: seq<Plan.Table>, f: nat)
    requires Plan.Tabled(idx, files, order, tables) && f < |files| && files[f] != []
    requires Indexed(idx, data, files[f]) && file.size == |Whole(data, files[f])|
    requires |trace| == |steps| + 1 && Init(trace[0])
    requires forall i :: 0 <= i < |steps| ==> Next(file, trace[i], steps[i], trace[i + 1])
    requires forall i :: 0 <= i < |steps| && steps[i].Begin? ==> InTables(tables, data, f, steps[i].w)
    requires trace[|trace| - 1].workers == map[]
    requires forall w :: InTables(tables, data, f, w) ==> w in trace[|trace| - 1].done
    ensures trace[|trace| - 1].view == View(None, Some(Whole(data, files[f])))
    ensures trace[|trace| - 1].created == 1
  {
    hide Next, Planned, InTables, Plan.Tabled, Joined;
    forall w ensures InTables(tables, data, f, w) <==> Planned(idx, data, files[f], w) {
      TablesPlan(idx, files, order, tables, data, f, w);
    }
    FileRestored(trace, steps, file, idx, data, files[f]);
  }
}
