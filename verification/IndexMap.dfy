/** The chained hash table of the blob index.  It refines a multimap: a sequence of records in
    insertion order. */
module IndexMap {
  import opened Common
  import opened Bits
  import HAT = HashedArrayTree

  type ID = nat

  /** An index entry as its users see it. */
  datatype Record = Record(id: ID, packIndex: int, offset: nat, length: nat, uncompressedLength: nat)

  /** An index entry as stored: `next` is the position of the next older entry in its chain, or 0. */
  datatype Entry = Entry(rec: Record, next: nat)

  const ZERO_ENTRY := Entry(Record(0, 0, 0, 0, 0), 0)
  const GROWTH_FACTOR: nat := 2
  const MAX_LOAD: nat := 4
  const INITIAL_BUCKETS: nat := 64

  // ---------------------------------------------------------------- specification

  /** The records with the given id, newest first. */
  function NewestFirst(recs: seq<Record>, id: ID): (r: seq<Record>) {
    if recs == [] then []
    else
      var ln := |recs| - 1;
      (if recs[ln].id == id then [recs[ln]] else []) + NewestFirst(recs[..ln], id)
  }

  /** The positions of the records with the given id, from the last to the first: all of them, and no
      other. */
  lemma {:induction false} NewestFirstIs(recs: seq<Record>, id: ID) returns (at: seq<nat>)
    ensures |at| == |NewestFirst(recs, id)|
    ensures forall k :: 0 <= k < |at| ==> at[k] < |recs| && recs[at[k]] == NewestFirst(recs, id)[k]
    ensures forall j, k :: 0 <= j < k < |at| ==> at[j] > at[k]
    ensures forall i :: 0 <= i < |recs| ==> (recs[i].id == id <==> i in at)
  {
    if recs == [] {
      at := [];
    } else {
      var ln := |recs| - 1;
      var rest := NewestFirstIs(recs[..ln], id);
      at := (if recs[ln].id == id then [ln] else []) + rest;
    }
  }

  function Bucket(mh: ID -> nat, n: nat, id: ID): (h: nat)
    requires n > 0
    ensures h < n
  {
    mh(id) % n
  }

  /** The position (from 1) of the last record that falls into bucket `h`, or 0. */
  function LastIn(mh: ID -> nat, n: nat, recs: seq<Record>, h: nat): (pos: nat)
    requires n > 0
  {
    if recs == [] then 0
    else
      var ln := |recs| - 1;
      if Bucket(mh, n, recs[ln].id) == h then |recs| else LastIn(mh, n, recs[..ln], h)
  }

  lemma {:induction false} LastInIsLast(mh: ID -> nat, n: nat, recs: seq<Record>, h: nat)
    requires n > 0
    ensures var pos := LastIn(mh, n, recs, h);
      && pos <= |recs|
      && (pos > 0 ==> Bucket(mh, n, recs[pos - 1].id) == h)
      && forall j :: pos <= j < |recs| ==> Bucket(mh, n, recs[j].id) != h
  {
    if recs != [] { LastInIsLast(mh, n, recs[..|recs| - 1], h); }
  }

  /** What a chain does not reach cannot have the id. */
  lemma {:induction false} SkipOthers(recs: seq<Record>, id: ID, k: nat)
    requires k <= |recs|
    requires forall j :: k <= j < |recs| ==> recs[j].id != id
    ensures NewestFirst(recs, id) == NewestFirst(recs[..k], id)
  {
    if k < |recs| {
      var ln := |recs| - 1;
      SkipOthers(recs[..ln], id, k);
      assert recs[..ln][..k] == recs[..k];
    } else {
      assert recs[..k] == recs;
    }
  }

  function Payload(es: seq<Entry>): (recs: seq<Record>)
    ensures |recs| == |es|
    ensures forall i :: 0 <= i < |es| ==> recs[i] == es[i].rec
  {
    seq(|es|, i requires 0 <= i < |es| => es[i].rec)
  }

  /** Entry `i` links to the last older entry of its bucket; chains go strictly down. */
  ghost predicate Linked(mh: ID -> nat, n: nat, es: seq<Entry>)
    requires n > 0
  {
    forall i :: 0 <= i < |es| ==>
      es[i].next == LastIn(mh, n, Payload(es)[..i], Bucket(mh, n, es[i].rec.id))
  }

  /** Position `ei` is the end of a chain or an entry in the bucket of `id`. */
  ghost predicate OnChain(mh: ID -> nat, n: nat, es: seq<Entry>, id: ID, ei: nat)
    requires n > 0
  {
    ei <= |es| && (ei > 0 ==> Bucket(mh, n, es[ei - 1].rec.id) == Bucket(mh, n, id))
  }

  /** The records with the given id at position `ei` and below, newest first. */
  ghost function Below(es: seq<Entry>, id: ID, ei: nat): (recs: seq<Record>)
    requires ei <= |es|
  {
    NewestFirst(Payload(es)[..ei], id)
  }

  /** One step along a chain leaves out only records with other ids. */
  lemma ChainStep(mh: ID -> nat, n: nat, es: seq<Entry>, id: ID, ei: nat)
    requires n > 0 && Linked(mh, n, es) && 0 < ei && OnChain(mh, n, es, id, ei)
    ensures var e := es[ei - 1];
      && e.next < ei
      && OnChain(mh, n, es, id, e.next)
      && Below(es, id, ei) == (if e.rec.id == id then [e.rec] + Below(es, id, e.next) else Below(es, id, e.next))
  {
    hide Bucket, LastIn;
    var e, recs := es[ei - 1], Payload(es);
    var older := recs[..ei - 1];
    assert recs[..ei][..ei - 1] == older;
    assert e.next == LastIn(mh, n, older, Bucket(mh, n, id));
    LastInIsLast(mh, n, older, Bucket(mh, n, id));
    SkipOthers(older, id, e.next);
    assert older[..e.next] == recs[..e.next];
  }

  /** Bucket `h` holds the position of its newest entry. */
  ghost predicate Heads(mh: ID -> nat, recs: seq<Record>, buckets: seq<nat>) {
    forall h :: 0 <= h < |buckets| ==> buckets[h] == LastIn(mh, |buckets|, recs, h)
  }

  lemma HeadsSnoc(mh: ID -> nat, recs: seq<Record>, rec: Record, buckets: seq<nat>)
    requires Heads(mh, recs, buckets) && |buckets| > 0
    ensures Heads(mh, recs + [rec], buckets[Bucket(mh, |buckets|, rec.id) := |recs| + 1])
  {
    assert (recs + [rec])[..|recs|] == recs;
  }

  lemma LinkedSnoc(mh: ID -> nat, n: nat, es: seq<Entry>, e: Entry)
    requires n > 0 && Linked(mh, n, es)
    requires e.next == LastIn(mh, n, Payload(es), Bucket(mh, n, e.rec.id))
    ensures Linked(mh, n, es + [e]) && Payload(es + [e]) == Payload(es) + [e.rec]
  {
    hide Bucket, LastIn;
    assert Payload(es + [e])[..|es|] == Payload(es);
    forall i | 0 <= i < |es| ensures Payload(es + [e])[..i] == Payload(es)[..i] {
    }
  }

  lemma NothingLinked(mh: ID -> nat, n: nat, buckets: seq<nat>, es: seq<Entry>)
    requires |buckets| == n > 0 && forall h :: 0 <= h < n ==> buckets[h] == 0
    ensures Linked(mh, n, es[..0]) && Heads(mh, Payload(es)[..0], buckets)
  {
  }

  /** Linking entry `k` to the head of its bucket, which it then becomes. */
  lemma RelinkStep(mh: ID -> nat, es: seq<Entry>, k: nat, buckets: seq<nat>)
    requires k < |es| && |buckets| > 0
    requires Linked(mh, |buckets|, es[..k]) && Heads(mh, Payload(es)[..k], buckets)
    ensures
      var h := Bucket(mh, |buckets|, es[k].rec.id);
      var es' := es[k := es[k].(next := buckets[h])];
      && Linked(mh, |buckets|, es'[..k + 1])
      && Payload(es') == Payload(es)
      && Heads(mh, Payload(es)[..k + 1], buckets[h := k + 1])
  {
    var h := Bucket(mh, |buckets|, es[k].rec.id);
    var e := es[k].(next := buckets[h]);
    var es' := es[k := e];
    assert Payload(es)[..k] == Payload(es[..k]);
    assert es'[..k + 1] == es[..k] + [e];
    assert Payload(es)[..k + 1] == Payload(es)[..k] + [e.rec];
    LinkedSnoc(mh, |buckets|, es[..k], e);
    HeadsSnoc(mh, Payload(es)[..k], e.rec, buckets);
  }

  lemma HeadOf(mh: ID -> nat, recs: seq<Record>, buckets: seq<nat>, h: nat)
    requires Heads(mh, recs, buckets) && h < |buckets|
    ensures buckets[h] == LastIn(mh, |buckets|, recs, h)
  {
  }

  lemma NoneInEmpty(id: ID)
    ensures NewestFirst([], id) == []
  {
  }

  lemma ConcatAssoc<T>(a: seq<T>, b: seq<T>, c: seq<T>)
    ensures a + (b + c) == (a + b) + c
  {
  }

  /** A chain starts with the newest entry of its bucket. */
  lemma ChainStart(mh: ID -> nat, n: nat, es: seq<Entry>, id: ID, ei: nat)
    requires n > 0 && ei == LastIn(mh, n, Payload(es), Bucket(mh, n, id))
    ensures OnChain(mh, n, es, id, ei) && ei <= |es|
    ensures NewestFirst(Payload(es), id) == Below(es, id, ei)
    ensures Below(es, id, 0) == []
  {
    LastInIsLast(mh, n, Payload(es), Bucket(mh, n, id));
    SkipOthers(Payload(es), id, ei);
  }

  // ---------------------------------------------------------------- the hash table

  class Map {
    const mh: ID -> nat          // the seeded hash function
    var buckets: array<nat>
    var numentries: nat
    var blockList: HAT.Tree<Entry>
    ghost var bits: nat
    ghost var Repr: set<object>

    /** The table has its buckets and its chains are in order. */
    ghost predicate Chained() reads this, buckets, blockList, blockList.blockList {
      && blockList.zero == ZERO_ENTRY
      && blockList.Valid()
      && blockList.size == numentries + 1
      && buckets.Length == Pow2(bits)
      && Linked(mh, buckets.Length, Entries())
      && Heads(mh, Records(), buckets[..])
    }

    /** A bucket has four entries on average at most; nothing is allocated for an empty table. */
    ghost predicate Loaded() reads this, buckets, blockList, blockList.blockList {
      if numentries == 0 then
        blockList.zero == ZERO_ENTRY && blockList.Valid() && blockList.size == 0 && buckets.Length == 0
      else
        Chained() && numentries <= MAX_LOAD * buckets.Length
    }

    ghost predicate Valid() reads this, Repr
      ensures Valid() ==> this in Repr && blockList in Repr && blockList.blockList in Repr && blockList.Valid()
    {
      && this in Repr && buckets in Repr && blockList in Repr && blockList.blockList in Repr
      && Loaded()
    }

    /** The stored entries; position 0 of the block list is reserved for the end of a chain. */
    ghost function Entries(): (es: seq<Entry>) reads this, blockList, blockList.blockList
      requires blockList.Valid()
    {
      if blockList.size == 0 then [] else blockList.Contents()[1..]
    }

    ghost function Records(): (recs: seq<Record>) reads this, blockList, blockList.blockList
      requires blockList.Valid()
    {
      Payload(Entries())
    }

    constructor (mh: ID -> nat)
      ensures Valid() && fresh(Repr) && Records() == [] && this.mh == mh
    {
      this.mh := mh;
      buckets := new nat[0];
      numentries, bits := 0, 0;
      blockList := new HAT.Tree(ZERO_ENTRY);
      new;
      Repr := {this, buckets, blockList, blockList.blockList};
    }

    function Hash(id: ID): (h: nat)
      reads this
      requires buckets.Length == Pow2(bits)
      ensures h == Bucket(mh, buckets.Length, id)
    {
      AndMask(mh(id), bits);
      And(mh(id), buckets.Length - 1)
    }

    /** The entry at position `ei` of the block list. */
    function Resolve(ei: nat): (e: Entry)
      reads this, blockList, blockList.blockList
      requires blockList.Valid() && 0 < ei <= |Entries()|
      ensures e == Entries()[ei - 1]
    {
      blockList.Ref(ei)
    }

    /** All entries with the given id, as foreachWithID visits them. */
    method ForeachWithID(id: ID) returns (visited: seq<Record>)
      requires Valid()
      ensures visited == NewestFirst(Records(), id)
    {
      hide HAT.Tree.Valid, HAT.Tree.Contents, Linked, LastIn, NewestFirst, Pow2, Bucket, Below;
      NoneInEmpty(id);
      visited := [];
      if buckets.Length == 0 { return; }
      var ei: nat := buckets[Hash(id)];
      ghost var n, es := buckets.Length, Entries();
      ChainStart(mh, n, es, id, ei);
      while ei != 0
        invariant ei <= |es| && OnChain(mh, n, es, id, ei)
        invariant visited + Below(es, id, ei) == NewestFirst(Records(), id)
      {
        var e := Resolve(ei);
        ChainStep(mh, n, es, id, ei);
        ei := e.next;
        if e.rec.id == id {
          ConcatAssoc(visited, [e.rec], Below(es, id, ei));
          visited := visited + [e.rec];
        }
      }
    }

    /** The first entry with the given id, if any. */
    method Get(id: ID) returns (r: Option<Record>)
      requires Valid()
      ensures r == if NewestFirst(Records(), id) == [] then None else Some(NewestFirst(Records(), id)[0])
    {
      hide HAT.Tree.Valid, HAT.Tree.Contents, Linked, LastIn, NewestFirst, Pow2, Bucket, Below;
      NoneInEmpty(id);
      if buckets.Length == 0 { return None; }
      var ei: nat := buckets[Hash(id)];
      ghost var n, es := buckets.Length, Entries();
      ChainStart(mh, n, es, id, ei);
      while ei != 0
        invariant ei <= |es| && OnChain(mh, n, es, id, ei)
        invariant Below(es, id, ei) == NewestFirst(Records(), id)
      {
        var e := Resolve(ei);
        ChainStep(mh, n, es, id, ei);
        if e.rec.id == id { return Some(e.rec); }
        ei := e.next;
      }
      return None;
    }

    /** Visits the entries in insertion order until `fn` returns false. */
    method Foreach(fn: Record -> bool) returns (visited: seq<Record>)
      requires Valid()
      ensures visited <= Records()
      ensures forall i :: 0 <= i < |visited| - 1 ==> fn(visited[i])
      ensures visited != Records() ==> visited != [] && !fn(visited[|visited| - 1])
    {
      hide HAT.Tree.Valid, HAT.Tree.Contents, Linked, Heads, Pow2;
      visited := [];
      var blockCount := blockList.size;
      var i: nat := 1;
      while i < blockCount
        invariant 1 <= i && (blockCount > 0 ==> i <= blockCount)
        invariant |visited| == i - 1 && visited <= Records()
        invariant forall j :: 0 <= j < |visited| ==> fn(visited[j])
      {
        var e := Resolve(i);
        visited := visited + [e.rec];
        if !fn(e.rec) { return; }
        i := i + 1;
      }
    }

    /** Lazy initialization: 64 empty buckets, and position 0 of the block list is taken. */
    method Init()
      requires Loaded() && numentries == 0
      modifies this
      ensures Repr == old(Repr) && fresh(buckets) && fresh(blockList) && fresh(blockList.blockList)
      ensures Chained() && numentries == 0 && buckets.Length == INITIAL_BUCKETS
    {
      buckets := new nat[INITIAL_BUCKETS](_ => 0);
      bits := 6;
      blockList := new HAT.Tree(ZERO_ENTRY);
      var pos := blockList.Alloc();
      assert Pow2(6) == 64 by { assert Pow2(3) == 8; }
    }

    /** Writes through the reference returned by newEntry or resolve. */
    method SetEntry(ei: nat, e: Entry)
      requires blockList.Valid() && 0 < ei <= |Entries()|
      modifies blockList.blockList
      ensures blockList.Valid() && Entries() == old(Entries())[ei - 1 := e]
    {
      hide HAT.Tree.Valid, HAT.Tree.Contents;
      blockList.Set(ei, e);
    }

    /** The entries before position `i` are linked, the others have to be linked anew. */
    ghost predicate ChainedUpTo(i: nat) reads this, buckets, blockList, blockList.blockList {
      && blockList.Valid()
      && buckets.Length == Pow2(bits)
      && 1 <= i <= |Entries()| + 1
      && Linked(mh, buckets.Length, Entries()[..i - 1])
      && Heads(mh, Records()[..i - 1], buckets[..])
    }

    method Relink(i: nat)
      requires ChainedUpTo(i) && i < blockList.size
      modifies buckets, blockList.blockList
      ensures ChainedUpTo(i + 1) && Records() == old(Records())
    {
      hide HAT.Tree.Valid, HAT.Tree.Contents, Linked, Heads, Bucket, LastIn, Pow2;
      var e := Resolve(i);
      var h := Hash(e.rec.id);
      RelinkStep(mh, Entries(), i - 1, buckets[..]);
      SetEntry(i, e.(next := buckets[h]));
      buckets[h] := i;
    }

    /** Twice as many buckets; every entry is linked anew, oldest first. */
    method GrowBuckets()
      requires Chained()
      modifies this`buckets, this`bits, blockList.blockList
      ensures Chained() && fresh(buckets) && buckets.Length == GROWTH_FACTOR * old(buckets.Length)
      ensures Records() == old(Records())
    {
      hide HAT.Tree.Valid, HAT.Tree.Contents, Linked, Heads, Bucket, LastIn, Pow2;
      DoublePow2(bits);
      buckets := new nat[GROWTH_FACTOR * buckets.Length](_ => 0);
      bits := bits + 1;
      NothingLinked(mh, buckets.Length, buckets[..], Entries());
      var blockCount := blockList.size;
      var i: nat := 1;
      while i < blockCount
        modifies buckets, blockList.blockList
        invariant ChainedUpTo(i) && Records() == old(Records())
      {
        Relink(i);
        i := i + 1;
      }
      assert Entries()[..i - 1] == Entries() && Records()[..i - 1] == Records();
    }

    /** Allocates an entry and prepends it to the chain of its bucket. */
    method Prepend(rec: Record)
      requires Chained()
      modifies this`numentries, buckets, blockList, blockList.blockList
      ensures Chained() && numentries == old(numentries) + 1
      ensures blockList.blockList == old(blockList.blockList) || fresh(blockList.blockList)
      ensures Records() == old(Records()) + [rec]
    {
      hide HAT.Tree.Valid, HAT.Tree.Contents, Linked, Heads, Bucket, LastIn, Pow2;
      ghost var es := Entries();
      var h := Hash(rec.id);
      var idx := blockList.Alloc();
      var e := Entry(rec, buckets[h]);
      HeadOf(mh, Payload(es), buckets[..], h);
      LinkedSnoc(mh, buckets.Length, es, e);
      HeadsSnoc(mh, Payload(es), rec, buckets[..]);
      SetEntry(idx, e);
      assert Entries() == es + [e];
      buckets[h] := idx;
      numentries := numentries + 1;
    }

    /** Inserts an entry. */
    method Add(rec: Record)
      requires Valid()
      modifies Repr
      ensures Valid() && fresh(Repr - old(Repr))
      ensures Records() == old(Records()) + [rec]
    {
      hide HAT.Tree.Valid, HAT.Tree.Contents, Linked, Heads, Pow2;
      if numentries == 0 {
        Init();
      } else if numentries >= MAX_LOAD * buckets.Length {
        GrowBuckets();
      }
      Prepend(rec);
      Repr := Repr + {buckets, blockList, blockList.blockList};
    }
  }
}
