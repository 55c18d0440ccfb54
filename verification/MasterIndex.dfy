/** The master index: the indexes of a repository and the blobs that are about to be stored.  All its
    methods hold one mutex, so that concurrent callers interleave whole operations; index objects
    are named by `Ref` because savers keep using them outside of the master index. */
module MasterIndex {
  import opened BlobIndex

  type Ref = nat

  /** `heap` has every index object, `idx` names those the master index consists of. */
  datatype Master = Master(heap: map<Ref, IndexVal>, idx: seq<Ref>, pending: set<BlobHandle>)

  ghost predicate Distinct<T>(s: seq<T>) {
    forall i, j :: 0 <= i < j < |s| ==> s[i] != s[j]
  }

  lemma DistinctConcat<T>(a: seq<T>, b: seq<T>)
    requires Distinct(a) && Distinct(b) && forall x :: x in a ==> x !in b
    ensures Distinct(a + b)
  {
    forall i, j | 0 <= i < j < |a + b| ensures (a + b)[i] != (a + b)[j] {
      if i < |a| <= j { assert a[i] in a && b[j - |a|] in b; }
    }
  }

  lemma DistinctSplit<T>(s: seq<T>, k: nat)
    requires Distinct(s) && k <= |s|
    ensures Distinct(s[..k]) && Distinct(s[k..])
    ensures forall x :: x in s[..k] ==> x !in s[k..]
  {
  }

  ghost predicate Wf(m: Master) {
    && (forall r :: r in m.heap ==> m.heap[r].Valid())
    && (forall r :: r in m.idx ==> r in m.heap)
    && Distinct(m.idx)
    && m.idx != [] && m.heap[m.idx[0]].final
  }

  ghost predicate Indexed(m: Master, h: BlobHandle)
    requires Wf(m)
  {
    exists r :: r in m.idx && m.heap[r].Has(h)
  }

  /** The answer of Has. */
  ghost predicate Known(m: Master, h: BlobHandle)
    requires Wf(m)
  {
    h in m.pending || Indexed(m, h)
  }

  /** What Lookup finds, disregarding repetitions. */
  ghost predicate Finds(m: Master, p: PackedBlob)
    requires Wf(m)
  {
    exists r :: r in m.idx && p in m.heap[r].Packed(p.blob.handle.tpe)
  }

  // ---------------------------------------------------------------- operations

  function Handles(blobs: seq<Blob>): (hs: set<BlobHandle>) {
    set b | b in blobs :: b.handle
  }

  /** The position of the first index that is not final, or the number of indexes. */
  function FirstOpen(heap: map<Ref, IndexVal>, idx: seq<Ref>): (n: nat)
    requires forall r :: r in idx ==> r in heap
    ensures n <= |idx|
    ensures n < |idx| ==> !heap[idx[n]].final
    ensures forall i :: 0 <= i < n ==> heap[idx[i]].final
  {
    if idx == [] then 0
    else if !heap[idx[0]].final then 0
    else 1 + FirstOpen(heap, idx[1..])
  }

  /** StorePack; `newRef` is the index created when all others are final. */
  function Store(m: Master, pack: ID, blobs: seq<Blob>, newRef: Ref): (m': Master)
    requires forall r :: r in m.idx ==> r in m.heap
  {
    var n := FirstOpen(m.heap, m.idx);
    var pending := m.pending - Handles(blobs);
    if n < |m.idx| then
      m.(heap := m.heap[m.idx[n] := StorePack(m.heap[m.idx[n]], pack, blobs)], pending := pending)
    else
      Master(m.heap[newRef := StorePack(EMPTY_INDEX, pack, blobs)], m.idx + [newRef], pending)
  }

  /** The indexes that a call of finalizeFullIndexes finalizes and hands to its caller: those that are
      open and full; finalizeNotFinalIndexes takes all open ones. */
  function ToFinalize(heap: map<Ref, IndexVal>, idx: seq<Ref>, full: set<Ref>): (list: seq<Ref>)
    requires forall r :: r in idx ==> r in heap
    ensures forall r :: r in list <==> r in idx && !heap[r].final && r in full
  {
    if idx == [] then []
    else (if !heap[idx[0]].final && idx[0] in full then [idx[0]] else []) + ToFinalize(heap, idx[1..], full)
  }

  function Finalized(heap: map<Ref, IndexVal>, list: seq<Ref>): (heap': map<Ref, IndexVal>) {
    map r | r in heap :: if r in list then heap[r].(final := true) else heap[r]
  }

  predicate Mergeable(v: IndexVal) {
    v.final && v.ids != []
  }

  /** The first index with all mergeable ones of `rest` merged into it. */
  function MergeInto(heap: map<Ref, IndexVal>, v: IndexVal, rest: seq<Ref>): (v': IndexVal)
    requires forall r :: r in rest ==> r in heap && heap[r].Valid()
    requires v.Valid()
    ensures v'.Valid()
  {
    if rest == [] then v
    else
      var m := MergeInto(heap, v, rest[..|rest| - 1]);
      var r := rest[|rest| - 1];
      if Mergeable(heap[r]) then MergePacked(m, heap[r], DataBlob); Merge(m, heap[r]) else m
  }

  function Remaining(heap: map<Ref, IndexVal>, rest: seq<Ref>): (idx: seq<Ref>)
    requires forall r :: r in rest ==> r in heap
    ensures forall r :: r in idx <==> r in rest && !Mergeable(heap[r])
  {
    if rest == [] then []
    else
      var r := rest[|rest| - 1];
      assert rest == rest[..|rest| - 1] + [r];
      Remaining(heap, rest[..|rest| - 1]) + (if Mergeable(heap[r]) then [] else [r])
  }

  function MergeFinal(m: Master): (m': Master)
    requires Wf(m)
  {
    var first, rest := m.idx[0], m.idx[1..];
    m.(heap := m.heap[first := MergeInto(m.heap, m.heap[first], rest)],
       idx := [first] + Remaining(m.heap, rest))
  }

  // ---------------------------------------------------------------- what merging preserves

  lemma {:induction false} MergeIntoAnswers(heap: map<Ref, IndexVal>, v: IndexVal, rest: seq<Ref>, t: BlobType,
                                            p: PackedBlob)
    requires forall r :: r in rest ==> r in heap && heap[r].Valid()
    requires v.Valid()
    ensures p in MergeInto(heap, v, rest).Packed(t) <==>
            p in v.Packed(t) || exists r :: r in rest && Mergeable(heap[r]) && p in heap[r].Packed(t)
    ensures MergeInto(heap, v, rest).final == v.final
  {
    if rest != [] {
      var shorter, r := rest[..|rest| - 1], rest[|rest| - 1];
      assert rest == shorter + [r];
      MergeIntoAnswers(heap, v, shorter, t, p);
      var m := MergeInto(heap, v, shorter);
      if Mergeable(heap[r]) {
        MergePacked(m, heap[r], t);
        MergedIsUnion(m.Packed(t), heap[r].Packed(t));
      }
    }
  }

  lemma {:induction false} RemainingDistinct(heap: map<Ref, IndexVal>, rest: seq<Ref>)
    requires forall r :: r in rest ==> r in heap
    requires Distinct(rest)
    ensures Distinct(Remaining(heap, rest))
  {
    hide Distinct;
    NoneDistinct();
    if rest != [] {
      var ln := |rest| - 1;
      DistinctSplit(rest, ln);
      RemainingDistinct(heap, rest[..ln]);
      OneDistinct(rest[ln]);
      assert rest[ln] in rest[ln..];
      DistinctConcat(Remaining(heap, rest[..ln]), if Mergeable(heap[rest[ln]]) then [] else [rest[ln]]);
    }
  }

  lemma NoneDistinct()
    ensures Distinct<Ref>([])
  {
  }

  lemma OneDistinct(r: Ref)
    ensures Distinct([r])
  {
  }

  lemma MergeFinalDistinct(m: Master)
    requires Wf(m)
    ensures Distinct(MergeFinal(m).idx)
  {
    hide Distinct, IndexVal.Valid, MergeInto;
    var first, rest := m.idx[0], m.idx[1..];
    DistinctSplit(m.idx, 1);
    assert first in m.idx[..1];
    RemainingDistinct(m.heap, rest);
    OneDistinct(first);
    DistinctConcat([first], Remaining(m.heap, rest));
  }

  lemma MergeFinalWf(m: Master)
    requires Wf(m)
    ensures Wf(MergeFinal(m))
  {
    hide Distinct, IndexVal.Valid, MergeInto, Remaining;
    MergeFinalDistinct(m);
    MergeIntoFinal(m.heap, m.heap[m.idx[0]], m.idx[1..]);
  }

  lemma {:induction false} MergeIntoFinal(heap: map<Ref, IndexVal>, v: IndexVal, rest: seq<Ref>)
    requires forall r :: r in rest ==> r in heap && heap[r].Valid()
    requires v.Valid()
    ensures MergeInto(heap, v, rest).final == v.final
  {
    if rest != [] { MergeIntoFinal(heap, v, rest[..|rest| - 1]); }
  }

  /** MergeFinalIndexes keeps the first index and takes out exactly the other final ones that have an ID. */
  lemma MergeFinalLeaves(m: Master, r: Ref)
    requires Wf(m)
    ensures r in MergeFinal(m).idx <==>
            r == m.idx[0] || (r in m.idx && !(m.heap[r].final && m.heap[r].ids != []))
    ensures r in m.heap && r != m.idx[0] ==> r in MergeFinal(m).heap && MergeFinal(m).heap[r] == m.heap[r]
  {
    hide Distinct, IndexVal.Valid, MergeInto, Remaining;
    assert m.idx == [m.idx[0]] + m.idx[1..];
  }

  /** MergeFinalIndexes changes no answer: the same blobs are found, by Lookup as by Has. */
  lemma MergeFinalFinds(m: Master, p: PackedBlob)
    requires Wf(m)
    ensures Wf(MergeFinal(m))
    ensures Finds(MergeFinal(m), p) <==> Finds(m, p)
  {
    MergeFinalWf(m);
    if Finds(m, p) { MergeFinalKeepsFinds(m, p); }
    if Finds(MergeFinal(m), p) { MergeFinalAddsNoFinds(m, p); }
  }

  lemma MergeFinalKeepsFinds(m: Master, p: PackedBlob)
    requires Wf(m) && Wf(MergeFinal(m)) && Finds(m, p)
    ensures Finds(MergeFinal(m), p)
  {
    hide Distinct, IndexVal.Valid, IndexVal.Packed, MergeInto, Remaining;
    var first, rest, t, m' := m.idx[0], m.idx[1..], p.blob.handle.tpe, MergeFinal(m);
    var r :| r in m.idx && p in m.heap[r].Packed(t);
    MergeIntoAnswers(m.heap, m.heap[first], rest, t, p);
    if r == first || Mergeable(m.heap[r]) {
      assert r == first || r in rest;
      assert first in m'.idx && p in m'.heap[first].Packed(t);
    } else {
      assert r in m'.idx && p in m'.heap[r].Packed(t);
    }
  }

  lemma MergeFinalAddsNoFinds(m: Master, p: PackedBlob)
    requires Wf(m) && Wf(MergeFinal(m)) && Finds(MergeFinal(m), p)
    ensures Finds(m, p)
  {
    hide Distinct, IndexVal.Valid, IndexVal.Packed, MergeInto, Remaining;
    var first, rest, t, m' := m.idx[0], m.idx[1..], p.blob.handle.tpe, MergeFinal(m);
    var r :| r in m'.idx && p in m'.heap[r].Packed(t);
    MergeIntoAnswers(m.heap, m.heap[first], rest, t, p);
    if r == first && p !in m.heap[first].Packed(t) {
      var r2 :| r2 in rest && Mergeable(m.heap[r2]) && p in m.heap[r2].Packed(t);
      assert r2 in m.idx;
    } else {
      assert r in m.idx && p in m.heap[r].Packed(t);
    }
  }

  /** Has is about Lookup: a blob is indexed if some entry for it is found. */
  lemma IndexedFinds(m: Master, h: BlobHandle)
    requires Wf(m)
    ensures Indexed(m, h) <==> exists p :: Finds(m, p) && p.blob.handle == h
  {
    if Indexed(m, h) {
      var r :| r in m.idx && m.heap[r].Has(h);
      var p :| p in m.heap[r].Packed(h.tpe) && p.blob.handle == h;
      assert Finds(m, p);
    }
    if exists p :: Finds(m, p) && p.blob.handle == h {
      var p :| Finds(m, p) && p.blob.handle == h;
      var r :| r in m.idx && p in m.heap[r].Packed(h.tpe);
      assert m.heap[r].Has(h);
    }
  }

  // ---------------------------------------------------------------- what the other operations keep

  lemma StoreWf(m: Master, pack: ID, blobs: seq<Blob>, newRef: Ref)
    requires Wf(m) && newRef !in m.heap
    ensures Wf(Store(m, pack, blobs, newRef))
  {
    var n := FirstOpen(m.heap, m.idx);
    if n < |m.idx| {
      StorePackAppends(m.heap[m.idx[n]], pack, blobs, DataBlob);
    } else {
      StorePackAppends(EMPTY_INDEX, pack, blobs, DataBlob);
    }
  }

  /** The index that receives a pack, and its value before. */
  function Target(m: Master, newRef: Ref): (r: Ref)
    requires forall r :: r in m.idx ==> r in m.heap
  {
    var n := FirstOpen(m.heap, m.idx);
    if n < |m.idx| then m.idx[n] else newRef
  }

  function Before(m: Master, newRef: Ref): (v: IndexVal) {
    if newRef in m.heap then m.heap[newRef] else EMPTY_INDEX
  }

  /** Only the target changes, and it gets exactly the blobs of the pack; it is not a final index. */
  lemma StoreTarget(m: Master, pack: ID, blobs: seq<Blob>, newRef: Ref, t: BlobType)
    requires Wf(m) && newRef !in m.heap
    ensures
      var m', r := Store(m, pack, blobs, newRef), Target(m, newRef);
      var v := Before(m, r);
      && Wf(m')
      && v.Valid() && !v.final
      && (r !in m.idx ==> v.Packed(t) == [])
      && r in m'.idx && m'.heap[r].Packed(t) == v.Packed(t) + OfPack(pack, blobs, t)
      && (forall q :: q in m'.idx <==> q in m.idx || q == r)
      && (forall q :: q in m.heap && q != r ==> m'.heap[q] == m.heap[q])
  {
    hide Distinct, IndexVal.Packed, StorePack, FirstOpen, OfPack, ToPacked;
    StoreWf(m, pack, blobs, newRef);
    NothingInEmpty(t);
    var r := Target(m, newRef);
    var v := Before(m, r);
    StorePackAppends(v, pack, blobs, t);
  }

  lemma NothingInEmpty(t: BlobType)
    ensures EMPTY_INDEX.Valid() && EMPTY_INDEX.Packed(t) == []
  {
  }

  /** A pack goes to the first index that is not final, or to a new one at the end when all are final. */
  lemma StoreWhere(m: Master, pack: ID, blobs: seq<Blob>, newRef: Ref, n: nat, t: BlobType)
    requires Wf(m) && newRef !in m.heap && n <= |m.idx|
    requires (forall i :: 0 <= i < n ==> m.heap[m.idx[i]].final) && (n < |m.idx| ==> !m.heap[m.idx[n]].final)
    ensures
      var m' := Store(m, pack, blobs, newRef);
      && Wf(m')
      && m'.idx == (if n < |m.idx| then m.idx else m.idx + [newRef])
      && (forall r :: r in m.heap && !(n < |m.idx| && r == m.idx[n]) ==> r in m'.heap && m'.heap[r] == m.heap[r])
      && m'.heap[m'.idx[n]].Packed(t) ==
         (if n < |m.idx| then m.heap[m.idx[n]].Packed(t) else []) + OfPack(pack, blobs, t)
      && !m'.heap[m'.idx[n]].final
  {
    hide Distinct, IndexVal.Packed, IndexVal.Valid, StorePack, FirstOpen, OfPack, ToPacked;
    FirstOpenIs(m.heap, m.idx, n);
    StoreWf(m, pack, blobs, newRef);
    NothingInEmpty(t);
    var v := if n < |m.idx| then m.heap[m.idx[n]] else EMPTY_INDEX;
    StorePackAppends(v, pack, blobs, t);
    StoreLeavesOpen(v, pack, blobs);
  }

  lemma StoreLeavesOpen(v: IndexVal, pack: ID, blobs: seq<Blob>)
    ensures StorePack(v, pack, blobs).final == v.final
  {
  }

  /** Storing a pack finds what was found before and the blobs of the pack, and nothing else. */
  lemma StoreFinds(m: Master, pack: ID, blobs: seq<Blob>, newRef: Ref, p: PackedBlob)
    requires Wf(m) && newRef !in m.heap
    ensures Wf(Store(m, pack, blobs, newRef))
    ensures Finds(Store(m, pack, blobs, newRef), p) <==> Finds(m, p) || (p.pack == pack && p.blob in blobs)
  {
    hide Distinct, IndexVal.Valid, IndexVal.Packed, Store, Target, Before, OfPack;
    var m', t, target := Store(m, pack, blobs, newRef), p.blob.handle.tpe, Target(m, newRef);
    StoreTarget(m, pack, blobs, newRef, t);
    OfPackHas(pack, blobs, t);
    if p.pack == pack && p.blob in blobs {
      assert p in m'.heap[target].Packed(t);
    } else if Finds(m, p) {
      var r :| r in m.idx && p in m.heap[r].Packed(t);
      BeforeIs(m, r);
      assert p in m'.heap[r].Packed(t);
    } else if Finds(m', p) {
      var r :| r in m'.idx && p in m'.heap[r].Packed(t);
      BeforeIs(m, r);
    }
  }

  lemma BeforeIs(m: Master, r: Ref)
    ensures r in m.heap ==> Before(m, r) == m.heap[r]
  {
  }

  // ---------------------------------------------------------------- runs of concurrent callers

  /** `granted` lists the handles for which AddPending returned true, `handed` the indexes given to
      savers, `saving` those whose ID is still to be set, `persisted` the entries in index files, `failed`
      those of indexes that could not be written. */
  datatype State = State(
    m: Master,
    granted: seq<BlobHandle>,
    handed: seq<Ref>,
    saving: set<Ref>,
    persisted: set<PackedBlob>,
    failed: set<PackedBlob>)

  datatype Step =
    | AddPending(h: BlobHandle, added: bool)
    | StorePackStep(pack: ID, blobs: seq<Blob>, newRef: Ref)
    | Insert(ref: Ref, index: IndexVal)
    | Finalize(full: set<Ref>)
    | SaveIndex(ref: Ref, id: ID, saved: bool)
    | MergeFinalIndexes

  /** All entries of an index. */
  function Entries(v: IndexVal): (ps: set<PackedBlob>)
    requires v.Valid()
  {
    (set p | p in v.Packed(DataBlob)) + (set p | p in v.Packed(TreeBlob))
  }

  ghost predicate Next(s: State, step: Step, s': State)
    requires Wf(s.m)
  {
    match step
    case AddPending(h, added) =>
      && added == !Known(s.m, h)
      && s' == if added then s.(m := s.m.(pending := s.m.pending + {h}), granted := s.granted + [h]) else s
    case StorePackStep(pack, blobs, newRef) =>
      newRef !in s.m.heap && s' == s.(m := Store(s.m, pack, blobs, newRef))
    case Insert(r, v) =>
      // an index loaded from the repository, which has an ID, or a new one
      && r !in s.m.heap && v.Valid() && (v.final || v.ids == [])
      && s' == s.(m := s.m.(heap := s.m.heap[r := v], idx := s.m.idx + [r]),
                  persisted := if Mergeable(v) then s.persisted + Entries(v) else s.persisted)
    case Finalize(full) =>
      var list := ToFinalize(s.m.heap, s.m.idx, full);
      s' == s.(m := s.m.(heap := Finalized(s.m.heap, list)), handed := s.handed + list, saving := s.saving +
        (set r | r in list))
    case SaveIndex(r, id, saved) =>
      // sets the ID even if the index could not be written
      && r in s.saving && r in s.m.heap
      && s' == s.(m := s.m.(heap := s.m.heap[r := s.m.heap[r].(ids := s.m.heap[r].ids + [id])]),
                  saving := s.saving - {r},
                  persisted := if saved then s.persisted + Entries(s.m.heap[r]) else s.persisted,
                  failed := if saved then s.failed else s.failed + Entries(s.m.heap[r]))
    case MergeFinalIndexes =>
      s' == s.(m := MergeFinal(s.m))
  }

  ghost predicate Init(s: State) {
    exists r :: s == State(Master(map[r := EMPTY_INDEX.(final := true)], [r], {}), [], [], {}, {}, {})
  }

  /** Who has an index: savers only get final indexes that have no ID yet, and get each once. */
  ghost predicate SaversInv(s: State)
    requires Wf(s.m)
  {
    && Distinct(s.handed)
    && (forall r :: r in s.handed ==> r in s.m.heap && s.m.heap[r].final)
    && (forall r :: r in s.saving ==> r in s.handed && r in s.m.idx && s.m.heap[r].ids == [])
    && (forall r :: r in s.m.heap && !s.m.heap[r].final ==> s.m.heap[r].ids == [])
    && s.m.idx[0] !in s.handed
  }

  ghost predicate GrantedInv(s: State)
    requires Wf(s.m)
  {
    Distinct(s.granted) && forall h :: h in s.granted ==> Known(s.m, h)
  }

  /** Whatever MergeFinalIndexes may take is in index files, or could not be written. */
  ghost predicate PersistedInv(s: State)
    requires Wf(s.m)
  {
    forall r :: r in s.m.idx && (r == s.m.idx[0] || Mergeable(s.m.heap[r])) ==>
      Entries(s.m.heap[r]) <= s.persisted + s.failed
  }

  ghost predicate Inv(s: State) {
    Wf(s.m) && SaversInv(s) && GrantedInv(s) && PersistedInv(s)
  }

  // ---------------------------------------------------------------- Has never forgets

  /** A step finds at least what was found before. */
  lemma StepKeepsFinds(s: State, step: Step, s': State, p: PackedBlob)
    requires Wf(s.m) && Next(s, step, s') && Wf(s'.m) && Finds(s.m, p)
    ensures Finds(s'.m, p)
  {
    hide Distinct, IndexVal.Valid, Store, MergeFinal, Known, Entries;
    match step
    case StorePackStep(pack, blobs, newRef) => StoreFinds(s.m, pack, blobs, newRef, p);
    case MergeFinalIndexes => MergeFinalFinds(s.m, p);
    case _ =>
      var r :| r in s.m.idx && p in s.m.heap[r].Packed(p.blob.handle.tpe);
      assert r in s'.m.idx && p in s'.m.heap[r].Packed(p.blob.handle.tpe);
  }

  lemma StepKeepsKnown(s: State, step: Step, s': State, h: BlobHandle)
    requires Wf(s.m) && Next(s, step, s') && Wf(s'.m) && Known(s.m, h)
    ensures Known(s'.m, h)
  {
    hide Distinct, IndexVal.Valid, Finds, Indexed, MergeInto, Remaining, StorePack;
    IndexedFinds(s.m, h);
    IndexedFinds(s'.m, h);
    if Indexed(s.m, h) {
      var p :| Finds(s.m, p) && p.blob.handle == h;
      StepKeepsFinds(s, step, s', p);
    } else if step.StorePackStep? && h in Handles(step.blobs) {
      var b :| b in step.blobs && b.handle == h;
      StoreFinds(s.m, step.pack, step.blobs, step.newRef, PackedBlob(b, step.pack));
    }
  }

  // ---------------------------------------------------------------- what is found, and no more

  /** The steps that bring an entry into the master index. */
  ghost predicate Adds(step: Step, p: PackedBlob) {
    match step
    case StorePackStep(pack, blobs, _) => p.pack == pack && p.blob in blobs
    case Insert(_, v) => v.Valid() && p in v.Packed(p.blob.handle.tpe)
    case _ => false
  }

  lemma InsertFinds(s: State, r: Ref, v: IndexVal, s': State, p: PackedBlob)
    requires Wf(s.m) && Next(s, Insert(r, v), s') && Wf(s'.m)
    ensures Finds(s'.m, p) <==> Finds(s.m, p) || p in v.Packed(p.blob.handle.tpe)
  {
    hide Distinct, IndexVal.Valid, IndexVal.Packed, Entries;
    var t := p.blob.handle.tpe;
    assert s'.m.heap[r] == v && r in s'.m.idx;
    if Finds(s.m, p) { StepKeepsFinds(s, Insert(r, v), s', p); }
  }

  lemma StepFinds(s: State, step: Step, s': State, p: PackedBlob)
    requires Wf(s.m) && Next(s, step, s') && Wf(s'.m)
    ensures Finds(s'.m, p) <==> Finds(s.m, p) || Adds(step, p)
  {
    hide Distinct, IndexVal.Valid, Store, MergeFinal, Known, Entries;
    match step
    case StorePackStep(pack, blobs, newRef) => StoreFinds(s.m, pack, blobs, newRef, p);
    case MergeFinalIndexes => MergeFinalFinds(s.m, p);
    case Insert(r, v) => InsertFinds(s, r, v, s', p);
    case _ =>
      if Finds(s.m, p) { StepKeepsFinds(s, step, s', p); }
      if Finds(s'.m, p) {
        var r :| r in s'.m.idx && p in s'.m.heap[r].Packed(p.blob.handle.tpe);
        assert r in s.m.idx && p in s.m.heap[r].Packed(p.blob.handle.tpe);
      }
  }

  // ---------------------------------------------------------------- every step keeps the invariant

  lemma StepKeepsWf(s: State, step: Step, s': State)
    requires Wf(s.m) && Next(s, step, s') && SaversInv(s)
    ensures Wf(s'.m)
  {
    hide Distinct, MergeInto, Remaining, Store, Entries, MergeFinal, Known;
    match step
    case StorePackStep(pack, blobs, newRef) => StoreWf(s.m, pack, blobs, newRef);
    case MergeFinalIndexes => MergeFinalWf(s.m);
    case Insert(r, v) =>
      OneDistinct(r);
      DistinctConcat(s.m.idx, [r]);
    case _ =>
  }

  lemma StepKeepsGranted(s: State, step: Step, s': State)
    requires Wf(s.m) && GrantedInv(s) && Next(s, step, s') && Wf(s'.m)
    ensures GrantedInv(s')
  {
    hide Distinct, IndexVal.Valid, Store, MergeFinal, Entries, Indexed;
    forall h | h in s.granted ensures Known(s'.m, h) {
      StepKeepsKnown(s, step, s', h);
    }
    if step.AddPending? && step.added {
      GrantOnce(s.granted, step.h);
    }
  }

  lemma GrantOnce(granted: seq<BlobHandle>, h: BlobHandle)
    requires Distinct(granted) && h !in granted
    ensures Distinct(granted + [h])
  {
    DistinctConcat(granted, [h]);
  }

  lemma {:induction false} ToFinalizeDistinct(heap: map<Ref, IndexVal>, idx: seq<Ref>, full: set<Ref>)
    requires Distinct(idx) && forall r :: r in idx ==> r in heap
    ensures Distinct(ToFinalize(heap, idx, full))
  {
    hide Distinct;
    NoneDistinct();
    if idx != [] {
      DistinctSplit(idx, 1);
      assert idx[0] in idx[..1];
      ToFinalizeDistinct(heap, idx[1..], full);
      OneDistinct(idx[0]);
      DistinctConcat(if !heap[idx[0]].final && idx[0] in full then [idx[0]] else [], ToFinalize(heap, idx[1..], full));
    }
  }

  lemma FinalizeKeepsSavers(s: State, full: set<Ref>, s': State)
    requires Wf(s.m) && SaversInv(s) && Next(s, Finalize(full), s') && Wf(s'.m)
    ensures SaversInv(s')
  {
    hide Distinct, IndexVal.Valid, ToFinalize;
    var list := ToFinalize(s.m.heap, s.m.idx, full);
    ToFinalizeDistinct(s.m.heap, s.m.idx, full);
    DistinctConcat(s.handed, list);
  }

  lemma MergeKeepsSavers(s: State, s': State)
    requires Wf(s.m) && SaversInv(s) && Next(s, MergeFinalIndexes, s') && Wf(s'.m)
    ensures SaversInv(s')
  {
    hide Distinct, IndexVal.Valid, MergeInto, Remaining;
    MergeIntoFinal(s.m.heap, s.m.heap[s.m.idx[0]], s.m.idx[1..]);
  }

  lemma StoreKeepsSavers(s: State, pack: ID, blobs: seq<Blob>, newRef: Ref, s': State)
    requires Wf(s.m) && SaversInv(s) && Next(s, StorePackStep(pack, blobs, newRef), s') && Wf(s'.m)
    ensures SaversInv(s')
  {
    hide Distinct, IndexVal.Valid, NewRecords;
  }

  lemma StepKeepsSavers(s: State, step: Step, s': State)
    requires Wf(s.m) && SaversInv(s) && Next(s, step, s') && Wf(s'.m)
    ensures SaversInv(s')
  {
    hide Distinct, IndexVal.Valid, Store, MergeFinal, Entries, Known, ToFinalize, Finalized;
    match step
    case StorePackStep(pack, blobs, newRef) => StoreKeepsSavers(s, pack, blobs, newRef, s');
    case Finalize(full) => FinalizeKeepsSavers(s, full, s');
    case MergeFinalIndexes => MergeKeepsSavers(s, s');
    case _ =>
  }

  lemma MergeKeepsPersisted(s: State, s': State)
    requires Wf(s.m) && PersistedInv(s) && Next(s, MergeFinalIndexes, s') && Wf(s'.m)
    ensures PersistedInv(s')
  {
    hide Distinct, IndexVal.Valid, IndexVal.Packed, MergeInto, Remaining;
    var first, rest := s.m.idx[0], s.m.idx[1..];
    forall p | p in Entries(s'.m.heap[first]) ensures p in s.persisted + s.failed {
      var t := if p in s'.m.heap[first].Packed(DataBlob) then DataBlob else TreeBlob;
      MergeIntoAnswers(s.m.heap, s.m.heap[first], rest, t, p);
      if p !in s.m.heap[first].Packed(t) {
        var r :| r in rest && Mergeable(s.m.heap[r]) && p in s.m.heap[r].Packed(t);
        assert r in s.m.idx && p in Entries(s.m.heap[r]);
      } else {
        assert p in Entries(s.m.heap[first]);
      }
    }
  }

  lemma StoreKeepsPersisted(s: State, pack: ID, blobs: seq<Blob>, newRef: Ref, s': State)
    requires Wf(s.m) && PersistedInv(s) && Next(s, StorePackStep(pack, blobs, newRef), s') && Wf(s'.m)
    ensures PersistedInv(s')
  {
    hide Distinct, IndexVal.Valid, IndexVal.Packed, NewRecords, Entries;
  }

  lemma FinalizeKeepsPersisted(s: State, full: set<Ref>, s': State)
    requires Wf(s.m) && SaversInv(s) && PersistedInv(s) && Next(s, Finalize(full), s') && Wf(s'.m)
    ensures PersistedInv(s')
  {
    hide Distinct, IndexVal.Valid, ToFinalize;
    forall r | r in s.m.heap ensures Entries(s'.m.heap[r]) == Entries(s.m.heap[r]) {
    }
  }

  lemma SaveKeepsPersisted(s: State, r: Ref, id: ID, saved: bool, s': State)
    requires Wf(s.m) && SaversInv(s) && PersistedInv(s) && Next(s, SaveIndex(r, id, saved), s') && Wf(s'.m)
    ensures PersistedInv(s')
  {
    hide Distinct, IndexVal.Valid;
    assert Entries(s'.m.heap[r]) == Entries(s.m.heap[r]);
  }

  lemma StepKeepsPersisted(s: State, step: Step, s': State)
    requires Wf(s.m) && SaversInv(s) && PersistedInv(s) && Next(s, step, s') && Wf(s'.m)
    ensures PersistedInv(s')
  {
    hide Distinct, IndexVal.Valid, Store, MergeFinal, Entries, Known, ToFinalize, Finalized;
    match step
    case StorePackStep(pack, blobs, newRef) => StoreKeepsPersisted(s, pack, blobs, newRef, s');
    case Finalize(full) => FinalizeKeepsPersisted(s, full, s');
    case SaveIndex(r, id, saved) => SaveKeepsPersisted(s, r, id, saved, s');
    case MergeFinalIndexes => MergeKeepsPersisted(s, s');
    case _ =>
  }

  lemma StepKeepsInv(s: State, step: Step, s': State)
    requires Inv(s) && Next(s, step, s')
    ensures Inv(s')
  {
    hide Wf, SaversInv, GrantedInv, PersistedInv, Next;
    StepKeepsWf(s, step, s');
    StepKeepsSavers(s, step, s');
    StepKeepsGranted(s, step, s');
    StepKeepsPersisted(s, step, s');
  }

  // ---------------------------------------------------------------- theorems about whole runs

  ghost predicate Run(trace: seq<State>, steps: seq<Step>) {
    && |trace| == |steps| + 1
    && Init(trace[0])
    && forall i :: 0 <= i < |steps| ==> Wf(trace[i].m) && Next(trace[i], steps[i], trace[i + 1])
  }

  lemma InitInv(s: State)
    requires Init(s)
    ensures Inv(s)
  {
  }

  lemma {:induction false} RunKeepsInv(trace: seq<State>, steps: seq<Step>, n: nat)
    requires Run(trace, steps) && n < |trace|
    ensures Inv(trace[n])
  {
    hide Init, Inv, Next, Wf;
    if n == 0 {
      InitInv(trace[0]);
    } else {
      RunKeepsInv(trace, steps, n - 1);
      StepKeepsInv(trace[n - 1], steps[n - 1], trace[n]);
    }
  }

  /** Once Has has said yes to a blob it always does. */
  lemma {:induction false} HasNeverForgets(trace: seq<State>, steps: seq<Step>, i: nat, n: nat, h: BlobHandle)
    requires Run(trace, steps) && i <= n < |trace|
    requires Wf(trace[i].m) && Known(trace[i].m, h)
    ensures Wf(trace[n].m) && Known(trace[n].m, h)
    decreases n
  {
    hide Next, Known, Wf;
    if i < n {
      RunKeepsInv(trace, steps, n - 1);
      RunKeepsInv(trace, steps, n);
      HasNeverForgets(trace, steps, i, n - 1, h);
      StepKeepsKnown(trace[n - 1], steps[n - 1], trace[n], h);
    }
  }

  lemma InitFindsNothing(s: State, p: PackedBlob)
    requires Init(s)
    ensures Wf(s.m) && !Finds(s.m, p)
  {
  }

  /** What Lookup finds at any time is exactly what packs and inserted indexes have brought so far,
      however the indexes were finalized, saved and merged in between. */
  lemma {:induction false} FindsExactly(trace: seq<State>, steps: seq<Step>, n: nat, p: PackedBlob)
    requires Run(trace, steps) && n < |trace|
    ensures Wf(trace[n].m)
    ensures Finds(trace[n].m, p) <==> exists i :: 0 <= i < n && Adds(steps[i], p)
  {
    hide Init, Next, Finds, Wf, Adds;
    if n == 0 {
      InitFindsNothing(trace[0], p);
    } else {
      RunKeepsInv(trace, steps, n);
      FindsExactly(trace, steps, n - 1, p);
      StepFinds(trace[n - 1], steps[n - 1], trace[n], p);
    }
  }

  ghost predicate StoresHandle(step: Step, h: BlobHandle) {
    step.StorePackStep? && exists b :: b in step.blobs && b.handle == h
  }

  lemma StepPending(s: State, step: Step, s': State, h: BlobHandle)
    requires Wf(s.m) && Next(s, step, s')
    ensures h in s'.m.pending <==> step == AddPending(h, true) || (h in s.m.pending && !StoresHandle(step, h))
  {
    hide Distinct, IndexVal.Valid, Entries, FirstOpen, MergeInto, Remaining, Indexed, StorePack;
  }

  /** A blob is pending from the moment it is granted until a pack with it is stored. */
  lemma {:induction false} PendingExactly(trace: seq<State>, steps: seq<Step>, n: nat, h: BlobHandle)
    requires Run(trace, steps) && n < |trace|
    ensures h in trace[n].m.pending <==>
            exists i :: 0 <= i < n && steps[i] == AddPending(h, true) &&
              forall j :: i < j < n ==> !StoresHandle(steps[j], h)
  {
    hide Init, Next, Wf, StoresHandle;
    if n == 0 {
      InitNothingPending(trace[0]);
    } else {
      PendingExactly(trace, steps, n - 1, h);
      StepPending(trace[n - 1], steps[n - 1], trace[n], h);
      if h in trace[n].m.pending && steps[n - 1] != AddPending(h, true) {
        var i :| 0 <= i < n - 1 && steps[i] == AddPending(h, true) &&
          forall j :: i < j < n - 1 ==> !StoresHandle(steps[j], h);
        assert forall j :: i < j < n ==> !StoresHandle(steps[j], h);
      }
    }
  }

  lemma InitNothingPending(s: State)
    requires Init(s)
    ensures s.m.pending == {}
  {
  }

  /** Has says yes exactly to what is pending and to what Lookup finds. */
  lemma KnownExactly(trace: seq<State>, steps: seq<Step>, n: nat, h: BlobHandle)
    requires Run(trace, steps) && n < |trace|
    ensures Wf(trace[n].m)
    ensures Known(trace[n].m, h) <==>
            || (exists i :: 0 <= i < n && steps[i] == AddPending(h, true))
            || (exists i, p :: 0 <= i < n && Adds(steps[i], p) && p.blob.handle == h)
  {
    RunKeepsInv(trace, steps, n);
    if Known(trace[n].m, h) { KnownOnlyIf(trace, steps, n, h); }
    if exists i :: 0 <= i < n && steps[i] == AddPending(h, true) {
      var i :| 0 <= i < n && steps[i] == AddPending(h, true);
      GrantedKnown(trace, steps, i, n, h);
    }
    if exists i, p :: 0 <= i < n && Adds(steps[i], p) && p.blob.handle == h {
      var i, p :| 0 <= i < n && Adds(steps[i], p) && p.blob.handle == h;
      FindsExactly(trace, steps, n, p);
      IndexedFinds(trace[n].m, h);
    }
  }

  lemma KnownOnlyIf(trace: seq<State>, steps: seq<Step>, n: nat, h: BlobHandle)
    requires Run(trace, steps) && n < |trace| && Wf(trace[n].m) && Known(trace[n].m, h)
    ensures || (exists i :: 0 <= i < n && steps[i] == AddPending(h, true))
            || (exists i, p :: 0 <= i < n && Adds(steps[i], p) && p.blob.handle == h)
  {
    hide Run, Finds, Wf, Adds, Indexed;
    if h in trace[n].m.pending {
      PendingExactly(trace, steps, n, h);
    } else {
      IndexedFinds(trace[n].m, h);
      var p :| Finds(trace[n].m, p) && p.blob.handle == h;
      FindsExactly(trace, steps, n, p);
    }
  }

  lemma GrantedKnown(trace: seq<State>, steps: seq<Step>, i: nat, n: nat, h: BlobHandle)
    requires Run(trace, steps) && i < n < |trace| && steps[i] == AddPending(h, true)
    ensures Wf(trace[n].m) && Known(trace[n].m, h)
  {
    RunKeepsInv(trace, steps, i + 1);
    assert Next(trace[i], steps[i], trace[i + 1]);
    assert Known(trace[i + 1].m, h);
    HasNeverForgets(trace, steps, i + 1, n, h);
  }

  /** AddPending returns true to one caller only: two steps that were granted a blob are the same. */
  lemma AddPendingGrantsOnce(trace: seq<State>, steps: seq<Step>, i: nat, j: nat, h: BlobHandle)
    requires Run(trace, steps) && i < j < |steps|
    requires steps[i] == AddPending(h, true) && steps[j].AddPending? && steps[j].h == h
    ensures !steps[j].added
  {
    RunKeepsInv(trace, steps, i + 1);
    assert Next(trace[i], steps[i], trace[i + 1]);
    assert Known(trace[i + 1].m, h);
    HasNeverForgets(trace, steps, i + 1, j, h);
    assert Next(trace[j], steps[j], trace[j + 1]);
  }

  /** Every index is handed to one saver only, savers never find the ID set or the index open (which
      would panic), no index being saved is merged away, and what the first index has merged is in
      index files, except for entries whose save failed. */
  lemma SavingIsSafe(trace: seq<State>, steps: seq<Step>, n: nat, r: Ref)
    requires Run(trace, steps) && n < |trace|
    ensures Distinct(trace[n].handed)
    ensures Wf(trace[n].m)
    ensures r in trace[n].saving ==>
      r in trace[n].m.idx && trace[n].m.heap[r].final && trace[n].m.heap[r].ids == []
    ensures Entries(trace[n].m.heap[trace[n].m.idx[0]]) <= trace[n].persisted + trace[n].failed
  {
    hide Next;
    RunKeepsInv(trace, steps, n);
  }

  // ---------------------------------------------------------------- a failed save

  lemma Extend(trace: seq<State>, steps: seq<Step>, step: Step, s': State)
    returns (trace': seq<State>, steps': seq<Step>)
    requires Run(trace, steps) && Wf(trace[|trace| - 1].m) && Next(trace[|trace| - 1], step, s')
    ensures Run(trace', steps') && |trace'| > 0 && trace'[|trace'| - 1] == s' && Wf(s'.m)
  {
    hide Next, Inv, Init, Wf;
    trace', steps' := trace + [s'], steps + [step];
    RunKeepsInv(trace', steps', |trace|);
    assert Inv(s') ==> Wf(s'.m) by { InvWf(s'); }
  }

  lemma InvWf(s: State)
    ensures Inv(s) ==> Wf(s.m)
  {
  }

  /** A pack is stored in a new index, and one of its entries is found. */
  lemma StoreNew(h: BlobHandle, pack: ID) returns (trace: seq<State>, steps: seq<Step>, p: PackedBlob)
    ensures Run(trace, steps) && |trace| > 0 && p == PackedBlob(Blob(h, 0, 1, 0), pack)
    ensures var s := trace[|trace| - 1];
      && Wf(s.m) && s.m.idx == [0, 1] && s.m.heap.Keys == {0, 1} && s.m.heap[0] == EMPTY_INDEX.(final := true)
      && !s.m.heap[1].final && s.m.heap[1].ids == [] && Finds(s.m, p)
      && s.handed == [] && s.saving == {} && s.persisted == {} && s.failed == {}
  {
    hide Run, IndexVal.Valid, IndexVal.Packed, Finds, Inv, Store, Wf;
    var b := Blob(h, 0, 1, 0);
    p := PackedBlob(b, pack);
    trace, steps := StartRun();
    var s := trace[|trace| - 1];
    StoreFinds(s.m, pack, [b], 1, p);
    NewIndexLast(s.m, pack, [b]);
    trace, steps := Extend(trace, steps, StorePackStep(pack, [b], 1), s.(m := Store(s.m, pack, [b], 1)));
  }

  /** The new index is made final and handed to a saver. */
  lemma StoreAndHand(h: BlobHandle, pack: ID) returns (trace: seq<State>, steps: seq<Step>, p: PackedBlob)
    ensures Run(trace, steps) && |trace| > 0 && p == PackedBlob(Blob(h, 0, 1, 0), pack)
    ensures var s := trace[|trace| - 1];
      && Wf(s.m) && s.m.idx == [0, 1] && s.m.heap.Keys == {0, 1} && s.m.heap[0] == EMPTY_INDEX.(final := true)
      && s.m.heap[1].final && s.m.heap[1].ids == [] && Finds(s.m, p)
      && s.saving == {1} && s.persisted == {} && s.failed == {}
  {
    hide Run, IndexVal.Valid, IndexVal.Packed, Finds, Inv, Wf, ToFinalize;
    trace, steps, p := StoreNew(h, pack);
    var s := trace[|trace| - 1];
    FinalizesNew(s.m);
    var s' := s.(m := s.m.(heap := Finalized(s.m.heap, [1])), handed := [1], saving := {1});
    assert s.handed + [1] == [1] && s.saving + (set r | r in [1]) == {1};
    StepKeepsFindsTo(trace, steps, Finalize({1}), s', p);
    trace, steps := Extend(trace, steps, Finalize({1}), s');
  }

  /** The saver cannot write the index, which gets its ID all the same. */
  lemma StoreAndFail(h: BlobHandle, pack: ID, id: ID) returns (trace: seq<State>, steps: seq<Step>, p: PackedBlob)
    ensures Run(trace, steps) && |trace| > 0 && p == PackedBlob(Blob(h, 0, 1, 0), pack)
    ensures var s := trace[|trace| - 1];
      Wf(s.m) && s.m.idx == [0, 1] && Mergeable(s.m.heap[1]) && Finds(s.m, p) && s.persisted == {} && p in s.failed
  {
    hide Run, IndexVal.Valid, IndexVal.Packed, Finds, Inv, Entries;
    trace, steps, p := StoreAndHand(h, pack);
    var s := trace[|trace| - 1];
    FoundInNew(s.m, p);
    var v := s.m.heap[1];
    var s' := s.(m := s.m.(heap := s.m.heap[1 := v.(ids := v.ids + [id])]), saving := {}, failed := Entries(v));
    assert s.saving - {1} == {} && s.failed + Entries(v) == Entries(v);
    StepKeepsFindsTo(trace, steps, SaveIndex(1, id, false), s', p);
    trace, steps := Extend(trace, steps, SaveIndex(1, id, false), s');
  }

  lemma StartRun() returns (trace: seq<State>, steps: seq<Step>)
    ensures Run(trace, steps) && |trace| > 0
    ensures trace[|trace| - 1] == State(Master(map[0 := EMPTY_INDEX.(final := true)], [0], {}), [], [], {}, {}, {})
    ensures Wf(trace[|trace| - 1].m)
  {
    trace, steps := [State(Master(map[0 := EMPTY_INDEX.(final := true)], [0], {}), [], [], {}, {}, {})], [];
    assert Init(trace[0]);
    InitInv(trace[0]);
  }

  lemma NewIndexLast(m: Master, pack: ID, blobs: seq<Blob>)
    requires m == Master(map[0 := EMPTY_INDEX.(final := true)], [0], {})
    ensures var m' := Store(m, pack, blobs, 1);
      && m'.idx == [0, 1] && m'.heap.Keys == {0, 1} && m'.heap[0] == EMPTY_INDEX.(final := true)
      && !m'.heap[1].final && m'.heap[1].ids == []
  {
    assert FirstOpen(m.heap, m.idx) == 1;
  }

  lemma FinalizesNew(m: Master)
    requires m.idx == [0, 1] && m.heap.Keys == {0, 1} && m.heap[0].final && !m.heap[1].final
    ensures ToFinalize(m.heap, m.idx, {1}) == [1]
  {
    assert m.idx[1..] == [1] && [1][1..] == [];
    assert ToFinalize(m.heap, [], {1}) == [];
    assert ToFinalize(m.heap, [1], {1}) == [1];
  }

  lemma StepKeepsFindsTo(trace: seq<State>, steps: seq<Step>, step: Step, s': State, p: PackedBlob)
    requires Run(trace, steps) && Wf(trace[|trace| - 1].m) && Next(trace[|trace| - 1], step, s')
    requires Finds(trace[|trace| - 1].m, p)
    ensures Wf(s'.m) && Finds(s'.m, p)
  {
    hide Next, Finds, Wf;
    var t, u := Extend(trace, steps, step, s');
    StepKeepsFinds(trace[|trace| - 1], step, s', p);
  }

  /** The first index is empty, so an entry that is found is in the second. */
  lemma FoundInNew(m: Master, p: PackedBlob)
    requires Wf(m) && m.idx == [0, 1] && m.heap[0] == EMPTY_INDEX.(final := true) && Finds(m, p)
    ensures p in Entries(m.heap[1])
  {
    hide IndexVal.Valid;
    var r :| r in m.idx && p in m.heap[r].Packed(p.blob.handle.tpe);
    assert m.heap[0].Packed(p.blob.handle.tpe) == [];
  }

  /** After a failed save an entry can be merged, and found, although no index file has it. */
  lemma FailedSaveMerged(h: BlobHandle, pack: ID, id: ID) returns (trace: seq<State>, steps: seq<Step>, p: PackedBlob)
    ensures Run(trace, steps) && |trace| > 0 && p.blob.handle == h && p.pack == pack
    ensures var s := trace[|trace| - 1];
      Wf(s.m) && p in Entries(s.m.heap[s.m.idx[0]]) && p !in s.persisted
  {
    hide Run, IndexVal.Valid, IndexVal.Packed, Finds, MergeInto, Inv;
    trace, steps, p := StoreAndFail(h, pack, id);
    var s := trace[|trace| - 1];
    var s' := s.(m := MergeFinal(s.m));
    trace, steps := Extend(trace, steps, MergeFinalIndexes, s');
    MergeFinalFinds(s.m, p);
    assert s.m.idx[1..] == [1] && [1][..0] == [];
    assert Remaining(s.m.heap, []) == [] && Remaining(s.m.heap, [1]) == [];
    assert s'.m.idx == [0];
    OnlyFirst(s'.m, p);
  }

  lemma OnlyFirst(m: Master, p: PackedBlob)
    requires Wf(m) && m.idx == [0] && Finds(m, p)
    ensures p in Entries(m.heap[0])
  {
    hide IndexVal.Valid, IndexVal.Packed, Distinct;
    var r :| r in m.idx && p in m.heap[r].Packed(p.blob.handle.tpe);
    assert r == 0;
    if p.blob.handle.tpe.DataBlob? {
      assert p in m.heap[0].Packed(DataBlob);
    } else {
      assert p in m.heap[0].Packed(TreeBlob);
    }
  }

  // ---------------------------------------------------------------- the operations as they run

  /** An element of the list of indexes, cleared once its index has been taken out. */
  datatype Slot = Nil | At(ref: Ref)

  /** Of the positions before `i` the remaining indexes have been moved to the front; the positions
      from `i` on are untouched. */
  ghost predicate Compacted(m: Master, slots: seq<Slot>, newLen: nat, i: nat)
    requires Wf(m)
  {
    && 1 <= i <= |m.idx| == |slots|
    && var front := [m.idx[0]] + Remaining(m.heap, m.idx[1..i]);
    && newLen == |front| <= i
    && (forall j :: 0 <= j < newLen ==> slots[j] == At(front[j]))
    && (forall j :: i <= j < |slots| ==> slots[j] == At(m.idx[j]))
  }

  ghost predicate Merging(m: Master, heap: map<Ref, IndexVal>, i: nat)
    requires Wf(m)
  {
    1 <= i <= |m.idx| && heap == m.heap[m.idx[0] := MergeInto(m.heap, m.heap[m.idx[0]], m.idx[1..i])]
  }

  lemma MergeNone(m: Master)
    requires Wf(m)
    ensures Compacted(m, seq(|m.idx|, i requires 0 <= i < |m.idx| => At(m.idx[i])), 1, 1) && Merging(m, m.heap, 1)
  {
  }

  lemma RemainingOne(m: Master, i: nat)
    requires Wf(m) && 1 <= i < |m.idx|
    ensures
      var r := m.idx[i];
      Remaining(m.heap, m.idx[1..i + 1]) == Remaining(m.heap, m.idx[1..i]) + (if Mergeable(m.heap[r]) then [] else [r])
  {
    assert m.idx[1..i + 1][..i - 1] == m.idx[1..i];
  }

  /** Moving the index at position `i` to the front, or only clearing its slot. */
  lemma CompactOne(m: Master, slots: seq<Slot>, newLen: nat, i: nat)
    requires Wf(m) && Compacted(m, slots, newLen, i) && i < |m.idx|
    ensures i < |slots| && newLen <= i && slots[i] == At(m.idx[i])
    ensures
      var cleared := slots[i := Nil];
      if Mergeable(m.heap[m.idx[i]]) then Compacted(m, cleared, newLen, i + 1)
      else Compacted(m, cleared[newLen := slots[i]], newLen + 1, i + 1)
  {
    hide Distinct, IndexVal.Valid, Remaining;
    RemainingOne(m, i);
  }

  lemma MergeOne(m: Master, heap: map<Ref, IndexVal>, i: nat)
    requires Wf(m) && Merging(m, heap, i) && i < |m.idx|
    ensures
      var r, first := m.idx[i], m.idx[0];
      && r in m.heap && r in heap && first in heap && heap[r] == m.heap[r] && heap[r].Valid() && heap[first].Valid()
      && Merging(m, if Mergeable(heap[r]) then heap[first := Merge(heap[first], heap[r])] else heap, i + 1)
  {
    hide Distinct, IndexVal.Valid, Merge;
    DistinctHead(m.idx, i);
    assert m.idx[1..i + 1][..i - 1] == m.idx[1..i];
  }

  lemma DistinctHead(idx: seq<Ref>, i: nat)
    requires Distinct(idx) && 1 <= i < |idx|
    ensures idx[i] != idx[0]
  {
  }

  lemma MergeAll(m: Master, slots: seq<Slot>, newLen: nat)
    requires Wf(m) && Compacted(m, slots, newLen, |m.idx|)
    ensures newLen == |MergeFinal(m).idx| <= |slots|
    ensures forall j :: 0 <= j < newLen ==> slots[j] == At(MergeFinal(m).idx[j])
    ensures forall heap :: Merging(m, heap, |m.idx|) ==> MergeFinal(m).heap == heap
    ensures MergeFinal(m).pending == m.pending
  {
    assert m.idx[1..|m.idx|] == m.idx[1..];
  }

  class MasterIndexes {
    var heap: map<Ref, IndexVal>    // the index objects, as far as they are reachable from here
    var idx: seq<Ref>
    var pending: set<BlobHandle>

    ghost function State(): (m: Master) reads this {
      Master(heap, idx, pending)
    }

    /** The constructor's empty final index is the one that others are merged into. */
    constructor (first: Ref)
      ensures State() == Master(map[first := EMPTY_INDEX.(final := true)], [first], {}) && Wf(State())
    {
      heap, idx, pending := map[first := EMPTY_INDEX.(final := true)], [first], {};
    }

    method AddPending(h: BlobHandle) returns (added: bool)
      requires Wf(State())
      modifies this
      ensures added <==> !Known(old(State()), h)
      ensures State() == if added then old(State()).(pending := old(pending) + {h}) else old(State())
    {
      hide Distinct, IndexVal.Valid;
      if h in pending { return false; }
      for i := 0 to |idx|
        invariant forall j :: 0 <= j < i ==> !heap[idx[j]].Has(h)
      {
        if heap[idx[i]].Has(h) { return false; }
      }
      pending := pending + {h};
      return true;
    }

    /** Merges all final indexes with an ID into the first one.  The list of the others is compacted in
        place: `newLen` is the length of the part that is already rewritten. */
    method MergeFinalIndexes()
      requires Wf(State())
      modifies this
      ensures State() == MergeFinal(old(State()))
    {
      hide Distinct, IndexVal.Valid, Compacted, Merging, Merge, MergeFinal;
      ghost var m := State();
      var slots := new Slot[|idx|](i requires 0 <= i < |idx| reads this => At(idx[i]));
      var newLen := 1;
      MergeNone(m);
      assert slots[..] == seq(|m.idx|, i requires 0 <= i < |m.idx| => At(m.idx[i]));
      for i := 1 to |idx|
        modifies slots, this`heap
        invariant Compacted(m, slots[..], newLen, i)
        invariant Merging(m, heap, i)
      {
        CompactOne(m, slots[..], newLen, i);
        MergeOne(m, heap, i);
        var r := slots[i].ref;
        slots[i] := Nil;
        if !Mergeable(heap[r]) {
          slots[newLen] := At(r);
          newLen := newLen + 1;
        } else {
          heap := heap[idx[0] := Merge(heap[idx[0]], heap[r])];
        }
      }
      MergeAll(m, slots[..], newLen);
      idx := seq(newLen, i requires 0 <= i < newLen <= slots.Length && slots[i].At? reads slots => slots[i].ref);
    }

    method StorePack(pack: ID, blobs: seq<Blob>, newRef: Ref)
      requires Wf(State()) && newRef !in heap
      modifies this
      ensures State() == Store(old(State()), pack, blobs, newRef)
    {
      hide Distinct, IndexVal.Valid, BlobIndex.StorePack;
      pending := pending - Handles(blobs);
      for i := 0 to |idx|
        invariant forall j :: 0 <= j < i ==> heap[idx[j]].final
      {
        if !heap[idx[i]].final {
          FirstOpenIs(heap, idx, i);
          heap := heap[idx[i] := BlobIndex.StorePack(heap[idx[i]], pack, blobs)];
          return;
        }
      }
      FirstOpenIs(heap, idx, |idx|);
      heap := heap[newRef := BlobIndex.StorePack(EMPTY_INDEX, pack, blobs)];
      idx := idx + [newRef];
    }

    /** finalizeFullIndexes and, with everything full, finalizeNotFinalIndexes. */
    method FinalizeFullIndexes(full: set<Ref>) returns (list: seq<Ref>)
      requires Wf(State())
      modifies this`heap
      ensures list == ToFinalize(old(heap), idx, full)
      ensures State() == old(State()).(heap := Finalized(old(heap), list))
    {
      hide IndexVal.Valid, Distinct, ToFinalize, Finalized;
      list := [];
      ghost var heap0 := heap;
      FinalizeNone(heap0);
      assert idx[0..] == idx;
      for i := 0 to |idx|
        invariant list + ToFinalize(heap0, idx[i..], full) == ToFinalize(heap0, idx, full)
        invariant forall r :: r in list ==> r in idx[..i]
        invariant heap == Finalized(heap0, list)
      {
        FinalizeOne(heap0, idx, full, list, i);
        if !heap[idx[i]].final && idx[i] in full {
          heap := heap[idx[i] := heap[idx[i]].(final := true)];
          list := list + [idx[i]];
        }
      }
    }
  }

  lemma FinalizeNone(heap: map<Ref, IndexVal>)
    ensures Finalized(heap, []) == heap && ToFinalize(heap, [], {}) == []
    ensures forall full :: ToFinalize(heap, [], full) == []
  {
  }

  lemma FinalizeOne(heap: map<Ref, IndexVal>, idx: seq<Ref>, full: set<Ref>, list: seq<Ref>, i: nat)
    requires Distinct(idx) && i < |idx| && forall r :: r in idx ==> r in heap
    requires forall r :: r in list ==> r in idx[..i]
    ensures
      var r := idx[i];
      && r in Finalized(heap, list) && Finalized(heap, list)[r] == heap[r]
      && Finalized(heap, list + [r]) == Finalized(heap, list)[r := heap[r].(final := true)]
      && ToFinalize(heap, idx[i..], full) ==
           (if !heap[r].final && r in full then [r] + ToFinalize(heap, idx[i +
             1..], full) else ToFinalize(heap, idx[i + 1..], full))
  {
    assert idx[i..][1..] == idx[i + 1..];
    assert idx[i] !in idx[..i];
  }

  lemma FirstOpenIs(heap: map<Ref, IndexVal>, idx: seq<Ref>, n: nat)
    requires forall r :: r in idx ==> r in heap
    requires n <= |idx| && (forall j :: 0 <= j < n ==> heap[idx[j]].final) && (n < |idx| ==> !heap[idx[n]].final)
    ensures FirstOpen(heap, idx) == n
  {
  }
}
