/** Restoring one file by several workers.  Each write goes through the file's lock, the table of open
    files, the file itself and the table again; these steps of different workers interleave freely. */
module RestoreRun {
  import opened Common
  import opened FilesWriter

  datatype Write = Write(data: seq<byte>, offset: nat)

  /** Where a worker is in its write; `first` is the one that found the file not yet in progress and keeps
      the file's lock until its write is done. */
  datatype Phase =
    | Entering(w: Write, first: bool)
    | Holding(w: Write, first: bool)
    | Leaving(w: Write, first: bool)

  /** The file to be restored: its size and sparse flag. */
  datatype File = File(size: nat, sparse: bool)

  datatype State = State(
    inProgress: bool,
    locked: bool,
    view: View,
    workers: map<nat, Phase>,
    created: nat,
    done: set<Write>)

  datatype Step =
    | Begin(worker: nat, w: Write)
    | Acquire(worker: nat, prealloc: bool)
    | WriteBlob(worker: nat)
    | Release(worker: nat)

  ghost predicate Next(f: File, s: State, step: Step, s': State) {
    match step
    case Begin(i, w) =>
      && i !in s.workers && !s.locked
      && s' == s.(inProgress := true, locked := !s.inProgress, workers := s.workers[i := Entering(w, !s.inProgress)])
    case Acquire(i, prealloc) =>
      && i in s.workers && s.workers[i].Entering?
      && (var first := s.workers[i].first;
          var r := Acquired(s.view, if first then f.size else -1, f.sparse, prealloc);
          && r.Some?
          && s' == s.(view := r.value,
                      created := s.created + (if first && s.view.handle.None? then 1 else 0),
                      workers := s.workers[i := Holding(s.workers[i].w, first)]))
    case WriteBlob(i) =>
      && i in s.workers && s.workers[i].Holding? && s.view.handle.Some? && s.view.content.Some?
      && (var w := s.workers[i].w;
          s' == s.(view := Written(s.view, w.data, w.offset), done := s.done + {w},
                   workers := s.workers[i := Leaving(w, s.workers[i].first)]))
    case Release(i) =>
      && i in s.workers && s.workers[i].Leaving? && s.view.handle.Some?
      && s' == s.(view := Released(s.view), locked := s.locked && !s.workers[i].first, workers := s.workers - {i})
  }

  /** What was there before is arbitrary, but the file is not open. */
  ghost predicate Init(s: State) {
    && !s.inProgress && !s.locked && s.view.handle.None? && s.workers == map[] && s.created == 0 && s.done == {}
  }

  // ---------------------------------------------------------------- the open file

  /** The workers that hold the file open. */
  ghost function Holders(workers: map<nat, Phase>): set<nat> {
    set i | i in workers && !workers[i].Entering?
  }

  ghost predicate Counted(s: State, f: File) {
    && (s.view.handle.None? <==> Holders(s.workers) == {})
    && (s.view.handle.Some? ==>
          s.view.handle.value.users == |Holders(s.workers)| && s.view.handle.value.sparse == f.sparse)
  }

  /** The first writer is alone until its write is done, and it creates the file. */
  ghost predicate Once(s: State) {
    && (s.locked ==> s.inProgress && forall i, j :: i in s.workers && j in s.workers ==> i == j)
    && (s.locked ==> exists i :: i in s.workers && s.workers[i].first)
    && (!s.locked ==> forall i :: i in s.workers ==> !s.workers[i].first)
    && (!s.inProgress ==> s.workers == map[] && !s.locked)
    && s.created == (if !s.inProgress || Creating(s) then 0 else 1)
    && (s.created == 1 ==> s.view.content.Some?)
    && (s.created == 0 ==> s.done == {})
  }

  ghost predicate Creating(s: State) {
    exists i :: i in s.workers && s.workers[i].first && s.workers[i].Entering?
  }

  lemma HoldersSet(workers: map<nat, Phase>, i: nat, p: Phase)
    ensures Holders(workers[i := p]) == if p.Entering? then Holders(workers) - {i} else Holders(workers) + {i}
    ensures Holders(workers - {i}) == Holders(workers) - {i}
  {
  }

  lemma IsHolder(workers: map<nat, Phase>, i: nat)
    ensures i in Holders(workers) <==> i in workers && !workers[i].Entering?
  {
  }

  lemma CountedKept(f: File, s: State, step: Step, s': State)
    requires Counted(s, f) && Next(f, s, step, s')
    ensures Counted(s', f)
  {
    hide Put, Zeros, Holders;
    var i := step.worker;
    IsHolder(s.workers, i);
    var p := if i in s'.workers then s'.workers[i] else Entering(Write([], 0), false);
    HoldersSet(s.workers, i, p);
    var h, h' := Holders(s.workers), Holders(s'.workers);
    match step
    case Begin(_, _) => assert h' == h;
    case Acquire(_, _) => assert h' == h + {i};
    case WriteBlob(_) => assert h' == h;
    case Release(_) => assert h' == h - {i} && |h'| == |h| - 1;
  }

  lemma OnceKept(f: File, s: State, step: Step, s': State)
    requires Counted(s, f) && Once(s) && Next(f, s, step, s')
    ensures Once(s')
  {
    hide Put, Zeros;
    var i := step.worker;
    if step.Begin? && !s.inProgress {
      assert s'.workers[i].first;
    }
    if step.Acquire? && s.workers[i].first {
      assert s.locked && Creating(s);
      assert Holders(s.workers) == {};
      assert s'.workers[i].first && !Creating(s');
    } else if !step.Begin? {
      assert !Creating(s) && !Creating(s');
      if s.locked {
        var j :| j in s.workers && s.workers[j].first;
        assert j == i;
        assert step.WriteBlob? ==> s'.workers[i].first;
      }
    }
  }

  // ---------------------------------------------------------------- contents

  /** The write puts a piece of the wanted contents where it belongs. */
  ghost predicate Piece(whole: seq<byte>, w: Write) {
    w.offset + |w.data| <= |whole| && whole[w.offset..w.offset + |w.data|] == w.data
  }

  /** The file is right wherever it is not zero. */
  ghost predicate Agrees(c: seq<byte>, whole: seq<byte>) {
    |c| <= |whole| && forall k :: 0 <= k < |c| ==> c[k] == whole[k] || c[k] == 0
  }

  ghost predicate Holds(c: seq<byte>, whole: seq<byte>, w: Write) {
    forall k :: w.offset <= k < w.offset + |w.data| ==> RightAt(c, whole, k)
  }

  ghost predicate RightAt(c: seq<byte>, whole: seq<byte>, k: nat) {
    k < |c| && k < |whole| && c[k] == whole[k]
  }

  /** The file's size as recorded in the snapshot is that of its contents; without sparse writing it may
      also be smaller. */
  ghost predicate SizeFits(f: File, whole: seq<byte>) {
    if f.sparse then f.size == |whole| else f.size <= |whole|
  }

  ghost predicate Good(s: State, f: File, whole: seq<byte>) {
    && (forall i :: i in s.workers ==> Piece(whole, s.workers[i].w))
    && (s.created == 1 && s.view.content.Some? ==>
          && Agrees(s.view.content.value, whole)
          && (f.sparse ==> |s.view.content.value| == |whole|)
          && forall w :: w in s.done ==> Holds(s.view.content.value, whole, w))
  }

  lemma PutPiece(c: seq<byte>, whole: seq<byte>, w: Write, sparse: bool)
    requires Agrees(c, whole) && Piece(whole, w) && (sparse ==> |c| == |whole|)
    ensures var c' := Put(c, sparse, w.data, w.offset);
      && Agrees(c', whole) && |c| <= |c'| <= |whole| && Holds(c', whole, w)
      && forall x :: Holds(c, whole, x) ==> Holds(c', whole, x)
  {
    hide Patch, ZeroPrefix;
    var p, offset := w.data, w.offset;
    assert forall k :: 0 <= k < |p| ==> p[k] == whole[offset + k];
    if sparse {
      SkippedZeros(p);
      forall k | offset <= k < offset + ZeroPrefix(p) && k < |c| ensures c[k] == 0 {
        assert p[k - offset] == 0;
      }
      SparseIsPlain(c, p, offset);
    }
    if p == [] { EmptyPatch(c, p, offset); } else { PatchAt(c, p, offset); }
    var c' := Put(c, sparse, p, offset);
    forall k: nat | RightAt(c, whole, k) || offset <= k < offset + |p| ensures RightAt(c', whole, k) {
      if offset <= k < offset + |p| { assert p[k - offset] == whole[k]; }
    }
  }

  lemma ZerosAgree(n: nat, whole: seq<byte>)
    requires n <= |whole|
    ensures Agrees(Zeros(n), whole) && Agrees([], whole) && |Zeros(n)| == n
  {
  }

  lemma GoodKept(f: File, s: State, step: Step, s': State, whole: seq<byte>)
    requires Counted(s, f) && Once(s) && Good(s, f, whole) && Next(f, s, step, s')
    requires SizeFits(f, whole) && (step.Begin? ==> Piece(whole, step.w))
    ensures Good(s', f, whole)
  {
    hide Put, Zeros, Piece, Holds, Agrees;
    if step.Acquire? {
      ZerosAgree(f.size, whole);
      assert s.workers[step.worker].first ==> Creating(s);
    } else if step.WriteBlob? {
      NotCreating(s, step.worker);
      PutPiece(s.view.content.value, whole, s.workers[step.worker].w, f.sparse);
    }
  }

  lemma NotCreating(s: State, i: nat)
    requires Once(s) && i in s.workers && !s.workers[i].Entering?
    ensures s.created == 1 && s.view.content.Some?
  {
  }

  // ---------------------------------------------------------------- runs

  ghost predicate Inv(s: State, f: File, whole: seq<byte>) {
    Counted(s, f) && Once(s) && Good(s, f, whole)
  }

  ghost predicate Run(trace: seq<State>, steps: seq<Step>, f: File, whole: seq<byte>) {
    && |trace| == |steps| + 1
    && Init(trace[0])
    && (forall i :: 0 <= i < |steps| ==> Next(f, trace[i], steps[i], trace[i + 1]))
    && (forall i :: 0 <= i < |steps| && steps[i].Begin? ==> Piece(whole, steps[i].w))
  }

  lemma {:induction false} RunKeepsInv(trace: seq<State>, steps: seq<Step>, f: File, whole: seq<byte>, n: nat)
    requires Run(trace, steps, f, whole) && SizeFits(f, whole) && n < |trace|
    ensures Inv(trace[n], f, whole)
  {
    hide Next, Counted, Once, Good, Piece;
    if n == 0 {
      InitInv(trace[0], f, whole);
    } else {
      RunKeepsInv(trace, steps, f, whole, n - 1);
      CountedKept(f, trace[n - 1], steps[n - 1], trace[n]);
      OnceKept(f, trace[n - 1], steps[n - 1], trace[n]);
      GoodKept(f, trace[n - 1], steps[n - 1], trace[n], whole);
    }
  }

  lemma InitInv(s: State, f: File, whole: seq<byte>)
    requires Init(s)
    ensures Inv(s, f, whole)
  {
  }

  /** A worker that has the file open never finds it closed, a later writer always finds the file there, and
      the file is created at most once: no step of a write that has begun can fail for these reasons. */
  lemma NeverStuck(trace: seq<State>, steps: seq<Step>, f: File, whole: seq<byte>, n: nat, i: nat, prealloc: bool)
    requires Run(trace, steps, f, whole) && SizeFits(f, whole) && n < |trace| && i in trace[n].workers
    ensures trace[n].created <= 1
    ensures match trace[n].workers[i]
            case Entering(_, first) => exists s' :: Next(f, trace[n], Acquire(i, prealloc), s')
            case Holding(_, _) => exists s' :: Next(f, trace[n], WriteBlob(i), s')
            case Leaving(_, _) => exists s' :: Next(f, trace[n], Release(i), s')
  {
    hide Run, Good, Put, Zeros;
    RunKeepsInv(trace, steps, f, whole, n);
    CanStep(f, trace[n], i, prealloc);
  }

  lemma CanStep(f: File, s: State, i: nat, prealloc: bool)
    requires Counted(s, f) && Once(s) && i in s.workers
    ensures match s.workers[i]
            case Entering(_, first) => exists s' :: Next(f, s, Acquire(i, prealloc), s')
            case Holding(_, _) => exists s' :: Next(f, s, WriteBlob(i), s')
            case Leaving(_, _) => exists s' :: Next(f, s, Release(i), s')
  {
    hide Put, Zeros;
    var p := s.workers[i];
    match p
    case Entering(w, first) =>
      assert Acquired(s.view, if first then f.size else -1, f.sparse, prealloc).Some?;
      var s' := s.(view := Acquired(s.view, if first then f.size else -1, f.sparse, prealloc).value,
                   created := s.created + (if first && s.view.handle.None? then 1 else 0),
                   workers := s.workers[i := Holding(w, first)]);
      assert Next(f, s, Acquire(i, prealloc), s');
    case Holding(w, first) =>
      assert i in Holders(s.workers);
      var s' := s.(view := Written(s.view, w.data, w.offset), done := s.done + {w},
                   workers := s.workers[i := Leaving(w, first)]);
      assert Next(f, s, WriteBlob(i), s');
    case Leaving(w, first) =>
      assert i in Holders(s.workers);
      var s' := s.(view := Released(s.view), locked := s.locked && !first, workers := s.workers - {i});
      assert Next(f, s, Release(i), s');
  }

  /** Once writes covering the whole file are done, in whatever order, interleaving and multiplicity, the
      file on disk is exactly the wanted contents, it was created once, and it is closed. */
  lemma RestoredExactly(trace: seq<State>, steps: seq<Step>, f: File, whole: seq<byte>)
    requires Run(trace, steps, f, whole) && SizeFits(f, whole)
    requires var s := trace[|trace| - 1];
      && s.inProgress && s.workers == map[]
      && forall k :: 0 <= k < |whole| ==> Covered(s.done, k)
    ensures trace[|trace| - 1].view == View(None, Some(whole))
    ensures trace[|trace| - 1].created == 1
  {
    hide Next;
    var s := trace[|trace| - 1];
    RunKeepsInv(trace, steps, f, whole, |steps|);
    assert !Creating(s) && s.created == 1 && Holders(s.workers) == {};
    var c := s.view.content.value;
    forall k: nat | k < |whole| ensures RightAt(c, whole, k) {
      assert Covered(s.done, k);
      var w :| w in s.done && w.offset <= k < w.offset + |w.data|;
      assert Holds(c, whole, w);
    }
    AllRight(c, whole);
  }

  /** A sparse file whose recorded size is larger than its contents ends in zeros. */
  lemma OversizedEndsInZeros(trace: seq<State>, steps: seq<Step>, f: File, whole: seq<byte>)
    requires Run(trace, steps, f, whole) && f.sparse && f.size >= |whole|
    requires var s := trace[|trace| - 1];
      && s.inProgress && s.workers == map[]
      && forall k :: 0 <= k < |whole| ==> Covered(s.done, k)
    ensures trace[|trace| - 1].view == View(None, Some(whole + Zeros(f.size - |whole|)))
  {
    hide Next;
    var s := trace[|trace| - 1];
    var padded := whole + Zeros(f.size - |whole|);
    forall w | Piece(whole, w) ensures Piece(padded, w) {
      assert padded[w.offset..w.offset + |w.data|] == whole[w.offset..w.offset + |w.data|];
    }
    assert Run(trace, steps, f, padded);
    RunKeepsInv(trace, steps, f, padded, |steps|);
    assert !Creating(s) && s.created == 1 && Holders(s.workers) == {};
    var c := s.view.content.value;
    forall k: nat | k < |padded| ensures RightAt(c, padded, k) {
      if k < |whole| {
        assert Covered(s.done, k);
        var w :| w in s.done && w.offset <= k < w.offset + |w.data|;
        assert Holds(c, padded, w);
      }
    }
    AllRight(c, padded);
  }

  lemma AllRight(c: seq<byte>, whole: seq<byte>)
    requires |c| <= |whole| && forall k: nat :: k < |whole| ==> RightAt(c, whole, k)
    ensures c == whole
  {
    if |whole| > 0 { assert RightAt(c, whole, |whole| - 1); }
    forall k: nat | k < |c| ensures c[k] == whole[k] { assert RightAt(c, whole, k); }
  }

  ghost predicate Covered(done: set<Write>, k: nat) {
    exists w :: w in done && w.offset <= k < w.offset + |w.data|
  }
}
