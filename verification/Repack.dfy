/** Repacking: a producer lists the packs and several workers stream their blobs into new packs, sharing
    the set of blobs that are still to be kept.  Streaming may deliver a blob again after a download
    error, and in any order. */
module Repack {
  import opened Common

  datatype Handle = Handle(id: nat, tree: bool)

  /** A pack given to a worker: the blobs that were wanted when it was listed, and those that have been
      dealt with. */
  datatype Task = Task(blobs: seq<Handle>, done: set<Handle>, saving: set<Handle>)

  /** `keep` is the shared set keepBlobs; `todo` are the packs not listed yet; `offered` is the pack that
      waits for a worker; `saved` are the blobs written to the new packs, in order. */
  datatype State = State(
    keep: set<Handle>,
    todo: seq<seq<Handle>>,
    offered: Option<Task>,
    workers: map<nat, Task>,
    saved: seq<Handle>)

  datatype Step =
    | ListPack
    | Take(worker: nat)
    | Callback(worker: nat, h: Handle)
    | SaveDone(worker: nat, h: Handle)
    | Complete(worker: nat)

  function Wanted(blobs: seq<Handle>, keep: set<Handle>): (r: seq<Handle>) {
    if blobs == [] then []
    else (if blobs[0] in keep then [blobs[0]] else []) + Wanted(blobs[1..], keep)
  }

  lemma {:induction false} WantedHas(blobs: seq<Handle>, keep: set<Handle>)
    ensures forall h :: h in Wanted(blobs, keep) <==> h in blobs && h in keep
  {
    if blobs != [] { WantedHas(blobs[1..], keep); }
  }

  ghost predicate Next(s: State, step: Step, s': State) {
    match step
    case ListPack =>
      // the producer offers one pack at a time
      && s.todo != [] && s.offered.None?
      && s' == s.(todo := s.todo[1..], offered := Some(Task(Wanted(s.todo[0], s.keep), {}, {})))
    case Take(w) =>
      && s.offered.Some? && w !in s.workers
      && s' == s.(offered := None, workers := s.workers[w := s.offered.value])
    case Callback(w, h) =>
      // under the mutex: the first to find the blob wanted takes it out of keep and will save it
      && w in s.workers && h in s.workers[w].blobs && s.workers[w].saving == {}
      && s' == (if h in s.keep
                then s.(keep := s.keep - {h}, workers := s.workers[w := s.workers[w].(saving := {h})])
                else s.(workers := s.workers[w := s.workers[w].(done := s.workers[w].done + {h})]))
    case SaveDone(w, h) =>
      && w in s.workers && h in s.workers[w].saving
      && s' == s.(saved := s.saved + [h],
                  workers := s.workers[w := s.workers[w].(saving := {}, done := s.workers[w].done + {h})])
    case Complete(w) =>
      // StreamPack returns once every blob of the pack has been delivered
      && w in s.workers && s.workers[w].saving == {}
      && (forall h :: h in s.workers[w].blobs ==> h in s.workers[w].done)
      && s' == s.(workers := s.workers - {w})
  }

  ghost predicate Init(s: State, keep0: set<Handle>, packs: seq<seq<Handle>>) {
    s == State(keep0, packs, None, map[], [])
  }

  /** The producer and all workers have returned without an error. */
  predicate Finished(s: State) {
    s.todo == [] && s.offered.None? && s.workers == map[]
  }

  // ---------------------------------------------------------------- invariant

  ghost predicate Saving(s: State, h: Handle) {
    exists w :: w in s.workers && h in s.workers[w].saving
  }

  ghost predicate OneSaver(s: State) {
    && (forall w, h, h' :: w in s.workers && h in s.workers[w].saving && h' in s.workers[w].saving ==> h == h')
    && (forall w, w', h :: w in s.workers && w' in s.workers ==>
          h in s.workers[w].saving && h in s.workers[w'].saving ==> w == w')
    && (s.offered.Some? ==> s.offered.value.saving == {})
  }

  /** Every blob to be kept is in exactly one of three places: still wanted, being saved, saved. */
  ghost predicate Conserved(s: State, keep0: set<Handle>) {
    && (forall h :: h in keep0 <==> h in s.keep || Saving(s, h) || h in s.saved)
    && (forall h :: h in s.keep ==> !Saving(s, h) && h !in s.saved)
    && (forall h :: Saving(s, h) ==> h !in s.saved)
    && (forall i, j :: 0 <= i < j < |s.saved| ==> s.saved[i] != s.saved[j])
  }

  ghost predicate Occurs(packs: seq<seq<Handle>>, h: Handle) {
    exists i :: 0 <= i < |packs| && h in packs[i]
  }

  /** Somebody still has to deal with the blob. */
  ghost predicate Ahead(s: State, h: Handle) {
    || Occurs(s.todo, h)
    || (s.offered.Some? && h in s.offered.value.blobs)
    || (exists w :: w in s.workers && h in s.workers[w].blobs && h !in s.workers[w].done)
  }

  ghost predicate Covered(s: State, packs: seq<seq<Handle>>) {
    && (forall h :: h in s.keep && Occurs(packs, h) ==> Ahead(s, h))
    && (forall h :: Occurs(s.todo, h) ==> Occurs(packs, h))
    && (forall h :: s.offered.Some? && h in s.offered.value.blobs ==> Occurs(packs, h))
    && (forall w, h :: w in s.workers && h in s.workers[w].blobs ==> Occurs(packs, h))
    && (forall w, h :: w in s.workers && h in s.workers[w].saving ==> Occurs(packs, h))
    && (forall h :: h in s.saved ==> Occurs(packs, h))
    && (s.offered.Some? ==> s.offered.value.done == {})
    && (forall w, h :: w in s.workers && h in s.workers[w].done ==> h !in s.keep)
  }

  ghost predicate Inv(s: State, keep0: set<Handle>, packs: seq<seq<Handle>>) {
    OneSaver(s) && Conserved(s, keep0) && Covered(s, packs)
  }

  lemma OneSaverKept(s: State, step: Step, s': State, keep0: set<Handle>)
    requires OneSaver(s) && Conserved(s, keep0) && Next(s, step, s')
    ensures OneSaver(s')
  {
    hide Wanted;
    if step.Callback? && step.h in s.keep { assert !Saving(s, step.h); }
  }

  lemma SavingIs(s: State, step: Step, s': State, h: Handle)
    requires OneSaver(s) && Next(s, step, s')
    ensures Saving(s', h) <==>
      || (Saving(s, h) && !(step.SaveDone? && step.h == h))
      || (step.Callback? && step.h == h && h in s.keep)
  {
    hide Wanted;
    if Saving(s, h) && !(step.SaveDone? && step.h == h) {
      var w :| w in s.workers && h in s.workers[w].saving;
      assert w in s'.workers && h in s'.workers[w].saving;
    }
    if step.Callback? && step.h == h && h in s.keep {
      assert h in s'.workers[step.worker].saving;
    }
  }

  lemma ConservedKept(s: State, step: Step, s': State, keep0: set<Handle>)
    requires OneSaver(s) && Conserved(s, keep0) && Next(s, step, s')
    ensures Conserved(s', keep0)
  {
    hide Wanted, Saving;
    forall h ensures Saving(s', h) <==>
        || (Saving(s, h) && !(step.SaveDone? && step.h == h))
        || (step.Callback? && step.h == h && h in s.keep)
    {
      SavingIs(s, step, s', h);
    }
    if step.SaveDone? { SavesOwn(s, step.worker, step.h); }
  }

  lemma SavesOwn(s: State, w: nat, h: Handle)
    requires w in s.workers && h in s.workers[w].saving
    ensures Saving(s, h)
  {
  }

  /** What is not dealt with stays ahead, unless it is no longer wanted. */
  lemma AheadKept(s: State, step: Step, s': State, h: Handle)
    requires Next(s, step, s') && Ahead(s, h) && h in s'.keep && h in s.keep
    requires forall w, x :: w in s.workers && x in s.workers[w].saving ==> x !in s.keep
    requires s.offered.Some? ==> s.offered.value.done == {}
    requires forall w, x :: w in s.workers && x in s.workers[w].done ==> x !in s.keep
    ensures Ahead(s', h)
  {
    hide Wanted;
    if Occurs(s.todo, h) {
      var i :| 0 <= i < |s.todo| && h in s.todo[i];
      if step.ListPack? {
        WantedHas(s.todo[0], s.keep);
        if i > 0 { assert h in s'.todo[i - 1]; }
      }
    } else if s.offered.Some? && h in s.offered.value.blobs {
      if step.Take? { assert h in s'.workers[step.worker].blobs; }
    } else {
      var w :| w in s.workers && h in s.workers[w].blobs && h !in s.workers[w].done;
      assert w in s'.workers && h in s'.workers[w].blobs && h !in s'.workers[w].done;
    }
  }

  lemma CoveredKept(s: State, step: Step, s': State, keep0: set<Handle>, packs: seq<seq<Handle>>)
    requires Inv(s, keep0, packs) && Next(s, step, s')
    ensures Covered(s', packs)
  {
    hide Wanted, Ahead, Occurs;
    forall w, x | w in s.workers && x in s.workers[w].saving ensures x !in s.keep {
      SavesOwn(s, w, x);
    }
    forall h | h in s'.keep && Occurs(packs, h) ensures Ahead(s', h) {
      AheadKept(s, step, s', h);
    }
    if step.ListPack? { ListOccurs(s.todo, s.keep); }
  }

  lemma ListOccurs(todo: seq<seq<Handle>>, keep: set<Handle>)
    requires todo != []
    ensures forall h :: Occurs(todo[1..], h) ==> Occurs(todo, h)
    ensures forall h :: h in Wanted(todo[0], keep) ==> Occurs(todo, h)
  {
    WantedHas(todo[0], keep);
    forall h | Occurs(todo[1..], h) ensures Occurs(todo, h) {
      var i :| 0 <= i < |todo[1..]| && h in todo[1..][i];
      assert h in todo[i + 1];
    }
  }

  // ---------------------------------------------------------------- theorem

  ghost predicate Run(trace: seq<State>, steps: seq<Step>, keep0: set<Handle>, packs: seq<seq<Handle>>) {
    && |trace| == |steps| + 1
    && Init(trace[0], keep0, packs)
    && forall i :: 0 <= i < |steps| ==> Next(trace[i], steps[i], trace[i + 1])
  }

  lemma {:induction false} RunKeepsInv(trace: seq<State>, steps: seq<Step>, keep0: set<Handle>,
                                       packs: seq<seq<Handle>>, n: nat)
    requires Run(trace, steps, keep0, packs) && n < |trace|
    ensures Inv(trace[n], keep0, packs)
  {
    hide Next, OneSaver, Conserved, Covered;
    if n == 0 {
      InitInv(trace[0], keep0, packs);
    } else {
      RunKeepsInv(trace, steps, keep0, packs, n - 1);
      OneSaverKept(trace[n - 1], steps[n - 1], trace[n], keep0);
      ConservedKept(trace[n - 1], steps[n - 1], trace[n], keep0);
      CoveredKept(trace[n - 1], steps[n - 1], trace[n], keep0, packs);
    }
  }

  lemma InitInv(s: State, keep0: set<Handle>, packs: seq<seq<Handle>>)
    requires Init(s, keep0, packs)
    ensures Inv(s, keep0, packs)
  {
  }

  /** When repack has succeeded, exactly the blobs to be kept that occur in the packs have been saved, each
      of them once, and exactly the others are left in keepBlobs, whatever the interleaving of the
      producer and the workers and however often a blob was delivered. */
  lemma SavedExactlyOnce(trace: seq<State>, steps: seq<Step>, keep0: set<Handle>, packs: seq<seq<Handle>>)
    requires Run(trace, steps, keep0, packs) && Finished(trace[|trace| - 1])
    ensures var s := trace[|trace| - 1];
      && (forall h :: h in s.saved <==> h in keep0 && Occurs(packs, h))
      && (forall i, j :: 0 <= i < j < |s.saved| ==> s.saved[i] != s.saved[j])
      && (forall h :: h in s.keep <==> h in keep0 && !Occurs(packs, h))
  {
    hide Next;
    var s := trace[|trace| - 1];
    RunKeepsInv(trace, steps, keep0, packs, |steps|);
    assert forall h :: !Ahead(s, h);
  }

  // ---------------------------------------------------------------- repacking can always finish

  lemma Extend(trace: seq<State>, steps: seq<Step>, keep0: set<Handle>, packs: seq<seq<Handle>>, step: Step, s': State)
    returns (trace': seq<State>, steps': seq<Step>)
    requires Run(trace, steps, keep0, packs) && Next(trace[|trace| - 1], step, s')
    ensures Run(trace', steps', keep0, packs) && trace <= trace' && trace'[|trace'| - 1] == s'
  {
    hide Next, Init;
    trace', steps' := trace + [s'], steps + [step];
  }

  /** A worker that is about to save a blob does so. */
  lemma Settle(trace: seq<State>, steps: seq<Step>, keep0: set<Handle>, packs: seq<seq<Handle>>, w: nat)
    returns (trace': seq<State>, steps': seq<Step>)
    requires Run(trace, steps, keep0, packs) && w in trace[|trace| - 1].workers
    ensures Run(trace', steps', keep0, packs) && trace <= trace'
    ensures
      var s, s' := trace[|trace| - 1], trace'[|trace'| - 1];
      && s'.todo == s.todo && s'.offered == s.offered && s'.workers.Keys == s.workers.Keys
      && s'.workers[w].saving == {} && s'.workers[w].blobs == s.workers[w].blobs
      && s'.workers[w].done == s.workers[w].done + s.workers[w].saving * {AnyOf(s.workers[w].saving)}
  {
    var s := trace[|trace| - 1];
    hide Run;
    if s.workers[w].saving == {} {
      trace', steps' := trace, steps;
    } else {
      var h := AnyOf(s.workers[w].saving);
      var s' := s.(saved := s.saved + [h],
                   workers := s.workers[w := s.workers[w].(saving := {}, done := s.workers[w].done + {h})]);
      trace', steps' := Extend(trace, steps, keep0, packs, SaveDone(w, h), s');
    }
  }

  ghost function AnyOf(hs: set<Handle>): (h: Handle)
    ensures hs != {} ==> h in hs
  {
    if hs == {} then Handle(0, false) else var h :| h in hs; h
  }

  ghost function Undone(t: Task): (hs: set<Handle>) {
    set h | h in t.blobs && h !in t.done
  }

  /** One more blob of the pack is delivered and, if it is still wanted, saved. */
  lemma Deliver(trace: seq<State>, steps: seq<Step>, keep0: set<Handle>, packs: seq<seq<Handle>>, w: nat, h: Handle)
    returns (trace': seq<State>, steps': seq<Step>)
    requires Run(trace, steps, keep0, packs) && w in trace[|trace| - 1].workers
    requires h in trace[|trace| - 1].workers[w].blobs && trace[|trace| - 1].workers[w].saving == {}
    ensures Run(trace', steps', keep0, packs) && trace <= trace'
    ensures
      var s, s' := trace[|trace| - 1], trace'[|trace'| - 1];
      && s'.todo == s.todo && s'.offered == s.offered && s'.workers.Keys == s.workers.Keys
      && s'.workers[w] == s.workers[w].(done := s.workers[w].done + {h})
  {
    var s := trace[|trace| - 1];
    hide Run;
    if h in s.keep {
      var s' := s.(keep := s.keep - {h}, workers := s.workers[w := s.workers[w].(saving := {h})]);
      trace', steps' := Extend(trace, steps, keep0, packs, Callback(w, h), s');
      trace', steps' := Settle(trace', steps', keep0, packs, w);
    } else {
      var s' := s.(workers := s.workers[w := s.workers[w].(done := s.workers[w].done + {h})]);
      trace', steps' := Extend(trace, steps, keep0, packs, Callback(w, h), s');
    }
  }

  lemma {:induction false} FinishWorker(trace: seq<State>, steps: seq<Step>, keep0: set<Handle>,
                                        packs: seq<seq<Handle>>, w: nat)
    returns (trace': seq<State>, steps': seq<Step>)
    requires Run(trace, steps, keep0, packs) && w in trace[|trace| - 1].workers
    requires trace[|trace| - 1].workers[w].saving == {}
    ensures Run(trace', steps', keep0, packs) && trace <= trace'
    ensures
      var s, s' := trace[|trace| - 1], trace'[|trace'| - 1];
      s'.todo == s.todo && s'.offered == s.offered && s'.workers.Keys == s.workers.Keys - {w}
    decreases Undone(trace[|trace| - 1].workers[w])
  {
    var s := trace[|trace| - 1];
    hide Run;
    if Undone(s.workers[w]) == {} {
      assert forall h :: h in s.workers[w].blobs && h !in s.workers[w].done ==> h in Undone(s.workers[w]);
      trace', steps' := Extend(trace, steps, keep0, packs, Complete(w), s.(workers := s.workers - {w}));
    } else {
      var h :| h in Undone(s.workers[w]);
      trace', steps' := Deliver(trace, steps, keep0, packs, w, h);
      assert h !in Undone(trace'[|trace'| - 1].workers[w]);
      trace', steps' := FinishWorker(trace', steps', keep0, packs, w);
    }
  }

  /** Every run can be continued until repack has succeeded: nobody waits for somebody who waits. */
  lemma {:induction false} CanFinish(trace: seq<State>, steps: seq<Step>, keep0: set<Handle>, packs: seq<seq<Handle>>)
    returns (trace': seq<State>, steps': seq<Step>)
    requires Run(trace, steps, keep0, packs)
    ensures Run(trace', steps', keep0, packs) && trace <= trace' && Finished(trace'[|trace'| - 1])
    decreases |trace[|trace| - 1].todo|, trace[|trace| - 1].offered.Some?, trace[|trace| - 1].workers.Keys
  {
    var s := trace[|trace| - 1];
    hide Run;
    if s.workers != map[] {
      var w :| w in s.workers;
      trace', steps' := Settle(trace, steps, keep0, packs, w);
      trace', steps' := FinishWorker(trace', steps', keep0, packs, w);
      trace', steps' := CanFinish(trace', steps', keep0, packs);
    } else if s.offered.Some? {
      var s' := s.(offered := None, workers := s.workers[0 := s.offered.value]);
      trace', steps' := Extend(trace, steps, keep0, packs, Take(0), s');
      trace', steps' := CanFinish(trace', steps', keep0, packs);
    } else if s.todo != [] {
      var s' := s.(todo := s.todo[1..], offered := Some(Task(Wanted(s.todo[0], s.keep), {}, {})));
      trace', steps' := Extend(trace, steps, keep0, packs, ListPack, s');
      trace', steps' := CanFinish(trace', steps', keep0, packs);
    } else {
      trace', steps' := trace, steps;
    }
  }
}
