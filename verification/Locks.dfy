/** The repository lock protocol: many lock values acquire, refresh, stale-refresh and release
    lock files in one shared backend, one backend operation per step.

    Every call of newLock is a `Proc` of its own.  Listing the lock directory is one atomic step,
    each lock file is loaded in a separate step, and lock file names are never reused. */
module LockProtocol {
  import opened Common

  type Proc = nat
  type FileId = nat

  /** What a lock file says: who wrote it and whether the lock is exclusive. */
  datatype LockFile = LockFile(owner: Proc, exclusive: bool)

  /** The number of passes over the lock files before a check gives up. */
  const ATTEMPTS: nat := 3

  /** Where a lock value stands inside newLock, Refresh, RefreshStaleLock or Unlock. */
  datatype Phase =
    | Listing(second: bool, attempt: nat)                       // about to list the lock files
    | Loading(second: bool, attempt: nat, todo: set<FileId>)    // listed; these files are still to be loaded
    | Creating                                                  // first check passed
    | Failing                                                   // second check failed, own file to be removed
    | Held
    | RefreshCreated(replacement: FileId)
    | RefreshSwapped(oldFile: FileId)
    | StaleConfirmed
    | StaleCreated(replacement: FileId)
    | StaleReconfirmed(replacement: FileId)
    | StaleSwapped(oldFile: FileId)
    | StaleAborting(replacement: FileId, lost: bool)            // second look failed, or found nothing
    | Lost                                                      // RefreshStaleLock returned ErrRemovedLock
    | Releasing
    | Done

  datatype Local = Local(exclusive: bool, lockID: Option<FileId>, phase: Phase) {
    /** newLock has not written its lock file yet. */
    predicate Starting() {
      (phase.Listing? && !phase.second) || (phase.Loading? && !phase.second) || phase.Creating?
    }

    /** newLock has returned this lock and its user relies on it. */
    predicate Holding() {
      phase.Held? || phase.RefreshCreated? || phase.RefreshSwapped? ||
      phase.StaleConfirmed? || phase.StaleCreated? || phase.StaleReconfirmed? || phase.StaleSwapped? ||
      phase.StaleAborting?
    }

    /** The last pass of the second check has listed the files, or the lock is held. */
    predicate Listed() {
      (phase.Loading? && phase.second) || Holding()
    }

    /** newLock has written its lock file and is in its second check. */
    predicate Acquiring() {
      (phase.Listing? || phase.Loading?) && phase.second
    }

    /** The lock file has been created and is relied upon to keep others out. */
    predicate Engaged() {
      Acquiring() || Holding()
    }
  }

  /** `contents` remembers every lock file ever written, `present` names those that exist now.
      `lapsed` and `blind` are history: a lock lapses when none of its files exist while it is
      engaged, and is blind once a plain Refresh started after a lapse, its lock file being gone. */
  datatype State = State(
    contents: map<FileId, LockFile>,
    present: set<FileId>,
    procs: map<Proc, Local>,
    lapsed: set<Proc>,
    blind: set<Proc>)

  datatype Effect = NoFile | Create(file: FileId) | Remove(file: FileId)

  predicate Conflict(a: bool, b: bool) {
    a || b
  }

  /** `p` and `q` are two locks that must not be held at the same time, and are. */
  ghost predicate HeldTogether(s: State, p: Proc, q: Proc) {
    && p != q && Holds(s, p) && Holds(s, q)
    && Conflict(s.procs[p].exclusive, s.procs[q].exclusive)
  }

  predicate Holds(s: State, p: Proc) {
    p in s.procs && s.procs[p].Holding()
  }

  ghost predicate HasFile(s: State, p: Proc) {
    exists f :: f in s.present && f in s.contents && s.contents[f].owner == p
  }

  /** The pass failed without finding a conflict: try again until the attempts are used up. */
  function NextAttempt(l: Local): (r: Local)
    requires l.phase.Loading? || l.phase.Listing?
  {
    if l.phase.attempt + 1 < ATTEMPTS then l.(phase := Listing(l.phase.second, l.phase.attempt + 1))
    else FailCheck(l)
  }

  function FailCheck(l: Local): (r: Local)
    requires l.phase.Loading? || l.phase.Listing?
  {
    l.(phase := if l.phase.second then Failing else Done)
  }

  /** One step of lock `p`, whose value goes from `l` to `l'` with the file operation `e`.
      Loads, lists, creations and removals may fail; a failed creation may still leave its file
      behind, and a failed removal leaves the file in place. */
  ghost predicate LocalStep(s: State, l: Local, l': Local, e: Effect) {
    match l.phase
    case Listing(second, attempt) =>
      && e == NoFile
      && (|| l' == NextAttempt(l)
          || l' == l.(phase := Loading(second, attempt, s.present - OwnId(l))))
    case Loading(second, attempt, todo) =>
      && e == NoFile
      && (|| l' == NextAttempt(l)
          || (todo == {} && l' == l.(phase := if second then Held else Creating))
          || (exists f :: LoadOne(s, l, f, l')))
    case Creating =>
      || (e == NoFile && l' == l.(phase := Done))
      || (e.Create? && l' == l.(phase := Done))
      || (e.Create? && l' == l.(lockID := Some(e.file), phase := Listing(true, 0)))
    case Failing =>
      RemoveOwn(l, e) && l' == l.(phase := Done)
    case Held =>
      || (e == NoFile && l' == l.(phase := Releasing))
      || (e.Create? && l' == l)
      || (e.Create? && l' == l.(phase := RefreshCreated(e.file)))
      || (e == NoFile && l' == l.(phase := if l.lockID.Some? &&
        l.lockID.value in s.present then StaleConfirmed else Lost))
    case RefreshCreated(replacement) =>
      e == NoFile && l.lockID.Some? &&
      l' == l.(lockID := Some(replacement), phase := RefreshSwapped(l.lockID.value))
    case RefreshSwapped(oldFile) =>
      MayRemove(oldFile, e) && l' == l.(phase := Held)
    case StaleConfirmed =>
      || ((e == NoFile || e.Create?) && l' == l.(phase := Held))
      || (e.Create? && l' == l.(phase := StaleCreated(e.file)))
    case StaleCreated(replacement) =>
      && e == NoFile
      && (|| l' == l.(phase := StaleAborting(replacement, false))
          || l' == l.(phase := if l.lockID.Some? && l.lockID.value in s.present then StaleReconfirmed(replacement)
                               else StaleAborting(replacement, true)))
    case StaleReconfirmed(replacement) =>
      e == NoFile && l.lockID.Some? &&
      l' == l.(lockID := Some(replacement), phase := StaleSwapped(l.lockID.value))
    case StaleSwapped(oldFile) =>
      MayRemove(oldFile, e) && l' == l.(phase := Held)
    case StaleAborting(replacement, lost) =>
      // after a listing error the lock keeps its old file and goes on being used
      MayRemove(replacement, e) && l' == l.(phase := if lost then Lost else Held)
    case Lost =>
      e == NoFile && l' == l.(phase := Releasing)
    case Releasing =>
      RemoveOwn(l, e) && l' == l.(phase := Done)
    case Done => false
  }

  function OwnId(l: Local): (ids: set<FileId>) {
    if l.lockID.Some? then {l.lockID.value} else {}
  }

  predicate MayRemove(f: FileId, e: Effect) {
    e == NoFile || e == Remove(f)
  }

  predicate RemoveOwn(l: Local, e: Effect) {
    e == NoFile || (l.lockID.Some? && e == Remove(l.lockID.value))
  }

  /** The callback of checkForOtherLocks for a file that could be loaded. */
  predicate LoadOne(s: State, l: Local, f: FileId, l': Local)
    requires l.phase.Loading?
  {
    && f in l.phase.todo && f in s.present && f in s.contents
    && (if Conflict(l.exclusive, s.contents[f].exclusive) then l' == FailCheck(l)
        else l' == l.(phase := l.phase.(todo := l.phase.todo - {f})))
  }

  /** The file system after `p` wrote or removed a file. */
  ghost predicate FileStep(s: State, p: Proc, exclusive: bool, e: Effect, s': State) {
    match e
    case NoFile => s'.contents == s.contents && s'.present == s.present
    case Create(f) =>
      f !in s.contents &&
      s'.contents == s.contents[f := LockFile(p, exclusive)] && s'.present == s.present + {f}
    case Remove(f) => s'.contents == s.contents && s'.present == s.present - {f}
  }

  /** The lock file of a newLock and the replacement file of a RefreshStaleLock are too young to be
      judged stale while that call is in progress. */
  ghost predicate Fresh(s: State, f: FileId) {
    exists p :: p in s.procs && FreshFile(s.procs[p]) == Some(f)
  }

  function FreshFile(l: Local): (r: Option<FileId>) {
    if l.phase.StaleCreated? || l.phase.StaleReconfirmed? then Some(l.phase.replacement)
    else if l.Acquiring() then l.lockID
    else None
  }

  ghost function LapsedNow(s: State): set<Proc> {
    set p | p in s.procs && s.procs[p].Engaged() && !HasFile(s, p)
  }

  datatype Step =
    | Start(proc: Proc, exclusive: bool)
    | Act(proc: Proc, next: Local, effect: Effect)
    | Crash(proc: Proc)
    | RemoveStale(file: FileId)

  ghost predicate Next(s: State, step: Step, s': State) {
    && s'.lapsed == s.lapsed + LapsedNow(s')
    && match step
       case Start(p, exclusive) =>
         && p !in s.procs
         && s'.procs == s.procs[p := Local(exclusive, None, Listing(false, 0))]
         && FileStep(s, p, exclusive, NoFile, s')
         && s'.blind == s.blind
       case Act(p, l', e) =>
         && p in s.procs
         && LocalStep(s, s.procs[p], l', e)
         && s'.procs == s.procs[p := l']
         && FileStep(s, p, l'.exclusive, e, s')
         && s'.blind == (if BlindRefresh(s, p, s.procs[p], l') then s.blind + {p} else s.blind)
       case Crash(p) =>
         && p in s.procs
         && s'.procs == s.procs[p := s.procs[p].(phase := Done)]
         && FileStep(s, p, false, NoFile, s')
         && s'.blind == s.blind
       case RemoveStale(f) =>
         && !Fresh(s, f)
         && s'.procs == s.procs
         && FileStep(s, 0, false, Remove(f), s')
         && s'.blind == s.blind
  }

  /** A plain Refresh writes its new file although the lock has lapsed and the old one is not there. */
  predicate BlindRefresh(s: State, p: Proc, l: Local, l': Local) {
    p in s.lapsed && l.phase.Held? && l'.phase.RefreshCreated? && !(l.lockID.Some? && l.lockID.value in s.present)
  }

  ghost predicate Init(s: State) {
    s == State(map[], {}, map[], {}, {})
  }

  /** A run: `trace[0]` is initial and `steps[i]` leads from `trace[i]` to `trace[i + 1]`. */
  ghost predicate Run(trace: seq<State>, steps: seq<Step>) {
    && |trace| == |steps| + 1
    && Init(trace[0])
    && forall i :: 0 <= i < |steps| ==> Next(trace[i], steps[i], trace[i + 1])
  }

  // ---------------------------------------------------------------- invariant

  /** Every file agrees with the lock that wrote it, and a lock only names files it wrote. */
  ghost predicate Owned(s: State, p: Proc, f: FileId) {
    f in s.contents && p in s.procs && s.contents[f] == LockFile(p, s.procs[p].exclusive)
  }

  ghost predicate FilesInv(s: State) {
    && s.present <= s.contents.Keys
    && forall f :: f in s.contents ==> Owned(s, s.contents[f].owner, f)
  }

  /** The files a lock names are its own, and its fresh file exists. */
  ghost predicate NamesInv(s: State, p: Proc)
    requires p in s.procs
  {
    var l := s.procs[p];
    && (l.lockID.Some? ==> Owned(s, p, l.lockID.value))
    && (l.Engaged() ==> l.lockID.Some?)
    && (l.phase.Loading? ==> l.phase.todo <= s.contents.Keys)
    && (l.phase.RefreshSwapped? || l.phase.StaleSwapped? ==> Owned(s, p, l.phase.oldFile))
    && (l.phase.RefreshCreated? || l.phase.StaleAborting? ==> Owned(s, p, l.phase.replacement))
    && (FreshFile(l).Some? ==> Owned(s, p, FreshFile(l).value) && FreshFile(l).value in s.present)
  }

  /** An engaged lock without a lapse has a file; after a lapse only a blind Refresh can bring
      the file named by the lock back. */
  ghost predicate LapseInv(s: State, p: Proc)
    requires p in s.procs
  {
    var l := s.procs[p];
    && (l.Starting() || l.Acquiring() ==> p !in s.lapsed)
    && (l.Engaged() && p !in s.lapsed ==> HasFile(s, p))
    && (p in s.lapsed && p !in s.blind && l.Engaged() ==>
          && (l.lockID.Some? ==> l.lockID.value !in s.present)
          && !l.phase.StaleReconfirmed?
          && (l.phase.RefreshCreated? ==> l.phase.replacement !in s.present))
  }

  ghost predicate LocalInv(s: State, p: Proc)
    requires p in s.procs
  {
    NamesInv(s, p) && LapseInv(s, p)
  }

  /** `p` still has to load a conflicting file of another lock, so its check cannot pass. */
  ghost predicate Doomed(s: State, p: Proc)
    requires p in s.procs
  {
    var l := s.procs[p];
    l.phase.Loading? && l.phase.second &&
    exists f :: f in l.phase.todo && f in s.contents && Conflict(l.exclusive, s.contents[f].exclusive)
  }

  ghost predicate Rivals(s: State, p: Proc, q: Proc) {
    && p != q && p in s.procs && q in s.procs
    && p !in s.lapsed && q !in s.lapsed
    && s.procs[p].Listed() && s.procs[q].Listed()
    && Conflict(s.procs[p].exclusive, s.procs[q].exclusive)
  }

  ghost predicate ExclusionInv(s: State) {
    forall p, q :: Rivals(s, p, q) ==> Doomed(s, p) || Doomed(s, q)
  }

  ghost predicate Inv(s: State) {
    && FilesInv(s)
    && s.lapsed <= s.procs.Keys
    && (forall p :: p in s.procs ==> LocalInv(s, p))
    && ExclusionInv(s)
  }

  // ---------------------------------------------------------------- the files

  lemma ModeKept(s: State, p: Proc, l: Local, l': Local, e: Effect)
    requires LocalStep(s, l, l', e)
    ensures l'.exclusive == l.exclusive
  {
  }

  lemma FilesKept(s: State, p: Proc, l': Local, e: Effect, s': State)
    requires FilesInv(s) && FileStep(s, p, l'.exclusive, e, s')
    requires s'.procs == s.procs[p := l']
    requires p in s.procs ==> l'.exclusive == s.procs[p].exclusive
    ensures FilesInv(s')
    ensures forall q, f :: Owned(s, q, f) ==> Owned(s', q, f)
    ensures e.Create? ==> Owned(s', p, e.file)
  {
  }

  // ---------------------------------------------------------------- the lock that moves

  /** A lock that has just lapsed finds none of the files it names. */
  lemma NewlyLapsed(s: State, p: Proc)
    requires FilesInv(s) && p in s.procs && p in LapsedNow(s)
    ensures forall f :: Owned(s, p, f) ==> f !in s.present
  {
  }

  lemma ActorNamesKept(s: State, p: Proc, l': Local, e: Effect, s': State)
    requires p in s.procs && p in s'.procs && s'.procs[p] == l'
    requires NamesInv(s, p) && s.present <= s.contents.Keys
    requires LocalStep(s, s.procs[p], l', e) && FileStep(s, p, l'.exclusive, e, s')
    requires forall f :: Owned(s, p, f) ==> Owned(s', p, f)
    requires e.Create? ==> Owned(s', p, e.file)
    ensures NamesInv(s', p)
  {
  }

  lemma ActorLapseKept(s: State, p: Proc, l': Local, e: Effect, s': State)
    requires p in s.procs && p in s'.procs && s'.procs[p] == l'
    requires NamesInv(s, p) && NamesInv(s', p) && LapseInv(s, p)
    requires LocalStep(s, s.procs[p], l', e) && FileStep(s, p, l'.exclusive, e, s')
    requires p in s'.lapsed <==> p in s.lapsed || (l'.Engaged() && !HasFile(s', p))
    requires p in s'.blind <==> p in s.blind || BlindRefresh(s, p, s.procs[p], l')
    requires l'.Engaged() && !HasFile(s', p) ==> forall f :: Owned(s', p, f) ==> f !in s'.present
    ensures LapseInv(s', p)
  {
    var l := s.procs[p];
    if l'.Engaged() && !HasFile(s', p) {
      assert Owned(s', p, l'.lockID.value);
    }
  }

  // ---------------------------------------------------------------- the others

  /** The file operation of a step as seen by a lock `q` that does not move: files of `q` do not
      change hands, no written file had a name before, and `q`'s fresh file stays. */
  ghost predicate Bystander(s: State, q: Proc, s': State) {
    && q in s.procs && q in s'.procs && s'.procs[q] == s.procs[q]
    && (q in s'.blind <==> q in s.blind)
    && (q in s'.lapsed <==> q in s.lapsed || q in LapsedNow(s'))
    && s.contents.Keys <= s'.contents.Keys
    && (forall f :: Owned(s, q, f) ==> Owned(s', q, f))
    && (forall f :: f in s'.present ==> f in s.present || f !in s.contents)
    && (FreshFile(s.procs[q]).Some? && FreshFile(s.procs[q]).value in s.present ==>
          FreshFile(s.procs[q]).value in s'.present)
  }

  lemma BystanderKept(s: State, q: Proc, s': State)
    requires Bystander(s, q, s') && FilesInv(s') && LocalInv(s, q)
    ensures LocalInv(s', q)
  {
    if q in LapsedNow(s') { NewlyLapsed(s', q); }
  }

  lemma ActIsBystander(s: State, p: Proc, l': Local, e: Effect, s': State, q: Proc)
    requires Inv(s) && Next(s, Act(p, l', e), s') && q in s.procs && q != p
    ensures Bystander(s, q, s')
  {
    ModeKept(s, p, s.procs[p], l', e);
    FilesKept(s, p, l', e, s');
    if e.Remove? { RemovedIsOwn(s, p, l', e); }
    assert LocalInv(s, q);
  }

  lemma RemovedIsOwn(s: State, p: Proc, l': Local, e: Effect)
    requires p in s.procs && NamesInv(s, p)
    requires LocalStep(s, s.procs[p], l', e) && e.Remove?
    ensures Owned(s, p, e.file)
  {
  }

  lemma RemoveStaleIsBystander(s: State, f: FileId, s': State, q: Proc)
    requires Inv(s) && Next(s, RemoveStale(f), s') && q in s.procs
    ensures Bystander(s, q, s')
  {
    var r := FreshFile(s.procs[q]);
    assert r.Some? ==> Fresh(s, r.value);
  }

  // ---------------------------------------------------------------- exclusion

  /** A rival that has listed keeps or gives up its doom only as its own check proceeds; the lock
      that moves either was doomed or not before, or lists now and finds a file of its rival. */
  lemma ActorExcludes(s: State, p: Proc, l': Local, e: Effect, s': State, q: Proc)
    requires p != q && p in s.procs && q in s.procs && NamesInv(s, p) && FilesInv(s)
    requires LocalStep(s, s.procs[p], l', e) && FileStep(s, p, l'.exclusive, e, s')
    requires s'.procs == s.procs[p := l'] && s.lapsed <= s'.lapsed
    requires s.procs[q].Listed() && q !in s.lapsed ==> HasFile(s, q)
    requires Rivals(s, p, q) ==> Doomed(s, p) || Doomed(s, q)
    requires Rivals(s', p, q)
    ensures Doomed(s', p) || Doomed(s', q)
  {
    var l := s.procs[p];
    ModeKept(s, p, l, l', e);
    if Doomed(s, q) {
      var f :| f in s.procs[q].phase.todo && f in s.contents && Conflict(s.procs[q].exclusive, s.contents[f].exclusive);
      assert f in s'.contents && s'.contents[f] == s.contents[f];
    } else if l.Listed() {
      assert Rivals(s, p, q);
      var f :| f in l.phase.todo && f in s.contents && Conflict(l.exclusive, s.contents[f].exclusive);
      assert f in l'.phase.todo && s'.contents[f] == s.contents[f];
    } else {
      var f :| f in s.present && f in s.contents && s.contents[f].owner == q;
      assert Owned(s, q, f);
      assert f in l'.phase.todo && f in s'.contents;
    }
  }

  /** A pair of locks that does not move stays doomed: lock files do not change once written. */
  lemma PairExcludes(s: State, s': State, p: Proc, q: Proc)
    requires ExclusionInv(s) && Rivals(s', p, q) && s.lapsed <= s'.lapsed
    requires p in s.procs && q in s.procs && s'.procs[p] == s.procs[p] && s'.procs[q] == s.procs[q]
    requires forall f :: f in s.contents ==> f in s'.contents && s'.contents[f] == s.contents[f]
    ensures Doomed(s', p) || Doomed(s', q)
  {
    assert Rivals(s, p, q);
  }

  // ---------------------------------------------------------------- every step keeps the invariant

  lemma ActKeepsLocals(s: State, p: Proc, l': Local, e: Effect, s': State)
    requires Inv(s) && Next(s, Act(p, l', e), s')
    ensures FilesInv(s')
    ensures forall q :: q in s'.procs ==> LocalInv(s', q)
  {
    ModeKept(s, p, s.procs[p], l', e);
    FilesKept(s, p, l', e, s');
    assert LocalInv(s, p);
    ActorNamesKept(s, p, l', e, s');
    if p in LapsedNow(s') { NewlyLapsed(s', p); }
    ActorLapseKept(s, p, l', e, s');
    forall q | q in s'.procs && q != p ensures LocalInv(s', q) {
      ActIsBystander(s, p, l', e, s', q);
      BystanderKept(s, q, s');
    }
  }

  lemma ActKeepsExclusion(s: State, p: Proc, l': Local, e: Effect, s': State)
    requires Inv(s) && Next(s, Act(p, l', e), s')
    ensures ExclusionInv(s')
  {
    assert LocalInv(s, p);
    forall a, b | Rivals(s', a, b) ensures Doomed(s', a) || Doomed(s', b) {
      assert a in s.procs ==> LocalInv(s, a);
      assert b in s.procs ==> LocalInv(s, b);
      if a == p {
        ActorExcludes(s, p, l', e, s', b);
      } else if b == p {
        assert Rivals(s', b, a) && (Rivals(s, b, a) ==> Rivals(s, a, b));
        ActorExcludes(s, p, l', e, s', a);
      } else {
        PairExcludes(s, s', a, b);
      }
    }
  }

  lemma StartKeepsInv(s: State, p: Proc, exclusive: bool, s': State)
    requires Inv(s) && Next(s, Start(p, exclusive), s')
    ensures Inv(s')
  {
    FilesKept(s, p, s'.procs[p], NoFile, s');
    forall q | q in s.procs ensures LocalInv(s', q) {
      BystanderKept(s, q, s');
    }
    forall a, b | Rivals(s', a, b) ensures Doomed(s', a) || Doomed(s', b) {
      PairExcludes(s, s', a, b);
    }
  }

  lemma CrashKeepsInv(s: State, p: Proc, s': State)
    requires Inv(s) && Next(s, Crash(p), s')
    ensures Inv(s')
  {
    FilesKept(s, p, s'.procs[p], NoFile, s');
    assert LocalInv(s, p);
    forall q | q in s.procs && q != p ensures LocalInv(s', q) {
      BystanderKept(s, q, s');
    }
    forall a, b | Rivals(s', a, b) ensures Doomed(s', a) || Doomed(s', b) {
      PairExcludes(s, s', a, b);
    }
  }

  lemma RemoveStaleKeepsInv(s: State, f: FileId, s': State)
    requires Inv(s) && Next(s, RemoveStale(f), s')
    ensures Inv(s')
  {
    forall q | q in s.procs ensures LocalInv(s', q) {
      RemoveStaleIsBystander(s, f, s', q);
      BystanderKept(s, q, s');
    }
    forall a, b | Rivals(s', a, b) ensures Doomed(s', a) || Doomed(s', b) {
      PairExcludes(s, s', a, b);
    }
  }

  lemma ActKeepsInv(s: State, p: Proc, l': Local, e: Effect, s': State)
    requires Inv(s) && Next(s, Act(p, l', e), s')
    ensures Inv(s')
  {
    hide LocalStep, FilesInv, LocalInv, ExclusionInv;
    ActKeepsLocals(s, p, l', e, s');
    ActKeepsExclusion(s, p, l', e, s');
  }

  lemma StepKeepsInv(s: State, step: Step, s': State)
    requires Inv(s) && Next(s, step, s')
    ensures Inv(s')
  {
    hide Inv, Next;
    match step
    case Start(p, exclusive) => StartKeepsInv(s, p, exclusive, s');
    case Act(p, l', e) => ActKeepsInv(s, p, l', e, s');
    case Crash(p) => CrashKeepsInv(s, p, s');
    case RemoveStale(f) => RemoveStaleKeepsInv(s, f, s');
  }

  lemma {:induction false} RunKeepsInv(trace: seq<State>, steps: seq<Step>, n: nat)
    requires Run(trace, steps) && n < |trace|
    ensures Inv(trace[n])
  {
    if n > 0 {
      RunKeepsInv(trace, steps, n - 1);
      StepKeepsInv(trace[n - 1], steps[n - 1], trace[n]);
    }
  }

  // ---------------------------------------------------------------- theorems about whole runs

  /** In every reachable state two conflicting holders exist only if one of them has had, since it
      created its lock, a moment without any lock file. */
  lemma ConflictNeedsLapse(trace: seq<State>, steps: seq<Step>, n: nat, p: Proc, q: Proc)
    requires Run(trace, steps) && n < |trace| && HeldTogether(trace[n], p, q)
    ensures p in trace[n].lapsed || q in trace[n].lapsed
  {
    RunKeepsInv(trace, steps, n);
    assert Rivals(trace[n], p, q) || p in trace[n].lapsed || q in trace[n].lapsed;
  }

  /** The lock file an engaged lock names exists, and so does the file it is about to name. */
  ghost predicate Anchored(s: State, p: Proc)
    requires p in s.procs
  {
    var l := s.procs[p];
    l.Engaged() ==>
      && l.lockID.Some? && l.lockID.value in s.present
      && (l.phase.RefreshCreated? || l.phase.StaleCreated? || l.phase.StaleReconfirmed? ==>
            l.phase.replacement in s.present && l.phase.replacement != l.lockID.value)
      && (l.phase.RefreshSwapped? || l.phase.StaleSwapped? ==> l.phase.oldFile != l.lockID.value)
      && (l.phase.StaleAborting? ==> l.phase.replacement != l.lockID.value)
  }

  lemma ActorAnchored(s: State, p: Proc, l': Local, e: Effect, s': State)
    requires p in s.procs && s'.procs == s.procs[p := l']
    requires NamesInv(s, p) && Anchored(s, p) && s.present <= s.contents.Keys
    requires LocalStep(s, s.procs[p], l', e) && FileStep(s, p, l'.exclusive, e, s')
    ensures Anchored(s', p)
  {
  }

  lemma StepKeepsAnchors(s: State, step: Step, s': State)
    requires Inv(s) && Next(s, step, s') && !step.RemoveStale?
    requires forall p :: p in s.procs ==> Anchored(s, p)
    ensures forall p :: p in s'.procs ==> Anchored(s', p)
  {
    forall q | q in s'.procs ensures Anchored(s', q) {
      if step.Act? && q == step.proc {
        assert LocalInv(s, q);
        ActorAnchored(s, q, step.next, step.effect, s');
      } else if step.Act? {
        assert LocalInv(s, q) && LocalInv(s, step.proc);
        if step.effect.Remove? { RemovedIsOwn(s, step.proc, step.next, step.effect); }
      }
    }
  }

  /** Locks only remove files that no engaged lock depends on, so without removals of files judged
      stale nobody ever lapses. */
  lemma {:induction false} NoRemovalNoLapse(trace: seq<State>, steps: seq<Step>, n: nat)
    requires Run(trace, steps) && n < |trace|
    requires forall i :: 0 <= i < |steps| ==> !steps[i].RemoveStale?
    ensures forall p :: p in trace[n].procs ==> Anchored(trace[n], p)
    ensures trace[n].lapsed == {}
  {
    if n > 0 {
      NoRemovalNoLapse(trace, steps, n - 1);
      RunKeepsInv(trace, steps, n - 1);
      RunKeepsInv(trace, steps, n);
      StepKeepsAnchors(trace[n - 1], steps[n - 1], trace[n]);
      forall p | p in trace[n].procs && trace[n].procs[p].Engaged() ensures HasFile(trace[n], p) {
        assert LocalInv(trace[n], p) && Anchored(trace[n], p);
      }
    }
  }

  /** Mutual exclusion: in every interleaving of acquiring, refreshing, releasing and crashing
      locks, an exclusive holder is the only holder. */
  lemma MutualExclusion(trace: seq<State>, steps: seq<Step>, n: nat, p: Proc, q: Proc)
    requires Run(trace, steps) && n < |trace|
    requires forall i :: 0 <= i < |steps| ==> !steps[i].RemoveStale?
    requires Holds(trace[n], p) && trace[n].procs[p].exclusive && Holds(trace[n], q)
    ensures p == q
  {
    NoRemovalNoLapse(trace, steps, n);
    if p != q { ConflictNeedsLapse(trace, steps, n, p, q); }
  }

  lemma {:induction false} LapsesAreForever(trace: seq<State>, steps: seq<Step>, i: nat, n: nat)
    requires Run(trace, steps) && i <= n < |trace|
    ensures trace[i].lapsed <= trace[n].lapsed
    decreases n
  {
    if i < n {
      LapsesAreForever(trace, steps, i, n - 1);
      assert Next(trace[n - 1], steps[n - 1], trace[n]);
    }
  }

  /** newLock returns a lock that has not lapsed. */
  lemma AcquiredUnlapsed(s: State, step: Step, s': State, q: Proc)
    requires Inv(s) && Next(s, step, s') && !Holds(s, q) && Holds(s', q)
    ensures q !in s'.lapsed
  {
    hide LocalStep;
    assert step.Act? && step.proc == q && LocalInv(s, q);
    BecomesHeld(s, s.procs[q], step.next, step.effect);
    var f := s.procs[q].lockID.value;
    assert Owned(s, q, f) && f in s'.present;
  }

  /** Only a second check that has passed makes a lock held. */
  lemma BecomesHeld(s: State, l: Local, l': Local, e: Effect)
    requires LocalStep(s, l, l', e) && !l.Holding() && l'.Holding()
    ensures l.Acquiring() && l'.lockID == l.lockID && e == NoFile
  {
  }

  /** A lock that has lapsed had a moment without any file. */
  lemma {:induction false} LapseHasMoment(trace: seq<State>, steps: seq<Step>, n: nat, p: Proc) returns (i: nat)
    requires Run(trace, steps) && n < |trace| && p in trace[n].lapsed
    ensures i <= n && p in trace[i].procs && trace[i].procs[p].Engaged() && !HasFile(trace[i], p)
  {
    hide HasFile;
    assert n > 0;
    assert Next(trace[n - 1], steps[n - 1], trace[n]);
    if p in trace[n - 1].lapsed {
      i := LapseHasMoment(trace, steps, n - 1, p);
    } else {
      i := n;
      assert p in LapsedNow(trace[n]);
    }
  }

  lemma {:induction false} BlindHasLapsed(trace: seq<State>, steps: seq<Step>, n: nat)
    requires Run(trace, steps) && n < |trace|
    ensures trace[n].blind <= trace[n].lapsed
  {
    hide LocalStep, LapsedNow, FileStep;
    if n > 0 {
      BlindHasLapsed(trace, steps, n - 1);
      assert Next(trace[n - 1], steps[n - 1], trace[n]);
    }
  }

  /** RefreshStaleLock confirms exactly the locks that were covered, and those that were refreshed blindly:
      the lock's files have covered every instant since its creation if and only if no plain Refresh
      started after a lapse. */
  lemma StaleRefreshExactly(trace: seq<State>, steps: seq<Step>, n: nat, p: Proc)
    requires Run(trace, steps) && n < |trace|
    requires p in trace[n].procs && trace[n].procs[p].phase.StaleReconfirmed?
    ensures p !in trace[n].blind <==>
      forall i :: 0 <= i <= n && p in trace[i].procs && trace[i].procs[p].Engaged() ==> HasFile(trace[i], p)
  {
    hide Next, HasFile;
    if p in trace[n].blind {
      BlindHasLapsed(trace, steps, n);
      var i := LapseHasMoment(trace, steps, n, p);
    } else {
      StaleRefreshCovers(trace, steps, n, p);
    }
  }

  /** RefreshStaleLock under removal of stale files by anybody: once it has seen its old file the
      second time, and no plain Refresh was run without its file, the lock's files have covered
      every instant since the lock was created.  Every conflicting lock held at some instant had
      itself lapsed, and no conflicting lock was acquired in the meantime. */
  lemma StaleRefreshCovers(trace: seq<State>, steps: seq<Step>, n: nat, p: Proc)
    requires Run(trace, steps) && n < |trace|
    requires p in trace[n].procs && trace[n].procs[p].phase.StaleReconfirmed? && p !in trace[n].blind
    ensures forall i :: 0 <= i <= n && p in trace[i].procs && trace[i].procs[p].Engaged() ==> HasFile(trace[i], p)
    ensures forall i, q :: 0 <= i <= n && HeldTogether(trace[i], p, q) ==> q in trace[i].lapsed
    ensures forall i, q :: 0 < i <= n && HeldTogether(trace[i], p, q) ==> Holds(trace[i - 1], q)
  {
    RunKeepsInv(trace, steps, n);
    assert LocalInv(trace[n], p);
    forall i | 0 <= i <= n ensures p !in trace[i].lapsed {
      LapsesAreForever(trace, steps, i, n);
    }
    forall i | 0 <= i <= n && p in trace[i].procs && trace[i].procs[p].Engaged() ensures HasFile(trace[i], p) {
      RunKeepsInv(trace, steps, i);
      assert LocalInv(trace[i], p);
    }
    forall i, q | 0 <= i <= n && HeldTogether(trace[i], p, q)
      ensures q in trace[i].lapsed
      ensures i > 0 ==> Holds(trace[i - 1], q)
    {
      ConflictNeedsLapse(trace, steps, i, p, q);
      if i > 0 && !Holds(trace[i - 1], q) {
        RunKeepsInv(trace, steps, i - 1);
        AcquiredUnlapsed(trace[i - 1], steps[i - 1], trace[i], q);
      }
    }
  }

  // ---------------------------------------------------------------- building runs

  /** The state after a step that leaves these files and locks behind. */
  ghost function After(s: State, contents: map<FileId, LockFile>, present: set<FileId>, procs: map<Proc, Local>,
                       blind: set<Proc>): State {
    State(contents, present, procs, s.lapsed + LapsedNow(State(contents, present, procs, {}, blind)), blind)
  }

  lemma AfterLapsed(s: State, contents: map<FileId, LockFile>, present: set<FileId>, procs: map<Proc, Local>,
                    blind: set<Proc>)
    ensures var s' := After(s, contents, present, procs, blind); s'.lapsed == s.lapsed + LapsedNow(s')
  {
    var t, s' := State(contents, present, procs, {}, blind), After(s, contents, present, procs, blind);
    assert forall p :: HasFile(t, p) <==> HasFile(s', p);
  }

  /** The files after an effect. */
  function PresentAfter(present: set<FileId>, e: Effect): (r: set<FileId>) {
    match e
    case NoFile => present
    case Create(f) => present + {f}
    case Remove(f) => present - {f}
  }

  /** The run goes on with a step of `p`. */
  lemma Extend(trace: seq<State>, steps: seq<Step>, p: Proc, l': Local, e: Effect)
    returns (trace': seq<State>, steps': seq<Step>)
    requires Run(trace, steps) && p in trace[|trace| - 1].procs
    requires LocalStep(trace[|trace| - 1], trace[|trace| - 1].procs[p], l', e)
    requires e.Create? ==> e.file !in trace[|trace| - 1].contents
    ensures Run(trace', steps') && |trace'| > 0
    ensures var s, s' := trace[|trace| - 1], trace'[|trace'| - 1];
      && s'.procs == s.procs[p := l'] && s.lapsed <= s'.lapsed
      && s'.contents == (if e.Create? then s.contents[e.file := LockFile(p, l'.exclusive)] else s.contents)
      && s'.present == PresentAfter(s.present, e)
  {
    hide LocalStep, LapsedNow;
    var s := trace[|trace| - 1];
    var contents := if e.Create? then s.contents[e.file := LockFile(p, l'.exclusive)] else s.contents;
    var present := PresentAfter(s.present, e);
    var blind := if BlindRefresh(s, p, s.procs[p], l') then s.blind + {p} else s.blind;
    AfterLapsed(s, contents, present, s.procs[p := l'], blind);
    trace', steps' := trace + [After(s, contents, present, s.procs[p := l'], blind)], steps + [Act(p, l', e)];
  }

  /** A lock can be acquired whenever no lock file exists. */
  lemma AcquireAlone(trace: seq<State>, steps: seq<Step>, p: Proc, f: FileId)
    returns (trace': seq<State>, steps': seq<Step>)
    requires Run(trace, steps)
    requires var s := trace[|trace| - 1]; s.present == {} && p !in s.procs && f !in s.contents
    ensures Run(trace', steps') && |trace'| > 0
    ensures var s, s' := trace[|trace| - 1], trace'[|trace'| - 1];
      && s'.procs == s.procs[p := Local(true, Some(f), Held)] && s.lapsed <= s'.lapsed
      && s'.present == {f} && s'.contents == s.contents[f := LockFile(p, true)]
  {
    hide Run, LapsedNow;
    trace', steps' := StartLock(trace, steps, p, true);
    var l := Local(true, None, Loading(false, 0, {}));
    assert trace'[|trace'| - 1].present - OwnId(l) == {};
    trace', steps' := Extend(trace', steps', p, l, NoFile);
    trace', steps' := Extend(trace', steps', p, l.(phase := Creating), NoFile);
    l := Local(true, Some(f), Listing(true, 0));
    trace', steps' := Extend(trace', steps', p, l, Create(f));
    assert trace'[|trace'| - 1].present - OwnId(l) == {};
    trace', steps' := Extend(trace', steps', p, l.(phase := Loading(true, 0, {})), NoFile);
    trace', steps' := Extend(trace', steps', p, l.(phase := Held), NoFile);
  }

  lemma StartLock(trace: seq<State>, steps: seq<Step>, p: Proc, exclusive: bool)
    returns (trace': seq<State>, steps': seq<Step>)
    requires Run(trace, steps) && p !in trace[|trace| - 1].procs
    ensures Run(trace', steps') && |trace'| > 0
    ensures var s, s' := trace[|trace| - 1], trace'[|trace'| - 1];
      && s'.procs == s.procs[p := Local(exclusive, None, Listing(false, 0))] && s.lapsed <= s'.lapsed
      && s'.present == s.present && s'.contents == s.contents
  {
    hide LapsedNow;
    var s := trace[|trace| - 1];
    var procs := s.procs[p := Local(exclusive, None, Listing(false, 0))];
    AfterLapsed(s, s.contents, s.present, procs, s.blind);
    trace', steps' := trace + [After(s, s.contents, s.present, procs, s.blind)], steps + [Start(p, exclusive)];
  }

  // ---------------------------------------------------------------- what locks can do

  /** Only lock files of non-exclusive locks exist. */
  ghost predicate OnlyShared(s: State) {
    forall f :: f in s.present ==> f in s.contents && !s.contents[f].exclusive
  }

  /** A non-exclusive lock that checks files of non-exclusive locks loads them one after the other. */
  lemma {:induction false} LoadAllShared(trace: seq<State>, steps: seq<Step>, p: Proc)
    returns (trace': seq<State>, steps': seq<Step>)
    requires Run(trace, steps)
    requires var s := trace[|trace| - 1];
      && OnlyShared(s) && p in s.procs && !s.procs[p].exclusive
      && s.procs[p].phase.Loading? && s.procs[p].phase.todo <= s.present
    ensures Run(trace', steps') && |trace'| > 0
    ensures var s, s' := trace[|trace| - 1], trace'[|trace'| - 1];
      && s'.procs == s.procs[p := s.procs[p].(phase := s.procs[p].phase.(todo := {}))]
      && s'.contents == s.contents && s'.present == s.present
    decreases trace[|trace| - 1].procs[p].phase.todo
  {
    var s := trace[|trace| - 1];
    hide Run, LapsedNow;
    var l := s.procs[p];
    if l.phase.todo == {} {
      trace', steps' := trace, steps;
      assert s.procs[p := l] == s.procs;
    } else {
      var f :| f in l.phase.todo;
      var l' := l.(phase := l.phase.(todo := l.phase.todo - {f}));
      assert LoadOne(s, l, f, l');
      trace', steps' := Extend(trace, steps, p, l', NoFile);
      trace', steps' := LoadAllShared(trace', steps', p);
    }
  }

  /** The first or the second check of a non-exclusive lock: it lists the files and loads the others. */
  lemma CheckShared(trace: seq<State>, steps: seq<Step>, p: Proc, second: bool)
    returns (trace': seq<State>, steps': seq<Step>)
    requires Run(trace, steps)
    requires var s := trace[|trace| - 1];
      OnlyShared(s) && p in s.procs && !s.procs[p].exclusive && s.procs[p].phase == Listing(second, 0)
    ensures Run(trace', steps') && |trace'| > 0
    ensures var s, s' := trace[|trace| - 1], trace'[|trace'| - 1];
      && s'.procs == s.procs[p := s.procs[p].(phase := if second then Held else Creating)]
      && s'.contents == s.contents && s'.present == s.present
  {
    var s := trace[|trace| - 1];
    hide Run, LapsedNow;
    var l := s.procs[p];
    trace', steps' := Extend(trace, steps, p, l.(phase := Loading(second, 0, s.present - OwnId(l))), NoFile);
    trace', steps' := LoadAllShared(trace', steps', p);
    trace', steps' := Extend(trace', steps', p, l.(phase := if second then Held else Creating), NoFile);
  }

  /** Whenever only non-exclusive locks have files, a further non-exclusive lock can be acquired, and nobody
      loses a lock by it. */
  lemma AcquireShared(trace: seq<State>, steps: seq<Step>, p: Proc, f: FileId)
    returns (trace': seq<State>, steps': seq<Step>)
    requires Run(trace, steps)
    requires var s := trace[|trace| - 1];
      p !in s.procs && f !in s.contents && forall g :: g in s.present ==> g in s.contents && !s.contents[g].exclusive
    ensures Run(trace', steps') && |trace'| > 0
    ensures var s, s' := trace[|trace| - 1], trace'[|trace'| - 1];
      && s'.procs == s.procs[p := Local(false, Some(f), Held)] && Holds(s', p) && !s'.procs[p].exclusive
      && s'.present == s.present + {f} && s'.contents == s.contents[f := LockFile(p, false)]
  {
    var s := trace[|trace| - 1];
    hide Run, LapsedNow;
    trace', steps' := StartLock(trace, steps, p, false);
    trace', steps' := CheckShared(trace', steps', p, false);
    trace', steps' := Extend(trace', steps', p, Local(false, Some(f), Listing(true, 0)), Create(f));
    trace', steps' := CheckShared(trace', steps', p, true);
  }

  lemma StartRun() returns (trace: seq<State>, steps: seq<Step>)
    ensures Run(trace, steps) && trace == [State(map[], {}, map[], {}, {})]
  {
    trace, steps := [State(map[], {}, map[], {}, {})], [];
  }

  /** Any number of non-exclusive locks can be held together. */
  lemma {:induction false} SharedTogether(n: nat) returns (trace: seq<State>, steps: seq<Step>)
    ensures Run(trace, steps) && |trace| > 0
    ensures var s := trace[|trace| - 1];
      && (forall p :: 0 <= p < n ==> Holds(s, p) && !s.procs[p].exclusive)
      && (forall p :: p in s.procs ==> p < n) && (forall f :: f in s.contents ==> f < n) && OnlyShared(s)
  {
    hide Run, LapsedNow;
    if n == 0 {
      trace, steps := StartRun();
    } else {
      trace, steps := SharedTogether(n - 1);
      trace, steps := AcquireShared(trace, steps, n - 1, n - 1);
    }
  }

  /** A held lock can be refreshed: its new file replaces the old one. */
  lemma RefreshHeld(trace: seq<State>, steps: seq<Step>, p: Proc, f: FileId)
    returns (trace': seq<State>, steps': seq<Step>)
    requires Run(trace, steps) && f !in trace[|trace| - 1].contents && p in trace[|trace| - 1].procs
    requires var l := trace[|trace| - 1].procs[p]; l.phase.Held? && l.lockID.Some?
    ensures Run(trace', steps') && |trace'| > 0
    ensures var s, s' := trace[|trace| - 1], trace'[|trace'| - 1];
      && s'.procs == s.procs[p := s.procs[p].(lockID := Some(f))]
      && s'.present == s.present + {f} - {s.procs[p].lockID.value}
      && s'.contents == s.contents[f := LockFile(p, s.procs[p].exclusive)]
  {
    var l := trace[|trace| - 1].procs[p];
    hide Run, LapsedNow;
    trace', steps' := Extend(trace, steps, p, l.(phase := RefreshCreated(f)), Create(f));
    trace', steps' := Extend(trace', steps', p, l.(lockID := Some(f), phase := RefreshSwapped(l.lockID.value)), NoFile);
    trace', steps' := Extend(trace', steps', p, l.(lockID := Some(f)), Remove(l.lockID.value));
  }

  /** A held lock whose file exists can be refreshed as a stale one, with the same result. */
  lemma RefreshStale(trace: seq<State>, steps: seq<Step>, p: Proc, f: FileId)
    returns (trace': seq<State>, steps': seq<Step>)
    requires Run(trace, steps) && f !in trace[|trace| - 1].contents && p in trace[|trace| - 1].procs
    requires var l := trace[|trace| - 1].procs[p];
      l.phase.Held? && l.lockID.Some? && l.lockID.value in trace[|trace| - 1].present
    ensures Run(trace', steps') && |trace'| > 0
    ensures var s, s' := trace[|trace| - 1], trace'[|trace'| - 1];
      && s'.procs == s.procs[p := s.procs[p].(lockID := Some(f))]
      && s'.present == s.present + {f} - {s.procs[p].lockID.value}
      && s'.contents == s.contents[f := LockFile(p, s.procs[p].exclusive)]
  {
    var l := trace[|trace| - 1].procs[p];
    hide Run, LapsedNow;
    trace', steps' := Extend(trace, steps, p, l.(phase := StaleConfirmed), NoFile);
    trace', steps' := Extend(trace', steps', p, l.(phase := StaleCreated(f)), Create(f));
    trace', steps' := Extend(trace', steps', p, l.(phase := StaleReconfirmed(f)), NoFile);
    trace', steps' := Extend(trace', steps', p, l.(lockID := Some(f), phase := StaleSwapped(l.lockID.value)), NoFile);
    trace', steps' := Extend(trace', steps', p, l.(lockID := Some(f)), Remove(l.lockID.value));
  }

  /** A held lock can be released: it is not held any more and its file is gone. */
  lemma ReleaseHeld(trace: seq<State>, steps: seq<Step>, p: Proc)
    returns (trace': seq<State>, steps': seq<Step>)
    requires Run(trace, steps) && p in trace[|trace| - 1].procs
    requires var l := trace[|trace| - 1].procs[p]; l.phase.Held? && l.lockID.Some?
    ensures Run(trace', steps') && |trace'| > 0
    ensures var s, s' := trace[|trace| - 1], trace'[|trace'| - 1];
      && !Holds(s', p) && s'.procs == s.procs[p := s.procs[p].(phase := Done)]
      && s'.present == s.present - {s.procs[p].lockID.value} && s'.contents == s.contents
  {
    var l := trace[|trace| - 1].procs[p];
    hide Run, LapsedNow;
    trace', steps' := Extend(trace, steps, p, l.(phase := Releasing), NoFile);
    trace', steps' := Extend(trace', steps', p, l.(phase := Done), Remove(l.lockID.value));
  }

  // ---------------------------------------------------------------- the assumptions are needed

  /** A lock is acquired and its file is then removed as stale. */
  lemma AcquireAndLose() returns (trace: seq<State>, steps: seq<Step>)
    ensures Run(trace, steps) && |trace| > 0
    ensures var s := trace[|trace| - 1];
      && s.procs == map[0 := Local(true, Some(0), Held)] && s.present == {}
      && s.contents == map[0 := LockFile(0, true)] && 0 in s.lapsed
  {
    hide LapsedNow, LocalStep;
    trace, steps := StartRun();
    trace, steps := AcquireAlone(trace, steps, 0, 0);
    var s := trace[|trace| - 1];
    AfterLapsed(s, s.contents, {}, s.procs, s.blind);
    var s' := After(s, s.contents, {}, s.procs, s.blind);
    LapsesNow(s', 0);
    assert !Fresh(s, 0);
    assert Next(s, RemoveStale(0), s');
    trace, steps := trace + [s'], steps + [RemoveStale(0)];
  }

  lemma LapsesNow(s: State, p: Proc)
    requires p in s.procs && s.procs[p].Engaged() && s.present == {}
    ensures p in LapsedNow(s)
  {
  }

  /** With removals of files judged stale, mutual exclusion does not hold: a run in which two exclusive
      locks are held at the same time. */
  lemma RemovalBreaksExclusion() returns (trace: seq<State>, steps: seq<Step>)
    ensures Run(trace, steps) && HeldTogether(trace[|trace| - 1], 0, 1)
  {
    hide Run, LapsedNow, LocalStep;
    trace, steps := AcquireAndLose();
    trace, steps := AcquireAlone(trace, steps, 1, 1);
  }

  /** After a plain Refresh that did not look for its old file, RefreshStaleLock confirms a lock that has
      lapsed. */
  lemma BlindRefreshUncovers() returns (trace: seq<State>, steps: seq<Step>)
    ensures Run(trace, steps) && |trace| > 0
    ensures var s := trace[|trace| - 1];
      0 in s.procs && s.procs[0].phase.StaleReconfirmed? && 0 in s.lapsed
  {
    hide Run, LapsedNow;
    trace, steps := AcquireAndLose();
    var l := Local(true, Some(0), Held);
    trace, steps := Extend(trace, steps, 0, l.(phase := RefreshCreated(1)), Create(1));
    l := Local(true, Some(1), RefreshSwapped(0));
    trace, steps := Extend(trace, steps, 0, l, NoFile);
    trace, steps := Extend(trace, steps, 0, l.(phase := Held), NoFile);
    trace, steps := Extend(trace, steps, 0, l.(phase := StaleConfirmed), NoFile);
    trace, steps := Extend(trace, steps, 0, l.(phase := StaleCreated(2)), Create(2));
    trace, steps := Extend(trace, steps, 0, l.(phase := StaleReconfirmed(2)), NoFile);
  }
}
