/** Which snapshots an expiry policy keeps.  Instants are integers; the calendar date of a snapshot is
    part of it, because it depends on the time zone; subtracting a duration from an instant is an
    arbitrary function. */
module Policy {

  datatype Calendar = Calendar(year: int, month: int, day: int, hour: int, isoYear: int, isoWeek: int)

  datatype Snapshot = Snapshot(id: nat, time: int, cal: Calendar, tags: seq<string>)

  datatype Duration = Duration(hours: int, days: int, months: int, years: int) {
    predicate Zero() { years == 0 && months == 0 && days == 0 && hours == 0 }
  }

  /** `counts` are the numbers for last, hourly, daily, weekly, monthly and yearly snapshots,
      `withins` the durations for hourly to yearly snapshots; `withins[0]` is the plain one. */
  datatype ExpirePolicy = ExpirePolicy(counts: seq<int>, withins: seq<Duration>, tags: seq<seq<string>>) {
    predicate Valid() { |counts| == 6 && |withins| == 6 }

    predicate Empty()
      requires Valid()
    {
      && tags == []
      && (forall b :: 0 <= b < 6 ==> counts[b] == 0)
      && (forall b :: 0 <= b < 6 ==> withins[b].Zero())
    }
  }

  type Cutoff = (int, Duration) -> int

  /** The zero value of an instant. */
  const ZERO_TIME: int := 0

  /** The bucket values: hour, day, week, month and year of a snapshot. */
  function Val(b: nat, sn: Snapshot): (v: int) {
    var d := sn.cal;
    if b == 1 then d.year * 1000000 + d.month * 10000 + d.day * 100 + d.hour
    else if b == 2 then d.year * 10000 + d.month * 100 + d.day
    else if b == 3 then d.isoYear * 100 + d.isoWeek
    else if b == 4 then d.year * 100 + d.month
    else d.year
  }

  function HasTags(sn: Snapshot, l: seq<string>): (r: bool) {
    if l == [] then true
    else if l[0] == "" && sn.tags == [] then true
    else l[0] in sn.tags && HasTags(sn, l[1..])
  }

  // ---------------------------------------------------------------- sorting

  /** Inserts a snapshot that comes before all of `list` with the same time. */
  function InsertFirst(sn: Snapshot, list: seq<Snapshot>): (r: seq<Snapshot>) {
    if list == [] || !(list[0].time > sn.time) then [sn] + list
    else [list[0]] + InsertFirst(sn, list[1..])
  }

  /** sort.Stable, newest first. */
  function StableSort(list: seq<Snapshot>): (r: seq<Snapshot>) {
    if list == [] then [] else InsertFirst(list[0], StableSort(list[1..]))
  }

  ghost predicate NewestFirst(list: seq<Snapshot>) {
    forall i, j :: 0 <= i < j < |list| ==> list[i].time >= list[j].time
  }

  /** The snapshots of one instant, in order. */
  function At(list: seq<Snapshot>, time: int): (r: seq<Snapshot>) {
    if list == [] then [] else (if list[0].time == time then [list[0]] else []) + At(list[1..], time)
  }

  lemma {:induction false} InsertFirstKeeps(sn: Snapshot, list: seq<Snapshot>)
    ensures multiset(InsertFirst(sn, list)) == multiset(list) + multiset{sn}
    ensures forall x :: x in InsertFirst(sn, list) <==> x == sn || x in list
  {
    if list != [] && list[0].time > sn.time {
      InsertFirstKeeps(sn, list[1..]);
      assert list == [list[0]] + list[1..];
    }
  }

  lemma {:induction false} InsertFirstSorts(sn: Snapshot, list: seq<Snapshot>)
    requires NewestFirst(list)
    ensures NewestFirst(InsertFirst(sn, list))
  {
    if list != [] && list[0].time > sn.time {
      InsertFirstSorts(sn, list[1..]);
      InsertFirstKeeps(sn, list[1..]);
      var rest := InsertFirst(sn, list[1..]);
      assert forall x :: x in rest ==> x.time <= list[0].time;
      assert forall i :: 0 <= i < |rest| ==> rest[i] in rest;
    }
  }

  lemma AtCons(sn: Snapshot, list: seq<Snapshot>, t: int)
    ensures At([sn] + list, t) == if sn.time == t then [sn] + At(list, t) else At(list, t)
  {
    assert ([sn] + list)[1..] == list;
  }

  lemma {:induction false} InsertFirstStable(sn: Snapshot, list: seq<Snapshot>, t: int)
    ensures At(InsertFirst(sn, list), t) == if sn.time == t then [sn] + At(list, t) else At(list, t)
  {
    hide At;
    if list != [] && list[0].time > sn.time {
      InsertFirstStable(sn, list[1..], t);
      AtCons(list[0], InsertFirst(sn, list[1..]), t);
      AtCons(list[0], list[1..], t);
      assert list == [list[0]] + list[1..];
    } else {
      AtCons(sn, list, t);
    }
  }

  /** The sorted list is newest first, has the same snapshots, and those of one instant in their order. */
  lemma {:induction false} StableSortSorts(list: seq<Snapshot>, t: int)
    ensures NewestFirst(StableSort(list))
    ensures multiset(StableSort(list)) == multiset(list)
    ensures At(StableSort(list), t) == At(list, t)
  {
    hide NewestFirst, InsertFirst, At;
    if list == [] {
      NoneSorted();
    } else {
      var first, rest := list[0], StableSort(list[1..]);
      StableSortSorts(list[1..], t);
      InsertFirstSorts(first, rest);
      InsertFirstKeeps(first, rest);
      InsertFirstStable(first, rest, t);
      AtCons(first, list[1..], t);
      assert list == [first] + list[1..];
    }
  }

  lemma NoneSorted()
    ensures NewestFirst([])
  {
  }

  lemma {:induction false} StableSortOfSorted(list: seq<Snapshot>)
    requires NewestFirst(list)
    ensures StableSort(list) == list
  {
    if list != [] {
      StableSortOfSorted(list[1..]);
    }
  }

  // ---------------------------------------------------------------- what is kept, and why

  /** The bucket value of the snapshot before `i`. */
  function Prev(b: nat, list: seq<Snapshot>, i: nat): (v: int)
    requires i <= |list|
  {
    if i == 0 then -1 else Val(b, list[i - 1])
  }

  /** Snapshot `i` starts a new hour, day, ...; every snapshot is a new last one. */
  predicate Head(b: nat, list: seq<Snapshot>, i: nat)
    requires i < |list|
  {
    b == 0 || Val(b, list[i]) != Prev(b, list, i)
  }

  function Heads(b: nat, list: seq<Snapshot>, i: nat): (n: nat)
    requires i <= |list|
  {
    if i == 0 then 0 else Heads(b, list, i - 1) + (if Head(b, list, i - 1) then 1 else 0)
  }

  /** Is there something left of a count of which `used` have been taken?  -1 means no limit. */
  predicate Left(count: int, used: nat) {
    count == -1 || used < count
  }

  /** A count keeps the first heads of its bucket and, as long as something is left, the oldest snapshot. */
  predicate KeptByCount(count: int, b: nat, list: seq<Snapshot>, i: nat)
    requires i < |list|
  {
    Left(count, Heads(b, list, i)) && (Head(b, list, i) || i == |list| - 1)
  }

  predicate InRange(w: Duration, latest: int, cutoff: Cutoff, sn: Snapshot) {
    !w.Zero() && sn.time > cutoff(latest, w)
  }

  /** A duration keeps the heads of its bucket within that duration, and the oldest snapshot. */
  predicate KeptWithin(w: Duration, latest: int, cutoff: Cutoff, b: nat, list: seq<Snapshot>, i: nat)
    requires i < |list|
  {
    InRange(w, latest, cutoff, list[i]) && (Head(b, list, i) || i == |list| - 1)
  }

  datatype Reason = Tagged(tags: seq<string>) | Within | Counted(bucket: nat) | CountedWithin(bucket: nat)

  function TagReasons(tags: seq<seq<string>>, sn: Snapshot): (r: seq<Reason>) {
    if tags == [] then [] else
    TagReasons(tags[..|tags| - 1], sn) + (if HasTags(sn, tags[|tags| - 1]) then [Tagged(tags[|tags| - 1])] else [])
  }

  function CountReasons(p: ExpirePolicy, list: seq<Snapshot>, i: nat, n: nat): (r: seq<Reason>)
    requires p.Valid() && i < |list| && n <= 6
  {
    if n == 0 then [] else
    CountReasons(p, list, i, n - 1) + (if KeptByCount(p.counts[n - 1], n - 1, list, i) then [Counted(n - 1)] else [])
  }

  /** The reasons of the buckets 1 to n - 1. */
  function WithinReasons(p: ExpirePolicy, latest: int, cutoff: Cutoff, list: seq<Snapshot>, i: nat,
                         n: nat): (r: seq<Reason>)
    requires p.Valid() && i < |list| && n <= 6
  {
    if n <= 1 then [] else
    WithinReasons(p, latest, cutoff, list, i, n - 1) +
    (if KeptWithin(p.withins[n - 1], latest, cutoff, n - 1, list, i) then [CountedWithin(n - 1)] else [])
  }

  /** All reasons to keep snapshot `i` of a sorted list. */
  function Reasons(p: ExpirePolicy, latest: int, cutoff: Cutoff, list: seq<Snapshot>, i: nat): (r: seq<Reason>)
    requires p.Valid() && i < |list|
  {
    TagReasons(p.tags, list[i]) +
    (if InRange(p.withins[0], latest, cutoff, list[i]) then [Within] else []) +
    CountReasons(p, list, i, 6) +
    WithinReasons(p, latest, cutoff, list, i, 6)
  }

  predicate Kept(p: ExpirePolicy, latest: int, cutoff: Cutoff, list: seq<Snapshot>, i: nat)
    requires p.Valid() && i < |list|
  {
    Reasons(p, latest, cutoff, list, i) != []
  }

  /** The first `n` snapshots, those that are kept or those that are not. */
  function Select(p: ExpirePolicy, latest: int, cutoff: Cutoff, list: seq<Snapshot>, kept: bool,
                  n: nat): (r: seq<Snapshot>)
    requires p.Valid() && n <= |list|
  {
    if n == 0 then [] else
    Select(p, latest, cutoff, list, kept, n - 1) +
    (if Kept(p, latest, cutoff, list, n - 1) == kept then [list[n - 1]] else [])
  }

  /** The time of the newest snapshot that is not in the future. */
  function LatestOf(list: seq<Snapshot>, now: int): (t: int) {
    if list == [] then ZERO_TIME
    else
      var t := LatestOf(list[..|list| - 1], now);
      var sn := list[|list| - 1];
      if sn.time > t && sn.time < now then sn.time else t
  }

  /** It is at least the zero time, no snapshot before now is newer, and it is one of theirs or the zero time. */
  lemma {:induction false} LatestOfIs(list: seq<Snapshot>, now: int)
    ensures var t := LatestOf(list, now);
      && t >= ZERO_TIME
      && (forall sn :: sn in list && sn.time < now ==> sn.time <= t)
      && (t == ZERO_TIME || exists sn :: sn in list && sn.time == t && t < now)
  {
    if list != [] {
      var n := |list| - 1;
      LatestOfIs(list[..n], now);
      assert list == list[..n] + [list[n]];
      assert list[n] in list;
    }
  }

  // ---------------------------------------------------------------- kept means for some reason

  lemma {:induction false} CountReasonsHas(p: ExpirePolicy, list: seq<Snapshot>, i: nat, n: nat)
    requires p.Valid() && i < |list| && n <= 6
    ensures CountReasons(p, list, i, n) != [] <==> exists b :: 0 <= b < n && KeptByCount(p.counts[b], b, list, i)
  {
    if n > 0 { CountReasonsHas(p, list, i, n - 1); }
  }

  lemma {:induction false} WithinReasonsHas(p: ExpirePolicy, latest: int, cutoff: Cutoff, list: seq<Snapshot>, i: nat,
                                            n: nat)
    requires p.Valid() && i < |list| && n <= 6
    ensures WithinReasons(p, latest, cutoff, list, i, n) != [] <==>
            exists b :: 1 <= b < n && KeptWithin(p.withins[b], latest, cutoff, b, list, i)
  {
    if n > 1 { WithinReasonsHas(p, latest, cutoff, list, i, n - 1); }
  }

  lemma {:induction false} TagReasonsHas(tags: seq<seq<string>>, sn: Snapshot)
    ensures TagReasons(tags, sn) != [] <==> exists l :: l in tags && HasTags(sn, l)
  {
    if tags != [] {
      var ln := |tags| - 1;
      TagReasonsHas(tags[..ln], sn);
      assert forall l :: l in tags <==> l in tags[..ln] || l == tags[ln];
      if TagReasons(tags[..ln], sn) != [] {
        var l :| l in tags[..ln] && HasTags(sn, l);
        assert l in tags;
      } else if HasTags(sn, tags[ln]) {
        assert tags[ln] in tags;
      }
    }
  }

  /** A snapshot is kept exactly if it has one of the tag lists, is within the duration, or is kept by the
      count or the duration of some bucket. */
  lemma KeptExactly(p: ExpirePolicy, latest: int, cutoff: Cutoff, list: seq<Snapshot>, i: nat)
    requires p.Valid() && i < |list|
    ensures Kept(p, latest, cutoff, list, i) <==>
      || (exists l :: l in p.tags && HasTags(list[i], l))
      || InRange(p.withins[0], latest, cutoff, list[i])
      || (exists b :: 0 <= b < 6 && KeptByCount(p.counts[b], b, list, i))
      || (exists b :: 1 <= b < 6 && KeptWithin(p.withins[b], latest, cutoff, b, list, i))
  {
    TagReasonsHas(p.tags, list[i]);
    CountReasonsHas(p, list, i, 6);
    WithinReasonsHas(p, latest, cutoff, list, i, 6);
  }

  // ---------------------------------------------------------------- applying a policy to what it kept

  lemma {:induction false} SelectPrefix(p: ExpirePolicy, latest: int, cutoff: Cutoff, list: seq<Snapshot>, kept: bool,
                                        i: nat, n: nat)
    requires p.Valid() && i <= n <= |list|
    ensures Select(p, latest, cutoff, list, kept, i) <= Select(p, latest, cutoff, list, kept, n)
    decreases n
  {
    hide Kept;
    if i < n { SelectPrefix(p, latest, cutoff, list, kept, i, n - 1); }
  }

  /** How many of the first `i` snapshots are kept. */
  function KeptBefore(p: ExpirePolicy, latest: int, cutoff: Cutoff, list: seq<Snapshot>, i: nat): (n: nat)
    requires p.Valid() && i <= |list|
  {
    |Select(p, latest, cutoff, list, true, i)|
  }

  function KeepList(p: ExpirePolicy, latest: int, cutoff: Cutoff, list: seq<Snapshot>): (r: seq<Snapshot>)
    requires p.Valid()
  {
    Select(p, latest, cutoff, list, true, |list|)
  }

  /** A kept snapshot is found in the keep list at its number. */
  lemma KeptAt(p: ExpirePolicy, latest: int, cutoff: Cutoff, list: seq<Snapshot>, i: nat)
    requires p.Valid() && i < |list|
    ensures var keep, k := KeepList(p, latest, cutoff, list), KeptBefore(p, latest, cutoff, list, i);
      && k <= |keep|
      && KeptBefore(p, latest, cutoff, list, i + 1) == (if Kept(p, latest, cutoff, list, i) then k + 1 else k)
      && (Kept(p, latest, cutoff, list, i) ==> k < |keep| && keep[k] == list[i])
  {
    hide Kept;
    SelectPrefix(p, latest, cutoff, list, true, i, |list|);
    SelectPrefix(p, latest, cutoff, list, true, i + 1, |list|);
  }

  /** As long as a bucket keeps all its heads, the keep list has the same heads as the list. */
  lemma {:induction false} SameHeads(p: ExpirePolicy, latest: int, cutoff: Cutoff, list: seq<Snapshot>, b: nat, i: nat)
    requires p.Valid() && i <= |list|
    requires forall k :: 0 <= k < i && Head(b, list, k) ==> Kept(p, latest, cutoff, list, k)
    ensures var keep, k := KeepList(p, latest, cutoff, list), KeptBefore(p, latest, cutoff, list, i);
      k <= |keep| && Prev(b, keep, k) == Prev(b, list, i) && Heads(b, keep, k) == Heads(b, list, i)
  {
    hide Kept, Val, KeepList, KeptBefore;
    if i == 0 {
      NoneBefore(p, latest, cutoff, list);
    } else {
      SameHeads(p, latest, cutoff, list, b, i - 1);
      KeptAt(p, latest, cutoff, list, i - 1);
    }
  }

  lemma NoneBefore(p: ExpirePolicy, latest: int, cutoff: Cutoff, list: seq<Snapshot>)
    requires p.Valid()
    ensures KeptBefore(p, latest, cutoff, list, 0) == 0
  {
  }

  lemma {:induction false} HeadsGrow(b: nat, list: seq<Snapshot>, k: nat, i: nat)
    requires k <= i <= |list|
    ensures Heads(b, list, k) <= Heads(b, list, i)
    decreases i
  {
    if k < i { HeadsGrow(b, list, k, i - 1); }
  }

  lemma CountKeepsHeads(p: ExpirePolicy, latest: int, cutoff: Cutoff, list: seq<Snapshot>, b: nat, i: nat)
    requires p.Valid() && i <= |list| && b < 6 && Left(p.counts[b], Heads(b, list, i))
    ensures forall k :: 0 <= k < i && Head(b, list, k) ==> Kept(p, latest, cutoff, list, k)
  {
    hide Kept, Heads;
    forall k | 0 <= k < i && Head(b, list, k) ensures Kept(p, latest, cutoff, list, k) {
      HeadsGrow(b, list, k, i);
      KeptExactly(p, latest, cutoff, list, k);
    }
  }

  lemma WithinKeepsHeads(p: ExpirePolicy, latest: int, cutoff: Cutoff, list: seq<Snapshot>, b: nat, i: nat)
    requires p.Valid() && i < |list| && 1 <= b < 6 && NewestFirst(list)
    requires InRange(p.withins[b], latest, cutoff, list[i])
    ensures forall k :: 0 <= k < i && Head(b, list, k) ==> Kept(p, latest, cutoff, list, k)
  {
    hide Kept;
    forall k | 0 <= k < i && Head(b, list, k) ensures Kept(p, latest, cutoff, list, k) {
      KeptExactly(p, latest, cutoff, list, k);
    }
  }

  /** The last kept snapshot ends the keep list. */
  lemma LastKept(p: ExpirePolicy, latest: int, cutoff: Cutoff, list: seq<Snapshot>)
    requires p.Valid() && list != [] && Kept(p, latest, cutoff, list, |list| - 1)
    ensures KeptBefore(p, latest, cutoff, list, |list| - 1) == |KeepList(p, latest, cutoff, list)| - 1
  {
    hide Kept;
  }

  /** What is kept for a reason is kept for the same reason when only the kept snapshots are left. */
  lemma KeptAgain(p: ExpirePolicy, latest: int, cutoff: Cutoff, list: seq<Snapshot>, i: nat)
    requires p.Valid() && i < |list| && NewestFirst(list) && Kept(p, latest, cutoff, list, i)
    ensures var keep, k := KeepList(p, latest, cutoff, list), KeptBefore(p, latest, cutoff, list, i);
      k < |keep| && keep[k] == list[i] && Kept(p, latest, cutoff, keep, k)
  {
    hide Kept, KeepList, KeptBefore, HasTags, Heads, NewestFirst, Val;
    var keep, k := KeepList(p, latest, cutoff, list), KeptBefore(p, latest, cutoff, list, i);
    KeptAt(p, latest, cutoff, list, i);
    KeptExactly(p, latest, cutoff, list, i);
    KeptExactly(p, latest, cutoff, keep, k);
    if i == |list| - 1 { LastKept(p, latest, cutoff, list); }
    if exists b :: 0 <= b < 6 && KeptByCount(p.counts[b], b, list, i) {
      var b :| 0 <= b < 6 && KeptByCount(p.counts[b], b, list, i);
      CountKeepsHeads(p, latest, cutoff, list, b, i);
      SameHeads(p, latest, cutoff, list, b, i);
      assert KeptByCount(p.counts[b], b, keep, k);
    } else if exists b :: 1 <= b < 6 && KeptWithin(p.withins[b], latest, cutoff, b, list, i) {
      var b :| 1 <= b < 6 && KeptWithin(p.withins[b], latest, cutoff, b, list, i);
      WithinKeepsHeads(p, latest, cutoff, list, b, i);
      SameHeads(p, latest, cutoff, list, b, i);
      assert KeptWithin(p.withins[b], latest, cutoff, b, keep, k);
    }
  }

  /** Every snapshot of the keep list comes from a kept one. */
  lemma {:induction false} KeptFrom(p: ExpirePolicy, latest: int, cutoff: Cutoff, list: seq<Snapshot>, n: nat, k: nat)
    returns (i: nat)
    requires p.Valid() && n <= |list| && k < KeptBefore(p, latest, cutoff, list, n)
    ensures i < n && Kept(p, latest, cutoff, list, i) && KeptBefore(p, latest, cutoff, list, i) == k
  {
    hide Kept;
    if Kept(p, latest, cutoff, list, n - 1) && KeptBefore(p, latest, cutoff, list, n - 1) == k {
      i := n - 1;
    } else {
      i := KeptFrom(p, latest, cutoff, list, n - 1, k);
    }
  }

  lemma {:induction false} SelectAll(p: ExpirePolicy, latest: int, cutoff: Cutoff, list: seq<Snapshot>, n: nat)
    requires p.Valid() && n <= |list|
    requires forall i :: 0 <= i < n ==> Kept(p, latest, cutoff, list, i)
    ensures Select(p, latest, cutoff, list, true, n) == list[..n]
    ensures Select(p, latest, cutoff, list, false, n) == []
  {
    hide Kept;
    if n > 0 { SelectAll(p, latest, cutoff, list, n - 1); }
  }

  /** With the same newest snapshot, the policy keeps everything it has kept. */
  lemma KeepAll(p: ExpirePolicy, latest: int, cutoff: Cutoff, list: seq<Snapshot>)
    requires p.Valid() && NewestFirst(list)
    ensures var keep := KeepList(p, latest, cutoff, list);
      && Select(p, latest, cutoff, keep, true, |keep|) == keep
      && Select(p, latest, cutoff, keep, false, |keep|) == []
  {
    hide Kept, NewestFirst;
    var keep := KeepList(p, latest, cutoff, list);
    forall k | 0 <= k < |keep| ensures Kept(p, latest, cutoff, keep, k) {
      var i := KeptFrom(p, latest, cutoff, list, |list|, k);
      KeptAgain(p, latest, cutoff, list, i);
    }
    SelectAll(p, latest, cutoff, keep, |keep|);
    assert keep[..|keep|] == keep;
  }

  // ---------------------------------------------------------------- the newest snapshot

  function Max(a: int, b: int): (r: int) { if a > b then a else b }

  lemma {:induction false} LatestOfSorted(list: seq<Snapshot>, now: int)
    requires list != [] && NewestFirst(list) && forall sn :: sn in list ==> sn.time < now
    ensures LatestOf(list, now) == Max(ZERO_TIME, list[0].time)
  {
    if |list| > 1 {
      LatestOfSorted(list[..|list| - 1], now);
    } else {
      assert list[..0] == [];
    }
  }

  /** Some duration of the policy is not zero, so that the newest snapshot matters. */
  predicate UsesLatest(p: ExpirePolicy)
    requires p.Valid()
  {
    exists b :: 0 <= b < 6 && !p.withins[b].Zero()
  }

  /** The durations reach back from the newest snapshot, which is not before the zero of time, so that
      it is kept. */
  lemma NewestIsKept(p: ExpirePolicy, cutoff: Cutoff, list: seq<Snapshot>, latest: int)
    requires p.Valid() && list != [] && UsesLatest(p)
    requires latest == list[0].time
    requires forall b :: 0 <= b < 6 && !p.withins[b].Zero() ==> cutoff(latest, p.withins[b]) < latest
    requires forall b :: 1 <= b < 6 ==> Val(b, list[0]) >= 0
    ensures Kept(p, latest, cutoff, list, 0)
  {
    hide Kept, Val;
    KeptExactly(p, latest, cutoff, list, 0);
    var b :| 0 <= b < 6 && !p.withins[b].Zero();
    assert InRange(p.withins[b], latest, cutoff, list[0]);
    if b > 0 { assert KeptWithin(p.withins[b], latest, cutoff, b, list, 0); }
  }

  /** If all durations are zero, the newest snapshot does not matter. */
  lemma {:induction false} LatestUnused(p: ExpirePolicy, latest: int, latest': int, cutoff: Cutoff,
                                        list: seq<Snapshot>, kept: bool, n: nat)
    requires p.Valid() && !UsesLatest(p) && n <= |list|
    ensures Select(p, latest, cutoff, list, kept, n) == Select(p, latest', cutoff, list, kept, n)
  {
    hide Kept;
    if n > 0 {
      LatestUnused(p, latest, latest', cutoff, list, kept, n - 1);
      KeptExactly(p, latest, cutoff, list, n - 1);
      KeptExactly(p, latest', cutoff, list, n - 1);
    }
  }

  // ---------------------------------------------------------------- the whole policy

  function KeptCount(count: int, b: nat, list: seq<Snapshot>, i: nat): (n: nat)
    requires i <= |list|
  {
    if i == 0 then 0 else KeptCount(count, b, list, i - 1) + (if KeptByCount(count, b, list, i - 1) then 1 else 0)
  }

  /** What is left of a count after the first `i` snapshots. */
  function Counter(count: int, b: nat, list: seq<Snapshot>, i: nat): (c: int)
    requires i <= |list|
  {
    if count > 0 then count - KeptCount(count, b, list, i) else count
  }

  function Counters(p: ExpirePolicy, list: seq<Snapshot>, i: nat): (cs: seq<int>)
    requires p.Valid() && i <= |list|
  {
    seq(6, b requires 0 <= b < 6 => Counter(p.counts[b], b, list, i))
  }

  datatype KeepReason =
    | PolicyIsEmpty(snapshot: Snapshot)
    | KeepReason(snapshot: Snapshot, matches: seq<Reason>, counters: seq<int>)

  function ReasonList(p: ExpirePolicy, latest: int, cutoff: Cutoff, list: seq<Snapshot>, n: nat): (r: seq<KeepReason>)
    requires p.Valid() && n <= |list|
  {
    if n == 0 then [] else
    ReasonList(p, latest, cutoff, list, n - 1) +
    (if Kept(p, latest, cutoff, list, n - 1)
     then [KeepReason(list[n - 1], Reasons(p, latest, cutoff, list, n - 1), Counters(p, list, n))] else [])
  }

  datatype Selection = Selection(keep: seq<Snapshot>, remove: seq<Snapshot>, reasons: seq<KeepReason>)

  /** What ApplyPolicy returns. */
  function Selected(list0: seq<Snapshot>, p: ExpirePolicy, now: int, cutoff: Cutoff): (r: Selection)
    requires p.Valid()
  {
    var list := StableSort(list0);
    if p.Empty() then Selection(list, [], seq(|list|, i requires 0 <= i < |list| => PolicyIsEmpty(list[i])))
    else if list == [] then Selection([], [], [])
    else
      var latest := LatestOf(list, now);
      Selection(Select(p, latest, cutoff, list, true, |list|),
                Select(p, latest, cutoff, list, false, |list|),
                ReasonList(p, latest, cutoff, list, |list|))
  }

  /** Kept and removed snapshots together are all of them. */
  lemma {:induction false} SelectPartitions(p: ExpirePolicy, latest: int, cutoff: Cutoff, list: seq<Snapshot>, n: nat)
    requires p.Valid() && n <= |list|
    ensures multiset(Select(p, latest, cutoff, list, true, n)) +
      multiset(Select(p, latest, cutoff, list, false, n)) == multiset(list[..n])
  {
    hide Kept, Select;
    if n == 0 {
      SelectNone(p, latest, cutoff, list);
    } else {
      SelectPartitions(p, latest, cutoff, list, n - 1);
      SelectOne(p, latest, cutoff, list, n);
      assert list[..n] == list[..n - 1] + [list[n - 1]];
    }
  }

  lemma SelectNone(p: ExpirePolicy, latest: int, cutoff: Cutoff, list: seq<Snapshot>)
    requires p.Valid()
    ensures Select(p, latest, cutoff, list, true, 0) == [] && Select(p, latest, cutoff, list, false, 0) == []
  {
  }

  lemma SelectOne(p: ExpirePolicy, latest: int, cutoff: Cutoff, list: seq<Snapshot>, n: nat)
    requires p.Valid() && 0 < n <= |list|
    ensures
      var k, r := Select(p, latest, cutoff, list, true, n - 1), Select(p, latest, cutoff, list, false, n - 1);
      var k', r' := Select(p, latest, cutoff, list, true, n), Select(p, latest, cutoff, list, false, n);
      if Kept(p, latest, cutoff, list, n - 1) then k' == k + [list[n - 1]] && r' == r
      else k' == k && r' == r + [list[n - 1]]
  {
    hide Kept;
  }

  /** The reasons line up with the kept snapshots. */
  lemma {:induction false} ReasonsLineUp(p: ExpirePolicy, latest: int, cutoff: Cutoff, list: seq<Snapshot>, n: nat)
    requires p.Valid() && n <= |list|
    ensures |ReasonList(p, latest, cutoff, list, n)| == |Select(p, latest, cutoff, list, true, n)|
    ensures forall k :: 0 <= k < |ReasonList(p, latest, cutoff, list, n)| ==>
              ReasonList(p, latest, cutoff, list, n)[k].snapshot == Select(p, latest, cutoff, list, true, n)[k]
  {
    hide Kept, Reasons, Counters;
    if n > 0 { ReasonsLineUp(p, latest, cutoff, list, n - 1); }
  }

  lemma {:induction false} SelectSorted(p: ExpirePolicy, latest: int, cutoff: Cutoff, list: seq<Snapshot>, kept: bool,
                                        n: nat)
    requires p.Valid() && n <= |list| && NewestFirst(list)
    ensures NewestFirst(Select(p, latest, cutoff, list, kept, n))
    ensures forall sn :: sn in Select(p, latest, cutoff, list, kept, n) ==> sn in list[..n]
  {
    hide Kept;
    if n > 0 {
      SelectSorted(p, latest, cutoff, list, kept, n - 1);
      var s := Select(p, latest, cutoff, list, kept, n - 1);
      assert forall i :: 0 <= i < |s| ==> s[i] in list[..n - 1];
      assert forall sn :: sn in list[..n - 1] ==> sn.time >= list[n - 1].time;
    }
  }

  /** The snapshots of the list with the given flag, in their order. */
  function Pick(list: seq<Snapshot>, flags: seq<bool>, flag: bool): (r: seq<Snapshot>)
    requires |flags| == |list|
  {
    if list == [] then []
    else
      var n := |list| - 1;
      Pick(list[..n], flags[..n], flag) + (if flags[n] == flag then [list[n]] else [])
  }

  /** The list is dealt out to the two others, each in the order of the list. */
  ghost predicate Deals(list: seq<Snapshot>, flags: seq<bool>, keep: seq<Snapshot>, remove: seq<Snapshot>) {
    |flags| == |list| && keep == Pick(list, flags, true) && remove == Pick(list, flags, false)
  }

  lemma {:induction false} SelectDeals(p: ExpirePolicy, latest: int, cutoff: Cutoff, list: seq<Snapshot>, n: nat)
    returns (flags: seq<bool>)
    requires p.Valid() && n <= |list|
    ensures Deals(list[..n], flags, Select(p, latest, cutoff, list, true, n), Select(p, latest, cutoff, list, false, n))
    ensures forall i :: 0 <= i < n ==> (flags[i] <==> Kept(p, latest, cutoff, list, i))
  {
    hide Kept, Select;
    if n == 0 {
      SelectNone(p, latest, cutoff, list);
      flags := [];
    } else {
      var before := SelectDeals(p, latest, cutoff, list, n - 1);
      SelectOne(p, latest, cutoff, list, n);
      flags := before + [Kept(p, latest, cutoff, list, n - 1)];
      assert list[..n][..n - 1] == list[..n - 1] && flags[..n - 1] == before;
    }
  }

  lemma {:induction false} AllDealt(list: seq<Snapshot>) returns (flags: seq<bool>)
    ensures Deals(list, flags, list, []) && forall i :: 0 <= i < |list| ==> flags[i]
  {
    if list == [] {
      flags := [];
    } else {
      var n := |list| - 1;
      var before := AllDealt(list[..n]);
      flags := before + [true];
      assert flags[..n] == before && list == list[..n] + [list[n]];
    }
  }

  lemma SelectionDeals(l: seq<Snapshot>, p: ExpirePolicy, latest: int, cutoff: Cutoff)
    requires p.Valid() && NewestFirst(l)
    ensures var keep, remove := Select(p, latest, cutoff, l, true, |l|), Select(p, latest, cutoff, l, false, |l|);
      && (exists flags :: Deals(l, flags, keep, remove))
      && multiset(keep) + multiset(remove) == multiset(l)
      && NewestFirst(keep) && NewestFirst(remove)
  {
    hide Kept, Select, NewestFirst, Deals;
    assert l[..|l|] == l;
    var flags := SelectDeals(p, latest, cutoff, l, |l|);
    SelectPartitions(p, latest, cutoff, l, |l|);
    SelectSorted(p, latest, cutoff, l, true, |l|);
    SelectSorted(p, latest, cutoff, l, false, |l|);
  }

  /** ApplyPolicy deals the stably sorted list out to keep and remove, each in its order, so that they
      partition the list, and gives one reason per kept snapshot. */
  lemma SelectedPartitions(list: seq<Snapshot>, p: ExpirePolicy, now: int, cutoff: Cutoff)
    requires p.Valid()
    ensures var r := Selected(list, p, now, cutoff);
      && (exists flags :: Deals(StableSort(list), flags, r.keep, r.remove))
      && multiset(r.keep) + multiset(r.remove) == multiset(list)
      && NewestFirst(r.keep) && NewestFirst(r.remove)
      && |r.reasons| == |r.keep| && forall k :: 0 <= k < |r.keep| ==> r.reasons[k].snapshot == r.keep[k]
  {
    hide Kept, Select, ReasonList, StableSort, NewestFirst, Deals, LatestOf;
    var l := StableSort(list);
    StableSortSorts(list, 0);
    NoneSorted();
    if p.Empty() || l == [] {
      var flags := AllDealt(l);
    } else {
      var latest := LatestOf(l, now);
      SelectionDeals(l, p, latest, cutoff);
      var r := Selected(list, p, now, cutoff);
      var flags :| Deals(l, flags, r.keep, r.remove);
      ReasonsLineUp(p, latest, cutoff, l, |l|);
    }
  }

  /** ApplyPolicy is idempotent: applied to what it kept it removes nothing and keeps it as it is. */
  lemma Idempotent(list: seq<Snapshot>, p: ExpirePolicy, now: int, cutoff: Cutoff)
    requires p.Valid()
    requires forall sn :: sn in list ==> sn.time < now
    requires forall sn, b :: sn in list && 1 <= b < 6 ==> Val(b, sn) >= 0
    requires forall t, b :: 0 <= b < 6 && !p.withins[b].Zero() ==> cutoff(t, p.withins[b]) < t
    ensures var keep := Selected(list, p, now, cutoff).keep; var again := Selected(keep, p, now, cutoff);
      again.keep == keep && again.remove == []
  {
    var l := StableSort(list);
    StableSortSorts(list, 0);
    hide Kept, Select, ReasonList, StableSort, Val, NewestFirst;
    assert forall sn :: sn in l ==> sn in multiset(l);
    var latest := LatestOf(l, now);
    var keep := Selected(list, p, now, cutoff).keep;
    if p.Empty() || l == [] {
      StableSortOfSorted(l);
    } else {
      SelectSorted(p, latest, cutoff, l, true, |l|);
      StableSortOfSorted(keep);
      SameLatest(l, p, now, cutoff);
      KeepAll(p, latest, cutoff, l);
      if !UsesLatest(p) {
        LatestUnused(p, latest, LatestOf(keep, now), cutoff, keep, true, |keep|);
        LatestUnused(p, latest, LatestOf(keep, now), cutoff, keep, false, |keep|);
      }
    }
  }

  lemma SameLatest(l: seq<Snapshot>, p: ExpirePolicy, now: int, cutoff: Cutoff)
    requires p.Valid() && l != [] && NewestFirst(l)
    requires forall sn :: sn in l ==> sn.time < now
    requires forall sn, b :: sn in l && 1 <= b < 6 ==> Val(b, sn) >= 0
    requires forall t, b :: 0 <= b < 6 && !p.withins[b].Zero() ==> cutoff(t, p.withins[b]) < t
    ensures var latest := LatestOf(l, now); var keep := Select(p, latest, cutoff, l, true, |l|);
      UsesLatest(p) && keep != [] ==> LatestOf(keep, now) == latest
  {
    hide Kept, Val, Select, LatestOf;
    var latest := LatestOf(l, now);
    var keep := Select(p, latest, cutoff, l, true, |l|);
    if UsesLatest(p) && keep != [] {
      LatestOfSorted(l, now);
      SelectSorted(p, latest, cutoff, l, true, |l|);
      assert l[..|l|] == l;
      LatestOfSorted(keep, now);
      assert keep[0] in l;
      if l[0].time > ZERO_TIME {
        NewestIsKept(p, cutoff, l, latest);
        KeptAt(p, latest, cutoff, l, 0);
        NoneBefore(p, latest, cutoff, l);
      }
    }
  }

  // ---------------------------------------------------------------- the loops of ApplyPolicy

  /** The value a bucket computes for snapshot number `nr`; for the last snapshots it is that number. */
  function Bucker(b: nat, sn: Snapshot, nr: nat): (v: int) {
    if b == 0 then nr else Val(b, sn)
  }

  /** A counting bucket before snapshot `i`: its counter is what is left, and as long as something is
      left it remembers the value of the snapshot before. */
  ghost predicate BucketOk(count0: int, b: nat, list: seq<Snapshot>, i: nat, count: int, last: int)
    requires i <= |list|
  {
    && count == Counter(count0, b, list, i)
    && (i < |list| ==>
          && (count0 > 0 ==> KeptCount(count0, b, list, i) == Min(Heads(b, list, i), count0))
          && (Left(count0, Heads(b, list, i)) ==> last == if b == 0 then i - 1 else Prev(b, list, i)))
  }

  function Min(a: int, b: int): (r: int) { if a < b then a else b }

  lemma BucketStart(count0: int, b: nat, list: seq<Snapshot>)
    ensures BucketOk(count0, b, list, 0, count0, -1)
  {
  }

  predicate BucketKeeps(b: nat, list: seq<Snapshot>, i: nat, count: int, last: int)
    requires i < |list|
  {
    (count > 0 || count == -1) && (Bucker(b, list[i], i) != last || i == |list| - 1)
  }

  /** One snapshot and one counting bucket. */
  lemma BucketStep(count0: int, b: nat, list: seq<Snapshot>, i: nat, count: int, last: int)
    requires i < |list| && BucketOk(count0, b, list, i, count, last)
    ensures BucketKeeps(b, list, i, count, last) <==> KeptByCount(count0, b, list, i)
    ensures if BucketKeeps(b, list, i, count, last)
            then BucketOk(count0, b, list, i + 1, if count > 0 then count - 1 else count, Bucker(b, list[i], i))
            else BucketOk(count0, b, list, i + 1, count, last)
  {
    hide Val;
  }

  /** A bucket with a duration before snapshot `i`: within the duration it remembers the value of the
      snapshot before. */
  ghost predicate WithinOk(w: Duration, latest: int, cutoff: Cutoff, b: nat, list: seq<Snapshot>, i: nat, last: int)
    requires i <= |list|
  {
    (i == 0 || InRange(w, latest, cutoff, list[i - 1])) ==> last == Prev(b, list, i)
  }

  lemma WithinStep(w: Duration, latest: int, cutoff: Cutoff, b: nat, list: seq<Snapshot>, i: nat, last: int)
    requires i < |list| && b > 0 && NewestFirst(list) && WithinOk(w, latest, cutoff, b, list, i, last)
    ensures var kept := InRange(w, latest, cutoff, list[i]) && (Val(b, list[i]) != last || i == |list| - 1);
      && (kept <==> KeptWithin(w, latest, cutoff, b, list, i))
      && WithinOk(w, latest, cutoff, b, list, i + 1, if kept then Val(b, list[i]) else last)
  {
    hide Val;
  }

  method FindLatestTimestamp(list: seq<Snapshot>, now: int) returns (latest: int)
    requires list != []
    ensures latest == LatestOf(list, now)
  {
    latest := ZERO_TIME;
    for i := 0 to |list|
      invariant latest == LatestOf(list[..i], now)
    {
      assert list[..i + 1][..i] == list[..i];
      if list[i].time > latest && list[i].time < now { latest := list[i].time; }
    }
    assert list[..|list|] == list;
  }

  method TagLoop(tags: seq<seq<string>>, sn: Snapshot) returns (matches: seq<Reason>)
    ensures matches == TagReasons(tags, sn)
  {
    matches := [];
    for k := 0 to |tags|
      invariant matches == TagReasons(tags[..k], sn)
    {
      assert tags[..k + 1][..k] == tags[..k];
      if HasTags(sn, tags[k]) { matches := matches + [Tagged(tags[k])]; }
    }
    assert tags[..|tags|] == tags;
  }

  ghost predicate BucketsOk(p: ExpirePolicy, list: seq<Snapshot>, i: nat, counts: seq<int>, lasts: seq<int>,
                            from: nat, to: nat)
    requires p.Valid() && i <= |list|
  {
    |counts| == |lasts| == 6 && forall b :: from <= b < to && b < 6 ==>
      BucketOk(p.counts[b], b, list, i, counts[b], lasts[b])
  }

  /** Updates the counting buckets for snapshot `nr`. */
  method CountLoop(p: ExpirePolicy, list: seq<Snapshot>, nr: nat, counts0: seq<int>, lasts0: seq<int>)
    returns (counts: seq<int>, lasts: seq<int>, matches: seq<Reason>)
    requires p.Valid() && nr < |list| && BucketsOk(p, list, nr, counts0, lasts0, 0, 6)
    ensures BucketsOk(p, list, nr + 1, counts, lasts, 0, 6)
    ensures matches == CountReasons(p, list, nr, 6)
  {
    hide BucketOk, KeptByCount;
    counts, lasts, matches := counts0, lasts0, [];
    for b := 0 to 6
      invariant BucketsOk(p, list, nr + 1, counts, lasts, 0, b)
      invariant BucketsOk(p, list, nr, counts, lasts, b, 6)
      invariant matches == CountReasons(p, list, nr, b)
    {
      BucketStep(p.counts[b], b, list, nr, counts[b], lasts[b]);
      if counts[b] > 0 || counts[b] == -1 {
        var val := Bucker(b, list[nr], nr);
        if val != lasts[b] || nr == |list| - 1 {
          lasts := lasts[b := val];
          if counts[b] > 0 { counts := counts[b := counts[b] - 1]; }
          matches := matches + [Counted(b)];
        }
      }
    }
  }

  ghost predicate WithinsOk(p: ExpirePolicy, latest: int, cutoff: Cutoff, list: seq<Snapshot>, i: nat,
                            lasts: seq<int>, from: nat, to: nat)
    requires p.Valid() && i <= |list|
  {
    |lasts| == 6 && forall b :: from <= b < to && 1 <= b < 6 ==>
      WithinOk(p.withins[b], latest, cutoff, b, list, i, lasts[b])
  }

  /** Updates the buckets with a duration for snapshot `nr`. */
  method WithinLoop(p: ExpirePolicy, latest: int, cutoff: Cutoff, list: seq<Snapshot>, nr: nat, lasts0: seq<int>)
    returns (lasts: seq<int>, matches: seq<Reason>)
    requires p.Valid() && nr < |list| && NewestFirst(list) && WithinsOk(p, latest, cutoff, list, nr, lasts0, 1, 6)
    ensures WithinsOk(p, latest, cutoff, list, nr + 1, lasts, 1, 6)
    ensures matches == WithinReasons(p, latest, cutoff, list, nr, 6)
  {
    hide WithinOk, KeptWithin, NewestFirst;
    lasts, matches := lasts0, [];
    for b := 1 to 6
      invariant WithinsOk(p, latest, cutoff, list, nr + 1, lasts, 1, b)
      invariant WithinsOk(p, latest, cutoff, list, nr, lasts, b, 6)
      invariant matches == WithinReasons(p, latest, cutoff, list, nr, b)
    {
      WithinStep(p.withins[b], latest, cutoff, b, list, nr, lasts[b]);
      if !p.withins[b].Zero() {
        var t := cutoff(latest, p.withins[b]);
        if list[nr].time > t {
          var val := Val(b, list[nr]);
          if val != lasts[b] || nr == |list| - 1 {
            lasts := lasts[b := val];
            matches := matches + [CountedWithin(b)];
          }
        }
      }
    }
  }

  lemma CountersAre(p: ExpirePolicy, list: seq<Snapshot>, i: nat, counts: seq<int>, lasts: seq<int>)
    requires p.Valid() && i <= |list| && BucketsOk(p, list, i, counts, lasts, 0, 6)
    ensures counts == Counters(p, list, i)
  {
    forall b | 0 <= b < 6 ensures counts[b] == Counters(p, list, i)[b] {
      assert BucketOk(p.counts[b], b, list, i, counts[b], lasts[b]);
    }
  }

  /** The loop over the sorted list. */
  method ApplyLoop(list: seq<Snapshot>, p: ExpirePolicy, latest: int, cutoff: Cutoff)
    returns (keep: seq<Snapshot>, remove: seq<Snapshot>, reasons: seq<KeepReason>)
    requires p.Valid() && NewestFirst(list)
    ensures keep == Select(p, latest, cutoff, list, true, |list|)
    ensures remove == Select(p, latest, cutoff, list, false, |list|)
    ensures reasons == ReasonList(p, latest, cutoff, list, |list|)
  {
    hide BucketOk, WithinOk, NewestFirst, CountReasons, WithinReasons, TagReasons, Counters, InRange;
    keep, remove, reasons := [], [], [];
    var counts, lasts, withinLasts := p.counts, seq(6, _ => -1), seq(6, _ => -1);
    forall b | 0 <= b < 6 ensures BucketOk(p.counts[b], b, list, 0, counts[b], lasts[b]) { BucketStart(p.counts[b],
      b, list); }
    forall b | 1 <= b < 6 ensures WithinOk(p.withins[b], latest, cutoff, b, list, 0, withinLasts[b]) {
      WithinStart(p.withins[b], latest, cutoff, b, list);
    }
    for nr := 0 to |list|
      invariant BucketsOk(p, list, nr, counts, lasts, 0, 6)
      invariant WithinsOk(p, latest, cutoff, list, nr, withinLasts, 1, 6)
      invariant keep == Select(p, latest, cutoff, list, true, nr)
      invariant remove == Select(p, latest, cutoff, list, false, nr)
      invariant reasons == ReasonList(p, latest, cutoff, list, nr)
    {
      var cur := list[nr];
      var matches := TagLoop(p.tags, cur);
      var within := InRange(p.withins[0], latest, cutoff, cur);
      if within { matches := matches + [Within]; }
      var byCount, byDuration;
      counts, lasts, byCount := CountLoop(p, list, nr, counts, lasts);
      withinLasts, byDuration := WithinLoop(p, latest, cutoff, list, nr, withinLasts);
      matches := matches + byCount + byDuration;
      CountersAre(p, list, nr + 1, counts, lasts);
      assert matches == Reasons(p, latest, cutoff, list, nr);
      if matches != [] {
        keep := keep + [cur];
        reasons := reasons + [KeepReason(cur, matches, counts)];
      } else {
        remove := remove + [cur];
      }
    }
  }

  lemma WithinStart(w: Duration, latest: int, cutoff: Cutoff, b: nat, list: seq<Snapshot>)
    ensures WithinOk(w, latest, cutoff, b, list, 0, -1)
  {
  }

  // ---------------------------------------------------------------- the law, in terms of calendar and tags

  /** The fields of a calendar are in their ranges. */
  predicate InCalendar(c: Calendar) {
    && 0 <= c.year <= 9999 && 1 <= c.month <= 12 && 1 <= c.day <= 31 && 0 <= c.hour <= 23
    && -1 <= c.isoYear <= 9999 && 1 <= c.isoWeek <= 53
  }

  /** Two snapshots are of the same hour (1), day (2), ISO week (3), month (4) or year (5). */
  predicate SamePeriod(b: nat, x: Snapshot, y: Snapshot) {
    var c, d := x.cal, y.cal;
    match b
    case 0 => false
    case 1 => c.year == d.year && c.month == d.month && c.day == d.day && c.hour == d.hour
    case 2 => c.year == d.year && c.month == d.month && c.day == d.day
    case 3 => c.isoYear == d.isoYear && c.isoWeek == d.isoWeek
    case 4 => c.year == d.year && c.month == d.month
    case _ => c.year == d.year
  }

  /** The bucket values tell exactly the periods apart, and none of them is the initial value -1. */
  lemma ValIs(b: nat, x: Snapshot, y: Snapshot)
    requires InCalendar(x.cal) && InCalendar(y.cal) && 1 <= b <= 5
    ensures Val(b, x) == Val(b, y) <==> SamePeriod(b, x, y)
    ensures Val(b, x) != -1
  {
  }

  /** The snapshot is the newest one of its period; for the last snapshots (0) each one is. */
  predicate Starts(b: nat, list: seq<Snapshot>, i: nat)
    requires i < |list|
  {
    i == 0 || !SamePeriod(b, list[i - 1], list[i])
  }

  lemma HeadStarts(b: nat, list: seq<Snapshot>, i: nat)
    requires i < |list| && b <= 5 && forall sn :: sn in list ==> InCalendar(sn.cal)
    ensures Head(b, list, i) <==> Starts(b, list, i)
  {
    hide Val, SamePeriod, InCalendar;
    if b > 0 {
      assert list[i] in list;
      ValIs(b, list[i], list[i]);
      if i > 0 {
        assert list[i - 1] in list;
        ValIs(b, list[i - 1], list[i]);
      }
    } else {
      NoPeriod(list, i);
    }
  }

  lemma NoPeriod(list: seq<Snapshot>, i: nat)
    requires i < |list|
    ensures Starts(0, list, i)
  {
  }

  /** The snapshots before `i` that start a period. */
  ghost function StartsBefore(b: nat, list: seq<Snapshot>, i: nat): (js: set<nat>)
    requires i <= |list|
  {
    set j: nat | j < i && Starts(b, list, j)
  }

  lemma {:induction false} HeadsCount(b: nat, list: seq<Snapshot>, i: nat)
    requires i <= |list| && b <= 5 && forall sn :: sn in list ==> InCalendar(sn.cal)
    ensures Heads(b, list, i) == |StartsBefore(b, list, i)|
  {
    hide Head, Starts, InCalendar;
    if i > 0 {
      HeadsCount(b, list, i - 1);
      HeadStarts(b, list, i - 1);
      var before, now := StartsBefore(b, list, i - 1), StartsBefore(b, list, i);
      assert now == if Starts(b, list, i - 1) then before + {i - 1} else before;
      assert i - 1 !in before;
    } else {
      assert StartsBefore(b, list, 0) == {};
    }
  }

  /** All tags of the list; a snapshot without tags only has the list that is empty or begins with "". */
  ghost predicate HasAllTags(sn: Snapshot, l: seq<string>) {
    if sn.tags == [] then l == [] || l[0] == "" else forall k :: 0 <= k < |l| ==> l[k] in sn.tags
  }

  lemma {:induction false} HasTagsIs(sn: Snapshot, l: seq<string>)
    ensures HasTags(sn, l) <==> HasAllTags(sn, l)
  {
    if l != [] {
      HasTagsIs(sn, l[1..]);
      assert forall k :: 0 < k < |l| ==> l[k] == l[1..][k - 1];
      if sn.tags != [] && HasAllTags(sn, l) {
        assert forall k :: 0 <= k < |l[1..]| ==> l[1..][k] == l[k + 1];
      }
    }
  }

  /** The snapshot is newer than the latest one minus a duration that is not zero. */
  ghost predicate Reaches(w: Duration, latest: int, cutoff: Cutoff, sn: Snapshot) {
    (w.hours != 0 || w.days != 0 || w.months != 0 || w.years != 0) && sn.time > cutoff(latest, w)
  }

  /** The latest time before now, or the zero time. */
  ghost predicate IsLatest(list: seq<Snapshot>, now: int, t: int) {
    && t >= ZERO_TIME
    && (forall sn :: sn in list && sn.time < now ==> sn.time <= t)
    && (t == ZERO_TIME || exists sn :: sn in list && sn.time == t && t < now)
  }

  /** A counted bucket keeps the snapshot: it starts a period, or is the oldest, while something is left. */
  ghost predicate CountKeeps(count: int, b: nat, list: seq<Snapshot>, i: nat)
    requires i < |list|
  {
    (Starts(b, list, i) || i == |list| - 1) && (count == -1 || |StartsBefore(b, list, i)| < count)
  }

  /** A within bucket keeps the snapshot: it starts a period, or is the oldest, and the duration reaches it. */
  ghost predicate DurationKeeps(w: Duration, latest: int, cutoff: Cutoff, b: nat, list: seq<Snapshot>, i: nat)
    requires i < |list|
  {
    (Starts(b, list, i) || i == |list| - 1) && Reaches(w, latest, cutoff, list[i])
  }

  /** Some part of the policy keeps snapshot `i` of the sorted list. */
  ghost predicate SomethingKeeps(p: ExpirePolicy, latest: int, cutoff: Cutoff, list: seq<Snapshot>, i: nat)
    requires p.Valid() && i < |list|
  {
    || (exists t :: 0 <= t < |p.tags| && HasAllTags(list[i], p.tags[t]))
    || Reaches(p.withins[0], latest, cutoff, list[i])
    || (exists b :: 0 <= b < 6 && CountKeeps(p.counts[b], b, list, i))
    || (exists b :: 1 <= b < 6 && DurationKeeps(p.withins[b], latest, cutoff, b, list, i))
  }

  /** Nothing is configured. */
  ghost predicate Unset(p: ExpirePolicy)
    requires p.Valid()
  {
    p.tags == [] && (forall b :: 0 <= b < 6 ==> p.counts[b] == 0 && p.withins[b] == Duration(0, 0, 0, 0))
  }

  lemma BucketsKeep(p: ExpirePolicy, latest: int, cutoff: Cutoff, list: seq<Snapshot>, i: nat, b: nat)
    requires p.Valid() && i < |list| && b < 6 && forall sn :: sn in list ==> InCalendar(sn.cal)
    ensures KeptByCount(p.counts[b], b, list, i) <==> CountKeeps(p.counts[b], b, list, i)
    ensures KeptWithin(p.withins[b], latest, cutoff, b, list, i) <==>
      DurationKeeps(p.withins[b], latest, cutoff, b, list, i)
  {
    hide Head, Starts, Heads, StartsBefore, InCalendar;
    HeadStarts(b, list, i);
    HeadsCount(b, list, i);
  }

  lemma KeptIs(p: ExpirePolicy, latest: int, cutoff: Cutoff, list: seq<Snapshot>, i: nat)
    requires p.Valid() && i < |list| && forall sn :: sn in list ==> InCalendar(sn.cal)
    ensures Kept(p, latest, cutoff, list, i) <==> SomethingKeeps(p, latest, cutoff, list, i)
  {
    hide Kept, KeptByCount, KeptWithin, CountKeeps, DurationKeeps, HasTags, HasAllTags, InCalendar;
    KeptExactly(p, latest, cutoff, list, i);
    TagsKeep(p, list[i]);
    CountsKeep(p, latest, cutoff, list, i);
  }

  lemma TagsKeep(p: ExpirePolicy, sn: Snapshot)
    ensures (exists l :: l in p.tags && HasTags(sn, l)) <==>
      exists t :: 0 <= t < |p.tags| && HasAllTags(sn, p.tags[t])
  {
    hide HasTags, HasAllTags;
    forall l ensures HasTags(sn, l) <==> HasAllTags(sn, l) { HasTagsIs(sn, l); }
    if exists l :: l in p.tags && HasTags(sn, l) {
      var l :| l in p.tags && HasTags(sn, l);
      var t :| 0 <= t < |p.tags| && p.tags[t] == l;
    }
  }

  lemma CountsKeep(p: ExpirePolicy, latest: int, cutoff: Cutoff, list: seq<Snapshot>, i: nat)
    requires p.Valid() && i < |list| && forall sn :: sn in list ==> InCalendar(sn.cal)
    ensures (exists b :: 0 <= b < 6 && KeptByCount(p.counts[b], b, list, i)) <==>
      exists b :: 0 <= b < 6 && CountKeeps(p.counts[b], b, list, i)
    ensures (exists b :: 1 <= b < 6 && KeptWithin(p.withins[b], latest, cutoff, b, list, i)) <==>
      exists b :: 1 <= b < 6 && DurationKeeps(p.withins[b], latest, cutoff, b, list, i)
  {
    hide KeptByCount, KeptWithin, CountKeeps, DurationKeeps, InCalendar;
    forall b | 0 <= b < 6
      ensures KeptByCount(p.counts[b], b, list, i) <==> CountKeeps(p.counts[b], b, list, i)
      ensures KeptWithin(p.withins[b], latest, cutoff, b, list, i) <==>
        DurationKeeps(p.withins[b], latest, cutoff, b, list, i)
    {
      BucketsKeep(p, latest, cutoff, list, i, b);
    }
  }

  lemma {:induction false} TagReasonsAre(tags: seq<seq<string>>, sn: Snapshot, r: Reason)
    ensures r in TagReasons(tags, sn) <==> r.Tagged? && r.tags in tags && HasAllTags(sn, r.tags)
  {
    hide HasTags, HasAllTags;
    if tags != [] {
      var n := |tags| - 1;
      TagReasonsAre(tags[..n], sn, r);
      HasTagsIs(sn, tags[n]);
      assert tags == tags[..n] + [tags[n]];
    }
  }

  lemma {:induction false} CountReasonsAre(p: ExpirePolicy, list: seq<Snapshot>, i: nat, n: nat, r: Reason)
    requires p.Valid() && i < |list| && n <= 6 && forall sn :: sn in list ==> InCalendar(sn.cal)
    ensures r in CountReasons(p, list, i, n) <==>
      r.Counted? && r.bucket < n && CountKeeps(p.counts[r.bucket], r.bucket, list, i)
  {
    hide KeptByCount, CountKeeps, InCalendar;
    if n > 0 {
      CountReasonsAre(p, list, i, n - 1, r);
      BucketsKeep(p, 0, (_, _) => 0, list, i, n - 1);
    }
  }

  lemma {:induction false} WithinReasonsAre(p: ExpirePolicy, latest: int, cutoff: Cutoff, list: seq<Snapshot>, i: nat,
                                            n: nat, r: Reason)
    requires p.Valid() && i < |list| && n <= 6 && forall sn :: sn in list ==> InCalendar(sn.cal)
    ensures r in WithinReasons(p, latest, cutoff, list, i, n) <==>
      && r.CountedWithin? && 1 <= r.bucket < n
      && DurationKeeps(p.withins[r.bucket], latest, cutoff, r.bucket, list, i)
  {
    hide KeptWithin, DurationKeeps, InCalendar;
    if n > 1 {
      WithinReasonsAre(p, latest, cutoff, list, i, n - 1, r);
      BucketsKeep(p, latest, cutoff, list, i, n - 1);
    }
  }

  /** A reason is given if and only if it is one. */
  lemma ReasonsAre(p: ExpirePolicy, latest: int, cutoff: Cutoff, list: seq<Snapshot>, i: nat, r: Reason)
    requires p.Valid() && i < |list| && forall sn :: sn in list ==> InCalendar(sn.cal)
    ensures r in Reasons(p, latest, cutoff, list, i) <==>
      match r
      case Tagged(l) => l in p.tags && HasAllTags(list[i], l)
      case Within => Reaches(p.withins[0], latest, cutoff, list[i])
      case Counted(b) => b < 6 && CountKeeps(p.counts[b], b, list, i)
      case CountedWithin(b) => 1 <= b < 6 && DurationKeeps(p.withins[b], latest, cutoff, b, list, i)
  {
    hide CountKeeps, DurationKeeps, HasAllTags, InCalendar, TagReasons, CountReasons, WithinReasons;
    TagReasonsAre(p.tags, list[i], r);
    CountReasonsAre(p, list, i, 6, r);
    WithinReasonsAre(p, latest, cutoff, list, i, 6, r);
  }

  /** A reported counter is the count minus the snapshots that it has kept so far. */
  lemma CounterIs(p: ExpirePolicy, list: seq<Snapshot>, i: nat, b: nat)
    requires p.Valid() && i <= |list| && b < 6 && forall sn :: sn in list ==> InCalendar(sn.cal)
    ensures Counters(p, list, i)[b] ==
      if p.counts[b] > 0 then p.counts[b] - |KeepsBefore(p.counts[b], b, list, i)| else p.counts[b]
  {
    KeptCountIs(p, list, i, b);
  }

  ghost function KeepsBefore(count: int, b: nat, list: seq<Snapshot>, i: nat): (js: set<nat>)
    requires i <= |list|
  {
    set j: nat | j < i && CountKeeps(count, b, list, j)
  }

  lemma {:induction false} KeptCountIs(p: ExpirePolicy, list: seq<Snapshot>, i: nat, b: nat)
    requires p.Valid() && i <= |list| && b < 6 && forall sn :: sn in list ==> InCalendar(sn.cal)
    ensures KeptCount(p.counts[b], b, list, i) == |KeepsBefore(p.counts[b], b, list, i)|
  {
    hide CountKeeps, KeptByCount, InCalendar;
    var c := p.counts[b];
    if i == 0 {
      assert KeepsBefore(c, b, list, 0) == {};
    } else {
      KeptCountIs(p, list, i - 1, b);
      BucketsKeep(p, 0, (_, _) => 0, list, i - 1, b);
      var before, now := KeepsBefore(c, b, list, i - 1), KeepsBefore(c, b, list, i);
      assert now == if CountKeeps(c, b, list, i - 1) then before + {i - 1} else before;
      assert i - 1 !in before;
    }
  }

  /** The reason of a kept snapshot is at its place among the kept ones, with the counters after it. */
  lemma {:induction false} ReasonAt(p: ExpirePolicy, latest: int, cutoff: Cutoff, list: seq<Snapshot>, i: nat, n: nat)
    requires p.Valid() && i < n <= |list| && Kept(p, latest, cutoff, list, i)
    ensures var rs, k := ReasonList(p, latest, cutoff, list, n), KeptBefore(p, latest, cutoff, list, i);
      && k < |rs|
      && rs[k] == KeepReason(list[i], Reasons(p, latest, cutoff, list, i), Counters(p, list, i + 1))
    decreases n
  {
    hide Kept, Reasons, Counters;
    if i < n - 1 {
      ReasonAt(p, latest, cutoff, list, i, n - 1);
    } else {
      ReasonsLineUp(p, latest, cutoff, list, i);
    }
  }

  lemma LatestUnique(list: seq<Snapshot>, now: int, latest: int)
    requires IsLatest(list, now, latest)
    ensures latest == LatestOf(list, now)
  {
    hide LatestOf;
    LatestOfIs(list, now);
  }

  /** The whole policy: the stably sorted list is dealt out in order, and a snapshot goes to keep if and only if
      nothing is configured or some part of the policy keeps it. */
  ghost predicate PolicyLaw(list0: seq<Snapshot>, p: ExpirePolicy, now: int, cutoff: Cutoff, keep: seq<Snapshot>,
                            remove: seq<Snapshot>)
    requires p.Valid()
  {
    var list := StableSort(list0);
    forall latest :: IsLatest(list, now, latest) ==>
      exists flags :: Deals(list, flags, keep, remove) && RightFlags(p, latest, cutoff, list, flags)
  }

  ghost predicate RightFlags(p: ExpirePolicy, latest: int, cutoff: Cutoff, list: seq<Snapshot>, flags: seq<bool>)
    requires p.Valid()
  {
    |flags| == |list| &&
    forall i :: 0 <= i < |list| ==> (flags[i] <==> Unset(p) || SomethingKeeps(p, latest, cutoff, list, i))
  }

  lemma UnsetIsEmpty(p: ExpirePolicy)
    requires p.Valid()
    ensures p.Empty() <==> Unset(p)
  {
    if p.Empty() {
      forall b | 0 <= b < 6 ensures p.counts[b] == 0 && p.withins[b] == Duration(0, 0, 0, 0) {
        assert p.withins[b].Zero();
      }
    }
  }

  lemma SelectedLaw(list0: seq<Snapshot>, p: ExpirePolicy, now: int, cutoff: Cutoff)
    requires p.Valid() && forall sn :: sn in list0 ==> InCalendar(sn.cal)
    ensures var r := Selected(list0, p, now, cutoff); PolicyLaw(list0, p, now, cutoff, r.keep, r.remove)
  {
    hide Kept, SomethingKeeps, Select, StableSort, InCalendar, Deals, LatestOf, ReasonList, Unset, IsLatest;
    var list := StableSort(list0);
    var r := Selected(list0, p, now, cutoff);
    SortedFrom(list0);
    UnsetIsEmpty(p);
    forall latest | IsLatest(list, now, latest)
      ensures exists flags :: Deals(list, flags, r.keep, r.remove) && RightFlags(p, latest, cutoff, list, flags)
    {
      LatestUnique(list, now, latest);
      if p.Empty() || list == [] {
        var flags := AllDealt(list);
        DealtLength(list, flags, list, []);
      } else {
        assert list[..|list|] == list;
        var flags := SelectDeals(p, latest, cutoff, list, |list|);
        DealtLength(list, flags, r.keep, r.remove);
        forall i: nat | i < |list|
          ensures Kept(p, latest, cutoff, list, i) <==> SomethingKeeps(p, latest, cutoff, list, i)
        {
          KeptIs(p, latest, cutoff, list, i);
        }
        assert RightFlags(p, latest, cutoff, list, flags);
      }
    }
  }

  lemma DealtLength(list: seq<Snapshot>, flags: seq<bool>, keep: seq<Snapshot>, remove: seq<Snapshot>)
    requires Deals(list, flags, keep, remove)
    ensures |flags| == |list|
  {
  }

  lemma SortedFrom(list0: seq<Snapshot>)
    ensures forall sn :: sn in StableSort(list0) <==> sn in list0
  {
    hide StableSort, NewestFirst;
    StableSortSorts(list0, 0);
    assert forall sn :: sn in list0 <==> sn in multiset(list0);
    assert forall sn :: sn in StableSort(list0) <==> sn in multiset(StableSort(list0));
  }

  method ApplyPolicy(list0: seq<Snapshot>, p: ExpirePolicy, now: int, cutoff: Cutoff)
    returns (keep: seq<Snapshot>, remove: seq<Snapshot>, reasons: seq<KeepReason>)
    requires p.Valid()
    ensures Selection(keep, remove, reasons) == Selected(list0, p, now, cutoff)
    ensures (forall sn :: sn in list0 ==> InCalendar(sn.cal)) ==> PolicyLaw(list0, p, now, cutoff, keep, remove)
  {
    hide NewestFirst, Select, ReasonList, StableSort, LatestOf, InCalendar, PolicyLaw;
    if forall sn :: sn in list0 ==> InCalendar(sn.cal) { SelectedLaw(list0, p, now, cutoff); }
    var list := StableSort(list0);
    StableSortSorts(list0, 0);
    if p.Empty() {
      reasons := [];
      for i := 0 to |list|
        invariant reasons == seq(i, k requires 0 <= k < i <= |list| => PolicyIsEmpty(list[k]))
      {
        reasons := reasons + [PolicyIsEmpty(list[i])];
      }
      return list, [], reasons;
    }
    if |list| == 0 { return list, [], []; }
    var latest := FindLatestTimestamp(list, now);
    keep, remove, reasons := ApplyLoop(list, p, latest, cutoff);
  }
}
