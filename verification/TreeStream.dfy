/** The tree traversal scheduler (filterTrees) together with its loader workers and the consumer of
    FindUsedBlobs.  Trees form an arbitrary finite graph; which loader finishes first and when the
    consumer runs is left open, so what is proved holds for every schedule. */
module TreeStream {
  import opened Common

  type ID = nat

  const NULL_ID: ID := 0

  datatype Node =
    | Dir(subtree: Option<ID>)
    | File(content: seq<ID>)
    | Other

  type Tree = seq<Node>

  datatype BlobHandle = TreeBlob(id: ID) | DataBlob(id: ID)

  /** An ID together with the position of the root it was found under. */
  datatype Tracked = Tracked(id: ID, root: nat)

  function Subtrees(tree: Tree): (ids: seq<ID>) {
    if tree == [] then []
    else (if tree[0].Dir? && tree[0].subtree.Some? then [tree[0].subtree.value] else []) + Subtrees(tree[1..])
  }

  /** The subtrees of `id` that are followed: none if the tree cannot be loaded, never null. */
  function Children(repo: map<ID, Tree>, id: ID): (ids: set<ID>) {
    if id in repo then (set c | c in Subtrees(repo[id]) && c != NULL_ID) else {}
  }

  /** The data blobs of the file nodes of a tree. */
  function Contents(tree: Tree): (blobs: set<BlobHandle>) {
    set n, b | n in tree && n.File? && b in n.content :: DataBlob(b)
  }

  // ---------------------------------------------------------------- reachability

  /** `path` leads from a root to its last element and avoids the trees in `known`. */
  ghost predicate Path(repo: map<ID, Tree>, roots: seq<ID>, known: set<ID>, path: seq<ID>) {
    && path != []
    && path[0] in roots
    && (forall i :: 0 <= i < |path| ==> path[i] !in known)
    && (forall i :: 0 < i < |path| ==> path[i] in Children(repo, path[i - 1]))
  }

  ghost predicate Reachable(repo: map<ID, Tree>, roots: seq<ID>, known: set<ID>, id: ID) {
    exists path :: Path(repo, roots, known, path) && path[|path| - 1] == id
  }

  // ---------------------------------------------------------------- what is used, in terms of the nodes

  /** `c` is the subtree of a directory node of the tree `p`. */
  ghost predicate Edge(repo: map<ID, Tree>, p: ID, c: ID) {
    p in repo && c != NULL_ID && exists i :: 0 <= i < |repo[p]| && repo[p][i] == Dir(Some(c))
  }

  /** `path` leads from a root to its last element along directory nodes and avoids the trees in `blobs0`. */
  ghost predicate Walk(repo: map<ID, Tree>, roots: seq<ID>, blobs0: set<BlobHandle>, path: seq<ID>) {
    && path != [] && path[0] in roots
    && (forall i :: 0 <= i < |path| ==> TreeBlob(path[i]) !in blobs0)
    && (forall i :: 0 < i < |path| ==> Edge(repo, path[i - 1], path[i]))
  }

  ghost predicate UsedTree(repo: map<ID, Tree>, roots: seq<ID>, blobs0: set<BlobHandle>, id: ID) {
    exists path :: Walk(repo, roots, blobs0, path) && path[|path| - 1] == id
  }

  /** `b` is among the contents of a file node of a used tree. */
  ghost predicate UsedData(repo: map<ID, Tree>, roots: seq<ID>, blobs0: set<BlobHandle>, b: ID) {
    exists id, i, k :: UsedTree(repo, roots, blobs0, id) && FileHas(repo, id, i, k, b)
  }

  ghost predicate FileHas(repo: map<ID, Tree>, id: ID, i: nat, k: nat, b: ID) {
    && id in repo && i < |repo[id]| && repo[id][i].File?
    && k < |repo[id][i].content| && repo[id][i].content[k] == b
  }

  lemma {:induction false} SubtreesAre(tree: Tree, c: ID)
    ensures c in Subtrees(tree) <==> exists i :: 0 <= i < |tree| && tree[i] == Dir(Some(c))
  {
    if tree != [] {
      SubtreesAre(tree[1..], c);
      if exists i :: 0 <= i < |tree| && tree[i] == Dir(Some(c)) {
        var i :| 0 <= i < |tree| && tree[i] == Dir(Some(c));
        if i > 0 { assert tree[1..][i - 1] == Dir(Some(c)); }
      }
      if c in Subtrees(tree[1..]) {
        var j :| 0 <= j < |tree[1..]| && tree[1..][j] == Dir(Some(c));
        assert tree[j + 1] == Dir(Some(c));
      }
    }
  }

  lemma ChildIsEdge(repo: map<ID, Tree>, p: ID, c: ID)
    ensures c in Children(repo, p) <==> Edge(repo, p, c)
  {
    if p in repo { SubtreesAre(repo[p], c); }
  }

  lemma UsedIsReachable(repo: map<ID, Tree>, roots: seq<ID>, blobs0: set<BlobHandle>, id: ID)
    ensures UsedTree(repo, roots, blobs0, id) <==> Reachable(repo, roots, TreesIn(blobs0), id)
  {
    hide Children, Edge;
    forall p, c ensures c in Children(repo, p) <==> Edge(repo, p, c) { ChildIsEdge(repo, p, c); }
    forall t ensures t in TreesIn(blobs0) <==> TreeBlob(t) in blobs0 { KnownTree(blobs0, t); }
    forall path ensures Walk(repo, roots, blobs0, path) <==> Path(repo, roots, TreesIn(blobs0), path) {
    }
  }

  lemma KnownTree(blobs0: set<BlobHandle>, id: ID)
    ensures id in TreesIn(blobs0) <==> TreeBlob(id) in blobs0
  {
  }

  lemma RootReachable(repo: map<ID, Tree>, roots: seq<ID>, known: set<ID>, id: ID)
    requires id in roots && id !in known
    ensures Reachable(repo, roots, known, id)
  {
    assert Path(repo, roots, known, [id]);
  }

  lemma ChildReachable(repo: map<ID, Tree>, roots: seq<ID>, known: set<ID>, parent: ID, id: ID)
    requires Reachable(repo, roots, known, parent) && id in Children(repo, parent) && id !in known
    ensures Reachable(repo, roots, known, id)
  {
    var path :| Path(repo, roots, known, path) && path[|path| - 1] == parent;
    assert Path(repo, roots, known, path + [id]);
  }

  /** A set with the roots that is closed under following subtrees has everything reachable. */
  lemma {:induction false} ClosedHasPath(repo: map<ID, Tree>, roots: seq<ID>, known: set<ID>, closed: set<ID>,
                                         path: seq<ID>)
    requires Path(repo, roots, known, path)
    requires forall r :: r in roots ==> r in known || r in closed
    requires forall p, c :: p in closed && c in Children(repo, p) ==> c in known || c in closed
    ensures path[|path| - 1] in closed
  {
    if |path| > 1 {
      var shorter := path[..|path| - 1];
      assert Path(repo, roots, known, shorter);
      ClosedHasPath(repo, roots, known, closed, shorter);
    }
  }

  // ---------------------------------------------------------------- the state of the scheduler

  /** `claimed` are the trees for which skip returned false, `received` the loaded trees in the
      order in which they came back from the loaders, `reports` how often each root was reported. */
  datatype Sched = Sched(
    backlog: seq<Tracked>,
    next: Option<Tracked>,
    inflight: seq<Tracked>,
    received: seq<ID>,
    claimed: set<ID>,
    counter: seq<int>,
    reports: seq<nat>)

  function Ids(items: seq<Tracked>): (ids: seq<ID>)
    ensures |ids| == |items|
    ensures forall i :: 0 <= i < |ids| ==> ids[i] == items[i].id
  {
    seq(|items|, i requires 0 <= i < |items| => items[i].id)
  }

  function Count(items: seq<Tracked>, root: nat): (n: nat) {
    if items == [] then 0 else (if items[0].root == root then 1 else 0) + Count(items[1..], root)
  }

  lemma {:induction false} CountConcat(a: seq<Tracked>, b: seq<Tracked>, root: nat)
    ensures Count(a + b, root) == Count(a, root) + Count(b, root)
  {
    if a == [] {
      assert a + b == b;
    } else {
      assert (a + b)[1..] == a[1..] + b;
      CountConcat(a[1..], b, root);
    }
  }

  lemma CountOne(t: Tracked, root: nat)
    ensures Count([t], root) == if t.root == root then 1 else 0
  {
    assert [t][1..] == [];
  }

  lemma CountRemove(a: seq<Tracked>, k: nat, root: nat)
    requires k < |a|
    ensures Count(a, root) == Count(a[..k] + a[k + 1..], root) + (if a[k].root == root then 1 else 0)
  {
    assert a == a[..k] + ([a[k]] + a[k + 1..]);
    CountConcat(a[..k], [a[k]] + a[k + 1..], root);
    CountConcat([a[k]], a[k + 1..], root);
    CountConcat(a[..k], a[k + 1..], root);
    CountOne(a[k], root);
  }

  /** Every claimed tree is about to be sent, being loaded or received, and that only once. */
  ghost predicate Partition(s: Sched) {
    multiset(s.claimed) == multiset(Ids(s.next.ToSeq())) + multiset(Ids(s.inflight)) + multiset(s.received)
  }

  ghost predicate Seen(s: Sched, known: set<ID>, id: ID) {
    id in known || id in s.claimed || id in Ids(s.backlog)
  }

  /** Nothing that has to be visited is forgotten. */
  ghost predicate Complete(repo: map<ID, Tree>, roots: seq<ID>, known: set<ID>, s: Sched) {
    && (forall r :: r in roots ==> Seen(s, known, r))
    && (forall p, c :: p in s.received && c in Children(repo, p) ==> Seen(s, known, c))
  }

  /** Nothing is visited that does not have to be. */
  ghost predicate Sound(repo: map<ID, Tree>, roots: seq<ID>, known: set<ID>, s: Sched) {
    && (forall id :: id in s.claimed ==> id !in known && Reachable(repo, roots, known, id))
    && (forall id :: id in Ids(s.backlog) && id !in known ==> Reachable(repo, roots, known, id))
  }

  function Outstanding(s: Sched, root: nat): (n: nat) {
    Count(s.backlog, root) + Count(s.next.ToSeq(), root) + Count(s.inflight, root)
  }

  /** A root's counter is the number of its items still on the way; the root is reported once,
      when that number drops to zero. */
  ghost predicate Counted(roots: seq<ID>, s: Sched) {
    && |s.counter| == |s.reports| == |roots|
    && (forall t :: t in s.backlog || t in s.next.ToSeq() || t in s.inflight ==> t.root < |roots|)
    && (forall r :: 0 <= r < |roots| ==> s.counter[r] == Outstanding(s, r))
    && (forall r :: 0 <= r < |roots| ==> s.reports[r] == if s.counter[r] == 0 then 1 else 0)
  }

  ghost predicate Inv(repo: map<ID, Tree>, roots: seq<ID>, known: set<ID>, s: Sched) {
    Partition(s) && Complete(repo, roots, known, s) && Sound(repo, roots, known, s) && Counted(roots, s)
  }

  function Report(reports: seq<nat>, counter: seq<int>, r: nat): (reports': seq<nat>)
    requires r < |reports| == |counter|
  {
    if counter[r] == 0 then reports[r := reports[r] + 1] else reports
  }

  // ---------------------------------------------------------------- steps

  /** Completeness only depends on what was received and on what is not forgotten. */
  lemma CompleteKept(repo: map<ID, Tree>, roots: seq<ID>, known: set<ID>, s: Sched, s': Sched)
    requires Complete(repo, roots, known, s) && s'.received == s.received
    requires forall id :: Seen(s, known, id) ==> Seen(s', known, id)
    ensures Complete(repo, roots, known, s')
  {
    forall p, c | p in s'.received && c in Children(repo, p) ensures Seen(s', known, c) {
      assert Seen(s, known, c);
    }
  }

  lemma PopIds(backlog: seq<Tracked>)
    requires backlog != []
    ensures forall id :: id in Ids(backlog) <==> id in Ids(backlog[..|backlog| - 1]) || id == backlog[|backlog| - 1].id
  {
    var ln := |backlog| - 1;
    assert Ids(backlog) == Ids(backlog[..ln]) + [backlog[ln].id];
  }

  lemma PopCount(backlog: seq<Tracked>, r: nat)
    requires backlog != []
    ensures var ln := |backlog| - 1;
      Count(backlog, r) == Count(backlog[..ln], r) + (if backlog[ln].root == r then 1 else 0)
  {
    var ln := |backlog| - 1;
    assert backlog == backlog[..ln] + [backlog[ln]];
    CountConcat(backlog[..ln], [backlog[ln]], r);
    CountOne(backlog[ln], r);
  }

  /** The top of the backlog is already known: it is dropped. */
  ghost predicate Skipped(known: set<ID>, s: Sched, s': Sched) {
    && s.next.None? && s.backlog != []
    && var ln := |s.backlog| - 1;
       var t := s.backlog[ln];
    && (t.id in known || t.id in s.claimed) && t.root < |s.counter| == |s.reports|
    && var counter := s.counter[t.root := s.counter[t.root] - 1];
       s' == s.(backlog := s.backlog[..ln], counter := counter, reports := Report(s.reports, counter, t.root))
  }

  lemma SkipCounts(roots: seq<ID>, known: set<ID>, s: Sched, s': Sched)
    requires Counted(roots, s) && Skipped(known, s, s')
    ensures Counted(roots, s')
  {
    var t := s.backlog[|s.backlog| - 1];
    forall r | 0 <= r < |roots| ensures Outstanding(s', r) == Outstanding(s, r) - (if r == t.root then 1 else 0) {
      PopCount(s.backlog, r);
    }
  }

  lemma SkipKeeps(repo: map<ID, Tree>, roots: seq<ID>, known: set<ID>, s: Sched, s': Sched)
    requires Inv(repo, roots, known, s) && Skipped(known, s, s')
    ensures Inv(repo, roots, known, s')
  {
    SkipCounts(roots, known, s, s');
    PopIds(s.backlog);
    CompleteKept(repo, roots, known, s, s');
  }

  /** The top of the backlog is new: it is claimed and will be sent to a loader. */
  ghost predicate Claimed(known: set<ID>, s: Sched, s': Sched) {
    && s.next.None? && s.backlog != []
    && var ln := |s.backlog| - 1;
       var t := s.backlog[ln];
    && t.id !in known && t.id !in s.claimed
    && s' == s.(backlog := s.backlog[..ln], next := Some(t), claimed := s.claimed + {t.id})
  }

  lemma ClaimCounts(roots: seq<ID>, known: set<ID>, s: Sched, s': Sched)
    requires Counted(roots, s) && Claimed(known, s, s')
    ensures Counted(roots, s')
  {
    forall r | 0 <= r < |roots| ensures Outstanding(s', r) == Outstanding(s, r) {
      PopCount(s.backlog, r);
      CountOne(s.backlog[|s.backlog| - 1], r);
    }
  }

  lemma ClaimKeeps(repo: map<ID, Tree>, roots: seq<ID>, known: set<ID>, s: Sched, s': Sched)
    requires Inv(repo, roots, known, s) && Claimed(known, s, s')
    ensures Inv(repo, roots, known, s')
  {
    ClaimCounts(roots, known, s, s');
    PopIds(s.backlog);
    CompleteKept(repo, roots, known, s, s');
    var t := s.backlog[|s.backlog| - 1];
    assert Ids(s'.next.ToSeq()) == [t.id];
    assert multiset(s'.claimed) == multiset(s.claimed) + multiset{t.id};
  }

  lemma SendKeeps(repo: map<ID, Tree>, roots: seq<ID>, known: set<ID>, s: Sched, s': Sched)
    requires Inv(repo, roots, known, s) && s.next.Some?
    requires s' == s.(next := None, inflight := s.inflight + [s.next.value])
    ensures Inv(repo, roots, known, s')
  {
    assert Ids(s'.inflight) == Ids(s.inflight) + Ids([s.next.value]);
    forall r: nat ensures Outstanding(s', r) == Outstanding(s, r) {
      CountConcat(s.inflight, [s.next.value], r);
    }
    CompleteKept(repo, roots, known, s, s');
  }

  /** The subtrees in the order in which they are appended to the backlog: last one first. */
  function Pushed(subtrees: seq<ID>, root: nat): (items: seq<Tracked>)
    ensures forall t :: t in items ==> t.root == root && t.id != NULL_ID && t.id in subtrees
    ensures forall c :: c in subtrees && c != NULL_ID ==> Tracked(c, root) in items
  {
    if subtrees == [] then []
    else Pushed(subtrees[1..], root) + (if subtrees[0] == NULL_ID then [] else [Tracked(subtrees[0], root)])
  }

  lemma {:induction false} CountPushed(subtrees: seq<ID>, root: nat, r: nat)
    ensures Count(Pushed(subtrees, root), r) == if r == root then |Pushed(subtrees, root)| else 0
  {
    if subtrees != [] {
      CountPushed(subtrees[1..], root, r);
      CountConcat(Pushed(subtrees[1..], root), [Tracked(subtrees[0], root)], r);
      CountOne(Tracked(subtrees[0], root), r);
      assert Pushed(subtrees[1..], root) + [] == Pushed(subtrees[1..], root);
    }
  }

  function Found(repo: map<ID, Tree>, t: Tracked): (items: seq<Tracked>) {
    if t.id in repo then Pushed(Subtrees(repo[t.id]), t.root) else []
  }

  /** A loader has returned the tree of the in-flight item `k`. */
  ghost predicate Received(repo: map<ID, Tree>, s: Sched, k: nat, s': Sched)
    requires k < |s.inflight| && s.inflight[k].root < |s.counter| == |s.reports|
  {
    var t := s.inflight[k];
    var counter := s.counter[t.root := s.counter[t.root] - 1 + |Found(repo, t)|];
    s' == s.(inflight := s.inflight[..k] + s.inflight[k + 1..],
             received := s.received + [t.id],
             backlog := s.backlog + Found(repo, t),
             counter := counter,
             reports := Report(s.reports, counter, t.root))
  }

  lemma ReceiveCounts(repo: map<ID, Tree>, roots: seq<ID>, s: Sched, k: nat, s': Sched)
    requires Counted(roots, s) && k < |s.inflight| && s.inflight[k].root < |roots| && Received(repo, s, k, s')
    ensures Counted(roots, s')
  {
    var t := s.inflight[k];
    forall r | 0 <= r < |roots| ensures Outstanding(s', r) == Outstanding(s, r) + (if r ==
      t.root then |Found(repo, t)| - 1 else 0) {
      CountRemove(s.inflight, k, r);
      CountConcat(s.backlog, Found(repo, t), r);
      if t.id in repo { CountPushed(Subtrees(repo[t.id]), t.root, r); }
    }
    CountRemove(s.inflight, k, t.root);
  }

  /** An item with a loader has been claimed. */
  lemma InflightClaimed(s: Sched, k: nat)
    requires Partition(s) && k < |s.inflight|
    ensures s.inflight[k].id in s.claimed
  {
    var id := s.inflight[k].id;
    assert id in multiset(Ids(s.inflight)) by { assert Ids(s.inflight)[k] == id; }
    assert id in multiset(s.claimed);
  }

  lemma ReceiveSound(repo: map<ID, Tree>, roots: seq<ID>, known: set<ID>, s: Sched, k: nat, s': Sched)
    requires Inv(repo, roots, known, s) && k < |s.inflight| && Received(repo, s, k, s')
    ensures Sound(repo, roots, known, s')
  {
    hide Reachable, Found, Partition, Complete;
    var t := s.inflight[k];
    InflightClaimed(s, k);
    forall id | id in Ids(s'.backlog) && id !in known ensures Reachable(repo, roots, known, id) {
      assert Ids(s'.backlog) == Ids(s.backlog) + Ids(Found(repo, t));
      if id in Ids(Found(repo, t)) {
        FoundIsChild(repo, t, id);
        ChildReachable(repo, roots, known, t.id, id);
      }
    }
  }

  lemma FoundIsChild(repo: map<ID, Tree>, t: Tracked, id: ID)
    requires id in Ids(Found(repo, t))
    ensures id in Children(repo, t.id)
  {
  }

  lemma ReceiveComplete(repo: map<ID, Tree>, roots: seq<ID>, known: set<ID>, s: Sched, k: nat, s': Sched)
    requires Inv(repo, roots, known, s) && k < |s.inflight| && Received(repo, s, k, s')
    ensures Complete(repo, roots, known, s')
  {
    hide Sound, Partition, Found, Children;
    var t := s.inflight[k];
    assert Ids(s'.backlog) == Ids(s.backlog) + Ids(Found(repo, t));
    forall p, c | p in s'.received && c in Children(repo, p) ensures Seen(s', known, c) {
      if p in s.received {
        assert Seen(s, known, c);
      } else {
        ChildFound(repo, t, c);
      }
    }
  }

  lemma ChildFound(repo: map<ID, Tree>, t: Tracked, c: ID)
    requires c in Children(repo, t.id)
    ensures c in Ids(Found(repo, t))
  {
    var j :| 0 <= j < |Found(repo, t)| && Found(repo, t)[j] == Tracked(c, t.root);
    assert Ids(Found(repo, t))[j] == c;
  }

  lemma ReceivePartition(repo: map<ID, Tree>, s: Sched, k: nat, s': Sched)
    requires Partition(s) && k < |s.inflight| && s.inflight[k].root < |s.counter| == |s.reports| &&
      Received(repo, s, k, s')
    ensures Partition(s')
  {
    var a := Ids(s.inflight);
    assert a == a[..k] + [a[k]] + a[k + 1..];
    assert Ids(s'.inflight) == a[..k] + a[k + 1..];
  }

  // ---------------------------------------------------------------- the end of a run

  /** When nothing is on the way any more, exactly the reachable trees have been received. */
  lemma DrainedIsReachable(repo: map<ID, Tree>, roots: seq<ID>, known: set<ID>, s: Sched)
    requires Inv(repo, roots, known, s)
    requires s.backlog == [] && s.next.None? && s.inflight == []
    ensures forall id :: id in s.received <==> id in s.claimed
    ensures forall id :: id in s.claimed <==> Reachable(repo, roots, known, id)
  {
    assert multiset(s.received) == multiset(s.claimed);
    forall id ensures id in s.claimed <==> id in s.received {
      assert id in s.received <==> id in multiset(s.received);
    }
    forall id | Reachable(repo, roots, known, id) ensures id in s.claimed {
      var path :| Path(repo, roots, known, path) && path[|path| - 1] == id;
      forall r | r in roots ensures r in known || r in s.claimed {
        assert Seen(s, known, r);
      }
      forall p, c | p in s.claimed && c in Children(repo, p) ensures c in known || c in s.claimed {
        assert Seen(s, known, c);
      }
      ClosedHasPath(repo, roots, known, s.claimed, path);
    }
  }

  /** No tree is received twice, and every root has been reported exactly once. */
  lemma DrainedOnce(repo: map<ID, Tree>, roots: seq<ID>, known: set<ID>, s: Sched)
    requires Inv(repo, roots, known, s)
    requires s.backlog == [] && s.next.None? && s.inflight == []
    ensures forall i, j :: 0 <= i < j < |s.received| ==> s.received[i] != s.received[j]
    ensures |s.reports| == |roots| && forall r :: 0 <= r < |roots| ==> s.reports[r] == 1
  {
    assert multiset(s.received) == multiset(s.claimed);
    forall i, j | 0 <= i < j < |s.received| ensures s.received[i] != s.received[j] {
      if s.received[i] == s.received[j] { TwiceInMultiset(s.received, i, j); }
    }
  }

  lemma TwiceInMultiset(a: seq<ID>, i: nat, j: nat)
    requires i < j < |a| && a[i] == a[j]
    ensures multiset(a)[a[i]] >= 2
  {
    assert a == a[..i] + [a[i]] + a[i + 1..j] + [a[j]] + a[j + 1..];
  }

  lemma ReceiveKeeps(repo: map<ID, Tree>, roots: seq<ID>, known: set<ID>, s: Sched, k: nat, s': Sched)
    requires Inv(repo, roots, known, s) && k < |s.inflight| && Received(repo, s, k, s')
    ensures Inv(repo, roots, known, s')
  {
    ReceiveCounts(repo, roots, s, k, s');
    ReceiveSound(repo, roots, known, s, k, s');
    ReceiveComplete(repo, roots, known, s, k, s');
    ReceivePartition(repo, s, k, s');
  }

  // ---------------------------------------------------------------- the select loop

  function TreesIn(blobs: set<BlobHandle>): (ids: set<ID>) {
    set h | h in blobs && h.TreeBlob? :: h.id
  }

  function TreeHandles(ids: set<ID>): (blobs: set<BlobHandle>) {
    set id | id in ids :: TreeBlob(id)
  }

  /** Everything the trees named in `ids` need: the data blobs of their files. */
  function DataOf(repo: map<ID, Tree>, ids: seq<ID>): (blobs: set<BlobHandle>) {
    set id, h | id in ids && id in repo && h in Contents(repo[id]) :: h
  }

  ghost function Universe(repo: map<ID, Tree>, roots: seq<ID>): set<ID> {
    (set r | r in roots) + (set id, c | id in repo && c in Children(repo, id) :: c)
  }

  lemma {:induction false} ReachableInUniverse(repo: map<ID, Tree>, roots: seq<ID>, known: set<ID>, id: ID)
    requires Reachable(repo, roots, known, id)
    ensures id in Universe(repo, roots)
  {
    var path :| Path(repo, roots, known, path) && path[|path| - 1] == id;
    if |path| > 1 { assert id in Children(repo, path[|path| - 2]); }
  }

  /** Puts the roots on the backlog, each counted once. */
  method InitBacklog(trees: seq<ID>) returns (backlog: seq<Tracked>, counter: seq<int>)
    ensures |backlog| == |counter| == |trees|
    ensures forall i :: 0 <= i < |trees| ==> backlog[i] == Tracked(trees[i], i) && counter[i] == 1
  {
    backlog, counter := [], [];
    for idx := 0 to |trees|
      invariant |backlog| == |counter| == idx
      invariant forall i :: 0 <= i < idx ==> backlog[i] == Tracked(trees[i], i) && counter[i] == 1
    {
      backlog := backlog + [Tracked(trees[idx], idx)];
      counter := counter + [1];
    }
  }

  /** Appends the subtrees of a loaded tree to the backlog, last one first. */
  method PushSubtrees(subtrees: seq<ID>, root: nat, backlog0: seq<Tracked>, count0: int)
    returns (backlog: seq<Tracked>, count: int)
    ensures backlog == backlog0 + Pushed(subtrees, root)
    ensures count == count0 + |Pushed(subtrees, root)|
  {
    backlog, count := backlog0, count0;
    var i := |subtrees|;
    while i > 0
      invariant 0 <= i <= |subtrees|
      invariant backlog == backlog0 + Pushed(subtrees[i..], root)
      invariant count == count0 + |Pushed(subtrees[i..], root)|
    {
      i := i - 1;
      assert subtrees[i..][1..] == subtrees[i + 1..];
      if subtrees[i] != NULL_ID {
        backlog := backlog + [Tracked(subtrees[i], root)];
        count := count + 1;
      }
    }
    assert subtrees[0..] == subtrees;
  }

  /** A tree that could not be loaded has no subtrees to push. */
  method PushFound(repo: map<ID, Tree>, t: Tracked, backlog0: seq<Tracked>, count0: int)
    returns (backlog: seq<Tracked>, count: int)
    ensures backlog == backlog0 + Found(repo, t)
    ensures count == count0 + |Found(repo, t)|
  {
    backlog, count := backlog0, count0;
    if t.id in repo {
      backlog, count := PushSubtrees(Subtrees(repo[t.id]), t.root, backlog, count);
    }
  }

  lemma {:induction false} CountRoots(backlog: seq<Tracked>, r: nat)
    requires forall i :: 0 <= i < |backlog| ==> backlog[i].root == i
    ensures Count(backlog, r) == if r < |backlog| then 1 else 0
  {
    if backlog != [] {
      PopCount(backlog, r);
      CountRoots(backlog[..|backlog| - 1], r);
    }
  }

  lemma InitInv(repo: map<ID, Tree>, roots: seq<ID>, known: set<ID>, s: Sched)
    requires s.next.None? && s.inflight == [] && s.received == [] && s.claimed == {}
    requires |s.backlog| == |s.counter| == |s.reports| == |roots|
    requires forall i :: 0 <= i < |roots| ==>
      s.backlog[i] == Tracked(roots[i], i) && s.counter[i] == 1 && s.reports[i] == 0
    ensures Inv(repo, roots, known, s)
  {
    assert Ids(s.backlog) == roots;
    forall r | 0 <= r < |roots| ensures Outstanding(s, r) == 1 { CountRoots(s.backlog, r); }
    forall id | id in Ids(s.backlog) && id !in known ensures Reachable(repo, roots, known, id) {
      RootReachable(repo, roots, known, id);
    }
  }

  /** What the caller of FindUsedBlobs gets when all trees could be loaded. */
  ghost predicate UsedBlobs(repo: map<ID, Tree>, roots: seq<ID>, blobs0: set<BlobHandle>, blobs: set<BlobHandle>) {
    var known := TreesIn(blobs0);
    forall h :: h in blobs <==>
      || h in blobs0
      || (h.TreeBlob? && Reachable(repo, roots, known, h.id))
      || (h.DataBlob? && exists id :: id in repo && Reachable(repo, roots, known, id) && h in Contents(repo[id]))
  }

  lemma FinalBlobs(repo: map<ID, Tree>, roots: seq<ID>, blobs0: set<BlobHandle>, blobs: set<BlobHandle>,
                   claimed: set<ID>, emitted: seq<ID>)
    requires blobs == blobs0 + TreeHandles(claimed) + DataOf(repo, emitted)
    requires forall id :: id in emitted <==> id in claimed
    requires forall id :: id in claimed <==> Reachable(repo, roots, TreesIn(blobs0), id)
    ensures UsedBlobs(repo, roots, blobs0, blobs)
  {
    var known := TreesIn(blobs0);
    forall h ensures h in DataOf(repo, emitted) <==>
        (h.DataBlob? && exists id :: id in repo && Reachable(repo, roots, known, id) && h in Contents(repo[id]))
    {
      if h in DataOf(repo, emitted) {
        var id :| id in emitted && id in repo && h in Contents(repo[id]);
      }
      if h.DataBlob? && exists id :: id in repo && Reachable(repo, roots, known, id) && h in Contents(repo[id]) {
        var id :| id in repo && Reachable(repo, roots, known, id) && h in Contents(repo[id]);
        assert id in emitted;
      }
    }
  }

  lemma ContentsAre(repo: map<ID, Tree>, id: ID, b: ID)
    requires id in repo
    ensures DataBlob(b) in Contents(repo[id]) <==> exists i: nat, k: nat :: FileHas(repo, id, i, k, b)
  {
    if DataBlob(b) in Contents(repo[id]) {
      var n :| n in repo[id] && n.File? && b in n.content;
      var i: nat :| i < |repo[id]| && repo[id][i] == n;
      var k: nat :| k < |n.content| && n.content[k] == b;
      assert FileHas(repo, id, i, k, b);
    }
    if exists i: nat, k: nat :: FileHas(repo, id, i, k, b) {
      var i: nat, k: nat :| FileHas(repo, id, i, k, b);
      assert repo[id][i] in repo[id] && b in repo[id][i].content;
    }
  }

  /** The result in terms of the nodes. */
  lemma UsedBlobsAre(repo: map<ID, Tree>, roots: seq<ID>, blobs0: set<BlobHandle>, blobs: set<BlobHandle>)
    requires UsedBlobs(repo, roots, blobs0, blobs)
    ensures forall id :: TreeBlob(id) in blobs <==> TreeBlob(id) in blobs0 || UsedTree(repo, roots, blobs0, id)
    ensures forall b :: DataBlob(b) in blobs <==> DataBlob(b) in blobs0 || UsedData(repo, roots, blobs0, b)
  {
    hide Reachable, UsedTree, Contents, FileHas;
    forall id ensures UsedTree(repo, roots, blobs0, id) <==> Reachable(repo, roots, TreesIn(blobs0), id) {
      UsedIsReachable(repo, roots, blobs0, id);
    }
    forall b ensures DataBlob(b) in blobs <==> DataBlob(b) in blobs0 || UsedData(repo, roots, blobs0, b) {
      DataIsUsed(repo, roots, blobs0, b);
    }
  }

  lemma DataIsUsed(repo: map<ID, Tree>, roots: seq<ID>, blobs0: set<BlobHandle>, b: ID)
    ensures UsedData(repo, roots, blobs0, b) <==>
      exists id :: id in repo && Reachable(repo, roots, TreesIn(blobs0), id) && DataBlob(b) in Contents(repo[id])
  {
    hide Reachable, UsedTree, Contents;
    forall id ensures UsedTree(repo, roots, blobs0, id) <==> Reachable(repo, roots, TreesIn(blobs0), id) {
      UsedIsReachable(repo, roots, blobs0, id);
    }
    forall id | id in repo
      ensures DataBlob(b) in Contents(repo[id]) <==> exists i: nat, k: nat :: FileHas(repo, id, i, k, b)
    {
      ContentsAre(repo, id, b);
    }
  }

  /** The set of blobs answers for trees exactly what is known or claimed. */
  lemma HandleSeen(repo: map<ID, Tree>, blobs0: set<BlobHandle>, claimed: set<ID>, emitted: seq<ID>, id: ID)
    ensures TreeBlob(id) in blobs0 + TreeHandles(claimed) + DataOf(repo, emitted) <==>
      id in TreesIn(blobs0) || id in claimed
    ensures TreeHandles(claimed + {id}) == TreeHandles(claimed) + {TreeBlob(id)}
  {
    assert TreeBlob(id) in blobs0 ==> id in TreesIn(blobs0);
  }

  lemma RootsInRange(repo: map<ID, Tree>, roots: seq<ID>, known: set<ID>, s: Sched, t: Tracked)
    requires Inv(repo, roots, known, s) && (t in s.backlog || t in s.inflight)
    ensures t.root < |s.counter| == |s.reports|
  {
  }

  lemma ReceivedIsReachable(repo: map<ID, Tree>, roots: seq<ID>, known: set<ID>, s: Sched, id: ID)
    requires Inv(repo, roots, known, s) && id in s.received
    ensures Reachable(repo, roots, known, id)
  {
    assert id in multiset(s.received);
    assert id in multiset(s.claimed);
  }

  lemma ClaimShrinks(repo: map<ID, Tree>, roots: seq<ID>, known: set<ID>, s: Sched, id: ID)
    requires Inv(repo, roots, known, s) && id in Ids(s.backlog) && id !in known && id !in s.claimed
    ensures |Universe(repo, roots) - (s.claimed + {id})| < |Universe(repo, roots) - s.claimed|
  {
    ReachableInUniverse(repo, roots, known, id);
    var rest := Universe(repo, roots) - s.claimed;
    assert rest == (Universe(repo, roots) - (s.claimed + {id})) + {id};
  }

  /** Inserts the data blobs of all file nodes. */
  method CollectContents(tree: Tree, blobs0: set<BlobHandle>) returns (blobs: set<BlobHandle>)
    ensures blobs == blobs0 + Contents(tree)
  {
    blobs := blobs0;
    for i := 0 to |tree|
      invariant blobs == blobs0 + Contents(tree[..i])
    {
      ContentsNext(tree, i);
      if tree[i].File? {
        var node := tree[i];
        ghost var before := blobs;
        for k := 0 to |node.content|
          invariant blobs == before + (set b | b in node.content[..k] :: DataBlob(b))
        {
          assert node.content[..k + 1] == node.content[..k] + [node.content[k]];
          blobs := blobs + {DataBlob(node.content[k])};
        }
        assert node.content[..|node.content|] == node.content;
      }
    }
    assert tree[..|tree|] == tree;
  }

  lemma ContentsNext(tree: Tree, i: nat)
    requires i < |tree|
    ensures Contents(tree[..i + 1]) ==
      Contents(tree[..i]) + if tree[i].File? then (set b | b in tree[i].content :: DataBlob(b)) else {}
  {
    assert tree[..i + 1] == tree[..i] + [tree[i]];
  }

  /** The variables of filterTrees, its loaders and the goroutine that collects data blobs. */
  class Stream {
    const repo: map<ID, Tree>
    const roots: seq<ID>
    ghost const blobs0: set<BlobHandle>

    var backlog: seq<Tracked>
    var counter: seq<int>
    var next: Option<Tracked>     // waiting for a loader: loadCh is not nil
    var inflight: seq<Tracked>    // with the loaders, which may finish in any order
    var out: Option<ID>           // waiting for the consumer: outCh is not nil and inCh is nil
    var consuming: Option<ID>     // taken from the stream, data blobs not collected yet
    var blobs: set<BlobHandle>    // shared between skip and the consumer
    var emitted: seq<ID>          // the trees the consumer is done with
    var reports: seq<nat>
    ghost var received: seq<ID>
    ghost var claimed: set<ID>

    ghost function State(): Sched reads this {
      Sched(backlog, next, inflight, received, claimed, counter, reports)
    }

    ghost predicate Valid() reads this {
      && Inv(repo, roots, TreesIn(blobs0), State())
      && received == emitted + consuming.ToSeq() + out.ToSeq()
      && blobs == blobs0 + TreeHandles(claimed) + DataOf(repo, emitted)
      && forall id :: id in emitted ==> id in repo
    }

    /** Trees that may still be claimed. */
    ghost function Unclaimed(): nat reads this {
      |Universe(repo, roots) - claimed|
    }

    /** The steps still to be made by the trees on their way through the stream. */
    ghost function Stages(): nat reads this {
      4 * |next.ToSeq()| + 3 * |inflight| + 2 * |out.ToSeq()| + |consuming.ToSeq()|
    }

    constructor (repo: map<ID, Tree>, roots: seq<ID>, blobs0: set<BlobHandle>)
      ensures Valid() && this.repo == repo && this.roots == roots && this.blobs0 == blobs0
    {
      var backlog, counter := InitBacklog(roots);
      this.repo, this.roots, this.blobs0 := repo, roots, blobs0;
      this.backlog, this.counter := backlog, counter;
      next, inflight, out, consuming := None, [], None, None;
      blobs, emitted, reports := blobs0, [], seq(|roots|, _ => 0);
      received, claimed := [], {};
      new;
      InitInv(repo, roots, TreesIn(blobs0), State());
    }

    /** skip returned true for the newest item of the backlog. */
    method Drop()
      requires Valid() && next.None? && backlog != [] && TreeBlob(backlog[|backlog| - 1].id) in blobs
      modifies this
      ensures Valid() && Skipped(TreesIn(blobs0), old(State()), State())
      ensures Unclaimed() == old(Unclaimed()) && Stages() == old(Stages()) && |backlog| < old(|backlog|)
    {
      hide Inv, TreesIn, TreeHandles, DataOf;
      ghost var s := State();
      var ln := |backlog| - 1;
      var t := backlog[ln];
      HandleSeen(repo, blobs0, claimed, emitted, t.id);
      RootsInRange(repo, roots, TreesIn(blobs0), s, t);
      backlog := backlog[..ln];
      counter := counter[t.root := counter[t.root] - 1];
      reports := Report(reports, counter, t.root);
      SkipKeeps(repo, roots, TreesIn(blobs0), s, State());
    }

    /** skip returned false for the newest item of the backlog and remembers its tree. */
    method Claim()
      requires Valid() && next.None? && backlog != [] && TreeBlob(backlog[|backlog| - 1].id) !in blobs
      modifies this
      ensures Valid() && Claimed(TreesIn(blobs0), old(State()), State())
      ensures Unclaimed() < old(Unclaimed())
    {
      hide Inv, Universe, TreesIn, TreeHandles, DataOf;
      ghost var s := State();
      var ln := |backlog| - 1;
      var t := backlog[ln];
      HandleSeen(repo, blobs0, claimed, emitted, t.id);
      assert Ids(backlog)[ln] == t.id;
      ClaimShrinks(repo, roots, TreesIn(blobs0), s, t.id);
      blobs := blobs + {TreeBlob(t.id)};
      claimed := claimed + {t.id};
      next, backlog := Some(t), backlog[..ln];
      ClaimKeeps(repo, roots, TreesIn(blobs0), s, State());
    }

    method Send()
      requires Valid() && next.Some?
      modifies this
      ensures Valid() && State() == old(State()).(next := None, inflight := old(inflight) + [old(next).value])
      ensures Unclaimed() == old(Unclaimed()) && Stages() < old(Stages())
    {
      ghost var s := State();
      hide Inv;
      inflight, next := inflight + [next.value], None;
      SendKeeps(repo, roots, TreesIn(blobs0), s, State());
    }

    /** Receives the tree of some in-flight item from a loader. */
    method Receive() returns (k: nat)
      requires Valid() && out.None? && inflight != []
      modifies this
      ensures k < old(|inflight|) && old(inflight)[k].root < old(|counter|) == old(|reports|)
      ensures Valid() && Received(repo, old(State()), k, State()) && out == Some(old(inflight)[k].id)
      ensures Unclaimed() == old(Unclaimed()) && Stages() < old(Stages())
    {
      hide Inv, Universe, DataOf, TreesIn, TreeHandles, Found;
      ghost var s := State();
      k :| 0 <= k < |inflight|;
      var t := inflight[k];
      RootsInRange(repo, roots, TreesIn(blobs0), s, t);
      inflight := inflight[..k] + inflight[k + 1..];
      var items, count := PushFound(repo, t, backlog, counter[t.root] - 1);
      backlog, counter := items, counter[t.root := count];
      reports := Report(reports, counter, t.root);
      out := Some(t.id);
      received := received + [t.id];
      ReceiveKeeps(repo, roots, TreesIn(blobs0), s, k, State());
    }

    method Deliver()
      requires Valid() && out.Some? && consuming.None?
      modifies this
      ensures Valid() && State() == old(State()) && consuming == old(out) && out.None?
      ensures Unclaimed() == old(Unclaimed()) && Stages() < old(Stages())
    {
      hide Inv;
      consuming, out := out, None;
    }

    /** The consumer collects the data blobs of a tree, or gives up on a tree with an error. */
    method Consume() returns (ok: bool)
      requires Valid() && consuming.Some?
      modifies this
      ensures Valid() && State() == old(State())
      ensures ok <==> old(consuming.value) in repo
      ensures ok ==> emitted == old(emitted) + [old(consuming.value)] && consuming.None?
      ensures Unclaimed() == old(Unclaimed())
      ensures ok ==> Stages() < old(Stages())
    {
      hide Inv;
      ok := consuming.value in repo;
      if ok {
        blobs := CollectContents(repo[consuming.value], blobs);
        emitted, consuming := emitted + [consuming.value], None;
      }
    }
  }

  /** FindUsedBlobs over StreamTrees, with up to `workers` trees being loaded at a time.  The scheduler
      takes from its backlog before it selects, the select picks any of its ready cases, and the consumer
      goes on at any time in between; one of them can always go on, and the loop ends on every schedule.
      `emitted` is the stream of trees, `reports` how often each root's progress was reported. */
  method FindUsedBlobs(repo: map<ID, Tree>, treeIDs: seq<ID>, blobs0: set<BlobHandle>, workers: nat)
    returns (ok: bool, blobs: set<BlobHandle>, emitted: seq<ID>, reports: seq<nat>)
    requires workers > 0
    ensures ok <==> forall id :: UsedTree(repo, treeIDs, blobs0, id) ==> id in repo
    ensures ok ==> forall id :: TreeBlob(id) in blobs <==> TreeBlob(id) in blobs0 || UsedTree(repo, treeIDs, blobs0, id)
    ensures ok ==> forall b :: DataBlob(b) in blobs <==> DataBlob(b) in blobs0 || UsedData(repo, treeIDs, blobs0, b)
    ensures ok ==> forall id :: id in emitted <==> UsedTree(repo, treeIDs, blobs0, id)
    ensures ok ==> forall i, j :: 0 <= i < j < |emitted| ==> emitted[i] != emitted[j]
    ensures ok ==> |reports| == |treeIDs| && forall r :: 0 <= r < |reports| ==> reports[r] == 1
  {
    hide Inv, Reachable, UsedBlobs, TreesIn, TreeHandles, DataOf, UsedTree, UsedData;
    forall id ensures UsedTree(repo, treeIDs, blobs0, id) <==> Reachable(repo, treeIDs, TreesIn(blobs0), id) {
      UsedIsReachable(repo, treeIDs, blobs0, id);
    }
    var s := new Stream(repo, treeIDs, blobs0);
    while s.backlog != [] || s.next.Some? || s.out.Some? || s.inflight != [] || s.consuming.Some?
      invariant s.Valid()
      decreases s.Unclaimed(), s.Stages(), |s.backlog|
    {
      if {
        case s.next.None? && s.backlog != [] =>
          if TreeBlob(s.backlog[|s.backlog| - 1].id) in s.blobs { s.Drop(); } else { s.Claim(); }
        case s.next.Some? && |s.inflight| < workers => s.Send();
        case (s.next.Some? || s.backlog == []) && s.out.None? && s.inflight != [] => var _ := s.Receive();
        case (s.next.Some? || s.backlog == []) && s.out.Some? && s.consuming.None? => s.Deliver();
        case s.consuming.Some? =>
          ghost var id := s.consuming.value;
          assert id in s.received;
          ok := s.Consume();
          if !ok {
            ReceivedIsReachable(repo, treeIDs, TreesIn(blobs0), s.State(), id);
            return false, s.blobs, s.emitted, s.reports;
          }
      }
    }
    ok, blobs, emitted, reports := true, s.blobs, s.emitted, s.reports;
    assert s.received == emitted;
    DrainedIsReachable(repo, treeIDs, TreesIn(blobs0), s.State());
    DrainedOnce(repo, treeIDs, TreesIn(blobs0), s.State());
    FinalBlobs(repo, treeIDs, blobs0, blobs, s.claimed, emitted);
    UsedBlobsAre(repo, treeIDs, blobs0, blobs);
  }
}
