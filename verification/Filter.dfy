/** Include and exclude patterns: `**` expansion, directory pruning and ordered lists with negation.
    The component matcher (filepath.Match) is an arbitrary function that may report a bad pattern. */
module Filter {

  datatype Result = Ok(matched: bool) | BadPattern

  type Glob = (string, string) -> Result

  /** `pattern` is "" for "**"; the first part of an absolute pattern is "/". */
  datatype Part = Part(pattern: string, isSimple: bool) {
    predicate Wild() { pattern == "" }
  }

  const STAR := Part("*", false)

  datatype Pattern = Pattern(parts: seq<Part>, negated: bool)

  function MatchPart(g: Glob, part: Part, s: string): (r: Result) {
    if part.isSimple then Ok(part.pattern == s) else g(part.pattern, s)
  }

  // ---------------------------------------------------------------- match as it is computed

  /** Compares the first `n` parts, last one first, with the path from `offset` on. */
  function Window(g: Glob, parts: seq<Part>, strs: seq<string>, offset: nat, n: nat): (r: Result)
    requires n <= |parts| && offset + n <= |strs|
  {
    if n == 0 then Ok(true)
    else
      var r := MatchPart(g, parts[n - 1], strs[offset + n - 1]);
      if r != Ok(true) then r else Window(g, parts, strs, offset, n - 1)
  }

  /** Tries the windows from `offset` down to `minOffset`. */
  function Windows(g: Glob, parts: seq<Part>, strs: seq<string>, minOffset: nat, offset: int): (r: Result)
    requires offset + |parts| <= |strs|
    decreases offset + 1
  {
    if offset < minOffset then Ok(false)
    else
      var r := Window(g, parts, strs, offset, |parts|);
      if r != Ok(false) then r else Windows(g, parts, strs, minOffset, offset - 1)
  }

  predicate Absolute(parts: seq<Part>) {
    parts != [] && parts[0].pattern == "/"
  }

  function MinOffset(parts: seq<Part>, strs: seq<string>): (n: nat) {
    if !Absolute(parts) && strs != [] && strs[0] == "/" then 1 else 0
  }

  function MaxOffset(parts: seq<Part>, strs: seq<string>): (n: nat)
    requires |parts| <= |strs|
  {
    if Absolute(parts) then 0 else |strs| - |parts|
  }

  /** match for a pattern without "**". */
  function Plain(g: Glob, parts: seq<Part>, strs: seq<string>): (r: Result) {
    if parts == [] then Ok(strs == [])
    else if |parts| <= |strs| then Windows(g, parts, strs, MinOffset(parts, strs), MaxOffset(parts, strs))
    else Ok(false)
  }

  /** The position of the first "**", or the number of parts. */
  function FirstWild(parts: seq<Part>): (pos: nat)
    ensures pos <= |parts|
    ensures pos < |parts| ==> parts[pos].Wild()
    ensures forall i :: 0 <= i < pos ==> !parts[i].Wild()
  {
    if parts == [] || parts[0].Wild() then 0 else 1 + FirstWild(parts[1..])
  }

  function Wilds(parts: seq<Part>): (n: nat) {
    if parts == [] then 0 else (if parts[0].Wild() then 1 else 0) + Wilds(parts[1..])
  }

  function Stars(k: nat): (s: seq<Part>)
    ensures |s| == k && forall i :: 0 <= i < k ==> s[i] == STAR
  {
    seq(k, _ => STAR)
  }

  /** The "**" at `pos` replaced by `k` single stars. */
  function Expansion(parts: seq<Part>, pos: nat, k: nat): (r: seq<Part>)
    requires pos < |parts|
    ensures |r| == |parts| - 1 + k
  {
    parts[..pos] + Stars(k) + parts[pos + 1..]
  }

  lemma {:induction false} WildsConcat(a: seq<Part>, b: seq<Part>)
    ensures Wilds(a + b) == Wilds(a) + Wilds(b)
  {
    if a == [] {
      assert a + b == b;
    } else {
      assert (a + b)[1..] == a[1..] + b;
      WildsConcat(a[1..], b);
    }
  }

  lemma {:induction false} NoWilds(a: seq<Part>)
    requires forall i :: 0 <= i < |a| ==> !a[i].Wild()
    ensures Wilds(a) == 0
  {
    if a != [] { NoWilds(a[1..]); }
  }

  lemma OneWild(p: Part)
    requires p.Wild()
    ensures Wilds([p]) == 1
  {
  }

  lemma WildsAfterFirst(parts: seq<Part>)
    requires FirstWild(parts) < |parts|
    ensures Wilds(parts) == 1 + Wilds(parts[FirstWild(parts) + 1..])
  {
    hide Wilds, FirstWild;
    var pos := FirstWild(parts);
    var head, tail := parts[..pos], parts[pos + 1..];
    NoWilds(head);
    OneWild(parts[pos]);
    WildsConcat(head, [parts[pos]]);
    WildsConcat(head + [parts[pos]], tail);
    assert parts == head + [parts[pos]] + tail;
  }

  lemma WildsOfExpansion(parts: seq<Part>, k: nat)
    requires FirstWild(parts) < |parts|
    ensures Wilds(parts) == 1 + Wilds(parts[FirstWild(parts) + 1..])
    ensures Wilds(Expansion(parts, FirstWild(parts), k)) == Wilds(parts) - 1
  {
    hide Wilds, FirstWild, Stars;
    var pos := FirstWild(parts);
    var head, tail := parts[..pos], parts[pos + 1..];
    NoWilds(head);
    NoWilds(Stars(k));
    WildsConcat(head, Stars(k));
    WildsConcat(head + Stars(k), tail);
    WildsAfterFirst(parts);
  }

  /** match: a "**" is expanded to none, one, two, ... stars, as long as the pattern is not too long,
      which counts every further "**" as one component. */
  function Match(g: Glob, parts: seq<Part>, strs: seq<string>): (r: Result)
    decreases Wilds(parts), 1, 0
  {
    if FirstWild(parts) < |parts| then Expand(g, parts, strs, 0) else Plain(g, parts, strs)
  }

  function Expand(g: Glob, parts: seq<Part>, strs: seq<string>, i: nat): (r: Result)
    requires FirstWild(parts) < |parts|
    decreases Wilds(parts), 0, |strs| + 2 - i
  {
    if i > |strs| - |parts| + 1 then Ok(false)
    else
      WildsOfExpansion(parts, i);
      var r := Match(g, Expansion(parts, FirstWild(parts), i), strs);
      if r != Ok(false) then r else Expand(g, parts, strs, i + 1)
  }

  // ---------------------------------------------------------------- what a pattern means

  /** A part describes a component: by itself if it is simple, else by the component matcher. */
  predicate PartFits(g: Glob, part: Part, s: string) {
    (part.isSimple && part.pattern == s) || (!part.isSimple && g(part.pattern, s) == Ok(true))
  }

  /** Every part describes its component of the path from `offset` on. */
  ghost predicate Fits(g: Glob, parts: seq<Part>, strs: seq<string>, offset: nat) {
    && offset + |parts| <= |strs|
    && forall i :: 0 <= i < |parts| ==> PartFits(g, parts[i], strs[offset + i])
  }

  /** Absolute patterns match at the root of the path only, others anywhere below it. */
  predicate Allowed(parts: seq<Part>, strs: seq<string>, offset: nat) {
    if parts != [] && parts[0].pattern == "/" then offset == 0
    else strs != [] && strs[0] == "/" ==> offset >= 1
  }

  ghost predicate PlainMatches(g: Glob, parts: seq<Part>, strs: seq<string>) {
    if parts == [] then strs == []
    else exists offset: nat :: Allowed(parts, strs, offset) && Fits(g, parts, strs, offset)
  }

  /** All "**" replaced, the first one by ks[0] stars and so on. */
  function Expanded(parts: seq<Part>, ks: seq<nat>): (r: seq<Part>)
    requires |ks| == Wilds(parts)
    decreases |ks|
  {
    if ks == [] then parts
    else
      HasWild(parts);
      WildsOfExpansion(parts, ks[0]);
      Expanded(Expansion(parts, FirstWild(parts), ks[0]), ks[1..])
  }

  lemma {:induction false} HasWild(parts: seq<Part>)
    ensures Wilds(parts) > 0 <==> FirstWild(parts) < |parts|
  {
    if FirstWild(parts) == |parts| { NoWilds(parts); } else { WildsOfExpansion(parts, 0); }
  }

  /** The meaning of a pattern: some expansion of its "**" matches. */
  ghost predicate Meaning(g: Glob, parts: seq<Part>, strs: seq<string>) {
    exists ks :: |ks| == Wilds(parts) && PlainMatches(g, Expanded(parts, ks), strs)
  }

  /** The same from left to right, without looking for the first "**". */
  function Replaced(parts: seq<Part>, ks: seq<nat>): (r: seq<Part>) {
    if parts == [] then []
    else if parts[0].pattern != "" then [parts[0]] + Replaced(parts[1..], ks)
    else if ks == [] then []
    else seq(ks[0], _ => Part("*", false)) + Replaced(parts[1..], ks[1..])
  }

  lemma FirstWildAfter(prefix: seq<Part>, rest: seq<Part>)
    requires (forall i :: 0 <= i < |prefix| ==> !prefix[i].Wild()) && FirstWild(rest) < |rest|
    ensures FirstWild(prefix + rest) == |prefix| + FirstWild(rest)
  {
    hide FirstWild;
    WildAt(prefix + rest, |prefix| + FirstWild(rest));
  }

  /** Parts in front without "**" stay in front. */
  lemma {:induction false} ExpandedAfter(prefix: seq<Part>, rest: seq<Part>, ks: seq<nat>)
    requires (forall i :: 0 <= i < |prefix| ==> !prefix[i].Wild()) && |ks| == Wilds(rest)
    ensures Wilds(prefix + rest) == Wilds(rest) && Expanded(prefix + rest, ks) == prefix + Expanded(rest, ks)
    decreases |ks|
  {
    hide Wilds, Expanded, FirstWild;
    WildsConcat(prefix, rest);
    NoWilds(prefix);
    ExpandedStep(rest, ks);
    ExpandedStep(prefix + rest, ks);
    if ks != [] {
      var pos := FirstWild(rest);
      FirstWildAfter(prefix, rest);
      var once := Expansion(rest, pos, ks[0]);
      assert Expansion(prefix + rest, |prefix| + pos, ks[0]) == prefix + once;
      ExpandedAfter(prefix, once, ks[1..]);
    }
  }

  lemma {:induction false} ExpandedIs(parts: seq<Part>, ks: seq<nat>)
    requires |ks| == Wilds(parts)
    ensures Expanded(parts, ks) == Replaced(parts, ks)
    decreases |parts|
  {
    hide Expanded, FirstWild;
    ExpandedStep(parts, ks);
    if parts != [] {
      var rest := parts[1..];
      if parts[0].Wild() {
        WildAt(parts, 0);
        assert Expansion(parts, 0, ks[0]) == Stars(ks[0]) + rest;
        ExpandedAfter(Stars(ks[0]), rest, ks[1..]);
        ExpandedIs(rest, ks[1..]);
      } else {
        assert parts == [parts[0]] + rest;
        ExpandedAfter([parts[0]], rest, ks);
        ExpandedIs(rest, ks);
      }
    }
  }

  function Sum(ks: seq<nat>): (n: nat) {
    if ks == [] then 0 else ks[0] + Sum(ks[1..])
  }

  /** What the first `j` of the "**" take together. */
  function Taken(ks: seq<nat>, j: nat): (n: nat)
    requires j <= |ks|
  {
    Sum(ks[..j])
  }

  /** The expansions that match tries: the first j "**" together may not take more components than are
      left when each of the other parts, including the other "**", takes one. */
  ghost predicate Tried(parts: seq<Part>, strs: seq<string>, ks: seq<nat>) {
    |ks| == Wilds(parts) && Bounded(ks, |strs| - |parts|)
  }

  ghost predicate Bounded(ks: seq<nat>, slack: int) {
    forall j :: 0 < j <= |ks| ==> Taken(ks, j) <= slack + j
  }

  // ---------------------------------------------------------------- match finds what it tries

  lemma {:induction false} WindowFits(g: Glob, parts: seq<Part>, strs: seq<string>, offset: nat, n: nat)
    requires n <= |parts| && offset + n <= |strs|
    ensures Window(g, parts, strs, offset, n) == Ok(true) <==>
            forall i :: 0 <= i < n ==> MatchPart(g, parts[i], strs[offset + i]) == Ok(true)
  {
    if n > 0 { WindowFits(g, parts, strs, offset, n - 1); }
  }

  lemma {:induction false} WindowsFit(g: Glob, parts: seq<Part>, strs: seq<string>, minOffset: nat, offset: int)
    requires offset + |parts| <= |strs|
    ensures Windows(g, parts, strs, minOffset, offset) == Ok(true) ==>
      exists o: nat :: minOffset <= o <= offset && Fits(g, parts, strs, o)
    ensures Windows(g, parts, strs, minOffset, offset) == Ok(false) ==> forall o: nat :: minOffset <= o <= offset ==>
      !Fits(g, parts, strs, o)
    decreases offset + 1
  {
    if offset >= minOffset {
      WindowFits(g, parts, strs, offset, |parts|);
      assert Fits(g, parts, strs, offset) <==> Window(g, parts, strs, offset, |parts|) == Ok(true);
      WindowsFit(g, parts, strs, minOffset, offset - 1);
    }
  }

  /** Without "**": a match is a match, and a mismatch that is no error is a mismatch. */
  lemma PlainExact(g: Glob, parts: seq<Part>, strs: seq<string>)
    ensures Plain(g, parts, strs) == Ok(true) ==> PlainMatches(g, parts, strs)
    ensures Plain(g, parts, strs) == Ok(false) ==> !PlainMatches(g, parts, strs)
  {
    if parts != [] && |parts| <= |strs| {
      WindowsFit(g, parts, strs, MinOffset(parts, strs), MaxOffset(parts, strs));
    }
  }

  lemma SumSplit(ks: seq<nat>, j: nat)
    requires 0 < j <= |ks|
    ensures Taken(ks, j) == ks[0] + Taken(ks[1..], j - 1)
  {
    assert ks[..j][1..] == ks[1..][..j - 1];
  }

  lemma BoundedStep(ks: seq<nat>, slack: int)
    requires ks != []
    ensures Bounded(ks, slack) <==> ks[0] <= slack + 1 && Bounded(ks[1..], slack + 1 - ks[0])
  {
    hide Taken;
    forall j | 0 < j <= |ks| ensures Taken(ks, j) == ks[0] + Taken(ks[1..], j - 1) {
      SumSplit(ks, j);
    }
    NothingTaken(ks[1..]);
    if Bounded(ks, slack) {
      assert Taken(ks, 1) <= slack + 1;
      forall j | 0 < j <= |ks[1..]| ensures Taken(ks[1..], j) <= slack + 1 - ks[0] + j {
        assert Taken(ks, j + 1) <= slack + j + 1;
      }
    }
  }

  lemma NothingTaken(ks: seq<nat>)
    ensures Taken(ks, 0) == 0
  {
  }

  /** Trying the expansions one "**" at a time. */
  lemma TriedStep(parts: seq<Part>, strs: seq<string>, ks: seq<nat>)
    requires |ks| == Wilds(parts) && ks != []
    ensures FirstWild(parts) < |parts|
    ensures Wilds(Expansion(parts, FirstWild(parts), ks[0])) == |ks| - 1
    ensures Tried(parts, strs, ks) <==>
            ks[0] <= |strs| - |parts| + 1 && Tried(Expansion(parts, FirstWild(parts), ks[0]), strs, ks[1..])
  {
    hide Bounded, Wilds, FirstWild, Expansion;
    HasWild(parts);
    WildsOfExpansion(parts, ks[0]);
    var parts', slack := Expansion(parts, FirstWild(parts), ks[0]), |strs| - |parts|;
    assert |strs| - |parts'| == slack + 1 - ks[0] && |ks[1..]| == |ks| - 1;
    BoundedStep(ks, slack);
  }

  /** Exactly what match finds: if it says yes, one of the expansions it tries matches; if it says no,
      none of them does. */
  lemma {:induction false} MatchFinds(g: Glob, parts: seq<Part>, strs: seq<string>)
    ensures Match(g, parts, strs) == Ok(true) ==>
            exists ks :: Tried(parts, strs, ks) && PlainMatches(g, Expanded(parts, ks), strs)
    decreases Wilds(parts), 1, 0
  {
    hide PlainMatches, Plain, FirstWild, Wilds;
    HasWild(parts);
    if FirstWild(parts) < |parts| {
      ExpandFinds(g, parts, strs, 0);
    } else {
      PlainExact(g, parts, strs);
      assert Match(g, parts, strs) == Plain(g, parts, strs);
      if Plain(g, parts, strs) == Ok(true) { assert Tried(parts, strs, []); }
    }
  }

  lemma {:induction false} ExpandFinds(g: Glob, parts: seq<Part>, strs: seq<string>, i: nat)
    requires FirstWild(parts) < |parts|
    ensures Expand(g, parts, strs, i) == Ok(true) ==>
            exists ks :: Tried(parts, strs, ks) && PlainMatches(g, Expanded(parts, ks), strs)
    decreases Wilds(parts), 0, |strs| + 2 - i
  {
    hide PlainMatches, Plain, FirstWild, Wilds, Match, Bounded;
    if i <= |strs| - |parts| + 1 {
      WildsOfExpansion(parts, i);
      var parts' := Expansion(parts, FirstWild(parts), i);
      MatchFinds(g, parts', strs);
      if Match(g, parts', strs) == Ok(true) {
        var ks' :| Tried(parts', strs, ks') && PlainMatches(g, Expanded(parts', ks'), strs);
        var ks := [i] + ks';
        assert ks[1..] == ks';
        TriedStep(parts, strs, ks);
      } else {
        ExpandFinds(g, parts, strs, i + 1);
      }
    }
  }

  lemma {:induction false} MatchMisses(g: Glob, parts: seq<Part>, strs: seq<string>, ks: seq<nat>)
    requires Match(g, parts, strs) == Ok(false) && Tried(parts, strs, ks)
    ensures !PlainMatches(g, Expanded(parts, ks), strs)
    decreases Wilds(parts), 1, 0
  {
    hide PlainMatches, Plain, FirstWild, Wilds, Bounded;
    HasWild(parts);
    if FirstWild(parts) < |parts| {
      ExpandMisses(g, parts, strs, 0, ks);
    } else {
      PlainExact(g, parts, strs);
    }
  }

  lemma {:induction false} ExpandMisses(g: Glob, parts: seq<Part>, strs: seq<string>, i: nat, ks: seq<nat>)
    requires FirstWild(parts) < |parts| && Expand(g, parts, strs, i) == Ok(false)
    requires Tried(parts, strs, ks) && ks != [] && ks[0] >= i
    ensures !PlainMatches(g, Expanded(parts, ks), strs)
    decreases Wilds(parts), 0, |strs| + 2 - i
  {
    hide PlainMatches, Plain, FirstWild, Wilds, Match, Bounded;
    TriedStep(parts, strs, ks);
    WildsOfExpansion(parts, i);
    var parts' := Expansion(parts, FirstWild(parts), i);
    assert Match(g, parts', strs) == Ok(false);
    if ks[0] == i {
      MatchMisses(g, parts', strs, ks[1..]);
    } else {
      ExpandMisses(g, parts, strs, i + 1, ks);
    }
  }

  // ---------------------------------------------------------------- how that relates to the meaning

  /** The matcher reports no bad pattern. */
  ghost predicate Total(g: Glob) {
    forall p, s :: g(p, s).Ok?
  }

  lemma {:induction false} WindowTotal(g: Glob, parts: seq<Part>, strs: seq<string>, offset: nat, n: nat)
    requires Total(g) && n <= |parts| && offset + n <= |strs|
    ensures Window(g, parts, strs, offset, n).Ok?
  {
    if n > 0 { WindowTotal(g, parts, strs, offset, n - 1); }
  }

  lemma {:induction false} WindowsTotal(g: Glob, parts: seq<Part>, strs: seq<string>, minOffset: nat, offset: int)
    requires Total(g) && offset + |parts| <= |strs|
    ensures Windows(g, parts, strs, minOffset, offset).Ok?
    decreases offset + 1
  {
    if offset >= minOffset {
      WindowTotal(g, parts, strs, offset, |parts|);
      WindowsTotal(g, parts, strs, minOffset, offset - 1);
    }
  }

  lemma {:induction false} MatchTotal(g: Glob, parts: seq<Part>, strs: seq<string>)
    requires Total(g)
    ensures Match(g, parts, strs).Ok?
    decreases Wilds(parts), 1, 0
  {
    hide Windows, FirstWild, Wilds;
    if FirstWild(parts) < |parts| {
      ExpandTotal(g, parts, strs, 0);
    } else if parts != [] && |parts| <= |strs| {
      WindowsTotal(g, parts, strs, MinOffset(parts, strs), MaxOffset(parts, strs));
    }
  }

  lemma {:induction false} ExpandTotal(g: Glob, parts: seq<Part>, strs: seq<string>, i: nat)
    requires Total(g) && FirstWild(parts) < |parts|
    ensures Expand(g, parts, strs, i).Ok?
    decreases Wilds(parts), 0, |strs| + 2 - i
  {
    hide Match, FirstWild, Wilds;
    if i <= |strs| - |parts| + 1 {
      WildsOfExpansion(parts, i);
      MatchTotal(g, Expansion(parts, FirstWild(parts), i), strs);
      ExpandTotal(g, parts, strs, i + 1);
    }
  }

  /** The exact characterization of match, for any number of "**". */
  lemma MatchExact(g: Glob, parts: seq<Part>, strs: seq<string>)
    requires Total(g)
    ensures Match(g, parts, strs) == Ok(true) <==>
            exists ks :: Tried(parts, strs, ks) && PlainMatches(g, Expanded(parts, ks), strs)
  {
    hide Match, PlainMatches, Bounded, Wilds, Expanded;
    MatchTotal(g, parts, strs);
    MatchFinds(g, parts, strs);
    if Match(g, parts, strs) == Ok(false) {
      forall ks | Tried(parts, strs, ks) ensures !PlainMatches(g, Expanded(parts, ks), strs) {
        MatchMisses(g, parts, strs, ks);
      }
    }
  }

  lemma {:induction false} ExpandedLength(parts: seq<Part>, ks: seq<nat>)
    requires |ks| == Wilds(parts)
    ensures |Expanded(parts, ks)| == |parts| - |ks| + Sum(ks)
    decreases |ks|
  {
    hide Wilds, FirstWild;
    if ks != [] {
      HasWild(parts);
      WildsOfExpansion(parts, ks[0]);
      ExpandedLength(Expansion(parts, FirstWild(parts), ks[0]), ks[1..]);
    }
  }

  lemma {:induction false} TakenAtMostSum(ks: seq<nat>, j: nat)
    requires j <= |ks|
    ensures Taken(ks, j) <= Sum(ks)
    decreases j
  {
    if j > 0 {
      SumSplit(ks, j);
      TakenAtMostSum(ks[1..], j - 1);
    }
  }

  /** An expansion that fits is tried, if the path has a component to spare for every "**" but one. */
  lemma RoomIsTried(parts: seq<Part>, strs: seq<string>, ks: seq<nat>)
    requires |ks| == Wilds(parts)
    requires |Expanded(parts, ks)| + |ks| <= |strs| + 1
    ensures Tried(parts, strs, ks)
  {
    ExpandedLength(parts, ks);
    forall j | 0 < j <= |ks| ensures Taken(ks, j) <= |strs| - |parts| + j {
      TakenAtMostSum(ks, j);
    }
  }

  /** With at most one "**" match decides the meaning of a pattern. */
  lemma MatchDecidesMeaning(g: Glob, parts: seq<Part>, strs: seq<string>)
    requires Total(g) && Wilds(parts) <= 1
    ensures Match(g, parts, strs) == Ok(true) <==> Meaning(g, parts, strs)
  {
    hide Match, Wilds, Expanded, Bounded, Total;
    MatchExact(g, parts, strs);
    if Meaning(g, parts, strs) {
      var ks :| |ks| == Wilds(parts) && PlainMatches(g, Expanded(parts, ks), strs);
      RoomIsTried(parts, strs, ks);
    }
  }

  /** On a path match finds exactly what the pattern means, whatever the component matcher. */
  ghost predicate Agrees(parts: seq<Part>, strs: seq<string>) {
    forall g: Glob :: Total(g) ==> (Match(g, parts, strs) == Ok(true) <==> Meaning(g, parts, strs))
  }

  ghost predicate Decides(parts: seq<Part>) {
    forall strs :: Agrees(parts, strs)
  }

  /** The same for what a non-empty string is split into. */
  ghost predicate DecidesPaths(parts: seq<Part>) {
    forall strs :: strs != [] ==> Agrees(parts, strs)
  }

  function Anything(p: string, s: string): (r: Result) {
    Ok(true)
  }

  /** A path that the parts match when the matcher takes anything. */
  function Patterns(parts: seq<Part>): (strs: seq<string>)
    ensures |strs| == |parts|
  {
    seq(|parts|, i requires 0 <= i < |parts| => parts[i].pattern)
  }

  function ZeroStars(n: nat): (ks: seq<nat>)
    ensures |ks| == n && Sum(ks) == 0
  {
    if n == 0 then [] else [0] + ZeroStars(n - 1)
  }

  lemma PatternsMatch(parts: seq<Part>)
    ensures PlainMatches(Anything, parts, Patterns(parts))
  {
    if parts != [] {
      assert Fits(Anything, parts, Patterns(parts), 0) && Allowed(parts, Patterns(parts), 0);
    }
  }

  /** With n of the "**", an expansion by fewer than n - 1 stars in all is missed on a path of its length. */
  lemma MissesShort(parts: seq<Part>, ks: seq<nat>)
    requires |ks| == Wilds(parts) && Sum(ks) + 1 < |ks|
    ensures !Agrees(parts, Patterns(Expanded(parts, ks)))
  {
    hide Match, Wilds, Expanded, PlainMatches, Patterns;
    var strs := Patterns(Expanded(parts, ks));
    PatternsMatch(Expanded(parts, ks));
    assert Meaning(Anything, parts, strs);
    ExpandedLength(parts, ks);
    forall ls | |ls| == Wilds(parts) ensures !Tried(parts, strs, ls) {
      assert !(Taken(ls, 1) <= |strs| - |parts| + 1);
    }
    MatchExact(Anything, parts, strs);
    assert Match(Anything, parts, strs) != Ok(true);
  }

  /** match decides the meaning of exactly the patterns with at most one "**". */
  lemma DecidesExactly(parts: seq<Part>)
    ensures Decides(parts) <==> Wilds(parts) <= 1
  {
    hide Match, Wilds, Meaning, Agrees, Expanded;
    if Wilds(parts) <= 1 {
      forall strs ensures Agrees(parts, strs) { OneWildAgrees(parts, strs); }
    } else {
      MissesShort(parts, ZeroStars(Wilds(parts)));
    }
  }

  lemma OneWildAgrees(parts: seq<Part>, strs: seq<string>)
    requires Wilds(parts) <= 1
    ensures Agrees(parts, strs)
  {
    hide Match, Wilds, Meaning;
    forall g: Glob | Total(g) ensures Match(g, parts, strs) == Ok(true) <==> Meaning(g, parts, strs) {
      MatchDecidesMeaning(g, parts, strs);
    }
  }

  /** On paths, which are never empty, there is one more pattern of which match decides the meaning. */
  lemma DecidesPathsExactly(parts: seq<Part>)
    ensures DecidesPaths(parts) <==> Wilds(parts) <= 1 || (|parts| == 2 && Wilds(parts) == 2)
  {
    hide Match, Wilds, Meaning, Agrees, Expanded, Patterns;
    var n := Wilds(parts);
    if n <= 1 {
      forall strs ensures Agrees(parts, strs) { OneWildAgrees(parts, strs); }
    } else if |parts| == 2 && n == 2 {
      forall strs | strs != [] ensures Agrees(parts, strs) { TwoWildsAgree(parts, strs); }
    } else {
      WildsAtMostLength(parts);
      var ks := if |parts| > n then ZeroStars(n) else [1] + ZeroStars(n - 1);
      assert |parts| == n ==> ks[1..] == ZeroStars(n - 1);
      assert Sum(ks) == if |parts| > n then 0 else 1;
      ExpandedLength(parts, ks);
      MissesShort(parts, ks);
      assert Patterns(Expanded(parts, ks)) != [];
    }
  }

  lemma {:induction false} WildsAtMostLength(parts: seq<Part>)
    ensures Wilds(parts) <= |parts|
  {
    if parts != [] { WildsAtMostLength(parts[1..]); }
  }

  /** Both parts are "**". */
  lemma TwoWildsExpanded(parts: seq<Part>, ks: seq<nat>)
    requires |parts| == 2 && Wilds(parts) == 2 && |ks| == 2
    ensures Expanded(parts, ks) == Stars(ks[0] + ks[1])
  {
    hide Wilds, Expanded;
    TwoWilds(parts);
    WildAt(parts, 0);
    var once := Expansion(parts, 0, ks[0]);
    assert once == Stars(ks[0]) + [parts[1]];
    WildAt(once, ks[0]);
    var twice := Expansion(once, ks[0], ks[1]);
    assert twice == Stars(ks[0] + ks[1]);
    ExpandedStep(parts, ks);
    ExpandedStep(once, ks[1..]);
    ExpandedStep(twice, ks[1..][1..]);
  }

  lemma TwoWilds(parts: seq<Part>)
    requires |parts| == 2 && Wilds(parts) == 2
    ensures parts[0].Wild() && parts[1].Wild()
  {
    WildsAtMostLength(parts[1..]);
    assert Wilds(parts[1..]) == (if parts[1].Wild() then 1 else 0) + Wilds(parts[1..][1..]);
    WildsAtMostLength(parts[1..][1..]);
  }

  lemma TwoWildsAgree(parts: seq<Part>, strs: seq<string>)
    requires |parts| == 2 && Wilds(parts) == 2 && strs != []
    ensures Agrees(parts, strs)
  {
    hide Match, Wilds, Expanded;
    forall g: Glob | Total(g) ensures Match(g, parts, strs) == Ok(true) <==> Meaning(g, parts, strs) {
      MatchExact(g, parts, strs);
      if Meaning(g, parts, strs) {
        var ks :| |ks| == Wilds(parts) && PlainMatches(g, Expanded(parts, ks), strs);
        TwoWildsExpanded(parts, ks);
        var ls := [0, ks[0] + ks[1]];
        TwoWildsExpanded(parts, ls);
        TwoTried(parts, strs, ls);
      }
    }
  }

  lemma TwoTried(parts: seq<Part>, strs: seq<string>, ls: seq<nat>)
    requires |parts| == 2 && Wilds(parts) == 2 && |ls| == 2 && ls[0] == 0 && ls[1] <= |strs| && strs != []
    ensures Tried(parts, strs, ls)
  {
    hide Wilds;
    SumSplit(ls, 1);
    SumSplit(ls, 2);
    SumSplit(ls[1..], 1);
  }

  /** With any number of "**" a match is right. */
  lemma MatchSound(g: Glob, parts: seq<Part>, strs: seq<string>)
    requires Match(g, parts, strs) == Ok(true)
    ensures Meaning(g, parts, strs)
  {
    hide Match, PlainMatches, Expanded, Bounded;
    MatchFinds(g, parts, strs);
  }

  /** A match stays a match further down in the tree. */
  lemma PlainExtends(g: Glob, parts: seq<Part>, strs: seq<string>, more: seq<string>)
    requires strs != [] && PlainMatches(g, parts, strs)
    ensures PlainMatches(g, parts, strs + more)
  {
    var offset: nat :| Allowed(parts, strs, offset) && Fits(g, parts, strs, offset);
    assert Fits(g, parts, strs + more, offset) && Allowed(parts, strs + more, offset);
  }

  /** With n of the "**", what the meaning finds on a path without its last n - 1 components is found
      by match on the path. */
  lemma MatchFindsAbove(g: Glob, parts: seq<Part>, strs: seq<string>, more: seq<string>)
    requires Total(g) && strs != [] && Meaning(g, parts, strs) && Wilds(parts) <= |more| + 1
    ensures Match(g, parts, strs + more) == Ok(true)
  {
    hide Match, Wilds, Expanded, Bounded, Total;
    var ks :| |ks| == Wilds(parts) && PlainMatches(g, Expanded(parts, ks), strs);
    PlainExtends(g, Expanded(parts, ks), strs, more);
    RoomIsTried(parts, strs + more, ks);
    MatchExact(g, parts, strs + more);
  }

  /** A matcher for the example below: "*" stands for any component except the root. */
  function StarGlob(p: string, s: string): (r: Result) {
    Ok(if p == "*" then s != "/" else p == s)
  }

  function Name(s: string): (p: Part) { Part(s, true) }

  function ExamplePattern(): (parts: seq<Part>) {
    [Name("a"), Part("", false), Name("b"), Part("", false), Name("c")]
  }

  /** Replacing both "**" of a/**/b/**/c. */
  lemma ExampleExpansion(k: nat, l: nat)
    ensures Wilds(ExamplePattern()) == 2
    ensures Expanded(ExamplePattern(), [k, l]) == [Name("a")] + Stars(k) + [Name("b")] + Stars(l) + [Name("c")]
  {
    hide Wilds, Expanded;
    var a, b, c, w := Name("a"), Name("b"), Name("c"), Part("", false);
    var parts := ExamplePattern();
    WildAt(parts, 1);
    var once := Expansion(parts, 1, k);
    assert once == [a] + Stars(k) + [b, w, c];
    WildAt(once, k + 2);
    var twice := Expansion(once, k + 2, l);
    assert twice == [a] + Stars(k) + [b] + Stars(l) + [c];
    NoWilds(twice);
    WildsOfExpansion(parts, k);
    WildsOfExpansion(once, l);
    ExpandedStep(parts, [k, l]);
    ExpandedStep(once, [l]);
    ExpandedStep(twice, []);
    assert [k, l][1..] == [l] && [l][1..] == [];
  }

  lemma ExpandedStep(parts: seq<Part>, ks: seq<nat>)
    requires |ks| == Wilds(parts)
    ensures ks == [] ==> Expanded(parts, ks) == parts
    ensures ks != [] ==> FirstWild(parts) < |parts| && Wilds(Expansion(parts, FirstWild(parts), ks[0])) == |ks| - 1
    ensures ks != [] ==> Expanded(parts, ks) == Expanded(Expansion(parts, FirstWild(parts), ks[0]), ks[1..])
  {
    HasWild(parts);
    if ks != [] { WildsOfExpansion(parts, ks[0]); }
  }

  lemma {:induction false} WildAt(parts: seq<Part>, pos: nat)
    requires pos < |parts| && parts[pos].Wild() && forall i :: 0 <= i < pos ==> !parts[i].Wild()
    ensures FirstWild(parts) == pos
  {
  }

  /** With two "**" match can miss: a/**/b/**/c does not match a/x/b/c, although it should. */
  lemma MatchMayMiss()
    ensures Match(StarGlob, ExamplePattern(), ["a", "x", "b", "c"]) == Ok(false)
    ensures Meaning(StarGlob, ExamplePattern(), ["a", "x", "b", "c"])
  {
    hide Match, Wilds, Expanded, ExamplePattern;
    var parts, strs := ExamplePattern(), ["a", "x", "b", "c"];
    ExampleExpansion(1, 0);
    var full := [Name("a")] + Stars(1) + [Name("b")] + Stars(0) + [Name("c")];
    assert full == [Name("a"), STAR, Name("b"), Name("c")];
    assert Fits(StarGlob, full, strs, 0) && Allowed(full, strs, 0);
    MatchExact(StarGlob, parts, strs);
    MatchTotal(StarGlob, parts, strs);
    forall ks | Tried(parts, strs, ks) ensures !PlainMatches(StarGlob, Expanded(parts, ks), strs) {
      SumSplit(ks, 1);
      assert Taken(ks, 1) <= |strs| - |parts| + 1;
      ExamplePatternLength();
      assert ks == [0, ks[1]];
      ExampleExpansion(0, ks[1]);
      var tried := Expanded(parts, ks);
      assert tried[0] == Name("a") && tried[1] == Name("b");
      forall offset: nat ensures !Fits(StarGlob, tried, strs, offset) {
        ExampleMismatch(tried, offset);
      }
    }
  }

  lemma ExampleMismatch(tried: seq<Part>, offset: nat)
    requires |tried| >= 2 && tried[0] == Name("a") && tried[1] == Name("b")
    ensures !Fits(StarGlob, tried, ["a", "x", "b", "c"], offset)
  {
    var strs := ["a", "x", "b", "c"];
    if offset == 0 {
      assert MatchPart(StarGlob, tried[1], strs[offset + 1]) == Ok(false);
    } else if offset + |tried| <= |strs| {
      assert MatchPart(StarGlob, tried[0], strs[offset + 0]) == Ok(false);
    }
  }

  lemma ExamplePatternLength()
    ensures |ExamplePattern()| == 5
  {
  }

  // ---------------------------------------------------------------- pruning with one pattern

  function MinLen(a: nat, b: nat): (r: nat) {
    if a > b then b else a
  }

  /** childMatch: may something below the directory `strs` match? */
  function ChildMatch(g: Glob, parts: seq<Part>, strs: seq<string>): (r: Result)
    requires parts != []
  {
    if !Absolute(parts) then Ok(true)
    else
      var pos := FirstWild(parts);
      var cut := if pos < |parts| && |strs| >= pos then strs[..pos] else strs;
      Match(g, parts[..MinLen(|cut|, |parts|)], cut)
  }

  lemma TriedExtends(parts: seq<Part>, strs: seq<string>, more: seq<string>, ks: seq<nat>)
    requires Tried(parts, strs, ks)
    ensures Tried(parts, strs + more, ks)
  {
  }

  /** match is closed under path extension: below a match there are only matches, or errors. */
  lemma MatchExtends(g: Glob, parts: seq<Part>, strs: seq<string>, more: seq<string>)
    requires strs != [] && Match(g, parts, strs) == Ok(true)
    ensures Match(g, parts, strs + more) != Ok(false)
  {
    hide Match, PlainMatches, Expanded, Bounded;
    MatchFinds(g, parts, strs);
    var ks :| Tried(parts, strs, ks) && PlainMatches(g, Expanded(parts, ks), strs);
    PlainExtends(g, Expanded(parts, ks), strs, more);
    TriedExtends(parts, strs, more, ks);
    if Match(g, parts, strs + more) == Ok(false) { MatchMisses(g, parts, strs + more, ks); }
  }

  /** The parts before the first "**" stay where they are. */
  lemma {:induction false} ExpandedKeepsHead(parts: seq<Part>, ks: seq<nat>)
    requires |ks| == Wilds(parts)
    ensures FirstWild(parts) <= |Expanded(parts, ks)|
    ensures Expanded(parts, ks)[..FirstWild(parts)] == parts[..FirstWild(parts)]
    decreases |ks|
  {
    hide Wilds;
    HasWild(parts);
    if ks != [] {
      var pos := FirstWild(parts);
      var parts' := Expansion(parts, pos, ks[0]);
      WildsOfExpansion(parts, ks[0]);
      ExpandedKeepsHead(parts', ks[1..]);
      HeadBeforeWild(parts', pos);
      var e := Expanded(parts, ks);
      assert e[..pos] == e[..FirstWild(parts')][..pos];
      assert parts'[..FirstWild(parts')][..pos] == parts[..pos];
    }
  }

  lemma HeadBeforeWild(parts: seq<Part>, pos: nat)
    requires pos <= |parts| && forall i :: 0 <= i < pos ==> !parts[i].Wild()
    ensures FirstWild(parts) >= pos
  {
  }

  /** If an absolute pattern matches below a directory, then its parts before the first "**" match the
      directory as far as both go. */
  lemma AbsoluteHeadFits(g: Glob, parts: seq<Part>, strs: seq<string>)
    requires Absolute(parts) && Match(g, parts, strs) == Ok(true)
    ensures var pos := FirstWild(parts);
      pos > 0 && pos <= |strs| && forall i :: 0 <= i < pos ==> MatchPart(g, parts[i], strs[i]) == Ok(true)
  {
    hide Match, Bounded, Expanded, Wilds;
    MatchFinds(g, parts, strs);
    var ks :| Tried(parts, strs, ks) && PlainMatches(g, Expanded(parts, ks), strs);
    ExpandedKeepsHead(parts, ks);
    var e, pos := Expanded(parts, ks), FirstWild(parts);
    assert forall i :: 0 <= i < pos ==> e[i] == e[..pos][i] == parts[i];
    assert Fits(g, e, strs, 0);
  }

  /** childMatch is sound: if it says no, nothing below the directory matches. */
  lemma ChildMatchSound(g: Glob, parts: seq<Part>, strs: seq<string>, more: seq<string>)
    requires parts != [] && strs != []
    requires ChildMatch(g, parts, strs) == Ok(false)
    ensures Match(g, parts, strs + more) != Ok(true)
  {
    hide Match;
    if Match(g, parts, strs + more) == Ok(true) {
      AbsoluteHeadFits(g, parts, strs + more);
      var pos := FirstWild(parts);
      var cut := if pos < |parts| && |strs| >= pos then strs[..pos] else strs;
      var head := parts[..MinLen(|cut|, |parts|)];
      assert Fits(g, head, cut, 0) && Allowed(head, cut, 0);
      NoWilds(head);
      assert Tried(head, cut, []);
      MatchMisses(g, head, cut, []);
    }
  }

  /** Exactly when something below a directory may match: the pattern is not absolute, or its parts before the
      first "**" describe the directory as far as both go. */
  lemma ChildMatchExact(g: Glob, parts: seq<Part>, strs: seq<string>)
    requires Total(g) && parts != [] && strs != []
    ensures ChildMatch(g, parts, strs) == Ok(true) <==>
      || parts[0].pattern != "/"
      || forall i :: 0 <= i < |strs| && i < FirstWild(parts) ==> PartFits(g, parts[i], strs[i])
  {
    hide Match, Total, FirstWild, PartFits;
    if Absolute(parts) {
      var pos := FirstWild(parts);
      var cut := if pos < |parts| && |strs| >= pos then strs[..pos] else strs;
      var head := parts[..MinLen(|cut|, |parts|)];
      AbsoluteNotWild(parts);
      assert |head| == if pos < |strs| then pos else |strs|;
      assert forall i :: 0 <= i < |head| ==> head[i] == parts[i] && cut[i] == strs[i];
      AbsoluteFits(g, head, cut);
    }
  }

  lemma AbsoluteNotWild(parts: seq<Part>)
    requires Absolute(parts)
    ensures FirstWild(parts) > 0
  {
  }

  lemma AbsoluteFits(g: Glob, parts: seq<Part>, strs: seq<string>)
    requires Total(g) && Absolute(parts) && |parts| <= |strs| && forall i :: 0 <= i < |parts| ==> !parts[i].Wild()
    ensures Match(g, parts, strs) == Ok(true) <==> forall i :: 0 <= i < |parts| ==> PartFits(g, parts[i], strs[i])
  {
    hide Match, Total, PartFits, Expanded, Bounded;
    NoWilds(parts);
    MatchExact(g, parts, strs);
    OnlyPlain(g, parts, strs);
    assert Allowed(parts, strs, 0);
    assert Fits(g, parts, strs, 0) <==> forall i :: 0 <= i < |parts| ==> PartFits(g, parts[i], strs[0 + i]);
  }

  /** A pattern without "**" has one expansion, itself. */
  lemma OnlyPlain(g: Glob, parts: seq<Part>, strs: seq<string>)
    requires Wilds(parts) == 0
    ensures (exists ks :: Tried(parts, strs, ks) && PlainMatches(g, Expanded(parts, ks), strs)) <==>
      PlainMatches(g, parts, strs)
  {
    assert Tried(parts, strs, []);
  }

  // ---------------------------------------------------------------- pruning with a list of patterns

  datatype ListResult = Listed(matched: bool, childMayMatch: bool) | ListBadPattern | BadString

  /** The loop of list: negated patterns take matches back, and without negated patterns the loop stops
      once nothing can change any more. */
  function ListFrom(g: Glob, pats: seq<Pattern>, checkChild: bool, strs: seq<string>, hasNegated: bool, matched: bool,
                    mayMatch: bool): (r: ListResult)
    requires forall p :: p in pats ==> p.parts != []
  {
    if pats == [] then Listed(matched, mayMatch)
    else
      var m := Match(g, pats[0].parts, strs);
      if m.BadPattern? then ListBadPattern
      else
        var c := if checkChild then ChildMatch(g, pats[0].parts, strs) else Ok(true);
        if c.BadPattern? then ListBadPattern
        else if pats[0].negated then
          ListFrom(g, pats[1..], checkChild, strs, hasNegated, matched && !m.matched, mayMatch && !m.matched)
        else
          var matched', mayMatch' := matched || m.matched, mayMatch || c.matched;
          if matched' && mayMatch' && !hasNegated then Listed(matched', mayMatch')
          else ListFrom(g, pats[1..], checkChild, strs, hasNegated, matched', mayMatch')
  }

  predicate HasNegated(pats: seq<Pattern>) {
    exists i :: 0 <= i < |pats| && pats[i].negated
  }

  /** Without negated patterns a child that may match stays one. */
  lemma {:induction false} MayMatchStays(g: Glob, pats: seq<Pattern>, checkChild: bool, strs: seq<string>,
                                         matched: bool)
    requires forall p :: p in pats ==> p.parts != [] && !p.negated
    ensures var r := ListFrom(g, pats, checkChild, strs, false, matched, true); r.Listed? ==> r.childMayMatch
  {
    if pats != [] {
      var m := Match(g, pats[0].parts, strs);
      if m.Ok? { MayMatchStays(g, pats[1..], checkChild, strs, matched || m.matched); }
    }
  }

  /** The two loops, for a directory and for a path below it, side by side: as long as the path is
      matched, the directory's children may match. */
  lemma {:induction false} PruneLoop(g: Glob, pats: seq<Pattern>, dir: seq<string>, more: seq<string>, hasNegated: bool,
                                     matched: bool, mayMatch: bool, below: bool, belowMay: bool)
    requires dir != [] && forall p :: p in pats ==> p.parts != [] && (p.negated ==> hasNegated)
    requires below ==> mayMatch
    requires ListFrom(g, pats, true, dir, hasNegated, matched, mayMatch).Listed?
    requires !ListFrom(g, pats, true, dir, hasNegated, matched, mayMatch).childMayMatch
    ensures
      var r := ListFrom(g, pats, false, dir + more, hasNegated, below, belowMay);
      r.Listed? ==> !r.matched
  {
    hide Match, ChildMatch;
    if pats != [] {
      var parts, tail := pats[0].parts, pats[1..];
      var m, c, d := Match(g, parts, dir), ChildMatch(g, parts, dir), Match(g, parts, dir + more);
      if m == Ok(true) { MatchExtends(g, parts, dir, more); }
      if c == Ok(false) { ChildMatchSound(g, parts, dir, more); }
      if d.Ok? {
        if pats[0].negated {
          PruneLoop(g, tail, dir, more, hasNegated, matched && !m.matched, mayMatch && !m.matched, below &&
            !d.matched, belowMay && !d.matched);
        } else {
          var matched', mayMatch' := matched || m.matched, mayMatch || c.matched;
          if !hasNegated && mayMatch' { MayMatchStays(g, tail, true, dir, matched'); }
          PruneLoop(g, tail, dir, more, hasNegated, matched', mayMatch', below || d.matched, true);
        }
      }
    }
  }

  // ---------------------------------------------------------------- what a list of patterns says

  predicate Hits(g: Glob, p: Pattern, strs: seq<string>) {
    Match(g, p.parts, strs) == Ok(true)
  }

  /** Something below may match the pattern; taken for granted when children are not checked. */
  predicate MayHitBelow(g: Glob, p: Pattern, checkChild: bool, strs: seq<string>) {
    checkChild ==> p.parts != [] && ChildMatch(g, p.parts, strs) == Ok(true)
  }

  /** Some pattern matches, and the last one that does is not negated. */
  ghost predicate LastHitCounts(g: Glob, pats: seq<Pattern>, strs: seq<string>) {
    exists i :: 0 <= i < |pats| && Hits(g, pats[i], strs) && !pats[i].negated && NoHitFrom(g, pats, strs, i + 1)
  }

  ghost predicate NoHitFrom(g: Glob, pats: seq<Pattern>, strs: seq<string>, n: nat) {
    forall j :: n <= j < |pats| ==> !Hits(g, pats[j], strs)
  }

  /** Something below may match a pattern that is not negated, and no later negated pattern matches. */
  ghost predicate MayCount(g: Glob, pats: seq<Pattern>, checkChild: bool, strs: seq<string>) {
    exists i :: 0 <= i < |pats| && !pats[i].negated && MayHitBelow(g, pats[i], checkChild, strs) &&
                NoneTakenBack(g, pats, strs, i + 1)
  }

  ghost predicate NoneTakenBack(g: Glob, pats: seq<Pattern>, strs: seq<string>, n: nat) {
    forall j :: n <= j < |pats| && pats[j].negated ==> !Hits(g, pats[j], strs)
  }

  /** Looking at the first pattern and at the others. */
  lemma SplitHits(g: Glob, pats: seq<Pattern>, checkChild: bool, strs: seq<string>)
    requires pats != []
    ensures NoHitFrom(g, pats, strs, 1) <==> NoHitFrom(g, pats[1..], strs, 0)
    ensures NoneTakenBack(g, pats, strs, 1) <==> NoneTakenBack(g, pats[1..], strs, 0)
    ensures LastHitCounts(g, pats, strs) <==>
      || LastHitCounts(g, pats[1..], strs)
      || (Hits(g, pats[0], strs) && !pats[0].negated && NoHitFrom(g, pats[1..], strs, 0))
    ensures MayCount(g, pats, checkChild, strs) <==>
      || MayCount(g, pats[1..], checkChild, strs)
      || (!pats[0].negated && MayHitBelow(g, pats[0], checkChild, strs) && NoneTakenBack(g, pats[1..], strs, 0))
  {
    hide Hits, MayHitBelow;
    var tail := pats[1..];
    forall n: nat ensures NoHitFrom(g, pats, strs, n + 1) <==> NoHitFrom(g, tail, strs, n) {
      ShiftHits(g, pats, strs, n);
    }
    forall n: nat ensures NoneTakenBack(g, pats, strs, n + 1) <==> NoneTakenBack(g, tail, strs, n) {
      ShiftHits(g, pats, strs, n);
    }
    assert forall i :: 0 <= i < |tail| ==> tail[i] == pats[i + 1];
    if LastHitCounts(g, tail, strs) {
      var i :| 0 <= i < |tail| && Hits(g, tail[i], strs) && !tail[i].negated && NoHitFrom(g, tail, strs, i + 1);
      assert Hits(g, pats[i + 1], strs) && !pats[i + 1].negated && NoHitFrom(g, pats, strs, i + 2);
    }
    if MayCount(g, tail, checkChild, strs) {
      var i :| 0 <= i < |tail| && !tail[i].negated && MayHitBelow(g, tail[i], checkChild, strs) &&
               NoneTakenBack(g, tail, strs, i + 1);
      assert !pats[i + 1].negated && MayHitBelow(g, pats[i + 1], checkChild, strs) &&
             NoneTakenBack(g, pats, strs, i + 2);
    }
    RestCounts(g, pats, checkChild, strs);
  }

  lemma ShiftHits(g: Glob, pats: seq<Pattern>, strs: seq<string>, n: nat)
    requires pats != []
    ensures NoHitFrom(g, pats, strs, n + 1) <==> NoHitFrom(g, pats[1..], strs, n)
    ensures NoneTakenBack(g, pats, strs, n + 1) <==> NoneTakenBack(g, pats[1..], strs, n)
  {
    hide Hits;
    forall j | n + 1 <= j < |pats| ensures pats[j] == pats[1..][j - 1] {
    }
    assert forall j :: 0 <= j < |pats[1..]| ==> pats[1..][j] == pats[j + 1];
  }

  /** What counts is the first pattern or one of the others. */
  lemma RestCounts(g: Glob, pats: seq<Pattern>, checkChild: bool, strs: seq<string>)
    requires pats != []
    ensures LastHitCounts(g, pats, strs) ==>
      || LastHitCounts(g, pats[1..], strs)
      || (Hits(g, pats[0], strs) && !pats[0].negated && NoHitFrom(g, pats[1..], strs, 0))
    ensures MayCount(g, pats, checkChild, strs) ==>
      || MayCount(g, pats[1..], checkChild, strs)
      || (!pats[0].negated && MayHitBelow(g, pats[0], checkChild, strs) && NoneTakenBack(g, pats[1..], strs, 0))
  {
    hide Hits, MayHitBelow, NoHitFrom, NoneTakenBack;
    var tail := pats[1..];
    if LastHitCounts(g, pats, strs) {
      var i :| 0 <= i < |pats| && Hits(g, pats[i], strs) && !pats[i].negated && NoHitFrom(g, pats, strs, i + 1);
      ShiftHits(g, pats, strs, i);
      if i > 0 { assert tail[i - 1] == pats[i] && NoHitFrom(g, tail, strs, i - 1 + 1); }
    }
    if MayCount(g, pats, checkChild, strs) {
      var i :| 0 <= i < |pats| && !pats[i].negated && MayHitBelow(g, pats[i], checkChild, strs) &&
               NoneTakenBack(g, pats, strs, i + 1);
      ShiftHits(g, pats, strs, i);
      if i > 0 { assert tail[i - 1] == pats[i] && NoneTakenBack(g, tail, strs, i - 1 + 1); }
    }
  }

  /** Without negated patterns one that matches is enough. */
  lemma {:induction false} AnyHitCounts(g: Glob, pats: seq<Pattern>, strs: seq<string>)
    requires forall p :: p in pats ==> !p.negated
    ensures LastHitCounts(g, pats, strs) || NoHitFrom(g, pats, strs, 0)
    ensures NoneTakenBack(g, pats, strs, 0)
  {
    hide Hits;
    if pats != [] {
      AnyHitCounts(g, pats[1..], strs);
      SplitHits(g, pats, false, strs);
    }
  }

  /** What the loop has found so far is overruled by the patterns that are still to come. */
  lemma {:induction false} ListFromMeans(g: Glob, pats: seq<Pattern>, checkChild: bool, strs: seq<string>,
                                         hasNegated: bool, matched: bool, mayMatch: bool)
    requires forall p :: p in pats ==> p.parts != [] && (p.negated ==> hasNegated)
    ensures
      var r := ListFrom(g, pats, checkChild, strs, hasNegated, matched, mayMatch);
      r.Listed? ==>
        && (r.matched <==> LastHitCounts(g, pats, strs) || (matched && NoHitFrom(g, pats, strs, 0)))
        && (r.childMayMatch <==>
              MayCount(g, pats, checkChild, strs) || (mayMatch && NoneTakenBack(g, pats, strs, 0)))
  {
    hide Match, ChildMatch, LastHitCounts, MayCount;
    if pats == [] {
      NothingCounts(g, checkChild, strs);
    } else {
      var tail, p := pats[1..], pats[0];
      var m := Match(g, p.parts, strs);
      var c := if checkChild then ChildMatch(g, p.parts, strs) else Ok(true);
      SplitHits(g, pats, checkChild, strs);
      if m.Ok? && c.Ok? {
        var matched' := if p.negated then matched && !m.matched else matched || m.matched;
        var mayMatch' := if p.negated then mayMatch && !m.matched else mayMatch || c.matched;
        ListFromMeans(g, tail, checkChild, strs, hasNegated, matched', mayMatch');
        if !hasNegated { AnyHitCounts(g, tail, strs); }
      }
    }
  }

  lemma NothingCounts(g: Glob, checkChild: bool, strs: seq<string>)
    ensures !LastHitCounts(g, [], strs) && !MayCount(g, [], checkChild, strs)
  {
  }

  /** The list has an answer when no pattern is bad. */
  lemma {:induction false} ListFromAnswers(g: Glob, pats: seq<Pattern>, checkChild: bool, strs: seq<string>,
                                           hasNegated: bool, matched: bool, mayMatch: bool)
    requires forall p :: p in pats ==> p.parts != []
    requires forall p :: p in pats ==> Match(g, p.parts, strs).Ok? && ChildMatch(g, p.parts, strs).Ok?
    ensures ListFrom(g, pats, checkChild, strs, hasNegated, matched, mayMatch).Listed?
  {
    hide Match, ChildMatch;
    if pats != [] {
      var tail, p := pats[1..], pats[0];
      var m := Match(g, p.parts, strs);
      var c := if checkChild then ChildMatch(g, p.parts, strs) else Ok(true);
      var matched' := if p.negated then matched && !m.matched else matched || m.matched;
      var mayMatch' := if p.negated then mayMatch && !m.matched else mayMatch || c.matched;
      ListFromAnswers(g, tail, checkChild, strs, hasNegated, matched', mayMatch');
    }
  }

  /** What an ordered list with negations says, whatever the early stop: a path is matched if and only if some
      pattern matches it and the last one that does is not negated; something below it may match if and
      only if it may match some pattern that is not negated and no later negated pattern matches the path. */
  lemma ListMeans(g: Glob, pats: seq<Pattern>, checkChild: bool, str: string)
    requires forall p :: p in pats ==> p.parts != []
    ensures var r, strs := List(g, pats, checkChild, str), SplitPath(str);
      r.Listed? ==>
        && (r.matched <==> LastHitCounts(g, pats, strs))
        && (r.childMayMatch <==> MayCount(g, pats, checkChild, strs))
    ensures (str != "" || pats == []) && Total(g) ==> List(g, pats, checkChild, str).Listed?
    ensures str == "" && pats != [] ==> List(g, pats, checkChild, str) == BadString
  {
    hide Match, ChildMatch, LastHitCounts, MayCount, SplitPath, ListFrom;
    var strs := SplitPath(str);
    NothingCounts(g, checkChild, strs);
    if pats != [] && str != "" {
      ListFromMeans(g, pats, checkChild, strs, HasNegated(pats), false, false);
      if Total(g) {
        forall p | p in pats ensures Match(g, p.parts, strs).Ok? && ChildMatch(g, p.parts, strs).Ok? {
          MatchTotal(g, p.parts, strs);
          ChildMatchTotal(g, p.parts, strs);
        }
        ListFromAnswers(g, pats, checkChild, strs, HasNegated(pats), false, false);
      }
    }
  }

  lemma ChildMatchTotal(g: Glob, parts: seq<Part>, strs: seq<string>)
    requires Total(g) && parts != []
    ensures ChildMatch(g, parts, strs).Ok?
  {
    hide Match;
    var pos := FirstWild(parts);
    var cut := if pos < |parts| && |strs| >= pos then strs[..pos] else strs;
    MatchTotal(g, parts[..MinLen(|cut|, |parts|)], cut);
  }

  // ---------------------------------------------------------------- paths as strings

  /** strings.Split at slashes. */
  function Split(s: string): (parts: seq<string>)
    ensures parts != []
  {
    if s == "" then [""]
    else
      var rest := Split(s[1..]);
      if s[0] == '/' then [""] + rest else [[s[0]] + rest[0]] + rest[1..]
  }

  function SplitPath(s: string): (parts: seq<string>)
    ensures parts != []
  {
    var parts := Split(s);
    if parts[0] == "" then parts[0 := "/"] else parts
  }

  function List(g: Glob, pats: seq<Pattern>, checkChild: bool, str: string): (r: ListResult)
    requires forall p :: p in pats ==> p.parts != []
  {
    if pats == [] then Listed(false, false)
    else if str == "" then BadString
    else ListFrom(g, pats, checkChild, SplitPath(str), HasNegated(pats), false, false)
  }

  lemma SplitEmpty()
    ensures Split("") == [""]
  {
  }

  lemma SplitHead(s: string, rest: seq<string>)
    requires s != "" && Split(s[1..]) == rest
    ensures Split(s) == if s[0] == '/' then [""] + rest else [[s[0]] + rest[0]] + rest[1..]
  {
  }

  lemma {:induction false} SplitConcat(s: string, t: string)
    ensures Split(s + "/" + t) == Split(s) + Split(t)
  {
    hide Split;
    if s == "" {
      SplitEmpty();
      assert (s + "/" + t)[1..] == t;
      SplitHead(s + "/" + t, Split(t));
    } else {
      var whole, rest, x := s + "/" + t, Split(s[1..]), Split(t);
      SplitConcat(s[1..], t);
      assert whole[1..] == s[1..] + "/" + t && whole[0] == s[0];
      assert Split(whole[1..]) == rest + x;
      assert (rest + x)[0] == rest[0] && (rest + x)[1..] == rest[1..] + x;
      SplitHead(whole, rest + x);
      SplitHead(s, rest);
      assert [[s[0]] + rest[0]] + (rest[1..] + x) == ([[s[0]] + rest[0]] + rest[1..]) + x;
    }
  }

  lemma {:induction false} SplitName(s: string)
    requires '/' !in s
    ensures Split(s) == [s]
  {
    if s != "" {
      SplitName(s[1..]);
      assert [s[0]] + s[1..] == s;
    }
  }

  /** Pruning is sound: if ListWithChild says that nothing below a directory may match, then List matches
      nothing below it, for any ordered list of patterns with negations. */
  lemma PruningSound(g: Glob, pats: seq<Pattern>, dir: string, name: string)
    requires forall p :: p in pats ==> p.parts != []
    requires dir != ""
    requires var r := List(g, pats, true, dir); r.Listed? && !r.childMayMatch
    ensures var r := List(g, pats, false, dir + "/" + name); r.Listed? ==> !r.matched
  {
    hide ListFrom;
    SplitConcat(dir, name);
    assert SplitPath(dir + "/" + name) == SplitPath(dir) + Split(name);
    if pats != [] {
      PruneLoop(g, pats, SplitPath(dir), Split(name), HasNegated(pats), false, false, false, false);
    }
  }

  /** A directory that ends in a slash is the exception, because its entries are not called "dir//name": it
      is split into its components and an empty name.  An absolute pattern without "**" that is as long and
      refuses the empty name is ruled out, although it may match an entry. */
  lemma SlashRulesOut(g: Glob, parts: seq<Part>, dir: string, name: string)
    requires '/' !in name && Absolute(parts) && FirstWild(parts) == |parts|
    requires var head := SplitPath(dir + "/" + name);
      |parts| == |head| && Fits(g, parts, head, 0) && MatchPart(g, parts[|parts| - 1], "") == Ok(false)
    ensures
      var pats := [Pattern(parts, false)];
      && List(g, pats, true, dir + "/") == Listed(false, false)
      && List(g, pats, false, dir + "/" + name) == Listed(true, true)
  {
    hide Match, SplitPath, FirstWild, Fits;
    var entry, ruledOut := SplitPath(dir + "/" + name), SplitPath(dir + "/");
    SplitEntry(dir, name);
    SplitEntry(dir, "");
    assert dir + "/" + "" == dir + "/";
    AbsoluteMatch(g, parts, entry);
    RefusedMatch(g, parts, ruledOut);
    assert parts[..MinLen(|ruledOut|, |parts|)] == parts;
    ListOne(g, Pattern(parts, false), true, dir + "/");
    ListOne(g, Pattern(parts, false), false, dir + "/" + name);
  }

  lemma SplitEntry(dir: string, name: string)
    requires '/' !in name
    ensures var strs := SplitPath(dir + "/" + name); strs == SplitPath(dir) + [name]
  {
    hide Split;
    SplitConcat(dir, name);
    SplitName(name);
  }

  lemma AbsoluteMatch(g: Glob, parts: seq<Part>, strs: seq<string>)
    requires Absolute(parts) && FirstWild(parts) == |parts| && Fits(g, parts, strs, 0)
    ensures Match(g, parts, strs) == Ok(true)
  {
    WindowFits(g, parts, strs, 0, |parts|);
  }

  lemma RefusedMatch(g: Glob, parts: seq<Part>, strs: seq<string>)
    requires Absolute(parts) && FirstWild(parts) == |parts| == |strs|
    requires MatchPart(g, parts[|parts| - 1], strs[|parts| - 1]) == Ok(false)
    ensures Match(g, parts, strs) == Ok(false)
  {
    assert Window(g, parts, strs, 0, |parts|) == Ok(false);
    assert Windows(g, parts, strs, 0, -1) == Ok(false);
  }

  lemma ListOne(g: Glob, p: Pattern, checkChild: bool, str: string)
    requires str != "" && p.parts != [] && !p.negated
    requires Match(g, p.parts, SplitPath(str)).Ok?
    requires checkChild ==> ChildMatch(g, p.parts, SplitPath(str)).Ok?
    ensures List(g, [p], checkChild, str) == Listed(Match(g, p.parts, SplitPath(str)).matched,
                                                    checkChild ==> ChildMatch(g, p.parts, SplitPath(str)).matched)
  {
    hide Match, ChildMatch, SplitPath;
    var strs := SplitPath(str);
    var m, c := Match(g, p.parts, strs).matched, checkChild ==> ChildMatch(g, p.parts, strs).matched;
    assert [p][1..] == [];
    assert ListFrom(g, [p][1..], checkChild, strs, false, m, c) == Listed(m, c);
    assert ListFrom(g, [p], checkChild, strs, false, false, false) == Listed(m, c);
    assert !HasNegated([p]);
  }

  /** The pattern /foo and the directory "/", the pattern /foo/bar and the directory "/foo/". */
  lemma PruningAtSlash()
    ensures
      var pats := [Pattern([Name("/"), Name("foo")], false)];
      List(StarGlob, pats, true, "/") == Listed(false, false) &&
        List(StarGlob, pats, false, "/foo") == Listed(true, true)
    ensures
      var pats := [Pattern([Name("/"), Name("foo"), Name("bar")], false)];
      && List(StarGlob, pats, true, "/foo/") == Listed(false, false)
      && List(StarGlob, pats, false, "/foo/bar") == Listed(true, true)
  {
    hide List, SplitPath;
    var two, three := [Name("/"), Name("foo")], [Name("/"), Name("foo"), Name("bar")];
    NoneWild(two);
    NoneWild(three);
    SplitEntry("", "foo");
    SplitEntry("/foo", "bar");
    assert SplitPath("") == ["/"] by { RootPath(); }
    assert "" + "/" + "foo" == "/foo" && "" + "/" == "/" && "/foo" + "/" + "bar" == "/foo/bar" &&
      "/foo" + "/" == "/foo/";
    SlashRulesOut(StarGlob, two, "", "foo");
    SlashRulesOut(StarGlob, three, "/foo", "bar");
  }

  lemma RootPath()
    ensures SplitPath("") == ["/"]
  {
  }

  lemma NoneWild(parts: seq<Part>)
    requires forall i :: 0 <= i < |parts| ==> !parts[i].Wild()
    ensures FirstWild(parts) == |parts|
  {
    NoWilds(parts);
    HasWild(parts);
  }

  /** The path of an entry of a directory, with one slash between them. */
  function Child(dir: string, name: string): (path: string)
    requires dir != ""
  {
    if dir[|dir| - 1] == '/' then dir + name else dir + "/" + name
  }

  /** Whatever the patterns: when nothing below the directory may match, none of its entries does. */
  ghost predicate PrunesSafely(dir: string)
    requires dir != ""
  {
    forall g: Glob, pats: seq<Pattern>, name: string ::
      Usable(pats) && RuledOut(List(g, pats, true, dir)) ==> NotMatched(List(g, pats, false, Child(dir, name)))
  }

  predicate Usable(pats: seq<Pattern>) {
    forall p :: p in pats ==> p.parts != []
  }

  predicate RuledOut(r: ListResult) {
    r.Listed? && !r.childMayMatch
  }

  predicate NotMatched(r: ListResult) {
    r.Listed? ==> !r.matched
  }

  /** An absolute pattern of `n` parts: anything, and "x" in the end. */
  function UpToX(n: nat): (parts: seq<Part>)
    requires n >= 2
    ensures |parts| == n && Absolute(parts) && FirstWild(parts) == n && parts[n - 1] == Name("x")
    ensures forall i :: 0 <= i < n - 1 ==> !parts[i].isSimple
  {
    var parts := [Part("/", false)] + seq(n - 2, _ => Part("*", false)) + [Name("x")];
    NoneWild(parts);
    parts
  }

  /** Pruning is safe for exactly the directories that do not end in a slash. */
  lemma PruningSafeExactly(dir: string)
    requires dir != ""
    ensures PrunesSafely(dir) <==> dir[|dir| - 1] != '/'
  {
    hide List, SplitPath, UpToX;
    if dir[|dir| - 1] == '/' {
      var d := dir[..|dir| - 1];
      assert d + "/" == dir && d + "/" + "x" == Child(dir, "x");
      SplitEntry(d, "x");
      var strs := SplitPath(d + "/" + "x");
      var parts := UpToX(|strs|);
      assert Fits(Anything, parts, strs, 0);
      SlashRulesOut(Anything, parts, d, "x");
      var pats := [Pattern(parts, false)];
      assert Usable(pats) && RuledOut(List(Anything, pats, true, dir));
      assert !NotMatched(List(Anything, pats, false, Child(dir, "x")));
    } else {
      forall g: Glob, pats: seq<Pattern>, name: string | Usable(pats) && RuledOut(List(g, pats, true, dir))
        ensures NotMatched(List(g, pats, false, Child(dir, name)))
      {
        PruningSound(g, pats, dir, name);
      }
    }
  }

  // ---------------------------------------------------------------- the loops

  method HasDoubleWildcard(parts: seq<Part>) returns (ok: bool, pos: nat)
    ensures ok <==> FirstWild(parts) < |parts|
    ensures pos == if ok then FirstWild(parts) else 0
  {
    for i := 0 to |parts|
      invariant forall j :: 0 <= j < i ==> !parts[j].Wild()
    {
      if parts[i].pattern == "" {
        WildAt(parts, i);
        return true, i;
      }
    }
    NoWilds(parts);
    HasWild(parts);
    return false, 0;
  }

  method MatchWindow(g: Glob, parts: seq<Part>, strs: seq<string>, offset: nat) returns (r: Result)
    requires offset + |parts| <= |strs|
    ensures r == Window(g, parts, strs, offset, |parts|)
  {
    var i := |parts|;
    while i > 0
      invariant 0 <= i <= |parts|
      invariant Window(g, parts, strs, offset, |parts|) == Window(g, parts, strs, offset, i)
    {
      i := i - 1;
      var ok := MatchPart(g, parts[i], strs[offset + i]);
      if ok != Ok(true) { return ok; }
    }
    return Ok(true);
  }

  method MatchPlain(g: Glob, parts: seq<Part>, strs: seq<string>) returns (r: Result)
    ensures r == Plain(g, parts, strs)
  {
    if |parts| == 0 && |strs| == 0 { return Ok(true); }
    if |parts| == 0 { return Ok(false); }
    if |parts| <= |strs| {
      var minOffset, maxOffset := 0, |strs| - |parts|;
      if parts[0].pattern == "/" {
        maxOffset := 0;
      } else if strs[0] == "/" {
        minOffset := 1;
      }
      var offset := maxOffset;
      while offset >= minOffset
        invariant offset <= maxOffset
        invariant Plain(g, parts, strs) == Windows(g, parts, strs, minOffset, offset)
      {
        var w := MatchWindow(g, parts, strs, offset);
        if w != Ok(false) { return w; }
        offset := offset - 1;
      }
    }
    return Ok(false);
  }

  /** Writes the parts after the "**" behind `k` stars, into the buffer shared by all expansions. */
  method AppendSuffix(newPat: array<Part>, at: nat, suffix: seq<Part>)
    requires at + |suffix| <= newPat.Length
    modifies newPat
    ensures newPat[..at + |suffix|] == old(newPat[..at]) + suffix
  {
    for j := 0 to |suffix|
      invariant newPat[..at + j] == old(newPat[..at]) + suffix[..j]
    {
      newPat[at + j] := suffix[j];
    }
    assert suffix[..|suffix|] == suffix;
  }

  /** One round: one more star overwrites what was appended in the round before. */
  method NextExpansion(newPat: array<Part>, parts: seq<Part>, pos: nat, i: nat) returns (expanded: seq<Part>)
    requires pos < |parts| && |parts| - 1 + i <= newPat.Length
    requires newPat[..pos + Before(i)] == parts[..pos] + Stars(Before(i))
    modifies newPat
    ensures newPat[..pos + i] == parts[..pos] + Stars(i)
    ensures expanded == Expansion(parts, pos, i)
  {
    if i > 0 { newPat[pos + i - 1] := STAR; }
    assert newPat[..pos + i] == parts[..pos] + Stars(i);
    AppendSuffix(newPat, pos + i, parts[pos + 1..]);
    assert newPat[..|parts| - 1 + i][..pos + i] == newPat[..pos + i];
    expanded := newPat[..|parts| - 1 + i];
  }

  function Before(i: nat): (r: nat) { if i == 0 then 0 else i - 1 }

  /** Copies the parts before the "**" into a new buffer, as far as they fit. */
  method NewBuffer(parts: seq<Part>, pos: nat, len: nat) returns (newPat: array<Part>)
    requires pos <= |parts|
    ensures fresh(newPat) && newPat.Length == len
    ensures pos <= len ==> newPat[..pos] == parts[..pos]
  {
    newPat := new Part[len](j requires 0 <= j < len => if j < pos && j < |parts| then parts[j] else Part("", false));
  }

  /** match: the shared buffer holds the parts before the "**", then i stars, then the parts after it. */
  method RunMatch(g: Glob, parts: seq<Part>, strs: seq<string>) returns (r: Result)
    ensures r == Match(g, parts, strs)
    decreases Wilds(parts)
  {
    hide Wilds, Plain, Expansion, FirstWild;
    var ok, pos := HasDoubleWildcard(parts);
    if !ok {
      r := MatchPlain(g, parts, strs);
      return;
    }
    var newPat := NewBuffer(parts, pos, |strs|);
    var i: nat := 0;
    while i <= |strs| - |parts| + 1
      invariant Match(g, parts, strs) == Expand(g, parts, strs, i)
      invariant i <= |strs| - |parts| + 1 ==> newPat[..pos + Before(i)] == parts[..pos] + Stars(Before(i))
      decreases |strs| + 2 - i
    {
      var expanded := NextExpansion(newPat, parts, pos, i);
      WildsOfExpansion(parts, i);
      var m := RunMatch(g, expanded, strs);
      if m != Ok(false) { return m; }
      i := i + 1;
    }
    return Ok(false);
  }

  method RunChildMatch(g: Glob, parts: seq<Part>, strs: seq<string>) returns (r: Result)
    requires parts != []
    ensures r == ChildMatch(g, parts, strs)
  {
    hide Match;
    if parts[0].pattern != "/" { return Ok(true); }
    var ok, pos := HasDoubleWildcard(parts);
    var cut := strs;
    if ok && |strs| >= pos { cut := strs[..pos]; }
    var l := if |cut| > |parts| then |parts| else |cut|;
    r := RunMatch(g, parts[..l], cut);
  }

  /** list: the result of the loop with its early exit. */
  method RunList(g: Glob, pats: seq<Pattern>, checkChild: bool, str: string) returns (r: ListResult)
    requires forall p :: p in pats ==> p.parts != []
    ensures r == List(g, pats, checkChild, str)
    ensures r.Listed? ==>
      && (r.matched <==> LastHitCounts(g, pats, SplitPath(str)))
      && (r.childMayMatch <==> MayCount(g, pats, checkChild, SplitPath(str)))
  {
    hide Match, ChildMatch, SplitPath, LastHitCounts, MayCount;
    ListMeans(g, pats, checkChild, str);
    if |pats| == 0 { return Listed(false, false); }
    if str == "" { return BadString; }
    var strs := SplitPath(str);
    var hasNegated := false;
    for i := 0 to |pats|
      invariant hasNegated <==> exists j :: 0 <= j < i && pats[j].negated
    {
      hasNegated := hasNegated || pats[i].negated;
    }
    var matched, mayMatch := false, false;
    for i := 0 to |pats|
      invariant List(g, pats, checkChild, str) ==
        ListFrom(g, pats[i..], checkChild, strs, hasNegated, matched, mayMatch)
    {
      assert pats[i..][1..] == pats[i + 1..];
      var m := RunMatch(g, pats[i].parts, strs);
      if m.BadPattern? { return ListBadPattern; }
      var c := Ok(true);
      if checkChild { c := RunChildMatch(g, pats[i].parts, strs); }
      if c.BadPattern? { return ListBadPattern; }
      if pats[i].negated {
        matched, mayMatch := matched && !m.matched, mayMatch && !m.matched;
      } else {
        matched, mayMatch := matched || m.matched, mayMatch || c.matched;
        if matched && mayMatch && !hasNegated { return Listed(matched, mayMatch); }
      }
    }
    return Listed(matched, mayMatch);
  }
}
