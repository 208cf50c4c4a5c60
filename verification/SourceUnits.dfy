/** `maintainability_source_units.py`: measure each architectural unit without its nested units. */
module SourceUnits {

  /** Physical lines `start` to `end`, both included. */
  datatype Range = Range(start: int, end: int)

  predicate Valid(r: Range) { r.start <= r.end }

  predicate AllValid(rs: seq<Range>) {
    forall r :: r in rs ==> Valid(r)
  }

  predicate Covers(r: Range, line: int) { r.start <= line <= r.end }

  predicate Covered(rs: seq<Range>, line: int) {
    exists r :: r in rs && Covers(r, line)
  }

  predicate Before(a: Range, b: Range) {
    a.start < b.start || (a.start == b.start && a.end <= b.end)
  }

  predicate Sorted(rs: seq<Range>) {
    forall i, k :: 0 <= i < k < |rs| ==> Before(rs[i], rs[k])
  }

  /** Increasing, disjoint, and with at least one line between neighbours. */
  predicate Separated(rs: seq<Range>) {
    forall i, k :: 0 <= i < k < |rs| ==> rs[i].end + 1 < rs[k].start
  }

  lemma InsertKeepsSorted(s: seq<Range>, k: nat, r: Range)
    requires Sorted(s) && k <= |s| && (forall m :: 0 <= m < k ==> Before(s[m], r)) && (k < |s| ==> !Before(s[k], r))
    ensures Sorted(s[..k] + [r] + s[k..])
  {
    forall m | k <= m < |s| ensures Before(r, s[m]) { assert m > k ==> Before(s[k], s[m]); }
  }

  lemma InsertKeepsElements(s: seq<Range>, k: nat, r: Range)
    requires k <= |s|
    ensures multiset(s[..k] + [r] + s[k..]) == multiset(s) + multiset{r}
  {
    assert s == s[..k] + s[k..];
  }

  /** `sorted` of a list of ranges. */
  method SortRanges(rs: seq<Range>) returns (sorted: seq<Range>)
    ensures Sorted(sorted) && multiset(sorted) == multiset(rs)
  {
    sorted := [];
    for i := 0 to |rs|
      invariant Sorted(sorted) && multiset(sorted) == multiset(rs[..i])
    {
      var k := 0;
      while k < |sorted| && Before(sorted[k], rs[i])
        invariant 0 <= k <= |sorted|
        invariant forall m :: 0 <= m < k ==> Before(sorted[m], rs[i])
      {
        k := k + 1;
      }
      assert rs[..i + 1] == rs[..i] + [rs[i]];
      InsertKeepsSorted(sorted, k, rs[i]);
      InsertKeepsElements(sorted, k, rs[i]);
      sorted := sorted[..k] + [rs[i]] + sorted[k..];
    }
    assert rs[..|rs|] == rs;
  }

  /** Merge overlapping and adjacent extents. */
  method MergedIntervals(intervals: seq<Range>) returns (merged: seq<Range>)
    requires AllValid(intervals)
    ensures AllValid(merged) && Separated(merged)
    ensures forall line :: Covered(merged, line) <==> Covered(intervals, line)
  {
    var sorted := SortRanges(intervals);
    SameElements(sorted, intervals);
    merged := [];
    for i := 0 to |sorted|
      invariant AllValid(merged) && Separated(merged)
      invariant merged != [] ==> i > 0 && merged[|merged| - 1].start <= sorted[i - 1].start
      invariant forall line :: Covered(merged, line) <==> Covered(sorted[..i], line)
    {
      var r := sorted[i];
      assert r in sorted && Valid(r);
      ghost var before := merged;
      if merged == [] || r.start > merged[|merged| - 1].end + 1 {
        merged := merged + [r];
      } else {
        var last := merged[|merged| - 1];
        merged := merged[..|merged| - 1] + [Range(last.start, if r.end > last.end then r.end else last.end)];
        MergeCovers(before, r);
      }
      forall line ensures Covered(merged, line) <==> Covered(sorted[..i + 1], line) {
        assert sorted[..i + 1] == sorted[..i] + [r];
        CoveredAppend(sorted[..i], r, line);
        if merged == before + [r] { CoveredAppend(before, r, line); }
      }
    }
    assert sorted[..|sorted|] == sorted;
  }

  lemma SameElements(a: seq<Range>, b: seq<Range>)
    requires multiset(a) == multiset(b)
    ensures forall r :: r in a <==> r in b
  {
    forall r ensures r in a <==> r in b {
      assert r in a <==> r in multiset(a);
      assert r in b <==> r in multiset(b);
    }
  }

  lemma CoveredAppend(rs: seq<Range>, r: Range, line: int)
    ensures Covered(rs + [r], line) <==> Covered(rs, line) || Covers(r, line)
  {
    assert r in rs + [r];
    assert forall x :: x in rs ==> x in rs + [r];
  }

  lemma MergeCovers(merged: seq<Range>, r: Range)
    requires merged != [] && AllValid(merged) && Valid(r)
    requires var last := merged[|merged| - 1]; last.start <= r.start <= last.end + 1
    ensures var last := merged[|merged| - 1];
            var grown := merged[..|merged| - 1] + [Range(last.start, if r.end > last.end then r.end else last.end)];
            forall line :: Covered(grown, line) <==> Covered(merged, line) || Covers(r, line)
  {
    var last, front := merged[|merged| - 1], merged[..|merged| - 1];
    var wide := Range(last.start, if r.end > last.end then r.end else last.end);
    assert last in merged && merged == front + [last];
    forall line ensures Covered(front + [wide], line) <==> Covered(merged, line) || Covers(r, line) {
      CoveredAppend(front, wide, line);
      CoveredAppend(front, last, line);
    }
  }

  /** The lines of `start` to `end` that no excluded extent covers. */
  predicate Remains(start: int, end: int, excluded: seq<Range>, line: int) {
    start <= line <= end && !Covered(excluded, line)
  }

  /** Between the cursor and the next extent nothing is covered. */
  lemma GapIsUncovered(merged: seq<Range>, i: nat, cursor: int, end: int, line: int)
    requires Separated(merged) && AllValid(merged) && i < |merged|
    requires forall k :: 0 <= k < i ==> merged[k].end < cursor || merged[k].start > end
    requires cursor <= line <= end && line < merged[i].start
    ensures !Covered(merged, line)
  {
    assert merged[i] in merged;
    forall r | r in merged ensures !Covers(r, line) {
      var k :| 0 <= k < |merged| && merged[k] == r;
    }
  }

  /** The lines from `start` to `end` that no excluded extent covers, as separated segments. */
  method ExclusiveSegments(start: int, end: int, excluded: seq<Range>) returns (segments: seq<Range>)
    requires AllValid(excluded)
    ensures AllValid(segments) && Separated(segments)
    ensures forall line :: Covered(segments, line) <==> Remains(start, end, excluded, line)
  {
    var merged := MergedIntervals(excluded);
    var cursor := start;
    segments := [];
    for i := 0 to |merged|
      invariant AllValid(segments) && Separated(segments) && start <= cursor
      invariant forall s :: s in segments ==> start <= s.start && s.end <= end && s.end + 1 < cursor
      invariant forall k :: 0 <= k < i ==> merged[k].end < cursor || merged[k].start > end
      invariant forall line :: Covered(segments, line) <==> line < cursor && Remains(start, end, merged, line)
    {
      var r := merged[i];
      assert r in merged && Valid(r);
      if r.end < cursor || r.start > end { continue; }
      ghost var before, cursor0 := segments, cursor;
      if r.start > cursor {
        var segment := Range(cursor, if r.start - 1 < end then r.start - 1 else end);
        segments := segments + [segment];
        forall line ensures Covered(segments, line) <==> Covered(before, line) || Covers(segment, line) {
          CoveredAppend(before, segment, line);
        }
      }
      cursor := if cursor > r.end + 1 then cursor else r.end + 1;
      forall line ensures Covered(segments, line) <==> line < cursor && Remains(start, end, merged, line) {
        if cursor0 <= line < cursor && line <= end {
          if line >= r.start { assert Covers(r, line); } else { GapIsUncovered(merged, i, cursor0, end, line); }
        }
      }
    }
    if cursor <= end {
      ghost var before := segments;
      segments := segments + [Range(cursor, end)];
      forall line ensures Covered(segments, line) <==> Covered(before, line) || cursor <= line <= end {
        CoveredAppend(before, Range(cursor, end), line);
      }
    }
  }

  // ---------------------------------------------------------------- sizes are cardinalities

  function Interval(start: int, end: int): set<int> {
    set line | start <= line <= end && Covers(Range(start, end), line)
  }

  function Lines(rs: seq<Range>): set<int> {
    set r, line | r in rs && r.start <= line <= r.end && Covers(r, line) :: line
  }

  lemma {:induction false} IntervalSize(start: int, end: int)
    requires start <= end + 1
    ensures |Interval(start, end)| == end - start + 1
    decreases end - start
  {
    if start <= end {
      IntervalSize(start, end - 1);
      assert Interval(start, end) == Interval(start, end - 1) + {end};
    } else {
      assert Interval(start, end) == {};
    }
  }

  function SegmentSize(segments: seq<Range>): int {
    if segments == [] then 0
    else SegmentSize(segments[..|segments| - 1]) + (segments[|segments| - 1].end - segments[|segments| - 1].start + 1)
  }

  /** The size of an exclusive unit is the number of its lines. */
  lemma {:induction false} SizeIsCardinality(segments: seq<Range>)
    requires AllValid(segments) && Separated(segments)
    ensures SegmentSize(segments) == |Lines(segments)|
    decreases |segments|
  {
    if segments != [] {
      var front, last := segments[..|segments| - 1], segments[|segments| - 1];
      assert last in segments;
      assert AllValid(front) && Separated(front);
      SizeIsCardinality(front);
      IntervalSize(last.start, last.end);
      LastSegmentIsApart(segments);
    }
  }

  lemma LastSegmentIsApart(segments: seq<Range>)
    requires segments != [] && Separated(segments)
    ensures var front, last := segments[..|segments| - 1], segments[|segments| - 1];
            && Lines(segments) == Lines(front) + Interval(last.start, last.end)
            && Lines(front) !! Interval(last.start, last.end)
  {
    var front, last := segments[..|segments| - 1], segments[|segments| - 1];
    assert segments == front + [last];
    forall line ensures line in Lines(segments) <==> line in Lines(front) || line in Interval(last.start, last.end) {
      CoveredAppend(front, last, line);
      CoversAreLines(segments, line);
      CoversAreLines(front, line);
    }
    forall r | r in front ensures r.end < last.start {
      var i :| 0 <= i < |front| && front[i] == r;
      assert segments[i] == r;
    }
  }

  lemma CoversAreLines(rs: seq<Range>, line: int)
    ensures line in Lines(rs) <==> Covered(rs, line)
  {
  }

  /** A separated list is the only one for its lines, so merging does not depend on the given order. */
  lemma {:induction false} SeparatedIsCanonical(a: seq<Range>, b: seq<Range>)
    requires AllValid(a) && Separated(a) && AllValid(b) && Separated(b)
    requires forall line :: Covered(a, line) <==> Covered(b, line)
    ensures a == b
    decreases |a|
  {
    if a == [] || b == [] {
      if a != [] { assert a[0] in a && Covered(a, a[0].start); }
      if b != [] { assert b[0] in b && Covered(b, b[0].start); }
    } else {
      FirstsAgree(a, b);
      FirstsAgree(b, a);
      assert a[0] == b[0];
      forall line ensures Covered(a[1..], line) <==> Covered(b[1..], line) {
        CoveredRest(a, line);
        CoveredRest(b, line);
      }
      SeparatedIsCanonical(a[1..], b[1..]);
      assert a == [a[0]] + a[1..] && b == [b[0]] + b[1..];
    }
  }

  lemma CoveredRest(a: seq<Range>, line: int)
    requires a != [] && AllValid(a) && Separated(a)
    ensures Covered(a[1..], line) <==> Covered(a, line) && line > a[0].end
  {
    assert a[0] in a;
    forall r | r in a[1..] ensures r in a && r.start > a[0].end {
      var i :| 0 <= i < |a| - 1 && a[1..][i] == r;
      assert a[i + 1] == r;
    }
    if Covered(a, line) && line > a[0].end {
      var r :| r in a && Covers(r, line);
      var i :| 0 <= i < |a| && a[i] == r;
      assert i > 0 && a[1..][i - 1] == r;
    }
  }

  lemma FirstsAgree(a: seq<Range>, b: seq<Range>)
    requires a != [] && b != [] && AllValid(a) && Separated(a) && AllValid(b) && Separated(b)
    requires forall line :: Covered(a, line) <==> Covered(b, line)
    ensures a[0].start <= b[0].start && b[0].end <= a[0].end
  {
    assert a[0] in a && b[0] in b;
    assert Covered(b, b[0].start);
    forall r | r in a ensures a[0].start <= r.start { var i :| 0 <= i < |a| && a[i] == r; }
    forall r | r in b ensures b[0].start <= r.start { var i :| 0 <= i < |b| && b[i] == r; }
    assert Covered(a, a[0].start);
    assert a[0].start == b[0].start;
    var next := a[0].end + 1;
    forall r | r in a ensures !Covers(r, next) { var i :| 0 <= i < |a| && a[i] == r; }
    assert !Covered(a, next);
    assert !Covers(b[0], next);
  }

  // ---------------------------------------------------------------- types partition their lines

  predicate Inside(inner: Range, outer: Range) {
    outer.start <= inner.start && inner.end <= outer.end
  }

  predicate Apart(a: Range, b: Range) {
    a.end < b.start || b.end < a.start
  }

  /** The types of a file: valid extents, no two equal, each two nested or apart. */
  predicate Laminar(types: seq<Range>) {
    && AllValid(types)
    && forall i, k :: 0 <= i < k < |types| ==>
         types[i] != types[k] && (Inside(types[i], types[k]) || Inside(types[k], types[i]) || Apart(types[i], types[k]))
  }

  /** The extents nested in `extent`: inside it, but not equal to it. */
  predicate NestedIn(other: Range, extent: Range) {
    Inside(other, extent) && other != extent
  }

  /** The line belongs to the unit of `types[i]`, not to a type nested in it. */
  predicate Owns(types: seq<Range>, i: nat, line: int)
    requires i < |types|
  {
    Covers(types[i], line) && forall o :: o in types && NestedIn(o, types[i]) ==> !Covers(o, line)
  }

  function OwnedLines(types: seq<Range>, i: nat): set<int>
    requires i < |types|
  {
    set line | types[i].start <= line <= types[i].end && Owns(types, i, line)
  }

  /** The lines that type `i` owns, and with them its size. */
  method TypeSegments(types: seq<Range>, i: nat) returns (segments: seq<Range>)
    requires i < |types| && AllValid(types)
    ensures AllValid(segments) && Separated(segments)
    ensures Lines(segments) == OwnedLines(types, i)
    ensures SegmentSize(segments) == |OwnedLines(types, i)|
  {
    var extent := types[i];
    var nested: seq<Range> := [];
    for k := 0 to |types|
      invariant forall r :: r in nested <==> r in types[..k] && NestedIn(r, extent)
    {
      assert types[..k + 1] == types[..k] + [types[k]];
      if NestedIn(types[k], extent) { nested := nested + [types[k]]; }
    }
    assert types[..|types|] == types;
    segments := ExclusiveSegments(extent.start, extent.end, nested);
    forall line ensures line in Lines(segments) <==> line in OwnedLines(types, i) {
      CoversAreLines(segments, line);
    }
    SizeIsCardinality(segments);
  }

  /** A type that covers the line and has no type nested in it that does: the innermost one. Every covered line has
      one, however the types overlap. */
  lemma {:induction false} InnermostOwns(types: seq<Range>, i: nat, line: int) returns (owner: nat)
    requires i < |types| && Covers(types[i], line)
    ensures owner < |types| && Owns(types, owner, line)
    decreases types[i].end - types[i].start
  {
    if Owns(types, i, line) {
      owner := i;
    } else {
      var o :| o in types && NestedIn(o, types[i]) && Covers(o, line);
      var k :| 0 <= k < |types| && types[k] == o;
      owner := InnermostOwns(types, k, line);
    }
  }

  /** Types that are distinct and nested or apart never own the same line. */
  lemma OwnerIsUnique(types: seq<Range>, i: nat, k: nat, line: int)
    requires Laminar(types) && i < |types| && k < |types| && i != k && Owns(types, i, line)
    ensures !Owns(types, k, line)
  {
    assert types[i] in types && types[k] in types;
  }

  function TotalOwned(types: seq<Range>, n: nat): nat
    requires n <= |types|
  {
    if n == 0 then 0 else TotalOwned(types, n - 1) + |OwnedLines(types, n - 1)|
  }

  function OwnedByFirst(types: seq<Range>, n: nat): set<int>
    requires n <= |types|
  {
    set i, line | 0 <= i < n && line in OwnedLines(types, i) :: line
  }

  lemma OwnedByFirstAre(types: seq<Range>, n: nat, line: int)
    requires n <= |types|
    ensures line in OwnedByFirst(types, n) <==> exists i: nat :: i < n && Owns(types, i, line)
  {
    assert forall i :: 0 <= i < n ==> (line in OwnedLines(types, i) <==> Owns(types, i, line));
  }

  /** However the types overlap, the lines they own are the lines they cover. */
  lemma OwnedIsCovered(types: seq<Range>)
    ensures Lines(types) == OwnedByFirst(types, |types|)
  {
    forall line ensures line in Lines(types) <==> line in OwnedByFirst(types, |types|) {
      CoversAreLines(types, line);
      OwnedByFirstAre(types, |types|, line);
      if Covered(types, line) {
        var r :| r in types && Covers(r, line);
        var i :| 0 <= i < |types| && types[i] == r;
        var owner := InnermostOwns(types, i, line);
      }
      if i: nat :| i < |types| && Owns(types, i, line) { assert types[i] in types; }
    }
  }

  /** The lines of type `k` that an earlier type owns too. */
  function Again(types: seq<Range>, k: nat): set<int>
    requires k < |types|
  {
    set line | line in OwnedLines(types, k) && OwnedBefore(types, k, line)
  }

  predicate OwnedBefore(types: seq<Range>, k: nat, line: int)
    requires k <= |types|
  {
    exists i: nat :: i < k && Owns(types, i, line)
  }

  /** How often lines of the types before `n` are charged again after an earlier type owned them. */
  function OwnedAgain(types: seq<Range>, n: nat): nat
    requires n <= |types|
  {
    if n == 0 then 0 else OwnedAgain(types, n - 1) + |Again(types, n - 1)|
  }

  lemma UnionSize<T>(a: set<T>, b: set<T>)
    ensures |a| + |b| == |a + b| + |a * b|
  {
    var extra := b - a;
    assert a + b == a + extra && b == extra + a * b;
  }

  lemma AgainIsCommon(types: seq<Range>, k: nat)
    requires k < |types|
    ensures Again(types, k) == OwnedByFirst(types, k) * OwnedLines(types, k)
  {
    forall line ensures line in OwnedByFirst(types, k) <==> OwnedBefore(types, k, line) {
      OwnedByFirstAre(types, k, line);
    }
  }

  lemma NextAddsUp(types: seq<Range>, k: nat)
    requires k < |types|
    ensures |OwnedByFirst(types, k)| + |OwnedLines(types, k)| == |OwnedByFirst(types, k + 1)| + |Again(types, k)|
  {
    AgainIsCommon(types, k);
    UnionSize(OwnedByFirst(types, k), OwnedLines(types, k));
    assert OwnedByFirst(types, k + 1) == OwnedByFirst(types, k) + OwnedLines(types, k);
  }

  lemma {:induction false} OwnedAddUp(types: seq<Range>, n: nat)
    requires n <= |types|
    ensures TotalOwned(types, n) == |OwnedByFirst(types, n)| + OwnedAgain(types, n)
  {
    if n > 0 {
      OwnedAddUp(types, n - 1);
      NextAddsUp(types, n - 1);
    }
  }

  /** The sizes of all types exceed the number of covered lines by what is charged again, for every list of types. */
  lemma SizesAreUnionAndSurplus(types: seq<Range>)
    ensures TotalOwned(types, |types|) == |Lines(types)| + OwnedAgain(types, |types|)
  {
    OwnedAddUp(types, |types|);
    OwnedIsCovered(types);
  }

  /** Two extents of which neither is nested in the other: they are equal, cross each other, or are apart. */
  predicate Unnested(a: Range, b: Range) { !NestedIn(a, b) && !NestedIn(b, a) }

  predicate TakenByNested(types: seq<Range>, extent: Range, line: int) {
    exists o :: o in types && NestedIn(o, extent) && Covers(o, line)
  }

  /** Wherever two types of which neither is nested in the other share a line, a type nested in one of them takes it. */
  ghost predicate SharedLinesAreTaken(types: seq<Range>) {
    forall i, k, line {:trigger Covers(types[i], line), Covers(types[k], line)} ::
      0 <= i < k < |types| && Unnested(types[i], types[k]) && Covers(types[i], line) && Covers(types[k], line) ==>
        TakenByNested(types, types[i], line) || TakenByNested(types, types[k], line)
  }

  lemma OwnersAreUnnested(types: seq<Range>, i: nat, k: nat, line: int)
    requires i < |types| && k < |types|
    ensures Owns(types, i, line) && Owns(types, k, line) <==>
              && Unnested(types[i], types[k]) && Covers(types[i], line) && Covers(types[k], line)
              && !TakenByNested(types, types[i], line) && !TakenByNested(types, types[k], line)
  {
    assert types[i] in types && types[k] in types;
  }

  lemma NothingAgain(types: seq<Range>, n: nat)
    requires n < |types| && SharedLinesAreTaken(types)
    ensures Again(types, n) == {}
  {
    forall line | OwnedBefore(types, n, line) ensures line !in OwnedLines(types, n) {
      var i: nat :| i < n && Owns(types, i, line);
      OwnersAreUnnested(types, i, n, line);
    }
  }

  lemma SomethingAgain(types: seq<Range>, i: nat, k: nat, line: int)
    requires i < k < |types| && Owns(types, i, line) && Owns(types, k, line)
    ensures Again(types, k) != {}
  {
    assert OwnedBefore(types, k, line);
    assert line in Again(types, k);
  }

  lemma {:induction false} NothingIsChargedAgain(types: seq<Range>, n: nat)
    requires n <= |types| && SharedLinesAreTaken(types)
    ensures OwnedAgain(types, n) == 0
  {
    if n > 0 {
      NothingIsChargedAgain(types, n - 1);
      NothingAgain(types, n - 1);
    }
  }

  lemma {:induction false} AgainIsPart(types: seq<Range>, n: nat, k: nat)
    requires k < n <= |types|
    ensures |Again(types, k)| <= OwnedAgain(types, n)
  {
    if k < n - 1 { AgainIsPart(types, n - 1, k); }
  }

  /** Conservation. For every list of types, the measured sizes add up to the number of covered lines exactly when
      each line that two types share, neither of them nested in the other, is taken by a type nested in one of them. */
  lemma SizesSumExactlyWhen(types: seq<Range>)
    ensures TotalOwned(types, |types|) == |Lines(types)| <==> SharedLinesAreTaken(types)
  {
    SizesAreUnionAndSurplus(types);
    if SharedLinesAreTaken(types) {
      NothingIsChargedAgain(types, |types|);
    } else {
      var i: nat, k: nat, line :| i < k < |types| && Unnested(types[i], types[k])
        && Covers(types[i], line) && Covers(types[k], line)
        && !TakenByNested(types, types[i], line) && !TakenByNested(types, types[k], line);
      OwnersAreUnnested(types, i, k, line);
      SomethingAgain(types, i, k, line);
      AgainIsPart(types, |types|, k);
      assert |Again(types, k)| > 0;
    }
  }

  /** So it does for distinct types that are nested or apart. */
  lemma SizesSumToUnion(types: seq<Range>)
    requires Laminar(types)
    ensures TotalOwned(types, |types|) == |Lines(types)|
  {
    SizesSumExactlyWhen(types);
  }

  /** Any two types are nested, equal or apart. */
  predicate NestedOrApart(types: seq<Range>) {
    && AllValid(types)
    && forall i, k :: 0 <= i < k < |types| ==>
         Inside(types[i], types[k]) || Inside(types[k], types[i]) || Apart(types[i], types[k])
  }

  /** Among types that are nested, equal or apart, equal extents are charged again, and only as far as they own lines:
      the sizes add up exactly when equal extents own nothing, their lines all being taken by nested types. */
  lemma EqualTypesCountTwice(types: seq<Range>)
    requires NestedOrApart(types)
    ensures TotalOwned(types, |types|) == |Lines(types)| <==>
              forall i, k :: 0 <= i < k < |types| && types[i] == types[k] ==> OwnedLines(types, i) == {}
  {
    SizesSumExactlyWhen(types);
    if SharedLinesAreTaken(types) {
      forall i, k | 0 <= i < k < |types| && types[i] == types[k] ensures OwnedLines(types, i) == {} {
        forall line ensures line !in OwnedLines(types, i) {
          OwnersAreUnnested(types, i, k, line);
        }
      }
    }
    if forall i, k :: 0 <= i < k < |types| && types[i] == types[k] ==> OwnedLines(types, i) == {} {
      forall i, k, line {:trigger Covers(types[i], line), Covers(types[k], line)}
        | 0 <= i < k < |types| && Unnested(types[i], types[k]) && Covers(types[i], line) && Covers(types[k], line)
        ensures TakenByNested(types, types[i], line) || TakenByNested(types, types[k], line)
      {
        assert types[i] == types[k] && line !in OwnedLines(types, i);
      }
    }
  }

  /** Two types that meet on one line are both charged with it. TypeScript types can; two Python classes cannot. */
  lemma SharedBoundaryCountsTwice(a: Range, b: Range)
    requires Valid(a) && Valid(b) && a.start < a.end == b.start < b.end
    ensures TotalOwned([a, b], 2) == |Lines([a, b])| + 1
  {
    var types := [a, b];
    var line := a.end;
    SizesAreUnionAndSurplus(types);
    assert Owns(types, 0, line) && Owns(types, 1, line);
    assert OwnedBefore(types, 1, line);
    assert Again(types, 0) == {} && Again(types, 1) == {line};
    assert OwnedAgain(types, 1) == |Again(types, 0)| == 0;
    assert OwnedAgain(types, 2) == OwnedAgain(types, 1) + |Again(types, 1)| == 1;
  }

  // ---------------------------------------------------------------- types in source order

  /** Each type is followed by types nested in it and by types that start no earlier than it ends. */
  predicate Following(types: seq<Range>) {
    && AllValid(types)
    && forall i, k :: 0 <= i < k < |types| ==> Inside(types[k], types[i]) || types[i].end <= types[k].start
  }

  predicate EqualBefore(types: seq<Range>, k: nat)
    requires k < |types|
  {
    exists i :: 0 <= i < k && types[i] == types[k]
  }

  predicate StartsOnEnd(types: seq<Range>, k: nat)
    requires k < |types|
  {
    exists i :: 0 <= i < k && types[i].end == types[k].start
  }

  /** What type `k` can be charged again: all its lines if its extent is repeated, else the line on which it starts
      if an earlier type ends there. */
  function Charge(types: seq<Range>, k: nat): nat
    requires k < |types|
  {
    if EqualBefore(types, k) then |OwnedLines(types, k)| else if StartsOnEnd(types, k) then 1 else 0
  }

  function Surplus(types: seq<Range>, n: nat): nat
    requires n <= |types|
  {
    if n == 0 then 0 else Surplus(types, n - 1) + Charge(types, n - 1)
  }

  lemma SubsetSize<T>(a: set<T>, b: set<T>)
    requires a <= b
    ensures |a| <= |b|
  {
    assert b == a + (b - a);
  }

  lemma AgainAtStart(types: seq<Range>, n: nat)
    requires Following(types) && n < |types| && !EqualBefore(types, n)
    ensures Again(types, n) <= if StartsOnEnd(types, n) then {types[n].start} else {}
  {
    forall line | line in Again(types, n)
      ensures StartsOnEnd(types, n) && line == types[n].start
    {
      var i: nat :| i < n && Owns(types, i, line);
      OwnersAreUnnested(types, i, n, line);
      assert types[i].end <= types[n].start;
    }
  }

  lemma AgainIsCharged(types: seq<Range>, k: nat)
    requires Following(types) && k < |types|
    ensures |Again(types, k)| <= Charge(types, k)
  {
    if EqualBefore(types, k) {
      SubsetSize(Again(types, k), OwnedLines(types, k));
    } else {
      AgainAtStart(types, k);
      SubsetSize(Again(types, k), if StartsOnEnd(types, k) then {types[k].start} else {});
    }
  }

  /** What each type owns again is what it is charged at most. */
  predicate AllCharged(types: seq<Range>) {
    forall k :: 0 <= k < |types| ==> |Again(types, k)| <= Charge(types, k)
  }

  lemma {:induction false} AgainIsBounded(types: seq<Range>, n: nat)
    requires AllCharged(types) && n <= |types|
    ensures OwnedAgain(types, n) <= Surplus(types, n)
  {
    if n > 0 { AgainIsBounded(types, n - 1); }
  }

  /** In source order the sizes exceed the covered lines by no more than one line for each type that starts where
      another ends, and the lines of repeated extents. */
  lemma SizesExceedUnionBySurplus(types: seq<Range>)
    requires Following(types)
    ensures |Lines(types)| <= TotalOwned(types, |types|) <= |Lines(types)| + Surplus(types, |types|)
  {
    SizesAreUnionAndSurplus(types);
    forall k | 0 <= k < |types| ensures |Again(types, k)| <= Charge(types, k) { AgainIsCharged(types, k); }
    AgainIsBounded(types, |types|);
  }

  // ---------------------------------------------------------------- findings

  /** What of the file changed: new or named explicitly, renamed, or these lines. */
  datatype Selection = Selection(wholeFile: bool, renamed: bool, ranges: seq<Range>)

  datatype SizeFinding = LargeFile(size: int) | LargeType(index: nat, size: int)

  /** A changed line belongs to the unit. */
  method Intersects(segments: seq<Range>, ranges: seq<Range>) returns (hit: bool)
    requires AllValid(segments) && AllValid(ranges)
    ensures hit <==> Lines(segments) * Lines(ranges) != {}
  {
    for i := 0 to |segments|
      invariant forall m, r :: 0 <= m < i && r in ranges ==> Apart(segments[m], r)
    {
      for k := 0 to |ranges|
        invariant forall m :: 0 <= m < k ==> Apart(segments[i], ranges[m])
      {
        assert segments[i] in segments && ranges[k] in ranges;
        if segments[i].start <= ranges[k].end && ranges[k].start <= segments[i].end {
          var line := if segments[i].start > ranges[k].start then segments[i].start else ranges[k].start;
          assert Covers(segments[i], line) && Covers(ranges[k], line);
          CoversAreLines(segments, line);
          CoversAreLines(ranges, line);
          assert line in Lines(segments) * Lines(ranges);
          return true;
        }
      }
      forall r | r in ranges ensures Apart(segments[i], r) { var k :| 0 <= k < |ranges| && ranges[k] == r; }
    }
    forall line ensures !(line in Lines(segments) && line in Lines(ranges)) {
      CoversAreLines(segments, line);
      CoversAreLines(ranges, line);
      forall s, r | s in segments && r in ranges ensures Apart(s, r) {
        var m :| 0 <= m < |segments| && segments[m] == s;
      }
    }
    hit := false;
  }

  /** The change touches the unit that owns `lines`. */
  predicate Touches(selection: Selection, lines: set<int>) {
    ((selection.wholeFile || selection.renamed) && lines != {}) || lines * Lines(selection.ranges) != {}
  }

  method Direct(selection: Selection, segments: seq<Range>) returns (direct: bool)
    requires AllValid(segments) && AllValid(selection.ranges)
    ensures direct <==> Touches(selection, Lines(segments))
  {
    var hit := Intersects(segments, selection.ranges);
    if segments != [] {
      assert segments[0] in segments && Covers(segments[0], segments[0].start);
      CoversAreLines(segments, segments[0].start);
    }
    direct := ((selection.wholeFile || selection.renamed) && segments != []) || hit;
  }

  /** The lines of the file that no type and no top-level function covers. */
  function FileLines(lineCount: nat, units: seq<Range>): set<int> {
    set line | 1 <= line <= (if lineCount > 1 then lineCount else 1) && !Covered(units, line)
  }

  /** The lines of a file outside the given units, as separated segments. */
  method FileSegments(lineCount: nat, units: seq<Range>) returns (segments: seq<Range>)
    requires AllValid(units)
    ensures AllValid(segments) && Lines(segments) == FileLines(lineCount, units)
    ensures SegmentSize(segments) == |FileLines(lineCount, units)|
  {
    segments := ExclusiveSegments(1, if lineCount > 1 then lineCount else 1, units);
    SizeIsCardinality(segments);
    forall line ensures line in Lines(segments) <==> line in FileLines(lineCount, units) {
      CoversAreLines(segments, line);
    }
    assert Lines(segments) == FileLines(lineCount, units);
  }

  /** One obligation for each changed unit whose own lines exceed the limit. `units` are the types and the
      functions outside them; with no unit at all, the whole file is measured. */
  method SizeFindings(selection: Selection, types: seq<Range>, functions: seq<Range>, anyExtent: bool, lineCount: nat,
                      limit: int) returns (findings: seq<SizeFinding>)
    requires AllValid(types) && AllValid(functions) && AllValid(selection.ranges)
    requires !anyExtent ==> types == [] && functions == []
    ensures forall i: nat, size :: LargeType(i, size) in findings <==>
              i < |types| && size == |OwnedLines(types, i)| && size > limit && Touches(selection, OwnedLines(types, i))
    ensures forall size :: LargeFile(size) in findings <==>
              && size == (if anyExtent then |FileLines(lineCount, types + functions)| else lineCount)
              && size > limit && Touches(selection, FileLines(lineCount, types + functions))
  {
    findings := [];
    var fileSegments := FileSegments(lineCount, types + functions);
    var fileSize := if anyExtent then SegmentSize(fileSegments) else lineCount;
    var direct := Direct(selection, fileSegments);
    if fileSize > limit && direct { findings := findings + [LargeFile(fileSize)]; }
    ghost var forFile := findings;
    for i := 0 to |types|
      invariant forall size :: LargeFile(size) in findings <==> LargeFile(size) in forFile
      invariant forall k: nat, size :: LargeType(k, size) in findings <==>
                  k < i && size == |OwnedLines(types, k)| && size > limit && Touches(selection, OwnedLines(types, k))
    {
      var segments := TypeSegments(types, i);
      direct := Direct(selection, segments);
      if SegmentSize(segments) > limit && direct { findings := findings + [LargeType(i, SegmentSize(segments))]; }
    }
  }
}
