/** `dependency_workspaces.py`: workspace globs are compiled to regular expressions. */
module WorkspaceGlobs {
  import opened TextOrder

  /** The expressions the compiler emits. `NotDotAhead` is the lookahead that consumes nothing. */
  datatype Regex =
    | Literal(c: char)
    | NotSlash
    | NotSlashOrDot
    | NotDotAhead
    | Cat(first: Regex, second: Regex)
    | Star(body: Regex)
    | Optional(body: Regex)

  /** `r` matches exactly `s[i..j]`. */
  ghost predicate Matches(r: Regex, s: string, i: nat, j: nat)
    requires i <= j <= |s|
    decreases r, j - i
  {
    match r
    case Literal(c) => j == i + 1 && s[i] == c
    case NotSlash => j == i + 1 && s[i] != '/'
    case NotSlashOrDot => j == i + 1 && s[i] != '/' && s[i] != '.'
    case NotDotAhead => j == i && (i == |s| || s[i] != '.')
    case Cat(a, b) => exists k: nat :: i <= k <= j && Matches(a, s, i, k) && Matches(b, s, k, j)
    case Star(a) => i == j || exists k: nat :: i < k <= j && Matches(a, s, i, k) && Matches(r, s, k, j)
    case Optional(a) => i == j || Matches(a, s, i, j)
  }

  /** A concatenation of expressions. */
  ghost predicate MatchesSeq(rs: seq<Regex>, s: string, i: nat, j: nat)
    requires i <= j <= |s|
  {
    if rs == [] then i == j
    else exists k: nat :: i <= k <= j && Matches(rs[0], s, i, k) && MatchesSeq(rs[1..], s, k, j)
  }

  ghost predicate FullMatch(rs: seq<Regex>, s: string) {
    MatchesSeq(rs, s, 0, |s|)
  }

  // ---------------------------------------------------------------- the compiler

  /** `split("/")`. */
  function Split(s: string): (parts: seq<string>)
    ensures parts != [] && forall p :: p in parts ==> '/' !in p
  {
    if s == "" then [""]
    else
      var rest := Split(s[1..]);
      if s[0] == '/' then [""] + rest else [[s[0]] + rest[0]] + rest[1..]
  }

  /** A text without slashes is one part. */
  lemma {:induction false} SplitOfPart(s: string)
    requires '/' !in s
    ensures Split(s) == [s]
  {
    if s != "" {
      SplitOfPart(s[1..]);
      assert s == [s[0]] + s[1..];
    }
  }

  function Join(parts: seq<string>): string
    requires parts != []
  {
    if |parts| == 1 then parts[0] else parts[0] + "/" + Join(parts[1..])
  }

  const SEGMENT := Cat(NotSlashOrDot, Star(NotSlash))
  const INNER_SEGMENTS := Star(Cat(SEGMENT, Literal('/')))
  const FINAL_SEGMENTS := Optional(Cat(SEGMENT, Star(Cat(Literal('/'), SEGMENT))))

  predicate StartsWithDot(s: string) {
    s != "" && s[0] == '.'
  }

  /** An escaped character, with the two wildcards un-escaped. */
  function CharRegex(c: char): Regex {
    if c == '*' then Star(NotSlash) else if c == '?' then NotSlash else Literal(c)
  }

  function CharsRegex(part: string): seq<Regex> {
    seq(|part|, i requires 0 <= i < |part| => CharRegex(part[i]))
  }

  function PartRegex(part: string, last: bool): seq<Regex> {
    if part == "**" then [if last then FINAL_SEGMENTS else INNER_SEGMENTS]
    else (if StartsWithDot(part) then [] else [NotDotAhead]) + CharsRegex(part) + (if last then [] else [Literal('/')])
  }

  function PartsRegex(parts: seq<string>): seq<Regex> {
    if parts == [] then [] else PartRegex(parts[0], |parts| == 1) + PartsRegex(parts[1..])
  }

  function RemovePrefix(s: string, prefix: string): string {
    if prefix <= s then s[|prefix|..] else s
  }

  function StripSlashes(s: string): string {
    if s != "" && s[|s| - 1] == '/' then StripSlashes(s[..|s| - 1]) else s
  }

  const UNSUPPORTED := {'!', '{', '}', '[', ']', '(', ')', '\\'}

  /** The pattern's segments, unless it is empty, absolute, climbing or uses unsupported syntax. */
  function PatternParts(pattern: string): (parts: seq<string>) {
    var p := StripSlashes(RemovePrefix(pattern, "./"));
    if p == "" || p[0] == '/' || ".." in Split(p) || (exists c | c in p :: c in UNSUPPORTED) then [] else Split(p)
  }

  /** The expression of one part. */
  method CompilePart(part: string, last: bool) returns (piece: seq<Regex>)
    ensures piece == PartRegex(part, last)
  {
    if part == "**" { return [if last then FINAL_SEGMENTS else INNER_SEGMENTS]; }
    piece := if StartsWithDot(part) then [] else [NotDotAhead];
    piece := piece + CharsRegex(part);
    if !last { piece := piece + [Literal('/')]; }
  }

  /** Grow the expression part by part. */
  method CompileParts(parts: seq<string>) returns (expression: seq<Regex>)
    ensures expression == PartsRegex(parts)
  {
    expression := [];
    for i := 0 to |parts|
      invariant expression + PartsRegex(parts[i..]) == PartsRegex(parts)
    {
      var piece := CompilePart(parts[i], i == |parts| - 1);
      FirstPart(parts, i, piece);
      AppendAssociates(expression, piece, PartsRegex(parts[i + 1..]));
      expression := expression + piece;
    }
  }

  lemma FirstPart(parts: seq<string>, i: nat, piece: seq<Regex>)
    requires i < |parts| && piece == PartRegex(parts[i], i == |parts| - 1)
    ensures PartsRegex(parts[i..]) == piece + PartsRegex(parts[i + 1..])
  {
    assert parts[i..][1..] == parts[i + 1..];
  }

  /** `_matches`: whether a directory is a workspace member under one pattern. */
  ghost predicate WorkspaceMatches(directory: string, pattern: string) {
    var parts := PatternParts(pattern);
    parts != [] && FullMatch(PartsRegex(parts), directory)
  }

  // ---------------------------------------------------------------- what patterns mean

  predicate Segment(s: string) {
    s != "" && '/' !in s
  }

  predicate Segments(segments: seq<string>) {
    forall i :: 0 <= i < |segments| ==> Segment(segments[i])
  }

  /** Wildcards within one segment. */
  predicate Wild(part: string, s: string) {
    if part == "" then s == ""
    else if part[0] == '*' then exists k | 0 <= k <= |s| :: Wild(part[1..], s[k..])
    else s != "" && (part[0] == '?' || part[0] == s[0]) && Wild(part[1..], s[1..])
  }

  /** A hidden segment needs an explicit leading dot. */
  predicate PartMeans(part: string, s: string) {
    (StartsWithDot(part) || !StartsWithDot(s)) && Wild(part, s)
  }

  /** The segmentwise meaning: stars stay within a segment, an inner `**` takes zero or more
      non-hidden segments and a final `**` takes one or more. */
  predicate Means(parts: seq<string>, segments: seq<string>)
    decreases |parts| + |segments|
  {
    if parts == [] then segments == []
    else if parts[0] == "**" then
      if |parts| == 1 then segments != [] && forall i :: 0 <= i < |segments| ==> !StartsWithDot(segments[i])
      else Means(parts[1..], segments)
           || (segments != [] && !StartsWithDot(segments[0]) && Means(parts, segments[1..]))
    else segments != [] && PartMeans(parts[0], segments[0]) && Means(parts[1..], segments[1..])
  }

  // ---------------------------------------------------------------- matching lemmas

  /** `s[i..k]` matches `a`, and `s[k..j]` matches `b`. */
  ghost predicate SplitsAt(a: seq<Regex>, b: seq<Regex>, s: string, i: nat, k: nat, j: nat) {
    i <= k <= j <= |s| && MatchesSeq(a, s, i, k) && MatchesSeq(b, s, k, j)
  }

  lemma {:induction false} AppendSplits(a: seq<Regex>, b: seq<Regex>, s: string, i: nat, j: nat) returns (k: nat)
    requires i <= j <= |s| && MatchesSeq(a + b, s, i, j)
    ensures SplitsAt(a, b, s, i, k, j)
    decreases |a|
  {
    if a == [] {
      assert a + b == b;
      k := i;
    } else {
      assert (a + b)[0] == a[0] && (a + b)[1..] == a[1..] + b;
      var m: nat :| i <= m <= j && Matches(a[0], s, i, m) && MatchesSeq(a[1..] + b, s, m, j);
      k := AppendSplits(a[1..], b, s, m, j);
    }
  }

  lemma {:induction false} SplitsAppend(a: seq<Regex>, b: seq<Regex>, s: string, i: nat, k: nat, j: nat)
    requires SplitsAt(a, b, s, i, k, j)
    ensures MatchesSeq(a + b, s, i, j)
    decreases |a|
  {
    if a == [] {
      assert a + b == b;
    } else {
      assert (a + b)[0] == a[0] && (a + b)[1..] == a[1..] + b;
      var m: nat :| i <= m <= k && Matches(a[0], s, i, m) && MatchesSeq(a[1..], s, m, k);
      SplitsAppend(a[1..], b, s, m, k, j);
    }
  }

  lemma CatSplits(a: Regex, b: Regex, s: string, i: nat, j: nat) returns (k: nat)
    requires i <= j <= |s| && Matches(Cat(a, b), s, i, j)
    ensures i <= k <= j && Matches(a, s, i, k) && Matches(b, s, k, j)
  {
    k :| i <= k <= j && Matches(a, s, i, k) && Matches(b, s, k, j);
  }

  lemma RepeatSplits(a: Regex, s: string, i: nat, j: nat) returns (k: nat)
    requires i < j <= |s| && Matches(Star(a), s, i, j)
    ensures i < k <= j && Matches(a, s, i, k) && Matches(Star(a), s, k, j)
  {
    k :| i < k <= j && Matches(a, s, i, k) && Matches(Star(a), s, k, j);
  }

  predicate NoSlash(s: string, i: nat, j: nat)
    requires i <= j <= |s|
  {
    forall m :: i <= m < j ==> s[m] != '/'
  }

  lemma {:induction false} StarNotSlash(s: string, i: nat, j: nat)
    requires i <= j <= |s|
    ensures Matches(Star(NotSlash), s, i, j) <==> NoSlash(s, i, j)
    decreases j - i
  {
    if i < j {
      StarNotSlash(s, i + 1, j);
      assert Matches(NotSlash, s, i, i + 1) <==> s[i] != '/';
    }
  }

  predicate VisibleSegment(s: string, i: nat, j: nat)
    requires i <= j <= |s|
  {
    i < j && s[i] != '.' && NoSlash(s, i, j)
  }

  lemma SegmentRegex(s: string, i: nat, j: nat)
    requires i <= j <= |s|
    ensures Matches(SEGMENT, s, i, j) <==> VisibleSegment(s, i, j)
  {
    if i < j {
      StarNotSlash(s, i + 1, j);
      assert Matches(NotSlashOrDot, s, i, i + 1) <==> s[i] != '/' && s[i] != '.';
      assert Matches(SEGMENT, s, i, j) <==> Matches(NotSlashOrDot, s, i, i + 1) && Matches(Star(NotSlash), s, i + 1, j);
    }
  }

  lemma {:induction false} CharsMeanWild(part: string, s: string, i: nat, j: nat)
    requires '/' !in part && i <= j <= |s|
    ensures MatchesSeq(CharsRegex(part), s, i, j) <==> NoSlash(s, i, j) && Wild(part, s[i..j])
    decreases |part|
  {
    var rs := CharsRegex(part);
    if part != "" {
      assert rs[1..] == CharsRegex(part[1..]);
      var w := s[i..j];
      forall k: nat | i <= k <= j
        ensures MatchesSeq(rs[1..], s, k, j) <==> NoSlash(s, k, j) && Wild(part[1..], w[k - i..])
      {
        CharsMeanWild(part[1..], s, k, j);
        assert s[k..j] == w[k - i..];
      }
      if part[0] == '*' {
        forall k: nat | i <= k <= j ensures Matches(rs[0], s, i, k) <==> NoSlash(s, i, k) { StarNotSlash(s, i, k); }
        if k :| 0 <= k <= |w| && Wild(part[1..], w[k..]) {
          assert NoSlash(s, i, j) ==> MatchesSeq(rs[1..], s, i + k, j) && Matches(rs[0], s, i, i + k);
        }
      } else {
        assert forall k: nat :: i <= k <= j && Matches(rs[0], s, i, k) ==> k == i + 1;
        if i < j { assert Matches(rs[0], s, i, i + 1) <==> s[i] != '/' && (part[0] == '?' || part[0] == s[i]); }
      }
    }
  }

  /** What precedes the slash in the expression of an ordinary part. */
  function HeadRegex(part: string): seq<Regex> {
    (if StartsWithDot(part) then [] else [NotDotAhead]) + CharsRegex(part)
  }

  lemma HeadMeans(part: string, s: string, i: nat, j: nat)
    requires '/' !in part && i < j <= |s|
    ensures MatchesSeq(HeadRegex(part), s, i, j) <==> NoSlash(s, i, j) && PartMeans(part, s[i..j])
  {
    CharsMeanWild(part, s, i, j);
    if StartsWithDot(part) {
      assert HeadRegex(part) == CharsRegex(part);
    } else {
      assert HeadRegex(part)[1..] == CharsRegex(part);
      assert forall k: nat :: i <= k <= j && Matches(NotDotAhead, s, i, k) ==> k == i;
      assert MatchesSeq(HeadRegex(part), s, i, j) <==>
        Matches(NotDotAhead, s, i, i) && MatchesSeq(CharsRegex(part), s, i, j);
    }
  }

  lemma LiteralThen(c: char, rs: seq<Regex>, s: string, i: nat, j: nat)
    requires i <= j <= |s|
    ensures MatchesSeq([Literal(c)] + rs, s, i, j) <==> i < j && s[i] == c && MatchesSeq(rs, s, i + 1, j)
  {
    assert ([Literal(c)] + rs)[1..] == rs;
    assert forall k: nat :: i <= k <= j && Matches(Literal(c), s, i, k) ==> k == i + 1;
    if i < j { assert Matches(Literal(c), s, i, i + 1) <==> s[i] == c; }
  }

  // ---------------------------------------------------------------- joined segments

  /** The rest of the directory, from `i` on, consists of `segments`. */
  predicate At(s: string, i: nat, segments: seq<string>) {
    segments != [] && Segments(segments) && i <= |s| && s[i..] == Join(segments)
  }

  function End(i: nat, segments: seq<string>): nat
    requires segments != []
  {
    i + |segments[0]|
  }

  lemma FirstSegment(s: string, i: nat, segments: seq<string>)
    requires At(s, i, segments)
    ensures i < End(i, segments) <= |s| && s[i..End(i, segments)] == segments[0] && NoSlash(s, i, End(i, segments))
    ensures |segments| == 1 ==> End(i, segments) == |s|
    ensures |segments| > 1 ==>
              End(i, segments) < |s| && s[End(i, segments)] == '/' && At(s, End(i, segments) + 1, segments[1..])
  {
    var t, n := Join(segments), |segments[0]|;
    assert t[..n] == segments[0];
    assert forall m :: 0 <= m < n ==> s[i + m] == t[m] && t[m] == segments[0][m];
    assert forall m :: i <= m < i + n ==> s[m] == segments[0][m - i];
    if |segments| > 1 {
      assert t[n] == '/' && s[i + n] == t[n];
      assert s[i + n + 1..] == t[n + 1..] == Join(segments[1..]);
    }
  }

  /** The first slash, or else the end, is where the first segment ends. */
  lemma FirstSlash(s: string, i: nat, segments: seq<string>, k: nat)
    requires At(s, i, segments) && i <= k <= |s| && NoSlash(s, i, k) && (k < |s| ==> s[k] == '/')
    ensures k == End(i, segments) && (k < |s| <==> |segments| > 1)
  {
    FirstSegment(s, i, segments);
  }

  lemma {:induction false} NothingMeansNothing(parts: seq<string>)
    requires parts != []
    ensures !Means(parts, [])
    decreases |parts|
  {
    if parts[0] == "**" && |parts| > 1 { NothingMeansNothing(parts[1..]); }
  }

  // ---------------------------------------------------------------- one lemma for each kind of part

  lemma LastPartMeans(part: string, s: string, i: nat, segments: seq<string>)
    requires '/' !in part && At(s, i, segments)
    ensures MatchesSeq(HeadRegex(part), s, i, |s|) <==> |segments| == 1 && PartMeans(part, segments[0])
  {
    FirstSegment(s, i, segments);
    HeadMeans(part, s, i, |s|);
  }

  lemma InnerPartMeans(part: string, rest: seq<Regex>, s: string, i: nat, segments: seq<string>)
    requires '/' !in part && At(s, i, segments)
    ensures MatchesSeq(HeadRegex(part) + ([Literal('/')] + rest), s, i, |s|) <==>
              |segments| > 1 && PartMeans(part, segments[0]) && MatchesSeq(rest, s, End(i, segments) + 1, |s|)
  {
    var head, tail, e := HeadRegex(part), [Literal('/')] + rest, End(i, segments);
    FirstSegment(s, i, segments);
    HeadMeans(part, s, i, e);
    LiteralThen('/', rest, s, e, |s|);
    if MatchesSeq(head + tail, s, i, |s|) {
      var k := AppendSplits(head, tail, s, i, |s|);
      LiteralThen('/', rest, s, k, |s|);
      if i < k {
        HeadMeans(part, s, i, k);
        FirstSlash(s, i, segments, k);
      }
    } else if |segments| > 1 && PartMeans(part, segments[0]) && MatchesSeq(rest, s, e + 1, |s|) {
      SplitsAppend(head, tail, s, i, e, |s|);
    }
  }

  const SEGMENT_SLASH := Cat(SEGMENT, Literal('/'))

  lemma SegmentSlash(s: string, i: nat, j: nat)
    requires i <= j <= |s|
    ensures Matches(SEGMENT_SLASH, s, i, j) <==> i + 1 < j && s[j - 1] == '/' && VisibleSegment(s, i, j - 1)
  {
    assert forall k: nat :: i <= k <= j && Matches(Literal('/'), s, k, j) ==> k + 1 == j;
    if i < j {
      SegmentRegex(s, i, j - 1);
      assert Matches(Literal('/'), s, j - 1, j) <==> s[j - 1] == '/';
    }
  }

  lemma StarThen(rest: seq<Regex>, s: string, i: nat, k: nat, j: nat)
    requires i <= k <= j <= |s| && Matches(INNER_SEGMENTS, s, i, k) && MatchesSeq(rest, s, k, j)
    ensures MatchesSeq([INNER_SEGMENTS] + rest, s, i, j)
  {
    assert ([INNER_SEGMENTS] + rest)[1..] == rest;
  }

  lemma StarSplits(rest: seq<Regex>, s: string, i: nat, j: nat) returns (k: nat)
    requires i <= j <= |s| && MatchesSeq([INNER_SEGMENTS] + rest, s, i, j)
    ensures i <= k <= j && Matches(INNER_SEGMENTS, s, i, k) && MatchesSeq(rest, s, k, j)
  {
    assert ([INNER_SEGMENTS] + rest)[1..] == rest;
    k :| i <= k <= j && Matches(INNER_SEGMENTS, s, i, k) && MatchesSeq(rest, s, k, j);
  }

  lemma InnerSegmentsMean(rest: seq<Regex>, s: string, i: nat, segments: seq<string>)
    requires At(s, i, segments)
    ensures MatchesSeq([INNER_SEGMENTS] + rest, s, i, |s|) <==>
              || MatchesSeq(rest, s, i, |s|)
              || (|segments| > 1 && !StartsWithDot(segments[0])
                  && MatchesSeq([INNER_SEGMENTS] + rest, s, End(i, segments) + 1, |s|))
  {
    var e := End(i, segments);
    FirstSegment(s, i, segments);
    assert StartsWithDot(segments[0]) <==> s[i] == '.';
    if MatchesSeq([INNER_SEGMENTS] + rest, s, i, |s|) {
      var n := StarSplits(rest, s, i, |s|);
      if n > i {
        var k := RepeatSplits(SEGMENT_SLASH, s, i, n);
        SegmentSlash(s, i, k);
        FirstSlash(s, i, segments, k - 1);
        StarThen(rest, s, k, n, |s|);
      }
    }
    if MatchesSeq(rest, s, i, |s|) { StarThen(rest, s, i, i, |s|); }
    if |segments| > 1 && !StartsWithDot(segments[0]) && MatchesSeq([INNER_SEGMENTS] + rest, s, e + 1, |s|) {
      var n := StarSplits(rest, s, e + 1, |s|);
      SegmentSlash(s, i, e + 1);
      assert Matches(INNER_SEGMENTS, s, i, n);
      StarThen(rest, s, i, n, |s|);
    }
  }

  const TAIL := Star(Cat(Literal('/'), SEGMENT))

  /** Peeling one more segment off the repetition at the end of a final `**`. */
  lemma TailStep(s: string, i: nat)
    requires i <= |s|
    ensures Matches(TAIL, s, i, |s|) <==> i == |s| || (s[i] == '/' && Matches(Cat(SEGMENT, TAIL), s, i + 1, |s|))
  {
    var slashed := Cat(Literal('/'), SEGMENT);
    if i < |s| {
      assert Matches(Literal('/'), s, i, i + 1) <==> s[i] == '/';
      if Matches(TAIL, s, i, |s|) {
        var m := RepeatSplits(slashed, s, i, |s|);
        var k := CatSplits(Literal('/'), SEGMENT, s, i, m);
        assert k == i + 1;
      }
      if s[i] == '/' && Matches(Cat(SEGMENT, TAIL), s, i + 1, |s|) {
        var k := CatSplits(SEGMENT, TAIL, s, i + 1, |s|);
        assert Matches(slashed, s, i, k);
      }
    }
  }

  predicate NoneHidden(segments: seq<string>) {
    forall i :: 0 <= i < |segments| ==> !StartsWithDot(segments[i])
  }

  lemma {:induction false} SegmentsMean(s: string, i: nat, segments: seq<string>)
    requires At(s, i, segments)
    ensures Matches(Cat(SEGMENT, TAIL), s, i, |s|) <==> NoneHidden(segments)
    decreases |segments|
  {
    var e := End(i, segments);
    FirstSegment(s, i, segments);
    assert NoneHidden(segments) <==> !StartsWithDot(segments[0]) && NoneHidden(segments[1..]);
    assert StartsWithDot(segments[0]) <==> s[i] == '.';
    if |segments| > 1 { SegmentsMean(s, e + 1, segments[1..]); }
    SegmentRegex(s, i, e);
    TailStep(s, e);
    if Matches(Cat(SEGMENT, TAIL), s, i, |s|) {
      var k := CatSplits(SEGMENT, TAIL, s, i, |s|);
      SegmentRegex(s, i, k);
      TailStep(s, k);
      FirstSlash(s, i, segments, k);
    }
  }

  lemma FinalSegmentsMean(s: string, i: nat, segments: seq<string>)
    requires At(s, i, segments)
    ensures MatchesSeq([FINAL_SEGMENTS], s, i, |s|) <==> NoneHidden(segments)
  {
    FirstSegment(s, i, segments);
    SegmentsMean(s, i, segments);
    assert [FINAL_SEGMENTS][1..] == [];
    assert MatchesSeq([], s, |s|, |s|);
    assert MatchesSeq([FINAL_SEGMENTS], s, i, |s|) <==> Matches(FINAL_SEGMENTS, s, i, |s|);
  }

  // ---------------------------------------------------------------- the meaning of a compiled pattern

  ghost predicate Accepts(parts: seq<string>, s: string, i: nat)
    requires i <= |s|
  {
    MatchesSeq(PartsRegex(parts), s, i, |s|)
  }

  lemma StarAccepts(parts: seq<string>, s: string, i: nat, segments: seq<string>)
    requires |parts| > 1 && parts[0] == "**" && At(s, i, segments)
    ensures |segments| > 1 ==> End(i, segments) < |s|
    ensures Accepts(parts, s, i) <==>
              || Accepts(parts[1..], s, i)
              || (|segments| > 1 && !StartsWithDot(segments[0]) && Accepts(parts, s, End(i, segments) + 1))
  {
    FirstSegment(s, i, segments);
    var rest := PartsRegex(parts[1..]);
    assert PartsRegex(parts) == [INNER_SEGMENTS] + rest;
    InnerSegmentsMean(rest, s, i, segments);
  }

  lemma OrdinaryRegex(parts: seq<string>)
    requires |parts| > 1 && parts[0] != "**"
    ensures PartsRegex(parts) == HeadRegex(parts[0]) + ([Literal('/')] + PartsRegex(parts[1..]))
  {
    AppendAssociates(HeadRegex(parts[0]), [Literal('/')], PartsRegex(parts[1..]));
  }

  lemma OrdinaryAccepts(parts: seq<string>, s: string, i: nat, segments: seq<string>)
    requires |parts| > 1 && parts[0] != "**" && '/' !in parts[0] && At(s, i, segments)
    ensures |segments| > 1 ==> End(i, segments) < |s|
    ensures Accepts(parts, s, i) <==>
              |segments| > 1 && PartMeans(parts[0], segments[0]) && Accepts(parts[1..], s, End(i, segments) + 1)
  {
    FirstSegment(s, i, segments);
    OrdinaryRegex(parts);
    InnerPartMeans(parts[0], PartsRegex(parts[1..]), s, i, segments);
  }

  lemma LastAccepts(parts: seq<string>, s: string, i: nat, segments: seq<string>)
    requires |parts| == 1 && '/' !in parts[0] && At(s, i, segments)
    ensures Accepts(parts, s, i) <==> Means(parts, segments)
  {
    if parts[0] == "**" {
      assert PartsRegex(parts) == [FINAL_SEGMENTS];
      FinalSegmentsMean(s, i, segments);
    } else {
      assert PartsRegex(parts) == HeadRegex(parts[0]);
      LastPartMeans(parts[0], s, i, segments);
    }
  }

  /** The same steps on the side of the meaning. */
  lemma MeansSteps(parts: seq<string>, segments: seq<string>)
    requires |parts| > 1 && segments != []
    ensures parts[0] == "**" ==>
              (Means(parts, segments) <==>
                Means(parts[1..], segments)
                || (|segments| > 1 && !StartsWithDot(segments[0]) && Means(parts, segments[1..])))
    ensures parts[0] != "**" ==>
              (Means(parts, segments) <==>
                |segments| > 1 && PartMeans(parts[0], segments[0]) && Means(parts[1..], segments[1..]))
  {
    if |segments| == 1 {
      assert segments[1..] == [];
      NothingMeansNothing(parts);
      NothingMeansNothing(parts[1..]);
    }
  }

  predicate NoSlashes(parts: seq<string>) { forall k :: 0 <= k < |parts| ==> '/' !in parts[k] }

  /** What a claim about a pattern and a directory needs of them. */
  ghost predicate Asked(parts: seq<string>, s: string, i: nat, segments: seq<string>) {
    parts != [] && NoSlashes(parts) && At(s, i, segments)
  }

  /** The expression of the pattern accepts from `i` on exactly what the pattern means. */
  ghost predicate Agrees(parts: seq<string>, s: string, i: nat, segments: seq<string>)
    requires i <= |s|
  {
    Accepts(parts, s, i) <==> Means(parts, segments)
  }

  ghost predicate AllAgree(parts: seq<string>, s: string) {
    forall i: nat, segments :: Asked(parts, s, i, segments) ==> Agrees(parts, s, i, segments)
  }

  /** The same for directories of at most `n` segments. */
  ghost predicate AgreeUpTo(parts: seq<string>, s: string, n: nat) {
    forall i: nat, segments :: |segments| <= n && Asked(parts, s, i, segments) ==> Agrees(parts, s, i, segments)
  }

  lemma StarAgrees(parts: seq<string>, s: string, i: nat, segments: seq<string>)
    requires |parts| > 1 && parts[0] == "**" && Asked(parts, s, i, segments)
    requires Agrees(parts[1..], s, i, segments)
    requires |segments| > 1 ==> End(i, segments) < |s| && Agrees(parts, s, End(i, segments) + 1, segments[1..])
    ensures Agrees(parts, s, i, segments)
  {
    MeansSteps(parts, segments);
    StarAccepts(parts, s, i, segments);
  }

  lemma OrdinaryAgrees(parts: seq<string>, s: string, i: nat, segments: seq<string>)
    requires |parts| > 1 && parts[0] != "**" && Asked(parts, s, i, segments)
    requires |segments| > 1 ==> End(i, segments) < |s| && Agrees(parts[1..], s, End(i, segments) + 1, segments[1..])
    ensures Agrees(parts, s, i, segments)
  {
    MeansSteps(parts, segments);
    OrdinaryAccepts(parts, s, i, segments);
  }

  lemma RestAgrees(parts: seq<string>, s: string, i: nat, segments: seq<string>)
    requires |parts| > 1 && Asked(parts, s, i, segments) && AllAgree(parts[1..], s)
    ensures Agrees(parts[1..], s, i, segments)
  {
    assert NoSlashes(parts[1..]);
  }

  lemma NextAgrees(parts: seq<string>, s: string, i: nat, segments: seq<string>)
    requires Asked(parts, s, i, segments) && |segments| > 1 && AgreeUpTo(parts, s, |segments| - 1)
    ensures End(i, segments) < |s| && Agrees(parts, s, End(i, segments) + 1, segments[1..])
  {
    FirstSegment(s, i, segments);
    assert Asked(parts, s, End(i, segments) + 1, segments[1..]);
  }

  lemma RestOfNextAgrees(parts: seq<string>, s: string, i: nat, segments: seq<string>)
    requires |parts| > 1 && Asked(parts, s, i, segments) && |segments| > 1 && AllAgree(parts[1..], s)
    ensures End(i, segments) < |s| && Agrees(parts[1..], s, End(i, segments) + 1, segments[1..])
  {
    FirstSegment(s, i, segments);
    assert NoSlashes(parts[1..]);
    assert Asked(parts[1..], s, End(i, segments) + 1, segments[1..]);
  }

  lemma StarPreservesMeaning(parts: seq<string>, s: string, i: nat, segments: seq<string>)
    requires |parts| > 1 && parts[0] == "**" && Asked(parts, s, i, segments) && AllAgree(parts[1..], s)
    requires AgreeUpTo(parts, s, |segments| - 1)
    ensures Agrees(parts, s, i, segments)
  {
    RestAgrees(parts, s, i, segments);
    if |segments| > 1 { NextAgrees(parts, s, i, segments); }
    StarAgrees(parts, s, i, segments);
  }

  lemma {:induction false} StarsPreserveMeaning(parts: seq<string>, s: string, n: nat)
    requires |parts| > 1 && parts[0] == "**" && AllAgree(parts[1..], s)
    ensures AgreeUpTo(parts, s, n)
  {
    if n > 0 { StarsPreserveMeaning(parts, s, n - 1); }
    forall i: nat, segments | |segments| <= n && Asked(parts, s, i, segments) ensures Agrees(parts, s, i, segments) {
      StarPreservesMeaning(parts, s, i, segments);
    }
  }

  lemma OrdinaryPreservesMeaning(parts: seq<string>, s: string, i: nat, segments: seq<string>)
    requires |parts| > 1 && parts[0] != "**" && Asked(parts, s, i, segments) && AllAgree(parts[1..], s)
    ensures Agrees(parts, s, i, segments)
  {
    if |segments| > 1 { RestOfNextAgrees(parts, s, i, segments); }
    OrdinaryAgrees(parts, s, i, segments);
  }

  lemma PartsPreserveMeaning(parts: seq<string>, s: string, i: nat, segments: seq<string>)
    requires Asked(parts, s, i, segments) && (|parts| > 1 ==> AllAgree(parts[1..], s))
    ensures Agrees(parts, s, i, segments)
  {
    if |parts| == 1 {
      LastAccepts(parts, s, i, segments);
    } else if parts[0] == "**" {
      StarsPreserveMeaning(parts, s, |segments|);
    } else {
      OrdinaryPreservesMeaning(parts, s, i, segments);
    }
  }

  lemma {:induction false} AllPreserveMeaning(parts: seq<string>, s: string)
    requires parts != []
    ensures AllAgree(parts, s)
  {
    if |parts| > 1 { AllPreserveMeaning(parts[1..], s); }
    forall i: nat, segments | Asked(parts, s, i, segments) ensures Agrees(parts, s, i, segments) {
      PartsPreserveMeaning(parts, s, i, segments);
    }
  }

  /** Compilation preserves meaning: the generated expression matches a directory exactly when the
      segmentwise reading of the pattern does. */
  lemma CompilationPreservesMeaning(parts: seq<string>, s: string, i: nat, segments: seq<string>)
    requires Asked(parts, s, i, segments)
    ensures Agrees(parts, s, i, segments)
  {
    AllPreserveMeaning(parts, s);
  }

  lemma {:induction false} JoinOfSplit(s: string)
    ensures Join(Split(s)) == s
  {
    if s != "" {
      JoinOfSplit(s[1..]);
      var rest := Split(s[1..]);
      if s[0] != '/' && |rest| > 1 {
        assert Split(s)[1..] == rest[1..];
      } else if s[0] == '/' {
        assert Split(s)[1..] == rest;
      }
    }
  }

  lemma {:induction false} NoSlashInParts(s: string, k: nat)
    requires k < |Split(s)|
    ensures '/' !in Split(s)[k]
  {
    if s != "" {
      var rest := Split(s[1..]);
      if s[0] == '/' {
        if k > 0 { NoSlashInParts(s[1..], k - 1); }
      } else {
        NoSlashInParts(s[1..], k);
      }
    }
  }

  // ---------------------------------------------------------------- which patterns are accepted

  lemma {:induction false} SplitOfText(part: string, rest: string)
    requires '/' !in part
    ensures Split(part + "/" + rest) == [part] + Split(rest)
    decreases |part|
  {
    var s := part + "/" + rest;
    if part == "" {
      assert s[1..] == rest;
    } else {
      assert s[1..] == part[1..] + "/" + rest && part == [part[0]] + part[1..];
      SplitOfText(part[1..], rest);
      var tail := Split(s[1..]);
      assert tail[0] == part[1..] && tail[1..] == Split(rest);
    }
  }

  /** Parts without slashes come back when they are joined and split. */
  lemma {:induction false} SplitOfJoin(parts: seq<string>)
    requires parts != [] && forall p :: p in parts ==> '/' !in p
    ensures Split(Join(parts)) == parts
  {
    if |parts| == 1 {
      SplitOfPart(parts[0]);
    } else {
      SplitOfJoin(parts[1..]);
      SplitOfText(parts[0], Join(parts[1..]));
      assert parts == [parts[0]] + parts[1..];
    }
  }

  /** What is left of a text without the slashes at its end. */
  predicate WithoutSlashes(rest: string, body: string) {
    && body <= rest && (forall k :: |body| <= k < |rest| ==> rest[k] == '/')
    && (body != "" ==> body[|body| - 1] != '/')
  }

  /** What is left of a pattern without a leading "./" and without the slashes at its end. */
  predicate Trimmed(pattern: string, body: string) {
    if |pattern| >= 2 && pattern[0] == '.' && pattern[1] == '/' then WithoutSlashes(pattern[2..], body)
    else WithoutSlashes(pattern, body)
  }

  lemma {:induction false} StripsSlashes(s: string)
    ensures WithoutSlashes(s, StripSlashes(s))
  {
    if s != "" && s[|s| - 1] == '/' {
      var front := s[..|s| - 1];
      StripsSlashes(front);
      assert forall k :: 0 <= k < |front| ==> s[k] == front[k];
    }
  }

  lemma OneBody(rest: string, a: string, b: string)
    requires WithoutSlashes(rest, a) && WithoutSlashes(rest, b)
    ensures a == b
  {
    assert a == rest[..|a|] && b == rest[..|b|];
    assert a != "" ==> a[|a| - 1] == rest[|a| - 1];
    assert b != "" ==> b[|b| - 1] == rest[|b| - 1];
  }

  lemma TrimmedExactlyWhen(pattern: string, body: string)
    ensures Trimmed(pattern, body) <==> body == StripSlashes(RemovePrefix(pattern, "./"))
  {
    var rest := RemovePrefix(pattern, "./");
    assert |pattern| >= 2 && pattern[0] == '.' && pattern[1] == '/' <==> "./" <= pattern;
    StripsSlashes(rest);
    if WithoutSlashes(rest, body) { OneBody(rest, body, StripSlashes(rest)); }
  }

  /** A pattern is accepted, with these parts, exactly when what is left of it is not empty or absolute, has none of the
      characters whose meaning is not supported, and no part that climbs. */
  ghost predicate Parted(pattern: string, parts: seq<string>) {
    && parts != [] && (forall p :: p in parts ==> '/' !in p && p != "..")
    && var body := Join(parts);
       && Trimmed(pattern, body) && body != "" && body[0] != '/'
       && forall c :: c in body ==>
            c != '!' && c != '{' && c != '}' && c != '[' && c != ']' && c != '(' && c != ')' && c != '\\'
  }

  lemma PartedExactlyWhen(pattern: string, parts: seq<string>)
    ensures Parted(pattern, parts) <==> parts != [] && parts == PatternParts(pattern)
  {
    var body := StripSlashes(RemovePrefix(pattern, "./"));
    JoinOfSplit(body);
    if parts != [] {
      TrimmedExactlyWhen(pattern, Join(parts));
      if forall p :: p in parts ==> '/' !in p { SplitOfJoin(parts); }
    }
  }

  lemma PartsOfPattern(pattern: string, segments: seq<string>)
    ensures (exists parts :: Parted(pattern, parts) && Means(parts, segments)) <==>
              PatternParts(pattern) != [] && Means(PatternParts(pattern), segments)
  {
    forall parts ensures Parted(pattern, parts) <==> parts != [] && parts == PatternParts(pattern) {
      PartedExactlyWhen(pattern, parts);
    }
  }

  /** A directory is a workspace member under a pattern exactly when the pattern is accepted and its
      segments mean the directory's, for every normalized non-empty directory and every pattern. */
  lemma GlobMeaning(directory: string, pattern: string)
    requires forall part :: part in Split(directory) ==> part != ""
    ensures WorkspaceMatches(directory, pattern) <==>
              exists parts :: Parted(pattern, parts) && Means(parts, Split(directory))
  {
    JoinOfSplit(directory);
    forall k | 0 <= k < |Split(directory)| ensures Segment(Split(directory)[k]) {
      NoSlashInParts(directory, k);
      assert Split(directory)[k] in Split(directory);
    }
    PartsOfPattern(pattern, Split(directory));
    if PatternParts(pattern) != [] {
      assert directory[0..] == directory;
      assert NoSlashes(PatternParts(pattern));
      CompilationPreservesMeaning(PatternParts(pattern), directory, 0, Split(directory));
    }
  }
}
