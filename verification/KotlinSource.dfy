/** `kotlin_source_parser.py`: blank comments and literals in place, cut tokens, and find the extents of
    declarations in the blanked text. */
module KotlinSource {
  import opened Results

  // ---------------------------------------------------------------- comments and literals

  predicate At(text: string, k: nat, mark: string) {
    k + |mark| <= |text| && text[k..k + |mark|] == mark
  }

  /** `text.find(mark, from)` */
  function Find(text: string, mark: string, from: nat): (r: Option<nat>)
    ensures r.Some? ==> from <= r.value && At(text, r.value, mark)
    ensures r.Some? ==> forall k: nat :: from <= k < r.value ==> !At(text, k, mark)
    ensures r.None? ==> forall k: nat :: from <= k ==> !At(text, k, mark)
    decreases |text| - from
  {
    if At(text, from, mark) then Some(from)
    else if from >= |text| then None
    else Find(text, mark, from + 1)
  }

  function CommentEnd(text: string, index: nat): (end: nat)
    requires OpensComment(text, index)
    ensures index + 2 <= end <= |text|
  {
    if At(text, index, "//") then
      assert text[index..index + 2][0] == text[index] && text[index..index + 2][1] == text[index + 1];
      match Find(text, "\n", index) {
        case None => |text|
        case Some(end) =>
          assert text[end..end + 1][0] == '\n';
          end
      }
    else match Find(text, "*/", index + 2) { case None => |text| case Some(end) => end + 2 }
  }

  function QuotedEnd(text: string, index: nat): (end: nat)
    requires OpensLiteral(text, index)
    ensures index < end <= |text|
  {
    var quote := text[index];
    if At(text, index, ['"', '"', '"']) then
      match Find(text, [quote, quote, quote], index + 3) { case None => |text| case Some(end) => end + 3 }
    else
      match Find(text, [quote], index + 1) { case None => |text| case Some(end) => end + 1 }
  }

  predicate OpensComment(text: string, index: nat) { At(text, index, "//") || At(text, index, "/*") }

  predicate OpensLiteral(text: string, index: nat) {
    index < |text| && (text[index] == '"' || text[index] == '\'')
  }

  predicate Opens(text: string, index: nat) { OpensComment(text, index) || OpensLiteral(text, index) }

  function SpanEnd(text: string, index: nat): (end: nat)
    requires Opens(text, index)
    ensures index < end <= |text|
  {
    if OpensComment(text, index) then CommentEnd(text, index) else QuotedEnd(text, index)
  }

  /** Reading from `index`, position `k` lies inside a comment or a literal. */
  predicate Hidden(text: string, index: nat, k: nat)
    decreases |text| - index
  {
    index < |text| && index <= k
    && if Opens(text, index) then k < SpanEnd(text, index) || Hidden(text, SpanEnd(text, index), k)
       else Hidden(text, index + 1, k)
  }

  function CleanAt(text: string, k: nat): char
    requires k < |text|
  {
    if Hidden(text, 0, k) && text[k] != '\n' then ' ' else text[k]
  }

  function Clean(text: string): string {
    seq(|text|, (k: nat) requires k < |text| => CleanAt(text, k))
  }

  /** In place, the span's characters become blanks, but for its newlines. */
  method BlankNonNewlines(chars: array<char>, start: nat, end: nat)
    modifies chars
    ensures forall k :: 0 <= k < chars.Length ==>
              chars[k] == if start <= k < end && old(chars[k]) != '\n' then ' ' else old(chars[k])
  {
    var position := start;
    while position < end && position < chars.Length
      invariant start <= position
      invariant forall k :: 0 <= k < chars.Length ==>
                  chars[k] == if start <= k < position && k < end && old(chars[k]) != '\n' then ' ' else old(chars[k])
    {
      if chars[position] != '\n' { chars[position] := ' '; }
      position := position + 1;
    }
  }

  /** Replace comments and literals with blanks. */
  method Sanitized(text: string) returns (clean: string)
    ensures clean == Clean(text)
  {
    var chars := new char[|text|](k requires 0 <= k < |text| => text[k]);
    var index := 0;
    while index < |text|
      invariant 0 <= index <= |text|
      invariant forall k :: 0 <= k < index ==> chars[k] == CleanAt(text, k)
      invariant forall k :: index <= k < |text| ==> chars[k] == text[k]
      invariant forall k :: index <= k < |text| ==> (Hidden(text, 0, k) <==> Hidden(text, index, k))
    {
      ghost var index0 := index;
      if At(text, index, "//") || At(text, index, "/*") {
        var end := CommentEnd(text, index);
        BlankNonNewlines(chars, index, end);
        index := end;
      } else if text[index] == '"' || text[index] == '\'' {
        var end := QuotedEnd(text, index);
        BlankNonNewlines(chars, index, end);
        index := end;
      } else {
        index := index + 1;
      }
      HiddenStep(text, index0, index);
    }
    clean := chars[..];
    assert |clean| == |Clean(text)|;
  }

  lemma HiddenStep(text: string, index: nat, next: nat)
    requires index < |text| && next == if Opens(text, index) then SpanEnd(text, index) else index + 1
    ensures forall k :: index <= k < next ==> (Hidden(text, index, k) <==> Opens(text, index))
    ensures forall k :: next <= k ==> (Hidden(text, index, k) <==> Hidden(text, next, k))
  {
  }

  /** Positions and lines survive: nothing moves, newlines stay, and every other character is kept or blanked. */
  lemma CleanKeepsPositions(text: string)
    ensures |Clean(text)| == |text|
    ensures forall k :: 0 <= k < |text| ==> (Clean(text)[k] == '\n' <==> text[k] == '\n')
    ensures forall k :: 0 <= k < |text| ==> Clean(text)[k] == text[k] || Clean(text)[k] == ' '
  {
  }

  lemma {:induction false} VisibleIsNoOpener(text: string, index: nat, k: nat)
    requires index <= k < |text| && !Hidden(text, index, k)
    ensures !Opens(text, k)
    decreases |text| - index
  {
    if Opens(text, index) { VisibleIsNoOpener(text, SpanEnd(text, index), k); }
    else if index < k { VisibleIsNoOpener(text, index + 1, k); }
  }

  predicate NoOpener(text: string) { forall k: nat :: k < |text| ==> !Opens(text, k) }

  /** No comment and no literal is left. */
  lemma CleanHasNoOpener(text: string)
    ensures NoOpener(Clean(text))
  {
    var clean := Clean(text);
    forall k: nat | k < |clean| ensures !Opens(clean, k) {
      if Opens(clean, k) {
        AtPair(clean, k);
        AtPair(text, k);
        if !Hidden(text, 0, k) { VisibleIsNoOpener(text, 0, k); }
      }
    }
  }

  lemma AtPair(text: string, k: nat)
    ensures OpensComment(text, k) <==> k + 1 < |text| && text[k] == '/' && (text[k + 1] == '/' || text[k + 1] == '*')
  {
    if k + 1 < |text| {
      var pair := text[k..k + 2];
      assert pair[0] == text[k] && pair[1] == text[k + 1];
      assert pair == [text[k], text[k + 1]];
    }
  }

  lemma {:induction false} NothingHidden(text: string, index: nat, k: nat)
    requires NoOpener(text)
    ensures !Hidden(text, index, k)
    decreases |text| - index
  {
    if index < |text| { NothingHidden(text, index + 1, k); }
  }

  /** Exactly the texts without comments and literals are left alone, so cleaning twice is cleaning once. */
  lemma CleanFixesExactlyCleanTexts(text: string)
    ensures Clean(text) == text <==> NoOpener(text)
    ensures Clean(Clean(text)) == Clean(text)
  {
    CleanHasNoOpener(text);
    KeepsCleanText(Clean(text));
    if NoOpener(text) { KeepsCleanText(text); }
  }

  lemma KeepsCleanText(text: string)
    requires NoOpener(text)
    ensures Clean(text) == text
  {
    forall k: nat | k < |text| ensures !Hidden(text, 0, k) { NothingHidden(text, 0, k); }
  }

  // ---------------------------------------------------------------- what is blanked, character by character

  predicate CommentAt(text: string, k: nat) {
    k + 1 < |text| && text[k] == '/' && (text[k + 1] == '/' || text[k + 1] == '*')
  }

  predicate QuoteAt(text: string, k: nat) { k < |text| && (text[k] == '"' || text[k] == '\'') }

  predicate TripleAt(text: string, k: nat) {
    k + 2 < |text| && text[k] == '"' && text[k + 1] == '"' && text[k + 2] == '"'
  }

  predicate MarkAt(text: string, k: nat, mark: string) {
    k + |mark| <= |text| && forall i :: 0 <= i < |mark| ==> text[k + i] == mark[i]
  }

  /** `end` is just behind the first `mark` from `from` on, or the end of a text without any. */
  ghost predicate ClosedBy(text: string, from: nat, end: nat, mark: string) {
    || (from + |mark| <= end && MarkAt(text, end - |mark|, mark)
        && forall k: nat :: from <= k < end - |mark| ==> !MarkAt(text, k, mark))
    || (end == |text| && forall k: nat :: from <= k ==> !MarkAt(text, k, mark))
  }

  lemma MarkExactlyWhen(text: string, k: nat, mark: string)
    ensures MarkAt(text, k, mark) <==> At(text, k, mark)
  {
    if k + |mark| <= |text| {
      var piece := text[k..k + |mark|];
      if MarkAt(text, k, mark) { assert piece == mark; }
      forall i | 0 <= i < |mark| && piece == mark ensures text[k + i] == mark[i] { assert piece[i] == text[k + i]; }
    }
  }

  /** A comment or literal begins at `start` and ends before `end`: a line comment before its newline, a block comment
      behind its first closing mark, a literal behind the first quotes like those that open it. */
  ghost predicate SpanAt(text: string, start: nat, end: nat) {
    && start < end <= |text|
    && if CommentAt(text, start) && text[start + 1] == '/' then
         (forall k :: start <= k < end ==> text[k] != '\n') && (end < |text| ==> text[end] == '\n')
       else if CommentAt(text, start) then ClosedBy(text, start + 2, end, "*/")
       else if TripleAt(text, start) then ClosedBy(text, start + 3, end, ['"', '"', '"'])
       else QuoteAt(text, start) && ClosedBy(text, start + 1, end, [text[start]])
  }

  /** Position `k` lies in one of the spans. */
  predicate InSpan(spans: seq<(nat, nat)>, k: nat) {
    exists i :: 0 <= i < |spans| && spans[i].0 <= k < spans[i].1
  }

  /** From `from` on, the comments and literals of the text are exactly the spans: nothing opens outside them. */
  ghost predicate Spans(text: string, from: nat, spans: seq<(nat, nat)>) {
    && (forall i :: 0 <= i < |spans| ==> from <= spans[i].0 && SpanAt(text, spans[i].0, spans[i].1))
    && (forall i, j :: 0 <= i < j < |spans| ==> spans[i].1 <= spans[j].0)
    && forall k: nat :: from <= k < |text| && !InSpan(spans, k) ==> !CommentAt(text, k) && !QuoteAt(text, k)
  }

  lemma OpensExactlyWhen(text: string, k: nat)
    ensures OpensComment(text, k) <==> CommentAt(text, k)
    ensures OpensLiteral(text, k) <==> QuoteAt(text, k)
    ensures At(text, k, "//") <==> CommentAt(text, k) && text[k + 1] == '/'
    ensures At(text, k, ['"', '"', '"']) <==> TripleAt(text, k)
  {
    AtPair(text, k);
    if k + 1 < |text| { assert text[k..k + 2] == [text[k], text[k + 1]]; }
    if k + 2 < |text| { assert text[k..k + 3] == [text[k], text[k + 1], text[k + 2]]; }
  }

  lemma FindCloses(text: string, mark: string, from: nat, end: nat)
    requires mark != "" && from <= |text|
    requires end == match Find(text, mark, from) case None => |text| case Some(k) => k + |mark|
    ensures ClosedBy(text, from, end, mark)
  {
    forall k: nat ensures MarkAt(text, k, mark) <==> At(text, k, mark) { MarkExactlyWhen(text, k, mark); }
  }

  lemma LineEnds(text: string, index: nat)
    requires index + 1 < |text| && text[index] == '/' && text[index + 1] == '/'
    ensures var end := CommentEnd(text, index);
            (forall k :: index <= k < end ==> text[k] != '\n') && (end < |text| ==> text[end] == '\n')
  {
    OpensExactlyWhen(text, index);
    var end := CommentEnd(text, index);
    forall k | index <= k < end ensures text[k] != '\n' {
      MarkExactlyWhen(text, k, "\n");
      assert !At(text, k, "\n");
    }
    if end < |text| { assert text[end..end + 1][0] == text[end]; }
  }

  /** A span ends at its first closing mark. */
  lemma SpanEndExactly(text: string, index: nat)
    requires Opens(text, index)
    ensures SpanAt(text, index, SpanEnd(text, index))
  {
    OpensExactlyWhen(text, index);
    if CommentAt(text, index) && text[index + 1] == '/' {
      LineEnds(text, index);
    } else if CommentAt(text, index) {
      FindCloses(text, "*/", index + 2, SpanEnd(text, index));
    } else if TripleAt(text, index) {
      FindCloses(text, ['"', '"', '"'], index + 3, SpanEnd(text, index));
    } else {
      FindCloses(text, [text[index]], index + 1, SpanEnd(text, index));
    }
  }

  lemma {:induction false} HiddenIsInSpan(text: string, index: nat) returns (spans: seq<(nat, nat)>)
    requires index <= |text|
    ensures Spans(text, index, spans)
    ensures forall k: nat :: index <= k < |text| ==> (Hidden(text, index, k) <==> InSpan(spans, k))
    decreases |text| - index
  {
    if index == |text| {
      spans := [];
    } else {
      OpensExactlyWhen(text, index);
      var next := if Opens(text, index) then SpanEnd(text, index) else index + 1;
      var rest := HiddenIsInSpan(text, next);
      HiddenStep(text, index, next);
      if Opens(text, index) {
        spans := [(index, next)] + rest;
        SpanEndExactly(text, index);
        forall k: nat ensures InSpan(spans, k) <==> index <= k < next || InSpan(rest, k) {
          InSpanCons((index, next), rest, k);
        }
      } else {
        spans := rest;
        assert !InSpan(rest, index);
      }
    }
  }

  lemma InSpanCons(first: (nat, nat), rest: seq<(nat, nat)>, k: nat)
    ensures InSpan([first] + rest, k) <==> first.0 <= k < first.1 || InSpan(rest, k)
  {
    var all := [first] + rest;
    if first.0 <= k < first.1 { assert all[0] == first; }
    if InSpan(rest, k) {
      var i :| 0 <= i < |rest| && rest[i].0 <= k < rest[i].1;
      assert all[i + 1] == rest[i];
    }
    if InSpan(all, k) {
      var i :| 0 <= i < |all| && all[i].0 <= k < all[i].1;
      assert i > 0 ==> rest[i - 1] == all[i];
    }
  }

  lemma SpanEndIsUnique(text: string, start: nat, a: nat, b: nat)
    requires SpanAt(text, start, a) && SpanAt(text, start, b)
    ensures a == b
  {
  }

  lemma FirstSpan(text: string, from: nat, a: seq<(nat, nat)>, b: seq<(nat, nat)>)
    requires Spans(text, from, a) && Spans(text, from, b) && a != []
    ensures b != [] && b[0] == a[0]
  {
    assert CommentAt(text, a[0].0) || QuoteAt(text, a[0].0);
    assert InSpan(b, a[0].0);
    assert CommentAt(text, b[0].0) || QuoteAt(text, b[0].0);
    assert InSpan(a, b[0].0);
    SpanEndIsUnique(text, a[0].0, a[0].1, b[0].1);
  }

  lemma RestSpans(text: string, from: nat, spans: seq<(nat, nat)>)
    requires Spans(text, from, spans) && spans != []
    ensures Spans(text, spans[0].1, spans[1..])
  {
    forall k: nat | spans[0].1 <= k < |text| && !InSpan(spans[1..], k)
      ensures !CommentAt(text, k) && !QuoteAt(text, k)
    {
      assert spans == [spans[0]] + spans[1..];
      InSpanCons(spans[0], spans[1..], k);
    }
  }

  lemma SameSpans(a: seq<(nat, nat)>, b: seq<(nat, nat)>)
    requires a != [] && b != [] && a[0] == b[0] && a[1..] == b[1..]
    ensures a == b
  {
    assert a == [a[0]] + a[1..] && b == [b[0]] + b[1..];
  }

  /** A text has one such list of comments and literals only. */
  lemma {:induction false} SpansAreUnique(text: string, from: nat, a: seq<(nat, nat)>, b: seq<(nat, nat)>)
    requires Spans(text, from, a) && Spans(text, from, b)
    ensures a == b
    decreases |a|
  {
    if a != [] {
      FirstSpan(text, from, a, b);
      RestSpans(text, from, a);
      RestSpans(text, from, b);
      SpansAreUnique(text, a[0].1, a[1..], b[1..]);
      SameSpans(a, b);
    } else if b != [] {
      FirstSpan(text, from, b, a);
    }
  }

  /** Exactly the comments and literals are blanked, newlines excepted, each up to its first closing mark. */
  lemma CleanBlanksSpans(text: string) returns (spans: seq<(nat, nat)>)
    ensures Spans(text, 0, spans)
    ensures forall k: nat :: k < |text| ==>
              Clean(text)[k] == if InSpan(spans, k) && text[k] != '\n' then ' ' else text[k]
  {
    spans := HiddenIsInSpan(text, 0);
  }

  // ---------------------------------------------------------------- tokens

  /** `\w` and `\s` of the regular expressions. */
  datatype Classes = Classes(word: char -> bool, space: char -> bool)

  ghost predicate Sound(c: Classes) {
    c.space(' ') && c.space('\n') && (forall x :: c.word(x) ==> !c.space(x))
    && (forall x :: StartsName(x) ==> c.word(x))
  }

  predicate StartsName(x: char) { 'A' <= x <= 'Z' || 'a' <= x <= 'z' || x == '_' }

  datatype Token = Token(value: string, offset: nat, line: nat)

  /** The line of an offset: one more than the newlines before it. */
  function LineOf(text: string, offset: nat): nat
    requires offset <= |text|
  {
    if offset == 0 then 1 else LineOf(text, offset - 1) + (if text[offset - 1] == '\n' then 1 else 0)
  }

  function WordEnd(c: Classes, text: string, k: nat): (end: nat)
    requires k <= |text|
    ensures k <= end <= |text|
    ensures forall m :: k <= m < end ==> c.word(text[m])
    ensures end < |text| ==> !c.word(text[end])
    decreases |text| - k
  {
    if k < |text| && c.word(text[k]) then WordEnd(c, text, k + 1) else k
  }

  function TokensFrom(c: Classes, clean: string, k: nat): (r: seq<Token>)
    requires k <= |clean|
    decreases |clean| - k
  {
    if k == |clean| then []
    else if StartsName(clean[k]) then
      var end := WordEnd(c, clean, k + 1);
      [Token(clean[k..end], k, LineOf(clean, k))] + TokensFrom(c, clean, end)
    else if !c.space(clean[k]) then
      [Token(clean[k..k + 1], k, LineOf(clean, k))] + TokensFrom(c, clean, k + 1)
    else TokensFrom(c, clean, k + 1)
  }

  method Tokens(c: Classes, text: string) returns (stream: seq<Token>)
    ensures stream == TokensFrom(c, Clean(text), 0)
  {
    var clean := Sanitized(text);
    stream := TokensFrom(c, clean, 0);
  }

  function End(t: Token): nat { t.offset + |t.value| }

  ghost predicate TokenOf(c: Classes, text: string, t: Token) {
    && t.value != [] && End(t) <= |text| && t.value == text[t.offset..End(t)] && t.line == LineOf(text, t.offset)
    && forall k :: t.offset <= k < End(t) ==> !c.space(text[k])
  }

  /** In order without overlap, after `from`. */
  predicate InOrder(stream: seq<Token>, from: nat) {
    && (forall i :: 0 <= i < |stream| ==> from <= stream[i].offset)
    && forall i, j :: 0 <= i < j < |stream| ==> End(stream[i]) <= stream[j].offset
  }

  predicate InToken(stream: seq<Token>, k: nat) {
    exists i :: 0 <= i < |stream| && stream[i].offset <= k < End(stream[i])
  }

  /** The tokens are the text: in order, without overlap, and together all that is not space. */
  lemma {:induction false} TokensPartition(c: Classes, text: string, k: nat)
    requires Sound(c) && k <= |text|
    ensures Partitions(c, text, k, TokensFrom(c, text, k))
    decreases |text| - k
  {
    if k < |text| {
      if StartsName(text[k]) {
        var end := WordEnd(c, text, k + 1);
        TokensPartition(c, text, end);
        OneMoreToken(c, text, k, end, TokensFrom(c, text, end));
      } else {
        TokensPartition(c, text, k + 1);
        if !c.space(text[k]) { OneMoreToken(c, text, k, k + 1, TokensFrom(c, text, k + 1)); }
      }
    }
  }

  /** A whole name, from a letter or underscore to the last word character; or a single other character. */
  ghost predicate Whole(c: Classes, text: string, t: Token) {
    && t.value != "" && End(t) <= |text|
    && var first := t.value[0];
       if first == '_' || 'a' <= first <= 'z' || 'A' <= first <= 'Z' then
         (forall k :: 1 <= k < |t.value| ==> c.word(t.value[k])) && (End(t) < |text| ==> !c.word(text[End(t)]))
       else |t.value| == 1
  }

  lemma {:induction false} TokensAreWhole(c: Classes, text: string, k: nat)
    requires Sound(c) && k <= |text|
    ensures forall t :: t in TokensFrom(c, text, k) ==> Whole(c, text, t)
    decreases |text| - k
  {
    if k < |text| {
      if StartsName(text[k]) {
        var end := WordEnd(c, text, k + 1);
        TokensAreWhole(c, text, end);
        assert forall m :: 1 <= m < end - k ==> text[k..end][m] == text[k + m];
        assert Whole(c, text, Token(text[k..end], k, LineOf(text, k)));
      } else {
        TokensAreWhole(c, text, k + 1);
      }
    }
  }

  /** The tokens are those of the text from `k` on. */
  ghost predicate Partitions(c: Classes, text: string, k: nat, stream: seq<Token>) {
    && k <= |text|
    && (forall t :: t in stream ==> TokenOf(c, text, t))
    && InOrder(stream, k)
    && forall p: nat :: k <= p < |text| ==> (InToken(stream, p) <==> !c.space(text[p]))
  }

  lemma OneMoreToken(c: Classes, text: string, k: nat, end: nat, rest: seq<Token>)
    requires k < end <= |text| && (forall p :: k <= p < end ==> !c.space(text[p]))
    requires Partitions(c, text, end, rest)
    ensures Partitions(c, text, k, [Token(text[k..end], k, LineOf(text, k))] + rest)
  {
    var first := Token(text[k..end], k, LineOf(text, k));
    var all := [first] + rest;
    assert TokenOf(c, text, first);
    forall p: nat | k <= p < |text| ensures InToken(all, p) <==> !c.space(text[p]) {
      InTokenCons(first, rest, p);
      if InToken(rest, p) {
        var i :| 0 <= i < |rest| && rest[i].offset <= p < End(rest[i]);
      }
    }
  }

  lemma InTokenCons(first: Token, rest: seq<Token>, p: nat)
    ensures InToken([first] + rest, p) <==> first.offset <= p < End(first) || InToken(rest, p)
  {
    var all := [first] + rest;
    assert all[0] == first;
    if InToken(rest, p) {
      var i :| 0 <= i < |rest| && rest[i].offset <= p < End(rest[i]);
      assert all[i + 1] == rest[i];
    }
    if InToken(all, p) {
      var i :| 0 <= i < |all| && all[i].offset <= p < End(all[i]);
      assert i > 0 ==> rest[i - 1] == all[i];
    }
  }

  /** The line of an offset is one more than the newlines before it. */
  lemma {:induction false} LineCountsNewlines(text: string, offset: nat)
    requires offset <= |text|
    ensures LineOf(text, offset) == 1 + |set k | 0 <= k < offset && text[k] == '\n'|
  {
    var before := set k | 0 <= k < offset && text[k] == '\n';
    if offset == 0 {
      assert before == {};
    } else {
      LineCountsNewlines(text, offset - 1);
      var rest := set k | 0 <= k < offset - 1 && text[k] == '\n';
      assert before == rest + if text[offset - 1] == '\n' then {offset - 1} else {};
    }
  }

  lemma {:induction false} LinesGrow(text: string, a: nat, b: nat)
    requires a <= b <= |text|
    ensures LineOf(text, a) <= LineOf(text, b)
    decreases b
  {
    if a < b { LinesGrow(text, a, b - 1); }
  }

  lemma {:induction false} CleanKeepsLines(text: string, offset: nat)
    requires offset <= |text|
    ensures LineOf(Clean(text), offset) == LineOf(text, offset)
  {
    if offset > 0 { CleanKeepsLines(text, offset - 1); }
  }

  predicate LinesInOrder(stream: seq<Token>) {
    forall i, j :: 0 <= i <= j < |stream| ==> stream[i].line <= stream[j].line
  }

  /** Every token stands at its offset and line in the original text, and lines never decrease. */
  lemma TokensAreSource(c: Classes, text: string)
    requires Sound(c)
    ensures forall t :: t in TokensFrom(c, Clean(text), 0) ==> TokenOf(c, text, t)
    ensures InOrder(TokensFrom(c, Clean(text), 0), 0) && LinesInOrder(TokensFrom(c, Clean(text), 0))
  {
    var clean := Clean(text);
    var stream := TokensFrom(c, clean, 0);
    TokensPartition(c, clean, 0);
    forall t | t in stream ensures TokenOf(c, text, t) {
      assert TokenOf(c, clean, t);
      assert forall k :: t.offset <= k < End(t) ==> text[k] == clean[k];
      assert text[t.offset..End(t)] == clean[t.offset..End(t)];
      CleanKeepsLines(text, t.offset);
    }
    forall i, j | 0 <= i <= j < |stream| ensures stream[i].line <= stream[j].line {
      assert TokenOf(c, clean, stream[i]) && TokenOf(c, clean, stream[j]);
      LinesGrow(clean, stream[i].offset, stream[j].offset);
    }
  }

  // ---------------------------------------------------------------- extents of declarations

  predicate Keyword(value: string) {
    value == "class" || value == "interface" || value == "object" || value == "fun" || value == "typealias"
  }

  predicate Delimits(value: string) { value == "{" || value == "=" || value == ";" }

  predicate EndsHeader(value: string) { value == "}" || Keyword(value) }

  /** Where the header that is read from `start` is delimited. */
  function Delimiter(stream: seq<Token>, start: nat): (r: Option<nat>)
    ensures r.Some? ==> start <= r.value < |stream| && Delimits(stream[r.value].value)
    ensures r.Some? ==> forall k :: start <= k < r.value ==> !EndsHeader(stream[k].value) && !Delimits(stream[k].value)
    decreases |stream| - start
  {
    if start >= |stream| || (EndsHeader(stream[start].value) && !Delimits(stream[start].value)) then None
    else if Delimits(stream[start].value) then Some(start)
    else Delimiter(stream, start + 1)
  }

  function Step(value: string, open: string, close: string): int {
    (if value == open then 1 else 0) - (if value == close then 1 else 0)
  }

  /** Openings less closings among the tokens `from` to `to`. */
  function Depth(stream: seq<Token>, open: string, close: string, from: nat, to: nat): int
    requires from <= to <= |stream|
  {
    if from == to then 0 else Depth(stream, open, close, from, to - 1) + Step(stream[to - 1].value, open, close)
  }

  /** After token `p` as much is closed as was opened from `from` on. */
  ghost predicate ClosedAfter(stream: seq<Token>, open: string, close: string, from: nat, p: nat) {
    from <= p < |stream| && Depth(stream, open, close, from, p + 1) == 0
  }

  /** `end` is the first token at which what `from` opens is closed, or the last token when it never is. */
  ghost predicate Closes(stream: seq<Token>, open: string, close: string, from: nat, end: nat) {
    && from <= end < |stream|
    && (forall p: nat :: from <= p < end ==> !ClosedAfter(stream, open, close, from, p))
    && (ClosedAfter(stream, open, close, from, end) || end == |stream| - 1)
  }

  lemma ClosesOnce(stream: seq<Token>, open: string, close: string, from: nat, a: nat, b: nat)
    requires Closes(stream, open, close, from, a) && Closes(stream, open, close, from, b)
    ensures a == b
  {
  }

  /** That token. */
  ghost function Closing(stream: seq<Token>, open: string, close: string, from: nat, p: nat): (end: nat)
    requires from <= p < |stream| && forall q: nat :: from <= q < p ==> !ClosedAfter(stream, open, close, from, q)
    ensures Closes(stream, open, close, from, end)
    decreases |stream| - p
  {
    if ClosedAfter(stream, open, close, from, p) || p == |stream| - 1 then p
    else Closing(stream, open, close, from, p + 1)
  }

  /** The end token of a body: the matching brace of a block, or the delimiter itself. */
  ghost function BodyLast(stream: seq<Token>, delimiter: nat): (end: nat)
    requires delimiter < |stream|
    ensures delimiter <= end < |stream|
    ensures if stream[delimiter].value == "{" then Closes(stream, "{", "}", delimiter, end) else end == delimiter
  {
    if stream[delimiter].value == "{" then Closing(stream, "{", "}", delimiter, delimiter) else delimiter
  }

  /** The end of the header and of the brace-bounded body. */
  method BodyExtent(stream: seq<Token>, start: nat, fallbackLine: nat) returns (header: nat, end: nat)
    ensures Delimiter(stream, start).None? ==> header == end == fallbackLine
    ensures Delimiter(stream, start).Some? ==> header == stream[Delimiter(stream, start).value].line
    ensures Delimiter(stream, start).Some? ==> end == stream[BodyLast(stream, Delimiter(stream, start).value)].line
  {
    var delimiter: Option<nat> := None;
    var position := start;
    while position < |stream|
      invariant start <= position && delimiter == None
      invariant Delimiter(stream, start) == Delimiter(stream, position)
    {
      var value := stream[position].value;
      if value == "{" || value == "=" || value == ";" {
        delimiter := Some(position);
        break;
      }
      if value == "}" || Keyword(value) { break; }
      position := position + 1;
    }
    if delimiter == None { return fallbackLine, fallbackLine; }
    header := stream[delimiter.value].line;
    if stream[delimiter.value].value != "{" { return header, header; }
    end := BraceEnd(stream, delimiter.value);
  }

  /** The line on which a block ends. */
  method BraceEnd(stream: seq<Token>, delimiter: nat) returns (line: nat)
    requires delimiter < |stream| && stream[delimiter].value == "{"
    ensures line == stream[BodyLast(stream, delimiter)].line
  {
    var depth := 0;
    ghost var last: nat := delimiter;
    line := stream[delimiter].line;
    for p := delimiter to |stream|
      invariant depth == Depth(stream, "{", "}", delimiter, p)
      invariant forall q: nat :: delimiter <= q < p ==> !ClosedAfter(stream, "{", "}", delimiter, q)
      invariant last < |stream| && line == stream[last].line && (p > delimiter ==> last == p - 1)
    {
      depth := depth + (if stream[p].value == "{" then 1 else 0);
      depth := depth - (if stream[p].value == "}" then 1 else 0);
      line, last := stream[p].line, p;
      if depth == 0 { break; }
    }
    ClosesOnce(stream, "{", "}", delimiter, last, BodyLast(stream, delimiter));
  }

  lemma {:induction false} DepthSplits(stream: seq<Token>, open: string, close: string, a: nat, b: nat, c: nat)
    requires a <= b <= c <= |stream|
    ensures Depth(stream, open, close, a, c) == Depth(stream, open, close, a, b) + Depth(stream, open, close, b, c)
    decreases c
  {
    if b < c { DepthSplits(stream, open, close, a, b, c - 1); }
  }

  /** Depth moves by single steps, so it cannot fall below zero without reaching zero. */
  lemma {:induction false} DepthCrossesZero(stream: seq<Token>, open: string, close: string, from: nat, until: nat)
    returns (p: nat)
    requires open != close && from < until <= |stream|
    requires Depth(stream, open, close, from, from + 1) > 0 && Depth(stream, open, close, from, until) < 0
    ensures from <= p < until && Depth(stream, open, close, from, p + 1) == 0
    decreases until
  {
    assert Depth(stream, open, close, from, until - 1) <= 0;
    if Depth(stream, open, close, from, until - 1) == 0 { p := until - 2; }
    else { p := DepthCrossesZero(stream, open, close, from, until - 1); }
  }

  /** Until it is closed, what was opened stays open. */
  lemma {:induction false} OpenUntilClosed(stream: seq<Token>, from: nat, end: nat, p: nat)
    requires Closes(stream, "{", "}", from, end) && stream[from].value == "{" && from <= p < end
    ensures Depth(stream, "{", "}", from, p + 1) > 0
    decreases p
  {
    assert !ClosedAfter(stream, "{", "}", from, p);
    if p > from { OpenUntilClosed(stream, from, end, p - 1); } else { assert Depth(stream, "{", "}", from, from) == 0; }
  }

  /** A block that opens inside another one closes inside it. */
  lemma BlocksNest(stream: seq<Token>, a: nat, endA: nat, b: nat, endB: nat)
    requires Closes(stream, "{", "}", a, endA) && Closes(stream, "{", "}", b, endB)
    requires stream[a].value == "{" && stream[b].value == "{" && a < b <= endA
    ensures endB <= endA
  {
    if ClosedAfter(stream, "{", "}", a, endA) {
      OpenUntilClosed(stream, a, endA, b - 1);
      DepthSplits(stream, "{", "}", a, b, endA + 1);
      assert Depth(stream, "{", "}", b, b) == 0;
      var p := DepthCrossesZero(stream, "{", "}", b, endA + 1);
      assert ClosedAfter(stream, "{", "}", b, p);
    }
  }

  // ---------------------------------------------------------------- declarations

  datatype Declaration = Declaration(isType: bool, name: string, line: nat, headerEnd: nat, end: nat, offset: nat,
                                     isPublic: bool, signature: seq<string>)

  predicate Lawful(d: Declaration) { d.line <= d.headerEnd <= d.end }

  /** `[A-Za-z_]\w*` and nothing else. */
  predicate IsName(c: Classes, value: string) {
    value != [] && StartsName(value[0]) && forall k :: 1 <= k < |value| ==> c.word(value[k])
  }

  /** The last token of a declaration at keyword `index` whose header is read on from `start`; without a body, the
      keyword. */
  ghost function LastToken(stream: seq<Token>, index: nat, start: nat): (last: nat)
    requires index < |stream|
    ensures last < |stream|
  {
    var d := Delimiter(stream, start);
    if d.None? then index else BodyLast(stream, d.value)
  }

  ghost function Declare(stream: seq<Token>, index: nat, start: nat, isType: bool, name: string, signature: seq<string>)
    : Declaration
    requires index < |stream|
  {
    var d := Delimiter(stream, start);
    Declaration(isType, name, stream[index].line, stream[if d.None? then index else d.value].line,
                stream[LastToken(stream, index, start)].line, stream[index].offset, !Restricted(stream, index),
                signature)
  }

  predicate NamesType(c: Classes, stream: seq<Token>, index: nat) {
    index + 1 < |stream| && IsName(c, stream[index + 1].value)
  }

  /** The declaration, if any, of a class, interface or object at `index`. */
  ghost function TypeAt(c: Classes, stream: seq<Token>, index: nat): Option<Declaration>
    requires index < |stream|
  {
    if !NamesType(c, stream, index) then None
    else Some(Declare(stream, index, index + 2, true, stream[index + 1].value, [stream[index + 1].value]))
  }

  method TypeDeclaration(c: Classes, stream: seq<Token>, index: nat, isPublic: bool) returns (r: Option<Declaration>)
    requires index < |stream| && (isPublic <==> !Restricted(stream, index))
    ensures r == TypeAt(c, stream, index)
  {
    var cursor := index + 1;
    if cursor >= |stream| || !IsName(c, stream[cursor].value) { return None; }
    var header, end := BodyExtent(stream, cursor + 1, stream[index].line);
    r := Some(Declaration(true, stream[cursor].value, stream[index].line, header, end, stream[index].offset, isPublic,
                          [stream[cursor].value]));
  }

  /** Two types of one stream, as tokens, are nested or apart, whatever the braces of the text are. */
  lemma TypesNest(c: Classes, stream: seq<Token>, a: nat, b: nat)
    requires a < b && NamesType(c, stream, a) && NamesType(c, stream, b)
    requires Keyword(stream[a].value) && Keyword(stream[b].value)
    ensures LastToken(stream, a, a + 2) < b || LastToken(stream, b, b + 2) <= LastToken(stream, a, a + 2)
  {
    var d, e := Delimiter(stream, a + 2), Delimiter(stream, b + 2);
    var endA, endB := LastToken(stream, a, a + 2), LastToken(stream, b, b + 2);
    if d.Some? && b <= endA {
      NameIsNoDelimiter(c, stream[b + 1].value);
      if b < d.value {
        // Only the name of the outer type can be a keyword before its delimiter.
        DelimiterMovesOn(stream, a + 2);
      } else if e.Some? && endA < |stream| - 1 {
        EndIsClosed(stream, d.value, endA);
        if stream[e.value].value == "{" { BlocksNest(stream, d.value, endA, e.value, endB); }
      }
    }
  }

  lemma DelimiterMovesOn(stream: seq<Token>, start: nat)
    requires Delimiter(stream, start).Some?
    ensures Delimiter(stream, start).value == start || Delimiter(stream, start + 1) == Delimiter(stream, start)
  {
  }

  lemma NameIsNoDelimiter(c: Classes, value: string)
    requires IsName(c, value)
    ensures !Delimits(value) && value != "}"
  {
  }

  lemma EndIsClosed(stream: seq<Token>, from: nat, end: nat)
    requires Closes(stream, "{", "}", from, end) && stream[from].value == "{" && end < |stream| - 1
    ensures from < end && stream[end].value == "}"
  {
    assert Depth(stream, "{", "}", from, from) == 0;
    if from < end { OpenUntilClosed(stream, from, end, end - 1); }
  }

  // ---------------------------------------------------------------- functions

  predicate EndsParameters(value: string) { value == "{" || value == "}" || value == ";" || value == "=" }

  /** Where the search for a parameter list stops: at an opening parenthesis or the end of the header, each outside
      angle brackets, or after the last token. */
  function ParameterStop(stream: seq<Token>, cursor: nat, angles: nat): (stop: nat)
    requires cursor <= |stream|
    ensures cursor <= stop <= |stream|
    decreases |stream| - cursor
  {
    if cursor == |stream| then cursor
    else
      var value := stream[cursor].value;
      if angles == 0 && (value == "(" || EndsParameters(value)) then cursor
      else ParameterStop(stream, cursor + 1,
             if value == "<" then angles + 1 else if value == ">" && angles > 0 then angles - 1 else angles)
  }

  function LastName(c: Classes, stream: seq<Token>, from: nat, to: nat): Option<string>
    requires from <= to <= |stream|
  {
    if from == to then None
    else if IsName(c, stream[to - 1].value) then Some(stream[to - 1].value)
    else LastName(c, stream, from, to - 1)
  }

  /** It is there exactly when there is a name, and no name comes after it. */
  lemma {:induction false} LastNameIsLast(c: Classes, stream: seq<Token>, from: nat, to: nat) returns (k: nat)
    requires from <= to <= |stream|
    ensures LastName(c, stream, from, to).None? <==> forall m :: from <= m < to ==> !IsName(c, stream[m].value)
    ensures LastName(c, stream, from, to).Some? ==>
              && from <= k < to && LastName(c, stream, from, to) == Some(stream[k].value) && IsName(c, stream[k].value)
              && forall m :: k < m < to ==> !IsName(c, stream[m].value)
  {
    k := from;
    if from < to {
      if IsName(c, stream[to - 1].value) { k := to - 1; } else { k := LastNameIsLast(c, stream, from, to - 1); }
    }
  }

  predicate NamesFunction(c: Classes, stream: seq<Token>, index: nat)
    requires index < |stream|
  {
    var stop := ParameterStop(stream, index + 1, 0);
    stop < |stream| && stream[stop].value == "(" && LastName(c, stream, index + 1, stop).Some?
  }

  /** The name before the parameter list of a function, and its opening parenthesis. */
  method FunctionNameAndParen(c: Classes, stream: seq<Token>, index: nat) returns (name: Option<string>, paren: nat)
    requires index < |stream|
    ensures name.Some? <==> NamesFunction(c, stream, index)
    ensures name.Some? ==> paren == ParameterStop(stream, index + 1, 0) && name == LastName(c, stream, index + 1, paren)
  {
    var cursor := index + 1;
    var beforeParen: seq<string> := [];
    var angleDepth: nat := 0;
    while cursor < |stream|
      invariant index < cursor <= |stream|
      invariant ParameterStop(stream, index + 1, 0) == ParameterStop(stream, cursor, angleDepth)
      invariant LastName(c, stream, index + 1, cursor) ==
                  if beforeParen == [] then None else Some(beforeParen[|beforeParen| - 1])
    {
      var value := stream[cursor].value;
      NameIsNoPunctuation(c, value);
      if value == "<" {
        angleDepth := angleDepth + 1;
      } else if value == ">" && angleDepth > 0 {
        angleDepth := angleDepth - 1;
      } else if value == "(" && angleDepth == 0 {
        break;
      } else if IsName(c, value) {
        beforeParen := beforeParen + [value];
      }
      if EndsParameters(value) && angleDepth == 0 { break; }
      cursor := cursor + 1;
    }
    if cursor >= |stream| || stream[cursor].value != "(" || beforeParen == [] { return None, cursor; }
    name, paren := Some(beforeParen[|beforeParen| - 1]), cursor;
  }

  lemma NameIsNoPunctuation(c: Classes, value: string)
    ensures IsName(c, value) ==> value != "<" && value != ">" && value != "(" && !EndsParameters(value)
  {
  }

  /** The matching parenthesis, or the last token when there is none. */
  method ClosingParenthesis(stream: seq<Token>, opening: nat) returns (close: nat)
    requires opening < |stream|
    ensures Closes(stream, "(", ")", opening, close)
  {
    var depth := 0;
    close := opening;
    for p := opening to |stream|
      invariant depth == Depth(stream, "(", ")", opening, p)
      invariant forall q: nat :: opening <= q < p ==> !ClosedAfter(stream, "(", ")", opening, q)
      invariant close == if p > opening then p - 1 else opening
    {
      depth := depth + (if stream[p].value == "(" then 1 else 0);
      depth := depth - (if stream[p].value == ")" then 1 else 0);
      close := p;
      if depth == 0 { break; }
    }
  }

  function Values(stream: seq<Token>): seq<string> {
    seq(|stream|, (k: nat) requires k < |stream| => stream[k].value)
  }

  ghost function ParametersEnd(stream: seq<Token>, open: nat): (close: nat)
    requires open < |stream|
    ensures Closes(stream, "(", ")", open, close)
  {
    Closing(stream, "(", ")", open, open)
  }

  /** The named function, if any, at `index`. Its signature runs to the parenthesis that closes its parameters. */
  ghost function FunctionAt(c: Classes, stream: seq<Token>, index: nat): Option<Declaration>
    requires index < |stream|
  {
    if !NamesFunction(c, stream, index) then None
    else
      var open := ParameterStop(stream, index + 1, 0);
      var close := ParametersEnd(stream, open);
      Some(Declare(stream, index, close + 1, false, LastName(c, stream, index + 1, open).value,
                   Values(stream[index + 1..close + 1])))
  }

  lemma FunctionIs(c: Classes, stream: seq<Token>, index: nat, paren: nat, close: nat)
    requires index < |stream| && NamesFunction(c, stream, index)
    requires paren == ParameterStop(stream, index + 1, 0) && Closes(stream, "(", ")", paren, close)
    ensures FunctionAt(c, stream, index) ==
              Some(Declare(stream, index, close + 1, false, LastName(c, stream, index + 1, paren).value,
                           Values(stream[index + 1..close + 1])))
  {
    ClosesOnce(stream, "(", ")", paren, close, ParametersEnd(stream, paren));
  }

  method FunctionDeclaration(c: Classes, stream: seq<Token>, index: nat, isPublic: bool)
    returns (r: Option<Declaration>)
    requires index < |stream| && (isPublic <==> !Restricted(stream, index))
    ensures r == FunctionAt(c, stream, index)
  {
    var name, paren := FunctionNameAndParen(c, stream, index);
    if name.None? { return None; }
    var close := ClosingParenthesis(stream, paren);
    FunctionIs(c, stream, index, paren, close);
    var header, end := BodyExtent(stream, close + 1, stream[index].line);
    r := Some(Declaration(false, name.value, stream[index].line, header, end, stream[index].offset, isPublic,
                          Values(stream[index + 1..close + 1])));
  }

  predicate Boundary(value: string) {
    value == "{" || value == "}" || value == ";" || value == "val" || value == "var" || Keyword(value)
  }

  predicate Declares(value: string) {
    value == "class" || value == "interface" || value == "object" || value == "fun"
  }

  predicate Restricts(value: string) { value == "private" || value == "internal" || value == "protected" }

  /** Position `m` lies between the last boundary before `index` and `index`. */
  predicate SinceBoundary(stream: seq<Token>, m: nat, index: nat)
    requires index <= |stream|
  {
    m < index && forall k :: m <= k < index ==> !Boundary(stream[k].value)
  }

  /** Among the words since the last boundary one restricts visibility. */
  predicate Restricted(stream: seq<Token>, index: nat)
    requires index <= |stream|
  {
    exists m: nat :: m < index && SinceBoundary(stream, m, index) && Restricts(stream[m].value)
  }

  /** Exactly the words since the last boundary, so a restricting one is among them just when one stands there. */
  method DeclarationPrefix(stream: seq<Token>, index: nat) returns (words: set<string>)
    requires index < |stream|
    ensures forall w :: w in words <==>
              exists m: nat :: m < index && SinceBoundary(stream, m, index) && stream[m].value == w
    ensures ("private" in words || "internal" in words || "protected" in words) <==> Restricted(stream, index)
  {
    var boundary: int := index - 1;
    while boundary >= 0 && !Boundary(stream[boundary].value)
      invariant -1 <= boundary < index
      invariant forall k :: boundary < k < index ==> !Boundary(stream[k].value)
    {
      boundary := boundary - 1;
    }
    words := set k | boundary < k < index :: stream[k].value;
    assert forall m: nat :: m < index ==> (SinceBoundary(stream, m, index) <==> boundary < m);
  }

  // ---------------------------------------------------------------- all declarations

  ghost function DeclaredAt(c: Classes, stream: seq<Token>, index: nat): Option<Declaration>
    requires index < |stream|
  {
    if !Declares(stream[index].value) then None
    else if stream[index].value == "fun" then FunctionAt(c, stream, index)
    else TypeAt(c, stream, index)
  }

  ghost function AllDeclared(c: Classes, stream: seq<Token>): seq<Option<Declaration>> {
    seq(|stream|, (i: nat) requires i < |stream| => DeclaredAt(c, stream, i))
  }

  // ---------------------------------------------------------------- a declaration, token by token

  /** A letter or underscore and then word characters. */
  ghost predicate NameText(c: Classes, value: string) {
    && value != "" && (value[0] == '_' || 'a' <= value[0] <= 'z' || 'A' <= value[0] <= 'Z')
    && forall k :: 1 <= k < |value| ==> c.word(value[k])
  }

  /** The first token from `start` on that opens or replaces a body, before any that ends the header. */
  predicate DelimitedAt(stream: seq<Token>, start: nat, d: nat) {
    && start <= d < |stream| && stream[d].value in {"{", "=", ";"}
    && forall k :: start <= k < d ==>
         stream[k].value !in {"{", "=", ";", "}", "class", "interface", "object", "fun", "typealias"}
  }

  lemma {:induction false} DelimiterExactlyWhen(stream: seq<Token>, start: nat, d: nat)
    ensures Delimiter(stream, start) == Some(d) <==> DelimitedAt(stream, start, d)
    decreases |stream| - start
  {
    if start < |stream| && start < d { DelimiterExactlyWhen(stream, start + 1, d); }
  }

  /** A word that restricts visibility stands before token `index`, with nothing between that begins or ends a
      declaration or a block. */
  predicate RestrictedAt(stream: seq<Token>, index: nat)
    requires index <= |stream|
  {
    exists m :: 0 <= m < index && stream[m].value in {"private", "internal", "protected"}
      && forall k :: m <= k < index ==>
           stream[k].value !in {"{", "}", ";", "val", "var", "class", "interface", "object", "fun", "typealias"}
  }

  lemma RestrictedExactlyWhen(stream: seq<Token>, index: nat)
    requires index <= |stream|
    ensures Restricted(stream, index) <==> RestrictedAt(stream, index)
  {
    forall k | 0 <= k < index
      ensures Boundary(stream[k].value) <==>
              stream[k].value in {"{", "}", ";", "val", "var", "class", "interface", "object", "fun", "typealias"}
      ensures Restricts(stream[k].value) <==> stream[k].value in {"private", "internal", "protected"}
    {
    }
    if Restricted(stream, index) {
      var m: nat :| m < index && SinceBoundary(stream, m, index) && Restricts(stream[m].value);
    }
    if m :| 0 <= m < index && stream[m].value in {"private", "internal", "protected"}
            && forall k :: m <= k < index ==>
                 stream[k].value !in {"{", "}", ";", "val", "var", "class", "interface", "object", "fun", "typealias"} {
      assert SinceBoundary(stream, m, index);
    }
  }

  /** The lines on which the header and the body end: of the delimiter, and of the token that closes a block; without a
      delimiter, the keyword's. */
  ghost predicate Extent(stream: seq<Token>, index: nat, start: nat, headerEnd: nat, end: nat)
    requires index < |stream|
  {
    || (exists d: nat :: DelimitedAt(stream, start, d) && headerEnd == stream[d].line
                    && if stream[d].value == "{"
                       then exists e: nat :: Closes(stream, "{", "}", d, e) && end == stream[e].line
                       else end == headerEnd)
    || ((forall d: nat :: !DelimitedAt(stream, start, d)) && headerEnd == end == stream[index].line)
  }

  lemma ExtentExactlyWhen(stream: seq<Token>, index: nat, start: nat, isType: bool, name: string,
                          signature: seq<string>, headerEnd: nat, end: nat)
    requires index < |stream|
    ensures var d := Declare(stream, index, start, isType, name, signature);
            Extent(stream, index, start, headerEnd, end) <==> headerEnd == d.headerEnd && end == d.end
  {
    forall d: nat ensures Delimiter(stream, start) == Some(d) <==> DelimitedAt(stream, start, d) {
      DelimiterExactlyWhen(stream, start, d);
    }
    var delimiter := Delimiter(stream, start);
    if delimiter.Some? {
      var d := delimiter.value;
      assert DelimitedAt(stream, start, d);
      forall e: nat | stream[d].value == "{" && Closes(stream, "{", "}", d, e) ensures e == BodyLast(stream, d) {
        ClosesOnce(stream, "{", "}", d, e, BodyLast(stream, d));
      }
    }
  }

  /** How deep in angle brackets the tokens `from` to `to` lead; a closing one without an opening one counts for
      nothing. */
  function Angles(stream: seq<Token>, from: nat, to: nat): nat
    requires from <= to <= |stream|
  {
    if from == to then 0
    else
      var depth, value := Angles(stream, from, to - 1), stream[to - 1].value;
      if value == "<" then depth + 1 else if value == ">" && depth > 0 then depth - 1 else depth
  }

  predicate StopsAt(stream: seq<Token>, from: nat, p: nat)
    requires from <= p < |stream|
  {
    stream[p].value in {"(", "{", "}", ";", "="} && Angles(stream, from, p) == 0
  }

  ghost predicate FirstStop(stream: seq<Token>, from: nat, stop: nat) {
    && from <= stop < |stream| && StopsAt(stream, from, stop)
    && forall p :: from <= p < stop ==> !StopsAt(stream, from, p)
  }

  /** The search stops at the first such token outside angle brackets. */
  lemma {:induction false} StopExactly(stream: seq<Token>, from: nat, cursor: nat)
    requires from <= cursor <= |stream|
    ensures var stop := ParameterStop(stream, cursor, Angles(stream, from, cursor));
            && (stop < |stream| ==> StopsAt(stream, from, stop))
            && forall p: nat :: cursor <= p < stop ==> !StopsAt(stream, from, p)
    decreases |stream| - cursor
  {
    if cursor < |stream| && !StopsAt(stream, from, cursor) { StopExactly(stream, from, cursor + 1); }
  }

  /** The parameter list of a function opens at `open`, and `name` is the last name before it. */
  ghost predicate FunctionHeader(c: Classes, stream: seq<Token>, index: nat, open: nat, name: string)
    requires index < |stream|
  {
    && FirstStop(stream, index + 1, open) && stream[open].value == "("
    && exists k :: LastNameAt(c, stream, index, open, name, k)
  }

  ghost predicate LastNameAt(c: Classes, stream: seq<Token>, index: nat, open: nat, name: string, k: int) {
    && index < k < open <= |stream| && stream[k].value == name && NameText(c, name)
    && forall m :: k < m < open ==> !NameText(c, stream[m].value)
  }

  lemma HeaderExactlyWhen(c: Classes, stream: seq<Token>, index: nat, open: nat, name: string)
    requires index < |stream|
    ensures FunctionHeader(c, stream, index, open, name) <==>
              && NamesFunction(c, stream, index) && open == ParameterStop(stream, index + 1, 0)
              && LastName(c, stream, index + 1, open) == Some(name)
  {
    assert Angles(stream, index + 1, index + 1) == 0;
    StopExactly(stream, index + 1, index + 1);
    var stop := ParameterStop(stream, index + 1, 0);
    if FunctionHeader(c, stream, index, open, name) { assert open == stop; }
    if open == stop {
      var last := LastNameIsLast(c, stream, index + 1, stop);
      forall m | index < m < stop ensures IsName(c, stream[m].value) <==> NameText(c, stream[m].value) {}
      if LastName(c, stream, index + 1, stop).Some? {
        assert LastNameAt(c, stream, index, stop, stream[last].value, last);
      }
    }
  }

  lemma FunctionParts(c: Classes, stream: seq<Token>, i: nat, d: Declaration) returns (open: nat, close: nat)
    requires i < |stream| && FunctionAt(c, stream, i) == Some(d)
    ensures NamesFunction(c, stream, i) && open == ParameterStop(stream, i + 1, 0)
    ensures LastName(c, stream, i + 1, open) == Some(d.name) && Closes(stream, "(", ")", open, close)
    ensures d == Declare(stream, i, close + 1, false, d.name, d.signature)
    ensures d.signature == Values(stream[i + 1..close + 1])
  {
    open := ParameterStop(stream, i + 1, 0);
    close := ParametersEnd(stream, open);
  }

  lemma DeclareHasExtent(stream: seq<Token>, i: nat, start: nat, d: Declaration)
    requires i < |stream| && d == Declare(stream, i, start, d.isType, d.name, d.signature)
    ensures Extent(stream, i, start, d.headerEnd, d.end)
    ensures d.line == stream[i].line && d.offset == stream[i].offset && (d.isPublic <==> !RestrictedAt(stream, i))
  {
    ExtentExactlyWhen(stream, i, start, d.isType, d.name, d.signature, d.headerEnd, d.end);
    RestrictedExactlyWhen(stream, i);
  }

  /** All that is recorded of a function. */
  lemma FunctionRecords(c: Classes, stream: seq<Token>, i: nat, d: Declaration) returns (open: nat, close: nat)
    requires i < |stream| && stream[i].value == "fun" && DeclaredAt(c, stream, i) == Some(d)
    ensures FunctionHeader(c, stream, i, open, d.name) && Closes(stream, "(", ")", open, close)
    ensures Extent(stream, i, close + 1, d.headerEnd, d.end) && d.signature == Values(stream[i + 1..close + 1])
    ensures !d.isType && d.line == stream[i].line && d.offset == stream[i].offset
    ensures d.isPublic <==> !RestrictedAt(stream, i)
  {
    open, close := FunctionParts(c, stream, i, d);
    HeaderExactlyWhen(c, stream, i, open, d.name);
    DeclareHasExtent(stream, i, close + 1, d);
  }

  /** The keyword `fun` declares a function exactly when a parameter list and a name follow. */
  lemma FunctionIsNamed(c: Classes, stream: seq<Token>, i: nat)
    requires i < |stream| && stream[i].value == "fun"
    ensures DeclaredAt(c, stream, i).Some? <==> exists o: nat, name :: FunctionHeader(c, stream, i, o, name)
  {
    forall o: nat, name ensures FunctionHeader(c, stream, i, o, name) <==>
                                && NamesFunction(c, stream, i) && o == ParameterStop(stream, i + 1, 0)
                                && LastName(c, stream, i + 1, o) == Some(name) {
      HeaderExactlyWhen(c, stream, i, o, name);
    }
    if NamesFunction(c, stream, i) {
      var o := ParameterStop(stream, i + 1, 0);
      assert FunctionHeader(c, stream, i, o, LastName(c, stream, i + 1, o).value);
    }
  }

  /** The keywords of types declare one exactly when a name follows, and then that one; no other token declares. */
  lemma TypeExactly(c: Classes, stream: seq<Token>, i: nat)
    requires i < |stream| && stream[i].value != "fun"
    ensures DeclaredAt(c, stream, i).Some? <==>
              && stream[i].value in {"class", "interface", "object"}
              && i + 1 < |stream| && NameText(c, stream[i + 1].value)
    ensures DeclaredAt(c, stream, i).Some? ==>
              var d := DeclaredAt(c, stream, i).value;
              && Extent(stream, i, i + 2, d.headerEnd, d.end) && d.isType
              && d.name == stream[i + 1].value && d.signature == [stream[i + 1].value]
              && d.line == stream[i].line && d.offset == stream[i].offset && (d.isPublic <==> !RestrictedAt(stream, i))
  {
    if DeclaredAt(c, stream, i).Some? { DeclareHasExtent(stream, i, i + 2, DeclaredAt(c, stream, i).value); }
  }

  function Present(options: seq<Option<Declaration>>): seq<Declaration> {
    if options == [] then []
    else
      var last := options[|options| - 1];
      Present(options[..|options| - 1]) + if last.Some? then [last.value] else []
  }

  /** Extract every named declaration of the blanked text. */
  method Declarations(c: Classes, text: string) returns (result: seq<Declaration>)
    ensures result == Present(AllDeclared(c, TokensFrom(c, Clean(text), 0)))
  {
    var stream := Tokens(c, text);
    ghost var all := AllDeclared(c, stream);
    result := [];
    for index := 0 to |stream|
      invariant result == Present(all[..index])
    {
      assert all[..index + 1][..index] == all[..index] && all[index] == DeclaredAt(c, stream, index);
      if !Declares(stream[index].value) { continue; }
      var prefix := DeclarationPrefix(stream, index);
      var isPublic := !("private" in prefix || "internal" in prefix || "protected" in prefix);
      var declaration: Option<Declaration>;
      if stream[index].value == "fun" {
        declaration := FunctionDeclaration(c, stream, index, isPublic);
      } else {
        declaration := TypeDeclaration(c, stream, index, isPublic);
      }
      if declaration.Some? { result := result + [declaration.value]; }
    }
    assert all[..|stream|] == all;
  }

  /** A header ends no earlier than its keyword, and a body no earlier than its header. */
  lemma DeclarationIsLawful(c: Classes, stream: seq<Token>, index: nat)
    requires LinesInOrder(stream) && index < |stream| && DeclaredAt(c, stream, index).Some?
    ensures Lawful(DeclaredAt(c, stream, index).value)
  {
    if stream[index].value == "fun" {
      var open := ParameterStop(stream, index + 1, 0);
      DeclareIsLawful(stream, index, ParametersEnd(stream, open) + 1);
    } else {
      DeclareIsLawful(stream, index, index + 2);
    }
  }

  lemma DeclareIsLawful(stream: seq<Token>, index: nat, start: nat)
    requires LinesInOrder(stream) && index < start && index < |stream|
    ensures var d := Delimiter(stream, start);
            && stream[index].line <= stream[if d.None? then index else d.value].line
            && stream[if d.None? then index else d.value].line <= stream[LastToken(stream, index, start)].line
  {
  }

  /** What `options` hold, in their order: exactly the values present, with growing offsets when theirs grow. */
  lemma {:induction false} PresentAre(options: seq<Option<Declaration>>)
    requires Growing(options)
    ensures forall d :: d in Present(options) <==> Some(d) in options
    ensures InSourceOrder(Present(options))
  {
    if options != [] {
      var front, last := options[..|options| - 1], options[|options| - 1];
      PresentAre(front);
      assert options == front + [last];
      var before := Present(front);
      forall a | 0 <= a < |before| && last.Some? ensures before[a].offset < last.value.offset {
        assert before[a] in before;
        var i :| 0 <= i < |front| && front[i] == Some(before[a]);
        assert options[i] == Some(before[a]);
      }
      forall d ensures d in Present(options) <==> Some(d) in options {
        assert Some(d) in options <==> Some(d) in front || Some(d) == last;
      }
    }
  }

  ghost predicate Growing(options: seq<Option<Declaration>>) {
    forall i, k :: 0 <= i < k < |options| && options[i].Some? && options[k].Some? ==>
      options[i].value.offset < options[k].value.offset
  }

  predicate InSourceOrder(result: seq<Declaration>) {
    forall a, b :: 0 <= a < b < |result| ==> result[a].offset < result[b].offset
  }

  /** For every text: the declarations found are lawful, come in source order, and none is listed twice. */
  lemma DeclarationsAreLawful(c: Classes, text: string)
    requires Sound(c)
    ensures var all := AllDeclared(c, TokensFrom(c, Clean(text), 0));
            var result := Present(all);
            && (forall d :: d in result <==> Some(d) in all)
            && (forall d :: d in result ==> Lawful(d))
            && InSourceOrder(result)
  {
    var stream := TokensFrom(c, Clean(text), 0);
    var all := AllDeclared(c, stream);
    TokensAreSource(c, text);
    forall i, k | 0 <= i < k < |all| && all[i].Some? && all[k].Some? ensures all[i].value.offset < all[k].value.offset {
      assert TokenOf(c, text, stream[i]);
      OffsetIsKeywords(c, stream, i);
      OffsetIsKeywords(c, stream, k);
    }
    PresentAre(all);
    forall d | Some(d) in all ensures Lawful(d) {
      var i: nat :| i < |all| && all[i] == Some(d);
      DeclarationIsLawful(c, stream, i);
    }
  }

  lemma OffsetIsKeywords(c: Classes, stream: seq<Token>, index: nat)
    requires index < |stream| && DeclaredAt(c, stream, index).Some?
    ensures DeclaredAt(c, stream, index).value.offset == stream[index].offset
  {
  }

  /** On lines too, two types of one file are nested or follow one another, sharing at most one line. */
  lemma TypeLinesNest(c: Classes, stream: seq<Token>, a: nat, b: nat)
    requires LinesInOrder(stream) && a < b && NamesType(c, stream, a) && NamesType(c, stream, b)
    requires Keyword(stream[a].value) && Keyword(stream[b].value)
    ensures var outer, other := TypeAt(c, stream, a).value, TypeAt(c, stream, b).value;
            outer.end <= other.line || (outer.line <= other.line && other.end <= outer.end)
  {
    TypesNest(c, stream, a, b);
  }
}
