/**
 Prose lines of Markdown, after scripts/markdown.ts (lines 105-176): comments are found inside HTML
 nodes, cut into ranges of columns line by line, and subtracted from each line.
 */
module CommentScan {
  import opened Prelude

  /** Half-open ranges of offsets or columns. */
  datatype Span = Span(start: nat, end: nat) {
    predicate Covers(o: nat) {
      start <= o < end
    }
  }

  const OPENER := "<!--"
  const CLOSER := "-->"

  predicate OccursAt(text: string, pattern: string, i: nat) {
    i <= |text| && pattern <= text[i..]
  }

  lemma OccursExactly(text: string, pattern: string, i: nat)
    ensures OccursAt(text, pattern, i) <==> exists before, after :: text == before + pattern + after && |before| == i
  {
    if OccursAt(text, pattern, i) {
      assert text == text[..i] + pattern + text[i + |pattern|..];
    }
    forall before, after | text == before + pattern + after && |before| == i ensures OccursAt(text, pattern, i) {
      assert text[i..] == pattern + after;
    }
  }

  /** `text.indexOf(pattern, from)`. */
  function IndexOf(text: string, pattern: string, from: nat): (r: Option<nat>)
    ensures r.Some? ==> from <= r.value && OccursAt(text, pattern, r.value)
    ensures forall i: nat :: from <= i && (r.Some? ==> i < r.value) ==> !OccursAt(text, pattern, i)
    decreases |text| - from
  {
    if from > |text| then None
    else if OccursAt(text, pattern, from) then Some(from)
    else IndexOf(text, pattern, from + 1)
  }

  /** Where the comment opened at `start` ends: after its closer, or at the end of the text when it has none. */
  function CommentEnd(text: string, start: nat): (end: nat)
    requires OccursAt(text, OPENER, start)
    ensures start + 4 <= end <= |text|
  {
    match IndexOf(text, CLOSER, start + 4)
    case None => |text|
    case Some(close) => close + 3
  }

  /** The comments of one HTML node, in order. */
  method ScanComments(text: string) returns (spans: seq<Span>)
    ensures AreComments(text, spans, 0)
  {
    spans := [];
    var cursor := 0;
    assert forall rest: seq<Span> :: [] + rest == rest;
    while true
      invariant cursor <= |text|
      invariant LeadsTo(text, spans, cursor)
      decreases |text| - cursor
    {
      var start := IndexOf(text, OPENER, cursor);
      if start.None? {
        assert AreComments(text, [], cursor);
        assert spans + [] == spans;
        return;
      }
      var span := Span(start.value, CommentEnd(text, start.value));
      LeadsOn(text, spans, cursor, span);
      spans := spans + [span];
      cursor := span.end;
    }
  }

  /** Whatever the comments from `cursor` on are, `spans` are the ones before them. */
  ghost predicate LeadsTo(text: string, spans: seq<Span>, cursor: nat) {
    forall rest :: AreComments(text, rest, cursor) ==> AreComments(text, spans + rest, 0)
  }

  lemma LeadsOn(text: string, spans: seq<Span>, cursor: nat, span: Span)
    requires LeadsTo(text, spans, cursor)
    requires cursor <= span.start && OccursAt(text, OPENER, span.start) && NoneBetween(text, OPENER, cursor, span.start)
    requires EndsAtCloser(text, span)
    ensures LeadsTo(text, spans + [span], span.end)
  {
    forall rest | AreComments(text, rest, span.end)
      ensures AreComments(text, spans + [span] + rest, 0)
    {
      assert ([span] + rest)[1..] == rest;
      assert AreComments(text, [span] + rest, cursor);
      assert spans + [span] + rest == spans + ([span] + rest);
    }
  }

  /**
   `spans` are the comments of `text` from `from` on: no opener stands outside them, each begins with
   one, and each runs to its own closer, the nearest, or to the end of the text when there is none.
   */
  ghost predicate AreComments(text: string, spans: seq<Span>, from: nat)
    decreases |spans|
  {
    if spans == [] then NoneBetween(text, OPENER, from, |text| + 1)
    else
      && from <= spans[0].start && OccursAt(text, OPENER, spans[0].start)
      && NoneBetween(text, OPENER, from, spans[0].start)
      && EndsAtCloser(text, spans[0])
      && AreComments(text, spans[1..], spans[0].end)
  }

  ghost predicate NoneBetween(text: string, pattern: string, from: nat, to: nat) {
    forall i: nat :: from <= i < to ==> !OccursAt(text, pattern, i)
  }

  ghost predicate EndsAtCloser(text: string, span: Span) {
    || (span.end >= span.start + 7 && OccursAt(text, CLOSER, span.end - 3) && NoneBetween(text, CLOSER, span.start + 4, span.end - 3))
    || (span.end == |text| && NoneBetween(text, CLOSER, span.start + 4, |text| + 1))
  }

  /** That description has one solution: two readings of the comments of a text are the same. */
  lemma {:induction false} CommentsAreUnique(text: string, a: seq<Span>, b: seq<Span>, from: nat)
    requires AreComments(text, a, from) && AreComments(text, b, from)
    ensures a == b
    decreases |a|
  {
    NoneLeft(text, a, from);
    NoneLeft(text, b, from);
    if a != [] {
      assert a[0].start == b[0].start;
      assert !(a[0].end < b[0].end) && !(b[0].end < a[0].end);
      CommentsAreUnique(text, a[1..], b[1..], a[0].end);
      assert a == [a[0]] + a[1..] && b == [b[0]] + b[1..];
    }
  }

  lemma NoneLeft(text: string, spans: seq<Span>, from: nat)
    requires AreComments(text, spans, from)
    ensures spans == [] <==> NoneBetween(text, OPENER, from, |text| + 1)
  {
    if spans != [] { assert OccursAt(text, OPENER, spans[0].start); }
  }

  /** Every opener begins inside a comment. */
  lemma {:induction false} OpenersAreCovered(text: string, spans: seq<Span>, from: nat, i: nat)
    requires AreComments(text, spans, from) && from <= i && OccursAt(text, OPENER, i)
    ensures exists k :: 0 <= k < |spans| && spans[k].Covers(i)
    decreases |spans|
  {
    if spans != [] && i >= spans[0].end {
      OpenersAreCovered(text, spans[1..], spans[0].end, i);
      var k :| 0 <= k < |spans[1..]| && spans[1..][k].Covers(i);
      assert spans[k + 1].Covers(i);
    } else if spans != [] {
      assert spans[0].Covers(i);
    }
  }
}

module ProseLines {
  import opened Prelude
  import opened CommentScan

  /** An HTML node: its offset in the source and its text. */
  datatype Html = Html(offset: nat, value: string)

  /** A code node, by its first and last line, from 1. */
  datatype Code = Code(first: nat, last: nat)

  datatype ProseLine = ProseLine(index: nat, raw: string)

  /** `source.split('\n')`. */
  function Split(source: string): (lines: seq<string>)
    ensures lines != []
  {
    if source == "" then [""]
    else
      var rest := Split(source[1..]);
      if source[0] == '\n' then [""] + rest else [[source[0]] + rest[0]] + rest[1..]
  }

  /** Where line `k`, from 0, begins. */
  function LineOffset(lines: seq<string>, k: nat): nat
    requires k <= |lines|
  {
    if k == 0 then 0 else LineOffset(lines, k - 1) + |lines[k - 1]| + 1
  }

  /** The text from line `k` on. */
  function Join(lines: seq<string>): string
    requires lines != []
  {
    if |lines| == 1 then lines[0] else lines[0] + ("\n" + Join(lines[1..]))
  }

  lemma {:induction false} JoinSplit(source: string)
    ensures Join(Split(source)) == source
  {
    if source != "" {
      JoinSplit(source[1..]);
      var rest := Split(source[1..]);
      if source[0] == '\n' {
        assert ([""] + rest)[1..] == rest;
      } else {
        assert Split(source)[1..] == rest[1..];
      }
    }
  }

  ghost predicate Unbroken(lines: seq<string>) {
    forall k :: 0 <= k < |lines| ==> '\n' !in lines[k]
  }

  lemma {:induction false} SplitIsUnbroken(source: string)
    ensures Unbroken(Split(source))
  {
    if source != "" { SplitIsUnbroken(source[1..]); }
  }

  /** Splitting undoes joining lines that hold no line break. */
  lemma {:induction false} SplitJoin(lines: seq<string>)
    requires lines != [] && Unbroken(lines)
    ensures Split(Join(lines)) == lines
    decreases |lines|, |lines[0]|
  {
    var joined := Join(lines);
    if lines[0] != "" {
      var rest := [lines[0][1..]] + lines[1..];
      assert rest[1..] == lines[1..] && joined[1..] == Join(rest) && joined[0] == lines[0][0];
      assert lines[0][0] in lines[0];
      SplitJoin(rest);
      assert [joined[0]] + rest[0] == lines[0];
    } else if |lines| > 1 {
      assert joined == "\n" + Join(lines[1..]) && joined[1..] == Join(lines[1..]);
      SplitJoin(lines[1..]);
      assert [""] + lines[1..] == lines;
    } else {
      assert joined == "" && lines == [""];
    }
  }

  /** The lines of a source are the ones without line breaks that make it up when joined by them. */
  lemma SplitExactly(source: string, lines: seq<string>)
    ensures Split(source) == lines <==> lines != [] && Unbroken(lines) && Join(lines) == source
  {
    JoinSplit(source);
    SplitIsUnbroken(source);
    if lines != [] && Unbroken(lines) { SplitJoin(lines); }
  }

  lemma {:induction false} OffsetFromSecond(lines: seq<string>, k: nat)
    requires 0 < k <= |lines|
    ensures LineOffset(lines, k) == |lines[0]| + 1 + LineOffset(lines[1..], k - 1)
  {
    if k > 1 { OffsetFromSecond(lines, k - 1); }
  }

  lemma {:induction false} ColumnInJoin(lines: seq<string>, k: nat, column: nat)
    requires k < |lines| && column < |lines[k]|
    ensures var o := LineOffset(lines, k) + column; o < |Join(lines)| && Join(lines)[o] == lines[k][column]
    decreases k
  {
    if k > 0 {
      OffsetFromSecond(lines, k);
      ColumnInJoin(lines[1..], k - 1, column);
    }
  }

  /** A column of a line is the source character at that line's offset plus the column. */
  lemma ColumnInSource(source: string, k: nat, column: nat)
    requires k < |Split(source)| && column < |Split(source)[k]|
    ensures var o := LineOffset(Split(source), k) + column; o < |source| && source[o] == Split(source)[k][column]
  {
    JoinSplit(source);
    ColumnInJoin(Split(source), k, column);
  }

  /** The lines a span touches: it covers a character of the line, or the line is empty and it covers its line break. */
  predicate Touches(span: Span, offset: nat, length: nat) {
    if length == 0 then span.Covers(offset) else span.start < span.end && span.start < offset + length && offset < span.end
  }

  function Max(a: nat, b: nat): nat {
    if a < b then b else a
  }

  function Min(a: nat, b: nat): nat {
    if a < b then a else b
  }

  /** The columns of one line that the comments cover. */
  method LineRanges(comments: seq<Span>, lineOffset: nat, length: nat) returns (ranges: Option<seq<Span>>)
    ensures ranges.None? <==> forall k :: 0 <= k < |comments| ==> !Touches(comments[k], lineOffset, length)
    ensures ranges.Some? ==> Within(ranges.value, length)
    ensures RangesSoFar(ranges, comments, lineOffset, length)
  {
    ranges := None;
    assert comments[..0] == [];
    var lineEnd := lineOffset + length;
    for k := 0 to |comments|
      invariant ranges.None? <==> forall i :: 0 <= i < k ==> !Touches(comments[i], lineOffset, length)
      invariant ranges.Some? ==> Within(ranges.value, length)
      invariant RangesSoFar(ranges, comments[..k], lineOffset, length)
    {
      var Span(start, end) := comments[k];
      var from, to := Max(start, lineOffset), Min(end, lineEnd);
      var coversEmptyLine := length == 0 && start <= lineOffset && end > lineOffset;
      assert comments[..k + 1] == comments[..k] + [comments[k]];
      if from < to || coversEmptyLine {
        var range := Span(from - lineOffset, to - lineOffset);
        RangesStep(ranges, comments[..k], comments[k], range, lineOffset, length);
        ranges := Some((if ranges.Some? then ranges.value else []) + [range]);
      } else {
        RangesSkip(ranges, comments[..k], comments[k], lineOffset, length);
      }
    }
    assert comments[..|comments|] == comments;
  }

  ghost predicate Covered(ranges: seq<Span>, o: nat) {
    exists k :: 0 <= k < |ranges| && ranges[k].Covers(o)
  }

  predicate Within(ranges: seq<Span>, length: nat) {
    forall k :: 0 <= k < |ranges| ==> ranges[k].start <= ranges[k].end <= length
  }

  ghost predicate CoveredAt(spans: seq<Span>, lineOffset: nat, column: nat) {
    Covered(spans, lineOffset + column)
  }

  /** In the line of `length` characters at `lineOffset`, the ranges cover the columns the comments cover. */
  ghost predicate RangesSoFar(ranges: Option<seq<Span>>, comments: seq<Span>, lineOffset: nat, length: nat) {
    forall column: nat :: column < length ==>
      (CoveredAt(comments, lineOffset, column) <==> ranges.Some? && Covered(ranges.value, column))
  }

  lemma CoveredAppend(ranges: seq<Span>, range: Span, o: nat)
    ensures Covered(ranges + [range], o) <==> Covered(ranges, o) || range.Covers(o)
  {
    var all := ranges + [range];
    if Covered(all, o) {
      var k :| 0 <= k < |all| && all[k].Covers(o);
      assert k < |ranges| ==> ranges[k].Covers(o);
    }
    if Covered(ranges, o) {
      var k :| 0 <= k < |ranges| && ranges[k].Covers(o);
      assert all[k].Covers(o);
    }
    if range.Covers(o) { assert all[|ranges|].Covers(o); }
  }

  lemma RangesStep(ranges: Option<seq<Span>>, comments: seq<Span>, comment: Span, range: Span, lineOffset: nat, length: nat)
    requires RangesSoFar(ranges, comments, lineOffset, length)
    requires forall column: nat :: column < length ==> (range.Covers(column) <==> comment.Covers(lineOffset + column))
    ensures RangesSoFar(Some((if ranges.Some? then ranges.value else []) + [range]), comments + [comment], lineOffset, length)
  {
    var before := if ranges.Some? then ranges.value else [];
    forall column: nat | column < length
      ensures CoveredAt(comments + [comment], lineOffset, column) <==> Covered(before + [range], column)
    {
      CoveredAppend(comments, comment, lineOffset + column);
      CoveredAppend(before, range, column);
      assert CoveredAt(comments, lineOffset, column) <==> ranges.Some? && Covered(ranges.value, column);
      assert comment.Covers(lineOffset + column) <==> range.Covers(column);
      if ranges.None? { assert !Covered(before, column); }
    }
  }

  lemma RangesSkip(ranges: Option<seq<Span>>, comments: seq<Span>, comment: Span, lineOffset: nat, length: nat)
    requires RangesSoFar(ranges, comments, lineOffset, length) && !Touches(comment, lineOffset, length)
    ensures RangesSoFar(ranges, comments + [comment], lineOffset, length)
  {
    forall column: nat | column < length
      ensures CoveredAt(comments + [comment], lineOffset, column) <==> CoveredAt(comments, lineOffset, column)
    {
      CoveredAppend(comments, comment, lineOffset + column);
    }
  }

  function TrimStart(s: string): string {
    if s != "" && IsWhitespace(s[0]) then TrimStart(s[1..]) else s
  }

  function TrimEnd(s: string): string {
    if s != "" && IsWhitespace(s[|s| - 1]) then TrimEnd(s[..|s| - 1]) else s
  }

  function Trim(s: string): string {
    TrimEnd(TrimStart(s))
  }

  /** Some character of `s` is not white space. */
  ghost predicate HasInk(s: string) {
    exists i :: 0 <= i < |s| && !IsWhitespace(s[i])
  }

  lemma {:induction false} TrimStartInk(s: string)
    ensures HasInk(TrimStart(s)) <==> HasInk(s)
    ensures TrimStart(s) != "" <==> HasInk(s)
  {
    if s != "" && IsWhitespace(s[0]) {
      TrimStartInk(s[1..]);
      if HasInk(s) {
        var i :| 0 <= i < |s| && !IsWhitespace(s[i]);
        assert !IsWhitespace(s[1..][i - 1]);
      }
    } else if s != "" {
      assert !IsWhitespace(s[0]);
    }
  }

  lemma {:induction false} TrimEndInk(s: string)
    ensures TrimEnd(s) != "" <==> HasInk(s)
  {
    if s != "" && IsWhitespace(s[|s| - 1]) {
      TrimEndInk(s[..|s| - 1]);
      if HasInk(s) {
        var i :| 0 <= i < |s| && !IsWhitespace(s[i]);
        assert !IsWhitespace(s[..|s| - 1][i]);
      }
    } else if s != "" {
      assert !IsWhitespace(s[|s| - 1]);
    }
  }

  lemma TrimKeepsInk(s: string)
    ensures Trim(s) != "" <==> HasInk(s)
  {
    TrimStartInk(s);
    TrimEndInk(TrimStart(s));
  }

  function Insert(range: Span, sorted: seq<Span>): seq<Span> {
    if sorted == [] || range.start < sorted[0].start then [range] + sorted else [sorted[0]] + Insert(range, sorted[1..])
  }

  /** A stable sort by start. */
  function SortByStart(ranges: seq<Span>): seq<Span> {
    if ranges == [] then [] else Insert(ranges[|ranges| - 1], SortByStart(ranges[..|ranges| - 1]))
  }

  ghost predicate Ascending(ranges: seq<Span>) {
    forall i, j :: 0 <= i < j < |ranges| ==> ranges[i].start <= ranges[j].start
  }

  lemma {:induction false} InsertAdds(range: Span, sorted: seq<Span>)
    ensures multiset(Insert(range, sorted)) == multiset(sorted) + multiset{range}
  {
    if sorted == [] || range.start < sorted[0].start {
    } else {
      InsertAdds(range, sorted[1..]);
      assert sorted == [sorted[0]] + sorted[1..];
    }
  }

  lemma {:induction false} InsertAscends(range: Span, sorted: seq<Span>)
    requires Ascending(sorted)
    ensures Ascending(Insert(range, sorted))
  {
    if sorted == [] || range.start < sorted[0].start {
    } else {
      var rest := Insert(range, sorted[1..]);
      InsertAscends(range, sorted[1..]);
      forall j | 0 <= j < |rest| ensures sorted[0].start <= rest[j].start {
        InsertAdds(range, sorted[1..]);
        assert rest[j] in multiset(rest);
        assert rest[j] in sorted[1..] || rest[j] == range;
      }
    }
  }

  lemma {:induction false} SortAscends(ranges: seq<Span>)
    ensures Ascending(SortByStart(ranges)) && multiset(SortByStart(ranges)) == multiset(ranges)
  {
    if ranges != [] {
      var init, last := ranges[..|ranges| - 1], ranges[|ranges| - 1];
      SortAscends(init);
      InsertAscends(last, SortByStart(init));
      InsertAdds(last, SortByStart(init));
      assert ranges == init + [last];
    }
  }

  lemma SortCovers(ranges: seq<Span>, o: nat)
    ensures Covered(SortByStart(ranges), o) <==> Covered(ranges, o)
  {
    var sorted := SortByStart(ranges);
    SortAscends(ranges);
    if Covered(sorted, o) {
      var k :| 0 <= k < |sorted| && sorted[k].Covers(o);
      assert sorted[k] in multiset(ranges);
    }
    if Covered(ranges, o) {
      var k :| 0 <= k < |ranges| && ranges[k].Covers(o);
      assert ranges[k] in multiset(sorted);
    }
  }

  /** `raw.slice(from, to)`. */
  function Slice(raw: string, from: nat, to: nat): string
    requires from <= |raw| && to <= |raw|
  {
    if from < to then raw[from..to] else ""
  }

  /** The characters of `raw` before column `to` that no range covers. */
  ghost function Uncovered(raw: string, ranges: seq<Span>, to: nat): string
    requires to <= |raw|
  {
    if to == 0 then ""
    else Uncovered(raw, ranges, to - 1) + if Covered(ranges, to - 1) then "" else [raw[to - 1]]
  }

  /** From `from` on there is a stretch no range covers, then one they cover throughout. */
  lemma {:induction false} UncoveredAcross(raw: string, ranges: seq<Span>, from: nat, middle: nat, to: nat)
    requires from <= middle <= to <= |raw|
    requires forall c: nat :: from <= c < middle ==> !Covered(ranges, c)
    requires forall c: nat :: middle <= c < to ==> Covered(ranges, c)
    ensures Uncovered(raw, ranges, to) == Uncovered(raw, ranges, from) + raw[from..middle]
  {
    if middle < to {
      UncoveredAcross(raw, ranges, from, middle, to - 1);
    } else if from < middle {
      UncoveredAcross(raw, ranges, from, middle - 1, middle - 1);
      assert raw[from..middle] == raw[from..middle - 1] + [raw[middle - 1]];
    }
  }

  lemma {:induction false} UncoveredInk(raw: string, ranges: seq<Span>, to: nat)
    requires to <= |raw|
    ensures HasInk(Uncovered(raw, ranges, to)) <==> InkOutside(raw, ranges, to)
  {
    if to > 0 {
      UncoveredInk(raw, ranges, to - 1);
      var before, now := Uncovered(raw, ranges, to - 1), Uncovered(raw, ranges, to);
      if HasInk(before) {
        var i :| 0 <= i < |before| && !IsWhitespace(before[i]);
        assert now[i] == before[i];
      }
      if HasInk(now) {
        var i :| 0 <= i < |now| && !IsWhitespace(now[i]);
        assert i < |before| ==> before[i] == now[i];
      }
      if !Covered(ranges, to - 1) { assert now[|before|] == raw[to - 1]; }
    }
  }

  /** Some character before column `to` is neither white space nor in a range. */
  ghost predicate InkOutside(raw: string, ranges: seq<Span>, to: nat)
    requires to <= |raw|
  {
    exists c: nat :: c < to && !IsWhitespace(raw[c]) && !Covered(ranges, c)
  }

  lemma SortKeepsInk(raw: string, ranges: seq<Span>)
    ensures InkOutside(raw, SortByStart(ranges), |raw|) <==> InkOutside(raw, ranges, |raw|)
  {
    forall c: nat | c < |raw| ensures Covered(SortByStart(ranges), c) <==> Covered(ranges, c) { SortCovers(ranges, c); }
  }

  ghost predicate Processed(sorted: seq<Span>, k: nat, cursor: nat) {
    && (forall i :: 0 <= i < k && i < |sorted| ==> sorted[i].end <= cursor)
    && (cursor == 0 || exists i :: 0 <= i < k && i < |sorted| && sorted[i].end == cursor)
  }

  lemma ProcessedStep(sorted: seq<Span>, k: nat, cursor: nat)
    requires k < |sorted| && Processed(sorted, k, cursor)
    ensures Processed(sorted, k + 1, Max(cursor, sorted[k].end))
  {
    if cursor < sorted[k].end { assert sorted[k].end == Max(cursor, sorted[k].end); }
  }

  /** No range covers what lies between the cursor and the next start. */
  lemma GapIsUncovered(sorted: seq<Span>, k: nat, cursor: nat, c: nat)
    requires Ascending(sorted) && k <= |sorted| && Processed(sorted, k, cursor)
    requires cursor <= c && (k < |sorted| ==> c < sorted[k].start)
    ensures !Covered(sorted, c)
  {
    forall i | 0 <= i < |sorted| ensures !sorted[i].Covers(c) {
      if i > k { assert sorted[k].start <= sorted[i].start; }
    }
  }

  /** One range more: what lies between the cursor and its start is uncovered, the rest up to its end is covered. */
  lemma CursorStep(raw: string, sorted: seq<Span>, k: nat, cursor: nat)
    requires Ascending(sorted) && Within(sorted, |raw|) && k < |sorted| && cursor <= |raw| && Processed(sorted, k, cursor)
    ensures Uncovered(raw, sorted, Max(cursor, sorted[k].end)) == Uncovered(raw, sorted, cursor) + Slice(raw, cursor, sorted[k].start)
  {
    var start, end := sorted[k].start, sorted[k].end;
    var middle, to := Max(cursor, start), Max(cursor, end);
    forall c: nat | cursor <= c < middle ensures !Covered(sorted, c) { GapIsUncovered(sorted, k, cursor, c); }
    forall c: nat | middle <= c < to ensures Covered(sorted, c) { assert sorted[k].Covers(c); }
    UncoveredAcross(raw, sorted, cursor, middle, to);
  }

  method HasRenderedTextOutsideComments(raw: string, ranges: Option<seq<Span>>) returns (rendered: bool)
    requires ranges.Some? ==> Within(ranges.value, |raw|)
    ensures rendered <==> ranges.None? || InkOutside(raw, ranges.value, |raw|)
  {
    if ranges.None? { return true; }
    var sorted := SortByStart(ranges.value);
    SortedIsWithin(ranges.value, |raw|);
    var cursor: nat, visible := 0, "";
    for k := 0 to |sorted|
      invariant cursor <= |raw| && Processed(sorted, k, cursor)
      invariant visible == Uncovered(raw, sorted, cursor)
    {
      CursorStep(raw, sorted, k, cursor);
      ProcessedStep(sorted, k, cursor);
      visible := visible + Slice(raw, cursor, sorted[k].start);
      cursor := Max(cursor, sorted[k].end);
    }
    forall c: nat | cursor <= c < |raw| ensures !Covered(sorted, c) { GapIsUncovered(sorted, |sorted|, cursor, c); }
    UncoveredAcross(raw, sorted, cursor, |raw|, |raw|);
    assert raw[cursor..] == raw[cursor..|raw|];
    visible := visible + raw[cursor..];
    assert visible == Uncovered(raw, sorted, |raw|);
    TrimKeepsInk(visible);
    UncoveredInk(raw, sorted, |raw|);
    SortKeepsInk(raw, ranges.value);
    rendered := Trim(visible) != "";
  }

  lemma SortedIsWithin(ranges: seq<Span>, length: nat)
    requires Within(ranges, length)
    ensures Within(SortByStart(ranges), length) && Ascending(SortByStart(ranges))
  {
    SortAscends(ranges);
    var sorted := SortByStart(ranges);
    forall k | 0 <= k < |sorted| ensures sorted[k].start <= sorted[k].end <= length {
      assert sorted[k] in multiset(ranges);
    }
  }

  /** The offsets a list of comments covers, read off the HTML nodes themselves. */
  ghost predicate Commented(nodes: seq<Html>, o: nat) {
    exists n :: 0 <= n < |nodes| && InComment(nodes[n], o)
  }

  ghost predicate InComment(node: Html, o: nat) {
    node.offset <= o && exists spans :: AreComments(node.value, spans, 0) && Covered(spans, o - node.offset)
  }

  function Shift(spans: seq<Span>, offset: nat): seq<Span> {
    seq(|spans|, k requires 0 <= k < |spans| => Span(offset + spans[k].start, offset + spans[k].end))
  }

  /** The comments of every HTML node, as offsets in the source. */
  method CommentSpans(nodes: seq<Html>) returns (comments: seq<Span>)
    ensures forall o: nat :: Covered(comments, o) <==> Commented(nodes, o)
  {
    comments := [];
    for n := 0 to |nodes|
      invariant forall o: nat :: Covered(comments, o) <==> Commented(nodes[..n], o)
    {
      var spans := ScanComments(nodes[n].value);
      var shifted := Shift(spans, nodes[n].offset);
      forall o: nat ensures Covered(comments + shifted, o) <==> Commented(nodes[..n + 1], o) {
        NodeStep(nodes, n, comments, spans, o);
      }
      comments := comments + shifted;
    }
    assert nodes[..|nodes|] == nodes;
  }

  lemma ShiftCovers(spans: seq<Span>, offset: nat, o: nat)
    ensures Covered(Shift(spans, offset), o) <==> offset <= o && Covered(spans, o - offset)
  {
    var shifted := Shift(spans, offset);
    if Covered(shifted, o) {
      var k :| 0 <= k < |shifted| && shifted[k].Covers(o);
      assert spans[k].Covers(o - offset);
    }
    if offset <= o && Covered(spans, o - offset) {
      var k :| 0 <= k < |spans| && spans[k].Covers(o - offset);
      assert shifted[k].Covers(o);
    }
  }

  lemma CoveredConcat(a: seq<Span>, b: seq<Span>, o: nat)
    ensures Covered(a + b, o) <==> Covered(a, o) || Covered(b, o)
  {
    if Covered(a + b, o) {
      var k :| 0 <= k < |a + b| && (a + b)[k].Covers(o);
      assert if k < |a| then a[k].Covers(o) else b[k - |a|].Covers(o);
    }
    if Covered(a, o) {
      var k :| 0 <= k < |a| && a[k].Covers(o);
      assert (a + b)[k].Covers(o);
    }
    if Covered(b, o) {
      var k :| 0 <= k < |b| && b[k].Covers(o);
      assert (a + b)[|a| + k].Covers(o);
    }
  }

  lemma InCommentBySpans(node: Html, spans: seq<Span>, o: nat)
    requires AreComments(node.value, spans, 0)
    ensures InComment(node, o) <==> node.offset <= o && Covered(spans, o - node.offset)
  {
    if InComment(node, o) {
      var other :| AreComments(node.value, other, 0) && Covered(other, o - node.offset);
      CommentsAreUnique(node.value, spans, other, 0);
    }
  }

  lemma NodeStep(nodes: seq<Html>, n: nat, comments: seq<Span>, spans: seq<Span>, o: nat)
    requires n < |nodes| && AreComments(nodes[n].value, spans, 0)
    requires Covered(comments, o) <==> Commented(nodes[..n], o)
    ensures Covered(comments + Shift(spans, nodes[n].offset), o) <==> Commented(nodes[..n + 1], o)
  {
    var before, now := nodes[..n], nodes[..n + 1];
    CoveredConcat(comments, Shift(spans, nodes[n].offset), o);
    ShiftCovers(spans, nodes[n].offset, o);
    InCommentBySpans(nodes[n], spans, o);
    assert now == before + [nodes[n]];
    if Commented(now, o) {
      var m :| 0 <= m < |now| && InComment(now[m], o);
      assert m < n ==> InComment(before[m], o);
    }
    if Commented(before, o) {
      var m :| 0 <= m < |before| && InComment(before[m], o);
      assert InComment(now[m], o);
    }
    if InComment(nodes[n], o) { assert InComment(now[n], o); }
  }

  /** The line is within a code node. */
  ghost predicate Fenced(codes: seq<Code>, line: nat) {
    exists k :: 0 <= k < |codes| && codes[k].first <= line <= codes[k].last
  }

  /** Every line of every code node. */
  method FencedLines(codes: seq<Code>) returns (fenced: set<nat>)
    ensures forall line: nat :: line in fenced <==> Fenced(codes, line)
  {
    fenced := {};
    for k := 0 to |codes|
      invariant forall line: nat :: line in fenced <==> exists i :: 0 <= i < k && codes[i].first <= line <= codes[i].last
    {
      var own: set<nat>, line := {}, codes[k].first;
      while line <= codes[k].last
        invariant forall l: nat :: l in own <==> codes[k].first <= l < line && l <= codes[k].last
        decreases codes[k].last + 1 - line
      {
        own := own + {line};
        line := line + 1;
      }
      fenced := fenced + own;
    }
  }

  /** A comment covers a character of line `k`, or, for an empty line, its line break. */
  ghost predicate CommentTouches(lines: seq<string>, nodes: seq<Html>, k: nat)
    requires k < |lines|
  {
    var offset := LineOffset(lines, k);
    if lines[k] == "" then Commented(nodes, offset)
    else exists c: nat :: c < |lines[k]| && CommentedAt(nodes, offset, c)
  }

  ghost predicate CommentedAt(nodes: seq<Html>, lineOffset: nat, column: nat) {
    Commented(nodes, lineOffset + column)
  }

  /** Some character of line `k` is neither white space nor in a comment. */
  ghost predicate TextRemains(lines: seq<string>, nodes: seq<Html>, k: nat)
    requires k < |lines|
  {
    exists c: nat :: c < |lines[k]| && !IsWhitespace(lines[k][c]) && !CommentedAt(nodes, LineOffset(lines, k), c)
  }

  ghost predicate Kept(lines: seq<string>, nodes: seq<Html>, codes: seq<Code>, k: nat)
    requires k < |lines|
  {
    !Fenced(codes, k + 1) && (CommentTouches(lines, nodes, k) ==> TextRemains(lines, nodes, k))
  }

  /** The kept ones among the first `k` lines, numbered from 1. */
  ghost function Prose(lines: seq<string>, nodes: seq<Html>, codes: seq<Code>, k: nat): seq<ProseLine>
    requires k <= |lines|
  {
    if k == 0 then []
    else Prose(lines, nodes, codes, k - 1) + if Kept(lines, nodes, codes, k - 1) then [ProseLine(k, lines[k - 1])] else []
  }

  lemma TouchedByOne(lines: seq<string>, nodes: seq<Html>, comments: seq<Span>, k: nat, i: nat)
    requires k < |lines| && i < |comments| && Touches(comments[i], LineOffset(lines, k), |lines[k]|)
    requires forall o: nat :: Covered(comments, o) <==> Commented(nodes, o)
    ensures CommentTouches(lines, nodes, k)
  {
    var offset := LineOffset(lines, k);
    var o := Max(comments[i].start, offset);
    assert comments[i].Covers(o) && Covered(comments, o);
    if lines[k] != "" { assert CommentedAt(nodes, offset, o - offset); }
  }

  lemma TouchIsByOne(lines: seq<string>, nodes: seq<Html>, comments: seq<Span>, k: nat) returns (i: nat)
    requires k < |lines| && CommentTouches(lines, nodes, k)
    requires forall o: nat :: Covered(comments, o) <==> Commented(nodes, o)
    ensures i < |comments| && Touches(comments[i], LineOffset(lines, k), |lines[k]|)
  {
    var offset := LineOffset(lines, k);
    var o := offset;
    if lines[k] != "" {
      var c: nat :| c < |lines[k]| && CommentedAt(nodes, offset, c);
      o := offset + c;
    }
    assert Covered(comments, o);
    i :| 0 <= i < |comments| && comments[i].Covers(o);
  }

  /** The ranges of a line decide whether it is kept. */
  lemma RangesDecide(lines: seq<string>, nodes: seq<Html>, comments: seq<Span>, k: nat, ranges: Option<seq<Span>>)
    requires k < |lines| && forall o: nat :: Covered(comments, o) <==> Commented(nodes, o)
    requires var offset := LineOffset(lines, k);
             (ranges.None? <==> forall i :: 0 <= i < |comments| ==> !Touches(comments[i], offset, |lines[k]|))
             && RangesSoFar(ranges, comments, offset, |lines[k]|)
    ensures ranges.None? <==> !CommentTouches(lines, nodes, k)
    ensures ranges.Some? ==> (InkOutside(lines[k], ranges.value, |lines[k]|) <==> TextRemains(lines, nodes, k))
  {
    if CommentTouches(lines, nodes, k) { var i := TouchIsByOne(lines, nodes, comments, k); }
    if ranges.Some? {
      var i :| 0 <= i < |comments| && Touches(comments[i], LineOffset(lines, k), |lines[k]|);
      TouchedByOne(lines, nodes, comments, k, i);
      var offset := LineOffset(lines, k);
      forall c: nat | c < |lines[k]| ensures Covered(ranges.value, c) <==> CommentedAt(nodes, offset, c) {
        assert CoveredAt(comments, offset, c) <==> Covered(ranges.value, c);
      }
    }
  }

  /** `markdownProseLines`, given the nodes of the parsed source. */
  method MarkdownProseLines(source: string, nodes: seq<Html>, codes: seq<Code>) returns (kept: seq<ProseLine>)
    ensures kept == Prose(Split(source), nodes, codes, |Split(source)|)
  {
    var lines := Split(source);
    var comments := CommentSpans(nodes);
    var fenced := FencedLines(codes);
    kept := [];
    var lineOffset := 0;
    for k := 0 to |lines|
      invariant lineOffset == LineOffset(lines, k)
      invariant kept == Prose(lines, nodes, codes, k)
    {
      var raw := lines[k];
      var ranges := LineRanges(comments, lineOffset, |raw|);
      RangesDecide(lines, nodes, comments, k, ranges);
      if k + 1 !in fenced {
        var rendered := HasRenderedTextOutsideComments(raw, ranges);
        if rendered { kept := kept + [ProseLine(k + 1, raw)]; }
      }
      lineOffset := lineOffset + |raw| + 1;
    }
  }
}
