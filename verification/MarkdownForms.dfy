/**
 Well-formed links, images and definitions after sections 4.7 and 6.3 of CommonMark 0.31.2, and what the
 destination scan of scripts/project-doc-site.ts (lines 99-142) makes of them.
 */
module MarkdownForms {
  import opened Prelude
  import opened LinkDestination

  /** Bracketed text: characters, backslash escapes, and nested bracket groups. */
  datatype Text =
    | End
    | Plain(c: char, rest: Text)
    | Escaped(c: char, rest: Text)
    | Group(inner: Text, rest: Text)

  datatype Brackets = Brackets(open: char, close: char)

  const SQUARE := Brackets('[', ']')
  const ROUND := Brackets('(', ')')
  const ANGLE := Brackets('<', '>')

  /** The number of characters it is written with. */
  function Width(t: Text): nat {
    match t
    case End => 0
    case Plain(_, rest) => 1 + Width(rest)
    case Escaped(_, rest) => 2 + Width(rest)
    case Group(inner, rest) => 2 + Width(inner) + Width(rest)
  }

  /** Read from index `i` on, `s` is the text as it is written. */
  predicate Reads(s: string, i: nat, t: Text, b: Brackets)
    decreases t
  {
    match t
    case End => i <= |s|
    case Plain(c, rest) => i < |s| && s[i] == c && Reads(s, i + 1, rest, b)
    case Escaped(c, rest) => i + 1 < |s| && s[i] == '\\' && s[i + 1] == c && Reads(s, i + 2, rest, b)
    case Group(inner, rest) =>
      var close := i + 1 + Width(inner);
      close < |s| && s[i] == b.open && Reads(s, i + 1, inner, b) && s[close] == b.close && Reads(s, close + 1, rest, b)
  }

  /** Plain characters are neither backslashes nor the brackets. */
  predicate Balanced(t: Text, b: Brackets) {
    match t
    case End => true
    case Plain(c, rest) => c != '\\' && c != b.open && c != b.close && Balanced(rest, b)
    case Escaped(_, rest) => Balanced(rest, b)
    case Group(inner, rest) => Balanced(inner, b) && Balanced(rest, b)
  }

  /** Spaces, tabs and line endings, which may stand between the parts of a link (section 6.3). */
  predicate IsBlank(c: char) {
    c == ' ' || c == '\t' || c == '\n' || c == '\r'
  }

  /** A bare destination may hold neither ASCII control characters nor the space (section 6.3); other white space it may. */
  predicate Bare(t: Text) {
    match t
    case End => true
    case Plain(c, rest) => ' ' < c && c != '\U{7F}' && Bare(rest)
    case Escaped(c, rest) => ' ' < c && c != '\U{7F}' && Bare(rest)
    case Group(inner, rest) => Bare(inner) && Bare(rest)
  }

  /** Other white space, such as a no-break space, stands outside every group, and not right after a backslash. */
  predicate Spaced(t: Text) {
    match t
    case End => false
    case Plain(c, rest) => IsWhitespace(c) || Spaced(rest)
    case Escaped(_, rest) => Spaced(rest)
    case Group(_, rest) => Spaced(rest)
  }

  predicate Flat(t: Text) {
    match t
    case End => true
    case Plain(_, rest) => Flat(rest)
    case Escaped(_, rest) => Flat(rest)
    case Group(_, _) => false
  }

  /** `s` reads as the text from `i` up to `j`. */
  predicate Spans(s: string, i: nat, j: nat, t: Text, b: Brackets) {
    j == i + Width(t) && Reads(s, i, t, b)
  }

  lemma LabelScanGroup(s: string, i: nat, close: nat, depth: int)
    requires i < close < |s| && s[i] == '[' && s[close] == ']' && depth >= 1
    requires LabelScan(s, i + 1, depth + 1) == LabelScan(s, close, depth + 1)
    ensures LabelScan(s, i, depth) == LabelScan(s, close + 1, depth)
  {}

  /** A balanced part of a label leaves the bracket depth where it was. */
  lemma {:induction false} LabelScanSkips(s: string, i: nat, j: nat, t: Text, depth: int)
    requires Balanced(t, SQUARE) && Spans(s, i, j, t, SQUARE) && depth >= 1
    ensures LabelScan(s, i, depth) == LabelScan(s, j, depth)
    decreases t
  {
    match t
    case End =>
    case Plain(_, rest) => LabelScanSkips(s, i + 1, j, rest, depth);
    case Escaped(_, rest) => LabelScanSkips(s, i + 2, j, rest, depth);
    case Group(inner, rest) =>
      var close := i + 1 + Width(inner);
      LabelScanSkips(s, i + 1, close, inner, depth + 1);
      LabelScanGroup(s, i, close, depth);
      LabelScanSkips(s, close + 1, j, rest, depth);
  }

  lemma BareScanPlain(s: string, i: nat, depth: nat)
    requires i < |s| && s[i] != '\\' && s[i] != '(' && s[i] != ')' && (IsWhitespace(s[i]) ==> depth > 0)
    ensures BareScan(s, i, depth) == BareScan(s, i + 1, depth)
  {}

  lemma BareScanGroup(s: string, i: nat, close: nat, depth: nat)
    requires i < close < |s| && s[i] == '(' && s[close] == ')'
    requires BareScan(s, i + 1, depth + 1) == BareScan(s, close, depth + 1)
    ensures BareScan(s, i, depth) == BareScan(s, close + 1, depth)
  {}

  /** A balanced part of a destination leaves the parenthesis depth where it was; inside a group, white space does not matter. */
  lemma {:induction false} BareScanSkips(s: string, i: nat, j: nat, t: Text, depth: nat)
    requires Balanced(t, ROUND) && Spans(s, i, j, t, ROUND) && (Spaced(t) ==> depth > 0)
    ensures BareScan(s, i, depth) == BareScan(s, j, depth)
    decreases t, 0
  {
    match t
    case End =>
    case Plain(_, rest) =>
      BareScanPlain(s, i, depth);
      BareScanSkips(s, i + 1, j, rest, depth);
    case Escaped(_, rest) => BareScanSkips(s, i + 2, j, rest, depth);
    case Group(inner, rest) =>
      var close := i + 1 + Width(inner);
      BareGroupSkips(s, i, close, inner, depth);
      BareScanSkips(s, close + 1, j, rest, depth);
  }

  lemma {:induction false} BareGroupSkips(s: string, i: nat, close: nat, inner: Text, depth: nat)
    requires Balanced(inner, ROUND) && Spans(s, i + 1, close, inner, ROUND)
    requires close < |s| && s[i] == '(' && s[close] == ')'
    ensures BareScan(s, i, depth) == BareScan(s, close + 1, depth)
    decreases inner, 1
  {
    BareScanSkips(s, i + 1, close, inner, depth + 1);
    BareScanGroup(s, i, close, depth);
  }

  /** Outside any group the scan stops at white space, and so short of the destination's end. */
  lemma {:induction false} BareScanStopsShort(s: string, i: nat, j: nat, t: Text)
    requires Balanced(t, ROUND) && Spans(s, i, j, t, ROUND) && Spaced(t)
    ensures BareScan(s, i, 0) < j
    decreases t
  {
    match t
    case Plain(c, rest) => if !IsWhitespace(c) { BareScanStopsShort(s, i + 1, j, rest); }
    case Escaped(_, rest) => BareScanStopsShort(s, i + 2, j, rest);
    case Group(inner, rest) =>
      var close := i + 1 + Width(inner);
      BareGroupSkips(s, i, close, inner, 0);
      BareScanStopsShort(s, close + 1, j, rest);
  }

  lemma {:induction false} AngleScanSkips(s: string, i: nat, j: nat, t: Text)
    requires Flat(t) && Balanced(t, ANGLE) && Spans(s, i, j, t, ANGLE)
    ensures AngleScan(s, i) == AngleScan(s, j)
    decreases t
  {
    match t
    case End =>
    case Plain(_, rest) => AngleScanSkips(s, i + 1, j, rest);
    case Escaped(_, rest) => AngleScanSkips(s, i + 2, j, rest);
  }

  /**
   From `i` up to `j` stands what may stand before a destination: blanks, and where lines go on in a block
   quote, the markers of the quote (section 5.1).
   */
  predicate GapBetween(s: string, i: nat, j: nat) {
    i <= j <= |s| && forall k :: i <= k < j ==> IsBlank(s[k]) || s[k] == '>'
  }

  predicate MarkedBetween(s: string, i: nat, j: nat)
    requires i <= j <= |s|
  {
    exists k :: i <= k < j && s[k] == '>'
  }

  lemma {:induction false} SkipSkips(s: string, i: nat, j: nat)
    requires GapBetween(s, i, j) && !MarkedBetween(s, i, j)
    ensures SkipSpec(s, i) == SkipSpec(s, j)
    decreases j - i
  {
    if i < j { SkipSkips(s, i + 1, j); }
  }

  /** A marker is no white space: the scan stops at the first. */
  lemma {:induction false} SkipStops(s: string, i: nat, j: nat)
    requires GapBetween(s, i, j) && MarkedBetween(s, i, j)
    ensures SkipSpec(s, i) < j && s[SkipSpec(s, i)] == '>'
    decreases j - i
  {
    if s[i] != '>' { SkipStops(s, i + 1, j); }
  }

  function Separator(kind: Kind): char {
    if kind == Definition then ':' else '('
  }

  /** An image has an exclamation mark before its label. */
  function LabelStart(kind: Kind): nat {
    if kind == Image then 2 else 1
  }

  function EndOfLabel(kind: Kind, name: Text): nat {
    LabelStart(kind) + Width(name)
  }

  /** A label in its brackets begins the text, and its separator follows. */
  predicate Labelled(raw: string, kind: Kind, name: Text) {
    var start, end := LabelStart(kind), EndOfLabel(kind, name);
    && Opens(raw, kind) && end + 1 < |raw|
    && Balanced(name, SQUARE) && Reads(raw, start, name, SQUARE)
    && raw[end] == ']' && raw[end + 1] == Separator(kind)
  }

  predicate Opens(raw: string, kind: Kind) {
    LabelStart(kind) <= |raw| && raw[LabelStart(kind) - 1] == '[' && (kind == Image ==> raw[0] == '!')
  }

  /** The label scan finds the end of a balanced label. */
  lemma LabelIsSkipped(raw: string, kind: Kind, name: Text)
    requires Labelled(raw, kind, name)
    ensures LabelEndSpec(raw) == Some(EndOfLabel(kind, name))
  {
    LabelScanStarts(raw, kind);
    LabelScanSkips(raw, LabelStart(kind), EndOfLabel(kind, name), name, 1);
  }

  lemma LabelScanStarts(raw: string, kind: Kind)
    requires Opens(raw, kind)
    ensures LabelEndSpec(raw) == LabelScan(raw, LabelStart(kind), 1)
  {
    assert IndexOf(raw, '[', 0) == Some(LabelStart(kind) - 1);
  }

  /** A text and the place it ends at. */
  datatype Piece = Piece(text: Text, end: nat)

  /**
   Texts that stand one after another from `i`, each closed by a bracket: what the label scan, that many
   brackets deep, reads before it ends.
   */
  predicate Closing(s: string, i: nat, ps: seq<Piece>, end: nat)
    decreases |ps|
  {
    && ps != [] && Closed(s, i, ps[0])
    && if |ps| == 1 then ps[0].end == end else Closing(s, ps[0].end + 1, ps[1..], end)
  }

  predicate Closed(s: string, i: nat, p: Piece) {
    Balanced(p.text, SQUARE) && Spans(s, i, p.end, p.text, SQUARE) && p.end < |s| && s[p.end] == ']'
  }

  lemma ClosingFirst(s: string, i: nat, p: Piece, others: seq<Piece>, end: nat)
    requires Closed(s, i, p) && if others == [] then p.end == end else Closing(s, p.end + 1, others, end)
    ensures Closing(s, i, [p] + others, end)
  {
    assert ([p] + others)[1..] == others;
  }

  lemma ClosingRest(s: string, i: nat, ps: seq<Piece>, end: nat)
    requires Closing(s, i, ps, end)
    ensures Closed(s, i, ps[0]) && if ps[1..] == [] then ps[0].end == end else Closing(s, ps[0].end + 1, ps[1..], end)
  {}

  /** Where the scan ends, a balanced text for every bracket that was open lies behind it. */
  lemma {:induction false} ScannedIsBalanced(s: string, i: nat, depth: nat) returns (ps: seq<Piece>)
    requires depth >= 1 && LabelScan(s, i, depth).Some?
    ensures |ps| == depth && Closing(s, i, ps, LabelScan(s, i, depth).value)
    decreases |s| - i
  {
    var end := LabelScan(s, i, depth).value;
    if s[i] == '\\' {
      ps := ScannedIsBalanced(s, i + 2, depth);
      ps := OntoFirst(s, i, i + 2, Escaped(s[i + 1], ps[0].text), ps, end);
    } else if s[i] == '[' {
      ps := ScannedIsBalanced(s, i + 1, depth + 1);
      ps := GroupCloses(s, i, ps, end);
    } else if s[i] == ']' {
      if depth == 1 {
        ps := [Piece(End, i)];
      } else {
        ps := ScannedIsBalanced(s, i + 1, depth - 1);
        ClosingFirst(s, i, Piece(End, i), ps, end);
        ps := [Piece(End, i)] + ps;
      }
    } else {
      ps := ScannedIsBalanced(s, i + 1, depth);
      ps := OntoFirst(s, i, i + 1, Plain(s[i], ps[0].text), ps, end);
    }
  }

  /** The first text, with a character or an escape before it. */
  lemma OntoFirst(s: string, i: nat, from: nat, t: Text, ps: seq<Piece>, end: nat) returns (r: seq<Piece>)
    requires Closing(s, from, ps, end)
    requires Closed(s, from, ps[0]) ==> Closed(s, i, Piece(t, ps[0].end))
    ensures |r| == |ps| && Closing(s, i, r, end)
  {
    ClosingRest(s, from, ps, end);
    var first := Piece(t, ps[0].end);
    ClosingFirst(s, i, first, ps[1..], end);
    r := [first] + ps[1..];
  }

  /** An opening bracket makes a group of the first text, and joins it to the second. */
  lemma GroupCloses(s: string, i: nat, ps: seq<Piece>, end: nat) returns (r: seq<Piece>)
    requires i < |s| && s[i] == '[' && |ps| >= 2 && Closing(s, i + 1, ps, end)
    ensures |r| == |ps| - 1 && Closing(s, i, r, end)
  {
    var inner, rest := ps[0], ps[1..];
    ClosingRest(s, i + 1, ps, end);
    ClosingRest(s, inner.end + 1, rest, end);
    GroupIsClosed(s, i, inner, rest[0]);
    r := OntoFirst(s, i, inner.end + 1, Group(inner.text, rest[0].text), rest, end);
  }

  lemma GroupIsClosed(s: string, i: nat, inner: Piece, rest: Piece)
    requires i < |s| && s[i] == '[' && Closed(s, i + 1, inner) && Closed(s, inner.end + 1, rest)
    ensures Closed(s, i, Piece(Group(inner.text, rest.text), rest.end))
  {}

  /**
   The label's end is found exactly where the text up to it is balanced, whatever the brackets in it mean
   to Markdown: those of a code span count like any other.
   */
  lemma LabelEndExactly(raw: string, kind: Kind, end: nat)
    requires Opens(raw, kind)
    ensures LabelEndSpec(raw) == Some(end) <==>
              end < |raw| && raw[end] == ']' &&
              exists name :: Balanced(name, SQUARE) && EndOfLabel(kind, name) == end && Reads(raw, LabelStart(kind), name, SQUARE)
  {
    LabelScanStarts(raw, kind);
    if LabelEndSpec(raw) == Some(end) {
      var ps := ScannedIsBalanced(raw, LabelStart(kind), 1);
      assert EndOfLabel(kind, ps[0].text) == end && Reads(raw, LabelStart(kind), ps[0].text, SQUARE);
    }
    forall name: Text | Balanced(name, SQUARE) && EndOfLabel(kind, name) == end && Reads(raw, LabelStart(kind), name, SQUARE)
      ensures end < |raw| && raw[end] == ']' ==> LabelEndSpec(raw) == Some(end)
    {
      LabelScanSkips(raw, LabelStart(kind), end, name, 1);
    }
  }

  /** The label ends, and the destination's scan begins at `h`. */
  predicate StartsAt(raw: string, kind: Kind, h: nat) {
    LabelEndSpec(raw).Some? && DestinationStart(raw, LabelEndSpec(raw).value, kind) == Ok(h)
  }

  /**
   A bracket in a code span at work: the destination of this link is its `x` at 7, but the scan takes the
   span's bracket for the label's end, finds a parenthesis after it and takes in all that follows.
   */
  lemma CodeSpanMisleads()
    ensures DestinationSpec("[`](`](x)", Link) == Ok(Range(4, 9))
  {
    var raw := "[`](`](x)";
    LabelIsSkipped(raw, Link, Plain('`', End));
    assert BareScan(raw, 4, 0) == BareScan(raw, 6, 0) == BareScan(raw, 8, 1) == 9;
  }

  /** A label, its separator and a gap stand before `h`. */
  predicate HeadedTo(raw: string, kind: Kind, name: Text, h: nat) {
    Labelled(raw, kind, name) && GapBetween(raw, EndOfLabel(kind, name) + 2, h)
  }

  /** A block quote's marker stands in the gap. */
  predicate Marked(raw: string, kind: Kind, name: Text, h: nat)
    requires HeadedTo(raw, kind, name, h)
  {
    MarkedBetween(raw, EndOfLabel(kind, name) + 2, h)
  }

  lemma HeadIsSkipped(raw: string, kind: Kind, name: Text, h: nat)
    requires HeadedTo(raw, kind, name, h) && !Marked(raw, kind, name, h)
    ensures StartsAt(raw, kind, SkipSpec(raw, h))
  {
    LabelIsSkipped(raw, kind, name);
    SkipSkips(raw, EndOfLabel(kind, name) + 2, h);
  }

  /** At a marker the scan takes itself to be at the destination. */
  lemma MarkerIsTaken(raw: string, kind: Kind, name: Text, h: nat)
    requires HeadedTo(raw, kind, name, h) && Marked(raw, kind, name, h)
    ensures DestinationSpec(raw, kind).Ok? && DestinationSpec(raw, kind).value.start < h
  {
    LabelIsSkipped(raw, kind, name);
    SkipStops(raw, EndOfLabel(kind, name) + 2, h);
  }

  /**
   A bare destination of section 6.3 at `h`: its text, which ends at `i`, perhaps a literal backslash, and then a blank, the
   end of a definition, or the parenthesis that closes a link or image, before which a backslash would be
   an escape. A link or image may have an empty one right before that parenthesis.
   */
  predicate BareAt(raw: string, h: nat, i: nat, t: Text, kind: Kind, backslash: bool) {
    var end := if backslash then i + 1 else i;
    && Balanced(t, ROUND) && Bare(t) && Spans(raw, h, i, t, ROUND)
    && end <= |raw| && (backslash ==> raw[i] == '\\')
    && (if end == |raw| then kind == Definition
        else IsBlank(raw[end]) || (raw[end] == ')' && kind != Definition && !backslash))
    && h < |raw| && raw[h] != '<' && (h == end ==> raw[h] == ')')
  }

  /** After the text of a destination the scan ends at once, unless a backslash makes it skip a blank. */
  lemma BareScanEnds(raw: string, i: nat, backslash: bool)
    requires (if backslash then i + 1 else i) <= |raw| && (backslash ==> raw[i] == '\\')
    requires i < |raw| && !backslash ==> IsBlank(raw[i]) || raw[i] == ')'
    ensures var end, found := if backslash then i + 1 else i, BareScan(raw, i, 0);
            if backslash && end < |raw| then found > end else found == end
  {}

  lemma BareScanExactly(raw: string, h: nat, i: nat, t: Text, kind: Kind, backslash: bool)
    requires BareAt(raw, h, i, t, kind, backslash)
    ensures var end, found := if backslash then i + 1 else i, BareScan(raw, h, 0);
            && (found == end <==> !Spaced(t) && !(backslash && end < |raw|))
            && (!Spaced(t) && backslash && end < |raw| ==> found > end)
  {
    BareScanEnds(raw, i, backslash);
    if Spaced(t) { BareScanStopsShort(raw, h, i, t); } else { BareScanSkips(raw, h, i, t, 0); }
  }

  /** The scan begins at the destination unless that begins with white space, which is skipped. */
  lemma BareBegins(raw: string, kind: Kind, h: nat)
    requires StartsAt(raw, kind, SkipSpec(raw, h)) && h < |raw|
    ensures if IsWhitespace(raw[h]) then DestinationSpec(raw, kind).Ok? ==> DestinationSpec(raw, kind).value.start > h
            else raw[h] != '<' ==> DestinationSpec(raw, kind) == Ok(Range(h, BareScan(raw, h, 0)))
  {}

  /**
   Bare destinations: whatever balanced label and gap come before one, the range is the destination exactly
   when no block quote's marker stands in the gap, no white space other than blanks stands in the destination
   outside every group, and it does not end in a backslash with a blank after it.
   */
  lemma BareDestinationIsFound(raw: string, kind: Kind, name: Text, h: nat, i: nat, t: Text, backslash: bool)
    requires HeadedTo(raw, kind, name, h)
    requires BareAt(raw, h, i, t, kind, backslash)
    ensures var end := if backslash then i + 1 else i;
            DestinationSpec(raw, kind) == Ok(Range(h, end)) <==>
              !Marked(raw, kind, name, h) && !Spaced(t) && !(backslash && end < |raw|)
  {
    if Marked(raw, kind, name, h) {
      MarkerIsTaken(raw, kind, name, h);
    } else {
      HeadIsSkipped(raw, kind, name, h);
      BareScanExactly(raw, h, i, t, kind, backslash);
      BareBegins(raw, kind, h);
    }
  }

  /**
   A backslash before a blank is no escape (section 2.4), so the destination ends there, but the scan skips
   the blank and takes in what follows.
   */
  lemma TrailingBackslashOverruns(raw: string, kind: Kind, name: Text, h: nat, i: nat, t: Text)
    requires HeadedTo(raw, kind, name, h) && !Marked(raw, kind, name, h)
    requires BareAt(raw, h, i, t, kind, true) && !Spaced(t) && i + 1 < |raw|
    ensures var r := DestinationSpec(raw, kind);
            r.Ok? && r.value.start == h && r.value.end > i + 1
  {
    HeadIsSkipped(raw, kind, name, h);
    BareScanExactly(raw, h, i, t, kind, true);
    BareBegins(raw, kind, h);
  }

  /**
   The failures at work: other white space stops the scan or is skipped, and a blank after a backslash does
   not stop it.
   */
  lemma BareDestinationsMissed()
    ensures DestinationSpec("[a](x\U{A0}y)", Link) == Ok(Range(4, 5))
    ensures DestinationSpec("[a](\U{A0}x)", Link) == Ok(Range(5, 6))
    ensures DestinationSpec("[a](x\\ \"t\")", Link) == Ok(Range(4, 10))
  {
    var stopped, skipped, overrun := "[a](x\U{A0}y)", "[a](\U{A0}x)", "[a](x\\ \"t\")";
    LinkAfterName(stopped);
    LinkAfterName(skipped);
    LinkAfterName(overrun);
    assert BareScan(overrun, 7, 0) == BareScan(overrun, 8, 0) == 10;
  }

  /** A destination on the next line of a block quote: the quote's marker is taken for it, in every form. */
  lemma QuotedDestinationsMissed()
    ensures DestinationSpec("[a](\n> x)", Link) == Ok(Range(5, 6))
    ensures DestinationSpec("[a](\n> <x>)", Link) == Ok(Range(5, 6))
    ensures DestinationSpec("[a]:\n> x", Definition) == Ok(Range(5, 6))
  {
    MarkerInQuote("[a](\n> x)", Link);
    MarkerInQuote("[a](\n> <x>)", Link);
    MarkerInQuote("[a]:\n> x", Definition);
  }

  lemma MarkerInQuote(raw: string, kind: Kind)
    requires |raw| > 7 && raw[0] == '[' && raw[1] == 'a' && raw[2] == ']' && raw[3] == Separator(kind) && kind != Image
    requires raw[4] == '\n' && raw[5] == '>' && raw[6] == ' '
    ensures DestinationSpec(raw, kind) == Ok(Range(5, 6))
  {
    LabelIsSkipped(raw, kind, Plain('a', End));
    assert IndexOf(raw, ':', 3) == if kind == Definition then Some(3) else IndexOf(raw, ':', 4);
    assert SkipSpec(raw, 4) == SkipSpec(raw, 5) == 5;
    assert BareScan(raw, 5, 0) == BareScan(raw, 6, 0) == 6;
  }

  lemma LinkAfterName(raw: string)
    requires |raw| > 4 && raw[0] == '[' && raw[1] == 'a' && raw[2] == ']' && raw[3] == '('
    ensures StartsAt(raw, Link, SkipSpec(raw, 4))
  {
    HeadIsSkipped(raw, Link, Plain('a', End), 4);
  }

  lemma AngleScanStops(raw: string, i: nat)
    requires i < |raw| && raw[i] == '>'
    ensures AngleScan(raw, i) == Some(i)
  {}

  /** The destination's text stands between the angle brackets at `h` and `j`. */
  predicate InAngles(raw: string, h: nat, j: nat, t: Text) {
    h < j < |raw| && raw[h] == '<' && raw[j] == '>' && Flat(t) && Balanced(t, ANGLE) && Spans(raw, h + 1, j, t, ANGLE)
  }

  /**
   An angle-bracketed destination: the range is exactly what stands between the brackets, blanks included,
   unless a block quote's marker stands in the gap.
   */
  lemma AngleDestinationIsFound(raw: string, kind: Kind, name: Text, h: nat, j: nat, t: Text)
    requires HeadedTo(raw, kind, name, h)
    requires InAngles(raw, h, j, t)
    ensures DestinationSpec(raw, kind) == Ok(Range(h + 1, j)) <==> !Marked(raw, kind, name, h)
  {
    if Marked(raw, kind, name, h) {
      MarkerIsTaken(raw, kind, name, h);
    } else {
      HeadIsSkipped(raw, kind, name, h);
      AngleScanSkips(raw, h + 1, j, t);
      AngleScanStops(raw, j);
    }
  }
}
