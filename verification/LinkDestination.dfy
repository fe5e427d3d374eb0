/**
 Finding the destination inside the raw source of a Markdown link, image or definition, as
 scripts/project-doc-site.ts does (lines 75-142).
 */
module LinkDestination {
  import opened Prelude

  datatype Kind = Link | Image | Definition

  datatype Range = Range(start: nat, end: nat)

  datatype Failure = NoLabelEnd | NoSeparator | NoInlineDestination | NoAngleEnd

  function IndexOf(s: string, c: char, from: nat): (r: Option<nat>)
    ensures r.Some? ==> from <= r.value < |s| && s[r.value] == c
    decreases |s| - from
  {
    if from >= |s| then None else if s[from] == c then Some(from) else IndexOf(s, c, from + 1)
  }

  /** The loop of `labelEnd`, from an index and a bracket depth. */
  function LabelScan(s: string, i: nat, depth: int): (r: Option<nat>)
    ensures r.Some? ==> i <= r.value < |s|
    decreases |s| - i
  {
    if i >= |s| then None
    else if s[i] == '\\' then LabelScan(s, i + 2, depth)
    else if s[i] == '[' then LabelScan(s, i + 1, depth + 1)
    else if s[i] == ']' then if depth == 1 then Some(i) else LabelScan(s, i + 1, depth - 1)
    else LabelScan(s, i + 1, depth)
  }

  function LabelEndSpec(s: string): (r: Option<nat>)
    ensures r.Some? ==> r.value < |s|
  {
    match IndexOf(s, '[', 0)
    case None => None
    case Some(first) => LabelScan(s, first, 0)
  }

  function SkipSpec(s: string, i: nat): (r: nat)
    ensures i <= r && (i <= |s| ==> r <= |s|)
    decreases |s| - i
  {
    if i < |s| && IsWhitespace(s[i]) then SkipSpec(s, i + 1) else i
  }

  function AngleScan(s: string, i: nat): (r: Option<nat>)
    ensures r.Some? ==> i <= r.value < |s|
    decreases |s| - i
  {
    if i >= |s| then None
    else if s[i] == '\\' then AngleScan(s, i + 2)
    else if s[i] == '>' then Some(i)
    else AngleScan(s, i + 1)
  }

  /** The loop over a bare destination: it ends at a blank or an unmatched parenthesis outside any group. */
  function BareScan(s: string, i: nat, depth: nat): (r: nat)
    ensures r <= |s| && (i <= |s| ==> i <= r)
    decreases |s| - i
  {
    if i >= |s| then |s|
    else if s[i] == '\\' then BareScan(s, i + 2, depth)
    else if s[i] == '(' then BareScan(s, i + 1, depth + 1)
    else if s[i] == ')' then if depth == 0 then i else BareScan(s, i + 1, depth - 1)
    else if IsWhitespace(s[i]) && depth == 0 then i
    else BareScan(s, i + 1, depth)
  }

  function DestinationStart(raw: string, endOfLabel: nat, kind: Kind): Result<nat, Failure> {
    if kind == Definition then
      match IndexOf(raw, ':', endOfLabel + 1)
      case None => Err(NoSeparator)
      case Some(colon) => Ok(SkipSpec(raw, colon + 1))
    else if endOfLabel + 1 >= |raw| || raw[endOfLabel + 1] != '(' then Err(NoInlineDestination)
    else Ok(SkipSpec(raw, endOfLabel + 2))
  }

  function DestinationSpec(raw: string, kind: Kind): Result<Range, Failure> {
    match LabelEndSpec(raw)
    case None => Err(NoLabelEnd)
    case Some(endOfLabel) =>
      match DestinationStart(raw, endOfLabel, kind)
      case Err(e) => Err(e)
      case Ok(start) =>
        if start < |raw| && raw[start] == '<' then
          (match AngleScan(raw, start + 1)
           case None => Err(NoAngleEnd)
           case Some(end) => Ok(Range(start + 1, end)))
        else Ok(Range(start, BareScan(raw, start, 0)))
  }

  method LabelEnd(source: string) returns (r: Option<nat>)
    ensures r == LabelEndSpec(source)
  {
    var first := IndexOf(source, '[', 0);
    if first.None? { return None; }
    var depth, index := 0, first.value;
    while index < |source|
      invariant LabelEndSpec(source) == LabelScan(source, index, depth)
      decreases |source| - index
    {
      var c := source[index];
      if c == '\\' {
        index := index + 1;
      } else if c == '[' {
        depth := depth + 1;
      } else if c == ']' {
        depth := depth - 1;
        if depth == 0 { return Some(index); }
      }
      index := index + 1;
    }
    r := None;
  }

  method SkipWhitespace(source: string, start: nat) returns (index: nat)
    ensures index == SkipSpec(source, start)
  {
    index := start;
    while index < |source| && IsWhitespace(source[index])
      invariant SkipSpec(source, start) == SkipSpec(source, index)
    {
      index := index + 1;
    }
  }

  /** The loop over an angle-bracketed destination. */
  method AngleEnd(raw: string, start: nat) returns (r: Option<nat>)
    ensures r == AngleScan(raw, start)
  {
    var index := start;
    while index < |raw|
      invariant AngleScan(raw, start) == AngleScan(raw, index)
      decreases |raw| - index
    {
      if raw[index] == '\\' {
        index := index + 1;
      } else if raw[index] == '>' {
        return Some(index);
      }
      index := index + 1;
    }
    r := None;
  }

  /** The loop over a bare destination. */
  method BareEnd(raw: string, start: nat) returns (end: nat)
    ensures end == BareScan(raw, start, 0)
  {
    var depth: nat, index: nat := 0, start;
    while index < |raw|
      invariant BareScan(raw, start, 0) == BareScan(raw, index, depth)
      decreases |raw| - index
    {
      var c := raw[index];
      if c == '\\' {
        index := index + 1;
      } else if c == '(' {
        depth := depth + 1;
      } else if c == ')' {
        if depth == 0 { return index; }
        depth := depth - 1;
      } else if IsWhitespace(c) && depth == 0 {
        return index;
      }
      index := index + 1;
    }
    end := |raw|;
  }

  method Start(raw: string, endOfLabel: nat, kind: Kind) returns (r: Result<nat, Failure>)
    ensures r == DestinationStart(raw, endOfLabel, kind)
  {
    var start: nat;
    if kind == Definition {
      var colon := IndexOf(raw, ':', endOfLabel + 1);
      if colon.None? { return Err(NoSeparator); }
      start := SkipWhitespace(raw, colon.value + 1);
    } else {
      if endOfLabel + 1 >= |raw| || raw[endOfLabel + 1] != '(' { return Err(NoInlineDestination); }
      start := SkipWhitespace(raw, endOfLabel + 2);
    }
    r := Ok(start);
  }

  method DestinationRange(raw: string, kind: Kind) returns (r: Result<Range, Failure>)
    ensures r == DestinationSpec(raw, kind)
  {
    var endOfLabel := LabelEnd(raw);
    if endOfLabel.None? { return Err(NoLabelEnd); }
    var start := Start(raw, endOfLabel.value, kind);
    if start.Err? { return Err(start.error); }
    if start.value < |raw| && raw[start.value] == '<' {
      var end := AngleEnd(raw, start.value + 1);
      if end.None? { return Err(NoAngleEnd); }
      return Ok(Range(start.value + 1, end.value));
    }
    var end := BareEnd(raw, start.value);
    r := Ok(Range(start.value, end));
  }
}
