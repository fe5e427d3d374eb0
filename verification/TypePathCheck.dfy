/**
 The schema-path check as scripts/gen-config-catalog.ts runs it: key paths parsed in loops
 (lines 232-245), and a recursive walk whose branches share one mutable `seen` set (lines 317-403).
 */
module KeyPath {
  import opened TypeSyntax

  /** One dotted segment: a member name and the number of `[]` hops after it. */
  datatype Segment = Segment(name: string, hops: nat)

  predicate EndsWithHop(s: string) {
    |s| >= 2 && s[|s| - 2..] == "[]"
  }

  /** Segments a parse produces: no dot inside a name, and no trailing hop left on it. */
  predicate Parsed(s: Segment) {
    '.' !in s.name && !EndsWithHop(s.name)
  }

  function Hops(n: nat): string {
    if n == 0 then "" else Hops(n - 1) + "[]"
  }

  function Spelled(s: Segment): string {
    s.name + Hops(s.hops)
  }

  function Join(pieces: seq<string>): string
    requires |pieces| > 0
  {
    if |pieces| == 1 then pieces[0]
    else Join(pieces[..|pieces| - 1]) + "." + pieces[|pieces| - 1]
  }

  /** `path.split('.')`: the pieces between the dots, at least one. */
  function Split(path: string): (r: seq<string>)
    ensures |r| > 0
  {
    if path == "" then [""]
    else
      var rest := Split(path[..|path| - 1]);
      if path[|path| - 1] == '.' then rest + [""]
      else rest[..|rest| - 1] + [rest[|rest| - 1] + [path[|path| - 1]]]
  }

  /** Peel the `[]` suffixes off one piece. */
  function Peel(piece: string): Segment
    decreases |piece|
  {
    if EndsWithHop(piece) then
      var s := Peel(piece[..|piece| - 2]);
      Segment(s.name, s.hops + 1)
    else Segment(piece, 0)
  }

  function PeelAll(pieces: seq<string>): (r: seq<Segment>)
    ensures |r| == |pieces| && forall i :: 0 <= i < |r| ==> r[i] == Peel(pieces[i])
  {
    if pieces == [] then [] else PeelAll(pieces[..|pieces| - 1]) + [Peel(pieces[|pieces| - 1])]
  }

  function SpellAll(segs: seq<Segment>): (r: seq<string>)
    ensures |r| == |segs| && forall i :: 0 <= i < |r| ==> r[i] == Spelled(segs[i])
  {
    if segs == [] then [] else SpellAll(segs[..|segs| - 1]) + [Spelled(segs[|segs| - 1])]
  }

  /** A key path as the schema walk writes it, from its segments. */
  function Render(segs: seq<Segment>): string
    requires |segs| > 0
  {
    Join(SpellAll(segs))
  }

  function Parse(path: string): seq<Segment> {
    PeelAll(Split(path))
  }

  function ElementSteps(n: nat): seq<Step> {
    if n == 0 then [] else ElementSteps(n - 1) + [Element]
  }

  /** The steps a list of segments stands for. */
  function Steps(segs: seq<Segment>): seq<Step> {
    if segs == [] then []
    else
      var last := segs[|segs| - 1];
      Steps(segs[..|segs| - 1]) + [Member(last.name)] + ElementSteps(last.hops)
  }

  lemma {:induction false} SplitAfterDot(path: string, piece: string)
    requires '.' !in piece
    ensures Split(path + "." + piece) == Split(path) + [piece]
  {
    if piece == "" {
      assert (path + "." + piece)[..|path|] == path;
    } else {
      var init := piece[..|piece| - 1];
      SplitAfterDot(path, init);
      assert (path + "." + piece)[..|path| + |piece|] == path + "." + init;
      assert piece == init + [piece[|piece| - 1]];
    }
  }

  lemma {:induction false} SplitPiece(piece: string)
    requires '.' !in piece
    ensures Split(piece) == [piece]
  {
    if piece != "" {
      SplitPiece(piece[..|piece| - 1]);
      assert piece == piece[..|piece| - 1] + [piece[|piece| - 1]];
    }
  }

  lemma {:induction false} SplitJoin(pieces: seq<string>)
    requires |pieces| > 0 && forall p :: p in pieces ==> '.' !in p
    ensures Split(Join(pieces)) == pieces
  {
    if |pieces| == 1 {
      SplitPiece(pieces[0]);
    } else {
      SplitJoin(pieces[..|pieces| - 1]);
      SplitAfterDot(Join(pieces[..|pieces| - 1]), pieces[|pieces| - 1]);
    }
  }

  lemma {:induction false} JoinSplit(path: string)
    ensures Join(Split(path)) == path
    ensures forall p :: p in Split(path) ==> '.' !in p
  {
    if path != "" {
      var init, c := path[..|path| - 1], path[|path| - 1];
      JoinSplit(init);
      var rest := Split(init);
      assert path == init + [c];
      if c == '.' {
        assert (rest + [""])[..|rest|] == rest;
        assert init + "." + "" == path;
      } else {
        var pieces := rest[..|rest| - 1] + [rest[|rest| - 1] + [c]];
        assert pieces[..|pieces| - 1] == rest[..|rest| - 1];
        if |rest| > 1 {
          assert Join(pieces) == Join(rest[..|rest| - 1]) + "." + (rest[|rest| - 1] + [c]) == Join(rest) + [c];
        }
      }
    }
  }

  lemma {:induction false} PeelSpelled(s: Segment)
    requires !EndsWithHop(s.name)
    ensures Peel(Spelled(s)) == s
    decreases s.hops
  {
    if s.hops == 0 {
      assert Spelled(s) == s.name;
    } else {
      var t := Segment(s.name, s.hops - 1);
      PeelSpelled(t);
      assert Spelled(s) == Spelled(t) + "[]";
      assert Spelled(s)[..|Spelled(s)| - 2] == Spelled(t);
    }
  }

  lemma {:induction false} SpelledPeel(piece: string)
    ensures Spelled(Peel(piece)) == piece && !EndsWithHop(Peel(piece).name)
    ensures '.' !in piece ==> '.' !in Peel(piece).name
    decreases |piece|
  {
    if EndsWithHop(piece) {
      SpelledPeel(piece[..|piece| - 2]);
      assert piece == piece[..|piece| - 2] + "[]";
    }
  }

  lemma {:induction false} NoDotInHops(n: nat)
    ensures '.' !in Hops(n)
  {
    if n > 0 { NoDotInHops(n - 1); }
  }

  /** Parsing undoes rendering on every list of segments a path can denote. */
  lemma ParseRender(segs: seq<Segment>)
    requires |segs| > 0 && forall s :: s in segs ==> Parsed(s)
    ensures Parse(Render(segs)) == segs
  {
    var pieces := SpellAll(segs);
    forall i | 0 <= i < |segs| ensures '.' !in pieces[i] && Peel(pieces[i]) == segs[i] {
      assert Parsed(segs[i]);
      NoDotInHops(segs[i].hops);
      PeelSpelled(segs[i]);
    }
    SplitJoin(pieces);
  }

  /** Rendering undoes parsing on every string, so no two key paths parse alike. */
  lemma RenderParse(path: string)
    ensures |Parse(path)| > 0 && Render(Parse(path)) == path
    ensures forall s :: s in Parse(path) ==> Parsed(s)
  {
    JoinSplit(path);
    SpellPeelAll(Split(path));
  }

  lemma {:induction false} SpellPeelAll(pieces: seq<string>)
    requires forall p :: p in pieces ==> '.' !in p
    ensures SpellAll(PeelAll(pieces)) == pieces
    ensures forall s :: s in PeelAll(pieces) ==> Parsed(s)
  {
    if pieces != [] {
      SpellPeelAll(pieces[..|pieces| - 1]);
      SpelledPeel(pieces[|pieces| - 1]);
    }
  }

  /** Steps determine their segments: with `RenderParse`, no two key paths ask the same question of a type. */
  lemma {:induction false} StepsInjective(a: seq<Segment>, b: seq<Segment>)
    requires Steps(a) == Steps(b)
    ensures a == b
    decreases |a|
  {
    if a != [] { LastMember(Steps(a[..|a| - 1]), a[|a| - 1]); }
    if b != [] { LastMember(Steps(b[..|b| - 1]), b[|b| - 1]); }
    if a != [] && b != [] {
      var s, p, q := Steps(a), |Steps(a[..|a| - 1])|, |Steps(b[..|b| - 1])|;
      assert s[p].Member? && s[q].Member?;
      assert p == q;
      StepsInjective(a[..|a| - 1], b[..|b| - 1]);
    }
  }

  lemma {:induction false} LastMember(before: seq<Step>, last: Segment)
    ensures |ElementSteps(last.hops)| == last.hops
    ensures var s := before + [Member(last.name)] + ElementSteps(last.hops);
            && |s| == |before| + 1 + last.hops
            && s[|before|] == Member(last.name)
            && s[..|before|] == before
            && forall i :: |before| < i < |s| ==> s[i] == Element
    decreases last.hops
  {
    if last.hops > 0 {
      LastMember(before, Segment(last.name, last.hops - 1));
      var s := before + [Member(last.name)] + ElementSteps(last.hops - 1);
      assert before + [Member(last.name)] + ElementSteps(last.hops) == s + [Element];
    }
  }

  /** Segment by segment: the member, then an element for each array hop behind it. */
  lemma StepsExactly(segs: seq<Segment>, last: Segment)
    ensures Steps([]) == []
    ensures Steps(segs + [last]) == Steps(segs) + [Member(last.name)] + seq(last.hops, _ => Element)
  {
    assert (segs + [last])[..|segs|] == segs;
    LastMember(Steps(segs), last);
    var s := Steps(segs) + [Member(last.name)] + ElementSteps(last.hops);
    assert s == Steps(segs) + [Member(last.name)] + seq(last.hops, _ => Element);
  }

  /** One piece of the path: peel its array hops off the end, counting them. */
  method PeelPiece(piece: string) returns (name: string, arrays: nat)
    ensures Segment(name, arrays) == Peel(piece)
  {
    name, arrays := piece, 0;
    while EndsWithHop(name)
      invariant Peel(piece) == Segment(Peel(name).name, Peel(name).hops + arrays)
      decreases |name|
    {
      name := name[..|name| - 2];
      arrays := arrays + 1;
    }
  }

  lemma StepsOfNext(pieces: seq<string>, k: nat)
    requires k < |pieces|
    ensures var segment := Peel(pieces[k]);
            Steps(PeelAll(pieces[..k + 1])) == Steps(PeelAll(pieces[..k])) + [Member(segment.name)] + ElementSteps(segment.hops)
  {
    var before := PeelAll(pieces[..k]);
    assert pieces[..k + 1][..k] == pieces[..k];
    assert PeelAll(pieces[..k + 1]) == before + [Peel(pieces[k])];
    assert (before + [Peel(pieces[k])])[..k] == before;
  }

  method ParsePath(path: string) returns (steps: seq<Step>)
    ensures steps == Steps(Parse(path))
  {
    steps := [];
    var pieces := Split(path);
    for k := 0 to |pieces|
      invariant steps == Steps(PeelAll(pieces[..k]))
    {
      var name, arrays := PeelPiece(pieces[k]);
      ghost var before := steps;
      steps := steps + [Member(name)];
      for i := 0 to arrays
        invariant steps == before + [Member(name)] + ElementSteps(i)
      {
        steps := steps + [Element];
      }
      StepsOfNext(pieces, k);
    }
    assert pieces[..|pieces|] == pieces;
  }
}

module LookupPathMethod {
  import opened Prelude
  import opened TypeSyntax
  import opened TypeLookup

  /** The one `seen` set every recursive call adds to and none removes from. */
  class SeenKeys {
    var keys: set<Key>

    constructor ()
      ensures keys == {}
    {
      keys := {};
    }
  }

  /** `None` is the call-stack exception. */
  predicate Reports(r: Option<PathLookup>, keys: set<Key>, o: Outcome) {
    match o
    case Answer(result, seen) => r == Some(result) && keys == seen
    case Overflow => r == None
  }

  function Prepend(before: seq<PathLookup>, o: Outcomes): Outcomes {
    match o
    case Answers(rs, seen) => Answers(before + rs, seen)
    case Overflows => Overflows
  }

  method LookupPath(w: World, f: File, n: Node, steps: seq<Step>, seen: SeenKeys, stack: nat) returns (r: Option<PathLookup>)
    modifies seen
    ensures Reports(r, seen.keys, Lookup(w, f, n, steps, old(seen.keys), stack))
    decreases stack, 0
  {
    if stack == 0 { return None; }
    if steps == [] { return Some(Found); }
    match n
    case Declared(id) =>
      if id !in w.decls || w.decls[id].form.Enum? || (id, |steps|) in seen.keys { return Some(Unknown); }
      seen.keys := seen.keys + {(id, |steps|)};
      r := LookupDeclPath(w, w.decls[id], steps, seen, stack);
    case Literal(ms) =>
      if steps[0].Element? { return Some(Unknown); }
      match FirstProperty(ms, steps[0].name) {
        case Some(t) => r := LookupPath(w, f, t, steps[1..], seen, stack - 1);
        case None => r := Some(Missing);
      }
    case Paren(inner) => r := LookupPath(w, f, inner, steps, seen, stack - 1);
    case Intersection(ts) =>
      var rs := LookupParts(w, f, ts, steps, seen, stack - 1);
      r := if rs.Some? then Some(Combine(rs.value)) else None;
    case Union(ts) =>
      var rs := LookupParts(w, f, ts, steps, seen, stack - 1);
      r := if rs.Some? then Some(Agree(rs.value)) else None;
    case ArrayOf(e) =>
      if steps[0].Element? { r := LookupPath(w, f, e, steps[1..], seen, stack - 1); } else { r := Some(Unknown); }
    case Operator(_, t) => r := LookupPath(w, f, t, steps, seen, stack - 1);
    case IndexedAccess(obj, index) =>
      if index.Some? {
        r := LookupPath(w, f, obj, [Member(index.value)] + steps, seen, stack - 1);
      } else {
        r := Some(Unknown);
      }
    case Ref(head, qualified, args) =>
      if head in PASSTHROUGH_WRAPPERS && args != [] {
        r := LookupPath(w, f, args[0], steps, seen, stack - 1);
      } else if head in ARRAY_NAMES && args != [] {
        if steps[0].Element? {
          r := LookupPath(w, f, args[0], steps[1..], seen, stack - 1);
        } else {
          r := Some(Unknown);
        }
      } else if qualified {
        r := Some(Unknown);
      } else {
        r := LookupPath(w, f, w.Target(f, head), steps, seen, stack - 1);
      }
    case Opaque => r := Some(Unknown);
  }

  method LookupDeclPath(w: World, d: Decl, steps: seq<Step>, seen: SeenKeys, stack: nat) returns (r: Option<PathLookup>)
    requires steps != [] && stack > 0 && !d.form.Enum?
    modifies seen
    ensures Reports(r, seen.keys, LookupDecl(w, d, steps, old(seen.keys), stack))
    decreases stack - 1, 3
  {
    match d.form
    case Interface(ms, bases, _) =>
      if steps[0].Element? { return Some(Unknown); }
      match FirstProperty(ms, steps[0].name) {
        case Some(t) => r := LookupPath(w, d.file, t, steps[1..], seen, stack - 1);
        case None =>
          var rs := LookupParts(w, d.file, w.BaseNodes(d.file, bases), steps, seen, stack - 1);
          r := if rs.Some? then Some(Combine(rs.value)) else None;
      }
    case Alias(body) => r := LookupPath(w, d.file, body, steps, seen, stack - 1);
  }

  method LookupParts(w: World, f: File, ts: seq<Node>, steps: seq<Step>, seen: SeenKeys, stack: nat)
    returns (r: Option<seq<PathLookup>>)
    modifies seen
    ensures match LookupEach(w, f, ts, steps, old(seen.keys), stack)
            case Answers(rs, keys) => r == Some(rs) && seen.keys == keys
            case Overflows => r == None
    decreases stack, 1
  {
    var results: seq<PathLookup> := [];
    assert ts[0..] == ts && forall o :: Prepend([], o) == o;
    ghost var whole := LookupEach(w, f, ts, steps, seen.keys, stack);
    for i := 0 to |ts|
      invariant whole == Prepend(results, LookupEach(w, f, ts[i..], steps, seen.keys, stack))
    {
      assert ts[i..][0] == ts[i] && ts[i..][1..] == ts[i + 1..];
      ghost var rest := LookupEach(w, f, ts[i..], steps, seen.keys, stack);
      var one := LookupPath(w, f, ts[i], steps, seen, stack);
      if one == None { return None; }
      ghost var tail := LookupEach(w, f, ts[i + 1..], steps, seen.keys, stack);
      assert tail.Answers? ==> results + ([one.value] + tail.results) == (results + [one.value]) + tail.results;
      results := results + [one.value];
    }
    assert ts[|ts|..] == [] && results + [] == results;
    r := Some(results);
  }
}
