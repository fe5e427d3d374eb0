/**
 Rewriting the links of a Markdown page in scripts/project-doc-site.ts (lines 241-286): the
 destinations of a tree of nested nodes are collected, then spliced in from right to left.
 */
module DocProjection {
  import opened Prelude
  import opened LinkDestination
  import opened MarkdownForms

  /** A link, image or definition with its label's text; `next` is the new target, or `None` when it is left alone. */
  datatype Anchor = Anchor(kind: Kind, name: Text, next: Option<string>)

  /** A syntax node with its source offsets. */
  datatype Node = Node(start: nat, end: nat, anchor: Option<Anchor>, children: seq<Node>)
  {
    predicate Rewritten() {
      anchor.Some? && anchor.value.next.Some?
    }
  }

  datatype Replacement = Replacement(start: nat, end: nat, value: string)

  function Rewrite(source: string, n: Node): Result<seq<Replacement>, Failure>
    requires n.start <= n.end <= |source|
  {
    if !n.Rewritten() then Ok([])
    else
      match DestinationSpec(source[n.start..n.end], n.anchor.value.kind)
      case Err(e) => Err(e)
      case Ok(range) => Ok([Replacement(n.start + range.start, n.start + range.end, n.anchor.value.next.value)])
  }

  /** `visit`: the node's own replacement, then its children's, in order. */
  function Collect(source: string, n: Node): Result<seq<Replacement>, Failure>
    requires WellPlaced(source, n)
    decreases n, 1
  {
    match Rewrite(source, n)
    case Err(e) => Err(e)
    case Ok(own) =>
      match CollectAll(source, n.children, n.start, InnerEnd(n))
      case Err(e) => Err(e)
      case Ok(inner) => Ok(own + inner)
  }

  function CollectAll(source: string, ns: seq<Node>, lo: nat, hi: nat): Result<seq<Replacement>, Failure>
    requires InOrder(source, ns, lo, hi)
    decreases ns, 0
  {
    if ns == [] then Ok([])
    else
      match Collect(source, ns[0])
      case Err(e) => Err(e)
      case Ok(first) =>
        match CollectAll(source, ns[1..], ns[0].end, hi)
        case Err(e) => Err(e)
        case Ok(rest) => Ok(first + rest)
  }

  /** Children lie inside their parent; those of a link or image that is rewritten lie inside its label. */
  function InnerEnd(n: Node): nat {
    if n.Rewritten() then n.start + EndOfLabel(n.anchor.value.kind, n.anchor.value.name) else n.end
  }

  /** Siblings follow one another between `lo` and `hi`. */
  predicate InOrder(source: string, ns: seq<Node>, lo: nat, hi: nat)
    decreases ns, 0
  {
    if ns == [] then lo <= hi
    else lo <= ns[0].start && WellPlaced(source, ns[0]) && ns[0].end <= hi && InOrder(source, ns[1..], ns[0].end, hi)
  }

  predicate WellPlaced(source: string, n: Node)
    decreases n, 1
  {
    && n.start <= n.end <= |source|
    && (n.Rewritten() ==> Labelled(source[n.start..n.end], n.anchor.value.kind, n.anchor.value.name))
    && InOrder(source, n.children, n.start, InnerEnd(n))
  }

  predicate Apart(a: Replacement, b: Replacement) {
    a.end < b.start || b.end < a.start
  }

  /** Replacements strictly after `lo`, at most to `hi`, no two of them touching. */
  ghost predicate Separate(rs: seq<Replacement>, lo: nat, hi: nat) {
    && (forall i :: 0 <= i < |rs| ==> lo < rs[i].start <= rs[i].end <= hi)
    && (forall i, j :: 0 <= i < j < |rs| ==> Apart(rs[i], rs[j]))
  }

  lemma SeparateJoin(a: seq<Replacement>, b: seq<Replacement>, lo: nat, mid: nat, hi: nat)
    requires Separate(a, lo, mid) && Separate(b, mid, hi) && lo <= mid <= hi
    ensures Separate(a + b, lo, hi) && Separate(b + a, lo, hi)
  {}

  lemma DestinationIsInside(raw: string, kind: Kind)
    ensures match DestinationSpec(raw, kind)
            case Ok(range) => LabelEndSpec(raw).Some? && LabelEndSpec(raw).value < range.start <= range.end <= |raw|
            case Err(_) => true
  {}

  /** Nested links and images never claim overlapping text: the destinations of one node and of all nodes in its label are apart. */
  lemma {:induction false} CollectedAreSeparate(source: string, n: Node)
    requires WellPlaced(source, n)
    ensures match Collect(source, n)
            case Ok(rs) => Separate(rs, n.start, n.end) || rs == []
            case Err(_) => true
    decreases n, 1
  {
    var own, hi := Rewrite(source, n), InnerEnd(n);
    if n.Rewritten() {
      LabelIsSkipped(source[n.start..n.end], n.anchor.value.kind, n.anchor.value.name);
      DestinationIsInside(source[n.start..n.end], n.anchor.value.kind);
    }
    AllCollectedAreSeparate(source, n.children, n.start, hi);
    InOrderBounds(source, n.children, n.start, hi);
    var inner := CollectAll(source, n.children, n.start, hi);
    if own.Ok? && inner.Ok? {
      if own.value != [] {
        assert Separate(own.value, hi, n.end);
        SeparateJoin(inner.value, own.value, n.start, hi, n.end);
      }
      assert [] + inner.value == inner.value;
    }
  }

  lemma {:induction false} InOrderBounds(source: string, ns: seq<Node>, lo: nat, hi: nat)
    requires InOrder(source, ns, lo, hi)
    ensures lo <= hi
    decreases |ns|
  {
    if ns != [] { InOrderBounds(source, ns[1..], ns[0].end, hi); }
  }

  lemma {:induction false} AllCollectedAreSeparate(source: string, ns: seq<Node>, lo: nat, hi: nat)
    requires InOrder(source, ns, lo, hi)
    ensures match CollectAll(source, ns, lo, hi)
            case Ok(rs) => Separate(rs, lo, hi)
            case Err(_) => true
    decreases ns, 0
  {
    if ns != [] {
      CollectedAreSeparate(source, ns[0]);
      AllCollectedAreSeparate(source, ns[1..], ns[0].end, hi);
      InOrderBounds(source, ns[1..], ns[0].end, hi);
      var first, rest := Collect(source, ns[0]), CollectAll(source, ns[1..], ns[0].end, hi);
      if first.Ok? && rest.Ok? {
        SeparateJoin(first.value, rest.value, lo, ns[0].end, hi);
      }
    }
  }

  /** The node is the root of the tree, or in the tree of a child. */
  ghost predicate InTree(root: Node, n: Node) {
    n == root || exists child :: child in root.children && InTree(child, n)
  }

  /** The node is rewritten and its destination found: the replacement puts the new target there. */
  ghost predicate Located(source: string, n: Node, r: Replacement) {
    && n.Rewritten() && n.start <= n.end <= |source|
    && var range := DestinationSpec(source[n.start..n.end], n.anchor.value.kind);
       range.Ok? && r == Replacement(n.start + range.value.start, n.start + range.value.end, n.anchor.value.next.value)
  }

  /** The node is to be rewritten and its destination cannot be found. */
  ghost predicate Lost(source: string, n: Node, e: Failure) {
    && n.Rewritten() && n.start <= n.end <= |source|
    && DestinationSpec(source[n.start..n.end], n.anchor.value.kind) == Err(e)
  }

  /** The replacements are those of the rewritten nodes among `nodes`, and no others; none of these is lost. */
  ghost predicate Covers(source: string, nodes: iset<Node>, rs: seq<Replacement>) {
    && (forall n :: n in nodes && n.Rewritten() ==> exists r :: r in rs && Located(source, n, r))
    && (forall r :: r in rs ==> exists n :: n in nodes && Located(source, n, r))
  }

  /** A node among `nodes` is lost for that reason, and none is that starts before it. */
  ghost predicate FirstLost(source: string, nodes: iset<Node>, e: Failure) {
    exists n :: n in nodes && Lost(source, n, e) && forall m, other :: m in nodes && Lost(source, m, other) ==> n.start <= m.start
  }

  ghost function Nodes(root: Node): iset<Node> {
    iset n | InTree(root, n)
  }

  ghost function AllNodes(roots: seq<Node>): iset<Node> {
    iset root, n | root in roots && InTree(root, n) :: n
  }

  /**
   What `visit` collects, without its order: one replacement for each rewritten node of the tree, and no others,
   or the failure of the first node, by its start, whose destination cannot be located.
   */
  lemma {:induction false} CollectsExactly(source: string, n: Node)
    requires WellPlaced(source, n)
    ensures match Collect(source, n)
            case Ok(rs) => Covers(source, Nodes(n), rs)
            case Err(e) => FirstLost(source, Nodes(n), e)
    decreases n, 1
  {
    var own, all := Rewrite(source, n), CollectAll(source, n.children, n.start, InnerEnd(n));
    CollectsAllExactly(source, n.children, n.start, InnerEnd(n));
    TreeUnfolds(n);
    StartsWithin(source, n);
    if own.Err? {
      assert Lost(source, n, own.error);
    } else {
      OwnIsCovered(source, n);
      if all.Ok? { CoversBoth(source, iset{n}, AllNodes(n.children), own.value, all.value); }
      else { assert forall other :: !Lost(source, n, other); }
    }
  }

  lemma TreeUnfolds(root: Node)
    ensures Nodes(root) == iset{root} + AllNodes(root.children)
  {
    forall n ensures n in Nodes(root) <==> n in iset{root} + AllNodes(root.children) {
      if n in Nodes(root) && n != root {
        var child :| child in root.children && InTree(child, n);
      }
    }
  }

  lemma OwnIsCovered(source: string, n: Node)
    requires n.start <= n.end <= |source| && Rewrite(source, n).Ok?
    ensures Covers(source, iset{n}, Rewrite(source, n).value)
  {
    if n.Rewritten() { assert Located(source, n, Rewrite(source, n).value[0]); }
  }

  lemma CoversBoth(source: string, a: iset<Node>, b: iset<Node>, rs: seq<Replacement>, ss: seq<Replacement>)
    requires Covers(source, a, rs) && Covers(source, b, ss)
    ensures Covers(source, a + b, rs + ss)
  {
    forall n | n in a + b && n.Rewritten() ensures exists r :: r in rs + ss && Located(source, n, r) {
      var r :| (r in rs || r in ss) && Located(source, n, r);
      assert r in rs + ss;
    }
  }

  lemma {:induction false} CollectsAllExactly(source: string, ns: seq<Node>, lo: nat, hi: nat)
    requires InOrder(source, ns, lo, hi)
    ensures match CollectAll(source, ns, lo, hi)
            case Ok(rs) => Covers(source, AllNodes(ns), rs)
            case Err(e) => FirstLost(source, AllNodes(ns), e)
    decreases ns, 0
  {
    if ns != [] {
      CollectsExactly(source, ns[0]);
      CollectsAllExactly(source, ns[1..], ns[0].end, hi);
      var first, rest := Collect(source, ns[0]), CollectAll(source, ns[1..], ns[0].end, hi);
      assert AllNodes(ns) == Nodes(ns[0]) + AllNodes(ns[1..]) by { assert ns == [ns[0]] + ns[1..]; }
      StartsWithin(source, ns[0]);
      AllStartWithin(source, ns[1..], ns[0].end, hi);
      if first.Ok? && rest.Ok? { CoversBoth(source, Nodes(ns[0]), AllNodes(ns[1..]), first.value, rest.value); }
    }
  }

  /** Every node of a tree starts where its root does or later, and not after its end. */
  lemma {:induction false} StartsWithin(source: string, root: Node)
    requires WellPlaced(source, root)
    ensures forall n :: InTree(root, n) ==> root.start <= n.start <= root.end
    decreases root, 1
  {
    AllStartWithin(source, root.children, root.start, InnerEnd(root));
    InnerEndIsInside(source, root);
    forall n | InTree(root, n) && n != root ensures root.start <= n.start <= root.end {
      var child :| child in root.children && InTree(child, n);
      assert n in AllNodes(root.children);
    }
  }

  lemma InnerEndIsInside(source: string, n: Node)
    requires WellPlaced(source, n)
    ensures InnerEnd(n) <= n.end
  {}

  lemma {:induction false} AllStartWithin(source: string, ns: seq<Node>, lo: nat, hi: nat)
    requires InOrder(source, ns, lo, hi)
    ensures forall n :: n in AllNodes(ns) ==> lo <= n.start <= hi
    decreases ns, 0
  {
    if ns != [] {
      StartsWithin(source, ns[0]);
      AllStartWithin(source, ns[1..], ns[0].end, hi);
      InOrderBounds(source, ns[1..], ns[0].end, hi);
      assert AllNodes(ns) == Nodes(ns[0]) + AllNodes(ns[1..]) by { assert ns == [ns[0]] + ns[1..]; }
    }
  }

  /** All replacements made at once: the text between the ranges is kept as it is. */
  function Substitute(source: string, asc: seq<Replacement>, from: nat): string
    requires from <= |source| && Ascending(asc, from, |source|)
    decreases |asc|
  {
    if asc == [] then source[from..]
    else source[from..asc[0].start] + asc[0].value + Substitute(source, asc[1..], asc[0].end)
  }

  /** How much longer the first `k` replacements make the text. */
  function Growth(asc: seq<Replacement>, k: nat): int
    requires k <= |asc|
  {
    if k == 0 then 0 else |asc[0].value| - (asc[0].end - asc[0].start) + Growth(asc[1..], k - 1)
  }

  /** The text between the ranges before and after place `k` of the list: where it begins and where it ends. */
  function GapStart(asc: seq<Replacement>, from: nat, k: nat): nat
    requires k <= |asc|
  {
    if k == 0 then from else asc[k - 1].end
  }

  function GapEnd(source: string, asc: seq<Replacement>, k: nat): nat
    requires k <= |asc|
  {
    if k == |asc| then |source| else asc[k].start
  }

  /** `part` stands at `at` in the text. */
  ghost predicate Holds(text: string, at: int, part: string) {
    0 <= at && at + |part| <= |text| && text[at..at + |part|] == part
  }

  lemma HoldsAfter(front: string, text: string, at: int, part: string, there: int)
    requires Holds(text, at, part) && there == |front| + at
    ensures Holds(front + text, there, part)
  {
    assert (front + text)[there..there + |part|] == text[at..at + |part|];
  }

  /** What stands in the text behind the first replacement stands in the whole, shifted by that replacement. */
  lemma HoldsBehindFirst(source: string, asc: seq<Replacement>, from: nat, at: int, part: string, there: int)
    requires from <= |source| && Ascending(asc, from, |source|) && asc != []
    requires Holds(Substitute(source, asc[1..], asc[0].end), at, part)
    requires there == asc[0].start - from + |asc[0].value| + at
    ensures Holds(Substitute(source, asc, from), there, part)
  {
    SubstituteUnfolds(source, asc, from);
    HoldsAfter(source[from..asc[0].start] + asc[0].value, Substitute(source, asc[1..], asc[0].end), at, part, there);
  }

  /** The replacements after the first start after it, on a text that is as long as what the first one grew it by. */
  lemma SubstituteUnfolds(source: string, asc: seq<Replacement>, from: nat)
    requires from <= |source| && Ascending(asc, from, |source|) && asc != []
    ensures from <= asc[0].start <= asc[0].end <= |source| && Ascending(asc[1..], asc[0].end, |source|)
    ensures var gap, rest := source[from..asc[0].start], Substitute(source, asc[1..], asc[0].end);
            Substitute(source, asc, from) == gap + asc[0].value + rest
  {}

  lemma {:induction false} SubstituteLength(source: string, asc: seq<Replacement>, from: nat)
    requires from <= |source| && Ascending(asc, from, |source|)
    ensures |Substitute(source, asc, from)| == |source| - from + Growth(asc, |asc|)
    decreases |asc|
  {
    if asc != [] {
      SubstituteUnfolds(source, asc, from);
      SubstituteLength(source, asc[1..], asc[0].end);
    }
  }

  lemma {:induction false} GapsLieWithin(source: string, asc: seq<Replacement>, from: nat, k: nat)
    requires from <= |source| && Ascending(asc, from, |source|) && k <= |asc|
    ensures from <= GapStart(asc, from, k) <= GapEnd(source, asc, k) <= |source|
    decreases |asc|
  {
    if k > 0 { GapsLieWithin(source, asc[1..], asc[0].end, k - 1); }
  }

  lemma {:induction false} GapStays(source: string, asc: seq<Replacement>, from: nat, k: nat, start: nat, end: nat)
    requires from <= |source| && Ascending(asc, from, |source|) && k <= |asc|
    requires start == GapStart(asc, from, k) && end == GapEnd(source, asc, k) && from <= start <= end <= |source|
    ensures Holds(Substitute(source, asc, from), start - from + Growth(asc, k), source[start..end])
    decreases |asc|
  {
    if k == 0 {
      FirstGapStays(source, asc, from);
    } else {
      var later, cut := asc[1..], asc[0].end;
      GapsLieWithin(source, later, cut, k - 1);
      GapStays(source, later, cut, k - 1, start, end);
      HoldsBehindFirst(source, asc, from, start - cut + Growth(later, k - 1), source[start..end], start - from + Growth(asc, k));
    }
  }

  lemma FirstGapStays(source: string, asc: seq<Replacement>, from: nat)
    requires from <= |source| && Ascending(asc, from, |source|)
    ensures GapEnd(source, asc, 0) >= from && Holds(Substitute(source, asc, from), 0, source[from..GapEnd(source, asc, 0)])
  {
    if asc != [] { SubstituteUnfolds(source, asc, from); }
  }

  lemma {:induction false} ValueStands(source: string, asc: seq<Replacement>, from: nat, k: nat)
    requires from <= |source| && Ascending(asc, from, |source|) && k < |asc|
    ensures Holds(Substitute(source, asc, from), asc[k].start - from + Growth(asc, k), asc[k].value)
    decreases |asc|
  {
    if k > 0 {
      ValueStands(source, asc[1..], asc[0].end, k - 1);
      HoldsBehindFirst(source, asc, from, asc[k].start - asc[0].end + Growth(asc[1..], k - 1), asc[k].value, asc[k].start - from + Growth(asc, k));
    } else {
      SubstituteUnfolds(source, asc, from);
    }
  }

  /**
   Each value stands where its range began, shifted by what the replacements before it have grown; each stretch
   between ranges is there unchanged, shifted alike; and nothing else is.
   */
  lemma SubstituteExactly(source: string, asc: seq<Replacement>, k: nat)
    requires Ascending(asc, 0, |source|) && k <= |asc|
    ensures GapStart(asc, 0, k) <= GapEnd(source, asc, k) <= |source|
    ensures var page := Substitute(source, asc, 0);
            && |page| == |source| + Growth(asc, |asc|)
            && Holds(page, GapStart(asc, 0, k) + Growth(asc, k), source[GapStart(asc, 0, k)..GapEnd(source, asc, k)])
            && (k < |asc| ==> Holds(page, asc[k].start + Growth(asc, k), asc[k].value))
  {
    SubstituteLength(source, asc, 0);
    GapsLieWithin(source, asc, 0, k);
    GapStays(source, asc, 0, k, GapStart(asc, 0, k), GapEnd(source, asc, k));
    if k < |asc| { ValueStands(source, asc, 0, k); }
  }

  predicate Ascending(asc: seq<Replacement>, from: nat, to: nat)
    decreases |asc|
  {
    asc == [] || (from <= asc[0].start <= asc[0].end <= to && Ascending(asc[1..], asc[0].end, to))
  }

  function InsertDescending(r: Replacement, s: seq<Replacement>): seq<Replacement> {
    if s == [] || r.start >= s[0].start then [r] + s else [s[0]] + InsertDescending(r, s[1..])
  }

  /** `replacements.sort((a, b) => b.start - a.start)`. */
  function SortDescending(s: seq<Replacement>): seq<Replacement> {
    if s == [] then [] else InsertDescending(s[0], SortDescending(s[1..]))
  }

  function Backwards(s: seq<Replacement>): (r: seq<Replacement>)
    ensures |r| == |s|
  {
    if s == [] then [] else [s[|s| - 1]] + Backwards(s[..|s| - 1])
  }

  ghost predicate Descending(s: seq<Replacement>) {
    forall i, j :: 0 <= i < j < |s| ==> s[i].start >= s[j].start
  }

  lemma {:induction false} InsertKeeps(r: Replacement, s: seq<Replacement>)
    ensures multiset(InsertDescending(r, s)) == multiset{r} + multiset(s)
  {
    if s != [] && r.start < s[0].start {
      InsertKeeps(r, s[1..]);
      assert s == [s[0]] + s[1..];
    }
  }

  lemma {:induction false} InsertDescends(r: Replacement, s: seq<Replacement>)
    requires Descending(s)
    ensures Descending(InsertDescending(r, s))
  {
    if s != [] && r.start < s[0].start {
      InsertDescends(r, s[1..]);
      InsertKeeps(r, s[1..]);
      var rest := InsertDescending(r, s[1..]);
      forall j | 0 <= j < |rest| ensures s[0].start >= rest[j].start {
        assert rest[j] in multiset(rest);
        assert rest[j] == r || rest[j] in s[1..];
      }
    }
  }

  lemma {:induction false} SortSorts(s: seq<Replacement>)
    ensures Descending(SortDescending(s)) && multiset(SortDescending(s)) == multiset(s)
  {
    if s != [] {
      SortSorts(s[1..]);
      InsertKeeps(s[0], SortDescending(s[1..]));
      InsertDescends(s[0], SortDescending(s[1..]));
      assert s == [s[0]] + s[1..];
    }
  }

  lemma {:induction false} BackwardsKeeps(s: seq<Replacement>)
    ensures multiset(Backwards(s)) == multiset(s)
  {
    if s != [] {
      BackwardsKeeps(s[..|s| - 1]);
      assert s == s[..|s| - 1] + [s[|s| - 1]];
    }
  }

  /** Ranges that descend without overlap. */
  ghost predicate DescendingRanges(s: seq<Replacement>, to: nat) {
    && (forall i :: 0 <= i < |s| ==> s[i].start <= s[i].end <= to)
    && (forall i, j :: 0 <= i < j < |s| ==> s[j].end <= s[i].start)
  }

  /** The ranges, sorted by descending start, of replacements that are apart. */
  lemma SeparateSorted(rs: seq<Replacement>, lo: nat, hi: nat)
    requires Separate(rs, lo, hi)
    ensures DescendingRanges(SortDescending(rs), hi)
  {
    var s := SortDescending(rs);
    SortSorts(rs);
    forall i | 0 <= i < |s| ensures s[i].start <= s[i].end <= hi { assert s[i] in multiset(rs); }
    forall i, j | 0 <= i < j < |s| ensures s[j].end <= s[i].start {
      SortedPairIsApart(rs, s, lo, hi, i, j);
    }
  }

  lemma SortedPairIsApart(rs: seq<Replacement>, s: seq<Replacement>, lo: nat, hi: nat, i: nat, j: nat)
    requires Separate(rs, lo, hi) && multiset(s) == multiset(rs) && i < j < |s|
    ensures Apart(s[i], s[j])
  {
    assert s[i] in multiset(rs) && s[j] in multiset(rs);
    var a: nat :| a < |rs| && rs[a] == s[i];
    var b: nat :| b < |rs| && rs[b] == s[j];
    if s[i] == s[j] {
      assert s == s[..j] + [s[j]] + s[j + 1..] && s[i] in s[..j];
      assert multiset(s)[s[j]] == multiset(s[..j])[s[j]] + 1 + multiset(s[j + 1..])[s[j]];
      OnlyOnce(rs, lo, hi, a);
    }
  }

  lemma OnlyOnce(rs: seq<Replacement>, lo: nat, hi: nat, a: nat)
    requires Separate(rs, lo, hi) && a < |rs|
    ensures multiset(rs)[rs[a]] == 1
  {
    var r := rs[a];
    assert rs == rs[..a] + [r] + rs[a + 1..];
    assert forall k :: 0 <= k < a ==> Apart(rs[k], r);
    assert r !in rs[..a] && r !in rs[a + 1..];
  }

  /** Splicing in the next range to the left extends the simultaneous substitution by it. */
  lemma SpliceStep(source: string, asc: seq<Replacement>, r: Replacement, cut: nat, projected: string)
    requires r.start <= r.end <= cut <= |source| && Ascending(asc, cut, |source|)
    requires projected == source[..cut] + Substitute(source, asc, cut)
    ensures Ascending([r] + asc, r.start, |source|)
    ensures projected[..r.start] + r.value + projected[r.end..] == source[..r.start] + Substitute(source, [r] + asc, r.start)
  {
    SubstituteFrom(source, asc, r.end, cut);
    CutAt(source, Substitute(source, asc, cut), r.start, r.end, cut);
    SubstituteFirst(source, asc, r);
    assert projected[..r.start] == source[..r.start] && projected[r.end..] == Substitute(source, asc, r.end);
    JoinThree(source[..r.start], r.value, Substitute(source, asc, r.end));
  }

  lemma SubstituteFirst(source: string, asc: seq<Replacement>, r: Replacement)
    requires r.start <= r.end <= |source| && Ascending(asc, r.end, |source|)
    ensures Ascending([r] + asc, r.start, |source|)
    ensures Substitute(source, [r] + asc, r.start) == r.value + Substitute(source, asc, r.end)
  {
    var whole := [r] + asc;
    assert whole[0] == r && whole[1..] == asc;
    NothingBefore(source, r.start, r.value, Substitute(source, asc, r.end));
  }

  lemma NothingBefore(source: string, at: nat, value: string, rest: string)
    requires at <= |source|
    ensures source[at..at] + value + rest == value + rest
  {
    assert source[at..at] == [];
  }

  lemma JoinThree(a: string, b: string, c: string)
    ensures a + b + c == a + (b + c)
  {}

  lemma CutAt(source: string, tail: string, start: nat, end: nat, cut: nat)
    requires start <= end <= cut <= |source|
    ensures (source[..cut] + tail)[..start] == source[..start]
    ensures (source[..cut] + tail)[end..] == source[end..cut] + tail
  {}

  lemma AscendingFrom(asc: seq<Replacement>, from: nat, cut: nat, to: nat)
    requires from <= cut && Ascending(asc, cut, to)
    ensures Ascending(asc, from, to)
  {}

  lemma SubstituteFrom(source: string, asc: seq<Replacement>, from: nat, cut: nat)
    requires from <= cut <= |source| && Ascending(asc, cut, |source|)
    ensures Ascending(asc, from, |source|) && Substitute(source, asc, from) == source[from..cut] + Substitute(source, asc, cut)
  {
    AscendingFrom(asc, from, cut, |source|);
    if asc == [] {
      assert source[from..] == source[from..cut] + source[cut..];
    } else {
      assert source[from..asc[0].start] == source[from..cut] + source[cut..asc[0].start];
    }
  }

  /** The replacement loop: each splice leaves the text before it in place, so none disturbs the next. */
  method Splice(source: string, replacements: seq<Replacement>) returns (projected: string)
    requires DescendingRanges(SortDescending(replacements), |source|)
    ensures var asc := Backwards(SortDescending(replacements));
            Ascending(asc, 0, |source|) && projected == Substitute(source, asc, 0)
  {
    var sorted := SortDescending(replacements);
    projected := source;
    ghost var cut: nat := |source|;
    assert source[..cut] + source[cut..] == source;
    for k := 0 to |sorted|
      invariant cut <= |source| && (k < |sorted| ==> sorted[k].end <= cut)
      invariant Ascending(Backwards(sorted[..k]), cut, |source|)
      invariant projected == source[..cut] + Substitute(source, Backwards(sorted[..k]), cut)
    {
      var r := sorted[k];
      SpliceStep(source, Backwards(sorted[..k]), r, cut, projected);
      assert sorted[..k + 1][..k] == sorted[..k];
      projected := projected[..r.start] + r.value + projected[r.end..];
      cut := r.start;
    }
    assert sorted[..|sorted|] == sorted;
    SubstituteFrom(source, Backwards(sorted), 0, cut);
  }

  /** Sorted and turned round, replacements that are apart ascend, each once. */
  lemma SortedIsDistinct(rs: seq<Replacement>, lo: nat, hi: nat)
    requires Separate(rs, lo, hi)
    ensures var asc := Backwards(SortDescending(rs)); Distinct(asc) && forall r :: r in asc <==> r in rs
  {
    var s := SortDescending(rs);
    SortSorts(rs);
    forall i, j | 0 <= i < j < |s| ensures s[i] != s[j] {
      SortedPairIsApart(rs, s, lo, hi, i, j);
      assert s[i] in multiset(rs) && s[i] in rs;
    }
    BackwardsDistinct(s);
    BackwardsKeeps(s);
    SameMembers(Backwards(s), rs);
  }

  lemma SameMembers(a: seq<Replacement>, b: seq<Replacement>)
    requires multiset(a) == multiset(b)
    ensures forall r :: r in a <==> r in b
  {
    forall r ensures r in a <==> r in b { assert r in a <==> r in multiset(a); }
  }

  lemma {:induction false} BackwardsDistinct(s: seq<Replacement>)
    requires Distinct(s)
    ensures Distinct(Backwards(s))
  {
    if s != [] {
      BackwardsDistinct(s[..|s| - 1]);
      BackwardsKeeps(s[..|s| - 1]);
      SameMembers(Backwards(s[..|s| - 1]), s[..|s| - 1]);
      assert s[|s| - 1] !in Backwards(s[..|s| - 1]);
    }
  }

  /**
   `rewriteMarkdown`: the page with the destinations of exactly the rewritten nodes of the tree replaced at once,
   each once, and all other text as it was; or the failure of the first node whose destination cannot be located.
   */
  method RewriteMarkdown(source: string, tree: Node) returns (r: Result<string, Failure>)
    requires WellPlaced(source, tree)
    ensures match r
            case Ok(page) =>
              exists asc :: Distinct(asc) && Covers(source, Nodes(tree), asc)
                && Ascending(asc, 0, |source|) && page == Substitute(source, asc, 0)
            case Err(e) => FirstLost(source, Nodes(tree), e)
  {
    var collected := Collect(source, tree);
    CollectsExactly(source, tree);
    match collected
    case Err(e) => r := Err(e);
    case Ok(rs) =>
      CollectedAreSeparate(source, tree);
      ghost var lo: nat, hi: nat :| Separate(rs, lo, hi) && hi <= |source|;
      SeparateSorted(rs, lo, hi);
      SortedIsDistinct(rs, lo, hi);
      var projected := Splice(source, rs);
      r := Ok(projected);
      assert Covers(source, Nodes(tree), Backwards(SortDescending(rs)));
  }
}
