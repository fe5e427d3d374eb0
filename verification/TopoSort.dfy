/**
 The layered topological sort of scripts/package-graph.ts (lines 59-83): packages are placed in
 rounds, each round sorted by the caller's group order and then by name.
 */
module PackageOrder {
  import opened Prelude

  datatype Package = Package(short: string, group: string, deps: seq<string>)

  /** The caller's group order, and `localeCompare` as a function. */
  datatype Order = Order(groups: seq<string>, collate: (string, string) -> int)
  {
    /** What makes a comparison fit to sort by: a total preorder. */
    ghost predicate Valid() {
      && (forall a, b :: collate(a, b) > 0 <==> collate(b, a) < 0)
      && (forall a, b, c :: collate(a, b) <= 0 && collate(b, c) <= 0 ==> collate(a, c) <= 0)
    }

    function IndexOf(g: string, from: nat): int
      requires from <= |groups|
      decreases |groups| - from
    {
      if from == |groups| then -1 else if groups[from] == g then from else IndexOf(g, from + 1)
    }

    function Norm(g: string): int {
      var i := IndexOf(g, 0);
      if i == -1 then MAX_SAFE_INTEGER else i
    }

    /** `comparePackages`. */
    function Compare(a: Package, b: Package): int {
      if Norm(a.group) != Norm(b.group) then Norm(a.group) - Norm(b.group)
      else if collate(a.group, b.group) != 0 then collate(a.group, b.group)
      else collate(a.short, b.short)
    }

    /** `g` stands first at `i` in the caller's order. */
    predicate FirstAt(g: string, i: nat) {
      i < |groups| && groups[i] == g && forall k :: 0 <= k < i ==> groups[k] != g
    }

    lemma {:induction false} IndexOfFirst(g: string, from: nat)
      requires from <= |groups| && forall k :: 0 <= k < from ==> groups[k] != g
      ensures var i := IndexOf(g, from); if i == -1 then g !in groups else i >= 0 && FirstAt(g, i)
      decreases |groups| - from
    {
      if from < |groups| && groups[from] != g { IndexOfFirst(g, from + 1); }
    }

    /**
     Groups come in the caller's order, those it does not list after all it lists, and by collation among
     themselves; within a group packages go by collation of their names.
     */
    lemma ComparesGroupsFirst(a: Package, b: Package)
      requires Valid() && |groups| < MAX_SAFE_INTEGER
      ensures forall i, j :: FirstAt(a.group, i) && FirstAt(b.group, j) && i < j ==> Compare(a, b) < 0
      ensures a.group in groups && b.group !in groups ==> Compare(a, b) < 0
      ensures a.group !in groups && b.group !in groups && collate(a.group, b.group) != 0 ==> Compare(a, b) == collate(a.group, b.group)
      ensures a.group == b.group ==> Compare(a, b) == collate(a.short, b.short)
    {
      IndexOfFirst(a.group, 0);
      IndexOfFirst(b.group, 0);
    }

    lemma CompareIsTotal(a: Package, b: Package)
      requires Valid()
      ensures Compare(a, b) > 0 <==> Compare(b, a) < 0
    {}

    lemma CompareIsTransitive(a: Package, b: Package, c: Package)
      requires Valid() && Compare(a, b) <= 0 && Compare(b, c) <= 0
      ensures Compare(a, c) <= 0
    {
      if collate(a.group, c.group) == 0 {
        assert collate(c.group, a.group) == 0;
      }
    }
  }

  ghost predicate Sorted(o: Order, s: seq<Package>) {
    forall i, j :: 0 <= i < j < |s| ==> o.Compare(s[i], s[j]) <= 0
  }

  function Insert(o: Order, p: Package, s: seq<Package>): seq<Package> {
    if s == [] || o.Compare(p, s[0]) <= 0 then [p] + s else [s[0]] + Insert(o, p, s[1..])
  }

  /** `Array.prototype.sort` with `comparePackages`, which is stable. */
  function Sort(o: Order, s: seq<Package>): seq<Package> {
    if s == [] then [] else Insert(o, s[0], Sort(o, s[1..]))
  }

  lemma {:induction false} InsertAdds(o: Order, p: Package, s: seq<Package>)
    ensures multiset(Insert(o, p, s)) == multiset{p} + multiset(s)
  {
    if s == [] || o.Compare(p, s[0]) <= 0 {
    } else {
      InsertAdds(o, p, s[1..]);
      assert s == [s[0]] + s[1..];
    }
  }

  lemma {:induction false} InsertSorts(o: Order, p: Package, s: seq<Package>)
    requires o.Valid() && Sorted(o, s)
    ensures Sorted(o, Insert(o, p, s))
  {
    if s == [] {
    } else if o.Compare(p, s[0]) <= 0 {
      forall j | 0 <= j < |s| ensures o.Compare(p, s[j]) <= 0 {
        if j > 0 { o.CompareIsTransitive(p, s[0], s[j]); }
      }
    } else {
      InsertSorts(o, p, s[1..]);
      o.CompareIsTotal(p, s[0]);
      var rest := Insert(o, p, s[1..]);
      forall j | 0 <= j < |rest| ensures o.Compare(s[0], rest[j]) <= 0 {
        InsertAdds(o, p, s[1..]);
        assert rest[j] in multiset(rest);
        assert rest[j] == p || rest[j] in s[1..];
      }
    }
  }

  lemma {:induction false} SortSorts(o: Order, s: seq<Package>)
    requires o.Valid()
    ensures Sorted(o, Sort(o, s)) && multiset(Sort(o, s)) == multiset(s)
  {
    if s != [] {
      SortSorts(o, s[1..]);
      InsertSorts(o, s[0], Sort(o, s[1..]));
      InsertAdds(o, s[0], Sort(o, s[1..]));
      assert s == [s[0]] + s[1..];
    }
  }
}

module DependencyDepth {
  import opened PackageOrder

  ghost predicate DistinctShorts(nodes: seq<Package>) {
    forall i, j :: 0 <= i < j < |nodes| ==> nodes[i].short != nodes[j].short
  }

  /** A chain of dependencies among `nodes`, each package depending on the next. */
  ghost predicate Chain(nodes: seq<Package>, c: seq<Package>) {
    && |c| > 0
    && (forall i :: 0 <= i < |c| ==> c[i] in nodes)
    && (forall i :: 0 <= i < |c| - 1 ==> c[i + 1].short in c[i].deps)
  }

  /** The longest chain of dependencies starting at `p` has `d` links. */
  ghost predicate LongestChain(nodes: seq<Package>, p: Package, d: nat) {
    && (exists c: seq<Package> :: Chain(nodes, c) && c[0] == p && |c| == d + 1)
    && (forall c: seq<Package> :: Chain(nodes, c) && c[0] == p ==> |c| <= d + 1)
  }

  lemma LongestChainIsUnique(nodes: seq<Package>, p: Package, d: nat, e: nat)
    requires LongestChain(nodes, p, d) && LongestChain(nodes, p, e)
    ensures d == e
  {}

  /** Depth from the depths of the dependencies: one more than the deepest, nothing when there are none. */
  lemma DepthFromDependencies(nodes: seq<Package>, p: Package, depth: map<string, nat>, d: nat)
    requires DistinctShorts(nodes) && p in nodes
    requires forall q :: q in nodes && q.short in p.deps ==> q.short in depth && LongestChain(nodes, q, depth[q.short]) && depth[q.short] < d
    requires if d == 0 then p.deps == [] else exists q :: q in nodes && q.short in p.deps && depth[q.short] == d - 1
    ensures LongestChain(nodes, p, d)
  {
    if d == 0 {
      assert Chain(nodes, [p]);
    } else {
      var q :| q in nodes && q.short in p.deps && depth[q.short] == d - 1;
      var c :| Chain(nodes, c) && c[0] == q && |c| == d;
      var longer := [p] + c;
      forall i | 0 <= i < |longer| - 1 ensures longer[i + 1].short in longer[i].deps {
        if i > 0 { assert longer[i] == c[i - 1] && longer[i + 1] == c[i]; }
      }
      assert Chain(nodes, longer);
    }
    forall c: seq<Package> | Chain(nodes, c) && c[0] == p ensures |c| <= d + 1 {
      if |c| > 1 {
        var tail := c[1..];
        forall i | 0 <= i < |tail| - 1 ensures tail[i + 1].short in tail[i].deps {
          assert tail[i] == c[i + 1] && tail[i + 1] == c[i + 2];
        }
        assert Chain(nodes, tail) && c[1].short in c[0].deps;
      }
    }
  }
}

module Listing {
  import opened PackageOrder
  import opened DependencyDepth

  /** `a` stands before `b`. */
  ghost predicate Comes(s: seq<Package>, a: Package, b: Package) {
    exists i, j :: 0 <= i < j < |s| && s[i] == a && s[j] == b
  }

  lemma ComesSplit(x: Package, rest: seq<Package>, a: Package, b: Package)
    ensures Comes([x] + rest, a, b) <==> (x == a && b in rest) || Comes(rest, a, b)
  {
    var s := [x] + rest;
    if i, j :| 0 <= i < j < |s| && s[i] == a && s[j] == b {
      assert s[j] == rest[j - 1];
      if i > 0 { assert rest[i - 1] == a && rest[j - 1] == b; }
    }
    if x == a && b in rest {
      var j :| 0 <= j < |rest| && rest[j] == b;
      assert s[0] == a && s[j + 1] == b;
    }
    if i, j :| 0 <= i < j < |rest| && rest[i] == a && rest[j] == b {
      assert s[i + 1] == a && s[j + 1] == b;
    }
  }

  lemma ComesFirst(s: seq<Package>, a: Package, b: Package)
    requires s != []
    ensures Comes(s, a, b) <==> (s[0] == a && b in s[1..]) || Comes(s[1..], a, b)
  {
    ComesSplit(s[0], s[1..], a, b);
    assert s == [s[0]] + s[1..];
  }

  lemma ComesOrComes(s: seq<Package>, a: Package, b: Package)
    requires a in s && b in s && a != b
    ensures Comes(s, a, b) || Comes(s, b, a)
  {
    var i :| 0 <= i < |s| && s[i] == a;
    var j :| 0 <= j < |s| && s[j] == b;
    assert i < j || j < i;
  }

  lemma ComesInJoin(s: seq<Package>, t: seq<Package>, a: Package, b: Package)
    ensures Comes(s, a, b) ==> Comes(s + t, a, b)
    ensures Comes(t, a, b) ==> Comes(s + t, a, b)
  {
    if i, j :| 0 <= i < j < |s| && s[i] == a && s[j] == b {
      assert (s + t)[i] == a && (s + t)[j] == b;
    }
    if i, j :| 0 <= i < j < |t| && t[i] == a && t[j] == b {
      assert (s + t)[|s| + i] == a && (s + t)[|s| + j] == b;
    }
  }

  lemma InsertHas(o: Order, p: Package, s: seq<Package>, b: Package)
    ensures b in Insert(o, p, s) <==> b == p || b in s
  {
    InsertAdds(o, p, s);
    assert b in Insert(o, p, s) <==> b in multiset(Insert(o, p, s));
  }

  lemma {:induction false} InsertKeepsOrder(o: Order, p: Package, s: seq<Package>, a: Package, b: Package)
    requires Comes(s, a, b)
    ensures Comes(Insert(o, p, s), a, b)
  {
    if s == [] || o.Compare(p, s[0]) <= 0 {
      ComesSplit(p, s, a, b);
    } else {
      ComesFirst(s, a, b);
      InsertHas(o, p, s[1..], b);
      if Comes(s[1..], a, b) { InsertKeepsOrder(o, p, s[1..], a, b); }
      ComesSplit(s[0], Insert(o, p, s[1..]), a, b);
    }
  }

  lemma {:induction false} InsertPutsBefore(o: Order, p: Package, s: seq<Package>, b: Package)
    requires b in s && o.Compare(p, b) <= 0
    ensures Comes(Insert(o, p, s), p, b)
  {
    if o.Compare(p, s[0]) <= 0 {
      ComesSplit(p, s, p, b);
    } else {
      InsertPutsBefore(o, p, s[1..], b);
      ComesSplit(s[0], Insert(o, p, s[1..]), p, b);
    }
  }

  /** The sort is stable. */
  lemma {:induction false} SortKeepsTies(o: Order, s: seq<Package>, a: Package, b: Package)
    requires o.Valid() && Comes(s, a, b) && o.Compare(a, b) == 0
    ensures Comes(Sort(o, s), a, b)
  {
    ComesFirst(s, a, b);
    var rest := Sort(o, s[1..]);
    if Comes(s[1..], a, b) {
      SortKeepsTies(o, s[1..], a, b);
      InsertKeepsOrder(o, s[0], rest, a, b);
    } else {
      SortSorts(o, s[1..]);
      assert b in multiset(rest);
      InsertPutsBefore(o, s[0], rest, b);
    }
  }

  /** Two packages of one layer that compare equal. */
  ghost predicate Tied(o: Order, nodes: seq<Package>, a: Package, b: Package) {
    o.Compare(a, b) == 0 && exists d: nat :: LongestChain(nodes, a, d) && LongestChain(nodes, b, d)
  }

  /** Packages that tie stand in the order they are listed in. */
  ghost predicate TiesAsListed(o: Order, nodes: seq<Package>, s: seq<Package>) {
    forall a, b :: Tied(o, nodes, a, b) && Comes(nodes, a, b) && a in s && b in s ==> Comes(s, a, b)
  }

  /** Packages that tie are listed in the same order in both. */
  ghost predicate TiesAlike(o: Order, nodes: seq<Package>, shuffled: seq<Package>) {
    forall a, b :: Tied(o, nodes, a, b) ==> (Comes(nodes, a, b) <==> Comes(shuffled, a, b))
  }
}

module TopoSort {
  import opened Prelude
  import opened PackageOrder
  import opened DependencyDepth
  import opened Listing

  /** `new Map(packages.map(pkg => [pkg.short, pkg]))`: a later package replaces an earlier one of its name. */
  function ByShort(packages: seq<Package>): (r: seq<Package>)
    ensures forall p :: p in r ==> p in packages
  {
    if packages == [] then []
    else
      var before, last := ByShort(packages[..|packages| - 1]), packages[|packages| - 1];
      var i := Find(before, last.short, 0);
      assert packages == packages[..|packages| - 1] + [last];
      if i == |before| then before + [last] else before[i := last]
  }

  function Find(s: seq<Package>, short: string, from: nat): (i: nat)
    requires from <= |s|
    ensures from <= i <= |s| && (i < |s| ==> s[i].short == short)
    ensures forall j :: from <= j < i ==> s[j].short != short
    decreases |s| - from
  {
    if from == |s| || s[from].short == short then from else Find(s, short, from + 1)
  }

  lemma {:induction false} ByShortIsDistinct(packages: seq<Package>)
    ensures DistinctShorts(ByShort(packages))
  {
    if packages != [] { ByShortIsDistinct(packages[..|packages| - 1]); }
  }

  /** The map keeps one package of every name: the last one listed. */
  lemma {:induction false} ByShortKeepsLast(packages: seq<Package>, k: nat)
    requires k < |packages| && forall j :: k < j < |packages| ==> packages[j].short != packages[k].short
    ensures packages[k] in ByShort(packages)
  {
    var init, last := packages[..|packages| - 1], packages[|packages| - 1];
    var before := ByShort(init);
    var i := Find(before, last.short, 0);
    if k == |init| {
      assert ByShort(packages)[i] == last;
    } else {
      ByShortKeepsLast(init, k);
      var n :| 0 <= n < |before| && before[n] == packages[k];
      assert ByShort(packages)[n] == packages[k];
    }
  }

  lemma {:induction false} ReadyKeepsOrder(s: seq<Package>, placed: set<string>, a: Package, b: Package)
    requires Comes(s, a, b) && a in Ready(s, placed) && b in Ready(s, placed)
    ensures Comes(Ready(s, placed), a, b)
  {
    ComesFirst(s, a, b);
    var rest := Ready(s[1..], placed);
    if Comes(s[1..], a, b) {
      ReadyKeepsOrder(s[1..], placed, a, b);
      ComesInJoin(Ready(s, placed)[..|Ready(s, placed)| - |rest|], rest, a, b);
      assert Ready(s, placed) == Ready(s, placed)[..|Ready(s, placed)| - |rest|] + rest;
    } else {
      assert Ready(s, placed) == [a] + rest;
      ComesSplit(a, rest, a, b);
    }
  }

  lemma {:induction false} BlockedKeepsOrder(s: seq<Package>, placed: set<string>, a: Package, b: Package)
    requires Comes(s, a, b) && a in Blocked(s, placed) && b in Blocked(s, placed)
    ensures Comes(Blocked(s, placed), a, b)
  {
    ComesFirst(s, a, b);
    var rest := Blocked(s[1..], placed);
    if Comes(s[1..], a, b) {
      BlockedKeepsOrder(s[1..], placed, a, b);
      ComesInJoin(Blocked(s, placed)[..|Blocked(s, placed)| - |rest|], rest, a, b);
      assert Blocked(s, placed) == Blocked(s, placed)[..|Blocked(s, placed)| - |rest|] + rest;
    } else {
      assert Blocked(s, placed) == [a] + rest;
      ComesSplit(a, rest, a, b);
    }
  }

  /** Every dependency stands earlier in the list than its dependent. */
  ghost predicate DependenciesFirst(s: seq<Package>) {
    forall i, d :: 0 <= i < |s| && d in s[i].deps ==> exists j :: 0 <= j < i && s[j].short == d
  }

  /** A group of packages none of which can ever be placed: each waits for one of the group, or for no package at all. */
  ghost predicate Stuck(nodes: seq<Package>, group: set<Package>) {
    && group != {}
    && (forall p :: p in group ==> p in nodes)
    && forall p {:trigger Waits(nodes, group, p)} :: p in group ==> Waits(nodes, group, p)
  }

  ghost predicate Waits(nodes: seq<Package>, group: set<Package>, p: Package) {
    exists d :: d in p.deps && forall q :: q in nodes && q.short == d ==> q in group
  }

  lemma StuckHasNoOrder(nodes: seq<Package>, group: set<Package>, s: seq<Package>)
    requires Stuck(nodes, group) && multiset(s) == multiset(nodes)
    ensures !DependenciesFirst(s)
  {
    if DependenciesFirst(s) {
      var p :| p in group;
      assert p in multiset(s);
      var i :| 0 <= i < |s| && s[i] == p;
      NoneOfGroup(nodes, group, s, i);
    }
  }

  lemma {:induction false} NoneOfGroup(nodes: seq<Package>, group: set<Package>, s: seq<Package>, i: nat)
    requires Stuck(nodes, group) && multiset(s) == multiset(nodes) && DependenciesFirst(s) && i < |s|
    ensures s[i] !in group
    decreases i
  {
    if s[i] in group {
      assert Waits(nodes, group, s[i]);
      var d :| d in s[i].deps && forall q :: q in nodes && q.short == d ==> q in group;
      var j :| 0 <= j < i && s[j].short == d;
      assert s[j] in multiset(s);
      NoneOfGroup(nodes, group, s, j);
    }
  }

  function Ready(remaining: seq<Package>, placed: set<string>): (r: seq<Package>)
    ensures forall p :: p in r <==> p in remaining && forall d :: d in p.deps ==> d in placed
  {
    if remaining == [] then []
    else (if forall d :: d in remaining[0].deps ==> d in placed then [remaining[0]] else []) + Ready(remaining[1..], placed)
  }

  function Blocked(remaining: seq<Package>, placed: set<string>): (r: seq<Package>)
    ensures forall p :: p in r <==> p in remaining && exists d :: d in p.deps && d !in placed
  {
    if remaining == [] then []
    else (if forall d :: d in remaining[0].deps ==> d in placed then [] else [remaining[0]]) + Blocked(remaining[1..], placed)
  }

  function Shorts(s: seq<Package>): (r: set<string>)
    ensures forall p :: p in s ==> p.short in r
    ensures forall d :: d in r ==> exists p :: p in s && p.short == d
  {
    set p | p in s :: p.short
  }

  /** What is left of the map's values once some keys are deleted. */
  function Without(s: seq<Package>, shorts: set<string>): seq<Package> {
    if s == [] then []
    else (if s[0].short in shorts then [] else [s[0]]) + Without(s[1..], shorts)
  }

  lemma {:induction false} WithoutTwice(s: seq<Package>, a: set<string>, b: set<string>)
    ensures Without(Without(s, a), b) == Without(s, a + b)
  {
    if s != [] {
      WithoutTwice(s[1..], a, b);
      var rest := Without(s[1..], a);
      if s[0].short in a {
        assert Without(s, a) == rest;
      } else {
        assert ([s[0]] + rest)[1..] == rest;
      }
    }
  }

  lemma {:induction false} WithoutNone(s: seq<Package>)
    ensures Without(s, {}) == s
  {
    if s != [] { WithoutNone(s[1..]); }
  }

  lemma {:induction false} ReadyAndBlocked(s: seq<Package>, placed: set<string>)
    ensures multiset(Ready(s, placed)) + multiset(Blocked(s, placed)) == multiset(s)
  {
    if s != [] {
      ReadyAndBlocked(s[1..], placed);
      assert s == [s[0]] + s[1..];
    }
  }

  lemma ConsDistinct(p: Package, s: seq<Package>)
    requires DistinctShorts(s) && forall q :: q in s ==> q.short != p.short
    ensures DistinctShorts([p] + s)
  {}

  lemma {:induction false} BlockedIsDistinct(s: seq<Package>, placed: set<string>)
    requires DistinctShorts(s)
    ensures DistinctShorts(Blocked(s, placed))
  {
    if s != [] {
      BlockedIsDistinct(s[1..], placed);
      forall q | q in Blocked(s[1..], placed) ensures q.short != s[0].short {
        assert q in s[1..];
      }
      ConsDistinct(s[0], Blocked(s[1..], placed));
    }
  }

  /** Deleting the ready packages by name leaves exactly the blocked ones. */
  lemma {:induction false} WithoutReady(s: seq<Package>, placed: set<string>, ready: set<string>)
    requires forall p :: p in s ==> (p.short in ready <==> forall d :: d in p.deps ==> d in placed)
    ensures Without(s, ready) == Blocked(s, placed)
  {
    if s != [] { WithoutReady(s[1..], placed, ready); }
  }

  /** `a` may stand before `b`: fewer layers below it, or the same layer and not after it by comparison. */
  ghost predicate Before(o: Order, depth: map<string, nat>, a: Package, b: Package) {
    a.short in depth && b.short in depth &&
    (depth[a.short] < depth[b.short] || (depth[a.short] == depth[b.short] && o.Compare(a, b) <= 0))
  }

  /** The rounds so far: what is placed, how deep each placed package is, and why the rest still waits. */
  ghost predicate Rounds(o: Order, nodes: seq<Package>, remaining: seq<Package>, out: seq<Package>, depth: map<string, nat>, round: nat) {
    && DistinctShorts(remaining)
    && multiset(out) + multiset(remaining) == multiset(nodes)
    && depth.Keys == Shorts(out)
    && (forall q :: q in out ==> depth[q.short] < round && LongestChain(nodes, q, depth[q.short]))
    && DependenciesFirst(out)
    && (forall i, j :: 0 <= i < j < |out| ==> Before(o, depth, out[i], out[j]))
    && (round > 0 ==> forall p {:trigger StillWaits(p, depth, round - 1)} :: p in remaining ==> StillWaits(p, depth, round - 1))
  }

  /** Some dependency of `p` is unplaced, or was placed no earlier than the last round. */
  ghost predicate StillWaits(p: Package, depth: map<string, nat>, last: nat) {
    exists d :: d in p.deps && (d !in depth || depth[d] == last)
  }

  function Extend(depth: map<string, nat>, shorts: set<string>, round: nat): (r: map<string, nat>)
    ensures r.Keys == depth.Keys + shorts
  {
    depth + map d | d in shorts :: round
  }

  lemma HasMember<T>(s: seq<T>)
    ensures s == [] || exists x :: x in s
  {
    if s != [] { assert s[0] in s; }
  }

  lemma ReadyDepth(o: Order, nodes: seq<Package>, remaining: seq<Package>, out: seq<Package>, depth: map<string, nat>, round: nat, p: Package)
    requires DistinctShorts(nodes) && Rounds(o, nodes, remaining, out, depth, round)
    requires p in remaining && forall d :: d in p.deps ==> d in depth
    ensures LongestChain(nodes, p, round)
  {
    assert p in multiset(nodes);
    forall q | q in nodes && q.short in p.deps
      ensures q.short in depth && LongestChain(nodes, q, depth[q.short]) && depth[q.short] < round
    {
      PlacedByName(o, nodes, remaining, out, depth, round, q.short);
    }
    if round == 0 {
      HasMember(p.deps);
    } else {
      assert StillWaits(p, depth, round - 1);
      var d :| d in p.deps && depth[d] == round - 1;
      PlacedByName(o, nodes, remaining, out, depth, round, d);
    }
    DepthFromDependencies(nodes, p, depth, round);
  }

  lemma PlacedByName(o: Order, nodes: seq<Package>, remaining: seq<Package>, out: seq<Package>, depth: map<string, nat>, round: nat, d: string)
    requires DistinctShorts(nodes) && Rounds(o, nodes, remaining, out, depth, round) && d in depth
    ensures exists q :: q in out && q in nodes && q.short == d
    ensures forall q :: q in nodes && q.short == d ==> q in out
  {
    var q :| q in out && q.short == d;
    assert q in multiset(nodes);
  }

  lemma RoundPlaces(o: Order, nodes: seq<Package>, remaining: seq<Package>, out: seq<Package>, depth: map<string, nat>, round: nat, ready: seq<Package>)
    requires o.Valid() && DistinctShorts(nodes) && Rounds(o, nodes, remaining, out, depth, round)
    requires ready == Sort(o, Ready(remaining, depth.Keys))
    ensures Sorted(o, ready) && multiset(ready) == multiset(Ready(remaining, depth.Keys))
    ensures forall p :: p in ready ==> p in remaining && p.short !in depth && LongestChain(nodes, p, round)
    ensures forall p, d :: p in ready && d in p.deps ==> d in depth
  {
    SortSorts(o, Ready(remaining, depth.Keys));
    forall p | p in ready
      ensures p in remaining && p.short !in depth && LongestChain(nodes, p, round) && forall d :: d in p.deps ==> d in depth
    {
      assert p in multiset(ready);
      ReadyDepth(o, nodes, remaining, out, depth, round, p);
      PlacedTwice(o, nodes, remaining, out, depth, round, p);
    }
  }

  lemma StillWaiting(remaining: seq<Package>, depth: map<string, nat>, shorts: set<string>, round: nat)
    ensures forall p :: p in Blocked(remaining, depth.Keys) ==> StillWaits(p, Extend(depth, shorts, round), round)
  {
    forall p | p in Blocked(remaining, depth.Keys) ensures StillWaits(p, Extend(depth, shorts, round), round) {
      var d :| d in p.deps && d !in depth;
    }
  }

  /** One round keeps the account, and the packages it places are all exactly `round` links deep. */
  lemma RoundKeeps(o: Order, nodes: seq<Package>, remaining: seq<Package>, out: seq<Package>, depth: map<string, nat>, round: nat, ready: seq<Package>)
    requires o.Valid() && DistinctShorts(nodes) && Rounds(o, nodes, remaining, out, depth, round)
    requires ready == Sort(o, Ready(remaining, depth.Keys))
    ensures Rounds(o, nodes, Blocked(remaining, depth.Keys), out + ready, Extend(depth, Shorts(ready), round), round + 1)
  {
    RoundPlaces(o, nodes, remaining, out, depth, round, ready);
    ReadyAndBlocked(remaining, depth.Keys);
    BlockedIsDistinct(remaining, depth.Keys);
    FirstExtends(out, ready);
    BeforeExtends(o, out, depth, round, ready);
    StillWaiting(remaining, depth, Shorts(ready), round);
    DepthsExtend(nodes, out, depth, round, ready);
  }

  /** What still waits is in the order listed, and so are the packages placed that tie. */
  ghost predicate Stable(o: Order, nodes: seq<Package>, remaining: seq<Package>, out: seq<Package>) {
    && (forall a, b :: Comes(nodes, a, b) && a in remaining && b in remaining ==> Comes(remaining, a, b))
    && TiesAsListed(o, nodes, out)
  }

  lemma RoundIsStable(o: Order, nodes: seq<Package>, remaining: seq<Package>, out: seq<Package>, depth: map<string, nat>, round: nat, ready: seq<Package>)
    requires o.Valid() && DistinctShorts(nodes) && Rounds(o, nodes, remaining, out, depth, round)
    requires Stable(o, nodes, remaining, out) && ready == Sort(o, Ready(remaining, depth.Keys))
    ensures Stable(o, nodes, Blocked(remaining, depth.Keys), out + ready)
  {
    var blocked := Blocked(remaining, depth.Keys);
    forall a, b | Comes(nodes, a, b) && a in blocked && b in blocked ensures Comes(blocked, a, b) {
      BlockedKeepsOrder(remaining, depth.Keys, a, b);
    }
    forall a, b | Tied(o, nodes, a, b) && Comes(nodes, a, b) && a in out + ready && b in out + ready
      ensures Comes(out + ready, a, b)
    {
      TieIsStable(o, nodes, remaining, out, depth, round, ready, a, b);
    }
  }

  /** Packages that tie are placed in one round. */
  lemma TieIsStable(o: Order, nodes: seq<Package>, remaining: seq<Package>, out: seq<Package>, depth: map<string, nat>, round: nat,
                    ready: seq<Package>, a: Package, b: Package)
    requires o.Valid() && DistinctShorts(nodes) && Rounds(o, nodes, remaining, out, depth, round)
    requires Stable(o, nodes, remaining, out) && ready == Sort(o, Ready(remaining, depth.Keys))
    requires Tied(o, nodes, a, b) && Comes(nodes, a, b) && a in out + ready && b in out + ready
    ensures Comes(out + ready, a, b)
  {
    RoundPlaces(o, nodes, remaining, out, depth, round, ready);
    var d: nat :| LongestChain(nodes, a, d) && LongestChain(nodes, b, d);
    if a in out {
      LongestChainIsUnique(nodes, a, d, depth[a.short]);
    } else {
      LongestChainIsUnique(nodes, a, d, round);
    }
    if b in out {
      LongestChainIsUnique(nodes, b, d, depth[b.short]);
    } else {
      LongestChainIsUnique(nodes, b, d, round);
      assert a in multiset(ready) && b in multiset(ready);
      ReadyKeepsOrder(remaining, depth.Keys, a, b);
      SortKeepsTies(o, Ready(remaining, depth.Keys), a, b);
    }
    ComesInJoin(out, ready, a, b);
  }

  lemma DepthsExtend(nodes: seq<Package>, out: seq<Package>, depth: map<string, nat>, round: nat, ready: seq<Package>)
    requires depth.Keys == Shorts(out)
    requires forall q :: q in out ==> depth[q.short] < round && LongestChain(nodes, q, depth[q.short])
    requires forall p :: p in ready ==> p.short !in depth && LongestChain(nodes, p, round)
    ensures var depth' := Extend(depth, Shorts(ready), round);
            && depth'.Keys == Shorts(out + ready)
            && forall q :: q in out + ready ==> depth'[q.short] < round + 1 && LongestChain(nodes, q, depth'[q.short])
  {
    var depth' := Extend(depth, Shorts(ready), round);
    assert depth'.Keys == Shorts(out + ready);
    forall q | q in out + ready ensures depth'[q.short] < round + 1 && LongestChain(nodes, q, depth'[q.short]) {
      if q in ready { assert depth'[q.short] == round; } else { assert q in out && depth'[q.short] == depth[q.short]; }
    }
  }

  lemma BeforeExtends(o: Order, out: seq<Package>, depth: map<string, nat>, round: nat, ready: seq<Package>)
    requires Sorted(o, ready) && depth.Keys == Shorts(out)
    requires forall q :: q in out ==> depth[q.short] < round
    requires forall p :: p in ready ==> p.short !in depth
    requires forall i, j :: 0 <= i < j < |out| ==> Before(o, depth, out[i], out[j])
    ensures var all := out + ready;
            forall i, j :: 0 <= i < j < |all| ==> Before(o, Extend(depth, Shorts(ready), round), all[i], all[j])
  {
    var all, depth' := out + ready, Extend(depth, Shorts(ready), round);
    forall q | q in out ensures q.short in depth' && depth'[q.short] == depth[q.short] {}
    forall i, j | 0 <= i < j < |all| ensures Before(o, depth', all[i], all[j]) {
      assert i < |out| ==> all[i] == out[i] && out[i] in out;
      assert i >= |out| ==> all[i] == ready[i - |out|] && ready[i - |out|] in ready;
      assert j < |out| ==> all[j] == out[j] && out[j] in out;
      assert j >= |out| ==> all[j] == ready[j - |out|] && ready[j - |out|] in ready;
    }
  }

  lemma PlacedTwice(o: Order, nodes: seq<Package>, remaining: seq<Package>, out: seq<Package>, depth: map<string, nat>, round: nat, p: Package)
    requires DistinctShorts(nodes) && Rounds(o, nodes, remaining, out, depth, round) && p in remaining
    ensures p.short !in depth
  {
    if p.short in depth {
      assert p in multiset(remaining) && p in multiset(nodes);
      PlacedByName(o, nodes, remaining, out, depth, round, p.short);
      assert p in multiset(out);
      assert multiset(nodes)[p] >= 2;
      OnlyOnce(nodes, p);
    }
  }

  lemma {:induction false} OnlyOnce(nodes: seq<Package>, p: Package)
    requires DistinctShorts(nodes)
    ensures multiset(nodes)[p] <= 1
  {
    if nodes != [] {
      OnlyOnce(nodes[1..], p);
      assert nodes == [nodes[0]] + nodes[1..];
      if nodes[0] == p { assert p !in nodes[1..]; }
    }
  }

  lemma FirstExtends(out: seq<Package>, ready: seq<Package>)
    requires DependenciesFirst(out)
    requires forall p, d :: p in ready && d in p.deps ==> d in Shorts(out)
    ensures DependenciesFirst(out + ready)
  {
    var all := out + ready;
    forall i, d | 0 <= i < |all| && d in all[i].deps ensures exists j :: 0 <= j < i && all[j].short == d {
      if i < |out| {
        var j :| 0 <= j < i && out[j].short == d;
        assert all[j].short == d;
      } else {
        assert all[i] == ready[i - |out|] && all[i] in ready;
        assert d in Shorts(out);
        var p: Package :| p in out && p.short == d;
        var j :| 0 <= j < |out| && out[j] == p;
        assert all[j].short == d;
      }
    }
  }

  /** `a` belongs to a lower layer than `b`, or to the same one and does not compare after it. */
  ghost predicate LayerBefore(o: Order, nodes: seq<Package>, a: Package, b: Package) {
    exists d: nat, e: nat :: LongestChain(nodes, a, d) && LongestChain(nodes, b, e) && (d < e || (d == e && o.Compare(a, b) <= 0))
  }

  ghost predicate IsTopoSort(o: Order, nodes: seq<Package>, s: seq<Package>) {
    && multiset(s) == multiset(nodes)
    && DependenciesFirst(s)
    && (forall i, j :: 0 <= i < j < |s| ==> LayerBefore(o, nodes, s[i], s[j]))
    && TiesAsListed(o, nodes, s)
  }

  ghost predicate HasOrder(nodes: seq<Package>) {
    exists s: seq<Package> :: multiset(s) == multiset(nodes) && DependenciesFirst(s)
  }

  /** A dependency outside the package set, or packages that depend on each other in a ring. */
  ghost predicate CycleOrMissing(nodes: seq<Package>) {
    || (exists p, d :: p in nodes && d in p.deps && forall q :: q in nodes ==> q.short != d)
    || (exists c: seq<Package> :: Chain(nodes, c) && |c| > 1 && c[0] == c[|c| - 1])
  }

  /** The inner loop of `topoSort`: place one round, package by package. */
  method PlaceRound(ready: seq<Package>, done: seq<Package>, was: set<string>, before: seq<Package>)
    returns (out: seq<Package>, placed: set<string>, remaining: seq<Package>)
    ensures out == done + ready && placed == was + Shorts(ready) && remaining == Without(before, Shorts(ready))
  {
    out, placed, remaining := done, was, before;
    WithoutNone(before);
    assert Shorts(ready[..0]) == {};
    for k := 0 to |ready|
      invariant out == done + ready[..k]
      invariant placed == was + Shorts(ready[..k])
      invariant remaining == Without(before, Shorts(ready[..k]))
    {
      var pkg := ready[k];
      assert ready[..k + 1] == ready[..k] + [pkg];
      assert Shorts(ready[..k + 1]) == Shorts(ready[..k]) + {pkg.short};
      WithoutTwice(before, Shorts(ready[..k]), {pkg.short});
      out := out + [pkg];
      placed := placed + {pkg.short};
      remaining := Without(remaining, {pkg.short});
    }
    assert ready[..|ready|] == ready;
  }

  /** `topoSort`; `None` is the error it throws when a round places nothing. */
  method TopoSort(packages: seq<Package>, o: Order) returns (r: Option<seq<Package>>)
    requires o.Valid()
    ensures r.Some? ==> IsTopoSort(o, ByShort(packages), r.value)
    ensures r.None? <==> !HasOrder(ByShort(packages))
    ensures r.None? <==> CycleOrMissing(ByShort(packages))
  {
    ghost var nodes := ByShort(packages);
    ByShortIsDistinct(packages);
    var remaining := ByShort(packages);
    var placed: set<string> := {};
    var out := [];
    ghost var depth: map<string, nat> := map[];
    ghost var round := 0;
    while remaining != []
      invariant placed == depth.Keys && Rounds(o, nodes, remaining, out, depth, round) && Stable(o, nodes, remaining, out)
      decreases |remaining|
    {
      var ready := Sort(o, Ready(remaining, placed));
      RoundResult(o, nodes, remaining, out, depth, round, ready);
      if ready == [] { return None; }
      out, placed, remaining := PlaceRound(ready, out, placed, remaining);
      depth := Extend(depth, Shorts(ready), round);
      round := round + 1;
    }
    AllPlaced(o, nodes, out, depth, round);
    r := Some(out);
  }

  lemma RoundResult(o: Order, nodes: seq<Package>, remaining: seq<Package>, out: seq<Package>, depth: map<string, nat>, round: nat, ready: seq<Package>)
    requires o.Valid() && DistinctShorts(nodes) && Rounds(o, nodes, remaining, out, depth, round) && Stable(o, nodes, remaining, out)
    requires remaining != [] && ready == Sort(o, Ready(remaining, depth.Keys))
    ensures ready == [] ==> !HasOrder(nodes) && CycleOrMissing(nodes)
    ensures ready != [] ==>
              && Rounds(o, nodes, Without(remaining, Shorts(ready)), out + ready, Extend(depth, Shorts(ready), round), round + 1)
              && Stable(o, nodes, Without(remaining, Shorts(ready)), out + ready)
              && |Without(remaining, Shorts(ready))| < |remaining|
  {
    SortSorts(o, Ready(remaining, depth.Keys));
    assert |multiset(ready)| == |multiset(Ready(remaining, depth.Keys))|;
    if ready == [] {
      NothingReadyIsStuck(nodes, remaining, out, depth);
    } else {
      RoundKeeps(o, nodes, remaining, out, depth, round, ready);
      RoundIsStable(o, nodes, remaining, out, depth, round, ready);
      ReadyByName(remaining, depth.Keys, ready);
      WithoutReady(remaining, depth.Keys, Shorts(ready));
      ReadyAndBlocked(remaining, depth.Keys);
      assert |multiset(remaining)| == |multiset(ready)| + |multiset(Blocked(remaining, depth.Keys))|;
    }
  }

  lemma AllPlaced(o: Order, nodes: seq<Package>, out: seq<Package>, depth: map<string, nat>, round: nat)
    requires DistinctShorts(nodes) && Rounds(o, nodes, [], out, depth, round) && Stable(o, nodes, [], out)
    ensures IsTopoSort(o, nodes, out) && HasOrder(nodes) && !CycleOrMissing(nodes)
  {
    assert multiset(out) == multiset(nodes);
    forall i, j | 0 <= i < j < |out| ensures LayerBefore(o, nodes, out[i], out[j]) {
      assert Before(o, depth, out[i], out[j]);
    }
    OrderHasNoCycle(nodes, out);
  }

  lemma ReadyByName(remaining: seq<Package>, placed: set<string>, ready: seq<Package>)
    requires DistinctShorts(remaining) && multiset(ready) == multiset(Ready(remaining, placed))
    ensures forall p :: p in remaining ==> (p.short in Shorts(ready) <==> forall d :: d in p.deps ==> d in placed)
  {
    assert forall p :: p in ready <==> p in multiset(ready);
    forall p | p in remaining ensures p.short in Shorts(ready) <==> forall d :: d in p.deps ==> d in placed {
      if p.short in Shorts(ready) {
        var q :| q in ready && q.short == p.short;
        assert q in Ready(remaining, placed);
      } else {
        assert p !in Ready(remaining, placed) by { assert p !in ready; }
      }
    }
  }

  /** A round that places nothing leaves a stuck group, so there is no order to find. */
  lemma NothingReadyIsStuck(nodes: seq<Package>, remaining: seq<Package>, out: seq<Package>, depth: map<string, nat>)
    requires DistinctShorts(nodes) && multiset(out) + multiset(remaining) == multiset(nodes)
    requires remaining != [] && depth.Keys == Shorts(out) && Ready(remaining, depth.Keys) == []
    ensures !HasOrder(nodes) && CycleOrMissing(nodes)
  {
    var group := set p | p in remaining;
    assert remaining[0] in group;
    forall p | p in group ensures p in nodes && Waits(nodes, group, p) {
      assert p in multiset(nodes);
      assert p !in Ready(remaining, depth.Keys);
      var d :| d in p.deps && d !in depth;
      forall q | q in nodes && q.short == d ensures q in group {
        assert q in multiset(nodes) && q !in out;
      }
    }
    assert Stuck(nodes, group);
    forall s: seq<Package> | multiset(s) == multiset(nodes) ensures !DependenciesFirst(s) { StuckHasNoOrder(nodes, group, s); }
    StuckHasCycle(nodes, group);
  }

  ghost predicate Provided(nodes: seq<Package>, d: string) {
    exists q :: q in nodes && q.short == d
  }

  ghost predicate Complete(nodes: seq<Package>) {
    forall p, d {:trigger Provided(nodes, d), d in p.deps} :: p in nodes && d in p.deps ==> Provided(nodes, d)
  }

  /** Walking along dependencies inside a stuck group either leaves the package set or comes round. */
  lemma StuckHasCycle(nodes: seq<Package>, group: set<Package>)
    requires Stuck(nodes, group)
    ensures CycleOrMissing(nodes)
  {
    if Complete(nodes) {
      var c := Walk(nodes, group, |group|);
      var i, j := Pigeonhole(c, group);
      var ring := c[i..j + 1];
      forall k | 0 <= k < |ring| - 1 ensures ring[k + 1].short in ring[k].deps {
        assert ring[k] == c[i + k] && ring[k + 1] == c[i + k + 1];
      }
      assert Chain(nodes, ring);
    }
  }

  lemma {:induction false} Walk(nodes: seq<Package>, group: set<Package>, k: nat) returns (c: seq<Package>)
    requires Stuck(nodes, group)
    requires Complete(nodes)
    ensures Chain(nodes, c) && |c| == k + 1 && forall p :: p in c ==> p in group
  {
    if k == 0 {
      var p :| p in group;
      c := [p];
    } else {
      var before := Walk(nodes, group, k - 1);
      var last := before[k - 1];
      assert last in before;
      assert Waits(nodes, group, last);
      var d :| d in last.deps && forall q :: q in nodes && q.short == d ==> q in group;
      assert Provided(nodes, d);
      var q :| q in nodes && q.short == d;
      c := before + [q];
    }
  }

  lemma {:induction false} Pigeonhole(c: seq<Package>, group: set<Package>) returns (i: nat, j: nat)
    requires |c| > |group| && forall p :: p in c ==> p in group
    ensures i < j < |c| && c[i] == c[j]
    decreases |c|
  {
    var last := c[|c| - 1];
    if k :| 0 <= k < |c| - 1 && c[k] == last {
      i, j := k, |c| - 1;
    } else {
      assert last in c;
      i, j := Pigeonhole(c[..|c| - 1], group - {last});
    }
  }

  lemma OrderHasNoCycle(nodes: seq<Package>, s: seq<Package>)
    requires DistinctShorts(nodes) && multiset(s) == multiset(nodes) && DependenciesFirst(s)
    ensures HasOrder(nodes) && !CycleOrMissing(nodes)
  {
    forall p, d | p in nodes && d in p.deps ensures exists q :: q in nodes && q.short == d {
      assert p in multiset(s);
      var i :| 0 <= i < |s| && s[i] == p;
      var j :| 0 <= j < i && s[j].short == d;
      assert s[j] in multiset(s);
    }
    forall c: seq<Package> | Chain(nodes, c) && |c| > 1 ensures c[0] != c[|c| - 1] {
      assert c[0] in nodes && c[0] in multiset(s);
      var i :| 0 <= i < |s| && s[i] == c[0];
      ChainGoesBack(nodes, s, c, i, |c| - 1);
    }
  }

  /** In an order, following a chain moves strictly towards the front, so it cannot return. */
  lemma {:induction false} ChainGoesBack(nodes: seq<Package>, s: seq<Package>, c: seq<Package>, i: nat, k: nat)
    requires DistinctShorts(nodes) && multiset(s) == multiset(nodes) && DependenciesFirst(s)
    requires Chain(nodes, c) && i < |s| && s[i] == c[0] && 0 < k < |c|
    ensures exists j :: 0 <= j < i && s[j] == c[k]
    ensures c[k] != c[0]
  {
    var d := c[k].short;
    var at: nat := i;
    if k > 1 {
      ChainGoesBack(nodes, s, c, i, k - 1);
      at :| 0 <= at < i && s[at] == c[k - 1];
    }
    var j :| 0 <= j < at && s[j].short == d;
    assert s[j] in multiset(s) && c[k] in nodes;
    assert s[j] == c[k];
    if s[j] == s[i] { AppearsOnce(nodes, s, j, i); }
  }

  lemma AppearsOnce(nodes: seq<Package>, s: seq<Package>, i: nat, j: nat)
    requires DistinctShorts(nodes) && multiset(s) == multiset(nodes) && i < j < |s|
    ensures s[i] != s[j]
  {
    OnlyOnce(nodes, s[i]);
    assert s == s[..j] + [s[j]] + s[j + 1..];
    assert s[i] in s[..j];
    assert multiset(s) == multiset(s[..j]) + multiset{s[j]} + multiset(s[j + 1..]);
  }

  /** Nothing that stands before something also stands after it. */
  lemma ComesOnce(nodes: seq<Package>, s: seq<Package>, a: Package, b: Package)
    requires DistinctShorts(nodes) && multiset(s) == multiset(nodes) && Comes(s, a, b)
    ensures a != b && !Comes(s, b, a)
  {
    var i, j :| 0 <= i < j < |s| && s[i] == a && s[j] == b;
    AppearsOnce(nodes, s, i, j);
    if k, l :| 0 <= k < l < |s| && s[k] == b && s[l] == a {
      if k < j { AppearsOnce(nodes, s, k, j); }
      if j < k { AppearsOnce(nodes, s, j, k); }
      if i < l { AppearsOnce(nodes, s, i, l); }
    }
  }

  /** `a` belongs to a lower layer than `b`, or to the same one and compares before it, or ties with it and is listed before it. */
  ghost predicate Ahead(o: Order, nodes: seq<Package>, a: Package, b: Package) {
    exists d: nat, e: nat :: LongestChain(nodes, a, d) && LongestChain(nodes, b, e) && AheadAt(o, nodes, a, b, d, e)
  }

  ghost predicate AheadAt(o: Order, nodes: seq<Package>, a: Package, b: Package, d: nat, e: nat) {
    d < e || (d == e && (o.Compare(a, b) < 0 || (o.Compare(a, b) == 0 && Comes(nodes, a, b))))
  }

  lemma AheadIsOneWay(o: Order, nodes: seq<Package>, a: Package, b: Package)
    requires o.Valid() && DistinctShorts(nodes) && Ahead(o, nodes, a, b)
    ensures !Ahead(o, nodes, b, a)
  {
    var d, e :| LongestChain(nodes, a, d) && LongestChain(nodes, b, e) && AheadAt(o, nodes, a, b, d, e);
    if e', d' :| LongestChain(nodes, b, e') && LongestChain(nodes, a, d') && AheadAt(o, nodes, b, a, e', d') {
      LongestChainIsUnique(nodes, a, d, d');
      LongestChainIsUnique(nodes, b, e, e');
      o.CompareIsTotal(a, b);
      o.CompareIsTotal(b, a);
      if Comes(nodes, a, b) { ComesOnce(nodes, nodes, a, b); }
    }
  }

  /** Packages that tie stand in a sorted list as they are listed. */
  lemma TieIsListed(o: Order, nodes: seq<Package>, s: seq<Package>, a: Package, b: Package)
    requires o.Valid() && DistinctShorts(nodes) && multiset(s) == multiset(nodes) && TiesAsListed(o, nodes, s)
    requires Tied(o, nodes, a, b) && Comes(s, a, b)
    ensures Comes(nodes, a, b)
  {
    ComesOnce(nodes, s, a, b);
    SameMembers(nodes, s);
    ComesOrComes(nodes, a, b);
    if Comes(nodes, b, a) {
      o.CompareIsTotal(a, b);
      o.CompareIsTotal(b, a);
      assert Tied(o, nodes, b, a);
    }
  }

  lemma LayerIsAhead(o: Order, nodes: seq<Package>, s: seq<Package>, a: Package, b: Package)
    requires o.Valid() && DistinctShorts(nodes) && multiset(s) == multiset(nodes) && TiesAsListed(o, nodes, s)
    requires LayerBefore(o, nodes, a, b) && Comes(s, a, b)
    ensures Ahead(o, nodes, a, b)
  {
    var d, e :| LongestChain(nodes, a, d) && LongestChain(nodes, b, e) && (d < e || (d == e && o.Compare(a, b) <= 0));
    if d == e && o.Compare(a, b) == 0 {
      assert Tied(o, nodes, a, b);
      TieIsListed(o, nodes, s, a, b);
    }
    assert AheadAt(o, nodes, a, b, d, e);
  }

  /** A sorted list stands in that order throughout. */
  lemma SortedIsAhead(o: Order, nodes: seq<Package>, s: seq<Package>, i: nat, j: nat)
    requires o.Valid() && DistinctShorts(nodes) && IsTopoSort(o, nodes, s) && i < j < |s|
    ensures Ahead(o, nodes, s[i], s[j])
  {
    assert LayerBefore(o, nodes, s[i], s[j]) && Comes(s, s[i], s[j]);
    LayerIsAhead(o, nodes, s, s[i], s[j]);
  }

  lemma SameHead(o: Order, nodes: seq<Package>, s: seq<Package>, t: seq<Package>)
    requires o.Valid() && DistinctShorts(nodes) && multiset(s) == multiset(t) && s != [] && t != []
    requires forall j :: 0 < j < |s| ==> Ahead(o, nodes, s[0], s[j])
    requires forall j :: 0 < j < |t| ==> Ahead(o, nodes, t[0], t[j])
    ensures s[0] == t[0]
  {
    assert s[0] in multiset(t) && t[0] in multiset(s);
    var j :| 0 <= j < |t| && t[j] == s[0];
    var i :| 0 <= i < |s| && s[i] == t[0];
    if i > 0 && j > 0 { AheadIsOneWay(o, nodes, s[0], t[0]); }
  }

  lemma SameTail(s: seq<Package>, t: seq<Package>)
    requires multiset(s) == multiset(t) && s != [] && t != [] && s[0] == t[0]
    ensures multiset(s[1..]) == multiset(t[1..])
  {
    assert s == [s[0]] + s[1..] && t == [t[0]] + t[1..];
    assert multiset(s[1..]) == multiset(s) - multiset{s[0]};
    assert multiset(t[1..]) == multiset(t) - multiset{t[0]};
  }

  /** Only one list stands in that order. */
  lemma {:induction false} OneTopoSort(o: Order, nodes: seq<Package>, s: seq<Package>, t: seq<Package>)
    requires o.Valid() && DistinctShorts(nodes) && multiset(s) == multiset(t)
    requires forall i, j :: 0 <= i < j < |s| ==> Ahead(o, nodes, s[i], s[j])
    requires forall i, j :: 0 <= i < j < |t| ==> Ahead(o, nodes, t[i], t[j])
    ensures s == t
  {
    assert |multiset(s)| == |multiset(t)|;
    if s != [] {
      SameHead(o, nodes, s, t);
      SameTail(s, t);
      OneTopoSort(o, nodes, s[1..], t[1..]);
    }
  }

  /** Layers depend on which packages there are, not on how they are listed. */
  lemma LayersIgnoreListing(nodes: seq<Package>, shuffled: seq<Package>, a: Package, d: nat)
    requires forall p :: p in nodes <==> p in shuffled
    ensures LongestChain(shuffled, a, d) <==> LongestChain(nodes, a, d)
  {
    forall c: seq<Package> ensures Chain(nodes, c) <==> Chain(shuffled, c) {}
  }

  lemma TiesIgnoreListing(o: Order, nodes: seq<Package>, shuffled: seq<Package>, a: Package, b: Package)
    requires (forall p :: p in nodes <==> p in shuffled) && Tied(o, nodes, a, b)
    ensures Tied(o, shuffled, a, b)
  {
    var d: nat :| LongestChain(nodes, a, d) && LongestChain(nodes, b, d);
    LayersIgnoreListing(nodes, shuffled, a, d);
    LayersIgnoreListing(nodes, shuffled, b, d);
  }

  lemma AheadIgnoresListing(o: Order, nodes: seq<Package>, shuffled: seq<Package>, a: Package, b: Package)
    requires (forall p :: p in nodes <==> p in shuffled) && TiesAlike(o, nodes, shuffled) && Ahead(o, shuffled, a, b)
    ensures Ahead(o, nodes, a, b)
  {
    var d, e :| LongestChain(shuffled, a, d) && LongestChain(shuffled, b, e) && AheadAt(o, shuffled, a, b, d, e);
    LayersIgnoreListing(nodes, shuffled, a, d);
    LayersIgnoreListing(nodes, shuffled, b, e);
    assert d == e && o.Compare(a, b) == 0 ==> Tied(o, nodes, a, b);
    assert AheadAt(o, nodes, a, b, d, e);
  }

  lemma SameMembers(s: seq<Package>, t: seq<Package>)
    requires multiset(s) == multiset(t)
    ensures forall p :: p in s <==> p in t
  {
    assert forall p :: p in s <==> p in multiset(s);
    assert forall p :: p in t <==> p in multiset(t);
  }

  lemma SameWhenAlike(o: Order, nodes: seq<Package>, shuffled: seq<Package>, s: seq<Package>, t: seq<Package>)
    requires o.Valid() && DistinctShorts(nodes) && DistinctShorts(shuffled) && multiset(shuffled) == multiset(nodes)
    requires IsTopoSort(o, nodes, s) && IsTopoSort(o, shuffled, t) && TiesAlike(o, nodes, shuffled)
    ensures s == t
  {
    SameMembers(nodes, shuffled);
    forall i, j | 0 <= i < j < |s| ensures Ahead(o, nodes, s[i], s[j]) { SortedIsAhead(o, nodes, s, i, j); }
    forall i, j | 0 <= i < j < |t| ensures Ahead(o, nodes, t[i], t[j]) {
      SortedIsAhead(o, shuffled, t, i, j);
      AheadIgnoresListing(o, nodes, shuffled, t[i], t[j]);
    }
    OneTopoSort(o, nodes, s, t);
  }

  lemma AlikeWhenSame(o: Order, nodes: seq<Package>, shuffled: seq<Package>, s: seq<Package>, a: Package, b: Package)
    requires o.Valid() && DistinctShorts(nodes) && DistinctShorts(shuffled)
    requires multiset(s) == multiset(nodes) && TiesAsListed(o, nodes, s)
    requires multiset(s) == multiset(shuffled) && TiesAsListed(o, shuffled, s)
    requires Tied(o, nodes, a, b) && Comes(nodes, a, b)
    ensures Comes(shuffled, a, b)
  {
    SameMembers(nodes, s);
    SameMembers(shuffled, s);
    assert Comes(s, a, b);
    TiesIgnoreListing(o, nodes, shuffled, a, b);
    TieIsListed(o, shuffled, s, a, b);
  }

  /** Two runs give the same list exactly when they keep the same packages, and list those that tie in the same order. */
  lemma InputOrderIsIrrelevant(o: Order, packages: seq<Package>, shuffled: seq<Package>, s: seq<Package>, t: seq<Package>)
    requires o.Valid() && IsTopoSort(o, ByShort(packages), s) && IsTopoSort(o, ByShort(shuffled), t)
    ensures s == t <==> multiset(ByShort(packages)) == multiset(ByShort(shuffled)) && TiesAlike(o, ByShort(packages), ByShort(shuffled))
  {
    var n, m := ByShort(packages), ByShort(shuffled);
    ByShortIsDistinct(packages);
    ByShortIsDistinct(shuffled);
    if multiset(n) == multiset(m) {
      if TiesAlike(o, n, m) { SameWhenAlike(o, n, m, s, t); }
      if s == t {
        SameMembers(n, m);
        forall a, b | Tied(o, n, a, b) ensures Comes(n, a, b) <==> Comes(m, a, b) {
          if Comes(n, a, b) { AlikeWhenSame(o, n, m, s, a, b); }
          if Comes(m, a, b) {
            TiesIgnoreListing(o, n, m, a, b);
            AlikeWhenSame(o, m, n, s, a, b);
          }
        }
      }
    }
  }
}
