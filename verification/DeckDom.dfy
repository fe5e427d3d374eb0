/** Child lists of the document, as deck-stage.js changes them: `remove`, `nextSibling`, `insertBefore`. */
module DomList {
  import opened Prelude

  function IndexFrom<T(==)>(s: seq<T>, x: T, from: nat): (k: nat)
    requires from <= |s| && forall i :: 0 <= i < from ==> s[i] != x
    ensures k <= |s| && (k < |s| <==> x in s) && (k < |s| ==> s[k] == x)
    decreases |s| - from
  {
    if from == |s| || s[from] == x then from else IndexFrom(s, x, from + 1)
  }

  /** The position of `x`, or the length when it is not a child. */
  function IndexOf<T(==)>(s: seq<T>, x: T): (k: nat)
    ensures k <= |s| && (k < |s| <==> x in s) && (k < |s| ==> s[k] == x)
  {
    IndexFrom(s, x, 0)
  }

  /** `x.remove()`. */
  function Without<T(==)>(s: seq<T>, x: T): seq<T> {
    var k := IndexOf(s, x);
    if k == |s| then s else s[..k] + s[k + 1..]
  }

  /** A detached node has no sibling. */
  function NextSibling<T(==)>(s: seq<T>, x: T): Option<T> {
    var k := IndexOf(s, x);
    if k + 1 < |s| then Some(s[k + 1]) else None
  }

  /** `insertBefore(node, ref)`; None when it throws because `ref` is not a child. */
  function InsertBefore<T(==)>(s: seq<T>, node: T, ref: Option<T>): Option<seq<T>> {
    match ref
    case None => Some(Without(s, node) + [node])
    case Some(r) =>
      if r !in s then None
      else if r == node then Some(s)
      else
        var rest := Without(s, node);
        var k := IndexOf(rest, r);
        Some(rest[..k] + [node] + rest[k..])
  }

  /** Take the element at `i` out and put it back at `j`. */
  function MoveElement<T>(s: seq<T>, i: nat, j: nat): (r: seq<T>)
    requires i < |s| && j < |s|
    ensures |r| == |s| && r[j] == s[i]
  {
    var rest := s[..i] + s[i + 1..];
    rest[..j] + [s[i]] + rest[j..]
  }

  /** Where the element at `k` goes when `i` moves to `j`. */
  function MovedTo(i: nat, j: nat, k: nat): int {
    if k == i then j else if i < k <= j then k - 1 else if j <= k < i then k + 1 else k
  }

  lemma MovedToIs<T>(s: seq<T>, i: nat, j: nat, k: nat)
    requires i < |s| && j < |s| && k < |s|
    ensures 0 <= MovedTo(i, j, k) < |s| && MoveElement(s, i, j)[MovedTo(i, j, k)] == s[k]
  {}

  lemma MoveNowhere<T>(s: seq<T>, i: nat)
    requires i < |s|
    ensures MoveElement(s, i, i) == s
  {
    var rest := s[..i] + s[i + 1..];
    assert rest[..i] == s[..i] && rest[i..] == s[i + 1..];
  }

  lemma MoveKeepsDistinct<T>(s: seq<T>, i: nat, j: nat)
    requires Distinct(s) && i < |s| && j < |s|
    ensures Distinct(MoveElement(s, i, j))
  {}

  lemma IndexOfDistinct<T>(s: seq<T>, k: nat)
    requires Distinct(s) && k < |s|
    ensures IndexOf(s, s[k]) == k
  {}

  lemma WithoutIs<T>(s: seq<T>, x: T, y: T)
    requires Distinct(s)
    ensures y in Without(s, x) <==> y in s && y != x
    ensures Distinct(Without(s, x))
  {
    var k := IndexOf(s, x);
    if y in s && y != x {
      var i := IndexOf(s, y);
      assert Without(s, x)[if i < k then i else i - 1] == y;
    }
  }

  lemma InsertedMembers<T>(rest: seq<T>, k: nat, node: T, y: T)
    requires k <= |rest|
    ensures y in rest[..k] + [node] + rest[k..] <==> y in rest || y == node
  {
    if y in rest {
      var i := IndexOf(rest, y);
      assert (rest[..k] + [node] + rest[k..])[if i < k then i else i + 1] == y;
    }
    assert (rest[..k] + [node] + rest[k..])[k] == node;
  }

  lemma InsertBeforeIs<T>(s: seq<T>, node: T, ref: Option<T>, y: T)
    requires Distinct(s) && InsertBefore(s, node, ref).Some?
    ensures y in InsertBefore(s, node, ref).value <==> y in s || y == node
  {
    WithoutIs(s, node, y);
    if ref.Some? && ref.value != node {
      var rest := Without(s, node);
      var k := IndexOf(rest, ref.value);
      InsertedMembers(rest, k, node, y);
    }
  }

  lemma InsertBeforeDistinct<T>(s: seq<T>, node: T, ref: Option<T>)
    requires Distinct(s) && InsertBefore(s, node, ref).Some?
    ensures Distinct(InsertBefore(s, node, ref).value)
  {
    WithoutIs(s, node, node);
    var rest := Without(s, node);
    if ref.Some? && ref.value != node {
      var k := IndexOf(rest, ref.value);
      var r := rest[..k] + [node] + rest[k..];
      forall a, b | 0 <= a < b < |r| ensures r[a] != r[b] {
        assert a != k ==> r[a] in rest;
        assert b != k ==> r[b] in rest;
      }
    }
  }

  lemma TakenOut<T>(before: seq<T>, x: T, after: seq<T>)
    requires Distinct(before + [x] + after)
    ensures Without(before + [x] + after, x) == before + after
  {
    assert (before + [x] + after)[|before|] == x;
    IndexOfDistinct(before + [x] + after, |before|);
  }

  /** Where an insertion puts the node: right before `ref`, or last. */
  lemma InsertedAt<T>(s: seq<T>, node: T, ref: Option<T>) returns (before: seq<T>, after: seq<T>)
    requires Distinct(s) && InsertBefore(s, node, ref).Some? && ref != Some(node)
    ensures InsertBefore(s, node, ref) == Some(before + [node] + after) && Without(s, node) == before + after
    ensures if ref.Some? then after != [] && after[0] == ref.value else after == []
  {
    var rest := Without(s, node);
    WithoutIs(s, node, node);
    if ref.Some? { WithoutIs(s, node, ref.value); }
    var k := if ref.Some? then IndexOf(rest, ref.value) else |rest|;
    before, after := rest[..k], rest[k..];
    assert rest == before + after && (ref.None? ==> rest + [node] == before + [node] + after);
  }

  /** Insertion disturbs nothing but the node inserted. */
  lemma InsertBeforeKeepsOthers<T>(s: seq<T>, node: T, ref: Option<T>)
    requires Distinct(s) && InsertBefore(s, node, ref).Some?
    ensures Without(InsertBefore(s, node, ref).value, node) == Without(s, node)
  {
    InsertBeforeDistinct(s, node, ref);
    if ref != Some(node) {
      var before, after := InsertedAt(s, node, ref);
      TakenOut(before, node, after);
    }
  }
}

module SlideList {
  import opened Prelude
  import opened DomList

  /** A child of the deck: a run of text or an element; `id` is its identity. */
  datatype Node = Text(id: nat) | Element(id: nat, tag: string)

  predicate IsSlide(node: Node) {
    node.Element? && node.tag !in {"TEMPLATE", "SCRIPT", "STYLE"}
  }

  function SlidesUpTo(children: seq<Node>, n: nat): seq<Node>
    requires n <= |children|
  {
    if n == 0 then []
    else SlidesUpTo(children, n - 1) + if IsSlide(children[n - 1]) then [children[n - 1]] else []
  }

  /** The slides among the children, in order. */
  function SlidesOf(children: seq<Node>): seq<Node> {
    SlidesUpTo(children, |children|)
  }

  lemma {:induction false} SlidesOfConcat(a: seq<Node>, b: seq<Node>, n: nat)
    requires n <= |b|
    ensures SlidesUpTo(a + b, |a| + n) == SlidesOf(a) + SlidesUpTo(b, n)
  {
    if n == 0 {
      SlidesAreLocal(a + b, a, |a|);
    } else {
      SlidesOfConcat(a, b, n - 1);
    }
  }

  lemma {:induction false} SlidesAreLocal(a: seq<Node>, b: seq<Node>, n: nat)
    requires n <= |a| && n <= |b| && forall k :: 0 <= k < n ==> a[k] == b[k]
    ensures SlidesUpTo(a, n) == SlidesUpTo(b, n)
  {
    if n > 0 { SlidesAreLocal(a, b, n - 1); }
  }

  lemma SlidesOfJoin(a: seq<Node>, b: seq<Node>)
    ensures SlidesOf(a + b) == SlidesOf(a) + SlidesOf(b)
  {
    SlidesOfConcat(a, b, |b|);
  }

  lemma {:induction false} SlidesUpToHolds(children: seq<Node>, n: nat, x: Node)
    requires n <= |children|
    ensures x in SlidesUpTo(children, n) <==> IsSlide(x) && exists k :: 0 <= k < n && children[k] == x
  {
    if n > 0 { SlidesUpToHolds(children, n - 1, x); }
  }

  lemma SlidesAreChildren(children: seq<Node>, x: Node)
    ensures x in SlidesOf(children) <==> x in children && IsSlide(x)
  {
    SlidesUpToHolds(children, |children|, x);
  }

  lemma {:induction false} SlidesUpToDistinct(children: seq<Node>, n: nat)
    requires Distinct(children) && n <= |children|
    ensures Distinct(SlidesUpTo(children, n))
  {
    if n > 0 {
      SlidesUpToDistinct(children, n - 1);
      SlidesUpToHolds(children, n - 1, children[n - 1]);
    }
  }

  lemma SlidesAreDistinct(children: seq<Node>)
    requires Distinct(children)
    ensures Distinct(SlidesOf(children))
  {
    SlidesUpToDistinct(children, |children|);
  }

  /** The children up to `n` that hold the first `k` slides, right before the `k`th. */
  lemma {:induction false} PlaceOfSlide(children: seq<Node>, n: nat, k: nat) returns (p: nat)
    requires n <= |children| && k < |SlidesUpTo(children, n)|
    ensures p < n && children[p] == SlidesUpTo(children, n)[k] && IsSlide(children[p])
    ensures SlidesUpTo(children, p) == SlidesUpTo(children, n)[..k]
  {
    if k == |SlidesUpTo(children, n - 1)| {
      p := n - 1;
    } else {
      p := PlaceOfSlide(children, n - 1, k);
    }
  }

  /** The children around the `k`th slide, which hold the slides around it. */
  lemma SplitAtSlide(children: seq<Node>, k: nat) returns (before: seq<Node>, after: seq<Node>)
    requires k < |SlidesOf(children)|
    ensures children == before + [SlidesOf(children)[k]] + after
    ensures SlidesOf(before) == SlidesOf(children)[..k] && SlidesOf(after) == SlidesOf(children)[k + 1..]
    ensures IsSlide(SlidesOf(children)[k])
  {
    var slides := SlidesOf(children);
    var p := PlaceOfSlide(children, |children|, k);
    before, after := children[..p], children[p + 1..];
    SlidesAreLocal(before, children, p);
    SlidesAround(before, slides[k], after);
  }

  lemma SlidesAround(before: seq<Node>, x: Node, after: seq<Node>)
    ensures SlidesOf(before + [x] + after) == SlidesOf(before) + (if IsSlide(x) then [x] else []) + SlidesOf(after)
  {
    SlidesOfJoin(before + [x], after);
    SlidesOfJoin(before, [x]);
    assert SlidesUpTo([x], 0) == [];
  }

  lemma RemoveInDom(children: seq<Node>, i: nat)
    requires Distinct(children) && i < |SlidesOf(children)|
    ensures var slides := SlidesOf(children);
            SlidesOf(Without(children, slides[i])) == slides[..i] + slides[i + 1..]
  {
    var before, after := SplitAtSlide(children, i);
    TakenOut(before, SlidesOf(children)[i], after);
    SlidesOfJoin(before, after);
  }

  /** The node `_moveSlide` inserts before. */
  function MoveReference(children: seq<Node>, slides: seq<Node>, i: nat, j: nat): Option<Node>
    requires j < |slides|
  {
    if j < i then Some(slides[j]) else NextSibling(children, slides[j])
  }

  /** Inserting `x` before what follows a later child `y` puts it right after `y`. */
  lemma InsertedAfter(a: seq<Node>, x: Node, b: seq<Node>, y: Node, c: seq<Node>)
    requires Distinct(a + [x] + b + [y] + c)
    ensures InsertBefore(a + [x] + b + [y] + c, x, NextSibling(a + [x] + b + [y] + c, y)) == Some(a + b + [y] + [x] + c)
  {
    var children, rest, q := a + [x] + b + [y] + c, a + b + [y] + c, |a| + 1 + |b|;
    assert Without(children, x) == rest && Distinct(rest) by {
      assert children == a + [x] + (b + [y] + c) && rest == a + (b + [y] + c);
      TakenOut(a, x, b + [y] + c);
      WithoutIs(children, x, x);
    }
    assert NextSibling(children, y) == if c == [] then None else Some(c[0]) by {
      assert children[q] == y && (c != [] ==> children[q + 1] == c[0]);
      IndexOfDistinct(children, q);
    }
    AfterPlace(rest, a + b + [y], c, x);
  }

  /** Inserting a new `x` before the first of `c`, or at the end when there is none. */
  lemma AfterPlace(rest: seq<Node>, front: seq<Node>, c: seq<Node>, x: Node)
    requires Distinct(rest) && rest == front + c
    ensures c == [] ==> rest + [x] == front + [x] + c
    ensures c != [] ==> IndexOf(rest, c[0]) == |front| && rest[..|front|] + [x] + rest[|front|..] == front + [x] + c
  {
    if c != [] {
      assert rest[|front|] == c[0];
      IndexOfDistinct(rest, |front|);
    }
  }

  /** Inserting `y` before an earlier child `x`. */
  lemma InsertedBefore(a: seq<Node>, x: Node, b: seq<Node>, y: Node, c: seq<Node>)
    requires Distinct(a + [x] + b + [y] + c)
    ensures InsertBefore(a + [x] + b + [y] + c, y, Some(x)) == Some(a + [y] + [x] + b + c)
  {
    var children, rest := a + [x] + b + [y] + c, a + [x] + b + c;
    assert Without(children, y) == rest && Distinct(rest) by {
      TakenOut(a + [x] + b, y, c);
      WithoutIs(children, y, y);
    }
    assert rest == a + ([x] + b + c) && children[|a|] == x && children[|a| + 1 + |b|] == y;
    AfterPlace(rest, a, [x] + b + c, y);
    assert a + [y] + ([x] + b + c) == a + [y] + [x] + b + c;
  }

  /** The children around two slides. */
  lemma SplitAtTwo(children: seq<Node>, i: nat, j: nat) returns (a: seq<Node>, b: seq<Node>, c: seq<Node>)
    requires i < j < |SlidesOf(children)|
    ensures var slides := SlidesOf(children);
            && IsSlide(slides[i]) && IsSlide(slides[j])
            && children == a + [slides[i]] + b + [slides[j]] + c
            && slides == SlidesOf(a) + [slides[i]] + SlidesOf(b) + [slides[j]] + SlidesOf(c)
            && |SlidesOf(a)| == i && |SlidesOf(b)| == j - i - 1
  {
    var slides := SlidesOf(children);
    var front;
    front, c := SplitAtSlide(children, j);
    a, b := SplitAtSlide(front, i);
    assert slides == SlidesOf(front) + [slides[j]] + SlidesOf(c);
  }

  lemma MoveForwardInFive<T>(s: seq<T>, i: nat, j: nat, a: seq<T>, x: T, b: seq<T>, y: T, c: seq<T>)
    requires s == a + [x] + b + [y] + c && i == |a| && j == |a| + 1 + |b|
    ensures MoveElement(s, i, j) == a + b + [y] + [x] + c
  {
    assert s[..i] + s[i + 1..] == a + b + [y] + c;
  }

  lemma MoveBackInFive<T>(s: seq<T>, i: nat, j: nat, a: seq<T>, x: T, b: seq<T>, y: T, c: seq<T>)
    requires s == a + [x] + b + [y] + c && j == |a| && i == |a| + 1 + |b|
    ensures MoveElement(s, i, j) == a + [y] + [x] + b + c
  {
    assert s[..i] + s[i + 1..] == a + [x] + b + c;
  }

  lemma ForwardSlides(a: seq<Node>, x: Node, b: seq<Node>, y: Node, c: seq<Node>)
    requires IsSlide(x) && IsSlide(y)
    ensures SlidesOf(a + b + [y] + [x] + c) == SlidesOf(a) + SlidesOf(b) + [y] + [x] + SlidesOf(c)
  {
    SlidesAround(a + b + [y], x, c);
    SlidesOfJoin(a + b, [y]);
    SlidesOfJoin(a, b);
    SlidesOfOne(y);
  }

  lemma BackSlides(a: seq<Node>, x: Node, b: seq<Node>, y: Node, c: seq<Node>)
    requires IsSlide(x) && IsSlide(y)
    ensures SlidesOf(a + [y] + [x] + b + c) == SlidesOf(a) + [y] + [x] + SlidesOf(b) + SlidesOf(c)
  {
    SlidesOfJoin(a + [y] + [x] + b, c);
    SlidesAround(a + [y], x, b);
    SlidesOfJoin(a, [y]);
    SlidesOfOne(y);
  }

  lemma SlidesOfOne(x: Node)
    requires IsSlide(x)
    ensures SlidesOf([x]) == [x]
  {
    assert SlidesUpTo([x], 0) == [];
  }

  /** The child list after a move forward, and the slides in it as parts of the slides before. */
  lemma ForwardShape(children: seq<Node>, slides: seq<Node>, i: nat, j: nat)
    returns (moved: seq<Node>, a: seq<Node>, b: seq<Node>, c: seq<Node>)
    requires Distinct(children) && slides == SlidesOf(children) && i < j < |slides|
    ensures InsertBefore(children, slides[i], NextSibling(children, slides[j])) == Some(moved)
    ensures slides == a + [slides[i]] + b + [slides[j]] + c && |a| == i && |b| == j - i - 1
    ensures SlidesOf(moved) == a + b + [slides[j]] + [slides[i]] + c
  {
    var x, y := slides[i], slides[j];
    var a', b', c' := SplitAtTwo(children, i, j);
    moved := a' + b' + [y] + [x] + c';
    a, b, c := SlidesOf(a'), SlidesOf(b'), SlidesOf(c');
    InsertedAfter(a', x, b', y, c');
    ForwardSlides(a', x, b', y, c');
  }

  lemma MoveForwardInDom(children: seq<Node>, slides: seq<Node>, i: nat, j: nat) returns (moved: seq<Node>)
    requires Distinct(children) && slides == SlidesOf(children) && i < j < |slides|
    ensures InsertBefore(children, slides[i], NextSibling(children, slides[j])) == Some(moved)
    ensures SlidesOf(moved) == MoveElement(slides, i, j)
  {
    var a, b, c;
    moved, a, b, c := ForwardShape(children, slides, i, j);
    MoveForwardInFive(slides, i, j, a, slides[i], b, slides[j], c);
  }

  lemma BackShape(children: seq<Node>, slides: seq<Node>, i: nat, j: nat)
    returns (moved: seq<Node>, a: seq<Node>, b: seq<Node>, c: seq<Node>)
    requires Distinct(children) && slides == SlidesOf(children) && j < i < |slides|
    ensures InsertBefore(children, slides[i], Some(slides[j])) == Some(moved)
    ensures slides == a + [slides[j]] + b + [slides[i]] + c && |a| == j && |b| == i - j - 1
    ensures SlidesOf(moved) == a + [slides[i]] + [slides[j]] + b + c
  {
    var x, y := slides[j], slides[i];
    var a', b', c' := SplitAtTwo(children, j, i);
    moved := a' + [y] + [x] + b' + c';
    a, b, c := SlidesOf(a'), SlidesOf(b'), SlidesOf(c');
    InsertedBefore(a', x, b', y, c');
    BackSlides(a', x, b', y, c');
  }

  lemma MoveBackInDom(children: seq<Node>, slides: seq<Node>, i: nat, j: nat) returns (moved: seq<Node>)
    requires Distinct(children) && slides == SlidesOf(children) && j < i < |slides|
    ensures InsertBefore(children, slides[i], Some(slides[j])) == Some(moved)
    ensures SlidesOf(moved) == MoveElement(slides, i, j)
  {
    var a, b, c;
    moved, a, b, c := BackShape(children, slides, i, j);
    MoveBackInFive(slides, i, j, a, slides[j], b, slides[i], c);
  }

  /** However text, scripts and styles are mixed in, the insertion moves exactly the one slide to exactly its new place. */
  lemma MoveInDom(children: seq<Node>, i: nat, j: nat)
    requires Distinct(children) && i < |SlidesOf(children)| && j < |SlidesOf(children)| && i != j
    ensures var slides := SlidesOf(children);
            var moved := InsertBefore(children, slides[i], MoveReference(children, slides, i, j));
            moved.Some? && SlidesOf(moved.value) == MoveElement(slides, i, j)
  {
    var slides := SlidesOf(children);
    if i < j {
      var moved := MoveForwardInDom(children, slides, i, j);
    } else {
      var moved := MoveBackInDom(children, slides, i, j);
    }
  }
}
