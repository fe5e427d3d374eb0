/**
 The thumbnail rail of deck-stage.js: the reconcile pass of `_renderRail` (lines 1969-2036), `_syncRail`
 (2345-2357), and where a drop lands (1090-1104, 2107-2123, 2310-2343).
 */
module RailState {
  import opened Prelude
  import opened DomList
  import opened SlideList

  /** A thumb keeps its identity and its slide; its place and marks change. */
  datatype Thumb = Thumb(id: nat, slide: Node)

  datatype Where = Before | After

  /**
   `thumbs` is what the deck remembers, `children` what the rail element holds, `made` how many thumbs
   were ever made; `skips`, `current` and `dropMarks` are attributes on thumb elements.
   */
  datatype State = State(
    enabled: bool,
    thumbs: seq<Thumb>,
    children: seq<Thumb>,
    made: nat,
    place: map<Thumb, nat>,
    skips: set<Thumb>,
    current: set<Thumb>,
    dropOn: Option<Thumb>,
    dropWhere: Option<Where>,
    dropMarks: map<Thumb, Where>)

  /** The last of the first `n` thumbs that shows `slide`. */
  function ThumbOf(thumbs: seq<Thumb>, n: nat, slide: Node): (t: Option<Thumb>)
    requires n <= |thumbs|
    ensures t.Some? ==> t.value.slide == slide && t.value in thumbs[..n]
    ensures t.None? ==> forall k :: 0 <= k < n ==> thumbs[k].slide != slide
  {
    if n == 0 then None
    else if thumbs[n - 1].slide == slide then Some(thumbs[n - 1])
    else ThumbOf(thumbs, n - 1, slide)
  }

  /** How many of the first `n` slides have no thumb yet. */
  function Missing(thumbs: seq<Thumb>, slides: seq<Node>, n: nat): nat
    requires n <= |slides|
  {
    if n == 0 then 0
    else Missing(thumbs, slides, n - 1) + if ThumbOf(thumbs, |thumbs|, slides[n - 1]).None? then 1 else 0
  }

  /** The thumb the `k`th slide ends up with: the one it had, or the next one made. */
  function ThumbFor(thumbs: seq<Thumb>, slides: seq<Node>, made: nat, k: nat): (t: Thumb)
    requires k < |slides|
    ensures t.slide == slides[k]
  {
    match ThumbOf(thumbs, |thumbs|, slides[k])
    case Some(t) => t
    case None => Thumb(made + Missing(thumbs, slides, k), slides[k])
  }

  function NextUpTo(thumbs: seq<Thumb>, slides: seq<Node>, made: nat, n: nat): (next: seq<Thumb>)
    requires n <= |slides|
    ensures |next| == n && forall k :: 0 <= k < n ==> next[k] == ThumbFor(thumbs, slides, made, k)
  {
    if n == 0 then [] else NextUpTo(thumbs, slides, made, n - 1) + [ThumbFor(thumbs, slides, made, n - 1)]
  }

  /** The thumbs of a slide list, in its order. */
  function NextThumbs(thumbs: seq<Thumb>, slides: seq<Node>, made: nat): (next: seq<Thumb>)
    ensures |next| == |slides| && forall k :: 0 <= k < |slides| ==> next[k].slide == slides[k]
  {
    NextUpTo(thumbs, slides, made, |slides|)
  }

  function AsSet<T>(s: seq<T>): set<T> {
    set x | x in s
  }

  function Only<T>(s: seq<T>, k: nat): set<T> {
    if k < |s| then {s[k]} else {}
  }

  /** The recorded places once the first `n` thumbs are numbered. */
  function Placed(was: map<Thumb, nat>, next: seq<Thumb>, n: nat): map<Thumb, nat>
    requires n <= |next|
  {
    if n == 0 then was else Placed(was, next, n - 1)[next[n - 1] := n - 1]
  }

  function Skipping(thumbs: seq<Thumb>, skipped: set<Node>): set<Thumb> {
    set t | t in thumbs && t.slide in skipped
  }

  /** `_syncRail`: mark the thumb at the index, and it alone. */
  function SyncRail(rail: State, index: nat): State {
    rail.(current := rail.current - AsSet(rail.thumbs) + Only(rail.thumbs, index))
  }

  /** `_renderRail`. */
  function Reconcile(rail: State, slides: seq<Node>, skipped: set<Node>, index: nat): State {
    if !rail.enabled then rail.(thumbs := [])
    else
      var next := NextThumbs(rail.thumbs, slides, rail.made);
      SyncRail(rail.(
        thumbs := next,
        children := next,
        made := rail.made + Missing(rail.thumbs, slides, |slides|),
        place := Placed(rail.place, next, |next|),
        skips := rail.skips - AsSet(next) + Skipping(next, skipped)), index)
  }

  /** One turn of a loop that leaves a mark on the element at `index` alone. */
  lemma MarkStep<T>(was: set<T>, s: seq<T>, i: nat, index: nat)
    requires Distinct(s) && i < |s|
    ensures var before := was - AsSet(s[..i]) + Only(s[..i], index);
            was - AsSet(s[..i + 1]) + Only(s[..i + 1], index) ==
              if i == index then before + {s[i]} else before - {s[i]}
  {
    assert s[..i + 1] == s[..i] + [s[i]];
    assert AsSet(s[..i + 1]) == AsSet(s[..i]) + {s[i]};
  }

  /** What holds of the rail between passes. */
  ghost predicate Sound(rail: State) {
    && rail.children == rail.thumbs
    && (forall a, b :: 0 <= a < b < |rail.thumbs| ==> rail.thumbs[a].slide != rail.thumbs[b].slide)
    && (forall t :: t in rail.thumbs ==> t.id < rail.made)
    && (forall k :: 0 <= k < |rail.thumbs| ==> rail.thumbs[k] in rail.place && rail.place[rail.thumbs[k]] == k)
    && (!rail.enabled ==> rail.thumbs == [])
  }

  lemma ThumbsAreDistinct(rail: State)
    requires Sound(rail)
    ensures Distinct(rail.thumbs)
  {}

  lemma {:induction false} MissingGrows(thumbs: seq<Thumb>, slides: seq<Node>, m: nat, n: nat)
    requires m <= n <= |slides|
    ensures Missing(thumbs, slides, m) <= Missing(thumbs, slides, n)
    ensures m < n && ThumbOf(thumbs, |thumbs|, slides[m]).None? ==> Missing(thumbs, slides, m) < Missing(thumbs, slides, n)
  {
    if m < n { MissingGrows(thumbs, slides, m, n - 1); }
  }

  lemma NextIsDistinct(thumbs: seq<Thumb>, slides: seq<Node>, made: nat)
    requires Distinct(slides)
    ensures Distinct(NextThumbs(thumbs, slides, made))
  {}

  lemma NextIsMade(thumbs: seq<Thumb>, slides: seq<Node>, made: nat, k: nat)
    requires k < |slides| && forall t :: t in thumbs ==> t.id < made
    ensures ThumbFor(thumbs, slides, made, k).id < made + Missing(thumbs, slides, |slides|)
  {
    MissingGrows(thumbs, slides, k, |slides|);
  }

  lemma {:induction false} PlacedIs(was: map<Thumb, nat>, next: seq<Thumb>, n: nat, k: nat)
    requires Distinct(next) && k < n <= |next|
    ensures next[k] in Placed(was, next, n) && Placed(was, next, n)[next[k]] == k
  {
    if k < n - 1 { PlacedIs(was, next, n - 1, k); }
  }

  lemma {:induction false} PlacedKeeps(was: map<Thumb, nat>, next: seq<Thumb>, n: nat, t: Thumb)
    requires n <= |next| && t in was
    ensures t in Placed(was, next, n)
  {
    if n > 0 { PlacedKeeps(was, next, n - 1, t); }
  }

  lemma ReconcileIsSound(rail: State, slides: seq<Node>, skipped: set<Node>, index: nat)
    requires Sound(rail) && Distinct(slides)
    ensures Sound(Reconcile(rail, slides, skipped, index))
  {
    if rail.enabled {
      var next := NextThumbs(rail.thumbs, slides, rail.made);
      NextIsDistinct(rail.thumbs, slides, rail.made);
      forall t | t in next ensures t.id < rail.made + Missing(rail.thumbs, slides, |slides|) {
        var k :| 0 <= k < |next| && next[k] == t;
        NextIsMade(rail.thumbs, slides, rail.made, k);
      }
      forall k | 0 <= k < |next| ensures var place := Placed(rail.place, next, |next|); next[k] in place && place[next[k]] == k {
        PlacedIs(rail.place, next, |next|, k);
      }
    }
  }

  /**
   What a pass does to thumbs, for every old order and every new slide list: the rail shows the slides in
   order; exactly the thumbs whose slide survived are reused; the others are gone; every new slide gets
   a thumb never made before.
   */
  lemma ReconcileReuses(rail: State, slides: seq<Node>, skipped: set<Node>, index: nat, t: Thumb)
    requires Sound(rail) && rail.enabled && Distinct(slides)
    ensures var after := Reconcile(rail, slides, skipped, index);
            && after.children == after.thumbs
            && |after.thumbs| == |slides| && (forall k :: 0 <= k < |slides| ==> after.thumbs[k].slide == slides[k])
            && (t in after.thumbs && t.id < rail.made ==> t in rail.thumbs)
            && (t in rail.thumbs ==> (t in after.thumbs <==> t.slide in slides))
            && after.made == rail.made + |slides| - Survivors(rail.thumbs, slides, |slides|)
  {
    SurvivorsCount(rail.thumbs, slides, |slides|);
    if t in rail.thumbs && t.slide in slides { KeptIsNext(rail, slides, t); }
    if t in NextThumbs(rail.thumbs, slides, rail.made) { OldIsKept(rail, slides, t); }
  }

  /** A surviving thumb is among the next ones. */
  lemma KeptIsNext(was: State, slides: seq<Node>, t: Thumb)
    requires Sound(was) && t in was.thumbs && t.slide in slides
    ensures t in NextThumbs(was.thumbs, slides, was.made)
  {
    var k :| 0 <= k < |slides| && slides[k] == t.slide;
    assert ThumbOf(was.thumbs, |was.thumbs|, t.slide) == Some(t);
    assert NextThumbs(was.thumbs, slides, was.made)[k] == t;
  }

  lemma OldIsKept(was: State, slides: seq<Node>, t: Thumb)
    requires t in NextThumbs(was.thumbs, slides, was.made)
    ensures t.slide in slides && (t.id < was.made ==> t in was.thumbs)
  {
    var k :| 0 <= k < |slides| && NextThumbs(was.thumbs, slides, was.made)[k] == t;
    assert t == ThumbFor(was.thumbs, slides, was.made, k);
  }

  /** How many of the first `n` slides had a thumb. */
  ghost function Survivors(thumbs: seq<Thumb>, slides: seq<Node>, n: nat): nat
    requires n <= |slides|
  {
    if n == 0 then 0
    else Survivors(thumbs, slides, n - 1) + if exists k :: 0 <= k < |thumbs| && thumbs[k].slide == slides[n - 1] then 1 else 0
  }

  lemma {:induction false} SurvivorsCount(thumbs: seq<Thumb>, slides: seq<Node>, n: nat)
    requires n <= |slides|
    ensures Missing(thumbs, slides, n) + Survivors(thumbs, slides, n) == n
  {
    if n > 0 { SurvivorsCount(thumbs, slides, n - 1); }
  }

  /** One slot of the ordering loop: after it, slot `i` holds `want` and the slots before are as they were. */
  lemma PlaceStep<T>(children: seq<T>, i: nat, want: T, placed: seq<T>)
    requires Distinct(children) && i <= |children| && want !in children[..i]
    requires placed == if i < |children| && children[i] == want then children
                       else InsertBefore(children, want, if i < |children| then Some(children[i]) else None).value
    ensures i < |placed| && placed[..i] == children[..i] && placed[i] == want
    ensures Distinct(placed)
  {
    if i == |children| {
      assert children[..i] == children;
      InsertBeforeDistinct(children, want, None);
    } else if children[i] != want {
      InsertBeforeDistinct(children, want, Some(children[i]));
      PlaceWithin(children, i, want);
    }
  }

  lemma PlaceWithin<T>(children: seq<T>, i: nat, want: T)
    requires Distinct(children) && i < |children| && want !in children[..i] && children[i] != want
    ensures var placed := InsertBefore(children, want, Some(children[i])).value;
            i < |placed| && placed[..i] == children[..i] && placed[i] == want
  {
    var rest := Without(children, want);
    WithoutIs(children, want, want);
    assert IndexOf(children, want) > i by {
      assert forall m :: 0 <= m < i ==> children[m] in children[..i];
    }
    assert rest[..i] == children[..i] && rest[i] == children[i];
    IndexOfDistinct(rest, i);
  }

  /** A rail that begins with `next`, and holds nothing else, is `next`. */
  lemma NothingElse<T>(children: seq<T>, next: seq<T>)
    requires Distinct(children) && |next| <= |children| && children[..|next|] == next
    requires forall k :: 0 <= k < |children| ==> children[k] in next
    ensures children == next
  {
    DistinctSize(children);
    DistinctSize(next);
    SubsetSize(AsSet(children), AsSet(next));
  }

  lemma {:induction false} DistinctSize<T>(s: seq<T>)
    requires Distinct(s)
    ensures |AsSet(s)| == |s|
  {
    if s != [] {
      var init, last := s[..|s| - 1], s[|s| - 1];
      DistinctSize(init);
      assert s == init + [last];
      assert AsSet(s) == AsSet(init) + {last};
    }
  }

  /** One thumb at most carries the drop indicator: the one remembered. */
  ghost predicate IndicatorShown(rail: State) {
    && (rail.dropOn.Some? <==> rail.dropWhere.Some?)
    && (rail.dropOn.Some? ==> rail.dropOn.value in rail.place)
    && rail.dropMarks == (if rail.dropOn.Some? then map[rail.dropOn.value := rail.dropWhere.value] else map[])
  }

  /** The indicator stands at thumb `i` and nowhere else; nowhere when there is no such thumb. */
  function SetDrop(rail: State, i: nat, where: Where): State {
    if i < |rail.thumbs|
    then rail.(dropOn := Some(rail.thumbs[i]), dropWhere := Some(where), dropMarks := map[rail.thumbs[i] := where])
    else Cleared(rail)
  }

  function Cleared(rail: State): State {
    rail.(dropOn := None, dropWhere := None, dropMarks := map[])
  }

  /** `gap` comes before the first thumb whose middle is below the mouse. */
  ghost predicate FirstBelow(middles: seq<real>, y: real, gap: nat) {
    gap <= |middles| && (forall k :: 0 <= k < gap ==> middles[k] <= y) && (gap < |middles| ==> y < middles[gap])
  }

  /** The gap before thumb `i`, or after it. */
  function Gap(i: nat, where: Where): nat {
    if where.After? then i + 1 else i
  }

  /** Where a slide taken from `from` has to go to stand in that gap. */
  function Landing(from: nat, gap: nat): nat {
    if from < gap then gap - 1 else gap
  }

  /** A drop before or after thumb `i` leaves the dragged slide right there; on itself it changes nothing. */
  lemma LandsBeside<T>(slides: seq<T>, from: nat, i: nat, where: Where)
    requires from < |slides| && i < |slides|
    ensures var to := Landing(from, Gap(i, where));
            && to < |slides|
            && (from == i ==> to == from)
            && var after := MoveElement(slides, from, to);
               from != i ==>
                 if where.Before? then to + 1 < |slides| && after[to] == slides[from] && after[to + 1] == slides[i]
                 else 0 < to && after[to] == slides[from] && after[to - 1] == slides[i]
  {}

  /** The thumbs whose middle is at or above the mouse. */
  function AtOrAbove(middles: seq<real>, y: real, n: nat): nat
    requires n <= |middles|
  {
    if n == 0 then 0 else AtOrAbove(middles, y, n - 1) + if middles[n - 1] <= y then 1 else 0
  }

  /** For middles in ascending order, the first one below the mouse comes after exactly those at or above it. */
  lemma {:induction false} FirstBelowCounts(middles: seq<real>, y: real, gap: nat, n: nat)
    requires FirstBelow(middles, y, gap) && gap <= n <= |middles|
    requires forall a, b :: 0 <= a < b < |middles| ==> middles[a] <= middles[b]
    ensures AtOrAbove(middles, y, n) == gap
    decreases n
  {
    if n > gap {
      FirstBelowCounts(middles, y, gap, n - 1);
    } else if n > 0 {
      AllAtOrAbove(middles, y, n);
    }
  }

  lemma {:induction false} AllAtOrAbove(middles: seq<real>, y: real, n: nat)
    requires n <= |middles| && forall k :: 0 <= k < n ==> middles[k] <= y
    ensures AtOrAbove(middles, y, n) == n
  {
    if n > 0 { AllAtOrAbove(middles, y, n - 1); }
  }
}
