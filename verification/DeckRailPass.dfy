/** The loops of the rail pass, step by step. */
module RailPass {
  import opened Prelude
  import opened DomList
  import opened SlideList
  import opened RailState

  ghost predicate InOrderUpTo(children: seq<Thumb>, next: seq<Thumb>, i: nat)
    requires i <= |next|
  {
    && i <= |children| && children[..i] == next[..i] && Distinct(children) && Distinct(next)
    && forall k :: 0 <= k < |children| ==> children[k] in next
  }

  ghost function SkipsUpTo(was: set<Thumb>, next: seq<Thumb>, i: nat, skipped: set<Node>): set<Thumb>
    requires i <= |next|
  {
    was - AsSet(next[..i]) + Skipping(next[..i], skipped)
  }

  lemma InOrderStep(before: seq<Thumb>, after: seq<Thumb>, next: seq<Thumb>, i: nat)
    requires i < |next| && InOrderUpTo(before, next, i) && Distinct(after)
    requires i < |after| && after[..i] == before[..i] && after[i] == next[i]
    requires forall k :: 0 <= k < |after| ==> after[k] in before || after[k] == next[i]
    ensures InOrderUpTo(after, next, i + 1)
  {
    assert after[..i + 1] == next[..i + 1];
  }

  lemma NotYetPlaced(children: seq<Thumb>, next: seq<Thumb>, i: nat)
    requires i < |next| && InOrderUpTo(children, next, i)
    ensures next[i] !in children[..i]
  {}

  lemma SkipsStep(was: set<Thumb>, next: seq<Thumb>, i: nat, skipped: set<Node>)
    requires Distinct(next) && i < |next|
    ensures var before := SkipsUpTo(was, next, i, skipped);
            SkipsUpTo(was, next, i + 1, skipped) ==
              if next[i].slide in skipped then before + {next[i]} else before - {next[i]}
  {
    assert next[..i + 1] == next[..i] + [next[i]];
    assert AsSet(next[..i + 1]) == AsSet(next[..i]) + {next[i]};
    assert Skipping(next[..i + 1], skipped) == Skipping(next[..i], skipped) + if next[i].slide in skipped then {next[i]} else {};
  }

  lemma AllAreNext(was: State, slides: seq<Node>, children: seq<Thumb>)
    requires Sound(was) && forall t :: t in children ==> t in was.thumbs && t.slide in slides
    ensures forall k :: 0 <= k < |children| ==> children[k] in NextThumbs(was.thumbs, slides, was.made)
  {
    forall k | 0 <= k < |children| ensures children[k] in NextThumbs(was.thumbs, slides, was.made) {
      KeptIsNext(was, slides, children[k]);
    }
  }

  lemma InsertedIs(children: seq<Thumb>, want: Thumb, at: Option<Thumb>)
    requires Distinct(children) && (at.Some? ==> at.value in children)
    ensures var r := InsertBefore(children, want, at);
            r.Some? && forall t :: t in r.value <==> t in children || t == want
  {
    forall t ensures t in InsertBefore(children, want, at).value <==> t in children || t == want {
      InsertBeforeIs(children, want, at, t);
    }
  }

  /** `_syncRail`. */
  method SyncRail(rail: State, index: nat) returns (r: State)
    requires Distinct(rail.thumbs)
    ensures r == RailState.SyncRail(rail, index)
  {
    var current := rail.current;
    for i := 0 to |rail.thumbs|
      invariant current == rail.current - AsSet(rail.thumbs[..i]) + Only(rail.thumbs[..i], index)
    {
      MarkStep(rail.current, rail.thumbs, i, index);
      if i == index { current := current + {rail.thumbs[i]}; } else { current := current - {rail.thumbs[i]}; }
    }
    assert rail.thumbs[..|rail.thumbs|] == rail.thumbs;
    r := rail.(current := current);
  }

  /** `_renderRail`: reuse, make and drop thumbs, then put the rail's children in slide order. */
  method RenderRail(rail: State, slides: seq<Node>, skipped: set<Node>, index: nat) returns (r: State)
    requires Sound(rail) && Distinct(slides)
    ensures r == Reconcile(rail, slides, skipped, index)
  {
    if !rail.enabled { return rail.(thumbs := []); }
    ThumbsAreDistinct(rail);
    var next, survivors, made := NextInOrder(rail.thumbs, slides, rail.made);
    var children := RemoveOrphans(rail.thumbs, slides, survivors);
    NextIsDistinct(rail.thumbs, slides, rail.made);
    AllAreNext(rail, slides, children);
    var place, skips;
    children, place, skips := OrderChildren(children, next, rail.place, rail.skips, skipped);
    r := SyncRail(rail.(thumbs := next, children := children, made := made, place := place, skips := skips), index);
  }

  /** The ordering loop: each thumb to its slot, with its new place and its skip mark. */
  method OrderChildren(kept: seq<Thumb>, next: seq<Thumb>, oldPlace: map<Thumb, nat>, oldSkips: set<Thumb>, skipped: set<Node>)
    returns (children: seq<Thumb>, place: map<Thumb, nat>, skips: set<Thumb>)
    requires Distinct(kept) && Distinct(next) && forall k :: 0 <= k < |kept| ==> kept[k] in next
    ensures children == next
    ensures place == Placed(oldPlace, next, |next|)
    ensures skips == oldSkips - AsSet(next) + Skipping(next, skipped)
  {
    children, place, skips := kept, oldPlace, oldSkips;
    for i := 0 to |next|
      invariant InOrderUpTo(children, next, i)
      invariant place == Placed(oldPlace, next, i)
      invariant skips == SkipsUpTo(oldSkips, next, i, skipped)
    {
      var want := next[i];
      ghost var before := children;
      NotYetPlaced(before, next, i);
      children := PutAt(children, i, want);
      InOrderStep(before, children, next, i);
      place := place[want := i];
      SkipsStep(oldSkips, next, i, skipped);
      if want.slide in skipped { skips := skips + {want}; } else { skips := skips - {want}; }
    }
    assert next[..|next|] == next;
    NothingElse(children, next);
  }

  /** One turn of it: `want` goes before the child now at `i`, unless it is there already. */
  method PutAt(children: seq<Thumb>, i: nat, want: Thumb) returns (r: seq<Thumb>)
    requires Distinct(children) && i <= |children| && want !in children[..i]
    ensures i < |r| && r[..i] == children[..i] && r[i] == want && Distinct(r)
    ensures forall k :: 0 <= k < |r| ==> r[k] in children || r[k] == want
  {
    var at := if i < |children| then Some(children[i]) else None;
    r := children;
    if at != Some(want) {
      InsertedIs(children, want, at);
      r := InsertBefore(children, want, at).value;
    }
    PlaceStep(children, i, want, r);
  }

  /** The thumbs in slide order, new ones made as needed; the slides that already had one. */
  method NextInOrder(thumbs: seq<Thumb>, slides: seq<Node>, oldMade: nat) returns (next: seq<Thumb>, survivors: set<Node>, made: nat)
    ensures next == NextThumbs(thumbs, slides, oldMade)
    ensures made == oldMade + Missing(thumbs, slides, |slides|)
    ensures forall t :: t in thumbs ==> (t.slide in survivors <==> t.slide in slides)
  {
    var bySlide := BySlide(thumbs);
    next, survivors, made := [], {}, oldMade;
    for k := 0 to |slides|
      invariant made == oldMade + Missing(thumbs, slides, k)
      invariant next == NextUpTo(thumbs, slides, oldMade, k)
      invariant forall s :: s in survivors <==> s in bySlide && s in slides[..k]
    {
      var slide := slides[k];
      assert slides[..k + 1] == slides[..k] + [slide];
      if slide in bySlide {
        next, survivors := next + [bySlide[slide]], survivors + {slide};
      } else {
        next := next + [Thumb(made, slide)];
        made := made + 1;
      }
    }
    assert slides[..|slides|] == slides;
  }

  method BySlide(thumbs: seq<Thumb>) returns (bySlide: map<Node, Thumb>)
    ensures forall s :: s in bySlide <==> ThumbOf(thumbs, |thumbs|, s).Some?
    ensures forall s :: s in bySlide ==> ThumbOf(thumbs, |thumbs|, s) == Some(bySlide[s])
    ensures forall t :: t in thumbs ==> t.slide in bySlide
  {
    bySlide := map[];
    for k := 0 to |thumbs|
      invariant forall s :: s in bySlide <==> ThumbOf(thumbs, k, s).Some?
      invariant forall s :: s in bySlide ==> ThumbOf(thumbs, k, s) == Some(bySlide[s])
    {
      bySlide := bySlide[thumbs[k].slide := thumbs[k]];
    }
  }

  /** Take the thumbs of removed slides out of the rail. */
  method RemoveOrphans(thumbs: seq<Thumb>, slides: seq<Node>, survivors: set<Node>) returns (children: seq<Thumb>)
    requires Distinct(thumbs)
    requires forall t :: t in thumbs ==> (t.slide in survivors <==> t.slide in slides)
    ensures Distinct(children) && forall t :: t in children <==> t in thumbs && t.slide in slides
  {
    children := thumbs;
    for k := 0 to |thumbs|
      invariant Distinct(children)
      invariant forall t :: t in children <==> t in thumbs && (t in thumbs[..k] ==> t.slide in slides)
    {
      if thumbs[k].slide !in survivors {
        ghost var before := children;
        children := Without(children, thumbs[k]);
        forall t ensures t in children <==> t in before && t != thumbs[k] { WithoutIs(before, thumbs[k], t); }
      }
    }
  }

  /** `_railDropTarget`, given the thumbs' middles; None when there is no thumb. */
  method RailDropTarget(rail: State, middles: seq<real>, y: real) returns (target: Option<(nat, Where)>)
    requires Sound(rail) && |middles| == |rail.thumbs|
    ensures target.None? <==> rail.thumbs == []
    ensures target.Some? ==> target.value.0 < |rail.thumbs| && FirstBelow(middles, y, Gap(target.value.0, target.value.1))
  {
    var thumbs := rail.thumbs;
    if thumbs == [] { return None; }
    for k := 0 to |thumbs|
      invariant forall m :: 0 <= m < k ==> middles[m] <= y
    {
      if y < middles[k] { return Some((rail.place[thumbs[k]], Before)); }
      if k + 1 == |thumbs| { return Some((rail.place[thumbs[k]], After)); }
      if y < middles[k + 1] { return Some((rail.place[thumbs[k]], After)); }
    }
    return Some((rail.place[thumbs[|thumbs| - 1]], After));
  }

  /** `_setDrop`. */
  method SetDrop(rail: State, i: nat, where: Where) returns (r: State)
    requires IndicatorShown(rail)
    ensures r == RailState.SetDrop(rail, i, where)
  {
    var t := if i < |rail.thumbs| then Some(rail.thumbs[i]) else None;
    var marks := rail.dropMarks;
    if rail.dropOn.Some? && rail.dropOn != t { marks := marks - {rail.dropOn.value}; }
    if t.Some? { marks := marks[t.value := where]; }
    r := rail.(dropOn := t, dropWhere := if t.Some? then Some(where) else None, dropMarks := marks);
  }

  /** `_clearDrop`. */
  method ClearDrop(rail: State) returns (r: State)
    requires IndicatorShown(rail)
    ensures r == Cleared(rail)
  {
    var marks := rail.dropMarks;
    if rail.dropOn.Some? { marks := marks - {rail.dropOn.value}; }
    r := rail.(dropOn := None, dropWhere := None, dropMarks := marks);
  }
}
