/**
 The deck-stage element of deck-stage.js as the object it is: every method changes the fields the way
 the source does and is proved to make of the deck what DeckState says.
 */
module DeckStageElement {
  import opened Prelude
  import opened DomList
  import opened SlideList
  import opened RailState
  import opened RailPass
  import opened DeckState
  import opened DeckInvariant

  class DeckStage {
    var children: seq<Node>
    var slides: seq<Node>
    var skipped: set<Node>
    var active: set<Node>
    var lastVisible: set<Node>
    var index: nat
    var prevIndex: Option<nat>
    var hash: Option<nat>
    var notes: seq<Option<string>>
    var body: string
    var squelch: bool
    var pending: bool
    var printing: bool
    var dragFrom: Option<nat>
    var log: seq<SlideChange>
    var rail: State

    ghost function View(): Deck
      reads this
    {
      Deck(children, slides, skipped, active, lastVisible, index, prevIndex, hash, notes, body,
           squelch, pending, printing, dragFrom, log, rail)
    }

    /** What the methods rely on; Tidy gives it. */
    ghost predicate Workable()
      reads this
    {
      Distinct(children) && Distinct(slides) && Sound(rail) && IndicatorShown(rail)
    }

    constructor (children: seq<Node>, skipped: set<Node>, active: set<Node>, lastVisible: set<Node>, hash: Option<nat>, notes: seq<Option<string>>)
      requires Distinct(children)
      ensures Fresh(View())
      ensures this.children == children && this.notes == notes && this.hash == hash
      ensures this.skipped == skipped && this.active == active && this.lastVisible == lastVisible
    {
      this.children, this.skipped, this.active, this.lastVisible := children, skipped, active, lastVisible;
      this.hash, this.notes := hash, notes;
      slides, index, prevIndex, body, log := [], 0, None, "", [];
      squelch, pending, printing, dragFrom := false, true, false, None;
      rail := State(false, [], [], 0, map[], {}, {}, None, None, map[]);
    }

    method MarkLastVisible()
      modifies this`lastVisible
      ensures View() == DeckState.MarkLastVisible(old(View()))
    {
      var last: Option<Node> := None;
      for i := 0 to |slides|
        invariant lastVisible == old(lastVisible) - AsSet(slides[..i])
        invariant last == match LastUnskipped(slides, skipped, i) { case None => None case Some(k) => Some(slides[k]) }
      {
        var s := slides[i];
        assert AsSet(slides[..i + 1]) == AsSet(slides[..i]) + {s} by { assert slides[..i + 1] == slides[..i] + [s]; }
        lastVisible := lastVisible - {s};
        if s !in skipped { last := Some(s); }
      }
      assert slides[..|slides|] == slides;
      if last.Some? { lastVisible := lastVisible + {last.value}; }
    }

    method GatherSlides()
      modifies this`slides, this`index
      ensures View() == Gather(old(View()))
    {
      slides := SlidesOf(children);
      if index >= |slides| { index := if slides == [] then 0 else |slides| - 1; }
    }

    method CollectSlides()
      requires Distinct(children) && Sound(rail)
      modifies this
      ensures View() == Collect(old(View()))
      ensures Distinct(slides) && Distinct(rail.thumbs)
    {
      SlidesAreDistinct(children);
      GatherSlides();
      MarkLastVisible();
      ReconcileIsSound(rail, slides, skipped, index);
      rail := RenderRail(rail, slides, skipped, index);
      ThumbsAreDistinct(rail);
    }

    method MarkActive()
      requires Distinct(slides)
      modifies this`active
      ensures View() == DeckState.MarkActive(old(View()))
    {
      for i := 0 to |slides|
        invariant active == old(active) - AsSet(slides[..i]) + Only(slides[..i], index)
      {
        MarkStep(old(active), slides, i, index);
        if i == index { active := active + {slides[i]}; } else { active := active - {slides[i]}; }
      }
      assert slides[..|slides|] == slides;
    }

    method FollowInRail()
      requires Distinct(rail.thumbs)
      modifies this`rail
      ensures View() == DeckState.FollowInRail(old(View()))
    {
      rail := RailPass.SyncRail(rail, index);
    }

    method Announce(broadcast: bool)
      modifies this`body, this`log, this`prevIndex
      ensures View() == DeckState.Announce(old(View()), broadcast)
    {
      body := NoteText(notes, index);
      if broadcast { log := log + [SlideChange(index, prevIndex, |slides|)]; }
      prevIndex := Some(index);
    }

    method ApplyIndex(broadcast: bool)
      requires Distinct(slides) && Distinct(rail.thumbs)
      modifies this
      ensures View() == Apply(old(View()), broadcast)
    {
      if slides == [] { return; }
      ApplyInSteps(View(), broadcast);
      hash := Some(index + 1);
      MarkActive();
      FollowInRail();
      Announce(broadcast);
    }

    method CollectAndApply()
      requires Distinct(children) && Sound(rail)
      modifies this
      ensures View() == Apply(Collect(old(View())), true)
    {
      CollectSlides();
      ApplyIndex(true);
    }

    method Go(i: int)
      requires Workable()
      modifies this
      ensures View() == DeckState.Go(old(View()), i)
    {
      if slides == [] { return; }
      var clamped := if i < 0 then 0 else if i < |slides| then i else |slides| - 1;
      if clamped == index { return; }
      index := clamped;
      ApplyIndex(true);
    }

    /** The scan of `_advance`, one slide after another past the skipped ones. */
    method ScanOn(dir: int) returns (i: int)
      requires dir == 1 || dir == -1
      ensures NextUnskipped(slides, skipped, index + dir, dir) == if 0 <= i < |slides| then Some(i) else None
    {
      i := index + dir;
      while 0 <= i < |slides| && slides[i] in skipped
        invariant NextUnskipped(slides, skipped, i, dir) == NextUnskipped(slides, skipped, index + dir, dir)
        decreases if dir == 1 then |slides| - i else i
      {
        i := i + dir;
      }
    }

    method Advance(dir: int)
      requires Workable() && (dir == 1 || dir == -1)
      modifies this
      ensures View() == DeckState.Advance(old(View()), dir)
    {
      if slides == [] { return; }
      var i := ScanOn(dir);
      if i < 0 || i >= |slides| { return; }
      Go(i);
    }

    method ToggleSkip(i: nat)
      requires Workable()
      modifies this
      ensures View() == DeckState.ToggleSkip(old(View()), i)
    {
      if i >= |slides| { return; }
      FlipSkip(i);
      MarkLastVisible();
    }

    method FlipSkip(i: nat)
      requires i < |slides|
      modifies this`skipped, this`rail
      ensures View() == DeckState.FlipSkip(old(View()), i)
    {
      var slide := slides[i];
      var on := slide !in skipped;
      skipped := if on then skipped + {slide} else skipped - {slide};
      if i < |rail.thumbs| {
        rail := rail.(skips := if on then rail.skips + {rail.thumbs[i]} else rail.skips - {rail.thumbs[i]});
      }
    }

    method DeleteSlide(i: nat)
      requires Workable()
      modifies this
      ensures View() == Delete(old(View()), i)
    {
      if i >= |slides| || |slides| <= 1 { return; }
      WithoutIs(children, slides[i], slides[i]);
      RemoveSlide(i);
      CollectAndApply();
    }

    /** The first half of a delete, up to the notes. */
    method RemoveSlide(i: nat)
      requires i < |slides| && |slides| > 1
      modifies this`index, this`squelch, this`pending, this`children, this`notes
      ensures View() == Removed(old(View()), i)
    {
      var wasCurrent := i == index;
      if i < index || (wasCurrent && i == |slides| - 1) { index := index - 1; }
      Unhook(slides[i]);
      notes := SpliceOut(notes, i);
    }

    /** `slide.remove()`, with the flag up for the slotchange it queues. */
    method Unhook(slide: Node)
      modifies this`squelch, this`pending, this`children
      ensures View() == Unhooked(old(View()), slide)
    {
      squelch := true;
      pending := pending || slide in children;
      children := Without(children, slide);
    }

    /** `threw` when the insertion threw, with the index and the flag changed and nothing else. */
    method MoveSlide(i: nat, j: int) returns (threw: bool)
      requires Workable()
      modifies this
      ensures View() == Move(old(View()), i, j)
      ensures threw <==> MoveThrows(old(View()), i, j)
    {
      ghost var was := View();
      if j < 0 || j >= |slides| || j == i { return false; }
      BeginMove(i, j);
      if i >= |slides| { return true; }
      var reference := if j < i then Some(slides[j]) else NextSibling(children, slides[j]);
      var inserted := InsertBefore(children, slides[i], reference);
      ReferenceIsChild(was, i, j);
      if inserted.None? { return true; }
      InsertBeforeDistinct(children, slides[i], reference);
      InsertSlide(inserted.value, i, j);
      CollectAndApply();
      threw := false;
    }

    method InsertSlide(inserted: seq<Node>, i: nat, j: nat)
      modifies this`children, this`pending, this`notes
      ensures View() == old(View()).(pending := true, children := inserted, notes := DeckState.MoveNote(old(notes), i, j))
    {
      children := inserted;
      pending := true;
      MoveNote(i, j);
    }

    /** The index follows the slide on screen, and the coming slotchange is to be swallowed. */
    method BeginMove(i: nat, j: nat)
      modifies this`index, this`squelch
      ensures View() == Begun(old(View()), i, j)
    {
      var cur := index;
      if cur == i { index := j; } else if i < cur && j >= cur { index := cur - 1; } else if i > cur && j <= cur { index := cur + 1; }
      squelch := true;
    }

    method MoveNote(i: nat, j: nat)
      modifies this`notes
      ensures notes == DeckState.MoveNote(old(notes), i, j)
    {
      var n := NoteText(notes, i);
      notes := SpliceOut(notes, i);
      notes := SpliceIn(notes, j, n);
    }

    method RestoreIndex()
      modifies this`index
      ensures View() == DeckState.RestoreIndex(old(View()))
    {
      if hash.Some? && 1 <= hash.value <= |slides| { index := hash.value - 1; }
    }

    method OnSlotChange()
      requires Workable() && pending
      modifies this
      ensures View() == SlotChange(old(View()))
    {
      pending := false;
      if squelch {
        squelch := false;
        return;
      }
      CollectSlides();
      RestoreIndex();
      ApplyIndex(true);
    }

    method OnHashChange(fragment: Option<nat>)
      requires Workable()
      modifies this
      ensures View() == HashChange(old(View()), fragment)
    {
      hash := fragment;
      if hash.Some? && 1 <= hash.value <= |slides| && hash.value - 1 != index { Go(hash.value - 1); }
    }

    method OnBeforePrint()
      requires Workable()
      modifies this`active, this`printing
      ensures View() == BeforePrint(old(View()))
    {
      for i := 0 to |slides|
        invariant active == old(active) + AsSet(slides[..i])
      {
        assert slides[..i + 1] == slides[..i] + [slides[i]];
        active := active + {slides[i]};
      }
      assert slides[..|slides|] == slides;
      printing := true;
    }

    method OnAfterPrint()
      requires Workable()
      modifies this
      ensures View() == AfterPrint(old(View()))
    {
      ApplyIndex(false);
      printing := false;
    }

    method OnNoteInput(text: string)
      requires Workable()
      modifies this`body, this`notes
      ensures View() == EditNote(old(View()), text)
    {
      body := text;
      notes := SetNote(notes, index, text);
    }

    method EmitNotesChange()
      requires Workable()
      modifies this`notes
      ensures View() == PersistNotes(old(View()))
    {
      notes := Filled(notes);
    }

    method EnableRail()
      requires Workable()
      modifies this
      ensures View() == DeckState.EnableRail(old(View()))
    {
      if rail.enabled { return; }
      rail := rail.(enabled := true);
      rail := RenderRail(rail, slides, skipped, index);
      body := NoteText(notes, index);
    }

    method EndDrag()
      requires Workable()
      modifies this`rail, this`dragFrom
      ensures View() == DeckState.EndDrag(old(View())) && Workable()
    {
      IndicatorApart(rail, 0, Before);
      rail := RailPass.ClearDrop(rail);
      dragFrom := None;
    }

    /** End the drag, and move what was dragged to the gap unless it is there. */
    method DropAt(from: nat, gap: nat) returns (threw: bool)
      requires Workable()
      modifies this
      ensures View() == DeckState.DropAt(old(View()), from, gap)
      ensures threw <==> MoveThrows(old(View()), from, Landing(from, gap))
    {
      var to := gap;
      if from < to { to := to - 1; }
      DropAtIs(View(), from, gap, to);
      EndDrag();
      if to == from { return false; }
      threw := MoveSlide(from, to);
    }

    /** A drop on thumb `i`, below its middle or not. */
    method DropOnThumb(i: nat, below: bool) returns (threw: bool)
      requires Workable()
      modifies this
      ensures View() == ThumbDrop(old(View()), i, if below then After else Before)
      ensures threw <==> Throws(old(View()), DropsOn(i, if below then After else Before))
    {
      if dragFrom.None? { return false; }
      threw := DropAt(dragFrom.value, if below then i + 1 else i);
    }

    /** The gap the indicator stands at. */
    method IndicatedGap() returns (gap: Option<nat>)
      requires IndicatorShown(rail)
      ensures gap == ShownGap(rail)
    {
      if rail.dropOn.None? { return None; }
      var on := rail.place[rail.dropOn.value];
      gap := Some(if rail.dropWhere == Some(After) then on + 1 else on);
    }

    /** A drop in a gap of the rail: it goes where the indicator stands. */
    method DropOnRail() returns (threw: bool)
      requires Workable()
      modifies this
      ensures View() == RailDrop(old(View()))
      ensures threw <==> Throws(old(View()), DropsBetween)
    {
      if dragFrom.None? { return false; }
      var gap := IndicatedGap();
      RailDropIs(View());
      if gap.None? {
        EndDrag();
        return false;
      }
      threw := DropAt(dragFrom.value, gap.value);
    }
  }

  lemma DropAtIs(d: Deck, from: nat, gap: nat, to: nat)
    requires to == Landing(from, gap)
    ensures var ended := DeckState.EndDrag(d);
            && DeckState.DropAt(d, from, gap) == (if to == from then ended else Move(ended, from, to))
            && (MoveThrows(d, from, Landing(from, gap)) <==> to != from && MoveThrows(ended, from, to))
  {}

  lemma RailDropIs(d: Deck)
    requires d.dragFrom.Some?
    ensures var gap := ShownGap(d.rail);
            if gap.None? then RailDrop(d) == DeckState.EndDrag(d) && !Throws(d, DropsBetween)
            else RailDrop(d) == DeckState.DropAt(d, d.dragFrom.value, gap.value) &&
                 (Throws(d, DropsBetween) <==> MoveThrows(d, d.dragFrom.value, Landing(d.dragFrom.value, gap.value)))
  {}

  /** Once the index is chosen, the insertion throws exactly when the model says so. */
  lemma ReferenceIsChild(d: Deck, i: nat, j: nat)
    requires i < |d.slides| && j < |d.slides| && i != j
    ensures InsertBefore(d.children, d.slides[i], MoveReference(d.children, d.slides, i, j)).None? <==> MoveThrows(d, i, j)
  {}
}
