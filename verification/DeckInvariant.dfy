/** What holds of a deck over every run of its operations. */
module DeckInvariant {
  import opened Prelude
  import opened DomList
  import opened SlideList
  import opened RailState
  import opened DeckState

  ghost predicate InRange(index: nat, total: nat) {
    index < total || (total == 0 && index == 0)
  }

  /** Exactly the indexed slide is active. */
  ghost predicate ActiveIsIndexed(slides: seq<Node>, active: set<Node>, index: nat) {
    forall k :: 0 <= k < |slides| ==> (slides[k] in active <==> k == index)
  }

  /** Exactly the last unskipped slide carries the last-visible tag. */
  ghost predicate LastIsMarked(slides: seq<Node>, skipped: set<Node>, lastVisible: set<Node>) {
    forall k :: 0 <= k < |slides| ==>
      (slides[k] in lastVisible <==> slides[k] !in skipped && forall m :: k < m < |slides| ==> slides[m] in skipped)
  }

  /** An enabled rail shows the slides in order, with their skip marks. */
  ghost predicate ShowsSlides(rail: State, slides: seq<Node>, skipped: set<Node>) {
    rail.enabled ==>
      && |rail.thumbs| == |slides|
      && forall k :: 0 <= k < |slides| ==>
           rail.thumbs[k].slide == slides[k] && (rail.thumbs[k] in rail.skips <==> slides[k] in skipped)
  }

  /** Exactly the thumb of the indexed slide is marked current. */
  ghost predicate CurrentIsIndexed(rail: State, index: nat) {
    rail.enabled ==> forall k :: 0 <= k < |rail.thumbs| ==> (rail.thumbs[k] in rail.current <==> k == index)
  }

  function LastIndex(log: seq<SlideChange>): Option<nat> {
    if log == [] then None else Some(log[|log| - 1].index)
  }

  /** Each broadcast names as previous the index broadcast before it, and an index within the deck of its time. */
  ghost predicate Chained(log: seq<SlideChange>) {
    log == [] ||
      var last, before := log[|log| - 1], log[..|log| - 1];
      last.previous == LastIndex(before) && last.index < last.total && Chained(before)
  }

  /** What reading the slides needs. */
  ghost predicate Readable(d: Deck) {
    Distinct(d.children) && Sound(d.rail) && IndicatorShown(d.rail)
  }

  /** What every event keeps, even one that throws: the tag and the rail are those of the collected slides. */
  ghost predicate Steady(d: Deck) {
    && Readable(d) && Distinct(d.slides)
    && LastIsMarked(d.slides, d.skipped, d.lastVisible)
    && ShowsSlides(d.rail, d.slides, d.skipped)
  }

  /** The broadcasts form a chain that ends with the index last applied. */
  ghost predicate Logged(d: Deck) {
    d.prevIndex == LastIndex(d.log) && Chained(d.log)
  }

  /** The screen, the rail and the notes box follow the index, and it is the one last applied. */
  ghost predicate Settled(d: Deck) {
    && InRange(d.index, |d.slides|)
    && (!d.printing ==> ActiveIsIndexed(d.slides, d.active, d.index))
    && CurrentIsIndexed(d.rail, d.index)
    && (d.slides != [] ==> d.body == NoteText(d.notes, d.index) && d.prevIndex == Some(d.index))
  }

  /** What holds between events. */
  ghost predicate Tidy(d: Deck) {
    Steady(d) && Logged(d) && Settled(d)
  }

  lemma MarkTidies(d: Deck)
    requires Distinct(d.slides)
    ensures LastIsMarked(d.slides, d.skipped, MarkLastVisible(d).lastVisible)
  {
    var last := LastUnskipped(d.slides, d.skipped, |d.slides|);
    var marked := MarkLastVisible(d);
    forall k | 0 <= k < |d.slides|
      ensures d.slides[k] in marked.lastVisible <==> last == Some(k)
    {
      assert d.slides[k] in AsSet(d.slides);
    }
  }

  lemma SyncMarks(rail: State, index: nat)
    requires Sound(rail)
    ensures CurrentIsIndexed(SyncRail(rail, index), index)
  {
    ThumbsAreDistinct(rail);
    var after := SyncRail(rail, index);
    forall k | 0 <= k < |rail.thumbs| ensures rail.thumbs[k] in after.current <==> k == index {
      assert rail.thumbs[k] in AsSet(rail.thumbs);
    }
  }

  lemma SkipMarks(rail: State, slides: seq<Node>, skipped: set<Node>, index: nat)
    requires Sound(rail) && rail.enabled && Distinct(slides)
    ensures ShowsSlides(Reconcile(rail, slides, skipped, index), slides, skipped)
  {
    var next := NextThumbs(rail.thumbs, slides, rail.made);
    forall k | 0 <= k < |next|
      ensures next[k] in rail.skips - AsSet(next) + Skipping(next, skipped) <==> slides[k] in skipped
    {
      assert next[k] in AsSet(next);
    }
  }

  lemma CurrentMarks(rail: State, slides: seq<Node>, skipped: set<Node>, index: nat)
    requires Sound(rail) && rail.enabled && Distinct(slides)
    ensures CurrentIsIndexed(Reconcile(rail, slides, skipped, index), index)
  {
    var after := Reconcile(rail, slides, skipped, index);
    NextIsDistinct(rail.thumbs, slides, rail.made);
    forall k | 0 <= k < |after.thumbs| ensures after.thumbs[k] in after.current <==> k == index {
      assert after.thumbs[k] in AsSet(after.thumbs);
    }
  }

  lemma ReconcileTidies(rail: State, slides: seq<Node>, skipped: set<Node>, index: nat)
    requires Sound(rail) && IndicatorShown(rail) && Distinct(slides)
    ensures var after := Reconcile(rail, slides, skipped, index);
            Sound(after) && IndicatorShown(after) && ShowsSlides(after, slides, skipped) && CurrentIsIndexed(after, index)
  {
    ReconcileIsSound(rail, slides, skipped, index);
    if rail.enabled {
      var next := NextThumbs(rail.thumbs, slides, rail.made);
      if rail.dropOn.Some? { PlacedKeeps(rail.place, next, |next|, rail.dropOn.value); }
      SkipMarks(rail, slides, skipped, index);
      CurrentMarks(rail, slides, skipped, index);
    }
  }

  lemma CollectTidies(d: Deck)
    requires Readable(d)
    ensures Steady(Collect(d)) && InRange(Collect(d).index, |Collect(d).slides|) && CurrentIsIndexed(Collect(d).rail, Collect(d).index)
  {
    var gathered := Gather(d);
    SlidesAreDistinct(d.children);
    MarkTidies(gathered);
    ReconcileTidies(d.rail, gathered.slides, d.skipped, gathered.index);
  }

  lemma ActiveAfterApply(d: Deck, broadcast: bool)
    requires Distinct(d.slides) && d.slides != []
    ensures ActiveIsIndexed(d.slides, Apply(d, broadcast).active, d.index)
  {
    forall k | 0 <= k < |d.slides|
      ensures d.slides[k] in Apply(d, broadcast).active <==> k == d.index
    {
      assert d.slides[k] in AsSet(d.slides);
    }
  }

  lemma ChainGrows(log: seq<SlideChange>, next: SlideChange)
    requires Chained(log) && next.previous == LastIndex(log) && next.index < next.total
    ensures Chained(log + [next]) && LastIndex(log + [next]) == Some(next.index)
  {
    assert (log + [next])[..|log|] == log;
  }

  lemma ApplySteadies(d: Deck, broadcast: bool)
    requires Steady(d)
    ensures Steady(Apply(d, broadcast))
  {}

  /** Applying an index within the deck settles it, whatever was on screen before. */
  lemma ApplySettles(d: Deck, broadcast: bool)
    requires Steady(d) && d.slides != [] && d.index < |d.slides|
    ensures Settled(Apply(d, broadcast))
  {
    ActiveAfterApply(d, broadcast);
    SyncMarks(d.rail, d.index);
  }

  lemma ApplyTidies(d: Deck, broadcast: bool)
    requires Steady(d) && Logged(d) && d.slides != [] && d.index < |d.slides|
    requires !broadcast ==> d.prevIndex == Some(d.index)
    ensures Tidy(Apply(d, broadcast))
  {
    ApplySteadies(d, broadcast);
    ApplySettles(d, broadcast);
    if broadcast { ChainGrows(d.log, SlideChange(d.index, d.prevIndex, |d.slides|)); }
  }

  lemma GoTidies(d: Deck, i: int)
    requires Tidy(d)
    ensures Tidy(Go(d, i))
  {
    if d.slides != [] {
      var clamped := if i < 0 then 0 else if i < |d.slides| then i else |d.slides| - 1;
      if clamped != d.index { ApplyTidies(d.(index := clamped), true); }
    }
  }

  lemma ToggleMarks(d: Deck, i: nat)
    requires Steady(d) && i < |d.slides|
    ensures ShowsSlides(ToggleSkip(d, i).rail, d.slides, ToggleSkip(d, i).skipped)
  {
    if d.rail.enabled {
      ThumbsAreDistinct(d.rail);
      assert Only(d.rail.thumbs, i) == {d.rail.thumbs[i]};
      forall k | 0 <= k < |d.slides| ensures (d.slides[k] == d.slides[i]) == (k == i) == (d.rail.thumbs[k] == d.rail.thumbs[i]) {}
    }
  }

  lemma ToggleSteadies(d: Deck, i: nat)
    requires Steady(d)
    ensures Steady(ToggleSkip(d, i))
  {
    if i < |d.slides| {
      var after := ToggleSkip(d, i);
      MarkTidies(d.(skipped := after.skipped, rail := after.rail));
      ToggleMarks(d, i);
    }
  }

  lemma ToggleTidies(d: Deck, i: nat)
    requires Tidy(d)
    ensures Tidy(ToggleSkip(d, i))
  {
    ToggleSteadies(d, i);
  }

  /** Collecting and applying puts everything in order. */
  lemma CollectAndApply(d: Deck)
    requires Readable(d)
    ensures var after := Apply(Collect(d), true);
            Steady(after) && (Logged(d) ==> Logged(after)) && (after.slides != [] ==> Settled(after))
  {
    var c := Collect(d);
    CollectTidies(d);
    ApplySteadies(c, true);
    if c.slides != [] {
      ApplySettles(c, true);
      if Logged(d) { ChainGrows(d.log, SlideChange(c.index, d.prevIndex, |c.slides|)); }
    }
  }

  lemma DeleteReadable(d: Deck, i: nat)
    requires Readable(d) && i < |d.slides| && |d.slides| > 1
    ensures Readable(Removed(d, i))
  {
    WithoutIs(d.children, d.slides[i], d.slides[i]);
  }

  lemma CollectEmpty(d: Deck)
    requires Readable(d) && SlidesOf(d.children) == []
    ensures Settled(Apply(Collect(d), true))
  {
    CollectTidies(d);
  }

  lemma CollectAndApplyTidies(d: Deck)
    requires Readable(d) && Logged(d)
    ensures Tidy(Apply(Collect(d), true))
  {
    CollectAndApply(d);
    if SlidesOf(d.children) == [] { CollectEmpty(d); }
  }

  lemma DeleteTidies(d: Deck, i: nat)
    requires Tidy(d)
    ensures Tidy(Delete(d, i))
  {
    if i < |d.slides| && |d.slides| > 1 {
      DeleteReadable(d, i);
      CollectAndApplyTidies(Removed(d, i));
    }
  }

  lemma MoveInserts(d: Deck, i: nat, j: int)
    requires !MoveThrows(d, i, j) && !MoveRefused(d, i, j)
    ensures InsertBefore(d.children, d.slides[i], MoveReference(d.children, d.slides, i, j)).Some?
  {}

  /** A move that goes through is one insertion, then collecting and applying. */
  lemma MoveUnfolds(d: Deck, i: nat, j: int) returns (inserted: Deck)
    requires Readable(d) && !MoveThrows(d, i, j) && !MoveRefused(d, i, j)
    ensures Readable(inserted) && inserted.log == d.log && inserted.prevIndex == d.prevIndex
    ensures Move(d, i, j) == Apply(Collect(inserted), true)
  {
    var reference := MoveReference(d.children, d.slides, i, j);
    MoveInserts(d, i, j);
    InsertBeforeDistinct(d.children, d.slides[i], reference);
    inserted := Inserted(d, i, j, InsertBefore(d.children, d.slides[i], reference).value);
  }

  lemma MoveTidies(d: Deck, i: nat, j: int)
    requires Tidy(d) && !MoveThrows(d, i, j)
    ensures Tidy(Move(d, i, j))
  {
    if !MoveRefused(d, i, j) {
      var inserted := MoveUnfolds(d, i, j);
      CollectAndApplyTidies(inserted);
    }
  }

  /** The index lies outside the stretch of slides that a move from `i` to `j` shifts. */
  predicate Outside(index: nat, i: nat, j: int) {
    (index < i && index < j) || (index > i && index > j)
  }

  /** A move whose insertion throws leaves everything in order exactly when the current slide is outside the stretch it was to shift. */
  lemma ThrownMoveTidiesExactly(d: Deck, i: nat, j: int)
    requires Tidy(d) && MoveThrows(d, i, j)
    ensures Tidy(Move(d, i, j)) <==> Outside(d.index, i, j)
  {}

  lemma SlotChangeTidies(d: Deck)
    requires Tidy(d)
    ensures Tidy(SlotChange(d))
  {
    if d.pending && !d.squelch {
      var read := d.(pending := false);
      CollectTidies(read);
      RestoreTidies(Collect(read));
    }
  }

  lemma RestoreTidies(d: Deck)
    requires Steady(d) && Logged(d) && InRange(d.index, |d.slides|) && CurrentIsIndexed(d.rail, d.index)
    ensures Tidy(Apply(RestoreIndex(d), true))
  {
    if d.slides != [] { ApplyTidies(RestoreIndex(d), true); } else { assert RestoreIndex(d) == d; }
  }

  lemma EnableTidies(d: Deck)
    requires Tidy(d)
    ensures Tidy(Step(d, Enables))
  {
    if !d.rail.enabled { ReconcileTidies(d.rail.(enabled := true), d.slides, d.skipped, d.index); }
  }

  lemma AfterPrintTidies(d: Deck)
    requires Tidy(d)
    ensures Tidy(AfterPrint(d))
  {
    if d.slides != [] {
      ApplyTidies(d, false);
      ActiveAfterApply(d, false);
    }
  }

  lemma {:induction false} SetNoteReads(notes: seq<Option<string>>, k: nat, text: string, m: nat)
    ensures NoteText(SetNote(notes, k, text), m) == if m == k then text else NoteText(notes, m)
    decreases k - |notes|
  {
    if k > |notes| { SetNoteReads(notes + [None], k, text, m); }
  }

  lemma FilledReads(notes: seq<Option<string>>, k: nat)
    ensures NoteText(Filled(notes), k) == NoteText(notes, k)
  {}

  /** The move an event asks for, if any: a drop asks for one to the gap it is made at. */
  function MoveOf(d: Deck, e: Event): Option<(nat, int)> {
    match e
    case Moves(i, j) => Some((i, j))
    case DropsOn(i, where) =>
      if d.dragFrom.Some? then Some((d.dragFrom.value, Landing(d.dragFrom.value, Gap(i, where)))) else None
    case DropsBetween =>
      if d.dragFrom.Some? && ShownGap(d.rail).Some?
      then Some((d.dragFrom.value, Landing(d.dragFrom.value, ShownGap(d.rail).value))) else None
    case _ => None
  }

  /** The event makes `insertBefore` throw. */
  predicate Throws(d: Deck, e: Event) {
    MoveOf(d, e).Some? && MoveThrows(d, MoveOf(d, e).value.0, MoveOf(d, e).value.1)
  }

  /** A drop ends the drag and makes that move. */
  lemma DropIsMove(d: Deck, e: Event)
    requires e.DropsOn? || e.DropsBetween?
    ensures match MoveOf(d, e)
            case Some((i, j)) => Step(d, e) == Move(EndDrag(d), i, j) && (MoveThrows(EndDrag(d), i, j) <==> MoveThrows(d, i, j))
            case None => Step(d, e) == if d.dragFrom.Some? then EndDrag(d) else d
  {}

  /** No node stands twice among an element's children. */
  ghost predicate FromDocument(e: Event) {
    e.Changes? ==> Distinct(e.children)
  }

  /** The drop indicator plays no part in the rest of the rail. */
  lemma IndicatorApart(rail: State, i: nat, where: Where)
    requires Sound(rail) && IndicatorShown(rail)
    ensures Sound(Cleared(rail)) && IndicatorShown(Cleared(rail))
    ensures Sound(RailState.SetDrop(rail, i, where)) && IndicatorShown(RailState.SetDrop(rail, i, where))
  {}

  lemma EndDragTidies(d: Deck)
    requires Tidy(d)
    ensures Tidy(EndDrag(d))
  {
    IndicatorApart(d.rail, 0, Before);
    assert ShowsSlides(EndDrag(d).rail, d.slides, d.skipped);
  }

  lemma PointTidies(d: Deck, i: nat, where: Where)
    requires Tidy(d)
    ensures Tidy(Step(d, Points(i, where)))
  {
    IndicatorApart(d.rail, i, where);
    assert ShowsSlides(RailState.SetDrop(d.rail, i, where), d.slides, d.skipped);
  }

  lemma DropTidies(d: Deck, e: Event)
    requires Tidy(d) && !Throws(d, e) && (e.DropsOn? || e.DropsBetween?)
    ensures Tidy(Step(d, e))
  {
    DropIsMove(d, e);
    EndDragTidies(d);
    var move := MoveOf(d, e);
    if move.Some? { MoveTidies(EndDrag(d), move.value.0, move.value.1); }
  }

  lemma ThrownDropTidiesExactly(d: Deck, e: Event)
    requires Tidy(d) && Throws(d, e) && (e.DropsOn? || e.DropsBetween?)
    ensures Tidy(Step(d, e)) <==> Outside(d.index, MoveOf(d, e).value.0, MoveOf(d, e).value.1)
  {
    DropIsMove(d, e);
    EndDragTidies(d);
    ThrownMoveTidiesExactly(EndDrag(d), MoveOf(d, e).value.0, MoveOf(d, e).value.1);
  }

  lemma AdvanceTidies(d: Deck, dir: int)
    requires Tidy(d) && (dir == 1 || dir == -1)
    ensures Tidy(Advance(d, dir))
  {
    var k := NextUnskipped(d.slides, d.skipped, d.index + dir, dir);
    assert Advance(d, dir) == if k.None? then d else Go(d, k.value);
    if k.Some? { GoTidies(d, k.value); }
  }

  lemma HashTidies(d: Deck, hash: Option<nat>)
    requires Tidy(d)
    ensures Tidy(HashChange(d, hash))
  {
    var changed := d.(hash := hash);
    var n := SlideFromHash(changed);
    if n.Some? { GoTidies(changed, n.value); }
  }

  lemma NotesTidy(d: Deck, text: string)
    requires Tidy(d)
    ensures Tidy(EditNote(d, text)) && Tidy(PersistNotes(d))
  {
    SetNoteReads(d.notes, d.index, text, d.index);
    FilledReads(d.notes, d.index);
  }

  lemma PrintTidies(d: Deck)
    requires Tidy(d)
    ensures Tidy(BeforePrint(d))
  {}

  lemma ChangeTidies(d: Deck, children: seq<Node>)
    requires Tidy(d) && Distinct(children)
    ensures Tidy(Externally(d, children))
  {}

  lemma DragTidies(d: Deck, i: nat)
    requires Tidy(d)
    ensures Tidy(Step(d, Drags(i)))
  {}

  predicate Navigates(e: Event) {
    e.Goes? || e.Advances? || e.Hashes? || e.Prints? || e.Printed?
  }

  lemma NavigationTidies(d: Deck, e: Event)
    requires Tidy(d) && Navigates(e)
    ensures Tidy(Step(d, e))
  {
    match e
    case Goes(to) => GoTidies(d, to);
    case Advances(forward) => AdvanceTidies(d, if forward then 1 else -1);
    case Hashes(hash) => HashTidies(d, hash);
    case Prints => PrintTidies(d);
    case Printed => AfterPrintTidies(d);
  }

  predicate Handles(e: Event) {
    e.Enables? || e.Drags? || e.Points? || e.EndsDrag?
  }

  lemma HandlingTidies(d: Deck, e: Event)
    requires Tidy(d) && Handles(e)
    ensures Tidy(Step(d, e))
  {
    match e
    case Enables => EnableTidies(d);
    case Drags(i) => DragTidies(d, i);
    case Points(i, where) => PointTidies(d, i, where);
    case EndsDrag => EndDragTidies(d);
  }

  lemma EditTidies(d: Deck, e: Event)
    requires Tidy(d) && !Navigates(e) && !Handles(e) && !e.DropsOn? && !e.DropsBetween?
    requires FromDocument(e) && !Throws(d, e)
    ensures Tidy(Step(d, e))
  {
    match e
    case Moves(i, j) => MoveTidies(d, i, j);
    case Deletes(i) => DeleteTidies(d, i);
    case Toggles(i) => ToggleTidies(d, i);
    case Delivers => SlotChangeTidies(d);
    case Changes(children) => ChangeTidies(d, children);
    case Types(text) => NotesTidy(d, text);
    case Persists => NotesTidy(d, "");
  }

  /** Every event that does not throw keeps all of it. */
  lemma StepTidies(d: Deck, e: Event)
    requires Tidy(d) && FromDocument(e) && !Throws(d, e)
    ensures Tidy(Step(d, e))
  {
    if Navigates(e) { NavigationTidies(d, e); }
    else if Handles(e) { HandlingTidies(d, e); }
    else if e.DropsOn? || e.DropsBetween? { DropTidies(d, e); }
    else { EditTidies(d, e); }
  }

  /** If the event asks for a move that throws, the current slide is outside the stretch it was to shift. */
  predicate ThrowsAside(d: Deck, e: Event) {
    Throws(d, e) ==> Outside(d.index, MoveOf(d, e).value.0, MoveOf(d, e).value.1)
  }

  /** An event does so exactly when it does not throw, or throws on a move elsewhere. */
  lemma StepTidiesExactly(d: Deck, e: Event)
    requires Tidy(d) && FromDocument(e)
    ensures Tidy(Step(d, e)) <==> ThrowsAside(d, e)
  {
    if !Throws(d, e) { StepTidies(d, e); }
    else if e.Moves? { ThrownMoveTidiesExactly(d, e.i, e.j); }
    else { ThrownDropTidiesExactly(d, e); }
  }

  /** A deck as it is constructed: nothing collected, whatever its children, attributes and notes are. */
  ghost predicate Fresh(d: Deck) {
    && Distinct(d.children) && d.slides == [] && d.index == 0 && d.prevIndex.None? && d.log == []
    && !d.rail.enabled && d.rail.children == [] && d.rail.thumbs == []
    && d.rail.dropOn.None? && d.rail.dropWhere.None? && d.rail.dropMarks == map[]
    && !d.squelch && d.pending && !d.printing && d.dragFrom.None?
  }

  /** The deck at the end of a run; an event that throws leaves what it had done by then. */
  function Run(d: Deck, events: seq<Event>): Deck
    decreases |events|
  {
    if events == [] then d else Run(Step(d, events[0]), events[1..])
  }

  /** In order at the start of the run and after each of its events. */
  ghost predicate AlwaysTidy(d: Deck, events: seq<Event>)
    decreases |events|
  {
    Tidy(d) && (events != [] ==> AlwaysTidy(Step(d, events[0]), events[1..]))
  }

  /** Every move of the run that throws was to shift slides elsewhere. */
  predicate AlwaysThrowsAside(d: Deck, events: seq<Event>)
    decreases |events|
  {
    events != [] ==> ThrowsAside(d, events[0]) && AlwaysThrowsAside(Step(d, events[0]), events[1..])
  }

  /**
   Over every run: the index is in range, outside print exactly the indexed slide is active, exactly the
   last unskipped slide is tagged, the rail shows the slides, and the broadcasts form a chain, always and
   exactly as long as every move that throws was to shift slides other than the current one.
   */
  lemma {:induction false} EveryRunIsTidy(d: Deck, events: seq<Event>)
    requires Fresh(d) || Tidy(d)
    requires forall e :: e in events ==> FromDocument(e)
    ensures AlwaysTidy(d, events) <==> AlwaysThrowsAside(d, events)
    decreases |events|
  {
    if events != [] {
      assert events[0] in events && forall e :: e in events[1..] ==> e in events;
      StepTidiesExactly(d, events[0]);
      if Tidy(Step(d, events[0])) { EveryRunIsTidy(Step(d, events[0]), events[1..]); }
    }
  }

  lemma GoSteadies(d: Deck, i: int)
    requires Steady(d)
    ensures Steady(Go(d, i))
  {
    if d.slides != [] {
      var clamped := if i < 0 then 0 else if i < |d.slides| then i else |d.slides| - 1;
      if clamped != d.index { ApplySteadies(d.(index := clamped), true); }
    }
  }

  lemma AdvanceSteadies(d: Deck, dir: int)
    requires Steady(d) && (dir == 1 || dir == -1)
    ensures Steady(Advance(d, dir))
  {
    var k := NextUnskipped(d.slides, d.skipped, d.index + dir, dir);
    assert Advance(d, dir) == if k.None? then d else Go(d, k.value);
    if k.Some? { GoSteadies(d, k.value); }
  }

  lemma HashSteadies(d: Deck, hash: Option<nat>)
    requires Steady(d)
    ensures Steady(HashChange(d, hash))
  {
    var n := SlideFromHash(d.(hash := hash));
    if n.Some? { GoSteadies(d.(hash := hash), n.value); }
  }

  lemma NavigationSteadies(d: Deck, e: Event)
    requires Steady(d) && Navigates(e)
    ensures Steady(Step(d, e))
  {
    match e
    case Goes(to) => GoSteadies(d, to);
    case Advances(forward) => AdvanceSteadies(d, if forward then 1 else -1);
    case Hashes(hash) => HashSteadies(d, hash);
    case Prints =>
    case Printed => ApplySteadies(d, false);
  }

  lemma EndDragSteadies(d: Deck)
    requires Steady(d)
    ensures Steady(EndDrag(d))
  {
    IndicatorApart(d.rail, 0, Before);
  }

  lemma PointSteadies(d: Deck, i: nat, where: Where)
    requires Steady(d)
    ensures Steady(Step(d, Points(i, where)))
  {
    IndicatorApart(d.rail, i, where);
  }

  lemma EnableSteadies(d: Deck)
    requires Steady(d)
    ensures Steady(Step(d, Enables))
  {
    if !d.rail.enabled {
      var rail := Reconcile(d.rail.(enabled := true), d.slides, d.skipped, d.index);
      ReconcileTidies(d.rail.(enabled := true), d.slides, d.skipped, d.index);
      RailReplaced(d, rail, NoteText(d.notes, d.index));
      assert Step(d, Enables) == d.(rail := rail, body := NoteText(d.notes, d.index));
    } else {
      assert Step(d, Enables) == d;
    }
  }

  lemma RailReplaced(d: Deck, rail: State, body: string)
    requires Steady(d) && Sound(rail) && IndicatorShown(rail) && ShowsSlides(rail, d.slides, d.skipped)
    ensures Steady(d.(rail := rail, body := body))
  {}

  lemma DragSteadies(d: Deck, i: nat)
    requires Steady(d)
    ensures Steady(Step(d, Drags(i)))
  {}

  lemma HandlingSteadies(d: Deck, e: Event)
    requires Steady(d) && Handles(e)
    ensures Steady(Step(d, e))
  {
    match e
    case Enables => EnableSteadies(d);
    case Points(i, where) => PointSteadies(d, i, where);
    case EndsDrag => EndDragSteadies(d);
    case Drags(i) => DragSteadies(d, i);
  }

  lemma MoveSteadies(d: Deck, i: nat, j: int)
    requires Steady(d)
    ensures Steady(Move(d, i, j)) && (!MoveRefused(d, i, j) && !MoveThrows(d, i, j) && Move(d, i, j).slides != [] ==> Settled(Move(d, i, j)))
  {
    if !MoveRefused(d, i, j) && !MoveThrows(d, i, j) {
      var inserted := MoveUnfolds(d, i, j);
      CollectAndApply(inserted);
    }
  }

  lemma DeleteSteadies(d: Deck, i: nat)
    requires Steady(d)
    ensures Steady(Delete(d, i)) && (i < |d.slides| && |d.slides| > 1 && Delete(d, i).slides != [] ==> Settled(Delete(d, i)))
  {
    if i < |d.slides| && |d.slides| > 1 {
      DeleteReadable(d, i);
      CollectAndApply(Removed(d, i));
    }
  }

  lemma DeliverySteadies(d: Deck)
    requires Steady(d)
    ensures Steady(SlotChange(d)) && (d.pending && !d.squelch && SlotChange(d).slides != [] ==> Settled(SlotChange(d)))
  {
    if d.pending && !d.squelch {
      var c := Collect(d.(pending := false));
      CollectTidies(d.(pending := false));
      ApplySteadies(RestoreIndex(c), true);
      if c.slides != [] { ApplySettles(RestoreIndex(c), true); }
    }
  }

  /** The event makes the deck read its slides again and apply its index. */
  predicate Rereads(d: Deck, e: Event) {
    match MoveOf(d, e)
    case Some((i, j)) => !MoveRefused(d, i, j) && !MoveThrows(d, i, j)
    case None => (e.Deletes? && e.i < |d.slides| && |d.slides| > 1) || (e.Delivers? && d.pending && !d.squelch)
  }

  lemma DropSteadies(d: Deck, e: Event)
    requires Steady(d) && (e.DropsOn? || e.DropsBetween?)
    ensures Steady(Step(d, e)) && (Rereads(d, e) && Step(d, e).slides != [] ==> Settled(Step(d, e)))
  {
    DropIsMove(d, e);
    EndDragSteadies(d);
    var move := MoveOf(d, e);
    if move.Some? { MoveSteadies(EndDrag(d), move.value.0, move.value.1); }
  }

  lemma EditSteadies(d: Deck, e: Event)
    requires Steady(d) && FromDocument(e) && !Navigates(e) && !Handles(e) && !e.DropsOn? && !e.DropsBetween?
    ensures Steady(Step(d, e))
  {
    match e
    case Moves(i, j) => MoveSteadies(d, i, j);
    case Deletes(i) => DeleteSteadies(d, i);
    case Toggles(i) => ToggleSteadies(d, i);
    case Delivers => DeliverySteadies(d);
    case Changes(_) =>
    case Types(_) =>
    case Persists =>
  }

  lemma StepSteadies(d: Deck, e: Event)
    requires Steady(d) && FromDocument(e)
    ensures Steady(Step(d, e))
  {
    if Navigates(e) { NavigationSteadies(d, e); }
    else if Handles(e) { HandlingSteadies(d, e); }
    else if e.DropsOn? || e.DropsBetween? { DropSteadies(d, e); }
    else { EditSteadies(d, e); }
  }

  /** Whatever throws: over every run exactly the last unskipped slide is tagged and the rail shows the slides. */
  lemma {:induction false} EveryRunIsSteady(d: Deck, events: seq<Event>)
    requires Fresh(d) || Steady(d)
    requires forall e :: e in events ==> FromDocument(e)
    ensures Steady(Run(d, events))
    decreases |events|
  {
    if events != [] {
      assert events[0] in events && forall e :: e in events[1..] ==> e in events;
      StepSteadies(d, events[0]);
      EveryRunIsSteady(Step(d, events[0]), events[1..]);
    }
  }

  /** And the next move, drop, delete or slotchange that goes through puts screen, rail and notes box in order again. */
  lemma RereadingSettles(d: Deck, e: Event)
    requires Steady(d) && Rereads(d, e) && Step(d, e).slides != []
    ensures Settled(Step(d, e))
  {
    match e
    case Moves(i, j) => MoveSteadies(d, i, j);
    case Deletes(i) => DeleteSteadies(d, i);
    case Delivers => DeliverySteadies(d);
    case _ => DropSteadies(d, e);
  }
}
