/** What moves, deletes, drops and edits do to slides and notes. */
module DeckEdits {
  import opened Prelude
  import opened DomList
  import opened SlideList
  import opened RailState
  import opened DeckState
  import opened DeckInvariant

  /** The collected slides are the ones in the document. */
  ghost predicate Synced(d: Deck) {
    d.slides == SlidesOf(d.children)
  }

  /** The slide on screen. */
  function Shown(d: Deck): Node
    requires d.index < |d.slides|
  {
    d.slides[d.index]
  }

  lemma ApplyLeaves(d: Deck, broadcast: bool)
    ensures var after := Apply(d, broadcast);
            && after.slides == d.slides && after.children == d.children && after.index == d.index
            && after.notes == d.notes && after.dragFrom == d.dragFrom
            && after.squelch == d.squelch && after.pending == d.pending
  {}

  lemma MoveMoves(d: Deck, i: nat, j: nat)
    requires Distinct(d.children) && Synced(d) && i < |d.slides| && j < |d.slides| && i != j
    ensures !MoveThrows(d, i, j)
    ensures var after := Move(d, i, j);
            && Synced(after) && Distinct(after.children) && after.slides == MoveElement(d.slides, i, j)
            && (d.index < |d.slides| ==> after.index == IndexAfterMove(d.index, i, j))
            && after.notes == MoveNote(d.notes, i, j) && after.dragFrom == d.dragFrom
            && after.squelch && after.pending
  {
    var moved := MoveIsInsertion(d, i, j);
    var begun := Inserted(d, i, j, moved);
    CollectLeaves(begun);
    ApplyLeaves(Collect(begun), true);
  }

  lemma MoveIsInsertion(d: Deck, i: nat, j: nat) returns (moved: seq<Node>)
    requires Distinct(d.children) && Synced(d) && i < |d.slides| && j < |d.slides| && i != j
    ensures !MoveThrows(d, i, j) && SlidesOf(moved) == MoveElement(d.slides, i, j) && Distinct(moved)
    ensures Move(d, i, j) == Apply(Collect(Inserted(d, i, j, moved)), true)
  {
    MoveInDom(d.children, i, j);
    SlidesAreChildren(d.children, d.slides[j]);
    var reference := MoveReference(d.children, d.slides, i, j);
    moved := InsertBefore(d.children, d.slides[i], reference).value;
    InsertBeforeDistinct(d.children, d.slides[i], reference);
  }

  lemma CollectLeaves(d: Deck)
    ensures var after := Collect(d);
            && after.slides == SlidesOf(d.children) && after.children == d.children
            && (d.index < |after.slides| ==> after.index == d.index)
            && after.notes == d.notes && after.dragFrom == d.dragFrom
            && after.squelch == d.squelch && after.pending == d.pending
  {}

  /** Between synced decks a move is exactly the move of one slide, and what is on screen stays there. */
  lemma MoveKeepsSlide(d: Deck, i: nat, j: nat)
    requires Tidy(d) && Synced(d) && i < |d.slides| && j < |d.slides| && i != j
    ensures !MoveThrows(d, i, j)
    ensures var after := Move(d, i, j);
            && Synced(after) && after.slides == MoveElement(d.slides, i, j)
            && after.index == MovedTo(i, j, d.index) && after.index < |after.slides| && Shown(after) == Shown(d)
            && after.notes == MoveNote(d.notes, i, j) && after.dragFrom == d.dragFrom
  {
    MoveMoves(d, i, j);
    MovedToIs(d.slides, i, j, d.index);
  }

  /** Only a slide that does not exist makes a move on a synced deck throw. */
  lemma SyncedMoveThrows(d: Deck, i: nat, j: int)
    requires Synced(d)
    ensures MoveThrows(d, i, j) <==> 0 <= j < |d.slides| && i >= |d.slides|
  {
    if 0 <= j < |d.slides| { SlidesAreChildren(d.children, d.slides[j]); }
  }

  /** A delete removes that slide alone; the slide on screen stays unless it was the one, and then a neighbour follows it. */
  lemma DeleteKeepsSlide(d: Deck, i: nat)
    requires Tidy(d) && Synced(d) && i < |d.slides| && |d.slides| > 1
    ensures var after := Delete(d, i);
            && Synced(after) && after.slides == d.slides[..i] + d.slides[i + 1..]
            && after.index < |after.slides|
            && Shown(after) == (if i != d.index then Shown(d) else if i + 1 < |d.slides| then d.slides[i + 1] else d.slides[i - 1])
            && after.notes == SpliceOut(d.notes, i)
  {
    DeleteDeletes(d, i);
    ShownAfterDelete(d.slides, d.index, i);
  }

  lemma ShownAfterDelete(slides: seq<Node>, index: nat, i: nat)
    requires index < |slides| && i < |slides| && |slides| > 1
    ensures var after, k := slides[..i] + slides[i + 1..], IndexAfterDelete(index, i, |slides|);
            && k < |after|
            && after[k] == if i != index then slides[index] else if i + 1 < |slides| then slides[i + 1] else slides[i - 1]
  {}

  lemma DeleteDeletes(d: Deck, i: nat)
    requires Distinct(d.children) && Synced(d) && i < |d.slides| && |d.slides| > 1
    ensures var after := Delete(d, i);
            && Synced(after) && Distinct(after.children) && after.slides == d.slides[..i] + d.slides[i + 1..]
            && (d.index < |d.slides| ==> after.index == IndexAfterDelete(d.index, i, |d.slides|))
            && after.notes == SpliceOut(d.notes, i)
  {
    RemoveInDom(d.children, i);
    WithoutIs(d.children, d.slides[i], d.slides[i]);
    CollectLeaves(Removed(d, i));
    ApplyLeaves(Collect(Removed(d, i)), true);
  }

  /** The note of a slide of the deck. */
  function Note(d: Deck, slide: Node): string {
    NoteText(d.notes, IndexOf(d.slides, slide))
  }

  lemma SpliceInReads(notes: seq<Option<string>>, j: nat, note: string, k: nat)
    requires j <= |notes| || note == ""
    ensures NoteText(SpliceIn(notes, j, note), k) == if k < j then NoteText(notes, k) else if k == j then note else NoteText(notes, k - 1)
  {}

  lemma DeleteReads(notes: seq<Option<string>>, i: nat, k: nat)
    ensures NoteText(SpliceOut(notes, i), k) == NoteText(notes, if k < i then k else k + 1)
  {}

  lemma MoveNoteReads(notes: seq<Option<string>>, i: nat, j: nat, k: nat)
    requires (i < |notes| ==> j < |notes|) || NoteText(notes, i) == ""
    ensures MovedTo(i, j, k) >= 0 && NoteText(MoveNote(notes, i, j), MovedTo(i, j, k)) == NoteText(notes, k)
  {
    var out, to := SpliceOut(notes, i), MovedTo(i, j, k);
    SpliceInReads(out, j, NoteText(notes, i), to);
    DeleteReads(notes, i, to);
    if to > 0 { DeleteReads(notes, i, to - 1); }
  }

  lemma MoveNoteLoses(notes: seq<Option<string>>, i: nat, j: nat)
    requires i < |notes| <= j
    ensures NoteText(MoveNote(notes, i, j), j) == ""
  {}

  lemma NoteAfterMove(d: Deck, i: nat, j: nat, k: nat)
    requires Distinct(d.children) && Synced(d) && i < |d.slides| && j < |d.slides| && i != j && k < |d.slides|
    ensures MovedTo(i, j, k) >= 0
    ensures Note(Move(d, i, j), d.slides[k]) == NoteText(MoveNote(d.notes, i, j), MovedTo(i, j, k))
  {
    MoveMoves(d, i, j);
    MovedToIs(d.slides, i, j, k);
    SlidesAreDistinct(d.children);
    MoveKeepsDistinct(d.slides, i, j);
    IndexOfDistinct(MoveElement(d.slides, i, j), MovedTo(i, j, k));
  }

  /** The notes reach the new place, or do not reach the old one, or the note moved is blank. */
  predicate NotesReach(notes: seq<Option<string>>, i: nat, j: nat) {
    (i < |notes| ==> j < |notes|) || NoteText(notes, i) == ""
  }

  /** A move leaves every slide its own note exactly then. Otherwise the note goes to another slide. */
  lemma MoveKeepsNotesExactly(d: Deck, i: nat, j: nat)
    requires Distinct(d.children) && Synced(d) && i < |d.slides| && j < |d.slides| && i != j
    ensures (forall slide :: slide in d.slides ==> Note(Move(d, i, j), slide) == Note(d, slide)) <==> NotesReach(d.notes, i, j)
  {
    if NotesReach(d.notes, i, j) {
      forall slide | slide in d.slides ensures Note(Move(d, i, j), slide) == Note(d, slide) {
        var k := IndexOf(d.slides, slide);
        NoteAfterMove(d, i, j, k);
        MoveNoteReads(d.notes, i, j, k);
      }
    } else {
      NoteAfterMove(d, i, j, i);
      MoveNoteLoses(d.notes, i, j);
      SlidesAreDistinct(d.children);
      IndexOfDistinct(d.slides, i);
      assert Note(Move(d, i, j), d.slides[i]) != Note(d, d.slides[i]);
    }
  }

  /** A delete leaves every other slide its own note, however long the notes are. */
  lemma DeleteKeepsNotes(d: Deck, i: nat, slide: Node)
    requires Distinct(d.children) && Synced(d) && i < |d.slides| && |d.slides| > 1 && slide in Delete(d, i).slides
    ensures slide in d.slides && slide != d.slides[i] && Note(Delete(d, i), slide) == Note(d, slide)
  {
    DeleteDeletes(d, i);
    SlidesAreDistinct(d.children);
    var slides := d.slides[..i] + d.slides[i + 1..];
    var k := IndexOf(slides, slide);
    var was := if k < i then k else k + 1;
    assert d.slides[was] == slide;
    IndexOfDistinct(d.slides, was);
    DeleteReads(d.notes, i, k);
  }

  /** What one event makes of a slide's note: only typing changes it, and only for the slide on screen. */
  function NoteAfter(d: Deck, e: Event, slide: Node): string {
    if e.Types? && d.index < |d.slides| && d.slides[d.index] == slide then e.text else Note(d, slide)
  }

  /** The collected slides are the ones in the document, each once. */
  ghost predicate Exact(d: Deck) {
    Distinct(d.children) && Synced(d)
  }

  ghost predicate Keeps(d: Deck, e: Event, after: Deck) {
    && Exact(after)
    && forall slide :: slide in after.slides ==> slide in d.slides && Note(after, slide) == NoteAfter(d, e, slide)
  }

  /** If the event moves a slide, the notes let it. */
  predicate MovesNotes(d: Deck, e: Event) {
    match MoveOf(d, e)
    case Some((i, j)) => i < |d.slides| && 0 <= j < |d.slides| && i != j ==> NotesReach(d.notes, i, j)
    case None => true
  }

  lemma MoveKeeps(d: Deck, e: Event, i: nat, j: int)
    requires Exact(d) && !e.Types? && (i < |d.slides| && 0 <= j < |d.slides| && i != j ==> NotesReach(d.notes, i, j))
    ensures Keeps(d, e, Move(d, i, j))
  {
    SyncedMoveThrows(d, i, j);
    if i < |d.slides| && 0 <= j < |d.slides| && i != j {
      MoveMoves(d, i, j);
      MoveKeepsNotesExactly(d, i, j);
      var after := Move(d, i, j);
      forall slide | slide in after.slides ensures slide in d.slides { MovedMember(d.slides, i, j, slide); }
    } else {
      UntouchedKeeps(d, e, Move(d, i, j));
    }
  }

  lemma MovedMember(slides: seq<Node>, i: nat, j: nat, slide: Node)
    requires i < |slides| && j < |slides| && slide in MoveElement(slides, i, j)
    ensures slide in slides
  {}

  lemma DeleteKeeps(d: Deck, e: Event, i: nat)
    requires Exact(d) && !e.Types?
    ensures Keeps(d, e, Delete(d, i))
  {
    if i < |d.slides| && |d.slides| > 1 {
      DeleteDeletes(d, i);
      forall slide | slide in Delete(d, i).slides ensures slide in d.slides && Note(Delete(d, i), slide) == Note(d, slide) {
        DeleteKeepsNotes(d, i, slide);
      }
    }
  }

  lemma TypeKeeps(d: Deck, text: string)
    requires Exact(d)
    ensures Keeps(d, Types(text), EditNote(d, text))
  {
    SlidesAreDistinct(d.children);
    forall slide | slide in d.slides ensures Note(EditNote(d, text), slide) == NoteAfter(d, Types(text), slide) {
      SetNoteReads(d.notes, d.index, text, IndexOf(d.slides, slide));
      if d.index < |d.slides| { IndexOfDistinct(d.slides, d.index); }
    }
  }

  lemma PersistKeeps(d: Deck)
    requires Exact(d)
    ensures Keeps(d, Persists, PersistNotes(d))
  {
    forall slide | slide in d.slides ensures Note(PersistNotes(d), slide) == Note(d, slide) {
      FilledReads(d.notes, IndexOf(d.slides, slide));
    }
  }

  lemma DropKeeps(d: Deck, e: Event)
    requires Exact(d) && MovesNotes(d, e) && (e.DropsOn? || e.DropsBetween?)
    ensures Keeps(d, e, Step(d, e))
  {
    DropIsMove(d, e);
    match MoveOf(d, e)
    case Some((i, j)) =>
      MoveKeeps(EndDrag(d), e, i, j);
      KeepsAlike(d, EndDrag(d), e, Step(d, e));
    case None => UntouchedKeeps(d, e, Step(d, e));
  }

  lemma KeepsAlike(d: Deck, alike: Deck, e: Event, after: Deck)
    requires Keeps(alike, e, after) && alike.slides == d.slides && alike.notes == d.notes && alike.index == d.index
    ensures Keeps(d, e, after)
  {}

  /** Events that may touch the slides or the notes. */
  predicate Edits(e: Event) {
    e.Moves? || e.Deletes? || e.Types? || e.Persists? || e.DropsOn? || e.DropsBetween? || e.Changes?
  }

  lemma OtherwiseUntouched(d: Deck, e: Event)
    requires !Edits(e) && !e.Delivers?
    ensures var after := Step(d, e);
            && after.slides == d.slides && after.children == d.children && after.notes == d.notes
            && after.squelch == d.squelch && after.pending == d.pending
  {
    if Navigates(e) { NavigationLeaves(d, e); }
  }

  lemma NavigationLeaves(d: Deck, e: Event)
    requires Navigates(e)
    ensures var after := Step(d, e);
            && after.slides == d.slides && after.children == d.children && after.notes == d.notes
            && after.squelch == d.squelch && after.pending == d.pending
  {}

  lemma DeliveryKeeps(d: Deck)
    requires Synced(d)
    ensures SlotChange(d).slides == d.slides && SlotChange(d).children == d.children && SlotChange(d).notes == d.notes
  {}

  lemma UntouchedKeeps(d: Deck, e: Event, after: Deck)
    requires Exact(d) && !e.Types?
    requires after.slides == d.slides && after.children == d.children && after.notes == d.notes
    ensures Keeps(d, e, after)
  {}

  /** Every event, even one that throws, leaves each slide its note, moves and drops as far as the notes let them. */
  lemma StepKeepsNotes(d: Deck, e: Event)
    requires Exact(d) && !e.Changes? && MovesNotes(d, e)
    ensures Keeps(d, e, Step(d, e))
  {
    match e
    case Moves(i, j) => MoveKeeps(d, e, i, j);
    case Deletes(i) => DeleteKeeps(d, e, i);
    case Types(text) => TypeKeeps(d, text);
    case Persists => PersistKeeps(d);
    case DropsOn(_, _) => DropKeeps(d, e);
    case DropsBetween => DropKeeps(d, e);
    case Delivers =>
      DeliveryKeeps(d);
      UntouchedKeeps(d, e, SlotChange(d));
    case _ =>
      OtherwiseUntouched(d, e);
      UntouchedKeeps(d, e, Step(d, e));
  }

  /** The notes let every move and drop of the run, and nothing but the deck changes the slides. */
  predicate AlwaysMovesNotes(d: Deck, events: seq<Event>)
    decreases |events|
  {
    events != [] ==> !events[0].Changes? && MovesNotes(d, events[0]) && AlwaysMovesNotes(Step(d, events[0]), events[1..])
  }

  /** What was last typed into the notes box while `slide` was on screen. */
  ghost function Typed(d: Deck, events: seq<Event>, slide: Node): Option<string>
    decreases |events|
  {
    if events == [] then None
    else
      var later := Typed(Step(d, events[0]), events[1..], slide);
      if later.Some? then later
      else if events[0].Types? && d.index < |d.slides| && d.slides[d.index] == slide then Some(events[0].text)
      else None
  }

  /**
   Over every run without external changes in which the notes let every move, each remaining slide's note is
   what was last typed while it was on screen, or the note it began with, wherever it was moved.
   */
  lemma {:induction false} NotesFollowSlides(d: Deck, events: seq<Event>, slide: Node)
    requires Exact(d) && AlwaysMovesNotes(d, events) && slide in Run(d, events).slides
    ensures slide in d.slides
    ensures Note(Run(d, events), slide) == match Typed(d, events, slide) { case Some(text) => text case None => Note(d, slide) }
    decreases |events|
  {
    if events != [] {
      StepKeepsNotes(d, events[0]);
      NotesFollowSlides(Step(d, events[0]), events[1..], slide);
    }
  }

  /** Once no slotchange is queued the deck is in step with the document; a swallowed one has nothing to tell. */
  ghost predicate InStep(d: Deck) {
    (d.squelch ==> d.pending && Synced(d)) && (!d.pending ==> Synced(d))
  }

  /**
   The event tells the deck of every change: no other change joins the slotchange of a move or delete, unless
   it leaves the slides as they were, and no move throws, which raises the flag with nothing to swallow, unless
   a slotchange is queued that has nothing to tell.
   */
  ghost predicate Tells(d: Deck, e: Event) {
    && (e.Changes? && d.squelch ==> SlidesOf(e.children) == d.slides)
    && (Throws(d, e) ==> d.pending && Synced(d))
  }

  lemma MoveInStep(d: Deck, i: nat, j: int)
    requires InStep(d)
    ensures InStep(Move(d, i, j)) <==> (MoveThrows(d, i, j) ==> d.pending && Synced(d))
  {
    if !MoveRefused(d, i, j) && !MoveThrows(d, i, j) { MoveInserts(d, i, j); }
  }

  lemma DropInStep(d: Deck, e: Event)
    requires InStep(d) && (e.DropsOn? || e.DropsBetween?)
    ensures InStep(Step(d, e)) <==> Tells(d, e)
  {
    DropIsMove(d, e);
    var move := MoveOf(d, e);
    if move.Some? { MoveInStep(EndDrag(d), move.value.0, move.value.1); }
  }

  lemma DeleteInStep(d: Deck, i: nat)
    requires InStep(d)
    ensures InStep(Delete(d, i))
  {
    if i < |d.slides| && Synced(d) { SlidesAreChildren(d.children, d.slides[i]); }
  }

  lemma DeliveryInStep(d: Deck)
    requires InStep(d)
    ensures InStep(SlotChange(d))
  {}

  lemma StepInStep(d: Deck, e: Event)
    requires InStep(d)
    ensures InStep(Step(d, e)) <==> Tells(d, e)
  {
    match e
    case Moves(i, j) => MoveInStep(d, i, j);
    case Deletes(i) => DeleteInStep(d, i);
    case Types(text) => assert Step(d, e) == EditNote(d, text);
    case Persists => assert Step(d, e) == PersistNotes(d);
    case DropsOn(_, _) => DropInStep(d, e);
    case DropsBetween => DropInStep(d, e);
    case Changes(children) => assert Step(d, e) == Externally(d, children);
    case Delivers => DeliveryInStep(d);
    case _ => OtherwiseUntouched(d, e);
  }

  ghost predicate AlwaysInStep(d: Deck, events: seq<Event>)
    decreases |events|
  {
    InStep(d) && (events != [] ==> AlwaysInStep(Step(d, events[0]), events[1..]))
  }

  ghost predicate AlwaysTells(d: Deck, events: seq<Event>)
    decreases |events|
  {
    events != [] ==> Tells(d, events[0]) && AlwaysTells(Step(d, events[0]), events[1..])
  }

  /**
   What the flag that swallows slotchanges costs: over every run the deck shows the document's slides
   whenever no slotchange is queued, and has nothing to miss while the flag is up, exactly as long as every
   event tells it of every change.
   */
  lemma {:induction false} EveryRunIsInStep(d: Deck, events: seq<Event>)
    requires Fresh(d) || InStep(d)
    ensures AlwaysInStep(d, events) <==> AlwaysTells(d, events)
    decreases |events|
  {
    if events != [] {
      StepInStep(d, events[0]);
      if InStep(Step(d, events[0])) { EveryRunIsInStep(Step(d, events[0]), events[1..]); }
    }
  }

  /** While the flag is up, the queued slotchange swallows whatever joined it. */
  lemma Swallows(d: Deck, children: seq<Node>)
    requires d.squelch && d.pending
    ensures SlotChange(Externally(d, children)) == d.(children := children, pending := false, squelch := false)
  {}

  /** Clearing the deck right after any move goes unnoticed: the rail and the index keep slides that are gone. */
  lemma ClearedAfterMove(d: Deck, i: nat, j: nat)
    requires Tidy(d) && Synced(d) && i < |d.slides| && j < |d.slides| && i != j
    ensures var after := SlotChange(Externally(Move(d, i, j), []));
            !after.pending && !Synced(after) && |after.slides| == |d.slides| && SlidesOf(after.children) == []
  {
    MoveMoves(d, i, j);
    Swallows(Move(d, i, j), []);
  }

  lemma EmptiedMoveThrows(d: Deck)
    requires Tidy(d) && d.children == [] && 0 < d.index
    ensures d.slides != [] ==> MoveThrows(d, d.index, d.index - 1) && !Tidy(Move(d, d.index, d.index - 1))
  {
    if d.slides != [] { ThrownMoveTidiesExactly(d, d.index, d.index - 1); }
  }

  /** And then moving the current slide up throws, after the index has changed: nothing on screen follows it. */
  lemma MoveAfterClearing(d: Deck, i: nat, j: nat)
    requires Tidy(d) && Synced(d) && i < |d.slides| && j < |d.slides| && i != j
    ensures var after := SlotChange(Externally(Move(d, i, j), []));
            && Tidy(after)
            && (after.index > 0 ==>
                  MoveThrows(after, after.index, after.index - 1) && !Tidy(Move(after, after.index, after.index - 1)))
  {
    MoveMoves(d, i, j);
    MoveTidies(d, i, j);
    var moved := Move(d, i, j);
    ChangeTidies(moved, []);
    SlotChangeTidies(Externally(moved, []));
    Swallows(moved, []);
    var after := SlotChange(Externally(moved, []));
    if after.index > 0 { EmptiedMoveThrows(after); }
  }

  /** `x` stands right before `y`, or right after it. */
  ghost predicate Beside(slides: seq<Node>, x: Node, y: Node, where: Where) {
    exists k :: 0 <= k < |slides| - 1 && if where.Before? then slides[k] == x && slides[k + 1] == y else slides[k] == y && slides[k + 1] == x
  }

  lemma BesideAfterMove(slides: seq<Node>, from: nat, i: nat, where: Where)
    requires from < |slides| && i < |slides| && from != i
    ensures var to := Landing(from, Gap(i, where));
            to < |slides| && Beside(MoveElement(slides, from, to), slides[from], slides[i], where)
  {
    var to := Landing(from, Gap(i, where));
    LandsBeside(slides, from, i, where);
    var after, k := MoveElement(slides, from, to), if where.Before? then to else to - 1;
    assert 0 <= k < |after| - 1 && if where.Before? then after[k] == slides[from] else after[k] == slides[i];
  }

  ghost predicate Dropped(d: Deck, from: nat, to: nat, after: Deck)
    requires from < |d.slides| && to < |d.slides| && d.index < |d.slides|
  {
    && after.dragFrom.None? && Synced(after) && after.slides == MoveElement(d.slides, from, to)
    && after.index < |after.slides| && Shown(after) == Shown(d)
  }

  lemma DroppedByMove(d: Deck, from: nat, to: nat)
    requires Tidy(d) && Synced(d) && from < |d.slides| && to < |d.slides| && from != to
    ensures Dropped(d, from, to, Move(EndDrag(d), from, to))
  {
    EndDragTidies(d);
    MoveKeepsSlide(EndDrag(d), from, to);
  }

  lemma DroppedInPlace(d: Deck, from: nat)
    requires Tidy(d) && Synced(d) && from < |d.slides|
    ensures Dropped(d, from, from, EndDrag(d))
  {
    MoveNowhere(d.slides, from);
  }

  lemma DropAtMoves(d: Deck, from: nat, gap: nat)
    requires Tidy(d) && Synced(d) && from < |d.slides| && Landing(from, gap) < |d.slides|
    ensures Dropped(d, from, Landing(from, gap), DropAt(d, from, gap))
  {
    var to := Landing(from, gap);
    if to != from { DroppedByMove(d, from, to); } else { DroppedInPlace(d, from); }
  }

  /**
   A drop before or after another slide leaves the dragged slide right beside it, a drop on itself changes
   no order, and either way no other slide changes places and what was on screen is still there.
   */
  lemma DropLands(d: Deck, i: nat, where: Where)
    requires Tidy(d) && Synced(d) && i < |d.slides| && d.dragFrom.Some? && d.dragFrom.value < |d.slides|
    ensures Landing(d.dragFrom.value, Gap(i, where)) < |d.slides|
    ensures var from := d.dragFrom.value;
            var after := ThumbDrop(d, i, where);
            && Dropped(d, from, Landing(from, Gap(i, where)), after)
            && if from == i then after.slides == d.slides else Beside(after.slides, d.slides[from], d.slides[i], where)
  {
    var from, gap := d.dragFrom.value, Gap(i, where);
    DropAtMoves(d, from, gap);
    assert ThumbDrop(d, i, where) == DropAt(d, from, gap);
    if from != i {
      BesideAfterMove(d.slides, from, i, where);
    } else {
      MoveNowhere(d.slides, from);
    }
  }

  /** A drop between thumbs does what a drop on the thumb the indicator shows would do. */
  lemma DropBetweenIsDropOn(d: Deck, i: nat)
    requires Tidy(d) && i < |d.rail.thumbs| && d.rail.dropOn == Some(d.rail.thumbs[i])
    ensures RailDrop(d) == ThumbDrop(d, i, d.rail.dropWhere.value)
  {}

  function Clamp(i: int, total: nat): nat
    requires total > 0
  {
    if i < 0 then 0 else if i < total then i else total - 1
  }

  /** Navigation goes to the slide asked for, or the nearest end, announces it once if that is elsewhere, and changes no slide or note. */
  lemma GoAnnounces(d: Deck, i: int)
    requires Tidy(d) && d.slides != []
    ensures var after, to := Go(d, i), Clamp(i, |d.slides|);
            && after.index == to && after.slides == d.slides && after.children == d.children
            && after.notes == d.notes && after.skipped == d.skipped
            && after.log == d.log + if to == d.index then [] else [SlideChange(to, Some(d.index), |d.slides|)]
  {}

  /** A fragment naming a slide goes there; any other changes only the fragment. */
  lemma HashGoes(d: Deck, hash: Option<nat>)
    requires Tidy(d)
    ensures var after := HashChange(d, hash);
            if hash.Some? && 1 <= hash.value <= |d.slides| then after.index == hash.value - 1 && after.hash == hash
            else after == d.(hash := hash)
  {
    if hash.Some? && 1 <= hash.value <= |d.slides| && hash.value - 1 == d.index {
      assert HashChange(d, hash) == d.(hash := hash);
    }
  }

  /** Toggling flips the skip mark of that slide alone, stays where it is, and undoes itself. */
  lemma ToggleFlips(d: Deck, i: nat, slide: Node)
    requires Tidy(d) && i < |d.slides|
    ensures var after := ToggleSkip(d, i);
            && (slide in after.skipped <==> (slide in d.skipped) != (slide == d.slides[i]))
            && after.index == d.index && after.slides == d.slides && after.children == d.children && after.notes == d.notes
            && ToggleSkip(after, i).skipped == d.skipped
  {
    var after := ToggleSkip(d, i);
    assert after.slides == d.slides;
    if d.slides[i] in d.skipped {
      assert (d.skipped - {d.slides[i]}) + {d.slides[i]} == d.skipped;
    } else {
      assert (d.skipped + {d.slides[i]}) - {d.slides[i]} == d.skipped;
    }
  }

  /**
   A delivered slotchange takes over the document's slides and goes to the slide the fragment names, or if it
   names none of them stays at the same place in the list, or at its new end.
   */
  lemma DeliveryCatchesUp(d: Deck)
    requires Tidy(d) && d.pending && !d.squelch
    ensures var after := SlotChange(d);
            && !after.pending && Synced(after) && after.notes == d.notes
            && (after.slides != [] ==>
                  after.index == if d.hash.Some? && 1 <= d.hash.value <= |after.slides| then d.hash.value - 1 else Clamp(d.index, |after.slides|))
  {
    var c := Collect(d.(pending := false));
    CollectLeaves(d.(pending := false));
    ApplyLeaves(RestoreIndex(c), true);
  }

  /** For print every slide is active, and afterwards exactly the one that was on screen. */
  lemma PrintShowsAll(d: Deck, k: nat)
    requires Tidy(d) && k < |d.slides|
    ensures d.slides[k] in BeforePrint(d).active
    ensures var after := AfterPrint(BeforePrint(d));
            && after.slides == d.slides && after.index == d.index && after.log == d.log
            && (d.slides[k] in after.active <==> k == d.index)
  {
    PrintTidies(d);
    AfterPrintTidies(BeforePrint(d));
    assert d.slides[k] in AsSet(d.slides);
  }

  /** Every slide from `a` up to `b` is skipped. */
  ghost predicate AllSkipped(slides: seq<Node>, skipped: set<Node>, a: int, b: int) {
    forall m :: a <= m < b && 0 <= m < |slides| ==> slides[m] in skipped
  }

  lemma {:induction false} ScanUp(slides: seq<Node>, skipped: set<Node>, i: nat)
    ensures var k := NextUnskipped(slides, skipped, i, 1);
            if k.Some? then i <= k.value && AllSkipped(slides, skipped, i, k.value) else AllSkipped(slides, skipped, i, |slides|)
    decreases |slides| - i
  {
    if i < |slides| && slides[i] in skipped { ScanUp(slides, skipped, i + 1); }
  }

  lemma {:induction false} ScanDown(slides: seq<Node>, skipped: set<Node>, i: int)
    requires i < |slides|
    ensures var k := NextUnskipped(slides, skipped, i, -1);
            if k.Some? then k.value <= i && AllSkipped(slides, skipped, k.value + 1, i + 1) else AllSkipped(slides, skipped, 0, i + 1)
    decreases i
  {
    if i >= 0 && slides[i] in skipped { ScanDown(slides, skipped, i - 1); }
  }

  /** Advancing changes the index to what the scan finds, and neither the slides nor what is skipped. */
  lemma AdvanceIs(d: Deck, dir: int, k: Option<nat>)
    requires (dir == 1 || dir == -1) && k == NextUnskipped(d.slides, d.skipped, d.index + dir, dir)
    ensures var after := Advance(d, dir);
            && after.index == (if k.Some? then k.value else d.index)
            && after.slides == d.slides && after.skipped == d.skipped
  {}

  /** Next lands on the nearest unskipped slide further on, and stays put exactly when all of those are skipped. */
  lemma NextLandsNearest(d: Deck)
    requires InRange(d.index, |d.slides|) && d.slides != []
    ensures var after := Advance(d, 1);
            && d.index <= after.index < |d.slides| && after.slides == d.slides && after.skipped == d.skipped
            && (after.index == d.index <==> AllSkipped(d.slides, d.skipped, d.index + 1, |d.slides|))
            && (after.index != d.index ==>
                  d.slides[after.index] !in d.skipped && AllSkipped(d.slides, d.skipped, d.index + 1, after.index))
  {
    var k := NextUnskipped(d.slides, d.skipped, d.index + 1, 1);
    ScanUp(d.slides, d.skipped, d.index + 1);
    AdvanceIs(d, 1, k);
  }

  /** Previous does the same the other way. */
  lemma PreviousLandsNearest(d: Deck)
    requires InRange(d.index, |d.slides|) && d.slides != []
    ensures var after := Advance(d, -1);
            && after.index <= d.index && after.slides == d.slides && after.skipped == d.skipped
            && (after.index == d.index <==> AllSkipped(d.slides, d.skipped, 0, d.index))
            && (after.index != d.index ==>
                  d.slides[after.index] !in d.skipped && AllSkipped(d.slides, d.skipped, after.index + 1, d.index))
  {
    var k := NextUnskipped(d.slides, d.skipped, d.index - 1, -1);
    ScanDown(d.slides, d.skipped, d.index - 1);
    AdvanceIs(d, -1, k);
  }

  /** From an unskipped slide, next then previous returns whenever next moved. */
  lemma NextThenPrevious(d: Deck)
    requires d.index < |d.slides| && d.slides[d.index] !in d.skipped && Advance(d, 1).index != d.index
    ensures Advance(Advance(d, 1), -1).index == d.index
  {
    var after := Advance(d, 1);
    NextLandsNearest(d);
    PreviousLandsNearest(after);
  }

  /** And previous then next. */
  lemma PreviousThenNext(d: Deck)
    requires d.index < |d.slides| && d.slides[d.index] !in d.skipped && Advance(d, -1).index != d.index
    ensures Advance(Advance(d, -1), 1).index == d.index
  {
    var after := Advance(d, -1);
    PreviousLandsNearest(d);
    NextLandsNearest(after);
  }
}
