/** Which parts of a deck each event changes, and when it changes none. */
module DeckFrame {
  import opened Prelude
  import opened DomList
  import opened SlideList
  import opened RailState
  import opened DeckState
  import opened DeckInvariant
  import opened DeckEdits
  import opened DeckBroadcast

  /** The event asks for nothing, or for something the deck refuses. */
  ghost predicate Idle(d: Deck, e: Event) {
    match e
    case Goes(to) => d.slides == [] || Clamp(to, |d.slides|) == d.index
    case Advances(_) => InRange(d.index, |d.slides|) && !NavigatesAway(d, e)
    case Moves(i, j) => j < 0 || j >= |d.slides| || j == i
    case Deletes(i) => i >= |d.slides| || |d.slides| == 1
    case Toggles(i) => i >= |d.slides|
    case Delivers => !d.pending
    case Enables => d.rail.enabled
    case DropsOn(_, _) => d.dragFrom.None?
    case DropsBetween => d.dragFrom.None?
    case _ => false
  }

  lemma IdleChangesNothing(d: Deck, e: Event)
    requires Idle(d, e)
    ensures Step(d, e) == d
  {
    match e
    case Goes(to) => GoIs(d, to);
    case Advances(forward) =>
      var dir := if forward then 1 else -1;
      ScanFinds(d, forward, NextUnskipped(d.slides, d.skipped, d.index + dir, dir));
    case _ =>
  }

  /** The parts no navigation, edit or delivery touches. */
  ghost predicate Elsewhere(d: Deck, after: Deck) {
    && after.skipped == d.skipped && after.printing == d.printing && after.dragFrom == d.dragFrom
    && after.rail.enabled == d.rail.enabled && after.rail.dropMarks == d.rail.dropMarks
  }

  lemma ApplyElsewhere(d: Deck, broadcast: bool)
    ensures Elsewhere(d, Apply(d, broadcast)) && (d.slides != [] ==> Apply(d, broadcast).hash == Some(d.index + 1))
  {}

  lemma CollectElsewhere(d: Deck)
    ensures Elsewhere(d, Collect(d)) && Collect(d).hash == d.hash
  {}

  lemma RereadElsewhere(d: Deck)
    ensures var after := Apply(Collect(d), true);
            Elsewhere(d, after) && after.hash == if after.slides == [] then d.hash else Some(after.index + 1)
  {
    CollectElsewhere(d);
    ApplyElsewhere(Collect(d), true);
  }

  /** What the fragment is after an event that changes the slides, or the index, or neither. */
  ghost predicate FragmentFollows(d: Deck, after: Deck, applied: bool) {
    after.hash == if applied && after.slides != [] then Some(after.index + 1) else d.hash
  }

  lemma MoveIsReread(d: Deck, i: nat, j: int) returns (inserted: Deck)
    requires !MoveRefused(d, i, j) && !MoveThrows(d, i, j)
    ensures Move(d, i, j) == Apply(Collect(inserted), true) && Elsewhere(d, inserted) && inserted.hash == d.hash
  {
    MoveInserts(d, i, j);
    inserted := Inserted(d, i, j, InsertBefore(d.children, d.slides[i], MoveReference(d.children, d.slides, i, j)).value);
  }

  lemma MoveStops(d: Deck, i: nat, j: int)
    requires MoveRefused(d, i, j) || MoveThrows(d, i, j)
    ensures Elsewhere(d, Move(d, i, j)) && Move(d, i, j).hash == d.hash
  {}

  lemma ElsewhereInTurn(d: Deck, mid: Deck, after: Deck)
    requires Elsewhere(d, mid) && Elsewhere(mid, after)
    ensures Elsewhere(d, after)
  {}

  lemma MoveGoesElsewhere(d: Deck, i: nat, j: int)
    requires !MoveRefused(d, i, j) && !MoveThrows(d, i, j)
    ensures Elsewhere(d, Move(d, i, j)) && FragmentFollows(d, Move(d, i, j), true)
  {
    var inserted := MoveIsReread(d, i, j);
    RereadElsewhere(inserted);
    ElsewhereInTurn(d, inserted, Apply(Collect(inserted), true));
  }

  lemma MoveElsewhere(d: Deck, i: nat, j: int)
    ensures Elsewhere(d, Move(d, i, j)) && FragmentFollows(d, Move(d, i, j), !MoveRefused(d, i, j) && !MoveThrows(d, i, j))
  {
    if MoveRefused(d, i, j) || MoveThrows(d, i, j) { MoveStops(d, i, j); } else { MoveGoesElsewhere(d, i, j); }
  }

  lemma DeleteElsewhere(d: Deck, i: nat)
    ensures Elsewhere(d, Delete(d, i)) && FragmentFollows(d, Delete(d, i), i < |d.slides| && |d.slides| > 1)
  {
    if i < |d.slides| && |d.slides| > 1 { RereadElsewhere(Removed(d, i)); }
  }

  lemma DeliveryElsewhere(d: Deck)
    ensures Elsewhere(d, SlotChange(d)) && FragmentFollows(d, SlotChange(d), d.pending && !d.squelch)
  {
    if d.pending && !d.squelch {
      CollectElsewhere(d.(pending := false));
      ApplyElsewhere(RestoreIndex(Collect(d.(pending := false))), true);
    }
  }

  lemma GoElsewhere(d: Deck, i: int)
    ensures Elsewhere(d, Go(d, i)) && FragmentFollows(d, Go(d, i), d.slides != [] && Clamp(i, |d.slides|) != d.index)
  {
    if d.slides != [] { ApplyElsewhere(d.(index := Clamp(i, |d.slides|)), true); }
  }

  lemma AdvanceElsewhere(d: Deck, forward: bool)
    requires InRange(d.index, |d.slides|)
    ensures var after := Step(d, Advances(forward)); Elsewhere(d, after) && FragmentFollows(d, after, NavigatesAway(d, Advances(forward)))
  {
    var dir := if forward then 1 else -1;
    var k := NextUnskipped(d.slides, d.skipped, d.index + dir, dir);
    ScanFinds(d, forward, k);
    assert Advance(d, dir) == if k.None? then d else Go(d, k.value);
    if k.Some? { GoElsewhere(d, k.value); }
  }

  /** The event makes the deck apply its index. */
  ghost predicate Applies(d: Deck, e: Event) {
    NavigatesAway(d, e) || Rereads(d, e) || e.Printed?
  }

  /** The fragment after an event: the slide it applied, or the one the event itself names, or as it was. */
  ghost function Fragment(d: Deck, e: Event, after: Deck): Option<nat> {
    if Applies(d, e) && after.slides != [] then Some(after.index + 1) else if e.Hashes? then e.hash else d.hash
  }

  /** The drop indicator after an event: at the thumb pointed at, gone once the drag ends, or as it was. */
  ghost function Indicator(d: Deck, e: Event): map<Thumb, Where> {
    match e
    case Points(i, where) => if i < |d.rail.thumbs| then map[d.rail.thumbs[i] := where] else map[]
    case EndsDrag => map[]
    case DropsOn(_, _) => if d.dragFrom.Some? then map[] else d.rail.dropMarks
    case DropsBetween => if d.dragFrom.Some? then map[] else d.rail.dropMarks
    case _ => d.rail.dropMarks
  }

  lemma HashElsewhere(d: Deck, hash: Option<nat>)
    ensures var after := HashChange(d, hash); Elsewhere(d, after) && after.hash == Fragment(d, Hashes(hash), after)
  {
    var n := SlideFromHash(d.(hash := hash));
    if n.Some? {
      GoIs(d.(hash := hash), n.value);
      GoElsewhere(d.(hash := hash), n.value);
    }
  }

  lemma EndDragElsewhere(d: Deck)
    ensures var after := EndDrag(d);
            && after.skipped == d.skipped && after.printing == d.printing && after.dragFrom == None
            && after.rail.enabled == d.rail.enabled && after.rail.dropMarks == map[] && after.hash == d.hash
  {}

  /** What holds after any event of the parts that only some events change. */
  ghost predicate Framed(d: Deck, e: Event, after: Deck) {
    && (!e.Toggles? ==> after.skipped == d.skipped)
    && after.printing == (e.Prints? || (d.printing && !e.Printed?))
    && after.dragFrom == (if e.Drags? then Some(e.i) else if e.EndsDrag? || e.DropsOn? || e.DropsBetween? then None else d.dragFrom)
    && after.rail.enabled == (d.rail.enabled || e.Enables?)
    && after.rail.dropMarks == Indicator(d, e)
    && after.hash == Fragment(d, e, after)
  }

  lemma DropFramed(d: Deck, e: Event, after: Deck)
    requires (e.DropsOn? || e.DropsBetween?) && d.dragFrom.Some?
    requires Elsewhere(EndDrag(d), after) && FragmentFollows(d, after, Rereads(d, e))
    ensures Framed(d, e, after)
  {
    EndDragElsewhere(d);
  }

  lemma DropElsewhere(d: Deck, e: Event)
    requires e.DropsOn? || e.DropsBetween?
    ensures Framed(d, e, Step(d, e))
  {
    DropIsMove(d, e);
    var move := MoveOf(d, e);
    if move.Some? {
      EndDragElsewhere(d);
      MoveElsewhere(EndDrag(d), move.value.0, move.value.1);
      DropFramed(d, e, Move(EndDrag(d), move.value.0, move.value.1));
    } else if d.dragFrom.Some? {
      DropFramed(d, e, EndDrag(d));
    }
  }

  lemma EditFramed(d: Deck, e: Event, after: Deck)
    requires e.Moves? || e.Deletes? || e.Delivers?
    requires Elsewhere(d, after) && FragmentFollows(d, after, Rereads(d, e))
    ensures Framed(d, e, after)
  {}

  lemma EditElsewhere(d: Deck, e: Event)
    requires e.Moves? || e.Deletes? || e.Delivers?
    ensures Framed(d, e, Step(d, e))
  {
    match e
    case Moves(i, j) =>
      MoveElsewhere(d, i, j);
      EditFramed(d, e, Move(d, i, j));
    case Deletes(i) =>
      DeleteElsewhere(d, i);
      EditFramed(d, e, Delete(d, i));
    case Delivers =>
      DeliveryElsewhere(d);
      EditFramed(d, e, SlotChange(d));
  }

  lemma NavigationElsewhere(d: Deck, e: Event)
    requires InRange(d.index, |d.slides|) && (e.Goes? || e.Advances? || e.Hashes?)
    ensures Framed(d, e, Step(d, e))
  {
    match e
    case Goes(to) =>
      GoElsewhere(d, to);
      GoIs(d, to);
    case Advances(forward) =>
      AdvanceElsewhere(d, forward);
      AdvanceAnnounces(d, forward);
    case Hashes(hash) =>
      HashElsewhere(d, hash);
  }

  lemma HandlingElsewhere(d: Deck, e: Event)
    requires Handles(e)
    ensures Framed(d, e, Step(d, e))
  {}

  lemma PrintElsewhere(d: Deck, e: Event)
    requires e.Prints? || e.Printed?
    ensures Framed(d, e, Step(d, e))
  {
    if e.Printed? { ApplyElsewhere(d, false); }
  }

  lemma ToggleElsewhere(d: Deck, e: Event)
    requires e.Toggles?
    ensures Framed(d, e, Step(d, e))
  {}

  lemma OthersElsewhere(d: Deck, e: Event)
    requires e.Changes? || e.Types? || e.Persists?
    ensures Framed(d, e, Step(d, e))
  {}

  /**
   Skip marks change only by toggling, print mode only by printing, the drag only by dragging, dropping and letting
   go, the rail is enabled only on request, and the fragment and the drop indicator are always where they belong.
   */
  lemma StepFrames(d: Deck, e: Event)
    requires InRange(d.index, |d.slides|)
    ensures Framed(d, e, Step(d, e))
  {
    match e
    case Moves(_, _) => EditElsewhere(d, e);
    case Deletes(_) => EditElsewhere(d, e);
    case Delivers => EditElsewhere(d, e);
    case Goes(_) => NavigationElsewhere(d, e);
    case Advances(_) => NavigationElsewhere(d, e);
    case Hashes(_) => NavigationElsewhere(d, e);
    case DropsOn(_, _) => DropElsewhere(d, e);
    case DropsBetween => DropElsewhere(d, e);
    case Prints => PrintElsewhere(d, e);
    case Printed => PrintElsewhere(d, e);
    case Toggles(_) => ToggleElsewhere(d, e);
    case _ => if Handles(e) { HandlingElsewhere(d, e); } else { OthersElsewhere(d, e); }
  }

  /** Persisting fills the holes in the notes, and changes no note. */
  lemma PersistFills(d: Deck, k: nat)
    requires k < |d.notes|
    ensures |PersistNotes(d).notes| == |d.notes| && PersistNotes(d).notes[k] == Some(NoteText(d.notes, k))
  {}

  /** A slide dropped between thumbs lands where it would had it been dropped on the thumb last pointed at. */
  lemma PointThenDrop(d: Deck, i: nat, where: Where)
    requires Tidy(d) && i < |d.rail.thumbs|
    ensures var pointed := Step(d, Points(i, where)); Step(pointed, DropsBetween) == Step(pointed, DropsOn(i, where))
  {
    PointTidies(d, i, where);
    DroppedAlike(Step(d, Points(i, where)), i, where);
  }

  lemma DroppedAlike(d: Deck, i: nat, where: Where)
    requires Tidy(d) && i < |d.rail.thumbs| && d.rail.dropOn == Some(d.rail.thumbs[i]) && d.rail.dropWhere == Some(where)
    ensures Step(d, DropsBetween) == Step(d, DropsOn(i, where))
  {
    DropBetweenIsDropOn(d, i);
  }

  /** What a move makes of the deck's own children: the slide in another place, and all else, text included, in order as it was. */
  lemma MoveKeepsOthers(d: Deck, i: nat, j: nat)
    requires Exact(d) && i < |d.slides| && j < |d.slides| && i != j
    ensures Without(Move(d, i, j).children, d.slides[i]) == Without(d.children, d.slides[i])
  {
    var moved := MoveIsInsertion(d, i, j);
    CollectLeaves(Inserted(d, i, j, moved));
    ApplyLeaves(Collect(Inserted(d, i, j, moved)), true);
    SlidesAreChildren(d.children, d.slides[i]);
    InsertBeforeKeepsOthers(d.children, d.slides[i], MoveReference(d.children, d.slides, i, j));
  }

  /** And a delete: the slide gone, and all else as it was. */
  lemma DeleteKeepsOthers(d: Deck, i: nat)
    requires Exact(d) && i < |d.slides| && |d.slides| > 1
    ensures exists before, after :: d.children == before + [d.slides[i]] + after && Delete(d, i).children == before + after
  {
    CollectLeaves(Removed(d, i));
    ApplyLeaves(Collect(Removed(d, i)), true);
    var before, after := SplitAtSlide(d.children, i);
    TakenOut(before, d.slides[i], after);
  }
}
