/** When a deck broadcasts a slide change (deck-stage.js:1336-1346, 1800-1853 and 2406-2466), event by event and over runs. */
module DeckBroadcast {
  import opened Prelude
  import opened DomList
  import opened SlideList
  import opened RailState
  import opened DeckState
  import opened DeckInvariant
  import opened DeckEdits

  /** The event asks for a slide to go to, and it is not the current one. */
  ghost predicate NavigatesAway(d: Deck, e: Event) {
    match e
    case Goes(to) => d.slides != [] && Clamp(to, |d.slides|) != d.index
    case Advances(forward) => exists k :: 0 <= k < |d.slides| && (if forward then k > d.index else k < d.index) && d.slides[k] !in d.skipped
    case Hashes(hash) => hash.Some? && 1 <= hash.value <= |d.slides| && hash.value - 1 != d.index
    case _ => false
  }

  /** The event moves, drops or deletes a slide, and goes through. */
  predicate ChangesSlides(d: Deck, e: Event) {
    Rereads(d, e) && !e.Delivers?
  }

  ghost predicate Announces(d: Deck, e: Event) {
    NavigatesAway(d, e) || (Rereads(d, e) && Step(d, e).slides != [])
  }

  /** What the event is to broadcast: where the deck is now, where it was, and how many slides it has. */
  ghost function Announced(d: Deck, e: Event): seq<SlideChange> {
    if Announces(d, e) then [SlideChange(Step(d, e).index, d.prevIndex, |Step(d, e).slides|)] else []
  }

  lemma CollectedIsAnnounced(d: Deck)
    ensures var after := Apply(Collect(d), true);
            after.log == d.log + if after.slides == [] then [] else [SlideChange(after.index, d.prevIndex, |after.slides|)]
  {}

  lemma MoveAnnounces(d: Deck, i: nat, j: int)
    ensures var after := Move(d, i, j);
            after.log == d.log +
              if MoveRefused(d, i, j) || MoveThrows(d, i, j) || after.slides == [] then []
              else [SlideChange(after.index, d.prevIndex, |after.slides|)]
  {
    if !MoveRefused(d, i, j) && !MoveThrows(d, i, j) {
      MoveInserts(d, i, j);
      var moved := InsertBefore(d.children, d.slides[i], MoveReference(d.children, d.slides, i, j)).value;
      CollectedIsAnnounced(Inserted(d, i, j, moved));
    }
  }

  lemma DeleteAnnounces(d: Deck, i: nat)
    ensures var after := Delete(d, i);
            after.log == d.log +
              if i >= |d.slides| || |d.slides| <= 1 || after.slides == [] then []
              else [SlideChange(after.index, d.prevIndex, |after.slides|)]
  {
    if i < |d.slides| && |d.slides| > 1 { CollectedIsAnnounced(Removed(d, i)); }
  }

  lemma DeliveryAnnounces(d: Deck)
    ensures var after := SlotChange(d);
            after.log == d.log +
              if !d.pending || d.squelch || after.slides == [] then [] else [SlideChange(after.index, d.prevIndex, |after.slides|)]
  {}

  lemma DropAnnounces(d: Deck, e: Event)
    requires e.DropsOn? || e.DropsBetween?
    ensures Step(d, e).log == d.log + Announced(d, e)
  {
    DropIsMove(d, e);
    var move := MoveOf(d, e);
    if move.Some? { MoveAnnounces(EndDrag(d), move.value.0, move.value.1); }
  }

  lemma ScanFinds(d: Deck, forward: bool, k: Option<nat>)
    requires InRange(d.index, |d.slides|)
    requires var dir := if forward then 1 else -1; k == NextUnskipped(d.slides, d.skipped, d.index + dir, dir)
    ensures NavigatesAway(d, Advances(forward)) <==> k.Some?
    ensures k.Some? ==> k.value < |d.slides| && k.value != d.index
  {
    if d.slides != [] {
      if forward { ScanUp(d.slides, d.skipped, d.index + 1); } else { ScanDown(d.slides, d.skipped, d.index - 1); }
    }
  }

  lemma AdvanceAnnounces(d: Deck, forward: bool)
    requires InRange(d.index, |d.slides|)
    ensures Step(d, Advances(forward)).log == d.log + Announced(d, Advances(forward))
  {
    var dir := if forward then 1 else -1;
    var k := NextUnskipped(d.slides, d.skipped, d.index + dir, dir);
    ScanFinds(d, forward, k);
    assert Advance(d, dir) == if k.None? then d else Go(d, k.value);
    if k.Some? { GoIs(d, k.value); }
  }

  lemma GoIs(d: Deck, i: int)
    ensures var after := Go(d, i);
            && after.slides == d.slides
            && if d.slides == [] || Clamp(i, |d.slides|) == d.index then after == d
               else after.index == Clamp(i, |d.slides|) && after.log == d.log + [SlideChange(after.index, d.prevIndex, |d.slides|)]
  {}

  lemma HashAnnounces(d: Deck, hash: Option<nat>)
    ensures Step(d, Hashes(hash)).log == d.log + Announced(d, Hashes(hash))
  {
    var n := SlideFromHash(d.(hash := hash));
    if n.Some? { GoIs(d.(hash := hash), n.value); }
  }

  /** One event broadcasts at most once, and exactly when it navigates away, changes the slides or delivers a change from outside. */
  lemma StepAnnounces(d: Deck, e: Event)
    requires InRange(d.index, |d.slides|)
    ensures Step(d, e).log == d.log + Announced(d, e)
  {
    match e
    case Goes(to) => GoIs(d, to);
    case Advances(forward) => AdvanceAnnounces(d, forward);
    case Hashes(hash) => HashAnnounces(d, hash);
    case Moves(i, j) => MoveAnnounces(d, i, j);
    case Deletes(i) => DeleteAnnounces(d, i);
    case Delivers => DeliveryAnnounces(d);
    case DropsOn(_, _) => DropAnnounces(d, e);
    case DropsBetween => DropAnnounces(d, e);
    case _ =>
  }

  /** What a run broadcasts, event by event. */
  ghost function Heard(d: Deck, events: seq<Event>): seq<SlideChange>
    decreases |events|
  {
    if events == [] then [] else Announced(d, events[0]) + Heard(Step(d, events[0]), events[1..])
  }

  lemma InTurn<T>(log: seq<T>, here: seq<T>, later: seq<T>)
    ensures (log + here) + later == log + (here + later)
  {}

  /** Over every run that stays in order the log grows by exactly that. */
  lemma {:induction false} EveryRunIsHeard(d: Deck, events: seq<Event>)
    requires AlwaysTidy(d, events)
    ensures Run(d, events).log == d.log + Heard(d, events)
    decreases |events|
  {
    if events != [] {
      StepAnnounces(d, events[0]);
      EveryRunIsHeard(Step(d, events[0]), events[1..]);
      InTurn(d.log, Announced(d, events[0]), Heard(Step(d, events[0]), events[1..]));
    }
  }

  /** It broadcast once, with its slotchange queued and the flag up for it; delivering that changes nothing but those two. */
  ghost predicate Swallowed(d: Deck, after: Deck) {
    && after.log == d.log + [SlideChange(after.index, d.prevIndex, |after.slides|)]
    && after.pending && after.squelch
    && Step(after, Delivers) == after.(pending := false, squelch := false)
  }

  lemma IsSwallowed(d: Deck, after: Deck)
    requires after.pending && after.squelch && after.log == d.log + [SlideChange(after.index, d.prevIndex, |after.slides|)]
    ensures Swallowed(d, after)
  {}

  lemma MoveIsSwallowed(d: Deck, i: nat, j: nat)
    requires Exact(d) && i < |d.slides| && j < |d.slides| && i != j
    ensures Swallowed(d, Move(d, i, j))
  {
    MoveMoves(d, i, j);
    MoveAnnounces(d, i, j);
    IsSwallowed(d, Move(d, i, j));
  }

  lemma DeleteIsSwallowed(d: Deck, i: nat)
    requires Exact(d) && i < |d.slides| && |d.slides| > 1
    ensures Swallowed(d, Delete(d, i))
  {
    DeleteDeletes(d, i);
    DeleteAnnounces(d, i);
    SlidesAreChildren(d.children, d.slides[i]);
    DeleteQueues(d, i);
    IsSwallowed(d, Delete(d, i));
  }

  /** So every move, drop or delete that goes through. */
  lemma OwnSlotchangeIsSwallowed(d: Deck, e: Event)
    requires Exact(d) && ChangesSlides(d, e)
    ensures Swallowed(d, Step(d, e))
  {
    if e.Deletes? {
      DeleteIsSwallowed(d, e.i);
    } else {
      var move := MoveOf(d, e).value;
      if e.Moves? {
        MoveIsSwallowed(d, move.0, move.1);
      } else {
        DropIsMove(d, e);
        MoveIsSwallowed(EndDrag(d), move.0, move.1);
      }
    }
  }

  lemma DeleteQueues(d: Deck, i: nat)
    requires i < |d.slides| && |d.slides| > 1
    ensures Delete(d, i).squelch && Delete(d, i).pending == (d.pending || d.slides[i] in d.children)
  {
    CollectLeaves(Removed(d, i));
    ApplyLeaves(Collect(Removed(d, i)), true);
  }

  /** A slotchange is queued only with the flag up for it: nothing from outside is waiting. */
  predicate Calm(d: Deck) {
    d.pending ==> d.squelch
  }

  /** Left to itself, a deck that shows the document's slides keeps doing so, and nothing from outside waits. */
  lemma StepStaysCalm(d: Deck, e: Event)
    requires Exact(d) && Calm(d) && !e.Changes?
    ensures Exact(Step(d, e)) && Calm(Step(d, e))
    ensures Announces(d, e) <==> NavigatesAway(d, e) || ChangesSlides(d, e)
  {
    if ChangesSlides(d, e) {
      OwnSlotchangeIsSwallowed(d, e);
      ChangeStaysExact(d, e);
    } else if Edits(e) {
      NoChangeStaysCalm(d, e);
    } else if !e.Delivers? {
      OtherwiseUntouched(d, e);
    }
  }

  lemma ChangeStaysExact(d: Deck, e: Event)
    requires Exact(d) && ChangesSlides(d, e)
    ensures Exact(Step(d, e)) && Step(d, e).slides != []
  {
    if e.Deletes? {
      DeleteDeletes(d, e.i);
    } else {
      var move := MoveOf(d, e).value;
      if !e.Moves? { DropIsMove(d, e); }
      MoveMoves(if e.Moves? then d else EndDrag(d), move.0, move.1);
    }
  }

  lemma NoChangeStaysCalm(d: Deck, e: Event)
    requires Exact(d) && Calm(d) && Edits(e) && !e.Changes? && !ChangesSlides(d, e)
    ensures Exact(Step(d, e)) && Calm(Step(d, e))
  {
    if e.DropsOn? || e.DropsBetween? { DropIsMove(d, e); }
  }

  /** How many events of a run navigate away or change the slides. */
  ghost function Acts(d: Deck, events: seq<Event>): nat
    decreases |events|
  {
    if events == [] then 0
    else
      (if NavigatesAway(d, events[0]) || ChangesSlides(d, events[0]) then 1 else 0) + Acts(Step(d, events[0]), events[1..])
  }

  /**
   Over every run that stays in order and is left to itself, from a deck that shows the document's slides: one
   broadcast for each navigation elsewhere and for each move, drop or delete that goes through, and none else,
   whenever the browser delivers the slotchanges these queue.
   */
  lemma {:induction false} EveryRunBroadcastsOnce(d: Deck, events: seq<Event>)
    requires Exact(d) && Calm(d) && AlwaysTidy(d, events) && forall e :: e in events ==> !e.Changes?
    ensures |Run(d, events).log| == |d.log| + Acts(d, events)
    decreases |events|
  {
    if events != [] {
      assert events[0] in events && forall e :: e in events[1..] ==> e in events;
      StepAnnounces(d, events[0]);
      StepStaysCalm(d, events[0]);
      EveryRunBroadcastsOnce(Step(d, events[0]), events[1..]);
    }
  }
}
