/**
 The deck of deck-stage.js as a value, and what each of its operations makes of it. The class in
 DeckStage.dfy changes its fields step by step and is proved equal to these functions.
 */
module DeckState {
  import opened Prelude
  import opened DomList
  import opened SlideList
  import opened RailState

  /** A broadcast slide change; `previous` is None on the first. */
  datatype SlideChange = SlideChange(index: nat, previous: Option<nat>, total: nat)

  /**
   `children` is the deck's own child list and `slides` the list it last collected. `skipped`, `active`
   and `lastVisible` are the attributes set on elements. `pending` is a slotchange the browser has
   queued, `squelch` the flag to swallow it, `printing` lasts from beforeprint to afterprint, and
   `log` is what was broadcast.
   */
  datatype Deck = Deck(
    children: seq<Node>,
    slides: seq<Node>,
    skipped: set<Node>,
    active: set<Node>,
    lastVisible: set<Node>,
    index: nat,
    prevIndex: Option<nat>,
    hash: Option<nat>,
    notes: seq<Option<string>>,
    body: string,
    squelch: bool,
    pending: bool,
    printing: bool,
    dragFrom: Option<nat>,
    log: seq<SlideChange>,
    rail: State)

  // Notes

  /** What the notes box shows for slide `k`; a hole reads as empty. */
  function NoteText(notes: seq<Option<string>>, k: nat): string {
    if k < |notes| && notes[k].Some? then notes[k].value else ""
  }

  /** `notes[k] = text`, with holes up to it when the array is shorter. */
  function SetNote(notes: seq<Option<string>>, k: nat, text: string): (r: seq<Option<string>>)
    ensures |r| == if k < |notes| then |notes| else k + 1
    decreases k - |notes|
  {
    if k < |notes| then notes[k := Some(text)]
    else if k == |notes| then notes + [Some(text)]
    else SetNote(notes + [None], k, text)
  }

  /** `notes.splice(i, 1)`. */
  function SpliceOut(notes: seq<Option<string>>, i: nat): seq<Option<string>> {
    if i < |notes| then notes[..i] + notes[i + 1..] else notes
  }

  /** `notes.splice(j, 0, note)`; a place past the end is the end. */
  function SpliceIn(notes: seq<Option<string>>, j: nat, note: string): seq<Option<string>> {
    var at := if j < |notes| then j else |notes|;
    notes[..at] + [Some(note)] + notes[at..]
  }

  function MoveNote(notes: seq<Option<string>>, i: nat, j: nat): seq<Option<string>> {
    SpliceIn(SpliceOut(notes, i), j, NoteText(notes, i))
  }

  function Filled(notes: seq<Option<string>>): seq<Option<string>> {
    seq(|notes|, k requires 0 <= k < |notes| => Some(NoteText(notes, k)))
  }

  // Collecting and applying

  /** The last unskipped of the first `n` slides. */
  function LastUnskipped(slides: seq<Node>, skipped: set<Node>, n: nat): (k: Option<nat>)
    requires n <= |slides|
    ensures k.Some? ==> k.value < n && slides[k.value] !in skipped && forall m :: k.value < m < n ==> slides[m] in skipped
    ensures k.None? ==> forall m :: 0 <= m < n ==> slides[m] in skipped
  {
    if n == 0 then None
    else if slides[n - 1] !in skipped then Some(n - 1)
    else LastUnskipped(slides, skipped, n - 1)
  }

  /** `_markLastVisible`. */
  function MarkLastVisible(d: Deck): Deck {
    var last := LastUnskipped(d.slides, d.skipped, |d.slides|);
    d.(lastVisible := d.lastVisible - AsSet(d.slides) + if last.Some? then {d.slides[last.value]} else {})
  }

  /** `_renderRail` on the deck's own rail. */
  function Render(d: Deck): Deck {
    d.(rail := Reconcile(d.rail, d.slides, d.skipped, d.index))
  }

  /** The slides read from the document, and the index brought into range. */
  function Gather(d: Deck): Deck {
    var slides := SlidesOf(d.children);
    d.(slides := slides, index := if d.index < |slides| then d.index else if slides == [] then 0 else |slides| - 1)
  }

  /** `_collectSlides`. */
  function Collect(d: Deck): Deck {
    Render(MarkLastVisible(Gather(d)))
  }

  /** The active attribute on the indexed slide and on no other. */
  function MarkActive(d: Deck): Deck {
    d.(active := d.active - AsSet(d.slides) + Only(d.slides, d.index))
  }

  function FollowInRail(d: Deck): Deck {
    d.(rail := SyncRail(d.rail, d.index))
  }

  /** The notes box filled, the change broadcast, and the index remembered as applied. */
  function Announce(d: Deck, broadcast: bool): Deck {
    d.(body := NoteText(d.notes, d.index),
       log := if broadcast then d.log + [SlideChange(d.index, d.prevIndex, |d.slides|)] else d.log,
       prevIndex := Some(d.index))
  }

  /** `_applyIndex`. */
  function Apply(d: Deck, broadcast: bool): Deck {
    if d.slides == [] then d
    else
      d.(hash := Some(d.index + 1),
         active := d.active - AsSet(d.slides) + Only(d.slides, d.index),
         rail := SyncRail(d.rail, d.index),
         body := NoteText(d.notes, d.index),
         log := if broadcast then d.log + [SlideChange(d.index, d.prevIndex, |d.slides|)] else d.log,
         prevIndex := Some(d.index))
  }

  lemma ApplyInSteps(d: Deck, broadcast: bool)
    requires d.slides != []
    ensures Apply(d, broadcast) == Announce(FollowInRail(MarkActive(d.(hash := Some(d.index + 1)))), broadcast)
  {}

  /** `_slideFromHash`, on the number in the fragment. */
  function SlideFromHash(d: Deck): Option<nat> {
    if d.hash.Some? && 1 <= d.hash.value <= |d.slides| then Some(d.hash.value - 1) else None
  }

  function RestoreIndex(d: Deck): Deck {
    match SlideFromHash(d)
    case None => d
    case Some(n) => d.(index := n)
  }

  // Operations

  /** `_go`. */
  function Go(d: Deck, i: int): Deck {
    if d.slides == [] then d
    else
      var clamped := if i < 0 then 0 else if i < |d.slides| then i else |d.slides| - 1;
      if clamped == d.index then d else Apply(d.(index := clamped), true)
  }

  /** The nearest unskipped slide from `i` on in one direction. */
  function NextUnskipped(slides: seq<Node>, skipped: set<Node>, i: int, dir: int): (k: Option<nat>)
    requires dir == 1 || dir == -1
    ensures k.Some? ==> k.value < |slides| && slides[k.value] !in skipped
    decreases if dir == 1 then |slides| - i else i
  {
    if i < 0 || i >= |slides| then None
    else if slides[i] in skipped then NextUnskipped(slides, skipped, i + dir, dir)
    else Some(i)
  }

  /** `_advance`. */
  function Advance(d: Deck, dir: int): Deck
    requires dir == 1 || dir == -1
  {
    match NextUnskipped(d.slides, d.skipped, d.index + dir, dir)
    case None => d
    case Some(k) => Go(d, k)
  }

  /** The skip marks of a slide and its thumb, flipped. */
  function FlipSkip(d: Deck, i: nat): Deck
    requires i < |d.slides|
  {
    var slide, thumb := d.slides[i], Only(d.rail.thumbs, i);
    var on := slide !in d.skipped;
    d.(skipped := if on then d.skipped + {slide} else d.skipped - {slide},
       rail := d.rail.(skips := if on then d.rail.skips + thumb else d.rail.skips - thumb))
  }

  /** `_toggleSkip`. */
  function ToggleSkip(d: Deck, i: nat): Deck {
    if i >= |d.slides| then d else MarkLastVisible(FlipSkip(d, i))
  }

  function IndexAfterDelete(index: nat, i: nat, total: nat): nat
    requires total > 1 && i < total
  {
    if i < index || (i == index && i == total - 1) then index - 1 else index
  }

  /** A delete once the slide is out of the document. */
  function Unhooked(d: Deck, slide: Node): Deck {
    d.(squelch := true, pending := d.pending || slide in d.children, children := Without(d.children, slide))
  }

  /** A deck in the middle of a delete: the slide and its note gone, nothing collected yet. */
  function Removed(d: Deck, i: nat): Deck
    requires i < |d.slides| && |d.slides| > 1
  {
    Unhooked(d, d.slides[i]).(index := IndexAfterDelete(d.index, i, |d.slides|), notes := SpliceOut(d.notes, i))
  }

  /** `_deleteSlide`. */
  function Delete(d: Deck, i: nat): Deck {
    if i >= |d.slides| || |d.slides| <= 1 then d else Apply(Collect(Removed(d, i)), true)
  }

  function IndexAfterMove(index: nat, i: nat, j: nat): nat {
    if index == i then j else if i < index && j >= index then index - 1 else if i > index && j <= index then index + 1 else index
  }

  predicate MoveRefused(d: Deck, i: nat, j: int) {
    j < 0 || j >= |d.slides| || j == i
  }

  /** The insertion throws: there is no slide `i`, or the slide to insert before has left the deck unnoticed. */
  predicate MoveThrows(d: Deck, i: nat, j: int) {
    !MoveRefused(d, i, j) && (i >= |d.slides| || (j < i && d.slides[j] !in d.children))
  }

  /** A move once its index is chosen. */
  function Begun(d: Deck, i: nat, j: nat): Deck {
    d.(index := IndexAfterMove(d.index, i, j), squelch := true)
  }

  /** A move in the middle: the child list and the notes changed, nothing collected yet. */
  function Inserted(d: Deck, i: nat, j: nat, children: seq<Node>): Deck {
    Begun(d, i, j).(pending := true, children := children, notes := MoveNote(d.notes, i, j))
  }

  /** `_moveSlide`; when it throws, the index and the flag are already changed. */
  function Move(d: Deck, i: nat, j: int): Deck {
    if MoveRefused(d, i, j) then d
    else if MoveThrows(d, i, j) then Begun(d, i, j)
    else
      match InsertBefore(d.children, d.slides[i], MoveReference(d.children, d.slides, i, j))
      case None => Begun(d, i, j)
      case Some(moved) => Apply(Collect(Inserted(d, i, j, moved)), true)
  }

  /** `_onSlotChange`, when the browser delivers it. */
  function SlotChange(d: Deck): Deck {
    if !d.pending then d
    else if d.squelch then d.(pending := false, squelch := false)
    else Apply(RestoreIndex(Collect(d.(pending := false))), true)
  }

  /** The page's own script, or the host, replaces the deck's children. */
  function Externally(d: Deck, children: seq<Node>): Deck {
    d.(children := children, pending := d.pending || children != d.children)
  }

  /** `_onHashChange`. */
  function HashChange(d: Deck, hash: Option<nat>): Deck {
    var changed := d.(hash := hash);
    match SlideFromHash(changed)
    case None => changed
    case Some(n) => Go(changed, n)
  }

  function BeforePrint(d: Deck): Deck {
    d.(active := d.active + AsSet(d.slides), printing := true)
  }

  function AfterPrint(d: Deck): Deck {
    Apply(d, false).(printing := false)
  }

  /** Typing in the notes box. */
  function EditNote(d: Deck, text: string): Deck {
    d.(body := text, notes := SetNote(d.notes, d.index, text))
  }

  /** `_emitNotesChange`. */
  function PersistNotes(d: Deck): Deck {
    d.(notes := Filled(d.notes))
  }

  /** `_enableRail`. */
  function EnableRail(d: Deck): Deck {
    if d.rail.enabled then d
    else d.(rail := Reconcile(d.rail.(enabled := true), d.slides, d.skipped, d.index), body := NoteText(d.notes, d.index))
  }

  function EndDrag(d: Deck): Deck {
    d.(rail := Cleared(d.rail), dragFrom := None)
  }

  /** Take what is dragged to a gap, or let go of it. */
  function DropAt(d: Deck, from: nat, gap: nat): Deck {
    var to := Landing(from, gap);
    if to != from then Move(EndDrag(d), from, to) else EndDrag(d)
  }

  /** A drop on thumb `i`, in its upper or lower half. */
  function ThumbDrop(d: Deck, i: nat, where: Where): Deck {
    match d.dragFrom
    case None => d
    case Some(from) => DropAt(d, from, Gap(i, where))
  }

  /** Where a drop between thumbs goes: the gap the indicator shows. */
  function ShownGap(rail: State): Option<nat> {
    if rail.dropOn.Some? && rail.dropOn.value in rail.place && rail.dropWhere.Some?
    then Some(Gap(rail.place[rail.dropOn.value], rail.dropWhere.value)) else None
  }

  function RailDrop(d: Deck): Deck {
    match d.dragFrom
    case None => d
    case Some(from) =>
      match ShownGap(d.rail)
      case None => EndDrag(d)
      case Some(gap) => DropAt(d, from, gap)
  }

  /** Everything that can happen to a deck. */
  datatype Event =
    | Goes(to: int)
    | Advances(forward: bool)
    | Moves(i: nat, j: int)
    | Deletes(i: nat)
    | Toggles(i: nat)
    | Prints
    | Printed
    | Delivers
    | Changes(children: seq<Node>)
    | Hashes(hash: Option<nat>)
    | Types(text: string)
    | Persists
    | Enables
    | Drags(i: nat)
    | Points(i: nat, where: Where)
    | DropsOn(i: nat, where: Where)
    | DropsBetween
    | EndsDrag

  function Step(d: Deck, e: Event): Deck {
    match e
    case Goes(to) => Go(d, to)
    case Advances(forward) => Advance(d, if forward then 1 else -1)
    case Moves(i, j) => Move(d, i, j)
    case Deletes(i) => Delete(d, i)
    case Toggles(i) => ToggleSkip(d, i)
    case Prints => BeforePrint(d)
    case Printed => AfterPrint(d)
    case Delivers => SlotChange(d)
    case Changes(children) => Externally(d, children)
    case Hashes(hash) => HashChange(d, hash)
    case Types(text) => EditNote(d, text)
    case Persists => PersistNotes(d)
    case Enables => EnableRail(d)
    case Drags(i) => d.(dragFrom := Some(i))
    case Points(i, where) => d.(rail := SetDrop(d.rail, i, where))
    case DropsOn(i, where) => ThumbDrop(d, i, where)
    case DropsBetween => RailDrop(d)
    case EndsDrag => EndDrag(d)
  }
}
