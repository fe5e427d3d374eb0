/**
 What a key path means on a type, independently of the walk, and what the walk's
 three answers are worth against that meaning (scripts/gen-config-catalog.ts:223-403).
 */
module TypeMeaning {
  import opened Prelude
  import opened TypeSyntax
  import opened TypeLookup

  /** The member called `name`, however its name is written, and its type; a method's is opaque. */
  function NamedIn(ms: seq<TypeElement>, name: string): Option<Node> {
    if FirstProperty(ms, name).Some? then FirstProperty(ms, name) else NamedOtherwise(ms, name)
  }

  function NamedOtherwise(ms: seq<TypeElement>, name: string): Option<Node> {
    if ms == [] then None
    else
      match ms[0]
      case Quoted(key, annotation) => if key == name then Some(TypeOf(annotation)) else NamedOtherwise(ms[1..], name)
      case Method(key) => if key == name then Some(Opaque) else NamedOtherwise(ms[1..], name)
      case _ => NamedOtherwise(ms[1..], name)
  }

  /** The member that merged bodies have under the name a step asks for. */
  function Named(bodies: seq<Body>, steps: seq<Step>): Option<Place>
    requires steps != [] && steps[0].Member?
  {
    if bodies == [] then None
    else
      match NamedIn(bodies[0].members, steps[0].name)
      case Some(t) => Some(Place(bodies[0].file, t, steps[1..]))
      case None => Named(bodies[1..], steps)
  }

  /** The index signatures that answer to the name. */
  function Indexed(w: World, f: File, ms: seq<TypeElement>, steps: seq<Step>): seq<Place>
    requires steps != [] && steps[0].Member?
  {
    if ms == [] then []
    else if ms[0].IndexSignature? && w.accepts(ms[0].keyType, steps[0].name)
    then [Place(f, TypeOf(ms[0].annotation), steps[1..])] + Indexed(w, f, ms[1..], steps)
    else Indexed(w, f, ms[1..], steps)
  }

  function IndexedIn(w: World, bodies: seq<Body>, steps: seq<Step>): seq<Place>
    requires steps != [] && steps[0].Member?
  {
    if bodies == [] then []
    else Indexed(w, bodies[0].file, bodies[0].members, steps) + IndexedIn(w, bodies[1..], steps)
  }

  function InheritedBy(w: World, bodies: seq<Body>, steps: seq<Step>): seq<Place> {
    if bodies == [] then []
    else Places(bodies[0].file, w.BaseNodes(bodies[0].file, bodies[0].bases), steps) + InheritedBy(w, bodies[1..], steps)
  }

  /**
   Where the walk goes on although the type is something else, and what it is: an operator other than
   `readonly`, a generic that only shares its name with a built-in one, or an interface whose own member,
   not spelled plainly in the body the walk reads, overrides what its bases have.
   */
  function Misread(w: World, at: Place): Option<Place>
    requires at.steps != []
  {
    match at.node
    case Operator(keys, _) => if keys.Some? then Some(at.(node := keys.value)) else None
    case Ref(head, qualified, args) =>
      if head in BUILT_IN && args != [] && (qualified || (at.file, head) in w.scope)
      then Some(at.(node := if qualified then Opaque else w.Target(at.file, head))) else None
    case Declared(id) =>
      if id in w.decls && w.decls[id].form.Interface? && w.decls[id].form.bases != [] && at.steps[0].Member?
         && FirstProperty(w.decls[id].form.members, at.steps[0].name).None?
      then Named(w.decls[id].Bodies(), at.steps) else None
    case _ => None
  }

  /** Where a path may go on and the walk does not. */
  function Unread(w: World, at: Place): seq<Place>
    requires at.steps != []
  {
    if at.steps[0].Element? then []
    else
      match at.node
      case Literal(ms) => UnreadOf(w, [Body(at.file, ms, [])], at.steps)
      case Declared(id) =>
        if id in w.decls && w.decls[id].form.Interface? then UnreadOf(w, w.decls[id].Bodies(), at.steps) else []
      case _ => []
  }

  /** Of bodies of which the walk reads the first: the member it does not match, or else index signatures and the other bodies' bases. */
  function UnreadOf(w: World, bodies: seq<Body>, steps: seq<Step>): seq<Place>
    requires bodies != [] && steps != [] && steps[0].Member?
  {
    if FirstProperty(bodies[0].members, steps[0].name).Some? then []
    else
      match Named(bodies, steps)
      case Some(place) => [place]
      case None => IndexedIn(w, bodies, steps) + InheritedBy(w, bodies[1..], steps)
  }

  /** Where a path goes on: at one of these places, and at the branch taken of a union. */
  function Ways(w: World, at: Place): seq<Place>
    requires at.steps != []
  {
    match Misread(w, at)
    case Some(place) => [place]
    case None => Onward(w, at) + Unread(w, at)
  }

  /** Nothing in sight says whether the step can be taken. */
  predicate Unseen(w: World, at: Place)
    requires at.steps != []
  {
    Misread(w, at).None? &&
    match at.node
    case Declared(id) =>
      id !in w.decls || w.decls[id].form.Enum? || (w.decls[id].form.Interface? && at.steps[0].Element?)
    case Literal(_) => at.steps[0].Element?
    case ArrayOf(_) => at.steps[0].Member?
    case IndexedAccess(_, index) => index.None?
    case Ref(head, qualified, args) =>
      if head in PASSTHROUGH_WRAPPERS && args != [] then false
      else if head in ARRAY_NAMES && args != [] then at.steps[0].Member?
      else qualified
    case Opaque => true
    case _ => false
  }

  /** A value a type may have: which branch it takes of each union, and which paths the unseen types turn out to have. */
  datatype Completion = Completion(branch: Place -> nat, holds: Place -> bool)

  /** The path is present in completion `o`; a least fixpoint, so recursive types need a finite derivation. */
  least predicate Has[nat](o: Completion, w: World, at: Place) {
    at.steps == [] ||
    if Unseen(w, at) then o.holds(at)
    else if at.node.Union? then
      var ways := Ways(w, at);
      ways == [] || Has(o, w, ways[o.branch(at) % |ways|])
    else exists i | 0 <= i < |Ways(w, at)| :: Has(o, w, Ways(w, at)[i])
  }

  /** Every union branch, and every way the unseen types may turn out, has the path. */
  ghost predicate MustHave(w: World, at: Place) {
    forall o :: Has(o, w, at)
  }

  ghost predicate MayHave(w: World, at: Place) {
    exists o :: Has(o, w, at)
  }

  /** What is in sight has the path, in every branch of a union. */
  least predicate Sure[nat](w: World, at: Place) {
    at.steps == [] ||
    (!Unseen(w, at) &&
     if at.node.Union? then forall i | 0 <= i < |Ways(w, at)| :: Sure(w, Ways(w, at)[i])
     else exists i | 0 <= i < |Ways(w, at)| :: Sure(w, Ways(w, at)[i]))
  }

  /** In some branch of every union the path is there or leads to something unseen. */
  least predicate May[nat](w: World, at: Place) {
    at.steps == [] || Unseen(w, at) || (at.node.Union? && Ways(w, at) == [])
    || exists i | 0 <= i < |Ways(w, at)| :: May(w, Ways(w, at)[i])
  }

  /** What is sure, every completion has. */
  least lemma {:induction false} SureIsHad[nat](o: Completion, w: World, at: Place)
    requires Sure(w, at)
    ensures Has(o, w, at)
  {
    if at.steps != [] {
      var ways := Ways(w, at);
      if at.node.Union? {
        if ways != [] { SureIsHad(o, w, ways[o.branch(at) % |ways|]); }
      } else {
        var i :| 0 <= i < |ways| && Sure#[_k - 1](w, ways[i]);
        SureIsHad(o, w, ways[i]);
      }
    }
  }

  /** The completion that takes an unsure branch wherever it can, and in which the unseen types have nothing. */
  ghost function TowardsUnsure(w: World): Completion {
    Completion((at: Place) => UnsureBranch(w, at), (at: Place) => false)
  }

  ghost function UnsureBranch(w: World, at: Place): nat {
    if at.steps != [] && exists i: nat :: i < |Ways(w, at)| && !Sure(w, Ways(w, at)[i]) then
      var i: nat :| i < |Ways(w, at)| && !Sure(w, Ways(w, at)[i]); i
    else 0
  }

  lemma UnsureBranchIsTaken(w: World, at: Place, i: nat)
    requires at.steps != [] && i < |Ways(w, at)| && !Sure(w, Ways(w, at)[i])
    ensures !Sure(w, Ways(w, at)[TowardsUnsure(w).branch(at) % |Ways(w, at)|])
  {
    SmallModulo(UnsureBranch(w, at), |Ways(w, at)|);
  }

  lemma SmallModulo(i: nat, n: nat)
    requires i < n
    ensures i % n == i
  {}

  /** What that completion has is sure. */
  least lemma {:induction false} HadIsSure[nat](o: Completion, w: World, at: Place)
    requires Has(o, w, at) && o == TowardsUnsure(w)
    ensures Sure(w, at)
  {
    if at.steps != [] {
      var ways := Ways(w, at);
      if at.node.Union? {
        if ways != [] { HadIsSure(o, w, ways[o.branch(at) % |ways|]); }
        if i: nat :| i < |ways| && !Sure(w, ways[i]) { UnsureBranchIsTaken(w, at, i); }
      } else {
        var i :| 0 <= i < |ways| && Has#[_k - 1](o, w, ways[i]);
        HadIsSure(o, w, ways[i]);
      }
    }
  }

  /** A path is present in every union branch, however the unseen types turn out, exactly when it is sure. */
  lemma SureExactly(w: World, at: Place)
    ensures Sure(w, at) <==> MustHave(w, at)
  {
    if Sure(w, at) {
      forall o: Completion ensures Has(o, w, at) { SureIsHad(o, w, at); }
    }
    if MustHave(w, at) {
      assert Has(TowardsUnsure(w), w, at);
      HadIsSure(TowardsUnsure(w), w, at);
    }
  }

  /** The branch from which the fewest steps lead on. */
  ghost predicate Nearest(w: World, ways: seq<Place>, i: nat, rank: nat) {
    && i < |ways| && May#[rank](w, ways[i])
    && forall j: nat, k: nat :: j < |ways| && May#[k](w, ways[j]) ==> rank <= k
  }

  lemma {:induction false} NearestExists(w: World, ways: seq<Place>, i: nat, k: nat)
    requires i < |ways| && May#[k](w, ways[i])
    ensures exists j: nat, rank: nat :: Nearest(w, ways, j, rank)
    decreases k
  {
    if j: nat, earlier: nat :| j < |ways| && earlier < k && May#[earlier](w, ways[j]) {
      NearestExists(w, ways, j, earlier);
    } else {
      assert Nearest(w, ways, i, k);
    }
  }

  /** The completion that takes the nearest branch wherever there is one, and in which the unseen types have everything. */
  ghost function TowardsMay(w: World): Completion {
    Completion((at: Place) => NearestBranch(w, at), (at: Place) => true)
  }

  ghost function NearestBranch(w: World, at: Place): nat {
    if at.steps != [] && exists i: nat, rank: nat :: Nearest(w, Ways(w, at), i, rank) then
      var i: nat, rank: nat :| Nearest(w, Ways(w, at), i, rank); i
    else 0
  }

  lemma NearestIsTaken(w: World, at: Place, i: nat, k: nat) returns (taken: nat, rank: nat)
    requires at.steps != [] && i < |Ways(w, at)| && May#[k](w, Ways(w, at)[i])
    ensures taken < |Ways(w, at)| && taken == TowardsMay(w).branch(at) % |Ways(w, at)|
    ensures rank <= k && May#[rank](w, Ways(w, at)[taken])
  {
    NearestExists(w, Ways(w, at), i, k);
    taken := NearestBranch(w, at);
    rank :| Nearest(w, Ways(w, at), taken, rank);
    SmallModulo(taken, |Ways(w, at)|);
  }

  /** What may be, that completion has. */
  lemma {:induction false} MayIsHad(k: nat, w: World, at: Place)
    requires May#[k](w, at)
    ensures Has(TowardsMay(w), w, at)
    decreases k
  {
    if at.steps != [] && !Unseen(w, at) && Ways(w, at) != [] {
      var ways := Ways(w, at);
      var i: nat :| i < |ways| && May#[k - 1](w, ways[i]);
      if at.node.Union? {
        var taken, rank := NearestIsTaken(w, at, i, k - 1);
        MayIsHad(rank, w, ways[taken]);
      } else {
        MayIsHad(k - 1, w, ways[i]);
      }
    }
  }

  least lemma {:induction false} HadMayBe[nat](o: Completion, w: World, at: Place)
    requires Has(o, w, at)
    ensures May(w, at)
  {
    if at.steps != [] && !Unseen(w, at) && Ways(w, at) != [] {
      var ways := Ways(w, at);
      var i :| 0 <= i < |ways| && Has#[_k - 1](o, w, ways[i]);
      HadMayBe(o, w, ways[i]);
    }
  }

  /** A path is present in some branch, for some way the unseen types may turn out, exactly when it may be. */
  lemma MayExactly(w: World, at: Place)
    ensures May(w, at) <==> MayHave(w, at)
  {
    if May(w, at) {
      var k: nat :| May#[k](w, at);
      MayIsHad(k, w, at);
    }
    forall o: Completion | Has(o, w, at) ensures May(w, at) { HadMayBe(o, w, at); }
  }

  /** The walk comes to a place it misreads. */
  ghost predicate Crosses(w: World, at: Place) {
    Meets(w, at, Misreads(w))
  }

  ghost function Misreads(w: World): Place -> bool {
    (at: Place) => at.steps != [] && Misread(w, at).Some?
  }

  /** The walk comes to where the path may go on by a way it does not see. */
  least predicate Blind[nat](w: World, at: Place) {
    at.steps != [] &&
    match Misread(w, at)
    case Some(place) => May(w, place)
    case None =>
      || (exists i | 0 <= i < |Unread(w, at)| :: May(w, Unread(w, at)[i]))
      || exists i | 0 <= i < |Onward(w, at)| :: Blind(w, Onward(w, at)[i])
  }

  /** `Found` is right of a place unless the walk misreads one on the way; `Missing` is, unless there is a blind spot. */
  ghost predicate Right(w: World, at: Place, r: PathLookup) {
    && (r == Found ==> Sure(w, at) || Crosses(w, at))
    && (r == Missing ==> (May(w, at) ==> Blind(w, at)))
  }

  lemma OnwardIsSeen(w: World, at: Place)
    requires at.steps != [] && (Onward(w, at) != [] || (at.node.Literal? && at.steps[0].Member?) || at.node.Intersection? || at.node.Union?)
    ensures !Unseen(w, at)
  {}

  lemma CrossesOnward(w: World, at: Place, i: nat)
    requires at.steps != [] && i < |Onward(w, at)| && Crosses(w, Onward(w, at)[i])
    ensures Crosses(w, at)
  {
    MeetsOnward(w, at, Misreads(w), i);
  }

  lemma MisreadCrosses(w: World, at: Place)
    requires at.steps != [] && Misread(w, at).Some?
    ensures Crosses(w, at) && (May(w, at) ==> Blind(w, at))
  {
    assert Misreads(w)(at);
  }

  lemma SureOnward(w: World, at: Place, i: nat)
    requires at.steps != [] && !at.node.Union? && !Unseen(w, at) && Misread(w, at).None?
    requires i < |Onward(w, at)| && Sure(w, Onward(w, at)[i])
    ensures Sure(w, at)
  {
    assert Ways(w, at)[i] == Onward(w, at)[i];
  }

  lemma MayGoesOn(w: World, at: Place) returns (i: nat)
    requires at.steps != [] && !Unseen(w, at) && (at.node.Union? ==> Ways(w, at) != []) && May(w, at)
    ensures i < |Ways(w, at)| && May(w, Ways(w, at)[i])
  {
    i :| i < |Ways(w, at)| && May(w, Ways(w, at)[i]);
  }

  lemma WayIs(w: World, at: Place, i: nat)
    requires at.steps != [] && Misread(w, at).None? && i < |Ways(w, at)|
    ensures var onward := Onward(w, at);
            |Ways(w, at)| == |onward| + |Unread(w, at)|
            && Ways(w, at)[i] == if i < |onward| then onward[i] else Unread(w, at)[i - |onward|]
  {}

  lemma BlindOnward(w: World, at: Place, i: nat)
    requires at.steps != [] && Misread(w, at).None? && i < |Onward(w, at)| && Blind(w, Onward(w, at)[i])
    ensures Blind(w, at)
  {}

  lemma BlindUnread(w: World, at: Place, i: nat)
    requires at.steps != [] && Misread(w, at).None? && i < |Unread(w, at)| && May(w, Unread(w, at)[i])
    ensures Blind(w, at)
  {}

  lemma MissingIsRight(w: World, at: Place, rs: seq<PathLookup>)
    requires at.steps != [] && !Unseen(w, at) && Misread(w, at).None? && (at.node.Union? ==> Onward(w, at) != [])
    requires |rs| == |Onward(w, at)| && (forall i :: 0 <= i < |rs| ==> rs[i] == Missing)
    requires forall i :: 0 <= i < |rs| ==> Right(w, Onward(w, at)[i], rs[i])
    ensures May(w, at) ==> Blind(w, at)
  {
    if May(w, at) {
      var i := MayGoesOn(w, at);
      WayIs(w, at, i);
      if i < |rs| {
        assert rs[i] == Missing && Right(w, Onward(w, at)[i], rs[i]);
        BlindOnward(w, at, i);
      } else {
        BlindUnread(w, at, i - |rs|);
      }
    }
  }

  /** What the walk makes of places of which one is enough. */
  lemma CombineIsRight(w: World, at: Place, rs: seq<PathLookup>)
    requires at.steps != [] && !at.node.Union? && !Unseen(w, at)
    requires |rs| == |Onward(w, at)| && forall i :: 0 <= i < |rs| ==> Right(w, Onward(w, at)[i], rs[i])
    ensures Right(w, at, Combine(rs))
  {
    if Misread(w, at).Some? {
      MisreadCrosses(w, at);
    } else if Combine(rs) == Found {
      var i :| 0 <= i < |rs| && rs[i] == Found;
      if Crosses(w, Onward(w, at)[i]) { CrossesOnward(w, at, i); } else { SureOnward(w, at, i); }
    } else if Combine(rs) == Missing {
      forall i | 0 <= i < |rs| ensures rs[i] == Missing { assert rs[i] in rs; }
      MissingIsRight(w, at, rs);
    }
  }

  /** And of the branches of a union. */
  lemma AgreeIsRight(w: World, at: Place, rs: seq<PathLookup>)
    requires at.steps != [] && at.node.Union?
    requires |rs| == |Onward(w, at)| && forall i :: 0 <= i < |rs| ==> Right(w, Onward(w, at)[i], rs[i])
    ensures Right(w, at, Agree(rs))
  {
    var onward := Onward(w, at);
    assert Ways(w, at) == onward;
    forall i | 0 <= i < |rs| ensures rs[i] in rs {}
    if Agree(rs) == Found {
      if i :| 0 <= i < |rs| && Crosses(w, onward[i]) { CrossesOnward(w, at, i); }
    } else if Agree(rs) == Missing {
      MissingIsRight(w, at, rs);
    }
  }

  lemma OneIsRight(w: World, at: Place, r: PathLookup)
    requires at.steps != [] && !at.node.Union?
    requires |Onward(w, at)| == 1 && Right(w, Onward(w, at)[0], r)
    ensures Right(w, at, r)
  {
    OnwardIsSeen(w, at);
    CombineIsRight(w, at, [r]);
  }

  /** No definite answer of the walk is wrong but for those. */
  lemma {:induction false} LookupAgrees(w: World, f: File, n: Node, steps: seq<Step>, seen: set<Key>, stack: nat)
    ensures var r := Lookup(w, f, n, steps, seen, stack); r.Answer? ==> Right(w, Place(f, n, steps), r.result)
    decreases stack, 0
  {
    if stack > 0 && steps != [] {
      match n
      case Declared(id) =>
        if id in w.decls && !w.decls[id].form.Enum? && (id, |steps|) !in seen {
          DeclAgrees(w, f, id, steps, seen + {(id, |steps|)}, stack);
        }
      case Intersection(ts) =>
        PartsAgree(w, f, n, steps, ts, seen, stack);
      case Union(ts) =>
        PartsAgree(w, f, n, steps, ts, seen, stack);
      case _ =>
        SingleAgrees(w, f, n, steps, seen, stack);
    }
  }

  lemma {:induction false} SingleAgrees(w: World, f: File, n: Node, steps: seq<Step>, seen: set<Key>, stack: nat)
    requires steps != [] && stack > 0 && !n.Declared? && !n.Intersection? && !n.Union?
    ensures var r := Lookup(w, f, n, steps, seen, stack); r.Answer? ==> Right(w, Place(f, n, steps), r.result)
    decreases stack - 1, 3
  {
    var at := Place(f, n, steps);
    if Onward(w, at) != [] {
      var next := Onward(w, at)[0];
      LookupAgrees(w, next.file, next.node, next.steps, seen, stack - 1);
      var r := Lookup(w, next.file, next.node, next.steps, seen, stack - 1);
      assert Lookup(w, f, n, steps, seen, stack) == r;
      if r.Answer? { OneIsRight(w, at, r.result); }
    } else if n.Literal? && steps[0].Member? {
      OnwardIsSeen(w, at);
      CombineIsRight(w, at, []);
    }
  }

  lemma {:induction false} PartsAgree(w: World, f: File, n: Node, steps: seq<Step>, ts: seq<Node>, seen: set<Key>, stack: nat)
    requires steps != [] && stack > 0 && (n == Intersection(ts) || n == Union(ts))
    ensures var r := Lookup(w, f, n, steps, seen, stack); r.Answer? ==> Right(w, Place(f, n, steps), r.result)
    decreases stack - 1, 3
  {
    var at := Place(f, n, steps);
    LookupEachAgrees(w, f, ts, steps, seen, stack - 1);
    var each := LookupEach(w, f, ts, steps, seen, stack - 1);
    if each.Answers? {
      OnwardIsSeen(w, at);
      if n.Union? { AgreeIsRight(w, at, each.results); } else { CombineIsRight(w, at, each.results); }
    }
  }

  lemma {:induction false} DeclAgrees(w: World, f: File, id: DeclId, steps: seq<Step>, seen: set<Key>, stack: nat)
    requires id in w.decls && !w.decls[id].form.Enum? && steps != [] && stack > 0
    ensures var r := LookupDecl(w, w.decls[id], steps, seen, stack);
            r.Answer? ==> Right(w, Place(f, Declared(id), steps), r.result)
    decreases stack - 1, 3
  {
    var d, at := w.decls[id], Place(f, Declared(id), steps);
    if d.form.Interface? && steps[0].Member? && FirstProperty(d.form.members, steps[0].name).None? {
      var bases := w.BaseNodes(d.file, d.form.bases);
      LookupEachAgrees(w, d.file, bases, steps, seen, stack - 1);
      var each := LookupEach(w, d.file, bases, steps, seen, stack - 1);
      if each.Answers? { CombineIsRight(w, at, each.results); }
    } else if Onward(w, at) != [] {
      var next := Onward(w, at)[0];
      LookupAgrees(w, next.file, next.node, next.steps, seen, stack - 1);
      var r := Lookup(w, next.file, next.node, next.steps, seen, stack - 1);
      assert LookupDecl(w, d, steps, seen, stack) == r;
      if r.Answer? { OneIsRight(w, at, r.result); }
    }
  }

  lemma {:induction false} LookupEachAgrees(w: World, f: File, ts: seq<Node>, steps: seq<Step>, seen: set<Key>, stack: nat)
    ensures var r := LookupEach(w, f, ts, steps, seen, stack);
            r.Answers? ==> forall i :: 0 <= i < |ts| ==> Right(w, Place(f, ts[i], steps), r.results[i])
    decreases stack, 1, |ts|
  {
    if ts != [] {
      LookupAgrees(w, f, ts[0], steps, seen, stack);
      var first := Lookup(w, f, ts[0], steps, seen, stack);
      if first.Answer? { LookupEachAgrees(w, f, ts[1..], steps, first.seen, stack); }
    }
  }

  /** A blind spot is a way the path may go. */
  least lemma {:induction false} BlindMayBe[nat](w: World, at: Place)
    requires Blind(w, at)
    ensures May(w, at)
  {
    if Misread(w, at).Some? {
      assert Ways(w, at)[0] == Misread(w, at).value;
    } else if i :| 0 <= i < |Unread(w, at)| && May(w, Unread(w, at)[i]) {
      assert Ways(w, at)[|Onward(w, at)| + i] == Unread(w, at)[i];
    } else {
      var i :| 0 <= i < |Onward(w, at)| && Blind#[_k - 1](w, Onward(w, at)[i]);
      BlindMayBe(w, Onward(w, at)[i]);
      assert Ways(w, at)[i] == Onward(w, at)[i];
    }
  }

  /**
   For every world, node, path and call stack, and whatever the shared `seen` set already holds: `Found` means
   present in every union branch unless the walk misreads a place on its way; and after `Missing` the path
   may be present after all exactly when it runs into a blind spot.
   */
  lemma LookupIsHonestUpToBlindSpots(w: World, f: File, n: Node, steps: seq<Step>, seen: set<Key>, stack: nat)
    ensures var r, at := Lookup(w, f, n, steps, seen, stack), Place(f, n, steps);
            r.Answer? ==>
              && (r.result == Found ==> MustHave(w, at) || Crosses(w, at))
              && (r.result == Missing ==> (MayHave(w, at) <==> Blind(w, at)))
  {
    var at := Place(f, n, steps);
    LookupAgrees(w, f, n, steps, seen, stack);
    SureExactly(w, at);
    MayExactly(w, at);
    if Blind(w, at) { BlindMayBe(w, at); }
  }

  /**
   The catalog's promise wherever the walk misreads nothing on the path and has no blind spot on it, whatever
   else is declared: `Found` means present in every union branch, `Missing` means present in none, for every
   `seen` set the shared walk may carry.
   */
  lemma LookupIsHonest(w: World, f: File, n: Node, steps: seq<Step>, seen: set<Key>, stack: nat)
    requires !Blind(w, Place(f, n, steps)) && !Crosses(w, Place(f, n, steps))
    ensures var r, at := Lookup(w, f, n, steps, seen, stack), Place(f, n, steps);
            r.Answer? ==>
              && (r.result == Found ==> MustHave(w, at))
              && (r.result == Missing ==> !MayHave(w, at))
  {
    LookupIsHonestUpToBlindSpots(w, f, n, steps, seen, stack);
  }

  /** The forms the walk is written for: every member a plainly spelled property, no operator but `readonly`, no built-in name as a namespace. */
  predicate PlainHere(n: Node) {
    && (n.Operator? ==> n.keys.None?)
    && (n.Literal? ==> forall m :: m in n.members ==> m.Property?)
    && (n.Ref? && n.qualified ==> n.head !in BUILT_IN)
  }

  /** Declarations in those forms, none merged, and no file that binds the name of a built-in generic. */
  ghost predicate Plain(w: World) {
    && Throughout(w, PlainHere)
    && (forall id :: id in w.decls && w.decls[id].form.Interface? ==> w.decls[id].form.more == [])
    && (forall f, name :: (f, name) in w.scope ==> name !in BUILT_IN)
  }

  lemma {:induction false} PlainMembers(w: World, f: File, ms: seq<TypeElement>, steps: seq<Step>)
    requires steps != [] && steps[0].Member? && forall m :: m in ms ==> m.Property?
    ensures NamedOtherwise(ms, steps[0].name) == None && Indexed(w, f, ms, steps) == []
  {
    if ms != [] {
      assert ms[0] in ms;
      PlainMembers(w, f, ms[1..], steps);
    }
  }

  /** What of a single body the walk does not read. */
  lemma OneBody(w: World, b: Body, steps: seq<Step>)
    requires steps != [] && steps[0].Member?
    ensures UnreadOf(w, [b], steps) ==
              if FirstProperty(b.members, steps[0].name).Some? then []
              else
                match NamedOtherwise(b.members, steps[0].name)
                case Some(t) => [Place(b.file, t, steps[1..])]
                case None => Indexed(w, b.file, b.members, steps)
    ensures Named([b], steps) == match NamedIn(b.members, steps[0].name) { case Some(t) => Some(Place(b.file, t, steps[1..])) case None => None }
  {
    assert [b][1..] == [];
    var indexed := Indexed(w, b.file, b.members, steps);
    assert indexed + [] == indexed;
    assert Named([], steps) == None && IndexedIn(w, [], steps) == [] && InheritedBy(w, [], steps) == [];
  }

  lemma PlainIsRead(w: World, at: Place)
    requires Plain(w) && Everywhere(at.node, PlainHere) && at.steps != []
    ensures Misread(w, at) == None && Unread(w, at) == []
  {
    match at.node
    case Declared(id) =>
      if id in w.decls && w.decls[id].form.Interface? && at.steps[0].Member? {
        assert PlainHere(Literal(w.decls[id].form.members));
        PlainMembers(w, w.decls[id].file, w.decls[id].form.members, at.steps);
        var body := Body(w.decls[id].file, w.decls[id].form.members, w.decls[id].form.bases);
        assert w.decls[id].Bodies() == [body];
        OneBody(w, body, at.steps);
      }
    case Literal(ms) =>
      if at.steps[0].Member? {
        PlainMembers(w, at.file, ms, at.steps);
        OneBody(w, Body(at.file, ms, []), at.steps);
      }
    case _ =>
  }

  lemma PlainOnward(w: World, at: Place, i: nat)
    requires Plain(w) && Everywhere(at.node, PlainHere) && at.steps != [] && i < |Onward(w, at)|
    ensures Everywhere(Onward(w, at)[i].node, PlainHere)
  {
    match at.node
    case Declared(id) =>
      if w.decls[id].form.Interface? && at.steps[0].Member? { PropertyIsNested(w.decls[id].form.members, at.steps[0].name, PlainHere); }
    case Literal(ms) => PropertyIsNested(ms, at.steps[0].name, PlainHere);
    case Intersection(ts) => assert ts[i] in ts;
    case Union(ts) => assert ts[i] in ts;
    case Ref(_, _, args) => if args != [] { assert args[0] in args; }
    case _ =>
  }

  least lemma {:induction false} PlainIsNotBlind[nat](w: World, at: Place)
    requires Plain(w) && Everywhere(at.node, PlainHere) && Blind(w, at)
    ensures false
  {
    PlainIsRead(w, at);
    var i :| 0 <= i < |Onward(w, at)| && Blind#[_k - 1](w, Onward(w, at)[i]);
    PlainOnward(w, at, i);
    PlainIsNotBlind(w, Onward(w, at)[i]);
  }

  least lemma {:induction false} PlainIsNotCrossed[nat](w: World, at: Place, p: Place -> bool)
    requires Plain(w) && Everywhere(at.node, PlainHere) && Meets(w, at, p) && p == Misreads(w)
    ensures false
  {
    PlainIsRead(w, at);
    var i :| 0 <= i < |Onward(w, at)| && Meets#[_k - 1](w, Onward(w, at)[i], p);
    PlainOnward(w, at, i);
    PlainIsNotCrossed(w, Onward(w, at)[i], p);
  }

  /** Among such declarations the promise holds for every path. */
  lemma PlainIsHonest(w: World, f: File, n: Node, steps: seq<Step>, seen: set<Key>, stack: nat)
    requires Plain(w) && Everywhere(n, PlainHere)
    ensures var r, at := Lookup(w, f, n, steps, seen, stack), Place(f, n, steps);
            r.Answer? ==>
              && (r.result == Found ==> MustHave(w, at))
              && (r.result == Missing ==> !MayHave(w, at))
  {
    var at := Place(f, n, steps);
    if Blind(w, at) { PlainIsNotBlind(w, at); }
    if Crosses(w, at) { PlainIsNotCrossed(w, at, Misreads(w)); }
    LookupIsHonest(w, f, n, steps, seen, stack);
  }

  /** An operator at work: the walk answers for the operand, the path is that of the key type. */
  lemma OperatorIsMisread(w: World, f: File, keys: Node, t: Node, steps: seq<Step>, seen: set<Key>, stack: nat)
    requires steps != [] && stack > 0
    ensures var n := Operator(Some(keys), t);
            && Lookup(w, f, n, steps, seen, stack) == Lookup(w, f, t, steps, seen, stack - 1)
            && (MustHave(w, Place(f, n, steps)) <==> MustHave(w, Place(f, keys, steps)))
            && (MayHave(w, Place(f, n, steps)) <==> MayHave(w, Place(f, keys, steps)))
  {
    var at, really := Place(f, Operator(Some(keys), t), steps), Place(f, keys, steps);
    SureExactly(w, at);
    SureExactly(w, really);
    MayExactly(w, at);
    MayExactly(w, really);
    assert Ways(w, at) == [really];
    assert Ways(w, at)[0] == really;
  }

  /** A literal without a plainly spelled property of the name is answered `missing`, wrongly exactly when another member answers to it. */
  lemma HiddenMemberIsMisreported(w: World, f: File, ms: seq<TypeElement>, name: string, seen: set<Key>, stack: nat)
    requires FirstProperty(ms, name) == None && stack > 0
    ensures var at := Place(f, Literal(ms), [Member(name)]);
            && Lookup(w, f, Literal(ms), at.steps, seen, stack) == Answer(Missing, seen)
            && (MustHave(w, at) <==> NamedOtherwise(ms, name).Some? || Indexed(w, f, ms, at.steps) != [])
  {
    var at := Place(f, Literal(ms), [Member(name)]);
    SureExactly(w, at);
    OneBody(w, Body(f, ms, []), at.steps);
    LastStep(w, f, ms, at.steps);
    if Ways(w, at) != [] {
      assert Ways(w, at)[0].steps == [];
      assert Sure(w, Ways(w, at)[0]);
    }
  }

  /** Behind the last step nothing is left to look for. */
  lemma {:induction false} LastStep(w: World, f: File, ms: seq<TypeElement>, steps: seq<Step>)
    requires |steps| == 1 && steps[0].Member?
    ensures forall place :: place in Indexed(w, f, ms, steps) ==> place.steps == []
  {
    if ms != [] { LastStep(w, f, ms[1..], steps); }
  }

  lemma NoWay(w: World, at: Place)
    requires at.steps != [] && !at.node.Union? && !Unseen(w, at) && Ways(w, at) == []
    ensures !MayHave(w, at)
  {
    MayExactly(w, at);
  }

  lemma OneWay(w: World, at: Place, next: Place)
    requires at.steps != [] && !at.node.Union? && !Unseen(w, at) && Ways(w, at) == [next]
    ensures MustHave(w, at) <==> MustHave(w, next)
    ensures MayHave(w, at) <==> MayHave(w, next)
  {
    SureExactly(w, at);
    SureExactly(w, next);
    MayExactly(w, at);
    MayExactly(w, next);
    assert Ways(w, at)[0] == next;
  }

  lemma Arrived(w: World, at: Place)
    requires at.steps == []
    ensures MustHave(w, at)
  {
    SureExactly(w, at);
  }

  /** A literal of one plainly spelled property has it, and no other name. */
  lemma OneProperty(w: World, f: File, key: string, name: string)
    ensures var at := Place(f, Literal([Property(key, None)]), [Member(name)]);
            if name == key then MustHave(w, at) else !MayHave(w, at)
  {
    var ms := [Property(key, None)];
    var at := Place(f, Literal(ms), [Member(name)]);
    assert ms[1..] == [];
    OneBody(w, Body(f, ms, []), at.steps);
    if name == key {
      var end := Place(f, Opaque, at.steps[1..]);
      assert Ways(w, at) == [end];
      OneWay(w, at, end);
      Arrived(w, end);
    } else {
      PlainMembers(w, f, ms, at.steps);
      NoWay(w, at);
    }
  }

  lemma OnePropertyIsRead(w: World, f: File, key: string, name: string, seen: set<Key>, stack: nat)
    requires stack > 1
    ensures Lookup(w, f, Literal([Property(key, None)]), [Member(name)], seen, stack) == Answer(if name == key then Found else Missing, seen)
  {
    var ms, steps := [Property(key, None)], [Member(name)];
    assert ms[1..] == [] && steps[1..] == [];
    assert FirstProperty(ms, name) == if name == key then Some(Opaque) else None;
    assert Lookup(w, f, Opaque, [], seen, stack - 1) == Answer(Found, seen);
  }

  /** The literal `{ 'a': { c } }`: `a.b` is rightly missing, `a.c` wrongly. */
  lemma QuotedPropertyInputs(w: World, f: File, name: string, seen: set<Key>, stack: nat)
    requires stack > 0
    ensures var n, steps := Literal([Quoted("a", Some(Literal([Property("c", None)])))]), [Member("a"), Member(name)];
            && Lookup(w, f, n, steps, seen, stack) == Answer(Missing, seen)
            && if name == "c" then MustHave(w, Place(f, n, steps)) else !MayHave(w, Place(f, n, steps))
  {
    var inner := Literal([Property("c", None)]);
    var ms := [Quoted("a", Some(inner))];
    var at := Place(f, Literal(ms), [Member("a"), Member(name)]);
    assert ms[1..] == [] && at.steps[1..] == [Member(name)];
    assert FirstProperty(ms, "a") == None && NamedOtherwise(ms, "a") == Some(inner);
    var next := Place(f, inner, [Member(name)]);
    OneBody(w, Body(f, ms, []), at.steps);
    assert Ways(w, at) == [next];
    OneWay(w, at, next);
    OneProperty(w, f, "c", name);
  }

  /**
   Merged declarations at work: an interface without heritage, declared again with a member it does not
   declare itself. The walk reads the first declaration only and answers `missing`.
   */
  lemma MergedIsMisreported(w: World, f: File, id: DeclId, name: string, seen: set<Key>, stack: nat)
    requires id in w.decls && w.decls[id].form.Interface? && w.decls[id].form.bases == []
    requires FirstProperty(w.decls[id].form.members, name) == None && (id, 1) !in seen && stack > 0
    requires Named(w.decls[id].Bodies(), [Member(name)]).Some?
    ensures var at := Place(f, Declared(id), [Member(name)]);
            && Lookup(w, f, Declared(id), at.steps, seen, stack) == Answer(Missing, seen + {(id, 1)})
            && MustHave(w, at)
  {
    var at := Place(f, Declared(id), [Member(name)]);
    var next := Named(w.decls[id].Bodies(), at.steps).value;
    assert w.BaseNodes(w.decls[id].file, w.decls[id].form.bases) == [];
    assert LookupDecl(w, w.decls[id], at.steps, seen + {(id, 1)}, stack) == Answer(Missing, seen + {(id, 1)});
    assert Ways(w, at) == [next];
    OneWay(w, at, next);
    NamedGoesOn(w.decls[id].Bodies(), at.steps);
    Arrived(w, next);
  }

  lemma {:induction false} NamedGoesOn(bodies: seq<Body>, steps: seq<Step>)
    requires steps != [] && steps[0].Member? && Named(bodies, steps).Some?
    ensures Named(bodies, steps).value.steps == steps[1..]
  {
    if NamedIn(bodies[0].members, steps[0].name).None? { NamedGoesOn(bodies[1..], steps); }
  }

  /**
   With `keyof { a }` a string, and `length` standing for what strings have: `a` is wrongly found, `length`
   is wrongly missing, and any other name is rightly so.
   */
  lemma KeyofInputs(w: World, f: File, name: string, seen: set<Key>, stack: nat)
    requires stack > 2
    ensures var n := Operator(Some(Literal([Property("length", None)])), Literal([Property("a", None)]));
            var at := Place(f, n, [Member(name)]);
            && Lookup(w, f, n, at.steps, seen, stack) == Answer(if name == "a" then Found else Missing, seen)
            && if name == "length" then MustHave(w, at) else !MayHave(w, at)
  {
    OnePropertyIsRead(w, f, "a", name, seen, stack - 1);
    OperatorIsMisread(w, f, Literal([Property("length", None)]), Literal([Property("a", None)]), [Member(name)], seen, stack);
    OneProperty(w, f, "length", name);
  }

  /** A package's own `type Partial<T> = { b }`: the walk finds the members of its argument instead. */
  lemma ShadowedWrapperInput(f: File, accepts: (string, string) -> bool, seen: set<Key>, stack: nat)
    requires stack > 2
    ensures var w := World(map[0 := Decl(f, Alias(Literal([Property("b", None)])))], map[(f, "Partial") := 0], accepts);
            var n := Ref("Partial", false, [Literal([Property("a", None)])]);
            Lookup(w, f, n, [Member("a")], seen, stack) == Answer(Found, seen) && !MayHave(w, Place(f, n, [Member("a")]))
  {
    var body := Literal([Property("b", None)]);
    var w := World(map[0 := Decl(f, Alias(body))], map[(f, "Partial") := 0], accepts);
    var n := Ref("Partial", false, [Literal([Property("a", None)])]);
    var at, alias, end := Place(f, n, [Member("a")]), Place(f, Declared(0), [Member("a")]), Place(f, body, [Member("a")]);
    assert Ways(w, at) == [alias];
    OneWay(w, at, alias);
    assert Ways(w, alias) == [end];
    OneWay(w, alias, end);
    OneProperty(w, f, "b", "a");
    OnePropertyIsRead(w, f, "a", "a", seen, stack - 1);
  }

  /** What the shared set costs: `C & C` with an empty `C` lacks the path, and the second visit blurs that to unknown. */
  lemma SharedSetBlursMissing(f: File, accepts: (string, string) -> bool, stack: nat)
    requires stack > 3
    ensures var w := World(map[0 := Decl(f, Alias(Literal([])))], map[(f, "C") := 0], accepts);
            var n := Intersection([Ref("C", false, []), Ref("C", false, [])]);
            && Lookup(w, f, n, [Member("a")], {}, stack) == Answer(Unknown, {(0, 1)})
            && !MayHave(w, Place(f, n, [Member("a")]))
  {
    var w := World(map[0 := Decl(f, Alias(Literal([])))], map[(f, "C") := 0], accepts);
    var c := Ref("C", false, []);
    var steps := [Member("a")];
    NothingInEmpty(w, f, c, steps);
    BlurredByVisit(w, f, c, steps, stack);
  }

  lemma NothingInEmpty(w: World, f: File, c: Node, steps: seq<Step>)
    requires w.decls == map[0 := Decl(f, Alias(Literal([])))] && w.scope == map[(f, "C") := 0]
    requires c == Ref("C", false, []) && steps == [Member("a")]
    ensures !MayHave(w, Place(f, Intersection([c, c]), steps))
  {
    var both, one := Place(f, Intersection([c, c]), steps), Place(f, c, steps);
    NothingInC(w, f, steps);
    assert Ways(w, both) == [one, one];
    MayExactly(w, both);
    MayExactly(w, one);
  }

  lemma NothingInC(w: World, f: File, steps: seq<Step>)
    requires w.decls == map[0 := Decl(f, Alias(Literal([])))] && w.scope == map[(f, "C") := 0]
    requires steps == [Member("a")]
    ensures !MayHave(w, Place(f, Ref("C", false, []), steps))
  {
    var one, alias, end := Place(f, Ref("C", false, []), steps), Place(f, Declared(0), steps), Place(f, Literal([]), steps);
    OneBody(w, Body(f, [], []), steps);
    NoWay(w, end);
    assert Ways(w, alias) == [end];
    OneWay(w, alias, end);
    assert Ways(w, one) == [alias];
    OneWay(w, one, alias);
  }

  lemma BlurredByVisit(w: World, f: File, c: Node, steps: seq<Step>, stack: nat)
    requires w.decls == map[0 := Decl(f, Alias(Literal([])))] && w.scope == map[(f, "C") := 0]
    requires c == Ref("C", false, []) && steps == [Member("a")] && stack > 3
    ensures Lookup(w, f, Intersection([c, c]), steps, {}, stack) == Answer(Unknown, {(0, 1)})
  {
    assert FirstProperty([], "a") == None;
    assert Lookup(w, f, Literal([]), steps, {(0, 1)}, stack - 3) == Answer(Missing, {(0, 1)});
    assert {} + {(0, 1)} == {(0, 1)};
    assert LookupDecl(w, w.decls[0], steps, {(0, 1)}, stack - 2) == Answer(Missing, {(0, 1)});
    assert Lookup(w, f, Declared(0), steps, {}, stack - 2) == Answer(Missing, {(0, 1)});
    assert Lookup(w, f, c, steps, {}, stack - 1) == Answer(Missing, {(0, 1)});
    assert Lookup(w, f, Declared(0), steps, {(0, 1)}, stack - 2) == Answer(Unknown, {(0, 1)});
    assert Lookup(w, f, c, steps, {(0, 1)}, stack - 1) == Answer(Unknown, {(0, 1)});
    assert [c, c][1..] == [c];
    assert LookupEach(w, f, [c], steps, {(0, 1)}, stack - 1) == Answers([Unknown], {(0, 1)});
    assert LookupEach(w, f, [c, c], steps, {}, stack - 1) == Answers([Missing, Unknown], {(0, 1)});
  }
}
