/**
 When the walk must answer (scripts/gen-config-catalog.ts:317-403): its three answers are settled by what
 it reads, as long as it comes to no declaration twice with equally many steps to go.
 */
module TypeDecision {
  import opened Prelude
  import opened TypeSyntax
  import opened TypeLookup
  import opened TypeMeaning

  /** What the walk reads leads to the path, in every branch of a union. */
  least predicate Shown[nat](w: World, at: Place) {
    at.steps == [] ||
    if at.node.Union? then forall i | 0 <= i < |Onward(w, at)| :: Shown(w, Onward(w, at)[i])
    else exists i | 0 <= i < |Onward(w, at)| :: Shown(w, Onward(w, at)[i])
  }

  /** The walk looks for a member among declared ones, or at parts or branches: if it finds nothing there, nothing is there. */
  predicate Lists(w: World, at: Place)
    requires at.steps != []
  {
    Onward(w, at) != [] ||
    match at.node
    case Literal(_) => at.steps[0].Member?
    case Declared(id) => id in w.decls && w.decls[id].form.Interface? && at.steps[0].Member?
    case Intersection(_) => true
    case _ => false
  }

  /** Whatever the walk reads ends at members that lack the path. */
  least predicate Lacking[nat](w: World, at: Place) {
    at.steps != [] && Lists(w, at) && forall i | 0 <= i < |Onward(w, at)| :: Lacking(w, Onward(w, at)[i])
  }

  /** The keys the walk records at a place and on from there, in order, as far as the call stack reaches. */
  function Trail(w: World, at: Place, stack: nat): seq<Key>
    decreases stack, 0
  {
    if stack == 0 || at.steps == [] then [] else OwnKey(w, at) + Trails(w, Onward(w, at), stack - 1)
  }

  function Trails(w: World, ps: seq<Place>, stack: nat): seq<Key>
    decreases stack, 1, |ps|
  {
    if ps == [] then [] else Trail(w, ps[0], stack) + Trails(w, ps[1..], stack)
  }

  function OwnKey(w: World, at: Place): seq<Key> {
    if at.node.Declared? && at.node.id in w.decls && !w.decls[at.node.id].form.Enum? then [(at.node.id, |at.steps|)] else []
  }

  /** No key is recorded twice. */
  ghost predicate Once(keys: seq<Key>, seen: set<Key>) {
    Distinct(keys) && forall i :: 0 <= i < |keys| ==> keys[i] !in seen
  }

  function Recorded(keys: seq<Key>): set<Key> {
    set key | key in keys
  }

  lemma OnceInTurn(a: seq<Key>, b: seq<Key>, seen: set<Key>)
    requires Once(a + b, seen)
    ensures Once(a, seen) && Once(b, seen + Recorded(a)) && Recorded(a + b) == Recorded(a) + Recorded(b)
  {
    forall i | 0 <= i < |a| ensures a[i] == (a + b)[i] {}
    forall j | 0 <= j < |b| ensures b[j] == (a + b)[|a| + j] && b[j] !in a {}
  }

  /** The walk comes to a place it misreads, does not read all of, or cannot see into. */
  ghost predicate Obscured(w: World, at: Place) {
    Meets(w, at, Obscures(w))
  }

  ghost function Obscures(w: World): Place -> bool {
    (at: Place) => at.steps != [] && (Misread(w, at).Some? || Unread(w, at) != [] || Unseen(w, at))
  }

  /**
   The answer is exactly what the walk reads: `Found` where that leads to the path, `Missing` where it ends at
   members that lack it. And where nothing obscures the path, `Found` when it is present, `Missing` when it is not.
   */
  ghost predicate Exact(w: World, at: Place, r: PathLookup) {
    && (r == Found <==> Shown(w, at))
    && (r == Missing <==> Lacking(w, at))
    && (!Obscured(w, at) ==> (Sure(w, at) ==> r == Found) && (!May(w, at) ==> r == Missing))
  }

  lemma OnwardIsClear(w: World, at: Place, i: nat)
    requires at.steps != [] && !Obscured(w, at) && i < |Onward(w, at)|
    ensures !Obscured(w, Onward(w, at)[i])
  {
    MeetsOnward(w, at, Obscures(w), i);
  }

  lemma ClearIsRead(w: World, at: Place)
    requires at.steps != [] && !Obscured(w, at)
    ensures !Unseen(w, at) && Ways(w, at) == Onward(w, at)
  {
    assert !Obscures(w)(at);
  }

  ghost predicate AllExact(w: World, ps: seq<Place>, rs: seq<PathLookup>) {
    |rs| == |ps| && forall i :: 0 <= i < |rs| ==> Exact(w, ps[i], rs[i])
  }

  lemma CombineShows(w: World, at: Place, rs: seq<PathLookup>)
    requires at.steps != [] && !at.node.Union? && Lists(w, at) && AllExact(w, Onward(w, at), rs)
    ensures Combine(rs) == Found <==> Shown(w, at)
    ensures Combine(rs) == Missing <==> Lacking(w, at)
  {
    var ps := Onward(w, at);
    forall i | 0 <= i < |rs| ensures rs[i] in rs && Exact(w, ps[i], rs[i]) {}
    if Found in rs {
      var i :| 0 <= i < |rs| && rs[i] == Found;
      assert Shown(w, ps[i]);
    } else if Unknown in rs {
      var i :| 0 <= i < |rs| && rs[i] == Unknown;
      assert !Lacking(w, ps[i]);
    }
  }

  lemma CombineDecides(w: World, at: Place, rs: seq<PathLookup>)
    requires at.steps != [] && !at.node.Union? && !Obscured(w, at) && AllExact(w, Onward(w, at), rs)
    ensures (Sure(w, at) ==> Combine(rs) == Found) && (!May(w, at) ==> Combine(rs) == Missing)
  {
    var ps := Onward(w, at);
    ClearIsRead(w, at);
    forall i | 0 <= i < |rs| ensures rs[i] in rs && Exact(w, ps[i], rs[i]) && !Obscured(w, ps[i]) { OnwardIsClear(w, at, i); }
    if Sure(w, at) {
      var i :| 0 <= i < |ps| && Sure(w, ps[i]);
      assert rs[i] == Found;
    }
    if !May(w, at) {
      forall i | 0 <= i < |rs| ensures rs[i] == Missing { assert !May(w, ps[i]); }
    }
  }

  lemma CombineIsExact(w: World, at: Place, rs: seq<PathLookup>)
    requires at.steps != [] && !at.node.Union? && Lists(w, at) && AllExact(w, Onward(w, at), rs)
    ensures Exact(w, at, Combine(rs))
  {
    CombineShows(w, at, rs);
    if !Obscured(w, at) { CombineDecides(w, at, rs); }
  }

  lemma AgreeShows(w: World, at: Place, rs: seq<PathLookup>)
    requires at.steps != [] && at.node.Union? && AllExact(w, Onward(w, at), rs)
    ensures Agree(rs) == Found <==> Shown(w, at)
  {
    forall i | 0 <= i < |rs| ensures rs[i] in rs && Exact(w, Onward(w, at)[i], rs[i]) {}
    if i :| 0 <= i < |rs| && rs[i] != Found {
      assert !Shown(w, Onward(w, at)[i]);
    }
  }

  lemma AgreeLacks(w: World, at: Place, rs: seq<PathLookup>)
    requires at.steps != [] && at.node.Union? && AllExact(w, Onward(w, at), rs)
    ensures Agree(rs) == Missing <==> Lacking(w, at)
  {
    forall i | 0 <= i < |rs| ensures rs[i] in rs && Exact(w, Onward(w, at)[i], rs[i]) {}
    if i :| 0 <= i < |rs| && rs[i] != Missing {
      assert !Lacking(w, Onward(w, at)[i]);
    } else if rs != [] {
      assert rs[0] == Missing && forall i :: 0 <= i < |rs| ==> Lacking(w, Onward(w, at)[i]);
    }
  }

  lemma AgreeDecides(w: World, at: Place, rs: seq<PathLookup>)
    requires at.steps != [] && at.node.Union? && !Obscured(w, at) && AllExact(w, Onward(w, at), rs)
    ensures (Sure(w, at) ==> Agree(rs) == Found) && (!May(w, at) ==> Agree(rs) == Missing)
  {
    var ps := Onward(w, at);
    ClearIsRead(w, at);
    forall i | 0 <= i < |rs| ensures rs[i] in rs && Exact(w, ps[i], rs[i]) && !Obscured(w, ps[i]) { OnwardIsClear(w, at, i); }
    if !May(w, at) {
      forall i | 0 <= i < |rs| ensures rs[i] == Missing { assert !May(w, ps[i]); }
      assert rs[0] == Missing;
    }
  }

  lemma AgreeIsExact(w: World, at: Place, rs: seq<PathLookup>)
    requires at.steps != [] && at.node.Union? && AllExact(w, Onward(w, at), rs)
    ensures Exact(w, at, Agree(rs))
  {
    AgreeShows(w, at, rs);
    AgreeLacks(w, at, rs);
    if !Obscured(w, at) { AgreeDecides(w, at, rs); }
  }

  lemma OneIsExact(w: World, at: Place, r: PathLookup)
    requires at.steps != [] && !at.node.Union? && |Onward(w, at)| == 1 && Exact(w, Onward(w, at)[0], r)
    ensures Exact(w, at, r)
  {
    CombineIsExact(w, at, [r]);
  }

  /** Where the walk has nowhere to go and no list to look at, it cannot tell. */
  lemma NowhereIsUnknown(w: World, at: Place)
    requires at.steps != [] && Onward(w, at) == [] && !Lists(w, at) && !at.node.Union?
    ensures Exact(w, at, Unknown)
  {
    if !Obscured(w, at) { ClearIsRead(w, at); }
  }

  /** The walk's answer and what it records, where the walk records no key twice. */
  ghost predicate Decided(w: World, at: Place, o: Outcome, stack: nat, seen: set<Key>) {
    o.Answer? ==> Exact(w, at, o.result) && o.seen == seen + Recorded(Trail(w, at, stack))
  }

  /**
   Completeness: as long as no key is recorded twice, the walk answers `Found` exactly where what it reads
   leads to the path in every branch, `Missing` exactly where all it reads ends at members that lack it, and
   `Unknown` only otherwise; and where nothing obscures the path, it tells a present path and an absent one.
   */
  lemma {:induction false} LookupDecides(w: World, f: File, n: Node, steps: seq<Step>, seen: set<Key>, stack: nat)
    requires Once(Trail(w, Place(f, n, steps), stack), seen)
    ensures Decided(w, Place(f, n, steps), Lookup(w, f, n, steps, seen, stack), stack, seen)
    decreases stack, 0
  {
    var at := Place(f, n, steps);
    if stack > 0 {
      if steps == [] {
        assert Shown(w, at) && Trail(w, at, stack) == [];
      } else {
        match n
        case Declared(_) => DeclDecides(w, f, n, steps, seen, stack);
        case Intersection(ts) => PartsDecide(w, f, n, steps, ts, seen, stack);
        case Union(ts) => PartsDecide(w, f, n, steps, ts, seen, stack);
        case _ => SingleDecides(w, f, n, steps, seen, stack);
      }
    }
  }

  lemma {:induction false} SingleDecides(w: World, f: File, n: Node, steps: seq<Step>, seen: set<Key>, stack: nat)
    requires steps != [] && stack > 0 && !n.Declared? && !n.Intersection? && !n.Union?
    requires Once(Trail(w, Place(f, n, steps), stack), seen)
    ensures Decided(w, Place(f, n, steps), Lookup(w, f, n, steps, seen, stack), stack, seen)
    decreases stack - 1, 3
  {
    var at := Place(f, n, steps);
    TrailGoesOn(w, at, stack);
    if Onward(w, at) != [] {
      var next := OneWayOn(w, f, n, steps, seen, stack);
      TrailOfOne(w, next, stack - 1);
      LookupDecides(w, next.file, next.node, next.steps, seen, stack - 1);
      var r := Lookup(w, next.file, next.node, next.steps, seen, stack - 1);
      if r.Answer? { OneIsExact(w, at, r.result); }
    } else {
      NoWayOn(w, f, n, steps, seen, stack);
    }
  }

  /** A walk with one place to go on to answers what it answers there. */
  lemma OneWayOn(w: World, f: File, n: Node, steps: seq<Step>, seen: set<Key>, stack: nat) returns (next: Place)
    requires steps != [] && stack > 0 && !n.Declared? && !n.Intersection? && !n.Union?
    requires Onward(w, Place(f, n, steps)) != []
    ensures Onward(w, Place(f, n, steps)) == [next]
    ensures Lookup(w, f, n, steps, seen, stack) == Lookup(w, next.file, next.node, next.steps, seen, stack - 1)
  {
    next := Onward(w, Place(f, n, steps))[0];
  }

  lemma NoWayOn(w: World, f: File, n: Node, steps: seq<Step>, seen: set<Key>, stack: nat)
    requires steps != [] && stack > 0 && !n.Declared? && !n.Intersection? && !n.Union?
    requires Onward(w, Place(f, n, steps)) == []
    ensures Decided(w, Place(f, n, steps), Lookup(w, f, n, steps, seen, stack), stack, seen)
  {
    var at := Place(f, n, steps);
    TrailGoesOn(w, at, stack);
    assert Recorded([]) == {};
    if Lists(w, at) { CombineIsExact(w, at, []); } else { NowhereIsUnknown(w, at); }
  }

  lemma TrailGoesOn(w: World, at: Place, stack: nat)
    requires at.steps != [] && stack > 0 && !at.node.Declared?
    ensures Trail(w, at, stack) == Trails(w, Onward(w, at), stack - 1)
  {
    assert OwnKey(w, at) == [];
  }

  lemma TrailOfOne(w: World, at: Place, stack: nat)
    ensures Trails(w, [at], stack) == Trail(w, at, stack)
  {
    assert [at][1..] == [];
    assert Trails(w, [], stack) == [];
  }

  lemma {:induction false} PartsDecide(w: World, f: File, n: Node, steps: seq<Step>, ts: seq<Node>, seen: set<Key>, stack: nat)
    requires steps != [] && stack > 0 && (n == Intersection(ts) || n == Union(ts))
    requires Once(Trail(w, Place(f, n, steps), stack), seen)
    ensures Decided(w, Place(f, n, steps), Lookup(w, f, n, steps, seen, stack), stack, seen)
    decreases stack - 1, 3
  {
    var at := Place(f, n, steps);
    TrailGoesOn(w, at, stack);
    LookupEachDecides(w, f, ts, steps, seen, stack - 1);
    var each := LookupEach(w, f, ts, steps, seen, stack - 1);
    if each.Answers? {
      if n.Union? { AgreeIsExact(w, at, each.results); } else { CombineIsExact(w, at, each.results); }
    }
  }

  lemma {:induction false} DeclDecides(w: World, f: File, n: Node, steps: seq<Step>, seen: set<Key>, stack: nat)
    requires steps != [] && stack > 0 && n.Declared?
    requires Once(Trail(w, Place(f, n, steps), stack), seen)
    ensures Decided(w, Place(f, n, steps), Lookup(w, f, n, steps, seen, stack), stack, seen)
    decreases stack - 1, 4
  {
    var at, own := Place(f, n, steps), OwnKey(w, Place(f, n, steps));
    OnceInTurn(own, Trails(w, Onward(w, at), stack - 1), seen);
    if own != [] {
      assert own[0] !in seen && Recorded(own) == {own[0]};
      BodyDecides(w, f, n.id, steps, seen + Recorded(own), stack);
    } else {
      assert Onward(w, at) == [] && Recorded([]) == {};
      NowhereIsUnknown(w, at);
    }
  }

  lemma {:induction false} BodyDecides(w: World, f: File, id: DeclId, steps: seq<Step>, seen: set<Key>, stack: nat)
    requires id in w.decls && !w.decls[id].form.Enum? && steps != [] && stack > 0
    requires Once(Trails(w, Onward(w, Place(f, Declared(id), steps)), stack - 1), seen)
    ensures var at, o := Place(f, Declared(id), steps), LookupDecl(w, w.decls[id], steps, seen, stack);
            o.Answer? ==> Exact(w, at, o.result) && o.seen == seen + Recorded(Trails(w, Onward(w, at), stack - 1))
    decreases stack - 1, 3
  {
    var d, at := w.decls[id], Place(f, Declared(id), steps);
    if d.form.Interface? && steps[0].Member? && FirstProperty(d.form.members, steps[0].name).None? {
      var bases := w.BaseNodes(d.file, d.form.bases);
      LookupEachDecides(w, d.file, bases, steps, seen, stack - 1);
      var each := LookupEach(w, d.file, bases, steps, seen, stack - 1);
      if each.Answers? { CombineIsExact(w, at, each.results); }
    } else if Onward(w, at) != [] {
      var next := Onward(w, at)[0];
      assert Onward(w, at) == [next];
      TrailOfOne(w, next, stack - 1);
      LookupDecides(w, next.file, next.node, next.steps, seen, stack - 1);
      var r := Lookup(w, next.file, next.node, next.steps, seen, stack - 1);
      assert LookupDecl(w, d, steps, seen, stack) == r;
      if r.Answer? { OneIsExact(w, at, r.result); }
    } else {
      assert Recorded([]) == {};
      NowhereIsUnknown(w, at);
    }
  }

  lemma {:induction false} LookupEachDecides(w: World, f: File, ts: seq<Node>, steps: seq<Step>, seen: set<Key>, stack: nat)
    requires Once(Trails(w, Places(f, ts, steps), stack), seen)
    ensures var r, ps := LookupEach(w, f, ts, steps, seen, stack), Places(f, ts, steps);
            r.Answers? ==> AllExact(w, ps, r.results) && r.seen == seen + Recorded(Trails(w, ps, stack))
    decreases stack, 1, |ts|
  {
    if ts != [] {
      var here, there := Trail(w, Place(f, ts[0], steps), stack), Trails(w, Places(f, ts[1..], steps), stack);
      assert Places(f, ts, steps)[1..] == Places(f, ts[1..], steps);
      OnceInTurn(here, there, seen);
      LookupDecides(w, f, ts[0], steps, seen, stack);
      var first := Lookup(w, f, ts[0], steps, seen, stack);
      if first.Answer? { LookupEachDecides(w, f, ts[1..], steps, first.seen, stack); }
    } else {
      assert Recorded([]) == {};
    }
  }

  /**
   What is left for `Unknown`, where no key is recorded twice: with nothing obscured on the path, the walk says so
   exactly when the path is present in some branches of a union and not in others.
   */
  lemma UnknownExactly(w: World, f: File, n: Node, steps: seq<Step>, seen: set<Key>, stack: nat)
    requires Once(Trail(w, Place(f, n, steps), stack), seen) && !Obscured(w, Place(f, n, steps))
    ensures var r, at := Lookup(w, f, n, steps, seen, stack), Place(f, n, steps);
            r.Answer? ==>
              && (r.result == Found <==> MustHave(w, at))
              && (r.result == Missing <==> !MayHave(w, at))
              && (r.result == Unknown <==> MayHave(w, at) && !MustHave(w, at))
  {
    var at := Place(f, n, steps);
    LookupDecides(w, f, n, steps, seen, stack);
    SureExactly(w, at);
    MayExactly(w, at);
    if Blind(w, at) { BlindIsObscured(w, at, Obscures(w)); }
    if Crosses(w, at) { CrossingIsObscured(w, at, Misreads(w), Obscures(w)); }
    LookupIsHonest(w, f, n, steps, seen, stack);
  }

  least lemma {:induction false} BlindIsObscured[nat](w: World, at: Place, p: Place -> bool)
    requires Blind(w, at) && p == Obscures(w)
    ensures Meets(w, at, p)
  {
    if !p(at) {
      var i :| 0 <= i < |Onward(w, at)| && Blind#[_k - 1](w, Onward(w, at)[i]);
      BlindIsObscured(w, Onward(w, at)[i], p);
      MeetsOnward(w, at, p, i);
    }
  }

  least lemma {:induction false} CrossingIsObscured[nat](w: World, at: Place, p: Place -> bool, q: Place -> bool)
    requires Meets(w, at, p) && p == Misreads(w) && q == Obscures(w)
    ensures Meets(w, at, q)
  {
    if !q(at) {
      var i :| 0 <= i < |Onward(w, at)| && Meets#[_k - 1](w, Onward(w, at)[i], p);
      CrossingIsObscured(w, Onward(w, at)[i], p, q);
      MeetsOnward(w, at, q, i);
    }
  }
}
