/**
 Where a key path goes on in a type, form by form, as the language has it and without regard to the walk of
 scripts/gen-config-catalog.ts:317-403; the ways that the meaning of a path is defined by are exactly these.
 */
module TypeWays {
  import opened Prelude
  import opened TypeSyntax
  import opened TypeMeaning

  ghost predicate GoesOn(w: World, at: Place, next: Place)
    requires at.steps != []
  {
    var f, steps := at.file, at.steps;
    match at.node
    case Declared(id) =>
      id in w.decls &&
      (match w.decls[id].form
       case Interface(_, _, _) => steps[0].Member? && InBodies(w, w.decls[id].Bodies(), steps, next)
       case Alias(body) => next == Place(w.decls[id].file, body, steps)
       case Enum => false)
    case Literal(ms) => steps[0].Member? && InBodies(w, [Body(f, ms, [])], steps, next)
    case Paren(inner) => next == Place(f, inner, steps)
    case Intersection(ts) => exists t :: t in ts && next == Place(f, t, steps)
    case Union(ts) => exists t :: t in ts && next == Place(f, t, steps)
    case ArrayOf(e) => steps[0].Element? && next == Place(f, e, steps[1..])
    case Operator(keys, t) => next == Place(f, if keys.Some? then keys.value else t, steps)
    case IndexedAccess(obj, index) => index.Some? && next == Place(f, obj, [Member(index.value)] + steps)
    case Ref(head, qualified, args) =>
      if qualified then head in BUILT_IN && args != [] && next == Place(f, Opaque, steps)
      else if (f, head) in w.scope || head !in BUILT_IN || args == [] then next == Place(f, w.Target(f, head), steps)
      else if head in ARRAY_NAMES then steps[0].Element? && next == Place(f, args[0], steps[1..])
      else next == Place(f, args[0], steps)
    case Opaque => false
  }

  /**
   To the member of that name, of the first of the merged bodies that has one; and if none has, to what index
   signatures give for the name and to the bases.
   */
  ghost predicate InBodies(w: World, bodies: seq<Body>, steps: seq<Step>, next: Place)
    requires steps != [] && steps[0].Member?
  {
    var name := steps[0].name;
    if exists b :: b in bodies && NamedIn(b.members, name).Some?
    then exists k :: 0 <= k < |bodies| && NamesIt(bodies, k, name)
           && next == Place(bodies[k].file, NamedIn(bodies[k].members, name).value, steps[1..])
    else (exists b :: b in bodies && AnswersIt(w, b, steps, next)) || exists b :: b in bodies && InheritsIt(w, b, steps, next)
  }

  /** Body `k` is the first that has a member of the name. */
  ghost predicate NamesIt(bodies: seq<Body>, k: nat, name: string)
    requires k < |bodies|
  {
    NamedIn(bodies[k].members, name).Some? && forall j :: 0 <= j < k ==> NamedIn(bodies[j].members, name).None?
  }

  ghost predicate AnswersIt(w: World, b: Body, steps: seq<Step>, next: Place)
    requires steps != [] && steps[0].Member?
  {
    exists m :: m in b.members && m.IndexSignature? && w.accepts(m.keyType, steps[0].name)
      && next == Place(b.file, TypeOf(m.annotation), steps[1..])
  }

  ghost predicate InheritsIt(w: World, b: Body, steps: seq<Step>, next: Place) {
    exists base :: base in b.bases && next == Place(b.file, if base.Some? then w.Target(b.file, base.value) else Opaque, steps)
  }

  predicate Bears(m: TypeElement, name: string) {
    !m.IndexSignature? && m.key == name
  }

  function MemberType(m: TypeElement): Node {
    match m
    case Property(_, annotation) => TypeOf(annotation)
    case Quoted(_, annotation) => TypeOf(annotation)
    case Method(_) => Opaque
    case IndexSignature(_, annotation) => TypeOf(annotation)
  }

  /** Member `i` is the first plain property of the name, or the first other member when no plain property has it. */
  ghost predicate IsMember(ms: seq<TypeElement>, name: string, i: nat) {
    && i < |ms| && Bears(ms[i], name)
    && (ms[i].Property? || forall j :: 0 <= j < |ms| && Bears(ms[j], name) ==> !ms[j].Property?)
    && forall j :: 0 <= j < i && Bears(ms[j], name) ==> ms[i].Property? && !ms[j].Property?
  }

  lemma {:induction false} PlainIsFirst(ms: seq<TypeElement>, name: string) returns (i: nat)
    ensures FirstProperty(ms, name).Some? ==>
              i < |ms| && ms[i].Property? && ms[i].key == name && FirstProperty(ms, name) == Some(TypeOf(ms[i].annotation))
              && forall j :: 0 <= j < i ==> !(ms[j].Property? && ms[j].key == name)
  {
    i := 0;
    if ms != [] && !(ms[0].Property? && ms[0].key == name) {
      i := PlainIsFirst(ms[1..], name);
      i := i + 1;
    }
  }

  lemma {:induction false} OtherIsFirst(ms: seq<TypeElement>, name: string) returns (i: nat)
    ensures match NamedOtherwise(ms, name)
            case Some(t) => i < |ms| && (ms[i].Quoted? || ms[i].Method?) && ms[i].key == name && t == MemberType(ms[i])
                            && forall j :: 0 <= j < i ==> !((ms[j].Quoted? || ms[j].Method?) && ms[j].key == name)
            case None => forall j :: 0 <= j < |ms| ==> !((ms[j].Quoted? || ms[j].Method?) && ms[j].key == name)
  {
    i := 0;
    if ms != [] && !((ms[0].Quoted? || ms[0].Method?) && ms[0].key == name) {
      i := OtherIsFirst(ms[1..], name);
      i := i + 1;
    }
  }

  /** The member a name stands for, whatever way the members are spelled. */
  lemma NamedInExactly(ms: seq<TypeElement>, name: string)
    ensures match NamedIn(ms, name)
            case Some(t) => exists i: nat :: IsMember(ms, name, i) && t == MemberType(ms[i])
            case None => forall m :: m in ms ==> !Bears(m, name)
  {
    var plain := PlainIsFirst(ms, name);
    var other := OtherIsFirst(ms, name);
    if FirstProperty(ms, name).Some? {
      assert IsMember(ms, name, plain);
    } else if NamedOtherwise(ms, name).Some? {
      forall j | 0 <= j < |ms| && Bears(ms[j], name) ensures !ms[j].Property? { assert ms[j] in ms; }
      assert IsMember(ms, name, other);
    }
  }

  lemma {:induction false} NamedExactly(bodies: seq<Body>, steps: seq<Step>)
    requires steps != [] && steps[0].Member?
    ensures match Named(bodies, steps)
            case Some(next) =>
              exists k :: 0 <= k < |bodies| && NamesIt(bodies, k, steps[0].name)
                && next == Place(bodies[k].file, NamedIn(bodies[k].members, steps[0].name).value, steps[1..])
            case None => forall b :: b in bodies ==> NamedIn(b.members, steps[0].name).None?
  {
    if bodies != [] && NamedIn(bodies[0].members, steps[0].name).None? {
      NamedExactly(bodies[1..], steps);
      if Named(bodies, steps).Some? {
        var k :| 0 <= k < |bodies[1..]| && NamesIt(bodies[1..], k, steps[0].name)
                 && Named(bodies, steps).value == Place(bodies[1..][k].file, NamedIn(bodies[1..][k].members, steps[0].name).value, steps[1..]);
        NamedLater(bodies, k, steps[0].name);
      } else {
        assert bodies == [bodies[0]] + bodies[1..];
      }
    } else if bodies != [] {
      assert NamesIt(bodies, 0, steps[0].name);
    }
  }

  lemma NamedLater(bodies: seq<Body>, k: nat, name: string)
    requires bodies != [] && k < |bodies[1..]| && NamesIt(bodies[1..], k, name) && NamedIn(bodies[0].members, name).None?
    ensures NamesIt(bodies, k + 1, name)
  {
    forall j | 0 <= j < k + 1 ensures NamedIn(bodies[j].members, name).None? {
      if j > 0 { assert bodies[j] == bodies[1..][j - 1]; }
    }
  }

  lemma {:induction false} IndexedExactly(w: World, f: File, ms: seq<TypeElement>, steps: seq<Step>, next: Place)
    requires steps != [] && steps[0].Member?
    ensures next in Indexed(w, f, ms, steps) <==>
              exists m :: m in ms && m.IndexSignature? && w.accepts(m.keyType, steps[0].name)
                && next == Place(f, TypeOf(m.annotation), steps[1..])
  {
    if ms != [] {
      IndexedExactly(w, f, ms[1..], steps, next);
      assert ms == [ms[0]] + ms[1..];
    }
  }

  lemma {:induction false} IndexedInExactly(w: World, bodies: seq<Body>, steps: seq<Step>, next: Place)
    requires steps != [] && steps[0].Member?
    ensures next in IndexedIn(w, bodies, steps) <==> exists b :: b in bodies && AnswersIt(w, b, steps, next)
  {
    if bodies != [] {
      IndexedExactly(w, bodies[0].file, bodies[0].members, steps, next);
      IndexedInExactly(w, bodies[1..], steps, next);
      assert AnswersIt(w, bodies[0], steps, next) <==> next in Indexed(w, bodies[0].file, bodies[0].members, steps);
      assert next in IndexedIn(w, bodies, steps) <==>
               next in Indexed(w, bodies[0].file, bodies[0].members, steps) || next in IndexedIn(w, bodies[1..], steps);
      assert bodies == [bodies[0]] + bodies[1..];
    }
  }

  lemma BasesExactly(w: World, b: Body, steps: seq<Step>, next: Place)
    ensures next in Places(b.file, w.BaseNodes(b.file, b.bases), steps) <==> InheritsIt(w, b, steps, next)
  {
    var places := Places(b.file, w.BaseNodes(b.file, b.bases), steps);
    if next in places {
      var i :| 0 <= i < |places| && places[i] == next;
      assert b.bases[i] in b.bases;
    }
    if InheritsIt(w, b, steps, next) {
      var base :| base in b.bases && next == Place(b.file, if base.Some? then w.Target(b.file, base.value) else Opaque, steps);
      var i :| 0 <= i < |b.bases| && b.bases[i] == base;
      assert places[i] == next;
    }
  }

  lemma {:induction false} InheritedExactly(w: World, bodies: seq<Body>, steps: seq<Step>, next: Place)
    ensures next in InheritedBy(w, bodies, steps) <==> exists b :: b in bodies && InheritsIt(w, b, steps, next)
  {
    if bodies != [] {
      BasesExactly(w, bodies[0], steps, next);
      InheritedExactly(w, bodies[1..], steps, next);
      assert bodies == [bodies[0]] + bodies[1..];
    }
  }

  /** What is not named goes on by index signatures and bases. */
  lemma UnnamedExactly(w: World, bodies: seq<Body>, steps: seq<Step>, next: Place)
    requires bodies != [] && steps != [] && steps[0].Member? && Named(bodies, steps).None?
    ensures InBodies(w, bodies, steps, next) <==>
              || next in Places(bodies[0].file, w.BaseNodes(bodies[0].file, bodies[0].bases), steps)
              || next in IndexedIn(w, bodies, steps) || next in InheritedBy(w, bodies[1..], steps)
  {
    NamedExactly(bodies, steps);
    IndexedInExactly(w, bodies, steps, next);
    BasesExactly(w, bodies[0], steps, next);
    InheritedExactly(w, bodies[1..], steps, next);
    assert bodies == [bodies[0]] + bodies[1..];
  }

  lemma NamedIsInBodies(w: World, bodies: seq<Body>, steps: seq<Step>, next: Place)
    requires bodies != [] && steps != [] && steps[0].Member? && Named(bodies, steps).Some?
    ensures InBodies(w, bodies, steps, next) <==> next == Named(bodies, steps).value
  {
    NamedExactly(bodies, steps);
    var k :| 0 <= k < |bodies| && NamesIt(bodies, k, steps[0].name)
             && Named(bodies, steps).value == Place(bodies[k].file, NamedIn(bodies[k].members, steps[0].name).value, steps[1..]);
    assert bodies[k] in bodies;
    forall j: nat | j < |bodies| && NamesIt(bodies, j, steps[0].name) ensures j == k {}
  }

  /** Bodies of which the walk reads the first. */
  lemma BodiesExactly(w: World, at: Place, bodies: seq<Body>, next: Place)
    requires at.steps != [] && at.steps[0].Member? && bodies != []
    requires (at.node.Literal? && bodies == [Body(at.file, at.node.members, [])])
             || (at.node.Declared? && at.node.id in w.decls && w.decls[at.node.id].form.Interface? && bodies == w.decls[at.node.id].Bodies())
    ensures next in Ways(w, at) <==> InBodies(w, bodies, at.steps, next)
  {
    if Named(bodies, at.steps).Some? {
      NamedIsInBodies(w, bodies, at.steps, next);
      if FirstProperty(bodies[0].members, at.steps[0].name).Some? {
        assert Ways(w, at) == [Named(bodies, at.steps).value];
      } else {
        assert at.node.Declared? && w.decls[at.node.id].form.bases == [] ==> Onward(w, at) == [];
        assert Ways(w, at) == [Named(bodies, at.steps).value];
      }
    } else {
      UnnamedExactly(w, bodies, at.steps, next);
      NamedExactly(bodies, at.steps);
      assert bodies[0] in bodies;
      assert Ways(w, at) == Onward(w, at) + (IndexedIn(w, bodies, at.steps) + InheritedBy(w, bodies[1..], at.steps));
      assert at.node.Literal? ==> Onward(w, at) == [] && bodies[0].bases == [];
    }
  }

  lemma PlacesExactly(f: File, ts: seq<Node>, steps: seq<Step>, next: Place)
    ensures next in Places(f, ts, steps) <==> exists t :: t in ts && next == Place(f, t, steps)
  {
    var places := Places(f, ts, steps);
    if next in places {
      var i :| 0 <= i < |places| && places[i] == next;
      assert ts[i] in ts;
    }
    forall t | t in ts && next == Place(f, t, steps) ensures next in places {
      var i :| 0 <= i < |ts| && ts[i] == t;
      assert places[i] == next;
    }
  }

  /** The ways by which a path is said to go on are exactly the ones the types give, form by form. */
  lemma WaysExactly(w: World, at: Place, next: Place)
    requires at.steps != []
    ensures next in Ways(w, at) <==> GoesOn(w, at, next)
  {
    match at.node
    case Declared(id) =>
      if id in w.decls && w.decls[id].form.Interface? && at.steps[0].Member? { BodiesExactly(w, at, w.decls[id].Bodies(), next); }
    case Literal(ms) => if at.steps[0].Member? { BodiesExactly(w, at, [Body(at.file, ms, [])], next); }
    case Intersection(ts) => PlacesExactly(at.file, ts, at.steps, next);
    case Union(ts) => PlacesExactly(at.file, ts, at.steps, next);
    case _ =>
  }
}
