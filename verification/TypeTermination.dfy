/**
 When the walk of scripts/gen-config-catalog.ts comes back: recursion through declarations is cut
 by the `seen` set, recursion inside one declaration by its size (lines 317-327).
 */
module TypeTermination {
  import opened Prelude
  import opened TypeSyntax
  import opened TypeLookup

  /** Indexed access by a string literal lengthens the path, and with it the key space of the `seen` set. */
  predicate Lengthens(at: Place) { at.node.IndexedAccess? && at.node.index.Some? }

  /** Where it does not, it does not later either. */
  lemma StillNot(w: World, at: Place, i: nat)
    requires !Meets(w, at, Lengthens) && at.steps != [] && i < |Onward(w, at)|
    ensures !Meets(w, Onward(w, at)[i], Lengthens)
  {
    MeetsOnward(w, at, Lengthens, i);
  }

  /** The declaration-and-length keys not yet recorded, for paths of at most `limit` steps. */
  function Unseen(w: World, limit: nat, seen: set<Key>): set<Key> {
    if limit == 0 then {}
    else Unseen(w, limit - 1, seen) + (set id | id in w.decls && (id, limit) !in seen :: (id, limit))
  }

  lemma {:induction false} UnseenKeys(w: World, limit: nat, seen: set<Key>)
    ensures forall key: Key :: key in Unseen(w, limit, seen) <==>
              key.0 in w.decls && 1 <= key.1 <= limit && key !in seen
  {
    if limit > 0 { UnseenKeys(w, limit - 1, seen); }
  }

  /** Call frames for the bodies of `bodies` declarations of a given height. */
  function BodyFrames(bodies: nat, height: nat): nat {
    if bodies == 0 then 0 else BodyFrames(bodies - 1, height) + height + 2
  }

  /** Call frames that are always enough. */
  function Frames(w: World, limit: nat, height: nat, seen: set<Key>, depth: nat): nat {
    BodyFrames(|Unseen(w, limit, seen)|, height) + depth + 1
  }

  lemma {:induction false} FewerBodies(a: nat, b: nat, height: nat)
    requires a <= b
    ensures BodyFrames(a, height) <= BodyFrames(b, height)
  {
    if a < b { FewerBodies(a, b - 1, height); }
  }

  lemma FramesShrink(w: World, limit: nat, height: nat, seen: set<Key>, seen': set<Key>, depth: nat)
    requires seen <= seen'
    ensures Frames(w, limit, height, seen', depth) <= Frames(w, limit, height, seen, depth)
  {
    UnseenKeys(w, limit, seen);
    UnseenKeys(w, limit, seen');
    SubsetSize(Unseen(w, limit, seen'), Unseen(w, limit, seen));
    FewerBodies(|Unseen(w, limit, seen')|, |Unseen(w, limit, seen)|, height);
  }

  /** Recording a fresh key pays for one whole declaration body. */
  lemma FreshKeyPays(w: World, limit: nat, height: nat, seen: set<Key>, key: Key)
    requires key.0 in w.decls && 1 <= key.1 <= limit && key !in seen
    ensures Frames(w, limit, height, seen + {key}, height) + 1 <= Frames(w, limit, height, seen, 0)
  {
    UnseenKeys(w, limit, seen);
    UnseenKeys(w, limit, seen + {key});
    assert Unseen(w, limit, seen) == Unseen(w, limit, seen + {key}) + {key};
  }

  /**
   The walk always answers, on any world however recursive, as long as the path itself runs into no
   indexed access by a string literal: the call stack needs one declaration's height per unseen key,
   and the `seen` set only grows.
   */
  lemma {:induction false} LookupTerminates(
    w: World, f: File, n: Node, steps: seq<Step>, seen: set<Key>, stack: nat, limit: nat, height: nat)
    requires !Meets(w, Place(f, n, steps), Lengthens)
    requires forall id :: id in w.decls ==> DeclDepth(w.decls[id]) <= height
    requires |steps| <= limit && stack >= Frames(w, limit, height, seen, Depth(n))
    ensures var r := Lookup(w, f, n, steps, seen, stack); r.Answer? && seen <= r.seen
    decreases stack, 0
  {
    if steps != [] {
      if |Onward(w, Place(f, n, steps))| == 1 { StillNot(w, Place(f, n, steps), 0); }
      match n
      case Declared(id) =>
        if id in w.decls && !w.decls[id].form.Enum? && (id, |steps|) !in seen {
          FreshKeyPays(w, limit, height, seen, (id, |steps|));
          DeclTerminates(w, f, id, steps, seen + {(id, |steps|)}, stack, limit, height);
        }
      case Literal(_) => LiteralTerminates(w, f, n, steps, seen, stack, limit, height);
      case Paren(inner) => LookupTerminates(w, f, inner, steps, seen, stack - 1, limit, height);
      case Intersection(_) => PartsTerminate(w, f, n, steps, seen, stack, limit, height);
      case Union(_) => PartsTerminate(w, f, n, steps, seen, stack, limit, height);
      case ArrayOf(e) => if steps[0].Element? { LookupTerminates(w, f, e, steps[1..], seen, stack - 1, limit, height); }
      case Operator(_, t) => LookupTerminates(w, f, t, steps, seen, stack - 1, limit, height);
      case IndexedAccess(_, _) =>
      case Ref(_, _, _) => RefTerminates(w, f, n, steps, seen, stack, limit, height);
      case Opaque =>
    }
  }

  lemma {:induction false} LiteralTerminates(
    w: World, f: File, n: Node, steps: seq<Step>, seen: set<Key>, stack: nat, limit: nat, height: nat)
    requires !Meets(w, Place(f, n, steps), Lengthens) && n.Literal?
    requires forall id :: id in w.decls ==> DeclDepth(w.decls[id]) <= height
    requires 0 < |steps| <= limit && stack >= Frames(w, limit, height, seen, Depth(n))
    ensures var r := Lookup(w, f, n, steps, seen, stack); r.Answer? && seen <= r.seen
    decreases stack - 1, 3
  {
    if steps[0].Member? && FirstProperty(n.members, steps[0].name).Some? {
      StillNot(w, Place(f, n, steps), 0);
      PropertyIsShallower(n.members, steps[0].name);
      LookupTerminates(w, f, FirstProperty(n.members, steps[0].name).value, steps[1..], seen, stack - 1, limit, height);
    }
  }

  lemma {:induction false} PartsTerminate(
    w: World, f: File, n: Node, steps: seq<Step>, seen: set<Key>, stack: nat, limit: nat, height: nat)
    requires !Meets(w, Place(f, n, steps), Lengthens) && (n.Intersection? || n.Union?)
    requires forall id :: id in w.decls ==> DeclDepth(w.decls[id]) <= height
    requires 0 < |steps| <= limit && stack >= Frames(w, limit, height, seen, Depth(n))
    ensures var r := Lookup(w, f, n, steps, seen, stack); r.Answer? && seen <= r.seen
    decreases stack - 1, 3
  {
    var ts := if n.Intersection? then n.parts else n.branches;
    forall i: nat | i < |ts| ensures !Meets(w, Place(f, ts[i], steps), Lengthens) {
      StillNot(w, Place(f, n, steps), i);
    }
    LookupEachTerminates(w, f, ts, steps, seen, stack - 1, limit, height);
  }

  lemma {:induction false} RefTerminates(
    w: World, f: File, n: Node, steps: seq<Step>, seen: set<Key>, stack: nat, limit: nat, height: nat)
    requires !Meets(w, Place(f, n, steps), Lengthens) && n.Ref?
    requires forall id :: id in w.decls ==> DeclDepth(w.decls[id]) <= height
    requires 0 < |steps| <= limit && stack >= Frames(w, limit, height, seen, Depth(n))
    ensures var r := Lookup(w, f, n, steps, seen, stack); r.Answer? && seen <= r.seen
    decreases stack - 1, 3
  {
    if |Onward(w, Place(f, n, steps))| == 1 { StillNot(w, Place(f, n, steps), 0); }
    if n.head in PASSTHROUGH_WRAPPERS && n.args != [] {
      LookupTerminates(w, f, n.args[0], steps, seen, stack - 1, limit, height);
    } else if n.head in ARRAY_NAMES && n.args != [] {
      if steps[0].Element? { LookupTerminates(w, f, n.args[0], steps[1..], seen, stack - 1, limit, height); }
    } else if !n.qualified {
      LookupTerminates(w, f, w.Target(f, n.head), steps, seen, stack - 1, limit, height);
    }
  }

  lemma {:induction false} DeclTerminates(
    w: World, f: File, id: DeclId, steps: seq<Step>, seen: set<Key>, stack: nat, limit: nat, height: nat)
    requires id in w.decls && !w.decls[id].form.Enum? && !Meets(w, Place(f, Declared(id), steps), Lengthens)
    requires forall id :: id in w.decls ==> DeclDepth(w.decls[id]) <= height
    requires 0 < |steps| <= limit && stack >= Frames(w, limit, height, seen, height) + 1
    ensures var r := LookupDecl(w, w.decls[id], steps, seen, stack); r.Answer? && seen <= r.seen
    decreases stack - 1, 3
  {
    var d := w.decls[id];
    var at := Place(f, Declared(id), steps);
    match d.form
    case Interface(ms, bases, _) =>
      if steps[0].Member? {
        match FirstProperty(ms, steps[0].name)
        case Some(t) =>
          StillNot(w, at, 0);
          PropertyIsShallower(ms, steps[0].name);
          LookupTerminates(w, d.file, t, steps[1..], seen, stack - 1, limit, height);
        case None =>
          var ts := w.BaseNodes(d.file, bases);
          forall i: nat | i < |ts| ensures !Meets(w, Place(d.file, ts[i], steps), Lengthens) { StillNot(w, at, i); }
          LookupEachTerminates(w, d.file, ts, steps, seen, stack - 1, limit, height);
      }
    case Alias(body) =>
      StillNot(w, at, 0);
      LookupTerminates(w, d.file, body, steps, seen, stack - 1, limit, height);
  }

  lemma {:induction false} LookupEachTerminates(
    w: World, f: File, ts: seq<Node>, steps: seq<Step>, seen: set<Key>, stack: nat, limit: nat, height: nat)
    requires forall i | 0 <= i < |ts| :: !Meets(w, Place(f, ts[i], steps), Lengthens)
    requires forall id :: id in w.decls ==> DeclDepth(w.decls[id]) <= height
    requires |steps| <= limit && forall t | t in ts :: stack >= Frames(w, limit, height, seen, Depth(t))
    ensures var r := LookupEach(w, f, ts, steps, seen, stack); r.Answers? && seen <= r.seen
    decreases stack, 1, |ts|
  {
    if ts != [] {
      LookupTerminates(w, f, ts[0], steps, seen, stack, limit, height);
      var seen' := Lookup(w, f, ts[0], steps, seen, stack).seen;
      forall t | t in ts[1..] ensures stack >= Frames(w, limit, height, seen', Depth(t)) {
        FramesShrink(w, limit, height, seen, seen', Depth(t));
      }
      LookupEachTerminates(w, f, ts[1..], steps, seen', stack, limit, height);
    }
  }

  /** With indexed access it need not: `type A = A['x']` exhausts every call stack. */
  lemma {:induction false} IndexedAccessOverflows(f: File, accepts: (string, string) -> bool, steps: seq<Step>, seen: set<Key>, stack: nat)
    requires steps != [] && forall k | k in seen :: k.1 < |steps|
    ensures var body := IndexedAccess(Ref("A", false, []), Some("x"));
            var w := World(map[0 := Decl(f, Alias(body))], map[(f, "A") := 0], accepts);
            Lookup(w, f, Declared(0), steps, seen, stack) == Overflow
    decreases stack
  {
    var body := IndexedAccess(Ref("A", false, []), Some("x"));
    var w := World(map[0 := Decl(f, Alias(body))], map[(f, "A") := 0], accepts);
    var seen', steps' := seen + {(0, |steps|)}, [Member("x")] + steps;
    assert stack > 0 ==> LookupDecl(w, w.decls[0], steps, seen', stack) == Lookup(w, f, body, steps, seen', stack - 1);
    assert stack > 0 ==> Lookup(w, f, Declared(0), steps, seen, stack) == Lookup(w, f, body, steps, seen', stack - 1);
    if stack >= 2 {
      if stack >= 3 {
        IndexedAccessOverflows(f, accepts, steps', seen', stack - 3);
      }
      assert w.Target(f, "A") == Declared(0);
      assert Lookup(w, f, Ref("A", false, []), steps', seen', stack - 2) == Overflow;
      assert Lookup(w, f, body, steps, seen', stack - 1) == Overflow;
    }
  }
}
