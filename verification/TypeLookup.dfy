/** The walk `lookupPath` of scripts/gen-config-catalog.ts (lines 317-403) as a function of its node, path, `seen` set and call stack. */
module TypeLookup {
  import opened TypeSyntax

  datatype PathLookup = Found | Missing | Unknown

  type Key = (DeclId, nat)

  /** `Overflow` is the exception thrown when the call stack is exhausted. */
  datatype Outcome = Answer(result: PathLookup, seen: set<Key>) | Overflow

  datatype Outcomes = Answers(results: seq<PathLookup>, seen: set<Key>) | Overflows

  /** The answer for parts that are had together: one that has the path is enough, and one that may have it leaves it open. */
  function Combine(rs: seq<PathLookup>): PathLookup {
    if Found in rs then Found else if Unknown in rs then Unknown else Missing
  }

  /** The answer for branches of which a value takes one: whatever they all say, and otherwise nothing certain. */
  function Agree(rs: seq<PathLookup>): PathLookup {
    if forall r :: r in rs ==> r == Found then Found
    else if forall r :: r in rs ==> r == Missing then Missing
    else Unknown
  }

  function Map(o: Outcomes, f: seq<PathLookup> -> PathLookup): Outcome {
    match o
    case Answers(rs, seen) => Answer(f(rs), seen)
    case Overflows => Overflow
  }

  /** `lookupPath` with `seen` passed in and handed back, and with the frames left on the call stack. */
  function Lookup(w: World, f: File, n: Node, steps: seq<Step>, seen: set<Key>, stack: nat): Outcome
    decreases stack, 0
  {
    if stack == 0 then Overflow
    else if steps == [] then Answer(Found, seen)
    else Visit(w, f, n, steps, seen, stack)
  }

  /** The cases of `lookupPath`, for a path that still has steps. */
  function Visit(w: World, f: File, n: Node, steps: seq<Step>, seen: set<Key>, stack: nat): Outcome
    requires steps != [] && stack > 0
    decreases stack - 1, 4
  {
    match n
    case Declared(id) =>
      if id !in w.decls || w.decls[id].form.Enum? || (id, |steps|) in seen then Answer(Unknown, seen)
      else LookupDecl(w, w.decls[id], steps, seen + {(id, |steps|)}, stack)
    case Literal(ms) =>
      if steps[0].Element? then Answer(Unknown, seen)
      else (match FirstProperty(ms, steps[0].name)
            case Some(t) => Lookup(w, f, t, steps[1..], seen, stack - 1)
            case None => Answer(Missing, seen))
    case Paren(inner) => Lookup(w, f, inner, steps, seen, stack - 1)
    case Intersection(ts) => Map(LookupEach(w, f, ts, steps, seen, stack - 1), Combine)
    case Union(ts) => Map(LookupEach(w, f, ts, steps, seen, stack - 1), Agree)
    case ArrayOf(e) =>
      if steps[0].Element? then Lookup(w, f, e, steps[1..], seen, stack - 1) else Answer(Unknown, seen)
    case Operator(_, t) => Lookup(w, f, t, steps, seen, stack - 1)
    case IndexedAccess(obj, index) =>
      if index.Some? then Lookup(w, f, obj, [Member(index.value)] + steps, seen, stack - 1)
      else Answer(Unknown, seen)
    case Ref(head, qualified, args) =>
      if head in PASSTHROUGH_WRAPPERS && args != [] then Lookup(w, f, args[0], steps, seen, stack - 1)
      else if head in ARRAY_NAMES && args != [] then
        if steps[0].Element? then Lookup(w, f, args[0], steps[1..], seen, stack - 1) else Answer(Unknown, seen)
      else if qualified then Answer(Unknown, seen)
      else Lookup(w, f, w.Target(f, head), steps, seen, stack - 1)
    case Opaque => Answer(Unknown, seen)
  }

  /** The part of `lookupPath` entered once the declaration's key has been recorded. */
  function LookupDecl(w: World, d: Decl, steps: seq<Step>, seen: set<Key>, stack: nat): Outcome
    requires steps != [] && stack > 0 && !d.form.Enum?
    decreases stack - 1, 3
  {
    match d.form
    case Interface(ms, bases, _) =>
      if steps[0].Element? then Answer(Unknown, seen)
      else (match FirstProperty(ms, steps[0].name)
            case Some(t) => Lookup(w, d.file, t, steps[1..], seen, stack - 1)
            case None => Map(LookupEach(w, d.file, w.BaseNodes(d.file, bases), steps, seen, stack - 1), Combine))
    case Alias(body) => Lookup(w, d.file, body, steps, seen, stack - 1)
  }

  /** `types.map(t => lookupPath(...))`: every part is walked, left to right, on the same `seen`. */
  function LookupEach(w: World, f: File, ts: seq<Node>, steps: seq<Step>, seen: set<Key>, stack: nat): (r: Outcomes)
    ensures r.Answers? ==> |r.results| == |ts|
    decreases stack, 1, |ts|
  {
    if ts == [] then Answers([], seen)
    else
      match Lookup(w, f, ts[0], steps, seen, stack)
      case Overflow => Overflows
      case Answer(first, seen1) =>
        match LookupEach(w, f, ts[1..], steps, seen1, stack)
        case Overflows => Overflows
        case Answers(rest, seen2) => Answers([first] + rest, seen2)
  }
}
