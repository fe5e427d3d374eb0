/**
 The schema-path check of scripts/gen-config-catalog.ts: a three-valued walk over
 recursive, mutually referencing type declarations that threads one shared,
 never-popped `seen` set through every branch.

 Members that read a declaration's contents take a `World`; a `File` is the
 absolute path of a source file.
 */
module TypeSyntax {
  import opened Prelude

  type File = string
  type DeclId = nat

  /** What a key path asks for at one point: a member by name, or an element of an array. */
  datatype Step = Member(name: string) | Element

  /**
   Members of an interface or type literal. The walk compares a property's source text with the step's
   name, so a property whose name is written otherwise (`Quoted`: as a string literal, computed, or an
   accessor) is never matched. An index signature answers to names by the type of its keys.
   */
  datatype TypeElement =
    | Property(key: string, annotation: Option<Node>)
    | Quoted(key: string, annotation: Option<Node>)
    | Method(key: string)
    | IndexSignature(keyType: string, annotation: Option<Node>)

  /**
   Type nodes; `Declared` stands for a whole declaration, named by its identity (file and position).
   `keys` is the type that an operator other than `readonly` makes: of string, number and symbol types.
   */
  datatype Node =
    | Declared(id: DeclId)
    | Literal(members: seq<TypeElement>)
    | Paren(inner: Node)
    | Intersection(parts: seq<Node>)
    | Union(branches: seq<Node>)
    | ArrayOf(element: Node)
    | Operator(keys: Option<Node>, operand: Node)
    | IndexedAccess(object: Node, index: Option<string>)
    | Ref(head: string, qualified: bool, args: seq<Node>)
    | Opaque

  /** Members and heritage; a heritage entry is a plain identifier, or `None` for any other expression. */
  datatype Body = Body(file: File, members: seq<TypeElement>, bases: seq<Option<string>>)

  /** `more` is what else is declared under an interface's name and merged with it; the walk finds only one declaration. */
  datatype Form =
    | Interface(members: seq<TypeElement>, bases: seq<Option<string>>, more: seq<Body>)
    | Alias(body: Node)
    | Enum

  datatype Decl = Decl(file: File, form: Form)
  {
    /** The body the walk reads, and the ones merged with it. */
    function Bodies(): (r: seq<Body>)
      requires form.Interface?
      ensures |r| > 0
    {
      [Body(file, form.members, form.bases)] + form.more
    }
  }

  /**
   `scope` has every name bound in a file, and `decls` the declarations within reach; `accepts` says whether
   keys of a type take in a name.
   */
  datatype World = World(decls: map<DeclId, Decl>, scope: map<(File, string), DeclId>, accepts: (string, string) -> bool)
  {
    /** `declForTypeName`: the declaration a name denotes in a file, if it is within reach. */
    function Resolve(f: File, name: string): Option<DeclId> {
      if (f, name) in scope && scope[(f, name)] in decls then Some(scope[(f, name)]) else None
    }

    function Target(f: File, name: string): Node {
      match Resolve(f, name)
      case Some(id) => Declared(id)
      case None => Opaque
    }

    function BaseNodes(f: File, bases: seq<Option<string>>): (r: seq<Node>)
      ensures |r| == |bases|
      ensures forall i :: 0 <= i < |r| ==> r[i] == if bases[i].Some? then Target(f, bases[i].value) else Opaque
    {
      seq(|bases|, i requires 0 <= i < |bases| => if bases[i].Some? then Target(f, bases[i].value) else Opaque)
    }
  }

  const PASSTHROUGH_WRAPPERS := {"Partial", "Required", "Readonly", "NonNullable"}
  const ARRAY_NAMES := {"Array", "ReadonlyArray"}
  const BUILT_IN := PASSTHROUGH_WRAPPERS + ARRAY_NAMES

  /** The type of a member; one without an annotation is an opaque type. */
  function TypeOf(annotation: Option<Node>): Node {
    match annotation case Some(t) => t case None => Opaque
  }

  /** The type of the first property spelled `name`: its annotation, or an opaque type when it has none. */
  function FirstProperty(ms: seq<TypeElement>, name: string): (r: Option<Node>)
    ensures r.None? <==> forall m :: m in ms && m.Property? ==> m.key != name
  {
    if ms == [] then None
    else if ms[0].Property? && ms[0].key == name then
      Some(TypeOf(ms[0].annotation))
    else FirstProperty(ms[1..], name)
  }

  /** `p` holds of a type node and of every type node nested in it. */
  predicate Everywhere(n: Node, p: Node -> bool) {
    p(n) &&
    match n
    case Literal(ms) => forall m | m in ms :: m.Property? && m.annotation.Some? ==> Everywhere(m.annotation.value, p)
    case Paren(t) => Everywhere(t, p)
    case Intersection(ts) => forall t | t in ts :: Everywhere(t, p)
    case Union(ts) => forall t | t in ts :: Everywhere(t, p)
    case ArrayOf(t) => Everywhere(t, p)
    case Operator(_, t) => Everywhere(t, p)
    case IndexedAccess(t, _) => Everywhere(t, p)
    case Ref(_, _, args) => forall t | t in args :: Everywhere(t, p)
    case _ => true
  }

  /** `p` holds throughout every declaration; an interface body counts as a literal. */
  predicate Throughout(w: World, p: Node -> bool) {
    forall id | id in w.decls ::
      match w.decls[id].form
      case Interface(ms, _, _) => Everywhere(Literal(ms), p)
      case Alias(body) => Everywhere(body, p)
      case Enum => true
  }

  /** Where a lookup stands: a file, a type in it and the steps still to go. */
  datatype Place = Place(file: File, node: Node, steps: seq<Step>)

  function Places(f: File, ts: seq<Node>, steps: seq<Step>): (r: seq<Place>)
    ensures |r| == |ts|
    ensures forall i :: 0 <= i < |r| ==> r[i] == Place(f, ts[i], steps)
  {
    seq(|ts|, i requires 0 <= i < |ts| => Place(f, ts[i], steps))
  }

  /** Where the walk goes on: several places for the parts of an intersection, the branches of a union, and bases. */
  function Onward(w: World, at: Place): seq<Place>
    requires at.steps != []
  {
    var f, steps := at.file, at.steps;
    match at.node
    case Declared(id) =>
      if id !in w.decls then []
      else
        (match w.decls[id].form
         case Interface(ms, bases, _) =>
           if steps[0].Member? && FirstProperty(ms, steps[0].name).None?
           then Places(w.decls[id].file, w.BaseNodes(w.decls[id].file, bases), steps)
           else IntoMember(w.decls[id].file, ms, steps)
         case Alias(body) => [Place(w.decls[id].file, body, steps)]
         case Enum => [])
    case Literal(ms) => IntoMember(f, ms, steps)
    case Paren(inner) => [Place(f, inner, steps)]
    case Intersection(ts) => Places(f, ts, steps)
    case Union(ts) => Places(f, ts, steps)
    case ArrayOf(e) => if steps[0].Element? then [Place(f, e, steps[1..])] else []
    case Operator(_, t) => [Place(f, t, steps)]
    case IndexedAccess(obj, index) => if index.Some? then [Place(f, obj, [Member(index.value)] + steps)] else []
    case Ref(head, qualified, args) =>
      if head in PASSTHROUGH_WRAPPERS && args != [] then [Place(f, args[0], steps)]
      else if head in ARRAY_NAMES && args != [] then (if steps[0].Element? then [Place(f, args[0], steps[1..])] else [])
      else if qualified then []
      else [Place(f, w.Target(f, head), steps)]
    case Opaque => []
  }

  /** The property a step names, if it is there. */
  function IntoMember(f: File, ms: seq<TypeElement>, steps: seq<Step>): seq<Place>
    requires steps != []
  {
    if steps[0].Element? then []
    else
      match FirstProperty(ms, steps[0].name)
      case Some(t) => [Place(f, t, steps[1..])]
      case None => []
  }

  /** The walk comes to a place with steps still to go where `p` holds. */
  least predicate Meets[nat](w: World, at: Place, p: Place -> bool) {
    at.steps != [] && (p(at) || exists i | 0 <= i < |Onward(w, at)| :: Meets(w, Onward(w, at)[i], p))
  }

  lemma MeetsOnward(w: World, at: Place, p: Place -> bool, i: nat)
    requires at.steps != [] && i < |Onward(w, at)|
    ensures Meets(w, Onward(w, at)[i], p) ==> Meets(w, at, p)
  {}

  /** Nesting depth; a reference to a declaration does not count what the declaration holds. */
  function Depth(n: Node): nat {
    match n
    case Declared(_) => 0
    case Opaque => 0
    case Literal(ms) => 1 + MembersDepth(ms)
    case Paren(t) => 1 + Depth(t)
    case Intersection(ts) => 1 + MaxDepth(ts)
    case Union(ts) => 1 + MaxDepth(ts)
    case ArrayOf(t) => 1 + Depth(t)
    case Operator(_, t) => 1 + Depth(t)
    case IndexedAccess(t, _) => 1 + Depth(t)
    case Ref(_, _, args) => 1 + MaxDepth(args)
  }

  function MaxDepth(ts: seq<Node>): (d: nat)
    ensures forall t :: t in ts ==> Depth(t) <= d
  {
    if ts == [] then 0
    else
      var rest := MaxDepth(ts[1..]);
      if Depth(ts[0]) > rest then Depth(ts[0]) else rest
  }

  function MembersDepth(ms: seq<TypeElement>): nat {
    if ms == [] then 0
    else
      var rest := MembersDepth(ms[1..]);
      if ms[0].Property? && ms[0].annotation.Some? && Depth(ms[0].annotation.value) > rest
      then Depth(ms[0].annotation.value) else rest
  }

  function DeclDepth(d: Decl): nat {
    match d.form
    case Interface(ms, _, _) => MembersDepth(ms)
    case Alias(body) => Depth(body)
    case Enum => 0
  }

  /** A property's type is less deep than its member list. */
  lemma {:induction false} PropertyIsShallower(ms: seq<TypeElement>, name: string)
    ensures var t := FirstProperty(ms, name); t.Some? ==> Depth(t.value) <= MembersDepth(ms)
  {
    if ms != [] { PropertyIsShallower(ms[1..], name); }
  }

  /** A property's type is nested in its member list, or is the opaque type of a missing annotation. */
  lemma PropertyIsNested(ms: seq<TypeElement>, name: string, p: Node -> bool)
    requires Everywhere(Literal(ms), p) && p(Opaque)
    ensures var t := FirstProperty(ms, name); t.Some? ==> Everywhere(t.value, p)
  {
    NestedType(ms, name, p);
  }

  lemma {:induction false} NestedType(ms: seq<TypeElement>, name: string, p: Node -> bool)
    requires p(Opaque)
    requires forall m | m in ms :: m.Property? && m.annotation.Some? ==> Everywhere(m.annotation.value, p)
    ensures var t := FirstProperty(ms, name); t.Some? ==> Everywhere(t.value, p)
  {
    if ms != [] {
      assert ms[0] in ms;
      NestedType(ms[1..], name, p);
    }
  }
}
