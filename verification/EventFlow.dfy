/**
 Argument lists in scripts/gen-doc-graphs.ts: a tree of expressions with parent links (lines 1129-1156), and
 the event names that flow through conditionals, consts and call sites into one of them (lines 1040-1086).
 */
module SyntaxTree {
  import opened Prelude

  type Id = nat

  /** `Wrapper` is any form that leaves the value alone: parentheses, `as`, `<T>`, `!` and `satisfies`. */
  datatype Kind =
    | Wrapper(expression: Id, types: seq<Id>)
    | Call(callee: Id, arguments: seq<Id>)
    | Conditional(condition: Id, whenTrue: Id, whenFalse: Id)
    | ArrayLiteral(elements: seq<Element>)
    | Identifier(text: string)
    | Other(children: seq<Id>)

  /** An array element; `values` is its closed set of string values, when its type has one. */
  datatype Element = Omitted | Spread(at: Id) | Plain(at: Id, values: Option<set<string>>)

  datatype Node = Node(kind: Kind, parent: Option<Id>)

  function ElementChildren(es: seq<Element>): seq<Id> {
    if es == [] then []
    else (match es[0] case Omitted => [] case Spread(at) => [at] case Plain(at, _) => [at]) + ElementChildren(es[1..])
  }

  function Children(k: Kind): seq<Id> {
    match k
    case Wrapper(e, types) => [e] + types
    case Call(c, args) => [c] + args
    case Conditional(c, t, f) => [c, t, f]
    case ArrayLiteral(es) => ElementChildren(es)
    case Identifier(_) => []
    case Other(cs) => cs
  }

  predicate ChildOf(tree: seq<Node>, n: Id, c: Id) {
    n < |tree| && c in Children(tree[n].kind)
  }

  /**
   Nodes are numbered so that children come after their parent; parent links and children agree;
   the type operand of a wrapper is a type node, never an expression form.
   */
  ghost predicate WellFormed(tree: seq<Node>) {
    && (forall n: Id, c: Id :: ChildOf(tree, n, c) ==> n < c < |tree| && tree[c].parent == Some(n))
    && (forall c: Id :: c < |tree| && tree[c].parent.Some? ==> ChildOf(tree, tree[c].parent.value, c))
    && (forall n: Id, t: Id :: n < |tree| && tree[n].kind.Wrapper? && t in tree[n].kind.types ==> t < |tree| && tree[t].kind.Other?)
  }

  /** The expression a chain of wrappers is about. */
  function Unwrapped(tree: seq<Node>, e: Id): (r: Id)
    requires WellFormed(tree) && e < |tree|
    ensures r < |tree| && !tree[r].kind.Wrapper?
    decreases |tree| - e
  {
    if tree[e].kind.Wrapper? then
      assert ChildOf(tree, e, tree[e].kind.expression);
      Unwrapped(tree, tree[e].kind.expression)
    else e
  }

  /** The outermost wrapper around a node, or the node itself. */
  function Climbed(tree: seq<Node>, e: Id): (r: Id)
    requires WellFormed(tree) && e < |tree|
    ensures r <= e
  {
    if tree[e].parent.Some? && tree[tree[e].parent.value].kind.Wrapper? then Climbed(tree, tree[e].parent.value) else e
  }

  method UnwrapExpression(tree: seq<Node>, expression: Id) returns (current: Id)
    requires WellFormed(tree) && expression < |tree|
    ensures current == Unwrapped(tree, expression)
  {
    current := expression;
    while tree[current].kind.Wrapper?
      invariant current < |tree| && Unwrapped(tree, current) == Unwrapped(tree, expression)
      decreases |tree| - current
    {
      assert ChildOf(tree, current, tree[current].kind.expression);
      current := tree[current].kind.expression;
    }
  }

  lemma {:induction false} ClimbUndoesUnwrap(tree: seq<Node>, e: Id)
    requires WellFormed(tree) && e < |tree|
    ensures Climbed(tree, Unwrapped(tree, e)) == Climbed(tree, e)
    decreases |tree| - e
  {
    if tree[e].kind.Wrapper? {
      assert ChildOf(tree, e, tree[e].kind.expression);
      ClimbUndoesUnwrap(tree, tree[e].kind.expression);
    }
  }

  /** `id` is what some call's callee turns out to be once its wrappers are peeled. */
  ghost predicate CalledDirectly(tree: seq<Node>, id: Id)
    requires WellFormed(tree)
  {
    exists c: Id :: c < |tree| && tree[c].kind.Call? && CalleeOf(tree, c) == id
  }

  function CalleeOf(tree: seq<Node>, call: Id): Id
    requires WellFormed(tree) && call < |tree| && tree[call].kind.Call?
  {
    assert ChildOf(tree, call, tree[call].kind.callee);
    Unwrapped(tree, tree[call].kind.callee)
  }

  /** Climbing from an identifier accepts exactly the identifiers that unwrapping a callee reaches. */
  method IsDirectCallee(tree: seq<Node>, identifier: Id) returns (r: bool)
    requires WellFormed(tree) && identifier < |tree| && tree[identifier].kind.Identifier?
    ensures r <==> CalledDirectly(tree, identifier)
  {
    var current: Id := identifier;
    while tree[current].parent.Some? && tree[tree[current].parent.value].kind.Wrapper?
      invariant current < |tree| && !tree[current].kind.Other?
      invariant Unwrapped(tree, current) == identifier && Climbed(tree, current) == Climbed(tree, identifier)
      decreases current
    {
      current := tree[current].parent.value;
    }
    r := tree[current].parent.Some? && tree[tree[current].parent.value].kind.Call?
         && tree[tree[current].parent.value].kind.callee == current;
    if r {
      assert CalleeOf(tree, tree[current].parent.value) == identifier;
    }
    forall c: Id | c < |tree| && tree[c].kind.Call? && CalleeOf(tree, c) == identifier ensures r {
      assert ChildOf(tree, c, tree[c].kind.callee);
      ClimbUndoesUnwrap(tree, tree[c].kind.callee);
    }
  }
}

module EventFlow {
  import opened SyntaxTree
  import opened CallSites

  /** The element's type is a closed set of strings. */
  predicate Closed(e: Element) {
    e.Plain? && e.values.Some?
  }

  /** `name` is in the event slot of an argument array: the first of its first two elements with a closed set of values. */
  ghost predicate InSlot(elements: seq<Element>, name: string) {
    exists k | 0 <= k < |elements| ::
      k < 2 && Closed(elements[k]) && name in elements[k].values.value && forall j :: 0 <= j < k ==> !Closed(elements[j])
  }

  /** `name` is at `n`, an array literal with the name in its slot. */
  ghost predicate NamedAt(p: Program, n: Id, name: string)
    requires n < |p.tree|
  {
    p.tree[n].kind.ArrayLiteral? && InSlot(p.tree[n].kind.elements, name)
  }

  /** Argument lists flow from `s` into `n`: a branch of a conditional, a const's initialiser, an argument at a call site. */
  ghost predicate Edge(p: Program, n: Id, s: Id)
    requires p.Valid() && n < |p.tree| && s < |p.tree|
  {
    match p.tree[n].kind
    case Conditional(_, t, f) =>
      assert ChildOf(p.tree, n, t) && ChildOf(p.tree, n, f);
      s == Unwrapped(p.tree, t) || s == Unwrapped(p.tree, f)
    case Identifier(_) =>
      exists d :: d in p.DeclarationsOf(n) && DeclaredFrom(p, d, s)
    case _ => false
  }

  /** A non-exported helper's parameter stands for its arguments at every call of the whole program. */
  ghost predicate DeclaredFrom(p: Program, d: Declaration, s: Id)
    requires p.Valid() && s < |p.tree|
  {
    match d
    case ConstInitializer(v) => v < |p.tree| && s == Unwrapped(p.tree, v)
    case Parameter(owner, index) =>
      owner in p.helpers && !p.helpers[owner].exported && exists c :: c in p.WholeProgram(owner) && PassedAt(p, c, index, s)
    case Elsewhere => false
  }

  ghost predicate PassedAt(p: Program, call: Id, index: nat, s: Id)
    requires p.Valid() && s < |p.tree|
  {
    && call < |p.tree| && p.tree[call].kind.Call?
    && index < |p.tree[call].kind.arguments|
    && (assert ChildOf(p.tree, call, p.tree[call].kind.arguments[index]);
        s == Unwrapped(p.tree, p.tree[call].kind.arguments[index]))
  }

  /** A path of the flow graph that stays off `avoid`. */
  ghost predicate Path(p: Program, path: seq<Id>, avoid: set<Id>)
    requires p.Valid()
  {
    && |path| > 0
    && (forall i :: 0 <= i < |path| ==> path[i] < |p.tree| && path[i] !in avoid)
    && (forall i :: 0 <= i < |path| - 1 ==> Edge(p, path[i], path[i + 1]))
  }

  /** `name` is at an array literal that a path from `n`, staying off `avoid`, reaches. */
  ghost predicate Flows(p: Program, n: Id, avoid: set<Id>, name: string)
    requires p.Valid()
  {
    exists path :: Path(p, path, avoid) && path[0] == n && NamedAt(p, path[|path| - 1], name)
  }

  /** `name` is reachable from `n` at all, however often the path returns to the same expression. */
  ghost predicate Reachable(p: Program, n: Id, name: string)
    requires p.Valid()
  {
    Flows(p, n, {}, name)
  }

  lemma PathPrepends(p: Program, n: Id, s: Id, avoid: set<Id>, name: string)
    requires p.Valid() && n < |p.tree| && s < |p.tree| && n !in avoid && Edge(p, n, s)
    requires Flows(p, s, avoid + {n}, name)
    ensures Flows(p, n, avoid, name)
  {
    var path :| Path(p, path, avoid + {n}) && path[0] == s && NamedAt(p, path[|path| - 1], name);
    var longer := [n] + path;
    forall i | 0 <= i < |longer| - 1 ensures Edge(p, longer[i], longer[i + 1]) {
      if i > 0 { assert longer[i] == path[i - 1] && longer[i + 1] == path[i]; }
    }
    assert Path(p, longer, avoid);
  }

  /** The heart of the matter: cut a path after its last visit to its own start, and it never returns there. */
  lemma {:induction false} LastVisit(p: Program, n: Id, path: seq<Id>, avoid: set<Id>, name: string, k: nat)
    requires p.Valid() && n < |p.tree| && Path(p, path, avoid) && NamedAt(p, path[|path| - 1], name)
    requires k < |path| && path[k] == n
    ensures NamedAt(p, n, name) || exists s: Id :: s < |p.tree| && Edge(p, n, s) && Flows(p, s, avoid + {n}, name)
    decreases |path| - k
  {
    if j :| k < j < |path| && path[j] == n {
      LastVisit(p, n, path, avoid, name, j);
    } else if k + 1 < |path| {
      var rest := path[k + 1..];
      forall i | 0 <= i < |rest| - 1 ensures Edge(p, rest[i], rest[i + 1]) {
        assert rest[i] == path[k + 1 + i] && rest[i + 1] == path[k + 1 + i + 1];
      }
      assert Path(p, rest, avoid + {n});
      assert Edge(p, n, rest[0]) && Flows(p, rest[0], avoid + {n}, name);
    }
  }

  /** One step of the walk loses nothing: marking `n` as seen and asking its sources finds every name that flows into it. */
  lemma FlowsUnfold(p: Program, n: Id, avoid: set<Id>, name: string)
    requires p.Valid() && n < |p.tree| && n !in avoid
    ensures Flows(p, n, avoid, name) <==>
              || NamedAt(p, n, name)
              || exists s: Id :: s < |p.tree| && Edge(p, n, s) && Flows(p, s, avoid + {n}, name)
  {
    if Flows(p, n, avoid, name) {
      var path :| Path(p, path, avoid) && path[0] == n && NamedAt(p, path[|path| - 1], name);
      LastVisit(p, n, path, avoid, name, 0);
    }
    if NamedAt(p, n, name) {
      assert Path(p, [n], avoid);
      assert [n][|[n]| - 1] == n;
    }
    forall s: Id | s < |p.tree| && Edge(p, n, s) && Flows(p, s, avoid + {n}, name) ensures Flows(p, n, avoid, name) {
      PathPrepends(p, n, s, avoid, name);
    }
  }

  /** What flows into an array literal is its own event slot. */
  lemma ArrayYields(p: Program, n: Id, avoid: set<Id>)
    requires p.Valid() && n < |p.tree| && n !in avoid && p.tree[n].kind.ArrayLiteral?
    ensures forall name :: InSlot(p.tree[n].kind.elements, name) <==> Flows(p, n, avoid, name)
  {
    forall name { FlowsUnfold(p, n, avoid, name); }
  }

  lemma BranchesYield(p: Program, n: Id, avoid: set<Id>, left: set<string>, right: set<string>)
    requires p.Valid() && n < |p.tree| && n !in avoid && p.tree[n].kind.Conditional?
    requires p.tree[n].kind.whenTrue < |p.tree| && p.tree[n].kind.whenFalse < |p.tree|
    requires forall name :: name in left <==> Flows(p, Unwrapped(p.tree, p.tree[n].kind.whenTrue), avoid + {n}, name)
    requires forall name :: name in right <==> Flows(p, Unwrapped(p.tree, p.tree[n].kind.whenFalse), avoid + {n}, name)
    ensures forall name :: name in left + right <==> Flows(p, n, avoid, name)
  {
    forall name ensures name in left + right <==> Flows(p, n, avoid, name) { FlowsUnfold(p, n, avoid, name); }
  }

  lemma IdentifierYields(p: Program, n: Id, avoid: set<Id>, events: set<string>)
    requires p.Valid() && n < |p.tree| && n !in avoid && p.tree[n].kind.Identifier?
    requires forall name :: name in events <==> exists s: Id :: s < |p.tree| && Edge(p, n, s) && Flows(p, s, avoid + {n}, name)
    ensures forall name :: name in events <==> Flows(p, n, avoid, name)
  {
    forall name ensures name in events <==> Flows(p, n, avoid, name) { FlowsUnfold(p, n, avoid, name); }
  }

  /** Nothing flows into an expression to stay off, or into any other form. */
  lemma NothingYields(p: Program, n: Id, avoid: set<Id>)
    requires p.Valid() && n < |p.tree|
    requires n in avoid || !(p.tree[n].kind.ArrayLiteral? || p.tree[n].kind.Conditional? || p.tree[n].kind.Identifier?)
    ensures forall name :: !Flows(p, n, avoid, name)
  {
    if n !in avoid { forall name { FlowsUnfold(p, n, avoid, name); } }
  }

  /** Every expression there is, in which the `seen` set grows. */
  function AllIds(p: Program): set<Id> {
    IdsBelow(|p.tree|)
  }

  function IdsBelow(n: nat): (ids: set<Id>)
    ensures forall i: Id :: i in ids <==> i < n
  {
    if n == 0 then {} else IdsBelow(n - 1) + {n - 1}
  }

  /** `name` flows in from what `d` declares. */
  ghost predicate FlowsFrom(p: Program, d: Declaration, avoid: set<Id>, name: string)
    requires p.Valid()
  {
    exists s: Id :: s < |p.tree| && DeclaredFrom(p, d, s) && Flows(p, s, avoid, name)
  }

  /** `name` flows in from the argument that `call` passes at `index`. */
  ghost predicate FlowsFromCall(p: Program, call: Id, index: nat, avoid: set<Id>, name: string)
    requires p.Valid()
  {
    exists s: Id :: s < |p.tree| && PassedAt(p, call, index, s) && Flows(p, s, avoid, name)
  }

  /** `events` are the names that flow in through the arguments that `calls` pass at `index`. */
  ghost predicate CallsYield(p: Program, calls: seq<Id>, index: nat, avoid: set<Id>, events: set<string>)
    requires p.Valid()
  {
    forall name :: name in events <==> exists c :: c in calls && FlowsFromCall(p, c, index, avoid, name)
  }

  lemma OneMoreCall(p: Program, calls: seq<Id>, i: nat, index: nat, avoid: set<Id>, events: set<string>, more: set<string>)
    requires p.Valid() && i < |calls| && CallsYield(p, calls[..i], index, avoid, events)
    requires forall name :: name in more <==> FlowsFromCall(p, calls[i], index, avoid, name)
    ensures CallsYield(p, calls[..i + 1], index, avoid, events + more)
  {
    assert calls[..i + 1] == calls[..i] + [calls[i]];
  }

  lemma AllCalls(p: Program, d: Declaration, avoid: set<Id>, events: set<string>)
    requires p.Valid() && d.Parameter? && d.owner in p.helpers && !p.helpers[d.owner].exported
    requires CallsYield(p, p.WholeProgram(d.owner), d.index, avoid, events)
    ensures forall name :: name in events <==> FlowsFrom(p, d, avoid, name)
  {
    forall name ensures name in events <==> FlowsFrom(p, d, avoid, name) {
      if c :| c in p.WholeProgram(d.owner) && FlowsFromCall(p, c, d.index, avoid, name) {
        var s: Id :| s < |p.tree| && PassedAt(p, c, d.index, s) && Flows(p, s, avoid, name);
        assert DeclaredFrom(p, d, s);
      }
    }
  }

  /** `events` are the names that flow in from the declarations. */
  ghost predicate DeclarationsYield(p: Program, ds: seq<Declaration>, avoid: set<Id>, events: set<string>)
    requires p.Valid()
  {
    forall name :: name in events <==> exists d :: d in ds && FlowsFrom(p, d, avoid, name)
  }

  lemma OneMoreDeclaration(p: Program, ds: seq<Declaration>, i: nat, avoid: set<Id>, events: set<string>, more: set<string>)
    requires p.Valid() && i < |ds| && DeclarationsYield(p, ds[..i], avoid, events)
    requires forall name :: name in more <==> FlowsFrom(p, ds[i], avoid, name)
    ensures DeclarationsYield(p, ds[..i + 1], avoid, events + more)
  {
    assert ds[..i + 1] == ds[..i] + [ds[i]];
  }

  lemma InitializerYields(p: Program, d: Declaration, avoid: set<Id>, events: set<string>)
    requires p.Valid() && d.ConstInitializer? && d.value < |p.tree|
    requires forall name :: name in events <==> Flows(p, Unwrapped(p.tree, d.value), avoid, name)
    ensures forall name :: name in events <==> FlowsFrom(p, d, avoid, name)
  {}

  lemma AllDeclarations(p: Program, identifier: Id, avoid: set<Id>, events: set<string>)
    requires p.Valid() && identifier < |p.tree| && p.tree[identifier].kind.Identifier?
    requires DeclarationsYield(p, p.DeclarationsOf(identifier), avoid, events)
    ensures forall name :: name in events <==> exists s: Id :: s < |p.tree| && Edge(p, identifier, s) && Flows(p, s, avoid, name)
  {}

  /** What is in a covered file, or at the top level of any. */
  predicate Covered(p: Program, n: Id) {
    n < |p.places| && (p.places[n].file in p.packageFiles || !p.places[n].local)
  }

  lemma {:induction false} UnwrappedIsCovered(p: Program, n: Id)
    requires p.Valid() && p.Scoped() && Covered(p, n)
    ensures Covered(p, Unwrapped(p.tree, n))
    decreases |p.tree| - n
  {
    if p.tree[n].kind.Wrapper? {
      assert ChildOf(p.tree, n, p.tree[n].kind.expression);
      UnwrappedIsCovered(p, p.tree[n].kind.expression);
    }
  }

  lemma CallIsCovered(p: Program, owner: FunctionId, call: Id)
    requires p.Valid() && p.Scoped() && call in p.WholeProgram(owner)
    ensures p.IsCall(call) && Covered(p, call)
  {
    CallsInAreCalls(p, p.packageFiles, owner);
    var f :| f in p.packageFiles && call in p.sources[f].calls;
    var i: nat :| i < |p.sources[f].calls| && p.sources[f].calls[i] == call;
  }

  lemma ArgumentIsCovered(p: Program, call: Id, index: nat)
    requires p.Valid() && p.Scoped() && p.IsCall(call) && Covered(p, call) && index < |p.tree[call].kind.arguments|
    ensures Covered(p, p.tree[call].kind.arguments[index])
  {
    assert ChildOf(p.tree, call, p.tree[call].kind.arguments[index]);
  }

  lemma BranchesAreCovered(p: Program, n: Id)
    requires p.Valid() && p.Scoped() && Covered(p, n) && p.tree[n].kind.Conditional?
    ensures Covered(p, p.tree[n].kind.whenTrue) && Covered(p, p.tree[n].kind.whenFalse)
  {
    assert ChildOf(p.tree, n, p.tree[n].kind.whenTrue) && ChildOf(p.tree, n, p.tree[n].kind.whenFalse);
  }

  /** A covered identifier names a parameter only of a helper in a covered file, and a const that is covered too. */
  lemma DeclarationIsCovered(p: Program, n: Id, d: Declaration)
    requires p.Valid() && p.Scoped() && Covered(p, n) && d in p.DeclarationsOf(n)
    ensures d.ConstInitializer? ==> Covered(p, d.value)
    ensures d.Parameter? ==> d.owner in p.helpers && p.helpers[d.owner].file in p.packageFiles
  {
    assert p.InScope(n, d);
  }

  lemma EdgeIsCovered(p: Program, n: Id, s: Id)
    requires p.Valid() && p.Scoped() && Covered(p, n) && s < |p.tree| && Edge(p, n, s)
    ensures Covered(p, s)
  {
    match p.tree[n].kind
    case Conditional(_, t, f) =>
      BranchesAreCovered(p, n);
      UnwrappedIsCovered(p, t);
      UnwrappedIsCovered(p, f);
    case Identifier(_) =>
      var d :| d in p.DeclarationsOf(n) && DeclaredFrom(p, d, s);
      DeclarationIsCovered(p, n, d);
      if d.ConstInitializer? {
        UnwrappedIsCovered(p, d.value);
      } else {
        var c :| c in p.WholeProgram(d.owner) && PassedAt(p, c, d.index, s);
        CallIsCovered(p, d.owner, c);
        ArgumentIsCovered(p, c, d.index);
        UnwrappedIsCovered(p, p.tree[c].kind.arguments[d.index]);
      }
  }

  /** Wherever the flow leads from a covered file, a helper whose parameter is named there lies in a covered file. */
  lemma OwnersAreCovered(p: Program, path: seq<Id>, avoid: set<Id>, k: nat, d: Declaration)
    requires p.Valid() && p.Scoped() && Path(p, path, avoid) && Covered(p, path[0])
    requires k < |path| && d in p.DeclarationsOf(path[k]) && d.Parameter?
    ensures d.owner in p.helpers && p.helpers[d.owner].file in p.packageFiles
  {
    PathIsCovered(p, path, avoid, k);
    DeclarationIsCovered(p, path[k], d);
  }

  lemma {:induction false} PathIsCovered(p: Program, path: seq<Id>, avoid: set<Id>, k: nat)
    requires p.Valid() && p.Scoped() && Path(p, path, avoid) && Covered(p, path[0]) && k < |path|
    ensures Covered(p, path[k])
  {
    if k > 0 {
      PathIsCovered(p, path, avoid, k - 1);
      EdgeIsCovered(p, path[k - 1], path[k]);
    }
  }
}
