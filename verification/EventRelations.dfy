/**
 The walk of scripts/gen-doc-graphs.ts that recovers event names, with its `seen` set copied on every branch
 (lines 1040-1086), over call sites from indexes chosen on demand: one file is indexed when every same-file
 reference to a helper is a direct callee, the whole program otherwise (lines 884-965).
 */
module EventRelations {
  import opened Prelude
  import opened SyntaxTree
  import opened CallSites
  import opened EventFlow

  type Index = map<FunctionId, seq<Id>>

  function Get(index: Index, owner: FunctionId): seq<Id> {
    if owner in index then index[owner] else []
  }

  ghost predicate Recorded(p: Program, proofs: map<FunctionId, bool>)
    requires p.Valid()
  {
    forall h :: h in proofs ==> h in p.helpers && (proofs[h] <==> p.Proven(h))
  }

  /** The collector: indexes and proofs are built on demand and kept. */
  class EventRelationCollector {
    const p: Program
    var fileCallSites: map<File, Index>
    var localCalleeProofs: map<FunctionId, bool>
    var globalCallSites: Option<Index>

    ghost predicate Valid()
      reads this
    {
      && p.Valid()
      && (forall f :: f in fileCallSites ==> f in p.sources && forall h :: Get(fileCallSites[f], h) == p.CallsIn([f], h))
      && Recorded(p, localCalleeProofs)
      && (globalCallSites.Some? ==> forall h :: Get(globalCallSites.value, h) == p.WholeProgram(h))
    }

    constructor (program: Program)
      requires program.Valid()
      ensures Valid() && p == program
    {
      p := program;
      fileCallSites, localCalleeProofs, globalCallSites := map[], map[], None;
    }

    method BuildCallSiteIndex(files: seq<File>) returns (index: Index)
      requires forall f :: f in files ==> f in p.sources
      ensures forall h :: Get(index, h) == p.CallsIn(files, h)
    {
      index := map[];
      for i := 0 to |files|
        invariant forall h :: Get(index, h) == p.CallsIn(files[..i], h)
      {
        index := IndexCalls(index, p.sources[files[i]].calls);
        assert files[..i + 1][..i] == files[..i];
      }
      assert files[..|files|] == files;
    }

    method IndexCalls(before: Index, calls: seq<Id>) returns (index: Index)
      ensures forall h :: Get(index, h) == Get(before, h) + p.CallsAmong(calls, h)
    {
      index := before;
      for j := 0 to |calls|
        invariant forall h :: Get(index, h) == Get(before, h) + p.CallsAmong(calls[..j], h)
      {
        ghost var was := index;
        if calls[j] in p.resolved {
          var owner := p.resolved[calls[j]];
          index := index[owner := Get(index, owner) + [calls[j]]];
        }
        forall h ensures Get(index, h) == Get(before, h) + p.CallsAmong(calls[..j + 1], h) {
          CallsAmongStep(p, calls, j, h);
          assert Get(was, h) == Get(before, h) + p.CallsAmong(calls[..j], h);
        }
      }
      assert calls[..|calls|] == calls;
    }

    /** Answers from the cache or by scanning the owner's file; both agree with what a fresh scan would say. */
    method ProvenLocalCallee(owner: FunctionId) returns (proven: bool)
      requires Valid() && owner in p.helpers
      modifies this`localCalleeProofs
      ensures Valid() && (proven <==> p.Proven(owner))
    {
      if owner in localCalleeProofs { return localCalleeProofs[owner]; }
      var h := p.helpers[owner];
      proven := false;
      if h.exported || !p.sources[h.file].isModule {
        localCalleeProofs := localCalleeProofs[owner := false];
        return false;
      }
      proven := h.symbol.Some?;
      var identifiers := p.sources[h.file].identifiers;
      for k := 0 to |identifiers|
        invariant localCalleeProofs == old(localCalleeProofs)
        invariant proven <==> h.symbol.Some? && p.Clean(h, identifiers[..k])
      {
        var i := identifiers[k];
        assert p.IsIdentifier(i);
        assert p.Clean(h, identifiers[..k + 1]) <==> p.Clean(h, identifiers[..k]) && !p.Escapes(h, i);
        if proven && i != h.nameAt && p.tree[i].kind.text == h.name {
          var direct := IsDirectCallee(p.tree, i);
          if !direct && i in p.symbols && h.symbol == Some(p.symbols[i]) {
            proven := false;
          }
        }
      }
      assert identifiers[..|identifiers|] == identifiers;
      assert proven <==> p.Proven(owner);
      localCalleeProofs := localCalleeProofs[owner := proven];
    }

    /**
     Whatever was asked before, the answer is the whole program's or, for a proven helper, its own
     file's; under module scoping the two are the same for every helper that lives in a covered file.
     */
    method CallSitesFor(owner: FunctionId) returns (calls: seq<Id>)
      requires Valid() && owner in p.helpers
      modifies this
      ensures Valid()
      ensures calls == p.WholeProgram(owner) || (p.Proven(owner) && calls == p.CallsIn([p.helpers[owner].file], owner))
      ensures p.Confined(owner) && p.helpers[owner].file in p.packageFiles ==> calls == p.WholeProgram(owner)
    {
      if globalCallSites.None? {
        var proven := ProvenLocalCallee(owner);
        if !proven {
          var index := BuildCallSiteIndex(p.packageFiles);
          globalCallSites := Some(index);
        }
      }
      if globalCallSites.Some? { return Get(globalCallSites.value, owner); }
      if p.Confined(owner) && p.helpers[owner].file in p.packageFiles { ProvenSuffices(p, owner); }
      var file := p.helpers[owner].file;
      if file !in fileCallSites {
        var index := BuildCallSiteIndex([file]);
        fileCallSites := fileCallSites[file := index];
      }
      calls := Get(fileCallSites[file], owner);
    }

    /** The loop over an array literal's first two elements, which stops at the first closed set of values. */
    method EventSlot(elements: seq<Element>) returns (events: set<string>)
      ensures forall name :: name in events <==> InSlot(elements, name)
    {
      var limit := if |elements| < 2 then |elements| else 2;
      for k := 0 to limit
        invariant forall j :: 0 <= j < k ==> !Closed(elements[j])
      {
        match elements[k] {
          case Plain(_, Some(values)) => return values;
          case _ =>
        }
      }
      events := {};
    }

    /**
     `eventNamesFromArgumentList`: the walk with its `seen` set copied for every branch. Whatever was asked
     before, it returns exactly the names that flow along paths staying off what it was told to skip.
     */
    method EventNamesFromArgumentList(expression: Id, seen: set<Id>) returns (events: set<string>)
      requires Valid() && p.Scoped() && Covered(p, expression)
      modifies this
      ensures Valid()
      ensures forall name :: name in events <==> Flows(p, Unwrapped(p.tree, expression), seen, name)
      decreases AllIds(p) - seen, 0
    {
      var current := UnwrapExpression(p.tree, expression);
      UnwrappedIsCovered(p, expression);
      if current in seen {
        NothingYields(p, current, seen);
        return {};
      }
      var marked := seen + {current};
      assert current in AllIds(p) - seen && AllIds(p) - marked < AllIds(p) - seen;
      match p.tree[current].kind {
        case ArrayLiteral(elements) =>
          ArrayYields(p, current, seen);
          events := EventSlot(elements);
        case Conditional(_, whenTrue, whenFalse) =>
          BranchesAreCovered(p, current);
          var left := EventNamesFromArgumentList(whenTrue, marked);
          var right := EventNamesFromArgumentList(whenFalse, marked);
          BranchesYield(p, current, seen, left, right);
          events := left + right;
        case Identifier(_) =>
          events := EventNamesFromDeclarations(current, marked);
          IdentifierYields(p, current, seen, events);
        case _ =>
          NothingYields(p, current, seen);
          events := {};
      }
    }

    method EventNamesFromDeclarations(identifier: Id, seen: set<Id>) returns (events: set<string>)
      requires Valid() && p.Scoped() && Covered(p, identifier) && p.tree[identifier].kind.Identifier?
      modifies this
      ensures Valid()
      ensures forall name :: name in events <==>
                exists s: Id :: s < |p.tree| && Edge(p, identifier, s) && Flows(p, s, seen, name)
      decreases AllIds(p) - seen, 3
    {
      events := {};
      var declarations := p.DeclarationsOf(identifier);
      for i := 0 to |declarations|
        invariant Valid() && DeclarationsYield(p, declarations[..i], seen, events)
      {
        var d := declarations[i];
        var more := {};
        DeclarationIsCovered(p, identifier, d);
        match d {
          case ConstInitializer(value) =>
            more := EventNamesFromArgumentList(value, seen);
            InitializerYields(p, d, seen, more);
          case Parameter(_, _) =>
            more := EventNamesFromParameter(d, seen);
          case Elsewhere =>
        }
        OneMoreDeclaration(p, declarations, i, seen, events, more);
        events := events + more;
      }
      assert declarations[..|declarations|] == declarations;
      AllDeclarations(p, identifier, seen, events);
    }

    /** `eventNamesFromParameter`: a non-exported helper's parameter stands for its arguments at every call site. */
    method EventNamesFromParameter(d: Declaration, seen: set<Id>) returns (events: set<string>)
      requires Valid() && p.Scoped() && d.Parameter? && d.owner in p.helpers && p.helpers[d.owner].file in p.packageFiles
      modifies this
      ensures Valid()
      ensures forall name :: name in events <==> FlowsFrom(p, d, seen, name)
      decreases AllIds(p) - seen, 2
    {
      events := {};
      if p.helpers[d.owner].exported { return; }
      var calls := CallSitesFor(d.owner);
      for i := 0 to |calls|
        invariant Valid() && CallsYield(p, calls[..i], d.index, seen, events)
      {
        CallIsCovered(p, d.owner, calls[i]);
        var more := EventNamesFromCallSite(calls[i], d.index, seen);
        OneMoreCall(p, calls, i, d.index, seen, events, more);
        events := events + more;
      }
      assert calls[..|calls|] == calls;
      AllCalls(p, d, seen, events);
    }

    method EventNamesFromCallSite(call: Id, index: nat, seen: set<Id>) returns (events: set<string>)
      requires Valid() && p.Scoped() && p.IsCall(call) && Covered(p, call)
      modifies this
      ensures Valid()
      ensures forall name :: name in events <==> FlowsFromCall(p, call, index, seen, name)
      decreases AllIds(p) - seen, 1
    {
      events := {};
      var arguments := p.tree[call].kind.arguments;
      if index < |arguments| {
        ArgumentIsCovered(p, call, index);
        events := EventNamesFromArgumentList(arguments[index], seen);
        assert PassedAt(p, call, index, Unwrapped(p.tree, arguments[index]));
      }
    }

    /**
     What the collector asks for at a dispatch in a covered file, after any other questions: starting from no
     `seen`, exactly the names reachable through the calls of the whole program.
     */
    method DispatchedEvents(argumentList: Id) returns (events: set<string>)
      requires Valid() && p.Scoped() && argumentList < |p.tree| && p.places[argumentList].file in p.packageFiles
      modifies this
      ensures Valid()
      ensures forall name :: name in events <==> Reachable(p, Unwrapped(p.tree, argumentList), name)
    {
      events := EventNamesFromArgumentList(argumentList, {});
    }
  }
}
