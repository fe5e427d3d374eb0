/**
 The program as scripts/gen-doc-graphs.ts sees it through the type checker, the calls of its helpers, and
 when the calls in one file are all there are (lines 884-965).
 */
module CallSites {
  import opened Prelude
  import opened SyntaxTree

  type File = string
  type FunctionId = nat
  type Symbol = nat

  /** Where a node stands: its file, and whether it is inside a function there. */
  datatype Place = Place(file: File, local: bool)

  /** What an identifier's symbol may be declared by; any other declaration carries no argument list. */
  datatype Declaration =
    | ConstInitializer(value: Id)
    | Parameter(owner: FunctionId, index: nat)
    | Elsewhere

  /** `symbol` is `None` when the checker resolves no symbol at the function's name. */
  datatype Helper = Helper(file: File, exported: bool, name: string, nameAt: Id, symbol: Option<Symbol>)

  /** A source file: its call expressions and identifiers in visit order, and whether it has module scope. */
  datatype Source = Source(calls: seq<Id>, identifiers: seq<Id>, isModule: bool)

  /**
   `resolved` maps a call to the declaration of its resolved signature, `symbols` an identifier to
   the symbol it refers to, aliases followed, `declarations` to the declarations of its own symbol.
   `packageFiles` are the files the collector covers.
   */
  datatype Program = Program(
    tree: seq<Node>,
    places: seq<Place>,
    sources: map<File, Source>,
    packageFiles: seq<File>,
    helpers: map<FunctionId, Helper>,
    resolved: map<Id, FunctionId>,
    symbols: map<Id, Symbol>,
    declarations: map<Id, seq<Declaration>>)
  {
    ghost predicate Valid() {
      && WellFormed(tree)
      && (forall i :: 0 <= i < |packageFiles| ==> packageFiles[i] in sources)
      && (forall i, j :: 0 <= i < j < |packageFiles| ==> packageFiles[i] != packageFiles[j])
      && (forall f, g, c :: f in sources && g in sources && f != g && c in sources[f].calls ==> c !in sources[g].calls)
      && (forall h :: h in helpers ==> helpers[h].file in sources)
      && (forall f: File, i: nat :: f in sources && i < |sources[f].identifiers| ==> IsIdentifier(sources[f].identifiers[i]))
      && (forall f: File, i: nat :: f in sources && i < |sources[f].calls| ==> IsCall(sources[f].calls[i]))
      && |places| == |tree|
      && (forall i, d :: i in declarations && d in declarations[i] ==> Declares(d))
    }

    predicate Declares(d: Declaration) {
      (d.ConstInitializer? ==> d.value < |tree|) && (d.Parameter? ==> d.owner in helpers)
    }

    predicate IsCall(c: Id) {
      c < |tree| && tree[c].kind.Call?
    }

    function DeclarationsOf(i: Id): seq<Declaration> {
      if i in declarations then declarations[i] else []
    }

    predicate IsIdentifier(i: Id) {
      i < |tree| && tree[i].kind.Identifier?
    }

    /** An identifier that names the helper other than as a direct callee: its value may escape the file. */
    ghost predicate Escapes(h: Helper, i: Id)
      requires Valid()
    {
      && IsIdentifier(i) && i != h.nameAt && tree[i].kind.text == h.name
      && !CalledDirectly(tree, i)
      && i in symbols && h.symbol == Some(symbols[i])
    }

    ghost predicate Clean(h: Helper, identifiers: seq<Id>)
      requires Valid()
    {
      forall k :: 0 <= k < |identifiers| ==> !Escapes(h, identifiers[k])
    }

    /** What `provenLocalCallee` establishes. */
    ghost predicate Proven(owner: FunctionId)
      requires Valid() && owner in helpers
    {
      var h := helpers[owner];
      && !h.exported && sources[h.file].isModule && h.symbol.Some?
      && Clean(h, sources[h.file].identifiers)
    }

    function CallsAmong(calls: seq<Id>, owner: FunctionId): seq<Id> {
      if calls == [] then []
      else CallsAmong(calls[..|calls| - 1], owner)
           + if calls[|calls| - 1] in resolved && resolved[calls[|calls| - 1]] == owner then [calls[|calls| - 1]] else []
    }

    /** Every call to `owner` in the given files, in visit order. */
    function CallsIn(files: seq<File>, owner: FunctionId): seq<Id>
      requires forall f :: f in files ==> f in sources
    {
      if files == [] then []
      else CallsIn(files[..|files| - 1], owner) + CallsAmong(sources[files[|files| - 1]].calls, owner)
    }

    /** The answer the whole-program index gives. */
    function WholeProgram(owner: FunctionId): seq<Id>
      requires forall f :: f in packageFiles ==> f in sources
    {
      CallsIn(packageFiles, owner)
    }

    /**
     What the language's scoping says. An expression stands where the forms around it stand, and a call in
     its file; a parameter is only named inside its function; a const that is named from another file, or
     from the top level, is at the top level; and helpers whose values do not escape are called from their
     own file only.
     */
    ghost predicate Scoped()
      requires Valid()
    {
      && (forall n: Id, c: Id :: ChildOf(tree, n, c) && !tree[n].kind.Other? ==> places[c] == places[n])
      && (forall f: File, i: nat :: f in sources && i < |sources[f].calls| ==> places[sources[f].calls[i]].file == f)
      && (forall i, d :: i in declarations && d in declarations[i] && i < |tree| ==> InScope(i, d))
      && (forall h :: h in helpers ==> Confined(h))
    }

    predicate InScope(i: Id, d: Declaration)
      requires i < |places|
    {
      match d
      case ConstInitializer(value) =>
        value < |places| && (!places[value].local || (places[i].local && places[value].file == places[i].file))
      case Parameter(owner, _) => owner in helpers && places[i] == Place(helpers[owner].file, true)
      case Elsewhere => true
    }

    /** Module scoping: a helper whose value never escapes its file is called from that file only. */
    ghost predicate Confined(owner: FunctionId)
      requires Valid() && owner in helpers
    {
      Proven(owner) ==> forall f :: f in packageFiles && f != helpers[owner].file ==> CallsIn([f], owner) == []
    }
  }

  lemma {:induction false} CallsInSplit(p: Program, a: seq<File>, b: seq<File>, owner: FunctionId)
    requires forall f :: f in a + b ==> f in p.sources
    ensures p.CallsIn(a + b, owner) == p.CallsIn(a, owner) + p.CallsIn(b, owner)
  {
    if b == [] {
      assert a + b == a;
    } else {
      CallsInSplit(p, a, b[..|b| - 1], owner);
      assert (a + b)[..|a + b| - 1] == a + b[..|b| - 1];
    }
  }

  lemma {:induction false} NoCallsIn(p: Program, files: seq<File>, owner: FunctionId)
    requires forall f :: f in files ==> f in p.sources
    ensures p.CallsIn(files, owner) == [] <==> forall f :: f in files ==> p.CallsIn([f], owner) == []
  {
    if files != [] {
      var last := files[|files| - 1];
      NoCallsIn(p, files[..|files| - 1], owner);
      assert p.CallsIn([last], owner) == p.CallsAmong(p.sources[last].calls, owner) by {
        assert [last][..0] == [];
      }
      assert files == files[..|files| - 1] + [last];
    }
  }

  lemma {:induction false} CallsAmongAreCalls(p: Program, calls: seq<Id>, owner: FunctionId)
    ensures forall c :: c in p.CallsAmong(calls, owner) ==> c in calls
  {
    if calls != [] { CallsAmongAreCalls(p, calls[..|calls| - 1], owner); }
  }

  lemma {:induction false} CallsInAreCalls(p: Program, files: seq<File>, owner: FunctionId)
    requires forall f :: f in files ==> f in p.sources
    ensures forall c :: c in p.CallsIn(files, owner) ==> exists f :: f in files && c in p.sources[f].calls
  {
    if files != [] {
      CallsInAreCalls(p, files[..|files| - 1], owner);
      CallsAmongAreCalls(p, p.sources[files[|files| - 1]].calls, owner);
    }
  }

  lemma EqualsItsMiddle<T>(before: seq<T>, middle: seq<T>, after: seq<T>)
    ensures middle == before + middle + after <==> before == [] && after == []
  {
    if middle == before + middle + after {
      assert |middle| == |before| + |middle| + |after|;
    }
  }

  lemma WholeProgramParts(p: Program, owner: FunctionId, i: nat)
    requires p.Valid() && i < |p.packageFiles|
    ensures var files := p.packageFiles;
            p.WholeProgram(owner) == p.CallsIn(files[..i], owner) + p.CallsIn([files[i]], owner) + p.CallsIn(files[i + 1..], owner)
  {
    var files := p.packageFiles;
    assert files == files[..i] + [files[i]] + files[i + 1..];
    CallsInSplit(p, files[..i], [files[i]], owner);
    CallsInSplit(p, files[..i] + [files[i]], files[i + 1..], owner);
  }

  lemma OwnCallIsElsewhere(p: Program, owner: FunctionId, c: Id)
    requires p.Valid() && owner in p.helpers && p.helpers[owner].file !in p.packageFiles
    requires c in p.CallsIn([p.helpers[owner].file], owner)
    ensures c !in p.WholeProgram(owner)
  {
    CallsInAreCalls(p, [p.helpers[owner].file], owner);
    CallsInAreCalls(p, p.packageFiles, owner);
  }

  /**
   When one file's index answers like the whole program's: no other covered file calls the helper,
   and the helper's own file is covered too unless it holds no call either.
   */
  lemma FastPathAgrees(p: Program, owner: FunctionId)
    requires p.Valid() && owner in p.helpers
    ensures var file := p.helpers[owner].file;
            p.CallsIn([file], owner) == p.WholeProgram(owner) <==>
              && (forall f :: f in p.packageFiles && f != file ==> p.CallsIn([f], owner) == [])
              && (file in p.packageFiles || p.CallsIn([file], owner) == [])
  {
    var file, files := p.helpers[owner].file, p.packageFiles;
    if i :| 0 <= i < |files| && files[i] == file {
      WholeProgramParts(p, owner, i);
      EqualsItsMiddle(p.CallsIn(files[..i], owner), p.CallsIn([file], owner), p.CallsIn(files[i + 1..], owner));
      NoCallsIn(p, files[..i], owner);
      NoCallsIn(p, files[i + 1..], owner);
      assert forall f :: f in files && f != file <==> f in files[..i] || f in files[i + 1..];
    } else {
      NoCallsIn(p, files, owner);
      var own := p.CallsIn([file], owner);
      if own != [] {
        OwnCallIsElsewhere(p, owner, own[0]);
      }
    }
  }

  lemma {:induction false} CallsAmongStep(p: Program, calls: seq<Id>, j: nat, owner: FunctionId)
    requires j < |calls|
    ensures p.CallsAmong(calls[..j + 1], owner) ==
            p.CallsAmong(calls[..j], owner) + if calls[j] in p.resolved && p.resolved[calls[j]] == owner then [calls[j]] else []
  {
    assert calls[..j + 1][..j] == calls[..j];
  }

  /** The owner's file answers for the whole program once the helper is proven local. */
  lemma ProvenSuffices(p: Program, owner: FunctionId)
    requires p.Valid() && owner in p.helpers && p.Proven(owner)
    requires p.Confined(owner) && p.helpers[owner].file in p.packageFiles
    ensures p.CallsIn([p.helpers[owner].file], owner) == p.WholeProgram(owner)
  {
    FastPathAgrees(p, owner);
  }
}
