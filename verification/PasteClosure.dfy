/**
 The transitive paste closure of scripts/gen-config-catalog.ts: which declarations a
 catalog fence must carry, found with a queue whose every resolution is identity-checked
 (lines 141-183 and 663-717).
 */
module PasteClosure {
  import opened Prelude

  type File = string

  /** A relative import names a source file; any other import names a package. */
  datatype Import =
    | Relative(imported: string, target: File, explicitTs: bool)
    | Package(imported: string, specifier: string)

  /** Declarations by name, with the type names each mentions in order, and imports by local name. */
  datatype SourceFile = SourceFile(decls: map<string, seq<string>>, imports: map<string, Import>)

  type World = map<File, SourceFile>

  /** Where a declaration sits: a file declares a name once. */
  type DeclKey = (File, string)

  datatype TypeRef = TypeRef(imported: string, specifier: string)

  datatype Violation =
    | NoTsExtension(at: File)
    | AliasedLocally(name: string, at: File)
    | Unresolvable(name: string, at: File)
    | ImportedConfigType(name: string)
    | PastedThenImported(name: string)
    | ImportedTwice(name: string)
    | DeclaredTwice(name: string)
    | ImportedThenPasted(name: string)

  /** `Crash` is an unreadable file or an import chain too long for the call stack. */
  datatype Resolution =
    | Declaration(at: File)
    | Reference(ref: TypeRef)
    | Nothing(reported: seq<Violation>)
    | Crash

  function ResolveTypeName(w: World, f: File, name: string, stack: nat): (r: Resolution)
    ensures r.Declaration? ==> r.at in w && name in w[r.at].decls
    decreases stack
  {
    if stack == 0 || f !in w then Crash
    else if name in w[f].decls then Declaration(f)
    else if name !in w[f].imports then Nothing([])
    else
      match w[f].imports[name]
      case Relative(imported, target, explicitTs) =>
        if !explicitTs then Nothing([NoTsExtension(f)])
        else if imported != name then Nothing([AliasedLocally(name, f)])
        else ResolveTypeName(w, target, imported, stack - 1)
      case Package(imported, specifier) => Reference(TypeRef(imported, specifier))
  }

  /** The file does not declare the name itself but takes it, under the same name, from another file of the package. */
  predicate PassesOn(w: World, f: File, name: string, next: File) {
    f in w && name !in w[f].decls && name in w[f].imports && w[f].imports[name] == Relative(name, next, true)
  }

  /** The files that a name is passed on through, from `f` on. */
  ghost predicate Passed(w: World, name: string, f: File, files: seq<File>) {
    && files != [] && files[0] == f
    && forall i :: 0 <= i < |files| - 1 ==> PassesOn(w, files[i], name, files[i + 1])
  }

  /** What a file the name is not passed on from makes of it. */
  ghost predicate Settles(w: World, f: File, name: string, r: Resolution) {
    && f in w
    && match r
       case Declaration(at) => at == f && name in w[f].decls
       case Reference(ref) => name !in w[f].decls && name in w[f].imports && w[f].imports[name] == Package(ref.imported, ref.specifier)
       case Nothing(reported) =>
         && name !in w[f].decls
         && (reported == [] ==> name !in w[f].imports)
         && (reported != [] ==>
               && |reported| == 1 && name in w[f].imports && w[f].imports[name].Relative?
               && (reported[0] == NoTsExtension(f) || reported[0] == AliasedLocally(name, f))
               && (reported[0] == NoTsExtension(f) <==> !w[f].imports[name].explicitTs)
               && (reported[0] == AliasedLocally(name, f) ==> w[f].imports[name].imported != name))
       case Crash => false
  }

  lemma {:induction false} ResolvedAlong(w: World, f: File, name: string, stack: nat) returns (files: seq<File>)
    requires ResolveTypeName(w, f, name, stack) != Crash
    ensures Passed(w, name, f, files) && |files| <= stack && Settles(w, files[|files| - 1], name, ResolveTypeName(w, f, name, stack))
    decreases stack
  {
    files := [f];
    if name !in w[f].decls && name in w[f].imports && w[f].imports[name].Relative? {
      var next := w[f].imports[name].target;
      if PassesOn(w, f, name, next) {
        var rest := ResolvedAlong(w, next, name, stack - 1);
        files := [f] + rest;
      }
    }
  }

  lemma {:induction false} AlongIsResolved(w: World, f: File, name: string, stack: nat, files: seq<File>, r: Resolution)
    requires Passed(w, name, f, files) && |files| <= stack && Settles(w, files[|files| - 1], name, r)
    ensures ResolveTypeName(w, f, name, stack) == r
    decreases stack
  {
    if |files| > 1 {
      assert PassesOn(w, files[0], name, files[1]);
      forall i | 0 <= i < |files[1..]| - 1 ensures PassesOn(w, files[1..][i], name, files[1..][i + 1]) {
        assert PassesOn(w, files[i + 1], name, files[i + 1 + 1]);
      }
      AlongIsResolved(w, files[1], name, stack - 1, files[1..], r);
    }
  }

  /**
   A name is resolved by the file it is passed on to, unaliased and with the extension spelled out, as long as the
   call stack suffices: to that file's own declaration, else to the package it is imported from, else to nothing.
   */
  lemma ResolvesExactly(w: World, f: File, name: string, stack: nat, r: Resolution)
    requires r != Crash
    ensures ResolveTypeName(w, f, name, stack) == r <==>
              exists files :: Passed(w, name, f, files) && |files| <= stack && Settles(w, files[|files| - 1], name, r)
  {
    if ResolveTypeName(w, f, name, stack) == r {
      var files := ResolvedAlong(w, f, name, stack);
    }
    forall files | Passed(w, name, f, files) && |files| <= stack && Settles(w, files[|files| - 1], name, r)
      ensures ResolveTypeName(w, f, name, stack) == r
    {
      AlongIsResolved(w, f, name, stack, files, r);
    }
  }

  /** The question the loop is asked: a config type by name, from a file of its package. */
  datatype Query = Query(w: World, globals: set<string>, root: string, rootFile: File, stack: nat)
  {
    function Resolve(name: string, from: File): (r: Resolution)
      ensures r.Declaration? ==> r.at in w && name in w[r.at].decls
    {
      ResolveTypeName(w, from, name, stack)
    }

    function Mentions(f: File, name: string): seq<string> {
      if f in w && name in w[f].decls then w[f].decls[name] else []
    }
  }

  /** `name`, read in `from`, is what a fence pasting `pasted` and importing `refs` shows under that name. */
  predicate Shown(q: Query, pasted: map<string, File>, refs: map<string, TypeRef>, name: string, from: File) {
    match q.Resolve(name, from)
    case Declaration(at) => name in pasted && pasted[name] == at
    case Reference(ref) => name in refs && refs[name] == ref
    case _ => false
  }

  /** `name` is read in `from` by the fence: it is the config type itself, or a pasted declaration mentions it. */
  predicate Read(q: Query, pasted: map<string, File>, name: string, from: File) {
    || (name == q.root && from == q.rootFile)
    || (name !in q.globals && from in q.w
        && exists n :: n in pasted && pasted[n] == from && n in q.w[from].decls && name in q.w[from].decls[n])
  }

  /**
   An unambiguous fence: no name is both pasted and imported, and every name the fence reads, from
   the file that reads it, is the one declaration or import recorded under that name.
   */
  ghost predicate Unambiguous(q: Query, pasted: map<string, File>, refs: map<string, TypeRef>) {
    && pasted.Keys !! refs.Keys
    && q.root in pasted
    && forall name, from :: Read(q, pasted, name, from) ==> Shown(q, pasted, refs, name, from)
  }

  ghost predicate Within<K, V>(small: map<K, V>, large: map<K, V>) {
    forall k :: k in small ==> k in large && small[k] == large[k]
  }

  /** Type names that can ever be queued. */
  ghost function Names(q: Query): set<string> {
    {q.root} + set f, n, m | f in q.w && n in q.w[f].decls && m in q.w[f].decls[n] :: m
  }

  datatype Item = Item(name: string, from: File)

  /** While the loop runs without violation, what is read but not yet shown is still queued. */
  ghost predicate Pending(q: Query, pasted: map<string, File>, refs: map<string, TypeRef>, queue: seq<Item>) {
    && pasted.Keys !! refs.Keys
    && forall name, from :: Read(q, pasted, name, from) ==> Shown(q, pasted, refs, name, from) || Item(name, from) in queue
  }

  /** Whatever unambiguous fence exists, the loop has only collected parts of it, and its queue asks for more of it. */
  ghost predicate Inside(q: Query, pasted: map<string, File>, refs: map<string, TypeRef>, queue: seq<Item>,
                         p: map<string, File>, r: map<string, TypeRef>) {
    && Within(pasted, p)
    && Within(refs, r)
    && forall item :: item in queue ==> Shown(q, p, r, item.name, item.from)
  }

  function NewItems(names: seq<string>, globals: set<string>, from: File): (r: seq<Item>)
    ensures forall item :: item in r <==> item.from == from && item.name in names && item.name !in globals
  {
    if names == [] then []
    else (if names[0] in globals then [] else [Item(names[0], from)]) + NewItems(names[1..], globals, from)
  }

  /** The loop invariant; `silent` says that no violation has been reported. */
  ghost predicate Good(q: Query, pasted: map<string, File>, refs: map<string, TypeRef>, queue: seq<Item>, silent: bool) {
    && (silent ==> Pending(q, pasted, refs, queue))
    && (forall p, r | Unambiguous(q, p, r) :: silent && Inside(q, pasted, refs, queue, p, r))
    && (forall item :: item in queue ==> item.name in Names(q))
    && q.root !in refs
  }

  /** The cases in which the loop reports the head of the queue. */
  predicate Conflict(q: Query, pasted: map<string, File>, refs: map<string, TypeRef>, head: Item) {
    match q.Resolve(head.name, head.from)
    case Declaration(at) => if head.name in pasted then pasted[head.name] != at else head.name in refs
    case Reference(ref) => head.name == q.root || head.name in pasted || (head.name in refs && refs[head.name] != ref)
    case _ => true
  }

  lemma ConflictRefutes(q: Query, pasted: map<string, File>, refs: map<string, TypeRef>, queue: seq<Item>,
                        p: map<string, File>, r: map<string, TypeRef>)
    requires queue != [] && (Unambiguous(q, p, r) ==> Inside(q, pasted, refs, queue, p, r))
    ensures Conflict(q, pasted, refs, queue[0]) ==> !Unambiguous(q, p, r)
  {
    if Unambiguous(q, p, r) {
      assert Read(q, p, q.root, q.rootFile);
      assert Shown(q, p, r, queue[0].name, queue[0].from);
    }
  }

  lemma ConflictStaysGood(q: Query, pasted: map<string, File>, refs: map<string, TypeRef>, queue: seq<Item>, silent: bool)
    requires queue != [] && Good(q, pasted, refs, queue, silent) && Conflict(q, pasted, refs, queue[0])
    ensures Good(q, pasted, refs, queue[1..], false)
    ensures forall p, r :: !Unambiguous(q, p, r)
  {
    forall p, r ensures !Unambiguous(q, p, r) {
      ConflictRefutes(q, pasted, refs, queue, p, r);
    }
  }

  lemma AgainStaysGood(q: Query, pasted: map<string, File>, refs: map<string, TypeRef>, queue: seq<Item>, silent: bool, at: File)
    requires queue != [] && Good(q, pasted, refs, queue, silent)
    requires q.Resolve(queue[0].name, queue[0].from) == Declaration(at)
    requires queue[0].name in pasted && pasted[queue[0].name] == at
    ensures Good(q, pasted, refs, queue[1..], silent)
  {
    assert queue == [queue[0]] + queue[1..];
    forall p, r | Unambiguous(q, p, r) ensures silent && Inside(q, pasted, refs, queue[1..], p, r) {
      assert Inside(q, pasted, refs, queue, p, r);
    }
  }

  lemma ReferenceStaysGood(q: Query, pasted: map<string, File>, refs: map<string, TypeRef>, queue: seq<Item>, silent: bool, ref: TypeRef)
    requires queue != [] && Good(q, pasted, refs, queue, silent) && !Conflict(q, pasted, refs, queue[0])
    requires q.Resolve(queue[0].name, queue[0].from) == Reference(ref)
    ensures Good(q, pasted, refs[queue[0].name := ref], queue[1..], silent)
  {
    var refs' := refs[queue[0].name := ref];
    assert queue == [queue[0]] + queue[1..];
    forall p, r | Unambiguous(q, p, r) ensures silent && Inside(q, pasted, refs', queue[1..], p, r) {
      assert Inside(q, pasted, refs, queue, p, r);
      assert Shown(q, p, r, queue[0].name, queue[0].from);
    }
    if silent {
      forall name, from | Read(q, pasted, name, from)
        ensures Shown(q, pasted, refs', name, from) || Item(name, from) in queue[1..]
      {
        assert Shown(q, pasted, refs, name, from) || Item(name, from) in queue;
      }
    }
  }

  lemma PasteStaysGood(q: Query, pasted: map<string, File>, refs: map<string, TypeRef>, queue: seq<Item>, silent: bool, at: File)
    requires queue != [] && Good(q, pasted, refs, queue, silent) && !Conflict(q, pasted, refs, queue[0])
    requires q.Resolve(queue[0].name, queue[0].from) == Declaration(at) && queue[0].name !in pasted
    ensures var name := queue[0].name;
            Good(q, pasted[name := at], refs, queue[1..] + NewItems(q.Mentions(at, name), q.globals, at), silent)
  {
    var name := queue[0].name;
    assert queue == [queue[0]] + queue[1..];
    forall p, r | Unambiguous(q, p, r)
      ensures silent && Inside(q, pasted[name := at], refs, queue[1..] + NewItems(q.Mentions(at, name), q.globals, at), p, r)
    {
      PasteStaysInside(q, pasted, refs, queue, at, p, r);
    }
    if silent { PasteKeepsPending(q, pasted, refs, queue, name, at); }
  }

  lemma PasteKeepsPending(q: Query, pasted: map<string, File>, refs: map<string, TypeRef>, queue: seq<Item>, name: string, at: File)
    requires queue != [] && Pending(q, pasted, refs, queue)
    requires q.Resolve(queue[0].name, queue[0].from) == Declaration(at) && name == queue[0].name
    requires name !in pasted && name !in refs
    ensures Pending(q, pasted[name := at], refs, queue[1..] + NewItems(q.Mentions(at, name), q.globals, at))
  {
    var pasted', queue' := pasted[name := at], queue[1..] + NewItems(q.Mentions(at, name), q.globals, at);
    forall m, from | Read(q, pasted', m, from)
      ensures Shown(q, pasted', refs, m, from) || Item(m, from) in queue'
    {
      if Read(q, pasted, m, from) {
        if Item(m, from) == queue[0] {
        } else if Item(m, from) in queue {
          assert Item(m, from) in queue[1..];
        }
      } else {
        assert m in q.Mentions(at, name) && from == at;
      }
    }
  }

  /** Pasting what the head of the queue resolves to stays inside every unambiguous fence. */
  lemma PasteStaysInside(q: Query, pasted: map<string, File>, refs: map<string, TypeRef>, queue: seq<Item>, at: File,
                         p: map<string, File>, r: map<string, TypeRef>)
    requires queue != [] && Unambiguous(q, p, r) && Inside(q, pasted, refs, queue, p, r)
    requires q.Resolve(queue[0].name, queue[0].from) == Declaration(at)
    ensures var name := queue[0].name;
            Inside(q, pasted[name := at], refs, queue[1..] + NewItems(q.Mentions(at, name), q.globals, at), p, r)
  {
    var name := queue[0].name;
    assert Shown(q, p, r, name, queue[0].from);
    forall item | item in queue[1..] + NewItems(q.Mentions(at, name), q.globals, at)
      ensures Shown(q, p, r, item.name, item.from)
    {
      if item in queue[1..] {
        assert item in queue;
      } else {
        assert Read(q, p, item.name, item.from);
      }
    }
  }

  /** Everything collected was resolved from some file. */
  ghost predicate Backed(q: Query, pasted: map<string, File>, refs: map<string, TypeRef>) {
    && (forall name :: name in pasted ==> exists f :: q.Resolve(name, f) == Declaration(pasted[name]))
    && (forall name :: name in refs ==> exists f :: q.Resolve(name, f) == Reference(refs[name]))
  }

  /** What a violation says is so. */
  ghost predicate Real(q: Query, v: Violation) {
    match v
    case Unresolvable(name, at) => q.Resolve(name, at).Nothing?
    case ImportedConfigType(name) => name == q.root && exists f :: q.Resolve(name, f).Reference?
    case PastedThenImported(name) => (exists f :: q.Resolve(name, f).Declaration?) && exists f :: q.Resolve(name, f).Reference?
    case ImportedThenPasted(name) => (exists f :: q.Resolve(name, f).Declaration?) && exists f :: q.Resolve(name, f).Reference?
    case ImportedTwice(name) =>
      exists f, g :: q.Resolve(name, f).Reference? && q.Resolve(name, g).Reference? && q.Resolve(name, f) != q.Resolve(name, g)
    case DeclaredTwice(name) =>
      exists f, g :: q.Resolve(name, f).Declaration? && q.Resolve(name, g).Declaration? && q.Resolve(name, f) != q.Resolve(name, g)
    case _ => exists name, f :: q.Resolve(name, f) == Nothing([v])
  }

  ghost predicate AllReal(q: Query, violations: seq<Violation>) {
    forall i :: 0 <= i < |violations| ==> Real(q, violations[i])
  }

  /** The loop reports this violation of the item. */
  ghost predicate Clashes(q: Query, pasted: map<string, File>, refs: map<string, TypeRef>, item: Item, v: Violation) {
    var name, resolved := item.name, q.Resolve(item.name, item.from);
    match v
    case ImportedConfigType(n) => n == name && name == q.root && resolved.Reference?
    case PastedThenImported(n) => n == name && name in pasted && resolved.Reference?
    case ImportedThenPasted(n) => n == name && name in refs && resolved.Declaration?
    case ImportedTwice(n) => n == name && name in refs && resolved.Reference? && resolved.ref != refs[name]
    case DeclaredTwice(n) => n == name && name in pasted && resolved.Declaration? && resolved.at != pasted[name]
    case _ => false
  }

  lemma ClashIsReal(q: Query, pasted: map<string, File>, refs: map<string, TypeRef>, item: Item, v: Violation, violations: seq<Violation>)
    requires Backed(q, pasted, refs) && AllReal(q, violations) && Clashes(q, pasted, refs, item, v)
    ensures AllReal(q, violations + [v])
  {
    if v.DeclaredTwice? || v.PastedThenImported? {
      var f :| q.Resolve(item.name, f) == Declaration(pasted[item.name]);
    } else if v.ImportedTwice? || v.ImportedThenPasted? {
      var f :| q.Resolve(item.name, f) == Reference(refs[item.name]);
    }
    assert Real(q, v);
  }

  lemma NothingIsReal(q: Query, item: Item, reported: seq<Violation>, violations: seq<Violation>)
    requires AllReal(q, violations) && q.Resolve(item.name, item.from) == Nothing(reported)
    ensures AllReal(q, violations + reported + [Unresolvable(item.name, item.from)])
  {
    var files := ResolvedAlong(q.w, item.from, item.name, q.stack);
    if reported != [] { assert reported == [reported[0]]; }
  }

  lemma PasteIsBacked(q: Query, pasted: map<string, File>, refs: map<string, TypeRef>, item: Item, at: File)
    requires Backed(q, pasted, refs) && q.Resolve(item.name, item.from) == Declaration(at)
    ensures Backed(q, pasted[item.name := at], refs)
  {}

  lemma ReferenceIsBacked(q: Query, pasted: map<string, File>, refs: map<string, TypeRef>, item: Item, ref: TypeRef)
    requires Backed(q, pasted, refs) && q.Resolve(item.name, item.from) == Reference(ref)
    ensures Backed(q, pasted, refs[item.name := ref])
  {}

  /** What the loop keeps besides: all that is collected is backed, and all that is reported real. */
  ghost predicate Honest(q: Query, pasted: map<string, File>, refs: map<string, TypeRef>, violations: seq<Violation>) {
    Backed(q, pasted, refs) && AllReal(q, violations)
  }

  /** The head of the queue is an import. */
  method MeetReference(q: Query, pasted: map<string, File>, refs: map<string, TypeRef>, queue: seq<Item>, ref: TypeRef,
                       violations: seq<Violation>)
    returns (refs': map<string, TypeRef>, violations': seq<Violation>)
    requires queue != [] && q.Resolve(queue[0].name, queue[0].from) == Reference(ref)
    requires Good(q, pasted, refs, queue, violations == []) && Honest(q, pasted, refs, violations)
    ensures Good(q, pasted, refs', queue[1..], violations' == []) && Honest(q, pasted, refs', violations')
  {
    var item := queue[0];
    var name := item.name;
    refs', violations' := refs, violations;
    if name != q.root && name !in pasted && (name in refs ==> refs[name] == ref) {
      ReferenceStaysGood(q, pasted, refs, queue, violations == [], ref);
      ReferenceIsBacked(q, pasted, refs, item, ref);
      refs' := refs[name := ref];
    } else {
      ConflictStaysGood(q, pasted, refs, queue, violations == []);
      var clash := if name == q.root then ImportedConfigType(name) else if name in pasted then PastedThenImported(name) else ImportedTwice(name);
      ClashIsReal(q, pasted, refs, item, clash, violations);
      violations' := violations + [clash];
    }
  }

  /** The head of the queue is a declaration that cannot stand beside what is collected. */
  method MeetRival(q: Query, pasted: map<string, File>, refs: map<string, TypeRef>, queue: seq<Item>, violations: seq<Violation>)
    returns (violations': seq<Violation>)
    requires queue != [] && q.Resolve(queue[0].name, queue[0].from).Declaration? && Conflict(q, pasted, refs, queue[0])
    requires Good(q, pasted, refs, queue, violations == []) && Honest(q, pasted, refs, violations)
    ensures violations' != [] && Good(q, pasted, refs, queue[1..], false) && Honest(q, pasted, refs, violations')
  {
    var name := queue[0].name;
    ConflictStaysGood(q, pasted, refs, queue, violations == []);
    var clash := if name in pasted then DeclaredTwice(name) else ImportedThenPasted(name);
    ClashIsReal(q, pasted, refs, queue[0], clash, violations);
    violations' := violations + [clash];
  }

  /** The head of the queue names nothing. */
  method MeetNothing(q: Query, pasted: map<string, File>, refs: map<string, TypeRef>, queue: seq<Item>,
                     reported: seq<Violation>, violations: seq<Violation>)
    returns (violations': seq<Violation>)
    requires queue != [] && q.Resolve(queue[0].name, queue[0].from) == Nothing(reported)
    requires Good(q, pasted, refs, queue, violations == []) && Honest(q, pasted, refs, violations)
    ensures violations' != [] && Good(q, pasted, refs, queue[1..], false) && Honest(q, pasted, refs, violations')
  {
    ConflictStaysGood(q, pasted, refs, queue, violations == []);
    NothingIsReal(q, queue[0], reported, violations);
    violations' := violations + reported + [Unresolvable(queue[0].name, queue[0].from)];
  }

  /** The head of the queue is a declaration to paste: paste it, and queue what it mentions. */
  method MeetNew(q: Query, pasted: map<string, File>, refs: map<string, TypeRef>, queue: seq<Item>, at: File, ghost violations: seq<Violation>)
    returns (pasted': map<string, File>, queue': seq<Item>)
    requires queue != [] && q.Resolve(queue[0].name, queue[0].from) == Declaration(at) && queue[0].name !in pasted && queue[0].name !in refs
    requires Good(q, pasted, refs, queue, violations == []) && Honest(q, pasted, refs, violations)
    ensures pasted' == pasted[queue[0].name := at]
    ensures Good(q, pasted', refs, queue', violations == []) && Honest(q, pasted', refs, violations)
    ensures Names(q) - pasted'.Keys < Names(q) - pasted.Keys
  {
    var item := queue[0];
    PasteStaysGood(q, pasted, refs, queue, violations == [], at);
    PasteIsBacked(q, pasted, refs, item, at);
    assert item.name in Names(q) - pasted.Keys;
    pasted' := pasted[item.name := at];
    queue' := queue[1..] + NewItems(q.Mentions(at, item.name), q.globals, at);
  }

  /** One turn of the loop: the head of the queue. `added` is the file of the declaration it pastes, if it pastes one. */
  method MeetHead(q: Query, pasted: map<string, File>, refs: map<string, TypeRef>, queue: seq<Item>, violations: seq<Violation>)
    returns (crashed: bool, pasted': map<string, File>, refs': map<string, TypeRef>, queue': seq<Item>,
             violations': seq<Violation>, added: Option<File>)
    requires queue != [] && Good(q, pasted, refs, queue, violations == []) && Honest(q, pasted, refs, violations)
    ensures Honest(q, pasted', refs', violations')
    ensures crashed ==> forall p, r :: !Unambiguous(q, p, r)
    ensures !crashed ==> Good(q, pasted', refs', queue', violations' == [])
    ensures match added
            case None => pasted' == pasted && queue' == queue[1..]
            case Some(at) =>
              queue[0].name !in pasted && pasted' == pasted[queue[0].name := at] && Names(q) - pasted'.Keys < Names(q) - pasted.Keys
  {
    var name, from := queue[0].name, queue[0].from;
    crashed, pasted', refs', queue', violations', added := false, pasted, refs, queue[1..], violations, None;
    match q.Resolve(name, from) {
      case Crash =>
        ConflictStaysGood(q, pasted, refs, queue, violations == []);
        crashed := true;
      case Nothing(reported) =>
        violations' := MeetNothing(q, pasted, refs, queue, reported, violations);
      case Reference(ref) =>
        refs', violations' := MeetReference(q, pasted, refs, queue, ref, violations);
      case Declaration(at) =>
        if name in pasted && pasted[name] == at {
          AgainStaysGood(q, pasted, refs, queue, violations == [], at);
        } else if name in pasted || name in refs {
          violations' := MeetRival(q, pasted, refs, queue, violations);
        } else {
          pasted', queue' := MeetNew(q, pasted, refs, queue, at, violations);
          added := Some(at);
        }
    }
  }

  /** Each declaration is pasted once. */
  ghost predicate Recorded(pastes: seq<DeclKey>, pasted: map<string, File>) {
    Distinct(pastes) && forall d: DeclKey :: d in pastes <==> d.1 in pasted && pasted[d.1] == d.0
  }

  lemma RecordedGrows(pastes: seq<DeclKey>, pasted: map<string, File>, name: string, at: File)
    requires Recorded(pastes, pasted) && name !in pasted
    ensures Recorded(pastes + [(at, name)], pasted[name := at])
  {
    assert (at, name) !in pastes;
  }

  lemma BeginsGood(q: Query)
    ensures Good(q, map[], map[], [Item(q.root, q.rootFile)], true) && Honest(q, map[], map[], [])
  {
    var queue := [Item(q.root, q.rootFile)];
    forall p, r | Unambiguous(q, p, r) ensures Inside(q, map[], map[], queue, p, r) {
      assert Read(q, p, q.root, q.rootFile);
    }
  }

  lemma EndsGood(q: Query, pasted: map<string, File>, refs: map<string, TypeRef>, silent: bool)
    requires Good(q, pasted, refs, [], silent)
    ensures silent ==> Unambiguous(q, pasted, refs)
    ensures forall p, r | Unambiguous(q, p, r) :: silent && Within(pasted, p) && Within(refs, r)
  {
    assert Read(q, pasted, q.root, q.rootFile);
  }

  /** The loop of `collectConfigCatalog` that fills `pastes`, `refs` and `pastedDeclByName`. */
  method CollectClosure(q: Query)
    returns (crashed: bool, pastes: seq<DeclKey>, pasted: map<string, File>, refs: map<string, TypeRef>, violations: seq<Violation>)
    // Silence means the fence is unambiguous,
    ensures !crashed && violations == [] ==> Unambiguous(q, pasted, refs)
    // and it is the smallest one: where one exists at all, the loop is silent and stays inside it.
    ensures forall p, r | Unambiguous(q, p, r) :: !crashed && violations == [] && Within(pasted, p) && Within(refs, r)
    // What is reported is so.
    ensures AllReal(q, violations)
    // Each declaration is pasted once, the config type first.
    ensures pastes != [] ==> pastes[0].1 == q.root
    ensures Recorded(pastes, pasted)
  {
    crashed, pastes, pasted, refs, violations := false, [], map[], map[], [];
    var queue := [Item(q.root, q.rootFile)];
    BeginsGood(q);
    while queue != []
      invariant Good(q, pasted, refs, queue, violations == []) && Honest(q, pasted, refs, violations)
      invariant Recorded(pastes, pasted)
      invariant if pastes == [] then forall item :: item in queue ==> item.name == q.root else pastes[0].1 == q.root
      decreases Names(q) - pasted.Keys, |queue|
    {
      var name, added := queue[0].name, None;
      ghost var before := pasted;
      crashed, pasted, refs, queue, violations, added := MeetHead(q, pasted, refs, queue, violations);
      if added.Some? {
        RecordedGrows(pastes, before, name, added.value);
        pastes := pastes + [(added.value, name)];
      }
      if crashed { return; }
    }
    EndsGood(q, pasted, refs, violations == []);
  }
}
