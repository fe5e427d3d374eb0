/**
 The append-only manifest of scripts/archived-agent-notes.ts (lines 57-68 and 172-190): hashes of
 archived artifacts, extended run after run and checked against every manifest sealed before.
 */
module ArchiveManifest {

  type Path = string
  type Files = map<string, string>

  datatype Problem =
    | EntryMissing(path: Path)
    | HashChanged(path: Path)
    | ArtifactMissing(path: Path)
    | ContentChanged(path: Path)

  /** The keys of a record, in the order its entries are visited. */
  ghost predicate Lists(order: seq<Path>, keys: set<Path>) {
    && (forall p :: p in order <==> p in keys)
    && (forall i, j :: 0 <= i < j < |order| ==> order[i] != order[j])
  }

  /** Every sealed entry is still there with its hash. */
  ghost predicate Extends(baseline: Files, current: Files) {
    forall p :: p in baseline ==> p in current && current[p] == baseline[p]
  }

  method ValidateArchiveManifestExtension(baseline: Files, current: Files, order: seq<Path>) returns (errors: seq<Problem>)
    requires Lists(order, baseline.Keys)
    ensures errors == [] <==> Extends(baseline, current)
    ensures forall e :: e in errors <==>
              || (e.EntryMissing? && e.path in baseline && e.path !in current)
              || (e.HashChanged? && e.path in baseline && e.path in current && current[e.path] != baseline[e.path])
  {
    errors := [];
    for k := 0 to |order|
      invariant errors == [] <==> forall p :: p in order[..k] ==> p in current && current[p] == baseline[p]
      invariant forall e :: e in errors <==>
                  || (e.EntryMissing? && e.path in order[..k] && e.path !in current)
                  || (e.HashChanged? && e.path in order[..k] && e.path in current && current[e.path] != baseline[e.path])
    {
      var path := order[k];
      assert order[..k + 1] == order[..k] + [path];
      if path !in current {
        errors := errors + [EntryMissing(path)];
      } else if current[path] != baseline[path] {
        errors := errors + [HashChanged(path)];
      }
    }
    assert order[..|order|] == order;
  }

  /** The manifest after a run: sealed entries as they were, new artifacts with their hashes. */
  function Extended<Content>(existing: Files, artifacts: map<Path, Content>, hash: Content -> string): Files {
    (map p | p in artifacts && p !in existing :: hash(artifacts[p])) + existing
  }

  /** No sealed artifact was lost or changed. */
  ghost predicate Intact<Content>(existing: Files, artifacts: map<Path, Content>, hash: Content -> string) {
    forall p :: p in existing ==> p in artifacts && hash(artifacts[p]) == existing[p]
  }

  /** What is wrong with a sealed artifact: it is missing, or it has changed. */
  ghost predicate Damaged<Content>(e: Problem, existing: Files, artifacts: map<Path, Content>, hash: Content -> string) {
    || (e.ArtifactMissing? && e.path in existing && e.path !in artifacts)
    || (e.ContentChanged? && e.path in existing && e.path in artifacts && hash(artifacts[e.path]) != existing[e.path])
  }

  function New(order: seq<Path>, existing: Files): seq<Path> {
    if order == [] then []
    else New(order[..|order| - 1], existing) + if order[|order| - 1] in existing then [] else [order[|order| - 1]]
  }

  /** Whatever holds between an earlier and a later path of the list. */
  ghost predicate Pairwise(order: seq<Path>, before: (Path, Path) -> bool) {
    forall i, j :: 0 <= i < j < |order| ==> before(order[i], order[j])
  }

  lemma {:induction false} NewAre(order: seq<Path>, existing: Files, p: Path)
    ensures p in New(order, existing) <==> p in order && p !in existing
  {
    if order != [] { NewAre(order[..|order| - 1], existing, p); }
  }

  lemma {:induction false} NewStayInOrder(order: seq<Path>, existing: Files, before: (Path, Path) -> bool)
    requires Pairwise(order, before)
    ensures Pairwise(New(order, existing), before)
  {
    if order != [] {
      var init, last := order[..|order| - 1], order[|order| - 1];
      NewStayInOrder(init, existing, before);
      forall p | p in New(init, existing) ensures before(p, last) {
        NewAre(init, existing, p);
        var i :| 0 <= i < |init| && init[i] == p;
        assert before(order[i], order[|order| - 1]);
      }
    }
  }

  /** The new paths are exactly the listed ones not sealed before, and stand to one another as in the list: in its order, and none twice that is not listed twice. */
  lemma NewExactly(order: seq<Path>, existing: Files)
    ensures forall p :: p in New(order, existing) <==> p in order && p !in existing
    ensures forall before :: Pairwise(order, before) ==> Pairwise(New(order, existing), before)
  {
    forall p ensures p in New(order, existing) <==> p in order && p !in existing { NewAre(order, existing, p); }
    forall before | Pairwise(order, before) ensures Pairwise(New(order, existing), before) { NewStayInOrder(order, existing, before); }
  }

  method ExtendArchiveManifest<Content>(
    existing: Files, artifacts: map<Path, Content>, hash: Content -> string, sealedOrder: seq<Path>, sortedPaths: seq<Path>)
    returns (files: Files, added: seq<Path>, errors: seq<Problem>)
    requires Lists(sealedOrder, existing.Keys) && Lists(sortedPaths, artifacts.Keys)
    ensures files == Extended(existing, artifacts, hash)
    ensures added == New(sortedPaths, existing)
    ensures errors == [] <==> Intact(existing, artifacts, hash)
    ensures forall e :: e in errors <==> Damaged(e, existing, artifacts, hash)
  {
    errors := CheckSealed(existing, artifacts, hash, sealedOrder);
    files, added := AppendNew(existing, artifacts, hash, sortedPaths);
  }

  /** The first loop: every sealed path against its artifact. */
  method CheckSealed<Content>(existing: Files, artifacts: map<Path, Content>, hash: Content -> string, order: seq<Path>)
    returns (errors: seq<Problem>)
    requires Lists(order, existing.Keys)
    ensures errors == [] <==> Intact(existing, artifacts, hash)
    ensures forall e :: e in errors <==> Damaged(e, existing, artifacts, hash)
  {
    errors := [];
    for k := 0 to |order|
      invariant errors == [] <==> forall p :: p in order[..k] ==> p in artifacts && hash(artifacts[p]) == existing[p]
      invariant forall e :: e in errors <==> e.path in order[..k] && Damaged(e, existing, artifacts, hash)
    {
      var path := order[k];
      assert order[..k + 1] == order[..k] + [path];
      if path !in artifacts {
        errors := errors + [ArtifactMissing(path)];
      } else if hash(artifacts[path]) != existing[path] {
        errors := errors + [ContentChanged(path)];
      }
    }
    assert order[..|order|] == order;
  }

  /** The record after some artifact paths have been offered to it, one by one. */
  function Offered<Content>(existing: Files, artifacts: map<Path, Content>, hash: Content -> string, order: seq<Path>): Files
    requires forall p :: p in order ==> p in artifacts
  {
    if order == [] then existing
    else
      var before, path := Offered(existing, artifacts, hash, order[..|order| - 1]), order[|order| - 1];
      if path in before then before else before[path := hash(artifacts[path])]
  }

  lemma {:induction false} OfferedEntries<Content>(existing: Files, artifacts: map<Path, Content>, hash: Content -> string, order: seq<Path>)
    requires forall p :: p in order ==> p in artifacts
    ensures var files := Offered(existing, artifacts, hash, order);
            && (forall p :: p in files <==> p in existing || p in order)
            && (forall p :: p in files ==> files[p] == if p in existing then existing[p] else hash(artifacts[p]))
  {
    if order != [] { OfferedEntries(existing, artifacts, hash, order[..|order| - 1]); }
  }

  lemma OfferedIsExtended<Content>(existing: Files, artifacts: map<Path, Content>, hash: Content -> string, order: seq<Path>)
    requires Lists(order, artifacts.Keys)
    ensures Offered(existing, artifacts, hash, order) == Extended(existing, artifacts, hash)
  {
    OfferedEntries(existing, artifacts, hash, order);
    var a, b := Offered(existing, artifacts, hash, order), Extended(existing, artifacts, hash);
    assert a.Keys == b.Keys;
  }

  /** Offering a path that has not come up changes the record exactly when the path was not sealed before. */
  lemma OfferedNext<Content>(existing: Files, artifacts: map<Path, Content>, hash: Content -> string, order: seq<Path>, k: nat)
    requires Lists(order, artifacts.Keys) && k < |order|
    ensures var before := Offered(existing, artifacts, hash, order[..k]);
            && (order[k] in before <==> order[k] in existing)
            && Offered(existing, artifacts, hash, order[..k + 1]) ==
                 (if order[k] in before then before else before[order[k] := hash(artifacts[order[k]])])
            && New(order[..k + 1], existing) == New(order[..k], existing) + if order[k] in existing then [] else [order[k]]
  {
    assert order[..k + 1][..k] == order[..k];
    OfferedEntries(existing, artifacts, hash, order[..k]);
  }

  /** The second loop: artifacts not yet listed are added in path order. */
  method AppendNew<Content>(existing: Files, artifacts: map<Path, Content>, hash: Content -> string, order: seq<Path>)
    returns (files: Files, added: seq<Path>)
    requires Lists(order, artifacts.Keys)
    ensures files == Extended(existing, artifacts, hash) && added == New(order, existing)
  {
    files, added := existing, [];
    for k := 0 to |order|
      invariant added == New(order[..k], existing)
      invariant files == Offered(existing, artifacts, hash, order[..k])
    {
      var path := order[k];
      OfferedNext(existing, artifacts, hash, order, k);
      if path !in files {
        files := files[path := hash(artifacts[path])];
        added := added + [path];
      }
    }
    assert order[..|order|] == order;
    OfferedIsExtended(existing, artifacts, hash, order);
  }

  /** The manifests after each of a sequence of runs, the first one included. */
  function Manifest<Content>(start: Files, runs: seq<map<Path, Content>>, hash: Content -> string): Files {
    if runs == [] then start
    else Extended(Manifest(start, runs[..|runs| - 1], hash), runs[|runs| - 1], hash)
  }

  /** Whatever the runs archived, every later manifest passes the check against every earlier one. */
  lemma {:induction false} LaterExtendsEarlier<Content>(start: Files, runs: seq<map<Path, Content>>, hash: Content -> string, k: nat)
    requires k <= |runs|
    ensures Extends(Manifest(start, runs[..k], hash), Manifest(start, runs, hash))
    decreases |runs|
  {
    if k == |runs| {
      assert runs[..k] == runs;
    } else {
      LaterExtendsEarlier(start, runs[..|runs| - 1], hash, k);
      assert runs[..|runs| - 1][..k] == runs[..k];
    }
  }

  /** A manifest covers every artifact of every run so far, and holds the hash it had when it was first archived. */
  lemma {:induction false} ManifestCovers<Content>(start: Files, runs: seq<map<Path, Content>>, hash: Content -> string, k: nat, p: Path)
    requires k < |runs| && p in runs[k] && p !in Manifest(start, runs[..k], hash)
    ensures p in Manifest(start, runs, hash) && Manifest(start, runs, hash)[p] == hash(runs[k][p])
  {
    LaterExtendsEarlier(start, runs, hash, k + 1);
    assert runs[..k + 1][..k] == runs[..k];
    var after := Manifest(start, runs[..k + 1], hash);
    assert p in after && after[p] == hash(runs[k][p]);
  }

  /** Running again on unchanged artifacts adds nothing, and finds fault exactly when the first run did. */
  lemma RepeatAddsNothing<Content>(existing: Files, artifacts: map<Path, Content>, hash: Content -> string, sortedPaths: seq<Path>)
    requires Lists(sortedPaths, artifacts.Keys)
    ensures var once := Extended(existing, artifacts, hash);
            && Extended(once, artifacts, hash) == once
            && New(sortedPaths, once) == []
            && (Intact(once, artifacts, hash) <==> Intact(existing, artifacts, hash))
  {
    NothingNew(sortedPaths, Extended(existing, artifacts, hash));
  }

  lemma {:induction false} NothingNew(order: seq<Path>, files: Files)
    requires forall p :: p in order ==> p in files
    ensures New(order, files) == []
  {
    if order != [] { NothingNew(order[..|order| - 1], files); }
  }
}
