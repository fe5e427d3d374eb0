/** Matching packed tarballs to the expected packages, as `ReleaseBundle.create` of scripts/publish-npm-baseline.ts does (lines 304-342). */
module BundleMatching {
  import opened Prelude
  import opened ManifestPins

  /** A packed tarball as inspected; `payloadOk` is the verdict of the payload check on its file list. */
  datatype Artifact = Artifact(name: string, version: string, isPrivate: bool, manifest: map<string, Json>, payloadOk: bool)

  datatype Target = Target(name: string, isHarness: bool)

  datatype Problem =
    | Unexpected(name: string) | BadPayload(name: string) | WrongVersion(version: string) | StillPrivate(name: string)
    | WorkspaceDependency(name: string) | Unpinned(name: string) | MissingTarballs(names: set<string>)

  /**
   What every tarball must satisfy once its name is matched: a harness package's payload is in order, the version is
   the release's, it is not private, no string anywhere in the manifest is a workspace range, and every dependency
   section pins the internal packages.
   */
  ghost predicate Acceptable(a: Artifact, isHarness: bool, version: string, internalNames: set<string>) {
    && (isHarness ==> a.payloadOk)
    && a.version == version && !a.isPrivate
    && (forall way :: !LeadsToProtocol(Object(a.manifest), way))
    && Pinned(a.manifest, internalNames, version)
  }

  function NamesOf(targets: seq<Target>): (r: seq<string>)
    ensures |r| == |targets|
  {
    if targets == [] then [] else [targets[0].name] + NamesOf(targets[1..])
  }

  function ArtifactNames(artifacts: seq<Artifact>): (r: seq<string>)
    ensures |r| == |artifacts|
  {
    if artifacts == [] then [] else [artifacts[0].name] + ArtifactNames(artifacts[1..])
  }

  lemma {:induction false} NameAt(artifacts: seq<Artifact>, k: nat)
    requires k < |artifacts|
    ensures ArtifactNames(artifacts)[k] == artifacts[k].name
  {
    if k > 0 { NameAt(artifacts[1..], k - 1); }
  }

  function InternalNames(targets: seq<Target>): set<string> {
    set n | n in NamesOf(targets)
  }

  /** The names are the expected ones, each once. */
  ghost predicate Permutes(names: seq<string>, expected: seq<string>) {
    Distinct(names) && forall n :: n in names <==> n in expected
  }

  /** `expectedByName.get(name)`: of targets with one name the last counts. */
  function TargetNamed(targets: seq<Target>, name: string): (t: Target)
    requires name in NamesOf(targets)
    ensures t.name == name
    ensures exists k :: 0 <= k < |targets| && targets[k] == t && forall m :: k < m < |targets| ==> targets[m].name != name
  {
    if targets[0].name == name && name !in NamesOf(targets[1..]) then
      NamesCover(targets[1..]);
      targets[0]
    else
      TargetNamed(targets[1..], name)
  }

  lemma {:induction false} NamesCover(targets: seq<Target>)
    ensures forall k :: 0 <= k < |targets| ==> NamesOf(targets)[k] == targets[k].name
  {
    if targets != [] { NamesCover(targets[1..]); }
  }

  /** The artifact carries an expected name and passes that target's checks. */
  ghost predicate Matched(a: Artifact, targets: seq<Target>, version: string) {
    && a.name in NamesOf(targets)
    && Acceptable(a, TargetNamed(targets, a.name).isHarness, version, InternalNames(targets))
  }

  ghost predicate AllMatched(artifacts: seq<Artifact>, targets: seq<Target>, version: string) {
    forall k :: 0 <= k < |artifacts| ==> Matched(artifacts[k], targets, version)
  }

  lemma {:induction false} DistinctCount(s: seq<string>, x: string)
    requires Distinct(s)
    ensures multiset(s)[x] == if x in s then 1 else 0
  {
    if s != [] {
      DistinctCount(s[1..], x);
      assert s == [s[0]] + s[1..];
    }
  }

  /** What is wrong with a tarball, of the names still missing. */
  ghost predicate Explains(p: Problem, a: Artifact, targets: seq<Target>, version: string, missingNames: set<string>) {
    match p
    case Unexpected(name) => name == a.name && name !in missingNames
    case BadPayload(_) => a.name in NamesOf(targets) && TargetNamed(targets, a.name).isHarness && !a.payloadOk
    case WrongVersion(v) => v == a.version && v != version
    case StillPrivate(_) => a.isPrivate
    case WorkspaceDependency(_) => exists way :: LeadsToProtocol(Object(a.manifest), way)
    case Unpinned(_) => !Pinned(a.manifest, InternalNames(targets), version)
    case MissingTarballs(_) => false
  }

  /** One tarball of the matching loop: claim its name, then check it. */
  method CheckTarball(targets: seq<Target>, artifact: Artifact, version: string, missingNames: set<string>)
    returns (problem: Option<Problem>)
    requires forall n :: n in missingNames ==> n in NamesOf(targets)
    ensures problem.None? <==> artifact.name in missingNames && Matched(artifact, targets, version)
    ensures problem.Some? ==> Explains(problem.value, artifact, targets, version, missingNames)
  {
    if artifact.name !in missingNames { return Some(Unexpected(artifact.name)); }
    var expected := TargetNamed(targets, artifact.name);
    if expected.isHarness && !artifact.payloadOk { return Some(BadPayload(artifact.name)); }
    if artifact.version != version { return Some(WrongVersion(artifact.version)); }
    if artifact.isPrivate { return Some(StillPrivate(artifact.name)); }
    ContainsProtocolExactly(Object(artifact.manifest));
    if ContainsWorkspaceProtocol(Object(artifact.manifest)) { return Some(WorkspaceDependency(artifact.name)); }
    var pinned := ValidateInternalDependencyPins(artifact.manifest, InternalNames(targets), version);
    problem := if pinned then None else Some(Unpinned(artifact.name));
  }

  /**
   The matching loop of `ReleaseBundle.create`: it succeeds exactly when the tarballs carry the
   expected names, each once, and every tarball passes its checks.
   */
  method MatchTarballs(targets: seq<Target>, artifacts: seq<Artifact>, version: string) returns (problem: Option<Problem>)
    ensures problem.None? <==>
              && Permutes(ArtifactNames(artifacts), NamesOf(targets))
              && AllMatched(artifacts, targets, version)
    ensures problem.Some? && problem.value.MissingTarballs? ==>
              forall n :: n in problem.value.names <==> n in NamesOf(targets) && n !in ArtifactNames(artifacts)
  {
    var missingNames := InternalNames(targets);
    ghost var names, expected := ArtifactNames(artifacts), NamesOf(targets);
    for k := 0 to |artifacts|
      invariant Claimed(names, expected, missingNames, k)
      invariant AllMatched(artifacts[..k], targets, version)
    {
      NameAt(artifacts, k);
      problem := CheckTarball(targets, artifacts[k], version, missingNames);
      assert artifacts[..k + 1] == artifacts[..k] + [artifacts[k]];
      if problem.Some? {
        if Matched(artifacts[k], targets, version) { CannotClaim(names, expected, missingNames, k); }
        return;
      }
      Claim(names, expected, missingNames, k);
      missingNames := missingNames - {artifacts[k].name};
    }
    assert artifacts[..|artifacts|] == artifacts;
    AllClaimed(names, expected, missingNames);
    problem := if missingNames != {} then Some(MissingTarballs(missingNames)) else None;
  }

  /** After `k` tarballs: their names were expected and new, and the missing ones are the others. */
  ghost predicate Claimed(names: seq<string>, expected: seq<string>, missing: set<string>, k: nat) {
    && k <= |names| && Distinct(names[..k])
    && (forall n :: n in missing <==> n in expected && n !in names[..k])
    && (forall n :: n in names[..k] ==> n in expected)
  }

  lemma Claim(names: seq<string>, expected: seq<string>, missing: set<string>, k: nat)
    requires Claimed(names, expected, missing, k) && k < |names| && names[k] in missing
    ensures Claimed(names, expected, missing - {names[k]}, k + 1)
  {
    assert names[..k + 1] == names[..k] + [names[k]];
  }

  lemma CannotClaim(names: seq<string>, expected: seq<string>, missing: set<string>, k: nat)
    requires Claimed(names, expected, missing, k) && k < |names| && names[k] !in missing
    ensures !Permutes(names, expected)
  {
    if names[k] in expected {
      assert names[k] in names[..k];
      var i :| 0 <= i < k && names[..k][i] == names[k];
      assert names[i] == names[k];
    } else {
      assert names[k] in names;
    }
  }

  lemma AllClaimed(names: seq<string>, expected: seq<string>, missing: set<string>)
    requires Claimed(names, expected, missing, |names|)
    ensures Permutes(names, expected) <==> missing == {}
  {
    assert names[..|names|] == names;
    if n :| n in missing { assert n in expected && n !in names; }
  }

  /** Among distinct expected names, that is what being a permutation means. */
  lemma PermutesIsPermutation(names: seq<string>, expected: seq<string>)
    requires Distinct(expected)
    ensures Permutes(names, expected) <==> multiset(names) == multiset(expected)
  {
    if Permutes(names, expected) {
      forall x ensures multiset(names)[x] == multiset(expected)[x] {
        DistinctCount(names, x);
        DistinctCount(expected, x);
      }
    }
    if multiset(names) == multiset(expected) {
      forall n ensures n in names <==> n in expected {
        assert n in names <==> n in multiset(names);
        assert n in expected <==> n in multiset(expected);
      }
      forall i, j | 0 <= i < j < |names| ensures names[i] != names[j] {
        DistinctCount(expected, names[j]);
        assert names == names[..j] + [names[j]] + names[j + 1..];
        assert names[i] in names[..j];
        assert multiset(names)[names[j]] == multiset(names[..j])[names[j]] + 1 + multiset(names[j + 1..])[names[j]];
      }
    }
  }
}
