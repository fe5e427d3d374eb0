/**
 Publishing a release bundle to an npm registry, as scripts/publish-npm-baseline.ts does
 (lines 610-764): a sequence of remote commands that may be cut off before any of them and run again.
 */
module RegistryProtocol {
  import opened Prelude

  const RELEASE_ENTRY_PACKAGE := "@deepseek-ai/dsh"
  const LATEST := "latest"

  datatype PackedPackage = PackedPackage(name: string, integrity: string)

  datatype Bundle = Bundle(version: string, distTag: string, packages: seq<PackedPackage>)
  {
    /** What `ReleaseBundle` guarantees: one tarball per package name, each with a SHA-512 integrity. */
    ghost predicate Valid() {
      && (forall i, j :: 0 <= i < j < |packages| ==> packages[i].name != packages[j].name)
      && (forall i :: 0 <= i < |packages| ==> IsIntegrity(packages[i].integrity))
    }

    ghost predicate HasEntry() {
      exists i :: 0 <= i < |packages| && packages[i].name == RELEASE_ENTRY_PACKAGE
    }
  }

  predicate IsIntegrity(s: string) {
    "sha512-" <= s
  }

  type VersionKey = (string, string)
  type TagKey = (string, string)

  /** Published integrities by name and version, and versions by name and dist-tag. */
  datatype Registry = Registry(versions: map<VersionKey, string>, tags: map<TagKey, string>)
  {
    predicate Knows(name: string) {
      exists k :: k in versions && k.0 == name
    }
  }

  datatype Failure =
    | Mismatch(name: string)
    | NoIntegrity(name: string)
    | UnknownPackage(name: string)
    | NoSuchVersion(name: string)
    | MissingPackage(name: string)
    | WrongTag(name: string)

  datatype Stop = Killed | Error(failure: Failure)

  /** `left` is the number of commands that still run before the process is killed; `writes` counts the ones that wrote. */
  datatype State = State(reg: Registry, left: nat, writes: nat)

  datatype Ran<+T> = Done(value: T, s: State) | Stopped(why: Stop, s: State)

  /** `remoteIntegrity`: `npm view name@version dist.integrity`. */
  function RemoteIntegrity(b: Bundle, s: State, name: string): Ran<Option<string>> {
    if s.left == 0 then Stopped(Killed, s)
    else
      var s := s.(left := s.left - 1);
      if (name, b.version) !in s.reg.versions then Done(None, s)
      else if !IsIntegrity(s.reg.versions[(name, b.version)]) then Stopped(Error(NoIntegrity(name)), s)
      else Done(Some(s.reg.versions[(name, b.version)]), s)
  }

  /** `remoteDistTag`: `npm dist-tag ls name`, which fails for a name the registry has never seen. */
  function RemoteDistTag(s: State, name: string, tag: string): Ran<Option<string>> {
    if s.left == 0 then Stopped(Killed, s)
    else
      var s := s.(left := s.left - 1);
      if !s.reg.Knows(name) then Stopped(Error(UnknownPackage(name)), s)
      else Done(if (name, tag) in s.reg.tags then Some(s.reg.tags[(name, tag)]) else None, s)
  }

  /** `npm publish --tag`: adds the version with its tag. */
  function NpmPublish(b: Bundle, s: State, pkg: PackedPackage): Ran<()> {
    if s.left == 0 then Stopped(Killed, s)
    else
      Done((), State(
        Registry(s.reg.versions[(pkg.name, b.version) := pkg.integrity], s.reg.tags[(pkg.name, b.distTag) := b.version]),
        s.left - 1, s.writes + 1))
  }

  /** `npm dist-tag add`, which fails for a version that does not exist. */
  function NpmTagAdd(b: Bundle, s: State, name: string, tag: string): Ran<()> {
    if s.left == 0 then Stopped(Killed, s)
    else if (name, b.version) !in s.reg.versions then Stopped(Error(NoSuchVersion(name)), s.(left := s.left - 1))
    else Done((), State(s.reg.(tags := s.reg.tags[(name, tag) := b.version]), s.left - 1, s.writes + 1))
  }

  function EnsureDistTag(b: Bundle, s: State, name: string, tag: string): Ran<()> {
    match RemoteDistTag(s, name, tag)
    case Stopped(why, s) => Stopped(why, s)
    case Done(at, s) => if at == Some(b.version) then Done((), s) else NpmTagAdd(b, s, name, tag)
  }

  /** The body of the publish loop. */
  function PublishOne(b: Bundle, s: State, pkg: PackedPackage): Ran<()> {
    match RemoteIntegrity(b, s, pkg.name)
    case Stopped(why, s) => Stopped(why, s)
    case Done(existing, s) =>
      if existing.Some? && existing.value != pkg.integrity then Stopped(Error(Mismatch(pkg.name)), s)
      else if existing.Some? then EnsureDistTag(b, s, pkg.name, b.distTag)
      else
        match NpmPublish(b, s, pkg)
        case Stopped(why, s) => Stopped(why, s)
        case Done(_, s) => EnsureDistTag(b, s, pkg.name, b.distTag)
  }

  function PublishFrom(b: Bundle, s: State, i: nat): Ran<()>
    decreases |b.packages| - i
  {
    if i >= |b.packages| then Done((), s)
    else
      match PublishOne(b, s, b.packages[i])
      case Stopped(why, s) => Stopped(why, s)
      case Done(_, s) => PublishFrom(b, s, i + 1)
  }

  /** The body of the `verifyRemote` loop. */
  function VerifyOne(b: Bundle, s: State, pkg: PackedPackage): Ran<()> {
    match RemoteIntegrity(b, s, pkg.name)
    case Stopped(why, s) => Stopped(why, s)
    case Done(at, s) =>
      if at.None? then Stopped(Error(MissingPackage(pkg.name)), s)
      else if at.value != pkg.integrity then Stopped(Error(Mismatch(pkg.name)), s)
      else VerifyTag(b, s, pkg.name, b.distTag)
  }

  function VerifyTag(b: Bundle, s: State, name: string, tag: string): Ran<()> {
    match RemoteDistTag(s, name, tag)
    case Stopped(why, s) => Stopped(why, s)
    case Done(at, s) => if at == Some(b.version) then Done((), s) else Stopped(Error(WrongTag(name)), s)
  }

  function VerifyFrom(b: Bundle, s: State, i: nat): Ran<()>
    decreases |b.packages| - i
  {
    if i >= |b.packages| then Done((), s)
    else
      match VerifyOne(b, s, b.packages[i])
      case Stopped(why, s) => Stopped(why, s)
      case Done(_, s) => VerifyFrom(b, s, i + 1)
  }

  function Verify(b: Bundle, s: State): Ran<()> {
    match VerifyFrom(b, s, 0)
    case Stopped(why, s) => Stopped(why, s)
    case Done(_, s) => VerifyTag(b, s, RELEASE_ENTRY_PACKAGE, LATEST)
  }

  /** `publish`, after the registry answered and the identity was shown. */
  function Publish(b: Bundle, s: State): Ran<()> {
    match PublishFrom(b, s, 0)
    case Stopped(why, s) => Stopped(why, s)
    case Done(_, s) =>
      match EnsureDistTag(b, s, RELEASE_ENTRY_PACKAGE, LATEST)
      case Stopped(why, s) => Stopped(why, s)
      case Done(_, s) => Verify(b, s)
  }

  /** The registry after any number of runs, the k-th one killed after `budgets[k]` commands. */
  function Attempts(b: Bundle, reg: Registry, budgets: seq<nat>): Registry
    decreases |budgets|
  {
    if budgets == [] then reg
    else Attempts(b, Publish(b, State(reg, budgets[0], 0)).s.reg, budgets[1..])
  }
}

module PublicationSafety {
  import opened Prelude
  import opened RegistryProtocol

  /** The package is published with the bundle's integrity and carries the bundle's dist-tag. */
  ghost predicate Placed(b: Bundle, reg: Registry, pkg: PackedPackage) {
    && (pkg.name, b.version) in reg.versions && reg.versions[(pkg.name, b.version)] == pkg.integrity
    && (pkg.name, b.distTag) in reg.tags && reg.tags[(pkg.name, b.distTag)] == b.version
  }

  ghost predicate Complete(b: Bundle, reg: Registry) {
    forall i :: 0 <= i < |b.packages| ==> Placed(b, reg, b.packages[i])
  }

  ghost predicate LatestIsBundle(b: Bundle, reg: Registry) {
    (RELEASE_ENTRY_PACKAGE, LATEST) in reg.tags && reg.tags[(RELEASE_ENTRY_PACKAGE, LATEST)] == b.version
  }

  /** Nothing the bundle would publish is already there with other contents. */
  ghost predicate Compatible(b: Bundle, reg: Registry) {
    forall i :: 0 <= i < |b.packages| && (b.packages[i].name, b.version) in reg.versions ==>
      reg.versions[(b.packages[i].name, b.version)] == b.packages[i].integrity
  }

  ghost predicate BundleVersion(b: Bundle, k: VersionKey, integrity: string) {
    exists i :: 0 <= i < |b.packages| && k == (b.packages[i].name, b.version) && integrity == b.packages[i].integrity
  }

  ghost predicate BundleTag(b: Bundle, k: TagKey) {
    k == (RELEASE_ENTRY_PACKAGE, LATEST) || exists i :: 0 <= i < |b.packages| && k == (b.packages[i].name, b.distTag)
  }

  /** `after` is `before` with nothing removed or overwritten but the bundle's own versions added and tags set. */
  ghost predicate Grows(b: Bundle, before: Registry, after: Registry) {
    && (forall k :: k in before.versions ==> k in after.versions && after.versions[k] == before.versions[k])
    && (forall k :: k in after.versions && k !in before.versions ==> BundleVersion(b, k, after.versions[k]))
    && (forall k :: k in before.tags ==> k in after.tags && (after.tags[k] == before.tags[k] || (BundleTag(b, k) && after.tags[k] == b.version)))
    && (forall k :: k in after.tags && k !in before.tags ==> BundleTag(b, k) && after.tags[k] == b.version)
  }

  lemma GrowsTransitively(b: Bundle, r: Registry, s: Registry, t: Registry)
    requires Grows(b, r, s) && Grows(b, s, t)
    ensures Grows(b, r, t)
  {}

  lemma GrowsKeeps(b: Bundle, before: Registry, after: Registry)
    requires b.Valid() && Grows(b, before, after)
    ensures forall i :: 0 <= i < |b.packages| && Placed(b, before, b.packages[i]) ==> Placed(b, after, b.packages[i])
    ensures LatestIsBundle(b, before) ==> LatestIsBundle(b, after)
    ensures Compatible(b, before) <==> Compatible(b, after)
  {
    forall i | 0 <= i < |b.packages| && (b.packages[i].name, b.version) in after.versions && Compatible(b, before)
      ensures after.versions[(b.packages[i].name, b.version)] == b.packages[i].integrity
    {
      var k := (b.packages[i].name, b.version);
      if k !in before.versions { assert BundleVersion(b, k, after.versions[k]); }
    }
  }

  /** What every part of a run does to the registry, however it ends; no write means no change. */
  ghost predicate Steps<T>(b: Bundle, s: State, r: Ran<T>) {
    && Grows(b, s.reg, r.s.reg)
    && r.s.writes >= s.writes && (r.s.writes == s.writes ==> r.s.reg == s.reg)
  }

  /** The one tag a release is found by stays as it was. */
  ghost predicate KeepsLatest(before: Registry, after: Registry) {
    var k := (RELEASE_ENTRY_PACKAGE, LATEST);
    (k in before.tags <==> k in after.tags) && (k in before.tags ==> after.tags[k] == before.tags[k])
  }

  lemma EnsureDistTagSteps(b: Bundle, s: State, name: string, tag: string)
    requires BundleTag(b, (name, tag))
    ensures var r := EnsureDistTag(b, s, name, tag);
            && Steps(b, s, r) && r.s.reg.versions == s.reg.versions
            && (KeepsLatest(s.reg, r.s.reg) || (name == RELEASE_ENTRY_PACKAGE && tag == LATEST && (name, tag) in r.s.reg.tags && r.s.reg.tags[(name, tag)] == b.version))
            && (r.Done? ==> (name, tag) in r.s.reg.tags && r.s.reg.tags[(name, tag)] == b.version)
            && ((name, tag) in s.reg.tags && s.reg.tags[(name, tag)] == b.version ==> r.s.writes == s.writes)
            && (r.Stopped? && r.why == Killed ==> s.left < 2) && r.s.left + 2 >= s.left
            && ((name, b.version) in s.reg.versions ==> r.Stopped? ==> r.why == Killed)
  {}

  /** The entry package gets its `latest` tag in the last step, unless `latest` is the bundle's own dist-tag. */
  ghost predicate LatestLast(b: Bundle) {
    b.distTag != LATEST || (|b.packages| > 0 && b.packages[|b.packages| - 1].name == RELEASE_ENTRY_PACKAGE)
  }

  lemma PublishOneSteps(b: Bundle, s: State, i: nat)
    requires b.Valid() && i < |b.packages|
    ensures var r := PublishOne(b, s, b.packages[i]);
            && Steps(b, s, r)
            && (KeepsLatest(s.reg, r.s.reg) || (b.distTag == LATEST && b.packages[i].name == RELEASE_ENTRY_PACKAGE && Placed(b, r.s.reg, b.packages[i])))
            && (r.Done? ==> Placed(b, r.s.reg, b.packages[i]))
            && (Placed(b, s.reg, b.packages[i]) ==> r.s.writes == s.writes)
            && (r.Stopped? && r.why == Killed ==> s.left < 4) && r.s.left + 4 >= s.left
            && (Compatible(b, s.reg) ==> r.Stopped? ==> r.why == Killed)
  {
    var pkg := b.packages[i];
    assert BundleTag(b, (pkg.name, b.distTag));
    match RemoteIntegrity(b, s, pkg.name)
    case Stopped(_, _) =>
    case Done(existing, s1) =>
      if existing.Some? {
        EnsureDistTagSteps(b, s1, pkg.name, b.distTag);
      } else {
        match NpmPublish(b, s1, pkg)
        case Stopped(_, _) =>
        case Done(_, s2) =>
          assert BundleVersion(b, (pkg.name, b.version), pkg.integrity);
          assert Grows(b, s.reg, s2.reg);
          EnsureDistTagSteps(b, s2, pkg.name, b.distTag);
      }
  }

  /** Package `i` and all after it are in place. */
  ghost predicate PlacedFrom(b: Bundle, reg: Registry, i: nat) {
    forall j :: i <= j < |b.packages| ==> Placed(b, reg, b.packages[j])
  }

  /** What the publish loop does from package `i` on. */
  ghost predicate LoopSteps(b: Bundle, s: State, i: nat, r: Ran<()>) {
    && Steps(b, s, r)
    && (LatestLast(b) ==> KeepsLatest(s.reg, r.s.reg) || PlacedFrom(b, r.s.reg, i))
    && (r.Done? ==> PlacedFrom(b, r.s.reg, i))
    && (Complete(b, s.reg) ==> r.s.writes == s.writes)
  }

  lemma LoopInTurn(b: Bundle, s: State, i: nat, r: Ran<()>)
    requires b.Valid() && i < |b.packages| && PublishOne(b, s, b.packages[i]).Done?
    requires LoopSteps(b, PublishOne(b, s, b.packages[i]).s, i + 1, r)
    ensures LoopSteps(b, s, i, r)
  {
    var one := PublishOne(b, s, b.packages[i]);
    PublishOneSteps(b, s, i);
    GrowsKeeps(b, s.reg, one.s.reg);
    GrowsTransitively(b, s.reg, one.s.reg, r.s.reg);
    GrowsKeeps(b, one.s.reg, r.s.reg);
    if PlacedFrom(b, r.s.reg, i + 1) { PlacedOneMore(b, r.s.reg, i); }
  }

  lemma PlacedOneMore(b: Bundle, reg: Registry, i: nat)
    requires i < |b.packages| && PlacedFrom(b, reg, i + 1) && Placed(b, reg, b.packages[i])
    ensures PlacedFrom(b, reg, i)
  {}

  lemma {:induction false} PublishFromSteps(b: Bundle, s: State, i: nat)
    requires b.Valid() && i <= |b.packages|
    ensures LoopSteps(b, s, i, PublishFrom(b, s, i))
    decreases |b.packages| - i
  {
    if i < |b.packages| {
      PublishOneSteps(b, s, i);
      var one := PublishOne(b, s, b.packages[i]);
      if one.Done? {
        PublishFromSteps(b, one.s, i + 1);
        LoopInTurn(b, s, i, PublishFrom(b, one.s, i + 1));
      }
    }
  }

  /** How far the commands reach, and that only a kill stops a compatible publication. */
  lemma {:induction false} PublishFromReach(b: Bundle, s: State, i: nat)
    requires b.Valid() && i <= |b.packages|
    ensures var r := PublishFrom(b, s, i);
            && (r.Stopped? && r.why == Killed ==> s.left < 4 * (|b.packages| - i))
            && r.s.left + 4 * (|b.packages| - i) >= s.left
            && (Compatible(b, s.reg) ==> r.Stopped? ==> r.why == Killed)
    decreases |b.packages| - i
  {
    if i < |b.packages| {
      PublishOneSteps(b, s, i);
      var one := PublishOne(b, s, b.packages[i]);
      if one.Done? {
        GrowsKeeps(b, s.reg, one.s.reg);
        PublishFromReach(b, one.s, i + 1);
      }
    }
  }

  lemma {:induction false} VerifyFromReads(b: Bundle, s: State, i: nat)
    requires b.Valid() && i <= |b.packages|
    ensures var r := VerifyFrom(b, s, i);
            && r.s.reg == s.reg && r.s.writes == s.writes
            && (r.Done? ==> forall j :: i <= j < |b.packages| ==> Placed(b, s.reg, b.packages[j]))
            && (r.Stopped? && r.why == Killed ==> s.left < 2 * (|b.packages| - i))
            && r.s.left + 2 * (|b.packages| - i) >= s.left
            && (Complete(b, s.reg) ==> r.Stopped? ==> r.why == Killed)
    decreases |b.packages| - i
  {
    if i < |b.packages| {
      var one := VerifyOne(b, s, b.packages[i]);
      if one.Done? { VerifyFromReads(b, one.s, i + 1); }
    }
  }

  /** `verify` writes nothing and, given the commands to finish, passes exactly on a complete release. */
  lemma VerifyDecides(b: Bundle, s: State)
    requires b.Valid()
    ensures var r := Verify(b, s);
            && r.s.reg == s.reg && r.s.writes == s.writes
            && (r.Done? ==> Complete(b, s.reg) && LatestIsBundle(b, s.reg))
            && (r.Stopped? && r.why == Killed ==> s.left < 2 * |b.packages| + 1)
            && (Complete(b, s.reg) && LatestIsBundle(b, s.reg) && b.HasEntry() ==> r.Stopped? ==> r.why == Killed)
  {
    VerifyFromReads(b, s, 0);
    EntryIsThere(b, s.reg);
  }

  lemma EntryIsThere(b: Bundle, reg: Registry)
    ensures b.HasEntry() && Complete(b, reg) ==> (RELEASE_ENTRY_PACKAGE, b.version) in reg.versions
  {
    if b.HasEntry() && Complete(b, reg) {
      var i :| 0 <= i < |b.packages| && b.packages[i].name == RELEASE_ENTRY_PACKAGE;
      assert Placed(b, reg, b.packages[i]);
    }
  }

  /** Commands that are always enough for one whole run. */
  function Enough(b: Bundle): nat {
    6 * |b.packages| + 3
  }

  /** One run, cut off anywhere: what it may change, what it means when it ends, and what can stop it. */
  lemma PublishSteps(b: Bundle, s: State)
    requires b.Valid()
    ensures var r := Publish(b, s);
            && Steps(b, s, r)
            && (LatestLast(b) ==> KeepsLatest(s.reg, r.s.reg) || Complete(b, r.s.reg))
            && (r.Done? ==> Complete(b, r.s.reg) && LatestIsBundle(b, r.s.reg))
            && (Complete(b, s.reg) && LatestIsBundle(b, s.reg) ==> r.s.writes == s.writes)
            && (r.Stopped? && r.why == Killed ==> s.left < Enough(b))
            && (Compatible(b, s.reg) && b.HasEntry() ==> r.Stopped? ==> r.why == Killed)
  {
    PublishFromSteps(b, s, 0);
    PublishFromReach(b, s, 0);
    var first := PublishFrom(b, s, 0);
    if first.Done? {
      EntryIsThere(b, first.s.reg);
      EnsureDistTagSteps(b, first.s, RELEASE_ENTRY_PACKAGE, LATEST);
      var second := EnsureDistTag(b, first.s, RELEASE_ENTRY_PACKAGE, LATEST);
      GrowsTransitively(b, s.reg, first.s.reg, second.s.reg);
      GrowsKeeps(b, first.s.reg, second.s.reg);
      if second.Done? { VerifyDecides(b, second.s); }
    }
  }

  /** Over any number of interrupted runs: published integrities never change, and nothing but the bundle's own keys is touched. */
  lemma {:induction false} AttemptsOnlyAdd(b: Bundle, reg: Registry, budgets: seq<nat>)
    requires b.Valid()
    ensures Grows(b, reg, Attempts(b, reg, budgets))
    decreases |budgets|
  {
    if budgets != [] {
      var s := State(reg, budgets[0], 0);
      var next := Publish(b, s).s.reg;
      PublishSteps(b, s);
      AttemptsOnlyAdd(b, next, budgets[1..]);
      GrowsTransitively(b, reg, next, Attempts(b, next, budgets[1..]));
    }
  }

  /** `latest` names the bundle's version only once every package is there with its integrity and dist-tag. */
  lemma {:induction false} LatestComesLast(b: Bundle, reg: Registry, budgets: seq<nat>)
    requires b.Valid() && LatestLast(b)
    requires LatestIsBundle(b, reg) ==> Complete(b, reg)
    ensures var after := Attempts(b, reg, budgets); LatestIsBundle(b, after) ==> Complete(b, after)
    decreases |budgets|
  {
    if budgets != [] {
      var s := State(reg, budgets[0], 0);
      PublishSteps(b, s);
      GrowsKeeps(b, reg, Publish(b, s).s.reg);
      LatestComesLast(b, Publish(b, s).s.reg, budgets[1..]);
    }
  }

  /** A finished release on top of what was there before. */
  ghost predicate Final(b: Bundle, before: Registry, after: Registry) {
    Grows(b, before, after) && Complete(b, after) && LatestIsBundle(b, after)
  }

  lemma FinalIsUnique(b: Bundle, before: Registry, x: Registry, y: Registry)
    requires b.Valid() && Final(b, before, x) && Final(b, before, y)
    ensures x == y
  {
    FinalWithin(b, before, x, y);
    FinalWithin(b, before, y, x);
    assert x.versions == y.versions && x.tags == y.tags;
  }

  lemma FinalWithin(b: Bundle, before: Registry, x: Registry, y: Registry)
    requires b.Valid() && Final(b, before, x) && Final(b, before, y)
    ensures forall k :: k in x.versions ==> k in y.versions && y.versions[k] == x.versions[k]
    ensures forall k :: k in x.tags ==> k in y.tags && y.tags[k] == x.tags[k]
  {
    forall k | k in x.versions ensures k in y.versions && y.versions[k] == x.versions[k] {
      if k !in before.versions {
        var i :| 0 <= i < |b.packages| && k == (b.packages[i].name, b.version) && x.versions[k] == b.packages[i].integrity;
        assert Placed(b, y, b.packages[i]);
      }
    }
    forall k | k in x.tags ensures k in y.tags && y.tags[k] == x.tags[k] {
      if BundleTag(b, k) {
        TagIsSet(b, x, k);
        TagIsSet(b, y, k);
      }
    }
  }

  lemma TagIsSet(b: Bundle, reg: Registry, k: TagKey)
    requires BundleTag(b, k) && Complete(b, reg) && LatestIsBundle(b, reg)
    ensures k in reg.tags && reg.tags[k] == b.version
  {
    if k != (RELEASE_ENTRY_PACKAGE, LATEST) {
      var i :| 0 <= i < |b.packages| && k == (b.packages[i].name, b.distTag);
      assert Placed(b, reg, b.packages[i]);
    }
  }

  /**
   After any interrupted runs, a run given the time to finish succeeds exactly when nothing
   incompatible was there at the start; otherwise it stops with an error, never by running out.
   */
  lemma RerunDecides(b: Bundle, reg: Registry, budgets: seq<nat>, left: nat)
    requires b.Valid() && b.HasEntry() && left >= Enough(b)
    ensures var r := Publish(b, State(Attempts(b, reg, budgets), left, 0));
            && (r.Done? <==> Compatible(b, reg))
            && (r.Done? ==> Final(b, reg, r.s.reg))
            && (r.Stopped? ==> r.why.Error?)
  {
    var mid := Attempts(b, reg, budgets);
    var s := State(mid, left, 0);
    AttemptsOnlyAdd(b, reg, budgets);
    GrowsKeeps(b, reg, mid);
    PublishSteps(b, s);
    var r := Publish(b, s);
    GrowsKeeps(b, mid, r.s.reg);
    GrowsTransitively(b, reg, mid, r.s.reg);
    if r.Done? { CompleteIsCompatible(b, r.s.reg); }
  }

  lemma CompleteIsCompatible(b: Bundle, reg: Registry)
    requires Complete(b, reg)
    ensures Compatible(b, reg)
  {
    forall i | 0 <= i < |b.packages| ensures reg.versions[(b.packages[i].name, b.version)] == b.packages[i].integrity {
      assert Placed(b, reg, b.packages[i]);
    }
  }

  /** However the runs before were cut off, a run that finishes leaves the registry in the same state. */
  lemma RerunsConverge(b: Bundle, reg: Registry, budgets: seq<nat>, left: nat, budgets': seq<nat>, left': nat)
    requires b.Valid() && b.HasEntry() && Compatible(b, reg) && left >= Enough(b) && left' >= Enough(b)
    ensures Publish(b, State(Attempts(b, reg, budgets), left, 0)).s.reg == Publish(b, State(Attempts(b, reg, budgets'), left', 0)).s.reg
  {
    RerunDecides(b, reg, budgets, left);
    RerunDecides(b, reg, budgets', left');
    FinalIsUnique(b, reg, Publish(b, State(Attempts(b, reg, budgets), left, 0)).s.reg,
                  Publish(b, State(Attempts(b, reg, budgets'), left', 0)).s.reg);
  }

  /** After a run that succeeded, another one writes nothing, and neither it nor `verify` can fail. */
  lemma RerunAfterSuccessIsQuiet(b: Bundle, s: State, left: nat)
    requires b.Valid() && b.HasEntry() && Publish(b, s).Done?
    ensures var done := Publish(b, s).s.reg;
            var again, check := Publish(b, State(done, left, 0)), Verify(b, State(done, left, 0));
            && again.s.writes == 0 && again.s.reg == done
            && (again.Stopped? ==> again.why == Killed && left < Enough(b))
            && (check.Stopped? ==> check.why == Killed && left < Enough(b))
  {
    PublishSteps(b, s);
    var done := Publish(b, s).s.reg;
    CompleteIsCompatible(b, done);
    PublishSteps(b, State(done, left, 0));
    VerifyDecides(b, State(done, left, 0));
  }

  /** The bundle's publication is never visible too early, whatever was there and wherever the runs were cut off. */
  ghost predicate NeverEarly(b: Bundle) {
    forall reg: Registry, budgets: seq<nat> :: (LatestIsBundle(b, reg) ==> Complete(b, reg)) ==>
      LatestIsBundle(b, Attempts(b, reg, budgets)) ==> Complete(b, Attempts(b, reg, budgets))
  }

  /** That holds exactly when the bundle's own dist-tag is not `latest`, or the entry package comes last in it. */
  lemma NeverEarlyExactly(b: Bundle)
    requires b.Valid() && b.HasEntry()
    ensures NeverEarly(b) <==> LatestLast(b)
  {
    if LatestLast(b) {
      forall reg: Registry, budgets: seq<nat> | LatestIsBundle(b, reg) ==> Complete(b, reg)
        ensures LatestIsBundle(b, Attempts(b, reg, budgets)) ==> Complete(b, Attempts(b, reg, budgets))
      {
        LatestComesLast(b, reg, budgets);
      }
    } else {
      var m :| 0 <= m < |b.packages| && b.packages[m].name == RELEASE_ENTRY_PACKAGE;
      var empty := Registry(map[], map[]);
      var s := State(empty, 3 * m + 2, 0);
      CutAfterPublishing(b, s, 0, m);
      FirstCut(b, s, empty);
      assert Attempts(b, empty, [3 * m + 2]) == Publish(b, s).s.reg;
      var after := Publish(b, s).s.reg;
      assert LatestIsBundle(b, after);
      assert !Placed(b, after, b.packages[m + 1]);
      assert !LatestIsBundle(b, empty);
    }
  }

  lemma FirstCut(b: Bundle, s: State, reg: Registry)
    requires s == State(reg, s.left, 0)
    ensures Attempts(b, reg, [s.left]) == Publish(b, s).s.reg
  {
    assert [s.left][1..] == [];
  }

  /** A first publication cut off right after it published package `m`: three commands for each package before it, two for `m`. */
  lemma {:induction false} CutAfterPublishing(b: Bundle, s: State, i: nat, m: nat)
    requires b.Valid() && i <= m < |b.packages| && s.left == 3 * (m - i) + 2
    requires forall j :: i <= j < |b.packages| ==> (b.packages[j].name, b.version) !in s.reg.versions
    ensures var r := PublishFrom(b, s, i);
            && r == Stopped(Killed, r.s)
            && (b.packages[m].name, b.distTag) in r.s.reg.tags && r.s.reg.tags[(b.packages[m].name, b.distTag)] == b.version
            && forall j :: m < j < |b.packages| ==> (b.packages[j].name, b.version) !in r.s.reg.versions
    decreases m - i
  {
    var pkg := b.packages[i];
    var published := Registry(s.reg.versions[(pkg.name, b.version) := pkg.integrity], s.reg.tags[(pkg.name, b.distTag) := b.version]);
    assert RemoteIntegrity(b, s, pkg.name) == Done(None, s.(left := s.left - 1));
    assert NpmPublish(b, s.(left := s.left - 1), pkg) == Done((), State(published, s.left - 2, s.writes + 1));
    if i < m {
      var s' := State(published, s.left - 3, s.writes + 1);
      assert (pkg.name, b.version) in published.versions;
      assert PublishOne(b, s, pkg) == Done((), s');
      CutAfterPublishing(b, s', i + 1, m);
    }
  }

  lemma PlacedCosts(b: Bundle, s: State, i: nat)
    requires b.Valid() && i < |b.packages| && Placed(b, s.reg, b.packages[i]) && s.left >= 2
    ensures PublishOne(b, s, b.packages[i]) == Done((), s.(left := s.left - 2))
    ensures VerifyOne(b, s, b.packages[i]) == Done((), s.(left := s.left - 2))
  {
    var pkg, asked := b.packages[i], s.(left := s.left - 1);
    assert RemoteIntegrity(b, s, pkg.name) == Done(Some(pkg.integrity), asked);
    TagCosts(b, asked, pkg.name, b.distTag);
  }

  lemma TagCosts(b: Bundle, s: State, name: string, tag: string)
    requires (name, b.version) in s.reg.versions && (name, tag) in s.reg.tags && s.reg.tags[(name, tag)] == b.version && s.left >= 1
    ensures EnsureDistTag(b, s, name, tag) == Done((), s.(left := s.left - 1))
    ensures VerifyTag(b, s, name, tag) == Done((), s.(left := s.left - 1))
  {
    assert s.reg.Knows(name);
  }

  lemma {:induction false} CompleteCosts(b: Bundle, s: State, i: nat, left: nat)
    requires b.Valid() && Complete(b, s.reg) && i <= |b.packages| && s.left == left + 2 * (|b.packages| - i)
    ensures PublishFrom(b, s, i) == Done((), s.(left := left)) && VerifyFrom(b, s, i) == Done((), s.(left := left))
    decreases |b.packages| - i
  {
    if i < |b.packages| {
      assert Placed(b, s.reg, b.packages[i]);
      PlacedCosts(b, s, i);
      CompleteCosts(b, s.(left := s.left - 2), i + 1, left);
    }
  }

  /** On a finished release a run asks for everything twice, once to publish and once to verify it, and does nothing else. */
  lemma QuietRunCosts(b: Bundle, s: State, left: nat)
    requires b.Valid() && b.HasEntry() && Complete(b, s.reg) && LatestIsBundle(b, s.reg)
    ensures s.left == left + 2 * |b.packages| + 1 ==> Verify(b, s) == Done((), s.(left := left))
    ensures s.left == left + 4 * |b.packages| + 2 ==> Publish(b, s) == Done((), s.(left := left))
  {
    EntryIsThere(b, s.reg);
    if s.left == left + 2 * |b.packages| + 1 {
      VerifyCosts(b, s, left);
    }
    if s.left == left + 4 * |b.packages| + 2 {
      var entry := left + 2 * |b.packages| + 1;
      CompleteCosts(b, s, 0, entry + 1);
      TagCosts(b, s.(left := entry + 1), RELEASE_ENTRY_PACKAGE, LATEST);
      VerifyCosts(b, s.(left := entry), left);
    }
  }

  lemma VerifyCosts(b: Bundle, s: State, left: nat)
    requires b.Valid() && b.HasEntry() && Complete(b, s.reg) && LatestIsBundle(b, s.reg) && s.left == left + 2 * |b.packages| + 1
    ensures Verify(b, s) == Done((), s.(left := left))
  {
    EntryIsThere(b, s.reg);
    CompleteCosts(b, s, 0, left + 1);
    TagCosts(b, s.(left := left + 1), RELEASE_ENTRY_PACKAGE, LATEST);
  }

  /** Package `j` is the first, from `i` on, that the registry has with other contents. */
  ghost predicate FirstIncompatible(b: Bundle, reg: Registry, i: nat, j: nat) {
    && i <= j < |b.packages|
    && (b.packages[j].name, b.version) in reg.versions && reg.versions[(b.packages[j].name, b.version)] != b.packages[j].integrity
    && forall k :: i <= k < j && (b.packages[k].name, b.version) in reg.versions ==>
         reg.versions[(b.packages[k].name, b.version)] == b.packages[k].integrity
  }

  lemma CompatibleOneSteps(b: Bundle, s: State, i: nat)
    requires b.Valid() && i < |b.packages|
    requires (b.packages[i].name, b.version) in s.reg.versions ==> s.reg.versions[(b.packages[i].name, b.version)] == b.packages[i].integrity
    ensures PublishOne(b, s, b.packages[i]).Stopped? ==> PublishOne(b, s, b.packages[i]).why == Killed
  {}

  /** An error names the first package the registry has with other contents, and every package before it is in place. */
  lemma {:induction false} PublishBlames(b: Bundle, s: State, i: nat)
    requires b.Valid() && i <= |b.packages|
    ensures var r := PublishFrom(b, s, i);
            r.Stopped? && r.why.Error? ==>
              exists j: nat :: FirstIncompatible(b, s.reg, i, j)
                && r.why.failure == (if IsIntegrity(s.reg.versions[(b.packages[j].name, b.version)])
                                     then Mismatch(b.packages[j].name) else NoIntegrity(b.packages[j].name))
                && forall k :: i <= k < j ==> Placed(b, r.s.reg, b.packages[k])
    decreases |b.packages| - i
  {
    if i < |b.packages| {
      var one := PublishOne(b, s, b.packages[i]);
      PublishOneSteps(b, s, i);
      if one.Done? {
        PublishBlames(b, one.s, i + 1);
        BlameCarriesOver(b, s, i);
      } else if one.why.Error? {
        if !FirstIncompatible(b, s.reg, i, i) { CompatibleOneSteps(b, s, i); }
      }
    }
  }

  lemma BlameCarriesBack(b: Bundle, before: Registry, after: Registry, i: nat, j: nat)
    requires b.Valid() && Grows(b, before, after) && i < |b.packages| && Placed(b, after, b.packages[i])
    requires FirstIncompatible(b, after, i + 1, j)
    ensures FirstIncompatible(b, before, i, j)
    ensures before.versions[(b.packages[j].name, b.version)] == after.versions[(b.packages[j].name, b.version)]
  {}

  lemma BlameCarriesOver(b: Bundle, s: State, i: nat)
    requires b.Valid() && i < |b.packages| && PublishOne(b, s, b.packages[i]).Done?
    ensures var mid := PublishOne(b, s, b.packages[i]).s;
            && (forall j: nat :: FirstIncompatible(b, mid.reg, i + 1, j) ==>
                  && FirstIncompatible(b, s.reg, i, j)
                  && s.reg.versions[(b.packages[j].name, b.version)] == mid.reg.versions[(b.packages[j].name, b.version)])
            && Placed(b, PublishFrom(b, mid, i + 1).s.reg, b.packages[i])
  {
    var mid := PublishOne(b, s, b.packages[i]).s;
    PublishOneSteps(b, s, i);
    forall j: nat | FirstIncompatible(b, mid.reg, i + 1, j)
      ensures FirstIncompatible(b, s.reg, i, j)
      ensures s.reg.versions[(b.packages[j].name, b.version)] == mid.reg.versions[(b.packages[j].name, b.version)]
    {
      BlameCarriesBack(b, s.reg, mid.reg, i, j);
    }
    PublishFromSteps(b, mid, i + 1);
    GrowsKeeps(b, mid.reg, PublishFrom(b, mid, i + 1).s.reg);
  }
}
