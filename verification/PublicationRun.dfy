/** A publication run of scripts/publish-npm-baseline.ts, command by command (lines 616-764). */
module PublicationRun {
  import opened Prelude
  import opened RegistryProtocol

  /** The script's `RegistryPublication`, with the registry and the time left as the state it acts on. */
  class RegistryPublication {
    const bundle: Bundle
    var remote: State

    constructor (bundle: Bundle, remote: State)
      ensures this.bundle == bundle && this.remote == remote
    {
      this.bundle := bundle;
      this.remote := remote;
    }

    method RemoteIntegrity(name: string) returns (value: Option<string>, stop: Option<Stop>)
      modifies this
      ensures Reports(value, stop, remote, RegistryProtocol.RemoteIntegrity(bundle, old(remote), name))
    {
      value, stop := None, None;
      if remote.left == 0 { return None, Some(Killed); }
      remote := remote.(left := remote.left - 1);
      if (name, bundle.version) in remote.reg.versions {
        value := Some(remote.reg.versions[(name, bundle.version)]);
        if !IsIntegrity(value.value) { return None, Some(Error(NoIntegrity(name))); }
      }
    }

    method RemoteDistTag(name: string, tag: string) returns (value: Option<string>, stop: Option<Stop>)
      modifies this
      ensures Reports(value, stop, remote, RegistryProtocol.RemoteDistTag(old(remote), name, tag))
    {
      value, stop := None, None;
      if remote.left == 0 { return None, Some(Killed); }
      remote := remote.(left := remote.left - 1);
      if !remote.reg.Knows(name) { return None, Some(Error(UnknownPackage(name))); }
      if (name, tag) in remote.reg.tags { value := Some(remote.reg.tags[(name, tag)]); }
    }

    method EnsureDistTag(name: string, tag: string) returns (stop: Option<Stop>)
      modifies this
      ensures Ends(stop, remote, RegistryProtocol.EnsureDistTag(bundle, old(remote), name, tag))
    {
      var at;
      at, stop := RemoteDistTag(name, tag);
      if stop.Some? || at == Some(bundle.version) { return; }
      if remote.left == 0 { return Some(Killed); }
      remote := remote.(left := remote.left - 1);
      if (name, bundle.version) !in remote.reg.versions { return Some(Error(NoSuchVersion(name))); }
      remote := remote.(reg := remote.reg.(tags := remote.reg.tags[(name, tag) := bundle.version]), writes := remote.writes + 1);
    }

    method PublishPackage(pkg: PackedPackage) returns (stop: Option<Stop>)
      modifies this
      ensures Ends(stop, remote, RegistryProtocol.PublishOne(bundle, old(remote), pkg))
    {
      var existing;
      existing, stop := RemoteIntegrity(pkg.name);
      if stop.Some? { return; }
      if existing.None? {
        if remote.left == 0 { return Some(Killed); }
        var reg := Registry(remote.reg.versions[(pkg.name, bundle.version) := pkg.integrity],
                            remote.reg.tags[(pkg.name, bundle.distTag) := bundle.version]);
        remote := State(reg, remote.left - 1, remote.writes + 1);
      } else if existing.value != pkg.integrity {
        return Some(Error(Mismatch(pkg.name)));
      }
      stop := EnsureDistTag(pkg.name, bundle.distTag);
    }

    method VerifyTag(name: string, tag: string) returns (stop: Option<Stop>)
      modifies this
      ensures Ends(stop, remote, RegistryProtocol.VerifyTag(bundle, old(remote), name, tag))
    {
      var at;
      at, stop := RemoteDistTag(name, tag);
      if stop.None? && at != Some(bundle.version) { stop := Some(Error(WrongTag(name))); }
    }

    method VerifyRemote() returns (stop: Option<Stop>)
      modifies this
      ensures Ends(stop, remote, VerifyFrom(bundle, old(remote), 0))
    {
      for i := 0 to |bundle.packages|
        invariant VerifyFrom(bundle, old(remote), 0) == VerifyFrom(bundle, remote, i)
      {
        var pkg := bundle.packages[i];
        var at;
        at, stop := RemoteIntegrity(pkg.name);
        if stop.Some? { return; }
        if at.None? { return Some(Error(MissingPackage(pkg.name))); }
        if at.value != pkg.integrity { return Some(Error(Mismatch(pkg.name))); }
        stop := VerifyTag(pkg.name, bundle.distTag);
        if stop.Some? { return; }
      }
      stop := None;
    }

    method Verify() returns (stop: Option<Stop>)
      modifies this
      ensures Ends(stop, remote, RegistryProtocol.Verify(bundle, old(remote)))
    {
      stop := VerifyRemote();
      if stop.None? { stop := VerifyTag(RELEASE_ENTRY_PACKAGE, LATEST); }
    }

    /** One whole publication run, cut off when the commands run out. */
    method Publish() returns (stop: Option<Stop>)
      modifies this
      ensures Ends(stop, remote, RegistryProtocol.Publish(bundle, old(remote)))
    {
      for i := 0 to |bundle.packages|
        invariant PublishFrom(bundle, old(remote), 0) == PublishFrom(bundle, remote, i)
      {
        stop := PublishPackage(bundle.packages[i]);
        if stop.Some? { return; }
      }
      stop := EnsureDistTag(RELEASE_ENTRY_PACKAGE, LATEST);
      if stop.None? { stop := Verify(); }
    }
  }

  predicate Reports<T(==)>(value: T, stop: Option<Stop>, s: State, r: Ran<T>) {
    s == r.s && stop == (match r case Stopped(why, _) => Some(why) case Done(_, _) => None) && (r.Done? ==> value == r.value)
  }

  predicate Ends(stop: Option<Stop>, s: State, r: Ran<()>) {
    s == r.s && stop == match r case Stopped(why, _) => Some(why) case Done(_, _) => None
  }
}
