/**
 Manifests pinned to the release version before packing and checked after it, as
 scripts/publish-npm-baseline.ts does (lines 820-872).
 */
module ManifestPins {
  import opened Prelude

  const DEPENDENCY_SECTIONS := ["dependencies", "devDependencies", "optionalDependencies", "peerDependencies"]

  predicate ContainsWorkspaceProtocol(value: Json) {
    match value
    case Text(s) => "workspace:" <= s
    case Array(items) => exists i | 0 <= i < |items| :: ContainsWorkspaceProtocol(items[i])
    case Object(fields) => exists name | name in fields :: ContainsWorkspaceProtocol(fields[name])
    case _ => false
  }

  /** How to get to a part of a value: into an array at an index, or into an object at a name. */
  datatype Hop = At(index: nat) | Of(name: string)

  /** The part of a value that a way leads to. */
  function Part(value: Json, way: seq<Hop>): Option<Json>
    decreases |way|
  {
    if way == [] then Some(value)
    else
      match way[0]
      case At(i) => if value.Array? && i < |value.items| then Part(value.items[i], way[1..]) else None
      case Of(name) => if value.Object? && name in value.fields then Part(value.fields[name], way[1..]) else None
  }

  /** The way leads to a string that begins with the protocol. */
  predicate LeadsToProtocol(value: Json, way: seq<Hop>) {
    match Part(value, way)
    case Some(Text(s)) => |s| >= 10 && s[..10] == "workspace:"
    case _ => false
  }

  lemma {:induction false} ProtocolIsReached(value: Json) returns (way: seq<Hop>)
    requires ContainsWorkspaceProtocol(value)
    ensures LeadsToProtocol(value, way)
  {
    match value
    case Text(s) => way := [];
    case Array(items) =>
      var i: nat :| i < |items| && ContainsWorkspaceProtocol(items[i]);
      way := ProtocolIsReached(items[i]);
      assert ([At(i)] + way)[1..] == way;
      way := [At(i)] + way;
    case Object(fields) =>
      var name :| name in fields && ContainsWorkspaceProtocol(fields[name]);
      way := ProtocolIsReached(fields[name]);
      assert ([Of(name)] + way)[1..] == way;
      way := [Of(name)] + way;
  }

  lemma {:induction false} ReachedIsContained(value: Json, way: seq<Hop>)
    requires LeadsToProtocol(value, way)
    ensures ContainsWorkspaceProtocol(value)
    decreases |way|
  {
    if way != [] {
      match way[0]
      case At(i) => ReachedIsContained(value.items[i], way[1..]);
      case Of(name) => ReachedIsContained(value.fields[name], way[1..]);
    }
  }

  /** The protocol is found exactly when some string anywhere inside the value begins with it. */
  lemma ContainsProtocolExactly(value: Json)
    ensures ContainsWorkspaceProtocol(value) <==> exists way :: LeadsToProtocol(value, way)
  {
    if ContainsWorkspaceProtocol(value) {
      var way := ProtocolIsReached(value);
      assert LeadsToProtocol(value, way);
    }
    forall way | LeadsToProtocol(value, way) ensures ContainsWorkspaceProtocol(value) { ReachedIsContained(value, way); }
  }

  /** One dependency section with every internal range replaced by the release version. */
  function PinAll(entries: map<string, Json>, internalNames: set<string>, version: string): map<string, Json> {
    map name | name in entries :: if name in internalNames then Text(version) else entries[name]
  }

  /** `stageInternalDependencies`, section after section; an error names a section that is not an object. */
  function StageSections(fields: map<string, Json>, sections: seq<string>, internalNames: set<string>, version: string)
    : (r: Result<map<string, Json>, string>)
    ensures r.Ok? ==> r.value.Keys == fields.Keys
    ensures r.Ok? ==> forall name :: name in fields && name !in sections ==> r.value[name] == fields[name]
  {
    if sections == [] then Ok(fields)
    else if sections[0] !in fields then StageSections(fields, sections[1..], internalNames, version)
    else
      match fields[sections[0]]
      case Object(entries) =>
        StageSections(fields[sections[0] := Object(PinAll(entries, internalNames, version))], sections[1..], internalNames, version)
      case _ => Err(sections[0])
  }

  function Stage(fields: map<string, Json>, internalNames: set<string>, version: string): Result<map<string, Json>, string> {
    StageSections(fields, DEPENDENCY_SECTIONS, internalNames, version)
  }

  /** The section, if it is there, is an object whose internal ranges are exactly the release version. */
  ghost predicate SectionPinned(fields: map<string, Json>, section: string, internalNames: set<string>, version: string) {
    section in fields ==>
      && fields[section].Object?
      && var entries := fields[section].fields;
         forall name | name in entries && name in internalNames :: entries[name] == Text(version)
  }

  /** `after` is `before` with the range of every internal dependency replaced by the release version, and nothing else. */
  predicate SectionStaged(before: map<string, Json>, after: map<string, Json>, internalNames: set<string>, version: string) {
    && before.Keys == after.Keys
    && (forall name | name in before && name in internalNames :: after[name] == Text(version))
    && (forall name | name in before && name !in internalNames :: after[name] == before[name])
  }

  /** A field of the manifest that staging is to have treated, or is to have left alone. */
  predicate FieldStaged(before: Json, after: Json, isSection: bool, internalNames: set<string>, version: string) {
    if isSection
    then before.Object? && after.Object? && SectionStaged(before.fields, after.fields, internalNames, version)
    else after == before
  }

  /** Staging one more section leaves the others to be treated as they were. */
  lemma {:induction false} StagedFields(fields: map<string, Json>, sections: seq<string>, internalNames: set<string>, version: string, name: string)
    requires name in fields && forall i, j :: 0 <= i < j < |sections| ==> sections[i] != sections[j]
    ensures var r := StageSections(fields, sections, internalNames, version);
            r.Ok? ==> FieldStaged(fields[name], r.value[name], name in sections, internalNames, version)
  {
    if sections != [] {
      var first, rest := sections[0], sections[1..];
      assert sections == [first] + rest;
      if first !in fields {
        StagedFields(fields, rest, internalNames, version, name);
      } else if fields[first].Object? {
        var staged := fields[first := Object(PinAll(fields[first].fields, internalNames, version))];
        StagedFields(staged, rest, internalNames, version, name);
      }
    }
  }

  /** Some section that is there is not an object. */
  predicate Broken(fields: map<string, Json>, section: string) {
    section in fields && !fields[section].Object?
  }

  lemma {:induction false} StageFails(fields: map<string, Json>, sections: seq<string>, internalNames: set<string>, version: string)
    requires forall i, j :: 0 <= i < j < |sections| ==> sections[i] != sections[j]
    ensures match StageSections(fields, sections, internalNames, version)
            case Ok(_) => forall k :: 0 <= k < |sections| ==> !Broken(fields, sections[k])
            case Err(section) => exists k :: 0 <= k < |sections| && sections[k] == section && Broken(fields, section) &&
                                   forall j :: 0 <= j < k ==> !Broken(fields, sections[j])
  {
    if sections != [] && !Broken(fields, sections[0]) {
      var first, rest := sections[0], sections[1..];
      var staged := if first in fields then fields[first := Object(PinAll(fields[first].fields, internalNames, version))] else fields;
      StageFails(staged, rest, internalNames, version);
      assert forall k :: 0 <= k < |rest| ==> rest[k] == sections[k + 1] && (Broken(staged, rest[k]) <==> Broken(fields, rest[k]));
      var r := StageSections(staged, rest, internalNames, version);
      if r.Err? {
        var k :| 0 <= k < |rest| && rest[k] == r.error && Broken(staged, r.error) && forall j :: 0 <= j < k ==> !Broken(staged, rest[j]);
        forall j | 0 <= j < k + 1 ensures !Broken(fields, sections[j]) {
          if j > 0 { assert sections[j] == rest[j - 1]; }
        }
        assert sections[k + 1] == r.error;
      } else {
        forall k | 0 <= k < |sections| ensures !Broken(fields, sections[k]) {
          if k > 0 { assert sections[k] == rest[k - 1]; }
        }
      }
    }
  }

  /**
   Staging changes the ranges of internal dependencies to the release version and nothing else: every section
   keeps its names and all other ranges, every other field its value. It fails exactly when a section that is
   there is not an object, naming the first.
   */
  lemma StagesExactly(fields: map<string, Json>, internalNames: set<string>, version: string)
    ensures match Stage(fields, internalNames, version)
            case Ok(staged) =>
              && (forall k :: 0 <= k < |DEPENDENCY_SECTIONS| ==> !Broken(fields, DEPENDENCY_SECTIONS[k]))
              && staged.Keys == fields.Keys
              && forall name :: name in fields ==> FieldStaged(fields[name], staged[name], name in DEPENDENCY_SECTIONS, internalNames, version)
            case Err(section) =>
              exists k :: 0 <= k < |DEPENDENCY_SECTIONS| && DEPENDENCY_SECTIONS[k] == section && Broken(fields, section) &&
                forall j :: 0 <= j < k ==> !Broken(fields, DEPENDENCY_SECTIONS[j])
  {
    SectionsDiffer();
    StageFails(fields, DEPENDENCY_SECTIONS, internalNames, version);
    var r := Stage(fields, internalNames, version);
    if r.Ok? {
      forall name | name in fields
        ensures FieldStaged(fields[name], r.value[name], name in DEPENDENCY_SECTIONS, internalNames, version)
      {
        StagedFields(fields, DEPENDENCY_SECTIONS, internalNames, version, name);
      }
    }
  }

  lemma SectionsDiffer()
    ensures forall i, j :: 0 <= i < j < |DEPENDENCY_SECTIONS| ==> DEPENDENCY_SECTIONS[i] != DEPENDENCY_SECTIONS[j]
  {
    var s := DEPENDENCY_SECTIONS;
    assert |s| == 4 && s[0][0] == 'd' && s[1][0] == 'd' && s[2][0] == 'o' && s[3][0] == 'p' && s[0][2] == 'p' && s[1][2] == 'v';
  }

  /** What `validateInternalDependencyPins` accepts. */
  ghost predicate Pinned(fields: map<string, Json>, internalNames: set<string>, version: string) {
    forall section | section in DEPENDENCY_SECTIONS :: SectionPinned(fields, section, internalNames, version)
  }

  /** One section's names, in some order: an internal one must have the release version as its range. */
  method EntriesArePinned(entries: map<string, Json>, internalNames: set<string>, version: string) returns (pinned: bool)
    ensures pinned <==> forall name :: name in entries && name in internalNames ==> entries[name] == Text(version)
  {
    var rest := entries.Keys;
    while rest != {}
      invariant rest <= entries.Keys
      invariant forall name :: name in entries && name !in rest && name in internalNames ==> entries[name] == Text(version)
    {
      var name :| name in rest;
      if name in internalNames && entries[name] != Text(version) { return false; }
      rest := rest - {name};
    }
    pinned := true;
  }

  /** `validateInternalDependencyPins`, section after section. */
  method ValidateInternalDependencyPins(fields: map<string, Json>, internalNames: set<string>, version: string) returns (valid: bool)
    ensures valid <==> Pinned(fields, internalNames, version)
  {
    for k := 0 to |DEPENDENCY_SECTIONS|
      invariant forall i :: 0 <= i < k ==> SectionPinned(fields, DEPENDENCY_SECTIONS[i], internalNames, version)
    {
      var section := DEPENDENCY_SECTIONS[k];
      if section in fields {
        if !fields[section].Object? {
          assert !SectionPinned(fields, section, internalNames, version);
          return false;
        }
        var pinned := EntriesArePinned(fields[section].fields, internalNames, version);
        if !pinned {
          assert !SectionPinned(fields, section, internalNames, version);
          return false;
        }
      }
    }
    valid := true;
  }

  /** Every internal range of a section set to the release version, one after another. */
  method PinEntries(entries: map<string, Json>, internalNames: set<string>, version: string) returns (pinned: map<string, Json>)
    ensures SectionStaged(entries, pinned, internalNames, version)
  {
    pinned := entries;
    var rest := entries.Keys;
    while rest != {}
      invariant rest <= entries.Keys && pinned.Keys == entries.Keys
      invariant forall name :: name in entries ==>
                  pinned[name] == if name !in rest && name in internalNames then Text(version) else entries[name]
    {
      var name :| name in rest;
      if name in internalNames { pinned := pinned[name := Text(version)]; }
      rest := rest - {name};
    }
  }

  /** `stageInternalDependencies`: every section that is there, in turn. */
  method StageInternalDependencies(fields: map<string, Json>, internalNames: set<string>, version: string)
    returns (r: Result<map<string, Json>, string>)
    ensures r == Stage(fields, internalNames, version)
  {
    var staged := fields;
    assert DEPENDENCY_SECTIONS[0..] == DEPENDENCY_SECTIONS;
    for k := 0 to |DEPENDENCY_SECTIONS|
      invariant StageSections(staged, DEPENDENCY_SECTIONS[k..], internalNames, version) == Stage(fields, internalNames, version)
    {
      var section := DEPENDENCY_SECTIONS[k];
      assert DEPENDENCY_SECTIONS[k..][1..] == DEPENDENCY_SECTIONS[k + 1..];
      if section in staged {
        match staged[section]
        case Object(entries) =>
          var pinned := PinEntries(entries, internalNames, version);
          assert pinned == PinAll(entries, internalNames, version);
          staged := staged[section := Object(pinned)];
        case _ => return Err(section);
      }
    }
    r := Ok(staged);
  }

  /** Pinning leaves a pinned section alone. */
  lemma PinnedStays(fields: map<string, Json>, section: string, internalNames: set<string>, version: string)
    requires SectionPinned(fields, section, internalNames, version) && section in fields
    ensures PinAll(fields[section].fields, internalNames, version) == fields[section].fields
    ensures fields[section := Object(PinAll(fields[section].fields, internalNames, version))] == fields
  {}

  /** Staging the sections leaves a pinned section pinned, in the list or not. */
  lemma {:induction false} StagingKeeps(fields: map<string, Json>, sections: seq<string>, section: string, internalNames: set<string>, version: string)
    requires SectionPinned(fields, section, internalNames, version)
    ensures var r := StageSections(fields, sections, internalNames, version);
            r.Ok? ==> SectionPinned(r.value, section, internalNames, version)
  {
    if sections != [] {
      var first := sections[0];
      if first in fields && fields[first].Object? {
        var pinned := Object(PinAll(fields[first].fields, internalNames, version));
        StagingKeeps(fields[first := pinned], sections[1..], section, internalNames, version);
      } else if first !in fields {
        StagingKeeps(fields, sections[1..], section, internalNames, version);
      }
    }
  }

  lemma {:induction false} StagedIsPinned(fields: map<string, Json>, sections: seq<string>, section: string, internalNames: set<string>, version: string)
    requires section in sections
    ensures var r := StageSections(fields, sections, internalNames, version);
            r.Ok? ==> SectionPinned(r.value, section, internalNames, version)
  {
    var first := sections[0];
    if first in fields && fields[first].Object? {
      var pinned := Object(PinAll(fields[first].fields, internalNames, version));
      if section == first {
        StagingKeeps(fields[first := pinned], sections[1..], section, internalNames, version);
      } else {
        StagedIsPinned(fields[first := pinned], sections[1..], section, internalNames, version);
      }
    } else if first !in fields {
      if section == first {
        StagingKeeps(fields, sections[1..], section, internalNames, version);
      } else {
        StagedIsPinned(fields, sections[1..], section, internalNames, version);
      }
    }
  }

  lemma {:induction false} PinnedIsStaged(fields: map<string, Json>, sections: seq<string>, internalNames: set<string>, version: string)
    requires forall section | section in sections :: SectionPinned(fields, section, internalNames, version)
    ensures StageSections(fields, sections, internalNames, version) == Ok(fields)
  {
    if sections != [] {
      if sections[0] in fields { PinnedStays(fields, sections[0], internalNames, version); }
      PinnedIsStaged(fields, sections[1..], internalNames, version);
    }
  }

  /** The check after packing accepts exactly the manifests that staging would leave alone. */
  lemma PinnedExactlyWhenStaged(fields: map<string, Json>, internalNames: set<string>, version: string)
    ensures Pinned(fields, internalNames, version) <==> Stage(fields, internalNames, version) == Ok(fields)
  {
    if Pinned(fields, internalNames, version) {
      PinnedIsStaged(fields, DEPENDENCY_SECTIONS, internalNames, version);
    }
    StagePins(fields, internalNames, version);
  }

  /** Staging makes every manifest it accepts pass the check, and once is enough. */
  lemma StagePins(fields: map<string, Json>, internalNames: set<string>, version: string)
    ensures var r := Stage(fields, internalNames, version);
            r.Ok? ==> Pinned(r.value, internalNames, version) && Stage(r.value, internalNames, version) == r
  {
    var r := Stage(fields, internalNames, version);
    if r.Ok? {
      forall section | section in DEPENDENCY_SECTIONS ensures SectionPinned(r.value, section, internalNames, version) {
        StagedIsPinned(fields, DEPENDENCY_SECTIONS, section, internalNames, version);
      }
      PinnedIsStaged(r.value, DEPENDENCY_SECTIONS, internalNames, version);
    }
  }
}
