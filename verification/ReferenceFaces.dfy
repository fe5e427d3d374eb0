/**
 The face check over Project Reference graphs of scripts/project-reference-faces.ts: a worklist
 from both aggregate configs (lines 30-63), a face inherited along `extends` (lines 88-103), and
 the innermost split project around a target (lines 114-119).
 */
module ReferenceFaces {
  import opened Prelude

  /** A path as its segments from the file-system root. */
  type Path = seq<string>

  datatype Face = Host | Client

  /** A parsed config: the local config it extends, if any, and the configs its references name. */
  datatype Config = Config(parent: Option<Path>, references: seq<Path>)

  /** Existing configs, the directories of split projects in the order they are searched, and the repository root. */
  datatype Workspace = Workspace(configs: map<Path, Config>, splitRoots: seq<Path>, root: Path)

  function Leaf(face: Face): string {
    match face
    case Host => "tsconfig.host.json"
    case Client => "tsconfig.client.json"
  }

  /** The face a config has of its own, by its name or by being one of the base configs. */
  function OwnFace(w: Workspace, config: Path): Option<Face> {
    if config != [] && config[|config| - 1] == Leaf(Host) then Some(Host)
    else if config != [] && config[|config| - 1] == Leaf(Client) then Some(Client)
    else if config == w.root + ["tsconfig.base.json"] then Some(Host)
    else if config == w.root + ["tsconfig.base.client.json"] then Some(Client)
    else None
  }

  /** The next config on an `extends` chain: an existing local one. */
  function Parent(w: Workspace, config: Path): Option<Path> {
    if config in w.configs && w.configs[config].parent.Some? && w.configs[config].parent.value in w.configs
    then w.configs[config].parent else None
  }

  /** `projectFace`, with its `seen` set. */
  function ProjectFace(w: Workspace, config: Path, seen: set<Path>): Option<Face>
    decreases w.configs.Keys + {config} - seen
  {
    if OwnFace(w, config).Some? then OwnFace(w, config)
    else if config in seen then None
    else
      match Parent(w, config)
      case None => None
      case Some(parent) =>
        assert config in w.configs.Keys + {config} - seen;
        assert w.configs.Keys + {parent} - (seen + {config}) <= w.configs.Keys + {config} - seen - {config};
        ProjectFace(w, parent, seen + {config})
  }

  /** The config `n` steps along the `extends` chain. */
  function Ancestor(w: Workspace, config: Path, n: nat): Option<Path>
    decreases n
  {
    if n == 0 then Some(config)
    else match Parent(w, config) case None => None case Some(parent) => Ancestor(w, parent, n - 1)
  }

  ghost predicate Faceless(w: Workspace, config: Path, k: nat) {
    Ancestor(w, config, k).Some? && OwnFace(w, Ancestor(w, config, k).value).None?
  }

  /** The nearest config on the chain with a face of its own is `n` steps away and gives `face`. */
  ghost predicate FaceFrom(w: Workspace, config: Path, n: nat, face: Face) {
    && Ancestor(w, config, n).Some? && OwnFace(w, Ancestor(w, config, n).value) == Some(face)
    && forall k :: 0 <= k < n ==> Faceless(w, config, k)
  }

  lemma {:induction false} AncestorsAdd(w: Workspace, config: Path, a: nat, b: nat)
    requires Ancestor(w, config, a).Some?
    ensures Ancestor(w, config, a + b) == Ancestor(w, Ancestor(w, config, a).value, b)
    decreases a
  {
    if a > 0 { AncestorsAdd(w, Parent(w, config).value, a - 1, b); }
  }

  lemma {:induction false} FaceIsFound(w: Workspace, config: Path, seen: set<Path>)
    ensures var face := ProjectFace(w, config, seen); face.Some? ==> exists n: nat :: FaceFrom(w, config, n, face.value)
    decreases w.configs.Keys + {config} - seen
  {
    var face := ProjectFace(w, config, seen);
    if OwnFace(w, config).Some? {
      assert FaceFrom(w, config, 0, face.value);
    } else if face.Some? {
      var parent := Parent(w, config).value;
      assert config in w.configs.Keys + {config} - seen;
      assert w.configs.Keys + {parent} - (seen + {config}) <= w.configs.Keys + {config} - seen - {config};
      FaceIsFound(w, parent, seen + {config});
      var n: nat :| FaceFrom(w, parent, n, face.value);
      forall k | 0 <= k < n + 1 ensures Faceless(w, config, k) {
        if k > 0 { assert Faceless(w, parent, k - 1); }
      }
      assert FaceFrom(w, config, n + 1, face.value);
    }
  }

  /** A chain that meets itself before its first face would never have one, so the `seen` set cuts nothing off. */
  lemma {:induction false} NearestFaceIsReturned(w: Workspace, config: Path, seen: set<Path>, n: nat, face: Face)
    requires FaceFrom(w, config, n, face)
    requires forall k :: 0 <= k < n ==> Faceless(w, config, k) && Ancestor(w, config, k).value !in seen
    ensures ProjectFace(w, config, seen) == Some(face)
    decreases n
  {
    if n > 0 {
      assert Faceless(w, config, 0) && Ancestor(w, config, 0) == Some(config);
      var parent := Parent(w, config).value;
      forall k | 0 <= k < n - 1 ensures Faceless(w, parent, k) && Ancestor(w, parent, k).value !in seen + {config} {
        assert Faceless(w, config, k + 1) && Faceless(w, config, n - k - 1);
        if Ancestor(w, config, k + 1) == Some(config) {
          AncestorsAdd(w, config, k + 1, n - k - 1);
        }
      }
      assert FaceFrom(w, parent, n - 1, face);
      NearestFaceIsReturned(w, parent, seen + {config}, n - 1, face);
    }
  }

  /** A config's face is that of the nearest config on its `extends` chain that has one, on cyclic chains too. */
  lemma ProjectFaceExactly(w: Workspace, config: Path, face: Face)
    ensures ProjectFace(w, config, {}) == Some(face) <==> exists n: nat :: FaceFrom(w, config, n, face)
  {
    FaceIsFound(w, config, {});
    if n: nat :| FaceFrom(w, config, n, face) {
      NearestFaceIsReturned(w, config, {}, n, face);
    }
  }

  /** Characters of a path written out with separators. */
  function Length(p: Path): nat {
    if p == [] then 0 else Length(p[..|p| - 1]) + 1 + |p[|p| - 1]|
  }

  /** `containingSplitRoot`: the first root that holds the target. */
  function ContainingSplitRoot(roots: seq<Path>, target: Path): Option<Path> {
    if roots == [] then None
    else if roots[0] <= target then Some(roots[0])
    else ContainingSplitRoot(roots[1..], target)
  }

  lemma {:induction false} PrefixIsShorter(a: Path, b: Path)
    requires a <= b
    ensures Length(a) <= Length(b) && (|a| < |b| ==> Length(a) < Length(b))
    decreases |b|
  {
    if |a| < |b| {
      PrefixIsShorter(a, b[..|b| - 1]);
    } else {
      assert a == b;
    }
  }

  /** Searching the longest roots first finds the innermost split project around a target. */
  lemma {:induction false} InnermostRootIsFound(roots: seq<Path>, target: Path)
    requires forall i, j :: 0 <= i < j < |roots| ==> Length(roots[i]) >= Length(roots[j])
    ensures match ContainingSplitRoot(roots, target)
            case Some(root) => root in roots && root <= target && forall r :: r in roots && r <= target ==> r <= root
            case None => forall r :: r in roots ==> !(r <= target)
  {
    if roots != [] {
      if roots[0] <= target {
        forall r | r in roots && r <= target ensures r <= roots[0] {
          if |r| > |roots[0]| {
            assert roots[0] <= r;
            PrefixIsShorter(roots[0], r);
          }
        }
      } else {
        InnermostRootIsFound(roots[1..], target);
        assert roots == [roots[0]] + roots[1..];
      }
    }
  }

  /** What is wrong with a reference from a config to a target. */
  datatype Verdict = Good | NoFace | WrongLeaf(expected: Path)

  function Judge(w: Workspace, config: Path, target: Path): Verdict {
    match ContainingSplitRoot(w.splitRoots, target)
    case None => Good
    case Some(splitRoot) =>
      match ProjectFace(w, config, {})
      case None => NoFace
      case Some(face) => if target == splitRoot + [Leaf(face)] then Good else WrongLeaf(splitRoot + [Leaf(face)])
  }

  function Base(face: Face): string {
    match face
    case Host => "tsconfig.base.json"
    case Client => "tsconfig.base.client.json"
  }

  /** The names a face goes by: the leaf of any directory, or the base config at the root. */
  ghost predicate Named(w: Workspace, config: Path, face: Face) {
    (exists dir :: config == dir + [Leaf(face)]) || config == w.root + [Base(face)]
  }

  lemma LastSegment(dir: Path, name: string)
    ensures dir + [name] != [] && (dir + [name])[|dir + [name]| - 1] == name
  {}

  lemma NamesDiffer()
    ensures Leaf(Host)[9] == 'h' && Leaf(Client)[9] == 'c'
    ensures Base(Host)[9] == Base(Client)[9] == 'b' && Base(Host)[14] == 'j' && Base(Client)[14] == 'c'
  {}

  /** A config has a face of its own exactly if it goes by one of that face's names; no config goes by both faces'. */
  lemma OwnFaceExactly(w: Workspace, config: Path, face: Face)
    ensures OwnFace(w, config) == Some(face) <==> Named(w, config, face)
  {
    NamesDiffer();
    LastSegment(w.root, Base(Host));
    LastSegment(w.root, Base(Client));
    forall dir, f: Face | config == dir + [Leaf(f)] ensures config[|config| - 1] == Leaf(f) { LastSegment(dir, Leaf(f)); }
    if config != [] { assert config == config[..|config| - 1] + [config[|config| - 1]]; }
  }

  /** The innermost split project around a target. */
  ghost predicate Innermost(w: Workspace, target: Path, root: Path) {
    root in w.splitRoots && root <= target && forall r :: r in w.splitRoots && r <= target ==> r <= root
  }

  ghost predicate HasFace(w: Workspace, config: Path, face: Face) {
    exists n: nat :: FaceFrom(w, config, n, face)
  }

  /**
   A reference is good exactly if it enters no split project, or names the leaf of the referring config's face in the
   innermost one it enters. Otherwise that leaf is expected, or the config has no face to go by.
   */
  lemma JudgesExactly(w: Workspace, config: Path, target: Path)
    requires forall i, j :: 0 <= i < j < |w.splitRoots| ==> Length(w.splitRoots[i]) >= Length(w.splitRoots[j])
    ensures match Judge(w, config, target)
            case Good => forall root :: Innermost(w, target, root) ==> exists face :: HasFace(w, config, face) && target == root + [Leaf(face)]
            case NoFace => (exists root :: Innermost(w, target, root)) && forall face :: !HasFace(w, config, face)
            case WrongLeaf(expected) =>
              && expected != target
              && exists root, face :: Innermost(w, target, root) && HasFace(w, config, face) && expected == root + [Leaf(face)]
  {
    InnermostRootIsFound(w.splitRoots, target);
    forall face ensures HasFace(w, config, face) <==> ProjectFace(w, config, {}) == Some(face) {
      ProjectFaceExactly(w, config, face);
    }
    var found, face := ContainingSplitRoot(w.splitRoots, target), ProjectFace(w, config, {});
    if found.Some? {
      assert Innermost(w, target, found.value);
      forall root | Innermost(w, target, root) ensures root == found.value { assert root <= found.value <= root; }
      if face.Some? { assert HasFace(w, config, face.value); }
    }
  }

  function Aggregates(w: Workspace): seq<Path> {
    [w.root + ["tsconfig.host.json"], w.root + ["tsconfig.client.json"]]
  }

  /** A walk along good references through existing configs, from one of the two aggregates. */
  ghost predicate GoodWalk(w: Workspace, walk: seq<Path>) {
    && walk != [] && walk[0] in Aggregates(w)
    && (forall i :: 0 <= i < |walk| ==> walk[i] in w.configs)
    && forall i :: 0 <= i < |walk| - 1 ==> Follows(w, walk[i], walk[i + 1])
  }

  ghost predicate Follows(w: Workspace, config: Path, target: Path) {
    config in w.configs && target in w.configs[config].references && Judge(w, config, target) == Good
  }

  ghost predicate Reachable(w: Workspace, config: Path) {
    exists walk :: GoodWalk(w, walk) && walk[|walk| - 1] == config
  }

  datatype Violation = Violation(config: Path, target: Path, why: Verdict)

  /** A bad reference of a reachable config. */
  ghost predicate IsViolation(w: Workspace, v: Violation) {
    && Reachable(w, v.config) && v.config in w.configs && v.target in w.configs[v.config].references
    && v.why == Judge(w, v.config, v.target) && v.why != Good
  }

  lemma ReachableStep(w: Workspace, config: Path, target: Path)
    requires Reachable(w, config) && Follows(w, config, target) && target in w.configs
    ensures Reachable(w, target)
  {
    var walk :| GoodWalk(w, walk) && walk[|walk| - 1] == config;
    var longer := walk + [target];
    forall i | 0 <= i < |longer| - 1 ensures Follows(w, longer[i], longer[i + 1]) {
      if i < |walk| - 1 { assert longer[i] == walk[i] && longer[i + 1] == walk[i + 1]; }
    }
    assert GoodWalk(w, longer);
  }

  /** Configs already visited, and references still pending, account for everything reachable. */
  ghost predicate Closed(w: Workspace, visited: set<Path>, pending: seq<Path>) {
    && (forall c :: c in Aggregates(w) && c in w.configs ==> c in visited || c in pending)
    && (forall c, t :: c in visited && Follows(w, c, t) && t in w.configs ==> t in visited || t in pending)
  }

  lemma {:induction false} ClosedReaches(w: Workspace, visited: set<Path>, walk: seq<Path>, k: nat)
    requires Closed(w, visited, []) && GoodWalk(w, walk) && k < |walk|
    ensures walk[k] in visited
    decreases k
  {
    if k > 0 {
      ClosedReaches(w, visited, walk, k - 1);
      assert Follows(w, walk[k - 1], walk[k]);
    }
  }

  /** What the worklist may hold: the aggregates and targets that reachable configs refer to in the right way. */
  ghost predicate Expected(w: Workspace, config: Path) {
    config in w.configs ==> Reachable(w, config)
  }

  /** The state of the traversal: only reachable configs were visited, their bad references reported, their good ones queued. */
  ghost predicate Progress(w: Workspace, visited: set<Path>, pending: seq<Path>, violations: seq<Violation>) {
    && visited <= w.configs.Keys
    && (forall c :: c in visited ==> Reachable(w, c))
    && (forall c :: c in pending ==> Expected(w, c))
    && Closed(w, visited, pending)
    && (forall v :: v in violations <==> v.config in visited && IsViolation(w, v))
  }

  lemma StartsWell(w: Workspace)
    ensures Progress(w, {}, Aggregates(w), [])
  {
    forall c | c in Aggregates(w) && c in w.configs ensures Reachable(w, c) {
      assert GoodWalk(w, [c]) && [c][|[c]| - 1] == c;
    }
  }

  lemma SkipKeeps(w: Workspace, visited: set<Path>, rest: seq<Path>, config: Path, violations: seq<Violation>)
    requires Progress(w, visited, rest + [config], violations) && (config in visited || config !in w.configs)
    ensures Progress(w, visited, rest, violations)
  {
    assert forall c :: c in rest + [config] <==> c in rest || c == config;
  }

  lemma VisitKeeps(w: Workspace, visited: set<Path>, rest: seq<Path>, config: Path, violations: seq<Violation>,
                   found: seq<Violation>, pushed: seq<Path>)
    requires Progress(w, visited, rest + [config], violations) && config in w.configs && config !in visited
    requires forall v :: v in found <==>
               v.config == config && v.target in w.configs[config].references && v.why == Judge(w, config, v.target) && v.why != Good
    requires forall t :: t in pushed <==> Follows(w, config, t)
    ensures Progress(w, visited + {config}, rest + pushed, violations + found)
  {
    assert forall c :: c in rest + [config] <==> c in rest || c == config;
    assert forall c :: c in rest + pushed <==> c in rest || c in pushed;
    assert Reachable(w, config) by { assert Expected(w, config); }
    forall t | t in pushed ensures Expected(w, t) {
      if t in w.configs { ReachableStep(w, config, t); }
    }
    VisitCloses(w, visited, rest, config, pushed);
    assert forall v :: v in violations + found <==> v in violations || v in found;
  }

  lemma VisitCloses(w: Workspace, visited: set<Path>, rest: seq<Path>, config: Path, pushed: seq<Path>)
    requires Closed(w, visited, rest + [config])
    requires forall t :: t in pushed <==> Follows(w, config, t)
    ensures Closed(w, visited + {config}, rest + pushed)
  {
    forall c, t | c in visited + {config} && Follows(w, c, t) && t in w.configs
      ensures t in visited + {config} || t in rest + pushed
    {
      if c in visited { assert t in visited || t in rest + [config]; }
    }
  }

  lemma EndsWell(w: Workspace, visited: set<Path>, violations: seq<Violation>)
    requires Progress(w, visited, [], violations)
    ensures forall v :: v in violations <==> IsViolation(w, v)
  {
    forall v | IsViolation(w, v) ensures v.config in visited {
      var walk :| GoodWalk(w, walk) && walk[|walk| - 1] == v.config;
      ClosedReaches(w, visited, walk, |walk| - 1);
    }
  }

  /** One config's references: bad ones are reported, good ones pushed. */
  method VisitReferences(w: Workspace, config: Path) returns (found: seq<Violation>, pushed: seq<Path>)
    requires config in w.configs
    ensures forall v :: v in found <==>
              v.config == config && v.target in w.configs[config].references && v.why == Judge(w, config, v.target) && v.why != Good
    ensures forall t :: t in pushed <==> Follows(w, config, t)
  {
    found, pushed := [], [];
    var references := w.configs[config].references;
    for k := 0 to |references|
      invariant forall v :: v in found <==>
                  v.config == config && v.target in references[..k] && v.why == Judge(w, config, v.target) && v.why != Good
      invariant forall t :: t in pushed <==> t in references[..k] && Judge(w, config, t) == Good
    {
      var target := references[k];
      assert references[..k + 1] == references[..k] + [target];
      var verdict := Judge(w, config, target);
      if verdict != Good {
        found := found + [Violation(config, target, verdict)];
      } else {
        pushed := pushed + [target];
      }
    }
    assert references[..|references|] == references;
  }

  /** One turn of the traversal: the config last pushed, unless it was visited or does not exist. */
  method VisitLast(w: Workspace, visited: set<Path>, pending: seq<Path>, violations: seq<Violation>)
    returns (visited': set<Path>, pending': seq<Path>, violations': seq<Violation>)
    requires pending != [] && Progress(w, visited, pending, violations)
    ensures Progress(w, visited', pending', violations')
    ensures w.configs.Keys - visited' < w.configs.Keys - visited || (visited' == visited && |pending'| < |pending|)
  {
    var config, rest := pending[|pending| - 1], pending[..|pending| - 1];
    assert pending == rest + [config];
    if config in visited || config !in w.configs {
      SkipKeeps(w, visited, rest, config, violations);
      return visited, rest, violations;
    }
    var found, pushed := VisitReferences(w, config);
    VisitKeeps(w, visited, rest, config, violations, found, pushed);
    assert config in w.configs.Keys - visited;
    visited', pending', violations' := visited + {config}, rest + pushed, violations + found;
  }

  /** The traversal reports exactly the bad references of the configs that good references reach, on cyclic graphs too. */
  method CollectProjectReferenceFaceViolations(w: Workspace) returns (violations: seq<Violation>)
    ensures forall v :: v in violations <==> IsViolation(w, v)
  {
    violations := [];
    var pending := Aggregates(w);
    var visited: set<Path> := {};
    StartsWell(w);
    while pending != []
      invariant Progress(w, visited, pending, violations)
      decreases w.configs.Keys - visited, |pending|
    {
      visited, pending, violations := VisitLast(w, visited, pending, violations);
    }
    EndsWell(w, visited, violations);
  }

  /** The face of an aggregate. */
  function Side(w: Workspace, aggregate: Path): Face {
    if aggregate == w.root + [Leaf(Host)] then Host else Client
  }

  /** A good walk comes to a config with a reference into a split project. */
  ghost predicate Enters(w: Workspace, walk: seq<Path>, target: Path) {
    && GoodWalk(w, walk) && target in w.configs[walk[|walk| - 1]].references
    && ContainingSplitRoot(w.splitRoots, target).Some?
  }

  /** What the check is for: such a reference names the leaf of the aggregate the walk began at. */
  ghost predicate KeepsSides(w: Workspace) {
    forall walk, target :: Enters(w, walk, target) ==>
      target == ContainingSplitRoot(w.splitRoots, target).value + [Leaf(Side(w, walk[0]))]
  }

  /** What it judges by: the config that has the reference is of that aggregate's face. */
  ghost predicate SidesAreFaces(w: Workspace) {
    forall walk, target :: Enters(w, walk, target) ==> ProjectFace(w, walk[|walk| - 1], {}) == Some(Side(w, walk[0]))
  }

  lemma EntersWell(w: Workspace, walk: seq<Path>, target: Path)
    requires Enters(w, walk, target) && forall v :: !IsViolation(w, v)
    ensures var root, face := ContainingSplitRoot(w.splitRoots, target).value, ProjectFace(w, walk[|walk| - 1], {});
            face.Some? && (target == root + [Leaf(Side(w, walk[0]))] <==> face.value == Side(w, walk[0]))
  {
    var config := walk[|walk| - 1];
    assert Reachable(w, config);
    assert !IsViolation(w, Violation(config, target, Judge(w, config, target)));
    var root, face, side := ContainingSplitRoot(w.splitRoots, target).value, ProjectFace(w, config, {}).value, Side(w, walk[0]);
    assert target == root + [Leaf(face)] && target[|root|] == Leaf(face);
    assert (root + [Leaf(side)])[|root|] == Leaf(side);
    assert Leaf(Host)[9] != Leaf(Client)[9];
  }

  /**
   The check goes by each config's own face, not by the aggregate a walk began at. When it is silent, every
   reference into a split project names the leaf of that aggregate exactly if every config with such a
   reference has that aggregate's face.
   */
  lemma SilenceKeepsSidesExactly(w: Workspace)
    requires forall v :: !IsViolation(w, v)
    ensures KeepsSides(w) <==> SidesAreFaces(w)
  {
    forall walk, target | Enters(w, walk, target)
      ensures var root, face := ContainingSplitRoot(w.splitRoots, target).value, ProjectFace(w, walk[|walk| - 1], {});
              face.Some? && (target == root + [Leaf(Side(w, walk[0]))] <==> face.value == Side(w, walk[0]))
    {
      EntersWell(w, walk, target);
    }
  }

  const CLIENT: Path := ["tsconfig.client.json"]
  const NEUTRAL: Path := ["n", "tsconfig.json"]
  const HOST_BASE: Path := ["tsconfig.base.json"]
  const HOST_LEAF: Path := ["p", "tsconfig.host.json"]

  /** The client aggregate, a neutral project that extends the host base, and a split project's host leaf. */
  const CROSSED := Workspace(
    map[CLIENT := Config(None, [NEUTRAL]), NEUTRAL := Config(Some(HOST_BASE), [HOST_LEAF]),
        HOST_BASE := Config(None, []), HOST_LEAF := Config(None, [])],
    [["p"]], [])

  lemma CrossedConfigs()
    ensures Aggregates(CROSSED) == [["tsconfig.host.json"], CLIENT] && ["tsconfig.host.json"] !in CROSSED.configs
    ensures CROSSED.configs[CLIENT].references == [NEUTRAL]
    ensures CROSSED.configs[NEUTRAL] == Config(Some(HOST_BASE), [HOST_LEAF])
    ensures CROSSED.configs[HOST_BASE] == CROSSED.configs[HOST_LEAF] == Config(None, [])
  {
    assert ["tsconfig.host.json"][0][9] == 'h' && CLIENT[0][9] == 'c' && HOST_BASE[0][9] == 'b';
    assert |NEUTRAL| == |HOST_LEAF| == 2 && NEUTRAL[0][0] == 'n' && HOST_LEAF[0][0] == 'p';
    assert CROSSED.root + [Leaf(Host)] == ["tsconfig.host.json"] && CROSSED.root + [Leaf(Client)] == CLIENT;
  }

  lemma CrossedJudgements()
    ensures Judge(CROSSED, CLIENT, NEUTRAL) == Good
    ensures Judge(CROSSED, NEUTRAL, HOST_LEAF) == Good && ContainingSplitRoot([["p"]], HOST_LEAF) == Some(["p"])
  {
    CrossedConfigs();
    assert [["p"]][1..] == [] && NEUTRAL[0][0] == 'n' && ["p"][0][0] == 'p';
    assert ContainingSplitRoot([["p"]], NEUTRAL) == None;
    assert CROSSED.root + ["tsconfig.base.json"] == HOST_BASE;
    assert OwnFace(CROSSED, HOST_BASE) == Some(Host) && OwnFace(CROSSED, NEUTRAL) == None by {
      assert NEUTRAL[1][9] != Leaf(Host)[9];
      assert HOST_BASE[0][9] == 'b';
    }
    assert Parent(CROSSED, NEUTRAL) == Some(HOST_BASE);
    assert ProjectFace(CROSSED, HOST_BASE, {} + {NEUTRAL}) == Some(Host);
    assert HOST_LEAF == ["p"] + [Leaf(Host)] && HOST_LEAF[..1] == ["p"];
  }

  lemma CrossedIsClosed()
    ensures Closed(CROSSED, {CLIENT, NEUTRAL, HOST_LEAF}, [])
  {
    CrossedConfigs();
  }

  lemma CrossedIsSilent(v: Violation)
    ensures !IsViolation(CROSSED, v)
  {
    if IsViolation(CROSSED, v) {
      var walk :| GoodWalk(CROSSED, walk) && walk[|walk| - 1] == v.config;
      CrossedIsClosed();
      ClosedReaches(CROSSED, {CLIENT, NEUTRAL, HOST_LEAF}, walk, |walk| - 1);
      CrossedConfigs();
      CrossedJudgements();
    }
  }

  /** There the check is silent, and a walk from the client aggregate enters the host leaf. */
  lemma SilentAcrossSides()
    ensures (forall v :: !IsViolation(CROSSED, v)) && !KeepsSides(CROSSED)
  {
    forall v ensures !IsViolation(CROSSED, v) { CrossedIsSilent(v); }
    CrossedConfigs();
    CrossedJudgements();
    var walk := [CLIENT, NEUTRAL];
    assert Aggregates(CROSSED)[1] == CLIENT;
    assert Follows(CROSSED, walk[0], walk[1]);
    assert Enters(CROSSED, walk, HOST_LEAF);
    assert CLIENT[0][9] != ["tsconfig.host.json"][0][9] && HOST_LEAF[1][9] != Leaf(Client)[9];
  }
}
