# Verified models of the repository's tooling and deck editor

A Dafny 4.11 model of the algorithms behind the repository's scripts and its deck editor, with proofs of
what they promise. `dafny verify dfyconfig.toml` checks all of it.

Each part follows one source file, in that file's own form: what the source computes by expressions and
recursion is a function with lemmas, what it builds up in loops or changes in place is a method or a class
whose contracts tie it to a specification function or to a declarative property, and the promises are
proved about those.

| part | files | source |
|---|---|---|
| three-valued key-path check of config types | TypeSyntax, TypeLookup, TypeMeaning, TypeWays, TypeDecision, TypeTermination, TypePathCheck | `scripts/gen-config-catalog.ts` |
| paste closure and composed schemas of the catalog | PasteClosure, ComposedSchemas | `scripts/gen-config-catalog.ts` |
| event-name flow and call-site indexes | EventFlow, CallSites, EventRelations | `scripts/gen-doc-graphs.ts` |
| layered package order | TopoSort | `scripts/package-graph.ts` |
| release bundle, resumable publication, copyable commands | ManifestPins, BundleMatching, Publication, PublicationRun, ShellQuote | `scripts/publish-npm-baseline.ts` |
| link destinations and page rewriting | LinkDestination, MarkdownForms, DocProjection | `scripts/project-doc-site.ts` |
| archive dates and append-only manifest | CalendarDate, DateOrder, ArchiveManifest | `scripts/archived-agent-notes.ts` |
| artifact digest, build environment and build record | ClientBuild | `scripts/client-build-environment.ts` |
| prose lines outside comments and fences | ProseLines | `scripts/markdown.ts` |
| linting worker pool | WorkerPool | `scripts/publint-all.ts` |
| face check over Project References | ReferenceFaces | `scripts/project-reference-faces.ts` |
| deck editor | DeckDom, DeckRail, DeckRailPass, DeckState, DeckInvariant, DeckEdits, DeckBroadcast, DeckFrame, DeckStage | `rsi-recursive-self-improvement-deck-source/deck-stage.js` |

File reads, child processes, the registry, the DOM, layout and the TypeScript and Markdown parsers enter as
data: declarations and syntax trees, package lists, a registry state with a budget of commands after which
a run is cut off, a child list, midpoints of thumbnails.

## Where the code does not do what it says

The model follows the code. Each of these is proved with the exact condition under which the promise holds,
or with an input for which it fails.

- The key-path check promises never to mis-report `missing` (`scripts/gen-config-catalog.ts:223-226`). After a
  `missing` the path may be present exactly when it runs into a blind spot: a way it may go on that the walk
  does not read. Those are members it does not match (a method, an index signature that answers to the name, a
  name that is quoted, computed or an accessor's, `:335-343`), members and bases of other declarations merged
  with the first one found (`:133-138`), and what the walk mistakes for something else: the key type of `keyof`
  or `unique` (`:380`), a package's own generic or namespace called `Partial` or `Array` (`:390-397`), and an
  inherited member that one it does not match overrides (`:346-359`). Only past such mistaken places can a
  `found` be wrong. A `missing` is plainly false, and a `found` right, exactly
  for paths that declarations in sight lead to in every union branch.
- The same check records each declaration it visits in a set that all branches share, so a second visit with
  equally many steps to go blurs the answer to `unknown` (`C & C`, `:319-326`). Without one the walk is complete: on
  paths where nothing is mistaken, unread or out of sight it says `unknown` exactly when union branches differ.
- The same check overflows the stack on `type A = A['x']` (`:381-387`); it ends for every path that does not run
  into indexed access by a string literal.
- The order of publication keeps `latest` until last, unless the bundle's own dist-tag is `latest` and the
  entry package is not the last of the bundle (`scripts/publish-npm-baseline.ts:630-651`). This is proved of a
  registry that sets only the tags it is told to; nothing is claimed of one that tags the first version of a
  package `latest` by itself.
- The package order depends on the order of the input exactly for packages of one layer that the comparison
  does not tell apart: they come out as listed (`scripts/package-graph.ts:64-66`).
- The destination scan stops at white space that CommonMark lets into a destination, such as a no-break space
  between the letters of `[a](xy)`, skips it at the beginning, takes a backslash before a blank for an escape,
  and takes a block quote's marker before a destination on the next line for the destination, as in `[a](`
  continued by `> x)` (`scripts/project-doc-site.ts:75-79`, `:119-138`). After a balanced label it finds every
  other bare or angle-bracketed destination, and only those.
- Brackets in a code span count as the label's own, so a label is found to end in its right place exactly when
  it is balanced with them (`scripts/project-doc-site.ts:81-97`).
- Archive dates of the years 0 to 99 are rejected, because `Date.UTC` moves them to the 1900s
  (`scripts/archived-agent-notes.ts:76-77`).
- Moving a slide past the end of a short notes array leaves its note on another slide
  (`rsi-recursive-self-improvement-deck-source/deck-stage.js:2457-2461`); with a blank note, or notes that reach
  the new place or not the old one, every slide keeps its note.
- An external change of the slides that joins the slotchange of a move or delete is swallowed with it
  (`:1336-1340`), and so is the next one after a move that throws with no slotchange queued. Without these the
  deck matches the document whenever no slotchange is queued.
- A move whose insertion throws leaves the index changed and nothing applied (`:2450-2456`), for example moving
  the current slide up after such a change has cleared the deck. Screen, rail, notes box and broadcasts follow
  the index after every event exactly as long as the current slide is outside the stretch of slides that a
  throwing move was to shift.
- The face check promises that references match the aggregate the traversal began at
  (`scripts/project-reference-faces.ts:22-24`), but judges each config by its own face. Where it is silent the
  promise holds exactly if every config with a reference into a split project has the face of each aggregate
  that leads to it; a neutral project that extends the host base, referred to from the client aggregate, goes
  unnoticed.

## Model

| member | source | states |
|---|---|---|
| `TypeMeaning.LookupIsHonest` | scripts/gen-config-catalog.ts:309-403 | For every type, path and `seen` set the shared walk may carry: as long as the walk misreads nothing on the path and the path meets no blind spot, whatever else is declared, `found` means it is present in every union branch and `missing` that it is present in none |
| `TypeMeaning.LookupIsHonestUpToBlindSpots` | scripts/gen-config-catalog.ts:317-403 | Over every type without exception: after a `missing` the path may be present if and only if it runs into a blind spot, and a `found` is right unless the walk misreads a place on the way |
| `TypeMeaning.LookupAgrees` | scripts/gen-config-catalog.ts:317-403 | The induction behind that: a `found` path is sure or the walk misreads a place on it, a `missing` one may be present only behind a blind spot |
| `TypeMeaning.MayExactly` | scripts/gen-config-catalog.ts:317-403 | A path may be present, in some branch of every union and however the unseen types turn out, if and only if it leads on by declared members, spelled or merged in whatever way, to its end or to something unseen |
| `TypeMeaning.PlainIsHonest` | scripts/gen-config-catalog.ts:309-403 | Where all members are plainly spelled properties, all operators `readonly`, no declarations merged and no built-in generic's name taken, both answers are right on every path |
| `TypeMeaning.SureExactly` | scripts/gen-config-catalog.ts:317-403 | A path is present in every union branch, however the unseen types turn out, if and only if in each branch some way to it is declared in sight: exactly then a `found` is right, and a `missing` plainly false |
| `TypeWays.WaysExactly` | scripts/gen-config-catalog.ts:317-403 | The ways a path's meaning is defined by are exactly those the types give, form by form and without regard to the walk: to the member of the name, else to index signatures that answer and to bases; to parts, branches, elements, operands and declarations |
| `TypeWays.NamedInExactly` | scripts/gen-config-catalog.ts:332-343 | The member a name stands for is the first plain property of the name, or without one the first member spelled otherwise |
| `TypeDecision.UnknownExactly` | scripts/gen-config-catalog.ts:309-403 | Completeness: as long as the walk comes to no declaration twice with equally many steps to go, on every path on which nothing is misread, unread or out of sight it says `found` exactly when the path is present in every union branch, `missing` exactly when it is present in none, and `unknown` only when branches differ |
| `TypeDecision.LookupDecides` | scripts/gen-config-catalog.ts:317-403 | The induction behind that, on every path: `found` exactly where what the walk reads leads to the path in every branch, `missing` exactly where all it reads ends at members that lack it, with exactly the keys of the visited declarations recorded |
| `TypeDecision.AgreeIsExact` | scripts/gen-config-catalog.ts:373-376 | Of a union's branches: `found` exactly when all have the path, `missing` exactly when there are branches and all lack it |
| `TypeDecision.CombineIsExact` | scripts/gen-config-catalog.ts:346-371 | Of an intersection's parts or an interface's bases: `found` exactly when one has the path, `missing` exactly when all lack it |
| `TypeMeaning.HiddenMemberIsMisreported` | scripts/gen-config-catalog.ts:335-343 | A literal without a plainly spelled property of the name is reported `missing`, wrongly if and only if a member spelled otherwise, a method or an index signature answers to it |
| `TypeMeaning.OperatorIsMisread` | scripts/gen-config-catalog.ts:380 | Whatever its operand and the path, `keyof` or `unique` is answered as the operand would be, and what must or may be present is that of the key type |
| `TypeMeaning.KeyofInputs` | scripts/gen-config-catalog.ts:380 | Inputs: through `keyof { a }` the name `a` is wrongly found, `length` of its strings wrongly missing, any other name rightly so |
| `TypeMeaning.QuotedPropertyInputs` | scripts/gen-config-catalog.ts:335-343 | Inputs: of a quoted property holding a literal, a member the literal has is wrongly missing and one it lacks rightly so |
| `TypeMeaning.MergedIsMisreported` | scripts/gen-config-catalog.ts:133-138 | A member of a later declaration of an interface's name is reported `missing`, since the first declaration found is the only one read |
| `TypeMeaning.ShadowedWrapperInput` | scripts/gen-config-catalog.ts:390-397 | Input: a package's own generic called `Partial` is looked through like the built-in one, and a member it lacks is found |
| `TypeMeaning.SharedSetBlursMissing` | scripts/gen-config-catalog.ts:319-326 | `C & C` lacks the path, but the second visit finds its key in the shared set and the answer is only `unknown` |
| `TypeTermination.LookupTerminates` | scripts/gen-config-catalog.ts:317-327 | Unless the path itself runs into indexed access by a string literal, the walk always answers, on recursive declarations too: one declaration's height of call stack per unseen (declaration, length) pair suffices |
| `TypeTermination.FreshKeyPays` | scripts/gen-config-catalog.ts:322-326 | Recording a fresh key frees exactly the stack the declaration behind it may need |
| `TypeTermination.IndexedAccessOverflows` | scripts/gen-config-catalog.ts:381-387 | `type A = A['x']` lengthens the path for ever: every call stack overflows |
| `KeyPath.ParsePath` | scripts/gen-config-catalog.ts:232-245 | The nested loops yield the steps of the parsed segments |
| `KeyPath.PeelPiece` | scripts/gen-config-catalog.ts:235-240 | The inner loop peels and counts the array hops at the end of a piece |
| `KeyPath.ParseRender` | scripts/gen-config-catalog.ts:231-245 | Parsing undoes rendering on every list of segments a path can denote |
| `KeyPath.RenderParse` | scripts/gen-config-catalog.ts:231-245 | Rendering undoes parsing on every string, so no two key paths parse alike |
| `KeyPath.StepsInjective` | scripts/gen-config-catalog.ts:228-245 | The flat step list determines the segments: no two key paths ask a type the same question |
| `KeyPath.StepsExactly` | scripts/gen-config-catalog.ts:232-245 | Segment by segment the steps are the member and then an element for each array hop |
| `LookupPathMethod.LookupPath` | scripts/gen-config-catalog.ts:317-403 | The recursion over one mutated set answers, and leaves the set, as the walk of the model does |
| `LookupPathMethod.LookupDeclPath` | scripts/gen-config-catalog.ts:322-361 | The same for a declaration, with its guard and, for an interface, its members and heritage |
| `LookupPathMethod.LookupParts` | scripts/gen-config-catalog.ts:367-376 | The parts of a union or intersection are walked left to right on the same set |
| `PasteClosure.CollectClosure` | scripts/gen-config-catalog.ts:663-717 | Silence means every non-global name in every pasted declaration resolves, from that declaration's own file, to the one paste or import under that name; where such a fence exists the loop is silent and builds the smallest one; every violation reported is so; each declaration is pasted once, the config type first; the queue empties |
| `PasteClosure.PasteStaysInside` | scripts/gen-config-catalog.ts:706-714 | Pasting what the head of the queue resolves to stays inside every unambiguous fence |
| `PasteClosure.ResolvesExactly` | scripts/gen-config-catalog.ts:141-172 | A name is resolved by the file it is passed on to, unaliased and with the extension spelled out: to that file's own declaration, else to the package it is imported from, else to nothing, with the reason |
| `ComposedSchemas.FoldFrom` | scripts/gen-config-catalog.ts:731-750 | The fold yields the keys of exactly the packages reachable through compositions, each package once however they loop, and complains about exactly the composed names that are no package |
| `ComposedSchemas.Fold.FoldComposed` | scripts/gen-config-catalog.ts:736-749 | One recursive call on the shared set: what it newly visits is forced by every closed set around its package, is closed into the set, and is listed once in the keys |
| `ComposedSchemas.Fold.Follow` | scripts/gen-config-catalog.ts:740-747 | One composed name: an unknown one is complained about, a known one folded |
| `ComposedSchemas.ReachIsUnique` | scripts/gen-config-catalog.ts:736-749 | The reachable set is determined by the root, so the result does not depend on visiting order |
| `EventRelations.EventRelationCollector.DispatchedEvents` | scripts/gen-doc-graphs.ts:1039-1086 | Copying `seen` per branch, from none, over call sites from indexes chosen on demand and whatever was asked before: exactly the event names at array literals reachable through conditionals, const initialisers and the whole program's call-site arguments |
| `EventRelations.EventRelationCollector.EventNamesFromArgumentList` | scripts/gen-doc-graphs.ts:1040-1072 | With a `seen` set given, exactly the names that flow along paths avoiding it; the recursion terminates |
| `EventRelations.EventRelationCollector.EventSlot` | scripts/gen-doc-graphs.ts:1046-1053 | The names in the slot of an array: those of the first of its first two elements that is plain with a closed set of strings |
| `EventRelations.EventRelationCollector.EventNamesFromDeclarations` | scripts/gen-doc-graphs.ts:1063-1071 | The loop over a symbol's declarations unites the const initialisers and the parameters |
| `EventRelations.EventRelationCollector.EventNamesFromParameter` | scripts/gen-doc-graphs.ts:1075-1086 | A non-exported helper's parameter yields the names flowing into its arguments at every call of the whole program |
| `EventRelations.EventRelationCollector.EventNamesFromCallSite` | scripts/gen-doc-graphs.ts:1081-1084 | One call site contributes the names of its argument, if it has one |
| `EventFlow.FlowsUnfold` | scripts/gen-doc-graphs.ts:1040-1072 | Simple paths suffice: marking a node and asking its sources loses no name that reaches it |
| `EventFlow.LastVisit` | scripts/gen-doc-graphs.ts:1040-1072 | A path may be cut after its last visit to its own start |
| `EventFlow.OwnersAreCovered` | scripts/gen-doc-graphs.ts:1063-1081 | Wherever the flow leads from a covered file, a helper whose parameter is named lies in a covered file too, so its call sites are the whole program's |
| `SyntaxTree.UnwrapExpression` | scripts/gen-doc-graphs.ts:1144-1156 | The loop stops at the expression the chain of wrappers is about |
| `SyntaxTree.IsDirectCallee` | scripts/gen-doc-graphs.ts:1129-1141 | Climbing accepts exactly the identifiers that unwrapping some call's callee reaches |
| `SyntaxTree.ClimbUndoesUnwrap` | scripts/gen-doc-graphs.ts:1129-1156 | Climbing out of the wrappers and unwrapping are inverse walks |
| `EventRelations.EventRelationCollector.CallSitesFor` | scripts/gen-doc-graphs.ts:909-921 | After any earlier queries the answer is the whole program's, or for a proven helper its own file's; under module scoping the two are equal for every helper in a covered file |
| `EventRelations.EventRelationCollector.ProvenLocalCallee` | scripts/gen-doc-graphs.ts:932-965 | Cached or fresh, the proof says whether the helper is module-local and every same-file reference to it is a direct callee |
| `EventRelations.EventRelationCollector.BuildCallSiteIndex` | scripts/gen-doc-graphs.ts:884-899 | The index maps each declaration to its calls in the files, in order |
| `EventRelations.EventRelationCollector.IndexCalls` | scripts/gen-doc-graphs.ts:886-896 | The visit appends each call to its declaration's list |
| `CallSites.FastPathAgrees` | scripts/gen-doc-graphs.ts:901-921 | One file's index answers like the whole program's if and only if no other covered file calls the helper and its own file is covered or holds no call |
| `CallSites.ProvenSuffices` | scripts/gen-doc-graphs.ts:901-921 | For a proven helper in a covered file, module scoping gives that condition |
| `TopoSort.TopoSort` | scripts/package-graph.ts:59-75 | A result is a permutation with dependencies first, in layers by longest dependency depth, sorted within, ties as listed; it throws exactly when no dependency order exists, that is, for a cycle or a dependency outside the set |
| `TopoSort.PlaceRound` | scripts/package-graph.ts:68-72 | One round appends the ready packages, marks them placed and removes them |
| `TopoSort.RoundKeeps` | scripts/package-graph.ts:63-73 | The packages a round places are exactly those whose longest chain has the round's length |
| `TopoSort.RoundIsStable` | scripts/package-graph.ts:64-73 | What waits stays in the order listed, and packages that tie are placed in one round in that order |
| `TopoSort.NothingReadyIsStuck` | scripts/package-graph.ts:67 | A round that places nothing proves there is no order |
| `TopoSort.StuckHasCycle` | scripts/package-graph.ts:67 | Packages that all wait on one another contain a cycle or a dependency outside the set |
| `TopoSort.ByShortKeepsLast` | scripts/package-graph.ts:60 | Of packages with one name the map keeps the last listed |
| `TopoSort.InputOrderIsIrrelevant` | scripts/package-graph.ts:59-83 | Two runs give the same list if and only if they keep the same packages and list those of one layer that tie in the same order; how the rest is listed does not matter |
| `TopoSort.OneTopoSort` | scripts/package-graph.ts:59-83 | Only one list has the layering with ties in a given listing order |
| `PackageOrder.CompareIsTotal` | scripts/package-graph.ts:77-83 | The comparison is antisymmetric up to ties: swapping the packages swaps the sign |
| `PackageOrder.CompareIsTransitive` | scripts/package-graph.ts:77-83 | and transitive, so it is a sort order |
| `PackageOrder.ComparesGroupsFirst` | scripts/package-graph.ts:77-83 | Packages of listed groups come in the caller's order of groups and before every other; within a group, and among the others by group, names decide by collation |
| `PackageOrder.SortSorts` | scripts/package-graph.ts:64-66 | Sorting yields a sorted permutation |
| `Listing.SortKeepsTies` | scripts/package-graph.ts:64-66 | and is stable |
| `DependencyDepth.DepthFromDependencies` | scripts/package-graph.ts:63-66 | A package is one deeper than its deepest dependency |
| `PublicationSafety.AttemptsOnlyAdd` | scripts/publish-npm-baseline.ts:625-654 | Over any number of runs cut off at any command, published integrities never change and only the bundle's own versions and tags are written |
| `PublicationSafety.LatestComesLast` | scripts/publish-npm-baseline.ts:625-654 | `latest` names the bundle's version only once every package is present with matching integrity and dist-tag |
| `PublicationSafety.NeverEarlyExactly` | scripts/publish-npm-baseline.ts:649-651 | That holds if and only if the bundle's own dist-tag is not `latest` or the entry package is last in it |
| `PublicationSafety.CutAfterPublishing` | scripts/publish-npm-baseline.ts:630-650 | A first publication cut off after a package leaves that package and its tag, and none after it |
| `PublicationSafety.RerunDecides` | scripts/publish-npm-baseline.ts:625-698 | After any interrupted runs, a run given time to finish succeeds exactly when nothing incompatible was there at the start, and otherwise stops with an error |
| `PublicationSafety.RerunsConverge` | scripts/publish-npm-baseline.ts:625-698 | However the earlier runs were cut off, a run that finishes leaves the same registry state |
| `PublicationSafety.RerunAfterSuccessIsQuiet` | scripts/publish-npm-baseline.ts:625-698 | A rerun after success writes nothing, and neither it nor `verify` can fail |
| `PublicationSafety.QuietRunCosts` | scripts/publish-npm-baseline.ts:625-698 | On a finished release a run asks for every package and the entry's tag twice, once to publish and once to verify, writes nothing, and takes exactly that many commands |
| `PublicationSafety.PublishBlames` | scripts/publish-npm-baseline.ts:630-651 | An error names the first package that the registry has with other contents, and every package before it is in place |
| `PublicationSafety.PublishSteps` | scripts/publish-npm-baseline.ts:625-654 | One run: what it may change, what its end means and what can stop it |
| `PublicationSafety.PublishFromReach` | scripts/publish-npm-baseline.ts:630-650 | Four commands a package suffice, and on a compatible registry only a kill stops the loop |
| `PublicationSafety.VerifyDecides` | scripts/publish-npm-baseline.ts:656-698 | `verify` writes nothing and passes exactly on a complete release |
| `PublicationRun.RegistryPublication.Publish` | scripts/publish-npm-baseline.ts:625-654 | The run, command by command, ends with the registry the protocol says, or stops where it says |
| `PublicationRun.RegistryPublication.PublishPackage` | scripts/publish-npm-baseline.ts:630-649 | One package: look, publish or compare, then its dist-tag |
| `PublicationRun.RegistryPublication.EnsureDistTag` | scripts/publish-npm-baseline.ts:755-764 | The tag is added unless it already names the version |
| `PublicationRun.RegistryPublication.RemoteIntegrity` | scripts/publish-npm-baseline.ts:725-742 | One query answers the published integrity or nothing, if the run is not cut off |
| `PublicationRun.RegistryPublication.RemoteDistTag` | scripts/publish-npm-baseline.ts:744-753 | One query answers the tag's version or nothing |
| `PublicationRun.RegistryPublication.VerifyRemote` | scripts/publish-npm-baseline.ts:662-684 | Every package is compared for integrity and dist-tag, the first failure stopping the check |
| `PublicationRun.RegistryPublication.VerifyTag` | scripts/publish-npm-baseline.ts:671-677 | A tag that does not name the version is an error |
| `PublicationRun.RegistryPublication.Verify` | scripts/publish-npm-baseline.ts:656-660 | The verification of packages and entry tag follows the protocol |
| `ManifestPins.PinnedExactlyWhenStaged` | scripts/publish-npm-baseline.ts:826-872 | The check after packing accepts exactly the manifests that staging would leave alone |
| `ManifestPins.StagePins` | scripts/publish-npm-baseline.ts:826-872 | Staging makes every manifest it accepts pass the check, and once is enough |
| `ManifestPins.StagesExactly` | scripts/publish-npm-baseline.ts:826-872 | Staging sets the range of every internal dependency in every section to the release version and changes nothing else: all names, other ranges and other fields stay. It fails exactly when a section that is there is no object, naming the first |
| `ManifestPins.StageInternalDependencies` | scripts/publish-npm-baseline.ts:826-835 | The loop over the sections stages them one after another, or stops at the first that is no object |
| `ManifestPins.ValidateInternalDependencyPins` | scripts/publish-npm-baseline.ts:837-850 | The loop accepts exactly the manifests whose sections are objects that give every internal name the release version |
| `ManifestPins.ContainsProtocolExactly` | scripts/publish-npm-baseline.ts:820-824 | The protocol is found exactly when some string anywhere inside the value begins with `workspace:` |
| `BundleMatching.MatchTarballs` | scripts/publish-npm-baseline.ts:313-342 | The loop succeeds exactly when the tarballs carry the expected names, each once, and every tarball passes its checks |
| `BundleMatching.CheckTarball` | scripts/publish-npm-baseline.ts:320-336 | A tarball passes exactly when its name is still missing, the payload of a harness package is in order, the version is the release's, it is not private, no string anywhere in its manifest is a workspace range, and its internal dependencies are pinned; otherwise the problem named is one it has |
| `BundleMatching.PermutesIsPermutation` | scripts/publish-npm-baseline.ts:313-342 | Among distinct expected names that is a permutation |
| `ShellQuote.CopyableCommandSplitsBack` | scripts/publish-npm-baseline.ts:994-1003 | Split by the quoting rules of a POSIX shell (XCU 2.2.2 and 2.2.3), the printed line yields exactly the command and its arguments, empty ones and ones with quotes and newlines included |
| `ShellQuote.ScanArgument` | scripts/publish-npm-baseline.ts:998-1003 | One quoted argument followed by anything reads as one word with the argument's text |
| `ShellQuote.ScanEscaped` | scripts/publish-npm-baseline.ts:1000-1002 | Inside single quotes the escaped text reads back as itself |
| `ShellQuote.ScanQuote` | scripts/publish-npm-baseline.ts:1001 | The escape closes the quotes, adds one literal quote and opens them again |
| `ShellQuote.PrintedAsItIsExactly` | scripts/publish-npm-baseline.ts:999 | An argument is printed as it is exactly when it has characters and all of them are letters, digits or one of `_./:@=+-` |
| `LinkDestination.LabelEnd` | scripts/project-doc-site.ts:81-97 | The loop finds the bracket that closes the first one, skipping escaped characters |
| `LinkDestination.SkipWhitespace` | scripts/project-doc-site.ts:75-79 | The loop stops at the first character that is no white space |
| `LinkDestination.DestinationRange` | scripts/project-doc-site.ts:99-142 | The loops compute the scanned range, or the same error |
| `MarkdownForms.BareDestinationIsFound` | scripts/project-doc-site.ts:99-142 | After any balanced label and gap, for every bare destination of CommonMark 0.31.2 (sections 4.7 and 6.3), a literal backslash at its end included: the range is exactly the destination if and only if no block quote's marker stands in the gap, no other white space stands in the destination outside every pair of parentheses, its beginning included, and it does not end in a backslash with a blank after it |
| `MarkdownForms.AngleDestinationIsFound` | scripts/project-doc-site.ts:119-125 | For an angle-bracketed destination the range is exactly what stands between the brackets, if and only if no block quote's marker stands in the gap before it |
| `MarkdownForms.TrailingBackslashOverruns` | scripts/project-doc-site.ts:130-131 | A backslash before a blank is no escape, but the scan skips the blank and overruns the destination |
| `MarkdownForms.BareDestinationsMissed` | scripts/project-doc-site.ts:75-142 | Inputs for both: a no-break space in a destination stops the scan, at its beginning it is skipped, and `x` with a backslash before a title takes the title in |
| `MarkdownForms.QuotedDestinationsMissed` | scripts/project-doc-site.ts:75-142 | Inputs: a destination on the next line of a block quote, bare, in angle brackets or of a definition; the marker is taken for it |
| `MarkdownForms.LabelEndExactly` | scripts/project-doc-site.ts:81-97 | The label's end is found exactly where the text up to it is balanced, brackets in code spans counted like any other |
| `MarkdownForms.CodeSpanMisleads` | scripts/project-doc-site.ts:81-97 | An input for the rest: a bracket and parenthesis in a code span are taken for the end of the label |
| `MarkdownForms.LabelScanSkips` | scripts/project-doc-site.ts:85-95 | A balanced part of a label leaves the bracket depth where it was |
| `MarkdownForms.BareScanSkips` | scripts/project-doc-site.ts:127-140 | A balanced part of a destination leaves the parenthesis depth where it was; inside parentheses white space does not matter |
| `DocProjection.CollectedAreSeparate` | scripts/project-doc-site.ts:260-280 | For nested links, images and definitions with balanced labels, whatever is left alone around them: the destinations collected never overlap |
| `DocProjection.CollectsExactly` | scripts/project-doc-site.ts:275-280 | The visit collects one replacement, the located range and the new target, for each rewritten node of the tree and no others, or fails with the first node whose destination cannot be located |
| `DocProjection.SpliceStep` | scripts/project-doc-site.ts:283-285 | One splice to the left extends the simultaneous substitution by one range |
| `DocProjection.Splice` | scripts/project-doc-site.ts:282-286 | Splicing in descending order equals substituting all ranges at once |
| `DocProjection.SubstituteExactly` | scripts/project-doc-site.ts:282-286 | In the page every new target stands where its range began and every stretch between ranges is as it was, both shifted by what the replacements before them have grown, and nothing else |
| `DocProjection.RewriteMarkdown` | scripts/project-doc-site.ts:239-287 | The page has the destinations of exactly the rewritten nodes anywhere in the tree replaced by their new targets, each once and all at once, and all other text as it was; or the failure of the first node, by its start, whose destination cannot be located |
| `DocProjection.SeparateSorted` | scripts/project-doc-site.ts:283 | Ranges that are apart sort into a descending, non-overlapping list |
| `CalendarDate.ValidDateExactly` | scripts/archived-agent-notes.ts:70-78 | The check accepts exactly well-shaped strings naming real Gregorian dates of the years 100 to 9999 |
| `CalendarDate.ValidDatesAreWritten` | scripts/archived-agent-notes.ts:70-78 | The accepted strings are exactly the real dates of the years 100 to 9999, written with four, two and two digits |
| `CalendarDate.ComesBackExactly` | scripts/archived-agent-notes.ts:76-77 | The three numbers come back from `Date.UTC` unchanged exactly for real dates from year 100 on; years 0 to 99 move to 1900 and later |
| `CalendarDate.ReadBackUndoes` | scripts/archived-agent-notes.ts:76-77 | Reading back is the inverse of the day numbering of ECMA-262 on every real date |
| `CalendarDate.EarlierIsLower` | scripts/archived-agent-notes.ts:76-77 | Day numbers follow the calendar |
| `CalendarDate.DayFromYearIsStandard` | scripts/archived-agent-notes.ts:76 | The day of a year is the closed form of section 21.4.1.3 of ECMA-262 |
| `DateOrder.StringOrderIsCalendarOrder` | scripts/archived-agent-notes.ts:103-108 | Comparing accepted dates as strings compares the days they name |
| `DateOrder.PredatesExactly` | scripts/archived-agent-notes.ts:103-108 | Against a file-name date, which is only known to have the shape of one: an accepted date predates it exactly when it comes before every valid date that does not |
| `DateOrder.LessByFields` | scripts/archived-agent-notes.ts:106 | Strings of that shape compare by year, month and day, real or not |
| `DateOrder.DigitsCompare` | scripts/archived-agent-notes.ts:106 | On equally long runs of digits, string order is numeric order |
| `ArchiveManifest.LaterExtendsEarlier` | scripts/archived-agent-notes.ts:57-68 | Over any sequence of runs every later manifest passes the check against every earlier one |
| `ArchiveManifest.ManifestCovers` | scripts/archived-agent-notes.ts:183-188 | A manifest covers every artifact of every run so far, with the hash it had when first archived |
| `ArchiveManifest.RepeatAddsNothing` | scripts/archived-agent-notes.ts:172-190 | A repeat on unchanged artifacts adds nothing and finds fault exactly when the first run did |
| `ArchiveManifest.NewExactly` | scripts/archived-agent-notes.ts:183-188 | The paths added are exactly the artifacts not sealed before, in the order listed |
| `ArchiveManifest.ExtendArchiveManifest` | scripts/archived-agent-notes.ts:172-190 | The run's files, added paths and faults are those of the specification |
| `ArchiveManifest.ValidateArchiveManifestExtension` | scripts/archived-agent-notes.ts:57-68 | No fault is found exactly when every sealed entry is there unchanged |
| `ArchiveManifest.CheckSealed` | scripts/archived-agent-notes.ts:178-182 | The first loop reports exactly the sealed artifacts that are missing and those whose hash has changed, each as such |
| `ArchiveManifest.AppendNew` | scripts/archived-agent-notes.ts:183-188 | The second loop seals exactly the artifacts not yet listed |
| `DigestFraming.FrameIsInjective` | scripts/client-build-environment.ts:254-262 | Two artifact lists with the same byte stream are the same list of paths and contents |
| `DigestFraming.UnframeFrame` | scripts/client-build-environment.ts:254-261 | The stream decodes back to the list, for arbitrary bytes, digits and colons included |
| `DigestFraming.DecimalIsRead` | scripts/client-build-environment.ts:257-259 | The decimal length prefix is read back as the number it spells |
| `DigestFraming.UnchunkChunk` | scripts/client-build-environment.ts:257-260 | One length-prefixed chunk reads back whole whatever follows it |
| `DigestFraming.ArtifactStream` | scripts/client-build-environment.ts:254-261 | The updates in the loop feed exactly that stream |
| `ClientEnvironment.ClientBuildProcessEnvironment` | scripts/client-build-environment.ts:132-142 | The loop keeps what is neither public nor the selector and adds the selected values |
| `ClientEnvironment.ChildSeesExactlyTheSelection` | scripts/client-build-environment.ts:126-142 | A build sees exactly the selected public values, no inherited one, no selector, and everything else as before |
| `ClientEnvironment.ParseExactly` | scripts/client-build-environment.ts:266-302 | The parser accepts exactly the JSON of well-formed records and gives back the record it was written from |
| `ClientEnvironment.ReadsExactly` | scripts/client-build-environment.ts:211-244 | Any JSON reads as a record exactly when it is that of a well-formed one which meets the environment required and describes the artifacts; of a record the requirement is judged first, then whether there are artifacts at all |
| `ClientEnvironment.WritesExactly` | scripts/client-build-environment.ts:191-208 | A record is written whenever there are artifacts: the values whose names begin with the prefix, the count, and the hash of the stream |
| `ClientEnvironment.DigestExactly` | scripts/client-build-environment.ts:291 | The digests accepted are exactly those of 32 bytes written in lower-case hexadecimal |
| `ClientEnvironment.RecordGuardsArtifacts` | scripts/client-build-environment.ts:197-244 | A written record reads back exactly while artifacts and required environment are the ones it was written for, unless the hash collides |
| `CommentScan.ScanComments` | scripts/markdown.ts:113-121 | The loop ends and finds the comments of an HTML node: no opener outside them, each closed by its nearest closer or by the end of the text |
| `CommentScan.CommentsAreUnique` | scripts/markdown.ts:113-121 | That description has one solution |
| `CommentScan.OpenersAreCovered` | scripts/markdown.ts:113-121 | Every opener begins inside a comment |
| `CommentScan.OccursExactly` | scripts/markdown.ts:116-119 | An opener or closer occurs at an offset exactly when the text has it after that many characters |
| `ProseLines.CommentSpans` | scripts/markdown.ts:109-122 | The offsets covered are exactly those inside a comment of some HTML node |
| `ProseLines.LineRanges` | scripts/markdown.ts:126-139 | A line gets ranges exactly when a comment touches it, an empty line by its line break, and they cover exactly the commented columns |
| `ProseLines.HasRenderedTextOutsideComments` | scripts/markdown.ts:143-153 | True exactly when there are no ranges or some character that is not white space lies outside every range, overlapping ones included |
| `ProseLines.CursorStep` | scripts/markdown.ts:147-150 | What the cursor loop appends for one range is exactly what no range covers up to its end |
| `ProseLines.MarkdownProseLines` | scripts/markdown.ts:160-176 | An unfenced line is kept exactly when no comment touches it or some non-white-space character of it is in no comment |
| `ProseLines.ColumnInSource` | scripts/markdown.ts:125-138 | A column of a line is the source character at the line's offset plus the column |
| `ProseLines.SplitExactly` | scripts/markdown.ts:161 | The lines are the ones without line breaks that make up the source when joined by them |
| `ProseLines.FencedLines` | scripts/markdown.ts:163-167 | The loops collect exactly the lines within code nodes |
| `WorkerPool.EveryInterleaving` | scripts/publint-all.ts:204-222 | Under every interleaving each target is linted once and its result stored at its own index; the pool is finished after exactly two steps a target and one a worker, with no slot missing |
| `WorkerPool.RunAll` | scripts/publint-all.ts:204-222 | Whichever worker moves next, all results come back in target order and the missing-result error cannot happen |
| `WorkerPool.StepKeepsSound` | scripts/publint-all.ts:207-215 | Every index handed out is held by exactly one worker or has its own target's result, never both |
| `WorkerPool.StepCounts` | scripts/publint-all.ts:208-214 | Every move of a live worker is one step nearer the end |
| `WorkerPool.DoneIsComplete` | scripts/publint-all.ts:217-221 | When all workers are done no slot is missing |
| `Concurrency.AcceptedSettings` | scripts/publint-all.ts:65-72 | The setting is accepted exactly when it is a positive safe integer written the one way JavaScript writes it, and caps at the number of targets |
| `Concurrency.EnoughWorkers` | scripts/publint-all.ts:62-75 | There is a worker whenever there is a target, and never more workers than targets; without a setting there are as many as the machine runs at once, if there are that many targets |
| `ReferenceFaces.CollectProjectReferenceFaceViolations` | scripts/project-reference-faces.ts:30-63 | The worklist reports exactly the bad references of the configs that good references reach, and ends on cyclic graphs |
| `ReferenceFaces.SilenceKeepsSidesExactly` | scripts/project-reference-faces.ts:22-63 | When the check is silent, every reachable reference into a split project names the leaf of the aggregate its walk began at if and only if every config with such a reference has that aggregate's face |
| `ReferenceFaces.SilentAcrossSides` | scripts/project-reference-faces.ts:36-56 | An input for the rest: the client aggregate, a neutral project that extends the host base, a split project's host leaf; nothing is reported |
| `ReferenceFaces.VisitReferences` | scripts/project-reference-faces.ts:38-59 | One config's references: bad ones are reported, good ones pushed |
| `ReferenceFaces.ProjectFaceExactly` | scripts/project-reference-faces.ts:88-103 | A config's face is that of the nearest config on its `extends` chain that has one, on cyclic chains too |
| `ReferenceFaces.NearestFaceIsReturned` | scripts/project-reference-faces.ts:98-102 | The `seen` set cuts no chain off before its first face |
| `ReferenceFaces.InnermostRootIsFound` | scripts/project-reference-faces.ts:65-71 | Searching the longest roots first finds the innermost split project around a target |
| `ReferenceFaces.JudgesExactly` | scripts/project-reference-faces.ts:44-60 | A reference is good exactly if it enters no split project or names the leaf of the referring config's face in the innermost one; otherwise that leaf is expected, or the config has no face to go by |
| `ReferenceFaces.OwnFaceExactly` | scripts/project-reference-faces.ts:94-97 | A config has a face of its own exactly if it goes by one of that face's names |
| `DeckInvariant.EveryRunIsTidy` | rsi-recursive-self-improvement-deck-source/deck-stage.js:1347-1476 | Over every run of navigation, moves, deletes, skips, drops, print, slot changes, hash changes and note edits, throwing ones included: the index is in range, outside print exactly the indexed slide is active, exactly the last unskipped slide is tagged, the rail shows the slides, the notes box the current note, and each broadcast names its predecessor, always and if and only if every move that throws was to shift slides other than the current one |
| `DeckInvariant.StepTidiesExactly` | rsi-recursive-self-improvement-deck-source/deck-stage.js:1336-1476 | One event keeps all of that if and only if it does not throw, or throws on a move of a stretch that the current slide is outside |
| `DeckInvariant.ThrownMoveTidiesExactly` | rsi-recursive-self-improvement-deck-source/deck-stage.js:2445-2456 | The move whose insertion throws, likewise |
| `DeckInvariant.EveryRunIsSteady` | rsi-recursive-self-improvement-deck-source/deck-stage.js:1347-1383 | Whatever throws, over every run exactly the last unskipped slide is tagged and the rail shows the slides in order |
| `DeckInvariant.RereadingSettles` | rsi-recursive-self-improvement-deck-source/deck-stage.js:1347-1476 | And the next move, drop, delete or slotchange that goes through puts index, screen, rail and notes box in order again |
| `DeckInvariant.StepTidies` | rsi-recursive-self-improvement-deck-source/deck-stage.js:1336-1476 | Every single event that does not throw keeps all of that |
| `DeckInvariant.CollectTidies` | rsi-recursive-self-improvement-deck-source/deck-stage.js:1347-1383 | Collecting puts index, last-visible tag and rail in order from any child list |
| `DeckInvariant.ApplyTidies` | rsi-recursive-self-improvement-deck-source/deck-stage.js:1429-1476 | Applying puts active slide, current thumb, notes box and broadcast chain in order |
| `DeckInvariant.AfterPrintTidies` | rsi-recursive-self-improvement-deck-source/deck-stage.js:728-737 | After print exactly the indexed slide is active again |
| `DeckEdits.MoveKeepsSlide` | rsi-recursive-self-improvement-deck-source/deck-stage.js:2445-2466 | A move relocates exactly one slide and keeps the same slide on screen; on a synced deck it cannot throw |
| `DeckEdits.SyncedMoveThrows` | rsi-recursive-self-improvement-deck-source/deck-stage.js:2445-2456 | On a synced deck the insertion throws only for a slide that does not exist |
| `SlideList.MoveInDom` | rsi-recursive-self-improvement-deck-source/deck-stage.js:2446-2456 | Whatever text, scripts and styles are mixed in, the insertion moves exactly that slide to its new place |
| `DomList.InsertedAt` | rsi-recursive-self-improvement-deck-source/deck-stage.js:2456 | An insertion puts the node right before the reference, or last, and the others stay in order |
| `DeckEdits.DeleteKeepsSlide` | rsi-recursive-self-improvement-deck-source/deck-stage.js:2406-2418 | A delete removes that slide alone and keeps the slide on screen unless it was the one, when a neighbour follows |
| `DeckEdits.MoveKeepsNotesExactly` | rsi-recursive-self-improvement-deck-source/deck-stage.js:2457-2461 | A move keeps every slide's note if and only if the notes reach the new place, or do not reach the old one, or the moved note is blank |
| `DeckEdits.DeleteKeepsNotes` | rsi-recursive-self-improvement-deck-source/deck-stage.js:2413-2414 | A delete keeps every other slide's note, however long the notes are |
| `DeckEdits.NotesFollowSlides` | rsi-recursive-self-improvement-deck-source/deck-stage.js:1187-1191 | Over every run without external changes, throwing events included, in which the notes let every move and drop: a slide's note is what was last typed while it was on screen, or the one it began with, wherever it was moved |
| `DeckEdits.StepKeepsNotes` | rsi-recursive-self-improvement-deck-source/deck-stage.js:1187-1191 | Only typing changes a note, and only that of the slide on screen, whatever the event, moves and drops as far as the notes let them |
| `DeckEdits.EveryRunIsInStep` | rsi-recursive-self-improvement-deck-source/deck-stage.js:1336-1345 | Over every run: the deck matches the document whenever no slotchange is queued, and misses nothing while the flag that swallows one is up, if and only if no other change of the slides arrives while it is up and no event throws with nothing queued to swallow |
| `DeckBroadcast.OwnSlotchangeIsSwallowed` | rsi-recursive-self-improvement-deck-source/deck-stage.js:2406-2466 | Every move, drop or delete that goes through on a synced deck broadcasts exactly once, with its slotchange queued and the flag up for it; delivering that slotchange broadcasts nothing and changes only the two |
| `DeckBroadcast.StepAnnounces` | rsi-recursive-self-improvement-deck-source/deck-stage.js:1429-1470 | Every event broadcasts at most once, with the index it ends at, the one before and the number of slides: exactly when it navigates to another slide, changes the slides, or delivers a change from outside, and slides remain |
| `DeckBroadcast.EveryRunIsHeard` | rsi-recursive-self-improvement-deck-source/deck-stage.js:1429-1470 | Over every run that stays in order, external changes included, the broadcasts are those of its events, in turn |
| `DeckBroadcast.StepStaysCalm` | rsi-recursive-self-improvement-deck-source/deck-stage.js:1336-1340 | Left to itself, a deck that shows the document's slides keeps doing so, and no delivered slotchange broadcasts |
| `DeckBroadcast.EveryRunBroadcastsOnce` | rsi-recursive-self-improvement-deck-source/deck-stage.js:1336-1345 | Over every run that stays in order and is left to itself: one broadcast for each navigation elsewhere and each move, drop or delete that goes through, and no others, whenever the browser delivers the slotchanges |
| `DeckEdits.ClearedAfterMove` | rsi-recursive-self-improvement-deck-source/deck-stage.js:1336-1340 | Clearing the deck right after a move goes unnoticed: rail and index keep slides that are gone |
| `DeckEdits.MoveAfterClearing` | rsi-recursive-self-improvement-deck-source/deck-stage.js:2445-2456 | Moving the current slide up then throws after the index has changed, and nothing on screen follows it |
| `DeckEdits.DropLands` | rsi-recursive-self-improvement-deck-source/deck-stage.js:2112-2123 | A drop before or after a thumb leaves the dragged slide right there, a drop on itself changes nothing, and the slide on screen stays |
| `DeckEdits.DropBetweenIsDropOn` | rsi-recursive-self-improvement-deck-source/deck-stage.js:1090-1104 | A drop between thumbs does what a drop on the indicated thumb would |
| `RailState.LandsBeside` | rsi-recursive-self-improvement-deck-source/deck-stage.js:2115-2122 | The computed place puts the dragged element right before or after the target |
| `RailPass.RailDropTarget` | rsi-recursive-self-improvement-deck-source/deck-stage.js:2310-2323 | The target names the gap before the first thumb whose middle is below the mouse |
| `RailState.FirstBelowCounts` | rsi-recursive-self-improvement-deck-source/deck-stage.js:2310-2323 | For ascending middles that gap comes after exactly the thumbs whose middle is at or above the pointer |
| `RailPass.SetDrop` | rsi-recursive-self-improvement-deck-source/deck-stage.js:2325-2337 | The indicator stands on the one thumb and nowhere else |
| `RailPass.ClearDrop` | rsi-recursive-self-improvement-deck-source/deck-stage.js:2339-2343 | Afterwards no thumb carries it |
| `RailState.ReconcileReuses` | rsi-recursive-self-improvement-deck-source/deck-stage.js:1981-2009 | For every old order and new slide list the rail ends equal to the slide order, reusing exactly the thumbs whose slide survived, dropping the orphans, and making one new thumb per new slide |
| `RailState.ReconcileIsSound` | rsi-recursive-self-improvement-deck-source/deck-stage.js:1981-2009 | A pass leaves rail children equal to the remembered thumbs, one per slide, each at its recorded place |
| `RailPass.RenderRail` | rsi-recursive-self-improvement-deck-source/deck-stage.js:1969-2035 | The loops reuse, make, drop and order thumbs as specified |
| `RailPass.OrderChildren` | rsi-recursive-self-improvement-deck-source/deck-stage.js:2000-2008 | The insertion loop puts the rail's children in slide order |
| `RailPass.NextInOrder` | rsi-recursive-self-improvement-deck-source/deck-stage.js:1983-1992 | Thumbs by slide, in slide order, new ones numbered as made |
| `RailPass.RemoveOrphans` | rsi-recursive-self-improvement-deck-source/deck-stage.js:1993-1997 | Exactly the thumbs of removed slides leave the rail |
| `RailPass.SyncRail` | rsi-recursive-self-improvement-deck-source/deck-stage.js:2345-2357 | Only the indexed thumb is marked current |
| `DeckEdits.GoAnnounces` | rsi-recursive-self-improvement-deck-source/deck-stage.js:1929-1946 | Navigation goes to the slide asked for or the nearest end, broadcasts once if that is elsewhere, and changes no slide or note |
| `DeckEdits.HashGoes` | rsi-recursive-self-improvement-deck-source/deck-stage.js:1402-1427 | A fragment naming a slide goes there; any other changes nothing else |
| `DeckEdits.ToggleFlips` | rsi-recursive-self-improvement-deck-source/deck-stage.js:2420-2435 | Toggling flips the skip mark of that slide alone and undoes itself |
| `DeckEdits.DeliveryCatchesUp` | rsi-recursive-self-improvement-deck-source/deck-stage.js:1336-1371 | A delivered slotchange takes over the document's slides and goes to the slide the fragment names, or if it names none of them stays at the same place in the list, or at its new end |
| `DeckFrame.IdleChangesNothing` | rsi-recursive-self-improvement-deck-source/deck-stage.js:1929-2454 | Navigating to the current slide, advancing past the last unskipped one, moves to the same or no place, deleting the only slide or none, and the like leave everything as it is |
| `DeckFrame.StepFrames` | rsi-recursive-self-improvement-deck-source/deck-stage.js:1393-1434 | After every event the fragment names the slide last applied, unless the event itself set another; and skip marks, print mode, the drag, the rail's enabling and the drop indicator change only by their own events |
| `DeckFrame.MoveKeepsOthers` | rsi-recursive-self-improvement-deck-source/deck-stage.js:2445-2456 | A move leaves all else among the deck's children, text, scripts and styles included, in order as it was |
| `DeckFrame.DeleteKeepsOthers` | rsi-recursive-self-improvement-deck-source/deck-stage.js:2406-2412 | A delete takes just the slide out of the deck's children |
| `DeckFrame.PointThenDrop` | rsi-recursive-self-improvement-deck-source/deck-stage.js:1090-1104 | A slide dropped between thumbs lands where it would on the thumb last pointed at |
| `DeckFrame.PersistFills` | rsi-recursive-self-improvement-deck-source/deck-stage.js:1301-1303 | Persisting makes holes empty notes and changes no note |
| `DeckEdits.PrintShowsAll` | rsi-recursive-self-improvement-deck-source/deck-stage.js:728-737 | For print every slide is active, and afterwards exactly the one that was on screen, without a broadcast |
| `DeckEdits.NextLandsNearest` | rsi-recursive-self-improvement-deck-source/deck-stage.js:1950-1958 | Next lands on the nearest unskipped slide further on and stays put exactly when all of those are skipped |
| `DeckEdits.PreviousLandsNearest` | rsi-recursive-self-improvement-deck-source/deck-stage.js:1950-1958 | Previous does the same the other way |
| `DeckEdits.NextThenPrevious` | rsi-recursive-self-improvement-deck-source/deck-stage.js:1950-1958 | From an unskipped slide, next then previous returns whenever next moved |
| `DeckEdits.PreviousThenNext` | rsi-recursive-self-improvement-deck-source/deck-stage.js:1950-1958 | and previous then next |
| `DeckStageElement.DeckStage.constructor` | rsi-recursive-self-improvement-deck-source/deck-stage.js:665-674 | A new deck has collected nothing |
| `DeckStageElement.DeckStage.CollectSlides` | rsi-recursive-self-improvement-deck-source/deck-stage.js:1347-1371 | Fields end as the specification of collecting says |
| `DeckStageElement.DeckStage.MarkLastVisible` | rsi-recursive-self-improvement-deck-source/deck-stage.js:1376-1383 | The loop tags the last unskipped slide and untags the others |
| `DeckStageElement.DeckStage.ApplyIndex` | rsi-recursive-self-improvement-deck-source/deck-stage.js:1429-1476 | Fields end as the specification of applying says |
| `DeckStageElement.DeckStage.Go` | rsi-recursive-self-improvement-deck-source/deck-stage.js:1928-1946 | Clamp, and apply when the index changes |
| `DeckStageElement.DeckStage.Advance` | rsi-recursive-self-improvement-deck-source/deck-stage.js:1950-1958 | The scan loop goes where the specification says |
| `DeckStageElement.DeckStage.ToggleSkip` | rsi-recursive-self-improvement-deck-source/deck-stage.js:2420-2435 | Slide and thumb marks flip and the tag moves |
| `DeckStageElement.DeckStage.DeleteSlide` | rsi-recursive-self-improvement-deck-source/deck-stage.js:2406-2418 | Fields end as the specification of a delete says |
| `DeckStageElement.DeckStage.MoveSlide` | rsi-recursive-self-improvement-deck-source/deck-stage.js:2445-2466 | Fields end as the specification of a move says, also when the insertion throws |
| `DeckStageElement.DeckStage.OnSlotChange` | rsi-recursive-self-improvement-deck-source/deck-stage.js:1336-1345 | A queued slotchange is swallowed or handled |
| `DeckStageElement.DeckStage.OnHashChange` | rsi-recursive-self-improvement-deck-source/deck-stage.js:1416-1427 | A fragment within the deck navigates |
| `DeckStageElement.DeckStage.OnBeforePrint` | rsi-recursive-self-improvement-deck-source/deck-stage.js:728-734 | Every slide is made active |
| `DeckStageElement.DeckStage.OnAfterPrint` | rsi-recursive-self-improvement-deck-source/deck-stage.js:735-737 | The index is applied without a broadcast |
| `DeckStageElement.DeckStage.OnNoteInput` | rsi-recursive-self-improvement-deck-source/deck-stage.js:1187-1191 | The current note is overwritten, with holes before it when the array is shorter |
| `DeckStageElement.DeckStage.EmitNotesChange` | rsi-recursive-self-improvement-deck-source/deck-stage.js:1301-1303 | Holes become empty notes |
| `DeckStageElement.DeckStage.EnableRail` | rsi-recursive-self-improvement-deck-source/deck-stage.js:762-840 | The rail is built once |
| `DeckStageElement.DeckStage.DropOnThumb` | rsi-recursive-self-improvement-deck-source/deck-stage.js:2112-2123 | The drag ends and the slide is moved to the gap unless it is there |
| `DeckStageElement.DeckStage.DropOnRail` | rsi-recursive-self-improvement-deck-source/deck-stage.js:1090-1104 | The same at the gap the indicator shows |

## Left out

- TypeTermination.LookupTerminates: bounds the walk's own call stack; the chains of re-exports behind `declForTypeName` are folded into a given scope.
- TypeMeaning.LookupIsHonest: type parameters that shadow a declaration's name, key names that contain quotes, and numeric names spelled in two ways are not modelled; the declaration a name denotes in a file is given.
- TypeMeaning.MayExactly: types nobody sees into, a method's among them, may have any path, so a `missing` behind one counts as unjustified even where the type has no such member; next to an inherited or intersected property of its name an index signature counts as another way. Which names keys of a type take in, and what `keyof` and `unique` make of a type, are given.
- PasteClosure.CollectClosure: a cycle of package-local imports that never declares the name has no guard in the source; it shows as a crash when a bounded call stack is used up. The text of pastes and the member-documentation check are not modelled.
- ComposedSchemas.FoldFrom: says which keys are collected and each once, not how each key is then looked up; that is the key-path check.
- EventRelations.EventRelationCollector.DispatchedEvents: symbols, declarations and finite string types come from the type checker as given; what the language says of scopes is an assumption, written out as `Scoped`.
- EventRelations.EventRelationCollector.CallSitesFor: that no other file can name an unexported helper of a module is an assumption about the language, written out as `Confined`.
- TopoSort.TopoSort: `localeCompare` is any total preorder of names.
- PublicationSafety.AttemptsOnlyAdd: one writer, immutable versions, and commands that take effect whole or not at all; that a registry sets `latest` by itself on a package's first publication is not modelled, nor are ping, whoami and the confirmation prompt.
- ShellQuote.CopyableCommandSplitsBack: covers splitting into words; a first word that a shell would take for an assignment or a reserved word is outside it.
- BundleMatching.MatchTarballs: reading and hashing tarballs, the payload check on file lists, and `ReleaseBundle.load` are given or left out.
- MarkdownForms.BareDestinationIsFound: takes labels that are balanced as the scan reads them, and gaps of blanks and block quotes' markers; titles after the destination are not looked at by the code.
- DocProjection.RewriteMarkdown: takes labels of rewritten nodes that are balanced as the scan reads them; the new destinations themselves (routes, locales, GitHub links) are given with the nodes.
- CalendarDate.ValidDateExactly: `Date.UTC` on numbers the pattern can yield; time values out of range do not occur.
- ClientEnvironment.RecordGuardsArtifacts: the hash is any function; only its collisions on the two streams at hand are excluded. Reading and globbing files, and JSON text, are left out.
- ProseLines.MarkdownProseLines: an HTML node's text is taken to stand in the source at the node's offset, as the code does; nodes nested in block quotes or lists may break that.
- WorkerPool.EveryInterleaving: a worker's stretch between two awaits is one step, as in the JavaScript event loop; a lint that throws is turned into a result by the source before it gets here.
- ReferenceFaces.CollectProjectReferenceFaceViolations: violations are a set of config, target and reason; their wording and final string sort are left out.
- DeckStageElement.DeckStage.MoveSlide: an element that left the deck is taken to have no next sibling, and every child to be assigned to the default slot.
- DeckEdits.NotesFollowSlides: the slide on screen is the one at the index; an external change may reorder slides without their notes; the source keeps notes by position, so runs are taken between such changes. Notes are text or holes; other JSON values are left out.
- DeckStageElement.DeckStage.Go: the mobile list's scrolling, the rail's scroll position, thumbnails' contents, animations, drag images, the context menu's placement, timers, storage and messages to the host are left out; the menu's own entries are the moves, deletes and skips modelled.
- DeckStageElement.DeckStage.DropOnThumb: the rail is a value held by the deck element and reassigned by its methods; DOM nodes shared with other documents are not captured.
- Plugin discovery, schema walking, and all rendering in `scripts/gen-config-catalog.ts`; the curated tables and rendering in `scripts/gen-doc-graphs.ts`: they would add only easy members.
- `validateArchiveArtifacts` beyond its date check, the URL mapping in `scripts/project-doc-site.ts`, the packaged-files check in `scripts/publint-all.ts`: long, but each property follows one branch at a time.
