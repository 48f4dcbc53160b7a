# Optional plugin helper, modelled in Dafny

This project models the core of the Jenkins optional-plugin helper module.
The module takes plugin archives offered by pluggable sources and stages them
in a local cache directory. It decides which ones may be activated next to the
plugins already installed, and writes those into the host's plugin directory.
It then tries to load them without a restart, answering whether a restart is
still needed.

The model follows the Java classes stage by stage, in the same imperative
form: loops become `while`/`for` loops with invariants, and mutable maps and
files become state updated by methods. Each method is proved against a
reference function or a direct specification, and lemmas state what those
functions promise.

- `Common` (`common.dfy`) holds the shared vocabulary.
  - A manifest is a plugin's short name, version, required and optional
    dependencies, and dynamic-load support.
  - The installed registry maps each name to its version and its active,
    enabled and pinned flags.
  - Versions are integers ordered by `<`.
  - A file system maps a path (staging directory or plugin directory, plus a
    file name) to its bytes and modification time. The `FileSystem` class
    holds the one the helper updates.
- `WrapperFilter` (`filter.dfy`) models `PluginWrapperFilter.decide`. It folds
  the filter votes, EXCLUDE is a veto, and an Error propagates.
- `Sources` (`sources.dfy`) models `PluginSource.allPlugins`. It merges the
  sources' lists in order, removes duplicates, and keeps what a failing source listed before it failed.
- `OptionalSource` (`optional_source.dfy`) models
  `OptionalPluginSource.listPlugins`. It keeps the file name after the last
  `/` and filters on the `.hpi`/`.jpi` extension.
- `Staging` (`staging.dfy`) holds the reference functions for the staging
  cache in `PluginHelper.listPlugins`, with `ExtractedPluginMetadata`.
- `Resolve` (`resolve.dfy`) covers the first stages of `refresh`:
  - the baseline exclusion and filter veto;
  - the INCLUDE closure over dependencies;
  - pruning.
- `Versions` (`versions.dfy`) covers:
  - the dynamic-load feasibility check;
  - the final-version map;
  - enablement.
- `Materialise` (`materialise.dfy`) covers writing archives and markers into
  the plugin directory, with `rename`.
- `LoadOrder` (`loadorder.dfy`) covers:
  - the dependency edges;
  - a depth-first topological sort that reports cycles;
  - the hot-load walk.
- `Helper` (`helper.dfy`) holds the `PluginHelper` class with its metadata
  cache, `listPlugins` and `refresh`.

The host's services are parameters of the model, and each may fail:
- fetching a location;
- digests;
- reading an archive's short name;
- wrapping an archive into a manifest;
- the filters' votes;
- dynamic loading.

Because they are parameters, every property holds whatever these services do.
Iteration over Java hash maps and sets is modelled either by an arbitrary
choice (`:|`) or by a sequence in unspecified order. Where the result does not
depend on that order, a lemma says so.

## Model

| member | source | states |
|---|---|---|
| WrapperFilter.Decide | src/main/java/org/jenkinsci/modules/optpluginhelper/PluginWrapperFilter.java:93-129 | the loop's verdict equals the aggregate of the votes; it consults no filter after the first EXCLUDE or Error, and such a vote is the last one consulted |
| WrapperFilter.EarlyReturnIsFold | src/main/java/org/jenkinsci/modules/optpluginhelper/PluginWrapperFilter.java:95-128 | without an Error, the early-returning loop equals a fold in which EXCLUDE beats INCLUDE beats NO_OPINION |
| WrapperFilter.FoldBySummary | src/main/java/org/jenkinsci/modules/optpluginhelper/PluginWrapperFilter.java:99-106 | the fold is EXCLUDE iff some filter said EXCLUDE, and INCLUDE iff none said EXCLUDE and one said INCLUDE |
| WrapperFilter.FoldOrderIndependent | src/main/java/org/jenkinsci/modules/optpluginhelper/PluginWrapperFilter.java:97-106 | the decision does not depend on the order of the filters |
| WrapperFilter.NoOpinionByDefault | src/main/java/org/jenkinsci/modules/optpluginhelper/PluginWrapperFilter.java:95-128 | with no filters, or only NO_OPINION and recovered failures, the result is NO_OPINION |
| WrapperFilter.ExcludeIsVeto | src/main/java/org/jenkinsci/modules/optpluginhelper/PluginWrapperFilter.java:99-101 | the result is EXCLUDE iff some filter says EXCLUDE before any Error |
| WrapperFilter.ErrorPropagates | src/main/java/org/jenkinsci/modules/optpluginhelper/PluginWrapperFilter.java:119-121 | an Error leaves decide iff one is thrown before any EXCLUDE |
| WrapperFilter.IncludeIff | src/main/java/org/jenkinsci/modules/optpluginhelper/PluginWrapperFilter.java:102-106 | the result is INCLUDE iff no EXCLUDE or Error is met and at least one filter says INCLUDE |
| WrapperFilter.RecoveredIsNoVote | src/main/java/org/jenkinsci/modules/optpluginhelper/PluginWrapperFilter.java:110-126 | a filter that throws a recoverable exception has the same effect as no filter; the others are still consulted |
| Sources.AllPlugins | src/main/java/org/jenkinsci/modules/optpluginhelper/PluginSource.java:66-109 | with no host the list is empty; an Error escapes iff some source throws one; otherwise the result is the de-duplicated concatenation of the URL elements, without duplicates, and holds exactly the offered URLs |
| Sources.AddElements | src/main/java/org/jenkinsci/modules/optpluginhelper/PluginSource.java:75-88 | adding one source's elements to the linked set extends the de-duplicated merge by that source's URLs, with nulls and non-URLs dropped |
| Sources.DedupElements | src/main/java/org/jenkinsci/modules/optpluginhelper/PluginSource.java:67-77 | de-duplication keeps exactly the URLs that were offered |
| Sources.DedupDistinct | src/main/java/org/jenkinsci/modules/optpluginhelper/PluginSource.java:67-108 | the merged list has no duplicate URL |
| Sources.DedupFirstOccurrenceOrder | src/main/java/org/jenkinsci/modules/optpluginhelper/PluginSource.java:67-77 | URLs are listed in the order of their first occurrence |
| Sources.OfferedMembers | src/main/java/org/jenkinsci/modules/optpluginhelper/PluginSource.java:71-106 | a URL is offered iff some source returned it among its elements, or iterated it before a recoverable exception; null lists, nulls, objects of other classes and Errors offer nothing |
| OptionalSource.ListPlugins | src/main/java/org/jenkinsci/modules/optpluginhelper/OptionalPluginSource.java:60-84 | with no host or no resource set the list is empty; otherwise it is the listing of the accepted paths, and it is never longer than the path set |
| OptionalSource.FileName | src/main/java/org/jenkinsci/modules/optpluginhelper/OptionalPluginSource.java:68 | the file name is the longest suffix of the path with no '/', preceded by '/' when it is not the whole path |
| OptionalSource.LastSlash | src/main/java/org/jenkinsci/modules/optpluginhelper/OptionalPluginSource.java:68 | the index of the last '/' or -1, with no '/' after it |
| OptionalSource.ArchiveNameByCharacters | src/main/java/org/jenkinsci/modules/optpluginhelper/OptionalPluginSource.java:74-75 | the lower-cased name ends with ".hpi" or ".jpi" iff its last four characters are '.', h/H/j/J, p/P and i/I |
| OptionalSource.DirectoryNeverAccepted | src/main/java/org/jenkinsci/modules/optpluginhelper/OptionalPluginSource.java:69-73 | a path ending in '/' is never accepted |
| OptionalSource.ListingBound | src/main/java/org/jenkinsci/modules/optpluginhelper/OptionalPluginSource.java:76-81 | malformed paths add nothing, so the list is never longer than the paths |
| OptionalSource.ListingMembers | src/main/java/org/jenkinsci/modules/optpluginhelper/OptionalPluginSource.java:67-81 | a URL is listed iff some accepted path resolves to it |
| Helper.PluginHelper.constructor | src/main/java/org/jenkinsci/modules/optpluginhelper/PluginHelper.java:82-90 | the helper starts with an empty metadata cache |
| Helper.PluginHelper.StageResource | src/main/java/org/jenkinsci/modules/optpluginhelper/PluginHelper.java:133-192 | one turn of the staging loop yields the staged path, the cache and the files that `Staging.StageOne` defines |
| Helper.PluginHelper.ListPlugins | src/main/java/org/jenkinsci/modules/optpluginhelper/PluginHelper.java:115-197 | nothing happens with no host or no usable staging directory; an Error from a source escapes, changing nothing; otherwise the result, cache and files are those of staging every merged URL in order |
| Staging.LastIndexOf | src/main/java/org/jenkinsci/modules/optpluginhelper/PluginHelper.java:149 | the index of the last occurrence of a character, or -1, used for the URL's base name |
| Staging.StagedInjective | src/main/java/org/jenkinsci/modules/optpluginhelper/PluginHelper.java:155 | distinct names give distinct staged archives |
| Staging.StageOneCoherent | src/main/java/org/jenkinsci/modules/optpluginhelper/PluginHelper.java:133-192 | one turn writes only in the staging directory, yields a staged archive iff it does not skip, and records in the cache exactly the metadata of what it staged (a cache hit or a skip leaves the cache alone) |
| Staging.CacheHitOnlyWhenValid | src/main/java/org/jenkinsci/modules/optpluginhelper/PluginHelper.java:136-144 | the cache is used iff there is an entry whose archive exists and whose length and digest match it |
| Staging.ReuseOnlyWhenIdentical | src/main/java/org/jenkinsci/modules/optpluginhelper/PluginHelper.java:155-171 | a same-named file is reused without copying iff its length matches, its time matches or the source reports 0, and its digest equals the source's; no file changes then |
| Staging.NamedCopy | src/main/java/org/jenkinsci/modules/optpluginhelper/PluginHelper.java:148-189 | with a non-blank base name, a copy is staged under that name with the fetched bytes and the source's time (or the current time when the source reports 0) |
| Staging.DigestNamedCopy | src/main/java/org/jenkinsci/modules/optpluginhelper/PluginHelper.java:150-185 | a copied location with a blank base name is staged as its short name's archive, moved there or kept when that archive already had the same digest; the archive's digest is the location's, and it carries the location's time when that is non-zero |
| Staging.ExistingDifferentTargetIsSkipped | src/main/java/org/jenkinsci/modules/optpluginhelper/PluginHelper.java:176-179 | moving a digest-named copy onto an existing short-name file with a different digest fails, and the location is skipped |
| Staging.SecondPassHitsCache | src/main/java/org/jenkinsci/modules/optpluginhelper/PluginHelper.java:136-189 | after staging a location whose archive is named after its short name, staging it again takes it from the cache and changes nothing |
| Staging.StageAllCoherent | src/main/java/org/jenkinsci/modules/optpluginhelper/PluginHelper.java:115-197 | at most one archive per URL, every one in the staging directory, and the plugin directory untouched |
| Resolve.GatherCandidates | src/main/java/org/jenkinsci/modules/optpluginhelper/PluginHelper.java:220-240 | the wrapper-to-decision loop builds the map that `Resolve.Gather` defines |
| Resolve.GatherSound | src/main/java/org/jenkinsci/modules/optpluginhelper/PluginHelper.java:220-240 | the stage throws iff some archive's filters throw an Error; every entry wraps to its manifest, is not dominated by an installed plugin, and was not excluded |
| Resolve.GatherComplete | src/main/java/org/jenkinsci/modules/optpluginhelper/PluginHelper.java:220-240 | every staged archive that wraps, is not dominated and is not excluded is an entry, with the filters' decision |
| Resolve.DroppedNeverIncluded | src/main/java/org/jenkinsci/modules/optpluginhelper/PluginHelper.java:224-239 | a candidate dominated by an enabled-or-active installed plugin, or excluded by the filters, never survives the closure and pruning |
| Resolve.Close | src/main/java/org/jenkinsci/modules/optpluginhelper/PluginHelper.java:246-277 | the `while (changed)` loop ends with the closure |
| Resolve.ClosureMonotone | src/main/java/org/jenkinsci/modules/optpluginhelper/PluginHelper.java:266-276 | the closure only flips decisions to INCLUDE and keeps every plugin and archive |
| Resolve.ClosureComplete | src/main/java/org/jenkinsci/modules/optpluginhelper/PluginHelper.java:246-277 | at exit a further pass changes nothing: the required names of INCLUDE entries, and their optional names whose live installed counterpart is older than declared, are INCLUDE where present |
| Resolve.ClosureLeast | src/main/java/org/jenkinsci/modules/optpluginhelper/PluginHelper.java:246-277 | the closure includes nothing more than any INCLUDE set closed under those demands that contains the initial one |
| Resolve.UpscaleMembers | src/main/java/org/jenkinsci/modules/optpluginhelper/PluginHelper.java:249-265 | a name is upscaled iff some INCLUDE entry demands it |
| Resolve.AddDemands | src/main/java/org/jenkinsci/modules/optpluginhelper/PluginHelper.java:253-264 | the two inner loops add exactly the names one entry demands |
| Resolve.CollectUpscale | src/main/java/org/jenkinsci/modules/optpluginhelper/PluginHelper.java:249-265 | the first loop of a pass collects the demands of the INCLUDE entries |
| Resolve.PassProgress | src/main/java/org/jenkinsci/modules/optpluginhelper/PluginHelper.java:246-277 | a pass that changes something lowers the number of non-INCLUDE entries, so the loop terminates |
| Resolve.Prune | src/main/java/org/jenkinsci/modules/optpluginhelper/PluginHelper.java:278-287 | the iterator removal leaves the INCLUDE entries in order |
| Resolve.IncludedMembers | src/main/java/org/jenkinsci/modules/optpluginhelper/PluginHelper.java:278-287 | after pruning, the entries are exactly the INCLUDE ones |
| Versions.CheckDynamicLoad | src/main/java/org/jenkinsci/modules/optpluginhelper/PluginHelper.java:296-309 | the flag is raised iff a survivor has an enabled-or-active unpinned installed counterpart or declares no dynamic-load support |
| Versions.ComputeFinalVersions | src/main/java/org/jenkinsci/modules/optpluginhelper/PluginHelper.java:311-324 | the two loops build the final-version map that `Versions.FinalVersionsOf` defines, in any order of the registry |
| Versions.NewestWins | src/main/java/org/jenkinsci/modules/optpluginhelper/PluginHelper.java:311-324 | a name has a final version iff a live installed plugin or a survivor has it; that version is the newest of them and is one of them |
| Versions.FinalVersionsOrderFree | src/main/java/org/jenkinsci/modules/optpluginhelper/PluginHelper.java:319-324 | the final-version map does not depend on the order in which survivors are visited |
| Versions.MissingDependency | src/main/java/org/jenkinsci/modules/optpluginhelper/PluginHelper.java:332-348 | a dependency is missing iff a required one is absent or older than its minimum, or an optional one present in the map is older |
| Versions.PluginsToEnable | src/main/java/org/jenkinsci/modules/optpluginhelper/PluginHelper.java:328-355 | a name is enabled iff some survivor of that name has its dependencies satisfied |
| Versions.EnabledDependenciesAvailable | src/main/java/org/jenkinsci/modules/optpluginhelper/PluginHelper.java:311-355 | each required dependency of an enabled survivor is provided at a good version by a live installed plugin or a survivor |
| Materialise.Rename | src/main/java/org/jenkinsci/modules/optpluginhelper/PluginHelper.java:524-534 | a legacy file replaces the new name, deleting what was there; nothing happens when the legacy file is absent |
| Materialise.RenamedAt | src/main/java/org/jenkinsci/modules/optpluginhelper/PluginHelper.java:524-534 | after a rename the legacy file is gone and the new name holds the legacy bytes, or its own if there was no legacy file |
| Materialise.MaterialiseCandidate | src/main/java/org/jenkinsci/modules/optpluginhelper/PluginHelper.java:358-439 | one turn of the materialisation loop yields the files, write flag and restart flag that `Materialise.MaterialiseOne` defines |
| Materialise.Materialise | src/main/java/org/jenkinsci/modules/optpluginhelper/PluginHelper.java:357-440 | the loop yields the files and new-plugin map of `Materialise.MaterialiseAll`, and raises the flag iff it was raised before or some turn forces a restart |
| Materialise.DeadBranches | src/main/java/org/jenkinsci/modules/optpluginhelper/PluginHelper.java:362-375 | for a candidate that passed the baseline exclusion, the "same version" and "installed newer" branches cannot fire, so it skips iff its active counterpart is pinned |
| Materialise.PinnedActiveSkips | src/main/java/org/jenkinsci/modules/optpluginhelper/PluginHelper.java:376-381 | an active pinned counterpart makes the candidate change no file and force no restart |
| Materialise.RestartAlreadyFlagged | src/main/java/org/jenkinsci/modules/optpluginhelper/PluginHelper.java:383-384 | a restart forced while materialising was already forced by the feasibility check |
| Materialise.WriteIff | src/main/java/org/jenkinsci/modules/optpluginhelper/PluginHelper.java:414-432 | the archive is written iff the candidate does not skip, the staged archive exists, and the (renamed) archive is absent or has another time with no pin marker; it then holds the staged bytes and time |
| Materialise.DisabledMarker | src/main/java/org/jenkinsci/modules/optpluginhelper/PluginHelper.java:433-439 | a candidate that is not enabled ends with an empty `.disabled` marker even when not rewritten; an existing marker is never removed |
| Materialise.OneFrame | src/main/java/org/jenkinsci/modules/optpluginhelper/PluginHelper.java:386-439 | a turn touches only plugin-directory archives and markers; the staging directory is kept |
| Materialise.NormalisedAt | src/main/java/org/jenkinsci/modules/optpluginhelper/PluginHelper.java:393-412 | after the three renames, no legacy archive is left, and the archive and markers exist iff they or their legacy forms did |
| Materialise.ReplaceKeepsJpiSuffix | src/main/java/org/jenkinsci/modules/optpluginhelper/PluginHelper.java:387 | the legacy name from `replace(".jpi", ".hpi")` always ends with ".hpi" |
| Materialise.NamedAll | src/main/java/org/jenkinsci/modules/optpluginhelper/PluginHelper.java:357-440 | every new-plugin entry is its name's `.jpi`, which wraps to a plugin of that name with no legacy file left, and only survivors' names are entries |
| Materialise.StagingUntouched | src/main/java/org/jenkinsci/modules/optpluginhelper/PluginHelper.java:357-440 | materialisation never changes the staging directory |
| LoadOrder.AddTo | src/main/java/org/jenkinsci/modules/optpluginhelper/PluginHelper.java:468-476 | the nested loops append, for each dependency in order, every plugin of that name |
| LoadOrder.Edges | src/main/java/org/jenkinsci/modules/optpluginhelper/PluginHelper.java:460-479 | the edge lists are those of `LoadOrder.GraphOf`: required dependencies, then optional ones |
| LoadOrder.EdgeIff | src/main/java/org/jenkinsci/modules/optpluginhelper/PluginHelper.java:460-479 | there is an edge from p to q iff q is one of the re-wrapped plugins whose name p depends on, required or optional |
| LoadOrder.Visit | src/main/java/org/jenkinsci/modules/optpluginhelper/PluginHelper.java:480-485 | the depth-first visit reports a cycle only with a closed walk as witness, and otherwise finishes the node after its successors |
| LoadOrder.TopoSort | src/main/java/org/jenkinsci/modules/optpluginhelper/PluginHelper.java:480-485 | a cycle is reported iff the graph has one; otherwise the order holds every plugin once, each after all its dependencies |
| LoadOrder.OrderedIsAcyclic | src/main/java/org/jenkinsci/modules/optpluginhelper/PluginHelper.java:480-485 | a graph with such an order has no cycle |
| LoadOrder.Walk | src/main/java/org/jenkinsci/modules/optpluginhelper/PluginHelper.java:488-517 | archives load in order; the walk stops at the first failure, and no later archive is loaded |
| LoadOrder.ArchivesCover | src/main/java/org/jenkinsci/modules/optpluginhelper/PluginHelper.java:489-494 | every name in the order that has a new-plugin file contributes that file to the walk |
| LoadOrder.ArchivesAreNew | src/main/java/org/jenkinsci/modules/optpluginhelper/PluginHelper.java:489-494 | the walk visits only new-plugin files |
| Helper.Rewrap | src/main/java/org/jenkinsci/modules/optpluginhelper/PluginHelper.java:448-459 | re-wrapping fails iff some new-plugin archive does not wrap; every wrapper comes from one, and every archive that wraps is represented |
| Helper.LoadAll | src/main/java/org/jenkinsci/modules/optpluginhelper/PluginHelper.java:460-517 | a cycle is reported iff the graph has one; without one the order is topological; the walk runs over the order in every case and stops at the first failure |
| Helper.AllVisited | src/main/java/org/jenkinsci/modules/optpluginhelper/PluginHelper.java:488-517 | with a full order and all archives re-wrapped to their own names, the walk visits every new-plugin archive |
| Helper.Activate | src/main/java/org/jenkinsci/modules/optpluginhelper/PluginHelper.java:296-517 | the enabled names are exactly the survivors whose dependencies the final versions satisfy; the plugin directory and the new-plugin map end as materialising every survivor leaves them; restart is needed iff a survivor blocks dynamic loading, a re-wrap fails, the graph has a cycle, or a load fails; without a restart every new-plugin archive was loaded |
| Helper.PluginHelper.Refresh | src/main/java/org/jenkinsci/modules/optpluginhelper/PluginHelper.java:207-518 | with no host, or no usable staging directory, the answer is false and nothing changes; an Error escapes iff a source or filter throws one, leaving nothing changed when it comes from a source; otherwise the cache is that of staging every merged URL, the survivors are the INCLUDE closure of the gathered candidates, and the files are the staged ones with every survivor materialised under the enabled names; with survivors, the answer is true exactly when a survivor blocks dynamic loading, a written archive does not re-wrap, the re-wrapped plugins' dependency graph has a cycle, or a load fails, and the loads run in the sort's order up to the first failure; false means every archive written was loaded |

## Left out

- Logging, the Jenkins singleton lookup (`instance`) and the descriptor methods have no behaviour to model.
- Real I/O is modelled as updates to an abstract file map, and host services are parameters:
  - URL connections, copying, moving and `setLastModified` are map updates.
  - `getResourcePaths` and `getResource` are parameters.
  - Digests, `getShortName`, `createPluginWrapper` and `dynamicLoad` are functions passed in.
- Version numbers are integers with their usual order; `VersionNumber` parsing is not modelled.
- `Collections.synchronizedMap` is a plain map; concurrency is not modelled.
- Java exception classes are collapsed to "recovered" and "fatal". A recovered failure keeps what was added before it. A fatal one is an Error that propagates.
- `toLowerCase` is ASCII lower-casing; Unicode case folding is not modelled.
- `FilenameUtils.getBaseName` is modelled on the '/' and '\\' separators and the last '.'; other separator rules of that library are not modelled.
- `StringUtils.isBlank` treats ASCII whitespace and the separators U+001C–U+001F as blank; other Unicode whitespace is not modelled.
- `ExtractedPluginMetadata` without a Jenkins instance (it then takes the file's base name) is not modelled: `listPlugins` never runs without one.
- `Materialise.Rename`: a failed delete or `renameTo` is not modelled; both are taken to succeed.
- `Materialise.MaterialiseCandidate`: a failed `setLastModified`, or a negative time, is not modelled. The written archive always carries the staged archive's time, because `copyFile` keeps the date.
- Marker creation never fails in the model.
- `Materialise.MaterialiseOne`: a `copyFile` that throws while the staged archive exists (a full disk, missing permissions) is not modelled. The copy fails, leaving the candidate out of the new-plugin map, only when the staged archive is missing.
- `Staging.Finish`: a negative modification time reported by a connection is not modelled. There `setLastModified` would throw an `IllegalArgumentException` that no handler in `listPlugins` catches, so refresh would end with it.
- `Sources.AllPlugins`: locations are compared structurally. The `LinkedHashSet` compares them with `URL.equals`, which may resolve host names, and that comparison is not modelled.
- `Helper.PluginHelper.Refresh`: the survivors are materialised in staging order, which stands for the hash order of the map from wrappers to staged archives. The order matters only when two survivors share a short name: which of them is written last is then fixed by the model and unspecified in the code. The other loops over that map do not depend on its order (`Versions.FinalVersionsOrderFree`).
- `Helper.Rewrap` models wrapping as a function of an archive's bytes. The archives it wraps were just written from staged archives that wrapped successfully, so in the model a re-wrap never fails (`Materialise.NamedAll`). The failure branch is kept.
- `LoadOrder.TopoSort` is a plain depth-first search, not the host's `CyclicGraphDetector`. It shares that detector's cycle outcome but not its tie-breaks. After a cycle the walk still runs over the partial order, and no claim is made about its contents.
- `Helper.Activate` does not model re-entrance or later passes. The host's `dynamicLoad` is a parameter that may depend on the archives loaded before.

Where the code and its design description differ, the model follows the code:
- A `.disabled` marker is created for a candidate that cannot be enabled but is never removed for one that can.
- `rename` deletes an existing destination before renaming rather than renaming only when the destination is absent.
- A dependency cycle sets the restart flag, yet the walk still loads what the sort produced.
- An active, pinned installed counterpart makes the candidate skip materialisation without forcing a restart, so such a pass can answer false.
- The metadata cache is looked up under `<shortName>.jpi`. It therefore hits only for archives staged under their short name (`Staging.SecondPassHitsCache`). An archive staged under another base name is fetched again. It is reused without copying only when the connection reports its length and either no time or the file's own time, and the digests match. Otherwise it is copied again.
