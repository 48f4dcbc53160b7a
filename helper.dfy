/**
 * The helper itself: its staging cache, the listing of staged archives, and
 * refresh, which runs every stage in turn and answers whether a restart is
 * needed to complete activation.
 */
module Helper {
  import opened Common
  import Sources
  import Staging
  import Resolve
  import Versions
  import Materialise
  import LoadOrder
  import WrapperFilter

  /** How refresh ends: with its answer (true when a restart is needed), or
      with an Error from a source or a filter that escapes it. */
  datatype Refreshed = Done(restartRequired: bool) | Propagated

  /** `m` is what some new-plugin archive wraps to. */
  predicate WrappedFrom(m: Manifest, newPlugins: map<string, Path>, files: Files, wrap: Bytes -> Option<Manifest>) {
    exists k :: k in newPlugins && Resolve.WrapFile(newPlugins[k], files, wrap) == Some(m)
  }

  /** Re-wraps the archives written to the plugin directory, in any order
      of the map; a failure to wrap one is remembered and the others are
      still wrapped. */
  method Rewrap(newPlugins: map<string, Path>, files: Files, wrap: Bytes -> Option<Manifest>)
    returns (plugins: seq<Manifest>, failed: bool)
    ensures failed <==> exists k :: k in newPlugins && Resolve.WrapFile(newPlugins[k], files, wrap).None?
    ensures forall j :: 0 <= j < |plugins| ==> WrappedFrom(plugins[j], newPlugins, files, wrap)
    ensures forall k :: k in newPlugins && Resolve.WrapFile(newPlugins[k], files, wrap).Some? ==>
      Resolve.WrapFile(newPlugins[k], files, wrap).value in plugins
  {
    plugins := [];
    failed := false;
    var remaining := newPlugins.Keys;
    while remaining != {}
      invariant remaining <= newPlugins.Keys
      invariant failed <==>
        exists k :: k in newPlugins && k !in remaining && Resolve.WrapFile(newPlugins[k], files, wrap).None?
      invariant forall j :: 0 <= j < |plugins| ==> WrappedFrom(plugins[j], newPlugins, files, wrap)
      invariant forall k :: k in newPlugins && k !in remaining && Resolve.WrapFile(newPlugins[k], files, wrap).Some? ==>
        Resolve.WrapFile(newPlugins[k], files, wrap).value in plugins
      decreases remaining
    {
      var key :| key in remaining;
      var wrapper := Resolve.WrapFile(newPlugins[key], files, wrap);
      if wrapper.None? {
        failed := true;
      } else {
        plugins := plugins + [wrapper.value];
      }
      remaining := remaining - {key};
    }
  }

  /** `enable` holds exactly the names of the surviving candidates whose
      dependencies the final versions satisfy. */
  ghost predicate EnabledNames(enable: set<string>, kept: seq<Resolve.Candidate>, reg: Registry) {
    forall n :: n in enable <==>
      exists i :: 0 <= i < |kept| && kept[i].plugin.shortName == n &&
        Versions.Satisfied(kept[i].plugin, Versions.FinalVersionsOf(kept, reg))
  }

  /** The names of the plugins in load order. */
  function Names(plugins: seq<Manifest>, order: seq<nat>): (names: seq<string>)
    requires forall i :: 0 <= i < |order| ==> order[i] < |plugins|
    ensures |names| == |order| && forall i :: 0 <= i < |order| ==> names[i] == plugins[order[i]].shortName
  {
    seq(|order|, i requires 0 <= i < |order| => plugins[order[i]].shortName)
  }

  /** Sorts the re-wrapped plugins so that dependencies come first and
      loads their archives in that order. A cycle is reported, and the walk
      still runs over the order the sort produced. */
  method LoadAll(plugins: seq<Manifest>, newPlugins: map<string, Path>, load: (seq<Path>, Path) -> bool)
    returns (order: seq<nat>, cycle: bool, loaded: seq<Path>, failed: bool)
    ensures cycle <==> LoadOrder.HasCycle(LoadOrder.GraphOf(plugins))
    ensures !cycle ==> LoadOrder.Ordering(LoadOrder.GraphOf(plugins), order)
    ensures forall i :: 0 <= i < |order| ==> order[i] < |plugins|
    ensures LoadOrder.LoadedUntilFailure(LoadOrder.Archives(Names(plugins, order), newPlugins), loaded, failed, load)
  {
    var adj := LoadOrder.Edges(plugins);
    LoadOrder.GraphWellFormed(plugins);
    order, cycle := LoadOrder.TopoSort(adj);
    loaded, failed := LoadOrder.Walk(Names(plugins, order), newPlugins, load);
  }

  /** With a full load order and every new-plugin archive re-wrapped to a
      plugin of its own name, the walk visits every new-plugin archive. */
  lemma AllVisited(plugins: seq<Manifest>, order: seq<nat>, newPlugins: map<string, Path>, files: Files,
                   wrap: Bytes -> Option<Manifest>, k: string)
    requires LoadOrder.Ordering(LoadOrder.GraphOf(plugins), order)
    requires forall k :: k in newPlugins && Resolve.WrapFile(newPlugins[k], files, wrap).Some? ==>
      Resolve.WrapFile(newPlugins[k], files, wrap).value in plugins
    requires k in newPlugins && newPlugins[k] == Materialise.PluginFile(k) && Materialise.NamedEntry(k, files, wrap)
    ensures newPlugins[k] in LoadOrder.Archives(Names(plugins, order), newPlugins)
  {
    var j :| 0 <= j < |plugins| && Resolve.WrapFile(newPlugins[k], files, wrap) == Some(plugins[j]);
    assert j in order;
    var i :| 0 <= i < |order| && order[i] == j;
    assert Names(plugins, order)[i] == k;
    LoadOrder.ArchivesCover(Names(plugins, order), newPlugins, k);
  }

  /** How the answer of the activation stages comes about. A restart is
      needed exactly when a survivor blocks dynamic loading, a written
      archive does not re-wrap, the re-wrapped plugins' dependency graph has
      a cycle, or a load fails. Nothing is loaded in the first two cases;
      otherwise the archives are loaded in the sort's order (dependencies
      first when there is no cycle), stopping at the first failure. */
  ghost predicate Answered(restart: bool, kept: seq<Resolve.Candidate>, reg: Registry, newPlugins: map<string, Path>,
                           files: Files, wrap: Bytes -> Option<Manifest>, plugins: seq<Manifest>, order: seq<nat>,
                           loaded: seq<Path>, loadFailed: bool, load: (seq<Path>, Path) -> bool)
  {
    var blocks := exists i :: 0 <= i < |kept| && Versions.Blocks(kept[i].plugin, reg);
    var wrapFails := exists k :: k in newPlugins && Resolve.WrapFile(newPlugins[k], files, wrap).None?;
    (restart <==> blocks || wrapFails || LoadOrder.HasCycle(LoadOrder.GraphOf(plugins)) || loadFailed) &&
    (blocks || wrapFails ==> loaded == []) &&
    (!blocks && !wrapFails ==>
      (forall i :: 0 <= i < |order| ==> order[i] < |plugins|) &&
      LoadOrder.LoadedUntilFailure(LoadOrder.Archives(Names(plugins, order), newPlugins), loaded, loadFailed, load) &&
      (!LoadOrder.HasCycle(LoadOrder.GraphOf(plugins)) ==> LoadOrder.Ordering(LoadOrder.GraphOf(plugins), order)))
  }

  /** The stages of refresh after the surviving candidates are known:
      the dynamic-load check, the final versions, enablement, writing the
      archives into the plugin directory, re-wrapping them, and loading them
      in dependency order. The answer is true when a restart is needed. */
  method Activate(fs: FileSystem, kept: seq<Resolve.Candidate>, reg: Registry, wrap: Bytes -> Option<Manifest>,
                  load: (seq<Path>, Path) -> bool, now: int)
    returns (restart: bool, loaded: seq<Path>, ghost enable: set<string>, ghost newPlugins: map<string, Path>,
             ghost plugins: seq<Manifest>, ghost order: seq<nat>, ghost loadFailed: bool)
    requires forall i :: 0 <= i < |kept| ==> Materialise.Faithful(kept[i], fs.files, wrap)
    modifies fs
    ensures EnabledNames(enable, kept, reg)
    ensures var m := Materialise.MaterialiseAll(kept, reg, enable, old(fs.files), now);
      fs.files == m.files && newPlugins == m.newPlugins
    ensures Answered(restart, kept, reg, newPlugins, fs.files, wrap, plugins, order, loaded, loadFailed, load)
    ensures forall j :: 0 <= j < |plugins| ==> WrappedFrom(plugins[j], newPlugins, fs.files, wrap)
    ensures forall k :: k in newPlugins ==>
      newPlugins[k] == Materialise.PluginFile(k) && Materialise.NamedEntry(k, fs.files, wrap) &&
      exists i :: 0 <= i < |kept| && kept[i].plugin.shortName == k
    ensures forall p :: p in loaded ==> exists k :: k in newPlugins && newPlugins[k] == p
    ensures !restart ==> forall k :: k in newPlugins ==> newPlugins[k] in loaded
  {
    loaded := [];
    plugins := [];
    order := [];
    loadFailed := false;
    ghost var stagedFiles := fs.files;
    var cannotDynamicLoad := Versions.CheckDynamicLoad(kept, reg);
    var finalVersions := Versions.ComputeFinalVersions(kept, reg);
    var toEnable := Versions.PluginsToEnable(kept, finalVersions);
    enable := toEnable;
    var written;
    written, cannotDynamicLoad := Materialise.Materialise(fs, kept, reg, toEnable, now, cannotDynamicLoad);
    newPlugins := written;
    Materialise.NamedAll(kept, reg, enable, stagedFiles, now, wrap);
    Materialise.RestartAlreadyFlagged(kept, reg, enable, stagedFiles, now);
    if cannotDynamicLoad {
      return true, loaded, enable, newPlugins, plugins, order, loadFailed;
    }
    var wrapped, wrapFailed := Rewrap(written, fs.files, wrap);
    plugins := wrapped;
    if wrapFailed {
      return true, loaded, enable, newPlugins, plugins, order, loadFailed;
    }
    var sorted, cycle, walked, failed := LoadAll(wrapped, written, load);
    order, loaded, loadFailed := sorted, walked, failed;
    forall p | p in loaded ensures exists k :: k in newPlugins && newPlugins[k] == p {
      LoadOrder.ArchivesAreNew(Names(plugins, order), written, p);
    }
    if !cycle && !failed {
      forall k | k in newPlugins ensures newPlugins[k] in loaded {
        AllVisited(plugins, order, written, fs.files, wrap, k);
      }
    }
    restart := cycle || failed;
  }

  /** The helper, with its cache of staged locations (by external form). */
  class PluginHelper {
    var cache: map<string, Staging.Metadata>

    constructor ()
      ensures cache == map[]
    {
      cache := map[];
    }

    /** Stages one location (one turn of listPlugins' loop). */
    method StageResource(fs: FileSystem, u: Url, h: Staging.StagingHost, now: int) returns (staged: Option<Path>)
      modifies this, fs
      ensures var step := Staging.StageOne(old(cache), old(fs.files), u, h, now);
        staged == step.staged && cache == step.cache && fs.files == step.files
    {
      var key := u.externalForm;
      if key in cache {
        var metadata := cache[key];
        var archive := Staging.Staged(metadata.shortName);
        if archive in fs.files && |fs.files[archive].content| == metadata.length &&
           h.digest(fs.files[archive].content) == metadata.digest {
          return Some(archive);
        }
      }
      var connection := h.fetch(u);
      if connection.None? {
        return None;
      }
      var lastModified := connection.value.lastModified;
      var size := connection.value.contentLength;
      var fileName := Staging.BaseName(u.path);
      var nameCheck := false;
      if Staging.IsBlank(fileName) {
        nameCheck := true;
        fileName := h.textDigest(u.externalForm);
      }
      var file := Staging.Staged(fileName);
      if file in fs.files && (fs.files[file].lastModified == lastModified || lastModified == 0) &&
         |fs.files[file].content| == size {
        var fileDigest := h.digest(fs.files[file].content);
        var resourceDigest := h.digest(connection.value.body);
        if fileDigest == resourceDigest {
          staged := Some(file);
          var md := Staging.MetadataOf(file, fs.files[file].content, h);
          if md.Some? {
            cache := cache[key := md.value];
          }
          return;
        }
      }
      fs.files := fs.files[file := FileEntry(connection.value.body, now)];
      if nameCheck {
        var shortName := h.shortNameOf(file, connection.value.body);
        if shortName.None? {
          return None;
        }
        if fileName != shortName.value {
          var newFile := Staging.Staged(shortName.value);
          if newFile !in fs.files || h.digest(fs.files[newFile].content) != h.digest(fs.files[file].content) {
            if newFile in fs.files {
              return None;
            }
            fs.files := (fs.files - {file})[newFile := fs.files[file]];
          }
          file := newFile;
        }
      }
      if lastModified != 0 {
        fs.files := fs.files[file := fs.files[file].(lastModified := lastModified)];
      }
      staged := Some(file);
      var md := Staging.MetadataOf(file, fs.files[file].content, h);
      if md.Some? {
        cache := cache[key := md.value];
      }
    }

    /** Lists the staged archives of all source locations, populating the
        staging directory. Nothing is staged without a host instance or when
        the staging directory is not (and cannot be made) a directory; an
        Error from a source propagates (`thrown`). */
    method ListPlugins(fs: FileSystem, hasJenkins: bool, stagingDirUsable: bool, sources: seq<Sources.Listing>,
                       h: Staging.StagingHost, now: int)
      returns (result: seq<Path>, thrown: bool)
      modifies this, fs
      ensures !hasJenkins || !stagingDirUsable ==>
        result == [] && !thrown && cache == old(cache) && fs.files == old(fs.files)
      ensures hasJenkins && stagingDirUsable ==>
        (thrown <==> exists k :: 0 <= k < |sources| && sources[k] == Sources.Fatal)
      ensures thrown ==> result == [] && cache == old(cache) && fs.files == old(fs.files)
      ensures hasJenkins && stagingDirUsable && !thrown ==>
        var pass := Staging.StageAll(old(cache), old(fs.files), Sources.Dedup(Sources.Offered(sources)), h, now);
        result == pass.staged && cache == pass.cache && fs.files == pass.files
    {
      result := [];
      thrown := false;
      if !hasJenkins || !stagingDirUsable {
        return;
      }
      var all := Sources.AllPlugins(true, sources);
      if all.Propagated? {
        thrown := true;
        return;
      }
      var urls := all.urls;
      for i := 0 to |urls|
        invariant var pass := Staging.StageAll(old(cache), old(fs.files), urls[..i], h, now);
          result == pass.staged && cache == pass.cache && fs.files == pass.files
      {
        assert urls[..i + 1][..i] == urls[..i];
        var staged := StageResource(fs, urls[i], h, now);
        if staged.Some? {
          result := result + [staged.value];
        }
      }
      assert urls[..|urls|] == urls;
    }

    /** Refresh: stages and wraps every offered archive, decides which to
        activate, writes them into the plugin directory and loads them in
        dependency order. The answer is true when a restart is needed. */
    method Refresh(fs: FileSystem, hasJenkins: bool, stagingDirUsable: bool, sources: seq<Sources.Listing>,
                   reg: Registry, h: Staging.StagingHost, wrap: Bytes -> Option<Manifest>,
                   votes: (Manifest, Path) -> seq<WrapperFilter.Vote>, load: (seq<Path>, Path) -> bool, now: int)
      returns (result: Refreshed, loaded: seq<Path>, ghost kept: seq<Resolve.Candidate>, ghost enable: set<string>,
               ghost newPlugins: map<string, Path>, ghost plugins: seq<Manifest>, ghost order: seq<nat>,
               ghost loadFailed: bool)
      modifies this, fs
      ensures result.Done? && kept != [] ==>
        Answered(result.restartRequired, kept, reg, newPlugins, fs.files, wrap, plugins, order, loaded, loadFailed, load)
      ensures !hasJenkins ==> result == Done(false) && loaded == [] && cache == old(cache) && fs.files == old(fs.files)
      ensures hasJenkins && !stagingDirUsable ==>
        result == Done(false) && loaded == [] && cache == old(cache) && fs.files == old(fs.files)
      ensures hasJenkins && (exists k :: 0 <= k < |sources| && sources[k] == Sources.Fatal) ==>
        cache == old(cache) && fs.files == old(fs.files)
      ensures hasJenkins && stagingDirUsable && !(exists k :: 0 <= k < |sources| && sources[k] == Sources.Fatal) ==>
        var pass := Staging.StageAll(old(cache), old(fs.files), Sources.Dedup(Sources.Offered(sources)), h, now);
        cache == pass.cache &&
        (result == Propagated ==> fs.files == pass.files) &&
        (result.Done? ==>
          EnabledNames(enable, kept, reg) &&
          var m := Materialise.MaterialiseAll(kept, reg, enable, pass.files, now);
          fs.files == m.files && newPlugins == m.newPlugins)
      ensures hasJenkins ==>
        var pass := Staging.StageAll(old(cache), old(fs.files), Sources.Dedup(Sources.Offered(sources)), h, now);
        var g := Resolve.Gather(pass.staged, pass.files, reg, wrap, votes);
        (result == Propagated <==>
          stagingDirUsable && ((exists k :: 0 <= k < |sources| && sources[k] == Sources.Fatal) || g.Thrown?)) &&
        (stagingDirUsable && result.Done? ==> kept == Resolve.Included(Resolve.Closure(g.candidates, reg)))
      ensures result.Done? && kept == [] ==>
        result == Done(false) && loaded == [] && newPlugins == map[] && Staging.PluginDirSame(old(fs.files), fs.files)
      ensures result.Done? && (exists i :: 0 <= i < |kept| && Versions.Blocks(kept[i].plugin, reg)) ==>
        result == Done(true)
      ensures forall k :: k in newPlugins ==>
        newPlugins[k] == Materialise.PluginFile(k) && Materialise.NamedEntry(k, fs.files, wrap) &&
        exists i :: 0 <= i < |kept| && kept[i].plugin.shortName == k
      ensures forall p :: p in loaded ==> exists k :: k in newPlugins && newPlugins[k] == p
      ensures result == Done(false) ==> forall k :: k in newPlugins ==> newPlugins[k] in loaded
    {
      loaded := [];
      kept := [];
      enable := {};
      newPlugins := map[];
      plugins, order, loadFailed := [], [], false;
      if !hasJenkins {
        return Done(false), loaded, kept, enable, newPlugins, plugins, order, loadFailed;
      }
      var staged, thrown := ListPlugins(fs, true, stagingDirUsable, sources, h, now);
      if thrown {
        return Propagated, loaded, kept, enable, newPlugins, plugins, order, loadFailed;
      }
      Staging.StageAllCoherent(old(cache), old(fs.files), Sources.Dedup(Sources.Offered(sources)), h, now);
      var gathered := Resolve.GatherCandidates(staged, fs.files, reg, wrap, votes);
      if gathered.Thrown? {
        return Propagated, loaded, kept, enable, newPlugins, plugins, order, loadFailed;
      }
      var closed := Resolve.Close(gathered.candidates, reg);
      var survivors := Resolve.Prune(closed);
      kept := survivors;
      if survivors == [] {
        return Done(false), loaded, kept, enable, newPlugins, plugins, order, loadFailed;
      }
      Resolve.DroppedNeverIncluded(staged, fs.files, reg, wrap, votes);
      Resolve.IncludedMembers(closed);
      forall i | 0 <= i < |survivors| ensures Materialise.Faithful(survivors[i], fs.files, wrap) {
        assert survivors[i] in Resolve.Included(Resolve.Closure(gathered.candidates, reg));
      }
      var restart;
      restart, loaded, enable, newPlugins, plugins, order, loadFailed := Activate(fs, survivors, reg, wrap, load, now);
      result := Done(restart);
    }
  }
}
