/**
 * The middle stages of refresh over the surviving (INCLUDE) candidates: the
 * dynamic-load feasibility check, the expected final version of every
 * plugin, and which candidates can be enabled.
 */
module Versions {
  import opened Common
  import Resolve

  /** A surviving candidate that rules out loading without a restart: an
      enabled or active installed counterpart that is not pinned, or a
      declared lack of dynamic-load support. */
  predicate Blocks(m: Manifest, reg: Registry) {
    (m.shortName in reg && Live(reg[m.shortName]) && !reg[m.shortName].pinned) || m.dynamicLoad == No
  }

  /** The feasibility check: the restart flag is raised exactly when some
      surviving candidate blocks dynamic loading. */
  method CheckDynamicLoad(kept: seq<Resolve.Candidate>, reg: Registry) returns (cannotDynamicLoad: bool)
    ensures cannotDynamicLoad <==> exists i :: 0 <= i < |kept| && Blocks(kept[i].plugin, reg)
  {
    cannotDynamicLoad := false;
    for i := 0 to |kept|
      invariant cannotDynamicLoad <==> exists k :: 0 <= k < i && Blocks(kept[k].plugin, reg)
    {
      var wrapper := kept[i].plugin;
      if wrapper.shortName in reg && (reg[wrapper.shortName].active || reg[wrapper.shortName].enabled) &&
         !reg[wrapper.shortName].pinned {
        cannotDynamicLoad := true;
      } else if wrapper.dynamicLoad == No {
        cannotDynamicLoad := true;
      }
    }
  }

  /** The versions of the enabled or active installed plugins. */
  function Baseline(reg: Registry): map<string, Version> {
    map n | n in reg && Live(reg[n]) :: reg[n].version
  }

  /** Reference definition of the final-version map: the baseline, then
      each surviving candidate put in when its name is absent or it is
      newer. */
  function FinalVersionsOf(kept: seq<Resolve.Candidate>, reg: Registry): map<string, Version>
    decreases |kept|
  {
    if kept == [] then Baseline(reg)
    else
      var fv := FinalVersionsOf(kept[..|kept| - 1], reg);
      var m := kept[|kept| - 1].plugin;
      if m.shortName !in fv || m.version > fv[m.shortName] then fv[m.shortName := m.version] else fv
  }

  /** A name has a final version exactly when an enabled or active plugin
      of that name is installed or a surviving candidate has it; the final
      version is the newest of those versions. */
  lemma {:induction false} NewestWins(kept: seq<Resolve.Candidate>, reg: Registry, n: string)
    ensures var fv := FinalVersionsOf(kept, reg);
      (n in fv <==> (n in reg && Live(reg[n])) || exists i :: 0 <= i < |kept| && kept[i].plugin.shortName == n) &&
      (n in fv ==>
        (n in reg && Live(reg[n]) ==> fv[n] >= reg[n].version) &&
        (forall i :: 0 <= i < |kept| && kept[i].plugin.shortName == n ==> fv[n] >= kept[i].plugin.version) &&
        ((n in reg && Live(reg[n]) && fv[n] == reg[n].version) ||
         exists i :: 0 <= i < |kept| && kept[i].plugin.shortName == n && fv[n] == kept[i].plugin.version))
    decreases |kept|
  {
    if kept != [] {
      var init := kept[..|kept| - 1];
      NewestWins(init, reg, n);
      var fv := FinalVersionsOf(kept, reg);
      var prev := FinalVersionsOf(init, reg);
      if exists i :: 0 <= i < |init| && init[i].plugin.shortName == n {
        var i :| 0 <= i < |init| && init[i].plugin.shortName == n;
        assert kept[i] == init[i];
      }
      if n in prev && exists i :: 0 <= i < |init| && init[i].plugin.shortName == n && prev[n] == init[i].plugin.version {
        var i :| 0 <= i < |init| && init[i].plugin.shortName == n && prev[n] == init[i].plugin.version;
        assert kept[i] == init[i];
      }
      forall i | 0 <= i < |kept| && kept[i].plugin.shortName == n
        ensures n in fv && fv[n] >= kept[i].plugin.version
      {
        if i < |init| {
          assert init[i] == kept[i];
        }
      }
      if exists i :: 0 <= i < |kept| && kept[i].plugin.shortName == n {
        var i :| 0 <= i < |kept| && kept[i].plugin.shortName == n;
        if i < |init| {
          assert init[i] == kept[i];
        }
      }
    }
  }

  /** The final-version map does not depend on the order in which the
      surviving candidates are visited. */
  lemma FinalVersionsOrderFree(kept: seq<Resolve.Candidate>, other: seq<Resolve.Candidate>, reg: Registry)
    requires forall c :: c in kept <==> c in other
    ensures FinalVersionsOf(kept, reg) == FinalVersionsOf(other, reg)
  {
    var a := FinalVersionsOf(kept, reg);
    var b := FinalVersionsOf(other, reg);
    forall n ensures (n in a <==> n in b) && (n in a ==> a[n] == b[n]) {
      NewestWins(kept, reg, n);
      NewestWins(other, reg, n);
      if exists i :: 0 <= i < |kept| && kept[i].plugin.shortName == n {
        var i :| 0 <= i < |kept| && kept[i].plugin.shortName == n;
        assert kept[i] in other;
      }
      if exists i :: 0 <= i < |other| && other[i].plugin.shortName == n {
        var i :| 0 <= i < |other| && other[i].plugin.shortName == n;
        assert other[i] in kept;
      }
      if n in a {
        if exists i :: 0 <= i < |kept| && kept[i].plugin.shortName == n && a[n] == kept[i].plugin.version {
          var i :| 0 <= i < |kept| && kept[i].plugin.shortName == n && a[n] == kept[i].plugin.version;
          assert kept[i] in other;
        }
        if exists i :: 0 <= i < |other| && other[i].plugin.shortName == n && b[n] == other[i].plugin.version {
          var i :| 0 <= i < |other| && other[i].plugin.shortName == n && b[n] == other[i].plugin.version;
          assert other[i] in kept;
        }
      }
    }
    assert a.Keys == b.Keys;
  }

  /** Builds the final-version map: the installed plugins first (in any
      order), then the surviving candidates. */
  method ComputeFinalVersions(kept: seq<Resolve.Candidate>, reg: Registry) returns (finalVersions: map<string, Version>)
    ensures finalVersions == FinalVersionsOf(kept, reg)
  {
    finalVersions := map[];
    var remaining := reg.Keys;
    while remaining != {}
      invariant remaining <= reg.Keys
      invariant finalVersions == map n | n in reg.Keys - remaining && Live(reg[n]) :: reg[n].version
      decreases remaining
    {
      var w :| w in remaining;
      if reg[w].active || reg[w].enabled {
        finalVersions := finalVersions[w := reg[w].version];
      }
      remaining := remaining - {w};
    }
    assert reg.Keys - remaining == reg.Keys;
    for i := 0 to |kept|
      invariant finalVersions == FinalVersionsOf(kept[..i], reg)
    {
      assert kept[..i + 1][..i] == kept[..i];
      var w := kept[i].plugin;
      if w.shortName !in finalVersions || w.version > finalVersions[w.shortName] {
        finalVersions := finalVersions[w.shortName := w.version];
      }
    }
    assert kept[..|kept|] == kept;
  }

  /** A candidate's dependencies are satisfied by the final versions: every
      required one is present at no older than its minimum, and every
      optional one that is present is no older than its minimum. */
  predicate Satisfied(m: Manifest, finalVersions: map<string, Version>) {
    (forall d :: d in m.dependencies ==>
      d.shortName in finalVersions && !(finalVersions[d.shortName] < d.version)) &&
    (forall d :: d in m.optionalDependencies && d.shortName in finalVersions ==>
      !(finalVersions[d.shortName] < d.version))
  }

  /** The check of one candidate's dependencies. */
  method MissingDependency(m: Manifest, finalVersions: map<string, Version>) returns (missingDependency: bool)
    ensures missingDependency <==> !Satisfied(m, finalVersions)
  {
    missingDependency := false;
    for j := 0 to |m.dependencies|
      invariant missingDependency <==>
        exists k :: 0 <= k < j &&
          (m.dependencies[k].shortName !in finalVersions ||
           finalVersions[m.dependencies[k].shortName] < m.dependencies[k].version)
    {
      var d := m.dependencies[j];
      if d.shortName !in finalVersions || finalVersions[d.shortName] < d.version {
        missingDependency := true;
      }
    }
    ghost var requiredMissing := missingDependency;
    for j := 0 to |m.optionalDependencies|
      invariant missingDependency <==>
        requiredMissing ||
        exists k :: 0 <= k < j &&
          m.optionalDependencies[k].shortName in finalVersions &&
          finalVersions[m.optionalDependencies[k].shortName] < m.optionalDependencies[k].version
    {
      var d := m.optionalDependencies[j];
      if d.shortName in finalVersions && finalVersions[d.shortName] < d.version {
        missingDependency := true;
      }
    }
  }

  /** The names to enable: a name is enabled exactly when some surviving
      candidate of that name has its dependencies satisfied. */
  method PluginsToEnable(kept: seq<Resolve.Candidate>, finalVersions: map<string, Version>) returns (enable: set<string>)
    ensures forall n :: n in enable <==>
      exists i :: 0 <= i < |kept| && kept[i].plugin.shortName == n && Satisfied(kept[i].plugin, finalVersions)
  {
    enable := {};
    for i := 0 to |kept|
      invariant forall n :: n in enable <==>
        exists k :: 0 <= k < i && kept[k].plugin.shortName == n && Satisfied(kept[k].plugin, finalVersions)
    {
      var missingDependency := MissingDependency(kept[i].plugin, finalVersions);
      if !missingDependency {
        enable := enable + {kept[i].plugin.shortName};
      }
    }
  }

  /** Each required dependency of an enabled candidate will be present at a
      good enough version once activation completes: an enabled or active
      installed plugin or a surviving candidate provides it. */
  lemma EnabledDependenciesAvailable(kept: seq<Resolve.Candidate>, reg: Registry, m: Manifest, d: Dependency)
    requires Satisfied(m, FinalVersionsOf(kept, reg)) && d in m.dependencies
    ensures (d.shortName in reg && Live(reg[d.shortName]) && !(reg[d.shortName].version < d.version)) ||
      exists i :: 0 <= i < |kept| && kept[i].plugin.shortName == d.shortName && !(kept[i].plugin.version < d.version)
  {
    NewestWins(kept, reg, d.shortName);
  }
}
