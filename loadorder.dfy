/**
 * The last stage of refresh: the dependency edges between the plugins about
 * to be loaded, a depth-first topological sort that either orders them with
 * every dependency first or reports a cycle, and the walk that loads them in
 * that order until the first failure.
 */
module LoadOrder {
  import opened Common

  /** The indices below `n` of the plugins called `name`, in list order. */
  function MatchesUpTo(plugins: seq<Manifest>, name: string, n: nat): seq<nat>
    requires n <= |plugins|
  {
    if n == 0 then []
    else MatchesUpTo(plugins, name, n - 1) + (if plugins[n - 1].shortName == name then [n - 1] else [])
  }

  /** The edges one list of dependencies contributes: for each dependency
      in order, every plugin of that name. */
  function Targets(plugins: seq<Manifest>, ds: seq<Dependency>): seq<nat>
    decreases |ds|
  {
    if ds == [] then []
    else Targets(plugins, ds[..|ds| - 1]) + MatchesUpTo(plugins, ds[|ds| - 1].shortName, |plugins|)
  }

  /** Reference definition of the edges out of plugin `p`: its required
      dependencies, then its optional ones. */
  function EdgesOf(plugins: seq<Manifest>, p: nat): seq<nat>
    requires p < |plugins|
  {
    Targets(plugins, plugins[p].dependencies) + Targets(plugins, plugins[p].optionalDependencies)
  }

  /** The whole dependency graph, one edge list per plugin. */
  function GraphOf(plugins: seq<Manifest>): seq<seq<nat>> {
    seq(|plugins|, p requires 0 <= p < |plugins| => EdgesOf(plugins, p))
  }

  /** The names plugin `m` depends on, required or optional. */
  function DependencyNames(m: Manifest): set<string> {
    (set d | d in m.dependencies :: d.shortName) + (set d | d in m.optionalDependencies :: d.shortName)
  }

  lemma {:induction false} MatchesMembers(plugins: seq<Manifest>, name: string, n: nat, q: nat)
    requires n <= |plugins|
    ensures q in MatchesUpTo(plugins, name, n) <==> q < n && plugins[q].shortName == name
  {
    if n > 0 {
      MatchesMembers(plugins, name, n - 1, q);
    }
  }

  lemma {:induction false} TargetsMembers(plugins: seq<Manifest>, ds: seq<Dependency>, q: nat)
    ensures q in Targets(plugins, ds) <==>
      q < |plugins| && exists d :: d in ds && d.shortName == plugins[q].shortName
    decreases |ds|
  {
    if ds != [] {
      var init := ds[..|ds| - 1];
      var last := ds[|ds| - 1];
      TargetsMembers(plugins, init, q);
      MatchesMembers(plugins, last.shortName, |plugins|, q);
      if q < |plugins| && exists d :: d in ds && d.shortName == plugins[q].shortName {
        var d :| d in ds && d.shortName == plugins[q].shortName;
        if d != last {
          assert d in init;
        }
      }
      if q < |plugins| && exists d :: d in init && d.shortName == plugins[q].shortName {
        var d :| d in init && d.shortName == plugins[q].shortName;
        assert d in ds;
      }
    }
  }

  /** There is an edge from `p` to `q` exactly when `q` is a plugin whose
      name `p` depends on, required or optional. */
  lemma EdgeIff(plugins: seq<Manifest>, p: nat, q: nat)
    requires p < |plugins|
    ensures q in GraphOf(plugins)[p] <==> q < |plugins| && plugins[q].shortName in DependencyNames(plugins[p])
  {
    TargetsMembers(plugins, plugins[p].dependencies, q);
    TargetsMembers(plugins, plugins[p].optionalDependencies, q);
  }

  /** Appends the plugins a list of dependencies names to `r`. */
  method AddTo(plugins: seq<Manifest>, dependencies: seq<Dependency>, r: seq<nat>) returns (r': seq<nat>)
    ensures r' == r + Targets(plugins, dependencies)
  {
    r' := r;
    for i := 0 to |dependencies|
      invariant r' == r + Targets(plugins, dependencies[..i])
    {
      assert dependencies[..i + 1][..i] == dependencies[..i];
      ghost var before := r';
      for j := 0 to |plugins|
        invariant r' == before + MatchesUpTo(plugins, dependencies[i].shortName, j)
      {
        if plugins[j].shortName == dependencies[i].shortName {
          r' := r' + [j];
        }
      }
    }
    assert dependencies[..|dependencies|] == dependencies;
  }

  /** The edge lists of all plugins. */
  method Edges(plugins: seq<Manifest>) returns (adj: seq<seq<nat>>)
    ensures adj == GraphOf(plugins)
  {
    adj := [];
    for p := 0 to |plugins|
      invariant |adj| == p
      invariant forall k :: 0 <= k < p ==> adj[k] == EdgesOf(plugins, p := k)
    {
      var next := AddTo(plugins, plugins[p].dependencies, []);
      next := AddTo(plugins, plugins[p].optionalDependencies, next);
      adj := adj + [next];
    }
  }

  /** Every edge leads to a node of the graph. */
  predicate WellFormed(adj: seq<seq<nat>>) {
    forall p, q :: 0 <= p < |adj| && q in adj[p] ==> q < |adj|
  }

  lemma GraphWellFormed(plugins: seq<Manifest>)
    ensures WellFormed(GraphOf(plugins))
  {
    forall p, q | 0 <= p < |plugins| && q in GraphOf(plugins)[p] ensures q < |plugins| {
      EdgeIff(plugins, p, q);
    }
  }

  /** A closed walk along edges: a dependency cycle. */
  predicate IsCycle(adj: seq<seq<nat>>, loop: seq<nat>) {
    |loop| >= 2 && loop[0] == loop[|loop| - 1] &&
    forall k :: 0 <= k < |loop| - 1 ==> loop[k] < |adj| && loop[k + 1] in adj[loop[k]]
  }

  ghost predicate HasCycle(adj: seq<seq<nat>>) {
    exists loop :: IsCycle(adj, loop)
  }

  predicate Distinct(s: seq<nat>) {
    forall i, j :: 0 <= i < j < |s| ==> s[i] != s[j]
  }

  /** Every node in `sorted` has all its successors earlier in it. */
  predicate DependenciesFirst(adj: seq<seq<nat>>, sorted: seq<nat>) {
    forall i :: 0 <= i < |sorted| ==> sorted[i] < |adj| && forall q :: q in adj[sorted[i]] ==> q in sorted[..i]
  }

  /** A topological order: every node exactly once, dependencies first. */
  predicate Ordering(adj: seq<seq<nat>>, sorted: seq<nat>) {
    Distinct(sorted) && (forall v :: v in sorted ==> v < |adj|) && (forall v :: 0 <= v < |adj| ==> v in sorted) &&
    DependenciesFirst(adj, sorted)
  }

  /** Along a walk in a dependencies-first order, every later node sits
      strictly earlier in the order than the first one. */
  lemma {:induction false} WalkDescends(adj: seq<seq<nat>>, sorted: seq<nat>, loop: seq<nat>, m: nat, i: nat)
    requires DependenciesFirst(adj, sorted)
    requires 1 <= m < |loop| && forall k :: 0 <= k < |loop| - 1 ==> loop[k] < |adj| && loop[k + 1] in adj[loop[k]]
    requires i < |sorted| && sorted[i] == loop[0]
    ensures loop[m] in sorted[..i]
    decreases m
  {
    if m > 1 {
      WalkDescends(adj, sorted, loop, m - 1, i);
      var j :| 0 <= j < i && sorted[j] == loop[m - 1];
      assert loop[m] in sorted[..j];
      var k :| 0 <= k < j && sorted[k] == loop[m];
      assert sorted[..i][k] == loop[m];
    }
  }

  /** A graph with a topological order has no cycle. */
  lemma OrderedIsAcyclic(adj: seq<seq<nat>>, sorted: seq<nat>)
    requires Ordering(adj, sorted)
    ensures !HasCycle(adj)
  {
    if HasCycle(adj) {
      var loop :| IsCycle(adj, loop);
      assert loop[0] in sorted;
      var i :| 0 <= i < |sorted| && sorted[i] == loop[0];
      WalkDescends(adj, sorted, loop, |loop| - 1, i);
    }
  }

  /** The nodes on the depth-first stack, each an edge from the one below. */
  predicate Chain(adj: seq<seq<nat>>, path: seq<nat>) {
    forall k :: 0 <= k < |path| ==> path[k] < |adj| && (k + 1 < |path| ==> path[k + 1] in adj[path[k]])
  }

  /** An edge back into the stack closes a cycle. */
  lemma CycleFromStack(adj: seq<seq<nat>>, path: seq<nat>, q: nat) returns (loop: seq<nat>)
    requires Chain(adj, path) && path != [] && q in path && q in adj[path[|path| - 1]]
    ensures IsCycle(adj, loop)
  {
    var k :| 0 <= k < |path| && path[k] == q;
    loop := path[k..] + [q];
    forall m | 0 <= m < |loop| - 1 ensures loop[m] < |adj| && loop[m + 1] in adj[loop[m]] {
      assert loop[m] == path[k + m];
      if m + 1 < |loop| - 1 {
        assert loop[m + 1] == path[k + m + 1];
      }
    }
  }

  /** The state of the depth-first search: finished nodes in `sorted`, open
      nodes on `path`, and `visited` is both together. */
  ghost predicate Searching(adj: seq<seq<nat>>, visited: set<nat>, path: seq<nat>, sorted: seq<nat>) {
    Distinct(sorted) && DependenciesFirst(adj, sorted) && Chain(adj, path) &&
    (forall v :: v in visited <==> v in sorted || v in path) &&
    (forall v :: v in path ==> v !in sorted)
  }

  /** The nodes of a graph with `n` of them. */
  function Nodes(n: nat): (r: set<nat>)
    ensures forall v: int :: v in r <==> 0 <= v < n
  {
    if n == 0 then {} else Nodes(n - 1) + {n - 1}
  }

  /** Visits `p` and everything reachable from it that is not yet visited,
      finishing each node after its successors; an edge back onto the stack
      stops the search with a cycle. */
  method Visit(adj: seq<seq<nat>>, p: nat, visited: set<nat>, path: seq<nat>, sorted: seq<nat>)
    returns (visited': set<nat>, sorted': seq<nat>, cycle: bool, ghost loop: seq<nat>)
    requires WellFormed(adj) && Searching(adj, visited, path, sorted)
    requires p < |adj| && p !in path && (path == [] || p in adj[path[|path| - 1]])
    ensures cycle ==> IsCycle(adj, loop)
    ensures !cycle ==>
      Searching(adj, visited', path, sorted') && p in sorted' && (forall v :: v in sorted ==> v in sorted')
    decreases Nodes(|adj|) - visited
  {
    loop := [];
    if p in visited {
      return visited, sorted, false, loop;
    }
    visited' := visited + {p};
    sorted' := sorted;
    cycle := false;
    var stack := path + [p];
    var edges := adj[p];
    for j := 0 to |edges|
      invariant Searching(adj, visited', stack, sorted') && visited + {p} <= visited'
      invariant forall v :: v in sorted ==> v in sorted'
      invariant forall k :: 0 <= k < j ==> edges[k] in sorted'
    {
      var q := edges[j];
      assert q in adj[p];
      if q in stack {
        loop := CycleFromStack(adj, stack, q);
        return visited', sorted', true, loop;
      }
      var v', s', c', l' := Visit(adj, q, visited', stack, sorted');
      if c' {
        return v', s', true, l';
      }
      visited', sorted' := v', s';
    }
    assert p !in sorted';
    forall i | 0 <= i < |sorted' + [p]|
      ensures (sorted' + [p])[i] < |adj| && forall q :: q in adj[(sorted' + [p])[i]] ==> q in (sorted' + [p])[..i]
    {
      if i < |sorted'| {
        assert (sorted' + [p])[..i] == sorted'[..i];
      } else {
        assert (sorted' + [p])[..i] == sorted';
      }
    }
    sorted' := sorted' + [p];
  }

  /** Runs the search from every node in order. With no cycle the result
      is a topological order of all nodes; a cycle is reported exactly when
      the graph has one. */
  method TopoSort(adj: seq<seq<nat>>) returns (sorted: seq<nat>, cycle: bool)
    requires WellFormed(adj)
    ensures cycle <==> HasCycle(adj)
    ensures !cycle ==> Ordering(adj, sorted)
    ensures forall i :: 0 <= i < |sorted| ==> sorted[i] < |adj|
  {
    var visited: set<nat> := {};
    sorted := [];
    for i := 0 to |adj|
      invariant Searching(adj, visited, [], sorted)
      invariant forall v :: 0 <= v < i ==> v in sorted
    {
      var v', s', c', loop := Visit(adj, i, visited, [], sorted);
      if c' {
        return sorted, true;
      }
      visited, sorted := v', s';
    }
    cycle := false;
    OrderedIsAcyclic(adj, sorted);
  }

  /** The archives the walk visits: the new-plugin file of each name in
      load order, skipping names without one. */
  function Archives(names: seq<string>, newPlugins: map<string, Path>): seq<Path>
    decreases |names|
  {
    if names == [] then []
    else
      var last := names[|names| - 1];
      Archives(names[..|names| - 1], newPlugins) + (if last in newPlugins then [newPlugins[last]] else [])
  }

  lemma {:induction false} ArchivesPrefix(names: seq<string>, newPlugins: map<string, Path>, i: nat)
    requires i <= |names|
    ensures var a := Archives(names[..i], newPlugins);
      |a| <= |Archives(names, newPlugins)| && Archives(names, newPlugins)[..|a|] == a
    decreases |names| - i
  {
    if i < |names| {
      ArchivesPrefix(names, newPlugins, i + 1);
      assert names[..i + 1][..i] == names[..i];
    } else {
      assert names[..i] == names;
    }
  }

  /** Every name with a new-plugin file contributes that file. */
  lemma {:induction false} ArchivesCover(names: seq<string>, newPlugins: map<string, Path>, n: string)
    requires n in names && n in newPlugins
    ensures newPlugins[n] in Archives(names, newPlugins)
    decreases |names|
  {
    if names[|names| - 1] != n {
      assert n in names[..|names| - 1];
      ArchivesCover(names[..|names| - 1], newPlugins, n);
    }
  }

  /** Every archive the walk visits is a new-plugin file. */
  lemma {:induction false} ArchivesAreNew(names: seq<string>, newPlugins: map<string, Path>, p: Path)
    requires p in Archives(names, newPlugins)
    ensures exists k :: k in newPlugins && newPlugins[k] == p
    decreases |names|
  {
    var last := names[|names| - 1];
    if p !in Archives(names[..|names| - 1], newPlugins) {
      assert newPlugins[last] == p;
    } else {
      ArchivesAreNew(names[..|names| - 1], newPlugins, p);
    }
  }

  /** Loading `archives` in order stopped at the first failure: `loaded`
      is the prefix that loaded, each after the ones before it, and the walk
      failed exactly when it did not reach the end, on an archive that
      would not load. `load(done, archive)` is the host's dynamic load of
      `archive` after the archives in `done`. */
  predicate LoadedUntilFailure(archives: seq<Path>, loaded: seq<Path>, failed: bool, load: (seq<Path>, Path) -> bool) {
    |loaded| <= |archives| && loaded == archives[..|loaded|] &&
    (forall k :: 0 <= k < |loaded| ==> load(archives[..k], archives[k])) &&
    (failed <==> |loaded| < |archives|) &&
    (failed ==> !load(loaded, archives[|loaded|]))
  }

  /** The hot-load walk over the names in load order. */
  method Walk(names: seq<string>, newPlugins: map<string, Path>, load: (seq<Path>, Path) -> bool)
    returns (loaded: seq<Path>, failed: bool)
    ensures LoadedUntilFailure(Archives(names, newPlugins), loaded, failed, load)
  {
    ghost var archives := Archives(names, newPlugins);
    loaded := [];
    failed := false;
    var i := 0;
    while i < |names|
      invariant 0 <= i <= |names| && loaded == Archives(names[..i], newPlugins)
      invariant forall k :: 0 <= k < |loaded| ==> load(loaded[..k], loaded[k])
    {
      assert names[..i + 1][..i] == names[..i];
      var name := names[i];
      if name !in newPlugins {
        i := i + 1;
        continue;
      }
      var archive := newPlugins[name];
      if !load(loaded, archive) {
        ArchivesPrefix(names, newPlugins, i + 1);
        assert Archives(names[..i + 1], newPlugins) == loaded + [archive];
        failed := true;
        break;
      }
      ghost var prev := loaded;
      loaded := loaded + [archive];
      forall k | 0 <= k < |loaded| ensures load(loaded[..k], loaded[k]) {
        if k < |prev| {
          assert loaded[..k] == prev[..k];
        } else {
          assert loaded[..k] == prev;
        }
      }
      i := i + 1;
    }
    ArchivesPrefix(names, newPlugins, i);
    if !failed {
      assert names[..i] == names;
    }
    forall k | 0 <= k < |loaded| ensures archives[..k] == loaded[..k] {
    }
  }
}
