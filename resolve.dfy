/**
 * The first stages of refresh: wrapping every staged archive, dropping the
 * ones an installed plugin already covers or the filters exclude, closing
 * the INCLUDE set over dependencies, and pruning to the INCLUDE entries.
 */
module Resolve {
  import opened Common
  import WrapperFilter

  /** An entry of the wrapper-to-decision map: the wrapped manifest, the
      staged archive it came from, and the current decision. */
  datatype Candidate = Candidate(plugin: Manifest, archive: Path, decision: WrapperFilter.Decision)

  /** The candidates, or the Error a filter threw, which leaves refresh. */
  datatype Gathered = Gathered(candidates: seq<Candidate>) | Thrown

  /** An installed counterpart that is enabled or active and not older than
      the candidate: the candidate is not even offered to the filters. */
  predicate Dominated(m: Manifest, reg: Registry) {
    m.shortName in reg && Live(reg[m.shortName]) && !(m.version > reg[m.shortName].version)
  }

  /** Wrapping a staged archive; a missing file fails like an unreadable one. */
  function WrapFile(p: Path, files: Files, wrap: Bytes -> Option<Manifest>): Option<Manifest> {
    if p in files then wrap(files[p].content) else None
  }

  /** Reference definition of the initial wrapper-to-decision map, built
      from the staged archives in order: failed wraps and dominated
      candidates are skipped, an Error from the filters ends the stage, and
      an EXCLUDE drops the candidate. */
  function Gather(staged: seq<Path>, files: Files, reg: Registry, wrap: Bytes -> Option<Manifest>,
                  votes: (Manifest, Path) -> seq<WrapperFilter.Vote>): Gathered
    decreases |staged|
  {
    if staged == [] then Gathered([])
    else
      var prev := Gather(staged[..|staged| - 1], files, reg, wrap, votes);
      var p := staged[|staged| - 1];
      if prev.Thrown? then Thrown
      else match WrapFile(p, files, wrap)
        case None => prev
        case Some(m) =>
          if Dominated(m, reg) then prev
          else match WrapperFilter.Aggregate(votes(m, p))
            case Propagated => Thrown
            case Decided(d) =>
              if d == WrapperFilter.Exclude then prev
              else Gathered(prev.candidates + [Candidate(m, p, d)])
  }

  /** What one staged archive contributes to the map. */
  ghost predicate Admitted(c: Candidate, staged: seq<Path>, files: Files, reg: Registry,
                           wrap: Bytes -> Option<Manifest>, votes: (Manifest, Path) -> seq<WrapperFilter.Vote>) {
    c.archive in staged && WrapFile(c.archive, files, wrap) == Some(c.plugin) &&
    !Dominated(c.plugin, reg) &&
    WrapperFilter.Aggregate(votes(c.plugin, c.archive)) == WrapperFilter.Decided(c.decision) &&
    c.decision != WrapperFilter.Exclude
  }

  /** A staged archive whose filters throw an Error. */
  ghost predicate Throws(p: Path, files: Files, reg: Registry, wrap: Bytes -> Option<Manifest>,
                         votes: (Manifest, Path) -> seq<WrapperFilter.Vote>) {
    WrapFile(p, files, wrap).Some? && !Dominated(WrapFile(p, files, wrap).value, reg) &&
    WrapperFilter.Aggregate(votes(WrapFile(p, files, wrap).value, p)) == WrapperFilter.Propagated
  }

  /** Every gathered candidate is admitted: it wraps to its manifest, no
      enabled-or-active installed counterpart is as new, and the filters did
      not exclude it; and the stage throws exactly when some archive's
      filters throw. */
  lemma {:induction false} GatherSound(staged: seq<Path>, files: Files, reg: Registry, wrap: Bytes -> Option<Manifest>,
                                       votes: (Manifest, Path) -> seq<WrapperFilter.Vote>)
    ensures var g := Gather(staged, files, reg, wrap, votes);
      (g.Thrown? <==> exists k :: 0 <= k < |staged| && Throws(staged[k], files, reg, wrap, votes)) &&
      (g.Gathered? ==> forall c :: c in g.candidates ==> Admitted(c, staged, files, reg, wrap, votes))
    decreases |staged|
  {
    if staged != [] {
      var init := staged[..|staged| - 1];
      GatherSound(init, files, reg, wrap, votes);
      var g := Gather(staged, files, reg, wrap, votes);
      var prev := Gather(init, files, reg, wrap, votes);
      if (exists k :: 0 <= k < |init| && Throws(init[k], files, reg, wrap, votes)) {
        var k :| 0 <= k < |init| && Throws(init[k], files, reg, wrap, votes);
        assert staged[k] == init[k];
      }
      if (exists k :: 0 <= k < |staged| && Throws(staged[k], files, reg, wrap, votes)) {
        var k :| 0 <= k < |staged| && Throws(staged[k], files, reg, wrap, votes);
        if k < |init| {
          assert init[k] == staged[k];
        }
      }
      if g.Gathered? {
        forall c | c in g.candidates ensures Admitted(c, staged, files, reg, wrap, votes) {
          if c in prev.candidates {
            assert Admitted(c, init, files, reg, wrap, votes);
          }
        }
      }
    }
  }

  /** Conversely, every admissible archive yields a candidate with the
      filters' decision. */
  lemma {:induction false} GatherComplete(staged: seq<Path>, files: Files, reg: Registry, wrap: Bytes -> Option<Manifest>,
                                          votes: (Manifest, Path) -> seq<WrapperFilter.Vote>, k: nat, d: WrapperFilter.Decision)
    requires k < |staged| && Gather(staged, files, reg, wrap, votes).Gathered?
    requires WrapFile(staged[k], files, wrap).Some? && !Dominated(WrapFile(staged[k], files, wrap).value, reg)
    requires WrapperFilter.Aggregate(votes(WrapFile(staged[k], files, wrap).value, staged[k])) == WrapperFilter.Decided(d)
    requires d != WrapperFilter.Exclude
    ensures Candidate(WrapFile(staged[k], files, wrap).value, staged[k], d) in Gather(staged, files, reg, wrap, votes).candidates
    decreases |staged|
  {
    var init := staged[..|staged| - 1];
    if k < |init| {
      assert init[k] == staged[k];
      GatherComplete(init, files, reg, wrap, votes, k, d);
    }
  }

  /** The names an INCLUDE entry pulls in: all its required dependencies, and
      each optional dependency whose installed counterpart is enabled or
      active but older than the declared minimum. */
  function Demanded(m: Manifest, reg: Registry): set<string> {
    (set d | d in m.dependencies :: d.shortName) +
    (set d | d in m.optionalDependencies && d.shortName in reg && Live(reg[d.shortName]) &&
             reg[d.shortName].version < d.version :: d.shortName)
  }

  /** The upscale set of one pass: the names demanded by the INCLUDE entries. */
  function Upscale(es: seq<Candidate>, reg: Registry): set<string>
    decreases |es|
  {
    if es == [] then {}
    else
      Upscale(es[..|es| - 1], reg) +
      (if es[|es| - 1].decision == WrapperFilter.Include then Demanded(es[|es| - 1].plugin, reg) else {})
  }

  lemma {:induction false} UpscaleMembers(es: seq<Candidate>, reg: Registry, n: string)
    ensures n in Upscale(es, reg) <==>
      exists j :: 0 <= j < |es| && es[j].decision == WrapperFilter.Include && n in Demanded(es[j].plugin, reg)
    decreases |es|
  {
    if es != [] {
      var init := es[..|es| - 1];
      UpscaleMembers(init, reg, n);
      if n in Upscale(init, reg) {
        var j :| 0 <= j < |init| && init[j].decision == WrapperFilter.Include && n in Demanded(init[j].plugin, reg);
        assert es[j] == init[j];
      }
      if exists j :: 0 <= j < |es| && es[j].decision == WrapperFilter.Include && n in Demanded(es[j].plugin, reg) {
        var j :| 0 <= j < |es| && es[j].decision == WrapperFilter.Include && n in Demanded(es[j].plugin, reg);
        if j < |init| {
          assert init[j] == es[j];
        }
      }
    }
  }

  /** One entry after a pass: a non-INCLUDE entry whose name is in the
      upscale set becomes INCLUDE. */
  function Promote(e: Candidate, upscale: set<string>): Candidate {
    if e.decision != WrapperFilter.Include && e.plugin.shortName in upscale
    then e.(decision := WrapperFilter.Include) else e
  }

  /** One pass of the closure loop: the upscale set is computed first, then
      applied to every entry. */
  function Pass(es: seq<Candidate>, reg: Registry): seq<Candidate> {
    var upscale := Upscale(es, reg);
    seq(|es|, i requires 0 <= i < |es| => Promote(es[i], upscale))
  }

  /** The number of entries not yet INCLUDE. */
  function Open(es: seq<Candidate>): nat
    decreases |es|
  {
    if es == [] then 0
    else Open(es[..|es| - 1]) + (if es[|es| - 1].decision != WrapperFilter.Include then 1 else 0)
  }

  lemma {:induction false} OpenShrinks(a: seq<Candidate>, b: seq<Candidate>, k: nat)
    requires |a| == |b| && k < |a|
    requires forall i :: 0 <= i < |a| && a[i].decision == WrapperFilter.Include ==> b[i].decision == WrapperFilter.Include
    requires a[k].decision != WrapperFilter.Include && b[k].decision == WrapperFilter.Include
    ensures Open(b) < Open(a)
    decreases |a|
  {
    var n := |a| - 1;
    if k < n {
      OpenShrinks(a[..n], b[..n], k);
    } else {
      OpenNoGrow(a[..n], b[..n]);
    }
  }

  lemma {:induction false} OpenNoGrow(a: seq<Candidate>, b: seq<Candidate>)
    requires |a| == |b|
    requires forall i :: 0 <= i < |a| && a[i].decision == WrapperFilter.Include ==> b[i].decision == WrapperFilter.Include
    ensures Open(b) <= Open(a)
    decreases |a|
  {
    if a != [] {
      OpenNoGrow(a[..|a| - 1], b[..|b| - 1]);
    }
  }

  /** A pass that changes something includes at least one more entry. */
  lemma PassProgress(es: seq<Candidate>, reg: Registry)
    requires Pass(es, reg) != es
    ensures Open(Pass(es, reg)) < Open(es)
  {
    var next := Pass(es, reg);
    var k :| 0 <= k < |es| && next[k] != es[k];
    OpenShrinks(es, next, k);
  }

  /** Reference definition of the closure: passes until one changes
      nothing. */
  function Closure(es: seq<Candidate>, reg: Registry): (r: seq<Candidate>)
    ensures |r| == |es|
    decreases Open(es)
  {
    var next := Pass(es, reg);
    if next == es then es
    else
      PassProgress(es, reg);
      Closure(next, reg)
  }

  /** `S`, a set of entry indices, is closed: no entry outside it is
      demanded by an entry inside it. */
  ghost predicate ClosedUnder(es: seq<Candidate>, reg: Registry, S: set<int>) {
    forall i, j :: 0 <= i < |es| && 0 <= j < |es| && j in S && i !in S ==>
      es[i].plugin.shortName !in Demanded(es[j].plugin, reg)
  }

  ghost function IncludedIndices(es: seq<Candidate>): set<int> {
    set i | 0 <= i < |es| && es[i].decision == WrapperFilter.Include
  }

  /** The closure changes decisions only, and only to INCLUDE. */
  lemma {:induction false} ClosureMonotone(es: seq<Candidate>, reg: Registry)
    ensures var r := Closure(es, reg);
      |r| == |es| &&
      forall i :: 0 <= i < |es| ==>
        r[i].plugin == es[i].plugin && r[i].archive == es[i].archive &&
        (r[i].decision == es[i].decision || r[i].decision == WrapperFilter.Include)
    decreases Open(es)
  {
    var next := Pass(es, reg);
    if next != es {
      PassProgress(es, reg);
      ClosureMonotone(next, reg);
    }
  }

  /** At exit no pass changes anything: every entry demanded by an INCLUDE
      entry (a required dependency, or an optional one whose installed
      counterpart is live and too old) is INCLUDE. */
  lemma {:induction false} ClosureComplete(es: seq<Candidate>, reg: Registry)
    ensures Pass(Closure(es, reg), reg) == Closure(es, reg)
    ensures ClosedUnder(Closure(es, reg), reg, IncludedIndices(Closure(es, reg)))
    decreases Open(es)
  {
    var next := Pass(es, reg);
    if next != es {
      PassProgress(es, reg);
      ClosureComplete(next, reg);
    } else {
      var r := Closure(es, reg);
      assert r == es;
      forall i, j | 0 <= i < |r| && 0 <= j < |r| && j in IncludedIndices(r) && i !in IncludedIndices(r)
        ensures r[i].plugin.shortName !in Demanded(r[j].plugin, reg)
      {
        UpscaleMembers(r, reg, r[i].plugin.shortName);
        assert next[i] == Promote(r[i], Upscale(r, reg));
      }
    }
  }

  /** The closure adds no more than it must: every closed index set holding
      the initial INCLUDE entries holds all INCLUDE entries at exit. */
  lemma {:induction false} ClosureLeast(es: seq<Candidate>, reg: Registry, S: set<int>)
    requires forall i :: 0 <= i < |es| && es[i].decision == WrapperFilter.Include ==> i in S
    requires ClosedUnder(es, reg, S)
    ensures forall i :: 0 <= i < |es| && Closure(es, reg)[i].decision == WrapperFilter.Include ==> i in S
    decreases Open(es)
  {
    ClosureMonotone(es, reg);
    var next := Pass(es, reg);
    if next != es {
      forall i | 0 <= i < |es| && next[i].decision == WrapperFilter.Include ensures i in S {
        if es[i].decision != WrapperFilter.Include {
          assert next[i] == Promote(es[i], Upscale(es, reg));
          UpscaleMembers(es, reg, es[i].plugin.shortName);
        }
      }
      assert ClosedUnder(next, reg, S) by {
        forall i, j | 0 <= i < |next| && 0 <= j < |next| && j in S && i !in S
          ensures next[i].plugin.shortName !in Demanded(next[j].plugin, reg)
        {
          assert next[i].plugin == es[i].plugin && next[j].plugin == es[j].plugin;
        }
      }
      PassProgress(es, reg);
      ClosureLeast(next, reg, S);
    }
  }

  /** The entries still INCLUDE, in order: the map after the iterator
      removes every other entry. */
  function Included(es: seq<Candidate>): seq<Candidate>
    decreases |es|
  {
    if es == [] then []
    else Included(es[..|es| - 1]) + (if es[|es| - 1].decision == WrapperFilter.Include then [es[|es| - 1]] else [])
  }

  lemma {:induction false} IncludedMembers(es: seq<Candidate>)
    ensures forall c :: c in Included(es) <==> c in es && c.decision == WrapperFilter.Include
    decreases |es|
  {
    if es != [] {
      IncludedMembers(es[..|es| - 1]);
      assert es == es[..|es| - 1] + [es[|es| - 1]];
    }
  }

  /** A candidate dropped before the closure is never activated: whatever
      survives the closure and the pruning was admitted, so no enabled or
      active installed plugin is as new and the filters did not exclude
      it. */
  lemma DroppedNeverIncluded(staged: seq<Path>, files: Files, reg: Registry, wrap: Bytes -> Option<Manifest>,
                             votes: (Manifest, Path) -> seq<WrapperFilter.Vote>)
    requires Gather(staged, files, reg, wrap, votes).Gathered?
    ensures var es := Gather(staged, files, reg, wrap, votes).candidates;
      forall c :: c in Included(Closure(es, reg)) ==>
        c.archive in staged && WrapFile(c.archive, files, wrap) == Some(c.plugin) &&
        !Dominated(c.plugin, reg) &&
        WrapperFilter.Aggregate(votes(c.plugin, c.archive)) != WrapperFilter.Decided(WrapperFilter.Exclude)
  {
    var es := Gather(staged, files, reg, wrap, votes).candidates;
    GatherSound(staged, files, reg, wrap, votes);
    ClosureMonotone(es, reg);
    IncludedMembers(Closure(es, reg));
    forall c | c in Included(Closure(es, reg))
      ensures c.archive in staged && WrapFile(c.archive, files, wrap) == Some(c.plugin) &&
        !Dominated(c.plugin, reg) &&
        WrapperFilter.Aggregate(votes(c.plugin, c.archive)) != WrapperFilter.Decided(WrapperFilter.Exclude)
    {
      var i :| 0 <= i < |Closure(es, reg)| && Closure(es, reg)[i] == c;
      assert Admitted(es[i], staged, files, reg, wrap, votes);
    }
  }

  /** Builds the wrapper-to-decision map from the staged archives. */
  method GatherCandidates(staged: seq<Path>, files: Files, reg: Registry, wrap: Bytes -> Option<Manifest>,
                          votes: (Manifest, Path) -> seq<WrapperFilter.Vote>)
    returns (g: Gathered)
    ensures g == Gather(staged, files, reg, wrap, votes)
  {
    var candidates: seq<Candidate> := [];
    for i := 0 to |staged|
      invariant Gather(staged[..i], files, reg, wrap, votes) == Gathered(candidates)
    {
      assert staged[..i + 1][..i] == staged[..i];
      var plugin := staged[i];
      var wrapper := WrapFile(plugin, files, wrap);
      if wrapper.None? {
        continue;
      }
      var m := wrapper.value;
      if m.shortName in reg && Live(reg[m.shortName]) && !(m.version > reg[m.shortName].version) {
        continue;
      }
      var decision, consulted := WrapperFilter.Decide(votes(m, plugin));
      if decision.Propagated? {
        GatherThrownStays(staged, files, reg, wrap, votes, i + 1);
        assert staged[..|staged|] == staged;
        return Thrown;
      }
      if decision.decision != WrapperFilter.Exclude {
        candidates := candidates + [Candidate(m, plugin, decision.decision)];
      }
    }
    assert staged[..|staged|] == staged;
    g := Gathered(candidates);
  }

  lemma {:induction false} GatherThrownStays(staged: seq<Path>, files: Files, reg: Registry, wrap: Bytes -> Option<Manifest>,
                                             votes: (Manifest, Path) -> seq<WrapperFilter.Vote>, k: nat)
    requires k <= |staged| && Gather(staged[..k], files, reg, wrap, votes).Thrown?
    ensures Gather(staged, files, reg, wrap, votes).Thrown?
    decreases |staged| - k
  {
    if k < |staged| {
      assert staged[..k + 1][..k] == staged[..k];
      GatherThrownStays(staged, files, reg, wrap, votes, k + 1);
    } else {
      assert staged[..k] == staged;
    }
  }

  /** Adds the names `m` demands to `upscale` (the two inner loops of a
      pass). */
  method AddDemands(upscale: set<string>, m: Manifest, reg: Registry) returns (r: set<string>)
    ensures r == upscale + Demanded(m, reg)
  {
    r := upscale;
    for j := 0 to |m.dependencies|
      invariant r == upscale + (set d | d in m.dependencies[..j] :: d.shortName)
    {
      assert m.dependencies[..j + 1] == m.dependencies[..j] + [m.dependencies[j]];
      r := r + {m.dependencies[j].shortName};
    }
    assert m.dependencies[..|m.dependencies|] == m.dependencies;
    ghost var required := r;
    for j := 0 to |m.optionalDependencies|
      invariant r == required +
        (set d | d in m.optionalDependencies[..j] && d.shortName in reg && Live(reg[d.shortName]) &&
                 reg[d.shortName].version < d.version :: d.shortName)
    {
      assert m.optionalDependencies[..j + 1] == m.optionalDependencies[..j] + [m.optionalDependencies[j]];
      var d := m.optionalDependencies[j];
      if d.shortName in reg && (reg[d.shortName].enabled || reg[d.shortName].active) {
        if reg[d.shortName].version < d.version {
          r := r + {d.shortName};
        }
      }
    }
    assert m.optionalDependencies[..|m.optionalDependencies|] == m.optionalDependencies;
  }

  /** The upscale set of the current map. */
  method CollectUpscale(es: seq<Candidate>, reg: Registry) returns (upscale: set<string>)
    ensures upscale == Upscale(es, reg)
  {
    upscale := {};
    for i := 0 to |es|
      invariant upscale == Upscale(es[..i], reg)
    {
      assert es[..i + 1][..i] == es[..i];
      if es[i].decision != WrapperFilter.Include {
        continue;
      }
      upscale := AddDemands(upscale, es[i].plugin, reg);
    }
    assert es[..|es|] == es;
  }

  /** The closure loop: passes until one changes nothing. */
  method Close(es: seq<Candidate>, reg: Registry) returns (r: seq<Candidate>)
    ensures r == Closure(es, reg)
  {
    r := es;
    var changed := true;
    while changed
      invariant Closure(r, reg) == Closure(es, reg)
      invariant !changed ==> Pass(r, reg) == r
      decreases Open(r) + (if changed then 1 else 0)
    {
      changed := false;
      var upscale := CollectUpscale(r, reg);
      ghost var before := r;
      for i := 0 to |r|
        invariant |r| == |before|
        invariant forall k :: 0 <= k < i ==> r[k] == Promote(before[k], upscale)
        invariant forall k :: i <= k < |r| ==> r[k] == before[k]
        invariant changed <==> exists k :: 0 <= k < i && r[k] != before[k]
      {
        if r[i].decision == WrapperFilter.Include {
          continue;
        }
        if r[i].plugin.shortName in upscale {
          changed := true;
          r := r[i := r[i].(decision := WrapperFilter.Include)];
        }
      }
      assert r == Pass(before, reg);
      if changed {
        PassProgress(before, reg);
      } else {
        assert r == before;
      }
    }
  }

  /** Removes every entry that is not INCLUDE. */
  method Prune(es: seq<Candidate>) returns (r: seq<Candidate>)
    ensures r == Included(es)
  {
    r := [];
    for i := 0 to |es|
      invariant r == Included(es[..i])
    {
      assert es[..i + 1][..i] == es[..i];
      if es[i].decision == WrapperFilter.Include {
        r := r + [es[i]];
      }
    }
    assert es[..|es|] == es;
  }
}
