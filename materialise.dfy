/**
 * Materialisation: for each surviving candidate, the legacy `.hpi` files in
 * the plugin directory are renamed to `.jpi`, the archive is written when
 * absent or changed and unpinned, and a `.disabled` marker is created for a
 * candidate that cannot be enabled.
 */
module Materialise {
  import opened Common
  import Resolve
  import Versions

  /** `<name>.jpi` in the plugin directory. */
  function PluginFile(sn: string): Path {
    Path(PluginDir, sn + ".jpi")
  }

  function PinFile(sn: string): Path {
    Path(PluginDir, sn + ".jpi.pinned")
  }

  function DisableFile(sn: string): Path {
    Path(PluginDir, sn + ".jpi.disabled")
  }

  /** The legacy name: every ".jpi" in `<name>.jpi` replaced by ".hpi". */
  function LegacyName(sn: string): string {
    ReplaceAll(sn + ".jpi", ".jpi", ".hpi")
  }

  function LegacyFile(sn: string): Path {
    Path(PluginDir, LegacyName(sn))
  }

  function LegacyPinFile(sn: string): Path {
    Path(PluginDir, LegacyName(sn) + ".pinned")
  }

  function LegacyDisableFile(sn: string): Path {
    Path(PluginDir, LegacyName(sn) + ".disabled")
  }

  /** Reference definition of rename: nothing when the legacy file is
      absent; otherwise the destination is deleted and the legacy file moved
      onto it. */
  function Renamed(files: Files, legacyFile: Path, newFile: Path): Files {
    if legacyFile !in files then files
    else
      var cleared := files - {newFile};
      if legacyFile in cleared then (cleared - {legacyFile})[newFile := cleared[legacyFile]] else cleared
  }

  /** The three renames of one candidate, in order. */
  function Normalised(files: Files, sn: string): Files {
    var f := Renamed(files, LegacyFile(sn), PluginFile(sn));
    var f' := Renamed(f, LegacyPinFile(sn), PinFile(sn));
    Renamed(f', LegacyDisableFile(sn), DisableFile(sn))
  }

  /** A file's modification time, 0 for a missing file. */
  function ModifiedTime(files: Files, p: Path): int {
    if p in files then files[p].lastModified else 0
  }

  /** The archive is to be written: it is absent, or its modification time
      differs from the staged archive's and it is not pinned. */
  predicate NeedsWrite(files: Files, sn: string, lastModified: int) {
    PluginFile(sn) !in files || (files[PluginFile(sn)].lastModified != lastModified && PinFile(sn) !in files)
  }

  /** An active installed counterpart makes the candidate skip everything
      when it has the same version, is newer, or is pinned. */
  predicate SkipsActive(m: Manifest, reg: Registry) {
    m.shortName in reg && reg[m.shortName].active &&
    (reg[m.shortName].version == m.version || reg[m.shortName].version > m.version || reg[m.shortName].pinned)
  }

  /** The outcome of one candidate: the new files, whether the archive was
      written (and so enters the new-plugin map), and whether it raised the
      restart flag. */
  datatype Outcome = Outcome(files: Files, written: bool, restart: bool)

  /** Reference definition of one turn of the materialisation loop. The
      copy keeps the staged archive's modification time; it fails, writing
      nothing, when the staged archive is missing. */
  function MaterialiseOne(c: Resolve.Candidate, reg: Registry, enable: set<string>, files: Files, now: int): Outcome {
    var sn := c.plugin.shortName;
    if SkipsActive(c.plugin, reg) then Outcome(files, false, false)
    else
      var restart := sn in reg && reg[sn].active;
      var normal := Normalised(files, sn);
      var lastModified := ModifiedTime(normal, c.archive);
      var written := NeedsWrite(normal, sn, lastModified) && c.archive in normal;
      var copied := if written then normal[PluginFile(sn) := FileEntry(normal[c.archive].content, lastModified)] else normal;
      var marked := if sn !in enable then copied[DisableFile(sn) := FileEntry([], now)] else copied;
      Outcome(marked, written, restart)
  }

  /** The state after the whole loop. */
  datatype Materialised = Materialised(files: Files, newPlugins: map<string, Path>, restart: bool)

  /** Reference definition of the materialisation loop over the surviving
      candidates. */
  function MaterialiseAll(kept: seq<Resolve.Candidate>, reg: Registry, enable: set<string>, files: Files, now: int): Materialised
    decreases |kept|
  {
    if kept == [] then Materialised(files, map[], false)
    else
      var prev := MaterialiseAll(kept[..|kept| - 1], reg, enable, files, now);
      var c := kept[|kept| - 1];
      var o := MaterialiseOne(c, reg, enable, prev.files, now);
      Materialised(o.files,
        if o.written then prev.newPlugins[c.plugin.shortName := PluginFile(c.plugin.shortName)] else prev.newPlugins,
        prev.restart || o.restart)
  }

  /** A match of ".jpi" cannot start inside the first three characters of
      the final ".jpi", as the pattern does not overlap itself. */
  lemma NoEarlyMatch(s: string)
    requires 0 < |s| < 4
    ensures (s + ".jpi")[..4] != ".jpi"
  {
    var t := s + ".jpi";
    assert t[|s|] == '.';
    assert ".jpi"[|s|] != '.';
  }

  lemma {:induction false} ReplaceKeepsJpiSuffix(s: string)
    ensures EndsWith(ReplaceAll(s + ".jpi", ".jpi", ".hpi"), ".hpi")
    decreases |s|
  {
    var t := s + ".jpi";
    if 0 < |s| < 4 {
      NoEarlyMatch(s);
    }
    if t[..4] == ".jpi" {
      if |s| >= 4 {
        assert s[..4] == t[..4];
        assert t[4..] == s[4..] + ".jpi";
        ReplaceKeepsJpiSuffix(s[4..]);
      }
    } else {
      assert t[1..] == s[1..] + ".jpi";
      ReplaceKeepsJpiSuffix(s[1..]);
    }
  }

  /** Which kind of plugin-directory file a name is, by its ending. */
  predicate IsArchive(name: string) { EndsWith(name, ".jpi") }
  predicate IsLegacy(name: string) { EndsWith(name, ".hpi") }
  predicate IsPin(name: string) { EndsWith(name, ".pinned") }
  predicate IsDisable(name: string) { EndsWith(name, ".disabled") }

  /** No name is of two kinds. */
  lemma KindsDisjoint(name: string)
    ensures !(IsArchive(name) && IsLegacy(name)) && !(IsPin(name) && IsDisable(name))
    ensures !((IsArchive(name) || IsLegacy(name)) && (IsPin(name) || IsDisable(name)))
  {
    var n := |name|;
    assert IsArchive(name) ==> name[n - 1] == 'i' && name[n - 3] == 'j';
    assert IsLegacy(name) ==> name[n - 1] == 'i' && name[n - 3] == 'h';
    assert IsPin(name) ==> name[n - 1] == 'd' && name[n - 3] == 'n';
    assert IsDisable(name) ==> name[n - 1] == 'd' && name[n - 3] == 'l';
  }

  lemma StripSuffix(a: string, b: string, x: string)
    ensures a + x == b + x ==> a == b
  {
    assert (a + x)[..|a|] == a;
    assert (b + x)[..|b|] == b;
  }

  /** The legacy name always ends in ".hpi", and every file of a candidate
      is of the kind its name says. */
  lemma PathKinds(sn: string)
    ensures IsLegacy(LegacyName(sn))
    ensures IsArchive(PluginFile(sn).name) && IsLegacy(LegacyFile(sn).name)
    ensures IsPin(PinFile(sn).name) && IsDisable(DisableFile(sn).name)
    ensures IsPin(LegacyPinFile(sn).name) && IsDisable(LegacyDisableFile(sn).name)
  {
    ReplaceKeepsJpiSuffix(sn);
    assert (sn + ".jpi")[|sn|..] == ".jpi";
    assert (sn + ".jpi.pinned")[|sn| + 4..] == ".pinned";
    assert (sn + ".jpi.disabled")[|sn| + 4..] == ".disabled";
    assert (LegacyName(sn) + ".pinned")[|LegacyName(sn)|..] == ".pinned";
    assert (LegacyName(sn) + ".disabled")[|LegacyName(sn)|..] == ".disabled";
  }

  /** No rename of a candidate's files moves a file onto itself. */
  lemma OwnFilesDistinct(sn: string)
    ensures LegacyFile(sn) != PluginFile(sn)
    ensures LegacyPinFile(sn) != PinFile(sn)
    ensures LegacyDisableFile(sn) != DisableFile(sn)
  {
    PathKinds(sn);
    KindsDisjoint(LegacyName(sn));
    KindsDisjoint(sn + ".jpi");
    StripSuffix(LegacyName(sn), sn + ".jpi", ".pinned");
    StripSuffix(LegacyName(sn), sn + ".jpi", ".disabled");
    assert sn + ".jpi.pinned" == sn + ".jpi" + ".pinned";
    assert sn + ".jpi.disabled" == sn + ".jpi" + ".disabled";
  }

  lemma PluginFileInjective(a: string, b: string)
    ensures PluginFile(a) == PluginFile(b) ==> a == b
  {
    StripSuffix(a, b, ".jpi");
  }

  /** Because the baseline exclusion dropped every candidate with an
      enabled or active counterpart that is not older, an active
      counterpart of a surviving candidate is always older: the same-version
      and installed-newer branches never fire, and a candidate skips exactly
      when its active counterpart is pinned. */
  lemma DeadBranches(m: Manifest, reg: Registry)
    requires !Resolve.Dominated(m, reg)
    ensures m.shortName in reg && reg[m.shortName].active ==>
      reg[m.shortName].version != m.version && !(reg[m.shortName].version > m.version)
    ensures SkipsActive(m, reg) <==> m.shortName in reg && reg[m.shortName].active && reg[m.shortName].pinned
  {
  }

  /** An active, pinned counterpart makes the candidate skip entirely: no
      write, no marker, no restart. */
  lemma PinnedActiveSkips(c: Resolve.Candidate, reg: Registry, enable: set<string>, files: Files, now: int)
    requires c.plugin.shortName in reg && reg[c.plugin.shortName].active && reg[c.plugin.shortName].pinned
    ensures MaterialiseOne(c, reg, enable, files, now) == Outcome(files, false, false)
  {
  }

  /** A restart raised here was already raised by the feasibility check:
      the counterpart is active and, as the candidate did not skip, not
      pinned. */
  lemma {:induction false} RestartAlreadyFlagged(kept: seq<Resolve.Candidate>, reg: Registry, enable: set<string>, files: Files, now: int)
    ensures MaterialiseAll(kept, reg, enable, files, now).restart ==>
      exists i :: 0 <= i < |kept| && Versions.Blocks(kept[i].plugin, reg)
    decreases |kept|
  {
    if kept != [] {
      var init := kept[..|kept| - 1];
      RestartAlreadyFlagged(init, reg, enable, files, now);
      if MaterialiseAll(init, reg, enable, files, now).restart {
        var i :| 0 <= i < |init| && Versions.Blocks(init[i].plugin, reg);
        assert kept[i] == init[i];
      }
    }
  }

  /** What a rename does to the two files it names. */
  lemma RenamedAt(files: Files, legacyFile: Path, newFile: Path)
    requires legacyFile != newFile
    ensures var r := Renamed(files, legacyFile, newFile);
      legacyFile !in r &&
      (newFile in r <==> newFile in files || legacyFile in files) &&
      (legacyFile in files ==> r[newFile] == files[legacyFile]) &&
      (legacyFile !in files && newFile in files ==> r[newFile] == files[newFile])
  {
  }

  /** A rename leaves every other file as it was. */
  lemma RenamedElsewhere(files: Files, legacyFile: Path, newFile: Path, p: Path)
    requires p != legacyFile && p != newFile
    ensures var r := Renamed(files, legacyFile, newFile);
      (p in r <==> p in files) && (p in r ==> r[p] == files[p])
  {
  }

  /** The archive, pin marker and disable marker after the three renames,
      in terms of the files before them. */
  lemma NormalisedAt(files: Files, sn: string)
    ensures var r := Normalised(files, sn);
      var a := PluginFile(sn);
      var l := LegacyFile(sn);
      LegacyFile(sn) !in r &&
      (a in r <==> a in files || l in files) &&
      (l in files ==> r[a] == files[l]) &&
      (l !in files && a in files ==> r[a] == files[a]) &&
      (PinFile(sn) in r <==> PinFile(sn) in files || LegacyPinFile(sn) in files) &&
      (DisableFile(sn) in r <==> DisableFile(sn) in files || LegacyDisableFile(sn) in files)
  {
    PathKinds(sn);
    OwnFilesDistinct(sn);
    KindsDisjoint(sn + ".jpi");
    KindsDisjoint(LegacyName(sn));
    KindsDisjoint(LegacyName(sn) + ".pinned");
    KindsDisjoint(LegacyName(sn) + ".disabled");
    KindsDisjoint(sn + ".jpi.pinned");
    KindsDisjoint(sn + ".jpi.disabled");
    var f1 := Renamed(files, LegacyFile(sn), PluginFile(sn));
    var f2 := Renamed(f1, LegacyPinFile(sn), PinFile(sn));
    RenamedAt(files, LegacyFile(sn), PluginFile(sn));
    RenamedElsewhere(files, LegacyFile(sn), PluginFile(sn), PinFile(sn));
    RenamedElsewhere(files, LegacyFile(sn), PluginFile(sn), LegacyPinFile(sn));
    RenamedElsewhere(files, LegacyFile(sn), PluginFile(sn), DisableFile(sn));
    RenamedElsewhere(files, LegacyFile(sn), PluginFile(sn), LegacyDisableFile(sn));
    RenamedAt(f1, LegacyPinFile(sn), PinFile(sn));
    RenamedElsewhere(f1, LegacyPinFile(sn), PinFile(sn), PluginFile(sn));
    RenamedElsewhere(f1, LegacyPinFile(sn), PinFile(sn), LegacyFile(sn));
    RenamedElsewhere(f1, LegacyPinFile(sn), PinFile(sn), DisableFile(sn));
    RenamedElsewhere(f1, LegacyPinFile(sn), PinFile(sn), LegacyDisableFile(sn));
    RenamedAt(f2, LegacyDisableFile(sn), DisableFile(sn));
    RenamedElsewhere(f2, LegacyDisableFile(sn), DisableFile(sn), PluginFile(sn));
    RenamedElsewhere(f2, LegacyDisableFile(sn), DisableFile(sn), LegacyFile(sn));
    RenamedElsewhere(f2, LegacyDisableFile(sn), DisableFile(sn), PinFile(sn));
  }

  /** The three renames leave every file other than the candidate's six as
      it was, and never touch the staging directory. */
  lemma NormalisedElsewhere(files: Files, sn: string, p: Path)
    requires p != PluginFile(sn) && p != LegacyFile(sn) && p != PinFile(sn) && p != LegacyPinFile(sn)
    requires p != DisableFile(sn) && p != LegacyDisableFile(sn)
    ensures var r := Normalised(files, sn);
      (p in r <==> p in files) && (p in r ==> r[p] == files[p])
  {
    var f1 := Renamed(files, LegacyFile(sn), PluginFile(sn));
    var f2 := Renamed(f1, LegacyPinFile(sn), PinFile(sn));
    RenamedElsewhere(files, LegacyFile(sn), PluginFile(sn), p);
    RenamedElsewhere(f1, LegacyPinFile(sn), PinFile(sn), p);
    RenamedElsewhere(f2, LegacyDisableFile(sn), DisableFile(sn), p);
  }

  /** The write rule in terms of the files before the renames: the archive
      is written exactly when the candidate does not skip, the staged
      archive exists, and the (possibly renamed) archive is absent, or its
      time differs from the staged archive's and there is no (possibly
      renamed) pin marker. A written archive holds the staged bytes and
      time. */
  lemma WriteIff(c: Resolve.Candidate, reg: Registry, enable: set<string>, files: Files, now: int)
    requires c.archive.dir == StagingDir
    ensures var sn := c.plugin.shortName;
      var o := MaterialiseOne(c, reg, enable, files, now);
      var present := PluginFile(sn) in files || LegacyFile(sn) in files;
      var time := if LegacyFile(sn) in files then files[LegacyFile(sn)].lastModified
                  else ModifiedTime(files, PluginFile(sn));
      var pinned := PinFile(sn) in files || LegacyPinFile(sn) in files;
      (o.written <==>
        !SkipsActive(c.plugin, reg) && c.archive in files &&
        (!present || (time != files[c.archive].lastModified && !pinned))) &&
      (o.written ==> PluginFile(sn) in o.files && o.files[PluginFile(sn)] == files[c.archive])
  {
    var sn := c.plugin.shortName;
    NormalisedAt(files, sn);
    NormalisedElsewhere(files, sn, c.archive);
    PathKinds(sn);
    KindsDisjoint(sn + ".jpi");
    assert PluginFile(sn) != DisableFile(sn);
  }

  /** A candidate that cannot be enabled always ends with an empty
      `.disabled` marker, whether or not its archive was written; a marker
      that exists (under either name) is never removed. */
  lemma DisabledMarker(c: Resolve.Candidate, reg: Registry, enable: set<string>, files: Files, now: int)
    requires !SkipsActive(c.plugin, reg)
    ensures var sn := c.plugin.shortName;
      var o := MaterialiseOne(c, reg, enable, files, now);
      (sn !in enable ==> DisableFile(sn) in o.files && o.files[DisableFile(sn)] == FileEntry([], now)) &&
      (DisableFile(sn) in files || LegacyDisableFile(sn) in files ==> DisableFile(sn) in o.files)
  {
    var sn := c.plugin.shortName;
    NormalisedAt(files, sn);
    PathKinds(sn);
    KindsDisjoint(sn + ".jpi");
    KindsDisjoint(sn + ".jpi.disabled");
    assert PluginFile(sn) != DisableFile(sn);
  }

  /** One turn touches only the candidate's own plugin-directory files: any
      other file is kept as it was. */
  lemma OneFrame(c: Resolve.Candidate, reg: Registry, enable: set<string>, files: Files, now: int, p: Path)
    requires p.dir == StagingDir || !(IsArchive(p.name) || IsLegacy(p.name) || IsPin(p.name) || IsDisable(p.name))
    ensures var o := MaterialiseOne(c, reg, enable, files, now);
      (p in o.files <==> p in files) && (p in o.files ==> o.files[p] == files[p])
  {
    var sn := c.plugin.shortName;
    PathKinds(sn);
    NormalisedElsewhere(files, sn, p);
  }

  /** The archive of name `k` wraps to a plugin of that name, and the
      legacy file of the name is gone. */
  ghost predicate NamedEntry(k: string, files: Files, wrap: Bytes -> Option<Manifest>) {
    LegacyFile(k) !in files &&
    Resolve.WrapFile(PluginFile(k), files, wrap).Some? &&
    Resolve.WrapFile(PluginFile(k), files, wrap).value.shortName == k
  }

  /** Every entry of the new-plugin map is the archive of its own name, in
      the state `NamedEntry` describes. */
  ghost predicate NewPluginsNamed(newPlugins: map<string, Path>, files: Files, wrap: Bytes -> Option<Manifest>) {
    forall k :: k in newPlugins ==> newPlugins[k] == PluginFile(k) && NamedEntry(k, files, wrap)
  }

  /** A staged candidate whose archive wraps to its manifest. */
  ghost predicate Faithful(c: Resolve.Candidate, files: Files, wrap: Bytes -> Option<Manifest>) {
    c.archive.dir == StagingDir && Resolve.WrapFile(c.archive, files, wrap) == Some(c.plugin)
  }

  /** After a turn that writes the candidate's archive, or one that leaves
      an already named archive of the same name, that archive is named. */
  lemma NamedEntrySelf(c: Resolve.Candidate, reg: Registry, enable: set<string>, files: Files, now: int,
                       wrap: Bytes -> Option<Manifest>)
    requires Faithful(c, files, wrap)
    ensures var o := MaterialiseOne(c, reg, enable, files, now);
      o.written || NamedEntry(c.plugin.shortName, files, wrap) ==> NamedEntry(c.plugin.shortName, o.files, wrap)
  {
    var sn := c.plugin.shortName;
    if !SkipsActive(c.plugin, reg) {
      WriteIff(c, reg, enable, files, now);
      NormalisedAt(files, sn);
      PathKinds(sn);
      KindsDisjoint(sn + ".jpi");
      KindsDisjoint(LegacyName(sn));
      assert PluginFile(sn) != DisableFile(sn) && LegacyFile(sn) != DisableFile(sn);
    }
  }

  /** After the renames, a turn writes only the candidate's archive and
      disable marker. */
  lemma WritesOnly(c: Resolve.Candidate, reg: Registry, enable: set<string>, files: Files, now: int, p: Path)
    requires !SkipsActive(c.plugin, reg)
    requires p != PluginFile(c.plugin.shortName) && p != DisableFile(c.plugin.shortName)
    ensures var o := MaterialiseOne(c, reg, enable, files, now);
      var normal := Normalised(files, c.plugin.shortName);
      (p in o.files <==> p in normal) && (p in o.files ==> o.files[p] == normal[p])
  {
  }

  /** The renames for one name leave a named archive of another name
      named. */
  lemma NamedNormalised(files: Files, sn: string, wrap: Bytes -> Option<Manifest>, k: string)
    requires k != sn && NamedEntry(k, files, wrap)
    ensures NamedEntry(k, Normalised(files, sn), wrap)
  {
    PathKinds(sn);
    PathKinds(k);
    KindsDisjoint(sn + ".jpi");
    KindsDisjoint(k + ".jpi");
    KindsDisjoint(LegacyName(sn));
    KindsDisjoint(LegacyName(k));
    PluginFileInjective(k, sn);
    NormalisedElsewhere(files, sn, PluginFile(k));
    if LegacyFile(k) == LegacyFile(sn) {
      NormalisedAt(files, sn);
    } else {
      NormalisedElsewhere(files, sn, LegacyFile(k));
    }
  }

  /** A turn for one name leaves a named archive of another name named. */
  lemma NamedEntryOther(c: Resolve.Candidate, reg: Registry, enable: set<string>, files: Files, now: int,
                        wrap: Bytes -> Option<Manifest>, k: string)
    requires k != c.plugin.shortName && NamedEntry(k, files, wrap)
    ensures NamedEntry(k, MaterialiseOne(c, reg, enable, files, now).files, wrap)
  {
    var sn := c.plugin.shortName;
    if !SkipsActive(c.plugin, reg) {
      NamedNormalised(files, sn, wrap, k);
      PathKinds(sn);
      PathKinds(k);
      KindsDisjoint(k + ".jpi");
      KindsDisjoint(LegacyName(k));
      PluginFileInjective(k, sn);
      WritesOnly(c, reg, enable, files, now, PluginFile(k));
      WritesOnly(c, reg, enable, files, now, LegacyFile(k));
    }
  }

  /** One turn keeps the new-plugin map named. */
  lemma NamedStep(c: Resolve.Candidate, reg: Registry, enable: set<string>, files: Files, now: int,
                  newPlugins: map<string, Path>, wrap: Bytes -> Option<Manifest>)
    requires Faithful(c, files, wrap) && NewPluginsNamed(newPlugins, files, wrap)
    ensures var o := MaterialiseOne(c, reg, enable, files, now);
      var sn := c.plugin.shortName;
      NewPluginsNamed(if o.written then newPlugins[sn := PluginFile(sn)] else newPlugins, o.files, wrap)
  {
    var o := MaterialiseOne(c, reg, enable, files, now);
    var sn := c.plugin.shortName;
    var next := if o.written then newPlugins[sn := PluginFile(sn)] else newPlugins;
    forall k | k in next
      ensures next[k] == PluginFile(k) && NamedEntry(k, o.files, wrap)
    {
      if k == sn {
        NamedEntrySelf(c, reg, enable, files, now, wrap);
      } else {
        NamedEntryOther(c, reg, enable, files, now, wrap, k);
      }
    }
  }

  /** Materialisation never touches the staging directory. */
  lemma {:induction false} StagingUntouched(kept: seq<Resolve.Candidate>, reg: Registry, enable: set<string>, files: Files,
                                            now: int, p: Path)
    requires p.dir == StagingDir
    ensures var r := MaterialiseAll(kept, reg, enable, files, now);
      (p in r.files <==> p in files) && (p in r.files ==> r.files[p] == files[p])
    decreases |kept|
  {
    if kept != [] {
      var prev := MaterialiseAll(kept[..|kept| - 1], reg, enable, files, now);
      StagingUntouched(kept[..|kept| - 1], reg, enable, files, now, p);
      OneFrame(kept[|kept| - 1], reg, enable, prev.files, now, p);
    }
  }

  /** After the loop, every name in the new-plugin map maps to its own
      archive, which wraps to a plugin of that name; and only names of
      surviving candidates are in it. */
  lemma {:induction false} NamedAll(kept: seq<Resolve.Candidate>, reg: Registry, enable: set<string>, files: Files,
                                    now: int, wrap: Bytes -> Option<Manifest>)
    requires forall i :: 0 <= i < |kept| ==> Faithful(kept[i], files, wrap)
    ensures var r := MaterialiseAll(kept, reg, enable, files, now);
      NewPluginsNamed(r.newPlugins, r.files, wrap) &&
      forall k :: k in r.newPlugins ==> exists i :: 0 <= i < |kept| && kept[i].plugin.shortName == k
    decreases |kept|
  {
    if kept != [] {
      var init := kept[..|kept| - 1];
      var c := kept[|kept| - 1];
      var prev := MaterialiseAll(init, reg, enable, files, now);
      forall i | 0 <= i < |init| ensures Faithful(init[i], files, wrap) {
        assert init[i] == kept[i];
      }
      NamedAll(init, reg, enable, files, now, wrap);
      StagingUntouched(init, reg, enable, files, now, c.archive);
      assert Faithful(c, prev.files, wrap);
      NamedStep(c, reg, enable, prev.files, now, prev.newPlugins, wrap);
      var r := MaterialiseAll(kept, reg, enable, files, now);
      forall k | k in r.newPlugins ensures exists i :: 0 <= i < |kept| && kept[i].plugin.shortName == k {
        if k in prev.newPlugins {
          var i :| 0 <= i < |init| && init[i].plugin.shortName == k;
          assert kept[i] == init[i];
        } else {
          assert kept[|kept| - 1].plugin.shortName == k;
        }
      }
    }
  }

  /** Moves a legacy file onto its new name, deleting the destination
      first. */
  method Rename(fs: FileSystem, legacyFile: Path, newFile: Path)
    modifies fs
    ensures fs.files == Renamed(old(fs.files), legacyFile, newFile)
  {
    if legacyFile !in fs.files {
      return;
    }
    if newFile in fs.files {
      fs.files := fs.files - {newFile};
    }
    if legacyFile in fs.files {
      fs.files := (fs.files - {legacyFile})[newFile := fs.files[legacyFile]];
    }
  }

  /** One turn of the materialisation loop. */
  method MaterialiseCandidate(fs: FileSystem, c: Resolve.Candidate, reg: Registry, enable: set<string>, now: int)
    returns (written: bool, restart: bool)
    modifies fs
    ensures Outcome(fs.files, written, restart) == MaterialiseOne(c, reg, enable, old(fs.files), now)
  {
    var shortName := c.plugin.shortName;
    written := false;
    restart := false;
    if shortName in reg && reg[shortName].active {
      var existing := reg[shortName];
      if existing.version == c.plugin.version {
        return;
      }
      if existing.version > c.plugin.version {
        return;
      }
      if existing.pinned {
        return;
      }
      restart := true;
    }
    var fileName := shortName + ".jpi";
    var legacyName := ReplaceAll(fileName, ".jpi", ".hpi");
    var file := Path(PluginDir, fileName);
    var pinFile := Path(PluginDir, fileName + ".pinned");
    var disableFile := Path(PluginDir, fileName + ".disabled");
    assert pinFile == PinFile(shortName) && disableFile == DisableFile(shortName);
    Rename(fs, Path(PluginDir, legacyName), file);
    Rename(fs, Path(PluginDir, legacyName + ".pinned"), pinFile);
    Rename(fs, Path(PluginDir, legacyName + ".disabled"), disableFile);
    var lastModified := ModifiedTime(fs.files, c.archive);
    if file !in fs.files || (fs.files[file].lastModified != lastModified && pinFile !in fs.files) {
      if c.archive in fs.files {
        fs.files := fs.files[file := FileEntry(fs.files[c.archive].content, lastModified)];
        written := true;
      }
    }
    if shortName !in enable {
      fs.files := fs.files[disableFile := FileEntry([], now)];
    }
  }

  /** The materialisation loop over the surviving candidates, threading
      the restart flag. */
  method Materialise(fs: FileSystem, kept: seq<Resolve.Candidate>, reg: Registry, enable: set<string>, now: int,
                     cannotDynamicLoad: bool)
    returns (newPlugins: map<string, Path>, cannot: bool)
    modifies fs
    ensures var r := MaterialiseAll(kept, reg, enable, old(fs.files), now);
      fs.files == r.files && newPlugins == r.newPlugins && cannot == (cannotDynamicLoad || r.restart)
  {
    newPlugins := map[];
    cannot := cannotDynamicLoad;
    for i := 0 to |kept|
      invariant var r := MaterialiseAll(kept[..i], reg, enable, old(fs.files), now);
        fs.files == r.files && newPlugins == r.newPlugins && cannot == (cannotDynamicLoad || r.restart)
    {
      assert kept[..i + 1][..i] == kept[..i];
      var written, restart := MaterialiseCandidate(fs, kept[i], reg, enable, now);
      if restart {
        cannot := true;
      }
      if written {
        newPlugins := newPlugins[kept[i].plugin.shortName := PluginFile(kept[i].plugin.shortName)];
      }
    }
    assert kept[..|kept|] == kept;
  }
}
