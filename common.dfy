/**
 * Values shared by every stage of the optional plugin helper: plugin
 * manifests as the host reads them, the installed-plugin registry, the two
 * directories the helper writes to, and source locations.
 */
module Common {

  datatype Option<T> = None | Some(value: T)

  type Bytes = seq<bv8>

  /** A plugin version, given by its rank in the host's total order on
      version numbers (equal ranks are equal versions). */
  type Version = int

  /** A dependency declared in a plugin manifest: a short name and the
      minimum version required. */
  datatype Dependency = Dependency(shortName: string, version: Version)

  /** A plugin's declared support for being loaded without a restart. */
  datatype YesNoMaybe = Yes | No | Maybe

  /** What the host's plugin strategy reads out of a plugin archive. */
  datatype Manifest = Manifest(
    shortName: string,
    version: Version,
    dependencies: seq<Dependency>,
    optionalDependencies: seq<Dependency>,
    dynamicLoad: YesNoMaybe)

  /** An installed plugin as the host's plugin manager reports it. */
  datatype Installed = Installed(version: Version, active: bool, enabled: bool, pinned: bool)

  /** The plugin manager's registry, by short name. */
  type Registry = map<string, Installed>

  /** An installed plugin that is enabled or active: the only kind the
      resolver treats as already present. */
  predicate Live(p: Installed) {
    p.active || p.enabled
  }

  datatype FileEntry = FileEntry(content: Bytes, lastModified: int)

  /** The staging directory owned by the helper, and the host's plugin directory. */
  datatype Dir = StagingDir | PluginDir

  datatype Path = Path(dir: Dir, name: string)

  type Files = map<Path, FileEntry>

  /** The part of the local file system the helper reads and writes. */
  class FileSystem {
    var files: Files

    constructor (initial: Files)
      ensures files == initial
    {
      files := initial;
    }
  }

  /** A source location: its external form (which is also its string form)
      and the path component of the location. */
  datatype Url = Url(externalForm: string, path: string)

  predicate EndsWith(s: string, suffix: string) {
    |suffix| <= |s| && s[|s| - |suffix|..] == suffix
  }

  /** Every non-overlapping occurrence of `pattern`, scanning left to right,
      replaced by `replacement`; the behaviour of Java's String.replace. */
  function ReplaceAll(s: string, pattern: string, replacement: string): string
    requires pattern != []
    decreases |s|
  {
    if |s| < |pattern| then s
    else if s[..|pattern|] == pattern then replacement + ReplaceAll(s[|pattern|..], pattern, replacement)
    else [s[0]] + ReplaceAll(s[1..], pattern, replacement)
  }
}
