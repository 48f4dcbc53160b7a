/**
 * The staging cache: turns every source location into a local archive in the
 * helper's staging directory, reusing what is already there when it can
 * (PluginHelper.listPlugins and ExtractedPluginMetadata).
 */
module Staging {
  import opened Common
  import Sources

  /** What the helper remembers about a staged location: the archive's short
      name, its digest and its length. */
  datatype Metadata = Metadata(shortName: string, digest: string, length: int)

  /** What opening a location yields: its declared modification time (0 when
      unknown), its declared content length and the bytes it serves. */
  datatype Connection = Connection(lastModified: int, contentLength: int, body: Bytes)

  /** Host services the stager calls: fetching a location (None when opening
      or reading it fails with an I/O error), the content digest, the digest
      of a string, and the plugin strategy's short name of an archive (None
      when reading the archive fails). */
  datatype StagingHost = StagingHost(
    fetch: Url -> Option<Connection>,
    digest: Bytes -> string,
    textDigest: string -> string,
    shortNameOf: (Path, Bytes) -> Option<string>)

  /** How one location was handled. */
  datatype Route = FromCache | Reused | Copied | Skipped

  /** The outcome of staging one location: how, the archive added to the
      result (if any), and the new cache and files. */
  datatype Step = Step(route: Route, staged: Option<Path>, cache: map<string, Metadata>, files: Files)

  /** The outcome of staging a list of locations. */
  datatype Pass = Pass(staged: seq<Path>, cache: map<string, Metadata>, files: Files)

  /** The archive `<name>.jpi` in the staging directory. */
  function Staged(name: string): Path {
    Path(StagingDir, name + ".jpi")
  }

  /** The index of the last occurrence of `c` in `s`, or -1. */
  function LastIndexOf(s: string, c: char): (r: int)
    ensures -1 <= r < |s|
    ensures r >= 0 ==> s[r] == c
    ensures forall k :: r < k < |s| ==> s[k] != c
    decreases |s|
  {
    if s == [] then -1
    else if s[|s| - 1] == c then |s| - 1
    else LastIndexOf(s[..|s| - 1], c)
  }

  /** The file name of a path without its directories (after the last '/' or
      '\') and without its extension (from the last '.'). */
  function BaseName(path: string): string
  {
    var name := path[LastIndexOf(path, '/') + 1..];
    var name' := name[LastIndexOf(name, '\\') + 1..];
    var dot := LastIndexOf(name', '.');
    if dot < 0 then name' else name'[..dot]
  }

  predicate IsWhitespace(c: char) {
    c == ' ' || (9 <= c as int <= 13) || (28 <= c as int <= 31)
  }

  /** Empty or made of whitespace only. */
  predicate IsBlank(s: string) {
    forall k :: 0 <= k < |s| ==> IsWhitespace(s[k])
  }

  /** The name a location is first staged under: its base name, or the
      digest of its string form when the base name is blank. */
  function StagingName(u: Url, h: StagingHost): string {
    if IsBlank(BaseName(u.path)) then h.textDigest(u.externalForm) else BaseName(u.path)
  }

  /** The metadata recorded for an archive; None when its short name cannot
      be read. */
  function MetadataOf(p: Path, content: Bytes, h: StagingHost): Option<Metadata> {
    match h.shortNameOf(p, content)
    case None => None
    case Some(sn) => Some(Metadata(sn, h.digest(content), |content|))
  }

  /** A cache entry may be used: its archive exists with the recorded length
      and digest. */
  predicate CacheValid(md: Metadata, files: Files, h: StagingHost) {
    var a := Staged(md.shortName);
    a in files && |files[a].content| == md.length && h.digest(files[a].content) == md.digest
  }

  /** A same-named staged file may be kept without copying: its length
      matches, its modification time matches (or the location reports none),
      and its digest equals the location's. */
  predicate Reusable(files: Files, file: Path, conn: Connection, h: StagingHost) {
    file in files &&
    (files[file].lastModified == conn.lastModified || conn.lastModified == 0) &&
    |files[file].content| == conn.contentLength &&
    h.digest(files[file].content) == h.digest(conn.body)
  }

  /** The cache with the metadata of an archive recorded under `key`, when
      it could be read. */
  function Record(cache: map<string, Metadata>, key: string, md: Option<Metadata>): map<string, Metadata> {
    if md.Some? then cache[key := md.value] else cache
  }

  /** The end of a copy: the location's modification time applied when it
      has one, the archive added to the result, and its metadata recorded. */
  function Finish(key: string, p: Path, files: Files, cache: map<string, Metadata>, lastModified: int, h: StagingHost): Step
    requires p in files
  {
    var files' := if lastModified != 0 then files[p := files[p].(lastModified := lastModified)] else files;
    Step(Copied, Some(p), Record(cache, key, MetadataOf(p, files'[p].content, h)), files')
  }

  /** A digest-named copy whose short name differs: moved to the short
      name's archive, unless that archive already holds the same digest.
      Moving onto an existing archive fails, as the file utility's move
      refuses an existing destination, and the location is then skipped. */
  function Relocate(key: string, file: Path, sn: string, copied: Files, cache: map<string, Metadata>,
                    conn: Connection, h: StagingHost): Step
    requires file in copied
  {
    var newFile := Staged(sn);
    if newFile in copied && h.digest(copied[newFile].content) == h.digest(conn.body) then
      Finish(key, newFile, copied, cache, conn.lastModified, h)
    else if newFile in copied then
      Step(Skipped, None, cache, copied)
    else
      Finish(key, newFile, (copied - {file})[newFile := copied[file]], cache, conn.lastModified, h)
  }

  /** Copying a location that could not be reused into the staging
      directory, then naming it by its short name when its own name was
      blank. */
  function Copy(key: string, u: Url, conn: Connection, cache: map<string, Metadata>, files: Files,
                h: StagingHost, now: int): Step
  {
    var fileName := StagingName(u, h);
    var file := Staged(fileName);
    var copied := files[file := FileEntry(conn.body, now)];
    if !IsBlank(BaseName(u.path)) then Finish(key, file, copied, cache, conn.lastModified, h)
    else match h.shortNameOf(file, conn.body)
      case None => Step(Skipped, None, cache, copied)
      case Some(sn) =>
        if fileName == sn then Finish(key, file, copied, cache, conn.lastModified, h)
        else Relocate(key, file, sn, copied, cache, conn, h)
  }

  /** Staging a location that could be opened: keep the same-named staged
      file when it is reusable, copy otherwise. */
  function Fetched(key: string, u: Url, conn: Connection, cache: map<string, Metadata>, files: Files,
                   h: StagingHost, now: int): Step
  {
    var file := Staged(StagingName(u, h));
    if Reusable(files, file, conn, h) then
      Step(Reused, Some(file), Record(cache, key, MetadataOf(file, files[file].content, h)), files)
    else Copy(key, u, conn, cache, files, h, now)
  }

  /** Reference definition of staging one location. */
  function StageOne(cache: map<string, Metadata>, files: Files, u: Url, h: StagingHost, now: int): Step {
    var key := u.externalForm;
    if key in cache && CacheValid(cache[key], files, h) then
      Step(FromCache, Some(Staged(cache[key].shortName)), cache, files)
    else match h.fetch(u)
      case None => Step(Skipped, None, cache, files)
      case Some(conn) => Fetched(key, u, conn, cache, files, h, now)
  }

  /** Reference definition of staging a list of locations in order. */
  function StageAll(cache: map<string, Metadata>, files: Files, urls: seq<Url>, h: StagingHost, now: int): Pass
    decreases |urls|
  {
    if urls == [] then Pass([], cache, files)
    else
      var prev := StageAll(cache, files, urls[..|urls| - 1], h, now);
      var step := StageOne(prev.cache, prev.files, urls[|urls| - 1], h, now);
      Pass(prev.staged + (if step.staged.Some? then [step.staged.value] else []), step.cache, step.files)
  }

  /** `after` agrees with `before` on the host's plugin directory. */
  ghost predicate PluginDirSame(before: Files, after: Files) {
    forall p: Path :: p.dir == PluginDir ==>
      (p in after <==> p in before) && (p in before ==> after[p] == before[p])
  }

  /** What every step keeps: it writes only in the staging directory, adds
      an archive of the staging directory exactly when it does not skip the
      location, and changes the cache only by recording, under the
      location's key, the metadata of the archive it added. */
  ghost predicate Coherent(step: Step, key: string, cache: map<string, Metadata>, files: Files, h: StagingHost) {
    PluginDirSame(files, step.files) &&
    (step.route == Skipped <==> step.staged.None?) &&
    (step.staged.Some? ==> step.staged.value.dir == StagingDir && step.staged.value in step.files) &&
    (step.route == Reused || step.route == Copied ==>
      step.staged.Some? && step.staged.value in step.files &&
      step.cache == Record(cache, key, MetadataOf(step.staged.value, step.files[step.staged.value].content, h))) &&
    (step.route == FromCache || step.route == Skipped ==> step.cache == cache)
  }

  lemma StagedInjective(a: string, b: string)
    ensures Staged(a) == Staged(b) ==> a == b
  {
    if Staged(a) == Staged(b) {
      assert (a + ".jpi")[..|a|] == a;
      assert (b + ".jpi")[..|b|] == b;
    }
  }

  lemma FinishCoherent(key: string, p: Path, files0: Files, files: Files, cache: map<string, Metadata>,
                       lastModified: int, h: StagingHost)
    requires p in files && p.dir == StagingDir && PluginDirSame(files0, files)
    ensures Coherent(Finish(key, p, files, cache, lastModified, h), key, cache, files0, h)
  {
  }

  lemma RelocateCoherent(key: string, file: Path, sn: string, files0: Files, copied: Files,
                         cache: map<string, Metadata>, conn: Connection, h: StagingHost)
    requires file in copied && file.dir == StagingDir && PluginDirSame(files0, copied)
    ensures Coherent(Relocate(key, file, sn, copied, cache, conn, h), key, cache, files0, h)
  {
    var newFile := Staged(sn);
    if newFile in copied && h.digest(copied[newFile].content) == h.digest(conn.body) {
      FinishCoherent(key, newFile, files0, copied, cache, conn.lastModified, h);
    } else if newFile !in copied {
      var moved := (copied - {file})[newFile := copied[file]];
      assert PluginDirSame(files0, moved);
      FinishCoherent(key, newFile, files0, moved, cache, conn.lastModified, h);
    }
  }

  lemma CopyCoherent(key: string, u: Url, conn: Connection, cache: map<string, Metadata>, files: Files,
                     h: StagingHost, now: int)
    ensures Coherent(Copy(key, u, conn, cache, files, h, now), key, cache, files, h)
  {
    var fileName := StagingName(u, h);
    var file := Staged(fileName);
    var copied := files[file := FileEntry(conn.body, now)];
    assert PluginDirSame(files, copied);
    if !IsBlank(BaseName(u.path)) {
      FinishCoherent(key, file, files, copied, cache, conn.lastModified, h);
    } else if h.shortNameOf(file, conn.body).Some? {
      var sn := h.shortNameOf(file, conn.body).value;
      if fileName == sn {
        FinishCoherent(key, file, files, copied, cache, conn.lastModified, h);
      } else {
        RelocateCoherent(key, file, sn, files, copied, cache, conn, h);
      }
    }
  }

  /** Staging one location writes only in the staging directory, and
      records metadata under its own key only, for exactly the archive it
      added to the result. */
  lemma StageOneCoherent(cache: map<string, Metadata>, files: Files, u: Url, h: StagingHost, now: int)
    ensures Coherent(StageOne(cache, files, u, h, now), u.externalForm, cache, files, h)
  {
    var key := u.externalForm;
    if !(key in cache && CacheValid(cache[key], files, h)) && h.fetch(u).Some? {
      var conn := h.fetch(u).value;
      if !Reusable(files, Staged(StagingName(u, h)), conn, h) {
        CopyCoherent(key, u, conn, cache, files, h, now);
      }
    }
  }

  /** A cached archive is used exactly when it exists with the recorded
      length and digest; using it writes nothing. */
  lemma CacheHitOnlyWhenValid(cache: map<string, Metadata>, files: Files, u: Url, h: StagingHost, now: int)
    ensures var step := StageOne(cache, files, u, h, now);
      (step.route == FromCache <==> u.externalForm in cache && CacheValid(cache[u.externalForm], files, h)) &&
      (step.route == FromCache ==>
        step.staged == Some(Staged(cache[u.externalForm].shortName)) && step.files == files && step.cache == cache)
  {
    var key := u.externalForm;
    if !(key in cache && CacheValid(cache[key], files, h)) && h.fetch(u).Some? {
      var conn := h.fetch(u).value;
      if !Reusable(files, Staged(StagingName(u, h)), conn, h) {
        CopyCoherent(key, u, conn, cache, files, h, now);
      }
    }
  }

  /** A same-named staged file is kept without copying exactly when the
      cache missed, the location could be opened and the file is reusable;
      keeping it writes nothing. */
  lemma ReuseOnlyWhenIdentical(cache: map<string, Metadata>, files: Files, u: Url, h: StagingHost, now: int)
    ensures var step := StageOne(cache, files, u, h, now);
      step.route == Reused <==>
        !(u.externalForm in cache && CacheValid(cache[u.externalForm], files, h)) &&
        h.fetch(u).Some? && Reusable(files, Staged(StagingName(u, h)), h.fetch(u).value, h)
    ensures var step := StageOne(cache, files, u, h, now);
      step.route == Reused ==> step.files == files && step.staged == Some(Staged(StagingName(u, h)))
  {
    var key := u.externalForm;
    if !(key in cache && CacheValid(cache[key], files, h)) && h.fetch(u).Some? {
      var conn := h.fetch(u).value;
      if !Reusable(files, Staged(StagingName(u, h)), conn, h) {
        CopyCoherent(key, u, conn, cache, files, h, now);
      }
    }
  }

  /** A location whose path has a non-blank base name is copied to the
      archive of that name, with the location's bytes and, when it reports
      one, its modification time. */
  lemma NamedCopy(cache: map<string, Metadata>, files: Files, u: Url, h: StagingHost, now: int)
    requires StageOne(cache, files, u, h, now).route == Copied
    requires !IsBlank(BaseName(u.path))
    ensures var step := StageOne(cache, files, u, h, now);
      var p := Staged(BaseName(u.path));
      h.fetch(u).Some? && step.staged == Some(p) && p in step.files &&
      step.files[p].content == h.fetch(u).value.body &&
      step.files[p].lastModified == (if h.fetch(u).value.lastModified != 0 then h.fetch(u).value.lastModified else now)
  {
  }

  /** A location whose base name is blank and that is copied is staged as
      its short name's archive: moved there, or kept there when that archive
      already held the same digest. Either way the archive's digest is the
      location's, and it carries the location's modification time when the
      location reports one. */
  lemma DigestNamedCopy(cache: map<string, Metadata>, files: Files, u: Url, h: StagingHost, now: int)
    requires StageOne(cache, files, u, h, now).route == Copied
    requires IsBlank(BaseName(u.path))
    ensures var step := StageOne(cache, files, u, h, now);
      h.fetch(u).Some? &&
      var conn := h.fetch(u).value;
      h.shortNameOf(Staged(StagingName(u, h)), conn.body).Some? &&
      var p := Staged(h.shortNameOf(Staged(StagingName(u, h)), conn.body).value);
      step.staged == Some(p) && p in step.files &&
      h.digest(step.files[p].content) == h.digest(conn.body) &&
      (conn.lastModified != 0 ==> step.files[p].lastModified == conn.lastModified)
  {
  }

  /** A digest-named copy whose short-name archive already exists with other
      content is never staged: the move onto it fails and the location is
      skipped, leaving the cache as it was. */
  lemma ExistingDifferentTargetIsSkipped(cache: map<string, Metadata>, files: Files, u: Url, h: StagingHost, now: int)
    requires !(u.externalForm in cache && CacheValid(cache[u.externalForm], files, h))
    requires h.fetch(u).Some? && IsBlank(BaseName(u.path))
    requires !Reusable(files, Staged(StagingName(u, h)), h.fetch(u).value, h)
    requires h.shortNameOf(Staged(StagingName(u, h)), h.fetch(u).value.body).Some?
    requires var sn := h.shortNameOf(Staged(StagingName(u, h)), h.fetch(u).value.body).value;
      sn != StagingName(u, h) && Staged(sn) in files &&
      h.digest(files[Staged(sn)].content) != h.digest(h.fetch(u).value.body)
    ensures StageOne(cache, files, u, h, now).route == Skipped
    ensures StageOne(cache, files, u, h, now).cache == cache
  {
    var conn := h.fetch(u).value;
    var fileName := StagingName(u, h);
    var sn := h.shortNameOf(Staged(fileName), conn.body).value;
    StagedInjective(sn, fileName);
    var copied := files[Staged(fileName) := FileEntry(conn.body, now)];
    assert copied[Staged(sn)] == files[Staged(sn)];
    assert Copy(u.externalForm, u, conn, cache, files, h, now) == Relocate(u.externalForm, Staged(fileName), sn, copied, cache, conn, h);
  }

  /** Idempotence of staging: once a location was kept or copied and its
      metadata read, naming the archive it was staged as, staging it again
      with the files as they now are is a cache hit that changes nothing. */
  lemma SecondPassHitsCache(cache: map<string, Metadata>, files: Files, u: Url, h: StagingHost, now: int, later: int)
    requires var step := StageOne(cache, files, u, h, now);
      (step.route == Reused || step.route == Copied) && step.staged.Some? && step.staged.value in step.files &&
      h.shortNameOf(step.staged.value, step.files[step.staged.value].content).Some? &&
      Staged(h.shortNameOf(step.staged.value, step.files[step.staged.value].content).value) == step.staged.value
    ensures var step := StageOne(cache, files, u, h, now);
      var again := StageOne(step.cache, step.files, u, h, later);
      again.route == FromCache && again.staged == step.staged && again.files == step.files && again.cache == step.cache
  {
    StageOneCoherent(cache, files, u, h, now);
  }

  /** Every archive in the result lies in the staging directory, there is
      at most one per location, and the plugin directory is untouched. */
  lemma {:induction false} StageAllCoherent(cache: map<string, Metadata>, files: Files, urls: seq<Url>, h: StagingHost, now: int)
    ensures var pass := StageAll(cache, files, urls, h, now);
      |pass.staged| <= |urls| &&
      (forall i :: 0 <= i < |pass.staged| ==> pass.staged[i].dir == StagingDir) &&
      PluginDirSame(files, pass.files)
    decreases |urls|
  {
    if urls != [] {
      var prev := StageAll(cache, files, urls[..|urls| - 1], h, now);
      StageAllCoherent(cache, files, urls[..|urls| - 1], h, now);
      StageOneCoherent(prev.cache, prev.files, urls[|urls| - 1], h, now);
    }
  }
}
