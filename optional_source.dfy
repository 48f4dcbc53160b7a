/**
 * The built-in plugin source: the archives bundled in the web application's
 * optional-plugins resource directory (OptionalPluginSource.listPlugins).
 */
module OptionalSource {
  import opened Common
  import Sources

  /** The index of the last '/' in `s`, or -1 when there is none. */
  function LastSlash(s: string): (r: int)
    ensures -1 <= r < |s|
    ensures r >= 0 ==> s[r] == '/'
    ensures forall k :: r < k < |s| ==> s[k] != '/'
    decreases |s|
  {
    if s == [] then -1
    else if s[|s| - 1] == '/' then |s| - 1
    else LastSlash(s[..|s| - 1])
  }

  /** The text after the last '/', or the whole path when it has none: the
      longest suffix of the path without a '/'. */
  function FileName(path: string): (name: string)
    ensures |name| <= |path| && path[|path| - |name|..] == name
    ensures forall k :: 0 <= k < |name| ==> name[k] != '/'
    ensures |name| < |path| ==> path[|path| - |name| - 1] == '/'
  {
    path[LastSlash(path) + 1..]
  }

  /** Lower-casing of the ASCII letters; other characters are kept. */
  function LowerChar(c: char): char {
    if 'A' <= c <= 'Z' then (c as int + 32) as char else c
  }

  function Lower(s: string): (r: string)
    ensures |r| == |s|
  {
    seq(|s|, i requires 0 <= i < |s| => LowerChar(s[i]))
  }

  /** A file name is a plugin archive when its lower-cased form ends with
      ".hpi" or ".jpi". */
  predicate IsArchiveName(fileName: string) {
    EndsWith(Lower(fileName), ".hpi") || EndsWith(Lower(fileName), ".jpi")
  }

  /** Which paths the source turns into locations. */
  predicate Accepted(path: string) {
    FileName(path) != [] && IsArchiveName(FileName(path))
  }

  /** The archive test spelt out character by character: '.', then an 'h',
      'H', 'j' or 'J', then 'p' or 'P', then 'i' or 'I'. */
  lemma ArchiveNameByCharacters(fileName: string)
    ensures IsArchiveName(fileName) <==>
      |fileName| >= 4 &&
      fileName[|fileName| - 4] == '.' &&
      fileName[|fileName| - 3] in {'h', 'H', 'j', 'J'} &&
      fileName[|fileName| - 2] in {'p', 'P'} &&
      fileName[|fileName| - 1] in {'i', 'I'}
  {
    var n := |fileName|;
    var low := Lower(fileName);
    if n >= 4 {
      assert low[n - 4..] == [low[n - 4], low[n - 3], low[n - 2], low[n - 1]];
      assert low[n - 4] == LowerChar(fileName[n - 4]);
      assert low[n - 3] == LowerChar(fileName[n - 3]);
      assert low[n - 2] == LowerChar(fileName[n - 2]);
      assert low[n - 1] == LowerChar(fileName[n - 1]);
    }
  }

  /** A path that names a directory (ends in '/') is never accepted. */
  lemma DirectoryNeverAccepted(path: string)
    requires |path| > 0 && path[|path| - 1] == '/'
    ensures !Accepted(path)
  {
  }

  /** What the servlet context's getResource does with one path: a location,
      null, or a malformed-path exception. */
  datatype Resource = Found(url: Url) | NotFound | Malformed

  /** The element a resource lookup adds to the list; a malformed path adds
      nothing. */
  function Added(r: Resource): seq<Sources.Element> {
    match r
    case Found(u) => [Sources.UrlElement(u)]
    case NotFound => [Sources.NullElement]
    case Malformed => []
  }

  /** The elements contributed by the paths `accept` admits, in the order
      the container enumerates the paths. */
  function Select(paths: seq<string>, accept: string -> bool, getResource: string -> Resource): seq<Sources.Element>
    decreases |paths|
  {
    if paths == [] then []
    else
      var last := paths[|paths| - 1];
      Select(paths[..|paths| - 1], accept, getResource) + (if accept(last) then Added(getResource(last)) else [])
  }

  /** Reference definition of the list. */
  function Listing(paths: seq<string>, getResource: string -> Resource): seq<Sources.Element> {
    Select(paths, Accepted, getResource)
  }

  lemma {:induction false} SelectBound(paths: seq<string>, accept: string -> bool, getResource: string -> Resource)
    ensures |Select(paths, accept, getResource)| <= |paths|
    decreases |paths|
  {
    if paths != [] {
      SelectBound(paths[..|paths| - 1], accept, getResource);
    }
  }

  /** The list never has more entries than there are resource paths. */
  lemma ListingBound(paths: seq<string>, getResource: string -> Resource)
    ensures |Listing(paths, getResource)| <= |paths|
  {
    SelectBound(paths, Accepted, getResource);
  }

  lemma SelectStep(paths: seq<string>, i: nat, accept: string -> bool, getResource: string -> Resource)
    requires i < |paths|
    ensures Select(paths[..i + 1], accept, getResource) ==
      Select(paths[..i], accept, getResource) + (if accept(paths[i]) then Added(getResource(paths[i])) else [])
  {
    assert paths[..i + 1][..i] == paths[..i];
  }

  /** Some admitted path resolves to `u`. */
  ghost predicate ResolvesTo(paths: seq<string>, accept: string -> bool, getResource: string -> Resource, u: Url) {
    exists k :: 0 <= k < |paths| && accept(paths[k]) && getResource(paths[k]) == Found(u)
  }

  lemma ResolvesToStep(paths: seq<string>, accept: string -> bool, getResource: string -> Resource, u: Url)
    requires paths != []
    ensures ResolvesTo(paths, accept, getResource, u) <==>
      ResolvesTo(paths[..|paths| - 1], accept, getResource, u) ||
      (accept(paths[|paths| - 1]) && getResource(paths[|paths| - 1]) == Found(u))
  {
    var init := paths[..|paths| - 1];
    if ResolvesTo(paths, accept, getResource, u) {
      var k :| 0 <= k < |paths| && accept(paths[k]) && getResource(paths[k]) == Found(u);
      if k < |init| {
        assert init[k] == paths[k];
      }
    }
    if ResolvesTo(init, accept, getResource, u) {
      var k :| 0 <= k < |init| && accept(init[k]) && getResource(init[k]) == Found(u);
      assert paths[k] == init[k];
    }
  }

  lemma {:induction false} SelectMembers(paths: seq<string>, accept: string -> bool, getResource: string -> Resource, u: Url)
    ensures Sources.UrlElement(u) in Select(paths, accept, getResource) <==> ResolvesTo(paths, accept, getResource, u)
    decreases |paths|
  {
    if paths != [] {
      var n := |paths| - 1;
      SelectMembers(paths[..n], accept, getResource, u);
      ResolvesToStep(paths, accept, getResource, u);
      var tail := if accept(paths[n]) then Added(getResource(paths[n])) else [];
      assert Select(paths, accept, getResource) == Select(paths[..n], accept, getResource) + tail;
      assert Sources.UrlElement(u) in tail <==> accept(paths[n]) && getResource(paths[n]) == Found(u);
    }
  }

  /** A location is listed exactly when some accepted path resolves to it. */
  lemma ListingMembers(paths: seq<string>, getResource: string -> Resource, u: Url)
    ensures Sources.UrlElement(u) in Listing(paths, getResource) <==>
      exists k :: 0 <= k < |paths| && Accepted(paths[k]) && getResource(paths[k]) == Found(u)
  {
    SelectMembers(paths, Accepted, getResource, u);
  }

  /** Lists the bundled archives: with no host instance or no resource set
      the list is empty; otherwise each accepted path adds what the context
      resolves it to, and a malformed one is skipped. */
  method ListPlugins(hasJenkins: bool, resourcePaths: Option<seq<string>>, getResource: string -> Resource)
    returns (result: seq<Sources.Element>)
    ensures !hasJenkins || resourcePaths == None ==> result == []
    ensures hasJenkins && resourcePaths.Some? ==> result == Listing(resourcePaths.value, getResource)
    ensures resourcePaths.Some? ==> |result| <= |resourcePaths.value|
  {
    if !hasJenkins {
      return [];
    }
    var paths := if resourcePaths.Some? then resourcePaths.value else [];
    result := [];
    for i := 0 to |paths|
      invariant result == Listing(paths[..i], getResource)
    {
      SelectStep(paths, i, Accepted, getResource);
      var path := paths[i];
      var fileName := FileName(path);
      if |fileName| == 0 {
        continue;
      }
      var lowerCaseFileName := Lower(fileName);
      if EndsWith(lowerCaseFileName, ".hpi") || EndsWith(lowerCaseFileName, ".jpi") {
        assert Accepted(path);
        match getResource(path) {
          case Found(u) => result := result + [Sources.UrlElement(u)];
          case NotFound => result := result + [Sources.NullElement];
          case Malformed =>
        }
      }
    }
    assert paths[..|paths|] == paths;
    ListingBound(paths, getResource);
  }
}
