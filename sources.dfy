/**
 * The merge of every plugin source's locations into one list without
 * duplicates, in order of first occurrence (PluginSource.allPlugins).
 */
module Sources {
  import opened Common

  /** One element of a source's list: a location, a null, or an object of
      some other class. */
  datatype Element = UrlElement(url: Url) | NullElement | OtherElement

  /** What one source's listPlugins does: return a list, return null, throw
      something recoverable (either from the call itself, with no elements,
      or part-way through iterating its list, after `elements`), or throw an
      Error. */
  datatype Listing = Listed(elements: seq<Element>) | NullList | Recovered(elements: seq<Element>) | Fatal

  /** The merged list, or the Error that propagates to the caller. */
  datatype Collected = Urls(urls: seq<Url>) | Propagated

  /** The locations among a list's elements, in order. */
  function UrlElements(es: seq<Element>): seq<Url>
    decreases |es|
  {
    if es == [] then []
    else UrlElements(es[..|es| - 1]) + (if es[|es| - 1].UrlElement? then [es[|es| - 1].url] else [])
  }

  /** The locations a source contributes: none for a null list, and those
      met before the failure for a recoverable one. */
  function Contributed(l: Listing): seq<Url> {
    if l.Listed? || l.Recovered? then UrlElements(l.elements) else []
  }

  /** A location is among a list's locations exactly when it is one of the
      list's elements. */
  lemma {:induction false} UrlElementsMembers(es: seq<Element>, u: Url)
    ensures u in UrlElements(es) <==> UrlElement(u) in es
    decreases |es|
  {
    if es != [] {
      UrlElementsMembers(es[..|es| - 1], u);
      assert es == es[..|es| - 1] + [es[|es| - 1]];
    }
  }

  /** Every contributed location, sources in extension-list order. */
  function Offered(sources: seq<Listing>): seq<Url>
    decreases |sources|
  {
    if sources == [] then []
    else Offered(sources[..|sources| - 1]) + Contributed(sources[|sources| - 1])
  }

  /** The first occurrence of each element, in order: the iteration order of
      a LinkedHashSet filled from `s`. */
  function Dedup(s: seq<Url>): seq<Url>
    decreases |s|
  {
    if s == [] then []
    else if s[|s| - 1] in s[..|s| - 1] then Dedup(s[..|s| - 1])
    else Dedup(s[..|s| - 1]) + [s[|s| - 1]]
  }

  predicate NoDuplicates(s: seq<Url>) {
    forall i, j :: 0 <= i < j < |s| ==> s[i] != s[j]
  }

  /** The position of the first occurrence of `x` in `s`. */
  function FirstIndex(s: seq<Url>, x: Url): nat
    requires x in s
    decreases |s|
  {
    if x in s[..|s| - 1] then FirstIndex(s[..|s| - 1], x) else |s| - 1
  }

  lemma {:induction false} DedupElements(s: seq<Url>)
    ensures forall u :: u in Dedup(s) <==> u in s
    decreases |s|
  {
    if s != [] {
      DedupElements(s[..|s| - 1]);
      assert s == s[..|s| - 1] + [s[|s| - 1]];
    }
  }

  /** The merged list never holds the same location twice. */
  lemma {:induction false} DedupDistinct(s: seq<Url>)
    ensures NoDuplicates(Dedup(s))
    decreases |s|
  {
    if s != [] {
      DedupDistinct(s[..|s| - 1]);
      DedupElements(s[..|s| - 1]);
    }
  }

  /** Locations appear in the order of their first occurrence. */
  lemma {:induction false} DedupFirstOccurrenceOrder(s: seq<Url>)
    ensures forall u :: u in Dedup(s) ==> u in s
    ensures forall i, j :: 0 <= i < j < |Dedup(s)| ==> FirstIndex(s, Dedup(s)[i]) < FirstIndex(s, Dedup(s)[j])
    decreases |s|
  {
    DedupElements(s);
    if s != [] {
      var init := s[..|s| - 1];
      DedupFirstOccurrenceOrder(init);
      DedupElements(init);
      var d := Dedup(s);
      forall u | u in init ensures FirstIndex(s, u) == FirstIndex(init, u) < |init| {
        FirstIndexBound(init, u);
      }
      forall i, j | 0 <= i < j < |d| ensures FirstIndex(s, d[i]) < FirstIndex(s, d[j]) {
        assert d[i] in Dedup(init);
        if j < |Dedup(init)| {
          assert d[j] == Dedup(init)[j];
        }
      }
    }
  }

  lemma {:induction false} FirstIndexBound(s: seq<Url>, x: Url)
    requires x in s
    ensures FirstIndex(s, x) < |s| && s[FirstIndex(s, x)] == x
    decreases |s|
  {
    if x in s[..|s| - 1] {
      FirstIndexBound(s[..|s| - 1], x);
    }
  }

  /** Adding one more location to a LinkedHashSet. */
  lemma DedupSnoc(s: seq<Url>, u: Url)
    ensures Dedup(s + [u]) == if u in s then Dedup(s) else Dedup(s) + [u]
  {
    assert (s + [u])[..|s|] == s;
  }

  /** Adds the locations among one source's elements to `seen`, the merged
      list of what came before. */
  method AddElements(seen: seq<Url>, ghost before: seq<Url>, es: seq<Element>) returns (merged: seq<Url>)
    requires seen == Dedup(before)
    ensures merged == Dedup(before + UrlElements(es))
  {
    merged := seen;
    assert before + UrlElements(es[..0]) == before;
    for j := 0 to |es|
      invariant merged == Dedup(before + UrlElements(es[..j]))
    {
      ghost var prefix := before + UrlElements(es[..j]);
      assert es[..j + 1][..j] == es[..j];
      assert UrlElements(es[..j + 1]) == UrlElements(es[..j]) + (if es[j].UrlElement? then [es[j].url] else []);
      if es[j].UrlElement? {
        DedupElements(prefix);
        DedupSnoc(prefix, es[j].url);
        assert before + UrlElements(es[..j + 1]) == prefix + [es[j].url];
        if es[j].url !in merged {
          merged := merged + [es[j].url];
        }
      } else {
        assert before + UrlElements(es[..j + 1]) == prefix;
      }
    }
    assert es[..|es|] == es;
  }

  lemma OfferedPrefix(sources: seq<Listing>, k: nat)
    requires k < |sources|
    ensures Offered(sources[..k + 1]) == Offered(sources[..k]) + Contributed(sources[k])
  {
    assert sources[..k + 1][..k] == sources[..k];
  }

  /** A location is offered exactly when some source lists it among the
      elements it returned, or among those it iterated before a recoverable
      failure; null lists, nulls, other objects and Errors offer nothing. */
  lemma {:induction false} OfferedMembers(sources: seq<Listing>, u: Url)
    ensures u in Offered(sources) <==>
      exists k :: 0 <= k < |sources| && (sources[k].Listed? || sources[k].Recovered?) &&
        UrlElement(u) in sources[k].elements
    decreases |sources|
  {
    if sources != [] {
      var n := |sources| - 1;
      OfferedMembers(sources[..n], u);
      var l := sources[n];
      if l.Listed? || l.Recovered? {
        UrlElementsMembers(l.elements, u);
      }
      if exists k :: 0 <= k < |sources| && (sources[k].Listed? || sources[k].Recovered?) &&
          UrlElement(u) in sources[k].elements {
        var k :| 0 <= k < |sources| && (sources[k].Listed? || sources[k].Recovered?) &&
          UrlElement(u) in sources[k].elements;
        if k < n {
          assert sources[..n][k] == sources[k];
        }
      }
    }
  }

  /** Merges the lists of all sources; with no host instance the result is
      empty. */
  method AllPlugins(hasJenkins: bool, sources: seq<Listing>) returns (r: Collected)
    ensures !hasJenkins ==> r == Urls([])
    ensures hasJenkins ==>
      (r == Propagated <==> exists k :: 0 <= k < |sources| && sources[k] == Fatal)
    ensures hasJenkins && r.Urls? ==> r.urls == Dedup(Offered(sources))
    ensures r.Urls? ==> NoDuplicates(r.urls)
    ensures hasJenkins && r.Urls? ==> forall u :: u in r.urls <==> u in Offered(sources)
  {
    if !hasJenkins {
      return Urls([]);
    }
    var resultSet: seq<Url> := [];
    for k := 0 to |sources|
      invariant resultSet == Dedup(Offered(sources[..k]))
      invariant forall j :: 0 <= j < k ==> sources[j] != Fatal
    {
      OfferedPrefix(sources, k);
      if sources[k] == Fatal {
        return Propagated;
      } else if sources[k].Listed? || sources[k].Recovered? {
        resultSet := AddElements(resultSet, Offered(sources[..k]), sources[k].elements);
        assert Contributed(sources[k]) == UrlElements(sources[k].elements);
      } else {
        assert Contributed(sources[k]) == [];
        assert Offered(sources[..k + 1]) == Offered(sources[..k]);
      }
    }
    assert sources[..|sources|] == sources;
    DedupDistinct(Offered(sources));
    DedupElements(Offered(sources));
    r := Urls(resultSet);
  }
}
