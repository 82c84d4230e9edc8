/** The report block of the language-model script's `main`: each citation
    gets one source string (from its first link only), citations are grouped
    by source in the insertion order of a Python dict (`setdefault(...)
    .append`), and the sources other than "none" are counted. */
module Grouping {
  import opened Sequences
  import opened Text
  import opened Provenance

  /** `fetch_article_text(url)`: the page's paragraph text, or "" when the
      request fails. Network access and HTML parsing are outside the model. */
  type Fetch = string -> string

  /** `identify_source(text, llm)` with the loaded model fixed. */
  type Identify = string -> string

  function Identifier(llm: Llm): Identify {
    text => IdentifySource(text, llm)
  }

  /** The source of one citation: "none" without fetching anything when it has
      no links, otherwise `identify` on the text of its first link. */
  function SourceOf(links: seq<string>, fetch: Fetch, identify: Identify): string {
    if |links| == 0 then NoSource else identify(fetch(links[0]))
  }

  /** Only the first link of a citation can influence its source, and a
      citation without links is "none". */
  lemma SourceOfFirstLink(a: seq<string>, b: seq<string>, fetch: Fetch, identify: Identify)
    ensures |a| == 0 ==> SourceOf(a, fetch, identify) == NoSource
    ensures |a| > 0 && |b| > 0 && a[0] == b[0] ==> SourceOf(a, fetch, identify) == SourceOf(b, fetch, identify)
  {
  }

  /** With the model's `identify_source`, a citation's source is "none" or the
      model's normalised answer for its first link's text: one line, no
      upper-case letters. */
  lemma SourceOfModel(links: seq<string>, fetch: Fetch, llm: Llm)
    ensures |links| > 0 ==> SourceOf(links, fetch, Identifier(llm)) == IdentifySource(fetch(links[0]), llm)
    ensures '\n' !in SourceOf(links, fetch, Identifier(llm))
    ensures NoAsciiUpper(SourceOf(links, fetch, Identifier(llm)))
  {
    if |links| > 0 {
      var r := IdentifySource(fetch(links[0]), llm);
      assert Identifier(llm)(fetch(links[0])) == r;
    }
  }

  /** The URLs fetched for the first `n` citations, in order: the first
      link of each of them that has one. */
  function FetchedUrls<T>(citations: seq<seq<T>>, n: int): seq<T>
    requires 0 <= n <= |citations|
  {
    if n == 0 then []
    else
      var last := citations[n - 1];
      FetchedUrls(citations, n - 1) + (if |last| == 0 then [] else [last[0]])
  }

  /** Exactly one fetch per citation with links, of its first link, in
      citation order: `idx` names the citations fetched for. */
  lemma {:induction false} FetchedSelection<T>(citations: seq<seq<T>>, n: int) returns (idx: seq<int>)
    requires 0 <= n <= |citations|
    ensures IsSelection(idx, n)
    ensures |idx| == |FetchedUrls(citations, n)|
    ensures forall k :: 0 <= k < |idx| ==>
      |citations[idx[k]]| > 0 && FetchedUrls(citations, n)[k] == citations[idx[k]][0]
    ensures forall j :: 0 <= j < n ==> (j in idx <==> |citations[j]| > 0)
  {
    if n == 0 {
      idx := [];
    } else {
      var prev := FetchedSelection(citations, n - 1);
      var keep := |citations[n - 1]| > 0;
      idx := if keep then prev + [n - 1] else prev;
      SelectStep(prev, n - 1, keep, idx);
      FetchedOrder(citations, n, prev, idx);
      FetchedWhich(citations, n, prev, idx);
    }
  }

  lemma FetchedOrder<T>(citations: seq<seq<T>>, n: int, prev: seq<int>, idx: seq<int>)
    requires 0 < n <= |citations|
    requires |prev| == |FetchedUrls(citations, n - 1)|
    requires forall k :: 0 <= k < |prev| ==>
      0 <= prev[k] < n - 1 && |citations[prev[k]]| > 0 && FetchedUrls(citations, n - 1)[k] == citations[prev[k]][0]
    requires idx == if |citations[n - 1]| > 0 then prev + [n - 1] else prev
    ensures |idx| == |FetchedUrls(citations, n)|
    ensures forall k :: 0 <= k < |idx| ==>
      |citations[idx[k]]| > 0 && FetchedUrls(citations, n)[k] == citations[idx[k]][0]
  {
    var before := FetchedUrls(citations, n - 1);
    var last := citations[n - 1];
    assert FetchedUrls(citations, n) == before + (if |last| == 0 then [] else [last[0]]);
    forall k | 0 <= k < |idx|
      ensures |citations[idx[k]]| > 0 && FetchedUrls(citations, n)[k] == citations[idx[k]][0]
    {
      if k < |prev| {
        assert idx[k] == prev[k] && FetchedUrls(citations, n)[k] == before[k];
      }
    }
  }

  lemma FetchedWhich<T>(citations: seq<seq<T>>, n: int, prev: seq<int>, idx: seq<int>)
    requires 0 < n <= |citations|
    requires forall j :: 0 <= j < n - 1 ==> (j in prev <==> |citations[j]| > 0)
    requires forall j :: j in idx <==> j in prev || (|citations[n - 1]| > 0 && j == n - 1)
    requires forall k :: 0 <= k < |prev| ==> prev[k] < n - 1
    ensures forall j :: 0 <= j < n ==> (j in idx <==> |citations[j]| > 0)
  {
    assert n - 1 !in prev;
  }

  /** The sources of the first `n` citations, in order. */
  function SourcesUpTo(citations: seq<seq<string>>, fetch: Fetch, identify: Identify, n: int): (r: seq<string>)
    requires 0 <= n <= |citations|
    ensures |r| == n
  {
    if n == 0 then [] else SourcesUpTo(citations, fetch, identify, n - 1) + [SourceOf(citations[n - 1], fetch, identify)]
  }

  lemma {:induction false} SourcesUpToAt(citations: seq<seq<string>>, fetch: Fetch, identify: Identify, n: int)
    requires 0 <= n <= |citations|
    ensures forall k :: 0 <= k < n ==> SourcesUpTo(citations, fetch, identify, n)[k] == SourceOf(citations[k], fetch, identify)
  {
    if n > 0 {
      SourcesUpToAt(citations, fetch, identify, n - 1);
    }
  }

  /** The loop that fills `citation_sources`. `fetched` records the URLs
      passed to `fetch_article_text`. */
  method CitationSources(citations: seq<seq<string>>, fetch: Fetch, identify: Identify)
    returns (sources: seq<string>, ghost fetched: seq<string>)
    ensures |sources| == |citations|
    ensures forall k :: 0 <= k < |citations| ==> sources[k] == SourceOf(citations[k], fetch, identify)
    ensures fetched == FetchedUrls(citations, |citations|)
  {
    sources, fetched := [], [];
    for k := 0 to |citations|
      invariant |sources| == k
      invariant sources == SourcesUpTo(citations, fetch, identify, k)
      invariant fetched == FetchedUrls(citations, k)
    {
      var citationLinks := citations[k];
      if |citationLinks| == 0 {
        sources := sources + [NoSource];
        continue;
      }
      var url := citationLinks[0];
      fetched := fetched + [url];
      var text := fetch(url);
      var source := identify(text);
      sources := sources + [source];
    }
    SourcesUpToAt(citations, fetch, identify, |citations|);
  }

  /** The distinct elements of `xs` in the order they first occur: the key
      order of a dict filled by `setdefault` over `xs`. */
  function FirstOccurrences<T(==)>(xs: seq<T>): seq<T> {
    if xs == [] then []
    else
      var n := |xs| - 1;
      FirstOccurrences(xs[..n]) + (if xs[n] in xs[..n] then [] else [xs[n]])
  }

  /** The positions, counted from 1, at which `x` occurs in `xs`. */
  function Positions<T(==)>(xs: seq<T>, x: T): seq<int> {
    if xs == [] then []
    else
      var n := |xs| - 1;
      Positions(xs[..n], x) + (if xs[n] == x then [n + 1] else [])
  }

  /** The keys are exactly the first occurrences: `idx` names the positions
      of `xs` whose element has not occurred before. */
  lemma {:induction false} FirstOccurrencesSelection<T>(xs: seq<T>) returns (idx: seq<int>)
    ensures IsSelection(idx, |xs|)
    ensures |idx| == |FirstOccurrences(xs)|
    ensures forall k :: 0 <= k < |idx| ==> FirstOccurrences(xs)[k] == xs[idx[k]]
    ensures forall j :: 0 <= j < |xs| ==> (j in idx <==> xs[j] !in xs[..j])
  {
    if xs == [] {
      idx := [];
    } else {
      var n := |xs| - 1;
      var prev := FirstOccurrencesSelection(xs[..n]);
      var before := FirstOccurrences(xs[..n]);
      forall k | 0 <= k < |prev|
        ensures before[k] == xs[prev[k]]
      {
        PrefixAt(xs, n, prev[k]);
      }
      assert n !in prev;
      if xs[n] in xs[..n] {
        idx := prev;
        assert FirstOccurrences(xs) == before;
      } else {
        idx := prev + [n];
        ExtendSelection(prev, n);
        assert FirstOccurrences(xs) == before + [xs[n]];
      }
      forall k | 0 <= k < |idx|
        ensures FirstOccurrences(xs)[k] == xs[idx[k]]
      {
        if k < |prev| {
          assert FirstOccurrences(xs)[k] == before[k] && idx[k] == prev[k];
        }
      }
      FirstSeenStep(xs, prev, idx);
    }
  }

  lemma FirstSeenStep<T>(xs: seq<T>, prev: seq<int>, idx: seq<int>)
    requires xs != []
    requires forall j :: 0 <= j < |xs| - 1 ==> (j in prev <==> xs[..|xs| - 1][j] !in xs[..|xs| - 1][..j])
    requires forall k :: 0 <= k < |prev| ==> prev[k] < |xs| - 1
    requires idx == if xs[|xs| - 1] in xs[..|xs| - 1] then prev else prev + [|xs| - 1]
    ensures forall j :: 0 <= j < |xs| ==> (j in idx <==> xs[j] !in xs[..j])
  {
    var n := |xs| - 1;
    forall j | 0 <= j < |xs|
      ensures j in idx <==> xs[j] !in xs[..j]
    {
      if j < n {
        PrefixAt(xs, n, j);
        assert j in idx <==> j in prev;
      } else {
        assert n !in prev;
      }
    }
  }

  /** Every element appears among the keys, and only once. */
  lemma {:induction false} FirstOccurrencesDistinct<T>(xs: seq<T>)
    ensures Distinct(FirstOccurrences(xs))
    ensures Elements(FirstOccurrences(xs)) == Elements(xs)
  {
    if xs != [] {
      var n := |xs| - 1;
      FirstOccurrencesDistinct(xs[..n]);
      assert xs == xs[..n] + [xs[n]];
      assert Elements(xs) == Elements(xs[..n]) + {xs[n]};
    }
  }

  /** The list for `x` holds exactly the positions of `x`, in increasing
      order, and is empty exactly when `x` does not occur. */
  lemma PositionsMeaning<T>(xs: seq<T>, x: T)
    ensures StrictlyIncreasing(Positions(xs, x))
    ensures forall i :: i in Positions(xs, x) ==> 1 <= i <= |xs| && xs[i - 1] == x
    ensures forall k :: 0 <= k < |xs| && xs[k] == x ==> k + 1 in Positions(xs, x)
    ensures Positions(xs, x) == [] <==> x !in xs
  {
    var p := Positions(xs, x);
    PositionsSound(xs, x);
    assert forall m :: 0 <= m < |p| ==> 1 <= p[m] <= |xs| && xs[p[m] - 1] == x;
    PositionsComplete(xs, x);
    assert forall k :: 0 <= k < |xs| && xs[k] == x ==> k + 1 in p;
    PositionsMembers(xs, x, p);
  }

  lemma PositionsMembers<T>(xs: seq<T>, x: T, p: seq<int>)
    requires forall m :: 0 <= m < |p| ==> 1 <= p[m] <= |xs| && xs[p[m] - 1] == x
    requires forall k :: 0 <= k < |xs| && xs[k] == x ==> k + 1 in p
    ensures forall i :: i in p ==> 1 <= i <= |xs| && xs[i - 1] == x
    ensures p == [] <==> x !in xs
  {
    if x in xs {
      var k :| 0 <= k < |xs| && xs[k] == x;
      assert k + 1 in p;
    }
    if p != [] {
      assert xs[p[0] - 1] == x;
    }
  }

  lemma {:induction false} PositionsSound<T>(xs: seq<T>, x: T)
    ensures IsSelection(Positions(xs, x), |xs| + 1)
    ensures forall m :: 0 <= m < |Positions(xs, x)| ==>
      1 <= Positions(xs, x)[m] && xs[Positions(xs, x)[m] - 1] == x
  {
    if xs != [] {
      var n := |xs| - 1;
      PositionsSound(xs[..n], x);
      var prev := Positions(xs[..n], x);
      forall m | 0 <= m < |prev|
        ensures xs[prev[m] - 1] == x
      {
        PrefixAt(xs, n, prev[m] - 1);
      }
      if xs[n] == x {
        ExtendSelection(prev, n + 1);
        assert Positions(xs, x) == prev + [n + 1];
      } else {
        assert Positions(xs, x) == prev;
      }
    }
  }

  lemma {:induction false} PositionsComplete<T>(xs: seq<T>, x: T)
    ensures forall k :: 0 <= k < |xs| && xs[k] == x ==> k + 1 in Positions(xs, x)
  {
    forall k | 0 <= k < |xs| && xs[k] == x
      ensures k + 1 in Positions(xs, x)
    {
      var m := PositionOf(xs, x, k);
    }
  }

  /** Where position `k` of an occurrence sits in the list. */
  lemma {:induction false} PositionOf<T>(xs: seq<T>, x: T, k: int) returns (m: int)
    requires 0 <= k < |xs| && xs[k] == x
    ensures 0 <= m < |Positions(xs, x)| && Positions(xs, x)[m] == k + 1
  {
    var n := |xs| - 1;
    var prev := Positions(xs[..n], x);
    assert Positions(xs, x) == prev + (if xs[n] == x then [n + 1] else []);
    if k == n {
      m := |prev|;
    } else {
      PrefixAt(xs, n, k);
      m := PositionOf(xs[..n], x, k);
    }
  }

  /** `source_map` after the first `n` citations: keys in first-seen order,
      and under each source the citations that have it. */
  ghost predicate SourceMapUpTo(keys: seq<string>, lists: map<string, seq<int>>, sources: seq<string>, n: int)
    requires 0 <= n <= |sources|
  {
    && keys == FirstOccurrences(sources[..n])
    && lists.Keys == Elements(sources[..n])
    && (forall s :: s in lists ==> lists[s] == Positions(sources[..n], s))
  }

  /** `source_map` for all citations. */
  ghost predicate IsSourceMap(keys: seq<string>, lists: map<string, seq<int>>, sources: seq<string>) {
    SourceMapUpTo(keys, lists, sources, |sources|)
  }

  /** The grouping loop: `source_map.setdefault(src, []).append(idx)` for
      `idx, src in enumerate(citation_sources, start=1)`. */
  method GroupBySource(sources: seq<string>) returns (keys: seq<string>, lists: map<string, seq<int>>)
    ensures IsSourceMap(keys, lists, sources)
  {
    keys, lists := [], map[];
    for n := 0 to |sources|
      invariant SourceMapUpTo(keys, lists, sources, n)
    {
      var src, idx := sources[n], n + 1;
      assert sources[..n + 1] == sources[..n] + [src];
      assert sources[..n + 1][..n] == sources[..n];
      if src in lists {
        lists := lists[src := lists[src] + [idx]];
      } else {
        PositionsMeaning(sources[..n], src);
        keys := keys + [src];
        lists := lists[src := [idx]];
      }
    }
    assert sources[..|sources|] == sources;
  }

  /** In a source map the keys are the distinct sources, each once; every
      list is non-empty and increasing; and every citation 1..N is listed in
      exactly one group, its own source's. */
  lemma SourceMapMeaning(keys: seq<string>, lists: map<string, seq<int>>, sources: seq<string>)
    requires IsSourceMap(keys, lists, sources)
    ensures Distinct(keys) && Elements(keys) == Elements(sources)
    ensures forall s :: s in lists ==> lists[s] != [] && StrictlyIncreasing(lists[s])
    ensures forall s, i :: s in lists && i in lists[s] ==> 1 <= i <= |sources| && sources[i - 1] == s
    ensures forall k :: 0 <= k < |sources| ==> sources[k] in lists && k + 1 in lists[sources[k]]
  {
    assert sources[..|sources|] == sources;
    FirstOccurrencesDistinct(sources);
    forall s | s in lists
      ensures lists[s] != [] && StrictlyIncreasing(lists[s])
      ensures forall i :: i in lists[s] ==> 1 <= i <= |sources| && sources[i - 1] == s
    {
      PositionsMeaning(sources, s);
    }
    forall k | 0 <= k < |sources|
      ensures sources[k] in lists && k + 1 in lists[sources[k]]
    {
      PositionsMeaning(sources, sources[k]);
    }
  }

  /** `[s for s in source_map.keys() if s != "none"]`. */
  function NamedKeys(keys: seq<string>): seq<string> {
    if keys == [] then []
    else
      var last := keys[|keys| - 1];
      NamedKeys(keys[..|keys| - 1]) + (if last != NoSource then [last] else [])
  }

  /** The keys kept are those other than "none", and they stay distinct. */
  lemma {:induction false} NamedKeysMeaning(keys: seq<string>)
    ensures forall x :: x in NamedKeys(keys) <==> x in keys && x != NoSource
    ensures Distinct(keys) ==> Distinct(NamedKeys(keys))
  {
    if keys != [] {
      var n := |keys| - 1;
      NamedKeysMeaning(keys[..n]);
      var before := NamedKeys(keys[..n]);
      assert keys == keys[..n] + [keys[n]];
      if Distinct(keys) {
        DistinctPrefix(keys, n);
        if keys[n] != NoSource {
          assert keys[n] !in keys[..n] by {
            forall k | 0 <= k < n
              ensures keys[..n][k] != keys[n]
            {
              PrefixAt(keys, n, k);
            }
          }
          DistinctAppend(before, keys[n]);
        }
      }
    }
  }

  /** Over distinct keys, counting the keys other than "none" counts the
      distinct sources other than "none". */
  lemma NamedKeysCount(keys: seq<string>)
    requires Distinct(keys)
    ensures |NamedKeys(keys)| == |Elements(keys) - {NoSource}|
  {
    NamedKeysMeaning(keys);
    DistinctElements(NamedKeys(keys));
    assert Elements(NamedKeys(keys)) == Elements(keys) - {NoSource};
  }

  /** Lines 127 to 149 of the script's `main`, without the printing: the
      per-citation sources, the source map, and the count of distinct sources
      other than "none". */
  method IdentifyAndGroup(citations: seq<seq<string>>, fetch: Fetch, llm: Llm)
    returns (sources: seq<string>, keys: seq<string>, lists: map<string, seq<int>>, unique: int)
    ensures |sources| == |citations|
    ensures forall k :: 0 <= k < |citations| ==> sources[k] == SourceOf(citations[k], fetch, Identifier(llm))
    ensures IsSourceMap(keys, lists, sources)
    ensures unique == |Elements(sources) - {NoSource}|
    ensures unique <= |citations|
  {
    ghost var fetched;
    sources, fetched := CitationSources(citations, fetch, Identifier(llm));
    keys, lists := GroupBySource(sources);
    unique := |NamedKeys(keys)|;
    assert sources[..|sources|] == sources;
    assert keys == FirstOccurrences(sources);
    FirstOccurrencesDistinct(sources);
    NamedKeysCount(keys);
    UniqueBound(sources);
  }

  lemma UniqueBound(sources: seq<string>)
    ensures |Elements(sources) - {NoSource}| <= |sources|
  {
    ElementsBound(sources);
  }
}
