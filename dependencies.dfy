/** `analyze_dependencies` of the domain script and the source count its
    `main` reports: citation `i` (counted from 1) is mapped to the domains of
    its links, and the map is inverted into domain -> the citations that
    touch it. The inversion is stated for any type of domain. */
module Dependencies {
  import opened Sequences
  import opened Domains

  /** `[get_domain(link) for link in links]`: one domain per link, duplicates
      and order kept. */
  function DomainsOf(links: seq<string>): seq<string> {
    seq(|links|, k requires 0 <= k < |links| => GetDomain(links[k]))
  }

  /** The domain list of each citation, in citation order. */
  function DomainLists(refs: seq<seq<string>>): seq<seq<string>> {
    seq(|refs|, i requires 0 <= i < |refs| => DomainsOf(refs[i]))
  }

  /** The distinct domains over all citations. */
  function DomainSet(refs: seq<seq<string>>): set<string> {
    Union(DomainLists(refs), |refs|)
  }

  /** The total number of links over all citations. */
  function LinkCount(refs: seq<seq<string>>): nat {
    TotalLength(refs, |refs|)
  }

  /** A domain is in the set exactly when some citation has a link with that
      domain. */
  lemma DomainSetMember(refs: seq<seq<string>>, i: int, d: string)
    requires 0 <= i < |refs| && d in DomainsOf(refs[i])
    ensures d in DomainSet(refs)
  {
    UnionMember(DomainLists(refs), |refs|, i, d);
  }

  lemma DomainSetWitness(refs: seq<seq<string>>, d: string) returns (i: int)
    requires d in DomainSet(refs)
    ensures 0 <= i < |refs| && d in DomainsOf(refs[i])
  {
    i := UnionWitness(DomainLists(refs), |refs|, d);
  }

  lemma {:induction false} DomainListsLength(refs: seq<seq<string>>, n: int)
    requires 0 <= n <= |refs|
    ensures TotalLength(DomainLists(refs), n) == TotalLength(refs, n)
  {
    if n > 0 {
      DomainListsLength(refs, n - 1);
    }
  }

  /** There are never more distinct domains than links, and there are none
      exactly when no citation has a link. */
  lemma DomainSetBounds(refs: seq<seq<string>>)
    ensures |DomainSet(refs)| <= LinkCount(refs)
    ensures DomainSet(refs) == {} <==> forall i :: 0 <= i < |refs| ==> |refs[i]| == 0
  {
    UnionBounds(DomainLists(refs), |refs|);
    DomainListsLength(refs, |refs|);
    assert forall i :: 0 <= i < |refs| ==> |DomainLists(refs)[i]| == |refs[i]|;
  }

  /** `citation_sources`: keys exactly 1..N, and citation `i` maps to the
      domains of the links of `citation_refs[i - 1]`. */
  ghost predicate MapsDomains(sources: map<int, seq<string>>, refs: seq<seq<string>>) {
    && (forall i :: i in sources <==> 1 <= i <= |refs|)
    && (forall i :: 1 <= i <= |refs| ==> i in sources && sources[i] == DomainsOf(refs[i - 1]))
  }

  /** `domain_to_citations` inverts `citation_sources`: `i` is listed under `d`
      exactly when `d` is one of citation `i`'s domains; every list is
      non-empty and strictly increasing, so no citation is listed twice. */
  ghost predicate Inverts<D>(groups: map<D, seq<int>>, sources: map<int, seq<D>>) {
    && (forall d :: d in groups ==> groups[d] != [] && StrictlyIncreasing(groups[d]))
    && (forall d, i {:trigger i in groups[d]} :: d in groups && i in groups[d] ==> i in sources && d in sources[i])
    && (forall i, d :: i in sources && d in sources[i] ==> d in groups && i in groups[d])
  }

  /** `domain_to_citations` after citations 1..n: as `Inverts`, for those
      citations only. */
  ghost predicate GroupedUpTo<D>(groups: map<D, seq<int>>, sources: map<int, seq<D>>, n: int) {
    && (forall d :: d in groups ==> groups[d] != [] && StrictlyIncreasing(groups[d]))
    && (forall d, i {:trigger i in groups[d]} :: d in groups && i in groups[d] ==> 1 <= i <= n && i in sources && d in sources[i])
    && (forall i, d :: 1 <= i <= n && i in sources && d in sources[i] ==> d in groups && i in groups[d])
  }

  /** The defaultdict lookup `domain_to_citations[d]`. */
  function CitesOf<D>(groups: map<D, seq<int>>, d: D): seq<int> {
    if d in groups then groups[d] else []
  }

  /** `after` is `before` with `cit` appended to the list of every domain in
      `ds`, and nothing else changed. */
  ghost predicate AppendedTo<D>(after: map<D, seq<int>>, before: map<D, seq<int>>, ds: set<D>, cit: int) {
    && after.Keys == before.Keys + ds
    && (forall d :: d in ds ==> after[d] == CitesOf(before, d) + [cit])
    && (forall d :: d in after && d !in ds ==> after[d] == before[d])
  }

  lemma AppendOne<D>(groups: map<D, seq<int>>, before: map<D, seq<int>>, done: set<D>, d: D, cit: int)
    requires AppendedTo(groups, before, done, cit) && d !in done
    ensures AppendedTo(groups[d := CitesOf(groups, d) + [cit]], before, done + {d}, cit)
  {
  }

  /** Appending `cit` to a list of earlier citations that contain `d` keeps
      it strictly increasing and made of citations that contain `d`. */
  lemma AppendCitation<D>(prev: seq<int>, sources: map<int, seq<D>>, d: D, cit: int)
    requires cit >= 1 && cit in sources && d in sources[cit]
    requires StrictlyIncreasing(prev)
    requires forall i :: i in prev ==> 1 <= i < cit && i in sources && d in sources[i]
    ensures StrictlyIncreasing(prev + [cit])
    ensures forall i :: i in prev + [cit] ==> 1 <= i <= cit && i in sources && d in sources[i]
  {
    var l := prev + [cit];
    forall a, b | 0 <= a < b < |l|
      ensures l[a] < l[b]
    {
      assert l[a] == prev[a] && prev[a] in prev;
      if b < |prev| {
        assert l[b] == prev[b];
      }
    }
    forall i | i in l
      ensures 1 <= i <= cit && i in sources && d in sources[i]
    {
      if i != cit {
        assert i in prev;
      }
    }
  }

  /** One pass of the inner loop keeps the grouping correct. */
  lemma AddCitation<D>(before: map<D, seq<int>>, after: map<D, seq<int>>,
                       sources: map<int, seq<D>>, cit: int)
    requires cit >= 1 && cit in sources
    requires GroupedUpTo(before, sources, cit - 1)
    requires AppendedTo(after, before, Elements(sources[cit]), cit)
    ensures GroupedUpTo(after, sources, cit)
    ensures after.Keys == before.Keys + Elements(sources[cit])
  {
    var ds := Elements(sources[cit]);
    forall d | d in after
      ensures after[d] != [] && StrictlyIncreasing(after[d])
      ensures forall i :: i in after[d] ==> 1 <= i <= cit && i in sources && d in sources[i]
    {
      if d in ds {
        var prev := CitesOf(before, d);
        forall i | i in prev
          ensures 1 <= i < cit && i in sources && d in sources[i]
        {
          assert d in before && i in before[d];
        }
        AppendCitation(prev, sources, d, cit);
      } else {
        assert d in before && after[d] == before[d];
        forall i | i in after[d]
          ensures 1 <= i <= cit && i in sources && d in sources[i]
        {
          assert i in before[d];
        }
      }
    }
  }

  /** Once every citation is grouped, the grouping inverts the citation map. */
  lemma GroupedAll<D>(n: int, sources: map<int, seq<D>>, groups: map<D, seq<int>>)
    requires forall i :: i in sources ==> 1 <= i <= n
    requires GroupedUpTo(groups, sources, n)
    ensures Inverts(groups, sources)
  {
  }

  /** `analyze_dependencies(citation_refs)`. */
  method AnalyzeDependencies(refs: seq<seq<string>>)
    returns (sources: map<int, seq<string>>, groups: map<string, seq<int>>)
    ensures MapsDomains(sources, refs)
    ensures Inverts(groups, sources)
    ensures groups.Keys == DomainSet(refs)
  {
    sources := map[];
    for i := 0 to |refs|
      invariant forall j :: j in sources <==> 1 <= j <= i
      invariant forall j :: 1 <= j <= i ==> sources[j] == DomainsOf(refs[j - 1])
    {
      sources := sources[i + 1 := DomainsOf(refs[i])];
    }
    groups := InvertSources(sources, |refs|, DomainLists(refs));
  }

  /** The second loop of `analyze_dependencies`: for each citation in turn,
      append it to the list of each of its distinct domains. `lists` names
      the citations' domain lists in order. */
  method InvertSources<D(==)>(sources: map<int, seq<D>>, n: int, ghost lists: seq<seq<D>>)
    returns (groups: map<D, seq<int>>)
    requires |lists| == n
    requires forall i :: i in sources <==> 1 <= i <= n
    requires forall i :: 1 <= i <= n ==> sources[i] == lists[i - 1]
    ensures Inverts(groups, sources)
    ensures groups.Keys == Union(lists, n)
  {
    groups := map[];
    for citIdx := 1 to n + 1
      invariant GroupedUpTo(groups, sources, citIdx - 1)
      invariant groups.Keys == Union(lists, citIdx - 1)
    {
      ghost var before := groups;
      var remaining := Elements(sources[citIdx]);
      ghost var done: set<D> := {};
      while remaining != {}
        invariant done + remaining == Elements(sources[citIdx]) && done !! remaining
        invariant AppendedTo(groups, before, done, citIdx)
        decreases remaining
      {
        var d :| d in remaining;
        AppendOne(groups, before, done, d, citIdx);
        groups := groups[d := CitesOf(groups, d) + [citIdx]];
        remaining := remaining - {d};
        done := done + {d};
      }
      AddCitation(before, groups, sources, citIdx);
    }
    GroupedAll(n, sources, groups);
  }

  /** `main`'s "Actual source count": the number of keys of
      `domain_to_citations`, which is the number of distinct domains. */
  method ActualSourceCount(refs: seq<seq<string>>) returns (count: int)
    ensures count == |DomainSet(refs)|
    ensures count <= LinkCount(refs)
  {
    var sources, groups := AnalyzeDependencies(refs);
    count := |groups|;
    DomainSetBounds(refs);
  }
}
