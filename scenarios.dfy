/** A page with two citation markers, the first pointing at a footnote with
    two links on host `a`, the second at a footnote with one link on host `b`,
    followed from the parsed page to the domain script's report. */
module Scenarios {
  import opened Sequences
  import opened Text
  import opened Document
  import opened Extraction
  import opened Domains
  import opened Dependencies

  /** A `<sup>` whose first anchor points at `#id`. */
  function MarkerTo(id: string): Sup {
    Sup(Some(Anchor(Some("#" + id))))
  }

  /** A marker pointing at an existing footnote contributes that footnote's
      http links. */
  lemma MarkerToFootnote(doc: Doc, base: string, join: UrlJoin, id: string)
    requires id in doc.footnotes
    ensures Resolve(doc, base, join, MarkerTo(id)) == Some(HttpLinks(base, doc.footnotes[id], join))
  {
    assert ("#" + id)[1..] == id;
  }

  /** The marker pass over the two-marker page: one citation per marker, with
      the joined links of its footnote in order. */
  lemma TwoMarkerPass(doc: Doc, base: string, join: UrlJoin, n1: string, n2: string,
                      h1: string, h2: string, h3: string, a: string, b: string, x: string, y: string, z: string)
    requires n1 != n2 && doc.sups == [MarkerTo(n1), MarkerTo(n2)]
    requires doc.footnotes == map[n1 := [h1, h2], n2 := [h3]]
    requires join(base, h1) == "http://" + a + x && join(base, h2) == "http://" + a + y
    requires join(base, h3) == "http://" + b + z
    ensures MarkerPass(doc, base, join) == [["http://" + a + x, "http://" + a + y], ["http://" + b + z]]
  {
    var u, v, w := "http://" + a + x, "http://" + a + y, "http://" + b + z;
    assert IsHttp(u) && IsHttp(v) && IsHttp(w);
    FilterMapPair(h1, h2, HttpLink(base, join), u, v);
    FilterMapSingle(h3, HttpLink(base, join), w);
    MarkerToFootnote(doc, base, join, n1);
    MarkerToFootnote(doc, base, join, n2);
    FilterMapPair(MarkerTo(n1), MarkerTo(n2), Resolver(doc, base, join), [u, v], [w]);
  }

  /** The two citations map to the domain lists `[a, a]` and `[b]`. */
  lemma TwoFootnoteDomains(a: string, b: string, x: string, y: string, z: string)
    requires IsAuthority(a) && NoAsciiUpper(a) && IsAuthority(b) && NoAsciiUpper(b)
    requires IsAuthorityTail(x) && IsAuthorityTail(y) && IsAuthorityTail(z)
    ensures DomainLists([["http://" + a + x, "http://" + a + y], ["http://" + b + z]]) == [[a, a], [b]]
  {
    var refs := [["http://" + a + x, "http://" + a + y], ["http://" + b + z]];
    DomainOfHttp(a, x);
    DomainOfHttp(a, y);
    DomainOfHttp(b, z);
    assert DomainsOf(refs[0]) == [a, a];
    assert DomainsOf(refs[1]) == [b];
  }

  /** With different hosts there are exactly two distinct domains. */
  lemma TwoFootnotes(a: string, b: string, x: string, y: string, z: string)
    requires IsAuthority(a) && NoAsciiUpper(a) && IsAuthority(b) && NoAsciiUpper(b) && a != b
    requires IsAuthorityTail(x) && IsAuthorityTail(y) && IsAuthorityTail(z)
    ensures DomainSet([["http://" + a + x, "http://" + a + y], ["http://" + b + z]]) == {a, b}
    ensures |DomainSet([["http://" + a + x, "http://" + a + y], ["http://" + b + z]])| == 2
  {
    var refs := [["http://" + a + x, "http://" + a + y], ["http://" + b + z]];
    TwoFootnoteDomains(a, b, x, y, z);
    UnionOfTwo([a, a], [b]);
    assert Elements([a, a]) == {a};
    assert Elements([b]) == {b};
    assert DomainSet(refs) == Union([[a, a], [b]], 2);
  }

  /** `citation_sources` for those citations is `{1: [a, a], 2: [b]}`. */
  lemma TwoFootnoteSources(sources: map<int, seq<string>>, a: string, b: string, x: string, y: string, z: string)
    requires IsAuthority(a) && NoAsciiUpper(a) && IsAuthority(b) && NoAsciiUpper(b)
    requires IsAuthorityTail(x) && IsAuthorityTail(y) && IsAuthorityTail(z)
    requires MapsDomains(sources, [["http://" + a + x, "http://" + a + y], ["http://" + b + z]])
    ensures sources == map[1 := [a, a], 2 := [b]]
  {
    var refs := [["http://" + a + x, "http://" + a + y], ["http://" + b + z]];
    TwoFootnoteDomains(a, b, x, y, z);
    assert sources[1] == DomainsOf(refs[0]) == DomainLists(refs)[0];
    assert sources[2] == DomainsOf(refs[1]) == DomainLists(refs)[1];
    forall i | i in sources
      ensures i == 1 || i == 2
    {
    }
  }

  /** Any inversion of `{1: [a, a], 2: [b]}` with `a != b` is
      `{a: [1], b: [2]}`: the duplicate link of citation 1 is listed once. */
  lemma TwoGroups<D>(sources: map<int, seq<D>>, groups: map<D, seq<int>>, a: D, b: D)
    requires sources == map[1 := [a, a], 2 := [b]] && a != b
    requires Inverts(groups, sources)
    ensures groups == map[a := [1], b := [2]]
  {
    forall d | d in groups
      ensures d == a || d == b
    {
      assert groups[d][0] in groups[d];
    }
    assert a in sources[1] && b in sources[2];
    assert groups.Keys == {a, b};
    forall i | i in groups[a]
      ensures i == 1
    {
      assert i in sources && a in sources[i];
    }
    forall i | i in groups[b]
      ensures i == 2
    {
      assert i in sources && b in sources[i];
    }
    OnlyElement(groups[a], 1);
    OnlyElement(groups[b], 2);
  }

  /** The whole report of the domain script for the two-marker page: the
      marker pass yields the two citations, `analyze_dependencies` maps them
      to `{1: [a, a], 2: [b]}` and `{a: [1], b: [2]}`, and the source count
      is 2. */
  lemma TwoMarkerReport(doc: Doc, base: string, join: UrlJoin, n1: string, n2: string,
                        h1: string, h2: string, h3: string, a: string, b: string, x: string, y: string, z: string,
                        sources: map<int, seq<string>>, groups: map<string, seq<int>>)
    requires n1 != n2 && doc.sups == [MarkerTo(n1), MarkerTo(n2)]
    requires doc.footnotes == map[n1 := [h1, h2], n2 := [h3]]
    requires join(base, h1) == "http://" + a + x && join(base, h2) == "http://" + a + y
    requires join(base, h3) == "http://" + b + z
    requires IsAuthority(a) && NoAsciiUpper(a) && IsAuthority(b) && NoAsciiUpper(b) && a != b
    requires IsAuthorityTail(x) && IsAuthorityTail(y) && IsAuthorityTail(z)
    requires MapsDomains(sources, MarkerPass(doc, base, join)) && Inverts(groups, sources)
    ensures sources == map[1 := [a, a], 2 := [b]]
    ensures groups == map[a := [1], b := [2]]
    ensures |groups| == 2
  {
    TwoMarkerPass(doc, base, join, n1, n2, h1, h2, h3, a, b, x, y, z);
    TwoFootnoteSources(sources, a, b, x, y, z);
    TwoGroups(sources, groups, a, b);
    assert groups.Keys == {a, b};
  }
}
