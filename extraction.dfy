/** `extract_citation_links` of both scripts, over an already parsed document:
    the marker pass that resolves each `<sup>` to its list of links, and the
    fallback of the language-model script that turns every http anchor of the
    document into a citation of its own when the marker pass collected
    nothing. */
module Extraction {
  import opened Sequences
  import opened Text
  import opened Document

  /** One href of a footnote: joined against the article URL, and kept only
      when the joined text starts with "http". */
  function HttpLink(base: string, join: UrlJoin): string -> Option<string> {
    href => var url := join(base, href); if IsHttp(url) then Some(url) else None
  }

  /** The footnote loop: the http links among the joined hrefs, in order. */
  function HttpLinks(base: string, hrefs: seq<string>, join: UrlJoin): seq<string> {
    FilterMap(hrefs, HttpLink(base, join))
  }

  /** `HttpLinks` is exactly the order-preserving selection of the joined hrefs
      that start with "http": `idx` names the hrefs that were kept, and every
      link starts with "http". */
  lemma HttpLinksSelection(base: string, hrefs: seq<string>, join: UrlJoin)
    returns (idx: seq<int>)
    ensures IsSelection(idx, |hrefs|)
    ensures |idx| == |HttpLinks(base, hrefs, join)| <= |hrefs|
    ensures forall k :: 0 <= k < |idx| ==> HttpLinks(base, hrefs, join)[k] == join(base, hrefs[idx[k]])
    ensures forall j :: 0 <= j < |hrefs| ==> (j in idx <==> IsHttp(join(base, hrefs[j])))
    ensures forall k :: 0 <= k < |HttpLinks(base, hrefs, join)| ==> IsHttp(HttpLinks(base, hrefs, join)[k])
  {
    var f := HttpLink(base, join);
    idx := FilterMapSelection(hrefs, f);
    var links := HttpLinks(base, hrefs, join);
    forall k | 0 <= k < |idx|
      ensures links[k] == join(base, hrefs[idx[k]]) && IsHttp(links[k])
    {
      assert f(hrefs[idx[k]]) == Some(links[k]);
    }
    forall j | 0 <= j < |hrefs|
      ensures j in idx <==> IsHttp(join(base, hrefs[j]))
    {
      assert f(hrefs[j]).Some? <==> IsHttp(join(base, hrefs[j]));
    }
  }

  /** The href a marker is followed by: the first anchor's `href`, provided
      the anchor exists and the attribute is present and not empty
      (`if not a or not a.get('href'): continue`). */
  function MarkerHref(sup: Sup): Option<string> {
    match sup.firstAnchor
    case None => None
    case Some(a) => if a.href.Some? && a.href.value != "" then a.href else None
  }

  /** An in-page reference `#id`. */
  predicate IsFragment(href: string) {
    href != [] && href[0] == '#'
  }

  /** What one marker contributes: nothing (`None`) when it has no usable href
      or its `#id` names no element; the http links of the footnote for a
      found `#id`; the joined href, unfiltered, for any other href. */
  function Resolve(doc: Doc, base: string, join: UrlJoin, sup: Sup): Option<seq<string>> {
    match MarkerHref(sup)
    case None => None
    case Some(href) =>
      if IsFragment(href) then
        if href[1..] in doc.footnotes then Some(HttpLinks(base, doc.footnotes[href[1..]], join)) else None
      else Some([join(base, href)])
  }

  /** The outcome of one marker, case by case. */
  lemma MarkerOutcome(doc: Doc, base: string, join: UrlJoin, sup: Sup)
    ensures MarkerHref(sup) == None ==> Resolve(doc, base, join, sup) == None
    ensures MarkerHref(sup).Some? && IsFragment(MarkerHref(sup).value) ==>
      var id := MarkerHref(sup).value[1..];
      && (id !in doc.footnotes ==> Resolve(doc, base, join, sup) == None)
      && (id in doc.footnotes ==>
            Resolve(doc, base, join, sup) == Some(HttpLinks(base, doc.footnotes[id], join)))
    ensures MarkerHref(sup).Some? && !IsFragment(MarkerHref(sup).value) ==>
      Resolve(doc, base, join, sup) == Some([join(base, MarkerHref(sup).value)])
  {
  }

  /** `Resolve` against a fixed document and article URL. */
  function Resolver(doc: Doc, base: string, join: UrlJoin): Sup -> Option<seq<string>> {
    sup => Resolve(doc, base, join, sup)
  }

  /** The marker pass over a run of markers. */
  function ResolveAll(doc: Doc, base: string, join: UrlJoin, sups: seq<Sup>): seq<seq<string>> {
    FilterMap(sups, Resolver(doc, base, join))
  }

  /** The marker pass over the whole document. */
  function MarkerPass(doc: Doc, base: string, join: UrlJoin): seq<seq<string>> {
    ResolveAll(doc, base, join, doc.sups)
  }

  /** The marker pass keeps the markers that resolve, in document order, one
      entry each, and drops the others: `idx` names the kept markers. Hence
      there are never more entries than markers. */
  lemma MarkerPassSelection(doc: Doc, base: string, join: UrlJoin)
    returns (idx: seq<int>)
    ensures IsSelection(idx, |doc.sups|)
    ensures |idx| == |MarkerPass(doc, base, join)| <= |doc.sups|
    ensures forall k :: 0 <= k < |idx| ==>
      Resolve(doc, base, join, doc.sups[idx[k]]) == Some(MarkerPass(doc, base, join)[k])
    ensures forall j :: 0 <= j < |doc.sups| ==> (j in idx <==> Resolve(doc, base, join, doc.sups[j]).Some?)
  {
    var f := Resolver(doc, base, join);
    idx := FilterMapSelection(doc.sups, f);
    forall k | 0 <= k < |idx|
      ensures Resolve(doc, base, join, doc.sups[idx[k]]) == Some(MarkerPass(doc, base, join)[k])
    {
      assert f(doc.sups[idx[k]]) == Some(MarkerPass(doc, base, join)[k]);
    }
    forall j | 0 <= j < |doc.sups|
      ensures j in idx <==> Resolve(doc, base, join, doc.sups[j]).Some?
    {
      assert f(doc.sups[j]) == Resolve(doc, base, join, doc.sups[j]);
    }
  }

  /** The fallback's `[[url] for url in links]`. */
  function Singletons(links: seq<string>): seq<seq<string>> {
    seq(|links|, k requires 0 <= k < |links| => [links[k]])
  }

  /** The language-model script's extraction: the marker pass, unless it
      collected nothing, in which case every http anchor of the document. */
  function ExtractWithFallback(doc: Doc, base: string, join: UrlJoin): seq<seq<string>> {
    var refs := MarkerPass(doc, base, join);
    if refs != [] then refs else Singletons(HttpLinks(base, doc.anchors, join))
  }

  /** When the marker pass collected nothing, the result has one singleton per
      document anchor whose joined URL starts with "http", in document order,
      and none for the other anchors; otherwise it is the marker pass. */
  lemma FallbackSelection(doc: Doc, base: string, join: UrlJoin) returns (idx: seq<int>)
    ensures MarkerPass(doc, base, join) != [] ==> ExtractWithFallback(doc, base, join) == MarkerPass(doc, base, join)
    ensures MarkerPass(doc, base, join) == [] ==>
      && IsSelection(idx, |doc.anchors|)
      && |idx| == |ExtractWithFallback(doc, base, join)|
      && (forall k :: 0 <= k < |idx| ==>
            && ExtractWithFallback(doc, base, join)[k] == [join(base, doc.anchors[idx[k]])]
            && IsHttp(join(base, doc.anchors[idx[k]])))
      && (forall j :: 0 <= j < |doc.anchors| ==> (j in idx <==> IsHttp(join(base, doc.anchors[j]))))
  {
    idx := HttpLinksSelection(base, doc.anchors, join);
  }

  /** The loop that fills a footnote's `links` (and the fallback's). */
  method CollectHttpLinks(base: string, hrefs: seq<string>, join: UrlJoin) returns (links: seq<string>)
    ensures links == HttpLinks(base, hrefs, join)
  {
    links := [];
    for j := 0 to |hrefs|
      invariant links == HttpLinks(base, hrefs[..j], join)
    {
      FilterMapStep(hrefs, HttpLink(base, join), j);
      var fullUrl := join(base, hrefs[j]);
      if IsHttp(fullUrl) {
        links := links + [fullUrl];
      }
    }
    FilterMapStep(hrefs, HttpLink(base, join), |hrefs|);
  }

  /** `extract_citation_links` of the domain script, from the parsed page on. */
  method ExtractCitationLinks(doc: Doc, base: string, join: UrlJoin) returns (refs: seq<seq<string>>)
    ensures refs == MarkerPass(doc, base, join)
  {
    refs := [];
    for i := 0 to |doc.sups|
      invariant refs == ResolveAll(doc, base, join, doc.sups[..i])
    {
      FilterMapStep(doc.sups, Resolver(doc, base, join), i);
      var a := doc.sups[i].firstAnchor;
      if a.None? || a.value.href.None? || a.value.href.value == "" {
        assert Resolve(doc, base, join, doc.sups[i]) == None;
        continue;
      }
      var href := a.value.href.value;
      if href[0] == '#' {
        if href[1..] !in doc.footnotes {
          assert Resolve(doc, base, join, doc.sups[i]) == None;
          continue;
        }
        var links := CollectHttpLinks(base, doc.footnotes[href[1..]], join);
        assert Resolve(doc, base, join, doc.sups[i]) == Some(links);
        refs := refs + [links];
      } else {
        assert Resolve(doc, base, join, doc.sups[i]) == Some([join(base, href)]);
        refs := refs + [[join(base, href)]];
      }
    }
    FilterMapStep(doc.sups, Resolver(doc, base, join), |doc.sups|);
  }

  /** `extract_citation_links` of the language-model script: the same marker
      pass, then the fallback over all anchors when it collected nothing. */
  method ExtractCitationLinksWithFallback(doc: Doc, base: string, join: UrlJoin)
    returns (refs: seq<seq<string>>)
    ensures refs == ExtractWithFallback(doc, base, join)
  {
    refs := ExtractCitationLinks(doc, base, join);
    if refs == [] {
      var links := CollectHttpLinks(base, doc.anchors, join);
      refs := Singletons(links);
    }
  }
}
