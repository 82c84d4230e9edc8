/** The parsed article as the scripts query it. The HTML parser is not part of
    the model: a document is given as the three views the scripts ask of the
    tree. */
module Document {
  import opened Sequences

  /** The first `<a>` element inside a `<sup>`; `href` is `a.get('href')`. */
  datatype Anchor = Anchor(href: Option<string>)

  /** A `<sup>` citation marker; `firstAnchor` is `sup.find('a')`. */
  datatype Sup = Sup(firstAnchor: Option<Anchor>)

  /** `sups` is `soup.find_all('sup')` in document order; `footnotes` maps an
      id to the `href` values of `find_all('a', href=True)` inside the element
      `soup.find(id=...)` returns for it (the first element carrying a
      non-empty id; for the empty id, the first element without one), and
      lacks the ids for which it returns nothing; `anchors` is
      `soup.find_all('a', href=True)` over the whole document, in order. */
  datatype Doc = Doc(sups: seq<Sup>, footnotes: map<string, seq<string>>, anchors: seq<string>)

  /** `urljoin(base, href)` from Python's `urllib.parse`, left uninterpreted. */
  type UrlJoin = (string, string) -> string
}
