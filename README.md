# Citation verifier, modelled in Dafny

Two of the repository's scripts are modelled. Both read a Grokipedia article
and ask whether the citations behind its claims rest on independent sources.

- `citation_verifier.py` (the domain script) collects the external links of
  every citation marker. It maps each citation to the domains of its links,
  inverts that map into domain -> citations, and reports how many distinct
  domains there are.
- `citation_verifier_llm.py` (the language-model script) collects the links
  the same way. When no marker yields anything, it falls back to every http
  anchor of the page. For each citation it fetches the text of the first link
  and asks a language model which outlet is credited. It then groups the
  citations by the normalised answer and counts the answers other than
  "none".

The model covers the following parts of the two scripts. Citation extraction
is modelled over an already parsed document. Domain extraction follows
`urlparse(url).netloc.lower()`. Dependency analysis and the "Actual source
count" are modelled too. So are the prompt and the answer normalisation of
`identify_source`, and the per-citation identification, grouping and count
block of the language-model script's `main`.

Modules, one file each:

| file | module | what it holds |
|---|---|---|
| `sequences.dfy` | `Sequences` | `Option`; strictly increasing, distinct, order-preserving selections; `set(xs)`; the generic keep-what-resolves pass `FilterMap` |
| `text.dfy` | `Text` | `startswith('http')`, ASCII `lower`, `strip` with Python's white-space set, `split("\n")[0]` |
| `document.dfy` | `Document` | the parsed page: `<sup>` markers, elements by id, all anchors; `urljoin` as an opaque function |
| `extraction.dfy` | `Extraction` | `extract_citation_links` of both scripts |
| `domains.dfy` | `Domains` | `get_domain` |
| `dependencies.dfy` | `Dependencies` | `analyze_dependencies` and the source count |
| `provenance.dfy` | `Provenance` | `identify_source` |
| `grouping.dfy` | `Grouping` | lines 127 to 149 of the language-model script's `main` |
| `scenarios.dfy` | `Scenarios` | a two-marker page followed through extraction, `analyze_dependencies` and the count |

The loops of the scripts are methods with loop invariants:

- `CollectHttpLinks` (the footnote loop, and the fallback loop over all
  anchors) and `ExtractCitationLinks` (the marker loop);
- `AnalyzeDependencies` (the loop building `citation_sources`) and
  `InvertSources` (the nested loop building `domain_to_citations`);
- `CitationSources` (the per-citation identification loop) and
  `GroupBySource` (the `setdefault(...).append` loop).

`ExtractCitationLinksWithFallback` and `IdentifyAndGroup` have no loop of
their own: they call those methods in the order the scripts run the loops.
Each method is proved against a function that specifies it, and the lemmas
state what those functions mean. Comprehensions and single expressions are
functions.

Behaviours of the code worth noting:

- A marker whose `#id` names no element is skipped. It does not become an
  empty citation. See `citation_verifier.py:36-38`.
- A marker whose href is not a fragment is kept after `urljoin`, without the
  http filter. See `citation_verifier.py:49-50`.
- The "keep http links" test is `startswith('http')`. It is not a check on
  the scheme, so `httpx:foo` passes and `HTTP://a` does not. See
  `citation_verifier.py:46`.
- The fallback runs when the marker pass collected no citation. Markers that
  were all skipped count as none, not only a page without markers. See
  `citation_verifier_llm.py:61`.
- `not a.get('href')` skips a marker both when the attribute is missing and
  when it is empty. See `citation_verifier.py:31`.
- A whitespace-only model output becomes the empty source "". It is counted
  as a distinct source because it differs from "none"
  (`Provenance.BlankAnswerIsEmpty`). See `citation_verifier_llm.py:105-107`.

## Model

| member | source | states |
|---|---|---|
| Sequences.FilterMapSelection | citation_verifier.py:41-48 | a loop that appends each element's result when it exists keeps exactly the elements whose result exists, in order, one entry each |
| Extraction.HttpLinksSelection | citation_verifier.py:40-47 | the footnote loop keeps exactly the hrefs whose joined URL starts with "http", in document order, as joined URLs; never more links than hrefs |
| Extraction.CollectHttpLinks | citation_verifier_llm.py:51-55 | the footnote loop builds exactly the http-filtered joined hrefs |
| Extraction.MarkerOutcome | citation_verifier.py:30-50 | a marker without a usable href contributes nothing; a `#id` that names no element contributes nothing; a found `#id` contributes the http links of that element; any other href contributes the single joined URL |
| Extraction.MarkerPassSelection | citation_verifier.py:28-50 | the citations are exactly the markers that resolve, in document order, one citation each with that marker's links, so there are never more citations than markers |
| Extraction.ExtractCitationLinks | citation_verifier.py:26-51 | the marker loop returns exactly the marker pass |
| Extraction.ExtractCitationLinksWithFallback | citation_verifier_llm.py:39-68 | the language-model script returns the marker pass, or the fallback when the pass collected nothing |
| Extraction.FallbackSelection | citation_verifier_llm.py:60-67 | a non-empty marker pass is returned unchanged; otherwise there is one singleton citation per anchor whose joined URL starts with "http", in document order, and none for the other anchors |
| Domains.IndexOf | citation_verifier.py:54 | the position of the first occurrence of a character, or the length when it is absent |
| Domains.GetDomain | citation_verifier.py:53-55 | the domain has no upper-case letters, is a fixed point of lower-casing and is no longer than the URL |
| Domains.DomainOfAuthority | citation_verifier.py:53-55 | for `scheme://authority` followed by a path, query or fragment, the network location is the authority and the domain is the authority lower-cased |
| Domains.DomainOfSchemeRelative | citation_verifier.py:53-55 | a scheme-relative `//authority...` has that authority as its network location |
| Domains.NoAuthorityNoDomain | citation_verifier.py:53-55 | a URL with a scheme not followed by "//" (`mailto:`, `urn:`) has the empty domain |
| Domains.SchemeSplit | citation_verifier.py:54 | a valid scheme name followed by ':' is recognised and split off, leaving exactly the rest |
| Dependencies.AnalyzeDependencies | citation_verifier.py:57-68 | `citation_sources` has keys exactly 1..N, and citation i maps to the domains of its links; `domain_to_citations` inverts it, each list non-empty and strictly increasing; its keys are exactly the distinct domains |
| Dependencies.InvertSources | citation_verifier.py:63-67 | for any citation map with keys 1..N, appending each citation to each of its distinct domains lists citation i under d exactly when d is one of i's domains, without repeats and in increasing order |
| Dependencies.DomainSetMember | citation_verifier.py:61-67 | every domain of every citation's links is a key of the grouping |
| Dependencies.DomainSetWitness | citation_verifier.py:61-67 | every key of the grouping is the domain of a link of some citation |
| Dependencies.DomainSetBounds | citation_verifier.py:83 | there are never more distinct domains than links, and none exactly when no citation has a link |
| Domains.DomainIgnoresCase | citation_verifier.py:53-55 | two `scheme://authority...` URLs get the same domain exactly when their authorities differ at most in letter case, so `HTTP://Example.COM/x` and `http://example.com/y` are grouped together |
| Domains.DomainOfHttp | citation_verifier.py:53-55 | an `http://` URL on a host without upper-case letters has exactly that host as its domain |
| Dependencies.ActualSourceCount | citation_verifier.py:76-83 | the reported count is the number of distinct domains and is at most the number of links |
| Scenarios.MarkerToFootnote | citation_verifier.py:33-48 | a marker whose anchor points at an existing `#id` contributes the http links of that footnote |
| Scenarios.TwoMarkerPass | citation_verifier.py:28-51 | two markers pointing at footnotes with links a/x, a/y and b/z give the citations `[[a/x, a/y], [b/z]]`, in marker order |
| Scenarios.TwoFootnoteDomains | citation_verifier.py:59-62 | those two citations map to the domain lists `[a, a]` and `[b]` |
| Scenarios.TwoFootnoteSources | citation_verifier.py:59-62 | `citation_sources` for them is exactly `{1: [a, a], 2: [b]}` |
| Scenarios.TwoGroups | citation_verifier.py:63-67 | any inversion of `{1: [a, a], 2: [b]}` with a and b different is exactly `{a: [1], b: [2]}`: the repeated domain lists citation 1 once |
| Scenarios.TwoFootnotes | citation_verifier.py:63-67 | for those two citations with a and b different, the distinct domains are exactly {a, b}, two of them |
| Scenarios.TwoMarkerReport | citation_verifier.py:75-83 | for the two-marker page, whatever `analyze_dependencies` returns is `{1: [a, a], 2: [b]}` and `{a: [1], b: [2]}`, and the source count is 2 |
| Provenance.PromptRoundTrip | citation_verifier_llm.py:96-100 | the article text can be read back from the prompt after the fixed instruction and "Article: " |
| Provenance.PromptInjective | citation_verifier_llm.py:96-100 | different article texts give different prompts |
| Provenance.IdentifySource | citation_verifier_llm.py:89-107 | "none" for an empty text or a raising model; otherwise the normalised answer; the result never has a line feed or an upper-case letter |
| Provenance.NormaliseProperties | citation_verifier_llm.py:105-107 | the answer is the lower-cased leading part of the stripped output up to its first line feed; it has no line feed and no upper-case letters, and is a fixed point of lower-casing |
| Provenance.NormaliseKeepsCleanAnswer | citation_verifier_llm.py:105-107 | a one-line answer without surrounding white space or upper-case letters is returned unchanged |
| Provenance.BlankAnswerIsEmpty | citation_verifier_llm.py:105-107 | an output made only of white space becomes the empty answer, not "none" |
| Provenance.FirstLineWithoutBreak | citation_verifier_llm.py:106 | `split("\n")[0]` of a text without a line feed is the whole text |
| Text.StripSlice | citation_verifier_llm.py:106 | `strip()` keeps one contiguous piece of its input; all it drops is white space, and the piece neither starts nor ends with white space |
| Text.FirstLine | citation_verifier_llm.py:106 | `split("\n")[0]` is a prefix without line feeds, followed by a line feed when it is shorter than the input |
| Text.TrimStart | citation_verifier_llm.py:106 | `lstrip()` drops a prefix made only of white space, and what remains does not start with white space |
| Text.TrimEnd | citation_verifier_llm.py:106 | `rstrip()` drops a suffix made only of white space, and what remains does not end with white space |
| Text.LowerProperties | citation_verifier_llm.py:107 | lower-casing keeps the length, turns each upper-case ASCII letter into its lower-case partner, leaves every other character unchanged, leaves no upper-case letter and is idempotent |
| Text.LowerCaseInsensitive | citation_verifier.py:55 | two strings lower-case to the same string exactly when they differ at most in the case of ASCII letters |
| Grouping.SourceOfFirstLink | citation_verifier_llm.py:128-134 | a citation without links is "none"; two citations with the same first link get the same source, whatever their other links (with fetch and model taken as functions of their argument) |
| Grouping.SourceOfModel | citation_verifier_llm.py:132-134 | with the model, a citation's source is `identify_source` of its first link's text, without line feeds or upper-case letters |
| Grouping.FetchedSelection | citation_verifier_llm.py:128-133 | exactly one page is fetched per citation with links, namely its first link, in citation order |
| Grouping.CitationSources | citation_verifier_llm.py:127-135 | one source per citation, in order, each that citation's source; the fetched URLs are those of the fetch selection |
| Grouping.FirstOccurrencesSelection | citation_verifier_llm.py:137-139 | the keys of `source_map` are the sources at their first occurrence, in that order |
| Grouping.FirstOccurrencesDistinct | citation_verifier_llm.py:137-139 | the keys of `source_map` have no repeats and are exactly the distinct sources |
| Grouping.PositionsMeaning | citation_verifier_llm.py:138-139 | the list under a source is strictly increasing, holds exactly the citation numbers (from 1) whose source it is, and is empty exactly when no citation has that source |
| Grouping.GroupBySource | citation_verifier_llm.py:137-139 | the loop builds keys in first-seen order and, under each key, the positions of that source |
| Grouping.SourceMapMeaning | citation_verifier_llm.py:137-139 | the keys are the distinct sources, each once; every list is non-empty and increasing; every citation 1..N is listed under its own source and under no other |
| Grouping.NamedKeysMeaning | citation_verifier_llm.py:148 | the kept keys are exactly the keys other than "none", still without repeats |
| Grouping.NamedKeysCount | citation_verifier_llm.py:148-149 | over distinct keys, the count equals the number of distinct sources other than "none" |
| Grouping.IdentifyAndGroup | citation_verifier_llm.py:127-149 | one source per citation from its first link; the source map of those sources; the printed count is the number of distinct sources other than "none", at most the number of citations |
| Grouping.UniqueBound | citation_verifier_llm.py:148-149 | the count of distinct sources other than "none" is at most the number of citations |

## Left out

- Fetching pages (`requests.get`, its timeout, `raise_for_status`) and HTML parsing with BeautifulSoup are not modelled. A document is given as its markers, its elements by id and its anchors (`Document.Doc`). `footnotes[id]` stands for whatever element `soup.find(id=id)` returns, and the model does not compute which element that is. For a non-empty id it is the first element carrying that id. For the marker `href="#"` the call is `soup.find(id="")`, which BeautifulSoup answers with the first element that has no id at all (usually `<html>`), so `footnotes[""]` then holds every link under it.
- `urljoin` is an opaque function parameter: its result for a relative href is not modelled.
- `fetch_article_text` is an opaque parameter (`Grouping.Fetch`). Its paragraph joining and its "" on any request error belong to it.
- Grouping.SourceOfFirstLink: the page fetch and the model are taken as deterministic functions of their argument. The script fetches again for every citation, and a request error or timeout gives "" and hence "none", so two citations with the same first link get the same source only under that assumption.
- The repository's third script, a near-duplicate of `citation_verifier_llm.py` that differs in the model it loads, is not part of this model.
- `load_llm` and the transformers pipeline are an opaque parameter (`Provenance.Llm`). It either generates text or raises; `max_length=50` is the pipeline's concern.
- The printing of both reports, `sys.argv`, `input`, `sys.exit` and the early returns of the language-model script's `main` are left out, because they are input and output.
- Domains.GetDomain: lower-casing covers ASCII letters only. Python's `str.lower` also folds non-ASCII letters.
- Domains.GetDomain: `urlsplit`'s removal of unsafe bytes and of leading C0 controls and spaces is not modelled. Neither is the `ValueError` on a malformed IPv6 bracket, nor the scheme-name lower-casing, which does not affect the network location.
- Dependencies.InvertSources: the order in which the domains of one citation are visited (`set(domains)` iteration) is a free choice, so only the key set and the lists are stated, not the dict's key order.
- Provenance.Prompt has no length contract of its own; `PromptRoundTrip` states what the prompt carries.
- Provenance.Normalise: the white-space set is that of Python's `str.isspace`. Case folding of non-ASCII letters is not modelled.
- The URLs passed to `fetch_article_text` are recorded only as a ghost output of `Grouping.CitationSources`, used to state the fetch pattern.
