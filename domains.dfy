/** `get_domain(url)` of the domain script: `urlparse(url).netloc.lower()`.
    The network location is computed as Python's `urllib.parse.urlsplit` does:
    a scheme prefix is split off at the first ':' when everything before it is
    a valid scheme name, and the authority is what follows a "//" up to the
    first '/', '?' or '#'. */
module Domains {
  import opened Text

  /** Letters, digits, '+', '-' and '.': the characters of a scheme name. */
  predicate IsSchemeChar(c: char) {
    IsAsciiAlpha(c) || '0' <= c <= '9' || c == '+' || c == '-' || c == '.'
  }

  /** `s.find(c)`, with `|s|` standing for Python's -1 when `c` is absent. */
  function IndexOf(s: string, c: char): (i: int)
    ensures 0 <= i <= |s|
    ensures c !in s[..i]
    ensures i < |s| ==> s[i] == c
  {
    if s == [] || s[0] == c then 0
    else
      var i := 1 + IndexOf(s[1..], c);
      assert s[..i] == [s[0]] + s[1..][..i - 1];
      i
  }

  /** The scheme rule: everything before the first ':' is a valid scheme
      name. */
  predicate HasScheme(url: string) {
    var i := IndexOf(url, ':');
    i < |url| && IsScheme(url[..i])
  }

  /** The URL with its scheme and ':' removed, when it has one. */
  function AfterScheme(url: string): string {
    if HasScheme(url) then url[IndexOf(url, ':') + 1..] else url
  }

  /** Where the authority ends: the first '/', '?' or '#'. */
  function AuthorityEnd(s: string): (n: int)
    ensures 0 <= n <= |s|
    ensures forall k :: 0 <= k < n ==> s[k] !in "/?#"
    ensures n < |s| ==> s[n] in "/?#"
  {
    if s == [] || s[0] in "/?#" then 0 else 1 + AuthorityEnd(s[1..])
  }

  /** `urlsplit(url).netloc`: the authority after "//", or empty. */
  function NetLoc(url: string): string {
    var rest := AfterScheme(url);
    if |rest| >= 2 && rest[..2] == "//" then rest[2..][..AuthorityEnd(rest[2..])] else ""
  }

  /** `get_domain`: the network location, lower-cased; lower-casing it again
      changes nothing. */
  function GetDomain(url: string): (d: string)
    ensures NoAsciiUpper(d)
    ensures Lower(d) == d
    ensures |d| <= |url|
  {
    LowerProperties(NetLoc(url));
    Lower(NetLoc(url))
  }

  /** A valid scheme name. */
  predicate IsScheme(scheme: string) {
    scheme != [] && IsAsciiAlpha(scheme[0]) && forall k :: 0 <= k < |scheme| ==> IsSchemeChar(scheme[k])
  }

  /** An authority: no '/', '?' or '#' inside. */
  predicate IsAuthority(authority: string) {
    forall k :: 0 <= k < |authority| ==> authority[k] !in "/?#"
  }

  /** A path, query or fragment that may follow an authority. */
  predicate IsAuthorityTail(tail: string) {
    tail == [] || tail[0] in "/?#"
  }

  lemma SchemeSplit(scheme: string, rest: string)
    requires IsScheme(scheme)
    ensures HasScheme(scheme + ":" + rest)
    ensures AfterScheme(scheme + ":" + rest) == rest
  {
    var url := scheme + ":" + rest;
    var i := IndexOf(url, ':');
    assert url[|scheme|] == ':';
    assert url[i + 1..] == rest;
  }

  /** The domain of `scheme://authority/...` is the authority, lower-cased:
      `get_domain` recovers the host (and port) a URL was built from. */
  lemma DomainOfAuthority(scheme: string, authority: string, tail: string)
    requires IsScheme(scheme) && IsAuthority(authority) && IsAuthorityTail(tail)
    ensures NetLoc(scheme + "://" + authority + tail) == authority
    ensures GetDomain(scheme + "://" + authority + tail) == Lower(authority)
  {
    var rest := "//" + authority + tail;
    var url := scheme + "://" + authority + tail;
    assert url == scheme + ":" + rest;
    SchemeSplit(scheme, rest);
    NetLocOfRest(url, authority, tail);
  }

  /** Once the scheme is split off, "//authority" followed by a path, query or
      fragment yields that authority. */
  lemma NetLocOfRest(url: string, authority: string, tail: string)
    requires IsAuthority(authority) && IsAuthorityTail(tail)
    requires AfterScheme(url) == "//" + authority + tail
    ensures NetLoc(url) == authority
  {
    var rest := "//" + authority + tail;
    assert rest[..2] == "//";
    assert rest[2..] == authority + tail;
    AuthorityOf(authority, tail);
    assert (authority + tail)[..|authority|] == authority;
  }

  /** A scheme-relative `//authority/...` has that authority as its domain. */
  lemma DomainOfSchemeRelative(authority: string, tail: string)
    requires IsAuthority(authority) && IsAuthorityTail(tail)
    ensures NetLoc("//" + authority + tail) == authority
  {
    var url := "//" + authority + tail;
    assert !HasScheme(url) by {
      assert !IsAsciiAlpha(url[0]);
    }
    NetLocOfRest(url, authority, tail);
  }

  /** A URL whose scheme is not followed by "//" (`mailto:`, `urn:`) has an
      empty domain. */
  lemma NoAuthorityNoDomain(scheme: string, rest: string)
    requires IsScheme(scheme)
    requires !("//" <= rest)
    ensures GetDomain(scheme + ":" + rest) == ""
  {
    SchemeSplit(scheme, rest);
  }

  lemma {:induction false} AuthorityOf(authority: string, tail: string)
    requires IsAuthority(authority) && IsAuthorityTail(tail)
    ensures AuthorityEnd(authority + tail) == |authority|
  {
    if authority != [] {
      assert (authority + tail)[1..] == authority[1..] + tail;
      AuthorityOf(authority[1..], tail);
    }
  }

  /** Two URLs built on authorities that differ at most in the case of ASCII
      letters (`HTTP://Example.COM/x` and `http://example.com/y`) have the same
      domain, and only those do: this is what lower-casing buys the grouping. */
  lemma DomainIgnoresCase(scheme: string, authority: string, tail: string,
                          scheme': string, authority': string, tail': string)
    requires IsScheme(scheme) && IsAuthority(authority) && IsAuthorityTail(tail)
    requires IsScheme(scheme') && IsAuthority(authority') && IsAuthorityTail(tail')
    ensures GetDomain(scheme + "://" + authority + tail) == GetDomain(scheme' + "://" + authority' + tail')
        <==> SameUpToCase(authority, authority')
  {
    DomainOfAuthority(scheme, authority, tail);
    DomainOfAuthority(scheme', authority', tail');
    LowerCaseInsensitive(authority, authority');
  }

  /** An `http://` URL on a host without upper-case letters has that host as
      its domain. */
  lemma DomainOfHttp(host: string, path: string)
    requires IsAuthority(host) && NoAsciiUpper(host) && IsAuthorityTail(path)
    ensures GetDomain("http://" + host + path) == host
  {
    assert IsScheme("http");
    assert "http://" + host + path == "http" + "://" + host + path;
    DomainOfAuthority("http", host, path);
    LowerOfLower(host);
  }
}
