/** Splitting an HTTPS URL into host and path. */
module Url {
  import opened Prelude
  import opened Errors
  import opened Scan
  import opened Text

  const SCHEME := "https://"

  function SplitHttpsUrl(url: string): Result<(string, string), Error> {
    if !(SCHEME <= url) then Err(Io(UnsupportedScheme(url)))
    else if url[|SCHEME|..] == "" then Err(Io(MissingHost(url)))
    else
      var (host, path) := SplitRest(url[|SCHEME|..]);
      if host == "" then Err(Io(MissingHost(url))) else Ok((host, path))
  }

  /** Looks for '/' first, and for '?' only without one. */
  function SplitRest(rest: string): (string, string) {
    match SplitOnce(rest, '/')
    case Some((host, remainder)) => (host, "/" + remainder)
    case None =>
      match SplitOnce(rest, '?')
      case Some((host, query)) => (host, "/?" + query)
      case None => (rest, "/")
  }

  /** The pair has a non-empty host without '/', and a path that starts with '/'. */
  lemma SplitShape(url: string)
    requires SplitHttpsUrl(url).Ok?
    ensures var (host, path) := SplitHttpsUrl(url).value;
      host != "" && '/' !in host && path != "" && path[0] == '/'
  {
  }

  /** Rebuilding a URL from such a pair and splitting it again gives the pair back. */
  lemma RebuiltSplits(host: string, path: string)
    requires host != "" && '/' !in host && path != "" && path[0] == '/'
    ensures SplitHttpsUrl(SCHEME + host + path) == Ok((host, path))
  {
    var url := SCHEME + host + path;
    assert url[..|SCHEME|] == SCHEME;
    assert url[|SCHEME|..] == host + ['/'] + path[1..];
    assert "/" + path[1..] == path;
    SplitOnceAt(host, '/', path[1..]);
  }

  /** Splitting loses nothing: the pair splits to itself. */
  lemma SplitTwice(url: string)
    requires SplitHttpsUrl(url).Ok?
    ensures var (host, path) := SplitHttpsUrl(url).value;
      SplitHttpsUrl(SCHEME + host + path) == SplitHttpsUrl(url)
  {
    SplitShape(url);
    var (host, path) := SplitHttpsUrl(url).value;
    RebuiltSplits(host, path);
  }

  /** Without a '/', a query directly behind the host becomes the query of the root path. */
  lemma QuerySplits(host: string, query: string)
    requires host != "" && '/' !in host && '?' !in host && '/' !in query
    ensures SplitHttpsUrl("https://" + host + "?" + query) == Ok((host, "/?" + query))
  {
    var url := "https://" + host + "?" + query;
    assert url[..|SCHEME|] == SCHEME;
    assert url[|SCHEME|..] == host + ['?'] + query;
    SplitOnceAt(host, '?', query);
  }

  /** A host alone has the root path. */
  lemma HostAlone(host: string)
    requires host != "" && '/' !in host && '?' !in host
    ensures SplitHttpsUrl("https://" + host) == Ok((host, "/"))
  {
    var url := "https://" + host;
    assert url[..|SCHEME|] == SCHEME;
    assert url[|SCHEME|..] == host;
  }

  /** A URL is refused exactly when its scheme is another one, or when nothing stands where the host should:
      at once the end, a '/', or a '?' with no '/' behind it. */
  lemma RefusedExactly(url: string)
    ensures SplitHttpsUrl(url) == Err(Io(UnsupportedScheme(url))) <==> !("https://" <= url)
    ensures SplitHttpsUrl(url) == Err(Io(MissingHost(url))) <==>
      "https://" <= url && var rest := url[8..]; rest == "" || rest[0] == '/' || (rest[0] == '?' && '/' !in rest)
  {
    assert SCHEME == "https://" && |SCHEME| == 8;
  }

  /** Where the authority ends (section 3.2 of RFC 3986): at the first '/', '?' or '#', or at the end. */
  function AuthorityEnd(rest: string): (n: nat)
    ensures n <= |rest|
    ensures n < |rest| ==> rest[n] == '/' || rest[n] == '?' || rest[n] == '#'
    ensures forall k :: 0 <= k < n ==> rest[k] != '/' && rest[k] != '?' && rest[k] != '#'
  {
    if rest == "" || rest[0] == '/' || rest[0] == '?' || rest[0] == '#' then 0 else 1 + AuthorityEnd(rest[1..])
  }

  /** The host is always the beginning of the rest, and it is the authority exactly when the authority
      runs to the end, or ends at a '/', or at a '?' with no '/' anywhere behind it. */
  lemma HostIsAuthorityExactly(rest: string)
    ensures SplitRest(rest).0 <= rest
    ensures var n := AuthorityEnd(rest);
      |SplitRest(rest).0| == n <==> n == |rest| || rest[n] == '/' || (rest[n] == '?' && '/' !in rest)
  {
    var n := AuthorityEnd(rest);
    if n < |rest| {
      assert rest[n] in rest;
    }
  }

  /** A '/' inside a query that follows the host directly splits the query. */
  lemma QuerySlashSplitsQuery()
    ensures SplitHttpsUrl("https://h?a=/b") == Ok(("h?a=", "/b"))
  {
    RebuiltSplits("h?a=", "/b");
    assert SCHEME + "h?a=" + "/b" == "https://h?a=/b";
  }
}
