/**
 * The request logic shared by every MoneyBird stream (`MoneyBirdStream`):
 * the API root URL, the test for a further page in the `Link` response
 * header, the page token read from that header, and the query parameters of
 * the next request.
 */
module Client {
  import opened Wrappers
  import opened Text
  import opened Decimal
  import opened UrlQuery

  /** Response headers, by header name. */
  type Headers = map<string, string>

  /** A value read from the tap configuration with `config.get(...)`. */
  datatype ConfigValue = Missing | Integer(n: int) | Str(s: string)

  /** How an f-string renders a configuration value: Python's `str()`, with `None` for a missing one. */
  function Render(v: ConfigValue): string
  {
    match v
    case Missing => "None"
    case Integer(n) => IntToString(n)
    case Str(s) => s
  }

  const ApiRoot := "https://moneybird.com/api/v2/"
  const LinkHeader := "Link"
  const NextMarker := "next"
  const PageKey := "page"
  const SortKey := "sort"
  const OrderByKey := "order_by"
  const Ascending := "asc"
  /** The relation labels that follow a URL in a `Link` value. */
  const RelNext := " rel=\"next\""
  const RelPrev := " rel=\"prev\""

  /**
   * The API root of one administration: the fixed prefix, then the
   * administration id as the f-string writes it. An integer id is written in
   * decimal digits that read back as the id, with no leading zero (0 itself is the
   * single digit `0`) (after a `-` when it is negative), a string id as itself, and a
   * missing one as `None`.
   */
  function UrlBase(administrationId: ConfigValue): (url: string)
    ensures |url| >= |ApiRoot| && url[..|ApiRoot|] == ApiRoot
    ensures administrationId.Missing? ==> url[|ApiRoot|..] == "None"
    ensures administrationId.Str? ==> url[|ApiRoot|..] == administrationId.s
    ensures administrationId.Integer? && administrationId.n >= 0 ==>
              |url| > |ApiRoot| && (url[|ApiRoot|] == '0' ==> administrationId.n == 0 && |url| == |ApiRoot| + 1)
              && IsDigits(url[|ApiRoot|..]) && DigitsToNat(url[|ApiRoot|..]) == administrationId.n
    ensures administrationId.Integer? && administrationId.n < 0 ==>
              |url| >= |ApiRoot| + 2 && url[|ApiRoot|] == '-' && url[|ApiRoot| + 1] != '0'
              && IsDigits(url[|ApiRoot| + 1..]) && DigitsToNat(url[|ApiRoot| + 1..]) == -administrationId.n
  {
    var id := Render(administrationId);
    if administrationId.Integer? then
      IntToStringMagnitude(administrationId.n);
      assert (ApiRoot + id)[|ApiRoot|..] == id;
      ApiRoot + id
    else
      ApiRoot + id
  }

  /** Two integer administration ids share an API root only when they are the same id. */
  lemma UrlBaseIdentifiesAdministration(a: int, b: int)
    requires UrlBase(Integer(a)) == UrlBase(Integer(b))
    ensures a == b
  {
  }

  /**
   * `next_page_link_not_in_header`: true when the response has no `Link`
   * header, or when its value does not contain the text `next` anywhere
   * (a plain substring test, not a reading of `rel` labels).
   */
  function NextPageLinkNotInHeader(headers: Headers): (noNext: bool)
    ensures LinkHeader !in headers ==> noNext
    ensures LinkHeader in headers ==> (noNext <==> !OccursIn(NextMarker, headers[LinkHeader]))
  {
    if LinkHeader !in headers then true
    else
      ContainsIsOccurrence(headers[LinkHeader], NextMarker);
      !Contains(headers[LinkHeader], NextMarker)
  }

  /** `link.split(';')[0].strip('<>')`: the first URL listed in a `Link` value, whatever its relation. */
  function FirstLinkUrl(link: string): string
  {
    Strip(Split(link, ';')[0], {'<', '>'})
  }

  /**
   * A URL path that can head the first link of a `Link` value unchanged: it
   * does not start with `<` or `>`, and it holds no `;` (which would cut the
   * link), no `?` (which would start the query) and no `#` (which would start
   * the fragment).
   */
  predicate PlainPath(path: string)
  {
    (path == [] || path[0] !in {'<', '>'}) && ';' !in path && '?' !in path && '#' !in path
  }

  /** Python's truthiness of an optional string: present and not empty. */
  predicate Truthy(s: Option<string>)
  {
    s.Some? && |s.value| > 0
  }

  /**
   * `get_next_page_token`: no token when `NextPageLinkNotInHeader` holds;
   * otherwise the first `page` value in the query of the first URL of the
   * `Link` value, or the `KeyError` raised when that URL has none.
   */
  function GetNextPageToken(headers: Headers): (r: Result<Option<string>, Error>)
    ensures r == Ok(None) <==> NextPageLinkNotInHeader(headers)
    ensures r == Ok(None) <==> (LinkHeader !in headers || !OccursIn(NextMarker, headers[LinkHeader]))
    ensures r.Ok? && r.value.Some? ==> Truthy(r.value)
    ensures r.Err? ==> r.error == KeyError(PageKey)
  {
    if NextPageLinkNotInHeader(headers) then Ok(None)
    else
      match PageParam(QueryOf(FirstLinkUrl(headers[LinkHeader])))
      case Ok(token) => Ok(Some(token))
      case Err(e) => Err(e)
  }

  /** The first URL of `<url>;rest` is `url`, when `url` holds no `;` and neither starts nor ends with `<` or `>`. */
  lemma FirstLinkUrlOf(url: string, rest: string)
    requires ';' !in url
    requires url != [] ==> url[0] !in {'<', '>'} && url[|url| - 1] !in {'<', '>'}
    ensures FirstLinkUrl("<" + url + ">;" + rest) == url
  {
    var first := "<" + url + ">";
    assert "<" + url + ">;" + rest == first + (";" + rest);
    SplitFirst(first, ';', ";" + rest);
    StripBrackets(url);
  }

  /** Stripping `<`/`>` from `<url>` gives `url` when `url` neither starts nor ends with one of them. */
  lemma StripBrackets(url: string)
    requires url != [] ==> url[0] !in {'<', '>'} && url[|url| - 1] !in {'<', '>'}
    ensures Strip("<" + url + ">", {'<', '>'}) == url
  {
    var first := "<" + url + ">";
    assert first[1..|first| - 1] == url;
    StripExactly(first, {'<', '>'}, 1, |first| - 1);
  }

  /** A `Link` value in which `next` occurs yields the `page` value of its first URL's query. */
  lemma TokenOfNextLink(link: string)
    requires OccursIn(NextMarker, link)
    ensures PageParam(QueryOf(FirstLinkUrl(link))).Ok? ==>
              GetNextPageToken(map[LinkHeader := link]) == Ok(Some(PageParam(QueryOf(FirstLinkUrl(link))).value))
    ensures PageParam(QueryOf(FirstLinkUrl(link))).Err? ==>
              GetNextPageToken(map[LinkHeader := link]) == Err(PageParam(QueryOf(FirstLinkUrl(link))).error)
  {
  }

  /** `next` occurring after the first URL is `next` occurring in the whole `Link` value. */
  lemma NextAfterFirstUrl(url: string, rest: string)
    requires OccursIn(NextMarker, rest)
    ensures OccursIn(NextMarker, "<" + url + ">;" + rest)
  {
    OccursInContext(NextMarker, "<" + url + ">;", rest, "");
    assert "<" + url + ">;" + rest + "" == "<" + url + ">;" + rest;
  }

  /** `next` occurring in the first URL is `next` occurring in the whole `Link` value. */
  lemma NextInFirstUrl(url: string, rest: string)
    requires OccursIn(NextMarker, url)
    ensures OccursIn(NextMarker, "<" + url + ">;" + rest)
  {
    OccursInContext(NextMarker, "<", url, ">;" + rest);
    assert "<" + url + (">;" + rest) == "<" + url + ">;" + rest;
  }

  /**
   * The header value `<path?page=t>;rest` yields the token `t` as soon as
   * `next` occurs anywhere in it, whatever relation the first URL carries
   * and whatever other links follow it.
   */
  lemma FirstListedUrlGivesToken(path: string, token: string, rest: string)
    requires PlainPath(path)
    requires |token| > 0 && IsDigits(token)
    requires OccursIn(NextMarker, "<" + (path + "?page=" + token) + ">;" + rest)
    ensures GetNextPageToken(map[LinkHeader := "<" + (path + "?page=" + token) + ">;" + rest])
         == Ok(Some(token))
  {
    DigitsHoldNoDelimiters(token);
    var url := path + "?page=" + token;
    assert url[|url| - 1] == token[|token| - 1];
    FirstLinkUrlOf(url, rest);
    PageOfUrl(path, token);
    TokenOfNextLink("<" + url + ">;" + rest);
  }

  /**
   * A first URL with no `?` before its fragment has an empty query, so a
   * `Link` value that mentions `next` but whose first URL carries no page
   * number raises `KeyError`, rather than reporting that there are no
   * further pages.
   */
  lemma FirstUrlWithoutQueryFails(path: string, fragment: string, rest: string)
    requires ';' !in path && '?' !in path && '#' !in path
    requires ';' !in fragment && (fragment == [] || fragment[0] == '#')
    requires path + fragment != [] ==>
               (path + fragment)[0] !in {'<', '>'} && (path + fragment)[|path + fragment| - 1] !in {'<', '>'}
    requires OccursIn(NextMarker, "<" + (path + fragment) + ">;" + rest)
    ensures GetNextPageToken(map[LinkHeader := "<" + (path + fragment) + ">;" + rest]) == Err(KeyError(PageKey))
  {
    var url := path + fragment;
    assert ';' !in url by {
      assert forall k :: 0 <= k < |url| ==> url[k] == if k < |path| then path[k] else fragment[k - |path|];
    }
    FirstLinkUrlOf(url, rest);
    QueryOfWithoutMark(path, fragment);
    assert Split("", '&') == [""];
    PageParamMissing("");
    TokenOfNextLink("<" + url + ">;" + rest);
  }

  /** The first URL of `<path?query>;rest` is `path?query`. */
  lemma FirstUrlAssembled(path: string, query: string, rest: string)
    requires PlainPath(path)
    requires ';' !in query && '#' !in query
    requires query == [] || query[|query| - 1] !in {'<', '>'}
    ensures FirstLinkUrl("<" + (path + "?" + query) + ">;" + rest) == path + "?" + query
  {
    var url := path + "?" + query;
    assert url[|url| - 1] == if query == [] then '?' else query[|query| - 1];
    assert url[0] == if path == [] then '?' else path[0];
    FirstLinkUrlOf(url, rest);
  }

  /**
   * The header value `<path?query>;rest`, with `next` anywhere in it, yields
   * the first non-blank `page` value of `query`, whatever other fields the
   * query holds and in whatever order, or `KeyError` when it has none.
   */
  lemma FirstUrlQueryGivesToken(path: string, query: string, rest: string)
    requires PlainPath(path)
    requires ';' !in query && '#' !in query
    requires query == [] || query[|query| - 1] !in {'<', '>'}
    requires OccursIn(NextMarker, "<" + (path + "?" + query) + ">;" + rest)
    ensures FirstPageValue(Split(query, '&')).Some? ==>
              GetNextPageToken(map[LinkHeader := "<" + (path + "?" + query) + ">;" + rest])
              == Ok(Some(FirstPageValue(Split(query, '&')).value))
    ensures FirstPageValue(Split(query, '&')).None? ==>
              GetNextPageToken(map[LinkHeader := "<" + (path + "?" + query) + ">;" + rest])
              == Err(KeyError(PageKey))
  {
    FirstUrlAssembled(path, query, rest);
    QueryOfUnfragmented(path, query);
    TokenOfNextLink("<" + (path + "?" + query) + ">;" + rest);
  }

  /** The page number a server writes into the first URL is the number the token spells. */
  lemma PageNumberRoundTrip(path: string, n: nat, rest: string)
    requires PlainPath(path)
    requires OccursIn(NextMarker, "<" + (path + "?page=" + NatToString(n)) + ">;" + rest)
    ensures var r := GetNextPageToken(map[LinkHeader := "<" + (path + "?page=" + NatToString(n)) + ">;" + rest]);
            r.Ok? && r.value.Some? && IsDigits(r.value.value) && DigitsToNat(r.value.value) == n
  {
    var token := NatToString(n);
    FirstListedUrlGivesToken(path, token, rest);
    DigitsRoundTrip(n);
  }

  /** A single `next` link, `<path?page=t>; rel="next"`, gives the token `t`. */
  lemma SingleNextLink(path: string, token: string)
    requires PlainPath(path)
    requires |token| > 0 && IsDigits(token)
    ensures GetNextPageToken(map[LinkHeader := "<" + (path + "?page=" + token) + ">;" + RelNext]) == Ok(Some(token))
  {
    assert RelNext[6..10] == NextMarker;
    assert OccursAt(RelNext, NextMarker, 6);
    NextAfterFirstUrl(path + "?page=" + token, RelNext);
    FirstListedUrlGivesToken(path, token, RelNext);
  }

  /**
   * The first URL is used whatever its relation: with a `prev` link listed
   * before the `next` link, `<p?page=t>; rel="prev", <other>; rel="next"`
   * gives `t`, whatever page the `next` URL names.
   */
  lemma FirstUrlWins(path: string, token: string, other: string)
    requires PlainPath(path)
    requires |token| > 0 && IsDigits(token)
    ensures GetNextPageToken(map[LinkHeader :=
              "<" + (path + "?page=" + token) + ">;" + (RelPrev + ", <" + other + ">;" + RelNext)])
            == Ok(Some(token))
  {
    var rest := RelPrev + ", <" + other + ">;" + RelNext;
    assert RelNext[6..10] == NextMarker;
    assert OccursAt(RelNext, NextMarker, 6);
    OccursInContext(NextMarker, RelPrev + ", <" + other + ">;", RelNext, "");
    assert RelPrev + ", <" + other + ">;" + RelNext + "" == rest;
    NextAfterFirstUrl(path + "?page=" + token, rest);
    FirstListedUrlGivesToken(path, token, rest);
  }

  /**
   * `next` is looked for anywhere, so a lone `prev` link whose URL contains
   * `next` (`</nextcloud?page=2>; rel="prev"`) still gives its token.
   */
  lemma NextInsideUrl(path: string, token: string)
    requires PlainPath(path)
    requires |token| > 0 && IsDigits(token)
    requires OccursIn(NextMarker, path)
    ensures GetNextPageToken(map[LinkHeader := "<" + (path + "?page=" + token) + ">;" + RelPrev]) == Ok(Some(token))
  {
    var url := path + "?page=" + token;
    OccursInContext(NextMarker, "", path, "?page=" + token);
    assert "" + path + ("?page=" + token) == url;
    NextInFirstUrl(url, RelPrev);
    FirstListedUrlGivesToken(path, token, RelPrev);
  }

  /** A blank page value (`?page=`) is dropped by the query parser, so the lookup raises `KeyError`. */
  lemma BlankPageValueFails(path: string, rest: string)
    requires PlainPath(path)
    requires OccursIn(NextMarker, "<" + (path + "?page=") + ">;" + rest)
    ensures GetNextPageToken(map[LinkHeader := "<" + (path + "?page=") + ">;" + rest]) == Err(KeyError(PageKey))
  {
    var url := path + "?page=";
    FirstLinkUrlOf(url, rest);
    BlankPageOfUrl(path);
    TokenOfNextLink("<" + url + ">;" + rest);
  }

  /** The raw substring test never misses a link labelled `rel="next"`. */
  lemma RelNextIsSeen(link: string)
    requires OccursIn("rel=\"next\"", link)
    ensures !NextPageLinkNotInHeader(map[LinkHeader := link])
  {
    var i: nat :| OccursAt(link, "rel=\"next\"", i);
    assert link[i + 5..i + 9] == link[i..i + 10][5..9] == NextMarker;
    assert OccursAt(link, NextMarker, i + 5);
  }

  /**
   * `get_url_params`: starts from an empty map, adds `page` when the token
   * is truthy, and `sort=asc` with `order_by=<replication key>` when the
   * stream declares a truthy replication key. The request context is not
   * read.
   */
  method GetUrlParams(nextPageToken: Option<string>, replicationKey: Option<string>)
    returns (params: map<string, string>)
    ensures params.Keys <= {PageKey, SortKey, OrderByKey}
    ensures PageKey in params <==> Truthy(nextPageToken)
    ensures PageKey in params ==> params[PageKey] == nextPageToken.value
    ensures SortKey in params <==> Truthy(replicationKey)
    ensures SortKey in params ==> params[SortKey] == Ascending
    ensures OrderByKey in params <==> Truthy(replicationKey)
    ensures OrderByKey in params ==> params[OrderByKey] == replicationKey.value
  {
    params := map[];
    if Truthy(nextPageToken) {
      params := params[PageKey := nextPageToken.value];
    }
    if Truthy(replicationKey) {
      params := params[SortKey := Ascending];
      params := params[OrderByKey := replicationKey.value];
    }
  }
}
