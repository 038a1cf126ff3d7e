# tap-moneybird: paging and request parameters of `MoneyBirdStream`

This project models, in Dafny, the request logic that every MoneyBird
stream of the `tap-moneybird` Singer tap inherits from its base class
`MoneyBirdStream`:

- **`url_base`**: the API root `https://moneybird.com/api/v2/<administration_id>`,
  where the id is whatever `config.get('administration_id')` returns: an
  integer (rendered in decimal), a string, or `None` (rendered as `None`).
- **`next_page_link_not_in_header`**: there is no further page when the
  response has no `Link` header, or when the `Link` value does not contain the
  text `next`. This is a plain substring test. It does not read `rel` labels
  as section 3 of RFC 8288 describes. So `next` inside a URL counts too
  (`Client.NextInsideUrl`). A real `rel="next"` label is never missed
  (`Client.RelNextIsSeen`).
- **`get_next_page_token`**: when a next page is signalled, the token is read
  from the first `;`-separated piece of the `Link` value, with `<` and `>`
  stripped from both ends. That is the first URL listed, whatever its
  relation: `<p?page=1>; rel="prev", <n?page=3>; rel="next"` gives `1`
  (`Client.FirstUrlWins`). The token is the first non-blank `page`
  value of that URL's query. When there is none, the lookup raises
  `KeyError`; the code does not answer "no more pages" in that case.
- **`get_url_params`**: the query parameters of the next request. `page` is
  included when the token is truthy. `sort=asc` and `order_by=<replication key>`
  are included when the stream declares a truthy replication key. Every
  concrete stream declares `updated_at`.

Modules:

- `Wrappers`: `Option` and `Result`.
- `Text`: the Python string operations the code relies on (`in`, `split`,
  `strip`, `replace('+', ' ')`), each with lemmas that pin down its result
  without reference to how it is computed.
- `Decimal`: Python's `str()` of an integer and its inverse.
- `UrlQuery`: the query component of `urlparse` and the `page` lookup in
  `parse_qs`.
- `Client`: the four operations of `MoneyBirdStream` and the lemmas about
  them.
- `Streams`: the six concrete streams and their replication key.

Response headers are a `map<string, string>`. The page token is an
`Option<string>`. The request parameters are a `map<string, string>`.
`get_next_page_token` returns `Result<Option<string>, Error>`, where
`Err(KeyError("page"))` stands for the exception.

The query reading follows Python's, up to the simplifications listed under
"## Left out" (percent-decoding, removal of tab, CR and LF, and the
`ValueError` of a malformed network location). Python's
`urlparse` takes the network location up to the first `/`, `?` or `#`. It
then cuts the fragment at the first `#` and the query at the first `?`.
Neither the scheme nor the network location can contain `?` or `#`. So the
query is the text after the first `?` of the part before the first `#`.
`parse_qs` splits the query on `&`. It drops fields without `=` and fields
whose value is blank. It replaces `+` by a space in names and values. So
`?page=` behaves like a URL with no `page` at all
(`Client.BlankPageValueFails`).

## Model

| member | source | states |
|---|---|---|
| `Client.UrlBase` | tap_moneybird/client.py:18-21 | the API root starts with `https://moneybird.com/api/v2/`; after it, a non-negative integer id is a non-empty digit string that reads back as the id and has no leading zero (0 is written as the single digit `0`), a negative one is `-` followed by digits that read back as its magnitude and do not start with `0`, a string id appears as itself and a missing id as `None` |
| `Client.UrlBaseIdentifiesAdministration` | tap_moneybird/client.py:21 | two integer administration ids give the same API root only when they are equal |
| `Decimal.NatToString` | tap_moneybird/client.py:21 | the decimal rendering of a number is a non-empty digit string with no leading zero; 0 is written as the single digit `0` |
| `Decimal.DigitsRoundTrip` | tap_moneybird/client.py:21 | reading back the decimal digits of `n` gives `n` |
| `Decimal.IntToString` | tap_moneybird/client.py:21 | `str()` of an integer is non-empty, starts with `-` exactly when the integer is negative, and has no leading zero (0 is written as the single digit `0`, and a negative rendering never has `0` right after the sign) |
| `Decimal.IntToStringMagnitude` | tap_moneybird/client.py:21 | the digits of `str(n)` after any sign read back as the magnitude of `n` |
| `Decimal.IntToStringInjective` | tap_moneybird/client.py:21 | `str()` of distinct integers gives distinct strings |
| `Client.NextPageLinkNotInHeader` | tap_moneybird/client.py:33-40 | true when `Link` is absent; when present, true exactly when `next` occurs nowhere in its value |
| `Text.ContainsIsOccurrence` | tap_moneybird/client.py:40 | the left-to-right scan for `next` succeeds exactly when some position of the value starts with `next` |
| `Text.OccursInContext` | tap_moneybird/client.py:40 | an occurrence of `next` in a part of the `Link` value is an occurrence in the whole value |
| `Client.RelNextIsSeen` | tap_moneybird/client.py:38-40 | a `Link` value with a `rel="next"` label is never reported as having no next page |
| `Client.NextInsideUrl` | tap_moneybird/client.py:38-40 | a lone `rel="prev"` link whose URL path contains `next` still yields its page token: the test is a raw substring test |
| `Client.GetNextPageToken` | tap_moneybird/client.py:42-58 | `Ok(None)` exactly when `next_page_link_not_in_header` holds, a non-empty token otherwise, or `KeyError("page")` as the only failure the model has (the `ValueError` of `urlparse` is listed under Left out) |
| `Text.IndexOf` | tap_moneybird/client.py:53 | the first index of a character: no earlier occurrence, the character itself at it, `|s|` exactly when it is absent |
| `Text.IndexOfAfter` | tap_moneybird/client.py:53 | the first separator of `a + [c] + b` sits just after `a` when `a` holds none |
| `Text.Split` | tap_moneybird/client.py:53 | `split(';')` yields at least one piece, and no piece contains the separator |
| `Text.JoinSplit` | tap_moneybird/client.py:53 | joining the pieces of `split` with the separator gives back the original value |
| `Text.SplitJoin` | tap_moneybird/client.py:53 | splitting separator-free pieces joined by the separator gives back those pieces |
| `Text.SplitCons` | tap_moneybird/client.py:53 | splitting `a;b` with no `;` in `a` gives `a` followed by the pieces of `b` |
| `Text.SplitFirst` | tap_moneybird/client.py:53 | `split(';')[0]` is everything before the first `;` |
| `Text.StripLeading` | tap_moneybird/client.py:53 | `lstrip` leaves a suffix of the value that is empty or does not start with one of the given characters |
| `Text.StripTrailing` | tap_moneybird/client.py:53 | `rstrip` leaves a prefix of the value that is empty or does not end with one of the given characters |
| `Text.StripLeadingExactly` | tap_moneybird/client.py:53 | `lstrip` removes exactly the leading run of the given characters, up to the first character outside them |
| `Text.StripTrailingExactly` | tap_moneybird/client.py:53 | `rstrip` removes exactly the trailing run of the given characters, back to the last character outside them |
| `Text.StripTrailingOfSuffix` | tap_moneybird/client.py:53 | after `lstrip` has left `s[i..]`, `rstrip` keeps `s[i..j]` when `s[j..]` is a run of the given characters |
| `Text.StripAll` | tap_moneybird/client.py:53 | a value made only of `<` and `>` strips to the empty URL |
| `Text.StripExactly` | tap_moneybird/client.py:53 | `strip('<>')` yields exactly the slice framed by `<`/`>` characters that neither starts nor ends with one |
| `Text.StripIdempotent` | tap_moneybird/client.py:53 | stripping `<`/`>` twice gives the same URL as stripping once |
| `Client.FirstLinkUrlOf` | tap_moneybird/client.py:53 | the URL taken from `<url>;rest` is `url` |
| `Client.StripBrackets` | tap_moneybird/client.py:53 | `strip('<>')` of `<url>` gives `url` when `url` neither starts nor ends with `<` or `>` |
| `Client.FirstUrlWins` | tap_moneybird/client.py:52-53 | in `<p?page=t>; rel="prev", <other>; rel="next"` the token is `t`, taken from the `prev` URL, whatever page the `next` URL names |
| `UrlQuery.QueryOf` | tap_moneybird/client.py:56 | the query of `urlparse` never contains `#` |
| `UrlQuery.QueryOfAssembled` | tap_moneybird/client.py:56 | the query read from `path?query#fragment` is `query` |
| `UrlQuery.QueryOfWithoutMark` | tap_moneybird/client.py:56 | a URL with no `?` before its first `#` has an empty query, even when its fragment holds a `?` (`/x#a?page=2`) |
| `UrlQuery.QueryOfUnfragmented` | tap_moneybird/client.py:56 | the query of `path?query` is `query` |
| `Text.PlusToSpace` | tap_moneybird/client.py:56 | `replace('+', ' ')` keeps the length, turns each `+` into a space and leaves every other character in place |
| `Text.PlusToSpaceWithoutPlus` | tap_moneybird/client.py:56 | `parse_qs`'s `+`-to-space replacement keeps the length and changes nothing in text without `+` |
| `UrlQuery.FirstPageValue` | tap_moneybird/client.py:56 | a `page` value found by `parse_qs` is never blank |
| `UrlQuery.FirstPageValueNone` | tap_moneybird/client.py:56 | no `page` value exactly when no `&`-separated field is a non-blank `page=` field |
| `UrlQuery.FirstPageValueAt` | tap_moneybird/client.py:56 | the value taken is that of the earliest `page` field (`["page"][0]`) |
| `UrlQuery.PageParam` | tap_moneybird/client.py:56 | the lookup gives a non-empty value, or fails with `KeyError("page")` |
| `UrlQuery.PageParamLeading` | tap_moneybird/client.py:56 | a query starting with `page=v` gives `v`, whatever fields follow |
| `UrlQuery.PageParamMissing` | tap_moneybird/client.py:56 | a query with no non-blank `page` field raises `KeyError` |
| `UrlQuery.BlankPageValueMissing` | tap_moneybird/client.py:56 | `page=` with a blank value raises `KeyError`, as if `page` were absent |
| `UrlQuery.PageOfUrl` | tap_moneybird/client.py:56 | the query of `path?page=t` gives `t` for a non-empty token free of `#`, `&` and `+` |
| `UrlQuery.BlankPageOfUrl` | tap_moneybird/client.py:56 | the query of `path?page=` raises `KeyError("page")` |
| `Client.NextAfterFirstUrl` | tap_moneybird/client.py:40 | `next` after the first URL is `next` in the whole `Link` value |
| `Client.NextInFirstUrl` | tap_moneybird/client.py:40 | `next` inside the first URL is `next` in the whole `Link` value |
| `Client.FirstUrlAssembled` | tap_moneybird/client.py:53 | the first URL of `<path?query>;rest` is `path?query` |
| `Client.FirstUrlQueryGivesToken` | tap_moneybird/client.py:49-58 | when `next` occurs in `<path?query>;rest`, the result is the first non-blank `page` value of `query`, whatever other fields surround it (`sort=asc&order_by=updated_at&page=2`), or `KeyError("page")` when there is none |
| `Client.FirstListedUrlGivesToken` | tap_moneybird/client.py:49-58 | for a decimal token `t`, `<path?page=t>;rest` yields `t` whenever `next` occurs in the value, whatever relations are listed |
| `Client.PageNumberRoundTrip` | tap_moneybird/client.py:53-58 | once `next` occurs anywhere in the `Link` value, the page number written into the first URL is the number the returned token spells |
| `Client.SingleNextLink` | tap_moneybird/client.py:42-58 | a single link `<path?page=t>; rel="next"` with a decimal token yields `t` |
| `Client.FirstUrlWithoutQueryFails` | tap_moneybird/client.py:56 | a `Link` value mentioning `next` anywhere, inside the first URL included (`</next>; rel="prev"`), whose first URL has no `?` before its fragment raises `KeyError`; it does not end the paging |
| `Client.BlankPageValueFails` | tap_moneybird/client.py:56 | a first URL ending in `?page=` raises `KeyError` once `next` occurs anywhere in the `Link` value |
| `Client.GetUrlParams` | tap_moneybird/client.py:60-70 | keys only among `page`, `sort`, `order_by`; `page` exactly when the token is truthy, with the token unchanged; `sort=asc` and `order_by=<key>` exactly when the replication key is truthy |
| `Streams.StreamUrlParams` | tap_moneybird/streams.py:7-148 | every concrete stream (all declare `updated_at`) always asks for `sort=asc` and `order_by=updated_at`, plus `page` exactly when the token is truthy |

## Left out

- The header map is keyed by the exact name `Link`. The case-insensitive lookup of the `requests` header dictionary is not modelled.
- `parse_qs` percent-decoding (`%XX`) of names and values is not modelled. A field named `pag%65` is not recognised as `page` here.
- `urlparse` removes tab, CR and LF characters from the URL before parsing. It also raises `ValueError` on a malformed network location, for example unbalanced `[`/`]`, a malformed bracketed host, or a non-ASCII host whose NFKC form holds a delimiter. Neither is modelled, so the model's only failure of `get_next_page_token` is `KeyError`.
- The `context` argument of `get_url_params` and the `previous_token` argument of `get_next_page_token` are not read by the code, so the model omits them.
- The bearer-token authenticator, `records_jsonpath` record extraction and the HTTP transport are calls into the Singer SDK and `requests`. They are not part of this model.
- The page-fetch loop that alternates `get_url_params`, the request and `get_next_page_token` lives in the Singer SDK's `RESTStream`. It is not part of this model, so the two-page run of a stream is not modelled.
- A date-window `filter` parameter and the coercion of numeric strings to floats do not occur in `tap_moneybird/client.py` or `tap_moneybird/streams.py`. They are not modelled.
- The per-stream schemas in `tap_moneybird/streams.py` are declarative data. Only the replication key is used.
- `tap_moneybird/tap.py` (configuration schema and stream discovery) and `tap_moneybird/tests/test_core.py` (live API tests) have no behaviour to model.
