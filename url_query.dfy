/**
 * The part of `urllib.parse` the stream client uses to read the page number
 * out of a link URL: the query component of `urlparse(url)` and the first
 * `page` value of `parse_qs(query)`.
 */
module UrlQuery {
  import opened Wrappers
  import opened Text

  /** The exception a failed lookup raises. */
  datatype Error = KeyError(key: string)

  /**
   * `urlparse(url).query`. Python's parser takes the network location up to
   * the first `/`, `?` or `#`, then cuts the fragment at the first `#`, then
   * the query at the first `?`; since neither the scheme nor the network
   * location can hold `?` or `#`, the query is what follows the first `?` in
   * the text before the first `#`, or empty when there is no such `?`.
   */
  function QueryOf(url: string): (q: string)
    ensures '#' !in q
  {
    var beforeFragment := url[..IndexOf(url, '#')];
    var mark := IndexOf(beforeFragment, '?');
    if mark == |beforeFragment| then "" else beforeFragment[mark + 1..]
  }

  /**
   * Reading the query back out of a URL assembled from a path, `?`, a query
   * and an optional `#` fragment gives that query.
   */
  lemma QueryOfAssembled(path: string, query: string, fragment: string)
    requires '?' !in path && '#' !in path && '#' !in query
    requires fragment == [] || fragment[0] == '#'
    ensures QueryOf(path + "?" + query + fragment) == query
  {
    var url := path + "?" + query + fragment;
    var beforeFragment := path + "?" + query;
    if fragment == [] {
      assert url == beforeFragment;
      assert IndexOf(url, '#') == |url|;
    } else {
      assert url == beforeFragment + ['#'] + fragment[1..];
      IndexOfAfter(beforeFragment, '#', fragment[1..]);
      assert url[..|beforeFragment|] == beforeFragment;
    }
    IndexOfAfter(path, '?', query);
    assert beforeFragment[|path| + 1..] == query;
  }

  /** The query of `path?query`, with no fragment, is `query`. */
  lemma QueryOfUnfragmented(path: string, query: string)
    requires '?' !in path && '#' !in path && '#' !in query
    ensures QueryOf(path + "?" + query) == query
  {
    assert path + "?" + query + "" == path + "?" + query;
    QueryOfAssembled(path, query, "");
  }

  /**
   * A URL with no `?` before its first `#` has an empty query, even when its
   * fragment holds one (`/x#a?page=2`).
   */
  lemma QueryOfWithoutMark(path: string, fragment: string)
    requires '?' !in path && '#' !in path
    requires fragment == [] || fragment[0] == '#'
    ensures QueryOf(path + fragment) == ""
  {
    var url := path + fragment;
    if fragment == [] {
      assert url == path;
    } else {
      assert url == path + ['#'] + fragment[1..];
      IndexOfAfter(path, '#', fragment[1..]);
      assert url[..|path|] == path;
    }
  }

  /** Index of the `=` that `name_value.split('=', 1)` cuts at, or `|field|` when there is none. */
  function EqualsAt(field: string): nat
  {
    IndexOf(field, '=')
  }

  /**
   * `parse_qs` keeps a field only when it splits into a name and a value at
   * an `=` and the value is not empty (blank values are dropped by default).
   */
  predicate IsKept(field: string)
  {
    EqualsAt(field) + 1 < |field|
  }

  function RawName(field: string): string
  {
    field[..EqualsAt(field)]
  }

  function RawValue(field: string): string
  {
    if IsKept(field) then field[EqualsAt(field) + 1..] else ""
  }

  /** A field that `parse_qs` files under the name `page`. */
  predicate IsPageField(field: string)
  {
    IsKept(field) && PlusToSpace(RawName(field)) == "page"
  }

  /** The first value `parse_qs` lists under `page`, scanning the `&`-separated fields in order. */
  function FirstPageValue(fields: seq<string>): (v: Option<string>)
    ensures v.Some? ==> |v.value| > 0
    decreases |fields|
  {
    if fields == [] then None
    else if IsPageField(fields[0]) then
      PlusToSpaceWithoutPlus(RawValue(fields[0]));
      Some(PlusToSpace(RawValue(fields[0])))
    else FirstPageValue(fields[1..])
  }

  /** There is no `page` value exactly when no field is a `page` field. */
  lemma {:induction false} FirstPageValueNone(fields: seq<string>)
    ensures FirstPageValue(fields).None? <==> forall k :: 0 <= k < |fields| ==> !IsPageField(fields[k])
    decreases |fields|
  {
    if fields != [] {
      FirstPageValueNone(fields[1..]);
      assert forall k :: 1 <= k < |fields| ==> fields[k] == fields[1..][k - 1];
    }
  }

  /** The value found is the one of the earliest `page` field. */
  lemma {:induction false} FirstPageValueAt(fields: seq<string>, k: nat)
    requires k < |fields| && IsPageField(fields[k])
    requires forall j :: 0 <= j < k ==> !IsPageField(fields[j])
    ensures FirstPageValue(fields) == Some(PlusToSpace(RawValue(fields[k])))
    decreases k
  {
    if k > 0 {
      assert !IsPageField(fields[0]);
      assert fields[1..][k - 1] == fields[k];
      FirstPageValueAt(fields[1..], k - 1);
    }
  }

  /**
   * `parse_qs(query)["page"][0]`: the first non-blank `page` value, or the
   * `KeyError` that indexing the result raises when there is none.
   */
  function PageParam(query: string): (r: Result<string, Error>)
    ensures r.Ok? ==> |r.value| > 0
    ensures r.Err? ==> r.error == KeyError("page")
  {
    match FirstPageValue(Split(query, '&'))
    case Some(v) => Ok(v)
    case None => Err(KeyError("page"))
  }

  /** A query that starts with `page=<v>` gives `v`, whatever fields follow. */
  lemma PageParamLeading(v: string, rest: string)
    requires |v| > 0 && '&' !in v && '+' !in v
    requires rest == [] || rest[0] == '&'
    ensures PageParam("page=" + v + rest) == Ok(v)
  {
    var field := "page=" + v;
    assert "page=" + v + rest == field + rest;
    SplitFirst(field, '&', rest);
    IndexOfAfter("page", '=', v);
    assert field == "page" + "=" + v;
    assert RawName(field) == "page";
    assert RawValue(field) == v;
    PlusToSpaceWithoutPlus("page");
    PlusToSpaceWithoutPlus(v);
    FirstPageValueAt(Split(field + rest, '&'), 0);
  }

  /** A query with no `page` field at all, or only blank ones, raises `KeyError`. */
  lemma PageParamMissing(query: string)
    requires forall k :: 0 <= k < |Split(query, '&')| ==> !IsPageField(Split(query, '&')[k])
    ensures PageParam(query) == Err(KeyError("page"))
  {
    FirstPageValueNone(Split(query, '&'));
  }

  /** `parse_qs` drops the blank value of `page=`, so looking `page` up raises `KeyError`. */
  lemma BlankPageValueMissing()
    ensures PageParam("page=") == Err(KeyError("page"))
  {
  }

  /** The query of `path?page=t` gives the token `t`. */
  lemma PageOfUrl(path: string, token: string)
    requires '?' !in path && '#' !in path
    requires |token| > 0 && '#' !in token && '&' !in token && '+' !in token
    ensures PageParam(QueryOf(path + "?page=" + token)) == Ok(token)
  {
    var query := "page=" + token;
    assert path + "?page=" + token == path + "?" + query + "";
    QueryOfAssembled(path, query, "");
    assert query == "page=" + token + "";
    PageParamLeading(token, "");
  }

  /** The query of `path?page=` holds only a blank `page`, so the lookup raises `KeyError`. */
  lemma BlankPageOfUrl(path: string)
    requires '?' !in path && '#' !in path
    ensures PageParam(QueryOf(path + "?page=")) == Err(KeyError("page"))
  {
    assert path + "?page=" == path + "?" + "page=" + "";
    QueryOfAssembled(path, "page=", "");
    BlankPageValueMissing();
  }
}
