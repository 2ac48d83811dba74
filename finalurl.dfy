/**
 * createFinalURL: the base URL and the path, with path parameters
 * substituted when a path record is given, followed by `?` and the query
 * string when the query serializer returns one.
 */
module FinalUrl {
  import opened Wrappers
  import opened Strings
  import opened JsValues
  import opened QueryDecoding
  import opened QuerySerialization
  import opened PathSerialization
  import opened EncoderLaws
  import opened UriComponent

  /**
   * The `params` of a request, each member possibly absent: the query and path
   * records, the `headers` record the client merges into the outgoing headers,
   * and the `header` record of the OpenAPI parameter object, which it does not read.
   */
  datatype RequestParams = RequestParams(query: Option<Value>, path: Option<Fields>, headers: Option<Fields>, header: Option<Fields>)

  const NoParams := RequestParams(None, None, None, None)

  /** A caller's query serializer function, or one createQuerySerializer built from options. */
  datatype QuerySerializer = Custom(f: Value -> string) | Created(options: QueryOptions)

  /** The query string a serializer returns for the query record. */
  function SerializeWith(serializer: QuerySerializer, query: Value): Result<string>
  {
    match serializer
    case Custom(f) => Success(f(query))
    case Created(options) => QueryString(options, query)
  }

  /** `params.query ?? {}`: a missing, undefined or null query is the empty object. */
  function QueryOrEmpty(params: RequestParams): (q: Value)
    ensures (params.query.None? || params.query.value.IsNullish()) ==> q == Obj([])
    ensures params.query.Some? && !params.query.value.IsNullish() ==> q == params.query.value
  {
    match params.query
    case Some(query) => if query.IsNullish() then Obj([]) else query
    case None => Obj([])
  }

  /** One leading `?` removed. */
  function StripQuestionMark(search: string): (r: string)
    ensures StartsWith(search, "?") ==> "?" + r == search
    ensures !StartsWith(search, "?") ==> r == search
  {
    if StartsWith(search, "?") then search[1..] else search
  }

  /** `baseUrl + pathname`, through the path serializer when a path record is given. */
  function PathPart(pathname: string, baseUrl: string, params: RequestParams): Result<string>
  {
    if params.path.Some? then PathSerialize(baseUrl + pathname, params.path) else Success(baseUrl + pathname)
  }

  /** The query text after the `?`, or "" when there is none. */
  function SearchPart(params: RequestParams, serializer: QuerySerializer): Result<string>
  {
    var search :- SerializeWith(serializer, QueryOrEmpty(params));
    Success(StripQuestionMark(search))
  }

  /** The URL createFinalURL returns, or the error a serializer raised. */
  function FinalURL(pathname: string, baseUrl: string, params: RequestParams, serializer: QuerySerializer): Result<string>
  {
    var base :- PathPart(pathname, baseUrl, params);
    var search :- SearchPart(params, serializer);
    if search == "" then Success(base) else Success(base + "?" + search)
  }

  method CreateFinalURL(pathname: string, baseUrl: string, params: RequestParams, serializer: QuerySerializer)
    returns (r: Result<string>)
    ensures r == FinalURL(pathname, baseUrl, params, serializer)
  {
    var finalURL := baseUrl + pathname;
    if params.path.Some? {
      var substituted := DefaultPathSerializer(finalURL, params.path);
      if substituted.Failure? {
        return Failure(substituted.error);
      }
      finalURL := substituted.value;
    }
    var search: string;
    match serializer {
      case Custom(f) =>
        search := f(QueryOrEmpty(params));
      case Created(options) =>
        var serialized := SerializeQuery(options, QueryOrEmpty(params));
        if serialized.Failure? {
          return Failure(serialized.error);
        }
        search := serialized.value;
    }
    if StartsWith(search, "?") {
      search := search[1..];
    }
    if search != "" {
      finalURL := finalURL + "?" + search;
    }
    r := Success(finalURL);
  }

  // ----- What createFinalURL promises -----

  /**
   * The URL is the path part, followed by `?` and the query text exactly when
   * that text is non-empty; it fails exactly when a serializer fails.
   */
  lemma FinalURLShape(pathname: string, baseUrl: string, params: RequestParams, serializer: QuerySerializer)
    ensures FinalURL(pathname, baseUrl, params, serializer).Success?
            <==> PathPart(pathname, baseUrl, params).Success? && SearchPart(params, serializer).Success?
    ensures FinalURL(pathname, baseUrl, params, serializer).Success? ==>
              var url := FinalURL(pathname, baseUrl, params, serializer).value;
              var base := PathPart(pathname, baseUrl, params).value;
              var search := SearchPart(params, serializer).value;
              StartsWith(url, base)
              && (search == "" <==> url == base)
              && (search != "" ==> url[|base|] == '?' && url[|base| + 1..] == search)
  {
    var r := FinalURL(pathname, baseUrl, params, serializer);
    if r.Success? {
      var base := PathPart(pathname, baseUrl, params).value;
      var search := SearchPart(params, serializer).value;
      if search == "" {
        assert r.value == base;
        assert r.value[..|base|] == base;
      } else {
        assert r.value == base + "?" + search;
        assert r.value[..|base|] == base;
        assert r.value[|base| + 1..] == search;
      }
    }
  }

  /** Without a path record the path part is the base URL and the path as they are; with one, braces in the base URL are substituted too. */
  lemma PathPartWithoutPathRecord(pathname: string, baseUrl: string, params: RequestParams)
    requires params.path.None?
    ensures PathPart(pathname, baseUrl, params) == Success(baseUrl + pathname)
  {
  }

  /** A request with no params and a built serializer gives the bare URL. */
  lemma NoParamsBareURL(pathname: string, baseUrl: string, options: QueryOptions)
    ensures FinalURL(pathname, baseUrl, NoParams, Created(options)) == Success(baseUrl + pathname)
  {
    assert Enumerate(Obj([])) == Some([]);
    assert QueryString(options, Obj([])) == Success(Join("&", []));
  }

  /** An undefined or null query gives the same URL as no query at all, whatever the serializer. */
  lemma NullishQueryIsEmpty(pathname: string, baseUrl: string, params: RequestParams, serializer: QuerySerializer)
    requires params.query.Some? && params.query.value.IsNullish()
    ensures FinalURL(pathname, baseUrl, params, serializer) == FinalURL(pathname, baseUrl, params.(query := None), serializer)
  {
    assert QueryOrEmpty(params) == QueryOrEmpty(params.(query := None));
  }

  /** A serializer output starting with `?` loses only its first `?`. */
  lemma LeadingQuestionMarkStripped(pathname: string, baseUrl: string, f: Value -> string)
    requires f(Obj([])) == "??a"
    ensures FinalURL(pathname, baseUrl, NoParams, Custom(f)) == Success(baseUrl + pathname + "??a")
  {
    assert StartsWith("??a", "?");
    assert "??a"[1..] == "?a";
    assert baseUrl + pathname + "?" + "?a" == baseUrl + pathname + "??a";
  }

  /**
   * With a built serializer, allowReserved off and scalar query values under
   * plain names, the text after the path part's `?` reads back as the query.
   */
  lemma QueryReadsBack(pathname: string, baseUrl: string, params: RequestParams, options: QueryOptions, pairs: seq<(string, string)>)
    requires options.allowReserved != Some(true)
    requires |pairs| >= 1
    requires forall i :: 0 <= i < |pairs| ==> IsPlainName(pairs[i].0)
    requires !StartsWith(pairs[0].0, "?")
    requires params.query == Some(Obj(TextFields(pairs)))
    requires PathPart(pathname, baseUrl, params).Success?
    ensures FinalURL(pathname, baseUrl, params, Created(options)).Success?
    ensures var url := FinalURL(pathname, baseUrl, params, Created(options)).value;
            var base := PathPart(pathname, baseUrl, params).value;
            |base| < |url| && url[|base|] == '?' && ParseQuery(url[|base| + 1..]) == Some(pairs)
  {
    ScalarQueryRoundTrip(options, pairs);
    var query := QueryString(options, Obj(TextFields(pairs))).value;
    EncodedQueryHasNoLeadingQuestionMark(pairs);
    assert SearchPart(params, Created(options)) == Success(query);
    FinalURLShape(pathname, baseUrl, params, Created(options));
  }

  /** The encoded pairs begin with the first name and `=`: never empty and, for such a name, not with `?`. */
  lemma EncodedQueryHasNoLeadingQuestionMark(pairs: seq<(string, string)>)
    requires |pairs| >= 1
    requires !StartsWith(pairs[0].0, "?")
    ensures Join("&", EncodedPairs(pairs)) != ""
    ensures !StartsWith(Join("&", EncodedPairs(pairs)), "?")
  {
    var query := Join("&", EncodedPairs(pairs));
    var first := EncodedPairs(pairs)[0];
    JoinStartsWithFirst("&", EncodedPairs(pairs));
    assert query[..|first|] == first;
    assert first == pairs[0].0 + "=" + EncodeURIComponent(pairs[0].1);
    assert query[0] == first[0];
    if pairs[0].0 == "" {
      assert first[0] == '=';
    } else {
      assert first[0] == pairs[0].0[0];
      assert pairs[0].0[..1][0] == pairs[0].0[0];
    }
    assert query[..1][0] == query[0];
  }

  /** `/query-params` with query `{limit: '10'}`: `/query-params?limit=10`. */
  lemma LimitURLExample()
    ensures FinalURL("/query-params", "", RequestParams(Some(Obj([("limit", Text("10"))])), None, None, None), Created(NoOptions))
            == Success("/query-params?limit=10")
  {
    LimitExample();
    assert "limit=10"[..1][0] == 'l';
    assert !StartsWith("limit=10", "?");
    assert "" + "/query-params" == "/query-params";
    assert "/query-params" + "?" + "limit=10" == "/query-params?limit=10";
  }
}
