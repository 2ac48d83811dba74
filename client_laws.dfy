/**
 * What the client's option resolution promises: base URL normalisation,
 * which query serializer a request uses, the precedence of headers and of
 * request options, the method each verb wrapper sets, and the `params` default.
 */
module ClientLaws {
  import opened Wrappers
  import opened Strings
  import opened JsValues
  import opened Records
  import opened HeaderMerge
  import opened Encoders
  import opened QuerySerialization
  import opened FinalUrl
  import opened Client

  // ----- Base URL -----

  /** Exactly one trailing `/` is removed: a base URL with a slash appended comes back as it was. */
  lemma OneTrailingSlashRemoved(b: string)
    ensures NormalizeBaseUrl(Some(b + "/")) == b
  {
    assert (b + "/")[|b + "/"| - 1..] == "/";
    assert (b + "/")[..|b|] == b;
  }

  /** With base URL `/`, a GET of `/anyMethod` goes to exactly `/anyMethod`. */
  lemma RootBaseUrlExample(defaultHeaders: Fields)
    ensures var state := InitialState(ClientOptions(Some("/"), None, None, []), defaultHeaders);
            var r := PrepareRequest(state, "/anyMethod", Some(WithMethod(None, "GET")));
            r.Success? && r.value.url == "/anyMethod" && r.value.requestMethod == Text("GET")
  {
    var state := InitialState(ClientOptions(Some("/"), None, None, []), defaultHeaders);
    OneTrailingSlashRemoved("");
    assert "" + "/" == "/";
    assert state.baseUrl == "";
    var options := WithMethod(None, "GET");
    assert options.params.None? && options.querySerializer.None?;
    NoParamsBareURL("/anyMethod", "", NoOptions);
    assert "" + "/anyMethod" == "/anyMethod";
    VerbOverrides(state, "/anyMethod", None, "GET");
  }

  // ----- Query serializer selection -----

  /** Without a per-request serializer, a global function is used as it is and global options (or none) go through createQuerySerializer. */
  lemma GlobalSerializerUsed(global: Option<QuerySerializerConfig>)
    ensures SelectQuerySerializer(global, None) ==
              match global
              case None => Created(NoOptions)
              case Some(Prebuilt(f)) => Custom(f)
              case Some(Configured(options)) => Created(Resolved(options))
  {
  }

  /** A per-request function replaces the global serializer outright. */
  lemma RequestFunctionWins(global: Option<QuerySerializerConfig>, f: Value -> string)
    ensures SelectQuerySerializer(global, Some(Prebuilt(f))) == Custom(f)
  {
  }

  /**
   * Per-request options are merged over global options; a global function is
   * dropped, so the request options are used alone.
   */
  lemma RequestOptionsMerged(global: Option<QuerySerializerConfig>, r: SerializerOptions)
    ensures global.Some? && global.value.Configured? ==>
              SelectQuerySerializer(global, Some(Configured(r))) == Created(Resolved(MergeOptions(global.value.options, r)))
    ensures (global.None? || global.value.Prebuilt?) ==>
              SelectQuerySerializer(global, Some(Configured(r))) == Created(Resolved(r))
  {
    MergeOptionsIdentity(r);
  }

  /** The empty options record is an identity of the merge on both sides, and the merge is associative. */
  lemma MergeOptionsIdentity(r: SerializerOptions)
    ensures MergeOptions(NoSerializerOptions, r) == r
    ensures MergeOptions(r, NoSerializerOptions) == r
  {
  }

  lemma MergeOptionsAssociative(a: SerializerOptions, b: SerializerOptions, c: SerializerOptions)
    ensures MergeOptions(MergeOptions(a, b), c) == MergeOptions(a, MergeOptions(b, c))
  {
  }

  /** The merge is shallow: a request `array` replaces the global one, while the global `object` and `allowReserved` survive. */
  lemma ShallowMergeExample()
    ensures var global := SerializerOptions(Given(StyleOptions(Form, false)), Given(StyleOptions(Form, false)), Given(true));
            var request := SerializerOptions(Given(StyleOptions(PipeDelimited, false)), Absent, Absent);
            SelectQuerySerializer(Some(Configured(global)), Some(Configured(request)))
            == Created(QueryOptions(Some(StyleOptions(PipeDelimited, false)), Some(StyleOptions(Form, false)), Some(true)))
  {
  }

  /**
   * A request member written as `undefined` still replaces the global one in
   * the spread, so createQuerySerializer falls back to its defaults: arrays
   * become form/explode and allowReserved becomes false, whatever the global
   * options said.
   */
  lemma UndefinedMemberOverrides(g: SerializerOptions, r: SerializerOptions)
    requires r.arrayStyle.Undefined? && r.allowReserved.Undefined?
    ensures var s := SelectQuerySerializer(Some(Configured(g)), Some(Configured(r)));
            s.Created?
            && ArrayStyle(s.options) == StyleOptions(Form, true)
            && !AllowReserved(s.options)
  {
  }

  /** createQuerySerializer itself reads a member written as `undefined` exactly like a missing one. */
  lemma UndefinedReadsAsAbsent(options: SerializerOptions)
    ensures GlobalSerializer(Some(Configured(options.(arrayStyle := Member.Undefined))))
            == GlobalSerializer(Some(Configured(options.(arrayStyle := Absent))))
    ensures GlobalSerializer(Some(Configured(options.(objectStyle := Member.Undefined))))
            == GlobalSerializer(Some(Configured(options.(objectStyle := Absent))))
    ensures GlobalSerializer(Some(Configured(options.(allowReserved := Member.Undefined))))
            == GlobalSerializer(Some(Configured(options.(allowReserved := Absent))))
  {
  }

  // ----- Headers -----

  /**
   * The outgoing headers: each key takes its value from `params.headers` if
   * that has it, else from the request headers, else from the client headers,
   * else from DEFAULT_HEADERS; the keys are those of the four together.
   */
  lemma OutgoingHeaderPrecedence(defaultHeaders: Fields, clientHeaders: Option<Fields>, requestHeaders: Option<Fields>,
                                 paramsHeaders: Option<Fields>, key: string)
    ensures var out := Merged([Some(BaseHeaders(defaultHeaders, clientHeaders)), requestHeaders, paramsHeaders]);
            Get(out, key) ==
              if paramsHeaders.Some? && HasKey(paramsHeaders.value, key) then Get(paramsHeaders.value, key)
              else if requestHeaders.Some? && HasKey(requestHeaders.value, key) then Get(requestHeaders.value, key)
              else if clientHeaders.Some? && HasKey(clientHeaders.value, key) then Get(clientHeaders.value, key)
              else Get(defaultHeaders, key)
    ensures var out := Merged([Some(BaseHeaders(defaultHeaders, clientHeaders)), requestHeaders, paramsHeaders]);
            HasKey(out, key) <==>
              HasKey(defaultHeaders, key)
              || (clientHeaders.Some? && HasKey(clientHeaders.value, key))
              || (requestHeaders.Some? && HasKey(requestHeaders.value, key))
              || (paramsHeaders.Some? && HasKey(paramsHeaders.value, key))
  {
    BaseHeadersLookup(defaultHeaders, clientHeaders, key);
    RequestHeadersLookup(BaseHeaders(defaultHeaders, clientHeaders), requestHeaders, paramsHeaders, key);
  }

  /** coreFetch's merge: `params.headers` over the request headers over the base headers. */
  lemma RequestHeadersLookup(base: Fields, requestHeaders: Option<Fields>, paramsHeaders: Option<Fields>, key: string)
    ensures Get(Merged([Some(base), requestHeaders, paramsHeaders]), key) ==
              if paramsHeaders.Some? && HasKey(paramsHeaders.value, key) then Get(paramsHeaders.value, key)
              else if requestHeaders.Some? && HasKey(requestHeaders.value, key) then Get(requestHeaders.value, key)
              else Get(base, key)
    ensures HasKey(Merged([Some(base), requestHeaders, paramsHeaders]), key) <==>
              HasKey(base, key)
              || (requestHeaders.Some? && HasKey(requestHeaders.value, key))
              || (paramsHeaders.Some? && HasKey(paramsHeaders.value, key))
  {
    var one: seq<HeaderSource> := [Some(base)];
    var two := one + [requestHeaders];
    var three := two + [paramsHeaders];
    BaseHeadersLookup(base, requestHeaders, key);
    assert two == [Some(base), requestHeaders];
    MergedStep(two, paramsHeaders, key);
    assert three == [Some(base), requestHeaders, paramsHeaders];
  }

  /** The constructor's base headers: the client headers over DEFAULT_HEADERS. */
  lemma BaseHeadersLookup(defaultHeaders: Fields, clientHeaders: Option<Fields>, key: string)
    ensures Get(BaseHeaders(defaultHeaders, clientHeaders), key) ==
              if clientHeaders.Some? && HasKey(clientHeaders.value, key) then Get(clientHeaders.value, key)
              else Get(defaultHeaders, key)
    ensures HasKey(BaseHeaders(defaultHeaders, clientHeaders), key) <==>
              HasKey(defaultHeaders, key) || (clientHeaders.Some? && HasKey(clientHeaders.value, key))
  {
    var none: seq<HeaderSource> := [];
    var one := none + [Some(defaultHeaders)];
    var two := one + [clientHeaders];
    MergedStep(none, Some(defaultHeaders), key);
    MergedStep(one, clientHeaders, key);
    assert two == [Some(defaultHeaders), clientHeaders];
  }

  /** One more source: its keys win, the others keep their merged values. */
  lemma MergedStep(sources: seq<HeaderSource>, more: HeaderSource, key: string)
    ensures Get(Merged(sources + [more]), key) ==
              if more.Some? && HasKey(more.value, key) then Get(more.value, key) else Get(Merged(sources), key)
    ensures HasKey(Merged(sources + [more]), key) <==> HasKey(Merged(sources), key) || (more.Some? && HasKey(more.value, key))
  {
    assert (sources + [more])[..|sources|] == sources;
    if more.Some? {
      GetAssign(Merged(sources), more.value, key);
    }
  }

  /** The prepared request carries the merged headers, also as the `headers` member of its init. */
  lemma PreparedHeaders(state: ServiceState, url: string, fetchOptions: Option<FetchOptions>)
    requires PrepareRequest(state, url, fetchOptions).Success?
    ensures var options := fetchOptions.GetOr(NoFetchOptions);
            var params := options.params.GetOr(NoParams);
            var p := PrepareRequest(state, url, fetchOptions).value;
            p.headers == Merged([Some(state.baseHeaders), options.headers, params.headers])
            && HasKey(p.init, "headers") && Get(p.init, "headers") == Obj(p.headers)
  {
    var options := fetchOptions.GetOr(NoFetchOptions);
    var p := PrepareRequest(state, url, fetchOptions).value;
    var spread := Assign(Assign([], state.baseOptions), options.init);
    GetPut(spread, "headers", Obj(p.headers), "headers");
    HasKeyPut(spread, "headers", Obj(p.headers), "headers");
  }

  // ----- Request options -----

  /** Every member other than `headers` comes from the request options if they have it, else from the client's base options. */
  lemma InitPrecedence(baseOptions: Fields, init: Fields, headers: Fields, key: string)
    requires key != "headers"
    ensures Get(RequestInit(baseOptions, init, headers), key) ==
              if HasKey(init, key) then Get(init, key) else Get(baseOptions, key)
  {
    var spread := Assign(Assign([], baseOptions), init);
    GetPut(spread, "headers", Obj(headers), key);
    GetAssign(Assign([], baseOptions), init, key);
    GetAssign([], baseOptions, key);
  }

  /**
   * Each verb wrapper sets the request method, whatever the base options and
   * the request options say, and changes nothing else coreFetch computes.
   */
  lemma VerbOverrides(state: ServiceState, url: string, init: Option<FetchOptions>, verb: string)
    ensures PrepareRequest(state, url, Some(WithMethod(init, verb))).Success? <==> PrepareRequest(state, url, init).Success?
    ensures PrepareRequest(state, url, Some(WithMethod(init, verb))).Success? ==>
              var p := PrepareRequest(state, url, Some(WithMethod(init, verb))).value;
              var q := PrepareRequest(state, url, init).value;
              p.requestMethod == Text(verb) && p.url == q.url && p.headers == q.headers
  {
    var options := WithMethod(init, verb);
    assert init.GetOr(NoFetchOptions).(init := options.init) == options;
    var r := PrepareRequest(state, url, Some(options));
    if r.Success? {
      var params := options.params.GetOr(NoParams);
      InitPrecedence(state.baseOptions, options.init, r.value.headers, "method");
    }
  }

  // ----- params -----

  /**
   * Without `params` (or without any options) there is no path substitution;
   * with a serializer created from options the URL is the base URL and the
   * path with no query string.
   */
  lemma ParamsDefault(state: ServiceState, url: string, fetchOptions: Option<FetchOptions>)
    requires fetchOptions.None? || fetchOptions.value.params.None?
    requires SelectQuerySerializer(state.globalQuerySerializer, fetchOptions.GetOr(NoFetchOptions).querySerializer).Created?
    ensures PrepareRequest(state, url, fetchOptions).Success?
    ensures PrepareRequest(state, url, fetchOptions).value.url == state.baseUrl + url
  {
    var options := fetchOptions.GetOr(NoFetchOptions);
    var serializer := SelectQuerySerializer(state.globalQuerySerializer, options.querySerializer);
    NoParamsBareURL(url, state.baseUrl, serializer.options);
  }

  /** `params.header`, the record the OpenAPI parameter object names, does not reach the request. */
  lemma ParamsHeaderIgnored(state: ServiceState, url: string, options: FetchOptions, params: RequestParams, header: Option<Fields>)
    ensures PrepareRequest(state, url, Some(options.(params := Some(params.(header := header)))))
            == PrepareRequest(state, url, Some(options.(params := Some(params))))
  {
    var p := params.(header := header);
    var o := options.(params := Some(p));
    var o' := options.(params := Some(params));
    assert PathPart(url, state.baseUrl, p) == PathPart(url, state.baseUrl, params);
    assert QueryOrEmpty(p) == QueryOrEmpty(params);
    assert p.headers == params.headers;
  }
}
