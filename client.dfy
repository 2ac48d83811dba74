/**
 * OpenAPIClientService: the options the constructor resolves once (base URL,
 * base headers, the global query serializer, the remaining base options) and
 * the request coreFetch prepares from them and the per-request options. The
 * HTTP call itself and the response handling are not part of this model:
 * coreFetch here returns the arguments it would pass to `new HttpRequest`.
 */
module Client {
  import opened Wrappers
  import opened Strings
  import opened JsValues
  import opened Records
  import opened HeaderMerge
  import opened QuerySerialization
  import opened FinalUrl

  /**
   * A member of an options object literal: missing, present with the value
   * `undefined`, or present with a value. A spread copies a present member
   * even when its value is `undefined`.
   */
  datatype Member<T> = Absent | Undefined | Given(value: T)

  /** QuerySerializerOptions as the caller writes them: `array`, `object` and `allowReserved`. */
  datatype SerializerOptions = SerializerOptions(
    arrayStyle: Member<StyleOptions>,
    objectStyle: Member<StyleOptions>,
    allowReserved: Member<bool>)

  /** `{}` */
  const NoSerializerOptions := SerializerOptions(Absent, Absent, Absent)

  /** The `querySerializer` option: a serializer function, or options for createQuerySerializer. */
  datatype QuerySerializerConfig = Prebuilt(f: Value -> string) | Configured(options: SerializerOptions)

  /** ClientOptions: `baseUrl`, `querySerializer` and `headers`, and every other member in `rest`. */
  datatype ClientOptions = ClientOptions(
    baseUrl: Option<string>,
    querySerializer: Option<QuerySerializerConfig>,
    headers: Option<Fields>,
    rest: Fields)

  /** FetchOptions: `headers`, `params` and `querySerializer`, and every other member (method, body, ...) in `init`. */
  datatype FetchOptions = FetchOptions(
    headers: Option<Fields>,
    params: Option<RequestParams>,
    querySerializer: Option<QuerySerializerConfig>,
    init: Fields)

  /** `fetchOptions || {}` */
  const NoFetchOptions := FetchOptions(None, None, None, [])

  /** What the constructor keeps for coreFetch. */
  datatype ServiceState = ServiceState(
    baseUrl: string,
    globalQuerySerializer: Option<QuerySerializerConfig>,
    baseHeaders: Fields,
    baseOptions: Fields)

  /** The arguments of `new HttpRequest(method, url, body, init)`; `headers` is the merged header record inside `init`. */
  datatype PreparedRequest = PreparedRequest(requestMethod: Value, url: string, body: Value, headers: Fields, init: Fields)

  // ----- The constructor -----

  /** `baseUrl` defaulted to "" and one trailing `/` removed. */
  function NormalizeBaseUrl(baseUrl: Option<string>): (r: string)
    ensures baseUrl.None? ==> r == ""
    ensures baseUrl.Some? && EndsWith(baseUrl.value, "/") ==> r + "/" == baseUrl.value
    ensures baseUrl.Some? && !EndsWith(baseUrl.value, "/") ==> r == baseUrl.value
  {
    var b := baseUrl.GetOr("");
    if EndsWith(b, "/") then b[..|b| - 1] else b
  }

  /** `mergeHeaders(DEFAULT_HEADERS, baseHeaders)`, DEFAULT_HEADERS given as its enumerated record. */
  function BaseHeaders(defaultHeaders: Fields, clientHeaders: Option<Fields>): Fields
  {
    Merged([Some(defaultHeaders), clientHeaders])
  }

  function InitialState(clientOptions: ClientOptions, defaultHeaders: Fields): ServiceState
  {
    ServiceState(
      NormalizeBaseUrl(clientOptions.baseUrl),
      clientOptions.querySerializer,
      BaseHeaders(defaultHeaders, clientOptions.headers),
      clientOptions.rest)
  }

  // ----- Query serializer selection -----

  /** The global serializer: a function as it is, options (or none) through createQuerySerializer. */
  /** A member as createQuerySerializer reads it: `...undefined` spreads nothing and `undefined || false` is false, so `undefined` reads as missing. */
  function MemberValue<T>(m: Member<T>): (r: Option<T>)
    ensures r.Some? <==> m.Given?
    ensures m.Given? ==> r.value == m.value
  {
    if m.Given? then Some(m.value) else None
  }

  /** The options createQuerySerializer sees. */
  function Resolved(options: SerializerOptions): QueryOptions
  {
    QueryOptions(MemberValue(options.arrayStyle), MemberValue(options.objectStyle), MemberValue(options.allowReserved))
  }

  /** `typeof globalQuerySerializer === 'function' ? globalQuerySerializer : createQuerySerializer(globalQuerySerializer)` */
  function GlobalSerializer(global: Option<QuerySerializerConfig>): QuerySerializer
  {
    match global
    case None => Created(NoOptions)
    case Some(Prebuilt(f)) => Custom(f)
    case Some(Configured(options)) => Created(Resolved(options))
  }

  /** `typeof globalQuerySerializer === 'object' ? globalQuerySerializer : {}` */
  function GlobalOptions(global: Option<QuerySerializerConfig>): SerializerOptions
  {
    match global
    case Some(Configured(options)) => options
    case _ => NoSerializerOptions
  }

  /** The member `{...g, ...r}` ends up with: `r`'s whenever `r` has the member, even as `undefined`. */
  function MergeMember<T>(g: Member<T>, r: Member<T>): (m: Member<T>)
    ensures !r.Absent? ==> m == r
    ensures r.Absent? ==> m == g
  {
    if r.Absent? then g else r
  }

  /** `{...g, ...r}` on serializer options: a member present in `r`, `undefined` or not, replaces the one in `g`. */
  function MergeOptions(g: SerializerOptions, r: SerializerOptions): (m: SerializerOptions)
    ensures !r.arrayStyle.Absent? ==> m.arrayStyle == r.arrayStyle
    ensures r.arrayStyle.Absent? ==> m.arrayStyle == g.arrayStyle
    ensures !r.objectStyle.Absent? ==> m.objectStyle == r.objectStyle
    ensures r.objectStyle.Absent? ==> m.objectStyle == g.objectStyle
    ensures !r.allowReserved.Absent? ==> m.allowReserved == r.allowReserved
    ensures r.allowReserved.Absent? ==> m.allowReserved == g.allowReserved
  {
    SerializerOptions(
      MergeMember(g.arrayStyle, r.arrayStyle),
      MergeMember(g.objectStyle, r.objectStyle),
      MergeMember(g.allowReserved, r.allowReserved))
  }

  /** The serializer coreFetch uses, from the global and the per-request option. */
  function SelectQuerySerializer(global: Option<QuerySerializerConfig>, request: Option<QuerySerializerConfig>): QuerySerializer
  {
    match request
    case None => GlobalSerializer(global)
    case Some(Prebuilt(f)) => Custom(f)
    case Some(Configured(r)) => Created(Resolved(MergeOptions(GlobalOptions(global), r)))
  }

  // ----- coreFetch -----

  /** `{...baseOptions, ...init, headers: mergeHeaders(baseHeaders, headers, params.headers)}` */
  function RequestInit(baseOptions: Fields, init: Fields, headers: Fields): Fields
  {
    Put(Assign(Assign([], baseOptions), init), "headers", Obj(headers))
  }

  /** The request coreFetch prepares, or the error a serializer raised. */
  function PrepareRequest(state: ServiceState, url: string, fetchOptions: Option<FetchOptions>): Result<PreparedRequest>
  {
    var options := fetchOptions.GetOr(NoFetchOptions);
    var params := options.params.GetOr(NoParams);
    var serializer := SelectQuerySerializer(state.globalQuerySerializer, options.querySerializer);
    var headers := Merged([Some(state.baseHeaders), options.headers, params.headers]);
    var requestInit := RequestInit(state.baseOptions, options.init, headers);
    var finalURL :- FinalURL(url, state.baseUrl, params, serializer);
    var body := Get(requestInit, "body");
    Success(PreparedRequest(Get(requestInit, "method"), finalURL, if body.IsNullish() then Null else body, headers, requestInit))
  }

  /** `{...init, method: verb}`: the options a verb wrapper passes to coreFetch. */
  function WithMethod(init: Option<FetchOptions>, verb: string): (r: FetchOptions)
    ensures HasKey(r.init, "method") && Get(r.init, "method") == Text(verb)
  {
    var options := init.GetOr(NoFetchOptions);
    GetPut(options.init, "method", Text(verb), "method");
    HasKeyPut(options.init, "method", Text(verb), "method");
    options.(init := Put(options.init, "method", Text(verb)))
  }

  class OpenAPIClientService {
    const baseUrl: string
    const globalQuerySerializer: Option<QuerySerializerConfig>
    const baseHeaders: Fields
    const baseOptions: Fields

    function State(): ServiceState
    {
      ServiceState(baseUrl, globalQuerySerializer, baseHeaders, baseOptions)
    }

    constructor(clientOptions: ClientOptions, defaultHeaders: Fields)
      ensures State() == InitialState(clientOptions, defaultHeaders)
    {
      var url := clientOptions.baseUrl.GetOr("");
      if EndsWith(url, "/") {
        url := url[..|url| - 1];
      }
      var headers := MergeHeaders([Some(defaultHeaders), clientOptions.headers]);
      baseUrl := url;
      globalQuerySerializer := clientOptions.querySerializer;
      baseHeaders := headers;
      baseOptions := clientOptions.rest;
    }

    method CoreFetch(url: string, fetchOptions: Option<FetchOptions>) returns (r: Result<PreparedRequest>)
      ensures r == PrepareRequest(State(), url, fetchOptions)
    {
      var options := fetchOptions.GetOr(NoFetchOptions);
      var params := options.params.GetOr(NoParams);
      var querySerializer := GlobalSerializer(globalQuerySerializer);
      if options.querySerializer.Some? {
        match options.querySerializer.value {
          case Prebuilt(f) =>
            querySerializer := Custom(f);
          case Configured(requestOptions) =>
            querySerializer := Created(Resolved(MergeOptions(GlobalOptions(globalQuerySerializer), requestOptions)));
        }
      }
      var headers := MergeHeaders([Some(baseHeaders), options.headers, params.headers]);
      var requestInit := RequestInit(baseOptions, options.init, headers);
      var finalURL := CreateFinalURL(url, baseUrl, params, querySerializer);
      if finalURL.Failure? {
        return Failure(finalURL.error);
      }
      var body := Records.Get(requestInit, "body");
      r := Success(PreparedRequest(Records.Get(requestInit, "method"), finalURL.value, if body.IsNullish() then Null else body, headers, requestInit));
    }

    method Get(url: string, init: Option<FetchOptions>) returns (r: Result<PreparedRequest>)
      ensures r == PrepareRequest(State(), url, Some(WithMethod(init, "GET")))
    {
      r := CoreFetch(url, Some(WithMethod(init, "GET")));
    }

    method Put(url: string, init: Option<FetchOptions>) returns (r: Result<PreparedRequest>)
      ensures r == PrepareRequest(State(), url, Some(WithMethod(init, "PUT")))
    {
      r := CoreFetch(url, Some(WithMethod(init, "PUT")));
    }

    method Post(url: string, init: Option<FetchOptions>) returns (r: Result<PreparedRequest>)
      ensures r == PrepareRequest(State(), url, Some(WithMethod(init, "POST")))
    {
      r := CoreFetch(url, Some(WithMethod(init, "POST")));
    }

    method Delete(url: string, init: Option<FetchOptions>) returns (r: Result<PreparedRequest>)
      ensures r == PrepareRequest(State(), url, Some(WithMethod(init, "DELETE")))
    {
      r := CoreFetch(url, Some(WithMethod(init, "DELETE")));
    }

    method Options(url: string, init: Option<FetchOptions>) returns (r: Result<PreparedRequest>)
      ensures r == PrepareRequest(State(), url, Some(WithMethod(init, "OPTIONS")))
    {
      r := CoreFetch(url, Some(WithMethod(init, "OPTIONS")));
    }

    method Head(url: string, init: Option<FetchOptions>) returns (r: Result<PreparedRequest>)
      ensures r == PrepareRequest(State(), url, Some(WithMethod(init, "HEAD")))
    {
      r := CoreFetch(url, Some(WithMethod(init, "HEAD")));
    }

    method Patch(url: string, init: Option<FetchOptions>) returns (r: Result<PreparedRequest>)
      ensures r == PrepareRequest(State(), url, Some(WithMethod(init, "PATCH")))
    {
      r := CoreFetch(url, Some(WithMethod(init, "PATCH")));
    }

    method Trace(url: string, init: Option<FetchOptions>) returns (r: Result<PreparedRequest>)
      ensures r == PrepareRequest(State(), url, Some(WithMethod(init, "TRACE")))
    {
      r := CoreFetch(url, Some(WithMethod(init, "TRACE")));
    }
  }
}
