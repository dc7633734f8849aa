/** The mobile app's HTTP client configuration (mobile/src/api/client.ts): how
    the API base URL is derived from the environment, how the bearer token is
    installed on the default headers, and the request interceptor that keeps the
    token off the login call. The axios transport itself is not modelled. */
module ApiClient {

  import opened Wrappers
  import opened Text

  /** Host used when the `EXPO_PUBLIC_API_BASE_URL` environment value is absent. */
  const DefaultHost: string := "http://127.0.0.1:8000"

  /** Path appended to the host to reach the Laravel API routes. */
  const ApiSuffix: string := "/api"

  const AuthorizationHeader: string := "Authorization"

  const BearerPrefix: string := "Bearer "

  /** Header name to value, as in axios' `headers` objects. */
  type Headers = map<string, string>

  function IsSlash(c: char): bool {
    c == '/'
  }

  /** The environment value (or the default host), trimmed. */
  function TrimmedHost(env: Option<string>): string {
    Trim(env.GetOr(DefaultHost))
  }

  /** The API host: the trimmed environment value with every trailing `/`
      removed. An empty but present environment value is kept (`??` only
      replaces an absent one). */
  function Host(env: Option<string>): (h: string)
    ensures h <= TrimmedHost(env)
    ensures |h| == 0 || h[|h| - 1] != '/'
    ensures forall k :: |h| <= k < |TrimmedHost(env)| ==> TrimmedHost(env)[k] == '/'
  {
    DropLastWhile(TrimmedHost(env), IsSlash)
  }

  /** An environment value with no surrounding whitespace and no trailing `/`
      is used as the host verbatim. */
  lemma HostKeepsCleanValue(v: string)
    requires |v| > 0 ==> !IsJsWhitespace(v[0]) && !IsJsWhitespace(v[|v| - 1]) && v[|v| - 1] != '/'
    ensures Host(Some(v)) == v
  {
    assert TrimmedHost(Some(v)) == v;
    if |v| > 0 {
      assert !IsSlash(v[|v| - 1]);
    }
    assert DropLastWhile(v, IsSlash) == v;
  }

  /** Without an environment value the host is the local development server. */
  lemma HostDefault()
    ensures Host(None) == DefaultHost
  {
    assert !IsJsWhitespace(DefaultHost[0]) && !IsJsWhitespace(DefaultHost[|DefaultHost| - 1]);
    assert TrimmedHost(None) == TrimmedHost(Some(DefaultHost));
    HostKeepsCleanValue(DefaultHost);
  }

  /** Base URL of every API request: the host followed by `/api`. */
  function BaseUrl(env: Option<string>): (u: string)
    ensures EndsWith(u, ApiSuffix)
    ensures u[..|u| - |ApiSuffix|] == Host(env)
    ensures |u| == |ApiSuffix| || u[|u| - |ApiSuffix| - 1] != '/'
  {
    var h := Host(env);
    var u := h + ApiSuffix;
    assert u[..|h|] == h;
    u
  }

  /** `setAuthToken`: a non-empty token installs `Bearer <token>` as the default
      Authorization header; an absent or empty token removes the header. No
      other header is touched. */
  function SetAuthToken(headers: Headers, token: Option<string>): (r: Headers)
    ensures token.Some? && token.value != "" ==>
      AuthorizationHeader in r && r[AuthorizationHeader] == BearerPrefix + token.value
    ensures token.None? || token.value == "" ==> AuthorizationHeader !in r
    ensures forall k :: k != AuthorizationHeader ==> (k in r <==> k in headers)
    ensures forall k :: k != AuthorizationHeader && k in headers ==> r[k] == headers[k]
  {
    if token.Some? && token.value != "" then
      headers[AuthorizationHeader := BearerPrefix + token.value]
    else
      headers - {AuthorizationHeader}
  }

  /** The token carried by a headers map, read back from `Bearer <token>`. */
  function BearerToken(headers: Headers): Option<string> {
    if AuthorizationHeader in headers
      && |BearerPrefix| <= |headers[AuthorizationHeader]|
      && headers[AuthorizationHeader][..|BearerPrefix|] == BearerPrefix
    then Some(headers[AuthorizationHeader][|BearerPrefix|..])
    else None
  }

  /** Installing a token and reading it back gives the token; clearing it
      afterwards leaves no token behind and restores every other header. */
  lemma SetAuthTokenRoundTrip(headers: Headers, token: string)
    requires token != ""
    ensures BearerToken(SetAuthToken(headers, Some(token))) == Some(token)
    ensures SetAuthToken(SetAuthToken(headers, Some(token)), None)
         == headers - {AuthorizationHeader}
  {
    var h := SetAuthToken(headers, Some(token));
    assert (BearerPrefix + token)[..|BearerPrefix|] == BearerPrefix;
    assert (BearerPrefix + token)[|BearerPrefix|..] == token;
    assert SetAuthToken(h, None).Keys == (headers - {AuthorizationHeader}).Keys;
  }

  /** What the request interceptor sees: the request path and its headers. */
  datatype RequestConfig = RequestConfig(url: Option<string>, headers: Headers)

  /** The request interceptor: a request whose URL ends in `/login` loses its
      Authorization header; every other request, and one without a URL, passes
      through unchanged. */
  function InterceptRequest(config: RequestConfig): (r: RequestConfig)
    ensures r.url == config.url
    ensures config.url.Some? && EndsWith(config.url.value, "/login") ==>
      r.headers == config.headers - {AuthorizationHeader}
    ensures !(config.url.Some? && EndsWith(config.url.value, "/login")) ==> r == config
  {
    if config.url.Some? && EndsWith(config.url.value, "/login") then
      config.(headers := config.headers - {AuthorizationHeader})
    else config
  }

  /** Whatever token is installed, the login call goes out without credentials
      while every other call carries the installed token. */
  lemma LoginCarriesNoToken(defaults: Headers, token: string, path: string)
    requires token != ""
    ensures var sent := InterceptRequest(RequestConfig(Some(path), SetAuthToken(defaults, Some(token))));
      (EndsWith(path, "/login") ==> BearerToken(sent.headers) == None)
      && (!EndsWith(path, "/login") ==> BearerToken(sent.headers) == Some(token))
  {
    SetAuthTokenRoundTrip(defaults, token);
  }
}
