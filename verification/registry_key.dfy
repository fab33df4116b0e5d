/** The registry auth-key codec: npm stores a registry's bearer token under
    the key `//<host><path>`, plus `/` unless that already ends in `/`, then
    `:_authToken`. */
module RegistryKey {
  import opened Wrappers
  import opened Strings
  import opened Json
  import opened Errors

  /** The two parts of a WHATWG URL record the key is built from: `host`
      (host name plus any non-default port) and `pathname`. */
  datatype Url = Url(host: string, pathname: string)

  const AuthTokenSuffix: string := ":_authToken"

  /** Appends a `/` unless the text already ends with one. */
  function WithTrailingSlash(hostPath: string): (r: string)
    ensures EndsWith(r, "/")
    ensures r == hostPath || r == hostPath + "/"
    ensures EndsWith(hostPath, "/") ==> r == hostPath
  {
    if EndsWith(hostPath, "/") then hostPath else hostPath + "/"
  }

  /** The auth key of a parsed registry URL. */
  function AuthKeyOf(u: Url): (key: string)
    ensures StartsWith(key, "//")
    ensures EndsWith(key, AuthTokenSuffix)
    ensures |key| >= 2 + 1 + |AuthTokenSuffix|
    ensures EndsWith(key[..|key| - |AuthTokenSuffix|], "/")
  {
    var hostPath := WithTrailingSlash(u.host + u.pathname);
    var key := "//" + hostPath + AuthTokenSuffix;
    assert key[..|key| - |AuthTokenSuffix|] == "//" + hostPath;
    key
  }

  /** `registryToAuthKey`: parses the registry value with the URL parser,
      given as `parseUrl`, and derives the key; a value the parser rejects
      is an error. */
  function RegistryToAuthKey(parseUrl: Value -> Option<Url>, registryUrl: Value): (r: Result<string, Error>)
    ensures r.Failure? <==> parseUrl(registryUrl).None?
    ensures r.Failure? ==> r.error == InvalidRegistryUrl(registryUrl)
    ensures r.Success? ==> r.value == AuthKeyOf(parseUrl(registryUrl).value)
  {
    match parseUrl(registryUrl)
    case None => Failure(InvalidRegistryUrl(registryUrl))
    case Some(u) => Success(AuthKeyOf(u))
  }

  /** Reads the slash-terminated host and path back out of an auth key. */
  function HostPathOfKey(key: string): (r: Option<string>)
    ensures r.Some? ==> "//" + r.value + AuthTokenSuffix == key
  {
    if |key| >= 2 + |AuthTokenSuffix| && StartsWith(key, "//") && EndsWith(key, AuthTokenSuffix) then
      var hostPath := key[2..|key| - |AuthTokenSuffix|];
      assert key == key[..2] + hostPath + key[|key| - |AuthTokenSuffix|..];
      Some(hostPath)
    else
      None
  }

  /** The key encodes exactly the slash-normalised host and path. */
  lemma AuthKeyRoundTrip(u: Url)
    ensures HostPathOfKey(AuthKeyOf(u)) == Some(WithTrailingSlash(u.host + u.pathname))
  {
    var hostPath := WithTrailingSlash(u.host + u.pathname);
    var key := AuthKeyOf(u);
    assert key == "//" + hostPath + AuthTokenSuffix;
    assert key[2..|key| - |AuthTokenSuffix|] == hostPath;
  }

  /** Two URLs share an auth key exactly when their slash-normalised host
      and path agree. */
  lemma AuthKeyInjective(u: Url, v: Url)
    ensures AuthKeyOf(u) == AuthKeyOf(v)
            <==> WithTrailingSlash(u.host + u.pathname) == WithTrailingSlash(v.host + v.pathname)
  {
    if AuthKeyOf(u) == AuthKeyOf(v) {
      AuthKeyRoundTrip(u);
      AuthKeyRoundTrip(v);
    }
  }

  /** Slash normalisation is idempotent. */
  lemma TrailingSlashIdempotent(hostPath: string)
    ensures WithTrailingSlash(WithTrailingSlash(hostPath)) == WithTrailingSlash(hostPath)
  {
  }

  /** A path with and without its trailing slash give the same key. */
  lemma AuthKeyIgnoresTrailingSlash(host: string, pathname: string)
    requires !EndsWith(host + pathname, "/")
    ensures AuthKeyOf(Url(host, pathname)) == AuthKeyOf(Url(host, pathname + "/"))
  {
    assert host + (pathname + "/") == (host + pathname) + "/";
    assert WithTrailingSlash(host + pathname) == (host + pathname) + "/";
    assert WithTrailingSlash((host + pathname) + "/") == (host + pathname) + "/";
  }

  /** `https://r.example/api/` gives `//r.example/api/:_authToken`. */
  lemma AuthKeyExample()
    ensures AuthKeyOf(Url("r.example", "/api/")) == "//r.example/api/:_authToken"
  {
    var host, path := "r.example", "/api/";
    assert EndsWith(host + path, "/");
    assert WithTrailingSlash(host + path) == host + path;
  }

  /** `https://r.example/api`, without the slash, gives the same key. */
  lemma AuthKeyExampleNoSlash()
    ensures AuthKeyOf(Url("r.example", "/api")) == "//r.example/api/:_authToken"
  {
    var host := "r.example";
    assert (host + "/api")[|host + "/api"| - 1] == 'i';
    AuthKeyIgnoresTrailingSlash(host, "/api");
    assert "/api" + "/" == "/api/";
    AuthKeyExample();
  }
}
