/** The tenant router of src/proxy.ts: a request on a tenant sub-domain that
    is not already on the sign-in page is sent to `/auth?subdomain=<label>`. */
module Proxy {
  import opened Wrappers
  import opened JsString
  import opened Url

  /** What the router sees of a request: the raw `Host` header (absent or not)
      and a copy of the request URL. */
  datatype Request = Request(hostHeader: Option<string>, url: Url)

  /** The response the router chooses: continue unchanged, or redirect. */
  datatype Decision = Pass | Redirect(target: Url, status: nat)

  /** The status `NextResponse.redirect` uses when none is given (307 Temporary Redirect). */
  const TemporaryRedirect: nat := 307

  const AuthPath := "/auth"
  const SubdomainParam := "subdomain"

  /** `request.headers.get("host") || ""`. */
  function HostOf(req: Request): string {
    OrElse(req.hostHeader, "")
  }

  /** The first dot-separated label of the raw host; the port is NOT removed. */
  function TenantLabel(host: string): (t: string)
    ensures |t| <= |host| && t == host[..|t|] && '.' !in t
    ensures |t| == |host| || host[|t|] == '.'
  {
    Before(host, '.')
  }

  /** Labels that mean "not a tenant": none at all, `www`, or bare `localhost`. */
  predicate IsExemptLabel(t: string) {
    t == "" || t == "www" || t == "localhost"
  }

  /** `proxy(request)`. */
  function Route(req: Request): (d: Decision)
    ensures d.Pass? <==> IsExemptLabel(TenantLabel(HostOf(req))) || req.url.pathname == AuthPath
    ensures d.Redirect? ==>
      && d.status == TemporaryRedirect
      && d.target == req.url.(pathname := AuthPath,
                                query := Set(req.url.query, SubdomainParam, TenantLabel(HostOf(req))))
  {
    var t := TenantLabel(HostOf(req));
    if IsExemptLabel(t) then Pass
    else if req.url.pathname == AuthPath then Pass
    else
      var url := req.url;
      Redirect(url.(pathname := AuthPath, query := Set(url.query, SubdomainParam, t)), TemporaryRedirect)
  }

  /** Every redirect goes to `/auth` on the same host (scheme and fragment kept),
      with exactly one `subdomain` parameter holding the tenant label and all
      other query parameters unchanged. */
  lemma RedirectTarget(req: Request)
    requires Route(req).Redirect?
    ensures var t := Route(req).target;
      && t.host == req.url.host && t.scheme == req.url.scheme && t.hash == req.url.hash
      && t.pathname == AuthPath
      && Values(t.query, SubdomainParam) == [TenantLabel(HostOf(req))]
      && Others(t.query, SubdomainParam) == Others(req.url.query, SubdomainParam)
  {
    SetSpec(req.url.query, SubdomainParam, TenantLabel(HostOf(req)));
  }

  /** A tenant host is redirected on every path except exactly `/auth`:
      `/auth/login` is not exempt. */
  lemma OnlyExactAuthPathIsExempt(req: Request)
    requires !IsExemptLabel(TenantLabel(HostOf(req)))
    ensures Route(req).Pass? <==> req.url.pathname == "/auth"
    ensures req.url.pathname == "/auth/login" ==> Route(req).Redirect?
  {
  }

  /** The port is part of the label: `localhost:<port>` is a tenant label, so
      a request with that host is redirected, while bare `localhost` passes. */
  lemma PortIsPartOfLabel(port: string, url: Url)
    requires port != "" && '.' !in port && url.pathname != AuthPath
    ensures TenantLabel("localhost" + port) == "localhost" + port
    ensures Route(Request(Some("localhost" + port), url)).Redirect?
    ensures Route(Request(Some("localhost"), url)) == Pass
  {
    var l := "localhost";
    LocalhostHasNoDot();
    assert '.' !in l + port;
    DotlessLabel(l + port);
    assert |l + port| > |l| && l + port != "www";
    assert !IsExemptLabel(TenantLabel(HostOf(Request(Some(l + port), url))));
    DotlessLabel(l);
    assert IsExemptLabel(TenantLabel(HostOf(Request(Some(l), url))));
  }

  lemma LocalhostHasNoDot()
    ensures '.' !in "localhost"
  {
    var l := "localhost";
    assert forall i :: 0 <= i < |l| ==> l[i] != '.';
  }

  /** A host without a dot is its own label. */
  lemma DotlessLabel(h: string)
    ensures '.' !in h ==> TenantLabel(h) == h
  {
    if '.' !in h { BeforeAbsent(h, '.'); }
  }

  /** A tenant host is sent to `/auth?subdomain=<first label>`. */
  lemma TenantExample(url: Url)
    requires url.pathname == "/inbox" && url.query == []
    ensures Route(Request(Some("bob.localhost:3000"), url))
         == Redirect(url.(pathname := "/auth", query := [Param("subdomain", "bob")]), 307)
  {
    var host := "bob.localhost:3000";
    var req := Request(Some(host), url);
    assert host == "bob" + ['.'] + "localhost:3000";
    BeforeAppend("bob", '.', "localhost:3000");
    assert HostOf(req) == host;
    assert TenantLabel(HostOf(req)) == "bob";
    assert !IsExemptLabel("bob");
    SetEmpty(SubdomainParam, "bob");
  }

  /** The marketing hosts pass: no Host header at all, or a `www.` host. */
  lemma NonTenantExample(url: Url)
    ensures Route(Request(None, url)) == Pass
    ensures Route(Request(Some("www.example.com"), url)) == Pass
  {
    BeforeAppend("www", '.', "example.com");
    assert "www.example.com" == "www" + ['.'] + "example.com";
  }

  // ---------------------------------------------------------------------------
  // The route filter `config.matcher`:
  //   "/((?!api|_next/static|_next/image|favicon.ico|.*\\.svg$).*)"
  // matched against the whole pathname.

  /** A character the regular expression's `.` accepts. */
  predicate Dot(ch: char) {
    !IsLineTerminator(ch)
  }

  /** The negative look-ahead: what, after the leading `/`, keeps the router away. */
  predicate Excluded(rest: string) {
    || StartsWith(rest, "api")
    || StartsWith(rest, "_next/static")
    || StartsWith(rest, "_next/image")
    || (|rest| >= 11 && rest[..7] == "favicon" && Dot(rest[7]) && rest[8..11] == "ico")
    || (EndsWith(rest, ".svg") && NoLineTerminator(rest[..|rest| - 4]))
  }

  /** The pathnames the router runs on. */
  predicate Matches(path: string) {
    |path| >= 1 && path[0] == '/' && NoLineTerminator(path[1..]) && !Excluded(path[1..])
  }

  /** API routes and the framework's static and image assets never reach the router. */
  lemma ExcludedByPrefix(path: string, prefix: string)
    requires prefix == "api" || prefix == "_next/static" || prefix == "_next/image"
    requires |path| > |prefix| && path[1..|prefix| + 1] == prefix
    ensures !Matches(path)
  {
    assert path[1..][..|prefix|] == prefix;
  }

  /** Neither does `/favicon<any character>ico`. */
  lemma ExcludesFavicon(path: string)
    requires |path| >= 12 && path[1..8] == "favicon" && Dot(path[8]) && path[9..12] == "ico"
    ensures !Matches(path)
  {
    var rest := path[1..];
    assert rest[..7] == path[1..8];
    assert rest[7] == path[8];
    forall i | 0 <= i < 3 ensures rest[8..11][i] == path[9..12][i] {
      assert rest[8 + i] == path[9 + i];
    }
  }

  /** Nor does any pathname ending in `.svg`. */
  lemma ExcludesSvg(path: string)
    requires |path| >= 5 && path[|path| - 4..] == ".svg"
    ensures !Matches(path)
  {
    var rest := path[1..];
    assert rest[|rest| - 4..] == path[|path| - 4..];
    if NoLineTerminator(rest) {
      assert forall i :: 0 <= i < |rest| - 4 ==> rest[..|rest| - 4][i] == rest[i];
    }
  }

  /** The sign-in page itself goes through the router. */
  lemma AuthPageIsRouted()
    ensures Matches("/auth")
  {
    IncludesPlain("/auth");
  }

  /** A single-line pathname that starts with none of the excluded names and
      has no `.` is routed. */
  lemma IncludesPlain(path: string)
    requires |path| >= 1 && path[0] == '/'
    requires forall i :: 0 <= i < |path| ==> path[i] != '.' && !IsLineTerminator(path[i])
    requires |path| >= 2 ==> path[1] != '_' && path[1] != 'f'
    requires |path| >= 3 ==> path[1] != 'a' || path[2] != 'p'
    ensures Matches(path)
  {
    var rest := path[1..];
    assert forall i :: 0 <= i < |rest| ==> rest[i] == path[i + 1];
    if |rest| >= 3 { assert rest[..3][0] == path[1] && rest[..3][1] == path[2]; }
    if |rest| >= 4 { assert rest[|rest| - 4..][0] == path[|path| - 4]; }
  }
}
