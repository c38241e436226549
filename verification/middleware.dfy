/** The request middleware of src/middleware.ts: the bare root domain is sent
    permanently to its `www.` alias (section 15.4.2 of RFC 9110, 301 Moved
    Permanently); every other request is handed to the tenant router. */
module Middleware {
  import opened Wrappers
  import opened JsString
  import opened Url
  import opened Proxy

  /** `NEXT_PUBLIC_ROOT_DOMAIN || "localhost:3000"`. */
  const DefaultRootDomain := "localhost:3000"

  const PermanentRedirect: nat := 301

  function RootDomain(env: Option<string>): string {
    OrElse(env, DefaultRootDomain)
  }

  /** `host.split(":")[0]`: the host without its port. */
  function HostName(host: string): (h: string)
    ensures |h| <= |host| && h == host[..|h|] && ':' !in h
    ensures |h| == |host| || host[|h|] == ':'
  {
    Before(host, ':')
  }

  /** The request is for the bare root domain: equal host names, compared
      exactly (no case folding), and not already a `www.` name. */
  predicate IsApex(host: string, root: string) {
    HostName(host) == HostName(root) && !StartsWith(HostName(host), "www.")
  }

  /** The URL the apex redirect points at: the host becomes `www.<Host header>`,
      port included; everything else is the request URL's. */
  function WwwTarget(req: Request): (u: Url)
    ensures u.host == "www." + HostOf(req)
    ensures u.scheme == req.url.scheme && u.pathname == req.url.pathname
    ensures u.query == req.url.query && u.hash == req.url.hash
  {
    req.url.(host := "www." + HostOf(req))
  }

  /** `middleware(request)`. */
  function Handle(req: Request, rootEnv: Option<string>): (d: Decision)
    ensures IsApex(HostOf(req), RootDomain(rootEnv)) ==> d == Redirect(WwwTarget(req), PermanentRedirect)
    ensures !IsApex(HostOf(req), RootDomain(rootEnv)) ==> d == Proxy.Route(req)
  {
    var host := HostOf(req);
    if IsApex(host, RootDomain(rootEnv)) then Redirect(WwwTarget(req), PermanentRedirect)
    else Proxy.Route(req)
  }

  /** The request the browser sends after following a redirect to `target`. */
  function Follow(target: Url): (req: Request)
    ensures HostOf(req) == target.host
    ensures req.url == target
  {
    Request(Some(target.host), target)
  }

  /** The permanent redirect is issued only by the apex rule, and the router's
      own redirects are never permanent. */
  lemma PermanentIffApex(req: Request, rootEnv: Option<string>)
    ensures Handle(req, rootEnv) == Redirect(WwwTarget(req), PermanentRedirect)
        <==> IsApex(HostOf(req), RootDomain(rootEnv))
    ensures Handle(req, rootEnv).Redirect? && Handle(req, rootEnv).status == PermanentRedirect
        ==> IsApex(HostOf(req), RootDomain(rootEnv))
  {
  }

  /** No redirect loop: following the apex redirect reaches a `www.` host,
      which the middleware and the router both let through. */
  lemma {:induction false} ApexRedirectThenPass(req: Request, rootEnv: Option<string>)
    requires IsApex(HostOf(req), RootDomain(rootEnv))
    ensures Handle(Follow(Handle(req, rootEnv).target), rootEnv) == Pass
  {
    var host := HostOf(req);
    var next := Follow(WwwTarget(req));
    assert HostOf(next) == "www." + host;
    BeforePrefix("www.", ':', host);
    assert HostName(HostOf(next)) == "www." + HostName(host);
    assert StartsWith(HostName(HostOf(next)), "www.") by {
      assert ("www." + HostName(host))[..4] == "www.";
    }
    BeforeAppend("www", '.', host);
    assert "www." + host == "www" + ['.'] + host;
    assert TenantLabel(HostOf(next)) == "www";
  }

  /** A missing Host header reads as "", which triggers the apex redirect only
      when the root domain's host part is empty too. */
  lemma MissingHost(req: Request, rootEnv: Option<string>)
    requires req.hostHeader.None?
    ensures Handle(req, rootEnv).Redirect? && Handle(req, rootEnv).status == PermanentRedirect
        <==> HostName(RootDomain(rootEnv)) == ""
  {
    assert HostName("") == "";
  }

  /** A tenant sub-domain `<t>.<root>` (with any port) is never the apex, so it
      reaches the router and is sent to `/auth?subdomain=<t>`. */
  lemma {:induction false} TenantHostReachesRouter(t: string, port: string, req: Request, rootEnv: Option<string>)
    requires t != "" && t != "www" && t != "localhost" && '.' !in t && ':' !in t
    requires req.hostHeader == Some(t + "." + HostName(RootDomain(rootEnv)) + port)
    requires req.url.pathname != AuthPath
    ensures Handle(req, rootEnv)
         == Redirect(req.url.(pathname := AuthPath, query := Set(req.url.query, SubdomainParam, t)),
                     TemporaryRedirect)
  {
    var root := RootDomain(rootEnv);
    var host := t + "." + HostName(root) + port;
    assert HostOf(req) == host;
    TenantHostShape(t, HostName(root), port);
    assert !IsApex(host, root);
    assert Handle(req, rootEnv) == Route(req);
  }

  /** The host name of `<t>.<rh><port>` is longer than `rh`, and its first
      label is `t`. */
  lemma TenantHostShape(t: string, rh: string, port: string)
    requires '.' !in t && ':' !in t && ':' !in rh
    ensures |HostName(t + "." + rh + port)| > |rh|
    ensures TenantLabel(t + "." + rh + port) == t
  {
    var host := t + "." + rh + port;
    assert host == (t + ".") + (rh + port);
    BeforePrefix(t + ".", ':', rh + port);
    BeforePrefix(rh, ':', port);
    assert host == t + ['.'] + (rh + port);
    BeforeAppend(t, '.', rh + port);
  }

  /** Two different port-free host names are never apex and root, whatever
      their spelling; in particular there is no case folding. */
  lemma DistinctNamesAreNotApex(host: string, root: string)
    requires ':' !in host && ':' !in root && host != root
    ensures !IsApex(host, root)
  {
    BeforeAbsent(host, ':');
    BeforeAbsent(root, ':');
  }

  lemma ExampleLabel()
    ensures TenantLabel("Example.com") == "Example" && !IsExemptLabel("Example")
  {
    assert "Example.com" == "Example" + ['.'] + "com";
    BeforeAppend("Example", '.', "com");
    assert "Example"[0] != "www"[0];
  }

  /** Host comparison is exact: an upper-case spelling of the root domain is not
      the apex, and its first label is taken for a tenant. */
  lemma CaseSensitive(url: Url)
    requires url.pathname == "/" && url.query == []
    ensures Handle(Request(Some("Example.com"), url), Some("example.com"))
         == Redirect(url.(pathname := AuthPath, query := [Param(SubdomainParam, "Example")]), TemporaryRedirect)
  {
    var req := Request(Some("Example.com"), url);
    assert HostOf(req) == "Example.com";
    assert RootDomain(Some("example.com")) == "example.com";
    assert "Example.com"[0] != "example.com"[0];
    DistinctNamesAreNotApex("Example.com", "example.com");
    assert Handle(req, Some("example.com")) == Route(req);
    ExampleLabel();
    SetEmpty(SubdomainParam, "Example");
  }

  /** The apex redirect is permanent and changes only the host, to
      `www.<Host header>` with the port kept; scheme, path, query and fragment
      are the request's. */
  lemma ApexRedirectChangesOnlyHost(req: Request, rootEnv: Option<string>)
    requires IsApex(HostOf(req), RootDomain(rootEnv))
    ensures var d := Handle(req, rootEnv);
      && d.Redirect? && d.status == 301
      && d.target.host == "www." + HostOf(req)
      && d.target.scheme == req.url.scheme && d.target.pathname == req.url.pathname
      && d.target.query == req.url.query && d.target.hash == req.url.hash
  {
  }

  /** A port, if any, is dropped from a host name. */
  lemma HostNameOfPorted(rh: string, port: string)
    requires ':' !in rh
    requires port == "" || port[0] == ':'
    ensures HostName(rh + port) == rh
  {
    if port == "" {
      assert rh + port == rh;
      BeforeAbsent(rh, ':');
    } else {
      assert rh + port == rh + [':'] + port[1..];
      BeforeAppend(rh, ':', port[1..]);
    }
  }

  /** Ports play no part in the apex test: a non-`www.` host name is the apex
      of a root domain with the same name, whatever port either one carries. */
  lemma PortedHostIsApex(rh: string, port: string, rootPort: string)
    requires ':' !in rh && !StartsWith(rh, "www.")
    requires port == "" || port[0] == ':'
    requires rootPort == "" || rootPort[0] == ':'
    ensures IsApex(rh + port, rh + rootPort)
  {
    HostNameOfPorted(rh, port);
    HostNameOfPorted(rh, rootPort);
  }

  /** With no root domain configured, the root is `localhost:3000` and every
      `localhost` host, on any port, is the apex, so local development on the
      bare host is sent to `www.localhost`. */
  lemma DefaultHostIsApex(port: string)
    requires port == "" || port[0] == ':'
    ensures RootDomain(None) == "localhost" + ":3000"
    ensures IsApex("localhost" + port, RootDomain(None))
  {
    assert !StartsWith("localhost", "www.") by {
      assert "localhost"[..4][0] != "www."[0];
    }
    PortedHostIsApex("localhost", port, ":3000");
  }

  /** The framework runs the middleware only on paths the route filter matches;
      every other path goes straight through. */
  function Dispatch(req: Request, rootEnv: Option<string>): (d: Decision)
    ensures !Matches(req.url.pathname) ==> d == Pass
    ensures Matches(req.url.pathname) ==> d == Handle(req, rootEnv)
  {
    if Matches(req.url.pathname) then Handle(req, rootEnv) else Pass
  }

  /** API routes are never redirected, whatever the host. */
  lemma ApiRoutesPass(req: Request, rootEnv: Option<string>)
    requires StartsWith(req.url.pathname, "/api")
    ensures Dispatch(req, rootEnv) == Pass
  {
    assert req.url.pathname[1..][..3] == req.url.pathname[1..4];
  }
}
